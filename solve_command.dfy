/**
 The `solve` command of `src/main.rs`: compile the pattern, scan the word
 list, and either list the candidate words or suggest the next letter, the
 unused letter found in the most candidates.
 */
module SolveCommand {
  import opened Wrappers
  import opened RegexSubset
  import opened Solver

  /** The letters `a` to `z`, in order. */
  const Alphabet: string := seq(26, k requires 0 <= k < 26 => ('a' as int + k) as char)

  /** The number of words in which `c` occurs at least once. */
  function WordsHaving(words: seq<string>, c: char): (n: nat)
    ensures n <= |words|
    ensures n == 0 <==> forall w :: w in words ==> c !in w
  {
    if words == [] then 0
    else
      var init, last := words[..|words| - 1], words[|words| - 1];
      assert words == init + [last];
      WordsHaving(init, c) + (if c in last then 1 else 0)
  }

  /** What the command reports: a failed compilation (`match_regex`'s `unwrap` panics),
      the listed candidates, or the suggested letter with its count. */
  datatype Outcome = CompileError | Listed(lines: seq<string>) | Suggested(letter: char, count: nat)

  /** `letter` with `count` is a valid answer of the next-letter selection
      over `words`: `count` is the largest number of words having a letter
      not in `used` (0 if there is none), and `letter` is such a letter, or
      `a` when `count` is 0. */
  predicate IsSuggestion(words: seq<string>, used: string, letter: char, count: nat) {
    && (count > 0 ==> IsLower(letter) && letter !in used && WordsHaving(words, letter) == count)
    && (count == 0 ==> letter == 'a')
    && (forall c :: IsLower(c) && c !in used ==> WordsHaving(words, c) <= count)
  }

  /** A letter of the alphabet counted while testing the first `j` letters. */
  predicate Tested(c: char, j: int) {
    'a' as int <= c as int < 'a' as int + j
  }

  /** The loop of the `solve` arm over the matches: with `NEXT_LETTER`, each
      match adds 1 to the count of every alphabet letter it contains
      (`word_having`); without it, each match is emitted as a line. */
  method ScanMatches(matches: seq<string>, nextLetter: bool) returns (emitted: seq<string>, table: map<char, nat>)
    ensures !nextLetter ==> emitted == matches && table == map[]
    ensures nextLetter ==> emitted == []
    ensures nextLetter ==> forall c :: c in table <==> IsLower(c) && WordsHaving(matches, c) > 0
    ensures nextLetter ==> forall c :: c in table ==> table[c] == WordsHaving(matches, c)
  {
    emitted, table := [], map[];
    for i := 0 to |matches|
      invariant !nextLetter ==> emitted == matches[..i] && table == map[]
      invariant nextLetter ==> emitted == []
      invariant nextLetter ==> forall c :: c in table <==> IsLower(c) && WordsHaving(matches[..i], c) > 0
      invariant nextLetter ==> forall c :: c in table ==> table[c] == WordsHaving(matches[..i], c)
    {
      var word := matches[i];
      assert matches[..i + 1] == matches[..i] + [word];
      assert matches[..i + 1][..i] == matches[..i];
      if nextLetter {
        table := TallyWord(table, word, matches[..i]);
      } else {
        emitted := emitted + [word];
      }
    }
    assert matches[..|matches|] == matches;
  }

  /** The inner loop of the scan: test every alphabet letter once against
      `word` and add 1 to the count of each letter it contains. */
  method TallyWord(table0: map<char, nat>, word: string, ghost done: seq<string>) returns (table: map<char, nat>)
    requires forall c :: c in table0 <==> IsLower(c) && WordsHaving(done, c) > 0
    requires forall c :: c in table0 ==> table0[c] == WordsHaving(done, c)
    ensures forall c :: c in table <==> IsLower(c) && WordsHaving(done + [word], c) > 0
    ensures forall c :: c in table ==> table[c] == WordsHaving(done + [word], c)
  {
    table := table0;
    for j := 0 to |Alphabet|
      invariant forall c :: c in table <==> IsLower(c) && (WordsHaving(done, c) > 0 || (Tested(c, j) && c in word))
      invariant forall c :: c in table ==> table[c] == WordsHaving(done, c) + (if Tested(c, j) && c in word then 1 else 0)
    {
      var letter := Alphabet[j];
      if letter in word {
        if letter in table {
          table := table[letter := table[letter] + 1];
        } else {
          table := table[letter := 1];
        }
      }
    }
    assert (done + [word])[..|done|] == done;
  }

  /** The selection after the scan: visit the table in an unspecified order
      (the order of `main`'s `HashMap`) and keep the unused letter with
      the strictly largest count, starting from `a` with count 0. */
  method PickNextLetter(table: map<char, nat>, used: string) returns (letter: char, count: nat)
    ensures count > 0 ==> letter in table && letter !in used && table[letter] == count
    ensures count == 0 ==> letter == 'a'
    ensures forall c :: c in table && c !in used ==> table[c] <= count
  {
    count, letter := 0, 'a';
    var remaining := table.Keys;
    while remaining != {}
      invariant remaining <= table.Keys
      invariant count > 0 ==> letter in table && letter !in used && table[letter] == count
      invariant count == 0 ==> letter == 'a'
      invariant forall c :: c in table && c !in remaining && c !in used ==> table[c] <= count
      decreases remaining
    {
      var c :| c in remaining;
      if table[c] > count && c !in used {
        letter, count := c, table[c];
      }
      remaining := remaining - {c};
    }
  }

  /** The `solve` arm of `main`, from the compiled expression to the report. */
  method Solve(used: string, pattern: string, corpus: string, nextLetter: bool) returns (out: Outcome)
    ensures nextLetter ==> !out.Listed?
    ensures !nextLetter ==> !out.Suggested?
    ensures ValidInput(used) && ValidInput(pattern) ==> (out.CompileError? <==> '_' in pattern && used == [])
    ensures ValidInput(used) && ValidInput(pattern) && out.Listed? ==>
              out.lines == Candidates(used, pattern, corpus)
    ensures ValidInput(used) && ValidInput(pattern) && out.Suggested? ==>
              IsSuggestion(Candidates(used, pattern, corpus), used, out.letter, out.count)
  {
    var compiled := MatchRegex(used, pattern);
    if compiled.None? {
      return CompileError;
    }
    var matches := GetMatches(compiled.value, corpus);
    var emitted, table := ScanMatches(matches, nextLetter);
    if nextLetter {
      var letter, count := PickNextLetter(table, used);
      out := Suggested(letter, count);
      assert count > 0 ==> IsLower(letter);
    } else {
      out := Listed(emitted);
    }
  }

  // ---------------------------------------------------------------------------
  // Properties of the suggestion
  // ---------------------------------------------------------------------------

  /** Ties make the letter unspecified, but never the count: any two answers
      report the same count. */
  lemma SuggestedCountIsDetermined(words: seq<string>, used: string, l1: char, n1: nat, l2: char, n2: nat)
    requires IsSuggestion(words, used, l1, n1) && IsSuggestion(words, used, l2, n2)
    ensures n1 == n2
  {
  }

  /** With no candidates, or when every letter found in a candidate is already
      used, the answer is the fallback `a` with count 0. */
  lemma FallbackWhenNothingQualifies(words: seq<string>, used: string, letter: char, count: nat)
    requires IsSuggestion(words, used, letter, count)
    requires forall c :: IsLower(c) && WordsHaving(words, c) > 0 ==> c in used
    ensures letter == 'a' && count == 0
  {
  }

  /** The indexes of the words in which `c` occurs. */
  function WordsWith(words: seq<string>, c: char): set<nat> {
    set i: nat | i < |words| && c in words[i]
  }

  /** `WordsHaving` counts words, not occurrences: it is the number of
      positions in `words` holding a word that contains `c`, so a word
      containing `c` several times is counted once. */
  lemma {:induction false} WordsHavingCountsWords(words: seq<string>, c: char)
    ensures WordsHaving(words, c) == |WordsWith(words, c)|
  {
    if words != [] {
      var n := |words| - 1;
      var init := words[..n];
      WordsHavingCountsWords(init, c);
      assert WordsWith(words, c) == WordsWith(init, c) + (if c in words[n] then {n} else {}) by {
        forall i: nat | i < n
          ensures words[i] == init[i]
        {
        }
      }
      assert n !in WordsWith(init, c);
    }
  }

  /** When two unused letters are tied at the largest count, either one is
      a valid answer. */
  lemma TieLeavesLetterOpen(words: seq<string>, used: string, l1: char, l2: char, n: nat)
    requires IsSuggestion(words, used, l1, n) && n > 0
    requires IsLower(l2) && l2 !in used && WordsHaving(words, l2) == n
    ensures IsSuggestion(words, used, l2, n)
  {
  }

  /** When no unused letter occurs in any word, `a` with count 0 is a valid
      answer, whether or not `a` is among the used letters. */
  lemma FallbackMayBeUsed(words: seq<string>, used: string)
    requires forall c :: IsLower(c) && c !in used ==> WordsHaving(words, c) == 0
    ensures IsSuggestion(words, used, 'a', 0)
  {
  }

  /** An empty word list has no candidates, so the suggestion is the fallback. */
  lemma EmptyCorpus(used: string, pattern: string, letter: char, count: nat)
    requires IsSuggestion(Candidates(used, pattern, ""), used, letter, count)
    ensures Candidates(used, pattern, "") == []
    ensures letter == 'a' && count == 0
  {
  }
}
