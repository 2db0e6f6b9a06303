/**
 The pattern compiler of `src/solver.rs`: it turns the letters already used
 and a slot pattern (`_` for an unknown letter) into the text of a regular
 expression, compiles it, and lists the matches of that expression in a word
 list.
 */
module Solver {
  import opened Wrappers
  import opened RegexSubset

  /** Inputs inside the alphabet the compiler is meant for: `a`-`z` and `_`. */
  predicate ValidInput(s: string) {
    forall c :: c in s ==> ClassMember(c)
  }

  /** The used letters with every `_` dropped, in input order, duplicates kept. */
  function Unwildcarded(used: string): (r: string)
    ensures forall c :: c in r <==> c in used && c != '_'
  {
    if used == [] then []
    else
      var last := used[|used| - 1];
      assert used == used[..|used| - 1] + [last];
      Unwildcarded(used[..|used| - 1]) + (if last == '_' then [] else [last])
  }

  /** The exclusion list inside the wildcard class: the used letters without
      `_`, then one `_` if the used letters hold any. */
  function ExclusionList(used: string): (r: string)
    ensures forall c :: c in r <==> c in used
  {
    Unwildcarded(used) + (if '_' in used then "_" else "")
  }

  /** The compiled form of one pattern character. */
  function SlotFor(used: string, c: char): Slot {
    if c == '_' then Class(ExclusionList(used)) else Literal(c)
  }

  /** The compiled form of a pattern: one slot per pattern character, in order. */
  function Slots(used: string, pattern: string): (r: seq<Slot>)
    ensures |r| == |pattern|
  {
    seq(|pattern|, k requires 0 <= k < |pattern| => SlotFor(used, pattern[k]))
  }

  /** The text of the pattern's pieces, one per pattern character in order:
      the wildcard class for `_`, the character itself otherwise. */
  function Pieces(used: string, pattern: string): string {
    if pattern == [] then []
    else Pieces(used, pattern[..|pattern| - 1]) + RenderSlot(SlotFor(used, pattern[|pattern| - 1]))
  }

  /** The regular-expression text `match_regex` builds. */
  function RegexText(used: string, pattern: string): string {
    MultiLineStart + Pieces(used, pattern) + WordBoundary
  }

  /** `match_regex`'s construction of the expression text. It first builds
      the wildcard class `any_letter`: `[a-z&&[^`, the used letters without
      `_`, then each used character the class does not contain yet (which
      can only be `_`, once), then `]]`. It then builds `reg`: `(?m)^`, one
      piece per pattern character in order (the class for `_`, the character
      itself otherwise), then `\b`. */
  method BuildRegexText(used: string, pattern: string) returns (reg: string)
    ensures reg == RegexText(used, pattern)
  {
    reg := MultiLineStart;
    var anyLetter := ClassOpen;
    for i := 0 to |used|
      invariant anyLetter == ClassOpen + Unwildcarded(used[..i])
    {
      assert used[..i + 1][..i] == used[..i];
      if used[i] != '_' {
        anyLetter := anyLetter + [used[i]];
      }
    }
    assert used[..|used|] == used;
    assert '_' !in ClassOpen;
    for i := 0 to |used|
      invariant anyLetter == ClassOpen + Unwildcarded(used) + (if '_' in used[..i] then "_" else "")
    {
      assert '_' in used[..i + 1] <==> '_' in used[..i] || used[i] == '_' by {
        assert used[..i + 1] == used[..i] + [used[i]];
      }
      if used[i] !in anyLetter {
        anyLetter := anyLetter + [used[i]];
      }
    }
    anyLetter := anyLetter + ClassClose;
    assert anyLetter == RenderSlot(SlotFor(used, '_'));
    for i := 0 to |pattern|
      invariant reg == MultiLineStart + Pieces(used, pattern[..i])
    {
      assert pattern[..i + 1][..i] == pattern[..i];
      AppendAssociates(MultiLineStart, Pieces(used, pattern[..i]), RenderSlot(SlotFor(used, pattern[i])));
      if pattern[i] == '_' {
        reg := reg + anyLetter;
      } else {
        reg := reg + [pattern[i]];
      }
    }
    assert pattern[..|pattern|] == pattern;
    reg := reg + WordBoundary;
  }

  lemma AppendAssociates(a: string, b: string, c: string)
    ensures (a + b) + c == a + (b + c)
  {
  }

  /** `match_regex`: builds the text and compiles it. `None` is the failed
      compilation on which `match_regex`'s `unwrap` panics: it happens exactly
      when the pattern has a wildcard and no letter has been used yet. */
  method MatchRegex(used: string, pattern: string) returns (compiled: Option<seq<Slot>>)
    ensures compiled.Some? ==> forall k :: 0 <= k < |compiled.value| ==> WellFormed(compiled.value[k])
    ensures ValidInput(used) && ValidInput(pattern) ==>
              compiled == if '_' in pattern && used == [] then None else Some(Slots(used, pattern))
  {
    var text := BuildRegexText(used, pattern);
    compiled := Parse(text);
    if ValidInput(used) && ValidInput(pattern) {
      CompileOutcome(used, pattern);
    }
  }

  /** `get_matches`: the matched words, leftmost first, as `find_iter` reports them. */
  function GetMatches(slots: seq<Slot>, corpus: string): (r: seq<string>)
    ensures |r| == |FindIter(slots, corpus, 0)|
    ensures forall k :: 0 <= k < |r| ==> |r[k]| == |slots|
    ensures forall k, j :: 0 <= k < |r| && 0 <= j < |slots| ==> SlotAccepts(slots[j], r[k][j])
  {
    var starts := FindIter(slots, corpus, 0);
    seq(|starts|, k requires 0 <= k < |starts| => corpus[starts[k]..starts[k] + |slots|])
  }

  /** The candidate words for the used letters and the pattern: each as long
      as the pattern, equal to it at every fixed letter, and holding an
      unused lower-case letter at every `_`. */
  function Candidates(used: string, pattern: string, corpus: string): (r: seq<string>)
    ensures forall k :: 0 <= k < |r| ==> |r[k]| == |pattern|
    ensures forall k, j :: 0 <= k < |r| && 0 <= j < |pattern| && pattern[j] != '_' ==> r[k][j] == pattern[j]
    ensures forall k, j :: 0 <= k < |r| && 0 <= j < |pattern| && pattern[j] == '_' ==>
              IsLower(r[k][j]) && r[k][j] !in used
  {
    var slots := Slots(used, pattern);
    var words := GetMatches(slots, corpus);
    assert forall j :: 0 <= j < |pattern| ==> slots[j] == SlotFor(used, pattern[j]);
    words
  }

  // ---------------------------------------------------------------------------
  // The expression text
  // ---------------------------------------------------------------------------

  lemma {:induction false} UnwildcardedCounts(used: string)
    ensures forall c :: multiset(Unwildcarded(used))[c] == if c == '_' then 0 else multiset(used)[c]
  {
    if used != [] {
      var init := used[..|used| - 1];
      var last := used[|used| - 1];
      assert used == init + [last];
      UnwildcardedCounts(init);
    }
  }

  /** The exclusion list holds exactly the used characters: every used letter
      as often as it was used, and `_` once if it was used at all. */
  lemma ExclusionListLayout(used: string)
    ensures forall c :: c in ExclusionList(used) <==> c in used
    ensures forall c :: c != '_' ==> multiset(ExclusionList(used))[c] == multiset(used)[c]
    ensures multiset(ExclusionList(used))['_'] == if '_' in used then 1 else 0
    ensures ExclusionList(used) == [] <==> used == []
  {
    UnwildcardedCounts(used);
    if used != [] {
      assert used[0] in ExclusionList(used);
    }
  }

  /** The pieces are the rendering of the compiled slots. */
  lemma {:induction false} PiecesAreRendering(used: string, pattern: string)
    ensures Pieces(used, pattern) == RenderBody(Slots(used, pattern))
  {
    if pattern != [] {
      var init := pattern[..|pattern| - 1];
      var last := pattern[|pattern| - 1];
      PiecesAreRendering(used, init);
      SlotsSnoc(used, pattern);
      RenderBodyAppend(Slots(used, init), SlotFor(used, last));
    }
  }

  lemma SlotsSnoc(used: string, pattern: string)
    requires pattern != []
    ensures Slots(used, pattern) == Slots(used, pattern[..|pattern| - 1]) + [SlotFor(used, pattern[|pattern| - 1])]
  {
  }

  lemma {:induction false} RenderBodyOfLiterals(used: string, pattern: string)
    requires '_' !in pattern
    ensures RenderBody(Slots(used, pattern)) == pattern
  {
    if pattern != [] {
      assert Slots(used, pattern)[1..] == Slots(used, pattern[1..]);
      RenderBodyOfLiterals(used, pattern[1..]);
      assert pattern == [pattern[0]] + pattern[1..];
    }
  }

  /** A pattern without wildcards is copied verbatim between `(?m)^` and `\b`. */
  lemma NoWildcardText(used: string, pattern: string)
    requires '_' !in pattern
    ensures RegexText(used, pattern) == MultiLineStart + pattern + WordBoundary
  {
    PiecesAreRendering(used, pattern);
    RenderBodyOfLiterals(used, pattern);
  }

  /** Each pattern character contributes its own piece, in pattern order: the
      text of a concatenated pattern is the concatenation of the texts. */
  lemma {:induction false} BodyConcat(used: string, p: string, q: string)
    ensures RenderBody(Slots(used, p + q)) == RenderBody(Slots(used, p)) + RenderBody(Slots(used, q))
  {
    if p == [] {
      assert p + q == q;
    } else {
      assert (p + q)[1..] == p[1..] + q;
      assert Slots(used, p + q)[1..] == Slots(used, p[1..] + q);
      assert Slots(used, p)[1..] == Slots(used, p[1..]);
      BodyConcat(used, p[1..], q);
    }
  }

  /** Compiling the text succeeds, giving back the pattern's slots, unless the
      pattern has a wildcard and the used letters are empty. */
  lemma CompileOutcome(used: string, pattern: string)
    requires ValidInput(used) && ValidInput(pattern)
    ensures Parse(RegexText(used, pattern))
            == if '_' in pattern && used == [] then None else Some(Slots(used, pattern))
  {
    var slots := Slots(used, pattern);
    ExclusionListLayout(used);
    assert Renderable(slots) by {
      forall k | 0 <= k < |slots|
        ensures WellFormed(slots[k]) || slots[k] == Class([])
      {
        assert pattern[k] in pattern;
      }
    }
    assert HasEmptyClass(slots) <==> '_' in pattern && used == [] by {
      if '_' in pattern && used == [] {
        var k :| 0 <= k < |pattern| && pattern[k] == '_';
        assert slots[k] == Class([]);
      }
    }
    PiecesAreRendering(used, pattern);
    ParseRender(slots);
  }

  // ---------------------------------------------------------------------------
  // What the expression accepts
  // ---------------------------------------------------------------------------

  lemma SlotsAreWordSlots(used: string, pattern: string)
    requires ValidInput(pattern)
    ensures WordSlots(Slots(used, pattern))
  {
    forall k | 0 <= k < |pattern|
      ensures WordSlot(Slots(used, pattern)[k])
    {
      assert pattern[k] in pattern;
    }
  }

  /** The slots of a pattern accept a stretch of text exactly when it agrees
      with every fixed letter and holds an unused lower-case letter at every
      wildcard. */
  lemma SlotsAcceptStretch(used: string, pattern: string, text: string, p: nat)
    requires p + |pattern| <= |text|
    ensures (forall k :: 0 <= k < |pattern| ==> SlotAccepts(Slots(used, pattern)[k], text[p + k])) <==>
              && (forall k :: 0 <= k < |pattern| && pattern[k] != '_' ==> text[p + k] == pattern[k])
              && (forall k :: 0 <= k < |pattern| && pattern[k] == '_' ==> IsLower(text[p + k]) && text[p + k] !in used)
  {
    var slots := Slots(used, pattern);
    forall k | 0 <= k < |pattern|
      ensures SlotAccepts(slots[k], text[p + k]) <==>
                (pattern[k] != '_' ==> text[p + k] == pattern[k]) &&
                (pattern[k] == '_' ==> IsLower(text[p + k]) && text[p + k] !in used)
    {
    }
  }

  /** The last character of an accepted stretch is a word character, so the
      trailing `\b` only asks that no word character follows. */
  lemma AcceptedStretchEndsInWord(used: string, pattern: string, text: string, p: nat)
    requires ValidInput(pattern) && |pattern| > 0 && p + |pattern| <= |text|
    requires forall k :: 0 <= k < |pattern| ==> SlotAccepts(Slots(used, pattern)[k], text[p + k])
    ensures WordAt(text, p + |pattern| - 1)
  {
    var n := |pattern|;
    assert SlotAccepts(Slots(used, pattern)[n - 1], text[p + n - 1]);
    assert pattern[n - 1] in pattern;
  }

  /** A match of a non-empty pattern begins a line, is exactly as long as the
      pattern, agrees with every fixed letter, holds an unused lower-case
      letter in every wildcard slot, and is followed by the end of the text or
      a non-word character. */
  lemma AcceptedWord(used: string, pattern: string, text: string, p: nat)
    requires ValidInput(pattern) && |pattern| > 0
    ensures MatchesAt(Slots(used, pattern), text, p) <==>
              && AtLineStart(text, p)
              && p + |pattern| <= |text|
              && (forall k :: 0 <= k < |pattern| && pattern[k] != '_' ==> text[p + k] == pattern[k])
              && (forall k :: 0 <= k < |pattern| && pattern[k] == '_' ==> IsLower(text[p + k]) && text[p + k] !in used)
              && (p + |pattern| == |text| || !IsWordChar(text[p + |pattern|]))
  {
    var slots := Slots(used, pattern);
    if p + |pattern| <= |text| {
      SlotsAcceptStretch(used, pattern, text, p);
      if forall k :: 0 <= k < |pattern| ==> SlotAccepts(slots[k], text[p + k]) {
        AcceptedStretchEndsInWord(used, pattern, text, p);
      }
    }
  }

  /** With no wildcard, every match is the pattern itself. */
  lemma NoWildcardExact(used: string, pattern: string, corpus: string)
    requires '_' !in pattern
    ensures forall w :: w in Candidates(used, pattern, corpus) ==> w == pattern
  {
  }

  /** Matches come in corpus order, each position once, and every matching
      position of the corpus is among them. */
  lemma MatchesInCorpusOrder(used: string, pattern: string, corpus: string)
    requires ValidInput(pattern)
    ensures forall k, l :: 0 <= k < l < |FindIter(Slots(used, pattern), corpus, 0)| ==>
              FindIter(Slots(used, pattern), corpus, 0)[k] < FindIter(Slots(used, pattern), corpus, 0)[l]
    ensures forall p: nat :: p in FindIter(Slots(used, pattern), corpus, 0) <==>
              p <= |corpus| && MatchesAt(Slots(used, pattern), corpus, p)
  {
    SlotsAreWordSlots(used, pattern);
    FindIterIsAllMatches(Slots(used, pattern), corpus, 0);
  }

  lemma {:induction false} FewerMatchStarts(fewer: seq<Slot>, more: seq<Slot>, text: string, from: nat)
    requires forall p: nat :: MatchesAt(fewer, text, p) ==> MatchesAt(more, text, p)
    ensures |AllMatchStarts(fewer, text, from)| <= |AllMatchStarts(more, text, from)|
    decreases |text| + 1 - from
  {
    if from <= |text| {
      FewerMatchStarts(fewer, more, text, from + 1);
    }
  }

  lemma SlotForMonotone(used: string, more: string, c: char, x: char)
    requires forall u :: u in used ==> u in more
    requires SlotAccepts(SlotFor(more, c), x)
    ensures SlotAccepts(SlotFor(used, c), x)
  {
  }

  /** Every word accepted under more used letters is accepted under fewer. */
  lemma MoreUsedLettersAcceptLess(used: string, more: string, pattern: string, text: string)
    requires forall c :: c in used ==> c in more
    ensures forall p: nat :: MatchesAt(Slots(more, pattern), text, p) ==> MatchesAt(Slots(used, pattern), text, p)
  {
    var fewer, wider := Slots(more, pattern), Slots(used, pattern);
    forall p: nat | MatchesAt(fewer, text, p)
      ensures MatchesAt(wider, text, p)
    {
      forall k | 0 <= k < |pattern|
        ensures SlotAccepts(wider[k], text[p + k])
      {
        assert SlotAccepts(fewer[k], text[p + k]);
        SlotForMonotone(used, more, pattern[k], text[p + k]);
      }
    }
  }

  /** Using more letters only removes matches: every match position for the
      larger set of used letters is one for the smaller, and there are no more
      candidates. */
  lemma MoreUsedLettersFewerMatches(used: string, more: string, pattern: string, corpus: string)
    requires forall c :: c in used ==> c in more
    requires ValidInput(pattern)
    ensures forall p :: p in FindIter(Slots(more, pattern), corpus, 0) ==> p in FindIter(Slots(used, pattern), corpus, 0)
    ensures |Candidates(more, pattern, corpus)| <= |Candidates(used, pattern, corpus)|
  {
    var fewer, wider := Slots(more, pattern), Slots(used, pattern);
    MoreUsedLettersAcceptLess(used, more, pattern, corpus);
    SlotsAreWordSlots(used, pattern);
    SlotsAreWordSlots(more, pattern);
    FindIterIsAllMatches(fewer, corpus, 0);
    FindIterIsAllMatches(wider, corpus, 0);
    FewerMatchStarts(fewer, wider, corpus, 0);
  }

  /** A wildcard whose class excludes every letter accepts nothing, so the
      word list has no candidates. */
  lemma FullyExcludedWildcardMatchesNothing(used: string, pattern: string, corpus: string)
    requires forall c :: IsLower(c) ==> c in used
    requires '_' in pattern
    ensures Candidates(used, pattern, corpus) == []
  {
    var slots := Slots(used, pattern);
    var j :| 0 <= j < |pattern| && pattern[j] == '_';
    assert slots[j] == Class(ExclusionList(used));
    forall p: nat
      ensures !MatchesAt(slots, corpus, p)
    {
      if p + |slots| <= |corpus| {
        assert !SlotAccepts(slots[j], corpus[p + j]);
      }
    }
    assert NextMatch(slots, corpus, 0) == None;
  }
}
