# hangman-words: the word-guessing solver, in Dafny

This project models the core of a helper for word-guessing games such as
hangman. The player gives the letters already used and a pattern with one
symbol per letter of the hidden word: a known letter, or `_` for an unknown
one. The helper compiles these into a regular expression, scans a word list
with one word per line, and does one of two things. It lists the candidate
words, or, with `--next-letter`, it names the unused letter that occurs in
the most candidates.

The model has four modules:

- `Wrappers` (`wrappers.dfy`): the `Option` datatype.
- `RegexSubset` (`regex_subset.dfy`): what the generated expression means.
  The expression is `(?m)^`, then one piece per slot, then `\b`. A piece is a
  literal letter or the class `[a-z&&[^...]]`. A compiled expression is a
  sequence of `Slot`s, and `MatchesAt` says when it matches a text at a
  position. `Parse` stands for `Regex::new`: it compiles the text of this
  language and gives `None` where compilation fails. `Render` is its inverse,
  and `ParseRender` proves the round trip. `FindIter` stands for `find_iter`:
  take the leftmost match, then search again from where it ends.
  `FindIterIsAllMatches` proves this gives every match position in order.
- `Solver` (`solver.dfy`), for `src/solver.rs`. `BuildRegexText` builds the
  text with the same three loops as `match_regex`. It is proved equal to the
  specification function `RegexText`. `MatchRegex` adds the compilation step,
  and `GetMatches` is `get_matches`. The lemmas cover the class layout, the
  text of a pattern without wildcards, and when compilation succeeds. They
  also cover what a match looks like, corpus order, and monotonicity in the
  used letters.
- `SolveCommand` (`solve_command.dfy`), for the `solve` arm of `main` in
  `src/main.rs`. `ScanMatches` is the loop over the matches: it either emits
  each match or builds the `word_having` count table. `TallyWord` is the
  inner loop over the alphabet. `PickNextLetter` is the selection loop over
  the table, which keeps the strictly largest count. It visits the keys in
  an unspecified order, as `main`'s `HashMap` does. `Solve` chains all of
  these steps together.

Where the code differs from what its documentation suggests, the model follows
the code:

- With no used letters, the class is `[a-z&&[^]]`. Right after `[^`, a `]` is
  read as a literal member, so the outer class is never closed and
  `Regex::new(..).unwrap()` panics. So empty used letters do not make every
  wildcard accept any letter. Any pattern with a `_` fails instead
  (`CompileOutcome`, `Solve`).
- When every letter `a`-`z` has been used, the class `[a-z&&[^a...z]]` has
  no members. The model follows regex 1.8 and later, where such a class
  compiles and matches nothing, so there are no candidates
  (`FullyExcludedWildcardMatchesNothing`).
- The fallback answer `a` with count 0 is reported even when `a` is already
  used (`FallbackMayBeUsed`). Only a positive count guarantees an unused
  letter.
- The winner among tied letters depends on the hash map's iteration order.
  The model promises only some letter with the largest count
  (`TieLeavesLetterOpen`, `SuggestedCountIsDetermined`).

## Model

| member | source | states |
|---|---|---|
| `Solver.ExclusionList` | src/solver.rs:3-13 | the characters listed in the wildcard class are exactly the used characters |
| `Solver.Unwildcarded` | src/solver.rs:4-6 | the letters pushed by the first loop are exactly the used characters other than `_` |
| `Solver.BuildRegexText` | src/solver.rs:1-22 | the three loops build `(?m)^`, then one piece per pattern character (the class `[a-z&&[^` + exclusion list + `]]` for `_`, the character otherwise), then `\b` |
| `Solver.ExclusionListLayout` | src/solver.rs:3-13 | the class lists exactly the used characters: each letter as often as it was used, and `_` once if and only if it was used; the list is empty only for empty used letters |
| `Solver.PiecesAreRendering` | src/solver.rs:14-20 | the pieces appended for the pattern are the text of its compiled slots, one per character |
| `Solver.BodyConcat` | src/solver.rs:14-20 | each pattern character contributes its own piece, in pattern order: the text of `p + q` is the text of `p` followed by that of `q` |
| `Solver.NoWildcardText` | src/solver.rs:14-22 | a pattern without `_` yields exactly `(?m)^` + pattern + `\b`, with no class |
| `Solver.CompileOutcome` | src/solver.rs:23 | for inputs over `a`-`z` and `_`, compiling the text fails exactly when the pattern has a `_` and the used letters are empty; otherwise it gives the pattern's slots |
| `Solver.MatchRegex` | src/solver.rs:1-24 | the compiled expression is well formed; for inputs over `a`-`z` and `_` it is `None` (the panic) exactly when the pattern has a `_` and nothing was used, and otherwise the pattern's slots |
| `Solver.Candidates` | src/main.rs:131-136 | every word the solve arm visits is as long as the pattern, equals it at every fixed letter, and holds a lower-case letter that was not used at every `_` |
| `Solver.GetMatches` | src/solver.rs:26-31 | one word per reported match, each as long as the pattern, with every character accepted by its slot |
| `Solver.AcceptedWord` | src/solver.rs:2-22 | a match of a non-empty pattern starts a line, is as long as the pattern, equals every fixed letter, holds an unused `a`-`z` letter in every `_` slot, and is followed by the end of the text or a non-word character |
| `Solver.NoWildcardExact` | src/solver.rs:14-31 | with no `_`, every candidate is the pattern itself |
| `Solver.MatchesInCorpusOrder` | src/solver.rs:26-31 | the reported positions strictly increase, and a position is reported exactly when the expression matches there |
| `Solver.MoreUsedLettersAcceptLess` | src/solver.rs:3-16 | a word accepted with more used letters is accepted with fewer |
| `Solver.FullyExcludedWildcardMatchesNothing` | src/solver.rs:3-30 | when every letter `a`-`z` is used, a pattern with a `_` has no candidates, because its class accepts no letter (regex 1.8 and later) |
| `Solver.MoreUsedLettersFewerMatches` | src/solver.rs:3-31 | adding used letters only removes match positions and never increases the number of candidates |
| `RegexSubset.SplitClass` | src/solver.rs:13 | a successful split at the first `]]` gives back the text as content + `]]` + rest, with content over `a`-`z` and `_` |
| `RegexSubset.SplitClassOf` | src/solver.rs:3-13 | a class body over `a`-`z` and `_` followed by `]]` is split back into exactly that body and the rest |
| `RegexSubset.ParseBody` | src/solver.rs:23 | whatever compiles after `(?m)^` is a sequence of well-formed slots |
| `RegexSubset.Parse` | src/solver.rs:23 | whatever compiles is a sequence of well-formed slots |
| `RegexSubset.ParseRenderBody` | src/solver.rs:14-23 | compiling the rendered slots followed by `\b` gives them back, or fails when a class is empty |
| `RegexSubset.ParseRender` | src/solver.rs:2-23 | round trip: compiling the text of an expression gives back its slots, unless a class is empty, in which case compilation fails |
| `RegexSubset.MatchesAt` | src/solver.rs:2-22 | the meaning of the expression at a position: `(?m)^` (start of text or after a line break), one accepted character per slot, then `\b` (a word character on exactly one side) |
| `RegexSubset.Resume` | src/solver.rs:30 | the search always moves forward: past the whole match, or one position after an empty match |
| `RegexSubset.NextMatch` | src/solver.rs:30 | the leftmost match at or after a position, and no match before it; or no match at all from there on |
| `RegexSubset.FindIter` | src/solver.rs:30 | every reported position is a match, and reported matches do not overlap and come in increasing order |
| `RegexSubset.AllMatchStarts` | src/solver.rs:26-31 | every match position of the text from a given point, each once, in increasing order |
| `RegexSubset.NoMatchInside` | src/solver.rs:2 | no match starts inside another: a slot never accepts the line break a match needs before it |
| `RegexSubset.ResumeStep` | src/solver.rs:30 | the match positions from a match on are that match followed by the positions from where the search resumes |
| `RegexSubset.FindIterIsAllMatches` | src/solver.rs:26-31 | leftmost, non-overlapping iteration reports exactly all match positions, in order |
| `SolveCommand.WordsHaving` | src/main.rs:138-147 | a letter's count is at most the number of matches, and is 0 exactly when no match contains the letter |
| `SolveCommand.WordsHavingCountsWords` | src/main.rs:138-147 | a letter's count is the number of matches that contain it: a match containing the letter several times adds 1, not one per occurrence |
| `SolveCommand.TallyWord` | src/main.rs:138-149 | testing every alphabet letter once against a match turns the table for the earlier matches into the table that includes this one |
| `SolveCommand.ScanMatches` | src/main.rs:136-153 | without `NEXT_LETTER` every match is emitted once, in order, and the table stays empty; with it nothing is emitted, and the table holds exactly the letters found in some match, each with the number of matches containing it |
| `SolveCommand.PickNextLetter` | src/main.rs:154-162 | a positive count belongs to a table letter that is not used; the count is at least that of every unused table letter; a count of 0 comes with `a` |
| `SolveCommand.Solve` | src/main.rs:125-165 | list mode reports the candidates and suggestion mode a letter with the largest count among unused letters (`a` and 0 if none); a pattern with `_` and no used letters is the compile failure |
| `SolveCommand.SuggestedCountIsDetermined` | src/main.rs:157-161 | all valid answers report the same count, whatever the map's order |
| `SolveCommand.TieLeavesLetterOpen` | src/main.rs:157-161 | for any word list and used letters, when an unused letter ties with a valid answer's positive count, it is a valid answer too |
| `SolveCommand.FallbackWhenNothingQualifies` | src/main.rs:155-162 | when every letter found in a match is already used, the answer is `a` with count 0 |
| `SolveCommand.FallbackMayBeUsed` | src/main.rs:155-163 | for any word list and used letters, when no unused letter occurs in a match, `a` with count 0 is a valid answer, with no condition that `a` is unused |
| `SolveCommand.EmptyCorpus` | src/main.rs:136-162 | an empty word list has no candidates, and the answer is `a` with count 0 |

## Left out

- Command-line parsing and validation (`build_cli`, `is_usize`, `is_valid_file`, `is_valid_yaml_file`) and the `completions` subcommand: argument handling with no logic of the solver.
- `load_wordlist` and all printing: file and terminal I/O. `Solve` receives the word list as text, and returns the lines list mode would print and the letter suggestion mode would print.
- The `word` subcommand: it is declared, but `main` has no branch for it.
- The regular-expression engine itself. Only the language the compiler emits for inputs over `a`-`z` and `_` is modelled, and `MatchesAt` gives its meaning. `Parse` gives `None` for any other text, so for used letters or a pattern outside `a`-`z` and `_` the model reports `CompileError` even where `match_regex` compiles. For example, used letters `E` and pattern `_a` give the valid expression `(?m)^[a-z&&[^E]]a\b`, which the model does not compile.
- Solver.CompileOutcome: stated only for used letters and patterns over `a`-`z` and `_`. Other characters are spliced into the expression unescaped, and their meaning is regex syntax beyond this model.
- Solver.CompileOutcome, Solver.MatchRegex and SolveCommand.Solve assume regex 1.8 or later, where a class with no members compiles and matches nothing. With regex 1.0-1.7, such a class is refused with an empty-class error. So when all 26 letters are used and the pattern has a `_`, `Regex::new(..).unwrap()` would panic, but the model compiles the expression and finds no candidates. The crate version is not part of this model.
- Solver.MatchRegex: its compile-outcome clause holds only for inputs over `a`-`z` and `_`, for the same reason.
- Solver.AcceptedWord: stated for non-empty patterns. An empty pattern gives `(?m)^\b`, which matches at line starts followed by a word character; `MatchesAt` covers that case but the lemma does not spell it out.
- SolveCommand.Solve: its ensures about candidates hold only for inputs over `a`-`z` and `_`.
- `\b` is modelled with ASCII word characters (letters, digits, `_`); the engine's Unicode word characters beyond ASCII are not modelled.
- Positions are counted in characters, not in UTF-8 bytes. The two agree on ASCII word lists.
- `word_having` counts are `nat` rather than `u64`. A count never exceeds the number of matches, so wrap-around cannot occur at real word-list sizes.
- The alphabet loop of `main` is a separate method (`TallyWord`) called from `ScanMatches`. The order of the effects is unchanged.
