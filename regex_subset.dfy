/**
 The meaning of the small regular-expression language that the pattern
 compiler emits: `(?m)^`, then one piece per letter slot (a lower-case letter
 or a class `[a-z&&[^...]]`), then `\b`.

 A compiled expression is a sequence of slots, each matching exactly one
 character. `Parse` stands for compiling the text (`Regex::new(..)`): it yields
 `None` where compilation fails. `FindIter` stands for iterating over the
 leftmost, non-overlapping matches in a text (`find_iter`).
 */
module RegexSubset {
  import opened Wrappers

  /** One position of a fixed-width expression: a literal character, or the
      class of lower-case letters minus the listed ones. */
  datatype Slot = Literal(c: char) | Class(excluded: seq<char>)

  const MultiLineStart: string := "(?m)^"
  const ClassOpen: string := "[a-z&&[^"
  const ClassClose: string := "]]"
  const WordBoundary: string := "\\b"

  predicate IsLower(c: char) {
    'a' <= c <= 'z'
  }

  /** A character of `\w`, read as ASCII: a letter, a digit or `_`. */
  predicate IsWordChar(c: char) {
    IsLower(c) || 'A' <= c <= 'Z' || '0' <= c <= '9' || c == '_'
  }

  /** The characters that may appear in an exclusion list. */
  predicate ClassMember(c: char) {
    IsLower(c) || c == '_'
  }

  predicate SlotAccepts(s: Slot, x: char) {
    match s
    case Literal(c) => x == c
    case Class(excluded) => IsLower(x) && x !in excluded
  }

  /** A slot that only ever accepts word characters (so never a line break). */
  predicate WordSlot(s: Slot) {
    match s
    case Literal(c) => IsWordChar(c)
    case Class(_) => true
  }

  predicate WordSlots(slots: seq<Slot>) {
    forall k :: 0 <= k < |slots| ==> WordSlot(slots[k])
  }

  /** The slot shapes this language can express: a lower-case literal, or a
      non-empty exclusion list of lower-case letters and `_`. */
  predicate WellFormed(s: Slot) {
    match s
    case Literal(c) => IsLower(c)
    case Class(excluded) => excluded != [] && forall c :: c in excluded ==> ClassMember(c)
  }

  predicate WordAt(text: string, i: int) {
    0 <= i < |text| && IsWordChar(text[i])
  }

  /** `^` in multi-line mode: start of text or just after a `\n`. */
  predicate AtLineStart(text: string, p: nat) {
    p == 0 || (p <= |text| && text[p - 1] == '\n')
  }

  /** `\b`: exactly one side of position `p` is a word character. */
  predicate AtWordBoundary(text: string, p: nat) {
    WordAt(text, p - 1) != WordAt(text, p)
  }

  /** The expression made of `slots` matches `text` starting at position `p`. */
  predicate MatchesAt(slots: seq<Slot>, text: string, p: nat) {
    && p + |slots| <= |text|
    && AtLineStart(text, p)
    && (forall k :: 0 <= k < |slots| ==> SlotAccepts(slots[k], text[p + k]))
    && AtWordBoundary(text, p + |slots|)
  }

  // ---------------------------------------------------------------------------
  // Text of an expression, and compiling it back
  // ---------------------------------------------------------------------------

  function RenderSlot(s: Slot): string {
    match s
    case Literal(c) => [c]
    case Class(excluded) => ClassOpen + excluded + ClassClose
  }

  function RenderBody(slots: seq<Slot>): string {
    if slots == [] then [] else RenderSlot(slots[0]) + RenderBody(slots[1..])
  }

  /** The full text of the expression made of `slots`. */
  function Render(slots: seq<Slot>): string {
    MultiLineStart + RenderBody(slots) + WordBoundary
  }

  /** Splits `t` at its first `]]`, reading only exclusion-list characters before it. */
  function SplitClass(t: string): (r: Option<(string, string)>)
    ensures r.Some? ==> t == r.value.0 + ClassClose + r.value.1
    ensures r.Some? ==> forall c :: c in r.value.0 ==> ClassMember(c)
  {
    if |t| >= 2 && t[..2] == ClassClose then
      Some(([], t[2..]))
    else if |t| > 0 && ClassMember(t[0]) then
      match SplitClass(t[1..])
      case None => None
      case Some(split) => Some(([t[0]] + split.0, split.1))
    else
      None
  }

  /** Compiles the text after `(?m)^`. An empty exclusion list is a compile
      error: right after `[^` a `]` is read as a literal member, which leaves
      the outer class unclosed. */
  function ParseBody(t: string): (r: Option<seq<Slot>>)
    ensures r.Some? ==> forall k :: 0 <= k < |r.value| ==> WellFormed(r.value[k])
    decreases |t|
  {
    if t == WordBoundary then
      Some([])
    else if |t| >= |ClassOpen| && t[..|ClassOpen|] == ClassOpen then
      match SplitClass(t[|ClassOpen|..])
      case None => None
      case Some(split) =>
        if split.0 == [] then None
        else
          match ParseBody(split.1)
          case None => None
          case Some(tail) => Some([Class(split.0)] + tail)
    else if |t| > 0 && IsLower(t[0]) then
      match ParseBody(t[1..])
      case None => None
      case Some(tail) => Some([Literal(t[0])] + tail)
    else
      None
  }

  /** Compiles a whole expression text; `None` where compilation fails. */
  function Parse(t: string): (r: Option<seq<Slot>>)
    ensures r.Some? ==> forall k :: 0 <= k < |r.value| ==> WellFormed(r.value[k])
  {
    if |t| >= |MultiLineStart| && t[..|MultiLineStart|] == MultiLineStart then
      ParseBody(t[|MultiLineStart|..])
    else
      None
  }

  predicate HasEmptyClass(slots: seq<Slot>) {
    exists k :: 0 <= k < |slots| && slots[k] == Class([])
  }

  /** Slots whose rendering stays inside this language (an empty class aside). */
  predicate Renderable(slots: seq<Slot>) {
    forall k :: 0 <= k < |slots| ==> WellFormed(slots[k]) || slots[k] == Class([])
  }

  lemma {:induction false} SplitClassOf(content: string, rest: string)
    requires forall c :: c in content ==> ClassMember(c)
    ensures SplitClass(content + ClassClose + rest) == Some((content, rest))
  {
    var t := content + ClassClose + rest;
    if content == [] {
      assert t == ClassClose + rest;
      assert t[..2] == ClassClose;
      assert t[2..] == rest;
    } else {
      assert t[0] == content[0];
      assert ClassMember(content[0]);
      assert t[1..] == content[1..] + ClassClose + rest;
      SplitClassOf(content[1..], rest);
      assert [t[0]] + content[1..] == content;
    }
  }

  lemma {:induction false} RenderBodyAppend(slots: seq<Slot>, s: Slot)
    ensures RenderBody(slots + [s]) == RenderBody(slots) + RenderSlot(s)
  {
    if slots == [] {
      assert [s][1..] == [];
    } else {
      assert (slots + [s])[1..] == slots[1..] + [s];
      RenderBodyAppend(slots[1..], s);
    }
  }

  /** One lower-case literal in front of a text compiles to one literal slot in front. */
  lemma ParseBodyLiteral(c: char, tail: string)
    requires IsLower(c)
    ensures ParseBody([c] + tail)
            == match ParseBody(tail) case None => None case Some(rest) => Some([Literal(c)] + rest)
  {
    var t := [c] + tail;
    assert t[0] == c && t[1..] == tail;
    assert t != WordBoundary by { assert t[0] != WordBoundary[0]; }
    assert !(|t| >= |ClassOpen| && t[..|ClassOpen|] == ClassOpen) by { assert t[0] != ClassOpen[0]; }
  }

  /** One class in front of a text compiles to one class slot in front, unless it is empty. */
  lemma ParseBodyClass(excluded: string, tail: string)
    requires forall c :: c in excluded ==> ClassMember(c)
    ensures ParseBody(ClassOpen + excluded + ClassClose + tail)
            == if excluded == [] then None
               else match ParseBody(tail) case None => None case Some(rest) => Some([Class(excluded)] + rest)
  {
    var t := ClassOpen + excluded + ClassClose + tail;
    assert t == ClassOpen + (excluded + ClassClose + tail);
    assert t[..|ClassOpen|] == ClassOpen;
    assert t[|ClassOpen|..] == excluded + ClassClose + tail;
    assert t != WordBoundary by { assert t[0] != WordBoundary[0]; }
    SplitClassOf(excluded, tail);
  }

  lemma HasEmptyClassCons(slots: seq<Slot>)
    requires slots != []
    ensures HasEmptyClass(slots) <==> slots[0] == Class([]) || HasEmptyClass(slots[1..])
  {
  }

  /** One slot's text in front of a text compiles to that slot in front,
      unless it is an empty class. */
  lemma ParseSlot(s: Slot, tail: string)
    requires WellFormed(s) || s == Class([])
    ensures ParseBody(RenderSlot(s) + tail)
            == if s == Class([]) then None
               else match ParseBody(tail) case None => None case Some(rest) => Some([s] + rest)
  {
    match s
    case Literal(c) =>
      ParseBodyLiteral(c, tail);
    case Class(excluded) =>
      ParseBodyClass(excluded, tail);
  }

  /** Compiling the text of an expression gives back its slots, unless one
      class has an empty exclusion list, in which case compilation fails. */
  lemma {:induction false} ParseRenderBody(slots: seq<Slot>)
    requires Renderable(slots)
    ensures ParseBody(RenderBody(slots) + WordBoundary)
            == if HasEmptyClass(slots) then None else Some(slots)
  {
    if slots == [] {
      assert RenderBody(slots) + WordBoundary == WordBoundary;
    } else {
      var s, rest := slots[0], slots[1..];
      var tailText := RenderBody(rest) + WordBoundary;
      assert RenderBody(slots) + WordBoundary == RenderSlot(s) + tailText;
      ParseRenderBody(rest);
      HasEmptyClassCons(slots);
      ParseSlot(s, tailText);
      assert [s] + rest == slots;
    }
  }

  /** Round trip: `Parse` inverts `Render` on every expression this language can express. */
  lemma ParseRender(slots: seq<Slot>)
    requires Renderable(slots)
    ensures Parse(Render(slots)) == if HasEmptyClass(slots) then None else Some(slots)
  {
    var t := Render(slots);
    assert t == MultiLineStart + (RenderBody(slots) + WordBoundary);
    assert t[..|MultiLineStart|] == MultiLineStart;
    assert t[|MultiLineStart|..] == RenderBody(slots) + WordBoundary;
    ParseRenderBody(slots);
  }

  // ---------------------------------------------------------------------------
  // Searching a text
  // ---------------------------------------------------------------------------

  /** Every match position from `from` on, in increasing order. */
  function AllMatchStarts(slots: seq<Slot>, text: string, from: nat): (r: seq<nat>)
    ensures forall k :: 0 <= k < |r| ==> from <= r[k] <= |text| && MatchesAt(slots, text, r[k])
    ensures forall p :: from <= p <= |text| && MatchesAt(slots, text, p) ==> p in r
    ensures forall k, l :: 0 <= k < l < |r| ==> r[k] < r[l]
    decreases |text| + 1 - from
  {
    if from > |text| then []
    else
      var rest := AllMatchStarts(slots, text, from + 1);
      if MatchesAt(slots, text, from) then [from] + rest else rest
  }

  /** The leftmost match position at or after `from`. */
  function NextMatch(slots: seq<Slot>, text: string, from: nat): (r: Option<nat>)
    ensures r.Some? ==> from <= r.value <= |text| && MatchesAt(slots, text, r.value)
    ensures r.Some? ==> forall q :: from <= q < r.value ==> !MatchesAt(slots, text, q)
    ensures r.None? ==> forall q :: from <= q <= |text| ==> !MatchesAt(slots, text, q)
    decreases |text| + 1 - from
  {
    if from > |text| then None
    else if MatchesAt(slots, text, from) then Some(from)
    else NextMatch(slots, text, from + 1)
  }

  /** Where the search resumes after a match: its end, or one further for an empty match. */
  function Resume(slots: seq<Slot>, p: nat): (r: nat)
    ensures p < r
    ensures p + |slots| <= r
  {
    if |slots| == 0 then p + 1 else p + |slots|
  }

  /** Start positions reported by iterating over the matches of `slots` in
      `text`: take the leftmost match, then search again where it ends. */
  function FindIter(slots: seq<Slot>, text: string, from: nat): (r: seq<nat>)
    ensures forall k :: 0 <= k < |r| ==> from <= r[k] <= |text| && MatchesAt(slots, text, r[k])
    ensures forall k, l :: 0 <= k < l < |r| ==> r[k] + |slots| <= r[l]
    decreases |text| + 1 - from
  {
    match NextMatch(slots, text, from)
    case None => []
    case Some(p) => [p] + FindIter(slots, text, Resume(slots, p))
  }

  lemma {:induction false} SkipNonMatches(slots: seq<Slot>, text: string, from: nat, q: nat)
    requires from <= q
    requires forall r :: from <= r < q ==> !MatchesAt(slots, text, r)
    ensures AllMatchStarts(slots, text, from) == AllMatchStarts(slots, text, q)
    decreases q - from
  {
    if from < q && from <= |text| {
      SkipNonMatches(slots, text, from + 1, q);
    } else if from < q {
      assert AllMatchStarts(slots, text, q) == [];
    }
  }

  /** No match starts inside another one when no slot accepts a line break. */
  lemma NoMatchInside(slots: seq<Slot>, text: string, p: nat, q: nat)
    requires WordSlots(slots)
    requires MatchesAt(slots, text, p)
    requires p < q <= p + |slots|
    ensures !MatchesAt(slots, text, q)
  {
    var k := q - 1 - p;
    assert SlotAccepts(slots[k], text[p + k]) && WordSlot(slots[k]);
    assert text[q - 1] != '\n';
  }

  /** Between a match and the point where the search resumes, no other
      match starts. */
  lemma NoMatchBeforeResume(slots: seq<Slot>, text: string, p: nat)
    requires WordSlots(slots)
    requires MatchesAt(slots, text, p)
    ensures forall q :: p < q < Resume(slots, p) ==> !MatchesAt(slots, text, q)
  {
    forall q | p < q < Resume(slots, p)
      ensures !MatchesAt(slots, text, q)
    {
      NoMatchInside(slots, text, p, q);
    }
  }

  /** The match positions from a match on are that match, then the positions
      from where the search resumes. */
  lemma {:induction false} ResumeStep(slots: seq<Slot>, text: string, p: nat)
    requires WordSlots(slots)
    requires MatchesAt(slots, text, p)
    ensures AllMatchStarts(slots, text, p) == [p] + AllMatchStarts(slots, text, Resume(slots, p))
  {
    NoMatchBeforeResume(slots, text, p);
    SkipNonMatches(slots, text, p + 1, Resume(slots, p));
  }

  /** Iterating over leftmost non-overlapping matches finds every match
      position, in order, when no slot accepts a line break. */
  lemma {:induction false} FindIterIsAllMatches(slots: seq<Slot>, text: string, from: nat)
    requires WordSlots(slots)
    ensures FindIter(slots, text, from) == AllMatchStarts(slots, text, from)
    decreases |text| + 1 - from
  {
    match NextMatch(slots, text, from)
    case None =>
      if from <= |text| {
        SkipNonMatches(slots, text, from, |text| + 1);
      }
    case Some(p) =>
      SkipNonMatches(slots, text, from, p);
      ResumeStep(slots, text, p);
      FindIterIsAllMatches(slots, text, Resume(slots, p));
  }
}
