/**
 * The search-index helper `String?.indexesOf(substr, ignoreCase = true)`:
 * the start offset of every match of `substr` in a nullable text, in the
 * order a regular-expression "find all" reports them.
 *
 * The query is treated as a literal character sequence, which is what the
 * regular expression built from it means when it holds no metacharacters.
 */
module StringExtensions {
  import opened Wrappers

  // ---------------------------------------------------------------------
  // Character comparison
  // ---------------------------------------------------------------------

  /**
   * Stand-in for the case folding of a case-insensitive regular expression.
   * Only the fact that both sides are folded by the same function matters
   * to the lemmas below; here it lower-cases ASCII letters.
   */
  function Fold(c: char): char {
    if 'A' <= c <= 'Z' then (c as int + 32) as char else c
  }

  /** Two characters match, under case folding when `ignoreCase` holds. */
  predicate SameChar(ignoreCase: bool, a: char, b: char) {
    if ignoreCase then Fold(a) == Fold(b) else a == b
  }

  // ---------------------------------------------------------------------
  // Specification: where matches are, and what a greedy scan is
  // ---------------------------------------------------------------------

  /** Two equally long strings agree character by character. */
  predicate Agree(ignoreCase: bool, a: string, b: string)
    requires |a| == |b|
  {
    |a| == 0 || (SameChar(ignoreCase, a[0], b[0]) && Agree(ignoreCase, a[1..], b[1..]))
  }

  /** `Agree` is character-by-character agreement. */
  lemma {:induction false} AgreeChars(ignoreCase: bool, a: string, b: string)
    requires |a| == |b|
    ensures Agree(ignoreCase, a, b) <==> forall k :: 0 <= k < |a| ==> SameChar(ignoreCase, a[k], b[k])
  {
    if |a| > 0 {
      AgreeChars(ignoreCase, a[1..], b[1..]);
      assert forall k :: 0 < k < |a| ==> a[k] == a[1..][k - 1] && b[k] == b[1..][k - 1];
    }
  }

  /** `query` occurs in `text` starting at offset `i`. */
  predicate MatchesAt(text: string, query: string, ignoreCase: bool, i: int) {
    0 <= i && i + |query| <= |text| && Agree(ignoreCase, text[i..i + |query|], query)
  }

  /** `p` is the leftmost match position at or after `from`. */
  ghost predicate IsLeftmostFrom(text: string, query: string, ignoreCase: bool, from: int, p: int) {
    from <= p && MatchesAt(text, query, ignoreCase, p) &&
    forall j :: from <= j < p ==> !MatchesAt(text, query, ignoreCase, j)
  }

  /** There is no match position at or after `from`. */
  ghost predicate NoMatchFrom(text: string, query: string, ignoreCase: bool, from: int) {
    forall j :: from <= j ==> !MatchesAt(text, query, ignoreCase, j)
  }

  /**
   * Where the search for the `k`-th result of a scan starts: at `from` for
   * the first one, and at the end of the previous match for every later one.
   */
  function ResumeAt(from: int, query: string, r: seq<nat>, k: nat): int
    requires k <= |r|
  {
    if k == 0 then from else r[k - 1] + |query|
  }

  /**
   * `r` is what a "find all" scan of `text` starting at `from` reports:
   * every result is the leftmost match at or after the place the scan
   * resumed, and after the last result there is no further match.
   */
  ghost predicate GreedyScan(text: string, query: string, ignoreCase: bool, from: int, r: seq<nat>) {
    (forall k {:trigger ResumeAt(from, query, r, k)} :: 0 <= k < |r| ==>
      IsLeftmostFrom(text, query, ignoreCase, ResumeAt(from, query, r, k), r[k])) &&
    NoMatchFrom(text, query, ignoreCase, ResumeAt(from, query, r, |r|))
  }

  /** Offset `j` lies inside one of the matches of length `len` starting at `r`. */
  ghost predicate Covers(r: seq<nat>, len: nat, j: int) {
    exists k :: 0 <= k < |r| && r[k] <= j < r[k] + len
  }

  /** Each offset of `r` is at least `d` after every earlier one. */
  ghost predicate Spaced(r: seq<nat>, d: nat) {
    forall i, j :: 0 <= i < j < |r| ==> r[i] + d <= r[j]
  }

  // ---------------------------------------------------------------------
  // The scan
  // ---------------------------------------------------------------------

  /**
   * One `find` of the regular-expression engine: the first position at or
   * after `from` where the query matches, if any.
   */
  function FindFrom(text: string, query: string, ignoreCase: bool, from: nat): (r: Option<nat>)
    ensures r.Some? ==> from <= r.value && MatchesAt(text, query, ignoreCase, r.value)
    decreases |text| - from
  {
    if from + |query| > |text| then None
    else if MatchesAt(text, query, ignoreCase, from) then Some(from)
    else FindFrom(text, query, ignoreCase, from + 1)
  }

  /** `FindFrom` finds the leftmost match at or after `from`, and finds nothing only when there is none. */
  lemma {:induction false} FindFromLeftmost(text: string, query: string, ignoreCase: bool, from: nat)
    ensures var r := FindFrom(text, query, ignoreCase, from);
      (r.Some? ==> IsLeftmostFrom(text, query, ignoreCase, from, r.value)) &&
      (r.None? ==> NoMatchFrom(text, query, ignoreCase, from))
    decreases |text| - from
  {
    if from + |query| <= |text| && !MatchesAt(text, query, ignoreCase, from) {
      FindFromLeftmost(text, query, ignoreCase, from + 1);
    }
  }

  /**
   * `findAll` from offset `from`, mapped to each match's first offset: after
   * a match the next search starts at that match's end.
   */
  function ScanFrom(text: string, query: string, ignoreCase: bool, from: nat): (r: seq<nat>)
    requires |query| > 0
    ensures forall k :: 0 <= k < |r| ==> from <= r[k] && MatchesAt(text, query, ignoreCase, r[k])
    decreases |text| - from
  {
    match FindFrom(text, query, ignoreCase, from)
    case None => []
    case Some(p) => [p] + ScanFrom(text, query, ignoreCase, p + |query|)
  }

  /** Proof helper: one unfolding of `ScanFrom` when the first search finds `p`. */
  lemma ScanFromStep(text: string, query: string, ignoreCase: bool, from: nat, p: nat)
    requires |query| > 0 && FindFrom(text, query, ignoreCase, from) == Some(p)
    ensures ScanFrom(text, query, ignoreCase, from) == [p] + ScanFrom(text, query, ignoreCase, p + |query|)
  {
  }

  /**
   * `text.indexesOf(substr, ignoreCase)`: no matches for an empty query or
   * an absent text, otherwise the offsets of a "find all" scan from offset 0.
   * Every result is a match position.
   */
  function IndexesOf(text: Option<string>, substr: string, ignoreCase: bool := true): (r: seq<nat>)
    ensures substr == [] ==> r == []
    ensures text == None ==> r == []
    ensures forall k :: 0 <= k < |r| ==>
      text.Some? && 0 <= r[k] && r[k] + |substr| <= |text.value| &&
      MatchesAt(text.value, substr, ignoreCase, r[k])
  {
    if |substr| == 0 then []
    else
      match text
      case None => []
      case Some(t) => ScanFrom(t, substr, ignoreCase, 0)
  }

  // ---------------------------------------------------------------------
  // Lemmas about the scan
  // ---------------------------------------------------------------------

  /** A leftmost choice followed by a greedy scan from that match's end is a greedy scan. */
  lemma GreedyScanCons(text: string, query: string, ignoreCase: bool, from: int, p: nat, rest: seq<nat>)
    requires IsLeftmostFrom(text, query, ignoreCase, from, p)
    requires GreedyScan(text, query, ignoreCase, p + |query|, rest)
    ensures GreedyScan(text, query, ignoreCase, from, [p] + rest)
  {
    var r := [p] + rest;
    var next := p + |query|;
    forall k | 0 <= k < |r|
      ensures IsLeftmostFrom(text, query, ignoreCase, ResumeAt(from, query, r, k), r[k])
    {
      if k > 0 {
        assert r[k] == rest[k - 1];
        assert ResumeAt(from, query, r, k) == ResumeAt(next, query, rest, k - 1);
      }
    }
    assert ResumeAt(from, query, r, |r|) == ResumeAt(next, query, rest, |rest|);
  }

  /** The first choice of a non-empty greedy scan is leftmost, and the rest is a greedy scan from its end. */
  lemma GreedyScanUncons(text: string, query: string, ignoreCase: bool, from: int, p: nat, rest: seq<nat>)
    requires GreedyScan(text, query, ignoreCase, from, [p] + rest)
    ensures IsLeftmostFrom(text, query, ignoreCase, from, p)
    ensures GreedyScan(text, query, ignoreCase, p + |query|, rest)
  {
    var r := [p] + rest;
    assert IsLeftmostFrom(text, query, ignoreCase, ResumeAt(from, query, r, 0), r[0]);
    forall k | 0 <= k < |rest|
      ensures IsLeftmostFrom(text, query, ignoreCase, ResumeAt(p + |query|, query, rest, k), rest[k])
    {
      GreedyScanTailAt(text, query, ignoreCase, from, p, rest, k);
    }
    assert ResumeAt(from, query, r, |r|) == ResumeAt(p + |query|, query, rest, |rest|);
  }

  /** One choice of the tail of a greedy scan, seen from the tail's own start. */
  lemma GreedyScanTailAt(text: string, query: string, ignoreCase: bool, from: int, p: nat, rest: seq<nat>, k: nat)
    requires GreedyScan(text, query, ignoreCase, from, [p] + rest)
    requires k < |rest|
    ensures IsLeftmostFrom(text, query, ignoreCase, ResumeAt(p + |query|, query, rest, k), rest[k])
  {
    var r := [p] + rest;
    assert r[k + 1] == rest[k];
    assert ResumeAt(from, query, r, k + 1) == ResumeAt(p + |query|, query, rest, k);
    assert IsLeftmostFrom(text, query, ignoreCase, ResumeAt(from, query, r, k + 1), r[k + 1]);
  }

  /** The scan makes exactly the greedy leftmost choices. */
  lemma {:induction false} ScanIsGreedy(text: string, query: string, ignoreCase: bool, from: nat)
    requires |query| > 0
    ensures GreedyScan(text, query, ignoreCase, from, ScanFrom(text, query, ignoreCase, from))
    decreases |text| - from
  {
    var r := ScanFrom(text, query, ignoreCase, from);
    FindFromLeftmost(text, query, ignoreCase, from);
    match FindFrom(text, query, ignoreCase, from)
    case None =>
      assert r == [] && ResumeAt(from, query, r, 0) == from;
    case Some(p) =>
      var next := p + |query|;
      var rest := ScanFrom(text, query, ignoreCase, next);
      ScanFromStep(text, query, ignoreCase, from, p);
      ScanIsGreedy(text, query, ignoreCase, next);
      GreedyScanCons(text, query, ignoreCase, from, p, rest);
  }

  /** A sequence that makes the greedy leftmost choices is the scan's result. */
  lemma {:induction false} GreedyScanUnique(text: string, query: string, ignoreCase: bool, from: nat, r: seq<nat>)
    requires |query| > 0
    requires GreedyScan(text, query, ignoreCase, from, r)
    ensures r == ScanFrom(text, query, ignoreCase, from)
    decreases |r|
  {
    if |r| == 0 {
      NoMatchFindsNone(text, query, ignoreCase, from);
    } else {
      var p, rest := r[0], r[1..];
      assert r == [p] + rest;
      GreedyScanUncons(text, query, ignoreCase, from, p, rest);
      LeftmostIsUnique(text, query, ignoreCase, from, p);
      GreedyScanUnique(text, query, ignoreCase, p + |query|, rest);
      ScanFromStep(text, query, ignoreCase, from, p);
    }
  }

  /**
   * Where no match lies at or after `from`, `FindFrom` finds nothing: a
   * corollary of `FindFrom`'s own postcondition.
   */
  lemma NoMatchFindsNone(text: string, query: string, ignoreCase: bool, from: nat)
    requires NoMatchFrom(text, query, ignoreCase, from)
    ensures FindFrom(text, query, ignoreCase, from) == None
  {
  }

  /** The leftmost match at or after `from` is the one `FindFrom` returns. */
  lemma LeftmostIsUnique(text: string, query: string, ignoreCase: bool, from: nat, p: int)
    requires IsLeftmostFrom(text, query, ignoreCase, from, p)
    ensures FindFrom(text, query, ignoreCase, from) == Some(p)
  {
    FindFromLeftmost(text, query, ignoreCase, from);
    assert MatchesAt(text, query, ignoreCase, p);
  }

  /**
   * No match position at or after `from` is skipped: each lies inside
   * (at the start of, or overlapping) some reported match.
   */
  lemma {:induction false} ScanComplete(text: string, query: string, ignoreCase: bool, from: nat, j: int)
    requires |query| > 0
    requires from <= j && MatchesAt(text, query, ignoreCase, j)
    ensures Covers(ScanFrom(text, query, ignoreCase, from), |query|, j)
    decreases |text| - from
  {
    var r := ScanFrom(text, query, ignoreCase, from);
    FindFromLeftmost(text, query, ignoreCase, from);
    match FindFrom(text, query, ignoreCase, from)
    case Some(p) =>
      var next := p + |query|;
      var rest := ScanFrom(text, query, ignoreCase, next);
      ScanFromStep(text, query, ignoreCase, from, p);
      assert p <= j;
      if next <= j {
        ScanComplete(text, query, ignoreCase, next, j);
      }
      CoversCons(p, rest, |query|, j);
  }

  /** The scan's matches do not overlap, so its offsets strictly ascend. */
  lemma {:induction false} ScanNonOverlapping(text: string, query: string, ignoreCase: bool, from: nat)
    requires |query| > 0
    ensures Spaced(ScanFrom(text, query, ignoreCase, from), |query|)
    decreases |text| - from
  {
    match FindFrom(text, query, ignoreCase, from)
    case None =>
    case Some(p) =>
      var rest := ScanFrom(text, query, ignoreCase, p + |query|);
      ScanFromStep(text, query, ignoreCase, from, p);
      ScanNonOverlapping(text, query, ignoreCase, p + |query|);
      SpacedCons(p, rest, |query|);
  }

  /** An offset inside the first match, or covered by the later ones, is covered. */
  lemma CoversCons(p: nat, rest: seq<nat>, d: nat, j: int)
    requires p <= j < p + d || Covers(rest, d, j)
    ensures Covers([p] + rest, d, j)
  {
    var r := [p] + rest;
    if p <= j < p + d {
      assert r[0] <= j < r[0] + d;
    } else {
      var k :| 0 <= k < |rest| && rest[k] <= j < rest[k] + d;
      assert r[k + 1] == rest[k];
    }
  }

  /** Prepending an offset at least `d` before every later one keeps a sequence spaced. */
  lemma SpacedCons(p: nat, rest: seq<nat>, d: nat)
    requires forall k :: 0 <= k < |rest| ==> p + d <= rest[k]
    requires Spaced(rest, d)
    ensures Spaced([p] + rest, d)
  {
    var r := [p] + rest;
    forall i, j | 0 <= i < j < |r| ensures r[i] + d <= r[j] {
      assert r[j] == rest[j - 1];
      if i > 0 {
        assert r[i] == rest[i - 1];
      }
    }
  }

  /** The scan's matches fit, without overlap, in the text after `from`. */
  lemma {:induction false} ScanCount(text: string, query: string, ignoreCase: bool, from: nat)
    requires |query| > 0 && from <= |text|
    ensures |ScanFrom(text, query, ignoreCase, from)| * |query| <= |text| - from
    decreases |text| - from
  {
    match FindFrom(text, query, ignoreCase, from)
    case None =>
    case Some(p) =>
      var rest := ScanFrom(text, query, ignoreCase, p + |query|);
      ScanFromStep(text, query, ignoreCase, from, p);
      ScanCount(text, query, ignoreCase, p + |query|);
      assert |[p] + rest| == |rest| + 1;
      MulSucc(|rest|, |query|);
  }

  /** One more copy of `d`. */
  lemma MulSucc(n: nat, d: nat)
    ensures (n + 1) * d == n * d + d
  {
  }

  /** Multiplication by a natural number is monotonic. */
  lemma {:induction false} MulMono(a: nat, b: nat, d: nat)
    requires a <= b
    ensures a * d <= b * d
    decreases b - a
  {
    if a < b {
      MulMono(a, b - 1, d);
      assert b * d == (b - 1) * d + d;
    }
  }

  /** From `m * d <= n` with positive `d`, `m <= n / d`. */
  lemma DivBound(m: nat, d: nat, n: nat)
    requires d > 0 && m * d <= n
    ensures m <= n / d
  {
    var q := n / d;
    if q < m {
      MulMono(q + 1, m, d);
      assert false;
    }
  }

  // ---------------------------------------------------------------------
  // Lemmas about indexesOf
  // ---------------------------------------------------------------------

  /**
   * For a present text and a non-empty query, `indexesOf` is exactly the
   * greedy leftmost "find all" scan from offset 0, and no other sequence is.
   */
  lemma IndexesOfIsGreedyScan(text: string, substr: string, ignoreCase: bool, r: seq<nat>)
    requires |substr| > 0
    ensures GreedyScan(text, substr, ignoreCase, 0, r) <==> r == IndexesOf(Some(text), substr, ignoreCase)
  {
    ScanIsGreedy(text, substr, ignoreCase, 0);
    if GreedyScan(text, substr, ignoreCase, 0, r) {
      GreedyScanUnique(text, substr, ignoreCase, 0, r);
    }
  }

  /** Every match position of the query lies within some reported match. */
  lemma IndexesOfComplete(text: string, substr: string, ignoreCase: bool, j: int)
    requires |substr| > 0 && MatchesAt(text, substr, ignoreCase, j)
    ensures Covers(IndexesOf(Some(text), substr, ignoreCase), |substr|, j)
  {
    ScanComplete(text, substr, ignoreCase, 0, j);
  }

  /** A text with some match gives a non-empty result, starting at the leftmost match. */
  lemma IndexesOfFirst(text: string, substr: string, ignoreCase: bool, j: int)
    requires |substr| > 0 && MatchesAt(text, substr, ignoreCase, j)
    ensures var r := IndexesOf(Some(text), substr, ignoreCase);
      |r| > 0 && r[0] <= j && IsLeftmostFrom(text, substr, ignoreCase, 0, r[0])
  {
    var r := IndexesOf(Some(text), substr, ignoreCase);
    IndexesOfComplete(text, substr, ignoreCase, j);
    IndexesOfIsGreedyScan(text, substr, ignoreCase, r);
    assert IsLeftmostFrom(text, substr, ignoreCase, ResumeAt(0, substr, r, 0), r[0]);
  }

  /** Offsets strictly ascend, and consecutive matches are at least `|substr|` apart. */
  lemma IndexesOfAscending(text: Option<string>, substr: string, ignoreCase: bool)
    ensures var r := IndexesOf(text, substr, ignoreCase);
      forall i, j :: 0 <= i < j < |r| ==> r[i] < r[j] && r[i] + |substr| <= r[j]
  {
    if |substr| > 0 && text.Some? {
      ScanNonOverlapping(text.value, substr, ignoreCase, 0);
    }
  }

  /** There are at most `|text| / |substr|` results. */
  lemma IndexesOfCount(text: Option<string>, substr: string, ignoreCase: bool)
    requires |substr| > 0
    ensures var n := if text.Some? then |text.value| else 0;
      |IndexesOf(text, substr, ignoreCase)| * |substr| <= n &&
      |IndexesOf(text, substr, ignoreCase)| <= n / |substr|
  {
    var n := if text.Some? then |text.value| else 0;
    if text.Some? {
      ScanCount(text.value, substr, ignoreCase, 0);
    }
    DivBound(|IndexesOf(text, substr, ignoreCase)|, |substr|, n);
  }

  /**
   * Every reported offset starts a copy of the query in the text, character
   * by character, under case folding when `ignoreCase` holds.
   */
  lemma IndexesOfSound(text: string, substr: string, ignoreCase: bool, k: int)
    requires 0 <= k < |IndexesOf(Some(text), substr, ignoreCase)|
    ensures var i := IndexesOf(Some(text), substr, ignoreCase)[k];
      i + |substr| <= |text| &&
      forall m :: 0 <= m < |substr| ==> SameChar(ignoreCase, text[i + m], substr[m])
  {
    var i := IndexesOf(Some(text), substr, ignoreCase)[k];
    var window := text[i..i + |substr|];
    AgreeChars(ignoreCase, window, substr);
    assert forall m :: 0 <= m < |substr| ==> window[m] == text[i + m];
  }

  /** With the flag left at its default, the query matches under case folding. */
  lemma DefaultIgnoresCase(text: string, substr: string, k: int)
    requires 0 <= k < |IndexesOf(Some(text), substr)|
    ensures var i := IndexesOf(Some(text), substr)[k];
      forall m :: 0 <= m < |substr| ==> Fold(text[i + m]) == Fold(substr[m])
  {
    IndexesOfSound(text, substr, true, k);
  }

  // ---------------------------------------------------------------------
  // Worked examples
  // ---------------------------------------------------------------------

  /** For a one-character query, one step of `FindFrom` compares one character. */
  lemma FindFromSingle(text: string, query: string, ignoreCase: bool, from: nat)
    requires |query| == 1 && from < |text|
    ensures FindFrom(text, query, ignoreCase, from) ==
      if SameChar(ignoreCase, text[from], query[0]) then Some(from) else FindFrom(text, query, ignoreCase, from + 1)
  {
    assert text[from..from + 1] == [text[from]];
    assert Agree(ignoreCase, [text[from]], query) == SameChar(ignoreCase, text[from], query[0]);
  }

  /** Scanning `"Hello World"` for `"o"` or `"O"` from `from`, one character at a time. */
  lemma ScanHelloWorld(query: string, ignoreCase: bool)
    requires |query| == 1
    ensures FindFrom("Hello World", query, ignoreCase, 11) == None
    ensures forall from :: 0 <= from < 11 ==>
      FindFrom("Hello World", query, ignoreCase, from) ==
        if SameChar(ignoreCase, "Hello World"[from], query[0]) then Some(from)
        else FindFrom("Hello World", query, ignoreCase, from + 1)
  {
    forall from | 0 <= from < 11
      ensures FindFrom("Hello World", query, ignoreCase, from) ==
        if SameChar(ignoreCase, "Hello World"[from], query[0]) then Some(from)
        else FindFrom("Hello World", query, ignoreCase, from + 1)
    {
      FindFromSingle("Hello World", query, ignoreCase, from);
    }
  }

  /** `"Hello World".indexesOf("o")` is `[4, 7]`, and so is the default-case `"O"`. */
  lemma ExampleHelloWorld(query: string)
    requires query == "o" || query == "O"
    ensures IndexesOf(Some("Hello World"), query) == [4, 7]
  {
    var t := "Hello World";
    ScanHelloWorld(query, true);
    assert Fold(query[0]) == 'o';
    assert FindFrom(t, query, true, 10) == None;
    assert FindFrom(t, query, true, 9) == None;
    assert FindFrom(t, query, true, 8) == None;
    assert FindFrom(t, query, true, 7) == Some(7);
    assert FindFrom(t, query, true, 6) == Some(7);
    assert FindFrom(t, query, true, 5) == Some(7);
    assert FindFrom(t, query, true, 4) == Some(4);
    assert FindFrom(t, query, true, 3) == Some(4);
    assert FindFrom(t, query, true, 2) == Some(4);
    assert FindFrom(t, query, true, 1) == Some(4);
    assert FindFrom(t, query, true, 0) == Some(4);
    ScanFromStep(t, query, true, 0, 4);
    ScanFromStep(t, query, true, 5, 7);
  }

  /** Case-sensitive, `"Hello World".indexesOf("O", false)` has no results. */
  lemma ExampleHelloWorldCaseSensitive()
    ensures IndexesOf(Some("Hello World"), "O", false) == []
  {
    var t := "Hello World";
    ScanHelloWorld("O", false);
    assert FindFrom(t, "O", false, 10) == None;
    assert FindFrom(t, "O", false, 9) == None;
    assert FindFrom(t, "O", false, 8) == None;
    assert FindFrom(t, "O", false, 7) == None;
    assert FindFrom(t, "O", false, 6) == None;
    assert FindFrom(t, "O", false, 5) == None;
    assert FindFrom(t, "O", false, 4) == None;
    assert FindFrom(t, "O", false, 3) == None;
    assert FindFrom(t, "O", false, 2) == None;
    assert FindFrom(t, "O", false, 1) == None;
    assert FindFrom(t, "O", false, 0) == None;
  }

  /** `"aaa".indexesOf("aa")` is `[0]`: the scan resumes at the end of the first match. */
  lemma ExampleNoOverlap()
    ensures IndexesOf(Some("aaa"), "aa") == [0]
  {
    assert "aaa"[0..2] == "aa";
    assert MatchesAt("aaa", "aa", true, 0);
    ScanFromStep("aaa", "aa", true, 0, 0);
  }

  /** An absent text or an empty query gives no offsets. */
  lemma ExampleEmpty()
    ensures IndexesOf(None, "aa") == []
    ensures IndexesOf(Some("aaa"), "") == []
  {
  }
}
