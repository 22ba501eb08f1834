/** `preg_replace` with an empty replacement, for a pattern whose matches
    are non-empty, given by its matcher: `m(t)` is the length of the pattern's match at the start of `t`,
    if any. The scan deletes every leftmost, non-overlapping match: after a
    match it resumes right behind it; where no match starts, one character is
    kept and the scan moves on. */
module GlobalReplace {
  import opened Wrappers

  /** The match of `m` at position `i` of `s`. Only a non-empty prefix of
      `s[i..]` is taken as a match, so the scan always moves forward. */
  function MatchAt(s: string, m: string -> Option<nat>, i: nat): (r: Option<nat>)
    requires i <= |s|
    ensures r.Some? ==> 0 < r.value <= |s| - i && m(s[i..]) == r
    ensures m(s[i..]).Some? && 0 < m(s[i..]).value <= |s| - i ==> r == m(s[i..])
  {
    match m(s[i..])
    case Some(n) => if 0 < n <= |s| - i then Some(n) else None
    case None => None
  }

  /** `s[i..]` with the matches the scan meets deleted. */
  function DeleteFrom(s: string, m: string -> Option<nat>, i: nat): (r: string)
    requires i <= |s|
    ensures |r| <= |s| - i
    decreases |s| - i
  {
    if i == |s| then []
    else
      match MatchAt(s, m, i)
      case Some(n) => DeleteFrom(s, m, i + n)
      case None => [s[i]] + DeleteFrom(s, m, i + 1)
  }

  /** `s` with every leftmost, non-overlapping match deleted. */
  function DeleteAll(s: string, m: string -> Option<nat>): (r: string)
    ensures |r| <= |s|
  {
    DeleteFrom(s, m, 0)
  }

  /** The half-open range `[start, end)` of one deleted match. */
  datatype Span = Span(start: nat, end: nat)

  /** Position `p` lies inside one of the spans. */
  predicate Covered(sp: seq<Span>, p: int)
  {
    |sp| > 0 && (sp[0].start <= p < sp[0].end || Covered(sp[1..], p))
  }

  lemma {:induction false} CoveredBySpan(sp: seq<Span>, j: nat, p: int)
    requires j < |sp| && sp[j].start <= p < sp[j].end
    ensures Covered(sp, p)
  {
    if j > 0 {
      CoveredBySpan(sp[1..], j - 1, p);
    }
  }

  lemma {:induction false} CoveredByNone(sp: seq<Span>, p: int)
    requires forall j :: 0 <= j < |sp| ==> !(sp[j].start <= p < sp[j].end)
    ensures !Covered(sp, p)
  {
    if |sp| > 0 {
      CoveredByNone(sp[1..], p);
    }
  }

  /** The characters of `s[i..]` outside every span, in their order. */
  function Outside(s: string, sp: seq<Span>, i: nat): string
    requires i <= |s|
    decreases |s| - i
  {
    if i == |s| then []
    else (if Covered(sp, i) then [] else [s[i]]) + Outside(s, sp, i + 1)
  }

  /** `sp` are exactly the leftmost, non-overlapping matches in `s[i..]`:
      each span is the match at its start, spans come in order without
      overlap, and no match starts at a position outside them. */
  ghost predicate LeftmostFrom(s: string, m: string -> Option<nat>, sp: seq<Span>, i: nat)
  {
    SpansMatch(s, m, sp, i) && Ordered(sp) && NoMatchOutside(s, m, sp, i)
  }

  /** Each span lies in `s[i..]` and is the match at its start. */
  ghost predicate SpansMatch(s: string, m: string -> Option<nat>, sp: seq<Span>, i: nat)
  {
    forall j :: 0 <= j < |sp| ==>
      i <= sp[j].start <= sp[j].end <= |s| && MatchAt(s, m, sp[j].start) == Some(sp[j].end - sp[j].start)
  }

  /** No match starts in `s[i..]` outside the spans. */
  ghost predicate NoMatchOutside(s: string, m: string -> Option<nat>, sp: seq<Span>, i: nat)
  {
    forall p :: i <= p < |s| && !Covered(sp, p) ==> MatchAt(s, m, p).None?
  }

  /** The spans follow each other without overlap. */
  ghost predicate Ordered(sp: seq<Span>)
  {
    && (forall j :: 0 <= j < |sp| ==> sp[j].start < sp[j].end)
    && (forall j1, j2 :: 0 <= j1 < j2 < |sp| ==> sp[j1].end <= sp[j2].start)
  }

  /** The spans of the matches the scan meets from position `i` on. */
  function ScanFrom(s: string, m: string -> Option<nat>, i: nat): (sp: seq<Span>)
    requires i <= |s|
    ensures LeftmostFrom(s, m, sp, i)
    decreases |s| - i
  {
    if i == |s| then []
    else
      match MatchAt(s, m, i)
      case Some(n) =>
        var rest := ScanFrom(s, m, i + n);
        ScanCons(s, m, i, n, rest);
        [Span(i, i + n)] + rest
      case None =>
        var rest := ScanFrom(s, m, i + 1);
        ScanSkip(s, m, i, rest);
        rest
  }

  lemma ScanSkip(s: string, m: string -> Option<nat>, i: nat, rest: seq<Span>)
    requires i < |s| && MatchAt(s, m, i).None?
    requires LeftmostFrom(s, m, rest, i + 1)
    ensures LeftmostFrom(s, m, rest, i)
  {
  }

  /** A match at `i` followed by the leftmost matches behind it are the
      leftmost matches from `i` on. */
  lemma ScanCons(s: string, m: string -> Option<nat>, i: nat, n: nat, rest: seq<Span>)
    requires i < |s| && 0 < n && i + n <= |s| && MatchAt(s, m, i) == Some(n)
    requires LeftmostFrom(s, m, rest, i + n)
    ensures LeftmostFrom(s, m, [Span(i, i + n)] + rest, i)
  {
    ConsMatches(s, m, Span(i, i + n), rest);
    ConsOrdered(Span(i, i + n), rest);
    ConsNoMatchOutside(s, m, Span(i, i + n), rest);
  }

  lemma ConsMatches(s: string, m: string -> Option<nat>, first: Span, rest: seq<Span>)
    requires first.start <= first.end <= |s| && MatchAt(s, m, first.start) == Some(first.end - first.start)
    requires SpansMatch(s, m, rest, first.end)
    ensures SpansMatch(s, m, [first] + rest, first.start)
  {
    var sp := [first] + rest;
    forall j | 0 < j < |sp|
      ensures sp[j] == rest[j - 1]
    {
    }
  }

  lemma ConsNoMatchOutside(s: string, m: string -> Option<nat>, first: Span, rest: seq<Span>)
    requires NoMatchOutside(s, m, rest, first.end)
    ensures NoMatchOutside(s, m, [first] + rest, first.start)
  {
    assert ([first] + rest)[1..] == rest;
  }

  lemma ConsOrdered(first: Span, rest: seq<Span>)
    requires first.start < first.end && Ordered(rest)
    requires forall j :: 0 <= j < |rest| ==> first.end <= rest[j].start
    ensures Ordered([first] + rest)
  {
    var sp := [first] + rest;
    forall j1, j2 | 0 <= j1 < j2 < |sp|
      ensures sp[j1].end <= sp[j2].start
    {
      assert sp[j2] == rest[j2 - 1];
      if j1 > 0 {
        assert sp[j1] == rest[j1 - 1];
      }
    }
  }

  /** The matches a global replace deletes from `s`. */
  function Matches(s: string, m: string -> Option<nat>): (sp: seq<Span>)
    ensures LeftmostFrom(s, m, sp, 0)
  {
    ScanFrom(s, m, 0)
  }

  /** Positions inside spans contribute nothing. */
  lemma {:induction false} OutsideSkipsCovered(s: string, sp: seq<Span>, i: nat, e: nat)
    requires i <= e <= |s|
    requires forall p :: i <= p < e ==> Covered(sp, p)
    ensures Outside(s, sp, i) == Outside(s, sp, e)
    decreases e - i
  {
    if i < e {
      OutsideSkipsCovered(s, sp, i + 1, e);
    }
  }

  /** Position `i` lies between the spans before `j` and those from `j` on. */
  ghost predicate Boundary(sp: seq<Span>, i: nat, j: nat)
  {
    && j <= |sp|
    && (forall j' :: 0 <= j' < j ==> sp[j'].end <= i)
    && (forall j' :: j <= j' < |sp| ==> i <= sp[j'].start)
  }

  /** Every position of span `j` is covered. */
  lemma SpanCovered(sp: seq<Span>, j: nat)
    requires j < |sp|
    ensures forall p :: sp[j].start <= p < sp[j].end ==> Covered(sp, p)
  {
    forall p | sp[j].start <= p < sp[j].end
      ensures Covered(sp, p)
    {
      CoveredBySpan(sp, j, p);
    }
  }

  /** Behind span `j` lies the boundary before span `j + 1`. */
  lemma NextBoundary(sp: seq<Span>, i: nat, j: nat)
    requires Ordered(sp) && Boundary(sp, i, j) && j < |sp| && sp[j].start == i
    ensures Boundary(sp, sp[j].end, j + 1)
  {
  }

  /** Between spans no match starts, so the scan keeps the character, and so
      does the filter by position. */
  lemma BetweenSpans(s: string, m: string -> Option<nat>, sp: seq<Span>, i: nat, j: nat)
    requires i < |s| && Ordered(sp) && (!Covered(sp, i) ==> MatchAt(s, m, i).None?)
    requires Boundary(sp, i, j) && !(j < |sp| && sp[j].start == i)
    ensures Boundary(sp, i + 1, j)
    ensures DeleteFrom(s, m, i) == [s[i]] + DeleteFrom(s, m, i + 1)
    ensures Outside(s, sp, i) == [s[i]] + Outside(s, sp, i + 1)
  {
    forall j' | 0 <= j' < |sp|
      ensures !(sp[j'].start <= i < sp[j'].end)
    {
      if j' > j {
        assert sp[j].end <= sp[j'].start;
      }
    }
    CoveredByNone(sp, i);
  }

  lemma {:induction false} DeleteFromIsOutside(s: string, m: string -> Option<nat>, sp: seq<Span>, i: nat, j: nat)
    requires LeftmostFrom(s, m, sp, 0)
    requires i <= |s| && Boundary(sp, i, j)
    ensures DeleteFrom(s, m, i) == Outside(s, sp, i)
    decreases |s| - i
  {
    if i < |s| {
      if j < |sp| && sp[j].start == i {
        var e := sp[j].end;
        assert MatchAt(s, m, i) == Some(e - i);
        assert DeleteFrom(s, m, i) == DeleteFrom(s, m, e);
        SpanCovered(sp, j);
        OutsideSkipsCovered(s, sp, i, e);
        NextBoundary(sp, i, j);
        DeleteFromIsOutside(s, m, sp, e, j + 1);
      } else {
        BetweenSpans(s, m, sp, i, j);
        DeleteFromIsOutside(s, m, sp, i + 1, j);
      }
    }
  }

  /** A global replace keeps exactly the characters outside the leftmost
      matches, in order; `sp` can be any description of those matches. */
  lemma DeleteAllIsOutside(s: string, m: string -> Option<nat>, sp: seq<Span>)
    requires LeftmostFrom(s, m, sp, 0)
    ensures DeleteAll(s, m) == Outside(s, sp, 0)
  {
    DeleteFromIsOutside(s, m, sp, 0, 0);
  }

  /** Where no match starts anywhere, nothing is deleted. */
  lemma {:induction false} DeleteFromWithoutMatch(s: string, m: string -> Option<nat>, i: nat)
    requires i <= |s|
    requires forall p :: i <= p < |s| ==> MatchAt(s, m, p).None?
    ensures DeleteFrom(s, m, i) == s[i..]
    decreases |s| - i
  {
    if i < |s| {
      DeleteFromWithoutMatch(s, m, i + 1);
      assert s[i..] == [s[i]] + s[i + 1..];
    }
  }
}
