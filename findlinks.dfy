/** `FindLinks` and `CountLinks` of crawl/findlinks.go: every non-overlapping
    match of the fixed anchor-tag pattern, in page order, as Go's
    `Regexp.FindAll(b, -1)` returns them, and their number. */
module Crawl {
  import opened Pattern

  /** One match, as the half-open index range `[start, end)` of the page. */
  datatype Span = Span(start: nat, end: nat)

  /** Every span lies in `s[pos..]`, is non-empty and covers a match. */
  ghost predicate Sound(s: string, pos: nat, r: seq<Span>) {
    forall k :: 0 <= k < |r| ==>
      pos <= r[k].start < r[k].end <= |s| && IsAnchorTag(s[r[k].start..r[k].end])
  }

  /** The spans are pairwise disjoint and listed left to right. */
  ghost predicate Ordered(r: seq<Span>) {
    forall k, l :: 0 <= k < l < |r| ==> r[k].end <= r[l].start
  }

  /** Every index of `s[pos..]` where some match could start lies in a listed
      span: it either starts a listed match or sits inside one. */
  ghost predicate Covering(s: string, pos: nat, r: seq<Span>) {
    forall i, j :: pos <= i <= j <= |s| && IsAnchorTag(s[i..j]) ==>
      exists k :: 0 <= k < |r| && r[k].start <= i < r[k].end
  }

  /** What a leftmost scan that resumes after each match must return; by
      ScanUnique there is exactly one such list. */
  ghost predicate LeftmostMatches(s: string, pos: nat, r: seq<Span>) {
    Sound(s, pos, r) && Ordered(r) && Covering(s, pos, r)
  }

  /** The scan `FindAll(b, -1)` performs from index `pos`: try the pattern at
      each index in turn; after a match, record it and resume at its end. */
  function ScanFrom(s: string, pos: nat): (r: seq<Span>)
    requires pos <= |s|
    ensures Sound(s, pos, r) && Ordered(r)
    decreases |s| - pos
  {
    if pos == |s| then []
    else
      match MatchAt(s, pos)
      case Some(e) => [Span(pos, e)] + ScanFrom(s, e)
      case None => ScanFrom(s, pos + 1)
  }

  /** Prepending a match to a covering list of the rest covers from its start. */
  lemma CoveringCons(s: string, pos: nat, e: nat, rest: seq<Span>)
    requires pos < e && Covering(s, e, rest)
    ensures Covering(s, pos, [Span(pos, e)] + rest)
  {
    var r := [Span(pos, e)] + rest;
    forall i, j | pos <= i <= j <= |s| && IsAnchorTag(s[i..j])
      ensures exists k :: 0 <= k < |r| && r[k].start <= i < r[k].end
    {
      if i < e {
        assert r[0].start <= i < r[0].end;
      } else {
        var k :| 0 <= k < |rest| && rest[k].start <= i < rest[k].end;
        assert r[k + 1] == rest[k];
      }
    }
  }

  /** Where the scan resumes after trying the pattern at `pos`. */
  function Resume(s: string, pos: nat): (next: nat)
    requires pos < |s|
    ensures pos < next <= |s|
  {
    match MatchAt(s, pos)
    case Some(e) => e
    case None => pos + 1
  }

  lemma {:induction false} ScanCovers(s: string, pos: nat)
    requires pos <= |s|
    ensures Covering(s, pos, ScanFrom(s, pos))
    decreases |s| - pos
  {
    if pos < |s| {
      ScanCovers(s, Resume(s, pos));
      CoveringStep(s, pos);
    }
  }

  lemma CoveringStep(s: string, pos: nat)
    requires pos < |s| && Covering(s, Resume(s, pos), ScanFrom(s, Resume(s, pos)))
    ensures Covering(s, pos, ScanFrom(s, pos))
  {
    match MatchAt(s, pos)
    case Some(e) =>
      CoveringCons(s, pos, e, ScanFrom(s, e));
    case None =>
      CoveringSkip(s, pos, ScanFrom(s, pos + 1));
  }

  /** No match starts at `pos`, so covering from `pos + 1` covers from `pos`. */
  lemma CoveringSkip(s: string, pos: nat, r: seq<Span>)
    requires pos < |s| && MatchAt(s, pos).None? && Covering(s, pos + 1, r)
    ensures Covering(s, pos, r)
  {
  }

  /** A list that covers from the first index after a match covers from the
      match's end once its first span is dropped. */
  lemma CoveringTail(s: string, r: seq<Span>, e: nat)
    requires |r| > 0 && r[0].start < r[0].end == e && Ordered(r) && Covering(s, r[0].start, r)
    ensures Covering(s, e, r[1..])
  {
    var rest := r[1..];
    forall i, j | e <= i <= j <= |s| && IsAnchorTag(s[i..j])
      ensures exists k :: 0 <= k < |rest| && rest[k].start <= i < rest[k].end
    {
      var k :| 0 <= k < |r| && r[k].start <= i < r[k].end;
      assert k >= 1;
      assert rest[k - 1] == r[k];
    }
  }

  /** The scan is the one list of matches a leftmost, resuming scan can give. */
  lemma {:induction false} ScanUnique(s: string, pos: nat, r: seq<Span>)
    requires pos <= |s|
    requires LeftmostMatches(s, pos, r)
    ensures r == ScanFrom(s, pos)
    decreases |s| - pos
  {
    if pos == |s| {
      SoundLength(s, pos, r);
    } else {
      var tail := UniqueStep(s, pos, r);
      ScanUnique(s, Resume(s, pos), tail);
    }
  }

  /** One step of ScanUnique: the list agrees with the scan at `pos`, and what
      is left of it is again a leftmost list from where the scan resumes. */
  lemma UniqueStep(s: string, pos: nat, r: seq<Span>) returns (tail: seq<Span>)
    requires pos < |s| && LeftmostMatches(s, pos, r)
    ensures LeftmostMatches(s, Resume(s, pos), tail)
    ensures tail == ScanFrom(s, Resume(s, pos)) ==> r == ScanFrom(s, pos)
  {
    match MatchAt(s, pos)
    case Some(e) =>
      UniqueHead(s, pos, e, r);
      LeftmostTail(s, r);
      assert r == [Span(pos, e)] + r[1..];
      tail := r[1..];
    case None =>
      LeftmostSkip(s, pos, r);
      tail := r;
  }

  /** No match starts at `pos`, so a leftmost list from `pos` is one from
      `pos + 1`. */
  lemma LeftmostSkip(s: string, pos: nat, r: seq<Span>)
    requires pos < |s| && MatchAt(s, pos).None? && LeftmostMatches(s, pos, r)
    ensures LeftmostMatches(s, pos + 1, r)
  {
    SoundSkip(s, pos, r);
    CoveringWeaken(s, pos, pos + 1, r);
  }

  lemma SoundSkip(s: string, pos: nat, r: seq<Span>)
    requires pos < |s| && Sound(s, pos, r)
    requires forall j :: pos <= j <= |s| ==> !IsAnchorTag(s[pos..j])
    ensures Sound(s, pos + 1, r)
  {
    forall k | 0 <= k < |r|
      ensures r[k].start != pos
    {
      assert IsAnchorTag(s[r[k].start..r[k].end]);
    }
  }

  lemma CoveringWeaken(s: string, pos: nat, q: nat, r: seq<Span>)
    requires pos <= q && Covering(s, pos, r)
    ensures Covering(s, q, r)
  {
  }

  /** Dropping the first match of a leftmost list leaves a leftmost list
      from that match's end. */
  lemma LeftmostTail(s: string, r: seq<Span>)
    requires |r| > 0 && LeftmostMatches(s, r[0].start, r)
    ensures LeftmostMatches(s, r[0].end, r[1..])
  {
    SoundTail(s, r);
    CoveringTail(s, r, r[0].end);
  }

  lemma SoundTail(s: string, r: seq<Span>)
    requires |r| > 0 && Sound(s, r[0].start, r) && Ordered(r)
    ensures Sound(s, r[0].end, r[1..]) && Ordered(r[1..])
  {
    forall k | 0 <= k < |r| - 1
      ensures r[0].end <= r[1..][k].start < r[1..][k].end <= |s|
      ensures IsAnchorTag(s[r[1..][k].start..r[1..][k].end])
    {
      assert r[1..][k] == r[k + 1];
    }
  }

  /** Matches are non-empty and disjoint, so there are at most as many as
      there are characters left. */
  lemma {:induction false} SoundLength(s: string, pos: nat, r: seq<Span>)
    requires pos <= |s| && Sound(s, pos, r) && Ordered(r)
    ensures |r| <= |s| - pos
    decreases |r|
  {
    if |r| > 0 {
      assert pos <= r[0].start < r[0].end <= |s|;
      SoundLength(s, r[0].end, r[1..]);
    }
  }

  /** A leftmost list from `pos` starts with the match at `pos`, if any. */
  lemma UniqueHead(s: string, pos: nat, e: nat, r: seq<Span>)
    requires pos < e <= |s| && IsAnchorTag(s[pos..e])
    requires LeftmostMatches(s, pos, r)
    ensures |r| > 0 && r[0] == Span(pos, e)
  {
    var k :| 0 <= k < |r| && r[k].start <= pos < r[k].end;
    var first := r[0];
    assert pos <= first.start < first.end;
    assert k == 0;
    assert first.start == pos;
    FirstCloseUnique(s, pos, e, first.end);
  }

  /** All matches of the page, as index ranges. */
  function Spans(s: string): (r: seq<Span>)
    ensures LeftmostMatches(s, 0, r)
  {
    ScanCovers(s, 0);
    ScanFrom(s, 0)
  }

  /** The text of each span of `r`, in order. */
  function Slices(s: string, r: seq<Span>): (texts: seq<string>)
    requires forall k :: 0 <= k < |r| ==> r[k].start <= r[k].end <= |s|
    ensures |texts| == |r|
    ensures forall k :: 0 <= k < |r| ==> texts[k] == s[r[k].start..r[k].end]
  {
    seq(|r|, k requires 0 <= k < |r| => s[r[k].start..r[k].end])
  }

  /** crawl/findlinks.go `FindLinks`: the raw matched tags, unaltered and in
      page order. The pattern is a valid constant, so compiling it cannot fail
      and no error is ever returned. */
  function FindLinks(html: string): (links: seq<string>)
    ensures |links| == |Spans(html)|
    ensures forall k :: 0 <= k < |links| ==>
      links[k] == html[Spans(html)[k].start..Spans(html)[k].end] && IsAnchorTag(links[k])
  {
    Slices(html, Spans(html))
  }

  function Occurrences(s: string, c: char): nat {
    if s == [] then 0 else (if s[0] == c then 1 else 0) + Occurrences(s[1..], c)
  }

  lemma {:induction false} OccurrencesAppend(a: string, b: string, c: char)
    ensures Occurrences(a + b, c) == Occurrences(a, c) + Occurrences(b, c)
  {
    if a == [] {
      assert a + b == b;
    } else {
      assert (a + b)[1..] == a[1..] + b;
      OccurrencesAppend(a[1..], b, c);
    }
  }

  lemma {:induction false} OccurrencesLast(a: string, c: char)
    requires |a| > 0 && a[|a| - 1] == c
    ensures Occurrences(a, c) >= 1
  {
    if a[0] != c {
      OccurrencesLast(a[1..], c);
    }
  }

  /** Each match holds one `>` and matches do not overlap, so a page has at
      most as many matches as `>` characters. */
  lemma {:induction false} ScanBound(s: string, pos: nat)
    requires pos <= |s|
    ensures |ScanFrom(s, pos)| <= Occurrences(s[pos..], '>')
    decreases |s| - pos
  {
    if pos < |s| {
      ScanBound(s, Resume(s, pos));
      BoundStep(s, pos);
    }
  }

  lemma BoundStep(s: string, pos: nat)
    requires pos < |s|
    requires |ScanFrom(s, Resume(s, pos))| <= Occurrences(s[Resume(s, pos)..], '>')
    ensures |ScanFrom(s, pos)| <= Occurrences(s[pos..], '>')
  {
    match MatchAt(s, pos)
    case Some(e) =>
      assert s[pos..e][e - 1 - pos] == '>';
      OccurrencesSplit(s, pos, e);
    case None =>
      OccurrencesSplit(s, pos, pos + 1);
  }

  /** Cutting `s[pos..]` at `e` splits its count of `c`, and the cut-off part
      holds at least one `c` when it ends with one. */
  lemma OccurrencesSplit(s: string, pos: nat, e: nat)
    requires pos < e <= |s|
    ensures Occurrences(s[pos..], '>') == Occurrences(s[pos..e], '>') + Occurrences(s[e..], '>')
    ensures s[e - 1] == '>' ==> Occurrences(s[pos..e], '>') >= 1
  {
    assert s[pos..] == s[pos..e] + s[e..];
    OccurrencesAppend(s[pos..e], s[e..], '>');
    if s[e - 1] == '>' {
      OccurrencesLast(s[pos..e], '>');
    }
  }

  /** crawl/findlinks.go `CountLinks`: the number of matches, and never an
      error (the error value it formats is discarded and it returns nil). */
  function CountLinks(html: string): (r: (nat, Option<string>))
    ensures r.1 == None
    ensures r.0 == |FindLinks(html)|
    ensures r.0 <= Occurrences(html, '>')
  {
    ScanBound(html, 0);
    assert html[0..] == html;
    (|FindLinks(html)|, None)
  }

  /** The spans of `r` moved `d` characters to the right. */
  function Shift(r: seq<Span>, d: nat): (r': seq<Span>)
    ensures |r'| == |r|
    ensures forall k :: 0 <= k < |r| ==> r'[k] == Span(r[k].start + d, r[k].end + d)
  {
    seq(|r|, k requires 0 <= k < |r| => Span(r[k].start + d, r[k].end + d))
  }

  /** A page may be cut after a `>`, or after a stretch holding no `<`. */
  predicate CutPoint(a: string) {
    '<' !in a || (|a| > 0 && a[|a| - 1] == '>')
  }

  /** A match that starts before such a cut ends before it too, and is then a
      match of the first part alone. */
  lemma MatchBeforeCut(a: string, b: string, i: nat, j: nat)
    requires CutPoint(a) && i < |a| && i <= j <= |a + b| && IsAnchorTag((a + b)[i..j])
    ensures j <= |a| && IsAnchorTag(a[i..j])
  {
    var s := a + b;
    TagFacts(s, i, j);
    assert s[i] == a[i];
    assert s[..|a|] == a;
    assert s[i..j] == a[i..j];
  }

  lemma MatchAfterCut(a: string, b: string, i: nat, j: nat)
    requires |a| <= i <= j <= |a + b|
    ensures (a + b)[i..j] == b[i - |a|..j - |a|]
  {
  }

  /** Cutting at such a point splits the matches: those of the first part,
      then those of the second. */
  lemma SpansSplit(a: string, b: string)
    requires CutPoint(a)
    ensures Spans(a + b) == Spans(a) + Shift(Spans(b), |a|)
  {
    var ra, rb := Spans(a), Spans(b);
    SoundConcat(a, b, ra, rb);
    OrderedConcat(|a|, ra, rb);
    CoveringConcat(a, b, ra, rb);
    ScanUnique(a + b, 0, ra + Shift(rb, |a|));
  }

  lemma SoundConcat(a: string, b: string, ra: seq<Span>, rb: seq<Span>)
    requires Sound(a, 0, ra) && Sound(b, 0, rb)
    ensures Sound(a + b, 0, ra + Shift(rb, |a|))
  {
    var r := ra + Shift(rb, |a|);
    forall k | 0 <= k < |r|
      ensures 0 <= r[k].start < r[k].end <= |a + b| && IsAnchorTag((a + b)[r[k].start..r[k].end])
    {
      if k < |ra| {
        assert r[k] == ra[k];
        SpanLeft(a, b, ra[k].start, ra[k].end);
      } else {
        var sp := rb[k - |ra|];
        assert r[k] == Span(sp.start + |a|, sp.end + |a|);
        MatchAfterCut(a, b, r[k].start, r[k].end);
      }
    }
  }

  lemma SpanLeft(a: string, b: string, i: nat, j: nat)
    requires i <= j <= |a|
    ensures (a + b)[i..j] == a[i..j]
  {
    assert (a + b)[..|a|] == a;
  }

  lemma OrderedConcat(n: nat, ra: seq<Span>, rb: seq<Span>)
    requires Ordered(ra) && Ordered(rb)
    requires forall k :: 0 <= k < |ra| ==> ra[k].end <= n
    ensures Ordered(ra + Shift(rb, n))
  {
    var sb := Shift(rb, n);
    var r := ra + sb;
    forall k, l | 0 <= k < l < |r|
      ensures r[k].end <= r[l].start
    {
      if l < |ra| {
        assert r[k] == ra[k] && r[l] == ra[l];
      } else if k < |ra| {
        assert r[k] == ra[k] && r[l] == sb[l - |ra|];
      } else {
        assert r[k] == sb[k - |ra|] && r[l] == sb[l - |ra|];
      }
    }
  }

  lemma CoveringConcat(a: string, b: string, ra: seq<Span>, rb: seq<Span>)
    requires CutPoint(a) && Covering(a, 0, ra) && Covering(b, 0, rb)
    ensures Covering(a + b, 0, ra + Shift(rb, |a|))
  {
    var s := a + b;
    var sb := Shift(rb, |a|);
    var r := ra + sb;
    forall i, j | 0 <= i <= j <= |s| && IsAnchorTag(s[i..j])
      ensures exists k :: 0 <= k < |r| && r[k].start <= i < r[k].end
    {
      if i < |a| {
        MatchBeforeCut(a, b, i, j);
        var k :| 0 <= k < |ra| && ra[k].start <= i < ra[k].end;
        assert r[k] == ra[k];
      } else {
        MatchAfterCut(a, b, i, j);
        var k :| 0 <= k < |rb| && rb[k].start <= i - |a| < rb[k].end;
        assert r[|ra| + k] == sb[k];
      }
    }
  }

  /** FindLinks of a page cut at such a point: the links of the first part,
      then those of the second. */
  lemma FindLinksSplit(a: string, b: string)
    requires CutPoint(a)
    ensures FindLinks(a + b) == FindLinks(a) + FindLinks(b)
  {
    SpansSplit(a, b);
    SlicesConcat(a, b, Spans(a), Spans(b));
  }

  lemma SlicesConcat(a: string, b: string, ra: seq<Span>, rb: seq<Span>)
    requires forall k :: 0 <= k < |ra| ==> ra[k].start <= ra[k].end <= |a|
    requires forall k :: 0 <= k < |rb| ==> rb[k].start <= rb[k].end <= |b|
    ensures Slices(a + b, ra + Shift(rb, |a|)) == Slices(a, ra) + Slices(b, rb)
  {
    var s := a + b;
    var r := ra + Shift(rb, |a|);
    var l, la, lb := Slices(s, r), Slices(a, ra), Slices(b, rb);
    forall k | 0 <= k < |l|
      ensures l[k] == (la + lb)[k]
    {
      if k < |ra| {
        assert r[k] == ra[k];
        assert s[..|a|] == a;
        assert s[r[k].start..r[k].end] == a[r[k].start..r[k].end];
      } else {
        var sp := rb[k - |ra|];
        assert r[k] == Span(sp.start + |a|, sp.end + |a|);
        MatchAfterCut(a, b, r[k].start, r[k].end);
      }
    }
  }

  /** A page in which no match can start has no links. */
  lemma NoMatchNoLinks(u: string)
    requires forall i, j :: 0 <= i <= j <= |u| ==> !IsAnchorTag(u[i..j])
    ensures FindLinks(u) == []
  {
    FirstSpan(u);
  }

  lemma FirstSpan(u: string)
    ensures |Spans(u)| > 0 ==> exists i, j :: 0 <= i <= j <= |u| && IsAnchorTag(u[i..j])
  {
    var r := Spans(u);
    if |r| > 0 {
      assert IsAnchorTag(u[r[0].start..r[0].end]);
    }
  }

  /** Matching is case-sensitive and needs a `\s` character after `<a`: a page
      with no `<a` followed by such a character has no links (`<A href=...>`
      and `<a>` are not counted). */
  lemma NoOpenerNoLinks(u: string)
    requires forall i :: 0 <= i && i + 2 < |u| ==> !(u[i] == '<' && u[i + 1] == 'a' && IsSpace(u[i + 2]))
    ensures FindLinks(u) == []
  {
    forall i, j | 0 <= i <= j <= |u|
      ensures !IsAnchorTag(u[i..j])
    {
      AllTagFacts(u, i);
    }
    NoMatchNoLinks(u);
  }

  /** A page without `href=` has no links (`<a name="anchor">` is not counted). */
  lemma NoHrefNoLinks(u: string)
    requires forall p :: !HrefAt(u, p)
    ensures FindLinks(u) == []
  {
    forall i, j | 0 <= i <= j <= |u|
      ensures !IsAnchorTag(u[i..j])
    {
      AllTagFacts(u, i);
    }
    NoMatchNoLinks(u);
  }

  /** A match alone is exactly one link: itself. */
  lemma OneAnchor(t: string)
    requires IsAnchorTag(t)
    ensures FindLinks(t) == [t]
  {
    assert t[0..|t|] == t;
    assert MatchAt(t, 0) == Some(|t|);
    assert ScanFrom(t, |t|) == [];
    assert ScanFrom(t, 0) == [Span(0, |t|)] + ScanFrom(t, |t|);
  }
}
