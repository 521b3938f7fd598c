/** The fixed anchor-tag pattern of crawl/findlinks.go,

      <a\s+[^>]*href=[^>]*>

    and what it means for that pattern to match at one position of a page.
    A page is a string whose characters stand for the bytes of the HTML text.
    Every literal of the pattern is ASCII, and ASCII bytes never occur inside a
    multi-byte UTF-8 sequence, so matching bytes and matching decoded runes
    give the same matches. */
module Pattern {

  datatype Option<T> = None | Some(value: T)

  /** Go's `\s` class: tab, newline, form feed, carriage return and space
      (no vertical tab, no Unicode spaces). */
  predicate IsSpace(c: char) {
    c == '\t' || c == '\n' || c == '\U{C}' || c == '\r' || c == ' '
  }

  predicate AllSpace(w: string) {
    forall k :: 0 <= k < |w| ==> IsSpace(w[k])
  }

  /** The attribute marker the pattern requires somewhere inside the tag. */
  const Href: string := "href="

  /** `href=` occurs in `t` starting at index `p`. */
  predicate HrefAt(t: string, p: int) {
    0 <= p <= |t| && Href <= t[p..]
  }

  /** The language of the pattern, read off its concatenation:
      `<a`, then `\s+`, then `[^>]*`, then `href=`, then `[^>]*`, then `>`. */
  ghost predicate InPattern(t: string) {
    exists w, x, y :: |w| >= 1 && AllSpace(w) && '>' !in x && '>' !in y
      && t == "<a" + w + x + Href + y + ">"
  }

  /** The shape of every match: it opens with the exact lower-case `<a`, its
      third character is a `\s` character, it ends with its only `>`, and
      `href=` lies wholly between the third character and that `>`. */
  ghost predicate IsAnchorTag(t: string) {
    && |t| >= 4
    && t[0] == '<' && t[1] == 'a' && IsSpace(t[2])
    && t[|t| - 1] == '>'
    && (forall m :: 0 <= m < |t| - 1 ==> t[m] != '>')
    && exists p :: 3 <= p && p + |Href| < |t| && HrefAt(t, p)
  }

  /** Building a string along the pattern's concatenation gives a tag of the
      stated shape. */
  lemma AnchorFromParts(w: string, x: string, y: string)
    requires |w| >= 1 && AllSpace(w) && '>' !in x && '>' !in y
    ensures IsAnchorTag("<a" + w + x + Href + y + ">")
  {
    var t := "<a" + w + x + Href + y + ">";
    var p := 2 + |w| + |x|;
    forall m | 0 <= m < |t| - 1
      ensures t[m] != '>'
    {
      if m < 2 {
        assert t[m] == "<a"[m];
      } else if m < 2 + |w| {
        assert t[m] == w[m - 2] && IsSpace(w[m - 2]);
      } else if m < p {
        assert t[m] == x[m - 2 - |w|];
      } else if m < p + |Href| {
        assert t[m] == Href[m - p];
      } else {
        assert t[m] == y[m - p - |Href|];
      }
    }
    assert t[p..] == Href + y + ">";
    assert HrefAt(t, p);
  }

  /** Every tag of that shape splits along the pattern's concatenation. */
  lemma AnchorParts(t: string) returns (w: string, x: string, y: string)
    requires IsAnchorTag(t)
    ensures |w| >= 1 && AllSpace(w) && '>' !in x && '>' !in y
    ensures t == "<a" + w + x + Href + y + ">"
  {
    var p :| 3 <= p && p + |Href| < |t| && HrefAt(t, p);
    w, x, y := t[2..3], t[3..p], t[p + |Href|..|t| - 1];
    assert forall m :: 0 <= m < |x| ==> x[m] == t[3 + m];
    assert forall m :: 0 <= m < |y| ==> y[m] == t[p + |Href| + m];
    assert t[..2] == "<a";
    assert t[p..p + |Href|] == Href by {
      assert t[p..][..|Href|] == t[p..p + |Href|];
    }
    assert t[|t| - 1..] == ">";
    calc {
      t;
      t[..2] + t[2..3] + t[3..p] + t[p..p + |Href|] + t[p + |Href|..|t| - 1] + t[|t| - 1..];
      "<a" + w + x + Href + y + ">";
    }
  }

  /** The pattern's language is exactly the set of strings of that shape. */
  lemma PatternShape(t: string)
    ensures InPattern(t) <==> IsAnchorTag(t)
  {
    if InPattern(t) {
      var w, x, y :| |w| >= 1 && AllSpace(w) && '>' !in x && '>' !in y
        && t == "<a" + w + x + Href + y + ">";
      AnchorFromParts(w, x, y);
    }
    if IsAnchorTag(t) {
      var w, x, y := AnchorParts(t);
    }
  }

  /** Index of the first `>` at or after `from`, if there is one. */
  function NextClose(s: string, from: nat): (r: Option<nat>)
    requires from <= |s|
    ensures r.Some? ==> from <= r.value < |s| && s[r.value] == '>'
    ensures forall m :: from <= m < |s| && (r.None? || m < r.value) ==> s[m] != '>'
    decreases |s| - from
  {
    if from == |s| then None
    else if s[from] == '>' then Some(from)
    else NextClose(s, from + 1)
  }

  /** Whether `href=` occurs wholly inside `s[lo..hi]`. */
  function FindHref(s: string, lo: nat, hi: nat): (b: bool)
    requires lo <= hi <= |s|
    ensures b <==> exists p :: lo <= p && p + |Href| <= hi && HrefAt(s, p)
    decreases hi - lo
  {
    if hi - lo < |Href| then false
    else if s[lo..lo + |Href|] == Href then
      assert s[lo..][..|Href|] == s[lo..lo + |Href|];
      assert HrefAt(s, lo);
      true
    else
      assert s[lo..][..|Href|] == s[lo..lo + |Href|];
      FindHref(s, lo + 1, hi)
  }

  /** What any match starting at `i` and ending at `j` says about `s`. */
  lemma TagFacts(s: string, i: nat, j: nat)
    requires i <= j <= |s| && IsAnchorTag(s[i..j])
    ensures i + 4 <= j && s[i] == '<' && s[i + 1] == 'a' && IsSpace(s[i + 2])
    ensures s[j - 1] == '>' && forall m :: i <= m < j - 1 ==> s[m] != '>'
    ensures exists p :: i + 3 <= p && p + |Href| < j && HrefAt(s, p)
  {
    var t := s[i..j];
    assert forall m :: 0 <= m < |t| ==> t[m] == s[i + m];
    var q :| 3 <= q && q + |Href| < |t| && HrefAt(t, q);
    assert t[q..][..|Href|] == s[i + q..][..|Href|];
    assert HrefAt(s, i + q);
  }

  lemma AllTagFacts(s: string, i: nat)
    requires i <= |s|
    ensures forall j :: i <= j <= |s| && IsAnchorTag(s[i..j]) ==>
      && s[i] == '<' && s[i + 1] == 'a' && IsSpace(s[i + 2]) && i + 4 <= j
      && s[j - 1] == '>' && (forall m :: i <= m < j - 1 ==> s[m] != '>')
      && exists p :: i + 3 <= p && p + |Href| < j && HrefAt(s, p)
  {
    forall j | i <= j <= |s| && IsAnchorTag(s[i..j]) {
      TagFacts(s, i, j);
    }
  }

  /** The converse of TagFacts: those facts about `s` make `s[i..j]` a match. */
  lemma TagFromFacts(s: string, i: nat, j: nat)
    requires i + 4 <= j <= |s| && s[i] == '<' && s[i + 1] == 'a' && IsSpace(s[i + 2])
    requires s[j - 1] == '>' && forall m :: i <= m < j - 1 ==> s[m] != '>'
    requires exists p :: i + 3 <= p && p + |Href| < j && HrefAt(s, p)
    ensures IsAnchorTag(s[i..j])
  {
    var t := s[i..j];
    assert forall m :: 0 <= m < |t| ==> t[m] == s[i + m];
    var p :| i + 3 <= p && p + |Href| < j && HrefAt(s, p);
    assert t[p - i..][..|Href|] == s[p..][..|Href|];
    assert HrefAt(t, p - i);
  }

  /** At most one match starts at any index. */
  lemma FirstCloseUnique(s: string, i: nat, j: nat, j': nat)
    requires i <= j <= |s| && IsAnchorTag(s[i..j])
    requires i <= j' <= |s| && IsAnchorTag(s[i..j'])
    ensures j == j'
  {
    TagFacts(s, i, j);
    TagFacts(s, i, j');
  }

  /** Where the pattern matches when the regexp engine tries it at index `i`:
      `Some(e)` when `s[i..e]` is a match, `None` when no match starts at `i`.
      At most one match can start at a given index, because a match cannot
      reach past the first `>` after its start, so the leftmost-first choice of
      Go's regexp package has nothing to choose between. */
  function MatchAt(s: string, i: nat): (r: Option<nat>)
    requires i <= |s|
    ensures r.Some? ==> i < r.value <= |s| && IsAnchorTag(s[i..r.value])
    ensures forall j :: i <= j <= |s| && IsAnchorTag(s[i..j]) ==> r == Some(j)
  {
    AllTagFacts(s, i);
    if i + 3 <= |s| && s[i] == '<' && s[i + 1] == 'a' && IsSpace(s[i + 2]) then
      match NextClose(s, i + 3)
      case Some(k) =>
        if FindHref(s, i + 3, k) then
          TagFromFacts(s, i, k + 1);
          Some(k + 1)
        else
          None
      case None =>
        None
    else
      None
  }
}
