/** The gallery page script (hugo/static/js/gallery.js): rewriting the
    `=w<W>-h<H>` size suffix of an image URL for a target width, adjusting
    the links of a page to the viewport, and scheduling the deferred loading
    of thumbnails nearest first. The viewport width, the links' data-width
    values and the images' distances from the viewport are inputs. */
module Gallery {
  import opened Wrappers
  import opened Text
  import opened Numbers

  /** The end of the run of decimal digits that starts at i. */
  function DigitRunEnd(s: string, i: nat): (j: nat)
    requires i <= |s|
    ensures i <= j <= |s|
    ensures j == |s| || !IsDigit(s[j])
    decreases |s| - i
  {
    if i < |s| && IsDigit(s[i]) then DigitRunEnd(s, i + 1) else i
  }

  /** Everything a digit run spans is a digit. */
  lemma {:induction false} DigitRunDigits(s: string, i: nat)
    requires i <= |s|
    ensures AllDigits(s[i..DigitRunEnd(s, i)])
    decreases |s| - i
  {
    if i < |s| && IsDigit(s[i]) {
      var j := DigitRunEnd(s, i + 1);
      DigitRunDigits(s, i + 1);
      assert s[i..j] == [s[i]] + s[i + 1..j];
    }
  }

  /** A digit run ends where the digits stop. */
  lemma {:induction false} DigitRunEndIs(s: string, i: nat, j: nat)
    requires i <= j <= |s| && AllDigits(s[i..j])
    requires j == |s| || !IsDigit(s[j])
    ensures DigitRunEnd(s, i) == j
    decreases j - i
  {
    if i < j {
      assert IsDigit(s[i..j][0]);
      assert s[i + 1..j] == s[i..j][1..];
      DigitRunEndIs(s, i + 1, j);
    }
  }

  /** One match of /=w(\d+)-h(\d+)/: the span [start, end) and the two
      captured digit strings. */
  datatype DimMatch = DimMatch(start: nat, end: nat, widthDigits: string, heightDigits: string)

  /** The regular expression /=w(\d+)-h(\d+)/ tried at position p. Both digit
      groups are greedy; since a digit is never `-`, the first group must take
      the whole run, and the second takes it because nothing follows. */
  function MatchAt(s: string, p: nat): (r: Option<DimMatch>)
    requires p <= |s|
    ensures r.Some? ==> r.value.start == p && p < r.value.end <= |s|
    ensures r.Some? ==> AllDigits(r.value.widthDigits) && AllDigits(r.value.heightDigits)
  {
    if p + 2 <= |s| && s[p] == '=' && s[p + 1] == 'w' then
      var e1 := DigitRunEnd(s, p + 2);
      if e1 > p + 2 && e1 + 2 <= |s| && s[e1] == '-' && s[e1 + 1] == 'h' then
        var e2 := DigitRunEnd(s, e1 + 2);
        DigitRunDigits(s, p + 2);
        DigitRunDigits(s, e1 + 2);
        if e2 > e1 + 2 then Some(DimMatch(p, e2, s[p + 2..e1], s[e1 + 2..e2]))
        else None
      else None
    else None
  }

  /** A match spans `=w`, a whole run of digits, `-h` and a whole run of
      digits, and is not followed by a digit. */
  lemma MatchAtSpec(s: string, p: nat)
    requires p <= |s|
    ensures var r := MatchAt(s, p);
      r.Some? ==>
      var m := r.value;
      && m.widthDigits != [] && AllDigits(m.widthDigits)
      && m.heightDigits != [] && AllDigits(m.heightDigits)
      && s[p..m.end] == "=w" + m.widthDigits + "-h" + m.heightDigits
      && (m.end == |s| || !IsDigit(s[m.end]))
  {
    if MatchAt(s, p).Some? {
      var e1 := DigitRunEnd(s, p + 2);
      var e2 := DigitRunEnd(s, e1 + 2);
      assert s[p..p + 2] == "=w" && s[e1..e1 + 2] == "-h";
      SliceParts(s, p, p + 2, e1, e1 + 2, e2);
    }
  }

  /** Conversely, text of the shape `=w<digits>-h<digits>` not followed by a
      digit is a match. */
  lemma MatchAtLayout(s: string, p: nat, w: string, h: string)
    requires w != [] && AllDigits(w) && h != [] && AllDigits(h)
    requires p + |w| + |h| + 4 <= |s|
    requires s[p..p + |w| + |h| + 4] == "=w" + w + "-h" + h
    requires p + |w| + |h| + 4 == |s| || !IsDigit(s[p + |w| + |h| + 4])
    ensures MatchAt(s, p) == Some(DimMatch(p, p + |w| + |h| + 4, w, h))
  {
    var e1, e2 := p + 2 + |w|, p + |w| + |h| + 4;
    var t := s[p..e2];
    DimTextLayout(w, h);
    SliceOfSlice(s, p, e2, 2, 2 + |w|);
    SliceOfSlice(s, p, e2, 4 + |w|, |t|);
    assert s[p] == t[0] && s[p + 1] == t[1];
    assert s[e1] == t[2 + |w|] && s[e1 + 1] == t[3 + |w|];
    assert s[p + 2..e1] == w && s[e1 + 2..e2] == h;
    MatchAtIs(s, p, e1, e2);
  }

  /** The match at p, given where its `-h` and its end are. */
  lemma MatchAtIs(s: string, p: nat, e1: nat, e2: nat)
    requires p + 2 < e1 && e1 + 2 < e2 <= |s|
    requires s[p] == '=' && s[p + 1] == 'w' && s[e1] == '-' && s[e1 + 1] == 'h'
    requires AllDigits(s[p + 2..e1]) && AllDigits(s[e1 + 2..e2])
    requires e2 == |s| || !IsDigit(s[e2])
    ensures MatchAt(s, p) == Some(DimMatch(p, e2, s[p + 2..e1], s[e1 + 2..e2]))
  {
    DigitRunEndIs(s, p + 2, e1);
    DigitRunEndIs(s, e1 + 2, e2);
  }

  /** Where the pieces of `=w<w>-h<h>` sit. */
  lemma DimTextLayout(w: string, h: string)
    ensures var t := "=w" + w + "-h" + h;
      && |t| == |w| + |h| + 4 && t[0] == '=' && t[1] == 'w' && t[2..2 + |w|] == w
      && t[2 + |w|] == '-' && t[3 + |w|] == 'h' && t[4 + |w|..] == h
  {
    var t := "=w" + w + "-h" + h;
    assert t == ("=w" + w) + ("-h" + h);
  }

  lemma SliceOfSlice(s: string, a: nat, b: nat, i: nat, j: nat)
    requires a <= b <= |s| && i <= j <= b - a
    ensures s[a..b][i..j] == s[a + i..a + j]
  {
    assert forall k :: 0 <= k < j - i ==> s[a..b][i..j][k] == s[a..b][i + k] == s[a + i + k];
  }

  /** Two texts that agree up to n agree at every index up to n ... */
  lemma CharsAgree(s1: string, s2: string, n: nat, i: nat)
    requires n < |s1| && n < |s2| && s1[..n + 1] == s2[..n + 1] && i <= n
    ensures s1[i] == s2[i]
  {
    assert s1[i] == s1[..n + 1][i];
    assert s2[i] == s2[..n + 1][i];
  }

  /** ... and on every slice that ends by n + 1. */
  lemma SlicesAgree(s1: string, s2: string, n: nat, a: nat, b: nat)
    requires n < |s1| && n < |s2| && s1[..n + 1] == s2[..n + 1] && a <= b <= n + 1
    ensures s1[a..b] == s2[a..b]
  {
    assert s1[a..b] == s1[..n + 1][a..b];
    assert s2[a..b] == s2[..n + 1][a..b];
  }

  /** A digit run that stops at or before a non-digit at n is the same in
      two texts that agree up to n. */
  lemma {:induction false} DigitRunEndLocal(s1: string, s2: string, i: nat, n: nat)
    requires i <= n < |s1| && n < |s2| && s1[..n + 1] == s2[..n + 1] && !IsDigit(s1[n])
    ensures DigitRunEnd(s1, i) == DigitRunEnd(s2, i) <= n
    decreases n - i
  {
    CharsAgree(s1, s2, n, i);
    if i < n && IsDigit(s1[i]) {
      DigitRunEndLocal(s1, s2, i + 1, n);
    }
  }

  /** No match where `=w` is missing, ... */
  lemma NoMatchWithoutW(s: string, p: nat)
    requires p <= |s| && !(p + 2 <= |s| && s[p] == '=' && s[p + 1] == 'w')
    ensures MatchAt(s, p) == None
  {}

  /** ... where the width digits are not followed by `-h`, ... */
  lemma NoMatchWithoutH(s: string, p: nat, e1: nat)
    requires p + 2 <= |s| && s[p] == '=' && s[p + 1] == 'w' && e1 == DigitRunEnd(s, p + 2)
    requires !(e1 > p + 2 && e1 + 2 <= |s| && s[e1] == '-' && s[e1 + 1] == 'h')
    ensures MatchAt(s, p) == None
  {}

  /** ... or where no height digit follows. */
  lemma NoMatchWithoutHeight(s: string, p: nat, e1: nat)
    requires p + 2 < e1 && e1 + 2 <= |s| && s[p] == '=' && s[p + 1] == 'w' && s[e1] == '-' && s[e1 + 1] == 'h'
    requires e1 == DigitRunEnd(s, p + 2) && DigitRunEnd(s, e1 + 2) == e1 + 2
    ensures MatchAt(s, p) == None
  {}

  /** Two texts that agree up to a `=` at n have the same matches before n:
      a match that starts before n reads nothing beyond it. */
  lemma MatchAtLocal(s1: string, s2: string, q: nat, n: nat)
    requires q < n < |s1| && n < |s2| && s1[..n + 1] == s2[..n + 1] && s1[n] == '='
    ensures MatchAt(s1, q) == MatchAt(s2, q)
  {
    CharsAgree(s1, s2, n, q);
    CharsAgree(s1, s2, n, q + 1);
    if !(s1[q] == '=' && s1[q + 1] == 'w') {
      NoMatchWithoutW(s1, q);
      NoMatchWithoutW(s2, q);
      return;
    }
    DigitRunEndLocal(s1, s2, q + 2, n);
    var e1 := DigitRunEnd(s1, q + 2);
    CharsAgree(s1, s2, n, e1);
    if !(e1 > q + 2 && s1[e1] == '-' && s1[e1 + 1] == 'h') {
      NoMatchWithoutH(s1, q, e1);
      NoMatchWithoutH(s2, q, e1);
      return;
    }
    CharsAgree(s1, s2, n, e1 + 1);
    DigitRunEndLocal(s1, s2, e1 + 2, n);
    var e2 := DigitRunEnd(s1, e1 + 2);
    if e2 == e1 + 2 {
      NoMatchWithoutHeight(s1, q, e1);
      NoMatchWithoutHeight(s2, q, e1);
      return;
    }
    SameMatch(s1, s2, q, e1, e2, n);
  }

  /** The match both texts share when the characters up to n agree. */
  lemma SameMatch(s1: string, s2: string, q: nat, e1: nat, e2: nat, n: nat)
    requires q + 2 < e1 && e1 + 2 < e2 <= n < |s1| && n < |s2| && s1[..n + 1] == s2[..n + 1]
    requires s1[q] == '=' && s1[q + 1] == 'w' && s1[e1] == '-' && s1[e1 + 1] == 'h'
    requires e1 == DigitRunEnd(s1, q + 2) && e2 == DigitRunEnd(s1, e1 + 2)
    ensures MatchAt(s1, q) == MatchAt(s2, q)
  {
    DigitRunDigits(s1, q + 2);
    DigitRunDigits(s1, e1 + 2);
    CharsAgree(s1, s2, n, q);
    CharsAgree(s1, s2, n, q + 1);
    CharsAgree(s1, s2, n, e1);
    CharsAgree(s1, s2, n, e1 + 1);
    CharsAgree(s1, s2, n, e2);
    SlicesAgree(s1, s2, n, q + 2, e1);
    SlicesAgree(s1, s2, n, e1 + 2, e2);
    MatchAtIs(s1, q, e1, e2);
    MatchAtIs(s2, q, e1, e2);
  }

  /** The leftmost match at or after `from`, as String.prototype.match and
      String.prototype.replace find it. */
  function FirstMatch(s: string, from: nat): (r: Option<DimMatch>)
    requires from <= |s|
    ensures r.Some? ==> from <= r.value.start < r.value.end <= |s|
    ensures r.Some? ==> AllDigits(r.value.widthDigits) && AllDigits(r.value.heightDigits)
    decreases |s| - from
  {
    var m := MatchAt(s, from);
    if m.Some? then m else if from == |s| then None else FirstMatch(s, from + 1)
  }

  /** The first match is the leftmost one: it is a match, none starts
      earlier, and None means that no position matches. */
  lemma {:induction false} FirstMatchSpec(s: string, from: nat)
    requires from <= |s|
    ensures var r := FirstMatch(s, from);
      && (r.Some? ==> MatchAt(s, r.value.start) == r)
      && (r.Some? ==> forall q :: from <= q < r.value.start ==> MatchAt(s, q).None?)
      && (r.None? ==> forall q :: from <= q <= |s| ==> MatchAt(s, q).None?)
    decreases |s| - from
  {
    if MatchAt(s, from).None? && from < |s| {
      FirstMatchSpec(s, from + 1);
      assert FirstMatch(s, from) == FirstMatch(s, from + 1);
    }
  }

  /** A match with no match before it is the first one. */
  lemma {:induction false} FirstMatchIs(s: string, from: nat, p: nat)
    requires from <= p <= |s| && MatchAt(s, p).Some?
    requires forall q :: from <= q < p ==> MatchAt(s, q).None?
    ensures FirstMatch(s, from) == MatchAt(s, p)
    decreases p - from
  {
    if from < p {
      FirstMatchIs(s, from + 1, p);
    }
  }

  /** A JavaScript number, restricted to the values a rounded quotient of
      non-negative integers can take. */
  datatype JsNumber = Finite(n: int) | Infinity | NaN

  /** How a template or `+` prints the number. */
  function JsNumberToString(x: JsNumber): string {
    match x
    case Finite(n) => IntToString(n)
    case Infinity => "Infinity"
    case NaN => "NaN"
  }

  /** Math.round(width / (originalWidth / originalHeight)) over exact
      rationals, with JavaScript's division by zero: a zero original height
      makes the ratio Infinity and the height 0; a zero original width makes
      the ratio 0, so the height is Infinity, or NaN when 0 / 0 occurs. */
  function NewHeight(width: nat, originalWidth: nat, originalHeight: nat): (h: JsNumber)
    ensures originalWidth > 0 ==> h.Finite? && h.n >= 0 && IsNearest(h.n, width * originalHeight, originalWidth)
    ensures originalWidth == 0 ==> h == (if width > 0 && originalHeight > 0 then Infinity else NaN)
  {
    if originalWidth > 0 then Finite(Round(width * originalHeight, originalWidth))
    else if width > 0 && originalHeight > 0 then Infinity
    else NaN
  }

  /** The text that replaces the first match. */
  function Dimensions(width: nat, height: JsNumber): string {
    "=w" + NatToString(width) + "-h" + JsNumberToString(height)
  }

  /** replaceDimensionsInUrl: a URL without a `=w<digits>-h<digits>` part
      anywhere is returned as it is; otherwise its leftmost such part, and
      only it, is replaced by the new width and the height that keeps the
      parsed aspect ratio, and everything before and after it (a `-s` or
      `-no` flag, say) is kept. */
  function ReplaceDimensionsInUrl(url: string, width: nat): (r: string)
    ensures (forall q :: 0 <= q <= |url| ==> MatchAt(url, q).None?) ==> r == url
    ensures FirstMatch(url, 0).Some? ==>
      var m := FirstMatch(url, 0).value;
      && (forall q :: 0 <= q < m.start ==> MatchAt(url, q).None?)
      && r == url[..m.start]
           + Dimensions(width, NewHeight(width, DigitsValue(m.widthDigits), DigitsValue(m.heightDigits)))
           + url[m.end..]
  {
    FirstMatchSpec(url, 0);
    match FirstMatch(url, 0)
    case None => url
    case Some(m) =>
      MatchAtSpec(url, m.start);
      var originalWidth := DigitsValue(m.widthDigits);
      var originalHeight := DigitsValue(m.heightDigits);
      url[..m.start] + Dimensions(width, NewHeight(width, originalWidth, originalHeight)) + url[m.end..]
  }

  /** With a positive width and a positive parsed width, rewriting twice is
      rewriting once: the new part is the first match of the rewritten URL,
      it parses back to the width and height just written, and they keep
      their own ratio. */
  lemma ReplaceIdempotent(url: string, width: nat)
    requires width > 0
    requires FirstMatch(url, 0).Some? && DigitsValue(FirstMatch(url, 0).value.widthDigits) > 0
    ensures ReplaceDimensionsInUrl(ReplaceDimensionsInUrl(url, width), width) == ReplaceDimensionsInUrl(url, width)
  {
    var m := FirstMatch(url, 0).value;
    var hn := NewHeight(width, DigitsValue(m.widthDigits), DigitsValue(m.heightDigits));
    var n: nat := hn.n;
    var w, h := NatToString(width), NatToString(n);
    var pre, suf := url[..m.start], url[m.end..];
    assert JsNumberToString(hn) == h;
    var r := pre + ("=w" + w + "-h" + h) + suf;
    assert ReplaceDimensionsInUrl(url, width) == r;
    FirstMatchBounds(url, m);
    RewrittenLayout(url, m, w, h, r);
    FirstMatchOfLayout(url, r, m.start, w, h);
    DigitsValueOfNatToString(width);
    DigitsValueOfNatToString(n);
    RoundExact(n, width);
    assert width * n == n * width;
    assert NewHeight(width, width, n) == hn;
    RewrittenParts(pre, w, h, suf);
  }

  lemma RewrittenParts(pre: string, w: string, h: string, suf: string)
    ensures var r := pre + ("=w" + w + "-h" + h) + suf;
      r[..|pre|] == pre && r[|pre| + |w| + |h| + 4..] == suf
  {
    var r := pre + ("=w" + w + "-h" + h) + suf;
    assert r == pre + ("=w" + w + "-h" + h + suf);
  }

  /** The first match starts with `=` and is not followed by a digit. */
  lemma FirstMatchBounds(url: string, m: DimMatch)
    requires FirstMatch(url, 0) == Some(m)
    ensures m.start < m.end <= |url| && url[m.start..m.end][0] == '=' && (m.end == |url| || !IsDigit(url[m.end]))
  {
    FirstMatchSpec(url, 0);
    MatchAtSpec(url, m.start);
    assert MatchAt(url, m.start) == Some(m);
    assert url[m.start..m.end] == "=w" + m.widthDigits + "-h" + m.heightDigits;
  }

  /** A text that agrees with url up to the `=` at p, where url has its
      first match, and that holds `=w<w>-h<h>` at p followed by a non-digit,
      has its first match there. */
  lemma FirstMatchOfLayout(url: string, r: string, p: nat, w: string, h: string)
    requires FirstMatch(url, 0).Some? && FirstMatch(url, 0).value.start == p
    requires w != [] && AllDigits(w) && h != [] && AllDigits(h)
    requires LaidOut(url, r, p, w, h)
    ensures FirstMatch(r, 0) == Some(DimMatch(p, p + |w| + |h| + 4, w, h))
  {
    FirstMatchSpec(url, 0);
    forall q | 0 <= q < p
      ensures MatchAt(r, q).None?
    {
      MatchAtLocal(url, r, q, p);
    }
    MatchAtLayout(r, p, w, h);
    FirstMatchIs(r, 0, p);
  }

  /** r agrees with url up to the `=` at p, holds `=w<w>-h<h>` at p and
      goes on with a non-digit. */
  predicate LaidOut(url: string, r: string, p: nat, w: string, h: string) {
    var e := p + |w| + |h| + 4;
    && p < |url| && url[p] == '='
    && e <= |r| && r[..p + 1] == url[..p + 1]
    && r[p..e] == "=w" + w + "-h" + h
    && (e == |r| || !IsDigit(r[e]))
  }

  /** The rewritten text agrees with the old one up to the `=` that starts
      the match, holds the new part there, and goes on with a non-digit. */
  lemma RewrittenLayout(url: string, m: DimMatch, w: string, h: string, r: string)
    requires m.start < m.end <= |url| && url[m.start..m.end][0] == '='
    requires m.end == |url| || !IsDigit(url[m.end])
    requires r == url[..m.start] + ("=w" + w + "-h" + h) + url[m.end..]
    ensures LaidOut(url, r, m.start, w, h)
  {
    var pre, mid, suf := url[..m.start], "=w" + w + "-h" + h, url[m.end..];
    var e := m.start + |mid|;
    assert url[m.start] == url[m.start..m.end][0];
    assert r[..m.start + 1] == url[..m.start + 1] by {
      assert r[..m.start + 1] == pre + [mid[0]];
      assert url[..m.start + 1] == pre + [url[m.start]];
    }
    assert r[m.start..e] == mid;
    if e < |r| {
      assert r[e] == suf[0] == url[m.end];
    }
  }

  /** A link of the page: its href, which the script rewrites, and its
      data-width attribute as parseInt reads it (None when it is absent or
      empty, or when parseInt gives NaN, which no comparison satisfies). */
  class Link {
    var href: string
    const dataWidth: Option<int>

    constructor(href: string, dataWidth: Option<int>)
      ensures this.href == href && this.dataWidth == dataWidth
    {
      this.href := href;
      this.dataWidth := dataWidth;
    }
  }

  function DataWidths(links: seq<Link>): (dws: seq<Option<int>>)
    ensures |dws| == |links| && forall k :: 0 <= k < |links| ==> dws[k] == links[k].dataWidth
  {
    seq(|links|, k requires 0 <= k < |links| => links[k].dataWidth)
  }

  /** One link's effect on the working width: doubled when the link has a
      data-width larger than twice the current width, kept otherwise. */
  function Step(w: nat, dataWidth: Option<int>): nat {
    if dataWidth.Some? && 2 * w < dataWidth.value then 2 * w else w
  }

  /** The working width after the links with the given data-widths. */
  function WorkingWidth(dws: seq<Option<int>>, viewportWidth: nat): nat
    decreases |dws|
  {
    if dws == [] then viewportWidth else Step(WorkingWidth(dws[..|dws| - 1], viewportWidth), dws[|dws| - 1])
  }

  /** adjustLinksToViewport: each link, in document order, first updates the
      working width and then has its href rewritten for that width. */
  method AdjustLinksToViewport(links: seq<Link>, viewportWidth: nat)
    requires forall i, j :: 0 <= i < j < |links| ==> links[i] != links[j]
    modifies links
    ensures forall k :: 0 <= k < |links| ==>
      links[k].href == ReplaceDimensionsInUrl(old(links[k].href), WorkingWidth(DataWidths(links)[..k + 1], viewportWidth))
  {
    RewriteLinks(links, viewportWidth, ReplaceDimensionsInUrl);
  }

  /** The loop of adjustLinksToViewport, for any rewrite of an href for a
      width: its correctness does not depend on what the rewrite does. */
  method RewriteLinks(links: seq<Link>, viewportWidth: nat, rewrite: (string, nat) -> string)
    requires forall i, j :: 0 <= i < j < |links| ==> links[i] != links[j]
    modifies links
    ensures forall k :: 0 <= k < |links| ==>
      links[k].href == rewrite(old(links[k].href), WorkingWidth(DataWidths(links)[..k + 1], viewportWidth))
  {
    ghost var dws := DataWidths(links);
    var w := viewportWidth;
    for i := 0 to |links|
      invariant w == WorkingWidth(dws[..i], viewportWidth)
      invariant forall k :: 0 <= k < i ==>
        links[k].href == rewrite(old(links[k].href), WorkingWidth(dws[..k + 1], viewportWidth))
      invariant forall k :: i <= k < |links| ==> links[k].href == old(links[k].href)
    {
      var link := links[i];
      var url := link.href;
      if link.dataWidth.Some? {
        var width := link.dataWidth.value;
        if 2 * w < width {
          w := 2 * w;
        }
      }
      assert w == WorkingWidth(dws[..i + 1], viewportWidth) by {
        assert dws[..i + 1][..i] == dws[..i];
      }
      link.href := rewrite(url, w);
    }
  }

  /** The working width only ever doubles: it is the viewport width times a
      power of two, at most one doubling per link. */
  lemma {:induction false} WidthOnlyDoubles(dws: seq<Option<int>>, viewportWidth: nat)
    ensures exists k: nat :: k <= |dws| && WorkingWidth(dws, viewportWidth) == viewportWidth * Pow(2, k)
    decreases |dws|
  {
    if dws == [] {
      assert WorkingWidth(dws, viewportWidth) == viewportWidth * Pow(2, 0);
    } else {
      var init := dws[..|dws| - 1];
      WidthOnlyDoubles(init, viewportWidth);
      var w0 := WorkingWidth(init, viewportWidth);
      var k: nat :| k <= |init| && w0 == viewportWidth * Pow(2, k);
      var w := WorkingWidth(dws, viewportWidth);
      assert w == Step(w0, dws[|dws| - 1]);
      if w == w0 {
        assert k <= |dws|;
      } else {
        DoublePow(viewportWidth, k);
        assert w == viewportWidth * Pow(2, k + 1);
      }
    }
  }

  lemma DoublePow(v: nat, k: nat)
    ensures 2 * (v * Pow(2, k)) == v * Pow(2, k + 1)
  {
    assert Pow(2, k + 1) == 2 * Pow(2, k);
  }

  /** A doubling carries over: the working width never decreases from one
      link to a later one. */
  lemma {:induction false} WidthMonotone(dws: seq<Option<int>>, viewportWidth: nat, i: nat, j: nat)
    requires i <= j <= |dws|
    ensures WorkingWidth(dws[..i], viewportWidth) <= WorkingWidth(dws[..j], viewportWidth)
    decreases j - i
  {
    if i < j {
      WidthMonotone(dws, viewportWidth, i, j - 1);
      assert dws[..j][..j - 1] == dws[..j - 1];
    }
  }

  /** The working width is either still the viewport width or below some
      link's data-width: it is never doubled past what a link asked for. */
  lemma {:induction false} WidthBelowSomeDataWidth(dws: seq<Option<int>>, viewportWidth: nat)
    ensures var w := WorkingWidth(dws, viewportWidth);
      w == viewportWidth || exists k :: 0 <= k < |dws| && dws[k].Some? && w < dws[k].value
    decreases |dws|
  {
    if dws != [] {
      var init := dws[..|dws| - 1];
      var last := |dws| - 1;
      WidthBelowSomeDataWidth(init, viewportWidth);
      var w0, w := WorkingWidth(init, viewportWidth), WorkingWidth(dws, viewportWidth);
      if w != w0 {
        assert dws[last].Some? && w < dws[last].value;
      } else if w0 != viewportWidth {
        var k :| 0 <= k < |init| && init[k].Some? && w0 < init[k].value;
        assert dws[k] == init[k];
      }
    }
  }

  /** An image waiting to be loaded: its top edge relative to the viewport
      and its data-src attribute. */
  datatype LazyImage = LazyImage(top: int, dataSrc: Option<string>)

  /** getElementDistanceFromViewport: the absolute distance of the top edge. */
  function Distance(img: LazyImage): nat {
    Abs(img.top)
  }

  /** A scheduled assignment of the image's src, after `delay` milliseconds. */
  datatype Timer = Timer(src: string, delay: nat)

  const RateLimitInterval: nat := 200

  const PhotoHost: string := "https://lh3.googleusercontent.com"

  /** loadImageDeferred: an image without data-src gets no timer; any other
      gets its data-src assigned after the delay. */
  function LoadImageDeferred(img: LazyImage, delay: nat): (t: Option<Timer>)
    ensures t.None? <==> img.dataSrc.None?
    ensures t.Some? ==> t.value.src == img.dataSrc.value && t.value.delay == delay
  {
    match img.dataSrc
    case None => None
    case Some(src) => Some(Timer(src, delay))
  }

  /** The selector img[data-src^='https://lh3.googleusercontent.com']. */
  predicate IsPhotoImage(img: LazyImage) {
    img.dataSrc.Some? && |PhotoHost| <= |img.dataSrc.value| && img.dataSrc.value[..|PhotoHost|] == PhotoHost
  }

  /** The images the selector finds, in document order. */
  function SelectPhotoImages(imgs: seq<LazyImage>): (r: seq<LazyImage>)
    ensures forall x :: x in r <==> x in imgs && IsPhotoImage(x)
    ensures |r| <= |imgs|
  {
    if imgs == [] then []
    else (if IsPhotoImage(imgs[0]) then [imgs[0]] else []) + SelectPhotoImages(imgs[1..])
  }

  /** Each selected image appears as often as in the page, once per
      element, and every other image not at all. */
  lemma {:induction false} SelectPhotoImagesCounts(imgs: seq<LazyImage>)
    ensures forall x :: multiset(SelectPhotoImages(imgs))[x] == if IsPhotoImage(x) then multiset(imgs)[x] else 0
  {
    if imgs != [] {
      SelectPhotoImagesCounts(imgs[1..]);
      assert imgs == [imgs[0]] + imgs[1..];
    }
  }

  predicate SortedByDistance(s: seq<LazyImage>) {
    forall i, j :: 0 <= i < j < |s| ==> Distance(s[i]) <= Distance(s[j])
  }

  /** Places x before the first element at least as far away. */
  function InsertByDistance(x: LazyImage, s: seq<LazyImage>): (r: seq<LazyImage>)
    requires SortedByDistance(s)
    ensures SortedByDistance(r) && multiset(r) == multiset(s) + multiset{x}
    ensures forall y :: y in r ==> y == x || y in s
  {
    if s == [] || Distance(x) <= Distance(s[0]) then
      ConsSorted(x, s);
      [x] + s
    else
      var rest := InsertByDistance(x, s[1..]);
      assert s == [s[0]] + s[1..];
      TailNoNearer(s, x, rest);
      ConsSorted(s[0], rest);
      [s[0]] + rest
  }

  /** Putting an image no farther than every other in front keeps the order. */
  lemma ConsSorted(x: LazyImage, s: seq<LazyImage>)
    requires SortedByDistance(s) && (s != [] ==> Distance(x) <= Distance(s[0]))
    ensures SortedByDistance([x] + s)
  {
    var r := [x] + s;
    forall i, j | 0 <= i < j < |r| ensures Distance(r[i]) <= Distance(r[j]) {
      if i == 0 {
        assert r[j] == s[j - 1];
        assert s != [] && Distance(s[0]) <= Distance(s[j - 1]);
      } else {
        assert r[i] == s[i - 1] && r[j] == s[j - 1];
      }
    }
  }

  /** What is inserted after the head of a sorted sequence is no nearer than
      that head. */
  lemma TailNoNearer(s: seq<LazyImage>, x: LazyImage, rest: seq<LazyImage>)
    requires s != [] && SortedByDistance(s) && Distance(s[0]) < Distance(x)
    requires SortedByDistance(rest) && forall y :: y in rest ==> y == x || y in s[1..]
    ensures rest != [] ==> Distance(s[0]) <= Distance(rest[0])
  {
    if rest != [] {
      assert rest[0] in rest;
      if rest[0] != x {
        var k :| 0 <= k < |s[1..]| && s[1..][k] == rest[0];
        assert s[k + 1] == rest[0];
      }
    }
  }

  /** The array sort with the comparator a - b on distances: ascending. */
  function SortByDistance(s: seq<LazyImage>): (r: seq<LazyImage>)
    ensures SortedByDistance(r) && multiset(r) == multiset(s)
  {
    if s == [] then []
    else
      assert s == [s[0]] + s[1..];
      InsertByDistance(s[0], SortByDistance(s[1..]))
  }

  /** loadAllImagesProgressively: the selected images sorted nearest first,
      the k-th of them scheduled after k x 200 ms. A nearer image is never
      scheduled later than a farther one. */
  method LoadAllImagesProgressively(imgs: seq<LazyImage>) returns (order: seq<LazyImage>, timers: seq<Option<Timer>>)
    ensures SortedByDistance(order) && multiset(order) == multiset(SelectPhotoImages(imgs))
    ensures |timers| == |order|
    ensures forall k :: 0 <= k < |order| ==> timers[k] == LoadImageDeferred(order[k], RateLimitInterval * k)
    ensures forall i, j :: 0 <= i < |order| && 0 <= j < |order| && Distance(order[i]) < Distance(order[j]) ==>
      timers[i].Some? && timers[j].Some? && timers[i].value.delay < timers[j].value.delay
  {
    var selected := SelectPhotoImages(imgs);
    order := SortByDistance(selected);
    timers := [];
    var delay: nat := 0;
    for k := 0 to |order|
      invariant delay == RateLimitInterval * k
      invariant |timers| == k
      invariant forall i :: 0 <= i < k ==> timers[i] == LoadImageDeferred(order[i], RateLimitInterval * i)
    {
      timers := timers + [LoadImageDeferred(order[k], delay)];
      delay := delay + RateLimitInterval;
    }
    forall i, j | 0 <= i < |order| && 0 <= j < |order| && Distance(order[i]) < Distance(order[j])
      ensures timers[i].Some? && timers[j].Some? && timers[i].value.delay < timers[j].value.delay
    {
      SelectedHasSrc(order, imgs, i);
      SelectedHasSrc(order, imgs, j);
      NearerComesFirst(order, i, j);
      assert timers[i] == LoadImageDeferred(order[i], RateLimitInterval * i);
      assert timers[j] == LoadImageDeferred(order[j], RateLimitInterval * j);
    }
  }

  /** In a sequence sorted by distance, a strictly nearer image sits earlier. */
  lemma NearerComesFirst(order: seq<LazyImage>, i: nat, j: nat)
    requires SortedByDistance(order) && i < |order| && j < |order| && Distance(order[i]) < Distance(order[j])
    ensures i < j
  {
  }

  /** Every image of a reordering of the selection has a data-src. */
  lemma SelectedHasSrc(order: seq<LazyImage>, imgs: seq<LazyImage>, i: nat)
    requires multiset(order) == multiset(SelectPhotoImages(imgs)) && i < |order|
    ensures order[i].dataSrc.Some?
  {
    assert order[i] in multiset(order);
    assert order[i] in SelectPhotoImages(imgs);
  }
}
