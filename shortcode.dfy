/** The Hugo `{{<photo ...>}}` shortcode that every generator of the
    repository prints: an opening `{{<photo`, a sequence of ` name="value"`
    attributes, and a closing ` >}}`. Render builds that text from an
    attribute list; Parse reads an attribute list back, so a lemma about
    Parse(generated text) states which attributes a generator emits and in
    what order. */
module Shortcode {
  import opened Wrappers
  import opened Text

  datatype Attr = Attr(name: string, value: string)

  const Open: string := "{{<photo"
  const Close: string := " >}}"

  /** ` name="value"`, with the value inserted verbatim (no escaping). */
  function AttrText(a: Attr): string {
    " " + a.name + "=\"" + a.value + "\""
  }

  function AttrsText(attrs: seq<Attr>): string
    decreases |attrs|
  {
    if attrs == [] then "" else AttrText(attrs[0]) + AttrsText(attrs[1..])
  }

  function Render(attrs: seq<Attr>): string {
    Open + AttrsText(attrs) + Close
  }

  lemma {:induction false} AttrsTextAppend(xs: seq<Attr>, ys: seq<Attr>)
    ensures AttrsText(xs + ys) == AttrsText(xs) + AttrsText(ys)
    decreases |xs|
  {
    if xs == [] {
      assert xs + ys == ys;
    } else {
      assert (xs + ys)[1..] == xs[1..] + ys;
      AttrsTextAppend(xs[1..], ys);
    }
  }

  /** An attribute that survives a render-and-parse: a non-empty name
      without `=`, and a value without a double quote. */
  predicate WellFormed(a: Attr) {
    a.name != "" && '=' !in a.name && '"' !in a.value
  }

  predicate AllWellFormed(attrs: seq<Attr>) {
    forall k :: 0 <= k < |attrs| ==> WellFormed(attrs[k])
  }

  /** Reads one ` name="value"` attribute at the head of s and returns it
      with the text after it; the name ends at the first `=`, the value at
      the first double quote after its opening one. */
  function ParseAttr(s: string): (r: Option<(Attr, string)>)
    ensures r.Some? ==> WellFormed(r.value.0) && |r.value.1| < |s|
  {
    if |s| == 0 || s[0] != ' ' then None
    else
      var eq := IndexOf(s[1..], '=');
      if eq <= 0 then None
      else
        var rest := s[eq + 2..];
        if |rest| == 0 || rest[0] != '"' then None
        else
          var close := IndexOf(rest[1..], '"');
          if close < 0 then None
          else Some((Attr(s[1..eq + 1], rest[1..close + 1]), rest[close + 2..]))
  }

  /** Reads attributes up to the closing ` >}}`. */
  function ParseAttrs(s: string): (r: Option<seq<Attr>>)
    ensures r.Some? ==> AllWellFormed(r.value)
    decreases |s|
  {
    if s == Close then Some([])
    else
      match ParseAttr(s)
      case None => None
      case Some((a, rest)) =>
        match ParseAttrs(rest)
        case None => None
        case Some(more) => Some([a] + more)
  }

  function Parse(s: string): (r: Option<seq<Attr>>)
    ensures r.Some? ==> AllWellFormed(r.value)
  {
    if |Open| <= |s| && s[..|Open|] == Open then ParseAttrs(s[|Open|..]) else None
  }

  /** Where the pieces of ` name="value"` + tail sit. */
  lemma AttrTextLayout(a: Attr, tail: string)
    ensures var s, n, v := AttrText(a) + tail, |a.name|, |a.value|;
      && |s| == n + v + 4 + |tail|
      && s[0] == ' ' && s[1..n + 1] == a.name && s[n + 1] == '=' && s[n + 2] == '"'
      && s[n + 3..n + v + 3] == a.value && s[n + v + 3] == '"' && s[n + v + 4..] == tail
  {
    var s := AttrText(a) + tail;
    var n, v := |a.name|, |a.value|;
    assert s == [' '] + a.name + ['=', '"'] + a.value + ['"'] + tail;
  }

  /** The name part ParseAttr inspects: a space, the name up to the first
      `=`, and the opening quote. */
  predicate NameAt(s: string, name: string) {
    var n := |name|;
    |s| > n + 2 && s[0] == ' ' && s[n + 2] == '"' && IndexOf(s[1..], '=') == n && s[1..n + 1] == name
  }

  /** The positions ParseAttr inspects hold ` name="value"` followed by
      tail: after the name part, the text from the opening quote on. */
  predicate AttrAt(s: string, a: Attr, tail: string) {
    var n, v := |a.name|, |a.value|;
    NameAt(s, a.name) &&
    var rest := s[n + 2..];
    IndexOf(rest[1..], '"') == v && rest[1..v + 1] == a.value && rest[v + 2..] == tail
  }

  /** ParseAttr's result on a text laid out as AttrAt says. */
  lemma ParseAttrAt(s: string, a: Attr, tail: string)
    requires a.name != "" && AttrAt(s, a, tail)
    ensures ParseAttr(s) == Some((a, tail))
  {
  }

  /** Slices of r after its first character, as slices of r[1..]. */
  lemma SlicesAfterFirst(r: string, v: nat)
    requires v + 1 < |r|
    ensures r[1..v + 1] == r[1..][..v] && r[v + 2..] == r[1..][v + 1..]
  {
  }

  /** ` name="value"` + tail as the concatenation ParseAttr takes apart. */
  lemma AttrTextParts(a: Attr, tail: string)
    ensures var s := AttrText(a) + tail;
      s[0] == ' ' && s[1..] == a.name + ['='] + (['"'] + (a.value + ['"'] + tail))
  {
    var s := AttrText(a) + tail;
    assert s == [' '] + (a.name + ['='] + (['"'] + (a.value + ['"'] + tail)));
  }

  /** The name half of AttrAt. */
  lemma AttrTextName(a: Attr, tail: string)
    requires '=' !in a.name
    ensures var s, n := AttrText(a) + tail, |a.name|;
      |s| > n + 2 && s[0] == ' ' && s[n + 2] == '"' && IndexOf(s[1..], '=') == n && s[1..n + 1] == a.name
  {
    var s, n := AttrText(a) + tail, |a.name|;
    AttrTextParts(a, tail);
    IndexOfConcat(a.name, '=', ['"'] + (a.value + ['"'] + tail));
    PrefixOfSuffix(s, 1, n);
  }

  /** What follows the opening quote of the value. */
  lemma AttrTextRest(a: Attr, tail: string)
    ensures var s, n := AttrText(a) + tail, |a.name|;
      |s| > n + 3 && s[n + 3..] == a.value + ['"'] + tail
  {
    var s, n := AttrText(a) + tail, |a.name|;
    var p := " " + a.name + "=\"";
    assert s == p + (a.value + ['"'] + tail);
  }

  /** ` name="value"` + tail is laid out as ParseAttr expects. */
  lemma AttrTextLaidOut(a: Attr, tail: string)
    requires '=' !in a.name && '"' !in a.value
    ensures AttrAt(AttrText(a) + tail, a, tail)
  {
    AttrTextName(a, tail);
    AttrTextRest(a, tail);
    var s := AttrText(a) + tail;
    var rest := s[|a.name| + 2..];
    assert rest[1..] == s[|a.name| + 3..];
    IndexOfConcat(a.value, '"', tail);
    SlicesAfterFirst(rest, |a.value|);
  }

  /** One attribute at the head of a text is read back unchanged. */
  lemma ParseAttrText(a: Attr, tail: string)
    requires WellFormed(a)
    ensures ParseAttr(AttrText(a) + tail) == Some((a, tail))
  {
    AttrTextLaidOut(a, tail);
    ParseAttrAt(AttrText(a) + tail, a, tail);
  }

  /** One step of ParseAttrs on a text that is not the closing delimiter. */
  lemma ParseAttrsStep(s: string, a: Attr, rest: string, more: seq<Attr>)
    requires s != Close && ParseAttr(s) == Some((a, rest)) && ParseAttrs(rest) == Some(more)
    ensures ParseAttrs(s) == Some([a] + more)
  {
  }

  /** A well-formed attribute in front of a text that parses is parsed in
      front of that text's list. */
  lemma ParseAttrsCons(s: string, a: Attr, tail: string, rest: seq<Attr>)
    requires WellFormed(a) && s == AttrText(a) + tail && ParseAttrs(tail) == Some(rest)
    ensures ParseAttrs(s) == Some([a] + rest)
  {
    assert |s| > |Close|;
    ParseAttrText(a, tail);
    ParseAttrsStep(s, a, tail, rest);
  }

  lemma AttrsTextCons(a: Attr, rest: seq<Attr>)
    ensures AttrsText([a] + rest) + Close == AttrText(a) + (AttrsText(rest) + Close)
  {
    assert ([a] + rest)[1..] == rest;
  }

  /** Putting one well-formed attribute in front of a text that parses
      puts it in front of the parsed list. */
  lemma ParseAttrsRenderCons(a: Attr, rest: seq<Attr>)
    requires WellFormed(a) && ParseAttrs(AttrsText(rest) + Close) == Some(rest)
    ensures ParseAttrs(AttrsText([a] + rest) + Close) == Some([a] + rest)
  {
    AttrsTextCons(a, rest);
    ParseAttrsCons(AttrsText([a] + rest) + Close, a, AttrsText(rest) + Close, rest);
  }

  lemma {:induction false} ParseAttrsRender(attrs: seq<Attr>)
    requires AllWellFormed(attrs)
    ensures ParseAttrs(AttrsText(attrs) + Close) == Some(attrs)
    decreases |attrs|
  {
    if attrs == [] {
      assert AttrsText(attrs) + Close == Close;
    } else {
      var rest := attrs[1..];
      assert attrs == [attrs[0]] + rest;
      assert AllWellFormed(rest) by {
        forall k | 0 <= k < |rest| ensures WellFormed(rest[k]) {
          assert rest[k] == attrs[k + 1];
        }
      }
      ParseAttrsRender(rest);
      ParseAttrsRenderCons(attrs[0], rest);
    }
  }

  /** Rendering and parsing are inverse on well-formed attribute lists. */
  lemma ParseRender(attrs: seq<Attr>)
    requires AllWellFormed(attrs)
    ensures Parse(Render(attrs)) == Some(attrs)
  {
    var s := Render(attrs);
    assert s[..|Open|] == Open;
    assert s[|Open|..] == AttrsText(attrs) + Close;
    ParseAttrsRender(attrs);
  }

  /** A value holding a double quote never comes back from a parse: a
      generator that inserts such a value verbatim produces text whose
      attributes differ from the ones it meant to emit. */
  lemma QuoteBreaksRoundTrip(attrs: seq<Attr>, k: nat)
    requires k < |attrs| && '"' in attrs[k].value
    ensures Parse(Render(attrs)) != Some(attrs)
  {
  }

  /** A six-attribute shortcode written out piece by piece. */
  lemma RenderSix(a: Attr, b: Attr, c: Attr, d: Attr, e: Attr, f: Attr)
    ensures Render([a, b, c, d, e, f]) ==
      Open + AttrText(a) + AttrText(b) + AttrText(c) + AttrText(d) + AttrText(e) + AttrText(f) + Close
  {
    var attrs := [a, b, c, d, e, f];
    assert attrs[1..] == [b, c, d, e, f];
    assert attrs[2..] == [c, d, e, f];
    assert attrs[3..] == [d, e, f];
    assert attrs[4..] == [e, f];
    assert attrs[5..] == [f];
    assert AttrsText([f]) == AttrText(f) by {
      assert [f][1..] == [];
    }
    calc {
      AttrsText(attrs);
      AttrText(a) + AttrsText([b, c, d, e, f]);
      AttrText(a) + (AttrText(b) + AttrsText([c, d, e, f]));
      AttrText(a) + (AttrText(b) + (AttrText(c) + AttrsText([d, e, f])));
      AttrText(a) + (AttrText(b) + (AttrText(c) + (AttrText(d) + AttrsText([e, f]))));
      AttrText(a) + (AttrText(b) + (AttrText(c) + (AttrText(d) + (AttrText(e) + AttrText(f)))));
    }
  }

  /** The six attributes both Python scripts print, in their order. */
  function PrintedAttrs(src: string, caption: string, w: int, h: int, srcWidth: int, srcHeight: int): seq<Attr> {
    [Attr("src", src), Attr("caption", caption),
     Attr("width", IntToString(w)), Attr("height", IntToString(h)),
     Attr("src-width", IntToString(srcWidth)), Attr("src-height", IntToString(srcHeight))]
  }

  /** The f-string both Python scripts print, with every value inserted
      verbatim. */
  function PrintedShortcode(src: string, caption: string, w: int, h: int, srcWidth: int, srcHeight: int): string {
    "{{<photo src=\"" + src + "\" caption=\"" + caption
      + "\" width=\"" + IntToString(w) + "\" height=\"" + IntToString(h)
      + "\" src-width=\"" + IntToString(srcWidth) + "\" src-height=\"" + IntToString(srcHeight) + "\" >}}"
  }

  /** The literal pieces of the f-string, cut at attribute boundaries. */
  lemma PrintedLiterals()
    ensures "{{<photo src=\"" == Open + " src=\""
    ensures "\" caption=\"" == "\"" + " caption=\""
    ensures "\" width=\"" == "\"" + " width=\""
    ensures "\" height=\"" == "\"" + " height=\""
    ensures "\" src-width=\"" == "\"" + " src-width=\""
    ensures "\" src-height=\"" == "\"" + " src-height=\""
    ensures "\" >}}" == "\"" + Close
  {
  }

  /** The text before each attribute's value. */
  lemma AttrPrefixLiterals()
    ensures " src=\"" == " " + "src" + "=\""
    ensures " caption=\"" == " " + "caption" + "=\""
    ensures " width=\"" == " " + "width" + "=\""
    ensures " height=\"" == " " + "height" + "=\""
    ensures " src-width=\"" == " " + "src-width" + "=\""
    ensures " src-height=\"" == " " + "src-height" + "=\""
  {
  }

  /** An attribute's text is the text before its value, the value and a quote. */
  lemma AttrTextOf(name: string, value: string, prefix: string)
    requires prefix == " " + name + "=\""
    ensures AttrText(Attr(name, value)) == prefix + value + "\""
  {
  }

  /** Moving the closing quote of each attribute from the next literal back onto the attribute. */
  lemma Regroup(o: string, q: string, c: string,
                p0: string, v0: string, p1: string, v1: string, p2: string, v2: string,
                p3: string, v3: string, p4: string, v4: string, p5: string, v5: string)
    ensures (o + p0) + v0 + (q + p1) + v1 + (q + p2) + v2 + (q + p3) + v3 + (q + p4) + v4 + (q + p5) + v5 + (q + c)
      == o + (p0 + v0 + q) + (p1 + v1 + q) + (p2 + v2 + q) + (p3 + v3 + q) + (p4 + v4 + q) + (p5 + v5 + q) + c
  {
  }

  /** The f-string's text, with its values already printed, is the opening,
      six attributes and the closing. */
  lemma PrintedPieces(src: string, caption: string, ws: string, hs: string, sws: string, shs: string)
    ensures "{{<photo src=\"" + src + "\" caption=\"" + caption + "\" width=\"" + ws + "\" height=\"" + hs
        + "\" src-width=\"" + sws + "\" src-height=\"" + shs + "\" >}}"
      == Open + AttrText(Attr("src", src)) + AttrText(Attr("caption", caption))
        + AttrText(Attr("width", ws)) + AttrText(Attr("height", hs))
        + AttrText(Attr("src-width", sws)) + AttrText(Attr("src-height", shs)) + Close
  {
    var q := "\"";
    var p0, p1, p2 := " src=\"", " caption=\"", " width=\"";
    var p3, p4, p5 := " height=\"", " src-width=\"", " src-height=\"";
    AttrPrefixLiterals();
    AttrTextOf("src", src, p0);
    AttrTextOf("caption", caption, p1);
    AttrTextOf("width", ws, p2);
    AttrTextOf("height", hs, p3);
    AttrTextOf("src-width", sws, p4);
    AttrTextOf("src-height", shs, p5);
    PrintedLiterals();
    RegroupLiterals("{{<photo src=\"", "\" caption=\"", "\" width=\"", "\" height=\"",
      "\" src-width=\"", "\" src-height=\"", "\" >}}",
      Open, q, Close, p0, src, p1, caption, p2, ws, p3, hs, p4, sws, p5, shs);
  }

  /** Regroup, for literals l0 .. l6 that are the opening, the closing and
      the attribute prefixes with the quotes moved. */
  lemma RegroupLiterals(l0: string, l1: string, l2: string, l3: string, l4: string, l5: string, l6: string,
                        o: string, q: string, c: string,
                        p0: string, v0: string, p1: string, v1: string, p2: string, v2: string,
                        p3: string, v3: string, p4: string, v4: string, p5: string, v5: string)
    requires l0 == o + p0 && l1 == q + p1 && l2 == q + p2 && l3 == q + p3
    requires l4 == q + p4 && l5 == q + p5 && l6 == q + c
    ensures l0 + v0 + l1 + v1 + l2 + v2 + l3 + v3 + l4 + v4 + l5 + v5 + l6
      == o + (p0 + v0 + q) + (p1 + v1 + q) + (p2 + v2 + q) + (p3 + v3 + q) + (p4 + v4 + q) + (p5 + v5 + q) + c
  {
    Regroup(o, q, c, p0, v0, p1, v1, p2, v2, p3, v3, p4, v4, p5, v5);
  }

  /** The f-string is the shortcode of PrintedAttrs. */
  lemma PrintedShortcodeRenders(src: string, caption: string, w: int, h: int, srcWidth: int, srcHeight: int)
    ensures PrintedShortcode(src, caption, w, h, srcWidth, srcHeight) == Render(PrintedAttrs(src, caption, w, h, srcWidth, srcHeight))
  {
    var ws, hs, sws, shs := IntToString(w), IntToString(h), IntToString(srcWidth), IntToString(srcHeight);
    var attrs := PrintedAttrs(src, caption, w, h, srcWidth, srcHeight);
    RenderSix(attrs[0], attrs[1], attrs[2], attrs[3], attrs[4], attrs[5]);
    assert attrs == [attrs[0], attrs[1], attrs[2], attrs[3], attrs[4], attrs[5]];
    PrintedPieces(src, caption, ws, hs, sws, shs);
  }

  /** Without double quotes in src and caption, the printed shortcode
      parses back to exactly these six attributes in this order. */
  lemma PrintedShortcodeParses(src: string, caption: string, w: int, h: int, srcWidth: int, srcHeight: int)
    requires '"' !in src && '"' !in caption
    ensures Parse(PrintedShortcode(src, caption, w, h, srcWidth, srcHeight)) == Some(PrintedAttrs(src, caption, w, h, srcWidth, srcHeight))
  {
    PrintedShortcodeRenders(src, caption, w, h, srcWidth, srcHeight);
    NumberHasNoQuote(w);
    NumberHasNoQuote(h);
    NumberHasNoQuote(srcWidth);
    NumberHasNoQuote(srcHeight);
    SixWellFormed(src, caption, IntToString(w), IntToString(h), IntToString(srcWidth), IntToString(srcHeight));
    ParseRender(PrintedAttrs(src, caption, w, h, srcWidth, srcHeight));
  }

  /** A printed integer holds no double quote. */
  lemma NumberHasNoQuote(i: int)
    ensures '"' !in IntToString(i)
  {
    var s := IntToString(i);
    if i < 0 {
      assert s == "-" + NatToString(-i);
      assert '"' !in NatToString(-i);
    }
  }

  /** The six printed attribute names with quote-free values are well-formed. */
  lemma SixWellFormed(src: string, caption: string, ws: string, hs: string, sws: string, shs: string)
    requires '"' !in src && '"' !in caption && '"' !in ws && '"' !in hs && '"' !in sws && '"' !in shs
    ensures AllWellFormed([Attr("src", src), Attr("caption", caption), Attr("width", ws), Attr("height", hs),
                           Attr("src-width", sws), Attr("src-height", shs)])
  {
  }

  /** A double quote in the caption breaks the printed shortcode: it no
      longer parses to the attributes it was meant to carry. */
  lemma PrintedCaptionQuoteBreaks(src: string, caption: string, w: int, h: int, srcWidth: int, srcHeight: int)
    requires '"' in caption
    ensures Parse(PrintedShortcode(src, caption, w, h, srcWidth, srcHeight)) != Some(PrintedAttrs(src, caption, w, h, srcWidth, srcHeight))
  {
    PrintedShortcodeRenders(src, caption, w, h, srcWidth, srcHeight);
    QuoteBreaksRoundTrip(PrintedAttrs(src, caption, w, h, srcWidth, srcHeight), 1);
  }
}
