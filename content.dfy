/** The browser extension's content script (browser-extension/src/content.js):
    turning an image descriptor and the extension's settings into a
    `{{<photo ...>}}` shortcode, and dispatching a context-menu message to
    the right copy action. The page scan, the settings read and the
    clipboard write are the script's collaborators and enter as inputs. */
module Content {
  import opened Wrappers
  import opened Text
  import opened Numbers
  import Shortcode

  /** An image found on the page: its plain URL, its aria-label (absent when
      the element has none) and its natural size. The script also carries
      width / height as `aspectRatio`; the model uses the two integers. */
  datatype ImageDescriptor = ImageDescriptor(src: string, ariaLabel: Option<string>, width: int, height: int)

  predicate HasSize(image: ImageDescriptor) {
    image.width > 0 && image.height > 0
  }

  /** The extension's settings as read from storage. */
  datatype Options = Options(useThumb: bool, thumbHDPI: bool, thumbWidth: int, rowHeight: int, useCaption: bool)

  /** The defaults that getOptions merges the stored values over. */
  const DefaultOptions: Options := Options(true, true, 1200, 240, true)

  /** The part of an image URL before its first `=` (where the size suffix
      starts); a URL without `=` gives the empty string, as substring(0, -1)
      does. */
  function GetPlainUrl(url: string): (r: string)
    ensures '=' !in r
    ensures '=' in url ==> |r| < |url| && url[..|r|] == r && url[|r|] == '='
    ensures '=' !in url ==> r == ""
  {
    var i := IndexOf(url, '=');
    if i < 0 then "" else url[..i]
  }

  /** Stripping a size suffix gives back the plain URL it was appended to. */
  lemma PlainUrlOfSuffixed(plain: string, suffix: string)
    requires '=' !in plain
    ensures GetPlainUrl(plain + "=" + suffix) == plain
  {
    var url := plain + "=" + suffix;
    assert url[..|plain|] == plain;
    IndexOfIs(url, '=', |plain|);
  }

  /** Removes one leading dash, when there is one. */
  function TrimLeadingDash(s: string): (r: string)
    ensures |s| > 0 && s[0] == '-' ==> "-" + r == s
    ensures !(|s| > 0 && s[0] == '-') ==> r == s
  {
    if IndexOf(s, '-') == 0 then s[1..] else s
  }

  function GetSizePostfix(width: string, height: string): string {
    "-w" + width + "-h" + height
  }

  function GetScalePostfix(): string {
    "-s"
  }

  function GetNoOptimizePostfix(): string {
    "-no"
  }

  /** How JavaScript prints t / 2 for a natural t: an integer, or an integer
      followed by `.5`. */
  function HalfToString(t: nat): string {
    if t % 2 == 0 then NatToString(t / 2) else NatToString(t / 2) + ".5"
  }

  /** Reading a printed half back: the digits before any `.5` are t / 2, and
      the `.5` is there exactly when t is odd. */
  lemma HalfToStringReadsBack(t: nat)
    ensures var s := HalfToString(t); var d := NatToString(t / 2);
      && |d| <= |s| && s[..|d|] == d && DigitsValue(d) == t / 2
      && (t % 2 == 0 <==> s == d)
  {
    DigitsValueOfNatToString(t / 2);
  }

  /** The source postfix: always the original size and the `no` flag. */
  function SourcePostfix(width: nat, height: nat): (r: string)
    ensures r == "w" + NatToString(width) + "-h" + NatToString(height) + "-no"
  {
    var p := GetSizePostfix(NatToString(width), NatToString(height)) + GetNoOptimizePostfix();
    assert p == "-" + ("w" + NatToString(width) + "-h" + NatToString(height) + "-no");
    TrimLeadingDash(p)
  }

  /** Declared (layout) size of a thumbnail. */
  datatype Size = Size(width: nat, height: nat)

  /** The thumbnail's declared size: in a gallery row with a positive row
      height, the row height and the width that keeps the aspect ratio;
      otherwise, with a positive thumbnail width, that width and the height
      that keeps the aspect ratio; otherwise nothing (0 x 0). Rounding is
      Math.round's: to the nearest integer, halves up. */
  function TargetSize(image: ImageDescriptor, options: Options, isGalleryRow: bool): (t: Size)
    requires HasSize(image)
    ensures isGalleryRow && options.rowHeight > 0 ==>
      t.height == options.rowHeight && IsNearest(t.width, options.rowHeight * image.width, image.height)
    ensures !(isGalleryRow && options.rowHeight > 0) && options.thumbWidth > 0 ==>
      t.width == options.thumbWidth && IsNearest(t.height, options.thumbWidth * image.height, image.width)
    ensures !(isGalleryRow && options.rowHeight > 0) && options.thumbWidth <= 0 ==> t == Size(0, 0)
  {
    if isGalleryRow && options.rowHeight > 0 then
      Size(Round(options.rowHeight * image.width, image.height), options.rowHeight)
    else if options.thumbWidth > 0 then
      Size(options.thumbWidth, Round(options.thumbWidth * image.height, image.width))
    else
      Size(0, 0)
  }

  /** Twice the scale applied to the declared size: 1 for a single image and
      1.5 for a gallery row, doubled for high-density displays. */
  function ScaleTimesTwo(isGalleryRow: bool, thumbHDPI: bool): nat {
    (if isGalleryRow then 3 else 2) * (if thumbHDPI then 2 else 1)
  }

  /** A requested pixel size, stored doubled because the gallery scale 1.5
      can make it a half integer. */
  datatype HalfSize = HalfSize(width2: nat, height2: nat)

  /** The pixel size requested from the image server: the scaled declared
      size, unless its width exceeds the original width, in which case the
      original size (only the width is compared). */
  function RequestedSize(image: ImageDescriptor, options: Options, isGalleryRow: bool): (r: HalfSize)
    requires HasSize(image)
    ensures r.width2 <= 2 * image.width
    ensures var t, k := TargetSize(image, options, isGalleryRow), ScaleTimesTwo(isGalleryRow, options.thumbHDPI);
      if k * t.width > 2 * image.width
      then r == HalfSize(2 * image.width, 2 * image.height)
      else r.width2 == k * t.width && r.height2 == k * t.height
  {
    var t := TargetSize(image, options, isGalleryRow);
    var k := ScaleTimesTwo(isGalleryRow, options.thumbHDPI);
    if k * t.width > 2 * image.width then HalfSize(2 * image.width, 2 * image.height)
    else HalfSize(k * t.width, k * t.height)
  }

  /** Turning on high-density thumbnails doubles the requested size, up to
      the clamp to the original size. */
  lemma HdpiDoublesRequest(image: ImageDescriptor, options: Options, isGalleryRow: bool)
    requires HasSize(image)
    ensures var low := RequestedSize(image, options.(thumbHDPI := false), isGalleryRow);
      var high := RequestedSize(image, options.(thumbHDPI := true), isGalleryRow);
      var t := TargetSize(image, options, isGalleryRow);
      var k := ScaleTimesTwo(isGalleryRow, false);
      2 * k * t.width <= 2 * image.width ==> high == HalfSize(2 * low.width2, 2 * low.height2)
  {
    var t := TargetSize(image, options, isGalleryRow);
    assert TargetSize(image, options.(thumbHDPI := false), isGalleryRow) == t;
    assert TargetSize(image, options.(thumbHDPI := true), isGalleryRow) == t;
  }

  /** The thumbnail postfix: the requested size and the `s` flag. */
  function ThumbPostfix(r: HalfSize): (p: string)
    ensures p == "w" + HalfToString(r.width2) + "-h" + HalfToString(r.height2) + "-s"
  {
    var q := GetSizePostfix(HalfToString(r.width2), HalfToString(r.height2)) + GetScalePostfix();
    assert q == "-" + ("w" + HalfToString(r.width2) + "-h" + HalfToString(r.height2) + "-s");
    TrimLeadingDash(q)
  }

  /** A label is used when it is present and not empty (JavaScript truthiness). */
  predicate IsTruthy(ariaLabel: Option<string>) {
    ariaLabel.Some? && ariaLabel.value != ""
  }

  /** The template literal that assembles the shortcode. */
  function Template(caption: string, src: string, srcPostfix: string, thumb: string, width: string, height: string,
                    originalWidth: string, originalHeight: string): string
  {
    "{{<photo" + caption + " src=\"" + src + "=" + srcPostfix + "\"" + thumb + width + height
      + " src-width=\"" + originalWidth + "\" src-height=\"" + originalHeight + "\" >}}"
  }

  function GeneratePhotoShortcode(image: ImageDescriptor, options: Options, isGalleryRow: bool): (r: string)
    requires HasSize(image)
    ensures r == Shortcode.Render(IntendedAttributes(image, options, isGalleryRow))
  {
    var src := image.src;
    var t := TargetSize(image, options, isGalleryRow);
    var thumb := if options.useThumb then " thumb=\"" + src + "=" + ThumbPostfix(RequestedSize(image, options, isGalleryRow)) + "\"" else "";
    var width := if options.useThumb then " width=\"" + NatToString(t.width) + "\"" else "";
    var height := if options.useThumb then " height=\"" + NatToString(t.height) + "\"" else "";
    var caption := if options.useCaption && IsTruthy(image.ariaLabel) then " caption=\"" + image.ariaLabel.value + "\"" else "";
    var srcPostfix := SourcePostfix(image.width, image.height);
    PiecesRender(options.useCaption && IsTruthy(image.ariaLabel), if image.ariaLabel.Some? then image.ariaLabel.value else "",
      options.useThumb, src, srcPostfix, ThumbPostfix(RequestedSize(image, options, isGalleryRow)),
      NatToString(t.width), NatToString(t.height), NatToString(image.width), NatToString(image.height));
    IntendedIsOf(image, options, isGalleryRow);
    Template(caption, src, srcPostfix, thumb, width, height, NatToString(image.width), NatToString(image.height))
  }

  /** The attributes a shortcode is meant to carry, in order: the caption
      when captions are on and the ariaLabel is truthy; the full-size source;
      the thumbnail, its declared width and height when thumbnails are on;
      and always the original width and height. */
  function IntendedAttributes(image: ImageDescriptor, options: Options, isGalleryRow: bool): seq<Shortcode.Attr>
    requires HasSize(image)
  {
    var t := TargetSize(image, options, isGalleryRow);
    (if options.useCaption && IsTruthy(image.ariaLabel) then [Shortcode.Attr("caption", image.ariaLabel.value)] else [])
    + [Shortcode.Attr("src", image.src + "=" + SourcePostfix(image.width, image.height))]
    + (if options.useThumb then
         [Shortcode.Attr("thumb", image.src + "=" + ThumbPostfix(RequestedSize(image, options, isGalleryRow))),
          Shortcode.Attr("width", NatToString(t.width)),
          Shortcode.Attr("height", NatToString(t.height))]
       else [])
    + [Shortcode.Attr("src-width", NatToString(image.width)), Shortcode.Attr("src-height", NatToString(image.height))]
  }

  lemma AttrsTextOfOne(a: Shortcode.Attr)
    ensures Shortcode.AttrsText([a]) == Shortcode.AttrText(a)
  {
    assert [a][1..] == [];
    assert Shortcode.AttrText(a) + "" == Shortcode.AttrText(a);
  }

  lemma AttrsTextOfTwo(a: Shortcode.Attr, b: Shortcode.Attr)
    ensures Shortcode.AttrsText([a, b]) == Shortcode.AttrText(a) + Shortcode.AttrText(b)
  {
    assert [a, b][1..] == [b];
    AttrsTextOfOne(b);
  }

  lemma AttrsTextOfThree(a: Shortcode.Attr, b: Shortcode.Attr, c: Shortcode.Attr)
    ensures Shortcode.AttrsText([a, b, c]) == Shortcode.AttrText(a) + Shortcode.AttrText(b) + Shortcode.AttrText(c)
  {
    assert [a, b, c][1..] == [b, c];
    AttrsTextOfTwo(b, c);
  }

  lemma AttrsTextOfFour(xs: seq<Shortcode.Attr>, ys: seq<Shortcode.Attr>, zs: seq<Shortcode.Attr>, ws: seq<Shortcode.Attr>)
    ensures Shortcode.AttrsText(xs + ys + zs + ws)
      == Shortcode.AttrsText(xs) + Shortcode.AttrsText(ys) + Shortcode.AttrsText(zs) + Shortcode.AttrsText(ws)
  {
    Shortcode.AttrsTextAppend(xs, ys);
    Shortcode.AttrsTextAppend(xs + ys, zs);
    Shortcode.AttrsTextAppend(xs + ys + zs, ws);
  }

  /** The caption piece of the template is the caption attribute, when any. */
  lemma CaptionPiece(useCaption: bool, caption: string)
    ensures (if useCaption then " caption=\"" + caption + "\"" else "")
      == Shortcode.AttrsText(if useCaption then [Shortcode.Attr("caption", caption)] else [])
  {
    if useCaption {
      AttrsTextOfOne(Shortcode.Attr("caption", caption));
    }
  }

  /** The thumb, width and height pieces are the three thumbnail attributes, when any. */
  lemma ThumbPieces(useThumb: bool, src: string, postfix: string, width: string, height: string)
    ensures (if useThumb then " thumb=\"" + src + "=" + postfix + "\"" else "")
      + (if useThumb then " width=\"" + width + "\"" else "")
      + (if useThumb then " height=\"" + height + "\"" else "")
      == Shortcode.AttrsText(if useThumb then
           [Shortcode.Attr("thumb", src + "=" + postfix), Shortcode.Attr("width", width), Shortcode.Attr("height", height)]
         else [])
  {
    if useThumb {
      ThumbAttrsText(src, postfix, width, height);
    } else {
      assert Shortcode.AttrsText([]) == "";
    }
  }

  lemma ThumbAttrsText(src: string, postfix: string, width: string, height: string)
    ensures (" thumb=\"" + src + "=" + postfix + "\"") + (" width=\"" + width + "\"") + (" height=\"" + height + "\"")
      == Shortcode.AttrsText([Shortcode.Attr("thumb", src + "=" + postfix), Shortcode.Attr("width", width), Shortcode.Attr("height", height)])
  {
    var a, b, c := Shortcode.Attr("thumb", src + "=" + postfix), Shortcode.Attr("width", width), Shortcode.Attr("height", height);
    AttrsTextOfThree(a, b, c);
    assert Shortcode.AttrText(a) == " thumb=\"" + src + "=" + postfix + "\"";
    assert Shortcode.AttrText(b) == " width=\"" + width + "\"";
    assert Shortcode.AttrText(c) == " height=\"" + height + "\"";
  }

  /** The template is the opening, the caption, the source attribute, the
      thumbnail attributes, the two original-size attributes and the closing. */
  lemma TemplateIsRender(c: string, src: string, sp: string, th: string, ow: string, oh: string)
    ensures Template(c, src, sp, th, "", "", ow, oh)
      == "{{<photo" + (c + Shortcode.AttrsText([Shortcode.Attr("src", src + "=" + sp)]) + th
           + Shortcode.AttrsText([Shortcode.Attr("src-width", ow), Shortcode.Attr("src-height", oh)])) + " >}}"
  {
    var srcA := Shortcode.Attr("src", src + "=" + sp);
    var owA, ohA := Shortcode.Attr("src-width", ow), Shortcode.Attr("src-height", oh);
    AttrsTextOfOne(srcA);
    AttrsTextOfTwo(owA, ohA);
    TemplateLayout(c, src, sp, th, ow, oh, Shortcode.AttrText(srcA), Shortcode.AttrText(owA), Shortcode.AttrText(ohA));
  }

  lemma TemplateLayout(c: string, src: string, sp: string, th: string, ow: string, oh: string,
                       srcT: string, owT: string, ohT: string)
    requires srcT == " src=\"" + (src + "=" + sp) + "\""
    requires owT == " src-width=\"" + ow + "\""
    requires ohT == " src-height=\"" + oh + "\""
    ensures Template(c, src, sp, th, "", "", ow, oh) == "{{<photo" + (c + srcT + th + (owT + ohT)) + " >}}"
  {
    TemplateLiterals();
    TemplateRegroup("{{<photo", c, " src=\"", src, "=", sp, "\"", th, "", "", " src-width=\"", ow,
      "\" src-height=\"", " src-height=\"", oh, "\" >}}", " >}}");
  }

  lemma TemplateLiterals()
    ensures "\" src-height=\"" == "\"" + " src-height=\""
    ensures "\" >}}" == "\"" + " >}}"
  {
  }

  lemma TemplateRegroup(o: string, c: string, p0: string, src: string, e: string, sp: string, q: string,
                        th: string, w: string, h: string, p1: string, v1: string,
                        l2: string, p2: string, v2: string, l3: string, close: string)
    requires w == "" && h == "" && l2 == q + p2 && l3 == q + close
    ensures o + c + p0 + src + e + sp + q + th + w + h + p1 + v1 + l2 + v2 + l3
      == o + (c + (p0 + (src + e + sp) + q) + th + ((p1 + v1 + q) + (p2 + v2 + q))) + close
  {
  }

  lemma RenderLayout(attrs: seq<Shortcode.Attr>)
    ensures Shortcode.Render(attrs) == "{{<photo" + Shortcode.AttrsText(attrs) + " >}}"
  {
  }

  lemma TemplateConcat(c: string, src: string, sp: string, th: string, w: string, h: string, ow: string, oh: string)
    ensures Template(c, src, sp, th, w, h, ow, oh) == Template(c, src, sp, th + w + h, "", "", ow, oh)
  {
  }

  lemma IntendedIsOf(image: ImageDescriptor, options: Options, isGalleryRow: bool)
    requires HasSize(image)
    ensures var t := TargetSize(image, options, isGalleryRow);
      IntendedAttributes(image, options, isGalleryRow) == IntendedOf(options.useCaption && IsTruthy(image.ariaLabel),
        if image.ariaLabel.Some? then image.ariaLabel.value else "", options.useThumb, image.src,
        SourcePostfix(image.width, image.height), ThumbPostfix(RequestedSize(image, options, isGalleryRow)),
        NatToString(t.width), NatToString(t.height), NatToString(image.width), NatToString(image.height))
  {
  }

  /** The intended attributes, from their already printed values. */
  function IntendedOf(useCap: bool, labelText: string, useThumb: bool, src: string, sp: string, tp: string,
                      tw: string, th: string, ow: string, oh: string): seq<Shortcode.Attr>
  {
    (if useCap then [Shortcode.Attr("caption", labelText)] else [])
    + [Shortcode.Attr("src", src + "=" + sp)]
    + (if useThumb then [Shortcode.Attr("thumb", src + "=" + tp), Shortcode.Attr("width", tw), Shortcode.Attr("height", th)] else [])
    + [Shortcode.Attr("src-width", ow), Shortcode.Attr("src-height", oh)]
  }

  /** The template, from its already printed pieces. */
  function TemplateOf(useCap: bool, labelText: string, useThumb: bool, src: string, sp: string, tp: string,
                      tw: string, th: string, ow: string, oh: string): string
  {
    Template(if useCap then " caption=\"" + labelText + "\"" else "", src, sp,
      if useThumb then " thumb=\"" + src + "=" + tp + "\"" else "",
      if useThumb then " width=\"" + tw + "\"" else "",
      if useThumb then " height=\"" + th + "\"" else "", ow, oh)
  }

  /** The template of the printed pieces renders the attributes of the same pieces. */
  lemma PiecesRender(useCap: bool, labelText: string, useThumb: bool, src: string, sp: string, tp: string,
                     tw: string, th: string, ow: string, oh: string)
    ensures TemplateOf(useCap, labelText, useThumb, src, sp, tp, tw, th, ow, oh)
      == Shortcode.Render(IntendedOf(useCap, labelText, useThumb, src, sp, tp, tw, th, ow, oh))
  {
    var cap := if useCap then [Shortcode.Attr("caption", labelText)] else [];
    var srcA := [Shortcode.Attr("src", src + "=" + sp)];
    var thA := if useThumb then [Shortcode.Attr("thumb", src + "=" + tp), Shortcode.Attr("width", tw), Shortcode.Attr("height", th)] else [];
    var orig := [Shortcode.Attr("src-width", ow), Shortcode.Attr("src-height", oh)];
    var capT := if useCap then " caption=\"" + labelText + "\"" else "";
    var thumbT := if useThumb then " thumb=\"" + src + "=" + tp + "\"" else "";
    var wT := if useThumb then " width=\"" + tw + "\"" else "";
    var hT := if useThumb then " height=\"" + th + "\"" else "";
    TemplateConcat(capT, src, sp, thumbT, wT, hT, ow, oh);
    CaptionPiece(useCap, labelText);
    ThumbPieces(useThumb, src, tp, tw, th);
    TemplateIsRender(capT, src, sp, thumbT + wT + hT, ow, oh);
    AttrsTextOfFour(cap, srcA, thA, orig);
    RenderLayout(cap + srcA + thA + orig);
  }

  /** Every shortcode parses back to its intended attributes, provided the
      URL and the ariaLabel hold no double quote. So the attribute order is
      caption?, src, (thumb, width, height)?, src-width, src-height; the
      declared width and height are the unscaled target size; and the source
      always carries the original size. */
  lemma ShortcodeAttributes(image: ImageDescriptor, options: Options, isGalleryRow: bool)
    requires HasSize(image)
    requires '"' !in image.src
    requires image.ariaLabel.Some? ==> '"' !in image.ariaLabel.value
    ensures Shortcode.Parse(GeneratePhotoShortcode(image, options, isGalleryRow)) == Some(IntendedAttributes(image, options, isGalleryRow))
  {
    IntendedWellFormed(image, options, isGalleryRow);
    Shortcode.ParseRender(IntendedAttributes(image, options, isGalleryRow));
  }

  lemma DigitsQuoteFree(s: string)
    requires AllDigits(s)
    ensures '"' !in s
  {
  }

  lemma HalfQuoteFree(t: nat)
    ensures '"' !in HalfToString(t)
  {
    DigitsQuoteFree(NatToString(t / 2));
  }

  lemma SourcePostfixQuoteFree(width: nat, height: nat)
    ensures '"' !in SourcePostfix(width, height)
  {
    var w, h := NatToString(width), NatToString(height);
    DigitsQuoteFree(w);
    DigitsQuoteFree(h);
    QuoteFreePostfix("w", w, "-h", h, "-no");
  }

  lemma ThumbPostfixQuoteFree(r: HalfSize)
    ensures '"' !in ThumbPostfix(r)
  {
    HalfQuoteFree(r.width2);
    HalfQuoteFree(r.height2);
    QuoteFreePostfix("w", HalfToString(r.width2), "-h", HalfToString(r.height2), "-s");
  }

  lemma QuoteFreePostfix(a: string, b: string, c: string, d: string, e: string)
    requires '"' !in a && '"' !in b && '"' !in c && '"' !in d && '"' !in e
    ensures '"' !in a + b + c + d + e
  {
  }

  lemma AttributeNamesWellFormed()
    ensures forall name :: name in ["caption", "src", "thumb", "width", "height", "src-width", "src-height"] ==>
                             name != "" && '=' !in name
  {
  }

  lemma IntendedWellFormed(image: ImageDescriptor, options: Options, isGalleryRow: bool)
    requires HasSize(image)
    requires '"' !in image.src
    requires image.ariaLabel.Some? ==> '"' !in image.ariaLabel.value
    ensures Shortcode.AllWellFormed(IntendedAttributes(image, options, isGalleryRow))
  {
    var t := TargetSize(image, options, isGalleryRow);
    var r := RequestedSize(image, options, isGalleryRow);
    var sp, tp := SourcePostfix(image.width, image.height), ThumbPostfix(r);
    DigitsQuoteFree(NatToString(image.width));
    DigitsQuoteFree(NatToString(image.height));
    DigitsQuoteFree(NatToString(t.width));
    DigitsQuoteFree(NatToString(t.height));
    SourcePostfixQuoteFree(image.width, image.height);
    ThumbPostfixQuoteFree(r);
    assert '"' !in image.src + "=" + sp;
    assert '"' !in image.src + "=" + tp;
    AttributeNamesWellFormed();
    var attrs := IntendedAttributes(image, options, isGalleryRow);
    forall k | 0 <= k < |attrs|
      ensures Shortcode.WellFormed(attrs[k])
    {
    }
  }

  /** The worked example of a single image: a 4000 x 3000 photo labelled
      "Sunset" with a 1200-pixel thumbnail width, no high-density doubling
      and captions on yields a 1200 x 900 thumbnail, unclamped. */
  lemma SingleImageExample()
    ensures var image := ImageDescriptor("https://x/img", Some("Sunset"), 4000, 3000);
      var options := DefaultOptions.(thumbHDPI := false);
      IntendedAttributes(image, options, false) == [
        Shortcode.Attr("caption", "Sunset"),
        Shortcode.Attr("src", image.src + "=" + "w4000-h3000-no"),
        Shortcode.Attr("thumb", image.src + "=" + "w1200-h900-s"),
        Shortcode.Attr("width", "1200"),
        Shortcode.Attr("height", "900"),
        Shortcode.Attr("src-width", "4000"),
        Shortcode.Attr("src-height", "3000")]
  {
    var image := ImageDescriptor("https://x/img", Some("Sunset"), 4000, 3000);
    var options := DefaultOptions.(thumbHDPI := false);
    SingleImageSizes();
    SingleImageNumbers();
    SingleImagePostfixes();
    AllAttributes(image, options, false);
  }

  /** With a caption and thumbnails on, all seven attributes are present. */
  lemma AllAttributes(image: ImageDescriptor, options: Options, isGalleryRow: bool)
    requires HasSize(image) && options.useCaption && IsTruthy(image.ariaLabel) && options.useThumb
    ensures var t := TargetSize(image, options, isGalleryRow);
      IntendedAttributes(image, options, isGalleryRow) == [
        Shortcode.Attr("caption", image.ariaLabel.value),
        Shortcode.Attr("src", image.src + "=" + SourcePostfix(image.width, image.height)),
        Shortcode.Attr("thumb", image.src + "=" + ThumbPostfix(RequestedSize(image, options, isGalleryRow))),
        Shortcode.Attr("width", NatToString(t.width)),
        Shortcode.Attr("height", NatToString(t.height)),
        Shortcode.Attr("src-width", NatToString(image.width)),
        Shortcode.Attr("src-height", NatToString(image.height))]
  {
    var t := TargetSize(image, options, isGalleryRow);
    var a := Shortcode.Attr("caption", image.ariaLabel.value);
    var b := Shortcode.Attr("src", image.src + "=" + SourcePostfix(image.width, image.height));
    var c := Shortcode.Attr("thumb", image.src + "=" + ThumbPostfix(RequestedSize(image, options, isGalleryRow)));
    var d := Shortcode.Attr("width", NatToString(t.width));
    var e := Shortcode.Attr("height", NatToString(t.height));
    var f := Shortcode.Attr("src-width", NatToString(image.width));
    var g := Shortcode.Attr("src-height", NatToString(image.height));
    assert IntendedAttributes(image, options, isGalleryRow) == [a] + [b] + [c, d, e] + [f, g];
    SevenInARow(a, b, c, d, e, f, g);
  }

  lemma SevenInARow<T>(a: T, b: T, c: T, d: T, e: T, f: T, g: T)
    ensures [a] + [b] + [c, d, e] + [f, g] == [a, b, c, d, e, f, g]
  {
  }

  lemma SingleImageSizes()
    ensures var image := ImageDescriptor("https://x/img", Some("Sunset"), 4000, 3000);
      var options := DefaultOptions.(thumbHDPI := false);
      TargetSize(image, options, false) == Size(1200, 900) && RequestedSize(image, options, false) == HalfSize(2400, 1800)
  {
    var image := ImageDescriptor("https://x/img", Some("Sunset"), 4000, 3000);
    var options := DefaultOptions.(thumbHDPI := false);
    assert Round(1200 * 3000, 4000) == 900;
  }

  lemma SingleImageNumbers()
    ensures NatToString(1200) == "1200" && NatToString(900) == "900"
    ensures NatToString(4000) == "4000" && NatToString(3000) == "3000"
  {
    ThousandsText(12, "12", "1200");
    HundredsText(9, "9", "900");
    ThousandsText(40, "40", "4000");
    ThousandsText(30, "30", "3000");
  }

  /** Printing n hundreds appends two zeros to the digits of n. */
  lemma HundredsText(n: nat, d: string, r: string)
    requires 0 < n < 10 && d == [DigitChar(n)] && r == d + "00"
    ensures NatToString(100 * n) == r
  {
    assert NatToString(10 * n) == d + "0";
  }

  lemma ThousandsText(n: nat, d: string, r: string)
    requires 10 <= n < 100 && d == [DigitChar(n / 10), DigitChar(n % 10)] && r == d + "00"
    ensures NatToString(100 * n) == r
  {
    assert NatToString(n) == d;
    assert NatToString(10 * n) == d + "0";
  }

  lemma SingleImagePostfixes()
    ensures SourcePostfix(4000, 3000) == "w4000-h3000-no"
    ensures ThumbPostfix(HalfSize(2400, 1800)) == "w1200-h900-s"
  {
    SingleImageSourcePostfix();
    SingleImageThumbPostfix();
  }

  lemma SingleImageSourcePostfix()
    ensures SourcePostfix(4000, 3000) == "w4000-h3000-no"
  {
    SingleImageNumbers();
    assert SourcePostfix(4000, 3000) == "w" + "4000" + "-h" + "3000" + "-no";
    SingleImageSourceText();
  }

  lemma SingleImageSourceText()
    ensures "w" + "4000" + "-h" + "3000" + "-no" == "w4000-h3000-no"
  {
  }

  lemma SingleImageThumbPostfix()
    ensures ThumbPostfix(HalfSize(2400, 1800)) == "w1200-h900-s"
  {
    SingleImageNumbers();
    assert HalfToString(2400) == NatToString(1200);
    assert HalfToString(1800) == NatToString(900);
    assert ThumbPostfix(HalfSize(2400, 1800)) == "w" + "1200" + "-h" + "900" + "-s";
    SingleImageThumbText();
  }

  lemma SingleImageThumbText()
    ensures "w" + "1200" + "-h" + "900" + "-s" == "w1200-h900-s"
  {
  }

  /** A gallery row 241 pixels high over a square 1000 x 1000 photo, without
      high-density doubling, requests 1.5 x 241 = 361.5 pixels each way and
      prints the half. */
  lemma GalleryRowHalfPixelExample()
    ensures var image := ImageDescriptor("https://x/img", None, 1000, 1000);
      var options := Options(true, false, 1200, 241, true);
      && TargetSize(image, options, true) == Size(241, 241)
      && ThumbPostfix(RequestedSize(image, options, true)) == "w361.5-h361.5-s"
  {
    var image := ImageDescriptor("https://x/img", None, 1000, 1000);
    var options := Options(true, false, 1200, 241, true);
    assert Round(241 * 1000, 1000) == 241;
    assert TargetSize(image, options, true) == Size(241, 241);
    assert RequestedSize(image, options, true) == HalfSize(723, 723);
    HalfPixelText();
  }

  lemma HalfPixelText()
    ensures HalfToString(723) == "361.5"
  {
    assert NatToString(36) == "36";
    assert NatToString(361) == "361";
  }

  /** The context-menu information a message carries. */
  datatype MenuInfo = MenuInfo(menuItemId: string, srcUrl: string)

  /** What the content script does on a message. */
  datatype Command = CopyAll | CopyImage(srcUrl: string, isGalleryRow: bool) | Ignore

  /** The message listener's dispatch on the menu item id. */
  function Dispatch(menuInfo: Option<MenuInfo>): (c: Command)
    ensures c == CopyAll <==> menuInfo.Some? && menuInfo.value.menuItemId == "all-images"
    ensures c.CopyImage? <==>
      menuInfo.Some? && (menuInfo.value.menuItemId == "single-image" || menuInfo.value.menuItemId == "single-image-gal")
    ensures c.CopyImage? ==> c.srcUrl == menuInfo.value.srcUrl && (c.isGalleryRow <==> menuInfo.value.menuItemId == "single-image-gal")
  {
    match menuInfo
    case None => Ignore
    case Some(info) =>
      if info.menuItemId == "all-images" then CopyAll
      else if info.menuItemId == "single-image" then CopyImage(info.srcUrl, false)
      else if info.menuItemId == "single-image-gal" then CopyImage(info.srcUrl, true)
      else Ignore
  }

  datatype Warning = NoImagesFound | ImageNotFound

  /** The outcome of a command: text handed to the clipboard, a warning
      toast, or nothing. */
  datatype Effect = CopyText(text: string) | Warn(warning: Warning) | Nothing

  /** Runs a command against the page. `pageImages` stands for what
      findAllGooglePhotoImages finds; `lookup` for findImageBySrc, which is
      given the clicked URL and answers with a descriptor or nothing. */
  function Perform(command: Command, options: Options, pageImages: seq<ImageDescriptor>,
                   lookup: string -> Option<ImageDescriptor>): (e: Effect)
    requires forall k :: 0 <= k < |pageImages| ==> HasSize(pageImages[k])
    requires forall url :: lookup(url).Some? ==> HasSize(lookup(url).value)
    ensures command == Ignore <==> e == Nothing
    ensures command == CopyAll && pageImages == [] ==> e == Warn(NoImagesFound)
    ensures command == CopyAll && |pageImages| == 1 ==> e == CopyText(GeneratePhotoShortcode(pageImages[0], options, false))
    ensures command.CopyImage? ==>
      e == (match lookup(command.srcUrl)
            case None => Warn(ImageNotFound)
            case Some(image) => CopyText(GeneratePhotoShortcode(image, options, command.isGalleryRow)))
  {
    match command
    case Ignore => Nothing
    case CopyAll =>
      if |pageImages| == 0 then Warn(NoImagesFound)
      else
        var shortcodes := seq(|pageImages|, k requires 0 <= k < |pageImages| => GeneratePhotoShortcode(pageImages[k], options, false));
        CopyText(Join(shortcodes, "\n\n"))
    case CopyImage(url, isGalleryRow) =>
      match lookup(url)
      case None => Warn(ImageNotFound)
      case Some(image) => CopyText(GeneratePhotoShortcode(image, options, isGalleryRow))
  }

  /** Copying all images separates one more shortcode from the ones before
      it by a blank line, always in single-image (non-gallery) mode. */
  lemma CopyAllAppends(options: Options, pageImages: seq<ImageDescriptor>, image: ImageDescriptor,
                       lookup: string -> Option<ImageDescriptor>)
    requires forall k :: 0 <= k < |pageImages| ==> HasSize(pageImages[k])
    requires HasSize(image) && pageImages != []
    requires forall url :: lookup(url).Some? ==> HasSize(lookup(url).value)
    ensures Perform(CopyAll, options, pageImages + [image], lookup)
      == CopyText(Perform(CopyAll, options, pageImages, lookup).text + "\n\n" + GeneratePhotoShortcode(image, options, false))
  {
    var all := pageImages + [image];
    var shortcodes := seq(|all|, k requires 0 <= k < |all| => GeneratePhotoShortcode(all[k], options, false));
    var before := seq(|pageImages|, k requires 0 <= k < |pageImages| => GeneratePhotoShortcode(pageImages[k], options, false));
    assert shortcodes[..|shortcodes| - 1] == before;
  }
}
