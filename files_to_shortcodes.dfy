/** files-to-shortcodes.py: a photo record printed as a shortcode, and the
    file-name filter applied to a directory listing. */
module DirectoryShortcodes {
  import opened Wrappers
  import opened Text
  import opened Shortcode

  /** The record built by Photo.__init__, which stores its six arguments
      as they are and is never changed afterwards. */
  datatype Photo = Photo(src: string, caption: string, width: int, height: int, thumbWidth: int, thumbHeight: int)

  /** Photo.to_shortcode: the declared size is the thumbnail's, the source
      size the original's; src and caption go in verbatim. */
  function ToShortcode(p: Photo): (r: string)
    ensures r == Render(PrintedAttrs(p.src, p.caption, p.thumbWidth, p.thumbHeight, p.width, p.height))
    ensures '"' !in p.src && '"' !in p.caption ==>
      Parse(r) == Some([Attr("src", p.src), Attr("caption", p.caption),
                        Attr("width", IntToString(p.thumbWidth)), Attr("height", IntToString(p.thumbHeight)),
                        Attr("src-width", IntToString(p.width)), Attr("src-height", IntToString(p.height))])
  {
    PrintedShortcodeRenders(p.src, p.caption, p.thumbWidth, p.thumbHeight, p.width, p.height);
    var text := PrintedShortcode(p.src, p.caption, p.thumbWidth, p.thumbHeight, p.width, p.height);
    assert '"' !in p.src && '"' !in p.caption ==>
      Parse(text) == Some(PrintedAttrs(p.src, p.caption, p.thumbWidth, p.thumbHeight, p.width, p.height)) by {
      if '"' !in p.src && '"' !in p.caption {
        PrintedShortcodeParses(p.src, p.caption, p.thumbWidth, p.thumbHeight, p.width, p.height);
      }
    }
    PrintedShortcode(p.src, p.caption, p.thumbWidth, p.thumbHeight, p.width, p.height)
  }

  /** `$` without MULTILINE: the end of the text, or just before a final newline. */
  predicate AtEnd(rest: string) {
    rest == "" || rest == "\n"
  }

  /** `\.alt$` matched at the start of f, letters compared case-insensitively. */
  predicate MatchesExtension(f: string, alt: string) {
    1 + |alt| <= |f| && f[0] == '.' && Lower(f[1..1 + |alt|]) == alt && AtEnd(f[1 + |alt|..])
  }

  /** re.match(r'\.(jpg|jpeg|png)$', f, flags=re.IGNORECASE) is not None:
      re.match anchors at the start of f, so the dot must be its first
      character. */
  predicate NameMatches(f: string) {
    MatchesExtension(f, "jpg") || MatchesExtension(f, "jpeg") || MatchesExtension(f, "png")
  }

  /** Lower-casing commutes with slicing. */
  lemma LowerSlice(s: string, i: nat, j: nat)
    requires i <= j <= |s|
    ensures Lower(s[i..j]) == Lower(s)[i..j]
  {
  }

  /** One alternative, stated on the lower-cased name: exactly `.alt`, or
      `.alt` and a newline. */
  lemma MatchesExtensionLower(f: string, alt: string)
    requires Lower(alt) == alt && |alt| > 0
    ensures MatchesExtension(f, alt) <==> Lower(f) == "." + alt || Lower(f) == "." + alt + "\n"
  {
    var n := |alt|;
    var lf := Lower(f);
    if MatchesExtension(f, alt) {
      LowerSlice(f, 1, 1 + n);
      assert lf[0] == '.';
      if f[1 + n..] == "" {
        assert lf == [lf[0]] + lf[1..1 + n];
      } else {
        assert f[1 + n] == '\n';
        assert lf == [lf[0]] + lf[1..1 + n] + [lf[1 + n]];
      }
    }
    if lf == "." + alt || lf == "." + alt + "\n" {
      assert LowerChar(f[0]) == '.';
      LowerSlice(f, 1, 1 + n);
      assert lf[1..1 + n] == alt;
      if |f| > 1 + n {
        assert LowerChar(f[1 + n]) == '\n';
        assert f[1 + n..] == [f[1 + n]];
      }
    }
  }

  /** The filter keeps exactly the names that are, ignoring case, `.jpg`,
      `.jpeg` or `.png`, each optionally followed by one newline. */
  lemma NameMatchesExactly(f: string)
    ensures NameMatches(f) <==> Lower(f) in {".jpg", ".jpeg", ".png", ".jpg\n", ".jpeg\n", ".png\n"}
  {
    MatchesExtensionLower(f, "jpg");
    MatchesExtensionLower(f, "jpeg");
    MatchesExtensionLower(f, "png");
    assert "." + "jpg" == ".jpg" && "." + "jpeg" == ".jpeg" && "." + "png" == ".png";
    assert ".jpg" + "\n" == ".jpg\n" && ".jpeg" + "\n" == ".jpeg\n" && ".png" + "\n" == ".png\n";
  }

  /** An ordinary photo file name is not kept: the pattern is matched at
      the start of the name, where `photo` stands, not at its end. */
  lemma OrdinaryNameDropped()
    ensures !NameMatches("photo.jpg") && !NameMatches("IMG_0001.JPEG") && !NameMatches("a.png")
  {
  }

  /** The names the filter does keep, in any letter case. */
  lemma BareExtensionsKept()
    ensures NameMatches(".jpg") && NameMatches(".JPEG") && NameMatches(".Png\n")
  {
    assert Lower("JPEG") == "jpeg";
    assert Lower("Png") == "png";
    assert ".JPEG"[1..5] == "JPEG" && ".Png\n"[1..4] == "Png" && ".Png\n"[4..] == "\n";
  }

  /** xs is ys with some elements removed, order kept. */
  predicate Subsequence(xs: seq<string>, ys: seq<string>)
    decreases |ys|
  {
    if xs == [] then true
    else if ys == [] then false
    else (xs[0] == ys[0] && Subsequence(xs[1..], ys[1..])) || Subsequence(xs, ys[1..])
  }

  /** The list comprehension of get_jpeg_files over a listing. */
  function KeepMatching(files: seq<string>): (r: seq<string>)
    ensures Subsequence(r, files)
    ensures forall f :: f in r <==> f in files && NameMatches(f)
  {
    if files == [] then []
    else
      var rest := KeepMatching(files[1..]);
      assert forall f :: f in files <==> f == files[0] || f in files[1..];
      if NameMatches(files[0]) then
        assert ([files[0]] + rest)[1..] == rest;
        [files[0]] + rest
      else rest
  }

  /** get_jpeg_files. The existence test and the listing of the directory
      are inputs: a missing directory yields the empty list, an existing
      one the names of its listing that pass the filter, in listing order. */
  function GetJpegFiles(dirExists: bool, listing: seq<string>): (r: seq<string>)
    ensures !dirExists ==> r == []
    ensures dirExists ==> Subsequence(r, listing) && forall f :: f in r <==> f in listing && NameMatches(f)
  {
    if !dirExists then [] else KeepMatching(listing)
  }

  /** A directory of ordinary photo files yields no names at all. */
  lemma OrdinaryDirectoryYieldsNothing()
    ensures GetJpegFiles(true, ["photo.jpg", "IMG_0001.JPEG", "a.png"]) == []
  {
    OrdinaryNameDropped();
  }
}
