/** The last stage of import-icloud-album.py: a Photo built from an album
    image, the file it is downloaded to, and the shortcode printed for it. */
module ICloudPhoto {
  import opened Wrappers
  import opened Text
  import opened Numbers
  import opened Shortcode
  import opened ICloudRecords

  /** The picture in its original size plus its smallest rendition. */
  datatype Photo = Photo(
    checksum: string,
    url: Option<string>,
    width: int,
    height: int,
    thumbUrl: Option<string>,
    thumbWidth: int,
    thumbHeight: int,
    author: string,
    caption: string)

  /** Photo.from_image. The smallest derivative is looked up before the
      original is subscripted, so an image without derivatives fails with
      AttributeError, and an image whose own height matches no derivative
      fails with TypeError (subscripting None). */
  function FromImage(img: Image): (r: Result<Photo>)
    ensures r.Failure? <==> img.derivatives == [] || OriginalOf(img).None?
    ensures img.derivatives == [] ==> r == Failure(AttributeError)
    ensures img.derivatives != [] && OriginalOf(img).None? ==> r == Failure(TypeError)
    ensures r.Success? ==>
      && r.value.height == img.height
      && (exists k :: 0 <= k < |img.derivatives| && img.derivatives[k].1.checksum == r.value.checksum
            && img.derivatives[k].1.height == img.height && img.derivatives[k].1.url == r.value.url)
      && (forall k :: 0 <= k < |img.derivatives| ==> r.value.thumbHeight <= img.derivatives[k].1.height)
      && r.value.author == img.contributorFullName
      && r.value.caption == img.caption
    ensures r.Success? ==>
      var o, t := OriginalOf(img).value, SmallestOf(img).value;
      r.value == Photo(o.checksum, o.url, o.width, o.height, t.url, t.width, t.height, img.contributorFullName, img.caption)
  {
    var source := OriginalOf(img);
    var thumb :- SmallestOf(img);
    if source.None? then Failure(TypeError)
    else
      var i := OriginalIndex(img.derivatives, img.height);
      assert img.derivatives[i].1.checksum == source.value.checksum;
      Success(Photo(
        source.value.checksum, source.value.url, source.value.width, source.value.height,
        thumb.url, thumb.width, thumb.height,
        img.contributorFullName, img.caption))
  }

  /** get_file_name_from_url: the lower-cased last `/` segment of the part
      before the first `?`. */
  function FileNameFromUrl(url: string): (r: string)
    ensures '/' !in r && '?' !in r
  {
    var path := Split(url, '?')[0];
    var segments := Split(path, '/');
    var name := segments[|segments| - 1];
    LastSegmentFree(url);
    LowerKeepsOut(name, '/');
    LowerKeepsOut(name, '?');
    Lower(name)
  }

  /** The last `/` segment of the part before the first `?` holds neither. */
  lemma LastSegmentFree(url: string)
    ensures var segments := Split(Split(url, '?')[0], '/');
      var name := segments[|segments| - 1];
      '/' !in name && '?' !in name
  {
    var path := Split(url, '?')[0];
    var segments := Split(path, '/');
    SplitPieceFree(url, '?', 0);
    SplitKeepsOut(path, '/', '?', |segments| - 1);
    SplitPieceFree(path, '/', |segments| - 1);
  }

  /** The file name of `directory/name?query` is the lower-cased name. */
  lemma FileNameOfUrl(dir: string, name: string, query: string)
    requires '?' !in dir && '?' !in name && '/' !in name
    ensures FileNameFromUrl(dir + "/" + name + "?" + query) == Lower(name)
  {
    UrlPath(dir + "/" + name, query);
    LastSegment(dir, name);
    FileNameOfPath(dir + "/" + name + "?" + query, dir + "/" + name, name);
  }

  /** The part of `path?query` before the first `?` is the path. */
  lemma UrlPath(path: string, query: string)
    requires '?' !in path
    ensures Split(path + "?" + query, '?')[0] == path
  {
    SplitFirst(path + "?" + query, path, query, '?');
  }

  /** The file name is the lower-cased last segment of the path before `?`. */
  lemma FileNameOfPath(url: string, path: string, name: string)
    requires Split(url, '?')[0] == path
    requires var segments := Split(path, '/'); segments[|segments| - 1] == name
    ensures FileNameFromUrl(url) == Lower(name)
  {
  }

  /** A URL without a query string behaves as one with an empty query. */
  lemma FileNameOfPlainUrl(dir: string, name: string)
    requires '?' !in dir && '?' !in name && '/' !in name
    ensures FileNameFromUrl(dir + "/" + name) == Lower(name)
  {
    var path := dir + "/" + name;
    assert '?' !in path;
    SplitFree(path, '?');
    LastSegment(dir, name);
    FileNameOfPath(path, path, name);
  }

  /** Deriving a file name from a file name changes nothing. */
  lemma FileNameIdempotent(url: string)
    ensures FileNameFromUrl(FileNameFromUrl(url)) == FileNameFromUrl(url)
  {
    var r := FileNameFromUrl(url);
    SplitFree(r, '?');
    SplitFree(r, '/');
    var name := Split(Split(url, '?')[0], '/');
    LowerIdempotent(name[|name| - 1]);
  }

  /** Some character of s other than a dot. */
  predicate HasNonDot(s: string) {
    exists k :: 0 <= k < |s| && s[k] != '.'
  }

  /** os.path.splitext on POSIX paths: the extension starts at the last dot
      of the last path segment, unless only dots precede that dot in the
      segment (a hidden file such as `.profile` has no extension). */
  function SplitExt(p: string): (r: (string, string))
    ensures r.0 + r.1 == p
  {
    var sep := LastIndexOf(p, '/');
    var dot := LastIndexOf(p, '.');
    if dot > sep && HasNonDot(p[sep + 1..dot]) then
      assert p[..dot] + p[dot..] == p;
      (p[..dot], p[dot..])
    else (p, [])
  }

  /** The extension is empty, or a dot followed by neither dot nor slash. */
  lemma SplitExtShape(p: string)
    ensures var ext := SplitExt(p).1; ext == [] || (ext[0] == '.' && '.' !in ext[1..] && '/' !in ext)
  {
    var sep := LastIndexOf(p, '/');
    var dot := LastIndexOf(p, '.');
    if dot > sep && HasNonDot(p[sep + 1..dot]) {
      assert '/' !in p[sep + 1..] by {
        if sep == -1 { assert p[sep + 1..] == p; }
      }
      ExtensionShape(p, sep, dot);
    }
  }

  /** The text from the last dot on, when that dot follows the last slash. */
  lemma ExtensionShape(p: string, sep: int, dot: nat)
    requires -1 <= sep < dot < |p| && p[dot] == '.'
    requires '.' !in p[dot + 1..] && '/' !in p[sep + 1..]
    ensures var ext := p[dot..]; ext[0] == '.' && '.' !in ext[1..] && '/' !in ext && p[..dot] + ext == p
  {
    SuffixKeepsOut(p, sep + 1, dot, '/');
    assert p[dot..][1..] == p[dot + 1..];
  }

  /** A base with a non-dot character and a dot-led extension are split apart again. */
  lemma SplitExtOf(base: string, ext: string)
    requires '/' !in base && HasNonDot(base)
    requires |ext| > 0 && ext[0] == '.' && '.' !in ext[1..] && '/' !in ext
    ensures SplitExt(base + ext) == (base, ext)
  {
    var p := base + ext;
    assert '/' !in p;
    assert p[|base| + 1..] == ext[1..];
    LastIndexOfIs(p, '.', |base|);
    assert p[0..|base|] == base;
  }

  /** Text without dots or slashes inserted before the extension leaves the
      extension as it was. */
  lemma SplitExtInsert(name: string, tag: string)
    requires '/' !in name && '.' !in tag && '/' !in tag
    ensures SplitExt(SplitExt(name).0 + tag + SplitExt(name).1) == (SplitExt(name).0 + tag, SplitExt(name).1)
  {
    if SplitExt(name).1 == [] {
      SplitExtInsertPlain(name, tag);
    } else {
      SplitExtInsertExt(name, tag);
    }
  }

  /** A name without an extension still has none after the insertion. */
  lemma SplitExtInsertPlain(name: string, tag: string)
    requires '/' !in name && '.' !in tag && '/' !in tag && SplitExt(name).1 == []
    ensures SplitExt(name + tag) == (name + tag, [])
  {
    var p := name + tag;
    LastIndexOfAppend(name, tag, '.');
    LastIndexOfAppend(name, tag, '/');
    var dot := LastIndexOf(name, '.');
    if dot >= 0 {
      assert p[0..dot] == name[0..dot];
    }
  }

  /** A name with an extension keeps it after the insertion. */
  lemma SplitExtInsertExt(name: string, tag: string)
    requires '/' !in name && '.' !in tag && '/' !in tag && SplitExt(name).1 != []
    ensures SplitExt(SplitExt(name).0 + tag + SplitExt(name).1) == (SplitExt(name).0 + tag, SplitExt(name).1)
  {
    var base, ext := SplitExt(name).0, SplitExt(name).1;
    SplitExtShape(name);
    assert HasNonDot(base + tag) by {
      var dot := LastIndexOf(name, '.');
      assert dot == |base| by {
        LastIndexOfIs(name, '.', |base|);
      }
      var k :| 0 <= k < dot && name[0..dot][k] != '.';
      assert (base + tag)[k] == name[k];
    }
    SplitExtOf(base + tag, ext);
  }

  /** `{base}-{checksum}{ext}`, where base and ext are the name split at
      its extension. The checksum goes between base and extension: for a
      slash-free name and a checksum free of `.` and `/`, splitting the
      tagged name gives the tagged base and the original extension. */
  function TaggedName(name: string, checksum: string): (r: string)
    ensures '/' !in name && '/' !in checksum ==> '/' !in r
    ensures '/' !in name && '.' !in checksum && '/' !in checksum ==>
      SplitExt(r) == (SplitExt(name).0 + "-" + checksum, SplitExt(name).1)
  {
    TagSlashFree(name, checksum);
    TagKeepsExtension(name, checksum);
    SplitExt(name).0 + "-" + checksum + SplitExt(name).1
  }

  lemma TagSlashFree(name: string, checksum: string)
    ensures '/' !in name && '/' !in checksum ==> '/' !in SplitExt(name).0 + "-" + checksum + SplitExt(name).1
  {
    var base, ext := SplitExt(name).0, SplitExt(name).1;
    assert name == base + ext;
  }

  lemma TagKeepsExtension(name: string, checksum: string)
    ensures '/' !in name && '.' !in checksum && '/' !in checksum ==>
      SplitExt(SplitExt(name).0 + "-" + checksum + SplitExt(name).1) == (SplitExt(name).0 + "-" + checksum, SplitExt(name).1)
  {
    if '/' !in name && '.' !in checksum && '/' !in checksum {
      SplitExtInsert(name, "-" + checksum);
      TagRegroup(SplitExt(name).0, checksum, SplitExt(name).1);
    }
  }

  lemma TagRegroup(base: string, checksum: string, ext: string)
    ensures base + "-" + checksum == base + ("-" + checksum)
    ensures base + "-" + checksum + ext == base + ("-" + checksum) + ext
  {
  }

  /** get_download_file_name: `{directory}/{token}/{base}-{checksum}{ext}`;
      a photo without a URL fails with AttributeError (a method called on
      None). */
  function DownloadFileName(photo: Photo, token: string, directory: string): (r: Result<string>)
    ensures r.Failure? <==> photo.url.None?
    ensures r.Failure? ==> r.error == AttributeError
    ensures r.Success? ==>
      |directory| < |r.value| && r.value[..|directory|] == directory && r.value[|directory|] == '/'
    ensures r.Success? ==>
      r.value == directory + "/" + token + "/" + TaggedName(FileNameFromUrl(photo.url.value), photo.checksum)
  {
    if photo.url.None? then Failure(AttributeError)
    else
      var fileName := TaggedName(FileNameFromUrl(photo.url.value), photo.checksum);
      var path := directory + "/" + token + "/" + fileName;
      assert path == directory + "/" + (token + "/" + fileName);
      Success(path)
  }

  /** The downloaded file sits directly in `directory/token`: the last
      segment of its path is the tagged file name, with the URL's extension. */
  lemma DownloadKeepsExtension(photo: Photo, token: string, directory: string)
    requires photo.url.Some? && '.' !in photo.checksum && '/' !in photo.checksum
    ensures var path := DownloadFileName(photo, token, directory).value;
      var segments := Split(path, '/');
      var name := FileNameFromUrl(photo.url.value);
      && segments[|segments| - 1] == TaggedName(name, photo.checksum)
      && SplitExt(segments[|segments| - 1]).1 == SplitExt(name).1
  {
    var name := FileNameFromUrl(photo.url.value);
    var fileName := TaggedName(name, photo.checksum);
    var path := directory + "/" + token + "/" + fileName;
    assert path == DownloadFileName(photo, token, directory).value;
    LastSegment(directory + "/" + token, fileName);
  }

  /** The path's segments are the directory's, the token and the tagged
      file name: the file sits directly in `directory/token`. */
  lemma DownloadPathSegments(photo: Photo, token: string, directory: string)
    requires photo.url.Some? && '/' !in token && '/' !in photo.checksum
    ensures Split(DownloadFileName(photo, token, directory).value, '/')
      == Split(directory, '/') + [token, TaggedName(FileNameFromUrl(photo.url.value), photo.checksum)]
  {
    var fileName := TaggedName(FileNameFromUrl(photo.url.value), photo.checksum);
    var folder := directory + "/" + token;
    SplitConcat(folder, directory, token, '/');
    SplitFree(token, '/');
    SplitConcat(folder + "/" + fileName, folder, fileName, '/');
    SplitFree(fileName, '/');
  }

  /** The last segment of `prefix/name` is the slash-free name. */
  lemma LastSegment(prefix: string, name: string)
    requires '/' !in name
    ensures var segments := Split(prefix + "/" + name, '/'); segments[|segments| - 1] == name
  {
    var path := prefix + "/" + name;
    assert path[|prefix|] == '/' && path[|prefix| + 1..] == name;
    SplitLastSuffix(path, '/', |prefix|);
  }

  /** `path.split('/', maxsplit=1)[1]`: the text after the first slash;
      a path without a slash fails with IndexError. */
  function AfterFirstSlash(path: string): (r: Result<string>)
    ensures r.Failure? <==> '/' !in path
    ensures r.Failure? ==> r.error == IndexError
    ensures r.Success? ==> exists i :: 0 <= i < |path| && '/' !in path[..i] && path[i] == '/' && r.value == path[i + 1..]
  {
    var i := IndexOf(path, '/');
    if i < 0 then Failure(IndexError) else Success(path[i + 1..])
  }

  /** The first path segment is what gets dropped. */
  lemma AfterFirstSlashOf(first: string, rest: string)
    requires '/' !in first
    ensures AfterFirstSlash(first + "/" + rest) == Success(rest)
  {
    var p := first + "/" + rest;
    assert p[..|first|] == first;
    IndexOfIs(p, '/', |first|);
    assert p[|first| + 1..] == rest;
  }

  /** The width and height written into the shortcode. A truthy width
      (present and non-zero) is kept and the height follows the photo's
      aspect ratio, truncated toward zero; dividing by a zero width or
      height raises ZeroDivisionError. Otherwise the photo's own size. */
  function DeclaredSize(photo: Photo, width: Option<int>): (r: Result<(int, int)>)
    ensures r.Failure? <==> width.Some? && width.value != 0 && (photo.width == 0 || photo.height == 0)
    ensures r.Failure? ==> r.error == ZeroDivisionError
    ensures width.None? || width.value == 0 ==> r == Success((photo.width, photo.height))
    ensures r.Success? && width.Some? && width.value != 0 ==>
      var (w, h) := r.value;
      && w == width.value
      && Abs(h) * Abs(photo.width) <= Abs(w * photo.height) < (Abs(h) + 1) * Abs(photo.width)
  {
    if width.Some? && width.value != 0 then
      if photo.height == 0 || photo.width == 0 then Failure(ZeroDivisionError)
      else Success((width.value, TruncDiv(width.value * photo.height, photo.width)))
    else Success((photo.width, photo.height))
  }

  /** For positive sizes the declared height is the largest one whose
      ratio to the width does not exceed the photo's. */
  lemma DeclaredHeightKeepsAspect(photo: Photo, w: int)
    requires w > 0 && photo.width > 0 && photo.height > 0
    ensures var h := DeclaredSize(photo, Some(w)).value.1;
      h >= 0 && h * photo.width <= w * photo.height < (h + 1) * photo.width
  {
    var h := DeclaredSize(photo, Some(w)).value.1;
    assert 0 < w * photo.height;
  }

  /** get_photo_shortcode: the download path minus its first segment as
      src, the photo's caption, the declared size and the original size.
      The first-slash split never fails, because the path always has a
      slash after the directory. */
  function PhotoShortcode(photo: Photo, token: string, directory: string, width: Option<int>): (r: Result<string>)
    ensures r.Failure? <==> photo.url.None? || (width.Some? && width.value != 0 && (photo.width == 0 || photo.height == 0))
    ensures photo.url.None? ==> r == Failure(AttributeError)
    ensures photo.url.Some? && r.Failure? ==> r == Failure(ZeroDivisionError)
  {
    var path :- DownloadFileName(photo, token, directory);
    var size :- DeclaredSize(photo, width);
    assert path[|directory|] == '/';
    var src := AfterFirstSlash(path).value;
    Success(PrintedShortcode(src, photo.caption, size.0, size.1, photo.width, photo.height))
  }

  /** The shortcode carries src, caption, width, height, src-width and
      src-height, in that order, where src is the path after its first `/`,
      which comes no later than the end of the directory. */
  lemma PhotoShortcodeRenders(photo: Photo, token: string, directory: string, width: Option<int>)
    requires PhotoShortcode(photo, token, directory, width).Success?
    ensures var path := DownloadFileName(photo, token, directory).value;
      var (w, h) := DeclaredSize(photo, width).value;
      exists i :: 0 <= i <= |directory| && '/' !in path[..i] && path[i] == '/' &&
        PhotoShortcode(photo, token, directory, width).value
          == Render(PrintedAttrs(path[i + 1..], photo.caption, w, h, photo.width, photo.height))
  {
    var path := DownloadFileName(photo, token, directory).value;
    var (w, h) := DeclaredSize(photo, width).value;
    assert path[|directory|] == '/';
    var src := AfterFirstSlash(path).value;
    var i :| 0 <= i < |path| && '/' !in path[..i] && path[i] == '/' && src == path[i + 1..];
    PrintedShortcodeRenders(src, photo.caption, w, h, photo.width, photo.height);
    assert PhotoShortcode(photo, token, directory, width).value == PrintedShortcode(src, photo.caption, w, h, photo.width, photo.height);
  }

  /** With a one-segment directory (no slash in it) src is `token/file`. */
  lemma ShortcodeSrc(photo: Photo, token: string, directory: string, width: Option<int>)
    requires '/' !in directory && photo.url.Some?
    requires width.None? || width.value == 0 || (photo.width != 0 && photo.height != 0)
    ensures var src := token + "/" + TaggedName(FileNameFromUrl(photo.url.value), photo.checksum);
      var (w, h) := DeclaredSize(photo, width).value;
      PhotoShortcode(photo, token, directory, width) ==
        Success(Render(PrintedAttrs(src, photo.caption, w, h, photo.width, photo.height)))
  {
    PhotoShortcodeRenders(photo, token, directory, width);
    var path := DownloadFileName(photo, token, directory).value;
    var (w, h) := DeclaredSize(photo, width).value;
    var i :| 0 <= i <= |directory| && '/' !in path[..i] && path[i] == '/' &&
      PhotoShortcode(photo, token, directory, width).value
        == Render(PrintedAttrs(path[i + 1..], photo.caption, w, h, photo.width, photo.height));
    FirstSlashAfter(path, directory, i);
    SlashTail(path, directory, token, TaggedName(FileNameFromUrl(photo.url.value), photo.checksum));
  }

  lemma SlashTail(path: string, directory: string, token: string, fileName: string)
    requires path == directory + "/" + token + "/" + fileName
    ensures path[|directory| + 1..] == token + "/" + fileName
  {
    assert path == directory + "/" + (token + "/" + fileName);
  }

  /** In a path that starts with a slash-free directory and a slash, no
      slash comes before the end of the directory. */
  lemma FirstSlashAfter(path: string, directory: string, i: nat)
    requires '/' !in directory && |directory| < |path| && path[..|directory|] == directory
    requires i <= |directory| && path[i] == '/'
    ensures i == |directory|
  {
  }
}
