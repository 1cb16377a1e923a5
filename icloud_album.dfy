/** The album-level steps of the iCloud import script
    (import-icloud-album.py): the base URL of a shared album derived from
    its token, the token taken from an album link, the chunking of the
    photo ids, and the attaching of the fetched URLs to the derivatives. */
module ICloudAlbum {
  import opened Wrappers
  import opened Text
  import opened Numbers
  import opened ICloudRecords

  /** BASE_62_CHAR_SET, written in its three runs. */
  const Base62CharSet: string := "0123456789" + "ABCDEFGHIJKLMNOPQRSTUVWXYZ" + "abcdefghijklmnopqrstuvwxyz"

  /** The k-th character of the base-62 alphabet: digits, then upper-case,
      then lower-case letters. */
  function Base62Char(k: nat): (c: char)
    requires k < 62
  {
    if k < 10 then ('0' as int + k) as char
    else if k < 36 then ('A' as int + k - 10) as char
    else ('a' as int + k - 36) as char
  }

  /** The value of a base-62 digit, if c is one. */
  function Base62Value(c: char): (v: Option<nat>)
    ensures v.Some? ==> v.value < 62 && Base62Char(v.value) == c
  {
    if '0' <= c <= '9' then Some(c as int - '0' as int)
    else if 'A' <= c <= 'Z' then Some(c as int - 'A' as int + 10)
    else if 'a' <= c <= 'z' then Some(c as int - 'a' as int + 36)
    else None
  }

  lemma CharSetLayout()
    ensures |Base62CharSet| == 62
    ensures forall k :: 0 <= k < 62 ==> Base62CharSet[k] == Base62Char(k)
  {
    var digits, upper, lower := "0123456789", "ABCDEFGHIJKLMNOPQRSTUVWXYZ", "abcdefghijklmnopqrstuvwxyz";
    assert Base62CharSet == digits + upper + lower;
    assert forall k :: 0 <= k < 10 ==> digits[k] == Base62Char(k);
    assert forall k :: 0 <= k < 26 ==> upper[k] == Base62Char(k + 10);
    assert forall k :: 0 <= k < 26 ==> lower[k] == Base62Char(k + 36);
  }

  /** BASE_62_CHAR_SET.index(c) finds c at its value, and raises (gives -1
      here) exactly for the characters that are not base-62 digits. */
  lemma IndexInCharSet(c: char)
    ensures IndexOf(Base62CharSet, c) == match Base62Value(c) case None => -1 case Some(v) => v
  {
    CharSetLayout();
    match Base62Value(c)
    case None =>
      assert forall k :: 0 <= k < 62 ==> Base62CharSet[k] != c;
    case Some(v) =>
      assert forall k :: 0 <= k < v ==> Base62CharSet[k] as int < c as int;
      IndexOfIs(Base62CharSet, c, v);
  }

  /** BASE_62_CHAR_SET.index(c), with -1 for the ValueError. */
  method CharSetIndex(c: char) returns (i: int)
    ensures Base62Value(c).None? ==> i == -1
    ensures Base62Value(c).Some? ==> i == Base62Value(c).value
  {
    i := IndexOf(Base62CharSet, c);
    IndexInCharSet(c);
  }

  /** The base-62 value of a string read left to right, or a ValueError at a
      character outside the alphabet. */
  function Base62Decode(e: string): (r: Result<nat>)
    ensures r.Failure? ==> r.error == ValueError
  {
    if e == [] then Success(0)
    else
      var front := e[..|e| - 1];
      match Base62Decode(front)
      case Failure(err) => Failure(err)
      case Success(t) =>
        match Base62Value(e[|e| - 1])
        case None => Failure(ValueError)
        case Some(v) => Success(t * 62 + v)
  }

  /** A k-character string decodes to a value below 62^k. */
  lemma {:induction false} Base62DecodeBound(e: string)
    ensures Base62Decode(e).Success? ==> Base62Decode(e).value < Pow(62, |e|)
    decreases |e|
  {
    if e != [] && Base62Decode(e).Success? {
      var front := e[..|e| - 1];
      Base62DecodeBound(front);
      var t, v := Base62Decode(front).value, Base62Value(e[|e| - 1]).value;
      assert Base62Decode(e).value == t * 62 + v;
      assert t * 62 <= (Pow(62, |front|) - 1) * 62;
    }
  }

  /** base62_to_int: the accumulator t becomes t * 62 + index(c) for each
      character in turn; index raises ValueError for a character outside the
      alphabet. */
  method Base62ToInt(e: string) returns (r: Result<nat>)
    ensures r == Base62Decode(e)
  {
    var t: nat := 0;
    for k := 0 to |e|
      invariant Base62Decode(e[..k]) == Success(t)
    {
      var index := CharSetIndex(e[k]);
      DecodeStep(e, k, t);
      if index < 0 {
        DecodePrefixFails(e, k + 1);
        return Failure(ValueError);
      }
      t := t * 62 + index;
    }
    assert e[..|e|] == e;
    return Success(t);
  }

  /** The loop's step: the index found in the alphabet extends the value,
      and a missing one makes the longer prefix fail. */
  lemma DecodeStep(e: string, k: nat, t: nat)
    requires k < |e| && Base62Decode(e[..k]) == Success(t)
    ensures Base62Value(e[k]).None? ==> Base62Decode(e[..k + 1]).Failure?
    ensures Base62Value(e[k]).Some? ==> Base62Decode(e[..k + 1]) == Success(t * 62 + Base62Value(e[k]).value)
  {
    var f := e[..k + 1];
    assert f[..|f| - 1] == e[..k] && f[|f| - 1] == e[k];
  }

  /** A string decodes exactly when every character is a base-62 digit. */
  lemma {:induction false} Base62DecodeSucceeds(e: string)
    ensures Base62Decode(e).Success? <==> forall k :: 0 <= k < |e| ==> Base62Value(e[k]).Some?
    decreases |e|
  {
    if e != [] {
      var front := e[..|e| - 1];
      Base62DecodeSucceeds(front);
      assert forall k :: 0 <= k < |front| ==> front[k] == e[k];
    }
  }

  /** A string fails to decode when one of its prefixes does. */
  lemma DecodePrefixFails(e: string, n: nat)
    requires n <= |e| && Base62Decode(e[..n]).Failure?
    ensures Base62Decode(e) == Failure(ValueError)
  {
    Base62DecodeSucceeds(e[..n]);
    Base62DecodeSucceeds(e);
    var k :| 0 <= k < n && Base62Value(e[..n][k]).None?;
    assert e[k] == e[..n][k];
  }

  /** The server partition: the value of the second character when the token
      starts with `A`, else of the second and third characters (fewer when
      the token is shorter). An empty token, or an `A` alone, raises
      IndexError. */
  function ServerPartition(token: string): (r: Result<nat>)
    ensures token == [] ==> r == Failure(IndexError)
    ensures token != [] && token[0] == 'A' && |token| >= 2 ==> r == Base62Decode(token[1..2])
    ensures token != [] && token[0] == 'A' && |token| < 2 ==> r == Failure(IndexError)
    ensures token != [] && token[0] != 'A' ==> r == Base62Decode(token[1..if |token| < 3 then |token| else 3])
    ensures r.Success? && token[0] == 'A' ==> r.value < 62
    ensures r.Success? ==> r.value < 3844
  {
    if token == [] then Failure(IndexError)
    else if token[0] == 'A' then
      if |token| < 2 then Failure(IndexError)
      else Base62Decode([token[1]])
    else
      var part := token[1..if |token| < 3 then |token| else 3];
      var n :- Base62Decode(part);
      Base62DecodeBound(part);
      assert n < Pow(62, |part|) <= 3844 by {
        assert Pow(62, 2) == 3844;
      }
      Success(n)
  }

  /** The f-string format `02d` of a non-negative integer: at least two
      digits, padded with a leading zero. */
  function Pad2(n: nat): (s: string)
    ensures |s| >= 2 && AllDigits(s) && DigitsValue(s) == n
    ensures n < 100 ==> |s| == 2
  {
    DigitsValueOfNatToString(n);
    if n < 10 then
      assert DigitsValue(['0'] + NatToString(n)) == DigitsValue(NatToString(n)) by {
        LeadingZero(NatToString(n));
      }
      "0" + NatToString(n)
    else
      assert |NatToString(n)| >= 2 by {
        assert NatToString(n) == NatToString(n / 10) + [DigitChar(n % 10)];
      }
      assert n < 100 ==> |NatToString(n)| <= 2 by {
        if n < 100 {
          NatToStringShort(n);
        }
      }
      NatToString(n)
  }

  lemma {:induction false} LeadingZero(s: string)
    requires AllDigits(s)
    ensures AllDigits(['0'] + s) && DigitsValue(['0'] + s) == DigitsValue(s)
    decreases |s|
  {
    if s != [] {
      var t := ['0'] + s;
      assert t[..|t| - 1] == ['0'] + s[..|s| - 1];
      LeadingZero(s[..|s| - 1]);
    }
  }

  lemma NatToStringShort(n: nat)
    requires n < 100
    ensures |NatToString(n)| <= 2
  {
  }

  /** get_base_url: the partition host, the whole token, and the
      sharedstreams path. The part of the token after a `;` is computed by
      the script but never used. */
  function GetBaseUrl(token: string): (r: Result<string>)
    ensures r.Success? <==> ServerPartition(token).Success?
    ensures r.Success? ==> var n := ServerPartition(token).value;
      r.value == "https://p" + Pad2(n) + "-sharedstreams.icloud.com/" + token + "/sharedstreams/"
  {
    var n :- ServerPartition(token);
    Success("https://p" + Pad2(n) + "-sharedstreams.icloud.com/" + token + "/sharedstreams/")
  }

  /** get_album_token: the text between the first and the second `#` of the
      link; a link without `#` raises IndexError. */
  function GetAlbumToken(url: string): (r: Result<string>)
    ensures r.Success? <==> '#' in url
    ensures r.Failure? ==> r.error == IndexError
    ensures r.Success? ==> '#' !in r.value
    ensures r.Success? ==>
      exists i :: && 0 <= i < |url| && url[i] == '#' && '#' !in url[..i]
                  && r.value <= url[i + 1..]
                  && (i + 1 + |r.value| == |url| || url[i + 1 + |r.value|] == '#')
  {
    var pieces := Split(url, '#');
    if |pieces| < 2 then Failure(IndexError)
    else
      assert '#' in url by {
        if '#' !in url {
          SplitFree(url, '#');
        }
      }
      SplitPieceFree(url, '#', 1);
      var i := IndexOf(url, '#');
      SplitStep(url, '#', i);
      SplitHead(url[i + 1..], '#');
      Success(pieces[1])
  }

  /** Conversely, any text that starts right after the first `#` and runs,
      `#`-free, up to the next `#` or the end is the token returned. */
  lemma AlbumTokenIs(url: string, i: nat, token: string)
    requires i < |url| && url[i] == '#' && '#' !in url[..i]
    requires token <= url[i + 1..] && '#' !in token
    requires i + 1 + |token| == |url| || url[i + 1 + |token|] == '#'
    ensures GetAlbumToken(url) == Success(token)
  {
    var r := GetAlbumToken(url).value;
    var j :| && 0 <= j < |url| && url[j] == '#' && '#' !in url[..j]
             && r <= url[j + 1..]
             && (j + 1 + |r| == |url| || url[j + 1 + |r|] == '#');
    IndexOfIs(url, '#', i);
    IndexOfIs(url, '#', j);
    SameRun(url[i + 1..], r, token);
  }

  /** Two `#`-free prefixes of u that each end at a `#` or at the end of u
      are the same. */
  lemma SameRun(u: string, p: string, q: string)
    requires p <= u && '#' !in p && (|p| == |u| || u[|p|] == '#')
    requires q <= u && '#' !in q && (|q| == |u| || u[|q|] == '#')
    ensures p == q
  {
  }

  /** The token of a link built as prefix#token comes back from it. */
  lemma AlbumTokenOfLink(prefix: string, token: string)
    requires '#' !in prefix && '#' !in token
    ensures GetAlbumToken(prefix + "#" + token) == Success(token)
  {
    SplitAt(prefix, token, '#');
    SplitFree(token, '#');
  }

  /** The concatenation of a list of lists. */
  function Flatten<T>(xss: seq<seq<T>>): seq<T> {
    if xss == [] then [] else Flatten(xss[..|xss| - 1]) + xss[|xss| - 1]
  }

  /** chunks(lst, n) as the script consumes it: the slices lst[i:i+n] for i
      in range(0, len(lst), n). A step of 0 makes range raise ValueError; a
      negative step gives no chunks. */
  method Chunks<T>(lst: seq<T>, n: int) returns (r: Result<seq<seq<T>>>)
    ensures n == 0 <==> r.Failure?
    ensures r.Failure? ==> r.error == ValueError
    ensures n < 0 ==> r == Success([])
    ensures n > 0 ==> r.Success? && Flatten(r.value) == lst
    ensures n > 0 ==> r.Success? && |r.value| == (|lst| + n - 1) / n
    ensures n > 0 ==> r.Success? && forall k :: 0 <= k < |r.value| ==> 0 < |r.value[k]| <= n
    ensures n > 0 ==> r.Success? && forall k :: 0 <= k < |r.value| - 1 ==> |r.value[k]| == n
  {
    if n == 0 {
      return Failure(ValueError);
    }
    var result: seq<seq<T>> := [];
    if n < 0 {
      return Success(result);
    }
    var i := 0;
    while i < |lst|
      invariant i == n * |result|
      invariant i <= |lst| ==> Flatten(result) == lst[..i]
      invariant i > |lst| ==> Flatten(result) == lst
      invariant forall k :: 0 <= k < |result| ==> 0 < |result[k]| <= n
      invariant forall k :: 0 <= k < |result| - 1 ==> |result[k]| == n
      invariant |result| > 0 ==> n * (|result| - 1) < |lst|
      invariant i < |lst| ==> forall k :: 0 <= k < |result| ==> |result[k]| == n
      decreases |lst| - i
    {
      var chunk := lst[i..if i + n < |lst| then i + n else |lst|];
      result := result + [chunk];
        if i + n <= |lst| {
        assert lst[..i + n] == lst[..i] + chunk;
      } else {
        assert lst == lst[..i] + chunk;
      }
      i := i + n;
    }
    ChunkCount(|lst|, n, |result|);
    return Success(result);
  }

  /** c chunks of n covering m elements, with a part of the last one: c is
      the ceiling of m / n. */
  lemma ChunkCount(m: nat, n: int, c: nat)
    requires n > 0 && m <= n * c && (c == 0 || n * (c - 1) < m)
    ensures c == (m + n - 1) / n
  {
    var q := (m + n - 1) / n;
    assert q * n <= m + n - 1 < q * n + n;
    if c == 0 {
      MulLess(q, 1, n);
    } else {
      assert n * (c - 1) == c * n - n;
      MulLess(q - 1, c, n);
      MulLess(c - 1, q, n);
    }
  }

  lemma MulLess(a: int, b: int, n: int)
    requires n > 0 && a * n < b * n
    ensures a < b
  {
  }

  /** The derivatives of a photo that have a fetched URL, in order, with
      that URL attached. */
  function Survivors(ds: seq<(string, Derivative)>, urls: map<string, string>): (s: seq<Derivative>)
    ensures |s| <= |ds|
    ensures forall k :: 0 <= k < |s| ==> s[k].checksum in urls && s[k].url == Some(urls[s[k].checksum])
  {
    if ds == [] then []
    else
      var front := Survivors(ds[..|ds| - 1], urls);
      var d := ds[|ds| - 1].1;
      if d.checksum in urls then front + [d.(url := Some(urls[d.checksum]))] else front
  }

  /** Every survivor is a derivative of the photo with its URL attached. */
  lemma {:induction false} SurvivorOrigin(ds: seq<(string, Derivative)>, urls: map<string, string>, k: nat)
    requires k < |Survivors(ds, urls)|
    ensures exists j ::
      && 0 <= j < |ds| && ds[j].1.checksum in urls
      && Survivors(ds, urls)[k] == ds[j].1.(url := Some(urls[ds[j].1.checksum]))
    decreases |ds|
  {
    var front := Survivors(ds[..|ds| - 1], urls);
    var last := |ds| - 1;
    if k < |front| {
      SurvivorOrigin(ds[..last], urls, k);
      var j :| 0 <= j < last && ds[..last][j].1.checksum in urls &&
        front[k] == ds[..last][j].1.(url := Some(urls[ds[..last][j].1.checksum]));
      assert ds[..last][j] == ds[j];
    } else {
      assert Survivors(ds, urls)[k] == ds[last].1.(url := Some(urls[ds[last].1.checksum]));
    }
  }

  /** Every derivative with a fetched URL survives, with that URL attached. */
  lemma {:induction false} SurvivorKept(ds: seq<(string, Derivative)>, urls: map<string, string>, j: nat)
    requires j < |ds| && ds[j].1.checksum in urls
    ensures ds[j].1.(url := Some(urls[ds[j].1.checksum])) in Survivors(ds, urls)
    decreases |ds|
  {
    var last := |ds| - 1;
    if j < last {
      SurvivorKept(ds[..last], urls, j);
      assert ds[..last][j] == ds[j];
    }
  }

  predicate DistinctHeights(s: seq<Derivative>) {
    forall i, j :: 0 <= i < j < |s| ==> s[i].height != s[j].height
  }

  /** The new derivative dict of a photo: the survivors keyed by str(height). */
  function KeyedByHeight(s: seq<Derivative>): (ks: seq<(string, Derivative)>)
    ensures |ks| == |s| && forall k :: 0 <= k < |s| ==> ks[k] == (IntToString(s[k].height), s[k])
    ensures DistinctHeights(s) <==> forall i, j :: 0 <= i < j < |ks| ==> ks[i].0 != ks[j].0
  {
    var ks := seq(|s|, k requires 0 <= k < |s| => (IntToString(s[k].height), s[k]));
    assert DistinctHeights(s) ==> forall i, j :: 0 <= i < j < |ks| ==> ks[i].0 != ks[j].0 by {
      if DistinctHeights(s) {
        forall i, j | 0 <= i < j < |ks|
          ensures ks[i].0 != ks[j].0
        {
          if ks[i].0 == ks[j].0 {
            IntToStringInjective(s[i].height, s[j].height);
          }
        }
      }
    }
    ks
  }

  /** One photo enriched: the survivors keyed by height, or the TypeError
      that a second survivor of an already used height raises. */
  function EnrichImage(img: Image, urls: map<string, string>): (r: Result<Image>)
    ensures r.Success? <==> DistinctHeights(Survivors(img.derivatives, urls))
    ensures r.Failure? ==> r.error == TypeError
    ensures r.Success? ==>
      var s, ds := Survivors(img.derivatives, urls), r.value.derivatives;
      && r.value == img.(derivatives := ds)
      && |ds| == |s|
      && (forall k :: 0 <= k < |s| ==> ds[k] == (IntToString(s[k].height), s[k]))
      && (forall i, j :: 0 <= i < j < |ds| ==> ds[i].0 != ds[j].0)
  {
    var s := Survivors(img.derivatives, urls);
    if DistinctHeights(s) then Success(img.(derivatives := KeyedByHeight(s))) else Failure(TypeError)
  }

  /** All photos enriched in order, or the first photo's TypeError. */
  function EnrichAll(photos: seq<(string, Image)>, urls: map<string, string>): (r: Result<seq<Image>>)
    ensures r.Failure? ==> r.error == TypeError
  {
    if photos == [] then Success([])
    else
      var front :- EnrichAll(photos[..|photos| - 1], urls);
      var img :- EnrichImage(photos[|photos| - 1].1, urls);
      Success(front + [img])
  }

  /** The run succeeds exactly when every photo does, and then holds the
      enriched photos in their order. */
  lemma EnrichAllSpec(photos: seq<(string, Image)>, urls: map<string, string>)
    ensures var r := EnrichAll(photos, urls);
      && (r.Success? <==> forall k :: 0 <= k < |photos| ==> EnrichImage(photos[k].1, urls).Success?)
      && (r.Success? ==>
            |r.value| == |photos| && forall k :: 0 <= k < |photos| ==> r.value[k] == EnrichImage(photos[k].1, urls).value)
  {
    EnrichAllSucceeds(photos, urls);
    if EnrichAll(photos, urls).Success? {
      EnrichAllValues(photos, urls);
    }
  }

  lemma {:induction false} EnrichAllSucceeds(photos: seq<(string, Image)>, urls: map<string, string>)
    ensures EnrichAll(photos, urls).Success? <==> forall k :: 0 <= k < |photos| ==> EnrichImage(photos[k].1, urls).Success?
    decreases |photos|
  {
    if photos != [] {
      var front := photos[..|photos| - 1];
      EnrichAllSucceeds(front, urls);
      assert forall k :: 0 <= k < |front| ==> front[k] == photos[k];
    }
  }

  lemma {:induction false} EnrichAllValues(photos: seq<(string, Image)>, urls: map<string, string>)
    requires EnrichAll(photos, urls).Success?
    ensures var v := EnrichAll(photos, urls).value;
      |v| == |photos| && forall k :: 0 <= k < |photos| ==> EnrichImage(photos[k].1, urls) == Success(v[k])
    decreases |photos|
  {
    if photos != [] {
      var n := |photos|;
      var front := photos[..n - 1];
      var fv := EnrichAll(front, urls).value;
      var last := EnrichImage(photos[n - 1].1, urls).value;
      assert EnrichAll(photos, urls).value == fv + [last];
      EnrichAllValues(front, urls);
      assert forall k :: 0 <= k < n - 1 ==> front[k] == photos[k];
    }
  }

  function Keys(ks: seq<(string, Derivative)>): set<string> {
    set k | 0 <= k < |ks| :: ks[k].0
  }

  /** enrich_images_with_urls: for each photo in order, each derivative whose
      checksum has a URL gets that URL and is stored under str(height); a
      second one under a key already used makes the script add an int to a
      string, which raises TypeError. The photos' guids are not used. */
  method EnrichImagesWithUrls(photos: seq<(string, Image)>, urls: map<string, string>) returns (r: Result<seq<Image>>)
    ensures r == EnrichAll(photos, urls)
  {
    var enriched: seq<Image> := [];
    for p := 0 to |photos|
      invariant EnrichAll(photos[..p], urls) == Success(enriched)
    {
      var photo := EnrichPhoto(photos[p].1, urls);
      if photo.Failure? {
        PhotoFails(photos, urls, p);
        return Failure(TypeError);
      }
      EnrichAllStep(photos, urls, p, enriched);
      enriched := enriched + [photo.value];
    }
    assert photos[..|photos|] == photos;
    return Success(enriched);
  }

  /** The inner loop of enrich_images_with_urls, over one photo's derivatives. */
  method EnrichPhoto(photo: Image, urls: map<string, string>) returns (r: Result<Image>)
    ensures r == EnrichImage(photo, urls)
  {
    var ds := photo.derivatives;
    var byHeight: seq<(string, Derivative)> := [];
    for q := 0 to |ds|
      invariant DistinctHeights(Survivors(ds[..q], urls))
      invariant byHeight == KeyedByHeight(Survivors(ds[..q], urls))
    {
      SurvivorsStep(ds, urls, q);
      var derivative := ds[q].1;
      if derivative.checksum !in urls {
        continue;
      }
      var key := IntToString(derivative.height);
      var updated := derivative.(url := Some(urls[derivative.checksum]));
      if key in Keys(byHeight) {
        DuplicateKey(Survivors(ds[..q], urls), updated);
        PrefixRepeats(ds, urls, q + 1);
        return Failure(TypeError);
      }
      FreshKey(Survivors(ds[..q], urls), updated);
      byHeight := byHeight + [(key, updated)];
    }
    assert ds[..|ds|] == ds;
    return Success(photo.(derivatives := byHeight));
  }

  /** The inner loop's step: a derivative with a URL joins the survivors. */
  lemma SurvivorsStep(ds: seq<(string, Derivative)>, urls: map<string, string>, q: nat)
    requires q < |ds|
    ensures Survivors(ds[..q + 1], urls) ==
      if ds[q].1.checksum in urls then Survivors(ds[..q], urls) + [ds[q].1.(url := Some(urls[ds[q].1.checksum]))]
      else Survivors(ds[..q], urls)
  {
    assert ds[..q + 1][..q] == ds[..q];
  }

  /** A photo that fails makes the whole run fail. */
  lemma PhotoFails(photos: seq<(string, Image)>, urls: map<string, string>, p: nat)
    requires p < |photos| && EnrichImage(photos[p].1, urls).Failure?
    ensures EnrichAll(photos, urls) == Failure(TypeError)
  {
    EnrichAllSpec(photos, urls);
  }

  /** The outer loop's step: the enriched photo is appended. */
  lemma EnrichAllStep(photos: seq<(string, Image)>, urls: map<string, string>, p: nat, enriched: seq<Image>)
    requires p < |photos| && EnrichAll(photos[..p], urls) == Success(enriched)
    requires EnrichImage(photos[p].1, urls).Success?
    ensures EnrichAll(photos[..p + 1], urls) == Success(enriched + [EnrichImage(photos[p].1, urls).value])
  {
    assert photos[..p + 1][..p] == photos[..p];
  }

  /** A survivor whose key is already used has the height of an earlier one. */
  lemma DuplicateKey(s: seq<Derivative>, d: Derivative)
    requires IntToString(d.height) in Keys(KeyedByHeight(s))
    ensures !DistinctHeights(s + [d])
  {
    var k :| 0 <= k < |s| && KeyedByHeight(s)[k].0 == IntToString(d.height);
    IntToStringInjective(s[k].height, d.height);
    assert (s + [d])[k] == s[k] && (s + [d])[|s|] == d;
  }

  /** A survivor with an unused key keeps the heights distinct. */
  lemma FreshKey(s: seq<Derivative>, d: Derivative)
    requires DistinctHeights(s) && IntToString(d.height) !in Keys(KeyedByHeight(s))
    ensures DistinctHeights(s + [d])
    ensures KeyedByHeight(s + [d]) == KeyedByHeight(s) + [(IntToString(d.height), d)]
  {
    forall k | 0 <= k < |s|
      ensures s[k].height != d.height
    {
      assert KeyedByHeight(s)[k].0 in Keys(KeyedByHeight(s));
    }
  }

  /** The survivors of a prefix come first among those of the whole list, so
      a repeated height in a prefix repeats in the whole. */
  lemma {:induction false} SurvivorsPrefix(ds: seq<(string, Derivative)>, urls: map<string, string>, n: nat)
    requires n <= |ds|
    ensures var s, t := Survivors(ds[..n], urls), Survivors(ds, urls); |s| <= |t| && t[..|s|] == s
    decreases |ds| - n
  {
    if n < |ds| {
      SurvivorsPrefix(ds, urls, n + 1);
      assert ds[..n + 1][..n] == ds[..n];
    } else {
      assert ds[..n] == ds;
    }
  }

  /** A repeated height among the survivors of a prefix repeats among
      the survivors of the whole list. */
  lemma PrefixRepeats(ds: seq<(string, Derivative)>, urls: map<string, string>, n: nat)
    requires n <= |ds| && !DistinctHeights(Survivors(ds[..n], urls))
    ensures !DistinctHeights(Survivors(ds, urls))
  {
    SurvivorsPrefix(ds, urls, n);
    var s, t := Survivors(ds[..n], urls), Survivors(ds, urls);
    var i, j :| 0 <= i < j < |s| && s[i].height == s[j].height;
    assert t[i] == s[i] && t[j] == s[j];
  }

  /** A photo with a repeated survivor height makes the whole run fail. */
  lemma EnrichFailsAt(photos: seq<(string, Image)>, urls: map<string, string>, p: nat, prefix: seq<(string, Derivative)>)
    requires p < |photos|
    requires prefix <= photos[p].1.derivatives
    requires !DistinctHeights(Survivors(prefix, urls))
    ensures EnrichAll(photos, urls) == Failure(TypeError)
  {
    var ds := photos[p].1.derivatives;
    assert ds[..|prefix|] == prefix;
    PrefixRepeats(ds, urls, |prefix|);
    PhotoFails(photos, urls, p);
  }
}
