/** The records of the iCloud import script (import-icloud-album.py): the
    Derivative (one stored size of a photo) and the Image (one photo of the
    shared album), how they are read from and written to decoded JSON, and
    how an image picks its original-size and its smallest derivative.
    Python dicts are sequences of (key, value) pairs in insertion order. */
module ICloudRecords {
  import opened Wrappers
  import opened Text

  /** A value decoded by json.loads. Floats, booleans and arrays are not part
      of this model. */
  datatype Json = JStr(s: string) | JInt(i: int) | JNull | JObject(fields: seq<(string, Json)>)

  /** The value stored under key, the first one when the key repeats. */
  function Lookup(fields: seq<(string, Json)>, key: string): Option<Json>
  {
    if fields == [] then None
    else if fields[0].0 == key then Some(fields[0].1)
    else Lookup(fields[1..], key)
  }

  /** The first entry with the key is the one looked up. */
  lemma {:induction false} LookupAt(fields: seq<(string, Json)>, key: string, k: nat)
    requires k < |fields| && fields[k].0 == key
    requires forall j :: 0 <= j < k ==> fields[j].0 != key
    ensures Lookup(fields, key) == Some(fields[k].1)
    decreases k
  {
    if k > 0 {
      LookupAt(fields[1..], key, k - 1);
    }
  }

  predicate HasKey(data: Json, key: string) {
    data.JObject? && Lookup(data.fields, key).Some?
  }

  /** data[key]: a TypeError on a value that is not a dict, a KeyError for a
      missing key. */
  function Get(data: Json, key: string): (r: Result<Json>)
    ensures !data.JObject? <==> r == Failure(TypeError)
    ensures data.JObject? ==> (r.Success? <==> HasKey(data, key))
    ensures data.JObject? && !HasKey(data, key) ==> r == Failure(KeyError(key))
  {
    if !data.JObject? then Failure(TypeError)
    else match Lookup(data.fields, key)
      case None => Failure(KeyError(key))
      case Some(v) => Success(v)
  }

  /** dict.items(): an AttributeError on anything but a dict. */
  function Items(data: Json): (r: Result<seq<(string, Json)>>)
    ensures r.Success? <==> data.JObject?
    ensures r.Failure? ==> r.error == AttributeError
  {
    if data.JObject? then Success(data.fields) else Failure(AttributeError)
  }

  /** The strings Python's int() accepts here: an optional sign and at least
      one decimal digit. */
  function ParseIntText(s: string): (r: Option<int>)
    ensures r.Some? ==> s != []
  {
    if s != [] && (s[0] == '-' || s[0] == '+') then
      if |s| > 1 && AllDigits(s[1..]) then
        Some(if s[0] == '-' then -(DigitsValue(s[1..]) as int) else DigitsValue(s[1..]))
      else None
    else if s != [] && AllDigits(s) then Some(DigitsValue(s))
    else None
  }

  /** int(value): integers pass, numeric strings are parsed, other strings
      raise ValueError, None and dicts raise TypeError. */
  function ToInt(j: Json): (r: Result<int>)
    ensures j.JInt? ==> r == Success(j.i)
    ensures j.JNull? || j.JObject? ==> r == Failure(TypeError)
    ensures j.JStr? ==> (r.Success? <==> ParseIntText(j.s).Some?)
  {
    match j
    case JInt(i) => Success(i)
    case JStr(s) =>
      (match ParseIntText(s)
       case None => Failure(ValueError)
       case Some(i) => Success(i))
    case _ => Failure(TypeError)
  }

  /** int(str(i)) == i: a printed integer reads back. */
  lemma ToIntOfPrinted(i: int)
    ensures ToInt(JStr(IntToString(i))) == Success(i)
  {
    var s := IntToString(i);
    if i < 0 {
      var digits := NatToString(-i);
      assert s == "-" + digits;
      assert s[1..] == digits;
      DigitsValueOfNatToString(-i);
      assert ParseIntText(s) == Some(-(DigitsValue(digits) as int));
    } else {
      assert s == NatToString(i);
      assert IsDigit(s[0]);
      DigitsValueOfNatToString(i);
      assert ParseIntText(s) == Some(DigitsValue(s));
    }
  }

  /** A field the script stores as it comes; the model reads it as a string. */
  function AsString(j: Json): (r: Result<string>)
    ensures r.Success? <==> j.JStr?
    ensures j.JStr? ==> r.value == j.s
  {
    if j.JStr? then Success(j.s) else Failure(TypeError)
  }

  /** A field that may be null. */
  function AsOptionalString(j: Json): (r: Result<Option<string>>)
    ensures r.Success? <==> j.JStr? || j.JNull?
    ensures j.JNull? ==> r == Success(None)
    ensures j.JStr? ==> r == Success(Some(j.s))
  {
    match j
    case JStr(s) => Success(Some(s))
    case JNull => Success(None)
    case _ => Failure(TypeError)
  }

  /** An optional key: its value when present, None when absent. */
  function OptionalField(data: Json, key: string): (r: Result<Option<string>>)
    requires data.JObject?
    ensures !HasKey(data, key) ==> r == Success(None)
  {
    if HasKey(data, key) then
      var v := Lookup(data.fields, key).value;
      AsOptionalString(v)
    else Success(None)
  }

  function OptionalToJson(s: Option<string>): Json {
    match s
    case None => JNull
    case Some(v) => JStr(v)
  }

  /** One stored size of a photo. */
  datatype Derivative = Derivative(checksum: string, fileSize: int, width: int, height: int, url: Option<string>)

  /** Derivative.from_dict: the fields are read in the order checksum,
      fileSize, width, height, url, and the first failing read raises. A
      missing url gives None. */
  function DerivativeFromDict(data: Json): (r: Result<Derivative>)
    ensures !data.JObject? ==> r == Failure(TypeError)
    ensures data.JObject? && !HasKey(data, "checksum") ==> r == Failure(KeyError("checksum"))
    ensures r.Success? && !HasKey(data, "url") ==> r.value.url.None?
  {
    var checksumJ :- Get(data, "checksum");
    var fileSizeJ :- Get(data, "fileSize");
    var fileSize :- ToInt(fileSizeJ);
    var widthJ :- Get(data, "width");
    var width :- ToInt(widthJ);
    var heightJ :- Get(data, "height");
    var height :- ToInt(heightJ);
    var url :- OptionalField(data, "url");
    var checksum :- AsString(checksumJ);
    Success(Derivative(checksum, fileSize, width, height, url))
  }

  /** Derivative.to_dict: every field, an absent url written as null.
      Reading it back gives the same derivative, an absent url included. */
  function DerivativeToDict(d: Derivative): (r: Json)
    ensures DerivativeFromDict(r) == Success(d)
  {
    var fs := [("checksum", JStr(d.checksum)), ("fileSize", JInt(d.fileSize)), ("width", JInt(d.width)),
               ("height", JInt(d.height)), ("url", OptionalToJson(d.url))];
    LookupAt(fs, "checksum", 0);
    LookupAt(fs, "fileSize", 1);
    LookupAt(fs, "width", 2);
    LookupAt(fs, "height", 3);
    LookupAt(fs, "url", 4);
    JObject(fs)
  }

  /** One photo of the album with its derivatives, keyed as in the source dict. */
  datatype Image = Image(
    batchGuid: string,
    derivatives: seq<(string, Derivative)>,
    contributorLastName: string,
    batchDateCreated: string,
    dateCreated: string,
    contributorFirstName: string,
    photoGuid: string,
    contributorFullName: string,
    caption: string,
    height: int,
    width: int,
    mediaAssetType: Option<string>)

  /** The dict comprehension over data["derivatives"].items(), in order. */
  function DerivativesFromItems(items: seq<(string, Json)>): (r: Result<seq<(string, Derivative)>>)
    ensures r.Success? ==> |r.value| == |items| && forall k :: 0 <= k < |items| ==> r.value[k].0 == items[k].0
    ensures r.Success? <==> forall k :: 0 <= k < |items| ==> DerivativeFromDict(items[k].1).Success?
  {
    if items == [] then Success([])
    else
      var d :- DerivativeFromDict(items[0].1);
      var rest :- DerivativesFromItems(items[1..]);
      Success([(items[0].0, d)] + rest)
  }

  /** Image.from_dict: the derivatives first, then the other fields in the
      order of the constructor call; the first failing read raises. */
  function ImageFromDict(data: Json): (r: Result<Image>)
    ensures !data.JObject? ==> r == Failure(TypeError)
    ensures data.JObject? && !HasKey(data, "derivatives") ==> r == Failure(KeyError("derivatives"))
    ensures r.Success? && !HasKey(data, "mediaAssetType") ==> r.value.mediaAssetType.None?
  {
    var derivativesJ :- Get(data, "derivatives");
    var items :- Items(derivativesJ);
    var derivatives :- DerivativesFromItems(items);
    var batchGuid :- Get(data, "batchGuid");
    var contributorLastName :- Get(data, "contributorLastName");
    var batchDateCreated :- Get(data, "batchDateCreated");
    var dateCreated :- Get(data, "dateCreated");
    var contributorFirstName :- Get(data, "contributorFirstName");
    var photoGuid :- Get(data, "photoGuid");
    var contributorFullName :- Get(data, "contributorFullName");
    var caption :- Get(data, "caption");
    var heightJ :- Get(data, "height");
    var height :- ToInt(heightJ);
    var widthJ :- Get(data, "width");
    var width :- ToInt(widthJ);
    var mediaAssetType :- OptionalField(data, "mediaAssetType");
    var strings :- AllStrings([batchGuid, contributorLastName, batchDateCreated, dateCreated,
                               contributorFirstName, photoGuid, contributorFullName, caption]);
    Success(Image(strings[0], derivatives, strings[1], strings[2], strings[3], strings[4], strings[5], strings[6],
                  strings[7], height, width, mediaAssetType))
  }

  /** The model's reading of the string-annotated fields, once all are read. */
  function AllStrings(js: seq<Json>): (r: Result<seq<string>>)
    ensures r.Success? ==> |r.value| == |js| && forall k :: 0 <= k < |js| ==> js[k] == JStr(r.value[k])
    ensures r.Success? <==> forall k :: 0 <= k < |js| ==> js[k].JStr?
  {
    if js == [] then Success([])
    else
      var s :- AsString(js[0]);
      var rest :- AllStrings(js[1..]);
      Success([s] + rest)
  }

  function DerivativesToItems(ds: seq<(string, Derivative)>): (items: seq<(string, Json)>)
    ensures |items| == |ds|
    ensures forall k :: 0 <= k < |ds| ==> items[k] == (ds[k].0, DerivativeToDict(ds[k].1))
  {
    if ds == [] then [] else [(ds[0].0, DerivativeToDict(ds[0].1))] + DerivativesToItems(ds[1..])
  }

  /** Image.to_dict: every field, the derivatives through Derivative.to_dict.
      Reading it back gives the same image, derivatives and absent media
      type included. */
  function ImageToDict(img: Image): (r: Json)
    ensures ImageFromDict(r) == Success(img)
  {
    DerivativesRoundTrip(img.derivatives);
    ImageDictFirstFields(img);
    ImageDictContributorFields(img);
    ImageDictDateFields(img);
    ImageDictNameFields(img);
    ImageDictSizeFields(img);
    ImageDictLastFields(img);
    JObject(ImageFields(img))
  }

  /** The entries of Image.to_dict, in declaration order. */
  function ImageFields(img: Image): seq<(string, Json)> {
    [
      ("batchGuid", JStr(img.batchGuid)),
      ("derivatives", JObject(DerivativesToItems(img.derivatives))),
      ("contributorLastName", JStr(img.contributorLastName)),
      ("batchDateCreated", JStr(img.batchDateCreated)),
      ("dateCreated", JStr(img.dateCreated)),
      ("contributorFirstName", JStr(img.contributorFirstName)),
      ("photoGuid", JStr(img.photoGuid)),
      ("contributorFullName", JStr(img.contributorFullName)),
      ("caption", JStr(img.caption)),
      ("height", JInt(img.height)),
      ("width", JInt(img.width)),
      ("mediaAssetType", OptionalToJson(img.mediaAssetType))]
  }

  lemma {:induction false} DerivativesRoundTrip(ds: seq<(string, Derivative)>)
    ensures DerivativesFromItems(DerivativesToItems(ds)) == Success(ds)
    decreases |ds|
  {
    if ds != [] {
      DerivativesRoundTrip(ds[1..]);
      assert DerivativesToItems(ds)[1..] == DerivativesToItems(ds[1..]);
      assert ds == [(ds[0].0, ds[0].1)] + ds[1..];
    }
  }

  /** Two strings that differ at some position are different. */
  lemma DiffersAt(a: string, b: string, i: nat)
    requires i < |a| && i < |b| && a[i] != b[i]
    ensures a != b
  {
  }

  /** The keys Image.to_dict writes, in its order. */
  const ImageKeys: seq<string> := ["batchGuid", "derivatives", "contributorLastName", "batchDateCreated",
    "dateCreated", "contributorFirstName", "photoGuid", "contributorFullName", "caption", "height", "width",
    "mediaAssetType"]

  lemma ImageDictKeys(img: Image)
    ensures var fs := ImageFields(img);
      |fs| == |ImageKeys| && forall j :: 0 <= j < |fs| ==> fs[j].0 == ImageKeys[j]
  {
  }

  /** A key that no earlier key repeats is read from its own entry. */
  lemma ImageKeyLookup(img: Image, k: nat)
    requires k < |ImageKeys| && forall j :: 0 <= j < k ==> ImageKeys[j] != ImageKeys[k]
    ensures Get(JObject(ImageFields(img)), ImageKeys[k]) == Success(ImageFields(img)[k].1)
  {
    ImageDictKeys(img);
    LookupAt(ImageFields(img), ImageKeys[k], k);
  }

  lemma ImageDictFirstFields(img: Image)
    ensures var j := JObject(ImageFields(img));
      && Get(j, "batchGuid") == Success(JStr(img.batchGuid))
      && Get(j, "derivatives") == Success(JObject(DerivativesToItems(img.derivatives)))
  {
    ImageKeyLookup(img, 0);
    ImageKeyLookup(img, 1);
  }

  lemma ImageDictContributorFields(img: Image)
    ensures var j := JObject(ImageFields(img));
      && Get(j, "contributorLastName") == Success(JStr(img.contributorLastName))
      && Get(j, "batchDateCreated") == Success(JStr(img.batchDateCreated))
  {
    ImageKeyLookup(img, 2);
    ImageKeyLookup(img, 3);
  }

  lemma ImageDictDateFields(img: Image)
    ensures var j := JObject(ImageFields(img));
      && Get(j, "dateCreated") == Success(JStr(img.dateCreated))
      && Get(j, "contributorFirstName") == Success(JStr(img.contributorFirstName))
  {
    DiffersAt(ImageKeys[1], ImageKeys[4], 1);
    ImageKeyLookup(img, 4);
    ImageKeyLookup(img, 5);
  }

  lemma ImageDictNameFields(img: Image)
    ensures var j := JObject(ImageFields(img));
      && Get(j, "photoGuid") == Success(JStr(img.photoGuid))
      && Get(j, "contributorFullName") == Success(JStr(img.contributorFullName))
  {
    DiffersAt(ImageKeys[0], ImageKeys[6], 0);
    ImageKeyLookup(img, 6);
    DiffersAt(ImageKeys[2], ImageKeys[7], 11);
    ImageKeyLookup(img, 7);
  }

  lemma ImageDictSizeFields(img: Image)
    ensures var j := JObject(ImageFields(img));
      && Get(j, "caption") == Success(JStr(img.caption))
      && Get(j, "height") == Success(JInt(img.height))
  {
    ImageKeyLookup(img, 8);
    ImageKeyLookup(img, 9);
  }

  lemma ImageDictLastFields(img: Image)
    ensures var j := JObject(ImageFields(img));
      && Get(j, "width") == Success(JInt(img.width))
      && OptionalField(j, "mediaAssetType") == Success(img.mediaAssetType)
  {
    ImageKeyLookup(img, 10);
    ImageKeyLookup(img, 11);
  }

  /** What get_original and get_smallest_derivative return: four fields of a
      derivative. */
  datatype Rendition = Rendition(checksum: string, url: Option<string>, width: int, height: int)

  function RenditionOf(d: Derivative): Rendition {
    Rendition(d.checksum, d.url, d.width, d.height)
  }

  /** The position of the first derivative of the given height, or -1. */
  function OriginalIndex(ds: seq<(string, Derivative)>, height: int): (i: int)
    ensures -1 <= i < |ds|
    ensures i == -1 <==> forall k :: 0 <= k < |ds| ==> ds[k].1.height != height
    ensures 0 <= i ==> ds[i].1.height == height && forall k :: 0 <= k < i ==> ds[k].1.height != height
  {
    if ds == [] then -1
    else if ds[0].1.height == height then 0
    else
      var j := OriginalIndex(ds[1..], height);
      if j == -1 then -1 else j + 1
  }

  /** The original-size rendition: that of the first derivative, in order,
      whose height is the image's own, if any. */
  function OriginalOf(img: Image): Option<Rendition> {
    var i := OriginalIndex(img.derivatives, img.height);
    if i < 0 then None else Some(RenditionOf(img.derivatives[i].1))
  }

  /** Image.get_original: the loop returns at the first derivative whose
      height matches the image's. */
  method GetOriginal(img: Image) returns (r: Option<Rendition>)
    ensures r == OriginalOf(img)
  {
    var ds := img.derivatives;
    for k := 0 to |ds|
      invariant forall j :: 0 <= j < k ==> ds[j].1.height != img.height
    {
      var derivative := ds[k].1;
      if derivative.height == img.height {
        return Some(RenditionOf(derivative));
      }
    }
    return None;
  }

  /** Among the first n derivatives, the first one of minimal height. */
  function SmallestIndex(ds: seq<(string, Derivative)>, n: nat): (i: nat)
    requires 0 < n <= |ds|
    ensures i < n
    ensures forall k :: 0 <= k < n ==> ds[i].1.height <= ds[k].1.height
    ensures forall k :: 0 <= k < i ==> ds[k].1.height > ds[i].1.height
  {
    if n == 1 then 0
    else
      var j := SmallestIndex(ds, n - 1);
      if ds[n - 1].1.height < ds[j].1.height then n - 1 else j
  }

  /** The smallest rendition: that of the first derivative of least height;
      an image without derivatives raises AttributeError (an attribute read
      on None). */
  function SmallestOf(img: Image): (r: Result<Rendition>)
    ensures r.Failure? <==> img.derivatives == []
    ensures r.Failure? ==> r.error == AttributeError
  {
    var ds := img.derivatives;
    if ds == [] then Failure(AttributeError) else Success(RenditionOf(ds[SmallestIndex(ds, |ds|)].1))
  }

  /** Image.get_smallest_derivative: a running minimum that is replaced only
      by a strictly lower derivative. */
  method GetSmallestDerivative(img: Image) returns (r: Result<Rendition>)
    ensures r == SmallestOf(img)
  {
    var ds := img.derivatives;
    var smallest: Option<Derivative> := None;
    for k := 0 to |ds|
      invariant smallest == if k == 0 then None else Some(ds[SmallestIndex(ds, k)].1)
    {
      var derivative := ds[k].1;
      if smallest.None? || derivative.height < smallest.value.height {
        smallest := Some(derivative);
      }
    }
    if smallest.None? {
      return Failure(AttributeError);
    }
    return Success(RenditionOf(smallest.value));
  }
}
