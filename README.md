# photopasta, modelled in Dafny

photopasta turns photo metadata into Hugo `{{<photo ...>}}` shortcodes. It
has four parts, and this project models the deterministic core of each:

- **Browser extension content script** (`browser-extension/src/content.js`):
  - `generatePhotoShortcode` builds the shortcode for a Google Photos image:
    - the source URL with its `=w<W>-h<H>-no` suffix;
    - an optional caption;
    - optional thumbnail, width and height attributes, sized by the extension's settings.
  - The message listener maps a context-menu id to "copy all", "copy one" or "copy one for a gallery row".
- **Hugo page script** (`hugo/static/js/gallery.js`):
  - rewrites the first `=w<digits>-h<digits>` of a URL for a new width;
  - walks the photo links with a working width that can only double;
  - schedules lazy images nearest first, 200 ms apart.
- **iCloud import script** (`import-icloud-album.py`):
  - decodes the album token into the partition host;
  - chunks lists;
  - reads and writes Derivative and Image records as JSON dicts;
  - picks the original-size and the smallest derivative;
  - re-keys derivatives by height;
  - derives download file names and prints the shortcode of each photo.
- **Directory script** (`files-to-shortcodes.py`):
  - prints a shortcode for a Photo record;
  - filters a directory listing with an anchored regular expression.

Modules:

- `Wrappers`: `Option`, and `Result` carrying the Python exception that the scripts raise.
- `Text`: decimal printing, `indexOf`/`find`/`rfind`, `split`/`join`, ASCII lower-casing.
- `Numbers`: rounding half up, truncating division, powers.
- `Shortcode`: a generic shortcode renderer and a parser. Every generator is proved to print `Render(attributes)`, and `Parse` reads the attributes back. That is how attribute presence and order are stated.
- `Content`, `Gallery`, `ICloudRecords`, `ICloudAlbum`, `ICloudPhoto`, `DirectoryShortcodes`: one per part above.

Arithmetic is exact:

- JavaScript `Math.round(x)` for `x >= 0` is the nearest integer, with halves rounded up.
- Python `int(a / b)` truncates toward zero.
- The extension's requested thumbnail sizes are stored doubled, because the gallery scale 1.5 gives half pixels (`w361.5`).

Python dicts are sequences of `(key, value)` pairs in insertion order.

## Model

| member | source | states |
|---|---|---|
| Content.GetPlainUrl | browser-extension/src/content.js:24-26 | The result has no `=`. With a `=` in the URL it is the prefix before the first one. Without one it is empty, as `substring(0, -1)` gives. |
| Content.PlainUrlOfSuffixed | browser-extension/src/content.js:24-26 | Stripping `=<suffix>` from a plain URL gives the plain URL back. |
| Content.TrimLeadingDash | browser-extension/src/content.js:28-33 | Exactly one leading `-` is removed when there is one. Any other string is returned unchanged. |
| Content.HalfToStringReadsBack | browser-extension/src/content.js:130-142 | A doubled requested size prints as its integer part, followed by `.5` exactly when it is odd. |
| Content.SourcePostfix | browser-extension/src/content.js:152-171 | The source postfix is always `w<W>-h<H>-no` over the original size. |
| Content.TargetSize | browser-extension/src/content.js:109-121 | In a gallery row with rowHeight > 0, the declared height is rowHeight and the width is the nearest integer to rowHeight·W/H. Otherwise, with thumbWidth > 0, the declared width is thumbWidth and the height is the nearest integer to thumbWidth·H/W. Otherwise both are 0. |
| Content.RequestedSize | browser-extension/src/content.js:123-137 | The requested size is the scale (1 or 1.5, doubled for HDPI) times the declared size. When the scaled width exceeds the original width, both become the original W and H; only the width is compared. The width never exceeds the original. |
| Content.HdpiDoublesRequest | browser-extension/src/content.js:125-137 | Turning HDPI on doubles the requested size unless the clamp to the original applies. |
| Content.ThumbPostfix | browser-extension/src/content.js:139-142 | The thumb postfix is `w<reqW>-h<reqH>-s`, the leading dash trimmed. |
| Content.GeneratePhotoShortcode | browser-extension/src/content.js:99-173 | The generated text is exactly the shortcode of the intended attributes. In order: caption (only when useCaption and a non-empty label), src with the `-no` postfix, then thumb, width and height (only when useThumb), then src-width and src-height (the original W and H). |
| Content.ShortcodeAttributes | browser-extension/src/content.js:142-172 | With quote-free src and label, parsing the shortcode gives back exactly the intended attributes. Width and height are the declared, unscaled sizes. |
| Content.SingleImageExample | browser-extension/src/content.js:99-173 | A 4000x3000 "Sunset" image, with a 1200-pixel thumbnail width, no HDPI and captions on, carries caption, src `...=w4000-h3000-no`, thumb `...=w1200-h900-s`, width 1200, height 900, src-width 4000 and src-height 3000. |
| Content.GalleryRowHalfPixelExample | browser-extension/src/content.js:113-142 | A 241-pixel gallery row over a square photo declares 241x241 and requests `w361.5-h361.5-s`. |
| Content.Dispatch | browser-extension/src/content.js:226-236 | `all-images` maps to copy-all. `single-image` and `single-image-gal` map to copy-image of the message's srcUrl, with the gallery flag set exactly for the latter. Anything else, or no menuInfo, does nothing. |
| Content.Perform | browser-extension/src/content.js:188-221 | Copy-all with no images warns "no images", and with one image copies its non-gallery shortcode. Copy-image warns when the lookup finds no image, and otherwise copies that image's shortcode in the requested mode. Exactly Ignore does nothing. |
| Content.CopyAllAppends | browser-extension/src/content.js:196-200 | One more image adds `\n\n` and its shortcode to what copy-all copies. |
| Shortcode.ParseRender | browser-extension/src/content.js:172 | Parsing a rendered shortcode gives back its attributes when names have no `=` and values no `"`. |
| Shortcode.QuoteBreaksRoundTrip | browser-extension/src/content.js:148-150 | A value containing `"`, inserted verbatim, never parses back to the attributes it was meant to carry. |
| Gallery.MatchAtSpec | hugo/static/js/gallery.js:21 | A match of `=w(\d+)-h(\d+)` at p spans `=w`, the whole digit run, `-h` and the whole digit run. |
| Gallery.MatchAtLayout | hugo/static/js/gallery.js:21 | Conversely, text of that shape followed by a non-digit is a match at p. |
| Gallery.FirstMatchSpec | hugo/static/js/gallery.js:21-27 | The result is the leftmost match: none starts earlier, and None means no position matches. |
| Gallery.NewHeight | hugo/static/js/gallery.js:22-26 | With a positive parsed width, the new height is the nearest integer to width·H/W. A zero parsed width gives Infinity or NaN, as the JavaScript division does. |
| Gallery.ReplaceDimensionsInUrl | hugo/static/js/gallery.js:20-30 | A URL with no match anywhere is unchanged. Otherwise the match is the leftmost one (no earlier position matches), and only it is replaced, by `=w<width>-h<newHeight>`; the text before and after it is kept. |
| Gallery.ReplaceIdempotent | hugo/static/js/gallery.js:20-30 | For a positive width and a positive parsed width, rewriting a URL a second time with the same width changes nothing. |
| Gallery.AdjustLinksToViewport | hugo/static/js/gallery.js:45-60 | Each link's new href is its old href rewritten with the working width after that link's own update. The working width starts at the viewport width and carries over to later links. |
| Gallery.RewriteLinks | hugo/static/js/gallery.js:48-59 | The forEach loop, for any rewrite of a URL at a width: each link, in document order, first updates the working width from its data-width, then gets the rewrite of its old href at that width. Every link ends up rewritten exactly once. |
| Gallery.WidthOnlyDoubles | hugo/static/js/gallery.js:46-55 | The working width is the viewport width times 2^k, with k at most the number of links. |
| Gallery.WidthMonotone | hugo/static/js/gallery.js:53-55 | The working width never decreases from one link to the next. |
| Gallery.WidthBelowSomeDataWidth | hugo/static/js/gallery.js:51-55 | The working width is still the viewport width, or below some link's data-width: it is never doubled past what a link asked for. |
| Gallery.LoadImageDeferred | hugo/static/js/gallery.js:62-69 | An image without data-src gets no timer. Any other image gets a timer that sets src to its data-src after the given delay. |
| Gallery.SelectPhotoImages | hugo/static/js/gallery.js:89 | Exactly the images whose data-src starts with the photo host are selected. |
| Gallery.SelectPhotoImagesCounts | hugo/static/js/gallery.js:89 | Each selected image appears as many times as it occurs in the page (once per element), and no other image appears. |
| Gallery.SortByDistance | hugo/static/js/gallery.js:91-93 | The result is sorted by ascending distance and is a permutation of the input. |
| Gallery.LoadAllImagesProgressively | hugo/static/js/gallery.js:88-99 | The selected images are sorted nearest first. The k-th gets delay 200·k, and a nearer image never gets a later delay than a farther one. |
| ICloudRecords.Get | import-icloud-album.py:90-104 | `data[key]` is a TypeError on a non-dict and a KeyError for a missing key. |
| ICloudRecords.ToInt | import-icloud-album.py:102-103 | `int()` keeps integers, parses numeric strings and raises on anything else. |
| ICloudRecords.ToIntOfPrinted | import-icloud-album.py:102-103 | `int(str(i)) == i`. |
| ICloudRecords.DerivativeFromDict | import-icloud-album.py:36-43 | A non-dict raises TypeError and a missing checksum raises KeyError. An absent url becomes None. |
| ICloudRecords.DerivativeToDict | import-icloud-album.py:46-53 | The dict it writes reads back as the same Derivative: `from_dict(to_dict(d)) == d`, a None url included. |
| ICloudRecords.DerivativesFromItems | import-icloud-album.py:89-91 | The derivatives dict keeps every key in order and succeeds exactly when every value reads as a Derivative. |
| ICloudRecords.ImageFromDict | import-icloud-album.py:87-105 | A non-dict raises TypeError and a missing derivatives key raises KeyError. An absent mediaAssetType becomes None. |
| ICloudRecords.DerivativesRoundTrip | import-icloud-album.py:89-112 | Reading back the written derivatives dict gives the same keyed derivatives. |
| ICloudRecords.ImageToDict | import-icloud-album.py:108-124 | The dict it writes reads back as the same Image: `from_dict(to_dict(img)) == img`, its derivatives included. |
| ICloudRecords.OriginalIndex | import-icloud-album.py:128-137 | The index is that of the first derivative, in order, whose height equals the image's, or -1 when none does. |
| ICloudRecords.GetOriginal | import-icloud-album.py:128-137 | The loop returns the first derivative, in order, with the image's height, or None. |
| ICloudRecords.SmallestIndex | import-icloud-album.py:140-145 | The chosen derivative has minimal height, and every earlier one is strictly higher: ties go to the first. |
| ICloudRecords.SmallestOf | import-icloud-album.py:140-150 | An image without derivatives raises AttributeError. Otherwise the result is the first derivative of least height. |
| ICloudRecords.GetSmallestDerivative | import-icloud-album.py:140-150 | The running minimum, replaced only by a strictly lower derivative, ends at SmallestOf. |
| ICloudAlbum.Base62Value | import-icloud-album.py:224-229 | A base-62 digit has value below 62 and sits at that index of the alphabet. |
| ICloudAlbum.IndexInCharSet | import-icloud-album.py:224-229 | `BASE_62_CHAR_SET.index(c)` finds c at its value, and fails exactly for characters outside the alphabet. |
| ICloudAlbum.Base62DecodeBound | import-icloud-album.py:226-230 | A k-character string gives a value below 62^k. |
| ICloudAlbum.Base62DecodeSucceeds | import-icloud-album.py:226-230 | The result is a value exactly when every character is a base-62 digit. |
| ICloudAlbum.CharSetIndex | import-icloud-album.py:224-229 | `BASE_62_CHAR_SET.index(c)` gives c's base-62 value; -1 stands for the ValueError of a character outside the alphabet. |
| ICloudAlbum.Base62ToInt | import-icloud-album.py:226-230 | The fold `t = t*62 + index(c)` computes Base62Decode, raising ValueError at a bad character. |
| ICloudAlbum.DecodePrefixFails | import-icloud-album.py:228-229 | A bad character anywhere makes the whole decode fail. |
| ICloudAlbum.ServerPartition | import-icloud-album.py:232-243 | The partition is base62(e[1]) when e starts with `A`, giving 0..61. Otherwise it is base62(e[1:3]), giving 0..3843. An empty token, or `A` alone, raises IndexError. |
| ICloudAlbum.Pad2 | import-icloud-album.py:245 | `{n:02d}` has at least two digits and reads back as n, and exactly two below 100. |
| ICloudAlbum.GetBaseUrl | import-icloud-album.py:223-247 | The URL is `https://p` + padded partition + `-sharedstreams.icloud.com/` + the whole token + `/sharedstreams/`. The `;` suffix computed at 235-241 plays no part. |
| ICloudAlbum.GetAlbumToken | import-icloud-album.py:354-355 | A link without `#` raises IndexError. Otherwise the token is the text after the first `#`, up to the next `#` or the end of the link; it contains no `#`. |
| ICloudAlbum.AlbumTokenIs | import-icloud-album.py:354-355 | Conversely, any `#`-free text that starts right after the first `#` and ends at the next `#` or at the end is the token returned, so the token is determined by the link. |
| ICloudAlbum.AlbumTokenOfLink | import-icloud-album.py:354-355 | The token of `prefix#token` is token. |
| ICloudAlbum.Chunks | import-icloud-album.py:348-350 | For n > 0 the chunks concatenate back to the list, none is empty, all but the last have exactly n elements, and there are ceil(len/n) of them. n = 0 raises ValueError, and n < 0 gives none. |
| ICloudAlbum.ChunkCount | import-icloud-album.py:349 | c chunks of n covering m elements, with a part of the last one, means c = ceil(m/n). |
| ICloudAlbum.Survivors | import-icloud-album.py:322-338 | Every survivor has a checksum with a URL and carries that URL. |
| ICloudAlbum.SurvivorOrigin | import-icloud-album.py:322-338 | Every survivor is one of the photo's derivatives with its URL attached. |
| ICloudAlbum.SurvivorKept | import-icloud-album.py:324-339 | Every derivative whose checksum has a URL survives, with that URL. |
| ICloudAlbum.KeyedByHeight | import-icloud-album.py:327-339 | The survivors are stored in order under `str(height)`, and the keys are pairwise distinct exactly when the heights are, so no assignment overwrites another. |
| ICloudAlbum.EnrichImage | import-icloud-album.py:319-341 | One photo succeeds exactly when its survivors have distinct heights, and otherwise raises TypeError. On success only the derivatives change: they become the survivors in order, each under its own `str(height)`, with no key repeated. |
| ICloudAlbum.EnrichAll | import-icloud-album.py:314-344 | A failed run raises TypeError. |
| ICloudAlbum.EnrichAllSpec | import-icloud-album.py:314-344 | Photos keep their order. The result succeeds exactly when every photo does, and then holds each photo enriched. |
| ICloudAlbum.EnrichPhoto | import-icloud-album.py:319-341 | The inner loop keys the survivors by height when their heights are distinct, and otherwise raises the TypeError of lines 335-336. |
| ICloudAlbum.EnrichImagesWithUrls | import-icloud-album.py:314-344 | The outer loop computes EnrichAll: it stops at the first photo that fails. |
| ICloudAlbum.DuplicateKey | import-icloud-album.py:329-336 | A survivor whose key is already used has the height of an earlier one. |
| ICloudAlbum.FreshKey | import-icloud-album.py:329-339 | A survivor with a new height keeps the keys distinct. |
| ICloudAlbum.SurvivorsPrefix | import-icloud-album.py:322-339 | The survivors of a prefix of the derivatives come first among the survivors of the whole. |
| ICloudAlbum.EnrichFailsAt | import-icloud-album.py:329-336 | A repeated height among the survivors of any prefix of some photo's derivatives makes the whole enrichment raise TypeError. |
| ICloudPhoto.FromImage | import-icloud-album.py:405-420 | No derivatives raises AttributeError. No derivative of the image's height raises TypeError. Otherwise the photo is exactly: checksum, url, width and height of the first derivative of the image's height; url, width and height of the first derivative of least height; the image's author and caption. |
| ICloudPhoto.FileNameFromUrl | import-icloud-album.py:443-444 | The file name contains neither `/` nor `?`. |
| ICloudPhoto.FileNameOfUrl | import-icloud-album.py:443-444 | The file name of `dir/name?query` is the lower-cased name. |
| ICloudPhoto.FileNameOfPlainUrl | import-icloud-album.py:443-444 | The file name of `dir/name` is the lower-cased name. |
| ICloudPhoto.FileNameIdempotent | import-icloud-album.py:443-444 | Deriving a file name from a file name changes nothing. |
| ICloudPhoto.SplitExt | import-icloud-album.py:449 | base + ext is the name. |
| ICloudPhoto.SplitExtShape | import-icloud-album.py:449 | ext is empty, or a dot followed by neither dot nor slash. |
| ICloudPhoto.SplitExtOf | import-icloud-album.py:449 | A base with a non-dot character, followed by a dot-led extension, splits back into the two. |
| ICloudPhoto.SplitExtInsert | import-icloud-album.py:449-450 | Dot- and slash-free text inserted before the extension leaves the extension unchanged. |
| ICloudPhoto.TaggedName | import-icloud-album.py:449-450 | For a slash-free name and checksum the tagged name is slash-free; if the checksum also has no `.`, `{base}-{checksum}{ext}` splits into the tagged base and the original extension. |
| ICloudPhoto.DownloadFileName | import-icloud-album.py:447-453 | A photo without a URL raises AttributeError. Otherwise the path is `{directory}/{token}/{base}-{checksum}{ext}` of the URL's file name. |
| ICloudPhoto.DownloadPathSegments | import-icloud-album.py:447-453 | For a slash-free token and checksum, the path's `/` segments are the directory's, then the token, then the tagged file name: the file lies directly in `directory/token`. |
| ICloudPhoto.DownloadKeepsExtension | import-icloud-album.py:447-453 | The last path segment is `{base}-{checksum}{ext}`, with the URL file name's extension. |
| ICloudPhoto.AfterFirstSlash | import-icloud-album.py:479 | `split('/', maxsplit=1)[1]` is the text after the first `/`, and raises IndexError without one. |
| ICloudPhoto.AfterFirstSlashOf | import-icloud-album.py:479 | For a slash-free first segment, the split gives back exactly what follows its slash. |
| ICloudPhoto.DeclaredSize | import-icloud-album.py:471-476 | A truthy width is kept, and the height is trunc(width·H/W), with ZeroDivisionError for a zero W or H. A None or 0 width gives the photo's own size. |
| ICloudPhoto.DeclaredHeightKeepsAspect | import-icloud-album.py:473-474 | For positive sizes the height is the largest h with h·W ≤ width·H. |
| ICloudPhoto.PhotoShortcode | import-icloud-album.py:469-482 | Fails exactly on a missing URL (AttributeError) or a zero division; the first-slash split never fails. |
| ICloudPhoto.PhotoShortcodeRenders | import-icloud-album.py:469-482 | The text is the shortcode of src, caption, width, height, src-width and src-height, in that order, where src is the path after its first `/`. |
| ICloudPhoto.ShortcodeSrc | import-icloud-album.py:478-480 | For a one-segment directory (no slash in it), src is exactly `token/{base}-{checksum}{ext}`: the download path without its directory. |
| Shortcode.PrintedShortcodeRenders | import-icloud-album.py:480 | The f-string is the shortcode of its six attributes, in order. |
| Shortcode.PrintedShortcodeParses | files-to-shortcodes.py:21 | With quote-free src and caption, the printed text parses back to exactly those six attributes. |
| Shortcode.PrintedCaptionQuoteBreaks | files-to-shortcodes.py:21 | A caption with `"`, inserted verbatim, breaks the printed shortcode. |
| DirectoryShortcodes.ToShortcode | files-to-shortcodes.py:20-23 | The text is the shortcode with width and height from the thumb fields and src-width and src-height from the original fields, and parses back to them. |
| DirectoryShortcodes.NameMatchesExactly | files-to-shortcodes.py:29 | A name passes the filter exactly when, lower-cased, it is `.jpg`, `.jpeg` or `.png`, optionally followed by one newline. |
| DirectoryShortcodes.OrdinaryNameDropped | files-to-shortcodes.py:29 | `photo.jpg`, `IMG_0001.JPEG` and `a.png` are dropped. |
| DirectoryShortcodes.BareExtensionsKept | files-to-shortcodes.py:29 | `.jpg`, `.JPEG` and `.Png` followed by a newline are kept. |
| DirectoryShortcodes.KeepMatching | files-to-shortcodes.py:29 | The result is an order-preserving sublist of the listing holding exactly the names that pass the filter. |
| DirectoryShortcodes.GetJpegFiles | files-to-shortcodes.py:25-29 | A missing directory gives []. Otherwise the result is the filtered listing, in listing order. |
| DirectoryShortcodes.OrdinaryDirectoryYieldsNothing | files-to-shortcodes.py:28-29 | A directory of ordinarily named photos yields no names. |
| Text.SplitPieceFree | import-icloud-album.py:355 | No piece of `str.split(c)` contains c. |
| Text.JoinSplit | import-icloud-album.py:444 | Joining the pieces of a split with the separator gives the string back. |
| Text.Lower | import-icloud-album.py:444 | Lower-casing keeps the length, leaves no `A`-`Z` in the result, keeps every other character, and maps each upper-case letter to its lower-case one. |
| Numbers.Round | hugo/static/js/gallery.js:26 | `Math.round` of a non-negative quotient is its nearest integer, with halves rounded up. |
| Numbers.TruncDiv | import-icloud-album.py:474 | `int(a / b)` lies within one divisor of a, truncated toward zero. |

## Left out

- The DOM and host APIs of the content script. These are `showToast`, `findAllGooglePhotoImages`, `findImageBySrc`, the clipboard and focus checks, the `browser.storage` read, and listener registration. Images found on the page, the options and the image lookup are inputs of `Content.Perform`. The dedupe list of `findAllGooglePhotoImages` is never appended to, so no deduplication happens, and the model does none.
- Content.TargetSize, Content.RequestedSize and Content.GeneratePhotoShortcode require a positive width and height. A zero or unparsable size makes the script divide by zero and print `Infinity` or `NaN`, which the model does not produce.
- Content.RequestedSize, Content.TargetSize, Gallery.NewHeight and ICloudPhoto.DeclaredSize use exact rational arithmetic. They make no claim of bit-for-bit agreement with IEEE doubles.
- `browser-extension/src/background.js` and `browser-extension/src/options.js`: context-menu registration, message relay and the options form are host-API and UI glue.
- Content.Options holds `thumbWidth` and `rowHeight` as integers. The options page saves the form fields' `.value` strings (`browser-extension/src/options.js:58-59`), and `content.js:115` and `content.js:119` copy them unchanged into the thumbnail size. So a stored value with leading zeros or a fraction (`01200`, `1200.5`) is printed as typed into `width="…"`/`height="…"` (`content.js:144-145`). A fractional value would also change the rounding and the `w…-h…` postfix. The model covers only values that are integers written in plain decimal, as the defaults are.
- The page script's environment:
  - `getViewportWidth`, `getBoundingClientRect` and the timers are not modelled; the viewport width, distances and delays are inputs or outputs.
  - The resize debounce, `fadeInOnImageLoad`, `setGalleryContainerSize` and the unused `adjustImagesToViewport` are left out.
  - `parseInt` of a link's data-width is an input: None stands for an absent, empty or unparsable attribute.
- Gallery.SelectPhotoImages: its contract and Gallery.SelectPhotoImagesCounts state which images are selected and how many times each, not that they keep document order. That order matters only for ties in Gallery.SortByDistance, whose stability is not stated either.
- Gallery.SortByDistance: the stability of `Array.prototype.sort` is not stated. Only the order by distance and the permutation are.
- The network and filesystem parts of the import script:
  - `get_api_response`, `get_urls`, `download_file`, `download_photo`, `parse_date`, the Metadata, ApiResponse and Album records, and the top-level argparse script are left out.
  - The URLs that `get_urls` returns are the `urls` input of the enrichment.
- ICloudRecords.DerivativeFromDict and ICloudRecords.ImageFromDict raise TypeError on a non-string value in a string field. The script would store such a value as it is.
- ICloudRecords.Lookup reads the first entry of a JSON object whose key repeats. `json.loads` keeps the last value instead.
- JSON floats, booleans and arrays are not part of the value model.
- ICloudRecords.ToInt accepts only an optional sign and ASCII digits. `int()` also allows surrounding whitespace, underscores between digits and non-ASCII digits.
- Text.Lower, and so ICloudPhoto.FileNameFromUrl and DirectoryShortcodes.NameMatchesExactly, lower-case only ASCII letters. For the letters of `jpg`, `jpeg` and `png`, Python's case-insensitive matching folds no other characters onto them, so the filter is exact.
- ICloudAlbum.EnrichImagesWithUrls computes the enriched photos as new values. The script instead assigns `derivative.url` and `photo.derivatives` in place on the shared objects. The script reads only the returned list, so the in-place update and its aliasing are not modelled.
- `Photo.to_dict` of the import script only serves a commented-out debug print and is left out.
- The files-to-shortcodes script around the modelled parts is not modelled:
  - `os.path.exists` and `os.listdir` are the inputs of `DirectoryShortcodes.GetJpegFiles`;
  - PIL's `get_image_dimensions` and the argparse main (whose `-h` option collides with the built-in help) are left out.
- `Photo.__init__` of the directory script stores its six arguments unchanged. It is the constructor of the `DirectoryShortcodes.Photo` datatype, which has no contract of its own.
