# ilovepdf core in Dafny

This project models the logic at the centre of the ilovepdf web tools:

- **PDF compression** (`tools/compress.py`):
  - the quality tiers;
  - the page scan that decides which XObject images are recompressed;
  - the classifier and rewriter of one image stream, with the image library as an opaque codec whose every step may fail;
  - the downscaling arithmetic;
  - the size statistics.
- **The two page-selection parsers**:
  - `parse_page_range` of the split tool (`tools/split.py`);
  - `_parse_pages` of the signing tool (`tools/sign_pdf.py`), together with its table of signature positions.
- **The upload checks of the web app** (`app.py`):
  - `allowed_file`;
  - the extension-to-mimetype rule of the image endpoints;
  - the gate in front of a merge.

Module layout, one file per module:

| file | module | what it holds |
|---|---|---|
| `wrappers.dfy` | `Wrappers` | `Option` |
| `text.dfy` | `Text` | the Python `str` operations the parsers use: `strip()`, `split(sep)`, `lower()`, `int()` |
| `page_parts.dfy` | `PageParts` | the item grammar both page parsers share (`"n"` or `"a-b"`, comma-separated) |
| `split_pages.dfy` | `SplitPages` | `parse_page_range`, as a method proved against a fold over the parsed items, and `sorted(set(...))` |
| `sign_pages.dfy` | `SignPages` | `_parse_pages` and `POSITIONS` |
| `parsers_agree.dfy` | `ParsersAgree` | how the two parsers' answers relate |
| `uploads.dfy` | `Uploads` | `allowed_file`, the mimetype rule, the merge gate |
| `pdf_objects.dfy` | `PdfObjects` | the object arena, stream dictionaries, pages, the codec |
| `quality.dfy` | `Quality` | `QUALITY_SETTINGS`, `int(d * scale)`, `reduction_percent` |
| `recompress.dfy` | `Recompress` | `_recompress_image` as a function on a stream dictionary |
| `scanner.dfy` | `Scanner` | `_compress_page_images` and the page loop as folds over the arena, with their frame lemmas |
| `document.dfy` | `Documents` | class `Document`: the source's loops and in-place writes as methods, proved against the folds |
| `shared_images.dfy` | `SharedImages` | an image shared by several pages (see Findings), and the loop that recompresses each image once |

Each tier's scale (0.5, 0.75, 1.0) is an exact binary fraction. It is kept as a ratio `num / den`, so `int(d * scale)` becomes integer division truncating toward zero.

The input and output sizes of the files are parameters of `CompressPdf`:
- `originalSize` is the input size;
- `sizeOf` gives the saved size of an arena.

## Model

| member | source | states |
|---|---|---|
| Quality.Tier | tools/compress.py:21 | the tier picked for any name has a JPEG quality in 0..100 and a scale in (0, 1], and is one of the three listed tiers |
| Quality.TierTable | tools/compress.py:8-12 | "low" is quality 30 at scale 1/2, "medium" 60 at 3/4, "high" 85 at 1 |
| Quality.UnknownTierIsMedium | tools/compress.py:21 | a name other than the three tiers behaves as "medium" |
| Quality.DownscalingTiers | tools/compress.py:127 | the scale is below 1 exactly for every name other than "high" |
| Quality.Scaled | tools/compress.py:128-129 | `int(d * scale)` for a non-negative dimension is the floor of `d * num / den`: between 0 and `d`, with `r * den <= d * num < (r + 1) * den` |
| Quality.ScaledByOne | tools/compress.py:169-170 | at scale 1 every dimension is kept |
| Quality.ScaledExamples | tools/compress.py:166-167 | 800 x 600 becomes 400 x 300 under "low" and 600 x 450 under "medium"; 101 becomes 50 and 75 |
| Quality.ReductionPercent | tools/compress.py:45 | 0 for an empty original; otherwise `p * original == (original - compressed) * 100` |
| Quality.ReductionRange | tools/compress.py:45 | a smaller output gives a percentage in [0, 100], an empty one 100, an equal one 0, a larger one a negative percentage |
| Recompress.ComponentsOfSpaces | tools/compress.py:104-110 | DeviceGray has 1 component, DeviceCMYK 4, DeviceRGB, an absent colour space and any other colour space 3 |
| Recompress.RouteOf | tools/compress.py:112-150 | the JPEG branch is taken exactly when Width, Height and BitsPerComponent are integers or absent (absent Width and Height read as 0), the bit depth is 8 (absent reads as 8) and the filter is DCTDecode; the raw branch is taken exactly under the same conditions with FlateDecode or no filter |
| Recompress.Recompressed | tools/compress.py:93-191 | the stream is either unchanged or becomes DCTDecode; Subtype and BitsPerComponent are never changed; an unsupported stream is unchanged; the JPEG branch keeps the colour space; a raw rewrite declares DeviceRGB and happens only when the decoded length matched; without downscaling the dimensions stay; with downscaling they are the scaled declared ones (raw branch) or the scaled decoded ones (JPEG branch) |
| Recompress.BitDepthUnsupported | tools/compress.py:113-115 | a bit depth other than 8 leaves the stream unchanged |
| Recompress.FilterUnsupported | tools/compress.py:150 | a filter other than DCTDecode, FlateDecode or none leaves the stream unchanged |
| Recompress.LengthMismatchUnchanged | tools/compress.py:159-160 | decoded samples of the wrong length leave the stream unchanged |
| Recompress.Source | tools/compress.py:121-162 | an image is built only on the two supported branches; on the raw branch only when the sample length matches, and then with the declared Width and Height |
| Recompress.DecodeFails | tools/compress.py:121-147 | a JPEG stream whose payload does not decode is unchanged |
| Recompress.ResizeFails | tools/compress.py:126-188 | a stream whose image cannot be resized to the scaled dimensions is unchanged |
| Recompress.EncodeFails | tools/compress.py:132-188 | a stream whose image (resized when the tier asks) the encoder refuses is unchanged |
| Recompress.FailingCodecUnchanged | tools/compress.py:93-191 | whichever step fails on this stream, from the classifier to the encoder, the stream is unchanged |
| Recompress.RewriteSucceeds | tools/compress.py:121-185 | when decoding or reading, resizing and encoding all succeed, the stream is exactly the old one with the encoder's bytes as payload, DCTDecode as filter, DeviceRGB on the raw branch and its own colour space on the JPEG branch, the scaled dimensions of the image when the tier downscales, the declared ones on the raw branch otherwise, and its own on the JPEG branch otherwise |
| Recompress.LowTierExample | tools/compress.py:164-185 | an 800 x 600 RGB Flate image of the right length becomes, under "low", a 400 x 300 DCTDecode image declared DeviceRGB |
| Scanner.EligibleIff | tools/compress.py:64-80 | an entry reaches recompression exactly when it is a stream with Subtype /Image and integer Width and Height, both at least 100 |
| Scanner.Visit | tools/compress.py:61-87 | one entry changes at most its own object, keeps the object numbers, and leaves an ineligible object as it was |
| Scanner.SettledVisit | tools/compress.py:83 | visiting an object that is already settled changes nothing |
| Scanner.ScanEntriesFrame | tools/compress.py:61-87 | the entry loop keeps the object numbers and leaves unchanged every object no entry names and every settled object |
| Scanner.ScanPagesFrame | tools/compress.py:26-27 | the page loop keeps the object numbers and leaves unchanged every object no page names and every settled object |
| Scanner.PageWithoutImages | tools/compress.py:52-57 | a page without /Resources, without /XObject, or whose resources cannot be read changes nothing |
| Scanner.SmallImageSettled | tools/compress.py:79-80 | an image narrower than 100 is never changed |
| Scanner.DeepImageSettled | tools/compress.py:113-115 | an image whose bit depth is not 8 is never changed |
| Scanner.TwoPageExample | tools/compress.py:26-27 | an 800 x 600 image on page 1 and a page 2 without resources: under "low" the image becomes 400 x 300 and every other object stays |
| Documents.Document.constructor | tools/compress.py:24 | the document holds the given pages and objects |
| Documents.Document.RecompressImage | tools/compress.py:93-191 | the arena after `_recompress_image` is the old one with that stream replaced by its recompressed form |
| Documents.Document.VisitImage | tools/compress.py:62-83 | one pass of the entry loop leaves the arena as one visit of that entry's object |
| Documents.Document.CompressPageImages | tools/compress.py:49-90 | the arena after `_compress_page_images` is the entry fold over the page's XObject entries |
| Documents.Document.CompressPdf | tools/compress.py:15-46 | the arena after the page loop is the page fold under the chosen tier; when no object is named by two XObject entries, every eligible object some page names is recompressed once from its original state and every other object stays; the statistics report the given original size, the saved size and the reduction between them |
| Documents.Document.CompressPageImagesOnce | tools/compress.py:61-83 | the entry loop that skips objects already recompressed gives the once-only fold and the extended set of visited objects |
| Documents.Document.CompressPdfOnce | tools/compress.py:24-27 | with each shared image recompressed once, every object some page names is recompressed once from its original state, and every other object stays |
| SharedImages.ScanLogoPage | tools/compress.py:61-83 | a page with a single XObject entry visits that entry's object once |
| SharedImages.LogoOnce | tools/compress.py:164-185 | one visit of the 800 x 800 logo under "low" yields a 400 x 400 JPEG |
| SharedImages.LogoTwice | tools/compress.py:121-144 | the 400 x 400 JPEG is still eligible, and a second visit halves it to 200 x 200 |
| SharedImages.SharedImageScaledTwice | tools/compress.py:26-27 | two pages naming one 800 x 800 image leave it 200 x 200 under "low" |
| SharedImages.VisitOnceStep | tools/compress.py:83 | visiting an object not yet visited extends the once-visited state by that object |
| SharedImages.ScanEntriesOnceVisits | tools/compress.py:61-83 | the once-only entry loop adds exactly the named objects to the visited set, and each visited object holds its one visit |
| SharedImages.ScanPagesOnceVisits | tools/compress.py:26-27 | the once-only page loop does the same over all pages |
| SharedImages.ScanOnceRecompressesOnce | tools/compress.py:26-27 | the once-only loop keeps the object numbers; an eligible object some page names is recompressed exactly once from its original state, however many entries name it; every other object stays |
| SharedImages.SharedImageScaledOnce | tools/compress.py:26-27 | on the same two pages the once-only loop leaves the logo 400 x 400 |
| SharedImages.ScanEntriesAsOnce | tools/compress.py:61-83 | on entries that name distinct objects not yet visited, the entry loop as written and the once-only loop give the same arena, and the once-only loop visits exactly the named objects |
| SharedImages.ScanPageAsOnce | tools/compress.py:49-90 | the same for one page |
| SharedImages.ScanPagesAsOnce | tools/compress.py:26-27 | when no object is named by two entries of the document, the page loop as written and the once-only loop give the same arena |
| SharedImages.UnsharedScanRecompressesOnce | tools/compress.py:26-27 | when no object is named by two entries, the page loop as written keeps the object numbers, recompresses every eligible object some page names exactly once from its original state, and leaves every other object as it was |
| Text.StripLeftShape | tools/split.py:14 | `lstrip()` removes the leading whitespace and nothing more, for the whitespace of `strip()` and for the narrower one `int()` skips |
| Text.StripRightShape | tools/split.py:14 | `rstrip()` removes the trailing whitespace and nothing more, for either notion of whitespace |
| Text.StripShape | tools/split.py:14 | `strip()` is the slice left between the leading and trailing whitespace, and neither starts nor ends with whitespace, for either notion of whitespace |
| Text.StripUnchanged | tools/split.py:14 | a string that neither starts nor ends with whitespace is its own `strip()` |
| Text.LowerChar | tools/split.py:7 | `lower()` of a character is never an upper-case letter and keeps lower-case letters |
| Text.Lower | tools/split.py:7 | `lower()` keeps the length, leaves no upper-case letter, and changes a character exactly when it is an upper-case letter |
| Text.LowerIdempotent | tools/split.py:7 | lowering twice is lowering once |
| Text.JoinSplit | tools/split.py:11 | joining the parts of `split(sep)` with `sep` gives back the string |
| Text.SplitAvoidsSep | tools/split.py:16 | no part of `split(sep)` holds the separator |
| Text.SplitNoSep | tools/split.py:11 | a string without the separator splits into itself alone |
| Text.SplitAfterPart | tools/split.py:16 | a separator-free part followed by the separator splits off as the first part |
| Text.SplitJoin | tools/split.py:16 | splitting a join of separator-free parts gives back the parts |
| Text.ShowNat | tools/split.py:17 | the digits of a number are a non-empty run of decimal digits |
| Text.ShowNatValue | tools/split.py:17 | the digits of `n` have value `n` |
| Text.DigitGroupStartsWithDigit | tools/split.py:17 | a digit group accepted by `int()` starts with a digit |
| Text.DigitCountAllDigits | tools/split.py:17 | a run of decimal digits counts all its characters toward the 4300-digit limit of `int()` |
| Text.ParseUnsigned | tools/split.py:17 | `int()` of a stripped digit group is its value, or raises when the group has more than 4300 digits |
| Text.ParseNegative | tools/split.py:17 | `int()` of a stripped "-" and digit group is minus its value, or raises when the group has more than 4300 digits |
| Text.ParseShow | tools/split.py:17-18 | `int(str(n)) == n` for every integer of at most 4300 digits |
| Text.LongDigitRunRejected | tools/split.py:21 | `int()` of more than 4300 decimal digits raises whatever their value, leading zeros included |
| Text.ParseIntNonNegative | tools/split.py:17-21 | without a "-", what `int()` reads is non-negative |
| Text.ParseIntBlank | tools/split.py:21 | `int()` of the empty string or of blanks raises |
| PageParts.Range | tools/split.py:19 | `range(lo, hi)` has `hi - lo` elements, or none when `lo >= hi` |
| PageParts.RangeMembers | tools/split.py:19 | `x` is in `range(lo, hi)` exactly when `lo <= x < hi` |
| PageParts.StripAll | tools/split.py:13-14 | stripping every piece keeps their number |
| PageParts.StripAllEach | tools/split.py:13-14 | each stripped piece is the `strip()` of its piece |
| PageParts.Items | tools/split.py:11-14 | the selection has one item per comma-separated piece, at least one |
| PageParts.ParsePart | tools/split.py:15-21 | an item that parses is a range exactly when it holds a "-" |
| PageParts.ParsePartNonNegative | tools/split.py:16-21 | every number an item yields is non-negative |
| PageParts.ParseItems | tools/split.py:13-21 | a selection that parses yields one part per item |
| PageParts.ParseItemsEach | tools/split.py:13-21 | a selection parses exactly when every item parses, and then yields each item's own part |
| PageParts.ParseItemsSnoc | tools/split.py:13-21 | one more item appends its part, or the selection raises when it or an earlier item raises |
| PageParts.ParsedNonNegative | tools/split.py:16-21 | every part of a selection that parses is non-negative |
| PageParts.ParsedPrefixStep | tools/split.py:13-21 | reading one more item extends the parts the earlier items gave by its own part, or raises when it raises |
| PageParts.FirstMalformedRaises | tools/split.py:13-21 | a selection with a first item that raises raises as a whole |
| PageParts.MalformedPrefix | tools/split.py:13-21 | once some item raises, the whole selection raises |
| PageParts.EmptyItemRejected | tools/split.py:21 | the empty item raises |
| PageParts.LeadingDashRejected | tools/split.py:16-17 | "-3" raises |
| PageParts.DoubleDashRejected | tools/split.py:16 | "1-2-3" raises |
| PageParts.SpanParsed | tools/split.py:15-18 | "3-5" reads as the range from 3 to 5 |
| PageParts.ParseSingleShow | tools/split.py:20-21 | the decimal digits of any `n` of at most 4300 digits read as the single page `n` |
| PageParts.ParseSpanShow | tools/split.py:15-18 | the digits of `a`, a "-" and the digits of `b` read as the range from `a` to `b`, for any `a` and `b` of at most 4300 digits each |
| PageParts.LongItemRejected | tools/split.py:20-21 | an item of 4300 zeros and a "1" survives `strip()` but raises in `int()`, although its value is 1 |
| PageParts.UnitSeparatorRejected | tools/split.py:14-17 | an item holding the character 0x1F before its "-" survives `strip()` but raises in `int()`, which skips only space and 0x09..0x0D |
| SplitPages.Insert | tools/split.py:25 | inserting into a strictly ascending list keeps it strictly ascending and adds exactly the value |
| SplitPages.SortedSet | tools/split.py:25 | `sorted(set(xs))` is strictly ascending and holds exactly the values of `xs` |
| SplitPages.ContributionSelects | tools/split.py:15-23 | an item adds `x` exactly when it is a single `n` with `1 <= n <= total` and `x == n - 1`, or a range `a-b` with `a - 1 <= x < b` and `x < total` |
| SplitPages.CollectedMembers | tools/split.py:13-23 | an index is collected exactly when some item selects it |
| SplitPages.CollectedSnoc | tools/split.py:19-23 | reading one more item appends that item's indices |
| SplitPages.CollectedBounds | tools/split.py:17-23 | every collected index is below `total` and at least -1, and -1 only from a range starting at 0 |
| SplitPages.PageRangeBounds | tools/split.py:10-25 | every index returned for a comma list is below `total` and at least -1 |
| SplitPages.EmptySpan | tools/split.py:19 | a range `a-b` with `a > b` or `a > total` adds nothing |
| SplitPages.AppendPart | tools/split.py:15-23 | one parsed item extends `pages` by its indices, and adds exactly the indices it selects |
| SplitPages.CollectPages | tools/split.py:10-23 | the loop succeeds exactly when every item parses, then holds the collected indices, and otherwise stops at the first item that raises, every earlier item having parsed |
| SplitPages.ParsePageRange | tools/split.py:5-25 | "all" in any letter case gives `range(total)`; any other selection succeeds exactly when every item parses, then gives the sorted distinct collected indices, and otherwise names the first item that raises, every earlier item having parsed |
| SignPages.Position | tools/sign_pdf.py:38 | a known name gets its own preset and an unknown name gets bottom-right's anchor; the anchor is strictly inside the page and is one of the presets |
| SignPages.PositionTable | tools/sign_pdf.py:14-21 | the six names give (0.95, 0.05), (0.05, 0.05), (0.5, 0.05), (0.95, 0.95), (0.05, 0.95) and (0.5, 0.95) |
| SignPages.PresetsDistinct | tools/sign_pdf.py:14-21 | no two position names share an anchor |
| SignPages.SpreadMarks | tools/sign_pdf.py:235-239 | an item adds `x` exactly when it is `n` with `x == n - 1`, or `a-b` with `a - 1 <= x < b` |
| SignPages.GatheredMembers | tools/sign_pdf.py:232-239 | an index is gathered exactly when some item marks it |
| SignPages.GatheredSnoc | tools/sign_pdf.py:236-239 | reading one more item adds that item's indices |
| SignPages.SignSelection | tools/sign_pdf.py:232-240 | the comma-list result holds exactly the indices in `0 .. total - 1` that some item marks, each once |
| SignPages.EmptySpread | tools/sign_pdf.py:237 | a range `a-b` with `a > b` adds nothing |
| SignPages.GatherPages | tools/sign_pdf.py:232-239 | the loop succeeds exactly when every item parses, then holds the gathered indices, and otherwise stops at the first item that raises, every earlier item having parsed |
| SignPages.ParseSignPages | tools/sign_pdf.py:222-240 | exactly "all" gives every page, "first" gives {0} and "last" gives {total - 1} whatever `total` is; any other selection succeeds exactly when every item parses, then gives the gathered indices within the pages, and otherwise names the first item that raises, every earlier item having parsed |
| ParsersAgree.SelectsMarks | tools/split.py:19-23 | for non-negative indices, an item selects an index for the split tool exactly when it marks it for the signing tool and the index is below `total` |
| ParsersAgree.SameIndices | tools/split.py:13-25 | both parsers return the same non-negative indices for the same parsed items |
| ParsersAgree.MinusOneOnlyFromSplit | tools/split.py:17-19 | "0-2" puts -1 in the split tool's result but not in the signing tool's |
| ParsersAgree.UpperCaseAll | tools/split.py:7 | "ALL" selects every page for the split tool, and is neither a keyword nor a readable item for the signing tool |
| ParsersAgree.FirstOnlyForSigning | tools/sign_pdf.py:226-227 | "first" is not "all" for the split tool, and it is an item that raises there |
| Uploads.ExtensionShape | app.py:30 | a name has an extension exactly when it holds a "."; the extension is the dot-free text after the last "." |
| Uploads.ExtensionAfterDot | app.py:30 | the extension of `stem + "." + e` is `e` for any dot-free `e`, whatever the stem holds |
| Uploads.ExtensionLower | app.py:30 | lowering the name lowers its extension |
| Uploads.AllowedFileIff | app.py:29-30 | a name is accepted exactly when it is a stem, a "." and a dot-free extension whose lower case is one of the eight listed |
| Uploads.NoDotRejected | app.py:30 | a name without a "." is rejected |
| Uploads.AllowedFileCaseInsensitive | app.py:30 | acceptance ignores letter case |
| Uploads.AllowedFileExamples | app.py:26-30 | "A.PDF", "x.exe.pdf" and ".pdf" are accepted |
| Uploads.RejectedFileExamples | app.py:26-30 | "x.pdf.exe" and "report" are rejected |
| Uploads.MimetypeOf | app.py:199-200 | the mimetype of `stem + "." + e` is "image/jpeg" when `e` lowers to "jpg" and "image/" followed by the lowered `e` otherwise |
| Uploads.MimetypeMissing | app.py:199 | there is no mimetype exactly when the name has no "." |
| Uploads.JpegMimetypeExamples | app.py:199-200 | "scan.JPG" and "scan.jpeg" are both image/jpeg |
| Uploads.PngMimetypeExample | app.py:199-200 | "logo.png" is image/png |
| Uploads.Accepted | app.py:66-72 | the kept uploads are no more than the uploads |
| Uploads.AcceptedMembers | app.py:67-72 | an upload is kept exactly when it passes `allowed_file` |
| Uploads.AcceptedPositions | app.py:66-72 | the kept uploads are a subsequence of the uploads, in order |
| Uploads.MergeUploads | app.py:53-76 | no uploads gives "No files provided", one gives "Need at least 2 PDFs to merge", fewer than two accepted gives "Need at least 2 valid PDFs", and otherwise the merge gets the accepted uploads in order |
| Uploads.MergeNeedsTwoValid | app.py:74-76 | a merge goes ahead only with two different uploads that pass `allowed_file` |
| Uploads.AcceptedAppend | app.py:67-72 | filtering a concatenation filters each half in turn |
| Uploads.AllowedPositionsSnoc | app.py:67-68 | the last upload's position joins the allowed positions exactly when its name passes `allowed_file` |
| Uploads.AcceptedCount | app.py:66-72 | the number of kept uploads is the number of positions whose name passes `allowed_file`, duplicates included |
| Uploads.TwoValidMerge | app.py:74-76 | two different uploads that pass `allowed_file` are enough for the merge to go ahead |

## Left out

- Python's `str.strip()`, `str.lower()` and `int()` also act on non-ASCII whitespace, letters and digits. `Text.ParseInt`, `Text.Strip` and `Text.Lower` handle only ASCII. Within ASCII, `strip()` removes space and 0x09..0x0D and 0x1C..0x1F (`Text.IsSpace`), while `int()` skips only space and 0x09..0x0D (`Text.IsIntSpace`).
- The image library (tools/compress.py:124-136, 162-179): decoding, Lanczos resizing, JPEG encoding and the RGBA/CMYK to RGB conversions are an opaque `Codec` whose steps may fail. Nothing is modelled about the bytes it produces.
- pikepdf's `open`, `remove_unreferenced_resources` and `save`, and the `stat()` file sizes (tools/compress.py:22-40). The sizes are the `originalSize` and `sizeOf` parameters of `Documents.Document.CompressPdf`.
- Quality.ReductionPercent: it does not model the `round(..., 1)` of the reported percentage. The exact ratio is kept instead.
- `_recompress_image` writes the new stream data before it sets ColorSpace, Width and Height (tools/compress.py:182-185). Those assignments cannot raise, so the rewrite is modelled as one step after the codec succeeds.
- `int()` rejects more than 4300 digits (`Text.MaxStrDigits`), the default limit of CPython 3.11 and of 3.10.7 and 3.9.14 onwards. The model fixes that default. A limit changed with `sys.set_int_max_str_digits` or `PYTHONINTMAXSTRDIGITS`, and older interpreters without a limit, are not modelled.
- A Width, Height or BitsPerComponent that is a real number is read as `NotInt` (skipped). Python's `int()` would truncate it instead.
- `int(d * scale)` is exact integer arithmetic. The source's float product could round differently for dimensions beyond 2^53.
- `/DecodeParms` (predictors and the like) is folded into the opaque `inflate` step of the codec. The model says nothing about how it shapes the samples.
- `/SMask`, `/Mask` and `/ImageMask` are not represented in `PdfObjects.StreamDict`. A rewrite therefore says nothing about a mask the image carries.
- Indexed, ICC-based and other colour spaces are modelled only as "some other colour space" (`OtherSpace`), read as RGB as the source reads them.
- `secure_filename` is not part of this model. The mimetype rule is applied to the name it is given. The Flask routing, temporary directories, `send_file` and zip archives of app.py are plumbing.
- An absent "files" field of the merge request is modelled as an empty list of uploads. Both give "No files provided" before anything else is read.
- The `strip()` of each item happens inside the loop in both parsers. The model strips all items up front in `PageParts.Items`; the result is the same, since stripping cannot raise.
- The overlay geometry of tools/sign_pdf.py (text and image placement, fonts, colours) is float drawing arithmetic. Only the anchor lookup `SignPages.Position` is modelled.
- The page writing of `split_pdf` and the other tools (merge, OCR, Word conversion, image resizing, watermarks, PDF to images) are thin wrappers around libraries.

## Findings

| source | as written | input that shows it | evidently intended | confidence | as-written member | corrected member |
|---|---|---|---|---|---|---|
| tools/compress.py:26-27 | the page loop visits every XObject entry of every page. An image stream that several pages share is recompressed once per page. After the first pass its Width and Height are the scaled ones, so while they stay at least 100 the next pass scales it again | two pages whose only XObject is the same 800 x 800 RGB Flate image, quality "low": the image ends 200 x 200 | each image is recompressed once, so the image ends 400 x 400 at scale 1/2 | high, not executed | SharedImages.SharedImageScaledTwice | SharedImages.ScanOnceRecompressesOnce |
