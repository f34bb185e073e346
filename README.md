# ge-tools image-sequence core, in Dafny

This project models the three pieces of logic in the ge-tools web app that go
beyond plumbing. Each is stated as Dafny definitions with proved properties.

- **Image sequence to Lottie** (`src/app/api/upload/route.js`). The upload handler
  `POST` does four things:
  - it keeps the archive entries named `.png`, `.jpg` or `.jpeg` (case-sensitive);
  - it puts them in natural order with
    `localeCompare(…, { numeric: true, sensitivity: 'base' })` and a stable sort;
  - it reads each entry;
  - `createLottieJSON` turns the records into a Lottie document: one image asset
    and one single-frame image layer per image.

  An empty selection makes `createLottieJSON` throw, and `POST` then answers with
  status 500 and the message.
- **Batch image processor** (`src/app/components/ImageProcessor.js`).
  - `handleZipUpload` keeps the archive entries that are not folders and whose names
    end in `.jpg`, `.jpeg`, `.png` or `.webp`, ignoring case.
  - `applyFiltersToCanvas` walks the RGBA buffer four bytes at a time. It rewrites
    red, green and blue through exposure, contrast, saturation, temperature/tint, a
    luma-selected highlights or shadows push, and a clamp to [0, 255].
- **PNG to WebP converter** (`src/app/components/webpDownsample.js`).
  - It selects entries whose names end in `.png` and renames them with
    `String.replace(".png", ".webp")`.
  - It scales each image by the slider percentage.

Modules:

- `Results`: the `Option` and `Result` types.
- `Text`: character classes, lower-casing, `endsWith`, and decimal rendering.
- `Sequences`: `Array.prototype.filter`.
- `NaturalOrder`: the collation model and the sort.
  - It covers the pure stable insertion sort `NaturalSort` and the in-place array
    sort `SortNames` proved equal to it.
- `LottieAssembly`: `createLottieJSON`.
  - The pure document is `Assemble`; the loop method `CreateLottieJson` is proved
    equal to it.
- `UploadRoute`: `POST` from the opened archive on.
- `ColorPipeline`: the per-pixel pipeline as functions, and the buffer function
  `FilterBuffer` that specifies the loop.
- `ImageProcessor`: the component state as a class.
  - `HandleZipUpload` updates its fields.
  - `ApplyFiltersToCanvas` rewrites an `array<real>` in place and is proved equal to
    `FilterBuffer`.
- `WebpDownsample`: selection, renaming, the write plan and the size arithmetic.

Two behaviours of the code are worth stating outright:

- **Sort ties.** Names whose natural-order keys are equal (`A.png` and `a.png`,
  `f1.png` and `f01.png`) keep their archive order.
  - `localeCompare` with `sensitivity: 'base'` returns 0 for them, and
    `Array.prototype.sort` is stable.
  - `NaturalOrder.NaturalSortStable` states this.
- **Upload extension test.** In the upload route it is case-sensitive (`A.PNG` is
  dropped); only the batch processor ignores case.

An archive is given as the list of entries of its `files` table. That table is
an object keyed by entry name, so no two entries of the list share a name; the
operations that take an archive require this.

Natural order is modelled on ASCII names:

- A name is read as a sequence of collation keys:
  - a run of digits is one key, weighted by its numeric value;
  - a letter is one key, compared without case;
  - any other character is one key, weighted by its code.
- Punctuation sorts before numbers, and numbers before letters.
- Key sequences compare lexicographically, and a prefix comes first.

## Model

| member | source | states |
|---|---|---|
| Text.ParseDecimalString | src/app/api/upload/route.js:93 | the decimal rendering of an index used in asset ids reads back as that index |
| Text.DecimalStringInjective | src/app/api/upload/route.js:93 | distinct indices render as distinct decimal strings |
| Sequences.FilterMembers | src/app/api/upload/route.js:30-32 | `filter` keeps exactly the elements that satisfy the predicate |
| Sequences.FilterDistinct | src/app/api/upload/route.js:30-32 | filtering a list without repeats gives a list without repeats |
| Sequences.DistinctCounts | src/app/api/upload/route.js:35-37 | a list has no repeats exactly when no element occurs in it more than once |
| Sequences.FilterSnoc | src/app/api/upload/route.js:30-32 | filtering a list extended by one element extends the result by that element exactly when it passes |
| NaturalOrder.Keys | src/app/api/upload/route.js:36 | the collation keys of a name, front to back: each digit run is one key carrying its numeric value, each letter one key carrying its lower-case form, any other character one key carrying its code |
| NaturalOrder.LocaleCompare | src/app/api/upload/route.js:36 | the comparator returns 0 exactly for names with equal keys, ≤ 0 exactly when the first may precede the second, and ≥ 0 exactly for the converse |
| NaturalOrder.LocaleCompareIgnoresCase | src/app/api/upload/route.js:36 | letters compare without regard to case: every name has the same keys as its lower-cased form and compares equal to it |
| NaturalOrder.NumeralOrder | src/app/api/upload/route.js:36 | a run of digits compares by its numeric value: names that differ only in a numeral, with no digit on either side of it, compare as the two numbers do |
| NaturalOrder.LocaleCompareAntisymmetric | src/app/api/upload/route.js:36 | swapping the arguments negates the comparison |
| NaturalOrder.KeysAtMostTotal | src/app/api/upload/route.js:36 | any two names are comparable |
| NaturalOrder.KeysAtMostTransitive | src/app/api/upload/route.js:36 | the order is transitive |
| NaturalOrder.KeysAtMostAntisymmetric | src/app/api/upload/route.js:36 | names each at most the other have equal keys |
| NaturalOrder.NaturalSort | src/app/api/upload/route.js:35-37 | the order a stable sort with `LocaleCompare` gives: each name in turn is inserted after every earlier name that may precede it |
| NaturalOrder.NaturalSortPermutes | src/app/api/upload/route.js:35-37 | the sorted list holds the same names with the same multiplicities |
| NaturalOrder.NaturalSortSorted | src/app/api/upload/route.js:35-37 | every name of the sorted list may precede every later one |
| NaturalOrder.NaturalSortDistinct | src/app/api/upload/route.js:35-37 | sorting a list of distinct names gives a list of distinct names |
| NaturalOrder.NaturalSortStable | src/app/api/upload/route.js:35-37 | names that compare equal keep their input order |
| NaturalOrder.NaturalSortExample | src/app/api/upload/route.js:35-37 | `["f2.png","f10.png","f1.png"]` sorts to `["f1.png","f2.png","f10.png"]`, and `A.png` and `a.png` compare equal |
| NaturalOrder.InsertStableSplits | src/app/api/upload/route.js:35-37 | one sort step places the new name after the last name that may precede it |
| NaturalOrder.InsertAt | src/app/api/upload/route.js:35-37 | shifting the greater names of the sorted prefix right and dropping the new name in gives the stable insertion of that name, with the rest of the array unchanged |
| NaturalOrder.SortNames | src/app/api/upload/route.js:35-37 | the in-place sort leaves the array holding the natural sort of its old contents |
| LottieAssembly.Assemble | src/app/api/upload/route.js:86-143 | `createLottieJSON` as a value: version 5.5.9, the frame rate, `ip` 0 and `op` n, the first image's size, one image asset and one single-frame image layer per image; the error of reading `images[0].width` for an empty list |
| LottieAssembly.CreateLottieJson | src/app/api/upload/route.js:86-143 | the loop pushing one asset and one layer per image returns the document `Assemble` describes, or the empty-list error |
| LottieAssembly.AssembleFailsOnlyWhenEmpty | src/app/api/upload/route.js:128-134 | assembly fails exactly for an empty list, with the message of the failed `images[0].width` read |
| LottieAssembly.AssembleShape | src/app/api/upload/route.js:128-140 | n images give n assets and n layers, `ip` 0, `op` n, `fr` fps, the first image's size and no markers |
| LottieAssembly.AssembleEntries | src/app/api/upload/route.js:92-125 | asset i has id `image_i`, image i's size and a PNG data URI; layer i names image i, references asset i, has `ind` i+1, `ip`/`st` i, `op` i+1, sits at its own image's centre, with opacity 100, rotation 0 and scale 100 |
| LottieAssembly.AssetIdsDistinct | src/app/api/upload/route.js:93 | asset ids are pairwise distinct |
| LottieAssembly.EachAssetReferencedOnce | src/app/api/upload/route.js:92-111 | every asset is referenced by exactly one layer, layer i |
| LottieAssembly.OneLayerPerFrame | src/app/api/upload/route.js:121-122 | at each frame of the timeline exactly one layer is shown |
| UploadRoute.FileOf | src/app/api/upload/route.js:42-43 | a lookup that finds something finds a file entry of the archive with that name |
| UploadRoute.FileOfFinds | src/app/api/upload/route.js:42-43 | in a well-formed archive every entry name not ending in `/` is found |
| UploadRoute.IsSequenceImage | src/app/api/upload/route.js:31 | a name passes when it ends, case-sensitively, in `.png`, `.jpg` or `.jpeg` |
| UploadRoute.ImageNames | src/app/api/upload/route.js:30-32 | the entry names of the table, in table order, that pass `IsSequenceImage` |
| UploadRoute.ImageNamesSelected | src/app/api/upload/route.js:30-32 | a name is kept exactly when it is an entry name ending in `.png`, `.jpg` or `.jpeg` |
| UploadRoute.ImageNamesDistinct | src/app/api/upload/route.js:30-32 | in a table keyed by name, each entry name is selected at most once |
| UploadRoute.SequenceImageCaseSensitive | src/app/api/upload/route.js:31 | `A.PNG` and `b.JPG` are rejected and `A.png` is kept |
| UploadRoute.ImageNamesExample | src/app/api/upload/route.js:30-32 | a text file and a folder drop out, and the images keep table order |
| UploadRoute.LoadImages | src/app/api/upload/route.js:40-65 | the read loop: for each name in order, a record of the name, the base64 bytes and the pixel size of the entry `zip.file` finds, and nothing for a name it does not find |
| UploadRoute.LoadImagesAll | src/app/api/upload/route.js:41-65 | when every name is found, the read loop yields one record per name, named as the name, in order |
| UploadRoute.SortedNamesAreFiles | src/app/api/upload/route.js:30-43 | every sorted image name of a well-formed archive names a file entry, and sorting keeps the count |
| UploadRoute.Respond | src/app/api/upload/route.js:70-73 | a document is answered with status 200 and `{ lottie }`; an error with status 500 and `{ error: message }` |
| UploadRoute.Post | src/app/api/upload/route.js:10-73 | for a table keyed by name, the handler (filter, in-place sort, read loop, assembly, response) answers with the response of assembling the records of the sorted names |
| UploadRoute.PostOutcome | src/app/api/upload/route.js:68-73 | with writing the temporary copies taken to succeed, status is 500 exactly when no name passes the filter, with the thrown message as body; otherwise the layers are the selected names in natural order, one layer per distinct name |
| ColorPipeline.Clamp | src/app/components/ImageProcessor.js:138-140 | the clamped value lies in [0, 255], equals the input inside it, and is 0 below and 255 above |
| ColorPipeline.AdjustPixel | src/app/components/ImageProcessor.js:97-141 | every channel the pipeline writes lies in [0, 255] |
| ColorPipeline.AdjustPixelDefaultIdentity | src/app/components/ImageProcessor.js:13-21 | with the initial filter values a pixel in range comes out unchanged |
| ColorPipeline.AdjustPixelDesaturated | src/app/components/ImageProcessor.js:113-140 | saturation 0 with neutral temperature and tint gives a grey pixel |
| ColorPipeline.WhiteStaysWhite | src/app/components/ImageProcessor.js:103-140 | white under exposure 1 stays white |
| ColorPipeline.BlackStaysBlack | src/app/components/ImageProcessor.js:103-140 | black under exposure −1 stays black |
| ColorPipeline.HighlightsShadowsSelects | src/app/components/ImageProcessor.js:124-135 | above luma 128 only `highlights` matters; at or below 128 only `shadows` |
| ColorPipeline.GradedIgnoresPush | src/app/components/ImageProcessor.js:102-121 | the steps before highlights/shadows do not read those two sliders |
| ColorPipeline.LumaSelectsAdjustment | src/app/components/ImageProcessor.js:124-135 | luma is taken after temperature/tint and selects which slider affects the output |
| ColorPipeline.StepOrderMatters | src/app/components/ImageProcessor.js:102-110 | contrast applied after exposure differs from the other order, so the order of the steps is observable |
| ColorPipeline.RunPixelSteps | src/app/components/ImageProcessor.js:98-140 | reassigning `r`, `g`, `b` step by step computes the pipeline function for that pixel |
| ColorPipeline.MapPixelsPixel | src/app/components/ImageProcessor.js:97-141 | each pixel of the mapped buffer is the adjustment of that pixel alone, and its alpha is kept |
| ColorPipeline.FilterBuffer | src/app/components/ImageProcessor.js:97-141 | the buffer the pixel loop leaves: every four-byte pixel has its red, green and blue replaced by `AdjustPixel` and its alpha kept; the length is unchanged |
| ColorPipeline.FilterBufferSnoc | src/app/components/ImageProcessor.js:97-141 | one more pixel in the input adds its adjusted bytes, alpha kept, to the output |
| ColorPipeline.FilterBufferPixel | src/app/components/ImageProcessor.js:97-141 | pixel k of the result is the pipeline applied to input pixel k; alpha byte k is unchanged |
| ColorPipeline.FilterBufferBounds | src/app/components/ImageProcessor.js:138-140 | every colour byte of the result lies in [0, 255] and every alpha byte is the input's |
| ColorPipeline.FilterBufferDefaultIdentity | src/app/components/ImageProcessor.js:13-21 | with the initial filters a buffer of byte values comes back unchanged |
| ImageProcessor.LastDot | src/app/components/ImageProcessor.js:35 | the result is the position of a dot with no dot after it, or none when the name has no dot |
| ImageProcessor.IsUploadImage | src/app/components/ImageProcessor.js:35 | a name passes when the text after its last dot, lower-cased, is `jpg`, `jpeg`, `png` or `webp` |
| ImageProcessor.UploadFilterMatchesPattern | src/app/components/ImageProcessor.js:35 | the extension test holds exactly when the lower-cased name ends with a dot and one of jpg, jpeg, png, webp |
| ImageProcessor.UploadFilterExamples | src/app/components/ImageProcessor.js:35 | `frames/A.PNG` is kept; `c.gif`, `x.png.txt` and a folder `y.jpg` are not |
| ImageProcessor.UploadedImages | src/app/components/ImageProcessor.js:34-40 | the images `handleZipUpload` collects: each entry that is not a folder and passes `IsUploadImage`, as its name and bytes, in archive order |
| ImageProcessor.UploadedImagesSelected | src/app/components/ImageProcessor.js:34-39 | an entry is loaded exactly when it is a file passing the extension test; archive order is kept |
| ImageProcessor.UploadedImagesDistinct | src/app/components/ImageProcessor.js:34-39 | in a table keyed by name, the loaded images have pairwise distinct file names |
| ImageProcessor.ImageProcessorState.constructor | src/app/components/ImageProcessor.js:10-23 | no images, not uploaded, filters at their initial values |
| ImageProcessor.ImageProcessorState.HandleZipUpload | src/app/components/ImageProcessor.js:27-48 | no file: nothing changes; otherwise, for a table keyed by name, the kept entries replace `images` and set `zipUploaded`, or, when none is kept, the state is unchanged and an alert is raised; `filters` never changes |
| ImageProcessor.ImageProcessorState.ApplyFiltersToCanvas | src/app/components/ImageProcessor.js:85-144 | after the loop the buffer is `FilterBuffer` of its old contents under the current filters |
| WebpDownsample.IndexOf | src/app/components/webpDownsample.js:43 | the result is the first position where the pattern occurs, or none when it does not occur |
| WebpDownsample.IsPngName | src/app/components/webpDownsample.js:36 | a name is converted when it ends, case-sensitively, in `.png` |
| WebpDownsample.ReplaceFirst | src/app/components/webpDownsample.js:43 | `String.prototype.replace` with a string pattern, for a replacement without `$` patterns (the only call passes `".webp"`): the first occurrence of the pattern is replaced, and a name without one is returned as it is |
| WebpDownsample.WebpName | src/app/components/webpDownsample.js:43 | the name a converted entry is written under, as written: the first `.png` replaced by `.webp` |
| WebpDownsample.WebpNameOfPng | src/app/components/webpDownsample.js:43 | a PNG name has `.webp` spliced in at its first `.png` and grows by one character |
| WebpDownsample.WebpNameExample | src/app/components/webpDownsample.js:36-43 | `a.png.png` becomes `a.webp.png`, `frame1.png` becomes `frame1.webp`, and `A.PNG` is not selected |
| WebpDownsample.Writes | src/app/components/webpDownsample.js:35-46 | one write per selected entry |
| WebpDownsample.WritesSelected | src/app/components/webpDownsample.js:35-46 | an entry is written exactly when it ends in `.png`, under its renamed name |
| WebpDownsample.WritesOnePerEntry | src/app/components/webpDownsample.js:35-46 | with distinct entry names no entry is written twice |
| WebpDownsample.ConvertAndDownload | src/app/components/webpDownsample.js:20-47 | no file chosen: an alert and nothing else; otherwise one write per `.png` entry, in archive order, using the corrected suffix rename `WebpSuffixName` rather than the rename as written |
| WebpDownsample.ConvertAndDownloadOutcome | src/app/components/webpDownsample.js:20-47 | with no file chosen it only alerts; otherwise every PNG entry becomes its own output entry |
| WebpDownsample.WebpNameCollides | src/app/components/webpDownsample.js:43 | `.webp.png.png` and `.png.webp.png` are both renamed `.webp.webp.png` |
| WebpDownsample.ConversionWritesCollide | src/app/components/webpDownsample.js:35-46 | as written, an archive with those two entries gives two writes but one output entry |
| WebpDownsample.WebpSuffixName | src/app/components/webpDownsample.js:43 | the corrected rename of a PNG name ends in `.webp` and is one character longer |
| WebpDownsample.WebpSuffixNameInjective | src/app/components/webpDownsample.js:43 | the corrected rename maps distinct PNG names to distinct names |
| WebpDownsample.CorrectedOutputKeepsAll | src/app/components/webpDownsample.js:35-46 | with the corrected rename, distinct entry names give as many output entries as writes |
| WebpDownsample.ScaledDimension | src/app/components/webpDownsample.js:77-78 | a side length times the percentage over 100, before the canvas truncates it |
| WebpDownsample.ScaledDimensionBounds | src/app/components/webpDownsample.js:77-78 | at 100 percent the size is unchanged; from 1 to 100 percent a positive size becomes positive and no larger |

## Left out

- **Archive, image and canvas libraries.** Archive reading and writing, image decoding, `image-size`, canvas drawing, `getImageData`/`putImageData` and WebP encoding are foreign code.
  - An archive is given as its list of entries, with the base64 bytes and pixel size each entry would yield.
  - The pixel buffer is given as an array of reals; its length is a multiple of four, as an RGBA buffer's always is.
- **Server plumbing in `POST`.** Form parsing, temporary files, the clean-up in `finally`, `uuid` and `NextResponse` are I/O.
  - A failed `mkdir` or `writeFile` of a temporary copy also makes `POST` answer 500. One archive that causes this holds both a file `a.png` and a file `a.png/b.png`: once `a.png` is written as a file, the folder `a.png` cannot be made. Such failures are not modelled.
  - `parseInt` of `fps` is not modelled: `fps` is an integer parameter, so a NaN frame rate is not represented.
  - A `sizeOf` failure on an unreadable image is not modelled either; the sizes are inputs.
- **Floating point.** All pixel arithmetic is exact real arithmetic. Not modelled:
  - IEEE-754 rounding and NaN;
  - the rounding the byte buffer applies when a channel is stored;
  - the truncation of a fractional canvas width or height.
- **Collation.** `localeCompare` is modelled on ASCII only. Accents, ICU punctuation weights and locale tailoring are not represented.
- **React and promises.** React state setters, alerts, the slider and file inputs, `loadImage`, `handleFilterChange`, `processAllImages` and the promise sequencing of the converter are UI and callback plumbing.
  - In `handleZipUpload` the returned flag stands for the alert.
  - The component state is a class whose fields are updated in place.
  - The object URLs of loaded images are left out, so a loaded image keeps its bytes.
- **Guards before the pixel loop.** Not modelled; the model starts at the pixel loop.
  - `applyFilters` returns early when `imgElement.current` is unset, and looks up the canvas and its context.
  - `applyFiltersToCanvas` returns early when `img` is unset, and draws the image before reading the buffer.
- **Order of writes into the output archive.** It depends on when each conversion finishes. The model writes in archive order, and its output names are a set.
- **`Post`, `HandleZipUpload`, `ConvertAndDownloadOutcome`.** They require the entry names to be distinct. That is how the archive library's `files` table is keyed, so it excludes no archive. What happens to an archive file holding two entries of the same name is decided inside the library and is not modelled.
- **`PostOutcome`.** It also needs every folder entry to end in `/`, as the archive library names them.
- **`WebpDownsample.ConvertAndDownload`.** It uses the corrected suffix rename, as described under Findings. The rename as written is `WebpDownsample.WebpName`, with its own lemmas.
- **Other source files.** `uploadForm.js`, `previewLottie.js`, `sidebar.js`, `footer.js`, `page.js`, `layout.js` and the Tailwind configuration are forms, players and styling with no logic to model.

## Findings

| source | as written | input that shows it | evidently intended | confidence | as-written member | corrected member |
|---|---|---|---|---|---|---|
| src/app/components/webpDownsample.js:43 | `file.name.replace(".png", ".webp")` replaces the first `.png` in the name, not the extension | an archive holding both `.webp.png.png` and `.png.webp.png`: both are written as `.webp.webp.png`, so one converted image replaces the other | replace only the `.png` extension at the end of the name, so that distinct PNG entries give distinct WebP entries | not executed; certain for these names, which are unusual in practice | WebpDownsample.ConversionWritesCollide | WebpDownsample.CorrectedOutputKeepsAll |
