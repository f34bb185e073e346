/** The state of the batch image processor (src/app/components/ImageProcessor.js)
    and the two operations on it that do real work: selecting the images of an
    uploaded archive, and rewriting a canvas's RGBA buffer with the current
    filters. */
module ImageProcessor {
  import opened Results
  import opened Text
  import opened Sequences
  import opened ColorPipeline

  /** One entry of the uploaded archive, in table order. */
  datatype ZipEntry = ZipEntry(name: string, dir: bool, blob: seq<bv8>)

  /** An image kept for processing; the object URL the component creates for
      it is represented by the blob it points to. */
  datatype LoadedImage = LoadedImage(filename: string, blob: seq<bv8>)

  /** The position of the last '.' of `s`, if any. */
  function LastDot(s: string): (r: Option<nat>)
    ensures r.Some? ==> r.value < |s| && s[r.value] == '.' && forall k :: r.value < k < |s| ==> s[k] != '.'
    ensures r.None? ==> forall k :: 0 <= k < |s| ==> s[k] != '.'
  {
    if s == [] then None
    else if s[|s| - 1] == '.' then Some(|s| - 1)
    else LastDot(s[..|s| - 1])
  }

  const UploadExtensions: seq<string> := ["jpg", "jpeg", "png", "webp"]

  /** The test `/\.(jpg|jpeg|png|webp)$/i`, read as: the text after the last
      dot is one of the extensions, ignoring case. */
  predicate IsUploadImage(name: string) {
    match LastDot(name)
    case None => false
    case Some(k) => Lower(name[k + 1..]) in UploadExtensions
  }

  /** Whether the upload loop keeps an entry. */
  predicate KeepEntry(e: ZipEntry) {
    !e.dir && IsUploadImage(e.name)
  }

  function Load(e: ZipEntry): LoadedImage {
    LoadedImage(e.name, e.blob)
  }

  function LoadAll(es: seq<ZipEntry>): (r: seq<LoadedImage>)
    ensures |r| == |es| && forall i :: 0 <= i < |es| ==> r[i] == Load(es[i])
  {
    seq(|es|, i requires 0 <= i < |es| => Load(es[i]))
  }

  /** The archive's `files` table is an object keyed by entry name, so no
      two entries share a name. */
  predicate DistinctNames(entries: seq<ZipEntry>) {
    Distinct(Map(entries, (e: ZipEntry) => e.name))
  }

  /** The images `handleZipUpload` collects, in archive order. */
  function UploadedImages(entries: seq<ZipEntry>): seq<LoadedImage> {
    LoadAll(Filter(entries, KeepEntry))
  }

  /** The last dot of `s` is at `m` when `s[m]` is a dot and none follows. */
  lemma LastDotAt(s: string, m: nat)
    requires m < |s| && s[m] == '.'
    requires forall k :: m < k < |s| ==> s[k] != '.'
    ensures LastDot(s) == Some(m)
  {
  }

  lemma LowerKeepsDots(c: char)
    ensures LowerChar(c) == '.' <==> c == '.'
  {
  }

  /** Lower-casing keeps dots where they are, so the dot of the suffix and
      the dot-free text after it are found in the name itself. */
  lemma SuffixDots(name: string, ext: string)
    requires forall i :: 0 <= i < |ext| ==> ext[i] != '.'
    requires EndsWith(Lower(name), "." + ext)
    ensures |ext| < |name| && name[|name| - |ext| - 1] == '.'
    ensures forall k :: |name| - |ext| - 1 < k < |name| ==> name[k] != '.'
  {
    var low := Lower(name);
    var suffix := "." + ext;
    var m := |name| - |suffix|;
    assert low[m..] == suffix;
    assert low[m] == low[m..][0] == '.';
    LowerKeepsDots(name[m]);
    forall k | m < k < |name| ensures name[k] != '.' {
      assert low[k] == low[m..][k - m] == suffix[k - m] == ext[k - m - 1];
      LowerKeepsDots(name[k]);
    }
  }

  /** A string ending with "." + `ext` has `ext` after the dot it ends with. */
  lemma DottedSuffixParts(low: string, ext: string)
    requires EndsWith(low, "." + ext)
    ensures low[|low| - |ext| - 1] == '.' && low[|low| - |ext|..] == ext
  {
    var m := |low| - |ext| - 1;
    assert low[m..][0] == ("." + ext)[0];
    assert low[m + 1..] == low[m..][1..];
  }

  /** A dot at `d` followed by `ext` to the end makes `s` end with "." + `ext`. */
  lemma DottedSuffixJoin(s: string, d: nat, ext: string)
    requires d < |s| && s[d] == '.' && s[d + 1..] == ext
    ensures EndsWith(s, "." + ext)
  {
    assert s[d..] == [s[d]] + s[d + 1..];
  }

  /** If the lower-cased name ends with "." + `ext`, its last |ext|
      characters are `ext` ignoring case. */
  lemma ExtensionAtEnd(name: string, ext: string)
    requires EndsWith(Lower(name), "." + ext)
    ensures Lower(name[|name| - |ext|..]) == ext
  {
    LowerSuffix(name, |name| - |ext|);
    DottedSuffixParts(Lower(name), ext);
  }

  /** Conversely, if the text after the last dot is `ext` ignoring case, the
      lower-cased name ends with "." + `ext`. */
  lemma EndsWithExtensionFrom(name: string, ext: string)
    requires LastDot(name).Some? && Lower(name[LastDot(name).value + 1..]) == ext
    ensures EndsWith(Lower(name), "." + ext)
  {
    var d := LastDot(name).value;
    LowerSuffix(name, d + 1);
    LowerKeepsDots(name[d]);
    DottedSuffixJoin(Lower(name), d, ext);
  }

  /** A dot followed by one of the extensions, at the end of the name,
      ignoring case. */
  predicate EndsWithUploadExtension(name: string) {
    exists ext :: ext in UploadExtensions && EndsWith(Lower(name), "." + ext)
  }

  lemma ExtensionsHaveNoDot(ext: string)
    requires ext in UploadExtensions
    ensures forall i :: 0 <= i < |ext| ==> ext[i] != '.'
  {
  }

  /** A dot at `m` with no dot after it, followed by an extension ignoring
      case, passes the test. */
  lemma UploadImageAfterDot(name: string, m: nat, ext: string)
    requires m < |name| && name[m] == '.'
    requires forall k :: m < k < |name| ==> name[k] != '.'
    requires Lower(name[m + 1..]) == ext && ext in UploadExtensions
    ensures IsUploadImage(name)
  {
    LastDotAt(name, m);
  }

  lemma DottedExtensionPasses(name: string, ext: string)
    requires forall i :: 0 <= i < |ext| ==> ext[i] != '.'
    requires ext in UploadExtensions && EndsWith(Lower(name), "." + ext)
    ensures IsUploadImage(name)
  {
    SuffixDots(name, ext);
    ExtensionAtEnd(name, ext);
    var m := |name| - |ext| - 1;
    assert name[m + 1..] == name[|name| - |ext|..];
    UploadImageAfterDot(name, m, ext);
  }

  lemma UploadFilterMatchesPatternOnly(name: string)
    requires IsUploadImage(name)
    ensures EndsWithUploadExtension(name)
  {
    var ext := Lower(name[LastDot(name).value + 1..]);
    EndsWithExtensionFrom(name, ext);
  }

  lemma UploadFilterMatchesPatternAll(name: string)
    requires EndsWithUploadExtension(name)
    ensures IsUploadImage(name)
  {
    var ext :| ext in UploadExtensions && EndsWith(Lower(name), "." + ext);
    ExtensionsHaveNoDot(ext);
    DottedExtensionPasses(name, ext);
  }

  /** The extension test is the regular expression's: a case-insensitive
      match of ".jpg", ".jpeg", ".png" or ".webp" at the end of the name. */
  lemma UploadFilterMatchesPattern(name: string)
    ensures IsUploadImage(name) <==> EndsWithUploadExtension(name)
  {
    if IsUploadImage(name) { UploadFilterMatchesPatternOnly(name); }
    if EndsWithUploadExtension(name) { UploadFilterMatchesPatternAll(name); }
  }

  /** Upper-case extensions pass; other extensions and folders do not. */
  lemma UploadFilterExamples()
    ensures KeepEntry(ZipEntry("frames/A.PNG", false, []))
    ensures !KeepEntry(ZipEntry("c.gif", false, []))
    ensures !KeepEntry(ZipEntry("x.png.txt", false, []))
    ensures !KeepEntry(ZipEntry("y.jpg", true, []))
  {
    LastDotAt("frames/A.PNG", 8);
    assert Lower("PNG") == "png";
    LastDotAt("c.gif", 1);
    assert Lower("gif") == "gif";
    LastDotAt("x.png.txt", 5);
    assert Lower("txt") == "txt";
  }

  /** In an archive keyed by name, each loaded image has its own file name. */
  lemma UploadedImagesDistinct(entries: seq<ZipEntry>)
    requires DistinctNames(entries)
    ensures forall i, j :: 0 <= i < j < |UploadedImages(entries)| ==>
      UploadedImages(entries)[i].filename != UploadedImages(entries)[j].filename
  {
    KeptNamesDistinct(entries);
  }

  lemma {:induction false} KeptNamesDistinct(entries: seq<ZipEntry>)
    requires DistinctNames(entries)
    ensures DistinctNames(Filter(entries, KeepEntry))
  {
    if entries != [] {
      var init, last := entries[..|entries| - 1], entries[|entries| - 1];
      KeptNamesDistinct(init);
      FilterMembers(init, KeepEntry);
      var kept := Filter(init, KeepEntry);
      forall e | e in kept ensures e.name != last.name {
        var i :| 0 <= i < |init| && init[i] == e;
        assert entries[i] == e;
      }
    }
  }

  /** An entry is loaded exactly when it is a file whose name passes the
      extension test; the loaded images keep the archive's order. */
  lemma UploadedImagesSelected(entries: seq<ZipEntry>)
    ensures var kept := Filter(entries, KeepEntry);
      UploadedImages(entries) == LoadAll(kept) &&
      (forall e :: e in kept <==> e in entries && !e.dir && IsUploadImage(e.name))
  {
    FilterMembers(entries, KeepEntry);
  }

  class ImageProcessorState {
    var images: seq<LoadedImage>
    var zipUploaded: bool
    var filters: Filters

    /** The component's initial state. */
    constructor ()
      ensures images == [] && !zipUploaded && filters == DefaultFilters
    {
      images := [];
      zipUploaded := false;
      filters := DefaultFilters;
    }

    /** `handleZipUpload`: nothing happens without a file; otherwise the kept
        entries replace `images` and set `zipUploaded`, unless there are none,
        in which case the state is left alone and an alert is raised. */
    method HandleZipUpload(upload: Option<seq<ZipEntry>>) returns (alerted: bool)
      requires upload.Some? ==> DistinctNames(upload.value)
      modifies this
      ensures filters == old(filters)
      ensures upload.None? ==> !alerted && images == old(images) && zipUploaded == old(zipUploaded)
      ensures upload.Some? ==>
        var loaded := UploadedImages(upload.value);
        alerted == (loaded == []) &&
        (loaded != [] ==> images == loaded && zipUploaded) &&
        (loaded == [] ==> images == old(images) && zipUploaded == old(zipUploaded))
    {
      if upload.None? {
        return false;
      }
      var entries := upload.value;
      var loadedImages: seq<LoadedImage> := [];
      var i := 0;
      while i < |entries|
        invariant 0 <= i <= |entries|
        invariant images == old(images) && zipUploaded == old(zipUploaded) && filters == old(filters)
        invariant loadedImages == UploadedImages(entries[..i])
      {
        var entry := entries[i];
        assert entries[..i + 1] == entries[..i] + [entry];
        FilterSnoc(entries[..i], entry, KeepEntry);
        if !entry.dir && IsUploadImage(entry.name) {
          loadedImages := loadedImages + [LoadedImage(entry.name, entry.blob)];
        }
        i := i + 1;
      }
      assert entries[..i] == entries;
      if |loadedImages| > 0 {
        images := loadedImages;
        zipUploaded := true;
        alerted := false;
      } else {
        alerted := true;
      }
    }

    /** The pixel loop of `applyFiltersToCanvas` over the canvas's RGBA buffer:
        steps through it four bytes at a time and overwrites red, green and
        blue with the adjusted values, reading `filters` once. */
    method ApplyFiltersToCanvas(data: array<real>)
      requires data.Length % 4 == 0
      modifies data
      ensures data[..] == FilterBuffer(old(data[..]), filters)
    {
      ghost var input := data[..];
      ghost var output := FilterBuffer(input, filters);
      ghost var pixels := data.Length / 4;
      ghost var k := 0;
      var i := 0;
      while i < data.Length
        invariant 0 <= k <= pixels && i == 4 * k && data.Length == 4 * pixels
        invariant forall j :: 0 <= j < i ==> data[j] == output[j]
        invariant forall j :: i <= j < data.Length ==> data[j] == input[j]
      {
        var r, g, b := RunPixelSteps(filters, data[i], data[i + 1], data[i + 2]);
        FilterBufferPixel(input, filters, k);
        assert PixelAt(input, k) == Rgb(data[i], data[i + 1], data[i + 2]);
        data[i] := r;
        data[i + 1] := g;
        data[i + 2] := b;
        assert AlphaAt(output, k) == AlphaAt(input, k);
        i := i + 4;
        k := k + 1;
      }
      assert data[..] == output;
    }
  }
}
