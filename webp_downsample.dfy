/** The pure parts of the PNG-to-WebP converter
    (src/app/components/webpDownsample.js): which entries are converted, what
    each output entry is called, and the size the image is redrawn at. */
module WebpDownsample {
  import opened Results
  import opened Text
  import opened Sequences

  /** `pat` occurs in `s` starting at index `k`. */
  predicate OccursAt(s: string, pat: string, k: nat) {
    k + |pat| <= |s| && s[k..k + |pat|] == pat
  }

  /** `s.indexOf(pat)`: the first index at which `pat` occurs. */
  function IndexOf(s: string, pat: string): (r: Option<nat>)
    ensures r.Some? ==> OccursAt(s, pat, r.value) && forall k :: 0 <= k < r.value ==> !OccursAt(s, pat, k)
    ensures r.None? ==> forall k :: 0 <= k <= |s| ==> !OccursAt(s, pat, k)
    decreases |s|
  {
    if |s| < |pat| then None
    else if s[..|pat|] == pat then Some(0)
    else
      match IndexOf(s[1..], pat)
      case None =>
        assert forall k :: 1 <= k <= |s| ==> (OccursAt(s, pat, k) <==> OccursAt(s[1..], pat, k - 1));
        None
      case Some(k) =>
        assert forall j :: 1 <= j <= |s| ==> (OccursAt(s, pat, j) <==> OccursAt(s[1..], pat, j - 1));
        Some(k + 1)
  }

  /** `s.replace(pat, rep)` with a string pattern and a replacement without
      `$` patterns such as `$&` or `$$`, which `rep` here never holds:
      only the first occurrence is replaced, and a string without one comes
      back unchanged. */
  function ReplaceFirst(s: string, pat: string, rep: string): string {
    match IndexOf(s, pat)
    case None => s
    case Some(k) => s[..k] + rep + s[k + |pat|..]
  }

  /** The selection test of the converter: case-sensitive. */
  predicate IsPngName(name: string) {
    EndsWith(name, ".png")
  }

  /** `file.name.replace(".png", ".webp")`: the name an entry is written under. */
  function WebpName(name: string): string {
    ReplaceFirst(name, ".png", ".webp")
  }

  /** One `outputZip.file(name, blob)` call: the source entry and the name. */
  datatype Write = Write(source: string, target: string)

  /** The writes the converter issues for the entry names of an archive, one
      per selected entry, in archive order, each under the name `rename`
      gives it. */
  function Writes(names: seq<string>, rename: string -> string): (ws: seq<Write>)
    ensures |ws| == |Filter(names, IsPngName)|
  {
    var selected := Filter(names, IsPngName);
    seq(|selected|, i requires 0 <= i < |selected| => Write(selected[i], rename(selected[i])))
  }

  /** The writes as the source issues them, renamed at the first ".png". */
  function ConversionWrites(names: seq<string>): seq<Write> {
    Writes(names, WebpName)
  }

  /** The names present in the output archive after the writes (a later write
      under an existing name replaces the earlier entry). */
  function OutputNames(ws: seq<Write>): set<string> {
    set i | 0 <= i < |ws| :: ws[i].target
  }

  /** What `convertAndDownload` does: with no file chosen it only alerts;
      otherwise it issues the conversion writes (with the corrected rename,
      see `WebpSuffixName`). */
  datatype Outcome = NoFileAlert | Converted(writes: seq<Write>)

  function ConvertAndDownload(input: Option<seq<string>>): Outcome {
    match input
    case None => NoFileAlert
    case Some(names) => Converted(CorrectedConversionWrites(names))
  }

  /** `img.width * (downsamplePercentage / 100)`, before the canvas truncates it. */
  function ScaledDimension(size: int, percent: real): real {
    size as real * (percent / 100.0)
  }

  /** An entry is converted exactly when its name ends exactly in ".png"
      (case-sensitive); each converted entry is written under its renamed
      name. */
  lemma WritesSelected(names: seq<string>, rename: string -> string, name: string)
    ensures (exists i :: 0 <= i < |Writes(names, rename)| && Writes(names, rename)[i].source == name) <==>
      name in names && EndsWith(name, ".png")
    ensures forall i :: 0 <= i < |Writes(names, rename)| ==>
      Writes(names, rename)[i].target == rename(Writes(names, rename)[i].source)
  {
    FilterMembers(names, IsPngName);
    var selected := Filter(names, IsPngName);
    if name in selected {
      var i :| 0 <= i < |selected| && selected[i] == name;
      assert Writes(names, rename)[i].source == name;
    }
  }

  /** Entry names in an archive are distinct, so no selected entry is
      written twice. */
  lemma WritesOnePerEntry(names: seq<string>, rename: string -> string)
    requires Distinct(names)
    ensures forall i, j :: 0 <= i < j < |Writes(names, rename)| ==>
      Writes(names, rename)[i].source != Writes(names, rename)[j].source
  {
    FilterDistinct(names, IsPngName);
  }

  /** The first ".png" of a converted name is replaced: the result is the
      name with ".webp" spliced in at the first occurrence, one character
      longer. */
  lemma WebpNameOfPng(name: string)
    requires IsPngName(name)
    ensures IndexOf(name, ".png").Some?
    ensures var k := IndexOf(name, ".png").value;
      WebpName(name) == name[..k] + ".webp" + name[k + 4..] &&
      forall j :: 0 <= j < k ==> !OccursAt(name, ".png", j)
    ensures |WebpName(name)| == |name| + 1
  {
    assert OccursAt(name, ".png", |name| - 4);
  }

  /** The rename splices ".webp" in at the first ".png" and keeps the rest. */
  lemma {:induction false} WebpNameAt(name: string, k: nat)
    requires OccursAt(name, ".png", k)
    requires forall j :: 0 <= j < k ==> name[j] != '.' || name[j + 1] != 'p'
    ensures WebpName(name) == name[..k] + ".webp" + name[k + 4..]
  {
    forall j | 0 <= j < k ensures !OccursAt(name, ".png", j) {
      if j + 4 <= |name| {
        assert name[j..j + 4][0] == name[j] && name[j..j + 4][1] == name[j + 1];
      }
    }
  }

  // The name is a parameter fixed by `requires` rather than a literal, so that
  // the solver does not unfold `IndexOf` on a literal argument without bound.
  lemma WebpNameOfDoubleExtension(s: string)
    requires s == "a.png.png"
    ensures WebpName(s) == "a.webp.png"
  {
    assert s[1..5] == ".png";
    WebpNameAt(s, 1);
    assert s[..1] == "a" && s[5..] == ".png";
  }

  // The name is a parameter fixed by `requires` rather than a literal, so that
  // the solver does not unfold `IndexOf` on a literal argument without bound.
  lemma WebpNameOfFrame(t: string)
    requires t == "frame1.png"
    ensures WebpName(t) == "frame1.webp"
  {
    assert t[6..10] == ".png";
    WebpNameAt(t, 6);
    assert t[..6] == "frame1" && t[10..] == "";
  }

  /** The first occurrence is not always the extension; a plain frame name
      gets the WebP extension in place of its own; the selection test is
      case-sensitive. */
  lemma WebpNameExample()
    ensures WebpName("a.png.png") == "a.webp.png"
    ensures WebpName("frame1.png") == "frame1.webp"
    ensures !IsPngName("A.PNG")
  {
    WebpNameOfDoubleExtension("a.png.png");
    WebpNameOfFrame("frame1.png");
    assert "A.PNG"[1..5] != ".png" by { assert "A.PNG"[1..5][1] == 'P'; }
  }

  // The name is a parameter fixed by `requires` rather than a literal, so that
  // the solver does not unfold `IndexOf` on a literal argument without bound.
  lemma WebpNameFirstCollider(a: string)
    requires a == ".webp.png.png"
    ensures IsPngName(a) && WebpName(a) == ".webp.webp.png"
  {
    assert a[5..9] == ".png" && a[9..] == ".png";
    assert a[1] != 'p' && a[2] != '.' && a[3] != '.' && a[4] != '.';
    WebpNameAt(a, 5);
    assert a[..5] == ".webp";
  }

  // The name is a parameter fixed by `requires` rather than a literal, so that
  // the solver does not unfold `IndexOf` on a literal argument without bound.
  lemma WebpNameSecondCollider(b: string)
    requires b == ".png.webp.png"
    ensures IsPngName(b) && WebpName(b) == ".webp.webp.png"
  {
    assert b[0..4] == ".png" && b[9..] == ".png";
    WebpNameAt(b, 0);
    assert b[4..] == ".webp.png";
  }

  /** Finding, as written: two different PNG names are renamed alike. */
  lemma WebpNameCollides()
    ensures IsPngName(".webp.png.png") && IsPngName(".png.webp.png")
    ensures WebpName(".webp.png.png") == WebpName(".png.webp.png") == ".webp.webp.png"
  {
    WebpNameFirstCollider(".webp.png.png");
    WebpNameSecondCollider(".png.webp.png");
  }

  /** Finding, as written: so an archive holding both entries yields two
      writes but one output entry; one conversion silently replaces the
      other. */
  lemma ConversionWritesCollide()
    ensures |ConversionWrites([".webp.png.png", ".png.webp.png"])| == 2
    ensures |OutputNames(ConversionWrites([".webp.png.png", ".png.webp.png"]))| == 1
  {
    var a, b := ".webp.png.png", ".png.webp.png";
    WebpNameCollides();
    FilterSnoc([], a, IsPngName);
    FilterSnoc([a], b, IsPngName);
    assert [a, b] == [a] + [b] && [a] == [] + [a];
    assert Filter([a, b], IsPngName) == [a, b];
    var ws := ConversionWrites([a, b]);
    assert ws[0].target == ".webp.webp.png" && ws[1].target == ".webp.webp.png";
    assert OutputNames(ws) == {".webp.webp.png"};
  }

  /** Corrected: only the ".png" extension at the end is replaced. */
  function WebpSuffixName(name: string): (r: string)
    ensures IsPngName(name) ==> EndsWith(r, ".webp") && |r| == |name| + 1
  {
    if IsPngName(name) then name[..|name| - 4] + ".webp" else name
  }

  /** Corrected writes: the same selection, renamed at the suffix. */
  function CorrectedConversionWrites(names: seq<string>): seq<Write> {
    Writes(names, WebpSuffixName)
  }

  /** With the suffix rename, distinct PNG names get distinct output names. */
  lemma WebpSuffixNameInjective(a: string, b: string)
    requires IsPngName(a) && IsPngName(b) && a != b
    ensures WebpSuffixName(a) != WebpSuffixName(b)
  {
    var ra, rb := WebpSuffixName(a), WebpSuffixName(b);
    assert a == ra[..|ra| - 5] + ".png";
    assert b == rb[..|rb| - 5] + ".png";
  }

  /** With the suffix rename, an archive of distinct names keeps every
      converted image: one output entry per selected entry. */
  lemma CorrectedOutputKeepsAll(names: seq<string>)
    requires Distinct(names)
    ensures |OutputNames(CorrectedConversionWrites(names))| == |CorrectedConversionWrites(names)|
  {
    var ws := CorrectedConversionWrites(names);
    var selected := Filter(names, IsPngName);
    FilterDistinct(names, IsPngName);
    forall i, j | 0 <= i < j < |ws| ensures ws[i].target != ws[j].target {
      WebpSuffixNameInjective(selected[i], selected[j]);
    }
    DistinctTargetsCount(ws);
  }

  /** With no file chosen nothing is converted; otherwise, for an archive
      (whose entry names are distinct), every PNG entry ends up as its own
      entry of the output archive. */
  lemma ConvertAndDownloadOutcome(input: Option<seq<string>>)
    requires input.Some? ==> Distinct(input.value)
    ensures ConvertAndDownload(input) == NoFileAlert <==> input.None?
    ensures input.Some? ==>
      |OutputNames(ConvertAndDownload(input).writes)| == |Filter(input.value, IsPngName)|
  {
    if input.Some? {
      CorrectedOutputKeepsAll(input.value);
    }
  }

  lemma {:induction false} DistinctTargetsCount(ws: seq<Write>)
    requires forall i, j :: 0 <= i < j < |ws| ==> ws[i].target != ws[j].target
    ensures |OutputNames(ws)| == |ws|
  {
    if ws != [] {
      var init := ws[..|ws| - 1];
      DistinctTargetsCount(init);
      assert OutputNames(ws) == OutputNames(init) + {ws[|ws| - 1].target};
      assert ws[|ws| - 1].target !in OutputNames(init);
    }
  }

  /** At the default of 100 percent the size is unchanged; for any slider
      value from 1 to 100 a positive size shrinks to a positive size no larger
      than the original. */
  lemma ScaledDimensionBounds(size: int, percent: real)
    ensures ScaledDimension(size, 100.0) == size as real
    ensures 1.0 <= percent <= 100.0 && size > 0 ==>
      0.0 < ScaledDimension(size, percent) <= size as real
  {
    if 1.0 <= percent <= 100.0 && size > 0 {
      assert size as real * (percent / 100.0) <= size as real * 1.0;
    }
  }
}
