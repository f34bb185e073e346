/** The request handler `POST` of src/app/api/upload/route.js: select the
    PNG/JPEG entries of the uploaded archive, put them in natural order, read
    each one, and answer with the assembled Lottie document or an error. */
module UploadRoute {
  import opened Results
  import opened Text
  import opened Sequences
  import opened NaturalOrder
  import opened LottieAssembly

  /** One entry of the archive's `files` table, in table order, with what the
      collaborators report for it: its bytes in base64 and, for an image, its
      pixel size. Folder entries carry `dir`. */
  datatype ArchiveEntry = ArchiveEntry(name: string, dir: bool, base64: string, width: int, height: int)

  /** The archive's `files` table is an object keyed by entry name, so no
      two entries share a name. */
  predicate DistinctNames(archive: seq<ArchiveEntry>) {
    Distinct(EntryNames(archive))
  }

  /** A table as the archive library builds it: keyed by name, and every
      folder entry named with a trailing slash. */
  predicate ValidArchive(archive: seq<ArchiveEntry>) {
    DistinctNames(archive) &&
    forall i :: 0 <= i < |archive| && archive[i].dir ==> EndsWith(archive[i].name, "/")
  }

  /** The extension test of the filter: case-sensitive. */
  predicate IsSequenceImage(name: string) {
    EndsWith(name, ".png") || EndsWith(name, ".jpg") || EndsWith(name, ".jpeg")
  }

  /** `Object.keys(zip.files)`. */
  function EntryNames(archive: seq<ArchiveEntry>): (names: seq<string>)
    ensures |names| == |archive|
    ensures forall i :: 0 <= i < |archive| ==> names[i] == archive[i].name
  {
    Map(archive, (e: ArchiveEntry) => e.name)
  }

  /** The names the filter keeps, in table order. */
  function ImageNames(archive: seq<ArchiveEntry>): seq<string> {
    Filter(EntryNames(archive), IsSequenceImage)
  }

  /** `zip.file(name)`: the entry stored under `name`, or nothing for a
      folder or a name that is absent. */
  function FileOf(archive: seq<ArchiveEntry>, name: string): (r: Option<ArchiveEntry>)
    ensures r.Some? ==> r.value in archive && r.value.name == name && !r.value.dir
  {
    if archive == [] then None
    else if archive[|archive| - 1].name == name then
      (if archive[|archive| - 1].dir then None else Some(archive[|archive| - 1]))
    else FileOf(archive[..|archive| - 1], name)
  }

  /** The records the read loop collects for `names`, skipping names whose
      lookup gives nothing. */
  function LoadImages(names: seq<string>, archive: seq<ArchiveEntry>): seq<ImageRecord> {
    if names == [] then []
    else
      var name := names[|names| - 1];
      LoadImages(names[..|names| - 1], archive) +
      match FileOf(archive, name)
      case Some(e) => [ImageRecord(name, e.base64, e.width, e.height)]
      case None => []
  }

  datatype Body = LottieBody(lottie: Document) | ErrorBody(error: string)

  datatype Response = Response(status: int, body: Body)

  /** `NextResponse.json({ lottie })` on success; status 500 with the thrown
      message otherwise. */
  function Respond(r: Result<Document>): Response {
    match r
    case Success(d) => Response(200, LottieBody(d))
    case Failure(message) => Response(500, ErrorBody(message))
  }

  /** `POST` from the opened archive on: filter, sort in place, read, assemble. */
  method Post(archive: seq<ArchiveEntry>, fps: int) returns (resp: Response)
    requires DistinctNames(archive)
    ensures resp == Respond(Assemble(LoadImages(NaturalSort(ImageNames(archive)), archive), fps))
  {
    var imageFiles := Filter(EntryNames(archive), IsSequenceImage);
    var sorted := new string[|imageFiles|](i requires 0 <= i < |imageFiles| => imageFiles[i]);
    assert sorted[..] == imageFiles;
    SortNames(sorted);
    var images: seq<ImageRecord> := [];
    var i := 0;
    while i < sorted.Length
      invariant 0 <= i <= sorted.Length
      invariant images == LoadImages(sorted[..i], archive)
    {
      var imageFile := sorted[i];
      var file := FileOf(archive, imageFile);
      if file.Some? {
        images := images + [ImageRecord(imageFile, file.value.base64, file.value.width, file.value.height)];
      }
      assert sorted[..i + 1][..i] == sorted[..i];
      i := i + 1;
    }
    assert sorted[..] == sorted[..sorted.Length];
    var lottie := CreateLottieJson(images, fps);
    resp := Respond(lottie);
  }

  /** A name is kept exactly when it is an entry name ending in exactly ".png",
      ".jpg" or ".jpeg". */
  lemma ImageNamesSelected(archive: seq<ArchiveEntry>, name: string)
    ensures name in ImageNames(archive) <==>
      (exists i :: 0 <= i < |archive| && archive[i].name == name) &&
      (EndsWith(name, ".png") || EndsWith(name, ".jpg") || EndsWith(name, ".jpeg"))
  {
    FilterMembers(EntryNames(archive), IsSequenceImage);
    if name in EntryNames(archive) {
      var i :| 0 <= i < |archive| && EntryNames(archive)[i] == name;
    }
  }

  /** Each entry name is selected at most once. */
  lemma ImageNamesDistinct(archive: seq<ArchiveEntry>)
    requires DistinctNames(archive)
    ensures Distinct(ImageNames(archive))
  {
    FilterDistinct(EntryNames(archive), IsSequenceImage);
  }

  /** The extension test is case-sensitive. */
  lemma SequenceImageCaseSensitive()
    ensures !IsSequenceImage("A.PNG") && !IsSequenceImage("b.JPG") && IsSequenceImage("A.png")
  {
    assert "A.PNG"[1..] != ".png";
  }

  lemma ExampleSelection()
    ensures IsSequenceImage("a.png") && !IsSequenceImage("b.txt")
    ensures IsSequenceImage("c.jpeg") && !IsSequenceImage("d/")
  {
    assert "a.png"[1..] == ".png";
    assert "b.txt"[1..][1] == 't' && "b.txt"[0] == 'b';
    assert "c.jpeg"[1..] == ".jpeg";
  }

  lemma FilterFour(a: string, b: string, c: string, d: string)
    requires IsSequenceImage(a) && !IsSequenceImage(b) && IsSequenceImage(c) && !IsSequenceImage(d)
    ensures Filter([a, b, c, d], IsSequenceImage) == [a, c]
  {
    FilterSnoc([], a, IsSequenceImage);
    FilterSnoc([a], b, IsSequenceImage);
    FilterSnoc([a, b], c, IsSequenceImage);
    FilterSnoc([a, b, c], d, IsSequenceImage);
    assert [a, b, c, d] == [a, b, c] + [d] && [a, b, c] == [a, b] + [c];
    assert [a, b] == [a] + [b] && [a] == [] + [a];
  }

  /** Other files and folders drop out of the selection. */
  lemma ImageNamesExample()
    ensures ImageNames([ArchiveEntry("a.png", false, "", 1, 1), ArchiveEntry("b.txt", false, "", 0, 0),
                        ArchiveEntry("c.jpeg", false, "", 1, 1), ArchiveEntry("d/", true, "", 0, 0)])
            == ["a.png", "c.jpeg"]
  {
    var archive := [ArchiveEntry("a.png", false, "", 1, 1), ArchiveEntry("b.txt", false, "", 0, 0),
                    ArchiveEntry("c.jpeg", false, "", 1, 1), ArchiveEntry("d/", true, "", 0, 0)];
    assert EntryNames(archive) == ["a.png", "b.txt", "c.jpeg", "d/"];
    ExampleSelection();
    FilterFour("a.png", "b.txt", "c.jpeg", "d/");
  }

  lemma {:induction false} LoadImagesAll(names: seq<string>, archive: seq<ArchiveEntry>)
    requires forall n :: n in names ==> FileOf(archive, n).Some?
    ensures |LoadImages(names, archive)| == |names|
    ensures forall i :: 0 <= i < |names| ==> LoadImages(names, archive)[i].filename == names[i]
  {
    if names != [] {
      LoadImagesAll(names[..|names| - 1], archive);
    }
  }

  lemma {:induction false} FileOfFinds(archive: seq<ArchiveEntry>, name: string)
    requires ValidArchive(archive) && !EndsWith(name, "/")
    requires exists i :: 0 <= i < |archive| && archive[i].name == name
    ensures FileOf(archive, name).Some?
  {
    var last := archive[|archive| - 1];
    if last.name != name {
      var i :| 0 <= i < |archive| && archive[i].name == name;
      assert archive[..|archive| - 1][i] == archive[i];
      FileOfFinds(archive[..|archive| - 1], name);
    }
  }

  /** In a well-formed archive every sorted image name names a file entry,
      and sorting keeps the number of names. */
  lemma SortedNamesAreFiles(archive: seq<ArchiveEntry>)
    requires ValidArchive(archive)
    ensures var names := NaturalSort(ImageNames(archive));
      |names| == |ImageNames(archive)| && forall n :: n in names ==> FileOf(archive, n).Some?
  {
    var names := NaturalSort(ImageNames(archive));
    NaturalSortPermutes(ImageNames(archive));
    forall n | n in names ensures FileOf(archive, n).Some? {
      assert n in multiset(names);
      assert n in ImageNames(archive);
      ImageNamesSelected(archive, n);
      assert n[|n| - 1] == 'g';
      FileOfFinds(archive, n);
    }
    assert |multiset(names)| == |multiset(ImageNames(archive))|;
  }

  /** For a well-formed archive the response is an error exactly when no entry
      name passes the filter; it then carries status 500 and the thrown message.
      Otherwise the layers are the selected names in natural order, one layer
      per name. */
  lemma PostOutcome(archive: seq<ArchiveEntry>, fps: int)
    requires ValidArchive(archive)
    ensures var names := NaturalSort(ImageNames(archive));
      var resp := Respond(Assemble(LoadImages(names, archive), fps));
      (resp.status == 500 <==> ImageNames(archive) == []) &&
      (resp.status == 500 ==> resp.body == ErrorBody(EmptyListError)) &&
      (resp.status == 200 ==>
         (|resp.body.lottie.layers| == |names| &&
          (forall i :: 0 <= i < |names| ==> resp.body.lottie.layers[i].nm == names[i]) &&
          forall i, j :: 0 <= i < j < |names| ==> resp.body.lottie.layers[i].nm != resp.body.lottie.layers[j].nm))
  {
    var names := NaturalSort(ImageNames(archive));
    SortedNamesAreFiles(archive);
    LoadImagesAll(names, archive);
    ImageNamesDistinct(archive);
    NaturalSortDistinct(ImageNames(archive));
  }
}
