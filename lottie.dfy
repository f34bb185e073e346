/** `createLottieJSON` (src/app/api/upload/route.js): one image asset and one
    single-frame image layer per input image, in input order. */
module LottieAssembly {
  import opened Results
  import opened Text

  /** One decoded image as the upload route collects it: its archive name,
      its bytes in base64, and the pixel size the image-size library reports. */
  datatype ImageRecord = ImageRecord(filename: string, data: string, width: int, height: int)

  /** A JSON number or array of numbers. */
  datatype Value = Scalar(x: real) | Vector(xs: seq<real>)

  /** A Lottie property `{ a, k }`; `a == 0` marks it as not animated. */
  datatype Property = Property(a: int, k: Value)

  /** The layer transform `ks`: opacity, rotation, position, anchor, scale. */
  datatype Transform = Transform(o: Property, r: Property, p: Property, a: Property, s: Property)

  datatype Asset = Asset(id: string, w: int, h: int, u: string, p: string, e: int)

  datatype Layer = Layer(ddd: int, ind: int, ty: int, nm: string, refId: string, sr: int,
                         ks: Transform, ao: int, ip: int, op: int, st: int, bm: int)

  datatype Marker = Marker(tm: real, cm: string, dr: real)

  datatype Document = Document(v: string, fr: int, ip: int, op: int, w: int, h: int, nm: string,
                               ddd: int, assets: seq<Asset>, layers: seq<Layer>, markers: seq<Marker>)

  /** What V8 throws when `images[0].width` is read on an empty list. */
  const EmptyListError := "Cannot read properties of undefined (reading 'width')"

  /** The data-URI prefix every asset gets, whatever the source format. */
  const PngDataUriPrefix := "data:image/png;base64,"

  function AssetId(index: nat): string {
    "image_" + DecimalString(index)
  }

  function Centre(img: ImageRecord): seq<real> {
    [img.width as real / 2.0, img.height as real / 2.0, 0.0]
  }

  function AssetOf(index: nat, img: ImageRecord): Asset {
    Asset(AssetId(index), img.width, img.height, "", PngDataUriPrefix + img.data, 1)
  }

  function LayerOf(index: nat, img: ImageRecord): Layer {
    Layer(0, index + 1, 2, img.filename, AssetId(index), 1,
          Transform(Property(0, Scalar(100.0)), Property(0, Scalar(0.0)),
                    Property(0, Vector(Centre(img))), Property(0, Vector(Centre(img))),
                    Property(0, Vector([100.0, 100.0, 100.0]))),
          0, index, index + 1, index, 0)
  }

  /** The document `createLottieJSON(images, fps)` returns, or the error it throws. */
  function Assemble(images: seq<ImageRecord>, fps: int): Result<Document> {
    if |images| == 0 then Failure(EmptyListError)
    else
      var n := |images|;
      Success(Document("5.5.9", fps, 0, n, images[0].width, images[0].height,
                       "Image Sequence Animation", 0,
                       seq(n, i requires 0 <= i < n => AssetOf(i, images[i])),
                       seq(n, i requires 0 <= i < n => LayerOf(i, images[i])),
                       []))
  }

  /** `createLottieJSON`: pushes an asset and a layer per image in a loop, then
      reads the first image's size for the canvas. */
  method CreateLottieJson(images: seq<ImageRecord>, fps: int) returns (r: Result<Document>)
    ensures r == Assemble(images, fps)
  {
    var layers: seq<Layer> := [];
    var assets: seq<Asset> := [];
    var index := 0;
    while index < |images|
      invariant 0 <= index <= |images|
      invariant |assets| == |layers| == index
      invariant forall k :: 0 <= k < index ==> assets[k] == AssetOf(k, images[k])
      invariant forall k :: 0 <= k < index ==> layers[k] == LayerOf(k, images[k])
    {
      var image := images[index];
      var id := "image_" + DecimalString(index);
      var width, height := image.width, image.height;
      var asset := Asset(id, width, height, "", PngDataUriPrefix + image.data, 1);
      assert asset == AssetOf(index, image);
      assets := assets + [asset];
      var centre := [width as real / 2.0, height as real / 2.0, 0.0];
      var layer := Layer(0, index + 1, 2, image.filename, id, 1,
                         Transform(Property(0, Scalar(100.0)), Property(0, Scalar(0.0)),
                                   Property(0, Vector(centre)), Property(0, Vector(centre)),
                                   Property(0, Vector([100.0, 100.0, 100.0]))),
                         0, index, index + 1, index, 0);
      assert layer == LayerOf(index, image);
      layers := layers + [layer];
      index := index + 1;
    }
    if |images| == 0 {
      return Failure(EmptyListError);
    }
    var n := |images|;
    assert assets == seq(n, i requires 0 <= i < n => AssetOf(i, images[i]));
    assert layers == seq(n, i requires 0 <= i < n => LayerOf(i, images[i]));
    r := Success(Document("5.5.9", fps, 0, |images|, images[0].width, images[0].height,
                          "Image Sequence Animation", 0, assets, layers, []));
  }

  /** Assembly fails exactly on an empty list, with the error the first-image
      lookup throws. */
  lemma AssembleFailsOnlyWhenEmpty(images: seq<ImageRecord>, fps: int)
    ensures Assemble(images, fps).Failure? <==> |images| == 0
    ensures Assemble(images, fps).Failure? ==> Assemble(images, fps).error == EmptyListError
  {
  }

  /** n images give n assets and n layers, a timeline of frames [0, n) at `fps`,
      and a canvas the size of the first image. */
  lemma AssembleShape(images: seq<ImageRecord>, fps: int)
    requires |images| > 0
    ensures var d := Assemble(images, fps).value;
      |d.assets| == |d.layers| == |images| &&
      d.ip == 0 && d.op == |images| && d.fr == fps &&
      d.w == images[0].width && d.h == images[0].height && d.markers == []
  {
  }

  /** Asset i carries image i's size and data; layer i is image i's, shown in
      frame slot [i, i+1), refers to asset i, and sits at its own image's centre
      with no transform. */
  lemma AssembleEntries(images: seq<ImageRecord>, fps: int, i: nat)
    requires i < |images|
    ensures var d := Assemble(images, fps).value;
      var asset, layer := d.assets[i], d.layers[i];
      asset.id == "image_" + DecimalString(i) && layer.refId == asset.id &&
      asset.w == images[i].width && asset.h == images[i].height &&
      asset.p == "data:image/png;base64," + images[i].data &&
      layer.nm == images[i].filename &&
      layer.ind == i + 1 && layer.ip == i && layer.op == i + 1 && layer.st == i &&
      layer.ks.p.k == layer.ks.a.k == Vector([images[i].width as real / 2.0, images[i].height as real / 2.0, 0.0]) &&
      layer.ks.o.k == Scalar(100.0) && layer.ks.r.k == Scalar(0.0) &&
      layer.ks.s.k == Vector([100.0, 100.0, 100.0])
  {
  }

  /** Asset ids are pairwise distinct. */
  lemma AssetIdsDistinct(images: seq<ImageRecord>, fps: int, i: nat, j: nat)
    requires i < |images| && j < |images| && i != j
    ensures Assemble(images, fps).value.assets[i].id != Assemble(images, fps).value.assets[j].id
  {
    if AssetId(i) == AssetId(j) {
      assert DecimalString(i) == AssetId(i)[6..] && DecimalString(j) == AssetId(j)[6..];
      DecimalStringInjective(i, j);
    }
  }

  /** Every asset is the target of exactly one layer: layer i. */
  lemma EachAssetReferencedOnce(images: seq<ImageRecord>, fps: int, i: nat)
    requires i < |images|
    ensures var d := Assemble(images, fps).value;
      (set j | 0 <= j < |d.layers| && d.layers[j].refId == d.assets[i].id) == {i}
  {
    var d := Assemble(images, fps).value;
    forall j | 0 <= j < |d.layers| && j != i
      ensures d.layers[j].refId != d.assets[i].id
    {
      AssetIdsDistinct(images, fps, j, i);
    }
  }

  /** At every frame of the timeline exactly one layer is visible. */
  lemma OneLayerPerFrame(images: seq<ImageRecord>, fps: int, t: nat)
    requires t < |images|
    ensures var d := Assemble(images, fps).value;
      (set j | 0 <= j < |d.layers| && d.layers[j].ip <= t < d.layers[j].op) == {t}
  {
    var d := Assemble(images, fps).value;
    assert t in (set j | 0 <= j < |d.layers| && d.layers[j].ip <= t < d.layers[j].op);
  }
}
