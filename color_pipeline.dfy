/** The per-pixel colour adjustment of `applyFiltersToCanvas`
    (src/app/components/ImageProcessor.js), in exact real arithmetic: exposure,
    contrast, saturation, temperature and tint, then a luma-selected highlights
    or shadows push, then a clamp to [0, 255]. Alpha is never read or written. */
module ColorPipeline {

  /** The slider values of the `filters` state. */
  datatype Filters = Filters(exposure: real, contrast: real, saturation: real,
                             temperature: real, tint: real, highlights: real, shadows: real)

  /** The initial `filters` state: every adjustment switched off. */
  const DefaultFilters := Filters(0.0, 1.0, 1.0, 0.0, 0.0, 0.0, 0.0)

  datatype Rgb = Rgb(r: real, g: real, b: real)

  predicate InRange(x: real) { 0.0 <= x <= 255.0 }

  predicate PixelInRange(p: Rgb) { InRange(p.r) && InRange(p.g) && InRange(p.b) }

  /** Adds `255 * exposure` to each channel. */
  function Exposure(f: Filters, p: Rgb): Rgb {
    Rgb(p.r + 255.0 * f.exposure, p.g + 255.0 * f.exposure, p.b + 255.0 * f.exposure)
  }

  /** Scales each channel's distance from 128 by `contrast`. */
  function Contrast(f: Filters, p: Rgb): Rgb {
    Rgb((p.r - 128.0) * f.contrast + 128.0, (p.g - 128.0) * f.contrast + 128.0,
        (p.b - 128.0) * f.contrast + 128.0)
  }

  /** Scales each channel's distance from the mean of the three by `saturation`. */
  function Saturation(f: Filters, p: Rgb): Rgb {
    var avg := (p.r + p.g + p.b) / 3.0;
    Rgb(avg + (p.r - avg) * f.saturation, avg + (p.g - avg) * f.saturation,
        avg + (p.b - avg) * f.saturation)
  }

  /** Red gains temperature and tint, green gains tint, blue loses temperature. */
  function TemperatureTint(f: Filters, p: Rgb): Rgb {
    Rgb(p.r + (f.temperature + f.tint), p.g + f.tint, p.b - f.temperature)
  }

  /** The luma weights 0.299, 0.587 and 0.114, exactly. */
  function Luma(p: Rgb): real {
    0.299 * p.r + 0.587 * p.g + 0.114 * p.b
  }

  /** The factor of the highlights/shadows step: `highlights` when luma
      exceeds 128, `shadows` otherwise. */
  function HighlightsShadowsAmount(f: Filters, p: Rgb): real {
    if Luma(p) > 128.0 then f.highlights else f.shadows
  }

  /** Pushes each channel away from 128 by `amount`. */
  function PushFromMidGrey(p: Rgb, amount: real): Rgb {
    Rgb(p.r + (p.r - 128.0) * amount, p.g + (p.g - 128.0) * amount, p.b + (p.b - 128.0) * amount)
  }

  function HighlightsShadows(f: Filters, p: Rgb): Rgb {
    PushFromMidGrey(p, HighlightsShadowsAmount(f, p))
  }

  /** `Math.min(255, Math.max(0, x))`. */
  function Clamp(x: real): (y: real)
    ensures InRange(y)
    ensures InRange(x) ==> y == x
    ensures x < 0.0 ==> y == 0.0
    ensures x > 255.0 ==> y == 255.0
  {
    if x < 0.0 then 0.0 else if x > 255.0 then 255.0 else x
  }

  function ClampPixel(p: Rgb): Rgb {
    Rgb(Clamp(p.r), Clamp(p.g), Clamp(p.b))
  }

  /** The pixel just before the highlights/shadows step. */
  function Graded(f: Filters, p: Rgb): Rgb {
    TemperatureTint(f, Saturation(f, Contrast(f, Exposure(f, p))))
  }

  /** The whole pipeline for one pixel, its steps in the source's order. */
  function AdjustPixel(f: Filters, p: Rgb): (q: Rgb)
    ensures PixelInRange(q)
  {
    ClampPixel(HighlightsShadows(f, Graded(f, p)))
  }

  /** With every slider at its default a pixel comes out as it went in. */
  lemma AdjustPixelDefaultIdentity(p: Rgb)
    requires PixelInRange(p)
    ensures AdjustPixel(DefaultFilters, p) == p
  {
    var f := DefaultFilters;
    assert Exposure(f, p) == p;
    assert Contrast(f, p) == p;
    assert Saturation(f, p) == p;
    assert TemperatureTint(f, p) == p;
    assert HighlightsShadows(f, p) == p;
  }

  /** Saturation 0 with neutral temperature and tint yields a grey pixel. */
  lemma AdjustPixelDesaturated(f: Filters, p: Rgb)
    requires f.saturation == 0.0 && f.temperature == 0.0 && f.tint == 0.0
    ensures var q := AdjustPixel(f, p); q.r == q.g == q.b
  {
    var s := Saturation(f, Contrast(f, Exposure(f, p)));
    assert s.r == s.g == s.b;
  }

  /** Full exposure cannot push white past 255. */
  lemma WhiteStaysWhite()
    ensures AdjustPixel(DefaultFilters.(exposure := 1.0), Rgb(255.0, 255.0, 255.0)) == Rgb(255.0, 255.0, 255.0)
  {
    var f := DefaultFilters.(exposure := 1.0);
    var over := Rgb(510.0, 510.0, 510.0);
    assert Exposure(f, Rgb(255.0, 255.0, 255.0)) == over;
    assert Contrast(f, over) == over;
    assert Saturation(f, over) == over;
    assert TemperatureTint(f, over) == over;
    assert HighlightsShadowsAmount(f, over) == 0.0;
    assert HighlightsShadows(f, over) == over;
  }

  /** Full negative exposure cannot push black below 0. */
  lemma BlackStaysBlack()
    ensures AdjustPixel(DefaultFilters.(exposure := -1.0), Rgb(0.0, 0.0, 0.0)) == Rgb(0.0, 0.0, 0.0)
  {
    var f := DefaultFilters.(exposure := -1.0);
    var under := Rgb(-255.0, -255.0, -255.0);
    assert Exposure(f, Rgb(0.0, 0.0, 0.0)) == under;
    assert Contrast(f, under) == under;
    assert Saturation(f, under) == under;
    assert TemperatureTint(f, under) == under;
    assert HighlightsShadowsAmount(f, under) == 0.0;
    assert HighlightsShadows(f, under) == under;
  }

  /** Above luma 128 the push does not depend on `shadows`; at or below 128
      (128 itself included) it does not depend on `highlights`. */
  lemma HighlightsShadowsSelects(f: Filters, g: Rgb, amount: real)
    ensures Luma(g) > 128.0 ==> HighlightsShadows(f.(shadows := amount), g) == HighlightsShadows(f, g)
    ensures Luma(g) <= 128.0 ==> HighlightsShadows(f.(highlights := amount), g) == HighlightsShadows(f, g)
  {
  }

  /** The steps before highlights/shadows read only their own sliders. */
  lemma GradedIgnoresPush(f: Filters, g: Filters, p: Rgb)
    requires f.exposure == g.exposure && f.contrast == g.contrast && f.saturation == g.saturation
    requires f.temperature == g.temperature && f.tint == g.tint
    ensures Graded(f, p) == Graded(g, p)
  {
    var e := Exposure(f, p);
    assert Exposure(g, p) == e;
    var c := Contrast(f, e);
    assert Contrast(g, e) == c;
    var s := Saturation(f, c);
    assert Saturation(g, c) == s;
  }

  /** Luma is read after temperature and tint, so the choice between
      `highlights` and `shadows` is made on the graded pixel. */
  lemma LumaSelectsAdjustment(f: Filters, p: Rgb, amount: real)
    ensures Luma(Graded(f, p)) > 128.0 ==> AdjustPixel(f.(shadows := amount), p) == AdjustPixel(f, p)
    ensures Luma(Graded(f, p)) <= 128.0 ==> AdjustPixel(f.(highlights := amount), p) == AdjustPixel(f, p)
  {
    var g := Graded(f, p);
    GradedIgnoresPush(f.(shadows := amount), f, p);
    GradedIgnoresPush(f.(highlights := amount), f, p);
    HighlightsShadowsSelects(f, g, amount);
  }

  /** The order of the steps matters: contrast reads exposure's result. On
      black, exposure 1 then contrast 2 gives (255 - 128) * 2 + 128, clamped to
      255, while the pipeline with those two steps swapped would give
      (0 - 128) * 2 + 128 + 255 = 127. */
  lemma StepOrderMatters()
    ensures var f := DefaultFilters.(exposure := 1.0, contrast := 2.0);
      var black := Rgb(0.0, 0.0, 0.0);
      AdjustPixel(f, black) == Rgb(255.0, 255.0, 255.0) &&
      ClampPixel(HighlightsShadows(f, TemperatureTint(f, Saturation(f, Exposure(f, Contrast(f, black))))))
        == Rgb(127.0, 127.0, 127.0)
  {
    var f := DefaultFilters.(exposure := 1.0, contrast := 2.0);
    var bright := Rgb(382.0, 382.0, 382.0);
    assert Graded(f, Rgb(0.0, 0.0, 0.0)) == bright;
    assert HighlightsShadows(f, bright) == bright;
    var mid := Rgb(127.0, 127.0, 127.0);
    assert Exposure(f, Contrast(f, Rgb(0.0, 0.0, 0.0))) == mid;
    assert Saturation(f, mid) == mid;
    assert TemperatureTint(f, mid) == mid;
    assert HighlightsShadowsAmount(f, mid) == 0.0;
    assert HighlightsShadows(f, mid) == mid;
  }

  /** The body of the pixel loop: the locals `r`, `g`, `b` reassigned step by
      step, then clamped. */
  method RunPixelSteps(f: Filters, r0: real, g0: real, b0: real) returns (r: real, g: real, b: real)
    ensures Rgb(r, g, b) == AdjustPixel(f, Rgb(r0, g0, b0))
  {
    ghost var p := Rgb(r0, g0, b0);
    r, g, b := r0, g0, b0;

    r := r + 255.0 * f.exposure;
    g := g + 255.0 * f.exposure;
    b := b + 255.0 * f.exposure;
    assert Rgb(r, g, b) == Exposure(f, p);

    r := (r - 128.0) * f.contrast + 128.0;
    g := (g - 128.0) * f.contrast + 128.0;
    b := (b - 128.0) * f.contrast + 128.0;
    ghost var contrasted := Rgb(r, g, b);
    assert contrasted == Contrast(f, Exposure(f, p));

    var avg := (r + g + b) / 3.0;
    r := avg + (r - avg) * f.saturation;
    g := avg + (g - avg) * f.saturation;
    b := avg + (b - avg) * f.saturation;
    assert Rgb(r, g, b) == Saturation(f, contrasted);

    r := r + (f.temperature + f.tint);
    g := g + f.tint;
    b := b - f.temperature;
    ghost var graded := Rgb(r, g, b);
    assert graded == Graded(f, p);

    var lum := 0.299 * r + 0.587 * g + 0.114 * b;
    assert lum == Luma(graded);
    if lum > 128.0 {
      r := r + (r - 128.0) * f.highlights;
      g := g + (g - 128.0) * f.highlights;
      b := b + (b - 128.0) * f.highlights;
    } else {
      r := r + (r - 128.0) * f.shadows;
      g := g + (g - 128.0) * f.shadows;
      b := b + (b - 128.0) * f.shadows;
    }
    assert Rgb(r, g, b) == PushFromMidGrey(graded, HighlightsShadowsAmount(f, graded));

    r := Clamp(r);
    g := Clamp(g);
    b := Clamp(b);
  }

  /** Pixel `k` of an RGBA buffer. */
  function PixelAt(s: seq<real>, k: nat): Rgb
    requires 4 * k + 3 < |s|
  {
    Rgb(s[4 * k], s[4 * k + 1], s[4 * k + 2])
  }

  /** The alpha byte of pixel `k`. */
  function AlphaAt(s: seq<real>, k: nat): real
    requires 4 * k + 3 < |s|
  {
    s[4 * k + 3]
  }

  /** The four bytes written back for one pixel. */
  function Quad(q: Rgb, alpha: real): seq<real> {
    [q.r, q.g, q.b, alpha]
  }

  /** Rewrites the colour of every RGBA pixel of `s` with `adjust`, four bytes
      at a time, and keeps each alpha byte. */
  function MapPixels(s: seq<real>, adjust: Rgb -> Rgb): (t: seq<real>)
    requires |s| % 4 == 0
    ensures |t| == |s|
  {
    if s == [] then []
    else
      var n := |s|;
      MapPixels(s[..n - 4], adjust) + Quad(adjust(Rgb(s[n - 4], s[n - 3], s[n - 2])), s[n - 1])
  }

  lemma {:induction false} MapPixelsPixel(s: seq<real>, adjust: Rgb -> Rgb, k: nat)
    requires |s| % 4 == 0 && 4 * k < |s|
    ensures PixelAt(MapPixels(s, adjust), k) == adjust(PixelAt(s, k))
    ensures AlphaAt(MapPixels(s, adjust), k) == AlphaAt(s, k)
  {
    var n := |s|;
    var init := s[..n - 4];
    if 4 * k < n - 4 {
      MapPixelsPixel(init, adjust, k);
      assert MapPixels(s, adjust)[..n - 4] == MapPixels(init, adjust);
    }
  }

  /** Appending a pixel to the input appends its rewritten bytes to the output. */
  lemma MapPixelsSnoc(s: seq<real>, adjust: Rgb -> Rgb, quad: seq<real>)
    requires |s| % 4 == 0 && |quad| == 4
    ensures MapPixels(s + quad, adjust) == MapPixels(s, adjust) + Quad(adjust(Rgb(quad[0], quad[1], quad[2])), quad[3])
  {
    assert (s + quad)[..|s|] == s;
  }

  function PixelAdjuster(f: Filters): Rgb -> Rgb {
    p => AdjustPixel(f, p)
  }

  /** The buffer the loop of `applyFiltersToCanvas` leaves behind. */
  function FilterBuffer(s: seq<real>, f: Filters): (t: seq<real>)
    requires |s| % 4 == 0
    ensures |t| == |s|
  {
    MapPixels(s, PixelAdjuster(f))
  }

  lemma FilterBufferSnoc(s: seq<real>, f: Filters, quad: seq<real>)
    requires |s| % 4 == 0 && |quad| == 4
    ensures FilterBuffer(s + quad, f) == FilterBuffer(s, f) + Quad(AdjustPixel(f, Rgb(quad[0], quad[1], quad[2])), quad[3])
  {
    MapPixelsSnoc(s, PixelAdjuster(f), quad);
  }

  /** Each pixel comes out as the pipeline applied to that pixel alone, with
      its alpha byte untouched. */
  lemma FilterBufferPixel(s: seq<real>, f: Filters, k: nat)
    requires |s| % 4 == 0 && 4 * k < |s|
    ensures PixelAt(FilterBuffer(s, f), k) == AdjustPixel(f, PixelAt(s, k))
    ensures AlphaAt(FilterBuffer(s, f), k) == AlphaAt(s, k)
  {
    MapPixelsPixel(s, PixelAdjuster(f), k);
  }

  /** Every colour byte of the result lies in [0, 255]; alpha is untouched. */
  lemma FilterBufferBounds(s: seq<real>, f: Filters)
    requires |s| % 4 == 0
    ensures forall k :: 0 <= k < |s| / 4 ==> PixelInRange(PixelAt(FilterBuffer(s, f), k))
    ensures forall k :: 0 <= k < |s| / 4 ==> AlphaAt(FilterBuffer(s, f), k) == AlphaAt(s, k)
  {
    forall k | 0 <= k < |s| / 4
      ensures PixelInRange(PixelAt(FilterBuffer(s, f), k))
      ensures AlphaAt(FilterBuffer(s, f), k) == AlphaAt(s, k)
    {
      FilterBufferPixel(s, f, k);
    }
  }

  /** Default filters leave a buffer of byte values unchanged. */
  lemma {:induction false} MapPixelsIdentity(s: seq<real>, adjust: Rgb -> Rgb)
    requires |s| % 4 == 0
    requires forall j :: 0 <= j < |s| ==> InRange(s[j])
    requires forall p :: PixelInRange(p) ==> adjust(p) == p
    ensures MapPixels(s, adjust) == s
  {
    if s != [] {
      var n := |s|;
      MapPixelsIdentity(s[..n - 4], adjust);
      assert PixelInRange(Rgb(s[n - 4], s[n - 3], s[n - 2]));
      assert s == s[..n - 4] + [s[n - 4], s[n - 3], s[n - 2], s[n - 1]];
    }
  }

  lemma FilterBufferDefaultIdentity(s: seq<real>)
    requires |s| % 4 == 0
    requires forall j :: 0 <= j < |s| ==> InRange(s[j])
    ensures FilterBuffer(s, DefaultFilters) == s
  {
    forall p | PixelInRange(p) ensures PixelAdjuster(DefaultFilters)(p) == p {
      AdjustPixelDefaultIdentity(p);
    }
    MapPixelsIdentity(s, PixelAdjuster(DefaultFilters));
  }
}
