/**
 * The responsive-image service: given the build-time catalog of image variants
 * and the screen geometry, it picks one pre-generated variant of an image.
 * The service's properties (`screenWidth`, `meta`, the derived `physicalWidth`)
 * are read-only configuration and are carried by a `Service` value.
 */
module ResponsiveImage {
  import opened Wrappers
  import opened WidthSelection

  /** One pre-generated rendition of an image: `{ width, height, image }`. */
  datatype Variant = Variant(width: int, height: int, image: string)

  /**
   * The service's configuration: the screen width, the device pixel ratio
   * (absent when the environment has none) and the build-time catalog.
   */
  datatype Service = Service(screenWidth: real, devicePixelRatio: Option<real>, meta: map<string, seq<Variant>>)

  datatype Error =
    | UnknownImage(name: string)            // the assertion in getImages fails
    | UndefinedImageData(name: string, width: int)  // `.image` read on `undefined`

  /** The initial `screenWidth`: the screen's width, or 320 without a screen. */
  function ScreenWidthOrDefault(screen: Option<real>): (r: real)
  {
    match screen
    case Some(w) => w
    case None => 320.0
  }

  /** A service as the framework creates it, before any reconfiguration. */
  function NewService(screen: Option<real>, devicePixelRatio: Option<real>, meta: map<string, seq<Variant>>): (svc: Service)
    ensures svc.screenWidth == (if screen.Some? then screen.value else 320.0)
    ensures svc.devicePixelRatio == devicePixelRatio && svc.meta == meta
  {
    Service(ScreenWidthOrDefault(screen), devicePixelRatio, meta)
  }

  /** `devicePixelRatio || 1`: an absent or zero ratio counts as 1. */
  function PixelRatioOrDefault(ratio: Option<real>): (r: real)
    ensures r != 0.0
    ensures ratio.Some? && ratio.value != 0.0 ==> r == ratio.value
    ensures ratio == None || ratio == Some(0.0) ==> r == 1.0
  {
    if ratio.Some? && ratio.value != 0.0 then ratio.value else 1.0
  }

  /** `size || 100`: an absent or zero size counts as 100 percent. */
  function SizeOrDefault(size: Option<real>): (r: real)
    ensures r != 0.0
    ensures size.Some? && size.value != 0.0 ==> r == size.value
    ensures size == None || size == Some(0.0) ==> r == 100.0
  {
    if size.Some? && size.value != 0.0 then size.value else 100.0
  }

  /** The screen width in physical pixels. */
  function PhysicalWidth(svc: Service): (r: real)
    ensures svc.screenWidth > 0.0 && PixelRatioOrDefault(svc.devicePixelRatio) > 0.0 ==> r > 0.0
  {
    svc.screenWidth * PixelRatioOrDefault(svc.devicePixelRatio)
  }

  /**
   * The target width: the physical width scaled by `size` percent, where an
   * absent or zero size means the whole physical width.
   */
  function GetDestinationWidthBySize(svc: Service, size: Option<real>): (r: real)
    ensures size == None || size == Some(0.0) ==> r == PhysicalWidth(svc)
  {
    PhysicalWidth(svc) * (SizeOrDefault(size) / 100.0)
  }

  /** The variants of an image; an unknown name fails the assertion. */
  function GetImages(svc: Service, name: string): (r: Result<seq<Variant>, Error>)
    ensures r.Failure? <==> name !in svc.meta
    ensures r.Failure? ==> r.error == UnknownImage(name)
    ensures r.Success? ==> r.value == svc.meta[name]
  {
    if name in svc.meta then Success(svc.meta[name]) else Failure(UnknownImage(name))
  }

  /** `variants.map(item => item.width)`. */
  function Widths(vs: seq<Variant>): (ws: seq<int>)
    ensures |ws| == |vs|
    ensures forall i :: 0 <= i < |vs| ==> ws[i] == vs[i].width
  {
    if vs == [] then [] else [vs[0].width] + Widths(vs[1..])
  }

  /** The supported widths of an image, in the catalog's order. */
  function GetSupportedWidths(svc: Service, name: string): (r: Result<seq<int>, Error>)
    ensures r.Failure? <==> name !in svc.meta
    ensures r.Failure? ==> r.error == UnknownImage(name)
    ensures r.Success? ==> |r.value| == |svc.meta[name]|
    ensures r.Success? ==> forall i :: 0 <= i < |r.value| ==> r.value[i] == svc.meta[name][i].width
  {
    match GetImages(svc, name)
    case Failure(e) => Failure(e)
    case Success(vs) => Success(Widths(vs))
  }

  /**
   * The target width used to select a variant: `size || 100` is applied before
   * the call and again inside it, which is the same as applying it once.
   */
  function DestinationWidth(svc: Service, size: Option<real>): (r: real)
    ensures r == GetDestinationWidthBySize(svc, size)
  {
    GetDestinationWidthBySize(svc, Some(SizeOrDefault(size)))
  }

  /**
   * The supported width closest to the target: the best fit for the target
   * among the seed 0 and the image's widths.
   */
  function GetDestinationImageWidthBySize(svc: Service, name: string, size: Option<real>): (r: Result<int, Error>)
    ensures r.Failure? <==> name !in svc.meta
    ensures r.Failure? ==> r.error == UnknownImage(name)
    ensures r.Success? ==> IsBestFit(r.value, [0] + Widths(svc.meta[name]), DestinationWidth(svc, size))
  {
    var t := DestinationWidth(svc, size);
    match GetSupportedWidths(svc, name)
    case Failure(e) => Failure(e)
    case Success(ws) =>
      SelectIsBestFit(ws, t);
      Success(SelectWidth(ws, t))
  }

  /** `variants.findBy('width', w)`: the first variant of width `w`, if any. */
  function FindByWidth(vs: seq<Variant>, w: int): (r: Option<Variant>)
    ensures r.None? <==> forall i :: 0 <= i < |vs| ==> vs[i].width != w
    ensures r.Some? ==> exists i :: 0 <= i < |vs| && vs[i] == r.value && r.value.width == w
                                    && forall j :: 0 <= j < i ==> vs[j].width != w
  {
    if vs == [] then None
    else if vs[0].width == w then Some(vs[0])
    else
      var r := FindByWidth(vs[1..], w);
      assert forall i :: 1 <= i < |vs| ==> vs[i] == vs[1..][i - 1];
      r
  }

  /**
   * The variant of an image whose width is the selected one; `None` stands for
   * the `undefined` that `findBy` yields when no variant has that width.
   */
  function GetImageDataBySize(svc: Service, name: string, size: Option<real>): (r: Result<Option<Variant>, Error>)
    ensures r.Failure? <==> name !in svc.meta
    ensures r.Failure? ==> r.error == UnknownImage(name)
    ensures r.Success? ==> r.value == FindByWidth(svc.meta[name], GetDestinationImageWidthBySize(svc, name, size).value)
  {
    match GetDestinationImageWidthBySize(svc, name, size)
    case Failure(e) => Failure(e)
    case Success(w) =>
      match GetImages(svc, name)
      case Failure(e) => Failure(e)
      case Success(vs) => Success(FindByWidth(vs, w))
  }

  /** The URL of the selected variant; reading `.image` of `undefined` throws. */
  function GetImageBySize(svc: Service, name: string, size: Option<real>): (r: Result<string, Error>)
    ensures r.Success? <==> GetImageDataBySize(svc, name, size).Success? && GetImageDataBySize(svc, name, size).value.Some?
    ensures r.Success? ==> r.value == GetImageDataBySize(svc, name, size).value.value.image
    ensures name !in svc.meta ==> r == Failure(UnknownImage(name))
    ensures name in svc.meta && r.Failure? ==>
              r.error == UndefinedImageData(name, GetDestinationImageWidthBySize(svc, name, size).value)
  {
    match GetImageDataBySize(svc, name, size)
    case Failure(e) => Failure(e)
    case Success(None) => Failure(UndefinedImageData(name, GetDestinationImageWidthBySize(svc, name, size).value))
    case Success(Some(v)) => Success(v.image)
  }

  /**
   * A non-zero size gives the physical width times the size over 100; an
   * absent size, size 0 and size 100 all give the physical width, and applying
   * the default a second time changes nothing.
   */
  lemma TargetWidthDefaultSize(svc: Service, size: Option<real>)
    ensures size.Some? && size.value != 0.0 ==> GetDestinationWidthBySize(svc, size) == PhysicalWidth(svc) * size.value / 100.0
    ensures DestinationWidth(svc, size) == GetDestinationWidthBySize(svc, size)
    ensures DestinationWidth(svc, None) == DestinationWidth(svc, Some(0.0)) == DestinationWidth(svc, Some(100.0))
    ensures DestinationWidth(svc, None) == PhysicalWidth(svc)
  {
  }

  /** A positive physical width and size give a positive target; a negative size a negative one. */
  lemma TargetWidthSign(svc: Service, size: Option<real>)
    requires PhysicalWidth(svc) > 0.0
    ensures size.None? || size.value >= 0.0 ==> DestinationWidth(svc, size) > 0.0
    ensures size.Some? && size.value < 0.0 ==> DestinationWidth(svc, size) < 0.0
  {
    var p, s := PhysicalWidth(svc), SizeOrDefault(size);
    if s > 0.0 {
      assert p * (s / 100.0) > 0.0;
    } else {
      assert p * (s / 100.0) < 0.0;
    }
  }

  /** With a non-negative physical width, a larger effective size never gives a smaller target. */
  lemma TargetWidthMonotone(svc: Service, s1: Option<real>, s2: Option<real>)
    requires PhysicalWidth(svc) >= 0.0
    requires SizeOrDefault(s1) <= SizeOrDefault(s2)
    ensures DestinationWidth(svc, s1) <= DestinationWidth(svc, s2)
  {
    var p := PhysicalWidth(svc);
    var d := SizeOrDefault(s2) / 100.0 - SizeOrDefault(s1) / 100.0;
    assert d >= 0.0;
    assert p * d >= 0.0;
    assert p * (SizeOrDefault(s2) / 100.0) == p * (SizeOrDefault(s1) / 100.0) + p * d;
  }

  /** An absent size and size 0 select the same variant as size 100. */
  lemma ImageDataDefaultSize(svc: Service, name: string)
    ensures GetImageDataBySize(svc, name, None) == GetImageDataBySize(svc, name, Some(100.0))
    ensures GetImageDataBySize(svc, name, Some(0.0)) == GetImageDataBySize(svc, name, Some(100.0))
  {
    TargetWidthDefaultSize(svc, None);
    TargetWidthDefaultSize(svc, Some(0.0));
  }

  /** Every lookup fails with `UnknownImage` for a name the catalog does not hold. */
  lemma UnknownImageFails(svc: Service, name: string, size: Option<real>)
    requires name !in svc.meta
    ensures GetImages(svc, name) == Failure(UnknownImage(name))
    ensures GetSupportedWidths(svc, name) == Failure(UnknownImage(name))
    ensures GetDestinationImageWidthBySize(svc, name, size) == Failure(UnknownImage(name))
    ensures GetImageDataBySize(svc, name, size) == Failure(UnknownImage(name))
    ensures GetImageBySize(svc, name, size) == Failure(UnknownImage(name))
  {
  }

  /** All widths of the variants `vs` are positive. */
  ghost predicate PositiveWidths(vs: seq<Variant>)
  {
    forall i :: 0 <= i < |vs| ==> vs[i].width > 0
  }

  /**
   * For a known image with positive widths and a positive target, the selected
   * variant is the first variant of the smallest width reaching the target, or,
   * when no width reaches it, the first variant of the largest width.
   */
  lemma ImageDataIsBestFitVariant(svc: Service, name: string, size: Option<real>)
    requires name in svc.meta && |svc.meta[name]| > 0 && PositiveWidths(svc.meta[name])
    requires DestinationWidth(svc, size) > 0.0
    ensures GetImageDataBySize(svc, name, size).Success?
    ensures GetImageDataBySize(svc, name, size).value.Some?
    ensures var v := GetImageDataBySize(svc, name, size).value.value;
            var vs := svc.meta[name];
            exists k :: 0 <= k < |vs| && vs[k] == v && forall j :: 0 <= j < k ==> vs[j].width != v.width
    ensures var v := GetImageDataBySize(svc, name, size).value.value;
            var vs := svc.meta[name];
            var t := DestinationWidth(svc, size);
            (exists i :: 0 <= i < |vs| && vs[i].width as real >= t) ==>
              && v.width as real >= t
              && forall i :: 0 <= i < |vs| && vs[i].width as real >= t ==> v.width <= vs[i].width
    ensures var v := GetImageDataBySize(svc, name, size).value.value;
            var vs := svc.meta[name];
            var t := DestinationWidth(svc, size);
            (forall i :: 0 <= i < |vs| ==> vs[i].width as real < t) ==>
              forall i :: 0 <= i < |vs| ==> vs[i].width <= v.width
  {
    var vs, t := svc.meta[name], DestinationWidth(svc, size);
    var ws := Widths(vs);
    var w := SelectWidth(ws, t);
    assert GetDestinationImageWidthBySize(svc, name, size) == Success(w);
    SelectIsMember(ws, t);
    if exists i :: 0 <= i < |vs| && vs[i].width as real >= t {
      SelectSmallestSufficient(ws, t);
    } else {
      SelectFallsBackToLargest(ws, t);
    }
    var k :| 0 <= k < |ws| && ws[k] == w;
    assert vs[k].width == w;
  }

  /** For a known image, a larger effective size never selects a smaller width. */
  lemma SelectedWidthMonotone(svc: Service, name: string, s1: Option<real>, s2: Option<real>)
    requires name in svc.meta
    requires PhysicalWidth(svc) >= 0.0
    requires SizeOrDefault(s1) <= SizeOrDefault(s2)
    ensures GetDestinationImageWidthBySize(svc, name, s1).value <= GetDestinationImageWidthBySize(svc, name, s2).value
  {
    var ws := Widths(svc.meta[name]);
    TargetWidthMonotone(svc, s1, s2);
    SelectMonotone(ws, DestinationWidth(svc, s1), DestinationWidth(svc, s2));
  }

  /**
   * A negative size gives a negative target: the seed 0 is kept, no variant of
   * positive width matches it, and reading the URL fails.
   */
  lemma NegativeSizeFindsNoImage(svc: Service, name: string, size: real)
    requires name in svc.meta && PositiveWidths(svc.meta[name])
    requires PhysicalWidth(svc) > 0.0 && size < 0.0
    ensures GetDestinationImageWidthBySize(svc, name, Some(size)) == Success(0)
    ensures GetImageDataBySize(svc, name, Some(size)) == Success(None)
    ensures GetImageBySize(svc, name, Some(size)) == Failure(UndefinedImageData(name, 0))
  {
    var ws := Widths(svc.meta[name]);
    TargetWidthSign(svc, Some(size));
    SelectNonPositiveTarget(ws, DestinationWidth(svc, Some(size)));
  }

  /** A one-image catalog with widths 40 and 160, on a 100-pixel screen at ratio 2. */
  function HeroService(): (svc: Service)
  {
    Service(100.0, Some(2.0), map["hero" := [Variant(40, 20, "hero-40.jpg"), Variant(160, 80, "hero-160.jpg")]])
  }

  /**
   * Screen width 100 at pixel ratio 2 is 200 physical pixels; half of it is a
   * target of 100, which selects the 160-pixel variant.
   */
  lemma HeroScenario()
    ensures PhysicalWidth(HeroService()) == 200.0
    ensures GetImageBySize(HeroService(), "hero", Some(50.0)) == Success("hero-160.jpg")
  {
    var svc := HeroService();
    assert PhysicalWidth(svc) == 200.0;
    assert GetDestinationWidthBySize(svc, Some(50.0)) == 200.0 * 50.0 / 100.0;
    assert DestinationWidth(svc, Some(50.0)) == 100.0;
    assert Widths(svc.meta["hero"]) == [40, 160];
    assert SelectWidth([40, 160], 100.0) == 160;
  }

  /** A service on a 100-pixel screen without a pixel ratio, whose image `name` has widths 40, 80 and 160. */
  ghost predicate ThreeWidthService(svc: Service, name: string)
  {
    && svc.screenWidth == 100.0 && svc.devicePixelRatio == None
    && name in svc.meta && |svc.meta[name]| == 3
    && svc.meta[name][0].width == 40 && svc.meta[name][1].width == 80 && svc.meta[name][2].width == 160
  }

  /**
   * Size 0 means the full width, so the selection is not monotone across 0:
   * size 0 selects a wider variant than size 50.
   */
  lemma SizeZeroSelectsFullWidth(svc: Service, name: string)
    requires ThreeWidthService(svc, name)
    ensures GetDestinationImageWidthBySize(svc, name, Some(0.0)) == Success(160)
    ensures GetDestinationImageWidthBySize(svc, name, Some(50.0)) == Success(80)
  {
    var ws := Widths(svc.meta[name]);
    assert ws == [40, 80, 160];
    assert PhysicalWidth(svc) == 100.0;
    assert DestinationWidth(svc, Some(0.0)) == 100.0;
    assert SizeOrDefault(Some(50.0)) == 50.0;
    assert GetDestinationWidthBySize(svc, Some(50.0)) == 100.0 * (50.0 / 100.0);
    assert ws[2] as real >= 100.0 && ws[1] as real >= 50.0;
    SelectSmallestSufficient(ws, 100.0);
    SelectSmallestSufficient(ws, 50.0);
  }
}
