/** `CoordinateMapper`: the colour/depth match flag fixed at construction, the
    `Create` overloads that pick colour and depth profiles from a pipeline, and
    `MapColorToDepth`, which walks the clamped epipolar segment in depth space
    and keeps the pixel whose reprojection lands nearest the colour pixel. */
module CoordinateMapping {
  import opened Wrappers
  import opened Casts
  import opened StreamRequests
  import opened DeviceConfigurations
  import opened Projection
  import opened LineWalk

  const DefaultColorWidth := 640
  const DefaultColorHeight := 480
  const DefaultDepthWidth := 640
  const DefaultDepthHeight := 480

  datatype Mapper = Mapper(
    colorIntrinsics: Intrinsics,
    colorExtrinsics: Extrinsics,
    depthIntrinsics: Intrinsics,
    depthExtrinsics: Extrinsics,
    colorAndDepthMatch: bool)

  // ---------------------------------------------------------------------------
  // The match flag

  /** The intrinsics fields the constructor compares. */
  datatype IntrinsicsField = Width | Height | Ppx | Ppy | Fx | Fy | Model

  const AllIntrinsicsFields: set<IntrinsicsField> := {Width, Height, Ppx, Ppy, Fx, Fy, Model}

  predicate FieldAgrees(c: Intrinsics, d: Intrinsics, f: IntrinsicsField)
  {
    match f
    case Width => c.width == d.width
    case Height => c.height == d.height
    case Ppx => c.ppx == d.ppx
    case Ppy => c.ppy == d.ppy
    case Fx => c.fx == d.fx
    case Fy => c.fy == d.fy
    case Model => c.model == d.model
  }

  /** The compared fields on which colour and depth intrinsics agree. */
  function AgreeingFields(c: Intrinsics, d: Intrinsics): set<IntrinsicsField>
  {
    set f | f in AllIntrinsicsFields && FieldAgrees(c, d, f)
  }

  /** The flag as the constructor computes it, with `||`: set as soon as a
      single compared field agrees. */
  function ColorAndDepthMatch(c: Intrinsics, d: Intrinsics): (r: bool)
    ensures r <==> AgreeingFields(c, d) != {}
  {
    var r := c.width == d.width || c.height == d.height || c.ppx == d.ppx || c.ppy == d.ppy
      || c.fx == d.fx || c.fy == d.fy || c.model == d.model;
    assert c.width == d.width ==> Width in AgreeingFields(c, d);
    assert c.height == d.height ==> Height in AgreeingFields(c, d);
    assert c.ppx == d.ppx ==> Ppx in AgreeingFields(c, d);
    assert c.ppy == d.ppy ==> Ppy in AgreeingFields(c, d);
    assert c.fx == d.fx ==> Fx in AgreeingFields(c, d);
    assert c.fy == d.fy ==> Fy in AgreeingFields(c, d);
    assert c.model == d.model ==> Model in AgreeingFields(c, d);
    r
  }

  /** The evidently intended flag, with `&&`: every compared field agrees. */
  function IntrinsicsAgree(c: Intrinsics, d: Intrinsics): (r: bool)
    ensures r <==> AgreeingFields(c, d) == AllIntrinsicsFields
  {
    var r := c.width == d.width && c.height == d.height && c.ppx == d.ppx && c.ppy == d.ppy
      && c.fx == d.fx && c.fy == d.fy && c.model == d.model;
    assert !r ==> exists f :: f in AllIntrinsicsFields && !FieldAgrees(c, d, f);
    r
  }

  /** Identical intrinsics match under either flag, and the intended flag
      implies the one as written. */
  lemma IdenticalIntrinsicsMatch(c: Intrinsics, d: Intrinsics)
    ensures ColorAndDepthMatch(c, c) && IntrinsicsAgree(c, c)
    ensures IntrinsicsAgree(c, d) ==> ColorAndDepthMatch(c, d)
  {
    assert Width in AgreeingFields(c, c);
  }

  /** A colour camera and a depth camera that share only their width already
      count as matching, although they project the same point to different
      pixels: the optical centre (0, 0, 1) lands on (320, 240) in colour and on
      (300, 180) in depth. */
  lemma MatchFlagAcceptsDifferentCameras(ftheta: FthetaWarp)
    ensures var c := Intrinsics(640, 480, 320.0, 240.0, 600.0, 600.0, NoDistortion, [0.0, 0.0, 0.0, 0.0, 0.0]);
      var d := Intrinsics(640, 360, 300.0, 180.0, 400.0, 400.0, NoDistortion, [0.0, 0.0, 0.0, 0.0, 0.0]);
      var p := Vector3D(0.0, 0.0, 1.0);
      && ColorAndDepthMatch(c, d)
      && !IntrinsicsAgree(c, d)
      && Map3DTo2D(c, p, ftheta) == Vector2D(320.0, 240.0)
      && Map3DTo2D(d, p, ftheta) == Vector2D(300.0, 180.0)
  {
  }

  /** Under the intended flag colour and depth project and back-project alike
      (given the same distortion coefficients whenever the model uses them). */
  lemma AgreeingIntrinsicsMapAlike(c: Intrinsics, d: Intrinsics, p: Vector3D, pixel: Vector2D, depth: real, ftheta: FthetaWarp)
    requires IntrinsicsAgree(c, d)
    requires c.coeffs == d.coeffs || IsUndistorted(c.model)
    requires p.z != 0.0 && HasFocalLengths(c)
    ensures Map3DTo2D(c, p, ftheta) == Map3DTo2D(d, p, ftheta)
    ensures Map2DTo3D(c, pixel, depth) == Map2DTo3D(d, pixel, depth)
  {
    assert Distort(c, PerspectiveDivide(p), ftheta) == Distort(d, PerspectiveDivide(p), ftheta);
  }

  /** `Create(intrinsics, extrinsics, ...)`: stores the four structs and sets the
      flag as written. */
  function Create(ci: Intrinsics, ce: Extrinsics, di: Intrinsics, de: Extrinsics): (m: Mapper)
    ensures m.colorIntrinsics == ci && m.colorExtrinsics == ce
    ensures m.depthIntrinsics == di && m.depthExtrinsics == de
    ensures m.colorAndDepthMatch <==> AgreeingFields(ci, di) != {}
  {
    Mapper(ci, ce, di, de, ColorAndDepthMatch(ci, di))
  }

  /** The constructor with the intended flag. */
  function CreateCorrected(ci: Intrinsics, ce: Extrinsics, di: Intrinsics, de: Extrinsics): (m: Mapper)
    ensures m.colorIntrinsics == ci && m.colorExtrinsics == ce
    ensures m.depthIntrinsics == di && m.depthExtrinsics == de
    ensures m.colorAndDepthMatch <==> AgreeingFields(ci, di) == AllIntrinsicsFields
  {
    Mapper(ci, ce, di, de, IntrinsicsAgree(ci, di))
  }

  /** What the shortcut in `MapColorToDepth` stands for under the intended flag:
      when the two cameras share their intrinsics (without distortion) and sit
      at the same place, every depth along a colour pixel's ray projects back
      onto that very pixel in the depth image. */
  lemma CorrectedShortcutIsExact(ci: Intrinsics, di: Intrinsics, de: Extrinsics, pixel: Vector2D, depth: real, ftheta: FthetaWarp)
    requires IntrinsicsAgree(ci, di) && IsUndistorted(ci.model) && HasFocalLengths(ci) && depth != 0.0
    ensures var m := CreateCorrected(ci, IdentityExtrinsics, di, de);
      && m.colorAndDepthMatch
      && HasFocalLengths(m.colorIntrinsics)
      && RayInDepthFrame(m, pixel, depth).z == depth
      && MapWorldToDepth(m, RayInDepthFrame(m, pixel, depth), ftheta) == pixel
  {
    var m := CreateCorrected(ci, IdentityExtrinsics, di, de);
    var q := Map2DTo3D(ci, pixel, depth);
    IdentityExtrinsicsFixPoints(q);
    assert RayInDepthFrame(m, pixel, depth) == q;
    AgreeingIntrinsicsMapAlike(ci, di, q, pixel, depth, ftheta);
    PixelRoundTrip(ci, pixel, depth, ftheta);
  }

  // ---------------------------------------------------------------------------
  // Creating a mapper from a pipeline

  /** The negotiated pipeline profile; `streams` is `null` when `None`. */
  datatype PipelineProfile = PipelineProfile(streams: Option<seq<StreamProfile>>)

  /** The driver's `GetIntrinsics` and `GetExtrinsicsTo`, supplied by the caller. */
  type IntrinsicsSource = StreamProfile -> Intrinsics
  type ExtrinsicsSource = (StreamProfile, StreamProfile) -> Extrinsics

  /** A video profile of the given stream kind and size. */
  predicate SizedAs(p: StreamProfile, kind: Stream, w: int, h: int)
  {
    p.stream == kind && p.shape.Video? && p.shape.width == w && p.shape.height == h
  }

  /** A colour or depth profile that is not a video profile: reading its size
      through the `as VideoStreamProfile` cast dereferences `null`. */
  predicate LacksVideo(p: StreamProfile)
  {
    (p.stream == Stream.Color || p.stream == Stream.Depth) && p.shape.NonVideo?
  }

  /** `ps[i]` is the last profile of `ps` of the given kind and size. */
  ghost predicate IsLastSized(ps: seq<StreamProfile>, i: int, kind: Stream, w: int, h: int)
  {
    0 <= i < |ps| && SizedAs(ps[i], kind, w, h)
    && forall j :: i < j < |ps| ==> !SizedAs(ps[j], kind, w, h)
  }

  /** `sel` is what a "last one wins" scan for the kind and size leaves behind. */
  ghost predicate IsLastSelection(ps: seq<StreamProfile>, sel: Option<StreamProfile>, kind: Stream, w: int, h: int)
  {
    && (sel.None? <==> forall i :: 0 <= i < |ps| ==> !SizedAs(ps[i], kind, w, h))
    && (sel.Some? ==> exists i :: IsLastSized(ps, i, kind, w, h) && ps[i] == sel.value)
  }

  /** The last profile of `ps` of the given kind and size, if any. */
  function LastSized(ps: seq<StreamProfile>, kind: Stream, w: int, h: int): Option<StreamProfile>
    decreases |ps|
  {
    if ps == [] then None
    else if SizedAs(ps[|ps| - 1], kind, w, h) then Some(ps[|ps| - 1])
    else LastSized(ps[..|ps| - 1], kind, w, h)
  }

  /** `LastSized` finds nothing exactly when no profile has the kind and size,
      and otherwise finds the last one that has. */
  lemma {:induction false} LastSizedIsLast(ps: seq<StreamProfile>, kind: Stream, w: int, h: int)
    ensures IsLastSelection(ps, LastSized(ps, kind, w, h), kind, w, h)
    decreases |ps|
  {
    if ps != [] {
      var n := |ps| - 1;
      var init := ps[..n];
      if SizedAs(ps[n], kind, w, h) {
        assert IsLastSized(ps, n, kind, w, h);
      } else {
        LastSizedIsLast(init, kind, w, h);
        var sel := LastSized(init, kind, w, h);
        assert LastSized(ps, kind, w, h) == sel;
        if sel.Some? {
          var i :| IsLastSized(init, i, kind, w, h) && init[i] == sel.value;
          forall j | i < j < |ps|
            ensures !SizedAs(ps[j], kind, w, h)
          {
            if j < n {
              assert ps[j] == init[j];
            }
          }
          assert IsLastSized(ps, i, kind, w, h);
        } else {
          forall i | 0 <= i < |ps|
            ensures !SizedAs(ps[i], kind, w, h)
          {
            if i < n {
              assert ps[i] == init[i];
            }
          }
        }
      }
    }
  }

  datatype Selection = Selection(color: Option<StreamProfile>, depth: Option<StreamProfile>)

  /** The `foreach` over the pipeline's streams: each colour profile of the
      colour size replaces the colour choice, each depth profile of the depth
      size replaces the depth choice, and a colour or depth profile without a
      video size throws. */
  function SelectProfiles(ps: seq<StreamProfile>, cw: int, ch: int, dw: int, dh: int): (r: Result<Selection, Fault>)
    ensures r.Failure? <==> exists i :: 0 <= i < |ps| && LacksVideo(ps[i])
    ensures r.Failure? ==> r.error == NullReference
    decreases |ps|
  {
    if ps == [] then Success(Selection(None, None))
    else
      var init := ps[..|ps| - 1];
      var p := ps[|ps| - 1];
      assert forall i :: 0 <= i < |init| ==> init[i] == ps[i];
      match SelectProfiles(init, cw, ch, dw, dh)
      case Failure(e) => Failure(e)
      case Success(sel) =>
        if p.stream == Stream.Color then
          if p.shape.NonVideo? then Failure(NullReference)
          else if p.shape.width == cw && p.shape.height == ch then Success(sel.(color := Some(p)))
          else Success(sel)
        else if p.stream == Stream.Depth then
          if p.shape.NonVideo? then Failure(NullReference)
          else if p.shape.width == dw && p.shape.height == dh then Success(sel.(depth := Some(p)))
          else Success(sel)
        else Success(sel)
  }

  /** When the scan does not throw, it leaves the last colour profile of the
      colour size and the last depth profile of the depth size. */
  lemma {:induction false} SelectProfilesKeepsLast(ps: seq<StreamProfile>, cw: int, ch: int, dw: int, dh: int)
    requires SelectProfiles(ps, cw, ch, dw, dh).Success?
    ensures SelectProfiles(ps, cw, ch, dw, dh).value
         == Selection(LastSized(ps, Stream.Color, cw, ch), LastSized(ps, Stream.Depth, dw, dh))
    decreases |ps|
  {
    if ps != [] {
      var init := ps[..|ps| - 1];
      SelectProfilesKeepsLast(init, cw, ch, dw, dh);
    }
  }

  /** The pipeline, its stream collection, or the collection's contents are missing. */
  predicate HasNoStreams(pipeline: Option<PipelineProfile>)
  {
    pipeline.None? || pipeline.value.streams.None? || pipeline.value.streams.value == []
  }

  /** The mapper built from a chosen colour and depth profile. */
  function MapperFor(c: StreamProfile, d: StreamProfile, intrinsicsOf: IntrinsicsSource, extrinsicsTo: ExtrinsicsSource): Mapper
  {
    Create(intrinsicsOf(c), extrinsicsTo(c, d), intrinsicsOf(d), extrinsicsTo(d, c))
  }

  /** `Create(pipeline, colorWidth, colorHeight, depthWidth, depthHeight)`:
      `null` without streams or without a colour or depth profile of the
      requested size; otherwise the mapper of the last matching colour profile
      and the last matching depth profile. */
  function CreateFromPipeline(pipeline: Option<PipelineProfile>, cw: int, ch: int, dw: int, dh: int,
                              intrinsicsOf: IntrinsicsSource, extrinsicsTo: ExtrinsicsSource): (r: Result<Option<Mapper>, Fault>)
    ensures HasNoStreams(pipeline) ==> r == Success(None)
    ensures !HasNoStreams(pipeline) ==>
      var ps := pipeline.value.streams.value;
      && (r.Failure? <==> exists i :: 0 <= i < |ps| && LacksVideo(ps[i]))
      && (r == Success(None) <==>
            r.Success? && ((forall i :: 0 <= i < |ps| ==> !SizedAs(ps[i], Stream.Color, cw, ch))
                        || (forall i :: 0 <= i < |ps| ==> !SizedAs(ps[i], Stream.Depth, dw, dh))))
      && (r.Success? && r.value.Some? ==>
            exists i, j :: IsLastSized(ps, i, Stream.Color, cw, ch) && IsLastSized(ps, j, Stream.Depth, dw, dh)
                        && r.value.value == MapperFor(ps[i], ps[j], intrinsicsOf, extrinsicsTo))
  {
    if HasNoStreams(pipeline) then Success(None)
    else
      match SelectProfiles(pipeline.value.streams.value, cw, ch, dw, dh)
      case Failure(e) => Failure(e)
      case Success(sel) =>
        SelectProfilesKeepsLast(pipeline.value.streams.value, cw, ch, dw, dh);
        LastSizedIsLast(pipeline.value.streams.value, Stream.Color, cw, ch);
        LastSizedIsLast(pipeline.value.streams.value, Stream.Depth, dw, dh);
        if sel.color.None? || sel.depth.None? then Success(None)
        else Success(Some(MapperFor(sel.color.value, sel.depth.value, intrinsicsOf, extrinsicsTo)))
  }

  /** `Create(pipeline)`: the default 640x480 sizes for both streams, so a
      mapper comes only from the last 640x480 colour and depth profiles. */
  function CreateWithDefaults(pipeline: Option<PipelineProfile>, intrinsicsOf: IntrinsicsSource, extrinsicsTo: ExtrinsicsSource): (r: Result<Option<Mapper>, Fault>)
    ensures r == CreateFromPipeline(pipeline, 640, 480, 640, 480, intrinsicsOf, extrinsicsTo)
    ensures HasNoStreams(pipeline) ==> r == Success(None)
    ensures r.Success? && r.value.Some? ==>
      var ps := pipeline.value.streams.value;
      exists i, j :: IsLastSized(ps, i, Stream.Color, 640, 480) && IsLastSized(ps, j, Stream.Depth, 640, 480)
                  && r.value.value == MapperFor(ps[i], ps[j], intrinsicsOf, extrinsicsTo)
  {
    CreateFromPipeline(pipeline, DefaultColorWidth, DefaultColorHeight, DefaultDepthWidth, DefaultDepthHeight, intrinsicsOf, extrinsicsTo)
  }

  datatype Sizes = Sizes(colorWidth: int, colorHeight: int, depthWidth: int, depthHeight: int)

  const DefaultSizes := Sizes(DefaultColorWidth, DefaultColorHeight, DefaultDepthWidth, DefaultDepthHeight)

  /** `ps[i]` is the last request of `ps` for the given stream kind. */
  ghost predicate IsLastRequest(ps: seq<VideoStreamRequest>, i: int, kind: Stream)
  {
    0 <= i < |ps| && ps[i].stream == kind && forall j :: i < j < |ps| ==> ps[j].stream != kind
  }

  /** One iteration of the loop over the configuration's requests: a colour
      request sets the colour size, a depth request the depth size. */
  function TakeRequestedSize(s: Sizes, p: VideoStreamRequest): Sizes
  {
    if p.stream == Stream.Color then s.(colorWidth := p.width, colorHeight := p.height)
    else if p.stream == Stream.Depth then s.(depthWidth := p.width, depthHeight := p.height)
    else s
  }

  /** The sizes `Create(pipeline, configuration)` asks for: the loop over the
      requests, starting from 640x480 for both streams. */
  function RequestedSizes(ps: seq<VideoStreamRequest>): Sizes
    decreases |ps|
  {
    if ps == [] then DefaultSizes
    else TakeRequestedSize(RequestedSizes(ps[..|ps| - 1]), ps[|ps| - 1])
  }

  /** The size `s` holds for the colour stream, or else for the depth stream. */
  function SizeFor(s: Sizes, kind: Stream): (int, int)
  {
    if kind == Stream.Color then (s.colorWidth, s.colorHeight) else (s.depthWidth, s.depthHeight)
  }

  /** The colour (or depth) size is that of the last colour (or depth) request,
      or the default 640x480 when no request names the stream. */
  lemma {:induction false} RequestedSizesTakeLast(ps: seq<VideoStreamRequest>, kind: Stream)
    requires kind == Stream.Color || kind == Stream.Depth
    ensures (forall i :: 0 <= i < |ps| ==> ps[i].stream != kind) ==> SizeFor(RequestedSizes(ps), kind) == (640, 480)
    ensures forall i :: IsLastRequest(ps, i, kind) ==> SizeFor(RequestedSizes(ps), kind) == (ps[i].width, ps[i].height)
    decreases |ps|
  {
    if ps != [] {
      RequestedSizesTakeLast(ps[..|ps| - 1], kind);
      if ps[|ps| - 1].stream == kind {
        LastRequestSetsTheSize(ps, kind);
      } else {
        OtherRequestKeepsTheSize(ps, kind);
      }
    }
  }

  /** Both promises of `RequestedSizesTakeLast`, for one list of requests. */
  ghost predicate SizeIsLastRequested(ps: seq<VideoStreamRequest>, kind: Stream)
  {
    && ((forall i :: 0 <= i < |ps| ==> ps[i].stream != kind) ==> SizeFor(RequestedSizes(ps), kind) == (640, 480))
    && (forall i :: IsLastRequest(ps, i, kind) ==> SizeFor(RequestedSizes(ps), kind) == (ps[i].width, ps[i].height))
  }

  /** A final request for the stream decides its size. */
  lemma LastRequestSetsTheSize(ps: seq<VideoStreamRequest>, kind: Stream)
    requires kind == Stream.Color || kind == Stream.Depth
    requires ps != [] && ps[|ps| - 1].stream == kind
    ensures SizeIsLastRequested(ps, kind)
  {
    var n := |ps| - 1;
    assert RequestedSizes(ps) == TakeRequestedSize(RequestedSizes(ps[..n]), ps[n]);
    forall i | IsLastRequest(ps, i, kind)
      ensures i == n
    {
    }
  }

  /** A final request for another stream leaves the size as the earlier
      requests set it. */
  lemma OtherRequestKeepsTheSize(ps: seq<VideoStreamRequest>, kind: Stream)
    requires kind == Stream.Color || kind == Stream.Depth
    requires ps != [] && ps[|ps| - 1].stream != kind
    requires SizeIsLastRequested(ps[..|ps| - 1], kind)
    ensures SizeIsLastRequested(ps, kind)
  {
    var n := |ps| - 1;
    var init := ps[..n];
    assert RequestedSizes(ps) == TakeRequestedSize(RequestedSizes(init), ps[n]);
    assert SizeFor(RequestedSizes(ps), kind) == SizeFor(RequestedSizes(init), kind);
    forall i | IsLastRequest(ps, i, kind)
      ensures IsLastRequest(init, i, kind)
    {
      assert forall j :: i < j < n ==> init[j] == ps[j];
    }
    assert (forall i :: 0 <= i < |ps| ==> ps[i].stream != kind) ==> (forall i :: 0 <= i < n ==> init[i].stream != kind);
  }

  /** `Create(pipeline, configuration)`: a `null` configuration means the
      defaults; otherwise the sizes come from its requests, and a `null` request
      array throws before the pipeline is looked at. */
  function CreateFromConfiguration(pipeline: Option<PipelineProfile>, configuration: Option<DeviceConfiguration>,
                                   intrinsicsOf: IntrinsicsSource, extrinsicsTo: ExtrinsicsSource): (r: Result<Option<Mapper>, Fault>)
    ensures configuration.None? ==> r == CreateWithDefaults(pipeline, intrinsicsOf, extrinsicsTo)
    ensures configuration.Some? && configuration.value.profiles.None? ==> r == Failure(NullReference)
    ensures configuration.Some? && configuration.value.profiles.Some? ==>
      var s := RequestedSizes(configuration.value.profiles.value);
      r == CreateFromPipeline(pipeline, s.colorWidth, s.colorHeight, s.depthWidth, s.depthHeight, intrinsicsOf, extrinsicsTo)
  {
    match configuration
    case None => CreateWithDefaults(pipeline, intrinsicsOf, extrinsicsTo)
    case Some(c) =>
      if c.profiles.None? then Failure(NullReference)
      else
        var s := RequestedSizes(c.profiles.value);
        CreateFromPipeline(pipeline, s.colorWidth, s.colorHeight, s.depthWidth, s.depthHeight, intrinsicsOf, extrinsicsTo)
  }

  /** The default configuration asks for exactly the default sizes, so it builds
      the same mapper as no configuration at all. */
  lemma DefaultConfigurationUsesDefaultSizes(pipeline: Option<PipelineProfile>, intrinsicsOf: IntrinsicsSource, extrinsicsTo: ExtrinsicsSource)
    ensures RequestedSizes(Default().profiles.value) == DefaultSizes
    ensures CreateFromConfiguration(pipeline, Some(Default()), intrinsicsOf, extrinsicsTo)
         == CreateFromConfiguration(pipeline, None, intrinsicsOf, extrinsicsTo)
  {
    var ps := Default().profiles.value;
    RequestedSizesTakeLast(ps, Stream.Color);
    RequestedSizesTakeLast(ps, Stream.Depth);
    assert IsLastRequest(ps, 2, Stream.Color);
    assert IsLastRequest(ps, 0, Stream.Depth);
  }

  // ---------------------------------------------------------------------------
  // Colour-to-depth search

  /** Where a depth pixel at a given depth (metres) reprojects in colour space:
      the driver's depth-to-world, depth-to-colour transform and colour
      projection, supplied by the caller. */
  type Reprojection = (Vector2D, real) -> Vector2D

  /** The squared pixel distance the search minimises. */
  function SquaredDistance(a: Vector2D, b: Vector2D): (d: real)
    ensures 0.0 <= d
  {
    (a.y - b.y) * (a.y - b.y) + (a.x - b.x) * (a.x - b.x)
  }

  /** `MapWorldToColor`, `MapWorldToDepth`, `MapColorToWorld` and
      `MapDepthToWorld`: the projections with the mapper's own intrinsics.
      Without distortion each obeys the pinhole equations of its stream. */
  function MapWorldToColor(m: Mapper, p: Vector3D, ftheta: FthetaWarp): (r: Vector2D)
    requires p.z != 0.0
    ensures var i := m.colorIntrinsics;
      i.model != ModifiedBrownConrady && i.model != Ftheta ==>
        (r.x - i.ppx) * p.z == p.x * i.fx && (r.y - i.ppy) * p.z == p.y * i.fy
  {
    Map3DTo2D(m.colorIntrinsics, p, ftheta)
  }

  function MapWorldToDepth(m: Mapper, p: Vector3D, ftheta: FthetaWarp): (r: Vector2D)
    requires p.z != 0.0
    ensures var i := m.depthIntrinsics;
      i.model != ModifiedBrownConrady && i.model != Ftheta ==>
        (r.x - i.ppx) * p.z == p.x * i.fx && (r.y - i.ppy) * p.z == p.y * i.fy
  {
    Map3DTo2D(m.depthIntrinsics, p, ftheta)
  }

  function MapColorToWorld(m: Mapper, pixel: Vector2D, depth: real): (r: Vector3D)
    requires HasFocalLengths(m.colorIntrinsics)
    ensures r.z == depth
    ensures var i := m.colorIntrinsics;
      i.model != InverseBrownConrady ==>
        r.x * i.fx == depth * (pixel.x - i.ppx) && r.y * i.fy == depth * (pixel.y - i.ppy)
  {
    Map2DTo3D(m.colorIntrinsics, pixel, depth)
  }

  function MapDepthToWorld(m: Mapper, pixel: Vector2D, depth: real): (r: Vector3D)
    requires HasFocalLengths(m.depthIntrinsics)
    ensures r.z == depth
    ensures var i := m.depthIntrinsics;
      i.model != InverseBrownConrady ==>
        r.x * i.fx == depth * (pixel.x - i.ppx) && r.y * i.fy == depth * (pixel.y - i.ppy)
  {
    Map2DTo3D(m.depthIntrinsics, pixel, depth)
  }

  /** A depth pixel at a given depth, carried into the colour camera's frame by
      the depth extrinsics. */
  function DepthPixelInColorFrame(m: Mapper, pixel: Vector2D, depth: real): Vector3D
    requires HasFocalLengths(m.depthIntrinsics)
  {
    MapWorldToWorld(MapDepthToWorld(m, pixel, depth), m.depthExtrinsics)
  }

  /** The loop body's reprojection is defined at a depth pixel: the depth focal
      lengths are non-zero and the transformed point lies off the colour
      camera's image plane. */
  predicate ReprojectionIsDefined(m: Mapper, pixel: Vector2D, depth: real)
  {
    HasFocalLengths(m.depthIntrinsics) && DepthPixelInColorFrame(m, pixel, depth).z != 0.0
  }

  /** The loop body's reprojection of a depth pixel into colour space: to the
      world at its depth, through the depth extrinsics, onto the colour image. */
  function SourceReprojection(m: Mapper, pixel: Vector2D, depth: real, ftheta: FthetaWarp): Vector2D
    requires ReprojectionIsDefined(m, pixel, depth)
  {
    MapWorldToColor(m, DepthPixelInColorFrame(m, pixel, depth), ftheta)
  }

  /** `reproject` agrees with the mapper's own reprojection wherever the loop
      body would evaluate it (a non-zero depth) and real arithmetic is defined. */
  ghost predicate ReprojectsLikeTheSource(m: Mapper, reproject: Reprojection, ftheta: FthetaWarp)
  {
    forall pixel, depth :: depth != 0.0 && ReprojectionIsDefined(m, pixel, depth) ==>
      reproject(pixel, depth) == SourceReprojection(m, pixel, depth, ftheta)
  }

  /** With one undistorted camera model for both streams and identity depth
      extrinsics, a depth pixel at any non-zero depth reprojects onto itself. */
  lemma MatchedCamerasReprojectInPlace(m: Mapper, pixel: Vector2D, depth: real, ftheta: FthetaWarp)
    requires m.colorIntrinsics == m.depthIntrinsics && IsUndistorted(m.depthIntrinsics.model)
    requires HasFocalLengths(m.depthIntrinsics) && m.depthExtrinsics == IdentityExtrinsics && depth != 0.0
    ensures ReprojectionIsDefined(m, pixel, depth)
    ensures SourceReprojection(m, pixel, depth, ftheta) == pixel
  {
    var p := MapDepthToWorld(m, pixel, depth);
    IdentityExtrinsicsFixPoints(p);
    assert DepthPixelInColorFrame(m, pixel, depth) == p;
    PixelRoundTrip(m.depthIntrinsics, pixel, depth, ftheta);
  }

  /** So, with matched cameras and the source's reprojection, the colour pixel's
      own probe, when it has a depth, lies at distance 0: nothing is nearer. */
  lemma MatchedCamerasProbeColorPixelAtZero(m: Mapper, colorPixel: Vector2D, width: int, depthData: seq<real>,
                                            depthScale: real, reproject: Reprojection, ftheta: FthetaWarp)
    requires m.colorIntrinsics == m.depthIntrinsics && IsUndistorted(m.depthIntrinsics.model)
    requires HasFocalLengths(m.depthIntrinsics) && m.depthExtrinsics == IdentityExtrinsics
    requires ReprojectsLikeTheSource(m, reproject, ftheta)
    requires ReadProbe(colorPixel, width, depthData, depthScale, colorPixel, reproject).Success?
    ensures var q := ReadProbe(colorPixel, width, depthData, depthScale, colorPixel, reproject).value;
      q.distance == 0.0
  {
    var q := ReadProbe(colorPixel, width, depthData, depthScale, colorPixel, reproject).value;
    if q.depth != 0.0 {
      MatchedCamerasReprojectInPlace(m, colorPixel, q.depth, ftheta);
      assert reproject(colorPixel, q.depth) == colorPixel;
    }
  }

  /** The colour pixel's ray at `depth`, in the depth stream's frame. */
  function RayInDepthFrame(m: Mapper, colorPixel: Vector2D, depth: real): Vector3D
    requires HasFocalLengths(m.colorIntrinsics)
  {
    MapWorldToWorld(MapColorToWorld(m, colorPixel, depth), m.colorExtrinsics)
  }

  /** Real arithmetic is defined along the whole construction of the segment:
      the colour focal lengths are non-zero and both ends lie off the depth
      camera's image plane. */
  predicate SegmentIsDefined(m: Mapper, colorPixel: Vector2D, depthMin: real, depthMax: real)
  {
    HasFocalLengths(m.colorIntrinsics)
    && RayInDepthFrame(m, colorPixel, depthMin).z != 0.0
    && RayInDepthFrame(m, colorPixel, depthMax).z != 0.0
  }

  datatype Segment = Segment(start: Vector2D, end: Vector2D)

  /** The clamping used on the segment's ends: `(point, width, height) -> point`. */
  type Clamp = (Vector2D, int, int) -> Vector2D

  /** The depth-space segment the colour pixel's ray sweeps between the two
      depths, each end clamped by `clamp` to the depth image. */
  function SearchSegment(m: Mapper, colorPixel: Vector2D, depthMin: real, depthMax: real,
                         ftheta: FthetaWarp, clamp: Clamp): Segment
    requires SegmentIsDefined(m, colorPixel, depthMin, depthMax)
  {
    var w := m.depthIntrinsics.width;
    var h := m.depthIntrinsics.height;
    Segment(clamp(MapWorldToDepth(m, RayInDepthFrame(m, colorPixel, depthMin), ftheta), w, h),
            clamp(MapWorldToDepth(m, RayInDepthFrame(m, colorPixel, depthMax), ftheta), w, h))
  }

  /** `depthData[(int)p.Y * width + (int)p.X]`. */
  function DepthIndex(p: Vector2D, width: int): int
  {
    TruncateToInt(p.y) * width + TruncateToInt(p.x)
  }

  /** One iteration's reading: the pixel, its scaled depth, and the squared
      distance of its reprojection from the colour pixel (0 when skipped). */
  datatype Probe = Probe(pixel: Vector2D, depth: real, distance: real)

  /** The loop body's read of one visited pixel: its scaled depth and, unless
      the depth is 0, the squared distance of its reprojection from the colour
      pixel. An index outside the buffer throws. */
  function ReadProbe(p: Vector2D, width: int, depthData: seq<real>, depthScale: real,
                     colorPixel: Vector2D, reproject: Reprojection): (r: Result<Probe, Fault>)
    ensures r.Failure? <==> !(0 <= DepthIndex(p, width) < |depthData|)
    ensures r.Failure? ==> r.error == IndexOutOfRange
    ensures r.Success? ==>
      && r.value.pixel == p
      && r.value.depth == depthScale * depthData[DepthIndex(p, width)]
      && 0.0 <= r.value.distance
      && (r.value.depth != 0.0 ==> r.value.distance == SquaredDistance(reproject(p, r.value.depth), colorPixel))
  {
    var index := DepthIndex(p, width);
    if !(0 <= index < |depthData|) then Failure(IndexOutOfRange)
    else
      var depth := depthScale * depthData[index];
      Success(Probe(p, depth, if depth == 0.0 then 0.0 else SquaredDistance(reproject(p, depth), colorPixel)))
  }

  /** The reads over all visited pixels, in order, stopping at the first throw. */
  function ProbeLine(visited: seq<Vector2D>, width: int, depthData: seq<real>, depthScale: real,
                     colorPixel: Vector2D, reproject: Reprojection): (r: Result<seq<Probe>, Fault>)
    ensures r.Failure? <==> exists i :: 0 <= i < |visited| && !(0 <= DepthIndex(visited[i], width) < |depthData|)
    ensures r.Failure? ==> r.error == IndexOutOfRange
    ensures r.Success? ==> |r.value| == |visited|
    ensures r.Success? ==> forall i :: 0 <= i < |visited| ==>
      ReadProbe(visited[i], width, depthData, depthScale, colorPixel, reproject) == Success(r.value[i])
  {
    if visited == [] then Success([])
    else
      match ReadProbe(visited[0], width, depthData, depthScale, colorPixel, reproject)
      case Failure(e) => Failure(e)
      case Success(q) =>
        match ProbeLine(visited[1..], width, depthData, depthScale, colorPixel, reproject)
        case Failure(e) => Failure(e)
        case Success(rest) => Success([q] + rest)
  }

  /** The loop's running minimum; a negative distance means "none yet". */
  datatype Nearest = Nearest(minDistance: real, pixel: Vector2D)

  const NoneYet := Nearest(-1.0, Vector2D(0.0, 0.0))

  /** One loop iteration: skip a zero depth, otherwise take the probe when it is
      strictly nearer or when nothing has been taken yet. */
  function Consider(best: Nearest, q: Probe): (r: Nearest)
    ensures r == best || r == Nearest(q.distance, q.pixel)
    ensures q.depth == 0.0 ==> r == best
    ensures q.depth != 0.0 && 0.0 <= q.distance ==>
      && 0.0 <= r.minDistance <= q.distance
      && (0.0 <= best.minDistance ==> r.minDistance <= best.minDistance)
  {
    if q.depth == 0.0 then best
    else if q.distance < best.minDistance || best.minDistance < 0.0 then Nearest(q.distance, q.pixel)
    else best
  }

  /** The running minimum after the loop has run over `probes`, in order: still
      "none yet", or the distance and pixel of one probe with a measured depth. */
  function SelectNearest(probes: seq<Probe>): (r: Nearest)
    ensures r == NoneYet || exists k :: 0 <= k < |probes| && probes[k].depth != 0.0 && r == Nearest(probes[k].distance, probes[k].pixel)
    decreases |probes|
  {
    if probes == [] then NoneYet
    else
      var init := probes[..|probes| - 1];
      assert forall k :: 0 <= k < |init| ==> init[k] == probes[k];
      Consider(SelectNearest(init), probes[|probes| - 1])
  }

  /** `probes[k]` has a non-zero depth, no measured probe is nearer, and every
      earlier measured probe is strictly farther: the first strict minimum. */
  ghost predicate IsFirstNearest(probes: seq<Probe>, k: int)
  {
    && 0 <= k < |probes|
    && probes[k].depth != 0.0
    && forall j :: 0 <= j < |probes| && probes[j].depth != 0.0 ==>
         probes[k].distance <= probes[j].distance && (j < k ==> probes[k].distance < probes[j].distance)
  }

  /** The loop's result over `probes` is "none yet" when no probe has a measured
      depth, and otherwise the first strict minimum among those that have one. */
  ghost predicate SelectsFirstMinimum(probes: seq<Probe>)
  {
    && ((forall i :: 0 <= i < |probes| ==> probes[i].depth == 0.0) ==> SelectNearest(probes) == NoneYet)
    && ((exists i :: 0 <= i < |probes| && probes[i].depth != 0.0) ==>
          exists k :: IsFirstNearest(probes, k) && SelectNearest(probes) == Nearest(probes[k].distance, probes[k].pixel))
  }

  /** With non-negative distances the loop keeps the first probe of smallest
      distance among those with a measured depth, and keeps (0, 0) when no
      probe has one. */
  lemma {:induction false} SelectNearestIsFirstMinimum(probes: seq<Probe>)
    requires forall i :: 0 <= i < |probes| ==> 0.0 <= probes[i].distance
    ensures (forall i :: 0 <= i < |probes| ==> probes[i].depth == 0.0) ==> SelectNearest(probes) == NoneYet
    ensures (exists i :: 0 <= i < |probes| && probes[i].depth != 0.0) ==>
      exists k :: IsFirstNearest(probes, k) && SelectNearest(probes) == Nearest(probes[k].distance, probes[k].pixel)
    decreases |probes|
  {
    if probes != [] {
      var init := probes[..|probes| - 1];
      assert forall i :: 0 <= i < |init| ==> init[i] == probes[i];
      SelectNearestIsFirstMinimum(init);
      FirstMinimumStep(probes);
    }
  }

  /** One more probe keeps the first strict minimum, given that the probes
      before it did. */
  lemma FirstMinimumStep(probes: seq<Probe>)
    requires probes != []
    requires forall i :: 0 <= i < |probes| ==> 0.0 <= probes[i].distance
    requires SelectsFirstMinimum(probes[..|probes| - 1])
    ensures SelectsFirstMinimum(probes)
  {
    var n := |probes| - 1;
    var init := probes[..n];
    var best := SelectNearest(init);
    assert SelectNearest(probes) == Consider(best, probes[n]);
    if probes[n].depth == 0.0 {
      if exists i :: 0 <= i < n && init[i].depth != 0.0 {
        var k :| IsFirstNearest(init, k) && best == Nearest(init[k].distance, init[k].pixel);
        UnmeasuredProbeKeepsMinimum(probes, k);
      } else {
        assert forall i :: 0 <= i < |probes| ==> probes[i].depth == 0.0;
      }
    } else if forall i :: 0 <= i < n ==> init[i].depth == 0.0 {
      FirstMeasuredProbeIsMinimum(probes);
    } else {
      var k :| IsFirstNearest(init, k) && best == Nearest(init[k].distance, init[k].pixel);
      if probes[n].distance < best.minDistance {
        NearerProbeIsMinimum(probes, k);
      } else {
        FartherProbeKeepsMinimum(probes, k);
      }
    }
  }

  /** A last probe without a depth leaves the first strict minimum where it was. */
  lemma UnmeasuredProbeKeepsMinimum(probes: seq<Probe>, k: int)
    requires probes != [] && probes[|probes| - 1].depth == 0.0
    requires IsFirstNearest(probes[..|probes| - 1], k)
    ensures IsFirstNearest(probes, k)
  {
    var n := |probes| - 1;
    assert forall i :: 0 <= i < n ==> probes[..n][i] == probes[i];
  }

  /** The first probe with a depth is the first strict minimum. */
  lemma FirstMeasuredProbeIsMinimum(probes: seq<Probe>)
    requires probes != [] && probes[|probes| - 1].depth != 0.0
    requires forall i :: 0 <= i < |probes| - 1 ==> probes[i].depth == 0.0
    ensures IsFirstNearest(probes, |probes| - 1)
  {
  }

  /** A last probe strictly nearer than the minimum so far replaces it. */
  lemma NearerProbeIsMinimum(probes: seq<Probe>, k: int)
    requires probes != [] && probes[|probes| - 1].depth != 0.0
    requires IsFirstNearest(probes[..|probes| - 1], k)
    requires probes[|probes| - 1].distance < probes[k].distance
    ensures IsFirstNearest(probes, |probes| - 1)
  {
    var n := |probes| - 1;
    assert forall i :: 0 <= i < n ==> probes[..n][i] == probes[i];
  }

  /** A last probe no nearer than the minimum so far leaves it in place. */
  lemma FartherProbeKeepsMinimum(probes: seq<Probe>, k: int)
    requires probes != [] && probes[|probes| - 1].depth != 0.0
    requires IsFirstNearest(probes[..|probes| - 1], k)
    requires probes[k].distance <= probes[|probes| - 1].distance
    ensures IsFirstNearest(probes, k)
  {
    var n := |probes| - 1;
    assert forall i :: 0 <= i < n ==> probes[..n][i] == probes[i];
  }

  /** The search along a clamped segment with a given stepping function: walk,
      read each visited pixel (which may throw), and report the nearest pixel
      once the loop has ended; `NotTerminated` if the walk outlasts the fuel. */
  function SearchLine(seg: Segment, width: int, depthData: seq<real>, depthScale: real,
                      colorPixel: Vector2D, reproject: Reprojection, step: Step, fuel: nat): (r: Result<Vector2D, Fault>)
    ensures var visited := Walk(seg.start, seg.start, seg.end, step, fuel).visited;
      r == Failure(IndexOutOfRange) <==> exists i :: 0 <= i < |visited| && !(0 <= DepthIndex(visited[i], width) < |depthData|)
    ensures r == Failure(NotTerminated) ==> !Walk(seg.start, seg.start, seg.end, step, fuel).exited
    ensures r.Failure? ==> r.error == IndexOutOfRange || r.error == NotTerminated
    ensures var trace := Walk(seg.start, seg.start, seg.end, step, fuel);
      r.Success? <==> trace.exited && forall i :: 0 <= i < |trace.visited| ==> 0 <= DepthIndex(trace.visited[i], width) < |depthData|
  {
    var trace := Walk(seg.start, seg.start, seg.end, step, fuel);
    match ProbeLine(trace.visited, width, depthData, depthScale, colorPixel, reproject)
    case Failure(e) => Failure(e)
    case Success(probes) =>
      if !trace.exited then Failure(NotTerminated) else Success(SelectNearest(probes).pixel)
  }

  /** `MapColorToDepth`. When the flag is set the colour pixel is returned as
      it is, whatever the depth data. Otherwise the search runs along the
      segment clamped with `AdjustPointToBoundary` and stepped with
      `NextPointInLine`. */
  function MapColorToDepth(m: Mapper, colorPixel: Vector2D, depthData: seq<real>, depthScale: real,
                           depthMin: real, depthMax: real, reproject: Reprojection, ftheta: FthetaWarp,
                           fuel: nat): (r: Result<Vector2D, Fault>)
    requires m.colorAndDepthMatch || SegmentIsDefined(m, colorPixel, depthMin, depthMax)
    ensures m.colorAndDepthMatch ==> r == Success(colorPixel)
  {
    if m.colorAndDepthMatch then Success(colorPixel)
    else
      var seg := SearchSegment(m, colorPixel, depthMin, depthMax, ftheta, AdjustPointToBoundary);
      SearchLine(seg, m.depthIntrinsics.width, depthData, depthScale, colorPixel, reproject, NextPointInLine, fuel)
  }

  /** Each probe is the read of the pixel visited at the same step, and its
      distance is never negative. */
  lemma ProbesFollowTheWalk(visited: seq<Vector2D>, width: int, depthData: seq<real>, depthScale: real,
                            colorPixel: Vector2D, reproject: Reprojection)
    requires ProbeLine(visited, width, depthData, depthScale, colorPixel, reproject).Success?
    ensures var probes := ProbeLine(visited, width, depthData, depthScale, colorPixel, reproject).value;
      && |probes| == |visited|
      && forall i :: 0 <= i < |probes| ==> probes[i].pixel == visited[i] && 0.0 <= probes[i].distance
  {
    var probes := ProbeLine(visited, width, depthData, depthScale, colorPixel, reproject).value;
    forall i | 0 <= i < |probes|
      ensures probes[i].pixel == visited[i] && 0.0 <= probes[i].distance
    {
      assert ReadProbe(visited[i], width, depthData, depthScale, colorPixel, reproject) == Success(probes[i]);
    }
  }

  /** A search that returns has ended its walk, read every visited pixel, and
      returns the pixel of the loop's running minimum. */
  lemma SuccessfulSearchSelects(seg: Segment, width: int, depthData: seq<real>, depthScale: real,
                                colorPixel: Vector2D, reproject: Reprojection, step: Step, fuel: nat)
    requires SearchLine(seg, width, depthData, depthScale, colorPixel, reproject, step, fuel).Success?
    ensures var trace := Walk(seg.start, seg.start, seg.end, step, fuel);
      var probes := ProbeLine(trace.visited, width, depthData, depthScale, colorPixel, reproject);
      && trace.exited
      && probes.Success?
      && SearchLine(seg, width, depthData, depthScale, colorPixel, reproject, step, fuel).value == SelectNearest(probes.value).pixel
  {
  }

  /** A successful search returns the first visited pixel of strictly smallest
      reprojection distance among those with a non-zero depth, or (0, 0) when
      every visited pixel reads zero. */
  lemma SearchFindsFirstNearest(seg: Segment, width: int, depthData: seq<real>, depthScale: real,
                                colorPixel: Vector2D, reproject: Reprojection, step: Step, fuel: nat)
    requires SearchLine(seg, width, depthData, depthScale, colorPixel, reproject, step, fuel).Success?
    ensures var trace := Walk(seg.start, seg.start, seg.end, step, fuel);
      var probes := ProbeLine(trace.visited, width, depthData, depthScale, colorPixel, reproject).value;
      var found := SearchLine(seg, width, depthData, depthScale, colorPixel, reproject, step, fuel).value;
      && trace.exited
      && ((forall i :: 0 <= i < |probes| ==> probes[i].depth == 0.0) ==> found == Vector2D(0.0, 0.0))
      && ((exists i :: 0 <= i < |probes| && probes[i].depth != 0.0) ==>
            exists k :: IsFirstNearest(probes, k) && found == trace.visited[k])
  {
    var trace := Walk(seg.start, seg.start, seg.end, step, fuel);
    SuccessfulSearchSelects(seg, width, depthData, depthScale, colorPixel, reproject, step, fuel);
    var probes := ProbeLine(trace.visited, width, depthData, depthScale, colorPixel, reproject).value;
    var found := SearchLine(seg, width, depthData, depthScale, colorPixel, reproject, step, fuel).value;
    ProbesFollowTheWalk(trace.visited, width, depthData, depthScale, colorPixel, reproject);
    SelectNearestIsFirstMinimum(probes);
    if exists i :: 0 <= i < |probes| && probes[i].depth != 0.0 {
      var k :| IsFirstNearest(probes, k) && SelectNearest(probes) == Nearest(probes[k].distance, probes[k].pixel);
      assert found == trace.visited[k];
    } else {
      assert SelectNearest(probes) == NoneYet;
    }
  }

  /** When the segment is vertical the search as written never returns a pixel:
      it either throws on its first read or runs out of any fuel. */
  lemma VerticalSearchNeverReturns(m: Mapper, colorPixel: Vector2D, depthData: seq<real>, depthScale: real,
                                   depthMin: real, depthMax: real, reproject: Reprojection, ftheta: FthetaWarp, fuel: nat)
    requires !m.colorAndDepthMatch && SegmentIsDefined(m, colorPixel, depthMin, depthMax)
    requires var seg := SearchSegment(m, colorPixel, depthMin, depthMax, ftheta, AdjustPointToBoundary);
      seg.start.x == seg.end.x
    ensures MapColorToDepth(m, colorPixel, depthData, depthScale, depthMin, depthMax, reproject, ftheta, fuel).Failure?
  {
    var seg := SearchSegment(m, colorPixel, depthMin, depthMax, ftheta, AdjustPointToBoundary);
    VerticalWalkNeverEnds(seg.start, seg.end, fuel);
  }

  /** `MapColorToDepth` with the flag clear: a call that returns has ended its
      walk along the clamped segment and returns the first visited pixel of
      strictly smallest reprojection distance among those with a non-zero
      depth, or (0, 0) when every visited pixel reads zero. */
  lemma MapColorToDepthFindsFirstNearest(m: Mapper, colorPixel: Vector2D, depthData: seq<real>, depthScale: real,
                                         depthMin: real, depthMax: real, reproject: Reprojection, ftheta: FthetaWarp, fuel: nat)
    requires !m.colorAndDepthMatch && SegmentIsDefined(m, colorPixel, depthMin, depthMax)
    requires MapColorToDepth(m, colorPixel, depthData, depthScale, depthMin, depthMax, reproject, ftheta, fuel).Success?
    ensures var seg := SearchSegment(m, colorPixel, depthMin, depthMax, ftheta, AdjustPointToBoundary);
      var trace := Walk(seg.start, seg.start, seg.end, NextPointInLine, fuel);
      var probes := ProbeLine(trace.visited, m.depthIntrinsics.width, depthData, depthScale, colorPixel, reproject).value;
      var found := MapColorToDepth(m, colorPixel, depthData, depthScale, depthMin, depthMax, reproject, ftheta, fuel).value;
      && trace.exited
      && ((forall i :: 0 <= i < |probes| ==> probes[i].depth == 0.0) ==> found == Vector2D(0.0, 0.0))
      && ((exists i :: 0 <= i < |probes| && probes[i].depth != 0.0) ==>
            exists k :: IsFirstNearest(probes, k) && found == trace.visited[k])
  {
    var seg := SearchSegment(m, colorPixel, depthMin, depthMax, ftheta, AdjustPointToBoundary);
    SearchFindsFirstNearest(seg, m.depthIntrinsics.width, depthData, depthScale, colorPixel, reproject, NextPointInLine, fuel);
  }

  /** A mapper whose clamped segment collapses onto the corner (640, 480) of a
      640 x 480 depth image makes `MapColorToDepth` read past the buffer and
      throw, whatever the depth data. */
  lemma CornerSearchReadsPastTheBuffer(m: Mapper, colorPixel: Vector2D, depthData: seq<real>, depthScale: real,
                                       depthMin: real, depthMax: real, reproject: Reprojection, ftheta: FthetaWarp, fuel: nat)
    requires !m.colorAndDepthMatch && SegmentIsDefined(m, colorPixel, depthMin, depthMax)
    requires m.depthIntrinsics.width == 640 && |depthData| == 640 * 480 && 0 < fuel
    requires SearchSegment(m, colorPixel, depthMin, depthMax, ftheta, AdjustPointToBoundary)
          == Segment(Vector2D(640.0, 480.0), Vector2D(640.0, 480.0))
    ensures MapColorToDepth(m, colorPixel, depthData, depthScale, depthMin, depthMax, reproject, ftheta, fuel)
         == Failure(IndexOutOfRange)
  {
    CornerClampReadsPastTheBuffer(depthData, depthScale, colorPixel, reproject, fuel);
  }

  /** Clamping to `[0, width]` admits `x == width`, one column past the image:
      a colour ray that leaves the depth image at the bottom-right corner is
      clamped to (640, 480) and the search reads index 480 * 640 + 640 of a
      640 x 480 buffer. */
  lemma CornerClampReadsPastTheBuffer(depthData: seq<real>, depthScale: real, colorPixel: Vector2D,
                                      reproject: Reprojection, fuel: nat)
    requires |depthData| == 640 * 480 && 0 < fuel
    ensures var corner := AdjustPointToBoundary(Vector2D(700.0, 500.0), 640, 480);
      && corner == Vector2D(640.0, 480.0)
      && DepthIndex(corner, 640) == 480 * 640 + 640
      && SearchLine(Segment(corner, corner), 640, depthData, depthScale, colorPixel, reproject, NextPointInLine, fuel)
         == Failure(IndexOutOfRange)
  {
    var corner := AdjustPointToBoundary(Vector2D(700.0, 500.0), 640, 480);
    assert TruncateToInt(640.0) == 640 && TruncateToInt(480.0) == 480;
    EndPointsAreInLine(corner, corner, corner);
  }

  /** The evidently intended clamping onto the pixel grid: `[0, width - 1]` by
      `[0, height - 1]`, leaving grid points unchanged. */
  function ClampToPixelGrid(p: Vector2D, width: int, height: int): (r: Vector2D)
    ensures 1 <= width ==> 0.0 <= r.x <= (width - 1) as real
    ensures 1 <= height ==> 0.0 <= r.y <= (height - 1) as real
    ensures 0.0 <= p.x <= (width - 1) as real ==> r.x == p.x
    ensures 0.0 <= p.y <= (height - 1) as real ==> r.y == p.y
  {
    AdjustPointToBoundary(p, width - 1, height - 1)
  }

  /** Every point in the box of two grid points indexes inside a
      `width * height` buffer. */
  lemma GridBoxIndexesInside(q: Vector2D, seg: Segment, width: int, height: int)
    requires 1 <= width && 1 <= height
    requires 0.0 <= seg.start.x <= (width - 1) as real && 0.0 <= seg.start.y <= (height - 1) as real
    requires 0.0 <= seg.end.x <= (width - 1) as real && 0.0 <= seg.end.y <= (height - 1) as real
    requires IsPixelInLine(q, seg.start, seg.end)
    ensures 0 <= DepthIndex(q, width) < width * height
  {
    var ix, iy := TruncateToInt(q.x), TruncateToInt(q.y);
    assert 0 <= ix <= width - 1;
    assert 0 <= iy <= height - 1;
    assert iy * width <= (height - 1) * width;
  }

  /** `MapColorToDepth` with the evidently intended helpers: the ends clamped
      onto the pixel grid and the step that stays on the line. */
  function MapColorToDepthCorrected(m: Mapper, colorPixel: Vector2D, depthData: seq<real>, depthScale: real,
                                    depthMin: real, depthMax: real, reproject: Reprojection, ftheta: FthetaWarp,
                                    fuel: nat): (r: Result<Vector2D, Fault>)
    requires m.colorAndDepthMatch || SegmentIsDefined(m, colorPixel, depthMin, depthMax)
    ensures m.colorAndDepthMatch ==> r == Success(colorPixel)
  {
    if m.colorAndDepthMatch then Success(colorPixel)
    else
      var seg := SearchSegment(m, colorPixel, depthMin, depthMax, ftheta, ClampToPixelGrid);
      SearchLine(seg, m.depthIntrinsics.width, depthData, depthScale, colorPixel, reproject, NextPointOnLine, fuel)
  }

  /** With the ends on the pixel grid the search never reads outside a buffer of
      `width * height` samples: it returns a pixel or runs out of fuel. */
  lemma CorrectedSearchStaysInBuffer(m: Mapper, colorPixel: Vector2D, depthData: seq<real>, depthScale: real,
                                     depthMin: real, depthMax: real, reproject: Reprojection, ftheta: FthetaWarp, fuel: nat)
    requires m.colorAndDepthMatch || SegmentIsDefined(m, colorPixel, depthMin, depthMax)
    requires 1 <= m.depthIntrinsics.width && 1 <= m.depthIntrinsics.height
    requires |depthData| == m.depthIntrinsics.width * m.depthIntrinsics.height
    ensures MapColorToDepthCorrected(m, colorPixel, depthData, depthScale, depthMin, depthMax, reproject, ftheta, fuel)
         != Failure(IndexOutOfRange)
  {
    if !m.colorAndDepthMatch {
      var w, h := m.depthIntrinsics.width, m.depthIntrinsics.height;
      var seg := SearchSegment(m, colorPixel, depthMin, depthMax, ftheta, ClampToPixelGrid);
      var trace := Walk(seg.start, seg.start, seg.end, NextPointOnLine, fuel);
      forall i | 0 <= i < |trace.visited|
        ensures 0 <= DepthIndex(trace.visited[i], w) < |depthData|
      {
        GridBoxIndexesInside(trace.visited[i], seg, w, h);
      }
    }
  }

  /** When both ends clamp to the same pixel, the corrected search reads that
      pixel once and returns, where the search as written never returns. */
  lemma CorrectedSearchEndsOnADegenerateSegment(m: Mapper, colorPixel: Vector2D, depthData: seq<real>, depthScale: real,
                                                depthMin: real, depthMax: real, reproject: Reprojection, ftheta: FthetaWarp, fuel: nat)
    requires !m.colorAndDepthMatch && SegmentIsDefined(m, colorPixel, depthMin, depthMax)
    requires 1 <= m.depthIntrinsics.width && 1 <= m.depthIntrinsics.height
    requires |depthData| == m.depthIntrinsics.width * m.depthIntrinsics.height
    requires 0 < fuel
    requires var seg := SearchSegment(m, colorPixel, depthMin, depthMax, ftheta, ClampToPixelGrid);
      seg.start == seg.end
    ensures MapColorToDepthCorrected(m, colorPixel, depthData, depthScale, depthMin, depthMax, reproject, ftheta, fuel).Success?
  {
    var seg := SearchSegment(m, colorPixel, depthMin, depthMax, ftheta, ClampToPixelGrid);
    DegenerateWalkEnds(seg.start, fuel);
    CorrectedSearchStaysInBuffer(m, colorPixel, depthData, depthScale, depthMin, depthMax, reproject, ftheta, fuel);
  }
}
