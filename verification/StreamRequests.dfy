/** A request for one camera stream (`VideoStreamRequest`), its structural
    equality, and the wildcard-aware conflict test against another request or
    against a delivered frame. */
module StreamRequests {

  /** The driver's stream kinds; `Any` is the wildcard. */
  datatype Stream = Any | Depth | Color | Infrared | Fisheye | Gyro | Accel | Gpio | Pose | Confidence

  /** The driver's pixel formats; `Any` is the wildcard. */
  datatype Format =
    | Any | Z16 | Disparity16 | Xyz32f | Yuyv | Rgb8 | Bgr8 | Rgba8 | Bgra8 | Y8 | Y16
    | Raw10 | Raw16 | Raw8 | Uyvy | MotionRaw | MotionXyz32f | GpioRaw | SixDof | Disparity32

  /** The six fields of a request. For the four integer fields `0` is the
      wildcard; a negative stream index is an ordinary value. */
  datatype VideoStreamRequest = VideoStreamRequest(
    stream: Stream,
    format: Format,
    framerate: int,
    streamIndex: int,
    width: int,
    height: int)

  /** A stream profile reported by the driver: only video profiles carry a size. */
  datatype ProfileShape = Video(width: int, height: int) | NonVideo

  datatype StreamProfile = StreamProfile(
    stream: Stream,
    format: Format,
    framerate: int,
    index: int,
    shape: ProfileShape)

  /** A delivered video frame: its profile and its own size. */
  datatype VideoFrame = VideoFrame(profile: StreamProfile, width: int, height: int)

  /** The request that asks for anything at all. */
  const AnyRequest := VideoStreamRequest(Stream.Any, Format.Any, 0, 0, 0, 0)

  /** No field of `r` is a wildcard. */
  predicate IsConcrete(r: VideoStreamRequest)
  {
    r.stream != Stream.Any && r.format != Format.Any && r.framerate != 0
    && r.streamIndex != 0 && r.width != 0 && r.height != 0
  }

  /** `Equals(VideoStreamRequest)`: field-by-field comparison, which is exactly
      structural equality of the record. */
  function Equals(a: VideoStreamRequest, b: VideoStreamRequest): (r: bool)
    ensures r <==> a == b
  {
    a.stream == b.stream
    && a.format == b.format
    && a.framerate == b.framerate
    && a.streamIndex == b.streamIndex
    && a.width == b.width
    && a.height == b.height
  }

  /** `receiver` with every wildcard field replaced by the corresponding field of
      `other`: the most specific request that `receiver` stands for when it is
      compared with `other`. */
  function Specialize(receiver: VideoStreamRequest, other: VideoStreamRequest): VideoStreamRequest
  {
    VideoStreamRequest(
      if receiver.stream == Stream.Any then other.stream else receiver.stream,
      if receiver.format == Format.Any then other.format else receiver.format,
      if receiver.framerate == 0 then other.framerate else receiver.framerate,
      if receiver.streamIndex == 0 then other.streamIndex else receiver.streamIndex,
      if receiver.width == 0 then other.width else receiver.width,
      if receiver.height == 0 then other.height else receiver.height)
  }

  /** `HasConflict(VideoStreamRequest)`: the checks in the source's order. The
      receiver conflicts with `other` exactly when filling the receiver's
      wildcards from `other` still does not give `other`, that is, when some
      non-wildcard field of the receiver differs. */
  function HasConflict(receiver: VideoStreamRequest, other: VideoStreamRequest): (r: bool)
    ensures r <==> Specialize(receiver, other) != other
  {
    if receiver.stream != Stream.Any && receiver.stream != other.stream then true
    else if receiver.format != Format.Any && receiver.format != other.format then true
    else if receiver.width != 0 && receiver.width != other.width then true
    else if receiver.height != 0 && receiver.height != other.height then true
    else if receiver.framerate != 0 && receiver.framerate != other.framerate then true
    else if receiver.streamIndex != 0 && receiver.streamIndex != other.streamIndex then true
    else false
  }

  /** `FromFrame`: stream, format, framerate and index come from the frame's
      profile, the size from the frame itself (never from the profile). */
  function FromFrame(f: VideoFrame): (r: VideoStreamRequest)
    ensures r.stream == f.profile.stream && r.format == f.profile.format
    ensures r.framerate == f.profile.framerate && r.streamIndex == f.profile.index
    ensures r.width == f.width && r.height == f.height
  {
    VideoStreamRequest(f.profile.stream, f.profile.format, f.profile.framerate,
                       f.profile.index, f.width, f.height)
  }

  /** `FromProfile`: copies the profile; a profile that is not a video profile
      has no size and yields width and height 0, the size wildcards. */
  function FromProfile(p: StreamProfile): (r: VideoStreamRequest)
    ensures r.stream == p.stream && r.format == p.format
    ensures r.framerate == p.framerate && r.streamIndex == p.index
    ensures p.shape.NonVideo? ==> r.width == 0 && r.height == 0
    ensures p.shape.Video? ==> r.width == p.shape.width && r.height == p.shape.height
  {
    match p.shape
    case Video(w, h) => VideoStreamRequest(p.stream, p.format, p.framerate, p.index, w, h)
    case NonVideo => VideoStreamRequest(p.stream, p.format, p.framerate, p.index, 0, 0)
  }

  /** `HasConflict(VideoFrame)`: the same six checks, reading the frame's
      profile and size. It answers exactly as the request overload does on the
      request built from the frame. */
  function HasConflictWithFrame(receiver: VideoStreamRequest, f: VideoFrame): (r: bool)
    ensures r == HasConflict(receiver, FromFrame(f))
  {
    var p := f.profile;
    if receiver.stream != Stream.Any && receiver.stream != p.stream then true
    else if receiver.format != Format.Any && receiver.format != p.format then true
    else if receiver.width != 0 && receiver.width != f.width then true
    else if receiver.height != 0 && receiver.height != f.height then true
    else if receiver.framerate != 0 && receiver.framerate != p.framerate then true
    else if receiver.streamIndex != 0 && receiver.streamIndex != p.index then true
    else false
  }

  /** Equals is an equivalence: reflexive, symmetric and transitive. */
  lemma EqualsIsEquivalence(a: VideoStreamRequest, b: VideoStreamRequest, c: VideoStreamRequest)
    ensures Equals(a, a)
    ensures Equals(a, b) == Equals(b, a)
    ensures Equals(a, b) && Equals(b, c) ==> Equals(a, c)
  {
  }

  /** Equal requests never conflict; in particular no request conflicts with itself. */
  lemma EqualRequestsDoNotConflict(a: VideoStreamRequest, b: VideoStreamRequest)
    requires Equals(a, b)
    ensures !HasConflict(a, b) && !HasConflict(b, a)
  {
  }

  /** The all-wildcard receiver conflicts with nothing. */
  lemma AnyRequestConflictsWithNothing(other: VideoStreamRequest)
    ensures !HasConflict(AnyRequest, other)
  {
  }

  /** A receiver conflicts with nothing only if it is the all-wildcard request. */
  lemma OnlyAnyRequestConflictsWithNothing(receiver: VideoStreamRequest)
    requires forall other :: !HasConflict(receiver, other)
    ensures receiver == AnyRequest
  {
    var probe := VideoStreamRequest(
      if receiver.stream == Stream.Depth then Stream.Color else Stream.Depth,
      if receiver.format == Format.Z16 then Format.Y8 else Format.Z16,
      receiver.framerate + 1, receiver.streamIndex + 1,
      receiver.width + 1, receiver.height + 1);
    assert !HasConflict(receiver, probe);
  }

  /** Wildcards only count on the receiver side, so conflict is not symmetric:
      a concrete depth request conflicts with the all-wildcard request but not
      the other way round. */
  lemma ConflictIsNotSymmetric()
    ensures exists a, b :: HasConflict(a, b) && !HasConflict(b, a)
  {
    var depth := VideoStreamRequest(Stream.Depth, Format.Z16, 30, 1, 640, 480);
    assert HasConflict(depth, AnyRequest);
    assert !HasConflict(AnyRequest, depth);
  }

  /** Between two requests without wildcards, conflict is symmetric and means
      exactly inequality. */
  lemma ConcreteConflictIsInequality(a: VideoStreamRequest, b: VideoStreamRequest)
    requires IsConcrete(a) && IsConcrete(b)
    ensures HasConflict(a, b) <==> a != b
    ensures HasConflict(a, b) == HasConflict(b, a)
  {
  }

  /** Only 0 is a stream-index wildcard: a receiver asking for index -1 (the
      value the default configuration uses) conflicts with every request whose
      index is not -1, whatever the other fields. */
  lemma NegativeIndexIsNotAWildcard(receiver: VideoStreamRequest, other: VideoStreamRequest)
    requires receiver.streamIndex == -1
    requires other.streamIndex != -1
    ensures HasConflict(receiver, other)
  {
  }

  /** A request with more wildcards conflicts with less: blanking a field of the
      receiver can only remove conflicts. */
  lemma WildcardsOnlyRemoveConflicts(receiver: VideoStreamRequest, other: VideoStreamRequest)
    ensures !HasConflict(receiver, other) ==> !HasConflict(receiver.(stream := Stream.Any), other)
    ensures !HasConflict(receiver, other) ==> !HasConflict(receiver.(format := Format.Any), other)
    ensures !HasConflict(receiver, other) ==> !HasConflict(receiver.(width := 0, height := 0), other)
    ensures !HasConflict(receiver, other) ==> !HasConflict(receiver.(framerate := 0), other)
    ensures !HasConflict(receiver, other) ==> !HasConflict(receiver.(streamIndex := 0), other)
  {
  }

  /** A frame whose size is its video profile's size describes the same request
      as that profile. */
  lemma FrameAndProfileAgree(f: VideoFrame)
    requires f.profile.shape == Video(f.width, f.height)
    ensures FromFrame(f) == FromProfile(f.profile)
  {
  }

  /** The request read off a frame accepts that frame; any receiver conflicts
      with the frame exactly when filling its wildcards from the frame does not
      reproduce the frame's request. */
  lemma FrameRequestAcceptsItsFrame(receiver: VideoStreamRequest, f: VideoFrame)
    ensures !HasConflictWithFrame(FromFrame(f), f)
    ensures HasConflictWithFrame(receiver, f) <==> Specialize(receiver, FromFrame(f)) != FromFrame(f)
  {
    EqualRequestsDoNotConflict(FromFrame(f), FromFrame(f));
  }

  /** A request built from a non-video profile has size wildcards, so its
      conflicts never depend on the other request's size. */
  lemma NonVideoRequestIgnoresSize(p: StreamProfile, other: VideoStreamRequest, w: int, h: int)
    requires p.shape.NonVideo?
    ensures HasConflict(FromProfile(p), other) == HasConflict(FromProfile(p), other.(width := w, height := h))
  {
  }
}
