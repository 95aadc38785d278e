/** `DeviceConfiguration`: an acquisition mode, an ordered list of stream
    requests and the optional device serial, playback file and record path,
    and its translation into the driver configuration, modelled as the list of
    commands issued on the driver's `Config` object. */
module DeviceConfigurations {
  import opened Wrappers
  import opened StreamRequests

  datatype VideoStreamMode = Live | Playback | Record

  /** Every reference-typed property may be `null` (`None`). */
  datatype DeviceConfiguration = DeviceConfiguration(
    mode: VideoStreamMode,
    profiles: Option<seq<VideoStreamRequest>>,
    requestedSerialNumber: Option<string>,
    playbackFile: Option<string>,
    recordPath: Option<string>)

  /** The calls made on the driver's `Config`, in order. `EnableStream` carries
      its arguments in the order of the driver call. */
  datatype Command =
    | EnableDevice(serial: Option<string>)
    | EnableStream(stream: Stream, index: int, width: int, height: int, format: Format, framerate: int)
    | EnableDeviceFromFile(file: string)
    | EnableRecordToFile(path: string)

  /** What `ToPipelineConfig` produces: the driver commands and the configuration
      as it stands after the call (the call may rewrite `Mode`). */
  datatype Translation = Translation(commands: seq<Command>, after: DeviceConfiguration)

  /** `string.IsNullOrEmpty`. */
  predicate IsNullOrEmpty(s: Option<string>)
  {
    s.None? || s.value == ""
  }

  /** The one-argument constructor: Live mode, an empty serial number, and the
      given profiles; playback file and record path stay `null`. */
  function FromProfiles(profiles: Option<seq<VideoStreamRequest>>): (c: DeviceConfiguration)
    ensures c == WithMode(profiles, Live, Some(""))
  {
    DeviceConfiguration(Live, profiles, Some(""), None, None)
  }

  /** The three-argument constructor stores its arguments unchanged. */
  function WithMode(profiles: Option<seq<VideoStreamRequest>>, mode: VideoStreamMode, id: Option<string>): (c: DeviceConfiguration)
    ensures c.profiles == profiles && c.mode == mode && c.requestedSerialNumber == id
    ensures c.playbackFile.None? && c.recordPath.None?
  {
    DeviceConfiguration(mode, profiles, id, None, None)
  }

  /** The `EnableStream` call made for one request. */
  function StreamCommand(p: VideoStreamRequest): Command
  {
    EnableStream(p.stream, p.streamIndex, p.width, p.height, p.format, p.framerate)
  }

  /** The request an `EnableStream` call asks for; other commands ask for none. */
  function RequestOf(c: Command): Option<VideoStreamRequest>
  {
    match c
    case EnableStream(s, i, w, h, f, r) => Some(VideoStreamRequest(s, f, r, i, w, h))
    case _ => None
  }

  /** An `EnableStream` call carries every field of its request: reading the call
      back gives the request. */
  lemma StreamCommandRoundTrip(p: VideoStreamRequest)
    ensures RequestOf(StreamCommand(p)) == Some(p)
  {
  }

  /** The `foreach` over the profiles: one `EnableStream` per request, in order. */
  function StreamCommands(ps: seq<VideoStreamRequest>): (cs: seq<Command>)
    ensures |cs| == |ps|
    ensures forall i :: 0 <= i < |ps| ==> cs[i] == StreamCommand(ps[i])
  {
    if ps == [] then [] else [StreamCommand(ps[0])] + StreamCommands(ps[1..])
  }

  /** The requests recovered from a list of commands, skipping the others. */
  function RequestsOf(cs: seq<Command>): seq<VideoStreamRequest>
  {
    if cs == [] then []
    else (match RequestOf(cs[0]) case Some(p) => [p] case None => []) + RequestsOf(cs[1..])
  }

  lemma {:induction false} RequestsOfConcat(a: seq<Command>, b: seq<Command>)
    ensures RequestsOf(a + b) == RequestsOf(a) + RequestsOf(b)
  {
    if a == [] {
      assert a + b == b;
    } else {
      assert (a + b)[1..] == a[1..] + b;
      RequestsOfConcat(a[1..], b);
    }
  }

  /** Reading back the stream commands gives the requests, in their order. */
  lemma {:induction false} StreamCommandsRoundTrip(ps: seq<VideoStreamRequest>)
    ensures RequestsOf(StreamCommands(ps)) == ps
  {
    if ps != [] {
      var cs := StreamCommands(ps);
      assert cs == [StreamCommand(ps[0])] + StreamCommands(ps[1..]);
      assert cs[1..] == StreamCommands(ps[1..]);
      StreamCommandRoundTrip(ps[0]);
      StreamCommandsRoundTrip(ps[1..]);
      assert ps == [ps[0]] + ps[1..];
    }
  }

  /** `ToPipelineConfig`. Live: select the device, then enable each requested
      stream. Playback: with no file the mode silently falls back to Live and no
      command is issued; otherwise only the file is enabled. Record: enable each
      stream, then recording if a path is given. Iterating a `null` profile array
      throws. Nothing but `Mode` is ever changed, and only by the fallback. */
  function ToPipelineConfig(c: DeviceConfiguration): (r: Result<Translation, Fault>)
    ensures r.Failure? <==> c.mode != Playback && c.profiles.None?
    ensures r.Failure? ==> r.error == NullReference
    ensures r.Success? && !(c.mode == Playback && IsNullOrEmpty(c.playbackFile)) ==> r.value.after == c
    ensures c.mode == Playback && IsNullOrEmpty(c.playbackFile) ==> r == Success(Translation([], c.(mode := Live)))
  {
    match c.mode
    case Live =>
      if c.profiles.None? then Failure(NullReference)
      else Success(Translation([EnableDevice(c.requestedSerialNumber)] + StreamCommands(c.profiles.value), c))
    case Playback =>
      if IsNullOrEmpty(c.playbackFile) then Success(Translation([], c.(mode := Live)))
      else Success(Translation([EnableDeviceFromFile(c.playbackFile.value)], c))
    case Record =>
      if c.profiles.None? then Failure(NullReference)
      else
        var streams := StreamCommands(c.profiles.value);
        if IsNullOrEmpty(c.recordPath) then Success(Translation(streams, c))
        else Success(Translation(streams + [EnableRecordToFile(c.recordPath.value)], c))
  }

  /** Live mode: the device is selected first, and the remaining commands enable
      exactly the requested streams, in order. */
  lemma {:induction false} LiveSelectsDeviceThenStreams(c: DeviceConfiguration)
    requires c.mode == Live && c.profiles.Some?
    ensures ToPipelineConfig(c).Success?
    ensures var cs := ToPipelineConfig(c).value.commands;
      |cs| == |c.profiles.value| + 1
      && cs[0] == EnableDevice(c.requestedSerialNumber)
      && RequestsOf(cs) == c.profiles.value
      && forall i :: 1 <= i < |cs| ==> cs[i].EnableStream?
  {
    var cs := ToPipelineConfig(c).value.commands;
    var streams := StreamCommands(c.profiles.value);
    assert cs == [EnableDevice(c.requestedSerialNumber)] + streams;
    RequestsOfConcat([EnableDevice(c.requestedSerialNumber)], streams);
    assert RequestsOf([EnableDevice(c.requestedSerialNumber)]) == [] by {
      assert [EnableDevice(c.requestedSerialNumber)][1..] == [];
    }
    StreamCommandsRoundTrip(c.profiles.value);
    forall i | 1 <= i < |cs|
      ensures cs[i].EnableStream?
    {
      assert cs[i] == streams[i - 1];
    }
  }

  /** Playback with a file: only the file is enabled, whatever the profiles. */
  lemma PlaybackIgnoresProfiles(c: DeviceConfiguration, ps: Option<seq<VideoStreamRequest>>)
    requires c.mode == Playback && !IsNullOrEmpty(c.playbackFile)
    ensures ToPipelineConfig(c) == Success(Translation([EnableDeviceFromFile(c.playbackFile.value)], c))
    ensures ToPipelineConfig(c.(profiles := ps)).value.commands == ToPipelineConfig(c).value.commands
  {
  }

  /** Record mode never selects a device; it enables exactly the requested
      streams, in order, followed by the recording command alone exactly when a
      path is given. */
  lemma {:induction false} RecordEnablesStreamsThenRecording(c: DeviceConfiguration)
    requires c.mode == Record && c.profiles.Some?
    ensures ToPipelineConfig(c).Success?
    ensures var cs := ToPipelineConfig(c).value.commands;
      && (forall i :: 0 <= i < |cs| ==> !cs[i].EnableDevice? && !cs[i].EnableDeviceFromFile?)
      && RequestsOf(cs) == c.profiles.value
      && (IsNullOrEmpty(c.recordPath) <==> |cs| == |c.profiles.value|)
      && (!IsNullOrEmpty(c.recordPath) ==> cs[|cs| - 1] == EnableRecordToFile(c.recordPath.value))
    ensures var cs := ToPipelineConfig(c).value.commands;
      && (IsNullOrEmpty(c.recordPath) ==> cs == StreamCommands(c.profiles.value))
      && (!IsNullOrEmpty(c.recordPath) ==> cs == StreamCommands(c.profiles.value) + [EnableRecordToFile(c.recordPath.value)])
  {
    var streams := StreamCommands(c.profiles.value);
    StreamCommandsRoundTrip(c.profiles.value);
    if !IsNullOrEmpty(c.recordPath) {
      var tail := [EnableRecordToFile(c.recordPath.value)];
      RequestsOfConcat(streams, tail);
      assert RequestsOf(tail) == [] by {
        assert tail[1..] == [];
      }
    }
  }

  /** A second translation never changes the configuration again: the mode
      stays as the first call left it (or the second call throws, when the
      fallback produced a Live configuration without profiles). */
  lemma ToPipelineConfigSettles(c: DeviceConfiguration)
    requires ToPipelineConfig(c).Success?
    ensures var once := ToPipelineConfig(c).value.after;
      ToPipelineConfig(once).Success? ==> ToPipelineConfig(once).value.after == once
    ensures var once := ToPipelineConfig(c).value.after;
      once.mode != Playback || !IsNullOrEmpty(once.playbackFile)
  {
  }

  /** The one-argument constructor yields Live mode with an empty serial. */
  lemma FromProfilesIsLive(profiles: Option<seq<VideoStreamRequest>>)
    ensures FromProfiles(profiles).mode == Live
    ensures FromProfiles(profiles).requestedSerialNumber == Some("")
    ensures FromProfiles(profiles).profiles == profiles
  {
  }

  /** The requests of the default configuration. */
  const DefaultRequests: seq<VideoStreamRequest> := [
    VideoStreamRequest(Stream.Depth, Format.Z16, 0, -1, 640, 480),
    VideoStreamRequest(Stream.Infrared, Format.Y8, 0, -1, 640, 480),
    VideoStreamRequest(Stream.Color, Format.Rgb8, 0, -1, 640, 480)
  ]

  /** `Default()`: Live, empty serial, depth (Z16), infrared (Y8) and colour
      (Rgb8) at 640x480, any framerate, stream index -1. */
  function Default(): (c: DeviceConfiguration)
    ensures c.mode == Live && c.requestedSerialNumber == Some("")
    ensures c.playbackFile.None? && c.recordPath.None?
    ensures c.profiles.Some? && |c.profiles.value| == 3
    ensures forall i :: 0 <= i < 3 ==>
      var p := c.profiles.value[i];
      p.width == 640 && p.height == 480 && p.framerate == 0 && p.streamIndex == -1
    ensures c.profiles.value[0].stream == Stream.Depth && c.profiles.value[0].format == Format.Z16
    ensures c.profiles.value[1].stream == Stream.Infrared && c.profiles.value[1].format == Format.Y8
    ensures c.profiles.value[2].stream == Stream.Color && c.profiles.value[2].format == Format.Rgb8
  {
    DeviceConfiguration(Live, Some(DefaultRequests), Some(""), None, None)
  }

  /** The default configuration translates into: select any device, then
      enable the three default streams. */
  lemma DefaultTranslation()
    ensures ToPipelineConfig(Default()) == Success(Translation([
      EnableDevice(Some("")),
      EnableStream(Stream.Depth, -1, 640, 480, Format.Z16, 0),
      EnableStream(Stream.Infrared, -1, 640, 480, Format.Y8, 0),
      EnableStream(Stream.Color, -1, 640, 480, Format.Rgb8, 0)], Default()))
  {
    var ps := DefaultRequests;
    assert ps[1..][1..] == ps[2..] && ps[2..][1..] == [];
    var d := Default();
    var expected := [
      EnableDevice(Some("")),
      EnableStream(Stream.Depth, -1, 640, 480, Format.Z16, 0),
      EnableStream(Stream.Infrared, -1, 640, 480, Format.Y8, 0),
      EnableStream(Stream.Color, -1, 640, 480, Format.Rgb8, 0)];
    assert ToPipelineConfig(d).value.commands == expected;
  }

  /** The three default requests ask for different streams, so each conflicts
      with the other two. */
  lemma DefaultRequestsConflictPairwise()
    ensures forall i, j :: 0 <= i < 3 && 0 <= j < 3 && i != j ==>
      HasConflict(DefaultRequests[i], DefaultRequests[j])
  {
  }
}
