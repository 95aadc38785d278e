# LightBuzz RealSense core in Dafny

This project models the pure logic of the LightBuzz wrapper around the Intel
RealSense driver and proves properties of it:

- **Stream requests** (`StreamRequests`). A `VideoStreamRequest` is a
  six-field record. The model covers its structural `Equals`, the
  wildcard-aware `HasConflict` test against another request or against a
  delivered frame, and the `FromFrame` / `FromProfile` copies.
- **Device configuration** (`DeviceConfigurations`). This covers the
  constructors, `Default()`, and `ToPipelineConfig`. The driver's `Config`
  object appears as the list of commands issued on it: `EnableDevice`,
  `EnableStream`, `EnableDeviceFromFile`, `EnableRecordToFile`. The model
  also returns the configuration as the call leaves it, since the call may
  rewrite `Mode`.
- **Camera geometry** (`Projection`): intrinsics and extrinsics,
  `Map3DTo2D`, `Map2DTo3D` and `MapWorldToWorld`, over ideal real
  arithmetic.
- **Line search helpers** (`LineWalk`): `AdjustPointToBoundary`,
  `IsPixelInLine`, `NextPointInLine`, and the search loop as a walk bounded
  by fuel.
- **Coordinate mapper** (`CoordinateMapping`). This covers:
  - the colour/depth match flag;
  - the `Create` overloads, which select profiles from a pipeline or from a
    configuration;
  - `MapColorToDepth`, which returns the first visited depth pixel whose
    reprojection lies nearest the colour pixel.
- **Demo read-out** (`DepthSampling`). This covers the cursor update in
  `Sample.Update` and `Sample.MedianDepth`. Despite its name,
  `MedianDepth` takes the mean of the valid depth samples in a window
  around the cursor.

Modelling conventions:

- A C# `null` is `None` of `Option`.
- An exception the code would throw is a `Failure` of `Result`: the
  `NullReferenceException` of iterating a `null` array or of reading the
  size of a non-video profile, and the `IndexOutOfRangeException` of the
  depth read.
- `NotTerminated` marks a search loop that has not ended within the given
  fuel.
- The C# cast `(int)` from floating point is truncation toward zero
  (`Casts.TruncateToInt`).

## Model

| member | source | states |
|---|---|---|
| `StreamRequests.Equals` | LightBuzz.RealSense/LightBuzz.RealSense/VideoStreamRequest.cs:57-66 | true exactly when the two requests are the same record (all six fields agree) |
| `StreamRequests.EqualsIsEquivalence` | LightBuzz.RealSense/LightBuzz.RealSense/VideoStreamRequest.cs:57-66 | `Equals` is reflexive, symmetric and transitive |
| `StreamRequests.HasConflict` | LightBuzz.RealSense/LightBuzz.RealSense/VideoStreamRequest.cs:89-104 | a conflict exists exactly when filling the receiver's wildcards (`Any`, `0`) from the other request does not yield the other request, i.e. some non-wildcard receiver field differs |
| `StreamRequests.EqualRequestsDoNotConflict` | LightBuzz.RealSense/LightBuzz.RealSense/VideoStreamRequest.cs:89-104 | equal requests conflict in neither direction; no request conflicts with itself |
| `StreamRequests.AnyRequestConflictsWithNothing` | LightBuzz.RealSense/LightBuzz.RealSense/VideoStreamRequest.cs:89-104 | the all-wildcard receiver conflicts with no request |
| `StreamRequests.OnlyAnyRequestConflictsWithNothing` | LightBuzz.RealSense/LightBuzz.RealSense/VideoStreamRequest.cs:89-104 | conversely, a receiver that conflicts with nothing is the all-wildcard request |
| `StreamRequests.ConflictIsNotSymmetric` | LightBuzz.RealSense/LightBuzz.RealSense/VideoStreamRequest.cs:89-104 | some pair conflicts one way but not the other (wildcards count only on the receiver side) |
| `StreamRequests.ConcreteConflictIsInequality` | LightBuzz.RealSense/LightBuzz.RealSense/VideoStreamRequest.cs:89-104 | between wildcard-free requests, conflict is symmetric and means inequality |
| `StreamRequests.NegativeIndexIsNotAWildcard` | LightBuzz.RealSense/LightBuzz.RealSense/VideoStreamRequest.cs:101-102 | a receiver with stream index -1 conflicts with every request whose index is not -1 |
| `StreamRequests.WildcardsOnlyRemoveConflicts` | LightBuzz.RealSense/LightBuzz.RealSense/VideoStreamRequest.cs:89-104 | turning any receiver field into a wildcard never creates a conflict |
| `StreamRequests.HasConflictWithFrame` | LightBuzz.RealSense/LightBuzz.RealSense/VideoStreamRequest.cs:68-87 | the frame overload answers exactly as the request overload on `FromFrame(f)` |
| `StreamRequests.FromFrame` | LightBuzz.RealSense/LightBuzz.RealSense/VideoStreamRequest.cs:26-37 | stream, format, framerate and index come from the frame's profile, width and height from the frame itself |
| `StreamRequests.FrameRequestAcceptsItsFrame` | LightBuzz.RealSense/LightBuzz.RealSense/VideoStreamRequest.cs:68-87 | a frame never conflicts with the request built from it, and a receiver conflicts with a frame exactly when filling its wildcards from that request changes the request |
| `StreamRequests.FromProfile` | LightBuzz.RealSense/LightBuzz.RealSense/VideoStreamRequest.cs:40-50 | stream, format, framerate and index are copied; a video profile gives its size, any other profile width and height 0 |
| `StreamRequests.FrameAndProfileAgree` | LightBuzz.RealSense/LightBuzz.RealSense/VideoStreamRequest.cs:26-50 | a frame whose size is its video profile's size yields the same request through `FromFrame` and `FromProfile` |
| `StreamRequests.NonVideoRequestIgnoresSize` | LightBuzz.RealSense/LightBuzz.RealSense/VideoStreamRequest.cs:40-50 | a request built from a non-video profile never conflicts because of size |
| `DeviceConfigurations.FromProfiles` | LightBuzz.RealSense/LightBuzz.RealSense/DeviceConfiguration.cs:23-28 | the one-argument constructor is the three-argument one with Live mode and an empty serial |
| `DeviceConfigurations.WithMode` | LightBuzz.RealSense/LightBuzz.RealSense/DeviceConfiguration.cs:30-35 | the three-argument constructor stores profiles, mode and serial unchanged and leaves file and path `null` |
| `DeviceConfigurations.FromProfilesIsLive` | LightBuzz.RealSense/LightBuzz.RealSense/DeviceConfiguration.cs:23-28 | the one-argument constructor gives Live mode, serial `""` and the given profiles |
| `DeviceConfigurations.StreamCommands` | LightBuzz.RealSense/LightBuzz.RealSense/DeviceConfiguration.cs:45-46 | one `EnableStream` per request, in request order |
| `DeviceConfigurations.StreamCommandRoundTrip` | LightBuzz.RealSense/LightBuzz.RealSense/DeviceConfiguration.cs:46 | an `EnableStream` call carries every field of its request: reading it back gives the request |
| `DeviceConfigurations.StreamCommandsRoundTrip` | LightBuzz.RealSense/LightBuzz.RealSense/DeviceConfiguration.cs:45-46 | reading the stream commands back gives the request list itself |
| `DeviceConfigurations.ToPipelineConfig` | LightBuzz.RealSense/LightBuzz.RealSense/DeviceConfiguration.cs:37-70 | throws exactly when a Live or Record configuration has `null` profiles; empty-file Playback issues no command and turns the mode to Live; otherwise the configuration is left as it was |
| `DeviceConfigurations.LiveSelectsDeviceThenStreams` | LightBuzz.RealSense/LightBuzz.RealSense/DeviceConfiguration.cs:43-47 | Live issues `EnableDevice(serial)` first and then exactly the requested streams in order |
| `DeviceConfigurations.PlaybackIgnoresProfiles` | LightBuzz.RealSense/LightBuzz.RealSense/DeviceConfiguration.cs:54-57 | Playback with a file issues only `EnableDeviceFromFile`, whatever the profiles, and keeps the mode |
| `DeviceConfigurations.RecordEnablesStreamsThenRecording` | LightBuzz.RealSense/LightBuzz.RealSense/DeviceConfiguration.cs:60-65 | Record never selects a device and succeeds; with no path it issues exactly the requested streams in order, with a path those streams followed by one `EnableRecordToFile(path)` |
| `DeviceConfigurations.ToPipelineConfigSettles` | LightBuzz.RealSense/LightBuzz.RealSense/DeviceConfiguration.cs:49-53 | after one call the mode is never empty-file Playback, and a second call changes nothing |
| `DeviceConfigurations.Default` | LightBuzz.RealSense/LightBuzz.RealSense/DeviceConfiguration.cs:72-109 | Live, empty serial, no playback file or record path, and three 640x480 requests Depth/Z16, Infrared/Y8, Color/Rgb8 with framerate 0 and index -1 |
| `DeviceConfigurations.DefaultTranslation` | LightBuzz.RealSense/LightBuzz.RealSense/DeviceConfiguration.cs:72-109 | the default configuration translates into `EnableDevice("")` and the three stream commands, unchanged |
| `DeviceConfigurations.DefaultRequestsConflictPairwise` | LightBuzz.RealSense/LightBuzz.RealSense/DeviceConfiguration.cs:78-107 | each default request conflicts with the other two |
| `Projection.PerspectiveDivide` | LightBuzz.RealSense/LightBuzz.RealSense/CoordinateMapper.cs:331-332 | the normalised coordinates times Z give back X and Y |
| `Projection.ModifiedBrownConradyDistort` | LightBuzz.RealSense/LightBuzz.RealSense/CoordinateMapper.cs:334-347 | the origin stays at the origin, and without tangential coefficients (`coeffs[2]`, `coeffs[3]`) a point stays on its ray through the origin |
| `Projection.InverseBrownConradyKeepsRays` | LightBuzz.RealSense/LightBuzz.RealSense/CoordinateMapper.cs:378-387 | the same two facts for the undistortion applied when back-projecting |
| `Projection.Distort` | LightBuzz.RealSense/LightBuzz.RealSense/CoordinateMapper.cs:334-356 | only Modified Brown-Conrady and Ftheta distort when projecting; every other model, Inverse Brown-Conrady included, leaves the coordinates unchanged |
| `Projection.Map3DTo2D` | LightBuzz.RealSense/LightBuzz.RealSense/CoordinateMapper.cs:327-362 | for every model but Modified Brown-Conrady and Ftheta the pixel satisfies the pinhole equations `(u - ppx) Z = X fx`, `(v - ppy) Z = Y fy` |
| `Projection.Map2DTo3D` | LightBuzz.RealSense/LightBuzz.RealSense/CoordinateMapper.cs:371-394 | the point lies at Z = depth, and outside Inverse Brown-Conrady it satisfies the pinhole equations |
| `Projection.NormalisedRay` | LightBuzz.RealSense/LightBuzz.RealSense/CoordinateMapper.cs:373-387 | outside Inverse Brown-Conrady the normalised coordinates times the focal lengths give back the pixel's offset from the principal point |
| `Projection.ProjectionIsRayInvariant` | LightBuzz.RealSense/LightBuzz.RealSense/CoordinateMapper.cs:327-362 | scaling a point by any non-zero factor does not change its pixel, for every model |
| `Projection.BackProjectionIsARay` | LightBuzz.RealSense/LightBuzz.RealSense/CoordinateMapper.cs:371-394 | back-projection is linear in the depth |
| `Projection.PixelRoundTrip` | LightBuzz.RealSense/LightBuzz.RealSense/CoordinateMapper.cs:327-394 | without distortion, projecting a back-projected pixel (non-zero depth and focal lengths) gives the pixel |
| `Projection.PointRoundTrip` | LightBuzz.RealSense/LightBuzz.RealSense/CoordinateMapper.cs:327-394 | without distortion, back-projecting a projected point at its own depth gives the point |
| `Projection.ZeroCoefficientsDoNotDistort` | LightBuzz.RealSense/LightBuzz.RealSense/CoordinateMapper.cs:334-347 | both Brown-Conrady polynomials are the identity when all coefficients are 0 |
| `Projection.IdentityExtrinsicsFixPoints` | LightBuzz.RealSense/LightBuzz.RealSense/CoordinateMapper.cs:396-404 | the identity rotation with zero translation moves no point |
| `Projection.MapWorldToWorld` | LightBuzz.RealSense/LightBuzz.RealSense/CoordinateMapper.cs:396-404 | the origin goes to the translation, and each unit axis to the matching column of the column-major rotation (`rotation[0..2]`, `[3..5]`, `[6..8]`) plus the translation |
| `Projection.TranslationOnlyShifts` | LightBuzz.RealSense/LightBuzz.RealSense/CoordinateMapper.cs:396-404 | with the identity rotation each point moves by the translation |
| `LineWalk.AdjustPointToBoundary` | LightBuzz.RealSense/LightBuzz.RealSense/CoordinateMapper.cs:406-414 | the point ends up in `[0, width] x [0, height]`; in-range coordinates are kept, negative ones become 0, larger ones the bound |
| `LineWalk.AdjustPointToBoundaryIsIdempotent` | LightBuzz.RealSense/LightBuzz.RealSense/CoordinateMapper.cs:406-414 | clamping twice is clamping once |
| `LineWalk.AdjustPointToBoundary3D` | LightBuzz.RealSense/LightBuzz.RealSense/CoordinateMapper.cs:416-426 | the 3D clamp bounds all three coordinates, keeps in-range points, and agrees with the 2D clamp on X and Y |
| `LineWalk.IsPixelInLine` | LightBuzz.RealSense/LightBuzz.RealSense/CoordinateMapper.cs:449-454 | true exactly when the point lies in the segment's bounding box |
| `LineWalk.EndPointsAreInLine` | LightBuzz.RealSense/LightBuzz.RealSense/CoordinateMapper.cs:449-454 | both ends are in line, and swapping start and end changes nothing |
| `LineWalk.NextPointInLine` | LightBuzz.RealSense/LightBuzz.RealSense/CoordinateMapper.cs:428-447 | a vertical segment leaves the point unchanged; otherwise it steps one unit towards `end` along the axis with the larger remaining distance: an X step is exactly the corrected `StepInX` (landing on the line), and a Y step moves Y by one towards `end.Y` |
| `LineWalk.FlatYStepLeavesTheLine` | LightBuzz.RealSense/LightBuzz.RealSense/CoordinateMapper.cs:439-443 | on a horizontal segment the Y step (where the slope is 0) always leaves the box, so its X value is never read |
| `LineWalk.SteepStepLeavesTheLine` | LightBuzz.RealSense/LightBuzz.RealSense/CoordinateMapper.cs:442 | on the steep segment (0,0)-(1,10) the step as written lands at (-0.1, 1), off the line and the box; the intended step lands at (0.1, 1) |
| `LineWalk.NextPointOnLine` | LightBuzz.RealSense/LightBuzz.RealSense/CoordinateMapper.cs:428-447 | corrected step: a point on the line stays on it (except the unused flat-Y case), and a vertical segment steps Y by 1 |
| `LineWalk.StepInX` | LightBuzz.RealSense/LightBuzz.RealSense/CoordinateMapper.cs:436-437 | the X step moves X by one and lands on the line |
| `LineWalk.StepInY` | LightBuzz.RealSense/LightBuzz.RealSense/CoordinateMapper.cs:441-442 | the corrected Y step moves Y by one and lands on the line unless the segment is horizontal, where it keeps X |
| `LineWalk.Walk` | LightBuzz.RealSense/LightBuzz.RealSense/CoordinateMapper.cs:292 | the loop visits `from` and then each point's `step` successor, all in line; a loop that has ended did so because the next point (or `from` itself) is out of line, and one that has not ended has used all its fuel |
| `LineWalk.WalkIsStableUnderMoreFuel` | LightBuzz.RealSense/LightBuzz.RealSense/CoordinateMapper.cs:292 | once the loop ends within some fuel, more fuel gives the same visits |
| `LineWalk.VerticalWalkNeverEnds` | LightBuzz.RealSense/LightBuzz.RealSense/CoordinateMapper.cs:430 | on a vertical segment the loop revisits the start forever, whatever the fuel |
| `LineWalk.SteepWalkVisitsOnlyTheStart` | LightBuzz.RealSense/LightBuzz.RealSense/CoordinateMapper.cs:442 | on the steep segment the loop as written visits only its start pixel |
| `LineWalk.DegenerateWalkEnds` | LightBuzz.RealSense/LightBuzz.RealSense/CoordinateMapper.cs:430 | when both ends coincide the corrected loop visits the point once and ends; the loop as written never ends |
| `CoordinateMapping.ColorAndDepthMatch` | LightBuzz.RealSense/LightBuzz.RealSense/CoordinateMapper.cs:87-96 | the flag is set exactly when at least one compared intrinsics field agrees |
| `CoordinateMapping.IntrinsicsAgree` | LightBuzz.RealSense/LightBuzz.RealSense/CoordinateMapper.cs:87-93 | corrected flag: set exactly when every compared field agrees |
| `CoordinateMapping.IdenticalIntrinsicsMatch` | LightBuzz.RealSense/LightBuzz.RealSense/CoordinateMapper.cs:87-96 | identical intrinsics match under both flags, and the corrected flag implies the one as written |
| `CoordinateMapping.MatchFlagAcceptsDifferentCameras` | LightBuzz.RealSense/LightBuzz.RealSense/CoordinateMapper.cs:87-96 | two cameras sharing only their width are flagged as matching, though they project the optical axis to different pixels |
| `CoordinateMapping.AgreeingIntrinsicsMapAlike` | LightBuzz.RealSense/LightBuzz.RealSense/CoordinateMapper.cs:327-394 | under the corrected flag (same coefficients when used) the two cameras project and back-project alike |
| `CoordinateMapping.Create` | LightBuzz.RealSense/LightBuzz.RealSense/CoordinateMapper.cs:80-96 | stores the four structs, and sets the flag exactly when some compared field agrees |
| `CoordinateMapping.CreateCorrected` | LightBuzz.RealSense/LightBuzz.RealSense/CoordinateMapper.cs:80-96 | the constructor with the flag set exactly when every compared field agrees |
| `CoordinateMapping.CorrectedShortcutIsExact` | LightBuzz.RealSense/LightBuzz.RealSense/CoordinateMapper.cs:268-271 | under the corrected flag with identity extrinsics, every depth along a colour pixel's ray projects back onto that pixel, which is what returning the pixel unchanged assumes |
| `CoordinateMapping.LastSizedIsLast` | LightBuzz.RealSense/LightBuzz.RealSense/CoordinateMapper.cs:121-133 | the scan finds nothing exactly when no profile has the kind and size, and otherwise the last one that has |
| `CoordinateMapping.SelectProfiles` | LightBuzz.RealSense/LightBuzz.RealSense/CoordinateMapper.cs:121-133 | the profile loop throws exactly when some colour or depth profile is not a video profile |
| `CoordinateMapping.SelectProfilesKeepsLast` | LightBuzz.RealSense/LightBuzz.RealSense/CoordinateMapper.cs:121-133 | when it does not throw, the loop keeps the last colour profile of the colour size and the last depth profile of the depth size |
| `CoordinateMapping.CreateFromPipeline` | LightBuzz.RealSense/LightBuzz.RealSense/CoordinateMapper.cs:112-144 | no mapper without streams or without a matching colour or depth profile; otherwise the mapper of the last matching colour and depth profiles; throws on a non-video colour or depth profile |
| `CoordinateMapping.RequestedSizesTakeLast` | LightBuzz.RealSense/LightBuzz.RealSense/CoordinateMapper.cs:153-170 | each stream's size is that of its last request, or 640x480 without one |
| `CoordinateMapping.CreateFromConfiguration` | LightBuzz.RealSense/LightBuzz.RealSense/CoordinateMapper.cs:146-173 | a `null` configuration uses the defaults, `null` profiles throw, otherwise the requested sizes are used |
| `CoordinateMapping.DefaultConfigurationUsesDefaultSizes` | LightBuzz.RealSense/LightBuzz.RealSense/CoordinateMapper.cs:146-183 | the default configuration asks for 640x480 twice and builds the same mapper as no configuration |
| `CoordinateMapping.CreateWithDefaults` | LightBuzz.RealSense/LightBuzz.RealSense/CoordinateMapper.cs:180-183 | `Create(pipeline)` asks for 640x480 colour and depth: no mapper without streams, and any mapper it builds comes from the last 640x480 colour and depth profiles |
| `CoordinateMapping.MapWorldToColor` | LightBuzz.RealSense/LightBuzz.RealSense/CoordinateMapper.cs:220-223 | projects with the colour intrinsics: the pinhole equations hold for every model but Modified Brown-Conrady and Ftheta |
| `CoordinateMapping.MapWorldToDepth` | LightBuzz.RealSense/LightBuzz.RealSense/CoordinateMapper.cs:230-233 | the same with the depth intrinsics |
| `CoordinateMapping.MapColorToWorld` | LightBuzz.RealSense/LightBuzz.RealSense/CoordinateMapper.cs:241-244 | back-projects with the colour intrinsics: Z is the depth, and outside Inverse Brown-Conrady the pinhole equations hold |
| `CoordinateMapping.MapDepthToWorld` | LightBuzz.RealSense/LightBuzz.RealSense/CoordinateMapper.cs:252-255 | the same with the depth intrinsics |
| `CoordinateMapping.MatchedCamerasReprojectInPlace` | LightBuzz.RealSense/LightBuzz.RealSense/CoordinateMapper.cs:299-301 | with equal undistorted intrinsics and identity depth-to-colour extrinsics, the loop's reprojection (`MapDepthToWorld`, `MapWorldToWorld`, `MapWorldToColor`) of a pixel at any non-zero depth is defined and gives the pixel back |
| `CoordinateMapping.MatchedCamerasProbeColorPixelAtZero` | LightBuzz.RealSense/LightBuzz.RealSense/CoordinateMapper.cs:294-303 | for such cameras, a read of the colour pixel itself that succeeds measures distance 0 with a reprojection that behaves like the source's |
| `CoordinateMapping.SquaredDistance` | LightBuzz.RealSense/LightBuzz.RealSense/CoordinateMapper.cs:303 | the search's distance is never negative |
| `CoordinateMapping.ReadProbe` | LightBuzz.RealSense/LightBuzz.RealSense/CoordinateMapper.cs:294-303 | a pixel read throws exactly when its truncated row-major index is outside the buffer; otherwise it gives the scaled depth and, for non-zero depth, the reprojection distance |
| `CoordinateMapping.ProbeLine` | LightBuzz.RealSense/LightBuzz.RealSense/CoordinateMapper.cs:292-303 | the reads along the walk throw exactly when some visited index is out of range, else give one read per visited pixel |
| `CoordinateMapping.ProbesFollowTheWalk` | LightBuzz.RealSense/LightBuzz.RealSense/CoordinateMapper.cs:292-303 | a successful read of the walk yields one probe per visited pixel, in order, each with a non-negative distance |
| `CoordinateMapping.Consider` | LightBuzz.RealSense/LightBuzz.RealSense/CoordinateMapper.cs:296-311 | one iteration keeps the best so far or takes the probe; a zero depth is skipped; a measured probe leaves a minimum no larger than its distance or the earlier minimum |
| `CoordinateMapping.SelectNearest` | LightBuzz.RealSense/LightBuzz.RealSense/CoordinateMapper.cs:290-314 | the selected pixel is (0,0) with no minimum, or some probe with non-zero depth |
| `CoordinateMapping.SelectNearestIsFirstMinimum` | LightBuzz.RealSense/LightBuzz.RealSense/CoordinateMapper.cs:290-314 | the loop keeps the first probe of smallest distance among non-zero depths, and (0,0) when every depth is zero |
| `CoordinateMapping.MapColorToDepth` | LightBuzz.RealSense/LightBuzz.RealSense/CoordinateMapper.cs:266-271 | with the flag set the colour pixel is returned unchanged whatever the depth data |
| `CoordinateMapping.SearchLine` | LightBuzz.RealSense/LightBuzz.RealSense/CoordinateMapper.cs:292-314 | the search throws `IndexOutOfRange` exactly when some visited index is outside the buffer, and returns exactly when the loop ended and every read was in range |
| `CoordinateMapping.SuccessfulSearchSelects` | LightBuzz.RealSense/LightBuzz.RealSense/CoordinateMapper.cs:289-314 | a search that returns has ended its loop, read every visited pixel, and returns the pixel the selection loop keeps |
| `CoordinateMapping.SearchFindsFirstNearest` | LightBuzz.RealSense/LightBuzz.RealSense/CoordinateMapper.cs:289-314 | a search that returns has ended its loop and returns the first visited pixel of strictly smallest distance, or (0,0) if no depth was non-zero |
| `CoordinateMapping.MapColorToDepthFindsFirstNearest` | LightBuzz.RealSense/LightBuzz.RealSense/CoordinateMapper.cs:266-315 | with the flag clear, a call that returns has ended its walk along the clamped segment and returns the first visited pixel of strictly smallest distance among non-zero depths, or (0,0) if every depth read zero |
| `CoordinateMapping.VerticalSearchNeverReturns` | LightBuzz.RealSense/LightBuzz.RealSense/CoordinateMapper.cs:292 | if the clamped segment is vertical the search throws or runs out of any fuel |
| `CoordinateMapping.CornerClampReadsPastTheBuffer` | LightBuzz.RealSense/LightBuzz.RealSense/CoordinateMapper.cs:294 | a ray clamped to the corner (640,480) of a 640x480 image reads index 307840 of a 307200-sample buffer and throws |
| `CoordinateMapping.CornerSearchReadsPastTheBuffer` | LightBuzz.RealSense/LightBuzz.RealSense/CoordinateMapper.cs:283-294 | with the flag clear, a 640x480 depth image and both clamped ends at (640,480), `MapColorToDepth` throws `IndexOutOfRange` whatever the depth data |
| `CoordinateMapping.ClampToPixelGrid` | LightBuzz.RealSense/LightBuzz.RealSense/CoordinateMapper.cs:406-414 | corrected clamp: the point ends up in `[0, width-1] x [0, height-1]` and grid points are kept |
| `CoordinateMapping.GridBoxIndexesInside` | LightBuzz.RealSense/LightBuzz.RealSense/CoordinateMapper.cs:294 | every point in the box of two grid points has a row-major index inside a `width*height` buffer |
| `CoordinateMapping.MapColorToDepthCorrected` | LightBuzz.RealSense/LightBuzz.RealSense/CoordinateMapper.cs:266-315 | the corrected search returns the colour pixel unchanged when the flag is set |
| `CoordinateMapping.CorrectedSearchStaysInBuffer` | LightBuzz.RealSense/LightBuzz.RealSense/CoordinateMapper.cs:294 | with a `width*height` buffer the corrected search never reads out of range |
| `CoordinateMapping.CorrectedSearchEndsOnADegenerateSegment` | LightBuzz.RealSense/LightBuzz.RealSense/CoordinateMapper.cs:292 | when both ends clamp to one pixel the corrected search returns |
| `Casts.TruncateToInt` | LightBuzz.RealSense.Demo/Assets/LightBuzz_RealSense/Scripts/Sample.cs:80-81 | the `(int)` cast: the integer part toward zero, within 1 of the value |
| `DepthSampling.UpdateCursor` | LightBuzz.RealSense.Demo/Assets/LightBuzz_RealSense/Scripts/Sample.cs:76-82 | a mouse over the frame moves the cursor to its pixel, with Y counted from the top, inside `[0,640] x [0,480]`; elsewhere the cursor is unchanged |
| `DepthSampling.CursorStaysInRange` | LightBuzz.RealSense.Demo/Assets/LightBuzz_RealSense/Scripts/Sample.cs:37-82 | from the initial centre, or any in-range cursor, the cursor stays in range after any mouse sequence |
| `DepthSampling.SampleWindow` | LightBuzz.RealSense.Demo/Assets/LightBuzz_RealSense/Scripts/Sample.cs:138-141 | a column (row) is in the window exactly when it lies within the radius and on the frame |
| `DepthSampling.ColumnSamples` | LightBuzz.RealSense.Demo/Assets/LightBuzz_RealSense/Scripts/Sample.cs:145-153 | one column keeps only samples in (0, 5000), at most one per row |
| `DepthSampling.WindowSamplesUpTo` | LightBuzz.RealSense.Demo/Assets/LightBuzz_RealSense/Scripts/Sample.cs:143-154 | the window keeps only samples in (0, 5000) |
| `DepthSampling.ColumnSamplesAreTheValidPixels` | LightBuzz.RealSense.Demo/Assets/LightBuzz_RealSense/Scripts/Sample.cs:145-153 | a value is kept from a column exactly when some row of it holds that valid value |
| `DepthSampling.WindowSamplesAreTheValidPixels` | LightBuzz.RealSense.Demo/Assets/LightBuzz_RealSense/Scripts/Sample.cs:143-154 | a value is kept exactly when some window pixel holds that valid value |
| `DepthSampling.ColumnSamplesCountThePixels` | LightBuzz.RealSense.Demo/Assets/LightBuzz_RealSense/Scripts/Sample.cs:145-153 | each value occurs among a column's samples exactly as often as rows of the column hold that valid value |
| `DepthSampling.WindowSamplesCountThePixels` | LightBuzz.RealSense.Demo/Assets/LightBuzz_RealSense/Scripts/Sample.cs:143-154 | each value occurs among the window's samples exactly as often as window pixels hold that valid value |
| `DepthSampling.SampleCountIsBounded` | LightBuzz.RealSense.Demo/Assets/LightBuzz_RealSense/Scripts/Sample.cs:143-154 | at most one sample per window pixel |
| `DepthSampling.WindowHoldsAtMostTheSquare` | LightBuzz.RealSense.Demo/Assets/LightBuzz_RealSense/Scripts/Sample.cs:138-154 | at most `(2 radius)^2` samples around any cursor |
| `DepthSampling.CollectColumn` | LightBuzz.RealSense.Demo/Assets/LightBuzz_RealSense/Scripts/Sample.cs:145-153 | the inner loop reads only in-range indices and yields the column's samples |
| `DepthSampling.CollectSamples` | LightBuzz.RealSense.Demo/Assets/LightBuzz_RealSense/Scripts/Sample.cs:143-154 | the two loops collect, in loop order, exactly the valid samples of any window that lies on the frame |
| `DepthSampling.Accumulate` | LightBuzz.RealSense.Demo/Assets/LightBuzz_RealSense/Scripts/Sample.cs:158-161 | the `foreach` adds the sum of the samples onto its start value |
| `DepthSampling.AverageOnto` | LightBuzz.RealSense.Demo/Assets/LightBuzz_RealSense/Scripts/Sample.cs:156-165 | without samples the cursor pixel's reading `depth`; otherwise (depth + sum) / count / 1000 |
| `DepthSampling.MedianDepth` | LightBuzz.RealSense.Demo/Assets/LightBuzz_RealSense/Scripts/Sample.cs:129-168 | the result is the seeded average of the window's valid samples |
| `DepthSampling.SeededAverageOffsetsTheMean` | LightBuzz.RealSense.Demo/Assets/LightBuzz_RealSense/Scripts/Sample.cs:134-164 | the seeded result is the mean in metres plus depth / (count * 1000), where `depth` is the cursor pixel's reading |
| `DepthSampling.SeededAverageMissesASingleSample` | LightBuzz.RealSense.Demo/Assets/LightBuzz_RealSense/Scripts/Sample.cs:134-164 | one sample of 1000 mm with a cursor reading of 1.0 m gives 1.001, not 1.0 |
| `DepthSampling.MeanDepth` | LightBuzz.RealSense.Demo/Assets/LightBuzz_RealSense/Scripts/Sample.cs:129-168 | corrected read-out: the mean of the valid samples in metres, within [0.001, 4.999] m, or the cursor pixel's reading without samples |
| `DepthSampling.MeanOrReading` | LightBuzz.RealSense.Demo/Assets/LightBuzz_RealSense/Scripts/Sample.cs:156-167 | corrected tail: for valid samples, their mean in metres within [0.001, 4.999]; without samples the cursor reading |
| `DepthSampling.SumOfValidSamples` | LightBuzz.RealSense.Demo/Assets/LightBuzz_RealSense/Scripts/Sample.cs:149-151 | a sum of valid samples lies between 1 and 4999 per sample |
| `DepthSampling.MeanOfValidSamplesIsInRange` | LightBuzz.RealSense.Demo/Assets/LightBuzz_RealSense/Scripts/Sample.cs:149-164 | the mean of valid samples lies in [0.001, 4.999] m |
| `DepthSampling.ConstantSamplesAverageToThemselves` | LightBuzz.RealSense.Demo/Assets/LightBuzz_RealSense/Scripts/Sample.cs:134-164 | equal samples have their own value as mean; the seeded result equals it exactly when the cursor reading is 0 |

## Left out

- `RealSenseDevice` is not part of this model. It holds the worker thread, its event, pipeline start and stop, alignment and event dispatch, so also `Create(RealSenseDevice)`, which only reads its active profile and configuration.
- The parameterless `DeviceConfiguration` constructor is left out. Its fields take the C# defaults, and the default `VideoStreamMode` depends on an enum declaration that is not part of this model.
- `VideoStreamRequest.Equals(object)` and `GetHashCode` are left out: boxing and the runtime's anonymous-type hash.
- `HasConflict(VideoFrame)` with a `null` frame is left out. A frame is always a value in the model.
- `CoordinateMapperExtensions` and `AlignedFrameData` are left out: a one-line delegation and a data holder.
- The Unity glue of `Sample` is left out: `Start`, `OnDestroy`, the texture upload, the log text and the frame callback. The callback's `GetDistance` reading enters `MedianDepth` as the `depth` parameter.
- The Ftheta branch of `Map3DTo2D` is not modelled. It needs a square root, an arc tangent and a tangent, so the caller supplies it as an `FthetaWarp` function. The Brown-Conrady polynomials are written out over reals. What is proved about them is the zero-coefficient identity, the fixed origin, and that without tangential coefficients they keep a point on its ray.
- The reprojection inside the search is a caller-supplied `Reprojection` function. The source composes `MapDepthToWorld`, `MapWorldToWorld` with the depth extrinsics and `MapWorldToColor`, which divides by a Z that may be zero. `CoordinateMapping.SourceReprojection` writes that composition out where Z is not zero, and `ReprojectsLikeTheSource` says when a supplied function agrees with it. The driver's `GetIntrinsics` and `GetExtrinsicsTo` are likewise caller-supplied functions.
- The default arguments `depthMin = 0.1` and `depthMax = 10` of `MapColorToDepth` are not modelled. The model always takes both depths, so a call that leaves them out is the call with 0.1 and 10.
- `Vector2D` and `Vector3D` are declared outside the core. They are modelled as immutable values, so the loop variable of the search is a copy of `start_pixel`, and the step's assignments to `current` change only that copy.
- Floating point is not modelled: all arithmetic is over ideal reals.
  - Divisions whose divisor may be zero (which give infinities or NaN in `float`) are excluded by preconditions: `Map3DTo2D` needs Z != 0 and `Map2DTo3D` needs non-zero focal lengths.
  - `MapColorToDepth` needs the two transformed segment ends off the depth image plane when the flag is clear.
  - `LineWalk.NextPointInLine`: with slope 0 the Y step keeps X instead of producing an infinity. `LineWalk.FlatYStepLeavesTheLine` shows that X is never read.
- C# `int` overflow is not modelled. The casts are assumed to land inside the `int` range, and the index arithmetic is unbounded.
- `CoordinateMapping.MapColorToDepth`: the source loop may never end, so the search runs for a caller-given fuel and reports `NotTerminated` when the fuel runs out. `LineWalk.WalkIsStableUnderMoreFuel` shows the fuel does not change a finished search. Termination of the corrected walk is not claimed either, beyond the degenerate segment.
- `CoordinateMapping.MapColorToDepthCorrected`: its ensures covers only the flag shortcut. Its search properties are stated by `CorrectedSearchStaysInBuffer` and `CorrectedSearchEndsOnADegenerateSegment`.

## Findings

| source | as written | input that shows it | evidently intended | confidence | as-written member | corrected member |
|---|---|---|---|---|---|---|
| LightBuzz.RealSense/LightBuzz.RealSense/CoordinateMapper.cs:87-93 | the match flag joins the seven field comparisons with `\|\|` | colour 640x480, principal point (320,240), focal lengths 600; depth 640x360, principal point (300,180), focal lengths 400 | all seven fields agree (`&&`): the field is named `colorAndDepthMatch`, and when it is set `MapColorToDepth` (lines 268-271) returns the colour pixel as the depth pixel, which is only right for cameras that project alike | medium, not executed | `CoordinateMapping.MatchFlagAcceptsDifferentCameras` | `CoordinateMapping.CorrectedShortcutIsExact` |
| LightBuzz.RealSense/LightBuzz.RealSense/CoordinateMapper.cs:406-414 | segment ends are clamped to `[0, width] x [0, height]` | a 640x480 depth image and a ray whose segment ends both project beyond the corner, e.g. to (700, 500): clamped to (640, 480), read at index 307840 of 307200 | clamp to the last pixel, `[0, width-1] x [0, height-1]` | high, not executed | `CoordinateMapping.CornerSearchReadsPastTheBuffer` | `CoordinateMapping.CorrectedSearchStaysInBuffer` |
| LightBuzz.RealSense/LightBuzz.RealSense/CoordinateMapper.cs:442 | the Y step recomputes X as `end.X - (end.Y + current.Y) / slope` | segment (0,0)-(1,10): the first step goes to (-0.1, 1), off the line and outside the box, so the search reads one pixel only | `end.X - (end.Y - current.Y) / slope`, keeping the walk on the line | medium, not executed | `LineWalk.SteepStepLeavesTheLine` | `LineWalk.NextPointOnLine` |
| LightBuzz.RealSense/LightBuzz.RealSense/CoordinateMapper.cs:430 | the step does nothing when `start.X == end.X`, so the loop at line 292 revisits the start forever | both segment ends clamped to the same pixel, e.g. a ray that projects entirely to the left of the depth image | step along Y on a vertical segment, so the walk moves on | high, not executed | `LineWalk.DegenerateWalkEnds` | `CoordinateMapping.CorrectedSearchEndsOnADegenerateSegment` |
| LightBuzz.RealSense.Demo/Assets/LightBuzz_RealSense/Scripts/Sample.cs:134-164 | the running total starts at the cursor pixel's reading in metres and adds samples in millimetres | one valid sample of 1000 mm and a cursor reading of 1.0 m: 1.001 instead of 1.0 | start the total at 0; keep the cursor reading only when there is no sample | medium, not executed | `DepthSampling.SeededAverageMissesASingleSample` | `DepthSampling.MeanDepth` |
