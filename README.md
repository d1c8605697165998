# StreamingMesh receiver core in Dafny

This project models the playback core of `STMHttpReceiver`, the Unity component of StreamingMesh. The component receives a stream of compressed vertex animation and plays it back. Under the engine glue is a sequential, byte-level core:

- **Frame decoder** (`VerticesReceived`). A binary frame is either a keyframe or a delta frame.
  - A keyframe holds packages of 5-byte vertex records. Each record is bounds-checked, written into the current vertex store, and appended to the index trace (`linedIndices`).
  - A delta frame replays that trace. It adds a signed, squared 3-byte correction to each vertex the trace names.
  - Before decoding, the current store and root position are copied to the previous ones. After any call that does not throw, the interpolation weight is reset to 0.
- **Segments.** A downloaded segment is cut into frames by the byte sizes listed in the stream manifest. Each frame is stamped with the time `index * 10 + k * 0.1` and appended to the playback buffer. Each segment number in the manifest is registered, and its segment requested, only once.
- **Playback.** Each tick (`Update`):
  - the manifest is refreshed on a timer;
  - at most one buffered frame is decoded, and the cursor moves past it;
  - the previous vertices are blended towards the current ones while the weight is below 1.
  
  `SeekTo` snaps the cursor down to a keyframe slot and decodes that frame twice, so that previous equals current.

Each of these is modelled in the form the C# code has:

- **Pure formulas** (`quantization.dfy`) are functions. They cover the little-endian fields, the 5-bit keyframe offsets, the squared delta correction, the trace encoding and the linear blend.
- **The decoder as a value** (`frame_decoder.dfy`). `DecodeFrame` is a function over a `Decoder` value. It states what one call of `VerticesReceived` does, and the lemmas about the decoder are proved about it.
- **Segments as values** (`segments.dfy`). `SegmentFrames` slices a segment and `Register` dedups the manifest.
- **The receiver** (`receiver.dfy`) is one class whose fields are the component's fields:
  - the vertex arrays are `seq<array<Vec3>>`;
  - the lists are `seq` fields that the methods reassign.
  
  Its methods mirror the C# methods loop for loop and write the arrays in place. The decoding and slicing methods are proved equal to the value-level functions above: `VerticesReceived` to `DecodeFrame`, `DecodeReady` to `DecodeData`, `DecodeBody` to `DecodePayload`, `ReadHeader` to `DecodeHeader`, `DecodeKeyframe`, `KeyframeBody` and `DecodePackage` to `Packages`, `DecodeRecords` and `RecordAt` to `Records`, `DecodeRecord` to `RecordStep`, `DecodeDelta` and `DeltaStep` to `DeltaSteps`, `OnStreamListReceived` to `Register`, `OnStreamDataReceived` and `CutSegment` to `SegmentFrames`, `UpdateVertsInterpolate` and `BlendMeshes` to `BlendStores`, and `BlendMesh` to `BlendVec`; `AdvanceCursor` and `PlayFrame` state their decode through `DecodeFrame`. The other methods (`Update`, `RefreshManifest`, `InterpolationTick`, `Advance`, `SeekTo`, `ReplayCursor`, `Resume`, `DecodeTwice`, `CopyToOld`, `ReadPosition`, `Reset`, `OnInitialDataReceived`, `RequestAll`, `AssetReceived`, `OnMeshInfoReceived`, `AddMesh`) state the new values of the fields they change directly, except where a line under "## Left out" says otherwise: `Update`, `DecodeTwice`, `SeekTo` and `ReplayCursor` state only part of their new state.

A C# exception is modelled as the result `completed == false`, raised at the same point; every change made before the throw is kept. The exceptions are:

- reading past the end of a frame;
- a `GetRange` that overruns the segment;
- a `GetRange` of negative size (a negative entry in a size list);
- a size-list lookup `streamBufferByteSize[index]` with a segment number outside the size lists;
- a negative list index (the playback cursor);
- `localRoot` while it is still null.

Positions and timers are `real`, so every formula is the exact value that the single-precision code approximates. The C# bit operations are written as arithmetic on non-negative integers.

## Model

| member | source | states |
|---|---|---|
| Quantization.Le16 | Assets/StreamingMesh/STMHttpReceiver.cs:466 | a 16-bit little-endian field is below 65536 and gives back its low and high byte |
| Quantization.Le24 | Assets/StreamingMesh/STMHttpReceiver.cs:438 | `(b2 << 16) + (b1 << 8) + b0`, the 24-bit package and vertex counts, lies in [0, 2^24) |
| Quantization.Le24Bytes | Assets/StreamingMesh/STMHttpReceiver.cs:438 | the three bytes of the 24-bit package/vertex count are recovered from its value |
| Quantization.Le24Onto | Assets/StreamingMesh/STMHttpReceiver.cs:462 | every 24-bit count is the field of its own three bytes (the inverse of Le24Bytes) |
| Quantization.FieldX | Assets/StreamingMesh/STMHttpReceiver.cs:479 | `compress & 0x1F`, the x offset (bits 0..4), lies in [0, 31] |
| Quantization.FieldY | Assets/StreamingMesh/STMHttpReceiver.cs:480 | `(compress >> 5) & 0x1F`, the y offset (bits 5..9), lies in [0, 31] |
| Quantization.FieldZ | Assets/StreamingMesh/STMHttpReceiver.cs:481 | `(compress >> 10) & 0x1F`, the z offset (bits 10..14), lies in [0, 31] |
| Quantization.FieldsInRange | Assets/StreamingMesh/STMHttpReceiver.cs:479-481 | each packed offset `compress & 0x1F`, `(compress >> 5) & 0x1F`, `(compress >> 10) & 0x1F` lies in [0, 31], and bit 15 of the word is ignored |
| Quantization.FieldsRecompose | Assets/StreamingMesh/STMHttpReceiver.cs:479-481 | the three fields are exactly the low 15 bits of the word |
| Quantization.QuantOf | Assets/StreamingMesh/STMHttpReceiver.cs:453-455 | `hk = packageSize / 2` is a truncating division, at least 1, and `qk * hk == areaRange` |
| Quantization.OriginCoord | Assets/StreamingMesh/STMHttpReceiver.cs:458-460 | `(b - hk) * qk`, one axis of a package origin, is 0 at byte `hk` and, for a positive cell size, negative exactly for the bytes below `hk`: the grid is centred on the root |
| Quantization.KeyCoord | Assets/StreamingMesh/STMHttpReceiver.cs:483-485 | computes `origin + field * (qk / 32)`, one axis of a keyframe vertex; see KeyCoordExact and KeyCoordInCell |
| Quantization.KeyCoordExact | Assets/StreamingMesh/STMHttpReceiver.cs:458-485 | a keyframe coordinate is `qk * ((b - hk) * 32 + field) / 32`; an all-zero offset gives exactly the package origin |
| Quantization.KeyCoordInCell | Assets/StreamingMesh/STMHttpReceiver.cs:458-485 | a decoded coordinate lies between its cell origin and 31/32 of a cell beyond it |
| Quantization.Sign | Assets/StreamingMesh/STMHttpReceiver.cs:509 | computes Unity's `Mathf.Sign`: 1 for zero and positive values, -1 for negative ones; see DeltaOffsetExact |
| Quantization.DeltaOffset | Assets/StreamingMesh/STMHttpReceiver.cs:506-511 | computes `Sign(dx) * (dx * dx)` with `dx = (b - 128) * (1 / 128)`; see DeltaOffsetExact, DeltaOffsetSign, DeltaOffsetBoundaries, DeltaOffsetMonotone and DeltaOffsetOdd |
| Quantization.DeltaOffsetExact | Assets/StreamingMesh/STMHttpReceiver.cs:506-511 | the delta correction of byte b is `sign(b - 128) * (b - 128)^2 / 16384` |
| Quantization.DeltaOffsetBoundaries | Assets/StreamingMesh/STMHttpReceiver.cs:506-511 | byte 128 adds 0, byte 0 adds -1, byte 255 adds 127^2/16384, and every byte lies between these |
| Quantization.DeltaOffsetMonotone | Assets/StreamingMesh/STMHttpReceiver.cs:506-511 | the correction grows with the byte |
| Quantization.DeltaOffsetOdd | Assets/StreamingMesh/STMHttpReceiver.cs:506-511 | bytes 128 + k and 128 - k give opposite corrections |
| Quantization.DeltaOffsetSign | Assets/StreamingMesh/STMHttpReceiver.cs:506-511 | a byte below 128 gives a negative correction, byte 128 none, and a byte above 128 a positive one |
| Quantization.DeltaVec | Assets/StreamingMesh/STMHttpReceiver.cs:506-513 | the correction of one delta entry, one byte per axis, is zero exactly when all three bytes are 128 |
| Quantization.Pack | Assets/StreamingMesh/STMHttpReceiver.cs:489 | `(mIdx << 16) + vIdx`: for a non-negative mesh index and a 16-bit vertex index, dividing by 2^16 gives back the mesh and the remainder the vertex |
| Quantization.TraceMesh | Assets/StreamingMesh/STMHttpReceiver.cs:503 | `(idx >> 16) & 0xFF`, the mesh index of a trace entry, lies in [0, 255] |
| Quantization.TraceVertex | Assets/StreamingMesh/STMHttpReceiver.cs:504 | `idx & 0xFFFF`, the vertex index of a trace entry, lies in [0, 65535] |
| Quantization.PackRoundTrip | Assets/StreamingMesh/STMHttpReceiver.cs:489-504 | `(mIdx << 16) + vIdx` unpacks to `mIdx` and `vIdx` for a mesh byte and a 16-bit vertex index |
| Quantization.UnpackRoundTrip | Assets/StreamingMesh/STMHttpReceiver.cs:503-504 | every 24-bit trace entry is the packing of its unpacked parts |
| Quantization.Blend | Assets/StreamingMesh/STMHttpReceiver.cs:398-401 | `c + (b - c) * w` is the previous value at weight 0 and the current one at weight 1 |
| Quantization.BlendVec | Assets/StreamingMesh/STMHttpReceiver.cs:394-401 | computes the blend of one vertex, axis by axis; see BlendEnds |
| Quantization.BlendEnds | Assets/StreamingMesh/STMHttpReceiver.cs:394-401 | the blend is the previous vertex at weight 0, the current one at weight 1, and exact when the two agree |
| Quantization.BlendBetween | Assets/StreamingMesh/STMHttpReceiver.cs:398-401 | for weights in [0, 1] the blend stays between the previous and current values, whichever of the two is smaller |
| FrameDecoder.KeyVertex | Assets/StreamingMesh/STMHttpReceiver.cs:477-485 | computes the position an accepted record encodes: the package origin of bytes `pkg..pkg+2` plus the three 5-bit offsets of its `compress` word, each scaled by `qk / 32`; see KeyCoordExact, KeyCoordInCell and KeyframeScan |
| FrameDecoder.RecordStep | Assets/StreamingMesh/STMHttpReceiver.cs:465-490 | one keyframe record keeps the mesh sizes and leaves every trace entry naming a vertex |
| FrameDecoder.Records | Assets/StreamingMesh/STMHttpReceiver.cs:464-491 | the records of one package keep the mesh sizes and leave every trace entry naming a vertex |
| FrameDecoder.Packages | Assets/StreamingMesh/STMHttpReceiver.cs:457-497 | the package walk keeps the mesh sizes and a trace that fits the store |
| FrameDecoder.DeltaSteps | Assets/StreamingMesh/STMHttpReceiver.cs:498-515 | the delta walk keeps the shape of the store |
| FrameDecoder.DecodeHeader | Assets/StreamingMesh/STMHttpReceiver.cs:432-443 | the header copies current to previous (store and position) and completes iff 21 bytes are present |
| FrameDecoder.PackageCount | Assets/StreamingMesh/STMHttpReceiver.cs:438 | the package count of bytes 5..7 lies in [0, 2^24) |
| FrameDecoder.DecodePayload | Assets/StreamingMesh/STMHttpReceiver.cs:445-516 | the payload keeps the store's shape, a trace that fits it, and the weight |
| FrameDecoder.DecodeData | Assets/StreamingMesh/STMHttpReceiver.cs:432-517 | header then payload keep the store's shape, a trace that fits it, and the weight |
| FrameDecoder.DecodeFrame | Assets/StreamingMesh/STMHttpReceiver.cs:430-519 | one call of `VerticesReceived` keeps the store's shape and a trace that fits it |
| FrameDecoder.DecodeFrameBuffers | Assets/StreamingMesh/STMHttpReceiver.cs:430-449 | a ready decode first makes previous equal current; without metadata only the weight changes; a short header throws; a completed call leaves the weight 0; a frame type other than 0x0F/0x0E changes no vertex, trace or flag |
| FrameDecoder.TruncatedHeaderChangesNoVertex | Assets/StreamingMesh/STMHttpReceiver.cs:438-443 | a frame shorter than 21 bytes throws before touching any vertex, trace entry, flag or the weight |
| FrameDecoder.RecordsErrorFlag | Assets/StreamingMesh/STMHttpReceiver.cs:464-491 | after a package's records, the error flag is exactly "the last record was rejected" |
| FrameDecoder.RecordsOnlyNamed | Assets/StreamingMesh/STMHttpReceiver.cs:464-491 | a package's records only append to the trace and change only the vertices the appended entries name |
| FrameDecoder.PackagesOnlyNamed | Assets/StreamingMesh/STMHttpReceiver.cs:457-497 | the same over all packages |
| FrameDecoder.KeyframeTouchesOnlyTrace | Assets/StreamingMesh/STMHttpReceiver.cs:449-497 | a keyframe sets the normals flag, rebuilds the trace from empty with in-bounds entries only, and every vertex that no new entry names keeps its value |
| FrameDecoder.RecordsScan | Assets/StreamingMesh/STMHttpReceiver.cs:464-491 | the records of a package do exactly what the list of their outcomes (accepted with vertex and position, or rejected) says: the trace gains one `(mIdx << 16) + vIdx` per accepted record in order, the flag is "last outcome was a rejection" (unchanged with none), every vertex holds the last position written to it; the walk completes exactly when the outcomes do |
| FrameDecoder.PackagesScan | Assets/StreamingMesh/STMHttpReceiver.cs:457-497 | the same over all packages, whose outcomes are the concatenation of each package's |
| FrameDecoder.KeyframeScan | Assets/StreamingMesh/STMHttpReceiver.cs:449-497 | a whole keyframe decode, against the outcomes of all its records: it completes exactly when they do; the new trace is one entry per accepted record, in order; `getErrorData` says whether the last examined record was rejected, or keeps its old value when none was examined; every vertex holds the last accepted position naming it, or its old value |
| FrameDecoder.KeyframeNoRecordsKeepsFlag | Assets/StreamingMesh/STMHttpReceiver.cs:449-497 | a keyframe with no examined record leaves `getErrorData` and every vertex as they were and empties the trace |
| FrameDecoder.LastWriteWins | Assets/StreamingMesh/STMHttpReceiver.cs:487 | the value the outcomes leave at a vertex is the position of the last accepted record naming it, or the old value when none does |
| FrameDecoder.KeyframeWalkIdempotent | Assets/StreamingMesh/STMHttpReceiver.cs:457-497 | walking a keyframe's packages again over their own result changes nothing |
| FrameDecoder.KeyframeDecodeTwice | Assets/StreamingMesh/STMHttpReceiver.cs:379-380 | decoding the same keyframe twice leaves previous == current, and the second decode changes no vertex, trace entry, flag or completion of the first |
| FrameDecoder.DeltaStepsCompletes | Assets/StreamingMesh/STMHttpReceiver.cs:501-515 | the delta walk runs to its end iff the frame holds 3 bytes per trace entry |
| FrameDecoder.ContributionUnnamed | Assets/StreamingMesh/STMHttpReceiver.cs:501-515 | a vertex no trace entry names receives no correction |
| FrameDecoder.DeltaStepsAdd | Assets/StreamingMesh/STMHttpReceiver.cs:501-515 | a completed delta walk adds to each vertex the sum of the corrections of the entries naming it |
| FrameDecoder.DeltaFrameAdds | Assets/StreamingMesh/STMHttpReceiver.cs:498-515 | with the flag clear, a delta frame completes iff it holds 3 bytes per trace entry, and then adds to every vertex exactly its corrections; the trace and flag are unchanged |
| FrameDecoder.DeltaSkippedWhenFlagged | Assets/StreamingMesh/STMHttpReceiver.cs:498 | while the error flag is set a delta frame changes no vertex |
| FrameDecoder.DeltaFrameTwice | Assets/StreamingMesh/STMHttpReceiver.cs:498-515 | the same delta frame applied twice moves every vertex by exactly twice one application's offset |
| FrameDecoder.DeltaFrameOnce | Assets/StreamingMesh/STMHttpReceiver.cs:498-515 | one complete delta decode as a value: trace and shape kept, corrections added |
| FrameDecoder.OneVertexKeyframeDecodes | Assets/StreamingMesh/STMHttpReceiver.cs:449-491 | a one-package keyframe with origin (10, 10, 10) and a zero offset for vertex 0 of mesh 0 puts that vertex exactly on the origin and leaves the trace `[(0 << 16) + 0]` |
| FrameDecoder.AcceptedRecordClearsFlag | Assets/StreamingMesh/STMHttpReceiver.cs:468-490 | a rejected record followed by an accepted one leaves the error flag clear |
| Segments.Sum | Assets/StreamingMesh/STMHttpReceiver.cs:302-306 | the total of non-negative sizes is non-negative |
| Segments.SumPrefixBounds | Assets/StreamingMesh/STMHttpReceiver.cs:302-306 | every prefix sum of non-negative sizes lies between 0 and the total |
| Segments.SegmentTime | Assets/StreamingMesh/STMHttpReceiver.cs:303 | `index * 10 + cnt * 0.1`: each of a segment's first 100 frames is stamped inside that segment's 10-unit window |
| Segments.Piece | Assets/StreamingMesh/STMHttpReceiver.cs:304 | frame k holds `sizes[k]` bytes |
| Segments.SegmentFrames | Assets/StreamingMesh/STMHttpReceiver.cs:302-309 | a segment yields one frame per size |
| Segments.PieceAt | Assets/StreamingMesh/STMHttpReceiver.cs:304-306 | frame k is `blob[sum(sizes[..k]) .. sum(sizes[..k]) + sizes[k]]` |
| Segments.FrameAt | Assets/StreamingMesh/STMHttpReceiver.cs:302-307 | frame k of segment `index` has time `index * 10 + k * 0.1` and the k-th piece of the blob |
| Segments.SlicesTile | Assets/StreamingMesh/STMHttpReceiver.cs:302-309 | the frames read back in order are exactly the first `sum(sizes)` bytes: no overlap, no gap |
| Segments.SliceInRange | Assets/StreamingMesh/STMHttpReceiver.cs:304-306 | when the sizes fit, no cut overruns the bytes left or is negative |
| Segments.SliceNext | Assets/StreamingMesh/STMHttpReceiver.cs:302-307 | a cut inside the blob extends the frames by the next `sizes[cnt]` bytes |
| Segments.RegisterEntry | Assets/StreamingMesh/STMHttpReceiver.cs:283-288 | a numbered manifest line is registered afterwards; an unnumbered line or an already registered number changes nothing |
| Segments.Register | Assets/StreamingMesh/STMHttpReceiver.cs:278-290 | computes the registry after the manifest lines, taken in order, each through RegisterEntry; see RegisterKeepsUnique, RegisterFromEntries, RegisterKnown and RegisterIdempotent |
| Segments.RegisterKeepsUnique | Assets/StreamingMesh/STMHttpReceiver.cs:284-287 | the registered numbers stay free of duplicates and in step with the size lists; registering only appends, with one request per new number; every numbered line ends up registered |
| Segments.RegisterFromEntries | Assets/StreamingMesh/STMHttpReceiver.cs:284-287 | each newly registered number, its size list and its request come from one manifest line that lists that number |
| Segments.RegisterKnown | Assets/StreamingMesh/STMHttpReceiver.cs:284 | a manifest whose numbered lines are all registered changes nothing and requests nothing |
| Segments.RegisterIdempotent | Assets/StreamingMesh/STMHttpReceiver.cs:276-291 | receiving the same manifest again registers nothing new and requests no segment twice |
| Receiver.BlendStores | Assets/StreamingMesh/STMHttpReceiver.cs:389-405 | the blended pose has the shape of the current store |
| Receiver.BlendStoresEnds | Assets/StreamingMesh/STMHttpReceiver.cs:398-401 | the blend of all meshes is the previous store at weight 0 and the current store at weight 1 |
| Receiver.BlendStoresSame | Assets/StreamingMesh/STMHttpReceiver.cs:398-401 | when previous and current agree, the blend is that store at every weight |
| Receiver.Zeros | Assets/StreamingMesh/STMHttpReceiver.cs:203-204 | a fresh `Vector3[n]` holds n origin vertices |
| Receiver.CutSegment | Assets/StreamingMesh/STMHttpReceiver.cs:301-309 | the slicing loop completes iff the sizes fit the blob, and then yields exactly `SegmentFrames` |
| Receiver.BlendMesh | Assets/StreamingMesh/STMHttpReceiver.cs:390-405 | the blend of one mesh: a clone of the previous array with every vertex blended towards the current one |
| Receiver.CsDiv | Assets/StreamingMesh/STMHttpReceiver.cs:375 | C# integer division truncates toward zero: for `a >= 0`, `0 <= n * r <= a < n * r + n`; for `a < 0`, `n * r - n < a <= n * r <= 0` |
| Receiver.SeekFrame | Assets/StreamingMesh/STMHttpReceiver.cs:374-377 | computes the target clamped to the last frame, then truncated to a multiple of `subframesPerKeyframe + 1`; see SeekFrameBounds |
| Receiver.SeekFrameBounds | Assets/StreamingMesh/STMHttpReceiver.cs:374-377 | for a target t >= 0 the seek frame is a multiple of 5, within the buffer, no later than t and within 5 of the clamped target; it is negative iff t <= -5 |
| Receiver.Receiver.constructor | Assets/StreamingMesh/STMHttpReceiver.cs:38-72 | the field initializers |
| Receiver.Receiver.CopyToOld | Assets/StreamingMesh/STMHttpReceiver.cs:433-435 | `vertsBuf[i].CopyTo(vertsBuf_old[i], 0)` for every mesh makes the previous store equal the current one and leaves the current one unchanged |
| Receiver.Receiver.DecodeRecord | Assets/StreamingMesh/STMHttpReceiver.cs:465-490 | one record in place equals `RecordStep` |
| Receiver.Receiver.DecodeKeyframe | Assets/StreamingMesh/STMHttpReceiver.cs:451-497 | the package loop clears the trace and equals the `Packages` walk from offset 21 |
| Receiver.Receiver.DecodePackage | Assets/StreamingMesh/STMHttpReceiver.cs:458-496 | one package in place is one step of the `Packages` walk, with the next offset |
| Receiver.Receiver.DecodeRecords | Assets/StreamingMesh/STMHttpReceiver.cs:464-491 | the record loop equals the `Records` walk |
| Receiver.Receiver.RecordAt | Assets/StreamingMesh/STMHttpReceiver.cs:465-490 | record j in place is one step of the `Records` walk |
| Receiver.Receiver.DecodeDelta | Assets/StreamingMesh/STMHttpReceiver.cs:499-515 | the trace loop equals the `DeltaSteps` walk |
| Receiver.Receiver.DeltaStep | Assets/StreamingMesh/STMHttpReceiver.cs:502-514 | trace entry i in place is one step of the delta walk |
| Receiver.Receiver.ReadHeader | Assets/StreamingMesh/STMHttpReceiver.cs:432-443 | the header in place equals `DecodeHeader` |
| Receiver.Receiver.ReadPosition | Assets/StreamingMesh/STMHttpReceiver.cs:441-443 | each 4-byte root-position field is read only if present; the first missing one throws |
| Receiver.Receiver.DecodeBody | Assets/StreamingMesh/STMHttpReceiver.cs:445-516 | the payload in place equals `DecodePayload` |
| Receiver.Receiver.KeyframeBody | Assets/StreamingMesh/STMHttpReceiver.cs:449-497 | a keyframe sets the normals flag and equals the `Packages` walk |
| Receiver.Receiver.VerticesReceived | Assets/StreamingMesh/STMHttpReceiver.cs:430-519 | the whole method in place equals `DecodeFrame` on the receiver's state; a completed call leaves the weight 0 |
| Receiver.Receiver.DecodeReady | Assets/StreamingMesh/STMHttpReceiver.cs:432-517 | the decode once metadata is in equals `DecodeData` |
| Receiver.Receiver.Reset | Assets/StreamingMesh/STMHttpReceiver.cs:87-104 | every segment, buffered frame, mesh array and trace entry is forgotten, the manifest URL dropped, the session marked incomplete and the manifest timer set one second short of a refresh |
| Receiver.Receiver.OnInitialDataReceived | Assets/StreamingMesh/STMHttpReceiver.cs:133-156 | the session constants are taken from the channel, one request is made per texture, material and mesh URL in that order, each counted, and the session is marked complete |
| Receiver.Receiver.RequestAll | Assets/StreamingMesh/STMHttpReceiver.cs:140-153 | each URL is requested in order and counted as outstanding |
| Receiver.Receiver.OnMeshInfoReceived | Assets/StreamingMesh/STMHttpReceiver.cs:203-208 | a new mesh gets a fresh current and a fresh previous array at the origin, in lockstep; one request fewer is outstanding |
| Receiver.Receiver.AddMesh | Assets/StreamingMesh/STMHttpReceiver.cs:203-208 | the two arrays are appended in lockstep and the invariant is kept |
| Receiver.Receiver.AssetReceived | Assets/StreamingMesh/STMHttpReceiver.cs:268-273 | a material or texture arriving leaves one request fewer outstanding |
| Receiver.Receiver.OnStreamListReceived | Assets/StreamingMesh/STMHttpReceiver.cs:276-293 | the loop over manifest lines equals `Register` and keeps the registry free of duplicates |
| Receiver.Receiver.OnStreamDataReceived | Assets/StreamingMesh/STMHttpReceiver.cs:295-313 | a segment with a registered number is appended as `SegmentFrames` of the sizes at that number; an unparsable or unregistered number changes nothing; a bad size or size index throws and appends nothing |
| Receiver.Receiver.UpdateVertsInterpolate | Assets/StreamingMesh/STMHttpReceiver.cs:387-425 | while the weight is below 1 every mesh is handed the blend of previous and current at that weight; the normals are recalculated for the first mesh only; the weight grows by `1 / interpolateFrames` unless `localRoot` is still null |
| Receiver.Receiver.BlendMeshes | Assets/StreamingMesh/STMHttpReceiver.cs:389-414 | the loop over meshes hands every mesh its blend and clears the normals flag after the first mesh |
| Receiver.Receiver.Update | Assets/StreamingMesh/STMHttpReceiver.cs:329-355 | nothing changes until the metadata and every asset are in; a request is only ever the manifest URL; the cursor moves by at most one, and only from a position inside the buffer |
| Receiver.Receiver.RefreshManifest | Assets/StreamingMesh/STMHttpReceiver.cs:330-336 | the manifest is requested again whenever its timer passes the refresh interval, and the timer is wound back by that interval |
| Receiver.Receiver.AdvanceCursor | Assets/StreamingMesh/STMHttpReceiver.cs:340-348 | once the timer passes the vertex interval the frame under the cursor is decoded (`DecodeFrame`) and the cursor moves on; past the end only the timer is wound back; a negative cursor throws |
| Receiver.Receiver.PlayFrame | Assets/StreamingMesh/STMHttpReceiver.cs:344-347 | the frame under the cursor is decoded and, unless that threw, the cursor advances and the timer is wound back |
| Receiver.Receiver.Advance | Assets/StreamingMesh/STMHttpReceiver.cs:345-347 | the cursor moves to the next frame and the timer is wound back by one vertex interval |
| Receiver.Receiver.InterpolationTick | Assets/StreamingMesh/STMHttpReceiver.cs:350-354 | the interpolation runs exactly when its timer passes `frameInterval / interpolateFrames` |
| Receiver.Receiver.SeekTo | Assets/StreamingMesh/STMHttpReceiver.cs:370-385 | an empty buffer changes nothing; a target of -5 or less leaves the cursor on the negative slot and throws with the decoder state, both timers and every mesh's pose unchanged; otherwise either a decode throws and the cursor stays on the snapped keyframe slot with both timers and every pose unchanged, or the cursor ends one past that slot with both timers at 0, and the call completes exactly when a mesh exists; after a keyframe, previous == current == every mesh's pose and the weight is one step |
| Receiver.Receiver.ReplayCursor | Assets/StreamingMesh/STMHttpReceiver.cs:378-384 | the frame under the cursor is decoded twice; either a decode throws and the cursor, both timers and every mesh's pose are as they were, or the cursor moves past the frame and both timers restart, and the call completes exactly when a mesh exists; after a keyframe every mesh shows the current store exactly |
| Receiver.Receiver.Resume | Assets/StreamingMesh/STMHttpReceiver.cs:381-384 | the cursor moves on, both timers restart, both stores are left as they were, and the call completes exactly when a mesh exists; with previous == current at weight 0, one interpolation hands every mesh the current store and the weight becomes `1 / interpolateFrames` |
| Receiver.Receiver.DecodeTwice | Assets/StreamingMesh/STMHttpReceiver.cs:379-380 | two decodes of one keyframe leave previous == current and the weight 0 |

## Left out

- Unity engine work is not modelled: meshes, game objects, renderers, materials, shaders, textures, `RecalculateNormals`/`RecalculateBounds` and `localRoot.transform`. They are engine calls. The model only records which mesh would have its normals recalculated (`renormalized`) and which vertices each mesh is handed (`meshVertices`).
- Networking and parsing are not modelled: `serializer.Request`, `JsonUtility`, `Uri`, `Path`, `int.TryParse`, `Regex.Split` and `Decompress`. They are library calls. Their results are inputs instead: a parsed segment number as `Option<int>`, parsed manifest lines, the decompressed blob and the parsed `ChannelInfo`. Requests are returned as URL lists.
- `BitConverter.ToSingle` is not modelled. The three root-position fields are kept as their raw 4-byte slices.
- IEEE single-precision rounding is not modelled. Positions, weights and timers are `real`, and `Time.deltaTime` is the parameter `dt`.
- The 32-bit wrap-around of `index * 10` for segment numbers above about 2^31 / 10 is not modelled.
- `Debug.LogError` is logging only and is left out.
- The audio start-up in `Update`, `SeekToZero` and `SeekTo(string)` are left out. They are host timing and a parse wrapper around `SeekTo(int)`.
- The invariant requires `packageSize >= 2` and `interpolateFrames > 0`. The divisions `areaRange / (float)hk` (line 454), `1.0f / interpolateFrames` (line 424) and `frameInterval / (float)interpolateFrames` (line 351) are single-precision divisions: with `hk == 0` or `interpolateFrames == 0` they give infinity or NaN and do not throw. The model has no such values, so it leaves out sessions whose keyframe positions, weights and interpolation step would not be finite. The same requirement also leaves out two kinds of session whose values stay finite: a `packageSize` of -2 or less, where `hk = packageSize / 2` (line 453) is a negative, non-zero half grid and `qk` is finite; and a negative `interpolateFrames`, a public field (line 53), where lines 351 and 424 give finite negative steps. The C# code does not guard any of these cases.
- Receiver.Receiver.Update: its contract does not restate the whole new state of an active tick. That state is stated by `RefreshManifest`, `AdvanceCursor` and `InterpolationTick`, which `Update` runs in order and which state it in full. `Update` states the gate, the request and the bound on the cursor.
- Receiver.Receiver.SeekTo: when the double decode completes, the new decoder state (stores, trace, flag, root position) is stated only for a keyframe, where previous == current == every mesh's pose. On every path the cursor, both timers and completion are stated. When nothing is decoded or a decode throws, the poses are stated to be unchanged.
- Receiver.Receiver.ReplayCursor: the same as `SeekTo`, for the frame already under the cursor.
- Receiver.Receiver.DecodeTwice: states only what a seek needs: previous == current after a keyframe, and the weight. The per-call relation to `DecodeFrame` is stated by `VerticesReceived`.
- Frame-type dispatch follows the code: a keyframe is applied even while the error flag is set, and a type other than 0x0F/0x0E still copies current to previous and resets the weight.

## Where the code departs from its evident intent

The model follows the code in each of these places.

- **The error flag tracks only the last record.** It is cleared after every accepted record (line 490). After a keyframe it says whether the last examined record was rejected, not whether any record was (`FrameDecoder.RecordsErrorFlag`, `FrameDecoder.AcceptedRecordClearsFlag`). The flag is also not cleared when a keyframe starts, so a keyframe with no examined record keeps the old value (`FrameDecoder.KeyframeScan`, `FrameDecoder.KeyframeNoRecordsKeepsFlag`).
- **The delta length is never checked against the trace** (lines 501-515).
  - A delta frame shorter than 3 bytes per trace entry applies the entries it holds and then throws. The corrections already added are kept.
  - Extra bytes are ignored (`FrameDecoder.DeltaStepsCompletes`).
- **Size lists are looked up by segment number** (line 302). `streamBufferByteSize[index]` uses the segment number, not its position in `streamBufferList`. This is right only when segments 0, 1, 2, … are registered in order. A number outside the size lists throws (`Receiver.Receiver.OnStreamDataReceived`).
- **`SeekTo` clamps only the upper end** (line 374).
  - A target between -4 and -1 truncates to slot 0.
  - A target of -5 or less leaves a negative cursor, and the read throws (`Receiver.SeekFrameBounds`).
- **Normals are recalculated for the first mesh only.** The normals flag is cleared after the first mesh (line 411).
- **The root offset is never applied.** Line 422 calls `Set` on a copy of the transform's position, so it has no effect. The model promises no root-offset output.
- **The weight is not clamped below 1.** It keeps growing by `1 / interpolateFrames` after the blend stops (line 424). It is reset to 0 after every call to `VerticesReceived` that does not throw, including calls made before the metadata has arrived (line 518).
