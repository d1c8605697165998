// The streaming-mesh receiver (STMHttpReceiver) as one stateful class.
//
// The receiver keeps, per mesh, a current and a previous vertex array, an
// index trace naming the vertices the last keyframe set, a playback buffer
// of (time, bytes) frames cut from downloaded segments, and a cursor into
// that buffer.  Each engine tick may decode the frame under the cursor and
// blend the previous vertices towards the current ones.
//
// Every method that decodes one frame is proved equal to the value-level
// decoder in frame_decoder.dfy (the seek's double decode states only what
// the seek needs); the slicing and registering of segments to the
// functions in segments.dfy.  A C# exception is modelled as the result
// `completed == false`, with every change made before the throw kept.

module Receiver {
  import opened Quantization
  import opened FrameDecoder
  import opened Segments

  /** `subframesPerKeyframe`: delta frames between two keyframes.  The
      receiver never changes it. */
  const SubframesPerKeyframe: int := 4

  /** The parsed channel description: quantization and timing constants, the
      manifest URL, and the URLs of the textures, materials and meshes. */
  datatype ChannelInfo = ChannelInfo(areaRange: int, packageSize: int, frameInterval: real,
                                     combinedFrames: int, streamInfo: Option<string>,
                                     textures: seq<string>, materials: seq<string>, meshes: seq<string>)

  /** A single-precision 0.0 as its four bytes: the initial root position. */
  const ZeroField: seq<byte> := [0, 0, 0, 0]

  /** The vertex count of every array. */
  function Lengths(bufs: seq<array<Vec3>>): (r: seq<int>)
    ensures |r| == |bufs| && forall i :: 0 <= i < |bufs| ==> r[i] == bufs[i].Length
  {
    seq(|bufs|, i requires 0 <= i < |bufs| => bufs[i].Length)
  }

  /** The contents of every array. */
  function Contents(bufs: seq<array<Vec3>>): (s: Store)
    reads bufs
    ensures Sizes(s) == Lengths(bufs)
    ensures |s| == |bufs| && forall i {:trigger s[i]} :: 0 <= i < |bufs| ==> s[i] == bufs[i][..]
  {
    seq(|bufs|, i requires 0 <= i < |bufs| reads bufs => bufs[i][..])
  }

  /** No array appears twice. */
  predicate Distinct(bufs: seq<array<Vec3>>) {
    forall i, j :: 0 <= i < |bufs| && 0 <= j < |bufs| && i != j ==> bufs[i] != bufs[j]
  }

  /** No array of `a` is an array of `b`. */
  predicate Disjoint(a: seq<array<Vec3>>, b: seq<array<Vec3>>) {
    forall i, j :: 0 <= i < |a| && 0 <= j < |b| ==> a[i] != b[j]
  }

  /** `c + (b - c) * w` at every vertex of every mesh. */
  function BlendStores(c: Store, b: Store, w: real): (r: Store)
    requires Sizes(c) == Sizes(b)
    ensures Sizes(r) == Sizes(b)
  {
    seq(|b|, i requires 0 <= i < |b| =>
      seq(|b[i]|, j requires 0 <= j < |b[i]| => BlendVec(c[i][j], b[i][j], w)))
  }

  /** The blend at weight 0 is the previous store and at weight 1 the
      current store. */
  lemma BlendStoresEnds(c: Store, b: Store)
    requires Sizes(c) == Sizes(b)
    ensures BlendStores(c, b, 0.0) == c
    ensures BlendStores(c, b, 1.0) == b
  {
    var r0, r1 := BlendStores(c, b, 0.0), BlendStores(c, b, 1.0);
    forall i | 0 <= i < |b|
      ensures r0[i] == c[i] && r1[i] == b[i]
    {
      forall j | 0 <= j < |b[i]|
        ensures r0[i][j] == c[i][j] && r1[i][j] == b[i][j]
      {
        BlendEnds(c[i][j], b[i][j], 0.0);
      }
    }
  }

  /** When the previous and current stores agree, the blend is that store at
      every weight. */
  lemma BlendStoresSame(c: Store, w: real)
    ensures BlendStores(c, c, w) == c
  {
    var r := BlendStores(c, c, w);
    forall i | 0 <= i < |c|
      ensures r[i] == c[i]
    {
      forall j | 0 <= j < |c[i]|
        ensures r[i][j] == c[i][j]
      {
        BlendEnds(c[i][j], c[i][j], w);
      }
    }
  }

  /** A fresh `Vector3[n]`: every vertex at the origin. */
  function Zeros(n: nat): (r: seq<Vec3>)
    ensures |r| == n && forall j :: 0 <= j < n ==> r[j] == Vec3(0.0, 0.0, 0.0)
  {
    if n == 0 then [] else Zeros(n - 1) + [Vec3(0.0, 0.0, 0.0)]
  }

  /** Adding a mesh keeps every trace entry naming a vertex. */
  lemma TraceFitsGrow(sizes: seq<int>, trace: seq<int>, n: int)
    requires TraceFits(sizes, trace)
    ensures TraceFits(sizes + [n], trace)
  {
    forall k | 0 <= k < |trace|
      ensures InBounds(sizes + [n], TraceMesh(trace[k]), TraceVertex(trace[k]))
    {
      assert InBounds(sizes, TraceMesh(trace[k]), TraceVertex(trace[k]));
    }
  }

  /** The loop of `OnStreamDataReceived` over the size list of segment
      `index`: frame `cnt` takes the next `sizes[cnt]` bytes and the time
      `index * 10 + cnt * 0.1`; `GetRange` throws on a size that is negative
      or runs past the bytes left. */
  method CutSegment(index: int, sizes: seq<int>, blob: seq<byte>) returns (completed: bool, buffers: seq<Frame>)
    ensures completed <==> Fits(blob, sizes)
    ensures completed ==> buffers == SegmentFrames(index, sizes, blob)
  {
    var raw := blob;
    buffers := [];
    var cnt := 0;
    while cnt < |sizes|
      invariant 0 <= cnt <= |sizes|
      invariant Fits(blob, sizes[..cnt])
      invariant raw == blob[Sum(sizes[..cnt])..]
      invariant buffers == SegmentFrames(index, sizes[..cnt], blob)
    {
      var size := sizes[cnt];
      if size < 0 || |raw| < size {
        if Fits(blob, sizes) {
          SliceInRange(sizes, blob, cnt);
        }
        return false, buffers;
      }
      ghost var start := Sum(sizes[..cnt]);
      SliceNext(index, sizes, blob, cnt);
      SumStep(sizes, cnt);
      assert raw[..size] == blob[start..start + size];
      buffers := buffers + [Frame(SegmentTime(index, cnt), raw[..size])];
      raw := raw[size..];
      cnt := cnt + 1;
    }
    assert sizes[..|sizes|] == sizes;
    return true, buffers;
  }

  /** The inner loop of `UpdateVertsInterpolate` on one mesh: a clone of the
      previous array, each vertex moved the fraction `w` of the way towards
      the current one. */
  method BlendMesh(prev: array<Vec3>, cur: array<Vec3>, w: real) returns (r: seq<Vec3>)
    requires prev.Length == cur.Length
    ensures |r| == cur.Length && forall j :: 0 <= j < |r| ==> r[j] == BlendVec(prev[j], cur[j], w)
  {
    var temp := new Vec3[prev.Length](j requires 0 <= j < prev.Length reads prev => prev[j]);
    var j := 0;
    while j < temp.Length
      invariant 0 <= j <= temp.Length
      invariant forall k :: 0 <= k < j ==> temp[k] == BlendVec(prev[k], cur[k], w)
      invariant forall k :: j <= k < temp.Length ==> temp[k] == prev[k]
    {
      var c := temp[j];
      temp[j] := Vec3(c.x + (cur[j].x - c.x) * w, c.y + (cur[j].y - c.y) * w, c.z + (cur[j].z - c.z) * w);
      j := j + 1;
    }
    r := temp[..];
  }

  /** C#'s integer division, which truncates toward zero: the quotient's
      multiple of `n` lies between 0 and `a`, less than `n` away from `a`. */
  function CsDiv(a: int, n: int): (r: int)
    requires n > 0
    ensures 0 <= a ==> 0 <= n * r <= a < n * r + n
    ensures a < 0 ==> n * r - n < a <= n * r <= 0
  {
    if 0 <= a then DivBounds(a, n); a / n
    else DivBounds(-a, n); -((-a) / n)
  }

  /** Division of a non-negative number rounds down. */
  lemma DivBounds(a: int, n: int)
    requires 0 <= a && 0 < n
    ensures 0 <= n * (a / n) <= a < n * (a / n) + n
  {
    assert a == n * (a / n) + a % n;
  }

  /** The frame a seek to `t` decodes: the target clamped to the last frame,
      then rounded down (toward zero) to a multiple of the keyframe period. */
  function SeekFrame(t: int, count: int): int {
    var clamped := if t < count then t else count - 1;
    var n := SubframesPerKeyframe + 1;
    CsDiv(clamped, n) * n
  }

  /** For a non-negative target the seek frame is a keyframe slot (a multiple
      of 5) of the buffer, no later than the target, and fewer than 5 frames
      before the clamped target; a target of -5 or less gives a negative
      frame. */
  lemma SeekFrameBounds(t: int, count: int)
    requires count > 0
    ensures var f := SeekFrame(t, count);
            var clamped := if t < count then t else count - 1;
            && (0 <= t ==> 0 <= f <= clamped < count && f <= t && f % 5 == 0 && clamped - f < 5)
            && (f < 0 <==> t <= -5)
  {
  }

  class Receiver {
    // Decoder state.
    var vertsBuf: seq<array<Vec3>>
    var vertsBufOld: seq<array<Vec3>>
    var position: RootPos
    var positionOld: RootPos
    var linedIndices: seq<int>
    var getErrorData: bool
    var updateNormals: bool
    var timeWeight: real
    /** The vertices last handed to each mesh (`meshBuf[i].vertices`). */
    var meshVertices: seq<seq<Vec3>>

    // Session metadata.
    var areaRange: int
    var packageSize: int
    var frameInterval: real
    var combinedFrames: int
    var streamInfoUrl: Option<string>
    var isRequestComplete: bool
    var requestQueue: int

    // Segments and playback.
    var streamRefreshInterval: real
    var streamCurrentWait: real
    var streamBufferList: seq<int>
    var streamBufferByteSize: seq<seq<int>>
    var bufferedStream: seq<Frame>
    var currentBufferIndex: int
    var vertexUpdateInterval: real
    var currentStreamWait: real
    var currentInterpolateWait: real
    var interpolateFrames: int

    /** The decoder's invariant: current and previous arrays, and the mesh
        vertices, in lockstep and all distinct; a usable package size and
        interpolation count; a trace whose entries all name a vertex. */
    predicate Valid()
      reads this`vertsBuf, this`vertsBufOld, this`meshVertices, this`packageSize, this`interpolateFrames
      reads this`linedIndices
    {
      && |vertsBuf| == |vertsBufOld| == |meshVertices|
      && Lengths(vertsBufOld) == Lengths(vertsBuf) && Sizes(meshVertices) == Lengths(vertsBuf)
      && Distinct(vertsBuf) && Distinct(vertsBufOld) && Disjoint(vertsBuf, vertsBufOld)
      && 2 <= packageSize && 0 < interpolateFrames
      && TraceFits(Lengths(vertsBuf), linedIndices)
    }

    /** The segment registry's invariant: the registered numbers are unique
        and in step with their size lists. */
    predicate Registered()
      reads this`streamBufferList, this`streamBufferByteSize
    {
      |streamBufferList| == |streamBufferByteSize| && NoDuplicates(streamBufferList)
    }

    /** The current vertices (`vertsBuf`). */
    function Store(): (s: Store)
      reads this`vertsBuf, vertsBuf
      ensures Sizes(s) == Lengths(vertsBuf)
    {
      Contents(vertsBuf)
    }

    /** The previous vertices (`vertsBuf_old`). */
    function OldStore(): (s: Store)
      reads this`vertsBufOld, vertsBufOld
      ensures Sizes(s) == Lengths(vertsBufOld)
    {
      Contents(vertsBufOld)
    }

    /** Everything a decode reads or writes, as a value. */
    function State(): Decoder
      reads this`vertsBuf, this`vertsBufOld, this`position, this`positionOld, this`linedIndices
      reads this`getErrorData, this`updateNormals, this`timeWeight, vertsBuf, vertsBufOld
    {
      Decoder(Store(), OldStore(), position, positionOld, linedIndices, getErrorData, updateNormals, timeWeight)
    }

    /** What a keyframe changes, as a value. */
    function KeyView(): KeyState
      reads this`vertsBuf, this`linedIndices, this`getErrorData, vertsBuf
    {
      KeyState(Store(), linedIndices, getErrorData)
    }

    /** The quantization constants of the session. */
    function Quant(): Quant
      reads this`areaRange, this`packageSize
      requires packageSize >= 2
    {
      QuantOf(areaRange, packageSize)
    }

    /** The field initializers: no mesh, no segment, default constants. */
    constructor ()
      ensures Valid() && Registered()
      ensures vertsBuf == [] && vertsBufOld == [] && meshVertices == [] && linedIndices == []
      ensures position == RootPos(ZeroField, ZeroField, ZeroField) && positionOld == position
      ensures !getErrorData && !updateNormals && timeWeight == 0.0
      ensures areaRange == 4 && packageSize == 128 && frameInterval == 0.1 && combinedFrames == 100
      ensures streamInfoUrl == None && !isRequestComplete && requestQueue == 0
      ensures streamRefreshInterval == 10.0 && streamCurrentWait == 0.0
      ensures streamBufferList == [] && streamBufferByteSize == [] && bufferedStream == []
      ensures currentBufferIndex == 0 && vertexUpdateInterval == 0.1
      ensures currentStreamWait == 0.0 && currentInterpolateWait == 0.0 && interpolateFrames == 5
    {
      vertsBuf, vertsBufOld, meshVertices, linedIndices := [], [], [], [];
      position := RootPos(ZeroField, ZeroField, ZeroField);
      positionOld := position;
      getErrorData, updateNormals, timeWeight := false, false, 0.0;
      areaRange, packageSize, frameInterval, combinedFrames := 4, 128, 0.1, 100;
      streamInfoUrl, isRequestComplete, requestQueue := None, false, 0;
      streamRefreshInterval, streamCurrentWait := 10.0, 0.0;
      streamBufferList, streamBufferByteSize, bufferedStream := [], [], [];
      currentBufferIndex, vertexUpdateInterval := 0, 0.1;
      currentStreamWait, currentInterpolateWait, interpolateFrames := 0.0, 0.0, 5;
    }

    // -------------------------------------------------------------------
    // Decoding one frame (VerticesReceived)
    // -------------------------------------------------------------------

    /** `vertsBuf[i].CopyTo(vertsBuf_old[i], 0)` for every mesh. */
    method CopyToOld()
      requires Valid()
      modifies vertsBufOld
      ensures OldStore() == Store() && Store() == old(Store())
    {
      var i := 0;
      while i < |vertsBuf|
        invariant 0 <= i <= |vertsBuf|
        invariant forall k :: 0 <= k < i ==> vertsBufOld[k][..] == vertsBuf[k][..]
        invariant Store() == old(Store())
      {
        var src, dst := vertsBuf[i], vertsBufOld[i];
        forall j | 0 <= j < src.Length {
          dst[j] := src[j];
        }
        assert dst[..] == src[..];
        i := i + 1;
      }
    }

    /** One keyframe record at `lIdx` of the package whose header is at `pkg`. */
    method DecodeRecord(data: seq<byte>, q: Quant, pkg: int, lIdx: int) returns (completed: bool)
      requires Valid() && 0 <= pkg && pkg + 3 <= |data| && 0 <= lIdx
      modifies this`linedIndices, this`getErrorData, vertsBuf
      ensures Valid()
      ensures var r := RecordStep(old(KeyView()), data, q, pkg, lIdx);
              KeyView() == r.state && completed == r.completed
      ensures OldStore() == old(OldStore())
    {
      if |data| < lIdx + 3 {
        return false;
      }
      var vIdx := Le16(data[lIdx], data[lIdx + 1]);
      var mIdx := data[lIdx + 2];
      if mIdx >= |vertsBuf| {
        getErrorData := true;
        return true;
      }
      if vIdx >= vertsBuf[mIdx].Length {
        getErrorData := true;
        return true;
      }
      if |data| < lIdx + 5 {
        return false;
      }
      var compress := Le16(data[lIdx + 3], data[lIdx + 4]);
      var p := KeyVertex(data, q, pkg, compress);
      ghost var s0 := Store();
      vertsBuf[mIdx][vIdx] := p;
      assert Store() == s0[mIdx := s0[mIdx][vIdx := p]];
      PackRoundTrip(mIdx, vIdx);
      linedIndices := linedIndices + [Pack(mIdx, vIdx)];
      getErrorData := false;
      return true;
    }
    /** The keyframe payload: packages walked in order from offset 21, each
        moving the offset by `6 + 5 * vertCount`. */
    method DecodeKeyframe(data: seq<byte>, q: Quant, packages: int) returns (completed: bool)
      requires Valid()
      modifies this`linedIndices, this`getErrorData, vertsBuf
      ensures Valid()
      ensures var k := Packages(KeyState(old(Store()), [], old(getErrorData)), data, q, packages, HeaderSize, 0);
              KeyView() == k.state && completed == k.completed
      ensures OldStore() == old(OldStore())
    {
      linedIndices := [];
      ghost var start := KeyView();
      var offset: nat := HeaderSize;
      var i: nat := 0;
      while i < packages
        invariant Valid()
        invariant Packages(start, data, q, packages, HeaderSize, 0) == Packages(KeyView(), data, q, packages, offset, i)
        invariant OldStore() == old(OldStore())
        decreases packages - i
      {
        var ok;
        ok, offset := DecodePackage(data, q, packages, offset, i);
        if !ok {
          return false;
        }
        i := i + 1;
      }
      return true;
    }

    /** Package `i`, whose header is at `offset`: its 3-byte origin and
        24-bit vertex count, then its records; `next` is the offset of the
        package after it. */
    method DecodePackage(data: seq<byte>, q: Quant, packages: int, offset: nat, i: nat)
      returns (completed: bool, next: nat)
      requires Valid() && i < packages
      modifies this`linedIndices, this`getErrorData, vertsBuf
      ensures Valid()
      ensures Packages(old(KeyView()), data, q, packages, offset, i) ==
                if completed then Packages(KeyView(), data, q, packages, next, i + 1) else Walk(KeyView(), false)
      ensures OldStore() == old(OldStore())
    {
      if |data| < offset + PackageHeaderSize {
        return false, offset;
      }
      ghost var s0 := KeyView();
      var vertCount := Le24(data[offset + 3], data[offset + 4], data[offset + 5]);
      completed := DecodeRecords(data, q, offset, vertCount);
      next := offset + PackageHeaderSize + RecordSize * vertCount;
      PackagesStep(s0, data, q, packages, offset, i);
    }

    /** The `vertCount` records of the package whose header is at `pkg`. */
    method DecodeRecords(data: seq<byte>, q: Quant, pkg: nat, vertCount: int) returns (completed: bool)
      requires Valid() && pkg + PackageHeaderSize <= |data|
      modifies this`linedIndices, this`getErrorData, vertsBuf
      ensures Valid()
      ensures var r := Records(old(KeyView()), data, q, pkg, vertCount, 0);
              KeyView() == r.state && completed == r.completed
      ensures OldStore() == old(OldStore())
    {
      ghost var start := KeyView();
      var j: nat := 0;
      while j < vertCount
        invariant Valid()
        invariant Records(start, data, q, pkg, vertCount, 0) == Records(KeyView(), data, q, pkg, vertCount, j)
        invariant OldStore() == old(OldStore())
        decreases vertCount - j
      {
        var ok := RecordAt(data, q, pkg, vertCount, j);
        if !ok {
          return false;
        }
        j := j + 1;
      }
      return true;
    }

    /** Record `j` of the package at `pkg`, as one step of its walk. */
    method RecordAt(data: seq<byte>, q: Quant, pkg: nat, vertCount: int, j: nat) returns (completed: bool)
      requires Valid() && pkg + PackageHeaderSize <= |data| && j < vertCount
      modifies this`linedIndices, this`getErrorData, vertsBuf
      ensures Valid()
      ensures Records(old(KeyView()), data, q, pkg, vertCount, j) ==
                if completed then Records(KeyView(), data, q, pkg, vertCount, j + 1) else Walk(KeyView(), false)
      ensures OldStore() == old(OldStore())
    {
      ghost var s0 := KeyView();
      completed := DecodeRecord(data, q, pkg, pkg + PackageHeaderSize + RecordSize * j);
      RecordsStep(s0, data, q, pkg, vertCount, j);
    }

    /** The delta payload: trace entry `i` adds the correction of bytes
        `21 + 3i .. 21 + 3i + 2` to the vertex it names. */
    method DecodeDelta(data: seq<byte>) returns (completed: bool)
      requires Valid()
      modifies vertsBuf
      ensures var r := DeltaSteps(old(Store()), linedIndices, data, 0);
              Store() == r.state && completed == r.completed
      ensures OldStore() == old(OldStore())
    {
      ghost var start := Store();
      var i := 0;
      while i < |linedIndices|
        invariant 0 <= i <= |linedIndices|
        invariant DeltaSteps(start, linedIndices, data, 0) == DeltaSteps(Store(), linedIndices, data, i)
        invariant OldStore() == old(OldStore())
      {
        var ok := DeltaStep(data, i);
        if !ok {
          return false;
        }
        i := i + 1;
      }
      return true;
    }

    /** Trace entry `i` of a delta frame. */
    method DeltaStep(data: seq<byte>, i: nat) returns (completed: bool)
      requires Valid() && i < |linedIndices|
      modifies vertsBuf
      ensures DeltaSteps(old(Store()), linedIndices, data, i) ==
                if completed then DeltaSteps(Store(), linedIndices, data, i + 1) else Walk(Store(), false)
      ensures OldStore() == old(OldStore())
    {
      var lIdx := HeaderSize + DeltaRecordSize * i;
      var idx := linedIndices[i];
      var mIdx, vIdx := TraceMesh(idx), TraceVertex(idx);
      if |data| < lIdx + 3 {
        return false;
      }
      var p := Add(vertsBuf[mIdx][vIdx], DeltaVec(data[lIdx], data[lIdx + 1], data[lIdx + 2]));
      ghost var s0 := Store();
      vertsBuf[mIdx][vIdx] := p;
      assert Store() == s0[mIdx := s0[mIdx][vIdx := p]];
      return true;
    }

    /** Lines 432-443: save the current store and position as the previous
        ones, then read the three root-position fields. */
    method ReadHeader(data: seq<byte>) returns (completed: bool)
      requires Valid()
      modifies this`position, this`positionOld, vertsBufOld
      ensures var r := DecodeHeader(old(State()), data);
              State() == r.state && completed == r.completed
    {
      CopyToOld();
      positionOld := position;
      ghost var saved := State();
      assert saved == old(State()).(storeOld := old(Store()), positionOld := old(position));
      completed := ReadPosition(data);
      assert State() == saved.(position := position);
    }

    /** `BitConverter.ToSingle(data, 9 | 13 | 17)`: each field read only if
        its four bytes are present, the first missing one stopping the read. */
    method ReadPosition(data: seq<byte>) returns (completed: bool)
      modifies this`position
      ensures completed <==> HeaderSize <= |data|
      ensures position == (if |data| < 13 then old(position)
                           else if |data| < 17 then old(position).(x := data[9..13])
                           else if |data| < 21 then old(position).(x := data[9..13], y := data[13..17])
                           else RootPos(data[9..13], data[13..17], data[17..21]))
    {
      if |data| < 13 {
        return false;
      }
      position := position.(x := data[9..13]);
      if |data| < 17 {
        return false;
      }
      position := position.(y := data[13..17]);
      if |data| < HeaderSize {
        return false;
      }
      position := position.(z := data[17..21]);
      return true;
    }

    /** Lines 445-517: the payload by frame type. */
    method DecodeBody(data: seq<byte>) returns (completed: bool)
      requires Valid() && HeaderSize <= |data|
      modifies this`linedIndices, this`getErrorData, this`updateNormals, vertsBuf
      ensures Valid()
      ensures var r := DecodePayload(old(State()), data, Quant());
              State() == r.state && completed == r.completed
    {
      if data[0] == KeyframeType {
        completed := KeyframeBody(data);
      } else if data[0] == DeltaType && !getErrorData {
        completed := DecodeDelta(data);
      } else {
        completed := true;
      }
    }

    /** Lines 449-497: a keyframe. */
    method KeyframeBody(data: seq<byte>) returns (completed: bool)
      requires Valid() && HeaderSize <= |data| && data[0] == KeyframeType
      modifies this`linedIndices, this`getErrorData, this`updateNormals, vertsBuf
      ensures Valid()
      ensures var k := Packages(KeyState(old(Store()), [], old(getErrorData)), data, Quant(), PackageCount(data), HeaderSize, 0);
              KeyView() == k.state && completed == k.completed
      ensures updateNormals && OldStore() == old(OldStore())
    {
      var packages := Le24(data[5], data[6], data[7]);
      updateNormals := true;
      completed := DecodeKeyframe(data, Quant(), packages);
    }

    /** `VerticesReceived(data)`: once the session metadata is in, one frame
        decoded into the current store after the current store and position
        are saved as the previous ones; then, unless that threw, the
        interpolation weight is reset. */
    method VerticesReceived(data: seq<byte>) returns (completed: bool)
      requires Valid()
      modifies this`linedIndices, this`getErrorData, this`updateNormals, this`timeWeight
      modifies this`position, this`positionOld, vertsBuf, vertsBufOld
      ensures Valid()
      ensures var r := DecodeFrame(old(State()), data, Quant(), isRequestComplete);
              State() == r.state && completed == r.completed
      ensures completed ==> timeWeight == 0.0
    {
      completed := true;
      if isRequestComplete {
        completed := DecodeReady(data);
      }
      if completed {
        ghost var store, storeOld := Store(), OldStore();
        timeWeight := 0.0;
        assert Store() == store && OldStore() == storeOld;
      }
    }

    /** Lines 432-517: the header, then the payload if the header is whole. */
    method DecodeReady(data: seq<byte>) returns (completed: bool)
      requires Valid()
      modifies this`linedIndices, this`getErrorData, this`updateNormals
      modifies this`position, this`positionOld, vertsBuf, vertsBufOld
      ensures Valid()
      ensures var r := DecodeData(old(State()), data, Quant());
              State() == r.state && completed == r.completed
    {
      completed := ReadHeader(data);
      if completed {
        completed := DecodeBody(data);
      }
    }

    // -------------------------------------------------------------------
    // Session set-up and segment download
    // -------------------------------------------------------------------

    /** `Reset()`: every segment, buffered frame, mesh and trace forgotten,
        the manifest URL dropped and the session marked incomplete; the
        manifest timer is set one second short of a refresh. */
    method Reset()
      requires 2 <= packageSize && 0 < interpolateFrames
      modifies this`streamBufferList, this`streamBufferByteSize, this`bufferedStream
      modifies this`streamInfoUrl, this`meshVertices, this`vertsBuf, this`vertsBufOld, this`linedIndices
      modifies this`isRequestComplete, this`streamCurrentWait
      ensures Valid() && Registered()
      ensures streamBufferList == [] && streamBufferByteSize == [] && bufferedStream == []
      ensures streamInfoUrl == None && meshVertices == []
      ensures vertsBuf == [] && vertsBufOld == [] && linedIndices == []
      ensures !isRequestComplete && streamCurrentWait == streamRefreshInterval - 1.0
    {
      streamBufferList, streamBufferByteSize, bufferedStream := [], [], [];
      meshVertices := [];
      streamInfoUrl := None;
      vertsBuf, vertsBufOld, linedIndices := [], [], [];
      isRequestComplete := false;
      streamCurrentWait := streamRefreshInterval - 1.0;
    }

    /** `OnInitialDataReceived`: the session constants taken from the channel
        description, then one request per texture, material and mesh URL, in
        that order, each counted as outstanding. */
    method OnInitialDataReceived(info: ChannelInfo) returns (requests: seq<string>)
      requires Valid() && 2 <= info.packageSize
      modifies this`areaRange, this`packageSize, this`frameInterval, this`combinedFrames
      modifies this`streamInfoUrl, this`requestQueue, this`isRequestComplete
      ensures Valid()
      ensures areaRange == info.areaRange && packageSize == info.packageSize
      ensures frameInterval == info.frameInterval && combinedFrames == info.combinedFrames
      ensures streamInfoUrl == info.streamInfo
      ensures requests == info.textures + info.materials + info.meshes
      ensures requestQueue == old(requestQueue) + |requests|
      ensures isRequestComplete
    {
      areaRange, packageSize := info.areaRange, info.packageSize;
      frameInterval, combinedFrames := info.frameInterval, info.combinedFrames;
      streamInfoUrl := info.streamInfo;
      var textures := RequestAll(info.textures);
      var materials := RequestAll(info.materials);
      var meshes := RequestAll(info.meshes);
      requests := textures + materials + meshes;
      isRequestComplete := true;
    }

    /** `serializer.Request(url); requestQueue++` for every URL in order. */
    method RequestAll(urls: seq<string>) returns (sent: seq<string>)
      modifies this`requestQueue
      ensures sent == urls && requestQueue == old(requestQueue) + |urls|
    {
      sent := [];
      var k := 0;
      while k < |urls|
        invariant 0 <= k <= |urls|
        invariant sent == urls[..k] && requestQueue == old(requestQueue) + k
      {
        sent := sent + [urls[k]];
        requestQueue := requestQueue + 1;
        k := k + 1;
      }
    }

    /** Lines 202-207 of `OnMeshInfoReceived`: a new mesh of `vertexCount`
        vertices gets a fresh current and a fresh previous array, both at the
        origin, and its mesh vertices; one request fewer is outstanding. */
    method OnMeshInfoReceived(vertexCount: nat)
      requires Valid()
      modifies this`vertsBuf, this`vertsBufOld, this`meshVertices, this`requestQueue
      ensures Valid()
      ensures |vertsBuf| == |old(vertsBuf)| + 1 && |vertsBufOld| == |old(vertsBufOld)| + 1
      ensures vertsBuf[..|vertsBuf| - 1] == old(vertsBuf) && vertsBufOld[..|vertsBufOld| - 1] == old(vertsBufOld)
      ensures fresh(vertsBuf[|vertsBuf| - 1]) && fresh(vertsBufOld[|vertsBufOld| - 1])
      ensures Store() == old(Store()) + [Zeros(vertexCount)]
      ensures OldStore() == old(OldStore()) + [Zeros(vertexCount)]
      ensures meshVertices == old(meshVertices) + [Zeros(vertexCount)]
      ensures requestQueue == old(requestQueue) - 1
    {
      var cur := new Vec3[vertexCount](_ => Vec3(0.0, 0.0, 0.0));
      var prev := new Vec3[vertexCount](_ => Vec3(0.0, 0.0, 0.0));
      assert cur[..] == Zeros(vertexCount) && prev[..] == Zeros(vertexCount);
      AddMesh(cur, prev);
    }

    /** Lines 202-208: `vertsBuf.Add(cur); vertsBuf_old.Add(prev)`, the
        mesh's vertices, and one request fewer outstanding. */
    method AddMesh(cur: array<Vec3>, prev: array<Vec3>)
      requires Valid() && cur != prev && cur.Length == prev.Length
      requires cur !in vertsBuf && cur !in vertsBufOld && prev !in vertsBuf && prev !in vertsBufOld
      modifies this`vertsBuf, this`vertsBufOld, this`meshVertices, this`requestQueue
      ensures Valid()
      ensures vertsBuf == old(vertsBuf) + [cur] && vertsBufOld == old(vertsBufOld) + [prev]
      ensures Store() == old(Store()) + [cur[..]] && OldStore() == old(OldStore()) + [prev[..]]
      ensures meshVertices == old(meshVertices) + [prev[..]]
      ensures requestQueue == old(requestQueue) - 1
    {
      TraceFitsGrow(Lengths(vertsBuf), linedIndices, cur.Length);
      assert Lengths(vertsBuf + [cur]) == Lengths(vertsBuf) + [cur.Length];
      assert Lengths(vertsBufOld + [prev]) == Lengths(vertsBufOld) + [cur.Length];
      assert Sizes(meshVertices + [prev[..]]) == Sizes(meshVertices) + [cur.Length];
      assert Contents(vertsBuf + [cur]) == Contents(vertsBuf) + [cur[..]];
      assert Contents(vertsBufOld + [prev]) == Contents(vertsBufOld) + [prev[..]];
      vertsBuf := vertsBuf + [cur];
      vertsBufOld := vertsBufOld + [prev];
      meshVertices := meshVertices + [prev[..]];
      requestQueue := requestQueue - 1;
    }

    /** `OnMaterialInfoReceived` and `OnTextureReceived`: one request fewer
        is outstanding. */
    method AssetReceived()
      modifies this`requestQueue
      ensures requestQueue == old(requestQueue) - 1
    {
      requestQueue := requestQueue - 1;
    }

    /** `OnStreamListReceived`: the manifest lines in order; a segment number
        not yet registered is added with its size list and requested. */
    method OnStreamListReceived(entries: seq<ManifestEntry>) returns (requests: seq<string>)
      requires Registered()
      modifies this`streamBufferList, this`streamBufferByteSize
      ensures Registered()
      ensures Registry(streamBufferList, streamBufferByteSize, requests) ==
                Register(Registry(old(streamBufferList), old(streamBufferByteSize), []), entries)
    {
      ghost var start := Registry(streamBufferList, streamBufferByteSize, []);
      requests := [];
      var k := 0;
      while k < |entries|
        invariant 0 <= k <= |entries|
        invariant Registered()
        invariant Registry(streamBufferList, streamBufferByteSize, requests) == Register(start, entries[..k])
      {
        var e := entries[k];
        if e.index.Some? && e.index.value !in streamBufferList {
          streamBufferList := streamBufferList + [e.index.value];
          streamBufferByteSize := streamBufferByteSize + [e.size];
          requests := requests + [e.url];
        }
        assert entries[..k + 1][..k] == entries[..k];
        k := k + 1;
      }
      assert entries[..|entries|] == entries;
    }

    /** `OnStreamDataReceived`: a downloaded segment of a registered number
        cut into frames by the size list stored at that number, the frames
        appended to the playback buffer together.  An unparsable or
        unregistered number is ignored; a number outside the size lists, or
        a size that is negative or runs past the bytes left, throws before
        anything is appended. */
    method OnStreamDataReceived(index: Option<int>, blob: seq<byte>) returns (completed: bool)
      modifies this`bufferedStream
      ensures completed <==>
                || index.None? || index.value !in streamBufferList
                || (0 <= index.value < |streamBufferByteSize| && Fits(blob, streamBufferByteSize[index.value]))
      ensures bufferedStream ==
                if completed && index.Some? && index.value in streamBufferList
                then old(bufferedStream) + SegmentFrames(index.value, streamBufferByteSize[index.value], blob)
                else old(bufferedStream)
    {
      if index.None? || index.value !in streamBufferList {
        return true;
      }
      var i := index.value;
      if i < 0 || |streamBufferByteSize| <= i {
        return false;
      }
      var buffers;
      completed, buffers := CutSegment(i, streamBufferByteSize[i], blob);
      if completed {
        bufferedStream := bufferedStream + buffers;
      }
    }

    // -------------------------------------------------------------------
    // Interpolation, playback and seeking
    // -------------------------------------------------------------------

    /** `UpdateVertsInterpolate()`: while the weight is below 1 every mesh
        is handed the blend of its previous and current vertices, and the
        first mesh handed vertices while the normals are dirty has them
        recalculated; then the root position is read from `localRoot`, which
        throws while no mesh has arrived, and the weight advances by
        `1 / interpolateFrames`. */
    method UpdateVertsInterpolate() returns (renormalized: Option<nat>, completed: bool)
      requires Valid()
      modifies this`meshVertices, this`updateNormals, this`timeWeight
      ensures Valid()
      ensures meshVertices == if old(timeWeight) < 1.0 then BlendStores(OldStore(), Store(), old(timeWeight))
                              else old(meshVertices)
      ensures renormalized == if old(timeWeight) < 1.0 && old(updateNormals) && 0 < |vertsBuf| then Some(0) else None
      ensures updateNormals == (old(updateNormals) && renormalized.None?)
      ensures completed <==> 0 < |vertsBuf|
      ensures timeWeight == if completed then old(timeWeight) + 1.0 / interpolateFrames as real else old(timeWeight)
    {
      renormalized := None;
      if timeWeight < 1.0 {
        renormalized := BlendMeshes();
      }
      completed := 0 < |vertsBuf|;
      if completed {
        timeWeight := timeWeight + 1.0 / interpolateFrames as real;
      }
    }

    /** Lines 389-414: the blend loop over all meshes. */
    method BlendMeshes() returns (renormalized: Option<nat>)
      requires Valid()
      modifies this`meshVertices, this`updateNormals
      ensures Valid()
      ensures meshVertices == BlendStores(OldStore(), Store(), timeWeight)
      ensures renormalized == if old(updateNormals) && 0 < |vertsBuf| then Some(0) else None
      ensures updateNormals == (old(updateNormals) && renormalized.None?)
    {
      renormalized := None;
      ghost var target := BlendStores(OldStore(), Store(), timeWeight);
      var i := 0;
      while i < |vertsBuf|
        invariant 0 <= i <= |vertsBuf|
        invariant Valid()
        invariant forall k :: 0 <= k < i ==> meshVertices[k] == target[k]
        invariant renormalized == if old(updateNormals) && 0 < i then Some(0) else None
        invariant updateNormals == (old(updateNormals) && i == 0)
      {
        var temp := BlendMesh(vertsBufOld[i], vertsBuf[i], timeWeight);
        assert temp == target[i];
        assert Sizes(meshVertices[i := temp]) == Sizes(meshVertices);
        meshVertices := meshVertices[i := temp];
        if updateNormals {
          renormalized := Some(i);
          updateNormals := false;
        }
        i := i + 1;
      }
    }

    /** `Update()` with `Time.deltaTime == dt`: nothing until the session
        metadata and every asset are in; then the manifest timer, the
        playback cursor and the interpolation timer, in that order.  A throw
        in the cursor step ends the tick. */
    method Update(dt: real) returns (request: Option<string>, renormalized: Option<nat>, completed: bool)
      requires Valid()
      modifies this`streamCurrentWait, this`currentStreamWait, this`currentBufferIndex, this`currentInterpolateWait
      modifies this`linedIndices, this`getErrorData, this`updateNormals, this`timeWeight, this`meshVertices
      modifies this`position, this`positionOld, vertsBuf, vertsBufOld
      ensures Valid()
      ensures !(old(isRequestComplete) && old(requestQueue) < 1) ==>
                && request.None? && renormalized.None? && completed
                && State() == old(State()) && meshVertices == old(meshVertices)
                && currentBufferIndex == old(currentBufferIndex)
                && streamCurrentWait == old(streamCurrentWait) && currentStreamWait == old(currentStreamWait)
                && currentInterpolateWait == old(currentInterpolateWait)
      ensures request.Some? ==> request == streamInfoUrl
      ensures || currentBufferIndex == old(currentBufferIndex)
              || (0 <= old(currentBufferIndex) < |bufferedStream| && currentBufferIndex == old(currentBufferIndex) + 1)
    {
      request, renormalized, completed := None, None, true;
      if !(isRequestComplete && requestQueue < 1) {
        return;
      }
      request := RefreshManifest(dt);
      completed := AdvanceCursor(dt);
      if !completed {
        return;
      }
      renormalized, completed := InterpolationTick(dt);
    }

    /** Lines 330-336: the manifest is requested again whenever its timer
        passes the refresh interval. */
    method RefreshManifest(dt: real) returns (request: Option<string>)
      modifies this`streamCurrentWait
      ensures var w := old(streamCurrentWait) + dt;
              if streamRefreshInterval < w then request == streamInfoUrl && streamCurrentWait == w - streamRefreshInterval
              else request.None? && streamCurrentWait == w
    {
      request := None;
      streamCurrentWait := streamCurrentWait + dt;
      if streamRefreshInterval < streamCurrentWait {
        request := streamInfoUrl;
        streamCurrentWait := streamCurrentWait - streamRefreshInterval;
      }
    }

    /** Lines 340-348: once its timer passes the vertex interval, the frame
        under the cursor is decoded and the cursor moves on; a negative
        cursor throws. */
    method AdvanceCursor(dt: real) returns (completed: bool)
      requires Valid()
      modifies this`currentStreamWait, this`currentBufferIndex
      modifies this`linedIndices, this`getErrorData, this`updateNormals, this`timeWeight
      modifies this`position, this`positionOld, vertsBuf, vertsBufOld
      ensures Valid()
      ensures var w := old(currentStreamWait) + dt;
              var i := old(currentBufferIndex);
              if w <= vertexUpdateInterval || |bufferedStream| <= i then
                && completed && State() == old(State()) && currentBufferIndex == i
                && currentStreamWait == (if w <= vertexUpdateInterval then w else w - vertexUpdateInterval)
              else if i < 0 then
                !completed && State() == old(State()) && currentBufferIndex == i && currentStreamWait == w
              else
                var r := DecodeFrame(old(State()), bufferedStream[i].bytes, Quant(), isRequestComplete);
                && State() == r.state && completed == r.completed
                && currentBufferIndex == (if completed then i + 1 else i)
                && currentStreamWait == (if completed then w - vertexUpdateInterval else w)
    {
      currentStreamWait := currentStreamWait + dt;
      if currentStreamWait <= vertexUpdateInterval {
        return true;
      }
      if |bufferedStream| <= currentBufferIndex {
        currentStreamWait := currentStreamWait - vertexUpdateInterval;
        return true;
      }
      if currentBufferIndex < 0 {
        return false;
      }
      completed := PlayFrame();
    }

    /** Lines 344-347: the frame under the cursor decoded, then the cursor
        advanced and the timer wound back by one vertex interval. */
    method PlayFrame() returns (completed: bool)
      requires Valid() && 0 <= currentBufferIndex < |bufferedStream|
      modifies this`currentStreamWait, this`currentBufferIndex
      modifies this`linedIndices, this`getErrorData, this`updateNormals, this`timeWeight
      modifies this`position, this`positionOld, vertsBuf, vertsBufOld
      ensures Valid()
      ensures var r := DecodeFrame(old(State()), bufferedStream[old(currentBufferIndex)].bytes, Quant(), isRequestComplete);
              State() == r.state && completed == r.completed
      ensures currentBufferIndex == old(currentBufferIndex) + (if completed then 1 else 0)
      ensures currentStreamWait == old(currentStreamWait) - (if completed then vertexUpdateInterval else 0.0)
    {
      completed := VerticesReceived(bufferedStream[currentBufferIndex].bytes);
      if completed {
        Advance();
      }
    }

    /** The cursor moved to the next frame and the timer wound back by one
        vertex interval. */
    method Advance()
      modifies this`currentStreamWait, this`currentBufferIndex
      ensures currentBufferIndex == old(currentBufferIndex) + 1
      ensures currentStreamWait == old(currentStreamWait) - vertexUpdateInterval
    {
      currentBufferIndex := currentBufferIndex + 1;
      currentStreamWait := currentStreamWait - vertexUpdateInterval;
    }

    /** Lines 350-354: the interpolation runs whenever its timer passes
        `frameInterval / interpolateFrames`. */
    method InterpolationTick(dt: real) returns (renormalized: Option<nat>, completed: bool)
      requires Valid()
      modifies this`currentInterpolateWait, this`meshVertices, this`updateNormals, this`timeWeight
      ensures Valid()
      ensures var w := old(currentInterpolateWait) + dt;
              var step := frameInterval / interpolateFrames as real;
              if step < w then
                && currentInterpolateWait == w - step
                && meshVertices == (if old(timeWeight) < 1.0 then BlendStores(OldStore(), Store(), old(timeWeight))
                                    else old(meshVertices))
                && renormalized == (if old(timeWeight) < 1.0 && old(updateNormals) && 0 < |vertsBuf| then Some(0) else None)
                && updateNormals == (old(updateNormals) && renormalized.None?)
                && (completed <==> 0 < |vertsBuf|)
                && timeWeight == (if completed then old(timeWeight) + 1.0 / interpolateFrames as real else old(timeWeight))
              else
                && currentInterpolateWait == w && renormalized.None? && completed
                && meshVertices == old(meshVertices) && updateNormals == old(updateNormals)
                && timeWeight == old(timeWeight)
    {
      currentInterpolateWait := currentInterpolateWait + dt;
      var step := frameInterval / interpolateFrames as real;
      if step < currentInterpolateWait {
        currentInterpolateWait := currentInterpolateWait - step;
        renormalized, completed := UpdateVertsInterpolate();
      } else {
        renormalized, completed := None, true;
      }
    }

    /** `SeekTo(int)`: with a non-empty buffer the cursor jumps to the
        keyframe slot at or before the target (clamped to the last frame),
        that frame is decoded twice, the cursor moves past it, both timers
        restart and one interpolation runs.  A target of -5 or less puts the
        cursor before the buffer, which throws.  A decode that throws leaves
        the cursor on the slot and the timers running; an interpolation that
        throws (no mesh yet) comes after the cursor and timers were set. */
    method SeekTo(t: int) returns (renormalized: Option<nat>, completed: bool)
      requires Valid()
      modifies this`currentBufferIndex, this`currentStreamWait, this`currentInterpolateWait
      modifies this`linedIndices, this`getErrorData, this`updateNormals, this`timeWeight, this`meshVertices
      modifies this`position, this`positionOld, vertsBuf, vertsBufOld
      ensures Valid()
      ensures |bufferedStream| == 0 ==>
                && renormalized.None? && completed && State() == old(State()) && meshVertices == old(meshVertices)
                && currentBufferIndex == old(currentBufferIndex)
                && currentStreamWait == old(currentStreamWait) && currentInterpolateWait == old(currentInterpolateWait)
      ensures 0 < |bufferedStream| && t <= -5 ==>
                && !completed && currentBufferIndex == SeekFrame(t, |bufferedStream|) && State() == old(State())
                && currentStreamWait == old(currentStreamWait) && currentInterpolateWait == old(currentInterpolateWait)
                && meshVertices == old(meshVertices)
      ensures 0 < |bufferedStream| && -5 < t ==>
                || (&& currentBufferIndex == SeekFrame(t, |bufferedStream|) && !completed
                    && currentStreamWait == old(currentStreamWait) && currentInterpolateWait == old(currentInterpolateWait)
                    && meshVertices == old(meshVertices))
                || (&& currentBufferIndex == SeekFrame(t, |bufferedStream|) + 1 && 0 < currentBufferIndex <= |bufferedStream|
                    && currentStreamWait == 0.0 && currentInterpolateWait == 0.0 && (completed <==> 0 < |vertsBuf|))
      ensures 0 < |bufferedStream| && -5 < t && completed && isRequestComplete &&
              (var data := bufferedStream[SeekFrame(t, |bufferedStream|)].bytes;
               HeaderSize <= |data| && data[0] == KeyframeType) ==>
                OldStore() == Store() && meshVertices == Store() && timeWeight == 1.0 / interpolateFrames as real
    {
      renormalized, completed := None, true;
      if |bufferedStream| == 0 {
        return;
      }
      SeekFrameBounds(t, |bufferedStream|);
      currentBufferIndex := SeekFrame(t, |bufferedStream|);
      if currentBufferIndex < 0 {
        return None, false;
      }
      renormalized, completed := ReplayCursor();
    }

    /** Lines 378-384: the frame under the cursor decoded twice, the cursor
        moved past it, both timers restarted, and one interpolation. */
    method ReplayCursor() returns (renormalized: Option<nat>, completed: bool)
      requires Valid() && 0 <= currentBufferIndex < |bufferedStream|
      modifies this`currentBufferIndex, this`currentStreamWait, this`currentInterpolateWait
      modifies this`linedIndices, this`getErrorData, this`updateNormals, this`timeWeight, this`meshVertices
      modifies this`position, this`positionOld, vertsBuf, vertsBufOld
      ensures Valid()
      ensures currentBufferIndex == old(currentBufferIndex) || currentBufferIndex == old(currentBufferIndex) + 1
      ensures currentBufferIndex == old(currentBufferIndex) ==>
                && !completed && meshVertices == old(meshVertices)
                && currentStreamWait == old(currentStreamWait) && currentInterpolateWait == old(currentInterpolateWait)
      ensures currentBufferIndex == old(currentBufferIndex) + 1 ==>
                currentStreamWait == 0.0 && currentInterpolateWait == 0.0 && (completed <==> 0 < |vertsBuf|)
      ensures completed && isRequestComplete &&
              (var data := bufferedStream[old(currentBufferIndex)].bytes;
               HeaderSize <= |data| && data[0] == KeyframeType) ==>
                OldStore() == Store() && meshVertices == Store() && timeWeight == 1.0 / interpolateFrames as real
    {
      var data := bufferedStream[currentBufferIndex].bytes;
      completed := DecodeTwice(data);
      if !completed {
        return None, false;
      }
      ghost var keyframe := isRequestComplete && HeaderSize <= |data| && data[0] == KeyframeType;
      assert keyframe ==> OldStore() == Store() && timeWeight == 0.0;
      renormalized, completed := Resume();
    }

    /** Lines 381-384: the cursor moved on, both timers restarted, and one
        interpolation; when the previous and current stores agree at weight
        0, every mesh is handed the current store. */
    method Resume() returns (renormalized: Option<nat>, completed: bool)
      requires Valid()
      modifies this`currentBufferIndex, this`currentStreamWait, this`currentInterpolateWait
      modifies this`updateNormals, this`timeWeight, this`meshVertices
      ensures Valid()
      ensures currentBufferIndex == old(currentBufferIndex) + 1
      ensures currentStreamWait == 0.0 && currentInterpolateWait == 0.0
      ensures completed <==> 0 < |vertsBuf|
      ensures Store() == old(Store()) && OldStore() == old(OldStore())
      ensures completed && old(OldStore()) == old(Store()) && old(timeWeight) == 0.0 ==>
                OldStore() == Store() && meshVertices == Store() && timeWeight == 1.0 / interpolateFrames as real
    {
      ghost var store, storeOld := Store(), OldStore();
      BlendStoresSame(store, 0.0);
      currentBufferIndex := currentBufferIndex + 1;
      currentStreamWait, currentInterpolateWait := 0.0, 0.0;
      renormalized, completed := UpdateVertsInterpolate();
      assert Store() == store && OldStore() == storeOld;
    }

    /** `VerticesReceived(data)` twice, as a seek does; after a whole
        keyframe the previous store equals the current one and the weight
        is 0. */
    method DecodeTwice(data: seq<byte>) returns (completed: bool)
      requires Valid()
      modifies this`linedIndices, this`getErrorData, this`updateNormals, this`timeWeight
      modifies this`position, this`positionOld, vertsBuf, vertsBufOld
      ensures Valid()
      ensures completed ==> timeWeight == 0.0
      ensures isRequestComplete && completed && HeaderSize <= |data| && data[0] == KeyframeType ==>
                OldStore() == Store()
    {
      ghost var d, q := State(), Quant();
      completed := VerticesReceived(data);
      if !completed {
        return;
      }
      ghost var mid := State();
      completed := VerticesReceived(data);
      if isRequestComplete && HeaderSize <= |data| && data[0] == KeyframeType {
        ghost var r1 := DecodeFrame(d, data, q, true);
        assert mid == r1.state;
        KeyframeDecodeTwice(d, data, q);
        ghost var r2 := DecodeFrame(r1.state, data, q, true);
        assert State() == r2.state;
        assert r2.state.storeOld == r2.state.store;
      }
    }
  }
}
