// The binary frame decoder of the streaming-mesh receiver, stated as
// functions over values.  `DecodeFrame` is what one call of the receiver's
// `VerticesReceived` does to the decoder state; the class in receiver.dfy
// performs the same steps in place on its arrays and is proved equal to it.
//
// Frame layout (integers little-endian, unsigned):
//   byte 0         frame type: 0x0F keyframe, 0x0E delta
//   bytes 5..7     package count (24 bits)
//   bytes 9..20    root position x, y, z (three 4-byte floats, kept raw)
//   bytes 21..     payload
// Keyframe payload: per package a 3-byte grid origin, a 24-bit vertex
// count, then 5-byte records (vIdx u16, mIdx u8, u16 of three 5-bit
// offsets).  Delta payload: 3 bytes per entry of the index trace.
//
// Reading past the end of the buffer throws in the receiver; here the walk
// stops at that point with `completed == false`, keeping every write made
// before it.

module FrameDecoder {
  import opened Quantization

  /** The vertex store: one vertex array per mesh, by mesh index. */
  type Store = seq<seq<Vec3>>

  const KeyframeType: int := 0x0F
  const DeltaType: int := 0x0E
  const HeaderSize: int := 21
  const PackageHeaderSize: int := 6
  const RecordSize: int := 5
  const DeltaRecordSize: int := 3

  /** The vertex count of every mesh. */
  function Sizes(s: Store): (r: seq<int>)
    ensures |r| == |s| && forall m :: 0 <= m < |s| ==> r[m] == |s[m]|
  {
    seq(|s|, m requires 0 <= m < |s| => |s[m]|)
  }

  /** `(mIdx, vIdx)` names a vertex: the receiver's bounds check. */
  predicate InBounds(sizes: seq<int>, mIdx: int, vIdx: int) {
    0 <= mIdx < |sizes| && 0 <= vIdx < sizes[mIdx]
  }

  /** Every trace entry unpacks to a vertex of the store. */
  predicate TraceFits(sizes: seq<int>, trace: seq<int>) {
    forall k :: 0 <= k < |trace| ==>
      0 <= trace[k] && InBounds(sizes, TraceMesh(trace[k]), TraceVertex(trace[k]))
  }

  /** The trace entry `e` names vertex `(m, v)`. */
  predicate Names(e: int, m: int, v: int) {
    0 <= e && TraceMesh(e) == m && TraceVertex(e) == v
  }

  lemma SizesUpdate(s: Store, m: int, v: int, p: Vec3)
    requires 0 <= m < |s| && 0 <= v < |s[m]|
    ensures Sizes(s[m := s[m][v := p]]) == Sizes(s)
  {
  }

  /** The result of a walk over the buffer: the state reached, and whether
      the walk ran to its end (false: a read past the buffer would throw). */
  datatype Walk<S> = Walk(state: S, completed: bool)

  // ---------------------------------------------------------------------
  // Keyframe
  // ---------------------------------------------------------------------

  /** What a keyframe changes: the store, the rebuilt index trace and the
      error flag (`getErrorData`). */
  datatype KeyState = KeyState(store: Store, trace: seq<int>, error: bool)

  /** The record at `lIdx` names no vertex of the store. */
  predicate Rejected(sizes: seq<int>, data: seq<byte>, lIdx: int)
    requires 0 <= lIdx && lIdx + 3 <= |data|
  {
    !InBounds(sizes, data[lIdx + 2], Le16(data[lIdx], data[lIdx + 1]))
  }

  /** The position a keyframe record encodes: the origin of its package
      (bytes `pkg..pkg+2`) plus the three packed 5-bit offsets. */
  function KeyVertex(data: seq<byte>, q: Quant, pkg: int, compress: int): Vec3
    requires 0 <= pkg && pkg + 3 <= |data| && 0 <= compress
  {
    Vec3(KeyCoord(data[pkg], FieldX(compress), q),
         KeyCoord(data[pkg + 1], FieldY(compress), q),
         KeyCoord(data[pkg + 2], FieldZ(compress), q))
  }

  /** One record at `lIdx` of the package at `pkg`: a rejected record sets the
      error flag and writes nothing; an accepted one writes its vertex, appends
      its `(mIdx << 16) + vIdx` to the trace and clears the error flag. */
  function RecordStep(s: KeyState, data: seq<byte>, q: Quant, pkg: int, lIdx: int): (r: Walk<KeyState>)
    requires 0 <= pkg && pkg + 3 <= |data| && 0 <= lIdx
    requires TraceFits(Sizes(s.store), s.trace)
    ensures Sizes(r.state.store) == Sizes(s.store)
    ensures TraceFits(Sizes(s.store), r.state.trace)
  {
    if |data| < lIdx + 3 then Walk(s, false)
    else
      var vIdx := Le16(data[lIdx], data[lIdx + 1]);
      var mIdx := data[lIdx + 2];
      if !InBounds(Sizes(s.store), mIdx, vIdx) then Walk(s.(error := true), true)
      else if |data| < lIdx + 5 then Walk(s, false)
      else
        var p := KeyVertex(data, q, pkg, Le16(data[lIdx + 3], data[lIdx + 4]));
        PackRoundTrip(mIdx, vIdx);
        SizesUpdate(s.store, mIdx, vIdx, p);
        Walk(KeyState(s.store[mIdx := s.store[mIdx][vIdx := p]], s.trace + [Pack(mIdx, vIdx)], false), true)
  }

  /** Records `j..count-1` of the package whose header starts at `pkg`. */
  function Records(s: KeyState, data: seq<byte>, q: Quant, pkg: int, count: int, j: nat): (r: Walk<KeyState>)
    requires 0 <= pkg && pkg + PackageHeaderSize <= |data|
    requires TraceFits(Sizes(s.store), s.trace)
    ensures Sizes(r.state.store) == Sizes(s.store)
    ensures TraceFits(Sizes(s.store), r.state.trace)
    decreases count - j
  {
    if j >= count then Walk(s, true)
    else
      var r1 := RecordStep(s, data, q, pkg, pkg + PackageHeaderSize + RecordSize * j);
      if !r1.completed then r1 else Records(r1.state, data, q, pkg, count, j + 1)
  }

  /** Record `j` followed by the records after it. */
  lemma RecordsStep(s: KeyState, data: seq<byte>, q: Quant, pkg: int, count: int, j: nat)
    requires 0 <= pkg && pkg + PackageHeaderSize <= |data|
    requires TraceFits(Sizes(s.store), s.trace) && j < count
    ensures var r1 := RecordStep(s, data, q, pkg, pkg + PackageHeaderSize + RecordSize * j);
            Records(s, data, q, pkg, count, j) ==
              if !r1.completed then r1 else Records(r1.state, data, q, pkg, count, j + 1)
  {
  }

  /** Packages `i..packages-1`, the first of them starting at `offset`; each
      package moves the offset by `6 + 5 * vertCount`. */
  function Packages(s: KeyState, data: seq<byte>, q: Quant, packages: int, offset: nat, i: nat): (r: Walk<KeyState>)
    requires TraceFits(Sizes(s.store), s.trace)
    ensures Sizes(r.state.store) == Sizes(s.store)
    ensures TraceFits(Sizes(s.store), r.state.trace)
    decreases packages - i
  {
    if i >= packages then Walk(s, true)
    else if |data| < offset + PackageHeaderSize then Walk(s, false)
    else
      var vertCount := Le24(data[offset + 3], data[offset + 4], data[offset + 5]);
      var r1 := Records(s, data, q, offset, vertCount, 0);
      if !r1.completed then r1
      else Packages(r1.state, data, q, packages, offset + PackageHeaderSize + RecordSize * vertCount, i + 1)
  }

  /** Package `i` is its records followed by the packages after it. */
  lemma PackagesStep(s: KeyState, data: seq<byte>, q: Quant, packages: int, offset: nat, i: nat)
    requires TraceFits(Sizes(s.store), s.trace)
    requires i < packages && offset + PackageHeaderSize <= |data|
    ensures var vertCount := Le24(data[offset + 3], data[offset + 4], data[offset + 5]);
            var r1 := Records(s, data, q, offset, vertCount, 0);
            Packages(s, data, q, packages, offset, i) ==
              if !r1.completed then r1
              else Packages(r1.state, data, q, packages, offset + PackageHeaderSize + RecordSize * vertCount, i + 1)
  {
  }

  // ---------------------------------------------------------------------
  // Delta
  // ---------------------------------------------------------------------

  /** Trace entries `i..` in order: entry `i` adds the correction of bytes
      `21 + 3i .. 21 + 3i + 2` to the vertex it names. */
  function DeltaSteps(store: Store, trace: seq<int>, data: seq<byte>, i: nat): (r: Walk<Store>)
    requires TraceFits(Sizes(store), trace)
    ensures Sizes(r.state) == Sizes(store)
    decreases |trace| - i
  {
    if i >= |trace| then Walk(store, true)
    else
      var lIdx := HeaderSize + DeltaRecordSize * i;
      if |data| < lIdx + 3 then Walk(store, false)
      else
        var m, v := TraceMesh(trace[i]), TraceVertex(trace[i]);
        var p := Add(store[m][v], DeltaVec(data[lIdx], data[lIdx + 1], data[lIdx + 2]));
        SizesUpdate(store, m, v, p);
        DeltaSteps(store[m := store[m][v := p]], trace, data, i + 1)
  }

  // ---------------------------------------------------------------------
  // Whole frame
  // ---------------------------------------------------------------------

  /** The root position's three 4-byte float fields, left undecoded. */
  datatype RootPos = RootPos(x: seq<byte>, y: seq<byte>, z: seq<byte>)

  /** Everything one decode reads or writes: current and previous store and
      root position, the index trace, the error flag, the "normals dirty"
      flag and the interpolation weight. */
  datatype Decoder = Decoder(store: Store, storeOld: Store, position: RootPos, positionOld: RootPos,
                             trace: seq<int>, error: bool, updateNormals: bool, timeWeight: real)

  /** Copy current to previous, then read the package count and the root
      position; completes iff the 21-byte header is present. */
  function DecodeHeader(d: Decoder, data: seq<byte>): (r: Walk<Decoder>)
    ensures r.state.store == d.store && r.state.storeOld == d.store && r.state.positionOld == d.position
    ensures r.state.trace == d.trace && r.state.error == d.error
    ensures r.state.updateNormals == d.updateNormals && r.state.timeWeight == d.timeWeight
    ensures r.completed <==> HeaderSize <= |data|
  {
    var d := d.(storeOld := d.store, positionOld := d.position);
    if |data| < 13 then Walk(d, false)
    else
      var d := d.(position := d.position.(x := data[9..13]));
      if |data| < 17 then Walk(d, false)
      else
        var d := d.(position := d.position.(y := data[13..17]));
        if |data| < 21 then Walk(d, false)
        else Walk(d.(position := d.position.(z := data[17..21])), true)
  }

  /** The package count of a frame whose header is present. */
  function PackageCount(data: seq<byte>): (r: int)
    requires HeaderSize <= |data|
    ensures 0 <= r < 0x100_0000
  {
    Le24(data[5], data[6], data[7])
  }

  /** The payload: a keyframe clears and rebuilds the trace; a delta frame is
      applied only while the error flag is clear; any other type changes
      nothing. */
  function DecodePayload(d: Decoder, data: seq<byte>, q: Quant): (r: Walk<Decoder>)
    requires HeaderSize <= |data|
    requires TraceFits(Sizes(d.store), d.trace)
    ensures Sizes(r.state.store) == Sizes(d.store) && TraceFits(Sizes(d.store), r.state.trace)
    ensures r.state.timeWeight == d.timeWeight
  {
    if data[0] == KeyframeType then
      var k := Packages(KeyState(d.store, [], d.error), data, q, PackageCount(data), HeaderSize, 0);
      Walk(d.(store := k.state.store, trace := k.state.trace, error := k.state.error, updateNormals := true), k.completed)
    else if data[0] == DeltaType && !d.error then
      var s := DeltaSteps(d.store, d.trace, data, 0);
      Walk(d.(store := s.state), s.completed)
    else
      Walk(d, true)
  }

  /** The header, then the payload if the header is complete. */
  function DecodeData(d: Decoder, data: seq<byte>, q: Quant): (r: Walk<Decoder>)
    requires TraceFits(Sizes(d.store), d.trace)
    ensures Sizes(r.state.store) == Sizes(d.store) && TraceFits(Sizes(d.store), r.state.trace)
    ensures r.state.timeWeight == d.timeWeight
  {
    var h := DecodeHeader(d, data);
    if !h.completed then h else DecodePayload(h.state, data, q)
  }

  /** One call of `VerticesReceived(data)`: the header and payload once the
      session metadata has arrived (`ready`), then, unless the decode threw,
      the interpolation weight is reset. */
  function DecodeFrame(d: Decoder, data: seq<byte>, q: Quant, ready: bool): (r: Walk<Decoder>)
    requires TraceFits(Sizes(d.store), d.trace)
    ensures Sizes(r.state.store) == Sizes(d.store) && TraceFits(Sizes(d.store), r.state.trace)
  {
    var r := if ready then DecodeData(d, data, q) else Walk(d, true);
    if r.completed then Walk(r.state.(timeWeight := 0.0), true) else r
  }

  // =====================================================================
  // Properties
  // =====================================================================

  /** Double buffering: a ready decode first makes the previous store and
      position equal the current ones; a decode that completes leaves the
      weight at 0; without metadata only the weight changes; a frame type
      other than 0x0F and 0x0E changes no vertex and no trace entry. */
  lemma DecodeFrameBuffers(d: Decoder, data: seq<byte>, q: Quant, ready: bool)
    requires TraceFits(Sizes(d.store), d.trace)
    ensures var r := DecodeFrame(d, data, q, ready);
            && (ready ==> r.state.storeOld == d.store && r.state.positionOld == d.position)
            && (!ready ==> r.completed && r.state == d.(timeWeight := 0.0))
            && (ready && |data| < HeaderSize ==> !r.completed)
            && (r.completed ==> r.state.timeWeight == 0.0)
            && (ready && HeaderSize <= |data| && data[0] != KeyframeType && data[0] != DeltaType ==>
                  r.completed && r.state.store == d.store && r.state.trace == d.trace && r.state.error == d.error)
  {
  }

  /** A header shorter than 21 bytes stops the decode before the payload:
      no vertex, trace entry or flag changes. */
  lemma TruncatedHeaderChangesNoVertex(d: Decoder, data: seq<byte>, q: Quant)
    requires TraceFits(Sizes(d.store), d.trace)
    requires |data| < HeaderSize
    ensures var r := DecodeFrame(d, data, q, true);
            !r.completed && r.state.store == d.store && r.state.trace == d.trace &&
            r.state.error == d.error && r.state.timeWeight == d.timeWeight
  {
  }

  // ---------------------------------------------------------------------
  // Keyframe: the error flag
  // ---------------------------------------------------------------------

  /** After a package's records walk completes, the error flag says whether
      the LAST record was rejected, whatever happened to the ones before it
      (an accepted record clears the flag). */
  lemma {:induction false} RecordsErrorFlag(s: KeyState, data: seq<byte>, q: Quant, pkg: int, count: int, j: nat)
    requires 0 <= pkg && pkg + PackageHeaderSize <= |data|
    requires TraceFits(Sizes(s.store), s.trace)
    requires j < count
    requires Records(s, data, q, pkg, count, j).completed
    ensures var last := pkg + PackageHeaderSize + RecordSize * (count - 1);
            last + 3 <= |data| &&
            Records(s, data, q, pkg, count, j).state.error == Rejected(Sizes(s.store), data, last)
    decreases count - j
  {
    var r1 := RecordStep(s, data, q, pkg, pkg + PackageHeaderSize + RecordSize * j);
    if j + 1 < count {
      RecordsErrorFlag(r1.state, data, q, pkg, count, j + 1);
    }
  }

  /** A walk over no record leaves the error flag as it was. */
  lemma EmptyPackageKeepsFlag(s: KeyState, data: seq<byte>, q: Quant, pkg: int)
    requires 0 <= pkg && pkg + PackageHeaderSize <= |data|
    requires TraceFits(Sizes(s.store), s.trace)
    ensures Records(s, data, q, pkg, 0, 0) == Walk(s, true)
  {
  }

  // ---------------------------------------------------------------------
  // Keyframe: only the vertices named by the new trace change
  // ---------------------------------------------------------------------

  /** Some entry of `trace` from index `from` on names `(m, v)`. */
  ghost predicate NamedFrom(trace: seq<int>, from: int, m: int, v: int) {
    exists k :: 0 <= from <= k < |trace| && Names(trace[k], m, v)
  }

  /** The walk only appends to the trace, and a vertex that no appended entry
      names keeps its value. */
  ghost predicate OnlyNamedChange(s: KeyState, r: KeyState) {
    && |s.trace| <= |r.trace| && r.trace[..|s.trace|] == s.trace
    && Sizes(r.store) == Sizes(s.store)
    && forall m, v :: InBounds(Sizes(s.store), m, v) && !NamedFrom(r.trace, |s.trace|, m, v) ==>
         r.store[m][v] == s.store[m][v]
  }

  lemma NamedFromGrows(t: seq<int>, u: seq<int>, from: int, m: int, v: int)
    requires |t| <= |u| && u[..|t|] == t
    ensures NamedFrom(t, from, m, v) ==> NamedFrom(u, from, m, v)
  {
    if NamedFrom(t, from, m, v) {
      var k :| 0 <= from <= k < |t| && Names(t[k], m, v);
      assert u[..|t|][k] == u[k];
    }
  }

  lemma NamedFromEarlier(t: seq<int>, from: int, later: int, m: int, v: int)
    requires 0 <= from <= later
    ensures NamedFrom(t, later, m, v) ==> NamedFrom(t, from, m, v)
  {
  }

  lemma OnlyNamedChangeTrans(a: KeyState, b: KeyState, c: KeyState)
    requires OnlyNamedChange(a, b) && OnlyNamedChange(b, c)
    ensures OnlyNamedChange(a, c)
  {
    assert c.trace[..|a.trace|] == c.trace[..|b.trace|][..|a.trace|];
    forall m, v | InBounds(Sizes(a.store), m, v) && !NamedFrom(c.trace, |a.trace|, m, v)
      ensures c.store[m][v] == a.store[m][v]
    {
      NamedFromGrows(b.trace, c.trace, |a.trace|, m, v);
      NamedFromEarlier(c.trace, |a.trace|, |b.trace|, m, v);
    }
  }

  lemma RecordStepOnlyNamed(s: KeyState, data: seq<byte>, q: Quant, pkg: int, lIdx: int)
    requires 0 <= pkg && pkg + 3 <= |data| && 0 <= lIdx
    requires TraceFits(Sizes(s.store), s.trace)
    ensures OnlyNamedChange(s, RecordStep(s, data, q, pkg, lIdx).state)
  {
    var r := RecordStep(s, data, q, pkg, lIdx).state;
    if |data| >= lIdx + 3 {
      var vIdx := Le16(data[lIdx], data[lIdx + 1]);
      var mIdx := data[lIdx + 2];
      if InBounds(Sizes(s.store), mIdx, vIdx) && |data| >= lIdx + 5 {
        PackRoundTrip(mIdx, vIdx);
        assert r.trace[|s.trace|] == Pack(mIdx, vIdx);
        assert Names(r.trace[|s.trace|], mIdx, vIdx);
      }
    }
  }

  lemma {:induction false} RecordsOnlyNamed(s: KeyState, data: seq<byte>, q: Quant, pkg: int, count: int, j: nat)
    requires 0 <= pkg && pkg + PackageHeaderSize <= |data|
    requires TraceFits(Sizes(s.store), s.trace)
    ensures OnlyNamedChange(s, Records(s, data, q, pkg, count, j).state)
    decreases count - j
  {
    if j < count {
      var lIdx := pkg + PackageHeaderSize + RecordSize * j;
      var r1 := RecordStep(s, data, q, pkg, lIdx);
      RecordStepOnlyNamed(s, data, q, pkg, lIdx);
      if r1.completed {
        RecordsOnlyNamed(r1.state, data, q, pkg, count, j + 1);
        OnlyNamedChangeTrans(s, r1.state, Records(r1.state, data, q, pkg, count, j + 1).state);
      }
    }
  }

  lemma {:induction false} PackagesOnlyNamed(s: KeyState, data: seq<byte>, q: Quant, packages: int, offset: nat, i: nat)
    requires TraceFits(Sizes(s.store), s.trace)
    ensures OnlyNamedChange(s, Packages(s, data, q, packages, offset, i).state)
    decreases packages - i
  {
    if i < packages && offset + PackageHeaderSize <= |data| {
      var vertCount := Le24(data[offset + 3], data[offset + 4], data[offset + 5]);
      var r1 := Records(s, data, q, offset, vertCount, 0);
      RecordsOnlyNamed(s, data, q, offset, vertCount, 0);
      if r1.completed {
        var next := offset + PackageHeaderSize + RecordSize * vertCount;
        PackagesOnlyNamed(r1.state, data, q, packages, next, i + 1);
        OnlyNamedChangeTrans(s, r1.state, Packages(r1.state, data, q, packages, next, i + 1).state);
      }
    }
  }

  /** A keyframe rebuilds the trace from scratch, every new entry names a
      vertex of the store, and every vertex that no new entry names keeps
      its value (rejected records write nothing and append nothing). */
  lemma KeyframeTouchesOnlyTrace(d: Decoder, data: seq<byte>, q: Quant)
    requires TraceFits(Sizes(d.store), d.trace)
    requires HeaderSize <= |data| && data[0] == KeyframeType
    ensures var r := DecodeFrame(d, data, q, true).state;
            && r.updateNormals
            && TraceFits(Sizes(d.store), r.trace)
            && forall m, v :: InBounds(Sizes(d.store), m, v) && !NamedFrom(r.trace, 0, m, v) ==>
                 r.store[m][v] == d.store[m][v]
  {
    PackagesOnlyNamed(KeyState(d.store, [], d.error), data, q, PackageCount(data), HeaderSize, 0);
  }

  // ---------------------------------------------------------------------
  // Keyframe: what a decode produces, record by record
  // ---------------------------------------------------------------------

  /** The outcome of one examined keyframe record: accepted, naming vertex
      `(m, v)` and carrying position `p`, or rejected by the bounds check. */
  datatype Scan = Accept(m: int, v: int, p: Vec3) | Reject

  /** The outcomes of records `j..count-1` of the package at `pkg`, for a
      store of the given mesh sizes; the walk does not complete when a
      record's bytes run past the buffer. */
  function ScanRecords(sizes: seq<int>, data: seq<byte>, q: Quant, pkg: int, count: int, j: nat): Walk<seq<Scan>>
    requires 0 <= pkg && pkg + PackageHeaderSize <= |data|
    decreases count - j
  {
    var lIdx := pkg + PackageHeaderSize + RecordSize * j;
    if j >= count then Walk([], true)
    else if |data| < lIdx + 3 then Walk([], false)
    else if Rejected(sizes, data, lIdx) then
      var rest := ScanRecords(sizes, data, q, pkg, count, j + 1);
      Walk([Reject] + rest.state, rest.completed)
    else if |data| < lIdx + RecordSize then Walk([], false)
    else
      var e := Accept(data[lIdx + 2], Le16(data[lIdx], data[lIdx + 1]),
                      KeyVertex(data, q, pkg, Le16(data[lIdx + 3], data[lIdx + 4])));
      var rest := ScanRecords(sizes, data, q, pkg, count, j + 1);
      Walk([e] + rest.state, rest.completed)
  }

  /** The outcomes of the records of packages `i..packages-1`, in order. */
  function ScanPackages(sizes: seq<int>, data: seq<byte>, q: Quant, packages: int, offset: nat, i: nat): Walk<seq<Scan>>
    decreases packages - i
  {
    if i >= packages then Walk([], true)
    else if |data| < offset + PackageHeaderSize then Walk([], false)
    else
      var vertCount := Le24(data[offset + 3], data[offset + 4], data[offset + 5]);
      var a := ScanRecords(sizes, data, q, offset, vertCount, 0);
      if !a.completed then a
      else
        var b := ScanPackages(sizes, data, q, packages, offset + PackageHeaderSize + RecordSize * vertCount, i + 1);
        Walk(a.state + b.state, b.completed)
  }

  /** The trace entries the outcomes append: one per accepted record. */
  function Trace(ev: seq<Scan>): seq<int> {
    if |ev| == 0 then []
    else
      var e := ev[|ev| - 1];
      Trace(ev[..|ev| - 1]) + (if e.Accept? then [Pack(e.m, e.v)] else [])
  }

  /** The error flag after the outcomes: whether the last one was a
      rejection, or `init` when there was none. */
  function Flag(ev: seq<Scan>, init: bool): bool {
    if |ev| == 0 then init else ev[|ev| - 1].Reject?
  }

  /** The value of vertex `(m, v)` after the outcomes: the position of the
      last accepted record that names it, or `init` when none does. */
  function LastWrite(ev: seq<Scan>, m: int, v: int, init: Vec3): Vec3 {
    if |ev| == 0 then init
    else
      var e := ev[|ev| - 1];
      if e.Accept? && e.m == m && e.v == v then e.p else LastWrite(ev[..|ev| - 1], m, v, init)
  }

  /** `r` is `s` after the outcomes `ev`. */
  ghost predicate Replayed(s: KeyState, ev: seq<Scan>, r: KeyState) {
    && r.trace == s.trace + Trace(ev)
    && r.error == Flag(ev, s.error)
    && Sizes(r.store) == Sizes(s.store)
    && forall m, v :: InBounds(Sizes(s.store), m, v) ==>
         r.store[m][v] == LastWrite(ev, m, v, s.store[m][v])
  }

  lemma {:induction false} TraceConcat(a: seq<Scan>, b: seq<Scan>)
    ensures Trace(a + b) == Trace(a) + Trace(b)
    decreases |b|
  {
    if |b| > 0 {
      assert (a + b)[..|a + b| - 1] == a + b[..|b| - 1];
      TraceConcat(a, b[..|b| - 1]);
    } else {
      assert a + b == a;
    }
  }

  lemma {:induction false} LastWriteConcat(a: seq<Scan>, b: seq<Scan>, m: int, v: int, init: Vec3)
    ensures LastWrite(a + b, m, v, init) == LastWrite(b, m, v, LastWrite(a, m, v, init))
    decreases |b|
  {
    if |b| > 0 {
      assert (a + b)[..|a + b| - 1] == a + b[..|b| - 1];
      LastWriteConcat(a, b[..|b| - 1], m, v, init);
    } else {
      assert a + b == a;
    }
  }

  lemma ReplayedTrans(s: KeyState, r1: KeyState, r2: KeyState, a: seq<Scan>, b: seq<Scan>)
    requires Replayed(s, a, r1) && Replayed(r1, b, r2)
    ensures Replayed(s, a + b, r2)
  {
    TraceConcat(a, b);
    forall m, v | InBounds(Sizes(s.store), m, v)
      ensures r2.store[m][v] == LastWrite(a + b, m, v, s.store[m][v])
    {
      LastWriteConcat(a, b, m, v, s.store[m][v]);
    }
  }

  lemma ReplayedNothing(s: KeyState)
    ensures Replayed(s, [], s)
  {
  }

  /** The records walk does exactly what its outcomes say, and completes
      exactly when they do. */
  lemma {:induction false} RecordsScan(s: KeyState, data: seq<byte>, q: Quant, pkg: int, count: int, j: nat)
    requires 0 <= pkg && pkg + PackageHeaderSize <= |data|
    requires TraceFits(Sizes(s.store), s.trace)
    ensures var r := Records(s, data, q, pkg, count, j);
            var ev := ScanRecords(Sizes(s.store), data, q, pkg, count, j);
            r.completed == ev.completed && Replayed(s, ev.state, r.state)
    decreases count - j
  {
    var lIdx := pkg + PackageHeaderSize + RecordSize * j;
    if j >= count || !RecordStep(s, data, q, pkg, lIdx).completed {
      ReplayedNothing(s);
    } else {
      var r1 := RecordStep(s, data, q, pkg, lIdx);
      var e := if Rejected(Sizes(s.store), data, lIdx) then Reject
               else Accept(data[lIdx + 2], Le16(data[lIdx], data[lIdx + 1]),
                           KeyVertex(data, q, pkg, Le16(data[lIdx + 3], data[lIdx + 4])));
      if e.Accept? {
        PackRoundTrip(e.m, e.v);
      }
      forall m, v | InBounds(Sizes(s.store), m, v)
        ensures r1.state.store[m][v] == LastWrite([e], m, v, s.store[m][v])
      {
        assert [e][..0] == [];
      }
      assert [e][..0] == [];
      RecordsScan(r1.state, data, q, pkg, count, j + 1);
      ReplayedTrans(s, r1.state, Records(r1.state, data, q, pkg, count, j + 1).state,
                    [e], ScanRecords(Sizes(s.store), data, q, pkg, count, j + 1).state);
    }
  }

  /** The packages walk does exactly what its outcomes say, and completes
      exactly when they do. */
  lemma {:induction false} PackagesScan(s: KeyState, data: seq<byte>, q: Quant, packages: int, offset: nat, i: nat)
    requires TraceFits(Sizes(s.store), s.trace)
    ensures var r := Packages(s, data, q, packages, offset, i);
            var ev := ScanPackages(Sizes(s.store), data, q, packages, offset, i);
            r.completed == ev.completed && Replayed(s, ev.state, r.state)
    decreases packages - i
  {
    if i >= packages || |data| < offset + PackageHeaderSize {
      ReplayedNothing(s);
    } else {
      var vertCount := Le24(data[offset + 3], data[offset + 4], data[offset + 5]);
      var r1 := Records(s, data, q, offset, vertCount, 0);
      RecordsScan(s, data, q, offset, vertCount, 0);
      if r1.completed {
        var next := offset + PackageHeaderSize + RecordSize * vertCount;
        PackagesScan(r1.state, data, q, packages, next, i + 1);
        ReplayedTrans(s, r1.state, Packages(r1.state, data, q, packages, next, i + 1).state,
                      ScanRecords(Sizes(s.store), data, q, offset, vertCount, 0).state,
                      ScanPackages(Sizes(s.store), data, q, packages, next, i + 1).state);
      }
    }
  }

  /** A keyframe decode, record by record: it completes exactly when its
      records all lie inside the buffer; the new trace holds one entry per
      accepted record, in the order read; the error flag says whether the
      last examined record was rejected (unchanged when no record was
      examined); every vertex holds the position of the last accepted record
      naming it, or its old value. */
  lemma KeyframeScan(d: Decoder, data: seq<byte>, q: Quant)
    requires TraceFits(Sizes(d.store), d.trace)
    requires HeaderSize <= |data| && data[0] == KeyframeType
    ensures var r := DecodeFrame(d, data, q, true);
            var ev := ScanPackages(Sizes(d.store), data, q, PackageCount(data), HeaderSize, 0);
            && r.completed == ev.completed
            && r.state.trace == Trace(ev.state)
            && r.state.error == Flag(ev.state, d.error)
            && forall m, v :: InBounds(Sizes(d.store), m, v) ==>
                 r.state.store[m][v] == LastWrite(ev.state, m, v, d.store[m][v])
  {
    PackagesScan(KeyState(d.store, [], d.error), data, q, PackageCount(data), HeaderSize, 0);
  }

  /** A keyframe whose packages hold no examined record leaves the error
      flag (`getErrorData`) and every vertex as they were, and empties the
      trace. */
  lemma KeyframeNoRecordsKeepsFlag(d: Decoder, data: seq<byte>, q: Quant)
    requires TraceFits(Sizes(d.store), d.trace)
    requires HeaderSize <= |data| && data[0] == KeyframeType
    requires ScanPackages(Sizes(d.store), data, q, PackageCount(data), HeaderSize, 0).state == []
    ensures var r := DecodeFrame(d, data, q, true).state;
            r.error == d.error && r.store == d.store && r.trace == []
  {
    KeyframeScan(d, data, q);
    var r := DecodeFrame(d, data, q, true).state;
    assert |r.store| == |d.store|;
    forall m | 0 <= m < |d.store|
      ensures r.store[m] == d.store[m]
    {
      assert |r.store[m]| == |d.store[m]|;
      forall v | 0 <= v < |d.store[m]|
        ensures r.store[m][v] == d.store[m][v]
      {
        assert InBounds(Sizes(d.store), m, v);
      }
    }
  }

  /** Last write wins: a vertex that no accepted outcome names keeps `init`,
      and one that is named holds the position of the last outcome naming
      it. */
  lemma {:induction false} LastWriteWins(ev: seq<Scan>, m: int, v: int, init: Vec3, k: int)
    requires -1 <= k < |ev|
    requires k >= 0 ==> ev[k].Accept? && ev[k].m == m && ev[k].v == v
    requires forall i :: k < i < |ev| ==> !(ev[i].Accept? && ev[i].m == m && ev[i].v == v)
    ensures LastWrite(ev, m, v, init) == if k < 0 then init else ev[k].p
    decreases |ev|
  {
    if |ev| > 0 && k < |ev| - 1 {
      var pre := ev[..|ev| - 1];
      assert forall i :: k < i < |pre| ==> pre[i] == ev[i];
      LastWriteWins(pre, m, v, init, k);
    }
  }

  // ---------------------------------------------------------------------
  // Keyframe: decoding the same keyframe twice
  // ---------------------------------------------------------------------

  /** `ra`/`rb` are the results of the same writes applied to `a`/`b`: at
      every vertex they agree, or neither was written. */
  ghost predicate SameWrites(a: Store, b: Store, ra: Store, rb: Store)
    requires Sizes(a) == Sizes(b) == Sizes(ra) == Sizes(rb)
  {
    forall m, v :: InBounds(Sizes(a), m, v) ==>
      ra[m][v] == rb[m][v] || (ra[m][v] == a[m][v] && rb[m][v] == b[m][v])
  }

  /** Two keyframe walks over the same bytes, from stores of the same shape
      and the same trace, end alike: same trace and completion, the same
      writes, and error flags that agree or were both left untouched. */
  ghost predicate SameWalk(a: KeyState, b: KeyState, ra: Walk<KeyState>, rb: Walk<KeyState>) {
    && Sizes(a.store) == Sizes(b.store) == Sizes(ra.state.store) == Sizes(rb.state.store)
    && ra.completed == rb.completed
    && ra.state.trace == rb.state.trace
    && (ra.state.error == rb.state.error || (ra.state.error == a.error && rb.state.error == b.error))
    && SameWrites(a.store, b.store, ra.state.store, rb.state.store)
  }

  lemma SameWalkTrans(a: KeyState, b: KeyState, a1: Walk<KeyState>, b1: Walk<KeyState>,
                      ra: Walk<KeyState>, rb: Walk<KeyState>)
    requires SameWalk(a, b, a1, b1) && a1.completed
    requires SameWalk(a1.state, b1.state, ra, rb)
    ensures SameWalk(a, b, ra, rb)
  {
  }

  lemma RecordStepSame(a: KeyState, b: KeyState, data: seq<byte>, q: Quant, pkg: int, lIdx: int)
    requires 0 <= pkg && pkg + 3 <= |data| && 0 <= lIdx
    requires TraceFits(Sizes(a.store), a.trace)
    requires Sizes(a.store) == Sizes(b.store) && a.trace == b.trace
    ensures SameWalk(a, b, RecordStep(a, data, q, pkg, lIdx), RecordStep(b, data, q, pkg, lIdx))
  {
  }

  lemma {:induction false} RecordsSame(a: KeyState, b: KeyState, data: seq<byte>, q: Quant, pkg: int, count: int, j: nat)
    requires 0 <= pkg && pkg + PackageHeaderSize <= |data|
    requires TraceFits(Sizes(a.store), a.trace)
    requires Sizes(a.store) == Sizes(b.store) && a.trace == b.trace
    ensures SameWalk(a, b, Records(a, data, q, pkg, count, j), Records(b, data, q, pkg, count, j))
    decreases count - j
  {
    if j < count {
      var lIdx := pkg + PackageHeaderSize + RecordSize * j;
      var a1, b1 := RecordStep(a, data, q, pkg, lIdx), RecordStep(b, data, q, pkg, lIdx);
      RecordStepSame(a, b, data, q, pkg, lIdx);
      if a1.completed {
        RecordsSame(a1.state, b1.state, data, q, pkg, count, j + 1);
        SameWalkTrans(a, b, a1, b1, Records(a1.state, data, q, pkg, count, j + 1),
                      Records(b1.state, data, q, pkg, count, j + 1));
      }
    }
  }

  lemma {:induction false} PackagesSame(a: KeyState, b: KeyState, data: seq<byte>, q: Quant, packages: int, offset: nat, i: nat)
    requires TraceFits(Sizes(a.store), a.trace)
    requires Sizes(a.store) == Sizes(b.store) && a.trace == b.trace
    ensures SameWalk(a, b, Packages(a, data, q, packages, offset, i), Packages(b, data, q, packages, offset, i))
    decreases packages - i
  {
    if i < packages && offset + PackageHeaderSize <= |data| {
      var vertCount := Le24(data[offset + 3], data[offset + 4], data[offset + 5]);
      var a1, b1 := Records(a, data, q, offset, vertCount, 0), Records(b, data, q, offset, vertCount, 0);
      RecordsSame(a, b, data, q, offset, vertCount, 0);
      if a1.completed {
        var next := offset + PackageHeaderSize + RecordSize * vertCount;
        PackagesSame(a1.state, b1.state, data, q, packages, next, i + 1);
        SameWalkTrans(a, b, a1, b1, Packages(a1.state, data, q, packages, next, i + 1),
                      Packages(b1.state, data, q, packages, next, i + 1));
      }
    }
  }

  /** Walking a keyframe again over its own result changes nothing: same
      store, same trace, same error flag, same completion. */
  lemma KeyframeWalkIdempotent(store: Store, error: bool, data: seq<byte>, q: Quant, packages: int)
    ensures var r1 := Packages(KeyState(store, [], error), data, q, packages, HeaderSize, 0);
            Packages(KeyState(r1.state.store, [], r1.state.error), data, q, packages, HeaderSize, 0) == r1
  {
    var a := KeyState(store, [], error);
    var r1 := Packages(a, data, q, packages, HeaderSize, 0);
    var b := KeyState(r1.state.store, [], r1.state.error);
    var r2 := Packages(b, data, q, packages, HeaderSize, 0);
    PackagesSame(a, b, data, q, packages, HeaderSize, 0);
    SameWritesAgain(store, r1.state.store, r2.state.store);
    assert r2.state == r1.state;
  }

  /** Writes repeated over their own result change nothing. */
  lemma SameWritesAgain(a: Store, r1: Store, r2: Store)
    requires Sizes(a) == Sizes(r1) == Sizes(r2)
    requires SameWrites(a, r1, r1, r2)
    ensures r2 == r1
  {
    forall m | 0 <= m < |r1| ensures r2[m] == r1[m] {
      forall v | 0 <= v < |r1[m]| ensures r2[m][v] == r1[m][v] {
        assert InBounds(Sizes(a), m, v);
      }
    }
  }

  /** Decoding the same keyframe twice in a row (what a seek does) leaves
      the previous store equal to the current one, and the second decode
      changes no vertex, trace entry or flag the first one set. */
  lemma KeyframeDecodeTwice(d: Decoder, data: seq<byte>, q: Quant)
    requires TraceFits(Sizes(d.store), d.trace)
    requires HeaderSize <= |data| && data[0] == KeyframeType
    ensures var r1 := DecodeFrame(d, data, q, true);
            var r2 := DecodeFrame(r1.state, data, q, true);
            && r2.completed == r1.completed
            && r2.state.store == r1.state.store
            && r2.state.storeOld == r2.state.store
            && r2.state.trace == r1.state.trace
            && r2.state.error == r1.state.error
  {
    var h := DecodeHeader(d, data);
    KeyframeWalkIdempotent(h.state.store, h.state.error, data, q, PackageCount(data));
  }

  // ---------------------------------------------------------------------
  // Delta
  // ---------------------------------------------------------------------

  /** The delta walk runs to its end iff the buffer holds 3 bytes for every
      trace entry; a longer buffer's extra bytes are ignored. */
  lemma {:induction false} DeltaStepsCompletes(store: Store, trace: seq<int>, data: seq<byte>, i: nat)
    requires TraceFits(Sizes(store), trace)
    requires i <= |trace|
    ensures DeltaSteps(store, trace, data, i).completed <==>
              i == |trace| || HeaderSize + DeltaRecordSize * |trace| <= |data|
    decreases |trace| - i
  {
    if i < |trace| {
      var lIdx := HeaderSize + DeltaRecordSize * i;
      if lIdx + 3 <= |data| {
        var m, v := TraceMesh(trace[i]), TraceVertex(trace[i]);
        var p := Add(store[m][v], DeltaVec(data[lIdx], data[lIdx + 1], data[lIdx + 2]));
        SizesUpdate(store, m, v, p);
        DeltaStepsCompletes(store[m := store[m][v := p]], trace, data, i + 1);
      }
    }
  }

  /** The total correction entries `i..` of the trace give vertex `(m, v)`:
      the sum of the corrections of every entry that names it. */
  function Contribution(trace: seq<int>, data: seq<byte>, i: nat, m: int, v: int): Vec3
    requires HeaderSize + DeltaRecordSize * |trace| <= |data|
    decreases |trace| - i
  {
    if i >= |trace| then Zero
    else
      var lIdx := HeaderSize + DeltaRecordSize * i;
      var rest := Contribution(trace, data, i + 1, m, v);
      if Names(trace[i], m, v) then Add(DeltaVec(data[lIdx], data[lIdx + 1], data[lIdx + 2]), rest)
      else rest
  }

  /** A vertex that no trace entry names receives no correction. */
  lemma {:induction false} ContributionUnnamed(trace: seq<int>, data: seq<byte>, i: nat, m: int, v: int)
    requires HeaderSize + DeltaRecordSize * |trace| <= |data|
    requires forall k :: i <= k < |trace| ==> !Names(trace[k], m, v)
    ensures Contribution(trace, data, i, m, v) == Zero
    decreases |trace| - i
  {
    if i < |trace| {
      ContributionUnnamed(trace, data, i + 1, m, v);
    }
  }

  /** A completed delta walk adds to every vertex exactly the corrections of
      the trace entries that name it, and to no other vertex anything. */
  lemma {:induction false} DeltaStepsAdd(store: Store, trace: seq<int>, data: seq<byte>, i: nat)
    requires TraceFits(Sizes(store), trace)
    requires HeaderSize + DeltaRecordSize * |trace| <= |data|
    ensures forall m, v :: InBounds(Sizes(store), m, v) ==>
              DeltaSteps(store, trace, data, i).state[m][v] == Add(store[m][v], Contribution(trace, data, i, m, v))
    decreases |trace| - i
  {
    if i >= |trace| {
      forall m, v | InBounds(Sizes(store), m, v)
        ensures store[m][v] == Add(store[m][v], Contribution(trace, data, i, m, v))
      {
      }
    } else {
      var lIdx := HeaderSize + DeltaRecordSize * i;
      var m0, v0 := TraceMesh(trace[i]), TraceVertex(trace[i]);
      var p := Add(store[m0][v0], DeltaVec(data[lIdx], data[lIdx + 1], data[lIdx + 2]));
      var moved := store[m0 := store[m0][v0 := p]];
      SizesUpdate(store, m0, v0, p);
      DeltaStepsAdd(moved, trace, data, i + 1);
      forall m, v | InBounds(Sizes(store), m, v)
        ensures DeltaSteps(store, trace, data, i).state[m][v] == Add(store[m][v], Contribution(trace, data, i, m, v))
      {
        assert InBounds(Sizes(moved), m, v);
      }
    }
  }

  /** Applying a delta frame: the walk completes iff the buffer holds 3 bytes
      per trace entry, and then every vertex gains exactly the corrections of
      the entries naming it (a vertex no entry names is unchanged). */
  lemma DeltaFrameAdds(d: Decoder, data: seq<byte>, q: Quant)
    requires TraceFits(Sizes(d.store), d.trace)
    requires HeaderSize <= |data| && data[0] == DeltaType && !d.error
    ensures var r := DecodeFrame(d, data, q, true);
            && (r.completed <==> HeaderSize + DeltaRecordSize * |d.trace| <= |data|)
            && r.state.trace == d.trace && !r.state.error
            && (r.completed ==>
                  forall m, v :: InBounds(Sizes(d.store), m, v) ==>
                    r.state.store[m][v] == Add(d.store[m][v], Contribution(d.trace, data, 0, m, v)))
  {
    DeltaFrameWalk(d, data, q);
    DeltaStepsCompletes(d.store, d.trace, data, 0);
    if HeaderSize + DeltaRecordSize * |d.trace| <= |data| {
      DeltaStepsAdd(d.store, d.trace, data, 0);
    }
  }

  /** A whole delta frame with the flag clear is its walk over the trace. */
  lemma DeltaFrameWalk(d: Decoder, data: seq<byte>, q: Quant)
    requires TraceFits(Sizes(d.store), d.trace)
    requires HeaderSize <= |data| && data[0] == DeltaType && !d.error
    ensures var r := DecodeFrame(d, data, q, true);
            var s := DeltaSteps(d.store, d.trace, data, 0);
            && r.completed == s.completed && r.state.store == s.state
            && r.state.trace == d.trace && r.state.error == d.error
  {
  }

  /** While the error flag is set a delta frame is skipped entirely. */
  lemma DeltaSkippedWhenFlagged(d: Decoder, data: seq<byte>, q: Quant)
    requires TraceFits(Sizes(d.store), d.trace)
    requires HeaderSize <= |data| && data[0] == DeltaType && d.error
    ensures var r := DecodeFrame(d, data, q, true);
            r.completed && r.state.store == d.store && r.state.trace == d.trace && r.state.error
  {
  }

  /** The same delta frame applied twice in a row moves every vertex by
      exactly twice the offset of one application. */
  lemma DeltaFrameTwice(d: Decoder, data: seq<byte>, q: Quant)
    requires TraceFits(Sizes(d.store), d.trace)
    requires HeaderSize + DeltaRecordSize * |d.trace| <= |data| && data[0] == DeltaType && !d.error
    ensures var r1 := DecodeFrame(d, data, q, true);
            var r2 := DecodeFrame(r1.state, data, q, true);
            && r2.completed
            && forall m, v :: InBounds(Sizes(d.store), m, v) ==>
                 r2.state.store[m][v] == Add(d.store[m][v], Scale(Contribution(d.trace, data, 0, m, v), 2.0))
  {
    var r1 := DeltaFrameOnce(d, data, q);
    var r2 := DeltaFrameOnce(r1, data, q);
    forall m, v | InBounds(Sizes(d.store), m, v)
      ensures r2.store[m][v] == Add(d.store[m][v], Scale(Contribution(d.trace, data, 0, m, v), 2.0))
    {
      var once := Contribution(d.trace, data, 0, m, v);
      assert InBounds(Sizes(r1.store), m, v);
      assert r2.store[m][v] == Add(Add(d.store[m][v], once), once);
      AddTwice(d.store[m][v], once);
    }
  }

  lemma AddTwice(p: Vec3, c: Vec3)
    ensures Add(Add(p, c), c) == Add(p, Scale(c, 2.0))
  {
  }

  /** One completed delta decode, as a value (a helper of DeltaFrameTwice). */
  lemma DeltaFrameOnce(d: Decoder, data: seq<byte>, q: Quant) returns (r: Decoder)
    requires TraceFits(Sizes(d.store), d.trace)
    requires HeaderSize + DeltaRecordSize * |d.trace| <= |data| && data[0] == DeltaType && !d.error
    ensures DecodeFrame(d, data, q, true) == Walk(r, true)
    ensures r.trace == d.trace && !r.error && Sizes(r.store) == Sizes(d.store)
    ensures forall m, v :: InBounds(Sizes(d.store), m, v) ==>
              r.store[m][v] == Add(d.store[m][v], Contribution(d.trace, data, 0, m, v))
  {
    var s1 := DeltaSteps(d.store, d.trace, data, 0);
    DeltaStepsCompletes(d.store, d.trace, data, 0);
    DeltaStepsAdd(d.store, d.trace, data, 0);
    r := DecodeFrame(d, data, q, true).state;
    assert r.store == s1.state;
  }

  // ---------------------------------------------------------------------
  // Concrete frames
  // ---------------------------------------------------------------------

  /** A keyframe of one package with origin bytes (10, 10, 10) and one
      record for vertex 0 of mesh 0 with a zero offset. */
  const OneVertexKeyframe: seq<byte> :=
    [0x0F, 0, 0, 0, 0, 1, 0, 0, 0, 0, 0, 0, 0, 0, 0, 0, 0, 0, 0, 0, 0,
     10, 10, 10, 1, 0, 0,
     0, 0, 0, 0, 0]

  /** Decoding that keyframe puts vertex 0 of mesh 0 exactly on the package
      origin `(10 - hk) * qk` per axis and leaves the trace `[(0 << 16) + 0]`. */
  lemma OneVertexKeyframeDecodes(d: Decoder, q: Quant)
    requires TraceFits(Sizes(d.store), d.trace)
    requires |d.store| >= 1 && |d.store[0]| >= 1
    ensures var r := DecodeFrame(d, OneVertexKeyframe, q, true);
            && r.completed
            && r.state.trace == [Pack(0, 0)]
            && !r.state.error
            && r.state.store[0][0] == Vec3(OriginCoord(10, q), OriginCoord(10, q), OriginCoord(10, q))
  {
    var data := OneVertexKeyframe;
    assert |data| == 32 && data[0] == KeyframeType && PackageCount(data) == 1;
    var h := DecodeHeader(d, data);
    var s := KeyState(h.state.store, [], h.state.error);
    var k := OneVertexPackage(s, q);
    assert DecodeFrame(d, data, q, true).state.store == k.store;
  }

  lemma OneVertexPackage(s: KeyState, q: Quant) returns (k: KeyState)
    requires s.trace == [] && |s.store| >= 1 && |s.store[0]| >= 1
    ensures Packages(s, OneVertexKeyframe, q, 1, HeaderSize, 0) == Walk(k, true)
    ensures k.trace == [Pack(0, 0)] && !k.error
    ensures k.store[0][0] == Vec3(OriginCoord(10, q), OriginCoord(10, q), OriginCoord(10, q))
  {
    var data := OneVertexKeyframe;
    assert |data| == 32;
    assert Le24(data[24], data[25], data[26]) == 1;
    var p := KeyVertex(data, q, 21, 0);
    assert p == Vec3(OriginCoord(10, q), OriginCoord(10, q), OriginCoord(10, q)) by {
      assert data[21] == 10 && data[22] == 10 && data[23] == 10;
      assert FieldX(0) == 0 && FieldY(0) == 0 && FieldZ(0) == 0;
      KeyCoordExact(10, 0, q);
    }
    k := KeyState(s.store[0 := s.store[0][0 := p]], [Pack(0, 0)], false);
    assert RecordStep(s, data, q, 21, 27) == Walk(k, true) by {
      assert Le16(data[27], data[28]) == 0 && data[29] == 0 && Le16(data[30], data[31]) == 0;
      assert InBounds(Sizes(s.store), 0, 0);
      assert !(|data| < 27 + 3) && !(|data| < 27 + 5);
      assert s.trace + [Pack(0, 0)] == [Pack(0, 0)];
    }
    assert Records(s, data, q, 21, 1, 0) == Walk(k, true);
    assert Packages(k, data, q, 1, 32, 1) == Walk(k, true);
  }

  /** A keyframe of one package with two records: first one naming mesh 1
      (rejected when the store has a single mesh), then vertex 0 of mesh 0. */
  const RejectThenAcceptKeyframe: seq<byte> :=
    [0x0F, 0, 0, 0, 0, 1, 0, 0, 0, 0, 0, 0, 0, 0, 0, 0, 0, 0, 0, 0, 0,
     10, 10, 10, 2, 0, 0,
     0, 0, 1, 0, 0,
     0, 0, 0, 0, 0]

  /** The error flag reflects only the last record: a rejected record
      followed by an accepted one leaves the flag clear, so the next delta
      frame is applied although the keyframe skipped a record. */
  lemma AcceptedRecordClearsFlag(d: Decoder, q: Quant)
    requires TraceFits(Sizes(d.store), d.trace)
    requires |d.store| == 1 && |d.store[0]| >= 1
    ensures var r := DecodeFrame(d, RejectThenAcceptKeyframe, q, true);
            r.completed && !r.state.error && r.state.trace == [Pack(0, 0)]
  {
    var data := RejectThenAcceptKeyframe;
    assert |data| == 37 && data[0] == KeyframeType && PackageCount(data) == 1;
    assert Le24(data[24], data[25], data[26]) == 2;
    assert Le16(data[27], data[28]) == 0 && data[29] == 1;
    assert Le16(data[32], data[33]) == 0 && data[34] == 0 && Le16(data[35], data[36]) == 0;
    var h := DecodeHeader(d, data);
    var s := KeyState(h.state.store, [], h.state.error);
    var r1 := RecordStep(s, data, q, 21, 27);
    assert r1 == Walk(s.(error := true), true);
    var r2 := RecordStep(r1.state, data, q, 21, 32);
    assert Records(s, data, q, 21, 2, 0) == Records(r1.state, data, q, 21, 2, 1);
    assert Records(r1.state, data, q, 21, 2, 1) == Records(r2.state, data, q, 21, 2, 2);
  }
}
