// Stream segments and the stream manifest, as values.
//
// A segment is one decompressed blob holding several consecutive frames;
// the manifest lists each segment's number and the byte size of every frame
// in it.  The receiver registers each segment number once (keeping the size
// lists in step with the numbers) and, when a segment arrives, cuts its
// blob into frames by those sizes.  The class in receiver.dfy does both
// step by step and is proved equal to the functions here.  The `Option`
// type defined here also serves the receiver for its optional results.

module Segments {
  import opened Quantization

  /** A value that may be absent: a segment number that did not parse, a
      request not made, a mesh not renormalized. */
  datatype Option<T> = None | Some(value: T)

  /** One entry of the playback buffer: its playback time in seconds and the
      bytes of the frame. */
  datatype Frame = Frame(time: real, bytes: seq<byte>)

  // ---------------------------------------------------------------------
  // Slicing a segment
  // ---------------------------------------------------------------------

  /** The sum of a list of sizes. */
  function Sum(s: seq<int>): (r: int)
    ensures NonNegative(s) ==> 0 <= r
  {
    if |s| == 0 then 0 else Sum(s[..|s| - 1]) + s[|s| - 1]
  }

  predicate NonNegative(s: seq<int>) {
    forall k :: 0 <= k < |s| ==> 0 <= s[k]
  }

  /** Every cut of the blob by `sizes` succeeds: no size is negative and
      together they take no more than the blob holds. */
  predicate Fits(blob: seq<byte>, sizes: seq<int>) {
    NonNegative(sizes) && Sum(sizes) <= |blob|
  }

  lemma SumStep(sizes: seq<int>, k: int)
    requires 0 <= k < |sizes|
    ensures Sum(sizes[..k + 1]) == Sum(sizes[..k]) + sizes[k]
  {
    assert sizes[..k + 1][..k] == sizes[..k];
  }

  /** With non-negative sizes every prefix sum lies between 0 and the total. */
  lemma {:induction false} SumPrefixBounds(sizes: seq<int>, k: int)
    requires NonNegative(sizes) && 0 <= k <= |sizes|
    ensures 0 <= Sum(sizes[..k]) <= Sum(sizes)
    decreases |sizes| - k
  {
    if k == |sizes| {
      assert sizes[..k] == sizes;
    } else {
      SumPrefixBounds(sizes, k + 1);
      SumStep(sizes, k);
    }
  }

  /** `index * 10 + cnt * 0.1`: the playback time of frame `cnt` of segment
      `index` (ten seconds per segment, a tenth of a second per frame). */
  function SegmentTime(index: int, cnt: int): (r: real)
    ensures 0 <= cnt < 100 ==> (index * 10) as real <= r < (index * 10 + 10) as real
  {
    (index * 10) as real + cnt as real * 0.1
  }

  /** The bytes of frame `k`: the `sizes[k]` bytes following the frames
      before it. */
  function Piece(blob: seq<byte>, sizes: seq<int>, k: int): (r: seq<byte>)
    requires Fits(blob, sizes) && 0 <= k < |sizes|
    ensures |r| == sizes[k]
  {
    SumPrefixBounds(sizes, k);
    SumPrefixBounds(sizes, k + 1);
    SumStep(sizes, k);
    blob[Sum(sizes[..k])..Sum(sizes[..k + 1])]
  }

  /** The frames of segment `index`: one per size, in order. */
  function SegmentFrames(index: int, sizes: seq<int>, blob: seq<byte>): (r: seq<Frame>)
    requires Fits(blob, sizes)
    ensures |r| == |sizes|
    decreases |sizes|
  {
    if |sizes| == 0 then []
    else
      var n := |sizes| - 1;
      FitsPrefix(blob, sizes, n);
      SegmentFrames(index, sizes[..n], blob) + [Frame(SegmentTime(index, n), Piece(blob, sizes, n))]
  }

  /** All bytes of a run of frames, in order. */
  function Flatten(frames: seq<Frame>): seq<byte> {
    if |frames| == 0 then [] else Flatten(frames[..|frames| - 1]) + frames[|frames| - 1].bytes
  }

  lemma FitsPrefix(blob: seq<byte>, sizes: seq<int>, k: int)
    requires Fits(blob, sizes) && 0 <= k <= |sizes|
    ensures Fits(blob, sizes[..k])
  {
    SumPrefixBounds(sizes, k);
  }

  /** Frame `k` starts where the frames before it end and holds `sizes[k]`
      bytes. */
  lemma PieceAt(blob: seq<byte>, sizes: seq<int>, k: int)
    requires Fits(blob, sizes) && 0 <= k < |sizes|
    ensures 0 <= Sum(sizes[..k]) && Sum(sizes[..k]) + sizes[k] <= |blob|
    ensures Piece(blob, sizes, k) == blob[Sum(sizes[..k])..Sum(sizes[..k]) + sizes[k]]
  {
    SumStep(sizes, k);
    SumPrefixBounds(sizes, k);
    SumPrefixBounds(sizes, k + 1);
  }

  /** Frame `k` of a segment is stamped `SegmentTime(index, k)` and holds the
      `k`-th piece of the blob. */
  lemma {:induction false} FrameAt(index: int, sizes: seq<int>, blob: seq<byte>, k: int)
    requires Fits(blob, sizes) && 0 <= k < |sizes|
    ensures SegmentFrames(index, sizes, blob)[k] == Frame(SegmentTime(index, k), Piece(blob, sizes, k))
    decreases |sizes|
  {
    var n := |sizes| - 1;
    if k < n {
      FitsPrefix(blob, sizes, n);
      FrameAt(index, sizes[..n], blob, k);
      PiecePrefix(blob, sizes, n, k);
    }
  }

  /** Cutting off later sizes does not move an earlier piece. */
  lemma PiecePrefix(blob: seq<byte>, sizes: seq<int>, n: int, k: int)
    requires Fits(blob, sizes) && 0 <= k < n <= |sizes|
    ensures Fits(blob, sizes[..n])
    ensures Piece(blob, sizes[..n], k) == Piece(blob, sizes, k)
  {
    FitsPrefix(blob, sizes, n);
    var front := sizes[..n];
    assert front[..k] == sizes[..k] && front[..k + 1] == sizes[..k + 1];
  }

  /** The frames tile the blob: read back in order they are exactly its first
      `Sum(sizes)` bytes, with no overlap and no gap. */
  lemma {:induction false} SlicesTile(index: int, sizes: seq<int>, blob: seq<byte>)
    requires Fits(blob, sizes)
    ensures Flatten(SegmentFrames(index, sizes, blob)) == blob[..Sum(sizes)]
    decreases |sizes|
  {
    if |sizes| > 0 {
      var n := |sizes| - 1;
      var front := sizes[..n];
      FitsPrefix(blob, sizes, n);
      SlicesTile(index, front, blob);
      var r := SegmentFrames(index, sizes, blob);
      assert r[..n] == SegmentFrames(index, front, blob);
      PieceAt(blob, sizes, n);
      assert sizes[..n + 1] == sizes;
      SumStep(sizes, n);
      assert blob[..Sum(front)] + blob[Sum(front)..Sum(sizes)] == blob[..Sum(sizes)];
    }
  }

  /** When the sizes fit, no cut overruns the rest of the blob or takes a
      negative count. */
  lemma SliceInRange(sizes: seq<int>, blob: seq<byte>, cnt: int)
    requires 0 <= cnt < |sizes| && Fits(blob, sizes)
    ensures 0 <= sizes[cnt] <= |blob| - Sum(sizes[..cnt])
  {
    SumStep(sizes, cnt);
    SumPrefixBounds(sizes, cnt + 1);
  }

  /** A cut that stays inside the blob extends the frames by the next
      `sizes[cnt]` bytes. */
  lemma SliceNext(index: int, sizes: seq<int>, blob: seq<byte>, cnt: int)
    requires 0 <= cnt < |sizes| && Fits(blob, sizes[..cnt])
    requires 0 <= sizes[cnt] <= |blob| - Sum(sizes[..cnt])
    ensures Fits(blob, sizes[..cnt + 1])
    ensures var start := Sum(sizes[..cnt]);
            SegmentFrames(index, sizes[..cnt + 1], blob) ==
              SegmentFrames(index, sizes[..cnt], blob) +
              [Frame(SegmentTime(index, cnt), blob[start..start + sizes[cnt]])]
  {
    var next := sizes[..cnt + 1];
    FitsNext(sizes, blob, cnt);
    assert next[..cnt] == sizes[..cnt];
    PieceAt(blob, next, cnt);
  }

  /** Taking one more size that stays inside the blob keeps the cut fitting. */
  lemma FitsNext(sizes: seq<int>, blob: seq<byte>, cnt: int)
    requires 0 <= cnt < |sizes| && Fits(blob, sizes[..cnt])
    requires 0 <= sizes[cnt] <= |blob| - Sum(sizes[..cnt])
    ensures Fits(blob, sizes[..cnt + 1])
  {
    SumStep(sizes, cnt);
    var next := sizes[..cnt + 1];
    forall k | 0 <= k < |next| ensures 0 <= next[k] {
      if k < cnt {
        assert next[k] == sizes[..cnt][k];
      }
    }
  }

  // ---------------------------------------------------------------------
  // Registering the manifest
  // ---------------------------------------------------------------------

  /** One line of the manifest once parsed: the segment's URL, its number if
      the file name is a number, and the byte sizes of its frames. */
  datatype ManifestEntry = ManifestEntry(url: string, index: Option<int>, size: seq<int>)

  /** The registered segment numbers, their size lists, and the segment URLs
      requested so far. */
  datatype Registry = Registry(list: seq<int>, sizes: seq<seq<int>>, requests: seq<string>)

  predicate NoDuplicates(s: seq<int>) {
    forall i, j :: 0 <= i < j < |s| ==> s[i] != s[j]
  }

  /** One manifest line: a segment number not yet registered is added with
      its size list and its URL is requested; anything else is ignored. */
  function RegisterEntry(r: Registry, e: ManifestEntry): (r': Registry)
    ensures e.index.Some? ==> e.index.value in r'.list
    ensures e.index.None? || e.index.value in r.list ==> r' == r
  {
    if e.index.Some? && e.index.value !in r.list then
      Registry(r.list + [e.index.value], r.sizes + [e.size], r.requests + [e.url])
    else r
  }

  /** The lines of a manifest, in order. */
  function Register(r: Registry, entries: seq<ManifestEntry>): Registry {
    if |entries| == 0 then r
    else RegisterEntry(Register(r, entries[..|entries| - 1]), entries[|entries| - 1])
  }

  /** The segment number of an entry, if it has one. */
  predicate Lists(e: ManifestEntry, index: int) {
    e.index == Some(index)
  }

  /** Registering keeps the numbers free of duplicates and in step with the
      size lists, only appends (to numbers, sizes and requests alike, one
      request per new number), and leaves every numbered entry registered. */
  lemma {:induction false} RegisterKeepsUnique(r: Registry, entries: seq<ManifestEntry>)
    requires NoDuplicates(r.list) && |r.list| == |r.sizes|
    ensures var r' := Register(r, entries);
            && NoDuplicates(r'.list) && |r'.list| == |r'.sizes|
            && |r.list| <= |r'.list| && |r.requests| <= |r'.requests|
            && r'.list[..|r.list|] == r.list && r'.sizes[..|r.sizes|] == r.sizes
            && r'.requests[..|r.requests|] == r.requests
            && |r'.requests| - |r.requests| == |r'.list| - |r.list|
            && (forall k :: 0 <= k < |entries| && entries[k].index.Some? ==> entries[k].index.value in r'.list)
    decreases |entries|
  {
    if |entries| > 0 {
      var front := entries[..|entries| - 1];
      RegisterKeepsUnique(r, front);
      var m := Register(r, front);
      var e := entries[|entries| - 1];
      if e.index.Some? && e.index.value !in m.list {
        assert (m.list + [e.index.value])[..|m.list|] == m.list;
        assert (m.list + [e.index.value])[..|r.list|] == m.list[..|r.list|];
        assert (m.sizes + [e.size])[..|r.sizes|] == m.sizes[..|r.sizes|];
        assert (m.requests + [e.url])[..|r.requests|] == m.requests[..|r.requests|];
      }
      forall k | 0 <= k < |entries| && entries[k].index.Some?
        ensures entries[k].index.value in Register(r, entries).list
      {
        if k < |entries| - 1 {
          assert entries[k] == front[k];
        }
      }
    }
  }

  /** Every newly registered number, with its size list and its request,
      comes from one manifest line that lists it. */
  lemma {:induction false} RegisterFromEntries(r: Registry, entries: seq<ManifestEntry>, p: int)
    requires |r.list| == |r.sizes| == |r.requests|
    requires |r.list| <= p < |Register(r, entries).list|
    ensures var r' := Register(r, entries);
            |r'.list| == |r'.sizes| == |r'.requests| &&
            exists k :: 0 <= k < |entries| && Lists(entries[k], r'.list[p]) &&
                        r'.sizes[p] == entries[k].size && r'.requests[p] == entries[k].url
    decreases |entries|
  {
    LockStep(r, entries);
    var front := entries[..|entries| - 1];
    var m := Register(r, front);
    LockStep(r, front);
    var r' := Register(r, entries);
    if p < |m.list| {
      RegisterFromEntries(r, front, p);
      var k :| 0 <= k < |front| && Lists(front[k], m.list[p]) &&
               m.sizes[p] == front[k].size && m.requests[p] == front[k].url;
      assert entries[k] == front[k];
      assert r'.list[p] == m.list[p] && r'.sizes[p] == m.sizes[p] && r'.requests[p] == m.requests[p];
    } else {
      assert Lists(entries[|entries| - 1], r'.list[p]);
    }
  }

  lemma {:induction false} LockStep(r: Registry, entries: seq<ManifestEntry>)
    requires |r.list| == |r.sizes| == |r.requests|
    ensures var r' := Register(r, entries);
            |r'.list| == |r'.sizes| == |r'.requests| && |r.list| <= |r'.list|
    decreases |entries|
  {
    if |entries| > 0 {
      LockStep(r, entries[..|entries| - 1]);
    }
  }

  /** A manifest whose numbered lines are all registered already changes
      nothing and requests nothing. */
  lemma {:induction false} RegisterKnown(r: Registry, entries: seq<ManifestEntry>)
    requires forall k :: 0 <= k < |entries| && entries[k].index.Some? ==> entries[k].index.value in r.list
    ensures Register(r, entries) == r
    decreases |entries|
  {
    if |entries| > 0 {
      var front := entries[..|entries| - 1];
      forall k | 0 <= k < |front| && front[k].index.Some?
        ensures front[k].index.value in r.list
      {
        assert front[k] == entries[k];
      }
      RegisterKnown(r, front);
    }
  }

  /** Receiving the same manifest again (it is re-fetched periodically)
      registers nothing new and requests no segment twice. */
  lemma RegisterIdempotent(r: Registry, entries: seq<ManifestEntry>)
    requires NoDuplicates(r.list) && |r.list| == |r.sizes|
    ensures Register(Register(r, entries), entries) == Register(r, entries)
  {
    RegisterKeepsUnique(r, entries);
    RegisterKnown(Register(r, entries), entries);
  }
}
