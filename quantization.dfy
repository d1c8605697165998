// Quantization codec of the streaming-mesh receiver: the pure formulas that
// turn raw frame bytes into numbers (little-endian counts, packed 5-bit
// keyframe offsets, the squared delta correction, the (mesh, vertex) trace
// encoding and the linear blend used by interpolation).
//
// The receiver computes positions in single-precision floats; here they are
// `real`, so every formula below is the exact value the float code
// approximates.  The C# bit operations are written as arithmetic on
// non-negative integers: `x >> k` is `x / 2^k` and `x & (2^k - 1)` is
// `x % 2^k`, which agree for every value that can occur here.

module Quantization {

  /** One byte of a received frame. */
  type byte = x: int | 0 <= x < 256

  /** A vertex position or offset (Unity's Vector3, with exact arithmetic). */
  datatype Vec3 = Vec3(x: real, y: real, z: real)

  const Zero: Vec3 := Vec3(0.0, 0.0, 0.0)

  function Add(a: Vec3, b: Vec3): Vec3 {
    Vec3(a.x + b.x, a.y + b.y, a.z + b.z)
  }

  function Scale(a: Vec3, k: real): Vec3 {
    Vec3(a.x * k, a.y * k, a.z * k)
  }

  // ---------------------------------------------------------------------
  // Little-endian integer fields
  // ---------------------------------------------------------------------

  /** `(hi << 8) + lo`: a 16-bit little-endian field. */
  function Le16(lo: byte, hi: byte): (r: int)
    ensures 0 <= r < 0x1_0000
    ensures r % 256 == lo && r / 256 == hi
  {
    hi * 256 + lo
  }

  /** `(b2 << 16) + (b1 << 8) + b0`: a 24-bit little-endian field
      (the package count and the per-package vertex count). */
  function Le24(b0: byte, b1: byte, b2: byte): (r: int)
    ensures 0 <= r < 0x100_0000
  {
    b2 * 0x1_0000 + b1 * 256 + b0
  }

  /** The three bytes of a 24-bit field are recovered from its value. */
  lemma Le24Bytes(b0: byte, b1: byte, b2: byte)
    ensures Le24(b0, b1, b2) % 256 == b0
    ensures (Le24(b0, b1, b2) / 256) % 256 == b1
    ensures Le24(b0, b1, b2) / 0x1_0000 == b2
  {
    var r := Le24(b0, b1, b2);
    assert r == (b2 * 256 + b1) * 256 + b0;
    assert r / 256 == b2 * 256 + b1;
  }

  /** Every 24-bit value is the field of its own three bytes. */
  lemma Le24Onto(r: int)
    requires 0 <= r < 0x100_0000
    ensures Le24(r % 256, (r / 256) % 256, r / 0x1_0000) == r
  {
    assert r / 0x1_0000 == (r / 256) / 256;
  }

  // ---------------------------------------------------------------------
  // Keyframe quantization
  // ---------------------------------------------------------------------

  /** `compress & 0x1F`: the x offset, bits 0..4. */
  function FieldX(compress: int): (r: int)
    requires 0 <= compress
    ensures 0 <= r < 32
  {
    compress % 32
  }

  /** `(compress >> 5) & 0x1F`: the y offset, bits 5..9. */
  function FieldY(compress: int): (r: int)
    requires 0 <= compress
    ensures 0 <= r < 32
  {
    (compress / 32) % 32
  }

  /** `(compress >> 10) & 0x1F`: the z offset, bits 10..14. */
  function FieldZ(compress: int): (r: int)
    requires 0 <= compress
    ensures 0 <= r < 32
  {
    (compress / 1024) % 32
  }

  /** Each packed offset lies in [0, 31] and bit 15 of the word is ignored. */
  lemma FieldsInRange(compress: int)
    requires 0 <= compress < 0x1_0000
    ensures 0 <= FieldX(compress) < 32 && 0 <= FieldY(compress) < 32 && 0 <= FieldZ(compress) < 32
    ensures compress >= 0x8000 ==>
              FieldX(compress) == FieldX(compress - 0x8000) &&
              FieldY(compress) == FieldY(compress - 0x8000) &&
              FieldZ(compress) == FieldZ(compress - 0x8000)
  {
    if compress >= 0x8000 {
      var c := compress - 0x8000;
      assert compress == c + 32 * 1024;
      assert compress / 32 == c / 32 + 1024;
      assert compress / 1024 == c / 1024 + 32;
    }
  }

  /** The three fields are exactly the low 15 bits of the word. */
  lemma FieldsRecompose(compress: int)
    requires 0 <= compress
    ensures FieldX(compress) + 32 * FieldY(compress) + 1024 * FieldZ(compress) == compress % 0x8000
  {
    var q, h := compress / 32, compress / 1024;
    var x, y, z := compress % 32, q % 32, h % 32;
    assert h == q / 32 by { DivDiv(compress); }
    assert compress == 32 * q + x;
    assert q == 32 * (q / 32) + y;
    assert h == 32 * (h / 32) + z;
    assert compress == 0x8000 * (h / 32) + (1024 * z + 32 * y + x);
    LowBits(compress, h / 32, 1024 * z + 32 * y + x);
  }

  lemma DivDiv(c: int)
    requires 0 <= c
    ensures c / 1024 == (c / 32) / 32
  {
  }

  /** The low 15 bits are the one value in range that completes the
      quotient. */
  lemma LowBits(a: int, k: int, r: int)
    requires a == 0x8000 * k + r && 0 <= r < 0x8000
    ensures a % 0x8000 == r
  {
  }

  /** The session's quantization constants: `hk = packageSize / 2` (the
      half grid size, integer division) and `qk = areaRange / hk` (the size
      of one grid cell). */
  datatype Quant = Quant(hk: int, qk: real)

  function QuantOf(areaRange: int, packageSize: int): (q: Quant)
    requires packageSize >= 2
    ensures q.hk >= 1 && 2 * q.hk <= packageSize < 2 * q.hk + 2
    ensures q.qk * (q.hk as real) == areaRange as real
  {
    var hk := packageSize / 2;
    Quant(hk, areaRange as real / hk as real)
  }

  /** `(b - hk) * qk`: one axis of a package's grid-cell origin. */
  function OriginCoord(b: byte, q: Quant): (r: real)
    ensures b == q.hk ==> r == 0.0
    ensures q.qk > 0.0 ==> (r < 0.0 <==> b < q.hk)
  {
    (b - q.hk) as real * q.qk
  }

  /** `origin + field * sqk` with `sqk = qk / 32`: one axis of a keyframe
      vertex, the package origin plus a 5-bit sub-cell offset. */
  function KeyCoord(b: byte, field: int, q: Quant): real {
    OriginCoord(b, q) + field as real * (q.qk / 32.0)
  }

  /** A keyframe coordinate is the rational `qk * ((b - hk) * 32 + field) / 32`;
      an all-zero offset gives exactly the package origin. */
  lemma KeyCoordExact(b: byte, field: int, q: Quant)
    ensures KeyCoord(b, field, q) == q.qk * (((b - q.hk) * 32 + field) as real) / 32.0
    ensures field == 0 ==> KeyCoord(b, field, q) == OriginCoord(b, q)
  {
    var d := (b - q.hk) as real;
    calc {
      KeyCoord(b, field, q);
      d * q.qk + field as real * (q.qk / 32.0);
      q.qk * (d * 32.0 + field as real) / 32.0;
      { assert ((b - q.hk) * 32 + field) as real == d * 32.0 + field as real; }
      q.qk * (((b - q.hk) * 32 + field) as real) / 32.0;
    }
  }

  /** A 5-bit offset stays inside its grid cell: between the cell origin and
      31/32 of a cell beyond it (for a non-negative cell size). */
  lemma KeyCoordInCell(b: byte, field: int, q: Quant)
    requires 0 <= field < 32 && q.qk >= 0.0
    ensures OriginCoord(b, q) <= KeyCoord(b, field, q) <= OriginCoord(b, q) + q.qk * 31.0 / 32.0
  {
    var f := field as real;
    assert f * (q.qk / 32.0) == q.qk * f / 32.0;
    MulNonNeg(q.qk, f);
    MulNonNeg(q.qk, 31.0 - f);
  }

  // ---------------------------------------------------------------------
  // Delta quantization
  // ---------------------------------------------------------------------

  /** Unity's Mathf.Sign: 1 for zero and positive values, -1 otherwise. */
  function Sign(r: real): real {
    if r >= 0.0 then 1.0 else -1.0
  }

  /** `Sign(dx) * dx * dx` with `dx = (b - 128) * (1 / 128)`: the signed,
      squared correction one delta byte adds to one axis. */
  function DeltaOffset(b: byte): real {
    var dx := (b - 128) as real * (1.0 / 128.0);
    Sign(dx) * (dx * dx)
  }

  /** `sign(d) * d^2` on integers. */
  function SignedSquare(d: int): int {
    if d < 0 then -(d * d) else d * d
  }

  /** The delta correction is `sign(d) * d^2 / 16384` with `d = b - 128`
      (the sign of 0 being irrelevant). */
  lemma DeltaOffsetExact(b: byte)
    ensures DeltaOffset(b) == SignedSquare(b - 128) as real / 16384.0
  {
    if b < 128 {
      DeltaOffsetBelow(b);
    } else {
      DeltaOffsetAbove(b);
    }
  }

  lemma DeltaOffsetBelow(b: byte)
    requires b < 128
    ensures DeltaOffset(b) == -(((b - 128) * (b - 128)) as real / 16384.0)
  {
    var dx := (b - 128) as real * (1.0 / 128.0);
    SquareOfStep(b - 128);
    assert Sign(dx) == -1.0;
  }

  lemma DeltaOffsetAbove(b: byte)
    requires 128 <= b
    ensures DeltaOffset(b) == ((b - 128) * (b - 128)) as real / 16384.0
  {
    var dx := (b - 128) as real * (1.0 / 128.0);
    SquareOfStep(b - 128);
    assert Sign(dx) == 1.0;
  }

  /** The square of one delta step `d / 128` is `d^2 / 16384`. */
  lemma SquareOfStep(d: int)
    ensures (d as real * (1.0 / 128.0)) * (d as real * (1.0 / 128.0)) == (d * d) as real / 16384.0
  {
    var x := d as real;
    assert x * (1.0 / 128.0) == x / 128.0;
    ScaledSquare(x);
    SquareCast(d);
  }

  lemma ScaledSquare(x: real)
    ensures (x / 128.0) * (x / 128.0) == (x * x) / 16384.0
  {
  }

  lemma SquareCast(d: int)
    ensures (d * d) as real == d as real * d as real
  {
  }

  /** `SignedSquare` is monotone. */
  lemma SignedSquareMonotone(a: int, b: int)
    requires a <= b
    ensures SignedSquare(a) <= SignedSquare(b)
  {
    if 0 <= a {
      SquareMono(a, b);
    } else if b < 0 {
      SquareMono(-b, -a);
      assert (-a) * (-a) == a * a && (-b) * (-b) == b * b;
    } else {
      MulMono(-a, 0, -a);
      MulMono(b, 0, b);
    }
  }

  lemma SquareMono(a: int, b: int)
    requires 0 <= a <= b
    ensures a * a <= b * b
  {
    MulMono(a, a, b);
    MulMono(b, a, b);
  }

  lemma MulMono(k: int, a: int, b: int)
    requires 0 <= k && a <= b
    ensures k * a <= k * b
  {
    assert k * b - k * a == k * (b - a);
  }

  /** The boundary bytes: 128 adds nothing, 0 subtracts one, 255 adds
      127^2/16384; every byte lies between the two extremes. */
  lemma DeltaOffsetBoundaries(b: byte)
    ensures DeltaOffset(128) == 0.0
    ensures DeltaOffset(0) == -1.0
    ensures DeltaOffset(255) == 16129.0 / 16384.0
    ensures -1.0 <= DeltaOffset(b) <= 16129.0 / 16384.0
  {
    DeltaOffsetExact(0);
    DeltaOffsetExact(128);
    DeltaOffsetExact(255);
    DeltaOffsetMonotone(0, b);
    DeltaOffsetMonotone(b, 255);
  }

  /** Bytes below 128 move a vertex down the axis, byte 128 leaves it, and
      bytes above 128 move it up. */
  lemma DeltaOffsetSign(b: byte)
    ensures DeltaOffset(b) < 0.0 <==> b < 128
    ensures DeltaOffset(b) == 0.0 <==> b == 128
  {
    DeltaOffsetExact(b);
    var d := b - 128;
    if d != 0 {
      assert d * d > 0 by {
        if d < 0 {
          MulMono(-d, 1, -d);
        } else {
          MulMono(d, 1, d);
        }
      }
    }
  }

  /** The correction is monotone in the byte. */
  lemma DeltaOffsetMonotone(a: byte, b: byte)
    requires a <= b
    ensures DeltaOffset(a) <= DeltaOffset(b)
  {
    DeltaOffsetExact(a);
    DeltaOffsetExact(b);
    SignedSquareMonotone(a - 128, b - 128);
  }

  /** The correction is odd around 128: bytes `128 + k` and `128 - k` give
      opposite offsets. */
  lemma DeltaOffsetOdd(k: int)
    requires 0 <= k <= 127
    ensures DeltaOffset(128 + k) == -DeltaOffset(128 - k)
  {
    DeltaOffsetExact(128 + k);
    DeltaOffsetExact(128 - k);
    assert (-k) * (-k) == k * k;
    assert SignedSquare(-k) == -SignedSquare(k);
  }

  /** The correction of three delta bytes, one per axis. */
  function DeltaVec(dx: byte, dy: byte, dz: byte): (r: Vec3)
    ensures r == Zero <==> dx == 128 && dy == 128 && dz == 128
  {
    DeltaOffsetSign(dx);
    DeltaOffsetSign(dy);
    DeltaOffsetSign(dz);
    Vec3(DeltaOffset(dx), DeltaOffset(dy), DeltaOffset(dz))
  }

  // ---------------------------------------------------------------------
  // Index trace encoding
  // ---------------------------------------------------------------------

  /** `(mIdx << 16) + vIdx`: one entry of the index trace. */
  function Pack(mIdx: int, vIdx: int): (r: int)
    ensures 0 <= mIdx && 0 <= vIdx < 0x1_0000 ==> r / 0x1_0000 == mIdx && r % 0x1_0000 == vIdx
  {
    mIdx * 0x1_0000 + vIdx
  }

  /** `(idx >> 16) & 0xFF`: the mesh index of a trace entry. */
  function TraceMesh(idx: int): (r: int)
    requires 0 <= idx
    ensures 0 <= r < 256
  {
    (idx / 0x1_0000) % 256
  }

  /** `idx & 0xFFFF`: the vertex index of a trace entry. */
  function TraceVertex(idx: int): (r: int)
    requires 0 <= idx
    ensures 0 <= r < 0x1_0000
  {
    idx % 0x1_0000
  }

  /** A mesh byte and a 16-bit vertex index survive the trace encoding. */
  lemma PackRoundTrip(mIdx: int, vIdx: int)
    requires 0 <= mIdx < 256 && 0 <= vIdx < 0x1_0000
    ensures 0 <= Pack(mIdx, vIdx) < 0x100_0000
    ensures TraceMesh(Pack(mIdx, vIdx)) == mIdx && TraceVertex(Pack(mIdx, vIdx)) == vIdx
  {
  }

  /** Every 24-bit trace entry is the encoding of its own unpacked parts. */
  lemma UnpackRoundTrip(idx: int)
    requires 0 <= idx < 0x100_0000
    ensures Pack(TraceMesh(idx), TraceVertex(idx)) == idx
  {
    assert idx / 0x1_0000 < 256;
  }

  // ---------------------------------------------------------------------
  // Interpolation
  // ---------------------------------------------------------------------

  /** `c + (b - c) * w`: the linear blend from the previous value `c` to the
      current value `b` at weight `w`. */
  function Blend(c: real, b: real, w: real): (r: real)
    ensures w == 0.0 ==> r == c
    ensures w == 1.0 ==> r == b
  {
    c + (b - c) * w
  }

  function BlendVec(c: Vec3, b: Vec3, w: real): Vec3 {
    Vec3(Blend(c.x, b.x, w), Blend(c.y, b.y, w), Blend(c.z, b.z, w))
  }

  /** The blend starts at the previous value, ends at the current one, and is
      exact whenever the two agree. */
  lemma BlendEnds(c: Vec3, b: Vec3, w: real)
    ensures BlendVec(c, b, 0.0) == c
    ensures BlendVec(c, b, 1.0) == b
    ensures c == b ==> BlendVec(c, b, w) == b
  {
  }

  /** Between weights 0 and 1 the blend stays between the two values. */
  lemma BlendBetween(c: real, b: real, w: real)
    requires 0.0 <= w <= 1.0
    ensures c <= b ==> c <= Blend(c, b, w) <= b
    ensures b <= c ==> b <= Blend(c, b, w) <= c
  {
    if c <= b {
      MulNonNeg(b - c, w);
      MulNonNeg(b - c, 1.0 - w);
    } else {
      MulNonNeg(c - b, w);
      MulNonNeg(c - b, 1.0 - w);
    }
  }

  lemma MulNonNeg(a: real, b: real)
    requires 0.0 <= a && 0.0 <= b
    ensures 0.0 <= a * b
  {
  }
}
