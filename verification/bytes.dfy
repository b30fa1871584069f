/** Byte values and the integer views the three receivers take of them:
    `struct.unpack("b", ...)`, `int.from_bytes(..., signed=True)` and
    Python's negative list subscripts. */
module Bytes {

  /** One octet of a service-data payload (an element of a Python `bytes`). */
  type byte = x: int | 0 <= x < 256

  /** `struct.unpack("b", ...)`: the two's-complement reading of one byte. */
  function Signed(b: byte): (v: int)
    ensures -128 <= v < 128
    ensures v % 256 == b
  {
    if b < 128 then b else b - 256
  }

  /** A Python list of length `n` accepts the subscript `i` exactly when
      `-n <= i < n`; any other subscript raises IndexError. */
  predicate InRange(i: int, n: nat) {
    -(n as int) <= i < n
  }

  /** The slot a legal subscript names: `i` itself, or `n + i` when `i` is
      negative. */
  function PyIndex(i: int, n: nat): (k: nat)
    requires InRange(i, n)
    ensures k < n
    ensures k == i || k == i + n
  {
    if i < 0 then i + n else i
  }

  /** A signed byte used as a subscript of a 256-entry list names the slot
      of the byte's unsigned value, so every signed byte is a legal
      subscript there. */
  lemma SignedSubscriptIsUnsigned(b: byte)
    ensures InRange(Signed(b), 256)
    ensures PyIndex(Signed(b), 256) == b
  {
  }

  function Pow256(k: nat): (r: nat)
    ensures r > 0
  {
    if k == 0 then 1 else 256 * Pow256(k - 1)
  }

  /** The unsigned big-endian value of a byte string. */
  function BigEndian(bs: seq<byte>): (r: nat)
    ensures r < Pow256(|bs|)
  {
    if |bs| == 0 then 0 else BigEndian(bs[..|bs| - 1]) * 256 + bs[|bs| - 1]
  }

  /** Splitting off the leading byte: it carries weight 256^(|bs|-1). */
  lemma {:induction false} BigEndianLeading(bs: seq<byte>)
    requires |bs| > 0
    ensures BigEndian(bs) == bs[0] * Pow256(|bs| - 1) + BigEndian(bs[1..])
    decreases |bs|
  {
    if |bs| > 1 {
      var init := bs[..|bs| - 1];
      BigEndianLeading(init);
      assert init[1..] == bs[1..][..|bs| - 2];
      var a, p, t, x := bs[0], Pow256(|bs| - 2), BigEndian(init[1..]), bs[|bs| - 1];
      assert BigEndian(bs[1..]) == t * 256 + x;
      assert BigEndian(init) == a * p + t;
      assert Pow256(|bs| - 1) == 256 * p;
      Distribute(a, p, t, x);
    }
  }

  lemma Distribute(a: int, p: int, t: int, x: int)
    ensures (a * p + t) * 256 + x == a * (256 * p) + (t * 256 + x)
  {
  }

  lemma MulMonotone(a: int, c: int, w: nat)
    requires a <= c
    ensures a * w <= c * w
  {
  }

  /** The sign of a big-endian two's-complement value is its top bit, so
      the value fits the signed range of |bs| bytes. */
  lemma SignedRangeOfTopBit(bs: seq<byte>)
    requires |bs| > 0
    ensures var w := Pow256(|bs| - 1);
      bs[0] >= 128 ==> 128 * w <= BigEndian(bs) < 256 * w
    ensures var w := Pow256(|bs| - 1);
      bs[0] < 128 ==> BigEndian(bs) < 128 * w
  {
    BigEndianLeading(bs);
    var w := Pow256(|bs| - 1);
    assert BigEndian(bs[1..]) < w;
    if bs[0] >= 128 {
      MulMonotone(128, bs[0], w);
      MulMonotone(bs[0], 255, w);
    } else {
      MulMonotone(bs[0], 127, w);
    }
  }

  /** Minus the modulus is a multiple of it. */
  lemma MultipleOfModulus(p: nat)
    requires p > 0
    ensures -(p as int) % p == 0
  {
  }

  /** `int.from_bytes(bs, byteorder='big', signed=True)`: the big-endian
      two's-complement value of `bs`. It lies in the signed range of |bs|
      bytes, is congruent to the unsigned reading modulo 256^|bs|, and, for
      a single byte, is that byte's signed reading. */
  function FromBytesSigned(bs: seq<byte>): (v: int)
    ensures -(Pow256(|bs|) as int) <= 2 * v < Pow256(|bs|)
    ensures (v - BigEndian(bs)) % Pow256(|bs|) == 0
    ensures |bs| == 1 ==> v == Signed(bs[0])
  {
    if |bs| > 0 then
      SignedRangeOfTopBit(bs);
      var p := Pow256(|bs|);
      if bs[0] >= 128 then
        MultipleOfModulus(p);
        BigEndian(bs) - p
      else
        BigEndian(bs)
    else
      0
  }
}
