/** Byte strings, big-endian numbers and the byte operations of the AVM.

The AVM operations are partial: an out-of-range `extract3`, a `replace3` past the
end or an addition beyond 64 bits stops the program. They return `None` here. */
module Bytes {

  datatype Option<+T> = None | Some(value: T) {
    predicate IsFailure() { None? }
    function PropagateFailure<U>(): Option<U> requires None? { None }
    function Extract(): T requires Some? { value }
  }

  type byte = x: int | 0 <= x < 256
  type bytes = seq<byte>

  const TWO_64: nat := 0x1_0000_0000_0000_0000

  function Zeros(n: nat): (z: bytes)
    ensures |z| == n
    ensures forall i :: 0 <= i < n ==> z[i] == 0
  {
    seq(n, _ => 0)
  }

  /** 2 to the power k. */
  function Pow2(k: nat): (p: nat)
    ensures p > 0
  {
    if k == 0 then 1 else 2 * Pow2(k - 1)
  }

  /** 256 to the power n. */
  function Pow256(n: nat): (p: nat)
    ensures p > 0
  {
    if n == 0 then 1 else 256 * Pow256(n - 1)
  }

  const TWO_256: nat := Pow256(32)

  /** The low `width` bytes of `v`, most significant first. */
  function BigEndian(width: nat, v: nat): (b: bytes)
    ensures |b| == width
  {
    if width == 0 then [] else BigEndian(width - 1, v / 256) + [v % 256]
  }

  /** The number a byte string denotes, most significant byte first. */
  function Number(b: bytes): nat {
    NumberOfFirst(b, |b|)
  }

  /** The number the first k bytes denote. */
  function NumberOfFirst(b: bytes, k: nat): nat
    requires k <= |b|
  {
    if k == 0 then 0 else NumberOfFirst(b, k - 1) * 256 + b[k - 1]
  }

  lemma {:induction false} NumberOfFirstBound(b: bytes, k: nat)
    requires k <= |b|
    ensures NumberOfFirst(b, k) < Pow256(k)
  {
    if k > 0 {
      NumberOfFirstBound(b, k - 1);
    }
  }

  lemma {:induction false} NumberOfFirstAgrees(a: bytes, b: bytes, k: nat)
    requires k <= |a| && k <= |b| && forall i :: 0 <= i < k ==> a[i] == b[i]
    ensures NumberOfFirst(a, k) == NumberOfFirst(b, k)
  {
    if k > 0 {
      NumberOfFirstAgrees(a, b, k - 1);
    }
  }

  lemma NumberBound(b: bytes)
    ensures Number(b) < Pow256(|b|)
  {
    NumberOfFirstBound(b, |b|);
  }

  lemma {:induction false} NumberOfConcat(a: bytes, b: bytes)
    ensures Number(a + b) == Number(a) * Pow256(|b|) + Number(b)
  {
    NumberOfConcatFirst(a, b, |b|);
  }

  lemma {:induction false} NumberOfConcatFirst(a: bytes, b: bytes, k: nat)
    requires k <= |b|
    ensures NumberOfFirst(a + b, |a| + k) == Number(a) * Pow256(k) + NumberOfFirst(b, k)
  {
    if k == 0 {
      NumberOfFirstAgrees(a + b, a, |a|);
    } else {
      NumberOfConcatFirst(a, b, k - 1);
      assert (a + b)[|a| + k - 1] == b[k - 1];
      Reassociate(Number(a), Pow256(k - 1));
    }
  }

  lemma Reassociate(x: nat, p: nat)
    ensures x * (256 * p) == x * p * 256
  {
  }

  lemma {:induction false} NumberOfBigEndian(width: nat, v: nat)
    requires v < Pow256(width)
    ensures Number(BigEndian(width, v)) == v
  {
    if width > 0 {
      NumberOfBigEndian(width - 1, v / 256);
      NumberOfFirstAgrees(BigEndian(width, v), BigEndian(width - 1, v / 256), width - 1);
    }
  }

  lemma {:induction false} BigEndianOfNumber(b: bytes)
    ensures BigEndian(|b|, Number(b)) == b
  {
    if b != [] {
      var init, last := b[..|b| - 1], b[|b| - 1];
      BigEndianOfNumber(init);
      NumberOfFirstAgrees(b, init, |b| - 1);
      LastByte(Number(init), last);
      assert Number(b) == Number(init) * 256 + last;
      assert BigEndian(|b|, Number(b)) == BigEndian(|b| - 1, Number(init)) + [last];
      assert b == init + [last];
    }
  }

  lemma LastByte(x: nat, c: byte)
    ensures (x * 256 + c) / 256 == x && (x * 256 + c) % 256 == c
  {
  }

  /** Dropping leading bytes of a big-endian string reduces the number modulo a power of 256. */
  lemma {:induction false} BigEndianSuffix(width: nat, low: nat, v: nat)
    requires low <= width
    ensures BigEndian(width, v)[width - low..] == BigEndian(low, v)
  {
    if low > 0 {
      BigEndianSuffix(width - 1, low - 1, v / 256);
      assert BigEndian(width, v)[width - low..]
          == BigEndian(width - 1, v / 256)[width - low..] + [v % 256];
    }
  }

  lemma {:induction false} BigEndianZero(width: nat)
    ensures BigEndian(width, 0) == Zeros(width)
  {
    if width > 0 {
      BigEndianZero(width - 1);
    }
  }

  /** A number that fits in `low` bytes is written with leading zeros in a wider string. */
  lemma {:induction false} BigEndianPrefixZero(width: nat, low: nat, v: nat)
    requires low <= width && v < Pow256(low)
    ensures BigEndian(width, v) == Zeros(width - low) + BigEndian(low, v)
  {
    if low == 0 {
      BigEndianZero(width);
      assert Zeros(width - low) + BigEndian(low, v) == Zeros(width);
    } else {
      BigEndianPrefixZero(width - 1, low - 1, v / 256);
      assert Zeros(width - low) + (BigEndian(low - 1, v / 256) + [v % 256])
          == Zeros(width - low) + BigEndian(low - 1, v / 256) + [v % 256];
    }
  }

  lemma {:induction false} Pow256Grows(a: nat, b: nat)
    requires a <= b
    ensures Pow256(a) <= Pow256(b)
  {
    if a < b {
      Pow256Grows(a, b - 1);
    }
  }

  lemma Pow256Of8()
    ensures Pow256(8) == TWO_64
  {
    assert Pow256(4) == 0x1_0000_0000;
    assert Pow256(6) == 0x1_0000_0000_0000;
  }

  lemma {:induction false} NumberOfZeros(n: nat)
    ensures Number(Zeros(n)) == 0
  {
    BigEndianZero(n);
    NumberOfBigEndian(n, 0);
  }

  lemma SumAligned(a: int, b: int)
    requires a % 32 == 0 && b % 32 == 0
    ensures (a + b) % 32 == 0
  {
  }

  lemma ProductBelow(a: nat, b: nat, m: nat)
    requires a < m && b < m
    ensures a * b < m * m
  {
  }

  lemma SmallMod(v: nat, m: nat)
    requires v < m
    ensures v % m == v
  {
  }

  /** v without its i low bytes. */
  function Shifted(v: nat, i: nat): nat {
    if i == 0 then v else Shifted(v / 256, i - 1)
  }

  lemma {:induction false} ShiftedStep(v: nat, i: nat)
    ensures Shifted(v, i + 1) == Shifted(v, i) / 256
    ensures BigEndian(i + 1, v) == [Shifted(v, i) % 256] + BigEndian(i, v)
  {
    if i > 0 {
      ShiftedStep(v / 256, i - 1);
      assert BigEndian(i + 1, v) == BigEndian(i, v / 256) + [v % 256];
      assert BigEndian(i, v) == BigEndian(i - 1, v / 256) + [v % 256];
    } else {
      assert BigEndian(0, v) == [] && BigEndian(0, v / 256) == [];
    }
  }

  /** A conversion to a 32-bit signed integer. */
  function Int32(x: nat): int {
    var r := x % 0x1_0000_0000;
    if r < 0x8000_0000 then r else r - 0x1_0000_0000
  }

  /** Round up to whole words. */
  function Words(len: nat): (r: nat)
    ensures r % 32 == 0 && len <= r < len + 32
  {
    (len + 31) / 32 * 32
  }

  // ---- AVM operations -------------------------------------------------------

  /** `extract3`: the `len` bytes from `start`. */
  function Extract3(b: bytes, start: nat, len: nat): (r: Option<bytes>)
    ensures r.Some? <==> start + len <= |b|
    ensures r.Some? ==> r.value == b[start..start + len]
  {
    if start + len <= |b| then Some(b[start..start + len]) else None
  }

  /** `replace3`: `b` with `v` written over the bytes from `start`. */
  function Replace3(b: bytes, start: nat, v: bytes): (r: Option<bytes>)
    ensures r.Some? <==> start + |v| <= |b|
    ensures r.Some? ==> |r.value| == |b| && r.value[start..start + |v|] == v
  {
    if start + |v| <= |b| then Some(b[..start] + v + b[start + |v|..]) else None
  }

  /** The longest byte string an AVM stack value can hold. */
  const MAX_BYTES: nat := 4096

  /** `concat`, which fails beyond `limit` bytes. */
  function Concat(a: bytes, b: bytes, limit: nat): (r: Option<bytes>)
    ensures r.Some? <==> |a| + |b| <= limit
    ensures r.Some? ==> r.value == a + b
  {
    if |a| + |b| <= limit then Some(a + b) else None
  }

  /** `itob`: eight big-endian bytes. */
  function Itob(v: nat): (b: bytes)
    requires v < TWO_64
    ensures |b| == 8
  {
    BigEndian(8, v)
  }

  /** `extract3(bzero(n) ++ b, len - n, n)`: exactly n bytes, left-padded. */
  function LeftPadTo(b: bytes, n: nat): (r: bytes)
    ensures |r| == n
  {
    var padded := Zeros(n) + b;
    padded[|padded| - n..]
  }

  /** A 64-bit number as a 32-byte word is its 32-byte big-endian form. */
  lemma WordOfUint64(v: nat)
    requires v < TWO_64
    ensures LeftPadTo(Itob(v), 32) == BigEndian(32, v)
  {
    Pow256Of8();
    BigEndianPrefixZero(32, 8, v);
    var padded := Zeros(32) + Itob(v);
    assert padded[|padded| - 32..] == Zeros(24) + Itob(v);
  }
}
