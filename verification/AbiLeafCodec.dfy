/** `valueToEvmWord`: from the bytes that hold a leaf value on the AVM to its canonical word. */
module AbiLeafCodec {
  import opened Bytes
  import opened AbiSpec
  import opened AbiDecoder
  import opened AbiRoundTrip

  /** `signExtendToWord`: z bytes of the sign, overwritten at the end. It fails on an empty
  string and on more than z bytes. */
  function SignExtend(b: bytes, z: nat): Option<bytes> {
    if b == [] || |b| > z then None
    else Replace3(if b[0] >= 128 then Ones(z) else Zeros(z), z - |b|, b)
  }

  /** The native bytes of a leaf value as a word. */
  function ToEvmWord(l: Leaf, b: bytes): Option<bytes> {
    match l
    case FixedBytes(n) => if n <= 32 then Some(b + Zeros(32 - n)) else None
    case Address => if |b| >= 20 then Some(LeftPadTo(b[|b| - 20..], 32)) else None
    case FunctionPointer =>
      if |b| >= 12 then Some(LeftPadTo(b[..8], 20) + b[8..12] + Zeros(8)) else None
    case SInt(_) => SignExtend(b, 32)
    case _ => Some(LeftPadTo(b, 32))
  }

  /** b holds v: eight bytes for numbers of up to 64 bits, otherwise any byte string that
  denotes the number, in two's complement of 256 bits or of its own width if signed; an
  account is 32 bytes. */
  predicate Held(l: Leaf, v: Val, b: bytes)
    requires LeafHas(l, v)
  {
    match l
    case UInt(w) => if w <= 8 then |b| == 8 && Number(b) == v.n else Number(b) == v.n
    case SInt(w) =>
      if w <= 8 then b == SignedBytes(8, v.n)
      else Number(b) == v.n % TWO_256 || b == SignedBytes(w, v.n)
    case Bool => |b| == 8 && Number(b) == v.n
    case Enum(_) => |b| == 8 && Number(b) == v.n
    case Address => |b| == 32 && b[12..] == v.raw
    case FixedBytes(_) => b == v.raw
    case FunctionPointer => b == v.raw
  }

  /** A wide signed value is held in at most 32 bytes, the first of which shows its sign. */
  predicate SignShown(l: Leaf, v: Val, b: bytes)
    requires LeafHas(l, v)
  {
    l.SInt? && l.width > 8 ==> 1 <= |b| <= 32 && (b[0] >= 128 <==> v.n < 0)
  }

  // ---- padding and sign extension -----------------------------------------------------------

  lemma LeftPadIs(b: bytes, z: nat)
    ensures LeftPadTo(b, z) == BigEndian(z, Number(b))
  {
    BigEndianOfNumber(b);
    var padded := Zeros(z) + b;
    if |b| <= z {
      NumberBound(b);
      BigEndianPrefixZero(z, |b|, Number(b));
      assert padded[|padded| - z..] == Zeros(z - |b|) + b;
    } else {
      BigEndianSuffix(|b|, z, Number(b));
      assert padded[|padded| - z..] == b[|b| - z..];
    }
  }

  /** The number that a byte string denotes in two's complement. */
  function SignedOf(b: bytes): int
    requires b != []
  {
    if b[0] >= 128 then Complement(b) else Number(b)
  }

  lemma SignedOfRange(b: bytes)
    requires b != []
    ensures 0 <= 2 * SignedOf(b) + Pow256(|b|) < 2 * Pow256(|b|)
    ensures SignedOf(b) < 0 <==> b[0] >= 128
  {
    TopByte(b);
    NumberBound(b);
  }

  /** Sign extension keeps the signed number, for every string of 1 to z bytes. */
  lemma SignExtendIs(b: bytes, z: nat)
    requires 1 <= |b| <= z
    ensures SignExtend(b, z) == Some(SignedBytes(z, SignedOf(b)))
  {
    var n, w := SignedOf(b), |b|;
    SignedOfRange(b);
    SignedBytesForm(z, w, n);
    BigEndianOfNumber(b);
    var fill := if n < 0 then Ones(z) else Zeros(z);
    if n >= 0 {
      BigEndianPrefixZero(z, w, n);
    }
    var sign := if n < 0 then Ones(z - w) else Zeros(z - w);
    assert SignedBytes(z, n) == sign + b;
    assert fill[..z - w] == sign;
    OverTheEnd(fill, sign, b);
  }

  lemma OverTheEnd(fill: bytes, sign: bytes, b: bytes)
    requires |fill| == |sign| + |b| && fill[..|sign|] == sign
    ensures Replace3(fill, |sign|, b) == Some(sign + b)
  {
    assert fill[|fill|..] == [];
    assert sign + b + [] == sign + b;
  }

  lemma WiderRange(w: nat, z: nat, n: int)
    requires w <= z && 0 <= 2 * n + Pow256(w) < 2 * Pow256(w)
    ensures 0 <= 2 * n + Pow256(z) < 2 * Pow256(z)
  {
    Pow256Grows(w, z);
  }

  lemma SignedBytesInjective(z: nat, m: int, n: int)
    requires z >= 1 && 0 <= 2 * m + Pow256(z) < 2 * Pow256(z) && 0 <= 2 * n + Pow256(z) < 2 * Pow256(z)
    requires SignedBytes(z, m) == SignedBytes(z, n)
    ensures m == n
  {
    SignedWord(z, z, m);
    SignedWord(z, z, n);
  }

  /** In z bytes a string denotes n exactly when its first byte shows n's sign. */
  lemma SignDecides(b: bytes, z: nat, n: int)
    requires 1 <= |b| <= z && 0 <= 2 * n + Pow256(z) < 2 * Pow256(z) && Number(b) == n % Pow256(z)
    ensures SignedOf(b) == n <==> (b[0] >= 128 <==> n < 0)
  {
    EuclideanMod(n, Pow256(z));
    SignedOfRange(b);
    NumberBound(b);
    if n < 0 && |b| < z {
      ShortIsSmall(b, z);
    }
  }

  lemma ShortIsSmall(b: bytes, z: nat)
    requires |b| < z
    ensures 2 * Number(b) < Pow256(z)
  {
    NumberBound(b);
    Pow256Grows(|b|, z - 1);
  }

  lemma WideSigned(b: bytes, z: nat, w: nat, n: int)
    requires 1 <= w <= z && 0 <= 2 * n + Pow256(w) < 2 * Pow256(w) && Number(b) == n % Pow256(z)
    ensures SignExtend(b, z) == Some(SignedBytes(z, n)) <==> 1 <= |b| <= z && (b[0] >= 128 <==> n < 0)
  {
    if 1 <= |b| <= z {
      WiderRange(w, z, n);
      SignExtendIs(b, z);
      SignDecides(b, z, n);
      SignedOfRange(b);
      WiderRange(|b|, z, SignedOf(b));
      if SignedBytes(z, SignedOf(b)) == SignedBytes(z, n) {
        SignedBytesInjective(z, SignedOf(b), n);
      }
    }
  }

  lemma NarrowSigned(k: nat, z: nat, w: nat, n: int)
    requires 1 <= w <= k <= z && 0 <= 2 * n + Pow256(w) < 2 * Pow256(w)
    ensures SignExtend(SignedBytes(k, n), z) == Some(SignedBytes(z, n))
  {
    var b := SignedBytes(k, n);
    WiderRange(w, k, n);
    SignedWord(k, k, n);
    SignExtendIs(b, z);
  }

  // ---- the word of a leaf -----------------------------------------------------------------

  /** THE LEAF ENCODER. From any bytes that hold the value it produces the canonical word if and
  only if a wide signed value shows its sign in the first byte. */
  lemma LeafWordExactly(l: Leaf, v: Val, b: bytes)
    requires LeafHas(l, v) && Held(l, v, b)
    ensures ToEvmWord(l, b) == Some(EncLeaf(l, v)) <==> SignShown(l, v, b)
  {
    match l
    case SInt(w) =>
      if w <= 8 {
        NarrowSigned(8, 32, w, v.n);
      } else if b == SignedBytes(w, v.n) {
        NarrowSigned(w, 32, w, v.n);
        NativeSigned(w, w, v.n);
      } else {
        WideSigned(b, 32, w, v.n);
      }
    case Address => AddressWord(v.raw, b);
    case FunctionPointer => PointerWord(b);
    case FixedBytes(_) =>
    case _ => LeftPadIs(b, 32);
  }

  lemma AddressWord(raw: bytes, b: bytes)
    requires |b| == 32 && |raw| == 20 && b[12..] == raw
    ensures LeftPadTo(b[|b| - 20..], 32) == Zeros(12) + raw
  {
    var padded := Zeros(32) + raw;
    assert padded[|padded| - 32..] == Zeros(12) + raw;
  }

  lemma PointerWord(b: bytes)
    requires |b| >= 12
    ensures LeftPadTo(b[..8], 20) + b[8..12] + Zeros(8) == Zeros(12) + b[..12] + Zeros(8)
  {
    var padded := Zeros(20) + b[..8];
    assert padded[|padded| - 20..] == Zeros(12) + b[..8];
    assert b[..8] + b[8..12] == b[..12];
  }

  /** The failing input: 128 in a wide signed type, held in the single byte that byte-string
  arithmetic leaves, becomes the word of -128. */
  lemma ShortSignedBreaks(w: nat, b: bytes)
    requires 9 <= w <= 32 && b == [128]
    ensures LeafHas(SInt(w), Num(128)) && LeafHas(SInt(w), Num(-128)) && Held(SInt(w), Num(128), b)
    ensures ToEvmWord(SInt(w), b) == Some(EncLeaf(SInt(w), Num(-128)))
  {
    ShortSigned(b, w, 32);
  }

  lemma ShortSigned(b: bytes, w: nat, z: nat)
    requires b == [128] && 2 <= w <= z
    ensures 256 < Pow256(w) && Number(b) == 128 % Pow256(z)
    ensures SignExtend(b, z) == Some(SignedBytes(z, -128))
  {
    assert NumberOfFirst(b, 0) == 0;
    assert Number(b) == 128;
    SmallPower(128, w, z);
    SignExtendIs(b, z);
    assert Pow256(1) == 256;
  }

  lemma SmallPower(n: nat, w: nat, z: nat)
    requires n <= 128 && 2 <= w <= z
    ensures 2 * n < Pow256(w) && n % Pow256(z) == n
  {
    Pow256Grows(2, w);
    Pow256Grows(2, z);
    assert Pow256(2) == 65536;
    SmallMod(n, Pow256(z));
  }

  /** The bytes of a leaf in a carrier of full width: eight bytes, the type's own width, or 32
  bytes if signed. */
  function Native(l: Leaf, v: Val): (b: bytes)
    requires LeafHas(l, v)
  {
    match l
    case UInt(w) => BigEndian(if w <= 8 then 8 else w, v.n)
    case SInt(w) => SignedBytes(if w <= 8 then 8 else 32, v.n)
    case Address => Zeros(12) + v.raw
    case FixedBytes(_) => v.raw
    case FunctionPointer => v.raw
    case _ => BigEndian(8, v.n)
  }

  /** Such bytes hold the value and show its sign, so they give its canonical word. */
  lemma NativeWord(l: Leaf, v: Val)
    requires LeafHas(l, v)
    ensures Held(l, v, Native(l, v)) && ToEvmWord(l, Native(l, v)) == Some(EncLeaf(l, v))
  {
    match l {
    case UInt(w) =>
      Pow256Grows(w, if w <= 8 then 8 else w);
      NumberOfBigEndian(if w <= 8 then 8 else w, v.n);
    case SInt(w) =>
      if w > 8 {
        NativeSigned(32, w, v.n);
      }
    case Bool => NumberOfSmall(8, v.n);
    case Enum(_) => NumberOfSmall(8, v.n);
    case _ =>
    }
    LeafWordExactly(l, v, Native(l, v));
  }

  lemma NumberOfSmall(z: nat, n: nat)
    requires z >= 1 && n < 256
    ensures Number(BigEndian(z, n)) == n
  {
    Pow256Grows(1, z);
    assert Pow256(1) == 256;
    NumberOfBigEndian(z, n);
  }

  lemma NativeSigned(z: nat, w: nat, n: int)
    requires 1 <= w <= z && 0 <= 2 * n + Pow256(w) < 2 * Pow256(w)
    ensures var b := SignedBytes(z, n);
            Number(b) == n % Pow256(z) && |b| == z && (b[0] >= 128 <==> n < 0)
  {
    var b := SignedBytes(z, n);
    NumberOfBigEndian(z, n % Pow256(z));
    SignedRange(z, w, n);
    WiderRange(w, z, n);
    TopByte(b);
  }
}
