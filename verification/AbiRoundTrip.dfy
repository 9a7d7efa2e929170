/** Decoding what the encoding wrote. The outcome is exact: the original value when every
dynamic length fits ARC4's uint16 count, and the length assertion otherwise. */
module AbiRoundTrip {
  import opened Bytes
  import opened AbiSpec
  import opened AbiLayout
  import opened AbiDecoder

  // ---- leaf words ---------------------------------------------------------------

  /** A string of 255s denotes one less than the power it fills. */
  lemma {:induction false} NumberOfOnes(n: nat)
    ensures Number(Ones(n)) == Pow256(n) - 1
  {
    if n > 0 {
      NumberOfOnes(n - 1);
      NumberOfFirstAgrees(Ones(n), Ones(n - 1), n - 1);
    }
  }

  lemma MulMonotone(a: nat, b: nat, p: nat)
    requires a <= b
    ensures a * p <= b * p
  {
  }

  lemma HalfRange(d: nat, r: nat, p: nat)
    requires d < 256 && r < p
    ensures d >= 128 <==> 2 * (d * p + r) >= 256 * p
  {
    if d >= 128 {
      MulMonotone(128, d, p);
    } else {
      MulMonotone(d, 127, p);
    }
  }

  /** The top byte of a number tells whether it reaches half the range of its width. */
  lemma TopByte(b: bytes)
    requires b != []
    ensures b[0] >= 128 <==> 2 * Number(b) >= Pow256(|b|)
  {
    var rest := b[1..];
    NumberOfConcat([b[0]], rest);
    NumberBound(rest);
    HalfRange(b[0], Number(rest), Pow256(|rest|));
    assert [b[0]] + rest == b;
    assert NumberOfFirst([b[0]], 0) == 0;
  }

  lemma WordNumber(z: nat, w: nat, n: nat)
    requires w <= z && n < Pow256(w)
    ensures Number(BigEndian(z, n)) == n
  {
    Pow256Grows(w, z);
    NumberOfBigEndian(z, n);
  }

  lemma WordPrefix(z: nat, w: nat, n: nat)
    requires w <= z && n < Pow256(w)
    ensures BigEndian(z, n)[..z - w] == Zeros(z - w)
  {
    BigEndianPrefixZero(z, w, n);
  }

  lemma WordSuffix(z: nat, w: nat, n: nat)
    requires w <= z && n < Pow256(w)
    ensures Number(BigEndian(z, n)[z - w..]) == n
  {
    BigEndianSuffix(z, w, n);
    NumberOfBigEndian(w, n);
  }

  lemma NonNegativeSign(z: nat, w: nat, n: nat)
    requires 1 <= w <= z && 2 * n < Pow256(w)
    ensures BigEndian(z, n)[z - w] < 128
  {
    BigEndianSuffix(z, w, n);
    NumberOfBigEndian(w, n);
    TopByte(BigEndian(w, n));
    assert BigEndian(z, n)[z - w..][0] == BigEndian(w, n)[0];
  }

  lemma NonNegativeWord(z: nat, w: nat, n: nat)
    requires 1 <= w <= z && 2 * n < Pow256(w)
    ensures DecSigned(w, BigEndian(z, n)) == Ok(Num(n))
  {
    NonNegativeSign(z, w, n);
    WordNumber(z, w, n);
    WordPrefix(z, w, n);
  }

  /** A negative value's word is its two's complement: sign bytes, then the low bytes. */
  lemma NegativeSign(w: nat, n: int)
    requires 1 <= w && n < 0 <= 2 * n + Pow256(w)
    ensures BigEndian(w, n + Pow256(w))[0] >= 128
  {
    NumberOfBigEndian(w, n + Pow256(w));
    TopByte(BigEndian(w, n + Pow256(w)));
  }

  lemma NegativeBytes(z: nat, w: nat, n: int)
    requires 1 <= w <= z && n < 0 <= 2 * n + Pow256(w)
    ensures var word := Ones(z - w) + BigEndian(w, n + Pow256(w));
            word[z - w] >= 128 && word[..z - w] == Ones(z - w)
  {
    NegativeSign(w, n);
  }

  lemma NegativeNumber(z: nat, w: nat, n: int)
    requires w <= z && n < 0 <= n + Pow256(w)
    ensures Number(Ones(z - w) + BigEndian(w, n + Pow256(w))) == n + Pow256(z)
  {
    OnesPrefix(z - w, BigEndian(w, n + Pow256(w)));
    NumberOfBigEndian(w, n + Pow256(w));
  }

  lemma TwosComplement(z: nat, w: nat, n: int)
    requires w <= z && n < 0 <= n + Pow256(w)
    ensures n + Pow256(z) >= 0
    ensures BigEndian(z, n + Pow256(z)) == Ones(z - w) + BigEndian(w, n + Pow256(w))
  {
    NegativeNumber(z, w, n);
    BigEndianOfNumber(Ones(z - w) + BigEndian(w, n + Pow256(w)));
  }

  lemma SignedDecodes(w: nat, word: bytes, n: int)
    requires 1 <= w <= |word| && word[|word| - w] >= 128 && word[..|word| - w] == Ones(|word| - w)
    requires Complement(word) == n
    ensures DecSigned(w, word) == Ok(Num(n))
  {
  }

  lemma ComplementOf(word: bytes, n: int)
    requires Number(word) == n + Pow256(|word|)
    ensures Complement(word) == n
  {
  }

  lemma NegativeWord(z: nat, w: nat, n: int)
    requires 1 <= w <= z && n < 0 <= 2 * n + Pow256(w)
    ensures DecSigned(w, Ones(z - w) + BigEndian(w, n + Pow256(w))) == Ok(Num(n))
  {
    NegativeNumber(z, w, n);
    NegativeBytes(z, w, n);
    ComplementOf(Ones(z - w) + BigEndian(w, n + Pow256(w)), n);
    SignedDecodes(w, Ones(z - w) + BigEndian(w, n + Pow256(w)), n);
  }

  lemma Distribute(p: int, q: int)
    ensures (p - 1) * q == p * q - q
  {
  }

  lemma OnesPrefix(k: nat, lo: bytes)
    ensures Number(Ones(k) + lo) == Pow256(k + |lo|) - Pow256(|lo|) + Number(lo)
  {
    NumberOfConcat(Ones(k), lo);
    NumberOfOnes(k);
    PowSplit(k, |lo|);
    Distribute(Pow256(k), Pow256(|lo|));
  }

  lemma {:induction false} PowSplit(a: nat, b: nat)
    ensures Pow256(a + b) == Pow256(a) * Pow256(b)
  {
    if a > 0 {
      PowSplit(a - 1, b);
      assert Pow256(a) * Pow256(b) == 256 * (Pow256(a - 1) * Pow256(b));
    }
  }

  lemma EuclideanMod(n: int, p: nat)
    requires 0 <= n + p < 2 * p
    ensures n % p == if n < 0 then n + p else n
  {
  }

  lemma SignedRange(z: nat, w: nat, n: int)
    requires w <= z && 0 <= 2 * n + Pow256(w) < 2 * Pow256(w)
    ensures n % Pow256(z) == if n < 0 then n + Pow256(z) else n
  {
    Pow256Grows(w, z);
    EuclideanMod(n, Pow256(z));
  }

  lemma SignedBytesForm(z: nat, w: nat, n: int)
    requires w <= z && 0 <= 2 * n + Pow256(w) < 2 * Pow256(w)
    ensures n >= 0 ==> SignedBytes(z, n) == BigEndian(z, n)
    ensures n < 0 ==> SignedBytes(z, n) == Ones(z - w) + BigEndian(w, n + Pow256(w))
  {
    SignedRange(z, w, n);
    if n < 0 {
      TwosComplement(z, w, n);
    }
  }

  lemma SignedWord(z: nat, w: nat, n: int)
    requires 1 <= w <= z && 0 <= 2 * n + Pow256(w) < 2 * Pow256(w)
    ensures DecSigned(w, SignedBytes(z, n)) == Ok(Num(n))
  {
    SignedBytesForm(z, w, n);
    if n < 0 {
      NegativeWord(z, w, n);
    } else {
      NonNegativeWord(z, w, n);
    }
  }

  /** Decoding a leaf's canonical word, padding checks included, returns the leaf's value. */
  lemma LeafRoundTrip(l: Leaf, v: Val)
    requires LeafHas(l, v)
    ensures DecLeaf(l, EncLeaf(l, v)) == Ok(v)
  {
    match l
    case UInt(w) =>
      WordNumber(32, w, v.n);
      WordPrefix(32, w, v.n);
    case SInt(w) => SignedWord(32, w, v.n);
    case Bool => WordNumber(32, 1, v.n);
    case Enum(m) =>
      Pow256Of8();
      WordPrefix(32, 8, v.n);
      WordSuffix(32, 8, v.n);
    case FunctionPointer => PointerRoundTrip(v.raw);
    case _ =>
  }

  lemma PointerRoundTrip(raw: bytes)
    requires |raw| == 16 && raw[8..12] == raw[12..16]
    ensures var w := Zeros(12) + raw[..12] + Zeros(8);
            w[24..] == Zeros(8) && w[12..24] + w[20..24] == raw
  {
    var w := Zeros(12) + raw[..12] + Zeros(8);
    assert w[12..24] == raw[..12];
    assert w[20..24] == raw[8..12];
    assert raw == raw[..12] + raw[12..16];
  }

  // ---- whole values -------------------------------------------------------------

  /** Every byte string and every dynamic array in v has at most 65535 elements. */
  predicate LengthsFit(t: Ty, v: Val)
    requires HasType(t, v)
    decreases v, 1
  {
    match t
    case Word(_) => true
    case ByteString => |v.raw| < 0x10000
    case FixedArray(e, k) => AllFit(Copies(e, k), v.items)
    case DynArray(e) => |v.items| < 0x10000 && AllFit(Copies(e, |v.items|), v.items)
    case Tuple(ts) => AllFit(ts, v.items)
  }

  predicate AllFit(ts: seq<Ty>, vs: seq<Val>)
    requires HaveTypes(ts, vs)
    decreases vs, 0
  {
    forall i :: 0 <= i < |vs| ==> LengthsFit(ts[i], vs[i])
  }

  /** What decoding v's own encoding must give. */
  function Expected(t: Ty, v: Val): Result<Val>
    requires HasType(t, v)
  {
    if LengthsFit(t, v) then Ok(v) else Err(ExceedsUint16)
  }

  function ExpectedSeq(ts: seq<Ty>, vs: seq<Val>, from: nat): Result<seq<Val>>
    requires HaveTypes(ts, vs) && from <= |vs|
  {
    if forall i :: from <= i < |vs| ==> LengthsFit(ts[i], vs[i])
    then Ok(vs[from..]) else Err(ExceedsUint16)
  }

  /** `part` lies in the blob at position `at`. */
  predicate Lies(blob: bytes, at: nat, part: bytes) {
    at + |part| <= |blob| < TWO_64 && blob[at..at + |part|] == part
  }

  lemma PartLies(blob: bytes, at: nat, whole: bytes, from: nat, part: bytes)
    requires Lies(blob, at, whole)
    requires from + |part| <= |whole| && whole[from..from + |part|] == part
    ensures Lies(blob, at + from, part)
  {
    forall i | 0 <= i < |part|
      ensures blob[at + from + i] == part[i]
    {
      assert blob[at..at + |whole|][from + i] == whole[from + i];
      assert whole[from..from + |part|][i] == part[i];
    }
  }

  lemma FetchesSmall(blob: bytes, at: nat, n: nat)
    requires n < TWO_64 && Lies(blob, at, BigEndian(32, n))
    ensures FetchSmall(blob, at) == Ok(n)
  {
    Pow256Of8();
    WordPrefix(32, 8, n);
    WordSuffix(32, 8, n);
  }

  lemma ByteStringDecodes(v: Val, blob: bytes, start: nat)
    requires v.Raw? && Lies(blob, start, Enc(ByteString, v))
    ensures DecBody(ByteString, blob, start) == Expected(ByteString, v)
  {
    var all, n := Enc(ByteString, v), |v.raw|;
    PartLies(blob, start, all, 0, BigEndian(32, n));
    PartLies(blob, start, all, 32, v.raw);
    FetchesSmall(blob, start, n);
  }

  lemma FollowsOffset(t: Ty, blob: bytes, base: nat, pos: nat, offset: nat)
    requires TyOk(t) && Dynamic(t) && offset % 32 == 0 && base + offset < TWO_64
    requires FetchSmall(blob, pos) == Ok(offset)
    ensures DecHead(t, blob, base, pos) == DecBody(t, blob, base + offset)
  {
  }

  lemma HeadLies(ts: seq<Ty>, vs: seq<Val>, i: nat, blob: bytes, base: nat)
    requires HaveTypes(ts, vs) && i < |vs| && Lies(blob, base, EncSeq(ts, vs))
    ensures Lies(blob, base + HeadAt(ts, i), Head(ts, vs, i))
  {
    HeadPlacement(ts, vs, i);
    PartLies(blob, base, EncSeq(ts, vs), HeadAt(ts, i), Head(ts, vs, i));
  }

  lemma HeadIsOffset(ts: seq<Ty>, vs: seq<Val>, i: nat)
    requires HaveTypes(ts, vs) && i < |vs| && Dynamic(ts[i])
    ensures Head(ts, vs, i) == BigEndian(32, TailAt(ts, vs, i))
  {
  }

  /** A dynamic component's head holds its tail's offset, and its encoding lies there. */
  lemma OffsetReads(ts: seq<Ty>, vs: seq<Val>, i: nat, blob: bytes, base: nat)
    requires HaveTypes(ts, vs) && i < |vs| && Dynamic(ts[i]) && Lies(blob, base, EncSeq(ts, vs))
    requires TailAt(ts, vs, i) < TWO_64
    ensures FetchSmall(blob, base + HeadAt(ts, i)) == Ok(TailAt(ts, vs, i))
  {
    HeadLies(ts, vs, i, blob, base);
    HeadIsOffset(ts, vs, i);
    FetchesSmall(blob, base + HeadAt(ts, i), TailAt(ts, vs, i));
  }

  lemma TailLies(ts: seq<Ty>, vs: seq<Val>, i: nat, blob: bytes, base: nat)
    requires HaveTypes(ts, vs) && i < |vs| && Dynamic(ts[i]) && Lies(blob, base, EncSeq(ts, vs))
    ensures Lies(blob, base + TailAt(ts, vs, i), Enc(ts[i], vs[i]))
    ensures TailAt(ts, vs, i) % 32 == 0
  {
    TailPlacement(ts, vs, i);
    PartLies(blob, base, EncSeq(ts, vs), TailAt(ts, vs, i), Tail(ts, vs, i));
  }

  /** A static component lies at its head position. */
  lemma StaticLies(ts: seq<Ty>, vs: seq<Val>, i: nat, blob: bytes, base: nat)
    requires HaveTypes(ts, vs) && i < |vs| && !Dynamic(ts[i]) && Lies(blob, base, EncSeq(ts, vs))
    ensures Lies(blob, base + HeadAt(ts, i), Enc(ts[i], vs[i]))
  {
    HeadLies(ts, vs, i, blob, base);
  }

  /** Component i of a sequence is decoded from its head position. */
  lemma {:induction false} HeadDecodes(ts: seq<Ty>, vs: seq<Val>, i: nat, blob: bytes, base: nat)
    requires HaveTypes(ts, vs) && i < |vs| && TyOk(ts[i]) && Lies(blob, base, EncSeq(ts, vs))
    ensures DecHead(ts[i], blob, base, base + HeadAt(ts, i)) == Expected(ts[i], vs[i])
    decreases vs, 0, 0
  {
    if Dynamic(ts[i]) {
      TailLies(ts, vs, i, blob, base);
      BodyDecodes(ts[i], vs[i], blob, base + TailAt(ts, vs, i));
      HeadFollows(ts, vs, i, blob, base);
    } else {
      StaticLies(ts, vs, i, blob, base);
      BodyDecodes(ts[i], vs[i], blob, base + HeadAt(ts, i));
    }
  }

  lemma HeadFollows(ts: seq<Ty>, vs: seq<Val>, i: nat, blob: bytes, base: nat)
    requires HaveTypes(ts, vs) && i < |vs| && TyOk(ts[i]) && Dynamic(ts[i]) && Lies(blob, base, EncSeq(ts, vs))
    ensures DecHead(ts[i], blob, base, base + HeadAt(ts, i)) == DecBody(ts[i], blob, base + TailAt(ts, vs, i))
  {
    TailLies(ts, vs, i, blob, base);
    OffsetReads(ts, vs, i, blob, base);
    FollowsOffset(ts[i], blob, base, base + HeadAt(ts, i), TailAt(ts, vs, i));
  }

  lemma ExpectedSeqStep(ts: seq<Ty>, vs: seq<Val>, i: nat)
    requires HaveTypes(ts, vs) && i < |vs|
    ensures ExpectedSeq(ts, vs, i) ==
            if Expected(ts[i], vs[i]).Ok? && ExpectedSeq(ts, vs, i + 1).Ok?
            then Ok([vs[i]] + ExpectedSeq(ts, vs, i + 1).value)
            else Err(ExceedsUint16)
  {
    assert vs[i..] == [vs[i]] + vs[i + 1..];
  }

  lemma {:induction false} ElemsDecode(e: Ty, vs: seq<Val>, blob: bytes, base: nat, i: nat)
    requires HaveTypes(Copies(e, |vs|), vs) && i <= |vs| && TyOk(e)
    requires Lies(blob, base, EncSeq(Copies(e, |vs|), vs))
    ensures DecElems(e, blob, base, i, |vs|) == ExpectedSeq(Copies(e, |vs|), vs, i)
    decreases vs, 1, |vs| - i
  {
    if i < |vs| {
      ElemDecodes(e, vs, blob, base, i);
      ElemsDecode(e, vs, blob, base, i + 1);
      ExpectedSeqStep(Copies(e, |vs|), vs, i);
      ElemsStep(e, blob, base, i, |vs|);
    } else {
      assert vs[i..] == [];
    }
  }

  lemma ElemDecodes(e: Ty, vs: seq<Val>, blob: bytes, base: nat, i: nat)
    requires HaveTypes(Copies(e, |vs|), vs) && i < |vs| && TyOk(e)
    requires Lies(blob, base, EncSeq(Copies(e, |vs|), vs))
    ensures base + i * HeadSize(e) < TWO_64
    ensures DecHead(e, blob, base, base + i * HeadSize(e)) == Expected(e, vs[i])
    decreases vs, 0, 1
  {
    HeadDecodes(Copies(e, |vs|), vs, i, blob, base);
    ElemPosition(e, vs, i);
  }

  lemma ElemsStep(e: Ty, blob: bytes, base: nat, i: nat, n: nat)
    requires TyOk(e) && i < n && base + i * HeadSize(e) < TWO_64
    ensures var first := DecHead(e, blob, base, base + i * HeadSize(e));
            var rest := DecElems(e, blob, base, i + 1, n);
            DecElems(e, blob, base, i, n) ==
            if first.Err? then Err(first.fault) else
            if rest.Err? then Err(rest.fault) else Ok([first.value] + rest.value)
  {
  }

  lemma ElemPosition(e: Ty, vs: seq<Val>, i: nat)
    requires HaveTypes(Copies(e, |vs|), vs) && i < |vs|
    ensures HeadAt(Copies(e, |vs|), i) == i * HeadSize(e) <= |EncSeq(Copies(e, |vs|), vs)|
  {
    var ts := Copies(e, |vs|);
    HeadPlacement(ts, vs, i);
    assert ts[..i] == Copies(e, i);
    CopiesHeadSizes(e, i);
  }

  lemma {:induction false} ItemsDecode(ts: seq<Ty>, vs: seq<Val>, blob: bytes, base: nat, i: nat)
    requires HaveTypes(ts, vs) && i <= |vs| && AllOk(ts)
    requires Lies(blob, base, EncSeq(ts, vs))
    ensures DecItems(ts[i..], blob, base, HeadAt(ts, i)) == ExpectedSeq(ts, vs, i)
    decreases vs, 1, |vs| - i
  {
    if i < |vs| {
      HeadDecodes(ts, vs, i, blob, base);
      ItemsDecode(ts, vs, blob, base, i + 1);
      ExpectedSeqStep(ts, vs, i);
      assert base + HeadAt(ts, i) < TWO_64 by { HeadPlacement(ts, vs, i); }
      ItemsStep(ts, blob, base, i);
    } else {
      assert vs[i..] == [] && ts[i..] == [];
    }
  }

  lemma ItemsStep(ts: seq<Ty>, blob: bytes, base: nat, i: nat)
    requires i < |ts| && AllOk(ts) && base + HeadAt(ts, i) < TWO_64
    ensures var first := DecHead(ts[i], blob, base, base + HeadAt(ts, i));
            var rest := DecItems(ts[i + 1..], blob, base, HeadAt(ts, i + 1));
            DecItems(ts[i..], blob, base, HeadAt(ts, i)) ==
            if first.Err? then Err(first.fault) else
            if rest.Err? then Err(rest.fault) else Ok([first.value] + rest.value)
  {
    HeadSizesStep(ts, i);
    assert ts[i..][1..] == ts[i + 1..];
  }

  lemma ExpectedSeqAll(ts: seq<Ty>, vs: seq<Val>)
    requires HaveTypes(ts, vs)
    ensures ExpectedSeq(ts, vs, 0) == if AllFit(ts, vs) then Ok(vs) else Err(ExceedsUint16)
  {
    assert vs[0..] == vs;
  }

  lemma {:induction false} BodyDecodes(t: Ty, v: Val, blob: bytes, start: nat)
    requires HasType(t, v) && TyOk(t) && Lies(blob, start, Enc(t, v))
    ensures DecBody(t, blob, start) == Expected(t, v)
    decreases v, 1
  {
    match t
    case Word(l) => LeafRoundTrip(l, v);
    case ByteString => ByteStringDecodes(v, blob, start);
    case FixedArray(e, k) =>
      ElemsDecode(e, v.items, blob, start, 0);
      ExpectedSeqAll(Copies(e, k), v.items);
    case DynArray(e) =>
      var count := |v.items|;
      PartLies(blob, start, Enc(t, v), 0, BigEndian(32, count));
      PartLies(blob, start, Enc(t, v), 32, EncSeq(Copies(e, count), v.items));
      FetchesSmall(blob, start, count);
      if count <= MAX_COUNT {
        ElemsDecode(e, v.items, blob, start + 32, 0);
        ExpectedSeqAll(Copies(e, count), v.items);
      }
    case Tuple(ts) =>
      ItemsDecode(ts, v.items, blob, start, 0);
      ExpectedSeqAll(ts, v.items);
      assert ts[0..] == ts && ts[..0] == [];
  }

  /** ROUND TRIP. Decoding the canonical encoding of any argument list gives the argument
  list back exactly when every dynamic length fits in 16 bits; otherwise the length
  assertion is what stops the decoder, and no other assertion ever fires. */
  lemma RoundTrip(ts: seq<Ty>, vs: seq<Val>)
    requires HaveTypes(ts, vs) && AllOk(ts)
    requires |EncSeq(ts, vs)| < TWO_64
    ensures Decode(ts, EncSeq(ts, vs)) == if AllFit(ts, vs) then Ok(vs) else Err(ExceedsUint16)
  {
    ItemsDecode(ts, vs, EncSeq(ts, vs), 0, 0);
    ExpectedSeqAll(ts, vs);
    assert ts[0..] == ts && ts[..0] == [];
  }
}
