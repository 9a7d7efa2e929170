/** What the checking decoder accepts: a relation between values and blobs that is stated from the
encoding's side, and the proof that the decoder answers with a value exactly when it holds. */
module AbiAcceptance {
  import opened Bytes
  import opened AbiSpec
  import opened AbiLayout
  import opened AbiDecoder
  import opened AbiRoundTrip
  import opened AbiLeafCodec

  // ---- words ----------------------------------------------------------------------------

  /** w is a word of v: the canonical one. The first 12 bytes of a function pointer's word, the
  upper part of an address, may be anything. */
  predicate IsWordOf(l: Leaf, v: Val, w: bytes)
    requires |w| == 32
  {
    LeafHas(l, v) && if l.FunctionPointer? then w[12..] == EncLeaf(l, v)[12..] else w == EncLeaf(l, v)
  }

  /** LEAF CHECKS. A word is accepted as v if and only if it is a word of v, and every other word
  is stopped by the padding check. */
  lemma LeafAccepts(l: Leaf, w: bytes, v: Val)
    requires |w| == 32 && LeafOk(l)
    ensures DecLeaf(l, w) == Ok(v) <==> IsWordOf(l, v, w)
    ensures DecLeaf(l, w).Err? ==> DecLeaf(l, w).fault == BadPadding
  {
    if IsWordOf(l, v, w) {
      if l.FunctionPointer? {
        PointerAccepted(v.raw, w);
      } else {
        LeafRoundTrip(l, v);
      }
    }
    if DecLeaf(l, w).Ok? {
      AcceptedLeaf(l, w);
    }
  }

  lemma PointerAccepted(raw: bytes, w: bytes)
    requires |w| == 32 && |raw| == 16 && raw[8..12] == raw[12..16]
    requires w[12..] == (Zeros(12) + raw[..12] + Zeros(8))[12..]
    ensures w[24..] == Zeros(8) && w[12..24] + w[20..24] == raw
  {
    var u := Zeros(12) + raw[..12] + Zeros(8);
    PointerRoundTrip(raw);
    assert w[24..] == w[12..][12..] && u[24..] == u[12..][12..];
    assert w[12..24] == w[12..][..12] && u[12..24] == u[12..][..12];
    assert w[20..24] == w[12..][8..12] && u[20..24] == u[12..][8..12];
  }

  lemma AcceptedLeaf(l: Leaf, w: bytes)
    requires |w| == 32 && LeafOk(l) && DecLeaf(l, w).Ok?
    ensures IsWordOf(l, DecLeaf(l, w).value, w)
  {
    match l
    case UInt(n) => AcceptedUnsigned(n, w, 32);
    case SInt(n) => AcceptedSigned(n, w, 32);
    case Bool => BigEndianOfNumber(w);
    case Enum(_) => AcceptedShort(w, 32);
    case Address => Halves(w, 12);
    case FixedBytes(n) => Halves(w, n);
    case FunctionPointer => AcceptedPointer(w);
  }

  lemma Halves(w: bytes, n: nat)
    requires n <= |w|
    ensures w == w[..n] + w[n..]
  {
  }

  lemma AcceptedUnsigned(n: nat, w: bytes, z: nat)
    requires |w| == z && n <= z && w[..z - n] == Zeros(z - n)
    ensures Number(w) < Pow256(n) && BigEndian(z, Number(w)) == w
  {
    var low := w[z - n..];
    assert w == Zeros(z - n) + low;
    NumberOfConcat(Zeros(z - n), low);
    NumberOfZeros(z - n);
    NumberBound(low);
    BigEndianOfNumber(w);
  }

  lemma AcceptedShort(w: bytes, z: nat)
    requires |w| == z && z >= 8 && w[..z - 8] == Zeros(z - 8)
    ensures Number(w[z - 8..]) == Number(w) && BigEndian(z, Number(w)) == w
  {
    assert w == Zeros(z - 8) + w[z - 8..];
    NumberOfConcat(Zeros(z - 8), w[z - 8..]);
    NumberOfZeros(z - 8);
    BigEndianOfNumber(w);
  }

  lemma AcceptedSigned(n: nat, w: bytes, z: nat)
    requires |w| == z && 1 <= n <= z && DecSigned(n, w).Ok?
    ensures var v := DecSigned(n, w).value;
            v.Num? && 0 <= 2 * v.n + Pow256(n) < 2 * Pow256(n) && SignedBytes(z, v.n) == w
  {
    var low := w[z - n..];
    SignedValue(n, w);
    SignedOfRange(low);
    SignExtendIs(low, z);
    assert w == w[..z - n] + low;
    ExtendedWord(w, low, z);
  }

  /** An accepted word repeats the sign of its low bytes, and they are its value. */
  lemma SignedValue(n: nat, w: bytes)
    requires 1 <= n <= |w| && DecSigned(n, w).Ok?
    ensures var k, low := |w| - n, w[|w| - n..];
            && w[..k] == (if low[0] >= 128 then Ones(k) else Zeros(k))
            && DecSigned(n, w) == Ok(Num(SignedOf(low)))
  {
    var k, low := |w| - n, w[|w| - n..];
    assert w == w[..k] + low && low[0] == w[k];
    if w[k] >= 128 {
      OnesPrefix(k, low);
    } else {
      NumberOfConcat(Zeros(k), low);
      NumberOfZeros(k);
    }
  }

  /** A word whose upper bytes repeat the sign is the sign extension of its low bytes. */
  lemma ExtendedWord(w: bytes, low: bytes, z: nat)
    requires |w| == z && 1 <= |low| <= z && w == w[..z - |low|] + low
    requires w[..z - |low|] == if low[0] >= 128 then Ones(z - |low|) else Zeros(z - |low|)
    ensures SignExtend(low, z) == Some(w)
  {
    var fill := if low[0] >= 128 then Ones(z) else Zeros(z);
    assert fill[..z - |low|] == w[..z - |low|];
    OverTheEnd(fill, w[..z - |low|], low);
  }

  lemma AcceptedPointer(w: bytes)
    requires |w| == 32 && w[24..] == Zeros(8)
    ensures var raw := w[12..24] + w[20..24];
            && |raw| == 16 && raw[8..12] == raw[12..16]
            && w[12..] == (Zeros(12) + raw[..12] + Zeros(8))[12..]
  {
    var raw := w[12..24] + w[20..24];
    assert raw[8..12] == w[20..24] && raw[12..16] == w[20..24] && raw[..12] == w[12..24];
    assert w[12..] == w[12..24] + w[24..];
  }

  /** The failing input: words that differ in their first 12 bytes are one function pointer. */
  lemma PointerPrefixIgnored(w: bytes, u: bytes)
    requires |w| == 32 && |u| == 32 && w[12..] == u[12..]
    ensures DecLeaf(FunctionPointer, w) == DecLeaf(FunctionPointer, u)
  {
    assert w[24..] == w[12..][12..] && u[24..] == u[12..][12..];
    assert w[12..24] == w[12..][..12] && u[12..24] == u[12..][..12];
    assert w[20..24] == w[12..][8..12] && u[20..24] == u[12..][8..12];
  }

  // ---- whole values ---------------------------------------------------------------------

  /** The bytes b stand in the blob at `at`, and their end is a 64-bit number. */
  predicate Shows(blob: bytes, at: nat, b: bytes) {
    at + |b| <= |blob| && at + |b| < TWO_64 && blob[at..at + |b|] == b
  }

  /** n bytes are a number of words. */
  predicate IsWords(n: nat) {
    n == 0 || (n >= 32 && IsWords(n - 32))
  }

  lemma {:induction false} IsWordsExactly(n: nat)
    ensures IsWords(n) <==> n % 32 == 0
  {
    if n >= 32 {
      IsWordsExactly(n - 32);
    }
  }

  /** At `start` the blob denotes v as a value of type t: its words are words of the leaves, its
  lengths are 16-bit numbers, its bytes lie in the blob and its components are where heads and
  offsets say. */
  predicate Denotes(t: Ty, v: Val, blob: bytes, start: nat)
    decreases v, 1
  {
    match t
    case Word(l) =>
      start + 32 <= |blob| && start + 32 < TWO_64 && IsWordOf(l, v, blob[start..start + 32])
    case ByteString =>
      && v.Raw? && |v.raw| < 0x10000
      && Shows(blob, start, BigEndian(32, |v.raw|)) && Shows(blob, start + 32, v.raw)
    case FixedArray(e, k) => v.Seq? && |v.items| == k && DenotesEach(e, v.items, blob, start)
    case DynArray(e) =>
      && v.Seq? && |v.items| < 0x10000
      && Shows(blob, start, BigEndian(32, |v.items|)) && DenotesEach(e, v.items, blob, start + 32)
    case Tuple(ts) => v.Seq? && DenotesAll(ts, v.items, blob, start)
  }

  predicate DenotesEach(e: Ty, vs: seq<Val>, blob: bytes, base: nat)
    decreases vs, 0
  {
    forall i :: 0 <= i < |vs| ==> ElemDenotes(e, vs[i], blob, base, i)
  }

  /** Element k stands k head sizes behind the base. */
  predicate ElemDenotes(e: Ty, v: Val, blob: bytes, base: nat, k: nat)
    decreases v, 3
  {
    DenotesHead(e, v, blob, base, ElemPos(e, base, k))
  }

  function ElemPos(e: Ty, base: nat, k: nat): nat {
    if k == 0 then base else ElemPos(e, base, k - 1) + HeadSize(e)
  }

  lemma {:induction false} ElemPosIs(e: Ty, base: nat, k: nat)
    ensures ElemPos(e, base, k) == base + k * HeadSize(e)
  {
    if k > 0 {
      ElemPosIs(e, base, k - 1);
      assert k * HeadSize(e) == (k - 1) * HeadSize(e) + HeadSize(e);
    }
  }

  predicate DenotesAll(ts: seq<Ty>, vs: seq<Val>, blob: bytes, base: nat)
    decreases vs, 0
  {
    |ts| == |vs| && forall i :: 0 <= i < |vs| ==> DenotesHead(ts[i], vs[i], blob, base, base + HeadAt(ts, i))
  }

  /** A static component stands at its head; the head of a dynamic one holds its distance from
  the base, a number of words. */
  predicate DenotesHead(t: Ty, v: Val, blob: bytes, base: nat, pos: nat)
    decreases v, 2
  {
    && pos < TWO_64
    && if !Dynamic(t) then Denotes(t, v, blob, pos)
       else
         && pos + 32 <= |blob| && pos + 32 < TWO_64
         && var offset := Number(blob[pos..pos + 32]);
         && offset < TWO_64 && IsWords(offset) && base + offset < TWO_64
         && Denotes(t, v, blob, base + offset)
  }

  /** A small word is fetched exactly when it is there. */
  lemma FetchesExactly(blob: bytes, pos: nat)
    ensures FetchSmall(blob, pos).Ok? <==>
              pos + 32 <= |blob| && pos + 32 < TWO_64 && Number(blob[pos..pos + 32]) < TWO_64
    ensures FetchSmall(blob, pos).Ok? ==>
              && FetchSmall(blob, pos).value == Number(blob[pos..pos + 32])
              && BigEndian(32, FetchSmall(blob, pos).value) == blob[pos..pos + 32]
  {
    if pos + 32 <= |blob| && pos + 32 < TWO_64 {
      SmallWordExactly(blob[pos..pos + 32], 32);
    }
  }

  lemma SmallWordExactly(w: bytes, z: nat)
    requires |w| == z && z == 32
    ensures w[..24] == Zeros(24) <==> Number(w) < TWO_64
    ensures w[..24] == Zeros(24) ==> Number(w[24..]) == Number(w)
    ensures BigEndian(z, Number(w)) == w
  {
    Pow256Of8();
    BigEndianOfNumber(w);
    if w[..24] == Zeros(24) {
      AcceptedShort(w, z);
      NumberBound(w[24..]);
    }
    if Number(w) < TWO_64 {
      WordPrefix(z, 8, Number(w));
    }
  }

  /** THE CHECKING DECODER. It returns v if and only if the blob denotes v there: on every blob,
  canonical or not, at every position. */
  lemma {:induction false} BodyAccepts(t: Ty, blob: bytes, start: nat, v: Val)
    requires TyOk(t)
    ensures DecBody(t, blob, start) == Ok(v) <==> Denotes(t, v, blob, start)
    decreases t, 1
  {
    match t
    case Word(l) =>
      if start + 32 <= |blob| && start + 32 < TWO_64 {
        LeafAccepts(l, blob[start..start + 32], v);
      }
    case ByteString => StringAccepts(blob, start, v);
    case FixedArray(e, k) =>
      if v.Seq? {
        ElemsAccept(e, blob, start, 0, k, v.items);
        EachFromZero(e, v.items, blob, start);
      }
      ElemsLength(e, blob, start, 0, k);
    case DynArray(e) => ArrayAccepts(e, blob, start, v);
    case Tuple(ts) =>
      if v.Seq? {
        ItemsAccept(ts, blob, start, 0, v.items);
        assert ts[0..] == ts && ts[..0] == [] && HeadAt(ts, 0) == 0;
      }
      assert ts[0..] == ts && ts[..0] == [] && HeadAt(ts, 0) == 0;
  }

  lemma StringAccepts(blob: bytes, start: nat, v: Val)
    ensures DecBody(ByteString, blob, start) == Ok(v) <==> Denotes(ByteString, v, blob, start)
  {
    if Denotes(ByteString, v, blob, start) {
      LengthShown(blob, start, |v.raw|, 32);
    }
    if DecBody(ByteString, blob, start) == Ok(v) {
      StringAccepted(blob, start, v);
    }
  }

  lemma StringAccepted(blob: bytes, start: nat, v: Val)
    requires DecBody(ByteString, blob, start) == Ok(v)
    ensures Denotes(ByteString, v, blob, start)
  {
    FetchesExactly(blob, start);
    var n := FetchSmall(blob, start).value;
    assert v == Raw(blob[start + 32..start + 32 + n]);
    assert Shows(blob, start, BigEndian(32, n));
  }

  lemma LengthShown(blob: bytes, start: nat, n: nat, z: nat)
    requires z == 32 && n < 0x10000 && Shows(blob, start, BigEndian(z, n))
    ensures FetchSmall(blob, start) == Ok(n)
  {
    Pow256Of8();
    WordNumber(z, 8, n);
    FetchesExactly(blob, start);
  }

  lemma {:induction false} ArrayAccepts(e: Ty, blob: bytes, start: nat, v: Val)
    requires TyOk(e)
    ensures DecBody(DynArray(e), blob, start) == Ok(v) <==> Denotes(DynArray(e), v, blob, start)
    decreases e, 4
  {
    FetchesExactly(blob, start);
    var count := FetchSmall(blob, start);
    if count.Ok? && count.value <= MAX_COUNT {
      ElemsLength(e, blob, start + 32, 0, count.value);
      if v.Seq? {
        ElemsAccept(e, blob, start + 32, 0, count.value, v.items);
        EachFromZero(e, v.items, blob, start + 32);
      }
    }
    if v.Seq? && |v.items| < 0x10000 && Shows(blob, start, BigEndian(32, |v.items|)) {
      LengthShown(blob, start, |v.items|, 32);
    }
  }

  lemma {:induction false} HeadAccepts(t: Ty, blob: bytes, base: nat, pos: nat, v: Val)
    requires TyOk(t) && pos < TWO_64
    ensures DecHead(t, blob, base, pos) == Ok(v) <==> DenotesHead(t, v, blob, base, pos)
    decreases t, 2, 0
  {
    if !Dynamic(t) {
      BodyAccepts(t, blob, pos, v);
    } else {
      if FetchSmall(blob, pos).Ok? {
        BodyAccepts(t, blob, base + FetchSmall(blob, pos).value, v);
      }
      DynamicAccepts(t, blob, base, pos, v);
    }
  }

  lemma DynamicAccepts(t: Ty, blob: bytes, base: nat, pos: nat, v: Val)
    requires TyOk(t) && Dynamic(t) && pos < TWO_64
    requires FetchSmall(blob, pos).Ok? ==>
               var start := base + FetchSmall(blob, pos).value;
               DecBody(t, blob, start) == Ok(v) <==> Denotes(t, v, blob, start)
    ensures DecHead(t, blob, base, pos) == Ok(v) <==> DenotesHead(t, v, blob, base, pos)
  {
    FetchesExactly(blob, pos);
    if FetchSmall(blob, pos).Ok? {
      Followed(t, blob, base, pos, FetchSmall(blob, pos).value, v);
    }
  }

  lemma Followed(t: Ty, blob: bytes, base: nat, pos: nat, offset: nat, v: Val)
    requires TyOk(t) && Dynamic(t) && pos < TWO_64 && FetchSmall(blob, pos) == Ok(offset)
    requires pos + 32 <= |blob| && pos + 32 < TWO_64 && offset == Number(blob[pos..pos + 32]) < TWO_64
    requires DecBody(t, blob, base + offset) == Ok(v) <==> Denotes(t, v, blob, base + offset)
    ensures DecHead(t, blob, base, pos) == Ok(v) <==> DenotesHead(t, v, blob, base, pos)
  {
    IsWordsExactly(offset);
    if !IsWords(offset) {
      assert DecHead(t, blob, base, pos) == Err(UnalignedOffset);
    } else if base + offset < TWO_64 {
      FollowsOffset(t, blob, base, pos, offset);
    } else {
      assert DecHead(t, blob, base, pos) == Err(Overflow);
    }
  }

  lemma {:induction false} ElemsLength(e: Ty, blob: bytes, base: nat, i: nat, n: nat)
    requires TyOk(e) && i <= n
    ensures DecElems(e, blob, base, i, n).Ok? ==> |DecElems(e, blob, base, i, n).value| == n - i
    decreases n - i
  {
    if i < n {
      ElemsLength(e, blob, base, i + 1, n);
    }
  }

  /** Elements from i on. */
  predicate EachFrom(e: Ty, vs: seq<Val>, blob: bytes, base: nat, i: nat) {
    forall j :: 0 <= j < |vs| ==> ElemDenotes(e, vs[j], blob, base, i + j)
  }

  lemma EachFromZero(e: Ty, vs: seq<Val>, blob: bytes, base: nat)
    ensures EachFrom(e, vs, blob, base, 0) <==> DenotesEach(e, vs, blob, base)
  {
  }

  lemma {:induction false} ElemsAccept(e: Ty, blob: bytes, base: nat, i: nat, n: nat, vs: seq<Val>)
    requires TyOk(e) && i <= n
    ensures DecElems(e, blob, base, i, n) == Ok(vs) <==> |vs| == n - i && EachFrom(e, vs, blob, base, i)
    decreases e, 3, n - i
  {
    if i < n {
      ElemsLength(e, blob, base, i, n);
      if |vs| == n - i {
        ElemsAccept(e, blob, base, i + 1, n, vs[1..]);
        ElemAccepts(e, blob, base, i, vs[0], ElemPos(e, base, i));
        ElemsAcceptStep(e, blob, base, i, n, vs);
      }
    }
  }

  lemma ElemsAcceptStep(e: Ty, blob: bytes, base: nat, i: nat, n: nat, vs: seq<Val>)
    requires TyOk(e) && i < n && |vs| == n - i
    requires ElemAt(e, blob, base, i) == Ok(vs[0]) <==> ElemDenotes(e, vs[0], blob, base, i)
    requires DecElems(e, blob, base, i + 1, n) == Ok(vs[1..]) <==> EachFrom(e, vs[1..], blob, base, i + 1)
    ensures DecElems(e, blob, base, i, n) == Ok(vs) <==> EachFrom(e, vs, blob, base, i)
  {
    ElemsCons(e, vs, blob, base, i);
    ElemsUnfold(e, blob, base, i, n, vs);
  }

  lemma {:induction false} ElemAccepts(e: Ty, blob: bytes, base: nat, k: nat, v: Val, pos: nat)
    requires TyOk(e) && pos == ElemPos(e, base, k)
    ensures ElemAt(e, blob, base, k) == Ok(v) <==> ElemDenotes(e, v, blob, base, k)
    decreases e, 3, 0
  {
    FromAccepts(e, blob, base, pos, v);
  }

  lemma {:induction false} FromAccepts(t: Ty, blob: bytes, base: nat, pos: nat, v: Val)
    requires TyOk(t)
    ensures DecFrom(t, blob, base, pos) == Ok(v) <==> DenotesHead(t, v, blob, base, pos)
    decreases t, 2, 1
  {
    if pos < TWO_64 {
      HeadAccepts(t, blob, base, pos, v);
    }
  }

  /** Decoding from a position that must be a 64-bit number. */
  function DecFrom(t: Ty, blob: bytes, base: nat, pos: nat): Result<Val>
    requires TyOk(t)
  {
    if pos < TWO_64 then DecHead(t, blob, base, pos) else Err(Overflow)
  }

  /** Decoding the k-th element. */
  function ElemAt(e: Ty, blob: bytes, base: nat, k: nat): Result<Val>
    requires TyOk(e)
  {
    DecFrom(e, blob, base, ElemPos(e, base, k))
  }

  lemma ElemsUnfold(e: Ty, blob: bytes, base: nat, i: nat, n: nat, vs: seq<Val>)
    requires TyOk(e) && i < n && |vs| > 0
    ensures DecElems(e, blob, base, i, n) == Ok(vs) <==>
              ElemAt(e, blob, base, i) == Ok(vs[0]) && DecElems(e, blob, base, i + 1, n) == Ok(vs[1..])
  {
    ElemPosIs(e, base, i);
    if base + i * HeadSize(e) < TWO_64 {
      ElemsStep(e, blob, base, i, n);
      OkCons(ElemAt(e, blob, base, i), DecElems(e, blob, base, i + 1, n), vs);
    }
  }

  lemma ElemsCons(e: Ty, vs: seq<Val>, blob: bytes, base: nat, i: nat)
    requires |vs| > 0
    ensures EachFrom(e, vs, blob, base, i) <==>
              ElemDenotes(e, vs[0], blob, base, i) && EachFrom(e, vs[1..], blob, base, i + 1)
  {
    if EachFrom(e, vs, blob, base, i) {
      assert ElemDenotes(e, vs[0], blob, base, i + 0);
      forall j | 0 <= j < |vs| - 1
        ensures ElemDenotes(e, vs[1..][j], blob, base, i + 1 + j)
      {
        assert ElemDenotes(e, vs[j + 1], blob, base, i + (j + 1));
      }
    }
    if ElemDenotes(e, vs[0], blob, base, i) && EachFrom(e, vs[1..], blob, base, i + 1) {
      forall j | 0 <= j < |vs|
        ensures ElemDenotes(e, vs[j], blob, base, i + j)
      {
        if j > 0 {
          assert ElemDenotes(e, vs[1..][j - 1], blob, base, i + 1 + (j - 1));
        }
      }
    }
  }

  /** A first result and the rest make vs exactly when they are its head and tail. */
  lemma OkCons(first: Result<Val>, rest: Result<seq<Val>>, vs: seq<Val>)
    requires |vs| > 0
    ensures (first.Ok? && rest.Ok? && [first.value] + rest.value == vs) <==> first == Ok(vs[0]) && rest == Ok(vs[1..])
  {
    assert vs == [vs[0]] + vs[1..];
    if first.Ok? && rest.Ok? && [first.value] + rest.value == vs {
      assert vs[0] == first.value && vs[1..] == rest.value;
    }
  }

  /** Fields from i on. */
  predicate AllFrom(ts: seq<Ty>, vs: seq<Val>, blob: bytes, base: nat, i: nat)
    requires i <= |ts|
  {
    |vs| == |ts| - i &&
    forall j :: 0 <= j < |vs| ==> DenotesHead(ts[i + j], vs[j], blob, base, base + HeadAt(ts, i + j))
  }

  lemma {:induction false} ItemsAccept(ts: seq<Ty>, blob: bytes, base: nat, i: nat, vs: seq<Val>)
    requires AllOk(ts) && i <= |ts|
    ensures DecItems(ts[i..], blob, base, HeadAt(ts, i)) == Ok(vs) <==> AllFrom(ts, vs, blob, base, i)
    decreases ts, 0, |ts| - i
  {
    if i == |ts| {
      assert ts[i..] == [];
    } else {
      var pos := base + HeadAt(ts, i);
      assert ts[i..] != [] && ts[i..][0] == ts[i];
      if |vs| > 0 {
        ItemsCons(ts, vs, blob, base, i);
        if pos < TWO_64 {
          HeadAccepts(ts[i], blob, base, pos, vs[0]);
          ItemsAccept(ts, blob, base, i + 1, vs[1..]);
          ItemsStep(ts, blob, base, i);
          OkCons(DecHead(ts[i], blob, base, pos), DecItems(ts[i + 1..], blob, base, HeadAt(ts, i + 1)), vs);
        }
      } else if pos < TWO_64 {
        ItemsStep(ts, blob, base, i);
      }
    }
  }

  lemma ItemsCons(ts: seq<Ty>, vs: seq<Val>, blob: bytes, base: nat, i: nat)
    requires i < |ts| && |vs| > 0
    ensures AllFrom(ts, vs, blob, base, i) <==>
              && DenotesHead(ts[i], vs[0], blob, base, base + HeadAt(ts, i))
              && AllFrom(ts, vs[1..], blob, base, i + 1)
  {
    if AllFrom(ts, vs, blob, base, i) {
      assert ts[i + 0] == ts[i];
      forall j | 0 <= j < |vs| - 1
        ensures DenotesHead(ts[i + 1 + j], vs[1..][j], blob, base, base + HeadAt(ts, i + 1 + j))
      {
        assert vs[1..][j] == vs[j + 1] && ts[i + (j + 1)] == ts[i + 1 + j];
      }
    }
    if DenotesHead(ts[i], vs[0], blob, base, base + HeadAt(ts, i)) && AllFrom(ts, vs[1..], blob, base, i + 1) {
      forall j | 0 <= j < |vs|
        ensures DenotesHead(ts[i + j], vs[j], blob, base, base + HeadAt(ts, i + j))
      {
        if j > 0 {
          assert vs[1..][j - 1] == vs[j] && ts[i + 1 + (j - 1)] == ts[i + j];
        }
      }
    }
  }

  // ---- consequences -----------------------------------------------------------------------

  /** What the decoder returns has the type it was asked for. */
  lemma {:induction false} DenotesTyped(t: Ty, v: Val, blob: bytes, start: nat)
    requires Denotes(t, v, blob, start)
    ensures HasType(t, v)
    decreases v, 1
  {
    match t
    case FixedArray(e, k) =>
      forall i | 0 <= i < k
        ensures HasType(Copies(e, k)[i], v.items[i])
      {
        assert ElemDenotes(e, v.items[i], blob, start, i);
        HeadTyped(e, v.items[i], blob, start, ElemPos(e, start, i));
      }
    case DynArray(e) =>
      forall i | 0 <= i < |v.items|
        ensures HasType(Copies(e, |v.items|)[i], v.items[i])
      {
        assert ElemDenotes(e, v.items[i], blob, start + 32, i);
        HeadTyped(e, v.items[i], blob, start + 32, ElemPos(e, start + 32, i));
      }
    case Tuple(ts) =>
      forall i | 0 <= i < |v.items|
        ensures HasType(ts[i], v.items[i])
      {
        HeadTyped(ts[i], v.items[i], blob, start, start + HeadAt(ts, i));
      }
    case _ =>
  }

  lemma {:induction false} HeadTyped(t: Ty, v: Val, blob: bytes, base: nat, pos: nat)
    requires DenotesHead(t, v, blob, base, pos)
    ensures HasType(t, v)
    decreases v, 2
  {
    DenotesTyped(t, v, blob, if !Dynamic(t) then pos else base + Number(blob[pos..pos + 32]));
  }

  /** No leaf of t is a function pointer. */
  predicate NoPointers(t: Ty) {
    match t
    case Word(l) => !l.FunctionPointer?
    case ByteString => true
    case FixedArray(e, _) => NoPointers(e)
    case DynArray(e) => NoPointers(e)
    case Tuple(ts) => forall i :: 0 <= i < |ts| ==> NoPointers(ts[i])
  }

  /** ONE ENCODING PER STATIC VALUE. What a static value is decoded from is its canonical
  encoding, so the decoder accepts nothing else. */
  lemma {:induction false} StaticIsCanonical(t: Ty, v: Val, blob: bytes, start: nat)
    requires !Dynamic(t) && NoPointers(t) && Denotes(t, v, blob, start) && HasType(t, v) && start <= |blob|
    ensures Stands(blob, start, Enc(t, v))
    decreases v, 1
  {
    match t
    case Word(_) =>
    case FixedArray(e, k) =>
      var ts := Copies(e, k);
      forall i | 0 <= i < k
        ensures DenotesHead(ts[i], v.items[i], blob, start, start + HeadAt(ts, i))
      {
        assert ElemDenotes(e, v.items[i], blob, start, i);
        assert ts[..i] == Copies(e, i);
        CopiesHeadSizes(e, i);
        ElemPosIs(e, start, i);
      }
      SequenceIsCanonical(ts, v.items, blob, start);
    case Tuple(ts) => SequenceIsCanonical(ts, v.items, blob, start);
  }

  /** The bytes stand there, in a blob of any length. */
  predicate Stands(blob: bytes, at: nat, b: bytes) {
    at + |b| <= |blob| && blob[at..at + |b|] == b
  }

  lemma {:induction false} SequenceIsCanonical(ts: seq<Ty>, vs: seq<Val>, blob: bytes, base: nat)
    requires HaveTypes(ts, vs) && DenotesAll(ts, vs, blob, base) && base <= |blob|
    requires forall i :: 0 <= i < |ts| ==> !Dynamic(ts[i]) && NoPointers(ts[i])
    ensures Stands(blob, base, EncSeq(ts, vs))
    decreases vs, 0, 1
  {
    HeadsLie(ts, vs, blob, base, |vs|);
    NoTails(ts, vs, |vs|);
    assert EncSeq(ts, vs) == Heads(ts, vs, |vs|);
  }

  lemma {:induction false} HeadsLie(ts: seq<Ty>, vs: seq<Val>, blob: bytes, base: nat, k: nat)
    requires HaveTypes(ts, vs) && DenotesAll(ts, vs, blob, base) && base <= |blob| && k <= |vs|
    requires forall i :: 0 <= i < |ts| ==> !Dynamic(ts[i]) && NoPointers(ts[i])
    ensures Stands(blob, base, Heads(ts, vs, k))
    decreases vs, 0, 0, k
  {
    if k > 0 {
      HeadsLie(ts, vs, blob, base, k - 1);
      PartLengths(ts, vs, k - 1);
      assert DenotesHead(ts[k - 1], vs[k - 1], blob, base, base + HeadAt(ts, k - 1));
      StaticIsCanonical(ts[k - 1], vs[k - 1], blob, base + HeadAt(ts, k - 1));
      Join(blob, base, Heads(ts, vs, k - 1), Head(ts, vs, k - 1));
    }
  }

  lemma Join(blob: bytes, at: nat, a: bytes, b: bytes)
    requires Stands(blob, at, a) && Stands(blob, at + |a|, b)
    ensures Stands(blob, at, a + b)
  {
    assert blob[at..at + |a| + |b|] == blob[at..at + |a|] + blob[at + |a|..at + |a| + |b|];
  }

  /** The same for argument lists: what a list of static types is decoded from starts with its
  canonical encoding. */
  lemma DecodeIsCanonical(ts: seq<Ty>, blob: bytes, vs: seq<Val>)
    requires AllOk(ts) && Decode(ts, blob) == Ok(vs)
    requires forall i :: 0 <= i < |ts| ==> !Dynamic(ts[i]) && NoPointers(ts[i])
    ensures HaveTypes(ts, vs) && Stands(blob, 0, EncSeq(ts, vs))
  {
    assert ts[0..] == ts && ts[..0] == [] && HeadAt(ts, 0) == 0;
    ItemsAccept(ts, blob, 0, 0, vs);
    forall i | 0 <= i < |vs|
      ensures DenotesHead(ts[i], vs[i], blob, 0, 0 + HeadAt(ts, i)) && HasType(ts[i], vs[i])
    {
      assert ts[0 + i] == ts[i];
      HeadTyped(ts[i], vs[i], blob, 0, 0 + HeadAt(ts, i));
    }
    SequenceIsCanonical(ts, vs, blob, 0);
  }
}
