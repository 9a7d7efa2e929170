/** The shape of encodings, spelled out: which types are dynamic, and the example of the
"Contract ABI Specification", f(uint256, uint32[], bytes10, bytes), for all arguments. */
module AbiExample {
  import opened Bytes
  import opened AbiSpec

  // ---- dynamic types -----------------------------------------------------------------

  /** u is t or, through fixed arrays and tuples, a component of it. */
  predicate PartOf(u: Ty, t: Ty) {
    || u == t
    || (t.FixedArray? && PartOf(u, t.elem))
    || (t.Tuple? && exists i :: 0 <= i < |t.items| && PartOf(u, t.items[i]))
  }

  /** Dynamic types are those with bytes, a string or a dynamic array in them. */
  lemma {:induction false} DynamicExactly(t: Ty)
    ensures Dynamic(t) <==> exists u :: PartOf(u, t) && (u.ByteString? || u.DynArray?)
  {
    match t
    case Word(_) =>
    case ByteString => assert PartOf(t, t);
    case DynArray(_) => assert PartOf(t, t);
    case FixedArray(e, _) =>
      DynamicExactly(e);
      if Dynamic(e) {
        var u :| PartOf(u, e) && (u.ByteString? || u.DynArray?);
        assert PartOf(u, t);
      }
    case Tuple(ts) =>
      forall i | 0 <= i < |ts|
        ensures Dynamic(ts[i]) <==> exists u :: PartOf(u, ts[i]) && (u.ByteString? || u.DynArray?)
      {
        DynamicExactly(ts[i]);
      }
      if Dynamic(t) {
        var i :| 0 <= i < |ts| && Dynamic(ts[i]);
        var u :| PartOf(u, ts[i]) && (u.ByteString? || u.DynArray?);
        assert PartOf(u, t);
      }
  }

  /** The number of words of a static type. */
  function WordCount(t: Ty): nat
    decreases t, 0
  {
    match t
    case Word(_) => 1
    case ByteString => 0
    case DynArray(_) => 0
    case FixedArray(e, k) => k * WordCount(e)
    case Tuple(ts) => WordCounts(ts)
  }

  function WordCounts(ts: seq<Ty>): nat
    decreases ts, 0
  {
    if |ts| == 0 then 0 else WordCounts(ts[..|ts| - 1]) + WordCount(ts[|ts| - 1])
  }

  /** The head of a static type is all its words, that of a dynamic type is one word. */
  lemma {:induction false} HeadSizeIs(t: Ty)
    ensures HeadSize(t) == if Dynamic(t) then 32 else 32 * WordCount(t)
    decreases t, 1
  {
    if !Dynamic(t) {
      match t
      case Word(_) =>
      case FixedArray(e, k) =>
        HeadSizeIs(e);
        Scale(k, WordCount(e));
      case Tuple(ts) => HeadSizesAre(ts);
    }
  }

  lemma Scale(k: nat, n: nat)
    ensures k * (32 * n) == 32 * (k * n)
  {
  }

  lemma {:induction false} HeadSizesAre(ts: seq<Ty>)
    requires forall i :: 0 <= i < |ts| ==> !Dynamic(ts[i])
    ensures HeadSizes(ts) == 32 * WordCounts(ts)
    decreases ts, 0
  {
    if |ts| > 0 {
      HeadSizesAre(ts[..|ts| - 1]);
      HeadSizeIs(ts[|ts| - 1]);
    }
  }

  // ---- the example ---------------------------------------------------------------------

  const FN_TYPES: seq<Ty> :=
    [Word(UInt(32)), DynArray(Word(UInt(4))), Word(FixedBytes(10)), ByteString]

  function Arguments(n: nat, items: seq<Val>, tag: bytes, data: bytes): seq<Val> {
    [Num(n), Seq(items), Raw(tag), Raw(data)]
  }

  predicate IsUint32(v: Val) { v.Num? && 0 <= v.n < Pow256(4) }

  predicate AllUint32(items: seq<Val>) {
    forall i :: 0 <= i < |items| ==> IsUint32(items[i])
  }

  /** The numbers as words, one after the other. */
  function Numbers(items: seq<Val>): bytes
    requires AllUint32(items)
  {
    if |items| == 0 then [] else Numbers(items[..|items| - 1]) + BigEndian(32, items[|items| - 1].n)
  }

  lemma {:induction false} NumbersLength(items: seq<Val>)
    requires AllUint32(items)
    ensures |Numbers(items)| == 32 * |items|
  {
    if |items| > 0 {
      NumbersLength(items[..|items| - 1]);
    }
  }

  lemma {:induction false} ArrayHeads(items: seq<Val>, k: nat)
    requires AllUint32(items) && HaveTypes(Copies(Word(UInt(4)), |items|), items) && k <= |items|
    ensures Heads(Copies(Word(UInt(4)), |items|), items, k) == Numbers(items[..k])
    ensures Tails(Copies(Word(UInt(4)), |items|), items, k) == []
  {
    if k > 0 {
      ArrayHeads(items, k - 1);
      assert items[..k][..k - 1] == items[..k - 1] && items[..k][k - 1] == items[k - 1];
      assert Head(Copies(Word(UInt(4)), |items|), items, k - 1) == BigEndian(32, items[k - 1].n);
    }
  }

  lemma ArgumentTypes(n: nat, items: seq<Val>, tag: bytes, data: bytes)
    requires n < TWO_256 && AllUint32(items) && |items| < TWO_64 && |tag| == 10
    ensures HaveTypes(FN_TYPES, Arguments(n, items, tag, data))
  {
    ItemTypes(items);
    assert HasType(FN_TYPES[0], Num(n));
    assert HasType(FN_TYPES[1], Seq(items));
    assert HasType(FN_TYPES[2], Raw(tag));
  }

  lemma ItemTypes(items: seq<Val>)
    requires AllUint32(items)
    ensures HaveTypes(Copies(Word(UInt(4)), |items|), items)
  {
  }

  lemma FourHeads()
    ensures HeadSizes(FN_TYPES) == 0x80
  {
    assert FN_TYPES[..3][..2] == FN_TYPES[..2] && FN_TYPES[..2][..1] == FN_TYPES[..1];
    assert FN_TYPES[..1][..0] == [];
    assert HeadSizes(FN_TYPES[..1]) == 32;
    assert HeadSizes(FN_TYPES[..2]) == 64;
    assert HeadSizes(FN_TYPES[..3]) == 96;
  }

  /** Four heads, the second and the fourth being the distances to their tails; then the count
  and elements of the array; then the length of the byte string, its bytes and the padding. */
  lemma SpecificationExample(n: nat, items: seq<Val>, tag: bytes, data: bytes)
    requires n < TWO_256 && AllUint32(items) && |items| < TWO_64 && |tag| == 10
    ensures HaveTypes(FN_TYPES, Arguments(n, items, tag, data))
    ensures EncSeq(FN_TYPES, Arguments(n, items, tag, data)) ==
              BigEndian(32, n) + BigEndian(32, 0x80) + (tag + Zeros(22)) + BigEndian(32, 0xa0 + 32 * |items|)
              + (BigEndian(32, |items|) + Numbers(items))
              + (BigEndian(32, |data|) + data + Zeros(PadLen(|data|)))
  {
    ArgumentTypes(n, items, tag, data);
    ExampleTails(n, items, tag, data);
    ExampleHeads(n, items, tag, data);
  }

  function Listed(items: seq<Val>): bytes
    requires AllUint32(items)
  {
    BigEndian(32, |items|) + Numbers(items)
  }

  function Padded(data: bytes): bytes {
    BigEndian(32, |data|) + data + Zeros(PadLen(|data|))
  }

  lemma ExampleArray(items: seq<Val>)
    requires AllUint32(items) && HasType(DynArray(Word(UInt(4))), Seq(items))
    ensures Enc(DynArray(Word(UInt(4))), Seq(items)) == Listed(items)
  {
    ArrayHeads(items, |items|);
    assert items[..|items|] == items;
  }

  lemma EachTail(n: nat, items: seq<Val>, tag: bytes, data: bytes)
    requires AllUint32(items) && HaveTypes(FN_TYPES, Arguments(n, items, tag, data))
    ensures var (ts, vs) := (FN_TYPES, Arguments(n, items, tag, data));
            && Tail(ts, vs, 0) == [] && Tail(ts, vs, 1) == Listed(items)
            && Tail(ts, vs, 2) == [] && Tail(ts, vs, 3) == Padded(data)
  {
    var ts, vs := FN_TYPES, Arguments(n, items, tag, data);
    assert HasType(ts[1], vs[1]);
    ExampleArray(items);
    assert ts[3] == ByteString && vs[3] == Raw(data);
  }

  lemma ExampleTails(n: nat, items: seq<Val>, tag: bytes, data: bytes)
    requires AllUint32(items) && HaveTypes(FN_TYPES, Arguments(n, items, tag, data))
    ensures var (ts, vs) := (FN_TYPES, Arguments(n, items, tag, data));
            && Tails(ts, vs, 1) == [] && Tails(ts, vs, 3) == Listed(items)
            && Tails(ts, vs, 4) == Listed(items) + Padded(data)
  {
    var ts, vs := FN_TYPES, Arguments(n, items, tag, data);
    EachTail(n, items, tag, data);
    AddTail(ts, vs, 0, []);
    AddTail(ts, vs, 1, []);
    AddTail(ts, vs, 2, Listed(items));
    AddTail(ts, vs, 3, Listed(items));
  }

  lemma AddTail(ts: seq<Ty>, vs: seq<Val>, k: nat, before: bytes)
    requires HaveTypes(ts, vs) && k < |vs| && Tails(ts, vs, k) == before
    ensures Tails(ts, vs, k + 1) == before + Tail(ts, vs, k)
  {
  }

  lemma AddHead(ts: seq<Ty>, vs: seq<Val>, k: nat, before: bytes)
    requires HaveTypes(ts, vs) && k < |vs| && Heads(ts, vs, k) == before
    ensures Heads(ts, vs, k + 1) == before + Head(ts, vs, k)
  {
  }

  lemma OffsetHead(ts: seq<Ty>, vs: seq<Val>, i: nat, off: nat)
    requires HaveTypes(ts, vs) && i < |vs| && Dynamic(ts[i]) && HeadSizes(ts) + |Tails(ts, vs, i)| == off
    ensures Head(ts, vs, i) == BigEndian(32, off)
  {
  }

  lemma StaticHeads(n: nat, items: seq<Val>, tag: bytes, data: bytes)
    requires HaveTypes(FN_TYPES, Arguments(n, items, tag, data))
    ensures var (ts, vs) := (FN_TYPES, Arguments(n, items, tag, data));
            Head(ts, vs, 0) == BigEndian(32, n) && Head(ts, vs, 2) == tag + Zeros(22)
  {
    var ts, vs := FN_TYPES, Arguments(n, items, tag, data);
    assert ts[0] == Word(UInt(32)) && HasType(ts[0], vs[0]);
    assert ts[2] == Word(FixedBytes(10)) && HasType(ts[2], vs[2]);
  }

  lemma EachHead(n: nat, items: seq<Val>, tag: bytes, data: bytes)
    requires AllUint32(items) && HaveTypes(FN_TYPES, Arguments(n, items, tag, data))
    ensures var (ts, vs) := (FN_TYPES, Arguments(n, items, tag, data));
            && Head(ts, vs, 0) == BigEndian(32, n) && Head(ts, vs, 1) == BigEndian(32, 0x80)
            && Head(ts, vs, 2) == tag + Zeros(22) && Head(ts, vs, 3) == BigEndian(32, 0xa0 + 32 * |items|)
  {
    var ts, vs := FN_TYPES, Arguments(n, items, tag, data);
    FourHeads();
    ExampleTails(n, items, tag, data);
    ListedLength(items);
    StaticHeads(n, items, tag, data);
    OffsetHead(ts, vs, 1, 0x80);
    OffsetHead(ts, vs, 3, 0xa0 + 32 * |items|);
  }

  lemma ListedLength(items: seq<Val>)
    requires AllUint32(items)
    ensures |Listed(items)| == 32 + 32 * |items|
  {
    NumbersLength(items);
  }

  lemma ExampleHeads(n: nat, items: seq<Val>, tag: bytes, data: bytes)
    requires AllUint32(items) && HaveTypes(FN_TYPES, Arguments(n, items, tag, data))
    ensures Heads(FN_TYPES, Arguments(n, items, tag, data), 4) ==
              BigEndian(32, n) + BigEndian(32, 0x80) + (tag + Zeros(22)) + BigEndian(32, 0xa0 + 32 * |items|)
  {
    var ts, vs := FN_TYPES, Arguments(n, items, tag, data);
    EachHead(n, items, tag, data);
    AddHead(ts, vs, 0, []);
    AddHead(ts, vs, 1, BigEndian(32, n));
    AddHead(ts, vs, 2, BigEndian(32, n) + BigEndian(32, 0x80));
    AddHead(ts, vs, 3, BigEndian(32, n) + BigEndian(32, 0x80) + (tag + Zeros(22)));
  }
}
