/** Two array types with one canonical name, and a blob that the second one decodes wrongly. */
module AbiSharedName {
  import opened Bytes
  import opened AbiSpec
  import opened AbiDecoder
  import opened AbiMemo
  import opened AbiRouter

  const FIRST: TyRef := Dyn(Struct(1))
  const SECOND: TyRef := Dyn(Struct(2))

  /** A program with two structs, { uint256 } and { bool }, whose arrays have one canonical name,
  as two structs of one name in two files do. */
  predicate Clashes(p: Program) {
    && p.defs == map[1 := [Leafy(UInt(32))], 2 := [Leafy(Bool)]]
    && p.canonical(FIRST) == p.canonical(SECOND)
    && (forall id :: id in p.defs ==> p.headSize(Struct(id)) == 32 && !p.dynamic(Struct(id)))
    && !p.dynamic(Leafy(UInt(32))) && !p.dynamic(Leafy(Bool))
  }

  function Clash(): (p: Program)
    ensures Clashes(p)
  {
    Program(map[1 := [Leafy(UInt(32))], 2 := [Leafy(Bool)]], _ => "S[]", _ => 32, (t: TyRef) => t.Dyn?)
  }

  /** An array of one struct with one field, the word w. */
  function OneWord(w: bytes): bytes {
    BigEndian(32, 1) + w
  }

  lemma LengthWord(w: bytes, z: nat)
    requires |w| == 32 && z == 32
    ensures |OneWord(w)| == 64 && OneWord(w)[32..64] == w && FetchSmall(OneWord(w), 0) == Ok(1)
  {
    var b := BigEndian(z, 1);
    Pow256Grows(8, z);
    BigEndianPrefixZero(z, 8, 1);
    BigEndianSuffix(z, 8, 1);
    NumberOfBigEndian(8, 1);
    assert OneWord(w)[0..32] == b;
  }

  /** Inline decoding of such an array reads the field. */
  lemma InlineOne(p: Program, id: nat, l: Leaf, w: bytes, deep: Fault)
    requires WellFormed(p) && id in p.defs && p.defs[id] == [Leafy(l)] && |w| == 32 && LeafOk(l)
    requires p.headSize(Struct(id)) == 32 && !p.dynamic(Struct(id)) && !p.dynamic(Leafy(l))
    ensures Inline(p, Dyn(Struct(id)), OneWord(w), 0, 2, deep)
         == (match DecLeaf(l, w) case Ok(v) => Ok(Seq([Seq([v])])) case Err(f) => Err(f))
  {
    var blob := OneWord(w);
    LengthWord(w, 32);
    assert Inline(p, Leafy(l), blob, 32, 0, deep) == DecLeaf(l, w);
    FieldOnly(p, [Leafy(l)], blob, deep, DecLeaf(l, w));
    ElementOnly(p, id, blob, deep, DecLeaf(l, w));
  }

  lemma FieldOnly(p: Program, ts: seq<TyRef>, blob: bytes, deep: Fault, v: Result<Val>)
    requires WellFormed(p) && AllKnown(p, ts) && |ts| == 1 && !p.dynamic(ts[0])
    requires Inline(p, ts[0], blob, 32, 0, deep) == v
    ensures InlineItems(p, ts, blob, 32, 0, 0, deep)
         == (match v case Ok(x) => Ok([x]) case Err(f) => Err(f))
  {
    InlineItemsStep(p, ts, blob, 32, 0, 0, deep);
    assert ts[1..] == [];
    assert InlineItems(p, ts[1..], blob, 32, 0 + p.headSize(ts[0]), 0, deep) == Ok([]);
    assert InlineHead(p, ts[0], blob, 32, 32 + 0, 0, deep) == v;
    assert v.Ok? ==> [v.value] + [] == [v.value];
  }

  lemma ElementOnly(p: Program, id: nat, blob: bytes, deep: Fault, v: Result<Val>)
    requires WellFormed(p) && id in p.defs && FetchSmall(blob, 0) == Ok(1)
    requires !p.dynamic(Struct(id))
    requires InlineItems(p, p.defs[id], blob, 32, 0, 0, deep) == (match v case Ok(x) => Ok([x]) case Err(f) => Err(f))
    ensures Inline(p, Dyn(Struct(id)), blob, 0, 2, deep)
         == (match v case Ok(x) => Ok(Seq([Seq([x])])) case Err(f) => Err(f))
  {
    var e := Struct(id);
    assert Times(0, p.headSize(e)) == Ok(0);
    assert InlineEach(p, e, blob, 32, 1, 1, 1, deep) == Ok([]);
    assert InlineHead(p, e, blob, 32, 32, 1, deep) == Inline(p, e, blob, 32, 1, deep);
    assert Plus(0, 32) == Ok(32) && Plus(32, 0) == Ok(32);
    var one := Inline(p, e, blob, 32, 1, deep);
    assert one == (match v case Ok(x) => Ok(Seq([x])) case Err(f) => Err(f));
    assert InlineEach(p, e, blob, 32, 0, 1, 1, deep)
        == (match one case Ok(x) => Ok([x]) case Err(f) => Err(f)) by {
      assert one.Ok? ==> [one.value] + [] == [one.value];
    }
  }

  lemma TwoIsNoBool(w: bytes, z: nat)
    requires z == 32 && w == BigEndian(z, 2)
    ensures DecLeaf(UInt(32), w) == Ok(Num(2)) && DecLeaf(Bool, w) == Err(BadPadding)
  {
    Pow256Grows(1, z);
    NumberOfBigEndian(z, 2);
  }

  lemma ClashFacts(p: Program)
    requires Clashes(p)
    ensures WellFormed(p) && Known(p, FIRST) && Known(p, SECOND)
    ensures Closed(p, {FIRST, SECOND, Struct(1), Struct(2)}) && Closed(p, {FIRST, Struct(1)})
  {
  }

  /** The failing input: after the first array type has been used, the code for the second is
  the first one's method. On an array whose one element holds the word 2 it returns 2, where
  decoding the second type must report that 2 is no bool. */
  method SharedNameBreaks(p: Program) returns (first: Code, second: Code, methods: map<Name, Code>)
    requires Clashes(p)
    ensures first == second && CodeOk(second) && MethodsOk(methods) && WellFormed(p) && Known(p, SECOND)
    ensures Run(methods, second, OneWord(BigEndian(32, 2)), 0, 2, OutOfBounds) == Ok(Seq([Seq([Num(2)])]))
    ensures Inline(p, SECOND, OneWord(BigEndian(32, 2)), 0, 2, OutOfBounds) == Err(BadPadding)
  {
    ClashFacts(p);
    ghost var tb;
    first, second, methods, tb := UseBoth(p, {FIRST, SECOND, Struct(1), Struct(2)}, FIRST, SECOND);
    FirstWins(tb, {FIRST, SECOND, Struct(1), Struct(2)});
    NotAlike(p, methods, second, BigEndian(32, 2));
  }

  /** Two array types with one canonical name share one method: that of the first one used. */
  method UseBoth(p: Program, ghost T: set<TyRef>, t: TyRef, u: TyRef)
    returns (first: Code, second: Code, methods: map<Name, Code>, ghost tb: Table)
    requires WellFormed(p) && Closed(p, T) && Inside(T, t) && Inside(T, u) && SameName(p, t, u)
    ensures tb.p == p && tb.methods == methods && TableRight(tb, T)
    ensures var k := KeyOf(p, t); k in tb.names && k in tb.owner && tb.owner[k] == t && first == Call(tb.names[k])
    ensures first == second
  {
    var router := new Router(p, T);
    first := router.Value(t, {});
    second := router.Value(u, {});
    methods := Collect(router.pending);
    CollectedRight(p, T, router.names, router.counter, router.owner, router.order, router.pending);
    tb := Table(p, router.names, router.owner, methods);
  }

  /** Code that decodes the first type is wrong for the second. */
  lemma NotAlike(p: Program, methods: map<Name, Code>, code: Code, w: bytes)
    requires Clashes(p) && WellFormed(p) && Known(p, FIRST) && Known(p, SECOND)
    requires Decodes(p, FIRST, methods, code) && w == BigEndian(32, 2)
    ensures Run(methods, code, OneWord(w), 0, 2, OutOfBounds) == Ok(Seq([Seq([Num(2)])]))
    ensures Inline(p, SECOND, OneWord(w), 0, 2, OutOfBounds) == Err(BadPadding)
  {
    TwoIsNoBool(w, 32);
    InlineOne(p, 1, UInt(32), w, OutOfBounds);
    InlineOne(p, 2, Bool, w, OutOfBounds);
  }

  /** The type that registered the name decodes right. */
  lemma FirstWins(tb: Table, T: set<TyRef>)
    requires Clashes(tb.p) && TableRight(tb, T) && Known(tb.p, FIRST)
    requires var k := KeyOf(tb.p, FIRST); k in tb.names && k in tb.owner && tb.owner[k] == FIRST
    ensures Decodes(tb.p, FIRST, tb.methods, Call(tb.names[KeyOf(tb.p, FIRST)]))
  {
    ClashFacts(tb.p);
    var own := {FIRST, Struct(1)};
    OwnInside(own);
    assert forall t :: t in own && t.Dyn? ==> t == FIRST;
    OwnersLinked(tb, T, own);
    LinkedDecodes(tb, own, FIRST);
  }

  lemma OwnInside(own: set<TyRef>)
    requires own == {FIRST, Struct(1)}
    ensures forall t :: t in own ==> Inside(own, t)
  {
    assert Inside(own, Struct(1)) && Inside(own, FIRST);
  }

  /** Types that registered their own keys need not fear the others. */
  lemma OwnersLinked(tb: Table, T: set<TyRef>, own: set<TyRef>)
    requires TableRight(tb, T) && Closed(tb.p, own)
    requires forall t :: t in own ==> Inside(own, t)
    requires forall t :: t in own && CalledBy(tb, t) && t.Dyn? ==> tb.owner[KeyOf(tb.p, t)] == t
    ensures Linked(tb, own)
  {
    forall t | t in own && CalledBy(tb, t)
      ensures EntryFor(tb, own, t)
    {
      assert EntryRight(tb, T, KeyOf(tb.p, t));
      assert tb.owner[KeyOf(tb.p, t)] == t;
    }
  }
}
