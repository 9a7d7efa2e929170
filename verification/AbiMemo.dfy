/** Decoding through shared methods: one generated method per struct and per dynamic array
type. Types refer to structs by declaration, so they may be recursive. */
module AbiMemo {
  import opened Bytes
  import opened AbiSpec
  import opened AbiDecoder

  datatype TyRef =
    | Leafy(l: Leaf)
    | Blob                                   // bytes and string
    | Fixed(e: TyRef, k: nat)
    | Dyn(e: TyRef)
    | Struct(id: nat)
    | Tup(ts: seq<TyRef>)

  /** Struct definitions, the canonical names of types, and the compiler's facts about
  calldata layout. */
  datatype Program = Program(
    defs: map<nat, seq<TyRef>>,
    canonical: TyRef -> string,
    headSize: TyRef -> nat,
    dynamic: TyRef -> bool)

  datatype Key = StructKey(id: nat) | ArrayKey(name: string)
  datatype Name = StructName(id: nat) | ArrayName(n: nat)

  function KeyOf(p: Program, t: TyRef): Key
    requires t.Struct? || t.Dyn?
  {
    if t.Struct? then StructKey(t.id) else ArrayKey(p.canonical(t))
  }

  predicate Known(p: Program, t: TyRef) {
    match t
    case Leafy(l) => LeafOk(l)
    case Blob => true
    case Fixed(e, _) => Known(p, e)
    case Dyn(e) => Known(p, e)
    case Struct(id) => id in p.defs
    case Tup(ts) => forall i :: 0 <= i < |ts| ==> Known(p, ts[i])
  }

  predicate AllKnown(p: Program, ts: seq<TyRef>) {
    forall i :: 0 <= i < |ts| ==> Known(p, ts[i])
  }

  predicate WellFormed(p: Program) {
    forall id :: id in p.defs ==> AllKnown(p, p.defs[id])
  }

  // ---- generated code ---------------------------------------------------------------

  /** Code that decodes a value at a start position. An item also carries what `head` needs. */
  datatype Code =
    | Load(l: Leaf)
    | LoadBytes
    | Unroll(item: Item, k: nat)
    | Loop(item: Item)
    | Fields(items: seq<Item>)
    | Call(name: Name)

  datatype Item = Item(dynamic: bool, headSize: nat, code: Code)

  /** Run a decoder. `methods` are the generated methods; `depth` bounds how deep calls may
  nest, and `deep` is the fault when they nest deeper. */
  function Run(methods: map<Name, Code>, code: Code, blob: bytes, start: nat, depth: nat, deep: Fault): Result<Val>
    requires CodeOk(code) && MethodsOk(methods)
    decreases depth, code, 1
  {
    match code
    case Load(l) =>
      var w :- Fetch(blob, start, 32);
      DecLeaf(l, w)
    case LoadBytes =>
      var count :- FetchSmall(blob, start);
      if count > MAX_COUNT then Err(ExceedsUint16) else
      var data :- Plus(start, 32);
      var raw :- Fetch(blob, data, count);
      Ok(Raw(raw))
    case Unroll(item, k) =>
      var items :- RunEach(methods, item, blob, start, 0, k, depth, deep);
      Ok(Seq(items))
    case Loop(item) =>
      var count :- FetchSmall(blob, start);
      if count > MAX_COUNT then Err(ExceedsUint16) else
      var base :- Plus(start, 32);
      var items :- RunEach(methods, item, blob, base, 0, count, depth, deep);
      Ok(Seq(items))
    case Fields(items) =>
      var vals :- RunItems(methods, items, blob, start, 0, depth, deep);
      Ok(Seq(vals))
    case Call(name) =>
      if depth == 0 || name !in methods then Err(deep)
      else Run(methods, methods[name], blob, start, depth - 1, deep)
  }

  function RunHead(methods: map<Name, Code>, item: Item, blob: bytes, base: nat, pos: nat, depth: nat,
                   deep: Fault): Result<Val>
    requires ItemOk(item) && MethodsOk(methods)
    decreases depth, item, 2
  {
    if !item.dynamic then Run(methods, item.code, blob, pos, depth, deep) else
    var offset :- FetchSmall(blob, pos);
    if offset % 32 != 0 then Err(UnalignedOffset) else
    var start :- Plus(base, offset);
    Run(methods, item.code, blob, start, depth, deep)
  }

  function RunEach(methods: map<Name, Code>, item: Item, blob: bytes, base: nat, i: nat, n: nat, depth: nat,
                   deep: Fault): Result<seq<Val>>
    requires ItemOk(item) && MethodsOk(methods) && i <= n
    decreases depth, item, 3, n - i
  {
    if i == n then Ok([]) else
    var skip :- Times(i, item.headSize);
    var pos :- Plus(base, skip);
    var v :- RunHead(methods, item, blob, base, pos, depth, deep);
    var rest :- RunEach(methods, item, blob, base, i + 1, n, depth, deep);
    Ok([v] + rest)
  }

  function RunItems(methods: map<Name, Code>, items: seq<Item>, blob: bytes, base: nat, cursor: nat,
                    depth: nat, deep: Fault): Result<seq<Val>>
    requires ItemsOk(items) && MethodsOk(methods)
    decreases depth, items, 0
  {
    if items == [] then Ok([]) else
    var pos :- Plus(base, cursor);
    var v :- RunHead(methods, items[0], blob, base, pos, depth, deep);
    var rest :- RunItems(methods, items[1..], blob, base, cursor + items[0].headSize, depth, deep);
    Ok([v] + rest)
  }

  predicate CodeOk(code: Code)
    decreases code, 0
  {
    match code
    case Load(l) => LeafOk(l)
    case LoadBytes => true
    case Unroll(item, _) => ItemOk(item)
    case Loop(item) => ItemOk(item)
    case Fields(items) => ItemsOk(items)
    case Call(_) => true
  }

  predicate ItemsOk(items: seq<Item>)
    decreases items, 0
  {
    forall i :: 0 <= i < |items| ==> ItemOk(items[i])
  }

  predicate ItemOk(item: Item)
    decreases item, 1
  {
    CodeOk(item.code)
  }

  predicate MethodsOk(methods: map<Name, Code>) {
    forall name :: name in methods ==> CodeOk(methods[name])
  }

  // ---- inline decoding ----------------------------------------------------------------

  /** The decoder with every struct and array written out where it is used. */
  function Inline(p: Program, t: TyRef, blob: bytes, start: nat, depth: nat, deep: Fault): Result<Val>
    requires WellFormed(p) && Known(p, t)
    decreases depth, t, 1
  {
    match t
    case Leafy(l) =>
      var w :- Fetch(blob, start, 32);
      DecLeaf(l, w)
    case Blob =>
      var count :- FetchSmall(blob, start);
      if count > MAX_COUNT then Err(ExceedsUint16) else
      var data :- Plus(start, 32);
      var raw :- Fetch(blob, data, count);
      Ok(Raw(raw))
    case Fixed(e, k) =>
      var items :- InlineEach(p, e, blob, start, 0, k, depth, deep);
      Ok(Seq(items))
    case Dyn(e) =>
      if depth == 0 then Err(deep) else
      var count :- FetchSmall(blob, start);
      if count > MAX_COUNT then Err(ExceedsUint16) else
      var base :- Plus(start, 32);
      var items :- InlineEach(p, e, blob, base, 0, count, depth - 1, deep);
      Ok(Seq(items))
    case Struct(id) =>
      if depth == 0 then Err(deep) else
      var vals :- InlineItems(p, p.defs[id], blob, start, 0, depth - 1, deep);
      Ok(Seq(vals))
    case Tup(ts) =>
      var vals :- InlineItems(p, ts, blob, start, 0, depth, deep);
      Ok(Seq(vals))
  }

  function InlineHead(p: Program, t: TyRef, blob: bytes, base: nat, pos: nat, depth: nat, deep: Fault): Result<Val>
    requires WellFormed(p) && Known(p, t)
    decreases depth, t, 2
  {
    if !p.dynamic(t) then Inline(p, t, blob, pos, depth, deep) else
    var offset :- FetchSmall(blob, pos);
    if offset % 32 != 0 then Err(UnalignedOffset) else
    var start :- Plus(base, offset);
    Inline(p, t, blob, start, depth, deep)
  }

  function InlineEach(p: Program, e: TyRef, blob: bytes, base: nat, i: nat, n: nat, depth: nat,
                      deep: Fault): Result<seq<Val>>
    requires WellFormed(p) && Known(p, e) && i <= n
    decreases depth, e, 3, n - i
  {
    if i == n then Ok([]) else
    var skip :- Times(i, p.headSize(e));
    var pos :- Plus(base, skip);
    var v :- InlineHead(p, e, blob, base, pos, depth, deep);
    var rest :- InlineEach(p, e, blob, base, i + 1, n, depth, deep);
    Ok([v] + rest)
  }

  function InlineItems(p: Program, ts: seq<TyRef>, blob: bytes, base: nat, cursor: nat, depth: nat,
                       deep: Fault): Result<seq<Val>>
    requires WellFormed(p) && AllKnown(p, ts)
    decreases depth, ts, 0
  {
    if ts == [] then Ok([]) else
    var pos :- Plus(base, cursor);
    var v :- InlineHead(p, ts[0], blob, base, pos, depth, deep);
    var rest :- InlineItems(p, ts[1..], blob, base, cursor + p.headSize(ts[0]), depth, deep);
    Ok([v] + rest)
  }

  // ---- what is generated, given the registered names -------------------------------------

  /** Code for a use of t: structs and dynamic arrays are calls. */
  function CodeOf(p: Program, names: map<Key, Name>, t: TyRef): (code: Code)
    requires Known(p, t)
    ensures CodeOk(code)
    decreases t, 0
  {
    match t
    case Leafy(l) => Load(l)
    case Blob => LoadBytes
    case Fixed(e, k) => Unroll(ItemOf(p, names, e), k)
    case Tup(ts) => Fields(ItemsOf(p, names, ts))
    case Dyn(_) => if KeyOf(p, t) in names then Call(names[KeyOf(p, t)]) else LoadBytes
    case Struct(_) => if KeyOf(p, t) in names then Call(names[KeyOf(p, t)]) else LoadBytes
  }

  function ItemOf(p: Program, names: map<Key, Name>, t: TyRef): (item: Item)
    requires Known(p, t)
    ensures ItemOk(item)
    decreases t, 1
  {
    Item(p.dynamic(t), p.headSize(t), CodeOf(p, names, t))
  }

  function ItemsOf(p: Program, names: map<Key, Name>, ts: seq<TyRef>): (items: seq<Item>)
    requires AllKnown(p, ts)
    ensures ItemsOk(items) && |items| == |ts|
    decreases ts, 0
  {
    if ts == [] then [] else [ItemOf(p, names, ts[0])] + ItemsOf(p, names, ts[1..])
  }

  /** The body of the method for t. */
  function BodyOf(p: Program, names: map<Key, Name>, t: TyRef): (code: Code)
    requires WellFormed(p) && Known(p, t) && (t.Struct? || t.Dyn?)
    ensures CodeOk(code)
  {
    if t.Struct? then Fields(ItemsOf(p, names, p.defs[t.id])) else Loop(ItemOf(p, names, t.e))
  }

  /** The keys that the code for t calls. */
  function Uses(p: Program, t: TyRef): set<Key>
    decreases t, 0
  {
    match t
    case Fixed(e, _) => Uses(p, e)
    case Tup(ts) => UsesAll(p, ts)
    case Dyn(_) => {KeyOf(p, t)}
    case Struct(_) => {KeyOf(p, t)}
    case _ => {}
  }

  function UsesAll(p: Program, ts: seq<TyRef>): set<Key>
    decreases ts, 0
  {
    if ts == [] then {} else Uses(p, ts[0]) + UsesAll(p, ts[1..])
  }

  function BodyUses(p: Program, t: TyRef): set<Key>
    requires WellFormed(p) && Known(p, t) && (t.Struct? || t.Dyn?)
  {
    if t.Struct? then UsesAll(p, p.defs[t.id]) else Uses(p, t.e)
  }

  // ---- the types that occur ----------------------------------------------------------

  /** The structs and dynamic arrays in t, but not inside its structs, are among T. */
  predicate Inside(T: set<TyRef>, t: TyRef) {
    match t
    case Fixed(e, _) => Inside(T, e)
    case Tup(ts) => forall i :: 0 <= i < |ts| ==> Inside(T, ts[i])
    case Dyn(e) => t in T && Inside(T, e)
    case Struct(_) => t in T
    case _ => true
  }

  predicate AllInside(T: set<TyRef>, ts: seq<TyRef>) {
    forall i :: 0 <= i < |ts| ==> Inside(T, ts[i])
  }

  /** T has the types of the fields of its structs. */
  predicate Closed(p: Program, T: set<TyRef>) {
    forall id :: Struct(id) in T && id in p.defs ==> AllInside(T, p.defs[id])
  }

  /** The two types decode alike, wherever and however deep. */
  ghost predicate Agree(p: Program, t: TyRef, u: TyRef)
    requires WellFormed(p) && Known(p, t) && Known(p, u)
  {
    forall blob, start, depth, deep ::
      Inline(p, t, blob, start, depth, deep) == Inline(p, u, blob, start, depth, deep)
  }

  /** Array types of T with one canonical name decode alike. */
  ghost predicate Alike(p: Program, T: set<TyRef>)
    requires WellFormed(p)
  {
    forall t, u :: t in T && u in T && SameName(p, t, u) ==> Agree(p, t, u)
  }

  predicate SameName(p: Program, t: TyRef, u: TyRef) {
    t.Dyn? && u.Dyn? && Known(p, t) && Known(p, u) && p.canonical(t) == p.canonical(u)
  }

  /** What generation leaves behind: the registered names, the type that registered each key,
  and the methods. */
  datatype Table = Table(p: Program, names: map<Key, Name>, owner: map<Key, TyRef>, methods: map<Name, Code>)

  /** Every registered key has a method whose body is the decoder of the type that
  registered it, one of T, and whose calls are registered. */
  ghost predicate TableRight(tb: Table, T: set<TyRef>) {
    && WellFormed(tb.p) && Closed(tb.p, T) && MethodsOk(tb.methods)
    && forall k :: k in tb.names ==> EntryRight(tb, T, k)
  }

  predicate EntryRight(tb: Table, T: set<TyRef>, k: Key)
    requires WellFormed(tb.p) && k in tb.names
  {
    && k in tb.owner && Owns(tb.p, tb.owner[k], k) && Inside(T, tb.owner[k])
    && tb.names[k] in tb.methods && tb.methods[tb.names[k]] == BodyOf(tb.p, tb.names, tb.owner[k])
    && BodyUses(tb.p, tb.owner[k]) <= tb.names.Keys
  }

  predicate Owns(p: Program, t: TyRef, k: Key) {
    (t.Struct? || t.Dyn?) && Known(p, t) && KeyOf(p, t) == k
  }

  /** The same, seen from the types: the method that a use of t calls is the decoder of a type
  that decodes like t. */
  ghost predicate Linked(tb: Table, T: set<TyRef>) {
    && WellFormed(tb.p) && Closed(tb.p, T) && MethodsOk(tb.methods)
    && forall t :: t in T && CalledBy(tb, t) ==> EntryFor(tb, T, t)
  }

  predicate CalledBy(tb: Table, t: TyRef) {
    (t.Struct? || t.Dyn?) && Known(tb.p, t) && KeyOf(tb.p, t) in tb.names
  }

  ghost predicate EntryFor(tb: Table, T: set<TyRef>, t: TyRef)
    requires WellFormed(tb.p) && CalledBy(tb, t)
  {
    var k := KeyOf(tb.p, t);
    EntryRight(tb, T, k) && Agree(tb.p, tb.owner[k], t)
  }

  lemma RightIsLinked(tb: Table, T: set<TyRef>)
    requires TableRight(tb, T) && Alike(tb.p, T)
    ensures Linked(tb, T)
  {
    forall t | t in T && CalledBy(tb, t)
      ensures EntryFor(tb, T, t)
    {
      var k := KeyOf(tb.p, t);
      assert EntryRight(tb, T, k);
      var w := tb.owner[k];
      if t.Dyn? {
        assert SameName(tb.p, w, t);
      } else {
        assert w == t;
      }
    }
  }

  // ---- memoized decoding is inline decoding ------------------------------------------------

  /** MEMOIZED DECODING IS INLINE DECODING, wherever the method that a name stands for is the
  decoder of a type that decodes like the one in question. */
  lemma {:induction false} RunIsInline(tb: Table, T: set<TyRef>,
                                       t: TyRef, blob: bytes, start: nat, depth: nat, deep: Fault)
    requires Linked(tb, T)
    requires Known(tb.p, t) && Inside(T, t) && Uses(tb.p, t) <= tb.names.Keys
    ensures Run(tb.methods, CodeOf(tb.p, tb.names, t), blob, start, depth, deep)
         == Inline(tb.p, t, blob, start, depth, deep)
    decreases depth, t, 1
  {
    match t
    case Leafy(_) =>
    case Blob =>
    case Fixed(e, k) => EachIsInline(tb, T, e, blob, start, 0, k, depth, deep);
    case Tup(ts) => ItemsAreInline(tb, T, ts, blob, start, 0, depth, deep);
    case Dyn(_) =>
      if depth > 0 {
        CallIsInline(tb, T, t, blob, start, depth, deep);
      }
    case Struct(_) =>
      if depth > 0 {
        CallIsInline(tb, T, t, blob, start, depth, deep);
      }
  }

  lemma {:induction false} CallIsInline(tb: Table, T: set<TyRef>,
                                        t: TyRef, blob: bytes, start: nat, depth: nat, deep: Fault)
    requires Linked(tb, T)
    requires t in T && CalledBy(tb, t) && depth > 0
    ensures Run(tb.methods, Call(tb.names[KeyOf(tb.p, t)]), blob, start, depth, deep)
         == Inline(tb.p, t, blob, start, depth, deep)
    decreases depth, t, 0
  {
    assert EntryFor(tb, T, t);
    var w := tb.owner[KeyOf(tb.p, t)];
    assert Inline(tb.p, w, blob, start, depth, deep) == Inline(tb.p, t, blob, start, depth, deep);
    if w.Struct? {
      ItemsAreInline(tb, T, tb.p.defs[w.id], blob, start, 0, depth - 1, deep);
    } else {
      var count := FetchSmall(blob, start);
      if count.Ok? && count.value <= MAX_COUNT {
        var base := Plus(start, 32);
        if base.Ok? {
          EachIsInline(tb, T, w.e, blob, base.value, 0, count.value, depth - 1, deep);
        }
      }
    }
  }

  lemma {:induction false} HeadIsInline(tb: Table, T: set<TyRef>,
                                        t: TyRef, blob: bytes, base: nat, pos: nat, depth: nat, deep: Fault)
    requires Linked(tb, T)
    requires Known(tb.p, t) && Inside(T, t) && Uses(tb.p, t) <= tb.names.Keys
    ensures RunHead(tb.methods, ItemOf(tb.p, tb.names, t), blob, base, pos, depth, deep)
         == InlineHead(tb.p, t, blob, base, pos, depth, deep)
    decreases depth, t, 2
  {
    if !tb.p.dynamic(t) {
      RunIsInline(tb, T, t, blob, pos, depth, deep);
    } else {
      var offset := FetchSmall(blob, pos);
      if offset.Ok? && Plus(base, offset.value).Ok? {
        RunIsInline(tb, T, t, blob, base + offset.value, depth, deep);
      }
    }
  }

  lemma {:induction false} EachIsInline(tb: Table, T: set<TyRef>,
                                        e: TyRef, blob: bytes, base: nat, i: nat, n: nat, depth: nat, deep: Fault)
    requires Linked(tb, T)
    requires Known(tb.p, e) && Inside(T, e) && Uses(tb.p, e) <= tb.names.Keys && i <= n
    ensures RunEach(tb.methods, ItemOf(tb.p, tb.names, e), blob, base, i, n, depth, deep)
         == InlineEach(tb.p, e, blob, base, i, n, depth, deep)
    decreases depth, e, 3, n - i
  {
    if i < n {
      var skip := Times(i, tb.p.headSize(e));
      if skip.Ok? && Plus(base, skip.value).Ok? {
        HeadIsInline(tb, T, e, blob, base, base + skip.value, depth, deep);
      }
      EachIsInline(tb, T, e, blob, base, i + 1, n, depth, deep);
    }
  }

  lemma {:induction false} ItemsAreInline(tb: Table, T: set<TyRef>,
                                          ts: seq<TyRef>, blob: bytes, base: nat, cursor: nat, depth: nat, deep: Fault)
    requires Linked(tb, T)
    requires AllKnown(tb.p, ts) && AllInside(T, ts) && UsesAll(tb.p, ts) <= tb.names.Keys
    ensures RunItems(tb.methods, ItemsOf(tb.p, tb.names, ts), blob, base, cursor, depth, deep)
         == InlineItems(tb.p, ts, blob, base, cursor, depth, deep)
    decreases depth, ts, 0
  {
    if ts != [] {
      var items := ItemsOf(tb.p, tb.names, ts);
      assert items[0] == ItemOf(tb.p, tb.names, ts[0]) && items[1..] == ItemsOf(tb.p, tb.names, ts[1..]);
      if Plus(base, cursor).Ok? {
        HeadIsInline(tb, T, ts[0], blob, base, base + cursor, depth, deep);
      }
      ItemsAreInline(tb, T, ts[1..], blob, base, cursor + tb.p.headSize(ts[0]), depth, deep);
    }
  }

  // ---- inline decoding of non-recursive types is the decoder --------------------------------

  /** Every struct in t has a rank below r, and its fields rank below it. */
  predicate Below(p: Program, rank: map<nat, nat>, t: TyRef, r: nat) {
    match t
    case Fixed(e, _) => Below(p, rank, e, r)
    case Dyn(e) => Below(p, rank, e, r)
    case Tup(ts) => forall i :: 0 <= i < |ts| ==> Below(p, rank, ts[i], r)
    case Struct(id) => id in p.defs && id in rank && rank[id] < r
    case _ => true
  }

  predicate AllBelow(p: Program, rank: map<nat, nat>, ts: seq<TyRef>, r: nat) {
    forall i :: 0 <= i < |ts| ==> Below(p, rank, ts[i], r)
  }

  predicate Ranked(p: Program, rank: map<nat, nat>) {
    WellFormed(p) && forall id :: id in p.defs && id in rank ==> AllBelow(p, rank, p.defs[id], rank[id])
  }

  /** t with its structs written out. */
  function Resolve(p: Program, rank: map<nat, nat>, t: TyRef, r: nat): (ty: Ty)
    requires Ranked(p, rank) && Known(p, t) && Below(p, rank, t, r)
    ensures TyOk(ty)
    decreases r, t, 0
  {
    match t
    case Leafy(l) => Word(l)
    case Blob => ByteString
    case Fixed(e, k) => FixedArray(Resolve(p, rank, e, r), k)
    case Dyn(e) => DynArray(Resolve(p, rank, e, r))
    case Struct(id) => Tuple(ResolveAll(p, rank, p.defs[id], rank[id]))
    case Tup(ts) => Tuple(ResolveAll(p, rank, ts, r))
  }

  function ResolveAll(p: Program, rank: map<nat, nat>, ts: seq<TyRef>, r: nat): (tys: seq<Ty>)
    requires Ranked(p, rank) && AllKnown(p, ts) && AllBelow(p, rank, ts, r)
    ensures |tys| == |ts| && AllOk(tys)
    decreases r, ts, 0
  {
    if ts == [] then [] else [Resolve(p, rank, ts[0], r)] + ResolveAll(p, rank, ts[1..], r)
  }

  /** How deep the calls for t nest. */
  function Height(p: Program, rank: map<nat, nat>, t: TyRef, r: nat): nat
    requires Ranked(p, rank) && Known(p, t) && Below(p, rank, t, r)
    decreases r, t, 0
  {
    match t
    case Fixed(e, _) => Height(p, rank, e, r)
    case Dyn(e) => 1 + Height(p, rank, e, r)
    case Struct(id) => 1 + HeightAll(p, rank, p.defs[id], rank[id])
    case Tup(ts) => HeightAll(p, rank, ts, r)
    case _ => 0
  }

  function HeightAll(p: Program, rank: map<nat, nat>, ts: seq<TyRef>, r: nat): nat
    requires Ranked(p, rank) && AllKnown(p, ts) && AllBelow(p, rank, ts, r)
    decreases r, ts, 0
  {
    if ts == [] then 0 else Max(Height(p, rank, ts[0], r), HeightAll(p, rank, ts[1..], r))
  }

  function Max(a: nat, b: nat): nat { if a < b then b else a }

  /** The compiler's layout facts are those of the resolved types. */
  ghost predicate LayoutRight(p: Program, rank: map<nat, nat>)
    requires Ranked(p, rank)
  {
    forall t: TyRef, r: nat :: Known(p, t) && Below(p, rank, t, r) ==> LaidOut(p, rank, t, r)
  }

  predicate LaidOut(p: Program, rank: map<nat, nat>, t: TyRef, r: nat)
    requires Ranked(p, rank) && Known(p, t) && Below(p, rank, t, r)
  {
    var ty := Resolve(p, rank, t, r);
    p.headSize(t) == HeadSize(ty) && p.dynamic(t) == Dynamic(ty)
  }

  lemma {:induction false} InlineIsDecoder(p: Program, rank: map<nat, nat>, t: TyRef, r: nat, blob: bytes,
                                           start: nat, depth: nat, deep: Fault)
    requires Ranked(p, rank) && LayoutRight(p, rank) && Known(p, t) && Below(p, rank, t, r)
    requires Height(p, rank, t, r) <= depth
    ensures Inline(p, t, blob, start, depth, deep) == DecBody(Resolve(p, rank, t, r), blob, start)
    decreases depth, t, 1
  {
    match t
    case Fixed(e, k) => EachIsDecoder(p, rank, e, r, blob, start, 0, k, depth, deep);
    case Dyn(e) =>
      var count := FetchSmall(blob, start);
      if count.Ok? && Plus(start, 32).Ok? {
        EachIsDecoder(p, rank, e, r, blob, start + 32, 0, count.value, depth - 1, deep);
      }
    case Struct(id) => ItemsAreDecoder(p, rank, p.defs[id], rank[id], blob, start, 0, depth - 1, deep);
    case Tup(ts) => ItemsAreDecoder(p, rank, ts, r, blob, start, 0, depth, deep);
    case _ =>
  }

  lemma {:induction false} InlineHeadIsDecoder(p: Program, rank: map<nat, nat>, t: TyRef, r: nat, blob: bytes,
                                               base: nat, pos: nat, depth: nat, deep: Fault)
    requires Ranked(p, rank) && LayoutRight(p, rank) && Known(p, t) && Below(p, rank, t, r)
    requires Height(p, rank, t, r) <= depth
    ensures InlineHead(p, t, blob, base, pos, depth, deep) == DecHead(Resolve(p, rank, t, r), blob, base, pos)
    decreases depth, t, 2
  {
    assert LaidOut(p, rank, t, r);
    forall start: nat
      ensures Inline(p, t, blob, start, depth, deep) == DecBody(Resolve(p, rank, t, r), blob, start)
    {
      InlineIsDecoder(p, rank, t, r, blob, start, depth, deep);
    }
    HeadsAgree(p, t, Resolve(p, rank, t, r), blob, base, pos, depth, deep);
  }

  lemma HeadsAgree(p: Program, t: TyRef, ty: Ty, blob: bytes, base: nat, pos: nat, depth: nat, deep: Fault)
    requires WellFormed(p) && Known(p, t) && TyOk(ty) && p.dynamic(t) == Dynamic(ty)
    requires forall start: nat :: Inline(p, t, blob, start, depth, deep) == DecBody(ty, blob, start)
    ensures InlineHead(p, t, blob, base, pos, depth, deep) == DecHead(ty, blob, base, pos)
  {
  }

  lemma {:induction false} EachIsDecoder(p: Program, rank: map<nat, nat>, e: TyRef, r: nat, blob: bytes,
                                         base: nat, i: nat, n: nat, depth: nat, deep: Fault)
    requires Ranked(p, rank) && LayoutRight(p, rank) && Known(p, e) && Below(p, rank, e, r) && i <= n
    requires Height(p, rank, e, r) <= depth
    ensures InlineEach(p, e, blob, base, i, n, depth, deep) == DecElems(Resolve(p, rank, e, r), blob, base, i, n)
    decreases depth, e, 3, n - i
  {
    if i < n {
      assert LaidOut(p, rank, e, r);
      var skip := Times(i, p.headSize(e));
      if skip.Ok? && Plus(base, skip.value).Ok? {
        InlineHeadIsDecoder(p, rank, e, r, blob, base, base + skip.value, depth, deep);
      }
      EachIsDecoder(p, rank, e, r, blob, base, i + 1, n, depth, deep);
    }
  }

  function Prepend(v: Result<Val>, rest: Result<seq<Val>>): Result<seq<Val>> {
    var first :- v;
    var others :- rest;
    Ok([first] + others)
  }

  lemma InlineItemsStep(p: Program, ts: seq<TyRef>, blob: bytes, base: nat, cursor: nat, depth: nat, deep: Fault)
    requires WellFormed(p) && AllKnown(p, ts) && ts != []
    ensures InlineItems(p, ts, blob, base, cursor, depth, deep) ==
              if base + cursor >= TWO_64 then Err(Overflow)
              else Prepend(InlineHead(p, ts[0], blob, base, base + cursor, depth, deep),
                           InlineItems(p, ts[1..], blob, base, cursor + p.headSize(ts[0]), depth, deep))
  {
  }

  lemma DecItemsStep(t: Ty, rest: seq<Ty>, blob: bytes, base: nat, cursor: nat)
    requires TyOk(t) && AllOk(rest)
    ensures AllOk([t] + rest)
    ensures DecItems([t] + rest, blob, base, cursor) ==
              if base + cursor >= TWO_64 then Err(Overflow)
              else Prepend(DecHead(t, blob, base, base + cursor),
                           DecItems(rest, blob, base, cursor + HeadSize(t)))
  {
    assert ([t] + rest)[1..] == rest;
  }

  lemma {:induction false} ItemsAreDecoder(p: Program, rank: map<nat, nat>, ts: seq<TyRef>, r: nat,
                                           blob: bytes, base: nat, cursor: nat, depth: nat, deep: Fault)
    requires Ranked(p, rank) && LayoutRight(p, rank) && AllKnown(p, ts) && AllBelow(p, rank, ts, r)
    requires HeightAll(p, rank, ts, r) <= depth
    ensures InlineItems(p, ts, blob, base, cursor, depth, deep)
         == DecItems(ResolveAll(p, rank, ts, r), blob, base, cursor)
    decreases depth, ts, 0
  {
    if ts != [] {
      assert LaidOut(p, rank, ts[0], r);
      InlineItemsStep(p, ts, blob, base, cursor, depth, deep);
      DecItemsStep(Resolve(p, rank, ts[0], r), ResolveAll(p, rank, ts[1..], r), blob, base, cursor);
      if base + cursor < TWO_64 {
        InlineHeadIsDecoder(p, rank, ts[0], r, blob, base, base + cursor, depth, deep);
      }
      ItemsAreDecoder(p, rank, ts[1..], r, blob, base, cursor + p.headSize(ts[0]), depth, deep);
    }
  }
}
