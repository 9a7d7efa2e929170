/** Generation of the shared decode methods: names are registered before bodies are built, so
recursive types end the recursion, and every name that is called is defined exactly once. */
module AbiRouter {
  import opened AbiMemo

  type Names = map<Key, Name>

  predicate Extends(before: Names, after: Names) {
    forall k :: k in before ==> k in after && after[k] == before[k]
  }

  /** The keys under which types of T may be registered. */
  function Keys(p: Program, T: set<TyRef>): set<Key> {
    set t | t in T && (t.Struct? || t.Dyn?) :: KeyOf(p, t)
  }

  /** t is the first type to ask for its key. */
  predicate Fresh(p: Program, t: TyRef, names: Names) {
    (t.Struct? || t.Dyn?) && KeyOf(p, t) !in names
  }

  predicate DistinctNames(names: Names, counter: nat) {
    && (forall k :: k in names && k.StructKey? ==> names[k] == StructName(k.id))
    && (forall k :: k in names && k.ArrayKey? ==> names[k].ArrayName? && names[k].n < counter)
    && (forall j, k :: j in names && k in names && names[j] == names[k] ==> j == k)
  }

  predicate Distinct(order: seq<Key>) {
    forall i, j :: 0 <= i < j < |order| ==> order[i] != order[j]
  }

  predicate OwnersRight(p: Program, T: set<TyRef>, names: Names, owner: map<Key, TyRef>) {
    owner.Keys == names.Keys && forall k :: k in owner ==> Owns(p, owner[k], k) && Inside(T, owner[k])
  }

  predicate MethodRight(p: Program, names: Names, k: Key, t: TyRef, m: (Name, Code))
    requires WellFormed(p) && Owns(p, t, k)
  {
    k in names && m == (names[k], BodyOf(p, names, t)) && BodyUses(p, t) <= names.Keys
  }

  ghost predicate KeepsOwners(before: map<Key, TyRef>, after: map<Key, TyRef>) {
    forall k :: k in before ==> k in after && after[k] == before[k]
  }

  /** The tables are right; `open` are the registered keys whose bodies are being built. */
  ghost predicate TablesRight(p: Program, T: set<TyRef>, names: Names, counter: nat, owner: map<Key, TyRef>,
                              order: seq<Key>, pending: seq<(Name, Code)>, open: set<Key>)
  {
    && WellFormed(p) && Closed(p, T) && names.Keys <= Keys(p, T)
    && OwnersRight(p, T, names, owner) && DistinctNames(names, counter)
    && OrderRight(names, order, open) && MethodsRight(p, names, owner, order, pending)
  }

  ghost predicate OrderRight(names: Names, order: seq<Key>, open: set<Key>) {
    && Distinct(order)
    && (forall k :: k in names <==> k in open || k in order)
    && (forall k :: k in open ==> k !in order)
  }

  ghost predicate MethodsRight(p: Program, names: Names, owner: map<Key, TyRef>, order: seq<Key>,
                               pending: seq<(Name, Code)>)
    requires WellFormed(p)
  {
    |order| == |pending| && forall i :: 0 <= i < |order| ==>
      order[i] in owner && Owns(p, owner[order[i]], order[i])
      && MethodRight(p, names, order[i], owner[order[i]], pending[i])
  }

  lemma RegisterNames(names: Names, counter: nat, key: Key, name: Name, counter1: nat)
    requires DistinctNames(names, counter) && key !in names && counter <= counter1
    requires key.StructKey? ==> name == StructName(key.id)
    requires key.ArrayKey? ==> name == ArrayName(counter) && counter < counter1
    ensures DistinctNames(names[key := name], counter1)
  {
  }

  lemma RegisterSmaller(all: set<Key>, names: Names, names1: Names, key: Key, name: Name)
    requires key in all && key !in names && names1 == names[key := name]
    ensures all - names1.Keys < all - names.Keys && Extends(names, names1)
  {
    assert key in all - names.Keys;
  }

  lemma NoLarger(all: set<Key>, n0: Names, n1: Names)
    requires Extends(n0, n1)
    ensures all - n1.Keys <= all - n0.Keys
  {
  }

  lemma Grown(n0: Names, n1: Names, n2: Names, o0: map<Key, TyRef>, o1: map<Key, TyRef>, o2: map<Key, TyRef>)
    requires Extends(n0, n1) && Extends(n1, n2) && KeepsOwners(o0, o1) && KeepsOwners(o1, o2)
    ensures Extends(n0, n2) && KeepsOwners(o0, o2)
  {
  }

  lemma RegisterMethods(p: Program, names: Names, owner: map<Key, TyRef>, order: seq<Key>,
                        pending: seq<(Name, Code)>, key: Key, t: TyRef, name: Name)
    requires WellFormed(p) && MethodsRight(p, names, owner, order, pending) && key !in names && key !in owner
    ensures MethodsRight(p, names[key := name], owner[key := t], order, pending)
  {
    forall i | 0 <= i < |order|
      ensures MethodRight(p, names[key := name], order[i], owner[order[i]], pending[i])
    {
      MethodStable(p, names, names[key := name], order[i], owner[order[i]], pending[i]);
    }
  }

  lemma RegisterTables(p: Program, T: set<TyRef>, names: Names, counter: nat, owner: map<Key, TyRef>,
                       order: seq<Key>, pending: seq<(Name, Code)>, open: set<Key>,
                       key: Key, t: TyRef, name: Name, counter1: nat)
    requires TablesRight(p, T, names, counter, owner, order, pending, open)
    requires key !in names && Owns(p, t, key) && Inside(T, t) && counter <= counter1
    requires key.StructKey? ==> name == StructName(key.id)
    requires key.ArrayKey? ==> name == ArrayName(counter) && counter < counter1
    ensures TablesRight(p, T, names[key := name], counter1, owner[key := t], order, pending, open + {key})
  {
    RegisterNames(names, counter, key, name, counter1);
    RegisterOrder(names, order, open, key, name);
    RegisterOwner(p, T, names, owner, key, t, name);
    RegisterMethods(p, names, owner, order, pending, key, t, name);
  }

  lemma RegisterOrder(names: Names, order: seq<Key>, open: set<Key>, key: Key, name: Name)
    requires OrderRight(names, order, open) && key !in names
    ensures OrderRight(names[key := name], order, open + {key})
  {
  }

  lemma RegisterOwner(p: Program, T: set<TyRef>, names: Names, owner: map<Key, TyRef>,
                      key: Key, t: TyRef, name: Name)
    requires OwnersRight(p, T, names, owner) && names.Keys <= Keys(p, T)
    requires Owns(p, t, key) && Inside(T, t)
    ensures OwnersRight(p, T, names[key := name], owner[key := t]) && names[key := name].Keys <= Keys(p, T)
  {
  }

  lemma DefineOrder(names: Names, order: seq<Key>, open: set<Key>, key: Key)
    requires OrderRight(names, order, open + {key}) && key !in open && key in names
    ensures OrderRight(names, order + [key], open)
  {
  }

  // ---- more names change no code ---------------------------------------------------------

  lemma {:induction false} CodeStable(p: Program, n0: Names, n1: Names, t: TyRef)
    requires Known(p, t) && Extends(n0, n1) && Uses(p, t) <= n0.Keys
    ensures CodeOf(p, n0, t) == CodeOf(p, n1, t)
    decreases t, 0
  {
    match t
    case Fixed(e, _) => CodeStable(p, n0, n1, e);
    case Tup(ts) => ItemsStable(p, n0, n1, ts);
    case _ =>
  }

  lemma {:induction false} ItemsStable(p: Program, n0: Names, n1: Names, ts: seq<TyRef>)
    requires AllKnown(p, ts) && Extends(n0, n1) && UsesAll(p, ts) <= n0.Keys
    ensures ItemsOf(p, n0, ts) == ItemsOf(p, n1, ts)
    decreases ts, 0
  {
    if ts != [] {
      CodeStable(p, n0, n1, ts[0]);
      ItemsStable(p, n0, n1, ts[1..]);
    }
  }

  lemma ItemsGrow(p: Program, n0: Names, n1: Names, ts: seq<TyRef>, first: Code)
    requires ts != [] && AllKnown(p, ts) && Extends(n0, n1) && Uses(p, ts[0]) <= n0.Keys
    requires first == CodeOf(p, n0, ts[0]) && UsesAll(p, ts[1..]) <= n1.Keys
    ensures UsesAll(p, ts) <= n1.Keys
    ensures [Item(p.dynamic(ts[0]), p.headSize(ts[0]), first)] + ItemsOf(p, n1, ts[1..]) == ItemsOf(p, n1, ts)
  {
    CodeStable(p, n0, n1, ts[0]);
  }

  lemma MethodStable(p: Program, n0: Names, n1: Names, k: Key, t: TyRef, m: (Name, Code))
    requires WellFormed(p) && Owns(p, t, k) && Extends(n0, n1) && MethodRight(p, n0, k, t, m)
    ensures MethodRight(p, n1, k, t, m)
  {
    if t.Struct? {
      ItemsStable(p, n0, n1, p.defs[t.id]);
    } else {
      CodeStable(p, n0, n1, t.e);
    }
  }

  // ---- the generator ---------------------------------------------------------------------

  class Router {
    const p: Program
    ghost const T: set<TyRef>
    var names: Names                       // evmDecodeStructMethods
    var pending: seq<(Name, Code)>         // pendingEvmDecodeMethods
    var counter: nat
    ghost var owner: map<Key, TyRef>       // the type that registered each key
    ghost var order: seq<Key>              // the key of each pending method

    ghost predicate Valid(open: set<Key>)
      reads this
    {
      TablesRight(p, T, names, counter, owner, order, pending, open)
    }

    constructor (p: Program, ghost T: set<TyRef>)
      requires WellFormed(p) && Closed(p, T)
      ensures Valid({}) && this.p == p && this.T == T && names == map[] && pending == []
    {
      this.p, this.T := p, T;
      names, pending, counter := map[], [], 0;
      owner, order := map[], [];
    }

    /** The decoder for a use of t. Names and methods are only ever added. */
    method Value(t: TyRef, ghost open: set<Key>) returns (code: Code)
      requires Valid(open) && Known(p, t) && Inside(T, t)
      modifies this
      ensures Valid(open) && Extends(old(names), names) && KeepsOwners(old(owner), owner)
      ensures Uses(p, t) <= names.Keys && code == CodeOf(p, names, t)
      ensures Fresh(p, t, old(names)) ==> KeyOf(p, t) in owner && owner[KeyOf(p, t)] == t
      decreases Keys(p, T) - names.Keys, 0, t, 2
    {
      match t
      case Leafy(l) => code := Load(l);
      case Blob => code := LoadBytes;
      case Fixed(e, k) =>
        var c := Value(e, open);
        code := Unroll(Item(p.dynamic(e), p.headSize(e), c), k);
      case Tup(ts) =>
        var items := Values(ts, open);
        code := Fields(items);
      case Dyn(_) => code := Shared(t, open);
      case Struct(_) => code := Shared(t, open);
    }

    method Values(ts: seq<TyRef>, ghost open: set<Key>) returns (items: seq<Item>)
      requires Valid(open) && AllKnown(p, ts) && AllInside(T, ts)
      modifies this
      ensures Valid(open) && Extends(old(names), names) && KeepsOwners(old(owner), owner)
      ensures UsesAll(p, ts) <= names.Keys && items == ItemsOf(p, names, ts)
      decreases Keys(p, T) - names.Keys, 0, ts, 1
    {
      if ts == [] { return []; }
      var c := Value(ts[0], open);
      ghost var names1, owner1 := names, owner;
      NoLarger(Keys(p, T), old(names), names1);
      var rest := Values(ts[1..], open);
      Grown(old(names), names1, names, old(owner), owner1, owner);
      ItemsGrow(p, names1, names, ts, c);
      items := [Item(p.dynamic(ts[0]), p.headSize(ts[0]), c)] + rest;
    }

    /** A struct or dynamic array: call its method, generating it on first use. */
    method Shared(t: TyRef, ghost open: set<Key>) returns (code: Code)
      requires Valid(open) && Known(p, t) && Inside(T, t) && (t.Struct? || t.Dyn?)
      modifies this
      ensures Valid(open) && Extends(old(names), names) && KeepsOwners(old(owner), owner)
      ensures KeyOf(p, t) in names && code == Call(names[KeyOf(p, t)])
      ensures Fresh(p, t, old(names)) ==> KeyOf(p, t) in owner && owner[KeyOf(p, t)] == t
      decreases Keys(p, T) - names.Keys, 0, t, 1
    {
      var key := KeyOf(p, t);
      if key in names { return Call(names[key]); }
      var name := Generate(t, key, open);
      code := Call(name);
    }

    /** The name first, then the body, which may call it. */
    method Generate(t: TyRef, key: Key, ghost open: set<Key>) returns (name: Name)
      requires Valid(open) && Known(p, t) && Inside(T, t) && Owns(p, t, key)
      requires key !in names
      modifies this
      ensures Valid(open) && Extends(old(names), names) && KeepsOwners(old(owner), owner)
      ensures key in names && names[key] == name && key in owner && owner[key] == t
      decreases Keys(p, T) - names.Keys, 0, t, 0
    {
      name := Register(key, t, open);
      ghost var names1, owner1 := names, owner;
      RegisterSmaller(Keys(p, T), old(names), names, key, name);
      Complete(t, key, name, open);
      Grown(old(names), names1, names, old(owner), owner1, owner);
    }

    method Complete(t: TyRef, key: Key, name: Name, ghost open: set<Key>)
      requires Valid(open + {key}) && key !in open && Known(p, t) && Inside(T, t) && Owns(p, t, key)
      requires key in names && names[key] == name && key in owner && owner[key] == t
      modifies this
      ensures Valid(open) && Extends(old(names), names) && KeepsOwners(old(owner), owner)
      decreases Keys(p, T) - names.Keys, 2
    {
      var body := Body(t, open + {key});
      Define(key, t, name, body, open);
    }

    method Body(t: TyRef, ghost open: set<Key>) returns (body: Code)
      requires Valid(open) && Known(p, t) && Inside(T, t) && (t.Struct? || t.Dyn?)
      modifies this
      ensures Valid(open) && Extends(old(names), names) && KeepsOwners(old(owner), owner)
      ensures BodyUses(p, t) <= names.Keys && body == BodyOf(p, names, t)
      decreases Keys(p, T) - names.Keys, 1
    {
      if t.Struct? {
        var items := Values(p.defs[t.id], open);
        body := Fields(items);
      } else {
        var c := Value(t.e, open);
        body := Loop(Item(p.dynamic(t.e), p.headSize(t.e), c));
      }
    }

    method Register(key: Key, t: TyRef, ghost open: set<Key>) returns (name: Name)
      requires Valid(open) && key !in names && Owns(p, t, key) && Inside(T, t)
      modifies this
      ensures Valid(open + {key}) && names == old(names)[key := name] && owner == old(owner)[key := t]
      ensures KeepsOwners(old(owner), owner)
    {
      if t.Struct? {
        name := StructName(t.id);
      } else {
        name := ArrayName(counter);
        counter := counter + 1;
      }
      RegisterTables(p, T, names, old(counter), owner, order, pending, open, key, t, name, counter);
      names := names[key := name];
      owner := owner[key := t];
    }

    method Define(key: Key, t: TyRef, name: Name, body: Code, ghost open: set<Key>)
      requires Valid(open + {key}) && key !in open && key in names && names[key] == name
      requires key in owner && owner[key] == t && Owns(p, t, key)
      requires body == BodyOf(p, names, t) && BodyUses(p, t) <= names.Keys
      modifies this`pending, this`order
      ensures Valid(open)
    {
      DefineOrder(names, order, open, key);
      pending := pending + [(name, body)];
      order := order + [key];
    }
  }

  // ---- what generation guarantees ----------------------------------------------------------

  /** The methods that the pending list adds to the contract. */
  function Collect(pending: seq<(Name, Code)>): map<Name, Code> {
    if pending == [] then map[]
    else Collect(pending[..|pending| - 1])[pending[|pending| - 1].0 := pending[|pending| - 1].1]
  }

  /** No name is defined twice. */
  predicate DefinedOnce(pending: seq<(Name, Code)>) {
    forall i, j :: 0 <= i < j < |pending| ==> pending[i].0 != pending[j].0
  }

  lemma {:induction false} CollectHas(pending: seq<(Name, Code)>)
    requires DefinedOnce(pending)
    ensures forall i :: 0 <= i < |pending| ==>
              pending[i].0 in Collect(pending) && Collect(pending)[pending[i].0] == pending[i].1
    ensures forall name :: name in Collect(pending) ==> exists i :: 0 <= i < |pending| && pending[i].0 == name
  {
    if pending != [] {
      CollectHas(pending[..|pending| - 1]);
    }
  }

  lemma TablesDefineOnce(p: Program, T: set<TyRef>, names: Names, counter: nat, owner: map<Key, TyRef>,
                         order: seq<Key>, pending: seq<(Name, Code)>)
    requires TablesRight(p, T, names, counter, owner, order, pending, {})
    ensures DefinedOnce(pending)
    ensures forall k :: k in names ==> exists i :: 0 <= i < |pending| && pending[i].0 == names[k]
  {
    forall i, j | 0 <= i < j < |pending|
      ensures pending[i].0 != pending[j].0
    {
      assert order[i] != order[j];
      assert MethodRight(p, names, order[i], owner[order[i]], pending[i]);
      assert MethodRight(p, names, order[j], owner[order[j]], pending[j]);
    }
    forall k | k in names
      ensures exists i :: 0 <= i < |pending| && pending[i].0 == names[k]
    {
      assert k in order;
      var i :| 0 <= i < |order| && order[i] == k;
      assert MethodRight(p, names, order[i], owner[order[i]], pending[i]);
      assert pending[i].0 == names[k];
    }
  }

  lemma CollectedRight(p: Program, T: set<TyRef>, names: Names, counter: nat, owner: map<Key, TyRef>,
                       order: seq<Key>, pending: seq<(Name, Code)>)
    requires TablesRight(p, T, names, counter, owner, order, pending, {})
    ensures TableRight(Table(p, names, owner, Collect(pending)), T)
  {
    TablesDefineOnce(p, T, names, counter, owner, order, pending);
    CollectHas(pending);
    var tb := Table(p, names, owner, Collect(pending));
    forall k | k in names
      ensures EntryRight(tb, T, k)
    {
      assert k in order;
      var i :| 0 <= i < |order| && order[i] == k;
      assert MethodRight(p, names, order[i], owner[order[i]], pending[i]);
    }
    forall name | name in tb.methods
      ensures CodeOk(tb.methods[name])
    {
      var i :| 0 <= i < |pending| && pending[i].0 == name;
      assert MethodRight(p, names, order[i], owner[order[i]], pending[i]);
    }
  }

  lemma {:induction false} ItemAt(p: Program, names: Names, ts: seq<TyRef>, i: nat)
    requires AllKnown(p, ts) && i < |ts|
    ensures ItemsOf(p, names, ts)[i] == ItemOf(p, names, ts[i]) && Uses(p, ts[i]) <= UsesAll(p, ts)
  {
    if i > 0 {
      ItemAt(p, names, ts[1..], i - 1);
    }
  }

  /** The code decodes values of type t. */
  ghost predicate Decodes(p: Program, t: TyRef, methods: map<Name, Code>, code: Code)
    requires WellFormed(p) && Known(p, t)
  {
    CodeOk(code) && MethodsOk(methods) && forall blob, start, depth, deep ::
      Run(methods, code, blob, start, depth, deep) == Inline(p, t, blob, start, depth, deep)
  }

  lemma LinkedDecodes(tb: Table, T: set<TyRef>, t: TyRef)
    requires Linked(tb, T) && Known(tb.p, t) && Inside(T, t) && Uses(tb.p, t) <= tb.names.Keys
    ensures Decodes(tb.p, t, tb.methods, CodeOf(tb.p, tb.names, t))
  {
    forall blob, start, depth, deep
      ensures Run(tb.methods, CodeOf(tb.p, tb.names, t), blob, start, depth, deep)
           == Inline(tb.p, t, blob, start, depth, deep)
    {
      RunIsInline(tb, T, t, blob, start, depth, deep);
    }
  }

  lemma AllDecode(tb: Table, T: set<TyRef>, ts: seq<TyRef>)
    requires TableRight(tb, T) && Alike(tb.p, T)
    requires AllKnown(tb.p, ts) && AllInside(T, ts) && UsesAll(tb.p, ts) <= tb.names.Keys
    ensures EachDecodes(tb.p, ts, tb.methods, ItemsOf(tb.p, tb.names, ts))
  {
    RightIsLinked(tb, T);
    forall i | 0 <= i < |ts|
      ensures Decodes(tb.p, ts[i], tb.methods, ItemsOf(tb.p, tb.names, ts)[i].code)
    {
      ItemAt(tb.p, tb.names, ts, i);
      LinkedDecodes(tb, T, ts[i]);
    }
  }

  ghost predicate EachDecodes(p: Program, ts: seq<TyRef>, methods: map<Name, Code>, items: seq<Item>)
    requires WellFormed(p) && AllKnown(p, ts) && |items| == |ts|
  {
    forall i :: 0 <= i < |ts| ==> Decodes(p, ts[i], methods, items[i].code)
  }

  /** One code cannot decode two types that decode differently. */
  lemma SameCodeAgrees(p: Program, t: TyRef, u: TyRef, methods: map<Name, Code>, code: Code)
    requires WellFormed(p) && Known(p, t) && Known(p, u)
    requires Decodes(p, t, methods, code) && Decodes(p, u, methods, code)
    ensures Agree(p, t, u)
  {
    forall blob, start, depth, deep
      ensures Inline(p, t, blob, start, depth, deep) == Inline(p, u, blob, start, depth, deep)
    {
      assert Run(methods, code, blob, start, depth, deep) == Inline(p, t, blob, start, depth, deep);
      assert Run(methods, code, blob, start, depth, deep) == Inline(p, u, blob, start, depth, deep);
    }
  }

  /** If all uses decode right, those among them that share a name decode alike. */
  lemma DecodesOnlyAlike(tb: Table, ts: seq<TyRef>)
    requires WellFormed(tb.p) && AllKnown(tb.p, ts) && UsesAll(tb.p, ts) <= tb.names.Keys
    requires EachDecodes(tb.p, ts, tb.methods, ItemsOf(tb.p, tb.names, ts))
    ensures Alike(tb.p, set t | t in ts)
  {
    forall t, u | t in ts && u in ts && SameName(tb.p, t, u)
      ensures Agree(tb.p, t, u)
    {
      var i :| 0 <= i < |ts| && ts[i] == t;
      var j :| 0 <= j < |ts| && ts[j] == u;
      ItemAt(tb.p, tb.names, ts, i);
      ItemAt(tb.p, tb.names, ts, j);
      SameCodeAgrees(tb.p, t, u, tb.methods, ItemsOf(tb.p, tb.names, ts)[i].code);
    }
  }

  /** MEMOIZED DECODING IS INLINE DECODING. For any list of uses that share the tables, of types
  recursive or not, the generated code of each use and the methods give the result of inline
  decoding on every input, to every depth, if the array types that share a name decode alike;
  and only then, when every type that occurs is itself used. Every method is defined once. */
  method Routed(p: Program, ghost T: set<TyRef>, ts: seq<TyRef>) returns (items: seq<Item>, pending: seq<(Name, Code)>)
    requires WellFormed(p) && Closed(p, T) && AllKnown(p, ts) && AllInside(T, ts)
    ensures |items| == |ts| && DefinedOnce(pending)
    ensures Alike(p, T) ==> EachDecodes(p, ts, Collect(pending), items)
    ensures EachDecodes(p, ts, Collect(pending), items) ==> Alike(p, set t | t in ts)
    ensures (forall t :: t in T ==> t in ts) ==> (EachDecodes(p, ts, Collect(pending), items) <==> Alike(p, T))
  {
    var router := new Router(p, T);
    items := router.Values(ts, {});
    pending := router.pending;
    ghost var tb := Table(p, router.names, router.owner, Collect(pending));
    CollectedRight(p, T, router.names, router.counter, router.owner, router.order, pending);
    TablesDefineOnce(p, T, router.names, router.counter, router.owner, router.order, pending);
    if Alike(p, T) {
      AllDecode(tb, T, ts);
    }
    if EachDecodes(p, ts, Collect(pending), items) {
      DecodesOnlyAlike(tb, ts);
    }
  }
}
