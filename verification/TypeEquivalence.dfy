/** Structural equality of AWST types.

Types are nodes that refer to each other by pointer; the graph may share nodes and may be
cyclic. Two types are the same when no finite unfolding tells them apart. */
module TypeEquivalence {
  import opened Bytes

  type Ptr = Option<nat>         // None is the null pointer

  datatype NamedKind = Basic | GroupTransaction | InnerTransactionFields | InnerTransaction

  datatype WType =
    | Named(immutable: bool, kind: NamedKind, name: string)
    | BytesType(immutable: bool, length: Option<int>)
    | UIntN(immutable: bool, n: int, alias: string)
    | UFixed(immutable: bool, n: int, m: int)
    | Arc4Tuple(immutable: bool, types: seq<Ptr>)
    | DynamicArray(immutable: bool, alias: string, element: Ptr)
    | StaticArray(immutable: bool, size: int, alias: string, element: Ptr)
    | Struct(immutable: bool, name: string, frozen: bool, fields: seq<(string, Ptr)>)
    | ReferenceArray(immutable: bool, count: Option<int>, element: Ptr)
    | WTuple(immutable: bool, name: string, names: Option<seq<string>>, types: seq<Ptr>)

  type Heap = map<nat, WType>

  function Kids(t: WType): seq<Ptr> {
    match t
    case Arc4Tuple(_, types) => types
    case WTuple(_, _, _, types) => types
    case Struct(_, _, _, fields) => FieldTypes(fields)
    case DynamicArray(_, _, e) => [e]
    case StaticArray(_, _, _, e) => [e]
    case ReferenceArray(_, _, e) => [e]
    case _ => []
  }

  function FieldTypes(fields: seq<(string, Ptr)>): (ps: seq<Ptr>)
    ensures |ps| == |fields|
  {
    seq(|fields|, i requires 0 <= i < |fields| => fields[i].1)
  }

  /** The node with its references erased. */
  function Outline(t: WType): WType {
    match t
    case Arc4Tuple(im, types) => Arc4Tuple(im, Nulls(|types|))
    case WTuple(im, name, names, types) => WTuple(im, name, names, Nulls(|types|))
    case Struct(im, name, frozen, fields) =>
      Struct(im, name, frozen, seq(|fields|, i requires 0 <= i < |fields| => (fields[i].0, None)))
    case DynamicArray(im, alias, _) => DynamicArray(im, alias, None)
    case StaticArray(im, size, alias, _) => StaticArray(im, size, alias, None)
    case ReferenceArray(im, count, _) => ReferenceArray(im, count, None)
    case _ => t
  }

  function Nulls(n: nat): seq<Ptr> {
    seq(n, _ => None)
  }

  /** The two nodes agree in kind and in every attribute other than their references. */
  predicate SameAttributes(t: WType, u: WType) {
    && t.immutable == u.immutable
    && (t.Named? ==> u.Named? && t.kind == u.kind && t.name == u.name)
    && (t.BytesType? ==> u.BytesType? && t.length == u.length)
    && (t.UIntN? ==> u.UIntN? && t.n == u.n && t.alias == u.alias)
    && (t.UFixed? ==> u.UFixed? && t.n == u.n && t.m == u.m)
    && (t.Arc4Tuple? ==> u.Arc4Tuple? && |t.types| == |u.types|)
    && (t.DynamicArray? ==> u.DynamicArray? && t.alias == u.alias)
    && (t.StaticArray? ==> u.StaticArray? && t.size == u.size && t.alias == u.alias)
    && (t.Struct? ==>
          u.Struct? && t.name == u.name && t.frozen == u.frozen && FieldNamesAgree(t.fields, u.fields))
    && (t.ReferenceArray? ==> u.ReferenceArray? && t.count == u.count)
    && (t.WTuple? ==> u.WTuple? && t.name == u.name && t.names == u.names && |t.types| == |u.types|)
  }

  /** The outline keeps these attributes, all of them and nothing else. */
  lemma OutlineExactly(t: WType, u: WType)
    ensures Outline(t) == Outline(u) <==> SameAttributes(t, u)
  {
    if t.Struct? && u.Struct? && t.immutable == u.immutable && t.name == u.name && t.frozen == u.frozen {
      if |t.fields| == |u.fields| {
        OutlineFields(t, u);
      } else {
        assert |Outline(t).fields| != |Outline(u).fields|;
      }
    } else if t.Arc4Tuple? && u.Arc4Tuple? {
      assert |Outline(t).types| == |t.types| && |Outline(u).types| == |u.types|;
    } else if t.WTuple? && u.WTuple? {
      assert |Outline(t).types| == |t.types| && |Outline(u).types| == |u.types|;
    }
  }

  /** Outline and references determine the node. */
  lemma NodeDetermined(t: WType, u: WType)
    requires Outline(t) == Outline(u) && Kids(t) == Kids(u)
    ensures t == u
  {
    OutlineExactly(t, u);
    if t.Struct? {
      forall i | 0 <= i < |t.fields|
        ensures t.fields[i] == u.fields[i]
      {
        assert Kids(t)[i] == Kids(u)[i];
      }
    } else if t.DynamicArray? || t.StaticArray? || t.ReferenceArray? {
      assert Kids(t)[0] == Kids(u)[0];
    }
  }

  predicate Known(h: Heap, p: Ptr) { p.Some? ==> p.value in h }

  predicate AllKnown(h: Heap, ps: seq<Ptr>) {
    forall i :: 0 <= i < |ps| ==> Known(h, ps[i])
  }

  predicate WellFormed(h: Heap) {
    forall a :: a in h ==> AllKnown(h, Kids(h[a]))
  }

  // ---- the meaning: unfoldings ------------------------------------------------------

  datatype Tree = Cut | Null | Node(outline: WType, kids: seq<Tree>)

  /** The type p as a tree, cut off at depth n. */
  function Unfold(h: Heap, p: Ptr, n: nat): Tree
    requires WellFormed(h) && Known(h, p)
    decreases n, 0
  {
    if n == 0 then Cut
    else if p.None? then Null
    else Node(Outline(h[p.value]), UnfoldAll(h, Kids(h[p.value]), n - 1))
  }

  function UnfoldAll(h: Heap, ps: seq<Ptr>, n: nat): seq<Tree>
    requires WellFormed(h) && AllKnown(h, ps)
    decreases n, 1
  {
    seq(|ps|, i requires 0 <= i < |ps| => Unfold(h, ps[i], n))
  }

  ghost predicate Same(h: Heap, p: Ptr, q: Ptr)
    requires WellFormed(h) && Known(h, p) && Known(h, q)
  {
    forall n: nat :: Unfold(h, p, n) == Unfold(h, q, n)
  }

  ghost predicate AllSame(h: Heap, ps: seq<Ptr>, qs: seq<Ptr>)
    requires WellFormed(h) && AllKnown(h, ps) && AllKnown(h, qs)
  {
    |ps| == |qs| && forall i :: 0 <= i < |ps| ==> Same(h, ps[i], qs[i])
  }

  lemma SameKids(h: Heap, a: nat, b: nat)
    requires WellFormed(h) && a in h && b in h && Same(h, Some(a), Some(b))
    ensures Outline(h[a]) == Outline(h[b]) && AllSame(h, Kids(h[a]), Kids(h[b]))
  {
    assert Unfold(h, Some(a), 1) == Unfold(h, Some(b), 1);
    var ps, qs := Kids(h[a]), Kids(h[b]);
    assert |UnfoldAll(h, ps, 0)| == |UnfoldAll(h, qs, 0)|;
    forall i, n: nat | 0 <= i < |ps|
      ensures Unfold(h, ps[i], n) == Unfold(h, qs[i], n)
    {
      assert Unfold(h, Some(a), n + 1) == Unfold(h, Some(b), n + 1);
      assert UnfoldAll(h, ps, n)[i] == UnfoldAll(h, qs, n)[i];
    }
  }

  // ---- along paths ------------------------------------------------------------------

  /** The nodes reached from p and q by following the references numbered in path, and those on
  the way, are both null or have the same attributes. */
  predicate Agree(h: Heap, p: Ptr, q: Ptr, path: seq<nat>)
    requires WellFormed(h) && Known(h, p) && Known(h, q)
    decreases |path|
  {
    if p.None? || q.None? then p == q
    else
      var ps, qs := Kids(h[p.value]), Kids(h[q.value]);
      && SameAttributes(h[p.value], h[q.value])
      && (path != [] && path[0] < |ps| && path[0] < |qs| ==> Agree(h, ps[path[0]], qs[path[0]], path[1..]))
  }

  ghost predicate AgreeThroughout(h: Heap, p: Ptr, q: Ptr)
    requires WellFormed(h) && Known(h, p) && Known(h, q)
  {
    forall path: seq<nat> :: Agree(h, p, q, path)
  }

  lemma SameCount(t: WType, u: WType)
    requires SameAttributes(t, u)
    ensures |Kids(t)| == |Kids(u)|
  {
  }

  lemma {:induction false} SameAgree(h: Heap, p: Ptr, q: Ptr, path: seq<nat>)
    requires WellFormed(h) && Known(h, p) && Known(h, q) && Same(h, p, q)
    ensures Agree(h, p, q, path)
    decreases |path|
  {
    assert Unfold(h, p, 1) == Unfold(h, q, 1);
    if p.Some? && q.Some? {
      SameKids(h, p.value, q.value);
      OutlineExactly(h[p.value], h[q.value]);
      var ps, qs := Kids(h[p.value]), Kids(h[q.value]);
      if path != [] && path[0] < |ps| && path[0] < |qs| {
        SameAgree(h, ps[path[0]], qs[path[0]], path[1..]);
      }
    }
  }

  lemma {:induction false} AgreeUnfold(h: Heap, p: Ptr, q: Ptr, n: nat)
    requires WellFormed(h) && Known(h, p) && Known(h, q)
    requires AgreeThroughout(h, p, q)
    ensures Unfold(h, p, n) == Unfold(h, q, n)
    decreases n
  {
    assert Agree(h, p, q, []);
    if n > 0 && p.Some? && q.Some? {
      var ps, qs := Kids(h[p.value]), Kids(h[q.value]);
      OutlineExactly(h[p.value], h[q.value]);
      SameCount(h[p.value], h[q.value]);
      forall i | 0 <= i < |ps|
        ensures Unfold(h, ps[i], n - 1) == Unfold(h, qs[i], n - 1)
      {
        forall path: seq<nat>
          ensures Agree(h, ps[i], qs[i], path)
        {
          assert Agree(h, p, q, [i] + path) && ([i] + path)[1..] == path;
        }
        AgreeUnfold(h, ps[i], qs[i], n - 1);
      }
      assert UnfoldAll(h, ps, n - 1) == UnfoldAll(h, qs, n - 1);
    }
  }

  /** Being the same is agreeing, along every path, in every attribute. */
  lemma SameIsAgreement(h: Heap, p: Ptr, q: Ptr)
    requires WellFormed(h) && Known(h, p) && Known(h, q)
    ensures Same(h, p, q) <==> AgreeThroughout(h, p, q)
  {
    if Same(h, p, q) {
      forall path: seq<nat>
        ensures Agree(h, p, q, path)
      {
        SameAgree(h, p, q, path);
      }
    }
    if AgreeThroughout(h, p, q) {
      forall n: nat
        ensures Unfold(h, p, n) == Unfold(h, q, n)
      {
        AgreeUnfold(h, p, q, n);
      }
    }
  }

  // ---- bisimulations ----------------------------------------------------------------

  type Pairs = set<(nat, nat)>

  predicate Related(seen: Pairs, p: Ptr, q: Ptr) {
    p == q || (p.Some? && q.Some? && (p.value, q.value) in seen)
  }

  predicate AllRelated(seen: Pairs, ps: seq<Ptr>, qs: seq<Ptr>) {
    |ps| == |qs| && forall i :: 0 <= i < |ps| ==> Related(seen, ps[i], qs[i])
  }

  /** Two nodes look alike and refer to related nodes. */
  predicate Matches(h: Heap, a: nat, b: nat, seen: Pairs) {
    && a in h && b in h
    && Outline(h[a]) == Outline(h[b])
    && AllRelated(seen, Kids(h[a]), Kids(h[b]))
  }

  ghost predicate Bisimulation(h: Heap, seen: Pairs) {
    forall a, b :: (a, b) in seen ==> Matches(h, a, b, seen)
  }

  lemma {:induction false} BisimilarUnfold(h: Heap, seen: Pairs, p: Ptr, q: Ptr, n: nat)
    requires WellFormed(h) && Bisimulation(h, seen) && Known(h, p) && Known(h, q)
    requires Related(seen, p, q)
    ensures Unfold(h, p, n) == Unfold(h, q, n)
    decreases n, 0
  {
    if n > 0 && p != q {
      var (a, b) := (p.value, q.value);
      assert Matches(h, a, b, seen);
      BisimilarUnfoldAll(h, seen, Kids(h[a]), Kids(h[b]), n - 1);
    }
  }

  lemma {:induction false} BisimilarUnfoldAll(h: Heap, seen: Pairs, ps: seq<Ptr>, qs: seq<Ptr>, n: nat)
    requires WellFormed(h) && Bisimulation(h, seen) && AllKnown(h, ps) && AllKnown(h, qs)
    requires AllRelated(seen, ps, qs)
    ensures UnfoldAll(h, ps, n) == UnfoldAll(h, qs, n)
    decreases n, 1
  {
    forall i | 0 <= i < |ps|
      ensures Unfold(h, ps[i], n) == Unfold(h, qs[i], n)
    {
      BisimilarUnfold(h, seen, ps[i], qs[i], n);
    }
  }

  ghost predicate Bisimilar(h: Heap, p: Ptr, q: Ptr) {
    exists seen :: Bisimulation(h, seen) && Related(seen, p, q)
  }

  /** Being the same is being bisimilar. */
  lemma SameIsBisimilar(h: Heap, p: Ptr, q: Ptr)
    requires WellFormed(h) && Known(h, p) && Known(h, q)
    ensures Same(h, p, q) <==> Bisimilar(h, p, q)
  {
    if Bisimilar(h, p, q) {
      var seen :| Bisimulation(h, seen) && Related(seen, p, q);
      forall n: nat
        ensures Unfold(h, p, n) == Unfold(h, q, n)
      {
        BisimilarUnfold(h, seen, p, q, n);
      }
    }
    if Same(h, p, q) {
      var all := SamePairs(h);
      forall a, b | (a, b) in all
        ensures Matches(h, a, b, all)
      {
        SameKids(h, a, b);
        forall i | 0 <= i < |Kids(h[a])|
          ensures Related(all, Kids(h[a])[i], Kids(h[b])[i])
        {
          SameIsRelated(h, Kids(h[a])[i], Kids(h[b])[i]);
        }
      }
      SameIsRelated(h, p, q);
      assert Bisimulation(h, all) && Related(all, p, q);
    }
  }

  ghost function SamePairs(h: Heap): Pairs
    requires WellFormed(h)
  {
    set a, b | a in h && b in h && Same(h, Some(a), Some(b)) :: (a, b)
  }

  lemma SameIsRelated(h: Heap, p: Ptr, q: Ptr)
    requires WellFormed(h) && Known(h, p) && Known(h, q) && Same(h, p, q)
    ensures Related(SamePairs(h), p, q)
  {
    assert Unfold(h, p, 1) == Unfold(h, q, 1);
  }

  // ---- the procedure ------------------------------------------------------------------

  function AllPairs(h: Heap): Pairs {
    set a, b | a in h && b in h :: (a, b)
  }

  /** Every pair that became seen matches. */
  ghost predicate NewMatch(h: Heap, before: Pairs, after: Pairs) {
    forall a, b :: (a, b) in after && (a, b) !in before ==> Matches(h, a, b, after)
  }

  lemma NewMatchTrans(h: Heap, s0: Pairs, s1: Pairs, s2: Pairs)
    requires s0 <= s1 <= s2 && NewMatch(h, s0, s1) && NewMatch(h, s1, s2)
    ensures NewMatch(h, s0, s2)
  {
    forall a, b | (a, b) in s2 && (a, b) !in s0
      ensures Matches(h, a, b, s2)
    {
      if (a, b) in s1 {
        assert Matches(h, a, b, s1);
      }
    }
  }

  /** `equivalentImpl`: a pair that is already seen counts as equal. The answer is right on
  both sides: equal types get true, and a true answer leaves only matching pairs behind. */
  method EquivalentImpl(h: Heap, p: Ptr, q: Ptr, seen: Pairs) returns (eq: bool, seen': Pairs)
    requires WellFormed(h) && Known(h, p) && Known(h, q) && seen <= AllPairs(h)
    ensures seen <= seen' <= AllPairs(h)
    ensures Same(h, p, q) ==> eq
    ensures eq ==> Related(seen', p, q) && NewMatch(h, seen, seen')
    decreases AllPairs(h) - seen, 0
  {
    seen' := seen;
    if p == q { return true, seen'; }
    if p.None? || q.None? {
      assert Unfold(h, p, 1) != Unfold(h, q, 1);
      return false, seen';
    }
    var a, b := p.value, q.value;
    if Same(h, p, q) {
      SameKids(h, a, b);
    }
    if !SameKind(h[a], h[b]) || h[a].immutable != h[b].immutable { return false, seen'; }
    if (a, b) in seen { return true, seen'; }
    seen' := seen + {(a, b)};
    eq, seen' := EquivalentNodes(h, a, b, seen');
    if eq {
      assert Matches(h, a, b, seen');
    }
  }

  predicate SameKind(s: WType, t: WType) {
    match s
    case Named(_, k, _) => t.Named? && t.kind == k
    case BytesType(_, _) => t.BytesType?
    case UIntN(_, _, _) => t.UIntN?
    case UFixed(_, _, _) => t.UFixed?
    case Arc4Tuple(_, _) => t.Arc4Tuple?
    case DynamicArray(_, _, _) => t.DynamicArray?
    case StaticArray(_, _, _, _) => t.StaticArray?
    case Struct(_, _, _, _) => t.Struct?
    case ReferenceArray(_, _, _) => t.ReferenceArray?
    case WTuple(_, _, _, _) => t.WTuple?
  }

  /** The switch over the kind. */
  method EquivalentNodes(h: Heap, a: nat, b: nat, seen: Pairs) returns (eq: bool, seen': Pairs)
    requires WellFormed(h) && a in h && b in h && seen <= AllPairs(h)
    requires SameKind(h[a], h[b]) && h[a].immutable == h[b].immutable
    ensures seen <= seen' <= AllPairs(h)
    ensures Outline(h[a]) == Outline(h[b]) && AllSame(h, Kids(h[a]), Kids(h[b])) ==> eq
    ensures eq ==> Matches(h, a, b, seen') && NewMatch(h, seen, seen')
    decreases AllPairs(h) - seen, 2
  {
    seen' := seen;
    var t, u := h[a], h[b];
    match t
    case Named(_, _, name) => eq := name == u.name;
    case BytesType(_, length) => eq := length == u.length;
    case UIntN(_, n, alias) => eq := n == u.n && alias == u.alias;
    case UFixed(_, n, m) => eq := n == u.n && m == u.m;
    case Arc4Tuple(_, types) => eq, seen' := SequenceEqual(h, types, u.types, seen);
    case DynamicArray(_, alias, e) =>
      eq := alias == u.alias;
      if eq { eq, seen' := ElementEqual(h, a, b, e, u.element, seen); }
    case StaticArray(_, size, alias, e) =>
      eq := size == u.size && alias == u.alias;
      if eq { eq, seen' := ElementEqual(h, a, b, e, u.element, seen); }
    case Struct(_, name, frozen, fields) =>
      eq := name == u.name && frozen == u.frozen && |fields| == |u.fields|;
      if eq {
        OutlineFields(t, u);
        eq, seen' := FieldsEqual(h, fields, u.fields, seen);
      }
    case ReferenceArray(_, count, e) =>
      eq := count == u.count;
      if eq { eq, seen' := ElementEqual(h, a, b, e, u.element, seen); }
    case WTuple(_, name, names, types) =>
      eq := name == u.name && names == u.names;
      if eq { eq, seen' := SequenceEqual(h, types, u.types, seen); }
  }

  method ElementEqual(h: Heap, a: nat, b: nat, p: Ptr, q: Ptr, seen: Pairs) returns (eq: bool, seen': Pairs)
    requires WellFormed(h) && a in h && b in h && seen <= AllPairs(h)
    requires Kids(h[a]) == [p] && Kids(h[b]) == [q]
    ensures seen <= seen' <= AllPairs(h)
    ensures AllSame(h, Kids(h[a]), Kids(h[b])) ==> eq
    ensures eq ==> AllRelated(seen', Kids(h[a]), Kids(h[b])) && NewMatch(h, seen, seen')
    decreases AllPairs(h) - seen, 1
  {
    assert p == Kids(h[a])[0] && q == Kids(h[b])[0];
    eq, seen' := EquivalentImpl(h, p, q, seen);
  }

  method SequenceEqual(h: Heap, ps: seq<Ptr>, qs: seq<Ptr>, seen: Pairs) returns (eq: bool, seen': Pairs)
    requires WellFormed(h) && AllKnown(h, ps) && AllKnown(h, qs) && seen <= AllPairs(h)
    ensures seen <= seen' <= AllPairs(h)
    ensures AllSame(h, ps, qs) ==> eq
    ensures eq ==> AllRelated(seen', ps, qs) && NewMatch(h, seen, seen')
    decreases AllPairs(h) - seen, 1
  {
    seen' := seen;
    if |ps| != |qs| { return false, seen'; }
    for i := 0 to |ps|
      invariant seen <= seen' <= AllPairs(h)
      invariant AllRelated(seen', ps[..i], qs[..i]) && NewMatch(h, seen, seen')
    {
      ghost var before := seen';
      eq, seen' := EquivalentImpl(h, ps[i], qs[i], seen');
      if !eq { return; }
      NewMatchTrans(h, seen, before, seen');
      assert ps[..i + 1] == ps[..i] + [ps[i]] && qs[..i + 1] == qs[..i] + [qs[i]];
    }
    assert ps[..|ps|] == ps && qs[..|ps|] == qs;
    eq := true;
  }

  /** The fields of two structs: name and type, field by field. */
  method FieldsEqual(h: Heap, fs: seq<(string, Ptr)>, gs: seq<(string, Ptr)>, seen: Pairs)
    returns (eq: bool, seen': Pairs)
    requires WellFormed(h) && AllKnown(h, FieldTypes(fs)) && AllKnown(h, FieldTypes(gs))
    requires |fs| == |gs| && seen <= AllPairs(h)
    ensures seen <= seen' <= AllPairs(h)
    ensures FieldNamesAgree(fs, gs) && AllSame(h, FieldTypes(fs), FieldTypes(gs)) ==> eq
    ensures eq ==> FieldNamesAgree(fs, gs)
    ensures eq ==> AllRelated(seen', FieldTypes(fs), FieldTypes(gs)) && NewMatch(h, seen, seen')
    decreases AllPairs(h) - seen, 1
  {
    seen' := seen;
    ghost var ps, qs := FieldTypes(fs), FieldTypes(gs);
    for i := 0 to |fs|
      invariant seen <= seen' <= AllPairs(h) && NewMatch(h, seen, seen')
      invariant forall k :: 0 <= k < i ==> fs[k].0 == gs[k].0
      invariant forall k :: 0 <= k < i ==> Related(seen', ps[k], qs[k])
    {
      if fs[i].0 != gs[i].0 { return false, seen'; }
      ghost var before := seen';
      assert ps[i] == fs[i].1 && qs[i] == gs[i].1;
      eq, seen' := EquivalentImpl(h, fs[i].1, gs[i].1, seen');
      if !eq { return; }
      NewMatchTrans(h, seen, before, seen');
    }
    eq := true;
  }

  predicate FieldNamesAgree(fs: seq<(string, Ptr)>, gs: seq<(string, Ptr)>) {
    |fs| == |gs| && forall i :: 0 <= i < |fs| ==> fs[i].0 == gs[i].0
  }

  lemma OutlineFields(t: WType, u: WType)
    requires t.Struct? && u.Struct? && t.immutable == u.immutable
    requires t.name == u.name && t.frozen == u.frozen && |t.fields| == |u.fields|
    ensures FieldNamesAgree(t.fields, u.fields) <==> Outline(t) == Outline(u)
  {
    if Outline(t) == Outline(u) {
      forall i | 0 <= i < |t.fields|
        ensures t.fields[i].0 == u.fields[i].0
      {
        assert Outline(t).fields[i] == Outline(u).fields[i];
      }
    }
  }

  /** `structurallyEquivalent` decides sameness, on every finite graph. */
  method StructurallyEquivalent(h: Heap, p: Ptr, q: Ptr) returns (eq: bool)
    requires WellFormed(h) && Known(h, p) && Known(h, q)
    ensures eq <==> Same(h, p, q)
    ensures eq <==> Bisimilar(h, p, q)
    ensures eq <==> AgreeThroughout(h, p, q)
    ensures eq && p.Some? && q.Some? ==> SameAttributes(h[p.value], h[q.value])
  {
    var seen: Pairs;
    eq, seen := EquivalentImpl(h, p, q, {});
    SameIsBisimilar(h, p, q);
    SameIsAgreement(h, p, q);
    if eq {
      assert Bisimulation(h, seen);
      assert Agree(h, p, q, []);
    }
  }

  // ---- acyclic types ----------------------------------------------------------------

  /** Every reference leads to a node of lower rank. */
  predicate Ranked(h: Heap, rank: map<nat, nat>) {
    forall a :: a in h ==> a in rank && KidsBelow(h, rank, Kids(h[a]), rank[a])
  }

  predicate KidsBelow(h: Heap, rank: map<nat, nat>, ps: seq<Ptr>, r: nat) {
    forall i :: 0 <= i < |ps| && ps[i].Some? ==> ps[i].value in rank && rank[ps[i].value] < r
  }

  function RankOf(rank: map<nat, nat>, p: Ptr): nat {
    if p.Some? && p.value in rank then rank[p.value] + 1 else 0
  }

  /** Plain recursive equality, without a seen-set. */
  predicate Naive(h: Heap, rank: map<nat, nat>, p: Ptr, q: Ptr)
    requires WellFormed(h) && Ranked(h, rank) && Known(h, p) && Known(h, q)
    decreases RankOf(rank, p)
  {
    if p.None? || q.None? then p == q
    else
      var ps, qs := Kids(h[p.value]), Kids(h[q.value]);
      && SameAttributes(h[p.value], h[q.value])
      && |ps| == |qs|
      && forall i :: 0 <= i < |ps| ==> Naive(h, rank, ps[i], qs[i])
  }

  /** On acyclic types, sameness is plain structural equality. */
  lemma {:induction false} NaiveIsSame(h: Heap, rank: map<nat, nat>, p: Ptr, q: Ptr)
    requires WellFormed(h) && Ranked(h, rank) && Known(h, p) && Known(h, q)
    ensures Naive(h, rank, p, q) <==> Same(h, p, q)
    decreases RankOf(rank, p)
  {
    if p.None? || q.None? {
      assert p != q ==> Unfold(h, p, 1) != Unfold(h, q, 1);
    } else {
      var ps, qs := Kids(h[p.value]), Kids(h[q.value]);
      OutlineExactly(h[p.value], h[q.value]);
      assert KidsBelow(h, rank, ps, rank[p.value]);
      forall i | 0 <= i < |ps| && i < |qs|
        ensures Naive(h, rank, ps[i], qs[i]) <==> Same(h, ps[i], qs[i])
      {
        NaiveIsSame(h, rank, ps[i], qs[i]);
      }
      if Same(h, p, q) {
        SameKids(h, p.value, q.value);
      }
      if Naive(h, rank, p, q) {
        KidsSame(h, p.value, q.value);
      }
    }
  }

  lemma KidsSame(h: Heap, a: nat, b: nat)
    requires WellFormed(h) && a in h && b in h
    requires Outline(h[a]) == Outline(h[b]) && AllSame(h, Kids(h[a]), Kids(h[b]))
    ensures Same(h, Some(a), Some(b))
  {
    forall n: nat
      ensures Unfold(h, Some(a), n) == Unfold(h, Some(b), n)
    {
      if n > 0 {
        assert UnfoldAll(h, Kids(h[a]), n - 1) == UnfoldAll(h, Kids(h[b]), n - 1);
      }
    }
  }

  /** The decision is an equivalence relation. */
  lemma SameIsEquivalence(h: Heap, p: Ptr, q: Ptr, r: Ptr)
    requires WellFormed(h) && Known(h, p) && Known(h, q) && Known(h, r)
    ensures Bisimilar(h, p, p)
    ensures Bisimilar(h, p, q) ==> Bisimilar(h, q, p)
    ensures Bisimilar(h, p, q) && Bisimilar(h, q, r) ==> Bisimilar(h, p, r)
  {
    SameIsBisimilar(h, p, p);
    SameIsBisimilar(h, p, q);
    SameIsBisimilar(h, q, p);
    SameIsBisimilar(h, q, r);
    SameIsBisimilar(h, p, r);
    if Same(h, p, q) && Same(h, q, r) {
      forall n: nat
        ensures Unfold(h, p, n) == Unfold(h, r, n)
      {
        assert Unfold(h, p, n) == Unfold(h, q, n);
      }
    }
  }
}
