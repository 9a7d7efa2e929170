/** The shape of every encoding: sizes, word alignment, and where each tail lies. */
module AbiLayout {
  import opened Bytes
  import opened AbiSpec

  /** A static encoding is exactly as long as its head; every encoding is whole words. */
  lemma {:induction false} EncLength(t: Ty, v: Val)
    requires HasType(t, v)
    ensures |Enc(t, v)| % 32 == 0
    ensures !Dynamic(t) ==> |Enc(t, v)| == HeadSize(t)
    decreases v, 1
  {
    match t
    case Word(_) =>
    case ByteString =>
      SumAligned(32, |v.raw| + PadLen(|v.raw|));
    case FixedArray(e, k) =>
      ItemsLength(Copies(e, k), v.items);
      CopiesHeadSizes(e, k);
    case DynArray(e) =>
      ItemsLength(Copies(e, |v.items|), v.items);
      SumAligned(32, |EncSeq(Copies(e, |v.items|), v.items)|);
    case Tuple(ts) => ItemsLength(ts, v.items);
  }

  lemma {:induction false} ItemsLength(ts: seq<Ty>, vs: seq<Val>)
    requires HaveTypes(ts, vs)
    ensures |EncSeq(ts, vs)| % 32 == 0
    ensures (forall i :: 0 <= i < |ts| ==> !Dynamic(ts[i])) ==> |EncSeq(ts, vs)| == HeadSizes(ts)
    decreases vs, 1
  {
    SeqLength(ts, vs);
    if forall i :: 0 <= i < |ts| ==> !Dynamic(ts[i]) {
      NoTails(ts, vs, |vs|);
    }
  }

  lemma {:induction false} SeqLength(ts: seq<Ty>, vs: seq<Val>)
    requires HaveTypes(ts, vs)
    ensures |Heads(ts, vs, |vs|)| == HeadSizes(ts)
    ensures |EncSeq(ts, vs)| == HeadSizes(ts) + |Tails(ts, vs, |vs|)|
    ensures |EncSeq(ts, vs)| % 32 == 0
    decreases vs, 0
  {
    PartLengths(ts, vs, |vs|);
    assert ts[..|vs|] == ts;
    HeadSizesAligned(ts);
    SumAligned(HeadSizes(ts), |Tails(ts, vs, |vs|)|);
  }

  lemma {:induction false} PartLengths(ts: seq<Ty>, vs: seq<Val>, k: nat)
    requires HaveTypes(ts, vs) && k <= |vs|
    ensures |Heads(ts, vs, k)| == HeadSizes(ts[..k])
    ensures |Tails(ts, vs, k)| % 32 == 0
    decreases vs, 0, k
  {
    if k > 0 {
      PartLengths(ts, vs, k - 1);
      EncLength(ts[k - 1], vs[k - 1]);
      HeadTailLength(ts, vs, k - 1);
      HeadSizesStep(ts, k - 1);
      SumAligned(|Tails(ts, vs, k - 1)|, |Tail(ts, vs, k - 1)|);
    }
  }

  lemma HeadTailLength(ts: seq<Ty>, vs: seq<Val>, i: nat)
    requires HaveTypes(ts, vs) && i < |vs|
    requires |Enc(ts[i], vs[i])| % 32 == 0
    requires !Dynamic(ts[i]) ==> |Enc(ts[i], vs[i])| == HeadSize(ts[i])
    ensures |Head(ts, vs, i)| == HeadSize(ts[i])
    ensures |Tail(ts, vs, i)| % 32 == 0
  {
  }

  lemma HeadSizesStep(ts: seq<Ty>, i: nat)
    requires i < |ts|
    ensures HeadSizes(ts[..i + 1]) == HeadSizes(ts[..i]) + HeadSize(ts[i])
  {
    assert ts[..i + 1][..i] == ts[..i];
  }

  lemma {:induction false} NoTails(ts: seq<Ty>, vs: seq<Val>, k: nat)
    requires HaveTypes(ts, vs) && k <= |vs|
    requires forall i :: 0 <= i < k ==> !Dynamic(ts[i])
    ensures Tails(ts, vs, k) == []
  {
    if k > 0 {
      NoTails(ts, vs, k - 1);
    }
  }

  lemma {:induction false} CopiesHeadSizes(t: Ty, n: nat)
    ensures HeadSizes(Copies(t, n)) == n * HeadSize(t)
  {
    if n > 0 {
      CopiesHeadSizes(t, n - 1);
      assert Copies(t, n)[..n - 1] == Copies(t, n - 1);
      assert n * HeadSize(t) == (n - 1) * HeadSize(t) + HeadSize(t);
    }
  }

  lemma {:induction false} HeadSizeAligned(t: Ty)
    ensures HeadSize(t) % 32 == 0
    decreases t, 1
  {
    match t
    case FixedArray(e, k) =>
      HeadSizeAligned(e);
      MultipleOf32(k, HeadSize(e));
    case Tuple(ts) => HeadSizesAligned(ts);
    case _ =>
  }

  lemma {:induction false} HeadSizesAligned(ts: seq<Ty>)
    ensures HeadSizes(ts) % 32 == 0
    decreases ts, 0
  {
    if ts != [] {
      HeadSizesAligned(ts[..|ts| - 1]);
      HeadSizeAligned(ts[|ts| - 1]);
      SumAligned(HeadSizes(ts[..|ts| - 1]), HeadSize(ts[|ts| - 1]));
    }
  }

  lemma MultipleOf32(k: nat, h: nat)
    requires h % 32 == 0
    ensures k * h % 32 == 0
  {
    assert h == 32 * (h / 32);
    assert k * h == 32 * (k * (h / 32));
  }

  /** Heads, tails and head sizes grow with the number of components taken. */
  lemma {:induction false} PartsExtend(ts: seq<Ty>, vs: seq<Val>, i: nat, k: nat)
    requires HaveTypes(ts, vs) && i <= k <= |vs|
    ensures Heads(ts, vs, i) <= Heads(ts, vs, k)
    ensures Tails(ts, vs, i) <= Tails(ts, vs, k)
    decreases k
  {
    if i < k {
      PartsExtend(ts, vs, i, k - 1);
    }
  }

  /** Where component i's head starts, and where its tail would start. */
  function HeadAt(ts: seq<Ty>, i: nat): nat
    requires i <= |ts|
  {
    HeadSizes(ts[..i])
  }

  function TailAt(ts: seq<Ty>, vs: seq<Val>, i: nat): nat
    requires HaveTypes(ts, vs) && i <= |vs|
  {
    HeadSizes(ts) + |Tails(ts, vs, i)|
  }

  /** Component i's head is found at HeadAt; a dynamic component's tail starts exactly at the
  offset its head holds and ends where the next tail starts, so the tails tile the output. */
  lemma HeadPlacement(ts: seq<Ty>, vs: seq<Val>, i: nat)
    requires HaveTypes(ts, vs) && i < |vs|
    ensures |Head(ts, vs, i)| == HeadSize(ts[i])
    ensures HeadAt(ts, i) + HeadSize(ts[i]) <= HeadSizes(ts) <= |EncSeq(ts, vs)|
    ensures EncSeq(ts, vs)[HeadAt(ts, i)..HeadAt(ts, i) + HeadSize(ts[i])] == Head(ts, vs, i)
  {
    PartLengths(ts, vs, i);
    PartLengths(ts, vs, i + 1);
    HeadSizesStep(ts, i);
    SeqLength(ts, vs);
    PartsExtend(ts, vs, i + 1, |vs|);
    PrefixSlice(Heads(ts, vs, i), Head(ts, vs, i), EncSeq(ts, vs));
  }

  lemma TailPlacement(ts: seq<Ty>, vs: seq<Val>, i: nat)
    requires HaveTypes(ts, vs) && i < |vs|
    ensures TailAt(ts, vs, i) % 32 == 0
    ensures TailAt(ts, vs, i) + |Tail(ts, vs, i)| == TailAt(ts, vs, i + 1) <= |EncSeq(ts, vs)|
    ensures EncSeq(ts, vs)[TailAt(ts, vs, i)..TailAt(ts, vs, i + 1)] == Tail(ts, vs, i)
  {
    PartLengths(ts, vs, i);
    HeadSizesAligned(ts);
    SumAligned(HeadSizes(ts), |Tails(ts, vs, i)|);
    SeqLength(ts, vs);
    PartsExtend(ts, vs, i + 1, |vs|);
    MiddleSlice(Heads(ts, vs, |vs|), Tails(ts, vs, i), Tail(ts, vs, i), Tails(ts, vs, |vs|));
  }

  lemma PrefixSlice(a: bytes, b: bytes, whole: bytes)
    requires a + b <= whole
    ensures whole[|a|..|a| + |b|] == b
  {
    assert whole[..|a| + |b|] == a + b;
  }

  lemma MiddleSlice(front: bytes, a: bytes, b: bytes, whole: bytes)
    requires a + b <= whole
    ensures |front| + |a| + |b| <= |front + whole|
    ensures (front + whole)[|front| + |a|..|front| + |a| + |b|] == b
  {
    PrefixSlice(front + a, b, front + whole);
  }
}
