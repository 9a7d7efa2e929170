/** The canonical encoding is injective: shown on the encoding itself, with no bound on lengths
but that of the whole. */
module AbiInjective {
  import opened Bytes
  import opened AbiSpec
  import opened AbiLayout
  import opened AbiRoundTrip

  /** What the decoder would skip to read the next component has the same size in both. */
  lemma {:induction false} SameTails(ts: seq<Ty>, vs: seq<Val>, ws: seq<Val>, i: nat)
    requires HaveTypes(ts, vs) && HaveTypes(ts, ws) && i <= |ts|
    requires EncSeq(ts, vs) == EncSeq(ts, ws) && |EncSeq(ts, vs)| < TWO_64
    ensures TailAt(ts, vs, i) == TailAt(ts, ws, i)
    decreases |ts| - i
  {
    SeqLength(ts, vs);
    SeqLength(ts, ws);
    if i < |ts| {
      SameTails(ts, vs, ws, i + 1);
      TailPlacement(ts, vs, i);
      TailPlacement(ts, ws, i);
      if Dynamic(ts[i]) {
        SameHead(ts, vs, ws, i);
        SameNumber(TailAt(ts, vs, i), TailAt(ts, ws, i), 32);
      }
    }
  }

  lemma SameHead(ts: seq<Ty>, vs: seq<Val>, ws: seq<Val>, i: nat)
    requires HaveTypes(ts, vs) && HaveTypes(ts, ws) && i < |ts| && EncSeq(ts, vs) == EncSeq(ts, ws)
    ensures Head(ts, vs, i) == Head(ts, ws, i)
    ensures Dynamic(ts[i]) ==> BigEndian(32, TailAt(ts, vs, i)) == BigEndian(32, TailAt(ts, ws, i))
  {
    HeadPlacement(ts, vs, i);
    HeadPlacement(ts, ws, i);
  }

  /** Numbers below 2^64 with one word are equal. */
  lemma SameNumber(a: nat, b: nat, z: nat)
    requires a < TWO_64 && b < TWO_64 && z >= 8 && BigEndian(z, a) == BigEndian(z, b)
    ensures a == b
  {
    Pow256Of8();
    Pow256Grows(8, z);
    NumberOfBigEndian(z, a);
    NumberOfBigEndian(z, b);
  }

  /** Component i has the same encoding in both. */
  lemma SameComponent(ts: seq<Ty>, vs: seq<Val>, ws: seq<Val>, i: nat)
    requires HaveTypes(ts, vs) && HaveTypes(ts, ws) && i < |ts|
    requires EncSeq(ts, vs) == EncSeq(ts, ws) && |EncSeq(ts, vs)| < TWO_64
    ensures Enc(ts[i], vs[i]) == Enc(ts[i], ws[i]) && |Enc(ts[i], vs[i])| < TWO_64
  {
    SameHead(ts, vs, ws, i);
    HeadPlacement(ts, vs, i);
    TailPlacement(ts, vs, i);
    TailPlacement(ts, ws, i);
    SameTails(ts, vs, ws, i);
    SameTails(ts, vs, ws, i + 1);
  }

  /** INJECTIVITY. Two argument lists of one type with one encoding are the same list. */
  lemma {:induction false} EncodingInjective(ts: seq<Ty>, vs: seq<Val>, ws: seq<Val>)
    requires HaveTypes(ts, vs) && HaveTypes(ts, ws)
    requires EncSeq(ts, vs) == EncSeq(ts, ws) && |EncSeq(ts, vs)| < TWO_64
    ensures vs == ws
    decreases vs, 0
  {
    forall i | 0 <= i < |vs|
      ensures vs[i] == ws[i]
    {
      SameComponent(ts, vs, ws, i);
      ValueInjective(ts[i], vs[i], ws[i]);
    }
  }

  lemma {:induction false} ValueInjective(t: Ty, v: Val, w: Val)
    requires HasType(t, v) && HasType(t, w)
    requires Enc(t, v) == Enc(t, w) && |Enc(t, v)| < TWO_64
    ensures v == w
    decreases v, 1
  {
    match t
    case Word(l) =>
      LeafRoundTrip(l, v);
      LeafRoundTrip(l, w);
    case ByteString =>
      StringInjective(v.raw, w.raw, Zeros(PadLen(|v.raw|)), Zeros(PadLen(|w.raw|)), 32);
    case FixedArray(e, k) => EncodingInjective(Copies(e, k), v.items, w.items);
    case DynArray(e) =>
      var m, n := |v.items|, |w.items|;
      SplitWord(BigEndian(32, m), BigEndian(32, n),
                EncSeq(Copies(e, m), v.items), EncSeq(Copies(e, n), w.items));
      SameNumber(m, n, 32);
      EncodingInjective(Copies(e, m), v.items, w.items);
    case Tuple(ts) => EncodingInjective(ts, v.items, w.items);
  }

  lemma SplitWord(a: bytes, b: bytes, x: bytes, y: bytes)
    requires |a| == |b| && a + x == b + y
    ensures a == b && x == y
  {
    assert a == (a + x)[..|a|] && b == (b + y)[..|b|];
    assert x == (a + x)[|a|..] && y == (b + y)[|b|..];
  }

  lemma StringInjective(a: bytes, b: bytes, p: bytes, q: bytes, z: nat)
    requires z >= 8 && |a| < TWO_64 && |b| < TWO_64
    requires BigEndian(z, |a|) + a + p == BigEndian(z, |b|) + b + q
    ensures a == b
  {
    var m, n := BigEndian(z, |a|), BigEndian(z, |b|);
    Regroup(m, a, p);
    Regroup(n, b, q);
    SplitWord(m, n, a + p, b + q);
    SameNumber(|a|, |b|, z);
    SplitWord(a, b, p, q);
  }

  lemma Regroup(a: bytes, b: bytes, c: bytes)
    ensures a + b + c == a + (b + c)
  {
  }
}
