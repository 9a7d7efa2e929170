/** The encoder: head and tail buffers filled by loops, with a running tail offset.

Byte strings live on the AVM stack, so every concatenation fails beyond `limit` bytes and
every offset is a 64-bit number. The encoder succeeds exactly when the canonical encoding
is no longer than `limit`, and then produces it. */
module AbiEncoder {
  import opened Bytes
  import opened AbiSpec
  import opened AbiLayout
  import opened AbiLeafCodec

  /** The encoding, or failure when it does not fit. */
  function Within(b: bytes, limit: nat): Option<bytes> {
    if |b| <= limit then Some(b) else None
  }

  predicate LimitOk(limit: nat) {
    64 <= limit < TWO_64
  }

  /** No component and no prefix of the heads or tails is longer than the whole. */
  lemma PartsFit(ts: seq<Ty>, vs: seq<Val>, i: nat)
    requires HaveTypes(ts, vs) && i < |vs|
    ensures |Enc(ts[i], vs[i])| <= |EncSeq(ts, vs)|
    ensures |Heads(ts, vs, i + 1)| <= |EncSeq(ts, vs)|
    ensures |Tails(ts, vs, i + 1)| <= TailAt(ts, vs, i + 1) <= |EncSeq(ts, vs)|
  {
    HeadPlacement(ts, vs, i);
    TailPlacement(ts, vs, i);
    PartsExtend(ts, vs, i + 1, |vs|);
  }

  lemma DynamicStep(ts: seq<Ty>, vs: seq<Val>, i: nat)
    requires HaveTypes(ts, vs) && i < |vs| && Dynamic(ts[i]) && TailAt(ts, vs, i) < TWO_64
    ensures Heads(ts, vs, i + 1) == Heads(ts, vs, i) + LeftPadTo(Itob(TailAt(ts, vs, i)), 32)
    ensures Tails(ts, vs, i + 1) == Tails(ts, vs, i) + Enc(ts[i], vs[i])
  {
    WordOfUint64(TailAt(ts, vs, i));
  }

  lemma StaticStep(ts: seq<Ty>, vs: seq<Val>, i: nat)
    requires HaveTypes(ts, vs) && i < |vs| && !Dynamic(ts[i])
    ensures Heads(ts, vs, i + 1) == Heads(ts, vs, i) + Enc(ts[i], vs[i])
    ensures Tails(ts, vs, i + 1) == Tails(ts, vs, i)
  {
  }

  /** `sequence`: all components of an argument list, struct or tuple. */
  method Sequence(ts: seq<Ty>, vs: seq<Val>, limit: nat) returns (out: Option<bytes>)
    requires HaveTypes(ts, vs) && LimitOk(limit)
    ensures out == Within(EncSeq(ts, vs), limit)
    decreases vs, 0
  {
    var headSize := 0;
    for i := 0 to |ts|
      invariant headSize == HeadAt(ts, i)
    {
      HeadSizesStep(ts, i);
      headSize := headSize + HeadSize(ts[i]);
    }
    assert ts[..|ts|] == ts;
    SeqLength(ts, vs);

    var heads: bytes, tails: bytes, tailOffset := [], [], headSize;
    for i := 0 to |ts|
      invariant heads == Heads(ts, vs, i)
      invariant tails == Tails(ts, vs, i)
      invariant tailOffset == TailAt(ts, vs, i)
    {
      PartsFit(ts, vs, i);
      if !Dynamic(ts[i]) {
        var head := Value(ts[i], vs[i], limit);
        StaticStep(ts, vs, i);
        if head.None? || |heads| + |head.value| > limit { return None; }
        heads := heads + head.value;
      } else {
        var tail := Value(ts[i], vs[i], limit);
        if tail.None? || tailOffset >= TWO_64 { return None; }
        DynamicStep(ts, vs, i);
        if |heads| + 32 > limit { return None; }
        heads := heads + LeftPadTo(Itob(tailOffset), 32);
        if |tails| + |tail.value| > limit { return None; }
        tailOffset := tailOffset + |tail.value|;
        tails := tails + tail.value;
      }
    }
    out := Concat(heads, tails, limit);
  }

  /** `inlineValue` and `payload`. */
  method Value(t: Ty, v: Val, limit: nat) returns (out: Option<bytes>)
    requires HasType(t, v) && LimitOk(limit)
    ensures out == Within(Enc(t, v), limit)
    decreases v, 1
  {
    match t
    case Word(l) =>
      NativeWord(l, v);
      out := ToEvmWord(l, Native(l, v));
    case ByteString =>
      var n := |v.raw|;
      if n >= TWO_64 { return None; }
      WordOfUint64(n);
      out := Concat(v.raw, Zeros(PadLen(n)), limit);
      if out.Some? {
        assert BigEndian(32, n) + out.value == Enc(t, v);
        out := Concat(LeftPadTo(Itob(n), 32), out.value, limit);
      }
    case FixedArray(e, k) =>
      out := Array(e, v.items, limit);
    case DynArray(e) =>
      var n := |v.items|;
      WordOfUint64(n);
      out := Array(e, v.items, limit);
      if out.Some? {
        out := Concat(LeftPadTo(Itob(n), 32), out.value, limit);
      }
    case Tuple(ts) =>
      out := Sequence(ts, v.items, limit);
  }

  /** `arrayValue`: the run-time element loop. */
  method Array(e: Ty, vs: seq<Val>, limit: nat) returns (out: Option<bytes>)
    requires HaveTypes(Copies(e, |vs|), vs) && LimitOk(limit)
    ensures out == Within(EncSeq(Copies(e, |vs|), vs), limit)
    decreases vs, 0, 1
  {
    ghost var ts := Copies(e, |vs|);
    SeqLength(ts, vs);
    CopiesHeadSizes(e, |vs|);
    var heads: bytes, tails: bytes, n, i := [], [], |vs|, 0;
    var tailoff := n * HeadSize(e);
    if tailoff >= TWO_64 { return None; }
    while i < n
      invariant i <= n == |vs|
      invariant heads == Heads(ts, vs, i)
      invariant tails == Tails(ts, vs, i)
      invariant tailoff == TailAt(ts, vs, i) < TWO_64
    {
      PartsFit(ts, vs, i);
      var fits;
      fits, heads, tails, tailoff := Element(e, vs, i, heads, tails, tailoff, limit);
      if !fits { return None; }
      i := i + 1;
    }
    out := Concat(heads, tails, limit);
  }

  /** The body of the element loop. */
  method Element(e: Ty, vs: seq<Val>, i: nat, heads: bytes, tails: bytes, tailoff: nat, limit: nat)
    returns (fits: bool, heads': bytes, tails': bytes, tailoff': nat)
    requires HaveTypes(Copies(e, |vs|), vs) && LimitOk(limit) && i < |vs|
    requires var ts := Copies(e, |vs|);
             && heads == Heads(ts, vs, i) && tails == Tails(ts, vs, i)
             && tailoff == TailAt(ts, vs, i) < TWO_64
    ensures var ts := Copies(e, |vs|);
            if fits
            then && heads' == Heads(ts, vs, i + 1) && tails' == Tails(ts, vs, i + 1)
                 && tailoff' == TailAt(ts, vs, i + 1) < TWO_64
            else || |Enc(e, vs[i])| > limit || |Heads(ts, vs, i + 1)| > limit
                 || TailAt(ts, vs, i + 1) > limit
    decreases vs, 0, 0
  {
    ghost var ts := Copies(e, |vs|);
    fits, heads', tails', tailoff' := false, heads, tails, tailoff;
    var encoded := Value(e, vs[i], limit);
    if encoded.None? { return; }
    if Dynamic(e) {
      DynamicStep(ts, vs, i);
      if |heads| + 32 > limit || |tails| + |encoded.value| > limit { return; }
      if tailoff + |encoded.value| >= TWO_64 { return; }
      heads' := heads + LeftPadTo(Itob(tailoff), 32);
      tails' := tails + encoded.value;
      tailoff' := tailoff + |encoded.value|;
    } else {
      StaticStep(ts, vs, i);
      if |heads| + |encoded.value| > limit { return; }
      heads' := heads + encoded.value;
    }
    fits := true;
  }
}
