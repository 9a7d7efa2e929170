/** The whole codec: canonical encoding, generated decode methods, the original value. */
module AbiEndToEnd {
  import opened Bytes
  import opened AbiSpec
  import opened AbiDecoder
  import opened AbiRoundTrip
  import opened AbiMemo
  import opened AbiRouter
  import AbiEncoder
  import AbiAcceptance

  /** What a use of t must resolve to: its structs do not refer to themselves, the layout facts
  are those of the resolved type, and calls may nest as deep as its structs and arrays do. */
  ghost predicate Resolvable(p: Program, rank: map<nat, nat>, t: TyRef, r: nat, depth: nat) {
    && Ranked(p, rank) && LayoutRight(p, rank)
    && Known(p, t) && Below(p, rank, t, r) && Height(p, rank, t, r) <= depth
  }

  /** ENCODE, THEN DECODE THROUGH SHARED METHODS. A value's canonical encoding, anywhere in a
  blob, is turned back into the value by the generated code, or stopped by the 16-bit length
  assertion exactly when a dynamic length does not fit. */
  lemma RoutedRoundTrip(p: Program, methods: map<Name, Code>, code: Code, rank: map<nat, nat>,
                        t: TyRef, r: nat, v: Val, blob: bytes, start: nat, depth: nat, deep: Fault)
    requires WellFormed(p) && Known(p, t) && Decodes(p, t, methods, code)
    requires Resolvable(p, rank, t, r, depth)
    requires HasType(Resolve(p, rank, t, r), v) && Lies(blob, start, Enc(Resolve(p, rank, t, r), v))
    ensures Run(methods, code, blob, start, depth, deep) == Expected(Resolve(p, rank, t, r), v)
  {
    InlineIsDecoder(p, rank, t, r, blob, start, depth, deep);
    BodyDecodes(Resolve(p, rank, t, r), v, blob, start);
  }

  /** WHAT THE GENERATED CODE ACCEPTS. On any blob, trusted or not, it returns a value if and only
  if the blob denotes that value of the resolved type. */
  lemma RoutedAccepts(p: Program, methods: map<Name, Code>, code: Code, rank: map<nat, nat>,
                      t: TyRef, r: nat, v: Val, blob: bytes, start: nat, depth: nat, deep: Fault)
    requires WellFormed(p) && Known(p, t) && Decodes(p, t, methods, code)
    requires Resolvable(p, rank, t, r, depth)
    ensures Run(methods, code, blob, start, depth, deep) == Ok(v) <==>
              AbiAcceptance.Denotes(Resolve(p, rank, t, r), v, blob, start)
  {
    InlineIsDecoder(p, rank, t, r, blob, start, depth, deep);
    AbiAcceptance.BodyAccepts(Resolve(p, rank, t, r), blob, start, v);
  }

  /** The same with the imperative encoder and generator: encode a value, generate the decoder
  of its type, and run it on the output. */
  method Transfer(p: Program, ghost T: set<TyRef>, rank: map<nat, nat>, t: TyRef, r: nat, v: Val, limit: nat,
                  depth: nat)
    returns (out: Option<Result<Val>>)
    requires Resolvable(p, rank, t, r, depth)
    requires Closed(p, T) && Inside(T, t) && Alike(p, T)
    requires HasType(Resolve(p, rank, t, r), v) && AbiEncoder.LimitOk(limit)
    ensures out.Some? <==> |Enc(Resolve(p, rank, t, r), v)| <= limit
    ensures out.Some? ==> out.value == Expected(Resolve(p, rank, t, r), v)
  {
    var ty := Resolve(p, rank, t, r);
    var encoded := AbiEncoder.Value(ty, v, limit);
    if encoded.None? { return None; }
    var items, pending := Routed(p, T, [t]);
    assert Decodes(p, [t][0], Collect(pending), items[0].code);
    RoutedRoundTrip(p, Collect(pending), items[0].code, rank, t, r, v, encoded.value, 0, depth, BadPadding);
    out := Some(Run(Collect(pending), items[0].code, encoded.value, 0, depth, BadPadding));
  }
}
