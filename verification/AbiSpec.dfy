/** Types and values of the canonical EVM ABI codec, and the encoding `Enc` that the
Solidity "Contract ABI Specification" defines in its section "Formal Specification of
the Encoding". Nothing here follows the encoder's code. */
module AbiSpec {
  import opened Bytes

  /** Types represented by one EVM word. Widths are in bytes. */
  datatype Leaf =
    | UInt(width: nat)
    | SInt(width: nat)
    | Bool
    | Address
    | FixedBytes(width: nat)
    | Enum(members: nat)
    | FunctionPointer                // external: 8 bytes of application id, then the selector twice

  datatype Ty =
    | Word(leaf: Leaf)
    | ByteString                     // bytes and string
    | FixedArray(elem: Ty, size: nat)
    | DynArray(elem: Ty)
    | Tuple(items: seq<Ty>)          // structs and tuples

  datatype Val =
    | Num(n: int)
    | Raw(raw: bytes)
    | Seq(items: seq<Val>)

  predicate LeafOk(l: Leaf) {
    match l
    case UInt(w) => 1 <= w <= 32
    case SInt(w) => 1 <= w <= 32
    case FixedBytes(w) => 1 <= w <= 32
    case Enum(m) => m <= 256
    case _ => true
  }

  predicate LeafHas(l: Leaf, v: Val) {
    LeafOk(l) &&
    match l
    case UInt(w) => v.Num? && 0 <= v.n < Pow256(w)
    case SInt(w) => v.Num? && 0 <= 2 * v.n + Pow256(w) < 2 * Pow256(w)
    case Bool => v.Num? && 0 <= v.n <= 1
    case Address => v.Raw? && |v.raw| == 20
    case FixedBytes(w) => v.Raw? && |v.raw| == w
    case Enum(m) => v.Num? && 0 <= v.n < m
    case FunctionPointer => v.Raw? && |v.raw| == 16 && v.raw[8..12] == v.raw[12..16]
  }

  /** v is a value of type t. Array counts are 64-bit numbers. */
  predicate HasType(t: Ty, v: Val)
    decreases v, 1
  {
    match t
    case Word(l) => LeafHas(l, v)
    case ByteString => v.Raw?
    case FixedArray(e, k) => v.Seq? && |v.items| == k && HaveTypes(Copies(e, k), v.items)
    case DynArray(e) => v.Seq? && |v.items| < TWO_64 && HaveTypes(Copies(e, |v.items|), v.items)
    case Tuple(ts) => v.Seq? && HaveTypes(ts, v.items)
  }

  predicate HaveTypes(ts: seq<Ty>, vs: seq<Val>)
    decreases vs, 0
  {
    |ts| == |vs| && forall i :: 0 <= i < |vs| ==> HasType(ts[i], vs[i])
  }

  function Copies(t: Ty, n: nat): (ts: seq<Ty>)
    ensures |ts| == n && forall i :: 0 <= i < n ==> ts[i] == t
  {
    seq(n, _ => t)
  }

  /** solc's `isDynamicallyEncoded`. */
  predicate Dynamic(t: Ty) {
    match t
    case Word(_) => false
    case ByteString => true
    case FixedArray(e, _) => Dynamic(e)
    case DynArray(_) => true
    case Tuple(ts) => exists i :: 0 <= i < |ts| && Dynamic(ts[i])
  }

  /** solc's `calldataHeadSize`: one offset word, or the whole static encoding. */
  function HeadSize(t: Ty): nat
    decreases t, 1
  {
    if Dynamic(t) then 32 else
    match t
    case Word(_) => 32
    case ByteString => 32
    case FixedArray(e, k) => k * HeadSize(e)
    case DynArray(_) => 32
    case Tuple(ts) => HeadSizes(ts)
  }

  function HeadSizes(ts: seq<Ty>): nat
    decreases ts, 0
  {
    if ts == [] then 0 else HeadSizes(ts[..|ts| - 1]) + HeadSize(ts[|ts| - 1])
  }

  // ---- leaf words --------------------------------------------------------------

  /** The two's complement of n in `width` bytes. */
  function SignedBytes(width: nat, n: int): (b: bytes)
    ensures |b| == width
  {
    BigEndian(width, n % Pow256(width))
  }

  /** The canonical word of a leaf value. */
  function EncLeaf(l: Leaf, v: Val): (w: bytes)
    requires LeafHas(l, v)
    ensures |w| == 32
  {
    match l
    case Address => Zeros(12) + v.raw
    case FixedBytes(n) => v.raw + Zeros(32 - n)
    case SInt(_) => SignedBytes(32, v.n)
    case FunctionPointer => Zeros(12) + v.raw[..12] + Zeros(8)
    case _ => BigEndian(32, v.n)
  }

  // ---- the encoding ------------------------------------------------------------

  /** The number of zero bytes that complete a 32-byte multiple. */
  function PadLen(n: nat): (p: nat)
    ensures p < 32 && (n + p) % 32 == 0
  {
    (32 - n % 32) % 32
  }

  function Enc(t: Ty, v: Val): bytes
    requires HasType(t, v)
    decreases v, 1
  {
    match t
    case Word(l) => EncLeaf(l, v)
    case ByteString => BigEndian(32, |v.raw|) + v.raw + Zeros(PadLen(|v.raw|))
    case FixedArray(e, k) => EncSeq(Copies(e, k), v.items)
    case DynArray(e) => BigEndian(32, |v.items|) + EncSeq(Copies(e, |v.items|), v.items)
    case Tuple(ts) => EncSeq(ts, v.items)
  }

  /** enc((X1, ..., Xk)): all heads, then all tails. */
  function EncSeq(ts: seq<Ty>, vs: seq<Val>): bytes
    requires HaveTypes(ts, vs)
    decreases vs, 0, |vs|, 2
  {
    Heads(ts, vs, |vs|) + Tails(ts, vs, |vs|)
  }

  /** head(X1) ... head(Xk): a static component is its own head; the head of a dynamic one
  is the distance from the start of the sequence to its tail. */
  function Heads(ts: seq<Ty>, vs: seq<Val>, k: nat): bytes
    requires HaveTypes(ts, vs) && k <= |vs|
    decreases vs, 0, k, 0
  {
    if k == 0 then [] else
    Heads(ts, vs, k - 1) + Head(ts, vs, k - 1)
  }

  function Head(ts: seq<Ty>, vs: seq<Val>, i: nat): bytes
    requires HaveTypes(ts, vs) && i < |vs|
    decreases vs, 0, i, 2
  {
    if Dynamic(ts[i])
    then BigEndian(32, HeadSizes(ts) + |Tails(ts, vs, i)|)
    else Enc(ts[i], vs[i])
  }

  /** tail(X1) ... tail(Xk): the encoding of a dynamic component, nothing for a static one. */
  function Tails(ts: seq<Ty>, vs: seq<Val>, k: nat): bytes
    requires HaveTypes(ts, vs) && k <= |vs|
    decreases vs, 0, k, 0
  {
    if k == 0 then [] else
    Tails(ts, vs, k - 1) + Tail(ts, vs, k - 1)
  }

  function Tail(ts: seq<Ty>, vs: seq<Val>, i: nat): bytes
    requires HaveTypes(ts, vs) && i < |vs|
    decreases vs, 0, i, 1
  {
    if Dynamic(ts[i]) then Enc(ts[i], vs[i]) else []
  }
}
