/** The checking decoder. Every assertion the generated code carries, and every AVM
operation that can stop it, is a `Fault`. */
module AbiDecoder {
  import opened Bytes
  import opened AbiSpec

  datatype Fault =
    | OutOfBounds
    | Overflow              // a 64-bit addition or multiplication beyond 2^64 - 1
    | ExceedsUint64         // an offset or length word with a non-zero 24-byte prefix
    | UnalignedOffset
    | ExceedsUint16         // a byte string or array longer than ARC4's uint16 count
    | BadPadding

  datatype Result<+T> = Ok(value: T) | Err(fault: Fault) {
    predicate IsFailure() { Err? }
    function PropagateFailure<U>(): Result<U> requires Err? { Err(fault) }
    function Extract(): T requires Ok? { value }
  }

  const MAX_COUNT: nat := 65535

  function Plus(a: nat, b: nat): Result<nat> {
    if a + b < TWO_64 then Ok(a + b) else Err(Overflow)
  }

  function Times(a: nat, b: nat): Result<nat> {
    if a * b < TWO_64 then Ok(a * b) else Err(Overflow)
  }

  /** The `size` bytes at `pos`, after the bounds assertion. */
  function Fetch(blob: bytes, pos: nat, size: nat): Result<bytes> {
    var end :- Plus(pos, size);
    if end <= |blob| then Ok(blob[pos..end]) else Err(OutOfBounds)
  }

  /** A word that must fit in 64 bits. */
  function FetchSmall(blob: bytes, pos: nat): Result<nat> {
    var w :- Fetch(blob, pos, 32);
    if w[..24] != Zeros(24) then Err(ExceedsUint64) else Ok(Number(w[24..]))
  }

  /** Leaf words are validated: any byte outside the value's width must be padding. */
  function DecLeaf(l: Leaf, w: bytes): Result<Val>
    requires |w| == 32 && LeafOk(l)
  {
    match l
    case UInt(n) => DecUnsigned(n, w)
    case SInt(n) => DecSigned(n, w)
    case Bool => if Number(w) <= 1 then Ok(Num(Number(w))) else Err(BadPadding)
    case Address => if w[..12] == Zeros(12) then Ok(Raw(w[12..])) else Err(BadPadding)
    case FixedBytes(n) => if w[n..] == Zeros(32 - n) then Ok(Raw(w[..n])) else Err(BadPadding)
    case Enum(m) => DecEnum(m, w)
    case FunctionPointer =>
      if w[24..] == Zeros(8) then Ok(Raw(w[12..24] + w[20..24])) else Err(BadPadding)
  }

  function DecUnsigned(n: nat, w: bytes): Result<Val>
    requires |w| == 32 && n <= 32
  {
    if w[..32 - n] == Zeros(32 - n) then Ok(Num(Number(w))) else Err(BadPadding)
  }

  /** The bytes above the value must repeat its sign bit. */
  function DecSigned(n: nat, w: bytes): Result<Val>
    requires 1 <= n <= |w|
  {
    var k := |w| - n;
    if w[k] >= 128
    then if w[..k] == Ones(k) then Ok(Num(Complement(w))) else Err(BadPadding)
    else if w[..k] == Zeros(k) then Ok(Num(Number(w))) else Err(BadPadding)
  }

  /** The negative number a two's complement string denotes. */
  function Complement(w: bytes): int {
    Number(w) - Pow256(|w|)
  }

  function DecEnum(m: nat, w: bytes): Result<Val>
    requires |w| == 32
  {
    if w[..24] == Zeros(24) && Number(w[24..]) < m then Ok(Num(Number(w[24..])))
    else Err(BadPadding)
  }

  function Ones(n: nat): (b: bytes)
    ensures |b| == n
  {
    seq(n, _ => 255)
  }

  predicate TyOk(t: Ty) {
    match t
    case Word(l) => LeafOk(l)
    case ByteString => true
    case FixedArray(e, _) => TyOk(e)
    case DynArray(e) => TyOk(e)
    case Tuple(ts) => forall i :: 0 <= i < |ts| ==> TyOk(ts[i])
  }

  predicate AllOk(ts: seq<Ty>) {
    forall i :: 0 <= i < |ts| ==> TyOk(ts[i])
  }

  /** `head`: a static value in place, a dynamic one through its offset from `base`. */
  function DecHead(t: Ty, blob: bytes, base: nat, pos: nat): Result<Val>
    requires TyOk(t)
    decreases t, 2
  {
    if !Dynamic(t) then DecBody(t, blob, pos) else
    var offset :- FetchSmall(blob, pos);
    if offset % 32 != 0 then Err(UnalignedOffset) else
    var start :- Plus(base, offset);
    DecBody(t, blob, start)
  }

  /** `inlineValue` on static types and `payload` on dynamic ones. */
  function DecBody(t: Ty, blob: bytes, start: nat): Result<Val>
    requires TyOk(t)
    decreases t, 1
  {
    match t
    case Word(l) =>
      var w :- Fetch(blob, start, 32);
      DecLeaf(l, w)
    case ByteString =>
      var count :- FetchSmall(blob, start);
      if count > MAX_COUNT then Err(ExceedsUint16) else
      var data :- Plus(start, 32);
      var raw :- Fetch(blob, data, count);
      Ok(Raw(raw))
    case FixedArray(e, k) =>
      var items :- DecElems(e, blob, start, 0, k);
      Ok(Seq(items))
    case DynArray(e) =>
      var count :- FetchSmall(blob, start);
      if count > MAX_COUNT then Err(ExceedsUint16) else
      var base :- Plus(start, 32);
      var items :- DecElems(e, blob, base, 0, count);
      Ok(Seq(items))
    case Tuple(ts) =>
      var items :- DecItems(ts, blob, start, 0);
      Ok(Seq(items))
  }

  /** The element loop, from element i on. */
  function DecElems(e: Ty, blob: bytes, base: nat, i: nat, n: nat): Result<seq<Val>>
    requires TyOk(e) && i <= n
    decreases e, 3, n - i
  {
    if i == n then Ok([]) else
    var skip :- Times(i, HeadSize(e));
    var pos :- Plus(base, skip);
    var v :- DecHead(e, blob, base, pos);
    var rest :- DecElems(e, blob, base, i + 1, n);
    Ok([v] + rest)
  }

  /** The field walk over the types `ts`, the first of which sits `cursor` bytes past `base`. */
  function DecItems(ts: seq<Ty>, blob: bytes, base: nat, cursor: nat): Result<seq<Val>>
    requires AllOk(ts)
    decreases ts, 0
  {
    if ts == [] then Ok([]) else
    var pos :- Plus(base, cursor);
    var v :- DecHead(ts[0], blob, base, pos);
    var rest :- DecItems(ts[1..], blob, base, cursor + HeadSize(ts[0]));
    Ok([v] + rest)
  }

  /** Decoding a whole argument list from the start of the blob. */
  function Decode(ts: seq<Ty>, blob: bytes): Result<seq<Val>>
    requires AllOk(ts)
  {
    DecItems(ts, blob, 0, 0)
  }
}
