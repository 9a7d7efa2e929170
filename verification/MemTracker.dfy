/** The memory-content tracker: constants the translator remembers about memory words and
single-assignment locals, and what it folds with them. */
module MemTracker {
  import opened Bytes
  import opened FlatMemory

  type uint64 = x: int | 0 <= x < TWO_64

  datatype Op = Add | Sub | Mul | Mod

  /** EVM arithmetic wraps at 256 bits. */
  function Wrap256(v: int): nat { v % TWO_256 }

  /** What the EVM computes from two words. */
  function Evm(op: Op, a: nat, b: nat): nat {
    match op
    case Add => Wrap256(a + b)
    case Sub => Wrap256(a - b)
    case Mul => Wrap256(a * b)
    case Mod => if b == 0 then 0 else a % b
  }

  /** addmod and mulmod (op is Add or Mul) reduce the exact sum or product. */
  function EvmReduced(op: Op, a: nat, b: nat, d: nat): nat {
    if d == 0 then 0
    else if op.Mul? then a * b % d
    else (a + b) % d
  }

  datatype Expr =
    | Lit(n: nat)
    | Var(name: string)
    | Arith(op: Op, left: Expr, right: Expr)
    | OpMod(op: Op, left: Expr, right: Expr, modulus: Expr)   // addmod and mulmod
    | Mload(off: Expr)
    | Keccak(off: Expr, len: Expr)
    | Input(arg: Expr)                       // calldata, storage, context: anything else
    | Plus(base: Expr, delta: nat)           // emitted: an addition that does not wrap
    | HashWords(names: seq<string>)          // emitted: the hash of the words these locals hold
    | HashParam(param: string, last: Expr)   // emitted: of a parameter's bytes and a word
    | NoCode                                 // emitted: nothing could be built

  datatype Case = Case(literal: Option<nat>, body: seq<Stmt>)     // None is `default`

  datatype Stmt =
    | Let(name: string, value: Expr)
    | Bind(name: string, value: Expr)        // a parameter of an inlined call
    | Copy(name: string, value: Expr)        // its return variable or result: never recorded
    | Assign(name: string, value: Expr)
    | Mstore(off: Expr, value: Expr)
    | Clobber(operands: seq<Stmt>, region: Region, call: State -> Option<Effect>)
    | Silent(names: set<string>, region: Region, call: State -> Option<Effect>)
    | Move(dst: Expr, src: Expr, full: nat, rest: nat, temp: string)   // full words and rest bytes
    | Scatter(dst: Expr, words: seq<Expr>, tail: Expr, rest: nat, temp: string)   // emitted
    | Revert                                 // revert(0, 0)
    | Scope(body: seq<Stmt>)
    | If(cond: Expr, body: seq<Stmt>)
    | Switch(cond: Expr, cases: seq<Case>)
    | For(pre: seq<Stmt>, cond: Expr, post: seq<Stmt>, body: seq<Stmt>)
    | Inline(body: seq<Stmt>)                // the body of an inlined function
    | Break
    | Continue
    | Leave

  /* A builtin in statement position that writes memory (mstore8, returndatacopy, mcopy of a
  run-time length, pop(call(..))) is a Clobber: the tracker forgets, then the code of its
  operands is translated, then the builtin writes. An mcopy of constant length is a Clobber
  that writes nothing, followed by a Move. A call whose result is bound, assigned or used in
  an expression, and a call of a recursive function, is Silent: nothing is forgotten. */

  /** Statements that contain no others. */
  predicate Simple(stmt: Stmt) {
    !(stmt.Clobber? || stmt.Scope? || stmt.If? || stmt.Switch? || stmt.For? || stmt.Inline?)
  }

  /** What a builtin or call may write. */
  datatype Region = Nowhere | Range(off: nat, len: nat) | Anywhere

  /** The results, and the bytes written at the start of the range or the new memory. */
  datatype Effect = Effect(results: map<string, nat>, data: bytes)

  datatype State = State(env: map<string, nat>, mem: bytes)

  /** What the translator takes as given: the hash, the inputs of the run, the names that are
  assigned anywhere, the names that an inlined frame renamed; the local that holds the word at
  each calldata head offset, the locals that hold the fields of the struct at a head offset and
  of a struct local, and the bytes of a parameter. */
  datatype Context = Context(
    hash: bytes -> nat, input: nat -> nat, reassigned: set<string>, inlined: set<string>,
    calldata: map<nat, string>, structs: map<nat, seq<string>>, tuples: map<string, seq<string>>,
    raw: (string, nat) -> bytes)

  // ---- meaning ----------------------------------------------------------------------

  function Eval(c: Context, e: Expr, s: State): Option<nat> {
    match e
    case Lit(n) => Some(n)
    case Var(x) => if x in s.env then Some(s.env[x]) else None
    case Arith(op, l, r) =>
      var a :- Eval(c, l, s);
      var b :- Eval(c, r, s);
      Some(Evm(op, a, b))
    case OpMod(op, l, r, m) =>
      var a :- Eval(c, l, s);
      var b :- Eval(c, r, s);
      var d :- Eval(c, m, s);
      Some(EvmReduced(op, a, b, d))
    case Mload(o) =>
      var a :- Eval(c, o, s);
      var w :- Extract3(s.mem, a, 32);
      Some(Number(w))
    case Keccak(o, l) =>
      var a :- Eval(c, o, s);
      var n :- Eval(c, l, s);
      var w :- if n == 0 then Some([]) else Extract3(s.mem, a, n);
      Some(c.hash(w))
    case Input(a) =>
      var v :- Eval(c, a, s);
      Some(c.input(v))
    case Plus(e, delta) =>
      var v :- Eval(c, e, s);
      Some(v + delta)
    case HashWords(names) =>
      var w :- WordsOf(names, s.env);
      Some(c.hash(w))
    case NoCode => None
    case HashParam(x, e) =>
      var v :- Eval(c, e, s);
      if x in s.env then Some(c.hash(c.raw(x, s.env[x]) + BigEndian(32, v))) else None
  }

  /** The words that locals hold, one after the other. */
  function WordsOf(names: seq<string>, env: map<string, nat>): Option<bytes> {
    if |names| == 0 then Some([])
    else if names[0] !in env then None
    else
      var rest :- WordsOf(names[1..], env);
      Some(BigEndian(32, env[names[0]]) + rest)
  }

  function EvalAll(c: Context, es: seq<Expr>, s: State): Option<seq<nat>> {
    if |es| == 0 then Some([]) else
    var v :- Eval(c, es[0], s);
    var rest :- EvalAll(c, es[1..], s);
    Some([v] + rest)
  }

  /** Numbers as words, one after the other. */
  function WordBytes(vals: seq<nat>): (b: bytes)
    ensures |b| == 32 * |vals|
  {
    if |vals| == 0 then [] else BigEndian(32, vals[0]) + WordBytes(vals[1..])
  }

  datatype Outcome =
    | Done(s: State)
    | Broke(s: State)
    | Continues(s: State)
    | Left(s: State)
    | Halted
    | NoFuel

  function Exec(c: Context, n: nat, stmt: Stmt, s: State): Outcome
    decreases n, 1, stmt, 0
  {
    match stmt
    case Let(x, e) => Set(x, Eval(c, e, s), s)
    case Bind(x, e) => Set(x, Eval(c, e, s), s)
    case Copy(x, e) => Set(x, Eval(c, e, s), s)
    case Assign(x, e) => Set(x, Eval(c, e, s), s)
    case Mstore(o, e) => Store(Eval(c, o, s), Eval(c, e, s), s)
    case Clobber(operands, region, f) =>
      (match ExecAll(c, n, operands, s)
       case Done(s1) => Call({}, region, f(s1), s1)
       case other => other)
    case Move(dst, src, full, rest, x) =>
      Put(Eval(c, dst, s), Source(s.mem, Eval(c, src, s), full, rest), full, rest, x, s)
    case Scatter(dst, words, tail, rest, x) =>
      Put(Eval(c, dst, s), Gathered(EvalAll(c, words, s), LastWord(c, tail, rest, s), rest), |words|, rest, x, s)
    case Silent(names, region, f) => Call(names, region, f(s), s)
    case Revert => Halted
    case Scope(body) => ExecAll(c, n, body, s)
    case If(e, body) =>
      (match Eval(c, e, s)
       case None => Halted
       case Some(v) => if v != 0 then ExecAll(c, n, body, s) else Done(s))
    case Switch(e, cases) =>
      (match Eval(c, e, s)
       case None => Halted
       case Some(v) => ExecCase(c, n, cases, Chosen(v, cases), s))
    case For(pre, e, post, body) =>
      (match ExecAll(c, n, pre, s)
       case Done(s1) => Loop(c, n, e, post, body, s1)
       case other => other)
    case Inline(body) =>
      (match ExecAll(c, n, body, s)
       case Left(s1) => Done(s1)
       case other => other)
    case Break => Broke(s)
    case Continue => Continues(s)
    case Leave => Left(s)
  }

  function Set(x: string, v: Option<nat>, s: State): Outcome {
    match v
    case None => Halted
    case Some(v) => Done(s.(env := s.env[x := v]))
  }

  /** A call gives values to its names and writes inside its region. */
  function Call(names: set<string>, region: Region, effect: Option<Effect>, s: State): Outcome {
    match effect
    case None => Halted
    case Some(e) =>
      match Written(s.mem, region, e.data)
      case None => Halted
      case Some(mem) => Done(State(s.env + map x | x in names && x in e.results :: e.results[x], mem))
  }

  /** The size in whole words. */
  function Rounded(full: nat, rest: nat): nat {
    32 * full + (if rest == 0 then 0 else 32)
  }

  /** What mcopy moves: the old bytes of the source, whose whole words must lie in memory. */
  function Source(mem: bytes, src: Option<nat>, full: nat, rest: nat): Option<bytes> {
    if rest >= 32 || src.None? || src.value + Rounded(full, rest) > |mem| then None
    else Some(mem[src.value..src.value + 32 * full + rest])
  }

  /** What the unrolled copy moves: words, and the first bytes of the word behind them. */
  function Gathered(words: Option<seq<nat>>, tail: Option<nat>, rest: nat): Option<bytes> {
    if rest >= 32 || words.None? || tail.None? then None
    else Some(WordBytes(words.value) + BigEndian(32, tail.value)[..rest])
  }

  function LastWord(c: Context, tail: Expr, rest: nat, s: State): Option<nat> {
    if rest == 0 then Some(0) else Eval(c, tail, s)
  }

  /** All is read before anything is written. Whole words must fit, and the last full word
  stays in x. */
  function Put(dst: Option<nat>, data: Option<bytes>, full: nat, rest: nat, x: string, s: State): Outcome {
    if dst.None? || data.None? || |data.value| != 32 * full + rest || dst.value + Rounded(full, rest) > |s.mem|
       || rest >= 32
    then Halted
    else Done(State(Keep(x, data.value, full, s.env), Over(s.mem, dst.value, data.value)))
  }

  /** The names after x was given the k-th word of data, if there is one. */
  function Keep(x: string, data: bytes, k: nat, env: map<string, nat>): map<string, nat>
    requires 32 * k <= |data|
  {
    if k == 0 then env else env[x := Number(data[32 * (k - 1)..32 * k])]
  }

  /** At most the range is written; a range past the end of memory fails, and memory keeps its
  size. */
  function Written(mem: bytes, region: Region, data: bytes): Option<bytes> {
    match region
    case Nowhere => Some(mem)
    case Range(off, len) =>
      if |data| <= len && off + |data| <= |mem| then Some(Over(mem, off, data)) else None
    case Anywhere => if |data| == |mem| then Some(data) else None
  }

  /** A store past the end of memory fails. */
  function Store(off: Option<nat>, v: Option<nat>, s: State): Outcome {
    if off.None? || v.None? || off.value + 32 > |s.mem| then Halted
    else Done(s.(mem := Over(s.mem, off.value, BigEndian(32, v.value))))
  }

  function ExecAll(c: Context, n: nat, ss: seq<Stmt>, s: State): Outcome
    decreases n, 1, ss, 0
  {
    if |ss| == 0 then Done(s) else
    match Exec(c, n, ss[0], s)
    case Done(s1) => ExecAll(c, n, ss[1..], s1)
    case other => other
  }

  /** Which case runs: the first with the literal v, else the default, else none (|cases|). */
  function Chosen(v: nat, cases: seq<Case>): (i: nat)
    ensures i <= |cases|
  {
    var i := First(cases, Some(v), 0);
    if i < |cases| then i else First(cases, None, 0)
  }

  function First(cases: seq<Case>, literal: Option<nat>, from: nat): (i: nat)
    requires from <= |cases|
    ensures i <= |cases|
    decreases |cases| - from
  {
    if from == |cases| || cases[from].literal == literal then from
    else First(cases, literal, from + 1)
  }

  function ExecCase(c: Context, n: nat, cases: seq<Case>, i: nat, s: State): Outcome
    decreases n, 1, cases, 0
  {
    if i >= |cases| then Done(s) else ExecAll(c, n, cases[i].body, s)
  }

  function Loop(c: Context, n: nat, e: Expr, post: seq<Stmt>, body: seq<Stmt>, s: State): Outcome
    decreases n, 0
  {
    if n == 0 then NoFuel else
    match Eval(c, e, s)
    case None => Halted
    case Some(v) =>
      if v == 0 then Done(s) else
      match ExecAll(c, n - 1, body, s)
      case Done(s1) => AfterBody(c, n, e, post, body, s1)
      case Continues(s1) => AfterBody(c, n, e, post, body, s1)
      case Broke(s1) => Done(s1)
      case other => other
  }

  function AfterBody(c: Context, n: nat, e: Expr, post: seq<Stmt>, body: seq<Stmt>, s: State): Outcome
    requires n > 0
    decreases n - 1, 2
  {
    match ExecAll(c, n - 1, post, s)
    case Done(s1) => Loop(c, n - 1, e, post, body, s1)
    case other => other
  }

  // ---- the tracker ------------------------------------------------------------------

  /** Constants of locals and of memory words, the value of the last `mstore`, and the locals
  bound to a literal other than zero. */
  datatype Tracker = Tracker(
    locals: map<string, uint64>, mem: map<nat, uint64>, last: Option<Expr>, nonzero: set<string>)

  /** What is known at the start of a block. */
  function Blank(): Tracker {
    Tracker(map[], map[], None, {})
  }

  /** `invalidateMemConstants`. */
  function Forget(t: Tracker): Tracker {
    t.(mem := map[], last := None)
  }

  /** Record x, unless it is assigned somewhere or its value is not known. */
  function Record(c: Context, t: Tracker, x: string, v: Option<uint64>): Tracker {
    if v.Some? && x !in c.reassigned then t.(locals := t.locals[x := v.value])
    else t.(locals := t.locals - {x})
  }

  /** Declaring x also says whether it is a literal other than zero. */
  function RecordLet(c: Context, t: Tracker, x: string, e: Expr): Tracker {
    var t1 := Record(c, t, x, ResolveYul(c, e, t));
    t1.(nonzero := if e.Lit? && e.n != 0 && x !in c.reassigned then t.nonzero + {x} else t.nonzero - {x})
  }

  /** The folders' own arithmetic, before it is cut to 64 bits. */
  function Apply(op: Op, a: uint64, b: uint64): int {
    match op
    case Add => a + b
    case Sub => a - b
    case Mul => a * b
    case Mod => if b == 0 then 0 else a % b
  }

  function Exact(op: Op, a: uint64, b: uint64): nat {
    if op.Mul? then a * b else a + b
  }

  function Fold64(v: int): uint64 { v % TWO_64 }

  /** `resolveConstantYulValue`: 64-bit arithmetic that wraps. It looks names up as they were
  before renaming, so it never finds a local of an inlined frame. */
  function ResolveYul(c: Context, e: Expr, t: Tracker): Option<uint64> {
    match e
    case Lit(n) => if n < TWO_64 then Some(n) else None
    case Var(x) => if x in t.locals && x !in c.inlined then Some(t.locals[x]) else None
    case Arith(op, l, r) =>
      var a :- ResolveYul(c, l, t);
      var b :- ResolveYul(c, r, t);
      if op.Mod? then None else Some(Fold64(Apply(op, a, b)))
    case Mload(o) =>
      var a :- ResolveYul(c, o, t);
      if a in t.mem then Some(t.mem[a]) else None
    case _ => None
  }

  /** `resolveConstantOffset`, on a lowered expression. A lowered subtraction adds 2^256
  first, which has no 64-bit value; `mod` is a plain operation only for a divisor known not to
  be zero. */
  function ResolveOffset(e: Expr, t: Tracker): Option<uint64> {
    match e
    case Lit(n) => if n < TWO_64 then Some(n) else None
    case Var(x) => if x in t.locals then Some(t.locals[x]) else None
    case Arith(op, l, r) =>
      var a :- ResolveOffset(l, t);
      if op.Mod? then ResolveMod(a, r, t) else
      var b :- ResolveOffset(r, t);
      if op.Sub? then None else Some(Fold64(Apply(op, a, b)))
    case OpMod(op, l, r, m) =>
      var a :- ResolveOffset(l, t);
      var b :- ResolveOffset(r, t);
      ResolveMod(Fold64(Exact(op, a, b)), m, t)
    case Plus(e, delta) =>
      var a :- ResolveOffset(e, t);
      Some(Fold64(a + delta))
    case _ => None
  }

  /** A divisor that does not fit in 64 bits leaves the dividend as it is. */
  function ResolveMod(a: uint64, r: Expr, t: Tracker): Option<uint64> {
    if r.Lit? && r.n != 0 then Some(if r.n < TWO_64 then a % r.n else a)
    else if r.Var? && r.name in t.nonzero && r.name in t.locals && t.locals[r.name] > 0
    then Some(a % t.locals[r.name])
    else None
  }

  predicate In64(v: int) { 0 <= v < TWO_64 }

  /** Every fold of the resolver fits in 64 bits. */
  predicate YulFits(c: Context, e: Expr, t: Tracker) {
    match e
    case Arith(op, l, r) =>
      && YulFits(c, l, t) && YulFits(c, r, t)
      && (op.Mod? || OpFits(op, ResolveYul(c, l, t), ResolveYul(c, r, t)))
    case Mload(o) => YulFits(c, o, t)
    case _ => true
  }

  predicate OffsetFits(e: Expr, t: Tracker) {
    match e
    case Arith(op, l, r) =>
      OffsetFits(l, t) && OffsetFits(r, t) &&
      (op.Sub? || op.Mod? || OpFits(op, ResolveOffset(l, t), ResolveOffset(r, t)))
    case OpMod(op, l, r, m) =>
      && OffsetFits(l, t) && OffsetFits(r, t) && OffsetFits(m, t)
      && (ResolveOffset(l, t).Some? && ResolveOffset(r, t).Some? ==>
            In64(Exact(op, ResolveOffset(l, t).value, ResolveOffset(r, t).value)))
    case Plus(e, delta) => OffsetFits(e, t) && (ResolveOffset(e, t).Some? ==> In64(ResolveOffset(e, t).value + delta))
    case _ => true
  }

  predicate OpFits(op: Op, a: Option<uint64>, b: Option<uint64>) {
    a.Some? && b.Some? ==> In64(Apply(op, a.value, b.value))
  }

  /** Expression lowering: a constant offset is folded into the access, the hash of a known
  word is computed now, and `handleMload` takes a calldata head offset for a parameter. */
  function Lower(c: Context, e: Expr, t: Tracker): Expr {
    match e
    case Lit(_) => e
    case Var(_) => e
    case Arith(op, l, r) => Arith(op, Lower(c, l, t), Lower(c, r, t))
    case OpMod(op, l, r, m) => OpMod(op, Lower(c, l, t), Lower(c, r, t), Lower(c, m, t))
    case Mload(o) => LowerLoad(c, Lower(c, o, t), t)
    case Keccak(o, l) => LowerHash(c, Lower(c, o, t), Lower(c, l, t), t)
    case Input(a) => Input(Lower(c, a, t))
    case _ => e                              // not source expressions
  }

  /** `handleMload` on a lowered offset. */
  function LowerLoad(c: Context, o: Expr, t: Tracker): Expr {
    if ReadsCalldata(c, o, t) then Var(c.calldata[ResolveOffset(o, t).value]) else Mload(Folded(o, t))
  }

  /** `handleKeccak256` on a lowered offset and length: the fields of a struct local; a known
  word; a parameter's bytes and the word stored last; the fields of a struct parameter; and
  otherwise memory. */
  function LowerHash(c: Context, o: Expr, l: Expr, t: Tracker): Expr {
    var off, len := ResolveOffset(o, t), ResolveOffset(l, t);
    if HashesTuple(c, o, len) then HashWords(c.tuples[o.name])
    else if HashesKnown(off, len, t) then Lit(c.hash(BigEndian(32, t.mem[off.value])))
    else if HashesParam(c, off, len, t) then HashParam(c.calldata[off.value - 32], t.last.value)
    else if HashesStruct(c, off, len) then HashWords(c.structs[off.value])
    else Keccak(Folded(o, t), Narrowed(off, l, t))
  }

  predicate HashesTuple(c: Context, o: Expr, len: Option<uint64>) {
    && o.Var? && len.Some? && o.name in c.tuples && c.tuples[o.name] != []
    && Int32(len.value) == 32 * |c.tuples[o.name]|
  }

  predicate HashesKnown(off: Option<uint64>, len: Option<uint64>, t: Tracker) {
    off.Some? && len == Some(32) && off.value in t.mem
  }

  /** The offset is one word behind a head offset, and the length is not constant. */
  predicate HashesParam(c: Context, off: Option<uint64>, len: Option<uint64>, t: Tracker) {
    off.Some? && len.None? && off.value >= 32 && off.value - 32 in c.calldata && t.last.Some?
  }

  predicate HashesStruct(c: Context, off: Option<uint64>, len: Option<uint64>) {
    && off.Some? && len.Some? && off.value in c.structs && c.structs[off.value] != []
    && len.value % 32 == 0 && Int32(len.value / 32) == |c.structs[off.value]|
  }

  /** A constant length is cut to 32 bits. For one that then is not positive no code is built,
  except for zero at a constant offset. */
  function Narrowed(off: Option<uint64>, l: Expr, t: Tracker): Expr {
    var len := ResolveOffset(l, t);
    if len.None? then l
    else if len.value == 0 && off.Some? then Lit(0)
    else if Int32(len.value) > 0 then Lit(Int32(len.value))
    else NoCode
  }

  /** A constant length that does not come through. */
  predicate Lost(off: Option<uint64>, len: Option<uint64>) {
    len.Some? && (len.value >= 0x8000_0000 || (len.value == 0 && off.None?))
  }

  /** The hash is taken of something other than the bytes in memory. */
  predicate HashesOther(c: Context, o: Expr, l: Expr, t: Tracker) {
    var off, len := ResolveOffset(o, t), ResolveOffset(l, t);
    || HashesTuple(c, o, len)
    || (!HashesKnown(off, len, t) &&
        (HashesParam(c, off, len, t) || HashesStruct(c, off, len) || Lost(off, len)))
  }

  predicate ReadsCalldata(c: Context, off: Expr, t: Tracker) {
    ResolveOffset(off, t).Some? && ResolveOffset(off, t).value in c.calldata
  }

  function Folded(e: Expr, t: Tracker): Expr {
    var v := ResolveOffset(e, t);
    if v.Some? then Lit(v.value) else e
  }

  predicate LowerFits(c: Context, e: Expr, t: Tracker) {
    match e
    case Arith(_, l, r) => LowerFits(c, l, t) && LowerFits(c, r, t)
    case OpMod(_, l, r, m) => LowerFits(c, l, t) && LowerFits(c, r, t) && LowerFits(c, m, t)
    case Mload(o) =>
      var o1 := Lower(c, o, t);
      LowerFits(c, o, t) && OffsetFits(o1, t) && !ReadsCalldata(c, o1, t)
    case Keccak(o, l) =>
      && LowerFits(c, o, t) && OffsetFits(Lower(c, o, t), t)
      && LowerFits(c, l, t) && OffsetFits(Lower(c, l, t), t)
      && !HashesOther(c, Lower(c, o, t), Lower(c, l, t), t)
    case Input(a) => LowerFits(c, a, t)
    case Lit(_) => true
    case Var(_) => true
    case _ => false
  }

  /** The word at o and the range at off share a byte. */
  predicate Meets(o: nat, off: nat, len: nat) {
    len > 0 && o < off + len && off < o + 32
  }

  /** No tracked word shares a byte with the region. */
  predicate Untouched(t: Tracker, region: Region) {
    match region
    case Nowhere => true
    case Range(off, len) => forall o :: o in t.mem ==> !Meets(o, off, len)
    case Anywhere => t.mem == map[]
  }

  /** Two words are the same or do not overlap. */
  predicate Apart(o: nat, p: nat) {
    o == p || o + 32 <= p || p + 32 <= o
  }

  predicate ApartFromAll(t: Tracker, p: nat) {
    forall o :: o in t.mem ==> Apart(o, p)
  }

  function Without(mem: map<nat, uint64>, off: nat): map<nat, uint64> {
    map p | p in mem && p != off :: mem[p]
  }

  /** `handleMstore` on the tracker: `off` and `v` are the resolved operands, e is the lowered
  value. */
  function TrackStore(t: Tracker, off: Option<uint64>, v: Option<uint64>, e: Expr): Tracker {
    if off.None? then Forget(t).(last := Some(e))
    else if v.Some? then t.(mem := t.mem[off.value := v.value], last := Some(e))
    else t.(mem := Without(t.mem, off.value), last := Some(e))
  }

  /** An offset delta bytes further on. */
  function AtOff(e: Expr, delta: nat): Expr {
    if delta == 0 then e else Plus(e, delta)
  }

  /** The unrolled reads of the first k words from o on. */
  function LoadWords(c: Context, o: Expr, k: nat, t: Tracker): (words: seq<Expr>)
    ensures |words| == k
  {
    seq(k, w requires 0 <= w < k => LowerLoad(c, AtOff(o, 32 * w), t))
  }

  /** No word is taken from calldata, and the offsets fit in 64 bits. */
  predicate LoadWordsFit(c: Context, o: Expr, k: nat, t: Tracker) {
    forall w :: 0 <= w < k ==> OffsetFits(AtOff(o, 32 * w), t) && !ReadsCalldata(c, AtOff(o, 32 * w), t)
  }

  /** The stores of k words from d on, of values not known. */
  function TrackWords(t: Tracker, d: Expr, k: nat, x: string): Tracker {
    if k == 0 then t
    else TrackStore(TrackWords(t, d, k - 1, x), ResolveOffset(AtOff(d, 32 * (k - 1)), t), None, Var(x))
  }

  /** What is written at a lowered offset. */
  function RegionAt(d: Expr, len: nat, t: Tracker): Region {
    var off := ResolveOffset(d, t);
    if off.Some? then Range(off.value, len) else Anywhere
  }

  /** Emitted code, the tracker afterwards, whether what the translator saw is within its
  assumptions, and the memory entries it held at each `leave`. The assumptions: folds fit in
  64 bits; no constant load is at a calldata head offset and no hash is of anything but memory;
  constant stores do not touch a tracked word in part, and calls that it overlooks and builtins
  whose operands it translated after forgetting do not touch one at all; and at the end of an
  inlined function it holds only entries that it held at every `leave` inside. */
  datatype Result = Result(code: seq<Stmt>, t: Tracker, clean: bool, leaves: seq<map<nat, uint64>>)

  /** Every entry of `known` is an entry of `m`. */
  predicate Covers(m: map<nat, uint64>, known: map<nat, uint64>) {
    forall o :: o in known ==> o in m && m[o] == known[o]
  }

  predicate AllCover(leaves: seq<map<nat, uint64>>, known: map<nat, uint64>) {
    forall i :: 0 <= i < |leaves| ==> Covers(leaves[i], known)
  }

  /** `after` translates the post block of the enclosing loop, once per `continue`. */
  function Translate(c: Context, stmt: Stmt, t: Tracker, after: Tracker -> Result): Result
    decreases stmt, 0
  {
    match stmt
    case Let(x, e) =>
      var t1 := RecordLet(c, t, x, e);
      Result([Let(x, Lower(c, e, t1))], t1, YulFits(c, e, t) && LowerFits(c, e, t1), [])
    case Bind(x, e) =>
      var e1 := Lower(c, e, t);
      var t1 := Record(c, t, x, ResolveOffset(e1, t));
      Result([Bind(x, e1)], t1, LowerFits(c, e, t) && OffsetFits(e1, t), [])
    case Copy(x, _) => Result([stmt], t, x !in t.locals, [])
    case Assign(x, e) =>
      var t1 := Record(c, t, x, None);
      Result([Assign(x, Lower(c, e, t1))], t1, LowerFits(c, e, t1), [])
    case Mstore(o, e) =>
      var o1, e1 := Lower(c, o, t), Lower(c, e, t);
      var off, v := ResolveOffset(o1, t), ResolveOffset(e1, t);
      Result([Mstore(Folded(o1, t), e1)], TrackStore(t, off, v, e1),
             && LowerFits(c, o, t) && LowerFits(c, e, t) && OffsetFits(o1, t) && OffsetFits(e1, t)
             && (off.Some? ==> ApartFromAll(t, off.value)), [])
    case Clobber(operands, region, f) =>
      var b := TranslateAll(c, operands, Forget(t), after);
      Result([Clobber(b.code, region, f)], b.t, b.clean && Untouched(b.t, region), b.leaves)
    case Move(dst, src, full, rest, x) =>
      var d, o := Lower(c, dst, t), Lower(c, src, t);
      var t1 := TrackWords(t, d, full, x);
      Result([Scatter(Folded(d, t), LoadWords(c, o, full, t), Mload(AtOff(o, 32 * full)), rest, x)], t1,
             && LowerFits(c, dst, t) && LowerFits(c, src, t) && OffsetFits(d, t) && LoadWordsFit(c, o, full, t)
             && x !in t.locals && Untouched(t1, RegionAt(d, 32 * full + rest, t)), [])
    case Scatter(_, _, _, _, _) => Result([stmt], Forget(t), false, [])   // not a source statement
    case Silent(names, region, _) => Result([stmt], t, names !! t.locals.Keys && Untouched(t, region), [])
    case Revert => Result([stmt], t, true, [])
    case Scope(body) =>
      var b := TranslateAll(c, body, t, after);
      b.(code := [Scope(b.code)])
    case If(e, body) =>
      var e1 := Lower(c, e, t);
      if |body| == 1 && body[0].Revert? then Result([If(e1, body)], t, LowerFits(c, e, t), [])
      else
        var b := TranslateAll(c, body, t, after);
        Result([If(e1, b.code)], Forget(b.t), LowerFits(c, e, t) && b.clean, b.leaves)
    case Switch(e, cases) =>
      var b := TranslateCases(c, cases, t, after);
      Result([Switch(Lower(c, e, t), b.code)], Forget(b.t), LowerFits(c, e, t) && b.clean, b.leaves)
    case For(pre, e, post, body) =>
      var p := TranslateAll(c, pre, t, after);
      var t1 := Forget(p.t);
      var b := TranslateAll(c, body, t1, t' => TranslateAll(c, post, t', Nothing));
      var q := TranslateAll(c, post, b.t, Nothing);
      Result([For(p.code, Lower(c, e, t1), [], b.code + q.code)], Forget(q.t),
             p.clean && LowerFits(c, e, t1) && b.clean && q.clean, p.leaves + b.leaves + q.leaves)
    case Inline(body) =>
      var k := LeaveAt(body);
      assert k < |body| || body[..k] == body;
      var b := TranslateAll(c, body[..k], t, Nothing);
      Result([Inline(b.code)], b.t, b.clean && AllCover(b.leaves, b.t.mem), [])
    case Break => Result([stmt], t, true, [])
    case Continue =>
      var q := after(t);
      q.(code := q.code + [Continue])
    case Leave => Result([stmt], t, true, [t.mem])
  }

  /** Outside loops there is no post block. */
  function Nothing(t: Tracker): Result {
    Result([], t, true, [])
  }

  function TranslateAll(c: Context, ss: seq<Stmt>, t: Tracker, after: Tracker -> Result): Result
    decreases ss, 0
  {
    if |ss| == 0 then Nothing(t) else
    var first := Translate(c, ss[0], t, after);
    var rest := TranslateAll(c, ss[1..], first.t, after);
    Result(first.code + rest.code, rest.t, first.clean && rest.clean, first.leaves + rest.leaves)
  }

  datatype CasesResult =
    CasesResult(code: seq<Case>, t: Tracker, clean: bool, leaves: seq<map<nat, uint64>>)

  /** Each case starts with no memory knowledge. */
  function TranslateCases(c: Context, cases: seq<Case>, t: Tracker, after: Tracker -> Result)
    : (r: CasesResult)
    ensures |r.code| == |cases|
    decreases cases, 0
  {
    if |cases| == 0 then CasesResult([], t, true, []) else
    var b := TranslateAll(c, cases[0].body, Forget(t), after);
    var rest := TranslateCases(c, cases[1..], b.t, after);
    CasesResult([Case(cases[0].literal, b.code)] + rest.code, rest.t,
                b.clean && rest.clean, b.leaves + rest.leaves)
  }

  /** Statements after a top-level `leave` are not translated, and at the end of the body the
  `leave` itself adds nothing. */
  function LeaveAt(body: seq<Stmt>): (k: nat)
    ensures k <= |body|
    ensures k < |body| ==> body[k].Leave?
  {
    if |body| == 0 || body[0].Leave? then 0 else 1 + LeaveAt(body[1..])
  }

  // ---- the table ------------------------------------------------------------------------

  /** One table holds both kinds of constants; memory words have keys of their own. */
  datatype Key = Local(name: string) | MemWord(off: nat)

  class Constants {
    var entries: map<Key, uint64>
    var lastMstoreValue: Option<Expr>
    var wideConstants: set<string>           // m_localWideConstants, the non-zero ones

    /** The table holds exactly the constants of t. */
    ghost predicate Shows(t: Tracker)
      reads this
    {
      && (forall x :: x in t.locals <==> Local(x) in entries)
      && (forall x :: x in t.locals ==> entries[Local(x)] == t.locals[x])
      && (forall o: nat :: o in t.mem <==> MemWord(o) in entries)
      && (forall o: nat :: o in t.mem ==> entries[MemWord(o)] == t.mem[o])
      && lastMstoreValue == t.last && wideConstants == t.nonzero
    }

    constructor ()
      ensures Shows(Blank())
    {
      entries, lastMstoreValue, wideConstants := map[], None, {};
    }

    /** `invalidateMemConstants`: one sweep over the table. */
    method Invalidate(ghost t: Tracker)
      requires Shows(t)
      modifies this
      ensures Shows(Forget(t))
    {
      var todo := entries.Keys;
      while todo != {}
        invariant todo <= entries.Keys <= old(entries).Keys
        invariant forall k :: k in entries ==> entries[k] == old(entries)[k] && (k in todo || k.Local?)
        invariant forall k :: k in old(entries) && k.Local? ==> k in entries
        invariant wideConstants == old(wideConstants)
      {
        var k :| k in todo;
        if k.MemWord? {
          entries := entries - {k};
        }
        todo := todo - {k};
      }
      lastMstoreValue := None;
    }

    /** The table update of `handleMstore`. */
    method RecordStore(off: Option<uint64>, v: Option<uint64>, value: Expr, ghost t: Tracker)
      requires Shows(t)
      modifies this
      ensures Shows(TrackStore(t, off, v, value))
    {
      if off.Some? {
        if v.Some? {
          entries := entries[MemWord(off.value) := v.value];
        } else {
          entries := entries - {MemWord(off.value)};
        }
      } else {
        Invalidate(t);
      }
      lastMstoreValue := Some(value);
    }
  }
}
