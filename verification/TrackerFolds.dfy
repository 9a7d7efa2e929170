/** What the tracker knows, apart from being right: which expressions resolve and to what, what
a block remembers, and what is emitted for it. */
module TrackerFolds {
  import opened Bytes
  import opened MemTracker
  import Word256

  // ---- the arithmetic ----------------------------------------------------------------

  /** The arithmetic of the source language is the EVM's, as the run-time code computes it. */
  lemma ArithmeticIsEvm(a: nat, b: nat, d: nat)
    requires Word256.IsWord(a) && Word256.IsWord(b) && Word256.IsWord(d)
    ensures Word256.Add(a, b) == Some(Evm(Add, a, b))
    ensures Word256.Sub(a, b) == Some(Evm(Sub, a, b))
    ensures Word256.Mul(a, b) == Some(Evm(Mul, a, b))
    ensures Word256.SafeMod(a, b, false) == Some(Evm(Mod, a, b))
    ensures Word256.AddMod(a, b, d, false) == Some(EvmReduced(Add, a, b, d))
    ensures Word256.MulMod(a, b, d, false) == Some(EvmReduced(Mul, a, b, d))
  {
    Word256.ModulusInBytes();
    Word256.ArithmeticLowered(a, b, d);
  }

  /** Evaluation applies it to the values of the operands. */
  lemma EvalIsEvm(c: Context, l: Expr, r: Expr, m: Expr, s: State, a: nat, b: nat, d: nat)
    requires Word256.IsWord(a) && Word256.IsWord(b) && Word256.IsWord(d)
    requires Eval(c, l, s) == Some(a) && Eval(c, r, s) == Some(b) && Eval(c, m, s) == Some(d)
    ensures Eval(c, Arith(Add, l, r), s) == Word256.Add(a, b)
    ensures Eval(c, Arith(Sub, l, r), s) == Word256.Sub(a, b)
    ensures Eval(c, Arith(Mul, l, r), s) == Word256.Mul(a, b)
    ensures Eval(c, Arith(Mod, l, r), s) == Some(Word256.EvmMod(a, b))
    ensures Eval(c, OpMod(Add, l, r, m), s) == Word256.AddMod(a, b, d, false)
    ensures Eval(c, OpMod(Mul, l, r, m), s) == Word256.MulMod(a, b, d, false)
  {
    ArithmeticIsEvm(a, b, d);
  }

  // ---- what resolves ------------------------------------------------------------------

  /** Built by add, sub, mul and mload from literals below 2^64, recorded locals of the frame's
  own names and words that are known. */
  ghost predicate YulConstant(c: Context, e: Expr, t: Tracker) {
    match e
    case Lit(n) => n < TWO_64
    case Var(x) => x in t.locals && x !in c.inlined
    case Arith(op, l, r) => !op.Mod? && YulConstant(c, l, t) && YulConstant(c, r, t)
    case Mload(o) => YulConstant(c, o, t) && exists a :: a in t.mem && ResolveYul(c, o, t) == Some(a)
    case _ => false
  }

  /** `resolveConstantYulValue` resolves these expressions and no others. */
  lemma {:induction false} YulResolves(c: Context, e: Expr, t: Tracker)
    ensures ResolveYul(c, e, t).Some? <==> YulConstant(c, e, t)
  {
    match e
    case Arith(_, l, r) =>
      YulResolves(c, l, t);
      YulResolves(c, r, t);
    case Mload(o) => YulResolves(c, o, t);
    case _ =>
  }

  /** Literals and locals stand for themselves, sums and differences wrap at 64 bits, and
  a load gives the word that is known. */
  lemma YulValues(c: Context, l: Expr, r: Expr, t: Tracker, a: uint64, b: uint64)
    requires ResolveYul(c, l, t) == Some(a) && ResolveYul(c, r, t) == Some(b)
    ensures l.Lit? ==> a == l.n
    ensures l.Var? ==> a == t.locals[l.name]
    ensures ResolveYul(c, Arith(Add, l, r), t) == Some(if a + b < TWO_64 then a + b else a + b - TWO_64)
    ensures ResolveYul(c, Arith(Sub, l, r), t) == Some(if a >= b then a - b else a - b + TWO_64)
    ensures a in t.mem ==> ResolveYul(c, Mload(l), t) == Some(t.mem[a])
  {
    FoldsSum(a, b);
  }

  lemma FoldsSum(a: uint64, b: uint64)
    ensures Fold64(a + b) == if a + b < TWO_64 then a + b else a + b - TWO_64
    ensures Fold64(a - b) == if a >= b then a - b else a - b + TWO_64
  {
  }

  lemma FoldsSmall(v: nat)
    ensures v < TWO_64 ==> Fold64(v) == v
  {
  }

  /** A product is exact below 2^64, and beyond it loses a multiple of 2^64. */
  lemma YulProduct(c: Context, l: Expr, r: Expr, t: Tracker, a: uint64, b: uint64)
    requires ResolveYul(c, l, t) == Some(a) && ResolveYul(c, r, t) == Some(b)
    ensures a * b < TWO_64 ==> ResolveYul(c, Arith(Mul, l, r), t) == Some(a * b)
    ensures exists k: nat :: ResolveYul(c, Arith(Mul, l, r), t) == Some(a * b - k * TWO_64)
  {
    var v := a * b;
    assert ResolveYul(c, Arith(Mul, l, r), t) == Some(Fold64(v));
    FoldsSmall(v);
    FoldLoses(v);
  }

  lemma FoldLoses(v: nat)
    ensures exists k: nat :: Fold64(v) == v - k * TWO_64
  {
    var k := Word256.Quotient(v, TWO_64);
    assert Fold64(v) == v - k * TWO_64;
  }

  /** A divisor that the lowering knows not to be zero. */
  predicate Divisor(r: Expr, t: Tracker) {
    || (r.Lit? && r.n > 0)
    || (r.Var? && r.name in t.nonzero && r.name in t.locals && t.locals[r.name] > 0)
  }

  /** Built by add, mul, mod, addmod and mulmod from literals below 2^64 and recorded locals. */
  predicate OffsetConstant(e: Expr, t: Tracker) {
    match e
    case Lit(n) => n < TWO_64
    case Var(x) => x in t.locals
    case Arith(op, l, r) =>
      OffsetConstant(l, t) && !op.Sub? && if op.Mod? then Divisor(r, t) else OffsetConstant(r, t)
    case OpMod(_, l, r, m) => OffsetConstant(l, t) && OffsetConstant(r, t) && Divisor(m, t)
    case Plus(e, _) => OffsetConstant(e, t)
    case _ => false
  }

  /** `resolveConstantOffset` resolves these expressions and no others. */
  lemma {:induction false} OffsetResolves(e: Expr, t: Tracker)
    ensures ResolveOffset(e, t).Some? <==> OffsetConstant(e, t)
  {
    match e
    case Arith(_, l, r) =>
      OffsetResolves(l, t);
      OffsetResolves(r, t);
    case OpMod(_, l, r, _) =>
      OffsetResolves(l, t);
      OffsetResolves(r, t);
    case Plus(b, _) => OffsetResolves(b, t);
    case _ =>
  }

  lemma OffsetValues(l: Expr, r: Expr, t: Tracker, a: uint64, b: uint64)
    requires ResolveOffset(l, t) == Some(a) && ResolveOffset(r, t) == Some(b)
    ensures l.Lit? ==> a == l.n
    ensures l.Var? ==> a == t.locals[l.name]
    ensures ResolveOffset(Arith(Add, l, r), t) == Some(if a + b < TWO_64 then a + b else a + b - TWO_64)
    ensures a * b < TWO_64 ==> ResolveOffset(Arith(Mul, l, r), t) == Some(a * b)
    ensures Divisor(r, t) ==> ResolveOffset(Arith(Mod, l, r), t) == Some(a % b)
    ensures a + b < TWO_64 ==> ResolveOffset(Plus(l, b), t) == Some(a + b)
  {
    FoldsSum(a, b);
    FoldsSmall(a * b);
    if Divisor(r, t) {
      RemainderValue(a, r, t, b);
    }
  }

  lemma ReducedValues(op: Op, l: Expr, r: Expr, m: Expr, t: Tracker, a: uint64, b: uint64, d: uint64)
    requires ResolveOffset(l, t) == Some(a) && ResolveOffset(r, t) == Some(b) && ResolveOffset(m, t) == Some(d)
    requires Divisor(m, t) && (op.Add? || op.Mul?)
    ensures op.Add? && a + b < TWO_64 ==> ResolveOffset(OpMod(op, l, r, m), t) == Some((a + b) % d)
    ensures op.Mul? && a * b < TWO_64 ==> ResolveOffset(OpMod(op, l, r, m), t) == Some(a * b % d)
  {
    var v := if op.Mul? then a * b else a + b;
    if v < TWO_64 {
      FoldsSmall(v);
      assert Exact(op, a, b) == v;
      RemainderValue(v, m, t, d);
      assert ResolveOffset(OpMod(op, l, r, m), t) == ResolveMod(v, m, t);
    }
  }

  lemma RemainderValue(v: uint64, m: Expr, t: Tracker, d: uint64)
    requires ResolveOffset(m, t) == Some(d) && Divisor(m, t)
    ensures d > 0 && ResolveMod(v, m, t) == Some(v % d)
  {
  }

  // ---- what is remembered -------------------------------------------------------------

  /** A declaration records exactly a constant of a name that is never assigned, and whether it
  is a literal other than zero; no other name is affected. */
  lemma DeclarationRecords(c: Context, x: string, e: Expr, t: Tracker, after: Tracker -> Result)
    ensures var t1 := Translate(c, Let(x, e), t, after).t;
            && (x in t1.locals <==> x !in c.reassigned && YulConstant(c, e, t))
            && (x in t1.locals ==> Some(t1.locals[x]) == ResolveYul(c, e, t))
            && (x in t1.nonzero <==> x !in c.reassigned && e.Lit? && e.n > 0)
            && t1.nonzero - {x} == t.nonzero - {x}
            && t1.locals - {x} == t.locals - {x} && t1.mem == t.mem && t1.last == t.last
  {
    YulResolves(c, e, t);
  }

  /** The parameter of an inlined call is recorded by its lowered argument. */
  lemma ParameterRecords(c: Context, x: string, e: Expr, t: Tracker, after: Tracker -> Result)
    ensures var t1 := Translate(c, Bind(x, e), t, after).t;
            && (x in t1.locals <==> x !in c.reassigned && OffsetConstant(Lower(c, e, t), t))
            && (x in t1.locals ==> Some(t1.locals[x]) == ResolveOffset(Lower(c, e, t), t))
            && t1.locals - {x} == t.locals - {x} && t1.mem == t.mem && t1.last == t.last
  {
    OffsetResolves(Lower(c, e, t), t);
  }

  /** A store at a constant offset is emitted at that offset, its word is known afterwards if and
  only if the value is constant, and all other words stay known. */
  lemma StoreRecords(c: Context, o: Expr, e: Expr, t: Tracker, after: Tracker -> Result, p: uint64)
    requires ResolveOffset(Lower(c, o, t), t) == Some(p)
    ensures var r := Translate(c, Mstore(o, e), t, after);
            && r.code == [Mstore(Lit(p), Lower(c, e, t))]
            && (p in r.t.mem <==> OffsetConstant(Lower(c, e, t), t))
            && (p in r.t.mem ==> Some(r.t.mem[p]) == ResolveOffset(Lower(c, e, t), t))
            && r.t.mem - {p} == t.mem - {p} && r.t.locals == t.locals
  {
    OffsetResolves(Lower(c, e, t), t);
  }

  /** Declarations, assignments, conditional reverts, blocks of these, and stores at constant
  offsets other than o. */
  predicate Quiet(stmt: Stmt, o: nat)
    decreases stmt, 0
  {
    match stmt
    case Mstore(off, _) => off.Lit? && off.n < TWO_64 && off.n != o
    case Scope(body) => AllQuiet(body, o)
    case If(_, body) => |body| == 1 && body[0].Revert?
    case _ => stmt.Let? || stmt.Bind? || stmt.Copy? || stmt.Assign? || stmt.Silent? || stmt.Revert?
  }

  predicate AllQuiet(ss: seq<Stmt>, o: nat)
    decreases ss, 0
  {
    |ss| > 0 ==> Quiet(ss[0], o) && AllQuiet(ss[1..], o)
  }

  predicate Remembers(t: Tracker, t1: Tracker, o: nat) {
    o in t.mem ==> o in t1.mem && t1.mem[o] == t.mem[o]
  }

  /** A known word stays known through them. */
  lemma {:induction false} QuietRemembers(c: Context, stmt: Stmt, t: Tracker, after: Tracker -> Result, o: nat)
    requires Quiet(stmt, o)
    ensures Remembers(t, Translate(c, stmt, t, after).t, o)
    decreases stmt, 0
  {
    match stmt
    case Scope(body) => AllQuietRemember(c, body, t, after, o);
    case _ =>
  }

  lemma {:induction false} AllQuietRemember(c: Context, ss: seq<Stmt>, t: Tracker, after: Tracker -> Result, o: nat)
    requires AllQuiet(ss, o)
    ensures Remembers(t, TranslateAll(c, ss, t, after).t, o)
    decreases ss, 0
  {
    if |ss| > 0 {
      QuietRemembers(c, ss[0], t, after, o);
      AllQuietRemember(c, ss[1..], Translate(c, ss[0], t, after).t, after, o);
    }
  }

  /** Only the tracker passes from one part of a block to the next. */
  lemma {:induction false} TranslateConcat(c: Context, ss: seq<Stmt>, tt: seq<Stmt>, t: Tracker,
                                           after: Tracker -> Result)
    ensures var (whole, first) := (TranslateAll(c, ss + tt, t, after), TranslateAll(c, ss, t, after));
            var second := TranslateAll(c, tt, first.t, after);
            whole.t == second.t && whole.code == first.code + second.code
  {
    if |ss| == 0 {
      assert ss + tt == tt;
    } else {
      var r := Translate(c, ss[0], t, after);
      assert (ss + tt)[0] == ss[0] && (ss + tt)[1..] == ss[1..] + tt;
      TranslateConcat(c, ss[1..], tt, r.t, after);
      var rest := TranslateAll(c, ss[1..], r.t, after);
      Regroup(r.code, rest.code, TranslateAll(c, tt, rest.t, after).code);
    }
  }

  lemma Regroup(a: seq<Stmt>, b: seq<Stmt>, d: seq<Stmt>)
    ensures a + (b + d) == a + b + d
  {
  }

  /** WHAT THE TRACKER IS FOR. The hash of a constant stored earlier in the block is computed by
  the translator, whatever quiet statements come between. */
  lemma HashFolds(c: Context, p: uint64, v: uint64, between: seq<Stmt>, h: string, t: Tracker,
                  after: Tracker -> Result)
    requires AllQuiet(between, p)
    ensures var block := [Mstore(Lit(p), Lit(v))] + between + [Let(h, Keccak(Lit(p), Lit(32)))];
            var code := TranslateAll(c, block, t, after).code;
            |code| > 0 && code[|code| - 1] == Let(h, Lit(c.hash(BigEndian(32, v))))
  {
    var store, last := Mstore(Lit(p), Lit(v)), Let(h, Keccak(Lit(p), Lit(32)));
    var t1 := StoredTracker(c, p, v, t, after);
    AllQuietRemember(c, between, t1, after, p);
    var t2 := TranslateAll(c, between, t1, after).t;
    TranslateConcat(c, [store], between, t, after);
    TranslateConcat(c, [store] + between, [last], t, after);
    LastHash(c, p, h, t2, after);
  }

  lemma StoredTracker(c: Context, p: uint64, v: uint64, t: Tracker, after: Tracker -> Result) returns (t1: Tracker)
    ensures t1 == TranslateAll(c, [Mstore(Lit(p), Lit(v))], t, after).t
    ensures p in t1.mem && t1.mem[p] == v
  {
    var store := Mstore(Lit(p), Lit(v));
    StoreRecords(c, Lit(p), Lit(v), t, after, p);
    t1 := Translate(c, store, t, after).t;
    assert [store][1..] == [];
  }

  lemma LastHash(c: Context, p: uint64, h: string, t: Tracker, after: Tracker -> Result)
    requires p in t.mem
    ensures TranslateAll(c, [Let(h, Keccak(Lit(p), Lit(32)))], t, after).code ==
              [Let(h, Lit(c.hash(BigEndian(32, t.mem[p]))))]
  {
    var last := Let(h, Keccak(Lit(p), Lit(32)));
    var t1 := RecordLet(c, t, h, last.value);
    assert Lower(c, last.value, t1) == LowerHash(c, Lit(p), Lit(32), t1);
    assert Translate(c, last, t, after).code == [Let(h, Lit(c.hash(BigEndian(32, t.mem[p]))))];
    assert [last][1..] == [];
  }
}
