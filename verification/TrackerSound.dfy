/** What the tracker remembers is true in every run, and folding with it changes no run. */
module TrackerSound {
  import opened Bytes
  import opened MemTracker

  // ---- names ------------------------------------------------------------------------

  function Reads(e: Expr): set<string> {
    match e
    case Lit(_) => {}
    case Var(x) => {x}
    case Arith(_, l, r) => Reads(l) + Reads(r)
    case OpMod(_, l, r, m) => Reads(l) + Reads(r) + Reads(m)
    case Mload(o) => Reads(o)
    case Keccak(o, l) => Reads(o) + Reads(l)
    case Input(a) => Reads(a)
    case Plus(e, _) => Reads(e)
    case HashWords(names) => set x | x in names
    case HashParam(x, e) => {x} + Reads(e)
    case NoCode => {}
  }

  /** The names a statement may write. */
  function Writes(stmt: Stmt): set<string>
    decreases stmt, 0
  {
    match stmt
    case Let(x, _) => {x}
    case Bind(x, _) => {x}
    case Copy(x, _) => {x}
    case Clobber(operands, _, _) => WritesAll(operands)
    case Silent(names, _, _) => names
    case Move(_, _, _, _, x) => {x}
    case Scatter(_, _, _, _, x) => {x}
    case Assign(x, _) => {x}
    case Scope(body) => WritesAll(body)
    case If(_, body) => WritesAll(body)
    case Switch(_, cases) => WritesCases(cases)
    case For(pre, _, post, body) => WritesAll(pre) + WritesAll(post) + WritesAll(body)
    case Inline(body) => WritesAll(body)
    case _ => {}
  }

  function WritesAll(ss: seq<Stmt>): set<string>
    decreases ss, 0
  {
    if |ss| == 0 then {} else Writes(ss[0]) + WritesAll(ss[1..])
  }

  function WritesCases(cases: seq<Case>): set<string>
    decreases cases, 0
  {
    if |cases| == 0 then {} else WritesAll(cases[0].body) + WritesCases(cases[1..])
  }

  /** The names in scope after a statement, when V are in scope before. */
  function Scoped(stmt: Stmt, V: set<string>): (r: set<string>)
    ensures V <= r
    decreases stmt, 0
  {
    match stmt
    case Let(x, _) => V + {x}
    case Bind(x, _) => V + {x}
    case Copy(x, _) => V + {x}
    case Clobber(operands, _, _) => ScopedAll(operands, V)
    case Silent(names, _, _) => V + names
    case Move(_, _, _, _, x) => V + {x}
    case _ => V
  }

  function ScopedAll(ss: seq<Stmt>, V: set<string>): (r: set<string>)
    ensures V <= r
    decreases ss, 0
  {
    if |ss| == 0 then V else ScopedAll(ss[1..], Scoped(ss[0], V))
  }

  /** Yul's rules for a prepared block: expressions read names in scope; a name in scope is
  written again only if it is in the set of reassigned names, also by the post block W of the
  enclosing loop; `break` and `continue` occur only in loop bodies. */
  predicate WellFormed(c: Context, stmt: Stmt, V: set<string>, W: set<string>, inLoop: bool)
    decreases stmt, 0
  {
    (Writes(stmt) + W) * V <= c.reassigned &&
    match stmt
    case Let(_, e) => Reads(e) <= V
    case Bind(_, e) => Reads(e) <= V
    case Copy(_, e) => Reads(e) <= V
    case Assign(x, e) => Reads(e) <= V && x in c.reassigned
    case Mstore(o, e) => Reads(o) <= V && Reads(e) <= V
    case Clobber(operands, _, _) => AllWellFormed(c, operands, V, W, false)
    case Move(dst, src, full, rest, _) => Reads(dst) <= V && Reads(src) <= V && rest < 32 && full + rest > 0
    case Scope(body) => AllWellFormed(c, body, V, W, inLoop)
    case If(e, body) => Reads(e) <= V && AllWellFormed(c, body, V, W, inLoop)
    case Switch(e, cases) =>
      && Reads(e) <= V
      && forall i :: 0 <= i < |cases| ==> AllWellFormed(c, cases[i].body, V, W, inLoop)
    case For(pre, e, post, body) =>
      var V1 := ScopedAll(pre, V);
      && AllWellFormed(c, pre, V, W, false)
      && Reads(e) <= V1
      && AllWellFormed(c, post, V1, {}, false)
      && AllWellFormed(c, body, V1, WritesAll(post), true)
    case Inline(body) =>
      assert LeaveAt(body) < |body| || body[..LeaveAt(body)] == body;
      AllWellFormed(c, body[..LeaveAt(body)], V, {}, false)
    case Break => inLoop
    case Continue => inLoop
    case _ => true
  }

  predicate AllWellFormed(c: Context, ss: seq<Stmt>, V: set<string>, W: set<string>, inLoop: bool)
    decreases ss, 0
  {
    (WritesAll(ss) + W) * V <= c.reassigned &&
    (|ss| > 0 ==>
      WellFormed(c, ss[0], V, W, inLoop) && AllWellFormed(c, ss[1..], Scoped(ss[0], V), W, inLoop))
  }

  // ---- what the tracker claims -------------------------------------------------------

  /** The tracker is right about a state in which V are in scope. */
  ghost predicate Holds(c: Context, t: Tracker, s: State, V: set<string>) {
    && t.locals.Keys !! c.reassigned
    && (forall x :: x in V && x in t.locals ==> x in s.env && s.env[x] == t.locals[x])
    && AllTrue(t.mem, s.mem)
  }

  ghost predicate AllTrue(known: map<nat, uint64>, mem: bytes) {
    forall o :: o in known ==> WordIs(mem, o, known[o])
  }

  predicate WordIs(mem: bytes, off: nat, v: nat) {
    off + 32 <= |mem| && Number(mem[off..off + 32]) == v
  }

  lemma SmallWrap(v: nat)
    requires v < TWO_64
    ensures Wrap256(v) == v
  {
    SmallFits(v, 32);
    SmallMod(v, TWO_256);
  }

  lemma SmallFits(v: nat, z: nat)
    requires v < TWO_64 && z >= 8
    ensures v < Pow256(z)
  {
    Pow256Of8();
    Pow256Grows(8, z);
  }

  lemma FoldSound(op: Op, a: uint64, b: uint64)
    requires In64(Apply(op, a, b))
    ensures Fold64(Apply(op, a, b)) == Apply(op, a, b) == Evm(op, a, b)
  {
    SmallWrap(Apply(op, a, b));
  }

  /** The fit condition is exact: a 64-bit fold gives the EVM's 256-bit result if and only if
  the result itself lies in 64 bits. */
  lemma FoldExactly(op: Op, a: uint64, b: uint64)
    ensures Fold64(Apply(op, a, b)) == Evm(op, a, b) <==> In64(Apply(op, a, b))
  {
    var v := Apply(op, a, b);
    if In64(v) {
      FoldSound(op, a, b);
    } else {
      ApplyRange(op, a, b);
      WideWrap(v, 32);
    }
  }

  lemma ApplyRange(op: Op, a: uint64, b: uint64)
    ensures 0 - TWO_64 < Apply(op, a, b) < TWO_64 * TWO_64
  {
    if op.Mul? {
      ProductBelow(a, b, TWO_64);
    }
  }

  /** Outside 64 bits, wrapping at a wider power leaves something no 64-bit number equals. */
  lemma WideWrap(v: int, z: nat)
    requires 0 - TWO_64 < v < TWO_64 * TWO_64 && !In64(v) && z >= 17
    ensures v % Pow256(z) >= TWO_64
  {
    Pow256Of8();
    Pow256Grows(16, z);
    Sixteen();
    if v >= 0 {
      SmallMod(v, Pow256(z));
    } else {
      SmallMod(v + Pow256(z), Pow256(z));
      ModShift(v, Pow256(z));
    }
  }

  lemma Sixteen()
    ensures Pow256(16) == TWO_64 * TWO_64
  {
    Pow256Of8();
    assert Pow256(10) == 0x10000 * TWO_64;
    assert Pow256(12) == 0x10000 * 0x10000 * TWO_64;
    assert Pow256(14) == 0x10000 * 0x10000 * 0x10000 * TWO_64;
  }

  lemma ModShift(v: int, m: nat)
    requires m > 0 && v < 0 <= v + m
    ensures v % m == v + m
  {
  }

  lemma ModSound(c: Context, a: uint64, r: Expr, t: Tracker, s: State, V: set<string>)
    requires Holds(c, t, s, V) && Reads(r) <= V && ResolveMod(a, r, t).Some?
    ensures Eval(c, r, s).Some? && Eval(c, r, s).value > 0
    ensures a % Eval(c, r, s).value == ResolveMod(a, r, t).value
  {
    if r.Lit? && r.n >= TWO_64 {
      SmallMod(a, r.n);
    }
  }

  lemma {:induction false} YulSound(c: Context, e: Expr, t: Tracker, s: State, V: set<string>)
    requires Holds(c, t, s, V) && Reads(e) <= V && YulFits(c, e, t) && ResolveYul(c, e, t).Some?
    ensures Eval(c, e, s) == Some(ResolveYul(c, e, t).value)
  {
    match e
    case Arith(op, l, r) =>
      YulSound(c, l, t, s, V);
      YulSound(c, r, t, s, V);
      FoldSound(op, ResolveYul(c, l, t).value, ResolveYul(c, r, t).value);
    case Mload(o) =>
      YulSound(c, o, t, s, V);
    case _ =>
  }

  lemma {:induction false} OffsetSound(c: Context, e: Expr, t: Tracker, s: State, V: set<string>)
    requires Holds(c, t, s, V) && Reads(e) <= V && OffsetFits(e, t) && ResolveOffset(e, t).Some?
    ensures Eval(c, e, s) == Some(ResolveOffset(e, t).value)
  {
    match e
    case Arith(op, l, r) =>
      OffsetSound(c, l, t, s, V);
      if op.Mod? {
        ModSound(c, ResolveOffset(l, t).value, r, t, s, V);
      } else {
        OffsetSound(c, r, t, s, V);
        FoldSound(op, ResolveOffset(l, t).value, ResolveOffset(r, t).value);
      }
    case OpMod(op, l, r, m) =>
      OffsetSound(c, l, t, s, V);
      OffsetSound(c, r, t, s, V);
      var v := Exact(op, ResolveOffset(l, t).value, ResolveOffset(r, t).value);
      SmallMod(v, TWO_64);
      ModSound(c, v, m, t, s, V);
    case Plus(b, delta) =>
      OffsetSound(c, b, t, s, V);
      SmallMod(ResolveOffset(b, t).value + delta, TWO_64);
    case _ =>
  }

  lemma FoldedSound(c: Context, e: Expr, t: Tracker, s: State, V: set<string>)
    requires Holds(c, t, s, V) && Reads(e) <= V && OffsetFits(e, t)
    ensures Eval(c, Folded(e, t), s) == Eval(c, e, s) && Reads(Folded(e, t)) <= V
  {
    if ResolveOffset(e, t).Some? {
      OffsetSound(c, e, t, s, V);
    }
  }

  /** FOLDING EXPRESSIONS. The lowered expression has the value of the original in every state
  the tracker is right about; a folded hash is the hash of the word in memory. */
  lemma {:induction false} LowerSound(c: Context, e: Expr, t: Tracker, s: State, V: set<string>)
    requires Holds(c, t, s, V) && Reads(e) <= V && LowerFits(c, e, t)
    ensures Eval(c, Lower(c, e, t), s) == Eval(c, e, s) && Reads(Lower(c, e, t)) <= V
  {
    match e
    case Arith(_, l, r) =>
      LowerSound(c, l, t, s, V);
      LowerSound(c, r, t, s, V);
    case OpMod(_, l, r, m) =>
      LowerSound(c, l, t, s, V);
      LowerSound(c, r, t, s, V);
      LowerSound(c, m, t, s, V);
    case Mload(o) =>
      LowerSound(c, o, t, s, V);
      LoadSound(c, Lower(c, o, t), t, s, V);
    case Keccak(o, l) =>
      LowerSound(c, o, t, s, V);
      LowerSound(c, l, t, s, V);
      HashSound(c, Lower(c, o, t), Lower(c, l, t), t, s, V);
    case Input(a) => LowerSound(c, a, t, s, V);
    case _ =>
  }

  lemma LoadSound(c: Context, o: Expr, t: Tracker, s: State, V: set<string>)
    requires Holds(c, t, s, V) && Reads(o) <= V && OffsetFits(o, t) && !ReadsCalldata(c, o, t)
    ensures Eval(c, LowerLoad(c, o, t), s) == Eval(c, Mload(o), s) && Reads(LowerLoad(c, o, t)) <= V
  {
    FoldedSound(c, o, t, s, V);
  }

  lemma HashSound(c: Context, o: Expr, l: Expr, t: Tracker, s: State, V: set<string>)
    requires Holds(c, t, s, V) && Reads(o) <= V && Reads(l) <= V
    requires OffsetFits(o, t) && OffsetFits(l, t) && !HashesOther(c, o, l, t)
    ensures Eval(c, LowerHash(c, o, l, t), s) == Eval(c, Keccak(o, l), s) && Reads(LowerHash(c, o, l, t)) <= V
  {
    var off, len := ResolveOffset(o, t), ResolveOffset(l, t);
    if HashesKnown(off, len, t) {
      KnownHashSound(c, o, l, t, s, V);
    } else {
      assert LowerHash(c, o, l, t) == Keccak(Folded(o, t), Narrowed(off, l, t));
      FoldedSound(c, o, t, s, V);
      NarrowedSound(c, o, l, t, s, V);
    }
  }

  lemma HashedRange(c: Context, o: Expr, l: Expr, at: nat, len: nat, s: State)
    requires Eval(c, o, s) == Some(at) && Eval(c, l, s) == Some(len) && at + len <= |s.mem|
    ensures Eval(c, Keccak(o, l), s) == Some(c.hash(s.mem[at..at + len]))
  {
    assert len == 0 ==> s.mem[at..at + len] == [];
  }

  lemma KnownHashSound(c: Context, o: Expr, l: Expr, t: Tracker, s: State, V: set<string>)
    requires Holds(c, t, s, V) && Reads(o) <= V && Reads(l) <= V && OffsetFits(o, t) && OffsetFits(l, t)
    requires HashesKnown(ResolveOffset(o, t), ResolveOffset(l, t), t)
    ensures Eval(c, Keccak(o, l), s) == Some(c.hash(BigEndian(32, t.mem[ResolveOffset(o, t).value])))
  {
    var off := ResolveOffset(o, t).value;
    OffsetSound(c, o, t, s, V);
    OffsetSound(c, l, t, s, V);
    KnownBytes(s.mem, off, t.mem[off], 32);
    HashedRange(c, o, l, off, 32, s);
  }

  lemma KnownBytes(mem: bytes, off: nat, v: nat, z: nat)
    requires WordIs(mem, off, v) && z == 32
    ensures off + 32 <= |mem| && mem[off..off + 32] == BigEndian(z, v)
  {
    BigEndianOfNumber(mem[off..off + 32]);
  }

  lemma NarrowedSound(c: Context, o: Expr, l: Expr, t: Tracker, s: State, V: set<string>)
    requires Holds(c, t, s, V) && Reads(l) <= V && OffsetFits(l, t)
    requires !Lost(ResolveOffset(o, t), ResolveOffset(l, t))
    ensures var l1 := Narrowed(ResolveOffset(o, t), l, t); Eval(c, l1, s) == Eval(c, l, s) && Reads(l1) <= V
  {
    if ResolveOffset(l, t).Some? {
      OffsetSound(c, l, t, s, V);
      SmallInt32(ResolveOffset(l, t).value);
    }
  }

  lemma SmallInt32(x: nat)
    requires x < 0x8000_0000
    ensures Int32(x) == x
  {
  }

  // ---- frames -----------------------------------------------------------------------

  /** Names outside X are as in s, wherever the outcome stops. */
  predicate Keeps(o: Outcome, s: State, X: set<string>) {
    match o
    case Done(s1) => SameOutside(s, s1, X)
    case Broke(s1) => SameOutside(s, s1, X)
    case Continues(s1) => SameOutside(s, s1, X)
    case Left(s1) => SameOutside(s, s1, X)
    case Halted => true
    case NoFuel => true
  }

  predicate SameOutside(s: State, s1: State, X: set<string>) {
    && (forall x :: x in s.env && x !in X ==> x in s1.env && s1.env[x] == s.env[x])
    && (forall x :: x in s1.env && x !in X ==> x in s.env)
  }

  lemma KeepsTrans(s: State, s1: State, o: Outcome, X: set<string>, Y: set<string>, Z: set<string>)
    requires SameOutside(s, s1, X) && Keeps(o, s1, Y) && X <= Z && Y <= Z
    ensures Keeps(o, s, Z)
  {
  }

  lemma {:induction false} ExecKeeps(c: Context, n: nat, stmt: Stmt, s: State)
    ensures Keeps(Exec(c, n, stmt, s), s, Writes(stmt))
    decreases n, 1, stmt, 1
  {
    if Simple(stmt) {
      SimpleKeeps(c, n, stmt, s);
    } else {
      match stmt
      case Clobber(_, _, _) => ClobberKeeps(c, n, stmt, s);
      case For(_, _, _, _) => ForKeeps(c, n, stmt, s);
      case _ => BlockKeeps(c, n, stmt, s);
    }
  }

  lemma SimpleKeeps(c: Context, n: nat, stmt: Stmt, s: State)
    requires Simple(stmt)
    ensures Keeps(Exec(c, n, stmt, s), s, Writes(stmt))
  {
    if stmt.Silent? {
      CallKeeps(stmt.names, stmt.region, stmt.call(s), s);
    }
  }

  lemma {:induction false} BlockKeeps(c: Context, n: nat, stmt: Stmt, s: State)
    requires stmt.Scope? || stmt.If? || stmt.Switch? || stmt.Inline?
    ensures Keeps(Exec(c, n, stmt, s), s, Writes(stmt))
    decreases n, 1, stmt, 0
  {
    match stmt
    case Scope(body) => AllKeep(c, n, body, s);
    case If(_, body) => AllKeep(c, n, body, s);
    case Switch(e, cases) =>
      if Eval(c, e, s).Some? {
        CaseKeeps(c, n, cases, Chosen(Eval(c, e, s).value, cases), s);
      }
    case Inline(body) => AllKeep(c, n, body, s);
  }

  lemma {:induction false} ClobberKeeps(c: Context, n: nat, stmt: Stmt, s: State)
    requires stmt.Clobber?
    ensures Keeps(Exec(c, n, stmt, s), s, Writes(stmt))
    decreases n, 1, stmt, 0
  {
    AllKeep(c, n, stmt.operands, s);
    var o := ExecAll(c, n, stmt.operands, s);
    if o.Done? {
      NoNames(stmt.region, stmt.call(o.s), o.s);
    }
  }

  /** A write without results changes memory only. */
  lemma NoNames(region: Region, effect: Option<Effect>, s: State)
    ensures var o := Call({}, region, effect, s); o.Halted? || (o.Done? && o.s.env == s.env)
  {
    CallKeeps({}, region, effect, s);
    var o := Call({}, region, effect, s);
    if o.Done? {
      assert o.s.env == s.env;
    }
  }

  lemma CallKeeps(names: set<string>, region: Region, effect: Option<Effect>, s: State)
    ensures Keeps(Call(names, region, effect, s), s, names)
  {
  }

  lemma {:induction false} ForKeeps(c: Context, n: nat, stmt: Stmt, s: State)
    requires stmt.For?
    ensures Keeps(Exec(c, n, stmt, s), s, Writes(stmt))
    decreases n, 1, stmt, 0
  {
    var For(pre, e, post, body) := stmt;
    AllKeep(c, n, pre, s);
    var o := ExecAll(c, n, pre, s);
    if o.Done? {
      LoopKeeps(c, n, e, post, body, o.s);
      KeepsTrans(s, o.s, Loop(c, n, e, post, body, o.s), WritesAll(pre),
                 WritesAll(post) + WritesAll(body), Writes(stmt));
    }
  }

  lemma {:induction false} AllKeep(c: Context, n: nat, ss: seq<Stmt>, s: State)
    ensures Keeps(ExecAll(c, n, ss, s), s, WritesAll(ss))
    decreases n, 1, ss, 0
  {
    if |ss| > 0 {
      ExecKeeps(c, n, ss[0], s);
      var o := Exec(c, n, ss[0], s);
      if o.Done? {
        AllKeep(c, n, ss[1..], o.s);
        KeepsTrans(s, o.s, ExecAll(c, n, ss[1..], o.s), Writes(ss[0]), WritesAll(ss[1..]), WritesAll(ss));
      }
    }
  }

  lemma {:induction false} CaseKeeps(c: Context, n: nat, cases: seq<Case>, i: nat, s: State)
    ensures Keeps(ExecCase(c, n, cases, i, s), s, WritesCases(cases))
    decreases n, 1, cases, 0
  {
    if i < |cases| {
      AllKeep(c, n, cases[i].body, s);
      CaseWrites(cases, i);
    }
  }

  lemma {:induction false} CaseWrites(cases: seq<Case>, i: nat)
    requires i < |cases|
    ensures WritesAll(cases[i].body) <= WritesCases(cases)
  {
    if i > 0 {
      CaseWrites(cases[1..], i - 1);
    }
  }

  lemma {:induction false} LoopKeeps(c: Context, n: nat, e: Expr, post: seq<Stmt>, body: seq<Stmt>, s: State)
    ensures Keeps(Loop(c, n, e, post, body, s), s, WritesAll(post) + WritesAll(body))
    decreases n, 0, 1
  {
    if n > 0 {
      AllKeep(c, n - 1, body, s);
      var o := ExecAll(c, n - 1, body, s);
      if o.Done? || o.Continues? {
        AfterBodyKeeps(c, n, e, post, body, o.s);
        var X := WritesAll(post) + WritesAll(body);
        KeepsTrans(s, o.s, AfterBody(c, n, e, post, body, o.s), WritesAll(body), X, X);
      }
    }
  }

  lemma {:induction false} AfterBodyKeeps(c: Context, n: nat, e: Expr, post: seq<Stmt>, body: seq<Stmt>, s: State)
    requires n > 0
    ensures Keeps(AfterBody(c, n, e, post, body, s), s, WritesAll(post) + WritesAll(body))
    decreases n, 0, 0
  {
    AllKeep(c, n - 1, post, s);
    var p, X := ExecAll(c, n - 1, post, s), WritesAll(post) + WritesAll(body);
    if p.Done? {
      LoopKeeps(c, n - 1, e, post, body, p.s);
      KeepsTrans(s, p.s, Loop(c, n - 1, e, post, body, p.s), WritesAll(post), X, X);
    }
  }

  /** Outside X, t1 records the names that t does, with the same constants; and no name that is
  reassigned comes in. */
  predicate LocalsKeep(c: Context, t: Tracker, t1: Tracker, X: set<string>) {
    && (forall x :: x in t1.locals && x !in X ==> x in t.locals && t.locals[x] == t1.locals[x])
    && (forall x :: x in t.locals && x !in X ==> x in t1.locals)
    && (t.locals.Keys !! c.reassigned ==> t1.locals.Keys !! c.reassigned)
  }

  /** The translation of the post block keeps all names outside W. */
  ghost predicate AfterKeeps(c: Context, after: Tracker -> Result, W: set<string>) {
    forall t :: LocalsKeep(c, t, after(t).t, W)
  }

  lemma {:induction false} TranslateKeeps(c: Context, stmt: Stmt, t: Tracker, after: Tracker -> Result, W: set<string>)
    requires AfterKeeps(c, after, W)
    ensures LocalsKeep(c, t, Translate(c, stmt, t, after).t, Writes(stmt) + W)
    decreases stmt, 2
  {
    if Simple(stmt) {
      SimpleTranslateKeeps(c, stmt, t, after, W);
    } else {
      BlockTranslateKeeps(c, stmt, t, after, W);
    }
  }

  lemma SimpleTranslateKeeps(c: Context, stmt: Stmt, t: Tracker, after: Tracker -> Result, W: set<string>)
    requires Simple(stmt) && AfterKeeps(c, after, W)
    ensures LocalsKeep(c, t, Translate(c, stmt, t, after).t, Writes(stmt) + W)
  {
    if stmt.Move? {
      WordsKeepLocals(t, Lower(c, stmt.dst, t), stmt.full, stmt.temp);
    }
  }

  lemma {:induction false} BlockTranslateKeeps(c: Context, stmt: Stmt, t: Tracker, after: Tracker -> Result,
                                               W: set<string>)
    requires !Simple(stmt) && AfterKeeps(c, after, W)
    ensures LocalsKeep(c, t, Translate(c, stmt, t, after).t, Writes(stmt) + W)
    decreases stmt, 1
  {
    match stmt
    case Clobber(operands, _, _) => TranslateAllKeeps(c, operands, Forget(t), after, W);
    case Scope(body) => TranslateAllKeeps(c, body, t, after, W);
    case If(_, body) => TranslateAllKeeps(c, body, t, after, W);
    case Switch(_, cases) => TranslateCasesKeeps(c, cases, t, after, W);
    case For(_, _, _, _) => TranslateForKeeps(c, stmt, t, after, W);
    case Inline(body) =>
      var k := LeaveAt(body);
      assert k < |body| || body[..k] == body;
      TranslateAllKeeps(c, body[..k], t, Nothing, {});
      WritesPrefix(body, k);
  }

  lemma {:induction false} WordsKeepLocals(t: Tracker, d: Expr, k: nat, x: string)
    ensures TrackWords(t, d, k, x).locals == t.locals
  {
    if k > 0 {
      WordsKeepLocals(t, d, k - 1, x);
    }
  }

  lemma {:induction false} TranslateForKeeps(c: Context, stmt: Stmt, t: Tracker, after: Tracker -> Result,
                                             W: set<string>)
    requires stmt.For? && AfterKeeps(c, after, W)
    ensures LocalsKeep(c, t, Translate(c, stmt, t, after).t, Writes(stmt) + W)
    decreases stmt, 0
  {
    var For(pre, _, post, body) := stmt;
    TranslateAllKeeps(c, pre, t, after, W);
    var t1 := Forget(TranslateAll(c, pre, t, after).t);
    PostKeeps(c, post);
    var again := (t': Tracker) => TranslateAll(c, post, t', Nothing);
    TranslateAllKeeps(c, body, t1, again, WritesAll(post));
    TranslateAllKeeps(c, post, TranslateAll(c, body, t1, again).t, Nothing, {});
  }

  lemma {:induction false} WritesPrefix(ss: seq<Stmt>, k: nat)
    requires k <= |ss|
    ensures WritesAll(ss[..k]) <= WritesAll(ss)
  {
    if k > 0 {
      assert ss[..k][1..] == ss[1..][..k - 1];
      WritesPrefix(ss[1..], k - 1);
    }
  }

  lemma {:induction false} PostKeeps(c: Context, post: seq<Stmt>)
    ensures AfterKeeps(c, (t: Tracker) => TranslateAll(c, post, t, Nothing), WritesAll(post))
    decreases post, 1
  {
    forall t: Tracker
      ensures LocalsKeep(c, t, TranslateAll(c, post, t, Nothing).t, WritesAll(post))
    {
      TranslateAllKeeps(c, post, t, Nothing, {});
    }
  }

  lemma {:induction false} TranslateAllKeeps(c: Context, ss: seq<Stmt>, t: Tracker, after: Tracker -> Result,
                                             W: set<string>)
    requires AfterKeeps(c, after, W)
    ensures LocalsKeep(c, t, TranslateAll(c, ss, t, after).t, WritesAll(ss) + W)
    decreases ss, 0
  {
    if |ss| > 0 {
      TranslateKeeps(c, ss[0], t, after, W);
      TranslateAllKeeps(c, ss[1..], Translate(c, ss[0], t, after).t, after, W);
    }
  }

  lemma {:induction false} TranslateCasesKeeps(c: Context, cases: seq<Case>, t: Tracker,
                                               after: Tracker -> Result, W: set<string>)
    requires AfterKeeps(c, after, W)
    ensures LocalsKeep(c, t, TranslateCases(c, cases, t, after).t, WritesCases(cases) + W)
    decreases cases, 0
  {
    if |cases| > 0 {
      TranslateAllKeeps(c, cases[0].body, Forget(t), after, W);
      TranslateCasesKeeps(c, cases[1..], TranslateAll(c, cases[0].body, Forget(t), after).t, after, W);
    }
  }

  /** Whatever a statement does, the constants of the names in scope stay right. */
  lemma HoldsAfter(c: Context, t: Tracker, s: State, V: set<string>, t1: Tracker, s1: State, X: set<string>)
    requires Holds(c, t, s, V) && LocalsKeep(c, t, t1, X) && SameOutside(s, s1, X)
    requires X * V <= c.reassigned && t1.mem == map[]
    ensures Holds(c, t1, s1, V)
  {
    forall x | x in V && x in t1.locals
      ensures x in s1.env && s1.env[x] == t1.locals[x]
    {
      assert x !in c.reassigned;
    }
  }
}
