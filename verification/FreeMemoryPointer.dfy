/** The free-memory pointer, the word at 0x40, stays a multiple of 32.

The analysis looks at a Yul block in two passes and never at the order of execution, so its
soundness is stated over an over-approximation of every execution: at each step any atomic
statement of the block, at any depth, function bodies included, may run next, and every
variable or memory read may see the value from any earlier moment of the run. Names from
outside the block, such as Solidity constants, have values from the start. */
module FreeMemoryPointer {
  import opened Bytes
  import opened Alignment

  const FMP_SLOT: nat := 0x40
  const FMP_START: nat := 0x80             // where the pointer of a fresh program starts

  datatype YExpr =
    | Literal(n: nat)
    | TextLiteral                          // string and boolean literals
    | Ident(name: string)
    | Call(fn: string, args: seq<YExpr>)

  datatype YCase = YCase(body: seq<YStmt>)

  datatype YStmt =
    | Declare(names: seq<string>, value: Option<YExpr>)
    | Assign(names: seq<string>, rhs: YExpr)
    | ExprStmt(expr: YExpr)
    | If(cond: YExpr, body: seq<YStmt>)
    | Switch(scrutinee: YExpr, cases: seq<YCase>)
    | For(pre: seq<YStmt>, cond: YExpr, post: seq<YStmt>, body: seq<YStmt>)
    | Function(name: string, params: seq<string>, returns_: seq<string>, body: seq<YStmt>)
    | Scope(body: seq<YStmt>)

  predicate IsFmpLoad(e: YExpr) {
    e == Call("mload", [Literal(FMP_SLOT)])
  }

  /** mstore(0x40, X) */
  predicate IsFmpStore(stmt: YStmt) {
    stmt.ExprStmt? && stmt.expr.Call? && stmt.expr.fn == "mstore" && |stmt.expr.args| == 2
    && stmt.expr.args[0] == Literal(FMP_SLOT)
  }

  predicate IsFmpLocal(stmt: YStmt, reassigned: set<string>) {
    stmt.Declare? && |stmt.names| == 1 && stmt.value.Some? && IsFmpLoad(stmt.value.value)
    && stmt.names[0] !in reassigned
  }

  // ---- the analysis -----------------------------------------------------------------

  /** What the builder knows before it looks at the block: reassigned Yul variables, and
  decimal values of single-assignment locals and of Solidity constants. */
  datatype Known = Known(reassigned: set<string>, constants: map<string, string>)

  /** `yulAlignmentMod32`: the residue of a Yul expression, given that the locals `fmp` hold
  multiples of 32. */
  function Residue(e: YExpr, fmp: set<string>, known: Known): Option<nat> {
    match e
    case Literal(n) => Some(n % 32)
    case TextLiteral => None
    case Ident(x) =>
      if x in fmp then Some(0)
      else if x in known.constants then ResidueOf(known.constants[x])
      else None
    case Call(fn, args) =>
      if IsFmpLoad(e) then Some(0)
      else if |args| != 2 then None
      else
        var l, r := Residue(args[0], fmp, known), Residue(args[1], fmp, known);
        if fn == "add" then SumResidue(l, r)
        else if fn == "sub" then DifferenceResidue(l, r)
        else if fn == "mul" then ProductResidue(l, r)
        else if fn == "and" then (if r == Some(0) then Some(0) else None)
        else None
  }

  /** Every statement of a block at any depth, containers included. */
  function Within(ss: seq<YStmt>): set<YStmt>
    decreases ss, 0
  {
    if |ss| == 0 then {} else Inside(ss[0]) + Within(ss[1..])
  }

  function Inside(stmt: YStmt): set<YStmt>
    decreases stmt, 0
  {
    {stmt} +
    match stmt
    case If(_, body) => Within(body)
    case Switch(_, cases) => WithinAny(cases)
    case For(pre, _, post, body) => Within(pre) + Within(post) + Within(body)
    case Function(_, _, _, body) => Within(body)
    case Scope(body) => Within(body)
    case _ => {}
  }

  function WithinAny(cases: seq<YCase>): set<YStmt>
    decreases cases, 0
  {
    if |cases| == 0 then {} else Within(cases[0].body) + WithinAny(cases[1..])
  }

  /** The locals bound to mload(0x40) and never reassigned. */
  function FmpLocals(stmts: set<YStmt>, known: Known): set<string> {
    set s | s in stmts && IsFmpLocal(s, known.reassigned) :: s.names[0]
  }

  predicate StoreAligned(stmt: YStmt, fmp: set<string>, known: Known) {
    IsFmpStore(stmt) ==> Residue(stmt.expr.args[1], fmp, known) == Some(0)
  }

  predicate Accepts(ss: seq<YStmt>, known: Known) {
    forall s :: s in Within(ss) ==> StoreAligned(s, FmpLocals(Within(ss), known), known)
  }

  /** The walk of both passes over one block: the first collects locals, the second checks
  stores; each leaves the other's variable alone. */
  method Walk(ss: seq<YStmt>, pass: nat, locals: set<string>, ok: bool, known: Known)
    returns (locals': set<string>, ok': bool)
    requires pass == 1 || pass == 2
    ensures pass == 1 ==> ok' == ok && locals' == locals + FmpLocals(Within(ss), known)
    ensures pass == 2 ==>
              && locals' == locals
              && ok' == (ok && forall s :: s in Within(ss) ==> StoreAligned(s, locals, known))
    decreases ss, 0
  {
    locals', ok' := locals, ok;
    for i := 0 to |ss|
      invariant pass == 1 ==> ok' == ok && locals' == locals + FmpLocals(Within(ss[..i]), known)
      invariant pass == 2 ==>
                  && locals' == locals
                  && ok' == (ok && forall s :: s in Within(ss[..i]) ==> StoreAligned(s, locals, known))
    {
      WithinSnoc(ss, i);
      locals', ok' := Visit(ss[i], pass, locals', ok', known);
    }
    assert ss[..|ss|] == ss;
  }

  method Visit(stmt: YStmt, pass: nat, locals: set<string>, ok: bool, known: Known)
    returns (locals': set<string>, ok': bool)
    requires pass == 1 || pass == 2
    ensures pass == 1 ==> ok' == ok && locals' == locals + FmpLocals(Inside(stmt), known)
    ensures pass == 2 ==>
              && locals' == locals
              && ok' == (ok && forall s :: s in Inside(stmt) ==> StoreAligned(s, locals, known))
    decreases stmt, 0
  {
    locals', ok' := locals, ok;
    assert stmt in Inside(stmt);
    match stmt
    case Declare(names, _) =>
      if pass == 1 && IsFmpLocal(stmt, known.reassigned) {
        locals' := locals + {names[0]};
      }
    case ExprStmt(_) =>
      if pass == 2 && IsFmpStore(stmt) && Residue(stmt.expr.args[1], locals, known) != Some(0) {
        ok' := false;
      }
    case If(_, body) => locals', ok' := Walk(body, pass, locals, ok, known);
    case Switch(_, cases) => locals', ok' := WalkAll(cases, pass, locals, ok, known);
    case For(pre, _, post, body) =>
      locals', ok' := Walk(pre, pass, locals, ok, known);
      locals', ok' := Walk(post, pass, locals', ok', known);
      locals', ok' := Walk(body, pass, locals', ok', known);
    case Function(_, _, _, body) => locals', ok' := Walk(body, pass, locals, ok, known);
    case Scope(body) => locals', ok' := Walk(body, pass, locals, ok, known);
    case Assign(_, _) =>
  }

  method WalkAll(cases: seq<YCase>, pass: nat, locals: set<string>, ok: bool, known: Known)
    returns (locals': set<string>, ok': bool)
    requires pass == 1 || pass == 2
    ensures pass == 1 ==> ok' == ok && locals' == locals + FmpLocals(WithinAny(cases), known)
    ensures pass == 2 ==>
              && locals' == locals
              && ok' == (ok && forall s :: s in WithinAny(cases) ==> StoreAligned(s, locals, known))
    decreases cases, 0
  {
    locals', ok' := locals, ok;
    if |cases| > 0 {
      locals', ok' := Walk(cases[0].body, pass, locals, ok, known);
      locals', ok' := WalkAll(cases[1..], pass, locals', ok', known);
    }
  }

  /** `freeMemoryPointerStaysAligned`. */
  method StaysAligned(ss: seq<YStmt>, known: Known) returns (ok: bool)
    ensures ok <==> Accepts(ss, known)
  {
    var locals, ok1 := Walk(ss, 1, {}, true, known);
    assert locals == FmpLocals(Within(ss), known);
    locals, ok := Walk(ss, 2, locals, ok1, known);
  }

  lemma {:induction false} WithinSnoc(ss: seq<YStmt>, i: nat)
    requires i < |ss|
    ensures Within(ss[..i + 1]) == Within(ss[..i]) + Inside(ss[i])
  {
    if i == 0 {
      assert ss[..1][1..] == [];
    } else {
      WithinSnoc(ss[1..], i - 1);
      assert ss[..i + 1][1..] == ss[1..][..i] && ss[..i][1..] == ss[1..][..i - 1];
    }
  }

  // ---- runs -------------------------------------------------------------------------

  /** The word at 0x40 and the Yul variables. */
  datatype State = State(fmp: nat, env: map<string, nat>)

  /** Bitwise conjunction. */
  function BitAnd(a: nat, b: nat): nat {
    if a == 0 || b == 0 then 0 else 2 * BitAnd(a / 2, b / 2) + (a % 2) * (b % 2)
  }

  function Apply(fn: string, a: nat, b: nat): nat {
    if fn == "add" then (a + b) % TWO_256
    else if fn == "sub" then (a - b) % TWO_256
    else if fn == "mul" then a * b % TWO_256
    else if fn == "mod" then (if b == 0 then 0 else a % b)
    else BitAnd(a, b)
  }

  predicate IsArithmetic(e: YExpr) {
    e.Call? && |e.args| == 2 && e.fn in {"add", "sub", "mul", "mod", "and"}
  }

  /** v is a possible value of e in a run with history h: every read sees the variable, or the
  free-memory pointer, as it was at some moment of h; any other call may return anything. */
  ghost predicate MayRead(e: YExpr, h: seq<State>, v: nat) {
    match e
    case Literal(n) => v == n
    case TextLiteral => true
    case Ident(x) => exists i :: 0 <= i < |h| && x in h[i].env && v == h[i].env[x]
    case Call(fn, args) =>
      if IsFmpLoad(e) then exists i :: 0 <= i < |h| && v == h[i].fmp
      else if IsArithmetic(e) then
        exists a, b :: MayRead(args[0], h, a) && MayRead(args[1], h, b) && v == Apply(fn, a, b)
      else true
  }

  /** Variables outside `names` are as before. */
  predicate SameBut(before: map<string, nat>, after: map<string, nat>, names: seq<string>) {
    forall x :: x in after && x !in names ==> x in before && after[x] == before[x]
  }

  /** The names a statement introduces. */
  function Binds(stmt: YStmt): seq<string> {
    match stmt
    case Declare(names, _) => names
    case Function(_, params, returns_, _) => params + returns_
    case _ => []
  }

  /** The builtins that write memory: `builtinClobbersMemory`, and mstore. */
  const WRITERS: set<string> := {
    "mstore", "mstore8", "mcopy", "calldatacopy", "codecopy", "extcodecopy", "returndatacopy", "datacopy",
    "call", "callcode", "delegatecall", "staticcall"}

  /** Evaluating e writes no memory itself. A function of the block may; its statements are
  steps of their own. */
  predicate Quiet(e: YExpr) {
    e.Call? ==> e.fn !in WRITERS && forall i :: 0 <= i < |e.args| ==> Quiet(e.args[i])
  }

  predicate QuietStmt(stmt: YStmt) {
    match stmt
    case Declare(_, value) => value.Some? ==> Quiet(value.value)
    case Assign(_, e) => Quiet(e)
    case ExprStmt(e) => Quiet(e)
    case If(e, _) => Quiet(e)
    case Switch(e, _) => Quiet(e)
    case For(_, e, _, _) => Quiet(e)
    case Function(_, _, _, _) => true
    case Scope(_) => true
  }

  /** A store of a word, to any address. */
  predicate IsStore(stmt: YStmt) {
    stmt.ExprStmt? && stmt.expr.Call? && stmt.expr.fn == "mstore" && |stmt.expr.args| == 2
    && Quiet(stmt.expr.args[0]) && Quiet(stmt.expr.args[1])
  }

  /** What a store of v at p leaves at 0x40; a partial overlap may leave anything. */
  predicate StoredAt(p: nat, v: nat, before: nat, after: nat) {
    && (p == FMP_SLOT ==> after == v)
    && (p + 32 <= FMP_SLOT || FMP_SLOT + 32 <= p ==> after == before)
  }

  /** What a statement other than a literal mstore(0x40, X) may leave at 0x40: a store through
  a computed address stores there too, and any other memory write may leave anything. */
  ghost predicate Otherwise(stmt: YStmt, h: seq<State>, after: nat)
    requires |h| > 0
  {
    var before := h[|h| - 1].fmp;
    && (QuietStmt(stmt) ==> after == before)
    && (IsStore(stmt) ==>
          exists p, v ::
            MayRead(stmt.expr.args[0], h, p) && MayRead(stmt.expr.args[1], h, v) && StoredAt(p, v, before, after))
  }

  /** One step: `stmt` takes the last state of h to t. */
  ghost predicate Effect(stmt: YStmt, h: seq<State>, t: State)
    requires |h| > 0
  {
    var s := h[|h| - 1];
    if IsFmpStore(stmt) then
      exists v :: MayRead(stmt.expr.args[1], h, v) && t == State(v, s.env)
    else if stmt.Declare? && |stmt.names| == 1 && stmt.value.Some? then
      exists v :: MayRead(stmt.value.value, h, v) && t.env == s.env[stmt.names[0] := v] && Otherwise(stmt, h, t.fmp)
    else if stmt.Declare? && stmt.value.None? then
      t == State(s.fmp, s.env + map x | x in stmt.names :: 0)
    else
      && Otherwise(stmt, h, t.fmp)
      && SameBut(s.env, t.env, if stmt.Assign? then stmt.names else Binds(stmt))
  }

  /** A run of the block: it starts with an aligned pointer and values for names from outside
  the block only, and each next state comes from some statement of the block. */
  ghost predicate IsRun(ss: seq<YStmt>, h: seq<State>) {
    && |h| > 0 && h[0].fmp % 32 == 0 && Outside(ss, h[0].env)
    && forall i :: 0 < i < |h| ==> StepFrom(ss, h[..i], h[i])
  }

  /** No name bound in the block has a value yet. */
  ghost predicate Outside(ss: seq<YStmt>, env: map<string, nat>) {
    forall s, x :: s in Within(ss) && x in Binds(s) ==> x !in env
  }

  /** The last step was a literal store to 0x40. */
  ghost predicate LiteralStore(ss: seq<YStmt>, h: seq<State>, t: State)
    requires |h| > 0
  {
    exists stmt :: stmt in Within(ss) && IsFmpStore(stmt) && Effect(stmt, h, t)
  }

  /** Whatever else writes memory in the run leaves a multiple of 32 at 0x40. */
  ghost predicate OthersAlign(ss: seq<YStmt>, h: seq<State>) {
    forall i :: 0 < i < |h| && !LiteralStore(ss, h[..i], h[i]) ==> h[i].fmp % 32 == 0
  }

  ghost predicate StepFrom(ss: seq<YStmt>, h: seq<State>, t: State)
    requires |h| > 0
  {
    exists stmt :: stmt in Within(ss) && Effect(stmt, h, t)
  }

  /** The facts known beforehand are true of the run. */
  predicate Consistent(s: State, known: Known) {
    forall x :: x in known.constants && x in s.env && IsDecimal(known.constants[x]) ==>
      s.env[x] == Decimal(known.constants[x])
  }

  /** Names are unique in a prepared block, and every assigned variable is known to be. */
  ghost predicate Disambiguated(ss: seq<YStmt>, known: Known) {
    && (forall s, t, x :: s in Within(ss) && t in Within(ss) && x in Binds(s) && x in Binds(t) ==> s == t)
    && (forall s, x :: s in Within(ss) && s.Assign? && x in s.names ==> x in known.reassigned)
  }

  predicate Aligned(s: State, locals: set<string>) {
    && s.fmp % 32 == 0
    && forall x :: x in locals && x in s.env ==> s.env[x] % 32 == 0
  }

  // ---- soundness ----------------------------------------------------------------------

  lemma PowerAligned(n: nat)
    requires n > 0
    ensures Pow256(n) % 32 == 0
  {
    assert Pow256(n) == 32 * (8 * Pow256(n - 1));
  }

  lemma WrapKeeps(a: int)
    ensures a % TWO_256 % 32 == a % 32
  {
    PowerAligned(32);
    ModuloKeeps(a, TWO_256);
  }

  /** A cleared low bit of the mask clears the low bit of the result. */
  lemma AndEven(a: nat, b: nat)
    requires b % 2 == 0
    ensures BitAnd(a, b) == 2 * BitAnd(a / 2, b / 2)
  {
  }

  /** k cleared low bits of the mask clear k low bits of the result. */
  lemma {:induction false} AndShifted(a: nat, c: nat, k: nat)
    ensures BitAnd(a, Pow2(k) * c) % Pow2(k) == 0
  {
    if k > 0 {
      var half := Pow2(k - 1) * c;
      assert Pow2(k) * c == 2 * half;
      AndEven(a, 2 * half);
      AndShifted(a / 2, c, k - 1);
      DoubleMod(BitAnd(a / 2, half), Pow2(k - 1));
    }
  }

  lemma DoubleMod(x: nat, m: nat)
    requires m > 0 && x % m == 0
    ensures 2 * x % (2 * m) == 0
  {
    var q := x / m;
    assert x == q * m;
    assert 2 * x == q * (2 * m);
    UniqueRemainder(2 * x, 2 * m, q);
  }

  lemma NoSmallMultiple(d: int, m: nat)
    requires 0 <= d * m < m
    ensures d == 0
  {
  }

  lemma UniqueRemainder(x: nat, m: nat, q: nat)
    requires m > 0 && x == q * m
    ensures x % m == 0
  {
    var q', r := x / m, x % m;
    assert q * m == q' * m + r;
    assert (q - q') * m == r;
    NoSmallMultiple(q - q', m);
  }

  lemma AndAligned(a: nat, b: nat)
    requires b % 32 == 0
    ensures BitAnd(a, b) % 32 == 0
  {
    ThirtyTwo();
    AndShifted(a, b / 32, 5);
    assert Pow2(5) * (b / 32) == b;
  }

  lemma ThirtyTwo()
    ensures Pow2(5) == 32
  {
    assert Pow2(2) == 4;
  }

  lemma IntDifference(x: Option<nat>, y: Option<nat>, a: nat, b: nat)
    requires Knows(x, a) && Knows(y, b) && DifferenceResidue(x, y).Some?
    ensures (a - b) % 32 == DifferenceResidue(x, y).value
  {
  }

  lemma ApplyKnown(fn: string, x: Option<nat>, y: Option<nat>, a: nat, b: nat)
    requires Knows(x, a) && Knows(y, b)
    ensures fn == "add" ==> Knows(SumResidue(x, y), Apply(fn, a, b))
    ensures fn == "sub" ==> Knows(DifferenceResidue(x, y), Apply(fn, a, b))
    ensures fn == "mul" ==> Knows(ProductResidue(x, y), Apply(fn, a, b))
    ensures fn == "and" && y == Some(0) ==> Apply(fn, a, b) % 32 == 0
  {
    if fn == "add" {
      SumKnown(x, y, a, b);
      WrapKeeps(a + b);
    } else if fn == "sub" {
      WrapKeeps(a - b);
      if x.Some? && y.Some? {
        IntDifference(x, y, a, b);
      }
    } else if fn == "mul" {
      ProductKnown(x, y, a, b);
      WrapKeeps(a * b);
    } else if fn == "and" && y == Some(0) {
      AndAligned(a, b);
    }
  }

  lemma {:induction false} ResidueIsSound(e: YExpr, h: seq<State>, v: nat, locals: set<string>, known: Known)
    requires MayRead(e, h, v)
    requires forall i :: 0 <= i < |h| ==> Aligned(h[i], locals) && Consistent(h[i], known)
    ensures Knows(Residue(e, locals, known), v)
  {
    match e
    case Call(fn, args) =>
      if !IsFmpLoad(e) && IsArithmetic(e) {
        var a, b :| MayRead(args[0], h, a) && MayRead(args[1], h, b) && v == Apply(fn, a, b);
        ResidueIsSound(args[0], h, a, locals, known);
        ResidueIsSound(args[1], h, b, locals, known);
        ApplyKnown(fn, Residue(args[0], locals, known), Residue(args[1], locals, known), a, b);
      }
    case _ =>
  }

  lemma StepKeeps(ss: seq<YStmt>, known: Known, h: seq<State>, stmt: YStmt, t: State)
    requires Accepts(ss, known) && Disambiguated(ss, known) && |h| > 0
    requires stmt in Within(ss) && Effect(stmt, h, t)
    requires forall i :: 0 <= i < |h| ==>
               Aligned(h[i], FmpLocals(Within(ss), known)) && Consistent(h[i], known)
    requires IsFmpStore(stmt) || t.fmp % 32 == 0
    ensures Aligned(t, FmpLocals(Within(ss), known))
  {
    var locals := FmpLocals(Within(ss), known);
    var s := h[|h| - 1];
    if IsFmpStore(stmt) {
      var v :| MayRead(stmt.expr.args[1], h, v) && t == State(v, s.env);
      ResidueIsSound(stmt.expr.args[1], h, v, locals, known);
      assert StoreAligned(stmt, locals, known);
    } else {
      forall x | x in locals && x in t.env
        ensures t.env[x] % 32 == 0
      {
        var d :| d in Within(ss) && IsFmpLocal(d, known.reassigned) && d.names[0] == x;
        if x in Binds(stmt) {
          assert x in Binds(d);
          assert stmt == d;
          var v :| MayRead(stmt.value.value, h, v) && t.env == s.env[stmt.names[0] := v];
        }
      }
    }
  }

  lemma RunPrefix(ss: seq<YStmt>, h: seq<State>, n: nat)
    requires IsRun(ss, h) && 0 < n <= |h|
    ensures IsRun(ss, h[..n])
  {
    forall i | 0 < i < n
      ensures StepFrom(ss, h[..n][..i], h[..n][i])
    {
      assert h[..n][..i] == h[..i];
    }
  }

  /** INDUCTION OVER RUNS. If the analysis accepts a prepared block, then in every run the
  free-memory pointer, and every local that was bound to it, are multiples of 32 at every step
  if and only if the writes that the analysis does not look at keep the pointer so. */
  lemma {:induction false} PointerStaysAligned(ss: seq<YStmt>, known: Known, h: seq<State>)
    requires Accepts(ss, known) && Disambiguated(ss, known)
    requires IsRun(ss, h) && forall i :: 0 <= i < |h| ==> Consistent(h[i], known)
    ensures OthersAlign(ss, h) <==>
              forall i :: 0 <= i < |h| ==> Aligned(h[i], FmpLocals(Within(ss), known))
    decreases |h|
  {
    if OthersAlign(ss, h) {
      if |h| == 1 {
        StartAligned(ss, known, h[0]);
      } else {
        var n := |h| - 1;
        RunPrefix(ss, h, n);
        OthersPrefix(ss, h, n);
        PointerStaysAligned(ss, known, h[..n]);
        LastAligned(ss, known, h[..n], h[n]);
        assert h == h[..n] + [h[n]];
      }
    }
  }

  lemma StartAligned(ss: seq<YStmt>, known: Known, s: State)
    requires s.fmp % 32 == 0 && Outside(ss, s.env)
    ensures Aligned(s, FmpLocals(Within(ss), known))
  {
    forall x | x in FmpLocals(Within(ss), known)
      ensures x !in s.env
    {
      var d :| d in Within(ss) && IsFmpLocal(d, known.reassigned) && d.names[0] == x;
      assert x in Binds(d);
    }
  }

  lemma OthersPrefix(ss: seq<YStmt>, h: seq<State>, n: nat)
    requires OthersAlign(ss, h) && 0 < n <= |h|
    ensures OthersAlign(ss, h[..n])
  {
    forall i | 0 < i < n && !LiteralStore(ss, h[..n][..i], h[..n][i])
      ensures h[i].fmp % 32 == 0
    {
      assert h[..n][..i] == h[..i];
    }
  }

  lemma LastAligned(ss: seq<YStmt>, known: Known, h: seq<State>, t: State)
    requires Accepts(ss, known) && Disambiguated(ss, known) && |h| > 0 && StepFrom(ss, h, t)
    requires LiteralStore(ss, h, t) || t.fmp % 32 == 0
    requires forall i :: 0 <= i < |h| ==>
               Aligned(h[i], FmpLocals(Within(ss), known)) && Consistent(h[i], known)
    ensures Aligned(t, FmpLocals(Within(ss), known))
  {
    if LiteralStore(ss, h, t) {
      var stmt :| stmt in Within(ss) && IsFmpStore(stmt) && Effect(stmt, h, t);
      StepKeeps(ss, known, h, stmt, t);
    } else {
      var stmt :| stmt in Within(ss) && Effect(stmt, h, t);
      StepKeeps(ss, known, h, stmt, t);
    }
  }

  /** Statements that touch the pointer in no other way than by a literal store: a check that
  the block itself allows. */
  predicate Harmless(stmt: YStmt) {
    || IsFmpStore(stmt) || QuietStmt(stmt)
    || (IsStore(stmt) && stmt.expr.args[0].Literal?
        && (stmt.expr.args[0].n + 32 <= FMP_SLOT || FMP_SLOT + 32 <= stmt.expr.args[0].n))
  }

  /** In an accepted block of such statements the pointer is aligned in every run. */
  lemma {:induction false} HarmlessStaysAligned(ss: seq<YStmt>, known: Known, h: seq<State>)
    requires Accepts(ss, known) && Disambiguated(ss, known) && forall s :: s in Within(ss) ==> Harmless(s)
    requires IsRun(ss, h) && forall i :: 0 <= i < |h| ==> Consistent(h[i], known)
    ensures forall i :: 0 <= i < |h| ==> Aligned(h[i], FmpLocals(Within(ss), known))
    decreases |h|
  {
    if |h| == 1 {
      StartAligned(ss, known, h[0]);
    } else {
      var n := |h| - 1;
      RunPrefix(ss, h, n);
      HarmlessStaysAligned(ss, known, h[..n]);
      assert StepFrom(ss, h[..n], h[n]);
      var stmt :| stmt in Within(ss) && Effect(stmt, h[..n], h[n]);
      assert Aligned(h[..n][n - 1], FmpLocals(Within(ss), known));
      LastAligned(ss, known, h[..n], h[n]);
      assert h == h[..n] + [h[n]];
    }
  }

  // ---- a store the analysis does not see --------------------------------------------------

  /** mstore(add(0x20, 0x20), 5) */
  function HiddenStore(): YStmt {
    ExprStmt(Call("mstore", [Call("add", [Literal(32), Literal(32)]), Literal(5)]))
  }

  /** Only a literal address is recognised: the analysis accepts this store, which moves the
  pointer to 5. */
  lemma HiddenStoreBreaks(known: Known)
    ensures Accepts([HiddenStore()], known) && Disambiguated([HiddenStore()], known)
    ensures var h := [State(FMP_START, map[]), State(5, map[])];
            IsRun([HiddenStore()], h) && !OthersAlign([HiddenStore()], h)
  {
    var stmt, s0, s1 := HiddenStore(), State(FMP_START, map[]), State(5, map[]);
    assert [stmt][1..] == [];
    assert Within([stmt]) == {stmt};
    assert stmt.expr.args[0] != Literal(FMP_SLOT);
    HiddenAddress([s0]);
    assert MayRead(stmt.expr.args[1], [s0], 5);
    assert !QuietStmt(stmt);
    assert StoredAt(FMP_SLOT, 5, s0.fmp, s1.fmp);
    assert Otherwise(stmt, [s0], s1.fmp);
    assert Effect(stmt, [s0], s1);
    assert [s0, s1][..1] == [s0];
  }

  lemma HiddenAddress(h: seq<State>)
    ensures MayRead(Call("add", [Literal(32), Literal(32)]), h, FMP_SLOT)
  {
    var e := Call("add", [Literal(32), Literal(32)]);
    assert MayRead(e.args[0], h, 32) && MayRead(e.args[1], h, 32);
    SmallSum(32, 32, 32);
    assert Apply("add", 32, 32) == FMP_SLOT;
  }

  lemma SmallSum(a: nat, b: nat, z: nat)
    requires a <= 100 && b <= 100 && z >= 1
    ensures (a + b) % Pow256(z) == a + b
  {
    Pow256Grows(1, z);
    SmallMod(a + b, Pow256(z));
  }

  // ---- why names must be unique ---------------------------------------------------------

  /** Two scopes that use one name: { let p := mload(0x40) } { let p := 5 mstore(0x40, p) }. */
  function SharedName(): seq<YStmt> {
    [Scope([Declare(["p"], Some(Call("mload", [Literal(FMP_SLOT)])))]),
     Scope([Declare(["p"], Some(Literal(5))),
            ExprStmt(Call("mstore", [Literal(FMP_SLOT), Ident("p")]))])]
  }

  /** The analysis is keyed on names, which is why the compiler makes them unique first: it
  would accept this block although a run moves the pointer to 5. */
  lemma SharedNameBreaks(known: Known)
    requires known == Known({}, map[])
    ensures Accepts(SharedName(), known) && !Disambiguated(SharedName(), known)
    ensures var s1 := State(FMP_START, map["p" := 5]);
            IsRun(SharedName(), [State(FMP_START, map[]), s1, State(5, s1.env)])
  {
    var d0 := Declare(["p"], Some(Call("mload", [Literal(FMP_SLOT)])));
    var d1 := Declare(["p"], Some(Literal(5)));
    var st := ExprStmt(Call("mstore", [Literal(FMP_SLOT), Ident("p")]));
    WithinShared(SharedName(), d0, d1, st);
    assert IsFmpLocal(d0, known.reassigned) && "p" in FmpLocals(Within(SharedName()), known);
    assert "p" in Binds(d0) && "p" in Binds(d1);
    SharedNameRun(SharedName(), d1, st);
  }

  lemma SharedNameRun(ss: seq<YStmt>, d1: YStmt, st: YStmt)
    requires d1 == Declare(["p"], Some(Literal(5)))
    requires st == ExprStmt(Call("mstore", [Literal(FMP_SLOT), Ident("p")]))
    requires d1 in Within(ss) && st in Within(ss)
    ensures var s1 := State(FMP_START, map["p" := 5]);
            IsRun(ss, [State(FMP_START, map[]), s1, State(5, s1.env)])
  {
    var s0, s1 := State(FMP_START, map[]), State(FMP_START, map["p" := 5]);
    var h := [s0, s1, State(5, s1.env)];
    assert MayRead(Literal(5), [s0], 5);
    assert Effect(d1, [s0], s1);
    assert h[..1] == [s0] && h[..2] == [s0, s1];
    assert [s0, s1][1].env["p"] == 5;
    assert MayRead(st.expr.args[1], [s0, s1], 5);
    assert Effect(st, [s0, s1], h[2]);
  }

  lemma WithinShared(ss: seq<YStmt>, d0: YStmt, d1: YStmt, st: YStmt)
    requires d0.Declare? && d1.Declare? && st.ExprStmt?
    requires ss == [Scope([d0]), Scope([d1, st])]
    ensures Within(ss) == {Scope([d0]), d0, Scope([d1, st]), d1, st}
  {
    assert ss[1..] == [Scope([d1, st])] && ss[1..][1..] == [];
    assert [d0][1..] == [] && [d1, st][1..] == [st] && [st][1..] == [];
    assert Within([d0]) == {d0} && Within([st]) == {st} && Within([d1, st]) == {d1, st};
    assert Inside(Scope([d0])) == {Scope([d0]), d0};
    assert Inside(Scope([d1, st])) == {Scope([d1, st]), d1, st};
    assert Within(ss[1..]) == Inside(Scope([d1, st]));
  }
}
