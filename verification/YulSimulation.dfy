/** The lowering preserves meaning, step for step. */
module YulSimulation {
  import opened Bytes
  import opened Awst
  import opened Yul
  import opened YulLowering
  import opened DeadCode

  /** The AWST outcome that corresponds to a Yul outcome. `continue` has run the loop's post
  block; `leave` has raised the flag and exited the loop it was in. */
  function Image(n: nat, y: YOutcome, post: seq<Stmt>): Outcome {
    match y
    case Done(w) => Normal(State(w, false))
    case Broke(w) => Exited(State(w, false))
    case Continues(w) => Then(n, ExecAll(n, post, State(w, false)), [LoopContinue])
    case Left(w) => Exited(State(w, true))
    case Stopped(w) => Halted(State(w, false))
    case Reverted => Failed
    case NoFuel => OutOfFuel
  }

  // ---- expressions ----------------------------------------------------------------

  lemma {:induction false} PendingRuns(n: nat, acts: seq<Action>, w: World)
    ensures ExecAll(n, Statements(acts), State(w, false)) ==
            var ran := Run(acts, w);
            if ran.None? then Failed else Normal(State(ran.value, false))
  {
    if |acts| > 0 {
      var ss := Statements(acts);
      assert ss[1..] == Statements(acts[1..]);
      match acts[0](w)
      case None =>
      case Some(w1) => PendingRuns(n, acts[1..], w1);
    }
  }

  /** Code placed after an expression's pending statements runs in the state the Yul
  expression leaves, with the residual reading the expression's value. */
  lemma AfterExpr(n: nat, e: Expr, rest: seq<Stmt>, w: World)
    requires Faithful(e)
    ensures var all := ExecAll(n, Statements(e.pending) + rest, State(w, false));
            var m := e.meaning(w);
            && (m.None? ==> all == Failed)
            && (m.Some? ==>
                  && all == ExecAll(n, rest, State(m.value.1, false))
                  && Number(e.residual(m.value.1)) == m.value.0 < TWO_256)
  {
    PendingRuns(n, e.pending, w);
    ExecConcat(n, Statements(e.pending), rest, State(w, false));
    assert FaithfulAt(e, w);
  }

  lemma NonZeroHolds(e: Expr, s: State)
    ensures Holds(NonZero(e), s) <==> Number(e.residual(s.world)) != 0
    ensures Holds(Not(NonZero(e)), s) <==> Number(e.residual(s.world)) == 0
  {
  }

  /** The 32-byte comparison of a switch is comparison of numbers. */
  lemma LastWordIsNumber(b: bytes, literal: nat)
    requires Number(b) < TWO_256 && literal < TWO_256
    ensures LastWord(b) == BigEndian(32, literal) <==> Number(b) == literal
  {
    LastWordNumber(b);
    BigEndianOfNumber(LastWord(b));
    NumberOfBigEndian(32, literal);
  }

  lemma LastWordNumber(b: bytes)
    requires Number(b) < TWO_256
    ensures Number(LastWord(b)) == Number(b)
  {
    if |b| < 32 {
      PaddedNumber(b, 32 - |b|);
      var wide := Zeros(32 - |b|) + b;
      assert wide[|wide| - 32..] == wide;
    } else {
      TrimmedNumber(b, 32);
    }
  }

  lemma PaddedNumber(b: bytes, k: nat)
    ensures Number(Zeros(k) + b) == Number(b)
  {
    NumberOfZeros(k);
    NumberOfConcat(Zeros(k), b);
  }

  lemma TrimmedNumber(b: bytes, k: nat)
    requires k <= |b| && Number(b) < Pow256(k)
    ensures Number(b[|b| - k..]) == Number(b)
  {
    var hi, lo := b[..|b| - k], b[|b| - k..];
    assert b == hi + lo;
    NumberOfConcat(hi, lo);
    SmallProduct(Number(hi), Pow256(k), Number(lo));
  }

  lemma SmallProduct(h: nat, p: nat, l: nat)
    requires h * p + l < p
    ensures h * p + l == l
  {
    if h > 0 {
      assert h * p == (h - 1) * p + p;
    }
  }

  /** The AWST switch runs the lowering of the case that Yul chooses. */
  lemma {:induction false} PickedCase(n: nat, b: bytes, cases: seq<YCase>, dy: seq<YStmt>, d: Block,
                                      flagged: bool, post: seq<Stmt>, s: State)
    requires Number(b) < TWO_256
    requires forall i :: 0 <= i < |cases| ==> cases[i].literal < TWO_256
    requires ExecBlock(n, d, s) == ExecAll(n, LowerAll(dy, flagged, post), s)
    ensures ExecBlock(n, Pick(LastWord(b), LowerCases(cases, flagged, post), d), s)
         == ExecAll(n, LowerAll(Chosen(Number(b), cases, dy), flagged, post), s)
    decreases |cases|
  {
    if |cases| > 0 {
      LastWordIsNumber(b, cases[0].literal);
      assert LowerCases(cases, flagged, post)[1..] == LowerCases(cases[1..], flagged, post);
      PickedCase(n, b, cases[1..], dy, d, flagged, post, s);
    }
  }

  // ---- scoping ----------------------------------------------------------------------

  /** `break` and `continue` never escape a loop, nor `leave` a program that has none. */
  predicate Contained(y: YOutcome, inLoop: bool, inFunction: bool) {
    && (!inLoop ==> !y.Broke? && !y.Continues?)
    && (!inFunction ==> !y.Left?)
  }

  lemma {:induction false} StmtContained(n: nat, stmt: YStmt, inLoop: bool, inFunction: bool, w: World)
    requires WellFormed(stmt, inLoop, inFunction)
    ensures Contained(Meaning(n, stmt, w), inLoop, inFunction)
    decreases n, 1, stmt, 0
  {
    match stmt
    case Scope(body) => AllContained(n, body, inLoop, inFunction, w);
    case If(c, body) =>
      if c.meaning(w).Some? {
        AllContained(n, body, inLoop, inFunction, c.meaning(w).value.1);
      }
    case SwitchOn(e, cases, _, d) =>
      if e.meaning(w).Some? {
        var (v, w1) := e.meaning(w).value;
        AllContained(n, Chosen(v, cases, d), inLoop, inFunction, w1);
      }
    case For(pre, c, post, body) =>
      AllContained(n, pre, false, inFunction, w);
      if MeaningAll(n, pre, w).Done? {
        LoopContained(n, c, post, body, inFunction, MeaningAll(n, pre, w).w);
      }
    case _ =>
  }

  lemma {:induction false} AllContained(n: nat, ss: seq<YStmt>, inLoop: bool, inFunction: bool, w: World)
    requires AllWellFormed(ss, inLoop, inFunction)
    ensures Contained(MeaningAll(n, ss, w), inLoop, inFunction)
    decreases n, 1, ss, 0
  {
    if |ss| > 0 {
      StmtContained(n, ss[0], inLoop, inFunction, w);
      match Meaning(n, ss[0], w)
      case Done(w1) => AllContained(n, ss[1..], inLoop, inFunction, w1);
      case _ =>
    }
  }

  lemma {:induction false} LoopContained(n: nat, c: Expr, post: seq<YStmt>, body: seq<YStmt>, inFunction: bool,
                                         w: World)
    requires AllWellFormed(post, false, inFunction) && AllWellFormed(body, true, inFunction)
    ensures Contained(Loop(n, c, post, body, w), false, inFunction)
    decreases n, 0
  {
    if n > 0 && c.meaning(w).Some? {
      var (v, w1) := c.meaning(w).value;
      AllContained(n - 1, body, true, inFunction, w1);
      var y := MeaningAll(n - 1, body, w1);
      if v != 0 && (y.Done? || y.Continues?) {
        AllContained(n - 1, post, false, inFunction, y.w);
        var z := MeaningAll(n - 1, post, y.w);
        if z.Done? {
          LoopContained(n - 1, c, post, body, inFunction, z.w);
        }
        assert Iterate(n, c, post, body, w1) == AfterBody(n, c, post, body, y.w);
      }
    }
  }

  // ---- one loop iteration -----------------------------------------------------------

  /** What a loop does with the outcome of one run of its body. */
  function AfterIteration(n: nat, r: Outcome, loop: Stmt): Outcome
    requires n > 0
  {
    match r
    case Normal(s) => Exec(n - 1, loop, s)
    case Continued(s) => Exec(n - 1, loop, s)
    case Exited(s) => Normal(s)
    case other => other
  }

  lemma WhileStep(n: nat, c: Cond, body: seq<Stmt>, s: State)
    requires n > 0 && Holds(c, s)
    ensures Exec(n, While(c, Block(body)), s)
         == AfterIteration(n, ExecAll(n - 1, body, s), While(c, Block(body)))
  {
    var r := ExecAll(n - 1, body, s);
    assert ExecBlock(n - 1, Block(body), s) == r;
    if r.Normal? || r.Continued? {
      assert Exec(n - 1, While(c, Block(body)), r.s) == ExecWhile(n - 1, c, Block(body), r.s);
    }
  }

  /** Both loop forms test the condition, pending statements included, before each body. */
  lemma LoopUnfolds(n: nat, c: Expr, body: seq<Stmt>, w: World)
    requires n > 0 && Faithful(c)
    ensures var r := Exec(n, LowerLoop(c, body), State(w, false));
            var m := c.meaning(w);
            && (m.None? ==> r == Failed)
            && (m.Some? && m.value.0 == 0 ==> r == Normal(State(m.value.1, false)))
            && (m.Some? && m.value.0 != 0 ==>
                  r == AfterIteration(n, ExecAll(n - 1, body, State(m.value.1, false)),
                                      LowerLoop(c, body)))
  {
    if |c.pending| == 0 {
      assert FaithfulAt(c, w);
      NonZeroHolds(c, State(w, false));
      if c.meaning(w).value.0 != 0 {
        WhileStep(n, NonZero(c), body, State(w, false));
      }
    } else {
      var rest := ExitUnless(c) + body;
      AfterExpr(n - 1, c, rest, w);
      assert LowerLoop(c, body) == While(Const(true), Block(Statements(c.pending) + rest)) by {
        assert Statements(c.pending) + rest == Statements(c.pending) + ExitUnless(c) + body;
      }
      WhileStep(n, Const(true), Statements(c.pending) + rest, State(w, false));
      if c.meaning(w).Some? {
        ExitTest(n - 1, c, body, c.meaning(w).value.1);
      }
    }
  }

  lemma ExitTest(n: nat, c: Expr, body: seq<Stmt>, w: World)
    ensures ExecAll(n, ExitUnless(c) + body, State(w, false)) ==
            if Number(c.residual(w)) == 0 then Exited(State(w, false))
            else ExecAll(n, body, State(w, false))
  {
    var s, first := State(w, false), ExitUnless(c)[0];
    NonZeroHolds(c, s);
    ExecOne(n, LoopExit, s);
    assert Exec(n, first, s) == if Number(c.residual(w)) == 0 then Exited(s) else Normal(s);
    assert (ExitUnless(c) + body)[0] == first && (ExitUnless(c) + body)[1..] == body;
  }

  // ---- the simulation ---------------------------------------------------------------

  lemma {:induction false} StmtSimulates(n: nat, stmt: YStmt, inLoop: bool, flagged: bool, post: seq<Stmt>, w: World)
    requires WellFormed(stmt, inLoop, flagged)
    ensures ExecAll(n, Lower(stmt, flagged, post), State(w, false))
         == Image(n, Meaning(n, stmt, w), post)
    decreases n, 1, stmt, 0
  {
    var s := State(w, false);
    match stmt
    case Act(act) => ExecOne(n, Do(act), s);
    case RevertZero => ExecOne(n, Assert(Const(false)), s);
    case RevertWith(payload) =>
      assert Lower(stmt, flagged, post)[1..] == [Assert(Const(false))];
      if payload(w).Some? {
        ExecOne(n, Assert(Const(false)), State(payload(w).value, false));
      }
    case Stop(flush) =>
      assert Lower(stmt, flagged, post)[1..] == [ProgramExit];
      if flush(w).Some? {
        ExecOne(n, ProgramExit, State(flush(w).value, false));
      }
    case Scope(body) => AllSimulate(n, body, inLoop, flagged, post, w);
    case If(c, body) => IfSimulates(n, c, body, inLoop, flagged, post, w);
    case SwitchOn(e, cases, hasDefault, d) => SwitchSimulates(n, stmt, inLoop, flagged, post, w);
    case For(pre, c, postStmts, body) => ForSimulates(n, stmt, flagged, post, w);
    case Break => ExecOne(n, LoopExit, s);
    case Continue => ExecConcat(n, post, [LoopContinue], s);
    case Leave =>
      assert Lower(stmt, flagged, post)[1..] == [LoopExit];
      ExecOne(n, LoopExit, State(w, true));
  }

  lemma {:induction false} AllSimulate(n: nat, ss: seq<YStmt>, inLoop: bool, flagged: bool, post: seq<Stmt>, w: World)
    requires AllWellFormed(ss, inLoop, flagged)
    ensures ExecAll(n, LowerAll(ss, flagged, post), State(w, false))
         == Image(n, MeaningAll(n, ss, w), post)
    decreases n, 1, ss, 0
  {
    if |ss| > 0 {
      var first, rest := Lower(ss[0], flagged, post), LowerAll(ss[1..], flagged, post);
      StmtSimulates(n, ss[0], inLoop, flagged, post, w);
      ExecConcat(n, first, rest, State(w, false));
      match Meaning(n, ss[0], w)
      case Done(w1) => AllSimulate(n, ss[1..], inLoop, flagged, post, w1);
      case Continues(w1) => ThenContinue(n, post, State(w1, false));
      case _ =>
    }
  }

  /** Code after a `continue` never runs. */
  lemma ThenContinue(n: nat, post: seq<Stmt>, s: State)
    ensures !Then(n, ExecAll(n, post, s), [LoopContinue]).Normal?
  {
    match ExecAll(n, post, s)
    case Normal(s1) => ExecOne(n, LoopContinue, s1);
    case _ =>
  }

  lemma {:induction false} IfSimulates(n: nat, c: Expr, body: seq<YStmt>, inLoop: bool, flagged: bool,
                                       post: seq<Stmt>, w: World)
    requires Faithful(c) && AllWellFormed(body, inLoop, flagged)
    ensures ExecAll(n, Lower(If(c, body), flagged, post), State(w, false))
         == Image(n, Meaning(n, If(c, body), w), post)
    decreases n, 1, body, 1
  {
    var last := LowerIf(c, body, LowerAll(body, flagged, post));
    AfterExpr(n, c, [last], w);
    if c.meaning(w).Some? {
      var w1 := c.meaning(w).value.1;
      ExecOne(n, last, State(w1, false));
      NonZeroHolds(c, State(w1, false));
      if IsRevertBody(body) {
        assert MeaningAll(n, body, w1) == Reverted;
      } else {
        AllSimulate(n, body, inLoop, flagged, post, w1);
      }
    }
  }

  lemma SwitchRuns(n: nat, e: Expr, cases: seq<Case>, d: Block, s: State)
    ensures ExecAll(n, [Switch(WordOf(e), cases, d)], s)
         == ExecBlock(n, Pick(LastWord(e.residual(s.world)), cases, d), s)
  {
    ExecOne(n, Switch(WordOf(e), cases, d), s);
  }

  lemma {:induction false} SwitchSimulates(n: nat, stmt: YStmt, inLoop: bool, flagged: bool, post: seq<Stmt>, w: World)
    requires stmt.SwitchOn? && WellFormed(stmt, inLoop, flagged)
    ensures ExecAll(n, Lower(stmt, flagged, post), State(w, false))
         == Image(n, Meaning(n, stmt, w), post)
    decreases n, 1, stmt, -1
  {
    var SwitchOn(e, cases, hasDefault, d) := stmt;
    var dBlock := LowerDefault(hasDefault, d, flagged, post);
    var last := Switch(WordOf(e), LowerCases(cases, flagged, post), dBlock);
    AfterExpr(n, e, [last], w);
    if e.meaning(w).Some? {
      var (v, w1) := e.meaning(w).value;
      SwitchRuns(n, e, LowerCases(cases, flagged, post), dBlock, State(w1, false));
      PickedCase(n, e.residual(w1), cases, d, dBlock, flagged, post, State(w1, false));
      AllSimulate(n, Chosen(v, cases, d), inLoop, flagged, post, w1);
    }
  }

  lemma {:induction false} ForSimulates(n: nat, stmt: YStmt, flagged: bool, post: seq<Stmt>, w: World)
    requires stmt.For? && WellFormed(stmt, false, flagged)
    ensures ExecAll(n, Lower(stmt, flagged, post), State(w, false))
         == Image(n, Meaning(n, stmt, w), post)
    decreases n, 1, stmt, -1
  {
    var For(pre, c, postStmts, body) := stmt;
    var post1 := LowerAll(postStmts, flagged, []);
    var loop := LowerLoop(c, LowerAll(body, flagged, post1) + post1);
    var s := State(w, false);
    AllSimulate(n, pre, false, flagged, post, w);
    AllContained(n, pre, false, flagged, w);
    var pre1 := LowerAll(pre, flagged, post);
    assert Lower(stmt, flagged, post) == pre1 + ([loop] + Propagate(flagged));
    ExecConcat(n, pre1, [loop] + Propagate(flagged), s);
    if MeaningAll(n, pre, w).Done? {
      var w1 := MeaningAll(n, pre, w).w;
      LoopSimulates(n, c, postStmts, body, flagged, w1);
      LoopContained(n, c, postStmts, body, flagged, w1);
      PropagateStep(n, loop, flagged, Loop(n, c, postStmts, body, w1), w1);
    }
  }

  /** A loop turns `leave` into a normal end with the flag raised. */
  function LoopImage(y: YOutcome): Outcome {
    match y
    case Done(w) => Normal(State(w, false))
    case Left(w) => Normal(State(w, true))
    case Stopped(w) => Halted(State(w, false))
    case NoFuel => OutOfFuel
    case _ => Failed
  }

  lemma PropagateStep(n: nat, loop: Stmt, flagged: bool, y: YOutcome, w: World)
    requires Exec(n, loop, State(w, false)) == LoopImage(y)
    requires Contained(y, false, flagged)
    ensures ExecAll(n, [loop] + Propagate(flagged), State(w, false)) == Image(n, y, [])
  {
    assert ([loop] + Propagate(flagged))[1..] == Propagate(flagged);
    if flagged && (y.Done? || y.Left?) {
      var s1 := State(y.w, y.Left?);
      ExecOne(n, Propagate(true)[0], s1);
      ExecOne(n, LoopExit, s1);
    }
  }

  /** One run of a lowered loop body: the body, then the post block unless the body left. */
  function IterationImage(n: nat, y: YOutcome, post: seq<YStmt>): Outcome {
    match y
    case Done(w) => PostImage(MeaningAll(n, post, w), false)
    case Continues(w) => PostImage(MeaningAll(n, post, w), true)
    case Broke(w) => Exited(State(w, false))
    case Left(w) => Exited(State(w, true))
    case Stopped(w) => Halted(State(w, false))
    case Reverted => Failed
    case NoFuel => OutOfFuel
  }

  function PostImage(z: YOutcome, continued: bool): Outcome {
    match z
    case Done(w) => if continued then Continued(State(w, false)) else Normal(State(w, false))
    case Left(w) => Exited(State(w, true))
    case Stopped(w) => Halted(State(w, false))
    case NoFuel => OutOfFuel
    case _ => Failed
  }

  lemma {:induction false} IterationSimulates(n: nat, post: seq<YStmt>, body: seq<YStmt>, flagged: bool, w: World)
    requires AllWellFormed(post, false, flagged) && AllWellFormed(body, true, flagged)
    ensures var post1 := LowerAll(post, flagged, []);
            ExecAll(n, LowerAll(body, flagged, post1) + post1, State(w, false))
            == IterationImage(n, MeaningAll(n, body, w), post)
    decreases n, 2
  {
    var post1 := LowerAll(post, flagged, []);
    AllSimulate(n, body, true, flagged, post1, w);
    ExecConcat(n, LowerAll(body, flagged, post1), post1, State(w, false));
    var y := MeaningAll(n, body, w);
    if y.Done? || y.Continues? {
      AllSimulate(n, post, false, flagged, [], y.w);
      AllContained(n, post, false, flagged, y.w);
      var z := MeaningAll(n, post, y.w);
      if z.Done? {
        ExecOne(n, LoopContinue, State(z.w, false));
      }
    }
  }

  lemma {:induction false} LoopSimulates(n: nat, c: Expr, post: seq<YStmt>, body: seq<YStmt>, flagged: bool, w: World)
    requires Faithful(c) && AllWellFormed(post, false, flagged) && AllWellFormed(body, true, flagged)
    ensures var post1 := LowerAll(post, flagged, []);
            Exec(n, LowerLoop(c, LowerAll(body, flagged, post1) + post1), State(w, false))
            == LoopImage(Loop(n, c, post, body, w))
    decreases n, 0
  {
    if n > 0 {
      var post1 := LowerAll(post, flagged, []);
      var body1 := LowerAll(body, flagged, post1) + post1;
      LoopUnfolds(n, c, body1, w);
      if c.meaning(w).Some? && c.meaning(w).value.0 != 0 {
        var w1 := c.meaning(w).value.1;
        IterationSimulates(n - 1, post, body, flagged, w1);
        var y := MeaningAll(n - 1, body, w1);
        if y.Done? || y.Continues? {
          AllContained(n - 1, post, false, flagged, y.w);
          var z := MeaningAll(n - 1, post, y.w);
          if z.Done? {
            LoopSimulates(n - 1, c, post, body, flagged, z.w);
          }
        }
        IterationMeets(n, c, post, body, LowerLoop(c, body1), flagged, w1);
      }
    }
  }

  /** The lowered loop agrees with Yul's if it does after the next iteration. */
  lemma IterationMeets(n: nat, c: Expr, post: seq<YStmt>, body: seq<YStmt>, loop: Stmt, flagged: bool, w: World)
    requires n > 0
    requires var y := MeaningAll(n - 1, body, w);
             (y.Done? || y.Continues?) ==>
               var z := MeaningAll(n - 1, post, y.w);
               && Contained(z, false, flagged)
               && (z.Done? ==>
                     Exec(n - 1, loop, State(z.w, false)) == LoopImage(Loop(n - 1, c, post, body, z.w)))
    ensures AfterIteration(n, IterationImage(n - 1, MeaningAll(n - 1, body, w), post), loop)
         == LoopImage(Iterate(n, c, post, body, w))
  {
  }

  // ---- inlined functions ------------------------------------------------------------

  lemma {:induction false} UpToLeaveMeaning(n: nat, body: seq<YStmt>, w: World)
    ensures MeaningAll(n, UpToLeave(body), w) == MeaningAll(n, body, w)
  {
    if |body| > 0 && !body[0].Leave? {
      assert UpToLeave(body)[1..] == UpToLeave(body[1..]);
      match Meaning(n, body[0], w)
      case Done(w1) => UpToLeaveMeaning(n, body[1..], w1);
      case _ =>
    }
  }

  lemma {:induction false} UpToLeaveWellFormed(body: seq<YStmt>, inFunction: bool)
    requires AllWellFormed(body, false, inFunction)
    ensures AllWellFormed(UpToLeave(body), false, inFunction)
  {
    if |body| > 0 && !body[0].Leave? {
      UpToLeaveWellFormed(body[1..], inFunction);
    }
  }

  /** What calling a Yul function does: `leave` and falling off the end both return. */
  function CallOutcome(n: nat, body: seq<YStmt>, w: World): YOutcome {
    match MeaningAll(n, body, w)
    case Left(w1) => Done(w1)
    case other => other
  }

  /** An AWST run that ends as the Yul call does, whatever value the dead flag is left with. */
  ghost predicate EndsAs(r: Outcome, y: YOutcome) {
    match y
    case Done(w) => r.Normal? && r.s.world == w
    case Stopped(w) => r.Halted? && r.s.world == w
    case Reverted => r == Failed
    case NoFuel => r == OutOfFuel
    case _ => false
  }

  /** MEANING IS PRESERVED. Running the lowering of an inlined function body, from any world
  and any stale value of the flag, ends as the Yul call does: the same final world, the same
  reverts, and running out of fuel exactly when Yul does (the wrapper loop costs one unit). */
  lemma FunctionSimulates(n: nat, body: seq<YStmt>, hasLeave: bool, w: World, stale: bool)
    requires AllWellFormed(body, false, hasLeave)
    requires !hasLeave ==> !stale
    ensures EndsAs(ExecAll(if hasLeave then n + 1 else n, LowerFunction(body, hasLeave), State(w, stale)),
                   CallOutcome(n, body, w))
  {
    UpToLeaveMeaning(n, body, w);
    UpToLeaveWellFormed(body, hasLeave);
    AllContained(n, body, false, hasLeave, w);
    AllSimulate(n, UpToLeave(body), false, hasLeave, [], w);
    if hasLeave {
      var inner := LowerAll(UpToLeave(body), true, []);
      var s := State(w, false);
      var wrapper := While(Const(true), Block(inner + [LoopExit]));
      WhileStep(n + 1, Const(true), inner + [LoopExit], s);
      ExecConcat(n, inner, [LoopExit], s);
      if MeaningAll(n, body, w).Done? {
        ExecOne(n, LoopExit, State(MeaningAll(n, body, w).w, false));
      }
      assert LowerFunction(body, true)[1..] == [wrapper];
      ExecOne(n + 1, wrapper, s);
    }
  }

  /** END TO END. The same holds after dead-code removal, which every emitted body goes
  through, for the code that the two passes leave together. */
  lemma LoweredAndPruned(n: nat, body: seq<YStmt>, hasLeave: bool, w: World)
    requires AllWellFormed(body, false, hasLeave)
    ensures EndsAs(ExecAll(if hasLeave then n + 1 else n,
                           Pruned(LowerFunction(body, hasLeave)), State(w, false)),
                   CallOutcome(n, body, w))
    ensures Clean(Pruned(LowerFunction(body, hasLeave)))
  {
    FunctionSimulates(n, body, hasLeave, w, false);
    PrunedExec(if hasLeave then n + 1 else n, LowerFunction(body, hasLeave), State(w, false));
    PrunedIsClean(LowerFunction(body, hasLeave));
  }
}
