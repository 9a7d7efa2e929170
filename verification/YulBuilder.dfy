/** The translator itself: an object that appends to output lists, queues the pending
statements of expressions, and remembers the post block of the loop it is inside. */
module YulBuilder {
  import opened Bytes
  import opened Awst
  import opened Yul
  import opened YulLowering

  // ---- a loop's post block does not depend on where it is repeated -------------------

  lemma {:induction false} LowerIgnoresPost(stmt: YStmt, inFunction: bool, flagged: bool, p: seq<Stmt>, q: seq<Stmt>)
    requires WellFormed(stmt, false, inFunction)
    ensures Lower(stmt, flagged, p) == Lower(stmt, flagged, q)
    decreases stmt, 0
  {
    match stmt
    case Scope(body) => AllIgnorePost(body, inFunction, flagged, p, q);
    case If(_, body) => AllIgnorePost(body, inFunction, flagged, p, q);
    case SwitchOn(_, cases, _, d) =>
      AllIgnorePost(d, inFunction, flagged, p, q);
      forall i | 0 <= i < |cases|
        ensures LowerCases(cases, flagged, p)[i] == LowerCases(cases, flagged, q)[i]
      {
        AllIgnorePost(cases[i].body, inFunction, flagged, p, q);
      }
      assert LowerCases(cases, flagged, p) == LowerCases(cases, flagged, q);
    case For(pre, _, _, _) => AllIgnorePost(pre, inFunction, flagged, p, q);
    case _ =>
  }

  lemma {:induction false} AllIgnorePost(ss: seq<YStmt>, inFunction: bool, flagged: bool, p: seq<Stmt>, q: seq<Stmt>)
    requires AllWellFormed(ss, false, inFunction)
    ensures LowerAll(ss, flagged, p) == LowerAll(ss, flagged, q)
    decreases ss, 0
  {
    if |ss| > 0 {
      LowerIgnoresPost(ss[0], inFunction, flagged, p, q);
      AllIgnorePost(ss[1..], inFunction, flagged, p, q);
    }
  }

  // ---- the halt flag -------------------------------------------------------------------

  /** Translating the statement latches the halt flag: it reverts or stops outright. What a conditional
  body or a loop body does to the flag is undone. `post` says whether the post block that a
  `continue` repeats latches it. */
  ghost predicate Latches(stmt: YStmt, post: bool)
    decreases stmt, 0
  {
    match stmt
    case RevertZero => true
    case RevertWith(_) => true
    case Stop(_) => true
    case Scope(body) => AnyLatches(body, post)
    case For(pre, _, _, _) => AnyLatches(pre, post)
    case Continue => post
    case _ => false
  }

  ghost predicate AnyLatches(ss: seq<YStmt>, post: bool)
    decreases ss, 0
  {
    |ss| > 0 && (Latches(ss[0], post) || AnyLatches(ss[1..], post))
  }

  lemma {:induction false} LatchIgnoresPost(stmt: YStmt, inFunction: bool, p: bool, q: bool)
    requires WellFormed(stmt, false, inFunction)
    ensures Latches(stmt, p) == Latches(stmt, q)
    decreases stmt, 0
  {
    match stmt
    case Scope(body) => AllLatchIgnorePost(body, inFunction, p, q);
    case For(pre, _, _, _) => AllLatchIgnorePost(pre, inFunction, p, q);
    case _ =>
  }

  lemma {:induction false} AllLatchIgnorePost(ss: seq<YStmt>, inFunction: bool, p: bool, q: bool)
    requires AllWellFormed(ss, false, inFunction)
    ensures AnyLatches(ss, p) == AnyLatches(ss, q)
    decreases ss, 0
  {
    if |ss| > 0 {
      LatchIgnoresPost(ss[0], inFunction, p, q);
      AllLatchIgnorePost(ss[1..], inFunction, p, q);
    }
  }

  /** The statements that are translated one after the other in place: blocks and the
  initializers of loops are opened, conditional bodies are not. */
  ghost function InPlace(ss: seq<YStmt>): seq<YStmt>
    decreases ss, 0
  {
    if |ss| == 0 then [] else InPlaceOf(ss[0]) + InPlace(ss[1..])
  }

  ghost function InPlaceOf(stmt: YStmt): seq<YStmt>
    decreases stmt, 0
  {
    match stmt
    case Scope(body) => InPlace(body)
    case For(pre, _, _, _) => InPlace(pre)
    case _ => [stmt]
  }

  ghost predicate EndsProgram(stmt: YStmt, post: bool) {
    stmt.RevertZero? || stmt.RevertWith? || stmt.Stop? || (stmt.Continue? && post)
  }

  ghost predicate AnyEnds(ss: seq<YStmt>, post: bool) {
    exists i :: 0 <= i < |ss| && EndsProgram(ss[i], post)
  }

  /** The flag is latched by exactly the reverts and stops in place, and by a `continue` whose
  post block has one. */
  lemma {:induction false} LatchesExactly(ss: seq<YStmt>, post: bool)
    ensures AnyLatches(ss, post) <==> AnyEnds(InPlace(ss), post)
    decreases ss, 0
  {
    if |ss| > 0 {
      LatchesInPlace(ss[0], post);
      LatchesExactly(ss[1..], post);
      EndsAmong(InPlaceOf(ss[0]), InPlace(ss[1..]), post);
    }
  }

  lemma {:induction false} LatchesInPlace(stmt: YStmt, post: bool)
    ensures Latches(stmt, post) <==> AnyEnds(InPlaceOf(stmt), post)
    decreases stmt, 0
  {
    match stmt
    case Scope(body) => LatchesExactly(body, post);
    case For(pre, _, _, _) => LatchesExactly(pre, post);
    case _ => assert InPlaceOf(stmt)[0] == stmt;
  }

  lemma EndsAmong(a: seq<YStmt>, b: seq<YStmt>, post: bool)
    ensures AnyEnds(a + b, post) <==> AnyEnds(a, post) || AnyEnds(b, post)
  {
    if AnyEnds(a, post) {
      var i :| 0 <= i < |a| && EndsProgram(a[i], post);
      assert (a + b)[i] == a[i];
    }
    if AnyEnds(b, post) {
      var i :| 0 <= i < |b| && EndsProgram(b[i], post);
      assert (a + b)[|a| + i] == b[i];
    }
  }

  /** When the flag is latched the code behind it is unreachable: no run gets there. */
  lemma {:induction false} LatchIsSound(n: nat, ss: seq<YStmt>, post: bool, w: World)
    requires AnyLatches(ss, post)
    ensures !MeaningAll(n, ss, w).Done?
    decreases ss, 0
  {
    if Latches(ss[0], post) {
      LatchedStmt(n, ss[0], post, w);
    } else {
      var o := Meaning(n, ss[0], w);
      if o.Done? {
        LatchIsSound(n, ss[1..], post, o.w);
      }
    }
  }

  lemma {:induction false} LatchedStmt(n: nat, stmt: YStmt, post: bool, w: World)
    requires Latches(stmt, post)
    ensures !Meaning(n, stmt, w).Done?
    decreases stmt, 0
  {
    match stmt
    case Scope(body) => LatchIsSound(n, body, post, w);
    case For(pre, _, _, _) => LatchIsSound(n, pre, post, w);
    case _ =>
  }

  // ---- termination: how many statements the translation visits -----------------------

  ghost function Cost(stmt: YStmt, post: nat): nat
    decreases stmt, 0
  {
    match stmt
    case Scope(body) => 1 + CostAll(body, post)
    case If(_, body) => 1 + CostAll(body, post)
    case SwitchOn(_, cases, _, d) => 1 + CostAll(d, post) + CostCases(cases, post)
    case For(pre, _, p, body) =>
      1 + CostAll(pre, post) + CostAll(p, 0) + CostAll(body, CostAll(p, 0))
    case Continue => 1 + post
    case _ => 1
  }

  ghost function CostAll(ss: seq<YStmt>, post: nat): nat
    decreases ss, 0
  {
    if |ss| == 0 then 0 else 1 + Cost(ss[0], post) + CostAll(ss[1..], post)
  }

  ghost function CostCases(cases: seq<YCase>, post: nat): nat
    decreases cases, 0
  {
    if |cases| == 0 then 0 else 1 + CostAll(cases[0].body, post) + CostCases(cases[1..], post)
  }

  lemma {:induction false} CostIgnoresPost(stmt: YStmt, inFunction: bool, p: nat, q: nat)
    requires WellFormed(stmt, false, inFunction)
    ensures Cost(stmt, p) == Cost(stmt, q)
    decreases stmt, 0
  {
    match stmt
    case Scope(body) => CostAllIgnoresPost(body, inFunction, p, q);
    case If(_, body) => CostAllIgnoresPost(body, inFunction, p, q);
    case SwitchOn(_, cases, _, d) =>
      CostAllIgnoresPost(d, inFunction, p, q);
      CostCasesIgnorePost(cases, inFunction, p, q);
    case For(pre, _, _, _) => CostAllIgnoresPost(pre, inFunction, p, q);
    case _ =>
  }

  lemma {:induction false} CostAllIgnoresPost(ss: seq<YStmt>, inFunction: bool, p: nat, q: nat)
    requires AllWellFormed(ss, false, inFunction)
    ensures CostAll(ss, p) == CostAll(ss, q)
    decreases ss, 0
  {
    if |ss| > 0 {
      CostIgnoresPost(ss[0], inFunction, p, q);
      CostAllIgnoresPost(ss[1..], inFunction, p, q);
    }
  }

  lemma {:induction false} CostCasesIgnorePost(cases: seq<YCase>, inFunction: bool, p: nat, q: nat)
    requires forall i :: 0 <= i < |cases| ==> AllWellFormed(cases[i].body, false, inFunction)
    ensures CostCases(cases, p) == CostCases(cases, q)
    decreases cases, 0
  {
    if |cases| > 0 {
      CostAllIgnoresPost(cases[0].body, inFunction, p, q);
      CostCasesIgnorePost(cases[1..], inFunction, p, q);
    }
  }

  lemma {:induction false} CaseCost(cases: seq<YCase>, i: nat, post: nat)
    requires i < |cases|
    ensures CostAll(cases[i].body, post) < CostCases(cases, post)
  {
    if i > 0 {
      CaseCost(cases[1..], i - 1, post);
    }
  }

  // ---- the translator ----------------------------------------------------------------

  class AssemblyBuilder {
    var pending: seq<Stmt>
    var forLoopPost: Option<seq<YStmt>>
    var haltEmitted: bool
    const inlineDepth: nat
    const hasLeaveFlag: bool

    constructor (depth: nat, flag: bool)
      ensures pending == [] && forLoopPost == None && !haltEmitted
      ensures inlineDepth == depth && hasLeaveFlag == flag
    {
      pending, forLoopPost, haltEmitted, inlineDepth, hasLeaveFlag := [], None, false, depth, flag;
    }

    /** The leave flag exists only inside an inlined function, and the remembered post block
    belongs to a well-formed loop. */
    ghost predicate Valid()
      reads this`forLoopPost
    {
      && (hasLeaveFlag ==> inlineDepth > 0)
      && (forLoopPost.Some? ==> AllWellFormed(forLoopPost.value, false, hasLeaveFlag))
    }

    ghost function PostCode(): seq<Stmt>
      reads this`forLoopPost
    {
      if forLoopPost.None? then [] else LowerAll(forLoopPost.value, hasLeaveFlag, [])
    }

    ghost predicate PostLatches()
      reads this`forLoopPost
    {
      forLoopPost.Some? && AnyLatches(forLoopPost.value, false)
    }

    ghost function PostCost(): nat
      reads this`forLoopPost
    {
      if forLoopPost.None? then 0 else CostAll(forLoopPost.value, 0)
    }

    /** Expression translation queues its pending statements. */
    method BuildExpression(e: Expr)
      modifies this`pending
      ensures pending == old(pending) + Statements(e.pending)
    {
      pending := pending + Statements(e.pending);
    }

    /** Move the statements queued from index `from` on to the output. */
    method DrainPending(out: seq<Stmt>, from: nat) returns (r: seq<Stmt>)
      requires from <= |pending|
      modifies this`pending
      ensures r == out + old(pending)[from..] && pending == old(pending)[..from]
    {
      r := out;
      for i := from to |pending|
        invariant pending == old(pending)
        invariant r == out + pending[from..i]
      {
        r := r + [pending[i]];
      }
      pending := pending[..from];
    }

    /** Translate an expression and move what it queued, and only that, to the output. */
    method DrainExpression(e: Expr, out: seq<Stmt>) returns (r: seq<Stmt>)
      modifies this`pending
      ensures r == out + Statements(e.pending) && pending == old(pending)
    {
      var pendingBefore := |pending|;
      BuildExpression(e);
      assert pending[pendingBefore..] == Statements(e.pending);
      r := DrainPending(out, pendingBefore);
    }

    method BuildAll(ss: seq<YStmt>, out: seq<Stmt>) returns (r: seq<Stmt>)
      requires Valid() && AllWellFormed(ss, forLoopPost.Some?, hasLeaveFlag)
      modifies this
      ensures r == out + LowerAll(ss, hasLeaveFlag, old(PostCode()))
      ensures Valid() && pending == old(pending) && forLoopPost == old(forLoopPost)
      ensures haltEmitted == (old(haltEmitted) || AnyLatches(ss, old(PostLatches())))
      decreases CostAll(ss, PostCost()), 1
    {
      r := out;
      if |ss| > 0 {
        r := BuildStatement(ss[0], r);
        r := BuildAll(ss[1..], r);
        Append(out, Lower(ss[0], hasLeaveFlag, PostCode()), LowerAll(ss[1..], hasLeaveFlag, PostCode()));
      }
    }

    /** A fresh block. */
    method BuildBlock(ss: seq<YStmt>) returns (code: seq<Stmt>)
      requires Valid() && AllWellFormed(ss, forLoopPost.Some?, hasLeaveFlag)
      modifies this
      ensures code == LowerAll(ss, hasLeaveFlag, old(PostCode()))
      ensures Valid() && pending == old(pending) && forLoopPost == old(forLoopPost)
      ensures haltEmitted == (old(haltEmitted) || AnyLatches(ss, old(PostLatches())))
      decreases CostAll(ss, PostCost()), 2
    {
      code := BuildAll(ss, []);
    }

    method BuildStatement(stmt: YStmt, out: seq<Stmt>) returns (r: seq<Stmt>)
      requires Valid() && WellFormed(stmt, forLoopPost.Some?, hasLeaveFlag)
      modifies this
      ensures r == out + Lower(stmt, hasLeaveFlag, old(PostCode()))
      ensures Valid() && pending == old(pending) && forLoopPost == old(forLoopPost)
      ensures haltEmitted == (old(haltEmitted) || Latches(stmt, old(PostLatches())))
      decreases Cost(stmt, PostCost()), 3
    {
      match stmt
      case Act(act) => r := out + [Do(act)];
      case RevertZero =>
        r := out + [Assert(Const(false))];
        haltEmitted := true;
      case RevertWith(payload) =>
        r := out + [Do(payload), Assert(Const(false))];
        haltEmitted := true;
      case Stop(flush) =>
        r := out + [Do(flush), ProgramExit];
        haltEmitted := true;
      case Scope(body) => r := BuildAll(body, out);
      case If(_, _) => r := BuildIf(stmt, out);
      case SwitchOn(_, _, _, _) => r := BuildSwitch(stmt, out);
      case For(_, _, _, _) => r := BuildFor(stmt, out);
      case Break => r := out + [LoopExit];
      case Continue => r := BuildContinue(out);
      case Leave => r := BuildLeave(out);
    }

    method BuildIf(stmt: YStmt, out: seq<Stmt>) returns (r: seq<Stmt>)
      requires stmt.If? && Valid() && WellFormed(stmt, forLoopPost.Some?, hasLeaveFlag)
      modifies this
      ensures r == out + Lower(stmt, hasLeaveFlag, old(PostCode()))
      ensures Valid() && pending == old(pending) && forLoopPost == old(forLoopPost)
      ensures haltEmitted == old(haltEmitted)
      decreases Cost(stmt, PostCost()), 1
    {
      r := DrainExpression(stmt.cond, out);
      var last := Assert(Not(NonZero(stmt.cond)));
      if !IsRevertBody(stmt.body) {
        var savedHalt := haltEmitted;
        var body := BuildBlock(stmt.body);
        haltEmitted := savedHalt;
        last := IfElse(NonZero(stmt.cond), Block(body), NoBlock);
      }
      Append(out, Statements(stmt.cond.pending), [last]);
      r := r + [last];
    }

    method BuildContinue(out: seq<Stmt>) returns (r: seq<Stmt>)
      requires Valid()
      modifies this
      ensures r == out + Lower(Continue, hasLeaveFlag, old(PostCode()))
      ensures Valid() && pending == old(pending) && forLoopPost == old(forLoopPost)
      ensures haltEmitted == (old(haltEmitted) || old(PostLatches()))
      decreases Cost(Continue, PostCost()), 1
    {
      r := out;
      if forLoopPost.Some? {
        var post := forLoopPost.value;
        CostAllIgnoresPost(post, hasLeaveFlag, PostCost(), 0);
        AllIgnorePost(post, hasLeaveFlag, hasLeaveFlag, PostCode(), []);
        AllLatchIgnorePost(post, hasLeaveFlag, PostLatches(), false);
        WiderScope(post, hasLeaveFlag);
        r := BuildAll(post, r);
      }
      r := r + [LoopContinue];
    }

    /** Outside an inlined function a leave adds nothing. */
    method BuildLeave(out: seq<Stmt>) returns (r: seq<Stmt>)
      ensures r == out + (if inlineDepth == 0 then [] else Lower(Leave, hasLeaveFlag, PostCode()))
    {
      r := out;
      if inlineDepth > 0 {
        if hasLeaveFlag {
          r := r + [SetLeave(true)];
        }
        r := r + [LoopExit];
      }
    }

    method BuildFor(stmt: YStmt, out: seq<Stmt>) returns (r: seq<Stmt>)
      requires stmt.For? && Valid() && WellFormed(stmt, forLoopPost.Some?, hasLeaveFlag)
      modifies this
      ensures r == out + Lower(stmt, hasLeaveFlag, old(PostCode()))
      ensures Valid() && pending == old(pending) && forLoopPost == old(forLoopPost)
      ensures haltEmitted == (old(haltEmitted) || AnyLatches(stmt.pre, old(PostLatches())))
      decreases Cost(stmt, PostCost()), 1
    {
      var For(pre, cond, post, body) := stmt;
      WiderScope(pre, hasLeaveFlag);
      r := BuildAll(pre, out);

      var condStmts := DrainExpression(cond, []);

      var block := BuildLoopBody(post, body);
      var loop := if |condStmts| == 0 then While(NonZero(cond), Block(block))
                  else While(Const(true), Block(condStmts + ExitUnless(cond) + block));
      assert condStmts == Statements(cond.pending) && loop == LowerLoop(cond, block);
      ghost var pre1 := LowerAll(pre, hasLeaveFlag, old(PostCode()));
      r := r + [loop];
      Append(out, pre1, [loop]);
      Append(out, pre1 + [loop], Propagate(hasLeaveFlag));
      if hasLeaveFlag {
        r := r + [IfElse(LeaveFlag, Block([LoopExit]), NoBlock)];
      }
    }

    /** The body followed by the post block, with that post block remembered meanwhile. */
    method BuildLoopBody(post: seq<YStmt>, body: seq<YStmt>) returns (block: seq<Stmt>)
      requires Valid() && AllWellFormed(post, false, hasLeaveFlag) && AllWellFormed(body, true, hasLeaveFlag)
      modifies this
      ensures var post1 := LowerAll(post, hasLeaveFlag, []);
              block == LowerAll(body, hasLeaveFlag, post1) + post1
      ensures Valid() && pending == old(pending) && forLoopPost == old(forLoopPost)
      ensures haltEmitted == old(haltEmitted)
      decreases CostAll(post, 0) + CostAll(body, CostAll(post, 0)), 4
    {
      var savedPost, savedHalt := forLoopPost, haltEmitted;
      forLoopPost := Some(post);
      block := BuildBlock(body);
      CostAllIgnoresPost(post, hasLeaveFlag, CostAll(post, 0), 0);
      AllIgnorePost(post, hasLeaveFlag, hasLeaveFlag, PostCode(), []);
      WiderScope(post, hasLeaveFlag);
      block := BuildAll(post, block);
      forLoopPost, haltEmitted := savedPost, savedHalt;
    }

    method BuildSwitch(stmt: YStmt, out: seq<Stmt>) returns (r: seq<Stmt>)
      requires stmt.SwitchOn? && Valid() && WellFormed(stmt, forLoopPost.Some?, hasLeaveFlag)
      modifies this
      ensures r == out + Lower(stmt, hasLeaveFlag, old(PostCode()))
      ensures Valid() && pending == old(pending) && forLoopPost == old(forLoopPost)
      ensures haltEmitted == old(haltEmitted)
      decreases Cost(stmt, PostCost()), 1
    {
      var SwitchOn(e, cases, hasDefault, default) := stmt;
      r := DrainExpression(e, out);
      var savedHalt := haltEmitted;
      var arms := BuildCases(cases);
      var defaultBlock := NoBlock;
      if hasDefault {
        var block := BuildBlock(default);
        defaultBlock := Block(block);
      }
      haltEmitted := savedHalt;
      Append(out, Statements(e.pending), [Switch(WordOf(e), arms, defaultBlock)]);
      r := r + [Switch(WordOf(e), arms, defaultBlock)];
    }

    method BuildCases(cases: seq<YCase>) returns (arms: seq<Case>)
      requires Valid()
      requires forall i :: 0 <= i < |cases| ==>
                 AllWellFormed(cases[i].body, forLoopPost.Some?, hasLeaveFlag)
      modifies this
      ensures arms == LowerCases(cases, hasLeaveFlag, old(PostCode()))
      ensures Valid() && pending == old(pending) && forLoopPost == old(forLoopPost)
      decreases CostCases(cases, PostCost()), 0
    {
      arms := [];
      ghost var all := LowerCases(cases, hasLeaveFlag, PostCode());
      for i := 0 to |cases|
        invariant Valid() && pending == old(pending) && forLoopPost == old(forLoopPost)
        invariant arms == all[..i]
      {
        CaseCost(cases, i, PostCost());
        var arm := BuildCase(cases[i]);
        NextCase(all, i, arm);
        arms := arms + [arm];
      }
    }

    /** One case: its 32-byte label and a fresh block. */
    method BuildCase(yulCase: YCase) returns (arm: Case)
      requires Valid() && AllWellFormed(yulCase.body, forLoopPost.Some?, hasLeaveFlag)
      modifies this
      ensures arm == LowerCase(yulCase, hasLeaveFlag, old(PostCode()))
      ensures Valid() && pending == old(pending) && forLoopPost == old(forLoopPost)
      decreases CostAll(yulCase.body, PostCost()), 3
    {
      var block := BuildBlock(yulCase.body);
      arm := Case(BigEndian(32, yulCase.literal), Block(block));
    }
  }

  lemma NextCase(all: seq<Case>, i: nat, arm: Case)
    requires i < |all| && all[i] == arm
    ensures all[..i + 1] == all[..i] + [arm]
  {
  }

  lemma Append(out: seq<Stmt>, a: seq<Stmt>, b: seq<Stmt>)
    ensures out + (a + b) == out + a + b
  {
  }

  /** Code without break or continue may stand anywhere. */
  lemma {:induction false} WiderScope(ss: seq<YStmt>, inFunction: bool)
    requires AllWellFormed(ss, false, inFunction)
    ensures AllWellFormed(ss, true, inFunction)
    decreases ss, 0
  {
    forall i | 0 <= i < |ss|
      ensures WellFormed(ss[i], true, inFunction)
    {
      WiderScopeStmt(ss[i], inFunction);
    }
  }

  lemma {:induction false} WiderScopeStmt(stmt: YStmt, inFunction: bool)
    requires WellFormed(stmt, false, inFunction)
    ensures WellFormed(stmt, true, inFunction)
    decreases stmt, 0
  {
    match stmt
    case Scope(body) => WiderScope(body, inFunction);
    case If(_, body) => WiderScope(body, inFunction);
    case SwitchOn(_, cases, _, d) =>
      WiderScope(d, inFunction);
      forall i | 0 <= i < |cases|
        ensures AllWellFormed(cases[i].body, true, inFunction)
      {
        WiderScope(cases[i].body, inFunction);
      }
    case _ =>
  }
}
