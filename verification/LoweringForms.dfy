/** What the control-flow lowering does not emit. */
module LoweringForms {
  import opened Awst
  import opened Yul
  import opened YulLowering

  predicate CondUsesFlag(c: Cond) {
    match c
    case LeaveFlag => true
    case Not(d) => CondUsesFlag(d)
    case _ => false
  }

  /** No statement, at any depth, sets or tests the leave flag. */
  predicate FlagFree(ss: seq<Stmt>)
    decreases ss, 0
  {
    forall i :: 0 <= i < |ss| ==> StmtFlagFree(ss[i])
  }

  predicate BlockFlagFree(b: Block)
    decreases b, 1
  {
    b.Block? ==> FlagFree(b.body)
  }

  predicate StmtFlagFree(stmt: Stmt)
    decreases stmt, 0
  {
    match stmt
    case SetLeave(_) => false
    case Assert(c) => !CondUsesFlag(c)
    case Nested(b) => BlockFlagFree(b)
    case IfElse(c, b1, b2) => !CondUsesFlag(c) && BlockFlagFree(b1) && BlockFlagFree(b2)
    case While(c, b) => !CondUsesFlag(c) && BlockFlagFree(b)
    case ForIn(_, _, b) => BlockFlagFree(b)
    case Switch(_, cases, d) =>
      BlockFlagFree(d) && forall i :: 0 <= i < |cases| ==> BlockFlagFree(cases[i].block)
    case _ => true
  }

  /** Code lowered without a leave flag mentions none. */
  lemma {:induction false} NoFlagWithoutLeave(ss: seq<YStmt>, post: seq<Stmt>)
    requires FlagFree(post)
    ensures FlagFree(LowerAll(ss, false, post))
    decreases ss, 0
  {
    if |ss| > 0 {
      StmtNoFlag(ss[0], post);
      NoFlagWithoutLeave(ss[1..], post);
    }
  }

  lemma {:induction false} StmtNoFlag(stmt: YStmt, post: seq<Stmt>)
    requires FlagFree(post)
    ensures FlagFree(Lower(stmt, false, post))
    decreases stmt, 0
  {
    match stmt
    case Scope(body) => NoFlagWithoutLeave(body, post);
    case If(_, body) => NoFlagWithoutLeave(body, post);
    case SwitchOn(_, cases, _, d) =>
      NoFlagWithoutLeave(d, post);
      forall i | 0 <= i < |cases|
        ensures BlockFlagFree(LowerCases(cases, false, post)[i].block)
      {
        NoFlagWithoutLeave(cases[i].body, post);
      }
    case For(pre, c, postStmts, body) =>
      NoFlagWithoutLeave(pre, post);
      NoFlagWithoutLeave(postStmts, []);
      var post1 := LowerAll(postStmts, false, []);
      NoFlagWithoutLeave(body, post1);
      LoopNoFlag(c, LowerAll(body, false, post1) + post1);
    case _ =>
  }

  lemma FlagFreeJoin(ss: seq<Stmt>, tt: seq<Stmt>)
    requires FlagFree(ss) && FlagFree(tt)
    ensures FlagFree(ss + tt)
  {
  }

  lemma LoopNoFlag(c: Expr, body: seq<Stmt>)
    requires FlagFree(body)
    ensures StmtFlagFree(LowerLoop(c, body))
  {
    if |c.pending| > 0 {
      var exit := ExitUnless(c);
      assert exit[0].thenBlock.body == [LoopExit];
      assert FlagFree(exit);
      var first := Statements(c.pending);
      forall i | 0 <= i < |first|
        ensures StmtFlagFree(first[i])
      {
      }
      FlagFreeJoin(first, exit);
      FlagFreeJoin(first + exit, body);
    }
  }

  /** A conditional revert becomes one assertion behind the pending statements of its condition,
  and no branch. */
  lemma RevertCollapses(c: Expr, flagged: bool, post: seq<Stmt>)
    ensures var code := Lower(If(c, [RevertZero]), flagged, post);
            && |code| == |c.pending| + 1 && code[|c.pending|].Assert?
            && forall w, leaving ::
                 Holds(code[|c.pending|].cond, State(w, leaving)) <==> !Holds(NonZero(c), State(w, leaving))
  {
  }

  /** A loop whose condition leaves nothing pending tests it in place; otherwise the loop has no
  test of its own and runs the pending statements first. */
  lemma LoopForm(c: Expr, body: seq<Stmt>)
    ensures var loop := LowerLoop(c, body);
            && loop.While? && loop.body.Block?
            && (c.pending == [] ==> loop.body.body == body && loop.cond.Test?)
            && (c.pending != [] ==>
                  && loop.cond == Const(true) && |loop.body.body| == |c.pending| + 1 + |body|
                  && loop.body.body[|c.pending| + 1..] == body)
  {
    if c.pending != [] {
      assert LowerLoop(c, body).body.body[|c.pending| + 1..] == body;
    }
  }
}
