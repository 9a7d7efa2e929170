/** Yul's structured control flow and its meaning. */
module Yul {
  import opened Bytes
  import opened Awst

  /** An expression: what it means in Yul, and what expression lowering made of it: pending
  statements to run first and a residual big-endian number read afterwards. */
  datatype Expr = Expr(
    meaning: World -> Option<(nat, World)>,
    pending: seq<Action>,
    residual: World -> bytes)

  datatype YCase = YCase(literal: nat, body: seq<YStmt>)

  datatype YStmt =
    | Act(act: Action)                     // declarations, assignments, builtin calls
    | RevertZero                           // revert(0, 0)
    | RevertWith(payload: Action)          // any other revert: its payload is logged first
    | Stop(flush: Action)                  // stop(): memory is written back, then the program ends
    | Scope(body: seq<YStmt>)
    | If(cond: Expr, body: seq<YStmt>)
    | SwitchOn(scrutinee: Expr, cases: seq<YCase>, hasDefault: bool, default: seq<YStmt>)
    | For(pre: seq<YStmt>, cond: Expr, post: seq<YStmt>, body: seq<YStmt>)
    | Break
    | Continue
    | Leave

  datatype YOutcome =
    | Done(w: World)
    | Broke(w: World)
    | Continues(w: World)
    | Left(w: World)
    | Stopped(w: World)
    | Reverted
    | NoFuel

  function Run(acts: seq<Action>, w: World): Option<World> {
    if |acts| == 0 then Some(w) else
    match acts[0](w)
    case None => None
    case Some(w1) => Run(acts[1..], w1)
  }

  /** Running the pending statements and then reading the residual gives the expression's
  value, a 256-bit number, and its effects. */
  ghost predicate Faithful(e: Expr) {
    forall w :: FaithfulAt(e, w)
  }

  ghost predicate FaithfulAt(e: Expr, w: World) {
    var ran := Run(e.pending, w);
    && (ran.None? ==> e.meaning(w) == None)
    && (ran.Some? ==>
          && Number(e.residual(ran.value)) < TWO_256
          && e.meaning(w) == Some((Number(e.residual(ran.value)), ran.value)))
  }

  function Meaning(n: nat, stmt: YStmt, w: World): YOutcome
    decreases n, 1, stmt, 0
  {
    match stmt
    case Act(act) =>
      (match act(w)
       case None => Reverted
       case Some(w1) => Done(w1))
    case RevertZero => Reverted
    case RevertWith(_) => Reverted
    case Stop(flush) =>
      (match flush(w)
       case None => Reverted
       case Some(w1) => Stopped(w1))
    case Scope(body) => MeaningAll(n, body, w)
    case If(c, body) =>
      (match c.meaning(w)
       case None => Reverted
       case Some((v, w1)) => if v != 0 then MeaningAll(n, body, w1) else Done(w1))
    case SwitchOn(e, cases, _, d) =>
      (match e.meaning(w)
       case None => Reverted
       case Some((v, w1)) => MeaningAll(n, Chosen(v, cases, d), w1))
    case For(pre, c, post, body) =>
      (match MeaningAll(n, pre, w)
       case Done(w1) => Loop(n, c, post, body, w1)
       case other => other)
    case Break => Broke(w)
    case Continue => Continues(w)
    case Leave => Left(w)
  }

  function MeaningAll(n: nat, ss: seq<YStmt>, w: World): YOutcome
    decreases n, 1, ss, 0
  {
    if |ss| == 0 then Done(w) else
    match Meaning(n, ss[0], w)
    case Done(w1) => MeaningAll(n, ss[1..], w1)
    case other => other
  }

  /** A loop's outcome from the test on. */
  function Loop(n: nat, c: Expr, post: seq<YStmt>, body: seq<YStmt>, w: World): YOutcome
    decreases n, 0
  {
    if n == 0 then NoFuel else
    match c.meaning(w)
    case None => Reverted
    case Some((v, w1)) => if v == 0 then Done(w1) else Iterate(n, c, post, body, w1)
  }

  /** The body, the post block and the rest of the loop. `continue` goes to `post`. */
  function Iterate(n: nat, c: Expr, post: seq<YStmt>, body: seq<YStmt>, w: World): YOutcome
    requires n > 0
    decreases n - 1, 3
  {
    match MeaningAll(n - 1, body, w)
    case Done(w1) => AfterBody(n, c, post, body, w1)
    case Continues(w1) => AfterBody(n, c, post, body, w1)
    case Broke(w1) => Done(w1)
    case other => other
  }

  function AfterBody(n: nat, c: Expr, post: seq<YStmt>, body: seq<YStmt>, w: World): YOutcome
    requires n > 0
    decreases n - 1, 2
  {
    match MeaningAll(n - 1, post, w)
    case Done(w1) => Loop(n - 1, c, post, body, w1)
    case other => other
  }

  /** The body of the case whose literal equals v, else the default (empty when absent). */
  function Chosen(v: nat, cases: seq<YCase>, d: seq<YStmt>): (ss: seq<YStmt>)
    ensures ss == d || exists i :: 0 <= i < |cases| && ss == cases[i].body
  {
    if |cases| == 0 then d
    else if v == cases[0].literal then cases[0].body
    else Chosen(v, cases[1..], d)
  }

  // ---- what Yul itself requires of a program ---------------------------------------

  /** `break` and `continue` occur only in loop bodies, `leave` only where `inFunction`;
  expressions are lowered faithfully and literals are 256-bit numbers. */
  ghost predicate WellFormed(stmt: YStmt, inLoop: bool, inFunction: bool)
    decreases stmt, 0
  {
    match stmt
    case Act(_) => true
    case RevertZero => true
    case RevertWith(_) => true
    case Stop(_) => true
    case Scope(body) => AllWellFormed(body, inLoop, inFunction)
    case If(c, body) => Faithful(c) && AllWellFormed(body, inLoop, inFunction)
    case SwitchOn(e, cases, hasDefault, d) =>
      && Faithful(e)
      && (!hasDefault ==> d == [])
      && AllWellFormed(d, inLoop, inFunction)
      && forall i :: 0 <= i < |cases| ==>
           cases[i].literal < TWO_256 && AllWellFormed(cases[i].body, inLoop, inFunction)
    case For(pre, c, post, body) =>
      && Faithful(c)
      && AllWellFormed(pre, false, inFunction)
      && AllWellFormed(post, false, inFunction)
      && AllWellFormed(body, true, inFunction)
    case Break => inLoop
    case Continue => inLoop
    case Leave => inFunction
  }

  ghost predicate AllWellFormed(ss: seq<YStmt>, inLoop: bool, inFunction: bool)
    decreases ss, 0
  {
    forall i :: 0 <= i < |ss| ==> WellFormed(ss[i], inLoop, inFunction)
  }
}
