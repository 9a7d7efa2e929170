/** What the control-flow translation emits, as a function of the Yul program.

`post` is the lowered post block of the innermost enclosing loop: it is repeated in front
of every `continue`. `flagged` says that the inlined function has a leave flag. */
module YulLowering {
  import opened Bytes
  import opened Awst
  import opened Yul

  function Statements(acts: seq<Action>): (ss: seq<Stmt>)
    ensures |ss| == |acts|
  {
    seq(|acts|, i requires 0 <= i < |acts| => Do(acts[i]))
  }

  /** `ensureBool` of the residual. */
  function NonZero(e: Expr): Cond {
    Test(w => Number(e.residual(w)) != 0)
  }

  /** Zero-extend to at least 32 bytes, then take the last 32. */
  function LastWord(b: bytes): (r: bytes)
    ensures |r| == 32
  {
    var wide := if |b| < 32 then Zeros(32 - |b|) + b else b;
    wide[|wide| - 32..]
  }

  /** The scrutinee as the 32 bytes that `match` compares. */
  function WordOf(e: Expr): World -> bytes {
    w => LastWord(e.residual(w))
  }

  predicate IsRevertBody(body: seq<YStmt>) {
    |body| == 1 && body[0].RevertZero?
  }

  function Lower(stmt: YStmt, flagged: bool, post: seq<Stmt>): seq<Stmt>
    decreases stmt, 0
  {
    match stmt
    case Act(act) => [Do(act)]
    case RevertZero => [Assert(Const(false))]
    case RevertWith(payload) => [Do(payload), Assert(Const(false))]
    case Stop(flush) => [Do(flush), ProgramExit]
    case Scope(body) => LowerAll(body, flagged, post)
    case If(c, body) =>
      Statements(c.pending) + [LowerIf(c, body, LowerAll(body, flagged, post))]
    case SwitchOn(e, cases, hasDefault, d) =>
      Statements(e.pending) +
      [Switch(WordOf(e), LowerCases(cases, flagged, post), LowerDefault(hasDefault, d, flagged, post))]
    case For(pre, c, postStmts, body) =>
      var post1 := LowerAll(postStmts, flagged, []);
      var body1 := LowerAll(body, flagged, post1) + post1;
      LowerAll(pre, flagged, post) + [LowerLoop(c, body1)] + Propagate(flagged)
    case Break => [LoopExit]
    case Continue => post + [LoopContinue]
    case Leave => (if flagged then [SetLeave(true)] else []) + [LoopExit]
  }

  function LowerAll(ss: seq<YStmt>, flagged: bool, post: seq<Stmt>): seq<Stmt>
    decreases ss, 0
  {
    if |ss| == 0 then [] else Lower(ss[0], flagged, post) + LowerAll(ss[1..], flagged, post)
  }

  function LowerCases(cases: seq<YCase>, flagged: bool, post: seq<Stmt>): (r: seq<Case>)
    ensures |r| == |cases|
    decreases cases, 0
  {
    seq(|cases|, i requires 0 <= i < |cases| => LowerCase(cases[i], flagged, post))
  }

  /** The label is a 32-byte word. */
  function LowerCase(yulCase: YCase, flagged: bool, post: seq<Stmt>): Case
    decreases yulCase, 0
  {
    Case(BigEndian(32, yulCase.literal), Block(LowerAll(yulCase.body, flagged, post)))
  }

  function LowerDefault(hasDefault: bool, d: seq<YStmt>, flagged: bool, post: seq<Stmt>): Block
    decreases d, 1
  {
    if hasDefault then Block(LowerAll(d, flagged, post)) else NoBlock
  }

  /** `if c { revert(0, 0) }` becomes an assertion. */
  function LowerIf(c: Expr, body: seq<YStmt>, code: seq<Stmt>): Stmt {
    if IsRevertBody(body) then Assert(Not(NonZero(c)))
    else IfElse(NonZero(c), Block(code), NoBlock)
  }

  /** A condition with pending statements runs them before every test. */
  function LowerLoop(c: Expr, body: seq<Stmt>): Stmt {
    if |c.pending| == 0 then While(NonZero(c), Block(body))
    else While(Const(true), Block(Statements(c.pending) + ExitUnless(c) + body))
  }

  function ExitUnless(c: Expr): seq<Stmt> {
    [IfElse(Not(NonZero(c)), Block([LoopExit]), NoBlock)]
  }

  /** After a loop: a `leave` inside it has set the flag and left only that loop. */
  function Propagate(flagged: bool): seq<Stmt> {
    if flagged then [IfElse(LeaveFlag, Block([LoopExit]), NoBlock)] else []
  }

  /** An inlined function body. With a `leave`, it is wrapped in a loop that runs once. */
  function LowerFunction(body: seq<YStmt>, hasLeave: bool): seq<Stmt> {
    if hasLeave
    then [SetLeave(false),
          While(Const(true), Block(LowerAll(UpToLeave(body), true, []) + [LoopExit]))]
    else LowerAll(UpToLeave(body), false, [])
  }

  /** Statements after a top-level `leave` are not translated. */
  function UpToLeave(body: seq<YStmt>): seq<YStmt> {
    if |body| == 0 then []
    else if body[0].Leave? then [body[0]]
    else [body[0]] + UpToLeave(body[1..])
  }
}
