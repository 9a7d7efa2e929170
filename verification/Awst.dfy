/** AWST statements and their meaning.

A run acts on a `World` (all variables, memory and storage; nothing is assumed about it)
and on the leave flag of the inlined Yul function being executed. Loops consume fuel, one
unit per iteration, so that the meaning of every statement list is a total function; a
statement list terminates from a state when some amount of fuel is enough. */
module Awst {
  import opened Bytes

  type World(!new)

  /** A step of straight-line code; `None` when the program stops with an error. */
  type Action = World -> Option<World>

  datatype State = State(world: World, leaving: bool)

  datatype Cond =
    | Const(value: bool)
    | Test(holds: World -> bool)
    | LeaveFlag
    | Not(inner: Cond)

  /** A block pointer, which may be null. */
  datatype Block = NoBlock | Block(body: seq<Stmt>)

  datatype Case = Case(pattern: bytes, block: Block)

  datatype Stmt =
    | Do(act: Action)                       // assignments, calls, scratch stores
    | SetLeave(value: bool)                 // assignment to the leave flag
    | Assert(cond: Cond)
    | ProgramExit                           // the AVM `return` intrinsic
    | Return
    | LoopExit
    | LoopContinue
    | Nested(block: Block)
    | IfElse(cond: Cond, thenBlock: Block, elseBlock: Block)
    | While(cond: Cond, body: Block)
    | ForIn(count: World -> nat, bind: (World, nat) -> World, body: Block)
    | Switch(scrutinee: World -> bytes, cases: seq<Case>, defaultBlock: Block)

  datatype Outcome =
    | Normal(s: State)
    | Exited(s: State)      // left through LoopExit
    | Continued(s: State)   // left through LoopContinue
    | Returned(s: State)
    | Halted(s: State)      // the whole program ended
    | Failed                // an assertion or operation stopped the program
    | OutOfFuel

  predicate Holds(c: Cond, s: State) {
    match c
    case Const(v) => v
    case Test(p) => p(s.world)
    case LeaveFlag => s.leaving
    case Not(d) => !Holds(d, s)
  }

  function Exec(n: nat, stmt: Stmt, s: State): Outcome
    decreases n, 1, stmt, 0
  {
    match stmt
    case Do(act) =>
      (match act(s.world)
       case None => Failed
       case Some(w) => Normal(State(w, s.leaving)))
    case SetLeave(v) => Normal(State(s.world, v))
    case Assert(c) => if Holds(c, s) then Normal(s) else Failed
    case ProgramExit => Halted(s)
    case Return => Returned(s)
    case LoopExit => Exited(s)
    case LoopContinue => Continued(s)
    case Nested(b) => ExecBlock(n, b, s)
    case IfElse(c, b1, b2) => if Holds(c, s) then ExecBlock(n, b1, s) else ExecBlock(n, b2, s)
    case While(c, b) => ExecWhile(n, c, b, s)
    case ForIn(count, bind, b) => ExecFor(n, bind, b, s, 0, count(s.world))
    case Switch(f, cases, d) => ExecBlock(n, Pick(f(s.world), cases, d), s)
  }

  function ExecBlock(n: nat, b: Block, s: State): Outcome
    decreases n, 1, b, 1
  {
    if b.NoBlock? then Normal(s) else ExecAll(n, b.body, s)
  }

  function ExecAll(n: nat, ss: seq<Stmt>, s: State): Outcome
    decreases n, 1, ss, 0
  {
    if |ss| == 0 then Normal(s) else
    match Exec(n, ss[0], s)
    case Normal(s1) => ExecAll(n, ss[1..], s1)
    case other => other
  }

  function ExecWhile(n: nat, c: Cond, b: Block, s: State): Outcome
    decreases n, 0
  {
    if n == 0 then OutOfFuel else
    if !Holds(c, s) then Normal(s) else
    match ExecBlock(n - 1, b, s)
    case Normal(s1) => ExecWhile(n - 1, c, b, s1)
    case Continued(s1) => ExecWhile(n - 1, c, b, s1)
    case Exited(s1) => Normal(s1)
    case other => other
  }

  function ExecFor(n: nat, bind: (World, nat) -> World, b: Block, s: State, i: nat, count: nat): Outcome
    decreases n, 0
  {
    if n == 0 then OutOfFuel else
    if i >= count then Normal(s) else
    match ExecBlock(n - 1, b, State(bind(s.world, i), s.leaving))
    case Normal(s1) => ExecFor(n - 1, bind, b, s1, i + 1, count)
    case Continued(s1) => ExecFor(n - 1, bind, b, s1, i + 1, count)
    case Exited(s1) => Normal(s1)
    case other => other
  }

  /** The block of the first case whose pattern equals the scrutinee, else the default. */
  function Pick(v: bytes, cases: seq<Case>, d: Block): (b: Block)
    ensures b == d || exists i :: 0 <= i < |cases| && b == cases[i].block
  {
    if |cases| == 0 then d
    else if v == cases[0].pattern then cases[0].block
    else Pick(v, cases[1..], d)
  }

  /** Running `more` after an outcome. */
  function Then(n: nat, r: Outcome, more: seq<Stmt>): Outcome {
    match r
    case Normal(s) => ExecAll(n, more, s)
    case other => other
  }

  lemma {:induction false} ExecConcat(n: nat, a: seq<Stmt>, b: seq<Stmt>, s: State)
    ensures ExecAll(n, a + b, s) == Then(n, ExecAll(n, a, s), b)
    decreases |a|
  {
    if |a| == 0 {
      assert a + b == b;
    } else {
      assert (a + b)[0] == a[0] && (a + b)[1..] == a[1..] + b;
      match Exec(n, a[0], s)
      case Normal(s1) => ExecConcat(n, a[1..], b, s1);
      case _ =>
    }
  }

  lemma ExecOne(n: nat, stmt: Stmt, s: State)
    ensures ExecAll(n, [stmt], s) == Exec(n, stmt, s)
  {
    assert [stmt][1..] == [];
  }
}
