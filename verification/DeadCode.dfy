/** Removal of statements after a guaranteed terminator. */
module DeadCode {
  import opened Bytes
  import opened Awst

  // ---- the analysis ---------------------------------------------------------------

  /** `statementAlwaysTerminates`: control never falls out of the end of this statement. */
  predicate Terminates(stmt: Stmt)
    decreases stmt, 0
  {
    match stmt
    case Return => true
    case LoopExit => true
    case LoopContinue => true
    case ProgramExit => true
    case Assert(c) => c == Const(false)
    case Nested(b) => BlockTerminates(b)
    case IfElse(_, b1, b2) => BlockTerminates(b1) && BlockTerminates(b2)
    case Switch(_, cases, d) =>
      BlockTerminates(d) && forall i :: 0 <= i < |cases| ==> BlockTerminates(cases[i].block)
    case _ => false
  }

  /** `blockAlwaysTerminates`; a null block falls through. */
  predicate BlockTerminates(b: Block)
    decreases b, 1
  {
    b.Block? && AnyTerminates(b.body)
  }

  predicate AnyTerminates(ss: seq<Stmt>)
    decreases ss, 0
  {
    exists i :: 0 <= i < |ss| && Terminates(ss[i])
  }

  /** SOUNDNESS. A statement judged terminating never ends normally, in any run. */
  lemma {:induction false} TerminatesIsSound(n: nat, stmt: Stmt, s: State)
    requires Terminates(stmt)
    ensures !Exec(n, stmt, s).Normal?
    decreases stmt, 0
  {
    match stmt
    case Nested(b) => BlockNeverFallsThrough(n, b, s);
    case IfElse(c, b1, b2) => BlockNeverFallsThrough(n, if Holds(c, s) then b1 else b2, s);
    case Switch(f, cases, d) => BlockNeverFallsThrough(n, Pick(f(s.world), cases, d), s);
    case _ =>
  }

  lemma {:induction false} BlockNeverFallsThrough(n: nat, b: Block, s: State)
    requires BlockTerminates(b)
    ensures !ExecBlock(n, b, s).Normal?
    decreases b, 1
  {
    AllNeverFallThrough(n, b.body, s);
  }

  lemma {:induction false} AllNeverFallThrough(n: nat, ss: seq<Stmt>, s: State)
    requires AnyTerminates(ss)
    ensures !ExecAll(n, ss, s).Normal?
    decreases ss, 0
  {
    if Terminates(ss[0]) {
      TerminatesIsSound(n, ss[0], s);
    } else {
      match Exec(n, ss[0], s)
      case Normal(s1) =>
        var i :| 0 <= i < |ss| && Terminates(ss[i]);
        assert ss[1..][i - 1] == ss[i];
        AllNeverFallThrough(n, ss[1..], s1);
      case _ =>
    }
  }

  // ---- the transformation ---------------------------------------------------------

  /** What `removeDeadCode` leaves of a statement list. */
  function Pruned(ss: seq<Stmt>): seq<Stmt>
    decreases ss, 0
  {
    if |ss| == 0 then [] else
    var first := PrunedStmt(ss[0]);
    if Terminates(first) then [first] else [first] + Pruned(ss[1..])
  }

  function PrunedBlock(b: Block): Block
    decreases b, 1
  {
    if b.NoBlock? then b else Block(Pruned(b.body))
  }

  /** Every child block pruned, over the containers that `forEachChildBlock` enumerates. */
  function PrunedStmt(stmt: Stmt): Stmt
    decreases stmt, 0
  {
    match stmt
    case Nested(b) => Nested(PrunedBlock(b))
    case IfElse(c, b1, b2) => IfElse(c, PrunedBlock(b1), PrunedBlock(b2))
    case While(c, b) => While(c, PrunedBlock(b))
    case ForIn(f, g, b) => ForIn(f, g, PrunedBlock(b))
    case Switch(f, cases, d) => Switch(f, PrunedCases(cases), PrunedBlock(d))
    case _ => stmt
  }

  function PrunedCases(cases: seq<Case>): (r: seq<Case>)
    ensures |r| == |cases|
    decreases cases, 0
  {
    seq(|cases|, i requires 0 <= i < |cases| => Case(cases[i].pattern, PrunedBlock(cases[i].block)))
  }

  /** The in-place loop: prune the children of statement i, then cut what follows it. */
  method RemoveDeadCode(input: seq<Stmt>) returns (body: seq<Stmt>)
    ensures body == Pruned(input)
    decreases input, 0
  {
    body := input;
    var i := 0;
    while i < |body|
      invariant i <= |body| == |input|
      invariant body[i..] == input[i..]
      invariant Pruned(input) == body[..i] + Pruned(input[i..])
    {
      var stmt := VisitChildren(input[i]);
      assert input[i..][1..] == input[i + 1..];
      body := body[i := stmt];
      if Terminates(body[i]) {
        assert body[..i + 1] == body[..i] + [stmt];
        if i + 1 < |body| {
          body := body[..i + 1];
        }
        return;
      }
      i := i + 1;
    }
  }

  method VisitChildren(stmt: Stmt) returns (r: Stmt)
    ensures r == PrunedStmt(stmt)
    decreases stmt, 0
  {
    match stmt
    case Nested(b) => { var b' := VisitBlock(b); r := Nested(b'); }
    case IfElse(c, b1, b2) => {
      var b1' := VisitBlock(b1);
      var b2' := VisitBlock(b2);
      r := IfElse(c, b1', b2');
    }
    case While(c, b) => { var b' := VisitBlock(b); r := While(c, b'); }
    case ForIn(f, g, b) => { var b' := VisitBlock(b); r := ForIn(f, g, b'); }
    case Switch(f, cases, d) => {
      var cases' := cases;
      for i := 0 to |cases|
        invariant |cases'| == |cases|
        invariant forall j :: 0 <= j < i ==> cases'[j] == PrunedCases(cases)[j]
        invariant forall j :: i <= j < |cases| ==> cases'[j] == cases[j]
      {
        var b := VisitBlock(cases[i].block);
        cases' := cases'[i := Case(cases[i].pattern, b)];
      }
      assert cases' == PrunedCases(cases);
      var d' := VisitBlock(d);
      r := Switch(f, cases', d');
    }
    case _ => r := stmt;
  }

  method VisitBlock(b: Block) returns (r: Block)
    ensures r == PrunedBlock(b)
    decreases b, 1
  {
    if b.NoBlock? { return b; }
    var body := RemoveDeadCode(b.body);
    r := Block(body);
  }

  // ---- what the transformation keeps ------------------------------------------------

  lemma {:induction false} StmtVerdict(stmt: Stmt)
    ensures Terminates(PrunedStmt(stmt)) <==> Terminates(stmt)
    decreases stmt, 0
  {
    match stmt
    case Nested(b) => BlockVerdict(b);
    case IfElse(_, b1, b2) =>
      BlockVerdict(b1);
      BlockVerdict(b2);
    case Switch(_, cases, d) =>
      BlockVerdict(d);
      forall i | 0 <= i < |cases|
        ensures BlockTerminates(PrunedCases(cases)[i].block) <==> BlockTerminates(cases[i].block)
      {
        BlockVerdict(cases[i].block);
      }
    case _ =>
  }

  /** Pruning changes no answer of `blockAlwaysTerminates`. */
  lemma {:induction false} BlockVerdict(b: Block)
    ensures BlockTerminates(PrunedBlock(b)) <==> BlockTerminates(b)
    decreases b, 1
  {
    if b.Block? {
      ListVerdict(b.body);
    }
  }

  lemma {:induction false} ListVerdict(ss: seq<Stmt>)
    ensures AnyTerminates(Pruned(ss)) <==> AnyTerminates(ss)
    decreases ss, 0
  {
    if |ss| > 0 {
      StmtVerdict(ss[0]);
      AnyTerminatesCons(ss[0], ss[1..]);
      assert [ss[0]] + ss[1..] == ss;
      if Terminates(ss[0]) {
        AnyTerminatesCons(PrunedStmt(ss[0]), []);
      } else {
        ListVerdict(ss[1..]);
        AnyTerminatesCons(PrunedStmt(ss[0]), Pruned(ss[1..]));
      }
    }
  }

  lemma AnyTerminatesCons(stmt: Stmt, rest: seq<Stmt>)
    ensures AnyTerminates([stmt] + rest) <==> Terminates(stmt) || AnyTerminates(rest)
  {
    var all := [stmt] + rest;
    if Terminates(stmt) {
      assert Terminates(all[0]);
    }
    if AnyTerminates(rest) {
      var i :| 0 <= i < |rest| && Terminates(rest[i]);
      assert all[i + 1] == rest[i];
    }
  }

  /** MEANING. Pruning changes the outcome of no run: same state, same way of leaving, same
  fuel; so it keeps termination, divergence and failure as well. */
  lemma {:induction false} PrunedExec(n: nat, ss: seq<Stmt>, s: State)
    ensures ExecAll(n, Pruned(ss), s) == ExecAll(n, ss, s)
    decreases n, 1, ss, 0
  {
    if |ss| > 0 {
      var first := PrunedStmt(ss[0]);
      PrunedStmtExec(n, ss[0], s);
      if Terminates(first) {
        TerminatesIsSound(n, first, s);
        ExecOne(n, first, s);
      } else {
        match Exec(n, first, s)
        case Normal(s1) => PrunedExec(n, ss[1..], s1);
        case _ =>
        assert ([first] + Pruned(ss[1..]))[1..] == Pruned(ss[1..]);
      }
    }
  }

  lemma {:induction false} PrunedBlockExec(n: nat, b: Block, s: State)
    ensures ExecBlock(n, PrunedBlock(b), s) == ExecBlock(n, b, s)
    decreases n, 1, b, 1
  {
    if b.Block? {
      PrunedExec(n, b.body, s);
    }
  }

  lemma {:induction false} PrunedStmtExec(n: nat, stmt: Stmt, s: State)
    ensures Exec(n, PrunedStmt(stmt), s) == Exec(n, stmt, s)
    decreases n, 1, stmt, 0
  {
    match stmt
    case Nested(b) => PrunedBlockExec(n, b, s);
    case IfElse(c, b1, b2) =>
      PrunedBlockExec(n, b1, s);
      PrunedBlockExec(n, b2, s);
    case While(c, b) => PrunedWhileExec(n, c, b, s);
    case ForIn(f, g, b) => PrunedForExec(n, g, b, s, 0, f(s.world));
    case Switch(f, cases, d) =>
      PrunedPick(f(s.world), cases, d);
      PrunedBlockExec(n, Pick(f(s.world), cases, d), s);
    case _ =>
  }

  lemma {:induction false} PrunedPick(v: bytes, cases: seq<Case>, d: Block)
    ensures Pick(v, PrunedCases(cases), PrunedBlock(d)) == PrunedBlock(Pick(v, cases, d))
  {
    if |cases| > 0 {
      PrunedPick(v, cases[1..], d);
      assert PrunedCases(cases)[1..] == PrunedCases(cases[1..]);
    }
  }

  lemma {:induction false} PrunedWhileExec(n: nat, c: Cond, b: Block, s: State)
    ensures ExecWhile(n, c, PrunedBlock(b), s) == ExecWhile(n, c, b, s)
    decreases n, 0
  {
    if n > 0 && Holds(c, s) {
      PrunedBlockExec(n - 1, b, s);
      match ExecBlock(n - 1, b, s)
      case Normal(s1) => PrunedWhileExec(n - 1, c, b, s1);
      case Continued(s1) => PrunedWhileExec(n - 1, c, b, s1);
      case _ =>
    }
  }

  lemma {:induction false} PrunedForExec(n: nat, g: (World, nat) -> World, b: Block, s: State, i: nat, count: nat)
    ensures ExecFor(n, g, PrunedBlock(b), s, i, count) == ExecFor(n, g, b, s, i, count)
    decreases n, 0
  {
    if n > 0 && i < count {
      var s0 := State(g(s.world, i), s.leaving);
      PrunedBlockExec(n - 1, b, s0);
      match ExecBlock(n - 1, b, s0)
      case Normal(s1) => PrunedForExec(n - 1, g, b, s1, i + 1, count);
      case Continued(s1) => PrunedForExec(n - 1, g, b, s1, i + 1, count);
      case _ =>
    }
  }

  // ---- what the transformation achieves ---------------------------------------------

  /** At every depth, a terminating statement is the last of its list. */
  predicate Clean(ss: seq<Stmt>)
    decreases ss, 0
  {
    && (forall i :: 0 <= i < |ss| - 1 ==> !Terminates(ss[i]))
    && (forall i :: 0 <= i < |ss| ==> CleanStmt(ss[i]))
  }

  predicate CleanBlock(b: Block)
    decreases b, 1
  {
    b.Block? ==> Clean(b.body)
  }

  predicate CleanStmt(stmt: Stmt)
    decreases stmt, 0
  {
    match stmt
    case Nested(b) => CleanBlock(b)
    case IfElse(_, b1, b2) => CleanBlock(b1) && CleanBlock(b2)
    case While(_, b) => CleanBlock(b)
    case ForIn(_, _, b) => CleanBlock(b)
    case Switch(_, cases, d) =>
      CleanBlock(d) && forall i :: 0 <= i < |cases| ==> CleanBlock(cases[i].block)
    case _ => true
  }

  /** Nothing follows a terminator anywhere in the output. */
  lemma {:induction false} PrunedIsClean(ss: seq<Stmt>)
    ensures Clean(Pruned(ss))
    decreases ss, 0
  {
    if |ss| > 0 {
      PrunedStmtIsClean(ss[0]);
      if !Terminates(PrunedStmt(ss[0])) {
        PrunedIsClean(ss[1..]);
      }
    }
  }

  lemma {:induction false} PrunedBlockIsClean(b: Block)
    ensures CleanBlock(PrunedBlock(b))
    decreases b, 1
  {
    if b.Block? {
      PrunedIsClean(b.body);
    }
  }

  lemma {:induction false} PrunedStmtIsClean(stmt: Stmt)
    ensures CleanStmt(PrunedStmt(stmt))
    decreases stmt, 0
  {
    match stmt
    case Nested(b) => PrunedBlockIsClean(b);
    case IfElse(_, b1, b2) =>
      PrunedBlockIsClean(b1);
      PrunedBlockIsClean(b2);
    case While(_, b) => PrunedBlockIsClean(b);
    case ForIn(_, _, b) => PrunedBlockIsClean(b);
    case Switch(_, cases, d) =>
      PrunedBlockIsClean(d);
      forall i | 0 <= i < |cases|
        ensures CleanBlock(PrunedCases(cases)[i].block)
      {
        PrunedBlockIsClean(cases[i].block);
      }
    case _ =>
  }

  /** Code that is already clean is left alone. */
  lemma {:induction false} CleanIsFixed(ss: seq<Stmt>)
    requires Clean(ss)
    ensures Pruned(ss) == ss
    decreases ss, 0
  {
    if |ss| > 0 {
      CleanStmtIsFixed(ss[0]);
      assert ss == [ss[0]] + ss[1..];
      if !Terminates(ss[0]) {
        CleanIsFixed(ss[1..]);
      }
    }
  }

  lemma {:induction false} CleanBlockIsFixed(b: Block)
    requires CleanBlock(b)
    ensures PrunedBlock(b) == b
    decreases b, 1
  {
    if b.Block? {
      CleanIsFixed(b.body);
    }
  }

  lemma {:induction false} CleanStmtIsFixed(stmt: Stmt)
    requires CleanStmt(stmt)
    ensures PrunedStmt(stmt) == stmt
    decreases stmt, 0
  {
    match stmt
    case Nested(b) => CleanBlockIsFixed(b);
    case IfElse(_, b1, b2) =>
      CleanBlockIsFixed(b1);
      CleanBlockIsFixed(b2);
    case While(_, b) => CleanBlockIsFixed(b);
    case ForIn(_, _, b) => CleanBlockIsFixed(b);
    case Switch(_, cases, d) =>
      CleanBlockIsFixed(d);
      forall i | 0 <= i < |cases|
        ensures PrunedCases(cases)[i] == cases[i]
      {
        CleanBlockIsFixed(cases[i].block);
      }
      assert PrunedCases(cases) == cases;
    case _ =>
  }

  /** Pruning twice is pruning once. */
  lemma PrunedIsIdempotent(ss: seq<Stmt>)
    ensures Pruned(Pruned(ss)) == Pruned(ss)
  {
    PrunedIsClean(ss);
    CleanIsFixed(Pruned(ss));
  }
}
