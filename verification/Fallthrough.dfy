/** Which statements control may fall through, said by runs and not by the analysis: a statement may
be fallen through when some run of its shape, with tests, scrutinees, counts and actions chosen
freely, ends normally. The analysis is exact for that, so dead-code removal removes all and only
what no such run reaches. */
module Fallthrough {
  import opened Bytes
  import opened Awst
  import opened DeadCode
  import opened Yul
  import opened YulLowering
  import opened YulBuilder

  // ---- shapes -----------------------------------------------------------------------------

  /** The same statements in the same places; an assertion of the literal `false` stays one. */
  ghost predicate SameShape(a: Stmt, b: Stmt)
    decreases a, 0
  {
    match a
    case Do(_) => b.Do?
    case SetLeave(_) => b.SetLeave?
    case Assert(c) => b.Assert? && (c == Const(false) <==> b.cond == Const(false))
    case ProgramExit => b.ProgramExit?
    case Return => b.Return?
    case LoopExit => b.LoopExit?
    case LoopContinue => b.LoopContinue?
    case Nested(x) => b.Nested? && SameBlock(x, b.block)
    case IfElse(_, x, y) => b.IfElse? && SameBlock(x, b.thenBlock) && SameBlock(y, b.elseBlock)
    case While(_, x) => b.While? && SameBlock(x, b.body)
    case ForIn(_, _, x) => b.ForIn? && SameBlock(x, b.body)
    case Switch(_, cases, d) =>
      && b.Switch? && |b.cases| == |cases| && SameBlock(d, b.defaultBlock)
      && forall i :: 0 <= i < |cases| ==> SameBlock(cases[i].block, b.cases[i].block)
  }

  ghost predicate SameBlock(a: Block, b: Block)
    decreases a, 1
  {
    if a.NoBlock? then b.NoBlock? else b.Block? && SameList(a.body, b.body)
  }

  ghost predicate SameList(ss: seq<Stmt>, ts: seq<Stmt>)
    decreases ss, 0
  {
    |ss| == |ts| && forall i :: 0 <= i < |ss| ==> SameShape(ss[i], ts[i])
  }

  ghost predicate MayFallThrough(stmt: Stmt) {
    exists other, n: nat, s :: SameShape(stmt, other) && Exec(n, other, s).Normal?
  }

  lemma {:induction false} ShapeIsItsOwn(stmt: Stmt)
    ensures SameShape(stmt, stmt)
    decreases stmt, 0
  {
    match stmt
    case Nested(x) => BlockIsItsOwn(x);
    case IfElse(_, x, y) =>
      BlockIsItsOwn(x);
      BlockIsItsOwn(y);
    case While(_, x) => BlockIsItsOwn(x);
    case ForIn(_, _, x) => BlockIsItsOwn(x);
    case Switch(_, cases, d) =>
      BlockIsItsOwn(d);
      forall i | 0 <= i < |cases|
        ensures SameBlock(cases[i].block, cases[i].block)
      {
        BlockIsItsOwn(cases[i].block);
      }
    case _ =>
  }

  lemma {:induction false} BlockIsItsOwn(b: Block)
    ensures SameBlock(b, b)
    decreases b, 1
  {
    if b.Block? {
      forall i | 0 <= i < |b.body|
        ensures SameShape(b.body[i], b.body[i])
      {
        ShapeIsItsOwn(b.body[i]);
      }
    }
  }

  // ---- soundness over shapes ----------------------------------------------------------------

  lemma {:induction false} ShapeVerdict(a: Stmt, b: Stmt)
    requires SameShape(a, b) && Terminates(a)
    ensures Terminates(b)
    decreases a, 0
  {
    match a
    case Nested(x) => ShapeBlockVerdict(x, b.block);
    case IfElse(_, x, y) =>
      ShapeBlockVerdict(x, b.thenBlock);
      ShapeBlockVerdict(y, b.elseBlock);
    case Switch(_, cases, d) =>
      ShapeBlockVerdict(d, b.defaultBlock);
      forall i | 0 <= i < |cases|
        ensures BlockTerminates(b.cases[i].block)
      {
        ShapeBlockVerdict(cases[i].block, b.cases[i].block);
      }
    case _ =>
  }

  lemma {:induction false} ShapeBlockVerdict(a: Block, b: Block)
    requires SameBlock(a, b) && BlockTerminates(a)
    ensures BlockTerminates(b)
    decreases a, 1
  {
    var i :| 0 <= i < |a.body| && Terminates(a.body[i]);
    ShapeVerdict(a.body[i], b.body[i]);
  }

  // ---- completeness: steering a run through ---------------------------------------------------

  /** Choices with which a statement not judged terminating is fallen through. */
  lemma {:induction false} Steer(stmt: Stmt, s: State) returns (other: Stmt)
    requires !Terminates(stmt)
    ensures SameShape(stmt, other) && Exec(1, other, s) == Normal(s)
    decreases stmt, 1
  {
    match stmt
    case Do(_) => other := Do(w => Some(w));
    case SetLeave(_) => other := SetLeave(s.leaving);
    case Assert(_) => other := Assert(Const(true));
    case Nested(x) =>
      var x1 := SteerBlock(x, s);
      other := Nested(x1);
    case IfElse(_, x, y) =>
      BlockIsItsOwn(x);
      BlockIsItsOwn(y);
      if !BlockTerminates(x) {
        var x1 := SteerBlock(x, s);
        other := IfElse(Const(true), x1, y);
      } else {
        var y1 := SteerBlock(y, s);
        other := IfElse(Const(false), x, y1);
      }
    case While(_, x) =>
      BlockIsItsOwn(x);
      other := While(Const(false), x);
    case ForIn(_, bind, x) =>
      BlockIsItsOwn(x);
      other := ForIn(_ => 0, bind, x);
    case Switch(_, _, _) => other := SteerSwitch(stmt, s);
  }

  lemma {:induction false} SteerSwitch(stmt: Stmt, s: State) returns (other: Stmt)
    requires stmt.Switch? && !Terminates(stmt)
    ensures SameShape(stmt, other) && Exec(1, other, s) == Normal(s)
    decreases stmt, 0
  {
    var cases, d := stmt.cases, stmt.defaultBlock;
    BlockIsItsOwn(d);
    forall i | 0 <= i < |cases|
      ensures SameBlock(cases[i].block, cases[i].block)
    {
      BlockIsItsOwn(cases[i].block);
    }
    if !BlockTerminates(d) {
      var d1 := SteerBlock(d, s);
      var quiet := seq(|cases|, i requires 0 <= i < |cases| => Case([0], cases[i].block));
      PickNone(quiet, d1);
      other := Switch(_ => [1], quiet, d1);
    } else {
      var k :| 0 <= k < |cases| && !BlockTerminates(cases[k].block);
      var x := SteerBlock(cases[k].block, s);
      var one := seq(|cases|, i requires 0 <= i < |cases| =>
        if i == k then Case([1], x) else Case([0], cases[i].block));
      PickOne(one, d, k);
      other := Switch(_ => [1], one, d);
    }
  }

  lemma {:induction false} PickNone(cases: seq<Case>, d: Block)
    requires forall i :: 0 <= i < |cases| ==> cases[i].pattern == [0]
    ensures Pick([1], cases, d) == d
  {
    if |cases| > 0 {
      assert cases[0].pattern[0] == 0;
      PickNone(cases[1..], d);
    }
  }

  lemma {:induction false} PickOne(cases: seq<Case>, d: Block, k: nat)
    requires k < |cases| && forall i :: 0 <= i < |cases| ==> cases[i].pattern == if i == k then [1] else [0]
    ensures Pick([1], cases, d) == cases[k].block
  {
    if k > 0 {
      assert cases[0].pattern[0] == 0;
      PickOne(cases[1..], d, k - 1);
    }
  }

  lemma {:induction false} SteerBlock(b: Block, s: State) returns (other: Block)
    requires !BlockTerminates(b)
    ensures SameBlock(b, other) && ExecBlock(1, other, s) == Normal(s)
    decreases b, 1
  {
    if b.NoBlock? {
      return NoBlock;
    }
    var body := SteerAll(b.body, s);
    other := Block(body);
  }

  lemma {:induction false} SteerAll(ss: seq<Stmt>, s: State) returns (others: seq<Stmt>)
    requires !AnyTerminates(ss)
    ensures SameList(ss, others) && ExecAll(1, others, s) == Normal(s)
    decreases ss, 0
  {
    if |ss| == 0 {
      return [];
    }
    assert !Terminates(ss[0]);
    forall i | 0 <= i < |ss[1..]|
      ensures !Terminates(ss[1..][i])
    {
      assert ss[1..][i] == ss[i + 1];
    }
    var first := Steer(ss[0], s);
    var rest := SteerAll(ss[1..], s);
    others := [first] + rest;
    assert others[1..] == rest;
  }

  /** THE ANALYSIS IS EXACT. A statement is judged always-terminating if and only if no run of
  its shape falls through. */
  lemma TerminatesExactly(stmt: Stmt, s: State)
    ensures Terminates(stmt) <==> !MayFallThrough(stmt)
  {
    if Terminates(stmt) {
      if MayFallThrough(stmt) {
        var other, n: nat, s1 :| SameShape(stmt, other) && Exec(n, other, s1).Normal?;
        ShapeVerdict(stmt, other);
        TerminatesIsSound(n, other, s1);
        assert false;
      }
    } else {
      var other := Steer(stmt, s);
      assert SameShape(stmt, other) && Exec(1, other, s).Normal?;
    }
  }

  // ---- what removal leaves --------------------------------------------------------------------

  /** At every depth, each statement but the last of its list may be fallen through. */
  ghost predicate Reachable(ss: seq<Stmt>)
    decreases ss, 0
  {
    && (forall i :: 0 <= i < |ss| - 1 ==> MayFallThrough(ss[i]))
    && (forall i :: 0 <= i < |ss| ==> ReachableInside(ss[i]))
  }

  ghost predicate ReachableBlock(b: Block)
    decreases b, 1
  {
    b.Block? ==> Reachable(b.body)
  }

  ghost predicate ReachableInside(stmt: Stmt)
    decreases stmt, 0
  {
    match stmt
    case Nested(b) => ReachableBlock(b)
    case IfElse(_, b1, b2) => ReachableBlock(b1) && ReachableBlock(b2)
    case While(_, b) => ReachableBlock(b)
    case ForIn(_, _, b) => ReachableBlock(b)
    case Switch(_, cases, d) =>
      ReachableBlock(d) && forall i :: 0 <= i < |cases| ==> ReachableBlock(cases[i].block)
    case _ => true
  }

  lemma {:induction false} CleanIsReachable(ss: seq<Stmt>, s: State)
    requires Clean(ss)
    ensures Reachable(ss)
    decreases ss, 0
  {
    forall i | 0 <= i < |ss|
      ensures (i < |ss| - 1 ==> MayFallThrough(ss[i])) && ReachableInside(ss[i])
    {
      TerminatesExactly(ss[i], s);
      CleanInside(ss[i], s);
    }
  }

  lemma {:induction false} CleanInside(stmt: Stmt, s: State)
    requires CleanStmt(stmt)
    ensures ReachableInside(stmt)
    decreases stmt, 0
  {
    match stmt
    case Nested(b) => CleanBlockIsReachable(b, s);
    case IfElse(_, b1, b2) =>
      CleanBlockIsReachable(b1, s);
      CleanBlockIsReachable(b2, s);
    case While(_, b) => CleanBlockIsReachable(b, s);
    case ForIn(_, _, b) => CleanBlockIsReachable(b, s);
    case Switch(_, cases, d) =>
      CleanBlockIsReachable(d, s);
      forall i | 0 <= i < |cases|
        ensures ReachableBlock(cases[i].block)
      {
        CleanBlockIsReachable(cases[i].block, s);
      }
    case _ =>
  }

  lemma {:induction false} CleanBlockIsReachable(b: Block, s: State)
    requires CleanBlock(b)
    ensures ReachableBlock(b)
    decreases b, 1
  {
    if b.Block? {
      CleanIsReachable(b.body, s);
    }
  }

  /** ALL DEAD CODE IS REMOVED. In the output every statement, at any depth, is reached by some
  run of its list's shape. */
  lemma PrunedIsReachable(ss: seq<Stmt>, s: State)
    ensures Reachable(Pruned(ss))
  {
    PrunedIsClean(ss);
    CleanIsReachable(Pruned(ss), s);
  }

  /** AND NOTHING ELSE. Statement i of a list is kept if and only if every statement before it may
  be fallen through. */
  lemma {:induction false} KeptExactly(ss: seq<Stmt>, i: nat, s: State)
    requires i < |ss|
    ensures i < |Pruned(ss)| <==> forall j :: 0 <= j < i ==> MayFallThrough(ss[j])
    ensures i < |Pruned(ss)| ==> Pruned(ss)[i] == PrunedStmt(ss[i])
  {
    StmtVerdict(ss[0]);
    TerminatesExactly(ss[0], s);
    if i > 0 {
      KeptExactly(ss[1..], i - 1, s);
      if !Terminates(ss[0]) {
        assert Pruned(ss) == [PrunedStmt(ss[0])] + Pruned(ss[1..]);
        assert forall j :: 0 <= j < i - 1 ==> ss[1..][j] == ss[j + 1];
        if forall j :: 0 <= j < i - 1 ==> MayFallThrough(ss[1..][j]) {
          forall j | 0 <= j < i
            ensures MayFallThrough(ss[j])
          {
            assert j > 0 ==> ss[1..][j - 1] == ss[j];
          }
        }
      }
    }
  }

  // ---- behind a latched halt flag ---------------------------------------------------------------

  lemma {:induction false} LatchTerminates(ss: seq<YStmt>, latch: bool, flagged: bool, post: seq<Stmt>)
    requires AnyLatches(ss, latch)
    ensures AnyTerminates(LowerAll(ss, flagged, post))
    decreases ss, 0
  {
    var first, rest := Lower(ss[0], flagged, post), LowerAll(ss[1..], flagged, post);
    if Latches(ss[0], latch) {
      LatchedLowering(ss[0], latch, flagged, post);
      TerminatesAmong(first, rest);
    } else {
      LatchTerminates(ss[1..], latch, flagged, post);
      TerminatesAmong(first, rest);
    }
  }

  lemma {:induction false} LatchedLowering(stmt: YStmt, latch: bool, flagged: bool, post: seq<Stmt>)
    requires Latches(stmt, latch)
    ensures AnyTerminates(Lower(stmt, flagged, post))
    decreases stmt, 0
  {
    match stmt
    case RevertZero => assert Terminates(Lower(stmt, flagged, post)[0]);
    case RevertWith(_) => assert Terminates(Lower(stmt, flagged, post)[1]);
    case Stop(_) => assert Terminates(Lower(stmt, flagged, post)[1]);
    case Scope(body) => LatchTerminates(body, latch, flagged, post);
    case For(pre, c, postStmts, body) =>
      LatchTerminates(pre, latch, flagged, post);
      var post1 := LowerAll(postStmts, flagged, []);
      var loop := LowerLoop(c, LowerAll(body, flagged, post1) + post1);
      TerminatesAmong(LowerAll(pre, flagged, post), [loop]);
      TerminatesAmong(LowerAll(pre, flagged, post) + [loop], Propagate(flagged));
    case Continue => assert Terminates((post + [LoopContinue])[|post|]);
  }

  lemma TerminatesAmong(a: seq<Stmt>, b: seq<Stmt>)
    requires AnyTerminates(a) || AnyTerminates(b)
    ensures AnyTerminates(a + b)
  {
    if AnyTerminates(a) {
      var i :| 0 <= i < |a| && Terminates(a[i]);
      assert Terminates((a + b)[i]);
    } else {
      var i :| 0 <= i < |b| && Terminates(b[i]);
      assert Terminates((a + b)[|a| + i]);
    }
  }

  /** Nothing behind a terminator is kept. */
  lemma {:induction false} CutAfter(a: seq<Stmt>, b: seq<Stmt>)
    requires AnyTerminates(a)
    ensures Pruned(a + b) == Pruned(a)
  {
    assert (a + b)[0] == a[0] && (a + b)[1..] == a[1..] + b;
    StmtVerdict(a[0]);
    if !Terminates(a[0]) {
      var i :| 0 <= i < |a| && Terminates(a[i]);
      assert Terminates(a[1..][i - 1]);
      CutAfter(a[1..], b);
    }
  }

  /** What is emitted behind statements that latch the halt flag is cut. */
  lemma LatchedIsCut(ss: seq<YStmt>, latch: bool, flagged: bool, post: seq<Stmt>, more: seq<Stmt>)
    requires AnyLatches(ss, latch)
    ensures Pruned(LowerAll(ss, flagged, post) + more) == Pruned(LowerAll(ss, flagged, post))
  {
    LatchTerminates(ss, latch, flagged, post);
    CutAfter(LowerAll(ss, flagged, post), more);
  }
}
