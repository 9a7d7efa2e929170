/** Folding with tracked constants preserves every run. */
module TrackerSimulation {
  import opened Bytes
  import opened FlatMemory
  import opened MemTracker
  import opened TrackerSound

  // ---- outcomes ---------------------------------------------------------------------

  predicate Escapes(o: Outcome) { o.Broke? || o.Continues? }

  /** `break` and `continue` do not leave code that is not a loop body. */
  lemma {:induction false} NoEscape(c: Context, n: nat, stmt: Stmt, V: set<string>, W: set<string>, s: State)
    requires WellFormed(c, stmt, V, W, false)
    ensures !Escapes(Exec(c, n, stmt, s))
    decreases n, 1, stmt, 0
  {
    match stmt
    case Clobber(operands, _, _) => NoEscapeAll(c, n, operands, V, W, s);
    case Scope(body) => NoEscapeAll(c, n, body, V, W, s);
    case If(_, body) => NoEscapeAll(c, n, body, V, W, s);
    case Switch(e, cases) =>
      if Eval(c, e, s).Some? {
        var i := Chosen(Eval(c, e, s).value, cases);
        if i < |cases| {
          NoEscapeAll(c, n, cases[i].body, V, W, s);
        }
      }
    case For(pre, e, post, body) =>
      NoEscapeAll(c, n, pre, V, W, s);
      var o := ExecAll(c, n, pre, s);
      if o.Done? {
        NoEscapeLoop(c, n, e, post, body, ScopedAll(pre, V), o.s);
      }
    case Inline(body) =>
      var k := LeaveAt(body);
      assert k < |body| || body[..k] == body;
      NoEscapeAll(c, n, body[..k], V, {}, s);
      StopsAtLeave(c, n, body, s);
    case _ =>
  }

  lemma {:induction false} NoEscapeAll(c: Context, n: nat, ss: seq<Stmt>, V: set<string>, W: set<string>, s: State)
    requires AllWellFormed(c, ss, V, W, false)
    ensures !Escapes(ExecAll(c, n, ss, s))
    decreases n, 1, ss, 0
  {
    if |ss| > 0 {
      NoEscape(c, n, ss[0], V, W, s);
      var o := Exec(c, n, ss[0], s);
      if o.Done? {
        NoEscapeAll(c, n, ss[1..], Scoped(ss[0], V), W, o.s);
      }
    }
  }

  lemma {:induction false} NoEscapeLoop(c: Context, n: nat, e: Expr, post: seq<Stmt>, body: seq<Stmt>,
                                        V: set<string>, s: State)
    requires AllWellFormed(c, post, V, {}, false)
    ensures !Escapes(Loop(c, n, e, post, body, s))
    decreases n, 0
  {
    if n > 0 {
      var o := ExecAll(c, n - 1, body, s);
      if o.Done? || o.Continues? {
        NoEscapeAll(c, n - 1, post, V, {}, o.s);
        var p := ExecAll(c, n - 1, post, o.s);
        if p.Done? {
          NoEscapeLoop(c, n - 1, e, post, body, V, p.s);
        }
      }
    }
  }

  /** A body up to its first top-level `leave` does what the whole body does. */
  lemma {:induction false} StopsAtLeave(c: Context, n: nat, body: seq<Stmt>, s: State)
    ensures var o := ExecAll(c, n, body[..LeaveAt(body)], s);
            ExecAll(c, n, body, s) == if o.Done? && LeaveAt(body) < |body| then Left(o.s) else o
  {
    if |body| > 0 && !body[0].Leave? {
      var k := LeaveAt(body[1..]);
      assert body[..k + 1][1..] == body[1..][..k];
      var o := Exec(c, n, body[0], s);
      if o.Done? {
        StopsAtLeave(c, n, body[1..], o.s);
      }
    }
  }

  lemma {:induction false} ExecConcat(c: Context, n: nat, xs: seq<Stmt>, ys: seq<Stmt>, s: State)
    ensures var o := ExecAll(c, n, xs, s);
            ExecAll(c, n, xs + ys, s) == if o.Done? then ExecAll(c, n, ys, o.s) else o
  {
    if |xs| == 0 {
      assert xs + ys == ys;
    } else {
      assert (xs + ys)[1..] == xs[1..] + ys;
      var o := Exec(c, n, xs[0], s);
      if o.Done? {
        ExecConcat(c, n, xs[1..], ys, o.s);
      }
    }
  }

  lemma ExecOne(c: Context, n: nat, stmt: Stmt, s: State)
    ensures ExecAll(c, n, [stmt], s) == Exec(c, n, stmt, s)
  {
    assert [stmt][1..] == [];
  }

  // ---- the simulation ---------------------------------------------------------------

  /** In the emitted code a `continue` comes after its own copy of the post block. */
  function Image(c: Context, n: nat, o: Outcome, post: seq<Stmt>): Outcome {
    if o.Continues? then
      var p := ExecAll(c, n, post, o.s);
      if p.Done? then Continues(p.s) else p
    else o
  }

  /** Every copy of the post block that `after` makes does what the post block does. */
  ghost predicate AfterRight(c: Context, n: nat, after: Tracker -> Result, post: seq<Stmt>, V: set<string>) {
    forall t, s :: Holds(c, t, s, V) && after(t).clean ==> CopyRight(c, n, after(t), post, s)
  }

  ghost predicate CopyRight(c: Context, n: nat, r: Result, post: seq<Stmt>, s: State) {
    var o := ExecAll(c, n, post, s);
    ExecAll(c, n, r.code, s) == o && LeaveRight(r.leaves, o)
  }

  /** A run that leaves does so at some `leave` all of whose entries are true. */
  ghost predicate LeaveRight(leaves: seq<map<nat, uint64>>, o: Outcome) {
    o.Left? ==> exists i :: 0 <= i < |leaves| && AllTrue(leaves[i], o.s.mem)
  }

  lemma LeaveAmong(xs: seq<map<nat, uint64>>, ys: seq<map<nat, uint64>>, o: Outcome)
    requires LeaveRight(xs, o) || LeaveRight(ys, o)
    ensures LeaveRight(xs + ys, o)
  {
    if o.Left? {
      var all := xs + ys;
      if i :| 0 <= i < |xs| && AllTrue(xs[i], o.s.mem) {
        assert all[i] == xs[i];
      } else {
        var i :| 0 <= i < |ys| && AllTrue(ys[i], o.s.mem);
        assert all[|xs| + i] == ys[i];
      }
    }
  }

  /** What the translation of a statement may assume. */
  ghost predicate Ready(c: Context, n: nat, t: Tracker, s: State, V: set<string>,
                        after: Tracker -> Result, post: seq<Stmt>, P: set<string>, W: set<string>)
  {
    && Holds(c, t, s, V) && P <= V
    && AfterRight(c, n, after, post, P) && AfterKeeps(c, after, W)
  }

  /** The emitted code runs as the source does, and the tracker is right afterwards. */
  ghost predicate Right(c: Context, n: nat, r: Result, o: Outcome, s: State, V1: set<string>, post: seq<Stmt>) {
    && ExecAll(c, n, r.code, s) == Image(c, n, o, post)
    && LeaveRight(r.leaves, Image(c, n, o, post))
    && (o.Done? ==> Holds(c, r.t, o.s, V1))
  }

  lemma HoldsFewer(c: Context, t: Tracker, s: State, V: set<string>, U: set<string>)
    requires Holds(c, t, s, V) && U <= V
    ensures Holds(c, t, s, U)
  {
  }

  lemma NothingReady(c: Context, n: nat, t: Tracker, s: State, V: set<string>)
    requires Holds(c, t, s, V)
    ensures Ready(c, n, t, s, V, Nothing, [], V, {})
  {
  }

  lemma SetRight(c: Context, t: Tracker, s: State, V: set<string>, x: string, v: nat, known: Option<uint64>)
    requires Holds(c, t, s, V) && (x in V ==> x in c.reassigned)
    requires known.Some? ==> known.value == v
    ensures Holds(c, Record(c, t, x, known), s.(env := s.env[x := v]), V + {x})
  {
  }

  /** The tracker may already hold the new name: it is not in scope yet. */
  lemma RecordEarly(c: Context, t: Tracker, s: State, V: set<string>, x: string, known: Option<uint64>)
    requires Holds(c, t, s, V) && (x in V ==> x in c.reassigned)
    ensures Holds(c, Record(c, t, x, known), s, V)
  {
  }

  lemma LetRight(c: Context, n: nat, stmt: Stmt, t: Tracker, s: State, V: set<string>,
                 after: Tracker -> Result, post: seq<Stmt>, P: set<string>, W: set<string>, inLoop: bool)
    requires stmt.Let? || stmt.Bind? || stmt.Copy? || stmt.Assign?
    requires WellFormed(c, stmt, V, W, inLoop) && Ready(c, n, t, s, V, after, post, P, W)
    requires Translate(c, stmt, t, after).clean
    ensures Right(c, n, Translate(c, stmt, t, after), Exec(c, n, stmt, s), s, Scoped(stmt, V), post)
  {
    var r := Translate(c, stmt, t, after);
    ExecOne(c, n, r.code[0], s);
    var x, e := stmt.name, stmt.value;
    assert x in Writes(stmt);
    var known :=
      if stmt.Let? then ResolveYul(c, e, t)
      else if stmt.Bind? then ResolveOffset(Lower(c, e, t), t) else None;
    RecordEarly(c, t, s, V, x, known);
    if stmt.Copy? {
      assert Record(c, t, x, None) == t;
    } else {
      LowerSound(c, e, if stmt.Bind? then t else r.t, s, V);
    }
    if known.Some? {
      if stmt.Let? {
        YulSound(c, e, t, s, V);
      } else {
        OffsetSound(c, Lower(c, e, t), t, s, V);
      }
    }
    var v := Eval(c, e, s);
    if v.Some? {
      SetRight(c, t, s, V, x, v.value, known);
    }
  }

  lemma StoreRight(c: Context, n: nat, stmt: Stmt, t: Tracker, s: State, V: set<string>, after: Tracker -> Result)
    requires stmt.Mstore? && Reads(stmt.off) <= V && Reads(stmt.value) <= V && Holds(c, t, s, V)
    requires Translate(c, stmt, t, after).clean
    ensures var r := Translate(c, stmt, t, after);
            && ExecAll(c, n, r.code, s) == Exec(c, n, stmt, s)
            && (Exec(c, n, stmt, s).Done? ==> Holds(c, r.t, Exec(c, n, stmt, s).s, V))
  {
    var r := Translate(c, stmt, t, after);
    ExecOne(c, n, r.code[0], s);
    var o1, e1 := Lower(c, stmt.off, t), Lower(c, stmt.value, t);
    LowerSound(c, stmt.off, t, s, V);
    LowerSound(c, stmt.value, t, s, V);
    FoldedSound(c, o1, t, s, V);
    var off, v := ResolveOffset(o1, t), ResolveOffset(e1, t);
    if off.Some? {
      OffsetSound(c, o1, t, s, V);
    }
    if v.Some? {
      OffsetSound(c, e1, t, s, V);
    }
    if Exec(c, n, stmt, s).Done? {
      TrackedStore(c, t, s, V, off, v, e1, Eval(c, stmt.off, s).value, Eval(c, stmt.value, s).value);
    }
  }

  lemma TrackedStore(c: Context, t: Tracker, s: State, V: set<string>, off: Option<uint64>, v: Option<uint64>,
                     e: Expr, o: nat, w: nat)
    requires Holds(c, t, s, V) && o + 32 <= |s.mem|
    requires off.Some? ==> off.value == o && ApartFromAll(t, o)
    requires v.Some? ==> v.value == w
    ensures Holds(c, TrackStore(t, off, v, e), s.(mem := Over(s.mem, o, BigEndian(32, w))), V)
  {
    var t1 := TrackStore(t, off, v, e);
    var mem1 := Over(s.mem, o, BigEndian(32, w));
    forall p | p in t1.mem
      ensures WordIs(mem1, p, t1.mem[p])
    {
      if p == o {
        ReadOver(s.mem, o, BigEndian(32, w));
        SmallWord(w, 32);
      } else {
        assert Apart(p, o) && WordIs(s.mem, p, t.mem[p]);
        ReadBeside(s.mem, o, BigEndian(32, w), p, p + 32);
      }
    }
  }

  /** A write that the tracker does not see leaves it right when no tracked word is touched. */
  lemma WriteRight(c: Context, t: Tracker, s: State, V: set<string>, names: set<string>, region: Region,
                   effect: Option<Effect>)
    requires Holds(c, t, s, V) && names !! t.locals.Keys && Untouched(t, region)
    ensures var o := Call(names, region, effect, s); o.Halted? || (o.Done? && Holds(c, t, o.s, V + names))
  {
    var o := Call(names, region, effect, s);
    if o.Done? && region.Range? {
      RangeRight(t, s.mem, region.off, effect.value.data, region.len);
    }
  }

  lemma RangeRight(t: Tracker, mem: bytes, off: nat, data: bytes, len: nat)
    requires AllTrue(t.mem, mem) && Untouched(t, Range(off, len)) && |data| <= len && off + |data| <= |mem|
    ensures AllTrue(t.mem, Over(mem, off, data))
  {
    forall p | p in t.mem
      ensures WordIs(Over(mem, off, data), p, t.mem[p])
    {
      assert WordIs(mem, p, t.mem[p]) && !Meets(p, off, len);
      ReadApart(mem, off, data, p);
    }
  }

  lemma SilentRight(c: Context, n: nat, stmt: Stmt, t: Tracker, s: State, V: set<string>, after: Tracker -> Result)
    requires stmt.Silent? && Holds(c, t, s, V) && Translate(c, stmt, t, after).clean
    ensures var r := Translate(c, stmt, t, after);
            && ExecAll(c, n, r.code, s) == Exec(c, n, stmt, s)
            && (Exec(c, n, stmt, s).Done? ==> Holds(c, r.t, Exec(c, n, stmt, s).s, V + stmt.names))
  {
    ExecOne(c, n, stmt, s);
    WriteRight(c, t, s, V, stmt.names, stmt.region, stmt.call(s));
  }

  lemma ReadApart(mem: bytes, off: nat, data: bytes, o: nat)
    requires off + |data| <= |mem| && o + 32 <= |mem| && !Meets(o, off, |data|)
    ensures Over(mem, off, data)[o..o + 32] == mem[o..o + 32]
  {
    if |data| == 0 {
      assert Over(mem, off, data) == mem;
    } else {
      ReadBeside(mem, off, data, o, o + 32);
    }
  }

  // ---- unrolled copies ----------------------------------------------------------------

  /** The word of memory at b, where there is one. */
  function WordAt(mem: bytes, b: nat): Option<nat> {
    if b + 32 <= |mem| then Some(Number(mem[b..b + 32])) else None
  }

  ghost predicate ReadsWords(c: Context, es: seq<Expr>, s: State, b: nat) {
    forall w :: 0 <= w < |es| ==> Eval(c, es[w], s) == WordAt(s.mem, b + 32 * w)
  }

  /** Reading consecutive words reads the range. */
  lemma {:induction false} WordsRead(c: Context, es: seq<Expr>, s: State, b: nat)
    requires ReadsWords(c, es, s, b)
    ensures EvalAll(c, es, s) == WordsAt(s.mem, b, |es|)
  {
    if |es| > 0 {
      forall w | 0 <= w < |es| - 1
        ensures Eval(c, es[1..][w], s) == WordAt(s.mem, b + 32 + 32 * w)
      {
        assert es[1..][w] == es[w + 1];
      }
      WordsRead(c, es[1..], s, b + 32);
      assert Eval(c, es[0], s) == WordAt(s.mem, b);
    }
  }

  /** The k words of memory from b on, where they are. */
  function WordsAt(mem: bytes, b: nat, k: nat): (r: Option<seq<nat>>)
    ensures r.Some? <==> k == 0 || b + 32 * k <= |mem|
    ensures r.Some? ==> |r.value| == k
    decreases k
  {
    if k == 0 then Some([]) else
    var v :- WordAt(mem, b);
    var rest :- WordsAt(mem, b + 32, k - 1);
    Some([v] + rest)
  }

  lemma {:induction false} WordsAreRange(mem: bytes, b: nat, k: nat)
    requires b + 32 * k <= |mem|
    ensures WordsAt(mem, b, k).Some? && WordBytes(WordsAt(mem, b, k).value) == mem[b..b + 32 * k]
    decreases k
  {
    if k > 0 {
      WordsAreRange(mem, b + 32, k - 1);
      FirstWord(mem, b, k, 32);
      var vals := WordsAt(mem, b, k).value;
      assert vals[1..] == WordsAt(mem, b + 32, k - 1).value;
    }
  }

  lemma FirstWord(mem: bytes, b: nat, k: nat, z: nat)
    requires k > 0 && z == 32 && b + 32 * k <= |mem|
    ensures BigEndian(z, Number(mem[b..b + 32])) == mem[b..b + 32]
    ensures mem[b..b + 32] + mem[b + 32..b + 32 * k] == mem[b..b + 32 * k]
  {
    BigEndianOfNumber(mem[b..b + 32]);
  }

  lemma ReadsWord(c: Context, o: Expr, delta: nat, s: State)
    requires Eval(c, o, s).Some?
    ensures Eval(c, Mload(AtOff(o, delta)), s) == WordAt(s.mem, Eval(c, o, s).value + delta)
  {
    assert Eval(c, AtOff(o, delta), s) == Some(Eval(c, o, s).value + delta);
  }

  lemma LoadReads(c: Context, o: Expr, w: nat, k: nat, t: Tracker, s: State, V: set<string>)
    requires Holds(c, t, s, V) && Reads(o) <= V && LoadWordsFit(c, o, k, t) && Eval(c, o, s).Some? && w < k
    ensures Eval(c, LowerLoad(c, AtOff(o, 32 * w), t), s) == WordAt(s.mem, Eval(c, o, s).value + 32 * w)
  {
    assert Reads(AtOff(o, 32 * w)) == Reads(o);
    LoadSound(c, AtOff(o, 32 * w), t, s, V);
    ReadsWord(c, o, 32 * w, s);
  }

  /** Every unrolled load reads its word. */
  lemma LoadsReadWords(c: Context, o: Expr, k: nat, t: Tracker, s: State, V: set<string>)
    requires Holds(c, t, s, V) && Reads(o) <= V && LoadWordsFit(c, o, k, t) && Eval(c, o, s).Some?
    ensures ReadsWords(c, LoadWords(c, o, k, t), s, Eval(c, o, s).value)
  {
    forall w | 0 <= w < k
      ensures Eval(c, LoadWords(c, o, k, t)[w], s) == WordAt(s.mem, Eval(c, o, s).value + 32 * w)
    {
      LoadReads(c, o, w, k, t, s, V);
    }
  }

  /** Whole words and the start of the next one are the range. */
  lemma TailRead(mem: bytes, b: nat, full: nat, rest: nat, z: nat)
    requires z == 32 && 0 < rest < 32 && b + 32 * full + 32 <= |mem|
    ensures var at := b + 32 * full;
            mem[b..at] + BigEndian(z, Number(mem[at..at + 32]))[..rest] == mem[b..at + rest]
  {
    var at := b + 32 * full;
    BigEndianOfNumber(mem[at..at + 32]);
    assert mem[at..at + 32][..rest] == mem[at..at + rest];
  }

  /** THE UNROLLED COPY IS A MEMMOVE, for any overlap, if no word is taken from calldata. */
  lemma MoveRuns(c: Context, n: nat, stmt: Stmt, t: Tracker, s: State, V: set<string>, after: Tracker -> Result)
    requires stmt.Move? && stmt.rest < 32 && stmt.full + stmt.rest > 0
    requires Reads(stmt.dst) <= V && Reads(stmt.src) <= V && Holds(c, t, s, V)
    requires Translate(c, stmt, t, after).clean
    ensures ExecAll(c, n, Translate(c, stmt, t, after).code, s) == Exec(c, n, stmt, s)
  {
    var d, o := Lower(c, stmt.dst, t), Lower(c, stmt.src, t);
    LowerSound(c, stmt.dst, t, s, V);
    LowerSound(c, stmt.src, t, s, V);
    FoldedSound(c, d, t, s, V);
    LoadsReadFrom(c, o, stmt.full, t, s, V);
    ScatterIsMove(c, n, stmt, Folded(d, t), LoadWords(c, o, stmt.full, t), Mload(AtOff(o, 32 * stmt.full)), s);
  }

  lemma ScatterIsMove(c: Context, n: nat, move: Stmt, d: Expr, es: seq<Expr>, tail: Expr, s: State)
    requires move.Move? && move.rest < 32 && move.full + move.rest > 0 && |es| == move.full
    requires Eval(c, d, s) == Eval(c, move.dst, s) && ReadsFrom(c, es, tail, Eval(c, move.src, s), s)
    ensures ExecAll(c, n, [Scatter(d, es, tail, move.rest, move.temp)], s) == Exec(c, n, move, s)
  {
    ExecOne(c, n, Scatter(d, es, tail, move.rest, move.temp), s);
    GathersSource(c, es, tail, Eval(c, move.src, s), move.rest, s);
  }

  /** The words `es`, and the word behind them, are read from offset src on; without a source
  offset nothing can be read. */
  ghost predicate ReadsFrom(c: Context, es: seq<Expr>, tail: Expr, src: Option<nat>, s: State) {
    && (src.Some? ==> ReadsWords(c, es, s, src.value) && Eval(c, tail, s) == WordAt(s.mem, src.value + 32 * |es|))
    && (src.None? ==> (|es| > 0 ==> Eval(c, es[0], s) == None) && Eval(c, tail, s) == None)
  }

  lemma GathersSource(c: Context, es: seq<Expr>, tail: Expr, src: Option<nat>, rest: nat, s: State)
    requires rest < 32 && |es| + rest > 0 && ReadsFrom(c, es, tail, src, s)
    ensures Gathered(EvalAll(c, es, s), LastWord(c, tail, rest, s), rest) == Source(s.mem, src, |es|, rest)
  {
    if src.Some? {
      WordsRead(c, es, s, src.value);
    }
    GatheredOr(s.mem, src, EvalAll(c, es, s), LastWord(c, tail, rest, s), |es|, rest);
  }

  lemma LoadsReadFrom(c: Context, o: Expr, k: nat, t: Tracker, s: State, V: set<string>)
    requires Reads(o) <= V && Holds(c, t, s, V) && LoadWordsFit(c, o, k, t)
    ensures ReadsFrom(c, LoadWords(c, o, k, t), Mload(AtOff(o, 32 * k)), Eval(c, o, s), s)
  {
    if Eval(c, o, s).Some? {
      LoadsReadWords(c, o, k, t, s, V);
      ReadsWord(c, o, 32 * k, s);
    } else {
      NoWords(c, o, k, t, s, V);
    }
  }

  lemma NoWords(c: Context, o: Expr, k: nat, t: Tracker, s: State, V: set<string>)
    requires Eval(c, o, s).None? && Reads(o) <= V && Holds(c, t, s, V) && LoadWordsFit(c, o, k, t)
    ensures k > 0 ==> Eval(c, LoadWords(c, o, k, t)[0], s) == None
    ensures Eval(c, Mload(AtOff(o, 32 * k)), s) == None
  {
    if k > 0 {
      assert LoadWords(c, o, k, t)[0] == LowerLoad(c, AtOff(o, 32 * 0), t);
      LoadSound(c, o, t, s, V);
    }
  }

  lemma GatheredOr(mem: bytes, src: Option<nat>, words: Option<seq<nat>>, tail: Option<nat>, full: nat, rest: nat)
    requires rest < 32 && full + rest > 0
    requires src.Some? ==> words == WordsAt(mem, src.value, full)
    requires src.Some? ==> tail == if rest == 0 then Some(0) else WordAt(mem, src.value + 32 * full)
    requires src.None? ==> words.None? || tail.None?
    ensures Gathered(words, tail, rest) == Source(mem, src, full, rest)
  {
    if src.Some? {
      GatheredIs(mem, src.value, words, tail, full, rest);
    } else {
      GatheredNone(words, tail, rest);
    }
  }

  lemma GatheredNone(words: Option<seq<nat>>, tail: Option<nat>, rest: nat)
    requires words.None? || tail.None?
    ensures Gathered(words, tail, rest) == None
  {
  }

  lemma GatheredIs(mem: bytes, b: nat, words: Option<seq<nat>>, tail: Option<nat>, full: nat, rest: nat)
    requires rest < 32 && full + rest > 0 && words == WordsAt(mem, b, full)
    requires tail == if rest == 0 then Some(0) else WordAt(mem, b + 32 * full)
    ensures Gathered(words, tail, rest) == Source(mem, Some(b), full, rest)
  {
    if b + Rounded(full, rest) <= |mem| {
      WordsAreRange(mem, b, full);
      if rest == 0 {
        NothingMore(mem[b..b + 32 * full], 32);
      } else {
        TailRead(mem, b, full, rest, 32);
      }
    }
  }

  lemma NothingMore(w: bytes, z: nat)
    ensures w + BigEndian(z, 0)[..0] == w
  {
  }

  lemma {:induction false} WordsOnlyForget(t: Tracker, d: Expr, k: nat, x: string)
    ensures Covers(t.mem, TrackWords(t, d, k, x).mem)
  {
    if k > 0 {
      WordsOnlyForget(t, d, k - 1, x);
    }
  }

  lemma MoveTracked(c: Context, n: nat, stmt: Stmt, t: Tracker, s: State, V: set<string>, after: Tracker -> Result)
    requires stmt.Move? && Reads(stmt.dst) <= V && Holds(c, t, s, V)
    requires Translate(c, stmt, t, after).clean && Exec(c, n, stmt, s).Done?
    ensures Holds(c, Translate(c, stmt, t, after).t, Exec(c, n, stmt, s).s, V + {stmt.temp})
  {
    var d, src := Lower(c, stmt.dst, t), Eval(c, stmt.src, s).value;
    var data := s.mem[src..src + 32 * stmt.full + stmt.rest];
    LowerSound(c, stmt.dst, t, s, V);
    if ResolveOffset(d, t).Some? {
      OffsetSound(c, d, t, s, V);
    }
    MovedRight(c, t, s, V, d, Eval(c, d, s).value, stmt.full, data, stmt.temp);
  }

  lemma MovedRight(c: Context, t: Tracker, s: State, V: set<string>, d: Expr, at: nat, full: nat, data: bytes,
                   x: string)
    requires Holds(c, t, s, V) && x !in t.locals && 32 * full <= |data| && at + |data| <= |s.mem|
    requires ResolveOffset(d, t).Some? ==> ResolveOffset(d, t).value == at
    requires Untouched(TrackWords(t, d, full, x), RegionAt(d, |data|, t))
    ensures Holds(c, TrackWords(t, d, full, x), State(Keep(x, data, full, s.env), Over(s.mem, at, data)), V + {x})
  {
    var t1 := TrackWords(t, d, full, x);
    WordsKeepLocals(t, d, full, x);
    WordsOnlyForget(t, d, full, x);
    assert AllTrue(t1.mem, s.mem);
    if ResolveOffset(d, t).Some? {
      RangeRight(t1, s.mem, at, data, |data|);
    }
  }

  // ---- statements ---------------------------------------------------------------------

  lemma SmallWord(v: nat, z: nat)
    requires v < TWO_64 && z >= 8
    ensures Number(BigEndian(z, v)) == v
  {
    SmallFits(v, z);
    NumberOfBigEndian(z, v);
  }

  lemma {:induction false} StmtRight(c: Context, n: nat, stmt: Stmt, t: Tracker, s: State, V: set<string>,
                                     after: Tracker -> Result, post: seq<Stmt>, P: set<string>, W: set<string>,
                                     inLoop: bool)
    requires WellFormed(c, stmt, V, W, inLoop) && Ready(c, n, t, s, V, after, post, P, W)
    requires Translate(c, stmt, t, after).clean
    ensures Right(c, n, Translate(c, stmt, t, after), Exec(c, n, stmt, s), s, Scoped(stmt, V), post)
    decreases n, 1, stmt, 2
  {
    match stmt
    case Clobber(_, _, _) => ClobberRight(c, n, stmt, t, s, V, after, post, P, W, inLoop);
    case Scope(_) => ScopeRight(c, n, stmt, t, s, V, after, post, P, W, inLoop);
    case If(_, _) => IfRight(c, n, stmt, t, s, V, after, post, P, W, inLoop);
    case Switch(_, _) => SwitchRight(c, n, stmt, t, s, V, after, post, P, W, inLoop);
    case For(_, _, _, _) => ForRight(c, n, stmt, t, s, V, after, post, P, W, inLoop);
    case Inline(_) => InlineRight(c, n, stmt, t, s, V, after, post, W, inLoop);
    case _ => SimpleRight(c, n, stmt, t, s, V, after, post, P, W, inLoop);
  }

  lemma SimpleRight(c: Context, n: nat, stmt: Stmt, t: Tracker, s: State, V: set<string>,
                    after: Tracker -> Result, post: seq<Stmt>, P: set<string>, W: set<string>, inLoop: bool)
    requires Simple(stmt) && WellFormed(c, stmt, V, W, inLoop) && Ready(c, n, t, s, V, after, post, P, W)
    requires Translate(c, stmt, t, after).clean
    ensures Right(c, n, Translate(c, stmt, t, after), Exec(c, n, stmt, s), s, Scoped(stmt, V), post)
  {
    match stmt
    case Let(_, _) => LetRight(c, n, stmt, t, s, V, after, post, P, W, inLoop);
    case Bind(_, _) => LetRight(c, n, stmt, t, s, V, after, post, P, W, inLoop);
    case Copy(_, _) => LetRight(c, n, stmt, t, s, V, after, post, P, W, inLoop);
    case Assign(_, _) => LetRight(c, n, stmt, t, s, V, after, post, P, W, inLoop);
    case Mstore(_, _) => StoreRight(c, n, stmt, t, s, V, after);
    case Silent(_, _, _) => SilentRight(c, n, stmt, t, s, V, after);
    case Move(_, _, _, _, _) =>
      MoveRuns(c, n, stmt, t, s, V, after);
      if Exec(c, n, stmt, s).Done? {
        MoveTracked(c, n, stmt, t, s, V, after);
      }
    case Continue =>
      HoldsFewer(c, t, s, V, P);
      ExecConcat(c, n, after(t).code, [Continue], s);
      ExecContinue(c, n);
    case Leave =>
      ExecOne(c, n, stmt, s);
      assert Translate(c, stmt, t, after).leaves[0] == t.mem;
    case Revert => ExecOne(c, n, stmt, s);
    case Break => ExecOne(c, n, stmt, s);
    case Scatter(_, _, _, _, _) => assert false;
  }

  lemma {:induction false} ScopeRight(c: Context, n: nat, stmt: Stmt, t: Tracker, s: State, V: set<string>,
                                      after: Tracker -> Result, post: seq<Stmt>, P: set<string>, W: set<string>,
                                      inLoop: bool)
    requires stmt.Scope? && WellFormed(c, stmt, V, W, inLoop) && Ready(c, n, t, s, V, after, post, P, W)
    requires Translate(c, stmt, t, after).clean
    ensures Right(c, n, Translate(c, stmt, t, after), Exec(c, n, stmt, s), s, V, post)
    decreases n, 1, stmt, 0
  {
    AllRight(c, n, stmt.body, t, s, V, after, post, P, W, inLoop);
    ExecOne(c, n, Scope(TranslateAll(c, stmt.body, t, after).code), s);
    if Exec(c, n, stmt, s).Done? {
      HoldsFewer(c, TranslateAll(c, stmt.body, t, after).t, Exec(c, n, stmt, s).s, ScopedAll(stmt.body, V), V);
    }
  }

  lemma {:induction false} ClobberRight(c: Context, n: nat, stmt: Stmt, t: Tracker, s: State, V: set<string>,
                                        after: Tracker -> Result, post: seq<Stmt>, P: set<string>, W: set<string>,
                                        inLoop: bool)
    requires stmt.Clobber? && WellFormed(c, stmt, V, W, inLoop) && Ready(c, n, t, s, V, after, post, P, W)
    requires Translate(c, stmt, t, after).clean
    ensures Right(c, n, Translate(c, stmt, t, after), Exec(c, n, stmt, s), s, Scoped(stmt, V), post)
    decreases n, 1, stmt, 0
  {
    var b := TranslateAll(c, stmt.operands, Forget(t), after);
    ExecOne(c, n, Clobber(b.code, stmt.region, stmt.call), s);
    AllRight(c, n, stmt.operands, Forget(t), s, V, after, post, P, W, false);
    NoEscapeAll(c, n, stmt.operands, V, W, s);
    var o := ExecAll(c, n, stmt.operands, s);
    if o.Done? {
      WriteRight(c, b.t, o.s, ScopedAll(stmt.operands, V), {}, stmt.region, stmt.call(o.s));
      assert ScopedAll(stmt.operands, V) + {} == ScopedAll(stmt.operands, V);
    }
  }

  lemma ExecContinue(c: Context, n: nat)
    ensures forall s :: ExecAll(c, n, [Continue], s) == Continues(s)
  {
    forall s
      ensures ExecAll(c, n, [Continue], s) == Continues(s)
    {
      ExecOne(c, n, Continue, s);
    }
  }

  lemma {:induction false} AllRight(c: Context, n: nat, ss: seq<Stmt>, t: Tracker, s: State, V: set<string>,
                                    after: Tracker -> Result, post: seq<Stmt>, P: set<string>, W: set<string>,
                                    inLoop: bool)
    requires AllWellFormed(c, ss, V, W, inLoop) && Ready(c, n, t, s, V, after, post, P, W)
    requires TranslateAll(c, ss, t, after).clean
    ensures Right(c, n, TranslateAll(c, ss, t, after), ExecAll(c, n, ss, s), s, ScopedAll(ss, V), post)
    decreases n, 1, ss, 0
  {
    if |ss| > 0 {
      StmtRight(c, n, ss[0], t, s, V, after, post, P, W, inLoop);
      var first := Translate(c, ss[0], t, after);
      var rest := TranslateAll(c, ss[1..], first.t, after);
      ExecConcat(c, n, first.code, rest.code, s);
      var o := Exec(c, n, ss[0], s);
      if o.Done? {
        AllRight(c, n, ss[1..], first.t, o.s, Scoped(ss[0], V), after, post, P, W, inLoop);
      }
      LeaveAmong(first.leaves, rest.leaves, Image(c, n, ExecAll(c, n, ss, s), post));
    }
  }

  /** After a container that forgets memory, only names matter, and those are kept. */
  lemma ForgetRight(c: Context, n: nat, stmt: Stmt, t: Tracker, s: State, V: set<string>,
                    after: Tracker -> Result, W: set<string>, inLoop: bool)
    requires stmt.If? || stmt.Switch? || stmt.For?
    requires WellFormed(c, stmt, V, W, inLoop) && Holds(c, t, s, V) && AfterKeeps(c, after, W)
    requires Translate(c, stmt, t, after).t.mem == map[]
    ensures Exec(c, n, stmt, s).Done? ==>
              Holds(c, Translate(c, stmt, t, after).t, Exec(c, n, stmt, s).s, V)
  {
    var o := Exec(c, n, stmt, s);
    if o.Done? {
      ExecKeeps(c, n, stmt, s);
      TranslateKeeps(c, stmt, t, after, W);
      HoldsAfter(c, t, s, V, Translate(c, stmt, t, after).t, o.s, Writes(stmt) + W);
    }
  }

  lemma {:induction false} IfRight(c: Context, n: nat, stmt: Stmt, t: Tracker, s: State, V: set<string>,
                                   after: Tracker -> Result, post: seq<Stmt>, P: set<string>, W: set<string>,
                                   inLoop: bool)
    requires stmt.If? && WellFormed(c, stmt, V, W, inLoop) && Ready(c, n, t, s, V, after, post, P, W)
    requires Translate(c, stmt, t, after).clean
    ensures Right(c, n, Translate(c, stmt, t, after), Exec(c, n, stmt, s), s, V, post)
    decreases n, 1, stmt, 0
  {
    var r := Translate(c, stmt, t, after);
    var e, body := stmt.cond, stmt.body;
    ExecOne(c, n, r.code[0], s);
    LowerSound(c, e, t, s, V);
    if |body| == 1 && body[0].Revert? {
      ExecOne(c, n, body[0], s);
      assert body == [body[0]];
    } else {
      AllRight(c, n, body, t, s, V, after, post, P, W, inLoop);
      ForgetRight(c, n, stmt, t, s, V, after, W, inLoop);
    }
  }

  /** Case i was translated with some tracker that remembers no memory and is right. */
  lemma {:induction false} CaseRight(c: Context, n: nat, cases: seq<Case>, i: nat, t: Tracker, s: State, V: set<string>,
                                     after: Tracker -> Result, post: seq<Stmt>, P: set<string>, W: set<string>,
                                     inLoop: bool)
    requires i < |cases| && Ready(c, n, t, s, V, after, post, P, W)
    requires (WritesCases(cases) + W) * V <= c.reassigned
    requires forall j :: 0 <= j < |cases| ==> AllWellFormed(c, cases[j].body, V, W, inLoop)
    requires TranslateCases(c, cases, t, after).clean
    ensures var r := TranslateCases(c, cases, t, after);
            var o := Image(c, n, ExecAll(c, n, cases[i].body, s), post);
            ExecAll(c, n, r.code[i].body, s) == o && LeaveRight(r.leaves, o)
    decreases n, 1, cases, 0
  {
    var first := TranslateAll(c, cases[0].body, Forget(t), after);
    if i == 0 {
      AllRight(c, n, cases[0].body, Forget(t), s, V, after, post, P, W, inLoop);
    } else {
      TranslateAllKeeps(c, cases[0].body, Forget(t), after, W);
      HoldsAfter(c, t, s, V, Forget(first.t), s, WritesAll(cases[0].body) + W);
      TranslateCasesForget(c, cases[1..], first.t, after);
      CaseRight(c, n, cases[1..], i - 1, Forget(first.t), s, V, after, post, P, W, inLoop);
    }
    LeaveAmong(first.leaves, TranslateCases(c, cases[1..], first.t, after).leaves,
               Image(c, n, ExecAll(c, n, cases[i].body, s), post));
  }

  lemma TranslateCasesForget(c: Context, cases: seq<Case>, t: Tracker, after: Tracker -> Result)
    ensures var r, r1 := TranslateCases(c, cases, t, after), TranslateCases(c, cases, Forget(t), after);
            r.code == r1.code && r.clean == r1.clean && r.leaves == r1.leaves
  {
  }

  lemma {:induction false} SameLiterals(c: Context, cases: seq<Case>, t: Tracker, after: Tracker -> Result, i: nat)
    requires i < |cases|
    ensures TranslateCases(c, cases, t, after).code[i].literal == cases[i].literal
  {
    if i > 0 {
      SameLiterals(c, cases[1..], TranslateAll(c, cases[0].body, Forget(t), after).t, after, i - 1);
    }
  }

  lemma {:induction false} SameFirst(xs: seq<Case>, ys: seq<Case>, literal: Option<nat>, from: nat)
    requires |xs| == |ys| && from <= |xs|
    requires forall i :: 0 <= i < |xs| ==> xs[i].literal == ys[i].literal
    ensures First(xs, literal, from) == First(ys, literal, from)
    decreases |xs| - from
  {
    if from < |xs| {
      SameFirst(xs, ys, literal, from + 1);
    }
  }

  lemma SameChoice(c: Context, cases: seq<Case>, t: Tracker, after: Tracker -> Result, v: nat)
    ensures Chosen(v, TranslateCases(c, cases, t, after).code) == Chosen(v, cases)
  {
    var cs := TranslateCases(c, cases, t, after).code;
    forall i | 0 <= i < |cases|
      ensures cs[i].literal == cases[i].literal
    {
      SameLiterals(c, cases, t, after, i);
    }
    SameFirst(cs, cases, Some(v), 0);
    SameFirst(cs, cases, None, 0);
  }

  lemma {:induction false} SwitchRight(c: Context, n: nat, stmt: Stmt, t: Tracker, s: State, V: set<string>,
                                       after: Tracker -> Result, post: seq<Stmt>, P: set<string>,
                                       W: set<string>, inLoop: bool)
    requires stmt.Switch? && WellFormed(c, stmt, V, W, inLoop) && Ready(c, n, t, s, V, after, post, P, W)
    requires Translate(c, stmt, t, after).clean
    ensures Right(c, n, Translate(c, stmt, t, after), Exec(c, n, stmt, s), s, V, post)
    decreases n, 1, stmt, 0
  {
    var r := Translate(c, stmt, t, after);
    ExecOne(c, n, r.code[0], s);
    LowerSound(c, stmt.cond, t, s, V);
    var v := Eval(c, stmt.cond, s);
    if v.Some? {
      var i := Chosen(v.value, stmt.cases);
      SameChoice(c, stmt.cases, t, after, v.value);
      if i < |stmt.cases| {
        CaseRight(c, n, stmt.cases, i, t, s, V, after, post, P, W, inLoop);
      }
    }
    ForgetRight(c, n, stmt, t, s, V, after, W, inLoop);
  }

  lemma {:induction false} InlineRight(c: Context, n: nat, stmt: Stmt, t: Tracker, s: State, V: set<string>,
                                       after: Tracker -> Result, post: seq<Stmt>, W: set<string>, inLoop: bool)
    requires stmt.Inline? && WellFormed(c, stmt, V, W, inLoop) && Holds(c, t, s, V)
    requires Translate(c, stmt, t, after).clean
    ensures Right(c, n, Translate(c, stmt, t, after), Exec(c, n, stmt, s), s, V, post)
    decreases n, 1, stmt, 1
  {
    var b := BodyOf(c, stmt, t);
    InlineRuns(c, n, stmt, t, s, V, after, W, inLoop);
    var o := ExecAll(c, n, Prefix(stmt), s);
    if o.Left? {
      var i :| 0 <= i < |b.leaves| && AllTrue(b.leaves[i], o.s.mem);
      assert Covers(b.leaves[i], b.t.mem);
    }
  }

  /** The translated part of an inlined body, and its translation. */
  function Prefix(stmt: Stmt): seq<Stmt>
    requires stmt.Inline?
  {
    stmt.body[..LeaveAt(stmt.body)]
  }

  function BodyOf(c: Context, stmt: Stmt, t: Tracker): Result
    requires stmt.Inline?
  {
    TranslateAll(c, Prefix(stmt), t, Nothing)
  }

  /** Whatever the tracker believes, the emitted call runs as the call does. Afterwards the
  constants of locals are right, and so is the tracker if the body ended normally; after a
  `leave` it is right if and only if its entries are true there. */
  lemma {:induction false} InlineRuns(c: Context, n: nat, stmt: Stmt, t: Tracker, s: State, V: set<string>,
                                      after: Tracker -> Result, W: set<string>, inLoop: bool)
    requires stmt.Inline? && WellFormed(c, stmt, V, W, inLoop) && Holds(c, t, s, V)
    requires BodyOf(c, stmt, t).clean
    ensures var r, b := Translate(c, stmt, t, after), BodyOf(c, stmt, t);
            var o := ExecAll(c, n, Prefix(stmt), s);
            && ExecAll(c, n, r.code, s) == Exec(c, n, stmt, s) == (if o.Left? then Done(o.s) else o)
            && LeaveRight(b.leaves, o) && !Escapes(o)
            && (o.Done? ==> Holds(c, r.t, o.s, V))
            && (o.Left? ==> (Holds(c, r.t, o.s, V) <==> AllTrue(b.t.mem, o.s.mem)))
    decreases n, 1, stmt, 0
  {
    var body := stmt.body;
    var k := LeaveAt(body);
    assert k < |body| || body[..k] == body;
    var b := BodyOf(c, stmt, t);
    ExecOne(c, n, Inline(b.code), s);
    NothingReady(c, n, t, s, V);
    AllRight(c, n, body[..k], t, s, V, Nothing, [], V, {}, false);
    NoEscapeAll(c, n, body[..k], V, {}, s);
    StopsAtLeave(c, n, body, s);
    if ExecAll(c, n, body[..k], s).Left? {
      LeftRight(c, n, body[..k], t, s, V);
    }
  }

  /** Where a run leaves, only the memory entries may be wrong. */
  lemma LeftRight(c: Context, n: nat, ss: seq<Stmt>, t: Tracker, s: State, V: set<string>)
    requires Holds(c, t, s, V) && WritesAll(ss) * V <= c.reassigned && ExecAll(c, n, ss, s).Left?
    ensures var t1, s1 := TranslateAll(c, ss, t, Nothing).t, ExecAll(c, n, ss, s).s;
            Holds(c, t1, s1, V) <==> AllTrue(t1.mem, s1.mem)
  {
    AllKeep(c, n, ss, s);
    TranslateAllKeeps(c, ss, t, Nothing, {});
    HoldsAfter(c, t, s, V, Forget(TranslateAll(c, ss, t, Nothing).t), ExecAll(c, n, ss, s).s, WritesAll(ss));
  }

  lemma {:induction false} ForRight(c: Context, n: nat, stmt: Stmt, t: Tracker, s: State, V: set<string>,
                                    after: Tracker -> Result, post: seq<Stmt>, P: set<string>, W: set<string>,
                                    inLoop: bool)
    requires stmt.For? && WellFormed(c, stmt, V, W, inLoop) && Ready(c, n, t, s, V, after, post, P, W)
    requires Translate(c, stmt, t, after).clean
    ensures Right(c, n, Translate(c, stmt, t, after), Exec(c, n, stmt, s), s, V, post)
    decreases n, 1, stmt, 0
  {
    var r := Translate(c, stmt, t, after);
    ExecOne(c, n, r.code[0], s);
    var p := TranslateAll(c, stmt.pre, t, after);
    AllRight(c, n, stmt.pre, t, s, V, after, post, P, W, false);
    NoEscapeAll(c, n, stmt.pre, V, W, s);
    var o := ExecAll(c, n, stmt.pre, s);
    if o.Done? {
      LoopRight(c, n, stmt.cond, stmt.post, stmt.body, Forget(p.t), ScopedAll(stmt.pre, V), o.s);
      NoEscapeLoop(c, n, stmt.cond, stmt.post, stmt.body, ScopedAll(stmt.pre, V), o.s);
    }
    var leaves := LoopLeaves(c, stmt.post, stmt.body, Forget(p.t));
    LeaveAmong(p.leaves, leaves, Exec(c, n, stmt, s));
    assert r.leaves == p.leaves + leaves;
    ForgetRight(c, n, stmt, t, s, V, after, W, inLoop);
  }

  /** One translation of a loop serves every iteration: it was made knowing nothing about
  memory and only names that the loop does not write. */
  lemma {:induction false} LoopRight(c: Context, n: nat, e: Expr, post: seq<Stmt>, body: seq<Stmt>, t: Tracker,
                                     V: set<string>, s: State)
    requires Holds(c, t, s, V) && t.mem == map[] && Reads(e) <= V && LowerFits(c, e, t)
    requires AllWellFormed(c, post, V, {}, false) && AllWellFormed(c, body, V, WritesAll(post), true)
    requires LoopClean(c, post, body, t)
    ensures Loop(c, n, Lower(c, e, t), [], LoopCode(c, post, body, t), s) == Loop(c, n, e, post, body, s)
    ensures LeaveRight(LoopLeaves(c, post, body, t), Loop(c, n, e, post, body, s))
    decreases n, 0, 1
  {
    if n > 0 {
      LowerSound(c, e, t, s, V);
      var v := Eval(c, e, s);
      if v.Some? && v.value != 0 {
        TurnRight(c, n, e, post, body, t, V, s);
        var o := Iteration(c, n - 1, post, body, s);
        if o.Done? {
          LoopRight(c, n - 1, e, post, body, t, V, o.s);
        }
      }
    }
  }

  /** One turn: if the rest of the two loops agree, the loops do, and the rest can be done. */
  lemma {:induction false} TurnRight(c: Context, n: nat, e: Expr, post: seq<Stmt>, body: seq<Stmt>, t: Tracker,
                                     V: set<string>, s: State)
    requires n > 0 && Eval(c, Lower(c, e, t), s) == Eval(c, e, s)
    requires Eval(c, e, s).Some? && Eval(c, e, s).value != 0
    requires Holds(c, t, s, V) && t.mem == map[] && LoopClean(c, post, body, t)
    requires AllWellFormed(c, post, V, {}, false) && AllWellFormed(c, body, V, WritesAll(post), true)
    ensures var i := Iteration(c, n - 1, post, body, s);
            var e1, code, leaves := Lower(c, e, t), LoopCode(c, post, body, t), LoopLeaves(c, post, body, t);
            var o := Loop(c, n, e, post, body, s);
            && (i.Done? ==> Holds(c, t, i.s, V) && o == Loop(c, n - 1, e, post, body, i.s))
            && (!i.Done? ==> LeaveRight(leaves, o))
            && ((i.Done? ==> Loop(c, n - 1, e1, [], code, i.s) == Loop(c, n - 1, e, post, body, i.s)) ==>
                Loop(c, n, e1, [], code, s) == o)
    decreases n, 0, 0
  {
    IterationRight(c, n - 1, post, body, t, V, s);
    LoopTurn(c, n, e, Lower(c, e, t), post, body, LoopCode(c, post, body, t), s);
    LoopUnfolds(c, n, e, post, body, s);
    if Iteration(c, n - 1, post, body, s).Done? {
      IterationKeeps(c, n - 1, post, body, t, V, s);
    }
  }

  function LoopCode(c: Context, post: seq<Stmt>, body: seq<Stmt>, t: Tracker): seq<Stmt> {
    var b := TranslateAll(c, body, t, t' => TranslateAll(c, post, t', Nothing));
    b.code + TranslateAll(c, post, b.t, Nothing).code
  }

  function LoopLeaves(c: Context, post: seq<Stmt>, body: seq<Stmt>, t: Tracker): seq<map<nat, uint64>> {
    var b := TranslateAll(c, body, t, t' => TranslateAll(c, post, t', Nothing));
    b.leaves + TranslateAll(c, post, b.t, Nothing).leaves
  }

  predicate LoopClean(c: Context, post: seq<Stmt>, body: seq<Stmt>, t: Tracker) {
    var b := TranslateAll(c, body, t, t' => TranslateAll(c, post, t', Nothing));
    b.clean && TranslateAll(c, post, b.t, Nothing).clean
  }

  /** The body and then, unless the loop is left, the post block. */
  function Iteration(c: Context, n: nat, post: seq<Stmt>, body: seq<Stmt>, s: State): Outcome {
    var o := ExecAll(c, n, body, s);
    if o.Done? || o.Continues? then ExecAll(c, n, post, o.s) else o
  }

  lemma LoopUnfolds(c: Context, n: nat, e: Expr, post: seq<Stmt>, body: seq<Stmt>, s: State)
    requires n > 0 && Eval(c, e, s).Some? && Eval(c, e, s).value != 0
    ensures var b := ExecAll(c, n - 1, body, s);
            var i := Iteration(c, n - 1, post, body, s);
            Loop(c, n, e, post, body, s) ==
              if b.Broke? then Done(b.s) else if i.Done? then Loop(c, n - 1, e, post, body, i.s) else i
  {
  }

  lemma LoopUnfoldsBare(c: Context, n: nat, e: Expr, body: seq<Stmt>, s: State)
    requires n > 0 && Eval(c, e, s).Some? && Eval(c, e, s).value != 0
    ensures var b := ExecAll(c, n - 1, body, s);
            Loop(c, n, e, [], body, s) ==
              if b.Broke? then Done(b.s)
              else if b.Done? || b.Continues? then Loop(c, n - 1, e, [], body, b.s) else b
  {
    var b := ExecAll(c, n - 1, body, s);
    if b.Done? || b.Continues? {
      assert ExecAll(c, n - 1, [], b.s) == Done(b.s);
    }
  }

  /** o, of the emitted body, and i, of body and post, lead to the same next turn. */
  predicate SameIteration(o: Outcome, i: Outcome) {
    && (i.Done? ==> o == Done(i.s) || o == Continues(i.s))
    && (!i.Done? ==> o == i)
    && !i.Continues?
  }

  /** If the rest of the two loops agree, the loops agree. */
  lemma LoopTurn(c: Context, n: nat, e: Expr, e1: Expr, post: seq<Stmt>, body: seq<Stmt>, code: seq<Stmt>, s: State)
    requires n > 0 && Eval(c, e, s).Some? && Eval(c, e, s).value != 0 && Eval(c, e1, s) == Eval(c, e, s)
    requires SameIteration(ExecAll(c, n - 1, code, s), Iteration(c, n - 1, post, body, s))
    requires Iteration(c, n - 1, post, body, s).Broke? ==> ExecAll(c, n - 1, body, s).Broke?
    ensures var i := Iteration(c, n - 1, post, body, s);
            (i.Done? ==> Loop(c, n - 1, e1, [], code, i.s) == Loop(c, n - 1, e, post, body, i.s)) ==>
            Loop(c, n, e1, [], code, s) == Loop(c, n, e, post, body, s)
  {
    LoopUnfolds(c, n, e, post, body, s);
    LoopUnfoldsBare(c, n, e1, code, s);
  }

  lemma {:induction false} AfterIsRight(c: Context, n: nat, post: seq<Stmt>, V: set<string>)
    requires AllWellFormed(c, post, V, {}, false)
    ensures AfterRight(c, n, t' => TranslateAll(c, post, t', Nothing), post, V)
    decreases n, 2, 0
  {
    forall t: Tracker, s: State | Holds(c, t, s, V) && TranslateAll(c, post, t, Nothing).clean
      ensures CopyRight(c, n, TranslateAll(c, post, t, Nothing), post, s)
    {
      NothingReady(c, n, t, s, V);
      AllRight(c, n, post, t, s, V, Nothing, [], V, {}, false);
      NoEscapeAll(c, n, post, V, {}, s);
    }
  }

  lemma {:induction false} IterationRight(c: Context, n: nat, post: seq<Stmt>, body: seq<Stmt>, t: Tracker,
                                          V: set<string>, s: State)
    requires Holds(c, t, s, V) && LoopClean(c, post, body, t)
    requires AllWellFormed(c, post, V, {}, false) && AllWellFormed(c, body, V, WritesAll(post), true)
    ensures var o := ExecAll(c, n, LoopCode(c, post, body, t), s);
            var i := Iteration(c, n, post, body, s);
            && SameIteration(o, i) && (i.Broke? ==> ExecAll(c, n, body, s).Broke?)
            && LeaveRight(LoopLeaves(c, post, body, t), i)
    decreases n, 3, 0
  {
    var again := (t': Tracker) => TranslateAll(c, post, t', Nothing);
    AfterIsRight(c, n, post, V);
    PostKeeps(c, post);
    AllRight(c, n, body, t, s, V, again, post, V, WritesAll(post), true);
    var b := TranslateAll(c, body, t, again);
    var q := TranslateAll(c, post, b.t, Nothing);
    ExecConcat(c, n, b.code, q.code, s);
    var o := ExecAll(c, n, body, s);
    if o.Done? {
      HoldsFewer(c, b.t, o.s, ScopedAll(body, V), V);
      NothingReady(c, n, b.t, o.s, V);
      AllRight(c, n, post, b.t, o.s, V, Nothing, [], V, {}, false);
    }
    if o.Done? || o.Continues? {
      NoEscapeAll(c, n, post, V, {}, o.s);
    }
    LeaveAmong(b.leaves, q.leaves, Iteration(c, n, post, body, s));
  }

  lemma IterationKeeps(c: Context, n: nat, post: seq<Stmt>, body: seq<Stmt>, t: Tracker, V: set<string>, s: State)
    requires Holds(c, t, s, V) && t.mem == map[]
    requires (WritesAll(body) + WritesAll(post)) * V <= c.reassigned
    requires Iteration(c, n, post, body, s).Done?
    ensures Holds(c, t, Iteration(c, n, post, body, s).s, V)
  {
    AllKeep(c, n, body, s);
    var o := ExecAll(c, n, body, s);
    if o.Done? || o.Continues? {
      AllKeep(c, n, post, o.s);
      KeepsTrans(s, o.s, ExecAll(c, n, post, o.s), WritesAll(body), WritesAll(post), WritesAll(body) + WritesAll(post));
    }
    HoldsAfter(c, t, s, V, t, Iteration(c, n, post, body, s).s, WritesAll(body) + WritesAll(post));
  }

  // ---- main results -----------------------------------------------------------------

  /** FOLDING PRESERVES RUNS. A block translated from an empty tracker runs exactly as the
  original from every state and for every number of loop steps, and when it ends normally
  every word the tracker still remembers is the word in memory. */
  lemma FoldingPreservesRuns(c: Context, n: nat, ss: seq<Stmt>, s: State)
    requires AllWellFormed(c, ss, s.env.Keys, {}, false)
    requires TranslateAll(c, ss, Blank(), Nothing).clean
    ensures var r := TranslateAll(c, ss, Blank(), Nothing);
            var o := ExecAll(c, n, ss, s);
            && ExecAll(c, n, r.code, s) == o
            && (o.Done? ==> forall p :: p in r.t.mem ==> WordIs(o.s.mem, p, r.t.mem[p]))
  {
    var t := Blank();
    NothingReady(c, n, t, s, s.env.Keys);
    AllRight(c, n, ss, t, s, s.env.Keys, Nothing, [], s.env.Keys, {}, false);
    NoEscapeAll(c, n, ss, s.env.Keys, {}, s);
  }

  /** The word the hash fold feeds to keccak: eight bytes of v, least significant last. */
  method KnownWord(v: uint64) returns (word: array<byte>)
    ensures word.Length == 32 && word[..] == BigEndian(32, v)
  {
    word := new byte[32](_ => 0);
    var rest := v;
    for i := 0 to 8
      invariant rest == Shifted(v, i) && rest < TWO_64
      invariant forall k :: 0 <= k < 32 - i ==> word[k] == 0
      invariant word[32 - i..] == BigEndian(i, v)
    {
      ShiftedStep(v, i);
      word[31 - i] := rest % 256;
      rest := rest / 256;
      assert word[31 - i..] == [word[31 - i]] + word[32 - i..];
    }
    Pow256Of8();
    BigEndianPrefixZero(32, 8, v);
    assert word[..] == word[..24] + word[24..];
    assert word[..24] == Zeros(24);
  }
}
