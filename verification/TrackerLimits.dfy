/** Where the tracker is wrong, and exactly when it is right. */
module TrackerLimits {
  import opened Bytes
  import opened FlatMemory
  import opened MemTracker
  import opened TrackerSound
  import opened TrackerSimulation

  // ---- writes that touch a word -------------------------------------------------------

  /** Some write of at most len bytes at off changes the word at o, if they meet. */
  lemma Disturbs(mem: bytes, o: nat, off: nat, len: nat) returns (data: bytes)
    requires o + 32 <= |mem| && Meets(o, off, len)
    ensures |data| <= len && off + |data| <= |mem| && (off + len <= |mem| ==> |data| == len)
    ensures Over(mem, off, data)[o..o + 32] != mem[o..o + 32]
  {
    var i := if o < off then off else o;
    var other: byte := if mem[i] == 0 then 1 else 0;
    data := seq(if off + len <= |mem| then len else i + 1 - off, _ => other);
    OverAt(mem, off, data, i);
    assert Over(mem, off, data)[o..o + 32][i - o] != mem[o..o + 32][i - o];
  }

  lemma DifferentWords(w: bytes, v: bytes)
    requires |w| == |v| && w != v
    ensures Number(w) != Number(v)
  {
    BigEndianOfNumber(w);
    BigEndianOfNumber(v);
  }

  /** The overlap condition is exact: a store at p leaves the word at o alone, whatever is
  stored, if and only if the two do not overlap. */
  lemma StoreApartExactly(mem: bytes, o: nat, p: nat)
    requires o + 32 <= |mem| && p + 32 <= |mem| && o != p
    ensures Apart(o, p) <==>
              forall w: bytes :: |w| == 32 ==> Over(mem, p, w)[o..o + 32] == mem[o..o + 32]
  {
    if Apart(o, p) {
      forall w: bytes | |w| == 32
        ensures Over(mem, p, w)[o..o + 32] == mem[o..o + 32]
      {
        ReadApart(mem, p, w, o);
      }
    } else {
      var w := Disturbs(mem, o, p, 32);
    }
  }

  /** Memory after a call that wrote data, with the names as they were. */
  function AfterCall(s: State, region: Region, data: bytes): State
    requires Written(s.mem, region, data).Some?
  {
    s.(mem := Written(s.mem, region, data).value)
  }

  lemma NoResults(c: Context, region: Region, data: bytes, s: State)
    requires Written(s.mem, region, data).Some?
    ensures Call({}, region, Some(Effect(map[], data)), s) == Done(AfterCall(s, region, data))
  {
    var names: set<string>, effect := {}, Effect(map[], data);
    var added := map x | x in names && x in effect.results :: effect.results[x];
    assert added == map[];
    assert s.env + added == s.env;
  }

  /** The condition on overlooked calls is exact: the tracker stays right whatever the call
  writes if and only if no tracked word shares a byte with what it may write. */
  lemma SilentExactly(c: Context, t: Tracker, s: State, V: set<string>, region: Region)
    requires Holds(c, t, s, V)
    ensures Untouched(t, region) <==>
              forall data :: Written(s.mem, region, data).Some? ==> Holds(c, t, AfterCall(s, region, data), V)
  {
    if Untouched(t, region) {
      forall data | Written(s.mem, region, data).Some?
        ensures Holds(c, t, AfterCall(s, region, data), V)
      {
        var stmt := Silent({}, region, _ => Some(Effect(map[], data)));
        SilentRight(c, 0, stmt, t, s, V, Nothing);
        NoResults(c, region, data, s);
      }
    } else {
      var data := Harm(c, t, s, V, region);
    }
  }

  lemma Harm(c: Context, t: Tracker, s: State, V: set<string>, region: Region) returns (data: bytes)
    requires Holds(c, t, s, V) && !Untouched(t, region)
    ensures Written(s.mem, region, data).Some? && !Holds(c, t, AfterCall(s, region, data), V)
  {
    var o: nat;
    if region.Anywhere? {
      o :| o in t.mem;
      assert WordIs(s.mem, o, t.mem[o]);
      var other := Disturbs(s.mem, o, o, 32);
      data := Over(s.mem, o, other);
    } else {
      o :| o in t.mem && Meets(o, region.off, region.len);
      assert WordIs(s.mem, o, t.mem[o]);
      data := Disturbs(s.mem, o, region.off, region.len);
    }
    DifferentWords(AfterCall(s, region, data).mem[o..o + 32], s.mem[o..o + 32]);
    assert !WordIs(AfterCall(s, region, data).mem, o, t.mem[o]);
  }

  /** The same for a builtin: after its operands were translated, the tracker is right whatever
  the builtin writes if and only if no word tracked by then shares a byte with that. */
  lemma ClobberExactly(c: Context, n: nat, operands: seq<Stmt>, region: Region, t: Tracker, s: State, V: set<string>)
    requires AllWellFormed(c, operands, V, {}, false) && Holds(c, t, s, V)
    requires TranslateAll(c, operands, Forget(t), Nothing).clean && ExecAll(c, n, operands, s).Done?
    ensures var t1, s1 := TranslateAll(c, operands, Forget(t), Nothing).t, ExecAll(c, n, operands, s).s;
            Untouched(t1, region) <==>
              forall data :: Written(s1.mem, region, data).Some? ==>
                Holds(c, t1, AfterCall(s1, region, data), ScopedAll(operands, V))
  {
    NothingReady(c, n, Forget(t), s, V);
    AllRight(c, n, operands, Forget(t), s, V, Nothing, [], V, {}, false);
    SilentExactly(c, TranslateAll(c, operands, Forget(t), Nothing).t, ExecAll(c, n, operands, s).s,
                  ScopedAll(operands, V), region);
  }

  // ---- overlooked calls ---------------------------------------------------------------

  /** mstore(off, v) call let h := keccak256(off, 32) */
  function HashAfter(off: uint64, v: uint64, call: Stmt): seq<Stmt> {
    [Mstore(Lit(off), Lit(v)), call, Let("h", Keccak(Lit(off), Lit(32)))]
  }

  function Hashed(s: State, h: nat): State {
    s.(env := s.env["h" := h])
  }

  lemma ExecThree(c: Context, a: Stmt, b: Stmt, e: Expr, h: nat, s: State, s1: State, s2: State)
    requires Exec(c, 0, a, s) == Done(s1) && Exec(c, 0, b, s1) == Done(s2) && Eval(c, e, s2) == Some(h)
    ensures ExecAll(c, 0, [a, b, Let("h", e)], s) == Done(Hashed(s2, h))
  {
    var d := Let("h", e);
    assert [a, b, d][1..] == [b, d] && [b, d][1..] == [d];
    ExecOne(c, 0, d, s2);
  }

  lemma TranslateCons(c: Context, a: Stmt, rest: seq<Stmt>, t: Tracker)
    ensures var x := Translate(c, a, t, Nothing);
            var y := TranslateAll(c, rest, x.t, Nothing);
            TranslateAll(c, [a] + rest, t, Nothing) ==
              Result(x.code + y.code, y.t, x.clean && y.clean, x.leaves + y.leaves)
  {
    assert ([a] + rest)[1..] == rest;
  }

  lemma TranslateThree(c: Context, a: Stmt, b: Stmt, d: Stmt, t: Tracker, x: Result, y: Result, z: Result)
    requires x == Translate(c, a, t, Nothing) && y == Translate(c, b, x.t, Nothing)
    requires z == Translate(c, d, y.t, Nothing)
    ensures var r := TranslateAll(c, [a, b, d], t, Nothing);
            r.code == x.code + y.code + z.code && r.clean == (x.clean && y.clean && z.clean)
  {
    assert [a, b, d] == [a] + [b, d] && [b, d] == [b] + [d];
    TranslateCons(c, a, [b, d], t);
    TranslateCons(c, b, [d], x.t);
    TranslateOne(c, d, y.t, Nothing);
  }

  /** The state after mstore(off, v). */
  function Stored(s: State, off: nat, v: nat): State
    requires off + 32 <= |s.mem|
  {
    s.(mem := Over(s.mem, off, BigEndian(32, v)))
  }

  lemma StoreRuns(c: Context, off: nat, v: nat, s: State)
    requires off + 32 <= |s.mem|
    ensures Exec(c, 0, Mstore(Lit(off), Lit(v)), s) == Done(Stored(s, off, v))
    ensures Stored(s, off, v).mem[off..off + 32] == BigEndian(32, v)
  {
    ReadOver(s.mem, off, BigEndian(32, v));
  }

  lemma KeccakRuns(c: Context, off: nat, s: State)
    requires off + 32 <= |s.mem|
    ensures Eval(c, Keccak(Lit(off), Lit(32)), s) == Some(c.hash(s.mem[off..off + 32]))
  {
  }

  /** Across a call that the tracker overlooks, the folded hash is that of the word stored
  before the call, and the run's is that of the word in memory. */
  lemma StaleHash(c: Context, off: uint64, v: uint64, call: Stmt, t: Tracker, s: State, s2: State)
    requires call.Silent? && off + 32 <= |s.mem| && off + 32 <= |s2.mem|
    requires Exec(c, 0, call, Stored(s, off, v)) == Done(s2)
    ensures var ss := HashAfter(off, v, call);
            var r := TranslateAll(c, ss, t, Nothing);
            && ExecAll(c, 0, ss, s) == Done(Hashed(s2, c.hash(s2.mem[off..off + 32])))
            && ExecAll(c, 0, r.code, s) == Done(Hashed(s2, c.hash(BigEndian(32, v))))
  {
    var store, e := Mstore(Lit(off), Lit(v)), Keccak(Lit(off), Lit(32));
    StoreRuns(c, off, v, s);
    KeccakRuns(c, off, s2);
    StaleCode(c, off, v, call, t);
    var h := c.hash(BigEndian(32, v));
    ExecThree(c, store, call, e, c.hash(s2.mem[off..off + 32]), s, Stored(s, off, v), s2);
    ExecThree(c, store, call, Lit(h), h, s, Stored(s, off, v), s2);
  }

  lemma StaleBreaks(c: Context, off: uint64, v: uint64, call: Stmt, t: Tracker, s: State, s2: State, b: uint64)
    requires call.Silent? && Touches(call.region, off) && off + 32 <= |s.mem| && off + 32 <= |s2.mem|
    requires Exec(c, 0, call, Stored(s, off, v)) == Done(s2) && s2.mem[off..off + 32] == BigEndian(32, b)
    ensures Stale(c, HashAfter(off, v, call), off, v, b, t, s)
  {
    StaleHash(c, off, v, call, t, s, s2);
    StaleCode(c, off, v, call, t);
    SmallWord(b, 32);
  }

  /** Both runs end; memory holds b at off and the run hashes it, the translation hashes v. */
  ghost predicate Stale(c: Context, ss: seq<Stmt>, off: nat, v: nat, b: nat, t: Tracker, s: State) {
    var r := TranslateAll(c, ss, t, Nothing);
    var o, p := ExecAll(c, 0, ss, s), ExecAll(c, 0, r.code, s);
    && o.Done? && p.Done? && !r.clean && WordIs(o.s.mem, off, b)
    && o.s == Hashed(o.s, c.hash(BigEndian(32, b)))
    && p.s == Hashed(o.s, c.hash(BigEndian(32, v)))
  }

  lemma StaleCode(c: Context, off: uint64, v: uint64, call: Stmt, t: Tracker)
    requires call.Silent?
    ensures var r := TranslateAll(c, HashAfter(off, v, call), t, Nothing);
            && r.code == [Mstore(Lit(off), Lit(v)), call, Let("h", Lit(c.hash(BigEndian(32, v))))]
            && (Touches(call.region, off) ==> !r.clean)
  {
    var ss := HashAfter(off, v, call);
    StoreTracked(c, off, v, t);
    var x := Translate(c, ss[0], t, Nothing);
    HashFolds(c, off, v, x.t);
    var y := Translate(c, call, x.t, Nothing);
    assert Touches(call.region, off) ==> !y.clean;
    TranslateThree(c, ss[0], call, ss[2], t, x, y, Translate(c, ss[2], x.t, Nothing));
  }

  predicate Touches(region: Region, o: nat) {
    region.Anywhere? || (region.Range? && Meets(o, region.off, region.len))
  }

  lemma StoreTracked(c: Context, off: uint64, v: uint64, t: Tracker)
    ensures var r := Translate(c, Mstore(Lit(off), Lit(v)), t, Nothing);
            && r.code == [Mstore(Lit(off), Lit(v))]
            && off in r.t.mem && r.t.mem[off] == v && r.t.locals == t.locals && r.t.last == Some(Lit(v))
            && r.clean == ApartFromAll(t, off)
  {
  }

  lemma HashFolds(c: Context, off: uint64, v: uint64, t: Tracker)
    requires off in t.mem && t.mem[off] == v
    ensures Translate(c, Let("h", Keccak(Lit(off), Lit(32))), t, Nothing).code
         == [Let("h", Lit(c.hash(BigEndian(32, v))))]
  {
    var e := Keccak(Lit(off), Lit(32));
    var t1 := RecordLet(c, t, "h", e);
    assert Lower(c, Lit(off), t1) == Lit(off) && Lower(c, Lit(32), t1) == Lit(32);
    assert Lower(c, e, t1) == Lit(c.hash(BigEndian(32, v)));
  }

  /** let ok := staticcall(gas(), 4, 0, 0x20, 0x20, 0x20): the identity precompile copies the
  first word over the second. */
  function CopyWord(): Stmt {
    Silent({"ok"}, Range(32, 32),
           (s: State) => if |s.mem| < 64 then None else Some(Effect(map["ok" := 1], s.mem[..32])))
  }

  /** A bound call: after
      mstore(0, a) mstore(0x20, b) let ok := staticcall(gas(), 4, 0, 0x20, 0x20, 0x20)
      let h := keccak256(0x20, 0x20)
  memory holds a at 0x20, while the translation hashes b. */
  lemma CallBreaks(c: Context, s: State, a: uint64, b: uint64)
    requires |s.mem| >= 64
    ensures Stale(c, [Mstore(Lit(0), Lit(a))] + HashAfter(32, b, CopyWord()), 32, b, a, Blank(), s)
  {
    var first, rest, t := Mstore(Lit(0), Lit(a)), HashAfter(32, b, CopyWord()), Blank();
    StoreTracked(c, 0, a, t);
    var x := Translate(c, first, t, Nothing);
    StoreRuns(c, 0, a, s);
    CopyWordHash(c, Stored(s, 0, a), a, b, x.t);
    TranslateCons(c, first, rest, t);
    ExecFirst(c, first, rest, s, Stored(s, 0, a));
    ExecFirst(c, first, TranslateAll(c, rest, x.t, Nothing).code, s, Stored(s, 0, a));
  }

  lemma ExecFirst(c: Context, first: Stmt, rest: seq<Stmt>, s: State, s1: State)
    requires Exec(c, 0, first, s) == Done(s1)
    ensures ExecAll(c, 0, [first] + rest, s) == ExecAll(c, 0, rest, s1)
  {
    assert ([first] + rest)[1..] == rest;
  }

  lemma CopyWordHash(c: Context, s: State, a: uint64, b: uint64, t: Tracker)
    requires |s.mem| >= 64 && s.mem[..32] == BigEndian(32, a)
    ensures Stale(c, HashAfter(32, b, CopyWord()), 32, b, a, t, s)
  {
    var s1 := Stored(s, 32, b);
    CopyWordRuns(c, s, s1, a, b);
    var s2 := State(s1.env["ok" := 1], Over(s1.mem, 32, BigEndian(32, a)));
    assert Meets(32, 32, 32);
    StaleBreaks(c, 32, b, CopyWord(), t, s, s2, a);
  }

  lemma CopyWordRuns(c: Context, s0: State, s1: State, a: uint64, b: uint64)
    requires |s0.mem| >= 64 && s0.mem[..32] == BigEndian(32, a)
    requires s1 == Stored(s0, 32, b)
    ensures Exec(c, 0, CopyWord(), s1) == Done(State(s1.env["ok" := 1], Over(s1.mem, 32, BigEndian(32, a))))
    ensures Over(s1.mem, 32, BigEndian(32, a))[32..64] == BigEndian(32, a)
  {
    var w := BigEndian(32, a);
    assert s1.mem[..32] == w;
    var results := map["ok" := 1];
    assert (map x | x in {"ok"} && x in results :: results[x]) == results;
    assert s1.env + results == s1.env["ok" := 1];
    ReadOver(s1.mem, 32, w);
  }

  /** The code of an operand: a function that stores v at off. */
  function StoringOperand(off: uint64, v: uint64): seq<Stmt> {
    [Inline([Mstore(Lit(off), Lit(v))])]
  }

  /** mstore8(off, f()), where f stores v at off and returns b. */
  function StoreByteOf(off: uint64, v: uint64, b: byte): Stmt {
    Clobber(StoringOperand(off, v), Range(off, 1), (_: State) => Some(Effect(map[], [b])))
  }

  /** A builtin whose operand stores: after mstore8(off, f()) let h := keccak256(off, 0x20) the
  first byte of the word is b, while the translation hashes the word that f stored. */
  lemma OperandBreaks(c: Context, s: State, off: uint64, v: uint64, b: byte)
    requires off + 32 <= |s.mem|
    ensures var ss := [StoreByteOf(off, v, b)] + [Let("h", Keccak(Lit(off), Lit(32)))];
            var r := TranslateAll(c, ss, Blank(), Nothing);
            var word := [b] + BigEndian(32, v)[1..];
            var o, p := ExecAll(c, 0, ss, s), ExecAll(c, 0, r.code, s);
            && o.Done? && p.Done? && !r.clean
            && off + 32 <= |o.s.mem| && o.s.mem[off..off + 32] == word
            && o.s == Hashed(o.s, c.hash(word)) && p.s == Hashed(o.s, c.hash(BigEndian(32, v)))
  {
    var clobber, e := StoreByteOf(off, v, b), Keccak(Lit(off), Lit(32));
    var s1 := Stored(s, off, v);
    var s2 := s1.(mem := Over(s1.mem, off, [b]));
    StoreByteRuns(c, s, off, v, b);
    StoreByteTracked(c, off, v, b);
    var x := Translate(c, clobber, Blank(), Nothing);
    HashFolds(c, off, v, x.t);
    TranslateCons(c, clobber, [Let("h", e)], Blank());
    TranslateOne(c, Let("h", e), x.t, Nothing);
    KeccakRuns(c, off, s2);
    LetRuns(c, clobber, e, c.hash(s2.mem[off..off + 32]), s, s2);
    var folded := Lit(c.hash(BigEndian(32, v)));
    LetRuns(c, clobber, folded, c.hash(BigEndian(32, v)), s, s2);
  }

  lemma LetRuns(c: Context, first: Stmt, e: Expr, h: nat, s: State, s1: State)
    requires Exec(c, 0, first, s) == Done(s1) && Eval(c, e, s1) == Some(h)
    ensures ExecAll(c, 0, [first] + [Let("h", e)], s) == Done(Hashed(s1, h))
  {
    ExecFirst(c, first, [Let("h", e)], s, s1);
    ExecOne(c, 0, Let("h", e), s1);
  }

  lemma StoreByteRuns(c: Context, s: State, off: uint64, v: uint64, b: byte)
    requires off + 32 <= |s.mem|
    ensures var s1 := Stored(s, off, v);
            var s2 := s1.(mem := Over(s1.mem, off, [b]));
            && Exec(c, 0, StoreByteOf(off, v, b), s) == Done(s2)
            && s2.mem[off..off + 32] == [b] + BigEndian(32, v)[1..]
  {
    var store, s1 := Mstore(Lit(off), Lit(v)), Stored(s, off, v);
    StoreRuns(c, off, v, s);
    ExecOne(c, 0, store, s);
    ExecOne(c, 0, Inline([store]), s);
    NoResults(c, Range(off, 1), [b], s1);
    FirstByte(s1.mem, off, b);
  }

  lemma FirstByte(mem: bytes, off: nat, b: byte)
    requires off + 32 <= |mem|
    ensures Over(mem, off, [b])[off..off + 32] == [b] + mem[off..off + 32][1..]
  {
    var left, right := Over(mem, off, [b])[off..off + 32], [b] + mem[off..off + 32][1..];
    forall k | 0 <= k < 32
      ensures left[k] == right[k]
    {
      OverAt(mem, off, [b], off + k);
    }
  }

  lemma StoreByteTracked(c: Context, off: uint64, v: uint64, b: byte)
    ensures var r := Translate(c, StoreByteOf(off, v, b), Blank(), Nothing);
            && r.code == [StoreByteOf(off, v, b)] && !r.clean
            && off in r.t.mem && r.t.mem[off] == v
  {
    var store, t := Mstore(Lit(off), Lit(v)), Forget(Blank());
    var body := [store];
    assert body[1..] == [] && LeaveAt(body) == 1 && body[..1] == body;
    StoreTracked(c, off, v, t);
    TranslateOne(c, store, t, Nothing);
    TranslateOne(c, Inline(body), t, Nothing);
    assert Meets(off, off, 1);
  }

  /** A call of a recursive function, compiled to a subroutine, that stores b at 0. */
  function StoresZero(b: uint64): Stmt {
    Silent({}, Anywhere,
           (s: State) => if |s.mem| < 32 then None else Some(Effect(map[], Over(s.mem, 0, BigEndian(32, b)))))
  }

  /** A subroutine: after mstore(0, a) f() let h := keccak256(0, 0x20) memory holds b at 0,
  while the translation hashes a. */
  lemma SubroutineBreaks(c: Context, s: State, a: uint64, b: uint64)
    requires |s.mem| >= 32
    ensures Stale(c, HashAfter(0, a, StoresZero(b)), 0, a, b, Blank(), s)
  {
    var s1 := Stored(s, 0, a);
    StoresZeroRuns(c, b, s1);
    StaleBreaks(c, 0, a, StoresZero(b), Blank(), s, Stored(s1, 0, b), b);
  }

  lemma StoresZeroRuns(c: Context, b: uint64, s: State)
    requires |s.mem| >= 32
    ensures Exec(c, 0, StoresZero(b), s) == Done(Stored(s, 0, b))
    ensures Stored(s, 0, b).mem[0..32] == BigEndian(32, b)
  {
    NoResults(c, Anywhere, Stored(s, 0, b).mem, s);
    StoreRuns(c, 0, b, s);
  }

  // ---- inlined functions --------------------------------------------------------------

  /** The tracker is right when the call has ended. */
  ghost predicate RightAfter(c: Context, n: nat, stmt: Stmt, t: Tracker, V: set<string>, s: State)
    requires stmt.Inline?
  {
    var o := Exec(c, n, stmt, s);
    o.Done? ==> Holds(c, Translate(c, stmt, t, Nothing).t, o.s, V)
  }

  /** What the tracker holds at the end of the body is true where the run leaves it early. */
  ghost predicate TrueWhereLeft(c: Context, n: nat, stmt: Stmt, t: Tracker, s: State)
    requires stmt.Inline?
  {
    var o := ExecAll(c, n, Prefix(stmt), s);
    o.Left? ==> AllTrue(BodyOf(c, stmt, t).t.mem, o.s.mem)
  }

  /** The condition on early leaves is exact: the tracker is right after the call, in every run,
  if and only if every entry it holds at the end of the body is true at every `leave`. */
  lemma InlineExactly(c: Context, stmt: Stmt, t: Tracker, V: set<string>)
    requires stmt.Inline? && WellFormed(c, stmt, V, {}, false) && BodyOf(c, stmt, t).clean
    ensures (forall n: nat, s :: Holds(c, t, s, V) ==> RightAfter(c, n, stmt, t, V, s))
       <==> (forall n: nat, s :: Holds(c, t, s, V) ==> TrueWhereLeft(c, n, stmt, t, s))
  {
    forall n: nat, s | Holds(c, t, s, V)
      ensures RightAfter(c, n, stmt, t, V, s) <==> TrueWhereLeft(c, n, stmt, t, s)
    {
      InlineRuns(c, n, stmt, t, s, V, Nothing, {}, false);
    }
  }

  /** The body of f: if input(0) { leave } mstore(0, b). */
  function LeavesEarly(b: uint64): seq<Stmt> {
    [If(Input(Lit(0)), [Leave]), Mstore(Lit(0), Lit(b))]
  }

  /** mstore(0, a) f() */
  function EarlyLeave(a: uint64, b: uint64): seq<Stmt> {
    [Mstore(Lit(0), Lit(a)), Inline(LeavesEarly(b))]
  }

  /** After an inlined function that leaves early, the tracker believes the store that was
  skipped: it holds b where every run that leaves has a. */
  lemma EarlyLeaveBreaks(c: Context, s: State, a: uint64, b: uint64)
    requires c.input(0) != 0 && |s.mem| >= 32
    ensures var r := TranslateAll(c, EarlyLeave(a, b), Blank(), Nothing);
            var o := ExecAll(c, 0, EarlyLeave(a, b), s);
            && r.clean == (a == b) && 0 in r.t.mem && r.t.mem[0] == b
            && o.Done? && WordIs(o.s.mem, 0, a)
  {
    EarlyLeaveRun(c, s, a, b);
    EarlyLeaveTracked(c, a, b);
  }

  lemma LeavesEarlyRun(c: Context, s: State, b: uint64)
    requires c.input(0) != 0
    ensures ExecAll(c, 0, [Inline(LeavesEarly(b))], s) == Done(s)
  {
    var inner := LeavesEarly(b);
    ExecOne(c, 0, Leave, s);
    assert Eval(c, Input(Lit(0)), s) == Some(c.input(0));
    assert Exec(c, 0, inner[0], s) == Left(s);
    ExecOne(c, 0, Inline(inner), s);
  }

  lemma EarlyLeaveRun(c: Context, s: State, a: uint64, b: uint64)
    requires c.input(0) != 0 && |s.mem| >= 32
    ensures var o := ExecAll(c, 0, EarlyLeave(a, b), s);
            o.Done? && WordIs(o.s.mem, 0, a)
  {
    var w := BigEndian(32, a);
    var s1 := s.(mem := Over(s.mem, 0, w));
    var ss := EarlyLeave(a, b);
    LeavesEarlyRun(c, s1, b);
    assert Exec(c, 0, ss[0], s) == Done(s1);
    assert ss[1..] == [Inline(LeavesEarly(b))];
    ReadOver(s.mem, 0, w);
    SmallWord(a, 32);
  }

  lemma EarlyLeaveTracked(c: Context, a: uint64, b: uint64)
    ensures var r := TranslateAll(c, EarlyLeave(a, b), Blank(), Nothing);
            r.clean == (a == b) && 0 in r.t.mem && r.t.mem[0] == b
  {
    var ss := EarlyLeave(a, b);
    var t := Blank();
    StoreTracked(c, 0, a, t);
    var r1 := Translate(c, ss[0], t, Nothing);
    assert r1.t.mem == map[0 := a];
    LeavesEarlyTracked(c, r1.t, b);
    var last := Inline(LeavesEarly(b));
    assert ss[1..] == [last];
    TranslateOne(c, last, r1.t, Nothing);
  }

  lemma TranslateOne(c: Context, stmt: Stmt, t: Tracker, after: Tracker -> Result)
    ensures var r, rs := Translate(c, stmt, t, after), TranslateAll(c, [stmt], t, after);
            rs.code == r.code && rs.t == r.t && rs.clean == r.clean && rs.leaves == r.leaves
  {
    assert [stmt][1..] == [];
    assert TranslateAll(c, [], Translate(c, stmt, t, after).t, after).clean;
  }

  lemma LeavesEarlyShape(b: uint64)
    ensures LeaveAt(LeavesEarly(b)) == 2 && LeavesEarly(b)[..2] == LeavesEarly(b)
  {
    var inner := LeavesEarly(b);
    assert inner[1..] == [inner[1]];
    assert LeaveAt([inner[1]]) == 1;
  }

  lemma LeavesEarlyTracked(c: Context, t: Tracker, b: uint64)
    requires t.mem.Keys <= {0}
    ensures var r := Translate(c, Inline(LeavesEarly(b)), t, Nothing);
            r.clean == (0 in t.mem && t.mem[0] == b) && 0 in r.t.mem && r.t.mem[0] == b
  {
    var stmt := Inline(LeavesEarly(b));
    LeavesEarlyShape(b);
    LeavesEarlyBody(c, t, b);
    InlineTranslated(c, stmt, t);
    assert BodyOf(c, stmt, t).leaves[0] == t.mem;
  }

  lemma InlineTranslated(c: Context, stmt: Stmt, t: Tracker)
    requires stmt.Inline?
    ensures var r, b := Translate(c, stmt, t, Nothing), BodyOf(c, stmt, t);
            r.t == b.t && r.clean == (b.clean && AllCover(b.leaves, b.t.mem))
  {
    var k := LeaveAt(stmt.body);
    assert k < |stmt.body| || stmt.body[..k] == stmt.body;
  }

  lemma LeavesEarlyBody(c: Context, t: Tracker, b: uint64)
    ensures var r := TranslateAll(c, LeavesEarly(b), t, Nothing);
            r.leaves == [t.mem] && r.clean && r.t.mem == map[0 := b]
  {
    var inner := LeavesEarly(b);
    IfLeaves(c, t);
    var x := Translate(c, inner[0], t, Nothing);
    StoreTracked(c, 0, b, x.t);
    assert inner == [inner[0]] + [inner[1]];
    TranslateCons(c, inner[0], [inner[1]], t);
    TranslateOne(c, inner[1], x.t, Nothing);
  }

  lemma IfLeaves(c: Context, t: Tracker)
    ensures var r := Translate(c, If(Input(Lit(0)), [Leave]), t, Nothing);
            r.leaves == [t.mem] && r.clean && r.t == Forget(t)
  {
    TranslateOne(c, Leave, t, Nothing);
    assert LowerFits(c, Lit(0), t);
  }
}
