/** Where the translator takes parameters for memory: loads, hashes and copies at constant offsets
that coincide with calldata head offsets, and hashes of struct locals. */
module TrackerCalldata {
  import opened Bytes
  import opened FlatMemory
  import opened MemTracker
  import opened TrackerSound
  import opened TrackerSimulation
  import opened TrackerLimits

  // ---- calldata head offsets ----------------------------------------------------------

  /** A constant `mload` is lowered rightly in every state if and only if its offset is not
  one of the calldata head offsets. */
  lemma MloadExactly(c: Context, off: uint64, t: Tracker)
    ensures off !in c.calldata <==> forall s :: LoadsMemory(c, off, t, s)
  {
    assert Lower(c, Lit(off), t) == Lit(off);
    if off in c.calldata {
      var s := State(map[c.calldata[off] := 1], Zeros(off + 32));
      assert s.mem[off..off + 32] == Zeros(32);
      NumberOfZeros(32);
      assert Eval(c, Mload(Lit(off)), s) == Some(0);
      assert !LoadsMemory(c, off, t, s);
    }
  }

  ghost predicate LoadsMemory(c: Context, off: uint64, t: Tracker, s: State) {
    Eval(c, Lower(c, Mload(Lit(off)), t), s) == Eval(c, Mload(Lit(off)), s)
  }

  /** mstore(off, v) let x := mload(off), at a calldata head offset, binds x to the parameter. */
  lemma CalldataBreaks(c: Context, s: State, off: uint64, v: uint64)
    requires off in c.calldata && c.calldata[off] in s.env && off + 32 <= |s.mem|
    ensures var ss := [Mstore(Lit(off), Lit(v))] + [Let("x", Mload(Lit(off)))];
            var r := TranslateAll(c, ss, Blank(), Nothing);
            var o, p := ExecAll(c, 0, ss, s), ExecAll(c, 0, r.code, s);
            && o.Done? && p.Done? && !r.clean
            && o.s.env == s.env["x" := v] && p.s.env == s.env["x" := s.env[c.calldata[off]]]
  {
    var store, load, t := Mstore(Lit(off), Lit(v)), Let("x", Mload(Lit(off))), Blank();
    var s1, lowered := Stored(s, off, v), Let("x", Var(c.calldata[off]));
    StoreTracked(c, off, v, t);
    var x := Translate(c, store, t, Nothing);
    CalldataLoad(c, off, x.t);
    TranslateCons(c, store, [load], t);
    StoreRuns(c, off, v, s);
    LoadRuns(c, off, v, s1);
    ExecOne(c, 0, load, s1);
    ExecOne(c, 0, lowered, s1);
    ExecFirst(c, store, [load], s, s1);
    ExecFirst(c, store, [lowered], s, s1);
  }

  lemma LoadRuns(c: Context, off: nat, v: uint64, s: State)
    requires off + 32 <= |s.mem| && s.mem[off..off + 32] == BigEndian(32, v)
    ensures Eval(c, Mload(Lit(off)), s) == Some(v)
  {
    SmallWord(v, 32);
  }

  lemma CalldataLoad(c: Context, off: uint64, t: Tracker)
    requires off in c.calldata
    ensures var r := TranslateAll(c, [Let("x", Mload(Lit(off)))], t, Nothing);
            r.code == [Let("x", Var(c.calldata[off]))] && !r.clean
  {
    var e := Mload(Lit(off));
    var t1 := RecordLet(c, t, "x", e);
    assert Lower(c, Lit(off), t1) == Lit(off);
    assert ReadsCalldata(c, Lit(off), t1);
    TranslateOne(c, Let("x", e), t, Nothing);
  }

  // ---- hashes -------------------------------------------------------------------------

  /** A literal, or a variable the tracker knows nothing about. */
  predicate Bare(e: Expr, t: Tracker) {
    (e.Lit? && e.n < TWO_64) || (e.Var? && e.name !in t.locals)
  }

  ghost predicate HashesMemory(c: Context, o: Expr, l: Expr, t: Tracker, hash: bytes -> nat, s: State) {
    var c1 := c.(hash := hash);
    Eval(c1, LowerHash(c1, o, l, t), s) == Eval(c1, Keccak(o, l), s)
  }

  /** A hash is lowered to that of the bytes in memory, for every hash function and in every
  state, if and only if it is not one of the struct and parameter patterns and its length comes
  through. */
  lemma HashExactly(c: Context, o: Expr, l: Expr, t: Tracker)
    requires Bare(o, t) && Bare(l, t) && !HashesKnown(ResolveOffset(o, t), ResolveOffset(l, t), t)
    ensures !HashesOther(c, o, l, t) <==> forall hash, s :: HashesMemory(c, o, l, t, hash, s)
  {
    var off, len := ResolveOffset(o, t), ResolveOffset(l, t);
    if !HashesOther(c, o, l, t) {
      if len.Some? {
        SmallInt32(len.value);
      }
      assert LowerHash(c, o, l, t) == Keccak(o, l);
    } else if HashesTuple(c, o, len) {
      WordsShow(c, o, l, t, c.tuples[o.name]);
    } else if HashesParam(c, off, len, t) {
      ParamShows(c, o, l, t);
    } else if HashesStruct(c, off, len) {
      WordsShow(c, o, l, t, c.structs[off.value]);
    } else {
      LostShows(c, o, l, t);
    }
  }

  /** Where the fields are zero and memory is not, a hash of the fields shows. */
  lemma WordsShow(c: Context, o: Expr, l: Expr, t: Tracker, names: seq<string>)
    requires Bare(o, t) && l.Lit? && l.n > 0
    requires forall hash :: LowerHash(c.(hash := hash), o, l, t) == HashWords(names)
    ensures exists hash, s :: !HashesMemory(c, o, l, t, hash, s)
  {
    var at := if o.Lit? then o.n else 0;
    var env := map x | x in names :: 0;
    var s := State(if o.Var? then env[o.name := 0] else env, Zeros(at) + [1] + Zeros(l.n));
    FieldsDiffer(c.(hash := StartsWithOne), o, l, at, names, s);
    assert !HashesMemory(c, o, l, t, StartsWithOne, s);
  }

  lemma FieldsDiffer(c: Context, o: Expr, l: Expr, at: nat, names: seq<string>, s: State)
    requires c.hash == StartsWithOne && l.Lit? && l.n > 0 && s.mem == Zeros(at) + [1] + Zeros(l.n)
    requires (o.Lit? && o.n == at) || (o.Var? && o.name in s.env && s.env[o.name] == at)
    requires forall x :: x in names ==> x in s.env && s.env[x] == 0
    ensures Eval(c, Keccak(o, l), s) == Some(1) && Eval(c, HashWords(names), s) == Some(0)
  {
    WordsAreZero(names, s.env);
    OneAt(at, l.n);
    BareValue(c, o, at, s);
    HashedRange(c, o, l, at, l.n, s);
  }

  lemma BareValue(c: Context, e: Expr, v: nat, s: State)
    requires (e.Lit? && e.n == v) || (e.Var? && e.name in s.env && s.env[e.name] == v)
    ensures Eval(c, e, s) == Some(v)
  {
  }

  lemma OneAt(at: nat, len: nat)
    requires len > 0
    ensures var mem := Zeros(at) + [1] + Zeros(len); at + len <= |mem| && StartsWithOne(mem[at..at + len]) == 1
  {
    var mem := Zeros(at) + [1] + Zeros(len);
    assert mem[at] == 1;
    assert mem[at..at + len][0] == mem[at];
  }

  /** A length of zero shows a hash of the parameter. */
  lemma ParamShows(c: Context, o: Expr, l: Expr, t: Tracker)
    requires o.Lit? && l.Var? && Bare(o, t) && Bare(l, t) && !HashesTuple(c, o, None)
    requires HashesParam(c, ResolveOffset(o, t), ResolveOffset(l, t), t)
    ensures exists hash, s :: !HashesMemory(c, o, l, t, hash, s)
  {
    var p := c.calldata[o.n - 32];
    var s := State(map[p := 0][l.name := 0], []);
    var size := (b: bytes) => |b|;
    var c1 := c.(hash := size);
    assert LowerHash(c1, o, l, t) == HashParam(p, t.last.value);
    assert Eval(c1, Keccak(o, l), s) == Some(0);
    assert !HashesMemory(c, o, l, t, size, s);
  }

  function StartsWithOne(b: bytes): nat {
    if b != [] && b[0] == 1 then 1 else 0
  }

  lemma {:induction false} WordsAreZero(names: seq<string>, env: map<string, nat>)
    requires forall x :: x in names ==> x in env && env[x] == 0
    ensures WordsOf(names, env).Some? && StartsWithOne(WordsOf(names, env).value) == 0
  {
    if |names| > 0 {
      WordsAreZero(names[1..], env);
      BigEndianZero(32);
    }
  }

  lemma LostShows(c: Context, o: Expr, l: Expr, t: Tracker)
    requires Bare(o, t) && Bare(l, t) && Lost(ResolveOffset(o, t), ResolveOffset(l, t))
    requires forall hash ::
               LowerHash(c.(hash := hash), o, l, t) == Keccak(Folded(o, t), Narrowed(ResolveOffset(o, t), l, t))
    ensures exists hash, s :: !HashesMemory(c, o, l, t, hash, s)
  {
    var at, len := if o.Lit? then o.n else 0, l.n;
    var s := State(if o.Var? then map[o.name := 0] else map[], Zeros(at + len));
    var size := (b: bytes) => |b|;
    var c1, l1 := c.(hash := size), Narrowed(ResolveOffset(o, t), l, t);
    assert Folded(o, t) == o;
    BareValue(c1, o, at, s);
    HashedRange(c1, o, l, at, len, s);
    if l1.Lit? {
      ShorterInt32(len);
      HashedRange(c1, o, l1, at, l1.n, s);
    } else {
      assert Eval(c1, l1, s) == None;
    }
    assert LowerHash(c1, o, l, t) == Keccak(o, l1);
    assert !HashesMemory(c, o, l, t, size, s);
  }

  lemma ShorterInt32(x: nat)
    requires x >= 0x8000_0000
    ensures Int32(x) < x
  {
  }

  /** mstore(off, v) let h := keccak256(off, n), one word behind a calldata head offset, hashes the
  parameter's bytes and v. */
  lemma ParamHashBreaks(c: Context, s: State, off: uint64, v: uint64, n: string, p: string, s1: State)
    requires off >= 32 && off - 32 in c.calldata && p == c.calldata[off - 32] && p in s1.env
    requires Exec(c, 0, Mstore(Lit(off), Lit(v)), s) == Done(s1)
    requires n in s1.env && off + s1.env[n] <= |s1.mem|
    ensures var ss := [Mstore(Lit(off), Lit(v))] + [Let("h", Keccak(Lit(off), Var(n)))];
            var r := TranslateAll(c, ss, Blank(), Nothing);
            && !r.clean
            && ExecAll(c, 0, ss, s) == Done(Hashed(s1, c.hash(s1.mem[off..off + s1.env[n]])))
            && ExecAll(c, 0, r.code, s) == Done(Hashed(s1, c.hash(c.raw(p, s1.env[p]) + BigEndian(32, v))))
  {
    ParamHashCode(c, off, v, n);
    RunsParamHash(c, Mstore(Lit(off), Lit(v)), off, v, n, p, s, s1);
  }

  lemma RunsParamHash(c: Context, store: Stmt, off: uint64, v: uint64, n: string, p: string, s: State, s1: State)
    requires Exec(c, 0, store, s) == Done(s1) && p in s1.env && n in s1.env && off + s1.env[n] <= |s1.mem|
    ensures ExecAll(c, 0, [store] + [Let("h", Keccak(Lit(off), Var(n)))], s)
         == Done(Hashed(s1, c.hash(s1.mem[off..off + s1.env[n]])))
    ensures ExecAll(c, 0, [store] + [Let("h", HashParam(p, Lit(v)))], s)
         == Done(Hashed(s1, c.hash(c.raw(p, s1.env[p]) + BigEndian(32, v))))
  {
    var k := s1.env[n];
    BareValue(c, Var(n), k, s1);
    HashedRange(c, Lit(off), Var(n), off, k, s1);
    LetRuns(c, store, Keccak(Lit(off), Var(n)), c.hash(s1.mem[off..off + k]), s, s1);
    ParamHashed(c, p, v, s1);
    LetRuns(c, store, HashParam(p, Lit(v)), c.hash(c.raw(p, s1.env[p]) + BigEndian(32, v)), s, s1);
  }

  lemma ParamHashCode(c: Context, off: uint64, v: uint64, n: string)
    requires off >= 32 && off - 32 in c.calldata
    ensures var store := Mstore(Lit(off), Lit(v));
            var r := TranslateAll(c, [store] + [Let("h", Keccak(Lit(off), Var(n)))], Blank(), Nothing);
            r.code == [store] + [Let("h", HashParam(c.calldata[off - 32], Lit(v)))] && !r.clean
  {
    var store := Mstore(Lit(off), Lit(v));
    StoreTracked(c, off, v, Blank());
    ParamHashLowered(c, off, v, n, Translate(c, store, Blank(), Nothing).t);
    TranslateCons(c, store, [Let("h", Keccak(Lit(off), Var(n)))], Blank());
  }

  lemma ParamHashed(c: Context, p: string, v: nat, s: State)
    requires p in s.env
    ensures Eval(c, HashParam(p, Lit(v)), s) == Some(c.hash(c.raw(p, s.env[p]) + BigEndian(32, v)))
  {
  }

  lemma ParamHashLowered(c: Context, off: uint64, v: uint64, n: string, t: Tracker)
    requires off >= 32 && off - 32 in c.calldata && n !in t.locals && t.last == Some(Lit(v))
    ensures var r := TranslateAll(c, [Let("h", Keccak(Lit(off), Var(n)))], t, Nothing);
            r.code == [Let("h", HashParam(c.calldata[off - 32], Lit(v)))] && !r.clean
  {
    var e := Keccak(Lit(off), Var(n));
    var t1 := RecordLet(c, t, "h", e);
    assert ResolveYul(c, e, t) == None && n !in t1.locals;
    assert Lower(c, Lit(off), t1) == Lit(off) && Lower(c, Var(n), t1) == Var(n);
    TranslateOne(c, Let("h", e), t, Nothing);
  }

  /** let h := keccak256(off, 32 k), at the head offset of a struct with k fields, hashes the
  fields. */
  lemma StructHashBreaks(c: Context, s: State, off: uint64, k: nat, fields: bytes)
    requires off in c.structs && 0 < |c.structs[off]| == k < 0x8000_0000 && off + 32 * k <= |s.mem|
    requires WordsOf(c.structs[off], s.env) == Some(fields)
    ensures var stmt := Let("h", Keccak(Lit(off), Lit(32 * k)));
            var r := Translate(c, stmt, Blank(), Nothing);
            && !r.clean
            && Exec(c, 0, stmt, s) == Done(Hashed(s, c.hash(s.mem[off..off + 32 * k])))
            && ExecAll(c, 0, r.code, s) == Done(Hashed(s, c.hash(fields)))
  {
    StructHashLowered(c, off, k, Blank());
    RunsHash(c, Keccak(Lit(off), Lit(32 * k)), HashWords(c.structs[off]), off, 32 * k, fields, s);
  }

  lemma RunsHash(c: Context, e: Expr, e1: Expr, off: nat, len: nat, fields: bytes, s: State)
    requires e == Keccak(Lit(off), Lit(len)) && off + len <= |s.mem| && Eval(c, e1, s) == Some(c.hash(fields))
    ensures Exec(c, 0, Let("h", e), s) == Done(Hashed(s, c.hash(s.mem[off..off + len])))
    ensures ExecAll(c, 0, [Let("h", e1)], s) == Done(Hashed(s, c.hash(fields)))
  {
    HashedRange(c, Lit(off), Lit(len), off, len, s);
    LetExec(c, e, c.hash(s.mem[off..off + len]), s);
    LetExec(c, e1, c.hash(fields), s);
  }

  lemma LetExec(c: Context, e: Expr, h: nat, s: State)
    requires Eval(c, e, s) == Some(h)
    ensures Exec(c, 0, Let("h", e), s) == Done(Hashed(s, h)) == ExecAll(c, 0, [Let("h", e)], s)
  {
    ExecOne(c, 0, Let("h", e), s);
  }

  lemma StructHashLowered(c: Context, off: uint64, k: nat, t: Tracker)
    requires off in c.structs && 0 < |c.structs[off]| == k < 0x8000_0000 && off !in t.mem
    ensures var r := Translate(c, Let("h", Keccak(Lit(off), Lit(32 * k))), t, Nothing);
            r.code == [Let("h", HashWords(c.structs[off]))] && !r.clean
  {
    var e := Keccak(Lit(off), Lit(32 * k));
    var t1 := RecordLet(c, t, "h", e);
    assert Lower(c, Lit(off), t1) == Lit(off) && Lower(c, Lit(32 * k), t1) == Lit(32 * k);
    WholeLength(k);
    assert HashesStruct(c, Some(off), Some(32 * k));
  }

  lemma WholeLength(k: nat)
    requires k < 0x8000_0000
    ensures 32 * k < TWO_64 && 32 * k % 32 == 0 && Int32(32 * k / 32) == k
  {
    SmallInt32(k);
  }

  /** let h := keccak256(p, 32 k), for a local struct p with k fields, hashes the fields. */
  lemma TupleHashBreaks(c: Context, s: State, p: string, k: nat, fields: bytes)
    requires p in c.tuples && 0 < |c.tuples[p]| == k < 0x400_0000 && p in s.env && s.env[p] + 32 * k <= |s.mem|
    requires WordsOf(c.tuples[p], s.env) == Some(fields)
    ensures var stmt := Let("h", Keccak(Var(p), Lit(32 * k)));
            var r := Translate(c, stmt, Blank(), Nothing);
            && !r.clean
            && Exec(c, 0, stmt, s) == Done(Hashed(s, c.hash(s.mem[s.env[p]..s.env[p] + 32 * k])))
            && ExecAll(c, 0, r.code, s) == Done(Hashed(s, c.hash(fields)))
  {
    var e, e1, at := Keccak(Var(p), Lit(32 * k)), HashWords(c.tuples[p]), s.env[p];
    TupleHashLowered(c, p, k, Blank());
    BareValue(c, Var(p), at, s);
    HashedRange(c, Var(p), Lit(32 * k), at, 32 * k, s);
    LetExec(c, e, c.hash(s.mem[at..at + 32 * k]), s);
    LetExec(c, e1, c.hash(fields), s);
  }

  lemma TupleHashLowered(c: Context, p: string, k: nat, t: Tracker)
    requires p in c.tuples && 0 < |c.tuples[p]| == k < 0x400_0000
    ensures var r := Translate(c, Let("h", Keccak(Var(p), Lit(32 * k))), t, Nothing);
            r.code == [Let("h", HashWords(c.tuples[p]))] && !r.clean
  {
    var e := Keccak(Var(p), Lit(32 * k));
    var t1 := RecordLet(c, t, "h", e);
    assert Lower(c, Var(p), t1) == Var(p) && Lower(c, Lit(32 * k), t1) == Lit(32 * k);
    SmallInt32(32 * k);
    assert HashesTuple(c, Var(p), Some(32 * k));
  }

  // ---- copies -------------------------------------------------------------------------

  /** A constant mcopy moves memory in every state if and only if none of its source words is at
  a calldata head offset. */
  lemma MoveExactly(c: Context, d: uint64, off: uint64, full: nat, rest: nat, x: string, t: Tracker)
    requires rest < 32 && full + rest > 0 && off + 32 * full < TWO_64
    ensures (forall w :: 0 <= w < full ==> off + 32 * w !in c.calldata) <==>
            forall s :: MovesMemory(c, Move(Lit(d), Lit(off), full, rest, x), t, s)
  {
    var stmt := Move(Lit(d), Lit(off), full, rest, x);
    if w :| 0 <= w < full && off + 32 * w in c.calldata {
      var size := d + off + Rounded(full, rest);
      var s := State(map p | p in c.calldata.Values :: 1, Zeros(size));
      TakesParameter(c, d, off, full, rest, x, t, s, w);
      assert !MovesMemory(c, stmt, t, s);
    } else {
      forall s
        ensures MovesMemory(c, stmt, t, s)
      {
        CopiesMemory(c, d, off, full, rest, x, t, s);
      }
    }
  }

  ghost predicate MovesMemory(c: Context, stmt: Stmt, t: Tracker, s: State) {
    ExecAll(c, 0, Translate(c, stmt, t, Nothing).code, s) == Exec(c, 0, stmt, s)
  }

  lemma ConstantWords(c: Context, off: uint64, k: nat, t: Tracker, w: nat)
    requires w < k && off + 32 * k < TWO_64
    ensures var e := LoadWords(c, Lit(off), k, t)[w];
            && ResolveOffset(AtOff(Lit(off), 32 * w), t) == Some(off + 32 * w)
            && OffsetFits(AtOff(Lit(off), 32 * w), t)
            && e == if off + 32 * w in c.calldata then Var(c.calldata[off + 32 * w]) else Mload(Lit(off + 32 * w))
  {
    SmallMod(off + 32 * w, TWO_64);
  }

  lemma CopiesMemory(c: Context, d: uint64, off: uint64, full: nat, rest: nat, x: string, t: Tracker, s: State)
    requires rest < 32 && full + rest > 0 && off + 32 * full < TWO_64
    requires forall w :: 0 <= w < full ==> off + 32 * w !in c.calldata
    ensures MovesMemory(c, Move(Lit(d), Lit(off), full, rest, x), t, s)
  {
    var stmt := Move(Lit(d), Lit(off), full, rest, x);
    forall w | 0 <= w < full
      ensures OffsetFits(AtOff(Lit(off), 32 * w), Blank()) && !ReadsCalldata(c, AtOff(Lit(off), 32 * w), Blank())
    {
      ConstantWords(c, off, full, Blank(), w);
    }
    assert LoadWordsFit(c, Lit(off), full, Blank());
    SameWords(c, off, full, t);
    LoadsReadFrom(c, Lit(off), full, Blank(), s, {});
    GathersSource(c, LoadWords(c, Lit(off), full, t), Mload(AtOff(Lit(off), 32 * full)), Some(off), rest, s);
    ConstantMove(c, d, off, full, rest, x, t, s);
  }

  /** What the two copies come to for constant offsets. */
  lemma ConstantMove(c: Context, d: uint64, off: uint64, full: nat, rest: nat, x: string, t: Tracker, s: State)
    ensures var stmt := Move(Lit(d), Lit(off), full, rest, x);
            var words := EvalAll(c, LoadWords(c, Lit(off), full, t), s);
            var tail := LastWord(c, Mload(AtOff(Lit(off), 32 * full)), rest, s);
            && ExecAll(c, 0, Translate(c, stmt, t, Nothing).code, s)
               == Put(Some(d), Gathered(words, tail, rest), full, rest, x, s)
            && Exec(c, 0, stmt, s) == Put(Some(d), Source(s.mem, Some(off), full, rest), full, rest, x, s)
  {
    var scatter :=
      Scatter(Lit(d), LoadWords(c, Lit(off), full, t), Mload(AtOff(Lit(off), 32 * full)), rest, x);
    assert Lower(c, Lit(d), t) == Lit(d) && Lower(c, Lit(off), t) == Lit(off);
    ExecOne(c, 0, scatter, s);
  }

  lemma {:induction false} EvalAllAt(c: Context, es: seq<Expr>, s: State, w: nat)
    requires EvalAll(c, es, s).Some? && w < |es|
    ensures var vals := EvalAll(c, es, s).value; |vals| == |es| && Some(vals[w]) == Eval(c, es[w], s)
  {
    if |es| > 1 {
      EvalAllAt(c, es[1..], s, if w == 0 then 0 else w - 1);
    }
  }

  /** Each word is its number. */
  lemma {:induction false} WordBytesAt(vals: seq<nat>, w: nat)
    requires w < |vals|
    ensures WordBytes(vals)[32 * w..32 * w + 32] == BigEndian(32, vals[w])
  {
    Skip(BigEndian(32, vals[0]), WordBytes(vals[1..]), w);
    if w > 0 {
      WordBytesAt(vals[1..], w - 1);
    }
  }

  lemma Skip(v: bytes, rest: bytes, w: nat)
    requires |v| == 32
    ensures w == 0 ==> (v + rest)[32 * w..32 * w + 32] == v
    ensures w > 0 && 32 * w <= |rest| ==>
              (v + rest)[32 * w..32 * w + 32] == rest[32 * (w - 1)..32 * (w - 1) + 32]
  {
  }

  /** Where parameters hold 1 and memory is zero, a word taken from calldata shows. */
  lemma TakesParameter(c: Context, d: uint64, off: uint64, full: nat, rest: nat, x: string, t: Tracker, s: State,
                       w: nat)
    requires rest < 32 && w < full && off + 32 * full < TWO_64 && off + 32 * w in c.calldata
    requires s.env == (map p | p in c.calldata.Values :: 1)
    requires s.mem == Zeros(d + off + Rounded(full, rest))
    ensures !MovesMemory(c, Move(Lit(d), Lit(off), full, rest, x), t, s)
  {
    var stmt := Move(Lit(d), Lit(off), full, rest, x);
    var es := LoadWords(c, Lit(off), full, t);
    ConstantMove(c, d, off, full, rest, x, t, s);
    ConstantWords(c, off, full, t, w);
    assert Eval(c, es[w], s) == Some(1);
    var words := EvalAll(c, es, s);
    var tail := LastWord(c, Mload(AtOff(Lit(off), 32 * full)), rest, s);
    if words.Some? {
      EvalAllAt(c, es, s, w);
      OneShows(s.mem, d, off, full, rest, words.value, tail, w, x, s);
    } else {
      assert Gathered(words, tail, rest) == None;
      SourceMoves(d, off, full, rest, x, s);
    }
  }

  lemma SourceMoves(d: nat, off: nat, full: nat, rest: nat, x: string, s: State)
    requires rest < 32 && d + off + Rounded(full, rest) <= |s.mem|
    ensures Put(Some(d), Source(s.mem, Some(off), full, rest), full, rest, x, s).Done?
  {
  }

  lemma OneShows(mem: bytes, d: nat, off: nat, full: nat, rest: nat, words: seq<nat>, tail: Option<nat>, w: nat,
                 x: string, s: State)
    requires rest < 32 && w < full && s.mem == mem == Zeros(d + off + Rounded(full, rest))
    requires |words| == full && words[w] == 1
    ensures Put(Some(d), Gathered(Some(words), tail, rest), full, rest, x, s)
         != Put(Some(d), Source(mem, Some(off), full, rest), full, rest, x, s)
  {
    if tail.Some? {
      var data, zero := Gathered(Some(words), tail, rest).value, Source(mem, Some(off), full, rest).value;
      NotZero(32);
      WordBytesAt(words, w);
      assert data[32 * w..32 * w + 32] == WordBytes(words)[32 * w..32 * w + 32];
      assert zero == Zeros(32 * full + rest);
      assert zero[32 * w..32 * w + 32] == Zeros(32);
      ReadOver(mem, d, data);
      ReadOver(mem, d, zero);
      assert Over(mem, d, data) != Over(mem, d, zero);
    }
  }

  lemma NotZero(z: nat)
    requires z > 0
    ensures BigEndian(z, 1) != Zeros(z)
  {
    Pow256Grows(1, z);
    NumberOfBigEndian(z, 1);
    NumberOfZeros(z);
  }

  /** mcopy(d, off, 0x20), at a calldata head offset, copies the parameter. */
  lemma CalldataMoveBreaks(c: Context, s: State, d: uint64, off: uint64, x: string)
    requires off in c.calldata && c.calldata[off] in s.env && off + 32 < TWO_64
    requires d + 32 <= |s.mem| && off + 32 <= |s.mem|
    ensures var stmt := Move(Lit(d), Lit(off), 1, 0, x);
            var r := Translate(c, stmt, Blank(), Nothing);
            var o, p := Exec(c, 0, stmt, s), ExecAll(c, 0, r.code, s);
            && !r.clean && o.Done? && p.Done?
            && o.s.mem == Over(s.mem, d, s.mem[off..off + 32])
            && p.s.mem == Over(s.mem, d, BigEndian(32, s.env[c.calldata[off]]))
  {
    var stmt, v := Move(Lit(d), Lit(off), 1, 0, x), s.env[c.calldata[off]];
    var es := LoadWords(c, Lit(off), 1, Blank());
    ConstantWords(c, off, 1, Blank(), 0);
    assert es[1..] == [] && EvalAll(c, es[1..], s) == Some([]);
    assert es[0] == Var(c.calldata[off]) && Eval(c, es[0], s) == Some(v);
    assert EvalAll(c, es, s) == Some([v] + []);
    assert [v] + [] == [v];
    OneWordBytes(v, 32);
    assert !LoadWordsFit(c, Lit(off), 1, Blank());
    ConstantMove(c, d, off, 1, 0, x, Blank(), s);
  }

  lemma OneWordBytes(v: nat, z: nat)
    requires z == 32
    ensures WordBytes([v]) == BigEndian(z, v) && WordBytes([v]) + BigEndian(z, 0)[..0] == BigEndian(z, v)
  {
    assert [v][1..] == [] && WordBytes([]) == [];
  }

  /** Constant offsets do not depend on the tracker. */
  lemma SameWords(c: Context, off: uint64, k: nat, t: Tracker)
    requires off + 32 * k < TWO_64
    ensures LoadWords(c, Lit(off), k, t) == LoadWords(c, Lit(off), k, Blank())
  {
    forall w | 0 <= w < k
      ensures LoadWords(c, Lit(off), k, t)[w] == LoadWords(c, Lit(off), k, Blank())[w]
    {
      ConstantWords(c, off, k, t, w);
      ConstantWords(c, off, k, Blank(), w);
    }
  }
}
