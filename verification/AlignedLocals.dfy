/** The locals that declarations record as multiples of 32, over whole runs: what the translator
inserts and erases, in whatever order it visits declarations, is true at every step, so memory
accesses through such locals may drop their second-slot arm. */
module AlignedLocals {
  import opened Bytes
  import opened FlatMemory
  import opened ScratchMemory
  import opened FreeMemoryPointer
  import AlignedAccess
  import Alignment

  // ---- lowered values ---------------------------------------------------------------------

  /** The decimal spelling of a number. */
  function Spelling(n: nat): (s: string)
    ensures Alignment.IsDecimal(s) && Alignment.Decimal(s) == n
  {
    if n < 10 then
      var s := [DigitChar(n)];
      assert Alignment.DecimalOfFirst(s, 0) == 0 && Alignment.DecimalOfFirst(s, 1) == n;
      s
    else
      var s := Spelling(n / 10) + [DigitChar(n % 10)];
      SpellingGrows(Spelling(n / 10), DigitChar(n % 10));
      s
  }

  function DigitChar(d: nat): (c: char)
    requires d < 10
    ensures Alignment.IsDigit(c) && Alignment.Digit(c) == d
  {
    '0' + d as char
  }

  lemma SpellingGrows(s: string, c: char)
    requires Alignment.IsDecimal(s) && Alignment.IsDigit(c)
    ensures Alignment.IsDecimal(s + [c])
    ensures Alignment.Decimal(s + [c]) == 10 * Alignment.Decimal(s) + Alignment.Digit(c)
  {
    SamePrefix(s, s + [c], |s|);
  }

  lemma {:induction false} SamePrefix(s: string, t: string, k: nat)
    requires k <= |s| <= |t| && t[..k] == s[..k]
    requires forall i :: 0 <= i < k ==> Alignment.IsDigit(s[i]) && Alignment.IsDigit(t[i])
    ensures Alignment.DecimalOfFirst(s, k) == Alignment.DecimalOfFirst(t, k)
  {
    if k > 0 {
      assert t[..k][k - 1] == s[..k][k - 1];
      assert t[..k - 1] == t[..k][..k - 1] && s[..k - 1] == s[..k][..k - 1];
      SamePrefix(s, t, k - 1);
    }
  }

  function Wrapped(e: Alignment.Expr, modulus: string): Alignment.Expr {
    Alignment.Big(Alignment.BigMod, e, Alignment.IntConst(modulus))
  }

  /** The unbounded-integer form of a Yul expression; the modulus is 2^256. Reads other than of variables, bitwise
  operations and guarded division are opaque; `read` gives their values. */
  function Lowered(e: YExpr, modulus: string, read: YExpr -> nat): Alignment.Expr {
    match e
    case Literal(n) => Alignment.IntConst(Spelling(n))
    case TextLiteral => Alignment.Opaque(read(e))
    case Ident(x) => Alignment.Var(x)
    case Call(fn, args) =>
      if |args| != 2 then Alignment.Opaque(read(e)) else
      var l, r := Lowered(args[0], modulus, read), Lowered(args[1], modulus, read);
      if fn == "add" then Wrapped(Alignment.Big(Alignment.BigAdd, l, r), modulus)
      else if fn == "mul" then Wrapped(Alignment.Big(Alignment.BigMul, l, r), modulus)
      else if fn == "sub" then
        var raised := Alignment.Big(Alignment.BigAdd, l, Alignment.IntConst(modulus));
        Wrapped(Alignment.Big(Alignment.BigSub, raised, r), modulus)
      else if fn == "mod" && args[1].Literal? && args[1].n != 0 then
        Alignment.Big(Alignment.BigMod, l, r)
      else Alignment.Opaque(read(e))
  }

  /** The modulus is a multiple of 32. */
  predicate Whole(modulus: string) {
    Alignment.ResidueOf(modulus) == Some(0)
  }

  /** A residue of the lowered value is that of every value the expression may have. */
  lemma {:induction false} LoweredIsSound(e: YExpr, h: seq<State>, v: nat, facts: Alignment.Facts,
                                          modulus: string, read: YExpr -> nat)
    requires Whole(modulus) && MayRead(e, h, v) && forall i :: 0 <= i < |h| ==> Alignment.FactsHold(facts, h[i].env)
    ensures Alignment.Knows(Alignment.Residue(Lowered(e, modulus, read), facts), v)
  {
    match e
    case Call(fn, args) =>
      if |args| == 2 && IsArithmetic(e) {
        var a, b :| MayRead(args[0], h, a) && MayRead(args[1], h, b) && v == Apply(fn, a, b);
        LoweredIsSound(args[0], h, a, facts, modulus, read);
        LoweredIsSound(args[1], h, b, facts, modulus, read);
        LoweredCall(fn, args, a, b, facts, modulus, read);
      }
    case _ =>
  }

  lemma LoweredCall(fn: string, args: seq<YExpr>, a: nat, b: nat, facts: Alignment.Facts,
                    modulus: string, read: YExpr -> nat)
    requires Whole(modulus) && |args| == 2 && fn in {"add", "sub", "mul", "mod", "and"}
    requires Alignment.Knows(Alignment.Residue(Lowered(args[0], modulus, read), facts), a)
    requires Alignment.Knows(Alignment.Residue(Lowered(args[1], modulus, read), facts), b)
    requires args[1].Literal? ==> b == args[1].n
    ensures Alignment.Knows(Alignment.Residue(Lowered(Call(fn, args), modulus, read), facts), Apply(fn, a, b))
  {
    var l, r := Lowered(args[0], modulus, read), Lowered(args[1], modulus, read);
    var x, y := Alignment.Residue(l, facts), Alignment.Residue(r, facts);
    ApplyKnown(fn, x, y, a, b);
    if fn == "mod" {
      if b > 0 {
        Alignment.ModuloKnown(x, y, a, b);
      }
    } else {
      ArithmeticResidue(fn, args, facts, modulus, read, a);
    }
  }

  /** Lowered arithmetic has the residue that the analysis of the Yul form would give. */
  lemma ArithmeticResidue(fn: string, args: seq<YExpr>, facts: Alignment.Facts,
                          modulus: string, read: YExpr -> nat, a: nat)
    requires Whole(modulus) && |args| == 2
    requires Alignment.Knows(Alignment.Residue(Lowered(args[0], modulus, read), facts), a)
    ensures var x := Alignment.Residue(Lowered(args[0], modulus, read), facts);
            var y := Alignment.Residue(Lowered(args[1], modulus, read), facts);
            var z := Alignment.Residue(Lowered(Call(fn, args), modulus, read), facts);
            && (fn == "add" ==> z == Alignment.SumResidue(x, y))
            && (fn == "sub" ==> z == Alignment.DifferenceResidue(x, y))
            && (fn == "mul" ==> z == Alignment.ProductResidue(x, y))
            && (fn == "and" ==> z == None)
  {
    var l, sum := Lowered(args[0], modulus, read), Alignment.IntConst(modulus);
    assert Alignment.Residue(Alignment.Big(Alignment.BigAdd, l, sum), facts) == Alignment.Residue(l, facts);
  }

  // ---- the record of aligned locals -------------------------------------------------------

  /** What is fixed before the declarations are visited: the facts known beforehand, whether
  the block's pointer stores were accepted, and the decimal spelling of 2^256. */
  datatype Setting = Setting(known: Known, accepted: bool, modulus: string) {
    function Facts(aligned: set<string>): Alignment.Facts {
      Alignment.Facts(aligned, known.constants)
    }

    function Residue(value: YExpr, aligned: set<string>): Option<nat> {
      Alignment.Residue(Lowered(value, modulus, _ => 0), Facts(aligned))
    }
  }

  ghost predicate Fits(c: Setting, ss: seq<YStmt>) {
    && Alignment.IsDecimal(c.modulus) && Alignment.Decimal(c.modulus) == TWO_256
    && Disambiguated(ss, c.known) && (c.accepted ==> Accepts(ss, c.known))
  }

  lemma FitsIsWhole(c: Setting, ss: seq<YStmt>)
    requires Fits(c, ss)
    ensures Whole(c.modulus)
  {
    PowerAligned(32);
  }

  /** A declaration without a value, which is then zero, or of one name with a value that is
  aligned given the locals recorded so far, or the free-memory pointer of an accepted block. */
  predicate IsAligned(c: Setting, d: YStmt, aligned: set<string>) {
    && d.Declare?
    && (d.value.Some? ==>
          && |d.names| == 1
          && (c.Residue(d.value.value, aligned) == Some(0) || (c.accepted && IsFmpLoad(d.value.value))))
  }

  /** The declared names that are recorded: those never assigned again. */
  function Recordable(c: Setting, d: YStmt, aligned: set<string>): set<string> {
    if IsAligned(c, d, aligned) then set x | x in d.names && x !in c.known.reassigned else {}
  }

  function Recorded(c: Setting, d: YStmt, aligned: set<string>): set<string> {
    if !d.Declare? then aligned
    else (aligned - set x | x in d.names) + Recordable(c, d, aligned)
  }

  /** The runs in question: of a prepared block, with constants as known and, if the block was
  accepted, no disturbance of the pointer. */
  ghost predicate Proper(c: Setting, ss: seq<YStmt>, h: seq<State>) {
    && IsRun(ss, h) && (forall i :: 0 <= i < |h| ==> Consistent(h[i], c.known))
    && (c.accepted ==> OthersAlign(ss, h))
  }

  /** The recorded locals are multiples of 32 throughout the run. */
  ghost predicate HoldThroughout(c: Setting, aligned: set<string>, h: seq<State>) {
    forall i :: 0 <= i < |h| ==> Alignment.FactsHold(c.Facts(aligned), h[i].env)
  }

  /** Recording one more declaration keeps the record right over the whole run. */
  lemma RecordSound(c: Setting, ss: seq<YStmt>, d: YStmt, aligned: set<string>, h: seq<State>)
    requires Fits(c, ss) && Proper(c, ss, h) && d in Within(ss) && HoldThroughout(c, aligned, h)
    ensures HoldThroughout(c, Recorded(c, d, aligned), h)
  {
    if c.accepted {
      PointerStaysAligned(ss, c.known, h);
    }
    FitsIsWhole(c, ss);
    forall i, x | 0 <= i < |h| && x in Recordable(c, d, aligned)
      ensures x in h[i].env ==> h[i].env[x] % 32 == 0
    {
      BoundAligned(c, ss, d, aligned, h, i, x);
    }
  }

  /** The only statement that gives the name a value is its declaration. */
  lemma {:induction false} BoundAligned(c: Setting, ss: seq<YStmt>, d: YStmt, aligned: set<string>,
                                        h: seq<State>, i: nat, x: string)
    requires Whole(c.modulus) && Disambiguated(ss, c.known) && IsRun(ss, h) && i < |h|
    requires d in Within(ss) && HoldThroughout(c, aligned, h) && x in Recordable(c, d, aligned)
    requires c.accepted ==> forall j :: 0 <= j < |h| ==> h[j].fmp % 32 == 0
    ensures x in h[i].env ==> h[i].env[x] % 32 == 0
  {
    if i == 0 {
      assert x in Binds(d);
    } else {
      BoundAligned(c, ss, d, aligned, h, i - 1, x);
      NextAligned(c, ss, d, aligned, h[..i], h[i], x);
    }
  }

  lemma NextAligned(c: Setting, ss: seq<YStmt>, d: YStmt, aligned: set<string>, h: seq<State>, t: State, x: string)
    requires Whole(c.modulus) && Disambiguated(ss, c.known) && d in Within(ss) && x in Recordable(c, d, aligned)
    requires |h| > 0 && StepFrom(ss, h, t) && HoldThroughout(c, aligned, h)
    requires c.accepted ==> forall j :: 0 <= j < |h| ==> h[j].fmp % 32 == 0
    requires x in h[|h| - 1].env ==> h[|h| - 1].env[x] % 32 == 0
    ensures x in t.env ==> t.env[x] % 32 == 0
  {
    var stmt :| stmt in Within(ss) && Effect(stmt, h, t);
    assert x in Binds(d);
    if x in t.env {
      if x in Binds(stmt) {
        assert stmt == d;
        BindingAligned(c, d, aligned, h, t, x);
      } else {
        KeptName(ss, c.known, stmt, h, t, x);
      }
    }
  }

  /** A statement that does not bind a name that is never assigned keeps it. */
  lemma KeptName(ss: seq<YStmt>, known: Known, stmt: YStmt, h: seq<State>, t: State, x: string)
    requires Disambiguated(ss, known) && stmt in Within(ss) && |h| > 0 && Effect(stmt, h, t)
    requires x !in Binds(stmt) && x !in known.reassigned && x in t.env
    ensures x in h[|h| - 1].env && h[|h| - 1].env[x] == t.env[x]
  {
  }

  /** The declaration itself binds a multiple of 32. */
  lemma BindingAligned(c: Setting, d: YStmt, aligned: set<string>, h: seq<State>, t: State, x: string)
    requires Whole(c.modulus) && x in Recordable(c, d, aligned) && |h| > 0 && Effect(d, h, t) && x in t.env
    requires HoldThroughout(c, aligned, h)
    requires c.accepted ==> forall j :: 0 <= j < |h| ==> h[j].fmp % 32 == 0
    ensures t.env[x] % 32 == 0
  {
    if d.value.Some? {
      var v :| MayRead(d.value.value, h, v) && t.env == h[|h| - 1].env[d.names[0] := v];
      ValueAligned(c, d, aligned, h, v);
    }
  }

  lemma ValueAligned(c: Setting, d: YStmt, aligned: set<string>, h: seq<State>, v: nat)
    requires Whole(c.modulus) && IsAligned(c, d, aligned) && d.value.Some? && MayRead(d.value.value, h, v)
    requires HoldThroughout(c, aligned, h)
    requires c.accepted ==> forall j :: 0 <= j < |h| ==> h[j].fmp % 32 == 0
    ensures v % 32 == 0
  {
    if c.Residue(d.value.value, aligned) == Some(0) {
      LoweredIsSound(d.value.value, h, v, c.Facts(aligned), c.modulus, _ => 0);
    }
  }

  /** The translator's record after visiting declarations ds, in any order and any number of
  times: `m_alignedLocals` with its insertions and erasures. It holds in every run. */
  method RecordAll(c: Setting, ss: seq<YStmt>, ds: seq<YStmt>) returns (aligned: set<string>)
    requires Fits(c, ss) && forall k :: 0 <= k < |ds| ==> ds[k] in Within(ss)
    ensures aligned == Record(c, ds)
    ensures forall h :: Proper(c, ss, h) ==> HoldThroughout(c, aligned, h)
  {
    aligned := {};
    for k := 0 to |ds|
      invariant aligned == Record(c, ds[..k])
      invariant forall h :: Proper(c, ss, h) ==> HoldThroughout(c, aligned, h)
    {
      forall h | Proper(c, ss, h)
        ensures HoldThroughout(c, Recorded(c, ds[k], aligned), h)
      {
        RecordSound(c, ss, ds[k], aligned, h);
      }
      assert ds[..k + 1][..k] == ds[..k];
      if ds[k].Declare? {
        aligned := Visit(c, ds[k], aligned);
      }
    }
    assert ds[..|ds|] == ds;
  }

  /** The loop over the declared names: each is inserted or erased. */
  method Visit(c: Setting, d: YStmt, aligned: set<string>) returns (r: set<string>)
    requires d.Declare?
    ensures r == Recorded(c, d, aligned)
  {
    r := aligned;
    var isAligned := IsAligned(c, d, aligned);
    for k := 0 to |d.names|
      invariant r == (aligned - set x | x in d.names[..k])
                     + (if isAligned then set x | x in d.names[..k] && x !in c.known.reassigned else {})
    {
      var x := d.names[k];
      assert forall y :: y in d.names[..k + 1] <==> y in d.names[..k] || y == x;
      if isAligned && x !in c.known.reassigned {
        r := r + {x};
      } else {
        r := r - {x};
      }
    }
    assert d.names[..|d.names|] == d.names;
  }

  function Record(c: Setting, ds: seq<YStmt>): set<string> {
    if |ds| == 0 then {} else Recorded(c, ds[|ds| - 1], Record(c, ds[..|ds| - 1]))
  }

  /** ELISION OVER RUNS. The analysis of the block, the record made at its declarations and a
  word read without the arm that the record excludes: at every step of every run of the block
  this is the general read. */
  method ReadInRun(m: Scratch, e: Alignment.Expr, c: Setting, ss: seq<YStmt>, ds: seq<YStmt>,
                   ghost h: seq<State>, ghost i: nat, env: map<string, nat>)
    returns (r: Option<bytes>)
    requires m.Valid() && Fits(c, ss) && forall k :: 0 <= k < |ds| ==> ds[k] in Within(ss)
    requires Proper(c, ss, h) && i < |h| && env == h[i].env && Alignment.Eval(e, env).Some?
    ensures r.Some? <==> AlignedAccess.Offset(e, env) + 32 <= m.Capacity()
    ensures r.Some? ==>
              r.value == m.Memory()[AlignedAccess.Offset(e, env)..AlignedAccess.Offset(e, env) + 32]
  {
    var aligned := RecordAll(c, ss, ds);
    assert HoldThroughout(c, aligned, h);
    r := AlignedAccess.ReadWordAt(m, e, c.Facts(aligned), env);
  }

  /** The same for writes. */
  method WriteInRun(m: Scratch, e: Alignment.Expr, v: bytes, c: Setting, ss: seq<YStmt>, ds: seq<YStmt>,
                    ghost h: seq<State>, ghost i: nat, env: map<string, nat>)
    returns (ok: bool)
    requires m.Valid() && |v| == 32 && Fits(c, ss) && forall k :: 0 <= k < |ds| ==> ds[k] in Within(ss)
    requires Proper(c, ss, h) && i < |h| && env == h[i].env && Alignment.Eval(e, env).Some?
    modifies m.slots
    ensures m.Valid() && m.Others() == old(m.Others())
    ensures ok <==> AlignedAccess.Offset(e, env) + 32 <= m.Capacity()
    ensures m.Memory() ==
              if ok then Over(old(m.Memory()), AlignedAccess.Offset(e, env), v) else old(m.Memory())
  {
    var aligned := RecordAll(c, ss, ds);
    assert HoldThroughout(c, aligned, h);
    ok := AlignedAccess.WriteWordAt(m, e, c.Facts(aligned), env, v);
  }
}
