/** Compile-time knowledge of an offset modulo 32, and why it is right. */
module Alignment {
  import opened Bytes

  // ---- decimal literals -------------------------------------------------------------

  predicate IsDigit(c: char) { '0' <= c <= '9' }

  function Digit(c: char): nat
    requires IsDigit(c)
  {
    c as int - '0' as int
  }

  predicate IsDecimal(s: string) {
    s != [] && forall i :: 0 <= i < |s| ==> IsDigit(s[i])
  }

  /** The number that the first k digits spell. */
  function DecimalOfFirst(s: string, k: nat): nat
    requires k <= |s| && forall i :: 0 <= i < k ==> IsDigit(s[i])
  {
    if k == 0 then 0 else 10 * DecimalOfFirst(s, k - 1) + Digit(s[k - 1])
  }

  function Decimal(s: string): nat
    requires IsDecimal(s)
  {
    DecimalOfFirst(s, |s|)
  }

  /** `decimalMod32`: digit by digit, so that the width of the number never matters. */
  method DecimalMod32(s: string) returns (r: Option<nat>)
    ensures r == ResidueOf(s)
  {
    if s == [] { return None; }
    var acc := 0;
    for i := 0 to |s|
      invariant forall j :: 0 <= j < i ==> IsDigit(s[j])
      invariant acc == DecimalOfFirst(s, i) % 32
    {
      if !IsDigit(s[i]) { return None; }
      DigitStep(DecimalOfFirst(s, i), Digit(s[i]));
      acc := (acc * 10 + Digit(s[i])) % 32;
    }
    r := Some(acc);
  }

  lemma DigitStep(v: nat, d: nat)
    ensures (v % 32 * 10 + d) % 32 == (10 * v + d) % 32
  {
    AddMultiple(v % 32 * 10 + d, 10 * (v / 32));
    assert 10 * v + d == v % 32 * 10 + d + 32 * (10 * (v / 32));
  }

  lemma AddMultiple(a: nat, q: nat)
    ensures (a + 32 * q) % 32 == a % 32
  {
  }

  function ResidueOf(s: string): Option<nat> {
    if IsDecimal(s) then Some(Decimal(s) % 32) else None
  }

  // ---- offset expressions -----------------------------------------------------------

  datatype BigOp = BigAdd | BigSub | BigMul | BigMod | BigOther(f: (nat, nat) -> Option<nat>)
  datatype SmallOp = Add | Sub | Mul | Mod | Shl | Other(f: (nat, nat) -> Option<nat>)

  datatype Expr =
    | IntConst(digits: string)
    | SingleEval(source: Expr)
    | Cast(inner: Expr)
    | Var(name: string)
    | Big(bigOp: BigOp, left: Expr, right: Expr)       // unbounded (512-bit) integers
    | Small(op: SmallOp, left: Expr, right: Expr)      // 64-bit integers
    | Opaque(value: nat)

  /** The AVM's value of an expression, where it has one: no 64-bit operation wraps, and a
  subtraction below zero or a division by zero stops the program. */
  function Eval(e: Expr, env: map<string, nat>): Option<nat> {
    match e
    case IntConst(s) => if IsDecimal(s) then Some(Decimal(s)) else None
    case SingleEval(s) => Eval(s, env)
    case Cast(s) => Eval(s, env)
    case Var(x) => if x in env then Some(env[x]) else None
    case Opaque(v) => Some(v)
    case Big(op, l, r) =>
      var a :- Eval(l, env);
      var b :- Eval(r, env);
      ApplyBig(op, a, b)
    case Small(op, l, r) =>
      var a :- Eval(l, env);
      var b :- Eval(r, env);
      ApplySmall(op, a, b)
  }

  function ApplyBig(op: BigOp, a: nat, b: nat): Option<nat> {
    match op
    case BigAdd => Some(a + b)
    case BigSub => if a >= b then Some(a - b) else None
    case BigMul => Some(a * b)
    case BigMod => if b > 0 then Some(a % b) else None
    case BigOther(f) => f(a, b)
  }

  function ApplySmall(op: SmallOp, a: nat, b: nat): Option<nat> {
    match op
    case Add => if a + b < TWO_64 then Some(a + b) else None
    case Sub => if a >= b then Some(a - b) else None
    case Mul => if a * b < TWO_64 then Some(a * b) else None
    case Mod => if b > 0 then Some(a % b) else None
    case Shl => if b < 64 then Some(a * Pow2(b) % TWO_64) else None
    case Other(f) => f(a, b)
  }

  /** Compile-time facts: locals known to be 32-aligned, and locals with a known value. */
  datatype Facts = Facts(aligned: set<string>, constants: map<string, string>)

  predicate FactsHold(facts: Facts, env: map<string, nat>) {
    && (forall x :: x in facts.aligned && x in env ==> env[x] % 32 == 0)
    && (forall x :: x in facts.constants && x in env && IsDecimal(facts.constants[x]) ==>
          env[x] == Decimal(facts.constants[x]))
  }

  /** `alignmentMod32`. */
  function Residue(e: Expr, facts: Facts): Option<nat> {
    match e
    case IntConst(s) => ResidueOf(s)
    case SingleEval(s) => Residue(s, facts)
    case Cast(s) => Residue(s, facts)
    case Var(x) =>
      if x in facts.aligned then Some(0)
      else if x in facts.constants then ResidueOf(facts.constants[x])
      else None
    case Opaque(_) => None
    case Big(op, l, r) =>
      var a, b := Residue(l, facts), Residue(r, facts);
      (match op
       case BigAdd => SumResidue(a, b)
       case BigSub => DifferenceResidue(a, b)
       case BigMul => ProductResidue(a, b)
       case BigMod => if b == Some(0) then a else None
       case BigOther(_) => None)
    case Small(op, l, r) =>
      var a, b := Residue(l, facts), Residue(r, facts);
      (match op
       case Add => SumResidue(a, b)
       case Sub => DifferenceResidue(a, b)
       case Mul => ProductResidue(a, b)
       case Mod => if b == Some(0) then a else None
       case Shl =>
         if r.IntConst? && IsDecimal(r.digits) && |r.digits| <= 2 && Decimal(r.digits) >= 5
         then Some(0) else None
       case Other(_) => None)
  }

  function SumResidue(a: Option<nat>, b: Option<nat>): Option<nat> {
    if a.Some? && b.Some? then Some((a.value + b.value) % 32) else None
  }

  function DifferenceResidue(a: Option<nat>, b: Option<nat>): Option<nat> {
    if a.Some? && b.Some? then Some((a.value + 32 - b.value) % 32) else None
  }

  /** One aligned factor is enough. */
  function ProductResidue(a: Option<nat>, b: Option<nat>): Option<nat> {
    if a == Some(0) || b == Some(0) then Some(0) else None
  }

  /** r, if known, is v modulo 32. */
  predicate Knows(r: Option<nat>, v: nat) {
    r.Some? ==> r.value == v % 32
  }

  // ---- soundness --------------------------------------------------------------------

  lemma ModuloKeeps(a: int, m: nat)
    requires m > 0 && m % 32 == 0
    ensures a % m % 32 == a % 32
  {
    var k := m / 32;
    var q := a / m;
    assert m == 32 * k;
    assert a == q * m + a % m;
    assert q * m == 32 * (q * k);
  }

  lemma ProductAligned(a: nat, b: nat)
    requires a % 32 == 0
    ensures a * b % 32 == 0 && b * a % 32 == 0
  {
    assert a == 32 * (a / 32);
    assert a * b == 32 * (a / 32 * b);
  }

  lemma {:induction false} Pow2Aligned(k: nat)
    requires k >= 5
    ensures Pow2(k) % 32 == 0
  {
    if k == 5 {
      assert Pow2(2) == 4;
    } else {
      Pow2Aligned(k - 1);
    }
  }

  lemma SumKnown(x: Option<nat>, y: Option<nat>, a: nat, b: nat)
    requires Knows(x, a) && Knows(y, b)
    ensures Knows(SumResidue(x, y), a + b)
  {
    AddMultiple(a % 32 + b % 32, a / 32 + b / 32);
  }

  lemma DifferenceKnown(x: Option<nat>, y: Option<nat>, a: nat, b: nat)
    requires Knows(x, a) && Knows(y, b) && a >= b
    ensures Knows(DifferenceResidue(x, y), a - b)
  {
    if x.Some? && y.Some? {
      AddMultiple(a - b, b / 32 + 1);
      AddMultiple(a % 32 + 32 - b % 32, a / 32);
      assert a - b + 32 * (b / 32 + 1) == a % 32 + 32 - b % 32 + 32 * (a / 32);
    }
  }

  lemma ProductKnown(x: Option<nat>, y: Option<nat>, a: nat, b: nat)
    requires Knows(x, a) && Knows(y, b)
    ensures Knows(ProductResidue(x, y), a * b)
  {
    if x == Some(0) {
      ProductAligned(a, b);
    } else if y == Some(0) {
      ProductAligned(b, a);
    }
  }

  lemma ModuloKnown(x: Option<nat>, y: Option<nat>, a: nat, b: nat)
    requires Knows(x, a) && Knows(y, b) && b > 0
    ensures Knows(if y == Some(0) then x else None, a % b)
  {
    if y == Some(0) {
      ModuloKeeps(a, b);
    }
  }

  lemma ShiftKnown(a: nat, b: nat)
    requires b >= 5
    ensures a * Pow2(b) % TWO_64 % 32 == 0
  {
    Pow2Aligned(b);
    ProductAligned(Pow2(b), a);
    ModuloKeeps(a * Pow2(b), TWO_64);
  }

  lemma BigSound(e: Expr, facts: Facts, a: nat, b: nat)
    requires e.Big? && Knows(Residue(e.left, facts), a) && Knows(Residue(e.right, facts), b)
    requires ApplyBig(e.bigOp, a, b).Some?
    ensures Knows(Residue(e, facts), ApplyBig(e.bigOp, a, b).value)
  {
    var x, y := Residue(e.left, facts), Residue(e.right, facts);
    match e.bigOp
    case BigAdd => SumKnown(x, y, a, b);
    case BigSub => DifferenceKnown(x, y, a, b);
    case BigMul => ProductKnown(x, y, a, b);
    case BigMod => ModuloKnown(x, y, a, b);
    case BigOther(_) =>
  }

  lemma SmallSound(e: Expr, facts: Facts, a: nat, b: nat)
    requires e.Small? && Knows(Residue(e.left, facts), a) && Knows(Residue(e.right, facts), b)
    requires e.right.IntConst? && IsDecimal(e.right.digits) ==> b == Decimal(e.right.digits)
    requires ApplySmall(e.op, a, b).Some?
    ensures Knows(Residue(e, facts), ApplySmall(e.op, a, b).value)
  {
    var x, y := Residue(e.left, facts), Residue(e.right, facts);
    match e.op
    case Add => SumKnown(x, y, a, b);
    case Sub => DifferenceKnown(x, y, a, b);
    case Mul => ProductKnown(x, y, a, b);
    case Mod => ModuloKnown(x, y, a, b);
    case Shl =>
      if b >= 5 {
        ShiftKnown(a, b);
      }
    case Other(_) =>
  }

  /** SOUNDNESS. Whenever the analysis gives a residue and the expression has a value, the
  value has that residue; taking its low eight bytes, as every offset does, keeps it. */
  lemma {:induction false} ResidueIsSound(e: Expr, facts: Facts, env: map<string, nat>)
    requires FactsHold(facts, env) && Eval(e, env).Some? && Residue(e, facts).Some?
    ensures Eval(e, env).value % 32 == Residue(e, facts).value
    ensures Eval(e, env).value % TWO_64 % 32 == Residue(e, facts).value
  {
    ResidueKnown(e, facts, env);
    ModuloKeeps(Eval(e, env).value, TWO_64);
  }

  lemma {:induction false} ResidueKnown(e: Expr, facts: Facts, env: map<string, nat>)
    requires FactsHold(facts, env) && Eval(e, env).Some?
    ensures Knows(Residue(e, facts), Eval(e, env).value)
  {
    match e
    case SingleEval(s) => ResidueKnown(s, facts, env);
    case Cast(s) => ResidueKnown(s, facts, env);
    case Big(_, l, r) =>
      ResidueKnown(l, facts, env);
      ResidueKnown(r, facts, env);
      BigSound(e, facts, Eval(l, env).value, Eval(r, env).value);
    case Small(_, l, r) =>
      ResidueKnown(l, facts, env);
      ResidueKnown(r, facts, env);
      SmallSound(e, facts, Eval(l, env).value, Eval(r, env).value);
    case _ =>
  }
}
