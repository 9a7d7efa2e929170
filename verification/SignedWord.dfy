/** Signed 256-bit operations: arithmetic shift, division, remainder and sign extension, built
from unsigned ones. The EVM side reads words in two's complement. */
module SignedWord {
  import opened Bytes
  import opened Word256

  const HALF: nat := Pow2(BITS - 1)

  // ---- the EVM -----------------------------------------------------------------------------

  /** The integer that a word denotes in two's complement. */
  function Signed(a: nat): int {
    if 2 * a >= MODULUS then a - MODULUS else a
  }

  /** The word that represents v. */
  function ToWord(v: int): (r: nat)
    ensures IsWord(r)
  {
    v % MODULUS
  }

  lemma ToWordIs(v: int, k: int, r: nat)
    requires v == k * MODULUS + r && IsWord(r)
    ensures ToWord(v) == r
  {
    ModIs(v, MODULUS, k, r);
  }

  /** Arithmetic shift right: division of the signed value, rounding down; a shift of 256 or
  more leaves only the sign. */
  function EvmSar(s: nat, x: nat): nat {
    ToWord(if s < BITS then Signed(x) / Pow2(s) else if Signed(x) < 0 then -1 else 0)
  }

  function Magnitude(x: int): nat { if x < 0 then 0 - x else x }

  /** The quotient rounded toward zero; 0 when there is none. */
  function Truncated(x: int, y: int): int {
    if y == 0 then 0 else
    var q: int := Quotient(Magnitude(x), Magnitude(y));
    if (x < 0) != (y < 0) then 0 - q else q
  }

  /** What the truncated quotient leaves. */
  function Left(x: int, y: int): int {
    if y == 0 then 0 else x - Truncated(x, y) * y
  }

  function EvmSdiv(a: nat, b: nat): nat { ToWord(Truncated(Signed(a), Signed(b))) }
  function EvmSmod(a: nat, b: nat): nat { ToWord(Left(Signed(a), Signed(b))) }

  /** The low 8b + 8 bits of x, with their top bit repeated above them. */
  function EvmSignExtend(b: nat, x: nat): nat {
    if b >= 31 then x else Extended(8 * b + 8, x)
  }

  function Extended(n: nat, x: nat): nat {
    var low := x % Pow2(n);
    if 2 * low >= Pow2(n) then low + Rest(MODULUS, Pow2(n)) else low
  }

  function Rest(m: nat, q: nat): nat { if m >= q then m - q else 0 }

  // ---- lowered operations --------------------------------------------------------------------

  /** `isNegative256`: the sign bit is set. */
  predicate Negative(a: nat) { a >= HALF }

  /** `negate256`: (2^256 - 1 - v + 1) mod 2^256. */
  function Negate(v: nat): Option<nat> {
    var down :- BigSub(MODULUS - 1, v);
    Wrap(BigAdd(down, 1))
  }

  function Absolute(a: nat): Option<nat> {
    if Negative(a) then Negate(a) else Some(a)
  }

  function Sdiv(a: nat, b: nat): Option<nat> {
    if b == 0 then Some(0) else
    var x :- Absolute(a);
    var y :- Absolute(b);
    var q :- BigDiv(x, y);
    if Negative(a) != Negative(b) then Negate(q) else Some(q)
  }

  function Smod(a: nat, b: nat): Option<nat> {
    if b == 0 then Some(0) else
    var x :- Absolute(a);
    var y :- Absolute(b);
    var r :- BigMod(x, y);
    if Negative(a) then Negate(r) else Some(r)
  }

  /** Bitwise disjunction. */
  function BitOr(a: nat, b: nat): nat {
    if a == 0 then b else if b == 0 then a
    else 2 * BitOr(a / 2, b / 2) + (if a % 2 == 1 || b % 2 == 1 then 1 else 0)
  }

  /** `handleSar`: shift, and for a negative value set the `s` top bits, which are what
  2^256 - 1 loses when it is shifted. */
  function Sar(s: nat, x: nat): Option<nat> {
    var v :- BigMod(x, MODULUS);
    var shifted :- Shr(s, v);
    if !Negative(v) then Some(shifted) else
    var most :- Shr(s, MODULUS - 1);
    var fill :- BigSub(MODULUS - 1, most);
    Some(BitOr(shifted, fill))
  }

  // ---- the arithmetic shift -------------------------------------------------------------------

  lemma NegativeIsSigned(a: nat)
    requires IsWord(a)
    ensures Negative(a) <==> Signed(a) < 0
  {
    assert MODULUS == 2 * HALF;
  }

  /** Numbers without a common bit: their disjunction is their sum. */
  lemma {:induction false} OrDisjoint(a: nat, c: nat, k: nat)
    requires a < Pow2(k)
    ensures BitOr(a, c * Pow2(k)) == a + c * Pow2(k)
  {
    if k > 0 && a > 0 && c > 0 {
      var b := c * Pow2(k - 1);
      assert c * Pow2(k) == 2 * b;
      OrDisjoint(a / 2, c, k - 1);
      HalfOr(a, b);
    }
  }

  lemma HalfOr(a: nat, b: nat)
    ensures BitOr(a, 2 * b) == if a == 0 then 2 * b else if b == 0 then a else 2 * BitOr(a / 2, b) + a % 2
  {
    assert 2 * b / 2 == b;
  }

  lemma QuotientBelow(x: nat, p: nat, q: nat)
    requires p > 0 && x < q * p
    ensures Quotient(x, p) < q
  {
    var k := x / p;
    assert x == k * p + x % p;
    if k >= q {
      TimesMonotone(q, k, p);
    }
  }

  lemma TimesMonotone(a: int, b: int, p: nat)
    requires a <= b
    ensures a * p <= b * p
  {
  }

  /** (qp - 1) / p == q - 1, and (x - qp) / p == x / p - q. */
  lemma MostShifted(p: nat, q: nat)
    requires p > 0 && q > 0
    ensures q * p >= 1 && Quotient(q * p - 1, p) == q - 1
  {
    assert q * p - 1 == (q - 1) * p + (p - 1);
    TimesMonotone(1, q, p);
    QuotientIs(q * p - 1, p, q - 1, p - 1);
  }

  lemma DivShifts(x: nat, p: nat, q: nat)
    requires p > 0
    ensures (x - q * p) / p == x / p - q
  {
    var k, r := x / p, x % p;
    assert x == k * p + r;
    DifferenceTimes(k, q, p);
    FloorIs(x - q * p, p, k - q, r);
  }

  lemma FloorIs(v: int, m: nat, k: int, r: nat)
    requires m > 0 && v == k * m + r && r < m
    ensures v / m == k
  {
    var q := v / m;
    assert v == q * m + v % m;
    assert (k - q) * m == v % m - r;
    NoMultiple(k - q, m);
  }

  lemma SarParts(s: nat, x: nat, q: nat)
    requires s < BITS && IsWord(x) && q == Pow2(BITS - s)
    ensures MODULUS == q * Pow2(s)
    ensures Shr(s, x) == Some(Quotient(x, Pow2(s))) && Quotient(x, Pow2(s)) < q
    ensures Shr(s, MODULUS - 1) == Some(q - 1)
  {
    Pow2Sum(BITS - s, s);
    ShiftsLowered(s, x);
    QuotientBelow(x, Pow2(s), q);
    MostParts(s, q);
  }

  lemma MostParts(s: nat, q: nat)
    requires s < BITS && MODULUS == q * Pow2(s) && q > 0
    ensures Shr(s, MODULUS - 1) == Some(q - 1)
  {
    ShiftsLowered(s, MODULUS - 1);
    MostShifted(Pow2(s), q);
  }

  /** The sign bits go above the shifted value. */
  lemma FillOr(y: nat, p: nat, q: nat, k: nat)
    requires p > 0 && q == Pow2(k) && y < q
    ensures q <= q * p && BitOr(y, q * p - q) == y + (q * p - q)
  {
    OrDisjoint(y, p - 1, k);
    assert (p - 1) * q == q * p - q;
    AtLeast(q, p);
  }

  lemma SarNegative(s: nat, x: nat, q: nat)
    requires s < BITS && IsWord(x) && Negative(x) && q == Pow2(BITS - s)
    ensures MODULUS == q * Pow2(s) && q <= MODULUS && Quotient(x, Pow2(s)) < q
    ensures Sar(s, x) == Some(Quotient(x, Pow2(s)) + (MODULUS - q))
  {
    SarParts(s, x, q);
    FillOr(Quotient(x, Pow2(s)), Pow2(s), q, BITS - s);
    SarFills(s, x, Quotient(x, Pow2(s)), q);
  }

  lemma SarFills(s: nat, x: nat, y: nat, q: nat)
    requires IsWord(x) && Negative(x) && 1 <= q <= MODULUS
    requires Shr(s, x) == Some(y) && Shr(s, MODULUS - 1) == Some(q - 1)
    ensures Sar(s, x) == Some(BitOr(y, MODULUS - q))
  {
    SmallMod(x, MODULUS);
  }

  lemma EvmSarNegative(s: nat, x: nat, q: nat)
    requires s < BITS && IsWord(x) && Signed(x) < 0 && MODULUS == q * Pow2(s) && q <= MODULUS
    requires Quotient(x, Pow2(s)) < q
    ensures EvmSar(s, x) == Quotient(x, Pow2(s)) + (MODULUS - q)
  {
    DivShifts(x, Pow2(s), q);
    ToWordIs(Quotient(x, Pow2(s)) - q, -1, Quotient(x, Pow2(s)) + (MODULUS - q));
  }

  lemma SarPositive(s: nat, x: nat)
    requires s < BITS && IsWord(x) && Signed(x) >= 0
    ensures EvmSar(s, x) == Quotient(x, Pow2(s))
  {
    SmallQuotient(x, Pow2(s));
    ToWordIs(Quotient(x, Pow2(s)), 0, Quotient(x, Pow2(s)));
  }

  lemma SarFar(s: nat, x: nat)
    requires s >= BITS && IsWord(x)
    ensures Sar(s, x) == Some(EvmSar(s, x))
  {
    NegativeIsSigned(x);
    SmallMod(x, MODULUS);
    ShiftsLowered(s, x);
    ShiftsLowered(s, MODULUS - 1);
    ToWordIs(-1, -1, MODULUS - 1);
    ToWordIs(0, 0, 0);
  }

  /** ARITHMETIC SHIFT. For every amount and every word, the emitted code computes sar. */
  lemma SarLowered(s: nat, x: nat)
    requires IsWord(x)
    ensures Sar(s, x) == Some(EvmSar(s, x))
  {
    NegativeIsSigned(x);
    if s >= BITS {
      SarFar(s, x);
    } else if Negative(x) {
      SarNegative(s, x, Pow2(BITS - s));
      EvmSarNegative(s, x, Pow2(BITS - s));
    } else {
      SmallMod(x, MODULUS);
      ShiftsLowered(s, x);
      SarPositive(s, x);
    }
  }

  lemma SmallQuotient(x: nat, p: nat)
    requires p > 0
    ensures Quotient(x, p) <= x
  {
    assert x == x / p * p + x % p;
    AtLeast(Quotient(x, p), p);
  }

  // ---- division and remainder -----------------------------------------------------------------

  lemma NegateIs(v: nat)
    requires IsWord(v)
    ensures Negate(v) == Some(ToWord(0 - v))
  {
    OneIsWord();
    SumBounded(MODULUS - 1 - v, 1);
    if v == 0 {
      ToWordIs(MODULUS, 1, 0);
      ToWordIs(0, 0, 0);
    } else {
      SmallMod(MODULUS - v, MODULUS);
      ToWordIs(0 - v, -1, MODULUS - v);
    }
  }

  lemma TwoHalves()
    ensures MODULUS == HALF + HALF && HALF > 0
  {
    assert MODULUS == 2 * Pow2(BITS - 1);
  }

  /** The magnitude of a word, at most 2^255. */
  lemma AbsoluteIs(a: nat)
    requires IsWord(a)
    ensures Absolute(a) == Some(Magnitude(Signed(a))) && Magnitude(Signed(a)) <= HALF
  {
    NegativeIsSigned(a);
    TwoHalves();
    if Negative(a) {
      NegateIs(a);
      ToWordIs(0 - a, -1, MODULUS - a);
    }
  }

  /** v with a sign. */
  function WithSign(v: nat, negative: bool): int { if negative then 0 - v else v }

  /** What the emitted code makes of a magnitude v <= 2^255 with a sign. */
  lemma WithSignIs(v: nat, negative: bool)
    requires v <= HALF
    ensures (if negative then Negate(v) else Some(v)) == Some(ToWord(WithSign(v, negative)))
  {
    TwoHalves();
    if negative {
      NegateIs(v);
    } else {
      ToWordIs(v, 0, v);
    }
  }

  lemma SignedZero(b: nat)
    requires IsWord(b)
    ensures Signed(b) == 0 <==> b == 0
  {
    TwoHalves();
  }

  /** SIGNED DIVISION. On all words, also for a zero quotient with a negative sign and for
  -2^255 / -1, where no step underflows or exceeds 512 bits. */
  lemma SdivLowered(a: nat, b: nat)
    requires IsWord(a) && IsWord(b)
    ensures Sdiv(a, b) == Some(EvmSdiv(a, b))
  {
    SignedZero(b);
    if b == 0 {
      ToWordIs(0, 0, 0);
    } else {
      AbsoluteIs(a);
      AbsoluteIs(b);
      NegativeIsSigned(a);
      NegativeIsSigned(b);
      SmallQuotient(Magnitude(Signed(a)), Magnitude(Signed(b)));
      WithSignIs(Quotient(Magnitude(Signed(a)), Magnitude(Signed(b))), Negative(a) != Negative(b));
    }
  }

  lemma SmodLowered(a: nat, b: nat)
    requires IsWord(a) && IsWord(b)
    ensures Smod(a, b) == Some(EvmSmod(a, b))
  {
    SignedZero(b);
    if b == 0 {
      ToWordIs(0, 0, 0);
    } else {
      AbsoluteIs(a);
      AbsoluteIs(b);
      NegativeIsSigned(a);
      TruncatedLeaves(Signed(a), Signed(b));
      SmallRemainder(Magnitude(Signed(a)), Magnitude(Signed(b)));
      WithSignIs(Magnitude(Signed(a)) % Magnitude(Signed(b)), Negative(a));
    }
  }

  lemma SmallRemainder(x: nat, y: nat)
    requires y > 0
    ensures 0 <= x % y <= x
  {
    if x < y {
      SmallMod(x, y);
    }
  }

  /** The truncated quotient leaves less than the divisor, with the sign of the dividend. */
  lemma TruncatedLeaves(x: int, y: int)
    requires y != 0
    ensures Left(x, y) == WithSign(Magnitude(x) % Magnitude(y), x < 0)
    ensures Magnitude(Left(x, y)) < Magnitude(y)
  {
    var m, d := Magnitude(x), Magnitude(y);
    var q := Quotient(m, d);
    assert m == q * d + m % d;
    Signs(q, d);
  }

  lemma Signs(q: int, d: int)
    ensures (-q) * d == -(q * d) && q * (-d) == -(q * d) && (-q) * (-d) == q * d
  {
  }

  // ---- sign extension --------------------------------------------------------------------

  /** The shift amount: 248 - 8 * min(b, 31). */
  function Amount(b: nat): nat {
    248 - 8 * (if b < 31 then b else 31)
  }

  /** `handleSignextend`: a literal b of 31 or more is dropped, if it parses as a 64-bit number;
  otherwise, and for a run-time b, shift left and then arithmetically right. */
  function SignExtend(b: nat, x: nat, literal: bool): Option<nat> {
    if literal && b >= TWO_64 then None else
    if literal && b >= 31 then Some(x) else
    var shifted :- Shl(Amount(b), x);
    Sar(Amount(b), shifted)
  }

  /** Shifting left by p keeps the low part of x. */
  lemma ShlKeepsLow(x: nat, p: nat, q: nat, m: nat)
    requires p > 0 && q > 0 && m == q * p
    ensures x * p % m == (x % q) * p
  {
    var k, y := x / q, x % q;
    assert x * p == (k * q + y) * p == k * (q * p) + y * p;
    LessTimes(y, q, p);
    ModIs(x * p, m, k, y * p);
  }

  lemma LessTimes(y: nat, q: nat, p: nat)
    requires y < q && p > 0
    ensures y * p < q * p
  {
  }

  lemma DifferenceTimes(y: int, q: int, p: int)
    ensures y * p - q * p == (y - q) * p
  {
  }

  lemma HalfTimes(y: nat, q: nat, p: nat)
    requires p > 0
    ensures 2 * (y * p) >= q * p <==> 2 * y >= q
  {
    if 2 * y < q {
      LessTimes(2 * y, q, p);
    }
  }

  lemma SarExact(s: nat, x: nat, t: int)
    requires s < BITS && Signed(x) == t * Pow2(s)
    ensures EvmSar(s, x) == ToWord(t)
  {
    DivExact(t, Pow2(s));
  }

  lemma SarOfShifted(y: nat, s: nat, q: nat)
    requires s < BITS && MODULUS == q * Pow2(s) && y < q
    ensures EvmSar(s, y * Pow2(s)) == if 2 * y >= q then y + Rest(MODULUS, q) else y
  {
    HalfTimes(y, q, Pow2(s));
    AtLeast(q, Pow2(s));
    if 2 * y >= q {
      DifferenceTimes(y, q, Pow2(s));
      SarExact(s, y * Pow2(s), y - q);
      ToWordIs(y - q, -1, y + Rest(MODULUS, q));
    } else {
      SarExact(s, y * Pow2(s), y);
      ToWordIs(y, 0, y);
    }
  }

  lemma AtLeast(q: nat, p: nat)
    requires p > 0
    ensures q <= q * p
  {
  }

  /** Shifting up and back extends the sign of the low n bits. */
  lemma ShiftUpAndBack(s: nat, n: nat, x: nat)
    requires s < BITS && n + s == BITS
    ensures EvmSar(s, EvmShl(s, x)) == Extended(n, x)
  {
    Pow2Sum(n, s);
    ShlKeepsLow(x, Pow2(s), Pow2(n), MODULUS);
    SarOfShifted(x % Pow2(n), s, Pow2(n));
  }

  lemma SignExtendRuns(b: nat, x: nat)
    requires IsWord(x)
    ensures SignExtend(b, x, false) == Some(EvmSar(Amount(b), EvmShl(Amount(b), x)))
  {
    ShiftsLowered(Amount(b), x);
    ShlIsWord(Amount(b), x);
    SarLowered(Amount(b), EvmShl(Amount(b), x));
  }

  lemma ShlIsWord(s: nat, x: nat)
    ensures IsWord(EvmShl(s, x))
  {
  }

  /** SIGN EXTENSION. Both paths compute the EVM's signextend, on all inputs but a literal index
  of 2^64 or more, which the compiler fails on. */
  lemma SignExtendLowered(b: nat, x: nat, literal: bool)
    requires IsWord(x)
    ensures SignExtend(b, x, literal) ==
              if literal && b >= TWO_64 then None else Some(EvmSignExtend(b, x))
  {
    if b < 31 {
      SignExtendRuns(b, x);
      ShiftUpAndBack(Amount(b), 8 * b + 8, x);
    } else if !literal {
      SignExtendRuns(b, x);
      ShiftUpAndBack(Amount(b), BITS, x);
      ExtendedWhole(x);
    }
  }

  lemma ExtendedWhole(x: nat)
    requires IsWord(x)
    ensures Extended(BITS, x) == x
  {
    SmallMod(x, MODULUS);
  }
}
