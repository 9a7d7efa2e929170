/** 256-bit EVM arithmetic on the AVM's byte-string integers, which reject a negative result
and anything beyond 512 bits. The EVM side is the Yellow Paper's appendix H.2 and EIP-145. */
module Word256 {
  import opened Bytes

  const BITS: nat := 256
  const WIDTH: nat := 32
  const MODULUS: nat := Pow2(BITS)

  predicate IsWord(a: nat) { a < MODULUS }

  /** a / b on natural numbers. */
  function Quotient(a: nat, b: nat): nat
    requires b > 0
  {
    NotNegative(a, b);
    a / b
  }

  lemma QuotientBounds(a: nat, b: nat)
    requires b > 0
    ensures Quotient(a, b) * b <= a < (Quotient(a, b) + 1) * b
  {
    var q := Quotient(a, b);
    assert a == q * b + a % b;
    assert (q + 1) * b == q * b + b;
  }

  lemma NotNegative(a: nat, b: nat)
    requires b > 0
    ensures a / b >= 0
  {
    var q := a / b;
    assert a == q * b + a % b;
    if q < 0 {
      BelowZero(q, b);
    }
  }

  lemma BelowZero(q: int, b: nat)
    requires q < 0
    ensures q * b <= 0 - b
  {
  }

  // ---- AVM operations ------------------------------------------------------------------

  /** The result, if it has at most 512 bits. */
  function Bounded(v: nat): Option<nat> {
    if v < MODULUS * MODULUS then Some(v) else None
  }

  function BigAdd(a: nat, b: nat): Option<nat> { Bounded(a + b) }
  function BigSub(a: nat, b: nat): Option<nat> { if a >= b then Some(a - b) else None }
  function BigMul(a: nat, b: nat): Option<nat> { Bounded(a * b) }
  function BigDiv(a: nat, b: nat): Option<nat> { if b > 0 then Some(Quotient(a, b)) else None }
  function BigMod(a: nat, b: nat): Option<nat> { if b > 0 then Some(a % b) else None }

  function Wrap(v: Option<nat>): Option<nat> {
    var a :- v;
    BigMod(a, MODULUS)
  }

  // ---- lowered operations ----------------------------------------------------------------

  function Add(a: nat, b: nat): Option<nat> { Wrap(BigAdd(a, b)) }
  function Mul(a: nat, b: nat): Option<nat> { Wrap(BigMul(a, b)) }

  /** (a + 2^256 - b) mod 2^256, which never goes below zero. */
  function Sub(a: nat, b: nat): Option<nat> {
    var up :- BigAdd(a, MODULUS);
    Wrap(BigSub(up, b))
  }

  /** `safeDivMod`: the guard is left out for a divisor known to be non-zero. */
  function SafeDiv(a: nat, b: nat, known: bool): Option<nat> {
    if known || b != 0 then BigDiv(a, b) else Some(0)
  }

  function SafeMod(a: nat, b: nat, known: bool): Option<nat> {
    if known || b != 0 then BigMod(a, b) else Some(0)
  }

  function Div(a: nat, b: nat): Option<nat> {
    var x :- BigMod(a, MODULUS);
    var y :- BigMod(b, MODULUS);
    SafeDiv(x, y, false)
  }

  function AddMod(a: nat, b: nat, c: nat, known: bool): Option<nat> {
    var sum :- BigAdd(a, b);
    SafeMod(sum, c, known)
  }

  function MulMod(a: nat, b: nat, c: nat, known: bool): Option<nat> {
    var product :- BigMul(a, b);
    SafeMod(product, c, known)
  }

  // ---- the EVM -----------------------------------------------------------------------------

  function EvmDiv(a: nat, b: nat): nat { if b == 0 then 0 else Quotient(a, b) }
  function EvmMod(a: nat, b: nat): nat { if b == 0 then 0 else a % b }
  function EvmShl(s: nat, x: nat): nat { if s >= BITS then 0 else x * Pow2(s) % MODULUS }
  function EvmShr(s: nat, x: nat): nat { if s >= BITS then 0 else Quotient(x, Pow2(s)) }

  function EvmByte(n: nat, x: nat): nat {
    if n >= WIDTH then 0 else Quotient(x, Pow256(WIDTH - 1 - n)) % 256
  }

  function Power(b: nat, e: nat): nat {
    if e == 0 then 1 else b * Power(b, e - 1)
  }

  // ---- arithmetic facts ----------------------------------------------------------------------

  lemma {:induction false} Pow2Sum(a: nat, b: nat)
    ensures Pow2(a + b) == Pow2(a) * Pow2(b)
  {
    if a > 0 {
      Pow2Sum(a - 1, b);
      assert 2 * Pow2(a - 1) * Pow2(b) == 2 * (Pow2(a - 1) * Pow2(b));
    }
  }

  lemma NoMultiple(d: int, m: nat)
    requires 0 - m < d * m < m
    ensures d == 0
  {
  }

  /** The remainder is the only number in range that differs by a multiple. */
  lemma ModIs(v: int, m: nat, k: int, r: nat)
    requires m > 0 && v == k * m + r && r < m
    ensures v % m == r
  {
    var q := v / m;
    assert v == q * m + v % m;
    assert (k - q) * m == v % m - r;
    NoMultiple(k - q, m);
  }

  lemma ModMul(x: nat, y: nat, m: nat)
    requires m > 0
    ensures (x % m) * y % m == x * y % m
  {
    var q, r := x / m, x % m;
    var t := r * y;
    assert x * y == (q * m + r) * y == q * y * m + t;
    var k := t / m;
    assert t == k * m + t % m;
    assert x * y == (q * y + k) * m + t % m by {
      Distribute(q * y, k, m);
    }
    ModIs(x * y, m, q * y + k, t % m);
  }

  lemma Distribute(a: int, b: int, m: int)
    ensures (a + b) * m == a * m + b * m
  {
  }

  lemma DivExact(t: int, p: nat)
    requires p > 0
    ensures t * p / p == t
  {
    var q := t * p / p;
    assert t * p == q * p + t * p % p;
    assert (t - q) * p == t * p % p;
    NoMultiple(t - q, p);
  }

  // ---- lowered arithmetic is EVM arithmetic ------------------------------------------------

  /** On words no intermediate value is negative or longer than 512 bits, and the results are
  the EVM's. */
  lemma ArithmeticLowered(a: nat, b: nat, c: nat)
    requires IsWord(a) && IsWord(b) && IsWord(c)
    ensures Add(a, b) == Some((a + b) % MODULUS)
    ensures Mul(a, b) == Some(a * b % MODULUS)
    ensures Sub(a, b) == Some((a - b) % MODULUS)
    ensures Div(a, b) == Some(EvmDiv(a, b))
    ensures SafeMod(a, b, b != 0) == Some(EvmMod(a, b)) == SafeMod(a, b, false)
    ensures AddMod(a, b, c, c != 0) == Some(EvmMod(a + b, c)) == AddMod(a, b, c, false)
    ensures MulMod(a, b, c, c != 0) == Some(EvmMod(a * b, c)) == MulMod(a, b, c, false)
  {
    SumBounded(a, b);
    ProductBounded(a, b);
    SubLowered(a, b);
    DivLowered(a, b);
  }

  lemma SumBounded(a: nat, b: nat)
    requires IsWord(a) && IsWord(b)
    ensures BigAdd(a, b) == Some(a + b) && BigAdd(a, MODULUS) == Some(a + MODULUS)
  {
    TwiceBelow();
  }

  lemma ProductBounded(a: nat, b: nat)
    requires IsWord(a) && IsWord(b)
    ensures BigMul(a, b) == Some(a * b)
  {
    ProductBelow(a, b, MODULUS);
  }

  lemma DivLowered(a: nat, b: nat)
    requires IsWord(a) && IsWord(b)
    ensures Div(a, b) == Some(EvmDiv(a, b))
  {
    SmallMod(a, MODULUS);
    SmallMod(b, MODULUS);
  }

  lemma SubLowered(a: nat, b: nat)
    requires IsWord(a) && IsWord(b)
    ensures Sub(a, b) == Some((a - b) % MODULUS)
  {
    SumBounded(a, b);
    var r := (a - b) % MODULUS;
    var k := (a - b) / MODULUS;
    var v := a + MODULUS - b;
    assert a - b == k * MODULUS + r;
    Distribute(k, 1, MODULUS);
    ModIs(v, MODULUS, k + 1, r);
  }

  lemma TwiceBelow()
    ensures MODULUS + MODULUS <= MODULUS * MODULUS
  {
    assert MODULUS == 2 * Pow2(BITS - 1);
    SquareAtLeast(MODULUS);
  }

  lemma SquareAtLeast(m: nat)
    requires m >= 2
    ensures m + m <= m * m
  {
  }

  // ---- shifts ----------------------------------------------------------------------------

  /** `setbit`: bit i of w, counted from the most significant bit, becomes 1. */
  function SetBit(w: bytes, i: nat): (r: bytes)
    requires i < 8 * |w|
    ensures |r| == |w|
  {
    var weight := Pow2(7 - i % 8);
    Weight(7 - i % 8);
    var b := w[i / 8];
    if b / weight % 2 == 1 || b + weight > 255 then w else w[i / 8 := b + weight]
  }

  lemma Weight(k: nat)
    requires k < 8
    ensures 1 <= Pow2(k) <= 128
  {
    Pow2Grows(k, 7);
    assert Pow2(3) == 8 && Pow2(5) == 32;
  }

  lemma {:induction false} Pow2Grows(a: nat, b: nat)
    requires a <= b
    ensures Pow2(a) <= Pow2(b)
  {
    if a < b {
      Pow2Grows(a, b - 1);
    }
  }

  /** `buildPowerOf2`: set one bit of 32 zero bytes. The amount is cut to 64 bits and taken
  modulo 256. */
  function BitSet(shift: nat): nat {
    OneBit(WIDTH, 255 - shift % TWO_64 % BITS)
  }

  /** z zero bytes with bit i set, as a number. */
  function OneBit(z: nat, i: nat): nat
    requires i < 8 * z
  {
    Number(SetBit(Zeros(z), i))
  }

  function Shl(s: nat, x: nat): Option<nat> {
    if s < BITS then
      var v :- BigMod(x, MODULUS);
      Wrap(BigMul(v, BitSet(s)))
    else Some(0)
  }

  function Shr(s: nat, x: nat): Option<nat> {
    if s < BITS then
      var v :- BigMod(x, MODULUS);
      BigDiv(v, BitSet(s))
    else Some(0)
  }

  lemma Pow2Below(s: nat)
    requires s < BITS
    ensures Pow2(s) < MODULUS
  {
    Pow2Sum(s, BITS - s);
    assert Pow2(BITS - s) == 2 * Pow2(BITS - s - 1);
    TimesAtLeastTwo(Pow2(s), Pow2(BITS - s));
  }

  lemma TimesAtLeastTwo(a: nat, b: nat)
    requires a > 0 && b >= 2
    ensures a < a * b
  {
  }

  lemma ShiftsLowered(s: nat, x: nat)
    requires IsWord(x)
    ensures Shl(s, x) == Some(EvmShl(s, x)) && Shr(s, x) == Some(EvmShr(s, x))
  {
    if s < BITS {
      BitSetIs(s);
      SmallMod(x, MODULUS);
      Pow2Below(s);
      ProductBounded(x, Pow2(s));
    }
  }

  lemma BitSetIs(s: nat)
    requires s < BITS
    ensures BitSet(s) == Pow2(s)
  {
    SmallMod(s, TWO_64);
    SmallMod(s, BITS);
    OneBitIs(WIDTH, s);
  }

  lemma OneBitIs(z: nat, s: nat)
    requires z == WIDTH && s < BITS
    ensures OneBit(z, 255 - s) == Pow2(s)
  {
    var j, k, r := BitOf(s);
    SetBitAt(z, j, k, r);
  }

  /** Byte and bit of a shift amount. */
  lemma BitOf(s: nat) returns (j: nat, k: nat, r: nat)
    requires s < BITS
    ensures j + 1 + k == WIDTH && r < 8 && s == 8 * k + r && 255 - s == 8 * j + 7 - r
  {
    k, r := s / 8, s % 8;
    j := 31 - k;
  }

  /** One bit set in z zero bytes, 8k + r bits from the right, is 2^(8k + r). */
  lemma SetBitAt(z: nat, j: nat, k: nat, r: nat)
    requires z == j + 1 + k && r < 8
    ensures 8 * j + 7 - r < 8 * z
    ensures OneBit(z, 8 * j + 7 - r) == Pow2(8 * k + r)
  {
    Weight(r);
    BitPosition(j, r);
    SetZeroBit(z, 8 * j + 7 - r, j, r);
    LoneUpdate(j, Pow2(r), k);
    LoneByte(j, Pow2(r), k);
    Pow256Is(k);
    Pow2Sum(r, 8 * k);
  }

  lemma BitPosition(j: nat, r: nat)
    requires r < 8
    ensures (8 * j + 7 - r) / 8 == j && 7 - (8 * j + 7 - r) % 8 == r
  {
  }

  lemma SetZeroBit(z: nat, i: nat, j: nat, k: nat)
    requires i < 8 * z && j == i / 8 && k == 7 - i % 8 && Pow2(k) <= 255
    ensures SetBit(Zeros(z), i) == Zeros(z)[j := Pow2(k)]
  {
    QuotientIs(0, Pow2(k), 0, 0);
  }

  lemma LoneUpdate(j: nat, b: byte, k: nat)
    ensures Zeros(j + 1 + k)[j := b] == Zeros(j) + ([b] + Zeros(k))
  {
  }

  lemma LoneByte(j: nat, b: byte, k: nat)
    ensures Number(Zeros(j) + ([b] + Zeros(k))) == b * Pow256(k)
  {
    NumberOfConcat(Zeros(j), [b] + Zeros(k));
    NumberOfConcat([b], Zeros(k));
    NumberOfZeros(j);
    NumberOfZeros(k);
    OneByte([b], 0);
    assert [b][0..1] == [b];
  }

  lemma {:induction false} Pow256Is(k: nat)
    ensures Pow256(k) == Pow2(8 * k)
  {
    if k > 0 {
      Pow256Is(k - 1);
      Pow2Sum(8, 8 * (k - 1));
      assert Pow2(3) == 8 && Pow2(5) == 32;
      Pow2Sum(3, 5);
    }
  }

  /** Counted in bits or in bytes, the modulus is one number. */
  lemma ModulusInBytes()
    ensures MODULUS == TWO_256
  {
    Pow256Is(WIDTH);
  }

  // ---- byte and not ------------------------------------------------------------------------

  /** `handleByte`: the range check is on the full index, before it is cut to 64 bits. */
  function ByteOf(n: nat, x: nat): Option<nat> {
    if n < WIDTH then
      var b :- Extract3(BigEndian(WIDTH, x), n % TWO_64, 1);
      Some(Number(b))
    else Some(0)
  }

  lemma {:induction false} BigEndianAt(width: nat, v: nat, i: nat)
    requires i < width
    ensures BigEndian(width, v)[i] == Quotient(v, Pow256(width - 1 - i)) % 256
  {
    if i < width - 1 {
      BigEndianAt(width - 1, v / 256, i);
      DivTwice(v, Pow256(width - 2 - i));
    }
  }

  lemma DivTwice(v: nat, p: nat)
    requires p > 0
    ensures v / 256 / p == v / (256 * p)
  {
    var a := v / 256;
    var k := a / p;
    var r := (a % p) * 256 + v % 256;
    assert a == k * p + a % p;
    assert v == a * 256 + v % 256 == k * (256 * p) + r;
    QuotientIs(v, 256 * p, k, r);
  }

  lemma QuotientIs(v: nat, m: nat, k: nat, r: nat)
    requires m > 0 && v == k * m + r && r < m
    ensures v / m == k
  {
    var q := v / m;
    assert v == q * m + v % m;
    assert (k - q) * m == v % m - r;
    NoMultiple(k - q, m);
  }

  lemma ByteLowered(n: nat, x: nat)
    ensures ByteOf(n, x) == Some(EvmByte(n, x))
  {
    if n < WIDTH {
      SmallMod(n, TWO_64);
      BigEndianAt(WIDTH, x, n);
      OneByte(BigEndian(WIDTH, x), n);
    }
  }

  lemma OneByte(w: bytes, n: nat)
    requires n < |w|
    ensures Number(w[n..n + 1]) == w[n]
  {
    assert NumberOfFirst(w[n..n + 1], 0) == 0;
  }

  /** `b~`: every byte complemented. */
  function Complemented(w: bytes): (r: bytes)
    ensures |r| == |w|
  {
    seq<byte>(|w|, i requires 0 <= i < |w| => 255 - w[i])
  }

  lemma {:induction false} NotLowered(width: nat, x: nat)
    requires x < Pow256(width)
    ensures Number(Complemented(BigEndian(width, x))) == Pow256(width) - 1 - x
  {
    var w := BigEndian(width, x);
    ComplementOfFirst(w, width);
    NumberOfBigEndian(width, x);
  }

  lemma {:induction false} ComplementOfFirst(w: bytes, k: nat)
    requires k <= |w|
    ensures NumberOfFirst(Complemented(w), k) == Pow256(k) - 1 - NumberOfFirst(w, k)
  {
    if k > 0 {
      ComplementOfFirst(w, k - 1);
    }
  }

  // ---- exponentiation ------------------------------------------------------------------------

  lemma {:induction false} PowerSquares(b: nat, h: nat)
    ensures Power(b, 2 * h) == Power(b * b, h)
  {
    if h > 0 {
      PowerSquares(b, h - 1);
      assert Power(b, 2 * h) == b * (b * Power(b, 2 * h - 2));
      Assoc(b, b, Power(b, 2 * h - 2));
    }
  }

  lemma Assoc(a: nat, b: nat, c: nat)
    ensures a * (b * c) == a * b * c
  {
  }

  lemma {:induction false} PowerMod(b: nat, e: nat, m: nat)
    requires m > 0
    ensures Power(b % m, e) % m == Power(b, e) % m
  {
    if e > 0 {
      PowerMod(b, e - 1, m);
      var x, y := Power(b % m, e - 1), Power(b, e - 1);
      ModMul(b, x, m);
      ModMul(x, b, m);
      ModMul(y, b, m);
      Commutes(b, x);
      Commutes(b, y);
    }
  }

  lemma Commutes(a: nat, b: nat)
    ensures a * b == b * a
  {
  }

  /** `handleExp` on constants: square and multiply; the modulus is 2^256. */
  method Exp(b: nat, e: nat, modulus: nat) returns (result: nat)
    requires modulus > 1
    ensures result == Power(b, e) % modulus
  {
    var base: nat, rest: nat := b % modulus, e;
    result := 1;
    ExpStart(b, e, modulus);
    while rest > 0
      invariant result < modulus
      invariant result * Power(base, rest) % modulus == Power(b, e) % modulus
    {
      ExpStep(result, base, rest, modulus);
      if rest % 2 != 0 {
        result := result * base % modulus;
      }
      base := base * base % modulus;
      rest := rest / 2;
    }
    SmallMod(result, modulus);
  }

  /** `buildBigUIntExpInto`, the loop emitted for run-time operands. No product is longer than
  512 bits, because both factors are words. */
  method ExpRuntime(b: nat, e: nat) returns (result: Option<nat>)
    requires IsWord(b) && IsWord(e)
    ensures result == Some(Power(b, e) % MODULUS)
  {
    var r: nat, base: nat, rest: nat := 1, b, e;
    OneIsWord();
    while rest > 0
      invariant IsWord(r) && IsWord(base)
      invariant r * Power(base, rest) % MODULUS == Power(b, e) % MODULUS
    {
      ExpStep(r, base, rest, MODULUS);
      ProductBounded(r, base);
      ProductBounded(base, base);
      if rest % 2 != 0 {
        var product := Mul(r, base);
        if product.None? { return None; }
        r := product.value;
      }
      rest := rest / 2;
      var square := Mul(base, base);
      if square.None? { return None; }
      base := square.value;
    }
    SmallMod(r, MODULUS);
    result := Some(r);
  }

  lemma OneIsWord()
    ensures 1 < MODULUS
  {
    assert MODULUS == 2 * Pow2(BITS - 1);
  }

  lemma ExpStart(b: nat, e: nat, m: nat)
    requires m > 0
    ensures 1 * Power(b % m, e) % m == Power(b, e) % m
  {
    PowerMod(b, e, m);
  }

  lemma ExpStep(r: nat, base: nat, e: nat, m: nat)
    requires m > 0 && e > 0
    ensures var r1 := if e % 2 != 0 then r * base % m else r;
            r1 * Power(base * base % m, e / 2) % m == r * Power(base, e) % m
  {
    var h := e / 2;
    var sq, sqm := Power(base * base, h), Power(base * base % m, h);
    PowerMod(base * base, h, m);
    PowerSquares(base, h);
    var r0 := if e % 2 != 0 then r * base else r;
    var r1 := if e % 2 != 0 then r * base % m else r;
    if e % 2 != 0 {
      ModMul(r * base, sqm, m);
      assert Power(base, e) == base * Power(base, 2 * h);
      Assoc(r, base, sq);
    } else {
      assert e == 2 * h;
    }
    assert r1 * sqm % m == r0 * sqm % m;
    SameModTimes(r0, sqm, sq, m);
  }

  lemma SameModTimes(r: nat, x: nat, y: nat, m: nat)
    requires m > 0 && x % m == y % m
    ensures r * x % m == r * y % m
  {
    ModMul(x, r, m);
    ModMul(y, r, m);
    Commutes(r, x);
    Commutes(r, y);
  }
}
