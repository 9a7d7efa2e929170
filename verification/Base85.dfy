/** Base85 with the alphabet of section 4.2 of RFC 1924: four bytes become five characters,
and one to three bytes left over become one character more than they are bytes. */
module Base85 {
  import opened Bytes

  const DIGITS: string := "0123456789"
  const UPPER: string := "ABCDEFGHIJKLMNOPQRSTUVWXYZ"
  const LOWER: string := "abcdefghijklmnopqrstuvwxyz"
  const SYMBOLS: string := "!#$%&()*+-;<=>?@^_`{|}~"
  const ALPHABET: string := DIGITS + UPPER + LOWER + SYMBOLS

  // ---- the alphabet --------------------------------------------------------------------

  lemma DigitChar(i: nat)
    requires i < 10
    ensures |DIGITS| == 10 && DIGITS[i] as int == 48 + i
  {
  }

  lemma UpperChar(i: nat)
    requires i < 26
    ensures |UPPER| == 26 && UPPER[i] as int == 65 + i
  {
  }

  lemma LowerChar(i: nat)
    requires i < 26
    ensures |LOWER| == 26 && LOWER[i] as int == 97 + i
  {
  }

  /** The codes of the symbols, in runs without a gap. */
  function SymbolCode(i: nat): nat
    requires i < 23
  {
    if i == 0 then 33
    else if i <= 4 then 34 + i         // # $ % &
    else if i <= 8 then 35 + i         // ( ) * +
    else if i == 9 then 45             // -
    else if i <= 15 then 49 + i        // ; < = > ? @
    else if i <= 18 then 78 + i        // ^ _ `
    else 104 + i                       // { | } ~
  }

  lemma SymbolChar(i: nat)
    requires i < 23
    ensures |SYMBOLS| == 23 && SYMBOLS[i] as int == SymbolCode(i)
  {
  }

  lemma PartLengths()
    ensures |DIGITS| == 10 && |UPPER| == 26 && |LOWER| == 26 && |SYMBOLS| == 23 && |ALPHABET| == 85
  {
    DigitChar(0);
    UpperChar(0);
    LowerChar(0);
    SymbolChar(0);
  }

  lemma ConcatAt(a: string, b: string, c: string, d: string, i: nat)
    requires i < |a| + |b| + |c| + |d|
    ensures (a + b + c + d)[i] ==
              if i < |a| then a[i] else if i - |a| < |b| then b[i - |a|]
              else if i - |a| - |b| < |c| then c[i - |a| - |b|] else d[i - |a| - |b| - |c|]
  {
  }

  lemma AlphabetDigit(i: nat)
    requires i < 10
    ensures |ALPHABET| == 85 && ALPHABET[i] as int == 48 + i
  {
    PartLengths();
    ConcatAt(DIGITS, UPPER, LOWER, SYMBOLS, i);
    DigitChar(i);
  }

  lemma AlphabetUpper(i: nat)
    requires i < 26
    ensures |ALPHABET| == 85 && ALPHABET[10 + i] as int == 65 + i
  {
    PartLengths();
    ConcatAt(DIGITS, UPPER, LOWER, SYMBOLS, 10 + i);
    UpperChar(i);
  }

  lemma AlphabetLower(i: nat)
    requires i < 26
    ensures |ALPHABET| == 85 && ALPHABET[36 + i] as int == 97 + i
  {
    PartLengths();
    ConcatAt(DIGITS, UPPER, LOWER, SYMBOLS, 36 + i);
    LowerChar(i);
  }

  lemma AlphabetSymbol(i: nat)
    requires i < 23
    ensures |ALPHABET| == 85 && |SYMBOLS| == 23 && ALPHABET[62 + i] == SYMBOLS[i]
  {
    PartLengths();
    ConcatAt(DIGITS, UPPER, LOWER, SYMBOLS, 62 + i);
  }

  /** The code of the character for a digit. */
  function CodeAt(i: nat): nat
    requires i < 85
  {
    if i < 10 then 48 + i else if i < 36 then 55 + i else if i < 62 then 61 + i else SymbolCode(i - 62)
  }

  lemma AlphabetAt(i: nat)
    requires i < 85
    ensures |ALPHABET| == 85 && ALPHABET[i] as int == CodeAt(i)
  {
    if i < 10 {
      AlphabetDigit(i);
    } else if i < 36 {
      AlphabetUpper(i - 10);
    } else if i < 62 {
      AlphabetLower(i - 36);
    } else {
      AlphabetSymbol(i - 62);
      SymbolChar(i - 62);
    }
  }

  /** The digit for a code. */
  function Place(n: int): nat {
    if 48 <= n <= 57 then n - 48
    else if 65 <= n <= 90 then n - 55
    else if 97 <= n <= 122 then n - 61
    else if n == 33 then 62
    else if 35 <= n <= 38 then n + 28
    else if 40 <= n <= 43 then n + 27
    else if n == 45 then 71
    else if 59 <= n <= 64 then n + 13
    else if 94 <= n <= 96 then n - 16
    else if 123 <= n <= 126 then n - 42
    else 85
  }

  lemma PlaceOfCode(i: nat)
    requires i < 85
    ensures Place(CodeAt(i)) == i
  {
  }

  lemma CodeAtPlace(n: int)
    requires Place(n) < 85
    ensures CodeAt(Place(n)) == n
  {
  }

  /** The printable characters that RFC 1924 leaves out. */
  predicate LeftOut(c: char) {
    c == '"' || c == '\'' || c == ',' || c == '.' || c == '/' || c == ':' || c == '[' || c == '\\' || c == ']'
  }

  lemma HasPlace(c: char)
    ensures Place(c as int) < 85 <==> 33 <= c as int <= 126 && !LeftOut(c)
  {
    var n := c as int;
    assert c == n as char;
  }

  /** Which characters occur: every printable one other than the nine left out. */
  lemma AlphabetExactly(c: char)
    ensures c in ALPHABET <==> 33 <= c as int <= 126 && !LeftOut(c)
  {
    AlphabetAt(0);
    HasPlace(c);
    if c in ALPHABET {
      var i :| 0 <= i < |ALPHABET| && ALPHABET[i] == c;
      AlphabetAt(i);
      PlaceOfCode(i);
    }
    if Place(c as int) < 85 {
      CodeAtPlace(c as int);
      AlphabetAt(Place(c as int));
    }
  }

  /** No character occurs twice, so a digit can be read back from its character. */
  lemma AlphabetIsDistinct(i: nat, j: nat)
    requires i < j < 85
    ensures |ALPHABET| == 85 && ALPHABET[i] != ALPHABET[j]
  {
    AlphabetAt(i);
    AlphabetAt(j);
    PlaceOfCode(i);
    PlaceOfCode(j);
  }

  // ---- digits --------------------------------------------------------------------------

  type digit = d: int | 0 <= d < 85

  function Pow85(n: nat): (p: nat)
    ensures p > 0
  {
    if n == 0 then 1 else 85 * Pow85(n - 1)
  }

  /** The low n base-85 digits of v, most significant first. */
  function Digits(n: nat, v: nat): (ds: seq<digit>)
    ensures |ds| == n
  {
    if n == 0 then [] else Digits(n - 1, v / 85) + [v % 85]
  }

  function Value(ds: seq<digit>): nat {
    if ds == [] then 0 else Value(ds[..|ds| - 1]) * 85 + ds[|ds| - 1]
  }

  function Char(d: digit): char {
    AlphabetAt(0);
    ALPHABET[d]
  }

  function Chars(ds: seq<digit>): (s: string)
    ensures |s| == |ds|
  {
    seq(|ds|, i requires 0 <= i < |ds| => Char(ds[i]))
  }

  lemma CharsInjective(a: seq<digit>, b: seq<digit>)
    requires Chars(a) == Chars(b)
    ensures a == b
  {
    assert |Chars(a)| == |Chars(b)|;
    forall i | 0 <= i < |a|
      ensures a[i] == b[i]
    {
      assert Chars(a)[i] == Chars(b)[i];
      if a[i] < b[i] {
        AlphabetIsDistinct(a[i], b[i]);
      } else if b[i] < a[i] {
        AlphabetIsDistinct(b[i], a[i]);
      }
    }
  }

  lemma CharsConcat(a: seq<digit>, b: seq<digit>)
    ensures Chars(a + b) == Chars(a) + Chars(b)
  {
  }

  lemma CharsPrefix(ds: seq<digit>, n: nat)
    requires n <= |ds|
    ensures Chars(ds[..n]) == Chars(ds)[..n]
  {
  }

  // ---- the encoding --------------------------------------------------------------------

  function Encoded(data: bytes): seq<digit>
  {
    if |data| == 0 then []
    else if |data| >= 4 then Digits(5, Number(data[..4])) + Encoded(data[4..])
    else Digits(5, Number(data + Zeros(4 - |data|)))[..|data| + 1]
  }

  lemma {:induction false} EncodedLength(data: bytes)
    ensures |Encoded(data)| == 5 * (|data| / 4) + if |data| % 4 > 0 then |data| % 4 + 1 else 0
  {
    if |data| >= 4 {
      EncodedLength(data[4..]);
      assert |data[4..]| / 4 == |data| / 4 - 1;
    }
  }

  /** Five characters for a 32-bit group, from the last to the first. */
  method Chunk(group: nat) returns (chunk: array<char>)
    ensures fresh(chunk) && chunk[..] == Chars(Digits(5, group))
  {
    chunk := new char[5](_ => ' ');
    var acc := group;
    AlphabetAt(0);
    for j := 5 downto 0
      invariant acc == Dropped(group, 5 - j)
      invariant chunk[j..] == Chars(Digits(5 - j, group))
    {
      DroppedStep(group, 4 - j);
      chunk[j] := ALPHABET[acc % 85];
      acc := acc / 85;
      assert chunk[j..] == [chunk[j]] + chunk[j + 1..];
    }
  }

  /** v without its k low base-85 digits. */
  function Dropped(v: nat, k: nat): nat {
    if k == 0 then v else Dropped(v / 85, k - 1)
  }

  lemma {:induction false} DroppedStep(v: nat, k: nat)
    ensures Dropped(v, k + 1) == Dropped(v, k) / 85
    ensures Digits(k + 1, v) == [Dropped(v, k) % 85] + Digits(k, v)
  {
    if k > 0 {
      DroppedStep(v / 85, k - 1);
      assert Digits(k + 1, v) == Digits(k, v / 85) + [v % 85];
      assert Digits(k, v) == Digits(k - 1, v / 85) + [v % 85];
    } else {
      assert Digits(0, v) == [] && Digits(0, v / 85) == [];
    }
  }

  /** `base85Encode`. */
  method Encode(data: bytes) returns (result: string)
    ensures result == Chars(Encoded(data))
  {
    result := "";
    var i := 0;
    assert data[0..] == data;
    while i + 4 <= |data|
      invariant i <= |data|
      invariant Chars(Encoded(data)) == result + Chars(Encoded(data[i..]))
    {
      var acc := Join(data[i], data[i + 1], data[i + 2], data[i + 3]);
      FourBytes(data[i..][..4]);
      var chunk := Chunk(acc);
      EncodedGroup(data, i);
      assert result + chunk[..] + Chars(Encoded(data[i + 4..])) == result + (chunk[..] + Chars(Encoded(data[i + 4..])));
      result := result + chunk[..];
      i := i + 4;
    }
    var tail := EncodeTail(data[i..]);
    result := result + tail;
  }

  method EncodeTail(tail: bytes) returns (result: string)
    requires |tail| < 4
    ensures result == Chars(Encoded(tail))
  {
    result := "";
    if |tail| > 0 {
      var acc := GroupOf(tail);
      var chunk := Chunk(acc);
      result := chunk[..|tail| + 1];
      assert result == Chars(Digits(5, acc))[..|tail| + 1];
      CharsPrefix(Digits(5, acc), |tail| + 1);
    }
  }

  /** One to three bytes, padded with zeros to a group. */
  method GroupOf(tail: bytes) returns (acc: nat)
    requires 0 < |tail| < 4
    ensures acc == Number(tail + Zeros(4 - |tail|))
  {
    acc := 0;
    var padded := tail + Zeros(4 - |tail|);
    for j := 0 to |tail|
      invariant acc == NumberOfFirst(padded, j)
    {
      acc := acc * 256 + tail[j];
    }
    for j := |tail| to 4
      invariant acc == NumberOfFirst(padded, j)
    {
      acc := acc * 256;
    }
  }

  /** b0 << 24 | b1 << 16 | b2 << 8 | b3 */
  function Join(b0: int, b1: int, b2: int, b3: int): int {
    b0 * 0x1000000 + b1 * 0x10000 + b2 * 0x100 + b3
  }

  lemma FourBytes(b: bytes)
    requires |b| == 4
    ensures Number(b) == Join(b[0], b[1], b[2], b[3])
  {
    assert NumberOfFirst(b, 1) == b[0];
    assert NumberOfFirst(b, 2) == NumberOfFirst(b, 1) * 256 + b[1];
    assert NumberOfFirst(b, 3) == NumberOfFirst(b, 2) * 256 + b[2];
  }

  lemma EncodedGroup(data: bytes, i: nat)
    requires i + 4 <= |data|
    ensures Chars(Encoded(data[i..])) == Chars(Digits(5, Number(data[i..][..4]))) + Chars(Encoded(data[i + 4..]))
  {
    assert data[i..][4..] == data[i + 4..];
    CharsConcat(Digits(5, Number(data[i..][..4])), Encoded(data[i + 4..]));
  }

  // ---- decoding --------------------------------------------------------------------------

  function Pad(k: nat): seq<digit> { seq<digit>(k, _ => 84) }

  /** The decoder: a short last group is filled up with the highest digit. */
  function Decoded(ds: seq<digit>): bytes {
    if |ds| >= 5 then BigEndian(4, Value(ds[..5])) + Decoded(ds[5..])
    else if |ds| >= 2 then BigEndian(4, Value(ds + Pad(5 - |ds|)))[..|ds| - 1]
    else []
  }

  lemma {:induction false} ValueOfDigits(n: nat, v: nat)
    requires v < Pow85(n)
    ensures Value(Digits(n, v)) == v
  {
    if n > 0 {
      ValueOfDigits(n - 1, v / 85);
      assert Digits(n, v)[..n - 1] == Digits(n - 1, v / 85);
    }
  }

  lemma {:induction false} DigitsPrefix(n: nat, k: nat, v: nat)
    requires k <= n
    ensures Digits(n, v)[..n - k] == Digits(n - k, Dropped(v, k))
  {
    if k > 0 {
      DigitsPrefix(n - 1, k - 1, v / 85);
      assert Digits(n, v)[..n - k] == Digits(n - 1, v / 85)[..n - k];
    }
  }

  lemma {:induction false} BytesPrefix(n: nat, k: nat, v: nat)
    requires k <= n
    ensures BigEndian(n, v)[..n - k] == BigEndian(n - k, Shifted(v, k))
  {
    if k > 0 {
      BytesPrefix(n - 1, k - 1, v / 256);
      assert BigEndian(n, v)[..n - k] == BigEndian(n - 1, v / 256)[..n - k];
    }
  }

  lemma {:induction false} ValuePadded(ds: seq<digit>, k: nat)
    ensures Value(ds + Pad(k)) == Value(ds) * Pow85(k) + Pow85(k) - 1
  {
    if k == 0 {
      assert ds + Pad(0) == ds;
    } else {
      ValuePadded(ds, k - 1);
      assert (ds + Pad(k))[..|ds| + k - 1] == ds + Pad(k - 1);
      Regroup(Value(ds), Pow85(k - 1));
    }
  }

  lemma Regroup(x: nat, p: nat)
    ensures (x * p + p - 1) * 85 + 84 == x * (85 * p) + 85 * p - 1
  {
  }

  lemma {:induction false} DroppedBounds(v: nat, k: nat)
    ensures Dropped(v, k) * Pow85(k) <= v < Dropped(v, k) * Pow85(k) + Pow85(k)
  {
    if k > 0 {
      DroppedBounds(v / 85, k - 1);
      var q, p := Dropped(v / 85, k - 1), Pow85(k - 1);
      assert q * (85 * p) == 85 * (q * p);
    }
  }

  lemma {:induction false} ShiftedBetween(a: nat, n: nat, k: nat)
    requires n * Pow256(k) <= a < n * Pow256(k) + Pow256(k)
    ensures Shifted(a, k) == n
  {
    if k > 0 {
      var p := Pow256(k - 1);
      assert n * (256 * p) == 256 * (n * p);
      ShiftedBetween(a / 256, n, k - 1);
    }
  }

  lemma {:induction false} DroppedSmall(v: nat, n: nat, k: nat)
    requires v < Pow85(n + k)
    ensures Dropped(v, k) < Pow85(n)
  {
    if k > 0 {
      DroppedSmall(v / 85, n, k - 1);
    }
  }

  /** 85^k <= 256^k. */
  lemma {:induction false} Pow85Small(k: nat)
    ensures Pow85(k) <= Pow256(k)
  {
    if k > 0 {
      Pow85Small(k - 1);
    }
  }

  /** 2^32 < 85^5. */
  lemma GroupFits(b: bytes)
    requires |b| == 4
    ensures Number(b) < Pow85(5)
  {
    NumberBound(b);
    assert Pow256(2) == 65536;
    assert Pow85(2) == 7225;
    assert Pow85(3) == 614125;
  }

  lemma WholeGroup(b: bytes)
    requires |b| == 4
    ensures BigEndian(4, Value(Digits(5, Number(b)))) == b
  {
    GroupFits(b);
    ValueOfDigits(5, Number(b));
    BigEndianOfNumber(b);
  }

  /** A short group survives: the padding adds less than one unit of the last byte. */
  lemma ShortGroup(tail: bytes)
    requires 0 < |tail| < 4
    ensures var ds := Digits(5, Number(tail + Zeros(4 - |tail|)))[..|tail| + 1];
            BigEndian(4, Value(ds + Pad(5 - |ds|)))[..|tail|] == tail
  {
    var k := 4 - |tail|;
    var acc := Number(tail + Zeros(k));
    NumberOfConcat(tail, Zeros(k));
    NumberOfZeros(k);
    assert acc == Number(tail) * Pow256(k);
    GroupFits(tail + Zeros(k));
    DigitsPrefix(5, k, acc);
    var ds := Digits(5, acc)[..|tail| + 1];
    var q := Dropped(acc, k);
    DroppedSmall(acc, 5 - k, k);
    ValueOfDigits(5 - k, q);
    ValuePadded(ds, k);
    DroppedBounds(acc, k);
    Pow85Small(k);
    ShiftedBetween(Value(ds + Pad(k)), Number(tail), k);
    BytesPrefix(4, k, Value(ds + Pad(k)));
    BigEndianOfNumber(tail);
  }

  /** ROUND TRIP. Every byte string can be read back from its digits. */
  lemma {:induction false} RoundTrip(data: bytes)
    ensures Decoded(Encoded(data)) == data
  {
    if |data| >= 4 {
      var ds := Digits(5, Number(data[..4]));
      assert Encoded(data)[..5] == ds && Encoded(data)[5..] == Encoded(data[4..]);
      WholeGroup(data[..4]);
      RoundTrip(data[4..]);
    } else if |data| > 0 {
      ShortGroup(data);
    }
  }

  /** INJECTIVITY of the emitted strings. */
  lemma EncodingInjective(a: bytes, b: bytes)
    requires Chars(Encoded(a)) == Chars(Encoded(b))
    ensures a == b
  {
    CharsInjective(Encoded(a), Encoded(b));
    RoundTrip(a);
    RoundTrip(b);
  }
}
