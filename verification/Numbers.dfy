/** Numbers as text in lib/ustdlib.c: what the printer should write and what the parser makes of a
    string, over 32-bit unsigned arithmetic. */
module Numbers {

  const WORD := 0x1_0000_0000
  type U32 = n: nat | n < WORD

  const HEX := "0123456789ABCDEF"

  function DigitChar(d: nat): char
    requires d < 16
  {
    HEX[d]
  }

  // ---- powers and division ------------------------------------------------------------------

  function Power(base: nat, k: nat): nat {
    if k == 0 then 1 else base * Power(base, k - 1)
  }

  lemma {:induction false} PowerPositive(base: nat, k: nat)
    requires base > 0
    ensures Power(base, k) > 0
  {
    if k > 0 {
      PowerPositive(base, k - 1);
      MulPositive(base, Power(base, k - 1));
    }
  }

  lemma MulPositive(a: nat, b: nat)
    requires a > 0 && b > 0
    ensures a * b > 0
  {
  }

  lemma MulAtLeast(a: int, d: int)
    requires a >= 1 && d >= 0
    ensures a * d >= d
  {
  }

  lemma Distribute(p: int, q: int, d: int)
    ensures (p - q) * d == p * d - q * d
  {
  }

  lemma Divides(x: nat, d: nat)
    requires d > 0
    ensures x == (x / d) * d + x % d && 0 <= x % d < d
  {
  }

  lemma Unique(p: int, t: int, q: int, r: int, d: int)
    requires p * d + t == q * d + r && 0 <= t < d && 0 <= r < d
    ensures p == q
  {
    Distribute(p, q, d);
    Distribute(q, p, d);
    if p > q {
      MulAtLeast(p - q, d);
    } else if q > p {
      MulAtLeast(q - p, d);
    }
  }

  lemma DivUnique(x: nat, d: nat, q: nat, r: nat)
    requires d > 0 && x == q * d + r && r < d
    ensures x / d == q
  {
    var p, t := Quotient(x, d);
    Unique(p, t, q, r, d);
  }

  /** Quotient and remainder as plain numbers. */
  lemma Quotient(x: nat, d: nat) returns (p: nat, t: nat)
    requires d > 0
    ensures p == x / d && x == p * d + t && t < d
  {
    Divides(x, d);
    QuotientNonnegative(x, d);
    p, t := x / d, x % d;
  }

  lemma QuotientNonnegative(x: nat, d: nat)
    requires d > 0
    ensures x / d >= 0
  {
  }

  /** v = qm + r and q = sb + t put v at s(bm) + (tm + r). */
  lemma Regroup(q: nat, r: nat, s: nat, t: nat, b: nat, m: nat)
    requires q == s * b + t && t < b && r < m
    ensures q * m + r == s * (b * m) + (t * m + r) && t * m + r < b * m
  {
    calc {
      q * m;
      (s * b + t) * m;
      s * b * m + t * m;
      s * (b * m) + t * m;
    }
    Distribute(b, t, m);
    MulAtLeast(b - t, m);
  }

  /** Dividing twice is dividing by the product. */
  lemma DivDiv(v: nat, m: nat, b: nat)
    requires m > 0 && b > 0
    ensures b * m > 0 && v / m >= 0 && v / (b * m) == v / m / b
  {
    MulPositive(b, m);
    var q, r := Quotient(v, m);
    var s, t := Quotient(q, b);
    Regroup(q, r, s, t, b, m);
    DivUnique(v, b * m, s, t * m + r);
  }

  // ---- what is printed ----------------------------------------------------------------------

  /** Digits of `v` from the place `base^k` down. */
  function Digits(v: nat, base: nat, k: nat): string
    requires 2 <= base <= 16
  {
    PowerPositive(base, k);
    var d := DigitChar(v / Power(base, k) % base);
    if k == 0 then [d] else [d] + Digits(v, base, k - 1)
  }

  /** The highest place of `v`: the greatest power of the base not above it, or the units. */
  predicate TopPlace(v: nat, base: nat, k: nat) {
    v < base * Power(base, k) && (k == 0 || Power(base, k) <= v)
  }

  lemma PlaceUp(v: nat, base: nat, k: nat)
    requires base >= 2 && v >= base && TopPlace(v / base, base, k)
    ensures TopPlace(v, base, k + 1)
  {
    var q, r := Quotient(v, base);
    var m := Power(base, k);
    assert Power(base, k + 1) == base * m;
    Upper(q, r, base, base * m);
    if k > 0 {
      Lower(q, r, base, m);
    }
  }

  lemma Upper(q: nat, r: nat, b: nat, m: nat)
    requires q < m && r < b
    ensures q * b + r < b * m
  {
    Distribute(m, q, b);
    MulAtLeast(m - q, b);
  }

  lemma Lower(q: nat, r: nat, b: nat, m: nat)
    requires m <= q
    ensures b * m <= q * b + r
  {
    Distribute(q, m, b);
    if q > m {
      MulAtLeast(q - m, b);
    }
  }

  lemma Smaller(v: nat, base: nat)
    requires base >= 2 && v >= base
    ensures 0 <= v / base < v
  {
    var q, r := Quotient(v, base);
    Distribute(base, 1, q);
    MulAtLeast(base - 1, q);
  }

  function Top(v: nat, base: nat): (k: nat)
    requires base >= 2
    ensures TopPlace(v, base, k)
  {
    if v < base then 0
    else
      Smaller(v, base);
      PlaceUp(v, base, Top(v / base, base));
      Top(v / base, base) + 1
  }

  lemma {:induction false} PowerGrows(base: nat, j: nat, k: nat)
    requires base >= 2 && j <= k
    ensures Power(base, j) <= Power(base, k)
    decreases k
  {
    if j < k {
      PowerGrows(base, j, k - 1);
      PowerPositive(base, k - 1);
      MulAtLeast(base - 1, Power(base, k - 1));
      Distribute(base, 1, Power(base, k - 1));
    }
  }

  lemma TopIsUnique(v: nat, base: nat, j: nat, k: nat)
    requires base >= 2 && TopPlace(v, base, j) && TopPlace(v, base, k)
    ensures j == k
  {
    if j < k {
      PowerGrows(base, j + 1, k);
    } else if k < j {
      PowerGrows(base, k + 1, j);
    }
  }

  lemma DigitsLength(v: nat, base: nat, k: nat)
    requires 2 <= base <= 16
    ensures |Digits(v, base, k)| == k + 1
  {
  }

  function Repeat(c: char, n: nat): (s: string)
    ensures |s| == n
  {
    seq(n, i => c)
  }

  /** How many fill characters a field of width `count` gets, in 32-bit arithmetic: none when the
      width left over is no more than one or not below 65536. */
  function Padding(count: U32, k: nat, neg: bool): nat {
    var left := (count - k - (if neg then 1 else 0)) % WORD;
    if 1 < left < 65536 then left - 1 else 0
  }

  /** The whole text of a conversion. A minus sign goes before zeros but after spaces. */
  function Text(v: U32, base: nat, k: nat, count: U32, fill: char, neg: bool): string
    requires 2 <= base <= 16
  {
    var pad := Repeat(fill, Padding(count, k, neg));
    var sign := if neg then "-" else "";
    (if fill == '0' then sign + pad else pad + sign) + Digits(v, base, k)
  }

  /** Where the minus sign stands. */
  function SignAt(count: U32, k: nat, fill: char): nat {
    if fill == '0' then 0 else Padding(count, k, true)
  }

  // ---- what is parsed -----------------------------------------------------------------------

  /** The character at `i`; a C string ends with a zero character. */
  function At(s: string, i: nat): char {
    if i < |s| then s[i] else '\0'
  }

  predicate Blank(c: char) {
    c == ' ' || c == '\t'
  }

  /** The value of a digit or letter; 36 for any other character. */
  function DigitValue(c: char): nat {
    if '0' <= c <= '9' then c as nat - '0' as nat
    else if 'A' <= c <= 'Z' then c as nat - 'A' as nat + 10
    else if 'a' <= c <= 'z' then c as nat - 'a' as nat + 10
    else 36
  }

  /** Consuming digits of `base` from `i` on. */
  function Consume(s: string, i: nat, base: nat, acc: U32): U32
    requires 2 <= base <= 36
    decreases |s| - i
  {
    if i < |s| && DigitValue(s[i]) < base then Consume(s, i + 1, base, (acc * base + DigitValue(s[i])) % WORD) else acc
  }

  /** The first character from `i` on that is not a blank. */
  function SkipBlanks(s: string, i: nat): (j: nat)
    requires i <= |s|
    ensures i <= j <= |s| && !Blank(At(s, j))
    decreases |s| - i
  {
    if i < |s| && Blank(s[i]) then SkipBlanks(s, i + 1) else i
  }

  predicate HexPrefix(s: string, i: nat) {
    At(s, i) == '0' && (At(s, i + 1) == 'x' || At(s, i + 1) == 'X')
  }

  /** The end of the run of digits of `base` that begins at `i`. */
  function RunEnd(s: string, i: nat, base: nat): (j: nat)
    requires i <= |s|
    ensures i <= j <= |s| && (forall m :: i <= m < j ==> DigitValue(s[m]) < base)
    ensures j < |s| ==> DigitValue(s[j]) >= base
    decreases |s| - i
  {
    if i < |s| && DigitValue(s[i]) < base then RunEnd(s, i + 1, base) else i
  }

  /** Where the number begins behind blanks and a sign. */
  function AfterSign(s: string): (i: nat)
    ensures i <= |s|
  {
    var b := SkipBlanks(s, 0);
    if At(s, b) == '-' || At(s, b) == '+' then b + 1 else b
  }

  predicate Negated(s: string) {
    At(s, SkipBlanks(s, 0)) == '-'
  }

  predicate HexMarked(s: string, base: nat) {
    (base == 0 || base == 16) && HexPrefix(s, AfterSign(s))
  }

  /** Where the digits begin. */
  function Start(s: string, base: nat): (i: nat)
    ensures i <= |s|
  {
    if HexMarked(s, base) then AfterSign(s) + 2 else AfterSign(s)
  }

  function Radix(s: string, base: nat): nat {
    if HexMarked(s, base) then 16 else if base != 0 then base else if At(s, Start(s, base)) == '0' then 8 else 10
  }

  /** The value of the number at the front of `s`. */
  function Parse(s: string, base: nat): U32
    requires base == 0 || 2 <= base <= 16
  {
    var n := Consume(s, Start(s, base), Radix(s, base), 0);
    if Negated(s) then (0 - n) % WORD else n
  }

  /** The first character not used, or the front of the string when there was no digit. */
  function Rest(s: string, base: nat): nat {
    var end := RunEnd(s, Start(s, base), Radix(s, base));
    if end > Start(s, base) then end else 0
  }

  // ---- the round trip -----------------------------------------------------------------------

  /** Digits above nine are capital letters. */
  lemma DigitCharIs(d: nat)
    requires d < 16
    ensures DigitChar(d) as nat == if d < 10 then '0' as nat + d else 'A' as nat + (d - 10)
  {
  }

  lemma DigitCharValue(d: nat)
    requires d < 16
    ensures DigitValue(DigitChar(d)) == d && !Blank(DigitChar(d))
    ensures DigitChar(d) != '-' && DigitChar(d) != '+' && DigitChar(d) != 'x' && DigitChar(d) != 'X'
  {
  }

  /** The value of the digits of `v` above the place `base^k`. */
  function Above(v: nat, base: nat, k: nat): (q: nat)
    requires base > 0
    ensures q <= v
  {
    PowerPositive(base, k + 1);
    QuotientSmaller(v, Power(base, k + 1));
    v / Power(base, k + 1)
  }

  /** One digit further down. */
  lemma AboveStep(v: nat, base: nat, k: nat)
    requires base > 0
    ensures Power(base, k) > 0 && v / Power(base, k) >= 0
    ensures v / Power(base, k) == Above(v, base, k) * base + v / Power(base, k) % base
    ensures v / Power(base, k) <= v && (k > 0 ==> v / Power(base, k) == Above(v, base, k - 1))
    ensures k == 0 ==> v / Power(base, k) == v
  {
    PowerPositive(base, k);
    var m := Power(base, k);
    DivDiv(v, m, base);
    QuotientSmaller(v, m);
    Divides(v / m, base);
  }

  /** Reading digits back from the place `base^k` down turns the value above it into the value. */
  lemma {:induction false} DigitsRead(s: string, i: nat, v: U32, base: nat, k: nat)
    requires 2 <= base <= 16 && i <= |s| && s[i..] == Digits(v, base, k)
    ensures Consume(s, i, base, Above(v, base, k)) == v && RunEnd(s, i, base) == |s|
    decreases k
  {
    hide DigitValue, DigitChar, Above, Power;
    AboveStep(v, base, k);
    var here := v / Power(base, k);
    var d := here % base;
    DigitsLength(v, base, k);
    assert s[i] == s[i..][0] == DigitChar(d);
    DigitCharValue(d);
    SmallWord(Above(v, base, k) * base + d);
    assert Consume(s, i, base, Above(v, base, k)) == Consume(s, i + 1, base, here);
    assert RunEnd(s, i, base) == RunEnd(s, i + 1, base);
    if k > 0 {
      assert s[i + 1..] == s[i..][1..];
      DigitsRead(s, i + 1, v, base, k - 1);
    } else {
      assert |s| == i + 1;
    }
  }

  lemma SmallWord(x: nat)
    requires x < WORD
    ensures x % WORD == x
  {
  }

  lemma QuotientSmaller(v: nat, m: nat)
    requires m > 0
    ensures 0 <= v / m <= v
  {
    var q, r := Quotient(v, m);
    MulAtLeast(m, q);
  }

  /** Zeros in front change nothing. */
  lemma {:induction false} ZerosRead(s: string, i: nat, n: nat, base: nat)
    requires 2 <= base <= 16 && i + n <= |s| && forall j :: i <= j < i + n ==> s[j] == '0'
    ensures Consume(s, i, base, 0) == Consume(s, i + n, base, 0) && RunEnd(s, i, base) == RunEnd(s, i + n, base)
    decreases n
  {
    if n > 0 {
      ZeroDigit(base);
      hide DigitValue;
      assert s[i] == '0';
      ZerosRead(s, i + 1, n - 1, base);
    }
  }

  lemma ZeroDigit(base: nat)
    ensures DigitValue('0') == 0 && (0 * base + 0) % WORD == 0
  {
  }

  lemma {:induction false} BlanksSkipped(s: string, i: nat, j: nat)
    requires i <= j <= |s| && (forall m :: i <= m < j ==> Blank(s[m])) && !Blank(At(s, j))
    ensures SkipBlanks(s, i) == j
    decreases j - i
  {
    if i < j {
      assert Blank(s[i]);
      BlanksSkipped(s, i + 1, j);
    }
  }

  /** Where the digits of a printed number begin, and the zeros in front of them. */
  function DigitsAt(count: U32, k: nat, neg: bool): nat {
    Padding(count, k, neg) + (if neg then 1 else 0)
  }

  function ZerosAt(count: U32, k: nat, fill: char, neg: bool): nat {
    if fill == '0' then (if neg then 1 else 0) else DigitsAt(count, k, neg)
  }

  lemma TextParts(v: U32, base: nat, k: nat, count: U32, fill: char, neg: bool)
    requires base == 10 || base == 16
    requires fill == ' ' || fill == '0'
    ensures var s, at, z := Text(v, base, k, count, fill, neg), DigitsAt(count, k, neg), ZerosAt(count, k, fill, neg);
      && z <= at < |s| && s[at..] == Digits(v, base, k)
      && (forall j :: z <= j < at ==> s[j] == '0')
      && (forall j :: 0 <= j < z - (if neg then 1 else 0) ==> s[j] == ' ')
      && (neg ==> s[z - 1] == '-')
  {
    hide Digits;
    DigitsLength(v, base, k);
  }

  /** The parser finds the sign and the digits of a printed number. */
  lemma TextBegins(v: U32, base: nat, k: nat, count: U32, fill: char, neg: bool)
    requires base == 10 || base == 16
    requires fill == ' ' || fill == '0'
    ensures var s := Text(v, base, k, count, fill, neg);
      Start(s, base) == ZerosAt(count, k, fill, neg) && Negated(s) == neg && Radix(s, base) == base
  {
    hide DigitChar, DigitValue, Digits, Text, Padding;
    var s, at, z := Text(v, base, k, count, fill, neg), DigitsAt(count, k, neg), ZerosAt(count, k, fill, neg);
    TextParts(v, base, k, count, fill, neg);
    FirstDigit(v, base, k);
    ZeroNotSign();
    assert s[at] == s[at..][0] == Digits(v, base, k)[0];
    BlanksSkipped(s, 0, if neg then z - 1 else z);
    NoPrefix(s, z, at, v, base, k);
  }

  /** Parsing a printed number in the base it was printed in gives the number back and uses all of
      the text, for every 32-bit value, either fill and any width. */
  lemma RoundTrip(v: U32, base: nat, k: nat, count: U32, fill: char, neg: bool)
    requires base == 10 || base == 16
    requires TopPlace(v, base, k) && (fill == ' ' || fill == '0')
    ensures Parse(Text(v, base, k, count, fill, neg), base) == if neg then (0 - v) % WORD else v
    ensures Rest(Text(v, base, k, count, fill, neg), base) == |Text(v, base, k, count, fill, neg)|
  {
    hide DigitChar, DigitValue, Digits, Text, Padding, Start, Negated, Radix, Above;
    var s, at, z := Text(v, base, k, count, fill, neg), DigitsAt(count, k, neg), ZerosAt(count, k, fill, neg);
    TextParts(v, base, k, count, fill, neg);
    TextBegins(v, base, k, count, fill, neg);
    ZerosRead(s, z, at - z, base);
    DigitsRead(s, at, v, base, k);
    TopDivides(v, base, k);
  }

  lemma ZeroNotSign()
    ensures '0' != '-' && '0' != '+' && !Blank('0') && !Blank('-')
  {
  }

  lemma TopDivides(v: nat, base: nat, k: nat)
    requires base > 0 && TopPlace(v, base, k)
    ensures Above(v, base, k) == 0
  {
  }

  lemma FirstDigit(v: nat, base: nat, k: nat)
    requires 2 <= base <= 16
    ensures |Digits(v, base, k)| > 0
    ensures var c := Digits(v, base, k)[0]; !Blank(c) && c != '-' && c != '+'
  {
  }

  lemma {:induction false} NoX(v: nat, base: nat, k: nat, i: nat)
    requires 2 <= base <= 16 && i < |Digits(v, base, k)|
    ensures Digits(v, base, k)[i] != 'x' && Digits(v, base, k)[i] != 'X'
    decreases k
  {
    hide DigitChar, DigitValue;
    PowerPositive(base, k);
    DigitCharValue(v / Power(base, k) % base);
    if i > 0 {
      NoX(v, base, k - 1, i - 1);
    }
  }

  /** No digit string, zeros in front or not, begins like a hexadecimal prefix. */
  lemma NoPrefix(s: string, start: nat, at: nat, v: nat, base: nat, k: nat)
    requires 2 <= base <= 16 && start <= at <= |s| && s[at..] == Digits(v, base, k)
    requires forall j :: start <= j < at ==> s[j] == '0'
    ensures !HexPrefix(s, start)
  {
    hide Digits;
    if at <= start + 1 < |s| {
      NoX(v, base, k, start + 1 - at);
      assert s[start + 1] == s[at..][start + 1 - at];
    }
  }
}
