/** The numeric conversions of `uvsnprintf` and the parser `ustrtoul` of lib/ustdlib.c, with their
    32-bit counters and the caller's buffer. */
module Ustdlib {
  import opened Numbers

  /** The overflow guard of the digit search is the plain comparison: a wrapped product never divides back. */
  lemma GuardIsComparison(idx: nat, base: nat, v: U32)
    requires idx > 0 && base > 0
    ensures (idx * base) % WORD <= v && (idx * base) % WORD / base == idx <==> idx * base <= v
  {
    if idx * base < WORD {
      SmallWord(idx * base);
      DivUnique(idx * base, base, idx, 0);
    } else {
      var q, r := Quotient((idx * base) % WORD, base);
      assert q * base < idx * base;
    }
  }

  /** One round of the digit search moves to the next power of the base. */
  lemma NextPlace(idx: nat, base: nat, v: U32, k: nat)
    requires idx == Power(base, k) > 0 && base >= 2 && idx * base <= v
    ensures (idx * base) % WORD == idx * base == Power(base, k + 1) && idx * base > idx
  {
  }

  lemma LastPlace(idx: nat, base: nat, v: U32, k: nat)
    requires idx == Power(base, k) && !(idx * base <= v) && (k == 0 || idx <= v)
    ensures TopPlace(v, base, k)
  {
  }

  lemma PowerZero(base: nat)
    ensures Power(base, 0) == 1
  {
  }

  lemma CountDown(count: int, k: int)
    ensures ((count - k) % WORD - 1) % WORD == (count - (k + 1)) % WORD
  {
  }

  /** The field width a run of digit characters gives, and the fill character it selects. */
  function Width(spec: string): U32 {
    if spec == [] then 0 else (Width(spec[..|spec| - 1]) * 10 + DigitValue(spec[|spec| - 1])) % WORD
  }

  function Fill(spec: string): char {
    if spec == [] then ' '
    else
      var n := |spec| - 1;
      if spec[n] == '0' && Width(spec[..n]) == 0 then '0' else Fill(spec[..n])
  }

  lemma FillIs(spec: string)
    ensures Fill(spec) == ' ' || Fill(spec) == '0'
  {
  }

  predicate AllDigits(spec: string) {
    forall i :: 0 <= i < |spec| ==> '0' <= spec[i] <= '9'
  }

  datatype Kind = Signed | Unsigned | Hexadecimal

  function Base(kind: Kind): (b: nat)
    ensures b == 10 || b == 16
  {
    if kind == Hexadecimal then 16 else 10
  }

  predicate Negative(kind: Kind, x: U32) {
    kind == Signed && x >= 0x8000_0000
  }

  /** The value whose digits are printed. */
  function Magnitude(kind: Kind, x: U32): U32 {
    if Negative(kind, x) then WORD - x else x
  }

  lemma MagnitudeIs(kind: Kind, x: U32)
    ensures Negative(kind, x) == (kind == Signed && x >= 0x8000_0000)
    ensures Magnitude(kind, x) == if Negative(kind, x) then (0 - x) % WORD else x
  {
  }

  /** The padding from the width less digits and sign, counted down in 32 bits. */
  lemma PaddingIs(count: U32, k: nat, neg: bool, left: U32)
    requires left == (count - k) % WORD
    ensures var rest := if neg then (left - 1) % WORD else left;
      Padding(count, k, neg) == if 1 < rest < 65536 then rest - 1 else 0
  {
    CountDown(count, k);
  }

  function TopOf(kind: Kind, x: U32): nat {
    Top(Magnitude(kind, x), Base(kind))
  }

  /** What the conversion of `x` should write. */
  ghost function Printed(kind: Kind, spec: string, x: U32, k: nat): string {
    Text(Magnitude(kind, x), Base(kind), k, Width(spec), Fill(spec), Negative(kind, x))
  }

  /** Parsing what %d, %u or %x printed gives back the same 32-bit value, for any width and fill. */
  lemma PrintedParses(kind: Kind, spec: string, x: U32, k: nat)
    requires TopPlace(Magnitude(kind, x), Base(kind), k)
    ensures var text := Printed(kind, spec, x, k);
      Parse(text, Base(kind)) == x && Rest(text, Base(kind)) == |text|
  {
    hide Parse, Rest, Text, Width, Fill, TopPlace;
    FillIs(spec);
    RoundTrip(Magnitude(kind, x), Base(kind), k, Width(spec), Fill(spec), Negative(kind, x));
  }

  // ---- what a field looks like ----------------------------------------------------------------

  /** The decimal number the digits of a specification write. */
  function Decimal(spec: string): nat
    requires AllDigits(spec)
  {
    if spec == [] then 0 else 10 * Decimal(spec[..|spec| - 1]) + (spec[|spec| - 1] as nat - '0' as nat)
  }

  function TenTo(n: nat): nat {
    if n == 0 then 1 else 10 * TenTo(n - 1)
  }

  lemma {:induction false} DecimalBound(spec: string)
    requires AllDigits(spec)
    ensures Decimal(spec) < TenTo(|spec|)
    ensures Decimal(spec) == 0 <==> forall i :: 0 <= i < |spec| ==> spec[i] == '0'
  {
    if spec != [] {
      var n := |spec| - 1;
      DecimalBound(spec[..n]);
      assert forall i :: 0 <= i < n ==> spec[..n][i] == spec[i];
    }
  }

  /** Up to nine digits give the width they write, and zeros fill exactly if the first is a zero. */
  lemma {:induction false} SpecMeans(spec: string)
    requires AllDigits(spec) && |spec| <= 9
    ensures Width(spec) == Decimal(spec)
    ensures Fill(spec) == if spec != [] && spec[0] == '0' then '0' else ' '
  {
    if spec != [] {
      hide TenTo;
      var n := |spec| - 1;
      SpecMeans(spec[..n]);
      DecimalBound(spec);
      DecimalBound(spec[..n]);
      NinePlaces();
      TenGrows(|spec|, 9);
      assert n > 0 ==> spec[..n][0] == spec[0];
      if n > 0 && spec[n] == '0' && Decimal(spec[..n]) == 0 {
        assert spec[..n][0] == '0';
      }
    }
  }

  lemma NinePlaces()
    ensures TenTo(9) == 1_000_000_000
  {
    assert TenTo(3) == 1000;
    assert TenTo(6) == 1_000_000;
  }

  lemma {:induction false} TenGrows(a: nat, b: nat)
    requires a <= b
    ensures TenTo(a) <= TenTo(b)
  {
    if a < b {
      TenGrows(a, b - 1);
    }
  }

  function Max(a: nat, b: nat): nat {
    if a < b then b else a
  }

  /** A field of at least `width` characters: zeros stand behind the sign, spaces before it. */
  function Field(width: nat, zeros: bool, sign: string, digits: string): string {
    var pad := Max(width, |sign| + |digits|) - |sign| - |digits|;
    if zeros then sign + Repeat('0', pad) + digits else Repeat(' ', pad) + sign + digits
  }

  lemma TextIsField(v: U32, base: nat, k: nat, count: U32, fill: char, neg: bool)
    requires 2 <= base <= 16 && k < 32 && count < 65536 && (fill == ' ' || fill == '0')
    ensures Text(v, base, k, count, fill, neg) == Field(count, fill == '0', if neg then "-" else "", Digits(v, base, k))
  {
    hide Digits, Padding, Text, Repeat;
    DigitsLength(v, base, k);
    FieldPadding(count, k, neg);
    TextIs(v, base, k, count, fill, neg);
  }

  /** The digits of a value in decimal or hexadecimal, from the highest place. */
  function AllDigitsOf(v: U32, base: nat): string
    requires 2 <= base <= 16
  {
    Digits(v, base, Top(v, base))
  }

  /** A numeric field is as wide as its specification says, or as its digits and sign need. It is filled with zeros
      exactly if the specification begins with a zero. */
  lemma FieldShape(kind: Kind, spec: string, x: U32)
    requires AllDigits(spec) && |spec| <= 9 && Decimal(spec) < 65536
    ensures var neg := kind == Signed && x >= 0x8000_0000;
      var v: U32 := if neg then 0x1_0000_0000 - x else x;
      Printed(kind, spec, x, TopOf(kind, x)) ==
        Field(Decimal(spec), spec != [] && spec[0] == '0', if neg then "-" else "",
              AllDigitsOf(v, if kind == Hexadecimal then 16 else 10))
  {
    hide Digits, Width, Fill, Top, Decimal, Text, Field, TopPlace;
    SpecMeans(spec);
    PlacesBound(Magnitude(kind, x), Base(kind), TopOf(kind, x));
    TextIsField(Magnitude(kind, x), Base(kind), TopOf(kind, x), Width(spec), Fill(spec), Negative(kind, x));
  }

  /** A width the code takes for no width at all. */
  lemma WideField(kind: Kind, spec: string, x: U32)
    requires AllDigits(spec) && |spec| <= 9 && Decimal(spec) >= 65536 + 33
    ensures var neg := kind == Signed && x >= 0x8000_0000;
      var v: U32 := if neg then 0x1_0000_0000 - x else x;
      Printed(kind, spec, x, TopOf(kind, x))
        == (if neg then "-" else "") + AllDigitsOf(v, if kind == Hexadecimal then 16 else 10)
  {
    hide Digits, Width, Fill, Top, Decimal, Text, TopPlace, Padding;
    var k, v, neg := TopOf(kind, x), Magnitude(kind, x), Negative(kind, x);
    SpecMeans(spec);
    PlacesBound(v, Base(kind), k);
    WidePadding(Width(spec), k, neg);
    TextIs(v, Base(kind), k, Width(spec), Fill(spec), neg);
  }

  lemma WidePadding(count: U32, k: nat, neg: bool)
    requires count >= 65536 + 33 && k < 32
    ensures Padding(count, k, neg) == 0
  {
  }

  /** The field has exactly that many characters. */
  lemma FieldWidth(width: nat, zeros: bool, sign: string, digits: string)
    ensures |Field(width, zeros, sign, digits)| == Max(width, |sign| + |digits|)
  {
  }

  lemma TextIs(v: U32, base: nat, k: nat, count: U32, fill: char, neg: bool)
    requires 2 <= base <= 16
    ensures var pad, sign, digits := Repeat(fill, Padding(count, k, neg)), if neg then "-" else "", Digits(v, base, k);
      Text(v, base, k, count, fill, neg) == if fill == '0' then sign + pad + digits else pad + sign + digits
  {
    hide Digits, Padding, Repeat;
  }

  /** A 32-bit value has at most 32 digits. */
  lemma PlacesBound(v: U32, base: nat, k: nat)
    requires base >= 2 && TopPlace(v, base, k)
    ensures k < 32
  {
    TwoTo32();
    PowerOfBase(base, 32);
    if k >= 32 {
      PowerGrows(base, 32, k);
    }
  }

  lemma {:induction false} PowerOfBase(base: nat, k: nat)
    requires base >= 2
    ensures Power(2, k) <= Power(base, k)
  {
    if k > 0 {
      PowerOfBase(base, k - 1);
      Distribute(base, 2, Power(base, k - 1));
      MulNonnegative(base - 2, Power(base, k - 1));
    }
  }

  lemma MulNonnegative(a: nat, b: nat)
    ensures a * b >= 0
  {
  }

  lemma TwoTo32()
    ensures Power(2, 32) == 0x1_0000_0000
  {
    assert Power(2, 4) == 16;
    assert Power(2, 8) == 0x100;
    assert Power(2, 12) == 0x1000;
    assert Power(2, 16) == 0x1_0000;
    assert Power(2, 20) == 0x10_0000;
    assert Power(2, 24) == 0x100_0000;
    assert Power(2, 28) == 0x1000_0000;
  }

  lemma FieldPadding(count: U32, k: nat, neg: bool)
    requires count < 65536 && k < 32
    ensures var needed := k + 1 + if neg then 1 else 0;
      Padding(count, k, neg) == Max(count, needed) - needed
  {
  }

  function Min(a: nat, b: nat): nat {
    if a < b then a else b
  }

  /** The caller's buffer, the place of the next character and the room the code counts before the terminator. */
  class Output {
    const buf: array<char>
    var pos: nat
    var room: U32

    /** How many characters may be stored. */
    ghost const limit: nat

    /** What the buffer held at first. */
    ghost const before: string

    /** All characters produced, whether or not they fitted. */
    ghost var produced: string
    var counted: nat

    ghost predicate Valid()
      reads this, buf
    {
      && limit < buf.Length == |before| && pos == Min(|produced|, limit)
      && buf[..pos] == produced[..pos] && buf[pos..] == before[pos..]
    }

    /** The room counted stores exactly what fits of the next `n` characters. */
    ghost predicate Fits(n: nat)
      reads this
    {
      pos + Min(n, room) == Min(pos + n, limit)
    }

    /** One character of the buffer is kept for the terminator. */
    constructor (buffer: array<char>, size: nat)
      requires 0 < buffer.Length && size <= buffer.Length && size <= WORD
      ensures Valid() && buf == buffer && produced == [] && pos == 0 && counted == 0
      ensures room == limit == Limit(size) && before == buffer[..]
    {
      buf, before, pos, produced, counted, limit := buffer, buffer[..], 0, [], 0, Limit(size);
      room := if size != 0 then size - 1 else 0;
    }

    /** One character: stored if there is room, counted in any case. */
    method Put(c: char)
      requires Valid() && Fits(1)
      modifies this, buf
      ensures Valid() && produced == old(produced) + [c] && counted == old(counted) + 1
      ensures pos + room == old(pos + room) && room == old(room) - (if old(room) != 0 then 1 else 0)
    {
      if room != 0 {
        buf[pos] := c;
        pos := pos + 1;
        room := room - 1;
      }
      produced := produced + [c];
      counted := counted + 1;
    }

    /** Width and fill character from the digits between the percent sign and the command. */
    static method ReadSpec(spec: string) returns (count: U32, fill: char)
      requires AllDigits(spec)
      ensures count == Width(spec) && fill == Fill(spec)
    {
      count, fill := 0, ' ';
      var i := 0;
      while i < |spec|
        invariant i <= |spec| && count == Width(spec[..i]) && fill == Fill(spec[..i])
      {
        assert spec[..i + 1][..i] == spec[..i];
        if spec[i] == '0' && count == 0 {
          fill := '0';
        }
        count := (count * 10 + (spec[i] as int - '0' as int)) % WORD;
        i := i + 1;
      }
      assert spec[..i] == spec;
    }

    /** The search for the highest place, which also takes the digits off the width. */
    static method FindPlace(v: U32, base: nat, count: U32) returns (idx: nat, left: U32, ghost k: nat)
      requires 2 <= base <= 16
      ensures 0 < idx && v < idx * base && (idx == 1 || idx <= v)
      ensures TopPlace(v, base, k) && idx == Power(base, k) > 0 && left == (count - k) % WORD
    {
      hide Power, TopPlace;
      PowerZero(base);
      idx, left, k := 1, count, 0;
      while (idx * base) % WORD <= v && (idx * base) % WORD / base == idx
        invariant idx == Power(base, k) > 0 && left == (count - k) % WORD && (k == 0 || idx <= v)
        decreases v - idx
      {
        GuardIsComparison(idx, base, v);
        NextPlace(idx, base, v, k);
        CountDown(count, k);
        idx, left, k := (idx * base) % WORD, (left - 1) % WORD, k + 1;
      }
      GuardIsComparison(idx, base, v);
      LastPlace(idx, base, v, k);
    }

    /** The fill characters. */
    method PutPadding(left: U32, fill: char)
      requires Valid() && Fits(if 1 < left < 65536 then left - 1 else 0)
      modifies this, buf
      ensures Valid() && pos + room == old(pos + room)
      ensures var n := if 1 < left < 65536 then left - 1 else 0;
        && produced == old(produced) + Repeat(fill, n) && counted == old(counted) + n
        && room == if old(room) > n then old(room) - n else 0
    {
      if left > 1 && left < 65536 {
        var n := left - 1;
        while n != 0
          invariant Valid() && n <= left - 1 && pos + room == old(pos + room) && Fits(n)
          invariant produced == old(produced) + Repeat(fill, left - 1 - n)
          invariant counted == old(counted) + (left - 1 - n)
          invariant room == if old(room) > left - 1 - n then old(room) - (left - 1 - n) else 0
        {
          Put(fill);
          n := n - 1;
        }
      }
    }

    /** The digits, from the highest place down. */
    method PutDigits(v: U32, base: nat, idx: nat, ghost k: nat)
      requires Valid() && 2 <= base <= 16 && idx == Power(base, k) && Fits(k + 1)
      modifies this, buf
      ensures Valid() && pos + room == old(pos + room)
      ensures produced == old(produced) + Digits(v, base, k) && counted == old(counted) + k + 1
    {
      hide Power, DigitChar, Digits, Valid;
      var place := idx;
      ghost var j: int := k;
      assert place != 0 by { PowerPositive(base, k); }
      while place != 0
        invariant Valid() && pos + room == old(pos + room) && -1 <= j <= k && Fits(j + 1)
        invariant place == PlaceAt(base, j)
        invariant produced + DigitsFrom(v, base, j) == old(produced) + Digits(v, base, k)
        invariant counted == old(counted) + (k - j)
        decreases j
      {
        PlaceDown(v, base, j);
        ghost var was := produced;
        Put(DigitChar(v / place % base));
        assert was + ([DigitChar(v / place % base)] + DigitsFrom(v, base, j - 1)) == produced + DigitsFrom(v, base, j - 1);
        place := place / base;
        j := j - 1;
      }
      PlacesEnd(v, base, j);
    }

    /** The minus sign, if it is `wanted` here and there is room: otherwise neither stored nor counted. */
    method PutSign(wanted: bool) returns (put: bool)
      requires Valid() && (wanted ==> Fits(1))
      modifies this, buf
      ensures Valid() && pos + room == old(pos + room)
      ensures put == (wanted && old(room) != 0) && room == old(room) - (if put then 1 else 0)
      ensures produced == old(produced) + Sign(put) && counted == old(counted) + |Sign(put)|
    {
      put := wanted && room != 0;
      if put {
        Put('-');
      }
    }

    /** Sign and padding: the sign goes before zeros and after spaces. */
    method PutFront(neg: bool, left: U32, fill: char, ghost more: nat)
      requires Valid() && Fits((if 1 < left < 65536 then left - 1 else 0) + (if neg then 1 else 0) + more)
      modifies this, buf
      ensures Valid() && pos + room == old(pos + room) && Fits(more)
      ensures var n := if 1 < left < 65536 then left - 1 else 0;
        var early, late := neg && fill == '0' && old(room) != 0, neg && fill != '0' && old(room) > n;
        && produced == old(produced) + Sign(early) + Repeat(fill, n) + Sign(late)
        && counted == old(counted) + |Sign(early)| + n + |Sign(late)|
    {
      hide Valid, Sign;
      var early := PutSign(neg && fill == '0');
      PutPadding(left, fill);
      var late := PutSign(neg && !early);
    }

    /** One numeric conversion. A minus sign that meets a full buffer is dropped and not counted. */
    method Convert(kind: Kind, spec: string, x: U32) returns (ghost k: nat)
      requires Valid() && AllDigits(spec) && Fits(|Printed(kind, spec, x, TopOf(kind, x))|)
      modifies this, buf
      ensures Valid() && pos + room == old(pos + room)
      ensures k == TopOf(kind, x)
      ensures produced == old(produced) + Written(kind, spec, x, k, old(room))
      ensures counted == old(counted) + |Written(kind, spec, x, k, old(room))|
    {
      hide Valid, Digits, DigitChar, Power, TopPlace, Width, Fill, Written, Repeat, Sign, Padding, Magnitude, Negative,
           Top, Printed;
      var count, fill := ReadSpec(spec);
      MagnitudeIs(kind, x);
      var neg := kind == Signed && x >= 0x8000_0000;
      var v: U32 := if neg then (0 - x) % WORD else x;
      var idx, left;
      idx, left, k := FindPlace(v, Base(kind), count);
      TopIsUnique(v, Base(kind), k, TopOf(kind, x));
      PaddingIs(count, k, neg, left);
      if neg {
        left := (left - 1) % WORD;
      }
      PrintedLength(kind, spec, x, k);
      PutFront(neg, left, fill, k + 1);
      PutDigits(v, Base(kind), idx, k);
      Assembled(kind, spec, x, k, old(room), old(produced));
    }
  }

  function Sign(there: bool): string {
    if there then "-" else ""
  }

  /** What is written consists of a sign, the padding, a sign and the digits. */
  lemma WrittenIs(kind: Kind, spec: string, x: U32, k: nat, room: nat)
    ensures var neg, fill := Negative(kind, x), Fill(spec);
      var n := Padding(Width(spec), k, neg);
      Written(kind, spec, x, k, room) == Sign(neg && fill == '0' && room != 0) + Repeat(fill, n)
        + Sign(neg && fill != '0' && room > n) + Digits(Magnitude(kind, x), Base(kind), k)
  {
  }

  lemma PrintedLength(kind: Kind, spec: string, x: U32, k: nat)
    ensures var neg := Negative(kind, x);
      |Printed(kind, spec, x, k)| == Padding(Width(spec), k, neg) + (if neg then 1 else 0) + (k + 1)
  {
    hide Digits, Magnitude, Negative, Width, Fill, Padding;
    DigitsLength(Magnitude(kind, x), Base(kind), k);
  }

  /** The pieces of a conversion, put one behind the other, are the text. */
  lemma Assembled(kind: Kind, spec: string, x: U32, k: nat, room: nat, was: string)
    ensures var neg, fill := Negative(kind, x), Fill(spec);
      var n := Padding(Width(spec), k, neg);
      var early, late := Sign(neg && fill == '0' && room != 0), Sign(neg && fill != '0' && room > n);
      var written := Written(kind, spec, x, k, room);
      && was + early + Repeat(fill, n) + late + Digits(Magnitude(kind, x), Base(kind), k) == was + written
      && |written| == |early| + n + |late| + k + 1
  {
    hide Digits, Width, Fill, Padding, Repeat, Base, Magnitude, Negative, Written, Sign;
    WrittenIs(kind, spec, x, k, room);
    DigitsLength(Magnitude(kind, x), Base(kind), k);
  }

  /** The text of a conversion as far as it is produced with `room` characters left in the buffer. */
  ghost function Written(kind: Kind, spec: string, x: U32, k: nat, room: nat): string {
    if SignLost(kind, spec, x, k, room)
    then Repeat(Fill(spec), Padding(Width(spec), k, true)) + Digits(Magnitude(kind, x), Base(kind), k)
    else Printed(kind, spec, x, k)
  }

  /** A minus sign meets a full buffer. */
  predicate SignLost(kind: Kind, spec: string, x: U32, k: nat, room: nat) {
    Negative(kind, x) && room <= SignAt(Width(spec), k, Fill(spec))
  }

  /** So -1 printed into a buffer of one character produces a count of 1. */
  lemma MinusOneLosesSign()
    ensures TopPlace(Magnitude(Signed, 0xFFFF_FFFF), 10, 0)
    ensures SignLost(Signed, "", 0xFFFF_FFFF, 0, Limit(1))
    ensures Printed(Signed, "", 0xFFFF_FFFF, 0) == "-1" && Written(Signed, "", 0xFFFF_FFFF, 0, Limit(1)) == "1"
  {
  }

  /** Minus forty-two in a field of five loses its sign where it would stand: at the third place behind spaces, at the
      first before zeros. */
  lemma SignLostWhere(room: nat)
    ensures SignLost(Signed, "5", 0xFFFF_FFD6, 1, room) <==> room <= 2
    ensures SignLost(Signed, "05", 0xFFFF_FFD6, 1, room) <==> room == 0
  {
    hide Width, Fill;
    assert Decimal("5") == 5 && Decimal("05") == 5 by { assert "5"[..0] == "" && "05"[..1] == "0" && "0"[..0] == ""; }
    SpecMeans("5");
    SpecMeans("05");
  }

  /** The room a buffer of `size` leaves beside the terminator. */
  function Limit(size: nat): nat {
    if size != 0 then size - 1 else 0
  }

  /** The place value at `base^j`, zero once the digits are through. */
  ghost function PlaceAt(base: nat, j: int): nat {
    if j < 0 then 0 else Power(base, j)
  }

  ghost function DigitsFrom(v: nat, base: nat, j: int): string
    requires 2 <= base <= 16
  {
    if j < 0 then "" else Digits(v, base, j)
  }

  /** One digit is written and the place value divides down to the next. */
  lemma PlaceDown(v: nat, base: nat, j: int)
    requires 2 <= base <= 16 && PlaceAt(base, j) != 0
    ensures j >= 0 && PlaceAt(base, j) / base == PlaceAt(base, j - 1)
    ensures v / PlaceAt(base, j) >= 0
    ensures DigitsFrom(v, base, j) == [DigitChar(v / PlaceAt(base, j) % base)] + DigitsFrom(v, base, j - 1)
  {
    hide DigitChar;
    QuotientNonnegative(v, PlaceAt(base, j));
    if j > 0 {
      DivUnique(Power(base, j), base, Power(base, j - 1), 0);
    }
  }

  lemma PlacesEnd(v: nat, base: nat, j: int)
    requires 2 <= base <= 16 && PlaceAt(base, j) == 0
    ensures j < 0 && DigitsFrom(v, base, j) == ""
  {
    if j >= 0 {
      PowerPositive(base, j);
    }
  }

  /** What is produced with too little room agrees with the text as far as the room goes. */
  lemma WrittenFits(kind: Kind, spec: string, x: U32, k: nat, room: nat)
    ensures var text, written := Printed(kind, spec, x, k), Written(kind, spec, x, k, room);
      && Min(|written|, room) == Min(|text|, room) && written[..Min(|text|, room)] == text[..Min(|text|, room)]
      && |written| == |text| - (if SignLost(kind, spec, x, k, room) then 1 else 0)
  {
  }

  /** Blanks, the sign and a hexadecimal prefix. */
  method ReadFront(s: string, radix: nat) returns (i: nat, base: nat, neg: bool)
    requires radix == 0 || 2 <= radix <= 16
    ensures i == Start(s, radix) && base == Radix(s, radix) && neg == Negated(s)
  {
    hide HexPrefix;
    base, i, neg := radix, 0, false;
    while At(s, i) == ' ' || At(s, i) == '\t'
      invariant i <= |s| && SkipBlanks(s, i) == SkipBlanks(s, 0)
      decreases |s| - i
    {
      i := i + 1;
    }
    if At(s, i) == '-' {
      neg := true;
      i := i + 1;
    } else if At(s, i) == '+' {
      i := i + 1;
    }
    assert i == AfterSign(s);
    if (base == 0 || base == 16) && HexPrefix(s, i) {
      i := i + 2;
      base := 16;
    }
    if base == 0 {
      base := if At(s, i) == '0' then 8 else 10;
    }
  }

  /** The digits of the number: 32-bit accumulation up to the first character that is no digit of the base. */
  method ReadDigits(s: string, start: nat, base: nat) returns (value: U32, i: nat)
    requires start <= |s| && 2 <= base <= 16
    ensures value == Consume(s, start, base, 0) && i == RunEnd(s, start, base)
  {
    hide DigitValue;
    NulIsNoDigit();
    i, value := start, 0;
    while DigitValue(At(s, i)) < base
      invariant start <= i <= |s|
      invariant Consume(s, i, base, value) == Consume(s, start, base, 0)
      invariant RunEnd(s, i, base) == RunEnd(s, start, base)
      decreases |s| - i
    {
      assert i < |s|;
      value := (value * base + DigitValue(s[i])) % WORD;
      i := i + 1;
    }
  }

  lemma NulIsNoDigit()
    ensures DigitValue('\0') == 36
  {
  }

  /** The parser: the value, and the first character it did not use or the front if it used no digit. */
  method Ustrtoul(s: string, radix: nat) returns (value: U32, rest: nat)
    requires radix == 0 || 2 <= radix <= 16
    ensures value == Parse(s, radix) && rest == Rest(s, radix)
  {
    hide Start, Radix, Negated, Consume;
    var start, base, neg := ReadFront(s, radix);
    assert 2 <= base <= 16 by { RadixBound(s, radix); }
    var end;
    value, end := ReadDigits(s, start, base);
    rest := if end > start then end else 0;
    value := if neg then (0 - value) % WORD else value;
  }

  lemma RadixBound(s: string, radix: nat)
    requires radix == 0 || 2 <= radix <= 16
    ensures 2 <= Radix(s, radix) <= 16
  {
  }

  // ---- what the parser reads ------------------------------------------------------------------

  /** The number some digits of a base write. */
  function NumberOf(digits: string, base: nat): nat {
    if digits == [] then 0 else base * NumberOf(digits[..|digits| - 1], base) + DigitValue(digits[|digits| - 1])
  }

  lemma ModStep(a: nat, b: nat, base: nat, d: nat)
    requires a % WORD == b % WORD
    ensures (a * base + d) % WORD == (b * base + d) % WORD
  {
    var q := a / WORD - b / WORD;
    assert a - b == WORD * q;
    DifferenceScales(a, b, base, q);
    ModAddsMultiple(b * base + d, q * base);
  }

  lemma DifferenceScales(a: int, b: int, base: int, q: int)
    requires a - b == WORD * q
    ensures a * base == b * base + WORD * (q * base)
  {
    Distribute(a, b, base);
  }

  lemma ModAddsMultiple(x: int, k: int)
    ensures (x + WORD * k) % WORD == x % WORD
  {
  }

  /** Consuming the digits gives the number they write, in 32 bits. */
  lemma {:induction false} ConsumedNumber(s: string, i: nat, j: nat, base: nat)
    requires 2 <= base <= 36 && i <= j <= |s| && forall m :: i <= m < j ==> DigitValue(s[m]) < base
    ensures Consume(s, i, base, 0) == Consume(s, j, base, NumberOf(s[i..j], base) % WORD)
    decreases j
  {
    hide DigitValue;
    if i < j {
      ConsumedNumber(s, i, j - 1, base);
      NumberGrows(s, i, j, base);
    } else {
      assert s[i..j] == [];
    }
  }

  /** One more digit, as the parser's 32 bits see it. */
  lemma NumberGrows(s: string, i: nat, j: nat, base: nat)
    requires i < j <= |s|
    ensures var n, d := NumberOf(s[i..j - 1], base), DigitValue(s[j - 1]);
      NumberOf(s[i..j], base) % WORD == (n % WORD * base + d) % WORD
  {
    hide DigitValue;
    var n, d := NumberOf(s[i..j - 1], base), DigitValue(s[j - 1]);
    assert s[i..j][..j - i - 1] == s[i..j - 1];
    ModStep(n, n % WORD, base, d);
    Swap(base, n);
  }

  lemma Swap(a: nat, b: nat)
    ensures a * b == b * a
  {
  }

  /** The parser's value is the number the digits behind blanks, sign and prefix write, negated behind a minus, in
      32 bits. */
  lemma ParsedNumber(s: string, radix: nat)
    requires radix == 0 || 2 <= radix <= 16
    ensures var i, base := Start(s, radix), Radix(s, radix);
      var n := NumberOf(s[i..RunEnd(s, i, base)], base);
      Parse(s, radix) == if Negated(s) then (0 - n) % 0x1_0000_0000 else n % 0x1_0000_0000
  {
    hide Start, Radix, Negated, DigitValue, NumberOf, Consume, RunEnd;
    RadixBound(s, radix);
    var i, base := Start(s, radix), Radix(s, radix);
    var j := RunEnd(s, i, base);
    ConsumedNumber(s, i, j, base);
    ConsumeEnds(s, j, base, NumberOf(s[i..j], base) % WORD);
    NegatedMod(NumberOf(s[i..j], base));
  }

  lemma ConsumeEnds(s: string, j: nat, base: nat, acc: U32)
    requires 2 <= base <= 36 && j <= |s| && (j < |s| ==> DigitValue(s[j]) >= base)
    ensures Consume(s, j, base, acc) == acc
  {
  }

  lemma NegatedMod(n: nat)
    ensures (0 - n % WORD) % WORD == (0 - n) % WORD
  {
  }

  lemma OneMore(s: string, i: nat, base: nat, acc: U32)
    requires i < |s| && 2 <= base <= 36 && DigitValue(s[i]) < base
    ensures Consume(s, i, base, acc) == Consume(s, i + 1, base, (acc * base + DigitValue(s[i])) % WORD)
    ensures RunEnd(s, i, base) == RunEnd(s, i + 1, base)
  {
  }

  lemma NoMore(s: string, i: nat, base: nat, acc: U32)
    requires i <= |s| && 2 <= base <= 36 && (i < |s| ==> DigitValue(s[i]) >= base)
    ensures Consume(s, i, base, acc) == acc && RunEnd(s, i, base) == i
  {
  }

  lemma CharValues()
    ensures DigitValue('0') == 0 && DigitValue('1') == 1 && DigitValue('2') == 2 && DigitValue('7') == 7
    ensures DigitValue('9') == 9 && DigitValue('A') == 10 && DigitValue('F') == 15 && DigitValue('f') == 15
    ensures DigitValue('g') == 16 && DigitValue('x') == 33 && DigitValue('z') == 35
  {
  }

  /** A text that begins with neither a blank nor a sign. */
  lemma PlainFront(s: string, radix: nat)
    requires s != "" && !Blank(s[0]) && s[0] != '-' && s[0] != '+'
    ensures !Negated(s) && AfterSign(s) == 0
    ensures Start(s, radix) == if HexMarked(s, radix) then 2 else 0
    ensures HexMarked(s, radix) <==> (radix == 0 || radix == 16) && HexPrefix(s, 0)
    ensures Radix(s, radix) == if HexMarked(s, radix) then 16 else if radix != 0 then radix
      else if s[0] == '0' then 8 else 10
  {
    hide HexPrefix;
  }

  /** A text that begins with a sign behind `b` blanks and has no prefix. */
  lemma SignedFront(s: string, b: nat, radix: nat)
    requires b + 1 < |s| && (forall i :: 0 <= i < b ==> Blank(s[i])) && (s[b] == '-' || s[b] == '+')
    requires s[b + 1] != '0'
    ensures Negated(s) == (s[b] == '-') && Start(s, radix) == b + 1 && Radix(s, radix) == if radix != 0 then radix else 10
  {
    BlanksSkipped(s, 0, b);
  }

  /** Radix zero takes the base from the text: sixteen behind 0x, */
  lemma ParseHexadecimal()
    ensures Parse("0x1F", 0) == 31 && Rest("0x1F", 0) == 4
  {
    hide Start, Radix, Negated, Consume, RunEnd, DigitValue, SkipBlanks;
    var s := "0x1F";
    CharValues();
    PlainFront(s, 0);
    OneMore(s, 2, 16, 0);
    OneMore(s, 3, 16, 1);
    NoMore(s, 4, 16, 31);
  }

  /** eight behind a zero, */
  lemma ParseOctal()
    ensures Parse("0179", 0) == 15 && Rest("0179", 0) == 3
  {
    hide Start, Radix, Negated, Consume, RunEnd, DigitValue, SkipBlanks;
    var s := "0179";
    CharValues();
    PlainFront(s, 0);
    OneMore(s, 0, 8, 0);
    OneMore(s, 1, 8, 0);
    OneMore(s, 2, 8, 1);
    NoMore(s, 3, 8, 15);
  }

  /** and ten otherwise. */
  lemma ParseDecimal()
    ensures Parse("+19z", 0) == 19 && Rest("+19z", 0) == 3
  {
    hide Start, Radix, Negated, Consume, RunEnd, DigitValue, SkipBlanks;
    var s := "+19z";
    CharValues();
    SignedFront(s, 0, 0);
    OneMore(s, 1, 10, 0);
    OneMore(s, 2, 10, 1);
    NoMore(s, 3, 10, 19);
  }

  /** Blanks and tabs are skipped before the sign. */
  lemma ParseNegative()
    ensures Parse(" \t-2", 10) == 0xFFFF_FFFE && Rest(" \t-2", 10) == 4
  {
    hide Start, Radix, Negated, Consume, RunEnd, DigitValue, SkipBlanks;
    var s := " \t-2";
    CharValues();
    SignedFront(s, 2, 10);
    OneMore(s, 3, 10, 0);
    NoMore(s, 4, 10, 2);
  }

  /** Letters count from ten in either case; without a digit nothing is used. */
  lemma ParseLetters()
    ensures Parse("fA", 16) == 250 && Rest("fA", 16) == 2
    ensures Parse("gA", 16) == 0 && Rest("gA", 16) == 0
  {
    hide Start, Radix, Negated, Consume, RunEnd, DigitValue, SkipBlanks;
    var s, t := "fA", "gA";
    CharValues();
    PlainFront(s, 16);
    PlainFront(t, 16);
    OneMore(s, 0, 16, 0);
    OneMore(s, 1, 16, 15);
    NoMore(s, 2, 16, 250);
    NoMore(t, 0, 16, 0);
  }

  /** The prefix is taken off in base sixteen, */
  lemma ParsePrefix()
    ensures Parse("0x1F", 16) == 31 && Rest("0x1F", 16) == 4
  {
    hide Start, Radix, Negated, Consume, RunEnd, DigitValue, SkipBlanks;
    var s := "0x1F";
    CharValues();
    PlainFront(s, 16);
    OneMore(s, 2, 16, 0);
    OneMore(s, 3, 16, 1);
    NoMore(s, 4, 16, 31);
  }

  /** and is a zero and a letter in base ten. */
  lemma ParseNoPrefix()
    ensures Parse("0x1F", 10) == 0 && Rest("0x1F", 10) == 1
  {
    hide Start, Radix, Negated, Consume, RunEnd, DigitValue, SkipBlanks;
    var s := "0x1F";
    CharValues();
    PlainFront(s, 10);
    OneMore(s, 0, 10, 0);
    NoMore(s, 1, 10, 0);
  }
}
