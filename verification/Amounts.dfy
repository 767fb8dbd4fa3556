/**
 Payment amounts: minor units (hundredths) printed as decimal text in two ways, and the reader that
 turns the text of a notification back into minor units.
 */
module Amounts {
  import opened Wrappers
  import opened GoText
  import opened Machine

  function Pow10(n: nat): (p: nat)
    ensures p > 0
  {
    if n == 0 then 1 else 10 * Pow10(n - 1)
  }

  // ---- digits

  predicate IsDigit(c: char) { '0' <= c <= '9' }

  predicate AllDigits(s: string) { s == "" || (IsDigit(s[|s| - 1]) && AllDigits(s[..|s| - 1])) }

  function DigitChar(d: nat): (c: char)
    requires d < 10
    ensures IsDigit(c) && c as int - '0' as int == d
  {
    ('0' as int + d) as char
  }

  function Value(s: string): nat
    requires AllDigits(s)
  {
    if s == "" then 0 else Value(s[..|s| - 1]) * 10 + (s[|s| - 1] as int - '0' as int)
  }

  /** `%d` of a natural number. */
  function Digits(n: nat): (s: string)
    ensures s != ""
  {
    if n < 10 then [DigitChar(n)] else Digits(n / 10) + [DigitChar(n % 10)]
  }

  lemma Snoc(s: string, c: char)
    ensures (s + [c])[..|s|] == s && (s + [c])[|s|] == c
  {
  }

  lemma {:induction false} DigitsValue(n: nat)
    ensures AllDigits(Digits(n)) && Value(Digits(n)) == n
  {
    if n < 10 {
      Snoc("", DigitChar(n));
      assert "" + [DigitChar(n)] == [DigitChar(n)];
    } else {
      DigitsValue(n / 10);
      Snoc(Digits(n / 10), DigitChar(n % 10));
    }
  }

  lemma {:induction false} AllDigitsAppend(a: string, b: string)
    requires AllDigits(a) && AllDigits(b)
    ensures AllDigits(a + b) && Value(a + b) == Value(a) * Pow10(|b|) + Value(b)
    decreases |b|
  {
    if b == "" {
      assert a + b == a;
    } else {
      var front := b[..|b| - 1];
      AllDigitsAppend(a, front);
      assert (a + b)[..|a + b| - 1] == a + front;
      Distribute(Value(a), Pow10(|front|));
    }
  }

  lemma Distribute(x: nat, y: nat)
    ensures x * (10 * y) == x * y * 10
  {
  }

  // ---- printing

  /** `%02d` of a number below 100. */
  function TwoDigits(n: nat): string
    requires n < 100
  {
    [DigitChar(n / 10), DigitChar(n % 10)]
  }

  /** Digits, a point and two digits, as both printers write. */
  function Pointed(whole: string, part: string): string { whole + "." + part }

  /** The refund printer: `fmt.Sprintf("%d.%02d", minor/100, minor%100)`. */
  function PrintRefund(minor: nat): string { Pointed(Digits(minor / 100), TwoDigits(minor % 100)) }

  function Zeros(n: nat): string { if n == 0 then "" else Zeros(n - 1) + "0" }

  // ---- decimal arithmetic, as the decimal library does it

  /** `mantissa * 10^exponent`. */
  datatype Decimal = Decimal(mantissa: int, exponent: int)

  function Abs(x: int): nat { if x < 0 then -x else x }

  /** Division towards zero, and its remainder. */
  function Quo(a: int, b: int): int
    requires b != 0
  {
    if (a < 0) == (b < 0) then Abs(a) / Abs(b) else -(Abs(a) / Abs(b))
  }

  function Rem(a: int, b: int): int
    requires b != 0
  {
    a - Quo(a, b) * b
  }

  function Rescale(d: Decimal, exponent: int): Decimal {
    if exponent > d.exponent then Decimal(Quo(d.mantissa, Pow10(exponent - d.exponent)), exponent)
    else Decimal(d.mantissa * Pow10(d.exponent - exponent), exponent)
  }

  function Min(a: int, b: int): int { if a < b then a else b }

  function Plus(a: Decimal, b: Decimal): Decimal {
    var e := Min(a.exponent, b.exponent);
    Decimal(Rescale(a, e).mantissa + Rescale(b, e).mantissa, e)
  }

  predicate Below(a: Decimal, b: Decimal) {
    var e := Min(a.exponent, b.exponent);
    Rescale(a, e).mantissa < Rescale(b, e).mantissa
  }

  /** The quotient cut off after `precision` places, and what is left. */
  function QuoRem(a: Decimal, b: Decimal, precision: nat): (Decimal, Decimal)
    requires b.mantissa != 0
  {
    var e := a.exponent - b.exponent + precision;
    var x := if e < 0 then a.mantissa else a.mantissa * Pow10(e);
    var y := if e < 0 then b.mantissa * Pow10(-e) else b.mantissa;
    (Decimal(Quo(x, y), 0 - precision), Decimal(Rem(x, y), if e < 0 then a.exponent else b.exponent - precision))
  }

  /** The quotient rounded to `precision` places, halves away from zero. */
  function DivRound(a: Decimal, b: Decimal, precision: nat): Decimal
    requires b.mantissa != 0
  {
    var (q, r) := QuoRem(a, b, precision);
    var twice := Decimal(2 * Abs(r.mantissa), r.exponent + precision);
    if Below(twice, Decimal(Abs(b.mantissa), b.exponent)) then q
    else if (a.mantissa < 0) != (b.mantissa < 0) then Plus(q, Decimal(-1, 0 - precision))
    else Plus(q, Decimal(1, 0 - precision))
  }

  const DIVISION_PRECISION: nat := 16

  function Div(a: Decimal, b: Decimal): Decimal
    requires b.mantissa != 0
  {
    DivRound(a, b, DIVISION_PRECISION)
  }

  /** `Round`: cut off one place later, move half a unit away from zero, and cut off the last place. */
  function Round(d: Decimal, places: int): Decimal {
    if d.exponent == -places then d
    else
      var cut := Rescale(d, -places - 1).mantissa;
      Decimal(if cut < 0 then Quo(cut - 5, 10) else Quo(cut + 5, 10), -places)
  }

  /** The text of a decimal, without cutting zeros at its end. */
  function Text(d: Decimal): string {
    var digits := Digits(Abs(if d.exponent >= 0 then Rescale(d, 0).mantissa else d.mantissa));
    var places := if d.exponent >= 0 then 0 else -d.exponent;
    var number := if places == 0 then digits
                  else if |digits| > places then Pointed(digits[..|digits| - places], digits[|digits| - places..])
                  else Pointed("0", Zeros(places - |digits|) + digits);
    if d.mantissa < 0 then "-" + number else number
  }

  /** The checkout printer: hundredths divided by 100, with two decimals. */
  function PrintCheckout(minor: int): string {
    Text(Round(Div(Decimal(minor, 0), Decimal(100, 0)), 2))
  }

  lemma QuoRemExact(a: nat, b: nat, q: nat, precision: nat)
    requires b > 0 && a * Pow10(precision) == q * b
    ensures QuoRem(Decimal(a, 0), Decimal(b, 0), precision) == (Decimal(q, 0 - precision), Decimal(0, 0 - precision))
  {
    MultipleDivides(q, b);
    var x := a * Pow10(precision);
    assert x >= 0 && Abs(x) == x && Abs(b) == b && Quo(x, b) == q;
  }

  lemma ZeroIsBelow(b: nat)
    requires b > 0
    ensures Below(Decimal(0, 0), Decimal(b, 0))
  {
    assert Pow10(0) == 1;
  }

  /** A quotient that has at most `precision` decimals is found exactly. */
  lemma DivIsExact(a: nat, b: nat, q: nat, precision: nat)
    requires b > 0 && a * Pow10(precision) == q * b
    ensures DivRound(Decimal(a, 0), Decimal(b, 0), precision) == Decimal(q, 0 - precision)
  {
    QuoRemExact(a, b, q, precision);
    ZeroIsBelow(b);
  }

  /** `m` is `x / b` rounded to an integer, halves away from zero. */
  predicate NearestQuotient(x: int, b: int, m: int) {
    if x >= 0 then 2 * x - b < 2 * (m * b) <= 2 * x + b else 2 * x - b <= 2 * (m * b) < 2 * x + b
  }

  lemma QuoBounds(x: int, b: int)
    requires b > 0
    ensures Abs(Rem(x, b)) < b && (x >= 0 ==> Rem(x, b) >= 0) && (x <= 0 ==> Rem(x, b) <= 0)
  {
    var q := Abs(x) / b;
    assert q * b <= Abs(x) < q * b + b;
    assert -q * b == -(q * b);
  }

  lemma NextMultiple(q: int, b: int)
    ensures (q + 1) * b == q * b + b && (q - 1) * b == q * b - b
  {
  }

  /** From the cut-off quotient to the rounded one. */
  lemma RoundsAway(x: int, b: int, q: int, r: int, m: int)
    requires b > 0 && x == q * b + r && Abs(r) < b && (x >= 0 ==> r >= 0) && (x <= 0 ==> r <= 0)
    requires m == if 2 * Abs(r) < b then q else if x < 0 then q - 1 else q + 1
    ensures NearestQuotient(x, b, m)
  {
    NextMultiple(q, b);
  }

  lemma SignOfProduct(a: int, p: nat)
    requires p > 0
    ensures a < 0 <==> a * p < 0
  {
  }

  lemma DivRoundIs(a: int, b: int, precision: nat, x: int, q: int, r: int)
    requires b > 0 && x == a * Pow10(precision) && (a < 0 <==> x < 0) && q == Quo(x, b) && r == Rem(x, b)
    ensures DivRound(Decimal(a, 0), Decimal(b, 0), precision)
         == Decimal(if 2 * Abs(r) < b then q else if x < 0 then q - 1 else q + 1, 0 - precision)
  {
    PlusUnit(q, 1, 0 - precision);
    PlusUnit(q, -1, 0 - precision);
    assert Pow10(0) == 1;
    assert Below(Decimal(2 * Abs(r), 0), Decimal(b, 0)) <==> 2 * Abs(r) < b;
  }

  lemma PlusUnit(q: int, u: int, exponent: int)
    ensures Plus(Decimal(q, exponent), Decimal(u, exponent)) == Decimal(q + u, exponent)
  {
    assert Pow10(0) == 1;
  }

  /** Division at any number of places is rounded to the nearest, whatever the sign. */
  lemma DivIsNearest(a: int, b: int, precision: nat)
    requires b > 0
    ensures var d := DivRound(Decimal(a, 0), Decimal(b, 0), precision);
      d.exponent == 0 - precision && NearestQuotient(a * Pow10(precision), b, d.mantissa)
  {
    var x := a * Pow10(precision);
    var q, r := Quo(x, b), Rem(x, b);
    SignOfProduct(a, Pow10(precision));
    QuoBounds(x, b);
    DivRoundIs(a, b, precision, x, q, r);
    RoundsAway(x, b, q, r, if 2 * Abs(r) < b then q else if x < 0 then q - 1 else q + 1);
  }

  lemma Powers()
    ensures Pow10(1) == 10 && Pow10(2) == 100 && Pow10(13) == 10_000_000_000_000
    ensures Pow10(14) == 100_000_000_000_000 && Pow10(16) == 10_000_000_000_000_000
  {
    assert Pow10(4) == 10_000 by { assert Pow10(2) == 100; }
    assert Pow10(8) == 100_000_000 by { assert Pow10(6) == 1_000_000; }
    assert Pow10(12) == 1_000_000_000_000 by { assert Pow10(10) == 10_000_000_000; }
    assert Pow10(14) == 100_000_000_000_000 by { assert Pow10(13) == 10_000_000_000_000; }
  }

  lemma RoundTens(m: nat)
    ensures Round(Decimal(m * 100_000_000_000_000, -16), 2) == Decimal(m, -2)
  {
    Powers();
    MultipleDivides(m * 10, 10_000_000_000_000);
    assert m * 10 * 10_000_000_000_000 == m * 100_000_000_000_000;
    assert Rescale(Decimal(m * 100_000_000_000_000, -16), -3) == Decimal(m * 10, -3);
    assert (m * 10 + 5) / 10 == m;
  }

  /** Dividing hundredths by 100 and rounding to two places loses nothing. */
  lemma CheckoutIsExact(minor: nat)
    ensures Round(Div(Decimal(minor, 0), Decimal(100, 0)), 2) == Decimal(minor, -2)
  {
    Powers();
    DivIsExact(minor, 100, minor * 100_000_000_000_000, DIVISION_PRECISION);
    RoundTens(minor);
  }

  lemma TextOfHundredths(minor: nat)
    ensures Text(Decimal(minor, -2)) == Hundredths(Digits(minor))
  {
  }

  /** Digits with a point before the last two, and zeros where digits are missing. */
  function Hundredths(digits: string): string {
    if |digits| > 2 then Pointed(digits[..|digits| - 2], digits[|digits| - 2..])
    else Pointed("0", Zeros(2 - |digits|) + digits)
  }

  lemma DigitsOfHundreds(n: nat)
    requires n >= 100
    ensures Digits(n) == Digits(n / 100) + TwoDigits(n % 100)
  {
    assert Digits(n) == Digits(n / 10) + [DigitChar(n % 10)];
    assert Digits(n / 10) == Digits(n / 10 / 10) + [DigitChar(n / 10 % 10)];
    assert n / 10 / 10 == n / 100 && n / 10 % 10 == n % 100 / 10 && n % 10 == n % 100 % 10;
  }

  lemma SplitLastTwo(head: string, tail: string)
    requires |tail| == 2
    ensures (head + tail)[..|head + tail| - 2] == head && (head + tail)[|head + tail| - 2..] == tail
  {
  }

  lemma SmallAmounts(n: nat)
    requires n < 100
    ensures |Digits(n)| <= 2 && Zeros(2 - |Digits(n)|) + Digits(n) == TwoDigits(n)
  {
    if n < 10 {
      assert Digits(n) == [DigitChar(n)] && Zeros(1) == Zeros(0) + "0";
      assert DigitChar(0) == '0';
    } else {
      assert Digits(n / 10) == [DigitChar(n / 10)];
    }
  }

  lemma HundredthsLong(head: string, tail: string)
    requires head != "" && |tail| == 2
    ensures Hundredths(head + tail) == Pointed(head, tail)
  {
    SplitLastTwo(head, tail);
  }

  lemma ZeroDigits()
    ensures Digits(0) == "0"
  {
    assert DigitChar(0) == '0';
  }

  lemma HundredthsAgree(minor: nat)
    ensures Hundredths(Digits(minor)) == PrintRefund(minor)
  {
    if minor >= 100 {
      DigitsOfHundreds(minor);
      HundredthsLong(Digits(minor / 100), TwoDigits(minor % 100));
    } else {
      SmallAmounts(minor);
      assert Hundredths(Digits(minor)) == Pointed("0", TwoDigits(minor));
      ZeroDigits();
      assert minor / 100 == 0 && minor % 100 == minor;
    }
  }

  /** Both printers write the same text. */
  lemma PrintersAgree(minor: nat)
    ensures PrintCheckout(minor) == PrintRefund(minor)
  {
    CheckoutIsExact(minor);
    TextOfHundredths(minor);
    HundredthsAgree(minor);
  }

  // ---- reading

  /** An optional sign and at least one digit. */
  function ParseInt(s: string): Option<int> {
    if s == "" then None
    else
      var digits := if s[0] == '+' || s[0] == '-' then s[1..] else s;
      if digits == "" || !AllDigits(digits) then None
      else Some(if s[0] == '-' then 0 - Value(digits) else Value(digits))
  }

  /** The first position of a character that `stop` singles out, or the length. */
  function IndexOf(s: string, stop: set<char>, from: nat): (i: nat)
    requires from <= |s|
    ensures from <= i <= |s|
    ensures i < |s| ==> s[i] in stop
    ensures forall k :: from <= k < i ==> s[k] !in stop
    decreases |s| - from
  {
    if from == |s| || s[from] in stop then from else IndexOf(s, stop, from + 1)
  }

  const MIN_INT32 := -0x8000_0000
  const MAX_INT32 := 0x7FFF_FFFF

  /** Digits with at most one point. */
  function ParsePlain(s: string, exponent: int): Option<Decimal> {
    var p := IndexOf(s, {'.'}, 0);
    if p == |s| then
      var m := ParseInt(s);
      if m.None? then None else Some(Decimal(m.value, exponent))
    else if IndexOf(s, {'.'}, p + 1) != |s| then None
    else
      var m := ParseInt(s[..p] + s[p + 1..]);
      if m.None? then None else Some(Decimal(m.value, exponent - (|s| - p - 1)))
  }

  /** `decimal.NewFromString`: a number with an optional point and an optional exponent. */
  function ParseDecimal(s: string): Option<Decimal> {
    var e := IndexOf(s, {'E', 'e'}, 0);
    var exponent := if e == |s| then Some(0) else ParseInt(s[e + 1..]);
    if exponent.None? || !(MIN_INT32 <= exponent.value <= MAX_INT32) then None
    else
      var d := ParsePlain(s[..e], exponent.value);
      if d.None? || !(MIN_INT32 <= d.value.exponent <= MAX_INT32) then None else d
  }

  /** `alipayAmountMinor`. */
  function AmountMinor(raw: string): Option<int> {
    var parsed := ParseDecimal(TrimSpace(raw));
    if parsed.None? || parsed.value.mantissa <= 0 then None
    else
      var minor := Hundredfold(parsed.value);
      if minor.None? || minor.value > MAX_INT64 then None else minor
  }

  /** `minor` is exactly a hundred times the decimal: no rounding. */
  predicate IsHundredfold(minor: int, d: Decimal) {
    if d.exponent >= 0 then minor == d.mantissa * 100 * Pow10(d.exponent)
    else minor * Pow10(-d.exponent) == d.mantissa * 100
  }

  lemma DivExact(a: int, b: int, q: int)
    requires b > 0
    ensures a % b == 0 && a / b == q <==> q * b == a
  {
    if q * b == a {
      MultipleDivides(q, b);
    }
  }

  lemma MultipleDivides(q: int, b: int)
    requires b > 0
    ensures (q * b) % b == 0 && (q * b) / b == q
  {
    var a := q * b;
    var d := a / b - q;
    assert d * b == -(a % b);
    assert d >= 1 ==> d * b >= b;
    assert d <= -1 ==> d * b <= -b;
  }

  /** A hundred times the decimal, if that is a whole number. */
  function Hundredfold(d: Decimal): Option<int> {
    var hundredfold := d.mantissa * 100;
    if d.exponent >= 0 then Some(hundredfold * Pow10(d.exponent))
    else if hundredfold % Pow10(-d.exponent) != 0 then None
    else Some(hundredfold / Pow10(-d.exponent))
  }

  lemma HundredfoldIsExact(d: Decimal, minor: int)
    ensures Hundredfold(d) == Some(minor) <==> IsHundredfold(minor, d)
  {
    if d.exponent < 0 { DivExact(d.mantissa * 100, Pow10(-d.exponent), minor); }
  }

  /** The reader accepts exactly the positive decimals whose hundredfold is a 64-bit integer, and returns it. */
  lemma AmountMinorExactly(raw: string, minor: int, parsed: Option<Decimal>)
    requires parsed == ParseDecimal(TrimSpace(raw))
    ensures AmountMinor(raw) == Some(minor) <==>
            parsed.Some? && parsed.value.mantissa > 0 && minor <= MAX_INT64 && IsHundredfold(minor, parsed.value)
  {
    if parsed.Some? { HundredfoldIsExact(parsed.value, minor); }
  }

  lemma {:induction false} DigitAt(s: string, i: nat)
    requires AllDigits(s) && i < |s|
    ensures IsDigit(s[i])
  {
    if i < |s| - 1 { DigitAt(s[..|s| - 1], i); }
  }

  lemma {:induction false} IndexOfIs(s: string, stop: set<char>, from: nat, i: nat)
    requires from <= i <= |s| && (i < |s| ==> s[i] in stop) && forall k :: from <= k < i ==> s[k] !in stop
    ensures IndexOf(s, stop, from) == i
    decreases i - from
  {
    if from < i { IndexOfIs(s, stop, from + 1, i); }
  }

  ghost predicate NoneIn(s: string, stop: set<char>) { forall k :: 0 <= k < |s| ==> s[k] !in stop }

  lemma DigitsNoneIn(s: string, stop: set<char>)
    requires AllDigits(s) && forall c :: c in stop ==> !IsDigit(c)
    ensures NoneIn(s, stop)
  {
    forall k | 0 <= k < |s| ensures s[k] !in stop { DigitAt(s, k); }
  }

  lemma NoneInAppend(a: string, b: string, stop: set<char>)
    requires NoneIn(a, stop) && NoneIn(b, stop)
    ensures NoneIn(a + b, stop)
  {
  }

  lemma FoundAfter(a: string, b: string, stop: set<char>)
    requires NoneIn(a, stop) && (b == "" || b[0] in stop)
    ensures IndexOf(a + b, stop, 0) == |a|
  {
    IndexOfIs(a + b, stop, 0, |a|);
  }

  lemma NotFound(a: string, b: string, stop: set<char>)
    requires NoneIn(b, stop)
    ensures IndexOf(a + b, stop, |a|) == |a + b|
  {
    IndexOfIs(a + b, stop, |a|, |a + b|);
  }

  lemma DigitIsNotSpace(c: char)
    requires IsDigit(c)
    ensures !IsSpace(c)
  {
  }

  lemma PointedIsTrimmed(whole: string, part: string)
    requires whole != "" && |part| == 2 && !IsSpace(whole[0]) && !IsSpace(part[1])
    ensures Trimmed(Pointed(whole, part))
  {
    var s := Pointed(whole, part);
    assert s[0] == whole[0] && s[|s| - 1] == part[1];
  }

  lemma PointedHasNoExponent(whole: string, part: string)
    requires AllDigits(whole) && AllDigits(part)
    ensures IndexOf(Pointed(whole, part), {'E', 'e'}, 0) == |Pointed(whole, part)|
  {
    DigitsNoneIn(whole, {'E', 'e'});
    DigitsNoneIn(part, {'E', 'e'});
    NoneInAppend(whole, ".", {'E', 'e'});
    NoneInAppend(whole + ".", part, {'E', 'e'});
    FoundAfter(Pointed(whole, part), "", {'E', 'e'});
    assert Pointed(whole, part) + "" == Pointed(whole, part);
  }

  lemma PointAt(whole: string, part: string)
    requires AllDigits(whole) && AllDigits(part)
    ensures IndexOf(Pointed(whole, part), {'.'}, 0) == |whole|
    ensures IndexOf(Pointed(whole, part), {'.'}, |whole| + 1) == |Pointed(whole, part)|
  {
    FirstPoint(whole, part);
    DigitsNoneIn(part, {'.'});
    NotFound(whole + ".", part, {'.'});
  }

  lemma FirstPoint(whole: string, part: string)
    requires AllDigits(whole)
    ensures IndexOf(Pointed(whole, part), {'.'}, 0) == |whole|
  {
    DigitsNoneIn(whole, {'.'});
    FoundAfter(whole, "." + part, {'.'});
    assert whole + ("." + part) == Pointed(whole, part);
  }

  lemma WithoutPoint(whole: string, part: string)
    ensures Pointed(whole, part)[..|whole|] + Pointed(whole, part)[|whole| + 1..] == whole + part
  {
    var s := Pointed(whole, part);
    assert s[..|whole|] == whole && s[|whole| + 1..] == part;
  }

  lemma ParseDigits(s: string)
    requires s != "" && AllDigits(s)
    ensures ParseInt(s) == Some(Value(s))
  {
    DigitAt(s, 0);
  }

  lemma ParsePlainAt(s: string, p: nat, joined: string, v: int)
    requires p < |s| && IndexOf(s, {'.'}, 0) == p && IndexOf(s, {'.'}, p + 1) == |s|
    requires joined == s[..p] + s[p + 1..] && ParseInt(joined) == Some(v)
    ensures ParsePlain(s, 0) == Some(Decimal(v, -(|s| - p - 1)))
  {
  }

  lemma ParseWithoutExponent(s: string, d: Decimal)
    requires IndexOf(s, {'E', 'e'}, 0) == |s| && ParsePlain(s, 0) == Some(d) && MIN_INT32 <= d.exponent <= MAX_INT32
    ensures ParseDecimal(s) == Some(d)
  {
    assert s[..|s|] == s;
  }

  lemma ParseJoined(whole: string, part: string, minor: int)
    requires whole != "" && AllDigits(whole) && AllDigits(part) && |part| == 2
    requires Value(whole) * 100 + Value(part) == minor
    ensures ParseInt(whole + part) == Some(minor)
  {
    AllDigitsAppend(whole, part);
    Hundred();
    ParseDigits(whole + part);
  }

  lemma ParsePointed(whole: string, part: string, minor: int)
    requires AllDigits(whole) && AllDigits(part) && |part| == 2 && ParseInt(whole + part) == Some(minor)
    ensures ParseDecimal(Pointed(whole, part)) == Some(Decimal(minor, -2))
  {
    PointAt(whole, part);
    WithoutPoint(whole, part);
    ParsePlainAt(Pointed(whole, part), |whole|, whole + part, minor);
    PointedHasNoExponent(whole, part);
    ParseWithoutExponent(Pointed(whole, part), Decimal(minor, -2));
  }

  lemma TrimmedFixed(s: string)
    requires Trimmed(s)
    ensures TrimSpace(s) == s
  {
  }

  lemma ParsePrinted(whole: string, part: string, minor: int)
    requires whole != "" && AllDigits(whole) && AllDigits(part) && |part| == 2
    requires Value(whole) * 100 + Value(part) == minor
    ensures ParseDecimal(TrimSpace(Pointed(whole, part))) == Some(Decimal(minor, -2))
  {
    DigitAt(whole, 0);
    DigitAt(part, 1);
    DigitIsNotSpace(whole[0]);
    DigitIsNotSpace(part[1]);
    PointedIsTrimmed(whole, part);
    TrimmedFixed(Pointed(whole, part));
    ParseJoined(whole, part, minor);
    ParsePointed(whole, part, minor);
  }

  lemma Hundred()
    ensures Pow10(2) == 100
  {
    assert Pow10(1) == 10;
  }

  lemma ParseRefund(minor: nat)
    ensures ParseDecimal(TrimSpace(PrintRefund(minor))) == Some(Decimal(minor, -2))
  {
    DigitsValue(minor / 100);
    TwoDigitsValue(minor % 100);
    assert Value(Digits(minor / 100)) * 100 + Value(TwoDigits(minor % 100)) == minor;
    ParsePrinted(Digits(minor / 100), TwoDigits(minor % 100), minor);
  }

  /** For every positive 64-bit amount, the text of either printer reads back as the same amount. */
  lemma PrintedReadsBack(minor: nat)
    requires 0 < minor <= MAX_INT64
    ensures AmountMinor(PrintRefund(minor)) == Some(minor) && AmountMinor(PrintCheckout(minor)) == Some(minor)
  {
    ParseRefund(minor);
    Hundred();
    AmountMinorExactly(PrintRefund(minor), minor, Some(Decimal(minor, -2)));
    PrintersAgree(minor);
  }

  lemma DigitsAreTrimmed(s: string)
    requires s != "" && AllDigits(s)
    ensures Trimmed(s)
  {
    DigitAt(s, 0);
    DigitAt(s, |s| - 1);
    DigitIsNotSpace(s[0]);
    DigitIsNotSpace(s[|s| - 1]);
  }

  lemma ParsePlainDigits(s: string, exponent: int)
    requires s != "" && AllDigits(s)
    ensures ParsePlain(s, exponent) == Some(Decimal(Value(s), exponent))
  {
    DigitsNoneIn(s, {'.'});
    FoundAfter(s, "", {'.'});
    assert s + "" == s;
    ParseDigits(s);
  }

  lemma ParseScientific(whole: string, e: char, exponent: string)
    requires whole != "" && AllDigits(whole) && exponent != "" && AllDigits(exponent) && e in {'E', 'e'}
    requires Value(exponent) <= MAX_INT32
    ensures ParseDecimal(whole + [e] + exponent) == Some(Decimal(Value(whole), Value(exponent)))
  {
    var s := whole + [e] + exponent;
    DigitsNoneIn(whole, {'E', 'e'});
    FoundAfter(whole, [e] + exponent, {'E', 'e'});
    assert s == whole + ([e] + exponent);
    assert s[..|whole|] == whole && s[|whole| + 1..] == exponent;
    ParseDigits(exponent);
    ParsePlainDigits(whole, Value(exponent));
  }

  /** A whole number is read as that many units, a hundred minor ones each. */
  lemma WholeReads(whole: string)
    requires whole != "" && AllDigits(whole) && 0 < Value(whole) * 100 <= MAX_INT64
    ensures AmountMinor(whole) == Some(Value(whole) * 100)
  {
    DigitsAreTrimmed(whole);
    TrimmedFixed(whole);
    DigitsNoneIn(whole, {'E', 'e'});
    FoundAfter(whole, "", {'E', 'e'});
    assert whole + "" == whole;
    ParsePlainDigits(whole, 0);
    ParseWithoutExponent(whole, Decimal(Value(whole), 0));
    AmountMinorExactly(whole, Value(whole) * 100, Some(Decimal(Value(whole), 0)));
  }

  /** With an exponent it is read as that multiple of a power of ten. */
  lemma ScientificReads(whole: string, e: char, exponent: string)
    requires whole != "" && AllDigits(whole) && exponent != "" && AllDigits(exponent) && e in {'E', 'e'}
    requires Value(exponent) <= MAX_INT32 && 0 < Value(whole)
    requires Value(whole) * 100 * Pow10(Value(exponent)) <= MAX_INT64
    ensures AmountMinor(whole + [e] + exponent) == Some(Value(whole) * 100 * Pow10(Value(exponent)))
  {
    var s := whole + [e] + exponent;
    DigitsAreTrimmed(whole);
    DigitsAreTrimmed(exponent);
    assert s[0] == whole[0] && s[|s| - 1] == exponent[|exponent| - 1];
    TrimmedFixed(s);
    ParseScientific(whole, e, exponent);
    AmountMinorExactly(s, Value(whole) * 100 * Pow10(Value(exponent)), Some(Decimal(Value(whole), Value(exponent))));
  }

  lemma OneDigitValue(c: char)
    requires IsDigit(c)
    ensures AllDigits([c]) && Value([c]) == c as int - '0' as int
  {
    assert [c][..0] == "";
    assert AllDigits("") && Value("") == 0;
  }

  lemma TwoDigitsValue(n: nat)
    requires n < 100
    ensures AllDigits(TwoDigits(n)) && Value(TwoDigits(n)) == n
  {
    var s := TwoDigits(n);
    OneDigitValue(DigitChar(n / 10));
    assert s[..1] == [DigitChar(n / 10)] && s[1] == DigitChar(n % 10);
    assert AllDigits(s[..|s| - 1]) && Value(s[..|s| - 1]) == n / 10;
  }
}
