/** Decimal and hexadecimal numerals and splitting a string at a separator, as JavaScript does them. */
module Text {

  /** A character JavaScript's `toString(base)` uses as a digit: 0-9, then a-f. */
  predicate IsNumeralChar(c: char) {
    '0' <= c <= '9' || 'a' <= c <= 'f'
  }

  function DigitValue(c: char): nat
    requires IsNumeralChar(c)
  {
    if '0' <= c <= '9' then (c as int) - ('0' as int) else (c as int) - ('a' as int) + 10
  }

  predicate IsDigitOf(c: char, base: nat) {
    IsNumeralChar(c) && DigitValue(c) < base
  }

  predicate AllDigitsOf(s: string, base: nat) {
    forall i :: 0 <= i < |s| ==> IsDigitOf(s[i], base)
  }

  predicate AllDigits(s: string) {
    AllDigitsOf(s, 10)
  }

  function DigitChar(d: nat): (c: char)
    requires d < 16
    ensures IsNumeralChar(c) && DigitValue(c) == d
  {
    if d < 10 then (('0' as int) + d) as char else (('a' as int) + d - 10) as char
  }

  /** The value of a numeral in base `base`, most significant digit first. */
  function NumeralValue(s: string, base: nat): nat
    requires AllDigitsOf(s, base)
    decreases |s|
  {
    if s == [] then 0 else NumeralValue(s[..|s| - 1], base) * base + DigitValue(s[|s| - 1])
  }

  /** The shortest numeral of `n` in base `base`, as JavaScript's `n.toString(base)` prints it. */
  function Numeral(n: nat, base: nat): (s: string)
    requires base == 10 || base == 16
    ensures |s| >= 1 && AllDigitsOf(s, base)
    ensures s[0] == '0' ==> n == 0
    decreases n
  {
    if n < base then [DigitChar(n)] else Numeral(n / base, base) + [DigitChar(n % base)]
  }

  lemma {:induction false} LemmaNumeralRoundTrip(n: nat, base: nat)
    requires base == 10 || base == 16
    ensures NumeralValue(Numeral(n, base), base) == n
    decreases n
  {
    if n >= base {
      var prefix := Numeral(n / base, base);
      var s := prefix + [DigitChar(n % base)];
      assert s[..|s| - 1] == prefix;
      LemmaNumeralRoundTrip(n / base, base);
    }
  }

  function DecimalValue(s: string): nat
    requires AllDigits(s)
  {
    NumeralValue(s, 10)
  }

  /** The decimal numeral of `n`, as JavaScript's `${n}` prints it. */
  function NatToDecimal(n: nat): (s: string)
    ensures |s| >= 1 && AllDigits(s) && DecimalValue(s) == n
  {
    LemmaNumeralRoundTrip(n, 10);
    Numeral(n, 10)
  }

  /** An integer as JavaScript's `i.toString(base)` prints it: a minus sign, then the numeral of its magnitude. */
  function IntToNumeral(i: int, base: nat): (s: string)
    requires base == 10 || base == 16
    ensures |s| >= 1
  {
    if i < 0 then "-" + Numeral(-i, base) else Numeral(i, base)
  }

  /** An integer as a template literal prints it. */
  function IntToString(i: int): string {
    IntToNumeral(i, 10)
  }

  /** Distinct integers print differently. */
  lemma LemmaIntToNumeralInjective(a: int, b: int, base: nat)
    requires base == 10 || base == 16
    requires IntToNumeral(a, base) == IntToNumeral(b, base)
    ensures a == b
  {
    if a < 0 && b < 0 {
      assert Numeral(-a, base) == IntToNumeral(a, base)[1..];
      LemmaNumeralRoundTrip(-a, base);
      LemmaNumeralRoundTrip(-b, base);
    } else if a >= 0 && b >= 0 {
      LemmaNumeralRoundTrip(a, base);
      LemmaNumeralRoundTrip(b, base);
    }
  }

  /** `s.split(sep)` in JavaScript: the pieces between separators, empty ones included. */
  function Split(s: string, sep: char): (parts: seq<string>)
    ensures |parts| >= 1
    decreases |s|
  {
    if s == [] then [""]
    else
      var rest := Split(s[1..], sep);
      if s[0] == sep then [""] + rest
      else [[s[0]] + rest[0]] + rest[1..]
  }

  /** `parts.join(sep)` in JavaScript. */
  function Join(parts: seq<string>, sep: char): string
    requires |parts| >= 1
    decreases |parts|
  {
    if |parts| == 1 then parts[0] else parts[0] + [sep] + Join(parts[1..], sep)
  }

  /** A separator-free prefix stays glued to the first piece of what follows it. */
  lemma {:induction false} LemmaSplitGlue(w: string, rest: string, sep: char)
    requires sep !in w
    ensures Split(w + rest, sep) == [w + Split(rest, sep)[0]] + Split(rest, sep)[1..]
    decreases |w|
  {
    if w != [] {
      assert (w + rest)[1..] == w[1..] + rest;
      LemmaSplitGlue(w[1..], rest, sep);
      assert [w[0]] + (w[1..] + Split(rest, sep)[0]) == w + Split(rest, sep)[0];
    } else {
      assert w + rest == rest;
      var parts := Split(rest, sep);
      assert w + parts[0] == parts[0];
      assert parts == [parts[0]] + parts[1..];
    }
  }

  /** Splitting undoes joining when no piece contains the separator. */
  lemma {:induction false} LemmaSplitJoin(parts: seq<string>, sep: char)
    requires |parts| >= 1
    requires forall i :: 0 <= i < |parts| ==> sep !in parts[i]
    ensures Split(Join(parts, sep), sep) == parts
    decreases |parts|
  {
    if |parts| == 1 {
      LemmaSplitGlue(parts[0], "", sep);
      assert parts[0] + "" == parts[0];
    } else {
      var tail := Join(parts[1..], sep);
      LemmaSplitJoin(parts[1..], sep);
      assert Split([sep] + tail, sep) == [""] + parts[1..];
      assert Join(parts, sep) == parts[0] + ([sep] + tail);
      LemmaSplitGlue(parts[0], [sep] + tail, sep);
      assert parts[0] + "" == parts[0];
      assert parts == [parts[0]] + parts[1..];
    }
  }
}
