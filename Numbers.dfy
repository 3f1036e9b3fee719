/** JavaScript's `parseInt` with no radix, as the expiry sweep applies it
    to its `TTL_HOURS` setting, and decimal numerals to check it against. */
module Numbers {
  import opened Wrappers
  import opened Strings

  /** The value of a digit in any radix up to 36. */
  function DigitValue(c: char): (r: Option<nat>)
    ensures r.Some? ==> r.value < 36
    ensures ('0' <= c <= '9') ==> r == Some(c as int - '0' as int)
  {
    if '0' <= c <= '9' then Some(c as int - '0' as int)
    else if 'a' <= c <= 'z' then Some(c as int - 'a' as int + 10)
    else if 'A' <= c <= 'Z' then Some(c as int - 'A' as int + 10)
    else None
  }

  predicate IsDigit(c: char, radix: nat)
  {
    DigitValue(c).Some? && DigitValue(c).value < radix
  }

  /** Length of the longest prefix made of digits of `radix`. */
  function DigitRun(s: string, radix: nat): (n: nat)
    ensures n <= |s|
    ensures forall i :: 0 <= i < n ==> IsDigit(s[i], radix)
    ensures n < |s| ==> !IsDigit(s[n], radix)
  {
    if s != [] && IsDigit(s[0], radix) then 1 + DigitRun(s[1..], radix) else 0
  }

  /** The number a string of digits denotes, most significant first. */
  function ValueOf(digits: string, radix: nat): nat
    requires forall i :: 0 <= i < |digits| ==> IsDigit(digits[i], radix)
  {
    if digits == [] then 0
    else
      var last := digits[|digits| - 1];
      assert IsDigit(last, radix);
      var high := ValueOf(digits[..|digits| - 1], radix);
      NatProduct(high, radix);
      high * radix + DigitValue(last).value
  }

  lemma NatProduct(a: nat, b: nat)
    ensures a * b >= 0
  {
  }

  /** `parseInt(s)`: leading white space, an optional sign, a `0x` or `0X`
      prefix selecting radix 16, then the longest run of digits; `None`
      stands for `NaN`, the result when there is no digit. */
  function ParseInt(s: string): (r: Option<int>)
  {
    var t := s[SpaceRun(s)..];
    var negative := t != [] && t[0] == '-';
    var u := if t != [] && (t[0] == '-' || t[0] == '+') then t[1..] else t;
    var hex := |u| >= 2 && u[0] == '0' && (u[1] == 'x' || u[1] == 'X');
    var radix := if hex then 16 else 10;
    var body := if hex then u[2..] else u;
    var n := DigitRun(body, radix);
    if n == 0 then None
    else
      var v: int := ValueOf(body[..n], radix);
      Some(if negative then -v else v)
  }

  function DecimalDigit(d: nat): (c: char)
    requires d < 10
    ensures IsDigit(c, 10) && DigitValue(c) == Some(d)
  {
    ('0' as int + d) as char
  }

  /** The decimal numeral of `n`, without leading zeros. */
  function Decimal(n: nat): (r: string)
    ensures |r| > 0
    ensures forall i :: 0 <= i < |r| ==> IsDigit(r[i], 10)
    ensures |r| > 1 ==> r[0] != '0'
  {
    if n < 10 then [DecimalDigit(n)] else Decimal(n / 10) + [DecimalDigit(n % 10)]
  }

  /** Reading a numeral back gives the number. */
  lemma {:induction false} DecimalValue(n: nat)
    ensures ValueOf(Decimal(n), 10) == n
  {
    var d := Decimal(n);
    if n >= 10 {
      assert d[..|d| - 1] == Decimal(n / 10);
      DecimalValue(n / 10);
    }
  }

  /** The digit run stops where the digits stop. */
  lemma {:induction false} DigitRunPrefix(d: string, rest: string, radix: nat)
    requires forall i :: 0 <= i < |d| ==> IsDigit(d[i], radix)
    requires rest == [] || !IsDigit(rest[0], radix)
    ensures DigitRun(d + rest, radix) == |d|
  {
    if d != [] {
      assert (d + rest)[1..] == d[1..] + rest;
      DigitRunPrefix(d[1..], rest, radix);
    }
  }

  /** `parseInt` reads a decimal numeral back, whatever follows it as long
      as that does not start with a letter or digit (so `"24"`, `"24 "`
      and `"24.5"` all give 24). */
  lemma ParseDecimal(n: nat, rest: string)
    requires rest == [] || DigitValue(rest[0]).None?
    ensures ParseInt(Decimal(n) + rest) == Some(n)
  {
    var d := Decimal(n);
    var s := d + rest;
    assert s[0] == d[0];
    assert |d| == 1 && |s| >= 2 ==> s[1] == rest[0];
    DigitRunPrefix(d, rest, 10);
    ParsePlain(s);
    assert s[..|d|] == d;
    DecimalValue(n);
  }

  /** Text that starts with a decimal digit and is no `0x` prefix is read
      as the decimal number its leading digits denote. */
  lemma ParsePlain(s: string)
    requires s != [] && IsDigit(s[0], 10)
    requires !(|s| >= 2 && s[0] == '0' && (s[1] == 'x' || s[1] == 'X'))
    ensures ParseInt(s) == Some(ValueOf(s[..DigitRun(s, 10)], 10) as int)
  {
    assert SpaceRun(s) == 0;
    assert s[0..] == s;
  }

  /** Text with no digit after its sign is `NaN`. */
  lemma NoDigits(s: string)
    requires forall i :: 0 <= i < |s| ==> DigitValue(s[i]).None?
    ensures ParseInt(s) == None
  {
    var t := s[SpaceRun(s)..];
    assert forall i :: 0 <= i < |t| ==> DigitValue(t[i]).None?;
  }
}
