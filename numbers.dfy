/** The two number conversions the wishlist dialogs chain together:
    `Number.prototype.toString` on an integer priority and the global
    `parseInt` (called without a radix) on a form field. */
module Numbers {
  import opened Values
  import opened Strings

  /** A digit in base 10, or in base 16 where letters a-f and A-F count too. */
  predicate IsDigit(c: char, radix: nat) {
    ('0' <= c <= '9') || (radix == 16 && (('a' <= c <= 'f') || ('A' <= c <= 'F')))
  }

  function DigitValue(c: char, radix: nat): (d: nat)
    requires radix == 10 || radix == 16
    requires IsDigit(c, radix)
    ensures d < radix
  {
    if '0' <= c <= '9' then c as int - '0' as int
    else if 'a' <= c <= 'f' then c as int - 'a' as int + 10
    else c as int - 'A' as int + 10
  }

  predicate AllDigits(s: string, radix: nat) {
    forall i :: 0 <= i < |s| ==> IsDigit(s[i], radix)
  }

  /** Length of the longest prefix of `s` made of digits of `radix`. */
  function DigitRun(s: string, radix: nat): (k: nat)
    ensures k <= |s|
    ensures AllDigits(s[..k], radix)
    ensures k < |s| ==> !IsDigit(s[k], radix)
    ensures AllDigits(s, radix) ==> k == |s|
    decreases |s|
  {
    if s != [] && IsDigit(s[0], radix) then
      var k := 1 + DigitRun(s[1..], radix);
      assert s[..k] == [s[0]] + s[1..][..k - 1];
      k
    else
      0
  }

  /** Positional value of a string of digits, most significant first. */
  function DigitsValue(s: string, radix: nat): nat
    requires radix == 10 || radix == 16
    requires AllDigits(s, radix)
    decreases |s|
  {
    if s == [] then 0
    else DigitsValue(s[..|s| - 1], radix) * radix + DigitValue(s[|s| - 1], radix)
  }

  /** `parseInt(s)` with no radix argument; None stands for NaN. Leading
      white space is skipped, one sign is read, a "0x" or "0X" prefix
      switches to base 16, and the longest run of digits that follows is
      converted; without a single digit the result is NaN. */
  function ParseInt(s: string): Option<int> {
    var t := TrimStart(s);
    var negative := t != [] && t[0] == '-';
    var u := if t != [] && (t[0] == '-' || t[0] == '+') then t[1..] else t;
    var hex := |u| >= 2 && u[0] == '0' && (u[1] == 'x' || u[1] == 'X');
    var radix := if hex then 16 else 10;
    var v := if hex then u[2..] else u;
    var k := DigitRun(v, radix);
    if k == 0 then None
    else
      var m: int := DigitsValue(v[..k], radix);
      Some(if negative then -m else m)
  }

  function DecimalDigit(d: nat): (c: char)
    requires d < 10
    ensures IsDigit(c, 10) && DigitValue(c, 10) == d
  {
    ('0' as int + d) as char
  }

  /** The decimal numeral of `n`, without leading zeros; its digits read
      back as `n`. */
  function NatToString(n: nat): (r: string)
    ensures |r| >= 1 && AllDigits(r, 10)
    ensures DigitsValue(r, 10) == n
    decreases n
  {
    if n < 10 then [DecimalDigit(n)]
    else
      var r := NatToString(n / 10) + [DecimalDigit(n % 10)];
      assert r[..|r| - 1] == NatToString(n / 10);
      r
  }

  /** `n.toString()` for an integer `n`: a minus sign before the numeral of
      its magnitude when it is negative. */
  function IntToString(n: int): (r: string)
    ensures |r| >= 1
  {
    if n < 0 then "-" + NatToString(-n) else NatToString(n)
  }

  /** `parseInt(n.toString())` gives `n` back: the numeral has no leading
      white space, at most a minus sign, no "0x" prefix and only digits. */
  lemma ParseIntOfIntToString(n: int)
    ensures ParseInt(IntToString(n)) == Some(n)
  {
    var s := IntToString(n);
    var digits := NatToString(if n < 0 then -n else n);
    assert !IsWhiteSpace(s[0]);
    assert TrimStart(s) == s;
    if n < 0 {
      assert s[1..] == digits;
    }
    assert |digits| >= 2 ==> IsDigit(digits[1], 10);
    assert digits[..|digits|] == digits;
  }

  /** `parseInt` of a single decimal digit is that digit. */
  lemma ParseSingleDigit(d: nat)
    requires d < 10
    ensures ParseInt([DecimalDigit(d)]) == Some(d)
  {
    var s := [DecimalDigit(d)];
    assert !IsWhiteSpace(s[0]);
    assert TrimStart(s) == s;
    assert AllDigits(s, 10);
    assert DigitRun(s, 10) == 1;
    assert s[..1] == s && s[..0] == [];
    assert DigitsValue(s, 10) == d;
  }
}
