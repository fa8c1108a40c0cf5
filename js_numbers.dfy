/** Integer parsing as the JavaScript global `parseInt(string, radix)` performs it
    (section 19.2.5 of ECMA-262), for the strings both components read from
    their inputs: the number fields and the slices of a `#rrggbb` colour. */
module JsNumbers {

  /** `None` stands for the number NaN that parseInt returns when no digit is found. */
  datatype Option<+T> = None | Some(value: T)

  /** The WhiteSpace and LineTerminator code points that parseInt skips before the number. */
  predicate IsTrimmable(c: char) {
    c == '\t' || c == '\U{000B}' || c == '\U{000C}' || c == ' ' || c == '\U{00A0}' || c == '\U{FEFF}'
    || c == '\n' || c == '\r' || c == '\U{2028}' || c == '\U{2029}'
    || c == '\U{1680}' || ('\U{2000}' <= c <= '\U{200A}') || c == '\U{202F}' || c == '\U{205F}' || c == '\U{3000}'
  }

  /** The value of a digit in any radix up to 36; 36 for a character that is no digit at all. */
  function DigitValue(c: char): nat {
    if '0' <= c <= '9' then c as int - '0' as int
    else if 'a' <= c <= 'z' then c as int - 'a' as int + 10
    else if 'A' <= c <= 'Z' then c as int - 'A' as int + 10
    else 36
  }

  /** The digit character for 0..15, lower case as browsers write colours. */
  function DigitChar(d: nat): (c: char)
    requires d < 16
    ensures DigitValue(c) == d
  {
    if d < 10 then ('0' as int + d) as char else ('a' as int + d - 10) as char
  }

  /** The index of the first character at or after `i` that is not white space. */
  function SkipSpace(s: string, i: nat): (j: nat)
    requires i <= |s|
    ensures i <= j <= |s| && (j < |s| ==> !IsTrimmable(s[j]))
    decreases |s| - i
  {
    if i < |s| && IsTrimmable(s[i]) then SkipSpace(s, i + 1) else i
  }

  /** The end of the longest run of digits of the given radix that starts at `i`. */
  function DigitEnd(s: string, i: nat, radix: nat): (j: nat)
    requires i <= |s|
    ensures i <= j <= |s| && (j < |s| ==> DigitValue(s[j]) >= radix)
    decreases |s| - i
  {
    if i < |s| && DigitValue(s[i]) < radix then DigitEnd(s, i + 1, radix) else i
  }

  /** The value of the digits `s[a..e]`, read most significant digit first. */
  function DigitsValue(s: string, a: nat, e: nat, radix: nat): nat
    requires a <= e <= |s|
    decreases e - a
  {
    if e == a then 0 else DigitsValue(s, a, e - 1, radix) * radix + DigitValue(s[e - 1])
  }

  /** A `0x`/`0X` at `i`, which selects radix 16 when the radix is absent or 16. */
  predicate HasHexPrefix(s: string, i: nat, radix: int) {
    (radix == 0 || radix == 16) && i + 2 <= |s| && s[i] == '0' && (s[i + 1] == 'x' || s[i + 1] == 'X')
  }

  /** The radix the digits at `i` are read in: 16 after a hex prefix, 10 when absent. */
  function MagnitudeRadix(s: string, i: nat, radix: nat): nat {
    if HasHexPrefix(s, i, radix) then 16 else if radix == 0 then 10 else radix
  }

  /** parseInt(s, radix); `radix == 0` stands for an absent radix argument. */
  function ParseInt(s: string, radix: int): (r: Option<int>)
    ensures radix != 0 && (radix < 2 || radix > 36) ==> r == None
    ensures SkipSpace(s, 0) == |s| ==> r == None
  {
    if radix != 0 && (radix < 2 || radix > 36) then None else ParseSigned(s, SkipSpace(s, 0), radix)
  }

  /** The number that starts at `i`, after the white space: one optional sign, then the
      magnitude. */
  function ParseSigned(s: string, i: nat, radix: nat): Option<int>
    requires i <= |s|
  {
    var j := if i < |s| && (s[i] == '-' || s[i] == '+') then i + 1 else i;
    match ParseMagnitude(s, j, radix)
    case None => None
    case Some(m) => Some(if i < |s| && s[i] == '-' then -(m as int) else m)
  }

  /** The magnitude at `j`: the hex prefix is skipped, then the longest run of digits is
      read; no digit at all is NaN. */
  function ParseMagnitude(s: string, j: nat, radix: nat): Option<nat>
    requires j <= |s|
  {
    var k := if HasHexPrefix(s, j, radix) then j + 2 else j;
    var e := DigitEnd(s, k, MagnitudeRadix(s, j, radix));
    if e == k then None else Some(DigitsValue(s, k, e, MagnitudeRadix(s, j, radix)))
  }

  /** `parseInt(s) || 0`: the falsy results, NaN and zero, become 0; any other number is
      kept. */
  function ParseIntOrZero(s: string): (v: int)
    ensures v == 0 <==> ParseInt(s, 0) == None || ParseInt(s, 0) == Some(0)
    ensures v != 0 ==> ParseInt(s, 0) == Some(v)
  {
    match ParseInt(s, 0)
    case None => 0
    case Some(v) => v
  }

  /** The decimal numeral of a natural number, as JavaScript's number-to-string writes it
      for numbers below 10^21 (from there on it uses exponent notation). */
  function Decimal(n: nat): (s: string)
    ensures |s| > 0
    ensures forall i :: 0 <= i < |s| ==> DigitValue(s[i]) < 10
  {
    if n < 10 then [DigitChar(n)] else Decimal(n / 10) + [DigitChar(n % 10)]
  }

  /** What `SkipSpace` passes over is white space only. */
  lemma {:induction false} SkipSpaceSkipsSpace(s: string, i: nat)
    requires i <= |s|
    ensures forall k :: i <= k < SkipSpace(s, i) ==> IsTrimmable(s[k])
    decreases |s| - i
  {
    if i < |s| && IsTrimmable(s[i]) {
      SkipSpaceSkipsSpace(s, i + 1);
    }
  }

  /** A run of `n` digits at `i` followed by a non-digit (or the end) ends at `i + n`. */
  lemma {:induction false} DigitEndOfRun(s: string, i: nat, n: nat, radix: nat)
    requires i + n <= |s|
    requires forall k :: i <= k < i + n ==> DigitValue(s[k]) < radix
    requires i + n == |s| || DigitValue(s[i + n]) >= radix
    ensures DigitEnd(s, i, radix) == i + n
    decreases n
  {
    if n > 0 {
      DigitEndOfRun(s, i + 1, n - 1, radix);
    }
  }

  /** The value of a run of digits depends on those digits only, not on where they sit. */
  lemma {:induction false} DigitsValueOfCopy(s: string, a: nat, t: string, b: nat, n: nat, radix: nat)
    requires a + n <= |s| && b + n <= |t|
    requires forall k :: a <= k < a + n ==> s[k] == t[k - a + b]
    ensures DigitsValue(s, a, a + n, radix) == DigitsValue(t, b, b + n, radix)
  {
    if n > 0 {
      DigitsValueOfCopy(s, a, t, b, n - 1, radix);
      assert s[a + n - 1] == t[b + n - 1];
    }
  }

  /** The digits of `Decimal(n)` read back as `n`. */
  lemma {:induction false} DecimalValue(n: nat)
    ensures DigitsValue(Decimal(n), 0, |Decimal(n)|, 10) == n
  {
    var s := Decimal(n);
    if n >= 10 {
      var p := Decimal(n / 10);
      DecimalValue(n / 10);
      DigitsValueOfCopy(s, 0, p, 0, |p|, 10);
    }
  }

  /** The numeral of a positive number does not start with 0. */
  lemma {:induction false} DecimalLeadingDigit(n: nat)
    ensures Decimal(n)[0] == '0' <==> n == 0
  {
    if n >= 10 {
      DecimalLeadingDigit(n / 10);
      assert Decimal(n)[0] == Decimal(n / 10)[0];
    }
  }

  /** After the numeral 0, an `x` starts a hexadecimal number: "0x1" is 1, not 0. */
  lemma ZeroThenHex()
    ensures ParseInt(Decimal(0) + "x1", 0) == Some(1)
  {
    var s := Decimal(0) + "x1";
    assert s == "0x1";
    assert SkipSpace(s, 0) == 0;
    assert HasHexPrefix(s, 0, 0);
    assert DigitEnd(s, 2, 16) == 3;
    assert ParseMagnitude(s, 0, 0) == Some(1);
  }

  /** A digit is neither white space nor a sign. */
  lemma DigitIsNotSpaceOrSign(c: char)
    requires DigitValue(c) < 36
    ensures !IsTrimmable(c) && c != '-' && c != '+'
  {
  }

  /** A numeral `d` of value `n` placed at `i` in `s`, followed by a non-digit (or by the
      end), is read as the magnitude `n` there, unless `d` is the single digit 0 and an
      `x` follows, which makes a hexadecimal prefix. */
  lemma MagnitudeOfNumeral(s: string, i: nat, d: string, n: nat)
    requires |d| > 0 && i + |d| <= |s|
    requires forall k :: i <= k < i + |d| ==> s[k] == d[k - i]
    requires forall k :: 0 <= k < |d| ==> DigitValue(d[k]) < 10
    requires DigitsValue(d, 0, |d|, 10) == n
    requires i + |d| == |s| || (DigitValue(s[i + |d|]) >= 10 && (d[0] != '0' || (s[i + |d|] != 'x' && s[i + |d|] != 'X')))
    ensures ParseMagnitude(s, i, 0) == Some(n)
  {
    assert s[i] == d[0];
    assert !HasHexPrefix(s, i, 0) by {
      if |d| >= 2 {
        assert s[i + 1] == d[1] && DigitValue(d[1]) < 10;
      }
    }
    forall k | i <= k < i + |d|
      ensures DigitValue(s[k]) < 10
    {
      assert s[k] == d[k - i];
    }
    DigitEndOfRun(s, i, |d|, 10);
    DigitsValueOfCopy(s, i, d, 0, |d|, 10);
  }

  /** parseInt reads the decimal numeral of `n` back as `n`, whatever non-digit text
      follows it (so "12px", "3.5" and "12x" give 12, 3 and 12), except that after the
      numeral "0" an `x` or `X` makes a hexadecimal prefix ("0x1" gives 1). */
  lemma ParseDecimalPrefix(n: nat, rest: string)
    requires rest == [] || (DigitValue(rest[0]) >= 10 && (n > 0 || (rest[0] != 'x' && rest[0] != 'X')))
    ensures ParseInt(Decimal(n) + rest, 0) == Some(n)
    ensures ParseIntOrZero(Decimal(n) + rest) == n
  {
    var d := Decimal(n);
    var s := d + rest;
    DecimalLeadingDigit(n);
    DigitIsNotSpaceOrSign(d[0]);
    assert s[0] == d[0];
    assert SkipSpace(s, 0) == 0;
    DecimalValue(n);
    MagnitudeOfNumeral(s, 0, d, n);
    assert ParseSigned(s, 0, 0) == Some(n);
  }

  /** A minus sign in front of a numeral negates the value. */
  lemma ParseNegativeDecimal(n: nat)
    ensures ParseInt("-" + Decimal(n), 0) == Some(-(n as int))
  {
    var d := Decimal(n);
    var s := "-" + d;
    assert |s| == 1 + |d| && s[0] == '-' && !IsTrimmable(s[0]);
    assert SkipSpace(s, 0) == 0;
    assert forall k :: 1 <= k < 1 + |d| ==> s[k] == d[k - 1];
    assert ParseMagnitude(s, 1, 0) == Some(n) by {
      DecimalValue(n);
      MagnitudeOfNumeral(s, 1, d, n);
    }
    assert ParseSigned(s, 0, 0) == Some(-(n as int));
  }

  /** Text that does not start with white space, a sign or a decimal digit is NaN,
      which `parseInt(s) || 0` turns into 0. */
  lemma ParseRejectsNonNumeric(s: string)
    requires s == [] || (DigitValue(s[0]) >= 10 && !IsTrimmable(s[0]) && s[0] != '-' && s[0] != '+')
    ensures ParseInt(s, 0) == None
    ensures ParseIntOrZero(s) == 0
  {
    assert SkipSpace(s, 0) == 0;
    assert !HasHexPrefix(s, 0, 0);
    assert DigitEnd(s, 0, 10) == 0;
    assert ParseSigned(s, 0, 0) == None;
  }

  /** Two hexadecimal digits read in radix 16 give a value in 0..255. */
  lemma ParseHexPair(s: string)
    requires |s| == 2 && DigitValue(s[0]) < 16 && DigitValue(s[1]) < 16
    ensures ParseInt(s, 16) == Some(16 * DigitValue(s[0]) + DigitValue(s[1]))
    ensures 0 <= 16 * DigitValue(s[0]) + DigitValue(s[1]) <= 255
  {
    DigitIsNotSpaceOrSign(s[0]);
    assert SkipSpace(s, 0) == 0;
    assert !HasHexPrefix(s, 0, 16);
    DigitEndOfRun(s, 0, 2, 16);
    assert DigitsValue(s, 0, 1, 16) == DigitValue(s[0]);
    assert ParseMagnitude(s, 0, 16) == Some(16 * DigitValue(s[0]) + DigitValue(s[1]));
    assert ParseSigned(s, 0, 16) == Some(16 * DigitValue(s[0]) + DigitValue(s[1]));
  }
}
