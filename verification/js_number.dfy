/**
 * JavaScript numbers as the scraper produces and compares them: `parseInt`,
 * `parseFloat` (exact decimals instead of IEEE doubles), `String(n)` for integers,
 * and the relational comparisons `<` / `>` against a number.
 */
module JsNumber {
  import opened Optional
  import opened JsText

  /** A numeric listing field: `null` (no element found), `NaN` (nothing parsed) or a finite number. */
  datatype JsNum = Null | NaN | Num(value: real)

  /** ToNumber as the relational operators apply it: `null` becomes 0, `NaN` has no value. */
  function ToNumber(v: JsNum): Option<real>
  {
    match v
    case Null => Some(0.0)
    case NaN => None
    case Num(x) => Some(x)
  }

  /** `v < bound`: false whenever `v` is `NaN`. */
  predicate LessThan(v: JsNum, bound: real)
  {
    match ToNumber(v)
    case None => false
    case Some(x) => x < bound
  }

  /** `v > bound`: false whenever `v` is `NaN`. */
  predicate GreaterThan(v: JsNum, bound: real)
  {
    match ToNumber(v)
    case None => false
    case Some(x) => x > bound
  }

  function Pow10(n: nat): (r: nat)
    ensures r >= 1
  {
    if n == 0 then 1 else 10 * Pow10(n - 1)
  }

  function DigitChar(d: nat): (c: char)
    requires d < 10
    ensures IsDecimalDigit(c)
  {
    ('0' as int + d) as char
  }

  /** Decimal digits of `n`, most significant first, without leading zeros. */
  function NatToString(n: nat): (r: string)
    ensures |r| >= 1 && AllDecimalDigits(r)
    ensures |r| > 1 ==> r[0] != '0'
  {
    if n < 10 then [DigitChar(n)] else NatToString(n / 10) + [DigitChar(n % 10)]
  }

  /** `String(i)` for an integer-valued number (below 10^21, where JavaScript switches to exponent form). */
  function IntToString(i: int): (r: string)
    ensures |r| >= 1
  {
    if i < 0 then "-" + NatToString(-i) else NatToString(i)
  }

  /** The digit value `parseInt` gives a code point: 0-9, then letters of either case from 10; 36 for anything else. */
  function CharDigitValue(c: char): (v: nat)
    ensures v <= 36
    ensures v < 10 <==> IsDecimalDigit(c)
  {
    if '0' <= c <= '9' then c as int - '0' as int
    else if 'a' <= c <= 'z' then c as int - 'a' as int + 10
    else if 'A' <= c <= 'Z' then c as int - 'A' as int + 10
    else 36
  }

  predicate IsRadixDigit(c: char, radix: nat)
  {
    CharDigitValue(c) < radix
  }

  predicate AllRadixDigits(s: string, radix: nat)
  {
    forall i | 0 <= i < |s| :: IsRadixDigit(s[i], radix)
  }

  /** The number a digit string denotes in base `radix`. */
  function RadixValue(s: string, radix: nat): nat
    requires AllRadixDigits(s, radix)
  {
    if |s| == 0 then 0
    else RadixValue(s[..|s| - 1], radix) * radix + CharDigitValue(s[|s| - 1])
  }

  function DecimalValue(s: string): nat
    requires AllDecimalDigits(s)
  {
    assert AllRadixDigits(s, 10) by {
      forall i | 0 <= i < |s| ensures IsRadixDigit(s[i], 10) {
        assert IsDecimalDigit(s[i]);
      }
    }
    RadixValue(s, 10)
  }

  /** The longest prefix of `s` made of digits of base `radix`. */
  function LeadingDigits(s: string, radix: nat): (r: string)
    ensures |r| <= |s| && r == s[..|r|]
    ensures AllRadixDigits(r, radix)
    ensures |r| < |s| ==> !IsRadixDigit(s[|r|], radix)
  {
    if |s| > 0 && IsRadixDigit(s[0], radix) then [s[0]] + LeadingDigits(s[1..], radix) else ""
  }

  /**
   * `parseInt(s)` with no radix: skip leading white space, take one sign, switch to
   * base 16 after a `0x`/`0X` prefix, then read the longest digit prefix; `NaN` if it is empty.
   */
  function ParseInt(s: string): (r: JsNum)
    ensures !r.Null?
    ensures r.Num? ==> r.value.Floor as real == r.value
  {
    var t := TrimStart(s);
    var negative := |t| > 0 && t[0] == '-';
    var u := if |t| > 0 && (t[0] == '-' || t[0] == '+') then t[1..] else t;
    var hex := |u| >= 2 && u[0] == '0' && (u[1] == 'x' || u[1] == 'X');
    var radix := if hex then 16 else 10;
    var z := LeadingDigits(if hex then u[2..] else u, radix);
    if |z| == 0 then NaN
    else
      var n: int := RadixValue(z, radix);
      var v: int := if negative then -n else n;
      Num(v as real)
  }

  lemma DecimalValueSnoc(d: string, c: char)
    requires AllDecimalDigits(d) && IsDecimalDigit(c)
    ensures AllDecimalDigits(d + [c])
    ensures DecimalValue(d + [c]) == DecimalValue(d) * 10 + CharDigitValue(c)
  {
    var s := d + [c];
    assert AllDecimalDigits(s) by {
      forall i | 0 <= i < |s| ensures IsDecimalDigit(s[i]) {
        if i < |d| { assert s[i] == d[i]; }
      }
    }
    assert s[..|s| - 1] == d;
  }

  /** Digits written after digits shift the value left by their count. */
  lemma {:induction false} DecimalValueAppend(a: string, b: string)
    requires AllDecimalDigits(a) && AllDecimalDigits(b)
    ensures AllDecimalDigits(a + b)
    ensures DecimalValue(a + b) == DecimalValue(a) * Pow10(|b|) + DecimalValue(b)
    decreases |b|
  {
    var s := a + b;
    assert AllDecimalDigits(s) by {
      forall i | 0 <= i < |s| ensures IsDecimalDigit(s[i]) {
        if i < |a| { assert s[i] == a[i]; } else { assert s[i] == b[i - |a|]; }
      }
    }
    if |b| == 0 {
      assert s == a;
    } else {
      var b', c := b[..|b| - 1], b[|b| - 1];
      assert b == b' + [c];
      assert IsDecimalDigit(c);
      assert AllDecimalDigits(b') by {
        forall i | 0 <= i < |b'| ensures IsDecimalDigit(b'[i]) { assert b'[i] == b[i]; }
      }
      DecimalValueAppend(a, b');
      assert s == (a + b') + [c];
      DecimalValueSnoc(a + b', c);
      DecimalValueSnoc(b', c);
      var x, y := DecimalValue(a), DecimalValue(b');
      assert Pow10(|b|) == 10 * Pow10(|b'|);
      assert DecimalValue(b) == y * 10 + CharDigitValue(c);
      assert DecimalValue(s) == DecimalValue(a + b') * 10 + CharDigitValue(c);
      ShiftDigit(x, Pow10(|b'|), y, CharDigitValue(c));
    }
  }

  lemma ShiftDigit(x: int, p: int, y: int, d: int)
    ensures (x * p + y) * 10 + d == x * (10 * p) + (y * 10 + d)
  {
  }

  lemma {:induction false} DecimalValueOfNatToString(n: nat)
    ensures DecimalValue(NatToString(n)) == n
    decreases n
  {
    if n >= 10 {
      DecimalValueOfNatToString(n / 10);
      DecimalValueSnoc(NatToString(n / 10), DigitChar(n % 10));
      assert CharDigitValue(DigitChar(n % 10)) == n % 10;
    } else {
      DecimalValueSnoc("", DigitChar(n));
      assert "" + [DigitChar(n)] == [DigitChar(n)];
      assert CharDigitValue(DigitChar(n)) == n;
    }
  }

  /** The longest digit prefix of a digit string followed by a non-digit is that digit string. */
  lemma {:induction false} LeadingDigitsOfDigits(d: string, rest: string, radix: nat)
    requires AllRadixDigits(d, radix)
    requires |rest| > 0 ==> !IsRadixDigit(rest[0], radix)
    ensures LeadingDigits(d + rest, radix) == d
    decreases |d|
  {
    if |d| > 0 {
      assert (d + rest)[1..] == d[1..] + rest;
      LeadingDigitsOfDigits(d[1..], rest, radix);
      assert d == [d[0]] + d[1..];
    } else {
      assert d + rest == rest;
    }
  }

  /** `parseInt` of a non-empty digit string is its decimal value. */
  lemma ParseIntOfDigits(s: string)
    requires |s| > 0 && AllDecimalDigits(s)
    ensures ParseInt(s) == Num(DecimalValue(s) as real)
  {
    assert !IsJsSpace(s[0]) by { assert IsDecimalDigit(s[0]); }
    assert TrimStart(s) == s;
    assert !(|s| >= 2 && (s[1] == 'x' || s[1] == 'X')) by {
      if |s| >= 2 { assert IsDecimalDigit(s[1]); }
    }
    assert AllRadixDigits(s, 10) by {
      forall i | 0 <= i < |s| ensures IsRadixDigit(s[i], 10) { assert IsDecimalDigit(s[i]); }
    }
    LeadingDigitsOfDigits(s, "", 10);
    assert s + "" == s;
  }

  /** `parseInt` of `-` followed by a non-empty digit string is the negated decimal value. */
  lemma ParseIntOfNegativeDigits(d: string)
    requires |d| > 0 && AllDecimalDigits(d)
    ensures ParseInt("-" + d) == Num(-(DecimalValue(d) as real))
  {
    var s := "-" + d;
    assert TrimStart(s) == s;
    assert s[1..] == d;
    assert !(|d| >= 2 && (d[1] == 'x' || d[1] == 'X')) by {
      if |d| >= 2 { assert IsDecimalDigit(d[1]); }
    }
    assert AllRadixDigits(d, 10) by {
      forall i | 0 <= i < |d| ensures IsRadixDigit(d[i], 10) { assert IsDecimalDigit(d[i]); }
    }
    LeadingDigitsOfDigits(d, "", 10);
    assert d + "" == d;
  }

  lemma ParseIntOfNatToString(n: nat)
    ensures ParseInt(IntToString(n)) == Num(n as real)
  {
    var d := NatToString(n);
    assert IntToString(n) == d;
    ParseIntOfDigits(d);
    DecimalValueOfNatToString(n);
  }

  lemma ParseIntOfNegativeToString(n: int)
    requires n < 0
    ensures ParseInt(IntToString(n)) == Num(n as real)
  {
    var d := NatToString(-n);
    assert ParseInt(IntToString(n)) == Num(-(DecimalValue(d) as real)) by {
      assert IntToString(n) == "-" + d;
      ParseIntOfNegativeDigits(d);
    }
    DecimalValueOfNatToString(-n);
  }

  /** `parseInt` reads back what `String` writes for every integer. */
  lemma ParseIntOfIntToString(n: int)
    ensures ParseInt(IntToString(n)) == Num(n as real)
  {
    if n < 0 {
      ParseIntOfNegativeToString(n);
    } else {
      ParseIntOfNatToString(n);
    }
  }

  /** Without a single decimal digit there is nothing for `parseInt` to read. */
  lemma ParseIntWithoutDigits(s: string)
    requires forall i | 0 <= i < |s| :: !IsDecimalDigit(s[i])
    ensures ParseInt(s) == NaN
  {
    var t := TrimStart(s);
    var u := if |t| > 0 && (t[0] == '-' || t[0] == '+') then t[1..] else t;
    assert forall i | 0 <= i < |u| :: !IsDecimalDigit(u[i]);
    if |u| > 0 {
      assert !IsRadixDigit(u[0], 10);
    }
  }

  /** The code points that survive the price cleaning of the scraper, plus the `.` put in for the first `,`. */
  predicate IsPriceChar(c: char)
  {
    IsDecimalDigit(c) || c == ',' || c == '-'
  }

  predicate PriceAlphabet(s: string)
  {
    forall i | 0 <= i < |s| :: IsPriceChar(s[i]) || s[i] == '.'
  }

  /** Exact value of the fraction digits `f` as they stand after a decimal point. */
  function Fraction(f: string): real
    requires AllDecimalDigits(f)
  {
    DecimalValue(f) as real / Pow10(|f|) as real
  }

  /**
   * `parseFloat(s)` on the alphabet it is applied to (digits, `,`, `.`, `-`): an optional
   * `-`, then the longest prefix of the forms `d+`, `d+.`, `d+.d+` or `.d+`; `NaN` if there is none.
   * Exponents, `+`, leading white space and `Infinity` cannot occur in that alphabet.
   */
  function ParseFloat(s: string): (r: JsNum)
    requires PriceAlphabet(s)
    ensures !r.Null?
    ensures r.Num? ==> exists i | 0 <= i < |s| :: IsDecimalDigit(s[i])
    ensures |s| > 0 && IsDecimalDigit(s[0]) ==> r.Num?
  {
    var negative := |s| > 0 && s[0] == '-';
    var t := if negative then s[1..] else s;
    var whole := LeadingDigits(t, 10);
    var rest := t[|whole|..];
    var frac := if |rest| > 0 && rest[0] == '.' then LeadingDigits(rest[1..], 10) else "";
    assert AllDecimalDigits(whole) && AllDecimalDigits(frac) by {
      forall i | 0 <= i < |whole| ensures IsDecimalDigit(whole[i]) { assert IsRadixDigit(whole[i], 10); }
      forall i | 0 <= i < |frac| ensures IsDecimalDigit(frac[i]) { assert IsRadixDigit(frac[i], 10); }
    }
    var off := if negative then 1 else 0;
    assert t == s[off..];
    assert |whole| > 0 ==> IsDecimalDigit(s[off]) by {
      if |whole| > 0 { assert whole[0] == t[0]; }
    }
    assert |frac| > 0 ==> IsDecimalDigit(s[off + |whole| + 1]) by {
      if |frac| > 0 { assert frac[0] == rest[1] == t[|whole| + 1]; }
    }
    assert |s| > 0 && IsDecimalDigit(s[0]) ==> |whole| > 0 by {
      if |s| > 0 && IsDecimalDigit(s[0]) { assert IsRadixDigit(t[0], 10); }
    }
    if |whole| == 0 && |frac| == 0 then NaN
    else
      var x := DecimalValue(whole) as real + Fraction(frac);
      Num(if negative then -x else x)
  }

  /** Without a single digit there is nothing for `parseFloat` to read. */
  lemma ParseFloatWithoutDigits(s: string)
    requires PriceAlphabet(s)
    requires forall i | 0 <= i < |s| :: !IsDecimalDigit(s[i])
    ensures ParseFloat(s) == NaN
  {
    var t := if |s| > 0 && s[0] == '-' then s[1..] else s;
    assert forall i | 0 <= i < |t| :: !IsDecimalDigit(t[i]);
    if |t| > 0 {
      assert !IsRadixDigit(t[0], 10);
    }
    var rest := t[|LeadingDigits(t, 10)|..];
    if |rest| > 1 && rest[0] == '.' {
      assert !IsDecimalDigit(rest[1]);
      assert !IsRadixDigit(rest[1..][0], 10);
    }
  }

  /** `parseFloat` of `whole.frac` with digit strings on both sides is the exact decimal they write. */
  lemma ParseFloatOfDecimal(whole: string, frac: string)
    requires |whole| > 0 && AllDecimalDigits(whole) && AllDecimalDigits(frac)
    ensures PriceAlphabet(whole + "." + frac)
    ensures ParseFloat(whole + "." + frac) == Num(DecimalValue(whole) as real + Fraction(frac))
  {
    var s := whole + "." + frac;
    assert PriceAlphabet(s) by {
      forall i | 0 <= i < |s| ensures IsPriceChar(s[i]) || s[i] == '.' {
        if i < |whole| { assert s[i] == whole[i]; }
        else if i > |whole| { assert s[i] == frac[i - |whole| - 1]; }
      }
    }
    assert AllRadixDigits(whole, 10) by {
      forall i | 0 <= i < |whole| ensures IsRadixDigit(whole[i], 10) { assert IsDecimalDigit(whole[i]); }
    }
    assert AllRadixDigits(frac, 10) by {
      forall i | 0 <= i < |frac| ensures IsRadixDigit(frac[i], 10) { assert IsDecimalDigit(frac[i]); }
    }
    assert s[0] == whole[0];
    assert s == whole + ("." + frac);
    LeadingDigitsOfDigits(whole, "." + frac, 10);
    assert s[|whole|..] == "." + frac;
    assert ("." + frac)[1..] == frac + "";
    LeadingDigitsOfDigits(frac, "", 10);
  }

  /** `parseFloat` reads the longest digit prefix when no point follows it: the rest is ignored. */
  lemma ParseFloatOfDigitsPrefix(whole: string, rest: string)
    requires |whole| > 0 && AllDecimalDigits(whole) && PriceAlphabet(whole + rest)
    requires |rest| > 0 ==> !IsDecimalDigit(rest[0]) && rest[0] != '.'
    ensures ParseFloat(whole + rest) == Num(DecimalValue(whole) as real)
  {
    var s := whole + rest;
    assert s[0] == whole[0] && IsDecimalDigit(s[0]);
    assert AllRadixDigits(whole, 10) by {
      forall i | 0 <= i < |whole| ensures IsRadixDigit(whole[i], 10) { assert IsDecimalDigit(whole[i]); }
    }
    LeadingDigitsOfDigits(whole, rest, 10);
    assert s[|whole|..] == rest;
    assert Fraction("") == 0.0;
  }

  /** `parseInt` reads the longest digit prefix and ignores what follows, unless `0x` turns it hexadecimal. */
  lemma ParseIntOfDigitsPrefix(d: string, rest: string)
    requires |d| > 0 && AllDecimalDigits(d)
    requires |rest| > 0 ==> !IsDecimalDigit(rest[0])
    requires !(d == "0" && |rest| > 0 && (rest[0] == 'x' || rest[0] == 'X'))
    ensures ParseInt(d + rest) == Num(DecimalValue(d) as real)
  {
    var s := d + rest;
    assert s[0] == d[0];
    assert !IsJsSpace(s[0]) by { assert IsDecimalDigit(d[0]); }
    assert TrimStart(s) == s;
    assert !(|s| >= 2 && s[0] == '0' && (s[1] == 'x' || s[1] == 'X')) by {
      if |s| >= 2 && |d| >= 2 { assert s[1] == d[1] && IsDecimalDigit(d[1]); }
      if |s| >= 2 && |d| == 1 { assert s[1] == rest[0]; }
    }
    assert AllRadixDigits(d, 10) by {
      forall i | 0 <= i < |d| ensures IsRadixDigit(d[i], 10) { assert IsDecimalDigit(d[i]); }
    }
    LeadingDigitsOfDigits(d, rest, 10);
  }
}
