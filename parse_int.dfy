/** The ECMAScript global function `parseInt(string)` called with no radix
    (section 19.2.5 of ECMA-262), on an argument that is already a String.
    The result is NaN or the exact integer the digits denote. */
module JsParseInt {
  import opened JsNumbers

  /** StrWhiteSpaceChar of section 7.1.4.1.1 of ECMA-262: a WhiteSpace code
      point (TAB, VT, FF, ZWNBSP and every code point of Unicode category Zs)
      or a LineTerminator (LF, CR, LS, PS). */
  predicate IsStrWhiteSpaceChar(c: char)
  {
    var n := c as int;
    || n == 0x09 || n == 0x0B || n == 0x0C || n == 0xFEFF
    || n == 0x20 || n == 0xA0 || n == 0x1680 || 0x2000 <= n <= 0x200A
    || n == 0x202F || n == 0x205F || n == 0x3000
    || n == 0x0A || n == 0x0D || n == 0x2028 || n == 0x2029
  }

  predicate AllWhiteSpace(s: string)
  {
    forall i :: 0 <= i < |s| ==> IsStrWhiteSpaceChar(s[i])
  }

  /** TrimString(s, start): drops the longest prefix of white space. */
  function TrimStart(s: string): string
  {
    if s != [] && IsStrWhiteSpaceChar(s[0]) then TrimStart(s[1..]) else s
  }

  /** What TrimStart removes is white space, and what it keeps is a suffix
      that does not start with white space. */
  lemma {:induction false} TrimStartLongestWhiteSpace(s: string)
    ensures var r := TrimStart(s);
            && |r| <= |s| && r == s[|s| - |r|..]
            && AllWhiteSpace(s[..|s| - |r|])
            && (r == [] || !IsStrWhiteSpaceChar(r[0]))
  {
    if s != [] && IsStrWhiteSpaceChar(s[0]) {
      TrimStartLongestWhiteSpace(s[1..]);
      var r := TrimStart(s);
      assert s[..|s| - |r|] == [s[0]] + s[1..][..|s| - 1 - |r|];
    }
  }

  predicate IsDecimalDigit(c: char)
  {
    '0' <= c <= '9'
  }

  /** The value of `c` as a digit of radix 36 (0-9, then a-z or A-Z for
      10-35), or 36 when `c` is no such digit. */
  function DigitValue(c: char): (d: nat)
    ensures d <= 36
    ensures d < 10 <==> IsDecimalDigit(c)
  {
    if '0' <= c <= '9' then c as int - '0' as int
    else if 'a' <= c <= 'z' then c as int - 'a' as int + 10
    else if 'A' <= c <= 'Z' then c as int - 'A' as int + 10
    else 36
  }

  predicate IsRadixDigit(c: char, radix: nat)
  {
    DigitValue(c) < radix
  }

  predicate AllRadixDigits(s: string, radix: nat)
  {
    forall i :: 0 <= i < |s| ==> IsRadixDigit(s[i], radix)
  }

  /** The longest prefix of `s` made only of radix-`radix` digits. */
  function DigitPrefix(s: string, radix: nat): string
  {
    if s != [] && IsRadixDigit(s[0], radix) then [s[0]] + DigitPrefix(s[1..], radix) else []
  }

  /** The digit prefix is a prefix of `s`, made of digits only, and the
      character after it, if any, is no digit. */
  lemma {:induction false} DigitPrefixLongest(s: string, radix: nat)
    ensures var z := DigitPrefix(s, radix);
            && |z| <= |s| && z == s[..|z|]
            && AllRadixDigits(z, radix)
            && (|z| < |s| ==> !IsRadixDigit(s[|z|], radix))
  {
    if s != [] && IsRadixDigit(s[0], radix) {
      DigitPrefixLongest(s[1..], radix);
      var z := DigitPrefix(s, radix);
      assert z[1..] == DigitPrefix(s[1..], radix);
    }
  }

  /** The integer that the digit string `z` denotes in radix `radix`,
      most significant digit first. */
  function DigitsValue(z: string, radix: nat): nat
  {
    if z == [] then 0 else DigitsValue(z[..|z| - 1], radix) * radix + DigitValue(z[|z| - 1])
  }

  /** Whether `s` starts with the "0x" or "0X" that selects radix 16. */
  predicate HasHexPrefix(s: string)
  {
    |s| >= 2 && s[0] == '0' && (s[1] == 'x' || s[1] == 'X')
  }

  /** parseInt(input) with the radix argument undefined: skip leading white
      space, read one optional sign, then the unsigned part. */
  function ParseInt(input: string): JsNumber
  {
    ParseSigned(TrimStart(input))
  }

  /** The value of a string that starts after the white space. */
  function ParseSigned(s: string): JsNumber
  {
    if s != [] && s[0] == '-' then Negate(ParseUnsigned(s[1..]))
    else if s != [] && s[0] == '+' then ParseUnsigned(s[1..])
    else ParseUnsigned(s)
  }

  /** The value after the sign: radix 16 after a "0x"/"0X" prefix, radix 10
      otherwise. */
  function ParseUnsigned(s: string): JsNumber
  {
    if HasHexPrefix(s) then ParseDigits(s[2..], 16) else ParseDigits(s, 10)
  }

  /** The longest run of radix-`radix` digits at the start of `s`; no digits
      at all gives NaN. */
  function ParseDigits(s: string, radix: nat): JsNumber
  {
    var z := DigitPrefix(s, radix);
    if z == [] then NaN else Num(DigitsValue(z, radix))
  }

  /** Multiplication by the sign -1 (a NaN stays NaN; -0 and +0 are one
      value here). */
  function Negate(x: JsNumber): JsNumber
  {
    match x
    case NaN => NaN
    case Num(v) => Num(-v)
  }

  /** The value of a string of decimal digits. */
  function DecimalValue(d: string): nat
  {
    DigitsValue(d, 10)
  }

  /** The decimal digit character for `n`. */
  function DigitChar(n: nat): (c: char)
    requires n < 10
    ensures IsDecimalDigit(c) && DigitValue(c) == n
  {
    ('0' as int + n) as char
  }

  /** The plain decimal text of a natural number: its shortest digit string
      (what Number::toString gives below 1e21, with no exponent form). */
  function NatToDecimal(n: nat): string
  {
    if n < 10 then [DigitChar(n)] else NatToDecimal(n / 10) + [DigitChar(n % 10)]
  }

  /** The plain decimal text of an integer, with "-" in front of a negative value. */
  function IntToString(n: int): string
  {
    if n < 0 then "-" + NatToDecimal(-n) else NatToDecimal(n)
  }

  // ---------------------------------------------------------------------
  // Properties of parseInt
  // ---------------------------------------------------------------------

  /** White space in front of a string that does not start with white space
      is exactly what TrimStart removes. */
  lemma {:induction false} TrimStartSkips(w: string, x: string)
    requires AllWhiteSpace(w)
    requires x == [] || !IsStrWhiteSpaceChar(x[0])
    ensures TrimStart(w + x) == x
  {
    if w != [] {
      assert (w + x)[1..] == w[1..] + x;
      TrimStartSkips(w[1..], x);
    }
  }

  /** A run of digits ended by a non-digit (or by the end) is exactly the
      digit prefix: parsing stops at the first character that is no digit. */
  lemma {:induction false} DigitPrefixStops(d: string, rest: string, radix: nat)
    requires AllRadixDigits(d, radix)
    requires rest == [] || !IsRadixDigit(rest[0], radix)
    ensures DigitPrefix(d + rest, radix) == d
  {
    if d != [] {
      assert (d + rest)[1..] == d[1..] + rest;
      DigitPrefixStops(d[1..], rest, radix);
    }
  }

  /** After the sign, a run of decimal digits ended by a non-digit is read
      in radix 10 and nothing after it matters. */
  lemma ParseUnsignedDecimal(d: string, rest: string)
    requires d != [] && AllRadixDigits(d, 10)
    requires rest == [] || !IsDecimalDigit(rest[0])
    requires !HasHexPrefix(d + rest)
    ensures ParseUnsigned(d + rest) == Num(DecimalValue(d))
  {
    DigitPrefixStops(d, rest, 10);
  }

  /** What may stand between the white space and the digits. */
  datatype Sign = NoSign | Plus | Minus
  {
    function Text(): string
    {
      match this
      case NoSign => ""
      case Plus => "+"
      case Minus => "-"
    }

    function Factor(): int
    {
      if Minus? then -1 else 1
    }
  }

  /** After the white space, parseInt applies the sign it reads to the value
      of what follows, provided that does not start with another sign. */
  lemma ParseSignedSign(sign: Sign, unsigned: string)
    requires unsigned == [] || unsigned[0] !in "+-"
    ensures ParseSigned(sign.Text() + unsigned) ==
              if sign.Minus? then Negate(ParseUnsigned(unsigned)) else ParseUnsigned(unsigned)
  {
    var tail := sign.Text() + unsigned;
    if sign != NoSign {
      assert tail[0] in "+-" && tail[1..] == unsigned;
    } else {
      assert tail == unsigned;
    }
  }

  /** parseInt skips leading white space and parses the rest. */
  lemma ParseIntSkipsWhiteSpace(w: string, tail: string)
    requires AllWhiteSpace(w)
    requires tail == [] || !IsStrWhiteSpaceChar(tail[0])
    ensures ParseInt(w + tail) == ParseSigned(tail)
  {
    TrimStartSkips(w, tail);
  }

  /** White space, then a sign, then a part that starts with neither white
      space nor a sign: parseInt is the signed value of that part. */
  lemma ParseIntSigned(w: string, sign: Sign, unsigned: string)
    requires AllWhiteSpace(w)
    requires unsigned != [] && unsigned[0] !in "+-" && !IsStrWhiteSpaceChar(unsigned[0])
    ensures ParseInt(w + sign.Text() + unsigned) ==
              if sign.Minus? then Negate(ParseUnsigned(unsigned)) else ParseUnsigned(unsigned)
  {
    var tail := sign.Text() + unsigned;
    assert w + sign.Text() + unsigned == w + tail;
    assert !IsStrWhiteSpaceChar(tail[0]) by {
      if sign != NoSign { assert tail[0] in "+-"; } else { assert tail[0] == unsigned[0]; }
    }
    ParseIntSkipsWhiteSpace(w, tail);
    ParseSignedSign(sign, unsigned);
  }

  /** parseInt reads white space, an optional sign and a run of decimal
      digits, and ignores whatever follows the first non-digit. */
  lemma ParseIntDecimalPrefix(w: string, sign: Sign, d: string, rest: string)
    requires AllWhiteSpace(w)
    requires d != [] && AllRadixDigits(d, 10)
    requires rest == [] || !IsDecimalDigit(rest[0])
    requires !HasHexPrefix(d + rest)
    ensures ParseInt(w + sign.Text() + d + rest) == Num(sign.Factor() * DecimalValue(d))
  {
    var unsigned := d + rest;
    assert w + sign.Text() + d + rest == w + sign.Text() + unsigned;
    assert unsigned[0] == d[0] && IsDecimalDigit(d[0]);
    ParseIntSigned(w, sign, unsigned);
    ParseUnsignedDecimal(d, rest);
  }

  /** "0x" or "0X" after the sign selects radix 16. */
  lemma ParseUnsignedHex(x: char, h: string, rest: string)
    requires x == 'x' || x == 'X'
    requires h != [] && AllRadixDigits(h, 16)
    requires rest == [] || !IsRadixDigit(rest[0], 16)
    ensures ParseUnsigned(['0', x] + h + rest) == Num(DigitsValue(h, 16))
  {
    var unsigned := ['0', x] + h + rest;
    assert HasHexPrefix(unsigned) && unsigned[2..] == h + rest;
    DigitPrefixStops(h, rest, 16);
  }

  /** After white space and an optional sign, "0x" or "0X" switches parseInt
      to radix 16, and the hexadecimal digits up to the first non-digit are
      read. */
  lemma ParseIntHexPrefix(w: string, sign: Sign, x: char, h: string, rest: string)
    requires AllWhiteSpace(w)
    requires x == 'x' || x == 'X'
    requires h != [] && AllRadixDigits(h, 16)
    requires rest == [] || !IsRadixDigit(rest[0], 16)
    ensures ParseInt(w + sign.Text() + ['0', x] + h + rest) == Num(sign.Factor() * DigitsValue(h, 16))
  {
    var unsigned := ['0', x] + h + rest;
    assert w + sign.Text() + ['0', x] + h + rest == w + sign.Text() + unsigned;
    assert unsigned[0] == '0';
    ParseIntSigned(w, sign, unsigned);
    ParseUnsignedHex(x, h, rest);
  }

  /** When, after white space and an optional sign, the next character is no
      decimal digit, parseInt finds no digits and returns NaN. Without a sign
      that character must also be no sign and no white space, since those
      would still be read; after a sign, a second sign or white space is
      just a non-digit. */
  lemma ParseIntNoDigits(w: string, sign: Sign, rest: string)
    requires AllWhiteSpace(w)
    requires rest == [] || !(IsDecimalDigit(rest[0]) ||
                             (sign.NoSign? && (rest[0] in "+-" || IsStrWhiteSpaceChar(rest[0]))))
    ensures ParseInt(w + sign.Text() + rest) == NaN
  {
    var tail := sign.Text() + rest;
    assert w + sign.Text() + rest == w + tail;
    assert DigitPrefix(rest, 10) == [];
    assert ParseUnsigned(rest) == NaN;
    if sign.NoSign? {
      assert tail == rest;
      ParseIntSkipsWhiteSpace(w, tail);
    } else {
      assert tail[0] in "+-" && tail[1..] == rest;
      ParseIntSkipsWhiteSpace(w, tail);
    }
  }

  /** A "0x" or "0X" prefix with no hexadecimal digit after it leaves
      parseInt with no digits: NaN. */
  lemma ParseIntHexNoDigits(w: string, sign: Sign, x: char, rest: string)
    requires AllWhiteSpace(w)
    requires x == 'x' || x == 'X'
    requires rest == [] || !IsRadixDigit(rest[0], 16)
    ensures ParseInt(w + sign.Text() + ['0', x] + rest) == NaN
  {
    var unsigned := ['0', x] + rest;
    assert w + sign.Text() + ['0', x] + rest == w + sign.Text() + unsigned;
    assert HasHexPrefix(unsigned) && unsigned[2..] == rest;
    assert DigitPrefix(rest, 16) == [];
    ParseIntSigned(w, sign, unsigned);
  }

  /** The digits of NatToDecimal(n) denote n, and only the digit string of
      zero starts with '0'. */
  lemma {:induction false} NatToDecimalValue(n: nat)
    ensures NatToDecimal(n) != [] && AllRadixDigits(NatToDecimal(n), 10)
    ensures DecimalValue(NatToDecimal(n)) == n
    ensures NatToDecimal(n)[0] == '0' ==> n == 0 && |NatToDecimal(n)| == 1
  {
    if n >= 10 {
      NatToDecimalValue(n / 10);
      var d := NatToDecimal(n);
      assert d[..|d| - 1] == NatToDecimal(n / 10);
      assert d[|d| - 1] == DigitChar(n % 10);
      assert DecimalValue(d) == (n / 10) * 10 + n % 10 == n;
      assert d[0] == NatToDecimal(n / 10)[0];
    } else {
      var d := NatToDecimal(n);
      assert d[..|d| - 1] == [];
      assert DecimalValue(d) == DigitsValue([], 10) * 10 + DigitValue(d[0]);
    }
  }

  /** Round trip: parseInt recovers every integer from its decimal text. */
  lemma ParseIntOfIntToString(n: int)
    ensures ParseInt(IntToString(n)) == Num(n)
  {
    var m: nat := if n < 0 then -n else n;
    var d := NatToDecimal(m);
    NatToDecimalValue(m);
    var sign := if n < 0 then Minus else NoSign;
    assert d + "" == d;
    assert !HasHexPrefix(d);
    ParseIntDecimalPrefix("", sign, d, "");
    assert "" + sign.Text() + d + "" == sign.Text() + d == IntToString(n);
    assert sign.Factor() * m == n;
  }

  /** A fractional points string is cut at the '.': "12.5" counts as 12. */
  lemma ParseIntFraction()
    ensures ParseInt("12.5") == Num(12)
  {
    ParseIntDecimalPrefix("", NoSign, "12", ".5");
    assert "12"[..1] == "1" && "1"[..0] == [];
    assert "" + NoSign.Text() + "12" + ".5" == "12.5";
  }

  /** Leading white space and a minus sign are read. */
  lemma ParseIntSpaceAndSign()
    ensures ParseInt(" -7") == Num(-7)
  {
    ParseIntDecimalPrefix(" ", Minus, "7", "");
    assert " " + Minus.Text() + "7" + "" == " -7";
  }

  /** Without a radix argument, "0x" selects hexadecimal. */
  lemma ParseIntHexExample()
    ensures ParseInt("0x1A") == Num(26)
  {
    ParseIntHexPrefix("", NoSign, 'x', "1A", "");
    assert "" + NoSign.Text() + ['0', 'x'] + "1A" + "" == "0x1A";
  }

  /** A second sign, white space after a sign, or "0x" without hexadecimal
      digits leaves no digits: NaN. */
  lemma ParseIntSignedNaNExamples()
    ensures ParseInt("+-5") == NaN
    ensures ParseInt("- 5") == NaN
    ensures ParseInt("-0xg") == NaN
  {
    ParseIntNoDigits("", Plus, "-5");
    assert "" + Plus.Text() + "-5" == "+-5";
    ParseIntNoDigits("", Minus, " 5");
    assert "" + Minus.Text() + " 5" == "- 5";
    ParseIntHexNoDigits("", Minus, 'x', "g");
    assert "" + Minus.Text() + ['0', 'x'] + "g" == "-0xg";
  }

  /** Text with no leading digits, the empty string included, is NaN. */
  lemma ParseIntNaNExamples()
    ensures ParseInt("") == NaN
    ensures ParseInt("abc") == NaN
  {
    ParseIntNoDigits("", NoSign, "");
    ParseIntNoDigits("", NoSign, "abc");
    assert "" + NoSign.Text() + "abc" == "abc";
  }
}
