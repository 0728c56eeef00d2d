/** `ColorPalette._to_hex` (task_5.py): an RGB triple written as `#` and then each component
    in Python's `02x` format, lowercase hexadecimal padded with zeros to two characters. */
module Palette {
  import opened Wrappers
  import opened Seqs

  /** The Python tuple `(red, green, blue)`; the components are plain integers. */
  datatype Rgb = Rgb(red: int, green: int, blue: int)

  /** The lowercase hex digit of `d`. */
  function DigitChar(d: nat): (ch: char)
    requires d < 16
    ensures IsHexDigit(ch) && DigitValue(ch) == d
  {
    if d < 10 then ('0' as int + d) as char else ('a' as int + d - 10) as char
  }

  predicate IsHexDigit(ch: char)
  {
    '0' <= ch <= '9' || 'a' <= ch <= 'f'
  }

  predicate AllHex(s: string)
  {
    forall i :: 0 <= i < |s| ==> IsHexDigit(s[i])
  }

  /** The value of a lowercase hex digit. */
  function DigitValue(ch: char): (d: nat)
    requires IsHexDigit(ch)
    ensures d < 16
  {
    if '0' <= ch <= '9' then ch as int - '0' as int else ch as int - 'a' as int + 10
  }

  /** The number a string of lowercase hex digits denotes, most significant digit first. */
  function HexValue(s: string): nat
    requires AllHex(s)
  {
    if s == [] then 0 else 16 * HexValue(Front(s)) + DigitValue(Last(s))
  }

  /** Python's `format(n, "x")` for `n >= 0`: the shortest lowercase hex numeral of `n`. */
  function HexDigits(n: nat): (s: string)
    ensures s != [] && AllHex(s)
    ensures |s| == 1 <==> n < 16
    ensures 16 <= n < 256 ==> |s| == 2
  {
    if n < 16 then [DigitChar(n)] else HexDigits(n / 16) + [DigitChar(n % 16)]
  }

  /** Python's `format(x, "02x")`: a minus sign for negatives, and a leading zero when the
      numeral of a non-negative number is a single digit. */
  function Hex2(x: int): string
  {
    if x < 0 then "-" + HexDigits(-x)
    else if x < 16 then "0" + HexDigits(x)
    else HexDigits(x)
  }

  /** `_to_hex`. */
  function ToHex(rgb: Rgb): string
  {
    "#" + Hex2(rgb.red) + Hex2(rgb.green) + Hex2(rgb.blue)
  }

  predicate InByteRange(rgb: Rgb)
  {
    0 <= rgb.red < 256 && 0 <= rgb.green < 256 && 0 <= rgb.blue < 256
  }

  /** Reads a string of the form `#rrggbb` back into its three components. */
  function FromHex(s: string): Option<Rgb>
  {
    if |s| == 7 && s[0] == '#' && AllHex(s[1..]) then
      assert AllHex(s[1..3]) && AllHex(s[3..5]) && AllHex(s[5..7]) by {
        assert s[1..3] == s[1..][0..2] && s[3..5] == s[1..][2..4] && s[5..7] == s[1..][4..6];
      }
      Some(Rgb(HexValue(s[1..3]), HexValue(s[3..5]), HexValue(s[5..7])))
    else None
  }

  /** The numeral of `n` denotes `n`. */
  lemma {:induction false} HexDigitsValue(n: nat)
    ensures HexValue(HexDigits(n)) == n
  {
    var s := HexDigits(n);
    if n >= 16 {
      HexDigitsValue(n / 16);
      assert Front(s) == HexDigits(n / 16) && Last(s) == DigitChar(n % 16);
    }
  }

  /** A number of a byte's range takes exactly two hex digits, which denote it. */
  lemma Hex2OfByte(x: int)
    requires 0 <= x < 256
    ensures |Hex2(x)| == 2 && AllHex(Hex2(x)) && HexValue(Hex2(x)) == x
  {
    HexDigitsValue(x);
    var s := Hex2(x);
    if x < 16 {
      assert Front(s) == "0" && Last(s) == DigitChar(x);
      assert HexValue("0") == 0;
    }
  }

  /** A negative component is written with a minus sign, so the result is no colour code. */
  lemma Hex2OfNegative(x: int)
    requires x < 0
    ensures Hex2(x)[0] == '-' && !AllHex(Hex2(x))
  {
    assert !IsHexDigit(Hex2(x)[0]);
  }

  /** With every component in 0..255 the result is `#` and six lowercase hex digits, two per
      component in the order red, green, blue. */
  lemma ToHexFormat(rgb: Rgb)
    requires InByteRange(rgb)
    ensures var s := ToHex(rgb);
      && |s| == 7 && s[0] == '#' && AllHex(s[1..])
      && s[1..3] == Hex2(rgb.red) && s[3..5] == Hex2(rgb.green) && s[5..7] == Hex2(rgb.blue)
  {
    Hex2OfByte(rgb.red);
    Hex2OfByte(rgb.green);
    Hex2OfByte(rgb.blue);
    var r, g, b := Hex2(rgb.red), Hex2(rgb.green), Hex2(rgb.blue);
    ThreeParts(r, g, b);
    AllHexAppend(r, g);
    AllHexAppend(r + g, b);
  }

  lemma AllHexAppend(a: string, b: string)
    requires AllHex(a) && AllHex(b)
    ensures AllHex(a + b)
  {
    forall i | 0 <= i < |a + b|
      ensures IsHexDigit((a + b)[i])
    {
      if i >= |a| {
        assert (a + b)[i] == b[i - |a|];
      }
    }
  }

  /** Where the three two-character parts sit in a colour code. */
  lemma ThreeParts(r: string, g: string, b: string)
    requires |r| == 2 && |g| == 2 && |b| == 2
    ensures var s := "#" + r + g + b;
      && |s| == 7 && s[0] == '#' && s[1..] == r + g + b
      && s[1..3] == r && s[3..5] == g && s[5..7] == b
  {
    var s := "#" + r + g + b;
    assert s == "#" + (r + g + b);
  }

  /** The colour code of an in-range triple reads back as that triple. */
  lemma FromToHex(rgb: Rgb)
    requires InByteRange(rgb)
    ensures FromHex(ToHex(rgb)) == Some(rgb)
  {
    ToHexFormat(rgb);
    Hex2OfByte(rgb.red);
    Hex2OfByte(rgb.green);
    Hex2OfByte(rgb.blue);
  }

  /** A component outside 0..255 gives no colour code: a negative one brings a minus sign,
      a larger one more than two digits. */
  lemma ToHexOutOfRange(rgb: Rgb)
    requires !InByteRange(rgb)
    ensures FromHex(ToHex(rgb)) == None
  {
    var s := ToHex(rgb);
    var r, g, b := Hex2(rgb.red), Hex2(rgb.green), Hex2(rgb.blue);
    assert s == "#" + r + g + b;
    if rgb.red < 0 || rgb.green < 0 || rgb.blue < 0 {
      var x := if rgb.red < 0 then rgb.red else if rgb.green < 0 then rgb.green else rgb.blue;
      Hex2OfNegative(x);
      var at := if rgb.red < 0 then 1 else if rgb.green < 0 then 1 + |r| else 1 + |r| + |g|;
      assert s[at] == '-';
      assert !IsHexDigit(s[1..][at - 1]);
    } else {
      assert |r| >= 2 && |g| >= 2 && |b| >= 2;
      assert |r| + |g| + |b| > 6;
    }
  }

  /** Each lowercase hex digit string denotes a number below `16^|s|`. */
  lemma {:induction false} HexValueBound(s: string)
    requires AllHex(s) && |s| <= 2
    ensures HexValue(s) < (if |s| == 0 then 1 else if |s| == 1 then 16 else 256)
  {
    if s != [] {
      HexValueBound(Front(s));
    }
  }

  /** Two hex digits read back by `FromHex` are re-encoded as themselves. */
  lemma {:induction false} Hex2OfValue(s: string)
    requires |s| == 2 && AllHex(s)
    ensures Hex2(HexValue(s)) == s
  {
    var hi, lo := DigitValue(s[0]), DigitValue(s[1]);
    assert Front(s) == [s[0]] && Last(s) == s[1];
    assert Front([s[0]]) == [] && Last([s[0]]) == s[0];
    assert HexValue([s[0]]) == hi;
    var v := HexValue(s);
    assert v == 16 * hi + lo;
    if hi == 0 {
      assert Hex2(v) == "0" + [DigitChar(lo)];
    } else {
      assert v / 16 == hi && v % 16 == lo;
      assert Hex2(v) == HexDigits(hi) + [DigitChar(lo)];
    }
  }

  /** Every string `FromHex` accepts is the colour code of the triple it reads. */
  lemma ToFromHex(s: string, rgb: Rgb)
    requires FromHex(s) == Some(rgb)
    ensures InByteRange(rgb) && ToHex(rgb) == s
  {
    assert AllHex(s[1..3]) && AllHex(s[3..5]) && AllHex(s[5..7]) by {
      assert s[1..3] == s[1..][0..2] && s[3..5] == s[1..][2..4] && s[5..7] == s[1..][4..6];
    }
    HexValueBound(s[1..3]);
    HexValueBound(s[3..5]);
    HexValueBound(s[5..7]);
    Hex2OfValue(s[1..3]);
    Hex2OfValue(s[3..5]);
    Hex2OfValue(s[5..7]);
    Reassemble(s);
  }

  lemma Reassemble(s: string)
    requires |s| == 7 && s[0] == '#'
    ensures s == "#" + s[1..3] + s[3..5] + s[5..7]
  {
    assert s == [s[0]] + s[1..];
    assert s[1..] == s[1..3] + s[3..5] + s[5..7];
  }
}
