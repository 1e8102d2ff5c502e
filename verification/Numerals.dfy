/**
 Numbers as decimal and hexadecimal text, and back. The printers of the
 repository and the parsers that undo them share these functions.
 */
module Numerals {
  import opened Words

  function Digit(d: nat): char
    requires d < 16
  {
    "0123456789abcdef"[d]
  }

  /** The decimal digits of `v`, without leading zeros. */
  function Decimal(v: nat): (s: string)
    ensures s != []
  {
    if v < 10 then [Digit(v)] else Decimal(v / 10) + [Digit(v % 10)]
  }

  /** The hexadecimal digits of `v`, without leading zeros. */
  function Hex(v: nat): (s: string)
    ensures s != []
  {
    if v < 16 then [Digit(v)] else Hex(v / 16) + [Digit(v % 16)]
  }

  function Padded(s: string, width: nat): string
    decreases width - |s|
  {
    if |s| >= width then s else Padded("0" + s, width)
  }

  /** The value of a hexadecimal digit of either case; 16 for any other character. */
  function DigitValue(c: char): nat {
    if '0' <= c <= '9' then c as int - '0' as int
    else if 'a' <= c <= 'f' then c as int - 'a' as int + 10
    else if 'A' <= c <= 'F' then c as int - 'A' as int + 10
    else 16
  }

  predicate IsDecimal(c: char) {
    DigitValue(c) < 10
  }

  predicate AllDecimal(s: string) {
    forall i :: 0 <= i < |s| ==> IsDecimal(s[i])
  }

  /** The number that a string of decimal digits denotes. */
  function Number(s: string): nat {
    if s == [] then 0 else Number(s[..|s|-1]) * 10 + DigitValue(s[|s|-1])
  }

  lemma DigitReads(d: nat)
    requires d < 16
    ensures DigitValue(Digit(d)) == d && (Digit(d) == '0' <==> d == 0)
    ensures 0x30 <= Digit(d) as int < 0x67 && (d < 10 ==> '0' <= Digit(d) <= '9') && (d >= 10 ==> 'a' <= Digit(d) <= 'f')
  {
  }

  /** Reading the digits of a number gives the number; only zero starts with a zero. */
  lemma {:induction false} DecimalReads(v: nat)
    ensures AllDecimal(Decimal(v)) && Number(Decimal(v)) == v
    ensures Decimal(v)[0] == '0' ==> v == 0 && |Decimal(v)| == 1
    ensures forall i :: 0 <= i < |Decimal(v)| ==> '0' <= Decimal(v)[i] <= '9'
  {
    hide DigitValue, Digit;
    if v >= 10 {
      DecimalReads(v / 10);
      DigitReads(v % 10);
      var s := Decimal(v);
      assert s[..|s|-1] == Decimal(v / 10);
    } else {
      DigitReads(v);
      assert Decimal(v)[..0] == [];
    }
  }

  /** The number that a string of hexadecimal digits denotes. */
  function HexNumber(s: string): nat {
    if s == [] then 0 else HexNumber(s[..|s|-1]) * 16 + DigitValue(s[|s|-1])
  }

  /** Reading the digits of a number gives the number; it has at most `k` of them below 16 to the power of `k`. */
  lemma {:induction false} HexReads(v: nat, k: nat)
    ensures HexNumber(Hex(v)) == v && (Hex(v)[0] == '0' ==> v == 0)
    ensures v < Pow(16, k) && k > 0 ==> |Hex(v)| <= k
  {
    hide DigitValue, Digit;
    if v >= 16 {
      HexReads(v / 16, if k > 0 then k - 1 else 0);
      DigitReads(v % 16);
      var s := Hex(v);
      assert s[..|s|-1] == Hex(v / 16);
      if k == 1 {
        assert Pow(16, 0) == 1;
      }
    } else {
      DigitReads(v);
      assert Hex(v)[..0] == [];
    }
  }

  /** Zeros in front change the length only. */
  lemma {:induction false} PaddedReads(s: string, width: nat)
    ensures HexNumber(Padded(s, width)) == HexNumber(s)
    ensures |Padded(s, width)| == if |s| >= width then |s| else width
    ensures |s| >= width ==> Padded(s, width) == s
    decreases width - |s|
  {
    if |s| < width {
      PaddedReads("0" + s, width);
      ZeroInFront(s);
    }
  }

  lemma {:induction false} ZeroInFront(s: string)
    ensures HexNumber("0" + s) == HexNumber(s)
  {
    if s == "" {
      assert "0" + s == "0" && "0"[..0] == "" && DigitValue('0') == 0;
    } else {
      ZeroInFront(s[..|s|-1]);
      assert ("0" + s)[..|s|] == "0" + s[..|s|-1];
    }
  }

  /** Four hexadecimal digits. */
  function Hex4(v: nat): (s: string)
    requires v < 0x1_0000
    ensures |s| == 4
  {
    [Digit(v / 16 / 16 / 16), Digit(v / 16 / 16 % 16), Digit(v / 16 % 16), Digit(v % 16)]
  }

  function ReadHex4(s: string): Option<nat> {
    if |s| >= 4 && DigitValue(s[0]) < 16 && DigitValue(s[1]) < 16 && DigitValue(s[2]) < 16 && DigitValue(s[3]) < 16
    then Some(((DigitValue(s[0]) * 16 + DigitValue(s[1])) * 16 + DigitValue(s[2])) * 16 + DigitValue(s[3]))
    else None
  }

  lemma Hex4Reads(v: nat, rest: string)
    requires v < 0x1_0000
    ensures ReadHex4(Hex4(v) + rest) == Some(v)
    ensures forall i :: 0 <= i < 4 ==> 0x30 <= Hex4(v)[i] as int < 0x67
  {
    hide DigitValue, Digit;
    var v1, v2 := v / 16, v / 16 / 16;
    DigitReads(v2 / 16);
    DigitReads(v2 % 16);
    DigitReads(v1 % 16);
    DigitReads(v % 16);
    var s := Hex4(v) + rest;
    assert s[0] == Digit(v2 / 16) && s[1] == Digit(v2 % 16) && s[2] == Digit(v1 % 16) && s[3] == Digit(v % 16);
    assert (v2 / 16) * 16 + v2 % 16 == v2;
    assert v2 * 16 + v1 % 16 == v1;
  }
}
