/**
 Bytecode as hexadecimal text. Every entry point cleans its input in its own
 way: what it strips, what it pads and what it refuses.
 */
module HexText {
  import opened Words
  import opened Numerals

  datatype Result<+T, +E> = Ok(value: T) | Err(error: E)

  datatype InputError = EmptyBytecode | OddLength | NotHex | TooLarge

  /** `MAX_INPUT_BYTECODE_BYTES`. */
  const MAX_INPUT_BYTES: nat := 512 * 1024

  /** Whitespace as `str.split` and `str.strip` see it. */
  predicate IsSpace(c: char) {
    var n := c as int;
    0x09 <= n <= 0x0D || 0x1C <= n <= 0x20 || n == 0x85 || n == 0xA0 || n == 0x1680 || 0x2000 <= n <= 0x200A
    || n == 0x2028 || n == 0x2029 || n == 0x202F || n == 0x205F || n == 0x3000
  }

  predicate IsHexDigit(c: char) {
    DigitValue(c) < 16
  }

  predicate AllHex(s: string) {
    forall i :: 0 <= i < |s| ==> IsHexDigit(s[i])
  }

  function Without(s: string, drop: char -> bool): string {
    if s == "" then "" else (if drop(s[0]) then "" else [s[0]]) + Without(s[1..], drop)
  }

  function TrimLeft(s: string): string {
    if s != "" && IsSpace(s[0]) then TrimLeft(s[1..]) else s
  }

  function TrimRight(s: string): string {
    if s != "" && IsSpace(s[|s|-1]) then TrimRight(s[..|s|-1]) else s
  }

  function WithoutPrefix(s: string): string {
    if |s| >= 2 && s[0] == '0' && (s[1] == 'x' || s[1] == 'X') then s[2..] else s
  }

  /** `bytes.fromhex`: pairs of digits, with ASCII whitespace allowed between pairs. */
  function FromHex(s: string): Option<seq<Byte>> {
    if s == "" then Some([])
    else if 0x09 <= s[0] as int <= 0x0D || s[0] == ' ' then FromHex(s[1..])
    else if |s| >= 2 && IsHexDigit(s[0]) && IsHexDigit(s[1]) then
      match FromHex(s[2..])
      case None => None
      case Some(rest) => Some([DigitValue(s[0]) * 16 + DigitValue(s[1])] + rest)
    else None
  }

  /** `bytes.hex`. */
  function ToHex(b: seq<Byte>): (s: string)
    ensures |s| == 2 * |b|
  {
    if b == [] then "" else [Digit(b[0] / 16), Digit(b[0] % 16)] + ToHex(b[1..])
  }

  /** `normalize_hex_string`. */
  function Normalize(s: string): string {
    WithoutPrefix(Without(s, IsSpace))
  }

  function Validate(s: string): Result<string, InputError> {
    var clean := Normalize(s);
    if clean == "" then Err(EmptyBytecode)
    else if |clean| % 2 != 0 then Err(OddLength)
    else if !AllHex(clean) then Err(NotHex)
    else if |clean| / 2 > MAX_INPUT_BYTES then Err(TooLarge)
    else Ok(clean)
  }

  // ---- Properties ----

  lemma {:induction false} ToHexIsHex(b: seq<Byte>)
    ensures AllHex(ToHex(b))
  {
    hide DigitValue, Digit;
    if b != [] {
      DigitReads(b[0] / 16);
      DigitReads(b[0] % 16);
      ToHexIsHex(b[1..]);
    }
  }

  lemma HexIsNotSpace(c: char)
    requires IsHexDigit(c)
    ensures !IsSpace(c) && c != 'x' && c != 'X'
  {
  }

  /** Reading back what was written gives the bytes. */
  lemma {:induction false} HexRoundTrip(b: seq<Byte>)
    ensures FromHex(ToHex(b)) == Some(b)
  {
    hide DigitValue, Digit, IsSpace, IsHexDigit;
    if b != [] {
      HexRoundTrip(b[1..]);
      ByteReads(b[0], ToHex(b[1..]));
      assert b == [b[0]] + b[1..];
    }
  }

  lemma ByteReads(x: Byte, rest: string)
    ensures FromHex([Digit(x / 16), Digit(x % 16)] + rest) == (
      match FromHex(rest)
      case None => None
      case Some(b) => Some([x] + b))
  {
    hide DigitValue, Digit;
    DigitReads(x / 16);
    DigitReads(x % 16);
    var s := [Digit(x / 16), Digit(x % 16)] + rest;
    assert s[0] == Digit(x / 16) && s[1] == Digit(x % 16);
    HexIsNotSpace(s[0]);
    assert s[2..] == rest;
    assert x / 16 * 16 + x % 16 == x;
  }

  lemma {:induction false} WithoutNothing(s: string, drop: char -> bool)
    requires forall i :: 0 <= i < |s| ==> !drop(s[i])
    ensures Without(s, drop) == s
  {
    if s != "" {
      WithoutNothing(s[1..], drop);
    }
  }

  lemma HexHasNoPrefix(s: string)
    requires AllHex(s)
    ensures WithoutPrefix(s) == s
  {
    if |s| >= 2 {
      HexIsNotSpace(s[1]);
    }
  }

  lemma PrefixedText(s: string, x: char, drop: char -> bool)
    requires AllHex(s) && (x == 'x' || x == 'X')
    requires !drop('0') && !drop(x) && forall c :: IsHexDigit(c) ==> !drop(c)
    ensures Without(['0', x] + s, drop) == ['0', x] + s && WithoutPrefix(['0', x] + s) == s
  {
    var t := ['0', x] + s;
    forall i | 0 <= i < |t| ensures !drop(t[i]) {
      if i >= 2 {
        assert t[i] == s[i-2];
      }
    }
    WithoutNothing(t, drop);
  }

  lemma NormalizeHex(s: string)
    requires AllHex(s)
    ensures Normalize(s) == s && Normalize("0x" + s) == s && Normalize("0X" + s) == s
  {
    forall c | IsHexDigit(c) ensures !IsSpace(c) {
      HexIsNotSpace(c);
    }
    hide IsHexDigit;
    WithoutNothing(s, IsSpace);
    HexHasNoPrefix(s);
    PrefixedText(s, 'x', IsSpace);
    PrefixedText(s, 'X', IsSpace);
    assert "0x" == ['0', 'x'] && "0X" == ['0', 'X'];
  }

  /** The characters with the property White_Space of Unicode, and the four that `str.isspace` adds to them. */
  const WHITESPACE: string :=
    "\t\n\U{0B}\U{0C}\r \U{85}\U{A0}\U{1680}\U{2000}\U{2001}\U{2002}\U{2003}"
    + "\U{2004}\U{2005}\U{2006}\U{2007}\U{2008}\U{2009}\U{200A}\U{2028}\U{2029}\U{202F}\U{205F}\U{3000}"
  const SEPARATORS: string := "\U{1C}\U{1D}\U{1E}\U{1F}"

  lemma SpacesAre(c: char)
    ensures IsSpace(c) <==> c in WHITESPACE + SEPARATORS
  {
  }

  /** Spaces anywhere in the text make no difference. */
  lemma {:induction false} SpacesDropped(a: string, c: char, b: string)
    requires IsSpace(c)
    ensures Normalize(a + [c] + b) == Normalize(a + b)
  {
    assert Without([c], IsSpace) == "";
    hide Without, IsSpace;
    WithoutConcat(a + [c], b, IsSpace);
    WithoutConcat(a, [c], IsSpace);
    WithoutConcat(a, b, IsSpace);
    assert Without(a, IsSpace) + "" + Without(b, IsSpace) == Without(a, IsSpace) + Without(b, IsSpace);
  }

  lemma {:induction false} WithoutConcat(a: string, b: string, drop: char -> bool)
    ensures Without(a + b, drop) == Without(a, drop) + Without(b, drop)
  {
    if a == "" {
      assert a + b == b;
    } else {
      assert (a + b)[1..] == a[1..] + b;
      WithoutConcat(a[1..], b, drop);
    }
  }

  lemma OneWithout(c: char, drop: char -> bool)
    ensures Without([c], drop) == if drop(c) then "" else [c]
  {
    assert Without("", drop) == "";
    assert [c] + "" == [c];
  }

  /** A character between digits is left out exactly if it is to be dropped; nothing else changes. */
  lemma InnerDrop(a: string, c: char, b: string, drop: char -> bool)
    requires AllHex(a) && AllHex(b) && |a| >= 2 && b != "" && forall x :: IsHexDigit(x) ==> !drop(x)
    ensures var t := Without(WithoutPrefix(TrimRight(TrimLeft(a + [c] + b))), drop);
      (t == a + b <==> drop(c)) && (!drop(c) ==> t == a + [c] + b)
  {
    hide TrimLeft, TrimRight, WithoutPrefix, Without;
    NothingAtEnds(a, c, b);
    DroppedBetween(a, c, b, drop);
    hide *;
    assert a + "" + b == a + b;
    assert |a + [c] + b| != |a + b|;
  }

  lemma DroppedBetween(a: string, c: char, b: string, drop: char -> bool)
    requires AllHex(a) && AllHex(b) && forall x :: IsHexDigit(x) ==> !drop(x)
    ensures Without(a + [c] + b, drop) == a + (if drop(c) then "" else [c]) + b
  {
    WithoutNothing(a, drop);
    WithoutNothing(b, drop);
    hide *;
    WithoutConcat(a + [c], b, drop);
    WithoutConcat(a, [c], drop);
    OneWithout(c, drop);
  }

  lemma NothingAtEnds(a: string, c: char, b: string)
    requires AllHex(a) && AllHex(b) && |a| >= 2 && b != ""
    ensures WithoutPrefix(TrimRight(TrimLeft(a + [c] + b))) == a + [c] + b
  {
    var s := a + [c] + b;
    assert s[0] == a[0] && s[1] == a[1] && s[|s|-1] == b[|b|-1];
    HexIsNotSpace(s[0]);
    HexIsNotSpace(s[1]);
    HexIsNotSpace(s[|s|-1]);
  }

  lemma DigitsStay(drop: char -> bool)
    requires forall x :: drop(x) ==> x in " \n\r"
    ensures forall x :: IsHexDigit(x) ==> !drop(x)
  {
    forall x | IsHexDigit(x) ensures !drop(x) {
      HexIsNotSpace(x);
    }
  }

  /** What becomes of the text of any bytes: none, at most half a mebibyte, or more. */
  lemma ValidateBytes(s: string, b: seq<Byte>)
    requires s == ToHex(b) || s == "0x" + ToHex(b)
    ensures b == [] ==> Validate(s) == Err(EmptyBytecode)
    ensures 1 <= |b| <= 524288 ==> Validate(s) == Ok(ToHex(b))
    ensures |b| > 524288 ==> Validate(s) == Err(TooLarge)
  {
    var t := ToHex(b);
    ToHexIsHex(b);
    hide *;
    assert Normalize(s) == t by { NormalizeHex(t); }
    ValidateHex(t, s);
    if b == [] {
      assert t == "";
    }
  }

  lemma ValidateHex(t: string, s: string)
    requires AllHex(t) && |t| % 2 == 0 && Normalize(s) == t
    ensures Validate(s) ==
      if t == "" then Err(EmptyBytecode) else if |t| / 2 > 524288 then Err(TooLarge) else Ok(t)
  {
    hide Normalize, AllHex;
  }

  /** An odd number of characters is reported as such, whatever they are; an even one only if all are digits. */
  lemma ValidateOther(s: string)
    ensures |Normalize(s)| % 2 == 1 ==> Validate(s) == Err(OddLength)
    ensures Normalize(s) != "" && |Normalize(s)| % 2 == 0 ==>
      (Validate(s) == Err(NotHex) <==> exists i :: 0 <= i < |Normalize(s)| && DigitValue(Normalize(s)[i]) == 16)
  {
    hide Normalize, DigitValue;
    DigitValueBound(Normalize(s));
  }

  lemma DigitValueBound(s: string)
    ensures forall i :: 0 <= i < |s| ==> DigitValue(s[i]) <= 16
  {
  }

  /** Text that passed validation always decodes, to half as many bytes as it has digits. */
  lemma ValidDecodes(s: string)
    requires Validate(s).Ok?
    ensures FromHex(Validate(s).value).Some?
    ensures |FromHex(Validate(s).value).value| * 2 == |Validate(s).value|
  {
    EvenHexDecodes(Validate(s).value);
  }

  lemma {:induction false} EvenHexDecodes(s: string)
    requires AllHex(s) && |s| % 2 == 0
    ensures FromHex(s).Some? && |FromHex(s).value| * 2 == |s|
    decreases |s|
  {
    if s != "" {
      HexIsNotSpace(s[0]);
      EvenHexDecodes(s[2..]);
    }
  }

  lemma {:induction false} FromHexConcat(a: string, b: string)
    requires AllHex(a) && AllHex(b) && |a| % 2 == 0 && |b| % 2 == 0
    ensures FromHex(a).Some? && FromHex(b).Some? && FromHex(a + b) == Some(FromHex(a).value + FromHex(b).value)
    decreases |a|
  {
    hide DigitValue;
    EvenHexDecodes(a);
    EvenHexDecodes(b);
    if a == "" {
      assert a + b == b && FromHex(a).value + FromHex(b).value == FromHex(b).value;
    } else {
      HexIsNotSpace(a[0]);
      assert (a + b)[2..] == a[2..] + b && (a + b)[0] == a[0] && (a + b)[1] == a[1];
      FromHexConcat(a[2..], b);
      var first: seq<Byte> := [DigitValue(a[0]) * 16 + DigitValue(a[1])];
      var r, q := FromHex(a[2..]).value, FromHex(b).value;
      assert first + (r + q) == (first + r) + q;
    }
  }

  /** The bytes of an even number of digits are the number that the digits denote. */
  lemma {:induction false} HexIsNumber(s: string)
    requires AllHex(s) && |s| % 2 == 0
    ensures FromHex(s).Some? && |FromHex(s).value| * 2 == |s| && FromBigEndian(FromHex(s).value) == HexNumber(s)
    decreases |s|
  {
    EvenHexDecodes(s);
    if s != "" {
      var n := |s| - 2;
      var init, pair := s[..n], s[n..];
      assert s == init + pair;
      FromHexConcat(init, pair);
      HexIsNumber(init);
      PairIsNumber(pair);
      var b := FromHex(s).value;
      assert b[..|b|-1] == FromHex(init).value;
      assert s[..|s|-1][..n] == init;
    }
  }

  lemma PairIsNumber(pair: string)
    requires AllHex(pair) && |pair| == 2
    ensures FromHex(pair) == Some([DigitValue(pair[0]) * 16 + DigitValue(pair[1])])
  {
    HexIsNotSpace(pair[0]);
    assert pair[2..] == "" && FromHex("") == Some([]);
    var v: Byte := DigitValue(pair[0]) * 16 + DigitValue(pair[1]);
    assert [v] + [] == [v];
  }

  predicate AllSpace(s: string) {
    forall i :: 0 <= i < |s| ==> IsSpace(s[i])
  }

  lemma {:induction false} LeftTrimmed(a: string, s: string)
    ensures AllSpace(a) ==> TrimLeft(a + s) == TrimLeft(s)
    ensures TrimLeft(a) == "" <==> AllSpace(a)
    ensures !AllSpace(a) ==> TrimLeft(a + s) == TrimLeft(a) + s
  {
    hide IsSpace;
    if a == "" {
      assert a + s == s;
    } else {
      assert (a + s)[1..] == a[1..] + s;
      LeftTrimmed(a[1..], s);
    }
  }

  lemma {:induction false} RightTrimmed(s: string, b: string)
    requires AllSpace(b)
    ensures TrimRight(s + b) == TrimRight(s)
    decreases |b|
  {
    hide IsSpace;
    if b == "" {
      assert s + b == s;
    } else {
      assert (s + b)[..|s + b| - 1] == s + b[..|b|-1];
      RightTrimmed(s, b[..|b|-1]);
    }
  }

  /** Whitespace around any text makes no difference. */
  lemma SurroundTrimmed(a: string, s: string, b: string)
    requires AllSpace(a) && AllSpace(b)
    ensures TrimRight(TrimLeft(a + s + b)) == TrimRight(TrimLeft(s))
  {
    hide IsSpace, TrimLeft, TrimRight;
    assert a + s + b == a + (s + b);
    LeftTrimmed(a, s + b);
    LeftTrimmed(s, b);
    LeftTrimmed(b, "");
    assert b + "" == b;
    if !AllSpace(s) {
      RightTrimmed(TrimLeft(s), b);
    } else {
      assert TrimLeft(s + b) == TrimLeft(b) == "";
    }
  }

  /** Between pairs of digits only the whitespace of ASCII is allowed, and it makes no difference. */
  lemma {:induction false} SpaceBetweenPairs(a: string, c: char, b: string)
    requires AllHex(a) && |a| % 2 == 0 && !IsHexDigit(c)
    ensures FromHex(a + [c] + b) == if c in " \t\n\U{0B}\U{0C}\r" then FromHex(a + b) else None
    decreases |a|
  {
    hide DigitValue;
    var s := a + [c] + b;
    if a == "" {
      assert s == [c] + b && s[1..] == b && a + b == b;
    } else {
      HexIsNotSpace(a[0]);
      assert s[2..] == a[2..] + [c] + b && s[0] == a[0] && s[1] == a[1];
      assert (a + b)[2..] == a[2..] + b;
      SpaceBetweenPairs(a[2..], c, b);
    }
  }

  lemma {:induction false} TrimNothing(s: string)
    requires AllHex(s)
    ensures TrimLeft(s) == s && TrimRight(s) == s
    ensures TrimLeft("0x" + s) == "0x" + s && TrimRight("0x" + s) == "0x" + s
  {
    if s != "" {
      HexIsNotSpace(s[0]);
      HexIsNotSpace(s[|s|-1]);
      assert ("0x" + s)[|s| + 1] == s[|s|-1];
    }
  }
}
