/** `sort.Strings` compares bytes; on UTF-8 that is the order of code points by which the printer is specified. */
module Utf8Order {
  import opened Words
  import opened JsonOut

  /** The UTF-8 bytes of a scalar value. */
  function RuneBytes(r: Rune): (b: seq<Byte>)
    ensures b != []
  {
    if r < 0x80 then [r]
    else if r < 0x800 then [0xC0 + r / 0x40, 0x80 + r % 0x40]
    else if r < 0x1_0000 then [0xE0 + r / 0x1000, 0x80 + r / 0x40 % 0x40, 0x80 + r % 0x40]
    else [0xF0 + r / 0x4_0000, 0x80 + r / 0x1000 % 0x40, 0x80 + r / 0x40 % 0x40, 0x80 + r % 0x40]
  }

  function TextBytes(s: Text): seq<Byte> {
    if s == [] then [] else RuneBytes(s[0]) + TextBytes(s[1..])
  }

  /** The order of Go strings. */
  predicate BytesLessEq(a: seq<Byte>, b: seq<Byte>) {
    a == [] || (b != [] && (a[0] < b[0] || (a[0] == b[0] && BytesLessEq(a[1..], b[1..]))))
  }

  lemma {:induction false} CommonPrefix(p: seq<Byte>, a: seq<Byte>, b: seq<Byte>)
    ensures BytesLessEq(p + a, p + b) <==> BytesLessEq(a, b)
  {
    if p == [] {
      assert p + a == a && p + b == b;
    } else {
      assert (p + a)[1..] == p[1..] + a && (p + b)[1..] == p[1..] + b;
      CommonPrefix(p[1..], a, b);
    }
  }

  /** Where the bytes of a smaller scalar value differ first, they are smaller. */
  ghost predicate DiffersAt(a: seq<Byte>, b: seq<Byte>, k: nat) {
    k < |a| && k < |b| && a[..k] == b[..k] && a[k] < b[k]
  }

  lemma RunesDiffer(r: Rune, s: Rune) returns (k: nat)
    requires r < s
    ensures DiffersAt(RuneBytes(r), RuneBytes(s), k)
  {
    var a, b := RuneBytes(r), RuneBytes(s);
    SplitRune(r);
    SplitRune(s);
    if a[0] != b[0] {
      k := 0;
    } else if a[1] != b[1] {
      k := 1;
    } else if a[2] != b[2] {
      k := 2;
    } else {
      k := 3;
    }
  }

  /** The bytes of a scalar value determine it, digit by digit. */
  lemma SplitRune(r: Rune)
    ensures r == (r / 0x40) * 0x40 + r % 0x40
    ensures r / 0x40 == (r / 0x1000) * 0x40 + r / 0x40 % 0x40
    ensures r / 0x1000 == (r / 0x4_0000) * 0x40 + r / 0x1000 % 0x40
  {
    assert r / 0x40 / 0x40 == r / 0x1000;
    assert r / 0x1000 / 0x40 == r / 0x4_0000;
  }

  lemma FirstDifferenceDecides(a: seq<Byte>, b: seq<Byte>, k: nat, x: seq<Byte>, y: seq<Byte>)
    requires DiffersAt(a, b, k)
    ensures BytesLessEq(a + x, b + y) && !BytesLessEq(b + y, a + x)
  {
    var p := a[..k];
    assert a + x == p + (a[k..] + x) && b + y == p + (b[k..] + y);
    CommonPrefix(p, a[k..] + x, b[k..] + y);
    CommonPrefix(p, b[k..] + y, a[k..] + x);
    assert (a[k..] + x)[0] == a[k] && (b[k..] + y)[0] == b[k];
  }

  /** Sorting by bytes and sorting by code points are the same. */
  lemma {:induction false} ByteOrderIsRuneOrder(a: Text, b: Text)
    ensures BytesLessEq(TextBytes(a), TextBytes(b)) <==> LessEq(a, b)
  {
    hide RuneBytes;
    if a != [] && b != [] {
      if a[0] == b[0] {
        CommonPrefix(RuneBytes(a[0]), TextBytes(a[1..]), TextBytes(b[1..]));
        ByteOrderIsRuneOrder(a[1..], b[1..]);
      } else if a[0] < b[0] {
        var k := RunesDiffer(a[0], b[0]);
        FirstDifferenceDecides(RuneBytes(a[0]), RuneBytes(b[0]), k, TextBytes(a[1..]), TextBytes(b[1..]));
      } else {
        var k := RunesDiffer(b[0], a[0]);
        FirstDifferenceDecides(RuneBytes(b[0]), RuneBytes(a[0]), k, TextBytes(b[1..]), TextBytes(a[1..]));
      }
    }
  }
}
