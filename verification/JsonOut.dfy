/** The JSON printer: every encoder appends to one shared buffer, and keys are printed in sorted order. */
module JsonOut {
  import opened Words
  import opened Numerals

  /** A Unicode scalar value. */
  type Rune = r: int | (0 <= r < 0xD800) || (0xE000 <= r < 0x11_0000)

  type Text = seq<Rune>

  /** The dynamic values that the printer accepts, with its two typed nils and its list of strings. */
  datatype Value =
    | Nil
    | Bool(b: bool)
    | Int(n: int)
    | Str(s: Text)
    | Map(m: map<Text, Value>)
    | NilMap
    | List(l: seq<Value>)
    | NilList
    | Strings(ss: seq<Text>)

  // ---- Sorted keys ----

  /** The order in which keys are printed: by code point. */
  predicate LessEq(a: Text, b: Text) {
    a == [] || (b != [] && (a[0] < b[0] || (a[0] == b[0] && LessEq(a[1..], b[1..]))))
  }

  lemma {:induction false} LessEqTotal(a: Text, b: Text)
    ensures LessEq(a, b) || LessEq(b, a)
  {
    if a != [] && b != [] && a[0] == b[0] {
      LessEqTotal(a[1..], b[1..]);
    }
  }

  lemma {:induction false} LessEqAntisymmetric(a: Text, b: Text)
    requires LessEq(a, b) && LessEq(b, a)
    ensures a == b
  {
    if a != [] && b != [] {
      LessEqAntisymmetric(a[1..], b[1..]);
      assert a == [a[0]] + a[1..] && b == [b[0]] + b[1..];
    }
  }

  lemma {:induction false} LessEqTransitive(a: Text, b: Text, c: Text)
    requires LessEq(a, b) && LessEq(b, c)
    ensures LessEq(a, c)
  {
    if a != [] && b[0] == a[0] && c[0] == b[0] {
      LessEqTransitive(a[1..], b[1..], c[1..]);
    }
  }

  /** `ks` lists the elements of `s` once each, in order. */
  ghost predicate IsSortedListing(ks: seq<Text>, s: set<Text>) {
    && (forall k :: k in s <==> k in ks)
    && (forall i, j :: 0 <= i < j < |ks| ==> LessEq(ks[i], ks[j]) && ks[i] != ks[j])
  }

  lemma {:induction false} ListingUnique(a: seq<Text>, b: seq<Text>, s: set<Text>)
    requires IsSortedListing(a, s) && IsSortedListing(b, s)
    ensures a == b
    decreases |a|
  {
    if a == [] || b == [] {
      EmptyListing(a, s);
      EmptyListing(b, s);
    } else {
      assert a[0] in s && b[0] in s;
      var i :| 0 <= i < |a| && a[i] == b[0];
      var j :| 0 <= j < |b| && b[j] == a[0];
      if i > 0 && j > 0 {
        LessEqAntisymmetric(a[0], b[0]);
      }
      assert a[0] == b[0];
      DropFirst(a, s);
      DropFirst(b, s);
      ListingUnique(a[1..], b[1..], s - {a[0]});
      assert a == [a[0]] + a[1..] && b == [b[0]] + b[1..];
    }
  }

  lemma EmptyListing(a: seq<Text>, s: set<Text>)
    requires IsSortedListing(a, s)
    ensures a == [] <==> s == {}
  {
    if a != [] {
      assert a[0] in s;
    }
  }

  lemma DropFirst(a: seq<Text>, s: set<Text>)
    requires IsSortedListing(a, s) && a != []
    ensures IsSortedListing(a[1..], s - {a[0]})
  {
    forall k ensures k in s - {a[0]} <==> k in a[1..] {
      if k in s - {a[0]} {
        var i :| 0 <= i < |a| && a[i] == k;
        assert a[1..][i-1] == k;
      }
      if k in a[1..] {
        var i :| 0 <= i < |a[1..]| && a[1..][i] == k;
        assert a[i+1] == k;
      }
    }
  }

  /** Put `x` behind the keys that are not greater. */
  function InsertText(ks: seq<Text>, x: Text): seq<Text> {
    if ks != [] && !LessEq(ks[|ks|-1], x) then InsertText(ks[..|ks|-1], x) + [ks[|ks|-1]] else ks + [x]
  }

  function SortTexts(ks: seq<Text>): seq<Text> {
    if ks == [] then [] else InsertText(SortTexts(ks[..|ks|-1]), ks[|ks|-1])
  }

  lemma {:induction false} InsertKeepsListing(ks: seq<Text>, s: set<Text>, x: Text)
    requires IsSortedListing(ks, s) && x !in s
    ensures IsSortedListing(InsertText(ks, x), s + {x})
    ensures forall k :: k in InsertText(ks, x) <==> k == x || k in ks
    decreases |ks|
  {
    if ks != [] && !LessEq(ks[|ks|-1], x) {
      var n := |ks| - 1;
      var init, last := ks[..n], ks[n];
      assert ks == init + [last];
      DropLast(ks, s);
      InsertKeepsListing(init, s - {last}, x);
      LessEqTotal(last, x);
      var r := InsertText(init, x);
      assert s - {last} + {x} + {last} == s + {x};
      forall i | 0 <= i < |r| ensures LessEq(r[i], last) && r[i] != last {
        assert r[i] in r;
        if r[i] != x {
          var j :| 0 <= j < |init| && init[j] == r[i];
          assert ks[j] == r[i];
        }
      }
    } else {
      forall i | 0 <= i < |ks| ensures LessEq(ks[i], x) && ks[i] != x {
        assert ks[i] in ks;
        if i < |ks| - 1 {
          LessEqTransitive(ks[i], ks[|ks|-1], x);
        }
      }
    }
  }

  lemma DropLast(a: seq<Text>, s: set<Text>)
    requires IsSortedListing(a, s) && a != []
    ensures IsSortedListing(a[..|a|-1], s - {a[|a|-1]}) && a[|a|-1] in s
  {
    var n := |a| - 1;
    assert a == a[..n] + [a[n]];
    assert a[n] !in a[..n];
  }

  lemma {:induction false} SortGivesListing(ks: seq<Text>, s: set<Text>)
    requires forall i, j :: 0 <= i < j < |ks| ==> ks[i] != ks[j]
    requires forall k :: k in s <==> k in ks
    ensures IsSortedListing(SortTexts(ks), s)
    decreases |ks|
  {
    if ks != [] {
      var n := |ks| - 1;
      assert ks == ks[..n] + [ks[n]];
      assert ks[n] !in ks[..n];
      SortGivesListing(ks[..n], s - {ks[n]});
      InsertKeepsListing(SortTexts(ks[..n]), s - {ks[n]}, ks[n]);
      assert s - {ks[n]} + {ks[n]} == s;
    }
  }

  ghost predicate IsLeast(k: Text, s: set<Text>) {
    k in s && forall x :: x in s ==> LessEq(k, x)
  }

  lemma {:induction false} LeastExists(s: set<Text>)
    requires s != {}
    ensures exists k :: IsLeast(k, s)
    decreases s
  {
    var x :| x in s;
    LessEqTotal(x, x);
    if s == {x} {
      assert IsLeast(x, s);
    } else {
      LeastExists(s - {x});
      var y :| IsLeast(y, s - {x});
      LessEqTotal(x, y);
      if LessEq(x, y) {
        forall z | z in s ensures LessEq(x, z) {
          if z != x { LessEqTransitive(x, y, z); }
        }
        assert IsLeast(x, s);
      } else {
        assert IsLeast(y, s);
      }
    }
  }

  /** The keys of a map in the order in which they are printed. */
  ghost function SortedKeys(s: set<Text>): (ks: seq<Text>)
    ensures IsSortedListing(ks, s)
    decreases s
  {
    if s == {} then []
    else
      var first := LeastKey(s);
      [first] + SortedKeys(s - {first})
  }

  ghost function LeastKey(s: set<Text>): (k: Text)
    requires s != {}
    ensures IsLeast(k, s)
  {
    LeastExists(s);
    var k :| IsLeast(k, s);
    k
  }

  // ---- What is printed ----

  function Spaces(level: nat): string {
    if level == 0 then "" else "  " + Spaces(level - 1)
  }

  function RenderInt(n: int): string {
    if n < 0 then "-" + Decimal(-n) else Decimal(n)
  }

  function RenderRune(r: Rune): string {
    if r == 0x5C then "\\\\"
    else if r == 0x22 then "\\\""
    else if r == 0x08 then "\\b"
    else if r == 0x0C then "\\f"
    else if r == 0x0A then "\\n"
    else if r == 0x0D then "\\r"
    else if r == 0x09 then "\\t"
    else if r < 0x20 then "\\u" + Hex4(r)
    else if r < 0x7F then [r as char]
    else if r <= 0xFFFF then "\\u" + Hex4(r)
    else "\\u" + Hex4(HighSurrogate(r)) + "\\u" + Hex4(LowSurrogate(r))
  }

  function HighSurrogate(r: Rune): (h: nat)
    requires r > 0xFFFF
    ensures 0xD800 <= h < 0xDC00
  {
    0xD800 + (r - 0x1_0000) / 0x400
  }

  function LowSurrogate(r: Rune): (l: nat)
    requires r > 0xFFFF
    ensures 0xDC00 <= l < 0xE000
  {
    0xDC00 + (r - 0x1_0000) % 0x400
  }

  function RenderRunes(s: Text): string {
    if s == [] then "" else RenderRune(s[0]) + RenderRunes(s[1..])
  }

  function RenderText(s: Text): string {
    "\"" + RenderRunes(s) + "\""
  }

  ghost function Render(v: Value, level: nat): string
    decreases v, 2
  {
    match v
    case Nil => "null"
    case Bool(b) => if b then "true" else "false"
    case Int(n) => RenderInt(n)
    case Str(s) => RenderText(s)
    case Map(m) => RenderMap(v, level)
    case NilMap => "null"
    case List(l) => RenderList(v, level)
    case NilList => "null"
    case Strings(ss) => RenderStrings(ss, level)
  }

  ghost function RenderMap(v: Value, level: nat): string
    requires v.Map?
    decreases v, 1
  {
    if v.m == map[] then "{}" else "{\n" + RenderMembers(SortedKeys(v.m.Keys), 0, v, level)
  }

  ghost function RenderList(v: Value, level: nat): string
    requires v.List?
    decreases v, 1
  {
    if v.l == [] then "[]" else "[\n" + RenderItems(v, 0, level)
  }

  function RenderStrings(ss: seq<Text>, level: nat): string {
    if ss == [] then "[]" else "[\n" + RenderTexts(ss, 0, level)
  }

  /** Members `i ..` and the closing brace. */
  ghost function RenderMembers(ks: seq<Text>, i: nat, v: Value, level: nat): string
    requires v.Map? && i <= |ks| && forall k :: k in ks ==> k in v.m
    decreases v, 0, |ks| - i
  {
    if i == |ks| then Spaces(level) + "}"
    else
      Spaces(level + 1) + RenderText(ks[i]) + ": " + Render(v.m[ks[i]], level + 1)
      + Separator(i, |ks|) + RenderMembers(ks, i + 1, v, level)
  }

  /** Items `i ..` and the closing bracket. */
  ghost function RenderItems(v: Value, i: nat, level: nat): string
    requires v.List? && i <= |v.l|
    decreases v, 0, |v.l| - i
  {
    if i == |v.l| then Spaces(level) + "]"
    else
      Spaces(level + 1) + Render(v.l[i], level + 1) + Separator(i, |v.l|) + RenderItems(v, i + 1, level)
  }

  /** The end of the line of item `i` of `n`. */
  function Separator(i: nat, n: nat): string
    requires i < n
  {
    if i < n - 1 then ",\n" else "\n"
  }

  function RenderTexts(ss: seq<Text>, i: nat, level: nat): string
    requires i <= |ss|
    decreases |ss| - i
  {
    if i == |ss| then Spaces(level) + "]"
    else
      Spaces(level + 1) + RenderText(ss[i]) + Separator(i, |ss|) + RenderTexts(ss, i + 1, level)
  }

  // ---- Indentation ----

  lemma {:induction false} SpacesAre(level: nat)
    ensures |Spaces(level)| == 2 * level && forall i :: 0 <= i < 2 * level ==> Spaces(level)[i] == ' '
  {
    if level > 0 {
      SpacesAre(level - 1);
    }
  }

  /** The text begins with exactly `n` spaces. */
  predicate IndentedBy(s: string, n: nat) {
    |s| > n && s[n] != ' ' && forall i :: 0 <= i < n ==> s[i] == ' '
  }

  lemma SpacesIndent(level: nat, rest: string)
    requires rest != "" && rest[0] != ' '
    ensures IndentedBy(Spaces(level) + rest, 2 * level)
  {
    SpacesAre(level);
  }

  lemma ValueStarts(v: Value, level: nat)
    ensures Render(v, level) != "" && Render(v, level)[0] != ' '
  {
    hide RenderMembers, RenderItems, RenderTexts, SortedKeys, RenderRunes, Spaces, Decimal;
    if v.Int? && v.n >= 0 {
      DecimalReads(v.n);
    }
  }

  /** Every line inside braces or brackets is indented by two spaces a level, and their closing line by one level less. */
  lemma LinesIndented(v: Value, ks: seq<Text>, ss: seq<Text>, i: nat, level: nat)
    ensures v.Map? && i <= |ks| && (forall k :: k in ks ==> k in v.m) ==>
      IndentedBy(RenderMembers(ks, i, v, level), 2 * if i < |ks| then level + 1 else level)
    ensures v.List? && i <= |v.l| ==>
      IndentedBy(RenderItems(v, i, level), 2 * if i < |v.l| then level + 1 else level)
    ensures i <= |ss| ==>
      IndentedBy(RenderTexts(ss, i, level), 2 * if i < |ss| then level + 1 else level)
  {
    MembersIndented(v, ks, i, level);
    ItemsIndented(v, i, level);
    TextsIndented(ss, i, level);
    hide *;
  }

  lemma MembersIndented(v: Value, ks: seq<Text>, i: nat, level: nat)
    ensures v.Map? && i <= |ks| && (forall k :: k in ks ==> k in v.m) ==>
      IndentedBy(RenderMembers(ks, i, v, level), 2 * if i < |ks| then level + 1 else level)
  {
    hide Spaces, IndentedBy, Render, RenderRunes, Separator;
    if v.Map? && i <= |ks| && forall k :: k in ks ==> k in v.m {
      if i < |ks| {
        var rest := RenderText(ks[i]) + ": " + Render(v.m[ks[i]], level + 1)
          + Separator(i, |ks|) + RenderMembers(ks, i + 1, v, level);
        SpacesIndent(level + 1, rest);
        assert RenderMembers(ks, i, v, level) == Spaces(level + 1) + rest;
      } else {
        SpacesIndent(level, "}");
      }
    }
  }

  lemma ItemsIndented(v: Value, i: nat, level: nat)
    ensures v.List? && i <= |v.l| ==>
      IndentedBy(RenderItems(v, i, level), 2 * if i < |v.l| then level + 1 else level)
  {
    hide Spaces, IndentedBy, Render, Separator;
    if v.List? && i < |v.l| {
      ValueStarts(v.l[i], level + 1);
      var rest := Render(v.l[i], level + 1) + Separator(i, |v.l|) + RenderItems(v, i + 1, level);
      SpacesIndent(level + 1, rest);
      assert RenderItems(v, i, level) == Spaces(level + 1) + rest;
    } else {
      SpacesIndent(level, "]");
    }
  }

  lemma TextsIndented(ss: seq<Text>, i: nat, level: nat)
    ensures i <= |ss| ==>
      IndentedBy(RenderTexts(ss, i, level), 2 * if i < |ss| then level + 1 else level)
  {
    hide Spaces, IndentedBy, RenderRunes, Separator;
    if i < |ss| {
      var rest := RenderText(ss[i]) + Separator(i, |ss|) + RenderTexts(ss, i + 1, level);
      SpacesIndent(level + 1, rest);
      assert RenderTexts(ss, i, level) == Spaces(level + 1) + rest;
    } else {
      SpacesIndent(level, "]");
    }
  }

  // ---- The encoders ----

  class Buffer {
    var data: string

    constructor ()
      ensures data == ""
    {
      data := "";
    }

    method WriteString(s: string)
      modifies this
      ensures data == old(data) + s
    {
      data := data + s;
    }
  }

  method Indent(buf: Buffer, level: nat)
    modifies buf
    ensures buf.data == old(buf.data) + Spaces(level)
  {
    ghost var start := buf.data;
    for i := 0 to level
      invariant buf.data + Spaces(level - i) == start + Spaces(level)
    {
      buf.WriteString("  ");
    }
    assert buf.data + "" == buf.data;
  }

  method EncodeString(buf: Buffer, s: Text)
    modifies buf
    ensures buf.data == old(buf.data) + RenderText(s)
  {
    hide RenderRune;
    buf.WriteString("\"");
    ghost var open := buf.data;
    assert s[0..] == s;
    for i := 0 to |s|
      invariant buf.data + RenderRunes(s[i..]) == open + RenderRunes(s)
    {
      ghost var before := buf.data;
      EncodeRune(buf, s[i]);
      RuneAppends(before, s, i);
    }
    assert s[|s|..] == [];
    buf.WriteString("\"");
    Enclosed(old(buf.data), "\"", RenderRunes(s), "\"");
  }

  lemma Enclosed(before: string, left: string, s: string, right: string)
    ensures before + left + s + right == before + (left + s + right)
  {
  }

  lemma RuneAppends(before: string, s: Text, i: nat)
    requires i < |s|
    ensures before + RenderRunes(s[i..]) == (before + RenderRune(s[i])) + RenderRunes(s[i+1..])
  {
    hide RenderRune;
    assert s[i..][1..] == s[i+1..];
  }

  method EncodeRune(buf: Buffer, r: Rune)
    modifies buf
    ensures buf.data == old(buf.data) + RenderRune(r)
  {
    if r == 0x5C {
      buf.WriteString("\\\\");
    } else if r == 0x22 {
      buf.WriteString("\\\"");
    } else if r == 0x08 {
      buf.WriteString("\\b");
    } else if r == 0x0C {
      buf.WriteString("\\f");
    } else if r == 0x0A {
      buf.WriteString("\\n");
    } else if r == 0x0D {
      buf.WriteString("\\r");
    } else if r == 0x09 {
      buf.WriteString("\\t");
    } else if r < 0x20 {
      buf.WriteString("\\u" + Hex4(r));
    } else if r < 0x7F {
      buf.WriteString([r as char]);
    } else if r <= 0xFFFF {
      buf.WriteString("\\u" + Hex4(r));
    } else {
      buf.WriteString("\\u" + Hex4(HighSurrogate(r)) + "\\u" + Hex4(LowSurrogate(r)));
    }
  }

  method EncodeValue(buf: Buffer, v: Value, level: nat)
    modifies buf
    ensures buf.data == old(buf.data) + Render(v, level)
    decreases v, 2
  {
    match v
    case Nil => buf.WriteString("null");
    case Bool(b) => buf.WriteString(if b then "true" else "false");
    case Int(n) => buf.WriteString(RenderInt(n));
    case Str(s) => EncodeString(buf, s);
    case Map(_) => EncodeMap(buf, v, level);
    case NilMap => buf.WriteString("null");
    case List(_) => EncodeList(buf, v, level);
    case NilList => buf.WriteString("null");
    case Strings(ss) => EncodeStrings(buf, ss, level);
  }

  /** `for k := range m`: the keys in an arbitrary order. */
  method CollectKeys(m: map<Text, Value>) returns (keys: seq<Text>)
    ensures forall k :: k in m.Keys <==> k in keys
    ensures forall i, j :: 0 <= i < j < |keys| ==> keys[i] != keys[j]
  {
    keys := [];
    var rest := m.Keys;
    while rest != {}
      invariant rest <= m.Keys
      invariant forall k :: k in m.Keys - rest <==> k in keys
      invariant forall i, j :: 0 <= i < j < |keys| ==> keys[i] != keys[j]
      decreases rest
    {
      var k :| k in rest;
      rest := rest - {k};
      keys := keys + [k];
    }
    assert m.Keys - rest == m.Keys;
  }

  method EncodeMap(buf: Buffer, v: Value, level: nat)
    requires v.Map?
    modifies buf
    ensures buf.data == old(buf.data) + RenderMap(v, level)
    decreases v, 1
  {
    hide Render, RenderText, Spaces, SortTexts, IsSortedListing;
    if v.m == map[] {
      buf.WriteString("{}");
      return;
    }
    var keys := CollectKeys(v.m);
    ListingOf(v.m.Keys, keys);
    keys := SortTexts(keys);
    buf.WriteString("{\n");
    ghost var open := buf.data;
    for i := 0 to |keys|
      invariant buf.data + RenderMembers(keys, i, v, level) == open + RenderMembers(keys, 0, v, level)
    {
      ghost var before := buf.data;
      Indent(buf, level + 1);
      EncodeString(buf, keys[i]);
      buf.WriteString(": ");
      assert keys[i] in keys;
      EncodeValue(buf, v.m[keys[i]], level + 1);
      EndItem(buf, i, |keys|);
      MemberAppends(before, keys, i, v, level);
    }
    ghost var body := buf.data;
    Indent(buf, level);
    buf.WriteString("}");
    assert buf.data == body + (Spaces(level) + "}");
    assert old(buf.data) + "{\n" + RenderMembers(keys, 0, v, level) == old(buf.data) + ("{\n" + RenderMembers(keys, 0, v, level));
  }

  /** However the keys were collected, sorting gives the one sorted listing. */
  lemma ListingOf(s: set<Text>, keys: seq<Text>)
    requires forall k :: k in s <==> k in keys
    requires forall i, j :: 0 <= i < j < |keys| ==> keys[i] != keys[j]
    ensures SortTexts(keys) == SortedKeys(s) && forall k :: k in SortTexts(keys) ==> k in s
  {
    SortGivesListing(keys, s);
    ListingUnique(SortTexts(keys), SortedKeys(s), s);
  }

  method EndItem(buf: Buffer, i: nat, n: nat)
    requires i < n
    modifies buf
    ensures buf.data == old(buf.data) + Separator(i, n)
  {
    if i < n - 1 {
      buf.WriteString(",");
    }
    buf.WriteString("\n");
  }

  lemma MemberAppends(before: string, ks: seq<Text>, i: nat, v: Value, level: nat)
    requires v.Map? && i < |ks| && forall k :: k in ks ==> k in v.m
    ensures before + RenderMembers(ks, i, v, level) ==
      before + Spaces(level + 1) + RenderText(ks[i]) + ": " + Render(v.m[ks[i]], level + 1) + Separator(i, |ks|)
      + RenderMembers(ks, i + 1, v, level)
  {
    hide Render, RenderText, Spaces, Separator;
  }

  method EncodeList(buf: Buffer, v: Value, level: nat)
    requires v.List?
    modifies buf
    ensures buf.data == old(buf.data) + RenderList(v, level)
    decreases v, 1
  {
    hide Render, Spaces;
    if v.l == [] {
      buf.WriteString("[]");
      return;
    }
    buf.WriteString("[\n");
    ghost var open := buf.data;
    for i := 0 to |v.l|
      invariant buf.data + RenderItems(v, i, level) == open + RenderItems(v, 0, level)
    {
      ghost var before := buf.data;
      Indent(buf, level + 1);
      EncodeValue(buf, v.l[i], level + 1);
      EndItem(buf, i, |v.l|);
      ItemAppends(before, v, i, level);
    }
    ghost var body := buf.data;
    Indent(buf, level);
    buf.WriteString("]");
    assert buf.data == body + (Spaces(level) + "]");
    assert old(buf.data) + "[\n" + RenderItems(v, 0, level) == old(buf.data) + ("[\n" + RenderItems(v, 0, level));
  }

  lemma ItemAppends(before: string, v: Value, i: nat, level: nat)
    requires v.List? && i < |v.l|
    ensures before + RenderItems(v, i, level) ==
      before + Spaces(level + 1) + Render(v.l[i], level + 1) + Separator(i, |v.l|) + RenderItems(v, i + 1, level)
  {
    hide Render, Spaces, Separator;
  }

  method EncodeStrings(buf: Buffer, ss: seq<Text>, level: nat)
    modifies buf
    ensures buf.data == old(buf.data) + RenderStrings(ss, level)
  {
    hide RenderText, Spaces;
    if ss == [] {
      buf.WriteString("[]");
      return;
    }
    buf.WriteString("[\n");
    ghost var open := buf.data;
    for i := 0 to |ss|
      invariant buf.data + RenderTexts(ss, i, level) == open + RenderTexts(ss, 0, level)
    {
      ghost var before := buf.data;
      Indent(buf, level + 1);
      EncodeString(buf, ss[i]);
      EndItem(buf, i, |ss|);
      TextAppends(before, ss, i, level);
    }
    ghost var body := buf.data;
    Indent(buf, level);
    buf.WriteString("]");
    assert buf.data == body + (Spaces(level) + "]");
    assert old(buf.data) + "[\n" + RenderTexts(ss, 0, level) == old(buf.data) + ("[\n" + RenderTexts(ss, 0, level));
  }

  lemma TextAppends(before: string, ss: seq<Text>, i: nat, level: nat)
    requires i < |ss|
    ensures before + RenderTexts(ss, i, level) ==
      before + Spaces(level + 1) + RenderText(ss[i]) + Separator(i, |ss|) + RenderTexts(ss, i + 1, level)
  {
    hide RenderText, Spaces, Separator;
  }

  /** A list of strings is printed like the list of its strings as values. */
  lemma {:induction false} StringsAsList(ss: seq<Text>, i: nat, v: Value, level: nat)
    requires v.List? && |v.l| == |ss| && i <= |ss| && forall k :: 0 <= k < |ss| ==> v.l[k] == Str(ss[k])
    ensures RenderTexts(ss, i, level) == RenderItems(v, i, level)
    decreases |ss| - i
  {
    hide RenderText, Spaces, Separator;
    if i < |ss| {
      StringsAsList(ss, i + 1, v, level);
    }
  }

  method EncodePythonCompat(v: Value) returns (out: string)
    ensures out == Render(v, 0)
  {
    var buf := new Buffer();
    EncodeValue(buf, v, 0);
    out := buf.data;
    assert "" + Render(v, 0) == Render(v, 0);
  }
}
