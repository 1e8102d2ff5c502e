/** A parser for the grammar of RFC 8259 that undoes the JSON printer. */
module JsonParser {
  import opened Words
  import opened Numerals
  import opened JsonOut

  /** A parsed document. A number with a fraction or an exponent keeps its text. */
  datatype Json =
    | JNull
    | JBool(b: bool)
    | JInt(n: int)
    | JDecimal(text: string)
    | JString(s: Text)
    | JArray(items: seq<Json>)
    | JObject(members: map<Text, Json>)

  datatype Reply<+T> = Fail | Got(value: T, rest: string)

  // ---- The grammar ----

  /** Section 2 of RFC 8259. */
  predicate IsBlank(c: char) {
    c == ' ' || c == '\t' || c == '\n' || c == '\r'
  }

  function SkipBlanks(s: string): (t: string)
    ensures |t| <= |s|
  {
    if s != "" && IsBlank(s[0]) then SkipBlanks(s[1..]) else s
  }

  /** Section 7 of RFC 8259: one character of a string, escaped or not. */
  function ReadRune(s: string): (r: Reply<Rune>)
    ensures r.Got? ==> |r.rest| < |s|
  {
    if s == "" || s[0] as int < 0x20 || s[0] == '\"' then Fail
    else if s[0] != '\\' then Got(s[0] as int, s[1..])
    else if |s| == 1 then Fail
    else if s[1] == 'u' then ReadUnicodeEscape(s)
    else
      match ShortEscape(s[1])
      case None => Fail
      case Some(r) => Got(r, s[2..])
  }

  function ShortEscape(c: char): Option<Rune> {
    if c == '\"' then Some(0x22)
    else if c == '\\' then Some(0x5C)
    else if c == '/' then Some(0x2F)
    else if c == 'b' then Some(0x08)
    else if c == 'f' then Some(0x0C)
    else if c == 'n' then Some(0x0A)
    else if c == 'r' then Some(0x0D)
    else if c == 't' then Some(0x09)
    else None
  }

  /** Four hexadecimal digits, or a pair of surrogates; a lone surrogate is refused. */
  function ReadUnicodeEscape(s: string): (r: Reply<Rune>)
    requires |s| >= 2
    ensures r.Got? ==> |r.rest| < |s|
  {
    match ReadHex4(s[2..])
    case None => Fail
    case Some(h) =>
      if 0xD800 <= h < 0xDC00 then
        if |s| < 8 || s[6] != '\\' || s[7] != 'u' then Fail
        else
          match ReadHex4(s[8..])
          case None => Fail
          case Some(l) =>
            if 0xDC00 <= l < 0xE000 then Got(0x1_0000 + (h - 0xD800) * 0x400 + (l - 0xDC00), s[12..]) else Fail
      else if 0xDC00 <= h < 0xE000 || h > 0xFFFF then Fail
      else Got(h, s[6..])
  }

  /** The characters of a string up to and over its closing quote. */
  function ReadRunes(s: string): (r: Reply<Text>)
    ensures r.Got? ==> |r.rest| < |s|
    decreases |s|
  {
    if s == "" then Fail
    else if s[0] == '\"' then Got([], s[1..])
    else
      match ReadRune(s)
      case Fail => Fail
      case Got(r, rest) =>
        match ReadRunes(rest)
        case Fail => Fail
        case Got(text, after) => Got([r] + text, after)
  }

  function DigitsAt(s: string): (k: nat)
    ensures k <= |s|
  {
    if s != "" && IsDecimal(s[0]) then 1 + DigitsAt(s[1..]) else 0
  }

  /** The length of a fraction; none is 0, a point without digits is `None`. */
  function FractionAt(s: string): (k: Option<nat>)
    ensures k.Some? ==> k.value <= |s|
  {
    if s == "" || s[0] != '.' then Some(0)
    else if DigitsAt(s[1..]) == 0 then None
    else Some(1 + DigitsAt(s[1..]))
  }

  function ExponentAt(s: string): (k: Option<nat>)
    ensures k.Some? ==> k.value <= |s|
  {
    if s == "" || (s[0] != 'e' && s[0] != 'E') then Some(0)
    else
      var sign := if |s| > 1 && (s[1] == '+' || s[1] == '-') then 2 else 1;
      if DigitsAt(s[sign..]) == 0 then None else Some(sign + DigitsAt(s[sign..]))
  }

  function Signed(negative: bool, n: nat): int {
    if negative then 0 - n else n
  }

  /** Section 6 of RFC 8259. */
  function ReadNumber(s: string): (r: Reply<Json>)
    ensures r.Got? ==> |r.rest| < |s|
  {
    var negative := s != "" && s[0] == '-';
    var t := if negative then s[1..] else s;
    var k := DigitsAt(t);
    if k == 0 || (t[0] == '0' && k > 1) then Fail
    else
      match FractionAt(t[k..])
      case None => Fail
      case Some(f) =>
        match ExponentAt(t[k + f..])
        case None => Fail
        case Some(e) =>
          if f + e == 0 then Got(JInt(Signed(negative, Number(t[..k]))), t[k..])
          else Got(JDecimal(s[..|s| - |t| + k + f + e]), t[k + f + e..])
  }

  /** A value that starts at the first character of `s`. */
  function ReadValue(s: string): (r: Reply<Json>)
    ensures r.Got? ==> |r.rest| < |s|
    decreases |s|, 1
  {
    if s == "" then Fail
    else if "null" <= s then Got(JNull, s[4..])
    else if "true" <= s then Got(JBool(true), s[4..])
    else if "false" <= s then Got(JBool(false), s[5..])
    else if s[0] == '\"' then
      match ReadRunes(s[1..])
      case Fail => Fail
      case Got(text, rest) => Got(JString(text), rest)
    else if s[0] == '[' then
      var t := SkipBlanks(s[1..]);
      if t != "" && t[0] == ']' then Got(JArray([]), t[1..])
      else
        match ReadItems(t)
        case Fail => Fail
        case Got(items, rest) => Got(JArray(items), rest)
    else if s[0] == '{' then
      var t := SkipBlanks(s[1..]);
      if t != "" && t[0] == '}' then Got(JObject(map[]), t[1..])
      else
        match ReadMembers(t)
        case Fail => Fail
        case Got(members, rest) => Got(JObject(members), rest)
    else ReadNumber(s)
  }

  /** One or more values with commas between them, up to and over the closing bracket. */
  function ReadItems(s: string): (r: Reply<seq<Json>>)
    ensures r.Got? ==> |r.rest| < |s|
    decreases |s|, 2
  {
    match ReadValue(s)
    case Fail => Fail
    case Got(v, rest) =>
      var t := SkipBlanks(rest);
      if t == "" then Fail
      else if t[0] == ']' then Got([v], t[1..])
      else if t[0] == ',' then
        match ReadItems(SkipBlanks(t[1..]))
        case Fail => Fail
        case Got(vs, after) => Got([v] + vs, after)
      else Fail
  }

  /** One or more members, up to and over the closing brace; the last of equal names wins. */
  function ReadMembers(s: string): (r: Reply<map<Text, Json>>)
    ensures r.Got? ==> |r.rest| < |s|
    decreases |s|, 2
  {
    if s == "" || s[0] != '\"' then Fail
    else
      match ReadRunes(s[1..])
      case Fail => Fail
      case Got(k, rest) =>
        var colon := SkipBlanks(rest);
        if colon == "" || colon[0] != ':' then Fail
        else
          match ReadValue(SkipBlanks(colon[1..]))
          case Fail => Fail
          case Got(v, rest') =>
            var t := SkipBlanks(rest');
            if t == "" then Fail
            else if t[0] == '}' then Got(map[k := v], t[1..])
            else if t[0] == ',' then
              match ReadMembers(SkipBlanks(t[1..]))
              case Fail => Fail
              case Got(ms, after) => Got(map[k := v] + ms, after)
            else Fail
  }

  /** A whole document: one value with blanks around it. */
  function Parse(s: string): Option<Json> {
    match ReadValue(SkipBlanks(s))
    case Fail => None
    case Got(v, rest) => if SkipBlanks(rest) == "" then Some(v) else None
  }

  // ---- Strings ----

  lemma RuneReads(r: Rune, rest: string)
    ensures ReadRune(RenderRune(r) + rest) == Got(r, rest) && RenderRune(r)[0] != '\"'
  {
    hide ReadHex4, Hex4;
    var s := RenderRune(r) + rest;
    if r == 0x5C || r == 0x22 || r == 0x08 || r == 0x0C || r == 0x0A || r == 0x0D || r == 0x09 {
      assert s[2..] == rest;
    } else if 0x20 <= r < 0x7F {
      assert s[1..] == rest;
    } else if r <= 0xFFFF {
      Hex4Reads(r, rest);
      assert s[2..] == Hex4(r) + rest;
      assert s[6..] == rest;
    } else {
      SurrogatesRead(r, rest);
    }
  }

  lemma SurrogatesRead(r: Rune, rest: string)
    requires r > 0xFFFF
    ensures ReadRune(RenderRune(r) + rest) == Got(r, rest)
  {
    hide ReadHex4, Hex4, ReadUnicodeEscape;
    var s := "\\u" + (Hex4(HighSurrogate(r)) + ("\\u" + (Hex4(LowSurrogate(r)) + rest)));
    assert RenderRune(r) + rest == s;
    assert s[0] == '\\' && s[1] == 'u';
    PairReads(r, rest);
  }

  lemma PairReads(r: Rune, rest: string)
    requires r > 0xFFFF
    ensures ReadUnicodeEscape("\\u" + (Hex4(HighSurrogate(r)) + ("\\u" + (Hex4(LowSurrogate(r)) + rest)))) == Got(r, rest)
  {
    hide ReadHex4, Hex4;
    var h, l := HighSurrogate(r), LowSurrogate(r);
    var low := "\\u" + (Hex4(l) + rest);
    var s := "\\u" + (Hex4(h) + low);
    Hex4Reads(h, low);
    Hex4Reads(l, rest);
    assert s[2..] == Hex4(h) + low;
    assert s[6..] == low;
    assert s[6] == low[0] && s[7] == low[1];
    assert s[8..] == low[2..] == Hex4(l) + rest;
    assert s[12..] == rest;
    assert (r - 0x1_0000) / 0x400 * 0x400 + (r - 0x1_0000) % 0x400 == r - 0x1_0000;
  }

  lemma {:induction false} TextReads(s: Text, rest: string)
    ensures ReadRunes(RenderRunes(s) + "\"" + rest) == Got(s, rest)
  {
    hide ReadRune, RenderRune;
    var t := RenderRunes(s) + "\"" + rest;
    if s == [] {
      assert t[1..] == rest;
    } else {
      var after := RenderRunes(s[1..]) + "\"" + rest;
      assert t == RenderRune(s[0]) + after;
      RuneReads(s[0], after);
      TextReads(s[1..], rest);
      assert s == [s[0]] + s[1..];
    }
  }

  // ---- Numbers ----

  /** What may follow a value that the printer wrote: the end, a comma, or a new line. */
  predicate EndsValue(tail: string) {
    tail == "" || tail[0] == ',' || tail[0] == '\n'
  }

  lemma {:induction false} DigitsEnd(d: string, tail: string)
    requires AllDecimal(d) && EndsValue(tail)
    ensures DigitsAt(d + tail) == |d|
  {
    if d == "" {
      assert d + tail == tail;
    } else {
      assert (d + tail)[1..] == d[1..] + tail;
      DigitsEnd(d[1..], tail);
    }
  }

  lemma NumberReads(n: int, tail: string)
    requires EndsValue(tail)
    ensures ReadNumber(RenderInt(n) + tail) == Got(JInt(n), tail)
    ensures RenderInt(n)[0] == '-' || '0' <= RenderInt(n)[0] <= '9'
  {
    hide Number, Decimal, DigitValue, ReadNumber;
    var d := Decimal(if n < 0 then -n else n);
    DecimalReads(if n < 0 then -n else n);
    WholeNumberReads(n < 0, d, tail);
    assert n < 0 ==> "-" + (d + tail) == RenderInt(n) + tail;
  }

  lemma WholeNumberReads(negative: bool, d: string, tail: string)
    requires d != "" && AllDecimal(d) && (d[0] == '0' ==> |d| == 1) && d[0] != '-'
    requires EndsValue(tail)
    ensures ReadNumber((if negative then "-" + (d + tail) else d + tail)) == Got(JInt(Signed(negative, Number(d))), tail)
  {
    hide DigitsAt, Number, DigitValue, AllDecimal, Signed;
    DigitsEnd(d, tail);
    var t := d + tail;
    var s := if negative then "-" + t else t;
    assert negative ==> s[1..] == t;
    assert t[0] == d[0];
    assert t[..|d|] == d && t[|d|..] == tail;
    assert FractionAt(tail) == Some(0) && ExponentAt(tail) == Some(0);
  }

  lemma IntReads(n: int, tail: string)
    requires EndsValue(tail)
    ensures ReadValue(RenderInt(n) + tail) == Got(JInt(n), tail)
    ensures !IsBlank(RenderInt(n)[0]) && RenderInt(n)[0] != ']'
  {
    hide ReadNumber, RenderInt;
    NumberReads(n, tail);
    assert (RenderInt(n) + tail)[0] == RenderInt(n)[0];
    assert "null"[0] == 'n' && "true"[0] == 't' && "false"[0] == 'f';
  }

  // ---- Values ----

  /** What the printed value denotes: a typed nil is null, a list of strings is an array. */
  function ToJson(v: Value): Json {
    match v
    case Nil => JNull
    case Bool(b) => JBool(b)
    case Int(n) => JInt(n)
    case Str(s) => JString(s)
    case Map(m) => JObject(map k | k in m :: ToJson(m[k]))
    case NilMap => JNull
    case List(l) => JArray(seq(|l|, i requires 0 <= i < |l| => ToJson(l[i])))
    case NilList => JNull
    case Strings(ss) => JArray(seq(|ss|, i requires 0 <= i < |ss| => JString(ss[i])))
  }

  lemma {:induction false} SkipSpaces(level: nat, s: string)
    ensures SkipBlanks(Spaces(level) + s) == SkipBlanks(s)
  {
    if level == 0 {
      assert Spaces(level) + s == s;
    } else {
      var t := Spaces(level) + s;
      assert t[1..] == [' '] + (Spaces(level - 1) + s);
      assert t[1..][1..] == Spaces(level - 1) + s;
      SkipSpaces(level - 1, s);
    }
  }

  lemma SkipNone(s: string)
    requires s == "" || !IsBlank(s[0])
    ensures SkipBlanks(s) == s
  {
  }

  lemma SkipNewline(s: string)
    ensures SkipBlanks("\n" + s) == SkipBlanks(s)
  {
    assert ("\n" + s)[1..] == s;
  }

  lemma FirstCharacter(v: Value, level: nat)
    ensures Render(v, level) != "" && !IsBlank(Render(v, level)[0]) && Render(v, level)[0] != ']'
  {
    hide RenderMembers, RenderItems, RenderTexts, RenderRunes;
    if v.Int? {
      IntReads(v.n, "");
    }
  }

  lemma TextValueReads(s: Text, tail: string)
    ensures ReadValue(RenderText(s) + tail) == Got(JString(s), tail)
  {
    hide ReadRunes, RenderRunes;
    var t := RenderText(s) + tail;
    assert t[1..] == RenderRunes(s) + "\"" + tail;
    TextReads(s, tail);
    assert t[0] == '\"';
  }

  /** The parser undoes the printer at every nesting level, before the end of the text, a comma or a line feed. */
  lemma {:induction false} ValueReads(v: Value, level: nat, tail: string)
    requires EndsValue(tail)
    ensures ReadValue(Render(v, level) + tail) == Got(ToJson(v), tail)
    decreases v, 2
  {
    hide RenderText, RenderInt, RenderMap, RenderList, RenderStrings, ReadItems, ReadMembers, ReadNumber, ReadRunes;
    match v
    case Nil => WordReads("null", JNull, tail);
    case Bool(b) => WordReads(if b then "true" else "false", JBool(b), tail);
    case Int(n) => IntReads(n, tail);
    case Str(s) => TextValueReads(s, tail);
    case Map(_) => MapReads(v, level, tail);
    case NilMap => WordReads("null", JNull, tail);
    case List(_) => ListReads(v, level, tail);
    case NilList => WordReads("null", JNull, tail);
    case Strings(ss) => StringsRead(ss, level, tail);
  }

  lemma WordReads(word: string, j: Json, tail: string)
    requires (word == "null" && j == JNull) || (word == "true" && j == JBool(true)) || (word == "false" && j == JBool(false))
    ensures ReadValue(word + tail) == Got(j, tail)
  {
    var s := word + tail;
    assert word <= s && s[|word|..] == tail;
    assert s[0] == word[0];
    assert "null"[0] == 'n' && "true"[0] == 't' && "false"[0] == 'f';
  }

  lemma {:induction false} MapReads(v: Value, level: nat, tail: string)
    requires v.Map?
    requires EndsValue(tail)
    ensures ReadValue(RenderMap(v, level) + tail) == Got(ToJson(v), tail)
    decreases v, 1
  {
    hide RenderMembers, ReadValue, ReadMembers, ToJson, Selected, SkipBlanks, SortedKeys;
    AllSelected(v);
    if v.m == map[] {
      EmptyMapReads(tail);
    } else {
      var ks := SortedKeys(v.m.Keys);
      var k :| k in v.m.Keys;
      assert k in ks;
      var body := RenderMembers(ks, 0, v, level) + tail;
      MembersRead(ks, 0, v, level, tail);
      BraceReads(body, Selected(ks, 0, v), tail);
      assert RenderMap(v, level) + tail == "{\n" + body;
    }
  }

  lemma AllSelected(v: Value)
    requires v.Map?
    ensures ToJson(v) == JObject(Selected(SortedKeys(v.m.Keys), 0, v))
    ensures v.m == map[] ==> ToJson(v) == JObject(map[])
  {
    hide SortedKeys;
    var ks := SortedKeys(v.m.Keys);
    assert ks[0..] == ks;
    assert Selected(ks, 0, v) == map k | k in v.m :: ToJson(v.m[k]);
  }

  lemma EmptyMapReads(tail: string)
    ensures ReadValue("{}" + tail) == Got(JObject(map[]), tail)
  {
    hide SkipBlanks, ReadNumber;
    var s := "{}" + tail;
    assert s[0] == '{';
    assert "null"[0] == 'n' && "true"[0] == 't' && "false"[0] == 'f';
    assert s[1..] == "}" + tail;
    SkipNone(s[1..]);
    assert s[1..][1..] == tail;
  }

  lemma BraceReads(body: string, members: map<Text, Json>, tail: string)
    requires ReadMembers(SkipBlanks(body)) == Got(members, tail)
    requires SkipBlanks(body) != "" && SkipBlanks(body)[0] != '}'
    ensures ReadValue("{\n" + body) == Got(JObject(members), tail)
  {
    hide SkipBlanks, ReadNumber, ReadMembers;
    var s := "{\n" + body;
    assert s[0] == '{';
    assert "null"[0] == 'n' && "true"[0] == 't' && "false"[0] == 'f';
    assert s[1..] == "\n" + body;
    SkipNewline(body);
  }

  /** The members from `i` on. */
  function Selected(ks: seq<Text>, i: nat, v: Value): map<Text, Json>
    requires v.Map? && i <= |ks| && forall k :: k in ks ==> k in v.m
  {
    map k | k in ks[i..] :: ToJson(v.m[k])
  }

  lemma {:induction false} MembersRead(ks: seq<Text>, i: nat, v: Value, level: nat, tail: string)
    requires v.Map? && i < |ks| && forall k :: k in ks ==> k in v.m
    requires EndsValue(tail)
    ensures ReadMembers(SkipBlanks(RenderMembers(ks, i, v, level) + tail)) == Got(Selected(ks, i, v), tail)
    ensures SkipBlanks(RenderMembers(ks, i, v, level) + tail) != ""
    ensures SkipBlanks(RenderMembers(ks, i, v, level) + tail)[0] != '}'
    decreases v, 0, |ks| - i
  {
    hide Render, ReadMembers, SkipBlanks, ReadValue, Spaces, RenderText, RenderMembers, Selected, ToJson;
    assert ks[i] in ks;
    var x := v.m[ks[i]];
    var next := RenderMembers(ks, i + 1, v, level) + tail;
    var after := Separator(i, |ks|) + next;
    ValueReads(x, level + 1, after);
    MemberShape(ks, i, v, level, tail);
    FirstCharacter(x, level + 1);
    var s := RenderText(ks[i]) + ": " + Render(x, level + 1) + after;
    assert s == RenderText(ks[i]) + ": " + (Render(x, level + 1) + after);
    OneMember(s, ks[i], ToJson(x), Render(x, level + 1), after);
    OneSelected(ks, i, v);
    if i + 1 == |ks| {
      ClosingBrace(ks, v, level);
      LastSeparator(level, "}", tail, next, after);
    } else {
      MembersRead(ks, i + 1, v, level, tail);
      MoreSeparator(next, after);
    }
  }

  lemma OneSelected(ks: seq<Text>, i: nat, v: Value)
    requires v.Map? && i < |ks| && forall k :: k in ks ==> k in v.m
    ensures ks[i] in v.m && (i + 1 == |ks| ==> Selected(ks, i, v) == map[ks[i] := ToJson(v.m[ks[i]])])
    ensures ks[i] in v.m && Selected(ks, i, v) == map[ks[i] := ToJson(v.m[ks[i]])] + Selected(ks, i + 1, v)
  {
    assert ks[i..] == [ks[i]] + ks[i+1..];
    assert ks[i] in ks;
  }

  lemma ClosingBrace(ks: seq<Text>, v: Value, level: nat)
    requires v.Map? && forall k :: k in ks ==> k in v.m
    ensures RenderMembers(ks, |ks|, v, level) == Spaces(level) + "}"
  {
  }

  lemma MemberShape(ks: seq<Text>, i: nat, v: Value, level: nat, tail: string)
    requires v.Map? && i < |ks| && forall k :: k in ks ==> k in v.m
    ensures SkipBlanks(RenderMembers(ks, i, v, level) + tail) ==
      RenderText(ks[i]) + ": " + Render(v.m[ks[i]], level + 1) + (Separator(i, |ks|) + (RenderMembers(ks, i + 1, v, level) + tail))
  {
    hide Render, Spaces, Separator, RenderRunes;
    var x := Render(v.m[ks[i]], level + 1);
    var s := RenderText(ks[i]) + ": " + x + (Separator(i, |ks|) + (RenderMembers(ks, i + 1, v, level) + tail));
    assert RenderMembers(ks, i, v, level) + tail == Spaces(level + 1) + s;
    SkipSpaces(level + 1, s);
    SkipNone(s);
  }

  /** Reading one member leaves the separator behind its value. */
  lemma OneMember(s: string, k: Text, j: Json, x: string, after: string)
    requires s == RenderText(k) + ": " + (x + after)
    requires x != "" && !IsBlank(x[0])
    requires ReadValue(x + after) == Got(j, after)
    ensures ReadMembers(s) == (
      var t := SkipBlanks(after);
      if t == "" then Fail
      else if t[0] == '}' then Got(map[k := j], t[1..])
      else if t[0] == ',' then
        match ReadMembers(SkipBlanks(t[1..]))
        case Fail => Fail
        case Got(ms, rest) => Got(map[k := j] + ms, rest)
      else Fail)
    ensures s[0] == '\"' && SkipBlanks(s) == s
  {
    hide ReadValue, ReadRunes, RenderRunes, SkipBlanks;
    var colon := ": " + (x + after);
    MemberStart(s, k, x + after);
    ColonSkips(x + after);
  }

  lemma MemberStart(s: string, k: Text, value: string)
    requires s == RenderText(k) + ": " + value
    ensures s[0] == '\"' && SkipBlanks(s) == s && ReadRunes(s[1..]) == Got(k, ": " + value)
  {
    hide ReadRunes, RenderRunes;
    assert s[0] == '\"';
    assert s[1..] == RenderRunes(k) + "\"" + (": " + value);
    TextReads(k, ": " + value);
  }

  lemma ColonSkips(value: string)
    requires value != "" && !IsBlank(value[0])
    ensures SkipBlanks(": " + value) == ": " + value && SkipBlanks((": " + value)[1..]) == value
  {
    assert (": " + value)[1..] == " " + value;
    SkipOneSpace(value);
  }

  lemma SkipOneSpace(s: string)
    ensures SkipBlanks(" " + s) == SkipBlanks(s)
  {
    assert (" " + s)[1..] == s;
  }

  lemma LastSeparator(level: nat, close: string, tail: string, next: string, after: string)
    requires close == "}" || close == "]"
    requires next == Spaces(level) + close + tail && after == "\n" + next
    ensures SkipBlanks(after) == close + tail && (close + tail)[1..] == tail
  {
    SkipNewline(next);
    assert next == Spaces(level) + (close + tail);
    SkipSpaces(level, close + tail);
    SkipNone(close + tail);
  }

  lemma MoreSeparator(next: string, after: string)
    requires after == ",\n" + next
    ensures SkipBlanks(after) == after && after[0] == ',' && SkipBlanks(after[1..]) == SkipBlanks(next)
  {
    SkipNone(after);
    assert after[1..] == "\n" + next;
    SkipNewline(next);
  }

  lemma {:induction false} ListReads(v: Value, level: nat, tail: string)
    requires v.List?
    requires EndsValue(tail)
    ensures ReadValue(RenderList(v, level) + tail) == Got(ToJson(v), tail)
    decreases v, 1
  {
    hide RenderItems, ReadValue, ReadItems;
    if v.l == [] {
      EmptyListReads(tail);
    } else {
      var body := RenderItems(v, 0, level) + tail;
      ItemsRead(v, 0, level, tail);
      assert Got(ToJson(v).items[0..], tail) == Got(ToJson(v).items, tail);
      BracketReads(body, ToJson(v).items, tail);
      assert RenderList(v, level) + tail == "[\n" + body;
    }
  }

  lemma EmptyListReads(tail: string)
    ensures ReadValue("[]" + tail) == Got(JArray([]), tail)
  {
    hide SkipBlanks, ReadNumber;
    var s := "[]" + tail;
    assert s[0] == '[';
    assert "null"[0] == 'n' && "true"[0] == 't' && "false"[0] == 'f';
    assert s[1..] == "]" + tail;
    SkipNone(s[1..]);
    assert s[1..][1..] == tail;
  }

  lemma BracketReads(body: string, items: seq<Json>, tail: string)
    requires ReadItems(SkipBlanks(body)) == Got(items, tail)
    requires SkipBlanks(body) != "" && SkipBlanks(body)[0] != ']'
    ensures ReadValue("[\n" + body) == Got(JArray(items), tail)
  {
    hide SkipBlanks, ReadNumber, ReadItems;
    var s := "[\n" + body;
    assert s[0] == '[';
    assert "null"[0] == 'n' && "true"[0] == 't' && "false"[0] == 'f';
    assert s[1..] == "\n" + body;
    SkipNewline(body);
  }

  lemma {:induction false} ItemsRead(v: Value, i: nat, level: nat, tail: string)
    requires v.List? && i < |v.l|
    requires EndsValue(tail)
    ensures ReadItems(SkipBlanks(RenderItems(v, i, level) + tail)) == Got(ToJson(v).items[i..], tail)
    ensures SkipBlanks(RenderItems(v, i, level) + tail) != ""
    ensures SkipBlanks(RenderItems(v, i, level) + tail)[0] != ']'
    decreases v, 0, |v.l| - i
  {
    hide Render, ReadItems, SkipBlanks, ReadValue, Spaces;
    var next := RenderItems(v, i + 1, level) + tail;
    var after := Separator(i, |v.l|) + next;
    var x := Render(v.l[i], level + 1);
    ValueReads(v.l[i], level + 1, after);
    FirstCharacter(v.l[i], level + 1);
    assert RenderItems(v, i, level) + tail == Spaces(level + 1) + (x + after);
    SkipSpaces(level + 1, x + after);
    SkipNone(x + after);
    OneItem(x, ToJson(v.l[i]), after);
    var items := ToJson(v).items;
    assert items[i..] == [ToJson(v.l[i])] + items[i+1..];
    if i + 1 == |v.l| {
      LastSeparator(level, "]", tail, next, after);
      assert items[i+1..] == [];
      assert [items[i]] + [] == [items[i]];
    } else {
      ItemsRead(v, i + 1, level, tail);
      MoreSeparator(next, after);
    }
  }

  /** Reading one item leaves the separator behind it. */
  lemma OneItem(x: string, j: Json, after: string)
    requires ReadValue(x + after) == Got(j, after)
    ensures ReadItems(x + after) == (
      var t := SkipBlanks(after);
      if t == "" then Fail
      else if t[0] == ']' then Got([j], t[1..])
      else if t[0] == ',' then
        match ReadItems(SkipBlanks(t[1..]))
        case Fail => Fail
        case Got(js, rest) => Got([j] + js, rest)
      else Fail)
  {
    hide ReadValue, SkipBlanks;
  }

  lemma StringsRead(ss: seq<Text>, level: nat, tail: string)
    ensures ReadValue(RenderStrings(ss, level) + tail) == Got(ToJson(Strings(ss)), tail)
  {
    hide RenderTexts, ReadValue, ReadItems;
    if ss == [] {
      EmptyListReads(tail);
    } else {
      var body := RenderTexts(ss, 0, level) + tail;
      TextsRead(ss, 0, level, tail);
      var items := ToJson(Strings(ss)).items;
      assert items[0..] == items;
      BracketReads(body, items, tail);
      assert RenderStrings(ss, level) + tail == "[\n" + body;
    }
  }

  lemma {:induction false} TextsRead(ss: seq<Text>, i: nat, level: nat, tail: string)
    requires i < |ss|
    ensures ReadItems(SkipBlanks(RenderTexts(ss, i, level) + tail)) == Got(ToJson(Strings(ss)).items[i..], tail)
    ensures SkipBlanks(RenderTexts(ss, i, level) + tail) != ""
    ensures SkipBlanks(RenderTexts(ss, i, level) + tail)[0] != ']'
    decreases |ss| - i
  {
    hide ReadItems, SkipBlanks, ReadValue, Spaces, RenderRunes;
    var next := RenderTexts(ss, i + 1, level) + tail;
    var after := Separator(i, |ss|) + next;
    var x := RenderText(ss[i]);
    TextValueReads(ss[i], after);
    assert RenderTexts(ss, i, level) + tail == Spaces(level + 1) + (x + after);
    SkipSpaces(level + 1, x + after);
    SkipNone(x + after);
    OneItem(x, JString(ss[i]), after);
    var items := ToJson(Strings(ss)).items;
    assert items[i..] == [JString(ss[i])] + items[i+1..];
    if i + 1 == |ss| {
      LastSeparator(level, "]", tail, next, after);
      assert items[i+1..] == [];
      assert [items[i]] + [] == [items[i]];
    } else {
      TextsRead(ss, i + 1, level, tail);
      MoreSeparator(next, after);
    }
  }

  // ---- The round trip ----

  /** Parsing a printed document gives the value back: nothing is lost and nothing is confused. */
  lemma RoundTrip(v: Value)
    ensures Parse(Render(v, 0)) == Some(ToJson(v))
  {
    hide ReadValue, Render, ToJson, SkipBlanks;
    FirstCharacter(v, 0);
    SkipNone(Render(v, 0));
    ValueReads(v, 0, "");
    assert Render(v, 0) + "" == Render(v, 0);
    SkipNone("");
  }

  // ---- Plain ASCII ----

  predicate IsPlain(s: string) {
    forall i :: 0 <= i < |s| ==> s[i] == '\n' || 0x20 <= s[i] as int < 0x7F
  }

  lemma RuneIsPlain(r: Rune)
    ensures IsPlain(RenderRune(r))
  {
    hide Hex4;
    if 0x20 <= r <= 0xFFFF || r < 0x20 {
      Hex4Reads(r, "");
    } else {
      Hex4Reads(HighSurrogate(r), "");
      Hex4Reads(LowSurrogate(r), "");
    }
  }

  lemma {:induction false} TextIsPlain(s: Text)
    ensures IsPlain(RenderRunes(s)) && IsPlain(RenderText(s))
  {
    hide RenderRune;
    if s != [] {
      RuneIsPlain(s[0]);
      TextIsPlain(s[1..]);
    }
  }

  lemma {:induction false} SpacesArePlain(level: nat)
    ensures IsPlain(Spaces(level))
  {
    if level > 0 {
      SpacesArePlain(level - 1);
    }
  }

  /** Whatever the strings hold, the output is printable ASCII and line feeds only. */
  lemma {:induction false} OutputIsAscii(v: Value, level: nat)
    ensures IsPlain(Render(v, level))
    decreases v, 2
  {
    hide RenderText, RenderMembers, RenderItems, RenderTexts, Decimal;
    match v
    case Int(n) => DecimalReads(if n < 0 then -n else n);
    case Str(s) => TextIsPlain(s);
    case Map(m) =>
      if m != map[] { MembersArePlain(SortedKeys(m.Keys), 0, v, level); }
    case List(l) => ItemsArePlain(v, 0, level);
    case Strings(ss) => TextsArePlain(ss, 0, level);
    case _ =>
  }

  lemma MemberIsPlain(spaces: string, key: string, value: string, separator: string, rest: string)
    requires IsPlain(spaces) && IsPlain(key) && IsPlain(value) && IsPlain(separator) && IsPlain(rest)
    ensures IsPlain(spaces + key + ": " + value + separator + rest)
  {
  }

  lemma MemberText(ks: seq<Text>, i: nat, v: Value, level: nat)
    requires v.Map? && i < |ks| && forall k :: k in ks ==> k in v.m
    ensures RenderMembers(ks, i, v, level) == Spaces(level + 1) + RenderText(ks[i]) + ": "
      + Render(v.m[ks[i]], level + 1) + Separator(i, |ks|) + RenderMembers(ks, i + 1, v, level)
  {
    hide Spaces, RenderText, Render, Separator;
  }

  lemma {:induction false} MembersArePlain(ks: seq<Text>, i: nat, v: Value, level: nat)
    requires v.Map? && i <= |ks| && forall k :: k in ks ==> k in v.m
    ensures IsPlain(RenderMembers(ks, i, v, level))
    decreases v, 0, |ks| - i
  {
    hide RenderText, Render, Spaces;
    SpacesArePlain(level);
    if i < |ks| {
      SpacesArePlain(level + 1);
      TextIsPlain(ks[i]);
      assert ks[i] in ks;
      OutputIsAscii(v.m[ks[i]], level + 1);
      MembersArePlain(ks, i + 1, v, level);
      hide RenderMembers;
      MemberIsPlain(Spaces(level + 1), RenderText(ks[i]), Render(v.m[ks[i]], level + 1), Separator(i, |ks|),
        RenderMembers(ks, i + 1, v, level));
      MemberText(ks, i, v, level);
    }
  }

  lemma {:induction false} ItemsArePlain(v: Value, i: nat, level: nat)
    requires v.List? && i <= |v.l|
    ensures IsPlain(RenderItems(v, i, level))
    decreases v, 0, |v.l| - i
  {
    hide Render, Spaces;
    SpacesArePlain(level);
    if i < |v.l| {
      SpacesArePlain(level + 1);
      OutputIsAscii(v.l[i], level + 1);
      ItemsArePlain(v, i + 1, level);
    }
  }

  lemma {:induction false} TextsArePlain(ss: seq<Text>, i: nat, level: nat)
    requires i <= |ss|
    ensures IsPlain(RenderTexts(ss, i, level))
    decreases |ss| - i
  {
    hide RenderText, Spaces;
    SpacesArePlain(level);
    if i < |ss| {
      SpacesArePlain(level + 1);
      TextIsPlain(ss[i]);
      TextsArePlain(ss, i + 1, level);
    }
  }
}
