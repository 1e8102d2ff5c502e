/** Compiler metadata in CBOR. */
module Metadata {
  // The decoder of what the compiler appends to bytecode, and how it is found
  // and stripped.

  import opened Words
  import opened HexText

  /** Text is kept as the bytes of its UTF-8 form. */
  datatype Cbor =
    | Bytes(b: seq<Byte>)
    | Text(t: seq<Byte>)
    | Bool(v: bool)
    | Null
    | UInt(n: nat)

  // ---- The decoder ----

  /** A reading that ends the loop, one that ends the decoding with an exception, or one that goes on. */
  datatype Reading<+T> = Broken | Failed | Read(value: T, pos: nat)

  function MajorType(x: Byte): nat {
    x / 32
  }

  function Additional(x: Byte): nat {
    x % 32
  }

  /** The `n` bytes at `pos`. */
  function Slice(d: seq<Byte>, pos: nat, n: nat): Reading<seq<Byte>> {
    if pos + n > |d| then Broken else Read(d[pos..pos + n], pos + n)
  }

  function KeyAt(d: seq<Byte>, pos: nat): Reading<seq<Byte>>
    requires pos < |d|
  {
    var len := Additional(d[pos]);
    if MajorType(d[pos]) == 2 then Slice(d, pos + 1, len)
    else if MajorType(d[pos]) != 3 then Broken
    else if len <= 23 then Slice(d, pos + 1, len)
    else if len != 24 then Broken
    else if pos + 1 >= |d| then Failed
    else Slice(d, pos + 2, d[pos + 1])
  }

  /** The value at `pos`; an item that sets no value is `None`. */
  function ValueAt(d: seq<Byte>, pos: nat): Reading<Option<Cbor>>
    requires pos < |d|
  {
    var major, info := MajorType(d[pos]), Additional(d[pos]);
    if major == 2 then
      match LengthAt(d, pos, 25)
      case Broken => Broken
      case Failed => Failed
      case Read(n, start) =>
        match Slice(d, start, n)
        case Read(b, next) => Read(Some(Bytes(b)), next)
        case _ => Broken
    else if major == 3 then
      match LengthAt(d, pos, 24)
      case Broken => Broken
      case Failed => Failed
      case Read(n, start) =>
        match Slice(d, start, n)
        case Read(b, next) => Read(Some(Text(b)), next)
        case _ => Broken
    else if major == 7 then
      Read(if info == 20 then Some(Bool(false)) else if info == 21 then Some(Bool(true))
           else if info == 22 then Some(Null) else None, pos + 1)
    else if major == 0 then
      match LengthAt(d, pos, 25)
      case Broken => Read(None, pos + 1)
      case Failed => Failed
      case Read(n, next) => Read(Some(UInt(n)), next)
    else Read(None, pos + 1)
  }

  /** The argument of the head at `pos`: in the head, or in the one or two bytes behind it, as far as `most` allows. */
  function LengthAt(d: seq<Byte>, pos: nat, most: nat): Reading<nat>
    requires pos < |d|
  {
    var info := Additional(d[pos]);
    if info <= 23 then Read(info, pos + 1)
    else if info > most || info > 25 then Broken
    else if info == 24 then
      if pos + 1 >= |d| then Failed else Read(d[pos + 1], pos + 2)
    else if pos + 3 > |d| then Failed
    else Read(FromBigEndian(d[pos + 1..pos + 3]), pos + 3)
  }

  type Decoded = map<seq<Byte>, Cbor>

  /** Up to `n` pairs from `pos` on, added to `result`; `None` is the exception path. */
  function PairsFrom(d: seq<Byte>, pos: nat, n: nat, result: Decoded): Option<Decoded>
    decreases n
  {
    if n == 0 || pos >= |d| then Some(result)
    else
      match KeyAt(d, pos)
      case Broken => Some(result)
      case Failed => None
      case Read(key, p) =>
        if p >= |d| then Some(result)
        else
          match ValueAt(d, p)
          case Broken => Some(result)
          case Failed => None
          case Read(v, next) => PairsFrom(d, next, n - 1, if v.Some? then result[key := v.value] else result)
  }

  function DecodeCbor(d: seq<Byte>): Option<Decoded> {
    if |d| < 2 || MajorType(d[0]) != 5 then None
    else
      match PairsFrom(d, 1, Additional(d[0]), map[])
      case None => None
      case Some(result) => if result == map[] then None else Some(result)
  }

  method DecodeCborSimple(d: seq<Byte>) returns (r: Option<Decoded>)
    ensures r == DecodeCbor(d)
  {
    hide KeyAt, ValueAt;
    if |d| < 2 || MajorType(d[0]) != 5 {
      return None;
    }
    var result: Decoded := map[];
    var pos := 1;
    var numPairs := Additional(d[0]);
    for i := 0 to numPairs
      invariant PairsFrom(d, pos, numPairs - i, result) == PairsFrom(d, 1, numPairs, map[])
    {
      if pos >= |d| {
        break;
      }
      var key: seq<Byte>;
      match KeyAt(d, pos) {
        case Broken => break;
        case Failed => return None;
        case Read(k, p) => key, pos := k, p;
      }
      if pos >= |d| {
        break;
      }
      match ValueAt(d, pos) {
        case Broken => break;
        case Failed => return None;
        case Read(v, p) =>
          pos := p;
          if v.Some? {
            result := result[key := v.value];
          }
      }
    }
    r := if result == map[] then None else Some(result);
  }

  // ---- The encoder: section 3 of RFC 8949, lengths in shortest form ----

  datatype Entry = Entry(key: seq<Byte>, value: Cbor)

  /** Arguments that a head can hold: those of eight bytes. */
  const ARGUMENTS: nat := 0x1_0000_0000_0000_0000

  /** The head of an item with major type `major` and argument `n`. */
  function Head(major: nat, n: nat): (h: seq<Byte>)
    requires major < 8 && n < ARGUMENTS
    ensures h != []
  {
    if n <= 23 then [major * 32 + n]
    else if n <= 0xFF then [major * 32 + 24, n]
    else if n <= 0xFFFF then [major * 32 + 25, n / 256, n % 256]
    else if n <= 0xFFFF_FFFF then [major * 32 + 26] + ToBigEndian(n, 4)
    else [major * 32 + 27] + ToBigEndian(n, 8)
  }

  /** What the decoder supports. */
  predicate Supported(v: Cbor) {
    match v
    case Bytes(b) => |b| <= 0xFFFF
    case Text(t) => |t| <= 0xFF
    case UInt(n) => n <= 0xFFFF
    case _ => true
  }

  predicate Encodable(v: Cbor) {
    match v
    case Bytes(b) => |b| < ARGUMENTS
    case Text(t) => |t| < ARGUMENTS
    case UInt(n) => n < ARGUMENTS
    case _ => true
  }

  function EncodeValue(v: Cbor): seq<Byte>
    requires Encodable(v)
  {
    match v
    case Bytes(b) => Head(2, |b|) + b
    case Text(t) => Head(3, |t|) + t
    case Bool(b) => [if b then 0xF5 else 0xF4]
    case Null => [0xF6]
    case UInt(n) => Head(0, n)
  }

  predicate SupportedEntry(e: Entry) {
    |e.key| <= 0xFF && Supported(e.value)
  }

  predicate AllSupported(es: seq<Entry>) {
    forall i :: 0 <= i < |es| ==> SupportedEntry(es[i])
  }

  predicate EncodableEntry(e: Entry) {
    |e.key| < ARGUMENTS && Encodable(e.value)
  }

  predicate AllEncodable(es: seq<Entry>) {
    forall i :: 0 <= i < |es| ==> EncodableEntry(es[i])
  }

  predicate DistinctKeys(es: seq<Entry>) {
    forall i, j :: 0 <= i < j < |es| ==> es[i].key != es[j].key
  }

  function EncodePair(e: Entry): seq<Byte>
    requires EncodableEntry(e)
  {
    Head(3, |e.key|) + e.key + EncodeValue(e.value)
  }

  function EncodePairs(es: seq<Entry>): seq<Byte>
    requires AllEncodable(es)
  {
    if es == [] then [] else EncodePair(es[0]) + EncodePairs(es[1..])
  }

  function Encode(es: seq<Entry>): seq<Byte>
    requires AllEncodable(es) && |es| < ARGUMENTS
  {
    Head(5, |es|) + EncodePairs(es)
  }

  /** The map that a list of entries denotes, on top of `base`. */
  function AsMap(base: Decoded, es: seq<Entry>): Decoded
    decreases |es|
  {
    if es == [] then base
    else AsMap(base[es[0].key := es[0].value], es[1..])
  }

  // ---- The round trip ----

  /** `part` is what stands at `pos`. */
  predicate StandsAt(d: seq<Byte>, pos: nat, part: seq<Byte>) {
    pos + |part| <= |d| && d[pos..pos + |part|] == part
  }

  lemma StandsApart(d: seq<Byte>, pos: nat, a: seq<Byte>, b: seq<Byte>)
    requires StandsAt(d, pos, a + b)
    ensures StandsAt(d, pos, a) && StandsAt(d, pos + |a|, b)
  {
    var both := d[pos..pos + |a + b|];
    assert both[..|a|] == a && both[|a|..] == b;
    assert d[pos..pos + |a|] == both[..|a|];
    assert d[pos + |a|..pos + |a| + |b|] == both[|a|..];
  }

  lemma StandsFirst(d: seq<Byte>, pos: nat, part: seq<Byte>)
    requires StandsAt(d, pos, part)
    ensures forall k :: 0 <= k < |part| ==> d[pos + k] == part[k]
  {
    forall k | 0 <= k < |part| ensures d[pos + k] == part[k] {
      assert d[pos..pos + |part|][k] == d[pos + k];
    }
  }

  lemma HeadReads(d: seq<Byte>, pos: nat, major: nat, n: nat, most: nat)
    requires major < 8 && n <= 0xFFFF && (most == 25 || (most == 24 && n <= 0xFF))
    requires StandsAt(d, pos, Head(major, n))
    ensures pos < |d| && MajorType(d[pos]) == major
    ensures LengthAt(d, pos, most) == Read(n, pos + |Head(major, n)|)
    ensures Additional(d[pos]) == if n <= 23 then n else if n <= 0xFF then 24 else 25
  {
    StandsFirst(d, pos, Head(major, n));
    var h := Head(major, n);
    assert d[pos + 0] == h[0];
    if n > 23 {
      assert d[pos + 1] == h[1];
    }
    if n > 0xFF {
      assert d[pos + 2] == h[2];
      assert d[pos + 1..pos + 3] == [n / 256, n % 256];
      TwoBytes(n / 256, n % 256);
    }
  }

  lemma KeyReads(d: seq<Byte>, pos: nat, key: seq<Byte>)
    requires |key| <= 0xFF && StandsAt(d, pos, Head(3, |key|) + key)
    ensures pos < |d| && KeyAt(d, pos) == Read(key, pos + |Head(3, |key|)| + |key|)
  {
    StandsApart(d, pos, Head(3, |key|), key);
    HeadReads(d, pos, 3, |key|, 24);
  }

  lemma ValueReads(d: seq<Byte>, pos: nat, v: Cbor)
    requires Supported(v) && StandsAt(d, pos, EncodeValue(v))
    ensures pos < |d| && ValueAt(d, pos) == Read(Some(v), pos + |EncodeValue(v)|)
  {
    hide LengthAt, Head;
    match v
    case Bytes(b) =>
      StandsApart(d, pos, Head(2, |b|), b);
      HeadReads(d, pos, 2, |b|, 25);
    case Text(t) =>
      StandsApart(d, pos, Head(3, |t|), t);
      HeadReads(d, pos, 3, |t|, 24);
    case UInt(n) =>
      HeadReads(d, pos, 0, n, 25);
    case _ =>
      StandsFirst(d, pos, EncodeValue(v));
      assert d[pos + 0] == EncodeValue(v)[0];
  }

  lemma {:induction false} PairsRead(d: seq<Byte>, pos: nat, es: seq<Entry>, base: Decoded)
    requires AllSupported(es) && StandsAt(d, pos, EncodePairs(es))
    ensures PairsFrom(d, pos, |es|, base) == Some(AsMap(base, es))
    decreases |es|
  {
    hide KeyAt, ValueAt, Head, EncodeValue, EncodePairs, StandsAt;
    if es != [] {
      var e := es[0];
      var key := Head(3, |e.key|) + e.key;
      FirstPair(d, pos, es);
      KeyReads(d, pos, e.key);
      ValueReads(d, pos + |key|, e.value);
      PairsRead(d, pos + |key| + |EncodeValue(e.value)|, es[1..], base[e.key := e.value]);
    }
  }

  lemma SupportedIsEncodable(es: seq<Entry>)
    requires AllSupported(es)
    ensures AllEncodable(es)
  {
  }

  /** Decoding an encoded map gives the map back. */
  lemma RoundTrip(es: seq<Entry>)
    requires AllSupported(es) && 1 <= |es| <= 23
    ensures DecodeCbor(Encode(es)) == Some(AsMap(map[], es))
  {
    hide PairsFrom, EncodePairs, AllSupported, AllEncodable, Supported, Encodable, AsMap;
    SupportedIsEncodable(es);
    var d := Encode(es);
    assert d[0] == 5 * 32 + |es| && d[1..] == EncodePairs(es);
    assert StandsAt(d, 1, EncodePairs(es));
    PairsRead(d, 1, es, map[]);
    MapNotEmpty(es);
    PairsNotEmpty(es);
  }

  lemma PairsNotEmpty(es: seq<Entry>)
    requires AllEncodable(es) && es != []
    ensures EncodePairs(es) != []
  {
  }

  lemma {:induction false} MapGrows(base: Decoded, es: seq<Entry>)
    ensures base.Keys <= AsMap(base, es).Keys
    decreases |es|
  {
    if es != [] {
      MapGrows(base[es[0].key := es[0].value], es[1..]);
    }
  }

  lemma MapNotEmpty(es: seq<Entry>)
    requires es != []
    ensures AsMap(map[], es) != map[]
  {
    var first: Decoded := map[es[0].key := es[0].value];
    MapGrows(first, es[1..]);
    assert AsMap(map[], es) == AsMap(first, es[1..]);
    assert es[0].key in first.Keys;
  }

  /** With distinct keys the map holds every entry, and nothing else. */
  lemma {:induction false} MapHoldsEntries(base: Decoded, es: seq<Entry>)
    requires DistinctKeys(es) && forall i :: 0 <= i < |es| ==> es[i].key !in base
    ensures forall i :: 0 <= i < |es| ==> es[i].key in AsMap(base, es) && AsMap(base, es)[es[i].key] == es[i].value
    ensures forall k :: k in base ==> k in AsMap(base, es) && AsMap(base, es)[k] == base[k]
    ensures |AsMap(base, es)| == |base| + |es|
    decreases |es|
  {
    if es != [] {
      var next := base[es[0].key := es[0].value];
      assert next.Keys == base.Keys + {es[0].key};
      assert |base.Keys| == |base| && |next.Keys| == |next|;
      MapHoldsEntries(next, es[1..]);
    }
  }

  lemma {:induction false} PairsAreBounded(d: seq<Byte>, pos: nat, n: nat, result: Decoded)
    requires PairsFrom(d, pos, n, result).Some?
    ensures |PairsFrom(d, pos, n, result).value| <= |result| + n
    decreases n
  {
    hide KeyAt, ValueAt;
    if n > 0 && pos < |d| && KeyAt(d, pos).Read? {
      var key, p := KeyAt(d, pos).value, KeyAt(d, pos).pos;
      if p < |d| && ValueAt(d, p).Read? {
        var v := ValueAt(d, p).value;
        var next := if v.Some? then result[key := v.value] else result;
        assert next.Keys <= result.Keys + {key};
        CardinalityStep(result.Keys, next.Keys, key);
        PairsAreBounded(d, ValueAt(d, p).pos, n - 1, next);
      }
    }
  }

  lemma CardinalityStep(a: set<seq<Byte>>, b: set<seq<Byte>>, x: seq<Byte>)
    requires b <= a + {x}
    ensures |b| <= |a| + 1
  {
    SubsetSize(b, a + {x});
  }

  /** A longer argument than two bytes of length is not read. */
  lemma LongHead(d: seq<Byte>, pos: nat, major: nat, n: nat)
    requires major < 8 && 0xFF < n < ARGUMENTS && StandsAt(d, pos, Head(major, n))
    ensures pos < |d| && MajorType(d[pos]) == major
    ensures Additional(d[pos]) >= 25 && LengthAt(d, pos, 24) == Broken
    ensures n > 0xFFFF ==> LengthAt(d, pos, 25) == Broken
  {
    StandsFirst(d, pos, Head(major, n));
    assert d[pos + 0] == Head(major, n)[0];
  }

  /** An entry the decoder does not support ends the loop, or sets no value. */
  lemma UnsupportedValue(d: seq<Byte>, pos: nat, v: Cbor)
    requires !Supported(v) && Encodable(v) && StandsAt(d, pos, EncodeValue(v))
    ensures pos < |d| && (ValueAt(d, pos) == Broken || ValueAt(d, pos) == Read(None, pos + 1))
  {
    hide LengthAt, Head;
    match v
    case Bytes(b) =>
      StandsApart(d, pos, Head(2, |b|), b);
      LongHead(d, pos, 2, |b|);
    case Text(t) =>
      StandsApart(d, pos, Head(3, |t|), t);
      LongHead(d, pos, 3, |t|);
    case UInt(n) =>
      LongHead(d, pos, 0, n);
  }

  lemma LongKey(d: seq<Byte>, pos: nat, key: seq<Byte>)
    requires 0xFF < |key| < ARGUMENTS && StandsAt(d, pos, Head(3, |key|) + key)
    ensures pos < |d| && KeyAt(d, pos) == Broken
  {
    StandsApart(d, pos, Head(3, |key|), key);
    LongHead(d, pos, 3, |key|);
  }

  /** The key, the value and the further pairs of a list that stands somewhere. */
  lemma FirstPair(d: seq<Byte>, pos: nat, es: seq<Entry>)
    requires es != [] && AllEncodable(es) && StandsAt(d, pos, EncodePairs(es))
    ensures EncodableEntry(es[0]) && AllEncodable(es[1..])
    ensures var key := Head(3, |es[0].key|) + es[0].key;
      && StandsAt(d, pos, key) && StandsAt(d, pos + |key|, EncodeValue(es[0].value))
      && StandsAt(d, pos + |key| + |EncodeValue(es[0].value)|, EncodePairs(es[1..]))
  {
    hide Head, EncodeValue, StandsAt;
    var e := es[0];
    var key := Head(3, |e.key|) + e.key;
    assert EncodePairs(es) == key + (EncodeValue(e.value) + EncodePairs(es[1..]));
    hide *;
    StandsApart(d, pos, key, EncodeValue(e.value) + EncodePairs(es[1..]));
    StandsApart(d, pos + |key|, EncodeValue(e.value), EncodePairs(es[1..]));
  }

  /** So an entry is lost as soon as one is not supported. */
  lemma {:induction false} UnsupportedIsLost(d: seq<Byte>, pos: nat, es: seq<Entry>, base: Decoded)
    requires AllEncodable(es) && StandsAt(d, pos, EncodePairs(es)) && !AllSupported(es)
    requires PairsFrom(d, pos, |es|, base).Some?
    ensures |PairsFrom(d, pos, |es|, base).value| < |base| + |es|
    decreases |es|
  {
    hide KeyAt, ValueAt, Head, EncodeValue, EncodePairs, StandsAt, Supported, Encodable;
    var e := es[0];
    var key := Head(3, |e.key|) + e.key;
    FirstPair(d, pos, es);
    if |e.key| > 0xFF {
      LongKey(d, pos, e.key);
    } else {
      KeyReads(d, pos, e.key);
      if Supported(e.value) {
        ValueReads(d, pos + |key|, e.value);
        OneMore(base, e);
        UnsupportedIsLost(d, pos + |key| + |EncodeValue(e.value)|, es[1..], base[e.key := e.value]);
      } else {
        UnsupportedValue(d, pos + |key|, e.value);
        if ValueAt(d, pos + |key|).Read? {
          PairsAreBounded(d, pos + |key| + 1, |es| - 1, base);
        }
      }
    }
  }

  lemma OneMore(base: Decoded, e: Entry)
    ensures |base[e.key := e.value]| <= |base| + 1
  {
    CardinalityStep(base.Keys, base[e.key := e.value].Keys, e.key);
    assert |base.Keys| == |base| && |base[e.key := e.value].Keys| == |base[e.key := e.value]|;
  }

  /** Exactly the maps of 1 to 23 supported entries survive: a longer map needs a longer head than the decoder reads. */
  lemma RoundTripIff(es: seq<Entry>)
    requires AllEncodable(es) && DistinctKeys(es) && |es| < ARGUMENTS
    ensures DecodeCbor(Encode(es)) == Some(AsMap(map[], es)) <==> 1 <= |es| <= 23 && AllSupported(es)
  {
    hide PairsFrom, EncodePairs, AllSupported, AllEncodable;
    var d := Encode(es);
    if |es| == 0 {
      assert EncodePairs(es) == [] by { NoPairs(); }
    } else if |es| <= 23 {
      if AllSupported(es) {
        RoundTrip(es);
      } else {
        LostWithUnsupported(es);
      }
    } else if |es| <= 31 {
      assert d[0] == 5 * 32 + 24 && d[1] == |es|;
      CountIsNoKey(d);
    } else {
      assert d[0] == Head(5, |es|)[0];
      MapHoldsEntries(map[], es);
      if PairsFrom(d, 1, Additional(d[0]), map[]).Some? {
        PairsAreBounded(d, 1, Additional(d[0]), map[]);
      }
    }
  }

  lemma ShortEncoding(es: seq<Entry>)
    requires AllEncodable(es) && |es| <= 23
    ensures var d := Encode(es);
      |d| >= 1 && MajorType(d[0]) == 5 && Additional(d[0]) == |es| && StandsAt(d, 1, EncodePairs(es))
  {
    hide EncodePairs, AllEncodable;
    var d := Encode(es);
    assert d[0] == 5 * 32 + |es| && d[1..] == EncodePairs(es);
  }

  lemma LostWithUnsupported(es: seq<Entry>)
    requires AllEncodable(es) && DistinctKeys(es) && |es| <= 23 && !AllSupported(es)
    ensures DecodeCbor(Encode(es)) != Some(AsMap(map[], es))
    ensures |es| == 1 ==> DecodeCbor(Encode(es)) == None
  {
    hide PairsFrom, EncodePairs, AllEncodable, AllSupported, AsMap, StandsAt;
    var d := Encode(es);
    ShortEncoding(es);
    MapHoldsEntries(map[], es);
    if PairsFrom(d, 1, |es|, map[]).Some? {
      UnsupportedIsLost(d, 1, es, map[]);
    }
  }

  /** A single entry that is not supported leaves nothing: for instance a text of 256 bytes, or the integer 65536. */
  lemma SingleIsLost(e: Entry)
    requires EncodableEntry(e) && !SupportedEntry(e)
    ensures DecodeCbor(Encode([e])) == None
  {
    hide DecodeCbor, Encode, AsMap, EncodableEntry, SupportedEntry;
    var es := [e];
    assert !SupportedEntry(es[0]);
    LostWithUnsupported(es);
  }

  lemma LostEntries()
    ensures DecodeCbor(Encode([Entry([0x61], Text(seq(256, _ => 0x61)))])) == None
    ensures DecodeCbor(Encode([Entry([0x61], UInt(65536))])) == None
  {
    hide DecodeCbor, Encode;
    SingleIsLost(Entry([0x61], Text(seq(256, _ => 0x61))));
    SingleIsLost(Entry([0x61], UInt(65536)));
  }

  lemma NoPairs()
    ensures EncodePairs([]) == []
  {
  }

  /** A count of 24 to 31 behind the head is taken for a key, and is not one. */
  lemma CountIsNoKey(d: seq<Byte>)
    requires |d| >= 2 && d[0] == 5 * 32 + 24 && 24 <= d[1] <= 31
    ensures DecodeCbor(d) == None
  {
    assert KeyAt(d, 1) == Broken;
  }

  // ---- Every input ----

  /** A head with major type `major` and argument `n` that takes at most two more bytes, in shortest form or not. */
  predicate IsHead(h: seq<Byte>, major: nat, n: nat) {
    || (h == [major * 32 + n] && n <= 23)
    || (|h| == 2 && h[0] == major * 32 + 24 && h[1] == n)
    || (|h| == 3 && h[0] == major * 32 + 25 && n == h[1] as nat * 256 + h[2] as nat)
  }

  /** A head that takes at most `longest` bytes, and behind it as many bytes of content as its argument says. */
  predicate IsString(s: seq<Byte>, major: nat, content: seq<Byte>, longest: nat) {
    var k := |s| - |content|;
    0 < k <= longest && s[k..] == content && IsHead(s[..k], major, |content|)
  }

  /** An item with value `v`, in any form that the decoder reads; the length of a text has at most one byte. */
  predicate IsItem(s: seq<Byte>, v: Cbor) {
    match v
    case Bytes(b) => IsString(s, 2, b, 3)
    case Text(t) => IsString(s, 3, t, 2)
    case UInt(n) => IsHead(s, 0, n)
    case Bool(b) => s == [if b then 0xF5 else 0xF4]
    case Null => s == [0xF6]
  }

  /** The data ends inside an argument of one or two bytes. */
  predicate ArgumentCut(d: seq<Byte>, pos: nat, longest: nat)
    requires pos < |d|
  {
    (d[pos] % 32 == 24 && pos + 1 == |d|) || (d[pos] % 32 == 25 && longest == 3 && pos + 3 > |d|)
  }

  /** What a reading of an argument means. */
  lemma ArgumentIs(d: seq<Byte>, pos: nat, longest: nat)
    requires pos < |d| && 2 <= longest <= 3
    ensures LengthAt(d, pos, longest + 22).Failed? <==> ArgumentCut(d, pos, longest)
    ensures LengthAt(d, pos, longest + 22).Broken? <==> d[pos] % 32 > longest + 22
    ensures LengthAt(d, pos, longest + 22).Read? ==>
      var r := LengthAt(d, pos, longest + 22);
      pos < r.pos <= |d| && r.pos <= pos + longest && IsHead(d[pos..r.pos], d[pos] / 32, r.value)
  {
    if d[pos] % 32 == 25 && pos + 3 <= |d| {
      TwoBytes(d[pos + 1], d[pos + 2]);
      assert d[pos + 1..pos + 3] == [d[pos + 1], d[pos + 2]];
    }
    hide FromBigEndian;
  }

  lemma HeadIsRead(d: seq<Byte>, pos: nat, start: nat, major: nat, n: nat, longest: nat)
    requires pos < start <= |d| && start <= pos + longest && 2 <= longest <= 3 && major < 8
    requires IsHead(d[pos..start], major, n)
    ensures MajorType(d[pos]) == major && LengthAt(d, pos, longest + 22) == Read(n, start)
  {
    var h := d[pos..start];
    assert h[0] == d[pos];
    if |h| == 2 {
      assert h[1] == d[pos + 1];
    }
    if |h| == 3 {
      TwoBytes(d[pos + 1], d[pos + 2]);
      assert h[1] == d[pos + 1] && h[2] == d[pos + 2];
      assert d[pos + 1..pos + 3] == [d[pos + 1], d[pos + 2]];
    }
    hide FromBigEndian;
  }

  /** The string whose head ends at `start`. */
  lemma StringIs(d: seq<Byte>, pos: nat, start: nat, major: nat, n: nat, longest: nat)
    requires pos < start <= pos + longest && start + n <= |d| && IsHead(d[pos..start], major, n)
    ensures IsString(d[pos..start + n], major, d[start..start + n], longest)
  {
    hide IsHead;
    var s, k := d[pos..start + n], start - pos;
    assert s[k..] == d[start..start + n] && s[..k] == d[pos..start];
  }

  lemma StringIsRead(d: seq<Byte>, pos: nat, next: nat, major: nat, content: seq<Byte>, longest: nat)
    requires pos < next <= |d| && 2 <= longest <= 3 && major < 8
    requires IsString(d[pos..next], major, content, longest)
    ensures |content| < next - pos
    ensures var start := next - |content|;
      && MajorType(d[pos]) == major && LengthAt(d, pos, longest + 22) == Read(|content|, start)
      && d[start..start + |content|] == content
  {
    hide IsHead, LengthAt, MajorType;
    var s := d[pos..next];
    var k := |s| - |content|;
    assert s[..k] == d[pos..pos + k] && s[k..] == d[pos + k..next];
    HeadIsRead(d, pos, pos + k, major, |content|, longest);
  }

  /** A value is read exactly where an item with that value stands. */
  lemma ValueReadIff(d: seq<Byte>, pos: nat, v: Cbor, next: nat)
    requires pos < |d|
    ensures ValueAt(d, pos) == Read(Some(v), next) <==> pos < next <= |d| && IsItem(d[pos..next], v)
  {
    if pos < next <= |d| && IsItem(d[pos..next], v) {
      ItemIsRead(d, pos, v, next);
    } else if ValueAt(d, pos) == Read(Some(v), next) {
      ReadIsItem(d, pos, v, next);
    }
  }

  lemma ItemIsRead(d: seq<Byte>, pos: nat, v: Cbor, next: nat)
    requires pos < next <= |d| && IsItem(d[pos..next], v)
    ensures ValueAt(d, pos) == Read(Some(v), next)
  {
    hide IsHead, LengthAt, IsString;
    var s := d[pos..next];
    assert s[0] == d[pos];
    match v
    case Bytes(b) => StringIsRead(d, pos, next, 2, b, 3);
    case Text(t) => StringIsRead(d, pos, next, 3, t, 2);
    case UInt(n) =>
      HeadLength(s, 0, n);
      HeadIsRead(d, pos, next, 0, n, 3);
    case _ =>
  }

  lemma HeadLength(h: seq<Byte>, major: nat, n: nat)
    requires IsHead(h, major, n)
    ensures 1 <= |h| <= 3
  {
  }

  lemma ReadIsItem(d: seq<Byte>, pos: nat, v: Cbor, next: nat)
    requires pos < |d| && ValueAt(d, pos) == Read(Some(v), next)
    ensures pos < next <= |d| && IsItem(d[pos..next], v)
  {
    hide IsHead, LengthAt, IsString;
    ArgumentIs(d, pos, 2);
    ArgumentIs(d, pos, 3);
    var major := d[pos] / 32;
    if major == 2 {
      var r := LengthAt(d, pos, 25);
      StringIs(d, pos, r.pos, 2, r.value, 3);
    } else if major == 3 {
      var r := LengthAt(d, pos, 24);
      StringIs(d, pos, r.pos, 3, r.value, 2);
    } else if major == 7 {
      assert d[pos..pos + 1] == [d[pos]];
    }
  }

  /** The other outcomes: an item of one byte that sets nothing, and an argument that is cut off. */
  lemma ValueOtherwise(d: seq<Byte>, pos: nat)
    requires pos < |d|
    ensures var major, info := d[pos] / 32, d[pos] % 32;
      && (forall next :: ValueAt(d, pos) == Read(None, next) <==>
            next == pos + 1 && (major in [1, 4, 5, 6] || (major == 7 && !(20 <= info <= 22)) || (major == 0 && info > 25)))
      && (ValueAt(d, pos).Failed? <==>
            ((major == 0 || major == 2) && ArgumentCut(d, pos, 3)) || (major == 3 && ArgumentCut(d, pos, 2)))
  {
    hide IsHead, LengthAt, ArgumentCut;
    ArgumentIs(d, pos, 2);
    ArgumentIs(d, pos, 3);
  }

  /** A key: a text, or a byte string whose length is the low five bits of its head, whatever they announce. */
  predicate IsKey(s: seq<Byte>, key: seq<Byte>) {
    IsString(s, 3, key, 2) || (|key| <= 31 && s == [0x40 + |key|] + key)
  }

  /** Text keys are read like text values. */
  lemma TextKeyAt(d: seq<Byte>, pos: nat)
    requires pos < |d| && d[pos] / 32 == 3
    ensures KeyAt(d, pos) == match ValueAt(d, pos)
      case Read(Some(Text(t)), next) => Read(t, next)
      case Failed => Failed
      case _ => Broken
  {
  }

  lemma ByteKeyAt(d: seq<Byte>, pos: nat, key: seq<Byte>, next: nat)
    requires pos < |d| && d[pos] / 32 == 2
    ensures KeyAt(d, pos) == Read(key, next) <==>
      pos < next <= |d| && |key| <= 31 && d[pos..next] == [0x40 + |key|] + key
  {
    if pos < next <= |d| && d[pos..next] == [0x40 + |key|] + key {
      var s := d[pos..next];
      assert s[0] == d[pos] && s[1..] == key == d[pos + 1..next];
    }
    if KeyAt(d, pos) == Read(key, next) {
      assert d[pos..next] == [d[pos]] + d[pos + 1..next];
    }
  }

  lemma KeyMajor(d: seq<Byte>, pos: nat, key: seq<Byte>, next: nat)
    requires pos < next <= |d|
    ensures IsString(d[pos..next], 3, key, 2) ==> d[pos] / 32 == 3
    ensures |key| <= 31 && d[pos..next] == [0x40 + |key|] + key ==> d[pos] / 32 == 2
  {
    var s := d[pos..next];
    assert s[0] == d[pos];
    if IsString(s, 3, key, 2) {
      assert s[..|s| - |key|][0] == s[0];
    }
  }

  /** A key is read exactly where one stands, and the decoding fails only if the length of a text is cut off. */
  lemma KeyReadIff(d: seq<Byte>, pos: nat, key: seq<Byte>, next: nat)
    requires pos < |d|
    ensures KeyAt(d, pos) == Read(key, next) <==> pos < next <= |d| && IsKey(d[pos..next], key)
    ensures KeyAt(d, pos).Failed? <==> d[pos] == 0x78 && pos + 1 == |d|
  {
    KeyFailsIff(d, pos);
    hide IsString, KeyAt, ValueAt;
    if pos < next <= |d| {
      KeyMajor(d, pos, key, next);
    }
    if d[pos] / 32 == 3 {
      TextKeyAt(d, pos);
      ValueReadIff(d, pos, Text(key), next);
    } else if d[pos] / 32 == 2 {
      ByteKeyAt(d, pos, key, next);
    } else {
      NoKeyAt(d, pos);
    }
  }

  lemma NoKeyAt(d: seq<Byte>, pos: nat)
    requires pos < |d| && d[pos] / 32 != 2 && d[pos] / 32 != 3
    ensures KeyAt(d, pos) == Broken
  {
  }

  lemma KeyFailsIff(d: seq<Byte>, pos: nat)
    requires pos < |d|
    ensures KeyAt(d, pos).Failed? <==> d[pos] == 0x78 && pos + 1 == |d|
  {
  }

  // ---- Finding and stripping ----

  datatype MetadataError = InvalidHex | TooShort | BadLength | NotAMap | Undecodable

  /** What the extraction reports about the place and the content of the metadata. */
  datatype Extraction =
    | Found(decoded: Decoded, cborLength: nat, start: nat)
    | NotFound(error: MetadataError, cborLength: nat, start: nat)

  /** The clean-up of the extractor: only spaces and line feeds are dropped inside the text. */
  predicate IsDropped(c: char) {
    c == ' ' || c == '\n'
  }

  function CleanText(s: string): string {
    Without(WithoutPrefix(TrimRight(TrimLeft(s))), IsDropped)
  }

  function ExtractFrom(code: seq<Byte>): Extraction {
    var n := |code|;
    if n < 4 then NotFound(TooShort, 0, 0)
    else
      var cborLength := FromBigEndian(code[n - 2..]);
      if cborLength == 0 || cborLength + 2 > n then NotFound(BadLength, cborLength, 0)
      else
        var start := n - 2 - cborLength;
        var cbor := code[start..n - 2];
        if MajorType(cbor[0]) != 5 then NotFound(NotAMap, cborLength, start)
        else
          match DecodeCbor(cbor)
          case None => NotFound(Undecodable, cborLength, start)
          case Some(m) => Found(m, cborLength, start)
  }

  function ExtractMetadata(s: string): Extraction {
    match FromHex(CleanText(s))
    case None => NotFound(InvalidHex, 0, 0)
    case Some(code) => ExtractFrom(code)
  }

  function StripMetadata(s: string, found: Option<Extraction>): Result<string, InputError> {
    match Validate(s)
    case Err(e) => Err(e)
    case Ok(clean) =>
      if found.Some? && found.value.Found? && 0 < found.value.start <= |clean| / 2
      then Ok(clean[..found.value.start * 2]) else Ok(clean)
  }

  /** Metadata as it stands behind code: its CBOR, and the length of that in two bytes. */
  function Appended(code: seq<Byte>, cbor: seq<Byte>): (all: seq<Byte>)
    requires 1 <= |cbor| <= 0xFFFF
    ensures |all| == |code| + |cbor| + 2
  {
    code + (cbor + [|cbor| / 256, |cbor| % 256])
  }

  lemma LengthReads(n: nat)
    requires n <= 0xFFFF
    ensures FromBigEndian([n / 256, n % 256]) == n
  {
    TwoBytes(n / 256, n % 256);
  }

  lemma TrailerParts(code: seq<Byte>, cbor: seq<Byte>, last: seq<Byte>)
    requires |last| == 2
    ensures var all := code + (cbor + last);
      |all| == |code| + |cbor| + 2 && all[|all| - 2..] == last && all[|code|..|all| - 2] == cbor
  {
  }

  /** Whatever code stands before it, the metadata is decoded as if it stood alone. */
  lemma AppendedDecodes(code: seq<Byte>, cbor: seq<Byte>)
    requires 1 <= |cbor| <= 0xFFFF
    ensures match DecodeCbor(cbor)
      case None => ExtractFrom(Appended(code, cbor)).NotFound?
      case Some(m) => ExtractFrom(Appended(code, cbor)) == Found(m, |cbor|, |code|)
  {
    hide PairsFrom, FromBigEndian, MajorType;
    LengthReads(|cbor|);
    TrailerParts(code, cbor, [|cbor| / 256, |cbor| % 256]);
  }

  /** Code and CBOR whose length of two bytes ends the data. */
  ghost predicate SplitsInto(all: seq<Byte>, code: seq<Byte>, cbor: seq<Byte>) {
    1 <= |cbor| <= 0xFFFF && all == Appended(code, cbor)
  }

  lemma SplitOf(all: seq<Byte>, code: seq<Byte>, cbor: seq<Byte>)
    requires |all| >= 2
    ensures SplitsInto(all, code, cbor) <==>
      var n := FromBigEndian(all[|all| - 2..]);
      0 < n <= |all| - 2 && code == all[..|all| - 2 - n] && cbor == all[|all| - 2 - n..|all| - 2]
  {
    var last := all[|all| - 2..];
    TwoBytes(last[0], last[1]);
    assert last == [last[0], last[1]];
    hide FromBigEndian;
    var n := last[0] as nat * 256 + last[1] as nat;
    if SplitsInto(all, code, cbor) {
      TrailerParts(code, cbor, [|cbor| / 256, |cbor| % 256]);
      assert all[..|code|] == code;
    }
    if n <= |all| - 2 {
      assert all == all[..|all| - 2 - n] + (all[|all| - 2 - n..|all| - 2] + last);
    }
  }

  /** Metadata is found in data of any kind exactly if it splits into code and CBOR that decodes. */
  lemma FoundIff(all: seq<Byte>, m: Decoded, cborLength: nat, start: nat)
    ensures ExtractFrom(all) == Found(m, cborLength, start) <==>
      exists code, cbor :: SplitsInto(all, code, cbor)
        && DecodeCbor(cbor) == Some(m) && |cbor| == cborLength && |code| == start
  {
    hide DecodeCbor, FromBigEndian, MajorType, Appended;
    forall code, cbor | SplitsInto(all, code, cbor) && DecodeCbor(cbor) == Some(m)
      ensures ExtractFrom(all) == Found(m, |cbor|, |code|)
    {
      AppendedDecodes(code, cbor);
    }
    if ExtractFrom(all) == Found(m, cborLength, start) {
      SplitOf(all, all[..start], all[start..|all| - 2]);
    }
  }

  /** The reports for data without metadata: fewer than four bytes, no such split, no CBOR map, a map that does not decode. */
  lemma NotFoundIs(all: seq<Byte>)
    ensures var r := ExtractFrom(all);
      && (r.NotFound? && r.error == TooShort <==> |all| < 4)
      && (r.NotFound? && r.error == BadLength <==> |all| >= 4 && !exists code, cbor :: SplitsInto(all, code, cbor))
      && (r.NotFound? && r.error == NotAMap <==>
            |all| >= 4 && exists code, cbor :: SplitsInto(all, code, cbor) && cbor[0] / 32 != 5)
      && (r.NotFound? && r.error == Undecodable <==>
            |all| >= 4 && exists code, cbor ::
              SplitsInto(all, code, cbor) && cbor[0] / 32 == 5 && DecodeCbor(cbor) == None)
    ensures var r := ExtractFrom(all);
      r.NotFound? ==>
        && r.cborLength == (if |all| < 4 then 0 else FromBigEndian(all[|all| - 2..]))
        && r.start == (if r.error == TooShort || r.error == BadLength then 0 else |all| - 2 - r.cborLength)
  {
    hide DecodeCbor, FromBigEndian, Appended, SplitsInto;
    if |all| >= 4 {
      var n := FromBigEndian(all[|all| - 2..]);
      if 0 < n <= |all| - 2 {
        var c, b := all[..|all| - 2 - n], all[|all| - 2 - n..|all| - 2];
        SplitOf(all, c, b);
        forall code, cbor | SplitsInto(all, code, cbor) ensures cbor == b {
          SplitOf(all, code, cbor);
        }
      } else {
        forall code, cbor ensures !SplitsInto(all, code, cbor) {
          SplitOf(all, code, cbor);
        }
      }
    }
  }

  /** Text that is not hexadecimal has no metadata, and no length or start is reported for it. */
  lemma NotHexIs(s: string)
    ensures ExtractMetadata(s) == NotFound(InvalidHex, 0, 0) <==> FromHex(CleanText(s)) == None
  {
    hide CleanText, FromHex, DecodeCbor, FromBigEndian, MajorType;
  }

  /** Without metadata the stripped text is the text, cleaned up. */
  lemma NothingStripped(s: string, found: Option<Extraction>)
    requires found.None? || found.value.NotFound?
    ensures StripMetadata(s, found) == Validate(s)
  {
  }

  /** Metadata is found, with its length and its start, exactly when its map survives. */
  lemma MetadataIsFound(code: seq<Byte>, es: seq<Entry>)
    requires AllEncodable(es) && DistinctKeys(es) && |es| < ARGUMENTS && |Encode(es)| <= 0xFFFF
    ensures Encode(es) != []
    ensures ExtractFrom(Appended(code, Encode(es))) == Found(AsMap(map[], es), |Encode(es)|, |code|)
      <==> 1 <= |es| <= 23 && AllSupported(es)
  {
    EncodeNotEmpty(es);
    hide DecodeCbor, Encode, AsMap, AllEncodable, AllSupported, ExtractFrom, Appended;
    AppendedDecodes(code, Encode(es));
    RoundTripIff(es);
  }

  lemma EncodeNotEmpty(es: seq<Entry>)
    requires AllEncodable(es) && |es| < ARGUMENTS
    ensures Encode(es) != []
  {
  }

  lemma CleanHex(s: string)
    requires AllHex(s)
    ensures CleanText(s) == s && CleanText("0x" + s) == s
  {
    TrimNothing(s);
    HexHasNoPrefix(s);
    assert ("0x" + s)[2..] == s;
    hide TrimLeft, TrimRight, Without;
    WithoutNothing(s, IsDropped);
  }

  lemma {:induction false} HexOfConcat(a: seq<Byte>, b: seq<Byte>)
    ensures ToHex(a + b) == ToHex(a) + ToHex(b)
  {
    if a == [] {
      assert a + b == b;
    } else {
      assert (a + b)[1..] == a[1..] + b;
      HexOfConcat(a[1..], b);
    }
  }

  /** Inside digits, a character is dropped exactly if it is a space or a line feed. */
  lemma DroppedIff(a: string, c: char, b: string)
    requires AllHex(a) && AllHex(b) && |a| >= 2 && b != ""
    ensures CleanText(a + [c] + b) == a + b <==> c == ' ' || c == '\n'
  {
    DigitsStay(IsDropped);
    hide IsHexDigit, Without, WithoutPrefix, TrimRight, TrimLeft;
    InnerDrop(a, c, b, IsDropped);
  }

  /** Whitespace around the text makes no difference. */
  lemma SurroundingDropped(a: string, s: string, b: string)
    requires AllSpace(a) && AllSpace(b)
    ensures ExtractMetadata(a + s + b) == ExtractMetadata(s)
  {
    SurroundTrimmed(a, s, b);
  }

  /** The hexadecimal text, with or without the prefix. */
  predicate IsTextOf(s: string, all: seq<Byte>) {
    s == ToHex(all) || s == "0x" + ToHex(all)
  }

  lemma TextDecodes(s: string, all: seq<Byte>)
    requires IsTextOf(s, all)
    ensures ExtractMetadata(s) == ExtractFrom(all)
  {
    hide ExtractFrom, ToHex, FromHex, CleanText, AllHex;
    ToHexIsHex(all);
    HexRoundTrip(all);
    CleanHex(ToHex(all));
  }

  /** Half of the text of `code` and what stands behind it. */
  lemma CodeText(code: seq<Byte>, behind: seq<Byte>)
    ensures |ToHex(code)| == 2 * |code| && |ToHex(code + behind)| == 2 * |code| + 2 * |behind|
    ensures ToHex(code + behind)[..|code| * 2] == ToHex(code)
  {
    HexOfConcat(code, behind);
    hide ToHex;
  }

  lemma StrippedText(s: string, code: seq<Byte>, behind: seq<Byte>, found: Extraction)
    requires behind != [] && |code| + |behind| <= MAX_INPUT_BYTES && (found.Found? ==> found.start == |code|)
    requires IsTextOf(s, code + behind)
    ensures StripMetadata(s, Some(found)) == Ok(ToHex(code)) <==> found.Found? && code != []
  {
    hide Normalize, ToHex;
    var clean := ToHex(code + behind);
    ToHexIsHex(code + behind);
    NormalizeHex(clean);
    CodeText(code, behind);
    assert Validate(s) == Ok(clean);
  }

  /** Stripping what was appended gives exactly the code, if there is code and the appended CBOR decodes. */
  lemma StripGivesCode(s: string, code: seq<Byte>, cbor: seq<Byte>)
    requires 1 <= |cbor| <= 0xFFFF && |code| + |cbor| + 2 <= MAX_INPUT_BYTES
    requires IsTextOf(s, Appended(code, cbor))
    ensures StripMetadata(s, Some(ExtractMetadata(s))) == Ok(ToHex(code))
      <==> code != [] && DecodeCbor(cbor).Some?
  {
    hide ToHex, StripMetadata, ExtractMetadata, ExtractFrom, DecodeCbor, IsTextOf;
    AppendedDecodes(code, cbor);
    TextDecodes(s, Appended(code, cbor));
    StrippedText(s, code, cbor + [|cbor| / 256, |cbor| % 256], ExtractFrom(Appended(code, cbor)));
  }
}
