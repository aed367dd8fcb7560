/**
 Bencoding (src/file/bencode.rs; BEP 3, section "bencoding"): values, their encoding, and
 the recursive descent parser. Parsers answer a value and the bytes they did not process.

 A dictionary is the ascending list of its entries, as a `BTreeMap` iterates it.
 */
module Bencoding {
  import opened Common

  type Bytes = seq<byte>

  datatype Entry = Entry(key: Bytes, value: Bencode)

  datatype Bencode =
    | Int(i: int)
    | ByteString(bytes: Bytes)
    | List(items: seq<Bencode>)
    | Dictionary(entries: seq<Entry>)

  const I: byte := 105
  const L: byte := 108
  const D: byte := 100
  const E: byte := 101
  const COLON: byte := 58
  const MINUS: byte := 45
  const PLUS: byte := 43
  const ZERO: byte := 48

  const I64_MAX: int := 0x7FFF_FFFF_FFFF_FFFF

  // ------------------------------------------------------------------ what can be encoded

  /** Byte strings compare as the source's slices do, byte by byte. */
  predicate Less(a: Bytes, b: Bytes) {
    b != [] && (a == [] || a[0] < b[0] || (a[0] == b[0] && Less(a[1..], b[1..])))
  }

  ghost predicate Ascending(es: seq<Entry>) {
    forall i, j :: 0 <= i < j < |es| ==> Less(es[i].key, es[j].key)
  }

  /** The numbers fit their types and dictionaries have their keys once, in order. */
  ghost predicate WellFormed(v: Bencode)
    decreases v, 1
  {
    match v
    case Int(i) => -I64_MAX - 1 <= i <= I64_MAX
    case ByteString(bytes) => |bytes| < U32_LIMIT
    case List(items) => WellFormedItems(items)
    case Dictionary(entries) => WellFormedEntries(entries) && Ascending(entries)
  }

  ghost predicate WellFormedItems(vs: seq<Bencode>)
    decreases vs, 0
  {
    vs == [] || (WellFormed(vs[0]) && WellFormedItems(vs[1..]))
  }

  ghost predicate WellFormedEntries(es: seq<Entry>)
    decreases es, 0
  {
    es == [] || (|es[0].key| < U32_LIMIT && WellFormed(es[0].value) && WellFormedEntries(es[1..]))
  }

  // ------------------------------------------------------------------ encoding

  /** Decimal digits, without leading zeros. */
  function Digits(n: nat): (ds: Bytes)
    ensures ds != []
  {
    if n < 10 then [ZERO + n] else Digits(n / 10) + [ZERO + n % 10]
  }

  function Decimal(i: int): Bytes {
    if i < 0 then [MINUS] + Digits(-i) else Digits(i)
  }

  function EncodedBytes(b: Bytes): Bytes {
    Digits(|b|) + ([COLON] + b)
  }

  function Encoded(v: Bencode): Bytes
    decreases v, 1
  {
    match v
    case Int(i) => [I] + (Decimal(i) + [E])
    case ByteString(bytes) => EncodedBytes(bytes)
    case List(items) => [L] + (EncodedItems(items) + [E])
    case Dictionary(entries) => [D] + (EncodedEntries(entries) + [E])
  }

  function EncodedItems(vs: seq<Bencode>): Bytes
    decreases vs, 0
  {
    if vs == [] then [] else Encoded(vs[0]) + EncodedItems(vs[1..])
  }

  function EncodedEntries(es: seq<Entry>): Bytes
    decreases es, 0
  {
    if es == [] then [] else EncodedBytes(es[0].key) + (Encoded(es[0].value) + EncodedEntries(es[1..]))
  }

  method EncodeInt(i: int) returns (bytes: Bytes)
    ensures bytes == Encoded(Int(i))
  {
    bytes := [I] + Decimal(i) + [E];
  }

  method EncodeBs(b: Bytes) returns (bytes: Bytes)
    ensures bytes == EncodedBytes(b)
  {
    bytes := Digits(|b|) + [COLON];
    bytes := bytes + b;
  }

  method EncodeList(items: seq<Bencode>) returns (bytes: Bytes)
    ensures bytes == Encoded(List(items))
    decreases items, 0
  {
    bytes := [L];
    for n := 0 to |items|
      invariant bytes == [L] + EncodedItems(items[..n])
    {
      var inner := Encode(items[n]);
      EncodedItemsMore(items, n);
      SeqAssoc([L], EncodedItems(items[..n]), inner);
      bytes := bytes + inner;
    }
    assert items[..|items|] == items;
    SeqAssoc([L], EncodedItems(items), [E]);
    bytes := bytes + [E];
  }

  method EncodeDictionary(entries: seq<Entry>) returns (bytes: Bytes)
    ensures bytes == Encoded(Dictionary(entries))
    decreases entries, 0
  {
    bytes := [D];
    for n := 0 to |entries|
      invariant bytes == [D] + EncodedEntries(entries[..n])
    {
      var k := EncodeBs(entries[n].key);
      var v := Encode(entries[n].value);
      EncodedEntriesMore(entries, n);
      SeqAssoc([D], EncodedEntries(entries[..n]), k + v);
      SeqAssoc([D] + EncodedEntries(entries[..n]), k, v);
      bytes := bytes + k;
      bytes := bytes + v;
    }
    assert entries[..|entries|] == entries;
    SeqAssoc([D], EncodedEntries(entries), [E]);
    bytes := bytes + [E];
  }

  method Encode(v: Bencode) returns (bytes: Bytes)
    ensures bytes == Encoded(v)
    decreases v, 1
  {
    match v
    case Int(i) => bytes := EncodeInt(i);
    case ByteString(b) => bytes := EncodeBs(b);
    case List(items) => bytes := EncodeList(items);
    case Dictionary(entries) => bytes := EncodeDictionary(entries);
  }

  lemma TailOfPrefix<T>(s: seq<T>, n: nat)
    requires n < |s|
    ensures s[..n + 1][0] == s[0] && s[..n + 1][1..] == s[1..][..n] && (n > 0 ==> s[..n][1..] == s[1..][..n - 1])
  {
  }

  lemma {:induction false} EncodedItemsMore(vs: seq<Bencode>, n: nat)
    requires n < |vs|
    ensures EncodedItems(vs[..n + 1]) == EncodedItems(vs[..n]) + Encoded(vs[n])
  {
    hide Encoded;
    TailOfPrefix(vs, n);
    if n > 0 {
      EncodedItemsMore(vs[1..], n - 1);
      SeqAssoc(Encoded(vs[0]), EncodedItems(vs[1..][..n - 1]), Encoded(vs[n]));
    }
  }

  lemma {:induction false} EncodedEntriesMore(es: seq<Entry>, n: nat)
    requires n < |es|
    ensures EncodedEntries(es[..n + 1]) == EncodedEntries(es[..n]) + (EncodedBytes(es[n].key) + Encoded(es[n].value))
  {
    hide Encoded, EncodedBytes;
    TailOfPrefix(es, n);
    if n > 0 {
      EncodedEntriesMore(es[1..], n - 1);
      var k, v, last := EncodedBytes(es[0].key), Encoded(es[0].value), EncodedBytes(es[n].key) + Encoded(es[n].value);
      SeqAssoc(v, EncodedEntries(es[1..][..n - 1]), last);
      SeqAssoc(k, v + EncodedEntries(es[1..][..n - 1]), last);
    }
  }

  // ------------------------------------------------------------------ dictionaries

  /** `BTreeMap::insert`: the entry goes to its place and replaces one with the same key. */
  function Inserted(es: seq<Entry>, e: Entry): (r: seq<Entry>)
    ensures forall x :: x in r ==> x in es || x == e
  {
    if es == [] || Less(e.key, es[0].key) then [e] + es
    else if es[0].key == e.key then [e] + es[1..]
    else [es[0]] + Inserted(es[1..], e)
  }

  /** The map collected from pairs in the order they were parsed. */
  function Collected(es: seq<Entry>): seq<Entry> {
    if es == [] then [] else Inserted(Collected(es[..|es| - 1]), es[|es| - 1])
  }

  lemma {:induction false} LessTransitive(a: Bytes, b: Bytes, c: Bytes)
    requires Less(a, b) && Less(b, c)
    ensures Less(a, c)
  {
    if a != [] && a[0] == b[0] == c[0] {
      LessTransitive(a[1..], b[1..], c[1..]);
    }
  }

  lemma {:induction false} LessTotal(a: Bytes, b: Bytes)
    ensures a == b || Less(a, b) || Less(b, a)
  {
    if a != [] && b != [] && a[0] == b[0] {
      LessTotal(a[1..], b[1..]);
      assert a == [a[0]] + a[1..] && b == [b[0]] + b[1..];
    }
  }

  lemma {:induction false} LessIrreflexive(a: Bytes)
    ensures !Less(a, a)
  {
    if a != [] {
      LessIrreflexive(a[1..]);
    }
  }

  lemma AscendingTail(es: seq<Entry>)
    requires Ascending(es) && es != []
    ensures Ascending(es[1..])
    ensures forall x :: x in es[1..] ==> Less(es[0].key, x.key)
  {
    assert forall i :: 0 <= i < |es[1..]| ==> es[1..][i] == es[i + 1];
  }

  lemma AscendingCons(e: Entry, es: seq<Entry>)
    requires Ascending(es) && forall x :: x in es ==> Less(e.key, x.key)
    ensures Ascending([e] + es)
  {
  }

  /** Inserting keeps the keys ascending. */
  lemma {:induction false} InsertedAscending(es: seq<Entry>, e: Entry)
    requires Ascending(es)
    ensures Ascending(Inserted(es, e))
  {
    if es != [] {
      AscendingTail(es);
      if Less(e.key, es[0].key) {
        forall x | x in es ensures Less(e.key, x.key) {
          if x in es[1..] {
            LessTransitive(e.key, es[0].key, x.key);
          }
        }
        AscendingCons(e, es);
      } else if es[0].key == e.key {
        AscendingCons(e, es[1..]);
      } else {
        LessTotal(e.key, es[0].key);
        InsertedAscending(es[1..], e);
        AscendingCons(es[0], Inserted(es[1..], e));
      }
    }
  }

  lemma {:induction false} InsertedWellFormed(es: seq<Entry>, e: Entry)
    requires WellFormedEntries(es) && WellFormedEntries([e])
    ensures WellFormedEntries(Inserted(es, e))
  {
    if es != [] && !Less(e.key, es[0].key) && es[0].key != e.key {
      InsertedWellFormed(es[1..], e);
      assert Inserted(es, e)[1..] == Inserted(es[1..], e);
    } else if es != [] && es[0].key == e.key && !Less(e.key, es[0].key) {
      assert Inserted(es, e)[1..] == es[1..];
    } else {
      assert Inserted(es, e)[1..] == es;
    }
  }

  lemma {:induction false} WellFormedFront(es: seq<Entry>)
    requires WellFormedEntries(es) && es != []
    ensures WellFormedEntries(es[..|es| - 1]) && WellFormedEntries([es[|es| - 1]])
  {
    if |es| > 1 {
      WellFormedFront(es[1..]);
      assert es[..|es| - 1][1..] == es[1..][..|es| - 2];
    } else {
      assert [es[0]] == es;
    }
  }

  /** Whatever pairs come in, the map has its keys once and in order. */
  lemma {:induction false} CollectedWellFormed(es: seq<Entry>)
    requires WellFormedEntries(es)
    ensures WellFormedEntries(Collected(es)) && Ascending(Collected(es))
  {
    if es != [] {
      var front, e := es[..|es| - 1], es[|es| - 1];
      WellFormedFront(es);
      CollectedWellFormed(front);
      InsertedAscending(Collected(front), e);
      InsertedWellFormed(Collected(front), e);
    }
  }

  // ------------------------------------------------------------------ parsing

  datatype Parse<T> = Fail | Match(value: T, rest: Bytes)

  predicate IsDigit(b: byte) {
    ZERO <= b <= ZERO + 9
  }

  /** The loop of nom's number parsers: at least one digit, failing once the value exceeds `max`. */
  function ParseDigits(i: Bytes, acc: nat, max: nat, any: bool): (r: Parse<nat>)
    ensures r.Match? ==> |r.rest| <= |i| && (!any ==> |r.rest| < |i|)
    ensures r.Match? && acc <= max ==> r.value <= max
  {
    if i == [] || !IsDigit(i[0]) then
      if any then Match(acc, i) else Fail
    else if acc * 10 + (i[0] - ZERO) > max then Fail
    else ParseDigits(i[1..], acc * 10 + (i[0] - ZERO), max, true)
  }

  function ParseU32(i: Bytes): Parse<nat> {
    ParseDigits(i, 0, U32_LIMIT - 1, false)
  }

  /** An optional sign, then digits; the magnitude of a negative number may be one larger. */
  function ParseI64(i: Bytes): Parse<int> {
    if i != [] && i[0] == MINUS then
      match ParseDigits(i[1..], 0, I64_MAX + 1, false)
      case Match(n, rest) => (var m: int := n; Match(-m, rest))
      case Fail => Fail
    else
      match ParseDigits(if i != [] && i[0] == PLUS then i[1..] else i, 0, I64_MAX, false)
      case Match(n, rest) => Match(n, rest)
      case Fail => Fail
  }

  predicate Starts(i: Bytes, tag: byte) {
    i != [] && i[0] == tag
  }

  function ParseInt(i: Bytes): (r: Parse<Bencode>)
    ensures r.Match? ==> |r.rest| < |i| && WellFormed(r.value)
  {
    if !Starts(i, I) then Fail
    else
      match ParseI64(i[1..])
      case Fail => Fail
      case Match(n, rest) => if Starts(rest, E) then Match(Int(n), rest[1..]) else Fail
  }

  /** `inner_parse_bytestring`. */
  function ParseBytes(i: Bytes): (r: Parse<Bytes>)
    ensures r.Match? ==> |r.rest| < |i| && |r.value| < U32_LIMIT
  {
    match ParseU32(i)
    case Fail => Fail
    case Match(len, rest) =>
      if !Starts(rest, COLON) || |rest[1..]| < len then Fail
      else Match(rest[1..][..len], rest[1..][len..])
  }

  function ParseByteString(i: Bytes): (r: Parse<Bencode>)
    ensures r.Match? ==> |r.rest| < |i| && WellFormed(r.value)
  {
    match ParseBytes(i)
    case Fail => Fail
    case Match(b, rest) => Match(ByteString(b), rest)
  }

  /** `many_till(parse_type, tag("e"))`. */
  function ParseItems(i: Bytes): (r: Parse<seq<Bencode>>)
    ensures r.Match? ==> |r.rest| < |i| && WellFormedItems(r.value)
    decreases |i|, 2
  {
    if Starts(i, E) then Match([], i[1..])
    else
      match ParseType(i)
      case Fail => Fail
      case Match(v, rest) =>
        match ParseItems(rest)
        case Fail => Fail
        case Match(vs, rest') => Match([v] + vs, rest')
  }

  function ParseList(i: Bytes): (r: Parse<Bencode>)
    ensures r.Match? ==> |r.rest| < |i| && WellFormed(r.value)
    decreases |i|, 0
  {
    if !Starts(i, L) then Fail
    else
      match ParseItems(i[1..])
      case Fail => Fail
      case Match(vs, rest) => Match(List(vs), rest)
  }

  function ParsePair(i: Bytes): (r: Parse<Entry>)
    ensures r.Match? ==> |r.rest| < |i| && WellFormedEntries([r.value])
    decreases |i|, 0
  {
    match ParseBytes(i)
    case Fail => Fail
    case Match(k, rest) =>
      match ParseType(rest)
      case Fail => Fail
      case Match(v, rest') => Match(Entry(k, v), rest')
  }

  /** `many_till(parse_pair, tag("e"))`. */
  function ParsePairs(i: Bytes): (r: Parse<seq<Entry>>)
    ensures r.Match? ==> |r.rest| < |i| && WellFormedEntries(r.value)
    decreases |i|, 2
  {
    if Starts(i, E) then Match([], i[1..])
    else
      match ParsePair(i)
      case Fail => Fail
      case Match(e, rest) =>
        match ParsePairs(rest)
        case Fail => Fail
        case Match(es, rest') => Match([e] + es, rest')
  }

  function ParseDictionary(i: Bytes): (r: Parse<Bencode>)
    ensures r.Match? ==> |r.rest| < |i| && WellFormed(r.value)
    decreases |i|, 0
  {
    if !Starts(i, D) then Fail
    else
      match ParsePairs(i[1..])
      case Fail => Fail
      case Match(es, rest) =>
        CollectedWellFormed(es);
        Match(Dictionary(Collected(es)), rest)
  }

  /** The first alternative that matches. */
  function ParseType(i: Bytes): (r: Parse<Bencode>)
    ensures r.Match? ==> |r.rest| < |i| && WellFormed(r.value)
    decreases |i|, 1
  {
    if ParseInt(i).Match? then ParseInt(i)
    else if ParseList(i).Match? then ParseList(i)
    else if ParseDictionary(i).Match? then ParseDictionary(i)
    else ParseByteString(i)
  }

  /** `parse_bencode` drops what follows the value. */
  function ParseBencode(i: Bytes): Option<Bencode> {
    match ParseType(i)
    case Fail => None
    case Match(v, _) => Some(v)
  }
}
