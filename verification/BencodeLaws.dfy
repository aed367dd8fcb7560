/**
 Parsing undoes encoding, for every value and whatever follows; and parsing what was
 re-encoded gives the value that was parsed.
 */
module BencodingLaws {
  import opened Common
  import opened Bencoding

  // ------------------------------------------------------------------ numbers

  lemma {:induction false} DigitsAre(n: nat)
    ensures forall i :: 0 <= i < |Digits(n)| ==> IsDigit(Digits(n)[i])
    ensures Digits(n)[0] == ZERO <==> n == 0
  {
    if n >= 10 {
      DigitsAre(n / 10);
    }
  }

  lemma DigitParsed(d: byte, t: Bytes, acc: nat, max: nat, any: bool)
    requires IsDigit(d) && acc * 10 + (d - ZERO) <= max
    ensures ParseDigits([d] + t, acc, max, any) == ParseDigits(t, acc * 10 + (d - ZERO), max, true)
  {
    assert ([d] + t)[1..] == t;
  }

  /** The digits of a number are read as that number. */
  lemma {:induction false} DigitsParsed(n: nat, t: Bytes, max: nat)
    requires n <= max
    ensures ParseDigits(Digits(n) + t, 0, max, false) == ParseDigits(t, n, max, true)
  {
    hide ParseDigits;
    if n < 10 {
      DigitParsed(ZERO + n, t, 0, max, false);
    } else {
      DigitsParsed(n / 10, [ZERO + n % 10] + t, max);
      SeqAssoc(Digits(n / 10), [ZERO + n % 10], t);
      DigitParsed(ZERO + n % 10, t, n / 10, max, true);
    }
  }

  lemma NumberParsed(n: nat, t: Bytes, max: nat)
    requires n <= max && t != [] && !IsDigit(t[0])
    ensures ParseDigits(Digits(n) + t, 0, max, false) == Match(n, t)
  {
    DigitsParsed(n, t, max);
  }

  lemma DecimalParsed(i: int, t: Bytes)
    requires WellFormed(Int(i)) && t != [] && !IsDigit(t[0])
    ensures ParseI64(Decimal(i) + t) == Match(i, t)
  {
    hide ParseDigits, Digits;
    if i < 0 {
      NumberParsed(-i, t, I64_MAX + 1);
      assert (Decimal(i) + t)[1..] == Digits(-i) + t;
    } else {
      DigitsAre(i);
      NumberParsed(i, t, I64_MAX);
    }
  }

  lemma IntRoundTrip(i: int, t: Bytes)
    requires WellFormed(Int(i))
    ensures ParseInt(Encoded(Int(i)) + t) == Match(Int(i), t)
  {
    hide ParseI64, Decimal;
    Framed(I, Decimal(i), t);
    DecimalParsed(i, [E] + t);
    assert ([E] + t)[1..] == t;
  }

  lemma BytesRoundTrip(b: Bytes, t: Bytes)
    requires |b| < U32_LIMIT
    ensures ParseBytes(EncodedBytes(b) + t) == Match(b, t)
  {
    SeqAssoc(Digits(|b|), [COLON] + b, t);
    SeqAssoc([COLON], b, t);
    NumberParsed(|b|, [COLON] + (b + t), U32_LIMIT - 1);
    assert ([COLON] + (b + t))[1..] == b + t;
    assert (b + t)[..|b|] == b && (b + t)[|b|..] == t;
  }

  // ------------------------------------------------------------------ values

  /** The kind of a value shows in its first byte, and `e` begins none. */
  lemma FirstByte(v: Bencode)
    ensures Encoded(v) != []
    ensures match v
            case Int(_) => Encoded(v)[0] == I
            case ByteString(_) => IsDigit(Encoded(v)[0])
            case List(_) => Encoded(v)[0] == L
            case Dictionary(_) => Encoded(v)[0] == D
  {
    if v.ByteString? {
      DigitsAre(|v.bytes|);
    }
  }

  /** The alternatives exclude each other by their first byte. */
  lemma Alternatives(i: Bytes)
    requires i != []
    ensures i[0] == I && ParseInt(i).Match? ==> ParseType(i) == ParseInt(i)
    ensures i[0] == L && ParseList(i).Match? ==> ParseType(i) == ParseList(i)
    ensures i[0] == D && ParseDictionary(i).Match? ==> ParseType(i) == ParseDictionary(i)
    ensures IsDigit(i[0]) ==> ParseType(i) == ParseByteString(i)
  {
  }

  /** Parsing an encoding followed by anything gives the value and exactly what followed. */
  lemma {:induction false} RoundTrip(v: Bencode, t: Bytes)
    requires WellFormed(v)
    ensures ParseType(Encoded(v) + t) == Match(v, t)
    decreases v, 1
  {
    FirstByte(v);
    Alternatives(Encoded(v) + t);
    hide ParseType, ParseItems, ParsePairs, ParseBytes, Collected, EncodedItems, EncodedEntries, EncodedBytes;
    match v
    case Int(i) =>
      IntRoundTrip(i, t);
    case ByteString(bytes) =>
      BytesRoundTrip(bytes, t);
    case List(items) =>
      RoundTripItems(items, t);
      Framed(L, EncodedItems(items), t);
    case Dictionary(entries) =>
      RoundTripPairs(entries, t);
      CollectedSame(entries);
      Framed(D, EncodedEntries(entries), t);
  }

  lemma Framed(tag: byte, inner: Bytes, t: Bytes)
    ensures var text := [tag] + (inner + [E]) + t; text[0] == tag && text[1..] == inner + ([E] + t)
  {
  }

  lemma {:induction false} RoundTripItems(vs: seq<Bencode>, t: Bytes)
    requires WellFormedItems(vs)
    ensures ParseItems(EncodedItems(vs) + ([E] + t)) == Match(vs, t)
    decreases vs, 0
  {
    if vs == [] {
      assert EncodedItems(vs) + ([E] + t) == [E] + t && ([E] + t)[1..] == t;
    } else {
      var rest := EncodedItems(vs[1..]) + ([E] + t);
      SeqAssoc(Encoded(vs[0]), EncodedItems(vs[1..]), [E] + t);
      FirstByte(vs[0]);
      RoundTrip(vs[0], rest);
      RoundTripItems(vs[1..], t);
      FirstSplit(vs);
    }
  }

  lemma PairParsed(k: Bytes, v: Bencode, rest: Bytes)
    requires |k| < U32_LIMIT && ParseType(Encoded(v) + rest) == Match(v, rest)
    ensures ParsePair(EncodedBytes(k) + (Encoded(v) + rest)) == Match(Entry(k, v), rest)
    ensures !Starts(EncodedBytes(k) + (Encoded(v) + rest), E)
  {
    hide ParseType, ParseBytes, Encoded;
    BytesRoundTrip(k, Encoded(v) + rest);
    DigitsAre(|k|);
  }

  lemma PairsText(es: seq<Entry>, t: Bytes)
    requires es != []
    ensures EncodedEntries(es) + t ==
              EncodedBytes(es[0].key) + (Encoded(es[0].value) + (EncodedEntries(es[1..]) + t))
  {
    hide Encoded, EncodedBytes;
    SeqAssoc(EncodedBytes(es[0].key), Encoded(es[0].value) + EncodedEntries(es[1..]), t);
    SeqAssoc(Encoded(es[0].value), EncodedEntries(es[1..]), t);
  }

  lemma NoPairs(t: Bytes)
    ensures ParsePairs(EncodedEntries([]) + ([E] + t)) == Match([], t)
  {
    assert [] + ([E] + t) == [E] + t && ([E] + t)[1..] == t;
  }

  lemma PairsStep(i: Bytes, e: Entry, rest: Bytes, es: seq<Entry>, t: Bytes)
    requires !Starts(i, E) && ParsePair(i) == Match(e, rest) && ParsePairs(rest) == Match(es, t)
    ensures ParsePairs(i) == Match([e] + es, t)
  {
  }

  lemma {:induction false} RoundTripPairs(es: seq<Entry>, t: Bytes)
    requires WellFormedEntries(es)
    ensures ParsePairs(EncodedEntries(es) + ([E] + t)) == Match(es, t)
    decreases es, 0
  {
    if es == [] {
      NoPairs(t);
    } else {
      var rest := EncodedEntries(es[1..]) + ([E] + t);
      PairsText(es, [E] + t);
      RoundTrip(es[0].value, rest);
      RoundTripPairs(es[1..], t);
      hide ParsePair, ParsePairs, ParseType, Encoded, EncodedBytes, EncodedEntries;
      PairParsed(es[0].key, es[0].value, rest);
      PairsStep(EncodedEntries(es) + ([E] + t), es[0], rest, es[1..], t);
      FirstSplit(es);
    }
  }

  lemma {:induction false} InsertedLast(es: seq<Entry>, e: Entry)
    requires forall x :: x in es ==> Less(x.key, e.key)
    ensures Inserted(es, e) == es + [e]
  {
    if es != [] {
      if Less(e.key, es[0].key) {
        LessTransitive(e.key, es[0].key, e.key);
      }
      LessIrreflexive(e.key);
      InsertedLast(es[1..], e);
      FirstSplit(es);
    }
  }

  /** Entries that are in order already are collected as they are. */
  lemma {:induction false} CollectedSame(es: seq<Entry>)
    requires Ascending(es)
    ensures Collected(es) == es
  {
    if es != [] {
      var front := es[..|es| - 1];
      LastSplit(es);
      assert forall i :: 0 <= i < |front| ==> Less(front[i].key, es[|es| - 1].key);
      CollectedSame(front);
      InsertedLast(front, es[|es| - 1]);
    }
  }

  /** No encoding is another one, or begins with another one. */
  lemma PrefixFree(v: Bencode, w: Bencode, r: Bytes, q: Bytes)
    requires WellFormed(v) && WellFormed(w)
    requires Encoded(v) + r == Encoded(w) + q
    ensures v == w && r == q
  {
    RoundTrip(v, r);
    RoundTrip(w, q);
  }

  /** Whatever was accepted, parsing its re-encoding gives the same value. */
  lemma ReparseSame(i: Bytes)
    requires ParseType(i).Match?
    ensures ParseType(Encoded(ParseType(i).value)) == Match(ParseType(i).value, [])
    ensures ParseBencode(Encoded(ParseType(i).value)) == ParseBencode(i)
  {
    var v := ParseType(i).value;
    RoundTrip(v, []);
    assert Encoded(v) + [] == Encoded(v);
  }

  // ------------------------------------------------------------------ duplicate keys

  /** The value of the last pair with the key. */
  function LastOf(es: seq<Entry>, k: Bytes): Option<Bencode> {
    if es == [] then None
    else if es[|es| - 1].key == k then Some(es[|es| - 1].value)
    else LastOf(es[..|es| - 1], k)
  }

  /** The value of the first entry with the key; in a map there is at most one. */
  function ValueOf(es: seq<Entry>, k: Bytes): Option<Bencode> {
    if es == [] then None else if es[0].key == k then Some(es[0].value) else ValueOf(es[1..], k)
  }

  lemma {:induction false} AbsentBelow(es: seq<Entry>, k: Bytes)
    requires forall x :: x in es ==> Less(k, x.key)
    ensures ValueOf(es, k) == None
  {
    LessIrreflexive(k);
    if es != [] {
      AbsentBelow(es[1..], k);
    }
  }

  lemma {:induction false} InsertedValue(es: seq<Entry>, e: Entry, k: Bytes)
    requires Ascending(es)
    ensures ValueOf(Inserted(es, e), k) == if k == e.key then Some(e.value) else ValueOf(es, k)
  {
    if es != [] {
      AscendingTail(es);
      if Less(e.key, es[0].key) {
      } else if es[0].key != e.key {
        InsertedValue(es[1..], e, k);
      }
    }
  }

  /** A key that occurs several times keeps the value that came last. */
  lemma {:induction false} LastWins(es: seq<Entry>, k: Bytes)
    requires WellFormedEntries(es)
    ensures ValueOf(Collected(es), k) == LastOf(es, k)
  {
    if es != [] {
      WellFormedFront(es);
      CollectedWellFormed(es[..|es| - 1]);
      LastWins(es[..|es| - 1], k);
      InsertedValue(Collected(es[..|es| - 1]), es[|es| - 1], k);
    }
  }
}
