/**
 Which inputs survive parsing and re-encoding byte for byte, as the info hash of a torrent
 needs (src/model/torrent.rs re-encodes the parsed dictionary and hashes the bytes).
 */
module BencodingCanonical {
  import opened Common
  import opened Bencoding
  import opened BencodingLaws

  /** How many digits the input begins with. */
  function DigitCount(i: Bytes): (n: nat)
    ensures n <= |i|
    ensures forall j :: 0 <= j < n ==> IsDigit(i[j])
    ensures n < |i| ==> !IsDigit(i[n])
  {
    if i == [] || !IsDigit(i[0]) then 0 else 1 + DigitCount(i[1..])
  }

  /** No leading zeros. */
  predicate PlainNumber(i: Bytes) {
    DigitCount(i) > 0 && (i[0] == ZERO ==> DigitCount(i) == 1)
  }

  /** No plus sign, no negative zero. */
  predicate PlainInt(i: Bytes) {
    if Starts(i, MINUS) then PlainNumber(i[1..]) && i[1] != ZERO
    else PlainNumber(i)
  }

  /** What matched when a list of pairs matched that is not at its end. */
  lemma PairParts(i: Bytes)
    requires ParsePairs(i).Match? && !Starts(i, E)
    ensures var k := ParseBytes(i); k.Match? && |k.rest| < |i| && ParseType(k.rest).Match?
    ensures var v := ParseType(ParseBytes(i).rest); |v.rest| < |i| && ParsePairs(v.rest).Match?
    ensures ParsePairs(i) ==
              Match([Entry(ParseBytes(i).value, ParseType(ParseBytes(i).rest).value)]
                    + ParsePairs(ParseType(ParseBytes(i).rest).rest).value,
                    ParsePairs(ParseType(ParseBytes(i).rest).rest).rest)
  {
    hide ParseBytes, ParseType;
  }

  ghost predicate Canonical(i: Bytes)
    requires ParseType(i).Match?
    decreases |i|, 1
  {
    if Starts(i, I) then PlainInt(i[1..])
    else if Starts(i, L) then ParseItems(i[1..]).Match? && CanonicalItems(i[1..])
    else if Starts(i, D) then
      ParsePairs(i[1..]).Match? && CanonicalPairs(i[1..]) && Ascending(ParsePairs(i[1..]).value)
    else PlainNumber(i)
  }

  ghost predicate CanonicalItems(i: Bytes)
    requires ParseItems(i).Match?
    decreases |i|, 2
  {
    Starts(i, E) || (Canonical(i) && CanonicalItems(ParseType(i).rest))
  }

  ghost predicate CanonicalPairs(i: Bytes)
    requires ParsePairs(i).Match?
    decreases |i|, 2
  {
    Starts(i, E) ||
    (PairParts(i); PlainNumber(i) && Canonical(ParseBytes(i).rest) && CanonicalPairs(ParseType(ParseBytes(i).rest).rest))
  }

  // ------------------------------------------------------------------ numbers

  /** The value of digits read from the left. */
  function ValueOfDigits(acc: nat, ds: Bytes): nat
    requires forall j :: 0 <= j < |ds| ==> IsDigit(ds[j])
    decreases ds
  {
    if ds == [] then acc else assert IsDigit(ds[0]); ValueOfDigits(acc * 10 + (ds[0] - ZERO), ds[1..])
  }

  lemma {:induction false} ValueOfLast(acc: nat, ds: Bytes, d: byte)
    requires IsDigit(d) && forall j :: 0 <= j < |ds| ==> IsDigit(ds[j])
    ensures ValueOfDigits(acc, ds + [d]) == ValueOfDigits(acc, ds) * 10 + (d - ZERO)
    decreases ds
  {
    if ds == [] {
      assert ds + [d] == [d] && [d][1..] == [];
    } else {
      ValueOfLast(acc * 10 + (ds[0] - ZERO), ds[1..], d);
      assert (ds + [d])[1..] == ds[1..] + [d];
    }
  }

  /** What the number parser reads is the value of the leading digits. */
  lemma {:induction false} ParsedValue(i: Bytes, acc: nat, max: nat, any: bool)
    requires ParseDigits(i, acc, max, any).Match?
    ensures any || DigitCount(i) > 0
    ensures ParseDigits(i, acc, max, any) == Match(ValueOfDigits(acc, i[..DigitCount(i)]), i[DigitCount(i)..])
  {
    if i != [] && IsDigit(i[0]) {
      ParsedValue(i[1..], acc * 10 + (i[0] - ZERO), max, true);
      var n := DigitCount(i);
      assert i[..n][1..] == i[1..][..n - 1] && i[1..][n - 1..] == i[n..];
    }
  }

  lemma {:induction false} ValuePositive(acc: nat, ds: Bytes)
    requires forall j :: 0 <= j < |ds| ==> IsDigit(ds[j])
    requires acc > 0 || (ds != [] && ds[0] != ZERO)
    ensures ValueOfDigits(acc, ds) > 0
    decreases ds
  {
    if ds != [] {
      ValuePositive(acc * 10 + (ds[0] - ZERO), ds[1..]);
    }
  }

  /** Digits without leading zeros are the digits of their value. */
  lemma {:induction false} PlainDigits(ds: Bytes)
    requires ds != [] && (forall j :: 0 <= j < |ds| ==> IsDigit(ds[j])) && (ds[0] == ZERO ==> |ds| == 1)
    ensures Digits(ValueOfDigits(0, ds)) == ds
  {
    var front, d := ds[..|ds| - 1], ds[|ds| - 1];
    LastSplit(ds);
    ValueOfLast(0, front, d);
    if front != [] {
      PlainDigits(front);
      ValuePositive(0, front);
    }
  }

  /** Digits are those of their value exactly when they have no leading zeros. */
  lemma PlainDigitsIff(ds: Bytes)
    requires ds != [] && forall j :: 0 <= j < |ds| ==> IsDigit(ds[j])
    ensures Digits(ValueOfDigits(0, ds)) == ds <==> (ds[0] == ZERO ==> |ds| == 1)
    ensures (ds[0] == ZERO ==> |ds| == 1) ==> (ValueOfDigits(0, ds) == 0 <==> ds[0] == ZERO)
  {
    DigitsAre(ValueOfDigits(0, ds));
    if ds[0] == ZERO ==> |ds| == 1 {
      PlainDigits(ds);
    }
  }

  /** A number is printed as it was written exactly when it was written without leading zeros. */
  lemma NumberExactIff(i: Bytes, max: nat)
    requires ParseDigits(i, 0, max, false).Match?
    ensures var r := ParseDigits(i, 0, max, false);
            && (Digits(r.value) + r.rest == i <==> PlainNumber(i))
            && (PlainNumber(i) ==> (r.value == 0 <==> i[0] == ZERO))
  {
    ParsedValue(i, 0, max, false);
    var n := DigitCount(i);
    var ds, rest := i[..n], i[n..];
    assert i == ds + rest;
    PlainDigitsIff(ds);
    if Digits(ValueOfDigits(0, ds)) + rest == ds + rest {
      SameFront(Digits(ValueOfDigits(0, ds)), ds, rest);
    }
  }

  lemma SameFront<T>(a: seq<T>, b: seq<T>, c: seq<T>)
    requires a + c == b + c
    ensures a == b
  {
    assert |a| == |b|;
    assert a == (a + c)[..|a|] && b == (b + c)[..|b|];
  }

  lemma I64ExactIff(t: Bytes)
    requires ParseI64(t).Match?
    ensures Decimal(ParseI64(t).value) + ParseI64(t).rest == t <==> PlainInt(t)
  {
    hide ParseDigits, Digits, DigitCount;
    var r := ParseI64(t);
    if Starts(t, MINUS) {
      NumberExactIff(t[1..], I64_MAX + 1);
      FirstSplit(t);
      DigitsAre(-r.value);
      assert r.value < 0 ==> Decimal(r.value) + r.rest == [MINUS] + (Digits(-r.value) + r.rest);
      if r.value < 0 && Decimal(r.value) + r.rest == t {
        assert t[1..] == Digits(-r.value) + r.rest;
      }
    } else if Starts(t, PLUS) {
      DigitsAre(r.value);
    } else {
      NumberExactIff(t, I64_MAX);
    }
  }

  /** Removing the same first bytes from both sides. */
  lemma SameBack<T>(a: seq<T>, b: seq<T>, c: seq<T>)
    ensures a + b == a + c <==> b == c
  {
    assert b == (a + b)[|a|..] && c == (a + c)[|a|..];
  }

  lemma IntExactIff(i: Bytes)
    requires ParseInt(i).Match?
    ensures Encoded(ParseInt(i).value) + ParseInt(i).rest == i <==> PlainInt(i[1..])
  {
    hide ParseI64, PlainInt, Decimal;
    var r := ParseI64(i[1..]);
    I64ExactIff(i[1..]);
    FirstSplit(i);
    FirstSplit(r.rest);
    Framed(I, Decimal(r.value), ParseInt(i).rest);
    assert Encoded(ParseInt(i).value) + ParseInt(i).rest == [I] + (Decimal(r.value) + r.rest);
    SameBack([I], Decimal(r.value) + r.rest, i[1..]);
  }

  lemma BytesExactIff(i: Bytes)
    requires ParseBytes(i).Match?
    ensures EncodedBytes(ParseBytes(i).value) + ParseBytes(i).rest == i <==> PlainNumber(i)
  {
    hide ParseDigits, Digits, PlainNumber;
    var r, b := ParseU32(i), ParseBytes(i).value;
    NumberExactIff(i, U32_LIMIT - 1);
    FirstSplit(r.rest);
    assert r.rest[1..] == b + ParseBytes(i).rest;
    SeqAssoc(Digits(|b|), [COLON] + b, ParseBytes(i).rest);
    SeqAssoc([COLON], b, ParseBytes(i).rest);
  }

  // ------------------------------------------------------------------ values

  /** The consumed bytes are reproduced. */
  ghost predicate Exact(i: Bytes)
    requires ParseType(i).Match?
  {
    Encoded(ParseType(i).value) + ParseType(i).rest == i
  }

  ghost predicate ExactItems(i: Bytes)
    requires ParseItems(i).Match?
  {
    EncodedItems(ParseItems(i).value) + ([E] + ParseItems(i).rest) == i
  }

  ghost predicate ExactPairs(i: Bytes)
    requires ParsePairs(i).Match?
  {
    EncodedEntries(ParsePairs(i).value) + ([E] + ParsePairs(i).rest) == i
  }

  /** Which parser matched shows in the first byte. */
  lemma StartsInt(i: Bytes)
    requires ParseType(i).Match? && Starts(i, I)
    ensures ParseInt(i).Match? && ParseType(i) == ParseInt(i)
  {
  }

  lemma StartsList(i: Bytes)
    requires ParseType(i).Match? && Starts(i, L)
    ensures ParseItems(i[1..]).Match?
    ensures ParseType(i) == Match(List(ParseItems(i[1..]).value), ParseItems(i[1..]).rest)
  {
    hide ParseItems;
  }

  lemma StartsDictionary(i: Bytes)
    requires ParseType(i).Match? && Starts(i, D)
    ensures ParsePairs(i[1..]).Match?
    ensures ParseType(i) == Match(Dictionary(Collected(ParsePairs(i[1..]).value)), ParsePairs(i[1..]).rest)
  {
    hide ParsePairs, Collected;
  }

  lemma StartsOther(i: Bytes)
    requires ParseType(i).Match? && !Starts(i, I) && !Starts(i, L) && !Starts(i, D)
    ensures ParseBytes(i).Match?
    ensures ParseType(i) == Match(ByteString(ParseBytes(i).value), ParseBytes(i).rest)
  {
    hide ParseBytes;
  }

  lemma FramedExactIff(i: Bytes, tag: byte, inner: Bytes, rest: Bytes)
    requires Starts(i, tag)
    ensures [tag] + (inner + [E]) + rest == i <==> inner + ([E] + rest) == i[1..]
  {
    FirstSplit(i);
    SeqAssoc([tag], inner + [E], rest);
    SeqAssoc(inner, [E], rest);
    SameBack([tag], inner + ([E] + rest), i[1..]);
  }

  lemma DictionaryExactIff(i: Bytes)
    requires ParseType(i).Match? && Starts(i, D) && ParsePairs(i[1..]).Match?
    ensures Exact(i) <==> ExactPairs(i[1..]) && Ascending(ParsePairs(i[1..]).value)
  {
    StartsDictionary(i);
    hide ParseType, ParsePairs, Collected, EncodedEntries, WellFormedEntries, Ascending;
    var ps, rest := ParsePairs(i[1..]).value, ParsePairs(i[1..]).rest;
    var es := Collected(ps);
    FramedExactIff(i, D, EncodedEntries(es), rest);
    CollectedWellFormed(ps);
    if Ascending(ps) {
      CollectedSame(ps);
    }
    if Exact(i) {
      RoundTripPairs(es, rest);
    }
  }

  /** A repeated part of the text, exact when what precedes and what follows are. */
  lemma FirstItemExact(j: Bytes)
    requires ParseItems(j).Match? && !Starts(j, E)
    ensures ParseType(j).Match? && ParseItems(ParseType(j).rest).Match?
    ensures ExactItems(j) <==> Exact(j) && ExactItems(ParseType(j).rest)
  {
    hide ParseType, Encoded;
    var v, r1 := ParseType(j).value, ParseType(j).rest;
    var vs, rest := ParseItems(r1).value, ParseItems(r1).rest;
    var x := EncodedItems(vs) + ([E] + rest);
    assert ParseItems(j) == Match([v] + vs, rest);
    assert ([v] + vs)[1..] == vs;
    SeqAssoc(Encoded(v), EncodedItems(vs), [E] + rest);
    if Encoded(v) + x == j {
      RoundTrip(v, x);
    }
  }

  lemma {:induction false} ItemsExactIff(j: Bytes)
    requires ParseItems(j).Match?
    ensures ExactItems(j) <==> CanonicalItems(j)
    decreases |j|, 2
  {
    if Starts(j, E) {
      FirstSplit(j);
      assert [] + ([E] + j[1..]) == [E] + j[1..];
    } else {
      FirstItemExact(j);
      hide ParseItems, ParseType, Encoded, EncodedItems, Canonical;
      ReencodeExactIff(j);
      ItemsExactIff(ParseType(j).rest);
    }
  }

  lemma FirstPairExact(j: Bytes)
    requires ParsePairs(j).Match? && !Starts(j, E)
    ensures ParseBytes(j).Match? && ParseType(ParseBytes(j).rest).Match?
    ensures ParsePairs(ParseType(ParseBytes(j).rest).rest).Match?
    ensures ExactPairs(j) <==>
              && EncodedBytes(ParseBytes(j).value) + ParseBytes(j).rest == j
              && Exact(ParseBytes(j).rest)
              && ExactPairs(ParseType(ParseBytes(j).rest).rest)
  {
    PairParts(j);
    hide ParseType, ParsePairs, ParseBytes, Encoded, EncodedBytes, EncodedEntries;
    var k, r0 := ParseBytes(j).value, ParseBytes(j).rest;
    var v, r1 := ParseType(r0).value, ParseType(r0).rest;
    var es, rest := ParsePairs(r1).value, ParsePairs(r1).rest;
    var x := EncodedEntries(es) + ([E] + rest);
    PairsText([Entry(k, v)] + es, [E] + rest);
    assert ([Entry(k, v)] + es)[1..] == es;
    if EncodedBytes(k) + (Encoded(v) + x) == j {
      BytesRoundTrip(k, Encoded(v) + x);
      RoundTrip(v, x);
    }
  }

  lemma {:induction false} PairsExactIff(j: Bytes)
    requires ParsePairs(j).Match?
    ensures ExactPairs(j) <==> CanonicalPairs(j)
    decreases |j|, 2
  {
    if Starts(j, E) {
      FirstSplit(j);
      assert [] + ([E] + j[1..]) == [E] + j[1..];
    } else {
      FirstPairExact(j);
      PairParts(j);
      BytesExactIff(j);
      hide ParsePairs, ParseType, ParseBytes, Encoded, EncodedBytes, EncodedEntries, Canonical, PlainNumber;
      ReencodeExactIff(ParseBytes(j).rest);
      PairsExactIff(ParseType(ParseBytes(j).rest).rest);
    }
  }

  /**
   Parsing and encoding again gives back the bytes exactly when the input is canonical: no
   leading zeros or plus signs, no negative zero, dictionary keys strictly ascending.
   */
  lemma {:induction false} ReencodeExactIff(i: Bytes)
    requires ParseType(i).Match?
    ensures Encoded(ParseType(i).value) + ParseType(i).rest == i <==> Canonical(i)
    decreases |i|, 1
  {
    hide ParseType, ParseItems, ParsePairs, ParseBytes, CanonicalItems, CanonicalPairs;
    if Starts(i, I) {
      StartsInt(i);
      IntExactIff(i);
    } else if Starts(i, L) {
      StartsList(i);
      ItemsExactIff(i[1..]);
      FramedExactIff(i, L, EncodedItems(ParseItems(i[1..]).value), ParseItems(i[1..]).rest);
    } else if Starts(i, D) {
      StartsDictionary(i);
      PairsExactIff(i[1..]);
      DictionaryExactIff(i);
    } else {
      StartsOther(i);
      BytesExactIff(i);
    }
  }

  /** For instance, the bytes of "i+5e" are accepted but come back as those of "i5e". */
  lemma PlusSignIsLost()
    ensures var i := [I, PLUS, ZERO + 5, E];
            && ParseType(i) == Match(Int(5), [])
            && !Canonical(i)
            && Encoded(Int(5)) == [I, ZERO + 5, E] != i
  {
    var i := [I, PLUS, ZERO + 5, E];
    assert i[1..][1..] == [ZERO + 5, E] && [ZERO + 5, E][1..] == [E];
    assert ParseDigits([E], 5, I64_MAX, true) == Match(5, [E]);
    assert ParseDigits([ZERO + 5, E], 0, I64_MAX, false) == Match(5, [E]);
    assert ParseInt(i) == Match(Int(5), []);
  }
}
