/**
 What the bencoding parser accepts beyond what the encoder writes, what it refuses, and the
 bytes themselves (BEP 3, section "bencoding").
 */
module BencodingAcceptance {
  import opened Common
  import opened Bencoding
  import opened BencodingLaws
  import opened BencodingCanonical

  /** The top-level function gives the value and drops what follows it. */
  lemma EncodingAccepted(v: Bencode, t: Bytes)
    requires WellFormed(v)
    ensures ParseBencode(Encoded(v) + t) == Some(v)
  {
    hide ParseType, Encoded;
    RoundTrip(v, t);
  }

  /** A dictionary is accepted with its keys in any order and repeated, and keeps the last value of each. */
  lemma DictionaryAccepted(es: seq<Entry>, t: Bytes, k: Bytes)
    requires WellFormedEntries(es)
    ensures ParseBencode([D] + (EncodedEntries(es) + [E]) + t) == Some(Dictionary(Collected(es)))
    ensures ParseType([D] + (EncodedEntries(es) + [E]) + t) == Match(Dictionary(Collected(es)), t)
    ensures ValueOf(Collected(es), k) == LastOf(es, k)
  {
    Alternatives([D] + (EncodedEntries(es) + [E]) + t);
    hide ParsePairs, ParseType, EncodedEntries, Collected;
    Framed(D, EncodedEntries(es), t);
    RoundTripPairs(es, t);
    LastWins(es, k);
  }

  /** Keys are in order when one begins the other, or at the first byte in which they differ. */
  ghost predicate FirstDiffers(a: Bytes, b: Bytes) {
    (|a| < |b| && a == b[..|a|]) || exists i :: 0 <= i < |a| && i < |b| && DiffersAt(a, b, i)
  }

  predicate DiffersAt(a: Bytes, b: Bytes, i: nat)
    requires i < |a| && i < |b|
  {
    a[..i] == b[..i] && a[i] < b[i]
  }

  lemma {:induction false} LessExact(a: Bytes, b: Bytes)
    ensures Less(a, b) <==> FirstDiffers(a, b)
  {
    if a != [] && b != [] {
      FirstSplit(a);
      FirstSplit(b);
      if a[0] == b[0] {
        LessExact(a[1..], b[1..]);
        TailsDiffer(a, b);
      } else if a[0] < b[0] {
        assert DiffersAt(a, b, 0);
      } else {
        forall i | 0 <= i < |a| && i < |b| ensures !DiffersAt(a, b, i) {
          assert i > 0 ==> a[..i][0] != b[..i][0];
        }
        assert |a| < |b| ==> b[..|a|][0] != a[0];
      }
    }
  }

  lemma TailsDiffer(a: Bytes, b: Bytes)
    requires a != [] && b != [] && a[0] == b[0]
    ensures FirstDiffers(a, b) <==> FirstDiffers(a[1..], b[1..])
  {
    forall i | 0 <= i < |a| - 1 && i < |b| - 1 ensures DiffersAt(a[1..], b[1..], i) <==> DiffersAt(a, b, i + 1) {
      SamePrefixes(a, b, i + 1);
    }
    if i :| 0 <= i < |a| && i < |b| && DiffersAt(a, b, i) {
      assert DiffersAt(a[1..], b[1..], i - 1);
    }
    if |a| < |b| {
      SamePrefixes(a, b, |a|);
    }
  }

  lemma SamePrefixes(a: Bytes, b: Bytes, n: nat)
    requires 0 < n <= |a| && n <= |b| && a[0] == b[0]
    ensures a[..n] == b[..n] <==> a[1..][..n - 1] == b[1..][..n - 1]
  {
    assert a[..n] == [a[0]] + a[1..][..n - 1] && b[..n] == [b[0]] + b[1..][..n - 1];
  }

  // ------------------------------------------------------------------ numbers

  predicate AreDigits(ds: Bytes) {
    forall j :: 0 <= j < |ds| ==> IsDigit(ds[j])
  }

  lemma {:induction false} ValueAtLeast(acc: nat, ds: Bytes)
    requires AreDigits(ds)
    ensures ValueOfDigits(acc, ds) >= acc
    decreases ds
  {
    if ds != [] {
      ValueAtLeast(acc * 10 + (ds[0] - ZERO), ds[1..]);
    }
  }

  lemma {:induction false} DigitsFrom(ds: Bytes, t: Bytes, acc: nat, max: nat, any: bool)
    requires AreDigits(ds) && (any || ds != []) && acc <= max && (t == [] || !IsDigit(t[0]))
    ensures ParseDigits(ds + t, acc, max, any) ==
              if ValueOfDigits(acc, ds) <= max then Match(ValueOfDigits(acc, ds), t) else Fail
    decreases ds
  {
    if ds == [] {
      assert ds + t == t;
    } else {
      TailConcat(ds, t);
      var next := acc * 10 + (ds[0] - ZERO);
      if next <= max {
        DigitsFrom(ds[1..], t, next, max, true);
      } else {
        ValueAtLeast(next, ds[1..]);
      }
    }
  }

  /** Any digits are read as their value, leading zeros or not, exactly when the value fits. */
  lemma NumberAcceptedIff(ds: Bytes, t: Bytes, max: nat)
    requires AreDigits(ds) && ds != [] && (t == [] || !IsDigit(t[0]))
    ensures ParseDigits(ds + t, 0, max, false) ==
              if ValueOfDigits(0, ds) <= max then Match(ValueOfDigits(0, ds), t) else Fail
  {
    DigitsFrom(ds, t, 0, max, false);
  }

  /** How a number may be signed. */
  datatype Sign = Unsigned | Plus | Minus {
    function Text(): Bytes {
      match this
      case Unsigned => []
      case Plus => [PLUS]
      case Minus => [MINUS]
    }

    function Of(n: nat): int {
      var m: int := n;
      if Minus? then -m else m
    }
  }

  lemma SignedParsed(sign: Sign, ds: Bytes, t: Bytes)
    requires AreDigits(ds) && ds != [] && (t == [] || !IsDigit(t[0]))
    ensures var n := sign.Of(ValueOfDigits(0, ds));
            ParseI64(sign.Text() + ds + t) == if -I64_MAX - 1 <= n <= I64_MAX then Match(n, t) else Fail
  {
    hide ParseDigits, ValueOfDigits;
    NumberAcceptedIff(ds, t, if sign.Minus? then I64_MAX + 1 else I64_MAX);
    var i := sign.Text() + ds + t;
    if sign.Unsigned? {
      assert i == ds + t;
    } else {
      assert i[1..] == ds + t;
    }
  }

  /** An integer, signed or not and with leading zeros or not, is accepted exactly when it fits. */
  lemma IntAcceptedIff(sign: Sign, ds: Bytes, t: Bytes)
    requires AreDigits(ds) && ds != []
    ensures var n := sign.Of(ValueOfDigits(0, ds));
            ParseType([I] + (sign.Text() + ds + ([E] + t))) ==
              if -I64_MAX - 1 <= n <= I64_MAX then Match(Int(n), t) else Fail
  {
    hide ParseI64, ValueOfDigits, ParseItems, ParsePairs, ParseDigits, Sign.Text;
    SignedParsed(sign, ds, [E] + t);
    var text := sign.Text() + ds + ([E] + t);
    var i := [I] + text;
    assert i[1..] == text && ([E] + t)[1..] == t;
    NoNumber(i);
  }

  lemma NoNumber(i: Bytes)
    requires i == [] || !IsDigit(i[0])
    ensures ParseU32(i) == Fail
  {
  }

  /** A byte string is accepted exactly when its length fits and that many bytes follow. */
  lemma BytesAcceptedIff(ds: Bytes, rest: Bytes)
    requires AreDigits(ds) && ds != []
    ensures var n := ValueOfDigits(0, ds);
            ParseBytes(ds + ([COLON] + rest)) ==
              if n < U32_LIMIT && n <= |rest| then Match(rest[..n], rest[n..]) else Fail
  {
    hide ParseDigits, ValueOfDigits;
    NumberAcceptedIff(ds, [COLON] + rest, U32_LIMIT - 1);
    assert ([COLON] + rest)[1..] == rest;
  }

  /** Nothing else begins a value. */
  lemma FirstByteNeeded(i: Bytes)
    requires ParseType(i).Match?
    ensures i != [] && (i[0] in [I, L, D] || IsDigit(i[0]))
  {
    hide ParseI64, ParseItems, ParsePairs;
    if i == [] || !IsDigit(i[0]) {
      NoNumber(i);
    }
  }

  // ------------------------------------------------------------------ the bytes

  const COW: Bytes := [99, 111, 119]
  const MOO: Bytes := [109, 111, 111]
  const SPAM: Bytes := [115, 112, 97, 109]
  const EGGS: Bytes := [101, 103, 103, 115]

  /** Strings and integers as BEP 3 writes them: `4:spam`, `i3e`, `i-3e`, `i0e`. */
  lemma SimpleBytes()
    ensures Encoded(ByteString(SPAM)) == [52, 58, 115, 112, 97, 109]
    ensures Encoded(Int(3)) == [105, 51, 101]
    ensures Encoded(Int(-3)) == [105, 45, 51, 101]
    ensures Encoded(Int(0)) == [105, 48, 101]
    ensures Digits(120) == [49, 50, 48]
  {
    assert Digits(12) == [49, 50];
  }

  lemma TwoItems(a: Bencode, b: Bencode)
    ensures Encoded(List([a, b])) == [L] + Encoded(a) + Encoded(b) + [E]
  {
    var items := [a, b];
    assert items[1..] == [b] && items[1..][1..] == [];
    assert EncodedItems(items[1..]) == Encoded(b);
    assert EncodedItems(items) == Encoded(a) + Encoded(b);
  }

  lemma TwoEntries(d: Entry, e: Entry)
    ensures Encoded(Dictionary([d, e])) ==
              [D] + EncodedBytes(d.key) + Encoded(d.value) + EncodedBytes(e.key) + Encoded(e.value) + [E]
  {
    hide EncodedBytes;
    var es := [d, e];
    assert es[1..] == [e] && es[1..][1..] == [];
    assert EncodedEntries(es[1..]) == EncodedBytes(e.key) + Encoded(e.value);
    assert EncodedEntries(es) == EncodedBytes(d.key) + (Encoded(d.value) + EncodedEntries(es[1..]));
  }

  lemma Words()
    ensures EncodedBytes(SPAM) == [52, 58, 115, 112, 97, 109] && EncodedBytes(EGGS) == [52, 58, 101, 103, 103, 115]
    ensures EncodedBytes(COW) == [51, 58, 99, 111, 119] && EncodedBytes(MOO) == [51, 58, 109, 111, 111]
  {
  }

  /** A dictionary that came with `spam` before `cow` has `cow` first. */
  lemma Sorted()
    ensures var cow, spam := Entry(COW, ByteString(MOO)), Entry(SPAM, ByteString(EGGS));
            Collected([spam] + [cow]) == [cow] + [spam]
  {
    var cow, spam := Entry(COW, ByteString(MOO)), Entry(SPAM, ByteString(EGGS));
    assert ([spam] + [cow])[..1] == [spam] && [spam][..0] == [];
    assert Collected([spam]) == [spam];
    assert Less(COW, SPAM);
  }

  /** And lists and dictionaries: `l4:spam4:eggse`, `d3:cow3:moo4:spam4:eggse`. */
  lemma CompoundBytes()
    ensures Encoded(List([ByteString(SPAM), ByteString(EGGS)])) ==
              [108] + [52, 58, 115, 112, 97, 109] + [52, 58, 101, 103, 103, 115] + [101]
    ensures Encoded(Dictionary([Entry(COW, ByteString(MOO)), Entry(SPAM, ByteString(EGGS))])) ==
              [100] + [51, 58, 99, 111, 119] + [51, 58, 109, 111, 111]
              + [52, 58, 115, 112, 97, 109] + [52, 58, 101, 103, 103, 115] + [101]
  {
    hide EncodedBytes, EncodedItems, EncodedEntries;
    Words();
    TwoItems(ByteString(SPAM), ByteString(EGGS));
    TwoEntries(Entry(COW, ByteString(MOO)), Entry(SPAM, ByteString(EGGS)));
  }
}
