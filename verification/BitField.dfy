/**
 Bit fields of src/peer/bitfield.rs: one bit per piece, the highest bit of the first byte
 first. Writing a set of pieces and reading the bits back gives the set.
 */
module BitField {
  import opened Common

  const MASK: bv8 := 0x80

  predicate IsSet(b: bv8, q: nat)
    requires q < 8
  {
    (MASK >> q) & b != 0
  }

  /** `BitFieldReader::get_bit`. */
  function GetBit(bytes: seq<bv8>, bitNum: nat): Option<bool> {
    if bitNum / 8 < |bytes| then Some(IsSet(bytes[bitNum / 8], bitNum % 8)) else None
  }

  /** The pieces a bit field names. */
  function SetBits(bytes: seq<bv8>): (s: set<nat>)
    ensures forall i: nat :: i in s <==> GetBit(bytes, i) == Some(true)
  {
    set i | 0 <= i < 8 * |bytes| && GetBit(bytes, i) == Some(true)
  }

  /** One bit of a byte after another was set. */
  lemma OrBit(b: bv8, p: nat, q: nat)
    requires p < 8 && q < 8
    ensures IsSet(b | (MASK >> p), q) <==> p == q || IsSet(b, q)
  {
    BitApart(p, q);
    var m, n := MASK >> p, MASK >> q;
    OrAnd(b, m, n);
  }

  lemma BitApart(p: nat, q: nat)
    requires p < 8 && q < 8
    ensures (MASK >> q) & (MASK >> p) == if p == q then MASK >> p else 0
    ensures MASK >> p != 0
  {
    var ms := [0x80 as bv8, 0x40, 0x20, 0x10, 8, 4, 2, 1];
    Shifted(p);
    Shifted(q);
  }

  lemma Shifted(p: nat)
    requires p < 8
    ensures MASK >> p == [0x80 as bv8, 0x40, 0x20, 0x10, 8, 4, 2, 1][p]
  {
  }

  lemma OrAnd(b: bv8, m: bv8, n: bv8)
    ensures (n & (b | m) != 0) <==> (n & b != 0) || (n & m != 0)
  {
  }

  lemma ZeroBit(q: nat)
    requires q < 8
    ensures !IsSet(0, q)
  {
  }

  /** The bytes once another bit is put after `written` bits. */
  function Put(bytes: seq<bv8>, written: nat, bit: bool): (r: seq<bv8>)
    requires written % 8 != 0 ==> bytes != []
    ensures |r| == |bytes| + (if written % 8 == 0 then 1 else 0)
  {
    var grown := if written % 8 == 0 then bytes + [0] else bytes;
    if bit then grown[|grown| - 1 := grown[|grown| - 1] | (MASK >> (written % 8))] else grown
  }

  /** The bytes hold exactly the first `n` bits given by `s`; the spare bits are zero. */
  ghost predicate Encodes(bytes: seq<bv8>, s: set<nat>, n: nat) {
    |bytes| == (n + 7) / 8 &&
    forall i: nat :: i < 8 * |bytes| ==> GetBit(bytes, i) == Some(i < n && i in s)
  }

  lemma GrownBit(bytes: seq<bv8>, written: nat, i: nat)
    requires |bytes| == (written + 7) / 8
    ensures var grown := if written % 8 == 0 then bytes + [0] else bytes;
            i < 8 * |grown| ==>
              GetBit(grown, i) == if i / 8 < |bytes| then GetBit(bytes, i) else Some(false)
  {
    ZeroBit(i % 8);
  }

  lemma PutEncodes(bytes: seq<bv8>, s: set<nat>, n: nat)
    requires Encodes(bytes, s, n)
    ensures Encodes(Put(bytes, n, n in s), s, n + 1)
  {
    var grown := if n % 8 == 0 then bytes + [0] else bytes;
    var put := Put(bytes, n, n in s);
    var last := |grown| - 1;
    assert n / 8 == last && |put| == |grown| == (n + 1 + 7) / 8;
    forall i: nat | i < 8 * |put| ensures GetBit(put, i) == Some(i < n + 1 && i in s) {
      GrownBit(bytes, n, i);
      if i / 8 == last {
        OrBit(grown[last], n % 8, i % 8);
        SameByte(i, n);
      }
    }
  }

  /** The bit field of the first `n` pieces of a set. */
  function Packed(s: set<nat>, n: nat): (bytes: seq<bv8>)
    ensures |bytes| == (n + 7) / 8
  {
    if n == 0 then [] else Put(Packed(s, n - 1), n - 1, n - 1 in s)
  }

  lemma {:induction false} PackedEncodes(s: set<nat>, n: nat)
    ensures Encodes(Packed(s, n), s, n)
  {
    hide Put, GetBit;
    if n > 0 {
      PackedEncodes(s, n - 1);
      PutEncodes(Packed(s, n - 1), s, n - 1);
    }
  }

  lemma SameByte(i: nat, n: nat)
    requires i / 8 == n / 8
    ensures i % 8 == n % 8 <==> i == n
  {
  }

  /** The bytes once the first `n` bits of a set are put after `written` bits. */
  function PutSet(bytes: seq<bv8>, written: nat, s: set<nat>, n: nat): (r: seq<bv8>)
    requires written % 8 != 0 ==> bytes != []
    ensures (written + n) % 8 != 0 ==> r != []
    ensures |r| >= |bytes|
  {
    if n == 0 then bytes else Put(PutSet(bytes, written, s, n - 1), written + n - 1, n - 1 in s)
  }

  lemma PutBehind(bytes: seq<bv8>, written: nat, packed: seq<bv8>, n: nat, bit: bool)
    requires written % 8 == 0 && (n % 8 != 0 ==> packed != [])
    ensures Put(bytes + packed, written + n, bit) == bytes + Put(packed, n, bit)
  {
    assert (written + n) % 8 == n % 8;
  }

  /** On a byte boundary the bit field is appended to whatever the buffer holds. */
  lemma {:induction false} PutSetAppends(bytes: seq<bv8>, written: nat, s: set<nat>, n: nat)
    requires written % 8 == 0
    ensures PutSet(bytes, written, s, n) == bytes + Packed(s, n)
  {
    if n > 0 {
      hide Put;
      PutSetAppends(bytes, written, s, n - 1);
      PutBehind(bytes, written, Packed(s, n - 1), n - 1, n - 1 in s);
    }
  }

  /** The source counts bits in 32 bits; only the count modulo 8 matters. */
  class BitFieldWriter {
    var bytes: seq<bv8>
    var bitsWritten: nat

    /** A byte that was begun is there. */
    predicate Valid()
      reads this
    {
      bitsWritten % 8 != 0 ==> bytes != []
    }

    constructor (bytes: seq<bv8>)
      ensures Valid() && this.bytes == bytes && bitsWritten == 0
    {
      this.bytes, bitsWritten := bytes, 0;
    }

    method PutBit(bit: bool)
      requires Valid()
      modifies this
      ensures Valid()
      ensures bytes == Put(old(bytes), old(bitsWritten), bit)
      ensures bitsWritten == old(bitsWritten) + 1
    {
      var bitPos := bitsWritten % 8;
      if bitPos == 0 {
        bytes := bytes + [0];
      }
      var lastBytePos := |bytes| - 1;
      var lastByte := bytes[lastBytePos];
      if bit {
        var mask := MASK >> bitPos;
        lastByte := lastByte | mask;
        bytes := bytes[lastBytePos := lastByte];
      }
      bitsWritten := bitsWritten + 1;
    }

    /** The source truncates the length to 32 bits. */
    method PutBitSet(bits: set<nat>, length: nat)
      requires Valid()
      modifies this
      ensures Valid() && bitsWritten == old(bitsWritten) + length % U32_LIMIT
      ensures bytes == PutSet(old(bytes), old(bitsWritten), bits, length % U32_LIMIT)
      ensures old(bitsWritten) % 8 == 0 ==> bytes == old(bytes) + Packed(bits, length % U32_LIMIT)
    {
      hide Put;
      for i := 0 to length % U32_LIMIT
        invariant Valid() && bitsWritten == old(bitsWritten) + i
        invariant bytes == PutSet(old(bytes), old(bitsWritten), bits, i)
      {
        PutBit(i in bits);
      }
      if old(bitsWritten) % 8 == 0 {
        PutSetAppends(old(bytes), old(bitsWritten), bits, length % U32_LIMIT);
      }
    }
  }

  /** What was written is read back: the pieces named are those of the set, below the length. */
  lemma RoundTrip(s: set<nat>, n: nat)
    ensures var bytes := Packed(s, n);
            && SetBits(bytes) == (set i | i in s && i < n)
            && (forall i: nat :: n <= i < 8 * |bytes| ==> GetBit(bytes, i) == Some(false))
            && (forall i: nat :: 8 * |bytes| <= i ==> GetBit(bytes, i) == None)
            && n <= 8 * |bytes| < n + 8
  {
    hide Packed, IsSet;
    PackedEncodes(s, n);
  }

  /** Only one byte string encodes the first `n` bits of a set. */
  lemma EncodesUnique(a: seq<bv8>, b: seq<bv8>, s: set<nat>, n: nat)
    requires Encodes(a, s, n) && Encodes(b, s, n)
    ensures a == b
  {
    forall k | 0 <= k < |a| ensures a[k] == b[k] {
      forall q: nat | q < 8 ensures IsSet(a[k], q) <==> IsSet(b[k], q) {
        BitOfByte(a, k, q);
        BitOfByte(b, k, q);
      }
      SameBits(a[k], b[k]);
    }
  }

  lemma BitOfByte(bytes: seq<bv8>, k: nat, q: nat)
    requires k < |bytes| && q < 8
    ensures 8 * k + q < 8 * |bytes| && GetBit(bytes, 8 * k + q) == Some(IsSet(bytes[k], q))
  {
    assert (8 * k + q) / 8 == k && (8 * k + q) % 8 == q;
  }

  lemma SameBits(a: bv8, b: bv8)
    requires forall q: nat :: q < 8 ==> (IsSet(a, q) <==> IsSet(b, q))
    ensures a == b
  {
    SameBit(a, b, 0);
    SameBit(a, b, 1);
    SameBit(a, b, 2);
    SameBit(a, b, 3);
    SameBit(a, b, 4);
    SameBit(a, b, 5);
    SameBit(a, b, 6);
    SameBit(a, b, 7);
  }

  lemma SameBit(a: bv8, b: bv8, q: nat)
    requires q < 8 && (IsSet(a, q) <==> IsSet(b, q))
    ensures var m := [0x80 as bv8, 0x40, 0x20, 0x10, 8, 4, 2, 1][q]; m & a != 0 <==> m & b != 0
  {
    Shifted(q);
  }

  /** The bits of a byte, from the highest to the lowest. */
  function Bits(b: bv8): (bits: seq<bool>)
    ensures |bits| == 8
  {
    [b & 0x80 != 0, b & 0x40 != 0, b & 0x20 != 0, b & 0x10 != 0, b & 8 != 0, b & 4 != 0, b & 2 != 0, b & 1 != 0]
  }

  /** The first bit of a bit field is the highest of its first byte. */
  lemma HighestFirst(bytes: seq<bv8>, k: nat, q: nat)
    requires k < |bytes| && q < 8
    ensures GetBit(bytes, 8 * k + q) == Some(Bits(bytes[k])[q])
  {
    hide IsSet, Bits;
    BitOfByte(bytes, k, q);
    BitIs(bytes[k], q);
  }

  lemma BitIs(b: bv8, q: nat)
    requires q < 8
    ensures IsSet(b, q) == Bits(b)[q]
  {
    Shifted(q);
    MaskCommutes(b, [0x80 as bv8, 0x40, 0x20, 0x10, 8, 4, 2, 1][q]);
  }

  lemma MaskCommutes(b: bv8, m: bv8)
    ensures m & b == b & m
  {
  }

  /** For instance, bits 0, 4, 7 and 8 to 12 are the bytes 10001001 and 11111000. */
  lemma PackedBytes()
    ensures Packed({0, 4, 7, 8, 9, 10, 11, 12}, 13) == [0x89, 0xF8]
  {
    hide Packed, GetBit, IsSet;
    var s, bytes := {0, 4, 7, 8, 9, 10, 11, 12}, [0x89 as bv8, 0xF8];
    forall i: nat | i < 16 ensures GetBit(bytes, i) == Some(i < 13 && i in s) {
      HighestFirst(bytes, i / 8, i % 8);
    }
    PackedEncodes(s, 13);
    EncodesUnique(Packed(s, 13), bytes, s, 13);
  }

  class BitFieldReaderIter {
    const bytes: seq<bv8>
    var pos: nat

    constructor (bytes: seq<bv8>)
      ensures this.bytes == bytes && pos == 0
    {
      this.bytes, pos := bytes, 0;
    }

    method Next() returns (v: Option<bool>)
      modifies this
      ensures v == GetBit(bytes, old(pos)) && pos == old(pos) + 1
    {
      v := GetBit(bytes, pos);
      pos := pos + 1;
    }
  }

  /** The handler of a bit field message: the numbers of the bits that are set, in order. */
  method PiecesPresent(bitfield: seq<bv8>) returns (pieces: seq<nat>)
    ensures forall p :: p in pieces <==> p in SetBits(bitfield)
    ensures forall i, j :: 0 <= i < j < |pieces| ==> pieces[i] < pieces[j]
  {
    var iter := new BitFieldReaderIter(bitfield);
    pieces := [];
    var block := 0;
    var wasSet := iter.Next();
    while wasSet.Some?
      invariant iter.bytes == bitfield && fresh(iter) && iter.pos == block + 1
      invariant wasSet == GetBit(bitfield, block) && block <= 8 * |bitfield|
      invariant forall p: nat :: p in pieces <==> p < block && GetBit(bitfield, p) == Some(true)
      invariant forall i :: 0 <= i < |pieces| ==> pieces[i] < block
      invariant forall i, j :: 0 <= i < j < |pieces| ==> pieces[i] < pieces[j]
      decreases 8 * |bitfield| - block
    {
      if wasSet.value {
        pieces := pieces + [block];
      }
      block := block + 1;
      wasSet := iter.Next();
    }
  }
}
