/**
 Peer messages on the wire (src/peer/protocol.rs), as BEP 3 has them in its section "peer
 messages": a big-endian length, an id, a payload. `Encoded` and `Decode` are the values
 that `EncodeMessage` and `DecodeMessage` compute by filling a buffer and moving a cursor.
 */
module Protocol {
  import opened Common

  type u32 = x: int | 0 <= x < 0x1_0000_0000

  datatype FlagMessage = Choke | Unchoke | Interested | NotInterested {
    function Id(): byte {
      match this
      case Choke => 0
      case Unchoke => 1
      case Interested => 2
      case NotInterested => 3
    }
  }

  function FlagOf(id: byte): (r: Option<FlagMessage>)
    ensures r.Some? <==> id <= 3
    ensures r.Some? ==> r.value.Id() == id
  {
    match id
    case 0 => Some(Choke)
    case 1 => Some(Unchoke)
    case 2 => Some(Interested)
    case 3 => Some(NotInterested)
    case _ => None
  }

  datatype Message =
    | KeepAlive
    | Flag(flag: FlagMessage)
    | Have(pieceIndex: u32)
    | BitField(bitfield: seq<byte>)
    | Request(index: u32, begin: u32, length: u32)
    | Piece(index: u32, begin: u32, block: seq<byte>)
    | Cancel(index: u32, begin: u32, length: u32)

  /** The length field can hold the length. */
  predicate Encodable(m: Message) {
    match m
    case BitField(bitfield) => 1 + |bitfield| < U32_LIMIT
    case Piece(_, _, block) => 9 + |block| < U32_LIMIT
    case _ => true
  }

  // ------------------------------------------------------------------ numbers

  function U32Bytes(n: u32): (bs: seq<byte>)
    ensures |bs| == 4
  {
    [n / 0x100_0000, n / 0x1_0000 % 256, n / 0x100 % 256, n % 256]
  }

  function U32Value(b: seq<byte>): u32
    requires |b| >= 4
  {
    var b0: int, b1: int, b2: int := b[0], b[1], b[2];
    b0 * 0x100_0000 + b1 * 0x1_0000 + b2 * 0x100 + b[3]
  }

  lemma U32RoundTrip(n: u32, tail: seq<byte>)
    ensures U32Value(U32Bytes(n) + tail) == n
    ensures (U32Bytes(n) + tail)[4..] == tail
  {
    var a, b, c := n / 0x100, n / 0x1_0000, n / 0x100_0000;
    assert n == a * 256 + n % 256;
    assert a == b * 256 + a % 256;
    assert b == c * 256 + b % 256;
  }

  /** A length as the source casts it, dropping what does not fit. */
  function AsU32(n: nat): u32 {
    n % U32_LIMIT
  }

  // ------------------------------------------------------------------ encoding

  function Id(m: Message): byte
    requires !m.KeepAlive?
  {
    match m
    case Flag(flag) => flag.Id()
    case Have(_) => 4
    case BitField(_) => 5
    case Request(_, _, _) => 6
    case Piece(_, _, _) => 7
    case Cancel(_, _, _) => 8
  }

  function Triple(a: u32, b: u32, c: u32): seq<byte> {
    U32Bytes(a) + (U32Bytes(b) + U32Bytes(c))
  }

  function Payload(m: Message): seq<byte> {
    match m
    case KeepAlive => []
    case Flag(_) => []
    case Have(pieceIndex) => U32Bytes(pieceIndex)
    case BitField(bitfield) => bitfield
    case Request(index, begin, length) => Triple(index, begin, length)
    case Piece(index, begin, block) => U32Bytes(index) + (U32Bytes(begin) + block)
    case Cancel(index, begin, length) => Triple(index, begin, length)
  }

  /** The length of what follows, the id, the payload; a keep-alive is just the length 0. */
  function Encoded(m: Message): seq<byte> {
    if m.KeepAlive? then U32Bytes(0) else U32Bytes(AsU32(1 + |Payload(m)|)) + ([Id(m)] + Payload(m))
  }

  /** The growing buffer that messages are written to. */
  class ByteBuffer {
    var data: seq<byte>

    constructor ()
      ensures data == []
    {
      data := [];
    }

    method PutU8(b: byte)
      modifies this
      ensures data == old(data) + [b]
    {
      data := data + [b];
    }

    method PutU32(n: u32)
      modifies this
      ensures data == old(data) + U32Bytes(n)
    {
      data := data + U32Bytes(n);
    }

    method PutSlice(s: seq<byte>)
      modifies this
      ensures data == old(data) + s
    {
      data := data + s;
    }
  }

  method EncodeMessage(m: Message, buf: ByteBuffer)
    modifies buf
    ensures buf.data == old(buf.data) + Encoded(m)
  {
    hide U32Bytes;
    match m {
      case KeepAlive =>
        buf.PutU32(0);
      case Flag(flag) =>
        PutHeader(1, flag.Id(), buf, []);
        assert buf.data + [] == buf.data;
      case Have(pieceIndex) =>
        PutHeader(5, 4, buf, Payload(m));
        buf.PutU32(pieceIndex);
      case BitField(bitfield) =>
        PutHeader(AsU32(1 + |bitfield|), 5, buf, Payload(m));
        buf.PutSlice(bitfield);
      case Request(index, begin, length) =>
        PutHeader(13, 6, buf, Payload(m));
        PutTriple(index, begin, length, buf);
      case Piece(index, begin, block) =>
        PutHeader(AsU32(9 + |block|), 7, buf, Payload(m));
        PutBlock(index, begin, block, buf);
      case Cancel(index, begin, length) =>
        PutHeader(13, 8, buf, Payload(m));
        PutTriple(index, begin, length, buf);
    }
  }

  /** The length and the id; `payload` is what the caller puts next. */
  method PutHeader(len: u32, id: byte, buf: ByteBuffer, ghost payload: seq<byte>)
    modifies buf
    ensures buf.data + payload == old(buf.data) + (U32Bytes(len) + ([id] + payload))
  {
    hide U32Bytes;
    ghost var was := buf.data;
    buf.PutU32(len);
    buf.PutU8(id);
    SeqAssoc(was, U32Bytes(len), [id] + payload);
    SeqAssoc(was + U32Bytes(len), [id], payload);
  }

  method PutBlock(index: u32, begin: u32, block: seq<byte>, buf: ByteBuffer)
    modifies buf
    ensures buf.data == old(buf.data) + (U32Bytes(index) + (U32Bytes(begin) + block))
  {
    hide U32Bytes;
    ghost var was := buf.data;
    buf.PutU32(index);
    buf.PutU32(begin);
    buf.PutSlice(block);
    SeqAssoc(was, U32Bytes(index), U32Bytes(begin) + block);
    SeqAssoc(was + U32Bytes(index), U32Bytes(begin), block);
  }

  method PutTriple(a: u32, b: u32, c: u32, buf: ByteBuffer)
    modifies buf
    ensures buf.data == old(buf.data) + Triple(a, b, c)
  {
    hide U32Bytes;
    buf.PutU32(a);
    buf.PutU32(b);
    buf.PutU32(c);
  }

  // ------------------------------------------------------------------ decoding

  /**
   A message and the bytes after it; or the number of bytes some read asked for in vain; or
   an unknown id; or, for a `Piece` shorter than its header, an arithmetic underflow.
   */
  datatype Decoded = Got(message: Message, rest: seq<byte>) | Needs(requested: nat) | BadId | Underflow

  function Decode(b: seq<byte>): Decoded {
    if |b| < 4 then Needs(4)
    else
      var len := U32Value(b);
      var r := b[4..];
      if len == 0 then Got(KeepAlive, r)
      else if len > |r| then Needs(len)
      else DecodeBody(len, r[0], r[1..])
  }

  /** After the length and the id. */
  function DecodeBody(len: nat, id: byte, r: seq<byte>): Decoded
    requires 1 <= len <= |r| + 1
  {
    if id == 4 then
      if |r| < 4 then Needs(4) else Got(Have(U32Value(r)), r[4..])
    else if id == 5 then
      Got(BitField(r[..len - 1]), r[len - 1..])
    else if id == 6 then
      if |r| < 12 then Needs(4) else Got(Request(U32Value(r), U32Value(r[4..]), U32Value(r[8..])), r[12..])
    else if id == 7 then
      if |r| < 8 then Needs(4)
      else if len < 9 then Underflow
      else Got(Piece(U32Value(r), U32Value(r[4..]), r[8..len - 1]), r[len - 1..])
    else if id == 8 then
      if |r| < 12 then Needs(4) else Got(Cancel(U32Value(r), U32Value(r[4..]), U32Value(r[8..])), r[12..])
    else if len == 1 && id <= 3 then
      Got(Flag(FlagOf(id).value), r)
    else BadId
  }

  /** A cursor over received bytes; its reads fail without moving. */
  class Cursor {
    var data: seq<byte>

    constructor (data: seq<byte>)
      ensures this.data == data
    {
      this.data := data;
    }

    method TryGetU8() returns (b: Option<byte>)
      modifies this
      ensures old(data) == [] ==> b == None && data == old(data)
      ensures old(data) != [] ==> b == Some(old(data)[0]) && data == old(data)[1..]
    {
      if data == [] {
        return None;
      }
      b := Some(data[0]);
      data := data[1..];
    }

    method TryGetU32() returns (n: Option<u32>)
      modifies this
      ensures |old(data)| < 4 ==> n == None && data == old(data)
      ensures |old(data)| >= 4 ==> n == Some(U32Value(old(data))) && data == old(data)[4..]
    {
      if |data| < 4 {
        return None;
      }
      n := Some(U32Value(data));
      data := data[4..];
    }

    method TryCopyToSlice(n: nat) returns (s: Option<seq<byte>>)
      modifies this
      ensures |old(data)| < n ==> s == None && data == old(data)
      ensures |old(data)| >= n ==> s == Some(old(data)[..n]) && data == old(data)[n..]
    {
      if |data| < n {
        return None;
      }
      s := Some(data[..n]);
      data := data[n..];
    }

    /** Three numbers, as requests and cancellations have them. */
    method TryGetTriple() returns (t: Option<(u32, u32, u32)>)
      modifies this
      ensures |old(data)| < 12 ==> t == None
      ensures |old(data)| >= 12 ==>
                && t == Some((U32Value(old(data)), U32Value(old(data)[4..]), U32Value(old(data)[8..])))
                && data == old(data)[12..]
    {
      var index := TryGetU32();
      if index.None? {
        return None;
      }
      var begin := TryGetU32();
      if begin.None? {
        return None;
      }
      var length := TryGetU32();
      if length.None? {
        return None;
      }
      t := Some((index.value, begin.value, length.value));
    }
  }

  method DecodeMessage(b: Cursor) returns (r: Decoded)
    modifies b
    ensures r == Decode(old(b.data))
    ensures r.Got? ==> b.data == r.rest
  {
    hide U32Value;
    var length := b.TryGetU32();
    if length.None? {
      return Needs(4);
    }
    var len := length.value;
    if len == 0 {
      return Got(KeepAlive, b.data);
    }
    if len > |b.data| {
      return Needs(len);
    }
    var id := b.TryGetU8();
    ghost var body := b.data;
    match id.value {
      case 4 =>
        var pieceIndex := b.TryGetU32();
        r := if pieceIndex.None? then Needs(4) else Got(Have(pieceIndex.value), b.data);
      case 5 =>
        var bitfield := b.TryCopyToSlice(len - 1);
        r := Got(BitField(bitfield.value), b.data);
      case 6 =>
        var t := b.TryGetTriple();
        r := if t.None? then Needs(4) else Got(Request(t.value.0, t.value.1, t.value.2), b.data);
      case 7 =>
        var index := b.TryGetU32();
        if index.None? {
          return Needs(4);
        }
        var begin := b.TryGetU32();
        if begin.None? {
          return Needs(4);
        }
        if len < 9 {
          return Underflow;
        }
        var block := b.TryCopyToSlice(len - 9);
        assert body[8..][..len - 9] == body[8..len - 1] && body[8..][len - 9..] == body[len - 1..];
        r := Got(Piece(index.value, begin.value, block.value), b.data);
      case 8 =>
        var t := b.TryGetTriple();
        r := if t.None? then Needs(4) else Got(Cancel(t.value.0, t.value.1, t.value.2), b.data);
      case i =>
        r := if len == 1 && i <= 3 then Got(Flag(FlagOf(i).value), b.data) else BadId;
    }
  }

  // ------------------------------------------------------------------ laws

  lemma TripleRoundTrip(a: u32, b: u32, c: u32, tail: seq<byte>)
    ensures var r := Triple(a, b, c) + tail;
            U32Value(r) == a && U32Value(r[4..]) == b && U32Value(r[8..]) == c && r[12..] == tail
  {
    hide U32Bytes, U32Value;
    var r := Triple(a, b, c) + tail;
    assert r == U32Bytes(a) + (U32Bytes(b) + (U32Bytes(c) + tail));
    U32RoundTrip(a, U32Bytes(b) + (U32Bytes(c) + tail));
    U32RoundTrip(b, U32Bytes(c) + tail);
    U32RoundTrip(c, tail);
    assert r[4..][4..] == r[8..] && r[8..][4..] == r[12..];
  }

  lemma BodyRoundTrip(m: Message, tail: seq<byte>)
    requires Encodable(m) && !m.KeepAlive?
    ensures DecodeBody(1 + |Payload(m)|, Id(m), Payload(m) + tail) == Got(m, tail)
  {
    hide U32Bytes, U32Value, Triple;
    match m
    case Flag(_) =>
      assert Payload(m) + tail == tail;
    case Have(pieceIndex) =>
      U32RoundTrip(pieceIndex, tail);
    case BitField(bitfield) =>
      assert (bitfield + tail)[..|bitfield|] == bitfield && (bitfield + tail)[|bitfield|..] == tail;
    case Request(index, begin, length) =>
      TripleRoundTrip(index, begin, length, tail);
      TripleLength(index, begin, length);
    case Piece(index, begin, block) =>
      var r := Payload(m) + tail;
      assert r == U32Bytes(index) + (U32Bytes(begin) + (block + tail));
      U32RoundTrip(index, U32Bytes(begin) + (block + tail));
      U32RoundTrip(begin, block + tail);
      assert r[4..][4..] == r[8..];
      assert r[8..8 + |block|] == r[8..][..|block|] == block && r[8 + |block|..] == r[8..][|block|..] == tail;
    case Cancel(index, begin, length) =>
      TripleRoundTrip(index, begin, length, tail);
      TripleLength(index, begin, length);
  }

  lemma TripleLength(a: u32, b: u32, c: u32)
    ensures |Triple(a, b, c)| == 12
  {
  }

  lemma EncodedLength(m: Message)
    requires Encodable(m)
    ensures |Encoded(m)| >= 4 && U32Value(Encoded(m)) == |Encoded(m)| - 4
    ensures !m.KeepAlive? ==> |Encoded(m)| == 5 + |Payload(m)| && Encoded(m)[4..] == [Id(m)] + Payload(m)
    ensures m.KeepAlive? ==> |Encoded(m)| == 4
  {
    hide U32Bytes, U32Value, Triple;
    if m.KeepAlive? {
      U32RoundTrip(0, []);
      assert Encoded(m) + [] == Encoded(m);
    } else {
      PayloadLength(m);
      U32RoundTrip(1 + |Payload(m)|, [Id(m)] + Payload(m));
    }
  }

  lemma PayloadLength(m: Message)
    requires Encodable(m)
    ensures 1 + |Payload(m)| < U32_LIMIT
  {
  }

  /** A message is decoded to itself, and what follows it is left alone. */
  lemma MessageRoundTrip(m: Message, tail: seq<byte>)
    requires Encodable(m)
    ensures Decode(Encoded(m) + tail) == Got(m, tail)
  {
    hide U32Bytes, Payload, Id, DecodeBody;
    EncodedLength(m);
    var b := Encoded(m) + tail;
    assert U32Value(b) == |Encoded(m)| - 4;
    assert b[4..] == Encoded(m)[4..] + tail;
    if !m.KeepAlive? {
      BodyRoundTrip(m, tail);
      assert b[4..][0] == Id(m) && b[4..][1..] == Payload(m) + tail;
    } else {
      assert b[4..] == tail;
    }
  }

  /** More bytes never change what was decoded, except by following it. */
  lemma DecodeStable(b: seq<byte>, more: seq<byte>)
    ensures var d := Decode(b);
            Decode(b + more) ==
              match d
              case Got(m, rest) => Got(m, rest + more)
              case Needs(_) => Decode(b + more)
              case BadId => BadId
              case Underflow => Underflow
  {
    if |b| >= 4 && 1 <= U32Value(b) <= |b[4..]| {
      assert (b + more)[4..][1..] == b[4..][1..] + more;
      BodyStable(U32Value(b), b[4], b[4..][1..], more);
    } else if |b| >= 4 {
      assert (b + more)[4..] == b[4..] + more;
    }
  }

  lemma BodyStable(len: nat, id: byte, r: seq<byte>, more: seq<byte>)
    requires 1 <= len <= |r| + 1
    ensures var d := DecodeBody(len, id, r);
            DecodeBody(len, id, r + more) ==
              match d
              case Got(m, rest) => Got(m, rest + more)
              case Needs(_) => DecodeBody(len, id, r + more)
              case BadId => BadId
              case Underflow => Underflow
  {
    hide U32Value;
    assert (r + more)[..len - 1] == r[..len - 1] && (r + more)[len - 1..] == r[len - 1..] + more;
    NumbersStable(r, more);
    if |r| >= 8 && len >= 9 {
      assert (r + more)[8..len - 1] == r[8..len - 1];
    }
  }

  lemma ValueStable(b: seq<byte>, more: seq<byte>)
    requires |b| >= 4
    ensures U32Value(b + more) == U32Value(b)
  {
  }

  /** The numbers at the beginning stay, and what follows them is continued. */
  lemma NumbersStable(r: seq<byte>, more: seq<byte>)
    ensures |r| >= 4 ==> U32Value(r + more) == U32Value(r) && (r + more)[4..] == r[4..] + more
    ensures |r| >= 8 ==> U32Value((r + more)[4..]) == U32Value(r[4..]) && (r + more)[8..] == r[8..] + more
    ensures |r| >= 12 ==> U32Value((r + more)[8..]) == U32Value(r[8..]) && (r + more)[12..] == r[12..] + more
  {
    hide U32Value;
    if |r| >= 4 {
      ValueStable(r, more);
      assert (r + more)[4..] == r[4..] + more;
    }
    if |r| >= 8 {
      ValueStable(r[4..], more);
      assert (r + more)[8..] == r[8..] + more;
    }
    if |r| >= 12 {
      ValueStable(r[8..], more);
      assert (r + more)[12..] == r[12..] + more;
    }
  }

  /** With fewer bytes than were asked for, decoding again cannot succeed. */
  lemma NeedsMeansIt(b: seq<byte>, more: seq<byte>)
    requires Decode(b).Needs? && |b + more| < Decode(b).requested
    ensures Decode(b + more).Needs?
  {
    assert |b| >= 4 ==> U32Value(b + more) == U32Value(b);
  }

  /** The beginning of a message is never taken for a message, and never asks for more bytes than the message has. */
  lemma StrictPrefixNeeds(m: Message, n: nat)
    requires Encodable(m) && n < |Encoded(m)|
    ensures Decode(Encoded(m)[..n]).Needs?
    ensures Decode(Encoded(m)[..n]).requested <= |Encoded(m)|
  {
    EncodedLength(m);
    assert n >= 4 ==> U32Value(Encoded(m)[..n]) == U32Value(Encoded(m));
  }

  // ------------------------------------------------------------------ the wire itself

  /** Which bytes are answered by an unknown id and by an underflow, and which by asking for the length. */
  lemma DecodeRefuses(b: seq<byte>)
    ensures Decode(b) == BadId <==>
              |b| >= 4 && 1 <= U32Value(b) <= |b| - 4 && (b[4] > 8 || (b[4] <= 3 && U32Value(b) != 1))
    ensures Decode(b) == Underflow <==>
              |b| >= 13 && 1 <= U32Value(b) < 9 && b[4] == 7
    ensures |b| >= 4 && U32Value(b) > |b| - 4 ==> Decode(b) == Needs(U32Value(b))
    ensures |b| < 4 ==> Decode(b) == Needs(4)
  {
    hide U32Value;
  }

  /** The length field counts what follows it, modulo 4 GiB. */
  lemma LengthField(m: Message)
    ensures |Encoded(m)| >= 4 && U32Value(Encoded(m)) == (|Encoded(m)| - 4) % U32_LIMIT
  {
    hide U32Bytes, U32Value, Payload, Id;
    if m.KeepAlive? {
      U32RoundTrip(0, []);
      assert Encoded(m) + [] == Encoded(m);
    } else {
      U32RoundTrip(AsU32(1 + |Payload(m)|), [Id(m)] + Payload(m));
    }
  }

  lemma NumberBytes()
    ensures U32Bytes(0x0102_0304) == [1, 2, 3, 4]
    ensures U32Bytes(0) == [0, 0, 0, 0] && U32Bytes(1) == [0, 0, 0, 1] && U32Bytes(5) == [0, 0, 0, 5]
    ensures U32Bytes(3) == [0, 0, 0, 3] && U32Bytes(11) == [0, 0, 0, 11] && U32Bytes(13) == [0, 0, 0, 13]
    ensures U32Bytes(0x4000) == [0, 0, 0x40, 0]
  {
  }

  /** The messages without a payload or with one number, as bytes. */
  lemma SimpleWire()
    ensures Encoded(KeepAlive) == [0, 0, 0, 0]
    ensures Encoded(Flag(Choke)) == [0, 0, 0, 1, 0] && Encoded(Flag(Unchoke)) == [0, 0, 0, 1, 1]
    ensures Encoded(Flag(Interested)) == [0, 0, 0, 1, 2] && Encoded(Flag(NotInterested)) == [0, 0, 0, 1, 3]
    ensures Encoded(Have(0x0102_0304)) == [0, 0, 0, 5, 4, 1, 2, 3, 4]
    ensures Encoded(BitField([0x89, 0xF8])) == [0, 0, 0, 3, 5, 0x89, 0xF8]
  {
    hide U32Bytes;
    NumberBytes();
  }

  /** The messages about blocks, as bytes. */
  lemma BlockWire()
    ensures Encoded(Request(1, 0x4000, 0x0102_0304)) == [0, 0, 0, 13, 6] + [0, 0, 0, 1] + [0, 0, 0x40, 0] + [1, 2, 3, 4]
    ensures Encoded(Piece(1, 0x4000, [7, 9])) == [0, 0, 0, 11, 7] + [0, 0, 0, 1] + [0, 0, 0x40, 0] + [7, 9]
    ensures Encoded(Cancel(1, 0x4000, 0x0102_0304)) == [0, 0, 0, 13, 8] + [0, 0, 0, 1] + [0, 0, 0x40, 0] + [1, 2, 3, 4]
  {
    hide U32Bytes;
    NumberBytes();
  }
}
