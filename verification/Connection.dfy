/**
 Reading messages from a stream that arrives in arbitrary chunks (`Connection::read_msg` of
 src/peer/net.rs). What is read depends only on the bytes, not on how they were split, and
 abandoning a read loses nothing.
 */
module Connections {
  import opened Common
  import opened Protocol

  function Flatten(chunks: seq<seq<byte>>): seq<byte> {
    if chunks == [] then [] else chunks[0] + Flatten(chunks[1..])
  }

  datatype ReadResult =
    | Received(message: Message)
    | Closed             // the remote closed between messages
    | ConnectionReset    // the remote closed within a message
    | BadMessage         // unknown id
    | Panicked           // arithmetic underflow in the decoder
    | Abandoned          // the caller stopped waiting

  /** The outcome of reading one message when all bytes are there, and the bytes left. */
  function ReadSpec(pending: seq<byte>): (ReadResult, seq<byte>) {
    match Decode(pending)
    case Got(m, rest) => (Received(m), rest)
    case Needs(_) => (if pending == [] then Closed else ConnectionReset, pending)
    case BadId => (BadMessage, pending)
    case Underflow => (Panicked, pending)
  }

  lemma DecodeConsumes(b: seq<byte>)
    requires Decode(b).Got?
    ensures |Decode(b).rest| < |b|
  {
  }

  /** All messages up to the first outcome that is not a message. */
  function ReadAll(pending: seq<byte>): (seq<Message>, ReadResult)
    decreases |pending|
  {
    var (r, rest) := ReadSpec(pending);
    if r.Received? then
      DecodeConsumes(pending);
      var (ms, end) := ReadAll(rest);
      ([r.message] + ms, end)
    else ([], r)
  }

  class Connection {
    var buffer: seq<byte>
    /** What the socket will still deliver, read by read; no chunk is empty. */
    var stream: seq<seq<byte>>

    ghost predicate Valid()
      reads this
    {
      forall i :: 0 <= i < |stream| ==> stream[i] != []
    }

    /** The bytes not yet consumed, whether they have arrived or not. */
    ghost function Pending(): seq<byte>
      reads this
    {
      buffer + Flatten(stream)
    }

    constructor (stream: seq<seq<byte>>)
      requires forall i :: 0 <= i < |stream| ==> stream[i] != []
      ensures Valid() && Pending() == Flatten(stream) && this.stream == stream
    {
      buffer := [];
      this.stream := stream;
    }

    /** One read of the socket into the buffer; zero bytes mean the end. */
    method ReadBuf() returns (n: nat)
      requires Valid()
      modifies this
      ensures Valid() && Pending() == old(Pending()) && old(buffer) <= buffer
      ensures old(stream) == [] ==> n == 0 && buffer == old(buffer) && stream == []
      ensures old(stream) != [] ==> n > 0 && stream == old(stream)[1..]
    {
      if stream == [] {
        return 0;
      }
      n := |stream[0]|;
      assert buffer + stream[0] + Flatten(stream[1..]) == buffer + Flatten(stream);
      buffer := buffer + stream[0];
      stream := stream[1..];
    }

    /** Reads one message; gives up after `patience` reads of the socket. */
    method ReadMsg(patience: nat) returns (r: ReadResult)
      requires Valid()
      modifies this
      ensures Valid() && |stream| <= |old(stream)|
      ensures r.Abandoned? ==> Pending() == old(Pending())
      ensures !r.Abandoned? ==> (r, Pending()) == ReadSpec(old(Pending()))
      ensures patience > |old(stream)| ==> !r.Abandoned?
    {
      hide Decode;
      ghost var pending := Pending();
      var needs := 0;
      var attempts := 0;
      ghost var tried: seq<byte> := [];
      while true
        invariant Valid() && Pending() == pending
        invariant |stream| + attempts == |old(stream)| && attempts <= patience
        invariant needs > 0 ==> tried <= buffer && Decode(tried) == Needs(needs)
        decreases |stream|
      {
        if |buffer| >= needs {
          var readBuf := new Cursor(buffer);
          var decoded := DecodeMessage(readBuf);
          DecodeStable(buffer, Flatten(stream));
          match decoded {
            case Got(message, _) =>
              var advance := |buffer| - |readBuf.data|;
              DecodeSuffix(buffer);
              buffer := buffer[advance..];
              return Received(message);
            case Needs(requested) =>
              needs := requested;
              tried := buffer;
            case BadId =>
              return BadMessage;
            case Underflow =>
              return Panicked;
          }
        }
        StillNeeds(tried, buffer);
        if attempts == patience {
          return Abandoned;
        }
        var n := ReadBuf();
        attempts := attempts + 1;
        if n == 0 {
          assert Flatten(stream) == [] && pending == buffer;
          if buffer == [] {
            return Closed;
          } else {
            return ConnectionReset;
          }
        }
      }
    }
  }

  /**
   Reads messages, abandoning reads as `patience` says (the other branch of the source's
   `select!` won). Whatever the chunks and however often reads are abandoned, the messages
   received and the ones still to come are those of the bytes.
   */
  method Receive(conn: Connection, patience: seq<nat>) returns (ms: seq<Message>, end: Option<ReadResult>)
    requires conn.Valid()
    modifies conn
    ensures conn.Valid()
    ensures end.Some? ==> (ms, end.value) == ReadAll(old(conn.Pending()))
    ensures end.None? ==> Reading(old(conn.Pending()), ms, conn.Pending())
  {
    hide ReadAll, ReadSpec;
    ghost var pending := conn.Pending();
    ms, end := [], None;
    ReadingStarts(pending);
    for i := 0 to |patience|
      invariant conn.Valid() && Reading(pending, ms, conn.Pending())
    {
      ghost var before := conn.Pending();
      var r := conn.ReadMsg(patience[i]);
      if r.Received? {
        ReadingContinues(pending, ms, before);
        ms := ms + [r.message];
      } else if !r.Abandoned? {
        ReadingEnds(pending, ms, before);
        return ms, Some(r);
      }
    }
  }

  /** `ms` were read from `pending`, and `left` is what there is still to read. */
  ghost predicate Reading(pending: seq<byte>, ms: seq<Message>, left: seq<byte>) {
    ReadAll(pending) == (ms + ReadAll(left).0, ReadAll(left).1)
  }

  lemma ReadingStarts(pending: seq<byte>)
    ensures Reading(pending, [], pending)
  {
    assert [] + ReadAll(pending).0 == ReadAll(pending).0;
  }

  lemma ReadingContinues(pending: seq<byte>, ms: seq<Message>, left: seq<byte>)
    requires Reading(pending, ms, left) && ReadSpec(left).0.Received?
    ensures Reading(pending, ms + [ReadSpec(left).0.message], ReadSpec(left).1)
  {
    hide Decode;
    var (r, rest) := ReadSpec(left);
    assert ms + ([r.message] + ReadAll(rest).0) == ms + [r.message] + ReadAll(rest).0;
  }

  lemma ReadingEnds(pending: seq<byte>, ms: seq<Message>, left: seq<byte>)
    requires Reading(pending, ms, left) && !ReadSpec(left).0.Received?
    ensures ReadAll(pending) == (ms, ReadSpec(left).0)
  {
    hide Decode;
    assert ms + [] == ms;
  }

  /** What decoding leaves is the end of what it was given. */
  lemma DecodeSuffix(b: seq<byte>)
    requires Decode(b).Got?
    ensures var rest := Decode(b).rest; |rest| <= |b| && rest == b[|b| - |rest|..]
  {
  }

  lemma StillNeeds(tried: seq<byte>, buffer: seq<byte>)
    requires tried <= buffer && Decode(tried).Needs?
    requires tried == buffer || |buffer| < Decode(tried).requested
    ensures Decode(buffer).Needs?
  {
    assert buffer == tried + buffer[|tried|..];
    if tried != buffer {
      NeedsMeansIt(tried, buffer[|tried|..]);
    }
  }

  // ------------------------------------------------------------------ streams of messages

  function EncodedAll(ms: seq<Message>): seq<byte> {
    if ms == [] then [] else Encoded(ms[0]) + EncodedAll(ms[1..])
  }

  lemma ReadOne(m: Message, rest: seq<byte>)
    requires Encodable(m)
    ensures ReadAll(Encoded(m) + rest) == ([m] + ReadAll(rest).0, ReadAll(rest).1)
  {
    hide Decode, Encoded;
    MessageRoundTrip(m, rest);
  }

  lemma ReadNone(last: Message, n: nat)
    requires Encodable(last) && n < |Encoded(last)|
    ensures ReadAll(Encoded(last)[..n]) == ([], if n == 0 then Closed else ConnectionReset)
  {
    hide Decode, Encoded;
    StrictPrefixNeeds(last, n);
  }

  /**
   The encodings of messages, one after the other, followed by nothing or by the beginning
   of another message: exactly these messages are read, and then the end is told from a cut.
   */
  lemma {:induction false} StreamRoundTrip(ms: seq<Message>, last: Message, n: nat)
    requires (forall m :: m in ms ==> Encodable(m)) && Encodable(last) && n < |Encoded(last)|
    ensures ReadAll(EncodedAll(ms) + Encoded(last)[..n]) == (ms, if n == 0 then Closed else ConnectionReset)
  {
    hide ReadAll, Encoded, Encodable;
    var tail := Encoded(last)[..n];
    if ms == [] {
      assert EncodedAll(ms) + tail == tail;
      ReadNone(last, n);
    } else {
      StreamRoundTrip(ms[1..], last, n);
      assert EncodedAll(ms) + tail == Encoded(ms[0]) + (EncodedAll(ms[1..]) + tail);
      ReadOne(ms[0], EncodedAll(ms[1..]) + tail);
      FirstSplit(ms);
    }
  }

  /** Hence different lists of messages never have the same bytes. */
  lemma EncodingsDiffer(a: seq<Message>, b: seq<Message>)
    requires (forall m :: m in a ==> Encodable(m)) && (forall m :: m in b ==> Encodable(m))
    requires EncodedAll(a) == EncodedAll(b)
    ensures a == b
  {
    StreamRoundTrip(a, KeepAlive, 0);
    StreamRoundTrip(b, KeepAlive, 0);
    assert EncodedAll(a) + [] == EncodedAll(a) && EncodedAll(b) + [] == EncodedAll(b);
  }
}
