/** Connection: sending and receiving over one stream, with encoder and decoder state shared by all messages. */
module Connection {
  import opened Bytes
  import opened Records
  import opened Encoder
  import opened Decoder
  import opened Proto
  import opened Framing

  /** What SendApp is given: raw bytes, or a message structure to encode. */
  datatype Payload = Raw(bytes: seq<byte>) | Structure(members: seq<Member>)

  predicate PayloadHoldable(p: Payload) {
    p.Structure? ==> RecordHoldable(p.members)
  }

  predicate PayloadEncodable(p: Payload) {
    p.Structure? ==> RecordEncodable(p.members)
  }

  function PayloadBytes(o: ByteOrder, p: Payload): seq<byte>
    requires PayloadHoldable(p)
  {
    match p
    case Raw(bytes) => bytes
    case Structure(ms) => EncRecord(o, ms)
  }

  /** A message that went out, and the protocol version it went out with. */
  datatype Outgoing =
    | OutCtrl(version: byte, command: byte, size: nat)
    | OutApp(version: byte, command: byte, payload: Payload)

  predicate IsDirection(direction: byte) {
    direction == FLAG_FROM_CLIENT || direction == FLAG_FROM_SERVER
  }

  /** The flags of an application message; a control message adds FLAG_MSG_CTRL. */
  function AppFlags(direction: byte, o: ByteOrder): (f: byte)
    requires IsDirection(direction)
    ensures FlagOrder(f) == o && !HasBit(f, FLAG_MSG_CTRL)
    ensures HasBit(f + FLAG_MSG_CTRL, FLAG_MSG_CTRL) && FlagOrder(f + FLAG_MSG_CTRL) == o
  {
    direction + if o == BigEndian then FLAG_BO_BE else 0
  }

  /** The frame a fresh encoder produces for a message; its size is a 32-bit integer. */
  function FreshFrame(direction: byte, o: ByteOrder, out: Outgoing): seq<byte>
    requires out.OutApp? ==> PayloadHoldable(out.payload)
    requires IsDirection(direction)
  {
    var flags := AppFlags(direction, o);
    match out
    case OutCtrl(version, command, size) => EncHeader(o, Header(version, flags + FLAG_MSG_CTRL, command, size))
    case OutApp(version, command, payload) =>
      var bytes := PayloadBytes(o, payload);
      EncHeader(o, Header(version, flags, command, |bytes| % 0x1_0000_0000)) + bytes
  }

  /** The frames of client (direction 0) and server (0x40), their bytes written out, in both byte orders. */
  lemma FrameBytesWritten(direction: byte, version: byte, command: byte, size: nat, payload: Payload)
    requires direction == 0 || direction == 0x40
    requires PayloadHoldable(payload)
    ensures IsDirection(direction)
    ensures FreshFrame(direction, LittleEndian, OutCtrl(version, command, size))
         == [0xCA, version, direction + 1, command] + Put(LittleEndian, 4, size)
    ensures FreshFrame(direction, BigEndian, OutCtrl(version, command, size))
         == [0xCA, version, direction + 0x81, command] + Put(BigEndian, 4, size)
    ensures var bytes := PayloadBytes(LittleEndian, payload);
      FreshFrame(direction, LittleEndian, OutApp(version, command, payload))
      == [0xCA, version, direction, command] + Put(LittleEndian, 4, |bytes| % 0x1_0000_0000) + bytes
    ensures var bytes := PayloadBytes(BigEndian, payload);
      FreshFrame(direction, BigEndian, OutApp(version, command, payload))
      == [0xCA, version, direction + 0x80, command] + Put(BigEndian, 4, |bytes| % 0x1_0000_0000) + bytes
  {
    hide PayloadBytes, PayloadHoldable, HasBit;
  }

  predicate LogHoldable(log: seq<Outgoing>) {
    forall k :: 0 <= k < |log| && log[k].OutApp? ==> PayloadHoldable(log[k].payload)
  }

  function FreshFrames(direction: byte, o: ByteOrder, log: seq<Outgoing>): seq<byte>
    requires LogHoldable(log)
    requires IsDirection(direction)
  {
    if |log| == 0 then []
    else FreshFrames(direction, o, log[..|log| - 1]) + FreshFrame(direction, o, log[|log| - 1])
  }

  lemma FreshFramesSnoc(direction: byte, o: ByteOrder, log: seq<Outgoing>, out: Outgoing)
    requires LogHoldable(log) && (out.OutApp? ==> PayloadHoldable(out.payload))
    requires IsDirection(direction)
    ensures LogHoldable(log + [out])
    ensures FreshFrames(direction, o, log + [out]) == FreshFrames(direction, o, log) + FreshFrame(direction, o, out)
  {
  }

  function Sent(version: byte, replies: seq<Reply>): (log: seq<Outgoing>)
    ensures |log| == |replies|
  {
    if |replies| == 0 then []
    else
      [match replies[0]
       case CtrlReply(command, size) => OutCtrl(version, command, size)
       case AppReply(command, data) => OutApp(version, command, Raw(data))] + Sent(version, replies[1..])
  }

  lemma {:induction false} SentConcat(version: byte, a: seq<Reply>, b: seq<Reply>)
    ensures Sent(version, a + b) == Sent(version, a) + Sent(version, b)
  {
    if |a| == 0 {
      Nil(b);
    } else {
      assert (a + b)[1..] == a[1..] + b;
      SentConcat(version, a[1..], b);
    }
  }

  /** A message handed out by Next, with its own stream over the data. */
  class Message {
    const header: Header
    const data: seq<byte>
    const reader: Reader

    constructor (header: Header, data: seq<byte>)
      ensures this.header == header && this.data == data && fresh(reader) && reader.data == data
    {
      this.header := header;
      this.data := data;
      reader := new Reader(data);
    }
  }

  class Connection {
    var version: byte
    const direction: byte
    const out: Writer
    const encoder: EncoderState
    const input: Reader
    const decoder: DecoderState
    var forceByteOrder: bool

    /** Every message sent, oldest first. */
    ghost var log: seq<Outgoing>

    /**
     * The wire holds exactly the frames fresh encoders would have produced for the messages sent, whatever bits
     * earlier messages left in the encoder; both states have their own stream back between calls.
     */
    ghost predicate Valid()
      reads this, out, encoder, decoder
    {
      && IsDirection(direction)
      && encoder.buf == out && decoder.buf == input
      && !decoder.useChangedBitSet && decoder.changedBitSetIndex == 0
      && LogHoldable(log)
      && out.data == FreshFrames(direction, encoder.order, log)
    }

    constructor (direction: byte, incoming: seq<byte>, order: ByteOrder)
      requires IsDirection(direction)
      ensures Valid() && log == [] && !forceByteOrder && encoder.order == LittleEndian && this.direction == direction
      ensures input.data == incoming && decoder.order == order
      ensures fresh(out) && fresh(encoder) && fresh(input) && fresh(decoder)
    {
      version := 0;
      this.direction := direction;
      var w := new Writer();
      out := w;
      encoder := new EncoderState(w, LittleEndian);
      var r := new Reader(incoming);
      input := r;
      decoder := new DecoderState(r, order);
      forceByteOrder := false;
      log := [];
    }

    method SendCtrl(command: byte, size: nat)
      requires Valid()
      modifies this`log, out
      ensures Valid() && log == old(log) + [OutCtrl(version, command, size)]
    {
      FreshFramesSnoc(direction, encoder.order, log, OutCtrl(version, command, size));
      EncodeHeader(encoder, Header(version, AppFlags(direction, encoder.order) + FLAG_MSG_CTRL, command, size));
      log := log + [OutCtrl(version, command, size)];
    }

    /** encodePayload: into a buffer of its own, the connection's writer restored. */
    method EncodePayload(ms: seq<Member>) returns (r: Option<seq<byte>>)
      requires RecordHoldable(ms)
      modifies encoder
      ensures encoder.buf == old(encoder.buf) && encoder.order == old(encoder.order)
      ensures r == if RecordEncodable(ms) then Some(EncRecord(encoder.order, ms)) else None
    {
      var outer := encoder.buf;
      var w := new Writer();
      encoder.buf := w;
      var ok := encoder.EncodeRecord(ms);
      encoder.buf := outer;
      if !ok {
        return None;
      }
      Nil(EncRecord(encoder.order, ms));
      return Some(w.data);
    }

    /** SendApp: a payload that does not encode sends nothing. */
    method SendApp(command: byte, payload: Payload) returns (ok: bool)
      requires Valid() && PayloadHoldable(payload)
      modifies this`log, out, encoder
      ensures Valid() && encoder.order == old(encoder.order)
      ensures ok == PayloadEncodable(payload)
      ensures log == old(log) + if ok then [OutApp(version, command, payload)] else []
    {
      hide EncRecord, EncHeader, RecordHoldable, RecordEncodable, FreshFrames, LogHoldable;
      var bytes: seq<byte>;
      match payload {
        case Raw(raw) => bytes := raw;
        case Structure(ms) =>
          var encoded := EncodePayload(ms);
          if encoded == None {
            Nil(log);
            return false;
          }
          bytes := encoded.value;
      }
      FreshFramesSnoc(direction, encoder.order, log, OutApp(version, command, payload));
      ghost var header := Header(version, AppFlags(direction, encoder.order), command, |bytes| % 0x1_0000_0000);
      Assoc(out.data, EncHeader(encoder.order, header), bytes);
      EncodeHeader(encoder, Header(version, AppFlags(direction, encoder.order), command, |bytes| % 0x1_0000_0000));
      out.Write(bytes);
      log := log + [OutApp(version, command, payload)];
      return true;
    }

    method HandleControlMessage(h: Header)
      requires Valid() && IsCtrl(h)
      modifies this, out
      ensures Valid() && version == old(version)
      ensures forceByteOrder == (old(forceByteOrder) || Freezes(h))
      ensures log == old(log) + Sent(version, CtrlReplies(h))
    {
      if h.command == CTRL_MARK_TOTAL_BYTE_SENT {
        SendCtrl(CTRL_ACK_TOTAL_BYTE_SENT, h.size);
      } else if h.command == CTRL_SET_BYTE_ORDER {
        if h.size == 0 {
          forceByteOrder := true;
        }
      } else if h.command == CTRL_ECHO_REQUEST {
        SendCtrl(CTRL_ECHO_RESPONSE, h.size);
      }
    }

    method HandleAppEcho(h: Header, data: seq<byte>)
      requires Valid()
      modifies this`log, out, encoder
      ensures Valid() && encoder.order == old(encoder.order)
      ensures log == old(log) + Sent(version, [EchoReply(h, data)])
    {
      var echoed := if AsInt8(h.version) >= 2 then data else [];
      var ok := SendApp(APP_ECHO, Raw(echoed));
      assert Sent(version, [EchoReply(h, data)]) == [OutApp(version, APP_ECHO, Raw(echoed))];
    }

    /** Next: absorb and answer control messages and echoes until another message, or a failure, arrives. */
    method Receive() returns (r: Result<Message>)
      requires Valid()
      modifies this, out, encoder, input, decoder
      ensures Valid() && version == old(version) && encoder.order == old(encoder.order)
      ensures match Next(Mode(old(forceByteOrder), old(decoder.order)), old(input.data))
        case Delivered(d, m, rest, replies) =>
          && r.Done? && fresh(r.value) && fresh(r.value.reader)
          && r.value.header == d.header && r.value.data == d.data && r.value.reader.data == d.data
          && decoder.order == d.order && Mode(forceByteOrder, decoder.order) == m
          && input.data == rest && log == old(log) + Sent(version, replies)
        case Stopped(fault, replies) =>
          r == Fail(fault) && log == old(log) + Sent(version, replies)
    {
      hide DecHeader, HasBit, HeaderOrder, FreshFrames, LogHoldable;
      ghost var spec := Next(Mode(forceByteOrder, decoder.order), input.data);
      ghost var replies: seq<Reply> := [];
      WithoutReplies(spec);
      Nil(log);
      while true
        invariant Valid() && version == old(version) && encoder.order == old(encoder.order)
        invariant spec == WithReplies(replies, Next(Mode(forceByteOrder, decoder.order), input.data))
        invariant log == old(log) + Sent(version, replies)
        decreases |input.data|
      {
        ghost var m, stream := Mode(forceByteOrder, decoder.order), input.data;
        var header := DecodeHeader(decoder, forceByteOrder);
        if header.Fail? {
          Nil(replies);
          return Fail(header.fault);
        }
        var h := header.value;
        if IsCtrl(h) {
          ghost var before := log;
          HandleControlMessage(h);
          MoreReplies(replies, CtrlReplies(h), Next(After(m, h), input.data));
          SentConcat(version, replies, CtrlReplies(h));
          Assoc(old(log), Sent(version, replies), Sent(version, CtrlReplies(h)));
          replies := replies + CtrlReplies(h);
        } else {
          if h.size >= TWO_31 {
            Nil(replies);
            return Fail(Panic);
          }
          var data := input.ReadFull(h.size);
          if data.Fail? {
            Nil(replies);
            return Fail(data.fault);
          }
          if h.command == APP_ECHO {
            HandleAppEcho(h, data.value);
            MoreReplies(replies, [EchoReply(h, data.value)], Next(After(m, h), input.data));
            SentConcat(version, replies, [EchoReply(h, data.value)]);
            Assoc(old(log), Sent(version, replies), Sent(version, [EchoReply(h, data.value)]));
            replies := replies + [EchoReply(h, data.value)];
          } else {
            Nil(replies);
            var msg := new Message(h, data.value);
            return Done(msg);
          }
        }
      }
    }

    /** Message.Decode: with the connection's decoder, in the byte order in force now. */
    method Decode(msg: Message, targets: seq<Member>) returns (r: Result<seq<Member>>)
      requires Valid() && RecordHoldable(targets)
      requires msg.reader != input
      modifies decoder, msg.reader
      ensures Valid() && decoder.order == old(decoder.order)
      ensures Follows(r, DecRecord(decoder.order, targets, old(msg.reader.data)), msg.reader.data)
    {
      decoder.buf := msg.reader;
      r := decoder.DecodeRecord(targets);
      decoder.buf := input;
    }
  }

  lemma WithoutReplies(r: Receipt)
    ensures r == WithReplies([], r)
  {
  }

  lemma MoreReplies(a: seq<Reply>, b: seq<Reply>, r: Receipt)
    ensures WithReplies(a, WithReplies(b, r)) == WithReplies(a + b, r)
  {
  }
}
