/** A connection's incoming stream: what repeated Next calls return and reply, over any input and over any frames. */
module Framing {
  import opened Bytes
  import opened Proto

  /** A reply sent from inside Next. */
  datatype Reply = CtrlReply(command: byte, size: nat) | AppReply(command: byte, data: seq<byte>)

  /** A message returned by Next, with the byte order in force when it is returned. */
  datatype Delivery = Delivery(header: Header, data: seq<byte>, order: ByteOrder)

  predicate IsCtrl(h: Header) {
    HasBit(h.flags, FLAG_MSG_CTRL)
  }

  /** The control message that freezes the byte order. */
  predicate Freezes(h: Header) {
    IsCtrl(h) && h.command == CTRL_SET_BYTE_ORDER && h.size == 0
  }

  /** The decoder's mode behind a header read in mode m. */
  function After(m: Mode, h: Header): Mode {
    Mode(m.force || Freezes(h), HeaderOrder(m, h.flags))
  }

  function CtrlReplies(h: Header): seq<Reply> {
    if h.command == CTRL_MARK_TOTAL_BYTE_SENT then [CtrlReply(CTRL_ACK_TOTAL_BYTE_SENT, h.size)]
    else if h.command == CTRL_ECHO_REQUEST then [CtrlReply(CTRL_ECHO_RESPONSE, h.size)]
    else []
  }

  /** The echo of a version 1 peer is empty; versions compare as signed bytes. */
  function EchoReply(h: Header, data: seq<byte>): Reply {
    AppReply(APP_ECHO, if AsInt8(h.version) >= 2 then data else [])
  }

  datatype Receipt =
    | Delivered(delivery: Delivery, mode: Mode, rest: seq<byte>, replies: seq<Reply>)
    | Stopped(fault: Fault, replies: seq<Reply>)

  function WithReplies(replies: seq<Reply>, r: Receipt): Receipt {
    match r
    case Delivered(d, m, rest, more) => Delivered(d, m, rest, replies + more)
    case Stopped(fault, more) => Stopped(fault, replies + more)
  }

  /** Connection.Next: every turn of its loop consumes at least the eight bytes of a header. */
  function Next(m: Mode, input: seq<byte>): Receipt
    decreases |input|
  {
    match DecHeader(m, input)
    case Err(fault) => Stopped(fault, [])
    case Ok(h, rest) =>
      if IsCtrl(h) then WithReplies(CtrlReplies(h), Next(After(m, h), rest))
      else if h.size >= TWO_31 then Stopped(Panic, [])
      else
        match Take(h.size, rest)
        case Err(fault) => Stopped(fault, [])
        case Ok(data, rest') =>
          if h.command == APP_ECHO then WithReplies([EchoReply(h, data)], Next(After(m, h), rest'))
          else Delivered(Delivery(h, data, After(m, h).order), After(m, h), rest', [])
  }

  /** All that repeated Next calls return until one fails. */
  datatype Session = Session(deliveries: seq<Delivery>, replies: seq<Reply>, fault: Fault)

  function Serve(m: Mode, input: seq<byte>): Session
    decreases |input|
  {
    NextConsumes(m, input);
    match Next(m, input)
    case Stopped(fault, replies) => Session([], replies, fault)
    case Delivered(d, m', rest, replies) =>
      var s := Serve(m', rest);
      Session([d] + s.deliveries, replies + s.replies, s.fault)
  }

  lemma {:induction false} NextConsumes(m: Mode, input: seq<byte>)
    ensures var r := Next(m, input); r.Delivered? ==> |r.rest| + 8 <= |input|
    decreases |input|
  {
    match DecHeader(m, input)
    case Err(_) =>
    case Ok(h, rest) =>
      if IsCtrl(h) {
        NextConsumes(After(m, h), rest);
      } else if h.size < TWO_31 && h.size <= |rest| && h.command == APP_ECHO {
        NextConsumes(After(m, h), rest[h.size..]);
      }
  }

  // Streams of frames

  /** What a peer sends, and the byte order it encodes it in. */
  datatype Frame = Frame(header: Header, data: seq<byte>, order: ByteOrder)

  /** A control frame has no data; an application frame's size is that of its data. */
  predicate WellFormed(f: Frame) {
    f.header.size < Pow256(4) && if IsCtrl(f.header) then f.data == [] else f.header.size == |f.data| < TWO_31
  }

  function FrameBytes(f: Frame): seq<byte> {
    EncHeader(f.order, f.header) + f.data
  }

  function Wire(fs: seq<Frame>): seq<byte> {
    if |fs| == 0 then [] else FrameBytes(fs[0]) + Wire(fs[1..])
  }

  /** Each frame is in the order its own flags announce until the order is frozen, and in the frozen order after. */
  predicate Agreed(m: Mode, fs: seq<Frame>)
    decreases fs
  {
    |fs| == 0 ||
    (WellFormed(fs[0]) && fs[0].order == HeaderOrder(m, fs[0].header.flags) && Agreed(After(m, fs[0].header), fs[1..]))
  }

  predicate IsMessage(f: Frame) {
    !IsCtrl(f.header) && f.header.command != APP_ECHO
  }

  /** The application messages that are not echoes. */
  function Messages(fs: seq<Frame>): seq<Delivery> {
    if |fs| == 0 then []
    else (if IsMessage(fs[0]) then [Delivery(fs[0].header, fs[0].data, fs[0].order)] else []) + Messages(fs[1..])
  }

  function FrameReplies(f: Frame): seq<Reply> {
    if IsCtrl(f.header) then CtrlReplies(f.header)
    else if f.header.command == APP_ECHO then [EchoReply(f.header, f.data)]
    else []
  }

  function Replies(fs: seq<Frame>): seq<Reply> {
    if |fs| == 0 then [] else FrameReplies(fs[0]) + Replies(fs[1..])
  }

  function WithFrame(f: Frame, s: Session): Session {
    Session((if IsMessage(f) then [Delivery(f.header, f.data, f.order)] else []) + s.deliveries,
            FrameReplies(f) + s.replies, s.fault)
  }

  lemma {:induction false} ServeReplies(replies: seq<Reply>, m: Mode, input: seq<byte>, r: Receipt)
    requires Next(m, input) == WithReplies(replies, r)
    ensures r.Delivered? ==> |r.rest| < |input|
    ensures var s := Serve(m, input);
      && s.replies == replies + (match r case Stopped(_, more) => more
                                         case Delivered(_, m', rest, more) => more + Serve(m', rest).replies)
      && s.deliveries == (match r case Stopped(_, _) => []
                                  case Delivered(d, m', rest, _) => [d] + Serve(m', rest).deliveries)
      && s.fault == (match r case Stopped(fault, _) => fault case Delivered(_, m', rest, _) => Serve(m', rest).fault)
  {
    NextConsumes(m, input);
    match r
    case Stopped(_, _) =>
    case Delivered(_, m', rest, more) => Assoc(replies, more, Serve(m', rest).replies);
  }

  /** One frame at the front of any stream. */
  lemma ServeFrame(m: Mode, f: Frame, rest: seq<byte>)
    requires WellFormed(f) && f.order == HeaderOrder(m, f.header.flags)
    ensures Serve(m, FrameBytes(f) + rest) == WithFrame(f, Serve(After(m, f.header), rest))
  {
    hide EncHeader, DecHeader, HasBit, HeaderOrder;
    var input := FrameBytes(f) + rest;
    var m' := After(m, f.header);
    Assoc(EncHeader(f.order, f.header), f.data, rest);
    HeaderRoundTrip(m, f.header, f.data + rest);
    Halves(f.data, rest);
    Nil(rest);
    NextConsumes(m, input);
    Nil(Serve(m', rest).replies);
    Nil(Serve(m', rest).deliveries);
    if IsCtrl(f.header) || f.header.command == APP_ECHO {
      assert Next(m, input) == WithReplies(FrameReplies(f), Next(m', rest));
      ServeReplies(FrameReplies(f), m, input, Next(m', rest));
    }
  }

  /**
   * For every sequence of control and application frames, each in its own byte order until one freezes it: repeated
   * Next returns exactly the application messages that are not echoes, in order and in their byte order, sends
   * exactly the required replies, in order, and ends at the end of the stream.
   */
  lemma {:induction false} ServeStream(m: Mode, fs: seq<Frame>)
    requires Agreed(m, fs)
    ensures Serve(m, Wire(fs)) == Session(Messages(fs), Replies(fs), Eof)
    decreases fs
  {
    if |fs| == 0 {
      NextConsumes(m, []);
    } else {
      hide Serve, FrameBytes, FrameReplies, IsMessage, WellFormed, HeaderOrder;
      ServeFrame(m, fs[0], Wire(fs[1..]));
      ServeStream(After(m, fs[0].header), fs[1..]);
    }
  }

  // What one frame does, its bytes written out

  /** Whether a set of flags is that of a control message: bit 0. */
  predicate Control(flags: byte) {
    flags % 2 == 1
  }

  /** The order in force behind a header: bit 7 of its flags, unless the order is frozen. */
  function OrderBehind(m: Mode, flags: byte): ByteOrder {
    if m.force then m.order else if flags >= 0x80 then BigEndian else LittleEndian
  }

  /** The eight bytes of a header: 0xCA, version, flags, command, and 32 bits of size. */
  function Head(m: Mode, version: byte, flags: byte, command: byte, size: nat): seq<byte> {
    [0xCA, version, flags, command] + Put(OrderBehind(m, flags), 4, size)
  }

  lemma LiteralFrame(m: Mode, version: byte, flags: byte, command: byte, size: nat, data: seq<byte>)
    requires size < 0x1_0000_0000
    ensures var f := Frame(Header(version, flags, command, size), data, OrderBehind(m, flags));
      && f.order == HeaderOrder(m, flags) && FrameBytes(f) == Head(m, version, flags, command, size) + data
      && IsCtrl(f.header) == Control(flags) && size < Pow256(4)
  {
    Widths();
  }

  /**
   * A control frame in front of any stream: command 0 is answered by (1, size), command 3 by (4, size), nothing else
   * is answered or returned, and command 2 with size 0 freezes the order.
   */
  lemma ControlServed(m: Mode, version: byte, flags: byte, command: byte, size: nat, rest: seq<byte>)
    requires Control(flags) && size < 0x1_0000_0000
    ensures var s := Serve(m, Head(m, version, flags, command, size) + rest);
      var next := Serve(Mode(m.force || (command == 2 && size == 0), OrderBehind(m, flags)), rest);
      && s.deliveries == next.deliveries && s.fault == next.fault
      && s.replies == (if command == 0 then [CtrlReply(1, size)]
                       else if command == 3 then [CtrlReply(4, size)] else []) + next.replies
  {
    hide Serve, FrameBytes, Head, HasBit;
    var f := Frame(Header(version, flags, command, size), [], OrderBehind(m, flags));
    LiteralFrame(m, version, flags, command, size, []);
    Nil(Head(m, version, flags, command, size));
    ServeFrame(m, f, rest);
    var next := Serve(After(m, f.header), rest);
    Nil(next.deliveries);
    Nil(next.replies);
  }

  /**
   * An echo, command 2, in front of any stream: it is answered by an echo of the same data for version bytes 2 to
   * 127, by an empty one for all others, and is not returned.
   */
  lemma EchoServed(m: Mode, version: byte, flags: byte, data: seq<byte>, rest: seq<byte>)
    requires !Control(flags) && |data| < 0x8000_0000
    ensures var s := Serve(m, Head(m, version, flags, 2, |data|) + data + rest);
      var next := Serve(Mode(m.force, OrderBehind(m, flags)), rest);
      && s.deliveries == next.deliveries && s.fault == next.fault
      && s.replies == [AppReply(2, if 2 <= version <= 127 then data else [])] + next.replies
  {
    hide Serve, FrameBytes, Head, HasBit;
    var f := Frame(Header(version, flags, 2, |data|), data, OrderBehind(m, flags));
    LiteralFrame(m, version, flags, 2, |data|, data);
    ServeFrame(m, f, rest);
    Nil(Serve(After(m, f.header), rest).deliveries);
  }

  /** Any other message in front of any stream is returned as it is, and not answered. */
  lemma MessageServed(m: Mode, version: byte, flags: byte, command: byte, data: seq<byte>, rest: seq<byte>)
    requires !Control(flags) && command != 2 && |data| < 0x8000_0000
    ensures var s := Serve(m, Head(m, version, flags, command, |data|) + data + rest);
      var next := Serve(Mode(m.force, OrderBehind(m, flags)), rest);
      && s.deliveries
      == [Delivery(Header(version, flags, command, |data|), data, OrderBehind(m, flags))] + next.deliveries
      && s.replies == next.replies && s.fault == next.fault
  {
    hide Serve, FrameBytes, Head, HasBit;
    var f := Frame(Header(version, flags, command, |data|), data, OrderBehind(m, flags));
    LiteralFrame(m, version, flags, command, |data|, data);
    ServeFrame(m, f, rest);
    Nil(Serve(After(m, f.header), rest).replies);
  }

  /** What ends a session: a negative size makes Go panic, a byte other than 0xCA is refused, a short frame is cut. */
  lemma SessionEnds(m: Mode, version: byte, flags: byte, command: byte, size: nat, rest: seq<byte>)
    requires !Control(flags) && size < 0x1_0000_0000
    ensures size >= 0x8000_0000 ==>
      Serve(m, Head(m, version, flags, command, size) + rest) == Session([], [], Panic)
    ensures |rest| < size < 0x8000_0000 ==>
      Serve(m, Head(m, version, flags, command, size) + rest) == Session([], [], Eof)
  {
    hide HasBit, EncHeader, DecHeader, FrameBytes;
    var h := Header(version, flags, command, size);
    LiteralFrame(m, version, flags, command, size, []);
    assert Head(m, version, flags, command, size) == EncHeader(HeaderOrder(m, flags), h) by { LiteralHeader(m, h); }
    HeaderRoundTrip(m, h, rest);
    NextConsumes(m, Head(m, version, flags, command, size) + rest);
  }

  lemma LiteralHeader(m: Mode, h: Header)
    ensures Head(m, h.version, h.flags, h.command, h.size) == EncHeader(HeaderOrder(m, h.flags), h)
  {
  }

  lemma MagicRefused(m: Mode, b: byte, rest: seq<byte>)
    requires b != 0xCA
    ensures Serve(m, [b] + rest) == Session([], [], BadMagic)
  {
    NextConsumes(m, [b] + rest);
  }

  // Requests in a stream

  /** Message n of the stream is the get request r, encoded in its frame's order. */
  predicate Carries(fs: seq<Frame>, n: nat, r: GetRequest)
    requires RequestHoldable(r)
  {
    n < |Messages(fs)| && Messages(fs)[n].data == EncGetRequest(Messages(fs)[n].order, r)
  }

  /**
   * A get request sent in a stream of frames in changing byte orders, among control messages, echoes and messages of
   * any other kind, is what a server decodes from the message the Next call in its place returns.
   */
  lemma RequestsSurvive(m: Mode, fs: seq<Frame>, n: nat, r: GetRequest)
    requires Agreed(m, fs) && RequestHoldable(r) && RequestReadable(r) && Carries(fs, n, r)
    ensures var ds := Serve(m, Wire(fs)).deliveries;
      n < |ds| && DecGetRequest(ds[n].order, ds[n].data) == Ok(Carried(r), [])
  {
    hide DecGetRequest, EncGetRequest, Carried;
    ServeStream(m, fs);
    GetRequestRead(Messages(fs)[n].order, r, []);
    Nil(Messages(fs)[n].data);
  }

  // Byte order over arbitrary input

  /** A header read in a session, and the order in force behind it. */
  datatype Seen = Seen(header: Header, order: ByteOrder)

  /** Every header that repeated Next calls read. */
  function Headers(m: Mode, input: seq<byte>): seq<Seen>
    decreases |input|
  {
    match DecHeader(m, input)
    case Err(_) => []
    case Ok(h, rest) =>
      [Seen(h, After(m, h).order)] +
      (if IsCtrl(h) then Headers(After(m, h), rest)
       else if h.size >= TWO_31 || h.size > |rest| then []
       else Headers(After(m, h), rest[h.size..]))
  }

  /** The index of the first header that freezes the order, or the number of headers. */
  function FirstFreeze(hs: seq<Seen>): (k: nat)
    ensures k <= |hs|
    ensures k < |hs| ==> Freezes(hs[k].header)
    ensures forall j :: 0 <= j < k ==> !Freezes(hs[j].header)
  {
    if |hs| == 0 || Freezes(hs[0].header) then 0 else 1 + FirstFreeze(hs[1..])
  }

  lemma {:induction false} FrozenHeaders(m: Mode, input: seq<byte>)
    requires m.force
    ensures forall k :: 0 <= k < |Headers(m, input)| ==> Headers(m, input)[k].order == m.order
    decreases |input|
  {
    match DecHeader(m, input)
    case Err(_) =>
    case Ok(h, rest) =>
      if IsCtrl(h) {
        FrozenHeaders(After(m, h), rest);
      } else if h.size < TWO_31 && h.size <= |rest| {
        FrozenHeaders(After(m, h), rest[h.size..]);
      }
  }

  /** The order behind each header: announced by its own flag up to the first freeze, fixed by then afterwards. */
  predicate Frozen(hs: seq<Seen>) {
    forall k :: 0 <= k < |hs| ==>
      hs[k].order == if k <= FirstFreeze(hs) then FlagOrder(hs[k].header.flags) else hs[FirstFreeze(hs)].order
  }

  lemma FrozenCons(h: Seen, hs: seq<Seen>)
    requires h.order == FlagOrder(h.header.flags)
    requires if Freezes(h.header) then forall k :: 0 <= k < |hs| ==> hs[k].order == h.order else Frozen(hs)
    ensures Frozen([h] + hs)
  {
  }

  /**
   * On any input at all: up to and including the first SET_BYTE_ORDER of size 0, the order behind each header is the
   * one its own flag announces; behind it the order never changes again, whatever the flags say.
   */
  lemma {:induction false} ByteOrderFreezes(m: Mode, input: seq<byte>)
    requires !m.force
    ensures Frozen(Headers(m, input))
    decreases |input|
  {
    hide DecHeader, HasBit, Frozen;
    match DecHeader(m, input)
    case Err(_) => FrozenNone();
    case Ok(h, rest) =>
      var here := Seen(h, After(m, h).order);
      if IsCtrl(h) || (h.size < TWO_31 && h.size <= |rest|) {
        var rest' := if IsCtrl(h) then rest else rest[h.size..];
        if Freezes(h) {
          FrozenHeaders(After(m, h), rest');
        } else {
          ByteOrderFreezes(After(m, h), rest');
        }
        FrozenCons(here, Headers(After(m, h), rest'));
      } else {
        FrozenNone();
        FrozenCons(here, []);
      }
  }

  lemma FrozenNone()
    ensures Frozen([])
  {
  }

  /** Every message returned was read behind one of those headers, in the order in force there. */
  lemma {:induction false} DeliveriesSeen(m: Mode, input: seq<byte>, d: Delivery)
    requires d in Serve(m, input).deliveries
    ensures Seen(d.header, d.order) in Headers(m, input)
    decreases |input|
  {
    NextConsumes(m, input);
    NextSeen(m, input);
    var r := Next(m, input);
    if d != r.delivery {
      DeliveriesSeen(r.mode, r.rest, d);
    }
  }

  lemma {:induction false} NextSeen(m: Mode, input: seq<byte>)
    ensures var r := Next(m, input);
      r.Delivered? ==>
        && Seen(r.delivery.header, r.delivery.order) in Headers(m, input)
        && forall s :: s in Headers(r.mode, r.rest) ==> s in Headers(m, input)
    decreases |input|
  {
    match DecHeader(m, input)
    case Err(_) =>
    case Ok(h, rest) =>
      if IsCtrl(h) {
        NextSeen(After(m, h), rest);
      } else if h.size < TWO_31 && h.size <= |rest| && h.command == APP_ECHO {
        NextSeen(After(m, h), rest[h.size..]);
      }
  }
}
