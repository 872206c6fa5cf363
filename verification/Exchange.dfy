/** Two connections: what one sends is what repeated Next on the other returns and answers. */
module Exchange {
  import opened Bytes
  import opened Records
  import opened Proto
  import opened Framing
  import opened Connection

  /** Control sizes are 32-bit integers, and payloads have fewer than 2^31 bytes. */
  predicate Deliverable(o: ByteOrder, out: Outgoing) {
    match out
    case OutCtrl(_, _, size) => size < Pow256(4)
    case OutApp(_, _, payload) => PayloadHoldable(payload) && |PayloadBytes(o, payload)| < TWO_31
  }

  predicate AllDeliverable(o: ByteOrder, log: seq<Outgoing>) {
    |log| == 0 || (Deliverable(o, log[0]) && AllDeliverable(o, log[1..]))
  }

  /** The frame of a message sent. */
  function FrameOf(direction: byte, o: ByteOrder, out: Outgoing): (f: Frame)
    requires IsDirection(direction)
    requires Deliverable(o, out)
    ensures WellFormed(f) && f.order == o && FrameBytes(f) == FreshFrame(direction, o, out)
    ensures FlagOrder(f.header.flags) == o
  {
    Widths();
    match out
    case OutCtrl(version, command, size) =>
      var header := Header(version, AppFlags(direction, o) + FLAG_MSG_CTRL, command, size);
      Nil(EncHeader(o, header));
      Frame(header, [], o)
    case OutApp(version, command, payload) =>
      var bytes := PayloadBytes(o, payload);
      Frame(Header(version, AppFlags(direction, o), command, |bytes|), bytes, o)
  }

  function Frames(direction: byte, o: ByteOrder, log: seq<Outgoing>): (fs: seq<Frame>)
    requires IsDirection(direction)
    requires AllDeliverable(o, log)
    ensures |fs| == |log|
  {
    if |log| == 0 then [] else [FrameOf(direction, o, log[0])] + Frames(direction, o, log[1..])
  }

  lemma {:induction false} DeliverableHoldable(o: ByteOrder, log: seq<Outgoing>)
    requires AllDeliverable(o, log)
    ensures LogHoldable(log)
  {
    if |log| > 0 {
      DeliverableHoldable(o, log[1..]);
      assert forall k :: 0 < k < |log| ==> log[k] == log[1..][k - 1];
    }
  }

  /** The bytes on the wire, first message first. */
  lemma {:induction false} FreshFramesCons(direction: byte, o: ByteOrder, out: Outgoing, log: seq<Outgoing>)
    requires IsDirection(direction)
    requires LogHoldable(log) && (out.OutApp? ==> PayloadHoldable(out.payload))
    ensures LogHoldable([out] + log)
    ensures FreshFrames(direction, o, [out] + log) == FreshFrame(direction, o, out) + FreshFrames(direction, o, log)
    decreases |log|
  {
    hide FreshFrame, PayloadHoldable;
    if |log| == 0 {
      FreshFramesSnoc(direction, o, [], out);
      Nil([out]);
      Nil(FreshFrame(direction, o, out));
    } else {
      var init, last := log[..|log| - 1], log[|log| - 1];
      assert log == init + [last];
      Assoc([out], init, [last]);
      assert LogHoldable([out] + init);
      FreshFramesCons(direction, o, out, init);
      FreshFramesSnoc(direction, o, init, last);
      FreshFramesSnoc(direction, o, [out] + init, last);
      Assoc(FreshFrame(direction, o, out), FreshFrames(direction, o, init), FreshFrame(direction, o, last));
    }
  }

  lemma {:induction false} WireOfFrames(direction: byte, o: ByteOrder, log: seq<Outgoing>)
    requires IsDirection(direction)
    requires AllDeliverable(o, log)
    ensures LogHoldable(log) && Wire(Frames(direction, o, log)) == FreshFrames(direction, o, log)
  {
    DeliverableHoldable(o, log);
    hide FreshFrame, FrameOf, FrameBytes, LogHoldable;
    if |log| > 0 {
      WireOfFrames(direction, o, log[1..]);
      Uncons(log);
      FreshFramesCons(direction, o, log[0], log[1..]);
      Cons(FrameOf(direction, o, log[0]), Frames(direction, o, log[1..]));
    }
  }

  /** A receiver whose order is frozen at all is frozen in the sender's. */
  lemma {:induction false} FramesAgreed(m: Mode, direction: byte, o: ByteOrder, log: seq<Outgoing>)
    requires IsDirection(direction)
    requires AllDeliverable(o, log) && (m.force ==> m.order == o)
    ensures Agreed(m, Frames(direction, o, log))
    decreases |log|
  {
    hide FrameOf, HasBit;
    if |log| > 0 {
      var f := FrameOf(direction, o, log[0]);
      FramesAgreed(After(m, f.header), direction, o, log[1..]);
      Cons(f, Frames(direction, o, log[1..]));
    }
  }

  /**
   * For everything a connection ever sends, in either direction and byte order, control messages and echoes
   * included: the receiver's Next returns exactly the application messages sent, with their payload bytes, in order,
   * answers exactly the messages that need an answer, in order, and ends at the end of the stream.
   */
  lemma SentIsReceived(m: Mode, direction: byte, o: ByteOrder, log: seq<Outgoing>)
    requires IsDirection(direction)
    requires AllDeliverable(o, log) && (m.force ==> m.order == o)
    ensures LogHoldable(log)
    ensures var fs := Frames(direction, o, log);
      Serve(m, FreshFrames(direction, o, log)) == Session(Messages(fs), Replies(fs), Eof)
  {
    FramesAgreed(m, direction, o, log);
    WireOfFrames(direction, o, log);
    ServeStream(m, Frames(direction, o, log));
  }

  /** An application message other than an echo: what the receiver's Next returns. */
  predicate IsReturned(out: Outgoing) {
    out.OutApp? && out.command != APP_ECHO
  }

  /** How many such messages were sent before message k. */
  function ReturnedBefore(log: seq<Outgoing>, k: nat): nat
    requires k <= |log|
  {
    if k == 0 then 0 else (if IsReturned(log[0]) then 1 else 0) + ReturnedBefore(log[1..], k - 1)
  }

  /** d is what Next returns for the message. */
  predicate Returns(o: ByteOrder, out: Outgoing, d: Delivery)
    requires IsReturned(out) && PayloadHoldable(out.payload)
  {
    && d.order == o && d.data == PayloadBytes(o, out.payload)
    && d.header.command == out.command && d.header.version == out.version
  }

  /** The first message of a log, and what its frame adds to the messages returned. */
  lemma FirstReturned(direction: byte, o: ByteOrder, log: seq<Outgoing>)
    requires IsDirection(direction) && AllDeliverable(o, log) && |log| > 0
    ensures var f, more := FrameOf(direction, o, log[0]), Messages(Frames(direction, o, log[1..]));
      var d := Delivery(f.header, f.data, f.order);
      && Messages(Frames(direction, o, log)) == (if IsReturned(log[0]) then [d] + more else more)
      && (IsReturned(log[0]) ==> PayloadHoldable(log[0].payload) && Returns(o, log[0], d))
  {
    hide PayloadBytes, HasBit, PayloadHoldable, FreshFrame, FlagOrder, FrameBytes;
    var f := FrameOf(direction, o, log[0]);
    Cons(f, Frames(direction, o, log[1..]));
    Nil(Messages(Frames(direction, o, log[1..])));
  }

  lemma {:induction false} MessageAt(direction: byte, o: ByteOrder, log: seq<Outgoing>, k: nat)
    requires IsDirection(direction)
    requires AllDeliverable(o, log) && k < |log| && IsReturned(log[k])
    ensures PayloadHoldable(log[k].payload)
    ensures var ds, n := Messages(Frames(direction, o, log)), ReturnedBefore(log, k);
      n < |ds| && Returns(o, log[k], ds[n])
  {
    hide Messages, Frames, FrameOf, Returns, PayloadHoldable, Deliverable, IsReturned;
    FirstReturned(direction, o, log);
    if k > 0 {
      MessageAt(direction, o, log[1..], k - 1);
    }
  }

  /**
   * Any message structure sent over a connection, among control messages, echoes and other messages, is read back by
   * Decode on the other side from what the Next call in its place returned, to the end of its payload: every member
   * up to a status that ends the structure, then what the receiver prepared.
   */
  lemma StructureSurvives(m: Mode, direction: byte, o: ByteOrder, log: seq<Outgoing>, k: nat, targets: seq<Member>)
    requires IsDirection(direction)
    requires AllDeliverable(o, log) && (m.force ==> m.order == o)
    requires k < |log| && IsReturned(log[k]) && log[k].payload.Structure? && PayloadHoldable(log[k].payload)
    requires RecordHoldable(targets) && RecordReceived(targets, log[k].payload.members)
    ensures LogHoldable(log)
    ensures var ds, n := Serve(m, FreshFrames(direction, o, log)).deliveries, ReturnedBefore(log, k);
      && n < |ds| && ds[n].header.command == log[k].command
      && DecRecord(ds[n].order, targets, ds[n].data) == Ok(Arrived(targets, log[k].payload.members), [])
  {
    hide DecRecord, Arrived, RecordHoldable, Serve, Messages, Frames, EncRecord, ReturnedBefore, FreshFrames,
         LogHoldable;
    var ms := log[k].payload.members;
    SentIsReceived(m, direction, o, log);
    MessageAt(direction, o, log, k);
    RecordRoundTrip(o, targets, ms, []);
    Nil(EncRecord(o, ms));
  }
}
