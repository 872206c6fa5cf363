/** The message header and the requests whose fields depend on a subcommand. */
module Proto {
  import opened Bytes
  import opened Sizes
  import opened Values
  import opened Variant
  import opened Records
  import opened Encoder
  import opened Decoder

  const MAGIC: byte := 0xCA

  const FLAG_MSG_CTRL: byte := 1
  const FLAG_FROM_CLIENT: byte := 0x00
  const FLAG_FROM_SERVER: byte := 0x40
  const FLAG_BO_BE: byte := 0x80

  const APP_ECHO: byte := 0x02
  const CTRL_MARK_TOTAL_BYTE_SENT: byte := 0x00
  const CTRL_ACK_TOTAL_BYTE_SENT: byte := 0x01
  const CTRL_SET_BYTE_ORDER: byte := 0x02
  const CTRL_ECHO_REQUEST: byte := 0x03
  const CTRL_ECHO_RESPONSE: byte := 0x04

  const REQUEST_INIT: byte := 0x08
  const MONITOR_PIPELINE: byte := 0x80

  /** size is the bit pattern of a PVInt. */
  datatype Header = Header(version: byte, flags: byte, command: byte, size: nat)

  /** The decoder's byte order, and whether headers may still change it. */
  datatype Mode = Mode(force: bool, order: ByteOrder)

  function FlagOrder(flags: byte): ByteOrder {
    if HasBit(flags, FLAG_BO_BE) then BigEndian else LittleEndian
  }

  /** The order in which a header's size, and everything until the next header, is read. */
  function HeaderOrder(m: Mode, flags: byte): ByteOrder {
    if m.force then m.order else FlagOrder(flags)
  }

  function EncHeader(o: ByteOrder, h: Header): seq<byte> {
    [MAGIC, h.version, h.flags, h.command] + Put(o, 4, h.size)
  }

  /** PVAccessHeader.PVDecode. */
  function DecHeader(m: Mode, input: seq<byte>): (r: Parsed<Header>)
    ensures r.Ok? ==> |r.rest| == |input| - 8
  {
    var (magic, rest) :- ReadByte(input);
    if magic != MAGIC then Err(BadMagic)
    else
      var (fixed, rest1) :- ReadFixed(rest);
      var (size, rest2) :- ReadUint(HeaderOrder(m, fixed.1), 4, rest1);
      Ok(Header(fixed.0, fixed.1, fixed.2, size), rest2)
  }

  /** Version, flags and command. */
  function ReadFixed(input: seq<byte>): (r: Parsed<(byte, byte, byte)>)
    ensures r.Ok? ==> |r.rest| == |input| - 3
  {
    if |input| < 3 then Err(Eof) else Ok((input[0], input[1], input[2]), input[3..])
  }

  lemma HeaderRoundTrip(m: Mode, h: Header, rest: seq<byte>)
    requires h.size < Pow256(4)
    ensures DecHeader(m, EncHeader(HeaderOrder(m, h.flags), h) + rest) == Ok(h, rest)
  {
    var o := HeaderOrder(m, h.flags);
    var input := EncHeader(o, h) + rest;
    assert input[1..][3..] == Put(o, 4, h.size) + rest;
    ReadWritten(o, 4, h.size, rest);
  }

  // Get and monitor requests

  datatype GetRequest = GetRequest(channelID: nat, requestID: nat, subcommand: byte, pvRequest: Option<PV>)

  datatype MonitorRequest = MonitorRequest(get: GetRequest, nfree: nat, queueSize: nat)

  predicate RequestHoldable(r: GetRequest) {
    && r.channelID < Pow256(4) && r.requestID < Pow256(4)
    && (r.pvRequest.Some? ==> Holdable(r.pvRequest.value))
  }

  predicate MonitorHoldable(r: MonitorRequest) {
    RequestHoldable(r.get) && r.nfree < Pow256(4) && r.queueSize < Pow256(4)
  }

  /** The requested fields can be read back. */
  predicate RequestReadable(r: GetRequest) {
    r.pvRequest.Some? ==> Plain(r.pvRequest.value) && Buildable(r.pvRequest.value)
  }

  function EncGetRequest(o: ByteOrder, r: GetRequest): seq<byte>
    requires RequestHoldable(r)
  {
    Put(o, 4, r.channelID) + Put(o, 4, r.requestID) + [r.subcommand]
    + (if HasBit(r.subcommand, REQUEST_INIT) then EncAny(o, r.pvRequest) else [])
  }

  function DecGetRequest(o: ByteOrder, input: seq<byte>): Parsed<GetRequest> {
    var (channelID, rest) :- ReadUint(o, 4, input);
    var (requestID, rest1) :- ReadUint(o, 4, rest);
    var (subcommand, rest2) :- ReadByte(rest1);
    if HasBit(subcommand, REQUEST_INIT) then
      var (data, rest3) :- DecAny(o, WHOLE, 0, rest2);
      Ok(GetRequest(channelID, requestID, subcommand, data.0), rest3)
    else Ok(GetRequest(channelID, requestID, subcommand, None), rest2)
  }

  function EncMonitorRequest(o: ByteOrder, r: MonitorRequest): seq<byte>
    requires MonitorHoldable(r)
  {
    EncGetRequest(o, r.get)
    + (if HasBit(r.get.subcommand, MONITOR_PIPELINE) then Put(o, 4, r.nfree) + Put(o, 4, r.queueSize) else [])
  }

  function DecMonitorRequest(o: ByteOrder, input: seq<byte>): Parsed<MonitorRequest> {
    var (get, rest) :- DecGetRequest(o, input);
    if HasBit(get.subcommand, MONITOR_PIPELINE) then
      var (nfree, rest1) :- ReadUint(o, 4, rest);
      var (queueSize, rest2) :- ReadUint(o, 4, rest1);
      Ok(MonitorRequest(get, nfree, queueSize), rest2)
    else Ok(MonitorRequest(get, 0, 0), rest)
  }

  /** What a get request carries for its subcommand. */
  function Carried(r: GetRequest): GetRequest {
    if HasBit(r.subcommand, REQUEST_INIT) then r else r.(pvRequest := None)
  }

  lemma GetRequestRead(o: ByteOrder, r: GetRequest, rest: seq<byte>)
    requires RequestHoldable(r) && RequestReadable(r)
    ensures DecGetRequest(o, EncGetRequest(o, r) + rest) == Ok(Carried(r), rest)
  {
    hide EncAny, DecAny, Put, ReadUint, HasBit;
    var any := if HasBit(r.subcommand, REQUEST_INIT) then EncAny(o, r.pvRequest) else [];
    var behind := [r.subcommand] + (any + rest);
    assert EncGetRequest(o, r) + rest == Put(o, 4, r.channelID) + (Put(o, 4, r.requestID) + behind);
    ReadWritten(o, 4, r.channelID, Put(o, 4, r.requestID) + behind);
    ReadWritten(o, 4, r.requestID, behind);
    Cons(r.subcommand, any + rest);
    Nil(rest);
    if r.pvRequest.Some? {
      AnyRoundTrip(o, r.pvRequest.value, 0, rest);
    } else {
      NullRoundTrip(o, WHOLE, 0, rest);
    }
  }

  /** A get request comes back exactly when it has no requested fields its subcommand does not carry. */
  lemma GetRequestRoundTrip(o: ByteOrder, r: GetRequest, rest: seq<byte>)
    requires RequestHoldable(r) && RequestReadable(r)
    ensures DecGetRequest(o, EncGetRequest(o, r) + rest) == Ok(r, rest)
       <==> HasBit(r.subcommand, REQUEST_INIT) || r.pvRequest == None
  {
    GetRequestRead(o, r, rest);
  }

  /** A monitor request comes back exactly when the fields absent for its subcommand are zero. */
  lemma MonitorRequestRoundTrip(o: ByteOrder, r: MonitorRequest, rest: seq<byte>)
    requires MonitorHoldable(r) && RequestReadable(r.get)
    ensures DecMonitorRequest(o, EncMonitorRequest(o, r) + rest) == Ok(r, rest)
       <==> && (HasBit(r.get.subcommand, REQUEST_INIT) || r.get.pvRequest == None)
            && (HasBit(r.get.subcommand, MONITOR_PIPELINE) || (r.nfree == 0 && r.queueSize == 0))
  {
    hide EncGetRequest, DecGetRequest, Put, ReadUint, HasBit;
    var pipelined := HasBit(r.get.subcommand, MONITOR_PIPELINE);
    var credit := Put(o, 4, r.nfree) + (Put(o, 4, r.queueSize) + rest);
    var behind := if pipelined then credit else rest;
    Nil(EncGetRequest(o, r.get));
    assert EncMonitorRequest(o, r) + rest == EncGetRequest(o, r.get) + behind;
    GetRequestRead(o, r.get, behind);
    ReadWritten(o, 4, r.nfree, Put(o, 4, r.queueSize) + rest);
    ReadWritten(o, 4, r.queueSize, rest);
  }

  /** The bytes of requests: bit 3 of the subcommand announces requested fields, bit 7 the pipeline fields. */
  lemma RequestBytes(o: ByteOrder, r: MonitorRequest)
    requires MonitorHoldable(r)
    ensures EncGetRequest(o, r.get)
         == Put(o, 4, r.get.channelID) + Put(o, 4, r.get.requestID) + [r.get.subcommand]
            + (if r.get.subcommand / 8 % 2 == 1 then EncAny(o, r.get.pvRequest) else [])
    ensures EncMonitorRequest(o, r)
         == EncGetRequest(o, r.get)
            + (if r.get.subcommand >= 0x80 then Put(o, 4, r.nfree) + Put(o, 4, r.queueSize) else [])
  {
  }

  // Channel creation

  datatype ChannelName = ChannelName(clientID: nat, name: Text)

  const NAME_BOUND: nat := 500

  predicate ChannelsHoldable(cs: seq<ChannelName>) {
    |cs| == 0 || (cs[0].clientID < Pow256(4) && ChannelsHoldable(cs[1..]))
  }

  predicate NamesShort(cs: seq<ChannelName>) {
    forall k :: 0 <= k < |cs| ==> |cs[k].name| <= NAME_BOUND
  }

  /** CreateChannelRequest.PVEncode: refused for a name over its bound; the count is truncated to 16 bits as in Go. */
  function EncCreateRequest(o: ByteOrder, cs: seq<ChannelName>): Option<seq<byte>> {
    if NamesShort(cs) then Some(Put(o, 2, |cs| % 0x1_0000) + EncChannels(o, cs)) else None
  }

  function EncChannels(o: ByteOrder, cs: seq<ChannelName>): seq<byte> {
    if |cs| == 0 then []
    else Put(o, 4, cs[0].clientID) + EncText(o, cs[0].name) + EncChannels(o, cs[1..])
  }

  /** CreateChannelRequest.PVDecode: the count is signed, and a negative one makes Go panic. */
  function DecCreateRequest(o: ByteOrder, input: seq<byte>): Parsed<seq<ChannelName>> {
    var (count, rest) :- ReadUint(o, 2, input);
    Widths();
    if AsInt16(count) < 0 then Err(Panic) else DecChannels(o, AsInt16(count), rest)
  }

  function DecChannels(o: ByteOrder, n: nat, input: seq<byte>): (r: Parsed<seq<ChannelName>>)
    ensures r.Ok? ==> |r.value| == n
  {
    if n == 0 then Ok([], input)
    else
      var (clientID, rest) :- ReadUint(o, 4, input);
      var (name, rest1) :- DecText(o, rest);
      var (cs, rest2) :- DecChannels(o, n - 1, rest1);
      Ok([ChannelName(clientID, name)] + cs, rest2)
  }

  lemma {:induction false} ChannelsRoundTrip(o: ByteOrder, cs: seq<ChannelName>, rest: seq<byte>)
    requires ChannelsHoldable(cs)
    ensures DecChannels(o, |cs|, EncChannels(o, cs) + rest) == Ok(cs, rest)
  {
    hide EncText, DecText, Put, ReadUint;
    if |cs| == 0 {
      Nil(rest);
    } else {
      var id, name, more := Put(o, 4, cs[0].clientID), EncText(o, cs[0].name), EncChannels(o, cs[1..]);
      Assoc(id + name, more, rest);
      Assoc(id, name, more + rest);
      ReadWritten(o, 4, cs[0].clientID, name + (more + rest));
      TextRoundTrip(o, cs[0].name, more + rest);
      ChannelsRoundTrip(o, cs[1..], rest);
      Uncons(cs);
    }
  }

  /** The bytes of a creation request, sent for names of up to 500 bytes. */
  lemma CreateRequestBytes(o: ByteOrder, c: ChannelName, cs: seq<ChannelName>)
    requires NamesShort(cs)
    ensures EncCreateRequest(o, []) == Some(Put(o, 2, 0))
    ensures EncCreateRequest(o, cs) == Some(Put(o, 2, |cs| % 0x1_0000) + EncChannels(o, cs))
    ensures EncChannels(o, [c] + cs) == Put(o, 4, c.clientID) + EncText(o, c.name) + EncChannels(o, cs)
    ensures EncCreateRequest(o, [c]).Some? <==> |c.name| <= 500
  {
    Cons(c, cs);
    Nil(Put(o, 2, 0));
    assert [c][0] == c;
  }

  /** A count survives truncation to a signed 16-bit integer exactly when it is less than 2^15. */
  lemma CountWraps(n: nat)
    ensures AsInt16(n % 0x1_0000) == n <==> n < 0x8000
  {
  }

  /** A channel creation request is sent and comes back exactly when no name is too long and its count fits 16 bits. */
  lemma CreateRequestRoundTrip(o: ByteOrder, cs: seq<ChannelName>, rest: seq<byte>)
    requires ChannelsHoldable(cs)
    ensures var sent := EncCreateRequest(o, cs);
      sent.Some? && DecCreateRequest(o, sent.value + rest) == Ok(cs, rest) <==> NamesShort(cs) && |cs| < 0x8000
  {
    hide EncChannels, DecChannels, Put, ReadUint, ChannelsHoldable, NamesShort;
    Widths();
    CountWraps(|cs|);
    Assoc(Put(o, 2, |cs| % 0x1_0000), EncChannels(o, cs), rest);
    ReadWritten(o, 2, |cs| % 0x1_0000, EncChannels(o, cs) + rest);
    ChannelsRoundTrip(o, cs, rest);
  }

  // The codec methods

  method EncodeHeader(s: EncoderState, h: Header)
    modifies s.buf
    ensures s.buf.data == old(s.buf.data) + EncHeader(s.order, h)
  {
    Assoc(s.buf.data, [MAGIC, h.version, h.flags, h.command], Put(s.order, 4, h.size));
    s.buf.Write([MAGIC]);
    s.buf.Write([h.version, h.flags, h.command]);
    s.WriteUint(4, h.size);
  }

  /** The flags are read before the size, and unless the order is forced they set the decoder's byte order. */
  method DecodeHeader(s: DecoderState, force: bool) returns (r: Result<Header>)
    modifies s`order, s.buf
    ensures Follows(r, DecHeader(Mode(force, old(s.order)), old(s.buf.data)), s.buf.data)
    ensures r.Done? ==> s.order == HeaderOrder(Mode(force, old(s.order)), r.value.flags)
  {
    hide ReadUint, HasBit;
    var magic := s.buf.NextByte();
    if magic.Fail? {
      return Fail(magic.fault);
    }
    if magic.value != MAGIC {
      return Fail(BadMagic);
    }
    var fixed := s.buf.ReadFull(3);
    if fixed.Fail? {
      return Fail(fixed.fault);
    }
    if !force {
      s.order := FlagOrder(fixed.value[1]);
    }
    var size := s.DecodeUint(4);
    if size.Fail? {
      return Fail(size.fault);
    }
    return Done(Header(fixed.value[0], fixed.value[1], fixed.value[2], size.value));
  }

  method EncodeGetRequest(s: EncoderState, r: GetRequest) returns (ok: bool)
    requires RequestHoldable(r)
    modifies s, s.buf
    ensures s.buf == old(s.buf) && s.order == old(s.order)
    ensures ok == (HasBit(r.subcommand, REQUEST_INIT) && r.pvRequest.Some? ==> Encodable(r.pvRequest.value))
    ensures ok ==> s.buf.data == old(s.buf.data) + EncGetRequest(s.order, r)
  {
    hide EncAny, HasBit, Put;
    ghost var ids := Put(s.order, 4, r.channelID) + Put(s.order, 4, r.requestID) + [r.subcommand];
    Assoc(s.buf.data, Put(s.order, 4, r.channelID), Put(s.order, 4, r.requestID));
    Assoc(s.buf.data, Put(s.order, 4, r.channelID) + Put(s.order, 4, r.requestID), [r.subcommand]);
    s.WriteUint(4, r.channelID);
    s.WriteUint(4, r.requestID);
    s.buf.Write([r.subcommand]);
    assert s.buf.data == old(s.buf.data) + ids;
    Nil(ids);
    ok := true;
    if HasBit(r.subcommand, REQUEST_INIT) {
      Assoc(old(s.buf.data), ids, EncAny(s.order, r.pvRequest));
      ok := s.EncodeAny(r.pvRequest);
    }
  }

  method DecodeGetRequest(s: DecoderState) returns (r: Result<GetRequest>)
    requires !s.useChangedBitSet && s.changedBitSetIndex == 0
    modifies s, s.buf
    ensures s.buf == old(s.buf) && s.order == old(s.order) && !s.useChangedBitSet
    ensures Follows(r, DecGetRequest(s.order, old(s.buf.data)), s.buf.data)
  {
    hide DecAny, ReadUint, HasBit;
    var channelID := s.DecodeUint(4);
    if channelID.Fail? {
      return Fail(channelID.fault);
    }
    var requestID := s.DecodeUint(4);
    if requestID.Fail? {
      return Fail(requestID.fault);
    }
    var subcommand := s.buf.NextByte();
    if subcommand.Fail? {
      return Fail(subcommand.fault);
    }
    if !HasBit(subcommand.value, REQUEST_INIT) {
      return Done(GetRequest(channelID.value, requestID.value, subcommand.value, None));
    }
    var data := s.DecodeAny();
    if data.Fail? {
      return Fail(data.fault);
    }
    return Done(GetRequest(channelID.value, requestID.value, subcommand.value, data.value));
  }

  method EncodeMonitorRequest(s: EncoderState, r: MonitorRequest) returns (ok: bool)
    requires MonitorHoldable(r)
    modifies s, s.buf
    ensures s.buf == old(s.buf) && s.order == old(s.order)
    ensures ok == (HasBit(r.get.subcommand, REQUEST_INIT) && r.get.pvRequest.Some? ==> Encodable(r.get.pvRequest.value))
    ensures ok ==> s.buf.data == old(s.buf.data) + EncMonitorRequest(s.order, r)
  {
    hide EncGetRequest, HasBit, Put;
    ok := EncodeGetRequest(s, r.get);
    Nil(EncGetRequest(s.order, r.get));
    if ok && HasBit(r.get.subcommand, MONITOR_PIPELINE) {
      ghost var get := EncGetRequest(s.order, r.get);
      ghost var nfree, queueSize := Put(s.order, 4, r.nfree), Put(s.order, 4, r.queueSize);
      Assoc(old(s.buf.data), get, nfree + queueSize);
      Assoc(s.buf.data, nfree, queueSize);
      s.WriteUint(4, r.nfree);
      s.WriteUint(4, r.queueSize);
    }
  }

  method DecodeMonitorRequest(s: DecoderState) returns (r: Result<MonitorRequest>)
    requires !s.useChangedBitSet && s.changedBitSetIndex == 0
    modifies s, s.buf
    ensures s.buf == old(s.buf) && s.order == old(s.order) && !s.useChangedBitSet
    ensures Follows(r, DecMonitorRequest(s.order, old(s.buf.data)), s.buf.data)
  {
    hide DecGetRequest, ReadUint, HasBit;
    var get := DecodeGetRequest(s);
    if get.Fail? {
      return Fail(get.fault);
    }
    if !HasBit(get.value.subcommand, MONITOR_PIPELINE) {
      return Done(MonitorRequest(get.value, 0, 0));
    }
    var nfree := s.DecodeUint(4);
    if nfree.Fail? {
      return Fail(nfree.fault);
    }
    var queueSize := s.DecodeUint(4);
    if queueSize.Fail? {
      return Fail(queueSize.fault);
    }
    return Done(MonitorRequest(get.value, nfree.value, queueSize.value));
  }

  /** CreateChannelRequest.PVEncode: a name longer than 500 bytes is refused. */
  method EncodeCreateRequest(s: EncoderState, cs: seq<ChannelName>) returns (ok: bool)
    modifies s.buf
    ensures match EncCreateRequest(s.order, cs)
      case Some(sent) => ok && s.buf.data == old(s.buf.data) + sent
      case None => !ok
  {
    hide EncText, Put;
    ghost var all := s.buf.data + (Put(s.order, 2, |cs| % 0x1_0000) + EncChannels(s.order, cs));
    Assoc(s.buf.data, Put(s.order, 2, |cs| % 0x1_0000), EncChannels(s.order, cs));
    s.WriteUint(2, |cs| % 0x1_0000);
    assert cs[0..] == cs;
    for i := 0 to |cs|
      invariant forall k :: 0 <= k < i ==> |cs[k].name| <= NAME_BOUND
      invariant s.buf.data + EncChannels(s.order, cs[i..]) == all
    {
      assert cs[i..][1..] == cs[i + 1..];
      if |cs[i].name| > NAME_BOUND {
        return false;
      }
      ghost var id, name := Put(s.order, 4, cs[i].clientID), EncText(s.order, cs[i].name);
      Assoc(s.buf.data, id + name, EncChannels(s.order, cs[i + 1..]));
      Assoc(s.buf.data, id, name);
      s.WriteUint(4, cs[i].clientID);
      s.EncodeText(cs[i].name);
    }
    Nil(s.buf.data);
    return true;
  }

  method DecodeCreateRequest(s: DecoderState) returns (r: Result<seq<ChannelName>>)
    modifies s.buf
    ensures Follows(r, DecCreateRequest(s.order, old(s.buf.data)), s.buf.data)
  {
    hide DecText, ReadUint, DecChannels;
    Widths();
    var count := s.DecodeUint(2);
    if count.Fail? {
      return Fail(count.fault);
    }
    var n := AsInt16(count.value);
    if n < 0 {
      return Fail(Panic);
    }
    ghost var spec := DecChannels(s.order, n, s.buf.data);
    var cs: seq<ChannelName> := [];
    PrefixedNone(spec);
    while |cs| < n
      invariant |cs| <= n
      invariant spec == Prefixed(cs, DecChannels(s.order, n - |cs|, s.buf.data))
    {
      ChannelsStep(s.order, n - |cs|, cs, s.buf.data);
      var clientID := s.DecodeUint(4);
      if clientID.Fail? {
        return Fail(clientID.fault);
      }
      var name := s.DecodeText();
      if name.Fail? {
        return Fail(name.fault);
      }
      cs := cs + [ChannelName(clientID.value, name.value)];
    }
    ChannelsEnd(s.order, cs, s.buf.data);
    return Done(cs);
  }

  lemma ChannelsEnd(o: ByteOrder, cs: seq<ChannelName>, input: seq<byte>)
    ensures Prefixed(cs, DecChannels(o, 0, input)) == Ok(cs, input)
  {
    Nil(cs);
  }

  lemma ChannelsStep(o: ByteOrder, n: nat, done: seq<ChannelName>, input: seq<byte>)
    requires n > 0
    ensures Prefixed(done, DecChannels(o, n, input))
         == match ReadUint(o, 4, input)
            case Err(fault) => Err(fault)
            case Ok(clientID, rest) =>
              match DecText(o, rest)
              case Err(fault) => Err(fault)
              case Ok(name, rest') => Prefixed(done + [ChannelName(clientID, name)], DecChannels(o, n - 1, rest'))
  {
    hide DecText, ReadUint;
    var clientID := ReadUint(o, 4, input);
    if clientID.Ok? {
      var name := DecText(o, clientID.rest);
      if name.Ok? {
        var more := DecChannels(o, n - 1, name.rest);
        if more.Ok? {
          Assoc(done, [ChannelName(clientID.value, name.value)], more.value);
        }
      }
    }
  }
}
