/** Response structures: statuses, members that end a structure on error, and the messages made of them. */
module Records {
  import opened Bytes
  import opened Sizes
  import opened BitSet
  import opened Values
  import opened Partial
  import opened Descriptors
  import opened Variant

  /** code is the byte pattern of a signed PVByte. */
  datatype Status = Status(code: byte, message: Text, callTree: Text)

  const OK_STATUS: Status := Status(0, [], [])

  function EncStatus(o: ByteOrder, s: Status): seq<byte> {
    if s == OK_STATUS then [0xFF] else [s.code] + EncText(o, s.message) + EncText(o, s.callTree)
  }

  function DecStatus(o: ByteOrder, input: seq<byte>): Parsed<Status> {
    var (code, rest) :- ReadByte(input);
    if code == 0xFF then Ok(OK_STATUS, rest)
    else
      var (message, rest1) :- DecText(o, rest);
      var (callTree, rest2) :- DecText(o, rest1);
      Ok(Status(code, message, callTree), rest2)
  }

  /** A status comes back exactly when its type byte is not the mark of the short OK form. */
  lemma StatusRoundTrip(o: ByteOrder, s: Status, rest: seq<byte>)
    ensures DecStatus(o, EncStatus(o, s) + rest) == Ok(s, rest) <==> s.code != 0xFF
  {
    if s == OK_STATUS {
      assert (EncStatus(o, s) + rest)[1..] == rest;
    } else {
      var more := EncText(o, s.message) + (EncText(o, s.callTree) + rest);
      assert (EncStatus(o, s) + rest)[1..] == more;
      TextRoundTrip(o, s.message, EncText(o, s.callTree) + rest);
      TextRoundTrip(o, s.callTree, rest);
    }
  }

  /** A member of a top-level message structure. */
  datatype Member =
    | Data(value: PV)
    | StatusMember(status: Status, breakOnError: bool)
    | Diff(value: PV)
    | Desc(desc: FieldDesc)
    | Any(data: Option<PV>)
    | Bits(bits: seq<bool>)

  /** The member ends its structure: a breakonerror status above WARNING, compared as a signed byte. */
  predicate Breaks(m: Member) {
    m.StatusMember? && m.breakOnError && AsInt8(m.status.code) > 1
  }

  predicate MemberHoldable(m: Member) {
    match m
    case Data(v) => Holdable(v)
    case StatusMember(_, _) => true
    case Diff(v) => Holdable(v) && Nodes(v) + 1 < TWO_63
    case Desc(f) => Storable(f)
    case Any(data) => data.Some? ==> Holdable(data.value)
    case Bits(bits) => |bits| < TWO_63
  }

  predicate RecordHoldable(ms: seq<Member>) {
    forall k :: 0 <= k < |ms| ==> MemberHoldable(ms[k])
  }

  predicate MemberEncodable(m: Member) {
    match m
    case Data(v) => Encodable(v)
    case Diff(v) => Encodable(v)
    case Any(data) => data.Some? ==> Encodable(data.value)
    case _ => true
  }

  /** Encoding reaches the end of the record, or a member that ends it, without an error. */
  predicate RecordEncodable(ms: seq<Member>) {
    |ms| == 0 || (MemberEncodable(ms[0]) && (Breaks(ms[0]) || RecordEncodable(ms[1..])))
  }

  function EncMember(o: ByteOrder, m: Member): seq<byte>
    requires MemberHoldable(m)
  {
    match m
    case Data(v) => Enc(o, v)
    case StatusMember(s, _) => EncStatus(o, s)
    case Diff(v) => EncDiff(o, v)
    case Desc(f) => EncDesc(o, f)
    case Any(data) => EncAny(o, data)
    case Bits(bits) => EncBitSet(o, bits)
  }

  function EncRecord(o: ByteOrder, ms: seq<Member>): seq<byte>
    requires RecordHoldable(ms)
  {
    if |ms| == 0 then []
    else EncMember(o, ms[0]) + (if Breaks(ms[0]) then [] else EncRecord(o, ms[1..]))
  }

  const WHOLE: Changes := Changes(false, [])

  /** Decoding a member over the one the receiver prepared. */
  function DecMember(o: ByteOrder, target: Member, input: seq<byte>): (r: Parsed<Member>)
    requires MemberHoldable(target)
  {
    match target
    case Data(v) => var (moved, rest) :- Walk(o, WHOLE, 0, v, input); Ok(Data(moved.0), rest)
    case StatusMember(_, b) => var (s, rest) :- DecStatus(o, input); Ok(StatusMember(s, b), rest)
    case Diff(v) => var (read, rest) :- DecDiff(o, v, input); Ok(Diff(read.0), rest)
    case Desc(t) => var (f, rest) :- DecDesc(o, t, input); Ok(Desc(f), rest)
    case Any(_) => var (read, rest) :- DecAny(o, WHOLE, 0, input); Ok(Any(read.0), rest)
    case Bits(_) => var (bits, rest) :- DecBitSet(o, input); Ok(Bits(bits), rest)
  }

  /** Members behind one that ends the record keep what the receiver prepared. */
  function DecRecord(o: ByteOrder, targets: seq<Member>, input: seq<byte>): (r: Parsed<seq<Member>>)
    requires RecordHoldable(targets)
  {
    if |targets| == 0 then Ok([], input)
    else
      var (m, rest) :- DecMember(o, targets[0], input);
      if Breaks(m) then Ok([m] + targets[1..], rest)
      else
        var (ms, rest') :- DecRecord(o, targets[1..], rest);
        Ok([m] + ms, rest')
  }

  // Round trip

  /** m can be received over target and comes back as it was. */
  predicate Received(target: Member, m: Member) {
    match (target, m)
    case (Data(t), Data(v)) => SameType(t, v) && ShortEnough(v)
    case (StatusMember(_, b), StatusMember(s, c)) => b == c && s.code != 0xFF
    case (Diff(t), Diff(v)) => SameType(t, v) && ShortEnough(v)
    case (Desc(t), Desc(f)) => Readable(f) && Erase(f) == f && Clear(t, f)
    case (Any(_), Any(data)) => data.Some? ==> Plain(data.value) && Buildable(data.value)
    case (Bits(_), Bits(bits)) => Trim(bits) == bits
    case _ => false
  }

  predicate RecordReceived(targets: seq<Member>, ms: seq<Member>) {
    |targets| == |ms| && forall k :: 0 <= k < |ms| ==> Received(targets[k], ms[k])
  }

  /** What arrives: the members up to one that ends the record, then what was prepared. */
  function Arrived(targets: seq<Member>, ms: seq<Member>): seq<Member>
    requires |targets| == |ms|
  {
    if |ms| == 0 then []
    else [ms[0]] + (if Breaks(ms[0]) then targets[1..] else Arrived(targets[1..], ms[1..]))
  }

  lemma MemberRoundTrip(o: ByteOrder, target: Member, m: Member, rest: seq<byte>)
    requires MemberHoldable(target) && MemberHoldable(m) && Received(target, m)
    ensures DecMember(o, target, EncMember(o, m) + rest) == Ok(m, rest)
  {
    match m
    case Data(v) => WalkRoundTrip(o, WHOLE, 0, target.value, v, rest);
    case StatusMember(s, _) => StatusRoundTrip(o, s, rest);
    case Diff(v) => DiffRoundTrip(o, target.value, v, rest);
    case Desc(f) => DescOverExact(o, target.desc, f, rest);
    case Any(data) =>
      if data.Some? {
        AnyRoundTrip(o, data.value, 0, rest);
      } else {
        NullRoundTrip(o, WHOLE, 0, rest);
      }
    case Bits(bits) => BitSetRoundTrip(o, bits, rest);
  }

  lemma {:induction false} RecordRoundTrip(o: ByteOrder, targets: seq<Member>, ms: seq<Member>, rest: seq<byte>)
    requires RecordHoldable(targets) && RecordHoldable(ms) && RecordReceived(targets, ms)
    ensures DecRecord(o, targets, EncRecord(o, ms) + rest) == Ok(Arrived(targets, ms), rest)
  {
    hide DecMember, EncMember, MemberHoldable, Received;
    if |ms| == 0 {
      assert EncRecord(o, ms) + rest == rest;
    } else {
      var more := (if Breaks(ms[0]) then [] else EncRecord(o, ms[1..])) + rest;
      assert EncRecord(o, ms) + rest == EncMember(o, ms[0]) + more;
      MemberRoundTrip(o, targets[0], ms[0], more);
      if Breaks(ms[0]) {
        assert more == rest;
      } else {
        RecordRoundTrip(o, targets[1..], ms[1..], rest);
      }
    }
  }

  // The messages

  function IntMember(w: nat): Member { Data(Basic(Num(Int, w))) }

  function ByteMember(b: byte): Member { Data(Basic(Num(Byte, b))) }

  /** What every channel response starts with. */
  function ResponseHead(requestID: nat, subcommand: byte, status: Status, breakOnError: bool): seq<Member> {
    [IntMember(requestID), ByteMember(subcommand), StatusMember(status, breakOnError)]
  }

  function ChannelResponseError(requestID: nat, subcommand: byte, status: Status): seq<Member> {
    ResponseHead(requestID, subcommand, status, false)
  }

  /** ChannelGetResponseInit and ChannelMonitorResponseInit. */
  function ResponseInit(requestID: nat, subcommand: byte, status: Status, desc: FieldDesc): seq<Member> {
    ResponseHead(requestID, subcommand, status, true) + [Desc(desc)]
  }

  function ChannelGetResponse(requestID: nat, subcommand: byte, status: Status, value: PV): seq<Member> {
    ResponseHead(requestID, subcommand, status, true) + [Diff(value)]
  }

  function ChannelRPCResponse(requestID: nat, subcommand: byte, status: Status, data: Option<PV>): seq<Member> {
    ResponseHead(requestID, subcommand, status, true) + [Any(data)]
  }

  /** A response of any breakonerror kind: the common head, then the members of that kind. */
  lemma HeadEncoding(o: ByteOrder, requestID: nat, subcommand: byte, status: Status, breakOnError: bool,
      tail: seq<Member>)
    requires requestID < Pow256(4) && RecordHoldable(tail)
    ensures RecordHoldable(ResponseHead(requestID, subcommand, status, breakOnError) + tail)
    ensures EncRecord(o, ResponseHead(requestID, subcommand, status, breakOnError) + tail)
         == Put(o, 4, requestID) + Put(o, 1, subcommand) + EncStatus(o, status)
            + (if breakOnError && AsInt8(status.code) > 1 then [] else EncRecord(o, tail))
  {
    HeadMembers(o, requestID, subcommand, status, breakOnError);
    var head := ResponseHead(requestID, subcommand, status, breakOnError);
    ThreeEncoded(o, head[0], head[1], head[2], tail);
    assert head == [head[0], head[1], head[2]];
  }

  lemma ThreeEncoded(o: ByteOrder, a: Member, b: Member, c: Member, tail: seq<Member>)
    requires MemberHoldable(a) && MemberHoldable(b) && MemberHoldable(c) && RecordHoldable(tail)
    requires !Breaks(a) && !Breaks(b)
    ensures RecordHoldable([a, b, c] + tail)
    ensures EncRecord(o, [a, b, c] + tail)
         == EncMember(o, a) + EncMember(o, b) + EncMember(o, c) + (if Breaks(c) then [] else EncRecord(o, tail))
  {
    hide MemberHoldable, EncMember, Breaks;
    assert [a, b, c] + tail == [a] + ([b] + ([c] + tail));
    OneEncoded(o, c, tail);
    OneEncoded(o, b, [c] + tail);
    OneEncoded(o, a, [b] + ([c] + tail));
  }

  lemma OneEncoded(o: ByteOrder, m: Member, tail: seq<Member>)
    requires MemberHoldable(m) && RecordHoldable(tail)
    ensures RecordHoldable([m] + tail)
    ensures EncRecord(o, [m] + tail) == EncMember(o, m) + (if Breaks(m) then [] else EncRecord(o, tail))
  {
  }

  lemma HeadMembers(o: ByteOrder, requestID: nat, subcommand: byte, status: Status, breakOnError: bool)
    requires requestID < Pow256(4)
    ensures var head := ResponseHead(requestID, subcommand, status, breakOnError);
      && (forall k :: 0 <= k < 3 ==> MemberHoldable(head[k]))
      && !Breaks(head[0]) && !Breaks(head[1]) && Breaks(head[2]) == (breakOnError && AsInt8(status.code) > 1)
      && EncMember(o, head[0]) == Put(o, 4, requestID)
      && EncMember(o, head[1]) == Put(o, 1, subcommand)
      && EncMember(o, head[2]) == EncStatus(o, status)
  {
  }

  /** The bytes of responses: for type bytes 2 to 127 they end with the status, otherwise the last member follows. */
  lemma ResponseBytes(o: ByteOrder, requestID: nat, subcommand: byte, status: Status,
      desc: FieldDesc, value: PV, data: Option<PV>)
    requires requestID < Pow256(4)
    requires MemberHoldable(Desc(desc)) && MemberHoldable(Diff(value)) && MemberHoldable(Any(data))
    ensures RecordHoldable(ResponseInit(requestID, subcommand, status, desc))
    ensures RecordHoldable(ChannelGetResponse(requestID, subcommand, status, value))
    ensures RecordHoldable(ChannelRPCResponse(requestID, subcommand, status, data))
    ensures var head := Put(o, 4, requestID) + Put(o, 1, subcommand) + EncStatus(o, status);
      var ended := 2 <= status.code <= 127;
      && EncRecord(o, ResponseInit(requestID, subcommand, status, desc))
         == head + (if ended then [] else EncDesc(o, desc))
      && EncRecord(o, ChannelGetResponse(requestID, subcommand, status, value))
         == head + (if ended then [] else EncDiff(o, value))
      && EncRecord(o, ChannelRPCResponse(requestID, subcommand, status, data))
         == head + (if ended then [] else EncAny(o, data))
  {
    hide MemberHoldable, EncStatus, EncDesc, EncDiff, EncAny, EncRecord;
    HeadEncoding(o, requestID, subcommand, status, true, [Desc(desc)]);
    HeadEncoding(o, requestID, subcommand, status, true, [Diff(value)]);
    HeadEncoding(o, requestID, subcommand, status, true, [Any(data)]);
    LastMember(o, Desc(desc));
    LastMember(o, Diff(value));
    LastMember(o, Any(data));
  }

  lemma LastMember(o: ByteOrder, m: Member)
    requires MemberHoldable(m) && !m.StatusMember?
    ensures RecordHoldable([m]) && EncRecord(o, [m]) == EncMember(o, m)
  {
    hide MemberHoldable, EncMember;
    assert [m][1..] == [];
    Nil(EncMember(o, m));
  }

  /**
   * The common error response is byte for byte a response of each kind, exactly when its status ends the structure
   * (above WARNING) or the kind has nothing more to send.
   */
  lemma ErrorCompatible(o: ByteOrder, requestID: nat, subcommand: byte, status: Status, tail: seq<Member>)
    requires requestID < Pow256(4) && RecordHoldable(tail)
    ensures RecordHoldable(ChannelResponseError(requestID, subcommand, status))
    ensures RecordHoldable(ResponseHead(requestID, subcommand, status, true) + tail)
    ensures EncRecord(o, ChannelResponseError(requestID, subcommand, status))
         == EncRecord(o, ResponseHead(requestID, subcommand, status, true) + tail)
        <==> AsInt8(status.code) > 1 || EncRecord(o, tail) == []
  {
    HeadEncoding(o, requestID, subcommand, status, true, tail);
    HeadEncoding(o, requestID, subcommand, status, false, []);
    assert ResponseHead(requestID, subcommand, status, false) + []
        == ChannelResponseError(requestID, subcommand, status);
  }

  /** An error above WARNING, as the common response, is an init, get or RPC response with that status. */
  lemma ErrorIsEachResponse(o: ByteOrder, requestID: nat, subcommand: byte, status: Status,
      desc: FieldDesc, value: PV, data: Option<PV>)
    requires requestID < Pow256(4) && AsInt8(status.code) > 1
    requires MemberHoldable(Desc(desc)) && MemberHoldable(Diff(value)) && MemberHoldable(Any(data))
    ensures RecordHoldable(ChannelResponseError(requestID, subcommand, status))
    ensures RecordHoldable(ResponseInit(requestID, subcommand, status, desc))
    ensures RecordHoldable(ChannelGetResponse(requestID, subcommand, status, value))
    ensures RecordHoldable(ChannelRPCResponse(requestID, subcommand, status, data))
    ensures var error := EncRecord(o, ChannelResponseError(requestID, subcommand, status));
      && error == EncRecord(o, ResponseInit(requestID, subcommand, status, desc))
      && error == EncRecord(o, ChannelGetResponse(requestID, subcommand, status, value))
      && error == EncRecord(o, ChannelRPCResponse(requestID, subcommand, status, data))
  {
    hide EncRecord, MemberHoldable, ChannelResponseError, ResponseHead;
    ErrorCompatible(o, requestID, subcommand, status, [Desc(desc)]);
    ErrorCompatible(o, requestID, subcommand, status, [Diff(value)]);
    ErrorCompatible(o, requestID, subcommand, status, [Any(data)]);
  }

  /** A client expecting a response of any kind reads an error response to its end and nothing further. */
  lemma ErrorReceived(o: ByteOrder, requestID: nat, subcommand: byte, status: Status,
      targets: seq<Member>, rest: seq<byte>)
    requires requestID < Pow256(4) && AsInt8(status.code) > 1 && RecordHoldable(targets)
    ensures RecordHoldable(ChannelResponseError(requestID, subcommand, status))
    ensures RecordHoldable(ResponseHead(0, 0, OK_STATUS, true) + targets)
    ensures DecRecord(o, ResponseHead(0, 0, OK_STATUS, true) + targets,
                      EncRecord(o, ChannelResponseError(requestID, subcommand, status)) + rest)
         == Ok(ResponseHead(requestID, subcommand, status, true) + targets, rest)
  {
    hide DecRecord, EncMember, DecMember, Pow256;
    assert EncRecord(o, []) == [];
    hide EncRecord;
    var blank := ResponseHead(0, 0, OK_STATUS, true);
    var head := ResponseHead(requestID, subcommand, status, true);
    HeadMembers(o, requestID, subcommand, status, true);
    HeadMembers(o, 0, 0, OK_STATUS, true);
    HeadEncoding(o, requestID, subcommand, status, false, []);
    assert ResponseHead(requestID, subcommand, status, false) + []
        == ChannelResponseError(requestID, subcommand, status);
    assert Received(blank[0], head[0]) && Received(blank[1], head[1]) && Received(blank[2], head[2]);
    ThreeReceived(o, blank, head, targets, rest);
  }

  lemma ThreeReceived(o: ByteOrder, blank: seq<Member>, head: seq<Member>, targets: seq<Member>, rest: seq<byte>)
    requires |blank| == |head| == 3 && RecordHoldable(blank) && RecordHoldable(head) && RecordReceived(blank, head)
    requires RecordHoldable(targets) && !Breaks(head[0]) && !Breaks(head[1]) && Breaks(head[2])
    ensures RecordHoldable(blank + targets)
    ensures DecRecord(o, blank + targets,
                      EncMember(o, head[0]) + EncMember(o, head[1]) + EncMember(o, head[2]) + [] + rest)
         == Ok(head + targets, rest)
  {
    hide MemberHoldable, EncMember, DecRecord, Breaks, Received;
    var second := EncMember(o, head[2]) + rest;
    var first := EncMember(o, head[1]) + second;
    OneReceived(o, blank[2], head[2], targets, rest);
    OneReceived(o, blank[1], head[1], [blank[2]] + targets, second);
    OneReceived(o, blank[0], head[0], [blank[1]] + ([blank[2]] + targets), first);
    assert blank + targets == [blank[0]] + ([blank[1]] + ([blank[2]] + targets));
    assert head + targets == [head[0]] + ([head[1]] + ([head[2]] + targets));
    assert EncMember(o, head[0]) + EncMember(o, head[1]) + EncMember(o, head[2]) + [] + rest
        == EncMember(o, head[0]) + first;
  }

  /** One member received, whatever the rest of the receiver's structure. */
  lemma OneReceived(o: ByteOrder, target: Member, m: Member, targets: seq<Member>, rest: seq<byte>)
    requires MemberHoldable(target) && MemberHoldable(m) && Received(target, m) && RecordHoldable(targets)
    ensures RecordHoldable([target] + targets)
    ensures DecRecord(o, [target] + targets, EncMember(o, m) + rest)
         == if Breaks(m) then Ok([m] + targets, rest)
            else match DecRecord(o, targets, rest)
              case Ok(ms, rest') => Ok([m] + ms, rest')
              case Err(fault) => Err(fault)
  {
    hide EncMember, DecMember, MemberHoldable, Received, Breaks;
    MemberRoundTrip(o, target, m, rest);
    assert ([target] + targets)[1..] == targets;
  }
}
