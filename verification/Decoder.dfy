/** DecoderState: the PVDecode methods, reading from a replaceable stream under a changed-bit set and an index. */
module Decoder {
  import opened Bytes
  import opened Sizes
  import opened BitSet
  import opened Values
  import opened Partial
  import opened Descriptors
  import opened Variant
  import opened Records

  class Reader {
    var data: seq<byte>

    constructor (data: seq<byte>)
      ensures this.data == data
    {
      this.data := data;
    }

    /** io.ReadFull of n bytes; a stream that is too short is used up. */
    method ReadFull(n: nat) returns (r: Result<seq<byte>>)
      modifies this
      ensures Follows(r, Take(n, old(data)), data)
    {
      if |data| < n {
        data := [];
        return Fail(Eof);
      }
      r := Done(data[..n]);
      data := data[n..];
    }

    method NextByte() returns (r: Result<byte>)
      modifies this
      ensures Follows(r, ReadByte(old(data)), data)
    {
      if |data| == 0 {
        return Fail(Eof);
      }
      r := Done(data[0]);
      data := data[1..];
    }
  }

  /** A decode method did what its specification says, left being the stream it leaves behind. */
  predicate Follows<T(==)>(r: Result<T>, spec: Parsed<T>, left: seq<byte>) {
    match spec
    case Ok(v, rest) => r == Done(v) && left == rest
    case Err(fault) => r == Fail(fault)
  }

  /** As Follows, for decoders that also advance the index. */
  predicate FollowsAt<T(==)>(r: Result<T>, spec: Parsed<(T, nat)>, left: seq<byte>, index: nat) {
    match spec
    case Ok(v, rest) => r == Done(v.0) && left == rest && index == v.1
    case Err(fault) => r == Fail(fault)
  }

  class DecoderState {
    var buf: Reader
    var order: ByteOrder
    var changedBitSet: seq<bool>
    var useChangedBitSet: bool
    var changedBitSetIndex: nat

    constructor (buf: Reader, order: ByteOrder)
      ensures this.buf == buf && this.order == order && !useChangedBitSet && changedBitSetIndex == 0
    {
      this.buf := buf;
      this.order := order;
      changedBitSet := [];
      useChangedBitSet := false;
      changedBitSetIndex := 0;
    }

    function Selection(): Changes
      reads this
    {
      Changes(useChangedBitSet, if useChangedBitSet then changedBitSet else [])
    }

    method DecodeUint(n: nat) returns (r: Result<nat>)
      modifies buf
      ensures Follows(r, ReadUint(order, n, old(buf.data)), buf.data)
    {
      var raw := buf.ReadFull(n);
      if raw.Fail? {
        return Fail(raw.fault);
      }
      return Done(UintOf(order, raw.value));
    }

    method DecodeSize() returns (r: Result<int>)
      modifies buf
      ensures Follows(r, DecSize(order, old(buf.data)), buf.data)
    {
      Widths();
      var data := buf.NextByte();
      if data.Fail? {
        return Fail(data.fault);
      }
      if data.value == 255 {
        return Done(-1);
      }
      if data.value != MAX8 {
        return Done(data.value);
      }
      var data32 := DecodeUint(4);
      if data32.Fail? {
        return Fail(data32.fault);
      }
      if data32.value != MAX32 {
        return Done(data32.value);
      }
      var data64 := DecodeUint(8);
      if data64.Fail? {
        return Fail(data64.fault);
      }
      return Done(AsInt64(data64.value));
    }

    method DecodeText() returns (r: Result<Text>)
      modifies buf
      ensures Follows(r, DecText(order, old(buf.data)), buf.data)
    {
      hide DecSize;
      var n := DecodeSize();
      if n.Fail? {
        return Fail(n.fault);
      }
      if n.value < 0 {
        return Fail(Panic);
      }
      var t := buf.ReadFull(n.value);
      if t.Fail? {
        return Fail(t.fault);
      }
      return Done(t.value);
    }

    method DecodeElem(t: ElemType) returns (r: Result<Elem>)
      modifies buf
      ensures Follows(r, DecElem(order, t, old(buf.data)), buf.data)
    {
      hide DecText, ReadUint;
      match t {
        case NumType(Boolean) =>
          var b := buf.NextByte();
          if b.Fail? {
            return Fail(b.fault);
          }
          Widths();
          return Done(Num(Boolean, if b.value != 0 then 1 else 0));
        case NumType(k) =>
          var w := DecodeUint(Width(k));
          if w.Fail? {
            return Fail(w.fault);
          }
          return Done(Num(k, w.value));
        case CharsType =>
          var s := DecodeText();
          if s.Fail? {
            return Fail(s.fault);
          }
          return Done(Chars(s.value));
      }
    }

    /** The length PVArray.PVDecode starts with. */
    method DecodeLength(form: ArrayForm, have: nat) returns (r: Result<nat>)
      requires have < TWO_63
      modifies buf
      ensures Follows(r, DecLength(order, form, have, old(buf.data)), buf.data)
    {
      hide DecSize, ReadUint;
      match form {
        case Fixed => return Done(have);
        case ShortLength =>
          r := DecodeUint(2);
        case Sized =>
          var n := DecodeSize();
          if n.Fail? {
            return Fail(n.fault);
          }
          if n.value < 0 {
            return Fail(Panic);
          }
          return Done(n.value);
      }
    }

    /** PVArray.PVDecode: elements are decoded with the bit set switched off. */
    method DecodeArray(target: PV) returns (r: Result<PV>)
      requires target.Array? && Holdable(target)
      modifies this, buf
      ensures buf == old(buf) && order == old(order) && changedBitSet == old(changedBitSet)
      ensures useChangedBitSet == old(useChangedBitSet) && changedBitSetIndex == old(changedBitSetIndex)
      ensures Follows(r, DecLeaf(order, target, old(buf.data)), buf.data)
    {
      hide DecElem, DecElems, DecLength, ElemsOk;
      var restore := useChangedBitSet;
      useChangedBitSet := false;
      var n := DecodeLength(target.form, |target.elems|);
      if n.Fail? {
        useChangedBitSet := restore;
        return Fail(n.fault);
      }
      ghost var spec := DecElems(order, target.elemType, n.value, buf.data);
      var es: seq<Elem> := [];
      PrefixedNone(spec);
      while |es| < n.value
        invariant |es| <= n.value
        invariant buf == old(buf) && order == old(order) && changedBitSet == old(changedBitSet)
        invariant !useChangedBitSet && changedBitSetIndex == old(changedBitSetIndex)
        invariant spec == Prefixed(es, DecElems(order, target.elemType, n.value - |es|, buf.data))
      {
        ElemsStep(order, target.elemType, n.value - |es|, es, buf.data);
        var e := DecodeElem(target.elemType);
        if e.Fail? {
          useChangedBitSet := restore;
          return Fail(e.fault);
        }
        es := es + [e.value];
      }
      ElemsEnd(order, target.elemType, es, buf.data);
      useChangedBitSet := restore;
      return Done(Array(target.form, target.elemType, es));
    }

    /** PVDecode of a value into a target of its type. */
    method DecodeValue(target: PV) returns (r: Result<PV>)
      requires Holdable(target)
      modifies this, buf
      ensures buf == old(buf) && order == old(order)
      ensures changedBitSet == old(changedBitSet) && useChangedBitSet == old(useChangedBitSet)
      ensures FollowsAt(r, Walk(order, Selection(), old(changedBitSetIndex), target, old(buf.data)), buf.data,
                        changedBitSetIndex)
      ensures !useChangedBitSet ==> changedBitSetIndex == old(changedBitSetIndex)
      decreases target
    {
      hide DecElem, DecText, WalkFields, ElemsOk;
      match target {
        case Basic(e) =>
          var d := DecodeElem(TypeOf(e));
          if d.Fail? {
            return Fail(d.fault);
          }
          return Done(Basic(d.value));
        case Bounded(_, bound) =>
          var s := DecodeText();
          if s.Fail? {
            return Fail(s.fault);
          }
          return Done(Bounded(s.value, bound));
        case Array(_, _, _) =>
          r := DecodeArray(target);
        case Struct(id, fs) =>
          var fields := DecodeStructure(fs);
          if fields.Fail? {
            return Fail(fields.fault);
          }
          return Done(Struct(id, fields.value));
      }
    }

    /** PVStructure.PVDecode. */
    method DecodeStructure(fs: seq<Field>) returns (r: Result<seq<Field>>)
      requires AllHoldable(fs)
      modifies this, buf
      ensures buf == old(buf) && order == old(order)
      ensures changedBitSet == old(changedBitSet) && useChangedBitSet == old(useChangedBitSet)
      ensures var full := !useChangedBitSet || Get(changedBitSet, old(changedBitSetIndex));
        FollowsAt(r, WalkFields(order, Selection(), full, old(changedBitSetIndex), fs, old(buf.data)), buf.data,
                  changedBitSetIndex)
      ensures !useChangedBitSet ==> changedBitSetIndex == old(changedBitSetIndex)
      decreases fs
    {
      hide WalkFields, Walk, Holdable, SameType;
      var full := !useChangedBitSet || Get(changedBitSet, changedBitSetIndex);
      ghost var ch := Selection();
      ghost var spec := WalkFields(order, ch, full, changedBitSetIndex, fs, buf.data);
      var done: seq<Field> := [];
      assert fs[0..] == fs;
      FieldsBegin(spec);
      for i := 0 to |fs|
        invariant buf == old(buf) && order == old(order)
        invariant changedBitSet == old(changedBitSet) && useChangedBitSet == old(useChangedBitSet)
        invariant AllHoldable(fs[i..])
        invariant !useChangedBitSet ==> changedBitSetIndex == old(changedBitSetIndex)
        invariant spec == FieldsPrefixed(done, WalkFields(order, ch, full, changedBitSetIndex, fs[i..], buf.data))
      {
        assert fs[i..][1..] == fs[i + 1..];
        FieldsStep(order, ch, full, changedBitSetIndex, done, fs[i..], buf.data);
        if useChangedBitSet {
          changedBitSetIndex := changedBitSetIndex + 1;
        }
        var value := fs[i].value;
        if full || value.Struct? || Get(changedBitSet, changedBitSetIndex) {
          var v := DecodeValue(value);
          if v.Fail? {
            return Fail(v.fault);
          }
          value := v.value;
        }
        done := done + [Field(fs[i].name, value)];
      }
      FieldsEnd(order, ch, full, changedBitSetIndex, done, fs, buf.data);
      return Done(done);
    }

    /** PVBitSet.PVDecode: whole 64-bit groups, then bytes, then a cut behind the last bit that is set. */
    method DecodeBitSet() returns (r: Result<seq<bool>>)
      modifies buf
      ensures Follows(r, DecBitSet(order, old(buf.data)), buf.data)
    {
      hide DecSize, ReadBits, ReadUint, Trim;
      var n := DecodeSize();
      if n.Fail? {
        return Fail(n.fault);
      }
      var size := if n.value < 0 then 0 else n.value;
      ghost var spec := ReadBits(order, size, buf.data);
      var present: seq<bool> := [];
      var maxBit: int := -1;
      var i := 0;
      PrefixedNone(spec);
      while i + 7 < size
        invariant 0 <= i <= size && i % 8 == 0 && LastBit(present, maxBit)
        invariant spec == Prefixed(present, ReadBits(order, size - i, buf.data))
      {
        GroupStep(order, size - i, present, buf.data);
        var raw := DecodeUint(8);
        if raw.Fail? {
          return Fail(raw.fault);
        }
        present, maxBit := AppendBits(64, raw.value, present, maxBit);
        i := i + 8;
      }
      while i < size
        invariant 0 <= i <= size && size - i < 8 && LastBit(present, maxBit)
        invariant spec == Prefixed(present, ReadBits(order, size - i, buf.data))
      {
        ByteStep(order, size - i, present, buf.data);
        var raw := buf.NextByte();
        if raw.Fail? {
          return Fail(raw.fault);
        }
        present, maxBit := AppendBits(8, raw.value, present, maxBit);
        i := i + 1;
      }
      BitsEnd(order, present, buf.data);
      LastBitTrims(present, maxBit);
      return Done(present[..maxBit + 1]);
    }

    /** PVStructureDiff.PVDecode: the selection is in force for the value only. */
    method DecodeDiff(target: PV) returns (r: Result<(PV, seq<bool>)>)
      requires Holdable(target)
      modifies this, buf
      ensures buf == old(buf) && order == old(order) && changedBitSet == old(changedBitSet)
      ensures useChangedBitSet == old(useChangedBitSet) && changedBitSetIndex == old(changedBitSetIndex)
      ensures Follows(r, DecDiff(order, target, old(buf.data)), buf.data)
    {
      hide DecBitSet, Walk, Holdable;
      var bits := DecodeBitSet();
      if bits.Fail? {
        return Fail(bits.fault);
      }
      var oldBits, oldUse, oldIndex := changedBitSet, useChangedBitSet, changedBitSetIndex;
      changedBitSet, useChangedBitSet, changedBitSetIndex := bits.value, true, 0;
      var v := DecodeValue(target);
      changedBitSet, useChangedBitSet, changedBitSetIndex := oldBits, oldUse, oldIndex;
      if v.Fail? {
        return Fail(v.fault);
      }
      return Done((v.value, bits.value));
    }

    /** FieldDesc.PVDecode into target. */
    method DecodeDesc(target: FieldDesc) returns (r: Result<FieldDesc>)
      requires Storable(target)
      modifies this, buf
      ensures buf == old(buf) && order == old(order) && changedBitSet == old(changedBitSet)
      ensures useChangedBitSet == old(useChangedBitSet) && changedBitSetIndex == old(changedBitSetIndex)
      ensures Follows(r, DecDesc(order, target, old(buf.data)), buf.data)
      decreases |buf.data|, 2
    {
      hide DecSize, DecText, DecDescs, ReadUint, DecDetail;
      var code := buf.NextByte();
      if code.Fail? {
        return Fail(code.fault);
      }
      var f := target.(typeCode := code.value);
      if code.value == NULL_TYPE_CODE || code.value == VARIANT_UNION {
        return Done(f);
      }
      if code.value == ONLY_ID_TYPE_CODE {
        return Done(f.(hasID := true, typeCode := NULL_TYPE_CODE));
      }
      if code.value == FULL_WITH_ID_TYPE_CODE {
        f := f.(hasID := true);
      } else if code.value == FULL_TAGGED_ID_TYPE_CODE {
        f := f.(hasID := true, hasTag := true);
      }
      if f.hasID {
        var id := DecodeUint(2);
        if id.Fail? {
          return Fail(id.fault);
        }
        f := f.(id := id.value);
      }
      if f.hasTag {
        var tag := DecodeUint(4);
        if tag.Fail? {
          return Fail(tag.fault);
        }
        f := f.(tag := tag.value);
      }
      if code.value == FULL_WITH_ID_TYPE_CODE || code.value == FULL_TAGGED_ID_TYPE_CODE {
        var inner := buf.NextByte();
        if inner.Fail? {
          return Fail(inner.fault);
        }
        f := f.(typeCode := inner.value);
      }
      r := DecodeDetail(f);
    }

    /** The part of FieldDesc.PVDecode behind the type code. */
    method DecodeDetail(f: FieldDesc) returns (r: Result<FieldDesc>)
      requires Storable(f)
      modifies this, buf
      ensures buf == old(buf) && order == old(order) && changedBitSet == old(changedBitSet)
      ensures useChangedBitSet == old(useChangedBitSet) && changedBitSetIndex == old(changedBitSetIndex)
      ensures Follows(r, DecDetail(order, f, old(buf.data)), buf.data)
      decreases |buf.data|, 1
    {
      hide DecSize, DecText, DecDescs;
      var g := f;
      if HasSize(f.typeCode) {
        var size := DecodeSize();
        if size.Fail? {
          return Fail(size.fault);
        }
        g := g.(size := size.value);
      }
      if f.typeCode == STRUCT || f.typeCode == UNION {
        var structType := DecodeText();
        if structType.Fail? {
          return Fail(structType.fault);
        }
        var fields := DecodeDescs(f.fields);
        if fields.Fail? {
          return Fail(fields.fault);
        }
        g := g.(structType := structType.value, fields := fields.value);
      }
      return Done(g);
    }

    /** PVArray.PVDecode of the field descriptors, each a structure of a name and a descriptor read in full. */
    method DecodeDescs(held: seq<StructFieldDesc>) returns (r: Result<seq<StructFieldDesc>>)
      requires AllStorable(held)
      modifies this, buf
      ensures buf == old(buf) && order == old(order) && changedBitSet == old(changedBitSet)
      ensures useChangedBitSet == old(useChangedBitSet) && changedBitSetIndex == old(changedBitSetIndex)
      ensures Follows(r, DecFieldDescs(order, held, old(buf.data)), buf.data)
      decreases |buf.data|, 0
    {
      hide DecSize, DecText, DecDesc, DecDescs, Storable;
      var restore := useChangedBitSet;
      useChangedBitSet := false;
      var n := DecodeSize();
      if n.Fail? {
        useChangedBitSet := restore;
        return Fail(n.fault);
      }
      if n.value < 0 {
        useChangedBitSet := restore;
        return Fail(Panic);
      }
      var left := Reused(held, n.value);
      ghost var spec := DecDescs(order, left, n.value, buf.data);
      var fields: seq<StructFieldDesc> := [];
      PrefixedNone(spec);
      while |fields| < n.value
        invariant |fields| <= n.value && |buf.data| < |old(buf.data)|
        invariant buf == old(buf) && order == old(order) && changedBitSet == old(changedBitSet)
        invariant !useChangedBitSet && changedBitSetIndex == old(changedBitSetIndex)
        invariant AllStorable(left)
        invariant spec == Prefixed(fields, DecDescs(order, left, n.value - |fields|, buf.data))
      {
        ElementStorable(left);
        DescsStep(order, left, n.value - |fields|, fields, buf.data);
        var name := DecodeText();
        if name.Fail? {
          useChangedBitSet := restore;
          return Fail(name.fault);
        }
        var field := DecodeDesc(Element(left));
        if field.Fail? {
          useChangedBitSet := restore;
          return Fail(field.fault);
        }
        fields := fields + [StructFieldDesc(name.value, field.value)];
        left := Elements(left);
      }
      DescsEnd(order, left, fields, buf.data);
      useChangedBitSet := restore;
      return Done(fields);
    }

    /** PVAny.PVDecode. */
    method DecodeAny() returns (r: Result<Option<PV>>)
      modifies this, buf
      ensures buf == old(buf) && order == old(order)
      ensures changedBitSet == old(changedBitSet) && useChangedBitSet == old(useChangedBitSet)
      ensures FollowsAt(r, DecAny(order, Selection(), old(changedBitSetIndex), old(buf.data)), buf.data,
                        changedBitSetIndex)
      ensures !useChangedBitSet ==> changedBitSetIndex == old(changedBitSetIndex)
    {
      hide DecDesc, Walk, CreateZero, Holdable;
      ZeroStorable();
      var f := DecodeDesc(ZERO_DESC);
      if f.Fail? {
        return Fail(f.fault);
      }
      var zero := BuildZero(f.value);
      if zero.Fail? {
        return Fail(zero.fault);
      }
      if zero.value == None {
        return Done(None);
      }
      ZeroHoldable(f.value);
      var v := DecodeValue(zero.value.value);
      if v.Fail? {
        return Fail(v.fault);
      }
      return Done(Some(v.value));
    }

    method DecodeStatus() returns (r: Result<Status>)
      modifies buf
      ensures Follows(r, DecStatus(order, old(buf.data)), buf.data)
    {
      hide DecText;
      var code := buf.NextByte();
      if code.Fail? {
        return Fail(code.fault);
      }
      if code.value == 0xFF {
        return Done(OK_STATUS);
      }
      var message := DecodeText();
      if message.Fail? {
        return Fail(message.fault);
      }
      var callTree := DecodeText();
      if callTree.Fail? {
        return Fail(callTree.fault);
      }
      return Done(Status(code.value, message.value, callTree.value));
    }

    /** A member of a message; no bit set is in force between messages. */
    method DecodeMember(target: Member) returns (r: Result<Member>)
      requires MemberHoldable(target) && !useChangedBitSet && changedBitSetIndex == 0
      modifies this, buf
      ensures buf == old(buf) && order == old(order) && !useChangedBitSet && changedBitSetIndex == 0
      ensures Follows(r, DecMember(order, target, old(buf.data)), buf.data)
    {
      hide Walk, DecStatus, DecDiff, DecDesc, DecAny, DecBitSet;
      match target {
        case Data(v) =>
          var d := DecodeValue(v);
          r := if d.Done? then Done(Data(d.value)) else Fail(d.fault);
        case StatusMember(_, b) =>
          var d := DecodeStatus();
          r := if d.Done? then Done(StatusMember(d.value, b)) else Fail(d.fault);
        case Diff(v) =>
          var d := DecodeDiff(v);
          r := if d.Done? then Done(Diff(d.value.0)) else Fail(d.fault);
        case Desc(f) =>
          var d := DecodeDesc(f);
          r := if d.Done? then Done(Desc(d.value)) else Fail(d.fault);
        case Any(_) =>
          var d := DecodeAny();
          r := if d.Done? then Done(Any(d.value)) else Fail(d.fault);
        case Bits(_) =>
          var d := DecodeBitSet();
          r := if d.Done? then Done(Bits(d.value)) else Fail(d.fault);
      }
    }

    /** PVStructure.PVDecode of a message structure, up to a status that ends it. */
    method DecodeRecord(targets: seq<Member>) returns (r: Result<seq<Member>>)
      requires RecordHoldable(targets) && !useChangedBitSet && changedBitSetIndex == 0
      modifies this, buf
      ensures buf == old(buf) && order == old(order) && !useChangedBitSet && changedBitSetIndex == 0
      ensures Follows(r, DecRecord(order, targets, old(buf.data)), buf.data)
    {
      hide DecMember, DecRecord, MemberHoldable, Breaks;
      ghost var spec := DecRecord(order, targets, buf.data);
      var done: seq<Member> := [];
      assert targets[0..] == targets;
      PrefixedNone(spec);
      for i := 0 to |targets|
        invariant buf == old(buf) && order == old(order) && !useChangedBitSet && changedBitSetIndex == 0
        invariant spec == Prefixed(done, DecRecord(order, targets[i..], buf.data))
      {
        assert targets[i..][1..] == targets[i + 1..];
        RecordStep(order, done, targets[i..], buf.data);
        var m := DecodeMember(targets[i]);
        if m.Fail? {
          return Fail(m.fault);
        }
        done := done + [m.value];
        if Breaks(m.value) {
          return Done(done + targets[i + 1..]);
        }
      }
      RecordEnd(order, done, targets, buf.data);
      return Done(done);
    }
  }

  /** FieldDesc.createZero. */
  method BuildZero(f: FieldDesc) returns (r: Result<Option<PV>>)
    ensures r == CreateZero(f)
    decreases f
  {
    hide CreateFields, LegalFields, IsNt;
    if f.typeCode == NULL_TYPE_CODE {
      return Done(None);
    }
    var leaf := ZeroLeaf(f);
    if leaf.Some? {
      return Done(leaf);
    }
    if f.typeCode == STRUCT {
      if IsNt(f.structType) {
        return Fail(NtLayout);
      }
      var fields := BuildFields(f.fields);
      if fields.Fail? {
        return Fail(fields.fault);
      }
      if !LegalFields(fields.value) {
        return Fail(Panic);
      }
      return Done(Some(Struct(f.structType, fields.value)));
    }
    return Fail(NoZeroValue);
  }

  /** The loop of createZero over the fields of a structure. */
  method BuildFields(ds: seq<StructFieldDesc>) returns (r: Result<seq<Field>>)
    ensures r == CreateFields(ds)
    decreases ds
  {
    hide CreateZero;
    var zeros: seq<Field> := [];
    assert ds[0..] == ds;
    ZerosBegin(CreateFields(ds));
    for i := 0 to |ds|
      invariant CreateFields(ds) == ZerosPrefixed(zeros, CreateFields(ds[i..]))
    {
      assert ds[i..][1..] == ds[i + 1..];
      ZerosStep(zeros, ds[i..]);
      var prototype := BuildZero(ds[i].field);
      if prototype.Fail? {
        return Fail(prototype.fault);
      }
      if prototype.value == None || |ds[i].name| == 0 {
        return Fail(Panic);
      }
      zeros := zeros + [Field(ds[i].name, prototype.value.value)];
    }
    Nil(zeros);
    return Done(zeros);
  }

  // Loop bookkeeping: what has been read, in front of what the rest of the specification reads.

  function Prefixed<T>(xs: seq<T>, p: Parsed<seq<T>>): Parsed<seq<T>> {
    match p
    case Ok(ys, rest) => Ok(xs + ys, rest)
    case Err(fault) => Err(fault)
  }

  lemma PrefixedNone<T>(p: Parsed<seq<T>>)
    ensures p == Prefixed([], p)
  {
    if p.Ok? {
      Nil(p.value);
    }
  }

  lemma ElemsEnd(o: ByteOrder, t: ElemType, es: seq<Elem>, input: seq<byte>)
    ensures Prefixed(es, DecElems(o, t, 0, input)) == Ok(es, input)
  {
    Nil(es);
  }

  lemma ElemsStep(o: ByteOrder, t: ElemType, n: nat, done: seq<Elem>, input: seq<byte>)
    requires n > 0
    ensures Prefixed(done, DecElems(o, t, n, input))
         == match DecElem(o, t, input)
            case Ok(e, rest) => Prefixed(done + [e], DecElems(o, t, n - 1, rest))
            case Err(fault) => Err(fault)
  {
    var head := DecElem(o, t, input);
    if head.Ok? {
      var more := DecElems(o, t, n - 1, head.rest);
      if more.Ok? {
        Assoc(done, [head.value], more.value);
      }
    }
  }

  function FieldsPrefixed(done: seq<Field>, p: Parsed<(seq<Field>, nat)>): Parsed<(seq<Field>, nat)> {
    match p
    case Ok(moved, rest) => Ok((done + moved.0, moved.1), rest)
    case Err(fault) => Err(fault)
  }

  lemma FieldsBegin(p: Parsed<(seq<Field>, nat)>)
    ensures p == FieldsPrefixed([], p)
  {
    if p.Ok? {
      Nil(p.value.0);
    }
  }

  lemma FieldsEnd(o: ByteOrder, ch: Changes, full: bool, i: nat, done: seq<Field>, fs: seq<Field>, input: seq<byte>)
    ensures FieldsPrefixed(done, WalkFields(o, ch, full, i, fs[|fs|..], input)) == Ok((done, i), input)
  {
    Nil(done);
  }

  lemma FieldsStep(o: ByteOrder, ch: Changes, full: bool, i: nat, done: seq<Field>, fs: seq<Field>, input: seq<byte>)
    requires |fs| > 0 && AllHoldable(fs)
    ensures FieldsPrefixed(done, WalkFields(o, ch, full, i, fs, input))
         == match WalkField(o, ch, full, if ch.use then i + 1 else i, fs[0].value, input)
            case Ok(here, rest) =>
              FieldsPrefixed(done + [Field(fs[0].name, here.0)], WalkFields(o, ch, full, here.1, fs[1..], rest))
            case Err(fault) => Err(fault)
  {
    hide WalkField;
    var head := WalkField(o, ch, full, if ch.use then i + 1 else i, fs[0].value, input);
    if head.Ok? {
      var more := WalkFields(o, ch, full, head.value.1, fs[1..], head.rest);
      if more.Ok? {
        Assoc(done, [Field(fs[0].name, head.value.0)], more.value.0);
      }
    }
  }

  /** maxBit is the last bit of present that is set, or -1. */
  predicate LastBit(present: seq<bool>, maxBit: int) {
    && -1 <= maxBit < |present| && (maxBit >= 0 ==> present[maxBit])
    && forall k :: maxBit < k < |present| ==> !present[k]
  }

  /** The bit loop of PVBitSet.PVDecode: shift the n bits of w out, lowest first. */
  method AppendBits(n: nat, w: nat, before: seq<bool>, maxBefore: int) returns (present: seq<bool>, maxBit: int)
    requires LastBit(before, maxBefore)
    ensures present == before + ToBits(n, w)
    ensures LastBit(present, maxBit)
  {
    present, maxBit := before, maxBefore;
    var group := w;
    for j := 0 to n
      invariant present + ToBits(n - j, group) == before + ToBits(n, w)
      invariant LastBit(present, maxBit)
    {
      var bit := group % 2 == 1;
      if bit {
        maxBit := |present|;
      }
      ToBitsStep(n - j, group, present);
      present := present + [bit];
      group := group / 2;
    }
    Nil(present);
  }

  lemma LastBitTrims(present: seq<bool>, maxBit: int)
    requires LastBit(present, maxBit)
    ensures Trim(present) == present[..maxBit + 1]
  {
  }

  lemma ToBitsStep(n: nat, w: nat, present: seq<bool>)
    requires n > 0
    ensures present + ToBits(n, w) == present + [w % 2 == 1] + ToBits(n - 1, w / 2)
  {
  }

  lemma BitsEnd(o: ByteOrder, present: seq<bool>, input: seq<byte>)
    ensures Prefixed(present, ReadBits(o, 0, input)) == Ok(present, input)
  {
    assert input[..0] == [] && input[0..] == input;
    Nil(present);
  }

  /** Reading one 64-bit group of a bit set. */
  lemma GroupStep(o: ByteOrder, n: nat, present: seq<bool>, input: seq<byte>)
    requires n >= 8
    ensures Prefixed(present, ReadBits(o, n, input))
         == match ReadUint(o, 8, input)
            case Ok(w, rest) => Prefixed(present + ToBits(64, w), ReadBits(o, n - 8, rest))
            case Err(fault) => Err(fault)
  {
    hide Unpack, ToBits, Grouped, UintOf;
    if |input| >= n {
      var raw := input[..n];
      assert raw[..8] == input[..8];
      assert raw[8..] == input[8..][..n - 8];
      assert input[n..] == input[8..][n - 8..];
      UnpackGroup(o, raw);
      Assoc(present, ToBits(64, UintOf(o, raw[..8])), Unpack(Grouped(o, raw[8..])));
    }
  }

  /** Reading one byte behind the last group. */
  lemma ByteStep(o: ByteOrder, n: nat, present: seq<bool>, input: seq<byte>)
    requires 0 < n < 8
    ensures Prefixed(present, ReadBits(o, n, input))
         == match ReadByte(input)
            case Ok(w, rest) => Prefixed(present + ToBits(8, w), ReadBits(o, n - 1, rest))
            case Err(fault) => Err(fault)
  {
    hide ToBits;
    if |input| >= n {
      var raw := input[..n];
      assert raw[1..] == input[1..][..n - 1];
      assert input[n..] == input[1..][n - 1..];
      Assoc(present, ToBits(8, raw[0]), Unpack(raw[1..]));
    }
  }

  lemma DescsEnd(o: ByteOrder, held: seq<StructFieldDesc>, fs: seq<StructFieldDesc>, input: seq<byte>)
    requires AllStorable(held)
    ensures Prefixed(fs, DecDescs(o, held, 0, input)) == Ok(fs, input)
  {
    Nil(fs);
  }

  lemma DescsStep(o: ByteOrder, held: seq<StructFieldDesc>, n: nat, done: seq<StructFieldDesc>, input: seq<byte>)
    requires n > 0 && AllStorable(held)
    requires Storable(Element(held)) && AllStorable(Elements(held))
    ensures Prefixed(done, DecDescs(o, held, n, input))
         == match DecText(o, input)
            case Err(fault) => Err(fault)
            case Ok(name, rest) =>
              match DecDesc(o, Element(held), rest)
              case Err(fault) => Err(fault)
              case Ok(field, rest') =>
                Prefixed(done + [StructFieldDesc(name, field)], DecDescs(o, Elements(held), n - 1, rest'))
  {
    hide DecText, DecDesc, Storable;
    var name := DecText(o, input);
    if name.Ok? {
      var field := DecDesc(o, Element(held), name.rest);
      if field.Ok? {
        var more := DecDescs(o, Elements(held), n - 1, field.rest);
        if more.Ok? {
          Assoc(done, [StructFieldDesc(name.value, field.value)], more.value);
        }
      }
    }
  }

  lemma RecordEnd(o: ByteOrder, done: seq<Member>, targets: seq<Member>, input: seq<byte>)
    ensures Prefixed(done, DecRecord(o, targets[|targets|..], input)) == Ok(done, input)
  {
    Nil(done);
  }

  lemma RecordStep(o: ByteOrder, done: seq<Member>, targets: seq<Member>, input: seq<byte>)
    requires |targets| > 0 && RecordHoldable(targets)
    ensures Prefixed(done, DecRecord(o, targets, input))
         == match DecMember(o, targets[0], input)
            case Err(fault) => Err(fault)
            case Ok(m, rest) =>
              if Breaks(m) then Ok(done + [m] + targets[1..], rest)
              else Prefixed(done + [m], DecRecord(o, targets[1..], rest))
  {
    hide DecMember, MemberHoldable, Breaks;
    var head := DecMember(o, targets[0], input);
    if head.Ok? {
      Assoc(done, [head.value], targets[1..]);
      var more := DecRecord(o, targets[1..], head.rest);
      if more.Ok? {
        Assoc(done, [head.value], more.value);
      }
    }
  }

  function ZerosPrefixed(done: seq<Field>, p: Result<seq<Field>>): Result<seq<Field>> {
    match p
    case Done(fs) => Done(done + fs)
    case Fail(fault) => Fail(fault)
  }

  lemma ZerosBegin(p: Result<seq<Field>>)
    ensures p == ZerosPrefixed([], p)
  {
    if p.Done? {
      Nil(p.value);
    }
  }

  lemma ZerosStep(done: seq<Field>, ds: seq<StructFieldDesc>)
    requires |ds| > 0
    ensures ZerosPrefixed(done, CreateFields(ds))
         == match CreateZero(ds[0].field)
            case Fail(fault) => Fail(fault)
            case Done(None) => Fail(Panic)
            case Done(Some(v)) =>
              if |ds[0].name| == 0 then Fail(Panic)
              else ZerosPrefixed(done + [Field(ds[0].name, v)], CreateFields(ds[1..]))
  {
    hide CreateZero;
    var head := CreateZero(ds[0].field);
    if head.Done? && head.value.Some? {
      var more := CreateFields(ds[1..]);
      if more.Done? {
        Assoc(done, [Field(ds[0].name, head.value.value)], more.value);
      }
    }
  }
}
