/** EncoderState: the PVEncode methods, writing through a replaceable buffer and numbering changed fields as they go. */
module Encoder {
  import opened Bytes
  import opened Sizes
  import opened BitSet
  import opened Values
  import opened Partial
  import opened Descriptors
  import opened Variant
  import opened Records

  class Writer {
    var data: seq<byte>

    constructor ()
      ensures data == []
    {
      data := [];
    }

    method Write(bytes: seq<byte>)
      modifies this
      ensures data == old(data) + bytes
    {
      data := data + bytes;
    }
  }

  /** The bits n visited fields append. */
  function Marks(use: bool, n: nat): seq<bool> {
    if use then Trues(n) else []
  }

  lemma MarksNone(use: bool)
    ensures Marks(use, 0) == []
  {
  }

  /** The bits of a field, of the m nodes below it, and of n further nodes. */
  lemma MarksAppended(use: bool, bits: seq<bool>, m: nat, n: nat)
    ensures bits + Marks(use, 1 + m + n) == (if use then bits + [true] else bits) + Marks(use, m) + Marks(use, n)
  {
  }

  /** The writes of a type code's detail, one after the other. */
  lemma DetailAppended(o: ByteOrder, f: FieldDesc, data: seq<byte>)
    requires Storable(f) && f.typeCode != NULL_TYPE_CODE && f.typeCode != VARIANT_UNION
    ensures data + EncDetail(o, f) == DetailWrites(o, f, data)
  {
    hide EncSize, EncText, EncDescs, HasBit, EncStructType;
    var a: seq<byte> := if HasSize(f.typeCode) then EncSize(o, f.size) else [];
    var b: seq<byte> :=
      if f.typeCode == STRUCT_ARRAY then [STRUCT] else if f.typeCode == UNION_ARRAY then [UNION] else [];
    var c: seq<byte> := if HasStructBit(f.typeCode) then EncStructType(o, f) else [];
    assert EncDetail(o, f) == a + (b + c);
    Nil(data);
    Nil(data + a);
    Nil(data + a + b);
    Assoc(data, a, b + c);
    Assoc(data + a, b, c);
    if HasStructBit(f.typeCode) {
      StructTypeWrites(o, f, data + a + b);
    }
  }

  lemma StructTypeWrites(o: ByteOrder, f: FieldDesc, data: seq<byte>)
    requires Storable(f)
    ensures data + EncStructType(o, f)
         == data + EncText(o, f.structType) + (EncSize(o, |f.fields|) + EncDescs(o, f.fields))
  {
    hide EncSize, EncText, EncDescs;
    var t, n, ds := EncText(o, f.structType), EncSize(o, |f.fields|), EncDescs(o, f.fields);
    Assoc(t, n, ds);
    Assoc(data, t, n + ds);
  }

  function DetailWrites(o: ByteOrder, f: FieldDesc, data: seq<byte>): seq<byte>
    requires Storable(f)
  {
    var sized := if HasSize(f.typeCode) then data + EncSize(o, f.size) else data;
    var marked := if f.typeCode == STRUCT_ARRAY then sized + [STRUCT]
                  else if f.typeCode == UNION_ARRAY then sized + [UNION] else sized;
    if HasStructBit(f.typeCode) then
      marked + EncText(o, f.structType) + (EncSize(o, |f.fields|) + EncDescs(o, f.fields))
    else marked
  }

  lemma ArrayParts(o: ByteOrder, v: PV)
    requires v.Array? && Holdable(v)
    ensures Enc(o, v) == EncLength(o, v.form, |v.elems|) + EncElems(o, v.elems)
    ensures EncElems(o, []) == []
  {
  }

  lemma ElemsStep(o: ByteOrder, es: seq<Elem>, i: nat)
    requires i < |es|
    ensures EncElems(o, es[i..]) == EncElem(o, es[i]) + EncElems(o, es[i + 1..])
  {
  }

  lemma DiffBitsCollected(v: PV)
    ensures [false] + Marks(true, Nodes(v)) == DiffBits(v)
  {
  }

  class EncoderState {
    var buf: Writer
    var order: ByteOrder
    var changedBitSet: seq<bool>
    var useChangedBitSet: bool

    constructor (buf: Writer, order: ByteOrder)
      ensures this.buf == buf && this.order == order && changedBitSet == [] && !useChangedBitSet
    {
      this.buf := buf;
      this.order := order;
      changedBitSet := [];
      useChangedBitSet := false;
    }

    method WriteUint(n: nat, w: nat)
      modifies buf
      ensures buf.data == old(buf.data) + Put(order, n, w)
    {
      buf.Write(Put(order, n, w));
    }

    method EncodeSize(v: int)
      requires v < TWO_63
      modifies buf
      ensures buf.data == old(buf.data) + EncSize(order, v)
    {
      if v < 0 {
        buf.Write([255]);
      } else if v < MAX8 {
        buf.Write([v]);
      } else if v < MAX32 {
        buf.Write([254] + Put(order, 4, v));
      } else {
        buf.Write([254] + Put(order, 4, MAX32) + Put(order, 8, v));
      }
    }

    method EncodeText(t: Text)
      modifies buf
      ensures buf.data == old(buf.data) + EncText(order, t)
    {
      EncodeSize(|t|);
      buf.Write(t);
    }

    method EncodeElem(e: Elem)
      modifies buf
      ensures buf.data == old(buf.data) + EncElem(order, e)
    {
      match e
      case Num(k, bits) => WriteUint(Width(k), bits);
      case Chars(s) => EncodeText(s);
    }

    /** PVArray.PVEncode: elements are encoded with the bit set switched off. */
    method EncodeArray(v: PV)
      requires v.Array? && Holdable(v)
      modifies this, buf
      ensures buf == old(buf) && order == old(order)
      ensures changedBitSet == old(changedBitSet) && useChangedBitSet == old(useChangedBitSet)
      ensures buf.data == old(buf.data) + Enc(order, v)
    {
      hide EncElem, EncElems, Enc, ElemsOk;
      var restore := useChangedBitSet;
      useChangedBitSet := false;
      match v.form {
        case Fixed =>
        case ShortLength => WriteUint(2, |v.elems| % 0x1_0000);
        case Sized => EncodeSize(|v.elems|);
      }
      ArrayParts(order, v);
      Assoc(old(buf.data), EncLength(order, v.form, |v.elems|), EncElems(order, v.elems));
      Nil(old(buf.data));
      assert v.elems[0..] == v.elems;
      for i := 0 to |v.elems|
        invariant buf == old(buf) && order == old(order) && changedBitSet == old(changedBitSet) && !useChangedBitSet
        invariant buf.data + EncElems(order, v.elems[i..]) == old(buf.data) + Enc(order, v)
      {
        ElemsStep(order, v.elems, i);
        Assoc(buf.data, EncElem(order, v.elems[i]), EncElems(order, v.elems[i + 1..]));
        EncodeElem(v.elems[i]);
      }
      assert v.elems[|v.elems|..] == [];
      Nil(buf.data);
      if restore {
        useChangedBitSet := true;
      }
    }

    /**
     * PVEncode of a value. A structure appends one bit per field before the field itself; encoding fails only on a
     * bounded string that exceeds its bound.
     */
    method EncodeValue(v: PV) returns (ok: bool)
      requires Holdable(v)
      modifies this, buf
      ensures buf == old(buf) && order == old(order) && useChangedBitSet == old(useChangedBitSet)
      ensures ok == Encodable(v)
      ensures ok ==> buf.data == old(buf.data) + Enc(order, v)
      ensures ok ==> changedBitSet == old(changedBitSet) + Marks(useChangedBitSet, Nodes(v))
      decreases v
    {
      match v
      case Basic(e) => EncodeElem(e); ok := true;
      case Bounded(s, bound) =>
        ok := |s| <= bound;
        if ok {
          EncodeText(s);
        }
      case Array(_, _, _) => EncodeArray(v); ok := true;
      case Struct(_, fs) => ok := EncodeStructure(fs);
    }

    /** PVStructure.PVEncode. */
    method EncodeStructure(fs: seq<Field>) returns (ok: bool)
      requires AllHoldable(fs)
      modifies this, buf
      ensures buf == old(buf) && order == old(order) && useChangedBitSet == old(useChangedBitSet)
      ensures ok == AllEncodable(fs)
      ensures ok ==> buf.data == old(buf.data) + EncFields(order, fs)
      ensures ok ==> changedBitSet == old(changedBitSet) + Marks(useChangedBitSet, FieldNodes(fs))
      decreases fs
    {
      hide Enc, Holdable, Encodable, Marks, Nodes;
      assert fs[0..] == fs;
      for i := 0 to |fs|
        invariant buf == old(buf) && order == old(order) && useChangedBitSet == old(useChangedBitSet)
        invariant AllHoldable(fs[i..]) && AllEncodable(fs[i..]) == AllEncodable(fs)
        invariant buf.data + EncFields(order, fs[i..]) == old(buf.data) + EncFields(order, fs)
        invariant changedBitSet + Marks(useChangedBitSet, FieldNodes(fs[i..]))
               == old(changedBitSet) + Marks(useChangedBitSet, FieldNodes(fs))
      {
        assert fs[i..][1..] == fs[i + 1..];
        ghost var v, more := fs[i].value, fs[i + 1..];
        MarksAppended(useChangedBitSet, changedBitSet, Nodes(v), FieldNodes(more));
        Assoc(buf.data, Enc(order, v), EncFields(order, more));
        if useChangedBitSet {
          changedBitSet := changedBitSet + [true];
        }
        var fine := EncodeValue(fs[i].value);
        if !fine {
          return false;
        }
      }
      MarksNone(useChangedBitSet);
      Nil(buf.data);
      Nil(changedBitSet);
      return true;
    }

    /** PVBitSet.PVEncode: 64 bits at a time while eight whole bytes remain, then byte by byte. */
    method EncodeBitSet(bits: seq<bool>)
      requires |bits| < TWO_63
      modifies buf
      ensures buf.data == old(buf.data) + EncBitSet(order, bits)
    {
      hide Grouped, Pack, BitsValue, EncSize, Put;
      var size := (|bits| + 7) / 8;
      EncodeSize(size);
      ghost var all := old(buf.data) + EncBitSet(order, bits);
      Assoc(old(buf.data), EncSize(order, size), Grouped(order, Pack(bits)));
      assert Tail(bits, 0) == bits;
      var i := 0;
      while i < 8 * size
        invariant i % 64 == 0
        invariant buf.data + Grouped(order, Pack(Tail(bits, i))) == all
        decreases 8 * size - i
      {
        if i + 64 <= 8 * size {
          var out, j := Collect(bits, i, 64);
          TailGroup(order, bits, i, j);
          Assoc(buf.data, Put(order, 8, out), Grouped(order, Pack(Tail(bits, i + 64))));
          WriteUint(8, out);
        } else {
          EncodeLastBytes(bits, i);
          FewBytes(order, bits, i);
          Nil(buf.data);
        }
        i := i + 64;
      }
      FewBytes(order, bits, i);
      PackNone();
      Nil(buf.data);
    }

    /** The bytes behind the last 64-bit group. */
    method EncodeLastBytes(bits: seq<bool>, start: nat)
      requires start <= |bits|
      modifies buf
      ensures buf.data == old(buf.data) + Pack(Tail(bits, start))
    {
      hide Pack, BitsValue;
      ghost var all := old(buf.data) + Pack(Tail(bits, start));
      var j := start;
      while j < |bits|
        invariant start <= j && (j - start) % 8 == 0
        invariant buf.data + Pack(Tail(bits, j)) == all
        decreases |bits| - j
      {
        var out, k := Collect(bits, j, 8);
        ByteOfBits(bits[j..j + k]);
        FirstByte(bits, j, k);
        Assoc(buf.data, [out], Pack(Tail(bits, j + 8)));
        buf.Write([out]);
        j := j + 8;
      }
      assert Tail(bits, j) == [];
      PackNone();
      Nil(buf.data);
    }

    /**
     * PVStructureDiff.PVEncode: the value goes to a buffer of its own while its bits are collected, then bits and
     * value go out. Whatever bits earlier messages left behind, the bytes are those of a fresh encoder.
     */
    method EncodeDiff(v: PV) returns (ok: bool)
      requires Holdable(v) && Nodes(v) + 1 < TWO_63
      modifies this, buf
      ensures buf == old(buf) && order == old(order)
      ensures ok == Encodable(v)
      ensures buf.data == old(buf.data) + if ok then EncDiff(order, v) else []
    {
      var outer := buf;
      var inner := new Writer();
      buf := inner;
      changedBitSet := [false];
      useChangedBitSet := true;
      ok := EncodeValue(v);
      buf := outer;
      if ok {
        hide Enc, EncBitSet, Nodes;
        DiffBitsCollected(v);
        Assoc(buf.data, EncBitSet(order, DiffBits(v)), Enc(order, v));
        EncodeBitSet(changedBitSet);
        Nil(Enc(order, v));
        buf.Write(inner.data);
      } else {
        Nil(buf.data);
      }
    }

    /** FieldDesc.PVEncode. */
    method EncodeDesc(f: FieldDesc)
      requires Storable(f)
      modifies this, buf
      ensures buf == old(buf) && order == old(order)
      ensures changedBitSet == old(changedBitSet) && useChangedBitSet == old(useChangedBitSet)
      ensures buf.data == old(buf.data) + EncDesc(order, f)
      decreases f, 1
    {
      hide EncSize, EncText, EncDescs, EncStructure, HasBit, Put;
      if f.hasID && f.hasTag {
        buf.Write([FULL_TAGGED_ID_TYPE_CODE]);
        WriteUint(2, f.id);
        WriteUint(4, f.tag);
      } else if f.hasID {
        if f.typeCode == NULL_TYPE_CODE {
          buf.Write([ONLY_ID_TYPE_CODE]);
          WriteUint(2, f.id);
          return;
        }
        buf.Write([FULL_WITH_ID_TYPE_CODE]);
        WriteUint(2, f.id);
      }
      buf.Write([f.typeCode]);
      ghost var header := EncIdentity(order, f) + [f.typeCode];
      assert buf.data == old(buf.data) + header;
      Assoc(old(buf.data), header, EncDetail(order, f));
      Nil(buf.data);
      if f.typeCode == NULL_TYPE_CODE || f.typeCode == VARIANT_UNION {
        return;
      }
      if HasSize(f.typeCode) {
        EncodeSize(f.size);
      }
      if f.typeCode == STRUCT_ARRAY {
        buf.Write([STRUCT]);
      }
      if f.typeCode == UNION_ARRAY {
        buf.Write([UNION]);
      }
      if HasStructBit(f.typeCode) {
        EncodeText(f.structType);
        EncodeDescs(f.fields);
      }
      DetailAppended(order, f, old(buf.data) + header);
    }

    /** The slice of field descriptors, an array like any other: no bits are appended for its elements. */
    method EncodeDescs(fs: seq<StructFieldDesc>)
      requires AllStorable(fs) && |fs| < TWO_63
      modifies this, buf
      ensures buf == old(buf) && order == old(order)
      ensures changedBitSet == old(changedBitSet) && useChangedBitSet == old(useChangedBitSet)
      ensures buf.data == old(buf.data) + (EncSize(order, |fs|) + EncDescs(order, fs))
      decreases fs
    {
      var restore := useChangedBitSet;
      useChangedBitSet := false;
      EncodeSize(|fs|);
      assert fs[0..] == fs;
      Assoc(old(buf.data), EncSize(order, |fs|), EncDescs(order, fs));
      hide EncText, EncDesc, Storable;
      for i := 0 to |fs|
        invariant buf == old(buf) && order == old(order) && changedBitSet == old(changedBitSet) && !useChangedBitSet
        invariant AllStorable(fs[i..])
        invariant buf.data + EncDescs(order, fs[i..]) == old(buf.data) + (EncSize(order, |fs|) + EncDescs(order, fs))
      {
        assert fs[i..][1..] == fs[i + 1..];
        ghost var name, field := EncText(order, fs[i].name), EncDesc(order, fs[i].field);
        ghost var more := EncDescs(order, fs[i + 1..]);
        Assoc(buf.data, name + field, more);
        Assoc(buf.data, name, field);
        EncodeText(fs[i].name);
        EncodeDesc(fs[i].field);
      }
      Nil(buf.data);
      if restore {
        useChangedBitSet := true;
      }
    }

    /** PVAny.PVEncode for a variant that is not a nil pointer. */
    method EncodeAny(data: Option<PV>) returns (ok: bool)
      requires data.Some? ==> Holdable(data.value)
      modifies this, buf
      ensures buf == old(buf) && order == old(order) && useChangedBitSet == old(useChangedBitSet)
      ensures ok == (data.Some? ==> Encodable(data.value))
      ensures ok ==> buf.data == old(buf.data) + EncAny(order, data)
    {
      match data
      case None => EncodeDesc(ZERO_DESC.(typeCode := NULL_TYPE_CODE)); ok := true;
      case Some(v) =>
        DescOfStorable(v);
        EncodeDesc(DescOf(v));
        ok := EncodeValue(v);
    }

    method EncodeStatus(s: Status)
      modifies buf
      ensures buf.data == old(buf.data) + EncStatus(order, s)
    {
      if s.code == 0 && |s.message| == 0 && |s.callTree| == 0 {
        buf.Write([0xFF]);
      } else {
        buf.Write([s.code]);
        EncodeText(s.message);
        EncodeText(s.callTree);
      }
    }

    method EncodeMember(m: Member) returns (ok: bool)
      requires MemberHoldable(m)
      modifies this, buf
      ensures buf == old(buf) && order == old(order)
      ensures ok == MemberEncodable(m)
      ensures ok ==> buf.data == old(buf.data) + EncMember(order, m)
    {
      ok := true;
      match m
      case Data(v) => ok := EncodeValue(v);
      case StatusMember(s, _) => EncodeStatus(s);
      case Diff(v) => ok := EncodeDiff(v);
      case Desc(f) => EncodeDesc(f);
      case Any(data) => ok := EncodeAny(data);
      case Bits(bits) => EncodeBitSet(bits);
    }

    /**
     * PVStructure.PVEncode of a message structure, up to a status that ends it. With a bit set left switched on by an
     * earlier message the loop also appends bits; the bytes do not depend on it.
     */
    method EncodeRecord(ms: seq<Member>) returns (ok: bool)
      requires RecordHoldable(ms)
      modifies this, buf
      ensures buf == old(buf) && order == old(order)
      ensures ok == RecordEncodable(ms)
      ensures ok ==> buf.data == old(buf.data) + EncRecord(order, ms)
    {
      hide EncMember, MemberHoldable, MemberEncodable, Breaks;
      assert ms[0..] == ms;
      for i := 0 to |ms|
        invariant buf == old(buf) && order == old(order)
        invariant RecordEncodable(ms[i..]) == RecordEncodable(ms)
        invariant buf.data + EncRecord(order, ms[i..]) == old(buf.data) + EncRecord(order, ms)
      {
        assert ms[i..][1..] == ms[i + 1..];
        Assoc(buf.data, EncMember(order, ms[i]), if Breaks(ms[i]) then [] else EncRecord(order, ms[i + 1..]));
        if useChangedBitSet {
          changedBitSet := changedBitSet + [true];
        }
        var fine := EncodeMember(ms[i]);
        if !fine {
          return false;
        }
        if Breaks(ms[i]) {
          Nil(buf.data);
          return true;
        }
      }
      Nil(buf.data);
      return true;
    }
  }

  /** What remains of a bit list from index i on. */
  function Tail(bits: seq<bool>, i: nat): seq<bool> {
    if i < |bits| then bits[i..] else []
  }

  lemma NoBits(bits: seq<bool>, i: nat)
    requires i <= |bits|
    ensures BitsValue(bits[i..i]) == 0
  {
  }

  lemma NextBit(bits: seq<bool>, i: nat, j: nat)
    requires i + j < |bits|
    ensures BitsValue(bits[i..i + j + 1]) == BitsValue(bits[i..i + j]) + (if bits[i + j] then Pow2(j) else 0)
  {
    BitsValueSnoc(bits[i..i + j], bits[i + j]);
    assert bits[i..i + j] + [bits[i + j]] == bits[i..i + j + 1];
  }

  /** Fewer than 57 bits make no 64-bit group. */
  lemma FewBytes(o: ByteOrder, bits: seq<bool>, i: nat)
    requires |bits| <= i + 56
    ensures Grouped(o, Pack(Tail(bits, i))) == Pack(Tail(bits, i))
    ensures |bits| <= i ==> Pack(Tail(bits, i)) == []
    ensures Grouped(o, Pack(Tail(bits, i + 64))) == []
  {
  }

  lemma PackNone()
    ensures Pack([]) == []
  {
  }

  /** One 64-bit group of the bits from index i on. */
  lemma TailGroup(o: ByteOrder, bits: seq<bool>, i: nat, j: nat)
    requires i + 56 < |bits| && j == if |bits| - i < 64 then |bits| - i else 64
    ensures Grouped(o, Pack(Tail(bits, i)))
         == Put(o, 8, BitsValue(bits[i..i + j])) + Grouped(o, Pack(Tail(bits, i + 64)))
  {
    FirstGroup(o, Tail(bits, i), j);
    assert Tail(bits, i)[..j] == bits[i..i + j];
    assert Tail(bits, i)[j..] == Tail(bits, i + 64);
  }

  lemma FirstByte(bits: seq<bool>, j: nat, k: nat)
    requires j < |bits| && k == if |bits| - j < 8 then |bits| - j else 8
    ensures BitsValue(bits[j..j + k]) < 256
    ensures Pack(Tail(bits, j)) == [BitsValue(bits[j..j + k])] + Pack(Tail(bits, j + 8))
  {
    ByteOfBits(bits[j..j + k]);
    var t := Tail(bits, j);
    if |t| <= 8 {
      assert t == bits[j..j + k];
      assert Tail(bits, j + 8) == [];
    } else {
      assert t[..8] == bits[j..j + k];
      assert t[8..] == Tail(bits, j + 8);
    }
  }

  /** The inner loops of PVBitSet.PVEncode: up to n bits from start on, as an integer with the first bit lowest. */
  method Collect(bits: seq<bool>, start: nat, n: nat) returns (out: nat, j: nat)
    requires start <= |bits|
    ensures j == if |bits| - start < n then |bits| - start else n
    ensures out == BitsValue(bits[start..start + j])
  {
    hide BitsValue;
    out, j := 0, 0;
    NoBits(bits, start);
    while j < n && start + j < |bits|
      invariant j <= n && start + j <= |bits|
      invariant out == BitsValue(bits[start..start + j])
    {
      NextBit(bits, start, j);
      if bits[start + j] {
        out := out + Pow2(j);
      }
      j := j + 1;
    }
  }

  /** NewBitSetWithBits. */
  method NewBitSetWithBits(indexes: seq<nat>) returns (bits: seq<bool>)
    ensures forall k: nat :: Get(bits, k) <==> k in indexes
    ensures Trim(bits) == bits
  {
    var max: int := -1;
    for i := 0 to |indexes|
      invariant max >= -1 && (max >= 0 ==> max in indexes[..i])
      invariant forall k :: 0 <= k < i ==> indexes[k] <= max
    {
      if indexes[i] > max {
        max := indexes[i];
      }
    }
    assert indexes[..|indexes|] == indexes;
    bits := Falses(max + 1);
    for i := 0 to |indexes|
      invariant |bits| == max + 1
      invariant forall k :: 0 <= k < |bits| ==> (bits[k] <==> k in indexes[..i])
    {
      bits := bits[indexes[i] := true];
    }
  }
}
