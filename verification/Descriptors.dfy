/** Introspection data: FieldDesc, its encoding, and which descriptors the decoder can read back. */
module Descriptors {
  import opened Bytes
  import opened Sizes

  const NULL_TYPE_CODE: byte := 0xFF
  const ONLY_ID_TYPE_CODE: byte := 0xFE
  const FULL_WITH_ID_TYPE_CODE: byte := 0xFD
  const FULL_TAGGED_ID_TYPE_CODE: byte := 0xFC

  const BOUNDED_STRING: byte := 0x86
  const STRUCT: byte := 0x80
  const UNION: byte := 0x81
  const VARIANT_UNION: byte := 0x82
  const STRUCT_ARRAY: byte := 0x88
  const UNION_ARRAY: byte := 0x89

  /** id and tag are the bit patterns of a 16-bit and a 32-bit integer. */
  datatype FieldDesc = FieldDesc(
    typeCode: byte,
    hasID: bool,
    hasTag: bool,
    id: nat,
    tag: nat,
    size: int,
    structType: Text,
    fields: seq<StructFieldDesc>)

  datatype StructFieldDesc = StructFieldDesc(name: Text, field: FieldDesc)

  const ZERO_DESC: FieldDesc := FieldDesc(0, false, false, 0, 0, 0, [], [])

  /** f.TypeCode&0x10 == 0x10 || f.TypeCode == BOUNDED_STRING. */
  predicate HasSize(code: byte) {
    HasBit(code, 0x10) || code == BOUNDED_STRING
  }

  /** f.TypeCode&STRUCT == STRUCT; the test against UNION adds nothing to it. */
  predicate HasStructBit(code: byte) {
    HasBit(code, 0x80)
  }

  /** f is a value its Go variable can hold. */
  predicate Storable(f: FieldDesc) {
    && f.id < Pow256(2) && f.tag < Pow256(4) && f.size < TWO_63
    && |f.fields| < TWO_63 && AllStorable(f.fields)
  }

  predicate AllStorable(fs: seq<StructFieldDesc>) {
    |fs| == 0 || (Storable(fs[0].field) && AllStorable(fs[1..]))
  }

  // Encoding

  /** The bytes in front of the type code. */
  function EncIdentity(o: ByteOrder, f: FieldDesc): seq<byte> {
    if f.hasID && f.hasTag then [FULL_TAGGED_ID_TYPE_CODE] + Put(o, 2, f.id) + Put(o, 4, f.tag)
    else if f.hasID then [FULL_WITH_ID_TYPE_CODE] + Put(o, 2, f.id)
    else []
  }

  /** The bytes behind the type code. */
  function EncDetail(o: ByteOrder, f: FieldDesc): seq<byte>
    requires Storable(f)
    decreases f, 2
  {
    if f.typeCode == NULL_TYPE_CODE || f.typeCode == VARIANT_UNION then []
    else (if HasSize(f.typeCode) then EncSize(o, f.size) else []) + EncStructure(o, f)
  }

  /** The element marker of a structure or union array, then structure type and fields. */
  function EncStructure(o: ByteOrder, f: FieldDesc): (s: seq<byte>)
    requires Storable(f)
    ensures HasStructBit(f.typeCode) ==> |s| > 0
    decreases f, 1
  {
    (if f.typeCode == STRUCT_ARRAY then [STRUCT] else if f.typeCode == UNION_ARRAY then [UNION] else [])
    + (if HasStructBit(f.typeCode) then EncStructType(o, f) else [])
  }

  function EncStructType(o: ByteOrder, f: FieldDesc): (s: seq<byte>)
    requires Storable(f)
    ensures |s| > 0
    decreases f, 0
  {
    EncText(o, f.structType) + EncSize(o, |f.fields|) + EncDescs(o, f.fields)
  }

  /** FieldDesc.PVEncode. */
  function EncDesc(o: ByteOrder, f: FieldDesc): seq<byte>
    requires Storable(f)
    decreases f, 3
  {
    if f.hasID && !f.hasTag && f.typeCode == NULL_TYPE_CODE then [ONLY_ID_TYPE_CODE] + Put(o, 2, f.id)
    else EncIdentity(o, f) + [f.typeCode] + EncDetail(o, f)
  }

  function EncDescs(o: ByteOrder, fs: seq<StructFieldDesc>): seq<byte>
    requires AllStorable(fs)
    decreases fs
  {
    if |fs| == 0 then []
    else EncText(o, fs[0].name) + EncDesc(o, fs[0].field) + EncDescs(o, fs[1..])
  }

  // Decoding

  /** What follows the (inner) type code, filled into f. */
  function DecDetail(o: ByteOrder, f: FieldDesc, input: seq<byte>): (r: Parsed<FieldDesc>)
    requires Storable(f)
    ensures r.Ok? ==> |r.rest| <= |input| && Storable(r.value)
    ensures r.Ok? ==> r.value == f.(size := r.value.size, structType := r.value.structType, fields := r.value.fields)
    decreases |input|, 1
  {
    var (size, rest) :- if HasSize(f.typeCode) then DecSize(o, input) else Ok(f.size, input);
    if f.typeCode == STRUCT || f.typeCode == UNION then
      var (structType, rest1) :- DecText(o, rest);
      var (fields, rest2) :- DecFieldDescs(o, f.fields, rest1);
      Ok(f.(size := size, structType := structType, fields := fields), rest2)
    else
      Ok(f.(size := size), rest)
  }

  /** FieldDesc.PVDecode into t: what the wire does not carry stays, and an ID or tag t has is read again. */
  function DecDesc(o: ByteOrder, t: FieldDesc, input: seq<byte>): (r: Parsed<FieldDesc>)
    requires Storable(t)
    ensures r.Ok? ==> |r.rest| < |input| && Storable(r.value)
    ensures r.Ok? ==> (t.hasID ==> r.value.hasID) && (t.hasTag ==> r.value.hasTag)
    decreases |input|, 0
  {
    var (code, rest) :- ReadByte(input);
    if code == NULL_TYPE_CODE || code == VARIANT_UNION then Ok(t.(typeCode := code), rest)
    else if code == ONLY_ID_TYPE_CODE then Ok(t.(hasID := true, typeCode := NULL_TYPE_CODE), rest)
    else
      var marked := code == FULL_WITH_ID_TYPE_CODE || code == FULL_TAGGED_ID_TYPE_CODE;
      var f := t.(hasID := t.hasID || marked, hasTag := t.hasTag || code == FULL_TAGGED_ID_TYPE_CODE);
      var (id, rest1) :- if f.hasID then ReadUint(o, 2, rest) else Ok(f.id, rest);
      var (tag, rest2) :- if f.hasTag then ReadUint(o, 4, rest1) else Ok(f.tag, rest1);
      var (inner, rest3) :- if marked then ReadByte(rest2) else Ok(code, rest2);
      DecDetail(o, f.(typeCode := inner, id := id, tag := tag), rest3)
  }

  /** A slice of field descriptors decoded over held: its elements are reused if there are enough of them. */
  function DecFieldDescs(o: ByteOrder, held: seq<StructFieldDesc>, input: seq<byte>): (r: Parsed<seq<StructFieldDesc>>)
    requires AllStorable(held)
    ensures r.Ok? ==> |r.rest| <= |input| && |r.value| < TWO_63 && AllStorable(r.value)
    decreases |input|, 0
  {
    var (n, rest) :- DecSize(o, input);
    if n < 0 then Err(Panic) else DecDescs(o, Reused(held, n), n, rest)
  }

  /** The slice decoder keeps a slice that is long enough and makes one of zero descriptors otherwise. */
  function Reused(held: seq<StructFieldDesc>, n: nat): seq<StructFieldDesc> {
    if |held| < n then [] else held
  }

  /** What the next element is decoded into. */
  function Element(held: seq<StructFieldDesc>): FieldDesc {
    if |held| == 0 then ZERO_DESC else held[0].field
  }

  function Elements(held: seq<StructFieldDesc>): seq<StructFieldDesc> {
    if |held| == 0 then [] else held[1..]
  }

  /** n field descriptors, as the slice decoder reads them. */
  function DecDescs(o: ByteOrder, held: seq<StructFieldDesc>, n: nat, input: seq<byte>):
    (r: Parsed<seq<StructFieldDesc>>)
    requires AllStorable(held)
    ensures r.Ok? ==> |r.rest| <= |input| && |r.value| == n && AllStorable(r.value)
    decreases |input|, 0
  {
    if n == 0 then Ok([], input)
    else
      var (name, rest) :- DecText(o, input);
      var (field, rest1) :- DecDesc(o, Element(held), rest);
      var (fields, rest2) :- DecDescs(o, Elements(held), n - 1, rest1);
      Ok([StructFieldDesc(name, field)] + fields, rest2)
  }

  // What survives the wire

  /** Whether the encoding of f carries a structure type and fields the decoder reads. */
  predicate Structured(f: FieldDesc) {
    f.typeCode == STRUCT || f.typeCode == UNION
  }

  /** f without the fields its encoding does not carry. */
  function Erase(f: FieldDesc): FieldDesc
    decreases f
  {
    FieldDesc(
      f.typeCode,
      f.hasID,
      f.hasID && f.hasTag,
      if f.hasID then f.id else 0,
      if f.hasID && f.hasTag then f.tag else 0,
      if !HasSize(f.typeCode) || f.typeCode == NULL_TYPE_CODE then 0 else if f.size < 0 then -1 else f.size,
      if Structured(f) then f.structType else [],
      if Structured(f) then EraseAll(f.fields) else [])
  }

  function EraseAll(fs: seq<StructFieldDesc>): (es: seq<StructFieldDesc>)
    ensures |es| == |fs|
    decreases fs
  {
    if |fs| == 0 then [] else [StructFieldDesc(fs[0].name, Erase(fs[0].field))] + EraseAll(fs[1..])
  }

  /**
   * The type codes the decoder undoes: a null type only without an ID, and of the codes with bit 0x80 only
   * structures, unions and variant unions.
   */
  predicate ReadableHead(f: FieldDesc) {
    if f.typeCode == NULL_TYPE_CODE then !f.hasID
    else !HasStructBit(f.typeCode) || f.typeCode == STRUCT || f.typeCode == UNION || f.typeCode == VARIANT_UNION
  }

  predicate Readable(f: FieldDesc)
    decreases f
  {
    ReadableHead(f) && (Structured(f) ==> AllReadable(f.fields))
  }

  predicate AllReadable(fs: seq<StructFieldDesc>)
    decreases fs
  {
    |fs| == 0 || (Readable(fs[0].field) && AllReadable(fs[1..]))
  }

  /** t with the wire's identity and type code of f but no detail yet. */
  function Filled(t: FieldDesc, f: FieldDesc): (h: FieldDesc)
    requires Storable(t) && Storable(f)
    ensures Storable(h)
  {
    t.(typeCode := f.typeCode,
       hasID := f.hasID,
       hasTag := f.hasID && f.hasTag,
       id := if f.hasID then f.id else t.id,
       tag := if f.hasID && f.hasTag then f.tag else t.tag)
  }

  /** t has no ID or tag that the encoding of f lacks. */
  predicate Unmarked(t: FieldDesc, f: FieldDesc) {
    (t.hasID ==> f.hasID) && (t.hasTag ==> f.hasID && f.hasTag)
  }

  /** Reading identity and type code leads to the detail, for every type code that is not itself a marker. */
  lemma IdentityRead(o: ByteOrder, t: FieldDesc, f: FieldDesc, rest: seq<byte>)
    requires Storable(t) && Storable(f) && Unmarked(t, f)
    requires f.hasID || f.typeCode < FULL_TAGGED_ID_TYPE_CODE
    requires !f.hasID ==> f.typeCode != VARIANT_UNION
    ensures DecDesc(o, t, EncIdentity(o, f) + [f.typeCode] + rest) == DecDetail(o, Filled(t, f), rest)
  {
    hide DecDetail, Put, ReadUint, HasBit;
    var input := EncIdentity(o, f) + [f.typeCode] + rest;
    var inner := [f.typeCode] + rest;
    assert inner[1..] == rest;
    if f.hasID && f.hasTag {
      assert input[1..] == Put(o, 2, f.id) + (Put(o, 4, f.tag) + inner);
      ReadWritten(o, 2, f.id, Put(o, 4, f.tag) + inner);
      ReadWritten(o, 4, f.tag, inner);
    } else if f.hasID {
      assert input[1..] == Put(o, 2, f.id) + inner;
      ReadWritten(o, 2, f.id, inner);
    } else {
      assert input == inner;
    }
  }

  // Decoding over a prepared descriptor

  /** Whether the encoding of f carries a size. */
  predicate CarriesSize(f: FieldDesc) {
    HasSize(f.typeCode) && f.typeCode != NULL_TYPE_CODE
  }

  /** t shows nothing where the encoding of f is silent. */
  predicate Clear(t: FieldDesc, f: FieldDesc)
    decreases f, 1
  {
    && Unmarked(t, f)
    && (f.hasID || t.id == 0)
    && ((f.hasID && f.hasTag) || t.tag == 0)
    && DetailClear(t, f)
  }

  predicate DetailClear(t: FieldDesc, f: FieldDesc)
    decreases f, 0
  {
    && (CarriesSize(f) || t.size == 0)
    && if Structured(f) then AllClear(Reused(t.fields, |f.fields|), f.fields)
       else t.structType == [] && t.fields == []
  }

  predicate AllClear(held: seq<StructFieldDesc>, fs: seq<StructFieldDesc>)
    decreases fs
  {
    |fs| == 0 || (Clear(Element(held), fs[0].field) && AllClear(Elements(held), fs[1..]))
  }

  /** A readable descriptor is read back exactly over a clear one, and over any other never as itself. */
  predicate ReadOver<T(==)>(clear: bool, r: Parsed<T>, v: T, rest: seq<byte>) {
    if clear then r == Ok(v, rest) else r.Ok? ==> r.value != v
  }

  lemma {:induction false} DescOver(o: ByteOrder, t: FieldDesc, f: FieldDesc, rest: seq<byte>)
    requires Storable(t) && Storable(f) && Readable(f)
    ensures ReadOver(Clear(t, f), DecDesc(o, t, EncDesc(o, f) + rest), Erase(f), rest)
    decreases f, 3
  {
    if !f.hasID && (f.typeCode == NULL_TYPE_CODE || f.typeCode == VARIANT_UNION) {
      assert (EncDesc(o, f) + rest)[1..] == rest;
    } else if Unmarked(t, f) {
      assert EncDesc(o, f) + rest == EncIdentity(o, f) + [f.typeCode] + (EncDetail(o, f) + rest);
      IdentityRead(o, t, f, EncDetail(o, f) + rest);
      DetailOver(o, Filled(t, f), f, rest);
      hide EncDesc, EncDetail, DecDesc, DetailClear, HasBit;
      assert DetailClear(Filled(t, f), f) == DetailClear(t, f) by { SameDetail(t, f); }
    }
  }

  lemma SameDetail(t: FieldDesc, f: FieldDesc)
    requires Storable(t) && Storable(f)
    ensures DetailClear(Filled(t, f), f) == DetailClear(t, f)
  {
  }

  /** h has the identity of f. */
  lemma {:induction false} DetailOver(o: ByteOrder, h: FieldDesc, f: FieldDesc, rest: seq<byte>)
    requires Storable(h) && Storable(f) && Readable(f) && f.typeCode != NULL_TYPE_CODE
    requires h.typeCode == f.typeCode && h.hasID == f.hasID && h.hasTag == (f.hasID && f.hasTag)
    requires (f.hasID ==> h.id == f.id) && (f.hasID && f.hasTag ==> h.tag == f.tag)
    ensures ReadOver((f.hasID || h.id == 0) && ((f.hasID && f.hasTag) || h.tag == 0) && DetailClear(h, f),
                     DecDetail(o, h, EncDetail(o, f) + rest), Erase(f), rest)
    decreases f, 2
  {
    if Structured(f) {
      hide EncDetail, DecDetail, EncDescs, DecDescs, AllClear, EraseAll, Storable, Readable, HasBit;
      NoSize(f);
      StructureOver(o, h, f, rest);
    } else {
      PlainOver(o, h, f, rest);
    }
  }

  lemma NoSize(f: FieldDesc)
    requires Structured(f)
    ensures !HasSize(f.typeCode)
  {
  }

  lemma PlainOver(o: ByteOrder, h: FieldDesc, f: FieldDesc, rest: seq<byte>)
    requires Storable(h) && Storable(f) && Readable(f) && f.typeCode != NULL_TYPE_CODE && !Structured(f)
    requires h.typeCode == f.typeCode
    ensures DecDetail(o, h, EncDetail(o, f) + rest)
         == Ok(if CarriesSize(f) then h.(size := if f.size < 0 then -1 else f.size) else h, rest)
  {
    hide DecSize, EncSize;
    if f.typeCode != VARIANT_UNION && HasSize(f.typeCode) {
      assert EncDetail(o, f) + rest == EncSize(o, f.size) + rest;
      SizeRoundTrip(o, f.size, rest);
    } else {
      assert EncDetail(o, f) + rest == rest;
    }
  }

  lemma {:induction false} StructureOver(o: ByteOrder, h: FieldDesc, f: FieldDesc, rest: seq<byte>)
    requires Storable(h) && Storable(f) && Readable(f) && Structured(f) && h.typeCode == f.typeCode
    ensures var r := DecDetail(o, h, EncDetail(o, f) + rest);
      var fields := DecDescs(o, Reused(h.fields, |f.fields|), |f.fields|, EncDescs(o, f.fields) + rest);
      && ReadOver(AllClear(Reused(h.fields, |f.fields|), f.fields), fields, EraseAll(f.fields), rest)
      && r == match fields
              case Ok(fs, rest') => Ok(h.(structType := f.structType, fields := fs), rest')
              case Err(fault) => Err(fault)
    decreases f, 0
  {
    hide DecDetail, EncDetail, DecDescs, EncDescs, AllClear, EraseAll, HasBit;
    StructureRead(o, h, f, rest);
    DescsOver(o, Reused(h.fields, |f.fields|), f.fields, rest);
  }

  /** Reading a structure's detail leads to its fields. */
  lemma StructureRead(o: ByteOrder, h: FieldDesc, f: FieldDesc, rest: seq<byte>)
    requires Storable(h) && Storable(f) && Structured(f) && h.typeCode == f.typeCode
    ensures DecDetail(o, h, EncDetail(o, f) + rest)
         == match DecDescs(o, Reused(h.fields, |f.fields|), |f.fields|, EncDescs(o, f.fields) + rest)
            case Ok(fs, rest') => Ok(h.(structType := f.structType, fields := fs), rest')
            case Err(fault) => Err(fault)
  {
    hide EncDetail, DecDescs, EncDescs, DecText, EncText, DecSize, EncSize, HasBit, AllStorable;
    var more := EncDescs(o, f.fields) + rest;
    NoSize(f);
    StructureBytes(o, f, rest);
    TextRoundTrip(o, f.structType, EncSize(o, |f.fields|) + more);
    SizeRoundTrip(o, |f.fields|, more);
  }

  lemma StructureBytes(o: ByteOrder, f: FieldDesc, rest: seq<byte>)
    requires Storable(f) && Structured(f)
    ensures EncDetail(o, f) + rest
         == EncText(o, f.structType) + (EncSize(o, |f.fields|) + (EncDescs(o, f.fields) + rest))
  {
    assert !HasSize(f.typeCode) && HasStructBit(f.typeCode);
    hide EncDescs, EncText, EncSize, HasBit, AllStorable;
    var structType, n := EncText(o, f.structType), EncSize(o, |f.fields|);
    Nil(EncStructType(o, f));
    Assoc(structType + n, EncDescs(o, f.fields), rest);
    Assoc(structType, n, EncDescs(o, f.fields) + rest);
  }

  lemma {:induction false} DescsOver(
      o: ByteOrder, held: seq<StructFieldDesc>, fs: seq<StructFieldDesc>, rest: seq<byte>)
    requires AllStorable(held) && AllStorable(fs) && AllReadable(fs)
    ensures ReadOver(AllClear(held, fs), DecDescs(o, held, |fs|, EncDescs(o, fs) + rest), EraseAll(fs), rest)
    decreases fs, 0
  {
    hide DecDesc, EncDesc, DecText, EncText, Erase, Readable, Storable, Clear;
    if |fs| == 0 {
      Nil(rest);
    } else {
      var more := EncDescs(o, fs[1..]) + rest;
      Assoc(EncText(o, fs[0].name) + EncDesc(o, fs[0].field), EncDescs(o, fs[1..]), rest);
      Assoc(EncText(o, fs[0].name), EncDesc(o, fs[0].field), more);
      TextRoundTrip(o, fs[0].name, EncDesc(o, fs[0].field) + more);
      ElementStorable(held);
      DescOver(o, Element(held), fs[0].field, more);
      DescsOver(o, Elements(held), fs[1..], rest);
    }
  }

  lemma ElementStorable(held: seq<StructFieldDesc>)
    requires AllStorable(held)
    ensures Storable(Element(held)) && AllStorable(Elements(held))
  {
    Widths();
  }

  /**
   * A readable descriptor decoded over a prepared one comes back, less its unwired fields and from the front of any
   * stream, exactly when the prepared one is clear: it has no ID or tag that would be read again, and nothing where
   * the encoding is silent, nor have its fields if they are reused.
   */
  lemma DescOverExact(o: ByteOrder, t: FieldDesc, f: FieldDesc, rest: seq<byte>)
    requires Storable(t) && Storable(f) && Readable(f)
    ensures DecDesc(o, t, EncDesc(o, f) + rest) == Ok(Erase(f), rest) <==> Clear(t, f)
  {
    DescOver(o, t, f, rest);
  }

  /**
   * What the prepared fields have to do with it: nothing if there are fewer than the descriptor has, since they are
   * made anew; otherwise each is decoded over, in its place.
   */
  lemma {:induction false} HeldFields(held: seq<StructFieldDesc>, fs: seq<StructFieldDesc>)
    ensures AllClear(Reused(held, |fs|), fs)
       <==> |held| < |fs| || forall k :: 0 <= k < |fs| ==> Clear(held[k].field, fs[k].field)
  {
    if |held| < |fs| {
      AllZeroClear(fs);
    } else {
      EachClear(held, fs);
    }
  }

  lemma {:induction false} EachClear(held: seq<StructFieldDesc>, fs: seq<StructFieldDesc>)
    requires |held| >= |fs|
    ensures AllClear(held, fs) <==> forall k :: 0 <= k < |fs| ==> Clear(held[k].field, fs[k].field)
    decreases fs
  {
    hide Clear;
    if |fs| > 0 {
      EachClear(held[1..], fs[1..]);
      if forall k :: 0 <= k < |fs| ==> Clear(held[k].field, fs[k].field) {
        assert forall k :: 0 <= k < |fs[1..]| ==> held[1..][k] == held[k + 1] && fs[1..][k] == fs[k + 1];
      }
      if AllClear(held, fs) {
        forall k | 0 <= k < |fs| ensures Clear(held[k].field, fs[k].field) {
          if k > 0 {
            assert held[1..][k - 1] == held[k] && fs[1..][k - 1] == fs[k];
          }
        }
      }
    }
  }

  lemma ZeroStorable()
    ensures Storable(ZERO_DESC)
  {
    Widths();
  }

  lemma {:induction false} ZeroClear(f: FieldDesc)
    ensures Clear(ZERO_DESC, f)
    decreases f
  {
    AllZeroClear(f.fields);
  }

  lemma {:induction false} AllZeroClear(fs: seq<StructFieldDesc>)
    ensures AllClear([], fs)
    decreases fs
  {
    if |fs| > 0 {
      ZeroClear(fs[0].field);
      AllZeroClear(fs[1..]);
    }
  }

  /** Over a zero descriptor every readable descriptor comes back. */
  lemma DescRoundTrip(o: ByteOrder, f: FieldDesc, rest: seq<byte>)
    requires Storable(f) && Readable(f)
    ensures Storable(ZERO_DESC)
    ensures DecDesc(o, ZERO_DESC, EncDesc(o, f) + rest) == Ok(Erase(f), rest)
  {
    ZeroStorable();
    ZeroClear(f);
    DescOver(o, ZERO_DESC, f, rest);
  }

  /** Readable descriptors with different content never share an encoding, nor is one a prefix of the other. */
  lemma DescPrefixFree(o: ByteOrder, f: FieldDesc, g: FieldDesc, a: seq<byte>, b: seq<byte>)
    requires Storable(f) && Readable(f) && Storable(g) && Readable(g)
    requires EncDesc(o, f) + a == EncDesc(o, g) + b
    ensures Erase(f) == Erase(g) && a == b
  {
    DescRoundTrip(o, f, a);
    DescRoundTrip(o, g, b);
  }

  // Unreadable descriptors

  /**
   * With readable fields, a descriptor comes back exactly when its head is readable: every other type code leaves
   * bytes of the descriptor unread, reads bytes behind it, or is taken for a marker.
   */
  lemma DescExact(o: ByteOrder, f: FieldDesc, rest: seq<byte>)
    requires Storable(f) && (Structured(f) ==> AllReadable(f.fields))
    ensures Storable(ZERO_DESC)
    ensures DecDesc(o, ZERO_DESC, EncDesc(o, f) + rest) == Ok(Erase(f), rest) <==> ReadableHead(f)
  {
    ZeroStorable();
    if ReadableHead(f) {
      DescRoundTrip(o, f, rest);
    } else if f.hasID && !f.hasTag && f.typeCode == NULL_TYPE_CODE {
      assert (EncDesc(o, f) + rest)[1..] == Put(o, 2, f.id) + rest;
    } else if !f.hasID && f.typeCode >= FULL_TAGGED_ID_TYPE_CODE {
      UnreadMarker(o, f, rest);
    } else {
      assert EncDesc(o, f) + rest == EncIdentity(o, f) + [f.typeCode] + (EncDetail(o, f) + rest);
      IdentityRead(o, ZERO_DESC, f, EncDetail(o, f) + rest);
      UnreadDetail(o, f, rest);
    }
  }

  /** A marker used as a type code is read as a marker. */
  lemma UnreadMarker(o: ByteOrder, f: FieldDesc, rest: seq<byte>)
    requires Storable(f) && !ReadableHead(f) && !f.hasID && f.typeCode >= FULL_TAGGED_ID_TYPE_CODE
    ensures Storable(ZERO_DESC) && DecDesc(o, ZERO_DESC, EncDesc(o, f) + rest) != Ok(Erase(f), rest)
  {
    ZeroStorable();
  }

  /** The detail of an unreadable head is not consumed exactly. */
  lemma UnreadDetail(o: ByteOrder, f: FieldDesc, rest: seq<byte>)
    requires Storable(f) && Storable(ZERO_DESC) && !ReadableHead(f)
    ensures var r := DecDetail(o, Filled(ZERO_DESC, f), EncDetail(o, f) + rest);
      r.Ok? ==> |r.rest| != |rest|
  {
    if f.typeCode == NULL_TYPE_CODE {
      assert EncDetail(o, f) + rest == rest;
    } else {
      var more := EncStructure(o, f) + rest;
      if HasSize(f.typeCode) {
        assert EncDetail(o, f) + rest == EncSize(o, f.size) + more;
        SizeRoundTrip(o, f.size, more);
      } else {
        assert EncDetail(o, f) + rest == more;
      }
      assert |more| > |rest|;
    }
  }

  /** A bounded string as the repository describes it, without structure type or fields. */
  predicate BoundedHead(f: FieldDesc) {
    f.typeCode == BOUNDED_STRING && f.structType == [] && f.fields == []
  }

  /** Every wired descriptor of the tree is readable but for such bounded strings. */
  predicate Described(f: FieldDesc)
    decreases f
  {
    BoundedHead(f) || (ReadableHead(f) && (Structured(f) ==> AllDescribed(f.fields)))
  }

  predicate AllDescribed(fs: seq<StructFieldDesc>)
    decreases fs
  {
    |fs| == 0 || (Described(fs[0].field) && AllDescribed(fs[1..]))
  }

  /** What a bounded string leaves in the stream. */
  const UNREAD: seq<byte> := [0, 0]

  /**
   * At any depth of nesting: a descriptor made of readable ones and bounded strings comes back exactly when there is
   * no bounded string in it.
   */
  lemma DescribedExact(o: ByteOrder, f: FieldDesc, rest: seq<byte>)
    requires Storable(f) && Described(f)
    ensures Storable(ZERO_DESC)
    ensures DecDesc(o, ZERO_DESC, EncDesc(o, f) + rest) == Ok(Erase(f), rest) <==> Readable(f)
  {
    ZeroStorable();
    if Readable(f) {
      DescRoundTrip(o, f, rest);
    } else {
      DescribedLeft(o, f, rest);
    }
  }

  /** With a bounded string anywhere in it, a descriptor that comes back leaves two bytes more. */
  lemma {:induction false} DescribedLeft(o: ByteOrder, f: FieldDesc, rest: seq<byte>)
    requires Storable(f) && Described(f) && !Readable(f) && Storable(ZERO_DESC)
    ensures var r := DecDesc(o, ZERO_DESC, EncDesc(o, f) + rest);
      r.Ok? && r.value == Erase(f) ==> r.rest == UNREAD + rest
    decreases f, 1
  {
    assert EncDesc(o, f) + rest == EncIdentity(o, f) + [f.typeCode] + (EncDetail(o, f) + rest);
    IdentityRead(o, ZERO_DESC, f, EncDetail(o, f) + rest);
    if BoundedHead(f) {
      BoundedLeft(o, f, rest);
    } else {
      hide EncDetail, DecDetail, EncDesc, DecDesc, EncDescs, DecDescs, HasBit;
      StructureRead(o, Filled(ZERO_DESC, f), f, rest);
      DescsLeft(o, f.fields, rest);
    }
  }

  lemma BoundedLeft(o: ByteOrder, f: FieldDesc, rest: seq<byte>)
    requires Storable(f) && BoundedHead(f) && Storable(ZERO_DESC)
    ensures var r := DecDetail(o, Filled(ZERO_DESC, f), EncDetail(o, f) + rest);
      r.Ok? && r.rest == UNREAD + rest
  {
    assert EncStructType(o, f) == [0] + [] + [0] + [] == UNREAD;
    assert EncStructure(o, f) == [] + UNREAD;
    assert EncDetail(o, f) + rest == EncSize(o, f.size) + (UNREAD + rest);
    SizeRoundTrip(o, f.size, UNREAD + rest);
  }

  lemma {:induction false} DescsLeft(o: ByteOrder, fs: seq<StructFieldDesc>, rest: seq<byte>)
    requires AllStorable(fs) && AllDescribed(fs) && !AllReadable(fs) && Storable(ZERO_DESC)
    ensures var r := DecDescs(o, [], |fs|, EncDescs(o, fs) + rest);
      r.Ok? && r.value == EraseAll(fs) ==> r.rest == UNREAD + rest
    decreases fs, 0
  {
    hide DecDesc, EncDesc, DecText, EncText, Erase, Readable, Storable, Described;
    var more := EncDescs(o, fs[1..]) + rest;
    Assoc(EncText(o, fs[0].name) + EncDesc(o, fs[0].field), EncDescs(o, fs[1..]), rest);
    Assoc(EncText(o, fs[0].name), EncDesc(o, fs[0].field), more);
    TextRoundTrip(o, fs[0].name, EncDesc(o, fs[0].field) + more);
    if Readable(fs[0].field) {
      DescRoundTrip(o, fs[0].field, more);
      DescsLeft(o, fs[1..], rest);
    } else {
      DescribedLeft(o, fs[0].field, more);
      DescsShifted(o, fs[1..], rest);
    }
  }

  /** Read from two zero bytes too early, fields come back only if all are nameless Booleans, and the bytes remain. */
  lemma {:induction false} DescsShifted(o: ByteOrder, fs: seq<StructFieldDesc>, rest: seq<byte>)
    requires AllStorable(fs) && Storable(ZERO_DESC)
    ensures var r := DecDescs(o, [], |fs|, UNREAD + (EncDescs(o, fs) + rest));
      r.Ok? && r.value == EraseAll(fs) ==> r.rest == UNREAD + rest
    decreases fs
  {
    hide DecDescs, EncDescs, DecDesc, EncDesc, EncText, Erase, EraseAll, Storable;
    var more := EncDescs(o, fs) + rest;
    if |fs| == 0 {
      NoDescs(o, UNREAD + more);
      Nil(rest);
    } else {
      ShiftedFields(o, |fs|, more);
      var r := DecDescs(o, [], |fs|, UNREAD + more);
      if r.Ok? && r.value == EraseAll(fs) {
        Cons(StructFieldDesc([], ZERO_DESC), DecDescs(o, [], |fs| - 1, more).value);
        EraseAllStep(fs);
        ShiftedAgain(o, fs, rest);
        DescsShifted(o, fs[1..], rest);
      }
    }
  }

  lemma NoDescs(o: ByteOrder, input: seq<byte>)
    ensures EncDescs(o, []) == [] && DecDescs(o, [], 0, input) == Ok([], input)
  {
  }

  /** A nameless Boolean leads to the same two zero bytes again. */
  lemma ShiftedAgain(o: ByteOrder, fs: seq<StructFieldDesc>, rest: seq<byte>)
    requires |fs| > 0 && AllStorable(fs) && fs[0].name == [] && Erase(fs[0].field) == ZERO_DESC
    ensures EncDescs(o, fs) + rest == UNREAD + (EncDescs(o, fs[1..]) + rest)
  {
    hide EncDescs, EncDesc, EncText, Erase;
    EncDescsStep(o, fs, rest);
    BooleanBytes(o, fs[0].field);
    assert [0] + ([0] + (EncDescs(o, fs[1..]) + rest)) == UNREAD + (EncDescs(o, fs[1..]) + rest);
  }

  lemma EncDescsStep(o: ByteOrder, fs: seq<StructFieldDesc>, rest: seq<byte>)
    requires |fs| > 0 && AllStorable(fs)
    ensures EncDescs(o, fs) + rest == EncText(o, fs[0].name) + (EncDesc(o, fs[0].field) + (EncDescs(o, fs[1..]) + rest))
  {
    hide EncText, EncDesc;
    Assoc(EncText(o, fs[0].name) + EncDesc(o, fs[0].field), EncDescs(o, fs[1..]), rest);
    Assoc(EncText(o, fs[0].name), EncDesc(o, fs[0].field), EncDescs(o, fs[1..]) + rest);
  }

  lemma EraseAllStep(fs: seq<StructFieldDesc>)
    requires |fs| > 0
    ensures EraseAll(fs)[0] == StructFieldDesc(fs[0].name, Erase(fs[0].field)) && EraseAll(fs)[1..] == EraseAll(fs[1..])
  {
  }

  /** Two zero bytes read as a nameless Boolean. */
  lemma ShiftedFields(o: ByteOrder, n: nat, more: seq<byte>)
    requires n > 0 && Storable(ZERO_DESC)
    ensures DecDescs(o, [], n, UNREAD + more)
         == match DecDescs(o, [], n - 1, more)
            case Ok(fields, rest) => Ok([StructFieldDesc([], ZERO_DESC)] + fields, rest)
            case Err(fault) => Err(fault)
  {
    hide DecDesc, DecText;
    ShiftedField(o, more);
  }

  lemma ShiftedField(o: ByteOrder, more: seq<byte>)
    requires Storable(ZERO_DESC)
    ensures DecText(o, UNREAD + more) == Ok([], [0] + more)
    ensures DecDesc(o, ZERO_DESC, [0] + more) == Ok(ZERO_DESC, more)
  {
    assert UNREAD + more == EncText(o, []) + ([0] + more);
    TextRoundTrip(o, [], [0] + more);
    assert ([0] + more)[1..] == more;
  }

  lemma BooleanBytes(o: ByteOrder, f: FieldDesc)
    requires Storable(f) && Erase(f) == ZERO_DESC
    ensures EncDesc(o, f) == [0] && EncText(o, []) == [0]
  {
    assert EncDetail(o, f) == [] + ([] + []);
    assert EncDesc(o, f) == [] + [0] + [];
    assert EncText(o, []) == [0] + [];
  }

  /** Descriptors the repository can build that do not come back: each leaves bytes of its own unread. */
  lemma StructArrayUnread(o: ByteOrder)
    ensures var f := ZERO_DESC.(typeCode := STRUCT_ARRAY);
      Storable(f) && DecDesc(o, ZERO_DESC, EncDesc(o, f)) == Ok(f, [STRUCT, 0, 0])
  {
    var f := ZERO_DESC.(typeCode := STRUCT_ARRAY);
    Widths();
    assert EncDetail(o, f) == [STRUCT, 0, 0];
    assert EncDesc(o, f)[1..] == [STRUCT, 0, 0];
  }

  lemma BoundedStringUnread(o: ByteOrder)
    ensures var f := ZERO_DESC.(typeCode := BOUNDED_STRING, size := 9);
      Storable(f) && DecDesc(o, ZERO_DESC, EncDesc(o, f)) == Ok(f, [0, 0])
  {
    var f := ZERO_DESC.(typeCode := BOUNDED_STRING, size := 9);
    Widths();
    assert EncDetail(o, f) == EncSize(o, 9) + [0, 0];
    assert EncDesc(o, f)[1..] == EncSize(o, 9) + [0, 0];
    SizeRoundTrip(o, 9, [0, 0]);
  }
}
