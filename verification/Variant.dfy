/** PVAny: a descriptor, then a value decoded into a zero value built from the descriptor. */
module Variant {
  import opened Bytes
  import opened Values
  import opened Partial
  import opened Descriptors

  const STRING: byte := 0x60
  const VARIABLE_ARRAY: nat := 0x08
  const FIXED_ARRAY: nat := 0x18

  function KindCode(k: Kind): (c: byte)
    ensures c < 0x60
    ensures !HasStructBit(c) && !HasSize(c) && c != NULL_TYPE_CODE && c != STRUCT && c != UNION
  {
    match k
    case Boolean => 0x00
    case Byte => 0x20
    case Short => 0x21
    case Int => 0x22
    case Long => 0x23
    case UByte => 0x24
    case UShort => 0x25
    case UInt => 0x26
    case ULong => 0x27
    case Float => 0x42
    case Double => 0x43
  }

  function ElemCode(t: ElemType): (c: byte)
    ensures c <= 0x60
  {
    match t
    case NumType(k) => KindCode(k)
    case CharsType => STRING
  }

  /** The Size a string descriptor carries; the wire never does. */
  function ElemSize(e: Elem): nat {
    match e
    case Num(_, _) => 0
    case Chars(s) => |s|
  }

  /** FieldDesc of a value. */
  function DescOf(v: PV): FieldDesc
    requires Holdable(v)
    decreases v
  {
    match v
    case Basic(e) => ZERO_DESC.(typeCode := ElemCode(TypeOf(e)), size := ElemSize(e))
    case Bounded(_, bound) => ZERO_DESC.(typeCode := BOUNDED_STRING, size := bound)
    case Array(Fixed, t, es) => ZERO_DESC.(typeCode := ElemCode(t) + FIXED_ARRAY, size := |es|)
    case Array(_, t, es) =>
      ZERO_DESC.(typeCode := ElemCode(t) + VARIABLE_ARRAY, size := if |es| > 0 then ElemSize(es[0]) else 0)
    case Struct(id, fs) => ZERO_DESC.(typeCode := STRUCT, structType := id, fields := FieldDescs(fs))
  }

  function FieldDescs(fs: seq<Field>): (ds: seq<StructFieldDesc>)
    requires AllHoldable(fs)
    ensures |ds| == |fs|
    decreases fs
  {
    if |fs| == 0 then [] else [StructFieldDesc(fs[0].name, DescOf(fs[0].value))] + FieldDescs(fs[1..])
  }

  // Zero values

  function Ascii(s: string): Text
    requires |s| < TWO_63
    requires forall k :: 0 <= k < |s| ==> s[k] < 128 as char
  {
    seq(|s|, k requires 0 <= k < |s| => s[k] as int)
  }

  /** The structure types with a fixed Go layout. */
  predicate IsNt(id: Text) {
    id in {Ascii("enum_t"), Ascii("time_t"), Ascii("alarm_t"), Ascii("alarmLimit_t"), Ascii("valueAlarm_t"),
           Ascii("display_t"), Ascii("control_t")}
  }

  predicate IsLetter(b: byte) {
    0x41 <= b <= 0x5A || 0x61 <= b <= 0x7A
  }

  /** An ASCII identifier. */
  predicate LegalName(name: Text) {
    && |name| > 0 && (IsLetter(name[0]) || name[0] == 0x5F)
    && forall k :: 0 <= k < |name| ==> IsLetter(name[k]) || name[k] == 0x5F || 0x30 <= name[k] <= 0x39
  }

  /** The Go field name made from a pvAccess one: first letter in upper case, X in front of an underscore. */
  function ExportName(name: Text): seq<byte> {
    if |name| == 0 then []
    else if 0x61 <= name[0] <= 0x7A then [name[0] - 0x20] + name[1..]
    else if name[0] == 0x5F then [0x58] + name
    else name
  }

  /** What reflect.StructOf accepts. */
  predicate LegalFields(fs: seq<Field>) {
    && (forall k :: 0 <= k < |fs| ==> LegalName(fs[k].name))
    && forall j, k :: 0 <= j < k < |fs| ==> ExportName(fs[j].name) != ExportName(fs[k].name)
  }

  function ZeroLeaf(f: FieldDesc): (r: Option<PV>)
    ensures r.Some? ==> !r.value.Struct?
  {
    var c := f.typeCode;
    if c == 0x00 then Some(Basic(Num(Boolean, 0)))
    else if c == 0x20 then Some(Basic(Num(Byte, 0)))
    else if c == 0x21 then Some(Basic(Num(Short, 0)))
    else if c == 0x22 then Some(Basic(Num(Int, 0)))
    else if c == 0x23 then Some(Basic(Num(Long, 0)))
    else if c == 0x24 then Some(Basic(Num(UByte, 0)))
    else if c == 0x25 then Some(Basic(Num(UShort, 0)))
    else if c == 0x26 then Some(Basic(Num(UInt, 0)))
    else if c == 0x27 then Some(Basic(Num(ULong, 0)))
    else if c == 0x42 then Some(Basic(Num(Float, 0)))
    else if c == 0x43 then Some(Basic(Num(Double, 0)))
    else if c == STRING then Some(Basic(Chars([])))
    else if c == BOUNDED_STRING then Some(Bounded([], f.size))
    else None
  }

  /** FieldDesc.createZero; no value for the null type. */
  function CreateZero(f: FieldDesc): Result<Option<PV>>
    decreases f
  {
    if f.typeCode == NULL_TYPE_CODE then Done(None)
    else if ZeroLeaf(f).Some? then Done(ZeroLeaf(f))
    else if f.typeCode != STRUCT then Fail(NoZeroValue)
    else if IsNt(f.structType) then Fail(NtLayout)
    else match CreateFields(f.fields)
      case Fail(fault) => Fail(fault)
      case Done(fs) => if LegalFields(fs) then Done(Some(Struct(f.structType, fs))) else Fail(Panic)
  }

  /** Zero values for the fields in turn; a null member or an empty name makes Go panic. */
  function CreateFields(ds: seq<StructFieldDesc>): Result<seq<Field>>
    decreases ds
  {
    if |ds| == 0 then Done([])
    else match CreateZero(ds[0].field)
      case Fail(fault) => Fail(fault)
      case Done(None) => Fail(Panic)
      case Done(Some(v)) =>
        if |ds[0].name| == 0 then Fail(Panic)
        else match CreateFields(ds[1..])
          case Fail(fault) => Fail(fault)
          case Done(fs) => Done([Field(ds[0].name, v)] + fs)
  }

  // PVAny

  function EncAny(o: ByteOrder, data: Option<PV>): seq<byte>
    requires data.Some? ==> Holdable(data.value)
  {
    match data
    case None => [NULL_TYPE_CODE]
    case Some(v) => DescOfStorable(v); EncDesc(o, DescOf(v)) + Enc(o, v)
  }

  function DecAny(o: ByteOrder, ch: Changes, i: nat, input: seq<byte>): Parsed<(Option<PV>, nat)> {
    ZeroStorable();
    var (f, rest) :- DecDesc(o, ZERO_DESC, input);
    match CreateZero(f)
    case Fail(fault) => Err(fault)
    case Done(None) => Ok((None, i), rest)
    case Done(Some(zero)) =>
      ZeroHoldable(f);
      var (moved, rest') :- Walk(o, ch, i, zero, rest);
      Ok((Some(moved.0), moved.1), rest')
  }

  lemma {:induction false} DescOfStorable(v: PV)
    requires Holdable(v)
    ensures Storable(DescOf(v))
    decreases v
  {
    Widths();
    if v.Struct? {
      FieldDescsStorable(v.fields);
    }
  }

  lemma {:induction false} FieldDescsStorable(fs: seq<Field>)
    requires AllHoldable(fs)
    ensures AllStorable(FieldDescs(fs))
    decreases fs
  {
    if |fs| > 0 {
      DescOfStorable(fs[0].value);
      FieldDescsStorable(fs[1..]);
    }
  }

  lemma {:induction false} ZeroHoldable(f: FieldDesc)
    requires Storable(f)
    ensures var r := CreateZero(f); r.Done? && r.value.Some? ==> Holdable(r.value.value)
    decreases f
  {
    if f.typeCode == STRUCT {
      ZeroFieldsHoldable(f.fields);
    }
  }

  lemma {:induction false} ZeroFieldsHoldable(ds: seq<StructFieldDesc>)
    requires AllStorable(ds)
    ensures var r := CreateFields(ds); r.Done? ==> |r.value| == |ds| && AllHoldable(r.value)
    decreases ds
  {
    if |ds| > 0 {
      ZeroHoldable(ds[0].field);
      ZeroFieldsHoldable(ds[1..]);
    }
  }

  // The self-describing round trip

  /** No bounded strings, whose descriptors do not come back, and no structures with a fixed Go layout. */
  predicate Plain(v: PV)
    decreases v
  {
    match v
    case Bounded(_, _) => false
    case Struct(id, fs) => !IsNt(id) && AllPlain(fs)
    case _ => true
  }

  predicate AllPlain(fs: seq<Field>)
    decreases fs
  {
    |fs| == 0 || (Plain(fs[0].value) && AllPlain(fs[1..]))
  }

  /** createZero can build the type of v: no arrays, and field names that make a Go struct. */
  predicate Buildable(v: PV)
    decreases v
  {
    match v
    case Array(_, _, _) => false
    case Struct(_, fs) => AllBuildable(fs) && LegalFields(fs)
    case _ => true
  }

  predicate AllBuildable(fs: seq<Field>)
    decreases fs
  {
    |fs| == 0 || (Buildable(fs[0].value) && AllBuildable(fs[1..]))
  }

  function ZeroOf(v: PV): PV
    decreases v
  {
    match v
    case Basic(Num(k, _)) => Basic(Num(k, 0))
    case Basic(Chars(_)) => Basic(Chars([]))
    case Struct(id, fs) => Struct(id, ZeroFields(fs))
    case _ => v
  }

  function ZeroFields(fs: seq<Field>): (zs: seq<Field>)
    ensures |zs| == |fs| && forall k :: 0 <= k < |fs| ==> zs[k].name == fs[k].name
    decreases fs
  {
    if |fs| == 0 then [] else [Field(fs[0].name, ZeroOf(fs[0].value))] + ZeroFields(fs[1..])
  }

  /** No bounded string at any depth. */
  predicate Unbounded(v: PV)
    decreases v
  {
    !v.Bounded? && (v.Struct? ==> AllUnbounded(v.fields))
  }

  predicate AllUnbounded(fs: seq<Field>)
    decreases fs
  {
    |fs| == 0 || (Unbounded(fs[0].value) && AllUnbounded(fs[1..]))
  }

  lemma {:induction false} PlainUnbounded(v: PV)
    requires Plain(v)
    ensures Unbounded(v)
    decreases v
  {
    if v.Struct? {
      AllPlainUnbounded(v.fields);
    }
  }

  lemma {:induction false} AllPlainUnbounded(fs: seq<Field>)
    requires AllPlain(fs)
    ensures AllUnbounded(fs)
    decreases fs
  {
    if |fs| > 0 {
      PlainUnbounded(fs[0].value);
      AllPlainUnbounded(fs[1..]);
    }
  }

  lemma {:induction false} DescOfReadable(v: PV)
    requires Holdable(v)
    ensures Described(DescOf(v)) && (Readable(DescOf(v)) <==> Unbounded(v))
    decreases v
  {
    if v.Struct? {
      FieldDescsReadable(v.fields);
    }
  }

  lemma {:induction false} FieldDescsReadable(fs: seq<Field>)
    requires AllHoldable(fs)
    ensures AllDescribed(FieldDescs(fs)) && (AllReadable(FieldDescs(fs)) <==> AllUnbounded(fs))
    decreases fs
  {
    if |fs| > 0 {
      DescOfReadable(fs[0].value);
      FieldDescsReadable(fs[1..]);
    }
  }

  /** The descriptor of any value comes back exactly when there is no bounded string in the value, however deep. */
  lemma DescOfExact(o: ByteOrder, v: PV, rest: seq<byte>)
    requires Holdable(v)
    ensures Storable(DescOf(v)) && Storable(ZERO_DESC)
    ensures DecDesc(o, ZERO_DESC, EncDesc(o, DescOf(v)) + rest) == Ok(Erase(DescOf(v)), rest) <==> Unbounded(v)
  {
    DescOfStorable(v);
    DescOfReadable(v);
    DescribedExact(o, DescOf(v), rest);
  }

  /** createZero on the received descriptor of a plain value: its zero, exactly when the value is buildable. */
  lemma {:induction false} ZeroOfDesc(v: PV)
    requires Holdable(v) && Plain(v)
    ensures var r := CreateZero(Erase(DescOf(v)));
      if Buildable(v) then r == Done(Some(ZeroOf(v))) else r.Fail?
    decreases v, 1
  {
    match v
    case Basic(e) => BasicZero(e);
    case Array(_, _, _) => ArrayHasNoZero(v);
    case Struct(_, fs) => StructZero(v);
  }

  lemma {:induction false} StructZero(v: PV)
    requires v.Struct? && Holdable(v) && Plain(v)
    ensures var r := CreateZero(Erase(DescOf(v)));
      if Buildable(v) then r == Done(Some(ZeroOf(v))) else r.Fail?
    decreases v, 0
  {
    hide LegalName, ExportName, IsNt, CreateFields, FieldDescs, EraseAll, AllHoldable, AllPlain, AllBuildable, HasBit;
    ZeroOfDescs(v.fields);
    EmptyNameIllegal(v.fields);
    SameNames(v.fields, ZeroFields(v.fields));
  }

  lemma EmptyNameIllegal(fs: seq<Field>)
    ensures (exists k :: 0 <= k < |fs| && |fs[k].name| == 0) ==> !LegalFields(fs)
  {
  }

  lemma SameNames(fs: seq<Field>, zs: seq<Field>)
    requires |zs| == |fs| && forall k :: 0 <= k < |fs| ==> zs[k].name == fs[k].name
    ensures LegalFields(fs) == LegalFields(zs)
  {
  }

  lemma BasicZero(e: Elem)
    requires ElemOk(e)
    ensures CreateZero(Erase(DescOf(Basic(e)))) == Done(Some(ZeroOf(Basic(e))))
  {
    match e
    case Num(k, _) =>
    case Chars(_) =>
  }

  lemma ArrayHasNoZero(v: PV)
    requires v.Array? && Holdable(v)
    ensures CreateZero(Erase(DescOf(v))) == Fail(NoZeroValue)
  {
    match v.elemType
    case NumType(k) =>
    case CharsType =>
  }

  lemma {:induction false} ZeroOfDescs(fs: seq<Field>)
    requires AllHoldable(fs) && AllPlain(fs)
    ensures match CreateFields(EraseAll(FieldDescs(fs)))
      case Done(zs) => AllBuildable(fs) && zs == ZeroFields(fs)
      case Fail(_) => AllBuildable(fs) ==> exists k :: 0 <= k < |fs| && |fs[k].name| == 0
    decreases fs
  {
    if |fs| > 0 {
      ZeroOfDesc(fs[0].value);
      ZeroOfDescs(fs[1..]);
      var ds := EraseAll(FieldDescs(fs));
      assert ds[1..] == EraseAll(FieldDescs(fs[1..]));
      if CreateFields(ds).Fail? && AllBuildable(fs) && |fs[0].name| > 0 {
        var k :| 0 <= k < |fs[1..]| && |fs[1..][k].name| == 0;
        assert |fs[k + 1].name| == 0;
      }
    }
  }

  lemma {:induction false} ZeroSameType(v: PV)
    requires Buildable(v)
    ensures SameType(ZeroOf(v), v)
    decreases v
  {
    match v
    case Basic(Num(_, _)) =>
    case Basic(Chars(_)) =>
    case Bounded(_, _) =>
    case Struct(_, fs) => ZeroFieldsSameTypes(fs);
  }

  lemma {:induction false} ZeroFieldsSameTypes(fs: seq<Field>)
    requires AllBuildable(fs)
    ensures SameTypes(ZeroFields(fs), fs)
    decreases fs
  {
    if |fs| > 0 {
      ZeroSameType(fs[0].value);
      ZeroFieldsSameTypes(fs[1..]);
    }
  }

  lemma {:induction false} BuildableIsShort(v: PV)
    requires Buildable(v)
    ensures ShortEnough(v)
    decreases v
  {
    if v.Struct? {
      AllBuildableAreShort(v.fields);
    }
  }

  lemma {:induction false} AllBuildableAreShort(fs: seq<Field>)
    requires AllBuildable(fs)
    ensures AllShortEnough(fs)
    decreases fs
  {
    if |fs| > 0 {
      BuildableIsShort(fs[0].value);
      AllBuildableAreShort(fs[1..]);
    }
  }

  /**
   * A plain value sent as PVAny comes back, with its type codes, structure IDs, field names and values and nothing
   * behind it touched, exactly when createZero can build its type.
   */
  lemma AnyRoundTrip(o: ByteOrder, v: PV, i: nat, rest: seq<byte>)
    requires Holdable(v) && Plain(v)
    ensures DecAny(o, Changes(false, []), i, EncAny(o, Some(v)) + rest) == Ok((Some(v), i), rest) <==> Buildable(v)
  {
    var f := DescOf(v);
    DescOfStorable(v);
    DescOfReadable(v);
    PlainUnbounded(v);
    assert EncAny(o, Some(v)) + rest == EncDesc(o, f) + (Enc(o, v) + rest);
    DescRoundTrip(o, f, Enc(o, v) + rest);
    ZeroOfDesc(v);
    if Buildable(v) {
      ZeroHoldable(Erase(f));
      ZeroSameType(v);
      BuildableIsShort(v);
      WalkRoundTrip(o, Changes(false, []), i, ZeroOf(v), v, rest);
    }
  }

  lemma NullRoundTrip(o: ByteOrder, ch: Changes, i: nat, rest: seq<byte>)
    ensures DecAny(o, ch, i, EncAny(o, None) + rest) == Ok((None, i), rest)
  {
  }
}
