/** Which structures survive as variants, said of their field names and IDs alone, bytes written out. */
module Naming {
  import opened Bytes
  import opened Values
  import opened Partial
  import opened Descriptors
  import opened Variant

  /** enum_t, time_t, alarm_t, alarmLimit_t, valueAlarm_t, display_t and control_t. */
  const LAYOUTS: set<seq<byte>> := {
    [0x65, 0x6E, 0x75, 0x6D, 0x5F, 0x74],
    [0x74, 0x69, 0x6D, 0x65, 0x5F, 0x74],
    [0x61, 0x6C, 0x61, 0x72, 0x6D, 0x5F, 0x74],
    [0x61, 0x6C, 0x61, 0x72, 0x6D, 0x4C, 0x69, 0x6D, 0x69, 0x74, 0x5F, 0x74],
    [0x76, 0x61, 0x6C, 0x75, 0x65, 0x41, 0x6C, 0x61, 0x72, 0x6D, 0x5F, 0x74],
    [0x64, 0x69, 0x73, 0x70, 0x6C, 0x61, 0x79, 0x5F, 0x74],
    [0x63, 0x6F, 0x6E, 0x74, 0x72, 0x6F, 0x6C, 0x5F, 0x74]
  }

  /** Structures, at any depth, of scalars and strings, none with an ID of a fixed layout. */
  predicate Scalars(v: PV)
    decreases v
  {
    match v
    case Basic(_) => true
    case Struct(id, fs) => id !in LAYOUTS && AllScalars(fs)
    case _ => false
  }

  predicate AllScalars(fs: seq<Field>)
    decreases fs
  {
    |fs| == 0 || (Scalars(fs[0].value) && AllScalars(fs[1..]))
  }

  predicate Digit(b: byte) {
    0x30 <= b <= 0x39
  }

  /** A to Z, a to z, or underscore. */
  predicate Initial(b: byte) {
    0x41 <= b <= 0x5A || 0x61 <= b <= 0x7A || b == 0x5F
  }

  predicate Identifier(name: seq<byte>) {
    |name| > 0 && Initial(name[0]) && forall k :: 0 <= k < |name| ==> Initial(name[k]) || Digit(name[k])
  }

  /** The first letter in upper case, or an X in front of an underscore. */
  function Capital(name: seq<byte>): seq<byte>
    requires |name| > 0
  {
    if 0x61 <= name[0] <= 0x7A then [name[0] - 0x20] + name[1..]
    else if name[0] == 0x5F then [0x58] + name
    else name
  }

  /** Identifiers, pairwise different once capitalised. */
  predicate NamesFit(fs: seq<Field>) {
    && (forall k :: 0 <= k < |fs| ==> Identifier(fs[k].name))
    && forall j, k :: 0 <= j < k < |fs| ==> Capital(fs[j].name) != Capital(fs[k].name)
  }

  /** Field names fit at every depth. */
  predicate Named(v: PV)
    decreases v
  {
    v.Struct? ==> AllNamed(v.fields) && NamesFit(v.fields)
  }

  predicate AllNamed(fs: seq<Field>)
    decreases fs
  {
    |fs| == 0 || (Named(fs[0].value) && AllNamed(fs[1..]))
  }

  lemma AsciiLayouts(id: Text)
    ensures IsNt(id) <==> id in LAYOUTS
  {
    assert Ascii("enum_t") == [0x65, 0x6E, 0x75, 0x6D, 0x5F, 0x74];
    assert Ascii("time_t") == [0x74, 0x69, 0x6D, 0x65, 0x5F, 0x74];
    assert Ascii("alarm_t") == [0x61, 0x6C, 0x61, 0x72, 0x6D, 0x5F, 0x74];
    assert Ascii("alarmLimit_t") == [0x61, 0x6C, 0x61, 0x72, 0x6D, 0x4C, 0x69, 0x6D, 0x69, 0x74, 0x5F, 0x74];
    assert Ascii("valueAlarm_t") == [0x76, 0x61, 0x6C, 0x75, 0x65, 0x41, 0x6C, 0x61, 0x72, 0x6D, 0x5F, 0x74];
    assert Ascii("display_t") == [0x64, 0x69, 0x73, 0x70, 0x6C, 0x61, 0x79, 0x5F, 0x74];
    assert Ascii("control_t") == [0x63, 0x6F, 0x6E, 0x74, 0x72, 0x6F, 0x6C, 0x5F, 0x74];
  }

  lemma SameRules(fs: seq<Field>)
    ensures LegalFields(fs) <==> NamesFit(fs)
  {
    forall k | 0 <= k < |fs| ensures LegalName(fs[k].name) <==> Identifier(fs[k].name) {
    }
    if forall k :: 0 <= k < |fs| ==> Identifier(fs[k].name) {
      forall k | 0 <= k < |fs| ensures ExportName(fs[k].name) == Capital(fs[k].name) {
        assert Identifier(fs[k].name);
      }
    }
  }

  lemma {:induction false} ScalarsBuildable(v: PV)
    requires Scalars(v)
    ensures Plain(v) && (Buildable(v) <==> Named(v))
    decreases v
  {
    if v.Struct? {
      AsciiLayouts(v.id);
      SameRules(v.fields);
      AllScalarsBuildable(v.fields);
    }
  }

  lemma {:induction false} AllScalarsBuildable(fs: seq<Field>)
    requires AllScalars(fs)
    ensures AllPlain(fs) && (AllBuildable(fs) <==> AllNamed(fs))
    decreases fs
  {
    if |fs| > 0 {
      ScalarsBuildable(fs[0].value);
      AllScalarsBuildable(fs[1..]);
    }
  }

  /** Nothing but a Go panic keeps such a value from being built. */
  lemma {:induction false} OnlyPanics(v: PV)
    requires Holdable(v) && Scalars(v)
    ensures var r := CreateZero(Erase(DescOf(v))); r.Fail? ==> r.fault == Panic
    decreases v
  {
    match v
    case Basic(e) => BasicZero(e);
    case Struct(id, fs) =>
      hide LegalFields, IsNt, HasBit;
      AsciiLayouts(id);
      OnlyPanicsFields(fs);
  }

  lemma {:induction false} OnlyPanicsFields(fs: seq<Field>)
    requires AllHoldable(fs) && AllScalars(fs)
    ensures var r := CreateFields(EraseAll(FieldDescs(fs))); r.Fail? ==> r.fault == Panic
    decreases fs
  {
    if |fs| > 0 {
      hide Erase, DescOf, CreateZero, Scalars, Holdable;
      OnlyPanics(fs[0].value);
      OnlyPanicsFields(fs[1..]);
      assert EraseAll(FieldDescs(fs))[1..] == EraseAll(FieldDescs(fs[1..]));
    }
  }

  /**
   * A structure of scalars and strings, at any depth, sent as a variant, is returned by the decoder exactly when its
   * field names are identifiers that stay different once capitalised, at every depth; otherwise the decoder panics.
   */
  lemma VariantExact(o: ByteOrder, v: PV, i: nat, rest: seq<byte>)
    requires Holdable(v) && Scalars(v)
    ensures DecAny(o, Changes(false, []), i, EncAny(o, Some(v)) + rest)
         == if Named(v) then Ok((Some(v), i), rest) else Err(Panic)
  {
    hide Enc, EncDesc, DecDesc, Walk, CreateZero, Scalars, Named;
    var f := DescOf(v);
    ScalarsBuildable(v);
    AnyRoundTrip(o, v, i, rest);
    OnlyPanics(v);
    ZeroOfDesc(v);
    DescOfStorable(v);
    DescOfReadable(v);
    PlainUnbounded(v);
    DescRoundTrip(o, f, Enc(o, v) + rest);
    Assoc(EncDesc(o, f), Enc(o, v), rest);
  }

  /** A structure with the ID of a fixed layout stops the decoder with that layout. */
  lemma LayoutStops(o: ByteOrder, v: PV, i: nat, rest: seq<byte>)
    requires v.Struct? && Holdable(v) && Unbounded(v) && v.id in LAYOUTS
    ensures DecAny(o, Changes(false, []), i, EncAny(o, Some(v)) + rest) == Err(NtLayout)
  {
    hide Enc, EncDesc, DecDesc, Walk, IsNt, AllHoldable;
    var f := DescOf(v);
    AsciiLayouts(v.id);
    DescOfStorable(v);
    DescOfReadable(v);
    DescRoundTrip(o, f, Enc(o, v) + rest);
    Assoc(EncDesc(o, f), Enc(o, v), rest);
  }

  /** Any two names that differ only in the case of their first letter clash, and no name may start with a digit. */
  lemma NamesClash(o: ByteOrder, v: PV, i: nat, rest: seq<byte>, j: nat, k: nat)
    requires v.Struct? && Holdable(v) && Scalars(v) && j < |v.fields| && k < |v.fields|
    requires var a, b := v.fields[j].name, v.fields[k].name;
      |a| > 0 && (Digit(a[0]) || (j != k && |b| > 0 && 0x61 <= a[0] <= 0x7A && b == [a[0] - 0x20] + a[1..]))
    ensures DecAny(o, Changes(false, []), i, EncAny(o, Some(v)) + rest) == Err(Panic)
  {
    assert !NamesFit(v.fields);
    VariantExact(o, v, i, rest);
  }

  /** A structure of one 32-bit integer called v. */
  lemma OneInteger(o: ByteOrder, w: nat, i: nat, rest: seq<byte>)
    requires w < 0x1_0000_0000
    ensures var v := Struct([], [Field([0x76], Basic(Num(Int, w)))]);
      Holdable(v) && DecAny(o, Changes(false, []), i, EncAny(o, Some(v)) + rest) == Ok((Some(v), i), rest)
  {
    var v := Struct([], [Field([0x76], Basic(Num(Int, w)))]);
    var fs := v.fields;
    Widths();
    assert fs[1..] == [];
    assert Holdable(fs[0].value) && Scalars(fs[0].value) && Named(fs[0].value);
    assert AllHoldable(fs) && AllScalars(fs) && AllNamed(fs);
    assert forall id :: id in LAYOUTS ==> |id| > 0;
    assert Identifier(fs[0].name);
    VariantExact(o, v, i, rest);
  }
}
