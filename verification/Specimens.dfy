/** Bytes written out, many of them those the repository's own tests expect. */
module Specimens {
  import opened Bytes
  import opened Sizes
  import opened BitSet
  import opened Values
  import opened Partial
  import opened Descriptors
  import opened Variant
  import opened Records

  lemma SizeBytes(o: ByteOrder)
    ensures EncSize(o, -1) == [255] && EncSize(o, 0) == [0] && EncSize(o, 253) == [253]
    ensures EncSize(BigEndian, 254) == [254, 0, 0, 0, 254]
    ensures EncSize(LittleEndian, 254) == [254, 254, 0, 0, 0]
  {
  }

  /** The three forms of a size: below 254, below 2^31 - 1, and from there on. */
  lemma SizeForms(o: ByteOrder, v: nat)
    requires v < 0x8000_0000_0000_0000
    ensures EncSize(o, v)
         == if v < 254 then [v]
            else if v < 0x7fff_ffff then [254] + Put(o, 4, v)
            else [254] + Put(o, 4, 0x7fff_ffff) + Put(o, 8, v)
  {
    hide Put;
  }

  /** How each first byte of a size is read; a 64-bit size is signed. */
  lemma SizeRead(o: ByteOrder, b: byte, w: nat, rest: seq<byte>)
    requires w < 0x1_0000_0000_0000_0000
    ensures b < 254 ==> DecSize(o, [b] + rest) == Ok(b, rest)
    ensures DecSize(o, [255] + rest) == Ok(-1, rest)
    ensures w < 0x1_0000_0000 && w != 0x7fff_ffff ==> DecSize(o, [254] + (Put(o, 4, w) + rest)) == Ok(w, rest)
    ensures DecSize(o, [254] + (Put(o, 4, 0x7fff_ffff) + (Put(o, 8, w) + rest)))
         == Ok(if w < 0x8000_0000_0000_0000 then w else w - 0x1_0000_0000_0000_0000, rest)
  {
    hide Put, ReadUint;
    Widths();
    Cons(b, rest);
    Cons(255, rest);
    if w < 0x1_0000_0000 {
      Cons(254, Put(o, 4, w) + rest);
      ReadWritten(o, 4, w, rest);
    }
    Cons(254, Put(o, 4, 0x7fff_ffff) + (Put(o, 8, w) + rest));
    ReadWritten(o, 4, 0x7fff_ffff, Put(o, 8, w) + rest);
    ReadWritten(o, 8, w, rest);
  }

  /** A null length, where Go panics, in front of a string, an array's elements or field descriptors; none for a set. */
  lemma NullLengths(o: ByteOrder, t: ElemType, es: seq<Elem>, rest: seq<byte>)
    requires Holdable(Array(Sized, t, es))
    ensures DecText(o, [255] + rest) == Err(Panic)
    ensures DecLeaf(o, Array(Sized, t, es), [255] + rest) == Err(Panic)
    ensures DecFieldDescs(o, [], [255] + rest) == Err(Panic)
    ensures DecBitSet(o, [255] + rest) == Ok([], rest)
  {
    hide DecElems, ElemsOk;
    SizeRead(o, 0, 0, rest);
  }

  // Scalars

  lemma Digits(n: nat, w: nat)
    requires n > 0
    ensures Little(n, w) == [w % 256] + Little(n - 1, w / 256)
  {
  }

  lemma TwoBytes(w: nat)
    requires w < 0x1_0000
    ensures Put(LittleEndian, 2, w) == [w % 256, w / 0x100]
    ensures Put(BigEndian, 2, w) == [w / 0x100, w % 256]
  {
    Digits(2, w);
    Digits(1, w / 0x100);
    ReversedSnoc([w % 256], w / 0x100);
    assert Reversed([w % 256]) == [w % 256];
    assert Little(2, w) == [w % 256] + [w / 0x100];
  }

  lemma LittleFour(a: byte, b: byte, c: byte, d: byte)
    ensures Little(4, a + 0x100 * (b + 0x100 * (c + 0x100 * d))) == [a, b, c, d]
  {
    hide Little;
    var w2 := c + 0x100 * d;
    LittleByte(4, a, b + 0x100 * w2);
    LittleByte(3, b, w2);
    LittleByte(2, c, d);
    LittleOne(d);
    assert [a] + ([b] + ([c] + [d])) == [a, b, c, d];
  }

  lemma LittleOne(b: byte)
    ensures Little(1, b) == [b]
  {
    Digits(1, b);
  }

  lemma FourBytes(a: byte, b: byte, c: byte, d: byte)
    ensures Put(LittleEndian, 4, a + 0x100 * (b + 0x100 * (c + 0x100 * d))) == [a, b, c, d]
    ensures Put(BigEndian, 4, a + 0x100 * (b + 0x100 * (c + 0x100 * d))) == [d, c, b, a]
  {
    hide Little, Reversed;
    LittleFour(a, b, c, d);
    ReversedFour(a, b, c, d);
  }

  lemma ReversedFour(a: byte, b: byte, c: byte, d: byte)
    ensures Reversed([a, b, c, d]) == [d, c, b, a]
  {
    assert Reversed([d]) == [d];
    hide Reversed;
    ReversedFront(c, [d]);
    ReversedFront(b, [c, d]);
    ReversedFront(a, [b, c, d]);
    assert [c] + [d] == [c, d] && [b] + [c, d] == [b, c, d] && [a] + [b, c, d] == [a, b, c, d];
    assert [d] + [c] + [b] + [a] == [d, c, b, a];
  }

  lemma ShortBytes()
    ensures EncElem(BigEndian, Num(Short, 256)) == [1, 0] && EncElem(LittleEndian, Num(Short, 256)) == [0, 1]
    ensures EncElem(BigEndian, Num(Short, 0xffff)) == EncElem(LittleEndian, Num(Short, 0xffff)) == [0xff, 0xff]
    ensures EncElem(BigEndian, Num(Short, 32)) == [0, 32]
    ensures EncElem(BigEndian, Num(UShort, 0x8000)) == [0x80, 0]
  {
    TwoBytes(256);
    TwoBytes(0xffff);
    TwoBytes(32);
    TwoBytes(0x8000);
  }

  lemma ByteBytes(o: ByteOrder)
    ensures EncElem(o, Num(Boolean, 1)) == [1] && EncElem(o, Num(Boolean, 0)) == [0]
    ensures EncElem(o, Num(Byte, 0xff)) == [0xff] && EncElem(o, Num(UByte, 129)) == [129]
  {
  }

  lemma IntBytes()
    ensures EncElem(BigEndian, Num(Int, 0x1_0000)) == [0, 1, 0, 0]
    ensures EncElem(LittleEndian, Num(Int, 0x1_0000)) == [0, 0, 1, 0]
    ensures EncElem(BigEndian, Num(Int, 0xffff_ffff)) == [0xff, 0xff, 0xff, 0xff]
    ensures EncElem(BigEndian, Num(UInt, 0x8000_0000)) == [0x80, 0, 0, 0]
    ensures EncElem(BigEndian, Num(UInt, 1)) == [0, 0, 0, 1]
    ensures EncElem(BigEndian, Num(Float, 0x42AA_4000)) == [0x42, 0xAA, 0x40, 0]
  {
    hide Put;
    FourBytes(0, 0, 1, 0);
    FourBytes(0xff, 0xff, 0xff, 0xff);
    FourBytes(0, 0, 0, 0x80);
    FourBytes(1, 0, 0, 0);
    FourBytes(0, 0x40, 0xAA, 0x42);
  }

  lemma EightBytes(a: byte, b: byte, c: byte, d: byte, w: nat)
    requires w < 0x1_0000_0000
    ensures Put(LittleEndian, 8, a + 0x100 * (b + 0x100 * (c + 0x100 * (d + 0x100 * w))))
         == [a, b, c, d] + Put(LittleEndian, 4, w)
    ensures Put(BigEndian, 8, a + 0x100 * (b + 0x100 * (c + 0x100 * (d + 0x100 * w))))
         == Put(BigEndian, 4, w) + [d, c, b, a]
  {
    var w3 := d + 0x100 * w;
    var w2 := c + 0x100 * w3;
    var w1 := b + 0x100 * w2;
    hide Little, Reversed;
    var l := Little(4, w);
    LittleByte(8, a, w1);
    LittleByte(7, b, w2);
    LittleByte(6, c, w3);
    LittleByte(5, d, w);
    assert [a] + ([b] + ([c] + ([d] + l))) == [a, b, c, d] + l;
    ReversedFront(a, [b, c, d] + l);
    ReversedFront(b, [c, d] + l);
    ReversedFront(c, [d] + l);
    ReversedFront(d, l);
    assert [a, b, c, d] + l == [a] + ([b, c, d] + l);
    assert [b, c, d] + l == [b] + ([c, d] + l) && [c, d] + l == [c] + ([d] + l);
    assert Reversed(l) + [d] + [c] + [b] + [a] == Reversed(l) + [d, c, b, a];
  }

  lemma ReversedFront(b: byte, s: seq<byte>)
    ensures Reversed([b] + s) == Reversed(s) + [b]
  {
    Cons(b, s);
  }

  lemma LongBytes()
    ensures EncElem(BigEndian, Num(Long, 1)) == [0, 0, 0, 0, 0, 0, 0, 1]
    ensures EncElem(LittleEndian, Num(Long, 1)) == [1, 0, 0, 0, 0, 0, 0, 0]
    ensures EncElem(BigEndian, Num(ULong, 0x8000_0000_0000_0000)) == [0x80, 0, 0, 0, 0, 0, 0, 0]
    ensures EncElem(BigEndian, Num(Double, 0x4055_4800_0000_0000)) == [0x40, 0x55, 0x48, 0, 0, 0, 0, 0]
  {
    hide Put;
    FourBytes(0, 0, 0, 0);
    FourBytes(0, 0, 0, 0x80);
    FourBytes(0, 0x48, 0x55, 0x40);
    EightBytes(1, 0, 0, 0, 0);
    EightBytes(0, 0, 0, 0, 0x8000_0000);
    EightBytes(0, 0, 0, 0, 0x4055_4800);
  }

  // Arrays, statuses and bit sets

  lemma ShortArrayBytes()
    ensures Enc(BigEndian, Array(ShortLength, NumType(Boolean), [Num(Boolean, 1)])) == [0, 1, 1]
    ensures Enc(LittleEndian, Array(ShortLength, NumType(Boolean), [Num(Boolean, 1)])) == [1, 0, 1]
  {
  }

  lemma ArrayBytes(o: ByteOrder)
    ensures Enc(o, Array(Sized, NumType(Boolean), [Num(Boolean, 1), Num(Boolean, 0), Num(Boolean, 0)])) == [3, 1, 0, 0]
    ensures Enc(o, Array(Fixed, NumType(Boolean), [Num(Boolean, 1), Num(Boolean, 0), Num(Boolean, 0)])) == [1, 0, 0]
  {
    var es := [Num(Boolean, 1), Num(Boolean, 0), Num(Boolean, 0)];
    assert es[1..] == [Num(Boolean, 0), Num(Boolean, 0)] && es[1..][1..] == [Num(Boolean, 0)];
    ByteBytes(o);
    assert EncElems(o, es[1..][1..]) == [0];
    assert EncElems(o, es) == [1, 0, 0];
  }

  lemma StatusBytes(o: ByteOrder)
    ensures EncStatus(o, Status(0, [], [])) == [0xFF] && DecStatus(o, [0xFF]) == Ok(Status(0, [], []), [])
    ensures EncStatus(o, Status(3, [0x33], [0x32])) == [3, 1, 0x33, 1, 0x32]
  {
  }

  lemma BitSetBytes(o: ByteOrder)
    ensures EncBitSet(o, []) == [0]
    ensures EncBitSet(o, [false, true]) == [1, 2]
    ensures EncBitSet(o, [true, true, true, false, true]) == [1, 0x17]
  {
  }

  lemma EightByteBitSets()
    ensures EncBitSet(BigEndian, Falses(56) + [true]) == [8, 1, 0, 0, 0, 0, 0, 0, 0]
    ensures EncBitSet(LittleEndian, Falses(56) + [true]) == [8, 0, 0, 0, 0, 0, 0, 0, 1]
    ensures EncBitSet(BigEndian, Falses(64) + [true]) == [9, 0, 0, 0, 0, 0, 0, 0, 0, 1]
  {
    SingleBit(BigEndian, 56);
    SingleBit(LittleEndian, 56);
    SingleBit(BigEndian, 64);
    assert Pow2(0) == 1;
  }

  // Descriptors

  /** The descriptor of a scalar is one byte. */
  lemma ScalarDesc(o: ByteOrder, e: Elem)
    requires ElemOk(e)
    ensures EncDesc(o, DescOf(Basic(e))) == [ElemCode(TypeOf(e))]
  {
    var f := DescOf(Basic(e));
    Widths();
    assert EncDetail(o, f) == [];
    Nil([f.typeCode]);
  }

  predicate Coded(o: ByteOrder, e: Elem, code: byte) {
    ElemOk(e) ==> EncDesc(o, DescOf(Basic(e))) == [code]
  }

  lemma ScalarCodes(o: ByteOrder, w: nat, s: Text)
    ensures Coded(o, Num(Boolean, w), 0x00) && Coded(o, Num(Byte, w), 0x20) && Coded(o, Num(UByte, w), 0x24)
    ensures Coded(o, Num(Short, w), 0x21) && Coded(o, Num(Int, w), 0x22) && Coded(o, Num(Long, w), 0x23)
    ensures Coded(o, Num(UShort, w), 0x25) && Coded(o, Num(UInt, w), 0x26) && Coded(o, Num(ULong, w), 0x27)
    ensures Coded(o, Num(Float, w), 0x42) && Coded(o, Num(Double, w), 0x43) && Coded(o, Chars(s), 0x60)
  {
    hide Coded;
    CodedBy(o, Num(Boolean, w));
    CodedBy(o, Num(Byte, w));
    CodedBy(o, Num(UByte, w));
    CodedBy(o, Num(Short, w));
    CodedBy(o, Num(Int, w));
    CodedBy(o, Num(Long, w));
    CodedBy(o, Num(UShort, w));
    CodedBy(o, Num(UInt, w));
    CodedBy(o, Num(ULong, w));
    CodedBy(o, Num(Float, w));
    CodedBy(o, Num(Double, w));
    CodedBy(o, Chars(s));
  }

  lemma CodedBy(o: ByteOrder, e: Elem)
    ensures Coded(o, e, ElemCode(TypeOf(e)))
  {
    if ElemOk(e) {
      ScalarDesc(o, e);
    }
  }

  /** An array's descriptor is that of its elements with 0x08 added, or with 0x18 and its length if it is fixed. */
  lemma ArrayCodes(o: ByteOrder, form: ArrayForm, e: Elem, es: seq<Elem>)
    requires ElemOk(e) && Holdable(Array(form, TypeOf(e), es))
    ensures |EncDesc(o, DescOf(Basic(e)))| == 1 && EncDesc(o, DescOf(Basic(e)))[0] <= 0x60
    ensures var code := EncDesc(o, DescOf(Basic(e)))[0];
      EncDesc(o, DescOf(Array(form, TypeOf(e), es)))
      == if form == Fixed then [code + 0x18] + EncSize(o, |es|) else [code + 0x08]
  {
    hide EncSize, ElemsOk, ElemOk;
    var f := DescOf(Array(form, TypeOf(e), es));
    ScalarDesc(o, e);
    DescOfStorable(Array(form, TypeOf(e), es));
    ArrayDetail(o, f, TypeOf(e), form, |es|);
  }

  lemma ArrayDetail(o: ByteOrder, f: FieldDesc, t: ElemType, form: ArrayForm, n: nat)
    requires Storable(f) && !f.hasID && f.size >= 0 && n < TWO_63
    requires if form == Fixed then f.typeCode == ElemCode(t) + 0x18 && f.size == n else f.typeCode == ElemCode(t) + 0x08
    ensures EncDesc(o, f) == if form == Fixed then [f.typeCode] + EncSize(o, n) else [f.typeCode]
  {
    hide EncSize;
    match t {
      case NumType(k) =>
      case CharsType =>
    }
    assert HasSize(f.typeCode) <==> form == Fixed;
    assert !HasStructBit(f.typeCode);
    assert EncStructure(o, f) == [] + [];
    Nil(EncSize(o, n));
    Nil([f.typeCode]);
  }

  /** Bounded strings are described by 0x86 and their bound, structures by 0x80, their ID and their fields. */
  lemma OtherCodes(o: ByteOrder, s: Text, bound: int, id: Text, fs: seq<Field>)
    requires bound < TWO_63 && Holdable(Struct(id, fs))
    ensures EncDesc(o, DescOf(Bounded(s, bound))) == [0x86] + (EncSize(o, bound) + [0, 0])
    ensures AllStorable(FieldDescs(fs))
    ensures EncDesc(o, DescOf(Struct(id, fs)))
         == [0x80] + (EncText(o, id) + (EncSize(o, |fs|) + EncDescs(o, FieldDescs(fs))))
  {
    DescOfStorable(Struct(id, fs));
    DescOfStorable(Bounded(s, bound));
    FieldDescsStorable(fs);
    hide EncDescs, FieldDescs, AllHoldable, AllStorable;
    var f := DescOf(Struct(id, fs));
    StructureBytes(o, f, []);
    Nil(EncDetail(o, f));
    Nil(EncDescs(o, f.fields));
    Nil([f.typeCode]);
    var g := DescOf(Bounded(s, bound));
    BoundedLeft(o, g, []);
    BoundedBytes(o, g);
  }

  lemma BoundedBytes(o: ByteOrder, g: FieldDesc)
    requires Storable(g) && BoundedHead(g) && !g.hasID
    ensures EncDesc(o, g) == [0x86] + (EncSize(o, g.size) + [0, 0])
  {
    hide EncSize;
    assert EncText(o, []) == [0] + [] by { SizeBytes(o); }
    assert EncStructType(o, g) == [0, 0] by { SizeBytes(o); }
    assert EncStructure(o, g) == [] + [0, 0];
    Nil([g.typeCode]);
  }

  /** The forms with an ID: 0xFD and two bytes, 0xFC and six bytes, and 0xFE for an ID alone. */
  lemma IdentityBytes(o: ByteOrder, f: FieldDesc)
    requires Storable(f)
    ensures f.hasID && f.hasTag ==>
      EncDesc(o, f) == [0xFC] + Put(o, 2, f.id) + Put(o, 4, f.tag) + [f.typeCode] + EncDetail(o, f)
    ensures f.hasID && !f.hasTag ==>
      EncDesc(o, f) == if f.typeCode == 0xFF then [0xFE] + Put(o, 2, f.id)
                       else [0xFD] + Put(o, 2, f.id) + [f.typeCode] + EncDetail(o, f)
    ensures !f.hasID ==> EncDesc(o, f) == [f.typeCode] + EncDetail(o, f)
    ensures f.typeCode in {0xFF, 0x82} ==> EncDetail(o, f) == []
  {
    hide EncStructure, EncSize, HasBit, Put;
    Nil([f.typeCode]);
  }

  /** Type codes without a zero value, and the bound of a bounded string's. */
  lemma ZeroValues(f: FieldDesc)
    ensures f.typeCode == 0x86 ==> CreateZero(f) == Done(Some(Bounded([], f.size)))
    ensures f.typeCode == 0xFF ==> CreateZero(f) == Done(None)
    ensures f.typeCode in {0x81, 0x82, 0x88, 0x89, 0x08, 0x18, 0x28, 0x68} ==> CreateZero(f) == Fail(NoZeroValue)
  {
  }

  lemma StructArrayBytes(o: ByteOrder)
    ensures var f := ZERO_DESC.(typeCode := 0x88); Storable(f) && EncDesc(o, f) == [0x88, 0x80, 0, 0]
    ensures var f := ZERO_DESC.(typeCode := 0x89); Storable(f) && EncDesc(o, f) == [0x89, 0x81, 0, 0]
  {
    StructArrayUnread(o);
  }

  // Numbering

  /** Array elements have no number, and a structure of n leaves has n. */
  lemma LeafNodes(v: PV, f: Field, fs: seq<Field>)
    ensures !v.Struct? ==> Nodes(v) == 0
    ensures FieldNodes([]) == 0 && FieldNodes([f] + fs) == 1 + Nodes(f.value) + FieldNodes(fs)
  {
    Cons(f, fs);
  }

  /** What a structure difference sends first: false for the structure itself, then true for each node below it. */
  lemma DiffBitsWritten(v: PV)
    ensures |DiffBits(v)| == 1 + Nodes(v) && !DiffBits(v)[0]
    ensures forall k :: 0 < k <= Nodes(v) ==> DiffBits(v)[k]
  {
  }
}
