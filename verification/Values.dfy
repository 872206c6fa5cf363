/** pvData values and their encoding: scalars, text, arrays and nested structures. */
module Values {
  import opened Bytes
  import opened Sizes

  datatype Kind = Boolean | Byte | Short | Int | Long | UByte | UShort | UInt | ULong | Float | Double

  /** A scalar is the bit pattern of its Go value; floats are their IEEE patterns. */
  datatype Elem = Num(kind: Kind, bits: nat) | Chars(chars: Text)

  datatype ElemType = NumType(kind: Kind) | CharsType

  /** How an array writes its length: not at all, as 16 bits, or as a PVSize. */
  datatype ArrayForm = Fixed | ShortLength | Sized

  datatype Field = Field(name: Text, value: PV)

  datatype PV =
    | Basic(elem: Elem)
    | Bounded(chars: Text, bound: int)
    | Array(form: ArrayForm, elemType: ElemType, elems: seq<Elem>)
    | Struct(id: Text, fields: seq<Field>)

  function Width(k: Kind): (n: nat)
    ensures n >= 1
  {
    match k
    case Boolean | Byte | UByte => 1
    case Short | UShort => 2
    case Int | UInt | Float => 4
    case Long | ULong | Double => 8
  }

  function TypeOf(e: Elem): ElemType {
    match e
    case Num(k, _) => NumType(k)
    case Chars(_) => CharsType
  }

  predicate ElemOk(e: Elem) {
    e.Num? ==> e.bits < Pow256(Width(e.kind)) && (e.kind == Boolean ==> e.bits <= 1)
  }

  predicate ElemsOk(t: ElemType, es: seq<Elem>) {
    |es| == 0 || (ElemOk(es[0]) && TypeOf(es[0]) == t && ElemsOk(t, es[1..]))
  }

  /** v is a value some Go variable of its type can hold. */
  predicate Holdable(v: PV) {
    match v
    case Basic(e) => ElemOk(e)
    case Bounded(_, bound) => bound < TWO_63
    case Array(_, t, es) =>
      |es| < TWO_63 && ElemsOk(t, es)
    case Struct(_, fs) => |fs| < TWO_63 && AllHoldable(fs)
  }

  predicate AllHoldable(fs: seq<Field>) {
    |fs| == 0 || (Holdable(fs[0].value) && AllHoldable(fs[1..]))
  }

  /** No array with a 16-bit length is too long for it. */
  predicate ShortEnough(v: PV) {
    match v
    case Array(ShortLength, _, es) => |es| < 0x1_0000
    case Struct(_, fs) => AllShortEnough(fs)
    case _ => true
  }

  predicate AllShortEnough(fs: seq<Field>) {
    |fs| == 0 || (ShortEnough(fs[0].value) && AllShortEnough(fs[1..]))
  }

  /** Encoding succeeds: every bounded string respects its bound. */
  predicate Encodable(v: PV) {
    match v
    case Bounded(s, bound) => |s| <= bound
    case Struct(_, fs) => AllEncodable(fs)
    case _ => true
  }

  predicate AllEncodable(fs: seq<Field>) {
    |fs| == 0 || (Encodable(fs[0].value) && AllEncodable(fs[1..]))
  }

  /** a and b are values of the same Go type (a Go array type includes its length). */
  predicate SameType(a: PV, b: PV) {
    match (a, b)
    case (Basic(d), Basic(e)) => TypeOf(d) == TypeOf(e)
    case (Bounded(_, m), Bounded(_, n)) => m == n
    case (Array(f, t, ds), Array(g, u, es)) => f == g && t == u && (f == Fixed ==> |ds| == |es|)
    case (Struct(i, fs), Struct(j, gs)) => i == j && SameTypes(fs, gs)
    case _ => false
  }

  predicate SameTypes(fs: seq<Field>, gs: seq<Field>) {
    |fs| == |gs| &&
    (|fs| == 0 || (fs[0].name == gs[0].name && SameType(fs[0].value, gs[0].value) && SameTypes(fs[1..], gs[1..])))
  }

  /** The number of nodes below v in preorder; array elements are not nodes. */
  function Nodes(v: PV): nat {
    match v
    case Struct(_, fs) => FieldNodes(fs)
    case _ => 0
  }

  function FieldNodes(fs: seq<Field>): nat {
    if |fs| == 0 then 0 else 1 + Nodes(fs[0].value) + FieldNodes(fs[1..])
  }

  // Encoding

  function EncElem(o: ByteOrder, e: Elem): seq<byte> {
    match e
    case Num(k, bits) => Put(o, Width(k), bits)
    case Chars(s) => EncText(o, s)
  }

  function EncElems(o: ByteOrder, es: seq<Elem>): seq<byte> {
    if |es| == 0 then [] else EncElem(o, es[0]) + EncElems(o, es[1..])
  }

  /** The length in front of an array's elements; a 16-bit length is truncated as in Go. */
  function EncLength(o: ByteOrder, form: ArrayForm, n: nat): seq<byte>
    requires n < TWO_63
  {
    match form
    case Fixed => []
    case ShortLength => Put(o, 2, n % 0x1_0000)
    case Sized => EncSize(o, n)
  }

  function Enc(o: ByteOrder, v: PV): seq<byte>
    requires Holdable(v)
  {
    match v
    case Basic(e) => EncElem(o, e)
    case Bounded(s, _) => EncText(o, s)
    case Array(form, _, es) => EncLength(o, form, |es|) + EncElems(o, es)
    case Struct(_, fs) => EncFields(o, fs)
  }

  function EncFields(o: ByteOrder, fs: seq<Field>): seq<byte>
    requires AllHoldable(fs)
  {
    if |fs| == 0 then [] else Enc(o, fs[0].value) + EncFields(o, fs[1..])
  }

  // Decoding of leaves

  function DecElem(o: ByteOrder, t: ElemType, input: seq<byte>): (r: Parsed<Elem>)
    ensures r.Ok? ==> TypeOf(r.value) == t && ElemOk(r.value)
  {
    match t
    case NumType(Boolean) =>
      var (b, rest) :- ReadByte(input);
      Widths();
      Ok(Num(Boolean, if b != 0 then 1 else 0), rest)
    case NumType(k) =>
      var (w, rest) :- ReadUint(o, Width(k), input);
      Ok(Num(k, w), rest)
    case CharsType =>
      var (s, rest) :- DecText(o, input);
      Ok(Chars(s), rest)
  }

  function DecElems(o: ByteOrder, t: ElemType, n: nat, input: seq<byte>): (r: Parsed<seq<Elem>>)
    ensures r.Ok? ==> |r.value| == n && ElemsOk(t, r.value)
  {
    if n == 0 then Ok([], input)
    else
      var (e, rest) :- DecElem(o, t, input);
      var (es, rest') :- DecElems(o, t, n - 1, rest);
      Ok([e] + es, rest')
  }

  /** The element count an array decoder expects; a fixed array keeps the count it has. */
  function DecLength(o: ByteOrder, form: ArrayForm, have: nat, input: seq<byte>): (r: Parsed<nat>)
    requires have < TWO_63
    ensures r.Ok? ==> r.value < TWO_63
  {
    match form
    case Fixed => Ok(have, input)
    case ShortLength => Widths(); ReadUint(o, 2, input)
    case Sized =>
      var (n, rest) :- DecSize(o, input);
      if n < 0 then Err(Panic) else Ok(n, rest)
  }

  /** Decoding into a leaf keeps its Go type and replaces its content. */
  function DecLeaf(o: ByteOrder, target: PV, input: seq<byte>): (r: Parsed<PV>)
    requires !target.Struct? && Holdable(target)
    ensures r.Ok? ==> !r.value.Struct? && Holdable(r.value) && SameType(target, r.value)
  {
    match target
    case Basic(e) =>
      var (d, rest) :- DecElem(o, TypeOf(e), input);
      Ok(Basic(d), rest)
    case Bounded(_, bound) =>
      var (s, rest) :- DecText(o, input);
      Ok(Bounded(s, bound), rest)
    case Array(form, t, es) =>
      var (n, rest) :- DecLength(o, form, |es|, input);
      var (ds, rest') :- DecElems(o, t, n, rest);
      Ok(Array(form, t, ds), rest')
  }

  /** The bytes each scalar takes on the wire. */
  lemma ScalarBytes(o: ByteOrder, w: nat)
    ensures EncElem(o, Num(Boolean, w)) == Put(o, 1, w)
    ensures EncElem(o, Num(Byte, w)) == EncElem(o, Num(UByte, w)) == Put(o, 1, w)
    ensures EncElem(o, Num(Short, w)) == EncElem(o, Num(UShort, w)) == Put(o, 2, w)
    ensures EncElem(o, Num(Int, w)) == EncElem(o, Num(UInt, w)) == EncElem(o, Num(Float, w)) == Put(o, 4, w)
    ensures EncElem(o, Num(Long, w)) == EncElem(o, Num(ULong, w)) == EncElem(o, Num(Double, w)) == Put(o, 8, w)
  {
  }

  /** A scalar of kind k is read from the next n bytes, or the stream ends. */
  predicate ReadsScalar(o: ByteOrder, k: Kind, n: nat, input: seq<byte>) {
    DecElem(o, NumType(k), input)
    == if |input| < n then Err(Eof) else Ok(Num(k, UintOf(o, input[..n])), input[n..])
  }

  lemma ScalarRead(o: ByteOrder, input: seq<byte>)
    ensures ReadsScalar(o, Byte, 1, input) && ReadsScalar(o, UByte, 1, input)
    ensures ReadsScalar(o, Short, 2, input) && ReadsScalar(o, UShort, 2, input)
    ensures ReadsScalar(o, Int, 4, input) && ReadsScalar(o, UInt, 4, input) && ReadsScalar(o, Float, 4, input)
    ensures ReadsScalar(o, Long, 8, input) && ReadsScalar(o, ULong, 8, input) && ReadsScalar(o, Double, 8, input)
    ensures DecElem(o, NumType(Boolean), input)
         == if |input| == 0 then Err(Eof) else Ok(Num(Boolean, if input[0] == 0 then 0 else 1), input[1..])
  {
    hide UintOf, Pow256, DecText, ReadUint;
    UintRead(o, 1, input);
    UintRead(o, 2, input);
    UintRead(o, 4, input);
    UintRead(o, 8, input);
  }

  lemma UintRead(o: ByteOrder, n: nat, input: seq<byte>)
    ensures ReadUint(o, n, input) == if |input| < n then Err(Eof) else Ok(UintOf(o, input[..n]), input[n..])
  {
  }

  lemma ElemRoundTrip(o: ByteOrder, e: Elem, rest: seq<byte>)
    requires ElemOk(e)
    ensures DecElem(o, TypeOf(e), EncElem(o, e) + rest) == Ok(e, rest)
  {
    match e
    case Num(k, bits) =>
      ReadWritten(o, Width(k), bits, rest);
      if k == Boolean {
        Widths();
        assert Put(o, 1, bits) == [bits] by {
          assert Little(1, bits) == [bits % 256] + Little(0, bits / 256);
          assert Reversed([bits % 256]) == Reversed([]) + [bits % 256];
        }
        assert ([bits] + rest)[1..] == rest;
      }
    case Chars(s) => TextRoundTrip(o, s, rest);
  }

  lemma {:induction false} ElemsRoundTrip(o: ByteOrder, t: ElemType, es: seq<Elem>, rest: seq<byte>)
    requires ElemsOk(t, es)
    ensures DecElems(o, t, |es|, EncElems(o, es) + rest) == Ok(es, rest)
  {
    hide DecElem, EncElem, ElemOk, TypeOf;
    if |es| == 0 {
      Nil(rest);
    } else {
      Assoc(EncElem(o, es[0]), EncElems(o, es[1..]), rest);
      ElemRoundTrip(o, es[0], EncElems(o, es[1..]) + rest);
      ElemsRoundTrip(o, t, es[1..], rest);
      Uncons(es);
    }
  }

  lemma LengthRoundTrip(o: ByteOrder, form: ArrayForm, have: nat, n: nat, rest: seq<byte>)
    requires have < TWO_63 && n < TWO_63 && (form == Fixed ==> have == n)
    ensures DecLength(o, form, have, EncLength(o, form, n) + rest)
         == Ok(if form == ShortLength then n % 0x1_0000 else n, rest)
  {
    match form
    case Fixed => assert [] + rest == rest;
    case ShortLength => Widths(); ReadWritten(o, 2, n % 0x1_0000, rest);
    case Sized => SizeRoundTrip(o, n, rest);
  }

  function WireCount(v: PV): nat
    requires v.Array?
  {
    if v.form == ShortLength then |v.elems| % 0x1_0000 else |v.elems|
  }

  /** An array decoder on an array's encoding: the count it expects, then that many elements. */
  lemma ArrayRead(o: ByteOrder, target: PV, v: PV, rest: seq<byte>)
    requires target.Array? && v.Array? && Holdable(target) && Holdable(v) && SameType(target, v)
    ensures DecLeaf(o, target, Enc(o, v) + rest)
         == match DecElems(o, v.elemType, WireCount(v), EncElems(o, v.elems) + rest)
            case Ok(es, rest') => Ok(v.(elems := es), rest')
            case Err(fault) => Err(fault)
  {
    hide DecElems, EncElems, DecLength, EncLength;
    var body := EncElems(o, v.elems) + rest;
    assert Enc(o, v) + rest == EncLength(o, v.form, |v.elems|) + body;
    LengthRoundTrip(o, v.form, |target.elems|, |v.elems|, body);
  }

  lemma ArrayRoundTrip(o: ByteOrder, target: PV, v: PV, rest: seq<byte>)
    requires target.Array? && v.Array?
    requires Holdable(target) && Holdable(v) && ShortEnough(v) && SameType(target, v)
    ensures DecLeaf(o, target, Enc(o, v) + rest) == Ok(v, rest)
  {
    assert WireCount(v) == |v.elems|;
    ElemsRoundTrip(o, v.elemType, v.elems, rest);
    ArrayRead(o, target, v, rest);
    assert v.(elems := v.elems) == v;
  }

  lemma LeafRoundTrip(o: ByteOrder, target: PV, v: PV, rest: seq<byte>)
    requires !v.Struct? && Holdable(target) && Holdable(v) && ShortEnough(v) && SameType(target, v)
    ensures DecLeaf(o, target, Enc(o, v) + rest) == Ok(v, rest)
  {
    match v
    case Basic(e) => ElemRoundTrip(o, e, rest);
    case Bounded(s, _) => TextRoundTrip(o, s, rest);
    case Array(_, _, _) => ArrayRoundTrip(o, target, v, rest);
  }

  /** An array with a 16-bit length comes back exactly when its length fits. */
  lemma ShortArrayExact(o: ByteOrder, v: PV, rest: seq<byte>)
    requires v.Array? && v.form == ShortLength && Holdable(v)
    ensures DecLeaf(o, v, Enc(o, v) + rest) == Ok(v, rest) <==> |v.elems| < 0x1_0000
  {
    if |v.elems| < 0x1_0000 {
      LeafRoundTrip(o, v, v, rest);
    } else {
      ArrayRead(o, v, v, rest);
    }
  }
}
