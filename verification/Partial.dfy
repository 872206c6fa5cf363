/** Decoding into a structure under a changed-bit set, and what it means without recursion or mutable indexes. */
module Partial {
  import opened Bytes
  import opened BitSet
  import opened Values

  /** The part of the decoder state that selects fields. */
  datatype Changes = Changes(use: bool, bits: seq<bool>)

  /** PVDecode of a value: a structure consults its own bit, at index i, and leaves the index on its last node. */
  function Walk(o: ByteOrder, ch: Changes, i: nat, v: PV, input: seq<byte>): (r: Parsed<(PV, nat)>)
    requires Holdable(v)
    ensures r.Ok? ==> Holdable(r.value.0) && SameType(v, r.value.0)
    decreases v, 0
  {
    match v
    case Struct(id, fs) =>
      var (moved, rest) :- WalkFields(o, ch, !ch.use || Get(ch.bits, i), i, fs, input);
      Ok((Struct(id, moved.0), moved.1), rest)
    case _ =>
      var (w, rest) :- DecLeaf(o, v, input);
      Ok((w, i), rest)
  }

  /** The loop of PVStructure.PVDecode over the remaining fields, the index standing on the node before them. */
  function WalkFields(o: ByteOrder, ch: Changes, full: bool, i: nat, fs: seq<Field>, input: seq<byte>):
    (r: Parsed<(seq<Field>, nat)>)
    requires AllHoldable(fs)
    ensures r.Ok? ==> AllHoldable(r.value.0) && SameTypes(fs, r.value.0)
    decreases fs
  {
    if |fs| == 0 then Ok((fs, i), input)
    else
      var f := fs[0];
      var (here, rest) :- WalkField(o, ch, full, if ch.use then i + 1 else i, f.value, input);
      var (tail, rest') :- WalkFields(o, ch, full, here.1, fs[1..], rest);
      Ok(([Field(f.name, here.0)] + tail.0, tail.1), rest')
  }

  /** One field, at index j: decoded if its structure is read in full, if it is a structure, or if its bit is set. */
  function WalkField(o: ByteOrder, ch: Changes, full: bool, j: nat, v: PV, input: seq<byte>): (r: Parsed<(PV, nat)>)
    requires Holdable(v)
    ensures r.Ok? ==> Holdable(r.value.0) && SameType(v, r.value.0)
    decreases v, 1
  {
    if full || v.Struct? || Get(ch.bits, j) then Walk(o, ch, j, v, input)
    else SameTypeReflexive(v); Ok((v, j), input)
  }

  lemma {:induction false} SameTypeReflexive(v: PV)
    ensures SameType(v, v)
    decreases v
  {
    if v.Struct? {
      SameTypesReflexive(v.fields);
    }
  }

  lemma {:induction false} SameTypesReflexive(fs: seq<Field>)
    ensures SameTypes(fs, fs)
    decreases fs
  {
    if |fs| > 0 {
      SameTypeReflexive(fs[0].value);
      SameTypesReflexive(fs[1..]);
    }
  }

  // The simple form: a flat list of leaves, each with two fixed bit numbers.

  /** A leaf with its own preorder number and that of the structure it is a field of. */
  datatype Slot = Slot(own: nat, parent: nat, leaf: PV)

  function Slots(v: PV, i: nat): seq<Slot>
    decreases v, 0
  {
    match v
    case Struct(_, fs) => FieldSlots(fs, i, i + 1)
    case _ => []
  }

  function FieldSlots(fs: seq<Field>, parent: nat, i: nat): seq<Slot>
    decreases fs
  {
    if |fs| == 0 then []
    else
      FieldSlot(fs[0].value, parent, i) + FieldSlots(fs[1..], parent, i + 1 + Nodes(fs[0].value))
  }

  function FieldSlot(v: PV, parent: nat, i: nat): seq<Slot>
    decreases v, 1
  {
    if v.Struct? then Slots(v, i) else [Slot(i, parent, v)]
  }

  /** Slots with strictly increasing numbers from lo to below hi, each behind parent or a structure among them. */
  predicate Numbered(slots: seq<Slot>, parent: nat, lo: nat, hi: nat) {
    && (forall k :: 0 <= k < |slots| ==>
      lo <= slots[k].own < hi && (slots[k].parent == parent || lo <= slots[k].parent < slots[k].own))
    && forall j, k :: 0 <= j < k < |slots| ==> slots[j].own < slots[k].own
  }

  lemma NumberedConcat(a: seq<Slot>, b: seq<Slot>, p: nat, parent: nat, lo: nat, mid: nat, hi: nat)
    requires Numbered(a, p, lo + 1, mid) && Numbered(b, parent, mid, hi) && lo < mid <= hi && p in {parent, lo}
    ensures Numbered(a + b, parent, lo, hi)
  {
  }

  /** The leaves below a structure numbered i have strictly increasing numbers, those of the nodes below it. */
  lemma {:induction false} SlotsNumbered(v: PV, i: nat)
    requires v.Struct?
    ensures Numbered(Slots(v, i), i, i + 1, i + 1 + Nodes(v))
    decreases v
  {
    FieldSlotsNumbered(v.fields, i, i + 1);
  }

  lemma {:induction false} FieldSlotsNumbered(fs: seq<Field>, parent: nat, i: nat)
    requires parent < i
    ensures Numbered(FieldSlots(fs, parent, i), parent, i, i + FieldNodes(fs))
    decreases fs
  {
    if |fs| > 0 {
      var v := fs[0].value;
      var next := i + 1 + Nodes(v);
      var head, tail := FieldSlot(v, parent, i), FieldSlots(fs[1..], parent, next);
      FieldSlotsNumbered(fs[1..], parent, next);
      hide Numbered;
      if v.Struct? {
        SlotsNumbered(v, i);
        NumberedConcat(head, tail, i, parent, i, next, i + FieldNodes(fs));
      } else {
        LeafNumbered(v, tail, parent, i, i + FieldNodes(fs));
      }
    }
  }

  lemma LeafNumbered(v: PV, tail: seq<Slot>, parent: nat, i: nat, hi: nat)
    requires Numbered(tail, parent, i + 1, hi) && i < hi
    ensures Numbered([Slot(i, parent, v)] + tail, parent, i, hi)
  {
  }

  predicate Chosen(bits: seq<bool>, s: Slot) {
    Get(bits, s.own) || Get(bits, s.parent)
  }

  predicate LeafSlots(slots: seq<Slot>) {
    forall k :: 0 <= k < |slots| ==> !slots[k].leaf.Struct? && Holdable(slots[k].leaf)
  }

  /** Decode the chosen leaves one after the other; keep the others. */
  function Flat(o: ByteOrder, bits: seq<bool>, slots: seq<Slot>, input: seq<byte>): (r: Parsed<seq<PV>>)
    requires LeafSlots(slots)
    ensures r.Ok? ==> |r.value| == |slots|
  {
    if |slots| == 0 then Ok([], input)
    else if Chosen(bits, slots[0]) then
      var (leaf, rest) :- DecLeaf(o, slots[0].leaf, input);
      var (leaves, rest') :- Flat(o, bits, slots[1..], rest);
      Ok([leaf] + leaves, rest')
    else
      var (leaves, rest) :- Flat(o, bits, slots[1..], input);
      Ok([slots[0].leaf] + leaves, rest)
  }

  function Leaves(v: PV): seq<PV>
    decreases v
  {
    match v
    case Struct(_, fs) => FieldLeaves(fs)
    case _ => [v]
  }

  function FieldLeaves(fs: seq<Field>): seq<PV>
    decreases fs
  {
    if |fs| == 0 then [] else Leaves(fs[0].value) + FieldLeaves(fs[1..])
  }

  lemma {:induction false} FlatConcat(o: ByteOrder, bits: seq<bool>, a: seq<Slot>, b: seq<Slot>, input: seq<byte>)
    requires LeafSlots(a) && LeafSlots(b)
    ensures Flat(o, bits, a + b, input)
         == match Flat(o, bits, a, input)
            case Err(fault) => Err(fault)
            case Ok(xs, rest) =>
              match Flat(o, bits, b, rest)
              case Err(fault) => Err(fault)
              case Ok(ys, rest') => Ok(xs + ys, rest')
  {
    if |a| == 0 {
      assert a + b == b;
      assert forall ys: seq<PV> :: [] + ys == ys;
    } else {
      assert (a + b)[1..] == a[1..] + b;
      if Chosen(bits, a[0]) {
        var head := DecLeaf(o, a[0].leaf, input);
        if head.Ok? {
          FlatConcat(o, bits, a[1..], b, head.rest);
        }
      } else {
        FlatConcat(o, bits, a[1..], b, input);
      }
      assert forall x: PV, xs, ys: seq<PV> :: [x] + (xs + ys) == [x] + xs + ys;
    }
  }

  lemma {:induction false} SlotsAreLeaves(v: PV, i: nat)
    requires Holdable(v)
    ensures LeafSlots(Slots(v, i))
    decreases v
  {
    if v.Struct? {
      FieldSlotsAreLeaves(v.fields, i, i + 1);
    }
  }

  lemma {:induction false} FieldSlotsAreLeaves(fs: seq<Field>, parent: nat, i: nat)
    requires AllHoldable(fs)
    ensures LeafSlots(FieldSlots(fs, parent, i))
    decreases fs
  {
    if |fs| > 0 {
      SlotsAreLeaves(fs[0].value, i);
      FieldSlotsAreLeaves(fs[1..], parent, i + 1 + Nodes(fs[0].value));
    }
  }

  /** The walk agrees with the flat reading of the same slots. */
  predicate Agrees(walked: Parsed<(PV, nat)>, flat: Parsed<seq<PV>>, end: nat) {
    match walked
    case Ok(moved, rest) => flat == Ok(Leaves(moved.0), rest) && moved.1 == end
    case Err(fault) => flat == Err(fault)
  }

  predicate FieldsAgree(walked: Parsed<(seq<Field>, nat)>, flat: Parsed<seq<PV>>, end: nat) {
    match walked
    case Ok(moved, rest) => flat == Ok(FieldLeaves(moved.0), rest) && moved.1 == end
    case Err(fault) => flat == Err(fault)
  }

  /**
   * For every structure, bit set and input, well-formed or not: the stateful recursive walk reads and overwrites
   * exactly the leaves whose own bit or whose structure's bit is set, in preorder, keeps all others, fails where the
   * flat reading fails, and advances the index by the number of nodes whichever bits are set.
   */
  lemma {:induction false} WalkIsFlat(o: ByteOrder, bits: seq<bool>, i: nat, v: PV, input: seq<byte>)
    requires v.Struct? && Holdable(v)
    ensures LeafSlots(Slots(v, i))
    ensures Agrees(Walk(o, Changes(true, bits), i, v, input), Flat(o, bits, Slots(v, i), input), i + Nodes(v))
    decreases v, 1
  {
    SlotsAreLeaves(v, i);
    WalkFieldsIsFlat(o, bits, i, i, v.fields, input);
  }

  lemma {:induction false} WalkFieldsIsFlat(
      o: ByteOrder, bits: seq<bool>, parent: nat, i: nat, fs: seq<Field>, input: seq<byte>)
    requires AllHoldable(fs)
    ensures LeafSlots(FieldSlots(fs, parent, i + 1))
    ensures FieldsAgree(WalkFields(o, Changes(true, bits), Get(bits, parent), i, fs, input),
                        Flat(o, bits, FieldSlots(fs, parent, i + 1), input), i + FieldNodes(fs))
    decreases fs, 0
  {
    hide Flat, LeafSlots, Walk, WalkField, WalkFields, Slots, FieldSlot, FieldSlots, Leaves, FieldLeaves, SameType,
         Holdable, Nodes;
    FieldSlotsAreLeaves(fs, parent, i + 1);
    WalkFieldsStep(o, bits, Get(bits, parent), parent, i, fs, input);
    if |fs| > 0 {
      var f := fs[0].value;
      var head := FieldSlot(f, parent, i + 1);
      var tail := FieldSlots(fs[1..], parent, i + 2 + Nodes(f));
      FieldSlotsAreLeaves(fs[1..], parent, i + 2 + Nodes(f));
      WalkFieldIsFlat(o, bits, parent, i + 1, f, input);
      FlatConcat(o, bits, head, tail, input);
      var here := WalkField(o, Changes(true, bits), Get(bits, parent), i + 1, f, input);
      if here.Ok? {
        var j := i + 1 + Nodes(f);
        WalkFieldsIsFlat(o, bits, parent, j, fs[1..], here.rest);
        var more := WalkFields(o, Changes(true, bits), Get(bits, parent), j, fs[1..], here.rest);
        if more.Ok? {
          FieldLeavesCons(Field(fs[0].name, here.value.0), more.value.0);
        }
      }
    }
  }

  /** The definitions at play, one step unfolded. */
  lemma WalkFieldsStep(
      o: ByteOrder, bits: seq<bool>, full: bool, parent: nat, i: nat, fs: seq<Field>, input: seq<byte>)
    requires AllHoldable(fs)
    ensures var ch := Changes(true, bits);
      if |fs| == 0 then
        && FieldSlots(fs, parent, i + 1) == [] && FieldNodes(fs) == 0
        && WalkFields(o, ch, full, i, fs, input) == Ok((fs, i), input)
        && Flat(o, bits, [], input) == Ok(FieldLeaves(fs), input)
      else
        && FieldSlots(fs, parent, i + 1)
        == FieldSlot(fs[0].value, parent, i + 1) + FieldSlots(fs[1..], parent, i + 2 + Nodes(fs[0].value))
        && WalkFields(o, ch, full, i, fs, input)
        == match WalkField(o, ch, full, i + 1, fs[0].value, input)
           case Err(fault) => Err(fault)
           case Ok(here, rest) =>
             match WalkFields(o, ch, full, here.1, fs[1..], rest)
             case Err(fault) => Err(fault)
             case Ok(tail, rest') => Ok(([Field(fs[0].name, here.0)] + tail.0, tail.1), rest')
  {
    hide WalkField, FieldSlot;
  }

  lemma FieldLeavesCons(f: Field, fs: seq<Field>)
    ensures FieldLeaves([f] + fs) == Leaves(f.value) + FieldLeaves(fs)
  {
  }

  lemma FlatOne(o: ByteOrder, bits: seq<bool>, s: Slot, input: seq<byte>)
    requires !s.leaf.Struct? && Holdable(s.leaf)
    ensures Flat(o, bits, [s], input)
         == if !Chosen(bits, s) then Ok([s.leaf], input)
            else match DecLeaf(o, s.leaf, input)
                 case Ok(leaf, rest) => Ok([leaf], rest)
                 case Err(fault) => Err(fault)
  {
    assert [s][1..] == [];
    assert forall x: PV :: [x] + [] == [x];
  }

  lemma {:induction false} WalkFieldIsFlat(
      o: ByteOrder, bits: seq<bool>, parent: nat, j: nat, v: PV, input: seq<byte>)
    requires Holdable(v)
    ensures LeafSlots(FieldSlot(v, parent, j))
    ensures Agrees(WalkField(o, Changes(true, bits), Get(bits, parent), j, v, input),
                   Flat(o, bits, FieldSlot(v, parent, j), input), j + Nodes(v))
    decreases v, 2
  {
    if v.Struct? {
      WalkIsFlat(o, bits, j, v, input);
    } else {
      FlatOne(o, bits, Slot(j, parent, v), input);
    }
  }

  // What the flat form says about a decoded structure

  /** Only chosen leaves change, and none changes its type. */
  lemma {:induction false} FlatKeeps(o: ByteOrder, bits: seq<bool>, slots: seq<Slot>, input: seq<byte>)
    requires LeafSlots(slots)
    ensures var r := Flat(o, bits, slots, input);
      r.Ok? ==> forall k :: 0 <= k < |slots| ==>
        && SameType(slots[k].leaf, r.value[k])
        && (!Get(bits, slots[k].own) && !Get(bits, slots[k].parent) ==> r.value[k] == slots[k].leaf)
  {
    hide DecLeaf, SameType, Holdable;
    if |slots| > 0 {
      SameTypeReflexive(slots[0].leaf);
      if Chosen(bits, slots[0]) {
        var head := DecLeaf(o, slots[0].leaf, input);
        if head.Ok? {
          FlatKeeps(o, bits, slots[1..], head.rest);
        }
      } else {
        FlatKeeps(o, bits, slots[1..], input);
      }
    }
  }

  /** news could replace the leaves of the slots. */
  predicate Replacements(slots: seq<Slot>, news: seq<PV>) {
    && LeafSlots(slots) && |slots| == |news|
    && forall k :: 0 <= k < |slots| ==>
      !news[k].Struct? && Holdable(news[k]) && ShortEnough(news[k]) && SameType(slots[k].leaf, news[k])
  }

  /** The encodings of the chosen leaves, in preorder. */
  function ChosenBytes(o: ByteOrder, bits: seq<bool>, slots: seq<Slot>, news: seq<PV>): seq<byte>
    requires Replacements(slots, news)
  {
    if |slots| == 0 then []
    else (if Chosen(bits, slots[0]) then Enc(o, news[0]) else []) + ChosenBytes(o, bits, slots[1..], news[1..])
  }

  /** New leaves where chosen, old ones elsewhere. */
  function Merged(bits: seq<bool>, slots: seq<Slot>, news: seq<PV>): (m: seq<PV>)
    requires |slots| == |news|
    ensures |m| == |slots|
  {
    if |slots| == 0 then []
    else [if Chosen(bits, slots[0]) then news[0] else slots[0].leaf] + Merged(bits, slots[1..], news[1..])
  }

  lemma {:induction false} MergedAt(bits: seq<bool>, slots: seq<Slot>, news: seq<PV>, k: nat)
    requires k < |slots| == |news|
    ensures Merged(bits, slots, news)[k]
         == if Get(bits, slots[k].own) || Get(bits, slots[k].parent) then news[k] else slots[k].leaf
  {
    if k > 0 {
      MergedAt(bits, slots[1..], news[1..], k - 1);
    }
  }

  /** The flat reading consumes exactly the encodings of the chosen leaves. */
  lemma {:induction false} FlatReads(
      o: ByteOrder, bits: seq<bool>, slots: seq<Slot>, news: seq<PV>, rest: seq<byte>)
    requires Replacements(slots, news)
    ensures Flat(o, bits, slots, ChosenBytes(o, bits, slots, news) + rest) == Ok(Merged(bits, slots, news), rest)
  {
    hide DecLeaf, Enc, Holdable, SameType, ShortEnough;
    if |slots| == 0 {
      Nil(rest);
    } else {
      var more := ChosenBytes(o, bits, slots[1..], news[1..]) + rest;
      FlatReads(o, bits, slots[1..], news[1..], rest);
      if Chosen(bits, slots[0]) {
        Assoc(Enc(o, news[0]), ChosenBytes(o, bits, slots[1..], news[1..]), rest);
        LeafRoundTrip(o, slots[0].leaf, news[0], more);
      } else {
        Nil(ChosenBytes(o, bits, slots[1..], news[1..]));
      }
    }
  }

  lemma {:induction false} SlotsCount(v: PV, w: PV, i: nat)
    requires SameType(v, w) && Holdable(v) && Holdable(w) && ShortEnough(w)
    ensures v.Struct? ==> Replacements(Slots(v, i), Leaves(w))
    ensures !v.Struct? ==> Leaves(w) == [w]
    decreases v
  {
    if v.Struct? {
      FieldSlotsCount(v.fields, w.fields, i, i + 1);
    }
  }

  lemma {:induction false} FieldSlotsCount(fs: seq<Field>, gs: seq<Field>, parent: nat, i: nat)
    requires SameTypes(fs, gs) && AllHoldable(fs) && AllHoldable(gs) && AllShortEnough(gs)
    ensures Replacements(FieldSlots(fs, parent, i), FieldLeaves(gs))
    decreases fs
  {
    if |fs| > 0 {
      SlotsCount(fs[0].value, gs[0].value, i);
      FieldSlotsCount(fs[1..], gs[1..], parent, i + 1 + Nodes(fs[0].value));
      assert Replacements(FieldSlot(fs[0].value, parent, i), Leaves(gs[0].value));
    }
  }

  /** Type and leaves determine a value, so the two lemmas above determine the decoded structure. */
  lemma {:induction false} LeavesDetermine(v: PV, w: PV)
    requires SameType(v, w) && Leaves(v) == Leaves(w)
    ensures v == w
    decreases v
  {
    if v.Struct? {
      FieldLeavesDetermine(v.fields, w.fields);
    } else {
      assert Leaves(v)[0] == v && Leaves(w)[0] == w;
    }
  }

  lemma {:induction false} FieldLeavesDetermine(fs: seq<Field>, gs: seq<Field>)
    requires SameTypes(fs, gs) && FieldLeaves(fs) == FieldLeaves(gs)
    ensures fs == gs
    decreases fs
  {
    if |fs| > 0 {
      var n := |Leaves(fs[0].value)|;
      LeafCount(fs[0].value, gs[0].value);
      assert Leaves(fs[0].value) == FieldLeaves(fs)[..n] == FieldLeaves(gs)[..n] == Leaves(gs[0].value);
      assert FieldLeaves(fs[1..]) == FieldLeaves(fs)[n..] == FieldLeaves(gs)[n..] == FieldLeaves(gs[1..]);
      LeavesDetermine(fs[0].value, gs[0].value);
      FieldLeavesDetermine(fs[1..], gs[1..]);
      assert fs == [fs[0]] + fs[1..] && gs == [gs[0]] + gs[1..];
    }
  }

  lemma {:induction false} LeafCount(v: PV, w: PV)
    requires SameType(v, w)
    ensures |Leaves(v)| == |Leaves(w)|
    decreases v
  {
    if v.Struct? {
      FieldLeafCount(v.fields, w.fields);
    }
  }

  lemma {:induction false} FieldLeafCount(fs: seq<Field>, gs: seq<Field>)
    requires SameTypes(fs, gs)
    ensures |FieldLeaves(fs)| == |FieldLeaves(gs)|
    decreases fs
  {
    if |fs| > 0 {
      LeafCount(fs[0].value, gs[0].value);
      FieldLeafCount(fs[1..], gs[1..]);
    }
  }

  /** A value can be encoded exactly when every bounded string in it is no longer than its bound. */
  lemma {:induction false} EncodableLeaves(v: PV)
    ensures Encodable(v) <==> forall leaf :: leaf in Leaves(v) && leaf.Bounded? ==> |leaf.chars| <= leaf.bound
    decreases v
  {
    if v.Struct? {
      EncodableFieldLeaves(v.fields);
    } else {
      assert Leaves(v)[0] == v;
    }
  }

  lemma {:induction false} EncodableFieldLeaves(fs: seq<Field>)
    ensures AllEncodable(fs)
       <==> forall leaf :: leaf in FieldLeaves(fs) && leaf.Bounded? ==> |leaf.chars| <= leaf.bound
    decreases fs
  {
    if |fs| > 0 {
      EncodableLeaves(fs[0].value);
      EncodableFieldLeaves(fs[1..]);
      assert forall leaf :: leaf in FieldLeaves(fs) <==> leaf in Leaves(fs[0].value) || leaf in FieldLeaves(fs[1..]);
    }
  }

  // Full reads

  /** Every node below index i is read: there is no bit set, or it has all their bits. */
  predicate Covers(ch: Changes, i: nat, n: nat) {
    !ch.use || forall k :: i < k <= i + n ==> Get(ch.bits, k)
  }

  function Advanced(ch: Changes, i: nat, n: nat): nat {
    if ch.use then i + n else i
  }

  lemma CoversSplit(ch: Changes, i: nat, m: nat, n: nat)
    requires Covers(ch, i, 1 + m + n)
    ensures var j := if ch.use then i + 1 else i;
      Covers(ch, j, m) && Covers(ch, Advanced(ch, j, m), n) && (ch.use ==> Get(ch.bits, j))
  {
  }

  /** A full read of a value's encoding into any target of its type yields the value. */
  lemma {:induction false} WalkRoundTrip(o: ByteOrder, ch: Changes, i: nat, target: PV, v: PV, rest: seq<byte>)
    requires SameType(target, v) && Holdable(target) && Holdable(v) && ShortEnough(v)
    requires Covers(ch, i, Nodes(v))
    ensures Walk(o, ch, i, target, Enc(o, v) + rest) == Ok((v, Advanced(ch, i, Nodes(v))), rest)
    decreases v, 1
  {
    if v.Struct? {
      WalkFieldsRoundTrip(o, ch, !ch.use || Get(ch.bits, i), i, target.fields, v.fields, rest);
    } else {
      LeafRoundTrip(o, target, v, rest);
    }
  }

  lemma {:induction false} WalkFieldRoundTrip(
      o: ByteOrder, ch: Changes, full: bool, j: nat, target: PV, v: PV, rest: seq<byte>)
    requires SameType(target, v) && Holdable(target) && Holdable(v) && ShortEnough(v)
    requires Covers(ch, j, Nodes(v)) && (if ch.use then Get(ch.bits, j) else full)
    ensures WalkField(o, ch, full, j, target, Enc(o, v) + rest) == Ok((v, Advanced(ch, j, Nodes(v))), rest)
    decreases v, 2
  {
    WalkRoundTrip(o, ch, j, target, v, rest);
  }

  lemma {:induction false} WalkFieldsRoundTrip(
      o: ByteOrder, ch: Changes, full: bool, i: nat, target: seq<Field>, fs: seq<Field>, rest: seq<byte>)
    requires SameTypes(target, fs) && AllHoldable(target) && AllHoldable(fs) && AllShortEnough(fs)
    requires Covers(ch, i, FieldNodes(fs)) && (!ch.use ==> full)
    ensures WalkFields(o, ch, full, i, target, EncFields(o, fs) + rest)
         == Ok((fs, Advanced(ch, i, FieldNodes(fs))), rest)
    decreases fs, 0
  {
    hide Walk, WalkField, Enc, SameType, Holdable, ShortEnough;
    if |fs| == 0 {
      Nil(rest);
    } else {
      var f := fs[0].value;
      var more := EncFields(o, fs[1..]) + rest;
      var j := if ch.use then i + 1 else i;
      Assoc(Enc(o, f), EncFields(o, fs[1..]), rest);
      CoversSplit(ch, i, Nodes(f), FieldNodes(fs[1..]));
      WalkFieldRoundTrip(o, ch, full, j, target[0].value, f, more);
      WalkFieldsRoundTrip(o, ch, full, Advanced(ch, j, Nodes(f)), target[1..], fs[1..], rest);
      Uncons(fs);
    }
  }

  // PVStructureDiff

  /** The bit set PVStructureDiff sends for v: false for the structure itself, true for every node below it. */
  function DiffBits(v: PV): seq<bool> {
    [false] + Trues(Nodes(v))
  }

  /** PVStructureDiff.PVEncode. */
  function EncDiff(o: ByteOrder, v: PV): seq<byte>
    requires Holdable(v) && Nodes(v) + 1 < TWO_63
  {
    EncBitSet(o, DiffBits(v)) + Enc(o, v)
  }

  /** PVStructureDiff.PVDecode into target: the decoded value and the received bit set. */
  function DecDiff(o: ByteOrder, target: PV, input: seq<byte>): Parsed<(PV, seq<bool>)>
    requires Holdable(target)
  {
    var (bits, rest) :- DecBitSet(o, input);
    var (moved, rest') :- Walk(o, Changes(true, bits), 0, target, rest);
    Ok((moved.0, bits), rest')
  }

  /** Decoding a sent difference into any value of its type yields the sent value and leaves trailing bytes alone. */
  lemma DiffRoundTrip(o: ByteOrder, target: PV, v: PV, rest: seq<byte>)
    requires SameType(target, v) && Holdable(target) && Holdable(v) && ShortEnough(v) && Nodes(v) + 1 < TWO_63
    ensures DecDiff(o, target, EncDiff(o, v) + rest) == Ok((v, Trim(DiffBits(v))), rest)
  {
    var bits := DiffBits(v);
    assert EncDiff(o, v) + rest == EncBitSet(o, bits) + (Enc(o, v) + rest);
    BitSetRoundTrip(o, bits, Enc(o, v) + rest);
    forall k | 0 < k <= Nodes(v)
      ensures Get(Trim(bits), k)
    {
      TrimGet(bits, k);
    }
    WalkRoundTrip(o, Changes(true, Trim(bits)), 0, target, v, rest);
  }

  /** Trailing falses choose nothing. */
  lemma {:induction false} FlatTrim(o: ByteOrder, bits: seq<bool>, slots: seq<Slot>, input: seq<byte>)
    requires LeafSlots(slots)
    ensures Flat(o, Trim(bits), slots, input) == Flat(o, bits, slots, input)
  {
    hide DecLeaf, Trim, Holdable;
    if |slots| > 0 {
      TrimGet(bits, slots[0].own);
      TrimGet(bits, slots[0].parent);
      if Chosen(bits, slots[0]) {
        var head := DecLeaf(o, slots[0].leaf, input);
        if head.Ok? {
          FlatTrim(o, bits, slots[1..], head.rest);
        }
      } else {
        FlatTrim(o, bits, slots[1..], input);
      }
    }
  }

  /** Two values of the type of a third are of each other's. */
  lemma {:induction false} SameTypeShared(u: PV, v: PV, w: PV)
    requires SameType(u, v) && SameType(u, w)
    ensures SameType(v, w)
    decreases u
  {
    if u.Struct? {
      SameTypesShared(u.fields, v.fields, w.fields);
    }
  }

  lemma {:induction false} SameTypesShared(us: seq<Field>, vs: seq<Field>, ws: seq<Field>)
    requires SameTypes(us, vs) && SameTypes(us, ws)
    ensures SameTypes(vs, ws)
    decreases us
  {
    if |us| > 0 {
      SameTypeShared(us[0].value, vs[0].value, ws[0].value);
      SameTypesShared(us[1..], vs[1..], ws[1..]);
    }
  }

  /** u is v with the chosen leaves of w in place of its own. */
  predicate Patched(bits: seq<bool>, v: PV, w: PV, u: PV)
    requires |Slots(v, 0)| == |Leaves(w)|
  {
    SameType(v, u) && Leaves(u) == Merged(bits, Slots(v, 0), Leaves(w))
  }

  /**
   * A sender that writes any bit set and then only the leaves of w it chooses: the receiver's structure v becomes v
   * with those leaves replaced, the only such value, and nothing after them is touched.
   */
  lemma PartialUpdate(o: ByteOrder, bits: seq<bool>, v: PV, w: PV, rest: seq<byte>) returns (u: PV)
    requires v.Struct? && SameType(v, w) && Holdable(v) && Holdable(w) && ShortEnough(w) && |bits| < TWO_63
    ensures Replacements(Slots(v, 0), Leaves(w))
    ensures Patched(bits, v, w, u) && forall x :: Patched(bits, v, w, x) ==> x == u
    ensures DecDiff(o, v, EncBitSet(o, bits) + (ChosenBytes(o, bits, Slots(v, 0), Leaves(w)) + rest))
         == Ok((u, Trim(bits)), rest)
  {
    hide Walk, Flat, Merged, Slots, Leaves, SameType, EncBitSet, DecBitSet, ChosenBytes, Replacements, LeafSlots, Trim;
    SlotsCount(v, w, 0);
    SlotsAreLeaves(v, 0);
    var input := ChosenBytes(o, bits, Slots(v, 0), Leaves(w)) + rest;
    BitSetRoundTrip(o, bits, input);
    FlatReads(o, bits, Slots(v, 0), Leaves(w), rest);
    FlatTrim(o, bits, Slots(v, 0), input);
    WalkIsFlat(o, Trim(bits), 0, v, input);
    u := Walk(o, Changes(true, Trim(bits)), 0, v, input).value.0;
    forall x | Patched(bits, v, w, x) ensures x == u {
      SameTypeShared(v, x, u);
      LeavesDetermine(x, u);
    }
  }
}
