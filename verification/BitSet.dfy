/** PVBitSet on the wire, as a layout: naive packing, then byte order applied to each full group of eight bytes. */
module BitSet {
  import opened Bytes
  import opened Sizes

  function Pow2(n: nat): (p: nat)
    ensures p > 0
  {
    if n == 0 then 1 else 2 * Pow2(n - 1)
  }

  function Falses(n: nat): (bits: seq<bool>)
    ensures |bits| == n && forall k :: 0 <= k < n ==> !bits[k]
  {
    seq(n, _ => false)
  }

  function Trues(n: nat): (bits: seq<bool>)
    ensures |bits| == n && forall k :: 0 <= k < n ==> bits[k]
  {
    seq(n, _ => true)
  }

  /** PVBitSet.Get at a non-negative index. */
  predicate Get(bits: seq<bool>, k: nat) {
    k < |bits| && bits[k]
  }

  /** Bits as a number, the first bit least significant. */
  function BitsValue(bits: seq<bool>): nat {
    if |bits| == 0 then 0 else (if bits[0] then 1 else 0) + 2 * BitsValue(bits[1..])
  }

  /** The n low bits of w, least significant first. */
  function ToBits(n: nat, w: nat): (bits: seq<bool>)
    ensures |bits| == n
  {
    if n == 0 then [] else [w % 2 == 1] + ToBits(n - 1, w / 2)
  }

  lemma {:induction false} BitsValueBound(bits: seq<bool>)
    ensures BitsValue(bits) < Pow2(|bits|)
  {
    if |bits| > 0 {
      BitsValueBound(bits[1..]);
    }
  }

  lemma {:induction false} BitsValueSnoc(bits: seq<bool>, b: bool)
    ensures BitsValue(bits + [b]) == BitsValue(bits) + (if b then Pow2(|bits|) else 0)
  {
    if |bits| == 0 {
      assert bits + [b] == [b];
    } else {
      assert (bits + [b])[1..] == bits[1..] + [b];
      BitsValueSnoc(bits[1..], b);
    }
  }

  /** v shifted left by n bits. */
  function Shifted(n: nat, v: nat): nat {
    if n == 0 then v else 2 * Shifted(n - 1, v)
  }

  lemma ShiftedByte(v: nat)
    ensures Shifted(8, v) == 256 * v
  {
    assert Shifted(4, v) == 2 * Shifted(3, v) == 4 * Shifted(2, v) == 8 * Shifted(1, v) == 16 * v;
    assert Shifted(8, v) == 2 * Shifted(7, v) == 4 * Shifted(6, v) == 8 * Shifted(5, v);
  }

  lemma {:induction false} BitsValueConcat(a: seq<bool>, b: seq<bool>)
    ensures BitsValue(a + b) == BitsValue(a) + Shifted(|a|, BitsValue(b))
  {
    if |a| == 0 {
      assert a + b == b;
    } else {
      assert (a + b)[1..] == a[1..] + b;
      BitsValueConcat(a[1..], b);
    }
  }

  lemma ToBitsCons(n: nat, b: bool, v: nat)
    requires n > 0
    ensures ToBits(n, (if b then 1 else 0) + 2 * v) == [b] + ToBits(n - 1, v)
  {
  }

  lemma {:induction false} ToBitsZero(n: nat)
    ensures ToBits(n, 0) == Falses(n)
  {
    if n > 0 {
      ToBitsZero(n - 1);
      assert [false] + Falses(n - 1) == Falses(n);
    }
  }

  /** A value below 2^m read as n >= m bits is its own m bits followed by zeros. */
  lemma {:induction false} ToBitsPadded(bits: seq<bool>, n: nat)
    requires |bits| <= n
    ensures ToBits(n, BitsValue(bits)) == bits + Falses(n - |bits|)
  {
    hide ToBits, Falses;
    if |bits| == 0 {
      ToBitsZero(n);
      Nil(Falses(n));
    } else {
      ToBitsPadded(bits[1..], n - 1);
      ToBitsCons(n, bits[0], BitsValue(bits[1..]));
      Uncons(bits);
      Assoc([bits[0]], bits[1..], Falses(n - |bits|));
    }
  }

  lemma ToBitsOfValue(bits: seq<bool>)
    ensures ToBits(|bits|, BitsValue(bits)) == bits
  {
    ToBitsPadded(bits, |bits|);
    assert Falses(0) == [];
  }

  lemma Pow2Of8()
    ensures Pow2(8) == 256
  {
    assert Pow2(4) == 16;
    assert Pow2(8) == 2 * Pow2(7) == 4 * Pow2(6) == 8 * Pow2(5) == 16 * Pow2(4);
  }

  lemma ByteOfBits(bits: seq<bool>)
    requires |bits| <= 8
    ensures BitsValue(bits) < 256
  {
    Pow2Of8();
    BitsValueBound(bits);
    Pow2Monotone(|bits|, 8);
  }

  lemma {:induction false} Pow2Monotone(m: nat, n: nat)
    requires m <= n
    ensures Pow2(m) <= Pow2(n)
    decreases n
  {
    if m < n {
      Pow2Monotone(m, n - 1);
    }
  }

  /** Eight bits to a byte, the last byte padded with zeros. */
  function Pack(bits: seq<bool>): (p: seq<byte>)
    ensures |p| == (|bits| + 7) / 8
  {
    if |bits| == 0 then []
    else if |bits| <= 8 then [ByteValue(bits)]
    else [ByteValue(bits[..8])] + Pack(bits[8..])
  }

  function ByteValue(bits: seq<bool>): byte
    requires |bits| <= 8
  {
    ByteOfBits(bits);
    BitsValue(bits)
  }

  lemma PackFirst(bits: seq<bool>)
    requires |bits| >= 8
    ensures Pack(bits) == [ByteValue(bits[..8])] + Pack(bits[8..])
  {
    if |bits| == 8 {
      assert bits[..8] == bits && bits[8..] == [];
    }
  }

  function Unpack(p: seq<byte>): (bits: seq<bool>)
    ensures |bits| == 8 * |p|
  {
    if |p| == 0 then [] else ToBits(8, p[0]) + Unpack(p[1..])
  }

  /** Bit m of byte k of the packing is bit 8k+m of the set. */
  lemma {:induction false} PackBit(bits: seq<bool>, k: nat, m: nat)
    requires k < (|bits| + 7) / 8 && m < 8
    ensures ToBits(8, Pack(bits)[k])[m] == Get(bits, 8 * k + m)
  {
    if |bits| <= 8 {
      ToBitsPadded(bits, 8);
    } else if k == 0 {
      ToBitsPadded(bits[..8], 8);
    } else {
      PackBit(bits[8..], k - 1, m);
    }
  }

  lemma UnpackCons(b: byte, p: seq<byte>)
    ensures Unpack([b] + p) == ToBits(8, b) + Unpack(p)
  {
  }

  lemma {:induction false} UnpackPack(bits: seq<bool>)
    ensures Unpack(Pack(bits)) == bits + Falses(8 * |Pack(bits)| - |bits|)
  {
    if |bits| == 0 {
    } else if |bits| <= 8 {
      ByteOfBits(bits);
      ToBitsPadded(bits, 8);
      var p: seq<byte> := [BitsValue(bits)];
      assert Unpack(p) == ToBits(8, p[0]) + Unpack(p[1..]);
      assert Unpack(p[1..]) == [];
    } else {
      var head, tail := bits[..8], bits[8..];
      var pad := Falses(8 * |Pack(tail)| - |tail|);
      ByteOfBits(head);
      ToBitsOfValue(head);
      UnpackPack(tail);
      UnpackCons(BitsValue(head), Pack(tail));
      hide Pack, Unpack, ToBits, BitsValue;
      assert head + (tail + pad) == bits + pad;
    }
  }

  /** Each full group of eight bytes is one 64-bit integer in the byte order; the remaining bytes stand alone. */
  function Grouped(o: ByteOrder, p: seq<byte>): (q: seq<byte>)
    ensures |q| == |p|
  {
    if |p| < 8 then p
    else (if o == BigEndian then Reversed(p[..8]) else p[..8]) + Grouped(o, p[8..])
  }

  lemma {:induction false} GroupedLittle(p: seq<byte>)
    ensures Grouped(LittleEndian, p) == p
  {
    if |p| >= 8 {
      GroupedLittle(p[8..]);
    }
  }

  lemma {:induction false} GroupedTwice(o: ByteOrder, p: seq<byte>)
    ensures Grouped(o, Grouped(o, p)) == p
  {
    if |p| >= 8 {
      GroupedTwice(o, p[8..]);
      ReversedTwice(p[..8]);
      var head := if o == BigEndian then Reversed(p[..8]) else p[..8];
      assert Grouped(o, p)[..8] == head;
      assert Grouped(o, p)[8..] == Grouped(o, p[8..]);
    }
  }

  /** Without trailing falses. */
  function Trim(bits: seq<bool>): (t: seq<bool>)
    ensures |t| <= |bits| && t == bits[..|t|]
    ensures |t| > 0 ==> t[|t| - 1]
    ensures forall k :: |t| <= k < |bits| ==> !bits[k]
  {
    if |bits| > 0 && !bits[|bits| - 1] then Trim(bits[..|bits| - 1]) else bits
  }

  lemma TrimUnique(bits: seq<bool>, n: nat)
    requires n <= |bits|
    requires n > 0 ==> bits[n - 1]
    requires forall k :: n <= k < |bits| ==> !bits[k]
    ensures Trim(bits) == bits[..n]
  {
  }

  lemma TrimPadded(bits: seq<bool>, n: nat)
    ensures Trim(bits + Falses(n)) == Trim(bits)
  {
    var t := Trim(bits);
    var padded := bits + Falses(n);
    assert padded[..|t|] == t;
    TrimUnique(padded, |t|);
  }

  /** Trimming is invisible to Get. */
  lemma TrimGet(bits: seq<bool>, k: nat)
    ensures Get(Trim(bits), k) == Get(bits, k)
  {
  }

  /** PVBitSet.PVEncode. */
  function EncBitSet(o: ByteOrder, bits: seq<bool>): (s: seq<byte>)
    requires |bits| < TWO_63
  {
    EncSize(o, (|bits| + 7) / 8) + Grouped(o, Pack(bits))
  }

  /** PVBitSet.PVDecode; a null size (-1) reads no bytes. */
  function DecBitSet(o: ByteOrder, input: seq<byte>): (r: Parsed<seq<bool>>)
    ensures r.Ok? ==> |r.rest| < |input|
  {
    var (n, rest) :- DecSize(o, input);
    var (bits, rest') :- ReadBits(o, if n < 0 then 0 else n, rest);
    Ok(Trim(bits), rest')
  }

  /** The bits of the next n bytes. */
  function ReadBits(o: ByteOrder, n: nat, input: seq<byte>): (r: Parsed<seq<bool>>)
    ensures r.Ok? ==> |r.rest| <= |input|
  {
    var (raw, rest) :- Take(n, input);
    Ok(Unpack(Grouped(o, raw)), rest)
  }

  lemma TrimUnpackPack(bits: seq<bool>)
    ensures Trim(Unpack(Pack(bits))) == Trim(bits)
  {
    UnpackPack(bits);
    TrimPadded(bits, 8 * |Pack(bits)| - |bits|);
  }

  lemma DecodeRaw(o: ByteOrder, raw: seq<byte>, rest: seq<byte>)
    requires |raw| < TWO_63
    ensures DecBitSet(o, EncSize(o, |raw|) + raw + rest) == Ok(Trim(Unpack(Grouped(o, raw))), rest)
  {
    assert EncSize(o, |raw|) + raw + rest == EncSize(o, |raw|) + (raw + rest);
    SizeRoundTrip(o, |raw|, raw + rest);
    assert (raw + rest)[..|raw|] == raw;
    assert (raw + rest)[|raw|..] == rest;
  }

  /** Every bit set comes back without its trailing falses. */
  lemma BitSetRoundTrip(o: ByteOrder, bits: seq<bool>, rest: seq<byte>)
    requires |bits| < TWO_63
    ensures DecBitSet(o, EncBitSet(o, bits) + rest) == Ok(Trim(bits), rest)
  {
    var p := Pack(bits);
    DecodeRaw(o, Grouped(o, p), rest);
    GroupedTwice(o, p);
    TrimUnpackPack(bits);
  }

  /** Little-endian sets are the naive packing; exactly ceil(n/8) bytes follow the size in either order. */
  lemma BitSetLayout(o: ByteOrder, bits: seq<bool>)
    requires |bits| < TWO_63
    ensures |EncBitSet(o, bits)| == |EncSize(o, (|bits| + 7) / 8)| + (|bits| + 7) / 8
    ensures EncBitSet(LittleEndian, bits) == EncSize(LittleEndian, (|bits| + 7) / 8) + Pack(bits)
  {
    GroupedLittle(Pack(bits));
  }

  /** Where byte j of n packed bytes goes: mirrored inside its group of eight if the group is full and big-endian. */
  function Place(o: ByteOrder, n: nat, j: nat): (q: nat)
    requires j < n
    ensures q < n
  {
    if o == BigEndian && j / 8 * 8 + 8 <= n then j / 8 * 8 + 7 - j % 8 else j
  }

  lemma {:induction false} ReversedAt(s: seq<byte>, k: nat)
    requires k < |s|
    ensures Reversed(s)[|s| - 1 - k] == s[k]
  {
    if k > 0 {
      ReversedAt(s[1..], k - 1);
    }
  }

  lemma {:induction false} GroupedAt(o: ByteOrder, p: seq<byte>, j: nat)
    requires j < |p|
    ensures Grouped(o, p)[Place(o, |p|, j)] == p[j]
  {
    if |p| >= 8 {
      if j < 8 {
        ReversedAt(p[..8], j);
      } else {
        GroupedAt(o, p[8..], j - 8);
        assert Place(o, |p|, j) == 8 + Place(o, |p| - 8, j - 8);
      }
    }
  }

  /** Bit k of a set is bit k%8 of byte k/8, that byte mirrored in its group if the group is full and big-endian. */
  lemma BitPosition(o: ByteOrder, bits: seq<bool>, k: nat)
    requires k < |bits| < TWO_63
    ensures var n := (|bits| + 7) / 8;
      ToBits(8, EncBitSet(o, bits)[|EncSize(o, n)| + Place(o, n, k / 8)])[k % 8] == bits[k]
  {
    hide EncSize, ToBits, Pack, Grouped;
    PackBit(bits, k / 8, k % 8);
    GroupedAt(o, Pack(bits), k / 8);
  }

  lemma PlaceTwice(o: ByteOrder, n: nat, j: nat)
    requires j < n
    ensures Place(o, n, Place(o, n, j)) == j
  {
  }

  function Zeros(n: nat): (z: seq<byte>)
    ensures |z| == n && forall k :: 0 <= k < n ==> z[k] == 0
  {
    seq(n, _ => 0)
  }

  lemma {:induction false} FalsesValue(n: nat)
    ensures BitsValue(Falses(n)) == 0
  {
    if n > 0 {
      FalsesValue(n - 1);
      assert Falses(n)[1..] == Falses(n - 1);
    }
  }

  lemma {:induction false} PackSingle(k: nat)
    ensures Pow2(k % 8) < 256
    ensures Pack(Falses(k) + [true]) == Zeros(k / 8 + 1)[k / 8 := Pow2(k % 8)]
  {
    var bits := Falses(k) + [true];
    if k < 8 {
      FalsesValue(k);
      BitsValueSnoc(Falses(k), true);
      ByteOfBits(bits);
    } else {
      assert bits[..8] == Falses(8);
      assert bits[8..] == Falses(k - 8) + [true];
      FalsesValue(8);
      PackSingle(k - 8);
      PackFirst(bits);
    }
  }

  /** The set of bit k alone: a single byte is not zero, at the place the byte order gives byte k/8. */
  lemma SingleBit(o: ByteOrder, k: nat)
    requires k < TWO_63 - 1
    ensures var n := k / 8 + 1;
      Pow2(k % 8) < 256
      && EncBitSet(o, Falses(k) + [true]) == EncSize(o, n) + Zeros(n)[Place(o, n, k / 8) := Pow2(k % 8)]
  {
    var n, p := k / 8 + 1, Pack(Falses(k) + [true]);
    PackSingle(k);
    var expected := Zeros(n)[Place(o, n, k / 8) := Pow2(k % 8)];
    forall q | 0 <= q < n ensures Grouped(o, p)[q] == expected[q] {
      PlaceTwice(o, n, q);
      PlaceTwice(o, n, k / 8);
      GroupedAt(o, p, Place(o, n, q));
    }
    assert Grouped(o, p) == expected;
  }

  /** A 64-bit integer holding the bits is the packing of those bits, byte by byte. */
  lemma {:induction false} LittlePack(k: nat, bits: seq<bool>)
    requires (|bits| + 7) / 8 == k
    ensures Little(k, BitsValue(bits)) == Pack(bits)
  {
    if |bits| == 0 {
    } else if |bits| <= 8 {
      ByteOfBits(bits);
      assert Little(1, BitsValue(bits)) == [BitsValue(bits)] + Little(0, 0);
    } else {
      var head, tail := bits[..8], bits[8..];
      assert bits == head + tail;
      BitsValueConcat(head, tail);
      ShiftedByte(BitsValue(tail));
      ByteOfBits(head);
      LittlePack(k - 1, tail);
      LittleByte(k, BitsValue(head), BitsValue(tail));
    }
  }

  lemma LittleByte(k: nat, lo: byte, hi: nat)
    requires k > 0
    ensures Little(k, lo + 256 * hi) == [lo] + Little(k - 1, hi)
  {
    assert (lo + 256 * hi) % 256 == lo;
    assert (lo + 256 * hi) / 256 == hi;
  }

  lemma {:induction false} UnpackLittle(p: seq<byte>)
    ensures ToBits(8 * |p|, LittleValue(p)) == Unpack(p)
  {
    if |p| > 0 {
      UnpackLittle(p[1..]);
      Pow2Of8();
      ShiftedByte(LittleValue(p[1..]));
      ToBitsSplit(8, 8 * |p[1..]|, p[0], LittleValue(p[1..]));
    }
  }

  lemma {:induction false} ToBitsSplit(m: nat, n: nat, lo: nat, hi: nat)
    requires lo < Pow2(m)
    ensures ToBits(m + n, lo + Shifted(m, hi)) == ToBits(m, lo) + ToBits(n, hi)
  {
    if m == 0 {
      assert ToBits(0, lo) + ToBits(n, hi) == ToBits(n, hi);
    } else {
      ToBitsSplit(m - 1, n, lo / 2, hi);
      var q := Shifted(m - 1, hi);
      assert (lo + 2 * q) / 2 == lo / 2 + q;
      assert (lo + 2 * q) % 2 == lo % 2;
    }
  }

  lemma {:induction false} PackSplit(a: seq<bool>, b: seq<bool>)
    requires |a| % 8 == 0
    ensures Pack(a + b) == Pack(a) + Pack(b)
  {
    hide BitsValue;
    if |a| == 0 {
      Nil(b);
    } else if |b| == 0 {
      Nil(a);
      Nil(Pack(a));
    } else {
      assert (a + b)[..8] == a[..8];
      assert (a + b)[8..] == a[8..] + b;
      PackSplit(a[8..], b);
      PackFirst(a);
      Assoc([ByteValue(a[..8])], Pack(a[8..]), Pack(b));
    }
  }

  lemma {:induction false} UnpackSplit(a: seq<byte>, b: seq<byte>)
    ensures Unpack(a + b) == Unpack(a) + Unpack(b)
  {
    if |a| == 0 {
      assert a + b == b;
    } else {
      assert (a + b)[1..] == a[1..] + b;
      UnpackSplit(a[1..], b);
    }
  }

  /** The first 64-bit group of a packed set is one integer in the byte order. */
  lemma FirstGroup(o: ByteOrder, bits: seq<bool>, n: nat)
    requires |bits| > 56 && n == if |bits| < 64 then |bits| else 64
    ensures Grouped(o, Pack(bits)) == Put(o, 8, BitsValue(bits[..n])) + Grouped(o, Pack(bits[n..]))
  {
    var g := bits[..n];
    assert bits == g + bits[n..];
    LittlePack(8, g);
    if n == 64 {
      PackSplit(g, bits[n..]);
    } else {
      assert g == bits;
      assert bits[n..] == [];
    }
    assert Pack(bits) == Pack(g) + Pack(bits[n..]);
    assert Pack(bits)[..8] == Pack(g);
    assert Pack(bits)[8..] == Pack(bits[n..]);
  }

  /** Reading one 64-bit integer and splitting it into bits undoes one group. */
  lemma UnpackGroup(o: ByteOrder, raw: seq<byte>)
    requires |raw| >= 8
    ensures Unpack(Grouped(o, raw)) == ToBits(64, UintOf(o, raw[..8])) + Unpack(Grouped(o, raw[8..]))
  {
    var head := if o == BigEndian then Reversed(raw[..8]) else raw[..8];
    UnpackSplit(head, Grouped(o, raw[8..]));
    UnpackLittle(head);
  }
}
