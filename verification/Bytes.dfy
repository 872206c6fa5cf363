/** Bytes on the wire: byte order, fixed-width integers and the result of reading a prefix of a stream. */
module Bytes {

  type byte = b: int | 0 <= b < 256

  const TWO_31: int := 0x8000_0000
  const TWO_63: int := 0x8000_0000_0000_0000

  /** A Go string or byte slice: its length fits in a Go int. */
  type Text = s: seq<byte> | |s| < 0x8000_0000_0000_0000

  datatype ByteOrder = LittleEndian | BigEndian

  /** Why a decoder stops. Panic stands for a Go run-time panic (a negative slice length, for example). */
  datatype Fault = Eof | Panic | BadMagic | NoZeroValue | NtLayout

  datatype Option<+T> = None | Some(value: T)

  /** Reading a value from the front of a stream: the value and what is left, or a fault. */
  datatype Parsed<+T> = Ok(value: T, rest: seq<byte>) | Err(fault: Fault) {
    predicate IsFailure() {
      Err?
    }

    function PropagateFailure<U>(): Parsed<U>
      requires Err?
    {
      Err(fault)
    }

    function Extract(): (T, seq<byte>)
      requires Ok?
    {
      (value, rest)
    }
  }

  /** What a decode method returns: the stream itself is state of the decoder. */
  datatype Result<+T> = Done(value: T) | Fail(fault: Fault)

  // Sequence algebra, proved once so that larger proofs need not.

  lemma Assoc<T>(a: seq<T>, b: seq<T>, c: seq<T>)
    ensures a + b + c == a + (b + c)
  {
  }

  lemma Nil<T>(s: seq<T>)
    ensures [] + s == s && s + [] == s
  {
  }

  lemma Cons<T>(x: T, s: seq<T>)
    ensures |[x] + s| == |s| + 1 && ([x] + s)[0] == x && ([x] + s)[1..] == s
  {
  }

  lemma Uncons<T>(s: seq<T>)
    requires |s| > 0
    ensures [s[0]] + s[1..] == s
  {
  }

  lemma Halves<T>(a: seq<T>, b: seq<T>)
    ensures (a + b)[..|a|] == a && (a + b)[|a|..] == b
  {
  }

  function Pow256(n: nat): (p: nat)
    ensures p > 0
  {
    if n == 0 then 1 else 256 * Pow256(n - 1)
  }

  lemma Widths()
    ensures Pow256(1) == 0x100
    ensures Pow256(2) == 0x1_0000
    ensures Pow256(4) == 0x1_0000_0000
    ensures Pow256(8) == 0x1_0000_0000_0000_0000
  {
  }

  /** The n low bytes of w, least significant first. */
  function Little(n: nat, w: nat): (s: seq<byte>)
    ensures |s| == n
  {
    if n == 0 then [] else [w % 256] + Little(n - 1, w / 256)
  }

  function LittleValue(s: seq<byte>): nat {
    if |s| == 0 then 0 else s[0] + 256 * LittleValue(s[1..])
  }

  function Reversed(s: seq<byte>): (r: seq<byte>)
    ensures |r| == |s|
  {
    if |s| == 0 then [] else Reversed(s[1..]) + [s[0]]
  }

  lemma {:induction false} ReversedSnoc(s: seq<byte>, b: byte)
    ensures Reversed(s + [b]) == [b] + Reversed(s)
  {
    if |s| == 0 {
      assert s + [b] == [b];
    } else {
      assert (s + [b])[1..] == s[1..] + [b];
      ReversedSnoc(s[1..], b);
    }
  }

  lemma {:induction false} ReversedTwice(s: seq<byte>)
    ensures Reversed(Reversed(s)) == s
  {
    if |s| > 0 {
      ReversedSnoc(Reversed(s[1..]), s[0]);
      ReversedTwice(s[1..]);
    }
  }

  lemma {:induction false} LittleValueBound(s: seq<byte>)
    ensures LittleValue(s) < Pow256(|s|)
  {
    if |s| > 0 {
      LittleValueBound(s[1..]);
    }
  }

  lemma {:induction false} LittleRoundTrip(n: nat, w: nat)
    requires w < Pow256(n)
    ensures LittleValue(Little(n, w)) == w
  {
    if n > 0 {
      LittleRoundTrip(n - 1, w / 256);
      assert Little(n, w)[1..] == Little(n - 1, w / 256);
    }
  }

  /** An n-byte unsigned integer in the given byte order. */
  function Put(o: ByteOrder, n: nat, w: nat): (s: seq<byte>)
    ensures |s| == n
  {
    if o == LittleEndian then Little(n, w) else Reversed(Little(n, w))
  }

  function UintOf(o: ByteOrder, s: seq<byte>): nat {
    if o == LittleEndian then LittleValue(s) else LittleValue(Reversed(s))
  }

  lemma PutGet(o: ByteOrder, n: nat, w: nat)
    requires w < Pow256(n)
    ensures UintOf(o, Put(o, n, w)) == w
  {
    LittleRoundTrip(n, w);
    ReversedTwice(Little(n, w));
  }

  lemma GetBound(o: ByteOrder, s: seq<byte>)
    ensures UintOf(o, s) < Pow256(|s|)
  {
    LittleValueBound(s);
    LittleValueBound(Reversed(s));
  }

  /** io.ReadFull of n bytes. */
  function Take(n: nat, input: seq<byte>): Parsed<seq<byte>> {
    if |input| < n then Err(Eof) else Ok(input[..n], input[n..])
  }

  function ReadUint(o: ByteOrder, n: nat, input: seq<byte>): (r: Parsed<nat>)
    ensures r.Ok? ==> |r.rest| == |input| - n && r.value < Pow256(n)
  {
    var (raw, rest) :- Take(n, input);
    GetBound(o, raw);
    Ok(UintOf(o, raw), rest)
  }

  lemma ReadWritten(o: ByteOrder, n: nat, w: nat, rest: seq<byte>)
    requires w < Pow256(n)
    ensures ReadUint(o, n, Put(o, n, w) + rest) == Ok(w, rest)
  {
    PutGet(o, n, w);
    assert (Put(o, n, w) + rest)[..n] == Put(o, n, w);
    assert (Put(o, n, w) + rest)[n..] == rest;
  }

  function ReadByte(input: seq<byte>): Parsed<byte> {
    if |input| == 0 then Err(Eof) else Ok(input[0], input[1..])
  }

  /** The signed reading of a bit pattern. */
  function AsInt8(b: byte): int {
    if b < 128 then b else b - 256
  }

  function AsInt16(w: nat): int
    requires w < 0x1_0000
  {
    if w < 0x8000 then w else w - 0x1_0000
  }

  function AsInt64(w: nat): int
    requires w < 0x1_0000_0000_0000_0000
  {
    if w < TWO_63 then w else w - 0x1_0000_0000_0000_0000
  }

  /** Bit k (value m == 2^k) of a byte. */
  predicate HasBit(b: byte, m: nat)
    requires m > 0
  {
    (b / m) % 2 == 1
  }
}
