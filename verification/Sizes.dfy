/** PVSize and PVString: lengths in one, five or thirteen bytes, and length-prefixed text. */
module Sizes {
  import opened Bytes

  const MAX8: nat := 254
  const MAX32: nat := 0x7fff_ffff

  /** PVSize.PVEncode. */
  function EncSize(o: ByteOrder, v: int): (s: seq<byte>)
    requires v < TWO_63
    ensures |s| >= 1
  {
    if v < 0 then [255]
    else if v < MAX8 then [v]
    else if v < MAX32 then [254] + Put(o, 4, v)
    else [254] + Put(o, 4, MAX32) + Put(o, 8, v)
  }

  /** PVSize.PVDecode. */
  function DecSize(o: ByteOrder, input: seq<byte>): (r: Parsed<int>)
    ensures r.Ok? ==> |r.rest| < |input| && -TWO_63 <= r.value < TWO_63
  {
    var (data, rest) :- ReadByte(input);
    if data == 255 then Ok(-1, rest)
    else if data != 254 then Ok(data, rest)
    else
      Widths();
      var (data32, rest32) :- ReadUint(o, 4, rest);
      if data32 != MAX32 then Ok(data32, rest32)
      else
        var (data64, rest64) :- ReadUint(o, 8, rest32);
        Ok(AsInt64(data64), rest64)
  }

  /** Every size reads back, and every negative one as -1. */
  lemma SizeRoundTrip(o: ByteOrder, v: int, rest: seq<byte>)
    requires v < TWO_63
    ensures DecSize(o, EncSize(o, v) + rest) == Ok(if v < 0 then -1 else v, rest)
  {
    Widths();
    var s := EncSize(o, v);
    assert (s + rest)[1..] == s[1..] + rest;
    if MAX8 <= v < MAX32 {
      assert s[1..] == Put(o, 4, v);
      ReadWritten(o, 4, v, rest);
    } else if v >= MAX32 {
      assert s[1..] + rest == Put(o, 4, MAX32) + (Put(o, 8, v) + rest);
      ReadWritten(o, 4, MAX32, Put(o, 8, v) + rest);
      ReadWritten(o, 8, v, rest);
    }
  }

  /** No encoded size is a proper prefix of another, nor shared by two sizes. */
  lemma SizePrefixFree(o: ByteOrder, v: int, w: int, a: seq<byte>, b: seq<byte>)
    requires -1 <= v < TWO_63 && -1 <= w < TWO_63
    requires EncSize(o, v) + a == EncSize(o, w) + b
    ensures v == w && a == b
  {
    SizeRoundTrip(o, v, a);
    SizeRoundTrip(o, w, b);
  }

  function EncText(o: ByteOrder, t: Text): (s: seq<byte>)
    ensures |s| >= 1
  {
    EncSize(o, |t|) + t
  }

  /** PVString.PVDecode: a negative length makes Go panic. */
  function DecText(o: ByteOrder, input: seq<byte>): (r: Parsed<Text>)
    ensures r.Ok? ==> |r.rest| < |input|
  {
    var (n, rest) :- DecSize(o, input);
    if n < 0 then Err(Panic)
    else
      var (t, rest') :- Take(n, rest);
      Ok(t, rest')
  }

  lemma TextRoundTrip(o: ByteOrder, t: Text, rest: seq<byte>)
    ensures DecText(o, EncText(o, t) + rest) == Ok(t, rest)
  {
    assert EncText(o, t) + rest == EncSize(o, |t|) + (t + rest);
    SizeRoundTrip(o, |t|, t + rest);
    assert (t + rest)[..|t|] == t;
    assert (t + rest)[|t|..] == rest;
  }
}
