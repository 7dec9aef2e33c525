/**
 * The LED controller's proprietary "YTKJ" wire format, as both encoders in the
 * repository write it.
 *
 * A chunk is a 10-byte header (tag, controller id, a reserved 0, the two
 * constant bytes 0x57 0x05, the number of port descriptors, a reserved 0)
 * followed by that many port descriptors, each a little-endian channel offset,
 * a little-endian LED-byte count and the LED bytes themselves. A frame is one
 * or more chunks, every chunk after the first preceded by eight zero bytes
 * standing in for a UDP header the controller discards.
 *
 * The decoder is not part of the repository (the controller firmware is); it
 * is the reference the encoders are proved against.
 */
module Ytkj {
  import opened Bytes
  import opened Wrappers

  const Tag: seq<byte> := ['Y' as int, 'T' as int, 'K' as int, 'J' as int]
  const HeaderLength := 10
  const PadLength := 8
  /** Channels a controller reserves per port: port `p`'s first LED is at channel `2048 * p`. */
  const PortChannels := 2048

  /** The chunk header for `controller` announcing `portCount` descriptors. */
  function Header(controller: byte, portCount: byte): (h: seq<byte>)
    ensures |h| == HeaderLength
  {
    Tag + [controller, 0, 0x57, 0x05, portCount, 0]
  }

  /** One port descriptor: `data` to be placed at `channel` in the controller's output buffer. */
  datatype Descriptor = Descriptor(channel: int, data: seq<byte>)

  /** A descriptor whose fields fit the format's 16-bit slots. */
  predicate Encodable(d: Descriptor)
  {
    0 <= d.channel < 65536 && |d.data| < 65536
  }

  /** The raw bytes of a descriptor whose declared length need not match its data. */
  function DescriptorBytes(channel: int, length: int, data: seq<byte>): (r: seq<byte>)
    ensures |r| == 4 + |data|
  {
    LE16(channel) + LE16(length) + data
  }

  function EncodeDescriptor(d: Descriptor): (r: seq<byte>)
    ensures |r| == 4 + |d.data|
  {
    DescriptorBytes(d.channel, |d.data|, d.data)
  }

  function EncodeDescriptors(ds: seq<Descriptor>): seq<byte>
  {
    if ds == [] then [] else EncodeDescriptor(ds[0]) + EncodeDescriptors(ds[1..])
  }

  /** The number of LED bytes `ds` carries. */
  function DataLength(ds: seq<Descriptor>): nat
  {
    if ds == [] then 0 else |ds[0].data| + DataLength(ds[1..])
  }

  /** The LED bytes of `ds` in emission order. */
  function Data(ds: seq<Descriptor>): (r: seq<byte>)
    ensures |r| == DataLength(ds)
  {
    if ds == [] then [] else ds[0].data + Data(ds[1..])
  }

  lemma {:induction false} EncodeDescriptorsLength(ds: seq<Descriptor>)
    ensures |EncodeDescriptors(ds)| == 4 * |ds| + DataLength(ds)
  {
    if ds != [] {
      EncodeDescriptorsLength(ds[1..]);
    }
  }

  datatype Chunk = Chunk(controller: byte, descriptors: seq<Descriptor>)

  /** A chunk the format can carry: at most 255 descriptors, each encodable. */
  predicate ChunkEncodable(c: Chunk)
  {
    |c.descriptors| < 256 && forall i :: 0 <= i < |c.descriptors| ==> Encodable(c.descriptors[i])
  }

  function EncodeChunk(c: Chunk): seq<byte>
  {
    Header(c.controller, |c.descriptors| % 256) + EncodeDescriptors(c.descriptors)
  }

  /** The first chunk as is, every later one behind an eight-byte zero pad. */
  function EncodeFrame(cs: seq<Chunk>): seq<byte>
  {
    if cs == [] then [] else EncodeChunk(cs[0]) + EncodePadded(cs[1..])
  }

  function EncodePadded(cs: seq<Chunk>): seq<byte>
  {
    if cs == [] then [] else Zeros(PadLength) + EncodeChunk(cs[0]) + EncodePadded(cs[1..])
  }

  lemma ChunkStartsWithHeader(c: Chunk)
    ensures |EncodeChunk(c)| >= HeaderLength
    ensures EncodeChunk(c)[..HeaderLength] == Header(c.controller, |c.descriptors| % 256)
  {
  }

  lemma {:induction false} PaddedCons(cs: seq<Chunk>)
    requires cs != []
    ensures EncodePadded(cs) == Zeros(PadLength) + EncodeChunk(cs[0]) + EncodePadded(cs[1..])
  {
  }

  /** A four-chunk frame spelled out: chunk, pad, chunk, pad, chunk, pad, chunk. */
  lemma {:induction false} FrameOfFour(cs: seq<Chunk>)
    requires |cs| == 4
    ensures var z := Zeros(PadLength);
      EncodeFrame(cs) == EncodeChunk(cs[0]) + (z + EncodeChunk(cs[1]) + (z + EncodeChunk(cs[2]) + (z + EncodeChunk(cs[3]))))
  {
    var z := Zeros(PadLength);
    var e0, e1, e2, e3 := EncodeChunk(cs[0]), EncodeChunk(cs[1]), EncodeChunk(cs[2]), EncodeChunk(cs[3]);
    var c1, c2, c3 := cs[1..], cs[2..], cs[3..];
    assert EncodePadded(c3) == z + e3 by {
      PaddedCons(c3);
      assert c3[0] == cs[3] && c3[1..] == [];
    }
    assert EncodePadded(c2) == z + e2 + (z + e3) by {
      PaddedCons(c2);
      assert c2[0] == cs[2] && c2[1..] == c3;
    }
    assert EncodePadded(c1) == z + e1 + (z + e2 + (z + e3)) by {
      PaddedCons(c1);
      assert c1[0] == cs[1] && c1[1..] == c2;
    }
    assert EncodeFrame(cs) == e0 + (z + e1 + (z + e2 + (z + e3)));
  }

  function FrameData(cs: seq<Chunk>): seq<byte>
  {
    if cs == [] then [] else Data(cs[0].descriptors) + FrameData(cs[1..])
  }

  // ---------------------------------------------------------------------------
  // Decoding

  /** Reads `n` descriptors off the front of `b`, returning them and what follows. */
  function DecodeDescriptors(b: seq<byte>, n: nat): (r: Option<(seq<Descriptor>, seq<byte>)>)
    ensures r.Some? ==> |r.value.1| <= |b|
    decreases n
  {
    if n == 0 then Some(([], b))
    else if |b| < 4 then None
    else
      var channel := ReadLE16(b[0], b[1]);
      var length := ReadLE16(b[2], b[3]);
      if |b| < 4 + length then None
      else match DecodeDescriptors(b[4 + length..], n - 1)
        case None => None
        case Some((ds, rest)) => Some(([Descriptor(channel, b[4..4 + length])] + ds, rest)) 
  }

  /** Reads one chunk off the front of `b`; `None` unless the header constants are right. */
  function DecodeChunk(b: seq<byte>): (r: Option<(Chunk, seq<byte>)>)
    ensures r.Some? ==> |r.value.1| <= |b| - HeaderLength
  {
    if |b| < HeaderLength || b[..4] != Tag || b[5] != 0 || b[6] != 0x57 || b[7] != 0x05 || b[9] != 0 then None
    else match DecodeDescriptors(b[HeaderLength..], b[8])
      case None => None
      case Some((ds, rest)) => Some((Chunk(b[4], ds), rest))
  }

  function DecodeFrame(b: seq<byte>): Option<seq<Chunk>>
  {
    if b == [] then Some([])
    else match DecodeChunk(b)
      case None => None
      case Some((c, rest)) =>
        match DecodePadded(rest)
        case None => None
        case Some(cs) => Some([c] + cs)
  }

  function DecodePadded(b: seq<byte>): Option<seq<Chunk>>
    decreases |b|
  {
    if b == [] then Some([])
    else if |b| < PadLength || b[..PadLength] != Zeros(PadLength) then None
    else match DecodeChunk(b[PadLength..])
      case None => None
      case Some((c, rest)) =>
        match DecodePadded(rest)
        case None => None
        case Some(cs) => Some([c] + cs)
  }

  // ---------------------------------------------------------------------------
  // Round trips

  lemma {:induction false} DescriptorsRoundTrip(ds: seq<Descriptor>, rest: seq<byte>)
    requires forall i :: 0 <= i < |ds| ==> Encodable(ds[i])
    ensures DecodeDescriptors(EncodeDescriptors(ds) + rest, |ds|) == Some((ds, rest))
  {
    if ds != [] {
      var d := ds[0];
      var tail := EncodeDescriptors(ds[1..]) + rest;
      var b := EncodeDescriptors(ds) + rest;
      assert b == LE16(d.channel) + LE16(|d.data|) + d.data + tail;
      LE16RoundTrip(d.channel);
      LE16RoundTrip(|d.data|);
      assert ReadLE16(b[0], b[1]) == d.channel;
      assert ReadLE16(b[2], b[3]) == |d.data|;
      assert b[4..4 + |d.data|] == d.data;
      assert b[4 + |d.data|..] == tail;
      DescriptorsRoundTrip(ds[1..], rest);
      assert DecodeDescriptors(tail, |ds| - 1) == Some((ds[1..], rest));
      assert |b| >= 4 + |d.data|;
      assert DecodeDescriptors(b, |ds|) == Some(([Descriptor(d.channel, b[4..4 + |d.data|])] + ds[1..], rest));
      assert [Descriptor(d.channel, d.data)] + ds[1..] == ds;
    } else {
      assert EncodeDescriptors(ds) + rest == rest;
    }
  }

  /** Decoding an encoded chunk gives the chunk back and leaves what followed it. */
  lemma ChunkRoundTrip(c: Chunk, rest: seq<byte>)
    requires ChunkEncodable(c)
    ensures DecodeChunk(EncodeChunk(c) + rest) == Some((c, rest))
  {
    var b := EncodeChunk(c) + rest;
    var h := Header(c.controller, |c.descriptors| % 256);
    assert b == h + (EncodeDescriptors(c.descriptors) + rest);
    assert b[..4] == Tag;
    assert b[8] == |c.descriptors|;
    assert b[HeaderLength..] == EncodeDescriptors(c.descriptors) + rest;
    DescriptorsRoundTrip(c.descriptors, rest);
  }

  lemma {:induction false} PaddedRoundTrip(cs: seq<Chunk>)
    requires forall i :: 0 <= i < |cs| ==> ChunkEncodable(cs[i])
    ensures DecodePadded(EncodePadded(cs)) == Some(cs)
  {
    if cs != [] {
      var b := EncodePadded(cs);
      var tail := EncodePadded(cs[1..]);
      assert b == Zeros(PadLength) + (EncodeChunk(cs[0]) + tail);
      assert b[..PadLength] == Zeros(PadLength);
      assert b[PadLength..] == EncodeChunk(cs[0]) + tail;
      ChunkRoundTrip(cs[0], tail);
      PaddedRoundTrip(cs[1..]);
      assert [cs[0]] + cs[1..] == cs;
    }
  }

  /** Decoding an encoded frame gives back its chunks, pads and all. */
  lemma FrameRoundTrip(cs: seq<Chunk>)
    requires forall i :: 0 <= i < |cs| ==> ChunkEncodable(cs[i])
    ensures DecodeFrame(EncodeFrame(cs)) == Some(cs)
  {
    if cs != [] {
      var tail := EncodePadded(cs[1..]);
      ChunkRoundTrip(cs[0], tail);
      assert EncodeChunk(cs[0]) != [];
      PaddedRoundTrip(cs[1..]);
      assert [cs[0]] + cs[1..] == cs;
    }
  }

  // ---------------------------------------------------------------------------
  // Sizes and suffixes

  /** The bytes the chunks take, pads left out. */
  function ChunksLength(cs: seq<Chunk>): nat
  {
    if cs == [] then 0 else |EncodeChunk(cs[0])| + ChunksLength(cs[1..])
  }

  lemma {:induction false} PaddedLength(cs: seq<Chunk>)
    ensures |EncodePadded(cs)| == ChunksLength(cs) + PadLength * |cs|
  {
    if cs != [] {
      PaddedLength(cs[1..]);
    }
  }

  /** A frame of `n` chunks is `8 * (n - 1)` bytes longer than its chunks. */
  lemma FrameLength(cs: seq<Chunk>)
    requires cs != []
    ensures |EncodeFrame(cs)| == ChunksLength(cs) + PadLength * (|cs| - 1)
  {
    PaddedLength(cs[1..]);
  }

  /** `d` is a suffix of `s`. */
  predicate EndsWith<T(==)>(s: seq<T>, d: seq<T>)
  {
    |d| <= |s| && s[|s| - |d|..] == d
  }

  lemma SuffixTrans<T>(f: seq<T>, e: seq<T>, d: seq<T>)
    requires EndsWith(f, e) && EndsWith(e, d)
    ensures EndsWith(f, d)
  {
    assert f[|f| - |d|..] == f[|f| - |e|..][|e| - |d|..];
  }

  lemma PrependKeepsSuffix<T>(h: seq<T>, x: seq<T>, d: seq<T>)
    requires EndsWith(x, d)
    ensures EndsWith(h + x, d)
  {
    assert (h + x)[|h + x| - |d|..] == x[|x| - |d|..];
  }

  /** The encoded descriptors end with the last descriptor's data. */
  lemma {:induction false} DescriptorsEndWithLastData(ds: seq<Descriptor>)
    requires ds != []
    ensures EndsWith(EncodeDescriptors(ds), ds[|ds| - 1].data)
  {
    var d := ds[|ds| - 1].data;
    if |ds| > 1 {
      DescriptorsEndWithLastData(ds[1..]);
      assert ds[1..][|ds[1..]| - 1] == ds[|ds| - 1];
      assert EncodeDescriptors(ds) == EncodeDescriptor(ds[0]) + EncodeDescriptors(ds[1..]);
      PrependKeepsSuffix(EncodeDescriptor(ds[0]), EncodeDescriptors(ds[1..]), d);
    } else {
      assert EncodeDescriptors(ds) == EncodeDescriptor(ds[0]) + [];
      assert EncodeDescriptor(ds[0]) == DescriptorBytes(ds[0].channel, |d|, d);
      PrependKeepsSuffix(LE16(ds[0].channel) + LE16(|d|), d, d);
    }
  }

  /** The encoded frame ends with the last data of its last chunk. */
  lemma {:induction false} FrameEndsWithLastData(cs: seq<Chunk>)
    requires cs != [] && cs[|cs| - 1].descriptors != []
    ensures var ds := cs[|cs| - 1].descriptors; EndsWith(EncodeFrame(cs), ds[|ds| - 1].data)
  {
    var c := cs[|cs| - 1];
    var ds := c.descriptors;
    var e, d := EncodeChunk(c), ds[|ds| - 1].data;
    assert EndsWith(EncodeFrame(cs), e) by {
      LastChunkIsSuffix(cs);
    }
    assert EndsWith(e, d) by {
      DescriptorsEndWithLastData(ds);
      PrependKeepsSuffix(Header(c.controller, |ds| % 256), EncodeDescriptors(ds), d);
    }
    SuffixTrans(EncodeFrame(cs), e, d);
  }

  lemma {:induction false} PaddedEndsWithLastChunk(cs: seq<Chunk>)
    requires cs != []
    ensures EndsWith(EncodePadded(cs), EncodeChunk(cs[|cs| - 1]))
  {
    var e := EncodeChunk(cs[|cs| - 1]);
    if |cs| > 1 {
      PaddedEndsWithLastChunk(cs[1..]);
      assert cs[1..][|cs[1..]| - 1] == cs[|cs| - 1];
      assert EncodePadded(cs) == (Zeros(PadLength) + EncodeChunk(cs[0])) + EncodePadded(cs[1..]);
      PrependKeepsSuffix(Zeros(PadLength) + EncodeChunk(cs[0]), EncodePadded(cs[1..]), e);
    } else {
      assert EncodePadded(cs) == Zeros(PadLength) + e + [];
      PrependKeepsSuffix(Zeros(PadLength), e, e);
    }
  }

  lemma {:induction false} LastChunkIsSuffix(cs: seq<Chunk>)
    requires cs != []
    ensures EndsWith(EncodeFrame(cs), EncodeChunk(cs[|cs| - 1]))
  {
    var e := EncodeChunk(cs[|cs| - 1]);
    if |cs| > 1 {
      PaddedEndsWithLastChunk(cs[1..]);
      assert cs[1..][|cs[1..]| - 1] == cs[|cs| - 1];
      PrependKeepsSuffix(EncodeChunk(cs[0]), EncodePadded(cs[1..]), e);
    } else {
      assert EncodeFrame(cs) == e + [];
      PrependKeepsSuffix([], e, e);
    }
  }
}
