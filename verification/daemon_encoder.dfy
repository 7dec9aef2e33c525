/**
 * The daemon's YTKJ encoder (`payload_buffer` in raadhus_daemon.c) and the
 * datagram `led_thread` sends every tick.
 *
 * `payload_buffer` interleaves two things: bookkeeping (the channel offset,
 * the carried-over LED-byte count, the number of LED bytes copied so far and
 * the write index inside the current chunk) and copying mapped bytes. No
 * copied byte ever influences the bookkeeping, so the model separates them:
 * `Chunks` follows the source's two nested do-while loops branch for branch
 * and records, per port descriptor, its channel offset, declared length and
 * read position (a `Span`); `Render` then writes the chunks those spans
 * describe. Together they write the same buffer the source writes.
 */
module DaemonEncoder {
  import opened Bytes
  import opened Wrappers
  import Ytkj
  import opened DaemonMapping

  const MaxPayloadSize := 1472
  const Controller: byte := 2

  /** One port descriptor: channel offset, declared LED-byte count, and where its bytes start in the mapped frame. */
  datatype Span = Span(channel: int, length: int, start: int)

  /** What the encoder carries from one descriptor to the next: `channelOffset`, `ledMTUCarry` and `count`. */
  datatype Cursor = Cursor(channelOffset: int, carry: int, count: int)

  /** One pass of the inner loop: the descriptor written, the state after it and the new write index. */
  datatype Step = Step(span: Span, next: Cursor, index: int)

  /** One chunk's descriptors and its length, pad excluded (the final `payloadIndex`). */
  datatype ChunkPlan = ChunkPlan(spans: seq<Span>, size: int)

  /** One run of the inner loop: the chunk's plan and the state it leaves. */
  datatype Filled = Filled(plan: ChunkPlan, next: Cursor)

  /** `(x & ~2047) + 2048`: the start of the next port's channel range. */
  function AlignUp(x: int): (r: int)
    ensures r % Ytkj.PortChannels == 0 && x < r <= x + Ytkj.PortChannels
  {
    x - x % Ytkj.PortChannels + Ytkj.PortChannels
  }

  /** The number of times the copy loop `for(; ledsOnPort > 0; ledsOnPort--)` runs. */
  function Copied(length: int): nat
  {
    if length > 0 then length else 0
  }

  /** The LED bytes the next descriptor wants: the carried-over rest of a port, or a whole port. */
  function Wanted(c: Cursor): int
  {
    if c.carry != 0 then c.carry else LedsOnPort
  }

  /** The room the source's test sees when the descriptor's offset field ends at `index + 2`. */
  function BytesLeft(index: int): int
  {
    MaxPayloadSize - (index + 2)
  }

  /** Whether the descriptor starting at `index` is split (the source's `ledsOnPort > bytesLeft`). */
  predicate Splits(c: Cursor, index: int)
  {
    Wanted(c) > BytesLeft(index)
  }

  /** One pass of the inner do-while of `payload_buffer`, for a descriptor starting at `index`. */
  function DescriptorStep(c: Cursor, index: int): (s: Step)
    requires c.carry >= 0
    ensures s.span.channel == c.channelOffset && s.span.start == c.count
    ensures s.next.carry >= 0 && s.next.count == c.count + Copied(s.span.length)
    ensures s.index == index + 4 + Copied(s.span.length)
    ensures Splits(c, index) ==> s.span.length == BytesLeft(index) - 2 && s.next.carry == Wanted(c) - s.span.length && s.next.carry > 0
    ensures !Splits(c, index) ==> s.span.length == Wanted(c) > 0 && s.next.carry == 0
    ensures Splits(c, index) ==> s.next.channelOffset == c.channelOffset + s.span.length
    ensures !Splits(c, index) ==> s.next.channelOffset == AlignUp(c.channelOffset)
  {
    var bytesLeft := BytesLeft(index);
    var ledsOnPort := Wanted(c);
    if ledsOnPort > bytesLeft then
      var length := bytesLeft - 2;
      Step(Span(c.channelOffset, length, c.count),
           Cursor(c.channelOffset + length, ledsOnPort - length, c.count + Copied(length)),
           index + 4 + Copied(length))
    else
      Step(Span(c.channelOffset, ledsOnPort, c.count),
           Cursor(AlignUp(c.channelOffset), 0, c.count + ledsOnPort),
           index + 4 + ledsOnPort)
  }

  /**
   * How far one descriptor reaches: a split one fills the chunk to exactly
   * `MaxPayloadSize`, but the split test leaves the two length bytes out of the
   * room it compares against, so one that is not split may end up to two
   * bytes past it, and does whenever it wants exactly `BytesLeft(index)` bytes.
   */
  lemma DescriptorReach(c: Cursor, index: int)
    requires c.carry >= 0
    ensures Splits(c, index) && index <= MaxPayloadSize - 4 ==> DescriptorStep(c, index).index == MaxPayloadSize
    ensures !Splits(c, index) ==> DescriptorStep(c, index).index <= MaxPayloadSize + 2
    ensures Wanted(c) == BytesLeft(index) ==> DescriptorStep(c, index).index == MaxPayloadSize + 2
  {
  }

  /**
   * The inner do-while: descriptors are written from `index` on while the
   * chunk is not full and LED bytes remain.
   */
  function FillChunk(c: Cursor, index: int): (f: Filled)
    requires c.carry >= 0
    ensures |f.plan.spans| >= 1 && f.plan.spans[0].start == c.count
    ensures f.next.carry >= 0 && f.next.count >= c.count
    ensures index <= MaxPayloadSize - 5 ==> f.next.count > c.count
    decreases MaxPayloadSize - index
  {
    var s := DescriptorStep(c, index);
    if s.index < MaxPayloadSize && s.next.count < TotalLeds then
      var rest := FillChunk(s.next, s.index);
      Filled(ChunkPlan([s.span] + rest.plan.spans, rest.plan.size), rest.next)
    else
      Filled(ChunkPlan([s.span], s.index), s.next)
  }

  /** The outer do-while: one chunk after another until every LED byte is placed. */
  function Chunks(c: Cursor): (plans: seq<ChunkPlan>)
    requires c.carry >= 0
    ensures |plans| >= 1
    ensures forall i :: 0 <= i < |plans| ==> |plans[i].spans| >= 1
    ensures plans[0].spans[0].start == c.count
    decreases TotalLeds - c.count
  {
    var f := FillChunk(c, Ytkj.HeaderLength);
    if f.next.count < TotalLeds then [f.plan] + Chunks(f.next) else [f.plan]
  }

  /**
   * The chunk layout of every frame; it depends on nothing but the constants:
   * 4 chunks holding 11 descriptors at offsets 0, 2048, 4096, 4178, 6144,
   * 8192, 8356, 10240, 12288, 12534 and 14336.
   */
  function Layout(): (plans: seq<ChunkPlan>)
    ensures plans == [
      ChunkPlan([Span(0, 684, 0), Span(2048, 684, 684), Span(4096, 82, 1368)], 1472),
      ChunkPlan([Span(4178, 602, 1450), Span(6144, 684, 2052), Span(8192, 164, 2736)], 1472),
      ChunkPlan([Span(8356, 520, 2900), Span(10240, 684, 3420), Span(12288, 246, 4104)], 1472),
      ChunkPlan([Span(12534, 438, 4350), Span(14336, 684, 4788)], 1140)]
  {
    FirstChunk();
    SecondChunk();
    ThirdChunk();
    FourthChunk();
    assert Chunks(Cursor(12534, 438, 4350)) == [ChunkPlan([Span(12534, 438, 4350), Span(14336, 684, 4788)], 1140)];
    assert Chunks(Cursor(8356, 520, 2900)) == [ChunkPlan([Span(8356, 520, 2900), Span(10240, 684, 3420), Span(12288, 246, 4104)], 1472)] + Chunks(Cursor(12534, 438, 4350));
    assert Chunks(Cursor(4178, 602, 1450)) == [ChunkPlan([Span(4178, 602, 1450), Span(6144, 684, 2052), Span(8192, 164, 2736)], 1472)] + Chunks(Cursor(8356, 520, 2900));
    Chunks(Cursor(0, 0, 0))
  }

  /** The return value of `payload_buffer`: the chunk lengths summed, pads left out. */
  function SizeSum(plans: seq<ChunkPlan>): int
  {
    if plans == [] then 0 else plans[0].size + SizeSum(plans[1..])
  }

  // The four chunks of a frame, each checked pass by pass.

  lemma FirstChunk()
    ensures FillChunk(Cursor(0, 0, 0), 10) == Filled(ChunkPlan([Span(0, 684, 0), Span(2048, 684, 684), Span(4096, 82, 1368)], 1472), Cursor(4178, 602, 1450))
  {
    assert DescriptorStep(Cursor(4096, 0, 1368), 1386) == Step(Span(4096, 82, 1368), Cursor(4178, 602, 1450), 1472);
    assert DescriptorStep(Cursor(2048, 0, 684), 698) == Step(Span(2048, 684, 684), Cursor(4096, 0, 1368), 1386);
    assert DescriptorStep(Cursor(0, 0, 0), 10) == Step(Span(0, 684, 0), Cursor(2048, 0, 684), 698);
  }

  lemma SecondChunk()
    ensures FillChunk(Cursor(4178, 602, 1450), 10) == Filled(ChunkPlan([Span(4178, 602, 1450), Span(6144, 684, 2052), Span(8192, 164, 2736)], 1472), Cursor(8356, 520, 2900))
  {
    assert DescriptorStep(Cursor(8192, 0, 2736), 1304) == Step(Span(8192, 164, 2736), Cursor(8356, 520, 2900), 1472);
    assert DescriptorStep(Cursor(6144, 0, 2052), 616) == Step(Span(6144, 684, 2052), Cursor(8192, 0, 2736), 1304);
    assert DescriptorStep(Cursor(4178, 602, 1450), 10) == Step(Span(4178, 602, 1450), Cursor(6144, 0, 2052), 616);
  }

  lemma ThirdChunk()
    ensures FillChunk(Cursor(8356, 520, 2900), 10) == Filled(ChunkPlan([Span(8356, 520, 2900), Span(10240, 684, 3420), Span(12288, 246, 4104)], 1472), Cursor(12534, 438, 4350))
  {
    assert DescriptorStep(Cursor(12288, 0, 4104), 1222) == Step(Span(12288, 246, 4104), Cursor(12534, 438, 4350), 1472);
    assert DescriptorStep(Cursor(10240, 0, 3420), 534) == Step(Span(10240, 684, 3420), Cursor(12288, 0, 4104), 1222);
    assert DescriptorStep(Cursor(8356, 520, 2900), 10) == Step(Span(8356, 520, 2900), Cursor(10240, 0, 3420), 534);
  }

  lemma FourthChunk()
    ensures FillChunk(Cursor(12534, 438, 4350), 10) == Filled(ChunkPlan([Span(12534, 438, 4350), Span(14336, 684, 4788)], 1140), Cursor(16384, 0, 5472))
  {
    assert DescriptorStep(Cursor(14336, 0, 4788), 452) == Step(Span(14336, 684, 4788), Cursor(16384, 0, 5472), 1140);
    assert DescriptorStep(Cursor(12534, 438, 4350), 10) == Step(Span(12534, 438, 4350), Cursor(14336, 0, 4788), 452);
  }

  // ---------------------------------------------------------------------------
  // Rendering the layout into bytes

  /** A span the mapped frame and the 16-bit fields can carry. */
  predicate SpanFits(s: Span)
  {
    0 <= s.start && 0 <= s.length && s.start + s.length <= TotalLeds
    && 0 <= s.channel < 65536 && s.length < 65536
  }

  predicate PlanFits(plans: seq<ChunkPlan>)
  {
    forall i :: 0 <= i < |plans| ==>
      |plans[i].spans| < 256 && forall j :: 0 <= j < |plans[i].spans| ==> SpanFits(plans[i].spans[j])
  }

  /** The descriptors `spans` describe, each carrying its slice of the mapped frame. */
  function Descriptors(spans: seq<Span>, mapped: seq<byte>): (ds: seq<Ytkj.Descriptor>)
    requires |mapped| == TotalLeds
    requires forall j :: 0 <= j < |spans| ==> SpanFits(spans[j])
    ensures |ds| == |spans|
    ensures forall j :: 0 <= j < |ds| ==> Ytkj.Encodable(ds[j])
  {
    if spans == [] then []
    else
      var s := spans[0];
      assert SpanFits(s);
      [Ytkj.Descriptor(s.channel, mapped[s.start..s.start + s.length])] + Descriptors(spans[1..], mapped)
  }

  /** The chunks the plans describe, all for this daemon's controller. */
  function Render(plans: seq<ChunkPlan>, mapped: seq<byte>): (cs: seq<Ytkj.Chunk>)
    requires |mapped| == TotalLeds && PlanFits(plans)
    ensures |cs| == |plans|
    ensures forall i :: 0 <= i < |cs| ==> Ytkj.ChunkEncodable(cs[i]) && cs[i].controller == Controller
    ensures forall i :: 0 <= i < |cs| ==> |cs[i].descriptors| == |plans[i].spans|
  {
    if plans == [] then []
    else [Ytkj.Chunk(Controller, Descriptors(plans[0].spans, mapped))] + Render(plans[1..], mapped)
  }

  lemma {:induction false} DescriptorAt(spans: seq<Span>, mapped: seq<byte>, j: int)
    requires |mapped| == TotalLeds
    requires forall j :: 0 <= j < |spans| ==> SpanFits(spans[j])
    requires 0 <= j < |spans|
    ensures Descriptors(spans, mapped)[j] == Ytkj.Descriptor(spans[j].channel, mapped[spans[j].start..spans[j].start + spans[j].length])
  {
    if j > 0 {
      DescriptorAt(spans[1..], mapped, j - 1);
    }
  }

  lemma {:induction false} RenderAt(plans: seq<ChunkPlan>, mapped: seq<byte>, i: int)
    requires |mapped| == TotalLeds && PlanFits(plans)
    requires 0 <= i < |plans|
    ensures Render(plans, mapped)[i] == Ytkj.Chunk(Controller, Descriptors(plans[i].spans, mapped))
  {
    if i > 0 {
      assert PlanFits(plans[1..]) by {
        assert forall k :: 0 <= k < |plans[1..]| ==> plans[1..][k] == plans[k + 1];
      }
      RenderAt(plans[1..], mapped, i - 1);
    }
  }

  /** Every span of the layout is in bounds, non-empty, and fits its 16-bit fields. */
  lemma LayoutFits()
    ensures PlanFits(Layout())
    ensures forall i, j :: 0 <= i < |Layout()| && 0 <= j < |Layout()[i].spans| ==> Layout()[i].spans[j].length > 0
  {
  }

  /** `spans` cover `[from, to)` of the mapped frame, one after the other. */
  predicate Tiles(spans: seq<Span>, from: int, to: int)
  {
    if spans == [] then from == to
    else spans[0].start == from && spans[0].length >= 0 && Tiles(spans[1..], from + spans[0].length, to)
  }

  function SpansEnd(spans: seq<Span>, from: int): int
  {
    if spans == [] then from else SpansEnd(spans[1..], from + spans[0].length)
  }

  /** The chunks' spans, taken in order across chunks, cover `[from, to)`. */
  predicate PlansTile(plans: seq<ChunkPlan>, from: int, to: int)
  {
    if plans == [] then from == to
    else Tiles(plans[0].spans, from, SpansEnd(plans[0].spans, from)) && PlansTile(plans[1..], SpansEnd(plans[0].spans, from), to)
  }

  lemma {:induction false} TilesCarry(spans: seq<Span>, mapped: seq<byte>, from: int, to: int)
    requires |mapped| == TotalLeds
    requires forall j :: 0 <= j < |spans| ==> SpanFits(spans[j])
    requires 0 <= from <= TotalLeds && Tiles(spans, from, to)
    ensures from <= to <= TotalLeds
    ensures Ytkj.Data(Descriptors(spans, mapped)) == mapped[from..to]
  {
    if spans != [] {
      var s := spans[0];
      TilesCarry(spans[1..], mapped, from + s.length, to);
      assert mapped[from..from + s.length] + mapped[from + s.length..to] == mapped[from..to];
    }
  }

  lemma {:induction false} TilesEnd(spans: seq<Span>, from: int, to: int)
    requires Tiles(spans, from, to)
    ensures SpansEnd(spans, from) == to
  {
    if spans != [] {
      TilesEnd(spans[1..], from + spans[0].length, to);
    }
  }

  /** Spans that tile `[from, to)` carry exactly the mapped bytes `from .. to - 1`, in order. */
  lemma {:induction false} PlansCarry(plans: seq<ChunkPlan>, mapped: seq<byte>, from: int, to: int)
    requires |mapped| == TotalLeds && PlanFits(plans)
    requires 0 <= from <= TotalLeds && PlansTile(plans, from, to)
    ensures from <= to <= TotalLeds
    ensures Ytkj.FrameData(Render(plans, mapped)) == mapped[from..to]
  {
    if plans != [] {
      var mid := SpansEnd(plans[0].spans, from);
      TilesCarry(plans[0].spans, mapped, from, mid);
      assert PlanFits(plans[1..]) by {
        forall i | 0 <= i < |plans[1..]|
          ensures |plans[1..][i].spans| < 256 && forall j :: 0 <= j < |plans[1..][i].spans| ==> SpanFits(plans[1..][i].spans[j])
        {
          assert plans[1..][i] == plans[i + 1];
        }
      }
      PlansCarry(plans[1..], mapped, mid, to);
      assert mapped[from..mid] + mapped[mid..to] == mapped[from..to];
    }
  }

  lemma LayoutTiles()
    ensures PlansTile(Layout(), 0, TotalLeds)
  {
  }

  // ---------------------------------------------------------------------------
  // Chunk sizes

  /** The bytes the source writes for `spans`: four field bytes each plus the bytes its copy loop copies. */
  function SpanBytes(spans: seq<Span>): int
  {
    if spans == [] then 0 else 4 + Copied(spans[0].length) + SpanBytes(spans[1..])
  }

  /** The write index a chunk ends at is where it started plus what its descriptors wrote. */
  lemma {:induction false} FillChunkSize(c: Cursor, index: int)
    requires c.carry >= 0
    ensures FillChunk(c, index).plan.size == index + SpanBytes(FillChunk(c, index).plan.spans)
    decreases MaxPayloadSize - index
  {
    var s := DescriptorStep(c, index);
    if s.index < MaxPayloadSize && s.next.count < TotalLeds {
      FillChunkSize(s.next, s.index);
      assert ([s.span] + FillChunk(s.next, s.index).plan.spans)[1..] == FillChunk(s.next, s.index).plan.spans;
    }
  }

  /** Every chunk's size is its header plus what its descriptors wrote. */
  predicate SizesConsistent(plans: seq<ChunkPlan>)
  {
    forall i :: 0 <= i < |plans| ==> plans[i].size == Ytkj.HeaderLength + SpanBytes(plans[i].spans)
  }

  lemma {:induction false} ChunksSizesConsistent(c: Cursor)
    requires c.carry >= 0
    ensures SizesConsistent(Chunks(c))
    decreases TotalLeds - c.count
  {
    var f := FillChunk(c, Ytkj.HeaderLength);
    FillChunkSize(c, Ytkj.HeaderLength);
    if f.next.count < TotalLeds {
      ChunksSizesConsistent(f.next);
      var plans := Chunks(c);
      assert plans == [f.plan] + Chunks(f.next);
      forall i | 0 <= i < |plans|
        ensures plans[i].size == Ytkj.HeaderLength + SpanBytes(plans[i].spans)
      {
        if i > 0 {
          assert plans[i] == Chunks(f.next)[i - 1];
        }
      }
    }
  }

  lemma {:induction false} DescriptorsLength(spans: seq<Span>, mapped: seq<byte>)
    requires |mapped| == TotalLeds
    requires forall j :: 0 <= j < |spans| ==> SpanFits(spans[j])
    ensures |Ytkj.EncodeDescriptors(Descriptors(spans, mapped))| == SpanBytes(spans)
  {
    if spans != [] {
      DescriptorsLength(spans[1..], mapped);
      assert Descriptors(spans, mapped)[1..] == Descriptors(spans[1..], mapped);
    }
  }

  /** Rendered chunks are as long as the plans' sizes say, so the bytes written agree with the returned count. */
  lemma {:induction false} RenderLength(plans: seq<ChunkPlan>, mapped: seq<byte>)
    requires |mapped| == TotalLeds && PlanFits(plans) && SizesConsistent(plans)
    ensures Ytkj.ChunksLength(Render(plans, mapped)) == SizeSum(plans)
  {
    if plans != [] {
      assert PlanFits(plans[1..]) by {
        forall i | 0 <= i < |plans[1..]|
          ensures |plans[1..][i].spans| < 256 && forall j :: 0 <= j < |plans[1..][i].spans| ==> SpanFits(plans[1..][i].spans[j])
        {
          assert plans[1..][i] == plans[i + 1];
        }
      }
      assert SizesConsistent(plans[1..]) by {
        forall i | 0 <= i < |plans[1..]|
          ensures plans[1..][i].size == Ytkj.HeaderLength + SpanBytes(plans[1..][i].spans)
        {
          assert plans[1..][i] == plans[i + 1];
        }
      }
      RenderLength(plans[1..], mapped);
      DescriptorsLength(plans[0].spans, mapped);
      assert Render(plans, mapped)[1..] == Render(plans[1..], mapped);
    }
  }

  // ---------------------------------------------------------------------------
  // Channel-offset bookkeeping

  /**
   * The bookkeeping agrees with the port layout: after `count` LED bytes,
   * the offset is the current port's first channel plus the bytes already
   * sent of that port, and the carry is what is left of a port begun but
   * not finished.
   */
  predicate PortAligned(c: Cursor)
  {
    && c.count >= 0
    && c.channelOffset == Ytkj.PortChannels * (c.count / LedsOnPort) + c.count % LedsOnPort
    && c.carry == (if c.count % LedsOnPort == 0 then 0 else LedsOnPort - c.count % LedsOnPort)
  }

  lemma PortDivision(n: int, k: int, r: int)
    requires n == LedsOnPort * k + r && 0 <= r < LedsOnPort
    ensures n / LedsOnPort == k && n % LedsOnPort == r
  {
  }

  /**
   * A descriptor that copies at least one byte keeps the bookkeeping aligned;
   * in particular the first descriptor of port `p` is addressed at channel `2048 * p`.
   */
  lemma StepKeepsPortAlignment(c: Cursor, index: int)
    requires PortAligned(c)
    requires DescriptorStep(c, index).span.length > 0
    ensures PortAligned(DescriptorStep(c, index).next)
    ensures c.count % LedsOnPort == 0 ==> DescriptorStep(c, index).span.channel == Ytkj.PortChannels * (c.count / LedsOnPort)
  {
    var s := DescriptorStep(c, index);
    var k := c.count / LedsOnPort;
    var r := c.count % LedsOnPort;
    var len := s.span.length;
    assert c.count == LedsOnPort * k + r;
    assert Wanted(c) == LedsOnPort - r;
    if Splits(c, index) {
      assert s.next == Cursor(c.channelOffset + len, LedsOnPort - r - len, c.count + len);
      PortDivision(s.next.count, k, r + len);
    } else {
      assert len == LedsOnPort - r;
      ChannelDivision(c.channelOffset, k, r);
      assert s.next == Cursor(Ytkj.PortChannels * (k + 1), 0, LedsOnPort * (k + 1));
      PortDivision(s.next.count, k + 1, 0);
    }
  }

  lemma ChannelDivision(x: int, k: int, r: int)
    requires x == Ytkj.PortChannels * k + r && 0 <= r < Ytkj.PortChannels
    ensures AlignUp(x) == Ytkj.PortChannels * (k + 1)
  {
    assert x % Ytkj.PortChannels == r;
  }

  /** The spans of a plan each start on a port boundary only where their channel is that port's first. */
  predicate PortStartsAddressed(spans: seq<Span>)
  {
    forall j :: 0 <= j < |spans| && spans[j].start % LedsOnPort == 0 ==> spans[j].channel == Ytkj.PortChannels * (spans[j].start / LedsOnPort)
  }

  predicate AllCopy(spans: seq<Span>)
  {
    forall j :: 0 <= j < |spans| ==> spans[j].length > 0
  }

  lemma {:induction false} FillChunkAligned(c: Cursor, index: int)
    requires PortAligned(c)
    requires AllCopy(FillChunk(c, index).plan.spans)
    ensures PortAligned(FillChunk(c, index).next)
    ensures PortStartsAddressed(FillChunk(c, index).plan.spans)
    decreases MaxPayloadSize - index
  {
    var s := DescriptorStep(c, index);
    var f := FillChunk(c, index);
    assert f.plan.spans[0] == s.span;
    StepKeepsPortAlignment(c, index);
    if s.index < MaxPayloadSize && s.next.count < TotalLeds {
      var rest := FillChunk(s.next, s.index);
      assert f.plan.spans == [s.span] + rest.plan.spans;
      assert forall j :: 0 <= j < |rest.plan.spans| ==> rest.plan.spans[j] == f.plan.spans[j + 1];
      FillChunkAligned(s.next, s.index);
    }
  }

  lemma {:induction false} ChunksAligned(c: Cursor)
    requires PortAligned(c)
    requires forall i :: 0 <= i < |Chunks(c)| ==> AllCopy(Chunks(c)[i].spans)
    ensures forall i :: 0 <= i < |Chunks(c)| ==> PortStartsAddressed(Chunks(c)[i].spans)
    decreases TotalLeds - c.count
  {
    var f := FillChunk(c, Ytkj.HeaderLength);
    assert Chunks(c)[0] == f.plan;
    FillChunkAligned(c, Ytkj.HeaderLength);
    if f.next.count < TotalLeds {
      assert forall i :: 0 <= i < |Chunks(f.next)| ==> Chunks(f.next)[i] == Chunks(c)[i + 1];
      ChunksAligned(f.next);
    }
  }

  /** Each port's first descriptor carries channel `2048 * p`, whatever splitting came before it. */
  lemma LayoutAddressesPorts()
    ensures forall i :: 0 <= i < |Layout()| ==> PortStartsAddressed(Layout()[i].spans)
  {
    LayoutFits();
    ChunksAligned(Cursor(0, 0, 0));
  }

  /** The layout's spans in emission order. */
  function Flatten(plans: seq<ChunkPlan>): seq<Span>
  {
    if plans == [] then [] else plans[0].spans + Flatten(plans[1..])
  }

  /** Channel offsets strictly increase from one span to the next. */
  predicate ChannelsIncrease(spans: seq<Span>)
  {
    forall j :: 0 <= j < |spans| - 1 ==> spans[j].channel < spans[j + 1].channel
  }

  /** Port `p` has a span starting at its first LED byte `684 * p` and addressed at channel `2048 * p`. */
  predicate PortAddressed(spans: seq<Span>, p: int)
  {
    exists j :: 0 <= j < |spans| && spans[j].start == LedsOnPort * p && spans[j].channel == Ytkj.PortChannels * p
  }

  predicate EveryPortAddressed(spans: seq<Span>)
  {
    forall p :: 0 <= p < PortsInUse ==> PortAddressed(spans, p)
  }

  /**
   * The descriptors' offsets strictly increase from one descriptor to the
   * next, and ports `0 .. 7` each begin with a descriptor addressed at `2048 * p`.
   */
  lemma OffsetsIncrease()
    ensures |Flatten(Layout())| == 11
    ensures ChannelsIncrease(Flatten(Layout()))
    ensures EveryPortAddressed(Flatten(Layout()))
  {
    var l := Layout();
    var spans := Flatten(l);
    assert spans == l[0].spans + (l[1].spans + (l[2].spans + l[3].spans)) by {
      assert Flatten(l[3..]) == l[3].spans;
      assert Flatten(l[2..]) == l[2].spans + Flatten(l[3..]);
      assert Flatten(l[1..]) == l[1].spans + Flatten(l[2..]);
    }
    forall j | 0 <= j < |spans| - 1
      ensures spans[j].channel < spans[j + 1].channel
    {
      assert j in {0, 1, 2, 3, 4, 5, 6, 7, 8, 9};
    }
    forall p | 0 <= p < PortsInUse
      ensures PortAddressed(spans, p)
    {
      // Ports 0-2 start chunk 0's descriptors; every later chunk opens with the rest of a split port.
      var j := if p < 3 then p else if p < 5 then p + 1 else if p < 7 then p + 2 else 10;
      assert p in {0, 1, 2, 3, 4, 5, 6, 7};
      assert spans[j].start == LedsOnPort * p && spans[j].channel == Ytkj.PortChannels * p;
    }
  }

  // ---------------------------------------------------------------------------
  // The payload

  /** What `payload_buffer` leaves behind: the bytes it wrote and the count it returns. */
  datatype Payload = Payload(written: seq<byte>, byteCount: int)

  /** The chunks `payload_buffer` writes for a mapped frame. */
  function FrameChunks(mapped: seq<byte>): seq<Ytkj.Chunk>
    requires |mapped| == TotalLeds
  {
    LayoutFits();
    Render(Layout(), mapped)
  }

  /**
   * `payload_buffer` on an already mapped frame. The written bytes decode,
   * pads and all, back to the frame's chunks, and the returned count is the
   * written length less one pad for every chunk after the first.
   */
  function Encode(mapped: seq<byte>): (p: Payload)
    requires |mapped| == TotalLeds
    ensures Ytkj.DecodeFrame(p.written) == Some(FrameChunks(mapped))
    ensures p.byteCount == |p.written| - Ytkj.PadLength * (|FrameChunks(mapped)| - 1)
  {
    var cs := FrameChunks(mapped);
    LayoutFits();
    ChunksSizesConsistent(Cursor(0, 0, 0));
    RenderLength(Layout(), mapped);
    Ytkj.FrameLength(cs);
    Ytkj.FrameRoundTrip(cs);
    Payload(Ytkj.EncodeFrame(cs), SizeSum(Layout()))
  }

  /** The descriptors, read in emission order, carry the mapped frame exactly. */
  lemma EncodeCarriesFrame(mapped: seq<byte>)
    requires |mapped| == TotalLeds
    ensures Ytkj.FrameData(FrameChunks(mapped)) == mapped
  {
    LayoutFits();
    LayoutTiles();
    PlansCarry(Layout(), mapped, 0, TotalLeds);
  }

  /**
   * Four chunks for controller 2 holding 3, 3, 3 and 2 descriptors; none is
   * longer than `MaxPayloadSize`, and the three that end in a split
   * descriptor are exactly `MaxPayloadSize` long.
   */
  lemma EncodeChunkShapes(mapped: seq<byte>)
    requires |mapped| == TotalLeds
    ensures var cs := FrameChunks(mapped);
      && |cs| == 4
      && |cs[0].descriptors| == 3 && |cs[1].descriptors| == 3 && |cs[2].descriptors| == 3 && |cs[3].descriptors| == 2
      && (forall i :: 0 <= i < |cs| ==> cs[i].controller == Controller && |Ytkj.EncodeChunk(cs[i])| <= MaxPayloadSize)
      && (forall i :: 0 <= i < 3 ==> |Ytkj.EncodeChunk(cs[i])| == MaxPayloadSize)
  {
    LayoutFits();
    ChunksSizesConsistent(Cursor(0, 0, 0));
    var cs := Render(Layout(), mapped);
    forall i | 0 <= i < |cs|
      ensures |Ytkj.EncodeChunk(cs[i])| == Layout()[i].size
    {
      ChunkLength(Layout(), mapped, i);
    }
  }

  lemma {:induction false} ChunkLength(plans: seq<ChunkPlan>, mapped: seq<byte>, i: int)
    requires |mapped| == TotalLeds && PlanFits(plans) && SizesConsistent(plans)
    requires 0 <= i < |plans|
    ensures |Ytkj.EncodeChunk(Render(plans, mapped)[i])| == plans[i].size
  {
    if i == 0 {
      DescriptorsLength(plans[0].spans, mapped);
    } else {
      assert PlanFits(plans[1..]) && SizesConsistent(plans[1..]) by {
        assert forall k :: 0 <= k < |plans[1..]| ==> plans[1..][k] == plans[k + 1];
      }
      ChunkLength(plans[1..], mapped, i - 1);
      assert Render(plans, mapped)[i] == Render(plans[1..], mapped)[i - 1];
    }
  }

  /**
   * The returned count leaves out the three pads: 5580 bytes are written, 5556
   * returned, and the 24 bytes past the returned count are the last 24 LED
   * bytes of the frame.
   */
  lemma ReturnedCountOmitsPads(mapped: seq<byte>)
    requires |mapped| == TotalLeds
    ensures |Encode(mapped).written| == 5580 && Encode(mapped).byteCount == 5556
    ensures |Encode(mapped).written| - Encode(mapped).byteCount == Ytkj.PadLength * (|FrameChunks(mapped)| - 1)
    ensures Encode(mapped).written[Encode(mapped).byteCount..] == mapped[TotalLeds - 24..]
  {
    LayoutFits();
    ChunksSizesConsistent(Cursor(0, 0, 0));
    var cs := Render(Layout(), mapped);
    RenderLength(Layout(), mapped);
    Ytkj.FrameLength(cs);
    Ytkj.FrameEndsWithLastData(cs);
    var w := Encode(mapped).written;
    RenderAt(Layout(), mapped, 3);
    DescriptorAt(Layout()[3].spans, mapped, 1);
    var last := cs[3].descriptors[1].data;
    assert last == mapped[4788..5472];
    assert w[|w| - |last|..] == last;
    assert w[5556..] == last[660..];
  }

  /**
   * Where the chunks sit in the written payload: each begins with the YTKJ
   * header for controller 2 and its own descriptor count (3, 3, 3, then 2),
   * and an eight-byte zero pad precedes every chunk after the first.
   */
  lemma ChunkBoundaries(mapped: seq<byte>)
    requires |mapped| == TotalLeds
    ensures var w := Encode(mapped).written;
      && |w| >= 4450
      && w[0..10] == Ytkj.Header(Controller, 3)
      && w[1472..1480] == Zeros(8) && w[1480..1490] == Ytkj.Header(Controller, 3)
      && w[2952..2960] == Zeros(8) && w[2960..2970] == Ytkj.Header(Controller, 3)
      && w[4432..4440] == Zeros(8) && w[4440..4450] == Ytkj.Header(Controller, 2)
  {
    var cs := FrameChunks(mapped);
    assert |cs| == 4 && |cs[0].descriptors| == 3 && |cs[1].descriptors| == 3 && |cs[2].descriptors| == 3
      && |cs[3].descriptors| == 2 && cs[0].controller == cs[1].controller == cs[2].controller == cs[3].controller == Controller
      && |Ytkj.EncodeChunk(cs[0])| == |Ytkj.EncodeChunk(cs[1])| == |Ytkj.EncodeChunk(cs[2])| == MaxPayloadSize by {
      EncodeChunkShapes(mapped);
    }
    var e0, e1, e2, e3 := Ytkj.EncodeChunk(cs[0]), Ytkj.EncodeChunk(cs[1]), Ytkj.EncodeChunk(cs[2]), Ytkj.EncodeChunk(cs[3]);
    assert e0[..10] == e1[..10] == e2[..10] == Ytkj.Header(Controller, 3) && e3[..10] == Ytkj.Header(Controller, 2) && |e3| >= 10 by {
      Ytkj.ChunkStartsWithHeader(cs[0]);
      Ytkj.ChunkStartsWithHeader(cs[1]);
      Ytkj.ChunkStartsWithHeader(cs[2]);
      Ytkj.ChunkStartsWithHeader(cs[3]);
    }
    assert Encode(mapped).written == e0 + (Zeros(8) + e1 + (Zeros(8) + e2 + (Zeros(8) + e3))) by {
      Ytkj.FrameOfFour(cs);
    }
    PaddedOffsets(e0, e1, e2, e3);
  }

  lemma PaddedOffsets(e0: seq<byte>, e1: seq<byte>, e2: seq<byte>, e3: seq<byte>)
    requires |e0| == |e1| == |e2| == MaxPayloadSize && |e3| >= 10
    ensures var z := Zeros(Ytkj.PadLength); var w := e0 + (z + e1 + (z + e2 + (z + e3)));
      && w[0..10] == e0[..10]
      && w[1472..1480] == z && w[1480..1490] == e1[..10]
      && w[2952..2960] == z && w[2960..2970] == e2[..10]
      && w[4432..4440] == z && w[4440..4450] == e3[..10]
      && |w| >= 4450
  {
  }

  /** `payload_buffer`: map the screen, then encode it. */
  method PayloadBuffer(screen: seq<byte>) returns (payload: seq<byte>, byteCount: int)
    requires |screen| >= TotalLeds
    ensures payload == Encode(Mapped(screen)).written && byteCount == Encode(Mapped(screen)).byteCount
    ensures |payload| == 5580 && byteCount == 5556
    ensures Ytkj.DecodeFrame(payload) == Some(FrameChunks(Mapped(screen)))
    ensures Ytkj.FrameData(FrameChunks(Mapped(screen))) == Mapped(screen)
  {
    var mapped := MapPixels(screen);
    var p := Encode(mapped);
    EncodeCarriesFrame(mapped);
    ReturnedCountOmitsPads(mapped);
    payload, byteCount := p.written, p.byteCount;
  }

  /**
   * One tick of `led_thread`: re-encode the shared screen buffer and send the
   * first `byteCount` bytes of the payload as one datagram. The datagram lacks
   * the final 24 LED bytes of the frame.
   */
  method LedTick(screen: seq<byte>) returns (datagram: seq<byte>)
    requires |screen| >= TotalLeds
    ensures |datagram| == 5556
    ensures datagram + Mapped(screen)[TotalLeds - 24..] == Encode(Mapped(screen)).written
  {
    var payload, byteCount := PayloadBuffer(screen);
    ghost var tail := Mapped(screen)[TotalLeds - 24..];
    assert payload[byteCount..] == tail && byteCount == 5556 && |payload| == 5580 by {
      ReturnedCountOmitsPads(Mapped(screen));
    }
    datagram := payload[..byteCount];
    assert payload == datagram + tail;
  }
}
