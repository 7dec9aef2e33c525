/**
 * The single-packet YTKJ encoder of the Java debug tool (`SimpleTouch.update`
 * and `setPixelPayload` in java-debug/SimpleTouch.java).
 *
 * Unlike the daemon it never splits a packet: each port gets one descriptor
 * at a fixed 2048-channel step, covering two adjacent screen columns, and
 * every screen value is quantised to one of four colours. The packet is a
 * fixed 2702-byte array, sent whole.
 */
module SimpleTouch {
  import opened Bytes
  import opened Serpentine
  import opened Wrappers
  import Ytkj

  /** A Java `byte`: signed. */
  type jbyte = b: int | -128 <= b < 128

  const PortsPerController := 8
  /** Per port: the length of the downward run, then of the upward run. */
  const PortMap: seq<int> := [58, 56, 48, 48]
  const NumberOfControllers := 1
  const NumberOfPortsInUse := 2
  const XRes := 4
  const YRes := 58
  const PayloadLength := 2702

  // ---------------------------------------------------------------------------
  // setPixelPayload

  /** Java's `a % 4`: the remainder takes the sign of the dividend. */
  function JavaRem4(a: int): (r: int)
    ensures a >= 0 ==> 0 <= r < 4
    ensures a < 0 ==> -4 < r <= 0
    ensures (a - r) % 4 == 0
  {
    if a >= 0 then a % 4 else -((-a) % 4)
  }

  /** The colour `setPixelPayload` picks for screen value `v`, as a `0xBBGGRR`-style integer. */
  function Colour(v: jbyte): (c: int)
    ensures c in {0x000000, 0x00007f, 0x007f00, 0x7f0000}
    ensures v >= 0 ==> c == [0x000000, 0x00007f, 0x007f00, 0x7f0000][v % 4]
  {
    match JavaRem4(v)
    case 0 => 0x000000
    case 1 => 0x00007f
    case 2 => 0x007f00
    case _ => 0x7f0000
  }

  /**
   * The colour in terms of the value's residue modulo 4: a non-negative value
   * picks by its residue, a negative one is black when divisible by 4 and
   * `0x7f0000` otherwise, since Java's negative remainders fall to the default.
   */
  lemma ColourByResidue(v: jbyte)
    ensures Colour(v) == 0x000000 <==> v % 4 == 0
    ensures Colour(v) == 0x00007f <==> v >= 0 && v % 4 == 1
    ensures Colour(v) == 0x007f00 <==> v >= 0 && v % 4 == 2
    ensures Colour(v) == 0x7f0000 <==> (v >= 0 && v % 4 == 3) || (v < 0 && v % 4 != 0)
  {
    if v < 0 {
      assert (-(v as int)) % 4 == 0 <==> v % 4 == 0;
    }
  }

  /** The three bytes `setPixelPayload` writes: the colour, low byte first. */
  function PixelBytes(v: jbyte): (rgb: seq<byte>)
    ensures |rgb| == 3
    ensures rgb[0] as int + 256 * rgb[1] as int + 65536 * rgb[2] as int == Colour(v)
  {
    var c := Colour(v);
    [LowByte(c), HighByte(c), LowByte(c / 65536)]
  }

  /** At most one of the three bytes is lit, and a lit one is `0x7f`. */
  lemma PixelBytesLittleEndian(v: jbyte)
    ensures forall i, j :: 0 <= i < j < 3 ==> PixelBytes(v)[i] == 0 || PixelBytes(v)[j] == 0
    ensures forall i :: 0 <= i < 3 ==> PixelBytes(v)[i] in {0, 0x7f}
  {
  }

  // ---------------------------------------------------------------------------
  // update

  /** `portsInUse` for `controller`: what is left of the ports in use, at most a controller's worth. */
  function PortsInUse(controller: int): (n: int)
    ensures n <= PortsPerController
    ensures n <= NumberOfPortsInUse - (controller - 1) * PortsPerController
    ensures n == PortsPerController || n == NumberOfPortsInUse - (controller - 1) * PortsPerController
  {
    var n := NumberOfPortsInUse - (controller - 1) * PortsPerController;
    if n > PortsPerController then PortsPerController else n
  }

  /** Ports `PortMap` describes. */
  const MappedPorts := |PortMap| / 2

  /** The rows port `p` visits in each of its columns: downward from `PortMap[2p] - 1`, then upward below `PortMap[2p + 1]`. */
  function PortRows(p: int): (rows: seq<int>)
    requires 0 <= p < MappedPorts
    ensures forall j :: 0 <= j < |rows| ==> 0 <= rows[j] < YRes
  {
    DownRowsBounds(PortMap[2 * p] - 1);
    UpRowsBounds(0, PortMap[2 * p + 1]);
    DownRows(PortMap[2 * p] - 1) + UpRows(0, PortMap[2 * p + 1])
  }

  /** The screen is `ledScreen`, exactly `XRes * YRes` values. */
  predicate ValidScreen(screen: seq<jbyte>)
  {
    |screen| == XRes * YRes
  }

  /** The colours of column `ix` at `rows`, read at `ix + iy * xRes`. */
  function ColumnBytes(screen: seq<jbyte>, ix: int, rows: seq<int>): (r: seq<byte>)
    requires ValidScreen(screen) && 0 <= ix < XRes
    requires forall j :: 0 <= j < |rows| ==> 0 <= rows[j] < YRes
    ensures |r| == 3 * |rows|
  {
    if rows == [] then [] else PixelBytes(screen[ix + rows[0] * XRes]) + ColumnBytes(screen, ix, rows[1..])
  }

  /** The LED bytes of port `p`: columns `ix` and `ix + 1`, each in the port's row order. */
  function PortData(screen: seq<jbyte>, p: int, ix: int): seq<byte>
    requires ValidScreen(screen) && 0 <= p < MappedPorts && 0 <= ix && ix + 1 < XRes
  {
    ColumnBytes(screen, ix, PortRows(p)) + ColumnBytes(screen, ix + 1, PortRows(p))
  }

  /** The LED-byte count port `p`'s descriptor declares: `(PORT_MAP[2p] + PORT_MAP[2p+1]) * 3`. */
  function DeclaredLength(p: int): int
    requires 0 <= p < MappedPorts
  {
    (PortMap[2 * p] + PortMap[2 * p + 1]) * 3
  }

  /** Port `p`'s descriptor: channel `p * 2048`, the declared length, then the port's data. */
  function PortDescriptor(screen: seq<jbyte>, p: int, ix: int): seq<byte>
    requires ValidScreen(screen) && 0 <= p < MappedPorts && 0 <= ix && ix + 1 < XRes
  {
    Ytkj.DescriptorBytes(p * Ytkj.PortChannels, DeclaredLength(p), PortData(screen, p, ix))
  }

  /** The descriptors of ports `p .. n - 1`, the first reading columns `ix` and `ix + 1`. */
  function Ports(screen: seq<jbyte>, p: int, n: int, ix: int): seq<byte>
    requires ValidScreen(screen) && 0 <= p && n <= MappedPorts && 0 <= ix && ix + 2 * (n - p) <= XRes
    decreases n - p
  {
    if p >= n then [] else PortDescriptor(screen, p, ix) + Ports(screen, p + 1, n, ix + 2)
  }

  /** The ports `controller` drives, and the columns they read from `ix` on, all exist. */
  predicate ControllerFits(controller: int, ix: int)
  {
    PortsInUse(controller) <= MappedPorts && 0 <= ix && ix + 2 * PortsInUse(controller) <= XRes
  }

  /** The columns `controller`'s ports consume. */
  function ColumnsUsed(controller: int): nat
  {
    if PortsInUse(controller) > 0 then 2 * PortsInUse(controller) else 0
  }

  /** What one iteration of the controller loop writes from index 0 on. */
  function ControllerWrites(screen: seq<jbyte>, controller: int, ix: int): seq<byte>
    requires ValidScreen(screen) && ControllerFits(controller, ix)
  {
    Ytkj.Header(LowByte(controller), LowByte(PortsInUse(controller))) + Ports(screen, 0, PortsInUse(controller), ix)
  }

  /** Array `a` after writing `w` from index 0 on. */
  function Overlay(a: seq<byte>, w: seq<byte>): (r: seq<byte>)
    requires |w| <= |a|
    ensures |r| == |a| && r[..|w|] == w && r[|w|..] == a[|w|..]
  {
    w + a[|w|..]
  }

  /**
   * The controller loop from `controller` on: `payload` is the one array every
   * iteration writes into and sends whole; `ix` carries on from the previous
   * controller instead of starting again at 0.
   */
  function Sends(screen: seq<jbyte>, controller: int, ix: int, payload: seq<byte>): (sent: seq<seq<byte>>)
    requires ValidScreen(screen) && 1 <= controller && |payload| == PayloadLength
    requires controller <= NumberOfControllers ==> ControllerFits(controller, ix) && |ControllerWrites(screen, controller, ix)| <= PayloadLength
    ensures |sent| == if controller <= NumberOfControllers then NumberOfControllers - controller + 1 else 0
    ensures forall k :: 0 <= k < |sent| ==> |sent[k]| == PayloadLength
    ensures sent != [] ==> var w := ControllerWrites(screen, controller, ix);
      sent[0][..|w|] == w && sent[0][|w|..] == payload[|w|..]
    decreases NumberOfControllers - controller
  {
    if controller > NumberOfControllers then []
    else
      var sent := Overlay(payload, ControllerWrites(screen, controller, ix));
      [sent] + Sends(screen, controller + 1, ix + ColumnsUsed(controller), sent)
  }

  /** The packets `update` sends for one screen. */
  function Update(screen: seq<jbyte>): (packets: seq<seq<byte>>)
    requires ValidScreen(screen)
    ensures |packets| == NumberOfControllers
    ensures forall k :: 0 <= k < |packets| ==> |packets[k]| == PayloadLength
    ensures packets[0][..648] == ControllerWrites(screen, 1, 0) && packets[0][648..] == Zeros(PayloadLength - 648)
  {
    ShippedPacketFits(screen);
    Sends(screen, 1, 0, Ytkj.Tag + Zeros(PayloadLength - 4))
  }

  // ---------------------------------------------------------------------------
  // Properties

  lemma {:induction false} ColumnBytesAt(screen: seq<jbyte>, ix: int, rows: seq<int>, j: int, t: int)
    requires ValidScreen(screen) && 0 <= ix < XRes
    requires forall j :: 0 <= j < |rows| ==> 0 <= rows[j] < YRes
    requires 0 <= j < |rows| && 0 <= t < 3
    ensures ColumnBytes(screen, ix, rows)[3 * j + t] == PixelBytes(screen[ix + rows[j] * XRes])[t]
  {
    if j > 0 {
      ColumnBytesAt(screen, ix, rows[1..], j - 1, t);
    }
  }

  /**
   * Port `p`'s rows with an even `PORT_MAP`: `PortMap[2p] / 2` rows downward
   * from `PortMap[2p] - 1`, then `PortMap[2p + 1] / 2` rows upward from 0.
   */
  lemma PortRowsOrder(p: int)
    requires 0 <= p < MappedPorts
    ensures var a, b := PortMap[2 * p], PortMap[2 * p + 1];
      && |PortRows(p)| == a / 2 + b / 2
      && (forall k :: 0 <= k < a / 2 ==> PortRows(p)[k] == a - 1 - 2 * k)
      && (forall k :: a / 2 <= k < a / 2 + b / 2 ==> PortRows(p)[k] == 2 * (k - a / 2))
  {
    DownRowsShape(PortMap[2 * p] - 1);
    UpRowsShape(0, PortMap[2 * p + 1]);
  }

  /** With the shipped, even `PORT_MAP` the declared length is exactly the bytes written for the port. */
  lemma DeclaredLengthMatches(screen: seq<jbyte>, p: int, ix: int)
    requires ValidScreen(screen) && 0 <= p < MappedPorts && 0 <= ix && ix + 1 < XRes
    ensures |PortData(screen, p, ix)| == DeclaredLength(p)
    ensures PortDescriptor(screen, p, ix) == Ytkj.EncodeDescriptor(Ytkj.Descriptor(p * Ytkj.PortChannels, PortData(screen, p, ix)))
  {
    PortRowsOrder(p);
  }

  /**
   * Byte `t` of pixel `j` of a port's data (`PortData` with `rows :=
   * PortRows(p)`): the first `|rows|` pixels are column `ix` in the port's row
   * order, the next as many are column `ix + 1` in the same order.
   */
  lemma TwoColumnsAt(screen: seq<jbyte>, ix: int, rows: seq<int>, j: int, t: int)
    requires ValidScreen(screen) && 0 <= ix && ix + 1 < XRes
    requires forall j :: 0 <= j < |rows| ==> 0 <= rows[j] < YRes
    requires 0 <= j < 2 * |rows| && 0 <= t < 3
    ensures var both := ColumnBytes(screen, ix, rows) + ColumnBytes(screen, ix + 1, rows);
      && (j < |rows| ==> both[3 * j + t] == PixelBytes(screen[ix + rows[j] * XRes])[t])
      && (|rows| <= j ==> both[3 * j + t] == PixelBytes(screen[ix + 1 + rows[j - |rows|] * XRes])[t])
  {
    var a := ColumnBytes(screen, ix, rows);
    var b := ColumnBytes(screen, ix + 1, rows);
    if j < |rows| {
      ColumnBytesAt(screen, ix, rows, j, t);
      assert (a + b)[3 * j + t] == a[3 * j + t];
    } else {
      ColumnBytesAt(screen, ix + 1, rows, j - |rows|, t);
      assert (a + b)[3 * j + t] == b[3 * (j - |rows|) + t];
    }
  }

  lemma ShippedPacketFits(screen: seq<jbyte>)
    requires ValidScreen(screen)
    ensures ControllerFits(1, 0) && |ControllerWrites(screen, 1, 0)| == 648
  {
    DeclaredLengthMatches(screen, 0, 0);
    DeclaredLengthMatches(screen, 1, 2);
    assert Ports(screen, 2, 2, 4) == [];
  }

  /**
   * `update` sends one 2702-byte packet: the header for controller 1 with two
   * ports in use, port 0's descriptor at channel 0 over columns 0 and 1, port
   * 1's at channel 2048 over columns 2 and 3, and zeros after the 648 bytes filled.
   */
  lemma UpdateSendsOnePacket(screen: seq<jbyte>)
    requires ValidScreen(screen)
    ensures |Update(screen)| == 1
    ensures var packet := Update(screen)[0];
      && |packet| == PayloadLength
      && packet[..10] == ['Y' as int, 'T' as int, 'K' as int, 'J' as int, 1, 0, 0x57, 0x05, 2, 0]
      && packet == Ytkj.EncodeChunk(Ytkj.Chunk(1, [
           Ytkj.Descriptor(0, PortData(screen, 0, 0)),
           Ytkj.Descriptor(Ytkj.PortChannels, PortData(screen, 1, 2))])) + Zeros(PayloadLength - 648)
  {
    ShippedPacketFits(screen);
    DeclaredLengthMatches(screen, 0, 0);
    DeclaredLengthMatches(screen, 1, 2);
    assert Ports(screen, 2, 2, 4) == [];
    var d0 := Ytkj.Descriptor(0, PortData(screen, 0, 0));
    var d1 := Ytkj.Descriptor(Ytkj.PortChannels, PortData(screen, 1, 2));
    assert Ytkj.EncodeDescriptors([d0, d1]) == Ytkj.EncodeDescriptor(d0) + Ytkj.EncodeDescriptor(d1) by {
      assert [d0, d1][1..] == [d1];
      assert [d1][1..] == [];
      assert Ytkj.EncodeDescriptors([d1]) == Ytkj.EncodeDescriptor(d1) + Ytkj.EncodeDescriptors([]);
    }
    var w := ControllerWrites(screen, 1, 0);
    assert w == Ytkj.EncodeChunk(Ytkj.Chunk(1, [d0, d1]));
    var packet := Overlay(Ytkj.Tag + Zeros(PayloadLength - 4), w);
    assert packet[|w|..] == Zeros(PayloadLength - 648);
    assert packet == w + packet[|w|..];
  }

  /** The packet decodes as one chunk for controller 1 whose two descriptors carry the ports' data; the rest is zeros. */
  lemma UpdateDecodes(screen: seq<jbyte>)
    requires ValidScreen(screen)
    ensures Ytkj.DecodeChunk(Update(screen)[0]) == Some((Ytkj.Chunk(1, [
              Ytkj.Descriptor(0, PortData(screen, 0, 0)),
              Ytkj.Descriptor(Ytkj.PortChannels, PortData(screen, 1, 2))]), Zeros(PayloadLength - 648)))
  {
    UpdateSendsOnePacket(screen);
    DeclaredLengthMatches(screen, 0, 0);
    DeclaredLengthMatches(screen, 1, 2);
    Ytkj.ChunkRoundTrip(Ytkj.Chunk(1, [
      Ytkj.Descriptor(0, PortData(screen, 0, 0)),
      Ytkj.Descriptor(Ytkj.PortChannels, PortData(screen, 1, 2))]), Zeros(PayloadLength - 648));
  }
}
