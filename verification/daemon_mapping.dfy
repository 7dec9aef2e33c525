/**
 * The daemon's pixel remapper (`map_pixel`, `map_pixels` in raadhus_daemon.c).
 *
 * The screen is a row-major RGB grid `XRes` pixels wide. Every grid column
 * is one physical strip of `PixelsOnStrip` LEDs wired up the column on the
 * even rows and back down on the odd rows, and the mapped buffer holds the
 * columns one after the other in that wiring order.
 */
module DaemonMapping {
  import opened Bytes
  import opened Serpentine

  const XRes := 32
  const PixelsOnStrip := 57
  const StripsOnPort := 4
  const PortsInUse := 8
  /** LED bytes driven by one controller port: four chained strips of RGB pixels. */
  const LedsOnPort := 684
  /** LED bytes in one frame, and the screen bytes the remapper reads. */
  const TotalLeds := 5472
  /** LED bytes of one strip, which is one screen column. */
  const StripBytes := 171

  lemma GeometryAgrees()
    ensures LedsOnPort == PixelsOnStrip * StripsOnPort * 3
    ensures TotalLeds == LedsOnPort * PortsInUse
    ensures StripBytes == PixelsOnStrip * 3
    ensures TotalLeds == XRes * StripBytes
  {
  }

  /** Byte offset of pixel `(ix, iy)` in the row-major screen. */
  function PixelOffset(ix: int, iy: int): (p: int)
    requires 0 <= ix < XRes && 0 <= iy < PixelsOnStrip
    ensures 0 <= p && p + 3 <= TotalLeds
  {
    (ix + iy * XRes) * 3
  }

  /** `map_pixel`: the three colour bytes of pixel `(ix, iy)`. */
  function MapPixel(screen: seq<byte>, ix: int, iy: int): (rgb: seq<byte>)
    requires |screen| >= TotalLeds
    requires 0 <= ix < XRes && 0 <= iy < PixelsOnStrip
    ensures |rgb| == 3 && (ix + iy * XRes) * 3 + 3 <= TotalLeds
    ensures forall t :: 0 <= t < 3 ==> rgb[t] == screen[(ix + iy * XRes) * 3 + t]
  {
    screen[PixelOffset(ix, iy)..PixelOffset(ix, iy) + 3]
  }

  lemma StripDivision(c: int, r: int)
    requires 0 <= r < StripBytes
    ensures (StripBytes * c + r) / StripBytes == c && (StripBytes * c + r) % StripBytes == r
  {
  }

  lemma PixelDivision(k: int, t: int)
    requires 0 <= t < 3
    ensures (3 * k + t) / 3 == k && (3 * k + t) % 3 == t
  {
  }

  /** Byte `j` of strip `ix`: byte `j % 3` of column `ix`, row `SerpentineRow(57, j / 3)`. */
  function StripByte(screen: seq<byte>, ix: int, j: int): byte
    requires |screen| >= TotalLeds && 0 <= ix < XRes && 0 <= j < StripBytes
  {
    SerpentineBijective(PixelsOnStrip);
    screen[PixelOffset(ix, SerpentineRow(PixelsOnStrip, j / 3)) + j % 3]
  }

  /** Strip `ix`: column `ix` in wiring order. */
  function Strip(screen: seq<byte>, ix: int): (r: seq<byte>)
    requires |screen| >= TotalLeds && 0 <= ix < XRes
    ensures |r| == StripBytes
  {
    seq(StripBytes, j requires 0 <= j < StripBytes => StripByte(screen, ix, j))
  }

  /** The mapped frame: every strip in column order. */
  function Mapped(screen: seq<byte>): (r: seq<byte>)
    requires |screen| >= TotalLeds
    ensures |r| == TotalLeds
  {
    seq(TotalLeds, i requires 0 <= i < TotalLeds => StripByte(screen, i / StripBytes, i % StripBytes))
  }

  lemma MappedStrip(screen: seq<byte>, ix: int)
    requires |screen| >= TotalLeds && 0 <= ix < XRes
    ensures Mapped(screen)[StripBytes * ix..StripBytes * (ix + 1)] == Strip(screen, ix)
  {
    forall j | 0 <= j < StripBytes
      ensures Mapped(screen)[StripBytes * ix + j] == Strip(screen, ix)[j]
    {
      StripDivision(ix, j);
    }
  }

  /** Byte `t` of pixel `k` of strip `c`: byte `t` of column `c`, row `SerpentineRow(57, k)`. */
  lemma StripAt(screen: seq<byte>, c: int, k: int, t: int)
    requires |screen| >= TotalLeds
    requires 0 <= c < XRes && 0 <= k < PixelsOnStrip && 0 <= t < 3
    ensures 0 <= SerpentineRow(PixelsOnStrip, k) < PixelsOnStrip
    ensures Strip(screen, c)[3 * k + t] == screen[PixelOffset(c, SerpentineRow(PixelsOnStrip, k)) + t]
    ensures Mapped(screen)[StripBytes * c + 3 * k + t] == Strip(screen, c)[3 * k + t]
  {
    SerpentineBijective(PixelsOnStrip);
    PixelDivision(k, t);
    StripDivision(c, 3 * k + t);
  }

  /**
   * The mapped frame in closed form: byte `t` of pixel `57 * c + k` is byte `t`
   * of column `c`, row `2k` for `k <= 28` and row `55 - 2(k - 29)` after that.
   */
  lemma MappedAt(screen: seq<byte>, c: int, k: int, t: int)
    requires |screen| >= TotalLeds
    requires 0 <= c < XRes && 0 <= k < PixelsOnStrip && 0 <= t < 3
    ensures Mapped(screen)[3 * (PixelsOnStrip * c + k) + t]
         == screen[(c + (if k <= 28 then 2 * k else 55 - 2 * (k - 29)) * XRes) * 3 + t]
  {
    StripAt(screen, c, k, t);
  }

  /** Pixel `57 * c + k` of the mapped frame is what `map_pixel` copies for column `c` and the row the strip visits `k`-th. */
  lemma MappedPixel(screen: seq<byte>, c: int, k: int)
    requires |screen| >= TotalLeds
    requires 0 <= c < XRes && 0 <= k < PixelsOnStrip
    ensures var i, row := 3 * (PixelsOnStrip * c + k), SerpentineRow(PixelsOnStrip, k);
      Mapped(screen)[i..i + 3] == MapPixel(screen, c, row)
  {
    var i := 3 * (PixelsOnStrip * c + k);
    var o := PixelOffset(c, SerpentineRow(PixelsOnStrip, k));
    assert Mapped(screen)[i] == screen[o] by { StripAt(screen, c, k, 0); }
    assert Mapped(screen)[i + 1] == screen[o + 1] by { StripAt(screen, c, k, 1); }
    assert Mapped(screen)[i + 2] == screen[o + 2] by { StripAt(screen, c, k, 2); }
    SameTriple(Mapped(screen), i, screen, o);
  }

  /** Two triples that agree byte by byte are equal. */
  lemma SameTriple(a: seq<byte>, i: int, b: seq<byte>, o: int)
    requires 0 <= i && i + 3 <= |a| && 0 <= o && o + 3 <= |b|
    requires a[i] == b[o] && a[i + 1] == b[o + 1] && a[i + 2] == b[o + 2]
    ensures a[i..i + 3] == b[o..o + 3]
  {
    assert a[i..i + 3] == [b[o], b[o + 1], b[o + 2]];
  }

  /**
   * Every screen byte below `TotalLeds` lands in the mapped frame exactly once:
   * pixel `(c, r)` is found at position `57 * c + SerpentinePosition(57, r)`.
   */
  lemma MappedCoversScreen(screen: seq<byte>, c: int, r: int, t: int)
    requires |screen| >= TotalLeds
    requires 0 <= c < XRes && 0 <= r < PixelsOnStrip && 0 <= t < 3
    ensures 0 <= SerpentinePosition(PixelsOnStrip, r) < PixelsOnStrip
    ensures Mapped(screen)[3 * (PixelsOnStrip * c + SerpentinePosition(PixelsOnStrip, r)) + t] == screen[PixelOffset(c, r) + t]
  {
    SerpentineBijective(PixelsOnStrip);
    StripAt(screen, c, SerpentinePosition(PixelsOnStrip, r), t);
  }

  /** The remapper reads nothing at or beyond `TotalLeds`: screens that agree below it map alike. */
  lemma MappedReadsOnlyFrame(a: seq<byte>, b: seq<byte>)
    requires |a| >= TotalLeds && |b| >= TotalLeds
    requires a[..TotalLeds] == b[..TotalLeds]
    ensures Mapped(a) == Mapped(b)
  {
    forall i | 0 <= i < TotalLeds
      ensures Mapped(a)[i] == Mapped(b)[i]
    {
      SerpentineBijective(PixelsOnStrip);
      var ix, j := i / StripBytes, i % StripBytes;
      var p := PixelOffset(ix, SerpentineRow(PixelsOnStrip, j / 3)) + j % 3;
      assert a[p] == a[..TotalLeds][p] == b[..TotalLeds][p] == b[p];
    }
  }

  /** `strip` is a prefix of strip `ix`. */
  predicate StripPrefix(screen: seq<byte>, ix: int, strip: seq<byte>)
    requires |screen| >= TotalLeds && 0 <= ix < XRes
  {
    |strip| <= StripBytes && forall j :: 0 <= j < |strip| ==> strip[j] == Strip(screen, ix)[j]
  }

  /**
   * The two row loops of `map_pixels` visit the rows `StripRows(57)`, and
   * strip `ix` holds, pixel by pixel, what `map_pixel` copies for those rows.
   */
  lemma StripFollowsLoops(screen: seq<byte>, ix: int, k: int)
    requires |screen| >= TotalLeds && 0 <= ix < XRes && 0 <= k < PixelsOnStrip
    ensures |StripRows(PixelsOnStrip)| == PixelsOnStrip && 0 <= StripRows(PixelsOnStrip)[k] < PixelsOnStrip
    ensures Strip(screen, ix)[3 * k..3 * k + 3] == MapPixel(screen, ix, StripRows(PixelsOnStrip)[k])
  {
    StripRowsOdd(PixelsOnStrip);
    StripPixel(screen, ix, k);
  }

  /** The `k`-th pixel of strip `ix` is the screen pixel in its serpentine row. */
  lemma StripPixel(screen: seq<byte>, ix: int, k: int)
    requires |screen| >= TotalLeds && 0 <= ix < XRes && 0 <= k < PixelsOnStrip
    ensures 0 <= SerpentineRow(PixelsOnStrip, k) < PixelsOnStrip
    ensures Strip(screen, ix)[3 * k..3 * k + 3] == MapPixel(screen, ix, SerpentineRow(PixelsOnStrip, k))
  {
    var o := PixelOffset(ix, SerpentineRow(PixelsOnStrip, k));
    assert Strip(screen, ix)[3 * k] == screen[o] by { StripAt(screen, ix, k, 0); }
    assert Strip(screen, ix)[3 * k + 1] == screen[o + 1] by { StripAt(screen, ix, k, 1); }
    assert Strip(screen, ix)[3 * k + 2] == screen[o + 2] by { StripAt(screen, ix, k, 2); }
    SameTriple(Strip(screen, ix), 3 * k, screen, o);
  }

  /** Appending the pixel of `row` to the first `k` pixels of strip `ix` gives its first `k + 1` when `row` is visited `k`-th. */
  lemma AppendPixel(screen: seq<byte>, ix: int, strip: seq<byte>, k: int, row: int)
    requires |screen| >= TotalLeds && 0 <= ix < XRes
    requires 0 <= k < PixelsOnStrip && |strip| == 3 * k && StripPrefix(screen, ix, strip)
    requires 0 <= row < PixelsOnStrip && row == SerpentineRow(PixelsOnStrip, k)
    ensures StripPrefix(screen, ix, strip + MapPixel(screen, ix, row))
  {
    var s := strip + MapPixel(screen, ix, row);
    forall j | 0 <= j < |s|
      ensures s[j] == Strip(screen, ix)[j]
    {
      if j >= 3 * k {
        StripAt(screen, ix, k, j - 3 * k);
      }
    }
  }

  /**
   * The body of `map_pixels` for one strip: the upward run over the even rows,
   * then the downward run from row `PixelsOnStrip - 2`.
   */
  method MapStrip(screen: seq<byte>, ix: int) returns (strip: seq<byte>)
    requires |screen| >= TotalLeds && 0 <= ix < XRes
    ensures strip == Strip(screen, ix)
  {
    strip := [];
    var iy := 0;
    while iy < PixelsOnStrip
      invariant 0 <= iy <= PixelsOnStrip + 1 && iy % 2 == 0
      invariant |strip| == 3 * (iy / 2) && StripPrefix(screen, ix, strip)
    {
      AppendPixel(screen, ix, strip, iy / 2, iy);
      strip := strip + MapPixel(screen, ix, iy);
      iy := iy + 2;
    }
    iy := PixelsOnStrip - 2;
    while iy >= 0
      invariant -1 <= iy <= PixelsOnStrip - 2 && iy % 2 == 1
      invariant |strip| == 3 * (PixelsOnStrip - 1 - iy / 2) && StripPrefix(screen, ix, strip)
    {
      AppendPixel(screen, ix, strip, PixelsOnStrip - 1 - iy / 2, iy);
      strip := strip + MapPixel(screen, ix, iy);
      iy := iy - 2;
    }
  }

  /** `map_pixels`: the columns in groups of `StripsOnPort`, one strip each. */
  method MapPixels(screen: seq<byte>) returns (mapped: seq<byte>)
    requires |screen| >= TotalLeds
    ensures mapped == Mapped(screen)
  {
    mapped := [];
    var ix := 0;
    while ix < XRes
      invariant 0 <= ix <= XRes && ix % StripsOnPort == 0
      invariant mapped == Mapped(screen)[..StripBytes * ix]
      decreases XRes - ix
    {
      ghost var first := ix;
      var i := 0;
      while i < StripsOnPort
        invariant 0 <= i <= StripsOnPort && ix == first + i && ix <= XRes
        invariant mapped == Mapped(screen)[..StripBytes * ix]
      {
        var strip := MapStrip(screen, ix);
        MappedStrip(screen, ix);
        mapped := mapped + strip;
        ix := ix + 1;
        i := i + 1;
      }
    }
  }

  // ---------------------------------------------------------------------------
  // Startup test pattern

  /** The byte `main` writes at `i < TotalLeds` of the screen buffer before anything is received: pixel `(x, y)` holds `[y, x, 0]`. */
  function PatternByte(i: int): (b: byte)
    requires 0 <= i < TotalLeds
  {
    var pixel, t := i / 3, i % 3;
    var y, x := pixel / XRes, pixel % XRes;
    if t == 0 then y else if t == 1 then x else 0
  }

  /** The screen buffer after `main`'s start-up loop: the pattern below `TotalLeds`, whatever `buffer` held beyond. */
  function StartupScreen(buffer: seq<byte>): (screen: seq<byte>)
    requires |buffer| >= TotalLeds
    ensures |screen| == |buffer| && screen[TotalLeds..] == buffer[TotalLeds..]
  {
    seq(|buffer|, i requires 0 <= i < |buffer| => if i < TotalLeds then PatternByte(i) else buffer[i])
  }

  /** Pixel `(x, y)` of the start-up screen is red `y`, green `x`, blue 0. */
  lemma StartupPixel(buffer: seq<byte>, x: int, y: int)
    requires |buffer| >= TotalLeds && 0 <= x < XRes && 0 <= y < PixelsOnStrip
    ensures MapPixel(StartupScreen(buffer), x, y) == [y, x, 0]
  {
    var p := PixelOffset(x, y);
    assert p / 3 == x + y * XRes && (p + 1) / 3 == x + y * XRes && (p + 2) / 3 == x + y * XRes;
    assert (x + y * XRes) / XRes == y && (x + y * XRes) % XRes == x;
  }

  /**
   * Until the first frame arrives the strips show the pattern in wiring order:
   * triple `57 * c + k` of the mapped frame is `[row, c, 0]` for the row the
   * strip visits `k`-th.
   */
  lemma StartupPatternMapped(buffer: seq<byte>, c: int, k: int)
    requires |buffer| >= TotalLeds && 0 <= c < XRes && 0 <= k < PixelsOnStrip
    ensures var i, row := 3 * (PixelsOnStrip * c + k), SerpentineRow(PixelsOnStrip, k);
      Mapped(StartupScreen(buffer))[i..i + 3] == [row, c, 0]
  {
    var row := SerpentineRow(PixelsOnStrip, k);
    MappedPixel(StartupScreen(buffer), c, k);
    StartupPixel(buffer, c, row);
  }
}
