/** The ST7789 drawing primitives: filled rectangles streamed through the
    fixed scratch buffer, lines of the rectangle outline, single pixels,
    buffer blits and one-row text. Every primitive returns the events it
    appends to the bus together with the scratch buffer it leaves behind. */
module St7789Draw {
  import opened Bytes
  import opened Results
  import opened St7789Bus
  import Arith
  import Utf8

  const PIXEL_LEN := 2
  const FONT_WIDTH := 8
  const FONT_HEIGHT := 8

  /** What a successful drawing call leaves: the display (its scratch buffer
      possibly rewritten) and the events it sent, in order. */
  datatype Drawn = Drawn(display: Display, trace: seq<Event>)

  /** The two bytes of pixel `k` in a stream of big-endian pixels. */
  function PixelBytes(p: seq<bv8>, k: int): seq<bv8>
    requires 0 <= k && 2 * k + 2 <= |p|
  {
    p[2 * k..2 * k + 2]
  }

  /** `n` pixels of `color`, big-endian, as `framebuf` lays them out in a
      RGB565 buffer once the driver has byte-swapped the colour. */
  function Solid(color: int, n: nat): (p: seq<bv8>)
    ensures |p| == 2 * n
    ensures forall k :: 0 <= k < n ==> PixelBytes(p, k) == Be16(color)
  {
    var c := Be16(color);
    var p := seq(2 * n, i requires 0 <= i < 2 * n => c[i % 2]);
    assert forall k :: 0 <= k < n ==> PixelBytes(p, k) == c by {
      forall k | 0 <= k < n ensures PixelBytes(p, k) == c {
        assert p[2 * k] == c[0] && p[2 * k + 1] == c[1];
      }
    }
    p
  }

  lemma SolidAppend(color: int, a: nat, b: nat)
    ensures Solid(color, a) + Solid(color, b) == Solid(color, a + b)
  {
    var l := Solid(color, a) + Solid(color, b);
    var r := Solid(color, a + b);
    forall i | 0 <= i < |r| ensures l[i] == r[i] {
      if i >= 2 * a {
        assert (i - 2 * a) % 2 == i % 2;
      }
    }
  }

  lemma SolidPrefix(color: int, a: nat, b: nat)
    requires b <= a
    ensures Solid(color, a)[..2 * b] == Solid(color, b)
  {
  }

  /** `framebuf.FrameBuffer(buf, len(buf) // 2, 1, RGB565).fill(colour)`:
      every whole pixel of the buffer gets the colour; the odd last byte of an
      odd-length buffer is outside the frame buffer and keeps its value. */
  function FillPattern(buf: seq<bv8>, color: int): (r: seq<bv8>)
    ensures |r| == |buf|
    ensures |buf| % 2 == 0 ==> r == Solid(color, |buf| / 2)
    ensures |buf| % 2 == 1 ==> r[..|buf| - 1] == Solid(color, |buf| / 2) && r[|buf| - 1] == buf[|buf| - 1]
  {
    var c := Be16(color);
    var n := |buf| - |buf| % 2;
    seq(|buf|, i requires 0 <= i < |buf| => if i < n then c[i % 2] else buf[i])
  }

  /** Filling an already filled buffer with the same colour changes nothing. */
  lemma FillPatternIdempotent(buf: seq<bv8>, color: int)
    ensures FillPattern(FillPattern(buf, color), color) == FillPattern(buf, color)
  {
  }

  /** `n` transfers of the whole buffer. */
  function Chunks(b: seq<bv8>, n: nat): (t: seq<Event>)
    ensures |t| == n
    ensures forall i :: 0 <= i < n ==> t[i] == Data(b)
  {
    seq(n, _ => Data(b))
  }

  lemma PayloadSingle(b: seq<bv8>)
    ensures Payload([Data(b)]) == b
  {
    assert [Data(b)][1..] == [];
  }

  lemma {:induction false} ChunksLength(b: seq<bv8>, n: nat)
    ensures |Payload(Chunks(b, n))| == n * |b|
  {
    if n > 0 {
      assert Chunks(b, n) == [Data(b)] + Chunks(b, n - 1);
      PayloadAppend([Data(b)], Chunks(b, n - 1));
      PayloadSingle(b);
      ChunksLength(b, n - 1);
    } else {
      assert Chunks(b, n) == [];
    }
  }

  lemma {:induction false} ChunksSolid(color: int, m: nat, n: nat)
    ensures Payload(Chunks(Solid(color, m), n)) == Solid(color, n * m)
  {
    var b := Solid(color, m);
    if n > 0 {
      assert Chunks(b, n) == [Data(b)] + Chunks(b, n - 1);
      PayloadAppend([Data(b)], Chunks(b, n - 1));
      PayloadSingle(b);
      ChunksSolid(color, m, n - 1);
      SolidAppend(color, m, (n - 1) * m);
      assert m + (n - 1) * m == n * m;
    } else {
      assert Chunks(b, n) == [];
    }
  }

  /** The events that follow the window in `fill_rect`: `chunks` copies of
      the whole buffer, then the first `rest` bytes if `rest` is non-zero.
      `range(chunks)` is empty for a negative count. */
  function FillStream(buf: seq<bv8>, total: int): (s: seq<Event>)
    requires |buf| > 0
    ensures DataOnly(s)
    ensures forall i :: 0 <= i < |s| ==>
              0 < |s[i].bytes| <= |buf| && s[i].bytes == buf[..|s[i].bytes|]
    ensures forall i :: 0 <= i < |s| - 1 ==> |s[i].bytes| == |buf|
  {
    var chunks := total / |buf|;
    var rest := total % |buf|;
    var full := Chunks(buf, if chunks > 0 then chunks else 0);
    var tail := if rest != 0 then [Data(buf[..rest])] else [];
    full + tail
  }

  /** However the window fared, the stream carries `total` bytes, or
      `total mod len(buf)` bytes when `total` is negative (Python's floor
      `divmod` then gives a negative chunk count and a positive rest). */
  lemma FillStreamLength(buf: seq<bv8>, total: int)
    requires |buf| > 0
    ensures total >= 0 ==> |Payload(FillStream(buf, total))| == total
    ensures total < 0 ==> |Payload(FillStream(buf, total))| == total % |buf|
  {
    var L := |buf|;
    var chunks := total / L;
    var rest := total % L;
    var n: nat := if chunks > 0 then chunks else 0;
    var full := Chunks(buf, n);
    var tail := if rest != 0 then [Data(buf[..rest])] else [];
    Arith.FloorSign(total, L);
    PayloadAppend(full, tail);
    ChunksLength(buf, n);
    if rest != 0 { PayloadSingle(buf[..rest]); } else { assert tail == []; }
  }

  lemma FillStreamSolidWhenEven(color: int, buf: seq<bv8>, total: int)
    requires |buf| > 0 && (|buf| % 2 == 0 ==> buf == Solid(color, |buf| / 2))
    ensures total >= 0 && total % 2 == 0 && |buf| % 2 == 0 ==>
              Payload(FillStream(buf, total)) == Solid(color, total / 2)
  {
    if total >= 0 && total % 2 == 0 && |buf| % 2 == 0 {
      FillStreamSolid(color, buf, total);
    }
  }

  /** With an even buffer holding the pattern, the stream is `total / 2`
      pixels of the colour. */
  lemma FillStreamSolid(color: int, buf: seq<bv8>, total: int)
    requires |buf| > 0 && |buf| % 2 == 0 && buf == Solid(color, |buf| / 2)
    requires total >= 0 && total % 2 == 0
    ensures Payload(FillStream(buf, total)) == Solid(color, total / 2)
  {
    var L := |buf|;
    var chunks := total / L;
    var rest := total % L;
    assert 0 <= chunks && 0 <= rest < L && rest % 2 == 0
           && chunks * (L / 2) + rest / 2 == total / 2 by {
      Arith.FloorSign(total, L);
      Arith.EvenSplit(total, L);
    }
    var full := Chunks(buf, chunks);
    var tail := if rest != 0 then [Data(buf[..rest])] else [];
    assert FillStream(buf, total) == full + tail;
    ChunksSolid(color, L / 2, chunks);
    TailSolid(color, buf, rest);
    PayloadSolidAppend(color, full, tail, chunks * (L / 2), rest / 2);
  }

  /** Two solid runs of the same colour make one. */
  lemma PayloadSolidAppend(color: int, s: seq<Event>, t: seq<Event>, m: nat, n: nat)
    requires Payload(s) == Solid(color, m) && Payload(t) == Solid(color, n)
    ensures Payload(s + t) == Solid(color, m + n)
  {
    PayloadAppend(s, t);
    SolidAppend(color, m, n);
  }

  /** The short last payload of a solid stream is solid too. */
  lemma TailSolid(color: int, buf: seq<bv8>, rest: int)
    requires |buf| % 2 == 0 && buf == Solid(color, |buf| / 2)
    requires 0 <= rest < |buf| && rest % 2 == 0
    ensures Payload(if rest != 0 then [Data(buf[..rest])] else []) == Solid(color, rest / 2)
  {
    SolidPrefix(color, |buf| / 2, rest / 2);
    if rest != 0 {
      PayloadSingle(buf[..rest]);
    } else {
      assert Payload([]) == [] == Solid(color, 0);
    }
  }

  /** The window `fill_rect(x, y, width, height, _)` opens. */
  function RectWindow(d: Display, x: int, y: int, width: int, height: int): seq<Event>
  {
    SetWindow(d, x, y, x + width - 1, y + height - 1)
  }

  /** The stream `fill_rect` sends after the window, as a function of the
      scratch buffer it has just filled. */
  lemma FillStreamFacts(buf: seq<bv8>, color: int, width: int, height: int)
    requires |buf| > 0 && (|buf| % 2 == 0 ==> buf == Solid(color, |buf| / 2))
    ensures var s := FillStream(buf, width * height * PIXEL_LEN);
            && (width * height >= 0 ==> |Payload(s)| == width * height * PIXEL_LEN)
            && (width * height < 0 ==> |Payload(s)| == width * height * PIXEL_LEN % |buf|)
            && (width * height >= 0 && |buf| % 2 == 0 ==> Payload(s) == Solid(color, width * height))
  {
    var total := width * height * PIXEL_LEN;
    FillStreamLength(buf, total);
    FillStreamSolidWhenEven(color, buf, total);
    assert total / 2 == width * height;
  }

  /** `fill_rect(x, y, width, height, color)`: the buffer is filled with the
      colour, the window is opened (or partly dropped), and `width*height*2`
      bytes are streamed through the buffer whatever happened to the window. */
  function FillRect(d: Display, x: int, y: int, width: int, height: int, color: int): (r: Result<Drawn, Error>)
    ensures r.Failure? <==> |d.buf| == 0
    ensures r.Failure? ==> r.error == ZeroDivision
    ensures r.Success? ==>
              && r.value.display == d.(buf := FillPattern(d.buf, color))
              && r.value.trace == RectWindow(d, x, y, width, height)
                                + FillStream(r.value.display.buf, width * height * PIXEL_LEN)
  {
    if |d.buf| == 0 then Failure(ZeroDivision)
    else
      var buf := FillPattern(d.buf, color);
      Success(Drawn(d.(buf := buf), RectWindow(d, x, y, width, height) + FillStream(buf, width * height * PIXEL_LEN)))
  }

  lemma FillRectStream(d: Display, x: int, y: int, width: int, height: int, color: int)
    requires |d.buf| > 0
    ensures var r := FillRect(d, x, y, width, height, color).value;
            var win := RectWindow(d, x, y, width, height);
            var t := r.trace;
            var s := t[|win|..];
            && |win| <= |t| && t[..|win|] == win
            && DataOnly(s)
            && (forall i :: 0 <= i < |s| ==>
                  0 < |s[i].bytes| <= |d.buf| && s[i].bytes == r.display.buf[..|s[i].bytes|])
            && (forall i :: 0 <= i < |s| - 1 ==> |s[i].bytes| == |d.buf|)
            && (width * height >= 0 ==> |Payload(s)| == width * height * PIXEL_LEN)
            && (width * height < 0 ==> |Payload(s)| == width * height * PIXEL_LEN % |d.buf|)
            && (width * height >= 0 && |d.buf| % 2 == 0 ==> Payload(s) == Solid(color, width * height))
  {
    var buf := FillPattern(d.buf, color);
    var win := RectWindow(d, x, y, width, height);
    var s := FillStream(buf, width * height * PIXEL_LEN);
    FillStreamFacts(buf, color, width, height);
    var t := win + s;
    assert t[..|win|] == win && t[|win|..] == s;
  }

  /** `fill(color)`: the whole panel. */
  function Fill(d: Display, color: int): (r: Result<Drawn, Error>)
    ensures r == FillRect(d, 0, 0, d.width, d.height, color)
  {
    FillRect(d, 0, 0, d.width, d.height, color)
  }

  /** On a panel of positive size, `fill` addresses the whole panel and then
      streams `width*height` pixels of the colour (given an even buffer). */
  lemma FillWholePanel(d: Display, color: int)
    requires |d.buf| > 0 && d.width > 0 && d.height > 0
    ensures var t := Fill(d, color).value.trace;
            && |t| >= 5
            && AddressSet(t[..2], CASET, d.xstart, d.width - 1 + d.xstart)
            && AddressSet(t[2..4], RASET, d.ystart, d.height - 1 + d.ystart)
            && t[4] == Command(RAMWR)
            && DataOnly(t[5..])
            && |Payload(t[5..])| == d.width * d.height * PIXEL_LEN
            && (|d.buf| % 2 == 0 ==> Payload(t[5..]) == Solid(color, d.width * d.height))
  {
    Arith.PositiveProduct(d.width, d.height);
    FillRectStream(d, 0, 0, d.width, d.height, color);
    var win := RectWindow(d, 0, 0, d.width, d.height);
    WholeWindow(d);
    var t := Fill(d, color).value.trace;
    assert t[..2] == win[..2] && t[2..4] == win[2..4] && t[4] == win[4];
  }

  /** The window of the whole panel sets both axes before the memory write. */
  lemma WholeWindow(d: Display)
    requires d.width > 0 && d.height > 0
    ensures var win := RectWindow(d, 0, 0, d.width, d.height);
            && |win| == 5
            && AddressSet(win[..2], CASET, d.xstart, d.width - 1 + d.xstart)
            && AddressSet(win[2..4], RASET, d.ystart, d.height - 1 + d.ystart)
            && win[4] == Command(RAMWR)
  {
    assert AxisAccepted(0, d.width - 1, d.width) && AxisAccepted(0, d.height - 1, d.height);
  }

  /** `hline(x, y, length, color)`: a rectangle one pixel high. */
  function HLine(d: Display, x: int, y: int, length: int, color: int): (r: Result<Drawn, Error>)
    ensures r == FillRect(d, x, y, length, 1, color)
  {
    FillRect(d, x, y, length, 1, color)
  }

  /** `vline(x, y, length, color)`: a rectangle one pixel wide. */
  function VLine(d: Display, x: int, y: int, length: int, color: int): (r: Result<Drawn, Error>)
    ensures r == FillRect(d, x, y, 1, length, color)
  {
    FillRect(d, x, y, 1, length, color)
  }

  /** `hline` opens the one-row window from `x` to `x + length - 1` on row
      `y`, then streams `length` pixels of the colour (given an even buffer). */
  lemma HLineStream(d: Display, x: int, y: int, length: int, color: int)
    requires |d.buf| > 0 && |d.buf| % 2 == 0 && length >= 0
    ensures var t := HLine(d, x, y, length, color).value.trace;
            var win := SetWindow(d, x, y, x + length - 1, y);
            && |win| <= |t| && t[..|win|] == win
            && DataOnly(t[|win|..])
            && Payload(t[|win|..]) == Solid(color, length)
  {
    FillRectStream(d, x, y, length, 1, color);
    assert length * 1 == length;
  }

  /** `vline` opens the one-column window from `y` to `y + length - 1` in
      column `x`, then streams `length` pixels of the colour (given an even
      buffer). */
  lemma VLineStream(d: Display, x: int, y: int, length: int, color: int)
    requires |d.buf| > 0 && |d.buf| % 2 == 0 && length >= 0
    ensures var t := VLine(d, x, y, length, color).value.trace;
            var win := SetWindow(d, x, y, x, y + length - 1);
            && |win| <= |t| && t[..|win|] == win
            && DataOnly(t[|win|..])
            && Payload(t[|win|..]) == Solid(color, length)
  {
    FillRectStream(d, x, y, 1, length, color);
    assert 1 * length == length;
  }

  /** A fill leaves the display equal to the original up to its buffer, and
      the buffer is the fill pattern of the original buffer. */
  lemma FillRectDisplay(d: Display, x: int, y: int, width: int, height: int, color: int)
    requires |d.buf| > 0
    ensures FillRect(d, x, y, width, height, color).value.display == d.(buf := FillPattern(d.buf, color))
  {
  }

  /** Drawing on a display whose buffer already holds the fill pattern sends
      exactly what drawing on the original display sends. */
  lemma FillRectAfterFill(d: Display, x: int, y: int, width: int, height: int, color: int)
    requires |d.buf| > 0
    ensures FillRect(d.(buf := FillPattern(d.buf, color)), x, y, width, height, color)
         == FillRect(d, x, y, width, height, color)
  {
    FillPatternIdempotent(d.buf, color);
  }

  /** `rect(x, y, w, h, color)`: the outline as two horizontal and two
      vertical lines; the interior is not touched. */
  function Rect(d: Display, x: int, y: int, w: int, h: int, color: int): (r: Result<Drawn, Error>)
    ensures r.Failure? <==> |d.buf| == 0
    ensures r.Failure? ==> r.error == ZeroDivision
    ensures r.Success? ==>
              && r.value.display == d.(buf := FillPattern(d.buf, color))
              && r.value.trace == HLine(d, x, y, w, color).value.trace
                                + VLine(d, x, y, h, color).value.trace
                                + VLine(d, x + w - 1, y, h, color).value.trace
                                + HLine(d, x, y + h - 1, w, color).value.trace
  {
    if |d.buf| == 0 then Failure(ZeroDivision)
    else
      var top := HLine(d, x, y, w, color).value;
      FillRectDisplay(d, x, y, w, 1, color);
      FillRectAfterFill(d, x, y, 1, h, color);
      FillRectAfterFill(d, x + w - 1, y, 1, h, color);
      FillRectAfterFill(d, x, y + h - 1, w, 1, color);
      var left := VLine(top.display, x, y, h, color).value;
      var right := VLine(left.display, x + w - 1, y, h, color).value;
      var bottom := HLine(right.display, x, y + h - 1, w, color).value;
      Success(Drawn(bottom.display, top.trace + left.trace + right.trace + bottom.trace))
  }

  /** `pixel(x, y, color)`: a one-pixel window and the encoded colour. */
  function Pixel(d: Display, x: int, y: int, color: int): (t: seq<Event>)
    ensures |t| >= 2 && t[..|t| - 1] == SetWindow(d, x, y, x, y)
    ensures t[|t| - 1].Data? && |t[|t| - 1].bytes| == 2 && U16(t[|t| - 1].bytes) == Wrap16(color)
  {
    var t := SetWindow(d, x, y, x, y) + Write(None, Some(Be16(color)));
    assert t[..|t| - 1] == SetWindow(d, x, y, x, y);
    t
  }

  /** `blit_buffer(buffer, x, y, width, height)`: the buffer goes out as one
      payload after the window; its length is the caller's business. */
  function BlitBuffer(d: Display, buffer: seq<bv8>, x: int, y: int, width: int, height: int): (t: seq<Event>)
    ensures |t| >= 2 && t[..|t| - 1] == RectWindow(d, x, y, width, height)
    ensures t[|t| - 1] == Data(buffer)
    ensures Payload(t) == Payload(RectWindow(d, x, y, width, height)) + buffer
  {
    var w := RectWindow(d, x, y, width, height);
    assert Write(None, Some(buffer)) == [Data(buffer)];
    var t := w + Write(None, Some(buffer));
    assert t[..|t| - 1] == w;
    PayloadAppend(w, [Data(buffer)]);
    PayloadSingle(buffer);
    t
  }

  /** The built-in 8x8 font, left uninterpreted: whether the glyph with
      code 32..127 has its pixel at (row, column) set. */
  type Font = (int, int, int) -> bool

  /** The glyph `framebuf.text` draws for a byte: its own below 128 from
      the space on, glyph 127 for everything else. */
  function GlyphCode(b: bv8): (g: int)
    ensures 32 <= g <= 127
    ensures 32 <= b as int <= 127 ==> g == b as int
  {
    if b < 32 || b > 127 then 127 else b as int
  }

  /** Whether `framebuf.text(s, 0, 0, _)` sets pixel (row, x) of the 8-pixel
      slot `slot`: slot `i` shows the glyph of byte `i` of the C view of
      `s`, so a slot past the first NUL stays blank. */
  predicate GlyphBit(s: string, font: Font, slot: int, row: int, x: int)
  {
    var c := Utf8.CStringOf(s);
    0 <= slot < |c| && font(GlyphCode(c[slot]), row, x)
  }

  /** The colour of pixel `k` of the `8*|s|` by 8 text frame buffer, in
      row-major order: the foreground where a glyph bit is set, the
      background elsewhere. The frame is `8*|s|` pixels wide, so slots past
      `|s|` are clipped. */
  function TextColor(s: string, fg: int, bg: int, font: Font, k: int): int
    requires 0 <= k < |s| * FONT_WIDTH * FONT_HEIGHT
  {
    var tw := |s| * FONT_WIDTH;
    var row := k / tw;
    var col := k % tw;
    if GlyphBit(s, font, col / FONT_WIDTH, row, col % FONT_WIDTH) then fg else bg
  }

  /** The bytes `framebuf` leaves in the first `len(s)*128` bytes of the
      buffer after `fill(bg)` and `text(s, 0, 0, fg)`. */
  function TextRaster(s: string, fg: int, bg: int, font: Font): (p: seq<bv8>)
    ensures |p| == |s| * FONT_WIDTH * FONT_HEIGHT * PIXEL_LEN
  {
    var n := |s| * FONT_WIDTH * FONT_HEIGHT;
    seq(2 * n, i requires 0 <= i < 2 * n => Be16(TextColor(s, fg, bg, font, i / 2))[i % 2])
  }

  /** The two bytes of the text pixel at (row, col). */
  function TextPixel(p: seq<bv8>, tw: int, row: int, col: int): seq<bv8>
    requires 0 <= row && 0 <= col < tw && 2 * (row * tw + col) + 2 <= |p|
  {
    PixelBytes(p, row * tw + col)
  }

  /** One pixel of the raster: the glyph bit picks the colour. */
  lemma TextRasterPixel(s: string, fg: int, bg: int, font: Font, row: int, col: int)
    requires 0 <= row < FONT_HEIGHT && 0 <= col < |s| * FONT_WIDTH
    ensures var p := TextRaster(s, fg, bg, font);
            var tw := |s| * FONT_WIDTH;
            2 * (row * tw + col) + 2 <= |p| &&
            TextPixel(p, tw, row, col)
              == Be16(if GlyphBit(s, font, col / FONT_WIDTH, row, col % FONT_WIDTH) then fg else bg)
  {
    var p := TextRaster(s, fg, bg, font);
    var tw := |s| * FONT_WIDTH;
    var k := row * tw + col;
    Arith.RowMajor(row, col, tw, FONT_HEIGHT);
    assert k < |s| * FONT_WIDTH * FONT_HEIGHT;
    assert TextColor(s, fg, bg, font, k)
        == if GlyphBit(s, font, col / FONT_WIDTH, row, col % FONT_WIDTH) then fg else bg;
    RasterBytes(s, fg, bg, font, k);
  }

  /** Bytes `2k` and `2k + 1` belong to pixel `k`. */
  lemma Halves(k: int)
    requires k >= 0
    ensures (2 * k) / 2 == k && (2 * k) % 2 == 0
    ensures (2 * k + 1) / 2 == k && (2 * k + 1) % 2 == 1
  {
  }

  /** Pixel `k` of the raster is the big-endian colour of pixel `k`. */
  lemma RasterBytes(s: string, fg: int, bg: int, font: Font, k: int)
    requires 0 <= k < |s| * FONT_WIDTH * FONT_HEIGHT
    ensures 2 * k + 2 <= |TextRaster(s, fg, bg, font)|
    ensures PixelBytes(TextRaster(s, fg, bg, font), k) == Be16(TextColor(s, fg, bg, font, k))
  {
    var p := TextRaster(s, fg, bg, font);
    var c := Be16(TextColor(s, fg, bg, font, k));
    Halves(k);
    assert p[2 * k] == c[0];
    assert p[2 * k + 1] == c[1];
    var q := PixelBytes(p, k);
    assert q[0] == c[0] && q[1] == c[1];
  }

  lemma TextRasterPixels(s: string, fg: int, bg: int, font: Font)
    ensures var p := TextRaster(s, fg, bg, font);
            var tw := |s| * FONT_WIDTH;
            forall row, col :: 0 <= row < FONT_HEIGHT && 0 <= col < tw ==>
              2 * (row * tw + col) + 2 <= |p| &&
              TextPixel(p, tw, row, col)
                == Be16(if GlyphBit(s, font, col / FONT_WIDTH, row, col % FONT_WIDTH) then fg else bg)
  {
    var tw := |s| * FONT_WIDTH;
    forall row, col | 0 <= row < FONT_HEIGHT && 0 <= col < tw
      ensures var p := TextRaster(s, fg, bg, font);
              2 * (row * tw + col) + 2 <= |p| &&
              TextPixel(p, tw, row, col)
                == Be16(if GlyphBit(s, font, col / FONT_WIDTH, row, col % FONT_WIDTH) then fg else bg)
    {
      TextRasterPixel(s, fg, bg, font, row, col);
    }
  }

  /** The glyph of an ASCII character: its own from the space on, glyph 127
      for the control characters. */
  function Printable(c: char): int
  {
    if (c as int) < 32 || (c as int) > 127 then 127 else c as int
  }

  /** For a string of characters 1..127 slot `i` shows the glyph of
      character `i`, control characters drawing glyph 127. */
  lemma AsciiTextGlyphs(s: string, font: Font)
    requires forall i :: 0 <= i < |s| ==> 0 < (s[i] as int) < 0x80
    ensures forall slot, row, x :: 0 <= slot < |s| ==>
              (GlyphBit(s, font, slot, row, x) <==> font(Printable(s[slot]), row, x))
  {
    Utf8.CStringWhole(s);
    Utf8.EncodeAscii(s);
    var c := Utf8.CStringOf(s);
    forall slot, row, x | 0 <= slot < |s|
      ensures GlyphBit(s, font, slot, row, x) <==> font(Printable(s[slot]), row, x)
    {
      assert c[slot] as int == s[slot] as int;
    }
  }

  /** Nothing after a NUL character is drawn: every slot from the byte
      length of the part before it on stays in the background colour. */
  lemma NulEndsText(s: string, j: int, font: Font)
    requires 0 <= j < |s| && s[j] == '\0'
    requires forall i :: 0 <= i < j ==> s[i] != '\0'
    ensures forall slot, row, x :: slot >= |Utf8.Encode(s[..j])| ==> !GlyphBit(s, font, slot, row, x)
  {
    Utf8.CStringAtNul(s, j);
  }

  /** A character outside ASCII takes several bytes, each drawn as glyph
      127 in a slot of its own, and pushes the rest of the string right:
      for "\u00e9A" both slots show glyph 127 and the 'A' falls outside the
      16-pixel frame. */
  lemma NonAsciiShiftsText(font: Font)
    ensures var s := "\U{e9}A";
            && Utf8.CStringOf(s) == [0xc3, 0xa9, 0x41]
            && |Utf8.CStringOf(s)| > |s|
            && forall row, x ::
                 (GlyphBit(s, font, 0, row, x) <==> font(127, row, x))
                 && (GlyphBit(s, font, 1, row, x) <==> font(127, row, x))
  {
    var s := "\U{e9}A";
    assert s[1..] == "A" && s[1..][1..] == "";
    assert Utf8.EncodeChar(s[0]) == [0xc3, 0xa9];
    assert Utf8.Encode(s) == [0xc3, 0xa9, 0x41];
    Utf8.CStringWhole(s);
  }

  /** `text(s, x, y, fg, bg)`: fails before any bus activity when the text
      row does not fit the buffer; otherwise renders it into the front of the
      buffer, leaving the rest as it was, and blits that front part. */
  function Text(d: Display, s: string, x: int, y: int, fg: int, bg: int, font: Font): (r: Result<Drawn, Error>)
    ensures r.Failure? <==> |s| * FONT_WIDTH * FONT_HEIGHT * PIXEL_LEN > |d.buf|
    ensures r.Failure? ==> r.error == BufferTooSmall
    ensures r.Success? ==>
              var mem := |s| * FONT_WIDTH * FONT_HEIGHT * PIXEL_LEN;
              var D := r.value.display;
              && D == d.(buf := D.buf)
              && |D.buf| == |d.buf|
              && D.buf[..mem] == TextRaster(s, fg, bg, font)
              && D.buf[mem..] == d.buf[mem..]
              && r.value.trace == BlitBuffer(d, D.buf[..mem], x, y, |s| * FONT_WIDTH, FONT_HEIGHT)
  {
    var textWidth := |s| * FONT_WIDTH;
    var textMem := textWidth * FONT_HEIGHT * PIXEL_LEN;
    if textMem > |d.buf| then Failure(BufferTooSmall)
    else
      var raster := TextRaster(s, fg, bg, font);
      var buf := raster + d.buf[textMem..];
      assert buf[..textMem] == raster && buf[textMem..] == d.buf[textMem..];
      Success(Drawn(d.(buf := buf), BlitBuffer(d, buf[..textMem], x, y, textWidth, FONT_HEIGHT)))
  }

  /** What `text` puts on the bus: the window of the text row, then one
      payload holding every glyph pixel in the foreground or background
      colour. */
  lemma TextOnBus(d: Display, s: string, x: int, y: int, fg: int, bg: int, font: Font)
    requires |s| * FONT_WIDTH * FONT_HEIGHT * PIXEL_LEN <= |d.buf|
    ensures var t := Text(d, s, x, y, fg, bg, font).value.trace;
            var tw := |s| * FONT_WIDTH;
            && |t| >= 2
            && t[..|t| - 1] == RectWindow(d, x, y, tw, FONT_HEIGHT)
            && t[|t| - 1].Data?
            && |t[|t| - 1].bytes| == tw * FONT_HEIGHT * PIXEL_LEN
            && (forall row, col :: 0 <= row < FONT_HEIGHT && 0 <= col < tw ==>
                  TextPixel(t[|t| - 1].bytes, tw, row, col)
                    == Be16(if GlyphBit(s, font, col / FONT_WIDTH, row, col % FONT_WIDTH) then fg else bg))
  {
    TextRasterPixels(s, fg, bg, font);
  }
}
