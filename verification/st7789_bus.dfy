/** The ST7789 display controller as the driver sees it: a stream of bus
    events (command bytes, data payloads, reset-line edges and settle
    delays), the address-window commands and the configuration bytes. */
module St7789Bus {
  import opened Bytes
  import opened Results

  // Controller commands used by the driver (ST7789 datasheet mnemonics).
  const SWRESET: bv8 := 0x01
  const SLPIN: bv8 := 0x10
  const SLPOUT: bv8 := 0x11
  const NORON: bv8 := 0x13
  const INVOFF: bv8 := 0x20
  const INVON: bv8 := 0x21
  const DISPON: bv8 := 0x29
  const CASET: bv8 := 0x2a
  const RASET: bv8 := 0x2b
  const RAMWR: bv8 := 0x2c
  const MADCTL: bv8 := 0x36
  const COLMOD: bv8 := 0x3a

  // Memory-access-control flags.
  const MADCTL_MY: bv8 := 0x80
  const MADCTL_MX: bv8 := 0x40
  const MADCTL_MV: bv8 := 0x20
  const MADCTL_ML: bv8 := 0x10
  const MADCTL_BGR: bv8 := 0x08
  const MADCTL_MH: bv8 := 0x04

  /** One observable action on the display's wires. */
  datatype Event =
    | Command(code: bv8)        // data/command line low, one byte
    | Data(bytes: seq<bv8>)     // data/command line high, a payload
    | ResetLine(high: bool)     // an edge on the hardware reset pin
    | Delay(ms: nat)            // a blocking settle delay

  /** The Python exceptions the driver can raise. */
  datatype Error =
    | InvalidArgument           // ValueError: unsupported panel without origin
    | BufferTooSmall            // ValueError: text does not fit the scratch buffer
    | ZeroDivision              // divmod by the length of an empty scratch buffer

  /** The driver object: panel size, origin offset and the scratch buffer,
      whose contents persist from one drawing call to the next. */
  datatype Display = Display(width: int, height: int, xstart: int, ystart: int, buf: seq<bv8>)

  /** `write(command, data)`: the command byte (if any) goes out before the
      payload (if any). */
  function Write(command: Option<bv8>, data: Option<seq<bv8>>): (t: seq<Event>)
    ensures |t| == (if command.Some? then 1 else 0) + (if data.Some? then 1 else 0)
    ensures command.Some? ==> t[0] == Command(command.value)
    ensures data.Some? ==> t[|t| - 1] == Data(data.value)
  {
    (if command.Some? then [Command(command.value)] else [])
    + (if data.Some? then [Data(data.value)] else [])
  }

  /** All payload bytes of a trace, in the order they went out. */
  function Payload(t: seq<Event>): seq<bv8>
  {
    if |t| == 0 then []
    else (if t[0].Data? then t[0].bytes else []) + Payload(t[1..])
  }

  lemma {:induction false} PayloadAppend(a: seq<Event>, b: seq<Event>)
    ensures Payload(a + b) == Payload(a) + Payload(b)
    decreases |a|
  {
    if |a| == 0 {
      assert a + b == b;
    } else {
      assert (a + b)[1..] == a[1..] + b;
      PayloadAppend(a[1..], b);
    }
  }

  /** True when every event of `t` is a data payload. */
  predicate DataOnly(t: seq<Event>)
  {
    forall i :: 0 <= i < |t| ==> t[i].Data?
  }

  /** `_encode_pos(a, b)`: two big-endian 16-bit values. */
  function EncodePos(a: int, b: int): (r: seq<bv8>)
    ensures |r| == 4
    ensures U16(r[..2]) == Wrap16(a) && U16(r[2..]) == Wrap16(b)
  {
    var r := Be16(a) + Be16(b);
    assert r[..2] == Be16(a) && r[2..] == Be16(b);
    r
  }

  /** `t` is the address-set command `cmd` for the range `lo..hi`, each
      bound sent as its low 16 bits. */
  predicate AddressSet(t: seq<Event>, cmd: bv8, lo: int, hi: int)
  {
    && |t| == 2
    && t[0] == Command(cmd)
    && t[1].Data?
    && |t[1].bytes| == 4
    && U16(t[1].bytes[..2]) == Wrap16(lo)
    && U16(t[1].bytes[2..]) == Wrap16(hi)
  }

  /** True when `start..end` is an accepted range on an axis of `size`. */
  predicate AxisAccepted(start: int, end: int, size: int)
  {
    start <= end < size
  }

  /** The shared body of `_set_columns` and `_set_rows`: the range is
      silently dropped when reversed or past the edge, otherwise shifted by
      the origin offset and sent. The start is never checked against 0. */
  function SetAxis(cmd: bv8, start: int, end: int, size: int, offset: int): seq<Event>
  {
    if start > end || end >= size then []
    else Write(Some(cmd), Some(EncodePos(start + offset, end + offset)))
  }

  /** `_set_columns(start, end)`. */
  function SetColumns(d: Display, start: int, end: int): (t: seq<Event>)
    ensures t == [] <==> !AxisAccepted(start, end, d.width)
    ensures t != [] ==> AddressSet(t, CASET, start + d.xstart, end + d.xstart)
    ensures t != [] && 0 <= start + d.xstart && end + d.xstart < 0x1_0000 ==>
              U16(t[1].bytes[..2]) == start + d.xstart && U16(t[1].bytes[2..]) == end + d.xstart
  {
    SetAxis(CASET, start, end, d.width, d.xstart)
  }

  /** `_set_rows(start, end)`. */
  function SetRows(d: Display, start: int, end: int): (t: seq<Event>)
    ensures t == [] <==> !AxisAccepted(start, end, d.height)
    ensures t != [] ==> AddressSet(t, RASET, start + d.ystart, end + d.ystart)
    ensures t != [] && 0 <= start + d.ystart && end + d.ystart < 0x1_0000 ==>
              U16(t[1].bytes[..2]) == start + d.ystart && U16(t[1].bytes[2..]) == end + d.ystart
  {
    SetAxis(RASET, start, end, d.height, d.ystart)
  }

  /** `set_window(x0, y0, x1, y1)`: each axis is sent or dropped on its
      own, and the memory-write command always follows. */
  function SetWindow(d: Display, x0: int, y0: int, x1: int, y1: int): (t: seq<Event>)
    ensures |t| == 1 + (if AxisAccepted(x0, x1, d.width) then 2 else 0)
                     + (if AxisAccepted(y0, y1, d.height) then 2 else 0)
    ensures t[|t| - 1] == Command(RAMWR)
    ensures forall i :: 0 <= i < |t| - 1 ==> t[i] != Command(RAMWR)
    ensures AxisAccepted(x0, x1, d.width) ==> AddressSet(t[..2], CASET, x0 + d.xstart, x1 + d.xstart)
    ensures AxisAccepted(y0, y1, d.height) ==>
              AddressSet(t[|t| - 3..|t| - 1], RASET, y0 + d.ystart, y1 + d.ystart)
    ensures Payload(t) == Payload(t[..|t| - 1])
  {
    var c := SetColumns(d, x0, x1);
    var r := SetRows(d, y0, y1);
    assert Write(Some(RAMWR), None) == [Command(RAMWR)];
    WindowLayout(c, r);
    c + r + Write(Some(RAMWR), None)
  }

  /** The layout of an address window: the column part, the row part, then
      the memory write, which appears nowhere else. */
  lemma WindowLayout(c: seq<Event>, r: seq<Event>)
    requires c == [] || (|c| == 2 && c[0] == Command(CASET))
    requires r == [] || (|r| == 2 && r[0] == Command(RASET) && r[1].Data?)
    requires c != [] ==> c[1].Data?
    ensures var t := c + r + [Command(RAMWR)];
            && t[|t| - 1] == Command(RAMWR)
            && (forall i :: 0 <= i < |t| - 1 ==> t[i] != Command(RAMWR))
            && t[..|c|] == c
            && t[|t| - 1 - |r|..|t| - 1] == r
            && Payload(t) == Payload(t[..|t| - 1])
  {
    var t := c + r + [Command(RAMWR)];
    assert t[..|t| - 1] == c + r;
    assert t[..|c|] == c;
    assert t[|t| - 1 - |r|..|t| - 1] == r;
    PayloadAppend(c + r, [Command(RAMWR)]);
    assert Payload([Command(RAMWR)]) == [];
    forall i | 0 <= i < |t| - 1
      ensures t[i] != Command(RAMWR)
    {
      if i < |c| {
        assert t[i] == c[i];
      } else {
        assert t[i] == r[i - |c|];
      }
    }
  }

  /** The MADCTL flags for each `rotation & 7`: bit 0 mirrors columns (MX),
      bit 1 mirrors rows (MY), bit 2 exchanges rows and columns (MV). */
  function RotationFlags(q: int): bv8
    requires 0 <= q < 8
  {
    match q
    case 0 => 0
    case 1 => MADCTL_MX
    case 2 => MADCTL_MY
    case 3 => MADCTL_MX | MADCTL_MY
    case 4 => MADCTL_MV
    case 5 => MADCTL_MV | MADCTL_MX
    case 6 => MADCTL_MV | MADCTL_MY
    case _ => MADCTL_MV | MADCTL_MX | MADCTL_MY
  }

  /** What the MADCTL byte of `_set_mem_access_mode` is, bit by bit: BGR
      (0x08) is set iff `isBgr`; a vertical mirror leaves ML (0x10) as the
      only other bit, else a horizontal mirror leaves MH (0x04); otherwise
      MX (0x40), MY (0x80) and MV (0x20) are bits 0, 1 and 2 of
      `rotation & 7` and ML and MH are clear. The two low bits, which
      MADCTL does not use, are always clear. */
  predicate MadctlBits(rotation: int, vertMirror: bool, horzMirror: bool, isBgr: bool, b: bv8)
  {
    && ((b & MADCTL_BGR != 0) <==> isBgr)
    && b & 0x03 == 0
    && (vertMirror ==> b & !MADCTL_BGR == MADCTL_ML)
    && (!vertMirror && horzMirror ==> b & !MADCTL_BGR == MADCTL_MH)
    && (!vertMirror && !horzMirror ==>
          && ((b & MADCTL_MX != 0) <==> rotation % 8 % 2 == 1)
          && ((b & MADCTL_MY != 0) <==> rotation % 8 / 2 % 2 == 1)
          && ((b & MADCTL_MV != 0) <==> rotation % 8 >= 4)
          && b & (MADCTL_ML | MADCTL_MH) == 0)
  }

  /** The byte `_set_mem_access_mode` sends: a mirror override replaces the
      rotation flags outright (vertical before horizontal), and BGR is
      OR-ed in last. */
  function MemAccessByte(rotation: int, vertMirror: bool, horzMirror: bool, isBgr: bool): (b: bv8)
    ensures MadctlBits(rotation, vertMirror, horzMirror, isBgr, b)
  {
    var q := rotation % 8;
    var value :=
      if vertMirror then MADCTL_ML
      else if horzMirror then MADCTL_MH
      else RotationFlags(q);
    if isBgr then value | MADCTL_BGR else value
  }

  /** The bit rules pin the byte down: any byte that obeys them is the one
      `_set_mem_access_mode` sends, so with no mirror it is exactly the
      table entry for `rotation & 7`, with BGR added when asked. */
  lemma MadctlBitsUnique(rotation: int, vertMirror: bool, horzMirror: bool, isBgr: bool, b: bv8)
    requires MadctlBits(rotation, vertMirror, horzMirror, isBgr, b)
    ensures b == MemAccessByte(rotation, vertMirror, horzMirror, isBgr)
    ensures !vertMirror && !horzMirror ==>
              b == if isBgr then RotationFlags(rotation % 8) | MADCTL_BGR else RotationFlags(rotation % 8)
  {
    var m := MemAccessByte(rotation, vertMirror, horzMirror, isBgr);
    assert MadctlBits(rotation, vertMirror, horzMirror, isBgr, m);
    SameBits(b, m);
  }

  /** Two bytes that agree on every bit are equal. */
  lemma SameBits(b: bv8, m: bv8)
    requires b & 0x03 == m & 0x03
    requires (b & 0x04 != 0) == (m & 0x04 != 0) && (b & 0x08 != 0) == (m & 0x08 != 0)
    requires (b & 0x10 != 0) == (m & 0x10 != 0) && (b & 0x20 != 0) == (m & 0x20 != 0)
    requires (b & 0x40 != 0) == (m & 0x40 != 0) && (b & 0x80 != 0) == (m & 0x80 != 0)
    ensures b == m
  {
  }

  /** `_set_mem_access_mode(...)`: one MADCTL command with its byte. */
  function SetMemAccessMode(rotation: int, vertMirror: bool, horzMirror: bool, isBgr: bool): (t: seq<Event>)
    ensures t == [Command(MADCTL), Data([MemAccessByte(rotation, vertMirror, horzMirror, isBgr)])]
  {
    Write(Some(MADCTL), Some([MemAccessByte(rotation, vertMirror, horzMirror, isBgr)]))
  }

  /** `_set_color_mode(mode)`: COLMOD with `mode & 0x77`, which keeps the
      interface and RGB format fields and clears the two reserved bits. */
  function SetColorMode(mode: int): (t: seq<Event>)
    ensures |t| == 2 && t[0] == Command(COLMOD) && t[1].Data? && |t[1].bytes| == 1
    ensures t[1].bytes[0] & 0x88 == 0
    ensures t[1].bytes[0] & 0x77 == ToByte(mode % 0x100) & 0x77
  {
    Write(Some(COLMOD), Some([ToByte(mode % 0x100) & 0x77]))
  }
}
