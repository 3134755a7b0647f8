# M5StickC Plus drivers in Dafny

A Dafny model of the byte-level core of four MicroPython drivers for the
M5StickC Plus board, with proofs about it:

- **ST7789 display controller** (`st7789_bus.dfy`, `st7789_draw.dfy`,
  `st7789_line.dfy`, `st7789_init.dfy`). The SPI bus is a trace of events:
  a command byte, a data payload, a reset-line edge or a settle delay.
  Every driver call returns the events it appends, in order. The models
  cover:
  - the address window and the MADCTL and COLMOD configuration bytes;
  - rectangle fills streamed through the scratch buffer in whole chunks plus
    a remainder;
  - outlines, pixels, buffer blits and text, the latter as `framebuf.text`
    draws it: the UTF-8 bytes of the string up to its first NUL, one glyph
    per byte (`utf8.dfy`);
  - integer Bresenham lines;
  - the constructor's origin choice and power-up sequence.
- **SGP30 air-quality sensor** (`sgp30_crc.dfy`, `sgp30.dfy`):
  - the Sensirion CRC-8 (polynomial 0x31, initial value 0xFF, MSB first, no
    final XOR);
  - the command/value frame encoder of `_write_values` and the checked
    decoder of `_read_values`;
  - the range check of `set_absolute_humidity`;
  - the constructor's feature-set check and baseline argument check.
- **DHT12 temperature/humidity sensor** (`dht12.dfy`): the additive
  checksum of the five-byte frame, and humidity and temperature as integers
  in tenths.
- **AXP192 power-management unit** (`axp192.dfy`). The chip is a register
  file of 256 bytes plus a log of register transfers. The models cover:
  - the M5StickC Plus power-on programme;
  - the presence check of the constructor;
  - the power-key status read-and-clear and `power_off`;
  - the composition of raw ADC values.

`bytes.dfy` holds the shared pieces:
- the int/byte conversion;
- MicroPython's `ustruct.pack(">H")`, which keeps the low 16 bits of its
  argument with no range check;
- the `Result`/`Option` types that stand in for Python exceptions;
- a few facts about integer division.

Behaviours of the code worth knowing:
- `set_window` drops each axis on its own when that axis is out of range,
  and it always sends the memory-write command (RAMWR).
- The scratch buffer's length is never checked to be even. An odd buffer is
  modelled: `framebuf` fills its whole pixels and leaves the last byte
  alone. The solid-colour properties are stated for even buffers.
- `_set_columns`/`_set_rows` never check `start >= 0`. The model sends what
  MicroPython sends for such calls: the low 16 bits of the shifted bound.

## Model

| member | source | states |
|---|---|---|
| St7789Bus.Write | lib/st7789.py:157-166 | the command byte, if any, goes out before the payload, if any, and nothing else is sent |
| St7789Bus.EncodePos | lib/st7789.py:220-222 | four bytes whose first pair reads back big-endian as the low 16 bits of the first coordinate and whose second pair does the same for the second |
| Bytes.Be16 | lib/st7789.py:224-226 | `_encode_pixel` gives two bytes that read back big-endian as the colour's low 16 bits |
| Bytes.Be16OfU16 | lib/st7789.py:224-226 | re-encoding the value of any two bytes gives the same two bytes |
| Bytes.Be16Injective | lib/st7789.py:224-226 | two colours encode to the same bytes exactly when their low 16 bits agree |
| St7789Bus.SetColumns | lib/st7789.py:228-233 | nothing is sent exactly when `start > end` or `end >= width`; otherwise one CASET whose payload holds the bounds shifted by `xstart`, exact whenever they fit in 16 bits |
| St7789Bus.SetRows | lib/st7789.py:235-240 | the same for RASET, the height and `ystart` |
| St7789Bus.SetWindow | lib/st7789.py:242-245 | length 1, 3 or 5, depending on which axes are accepted; the last event is RAMWR and RAMWR occurs nowhere earlier; each accepted axis contributes its address-set command; RAMWR carries no payload |
| St7789Bus.WindowLayout | lib/st7789.py:242-245 | column part, row part, then RAMWR, which occurs only last; the payload is that of the address-set commands |
| St7789Bus.MemAccessByte | lib/st7789.py:198-218 | every bit of the byte is pinned: BGR is set iff `is_bgr`; the two unused low bits are clear; a vertical mirror gives ML alone whatever the rotation; otherwise a horizontal mirror gives MH alone; otherwise MX, MY and MV are bits 0, 1 and 2 of `rotation & 7` and ML and MH are clear |
| St7789Bus.MadctlBitsUnique | lib/st7789.py:198-218 | any byte obeying those bit rules is the byte sent; with no mirror it is exactly the rotation table entry for `rotation & 7`, with BGR OR-ed in when asked |
| St7789Bus.SetMemAccessMode | lib/st7789.py:198-218 | one MADCTL command carrying the single byte MemAccessByte describes |
| St7789Bus.SetColorMode | lib/st7789.py:195-196 | one COLMOD command with one byte; its reserved bits 3 and 7 are clear and its other bits are those of the mode |
| St7789Init.ChooseOrigin | lib/st7789.py:121-133 | succeeds iff both explicit offsets are non-negative or the panel is 240x240 or 135x240; explicit offsets win; otherwise (0,0) for 240x240 and (52,40) for 135x240; any other case raises InvalidArgument |
| St7789Init.ScratchBuffer | lib/st7789.py:112-114 | the caller's buffer, or 512 zero bytes |
| St7789Init.Construct | lib/st7789.py:93-147 | an unusable origin raises before any bus event; without `init` nothing is sent; with `init` and a usable origin, ZeroDivision after the power-up prefix is raised exactly when the buffer is empty, and a non-empty buffer always gives a ready display |
| St7789Init.ConstructTrace | lib/st7789.py:134-147 | a successful init sends the power-up prefix, then `fill(0)`, then DISPON and a 10 ms delay |
| St7789Init.PowerUpEvents | lib/st7789.py:134-144 | the prefix event by event: reset edges, SWRESET and 120 ms, SLPOUT and 10 ms, COLMOD with `mode & 0x77`, MADCTL with 0x10, INVON and 10 ms, NORON and 10 ms |
| St7789Init.HardResetCommands | lib/st7789.py:168-177 | the hardware reset sends no command byte |
| St7789Init.HardReset | lib/st7789.py:168-177 | nothing without a reset pin; with one, high, low, high, each followed by 10 ms, with the single low edge third |
| St7789Init.SoftReset | lib/st7789.py:179-181 | SWRESET, then a 120 ms delay |
| St7789Init.SleepMode | lib/st7789.py:183-187 | one command: SLPIN iff the argument is true, SLPOUT iff it is false |
| St7789Init.InversionMode | lib/st7789.py:189-193 | one command: INVON iff the argument is true, INVOFF iff it is false |
| St7789Init.PowerUp | lib/st7789.py:134-144 | the hardware reset first, twelve events after it, ending with NORON and 10 ms |
| St7789Init.DefaultColorMode | lib/st7789.py:93-95 | with the default colour mode the pixel-format byte is 0x55 |
| St7789Init.PowerUpCommands | lib/st7789.py:134-144 | the prefix sends exactly SWRESET, SLPOUT, COLMOD, MADCTL, INVON, NORON, in this order |
| St7789Init.InitCommands | lib/st7789.py:134-147 | on a panel of positive size, a successful init sends exactly the commands 0x01, 0x11, 0x3a, 0x36, 0x21, 0x13, 0x2a, 0x2b, 0x2c, 0x29, in this order |
| St7789Init.FillCommands | lib/st7789.py:281-282 | `fill` on a panel of positive size sends only CASET, RASET and RAMWR as commands |
| St7789Init.InitClearsPanel | lib/st7789.py:145-147 | with an even buffer, the pixel stream that init sends is `width*height` black pixels, and the trace ends with DISPON and its delay |
| St7789Draw.Solid | lib/st7789.py:270-272 | `n` pixels take `2n` bytes, and every pixel is the big-endian colour |
| St7789Draw.SolidAppend | lib/st7789.py:275-279 | two solid runs of one colour concatenate to one run |
| St7789Draw.FillPattern | lib/st7789.py:270-272 | same length as the buffer; an even buffer becomes solid colour; an odd one gets solid colour in all but its last byte, which keeps its value |
| St7789Draw.FillPatternIdempotent | lib/st7789.py:270-272 | filling an already filled buffer with the same colour changes nothing |
| St7789Draw.FillStream | lib/st7789.py:275-279 | data payloads only; each is a non-empty prefix of the buffer; all but the last are the whole buffer |
| St7789Draw.FillStreamLength | lib/st7789.py:268-279 | the stream carries exactly `total` bytes for `total >= 0`; for a negative area it carries `total mod len(buf)` bytes, as Python's floor `divmod` gives |
| St7789Draw.FillStreamSolid | lib/st7789.py:268-279 | with an even buffer holding the pattern, the stream is `total/2` pixels of the colour |
| St7789Draw.FillRect | lib/st7789.py:267-279 | raises ZeroDivision iff the buffer is empty; otherwise the buffer becomes the fill pattern and the trace is the window followed by the stream |
| St7789Draw.FillRectStream | lib/st7789.py:267-279 | after the window, `w*h*2` bytes follow, even when the window was dropped; with an even buffer they are `w*h` pixels of the colour |
| St7789Draw.FillWholePanel | lib/st7789.py:281-282 | `fill` opens the whole-panel window with both axes set, then streams `width*height` pixels of the colour |
| St7789Draw.FillRectAfterFill | lib/st7789.py:261-265 | drawing on a buffer already filled with the colour sends the same as drawing on the original buffer |
| St7789Draw.HLineStream | lib/st7789.py:250-251 | `hline` opens the one-row window from `x` to `x + length - 1` on row `y`, then streams `length` pixels of the colour |
| St7789Draw.VLineStream | lib/st7789.py:247-248 | `vline` opens the one-column window from `y` to `y + length - 1` in column `x`, then streams `length` pixels of the colour |
| St7789Draw.Rect | lib/st7789.py:261-265 | raises ZeroDivision iff the buffer is empty; otherwise sends the top, left, right and bottom lines in that order, each as its own `fill_rect` |
| St7789Draw.Pixel | lib/st7789.py:253-255 | a 1x1 window followed by one two-byte payload reading back as the colour's low 16 bits |
| St7789Draw.BlitBuffer | lib/st7789.py:257-259 | the window of the rectangle, then the buffer verbatim as one payload |
| St7789Draw.Text | lib/st7789.py:315-325 | raises BufferTooSmall iff `len(s)*128 > len(buf)`, with no bus event; otherwise only the first `len(s)*128` bytes of the buffer change, they hold the raster, and they are blitted in an `8*len(s)` by 8 window |
| St7789Draw.TextRaster | lib/st7789.py:321-324 | the raster fills exactly the `len(s)*128` bytes of an `8*len(s)` by 8 RGB565 frame; its pixels are stated by TextRasterPixel |
| St7789Draw.AsciiTextGlyphs | lib/st7789.py:324 | for characters 1..127, slot `i` shows the glyph of character `i`, and control characters show glyph 127 |
| St7789Draw.NulEndsText | lib/st7789.py:324 | every slot from the first NUL character's byte position on stays background |
| St7789Draw.NonAsciiShiftsText | lib/st7789.py:324 | "éA" is three bytes long, so it draws glyph 127 twice and the 'A' is clipped off the two-slot frame |
| Utf8.EncodeChar | lib/st7789.py:324 | the byte count follows the table of section 3 of RFC 3629: one byte, equal to the code point, exactly below 0x80; two bytes exactly for 0x80..0x7FF; three exactly for 0x800..0xFFFF; four from 0x10000 up; the lead byte of a two-, three- or four-byte form lies in 0xC0..0xDF, 0xE0..0xEF or 0xF0..0xF7, and continuation bytes in 0x80..0xBF |
| Utf8.LeadMarker | lib/st7789.py:324 | the lead byte's high bits mark the length as section 3 of RFC 3629 gives it: `110`, `1110` or `11110` |
| Utf8.DecodeEncodeChar | lib/st7789.py:324 | reading back the payload bits (the lead byte's low bits, then six bits per continuation byte) gives the code point: the encoding loses nothing |
| Utf8.EncodeAppend | lib/st7789.py:324 | the encoding of a concatenation is the concatenation of the encodings |
| Utf8.EncodeAscii | lib/st7789.py:324 | a string below 0x80 encodes to one byte per character, equal to it |
| Utf8.EncodeNoNul | lib/st7789.py:324 | only a NUL character yields a zero byte |
| Utf8.CString | lib/st7789.py:324 | C code reads a prefix of the bytes holding no zero byte, ending at the first zero byte or at the end |
| Utf8.CStringWhole | lib/st7789.py:324 | a string without NUL reaches C code whole |
| Utf8.CStringAtNul | lib/st7789.py:324 | a string is cut exactly at its first NUL character |
| St7789Draw.TextOnBus | lib/st7789.py:315-325 | one window, then one payload of `len(s)*128` bytes whose pixel at (row, col) is the foreground colour exactly where slot `col/8` holds a byte of the string's UTF-8 form before its first NUL and that byte's glyph (127 for bytes outside 32..127) has bit (row, col%8) set |
| St7789Draw.TextRasterPixel | lib/st7789.py:321-324 | the raster is row-major and `8*len(s)` pixels wide, clipping later slots; slot `i` shows the glyph of UTF-8 byte `i` before the first NUL, picking foreground or background, and is background past that NUL |
| St7789Line.Normalize | lib/st7789.py:287-294 | the walk runs along the larger extent, in increasing order, with a minor extent no larger than the major one |
| St7789Line.StepsLength | lib/st7789.py:302-313 | one point per major coordinate, and the k-th point has major coordinate `a0 + k` |
| St7789Line.StepsError | lib/st7789.py:309-312 | Bresenham's invariant: for the k-th point, whose minor coordinate is `offset` steps from the start, `err0 - k*dy + offset*dx` lies in `0..dx-1` |
| St7789Line.WalkEnds | lib/st7789.py:295-313 | the walk starts on the first endpoint and ends exactly on the second |
| St7789Line.WalkDeviation | lib/st7789.py:295-313 | every point lies within half a pixel of the ideal line along the minor axis |
| St7789Line.WalkAdjacent | lib/st7789.py:302-313 | consecutive points advance the major coordinate by one and the minor coordinate by at most one |
| St7789Line.LinePixels | lib/st7789.py:284-313 | the reference walk has `max(abs(dx), abs(dy)) + 1` pixels |
| St7789Line.LineEnds | lib/st7789.py:284-313 | `line` plots `max(abs(dx), abs(dy)) + 1` pixels; the first and last are the two endpoints, in one order or the other, and a zero-length line is its one point |
| St7789Line.LineConnected | lib/st7789.py:284-313 | consecutive pixels are distinct 8-neighbours |
| St7789Line.LineSymmetric | lib/st7789.py:287-294 | swapping the endpoints gives the same pixels in the same order |
| St7789Line.LineCloseness | lib/st7789.py:284-313 | every pixel is within half a pixel of the segment: `2*abs(cross) <= max extent` |
| St7789Line.WalkLoop | lib/st7789.py:302-313 | the `while` loop draws exactly the walk's points, in order |
| St7789Line.Line | lib/st7789.py:284-313 | `line` sends a one-pixel window plus the colour for each point of the reference walk, in order |
| Sgp30Crc.Crc8 | lib/sgp30.py:45-56 | the empty input gives the initial value 0xFF; otherwise the checksum is one more byte step after the checksum of all but the last byte |
| Sgp30Crc.Crc8Example | lib/sgp30.py:45-56 | `crc8([0xBE, 0xEF]) == 0x92`, the datasheet's example |
| Sgp30Crc.CrcAppend | lib/sgp30.py:45-56 | the checksum of a concatenation continues from the checksum of the first part |
| Sgp30Crc.CrcRoundLow | lib/sgp30.py:49-55 | the low byte after the eight shifts of the unbounded register depends only on the low byte before them |
| Sgp30Crc.CrcByteStep | lib/sgp30.py:47-55 | one outer turn is eight eight-bit CRC steps applied to `crc ^ d` |
| Sgp30Crc.Unstep8Step8 | lib/sgp30.py:49-54 | the eight steps are invertible |
| Sgp30Crc.CrcByteInjective | lib/sgp30.py:47-55 | given equal results, the registers are equal iff the data bytes are |
| Sgp30Crc.Crc8DetectsByteChange | lib/sgp30.py:45-56 | changing exactly one byte of a two-byte word always changes its checksum |
| Sgp30.PackSigned | lib/sgp30.py:169 | `pack_into("b")` stores the low byte of the value |
| Sgp30.PackSignedKeepsByte | lib/sgp30.py:168-169 | every byte value, 0x80 and above included, is stored unchanged, so the checksum goes out as computed |
| Sgp30.Frame | lib/sgp30.py:164-169 | three bytes: the big-endian low 16 bits of the value, then their checksum |
| Sgp30.Frames | lib/sgp30.py:164-171 | three bytes per value |
| Sgp30.PackWord | lib/sgp30.py:165 | the two bytes at the offset become the big-endian word; the bytes before and after it are kept |
| Sgp30.PackFrame | lib/sgp30.py:164-171 | after one loop turn, the buffer up to the end of the frame is the old prefix plus the value's frame, and the bytes after the frame are kept |
| Sgp30.PackValues | lib/sgp30.py:161-171 | the loop turns the buffer after the command word into exactly the frames of the values, in order |
| Sgp30.WriteBuffer | lib/sgp30.py:156-173 | the buffer has length `2 + 3n`, starts with the big-endian command, and is exactly the command word followed by the frames of the values |
| Sgp30.FramesLayout | lib/sgp30.py:164-171 | frame `i` of the stream is the frame of value `i` |
| Sgp30.WriteBufferFrames | lib/sgp30.py:164-171 | after the command word, frame `i` holds value `i`'s low 16 bits and a matching checksum |
| Sgp30.ParseFrames | lib/sgp30.py:145-154 | fails iff some frame's third byte is not the checksum of its first two, and then with a checksum error; otherwise gives n values, value `i` being frame `i`'s big-endian word |
| Sgp30.ReadValues | lib/sgp30.py:138-154 | the command is written without stop, then the delay, then a read of `3n` bytes with stop; the result is the parse |
| Sgp30.ParseFramesRoundTrip | lib/sgp30.py:145-171 | frames built by the encoder always parse, to the low 16 bits of each value |
| Sgp30.ParseFramesRoundTripExact | lib/sgp30.py:145-171 | values in `0..0xFFFF` come back exactly |
| Sgp30.FramesOfParsed | lib/sgp30.py:145-154 | conversely, a stream that parses is the encoding of the values it parses to |
| Sgp30.CorruptFrameRejected | lib/sgp30.py:148-150 | any single corrupted byte of a valid frame makes the check fail |
| Sgp30.ParseOne | lib/sgp30.py:145-154 | a one-frame parse gives the word, or a checksum error |
| Sgp30.SetAbsoluteHumidity | lib/sgp30.py:117-121 | refuses, with nothing written, exactly the values outside `1..0xFFFF`; otherwise one transfer of the command and one frame that parses back to the value |
| Sgp30.InitDevice | lib/sgp30.py:82-87 | INIT is always written; no baseline succeeds; a baseline succeeds iff it is a 2-tuple, whose frames then follow INIT; otherwise InvalidArgument |
| Sgp30.Start | lib/sgp30.py:72-87 | the feature-set query comes first; a bad frame or a feature set other than 0x0022 stops there; a baseline that is not a 2-tuple raises after INIT; the constructor succeeds exactly when the device answers 0x0022 and the baseline is absent or a 2-tuple, and then sends INIT, then the baseline frames when given |
| Dht12.Init | lib/dht12.py:28-31 | the buffer starts as five zero bytes |
| Dht12.Checksum | lib/dht12.py:36 | the checksum is the sum of the four data bytes modulo 256 |
| Dht12.Measure | lib/dht12.py:33-37 | the frame is stored whatever happens; success iff byte 4 equals the checksum of bytes 0-3, otherwise a checksum error |
| Dht12.ChecksumAccepted | lib/dht12.py:36-37 | a frame carrying its own checksum always passes |
| Dht12.SingleByteErrorDetected | lib/dht12.py:36-37 | corrupting any single byte of a valid frame, the checksum included, makes `measure` fail |
| Dht12.HumidityTenths | lib/dht12.py:39-40 | humidity in tenths is `b0*10 + b1`, within `0..2805` |
| Dht12.TemperatureAsWritten | lib/dht12.py:42-46 | as written: the magnitude is `b2*10 + (b3 & 0x7f)`, negative exactly when bit 7 of byte 2 is set |
| Dht12.Temperature | lib/dht12.py:42-46 | corrected: the magnitude is `b2*10 + (b3 & 0x7f)`; negative only with bit 7 of byte 3 set, positive only with it clear |
| Dht12.AsWrittenNegative | lib/dht12.py:42-46 | as written, the temperature is negative iff bit 7 of byte 2 is set, and it is then at most -128.0 degrees |
| Dht12.AsWrittenIgnoresSignBit | lib/dht12.py:43 | as written, bit 7 of byte 3 never affects the temperature |
| Dht12.AsWrittenLosesSign | lib/dht12.py:42-46 | the valid frame `[0, 0, 5, 0x83, 0x88]` for -5.3 degrees reads as +5.3 |
| Dht12.TemperatureSign | lib/dht12.py:42-46 | corrected reading: within ±267.7 degrees (±2677 tenths, from `255*10 + 127`), and negative only when bit 7 of byte 3 is set |
| Dht12.DecodeEncode | lib/dht12.py:33-46 | every reading the frame can carry survives `measure` and the getters unchanged |
| Axp192.ReadReg | lib/axp192.py:302-304 | returns the register's byte and logs the read |
| Axp192.WriteReg | lib/axp192.py:306-308 | stores the byte in that register only and logs the write |
| Axp192.ReadAfterWrite | lib/axp192.py:302-308 | reading a register right after writing it gives the byte written |
| Axp192.WriteWhatWasRead | lib/axp192.py:302-308 | writing back the byte just read leaves the registers as they were |
| Axp192.EnableRailsBits | lib/axp192.py:224-229 | the DCDC13/LDO23 update sets bits 0, 2 and 3, keeps every other bit, and is idempotent |
| Axp192.Rails | lib/axp192.py:215-229 | 0x28 gets 0xCC, 0x10 gets 0x04, then 0x12 is read and rewritten with bits 0, 2, 3 set |
| Axp192.Monitoring | lib/axp192.py:231-265 | 0x84 gets 0xF2, 0x82 gets 0xFF, 0x30 gets 0x63, 0x31 gets 0x04, 0x33 gets 0xC0, in this order |
| Axp192.Protection | lib/axp192.py:267-289 | 0x36 gets 0x1C, 0x39 gets 0xFC, 0x35 gets 0xA2, 0x91 gets 0xF0, 0x90 gets 0x02, in this order |
| Axp192.OnInit | lib/axp192.py:214-289 | the programme makes exactly these 14 transfers, in order: 13 writes and the read of 0x12 before its rewrite |
| Axp192.OnInitRegisters | lib/axp192.py:214-289 | the 13 registers end with the programmed values, and every other register is unchanged |
| Axp192.Construct | lib/axp192.py:293-300 | raises iff register 0x00 reads 0xFF, after that one read only; the board programme runs only after the check, and only when a board is given |
| Axp192.PekButton | lib/axp192.py:361-367 | reads 0x46 and writes back its two key bits; reports either press, or with `long` only bit 0 |
| Axp192.PekButtonWritesOnlyKeyBits | lib/axp192.py:363-364 | the byte written back holds only key bits, and only those that were set |
| Axp192.PowerOff | lib/axp192.py:369-372 | bit 7 of 0x32 ends up set, its other bits and all other registers are unchanged, and the transfers are one read and one write |
| Axp192.ReadAdc | lib/axp192.py:310-359 | the getters read the high register, then the low one, change no register, and return `(high << n) \| low` |
| Axp192.Compose | lib/axp192.py:310-359 | the raw value has 12 bits, or 13 for the battery currents; when the low register keeps to its `n` bits it is `high*2^n + low` |
| Axp192.ComposeSplit | lib/axp192.py:310-359 | composing the register pair of any 12-bit (13-bit) value gives it back |
| Axp192.SplitCompose | lib/axp192.py:310-359 | splitting a composed value gives back a pair whose low byte keeps to its bits |
| Axp192.ComposeInjective | lib/axp192.py:310-359 | distinct well-formed register pairs compose to distinct raw values |
| Axp192.UnmaskedLowBitsOverlap | lib/axp192.py:310-313 | the low register is not masked: the pairs (0x01, 0x10) and (0x00, 0x10) compose to the same value |
| Axp192.ReadBattPower | lib/axp192.py:315-319 | three reads, high first, changing no register, returning the composition of the three bytes |
| Axp192.Compose24 | lib/axp192.py:315-319 | the power reading is `h*2^16 + m*2^8 + l`, below 2^24 |
| Axp192.Compose24Bytes | lib/axp192.py:315-319 | each of the three bytes can be recovered from the power reading |

## Left out

- Bus timing and transport. Delays are trace markers, not waits, and
  transport faults are not modelled.
- The chip-select pin (lib/st7789.py:149-155) is not modelled: `cs` only
  frames transfers.
- The `sys.byteorder` lambda: only its net effect is modelled, which is
  big-endian pixels on the wire.
- `framebuf` is not part of this model. Its fill is modelled as "every whole
  pixel of the buffer holds the big-endian colour". Its text drawing is
  modelled from its documented behaviour: one 8x8 glyph per UTF-8 byte of
  the string up to the first NUL, glyph 127 for bytes outside 32..127, and
  clipping at the frame's edge. The font bitmap itself is an uninterpreted
  function from glyph code, row and column to a bit.
- St7789Draw.HLineStream: stated for non-negative lengths and even buffers,
  as FillRectStream is; FillRect gives the byte count in the other cases.
- St7789Draw.VLineStream: as for HLineStream.
- Floating point: the DHT12 getters return integer tenths, the AXP192 getters
  stop at raw values, and `absolute_humidity` (which uses `exp`) is not
  modelled.
- Sgp30.SetAbsoluteHumidity: takes the integer `int(ah * 256)`; the float
  conversion is left out.
- The SGP30 background thread, its lock, `_loop`, `stop`, the cached
  `measure` and `baseline()`: these are concurrency.
- Sgp30.Start: the baseline argument is reduced to whether it is a tuple and
  its items.
- Sgp30.Start: the background thread it starts at the end is not modelled.
- I2C device addresses are not modelled: each driver talks to one device.
- Axp192.PekButton: the chip clears the bits written back to 0x46
  (write-1-to-clear). The register file here is plain memory, so the model
  stores the written byte. The logged transfers are exact.
- Axp192.Device: the register file is a sequence of 256 bytes indexed by
  address rather than a map. Every address is defined, so reads need no
  "missing key" case.
- St7789Bus.SetColumns: no `start >= 0` precondition. A negative or
  oversized shifted bound is sent as its low 16 bits, as `ustruct.pack`
  does.
- St7789Bus.SetRows: as for SetColumns.
- St7789Draw.FillRectStream: the solid-colour part is stated only for
  even-length buffers. With an odd buffer the stale last byte shifts the
  pattern, and only the byte count is stated.
- Sgp30.PackSigned: MicroPython's `pack_into("b")` stores the low byte with no
  range check, so checksums of 0x80 or more go out unchanged. CPython would
  raise instead; that behaviour is not modelled.
- ST7789 `sleep_mode(True)` and `inversion_mode(False)` are modelled as
  functions, but nothing in the core calls them with those values.
- The unused command and register constants are not modelled.

## Findings

| source | as written | input that shows it | evidently intended | confidence | as-written member | corrected member |
|---|---|---|---|---|---|---|
| lib/dht12.py:42-46 | the sign of the temperature is taken from bit 7 of byte 2, the integer part; bit 7 of byte 3, the sensor's sign bit, is masked out and ignored | the valid frame `[0, 0, 5, 0x83, 0x88]` (-5.3 degrees) reads as +5.3; any frame with bit 7 of byte 2 set reads at or below -128 degrees | the sign comes from bit 7 of byte 3, giving -5.3 | not executed; the frame layout is the DHT12's own | Dht12.TemperatureAsWritten (Dht12.AsWrittenLosesSign) | Dht12.Temperature (Dht12.DecodeEncode) |
