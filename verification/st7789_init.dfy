/** `ST7789.__init__`: choosing the panel origin, allocating the scratch
    buffer and, when asked to, the power-up command sequence. */
module St7789Init {
  import opened Bytes
  import opened Results
  import opened St7789Bus
  import opened St7789Draw
  import Arith

  const BUF_DEFAULT_LEN: nat := 512
  /** `ColorMode_65K | ColorMode_16bit`. */
  const COLOR_MODE_DEFAULT: int := 0x55

  /** The constructor's arguments, with the SPI bus and the data/command
      pin left implicit (they carry the trace) and the reset pin reduced to
      whether one was given. */
  datatype Config = Config(
    width: int,
    height: int,
    hasReset: bool,
    buf: Option<seq<bv8>>,
    xstart: int,
    ystart: int,
    init: bool,
    colorMode: int)

  /** The arguments of a call that leaves every optional argument at its
      default. */
  function DefaultConfig(width: int, height: int, hasReset: bool): Config
  {
    Config(width, height, hasReset, None, -1, -1, true, COLOR_MODE_DEFAULT)
  }

  /** What the constructor leaves behind: a driver object and the bus
      traffic so far, or the exception it raised and the traffic before it. */
  datatype Outcome =
    | Ready(display: Display, trace: seq<Event>)
    | Raised(error: Error, trace: seq<Event>)

  /** The origin offsets: explicit ones when both are non-negative, the
      built-in ones for the two panels the driver knows, an error otherwise. */
  function ChooseOrigin(width: int, height: int, xstart: int, ystart: int): (r: Result<(int, int), Error>)
    ensures r.Failure? ==> r.error == InvalidArgument
    ensures r.Success? <==>
              || (xstart >= 0 && ystart >= 0)
              || (width == 240 && height == 240)
              || (width == 135 && height == 240)
    ensures xstart >= 0 && ystart >= 0 ==> r == Success((xstart, ystart))
    ensures r.Success? && (xstart < 0 || ystart < 0) ==>
              if width == 240 then r.value == (0, 0) else r.value == (52, 40)
  {
    if xstart >= 0 && ystart >= 0 then Success((xstart, ystart))
    else if (width, height) == (240, 240) then Success((0, 0))
    else if (width, height) == (135, 240) then Success((52, 40))
    else Failure(InvalidArgument)
  }

  /** `hard_reset()`: the reset pin goes high, low, high, 10 ms apart, when
      there is one. */
  function HardReset(hasReset: bool): (t: seq<Event>)
    ensures forall i :: 0 <= i < |t| ==> t[i].ResetLine? || t[i].Delay?
    ensures t == [] <==> !hasReset
    ensures hasReset ==>
              && |t| == 6
              && (forall i :: 0 <= i < |t| ==> (t[i] == Delay(10) <==> i % 2 == 1))
              && (forall i :: 0 <= i < |t| ==> (t[i] == ResetLine(false) <==> i == 2))
              && t[|t| - 2] == ResetLine(true)
  {
    if hasReset then [ResetLine(true), Delay(10), ResetLine(false), Delay(10), ResetLine(true), Delay(10)]
    else []
  }

  /** `soft_reset()`. */
  function SoftReset(): (t: seq<Event>)
    ensures t == [Command(SWRESET), Delay(120)]
  {
    Write(Some(SWRESET), None) + [Delay(120)]
  }

  /** `sleep_mode(value)`. */
  function SleepMode(value: bool): (t: seq<Event>)
    ensures |t| == 1 && t[0].Command?
    ensures t[0].code == SLPIN <==> value
    ensures t[0].code == SLPOUT <==> !value
  {
    Write(Some(if value then SLPIN else SLPOUT), None)
  }

  /** `inversion_mode(value)`. */
  function InversionMode(value: bool): (t: seq<Event>)
    ensures |t| == 1 && t[0].Command?
    ensures t[0].code == INVON <==> value
    ensures t[0].code == INVOFF <==> !value
  {
    Write(Some(if value then INVON else INVOFF), None)
  }

  /** Everything `__init__` sends before `fill(0)`. */
  function PowerUp(hasReset: bool, colorMode: int): (t: seq<Event>)
    ensures |t| == |HardReset(hasReset)| + 12
    ensures t[..|HardReset(hasReset)|] == HardReset(hasReset)
    ensures t[|t| - 2..] == [Command(NORON), Delay(10)]
  {
    HardReset(hasReset)
    + SoftReset()
    + SleepMode(false)
    + [Delay(10)]
    + SetColorMode(colorMode)
    + SetMemAccessMode(4, true, true, false)
    + InversionMode(true)
    + [Delay(10)]
    + Write(Some(NORON), None)
    + [Delay(10)]
  }

  /** The scratch buffer: the caller's, or 512 zero bytes. */
  function ScratchBuffer(buf: Option<seq<bv8>>): (b: seq<bv8>)
    ensures buf.Some? ==> b == buf.value
    ensures buf.None? ==> |b| == BUF_DEFAULT_LEN && forall i :: 0 <= i < |b| ==> b[i] == 0
  {
    if buf.Some? then buf.value else seq(BUF_DEFAULT_LEN, _ => 0 as bv8)
  }

  /** `ST7789(...)`. */
  function Construct(c: Config): (r: Outcome)
    ensures ChooseOrigin(c.width, c.height, c.xstart, c.ystart).Failure? <==> r == Raised(InvalidArgument, [])
    ensures r.Ready? ==>
              && r.display.width == c.width && r.display.height == c.height
              && (r.display.xstart, r.display.ystart) == ChooseOrigin(c.width, c.height, c.xstart, c.ystart).value
              && |r.display.buf| == |ScratchBuffer(c.buf)|
    ensures !c.init && r.Ready? ==> r.trace == [] && r.display.buf == ScratchBuffer(c.buf)
    ensures r.Raised? && r.error != InvalidArgument ==>
              r.error == ZeroDivision && c.init && |ScratchBuffer(c.buf)| == 0
              && r.trace == PowerUp(c.hasReset, c.colorMode)
    ensures c.init && ChooseOrigin(c.width, c.height, c.xstart, c.ystart).Success? ==>
              (r == Raised(ZeroDivision, PowerUp(c.hasReset, c.colorMode)) <==> |ScratchBuffer(c.buf)| == 0)
    ensures ChooseOrigin(c.width, c.height, c.xstart, c.ystart).Success? && |ScratchBuffer(c.buf)| > 0 ==> r.Ready?
  {
    match ChooseOrigin(c.width, c.height, c.xstart, c.ystart)
    case Failure(e) => Raised(e, [])
    case Success(origin) =>
      var d := Display(c.width, c.height, origin.0, origin.1, ScratchBuffer(c.buf));
      if !c.init then Ready(d, [])
      else
        var prefix := PowerUp(c.hasReset, c.colorMode);
        match Fill(d, 0)
        case Failure(e) => Raised(e, prefix)
        case Success(drawn) =>
          Ready(drawn.display, prefix + drawn.trace + Write(Some(DISPON), None) + [Delay(10)])
  }

  /** The command bytes of a trace, in order. */
  function Commands(t: seq<Event>): seq<bv8>
  {
    if |t| == 0 then []
    else (if t[0].Command? then [t[0].code] else []) + Commands(t[1..])
  }

  lemma {:induction false} CommandsAppend(a: seq<Event>, b: seq<Event>)
    ensures Commands(a + b) == Commands(a) + Commands(b)
    decreases |a|
  {
    if |a| > 0 {
      assert (a + b)[1..] == a[1..] + b;
      CommandsAppend(a[1..], b);
    } else {
      assert a + b == b;
    }
  }

  /** A trace without command events has no command bytes. */
  lemma {:induction false} CommandsOfNone(t: seq<Event>)
    requires forall i :: 0 <= i < |t| ==> !t[i].Command?
    ensures Commands(t) == []
    decreases |t|
  {
    if |t| > 0 {
      CommandsOfNone(t[1..]);
    }
  }

  /** Commands of a trace split after its first `k` events. */
  lemma CommandsSplit(t: seq<Event>, k: nat)
    requires k <= |t|
    ensures Commands(t) == Commands(t[..k]) + Commands(t[k..])
  {
    assert t == t[..k] + t[k..];
    CommandsAppend(t[..k], t[k..]);
  }

  /** A command followed by something other than a command. */
  lemma CommandThen(c: bv8, e: Event)
    requires !e.Command?
    ensures Commands([Command(c), e]) == [c]
  {
    var t := [Command(c), e];
    assert t[1..] == [e];
    assert [e][1..] == [];
    assert Commands([e]) == [];
  }

  lemma HardResetCommands(hasReset: bool)
    ensures Commands(HardReset(hasReset)) == []
  {
    CommandsOfNone(HardReset(hasReset));
  }

  /** The power-up part of the sequence, event by event. */
  lemma PowerUpEvents(hasReset: bool, colorMode: int)
    ensures PowerUp(hasReset, colorMode)
            == HardReset(hasReset)
               + [Command(0x01), Delay(120)]
               + [Command(0x11), Delay(10)]
               + [Command(0x3a), Data([ToByte(colorMode % 0x100) & 0x77])]
               + [Command(0x36), Data([0x10])]
               + [Command(0x21), Delay(10)]
               + [Command(0x13), Delay(10)]
  {
    assert MemAccessByte(4, true, true, false) == 0x10;
  }

  /** With the default colour mode the pixel format byte is 0x55. */
  lemma DefaultColorMode()
    ensures SetColorMode(COLOR_MODE_DEFAULT) == [Command(COLMOD), Data([0x55])]
  {
    assert ToByte(0x55) == 0x55;
  }

  /** The driver object `__init__` builds before any bus traffic. */
  function InitialDisplay(c: Config): Display
    requires ChooseOrigin(c.width, c.height, c.xstart, c.ystart).Success?
  {
    var origin := ChooseOrigin(c.width, c.height, c.xstart, c.ystart).value;
    Display(c.width, c.height, origin.0, origin.1, ScratchBuffer(c.buf))
  }

  /** A successful power-up: the power-up commands, `fill(0)`, display on. */
  lemma ConstructTrace(c: Config)
    requires c.init && Construct(c).Ready?
    ensures ChooseOrigin(c.width, c.height, c.xstart, c.ystart).Success?
    ensures Fill(InitialDisplay(c), 0).Success?
    ensures Construct(c).trace
            == PowerUp(c.hasReset, c.colorMode) + Fill(InitialDisplay(c), 0).value.trace
               + [Command(DISPON), Delay(10)]
  {
  }

  lemma PowerUpCommands(hasReset: bool, colorMode: int)
    ensures Commands(PowerUp(hasReset, colorMode)) == [SWRESET, SLPOUT, COLMOD, MADCTL, INVON, NORON]
  {
    var a := HardReset(hasReset) + [Command(0x01), Delay(120)] + [Command(0x11), Delay(10)];
    var b := [Command(0x3a), Data([ToByte(colorMode % 0x100) & 0x77])] + [Command(0x36), Data([0x10])]
             + [Command(0x21), Delay(10)];
    var c := [Command(0x13), Delay(10)];
    ResetCommands(hasReset);
    ConfigureCommands(colorMode);
    CommandThen(0x13, Delay(10));
    assert PowerUp(hasReset, colorMode) == a + b + c by {
      PowerUpEvents(hasReset, colorMode);
    }
    Commands3(a, b, c);
  }

  lemma ResetCommands(hasReset: bool)
    ensures Commands(HardReset(hasReset) + [Command(0x01), Delay(120)] + [Command(0x11), Delay(10)])
            == [SWRESET, SLPOUT]
  {
    HardResetCommands(hasReset);
    CommandThen(0x01, Delay(120));
    CommandThen(0x11, Delay(10));
    Commands3(HardReset(hasReset), [Command(0x01), Delay(120)], [Command(0x11), Delay(10)]);
  }

  lemma ConfigureCommands(colorMode: int)
    ensures Commands([Command(0x3a), Data([ToByte(colorMode % 0x100) & 0x77])] + [Command(0x36), Data([0x10])]
                     + [Command(0x21), Delay(10)])
            == [COLMOD, MADCTL, INVON]
  {
    var p := [Command(0x3a), Data([ToByte(colorMode % 0x100) & 0x77])];
    CommandThen(0x3a, Data([ToByte(colorMode % 0x100) & 0x77]));
    CommandThen(0x36, Data([0x10]));
    CommandThen(0x21, Delay(10));
    Commands3(p, [Command(0x36), Data([0x10])], [Command(0x21), Delay(10)]);
  }

  lemma Commands3(a: seq<Event>, b: seq<Event>, c: seq<Event>)
    ensures Commands(a + b + c) == Commands(a) + Commands(b) + Commands(c)
  {
    CommandsAppend(a, b);
    CommandsAppend(a + b, c);
  }

  /** On a panel of positive size, a successful power-up sends exactly
      these commands, in this order: reset, sleep out, pixel format, memory
      access, inversion on, normal mode, the whole-panel window of
      `fill(0)`, display on. */
  lemma InitCommands(c: Config)
    requires c.init && c.width > 0 && c.height > 0
    requires Construct(c).Ready?
    ensures Commands(Construct(c).trace)
            == [SWRESET, SLPOUT, COLMOD, MADCTL, INVON, NORON, CASET, RASET, RAMWR, DISPON]
  {
    var d := InitialDisplay(c);
    assert Fill(d, 0).Success? && |d.buf| > 0
           && Construct(c).trace == PowerUp(c.hasReset, c.colorMode) + Fill(d, 0).value.trace
                                    + [Command(DISPON), Delay(10)] by {
      ConstructTrace(c);
    }
    var prefix := PowerUp(c.hasReset, c.colorMode);
    var t := Fill(d, 0).value.trace;
    var tail := [Command(DISPON), Delay(10)];
    PowerUpCommands(c.hasReset, c.colorMode);
    FillCommands(d);
    CommandThen(DISPON, Delay(10));
    Commands3(prefix, t, tail);
  }

  /** `fill(0)` on a panel of positive size sends three commands: the
      column and row windows and the memory write. */
  lemma FillCommands(d: Display)
    requires |d.buf| > 0 && d.width > 0 && d.height > 0
    ensures Commands(Fill(d, 0).value.trace) == [CASET, RASET, RAMWR]
  {
    FillWholePanel(d, 0);
    WindowCommands(Fill(d, 0).value.trace);
  }

  /** A whole-panel window followed by payloads carries three commands. */
  lemma WindowCommands(t: seq<Event>)
    requires |t| >= 5
    requires t[0] == Command(CASET) && t[1].Data?
    requires t[2] == Command(RASET) && t[3].Data?
    requires t[4] == Command(RAMWR) && DataOnly(t[5..])
    ensures Commands(t) == [CASET, RASET, RAMWR]
  {
    CommandsSplit(t, 5);
    CommandsOfNone(t[5..]);
    var w := t[..5];
    assert w == [w[0], w[1]] + [w[2], w[3]] + [w[4]];
    CommandThen(CASET, w[1]);
    CommandThen(RASET, w[3]);
    assert [w[4]][1..] == [];
    CommandsAppend([w[0], w[1]], [w[2], w[3]]);
    CommandsAppend([w[0], w[1]] + [w[2], w[3]], [w[4]]);
  }

  /** After a successful power-up with an even buffer, the panel has been
      cleared: every pixel streamed by `fill(0)` is zero. */
  lemma InitClearsPanel(c: Config)
    requires c.init && c.width > 0 && c.height > 0
    requires Construct(c).Ready? && |ScratchBuffer(c.buf)| % 2 == 0
    ensures var t := Construct(c).trace;
            var n := |PowerUp(c.hasReset, c.colorMode)|;
            && n + 5 <= |t| - 2
            && DataOnly(t[n + 5..|t| - 2])
            && t[|t| - 2..] == [Command(DISPON), Delay(10)]
            && (Arith.PositiveProduct(c.width, c.height);
                Payload(t[n + 5..|t| - 2]) == Solid(0, c.width * c.height))
  {
    ConstructTrace(c);
    var d := InitialDisplay(c);
    var prefix := PowerUp(c.hasReset, c.colorMode);
    var ft := Fill(d, 0).value.trace;
    FillWholePanel(d, 0);
    SliceMiddle(prefix, ft, [Command(DISPON), Delay(10)], 5);
  }

  lemma SliceMiddle<T>(a: seq<T>, b: seq<T>, c: seq<T>, k: nat)
    requires k <= |b|
    ensures var t := a + b + c;
            && t[|a| + k..|t| - |c|] == b[k..]
            && t[|t| - |c|..] == c
  {
  }
}
