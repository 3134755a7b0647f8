/** The SGP30 air-quality sensor driver's I2C framing: commands go out as
    a 16-bit word followed by checksummed value frames, and readings come
    back as checksummed frames. */
module Sgp30 {
  import opened Bytes
  import opened Results
  import opened Sgp30Crc

  const CMD_INIT: int := 0x2003
  const CMD_MEASURE: int := 0x2008
  const CMD_FEATURE_SET: int := 0x202f
  const CMD_READ_BASELINE: int := 0x2015
  const CMD_WRITE_BASELINE: int := 0x201e
  const CMD_WRITE_ABS_HUMIDITY: int := 0x2061
  /** The feature-set word the driver expects from the device. */
  const FEATURE_SET: int := 0x0022

  const FRAME_LEN: nat := 3
  const DATA_LEN: nat := 2
  const CMD_LEN: nat := 2

  /** One transfer on the I2C bus, or a pause between transfers. */
  datatype I2cEvent =
    | WriteTo(bytes: seq<bv8>, stop: bool)
    | Pause(ms: nat)
    | ReadFrom(count: nat, stop: bool)

  datatype Error =
    | ChecksumError       // a frame's third byte is not the CRC of its first two
    | DeviceNotFound      // the feature set is not 0x0022
    | InvalidArgument     // a baseline that is not a 2-tuple
    | OutOfRange          // an absolute humidity outside 1..0xFFFF

  /** `pack_into("b", buf, off, crc)`: MicroPython stores the low byte of
      the value with no range check, so a checksum of 0x80 or more is stored
      unchanged even though "b" is the signed format. */
  function PackSigned(v: int): (b: bv8)
    ensures b as int == v % 0x100
  {
    ToByte(v % 0x100)
  }

  lemma PackSignedKeepsByte(b: bv8)
    ensures PackSigned(b as int) == b
  {
    IntRoundTrip(b);
  }

  /** The frame of one value: its big-endian word and the word's checksum. */
  function Frame(value: int): (f: seq<bv8>)
    ensures |f| == FRAME_LEN
    ensures U16(f[..DATA_LEN]) == Wrap16(value)
    ensures f[DATA_LEN] == Crc8(f[..DATA_LEN])
  {
    var w := Be16(value);
    w + [Crc8(w)]
  }

  /** The frames of `values`, in order. */
  function Frames(values: seq<int>): (raw: seq<bv8>)
    ensures |raw| == FRAME_LEN * |values|
    decreases |values|
  {
    if |values| == 0 then [] else Frame(values[0]) + Frames(values[1..])
  }

  /** Frame `i` of a frame stream. */
  function FrameAt(raw: seq<bv8>, i: int): seq<bv8>
    requires 0 <= i && FRAME_LEN * i + FRAME_LEN <= |raw|
  {
    raw[FRAME_LEN * i..FRAME_LEN * i + FRAME_LEN]
  }

  /** A frame whose third byte is the checksum of the first two. */
  predicate FrameOk(f: seq<bv8>)
    requires |f| == FRAME_LEN
  {
    f[2] == Crc8(f[..2])
  }

  lemma {:induction false} FramesLayout(values: seq<int>)
    ensures |Frames(values)| == FRAME_LEN * |values|
    ensures forall i :: 0 <= i < |values| ==> FrameAt(Frames(values), i) == Frame(values[i])
    decreases |values|
  {
    if |values| > 0 {
      var rest := Frames(values[1..]);
      FramesLayout(values[1..]);
      var all := Frames(values);
      assert all == Frame(values[0]) + rest;
      forall i | 0 <= i < |values|
        ensures FrameAt(all, i) == Frame(values[i])
      {
        if i > 0 {
          FrameAtShift(Frame(values[0]), rest, i);
        }
      }
    }
  }

  /** Frame `i` of a stream that starts with one more frame is frame
      `i - 1` of the rest. */
  lemma FrameAtShift(first: seq<bv8>, rest: seq<bv8>, i: int)
    requires |first| == FRAME_LEN && 0 < i && FRAME_LEN * i + FRAME_LEN <= |first| + |rest|
    ensures FrameAt(first + rest, i) == FrameAt(rest, i - 1)
  {
    var lo := FRAME_LEN * (i - 1);
    assert FRAME_LEN * i == lo + FRAME_LEN;
    forall k | 0 <= k < FRAME_LEN
      ensures FrameAt(first + rest, i)[k] == FrameAt(rest, i - 1)[k]
    {
      assert (first + rest)[lo + FRAME_LEN + k] == rest[lo + k];
    }
  }

  /** `pack_into(">H", buf, off, v)`. */
  function PackWord(buf: seq<bv8>, off: nat, v: int): (r: seq<bv8>)
    requires off + DATA_LEN <= |buf|
    ensures |r| == |buf|
    ensures r[..off] == buf[..off] && r[off..off + DATA_LEN] == Be16(v)
    ensures r[off + DATA_LEN..] == buf[off + DATA_LEN..]
  {
    var r := buf[..off] + Be16(v) + buf[off + DATA_LEN..];
    assert r[off..off + DATA_LEN] == Be16(v);
    r
  }

  /** One turn of the loop of `_write_values`: pack the word at `off`, then
      its checksum right after it. */
  function PackFrame(buf: seq<bv8>, off: nat, v: int): (r: seq<bv8>)
    requires off + FRAME_LEN <= |buf|
    ensures |r| == |buf|
    ensures r[..off + FRAME_LEN] == buf[..off] + Frame(v)
    ensures r[off + FRAME_LEN..] == buf[off + FRAME_LEN..]
  {
    var w := PackWord(buf, off, v);
    var crc := Crc8(w[off..off + DATA_LEN]);
    PackSignedKeepsByte(crc);
    var r := w[off + DATA_LEN := PackSigned(crc as int)];
    assert r[..off + FRAME_LEN] == w[..off] + w[off..off + DATA_LEN] + [crc];
    r
  }

  /** `_write_values(cmd, values)` builds this buffer and writes it in one
      transfer: the command word, then for each value its word followed by
      the checksum of exactly those two bytes. */
  method WriteBuffer(cmd: int, values: seq<int>) returns (buf: seq<bv8>)
    ensures |buf| == CMD_LEN + FRAME_LEN * |values|
    ensures buf[..CMD_LEN] == Be16(cmd)
    ensures buf == Be16(cmd) + Frames(values)
  {
    buf := seq(CMD_LEN + FRAME_LEN * |values|, _ => 0 as bv8);
    buf := PackWord(buf, 0, cmd);
    buf := PackValues(buf, Be16(cmd), values);
  }

  /** The loop of `_write_values`: after the `head` already packed, one
      frame per value, filling the buffer exactly. */
  method PackValues(start: seq<bv8>, head: seq<bv8>, values: seq<int>) returns (buf: seq<bv8>)
    requires |start| == |head| + FRAME_LEN * |values|
    requires start[..|head|] == head
    ensures buf == head + Frames(values)
  {
    buf := start;
    var offset := |head|;
    var k := 0;
    assert buf[..offset] == head + Frames(values[..k]);
    while k < |values|
      invariant 0 <= k <= |values|
      invariant offset == |head| + FRAME_LEN * k
      invariant |buf| == |head| + FRAME_LEN * |values|
      invariant buf[..offset] == head + Frames(values[..k])
    {
      ghost var prev := buf;
      buf := PackFrame(buf, offset, values[k]);
      FrameAppended(prev, buf, offset, head, values[..k], values[k]);
      assert values[..k + 1] == values[..k] + [values[k]];
      offset := offset + FRAME_LEN;
      k := k + 1;
    }
    assert values[..k] == values;
    assert buf[..offset] == buf;
  }

  /** The loop invariant of `_write_values` survives one more frame. */
  lemma FrameAppended(prev: seq<bv8>, next: seq<bv8>, off: nat, head: seq<bv8>, done: seq<int>, v: int)
    requires off + FRAME_LEN <= |prev| && off + FRAME_LEN <= |next|
    requires prev[..off] == head + Frames(done)
    requires next[..off + FRAME_LEN] == prev[..off] + Frame(v)
    ensures next[..off + FRAME_LEN] == head + Frames(done + [v])
  {
    FramesSnoc(done, v);
  }

  /** What the bytes after the command word say, frame by frame. */
  lemma WriteBufferFrames(cmd: int, values: seq<int>, buf: seq<bv8>)
    requires buf == Be16(cmd) + Frames(values)
    ensures |buf[CMD_LEN..]| == FRAME_LEN * |values|
    ensures forall i :: 0 <= i < |values| ==>
              U16(FrameAt(buf[CMD_LEN..], i)[..2]) == Wrap16(values[i])
              && FrameOk(FrameAt(buf[CMD_LEN..], i))
  {
    assert buf[CMD_LEN..] == Frames(values);
    FramesValid(values);
  }

  lemma {:induction false} FramesSnoc(values: seq<int>, v: int)
    ensures Frames(values + [v]) == Frames(values) + Frame(v)
    decreases |values|
  {
    if |values| > 0 {
      assert (values + [v])[1..] == values[1..] + [v];
      FramesSnoc(values[1..], v);
    } else {
      assert values + [v] == [v];
      assert Frames([v]) == Frame(v) + Frames([]);
    }
  }

  /** Every frame the encoder builds carries the value's low 16 bits and a
      matching checksum. */
  lemma FramesValid(values: seq<int>)
    ensures var raw := Frames(values);
            && |raw| == FRAME_LEN * |values|
            && forall i :: 0 <= i < |values| ==>
                 U16(FrameAt(raw, i)[..2]) == Wrap16(values[i]) && FrameOk(FrameAt(raw, i))
  {
    FramesLayout(values);
    forall i | 0 <= i < |values|
      ensures U16(FrameAt(Frames(values), i)[..2]) == Wrap16(values[i])
      ensures FrameOk(FrameAt(Frames(values), i))
    {
      var f := Frame(values[i]);
      assert f[..2] == Be16(values[i]);
    }
  }

  /** The parsing loop of `_read_values` over `n` frames: stops with a
      checksum error at the first bad frame, otherwise returns every frame's
      word in order. */
  function ParseFrames(raw: seq<bv8>, n: nat): (r: Result<seq<int>, Error>)
    requires |raw| == FRAME_LEN * n
    ensures r.Failure? ==> r.error == ChecksumError
    ensures r.Success? <==> forall i :: 0 <= i < n ==> FrameOk(FrameAt(raw, i))
    ensures r.Success? ==>
              && |r.value| == n
              && forall i :: 0 <= i < n ==> r.value[i] == U16(FrameAt(raw, i)[..2])
    decreases n
  {
    if n == 0 then Success([])
    else
      var f := raw[..FRAME_LEN];
      var rest := raw[FRAME_LEN..];
      FramesShift(raw, n);
      if f[2] != Crc8(f[..2]) then Failure(ChecksumError)
      else
        match ParseFrames(rest, n - 1)
        case Failure(e) => Failure(e)
        case Success(vs) => Success([U16(f[..2])] + vs)
  }

  /** Frame `i + 1` of a stream is frame `i` of the stream after its first
      frame. */
  lemma FramesShift(raw: seq<bv8>, n: nat)
    requires |raw| == FRAME_LEN * n && n > 0
    ensures FrameAt(raw, 0) == raw[..FRAME_LEN]
    ensures forall i :: 0 < i < n ==> FrameAt(raw, i) == FrameAt(raw[FRAME_LEN..], i - 1)
    ensures (forall i :: 0 <= i < n ==> FrameOk(FrameAt(raw, i)))
            <==> FrameOk(raw[..FRAME_LEN])
                 && forall i :: 0 <= i < n - 1 ==> FrameOk(FrameAt(raw[FRAME_LEN..], i))
  {
    var rest := raw[FRAME_LEN..];
    assert raw == raw[..FRAME_LEN] + rest;
    forall i | 0 < i < n
      ensures FrameAt(raw, i) == FrameAt(rest, i - 1)
    {
      FrameAtShift(raw[..FRAME_LEN], rest, i);
    }
    if forall i :: 0 <= i < n - 1 ==> FrameOk(FrameAt(rest, i)) {
      forall i | 0 < i < n
        ensures FrameOk(FrameAt(raw, i))
      {
        assert FrameAt(raw, i) == FrameAt(rest, i - 1);
      }
    }
    if forall i :: 0 <= i < n ==> FrameOk(FrameAt(raw, i)) {
      forall i | 0 <= i < n - 1
        ensures FrameOk(FrameAt(rest, i))
      {
        assert FrameAt(raw, i + 1) == FrameAt(rest, i);
      }
    }
  }

  /** Round trip: frames built by the encoder always decode, without a
      checksum error, to the values' low 16 bits. */
  lemma ParseFramesRoundTrip(values: seq<int>)
    ensures |Frames(values)| == FRAME_LEN * |values|
    ensures var r := ParseFrames(Frames(values), |values|);
            && r.Success?
            && |r.value| == |values|
            && forall i :: 0 <= i < |values| ==> r.value[i] == Wrap16(values[i])
  {
    FramesValid(values);
  }

  /** ... and to the values themselves when they fit in 16 bits. */
  lemma ParseFramesRoundTripExact(values: seq<int>)
    requires forall i :: 0 <= i < |values| ==> 0 <= values[i] < 0x1_0000
    ensures |Frames(values)| == FRAME_LEN * |values|
    ensures ParseFrames(Frames(values), |values|) == Success(values)
  {
    ParseFramesRoundTrip(values);
    var vs := ParseFrames(Frames(values), |values|).value;
    assert forall i :: 0 <= i < |values| ==> vs[i] == values[i];
    assert vs == values;
  }

  /** The other direction: a stream that parses is exactly the encoding of
      the values it parses to. */
  lemma FramesOfParsed(raw: seq<bv8>, n: nat)
    requires |raw| == FRAME_LEN * n && ParseFrames(raw, n).Success?
    ensures Frames(ParseFrames(raw, n).value) == raw
  {
    var vs := ParseFrames(raw, n).value;
    FramesLayout(vs);
    forall i | 0 <= i < n
      ensures FrameAt(raw, i) == Frame(vs[i])
    {
      var f := FrameAt(raw, i);
      Be16OfU16(f[..2]);
      assert f == f[..2] + [f[2]];
    }
    SameFrames(raw, Frames(vs), n);
  }

  lemma SameFrames(a: seq<bv8>, b: seq<bv8>, n: nat)
    requires |a| == FRAME_LEN * n && |b| == FRAME_LEN * n
    requires forall i :: 0 <= i < n ==> FrameAt(a, i) == FrameAt(b, i)
    ensures a == b
  {
    forall j | 0 <= j < |a|
      ensures a[j] == b[j]
    {
      var i := j / FRAME_LEN;
      assert FrameAt(a, i)[j - FRAME_LEN * i] == a[j];
      assert FrameAt(b, i)[j - FRAME_LEN * i] == b[j];
    }
  }

  /** Any single corrupted byte in a valid frame is caught by the check. */
  lemma CorruptFrameRejected(f: seq<bv8>, j: nat, v: bv8)
    requires |f| == FRAME_LEN && FrameOk(f) && j < FRAME_LEN && v != f[j]
    ensures !FrameOk(f[j := v])
  {
    var g := f[j := v];
    if j < 2 {
      Crc8DetectsByteChange(f[..2], g[..2], j);
    }
  }

  /** `_read_values(cmd, n, delay)`: the command word, the delay, a read of
      `3n` bytes (which the device fills with `raw`), then the parse. */
  function ReadValues(cmd: int, n: nat, delay: nat, raw: seq<bv8>): (r: (seq<I2cEvent>, Result<seq<int>, Error>))
    requires |raw| == FRAME_LEN * n
    ensures r.0 == [WriteTo(Be16(cmd), false), Pause(delay), ReadFrom(FRAME_LEN * n, true)]
    ensures r.1 == ParseFrames(raw, n)
  {
    ([WriteTo(Be16(cmd), false), Pause(delay), ReadFrom(FRAME_LEN * n, true)], ParseFrames(raw, n))
  }

  /** `set_absolute_humidity` once the float has been scaled to the integer
      `val`: out-of-range values are refused before any bus traffic. */
  method SetAbsoluteHumidity(val: int) returns (r: Result<seq<I2cEvent>, Error>)
    ensures r.Failure? <==> !(1 <= val <= 0xffff)
    ensures r.Failure? ==> r.error == OutOfRange
    ensures r.Success? ==>
              && |r.value| == 1
              && r.value[0].WriteTo? && r.value[0].stop
              && |r.value[0].bytes| == CMD_LEN + FRAME_LEN
              && r.value[0].bytes[..CMD_LEN] == Be16(CMD_WRITE_ABS_HUMIDITY)
              && ParseFrames(r.value[0].bytes[CMD_LEN..], 1) == Success([val])
  {
    if !(1 <= val <= 0xffff) {
      return Failure(OutOfRange);
    }
    var buf := WriteBuffer(CMD_WRITE_ABS_HUMIDITY, [val]);
    ParseFramesRoundTripExact([val]);
    assert buf[CMD_LEN..] == Frames([val]);
    return Success([WriteTo(buf, true)]);
  }

  /** The `baseline` argument of the constructor. */
  datatype Baseline =
    | NoBaseline                          // None
    | Given(isTuple: bool, items: seq<int>)

  /** The device answered the feature-set query with an intact frame
      holding 0x0022. */
  predicate FeaturePresent(raw: seq<bv8>)
    requires |raw| == FRAME_LEN
  {
    FrameOk(raw) && U16(raw[..DATA_LEN]) == FEATURE_SET
  }

  /** A one-frame parse: the word, or a checksum error. */
  lemma ParseOne(raw: seq<bv8>)
    requires |raw| == FRAME_LEN
    ensures ParseFrames(raw, 1) ==
            if FrameOk(raw) then Success([U16(raw[..DATA_LEN])]) else Failure(ChecksumError)
  {
    assert FrameAt(raw, 0) == raw;
    if FrameOk(raw) {
      var vs := ParseFrames(raw, 1).value;
      assert vs == [vs[0]];
    }
  }

  /** The constructor up to the start of the background thread: the
      feature-set query (answered with `featureRaw`), the presence check,
      the init command and the optional baseline write. */
  method Start(featureRaw: seq<bv8>, baseline: Baseline) returns (trace: seq<I2cEvent>, r: Result<(), Error>)
    requires |featureRaw| == FRAME_LEN
    ensures |trace| >= 3
    ensures trace[..3] == [WriteTo(Be16(CMD_FEATURE_SET), false), Pause(10), ReadFrom(FRAME_LEN, true)]
    ensures !FrameOk(featureRaw) ==> r == Failure(ChecksumError) && |trace| == 3
    ensures FrameOk(featureRaw) && U16(featureRaw[..DATA_LEN]) != FEATURE_SET ==>
              r == Failure(DeviceNotFound) && |trace| == 3
    ensures r.Success? <==>
              FeaturePresent(featureRaw) && (baseline.NoBaseline? || (baseline.isTuple && |baseline.items| == 2))
    ensures r == Failure(InvalidArgument) <==>
              FeaturePresent(featureRaw) && baseline.Given? && !(baseline.isTuple && |baseline.items| == 2)
    ensures FeaturePresent(featureRaw) ==>
              && |trace| == (if r.Success? && baseline.Given? then 5 else 4)
              && trace[3] == WriteTo(Be16(CMD_INIT), true)
    ensures r.Success? && baseline.Given? ==>
              trace[4] == WriteTo(Be16(CMD_WRITE_BASELINE) + Frames(baseline.items), true)
  {
    ParseOne(featureRaw);
    var query := ReadValues(CMD_FEATURE_SET, 1, 10, featureRaw);
    var head := query.0;
    assert head == [WriteTo(Be16(CMD_FEATURE_SET), false), Pause(10), ReadFrom(FRAME_LEN, true)];
    var feature := query.1;
    if feature.Failure? {
      return head, Failure(feature.error);
    }
    if feature.value[0] != FEATURE_SET {
      return head, Failure(DeviceNotFound);
    }
    var tail;
    tail, r := InitDevice(baseline);
    trace := head + tail;
    assert trace[..3] == head && trace[3..] == tail;
  }

  /** The rest of the constructor once the device is found: INIT, then the
      baseline when one is given, refused unless it is a 2-tuple. */
  method InitDevice(baseline: Baseline) returns (tail: seq<I2cEvent>, r: Result<(), Error>)
    ensures r.Success? <==> baseline.NoBaseline? || (baseline.isTuple && |baseline.items| == 2)
    ensures r.Failure? ==> r.error == InvalidArgument
    ensures |tail| == if r.Success? && baseline.Given? then 2 else 1
    ensures tail[0] == WriteTo(Be16(CMD_INIT), true)
    ensures r.Success? && baseline.Given? ==>
              tail[1] == WriteTo(Be16(CMD_WRITE_BASELINE) + Frames(baseline.items), true)
  {
    var init := WriteBuffer(CMD_INIT, []);
    assert init == Be16(CMD_INIT) by {
      assert Frames([]) == [];
    }
    tail := [WriteTo(init, true)];
    r := Success(());
    if baseline.Given? {
      if baseline.isTuple && |baseline.items| == 2 {
        var b := WriteBuffer(CMD_WRITE_BASELINE, baseline.items);
        assert b == Be16(CMD_WRITE_BASELINE) + Frames(baseline.items);
        tail := [WriteTo(init, true), WriteTo(b, true)];
      } else {
        r := Failure(InvalidArgument);
      }
    }
  }
}
