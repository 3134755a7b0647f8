/** The DHT12 temperature and humidity sensor: a five-byte register frame
    with an additive checksum, decoded into tenths of a percent and tenths
    of a degree. */
module Dht12 {
  import opened Bytes
  import opened Results
  import Arith

  const FRAME_LEN: nat := 5

  /** The driver keeps the last frame it read; the getters decode it. */
  datatype Sensor = Sensor(buf: seq<bv8>)

  datatype Error = ChecksumError

  /** `DHT12(i2c)`: a zeroed five-byte buffer. */
  function Init(): (s: Sensor)
    ensures |s.buf| == FRAME_LEN
    ensures forall i :: 0 <= i < FRAME_LEN ==> s.buf[i] == 0
  {
    Sensor(seq(FRAME_LEN, _ => 0 as bv8))
  }

  /** The checksum byte the sensor appends: the sum of the four data bytes,
      masked to eight bits. */
  function Checksum(b: seq<bv8>): (c: bv8)
    requires |b| >= 4
    ensures c as int == DataSum(b) % 0x100
  {
    ToByte(DataSum(b) % 0x100)
  }

  /** `measure()` with the bus read answered by `raw`: the bytes are stored
      before the check, so a frame with a bad checksum still replaces the
      buffer. */
  function Measure(s: Sensor, raw: seq<bv8>): (r: (Sensor, Result<(), Error>))
    requires |raw| == FRAME_LEN
    ensures r.0.buf == raw
    ensures r.1.Success? <==> raw[4] == Checksum(raw)
    ensures r.1.Failure? ==> r.1.error == ChecksumError
  {
    (Sensor(raw), if DataSum(raw) % 0x100 != raw[4] as int then Failure(ChecksumError) else Success(()))
  }

  /** A frame carrying its own checksum. */
  function WithChecksum(data: seq<bv8>): (raw: seq<bv8>)
    requires |data| == 4
  {
    data + [Checksum(data)]
  }

  /** A frame built with its checksum always passes `measure`. */
  lemma ChecksumAccepted(s: Sensor, data: seq<bv8>)
    requires |data| == 4
    ensures |WithChecksum(data)| == FRAME_LEN
    ensures Measure(s, WithChecksum(data)).1.Success?
  {
    var raw := WithChecksum(data);
    assert raw[0] == data[0] && raw[1] == data[1] && raw[2] == data[2] && raw[3] == data[3];
    assert DataSum(raw) == DataSum(data);
  }

  /** Any single corrupted byte of a valid frame is caught, whichever byte it
      is, the checksum included. */
  lemma SingleByteErrorDetected(s: Sensor, raw: seq<bv8>, j: nat, v: bv8)
    requires |raw| == FRAME_LEN && Measure(s, raw).1.Success?
    requires j < FRAME_LEN && v != raw[j]
    ensures Measure(s, raw[j := v]).1 == Failure(ChecksumError)
  {
    ChecksumBroken(raw, j, v);
  }

  lemma ChecksumBroken(raw: seq<bv8>, j: nat, v: bv8)
    requires |raw| == FRAME_LEN && raw[4] == Checksum(raw)
    requires j < FRAME_LEN && v != raw[j]
    ensures raw[j := v][4] != Checksum(raw[j := v])
  {
    var bad := raw[j := v];
    DataSumUpdate(raw, j, v);
    if j < 4 {
      ByteValuesDiffer(v, raw[j]);
      Arith.ResidueShift(DataSum(raw), v as int - raw[j] as int, 0x100);
      ByteValuesDiffer(Checksum(bad), Checksum(raw));
    }
  }

  /** Distinct bytes have distinct values, and conversely. */
  lemma ByteValuesDiffer(a: bv8, b: bv8)
    ensures a != b <==> a as int != b as int
  {
    IntRoundTrip(a);
    IntRoundTrip(b);
  }

  /** Replacing one data byte moves the sum by the difference; replacing the
      checksum byte leaves it alone. */
  lemma DataSumUpdate(raw: seq<bv8>, j: nat, v: bv8)
    requires |raw| == FRAME_LEN && j < FRAME_LEN
    ensures j < 4 ==> DataSum(raw[j := v]) == DataSum(raw) + (v as int - raw[j] as int)
    ensures j == 4 ==> DataSum(raw[j := v]) == DataSum(raw)
  {
    var bad := raw[j := v];
    if j == 0 {
      assert bad[1] == raw[1] && bad[2] == raw[2] && bad[3] == raw[3];
    } else if j == 1 {
      assert bad[0] == raw[0] && bad[2] == raw[2] && bad[3] == raw[3];
    } else if j == 2 {
      assert bad[0] == raw[0] && bad[1] == raw[1] && bad[3] == raw[3];
    } else if j == 3 {
      assert bad[0] == raw[0] && bad[1] == raw[1] && bad[2] == raw[2];
    } else {
      assert bad[..4] == raw[..4];
    }
  }

  /** The sum the checksum is taken over. */
  function DataSum(b: seq<bv8>): int
    requires |b| >= 4
  {
    b[0] as int + b[1] as int + b[2] as int + b[3] as int
  }

  /** `humidity()` in tenths of a percent: byte 0 is the integer part,
      byte 1 the tenths. */
  function HumidityTenths(s: Sensor): (h: int)
    requires |s.buf| == FRAME_LEN
    ensures 0 <= h <= 255 * 10 + 255
  {
    s.buf[0] as int * 10 + s.buf[1] as int
  }

  /** `temperature()` in tenths of a degree, as written: the sign comes from
      bit 7 of byte 2, whose value is not masked out of the magnitude, and
      bit 7 of byte 3 is dropped. */
  function TemperatureAsWritten(s: Sensor): (t: int)
    requires |s.buf| == FRAME_LEN
    ensures (if t < 0 then -t else t) == s.buf[2] as int * 10 + (s.buf[3] & 0x7f) as int
    ensures t < 0 <==> s.buf[2] & 0x80 != 0
  {
    var magnitude := s.buf[2] as int * 10 + (s.buf[3] & 0x7f) as int;
    if s.buf[2] & 0x80 != 0 then -magnitude else magnitude
  }

  /** As written, a reading is negative exactly when bit 7 of byte 2 is set,
      and then it is at least 128 degrees below zero, far outside what the
      sensor measures. */
  lemma AsWrittenNegative(s: Sensor)
    requires |s.buf| == FRAME_LEN
    ensures TemperatureAsWritten(s) < 0 <==> s.buf[2] & 0x80 != 0
    ensures TemperatureAsWritten(s) < 0 ==> TemperatureAsWritten(s) <= -1280
  {
    if s.buf[2] & 0x80 != 0 {
      assert s.buf[2] as int >= 128;
    }
  }

  /** As written, bit 7 of byte 3 never affects the reading. */
  lemma AsWrittenIgnoresSignBit(s: Sensor)
    requires |s.buf| == FRAME_LEN
    ensures TemperatureAsWritten(Sensor(s.buf[3 := s.buf[3] ^ 0x80])) == TemperatureAsWritten(s)
  {
    assert (s.buf[3] ^ 0x80) & 0x7f == s.buf[3] & 0x7f;
  }

  /** The frame the sensor sends for -5.3 degrees (bit 7 of byte 3 is the
      sign) reads as +5.3 degrees. */
  lemma AsWrittenLosesSign()
    ensures var s := Sensor([0, 0, 5, 0x83, 0x88]);
            && Measure(Init(), s.buf).1.Success?
            && TemperatureAsWritten(s) == 53
            && Temperature(s) == -53
  {
    var s := Sensor([0, 0, 5, 0x83, 0x88]);
    assert s.buf[3] & 0x7f == 3;
  }

  /** `temperature()` with the sign taken from bit 7 of byte 3, the layout
      of the sensor's frame: byte 2 is the integer part, the low seven bits
      of byte 3 the tenths. */
  function Temperature(s: Sensor): (t: int)
    requires |s.buf| == FRAME_LEN
    ensures (if t < 0 then -t else t) == s.buf[2] as int * 10 + (s.buf[3] & 0x7f) as int
    ensures t < 0 ==> s.buf[3] & 0x80 != 0
    ensures t > 0 ==> s.buf[3] & 0x80 == 0
  {
    var magnitude := s.buf[2] as int * 10 + (s.buf[3] & 0x7f) as int;
    if s.buf[3] & 0x80 != 0 then -magnitude else magnitude
  }

  /** Bounds and sign of the corrected reading. */
  lemma TemperatureSign(s: Sensor)
    requires |s.buf| == FRAME_LEN
    ensures -(255 * 10 + 127) <= Temperature(s) <= 255 * 10 + 127
    ensures Temperature(s) < 0 ==> s.buf[3] & 0x80 != 0
    ensures s.buf[3] & 0x80 == 0 ==> Temperature(s) >= 0
  {
  }

  /** A reading in tenths, as the sensor reports it. */
  datatype Reading = Reading(humidity: int, temperature: int)

  /** Readings the frame can carry with the tenths digit in 0..9. */
  predicate Encodable(r: Reading)
  {
    && 0 <= r.humidity < 256 * 10
    && -256 * 10 < r.temperature < 256 * 10
  }

  /** The four data bytes the sensor sends for a reading. */
  function EncodeData(r: Reading): (data: seq<bv8>)
    requires Encodable(r)
    ensures |data| == 4
  {
    var mag := if r.temperature < 0 then -r.temperature else r.temperature;
    var tenths := ToByte(mag % 10);
    [ToByte(r.humidity / 10), ToByte(r.humidity % 10), ToByte(mag / 10),
     if r.temperature < 0 then tenths | 0x80 else tenths]
  }

  /** The complete frame, checksum included. */
  function Encode(r: Reading): (raw: seq<bv8>)
    requires Encodable(r)
    ensures |raw| == FRAME_LEN
  {
    WithChecksum(EncodeData(r))
  }

  /** The two getters together. */
  function Decode(s: Sensor): (r: Reading)
    requires |s.buf| == FRAME_LEN
  {
    Reading(HumidityTenths(s), Temperature(s))
  }

  /** Round trip: every encodable reading survives `measure` and the
      getters unchanged. */
  lemma DecodeEncode(s: Sensor, r: Reading)
    requires Encodable(r)
    ensures var m := Measure(s, Encode(r));
            m.1.Success? && Decode(m.0) == r
  {
    var data := EncodeData(r);
    ChecksumAccepted(s, data);
    var buf := Measure(s, Encode(r)).0.buf;
    assert buf[..4] == data;
    HumidityRoundTrip(r, buf);
    TemperatureRoundTrip(r, buf);
  }

  lemma HumidityRoundTrip(r: Reading, buf: seq<bv8>)
    requires Encodable(r) && |buf| == FRAME_LEN && buf[..4] == EncodeData(r)
    ensures HumidityTenths(Sensor(buf)) == r.humidity
  {
    assert buf[0] == EncodeData(r)[0] && buf[1] == EncodeData(r)[1];
    Arith.FloorSign(r.humidity, 10);
  }

  lemma TemperatureRoundTrip(r: Reading, buf: seq<bv8>)
    requires Encodable(r) && |buf| == FRAME_LEN && buf[..4] == EncodeData(r)
    ensures Temperature(Sensor(buf)) == r.temperature
  {
    var mag := if r.temperature < 0 then -r.temperature else r.temperature;
    var tenths := ToByte(mag % 10);
    assert buf[2] == EncodeData(r)[2] && buf[3] == EncodeData(r)[3];
    assert buf[2] as int == mag / 10;
    assert (buf[3] & 0x7f) as int == mag % 10 && (buf[3] & 0x80 != 0 <==> r.temperature < 0) by {
      LowSevenBits(tenths);
    }
    assert buf[2] as int * 10 + (buf[3] & 0x7f) as int == mag by {
      Arith.FloorSign(mag, 10);
    }
  }

  /** A value below 10 keeps its low seven bits and leaves bit 7 clear;
      or-ing in bit 7 sets it and keeps the rest. */
  lemma LowSevenBits(b: bv8)
    requires b < 10
    ensures b & 0x7f == b && b & 0x80 == 0
    ensures (b | 0x80) & 0x7f == b && (b | 0x80) & 0x80 != 0
  {
  }
}
