/** The AXP192 power-management unit: an I2C register file the driver reads
    and writes one byte at a time, the M5StickC Plus power-on programme, the
    power-key status and the composition of raw ADC readings. */
module Axp192 {
  import opened Results

  /** A register address on the chip. */
  type Reg = r: int | 0 <= r < 0x100

  // Registers the driver touches.
  const POWER_STATUS: Reg := 0x00
  const EXTEN_DCDC2_CTRL: Reg := 0x10
  const DCDC13_LDO23_CTRL: Reg := 0x12
  const LDO23_OUT_VOLTAGE: Reg := 0x28
  const VBUS_IPSOUT: Reg := 0x30
  const POWER_OFF_VOLTAGE: Reg := 0x31
  const POWER_OFF_BATT_CHGLED_CTRL: Reg := 0x32
  const CHARGING_CTRL1: Reg := 0x33
  const BACKUP_BATT: Reg := 0x35
  const PEK: Reg := 0x36
  const BATT_TEMP_HIGH_THRESH: Reg := 0x39
  const IRQ_3_STATUS: Reg := 0x46
  const ADC_ENABLE_1: Reg := 0x82
  const ADC_TS: Reg := 0x84
  const GPIO0_FUNCTION: Reg := 0x90
  const GPIO0_LDO_VOLTAGE: Reg := 0x91

  // Field values the power-on programme combines.
  const LDO2_3_0V: bv8 := 0xc0
  const LDO3_3_0V: bv8 := 0x0c
  const EXTEN: bv8 := 0x04
  const LDO3_ON: bv8 := 0x08
  const LDO2_ON: bv8 := 0x04
  const DCDC1_ON: bv8 := 0x01
  const TS_SAMPLE_200HZ: bv8 := 0xc0
  const TS_OUT_CUR_80UA: bv8 := 0x30
  const TS_PIN_TEMP_MON: bv8 := 0x00
  const TS_PIN_OUT_SAVE_ENG: bv8 := 0x02
  const ADC_BATT_VOL: bv8 := 0x80
  const ADC_BATT_CUR: bv8 := 0x40
  const ADC_ACIN_VOL: bv8 := 0x20
  const ADC_ACIN_CUR: bv8 := 0x10
  const ADC_VBUS_VOL: bv8 := 0x08
  const ADC_VBUS_CUR: bv8 := 0x04
  const ADC_APS_VOL: bv8 := 0x02
  const ADC_TS_PIN: bv8 := 0x01
  const VHOLD_LIMIT: bv8 := 0x40
  const VHOLD_4_4V: bv8 := 0x20
  const VBUS_LIMIT_CURRENT: bv8 := 0x02
  const VBUS_LIMIT_500MA: bv8 := 0x01
  const POWER_OFF_3_0V: bv8 := 0x04
  const CHARGING_ENABLE: bv8 := 0x80
  const CHARGING_4_20V: bv8 := 0x40
  const CHARGING_THRESH_10PERC: bv8 := 0x00
  const CHARGING_100MA: bv8 := 0x00
  const PEK_SHORT_128MS: bv8 := 0x00
  const PEK_LONG_1_5S: bv8 := 0x10
  const PEK_LONG_POWER_OFF: bv8 := 0x08
  const PEK_PWROK_64MS: bv8 := 0x04
  const PEK_POWER_OFF_4S: bv8 := 0x00
  const TEMP_HIGH_DEFAULT: bv8 := 0xfc
  const BACKUP_ENABLE: bv8 := 0x80
  const BACKUP_3_0V: bv8 := 0x20
  const BACKUP_200UA: bv8 := 0x02
  const GPIO0_LDO_3_3V: bv8 := 0xf0
  const GPIO0_LDO_OUTPUT: bv8 := 0x02
  const PEK_SHORT_PRESS: bv8 := 0x02
  const PEK_LONG_PRESS: bv8 := 0x01
  const POWER_OFF_BIT: bv8 := 0x80

  /** One register transfer, with the byte that crossed the bus. */
  datatype Access = Read(reg: Reg, value: bv8) | Write(reg: Reg, value: bv8)

  /** The chip's registers and the transfers made so far. The register file
      is plain memory: a read returns the last value stored. */
  datatype Device = Device(regs: seq<bv8>, log: seq<Access>)

  predicate Valid(d: Device)
  {
    |d.regs| == 0x100
  }

  datatype Error = DeviceNotFound

  /** `read(regaddr)`. */
  function ReadReg(d: Device, reg: Reg): (r: (Device, bv8))
    requires Valid(d)
    ensures r.1 == d.regs[reg]
    ensures r.0 == d.(log := d.log + [Read(reg, r.1)])
  {
    (d.(log := d.log + [Read(reg, d.regs[reg])]), d.regs[reg])
  }

  /** `write(regaddr, val)`. */
  function WriteReg(d: Device, reg: Reg, val: bv8): (e: Device)
    requires Valid(d)
    ensures Valid(e)
    ensures e.log == d.log + [Write(reg, val)]
    ensures e.regs[reg] == val
    ensures forall r: Reg :: r != reg ==> e.regs[r] == d.regs[r]
  {
    Device(d.regs[reg := val], d.log + [Write(reg, val)])
  }

  /** A read right after a write returns the byte written. */
  lemma ReadAfterWrite(d: Device, reg: Reg, val: bv8)
    requires Valid(d)
    ensures ReadReg(WriteReg(d, reg, val), reg).1 == val
  {
  }

  /** Writing back the byte just read leaves the registers as they were. */
  lemma WriteWhatWasRead(d: Device, reg: Reg)
    requires Valid(d)
    ensures WriteReg(d, reg, d.regs[reg]).regs == d.regs
  {
  }

  /** The byte the DCDC13/LDO23 update writes: LDO2, LDO3 and DCDC1 on, the
      other switches as they were. */
  function EnableRails(prior: bv8): (v: bv8)
  {
    prior | LDO2_ON | LDO3_ON | DCDC1_ON
  }

  /** Bits 0, 2 and 3 end up set and every other bit is kept. */
  lemma EnableRailsBits(prior: bv8)
    ensures EnableRails(prior) & 0x0d == 0x0d
    ensures EnableRails(prior) & 0xf2 == prior & 0xf2
    ensures EnableRails(EnableRails(prior)) == EnableRails(prior)
  {
  }

  /** `M5StickCPlus.on_init(device)`, in three runs of transfers. */
  function OnInit(d: Device): (e: Device)
    requires Valid(d)
    ensures Valid(e)
    ensures e.log == d.log + OnInitLog(d.regs[0x12])
    ensures |e.log| == |d.log| + 14
  {
    var e := Protection(Monitoring(Rails(d)));
    assert e.log == d.log + RailsLog(d.regs[0x12]) + MonitoringLog() + ProtectionLog();
    e
  }

  /** LDO2/LDO3 at 3.0 V, EXTEN on and DCDC2 off, then the read-modify-write
      that switches LDO2, LDO3 and DCDC1 on. */
  function Rails(d: Device): (e: Device)
    requires Valid(d)
    ensures Valid(e)
    ensures e.log == d.log + RailsLog(d.regs[0x12])
    ensures e.regs == d.regs[0x28 := 0xcc][0x10 := 0x04][0x12 := d.regs[0x12] | 0x0d]
  {
    var d := WriteReg(d, LDO23_OUT_VOLTAGE, LDO2_3_0V | LDO3_3_0V);
    var d := WriteReg(d, EXTEN_DCDC2_CTRL, EXTEN);
    var (d, val) := ReadReg(d, DCDC13_LDO23_CTRL);
    WriteReg(d, DCDC13_LDO23_CTRL, EnableRails(val))
  }

  /** ADC sampling and channels, VBUS limits, power-off voltage, charging. */
  function Monitoring(d: Device): (e: Device)
    requires Valid(d)
    ensures Valid(e)
    ensures e.log == d.log + MonitoringLog()
    ensures e.regs == d.regs[0x84 := 0xf2][0x82 := 0xff][0x30 := 0x63][0x31 := 0x04][0x33 := 0xc0]
  {
    var d := WriteReg(d, ADC_TS, TS_SAMPLE_200HZ | TS_OUT_CUR_80UA | TS_PIN_TEMP_MON | TS_PIN_OUT_SAVE_ENG);
    var d := WriteReg(d, ADC_ENABLE_1, ADC_BATT_VOL | ADC_BATT_CUR | ADC_ACIN_VOL | ADC_ACIN_CUR
                                       | ADC_VBUS_VOL | ADC_VBUS_CUR | ADC_APS_VOL | ADC_TS_PIN);
    var d := WriteReg(d, VBUS_IPSOUT, VHOLD_LIMIT | VHOLD_4_4V | VBUS_LIMIT_CURRENT | VBUS_LIMIT_500MA);
    var d := WriteReg(d, POWER_OFF_VOLTAGE, POWER_OFF_3_0V);
    WriteReg(d, CHARGING_CTRL1, CHARGING_ENABLE | CHARGING_4_20V | CHARGING_THRESH_10PERC | CHARGING_100MA)
  }

  /** Power key timing, battery temperature threshold, backup battery and
      GPIO0 as a 3.3 V LDO output. */
  function Protection(d: Device): (e: Device)
    requires Valid(d)
    ensures Valid(e)
    ensures e.log == d.log + ProtectionLog()
    ensures e.regs == d.regs[0x36 := 0x1c][0x39 := 0xfc][0x35 := 0xa2][0x91 := 0xf0][0x90 := 0x02]
  {
    var d := WriteReg(d, PEK, PEK_SHORT_128MS | PEK_LONG_1_5S | PEK_LONG_POWER_OFF | PEK_PWROK_64MS | PEK_POWER_OFF_4S);
    var d := WriteReg(d, BATT_TEMP_HIGH_THRESH, TEMP_HIGH_DEFAULT);
    var d := WriteReg(d, BACKUP_BATT, BACKUP_ENABLE | BACKUP_3_0V | BACKUP_200UA);
    var d := WriteReg(d, GPIO0_LDO_VOLTAGE, GPIO0_LDO_3_3V);
    WriteReg(d, GPIO0_FUNCTION, GPIO0_LDO_OUTPUT)
  }

  /** The transfers of the power-on programme, with the byte values the
      flag combinations come to; `prior` is register 0x12 before the
      programme. */
  function OnInitLog(prior: bv8): seq<Access>
  {
    RailsLog(prior) + MonitoringLog() + ProtectionLog()
  }

  function RailsLog(prior: bv8): seq<Access>
  {
    [Write(0x28, 0xcc), Write(0x10, 0x04), Read(0x12, prior), Write(0x12, prior | 0x0d)]
  }

  function MonitoringLog(): seq<Access>
  {
    [Write(0x84, 0xf2), Write(0x82, 0xff), Write(0x30, 0x63), Write(0x31, 0x04), Write(0x33, 0xc0)]
  }

  function ProtectionLog(): seq<Access>
  {
    [Write(0x36, 0x1c), Write(0x39, 0xfc), Write(0x35, 0xa2), Write(0x91, 0xf0), Write(0x90, 0x02)]
  }

  /** The registers the programme leaves behind: the programmed values, and
      every register it does not name unchanged. */
  lemma OnInitRegisters(d: Device)
    requires Valid(d)
    ensures var e := OnInit(d).regs;
            && e[0x28] == 0xcc && e[0x10] == 0x04 && e[0x12] == d.regs[0x12] | 0x0d
            && e[0x84] == 0xf2 && e[0x82] == 0xff && e[0x30] == 0x63 && e[0x31] == 0x04 && e[0x33] == 0xc0
            && e[0x36] == 0x1c && e[0x39] == 0xfc && e[0x35] == 0xa2 && e[0x91] == 0xf0 && e[0x90] == 0x02
    ensures forall r: Reg :: !Programmed(r) ==> OnInit(d).regs[r] == d.regs[r]
  {
  }

  /** The registers the power-on programme writes. */
  predicate Programmed(r: Reg)
  {
    r in {0x28, 0x10, 0x12, 0x84, 0x82, 0x30, 0x31, 0x33, 0x36, 0x39, 0x35, 0x91, 0x90}
  }

  /** `AXP192(i2c, board=...)`: the presence check on register 0x00, then
      the board's programme if a board is given. */
  function Construct(regs: seq<bv8>, board: bool): (r: (Device, Result<(), Error>))
    requires |regs| == 0x100
    ensures Valid(r.0)
    ensures r.1.Failure? <==> regs[0] == 0xff
    ensures r.1.Failure? ==> r.0 == Device(regs, [Read(0x00, 0xff)])
    ensures r.1.Success? && !board ==> r.0 == Device(regs, [Read(0x00, regs[0])])
    ensures r.1.Success? && board ==> r.0.log == [Read(0x00, regs[0])] + OnInitLog(regs[0x12])
  {
    var (d, status) := ReadReg(Device(regs, []), POWER_STATUS);
    if status == 0xff then (d, Failure(DeviceNotFound))
    else if board then
      (OnInit(d), Success(()))
    else (d, Success(()))
  }

  /** `pek_button(long)`: read the IRQ 3 status, keep the two power-key
      bits, write them back (which clears them on the chip), and report
      either press, or only a long press. */
  function PekButton(d: Device, long: bool): (r: (Device, bool))
    requires Valid(d)
    ensures Valid(r.0)
    ensures var v := d.regs[0x46];
            && r.0.log == d.log + [Read(0x46, v), Write(0x46, v & 0x03)]
            && (r.1 <==> if long then v & 0x01 != 0 else v & 0x02 != 0 || v & 0x01 != 0)
  {
    var (d1, val) := ReadReg(d, IRQ_3_STATUS);
    var val := val & (PEK_SHORT_PRESS | PEK_LONG_PRESS);
    var d2 := WriteReg(d1, IRQ_3_STATUS, val);
    var val := if long then val & PEK_LONG_PRESS else val;
    (d2, val != 0)
  }

  /** The byte written back only holds power-key bits, and only those that
      were set: the other interrupt flags of the register are not touched. */
  lemma PekButtonWritesOnlyKeyBits(d: Device, long: bool)
    requires Valid(d)
    ensures var w := PekButton(d, long).0.regs[0x46];
            w & 0xfc == 0 && w & d.regs[0x46] == w
  {
  }

  /** `power_off()`: read register 0x32 and write it back with bit 7 set. */
  function PowerOff(d: Device): (e: Device)
    requires Valid(d)
    ensures Valid(e)
    ensures e.log == d.log + [Read(0x32, d.regs[0x32]), Write(0x32, e.regs[0x32])]
    ensures e.regs[0x32] & 0x80 == 0x80
    ensures e.regs[0x32] & 0x7f == d.regs[0x32] & 0x7f
    ensures forall r: Reg :: r != 0x32 ==> e.regs[r] == d.regs[r]
  {
    var (d1, val) := ReadReg(d, POWER_OFF_BATT_CHGLED_CTRL);
    WriteReg(d1, POWER_OFF_BATT_CHGLED_CTRL, val | POWER_OFF_BIT)
  }

  /** The ADC readings whose raw value is a high byte and a low byte. */
  datatype Channel =
    | AcinVoltage | AcinCurrent | VbusVoltage | VbusCurrent | InternalTemp
    | BattVoltage | ApsVoltage | BattChargeCurrent | BattDischargeCurrent

  /** The register holding the high bits; the low bits follow it. */
  function HighReg(c: Channel): (r: Reg)
    ensures r < 0xff
  {
    match c
    case AcinVoltage => 0x56
    case AcinCurrent => 0x58
    case VbusVoltage => 0x5a
    case VbusCurrent => 0x5c
    case InternalTemp => 0x5e
    case BattVoltage => 0x78
    case ApsVoltage => 0x7e
    case BattChargeCurrent => 0x7a
    case BattDischargeCurrent => 0x7c
  }

  /** How far the high byte is shifted: 12-bit readings keep four bits in
      the low register, the two battery currents keep five. */
  function LowBits(c: Channel): (n: nat)
    ensures n == 4 || n == 5
  {
    if c == BattChargeCurrent || c == BattDischargeCurrent then 5 else 4
  }

  /** `(high << n) | low` on Python integers. The value stays below
      0x2000, so sixteen bits hold it exactly. Nothing masks `low`, so its
      bits from bit `n` up merge into the high part. */
  function Compose(high: bv8, low: bv8, n: nat): (v: bv16)
    requires n == 4 || n == 5
    ensures n == 4 ==> v < 0x1000
    ensures n == 5 ==> v < 0x2000
    ensures n == 4 && low < 0x10 ==> v == high as bv16 * 0x10 + low as bv16
    ensures n == 5 && low < 0x20 ==> v == high as bv16 * 0x20 + low as bv16
  {
    if n == 4 then ((high as bv16) << 4) | (low as bv16)
    else ((high as bv16) << 5) | (low as bv16)
  }

  /** The getters' raw value: read the high register, then the low one. */
  function ReadAdc(d: Device, c: Channel): (r: (Device, bv16))
    requires Valid(d)
    ensures Valid(r.0)
    ensures r.0.regs == d.regs
    ensures var h := HighReg(c);
            && r.0.log == d.log + [Read(h, d.regs[h]), Read(h + 1, d.regs[h + 1])]
            && r.1 == Compose(d.regs[h], d.regs[h + 1], LowBits(c))
  {
    var (d1, high) := ReadReg(d, HighReg(c));
    var (d2, low) := ReadReg(d1, HighReg(c) + 1);
    (d2, Compose(high, low, LowBits(c)))
  }

  /** The register pair a raw value is stored as: the bits above the low
      `n`, and the low `n` bits. */
  function Split(v: bv16, n: nat): (r: (bv8, bv8))
    requires n == 4 || n == 5
    requires v < 0x1000 || (n == 5 && v < 0x2000)
  {
    if n == 4 then ((v >> 4) as bv8, (v & 0xf) as bv8)
    else ((v >> 5) as bv8, (v & 0x1f) as bv8)
  }

  /** Round trip: composing the register pair of a raw value gives it back,
      and the low byte keeps to its `n` bits. */
  lemma ComposeSplit(v: bv16, n: nat)
    requires n == 4 || n == 5
    requires v < 0x1000 || (n == 5 && v < 0x2000)
    ensures Compose(Split(v, n).0, Split(v, n).1, n) == v
    ensures n == 4 ==> Split(v, n).1 < 0x10
    ensures n == 5 ==> Split(v, n).1 < 0x20
  {
    if n == 4 {
      assert (((v >> 4) as bv8) as bv16) << 4 == v & 0xff0;
      assert ((v & 0xf) as bv8) as bv16 == v & 0xf;
    } else {
      assert (((v >> 5) as bv8) as bv16) << 5 == v & 0x1fe0;
      assert ((v & 0x1f) as bv8) as bv16 == v & 0x1f;
    }
  }

  /** The other direction: splitting a composed value gives back the pair
      when the low byte keeps to its `n` bits. */
  lemma SplitCompose(high: bv8, low: bv8, n: nat)
    requires (n == 4 && low < 0x10) || (n == 5 && low < 0x20)
    ensures Split(Compose(high, low, n), n) == (high, low)
  {
    if n == 4 {
      ShiftOrSplits4(high, low);
    } else {
      ShiftOrSplits5(high, low);
    }
  }

  lemma ShiftOrSplits4(high: bv8, low: bv8)
    requires low < 0x10
    ensures var v := ((high as bv16) << 4) | (low as bv16);
            (v >> 4) as bv8 == high && (v & 0xf) as bv8 == low
  {
  }

  lemma ShiftOrSplits5(high: bv8, low: bv8)
    requires low < 0x20
    ensures var v := ((high as bv16) << 5) | (low as bv16);
            (v >> 5) as bv8 == high && (v & 0x1f) as bv8 == low
  {
  }

  /** Different register pairs, each low byte within its `n` bits, give
      different raw values. */
  lemma ComposeInjective(high: bv8, low: bv8, high': bv8, low': bv8, n: nat)
    requires (n == 4 && low < 0x10 && low' < 0x10) || (n == 5 && low < 0x20 && low' < 0x20)
    requires Compose(high, low, n) == Compose(high', low', n)
    ensures high == high' && low == low'
  {
    SplitCompose(high, low, n);
    SplitCompose(high', low', n);
  }

  /** Without the mask, a stray bit above bit `n` of the low register hides
      a bit of the high byte: these two pairs read the same. */
  lemma UnmaskedLowBitsOverlap()
    ensures Compose(0x01, 0x10, 4) == Compose(0x00, 0x10, 4) == 0x10
  {
  }

  /** `batt_power()`: three registers, high first, as a 24-bit value. */
  function ReadBattPower(d: Device): (r: (Device, bv32))
    requires Valid(d)
    ensures Valid(r.0)
    ensures r.0.regs == d.regs
    ensures r.0.log == d.log + [Read(0x70, d.regs[0x70]), Read(0x71, d.regs[0x71]), Read(0x72, d.regs[0x72])]
    ensures r.1 == Compose24(d.regs[0x70], d.regs[0x71], d.regs[0x72])
  {
    var (d1, high) := ReadReg(d, 0x70);
    var (d2, mid) := ReadReg(d1, 0x71);
    var (d3, low) := ReadReg(d2, 0x72);
    (d3, Compose24(high, mid, low))
  }

  /** `(h << 16) | (m << 8) | l` on Python integers; below 2^24, so 32 bits
      hold it exactly. */
  function Compose24(high: bv8, mid: bv8, low: bv8): (v: bv32)
    ensures v == high as bv32 * 0x1_0000 + mid as bv32 * 0x100 + low as bv32
    ensures v < 0x100_0000
  {
    ((high as bv32) << 16) | ((mid as bv32) << 8) | (low as bv32)
  }

  /** Each byte of the power reading can be read back out of it. */
  lemma Compose24Bytes(high: bv8, mid: bv8, low: bv8)
    ensures var v := Compose24(high, mid, low);
            && (v >> 16) as bv8 == high && ((v >> 8) & 0xff) as bv8 == mid && (v & 0xff) as bv8 == low
  {
  }
}
