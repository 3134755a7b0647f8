/** The Sensirion CRC-8 the SGP30 puts after every 16-bit word:
    polynomial 0x31, initial value 0xFF, MSB first, no final XOR. */
module Sgp30Crc {

  const CRC_INIT: bv8 := 0xff
  const CRC_POLY: bv8 := 0x31

  /** One turn of the inner `for _ in range(8)` loop. Python's integer is
      unbounded, but it starts each byte below 0x100 and is shifted at most
      eight times before being masked, so sixteen bits hold it exactly. */
  function CrcBit(c: bv16): bv16
  {
    if c & 0x80 != 0 then (c << 1) ^ (CRC_POLY as bv16) else c << 1
  }

  /** The eight turns of the inner loop. */
  function CrcRound(c: bv16): bv16
  {
    CrcBit(CrcBit(CrcBit(CrcBit(CrcBit(CrcBit(CrcBit(CrcBit(c))))))))
  }

  /** One turn of the outer loop: `crc ^= d`, eight shifts, `crc &= 0xff`. */
  function CrcByte(crc: bv8, d: bv8): bv8
  {
    (CrcRound((crc ^ d) as bv16) & 0xff) as bv8
  }

  /** The outer loop over `data`, from register value `crc`. */
  function Crc(crc: bv8, data: seq<bv8>): bv8
    decreases |data|
  {
    if |data| == 0 then crc else Crc(CrcByte(crc, data[0]), data[1..])
  }

  /** `crc8(data)`. */
  function Crc8(data: seq<bv8>): (c: bv8)
    ensures data == [] ==> c == CRC_INIT
    ensures |data| > 0 ==> c == CrcByte(Crc(CRC_INIT, data[..|data| - 1]), data[|data| - 1])
  {
    if |data| > 0 then
      var n := |data|;
      assert data == data[..n - 1] + [data[n - 1]];
      CrcAppend(CRC_INIT, data[..n - 1], [data[n - 1]]);
      Crc(CRC_INIT, data)
    else Crc(CRC_INIT, data)
  }

  /** The datasheet's worked example. */
  lemma Crc8Example()
    ensures Crc8([0xBE, 0xEF]) == 0x92
  {
  }

  /** The checksum of a concatenation continues from the checksum of the
      first part. */
  lemma {:induction false} CrcAppend(crc: bv8, a: seq<bv8>, b: seq<bv8>)
    ensures Crc(crc, a + b) == Crc(Crc(crc, a), b)
    decreases |a|
  {
    if |a| > 0 {
      assert (a + b)[1..] == a[1..] + b;
      CrcAppend(CrcByte(crc, a[0]), a[1..], b);
    } else {
      assert a + b == b;
    }
  }

  /** The eight-bit register step the inner loop performs on the low byte. */
  function Step(x: bv8): bv8
  {
    if x & 0x80 != 0 then (x << 1) ^ CRC_POLY else x << 1
  }

  /** Its inverse: the polynomial is odd, so bit 0 tells which branch ran. */
  function Unstep(y: bv8): bv8
  {
    if y & 1 != 0 then ((y ^ CRC_POLY) >> 1) | 0x80 else y >> 1
  }

  lemma UnstepStep(x: bv8)
    ensures Unstep(Step(x)) == x
  {
  }

  /** The low byte of a shift depends only on the low byte before it. */
  lemma CrcBitLow(c: bv16)
    ensures (CrcBit(c) & 0xff) as bv8 == Step((c & 0xff) as bv8)
  {
  }

  function Step8(x: bv8): bv8
  {
    Step(Step(Step(Step(Step(Step(Step(Step(x))))))))
  }

  function Unstep8(y: bv8): bv8
  {
    Unstep(Unstep(Unstep(Unstep(Unstep(Unstep(Unstep(Unstep(y))))))))
  }

  lemma CrcRoundLow(c: bv16)
    ensures (CrcRound(c) & 0xff) as bv8 == Step8((c & 0xff) as bv8)
  {
    var c1 := CrcBit(c);
    var c2 := CrcBit(c1);
    var c3 := CrcBit(c2);
    var c4 := CrcBit(c3);
    var c5 := CrcBit(c4);
    var c6 := CrcBit(c5);
    var c7 := CrcBit(c6);
    CrcBitLow(c);
    CrcBitLow(c1);
    CrcBitLow(c2);
    CrcBitLow(c3);
    CrcBitLow(c4);
    CrcBitLow(c5);
    CrcBitLow(c6);
    CrcBitLow(c7);
  }

  lemma Unstep8Step8(x: bv8)
    ensures Unstep8(Step8(x)) == x
  {
    var x1 := Step(x);
    var x2 := Step(x1);
    var x3 := Step(x2);
    var x4 := Step(x3);
    var x5 := Step(x4);
    var x6 := Step(x5);
    var x7 := Step(x6);
    UnstepStep(x7);
    UnstepStep(x6);
    UnstepStep(x5);
    UnstepStep(x4);
    UnstepStep(x3);
    UnstepStep(x2);
    UnstepStep(x1);
    UnstepStep(x);
  }

  /** One byte of input is the register xor-ed into `Step8`. */
  lemma CrcByteStep(crc: bv8, d: bv8)
    ensures CrcByte(crc, d) == Step8(crc ^ d)
  {
    CrcRoundLow((crc ^ d) as bv16);
    assert (((crc ^ d) as bv16) & 0xff) as bv8 == crc ^ d;
  }

  /** A byte step loses nothing: the register and the data byte can each be
      recovered from the result given the other. */
  lemma CrcByteInjective(crc: bv8, crc': bv8, d: bv8, d': bv8)
    requires CrcByte(crc, d) == CrcByte(crc', d')
    ensures crc == crc' <==> d == d'
  {
    CrcByteStep(crc, d);
    CrcByteStep(crc', d');
    Step8Injective(crc ^ d, crc' ^ d');
    XorCancel(crc, d, crc', d');
  }

  lemma Step8Injective(x: bv8, y: bv8)
    requires Step8(x) == Step8(y)
    ensures x == y
  {
    Unstep8Step8(x);
    Unstep8Step8(y);
  }

  lemma XorCancel(a: bv8, b: bv8, c: bv8, d: bv8)
    requires a ^ b == c ^ d
    ensures a == c <==> b == d
  {
  }

  /** The checksum of a two-byte word, unrolled. */
  lemma Crc8Word(w: seq<bv8>)
    requires |w| == 2
    ensures Crc8(w) == CrcByte(CrcByte(CRC_INIT, w[0]), w[1])
  {
    var c0 := CrcByte(CRC_INIT, w[0]);
    var c1 := CrcByte(c0, w[1]);
    assert w[1..][0] == w[1] && w[1..][1..] == [];
    assert Crc(c1, []) == c1;
    assert Crc(c0, w[1..]) == Crc(c1, []);
  }

  /** Changing exactly one byte of a two-byte word always changes its
      checksum. */
  lemma Crc8DetectsByteChange(w: seq<bv8>, w': seq<bv8>, j: nat)
    requires |w| == 2 && |w'| == 2 && j < 2
    requires w[j] != w'[j] && w[1 - j] == w'[1 - j]
    ensures Crc8(w) != Crc8(w')
  {
    Crc8Word(w);
    Crc8Word(w');
    var c0 := CrcByte(CRC_INIT, w[0]);
    var c0' := CrcByte(CRC_INIT, w'[0]);
    if j == 0 {
      CrcByteDataMatters(CRC_INIT, w[0], w'[0]);
      CrcByteRegisterMatters(c0, c0', w[1]);
    } else {
      CrcByteDataMatters(c0, w[1], w'[1]);
    }
  }

  lemma CrcByteDataMatters(crc: bv8, d: bv8, d': bv8)
    requires d != d'
    ensures CrcByte(crc, d) != CrcByte(crc, d')
  {
    if CrcByte(crc, d) == CrcByte(crc, d') {
      CrcByteInjective(crc, crc, d, d');
    }
  }

  lemma CrcByteRegisterMatters(crc: bv8, crc': bv8, d: bv8)
    requires crc != crc'
    ensures CrcByte(crc, d) != CrcByte(crc', d)
  {
    if CrcByte(crc, d) == CrcByte(crc', d) {
      CrcByteInjective(crc, crc', d, d);
    }
  }
}
