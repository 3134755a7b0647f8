/** How MicroPython hands a `str` to C code: the UTF-8 bytes of its code
    points (RFC 3629, section 3), read as a C string, that is, up to the
    first NUL byte. */
module Utf8 {
  import opened Bytes
  import Arith

  /** The UTF-8 bytes of one code point: one byte below 0x80, otherwise a
      lead byte from 0xC0 up followed by continuation bytes 0x80..0xBF. */
  function EncodeChar(c: char): (b: seq<bv8>)
    ensures 1 <= |b| <= 4
    ensures |b| == 1 <==> (c as int) < 0x80
    ensures |b| == 2 <==> 0x80 <= (c as int) < 0x800
    ensures |b| == 3 <==> 0x800 <= (c as int) < 0x1_0000
    ensures |b| == 4 <==> 0x1_0000 <= (c as int)
    ensures |b| == 1 ==> b[0] as int == c as int
    ensures |b| == 2 ==> 0xc0 <= b[0] as int < 0xe0
    ensures |b| == 3 ==> 0xe0 <= b[0] as int < 0xf0
    ensures |b| == 4 ==> 0xf0 <= b[0] as int < 0xf8
    ensures |b| > 1 ==> b[0] as int >= 0xc0 && forall i :: 1 <= i < |b| ==> 0x80 <= b[i] as int < 0xc0
  {
    var cp := c as int;
    if cp < 0x80 then [ToByte(cp)]
    else if cp < 0x800 then Encode2(cp)
    else if cp < 0x1_0000 then Encode3(cp)
    else Encode4(cp)
  }

  /** The lead byte's high bits mark the length: `110` for two bytes,
      `1110` for three, `11110` for four. */
  lemma LeadMarker(c: char)
    ensures var b := EncodeChar(c);
      && (|b| == 2 ==> b[0] & 0xe0 == 0xc0)
      && (|b| == 3 ==> b[0] & 0xf0 == 0xe0)
      && (|b| == 4 ==> b[0] & 0xf8 == 0xf0)
  {
    var b := EncodeChar(c);
    if |b| > 1 {
      MaskRange(b[0]);
    }
  }

  /** A byte's high bits by its range. */
  lemma MaskRange(x: bv8)
    ensures 0xc0 <= x as int < 0xe0 ==> x & 0xe0 == 0xc0
    ensures 0xe0 <= x as int < 0xf0 ==> x & 0xf0 == 0xe0
    ensures 0xf0 <= x as int < 0xf8 ==> x & 0xf8 == 0xf0
  {
  }

  /** Two bytes: `110xxxxx 10xxxxxx`. */
  function Encode2(cp: int): (b: seq<bv8>)
    requires 0x80 <= cp < 0x800
    ensures |b| == 2 && 0xc0 <= b[0] as int < 0xe0 && 0x80 <= b[1] as int < 0xc0
  {
    [ToByte(0xc0 + cp / 0x40), Cont(cp)]
  }

  /** Three bytes: `1110xxxx 10xxxxxx 10xxxxxx`. */
  function Encode3(cp: int): (b: seq<bv8>)
    requires 0x800 <= cp < 0x1_0000
    ensures |b| == 3 && 0xe0 <= b[0] as int < 0xf0
    ensures 0x80 <= b[1] as int < 0xc0 && 0x80 <= b[2] as int < 0xc0
  {
    [ToByte(0xe0 + cp / 0x1000), Cont(cp / 0x40), Cont(cp)]
  }

  /** Four bytes: `11110xxx 10xxxxxx 10xxxxxx 10xxxxxx`. */
  function Encode4(cp: int): (b: seq<bv8>)
    requires 0x1_0000 <= cp < 0x11_0000
    ensures |b| == 4 && 0xf0 <= b[0] as int < 0xf8
    ensures 0x80 <= b[1] as int < 0xc0 && 0x80 <= b[2] as int < 0xc0 && 0x80 <= b[3] as int < 0xc0
  {
    [ToByte(0xf0 + cp / 0x4_0000), Cont(cp / 0x1000), Cont(cp / 0x40), Cont(cp)]
  }

  /** A continuation byte carrying the low six bits of `x`. */
  function Cont(x: int): (b: bv8)
    requires x >= 0
    ensures 0x80 <= b as int < 0xc0
    ensures b as int == 0x80 + x % 0x40
  {
    ToByte(0x80 + x % 0x40)
  }

  /** The code point a 1- to 4-byte UTF-8 sequence carries: the payload
      bits of the lead byte (7, 5, 4 or 3 of them by length) followed by
      six from each continuation byte. */
  function DecodeChar(b: seq<bv8>): int
    requires 1 <= |b| <= 4
  {
    if |b| == 1 then b[0] as int
    else if |b| == 2 then b[0] as int % 0x20 * 0x40 + b[1] as int % 0x40
    else if |b| == 3 then (b[0] as int % 0x10 * 0x40 + b[1] as int % 0x40) * 0x40 + b[2] as int % 0x40
    else ((b[0] as int % 0x08 * 0x40 + b[1] as int % 0x40) * 0x40 + b[2] as int % 0x40) * 0x40 + b[3] as int % 0x40
  }

  /** Decoding the bytes of a code point gives the code point back. */
  lemma DecodeEncodeChar(c: char)
    ensures DecodeChar(EncodeChar(c)) == c as int
  {
    var cp := c as int;
    if cp < 0x80 {
    } else if cp < 0x800 {
      DecodeEncode2(c);
    } else if cp < 0x1_0000 {
      DecodeEncode3(c);
    } else {
      DecodeEncode4(c);
    }
  }

  lemma DecodeEncode2(c: char)
    requires 0x80 <= c as int < 0x800
    ensures DecodeChar(EncodeChar(c)) == c as int
  {
    var cp := c as int;
    var b := EncodeChar(c);
    var x0, x1 := b[0] as int, b[1] as int;
    assert x0 == 0xc0 + cp / 0x40 && x1 == 0x80 + cp % 0x40;
    Decode2(cp, x0, x1);
    assert DecodeChar(b) == x0 % 0x20 * 0x40 + x1 % 0x40;
  }

  lemma DecodeEncode3(c: char)
    requires 0x800 <= c as int < 0x1_0000
    ensures DecodeChar(EncodeChar(c)) == c as int
  {
    var cp := c as int;
    var b := EncodeChar(c);
    var x0, x1, x2 := b[0] as int, b[1] as int, b[2] as int;
    assert x0 == 0xe0 + cp / 0x1000;
    assert x1 == 0x80 + cp / 0x40 % 0x40 && x2 == 0x80 + cp % 0x40;
    Decode3(cp, x0, x1, x2);
    assert DecodeChar(b) == (x0 % 0x10 * 0x40 + x1 % 0x40) * 0x40 + x2 % 0x40;
  }

  lemma DecodeEncode4(c: char)
    requires 0x1_0000 <= c as int
    ensures DecodeChar(EncodeChar(c)) == c as int
  {
    var cp := c as int;
    var b := EncodeChar(c);
    var x0, x1, x2, x3 := b[0] as int, b[1] as int, b[2] as int, b[3] as int;
    assert x0 == 0xf0 + cp / 0x4_0000 && x1 == 0x80 + cp / 0x1000 % 0x40;
    assert x2 == 0x80 + cp / 0x40 % 0x40 && x3 == 0x80 + cp % 0x40;
    Decode4(cp, x0, x1, x2, x3);
    assert DecodeChar(b) == ((x0 % 0x08 * 0x40 + x1 % 0x40) * 0x40 + x2 % 0x40) * 0x40 + x3 % 0x40;
  }

  /** Six payload bits survive the continuation marker. */
  lemma Payload6(r: int)
    requires 0 <= r < 0x40
    ensures (0x80 + r) % 0x40 == r
  {
    Arith.DivModOf(2, r, 0x40);
  }

  /** Dropping six bits twice drops twelve. */
  lemma Shift12(n: int)
    requires n >= 0
    ensures n / 0x40 / 0x40 == n / 0x1000
    ensures n / 0x40 == n / 0x1000 * 0x40 + n / 0x40 % 0x40
  {
    var a := n / 0x1000;
    var t := n % 0x1000;
    var u := t / 0x40;
    var v := t % 0x40;
    assert n == (a * 0x40 + u) * 0x40 + v;
    Arith.DivModOf(a * 0x40 + u, v, 0x40);
    Arith.DivModOf(a, u, 0x40);
  }

  lemma Decode2(cp: int, x0: int, x1: int)
    requires 0x80 <= cp < 0x800
    requires x0 == 0xc0 + cp / 0x40 && x1 == 0x80 + cp % 0x40
    ensures x0 % 0x20 * 0x40 + x1 % 0x40 == cp
  {
    Arith.DivModOf(6, cp / 0x40, 0x20);
    Payload6(cp % 0x40);
  }

  lemma Decode3(cp: int, x0: int, x1: int, x2: int)
    requires 0x800 <= cp < 0x1_0000
    requires x0 == 0xe0 + cp / 0x1000 && x1 == 0x80 + cp / 0x40 % 0x40 && x2 == 0x80 + cp % 0x40
    ensures (x0 % 0x10 * 0x40 + x1 % 0x40) * 0x40 + x2 % 0x40 == cp
  {
    Arith.DivModOf(14, cp / 0x1000, 0x10);
    Payload6(cp / 0x40 % 0x40);
    Payload6(cp % 0x40);
    Shift12(cp);
  }

  lemma Decode4(cp: int, x0: int, x1: int, x2: int, x3: int)
    requires 0x1_0000 <= cp < 0x11_0000
    requires x0 == 0xf0 + cp / 0x4_0000 && x1 == 0x80 + cp / 0x1000 % 0x40
    requires x2 == 0x80 + cp / 0x40 % 0x40 && x3 == 0x80 + cp % 0x40
    ensures ((x0 % 0x08 * 0x40 + x1 % 0x40) * 0x40 + x2 % 0x40) * 0x40 + x3 % 0x40 == cp
  {
    Arith.DivModOf(30, cp / 0x4_0000, 0x08);
    Payload6(cp / 0x1000 % 0x40);
    Payload6(cp / 0x40 % 0x40);
    Payload6(cp % 0x40);
    Shift12(cp);
    Shift12(cp / 0x40);
    assert cp / 0x40 / 0x1000 == cp / 0x4_0000;
  }

  /** The UTF-8 bytes of a string, code point by code point. */
  function Encode(s: string): (b: seq<bv8>)
    ensures |b| >= |s|
    decreases |s|
  {
    if |s| == 0 then [] else EncodeChar(s[0]) + Encode(s[1..])
  }

  lemma {:induction false} EncodeAppend(a: string, b: string)
    ensures Encode(a + b) == Encode(a) + Encode(b)
    decreases |a|
  {
    if |a| > 0 {
      assert (a + b)[0] == a[0] && (a + b)[1..] == a[1..] + b;
      EncodeAppend(a[1..], b);
      assert Encode(a + b) == EncodeChar(a[0]) + Encode(a[1..] + b);
      assert Encode(a) == EncodeChar(a[0]) + Encode(a[1..]);
    } else {
      assert a + b == b;
    }
  }

  /** A string of code points below 0x80 encodes to one byte each, with the
      code point's value. */
  lemma {:induction false} EncodeAscii(s: string)
    requires forall i :: 0 <= i < |s| ==> (s[i] as int) < 0x80
    ensures |Encode(s)| == |s|
    ensures forall i :: 0 <= i < |s| ==> Encode(s)[i] as int == s[i] as int
    decreases |s|
  {
    if |s| > 0 {
      EncodeAscii(s[1..]);
      var e := Encode(s);
      assert e == EncodeChar(s[0]) + Encode(s[1..]);
      forall i | 0 <= i < |s|
        ensures e[i] as int == s[i] as int
      {
        if i > 0 {
          assert e[i] == Encode(s[1..])[i - 1];
        }
      }
    }
  }

  /** Only the NUL character encodes to a zero byte. */
  lemma {:induction false} EncodeNoNul(s: string)
    requires forall i :: 0 <= i < |s| ==> s[i] != '\0'
    ensures forall j :: 0 <= j < |Encode(s)| ==> Encode(s)[j] != 0
    decreases |s|
  {
    if |s| > 0 {
      EncodeNoNul(s[1..]);
      var h := EncodeChar(s[0]);
      var e := Encode(s);
      assert e == h + Encode(s[1..]);
      forall j | 0 <= j < |e|
        ensures e[j] != 0
      {
        if j < |h| {
          EncodeCharNoNul(s[0], h, j);
          assert e[j] == h[j];
        } else {
          assert e[j] == Encode(s[1..])[j - |h|];
        }
      }
    }
  }

  /** No byte of a non-NUL character's encoding is zero. */
  lemma EncodeCharNoNul(c: char, h: seq<bv8>, j: int)
    requires c != '\0' && h == EncodeChar(c) && 0 <= j < |h|
    ensures h[j] != 0
  {
    if |h| == 1 {
      assert h[0] as int == c as int;
    }
  }

  /** The bytes C code reads from `b`: everything before the first zero
      byte, or all of `b` when it holds none. */
  function CString(b: seq<bv8>): (r: seq<bv8>)
    ensures |r| <= |b| && r == b[..|r|]
    ensures forall i :: 0 <= i < |r| ==> r[i] != 0
    ensures |r| < |b| ==> b[|r|] == 0
    decreases |b|
  {
    if |b| == 0 || b[0] == 0 then [] else [b[0]] + CString(b[1..])
  }

  /** The C view of a string. */
  function CStringOf(s: string): seq<bv8>
  {
    CString(Encode(s))
  }

  /** A string without NUL characters reaches C code whole. */
  lemma CStringWhole(s: string)
    requires forall i :: 0 <= i < |s| ==> s[i] != '\0'
    ensures CStringOf(s) == Encode(s)
  {
    EncodeNoNul(s);
  }

  /** A string is cut at its first NUL character. */
  lemma CStringAtNul(s: string, j: int)
    requires 0 <= j < |s| && s[j] == '\0'
    requires forall i :: 0 <= i < j ==> s[i] != '\0'
    ensures CStringOf(s) == Encode(s[..j])
  {
    var x := Encode(s[..j]);
    assert s == s[..j] + s[j..];
    EncodeAppend(s[..j], s[j..]);
    var y := Encode(s[j..]);
    assert y[0] == 0 by {
      assert y == EncodeChar(s[j]) + Encode(s[j + 1..]);
    }
    EncodeNoNul(s[..j]);
    CStringStops(x, y);
  }

  /** C code stops at the first zero byte. */
  lemma CStringStops(x: seq<bv8>, y: seq<bv8>)
    requires forall i :: 0 <= i < |x| ==> x[i] != 0
    requires |y| > 0 && y[0] == 0
    ensures CString(x + y) == x
  {
    var b := x + y;
    assert forall i :: 0 <= i < |x| ==> b[i] == x[i];
    assert b[|x|] == 0;
    var r := CString(b);
    assert r == b[..|x|];
    assert b[..|x|] == x;
  }
}
