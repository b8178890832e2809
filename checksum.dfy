/** The error-detection code (EDC) of a frame: CRC-16/XMODEM, polynomial
    0x1021, seed 0, bytes fed most significant bit first, no final xor.
    The firmware folds avr-libc's `_crc_xmodem_update` over the bytes; the
    update is modelled by its documented bitwise definition. */
module Checksum {
  import opened Octets

  const POLYNOMIAL: bv16 := 0x1021

  /** One shift of the CRC register: shift left, xor the polynomial in when the
      bit shifted out was set. */
  function ShiftOut(crc: bv16): bv16 {
    if crc & 0x8000 != 0 then (crc << 1) ^ POLYNOMIAL else crc << 1
  }

  function ShiftOutN(crc: bv16, k: nat): bv16
    decreases k
  {
    if k == 0 then crc else ShiftOutN(ShiftOut(crc), k - 1)
  }

  /** `_crc_xmodem_update(crc, data)`: xor the byte into the high half, then
      eight shifts. */
  function XmodemUpdate(crc: bv16, data: byte): bv16 {
    ShiftOutN(crc ^ ((data as bv16) << 8), 8)
  }

  /** The CRC of a byte sequence: the left fold of `XmodemUpdate` from 0. */
  function Crc(s: seq<byte>): bv16
    decreases |s|
  {
    if |s| == 0 then 0 else XmodemUpdate(Crc(s[..|s| - 1]), s[|s| - 1])
  }

  /** High and low byte of a 16-bit value, the order in which the trailer is sent. */
  function HighByte(v: bv16): byte { (v >> 8) as byte }
  function LowByte(v: bv16): byte { (v & 0xFF) as byte }

  /** The received trailer, read big-endian: `(hi << 8) | lo`. */
  function BigEndian(hi: byte, lo: byte): (v: bv16)
    ensures HighByte(v) == hi && LowByte(v) == lo
  {
    ((hi as bv16) << 8) | (lo as bv16)
  }

  /** `crc16(buf, len)`: the CRC of `buf[0, len)`; 0 when `len` is not positive. */
  method Crc16(buf: array<byte>, len: int) returns (crc: bv16)
    requires len <= buf.Length
    ensures crc == Crc(buf[..if len < 0 then 0 else len])
  {
    crc := 0;
    var i := 0;
    while i < len
      invariant 0 <= i <= if len < 0 then 0 else len
      invariant crc == Crc(buf[..i])
    {
      CrcNext(buf[..], i);
      crc := XmodemUpdate(crc, buf[i]);
      i := i + 1;
    }
  }

  /** The receiver's acceptance test `(calculated ^ received) <= 1`: the trailer
      is accepted when it equals the CRC or differs from it in the last bit only. */
  function EdcAccepted(calculated: bv16, received: bv16): (ok: bool)
    ensures ok <==> received == calculated || received == calculated ^ 1
  {
    var x := calculated ^ received;
    assert received == calculated ^ x;
    assert x <= 1 <==> x == 0 || x == 1;
    x <= 1
  }

  /** Shifting a register whose high byte is clear never feeds the polynomial
      back: eight shifts just move the low byte up. */
  lemma {:induction false} ShiftOutLowByte(v: bv16)
    requires v <= 0xFF
    ensures ShiftOutN(v, 8) == v << 8
  {
    var v1 := v << 1;
    var v2 := v << 2;
    var v3 := v << 3;
    var v4 := v << 4;
    var v5 := v << 5;
    var v6 := v << 6;
    var v7 := v << 7;
    assert ShiftOut(v) == v1 && ShiftOut(v1) == v2 && ShiftOut(v2) == v3 && ShiftOut(v3) == v4;
    assert ShiftOut(v4) == v5 && ShiftOut(v5) == v6 && ShiftOut(v6) == v7 && ShiftOut(v7) == v << 8;
    assert ShiftOutN(v, 8) == ShiftOutN(v1, 7) == ShiftOutN(v2, 6) == ShiftOutN(v3, 5);
    assert ShiftOutN(v3, 5) == ShiftOutN(v4, 4) == ShiftOutN(v5, 3) == ShiftOutN(v6, 2);
  }

  lemma {:induction false} ShiftOutZero(k: nat)
    ensures ShiftOutN(0, k) == 0
  {
    if k > 0 {
      assert ShiftOut(0) == 0;
      ShiftOutZero(k - 1);
    }
  }

  /** Feeding a register its own high byte clears the high half, which the
      eight shifts then replace by the low half. */
  lemma HighTrailerByte(c: bv16)
    ensures XmodemUpdate(c, HighByte(c)) == (c & 0xFF) << 8
  {
    HighByteCancels(c);
    ShiftOutLowByte(c & 0xFF);
  }

  lemma HighByteCancels(c: bv16)
    ensures c ^ ((HighByte(c) as bv16) << 8) == c & 0xFF
  {
  }

  /** Feeding a register its own value, high byte first, returns it to zero. */
  lemma TrailerResidue(c: bv16)
    ensures XmodemUpdate(XmodemUpdate(c, HighByte(c)), LowByte(c)) == 0
  {
    HighTrailerByte(c);
    assert ((c & 0xFF) << 8) ^ ((LowByte(c) as bv16) << 8) == 0;
    ShiftOutZero(8);
  }

  /** Appending the CRC of a message, high byte first, drives the register back
      to zero: the trailer the transmitter appends is the one that makes the
      whole frame check out. */
  lemma CrcOfFramedMessageIsZero(s: seq<byte>)
    ensures Crc(s + [HighByte(Crc(s)), LowByte(Crc(s))]) == 0
  {
    var c := Crc(s);
    var s1 := s + [HighByte(c)];
    assert s1[..|s1| - 1] == s;
    var s2 := s1 + [LowByte(c)];
    assert s2[..|s2| - 1] == s1;
    assert s2 == s + [HighByte(c), LowByte(c)];
    assert Crc(s2) == XmodemUpdate(XmodemUpdate(c, HighByte(c)), LowByte(c));
    TrailerResidue(c);
  }

  /** The CRC of the first `i + 1` bytes is one update after that of the first `i`. */
  lemma CrcNext(a: seq<byte>, i: int)
    requires 0 <= i < |a|
    ensures Crc(a[..i + 1]) == XmodemUpdate(Crc(a[..i]), a[i])
  {
    assert a[..i + 1] == a[..i] + [a[i]];
    CrcSnoc(a[..i], a[i]);
  }

  /** The CRC of a sequence extended by one byte is one more update. */
  lemma CrcSnoc(s: seq<byte>, b: byte)
    ensures Crc(s + [b]) == XmodemUpdate(Crc(s), b)
  {
    assert (s + [b])[..|s|] == s;
  }

  /** The update written out as its eight shifts. */
  lemma UpdateUnfolded(crc: bv16, data: byte)
    ensures var x := crc ^ ((data as bv16) << 8);
            XmodemUpdate(crc, data) ==
              ShiftOut(ShiftOut(ShiftOut(ShiftOut(ShiftOut(ShiftOut(ShiftOut(ShiftOut(x))))))))
  {
    var x := crc ^ ((data as bv16) << 8);
    assert ShiftOutN(x, 8) == ShiftOutN(ShiftOut(x), 7) == ShiftOutN(ShiftOut(ShiftOut(x)), 6);
    assert ShiftOutN(ShiftOut(ShiftOut(x)), 6) == ShiftOutN(ShiftOut(ShiftOut(ShiftOut(x))), 5);
    assert ShiftOutN(ShiftOut(ShiftOut(ShiftOut(x))), 5) == ShiftOutN(ShiftOut(ShiftOut(ShiftOut(ShiftOut(x)))), 4);
  }

  /** The updates over the digits "123456789", one at a time. */
  lemma DigitUpdates()
    ensures XmodemUpdate(0x0000, 0x31) == 0x2672 &&
            XmodemUpdate(0x2672, 0x32) == 0x20B5 &&
            XmodemUpdate(0x20B5, 0x33) == 0x9752 &&
            XmodemUpdate(0x9752, 0x34) == 0xD789 &&
            XmodemUpdate(0xD789, 0x35) == 0x546C &&
            XmodemUpdate(0x546C, 0x36) == 0x20E4 &&
            XmodemUpdate(0x20E4, 0x37) == 0x86D6 &&
            XmodemUpdate(0x86D6, 0x38) == 0x9015 &&
            XmodemUpdate(0x9015, 0x39) == 0x31C3
  {
    UpdateUnfolded(0x0000, 0x31);
    UpdateUnfolded(0x2672, 0x32);
    UpdateUnfolded(0x20B5, 0x33);
    UpdateUnfolded(0x9752, 0x34);
    UpdateUnfolded(0xD789, 0x35);
    UpdateUnfolded(0x546C, 0x36);
    UpdateUnfolded(0x20E4, 0x37);
    UpdateUnfolded(0x86D6, 0x38);
    UpdateUnfolded(0x9015, 0x39);
  }

  /** The CRC of a sequence extended by one byte, from the CRC of the sequence. */
  lemma CrcExtends(s: seq<byte>, b: byte, c: bv16, d: bv16)
    requires Crc(s) == c && XmodemUpdate(c, b) == d
    ensures Crc(s + [b]) == d
  {
    CrcSnoc(s, b);
  }

  /** The check value of CRC-16/XMODEM: the CRC of the ASCII digits
      "123456789" is 31 C3, which pins down the polynomial, the seed, the bit
      order and the absence of a final xor. */
  lemma CrcCheckValue(digits: seq<byte>)
    requires digits == [0x31, 0x32, 0x33, 0x34, 0x35, 0x36, 0x37, 0x38, 0x39]
    ensures Crc(digits) == 0x31C3
  {
    DigitUpdates();
    var s: seq<byte> := [];
    CrcExtends(s, 0x31, 0x0000, 0x2672);
    s := s + [0x31];
    CrcExtends(s, 0x32, 0x2672, 0x20B5);
    s := s + [0x32];
    CrcExtends(s, 0x33, 0x20B5, 0x9752);
    s := s + [0x33];
    CrcExtends(s, 0x34, 0x9752, 0xD789);
    s := s + [0x34];
    CrcExtends(s, 0x35, 0xD789, 0x546C);
    s := s + [0x35];
    CrcExtends(s, 0x36, 0x546C, 0x20E4);
    s := s + [0x36];
    CrcExtends(s, 0x37, 0x20E4, 0x86D6);
    s := s + [0x37];
    CrcExtends(s, 0x38, 0x86D6, 0x9015);
    s := s + [0x38];
    CrcExtends(s, 0x39, 0x9015, 0x31C3);
    s := s + [0x39];
    assert s == digits;
  }
}
