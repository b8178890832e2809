/** The physical line code of the data-link layer: a Manchester code (each data
    bit becomes the chip pair 10 for a one and 01 for a zero) that the card
    samples eight chips to a byte, at an unknown chip phase and polarity.
    Chip `t` of a sampled byte is bit 7 - t: the first chip received is the
    most significant bit. Chip indices and window positions are bit-vectors
    (`bv3`, `bv4`, `bv5`) so that the solver reasons about them bitwise. */
module LineCode {
  import opened Octets

  /** Chip `t` of a byte: bit 7 - t. */
  predicate Chip(b: byte, t: bv3) {
    b & (0x80 >> t) != 0
  }

  /** Chip `pos` of the 24-chip window data1 ‖ data2 ‖ data3. */
  predicate ChipAt(data1: byte, data2: byte, data3: byte, pos: bv5)
    requires pos < 24
  {
    var t := (pos & 7) as bv3;
    if pos < 8 then Chip(data1, t) else if pos < 16 then Chip(data2, t) else Chip(data3, t)
  }

  /** Two bytes with the same eight chips are equal. */
  lemma ByteFromChips(a: byte, b: byte)
    requires forall t: bv3 :: Chip(a, t) == Chip(b, t)
    ensures a == b
  {
    assert Chip(a, 0) == Chip(b, 0) && Chip(a, 1) == Chip(b, 1);
    assert Chip(a, 2) == Chip(b, 2) && Chip(a, 3) == Chip(b, 3);
    assert Chip(a, 4) == Chip(b, 4) && Chip(a, 5) == Chip(b, 5);
    assert Chip(a, 6) == Chip(b, 6) && Chip(a, 7) == Chip(b, 7);
  }

  /** A chip phase 0..7 as a window position. */
  function Phase(shift: int): (p: bv5)
    requires 0 <= shift < 8
    ensures p < 8 && p as int == shift
  {
    if shift == 0 then 0 else if shift == 1 then 1 else if shift == 2 then 2 else if shift == 3 then 3
    else if shift == 4 then 4 else if shift == 5 then 5 else if shift == 6 then 6 else 7
  }

  // ---------------------------------------------------------------------------
  // Sync detection: get_shift_from_sync

  /** The sampled chips that identify each phase. */
  function Signature(shift: int): (sig: (byte, byte, byte))
    requires 0 <= shift < 8
  {
    if shift == 0 then (0xAA, 0x8A, 0x08) else if shift == 1 then (0x55, 0x45, 0x04)
    else if shift == 2 then (0xAA, 0x22, 0x82) else if shift == 3 then (0x55, 0x11, 0x41)
    else if shift == 4 then (0xAA, 0x08, 0xA0) else if shift == 5 then (0x55, 0x04, 0x50)
    else if shift == 6 then (0xAA, 0x02, 0x28) else (0x55, 0x01, 0x14)
  }

  predicate SignatureMatches(shift: int, sync1: byte, sync2: byte)
    requires 0 <= shift < 8
  {
    var (mask, first, second) := Signature(shift);
    sync1 & mask == first && sync2 & mask == second
  }

  function GetShiftFromSync(sync1: byte, sync2: byte): (shift: int)
    ensures -1 <= shift < 8
  {
    var a1 := sync1 & 0xAA;
    var b1 := sync1 & 0x55;
    var a2 := sync2 & 0xAA;
    var b2 := sync2 & 0x55;
    if a1 == 0x8A && a2 == 0x08 then 0
    else if b1 == 0x45 && b2 == 0x04 then 1
    else if a1 == 0x22 && a2 == 0x82 then 2
    else if b1 == 0x11 && b2 == 0x41 then 3
    else if a1 == 0x08 && a2 == 0xA0 then 4
    else if b1 == 0x04 && b2 == 0x50 then 5
    else if a1 == 0x02 && a2 == 0x28 then 6
    else if b1 == 0x01 && b2 == 0x14 then 7
    else -1
  }
  lemma GetShiftFromSyncFindsFirstMatch(sync1: byte, sync2: byte)
    ensures var shift := GetShiftFromSync(sync1, sync2);
            (shift != -1 ==> SignatureMatches(shift, sync1, sync2)) &&
            forall s | 0 <= s < 8 && (shift == -1 || s < shift) :: !SignatureMatches(s, sync1, sync2)
  {
    var shift := GetShiftFromSync(sync1, sync2);
    forall s | 0 <= s < 8 && (shift == -1 || s < shift) ensures !SignatureMatches(s, sync1, sync2) {
      if s == 0 {} else if s == 1 {} else if s == 2 {} else if s == 3 {}
      else if s == 4 {} else if s == 5 {} else if s == 6 {} else {}
    }
  }

  /** The contest at one offset of `find_sync_index` between the phase found
      in the bytes as sampled (`shift1`) and the one found in their complement
      (`shift2`): the strictly larger valid one wins, with `invert` telling
      which; equal phases give no sync. */
  function PickSync(shift1: int, shift2: int): (r: Option<(int, bool)>)
    requires -1 <= shift1 < 8 && -1 <= shift2 < 8
    ensures r.Some? <==> shift1 != shift2
    ensures r.Some? ==>
              0 <= r.value.0 < 8 &&
              (r.value.1 <==> shift2 > shift1) &&
              r.value.0 == if r.value.1 then shift2 else shift1
  {
    if shift1 != -1 && shift1 > shift2 then Some((shift1, false))
    else if shift2 != -1 && shift2 > shift1 then Some((shift2, true))
    else None
  }

  /** The decision `find_sync_index` takes at one offset. */
  function SyncAt(d1: byte, d2: byte): Option<(int, bool)> {
    PickSync(GetShiftFromSync(d1, d2), GetShiftFromSync(!d1, !d2))
  }

  /** Complementing the signal keeps the phase and flips `invert`. */
  lemma SyncAtComplement(d1: byte, d2: byte)
    ensures SyncAt(!d1, !d2).Some? <==> SyncAt(d1, d2).Some?
    ensures SyncAt(d1, d2).Some? ==>
              SyncAt(!d1, !d2).value == (SyncAt(d1, d2).value.0, !SyncAt(d1, d2).value.1)
  {
    assert !!d1 == d1 && !!d2 == d2;
  }

  // ---------------------------------------------------------------------------
  // Bit-phase extraction: extract_byte

  /** `extract_byte`: one data byte from the window data1 ‖ data2 ‖ data3 at
      chip phase `shift`, each output bit set when its one source chip is
      (`if (data & mask) x |= bit;`). Output bit 7 - j is the chip at window position
      shift + 2j, so every other chip is read; shifts outside 0..7 give 0. */
  function ExtractByte(shift: int, data1: byte, data2: byte, data3: byte): (x: byte)
    ensures !(0 <= shift < 8) ==> x == 0
  {
    if shift == 0 then
      (if data1 & 0x80 != 0 then 0x80 else 0) | (if data1 & 0x20 != 0 then 0x40 else 0) |
      (if data1 & 0x08 != 0 then 0x20 else 0) | (if data1 & 0x02 != 0 then 0x10 else 0) |
      (if data2 & 0x80 != 0 then 0x08 else 0) | (if data2 & 0x20 != 0 then 0x04 else 0) |
      (if data2 & 0x08 != 0 then 0x02 else 0) | (if data2 & 0x02 != 0 then 0x01 else 0)
    else if shift == 1 then
      (if data1 & 0x40 != 0 then 0x80 else 0) | (if data1 & 0x10 != 0 then 0x40 else 0) |
      (if data1 & 0x04 != 0 then 0x20 else 0) | (if data1 & 0x01 != 0 then 0x10 else 0) |
      (if data2 & 0x40 != 0 then 0x08 else 0) | (if data2 & 0x10 != 0 then 0x04 else 0) |
      (if data2 & 0x04 != 0 then 0x02 else 0) | (if data2 & 0x01 != 0 then 0x01 else 0)
    else if shift == 2 then
      (if data1 & 0x20 != 0 then 0x80 else 0) | (if data1 & 0x08 != 0 then 0x40 else 0) |
      (if data1 & 0x02 != 0 then 0x20 else 0) | (if data2 & 0x80 != 0 then 0x10 else 0) |
      (if data2 & 0x20 != 0 then 0x08 else 0) | (if data2 & 0x08 != 0 then 0x04 else 0) |
      (if data2 & 0x02 != 0 then 0x02 else 0) | (if data3 & 0x80 != 0 then 0x01 else 0)
    else if shift == 3 then
      (if data1 & 0x10 != 0 then 0x80 else 0) | (if data1 & 0x04 != 0 then 0x40 else 0) |
      (if data1 & 0x01 != 0 then 0x20 else 0) | (if data2 & 0x40 != 0 then 0x10 else 0) |
      (if data2 & 0x10 != 0 then 0x08 else 0) | (if data2 & 0x04 != 0 then 0x04 else 0) |
      (if data2 & 0x01 != 0 then 0x02 else 0) | (if data3 & 0x40 != 0 then 0x01 else 0)
    else if shift == 4 then
      (if data1 & 0x08 != 0 then 0x80 else 0) | (if data1 & 0x02 != 0 then 0x40 else 0) |
      (if data2 & 0x80 != 0 then 0x20 else 0) | (if data2 & 0x20 != 0 then 0x10 else 0) |
      (if data2 & 0x08 != 0 then 0x08 else 0) | (if data2 & 0x02 != 0 then 0x04 else 0) |
      (if data3 & 0x80 != 0 then 0x02 else 0) | (if data3 & 0x20 != 0 then 0x01 else 0)
    else if shift == 5 then
      (if data1 & 0x04 != 0 then 0x80 else 0) | (if data1 & 0x01 != 0 then 0x40 else 0) |
      (if data2 & 0x40 != 0 then 0x20 else 0) | (if data2 & 0x10 != 0 then 0x10 else 0) |
      (if data2 & 0x04 != 0 then 0x08 else 0) | (if data2 & 0x01 != 0 then 0x04 else 0) |
      (if data3 & 0x40 != 0 then 0x02 else 0) | (if data3 & 0x10 != 0 then 0x01 else 0)
    else if shift == 6 then
      (if data1 & 0x02 != 0 then 0x80 else 0) | (if data2 & 0x80 != 0 then 0x40 else 0) |
      (if data2 & 0x20 != 0 then 0x20 else 0) | (if data2 & 0x08 != 0 then 0x10 else 0) |
      (if data2 & 0x02 != 0 then 0x08 else 0) | (if data3 & 0x80 != 0 then 0x04 else 0) |
      (if data3 & 0x20 != 0 then 0x02 else 0) | (if data3 & 0x08 != 0 then 0x01 else 0)
    else if shift == 7 then
      (if data1 & 0x01 != 0 then 0x80 else 0) | (if data2 & 0x40 != 0 then 0x40 else 0) |
      (if data2 & 0x10 != 0 then 0x20 else 0) | (if data2 & 0x04 != 0 then 0x10 else 0) |
      (if data2 & 0x01 != 0 then 0x08 else 0) | (if data3 & 0x40 != 0 then 0x04 else 0) |
      (if data3 & 0x10 != 0 then 0x02 else 0) | (if data3 & 0x04 != 0 then 0x01 else 0)
    else
      0
  }

  lemma ExtractAtShift0(data1: byte, data2: byte, data3: byte)
    ensures forall j: bv3 :: Chip(ExtractByte(0, data1, data2, data3), j) == ChipAt(data1, data2, data3, 0 + 2 * (j as bv5))
  {
  }

  lemma ExtractAtShift1(data1: byte, data2: byte, data3: byte)
    ensures forall j: bv3 :: Chip(ExtractByte(1, data1, data2, data3), j) == ChipAt(data1, data2, data3, 1 + 2 * (j as bv5))
  {
  }

  lemma ExtractAtShift2(data1: byte, data2: byte, data3: byte)
    ensures forall j: bv3 :: Chip(ExtractByte(2, data1, data2, data3), j) == ChipAt(data1, data2, data3, 2 + 2 * (j as bv5))
  {
  }

  lemma ExtractAtShift3(data1: byte, data2: byte, data3: byte)
    ensures forall j: bv3 :: Chip(ExtractByte(3, data1, data2, data3), j) == ChipAt(data1, data2, data3, 3 + 2 * (j as bv5))
  {
  }

  lemma ExtractAtShift4(data1: byte, data2: byte, data3: byte)
    ensures forall j: bv3 :: Chip(ExtractByte(4, data1, data2, data3), j) == ChipAt(data1, data2, data3, 4 + 2 * (j as bv5))
  {
  }

  lemma ExtractAtShift5(data1: byte, data2: byte, data3: byte)
    ensures forall j: bv3 :: Chip(ExtractByte(5, data1, data2, data3), j) == ChipAt(data1, data2, data3, 5 + 2 * (j as bv5))
  {
  }

  lemma ExtractAtShift6(data1: byte, data2: byte, data3: byte)
    ensures forall j: bv3 :: Chip(ExtractByte(6, data1, data2, data3), j) == ChipAt(data1, data2, data3, 6 + 2 * (j as bv5))
  {
  }

  lemma ExtractAtShift7(data1: byte, data2: byte, data3: byte)
    ensures forall j: bv3 :: Chip(ExtractByte(7, data1, data2, data3), j) == ChipAt(data1, data2, data3, 7 + 2 * (j as bv5))
  {
  }

  /** `extract_byte` gathers every other chip: chip j of the result is the
      window chip at position shift + 2j, one fixed (byte, mask) pair per bit. */
  lemma ExtractByteReadsEveryOtherChip(shift: int, data1: byte, data2: byte, data3: byte)
    requires 0 <= shift < 8
    ensures forall j: bv3 ::
              Chip(ExtractByte(shift, data1, data2, data3), j) == ChipAt(data1, data2, data3, Phase(shift) + 2 * (j as bv5))
  {
    if shift == 0 { ExtractAtShift0(data1, data2, data3); }
    else if shift == 1 { ExtractAtShift1(data1, data2, data3); }
    else if shift == 2 { ExtractAtShift2(data1, data2, data3); }
    else if shift == 3 { ExtractAtShift3(data1, data2, data3); }
    else if shift == 4 { ExtractAtShift4(data1, data2, data3); }
    else if shift == 5 { ExtractAtShift5(data1, data2, data3); }
    else if shift == 6 { ExtractAtShift6(data1, data2, data3); }
    else if shift == 7 { ExtractAtShift7(data1, data2, data3); }
  }

  /** Phases 0 and 1 never look at the third byte of the window. */
  lemma LowShiftsIgnoreThirdByte(shift: int, data1: byte, data2: byte, data3: byte, other: byte)
    requires shift == 0 || shift == 1
    ensures ExtractByte(shift, data1, data2, data3) == ExtractByte(shift, data1, data2, other)
  {
    ExtractByteReadsEveryOtherChip(shift, data1, data2, data3);
    ExtractByteReadsEveryOtherChip(shift, data1, data2, other);
    ByteFromChips(ExtractByte(shift, data1, data2, data3), ExtractByte(shift, data1, data2, other));
  }

  /** The receiver's decoding of one byte: extract at the frame's phase and
      complement when the frame was found inverted. */
  function Decode(shift: int, invert: bool, data1: byte, data2: byte, data3: byte): byte {
    var x := ExtractByte(shift, data1, data2, data3);
    if invert then !x else x
  }

  // ---------------------------------------------------------------------------
  // Manchester encoding: transmit_byte

  /** `table` in `transmit_byte`: the chips of each nibble, first chip first. */
  const MANCHESTER: seq<byte> :=
    [0x55, 0x56, 0x59, 0x5A, 0x65, 0x66, 0x69, 0x6A, 0x95, 0x96, 0x99, 0x9A, 0xA5, 0xA6, 0xA9, 0xAA]

  /** Every table entry codes nibble bit 3 - k as its chip pair 2k, 2k+1: the
      pair is 10 for a one and 01 for a zero. */
  lemma ManchesterTableCodesNibbles(v: byte)
    requires v < 16
    ensures var code := MANCHESTER[v as int];
            forall t: bv3 :: Chip(code, t) == (Chip(v, 4 + (t >> 1)) != (t & 1 == 1))
  {
    if v == 0 {} else if v == 1 {} else if v == 2 {} else if v == 3 {}
    else if v == 4 {} else if v == 5 {} else if v == 6 {} else if v == 7 {}
    else if v == 8 {} else if v == 9 {} else if v == 10 {} else if v == 11 {}
    else if v == 12 {} else if v == 13 {} else if v == 14 {} else {}
  }

  /** `transmit_byte`: the two chip bytes sent for one data byte, the code of
      its high nibble first. */
  function TransmitByte(data: byte): (chips: seq<byte>)
    ensures |chips| == 2
  {
    [MANCHESTER[(data >> 4) as int], MANCHESTER[(data & 0xF) as int]]
  }

  /** Extraction at phase 0 reads the first chip of every pair: the nibble
      back from its table entry. */
  lemma FirstChipsOfTable(v: byte)
    requires v < 16
    ensures ExtractByte(0, MANCHESTER[v as int], 0, 0) == v << 4
    ensures ExtractByte(0, 0, MANCHESTER[v as int], 0) == v
  {
    if v == 0 {} else if v == 1 {} else if v == 2 {} else if v == 3 {}
    else if v == 4 {} else if v == 5 {} else if v == 6 {} else if v == 7 {}
    else if v == 8 {} else if v == 9 {} else if v == 10 {} else if v == 11 {}
    else if v == 12 {} else if v == 13 {} else if v == 14 {} else {}
  }

  /** Extraction at phase 1 reads the second chip of every pair: the
      complemented nibble. */
  lemma SecondChipsOfTable(v: byte)
    requires v < 16
    ensures ExtractByte(1, MANCHESTER[v as int], 0, 0) == (v ^ 0xF) << 4
    ensures ExtractByte(1, 0, MANCHESTER[v as int], 0) == v ^ 0xF
  {
    if v == 0 {} else if v == 1 {} else if v == 2 {} else if v == 3 {}
    else if v == 4 {} else if v == 5 {} else if v == 6 {} else if v == 7 {}
    else if v == 8 {} else if v == 9 {} else if v == 10 {} else if v == 11 {}
    else if v == 12 {} else if v == 13 {} else if v == 14 {} else {}
  }

  /** At phases 0 and 1 the first window byte gives the high nibble and the
      second the low one, independently. */
  lemma ExtractSplitsIntoNibbles(shift: int, data1: byte, data2: byte, data3: byte)
    requires shift == 0 || shift == 1
    ensures ExtractByte(shift, data1, data2, data3) == ExtractByte(shift, data1, 0, 0) | ExtractByte(shift, 0, data2, 0)
  {
  }

  /** The Manchester round trip: the two chip bytes `transmit_byte` sends for
      `x`, sampled in step with the sender, decode to `x` at phase 0 as sent,
      and at phase 1 complemented, the phase and polarity `find_sync_index`
      reports for a frame sampled in step (`SyncFoundAtEveryPhase`). */
  lemma TransmittedByteDecodes(x: byte, next: byte)
    ensures var chips := TransmitByte(x);
            ExtractByte(0, chips[0], chips[1], next) == x &&
            Decode(1, true, chips[0], chips[1], next) == x
  {
    var chips := TransmitByte(x);
    var hi, lo := x >> 4, x & 0xF;
    FirstChipsOfTable(hi);
    FirstChipsOfTable(lo);
    SecondChipsOfTable(hi);
    SecondChipsOfTable(lo);
    ExtractSplitsIntoNibbles(0, chips[0], chips[1], next);
    ExtractSplitsIntoNibbles(1, chips[0], chips[1], next);
    assert (hi << 4) | lo == x;
    assert !(((hi ^ 0xF) << 4) | (lo ^ 0xF)) == x;
  }

  // ---------------------------------------------------------------------------
  // Finding the sync pattern at any phase and polarity

  /** The phase and polarity `find_sync_index` reports for a header whose chips
      start at `phase` in polarity `inverted`: the complemented signal also
      shows a sync one chip later, and the larger phase wins, except at phase 7. */
  function DetectedPhase(phase: int, inverted: bool): (int, bool) {
    if phase < 7 then (phase + 1, !inverted) else (7, inverted)
  }

  /** The byte sampled at phase `phase` across the boundary between two chip
      bytes: the last `phase` chips of `previous`, then the first 8 - `phase`
      chips of `current`. */
  function Straddle(previous: byte, current: byte, phase: int): byte
    requires 0 <= phase < 8
  {
    var p := Phase(phase) as bv8;
    if p == 0 then current else (previous << (8 - p)) | (current >> p)
  }

  /** The chips of the header byte 00 never look like a sync, nor does the
      pair that straddles 00 and B2, at any phase, as sent or complemented. */
  lemma NoSyncBeforeHeader(phase: int)
    requires 0 <= phase < 8
    ensures var idle := TransmitByte(0x00)[1];
            var a := Straddle(idle, idle, phase);
            var b := Straddle(idle, TransmitByte(0xB2)[0], phase);
            SyncAt(a, a) == None && SyncAt(!a, !a) == None &&
            SyncAt(a, b) == None && SyncAt(!a, !b) == None
  {
    assert TransmitByte(0x00) == [0x55, 0x55];
    assert TransmitByte(0xB2) == [0x9A, 0x59];
    var a := Straddle(0x55, 0x55, phase);
    var b := Straddle(0x55, 0x9A, phase);
    if phase == 0 { assert a == 0x55 && b == 0x9A; }
    else if phase == 1 { assert a == 0xAA && b == 0xCD; }
    else if phase == 2 { assert a == 0x55 && b == 0x66; }
    else if phase == 3 { assert a == 0xAA && b == 0xB3; }
    else if phase == 4 { assert a == 0x55 && b == 0x59; }
    else if phase == 5 { assert a == 0xAA && b == 0xAC; }
    else if phase == 6 { assert a == 0x55 && b == 0x56; }
    else { assert a == 0xAA && b == 0xAB; }
    SyncAtComplement(a, a);
    SyncAtComplement(a, b);
  }

  /** The pair that holds the chips of B2, sampled at `phase`, shows the sync
      at `phase` and, complemented, one chip later (none at phase 7). */
  lemma SyncPairShifts(phase: int)
    requires 0 <= phase < 8
    ensures var sync := TransmitByte(0xB2);
            var d1 := Straddle(TransmitByte(0x00)[1], sync[0], phase);
            var d2 := Straddle(sync[0], sync[1], phase);
            GetShiftFromSync(d1, d2) == phase &&
            GetShiftFromSync(!d1, !d2) == if phase < 7 then phase + 1 else -1
  {
    assert TransmitByte(0x00) == [0x55, 0x55];
    assert TransmitByte(0xB2) == [0x9A, 0x59];
    var d1 := Straddle(0x55, 0x9A, phase);
    var d2 := Straddle(0x9A, 0x59, phase);
    if phase == 0 { assert d1 == 0x9A && d2 == 0x59; }
    else if phase == 1 { assert d1 == 0xCD && d2 == 0x2C; }
    else if phase == 2 { assert d1 == 0x66 && d2 == 0x96; }
    else if phase == 3 { assert d1 == 0xB3 && d2 == 0x4B; }
    else if phase == 4 { assert d1 == 0x59 && d2 == 0xA5; }
    else if phase == 5 { assert d1 == 0xAC && d2 == 0xD2; }
    else if phase == 6 { assert d1 == 0x56 && d2 == 0x69; }
    else { assert d1 == 0xAB && d2 == 0x34; }
  }

  /** `find_sync_index`'s decision at a pair that shows the sync at phase `s`
      and, complemented, one chip later (none at phase 7), as sampled and
      complemented. */
  lemma SyncAtLaterPhase(d1: byte, d2: byte, s: int)
    requires 0 <= s < 8
    requires GetShiftFromSync(d1, d2) == s
    requires GetShiftFromSync(!d1, !d2) == if s < 7 then s + 1 else -1
    ensures SyncAt(d1, d2) == Some(DetectedPhase(s, false))
    ensures SyncAt(!d1, !d2) == Some(DetectedPhase(s, true))
  {
    SyncAtComplement(d1, d2);
  }

  /** The sampled pair that holds the chips of the header byte B2 yields the
      phase and polarity of `DetectedPhase`, whatever the phase at which the
      header arrives, as sent or complemented. */
  lemma SyncFoundAtEveryPhase(phase: int)
    requires 0 <= phase < 8
    ensures var sync := TransmitByte(0xB2);
            var d1 := Straddle(TransmitByte(0x00)[1], sync[0], phase);
            var d2 := Straddle(sync[0], sync[1], phase);
            SyncAt(d1, d2) == Some(DetectedPhase(phase, false)) &&
            SyncAt(!d1, !d2) == Some(DetectedPhase(phase, true))
  {
    assert TransmitByte(0x00) == [0x55, 0x55];
    assert TransmitByte(0xB2) == [0x9A, 0x59];
    if phase == 0 { SyncAtLaterPhase(0x9A, 0x59, 0); }
    else if phase == 1 { SyncAtLaterPhase(0xCD, 0x2C, 1); }
    else if phase == 2 { SyncAtLaterPhase(0x66, 0x96, 2); }
    else if phase == 3 { SyncAtLaterPhase(0xB3, 0x4B, 3); }
    else if phase == 4 { SyncAtLaterPhase(0x59, 0xA5, 4); }
    else if phase == 5 { SyncAtLaterPhase(0xAC, 0xD2, 5); }
    else if phase == 6 { SyncAtLaterPhase(0x56, 0x69, 6); }
    else { SyncAtLaterPhase(0xAB, 0x34, 7); }
  }
}
