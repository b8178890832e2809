/** The application layer of the card (JIS X 6319-4 commands), as values:
    the card's memory, and for every command handler the answer flag, the
    response buffer and the memory it leaves. The handlers of the `Card`
    class are proved to compute exactly these. */
module Application {
  import opened Octets
  import opened Checksum

  const BLOCK_MAX: int := 12
  const SYSTEM_MAX: int := 4
  const SERVICE_MAX: int := 4
  const LAST_ERROR_SIZE: int := 2
  const ERROR_BLOCK: int := 0xE0
  /** Size of the response buffer (`response[0xFF]`). */
  const RESPONSE_SIZE: int := 0xFF
  const BLOCK_SIZE: int := 16

  /** The EEPROM: IDm, PMm, the service and system code tables, the twelve
      data blocks and the two error-log blocks. */
  datatype Eeprom = Eeprom(idm: seq<byte>, pmm: seq<byte>, serviceCode: seq<byte>, systemCode: seq<byte>,
                           blocks: seq<byte>, lastError: seq<byte>)
  {
    predicate Valid() {
      |idm| == 8 && |pmm| == 8 && |serviceCode| == 2 * SERVICE_MAX && |systemCode| == 2 * SYSTEM_MAX &&
      |blocks| == BLOCK_SIZE * BLOCK_MAX && |lastError| == BLOCK_SIZE * LAST_ERROR_SIZE
    }
  }

  /** The card's memory: the RAM copies of IDm, PMm and the code tables the
      handlers read, and the EEPROM they are loaded from and written back to. */
  datatype CardState = CardState(idm: seq<byte>, pmm: seq<byte>, serviceCode: seq<byte>, systemCode: seq<byte>,
                                 eeprom: Eeprom)
  {
    predicate Valid() {
      |idm| == 8 && |pmm| == 8 && |serviceCode| == 2 * SERVICE_MAX && |systemCode| == 2 * SYSTEM_MAX &&
      eeprom.Valid()
    }

    /** The RAM copies agree with the EEPROM, as `initialize` leaves them. */
    predicate Mirrored() {
      idm == eeprom.idm && pmm == eeprom.pmm && serviceCode == eeprom.serviceCode && systemCode == eeprom.systemCode
    }
  }

  /** `initialize`: load the RAM copies from the EEPROM. */
  function Initialize(e: Eeprom): (s: CardState)
    requires e.Valid()
    ensures s.Valid() && s.Mirrored() && s.eeprom == e
  {
    CardState(e.idm, e.pmm, e.serviceCode, e.systemCode, e)
  }

  /** The 16-bit value of a little-endian byte pair, `lo | (hi << 8)`. */
  function LittleEndian(lo: byte, hi: byte): (v: bv16)
    ensures v == BigEndian(hi, lo)
  {
    (lo as bv16) | ((hi as bv16) << 8)
  }

  /** The error answer of read and write: length 12, status flag 1 = FF,
      status flag 2 = `code`. */
  function Status(response: seq<byte>, code: byte): (r: seq<byte>)
    requires |response| == RESPONSE_SIZE
    ensures |r| == RESPONSE_SIZE
    ensures r[1..10] == response[1..10] && r[12..] == response[12..]
    ensures r[0] == 12 && r[10] == 0xFF && r[11] == code
    ensures forall k | 0 <= k < RESPONSE_SIZE && k != 0 && k != 10 && k != 11 :: r[k] == response[k]
  {
    response[0 := 12][10 := 0xFF][11 := code]
  }

  // ---------------------------------------------------------------------------
  // Polling

  /** Entry `i` of a code table is in use: the list ends at the first 00 00. */
  predicate InUse(table: seq<byte>, i: int)
    requires 0 <= 2 * i && 2 * i + 1 < |table|
  {
    !(table[2 * i] == 0 && table[2 * i + 1] == 0)
  }

  /** Entry `i` of the system code table answers the requested code
      `c2 c3`, each byte of which may be the wildcard FF. */
  predicate SystemMatches(systemCode: seq<byte>, i: int, c2: byte, c3: byte)
    requires 0 <= i < SYSTEM_MAX && |systemCode| == 2 * SYSTEM_MAX
  {
    (c2 == systemCode[2 * i] || c2 == 0xFF) && (c3 == systemCode[2 * i + 1] || c3 == 0xFF)
  }

  /** The search loop of `polling`, from entry `i`: the first entry in use
      that matches, or -1 once an unused entry or the end is reached. */
  function SystemIndexFrom(systemCode: seq<byte>, c2: byte, c3: byte, i: int): (r: int)
    requires |systemCode| == 2 * SYSTEM_MAX && 0 <= i <= SYSTEM_MAX
    ensures r == -1 || i <= r < SYSTEM_MAX
    decreases SYSTEM_MAX - i
  {
    if i == SYSTEM_MAX then -1
    else if !InUse(systemCode, i) then -1
    else if SystemMatches(systemCode, i, c2, c3) then i
    else SystemIndexFrom(systemCode, c2, c3, i + 1)
  }

  /** The system index `polling` answers for: the search result, overridden
      by 0 for the request FF FF so that a card with an empty table still
      answers. */
  function PollingSystem(systemCode: seq<byte>, c2: byte, c3: byte): (r: int)
    requires |systemCode| == 2 * SYSTEM_MAX
    ensures -1 <= r < SYSTEM_MAX
    ensures c2 == 0xFF && c3 == 0xFF ==> r == 0
  {
    if c2 == 0xFF && c3 == 0xFF then 0 else SystemIndexFrom(systemCode, c2, c3, 0)
  }

  /** The first IDm byte of a polling answer for system `index` > 0:
      `(index << 4) | (b & 0x0F)`, the system index in the top nibble. */
  function WithSystemIndex(b: byte, index: int): (t: byte)
    requires 0 < index < SYSTEM_MAX
    ensures t & 0x0F == b & 0x0F && t >> 4 == index as byte
  {
    var t := ((index as byte) << 4) | (b & 0x0F);
    assert t >> 4 == index as byte by {
      if index == 1 {} else if index == 2 {} else {}
    }
    t
  }

  /** Bytes 1 to 17 of a polling answer: response code 01, the IDm with
      the system index in the top nibble of its first byte when the index
      is not 0, and the PMm. */
  function PollingHeader(s: CardState, index: int, response: seq<byte>): (r: seq<byte>)
    requires s.Valid() && 0 <= index < SYSTEM_MAX && |response| == RESPONSE_SIZE
    ensures |r| == RESPONSE_SIZE && r[0] == response[0] && r[1] == 0x01
    ensures r[2] & 0x0F == s.idm[0] & 0x0F && r[2] >> 4 == (if index > 0 then index as byte else s.idm[0] >> 4)
    ensures r[3..10] == s.idm[1..] && r[10..18] == s.pmm && r[18..] == response[18..]
  {
    var once := Overwrite(response[1 := 0x01], 2, s.idm);
    var ids := Overwrite(once, 10, s.pmm);
    assert ids[..10] == once[..10];
    assert ids[3..10] == s.idm[1..];
    if index > 0 then ids[2 := WithSystemIndex(ids[2], index)] else ids
  }

  /** `polling`: whether the card answers, and the response buffer. It
      answers exactly when the requested system is found (or is FF FF) and
      the request code is at most 2; the length byte is written before the
      request code is checked, so a refused request may still change it. */
  function Polling(s: CardState, command: seq<byte>, response: seq<byte>): (r: (bool, seq<byte>))
    requires s.Valid() && |command| == COMMAND_SIZE && |response| == RESPONSE_SIZE
    ensures |r.1| == RESPONSE_SIZE
    ensures r.0 <==> PollingSystem(s.systemCode, command[2], command[3]) != -1 && command[4] <= 2
    ensures !r.0 ==> r.1[1..] == response[1..]
  {
    var index := PollingSystem(s.systemCode, command[2], command[3]);
    if index == -1 then (false, response)
    else
      var requestCode := command[4];
      var sized := response[0 := if requestCode == 0 then 18 else 20];
      if requestCode > 2 then (false, sized)
      else
        (true, PollingRequest(s, index, requestCode, PollingHeader(s, index, sized)))
  }

  /** Bytes 18 and 19 of a polling answer, by request code: nothing (0), the
      system code found (1), or communication performance 00 01 (2). */
  function PollingRequest(s: CardState, index: int, requestCode: byte, header: seq<byte>): (r: seq<byte>)
    requires s.Valid() && 0 <= index < SYSTEM_MAX && |header| == RESPONSE_SIZE
    ensures |r| == RESPONSE_SIZE && r[..18] == header[..18] && r[20..] == header[20..]
    ensures requestCode == 1 ==> r[18..20] == s.systemCode[2 * index..2 * index + 2]
    ensures requestCode == 2 ==> r[18] == 0x00 && r[19] == 0x01
    ensures requestCode != 1 && requestCode != 2 ==> r == header
  {
    if requestCode == 1 then Overwrite(header, 18, s.systemCode[2 * index..2 * index + 2])
    else if requestCode == 2 then header[18 := 0x00][19 := 0x01]
    else header
  }

  // ---------------------------------------------------------------------------
  // Request Service

  /** `request_service`: key version 0000 for each of the `n` requested nodes. */
  function RequestService(command: seq<byte>, response: seq<byte>): (r: (bool, seq<byte>))
    requires |command| == COMMAND_SIZE && |response| == RESPONSE_SIZE
    ensures |r.1| == RESPONSE_SIZE
    ensures r.1[1..10] == response[1..10]
  {
    if command[0] < 11 then (false, response)
    else
      var n := command[10];
      if !(1 <= n <= 32) then (false, response)
      else (true, Overwrite(response[0 := 11 + 2 * n][10 := n], 11, Zeros(2 * n as int)))
  }

  // ---------------------------------------------------------------------------
  // Block lists

  /** `parse_block_list` over `n` elements of `list`: the number of bytes
      the elements take and the block numbers, or size 0 when an element has
      an unknown first byte or a 3-byte element a non-zero third byte. */
  function ParseBlockList(n: int, list: seq<byte>): (r: (int, seq<byte>))
    requires 0 <= n && 3 * n <= |list|
    ensures r.0 != 0 ==> 2 * n <= r.0 <= 3 * n && |r.1| == n
  {
    match ParseElements(n, list)
    case None => (0, [])
    case Some(parsed) => parsed
  }

  /** The elements of a block list, consumed from the front: each is 80 nn
      (2 bytes) or 00 nn 00 (3 bytes); `None` at the first malformed one. */
  function ParseElements(n: int, list: seq<byte>): (r: Option<(int, seq<byte>)>)
    requires 0 <= n && 3 * n <= |list|
    ensures r.Some? ==> 2 * n <= r.value.0 <= 3 * n && |r.value.1| == n
    decreases n
  {
    if n == 0 then Some((0, []))
    else
      var width := if list[0] == 0x80 then 2 else if list[0] == 0x00 && list[2] == 0x00 then 3 else 0;
      if width == 0 then None
      else match ParseElements(n - 1, list[width..])
        case None => None
        case Some(parsed) => Some((width + parsed.0, [list[1]] + parsed.1))
  }

  /** A block list element as a reader sends it: 80 nn (2-byte form) or
      00 nn 00 (3-byte form, access mode and service index 0). */
  datatype BlockListElement = TwoByte(num: byte) | ThreeByte(num: byte)

  function ElementBytes(e: BlockListElement): (b: seq<byte>)
    ensures 2 <= |b| <= 3
  {
    match e
    case TwoByte(num) => [0x80, num]
    case ThreeByte(num) => [0x00, num, 0x00]
  }

  /** The bytes of a block list. */
  function EncodeBlockList(es: seq<BlockListElement>): (b: seq<byte>)
    ensures 2 * |es| <= |b| <= 3 * |es|
  {
    if |es| == 0 then [] else ElementBytes(es[0]) + EncodeBlockList(es[1..])
  }

  /** The block numbers of a block list, in order. */
  function BlockNumbers(es: seq<BlockListElement>): (nums: seq<byte>)
    ensures |nums| == |es|
  {
    if |es| == 0 then [] else [es[0].num] + BlockNumbers(es[1..])
  }

  // ---------------------------------------------------------------------------
  // Read Without Encryption

  /** The service code table lists `target`, read little-endian from any of
      its entries (unused entries included). */
  predicate ServiceListed(serviceCode: seq<byte>, target: bv16)
    requires |serviceCode| == 2 * SERVICE_MAX
  {
    exists i | 0 <= i < SERVICE_MAX :: LittleEndian(serviceCode[2 * i], serviceCode[2 * i + 1]) == target
  }

  /** What reading one block yields: 16 bytes for the response, nothing
      (the block is valid but the response slot keeps its bytes), or an
      invalid block number. */
  datatype BlockRead = Data(bytes: seq<byte>) | Untouched | Invalid

  /** The block map of `read_without_encryption`. */
  function ReadBlock(s: CardState, num: byte): (b: BlockRead)
    requires s.Valid()
    ensures b.Data? ==> |b.bytes| == BLOCK_SIZE
    ensures b.Invalid? <==> !(num < 0x10 || 0xE0 <= num < 0xE2 || (0x81 <= num <= 0x92 && num != 0x89))
    ensures num as int < BLOCK_MAX ==> b == Data(BlockData(s.eeprom, num as int))
  {
    var k := num as int;
    if k < BLOCK_MAX then Data(s.eeprom.blocks[BLOCK_SIZE * k..BLOCK_SIZE * k + BLOCK_SIZE])
    else if k <= 0xF then Data(Zeros(BLOCK_SIZE))
    else if ERROR_BLOCK <= k < ERROR_BLOCK + LAST_ERROR_SIZE then
      var at := BLOCK_SIZE * (k - ERROR_BLOCK);
      Data(s.eeprom.lastError[at..at + BLOCK_SIZE])
    else if 0x81 <= k <= 0x92 && k != 0x89 then
      if k == 0x82 then Data(s.idm + [0x00, 0x78] + Zeros(6))
      else if k == 0x83 then Data(s.idm + s.pmm)
      else if k == 0x84 then Data(s.serviceCode + Zeros(BLOCK_SIZE - 2 * SERVICE_MAX))
      else if k == 0x85 then Data(s.systemCode + Zeros(BLOCK_SIZE - 2 * SYSTEM_MAX))
      else if k == 0x88 then Data([0xFF, 0xFF, 0xFF, 0x00, 0xFF] + Zeros(11))
      else if k == 0x81 || k == 0x86 || k == 0x87 || 0x90 <= k then Data(Zeros(BLOCK_SIZE))
      else Untouched
    else Invalid
  }

  /** What the card's own blocks read: the unused data blocks 12 to 15 read
      zeros; E0 and E1 read the two halves of the error log; ID (82) reads
      the IDm, 00 78 and zeros; D_ID (83) reads the IDm and the PMm; SER_C (84)
      and SYS_C (85) read their tables padded with zeros; MC (88) reads
      FF FF FF 00 FF and zeros; RC, MAC, MAC_A and the other valid blocks from
      81 on read zeros, and 8A to 8F leave their slot as it was. */
  lemma ReadBlockContents(s: CardState, num: byte)
    requires s.Valid()
    ensures var b := ReadBlock(s, num);
            (BLOCK_MAX <= num as int <= 0x0F ==> b == Data(Zeros(BLOCK_SIZE))) &&
            (0xE0 <= num <= 0xE1 ==>
               var at := BLOCK_SIZE * (num as int - ERROR_BLOCK);
               b == Data(s.eeprom.lastError[at..at + BLOCK_SIZE])) &&
            (0x8A <= num <= 0x8F ==> b == Untouched) &&
            (num == 0x82 ==> b.Data? && b.bytes[..8] == s.idm && b.bytes[8..10] == [0x00, 0x78] && b.bytes[10..] == Zeros(6)) &&
            (num == 0x83 ==> b.Data? && b.bytes[..8] == s.idm && b.bytes[8..] == s.pmm) &&
            (num == 0x84 ==> b.Data? && b.bytes[..8] == s.serviceCode && b.bytes[8..] == Zeros(8)) &&
            (num == 0x85 ==> b.Data? && b.bytes[..8] == s.systemCode && b.bytes[8..] == Zeros(8)) &&
            (num == 0x88 ==> b == Data([0xFF, 0xFF, 0xFF, 0x00, 0xFF] + Zeros(11))) &&
            (num == 0x81 || num == 0x86 || num == 0x87 || 0x90 <= num <= 0x92 ==> b == Data(Zeros(BLOCK_SIZE)))
  {
  }

  /** The block loop of `read_without_encryption` from block `i`: block `i`
      goes to `response[13 + 16 i, 29 + 16 i)`; the loop stops at the first
      invalid block, leaving the earlier blocks in place. */
  function LoadBlocks(s: CardState, nums: seq<byte>, response: seq<byte>, i: int): (r: (bool, seq<byte>))
    requires s.Valid() && |response| == RESPONSE_SIZE && 0 <= i <= |nums| <= BLOCK_MAX
    ensures |r.1| == RESPONSE_SIZE
    ensures r.1[1..10] == response[1..10]
    ensures r.0 <==> forall k | i <= k < |nums| :: !ReadBlock(s, nums[k]).Invalid?
    decreases |nums| - i
  {
    if i == |nums| then (true, response)
    else match ReadBlock(s, nums[i])
      case Invalid => (false, response)
      case Untouched => LoadBlocks(s, nums, response, i + 1)
      case Data(d) => LoadBlocks(s, nums, Overwrite(response, 13 + BLOCK_SIZE * i, d), i + 1)
  }

  /** `read_without_encryption`: false when the command is too short for a
      read; otherwise an answer, with status A1 (not one service), A6
      (unknown service or malformed block list), A2 (block count out of
      1..12), A8 (invalid block) or 00 00 and the blocks. */
  function ReadWithoutEncryption(s: CardState, command: seq<byte>, response: seq<byte>): (r: (bool, seq<byte>))
    requires s.Valid() && |command| == COMMAND_SIZE && |response| == RESPONSE_SIZE
    ensures |r.1| == RESPONSE_SIZE
    ensures r.1[1..10] == response[1..10]
  {
    if command[0] < 16 then (false, response)
    else if command[10] != 1 then (true, Status(response, 0xA1))
    else
      var target := LittleEndian(command[11], command[12]);
      var n := command[13] as int;
      if !(ServiceListed(s.serviceCode, target) || target == 0xFFFF) then (true, Status(response, 0xA6))
      else if !(1 <= n <= BLOCK_MAX) then (true, Status(response, 0xA2))
      else
        var parsed := ParseBlockList(n, command[14..]);
        if parsed.0 == 0 then (true, Status(response, 0xA6))
        else
          var loaded := LoadBlocks(s, parsed.1, response, 0);
          if !loaded.0 then (true, Status(loaded.1, 0xA8))
          else (true, BlocksRead(loaded.1, command[13]))
  }

  /** The answer of a read whose blocks are in their slots: length
      13 + 16 n, status 00 00 and the block count `n`. */
  function BlocksRead(loaded: seq<byte>, n: byte): (r: seq<byte>)
    requires |loaded| == RESPONSE_SIZE
    ensures |r| == RESPONSE_SIZE && r[0] == 13 + 16 * n && r[10] == 0x00 && r[11] == 0x00 && r[12] == n
    ensures r[1..10] == loaded[1..10] && r[13..] == loaded[13..]
  {
    loaded[0 := 13 + 16 * n][10 := 0x00][11 := 0x00][12 := n]
  }

  // ---------------------------------------------------------------------------
  // Write Without Encryption

  /** The 16 bytes of data block `b` in the EEPROM. */
  function BlockData(e: Eeprom, b: int): (d: seq<byte>)
    requires e.Valid() && 0 <= b < BLOCK_MAX
    ensures |d| == BLOCK_SIZE
  {
    e.blocks[BLOCK_SIZE * b..BLOCK_SIZE * b + BLOCK_SIZE]
  }

  /** The blocks a write of `n` blocks accepts: the data blocks, RC, STATE
      and MAC_A, and D_ID, SER_C and SYS_C when written alone. */
  predicate Writable(n: int, num: byte) {
    num as int < BLOCK_MAX || num == 0x80 || (n == 1 && 0x83 <= num <= 0x85) || num == 0x90 || num == 0x91
  }

  /** One step of the block loop of `write_without_encryption`: block `num`,
      the `i`-th of `n`, whose data starts at `command[14 + size + 16 i]`.
      Data blocks go to the EEPROM; D_ID, SER_C and SYS_C (single-block
      writes only) take their bytes from `command[16..]` into RAM and EEPROM;
      RC, STATE and MAC_A are accepted and ignored. */
  function StoreBlock(s: CardState, command: seq<byte>, n: int, size: int, num: byte, i: int): (r: (bool, CardState))
    requires s.Valid() && |command| == COMMAND_SIZE
    requires 0 <= i < n <= BLOCK_MAX && 0 <= size <= 3 * n
    ensures r.1.Valid() && (s.Mirrored() ==> r.1.Mirrored())
    ensures r.0 <==> Writable(n, num)
    ensures r.1.eeprom.lastError == s.eeprom.lastError
    ensures forall b | 0 <= b < BLOCK_MAX && b != num as int :: BlockData(r.1.eeprom, b) == BlockData(s.eeprom, b)
    ensures num as int < BLOCK_MAX ==>
              BlockData(r.1.eeprom, num as int) == command[14 + size + BLOCK_SIZE * i..14 + size + BLOCK_SIZE * i + BLOCK_SIZE]
  {
    var k := num as int;
    if k < BLOCK_MAX then
      var at := 14 + size + BLOCK_SIZE * i;
      (true, s.(eeprom := s.eeprom.(blocks := Overwrite(s.eeprom.blocks, BLOCK_SIZE * k, command[at..at + BLOCK_SIZE]))))
    else if k == 0x80 then (true, s)
    else if n == 1 && k == 0x83 then
      (true, s.(idm := command[16..24], pmm := command[24..32],
                eeprom := s.eeprom.(idm := command[16..24], pmm := command[24..32])))
    else if n == 1 && k == 0x84 then
      (true, s.(serviceCode := command[16..24], eeprom := s.eeprom.(serviceCode := command[16..24])))
    else if n == 1 && k == 0x85 then
      (true, s.(systemCode := command[16..24], eeprom := s.eeprom.(systemCode := command[16..24])))
    else if k == 0x90 || k == 0x91 then (true, s)
    else (false, s)
  }

  /** What one accepted block of a write changes: RC (80), STATE (90) and
      MAC_A (91) nothing; a single-block write of D_ID (83) sets the IDm from
      `command[16..24]` and the PMm from `command[24..32]`, of SER_C (84) or
      SYS_C (85) its table from `command[16..24]`, each in RAM and EEPROM
      alike, so that reading the block back yields what was sent. */
  lemma StoreBlockEffects(s: CardState, command: seq<byte>, n: int, size: int, num: byte, i: int)
    requires s.Valid() && |command| == COMMAND_SIZE
    requires 0 <= i < n <= BLOCK_MAX && 0 <= size <= 3 * n
    ensures var r := StoreBlock(s, command, n, size, num, i);
            (num == 0x80 || num == 0x90 || num == 0x91 ==> r == (true, s)) &&
            (n == 1 && num == 0x83 ==>
               r.1 == s.(idm := command[16..24], pmm := command[24..32],
                         eeprom := s.eeprom.(idm := command[16..24], pmm := command[24..32])) &&
               ReadBlock(r.1, 0x83) == Data(command[16..32])) &&
            (n == 1 && num == 0x84 ==>
               r.1 == s.(serviceCode := command[16..24], eeprom := s.eeprom.(serviceCode := command[16..24])) &&
               ReadBlock(r.1, 0x84) == Data(command[16..24] + Zeros(8))) &&
            (n == 1 && num == 0x85 ==>
               r.1 == s.(systemCode := command[16..24], eeprom := s.eeprom.(systemCode := command[16..24])) &&
               ReadBlock(r.1, 0x85) == Data(command[16..24] + Zeros(8)))
  {
    if n == 1 && num == 0x83 {
      assert command[16..24] + command[24..32] == command[16..32];
    }
  }

  /** The block loop of `write_without_encryption` from block `i`; it stops
      at the first invalid block, keeping the earlier writes. */
  function StoreBlocks(s: CardState, command: seq<byte>, size: int, nums: seq<byte>, i: int): (r: (bool, CardState))
    requires s.Valid() && |command| == COMMAND_SIZE
    requires 0 <= i <= |nums| <= BLOCK_MAX && 0 <= size <= 3 * |nums|
    ensures r.1.Valid() && (s.Mirrored() ==> r.1.Mirrored())
    ensures r.0 <==> forall k | i <= k < |nums| :: Writable(|nums|, nums[k])
    ensures r.1.eeprom.lastError == s.eeprom.lastError
    decreases |nums| - i
  {
    if i == |nums| then (true, s)
    else
      var step := StoreBlock(s, command, |nums|, size, nums[i], i);
      if !step.0 then (false, step.1)
      else StoreBlocks(step.1, command, size, nums, i + 1)
  }

  /** `write_without_encryption`: false for a command shorter than one
      block write or whose length does not match its block list; otherwise
      an answer with status A1, A2, A6, A8 or 00 00. The service code is
      not checked. */
  function WriteWithoutEncryption(s: CardState, command: seq<byte>, response: seq<byte>): (r: (bool, CardState, seq<byte>))
    requires s.Valid() && |command| == COMMAND_SIZE && |response| == RESPONSE_SIZE
    ensures r.1.Valid() && |r.2| == RESPONSE_SIZE
    ensures r.2[1..10] == response[1..10]
  {
    var len := command[0] as int;
    var n := command[13] as int;
    if len < 32 then (false, s, response)
    else if command[10] != 1 then (true, s, Status(response, 0xA1))
    else if !(1 <= n <= BLOCK_MAX) then (true, s, Status(response, 0xA2))
    else
      var parsed := ParseBlockList(n, command[14..]);
      if parsed.0 == 0 then (true, s, Status(response, 0xA6))
      else if len != 14 + parsed.0 + BLOCK_SIZE * n then (false, s, response)
      else
        var stored := StoreBlocks(s, command, parsed.0, parsed.1, 0);
        if !stored.0 then (true, stored.1, Status(response, 0xA8))
        else (true, stored.1, response[0 := 12][10 := 0x00][11 := 0x00])
  }

  // ---------------------------------------------------------------------------
  // Search Service Code and Request System Code

  /** `search_service_code`: the service code at `index`, or FF FF when the
      index is out of the table or the entry is unused. */
  function SearchServiceCode(s: CardState, index: int, response: seq<byte>): (r: seq<byte>)
    requires s.Valid() && |response| == RESPONSE_SIZE
    ensures |r| == RESPONSE_SIZE
    ensures r[1..10] == response[1..10]
  {
    var sized := response[0 := 12];
    if index < 0 || index >= SERVICE_MAX then sized[10 := 0xFF][11 := 0xFF]
    else if !InUse(s.serviceCode, index) then sized[10 := 0xFF][11 := 0xFF]
    else sized[10 := s.serviceCode[2 * index]][11 := s.serviceCode[2 * index + 1]]
  }

  /** The number of system code entries in use from entry `i` up to the
      first unused one. */
  function SystemCount(systemCode: seq<byte>, i: int): (n: int)
    requires |systemCode| == 2 * SYSTEM_MAX && 0 <= i <= SYSTEM_MAX
    ensures 0 <= n <= SYSTEM_MAX - i
    ensures forall k | i <= k < i + n :: InUse(systemCode, k)
    ensures i + n == SYSTEM_MAX || !InUse(systemCode, i + n)
    decreases SYSTEM_MAX - i
  {
    if i == SYSTEM_MAX || !InUse(systemCode, i) then 0 else 1 + SystemCount(systemCode, i + 1)
  }

  /** `request_system_code`: the system codes in use, in table order; no
      answer when there is none. */
  function RequestSystemCode(s: CardState, response: seq<byte>): (r: (bool, seq<byte>))
    requires s.Valid() && |response| == RESPONSE_SIZE
    ensures |r.1| == RESPONSE_SIZE
    ensures r.1[1..10] == response[1..10]
  {
    var n := SystemCount(s.systemCode, 0);
    (n != 0, Overwrite(response, 11, s.systemCode[..2 * n])[0 := 11 + 2 * n as byte][10 := n as byte])
  }

  // ---------------------------------------------------------------------------
  // Dispatch

  /** How many command bytes `save_error` logs: the length byte, at most the
      size of the error log. */
  function ErrorLength(command: seq<byte>): (len: int)
    requires |command| == COMMAND_SIZE
    ensures 0 <= len <= BLOCK_SIZE * LAST_ERROR_SIZE && len <= command[0] as int
    ensures len == command[0] as int || len == BLOCK_SIZE * LAST_ERROR_SIZE
  {
    if command[0] as int > BLOCK_SIZE * LAST_ERROR_SIZE then BLOCK_SIZE * LAST_ERROR_SIZE else command[0] as int
  }

  /** `save_error`: the first `min(command[0], 32)` bytes of the command go
      to the error log. */
  function SaveError(s: CardState, command: seq<byte>): (t: CardState)
    requires s.Valid() && |command| == COMMAND_SIZE
    ensures t.Valid() && t == s.(eeprom := t.eeprom) && t.eeprom == s.eeprom.(lastError := t.eeprom.lastError)
    ensures t.eeprom.lastError[..ErrorLength(command)] == command[..ErrorLength(command)]
    ensures t.eeprom.lastError[ErrorLength(command)..] == s.eeprom.lastError[ErrorLength(command)..]
  {
    var len := ErrorLength(command);
    s.(eeprom := s.eeprom.(lastError := Overwrite(s.eeprom.lastError, 0, command[..len])))
  }

  /** What `process` leaves: the card's memory, the response buffer, and
      whether it returns the response (true) or null (false). */
  datatype Outcome = Outcome(state: CardState, response: seq<byte>, answered: bool)

  /** `process`: Polling; Echo (F0 00); then, for commands addressed to this
      card's IDm and with an even code, the response header and the handler
      of the code. */
  function Process(s: CardState, command: seq<byte>, response: seq<byte>): (o: Outcome)
    requires s.Valid() && |command| == COMMAND_SIZE && |response| == RESPONSE_SIZE
    ensures o.state.Valid() && |o.response| == RESPONSE_SIZE
  {
    var len := command[0] as int;
    var code := command[1];
    if code == 0x00 then
      var p := Polling(s, command, response);
      Outcome(s, p.1, p.0)
    else if code == 0xF0 && command[2] == 0x00 then Outcome(s, Overwrite(response, 0, command[..len]), true)
    else if command[2] & 0x0F != s.idm[0] & 0x0F then Outcome(s, response, false)
    else if command[3..10] != s.idm[1..8] then Outcome(s, response, false)
    else if code % 2 != 0 then Outcome(s, response, false)
    else
      Dispatch(s, command, Overwrite(response[1 := code + 1], 2, command[2..10]))
  }

  /** The `switch` of `process`, over a response whose code and IDm are
      already set: the handler of the command code; the handlers leave bytes
      1 to 9 as they are. */
  function Dispatch(s: CardState, command: seq<byte>, response: seq<byte>): (o: Outcome)
    requires s.Valid() && |command| == COMMAND_SIZE && |response| == RESPONSE_SIZE
    ensures o.state.Valid() && |o.response| == RESPONSE_SIZE && o.response[1..10] == response[1..10]
  {
    var len := command[0] as int;
    var code := command[1];
    if code == 0x02 then
      var r := RequestService(command, response);
      Outcome(s, r.1, r.0)
    else if code == 0x04 then
      if len != 10 then Outcome(s, response, false) else Outcome(s, response[0 := 11][10 := 0x00], true)
    else if code == 0x06 then
      var r := ReadWithoutEncryption(s, command, response);
      if !r.0 then Outcome(s, r.1, false)
      else if r.1[10] != 0x00 then Outcome(SaveError(s, command), r.1, true)
      else Outcome(s, r.1, true)
    else if code == 0x08 then
      var w := WriteWithoutEncryption(s, command, response);
      Outcome(w.1, w.2, w.0)
    else if code == 0x0A then
      if len != 12 then Outcome(s, response, false)
      else Outcome(s, SearchServiceCode(s, command[10] as int + 256 * command[11] as int, response), true)
    else if code == 0x0C then
      if len != 10 then Outcome(s, response, false)
      else
        var r := RequestSystemCode(s, response);
        Outcome(s, r.1, r.0)
    else Outcome(s, response, false)
  }

  // ---------------------------------------------------------------------------
  // Properties

  /** The search of `polling` finds the first matching entry in use: every
      entry before it is in use and does not match; -1 means no entry in
      use before the first unused one matches. */
  lemma {:induction false} SystemIndexIsFirstMatch(systemCode: seq<byte>, c2: byte, c3: byte, i: int)
    requires |systemCode| == 2 * SYSTEM_MAX && 0 <= i <= SYSTEM_MAX
    ensures var r := SystemIndexFrom(systemCode, c2, c3, i);
            (r != -1 ==> (forall j | i <= j <= r :: InUse(systemCode, j)) && SystemMatches(systemCode, r, c2, c3)) &&
            forall k | i <= k < SYSTEM_MAX && (r == -1 || k < r) ::
              (forall j | i <= j <= k :: InUse(systemCode, j)) ==> !SystemMatches(systemCode, k, c2, c3)
    decreases SYSTEM_MAX - i
  {
    if i < SYSTEM_MAX && InUse(systemCode, i) && !SystemMatches(systemCode, i, c2, c3) {
      SystemIndexIsFirstMatch(systemCode, c2, c3, i + 1);
    }
  }

  /** The answer of `polling` carries the length 18 or 20, response code 01,
      the IDm with the system index in the top nibble of its first byte,
      and the PMm. */
  lemma PollingAnswerContents(s: CardState, command: seq<byte>, response: seq<byte>)
    requires s.Valid() && |command| == COMMAND_SIZE && |response| == RESPONSE_SIZE
    requires Polling(s, command, response).0
    ensures var r := Polling(s, command, response).1;
            var index := PollingSystem(s.systemCode, command[2], command[3]);
            var requestCode := command[4];
            r[0] == (if requestCode == 0 then 18 else 20) && r[1] == 0x01 &&
            r[2] & 0x0F == s.idm[0] & 0x0F &&
            r[2] >> 4 == (if index > 0 then index as byte else s.idm[0] >> 4) &&
            r[3..10] == s.idm[1..] && r[10..18] == s.pmm
  {
    var index := PollingSystem(s.systemCode, command[2], command[3]);
    var header := PollingHeader(s, index, response[0 := if command[4] == 0 then 18 else 20]);
    var r := PollingRequest(s, index, command[4], header);
    assert Polling(s, command, response).1 == r;
  }

  /** After the PMm, the answer of `polling` carries the system code found
      or the communication performance, as requested; the rest of the
      buffer keeps its bytes. */
  lemma PollingAnswerRequest(s: CardState, command: seq<byte>, response: seq<byte>)
    requires s.Valid() && |command| == COMMAND_SIZE && |response| == RESPONSE_SIZE
    requires Polling(s, command, response).0
    ensures var r := Polling(s, command, response).1;
            var index := PollingSystem(s.systemCode, command[2], command[3]);
            var requestCode := command[4];
            (requestCode == 1 ==> r[18..20] == s.systemCode[2 * index..2 * index + 2]) &&
            (requestCode == 2 ==> r[18] == 0x00 && r[19] == 0x01) &&
            r[20..] == response[20..] &&
            (requestCode == 0 ==> r[18..] == response[18..])
  {
    var index := PollingSystem(s.systemCode, command[2], command[3]);
    var header := PollingHeader(s, index, response[0 := if command[4] == 0 then 18 else 20]);
    var r := PollingRequest(s, index, command[4], header);
    assert Polling(s, command, response).1 == r;
  }

  /** `request_service` answers exactly for a long enough command asking
      for 1 to 32 nodes, with length 11 + 2n, the node count and key
      version 0000 for each node; the rest of the buffer keeps its bytes. */
  lemma RequestServiceAnswer(command: seq<byte>, response: seq<byte>)
    requires |command| == COMMAND_SIZE && |response| == RESPONSE_SIZE
    ensures var r := RequestService(command, response);
            var n := command[10] as int;
            (r.0 <==> command[0] >= 11 && 1 <= n <= 32) &&
            (!r.0 ==> r.1 == response) &&
            (r.0 ==>
               r.1[0] as int == 11 + 2 * n && r.1[10] == command[10] &&
               (forall k | 11 <= k < 11 + 2 * n :: r.1[k] == 0) &&
               r.1[1..10] == response[1..10] && r.1[11 + 2 * n..] == response[11 + 2 * n..])
  {
    var n := command[10];
    if command[0] >= 11 && 1 <= n <= 32 {
      var sized := response[0 := 11 + 2 * n][10 := n];
      var r := Overwrite(sized, 11, Zeros(2 * n as int));
      assert r[0] == sized[0] && r[10] == n;
      assert r[1..10] == response[1..10];
      assert r[11 + 2 * n as int..] == response[11 + 2 * n as int..];
    }
  }

  /** The 16 bytes of the response that block `k` of a read goes to. */
  function Slot(response: seq<byte>, k: int): (d: seq<byte>)
    requires |response| == RESPONSE_SIZE && 0 <= k < BLOCK_MAX
    ensures |d| == BLOCK_SIZE
  {
    response[13 + BLOCK_SIZE * k..13 + BLOCK_SIZE * k + BLOCK_SIZE]
  }

  /** What slot `k` holds once block `num` has been read into it. */
  function SlotAfter(s: CardState, num: byte, slot: seq<byte>): seq<byte>
    requires s.Valid()
  {
    match ReadBlock(s, num)
    case Data(d) => d
    case _ => slot
  }

  /** The block loop from block `i` writes only to the slots of blocks `i`
      and later. */
  lemma {:induction false} LoadBlocksFrame(s: CardState, nums: seq<byte>, response: seq<byte>, i: int)
    requires s.Valid() && |response| == RESPONSE_SIZE && 0 <= i <= |nums| <= BLOCK_MAX
    ensures var r := LoadBlocks(s, nums, response, i).1;
            forall p | 0 <= p < RESPONSE_SIZE && (p < 13 + BLOCK_SIZE * i || 13 + BLOCK_SIZE * |nums| <= p) ::
              r[p] == response[p]
    decreases |nums| - i
  {
    if i < |nums| {
      var next := LoadOne(s, nums, response, i);
      if !ReadBlock(s, nums[i]).Invalid? {
        LoadBlocksFrame(s, nums, next, i + 1);
      }
    }
  }

  /** One step of the block loop: an invalid block ends it; a valid one
      changes at most slot `i`, into `next`. */
  lemma LoadOne(s: CardState, nums: seq<byte>, response: seq<byte>, i: int) returns (next: seq<byte>)
    requires s.Valid() && |response| == RESPONSE_SIZE && 0 <= i < |nums| <= BLOCK_MAX
    ensures |next| == RESPONSE_SIZE
    ensures ReadBlock(s, nums[i]).Invalid? ==> LoadBlocks(s, nums, response, i) == (false, response)
    ensures !ReadBlock(s, nums[i]).Invalid? ==> LoadBlocks(s, nums, response, i) == LoadBlocks(s, nums, next, i + 1)
    ensures forall p | 0 <= p < RESPONSE_SIZE && !(13 + BLOCK_SIZE * i <= p < 13 + BLOCK_SIZE * (i + 1)) :: next[p] == response[p]
    ensures Slot(next, i) == SlotAfter(s, nums[i], Slot(response, i))
  {
    match ReadBlock(s, nums[i])
    case Invalid => next := response;
    case Untouched => next := response;
    case Data(d) => next := Overwrite(response, 13 + BLOCK_SIZE * i, d);
  }

  /** Where `read_without_encryption` puts block `k`: when every block from
      `i` on is valid, slot `k` holds what block `nums[k]` yields, or keeps
      its bytes when the block yields nothing. */
  lemma {:induction false} LoadedSlot(s: CardState, nums: seq<byte>, response: seq<byte>, i: int, k: int)
    requires s.Valid() && |response| == RESPONSE_SIZE && 0 <= i <= k < |nums| <= BLOCK_MAX
    requires LoadBlocks(s, nums, response, i).0
    ensures Slot(LoadBlocks(s, nums, response, i).1, k) == SlotAfter(s, nums[k], Slot(response, k))
    decreases |nums| - i
  {
    var next := LoadOne(s, nums, response, i);
    LoadedSlotFrom(s, nums, response, next, i, k);
  }

  /** `LoadedSlot` once block `i` has turned `response` into `next`. */
  lemma {:induction false} LoadedSlotFrom(s: CardState, nums: seq<byte>, response: seq<byte>, next: seq<byte>, i: int, k: int)
    requires s.Valid() && |response| == RESPONSE_SIZE && 0 <= i <= k < |nums| <= BLOCK_MAX
    requires |next| == RESPONSE_SIZE && LoadBlocks(s, nums, next, i + 1).0
    requires Slot(next, i) == SlotAfter(s, nums[i], Slot(response, i))
    requires forall p | 0 <= p < RESPONSE_SIZE && !(13 + BLOCK_SIZE * i <= p < 13 + BLOCK_SIZE * (i + 1)) :: next[p] == response[p]
    ensures Slot(LoadBlocks(s, nums, next, i + 1).1, k) == SlotAfter(s, nums[k], Slot(response, k))
    decreases |nums| - i, 0
  {
    if i == k {
      LoadBlocksFrame(s, nums, next, i + 1);
      SlotOutside(LoadBlocks(s, nums, next, i + 1).1, next, k, 13 + BLOCK_SIZE * (i + 1), 13 + BLOCK_SIZE * |nums|);
    } else {
      LoadedSlot(s, nums, next, i + 1, k);
      SlotOutside(next, response, k, 13 + BLOCK_SIZE * i, 13 + BLOCK_SIZE * (i + 1));
    }
  }

  /** A slot outside the range `[lo, hi)` where two buffers may differ is
      the same in both. */
  lemma SlotOutside(a: seq<byte>, b: seq<byte>, k: int, lo: int, hi: int)
    requires |a| == RESPONSE_SIZE && |b| == RESPONSE_SIZE && 0 <= k < BLOCK_MAX
    requires forall p | 0 <= p < RESPONSE_SIZE && !(lo <= p < hi) :: a[p] == b[p]
    requires 13 + BLOCK_SIZE * k + BLOCK_SIZE <= lo || hi <= 13 + BLOCK_SIZE * k
    ensures Slot(a, k) == Slot(b, k)
  {
    assert forall j | 0 <= j < BLOCK_SIZE :: Slot(a, k)[j] == a[13 + BLOCK_SIZE * k + j];
  }

  /** The elements of any encoded block list parse back to their block
      numbers, taking exactly their bytes, whatever follows them. */
  lemma {:induction false} ParseEncodedElements(es: seq<BlockListElement>, rest: seq<byte>)
    requires 3 * |es| <= |EncodeBlockList(es) + rest|
    ensures ParseElements(|es|, EncodeBlockList(es) + rest) == Some((|EncodeBlockList(es)|, BlockNumbers(es)))
  {
    if |es| > 0 {
      var tailCode := EncodeBlockList(es[1..]);
      EncodeFront(es, rest);
      ParseEncodedElements(es[1..], rest);
      ParseElementStep(es[0], |es| - 1, tailCode + rest, EncodeBlockList(es) + rest, |tailCode|, BlockNumbers(es[1..]));
    }
  }

  /** The first element of a nonempty block list leads its bytes and its
      block numbers. */
  lemma EncodeFront(es: seq<BlockListElement>, rest: seq<byte>)
    requires |es| > 0
    ensures EncodeBlockList(es) + rest == ElementBytes(es[0]) + (EncodeBlockList(es[1..]) + rest)
    ensures |EncodeBlockList(es)| == |ElementBytes(es[0])| + |EncodeBlockList(es[1..])|
    ensures BlockNumbers(es) == [es[0].num] + BlockNumbers(es[1..])
  {
    Associative(ElementBytes(es[0]), EncodeBlockList(es[1..]), rest);
  }

  lemma Associative(a: seq<byte>, b: seq<byte>, c: seq<byte>)
    ensures (a + b) + c == a + (b + c)
  {
  }

  /** One element in front of a block list is consumed by one step of the
      parse. */
  lemma ParseElementStep(e: BlockListElement, n: nat, tail: seq<byte>, list: seq<byte>, size: int, nums: seq<byte>)
    requires list == ElementBytes(e) + tail && 3 * (n + 1) <= |list|
    requires 3 * n <= |tail| && ParseElements(n, tail) == Some((size, nums))
    ensures ParseElements(n + 1, list) == Some((|ElementBytes(e)| + size, [e.num] + nums))
  {
    assert list[|ElementBytes(e)|..] == tail;
  }

  /** Round trip of block lists: `parse_block_list` recovers the block
      numbers of any list of one or more elements, and its size. */
  lemma ParseEncodedBlockList(es: seq<BlockListElement>, rest: seq<byte>)
    requires 1 <= |es| && 3 * |es| <= |EncodeBlockList(es) + rest|
    ensures ParseBlockList(|es|, EncodeBlockList(es) + rest) == (|EncodeBlockList(es)|, BlockNumbers(es))
  {
    ParseEncodedElements(es, rest);
  }

  /** A data block that no block from `i` on names keeps its bytes. */
  lemma {:induction false} StoreBlocksFrame(s: CardState, command: seq<byte>, size: int, nums: seq<byte>, i: int, b: byte)
    requires s.Valid() && |command| == COMMAND_SIZE
    requires 0 <= i <= |nums| <= BLOCK_MAX && 0 <= size <= 3 * |nums| && b as int < BLOCK_MAX
    requires forall k | i <= k < |nums| :: nums[k] != b
    ensures BlockData(StoreBlocks(s, command, size, nums, i).1.eeprom, b as int) == BlockData(s.eeprom, b as int)
    decreases |nums| - i
  {
    if i < |nums| {
      var step := StoreBlock(s, command, |nums|, size, nums[i], i);
      if step.0 {
        StoreBlocksFrame(step.1, command, size, nums, i + 1, b);
      }
    }
  }

  /** One turn of the block loop: block `i` is stored into `next`, and the
      loop goes on from there when block `i` is writable and stops otherwise. */
  lemma StoreBlocksStep(s: CardState, command: seq<byte>, size: int, nums: seq<byte>, i: int) returns (next: CardState)
    requires s.Valid() && |command| == COMMAND_SIZE
    requires 0 <= i < |nums| <= BLOCK_MAX && 0 <= size <= 3 * |nums|
    ensures next == StoreBlock(s, command, |nums|, size, nums[i], i).1 && next.Valid()
    ensures Writable(|nums|, nums[i]) ==> StoreBlocks(s, command, size, nums, i) == StoreBlocks(next, command, size, nums, i + 1)
    ensures !Writable(|nums|, nums[i]) ==> StoreBlocks(s, command, size, nums, i) == (false, next)
  {
    next := StoreBlock(s, command, |nums|, size, nums[i], i).1;
  }

  /** A data block that no block in `[i, f)` names keeps its bytes when the
      block loop stops at the unwritable block `f`. */
  lemma {:induction false} StoreBlocksFrameUntil(s: CardState, command: seq<byte>, size: int, nums: seq<byte>, i: int, f: int, b: byte)
    requires s.Valid() && |command| == COMMAND_SIZE
    requires 0 <= i <= f < |nums| <= BLOCK_MAX && 0 <= size <= 3 * |nums| && b as int < BLOCK_MAX
    requires (forall j | i <= j < f :: Writable(|nums|, nums[j])) && !Writable(|nums|, nums[f])
    requires forall j | i <= j < f :: nums[j] != b
    ensures BlockData(StoreBlocks(s, command, size, nums, i).1.eeprom, b as int) == BlockData(s.eeprom, b as int)
    decreases f - i
  {
    var next := StoreBlocksStep(s, command, size, nums, i);
    assert nums[i] != b by {
      if i == f {
        assert nums[i] as int >= BLOCK_MAX;
      }
    }
    assert BlockData(next.eeprom, b as int) == BlockData(s.eeprom, b as int);
    if i < f {
      StoreBlocksFrameUntil(next, command, size, nums, i + 1, f, b);
    }
  }

  /** The writes a refused write keeps: when the block loop stops at the
      first unwritable block `f`, a data block named at `k < f` and not named
      again before `f` holds the 16 bytes sent for element `k`. */
  lemma {:induction false} StoredBlockBeforeFailure(s: CardState, command: seq<byte>, size: int, nums: seq<byte>, i: int, f: int, k: int)
    requires s.Valid() && |command| == COMMAND_SIZE
    requires 0 <= i <= k < f < |nums| <= BLOCK_MAX && 0 <= size <= 3 * |nums|
    requires (forall j | i <= j < f :: Writable(|nums|, nums[j])) && !Writable(|nums|, nums[f])
    requires nums[k] as int < BLOCK_MAX && forall j | k < j < f :: nums[j] != nums[k]
    ensures BlockData(StoreBlocks(s, command, size, nums, i).1.eeprom, nums[k] as int) ==
              command[14 + size + BLOCK_SIZE * k..14 + size + BLOCK_SIZE * k + BLOCK_SIZE]
    decreases f - i
  {
    if i == k {
      StoredBlockThenKept(s, command, size, nums, f, k);
    } else {
      var next := StoreBlocksStep(s, command, size, nums, i);
      assert Writable(|nums|, nums[i]);
      StoredBlockBeforeFailure(next, command, size, nums, i + 1, f, k);
    }
  }

  /** The first step of `StoredBlockBeforeFailure`: block `k` is written, and
      the steps up to `f` leave it alone. */
  lemma StoredBlockThenKept(s: CardState, command: seq<byte>, size: int, nums: seq<byte>, f: int, k: int)
    requires s.Valid() && |command| == COMMAND_SIZE
    requires 0 <= k < f < |nums| <= BLOCK_MAX && 0 <= size <= 3 * |nums|
    requires (forall j | k < j < f :: Writable(|nums|, nums[j])) && !Writable(|nums|, nums[f])
    requires nums[k] as int < BLOCK_MAX && forall j | k < j < f :: nums[j] != nums[k]
    ensures BlockData(StoreBlocks(s, command, size, nums, k).1.eeprom, nums[k] as int) ==
              command[14 + size + BLOCK_SIZE * k..14 + size + BLOCK_SIZE * k + BLOCK_SIZE]
  {
    var next := StoreBlocksStep(s, command, size, nums, k);
    var at := 14 + size + BLOCK_SIZE * k;
    assert Writable(|nums|, nums[k]);
    assert BlockData(next.eeprom, nums[k] as int) == command[at..at + BLOCK_SIZE];
    StoreBlocksFrameUntil(next, command, size, nums, k + 1, f, nums[k]);
  }

  /** Where a write puts its data: when every block of the list is accepted,
      data block `nums[k]` holds the 16 bytes sent for element `k`, the last
      element naming it winning. */
  lemma {:induction false} StoredBlock(s: CardState, command: seq<byte>, size: int, nums: seq<byte>, i: int, k: int)
    requires s.Valid() && |command| == COMMAND_SIZE
    requires 0 <= i <= k < |nums| <= BLOCK_MAX && 0 <= size <= 3 * |nums|
    requires StoreBlocks(s, command, size, nums, i).0
    requires nums[k] as int < BLOCK_MAX && forall k2 | k < k2 < |nums| :: nums[k2] != nums[k]
    ensures BlockData(StoreBlocks(s, command, size, nums, i).1.eeprom, nums[k] as int) ==
              command[14 + size + BLOCK_SIZE * k..14 + size + BLOCK_SIZE * k + BLOCK_SIZE]
    decreases |nums| - i
  {
    var step := StoreBlock(s, command, |nums|, size, nums[i], i);
    assert step.0 && StoreBlocks(s, command, size, nums, i) == StoreBlocks(step.1, command, size, nums, i + 1);
    if i == k {
      StoreBlocksFrame(step.1, command, size, nums, i + 1, nums[k]);
    } else {
      StoredBlock(step.1, command, size, nums, i + 1, k);
    }
  }

  /** A read the card answers with its blocks: one service, listed in the
      service code table (or the wildcard FFFF), 1 to 12 blocks in a
      well-formed block list, every block valid. */
  predicate ReadAccepted(s: CardState, command: seq<byte>)
    requires s.Valid() && |command| == COMMAND_SIZE
  {
    var n := command[13] as int;
    var target := LittleEndian(command[11], command[12]);
    command[10] == 1 && (ServiceListed(s.serviceCode, target) || target == 0xFFFF) && 1 <= n <= BLOCK_MAX &&
    ParseBlockList(n, command[14..]).0 != 0 &&
    forall k | 0 <= k < n :: !ReadBlock(s, ParseBlockList(n, command[14..]).1[k]).Invalid?
  }

  /** `read_without_encryption` answers every command long enough for a read;
      an accepted read answers length 13 + 16 n, status 00 00, the block
      count and each block in its slot; any other read answers length 12,
      status FF and one of the error codes A1, A2, A6, A8. */
  lemma ReadAnswer(s: CardState, command: seq<byte>, response: seq<byte>)
    requires s.Valid() && |command| == COMMAND_SIZE && |response| == RESPONSE_SIZE
    ensures var r := ReadWithoutEncryption(s, command, response);
            (r.0 <==> command[0] >= 16) &&
            (r.0 && !ReadAccepted(s, command) ==>
               r.1[0] == 12 && r.1[10] == 0xFF && r.1[11] in {0xA1, 0xA2, 0xA6, 0xA8}) &&
            (r.0 && ReadAccepted(s, command) ==>
               var n := command[13] as int;
               var nums := ParseBlockList(n, command[14..]).1;
               r.1[0] as int == 13 + BLOCK_SIZE * n && r.1[10] == 0x00 && r.1[11] == 0x00 && r.1[12] == command[13] &&
               forall k | 0 <= k < n :: Slot(r.1, k) == SlotAfter(s, nums[k], Slot(response, k)))
  {
    if command[0] >= 16 && ReadAccepted(s, command) {
      AcceptedReadAnswer(s, command, response);
    }
  }

  /** The answer to an accepted read: length 13 + 16 n, status 00 00, the
      block count and each block in its slot. */
  lemma AcceptedReadAnswer(s: CardState, command: seq<byte>, response: seq<byte>)
    requires s.Valid() && |command| == COMMAND_SIZE && |response| == RESPONSE_SIZE
    requires command[0] >= 16 && ReadAccepted(s, command)
    ensures var r := ReadWithoutEncryption(s, command, response);
            var n := command[13] as int;
            var nums := ParseBlockList(n, command[14..]).1;
            r.1[0] as int == 13 + BLOCK_SIZE * n && r.1[10] == 0x00 && r.1[11] == 0x00 && r.1[12] == command[13] &&
            forall k | 0 <= k < n :: Slot(r.1, k) == SlotAfter(s, nums[k], Slot(response, k))
  {
    var n := command[13] as int;
    var nums := ParseBlockList(n, command[14..]).1;
    var loaded := LoadBlocks(s, nums, response, 0);
    var r := BlocksRead(loaded.1, command[13]);
    AcceptedReadLoads(s, command, response);
    assert r[0] as int == 13 + BLOCK_SIZE * n by {
      assert 1 <= command[13] <= 12;
    }
    forall k | 0 <= k < n
      ensures Slot(r, k) == SlotAfter(s, nums[k], Slot(response, k))
    {
      LoadedSlot(s, nums, response, 0, k);
      SlotOutside(r, loaded.1, k, 0, 13);
    }
  }

  /** The order in which `read_without_encryption` refuses a read of 16
      bytes or more: A1 (not one service), then A6 (a service neither listed
      nor FFFF, whatever the block count), then A2 (block count out of
      1..12), then A6 (malformed block list), then A8 (an invalid block). */
  lemma ReadStatus(s: CardState, command: seq<byte>, response: seq<byte>)
    requires s.Valid() && |command| == COMMAND_SIZE && |response| == RESPONSE_SIZE && command[0] >= 16
    ensures var r := ReadWithoutEncryption(s, command, response);
            var target := LittleEndian(command[11], command[12]);
            var known := ServiceListed(s.serviceCode, target) || target == 0xFFFF;
            var n := command[13] as int;
            r.0 &&
            (command[10] != 1 ==> r.1[11] == 0xA1) &&
            (command[10] == 1 && !known ==> r.1[11] == 0xA6) &&
            (command[10] == 1 && known && !(1 <= n <= BLOCK_MAX) ==> r.1[11] == 0xA2) &&
            (command[10] == 1 && known && 1 <= n <= BLOCK_MAX ==>
               var parsed := ParseBlockList(n, command[14..]);
               (parsed.0 == 0 ==> r.1[11] == 0xA6) &&
               (parsed.0 != 0 && (exists k | 0 <= k < n :: ReadBlock(s, parsed.1[k]).Invalid?) ==> r.1[11] == 0xA8))
  {
  }

  /** An accepted read answers the buffer its block loop leaves, with the
      length, the status and the block count filled in. */
  lemma AcceptedReadLoads(s: CardState, command: seq<byte>, response: seq<byte>)
    requires s.Valid() && |command| == COMMAND_SIZE && |response| == RESPONSE_SIZE
    requires command[0] >= 16 && ReadAccepted(s, command)
    ensures var nums := ParseBlockList(command[13] as int, command[14..]).1;
            var loaded := LoadBlocks(s, nums, response, 0);
            ReadWithoutEncryption(s, command, response) == (true, BlocksRead(loaded.1, command[13]))
  {
  }

  /** A write the card carries out in full: one service, 1 to 12 blocks in a
      well-formed block list, a length that matches the list and the data,
      and every block writable. */
  predicate WriteAccepted(command: seq<byte>)
    requires |command| == COMMAND_SIZE
  {
    var n := command[13] as int;
    command[10] == 1 && 1 <= n <= BLOCK_MAX && ParseBlockList(n, command[14..]).0 != 0 &&
    command[0] as int == 14 + ParseBlockList(n, command[14..]).0 + BLOCK_SIZE * n &&
    forall k | 0 <= k < n :: Writable(n, ParseBlockList(n, command[14..]).1[k])
  }

  /** `write_without_encryption` answers a command of 32 bytes or more unless
      its length disagrees with a well-formed block list; an accepted write
      answers status 00 00, any other answered write status FF and one of
      A1, A2, A6, A8, and a write refused before its block loop leaves the
      memory as it was. */
  lemma WriteAnswer(s: CardState, command: seq<byte>, response: seq<byte>)
    requires s.Valid() && |command| == COMMAND_SIZE && |response| == RESPONSE_SIZE
    ensures var r := WriteWithoutEncryption(s, command, response);
            var n := command[13] as int;
            (r.0 <==> command[0] >= 32 &&
                      (command[10] == 1 && 1 <= n <= BLOCK_MAX && ParseBlockList(n, command[14..]).0 != 0 ==>
                         command[0] as int == 14 + ParseBlockList(n, command[14..]).0 + BLOCK_SIZE * n)) &&
            (r.0 && WriteAccepted(command) ==> r.2[0] == 12 && r.2[10] == 0x00 && r.2[11] == 0x00) &&
            (r.0 && !WriteAccepted(command) ==> r.2[0] == 12 && r.2[10] == 0xFF && r.2[11] in {0xA1, 0xA2, 0xA6, 0xA8}) &&
            (!r.0 || r.2[11] != 0xA8 ==> r.1.eeprom.lastError == s.eeprom.lastError) &&
            (r.1 != s ==> r.0 && r.2[11] in {0x00, 0xA8})
  {
  }

  /** The order in which `write_without_encryption` refuses a write of 32
      bytes or more: A1 (not one service), then A2 (block count out of
      1..12), then A6 (malformed block list), then no answer when the length
      disagrees with the list, then A8 (a block it cannot write), answered
      with the memory the block loop leaves. */
  lemma WriteStatus(s: CardState, command: seq<byte>, response: seq<byte>)
    requires s.Valid() && |command| == COMMAND_SIZE && |response| == RESPONSE_SIZE && command[0] >= 32
    ensures var r := WriteWithoutEncryption(s, command, response);
            var n := command[13] as int;
            (command[10] != 1 ==> r.0 && r.2[11] == 0xA1) &&
            (command[10] == 1 && !(1 <= n <= BLOCK_MAX) ==> r.0 && r.2[11] == 0xA2) &&
            (command[10] == 1 && 1 <= n <= BLOCK_MAX ==>
               var parsed := ParseBlockList(n, command[14..]);
               (parsed.0 == 0 ==> r.0 && r.2[11] == 0xA6) &&
               (parsed.0 != 0 && command[0] as int != 14 + parsed.0 + BLOCK_SIZE * n ==> !r.0) &&
               (parsed.0 != 0 && command[0] as int == 14 + parsed.0 + BLOCK_SIZE * n &&
                (exists k | 0 <= k < n :: !Writable(n, parsed.1[k])) ==>
                  r.0 && r.2[11] == 0xA8 && r.1 == StoreBlocks(s, command, parsed.0, parsed.1, 0).1))
  {
  }

  /** Write then read: after an accepted write whose block list parses to
      `nums`, taking `size` bytes, a data block it names holds the 16 bytes
      sent for the last element naming it, and reading that block yields
      them. */
  lemma WrittenBlockReadsBack(s: CardState, command: seq<byte>, response: seq<byte>, size: int, nums: seq<byte>, k: int)
    requires s.Valid() && |command| == COMMAND_SIZE && |response| == RESPONSE_SIZE
    requires command[0] >= 32 && WriteAccepted(command)
    requires ParseBlockList(command[13] as int, command[14..]) == (size, nums)
    requires 0 <= k < |nums| && nums[k] as int < BLOCK_MAX && forall k2 | k < k2 < |nums| :: nums[k2] != nums[k]
    ensures var at := 14 + size + BLOCK_SIZE * k;
            ReadBlock(WriteWithoutEncryption(s, command, response).1, nums[k]) == Data(command[at..at + BLOCK_SIZE])
  {
    AcceptedWriteStores(s, command, response, size, nums);
    var t := StoreBlocks(s, command, size, nums, 0).1;
    StoredBlock(s, command, size, nums, 0, k);
    assert ReadBlock(t, nums[k]) == Data(BlockData(t.eeprom, nums[k] as int));
  }

  /** A write refused with A8 keeps what it wrote before the first block it
      cannot write: a data block named at `k`, before that block and not
      named again before it, reads back the 16 bytes sent for element `k`. */
  lemma RefusedWriteKeepsEarlierBlocks(s: CardState, command: seq<byte>, response: seq<byte>, size: int, nums: seq<byte>, f: int, k: int)
    requires s.Valid() && |command| == COMMAND_SIZE && |response| == RESPONSE_SIZE
    requires command[0] >= 32 && command[10] == 1 && 1 <= command[13] as int <= BLOCK_MAX
    requires ParseBlockList(command[13] as int, command[14..]) == (size, nums) && size != 0
    requires command[0] as int == 14 + size + BLOCK_SIZE * |nums|
    requires 0 <= k < f < |nums| && (forall j | 0 <= j < f :: Writable(|nums|, nums[j])) && !Writable(|nums|, nums[f])
    requires nums[k] as int < BLOCK_MAX && forall j | k < j < f :: nums[j] != nums[k]
    ensures var r := WriteWithoutEncryption(s, command, response);
            var at := 14 + size + BLOCK_SIZE * k;
            r.0 && r.2[11] == 0xA8 && ReadBlock(r.1, nums[k]) == Data(command[at..at + BLOCK_SIZE])
  {
    WriteStatus(s, command, response);
    StoredBlockBeforeFailure(s, command, size, nums, 0, f, k);
    var t := StoreBlocks(s, command, size, nums, 0).1;
    assert ReadBlock(t, nums[k]) == Data(BlockData(t.eeprom, nums[k] as int));
  }

  /** An accepted write leaves the memory its block loop leaves. */
  lemma AcceptedWriteStores(s: CardState, command: seq<byte>, response: seq<byte>, size: int, nums: seq<byte>)
    requires s.Valid() && |command| == COMMAND_SIZE && |response| == RESPONSE_SIZE
    requires command[0] >= 32 && WriteAccepted(command)
    requires ParseBlockList(command[13] as int, command[14..]) == (size, nums)
    ensures 0 <= size <= 3 * |nums| && |nums| <= BLOCK_MAX
    ensures StoreBlocks(s, command, size, nums, 0).0 &&
            WriteWithoutEncryption(s, command, response).1 == StoreBlocks(s, command, size, nums, 0).1
  {
  }

  /** `search_service_code` answers length 12 and either FF FF or the entry at
      `index`, the latter exactly when the entry exists and is in use; a code
      it reports is one a read finds in the table. */
  lemma SearchServiceCodeAnswer(s: CardState, index: int, response: seq<byte>)
    requires s.Valid() && |response| == RESPONSE_SIZE
    ensures var r := SearchServiceCode(s, index, response);
            var found := 0 <= index < SERVICE_MAX && InUse(s.serviceCode, index);
            r[0] == 12 && r[1..10] == response[1..10] && r[12..] == response[12..] &&
            (found ==> r[10] == s.serviceCode[2 * index] && r[11] == s.serviceCode[2 * index + 1] &&
                       ServiceListed(s.serviceCode, LittleEndian(r[10], r[11]))) &&
            (!found ==> r[10] == 0xFF && r[11] == 0xFF)
  {
    var r := SearchServiceCode(s, index, response);
    if 0 <= index < SERVICE_MAX && InUse(s.serviceCode, index) {
      assert LittleEndian(s.serviceCode[2 * index], s.serviceCode[2 * index + 1]) == LittleEndian(r[10], r[11]);
    }
  }

  /** The search of `polling` finds an entry when every entry up to it is in
      use and it matches. */
  lemma {:induction false} SystemFound(systemCode: seq<byte>, c2: byte, c3: byte, i: int, k: int)
    requires |systemCode| == 2 * SYSTEM_MAX && 0 <= i <= k < SYSTEM_MAX
    requires forall j | i <= j <= k :: InUse(systemCode, j)
    requires SystemMatches(systemCode, k, c2, c3)
    ensures SystemIndexFrom(systemCode, c2, c3, i) != -1
    decreases k - i
  {
    if i < k && !SystemMatches(systemCode, i, c2, c3) {
      SystemFound(systemCode, c2, c3, i + 1, k);
    }
  }

  /** `request_system_code` lists the system codes in use up to the first
      unused entry, in table order, with their count, and answers when there
      is at least one. */
  lemma RequestSystemCodeAnswer(s: CardState, response: seq<byte>)
    requires s.Valid() && |response| == RESPONSE_SIZE
    ensures var r := RequestSystemCode(s, response);
            var n := r.1[10] as int;
            (r.0 <==> InUse(s.systemCode, 0)) &&
            n == SystemCount(s.systemCode, 0) && r.1[0] as int == 11 + 2 * n &&
            (forall k | 0 <= k < n :: InUse(s.systemCode, k)) &&
            (n == SYSTEM_MAX || !InUse(s.systemCode, n)) &&
            r.1[11..11 + 2 * n] == s.systemCode[..2 * n] &&
            r.1[1..10] == response[1..10] && r.1[11 + 2 * n..] == response[11 + 2 * n..]
  {
    var n := SystemCount(s.systemCode, 0);
    var r := RequestSystemCode(s, response);
    var listed := Overwrite(response, 11, s.systemCode[..2 * n]);
    assert r.1 == listed[0 := 11 + 2 * n as byte][10 := n as byte];
    CountByte(n);
    assert r.1[11..11 + 2 * n] == listed[11..11 + 2 * n];
  }

  /** The count and length bytes of a system code list of at most four entries. */
  lemma CountByte(n: int)
    requires 0 <= n <= SYSTEM_MAX
    ensures (n as byte) as int == n && (11 + 2 * n as byte) as int == 11 + 2 * n
  {
    if n == 0 {} else if n == 1 {} else if n == 2 {} else if n == 3 {} else {}
  }

  /** The card answers polling for every system code `request_system_code`
      lists. */
  lemma ListedSystemsAnswerPolling(s: CardState, k: int)
    requires s.Valid() && 0 <= k < SystemCount(s.systemCode, 0)
    ensures PollingSystem(s.systemCode, s.systemCode[2 * k], s.systemCode[2 * k + 1]) != -1
  {
    var c2 := s.systemCode[2 * k];
    var c3 := s.systemCode[2 * k + 1];
    if !(c2 == 0xFF && c3 == 0xFF) {
      SystemFound(s.systemCode, c2, c3, 0, k);
    }
  }

  /** A command other than polling and echo that names another card's IDm
      gets no answer and changes nothing. */
  lemma ProcessIgnoresOtherCards(s: CardState, command: seq<byte>, response: seq<byte>)
    requires s.Valid() && |command| == COMMAND_SIZE && |response| == RESPONSE_SIZE
    requires command[1] != 0x00 && !(command[1] == 0xF0 && command[2] == 0x00)
    requires command[2] & 0x0F != s.idm[0] & 0x0F || command[3..10] != s.idm[1..]
    ensures Process(s, command, response) == Outcome(s, response, false)
  {
  }

  /** Echo (F0 00) answers the command itself, up to its length byte. */
  lemma ProcessEchoes(s: CardState, command: seq<byte>, response: seq<byte>)
    requires s.Valid() && |command| == COMMAND_SIZE && |response| == RESPONSE_SIZE
    requires command[1] == 0xF0 && command[2] == 0x00
    ensures var o := Process(s, command, response);
            o.answered && o.state == s && o.response[..command[0]] == command[..command[0]] &&
            o.response[command[0]..] == response[command[0]..]
  {
  }

  /** Only reads that fail and writes change the card's memory; the RAM
      copies stay equal to the EEPROM, and reads change only the error log. */
  lemma ProcessKeepsMirror(s: CardState, command: seq<byte>, response: seq<byte>)
    requires s.Valid() && |command| == COMMAND_SIZE && |response| == RESPONSE_SIZE
    ensures var o := Process(s, command, response);
            (s.Mirrored() ==> o.state.Mirrored()) &&
            (o.state != s ==> command[1] == 0x06 || command[1] == 0x08) &&
            (command[1] == 0x06 ==> o.state == s.(eeprom := s.eeprom.(lastError := o.state.eeprom.lastError)))
  {
  }

  /** Every answer to a command addressed to this card carries the response
      code (the command code plus one) and the IDm the command named. */
  lemma ProcessAnswerHeader(s: CardState, command: seq<byte>, response: seq<byte>)
    requires s.Valid() && |command| == COMMAND_SIZE && |response| == RESPONSE_SIZE
    requires command[1] != 0x00 && !(command[1] == 0xF0 && command[2] == 0x00)
    requires Process(s, command, response).answered
    ensures var r := Process(s, command, response).response;
            r[1] == command[1] + 1 && r[2..10] == command[2..10]
  {
    var code := command[1];
    var headed := Overwrite(response[1 := code + 1], 2, command[2..10]);
    var r := Dispatch(s, command, headed).response;
    assert Process(s, command, response).response == r;
    assert r[1] == headed[1] && r[2..10] == headed[2..10];
  }

  /** A command that reaches the dispatch of `process`: it names this card's
      IDm (the low nibble of its first byte and the other seven bytes). */
  predicate AddressedHere(s: CardState, command: seq<byte>)
    requires s.Valid() && |command| == COMMAND_SIZE
  {
    command[2] & 0x0F == s.idm[0] & 0x0F && command[3..10] == s.idm[1..8]
  }

  /** Request Response (04) and Request System Code (0C) are answered only
      when 10 bytes long, Search Service Code (0A) only when 12 bytes long;
      Request Response answers length 11 and mode 00, and none of the three
      changes the memory. */
  lemma ProcessLengthGates(s: CardState, command: seq<byte>, response: seq<byte>)
    requires s.Valid() && |command| == COMMAND_SIZE && |response| == RESPONSE_SIZE
    requires AddressedHere(s, command)
    ensures var o := Process(s, command, response);
            (command[1] == 0x04 ==>
               o.state == s && (o.answered <==> command[0] == 10) &&
               (o.answered ==> o.response[0] == 11 && o.response[10] == 0x00)) &&
            (command[1] == 0x0A ==> o.state == s && (o.answered <==> command[0] == 12)) &&
            (command[1] == 0x0C ==>
               o.state == s && (o.answered <==> command[0] == 10 && SystemCount(s.systemCode, 0) != 0))
  {
  }

  /** An addressed command whose code is not one of polling, echo, 02, 04,
      06, 08, 0A and 0C (an odd code, 10, or any other) gets no answer and
      leaves the memory as it was. */
  lemma ProcessUnknownCodes(s: CardState, command: seq<byte>, response: seq<byte>)
    requires s.Valid() && |command| == COMMAND_SIZE && |response| == RESPONSE_SIZE
    requires AddressedHere(s, command) && !(command[1] == 0xF0 && command[2] == 0x00)
    requires command[1] !in {0x00, 0x02, 0x04, 0x06, 0x08, 0x0A, 0x0C}
    ensures var o := Process(s, command, response);
            !o.answered && o.state == s
  {
  }

  /** A read answered with a non-zero status logs the command with
      `save_error`; a read answered with status 00 leaves the memory as it
      was. */
  lemma ProcessSavesReadErrors(s: CardState, command: seq<byte>, response: seq<byte>)
    requires s.Valid() && |command| == COMMAND_SIZE && |response| == RESPONSE_SIZE
    requires command[1] == 0x06
    ensures var o := Process(s, command, response);
            (o.answered && o.response[10] != 0x00 ==> o.state == SaveError(s, command)) &&
            (o.answered && o.response[10] == 0x00 ==> o.state == s)
  {
  }
}
