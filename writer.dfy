/** The host tool that rewrites a card's system blocks: it turns a command
    name and hex parameter bytes into a block number and 16 bytes of data,
    and sends them as a Write Without Encryption of that one block. */
module Writer {
  import opened Octets
  import opened Checksum
  import opened Application

  const COMMAND_WRITE: byte := 0x08
  /** The PMm written with an IDm given alone. */
  const DEFAULT_PMM: seq<byte> := [0x00, 0x01, 0xFF, 0xFF, 0xFF, 0xFF, 0xFF, 0xFF]
  const MAX_SYSTEM: int := 4
  const MAX_SERVICE: int := 4

  /** The system blocks of the card: D_ID (IDm and PMm), SER_C and SYS_C. */
  const D_ID: int := 0x83
  const SER_C: int := 0x84
  const SYS_C: int := 0x85

  // ---------------------------------------------------------------------------
  // Command names

  /** A non-empty string of decimal digits (`str.isdigit`). */
  predicate IsDigits(s: string) {
    |s| > 0 && forall i | 0 <= i < |s| :: '0' <= s[i] <= '9'
  }

  /** `int(s)` of a string of decimal digits. */
  function DecimalValue(s: string): (v: nat)
    requires forall i | 0 <= i < |s| :: '0' <= s[i] <= '9'
    ensures |s| == 1 ==> v == s[0] as int - '0' as int
  {
    if |s| == 0 then 0 else 10 * DecimalValue(s[..|s| - 1]) + (s[|s| - 1] as int - '0' as int)
  }

  predicate StartsWith(s: string, prefix: string) {
    |prefix| <= |s| && s[..|prefix|] == prefix
  }

  // ---------------------------------------------------------------------------
  // Building the block data

  /** The service codes of `param`, two bytes each, with the bytes of every
      pair swapped and the pairs kept in order. */
  function SwappedPairs(param: seq<byte>): (swapped: seq<byte>)
    requires |param| % 2 == 0
    ensures |swapped| == |param|
  {
    if |param| == 0 then [] else [param[1], param[0]] + SwappedPairs(param[2..])
  }

  /** The swapping loop of `build_data_for_command`. */
  method SwapPairs(param: seq<byte>) returns (swapped: seq<byte>)
    requires |param| % 2 == 0
    ensures swapped == SwappedPairs(param)
  {
    swapped := [];
    var i := 0;
    while i < |param|
      invariant 0 <= i <= |param| && i % 2 == 0
      invariant swapped + SwappedPairs(param[i..]) == SwappedPairs(param)
    {
      assert param[i..][2..] == param[i + 2..];
      swapped := swapped + [param[i + 1], param[i]];
      i := i + 2;
    }
    assert param[i..] == [];
  }

  /** `build_data_for_command`: the block and its 16 bytes of data for a
      command name (a block number 0 to 11, or a name starting with `idm`,
      `sys` or `ser`) and its parameter bytes, or `None` when the name is
      unknown or the parameters do not fit the block. */
  function BuildDataForCommand(command: string, param: seq<byte>): (r: Option<(int, seq<byte>)>)
    ensures r.Some? ==> |r.value.1| == BLOCK_SIZE && Supported(r.value.0)
  {
    if IsDigits(command) then
      var block := DecimalValue(command);
      if !(0 <= block < 12) then None
      else if |param| != 16 then None
      else Some((block, param))
    else if StartsWith(command, "idm") then
      if |param| != 8 && |param| != 16 then None
      else Some((D_ID, if |param| == 16 then param else param + DEFAULT_PMM))
    else if StartsWith(command, "sys") then
      if |param| % 2 != 0 then None
      else if !(0 < |param| <= 2 * MAX_SYSTEM) then None
      else Some((SYS_C, param + Zeros(16 - |param|)))
    else if StartsWith(command, "ser") then
      if |param| % 2 != 0 then None
      else if !(0 < |param| <= 2 * MAX_SERVICE) then None
      else Some((SER_C, SwappedPairs(param) + Zeros(16 - |param|)))
    else None
  }

  // ---------------------------------------------------------------------------
  // The write command

  /** Why `write_system_block` refuses its arguments (a `ValueError`). */
  datatype Refusal = BlockOutOfRange | NotSixteenBytes

  datatype Packed = Packed(payload: seq<byte>) | Refused(reason: Refusal)

  /** `write_system_block`: the parameters of the write command, one
      service (FFFF) and one 2-byte block list element naming the block,
      followed by the data. */
  function WriteSystemBlock(blockNum: int, data: seq<byte>): (r: Packed)
    ensures r.Packed? <==> 0 <= blockNum <= 0xFF && |data| == BLOCK_SIZE
    ensures r.Refused? && !(0 <= blockNum <= 0xFF) ==> r.reason == BlockOutOfRange
    ensures r.Packed? ==> |r.payload| == 22 && r.payload[6..] == data
  {
    if !(0 <= blockNum <= 0xFF) then Refused(BlockOutOfRange)
    else if |data| != 16 then Refused(NotSixteenBytes)
    else Packed([1, 0xFF, 0xFF, 1, 0x80, blockNum as byte] + data)
  }

  /** The frame the reader library sends for a command addressed to a card:
      its length (this byte included), the command code, the IDm, then the
      parameters. */
  function WriteFrame(idm: seq<byte>, payload: seq<byte>): (f: seq<byte>)
    requires |idm| == 8 && |payload| == 22
    ensures |f| == 32 && f[0] as int == |f| && f[1] == COMMAND_WRITE && f[2..10] == idm && f[10..] == payload
  {
    [32, COMMAND_WRITE] + idm + payload
  }

  /** An IDm that reaches the card in state `s`: the top nibble of its first
      byte, where a polling answer puts the system index, is not compared. */
  predicate Addresses(idm: seq<byte>, s: CardState)
    requires s.Valid()
  {
    |idm| == 8 && idm[0] & 0x0F == s.idm[0] & 0x0F && idm[1..] == s.idm[1..]
  }

  /** What a write of `data` to `block` is meant to leave in the card: the
      data block, or IDm and PMm, or one of the code tables, replaced in RAM
      and EEPROM alike; the code tables take the first 8 bytes. */
  function Written(s: CardState, block: int, data: seq<byte>): (t: CardState)
    requires s.Valid() && |data| == BLOCK_SIZE && Supported(block)
    ensures t.Valid() && (s.Mirrored() ==> t.Mirrored())
    ensures t.eeprom.lastError == s.eeprom.lastError
    ensures block < BLOCK_MAX ==>
              BlockData(t.eeprom, block) == data &&
              forall b | 0 <= b < BLOCK_MAX && b != block :: BlockData(t.eeprom, b) == BlockData(s.eeprom, b)
  {
    if block < BLOCK_MAX then
      s.(eeprom := s.eeprom.(blocks := Overwrite(s.eeprom.blocks, BLOCK_SIZE * block, data)))
    else if block == D_ID then
      s.(idm := data[..8], pmm := data[8..], eeprom := s.eeprom.(idm := data[..8], pmm := data[8..]))
    else if block == SER_C then
      s.(serviceCode := data[..8], eeprom := s.eeprom.(serviceCode := data[..8]))
    else
      s.(systemCode := data[..8], eeprom := s.eeprom.(systemCode := data[..8]))
  }

  // ---------------------------------------------------------------------------
  // Properties

  /** `int` ignores leading zeros: `00` names block 0 and `011` block 11. */
  lemma {:induction false} LeadingZero(s: string)
    requires forall i | 0 <= i < |s| :: '0' <= s[i] <= '9'
    ensures DecimalValue("0" + s) == DecimalValue(s)
  {
    if |s| > 0 {
      var t := "0" + s;
      assert t[..|t| - 1] == "0" + s[..|s| - 1];
      LeadingZero(s[..|s| - 1]);
    }
  }

  /** What each command name accepts and writes: a block number names a
      data block and takes 16 bytes as they are; `idm` takes the IDm and
      the PMm, the PMm defaulting to 00 01 FF FF FF FF FF FF; `sys` and
      `ser` take one to four codes, written in order after the swap of
      `ser`, the rest of the block zero. */
  lemma BuiltData(command: string, param: seq<byte>)
    ensures var r := BuildDataForCommand(command, param);
            (IsDigits(command) ==>
               (r.Some? <==> DecimalValue(command) < 12 && |param| == 16) &&
               (r.Some? ==> r.value == (DecimalValue(command), param))) &&
            (!IsDigits(command) && StartsWith(command, "idm") ==>
               (r.Some? <==> |param| == 8 || |param| == 16) &&
               (r.Some? ==> r.value.0 == D_ID && r.value.1[..8] == param[..8] &&
                            r.value.1[8..] == (if |param| == 16 then param[8..] else DEFAULT_PMM))) &&
            (!IsDigits(command) && !StartsWith(command, "idm") && (StartsWith(command, "sys") || StartsWith(command, "ser")) ==>
               (r.Some? <==> |param| % 2 == 0 && 0 < |param| <= 8) &&
               (r.Some? ==> r.value.1[|param|..] == Zeros(16 - |param|))) &&
            (!IsDigits(command) && !StartsWith(command, "idm") && StartsWith(command, "sys") && r.Some? ==>
               r.value.0 == SYS_C && r.value.1[..|param|] == param) &&
            (!IsDigits(command) && !StartsWith(command, "idm") && !StartsWith(command, "sys") && StartsWith(command, "ser") && r.Some? ==>
               r.value.0 == SER_C && r.value.1[..|param|] == SwappedPairs(param)) &&
            (!IsDigits(command) && !StartsWith(command, "idm") && !StartsWith(command, "sys") && !StartsWith(command, "ser") ==>
               r.None?)
  {
  }

  /** The card reads the parameters of the write as one block list element
      naming `blockNum`, under the wildcard service FFFF. */
  lemma PayloadParsedByCard(blockNum: int, data: seq<byte>, command: seq<byte>, idm: seq<byte>)
    requires Supported(blockNum) && |data| == BLOCK_SIZE && |idm| == 8 && |command| == COMMAND_SIZE
    requires command[..32] == WriteFrame(idm, WriteSystemBlock(blockNum, data).payload)
    ensures command[10] == 1 && LittleEndian(command[11], command[12]) == 0xFFFF && command[13] == 1
    ensures ParseBlockList(1, command[14..]) == (2, [blockNum as byte])
    ensures (blockNum as byte) as int == blockNum && command[16..32] == data
  {
    var frame := WriteFrame(idm, WriteSystemBlock(blockNum, data).payload);
    assert command[10..32] == frame[10..];
    assert command[16..32] == frame[16..];
    ByteRoundTrip(blockNum);
    var es := [TwoByte(blockNum as byte)];
    assert EncodeBlockList(es) == [0x80, blockNum as byte] by {
      assert EncodeBlockList(es[1..]) == [];
    }
    assert BlockNumbers(es) == [blockNum as byte] by {
      assert BlockNumbers(es[1..]) == [];
    }
    assert command[14..] == EncodeBlockList(es) + command[16..];
    ParseEncodedBlockList(es, command[16..]);
  }

  /** The block numbers the tool writes. */
  predicate Supported(block: int) {
    0 <= block < BLOCK_MAX || D_ID <= block <= SYS_C
  }

  /** The byte of a block number the tool writes stands for that number. */
  lemma ByteRoundTrip(n: int)
    requires Supported(n)
    ensures (n as byte) as int == n
  {
    if n < 6 {
      if n == 0 {} else if n == 1 {} else if n == 2 {} else if n == 3 {} else if n == 4 {} else {}
    } else if n < BLOCK_MAX {
      if n == 6 {} else if n == 7 {} else if n == 8 {} else if n == 9 {} else if n == 10 {} else {}
    } else if n == D_ID {} else if n == SER_C {} else {}
  }

  /** The card stores the data of the one block the write names as a write
      of that block is meant to. */
  lemma StoresWritten(s: CardState, command: seq<byte>, block: int, data: seq<byte>)
    requires s.Valid() && |command| == COMMAND_SIZE && |data| == BLOCK_SIZE
    requires Supported(block)
    requires command[16..32] == data
    ensures StoreBlocks(s, command, 2, [block as byte], 0) == (true, Written(s, block, data))
  {
    ByteRoundTrip(block);
    var step := StoreBlock(s, command, 1, 2, block as byte, 0);
    assert StoreBlocks(s, command, 2, [block as byte], 0) == StoreBlocks(step.1, command, 2, [block as byte], 1);
    assert command[16..24] == data[..8] && command[24..32] == data[8..];
  }

  /** A write sent by the tool to the IDm of a card is answered with status
      00 00 and leaves the card as `Written` describes. */
  lemma WriteIsApplied(s: CardState, idm: seq<byte>, block: int, data: seq<byte>, command: seq<byte>, response: seq<byte>)
    requires s.Valid() && |command| == COMMAND_SIZE && |response| == RESPONSE_SIZE
    requires Addresses(idm, s) && |data| == BLOCK_SIZE && Supported(block)
    requires command[..32] == WriteFrame(idm, WriteSystemBlock(block, data).payload)
    ensures var o := Process(s, command, response);
            o.answered && o.response[0] == 12 && o.response[10] == 0x00 && o.response[11] == 0x00 &&
            o.response[2..10] == idm && o.state == Written(s, block, data)
  {
    var frame := WriteFrame(idm, WriteSystemBlock(block, data).payload);
    assert command[0] == 32 && command[1] == COMMAND_WRITE && command[2..10] == idm by {
      assert command[..10] == frame[..10];
    }
    PayloadParsedByCard(block, data, command, idm);
    StoresWritten(s, command, block, data);
    var headed := Overwrite(response[1 := COMMAND_WRITE + 1], 2, command[2..10]);
    assert Process(s, command, response) == Dispatch(s, command, headed);
    var w := WriteWithoutEncryption(s, command, headed);
    assert w == (true, Written(s, block, data), headed[0 := 12][10 := 0x00][11 := 0x00]);
  }

  /** The IDm of a polling answer reaches the card, so the tool can address
      the write with the IDm it polled. */
  lemma PolledIdmAddresses(s: CardState, command: seq<byte>, response: seq<byte>)
    requires s.Valid() && |command| == COMMAND_SIZE && |response| == RESPONSE_SIZE
    requires Polling(s, command, response).0
    ensures Addresses(Polling(s, command, response).1[2..10], s)
  {
    PollingAnswerContents(s, command, response);
  }

  /** Service codes are typed most significant byte first; after the swap
      the card, which reads its table little-endian, lists every one of
      them. */
  lemma TypedServiceCodesListed(param: seq<byte>, k: int)
    requires |param| % 2 == 0 && 0 < |param| <= 2 * MAX_SERVICE && 0 <= k < |param| / 2
    ensures var data := SwappedPairs(param) + Zeros(16 - |param|);
            ServiceListed(data[..8], BigEndian(param[2 * k], param[2 * k + 1]))
  {
    var data := SwappedPairs(param) + Zeros(16 - |param|);
    var table := data[..8];
    SwappedPair(param, k);
    assert table[2 * k] == param[2 * k + 1] && table[2 * k + 1] == param[2 * k];
    assert LittleEndian(table[2 * k], table[2 * k + 1]) == BigEndian(param[2 * k], param[2 * k + 1]);
  }

  /** Pair `k` of `param` comes out swapped. */
  lemma {:induction false} SwappedPair(param: seq<byte>, k: int)
    requires |param| % 2 == 0 && 0 <= k < |param| / 2
    ensures SwappedPairs(param)[2 * k] == param[2 * k + 1] && SwappedPairs(param)[2 * k + 1] == param[2 * k]
  {
    if k > 0 {
      SwappedPair(param[2..], k - 1);
      assert SwappedPairs(param) == [param[1], param[0]] + SwappedPairs(param[2..]);
    }
  }

  /** Swapping the pairs twice gives the codes back. */
  lemma {:induction false} SwapTwice(param: seq<byte>)
    requires |param| % 2 == 0
    ensures SwappedPairs(SwappedPairs(param)) == param
  {
    if |param| > 0 {
      var once := SwappedPairs(param);
      assert once[2..] == SwappedPairs(param[2..]);
      SwapTwice(param[2..]);
      assert param == [param[0], param[1]] + param[2..];
    }
  }

  /** After `ser` codes are written, a read naming any of them finds it in
      the card's table. */
  lemma ServiceWriteListsCodes(s: CardState, idm: seq<byte>, param: seq<byte>, command: seq<byte>, response: seq<byte>, k: int)
    requires s.Valid() && |command| == COMMAND_SIZE && |response| == RESPONSE_SIZE && Addresses(idm, s)
    requires BuildDataForCommand("ser", param).Some?
    requires command[..32] == WriteFrame(idm, WriteSystemBlock(SER_C, BuildDataForCommand("ser", param).value.1).payload)
    requires 0 <= k < |param| / 2
    ensures ServiceListed(Process(s, command, response).state.serviceCode, BigEndian(param[2 * k], param[2 * k + 1]))
  {
    var data := BuildDataForCommand("ser", param).value.1;
    assert data == SwappedPairs(param) + Zeros(16 - |param|);
    WriteIsApplied(s, idm, SER_C, data, command, response);
    TypedServiceCodesListed(param, k);
  }

  /** After `sys` codes are written, the card answers polling for each of
      them up to the first 00 00 code (which ends the table). */
  lemma SystemWriteAnswersPolling(s: CardState, idm: seq<byte>, param: seq<byte>, command: seq<byte>, response: seq<byte>, k: int)
    requires s.Valid() && |command| == COMMAND_SIZE && |response| == RESPONSE_SIZE && Addresses(idm, s)
    requires BuildDataForCommand("sys", param).Some?
    requires command[..32] == WriteFrame(idm, WriteSystemBlock(SYS_C, BuildDataForCommand("sys", param).value.1).payload)
    requires 0 <= k < |param| / 2
    requires forall j | 0 <= j <= k :: !(param[2 * j] == 0 && param[2 * j + 1] == 0)
    ensures PollingSystem(Process(s, command, response).state.systemCode, param[2 * k], param[2 * k + 1]) != -1
  {
    var data := BuildDataForCommand("sys", param).value.1;
    assert data == param + Zeros(16 - |param|);
    WriteIsApplied(s, idm, SYS_C, data, command, response);
    var table := Process(s, command, response).state.systemCode;
    assert table == data[..8];
    assert table[..|param|] == param;
    forall j | 0 <= j <= k
      ensures InUse(table, j)
    {
      assert table[2 * j] == param[2 * j] && table[2 * j + 1] == param[2 * j + 1];
    }
    if !(param[2 * k] == 0xFF && param[2 * k + 1] == 0xFF) {
      SystemFound(table, param[2 * k], param[2 * k + 1], 0, k);
    }
  }

  /** After `idm` is written, the card's IDm and PMm are the ones given, the
      PMm defaulting to 00 01 FF FF FF FF FF FF, and they are what polling
      answers (with the system index in the top nibble of the first byte). */
  lemma IdmWriteAnswersPolling(s: CardState, idm: seq<byte>, param: seq<byte>, command: seq<byte>, response: seq<byte>,
                               poll: seq<byte>)
    requires s.Valid() && |command| == COMMAND_SIZE && |response| == RESPONSE_SIZE && Addresses(idm, s)
    requires BuildDataForCommand("idm", param).Some?
    requires command[..32] == WriteFrame(idm, WriteSystemBlock(D_ID, BuildDataForCommand("idm", param).value.1).payload)
    requires |poll| == COMMAND_SIZE
    ensures var t := Process(s, command, response).state;
            t.idm == param[..8] && t.pmm == (if |param| == 16 then param[8..] else DEFAULT_PMM) &&
            (Polling(t, poll, response).0 ==>
               var r := Polling(t, poll, response).1;
               r[2] & 0x0F == param[0] & 0x0F && r[3..10] == param[1..8] && r[10..18] == t.pmm)
  {
    var data := BuildDataForCommand("idm", param).value.1;
    BuiltData("idm", param);
    WriteIsApplied(s, idm, D_ID, data, command, response);
    var t := Process(s, command, response).state;
    if Polling(t, poll, response).0 {
      PollingAnswerContents(t, poll, response);
    }
  }
}
