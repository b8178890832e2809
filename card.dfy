/** The application layer as the firmware runs it: the RAM tables and the
    response buffer are arrays the handlers update in place, the EEPROM a
    value they replace. Every handler is proved to leave exactly what the
    corresponding function of `Application` describes. */
module Handlers {
  import opened Octets
  import opened Checksum
  import opened Application

  class Card {
    const idm: array<byte>
    const pmm: array<byte>
    const serviceCode: array<byte>
    const systemCode: array<byte>
    /** `response[0xFF]`, the buffer every handler writes its answer into. */
    const response: array<byte>
    var eeprom: Eeprom

    ghost predicate Valid()
      reads this
    {
      idm.Length == 8 && pmm.Length == 8 &&
      serviceCode.Length == 2 * SERVICE_MAX && systemCode.Length == 2 * SYSTEM_MAX &&
      response.Length == RESPONSE_SIZE && eeprom.Valid() &&
      idm != pmm && idm != serviceCode && idm != systemCode && idm != response &&
      pmm != serviceCode && pmm != systemCode && pmm != response &&
      serviceCode != systemCode && serviceCode != response && systemCode != response
    }

    /** The card's memory as a value. */
    ghost function State(): (s: CardState)
      requires Valid()
      reads this, idm, pmm, serviceCode, systemCode
      ensures s.Valid()
    {
      CardState(idm[..], pmm[..], serviceCode[..], systemCode[..], eeprom)
    }

    /** Power-up: static storage is zero and the EEPROM holds `e`. */
    constructor (e: Eeprom)
      requires e.Valid()
      ensures Valid() && eeprom == e
      ensures fresh(idm) && fresh(pmm) && fresh(serviceCode) && fresh(systemCode) && fresh(response)
      ensures response[..] == Zeros(RESPONSE_SIZE)
    {
      idm := new byte[8](_ => 0);
      pmm := new byte[8](_ => 0);
      serviceCode := new byte[2 * SERVICE_MAX](_ => 0);
      systemCode := new byte[2 * SYSTEM_MAX](_ => 0);
      response := new byte[RESPONSE_SIZE](_ => 0);
      eeprom := e;
    }

    /** `initialize`: load IDm, PMm and the code tables from the EEPROM. */
    method Initialize()
      requires Valid()
      modifies idm, pmm, serviceCode, systemCode
      ensures Valid() && State() == Application.Initialize(eeprom)
    {
      Memcpy(idm, 0, eeprom.idm);
      Memcpy(pmm, 0, eeprom.pmm);
      Memcpy(serviceCode, 0, eeprom.serviceCode);
      Memcpy(systemCode, 0, eeprom.systemCode);
    }

    /** The search loop of `polling`: the first system code entry in use that
        matches `c2 c3`, or -1. */
    method FindSystem(c2: byte, c3: byte) returns (index: int)
      requires Valid()
      ensures index == SystemIndexFrom(systemCode[..], c2, c3, 0)
    {
      var table := systemCode[..];
      index := -1;
      var i := 0;
      while i < SYSTEM_MAX
        invariant 0 <= i <= SYSTEM_MAX
        invariant SystemIndexFrom(table, c2, c3, 0) == SystemIndexFrom(table, c2, c3, i)
      {
        var sc1 := systemCode[2 * i];
        var sc2 := systemCode[2 * i + 1];
        if sc1 == 0 && sc2 == 0 {
          return;
        }
        if (c2 == sc1 || c2 == 0xFF) && (c3 == sc2 || c3 == 0xFF) {
          index := i;
          return;
        }
        i := i + 1;
      }
    }

    /** `polling`. */
    method Polling(command: seq<byte>) returns (ok: bool)
      requires Valid() && |command| == COMMAND_SIZE
      modifies response
      ensures (ok, response[..]) == Application.Polling(State(), command, old(response[..]))
    {
      var index := FindSystem(command[2], command[3]);
      if command[2] == 0xFF && command[3] == 0xFF {
        index := 0;
      }
      if index == -1 {
        return false;
      }
      var requestCode := command[4];
      response[0] := if requestCode == 0x00 then 18 else 20;
      if requestCode > 0x02 {
        return false;
      }
      PutHeader(index);
      PutRequest(index, requestCode);
      ok := true;
    }

    /** The part of `polling` that writes response code 01, the IDm with
        the system index in its top nibble, and the PMm. */
    method PutHeader(index: int)
      requires Valid() && 0 <= index < SYSTEM_MAX
      modifies response
      ensures response[..] == PollingHeader(State(), index, old(response[..]))
    {
      response[1] := 0x01;
      Memcpy(response, 2, idm[..]);
      Memcpy(response, 10, pmm[..]);
      if index > 0 {
        response[2] := ((index as byte) << 4) | (response[2] & 0x0F);
      }
    }

    /** The part of `polling` that answers the request code. */
    method PutRequest(index: int, requestCode: byte)
      requires Valid() && 0 <= index < SYSTEM_MAX
      modifies response
      ensures response[..] == PollingRequest(State(), index, requestCode, old(response[..]))
    {
      if requestCode == 0x01 {
        Memcpy(response, 18, systemCode[2 * index..2 * index + 2]);
      }
      if requestCode == 0x02 {
        response[18] := 0x00;
        response[19] := 0x01;
      }
    }

    /** `request_service`: key version 0000 for each requested node. */
    method RequestService(command: seq<byte>) returns (ok: bool)
      requires Valid() && |command| == COMMAND_SIZE
      modifies response
      ensures (ok, response[..]) == Application.RequestService(command, old(response[..]))
    {
      if command[0] < 11 {
        return false;
      }
      var n := command[10];
      if !(1 <= n <= 32) {
        return false;
      }
      response[0] := 11 + 2 * n;
      response[10] := n;
      ghost var sized := response[..];
      for i := 0 to n as int
        invariant forall k | 0 <= k < RESPONSE_SIZE :: response[k] == if 11 <= k < 11 + 2 * i then 0 else sized[k]
      {
        response[11 + 2 * i] := 0x00;
        response[12 + 2 * i] := 0x00;
      }
      assert response[..] == Overwrite(sized, 11, Zeros(2 * n as int));
      ok := true;
    }

    /** The error answer: length 12 and status flags FF `code`. */
    method PutStatus(code: byte)
      requires Valid()
      modifies response
      ensures response[..] == Status(old(response[..]), code)
    {
      response[0] := 12;
      response[10] := 0xFF;
      response[11] := code;
    }

    /** The service search of `read_without_encryption`. */
    method FindService(target: bv16) returns (found: bool)
      requires Valid()
      ensures found == ServiceListed(serviceCode[..], target)
    {
      for i := 0 to SERVICE_MAX
        invariant forall k | 0 <= k < i :: LittleEndian(serviceCode[2 * k], serviceCode[2 * k + 1]) != target
      {
        var sc := LittleEndian(serviceCode[2 * i], serviceCode[2 * i + 1]);
        if target == sc {
          assert serviceCode[..][2 * i] == serviceCode[2 * i] && serviceCode[..][2 * i + 1] == serviceCode[2 * i + 1];
          return true;
        }
      }
      found := false;
    }

    /** The block map of the block loop of `read_without_encryption`: what
        block `num` puts into its slot. */
    method LookUpBlock(num: byte) returns (b: BlockRead)
      requires Valid()
      ensures b == ReadBlock(State(), num)
    {
      var k := num as int;
      if k < BLOCK_MAX {
        b := Data(eeprom.blocks[BLOCK_SIZE * k..BLOCK_SIZE * k + BLOCK_SIZE]);
      } else if k <= 0xF {
        b := Data(Zeros(BLOCK_SIZE));
      } else if ERROR_BLOCK <= k < ERROR_BLOCK + LAST_ERROR_SIZE {
        var from := BLOCK_SIZE * (k - ERROR_BLOCK);
        b := Data(eeprom.lastError[from..from + BLOCK_SIZE]);
      } else if 0x81 <= k <= 0x92 && k != 0x89 {
        if k == 0x82 {
          b := Data(idm[..] + [0x00, 0x78] + Zeros(6));
        } else if k == 0x83 {
          b := Data(idm[..] + pmm[..]);
        } else if k == 0x84 {
          b := Data(serviceCode[..] + Zeros(BLOCK_SIZE - 2 * SERVICE_MAX));
        } else if k == 0x85 {
          b := Data(systemCode[..] + Zeros(BLOCK_SIZE - 2 * SYSTEM_MAX));
        } else if k == 0x88 {
          b := Data([0xFF, 0xFF, 0xFF, 0x00, 0xFF] + Zeros(11));
        } else if k == 0x81 || k == 0x86 || k == 0x87 || 0x90 <= k {
          b := Data(Zeros(BLOCK_SIZE));
        } else {
          b := Untouched;
        }
      } else {
        b := Invalid;
      }
    }

    /** One block of the block loop of `read_without_encryption`: the block
        `num` goes to slot `i` of the response. */
    method ReadBlockInto(num: byte, i: int) returns (valid: bool)
      requires Valid() && 0 <= i < BLOCK_MAX
      modifies response
      ensures valid <==> !ReadBlock(State(), num).Invalid?
      ensures response[..] == Slotted(old(response[..]), ReadBlock(State(), num), i)
    {
      var b := LookUpBlock(num);
      valid := !b.Invalid?;
      if b.Data? {
        Memcpy(response, 13 + BLOCK_SIZE * i, b.bytes);
      }
    }

    /** One block of the block loop of `write_without_encryption`: block
        `num`, the `i`-th of `n`, with its data at `command[14 + size + 16 i]`. */
    method StoreBlock(command: seq<byte>, n: int, size: int, num: byte, i: int) returns (valid: bool)
      requires Valid() && |command| == COMMAND_SIZE
      requires 0 <= i < n <= BLOCK_MAX && 0 <= size <= 3 * n
      modifies this, idm, pmm, serviceCode, systemCode
      ensures Valid() && (valid, State()) == Application.StoreBlock(old(State()), command, n, size, num, i)
    {
      var k := num as int;
      valid := false;
      if k < BLOCK_MAX {
        valid := true;
        var at := 14 + size + BLOCK_SIZE * i;
        eeprom := eeprom.(blocks := Overwrite(eeprom.blocks, BLOCK_SIZE * k, command[at..at + BLOCK_SIZE]));
      }
      if k == 0x80 {
        valid := true;
      }
      if n == 1 && k == 0x83 {
        valid := true;
        Memcpy(idm, 0, command[16..24]);
        assert idm[..] == command[16..24];
        eeprom := eeprom.(idm := idm[..]);
        Memcpy(pmm, 0, command[24..32]);
        assert pmm[..] == command[24..32];
        eeprom := eeprom.(pmm := pmm[..]);
      }
      if n == 1 && k == 0x84 {
        valid := true;
        Memcpy(serviceCode, 0, command[16..24]);
        assert serviceCode[..] == command[16..24];
        eeprom := eeprom.(serviceCode := serviceCode[..]);
      }
      if n == 1 && k == 0x85 {
        valid := true;
        Memcpy(systemCode, 0, command[16..24]);
        assert systemCode[..] == command[16..24];
        eeprom := eeprom.(systemCode := systemCode[..]);
      }
      if k == 0x90 {
        valid := true;
      }
      if k == 0x91 {
        valid := true;
      }
    }

    /** The block loop of `write_without_encryption` over `nums`. */
    method StoreBlocks(command: seq<byte>, size: int, nums: seq<byte>) returns (ok: bool)
      requires Valid() && |command| == COMMAND_SIZE
      requires |nums| <= BLOCK_MAX && 0 <= size <= 3 * |nums|
      modifies this, idm, pmm, serviceCode, systemCode
      ensures Valid() && (ok, State()) == Application.StoreBlocks(old(State()), command, size, nums, 0)
    {
      for i := 0 to |nums|
        invariant Valid()
        invariant Application.StoreBlocks(old(State()), command, size, nums, 0) ==
                  Application.StoreBlocks(State(), command, size, nums, i)
      {
        var valid := StoreBlock(command, |nums|, size, nums[i], i);
        if !valid {
          return false;
        }
      }
      ok := true;
    }

    /** `write_without_encryption`. */
    method WriteWithoutEncryption(command: seq<byte>) returns (ok: bool)
      requires Valid() && |command| == COMMAND_SIZE
      modifies this, idm, pmm, serviceCode, systemCode, response
      ensures Valid()
      ensures (ok, State(), response[..]) == Application.WriteWithoutEncryption(old(State()), command, old(response[..]))
    {
      var len := command[0] as int;
      var n := command[13] as int;
      if len < 32 {
        return false;
      }
      ok := true;
      if command[10] != 1 {
        PutStatus(0xA1);
        return;
      }
      if !(1 <= n <= BLOCK_MAX) {
        PutStatus(0xA2);
        return;
      }
      var blockNums := new byte[BLOCK_MAX];
      var size := ParseBlockListInto(n, command[14..], blockNums);
      if size == 0 {
        PutStatus(0xA6);
        return;
      }
      if len != 14 + size + BLOCK_SIZE * n {
        return false;
      }
      ghost var parsed := Application.ParseBlockList(n, command[14..]);
      assert parsed == (size, blockNums[..n]);
      var stored := StoreBlocks(command, size, blockNums[..n]);
      if !stored {
        PutStatus(0xA8);
        return;
      }
      response[0] := 12;
      response[10] := 0x00;
      response[11] := 0x00;
    }

    /** `search_service_code`. */
    method SearchServiceCode(index: int)
      requires Valid()
      modifies response
      ensures response[..] == Application.SearchServiceCode(State(), index, old(response[..]))
    {
      response[0] := 12;
      if index < 0 || index >= SERVICE_MAX {
        response[10] := 0xFF;
        response[11] := 0xFF;
        return;
      }
      var sc1 := serviceCode[2 * index];
      var sc2 := serviceCode[2 * index + 1];
      if sc1 == 0x00 && sc2 == 0x00 {
        response[10] := 0xFF;
        response[11] := 0xFF;
        return;
      }
      response[10] := sc1;
      response[11] := sc2;
    }

    /** `request_system_code`. */
    method RequestSystemCode() returns (ok: bool)
      requires Valid()
      modifies response
      ensures (ok, response[..]) == Application.RequestSystemCode(State(), old(response[..]))
    {
      var n := CopySystemCodes();
      SystemCodesAnswer(State(), old(response[..]), n, response[..]);
      PutLengthAndCount(11 + 2 * n as byte, n as byte);
      ok := n != 0;
    }

    /** The loop of `request_system_code`: the entries in use up to the
        first unused one go to `response[11..]`; `n` counts them. */
    method CopySystemCodes() returns (n: int)
      requires Valid()
      modifies response
      ensures 0 <= n <= SYSTEM_MAX && n == SystemCount(systemCode[..], 0)
      ensures response[..] == Overwrite(old(response[..]), 11, systemCode[..2 * n])
    {
      ghost var table := systemCode[..];
      ghost var initial := response[..];
      n := 0;
      var i := 0;
      while i < SYSTEM_MAX
        invariant 0 <= i <= SYSTEM_MAX && n == i
        invariant systemCode[..] == table
        invariant forall k | 0 <= k < i :: InUse(table, k)
        invariant response[..] == Overwrite(initial, 11, table[..2 * i])
      {
        var sc1 := systemCode[2 * i];
        var sc2 := systemCode[2 * i + 1];
        if sc1 == 0x00 && sc2 == 0x00 {
          break;
        }
        CopyStep(initial, table, i);
        PutPair(11 + 2 * i, sc1, sc2);
        n := n + 1;
        i := i + 1;
      }
      CountIs(table, n);
    }

    /** `response[0] = length; response[10] = count`. */
    method PutLengthAndCount(length: byte, count: byte)
      requires Valid()
      modifies response
      ensures response[..] == old(response[..])[0 := length][10 := count]
    {
      response[0] := length;
      response[10] := count;
    }

    /** `response[at] = hi; response[at + 1] = lo`. */
    method PutPair(at: int, hi: byte, lo: byte)
      requires Valid() && 0 <= at < RESPONSE_SIZE - 1
      modifies response
      ensures response[..] == old(response[..])[at := hi][at + 1 := lo]
    {
      response[at] := hi;
      response[at + 1] := lo;
    }

    /** `save_error`: the command, up to the size of the error log, goes to
        the error log in the EEPROM. */
    method SaveError(command: seq<byte>)
      requires Valid() && |command| == COMMAND_SIZE
      modifies this
      ensures Valid() && State() == Application.SaveError(old(State()), command)
    {
      var len := command[0] as int;
      if len > BLOCK_SIZE * LAST_ERROR_SIZE {
        len := BLOCK_SIZE * LAST_ERROR_SIZE;
      }
      eeprom := eeprom.(lastError := Overwrite(eeprom.lastError, 0, command[..len]));
    }

    /** `process`: the answer is in `response` when `answered`; otherwise
        `process` returns null. */
    method Process(command: seq<byte>) returns (answered: bool)
      requires Valid() && |command| == COMMAND_SIZE
      modifies this, idm, pmm, serviceCode, systemCode, response
      ensures Valid()
      ensures Outcome(State(), response[..], answered) == Application.Process(old(State()), command, old(response[..]))
    {
      ghost var s := State();
      ghost var initial := response[..];
      var len := command[0] as int;
      var code := command[1];
      if code == 0x00 {
        ProcessPolling(s, command, initial);
        answered := Polling(command);
        assert State() == s;
        return;
      }
      if command[1] == 0xF0 && command[2] == 0x00 {
        ProcessEcho(s, command, initial);
        Memcpy(response, 0, command[..len]);
        assert State() == s;
        return true;
      }
      if command[2] & 0x0F != idm[0] & 0x0F {
        ProcessRejects(s, command, initial);
        return false;
      }
      if command[3..10] != idm[1..8] {
        ProcessRejects(s, command, initial);
        return false;
      }
      if code % 2 != 0 {
        ProcessRejects(s, command, initial);
        return false;
      }
      ProcessAddressed(s, command, initial);
      PutAnswerHeader(code + 1, command[2..10]);
      assert State() == s;
      answered := Dispatch(command);
    }

    /** The response code and the IDm of an answer. */
    method PutAnswerHeader(code: byte, id: seq<byte>)
      requires Valid() && |id| == 8
      modifies response
      ensures response[..] == Overwrite(old(response[..])[1 := code], 2, id)
    {
      response[1] := code;
      Memcpy(response, 2, id);
    }

    /** The `switch` of `process` on the command code. */
    method Dispatch(command: seq<byte>) returns (answered: bool)
      requires Valid() && |command| == COMMAND_SIZE
      modifies this, idm, pmm, serviceCode, systemCode, response
      ensures Valid()
      ensures Outcome(State(), response[..], answered) == Application.Dispatch(old(State()), command, old(response[..]))
    {
      var len := command[0] as int;
      var code := command[1];
      if code == 0x02 {
        answered := RequestService(command);
      } else if code == 0x04 {
        if len != 10 {
          return false;
        }
        PutLengthAndCount(11, 0x00);
        answered := true;
      } else if code == 0x06 {
        answered := ReadWithoutEncryption(command);
        if !answered {
          return;
        }
        if response[10] != 0x00 {
          SaveError(command);
        }
      } else if code == 0x08 {
        answered := WriteWithoutEncryption(command);
      } else if code == 0x0A {
        if len != 12 {
          return false;
        }
        var index := command[10] as int + 256 * command[11] as int;
        SearchServiceCode(index);
        answered := true;
      } else if code == 0x0C {
        if len != 10 {
          return false;
        }
        answered := RequestSystemCode();
      } else {
        answered := false;
      }
    }

    /** The success answer of `read_without_encryption`. */
    method PutBlocksRead(n: byte)
      requires Valid()
      modifies response
      ensures response[..] == BlocksRead(old(response[..]), n)
    {
      response[0] := 13 + 16 * n;
      response[10] := 0x00;
      response[11] := 0x00;
      response[12] := n;
    }

    /** The block loop of `read_without_encryption` over `nums`. */
    method LoadBlocks(nums: seq<byte>) returns (ok: bool)
      requires Valid() && |nums| <= BLOCK_MAX
      modifies response
      ensures (ok, response[..]) == Application.LoadBlocks(State(), nums, old(response[..]), 0)
    {
      ghost var s := State();
      for i := 0 to |nums|
        invariant State() == s
        invariant Application.LoadBlocks(s, nums, old(response[..]), 0) == Application.LoadBlocks(s, nums, response[..], i)
      {
        ghost var before := response[..];
        var valid := ReadBlockInto(nums[i], i);
        if !valid {
          return false;
        }
        LoadStep(s, nums, before, i);
      }
      ok := true;
    }

    /** `read_without_encryption`. */
    method ReadWithoutEncryption(command: seq<byte>) returns (ok: bool)
      requires Valid() && |command| == COMMAND_SIZE
      modifies response
      ensures (ok, response[..]) == Application.ReadWithoutEncryption(State(), command, old(response[..]))
    {
      if command[0] < 16 {
        return false;
      }
      ok := true;
      if command[10] != 1 {
        PutStatus(0xA1);
        return;
      }
      var target := LittleEndian(command[11], command[12]);
      var n := command[13] as int;
      var found := FindService(target);
      if target == 0xFFFF {
        found := true;
      }
      if !found {
        PutStatus(0xA6);
        return;
      }
      if !(1 <= n <= BLOCK_MAX) {
        PutStatus(0xA2);
        return;
      }
      var blockNums := new byte[BLOCK_MAX];
      var size := ParseBlockListInto(n, command[14..], blockNums);
      if size == 0 {
        PutStatus(0xA6);
        return;
      }
      var loaded := LoadBlocks(blockNums[..n]);
      if !loaded {
        PutStatus(0xA8);
        return;
      }
      PutBlocksRead(command[13]);
    }
  }

  /** `process` answers Polling with the polling handler. */
  lemma ProcessPolling(s: CardState, command: seq<byte>, response: seq<byte>)
    requires s.Valid() && |command| == COMMAND_SIZE && |response| == RESPONSE_SIZE && command[1] == 0x00
    ensures Application.Process(s, command, response) ==
            Outcome(s, Application.Polling(s, command, response).1, Application.Polling(s, command, response).0)
  {
  }

  /** `process` answers Echo with the command itself. */
  lemma ProcessEcho(s: CardState, command: seq<byte>, response: seq<byte>)
    requires s.Valid() && |command| == COMMAND_SIZE && |response| == RESPONSE_SIZE
    requires command[1] == 0xF0 && command[2] == 0x00
    ensures Application.Process(s, command, response) == Outcome(s, Overwrite(response, 0, command[..command[0]]), true)
  {
  }

  /** `process` returns null, changing nothing, for a command for another
      card or with an odd code. */
  lemma ProcessRejects(s: CardState, command: seq<byte>, response: seq<byte>)
    requires s.Valid() && |command| == COMMAND_SIZE && |response| == RESPONSE_SIZE
    requires command[1] != 0x00 && !(command[1] == 0xF0 && command[2] == 0x00)
    requires command[2] & 0x0F != s.idm[0] & 0x0F || command[3..10] != s.idm[1..8] || command[1] % 2 != 0
    ensures Application.Process(s, command, response) == Outcome(s, response, false)
  {
  }

  /** `process` hands a command for this card with an even code other than
      Polling and Echo to the switch, behind the answer header. */
  lemma ProcessAddressed(s: CardState, command: seq<byte>, response: seq<byte>)
    requires s.Valid() && |command| == COMMAND_SIZE && |response| == RESPONSE_SIZE
    requires command[1] != 0x00 && !(command[1] == 0xF0 && command[2] == 0x00)
    requires command[2] & 0x0F == s.idm[0] & 0x0F && command[3..10] == s.idm[1..8] && command[1] % 2 == 0
    ensures Application.Process(s, command, response) ==
            Application.Dispatch(s, command, Overwrite(response[1 := command[1] + 1], 2, command[2..10]))
  {
  }

  /** The count of system codes in use is the length of the run of entries
      in use at the front of the table. */
  lemma CountIs(table: seq<byte>, n: int)
    requires |table| == 2 * SYSTEM_MAX && 0 <= n <= SYSTEM_MAX
    requires forall k | 0 <= k < n :: InUse(table, k)
    requires n == SYSTEM_MAX || !InUse(table, n)
    ensures SystemCount(table, 0) == n
  {
  }

  /** The answer of `request_system_code` for a table with `n` entries in
      use, whose loop left `copied`. */
  lemma SystemCodesAnswer(s: CardState, response: seq<byte>, n: int, copied: seq<byte>)
    requires s.Valid() && |response| == RESPONSE_SIZE && 0 <= n <= SYSTEM_MAX
    requires SystemCount(s.systemCode, 0) == n && copied == Overwrite(response, 11, s.systemCode[..2 * n])
    ensures Application.RequestSystemCode(s, response) == (n != 0, copied[0 := 11 + 2 * n as byte][10 := n as byte])
  {
  }

  /** One more system code copied into the answer of `request_system_code`. */
  lemma CopyStep(initial: seq<byte>, table: seq<byte>, i: int)
    requires |initial| == RESPONSE_SIZE && |table| == 2 * SYSTEM_MAX && 0 <= i < SYSTEM_MAX
    ensures Overwrite(initial, 11, table[..2 * i + 2]) ==
            Overwrite(initial, 11, table[..2 * i])[11 + 2 * i := table[2 * i]][12 + 2 * i := table[2 * i + 1]]
  {
  }

  /** `response` with slot `i` of the read answer filled as `b` says. */
  function Slotted(response: seq<byte>, b: BlockRead, i: int): (r: seq<byte>)
    requires |response| == RESPONSE_SIZE && 0 <= i < BLOCK_MAX
    requires b.Data? ==> |b.bytes| == BLOCK_SIZE
    ensures |r| == RESPONSE_SIZE
  {
    match b
    case Data(d) => Overwrite(response, 13 + BLOCK_SIZE * i, d)
    case _ => response
  }

  /** A valid block at `i` is one step of the block loop. */
  lemma LoadStep(s: CardState, nums: seq<byte>, response: seq<byte>, i: int)
    requires s.Valid() && |response| == RESPONSE_SIZE && 0 <= i < |nums| <= BLOCK_MAX
    requires !ReadBlock(s, nums[i]).Invalid?
    ensures Application.LoadBlocks(s, nums, response, i) ==
            Application.LoadBlocks(s, nums, Slotted(response, ReadBlock(s, nums[i]), i), i + 1)
  {
  }

  /** The parse of `parse_block_list` after `i` elements and `j` bytes: the
      numbers collected so far in front of the parse of the rest. */
  function Resume(j: int, nums: seq<byte>, rest: Option<(int, seq<byte>)>): Option<(int, seq<byte>)> {
    match rest
    case None => None
    case Some(parsed) => Some((j + parsed.0, nums + parsed.1))
  }

  /** The state of the loop of `parse_block_list` after `i` elements and
      `j` bytes: the numbers collected so far in front of the parse of the
      rest are the parse of the whole list. */
  ghost predicate Parsed(n: int, list: seq<byte>, i: int, j: int, nums: seq<byte>) {
    0 <= i <= n && 3 * n <= |list| && 2 * i <= j <= 3 * i &&
    ParseElements(n, list) == Resume(j, nums, ParseElements(n - i, list[j..]))
  }

  /** One element more: element `i` at byte `j` has width `width` and block
      number `list[j + 1]`. */
  lemma ParsedStep(n: int, list: seq<byte>, i: int, j: int, nums: seq<byte>, width: int)
    requires Parsed(n, list, i, j, nums) && i < n
    requires width == (if list[j] == 0x80 then 2 else if list[j] == 0x00 && list[j + 2] == 0x00 then 3 else 0)
    ensures width == 0 ==> ParseElements(n, list) == None
    ensures width != 0 ==> Parsed(n, list, i + 1, j + width, nums + [list[j + 1]])
  {
    var rest := list[j..];
    var tail := if width == 0 then [] else list[j + width..];
    assert rest[0] == list[j] && rest[1] == list[j + 1] && rest[2] == list[j + 2];
    assert width != 0 ==> rest[width..] == tail;
    ParseFront(n - i, rest, width, tail);
    if width != 0 {
      ResumeTwice(j, nums, width, [list[j + 1]], ParseElements(n - i - 1, tail));
    }
  }

  /** The first step of the parse of a block list. */
  lemma ParseFront(m: int, rest: seq<byte>, width: int, tail: seq<byte>)
    requires 0 < m && 3 * m <= |rest|
    requires width == (if rest[0] == 0x80 then 2 else if rest[0] == 0x00 && rest[2] == 0x00 then 3 else 0)
    requires width != 0 ==> tail == rest[width..]
    ensures width == 0 ==> ParseElements(m, rest) == None
    ensures width != 0 ==>
              3 * (m - 1) <= |tail| && ParseElements(m, rest) == Resume(width, [rest[1]], ParseElements(m - 1, tail))
  {
  }

  lemma ResumeNothing(rest: Option<(int, seq<byte>)>)
    ensures Resume(0, [], rest) == rest
  {
    if rest.Some? {
      assert [] + rest.value.1 == rest.value.1;
    }
  }

  /** Resuming twice is resuming once with both prefixes. */
  lemma ResumeTwice(j: int, nums: seq<byte>, k: int, more: seq<byte>, rest: Option<(int, seq<byte>)>)
    ensures Resume(j, nums, Resume(k, more, rest)) == Resume(j + k, nums + more, rest)
  {
    if rest.Some? {
      assert nums + (more + rest.value.1) == nums + more + rest.value.1;
    }
  }

  /** `parse_block_list`: the block numbers go to `blockNums`; the result is
      the size of the block list, 0 for a malformed one. */
  method ParseBlockListInto(n: int, list: seq<byte>, blockNums: array<byte>) returns (size: int)
    requires 0 <= n <= blockNums.Length && 3 * n <= |list|
    modifies blockNums
    ensures size == Application.ParseBlockList(n, list).0
    ensures size != 0 ==> blockNums[..n] == Application.ParseBlockList(n, list).1
  {
    var j := 0;
    assert list[0..] == list;
    ResumeNothing(ParseElements(n, list));
    for i := 0 to n
      invariant Parsed(n, list, i, j, blockNums[..i])
    {
      ghost var before := blockNums[..i];
      var width := ParseElement(list, j, blockNums, i);
      ParsedStep(n, list, i, j, before, width);
      if width == 0 {
        ParseFails(n, list);
        return 0;
      }
      j := j + width;
    }
    ParseEnds(n, list, j, blockNums[..n]);
    size := j;
  }

  lemma ParseFails(n: int, list: seq<byte>)
    requires 0 <= n && 3 * n <= |list| && ParseElements(n, list) == None
    ensures Application.ParseBlockList(n, list).0 == 0
  {
  }

  lemma ParseEnds(n: int, list: seq<byte>, j: int, nums: seq<byte>)
    requires Parsed(n, list, n, j, nums)
    ensures Application.ParseBlockList(n, list) == (j, nums)
  {
    assert nums + [] == nums;
  }

  /** One element of the loop of `parse_block_list`: a two-byte element
      (80 num) or a three-byte one (00 num 00) stores its block number in
      slot `i`; anything else is a width of 0. */
  method ParseElement(list: seq<byte>, j: int, blockNums: array<byte>, i: int) returns (width: int)
    requires 0 <= j && j + 3 <= |list| && 0 <= i < blockNums.Length
    modifies blockNums
    ensures width == (if list[j] == 0x80 then 2 else if list[j] == 0x00 && list[j + 2] == 0x00 then 3 else 0)
    ensures width != 0 ==> blockNums[..i + 1] == old(blockNums[..i]) + [list[j + 1]]
  {
    if list[j] == 0x80 {
      blockNums[i] := list[j + 1];
      return 2;
    } else if list[j] == 0x00 {
      if list[j + 2] != 0x00 {
        return 0;
      }
      blockNums[i] := list[j + 1];
      return 3;
    }
    return 0;
  }
}
