/** The data-link layer of the card: capturing a frame from the sampled
    chip stream, finding its sync pattern, decoding and checking it, and
    encoding a response. The SPI peripheral that samples the carrier is a
    sequence of bytes here: `input` holds the bytes successive
    `SPI_transfer()` calls return, and a transmission is the sequence of
    bytes handed to it. */
module DataLink {
  import opened Octets
  import opened Checksum
  import opened LineCode

  /** Size of the receive buffer `rx_buf`. */
  const RX_SIZE: int := 0x220

  /** The data-link header sent before every response: preamble and sync code. */
  const HEADER: seq<byte> := [0x00, 0x00, 0x00, 0x00, 0x00, 0x00, 0xB2, 0x4D]

  /** A frame end seen before this many bytes restarts the capture
      (`sizeof(header) * 2`: the coded header alone is this long). */
  const SHORT_FRAME: int := 16

  /** The two bytes `enable_transmit` clocks out to flush the SPI buffer. */
  const FLUSH: seq<byte> := [0x00, 0x00]

  /** A sampled byte with no transition: the carrier has stopped. */
  predicate IsMarker(b: byte) {
    b == 0x00 || b == 0xFF
  }

  /** No marker in `s[from, to)`. */
  predicate MarkerFree(s: seq<byte>, from: int, to: int)
    requires 0 <= from <= to <= |s|
  {
    forall j | from <= j < to :: !IsMarker(s[j])
  }

  // ---------------------------------------------------------------------------
  // capture_frame

  /** What `capture_frame` ends with. `Captured(length, consumed)`: a frame of
      `length` bytes, the marker included, ending at input position
      `consumed`. `TooLong(consumed)`: the buffer filled up without an
      accepted marker (the function returns 0). `InputExhausted(filled)`:
      the input ran out while `filled` bytes of an attempt were stored. */
  datatype Capture = Captured(length: int, consumed: nat) | TooLong(consumed: nat) | InputExhausted(filled: nat)

  /** The capture loop from input position `k` with `i` bytes of the current
      attempt stored. */
  function CaptureFrom(input: seq<byte>, k: nat, i: nat): (c: Capture)
    requires k <= |input| && i <= RX_SIZE && i <= k
    ensures c.Captured? ==> SHORT_FRAME < c.length <= RX_SIZE && c.length <= c.consumed <= |input|
    ensures c.TooLong? ==> RX_SIZE <= c.consumed <= |input|
    ensures c.InputExhausted? ==> c.filled <= RX_SIZE
    decreases |input| - k
  {
    if i == RX_SIZE then TooLong(k)
    else if k == |input| then InputExhausted(i)
    else if IsMarker(input[k]) then
      if i < SHORT_FRAME then CaptureFrom(input, k + 1, 0) else Captured(i + 1, k + 1)
    else CaptureFrom(input, k + 1, i + 1)
  }

  /** What a capture outcome says about the input: a captured frame is a
      marker-free run of more than `SHORT_FRAME` bytes ended by a marker and
      started at the beginning of the input or right after a marker;
      `TooLong` is a marker-free run of a whole buffer, started the same way;
      `InputExhausted` leaves a marker-free tail. */
  predicate MarkerDelimited(input: seq<byte>, c: Capture) {
    match c
    case Captured(n, c) =>
      SHORT_FRAME < n <= RX_SIZE && n <= c <= |input| &&
      IsMarker(input[c - 1]) && MarkerFree(input, c - n, c - 1) &&
      (c == n || IsMarker(input[c - n - 1]))
    case TooLong(c) =>
      RX_SIZE <= c <= |input| && MarkerFree(input, c - RX_SIZE, c) &&
      (c == RX_SIZE || IsMarker(input[c - RX_SIZE - 1]))
    case InputExhausted(f) =>
      f <= |input| && MarkerFree(input, |input| - f, |input|)
  }

  /** Every capture outcome is marker-delimited, from any point of the loop
      at which the stored bytes are a marker-delimited run. */
  lemma {:induction false} CaptureIsMarkerDelimited(input: seq<byte>, k: nat, i: nat)
    requires k <= |input| && i <= RX_SIZE && i <= k
    requires i == k || IsMarker(input[k - i - 1])
    requires MarkerFree(input, k - i, k)
    ensures MarkerDelimited(input, CaptureFrom(input, k, i))
    decreases |input| - k
  {
    if i == RX_SIZE || k == |input| {
    } else if IsMarker(input[k]) {
      if i < SHORT_FRAME {
        CaptureIsMarkerDelimited(input, k + 1, 0);
      } else {
        assert CaptureFrom(input, k, i) == Captured(i + 1, k + 1);
      }
    } else {
      assert MarkerFree(input, k - i, k + 1);
      CaptureIsMarkerDelimited(input, k + 1, i + 1);
    }
  }

  /** A marker-free run of `m` bytes that fits in the buffer is stored whole. */
  lemma {:induction false} CaptureSkipsRun(input: seq<byte>, k: nat, i: nat, m: nat)
    requires k + m <= |input| && i + m <= RX_SIZE && i <= k
    requires MarkerFree(input, k, k + m)
    ensures CaptureFrom(input, k, i) == CaptureFrom(input, k + m, i + m)
    decreases m
  {
    if m > 0 {
      CaptureSkipsRun(input, k + 1, i + 1, m - 1);
    }
  }

  // ---------------------------------------------------------------------------
  // find_sync_index

  /** The decision `find_sync_index` takes at offset `j` of `rx`. */
  function SyncAtOffset(rx: seq<byte>, j: nat): Option<(int, bool)>
    requires j + 1 < |rx|
  {
    SyncAt(rx[j], rx[j + 1])
  }

  /** The first offset in `[from, |rx| - 1)` at which `SyncAt` reports a
      phase, with that phase and polarity. */
  function FirstSync(rx: seq<byte>, from: nat): (r: Option<(nat, int, bool)>)
    ensures r.Some? ==> from <= r.value.0 < |rx| - 1
    decreases |rx| - from
  {
    if from >= |rx| - 1 then None
    else match SyncAtOffset(rx, from)
      case Some(found) => Some((from, found.0, found.1))
      case None => FirstSync(rx, from + 1)
  }

  /** `FirstSync` finds the first offset with a sync: its pair shows the
      reported phase and polarity, and no pair before it shows any; with no
      result, no pair in the range does. */
  lemma {:induction false} FirstSyncIsFirst(rx: seq<byte>, from: nat)
    ensures var r := FirstSync(rx, from);
            r.Some? ==> SyncAtOffset(rx, r.value.0) == Some((r.value.1, r.value.2))
    ensures var r := FirstSync(rx, from);
            forall j | from <= j < (if r.Some? then r.value.0 else |rx| - 1) :: SyncAtOffset(rx, j).None?
    decreases |rx| - from
  {
    if from < |rx| - 1 && SyncAtOffset(rx, from).None? {
      FirstSyncIsFirst(rx, from + 1);
    }
  }

  // ---------------------------------------------------------------------------
  // The decode loop of receive_command

  /** The byte decoded from the three chip bytes at `rx[p]`. */
  function DecodeWindow(rx: seq<byte>, p: nat, shift: int, invert: bool): byte
    requires p + 2 < |rx|
  {
    Decode(shift, invert, rx[p], rx[p + 1], rx[p + 2])
  }

  /** The bytes the decode loop produces from `rx` starting at `i`: one for
      every two chip bytes while `i < |rx| - 2`. */
  function DecodeFrom(rx: seq<byte>, i: nat, shift: int, invert: bool): (out: seq<byte>)
    ensures i < |rx| - 2 ==> |rx| - 2 <= i + 2 * |out| <= |rx| - 1
    ensures i >= |rx| - 2 ==> |out| == 0
    decreases |rx| - i
  {
    if i < |rx| - 2 then [DecodeWindow(rx, i, shift, invert)] + DecodeFrom(rx, i + 2, shift, invert)
    else []
  }

  /** The state of the decode loop of `receive_command` after `index`
      bytes: they are the front of the decoded frame, in front of the old
      buffer, and more are to come exactly when the loop goes on. */
  ghost predicate DecodedPrefix(cmd: seq<byte>, oldCommand: seq<byte>, frame: seq<byte>, rxIndex: nat, shift: int, invert: bool,
                                index: int, more: bool)
  {
    var decoded := DecodeFrom(frame, rxIndex, shift, invert);
    0 <= index <= |decoded| && |decoded| <= |oldCommand| &&
    (more <==> index < |decoded|) && cmd == Overwrite(oldCommand, 0, decoded[..index])
  }

  /** One pass of the decode loop keeps `DecodedPrefix`. */
  lemma DecodeStep(cmd: seq<byte>, oldCommand: seq<byte>, frame: seq<byte>, rxIndex: nat, shift: int, invert: bool,
                   index: int, x: byte)
    requires rxIndex + 2 * index < |frame| - 2 && DecodedPrefix(cmd, oldCommand, frame, rxIndex, shift, invert, index, true)
    requires x == DecodeWindow(frame, rxIndex + 2 * index, shift, invert)
    ensures 0 <= index < |cmd|
    ensures DecodedPrefix(cmd[index := x], oldCommand, frame, rxIndex, shift, invert, index + 1,
                          rxIndex + 2 * (index + 1) < |frame| - 2)
  {
    var decoded := DecodeFrom(frame, rxIndex, shift, invert);
    DecodeFromAt(frame, rxIndex, shift, invert, index);
    OverwriteExtend(oldCommand, decoded, index);
  }

  /** When the decode loop stops, the whole decoded frame is in front. */
  lemma DecodeDone(cmd: seq<byte>, oldCommand: seq<byte>, frame: seq<byte>, rxIndex: nat, shift: int, invert: bool, index: int)
    requires DecodedPrefix(cmd, oldCommand, frame, rxIndex, shift, invert, index, false)
    ensures index == |DecodeFrom(frame, rxIndex, shift, invert)|
    ensures cmd == Overwrite(oldCommand, 0, DecodeFrom(frame, rxIndex, shift, invert))
  {
    var decoded := DecodeFrom(frame, rxIndex, shift, invert);
    assert decoded[..index] == decoded;
  }

  /** Copying one more byte of `src` extends the copy by that byte. */
  lemma OverwriteExtend(buf: seq<byte>, src: seq<byte>, k: int)
    requires 0 <= k < |src| <= |buf|
    ensures Overwrite(buf, 0, src[..k])[k := src[k]] == Overwrite(buf, 0, src[..k + 1])
  {
    var a := Overwrite(buf, 0, src[..k])[k := src[k]];
    var b := Overwrite(buf, 0, src[..k + 1]);
    assert forall p | 0 <= p < |buf| :: a[p] == b[p];
  }

  /** Decoded byte `k` comes from the three chip bytes at `i + 2k`. */
  lemma {:induction false} DecodeFromAt(rx: seq<byte>, i: nat, shift: int, invert: bool, k: nat)
    requires k < |DecodeFrom(rx, i, shift, invert)|
    ensures i + 2 * k + 2 < |rx|
    ensures DecodeFrom(rx, i, shift, invert)[k] == DecodeWindow(rx, i + 2 * k, shift, invert)
    decreases k
  {
    if k > 0 {
      DecodeFromAt(rx, i + 2, shift, invert, k - 1);
      assert i + 2 + 2 * (k - 1) == i + 2 * k;
    }
  }

  /** Why `receive_command` returns null. */
  datatype LinkError = CaptureError | SyncError | LengthError | EdcError

  /** The length and EDC checks of `receive_command` on the command buffer
      `cmd` after `count` bytes were decoded into it: the frame must hold its
      declared length `cmd[0]` plus two trailer bytes, and the big-endian
      trailer must pass `EdcAccepted` against the CRC of the first `cmd[0]`
      bytes. */
  function CheckCommand(cmd: seq<byte>, count: int): Option<LinkError>
    requires |cmd| == COMMAND_SIZE
  {
    var len := cmd[0] as int;
    if len + 2 > count then Some(LengthError)
    else if EdcAccepted(Crc(cmd[..len]), BigEndian(cmd[len], cmd[len + 1])) then None
    else Some(EdcError)
  }

  /** What `receive_command` does with a captured frame `rx_buf[0, rx_len)`,
      given the command buffer it starts from: the verdict (None: the command
      is accepted) and the command buffer it leaves. Bytes of the buffer past
      the decoded ones keep what earlier frames left there. */
  function Judge(frame: seq<byte>, command: seq<byte>): (r: (Option<LinkError>, seq<byte>))
    requires |frame| <= RX_SIZE && |command| == COMMAND_SIZE
    ensures |r.1| == COMMAND_SIZE
  {
    match FirstSync(frame, 0)
    case None => (Some(SyncError), command)
    case Some(sync) =>
      var decoded := DecodeFrom(frame, sync.0 + 4, sync.1, sync.2);
      var cmd := Overwrite(command, 0, decoded);
      (CheckCommand(cmd, |decoded|), cmd)
  }

  /** The outcome of `receive_command` on the input stream. */
  datatype Reception = Received(consumed: nat) | Rejected(error: LinkError, consumed: nat) | Exhausted

  /** `receive_command` on the input stream, given the command buffer it
      starts from: the outcome and the command buffer it leaves. A frame
      that overflows `rx_buf` is a capture error and leaves the buffer alone;
      input that ends before a frame is complete is `Exhausted`. */
  function Receive(input: seq<byte>, command: seq<byte>): (r: (Reception, seq<byte>))
    requires |command| == COMMAND_SIZE
    ensures |r.1| == COMMAND_SIZE
    ensures r.0.Received? ==> CaptureFrom(input, 0, 0).Captured? && r.0.consumed == CaptureFrom(input, 0, 0).consumed
  {
    match CaptureFrom(input, 0, 0)
    case InputExhausted(_) => (Exhausted, command)
    case TooLong(c) => (Rejected(CaptureError, c), command)
    case Captured(n, c) =>
      var judged := Judge(input[c - n..c], command);
      (if judged.0.None? then Received(c) else Rejected(judged.0.value, c), judged.1)
  }

  /** The receive state of the card: `rx_buf` and `command`. */
  class Transceiver {
    var rxBuf: array<byte>
    var command: array<byte>

    predicate Valid()
      reads this
    {
      rxBuf.Length == RX_SIZE && command.Length == COMMAND_SIZE
    }

    /** Both buffers start zeroed, as static storage does. */
    constructor ()
      ensures Valid() && fresh(rxBuf) && fresh(command)
      ensures rxBuf[..] == Zeros(RX_SIZE) && command[..] == Zeros(COMMAND_SIZE)
    {
      rxBuf := new byte[RX_SIZE](_ => 0);
      command := new byte[COMMAND_SIZE](_ => 0);
    }

    /** `capture_frame`: store sampled bytes until a marker ends a frame of
        at least `SHORT_FRAME` bytes; an earlier marker restarts the fill at
        position 0. */
    method CaptureFrame(input: seq<byte>) returns (c: Capture)
      requires Valid()
      modifies rxBuf
      ensures c == CaptureFrom(input, 0, 0)
      ensures c.Captured? ==>
                c.length <= c.consumed <= |input| &&
                rxBuf[..c.length] == input[c.consumed - c.length..c.consumed] &&
                rxBuf[c.length..] == old(rxBuf[c.length..])
      ensures c.TooLong? ==> RX_SIZE <= c.consumed <= |input| && rxBuf[..] == input[c.consumed - RX_SIZE..c.consumed]
      ensures c.InputExhausted? ==>
                c.filled <= |input| && rxBuf[..c.filled] == input[|input| - c.filled..] &&
                forall j | SHORT_FRAME <= j < RX_SIZE && c.filled <= j :: rxBuf[j] == old(rxBuf[j])
    {
      var i := 0;
      var k := 0;
      while i < RX_SIZE
        invariant 0 <= i <= RX_SIZE && i <= k <= |input|
        invariant CaptureFrom(input, k, i) == CaptureFrom(input, 0, 0)
        invariant rxBuf[..i] == input[k - i..k]
        invariant forall j | SHORT_FRAME <= j < RX_SIZE && i <= j :: rxBuf[j] == old(rxBuf[j])
        decreases |input| - k
      {
        if k == |input| {
          return InputExhausted(i);
        }
        var data := input[k];
        k := k + 1;
        rxBuf[i] := data;
        if IsMarker(data) {
          if i < SHORT_FRAME {
            // frame too short: start filling again from the front
            i := 0;
            continue;
          }
          assert rxBuf[..i + 1] == input[k - (i + 1)..k];
          return Captured(i + 1, k);
        }
        i := i + 1;
      }
      assert rxBuf[..] == rxBuf[..i];
      return TooLong(k);
    }

    /** `find_sync_index`: the first offset of `rx_buf[0, rx_len)` whose pair
        shows a sync, with its phase and polarity; -1 when there is none. */
    method FindSyncIndex(rxLen: int) returns (index: int, shift: int, invert: bool)
      requires Valid() && 0 <= rxLen <= RX_SIZE
      ensures index >= -1
      ensures index == -1 ==> FirstSync(rxBuf[..rxLen], 0).None?
      ensures index != -1 ==> FirstSync(rxBuf[..rxLen], 0) == Some((index as nat, shift, invert))
    {
      ghost var rx := rxBuf[..rxLen];
      shift, invert := -1, false;
      var i := 0;
      while i < rxLen - 1
        invariant 0 <= i && (i <= rxLen - 1 || i == 0)
        invariant FirstSync(rx, i) == FirstSync(rx, 0)
      {
        var shift1 := GetShiftFromSync(rxBuf[i], rxBuf[i + 1]);
        var shift2 := GetShiftFromSync(!rxBuf[i], !rxBuf[i + 1]);
        assert SyncAtOffset(rx, i) == SyncAt(rxBuf[i], rxBuf[i + 1]);
        if shift1 != -1 && shift1 > shift2 {
          return i, shift1, false;
        }
        if shift2 != -1 && shift2 > shift1 {
          return i, shift2, true;
        }
        i := i + 1;
      }
      return -1, shift, invert;
    }

    /** The decode loop of `receive_command`: the bytes decoded from
        `rx_buf[rx_index, rx_len)` go to the front of `command`. */
    method DecodeInto(rxLen: int, rxIndex: int, shift: int, invert: bool) returns (index: int)
      requires Valid() && 0 <= rxLen <= RX_SIZE && 4 <= rxIndex
      modifies command
      ensures index == |DecodeFrom(rxBuf[..rxLen], rxIndex, shift, invert)|
      ensures command[..] == Overwrite(old(command[..]), 0, DecodeFrom(rxBuf[..rxLen], rxIndex, shift, invert))
    {
      ghost var frame := rxBuf[..rxLen];
      ghost var oldCommand := command[..];
      index := 0;
      var i := rxIndex;
      while i < rxLen - 2
        invariant rxIndex <= i && i == rxIndex + 2 * index && rxBuf[..rxLen] == frame
        invariant DecodedPrefix(command[..], oldCommand, frame, rxIndex, shift, invert, index, i < rxLen - 2)
      {
        var x := DecodeAt(rxLen, i, shift, invert);
        DecodeStep(command[..], oldCommand, frame, rxIndex, shift, invert, index, x);
        StoreByte(index, x);
        assert rxBuf[..rxLen] == frame;
        assert DecodedPrefix(command[..], oldCommand, frame, rxIndex, shift, invert, index + 1, i + 2 < rxLen - 2);
        index := index + 1;
        i := i + 2;
      }
      DecodeDone(command[..], oldCommand, frame, rxIndex, shift, invert, index);
    }

    /** `command[index] = x`. */
    method StoreByte(index: int, x: byte)
      requires Valid() && 0 <= index < COMMAND_SIZE
      modifies command
      ensures command[..] == old(command[..])[index := x] && rxBuf[..] == old(rxBuf[..])
    {
      command[index] := x;
    }

    /** One byte of the decode loop: `extract_byte` at chip byte `i`,
        complemented when the polarity is inverted. */
    method DecodeAt(rxLen: int, i: int, shift: int, invert: bool) returns (x: byte)
      requires Valid() && 0 <= i && i + 2 < rxLen <= RX_SIZE
      ensures x == DecodeWindow(rxBuf[..rxLen], i, shift, invert)
    {
      x := ExtractByte(shift, rxBuf[i], rxBuf[i + 1], rxBuf[i + 2]);
      if invert {
        x := !x;
      }
    }

    /** The length and EDC checks at the end of `receive_command`, after
        `index` bytes were decoded into `command`. */
    method CheckFrame(index: int) returns (error: Option<LinkError>)
      requires Valid()
      ensures error == CheckCommand(command[..], index)
    {
      ghost var cmd := command[..];
      var len := command[0] as int;
      if len + 2 > index {
        return Some(LengthError);
      }
      var calculated := Crc16(command, len);
      var received := BigEndian(command[len], command[len + 1]);
      assert command[..len] == cmd[..len];
      assert command[len] == cmd[len] && command[len + 1] == cmd[len + 1];
      if EdcAccepted(calculated, received) {
        return None;
      }
      return Some(EdcError);
    }

    /** The part of `receive_command` after the capture: sync search, decode
        loop, length and EDC checks on `rx_buf[0, rx_len)`. */
    method InterpretFrame(rxLen: int) returns (error: Option<LinkError>)
      requires Valid() && 0 <= rxLen <= RX_SIZE
      modifies command
      ensures (error, command[..]) == Judge(rxBuf[..rxLen], old(command[..]))
    {
      var rxIndex, shift, invert := FindSyncIndex(rxLen);
      if rxIndex == -1 {
        return Some(SyncError);
      }
      rxIndex := rxIndex + 4;
      var index := DecodeInto(rxLen, rxIndex, shift, invert);
      error := CheckFrame(index);
    }

    /** `receive_command`: capture a frame, find its sync, decode it into
        `command` and check its length and EDC. On success the command is
        `command[..]`. */
    method ReceiveCommand(input: seq<byte>) returns (r: Reception)
      requires Valid()
      modifies rxBuf, command
      ensures (r, command[..]) == Receive(input, old(command[..]))
    {
      var captured := CaptureFrame(input);
      if captured.InputExhausted? {
        return Exhausted;
      }
      if captured.TooLong? {
        return Rejected(CaptureError, captured.consumed);
      }
      var error := InterpretFrame(captured.length);
      r := if error.None? then Received(captured.consumed) else Rejected(error.value, captured.consumed);
    }
  }

  // ---------------------------------------------------------------------------
  // transmit_byte and send_response

  /** The chip bytes `transmit_byte` sends for each byte of `s`, in order. */
  function Encode(s: seq<byte>): (chips: seq<byte>)
    ensures |chips| == 2 * |s|
    decreases |s|
  {
    if s == [] then [] else TransmitByte(s[0]) + Encode(s[1..])
  }

  /** Byte `k` of `s` is sent as chip bytes `2k` and `2k + 1`. */
  lemma {:induction false} EncodeAt(s: seq<byte>, k: nat)
    requires k < |s|
    ensures Encode(s)[2 * k] == TransmitByte(s[k])[0] && Encode(s)[2 * k + 1] == TransmitByte(s[k])[1]
    decreases k
  {
    if k > 0 {
      EncodeAt(s[1..], k - 1);
    }
  }

  /** Encoding distributes over concatenation. */
  lemma {:induction false} EncodeAppend(a: seq<byte>, b: seq<byte>)
    ensures Encode(a + b) == Encode(a) + Encode(b)
    decreases |a|
  {
    if a == [] {
      assert a + b == b;
    } else {
      assert (a + b)[1..] == a[1..] + b;
      EncodeAppend(a[1..], b);
    }
  }

  /** The trailer of a frame: the CRC of its body, high byte first. */
  function Trailer(body: seq<byte>): (t: seq<byte>)
    ensures |t| == 2 && BigEndian(t[0], t[1]) == Crc(body)
  {
    [HighByte(Crc(body)), LowByte(Crc(body))]
  }

  /** Everything `send_response` clocks out for a response whose first
      `|body|` bytes are `body`: the flush of `enable_transmit(true)`, the
      coded header, body and trailer, and the flush of
      `enable_transmit(false)`. */
  function Transmission(body: seq<byte>): (tx: seq<byte>)
    ensures |tx| == 4 + 2 * (|HEADER| + |body| + 2)
    ensures tx[..2] == FLUSH && tx[|tx| - 2..] == FLUSH
  {
    FLUSH + Encode(HEADER + body + Trailer(body)) + FLUSH
  }

  /** The transmit loops of `send_response`: `transmit_byte` for each byte
      of `s`, in order. */
  method TransmitAll(s: seq<byte>) returns (chips: seq<byte>)
    ensures chips == Encode(s)
  {
    chips := [];
    for i := 0 to |s|
      invariant chips == Encode(s[..i])
    {
      EncodeSnoc(s[..i], s[i]);
      assert s[..i + 1] == s[..i] + [s[i]];
      chips := chips + TransmitByte(s[i]);
    }
    assert s[..|s|] == s;
  }

  /** `send_response`: nothing for a null response; otherwise the
      transmission of the first `response[0]` bytes of the response buffer. */
  method SendResponse(response: Option<seq<byte>>) returns (tx: seq<byte>)
    requires response.Some? ==> |response.value| >= 0xFF
    ensures response.None? ==> tx == []
    ensures response.Some? ==> tx == Transmission(response.value[..response.value[0]])
  {
    if response.None? {
      return [];
    }
    var len := response.value[0] as int;
    var body := response.value[..len];
    var edc := Crc(body);
    var header := TransmitAll(HEADER);
    var coded := TransmitAll(body);
    var trailer := TransmitByte(HighByte(edc)) + TransmitByte(LowByte(edc));
    tx := FLUSH + header + coded + trailer + FLUSH;
    EncodePair(HighByte(edc), LowByte(edc));
    EncodeAppend(HEADER, body);
    EncodeAppend(HEADER + body, Trailer(body));
  }

  lemma EncodeSnoc(s: seq<byte>, b: byte)
    ensures Encode(s + [b]) == Encode(s) + TransmitByte(b)
  {
    EncodeAppend(s, [b]);
    assert [b][1..] == [];
  }

  lemma EncodePair(a: byte, b: byte)
    ensures Encode([a, b]) == TransmitByte(a) + TransmitByte(b)
  {
    assert [a, b][1..] == [b];
    assert [b][1..] == [];
  }

  // ---------------------------------------------------------------------------
  // The two halves agree

  /** The header as `transmit_byte` codes it. */
  const CODED_HEADER: seq<byte> :=
    [0x55, 0x55, 0x55, 0x55, 0x55, 0x55, 0x55, 0x55, 0x55, 0x55, 0x55, 0x55, 0x9A, 0x59, 0x65, 0xA6]

  /** `chips` holds the two chip bytes of each byte of `s`, in order. */
  predicate Codes(chips: seq<byte>, s: seq<byte>) {
    |chips| == 2 * |s| &&
    forall k | 0 <= k < |s| :: chips[2 * k] == TransmitByte(s[k])[0] && chips[2 * k + 1] == TransmitByte(s[k])[1]
  }

  lemma EncodeCodes(s: seq<byte>)
    ensures Codes(Encode(s), s)
  {
    forall k | 0 <= k < |s|
      ensures Encode(s)[2 * k] == TransmitByte(s[k])[0] && Encode(s)[2 * k + 1] == TransmitByte(s[k])[1]
    {
      EncodeAt(s, k);
    }
  }

  /** No chip byte `transmit_byte` sends is a marker. */
  lemma CodesHaveNoMarker(chips: seq<byte>, s: seq<byte>)
    requires Codes(chips, s)
    ensures MarkerFree(chips, 0, |chips|)
  {
    assert forall v | 0 <= v < 16 :: !IsMarker(MANCHESTER[v]);
    forall j | 0 <= j < |chips| ensures !IsMarker(chips[j]) {
      var k := j / 2;
      assert chips[2 * k] == TransmitByte(s[k])[0] && chips[2 * k + 1] == TransmitByte(s[k])[1];
    }
  }

  /** The coded header leads the coded bytes of a message that starts with
      the header. */
  lemma CodedHeaderLeads(chips: seq<byte>, s: seq<byte>)
    requires Codes(chips, s) && |s| >= 8 && s[..8] == HEADER
    ensures chips[..16] == CODED_HEADER
  {
    assert TransmitByte(0x00) == [0x55, 0x55];
    assert TransmitByte(0xB2) == [0x9A, 0x59] && TransmitByte(0x4D) == [0x65, 0xA6];
    assert s[0] == 0 && s[1] == 0 && s[2] == 0 && s[3] == 0 && s[4] == 0 && s[5] == 0;
    assert s[6] == 0xB2 && s[7] == 0x4D;
    assert chips[0] == 0x55 && chips[1] == 0x55 && chips[2] == 0x55 && chips[3] == 0x55;
    assert chips[4] == 0x55 && chips[5] == 0x55 && chips[6] == 0x55 && chips[7] == 0x55;
    assert chips[8] == 0x55 && chips[9] == 0x55 && chips[10] == 0x55 && chips[11] == 0x55;
    assert chips[2 * 6] == 0x9A && chips[2 * 6 + 1] == 0x59 && chips[2 * 7] == 0x65 && chips[2 * 7 + 1] == 0xA6;
  }

  /** The pairs of the coded header, one by one. */
  lemma HeaderPairs()
    ensures SyncAt(0x55, 0x55) == None && SyncAt(0x55, 0x9A) == None
    ensures SyncAt(0x9A, 0x59) == Some((1, true))
  {
  }

  /** A pair of coded preamble bytes, or the last one with the first chip
      byte of B2, shows no sync. */
  lemma NoSyncInPreamble(rx: seq<byte>, j: nat)
    requires |rx| >= 16 && rx[..16] == CODED_HEADER && j < 12
    ensures FirstSync(rx, j) == FirstSync(rx, j + 1)
  {
    assert rx[j] == rx[..16][j] && rx[j + 1] == rx[..16][j + 1];
    HeaderPairs();
    assert SyncAtOffset(rx, j) == None;
  }

  /** The coded B2 shows a sync at phase 1, complemented. */
  lemma SyncAtCodedB2(rx: seq<byte>)
    requires |rx| >= 16 && rx[..16] == CODED_HEADER
    ensures FirstSync(rx, 12) == Some((12, 1, true))
  {
    assert rx[12] == rx[..16][12] && rx[13] == rx[..16][13];
    HeaderPairs();
    assert SyncAtOffset(rx, 12) == Some((1, true));
  }

  /** In a coded header, the first pair that shows a sync is at offset 12,
      the coded B2, with phase 1 and complemented. */
  lemma CodedHeaderSync(rx: seq<byte>)
    requires |rx| >= 16 && rx[..16] == CODED_HEADER
    ensures FirstSync(rx, 0) == Some((12, 1, true))
  {
    SyncAtCodedB2(rx);
    var j := 12;
    while j > 0
      invariant 0 <= j <= 12
      invariant FirstSync(rx, j) == Some((12, 1, true))
    {
      j := j - 1;
      NoSyncInPreamble(rx, j);
    }
  }

  /** In the frame of a coded message, sampled in step, the window at the
      chips of byte `k` (position `p`) decodes to that byte. */
  lemma CodedByteDecodes(message: seq<byte>, frame: seq<byte>, k: nat, p: nat)
    requires |frame| == 2 * |message| + 1 && Codes(frame[..2 * |message|], message)
    requires k < |message| && p == 2 * k
    ensures p + 2 < |frame| && DecodeWindow(frame, p, 1, true) == message[k]
  {
    var chips := TransmitByte(message[k]);
    assert frame[..2 * |message|][2 * k] == chips[0] && frame[..2 * |message|][2 * k + 1] == chips[1];
    TransmittedByteDecodes(message[k], frame[p + 2]);
  }

  /** The frame of a coded message, sampled in step, decodes from the first
      byte after the coded header to the message's remaining bytes. */
  lemma DecodesCodedMessage(message: seq<byte>, frame: seq<byte>)
    requires |message| >= 8 && |frame| == 2 * |message| + 1 && Codes(frame[..2 * |message|], message)
    ensures DecodeFrom(frame, 16, 1, true) == message[8..]
  {
    var decoded := DecodeFrom(frame, 16, 1, true);
    assert |decoded| == |message| - 8;
    forall k | 0 <= k < |decoded| ensures decoded[k] == message[8..][k] {
      DecodeFromAt(frame, 16, 1, true, k);
      CodedByteDecodes(message, frame, 8 + k, 16 + 2 * k);
    }
  }

  /** A marker-free run of 16 or more bytes between flush bytes, fed to
      `capture_frame`: the two leading flush bytes restart the fill, the run
      is stored, and the first closing flush byte ends the frame. */
  lemma FlushedRunIsCaptured(run: seq<byte>, rest: seq<byte>)
    requires SHORT_FRAME <= |run| < RX_SIZE && MarkerFree(run, 0, |run|)
    ensures var input := FLUSH + run + FLUSH + rest;
            var n := |run| + 1;
            CaptureFrom(input, 0, 0) == Captured(n, n + 2) &&
            input[2..n + 2] == run + [0x00]
  {
    var input := FLUSH + run + FLUSH + rest;
    assert MarkerFree(input, 2, 2 + |run|);
    CaptureSkipsRun(input, 2, 0, |run|);
    assert input[2 + |run|] == 0x00;
    assert input[2..|run| + 3] == run + [0x00];
  }

  /** A command buffer that starts with a body whose first byte is its
      length, followed by the body's trailer, passes the length and EDC
      checks. */
  lemma TrailedBodyPassesChecks(body: seq<byte>, command: seq<byte>)
    requires |body| <= 0xFF && (|body| == 0 || body[0] as int == |body|)
    requires |command| == COMMAND_SIZE
    ensures CheckCommand(Overwrite(command, 0, body + Trailer(body)), |body| + 2) == None
  {
    var cmd := Overwrite(command, 0, body + Trailer(body));
    TrailedBodyLayout(body, command);
    assert BigEndian(cmd[|body|], cmd[|body| + 1]) == Crc(body);
    assert EdcAccepted(Crc(body), Crc(body));
  }

  /** Where the length byte, the body and the trailer sit in a command
      buffer that starts with a body and its trailer. */
  lemma TrailedBodyLayout(body: seq<byte>, command: seq<byte>)
    requires |body| <= 0xFF && (|body| == 0 || body[0] as int == |body|)
    requires |command| == COMMAND_SIZE
    ensures var cmd := Overwrite(command, 0, body + Trailer(body));
            cmd[0] as int == |body| && cmd[..|body|] == body &&
            cmd[|body|] == Trailer(body)[0] && cmd[|body| + 1] == Trailer(body)[1]
  {
    var t := Trailer(body);
    var message := body + t;
    var cmd := Overwrite(command, 0, message);
    var len := |body|;
    assert cmd[..|message|] == message;
    assert cmd[0] == message[0];
    assert message[0] as int == len by {
      if len == 0 {
        assert message[0] == t[0];
      }
    }
    assert cmd[..len] == body by {
      assert message[..len] == body;
    }
    assert message[len] == t[0] && message[len + 1] == t[1];
  }

  /** A frame synchronised at offset 12 with phase 1, complemented, that
      decodes to a body and its trailer is accepted. */
  lemma GoodFrameIsAccepted(frame: seq<byte>, body: seq<byte>, command: seq<byte>)
    requires |frame| <= RX_SIZE && |command| == COMMAND_SIZE
    requires |body| <= 0xFF && (|body| == 0 || body[0] as int == |body|)
    requires FirstSync(frame, 0) == Some((12, 1, true))
    requires DecodeFrom(frame, 16, 1, true) == body + Trailer(body)
    ensures Judge(frame, command) == (None, Overwrite(command, 0, body + Trailer(body)))
  {
    TrailedBodyPassesChecks(body, command);
  }

  /** The frame the receiver sees for a response: it decodes to the body and
      trailer and passes the length and EDC checks. */
  lemma CodedResponseIsAccepted(body: seq<byte>, chips: seq<byte>, frame: seq<byte>, command: seq<byte>)
    requires |body| <= 0xFF && (|body| == 0 || body[0] as int == |body|)
    requires Codes(chips, HEADER + body + Trailer(body)) && frame == chips + [0x00]
    requires |command| == COMMAND_SIZE
    ensures Judge(frame, command) == (None, Overwrite(command, 0, body + Trailer(body)))
  {
    var message := HEADER + body + Trailer(body);
    assert message[..8] == HEADER;
    CodedHeaderLeads(chips, message);
    assert frame[..16] == CODED_HEADER;
    CodedHeaderSync(frame);
    assert frame[..2 * |message|] == chips;
    DecodesCodedMessage(message, frame);
    assert message[8..] == body + Trailer(body);
    GoodFrameIsAccepted(frame, body, command);
  }

  /** A response as `send_response` transmits it, fed back into
      `receive_command`, is captured whole, synchronised at the coded B2,
      decoded to its body and trailer, and accepted: the command buffer then
      starts with the body followed by its CRC. The body's first byte is its
      length, as in every frame. */
  lemma TransmissionIsReceived(body: seq<byte>, rest: seq<byte>, command: seq<byte>)
    requires |body| <= 0xFF && (|body| == 0 || body[0] as int == |body|)
    requires |command| == COMMAND_SIZE
    ensures Receive(Transmission(body) + rest, command) ==
              (Received(|Transmission(body)| - 1), Overwrite(command, 0, body + Trailer(body)))
  {
    var message := HEADER + body + Trailer(body);
    var chips := Encode(message);
    EncodeCodes(message);
    CodesHaveNoMarker(chips, message);
    FlushedRunIsCaptured(chips, rest);
    CodedResponseIsAccepted(body, chips, chips + [0x00], command);
  }
}
