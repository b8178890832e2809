# SiliCa in Dafny

SiliCa is firmware for a microcontroller that acts as a contactless card of
the JIS X 6319-4 (FeliCa) family. It comes with `write.py`, a host tool that
writes the card's system blocks through a reader. This project models the
parts of both that decide what goes over the air and into the card's memory:

- **the data-link layer** (`silica.cpp`).
  - Capturing a frame from the sampled chip stream.
  - Finding the sync pattern's phase and polarity.
  - Manchester decoding with `extract_byte`, and the length and EDC (CRC-16/XMODEM) checks.
  - The Manchester encoding of a response with its header and trailer.
  - The main loop.
- **the application layer** (`main.cpp`):
  - the commands `polling`, `request_service`, `read_without_encryption`,
    `write_without_encryption`, `search_service_code` and `request_system_code`;
  - the block-list parser, the command dispatcher `process` and the error log `save_error`.
- **the host tool** (`write.py`): `build_data_for_command` and the
  parameters of `write_system_block`, with how the card reacts to the
  command the tool sends.

Modules, one per file:

| file | module | form |
|---|---|---|
| `octets.dfy` | `Octets` | bytes, `Overwrite` (a `memcpy` into a sequence), `Memcpy` on arrays |
| `checksum.dfy` | `Checksum` | CRC-16/XMODEM as a function; `crc16` as a loop |
| `linecode.dfy` | `LineCode` | the chip-level Manchester code: `get_shift_from_sync`, `extract_byte`, `transmit_byte` |
| `frames.dfy` | `DataLink` | the receive path as functions over the input stream, and the class `Transceiver` with `rx_buf` and `command` as arrays whose methods follow the loops of `capture_frame`, `find_sync_index` and `receive_command`; `send_response` |
| `application.dfy` | `Application` | the card's memory as a value (`CardState`: RAM copies and EEPROM) and every command as a function of it, with the lemmas about them |
| `card.dfy` | `Handlers` | class `Card`: the RAM arrays `idm`, `pmm`, `service_code`, `system_code`, `response` and the EEPROM. Each command handler is a method with the source's loops, proved equal to its function in `Application` |
| `firmware.dfy` | `Firmware` | `loop`: receive, process, then answer or log |
| `writer.dfy` | `Writer` | `write.py`: what it builds and sends, and what the card does with it |

The SPI peripheral is a sequence of bytes. `input` holds what successive
transfers return, and a transmission is the sequence of bytes clocked out.
The EEPROM is a value inside the card's state. `eeprom_read_block` and
`eeprom_update_block` are copies into it and out of it.

## Model

| member | source | states |
|---|---|---|
| Octets.Overwrite | src/1_1/src/main.cpp:86-87 | copying `src` into a buffer at `at` puts `src` at `[at, at+|src|)` and keeps every other byte |
| Octets.Memcpy | src/1_1/src/main.cpp:280 | the array copy leaves `dst` equal to `Overwrite` of its old contents |
| Checksum.BigEndian | src/1_1/src/silica.cpp:369 | the received EDC's high byte is the first trailer byte and its low byte the second |
| Checksum.Crc16 | src/1_1/src/silica.cpp:55-61 | the loop returns the CRC-16/XMODEM of `buf[0, len)`, and 0 when `len` is not positive |
| Checksum.EdcAccepted | src/1_1/src/silica.cpp:371 | `(calculated ^ received) <= 1` holds exactly when the trailer equals the CRC or differs from it only in the last bit |
| Checksum.TrailerResidue | src/1_1/src/silica.cpp:429-430 | feeding the CRC register its own value, high byte first, brings it back to zero |
| Checksum.CrcOfFramedMessageIsZero | src/1_1/src/silica.cpp:416-430 | a message followed by its CRC, high byte first, has CRC zero |
| Checksum.CrcCheckValue | src/1_1/src/silica.cpp:55-61 | the CRC of the ASCII digits "123456789" is 31C3, the CRC-16/XMODEM check value |
| LineCode.ExtractByteReadsEveryOtherChip | src/1_1/src/silica.cpp:162-320 | `extract_byte` at phase `shift` makes chip `j` of the result chip `shift + 2j` of the 24-chip window |
| LineCode.GetShiftFromSyncFindsFirstMatch | src/1_1/src/silica.cpp:108-134 | the phase returned is the first of the eight whose signature matches under its mask; -1 means none matches |
| LineCode.PickSync | src/1_1/src/silica.cpp:144-155 | a decision is taken exactly when the two phases differ; the larger one wins, and the polarity is inverted exactly when the complemented phase is larger |
| LineCode.SyncAtComplement | src/1_1/src/silica.cpp:142-155 | complementing the sampled pair keeps the decision's phase and flips its polarity |
| LineCode.LowShiftsIgnoreThirdByte | src/1_1/src/silica.cpp:166-201 | phases 0 and 1 never read `data3` |
| LineCode.ManchesterTableCodesNibbles | src/1_1/src/silica.cpp:400 | every entry of `table` codes bit `3-k` of its nibble as the chip pair `2k, 2k+1`: the chips are the bit, then its complement |
| LineCode.TransmittedByteDecodes | src/1_1/src/silica.cpp:398-404 | the two chip bytes sent for `x` decode back to `x`, at phase 0 and at phase 1 inverted |
| LineCode.SyncFoundAtEveryPhase | src/1_1/src/silica.cpp:138-158 | at every sampling phase, the pair holding the chips of sync byte B2 gives `find_sync_index` that phase and polarity, in both polarities of the signal |
| LineCode.NoSyncBeforeHeader | src/1_1/src/silica.cpp:13 | the chips of the preamble byte 00, and its boundary with the sync byte, never look like a sync at any phase |
| DataLink.CaptureFrom | src/1_1/src/silica.cpp:65-90 | a captured frame is longer than 16 bytes, fits `rx_buf`, and ends at or before the end of the input; too long means 0x220 bytes without an accepted marker |
| DataLink.CaptureIsMarkerDelimited | src/1_1/src/silica.cpp:65-90 | a captured frame is the marker-free run that ends with the marker byte and starts right after the previous marker or at the start of the input |
| DataLink.CaptureSkipsRun | src/1_1/src/silica.cpp:68-86 | a marker-free run that fits the buffer is stored whole |
| DataLink.FirstSyncIsFirst | src/1_1/src/silica.cpp:138-158 | the offset found shows the reported phase and polarity, and no earlier offset shows any |
| DataLink.DecodeFrom | src/1_1/src/silica.cpp:349-357 | the decode loop yields one byte per two chip bytes and stops within two bytes of the frame's end |
| DataLink.Judge | src/1_1/src/silica.cpp:334-381 | the command buffer always keeps its size, and the receive path's verdict and buffer are given for every captured frame |
| DataLink.Receive | src/1_1/src/silica.cpp:324-382 | a received command is a captured frame, and it consumes exactly what the capture consumed |
| DataLink.Transceiver.constructor | src/1_1/src/silica.cpp:16 | `rx_buf` and `command` start zeroed |
| DataLink.Transceiver.CaptureFrame | src/1_1/src/silica.cpp:65-90 | the loop's outcome is `CaptureFrom`. A captured frame is the last `length` input bytes before the end position, at the front of `rx_buf`, with the rest of `rx_buf` kept |
| DataLink.Transceiver.FindSyncIndex | src/1_1/src/silica.cpp:138-158 | returns the first sync's offset, phase and polarity in `rx_buf[0, rx_len)`, or -1 when there is none |
| DataLink.Transceiver.DecodeInto | src/1_1/src/silica.cpp:348-357 | `command` becomes its old contents overwritten at the front with the decoded bytes, and `index` is their number |
| DataLink.Transceiver.CheckFrame | src/1_1/src/silica.cpp:359-381 | a length error when `command[0] + 2` exceeds the decoded count; otherwise an EDC error exactly when the trailer fails `EdcAccepted` against the CRC of `command[0, len)` |
| DataLink.Transceiver.InterpretFrame | src/1_1/src/silica.cpp:334-381 | the verdict and the new `command` are `Judge` of the captured frame and the old `command` |
| DataLink.Transceiver.ReceiveCommand | src/1_1/src/silica.cpp:324-382 | the outcome and the new `command` are `Receive` of the input and the old `command` |
| DataLink.Encode | src/1_1/src/silica.cpp:398-404 | every byte becomes two chip bytes |
| DataLink.EncodeAppend | src/1_1/src/silica.cpp:420-430 | encoding the header, the body and the trailer one after another is encoding them joined |
| DataLink.Trailer | src/1_1/src/silica.cpp:416-430 | the trailer read big-endian is the CRC of the body |
| DataLink.Transmission | src/1_1/src/silica.cpp:408-433 | the transmission starts and ends with the two flush bytes and carries two chip bytes for each header, body and trailer byte |
| DataLink.TransmitAll | src/1_1/src/silica.cpp:421-426 | the loop sends exactly the encoding of the bytes, in order |
| DataLink.SendResponse | src/1_1/src/silica.cpp:408-433 | nothing for a null response, otherwise the transmission of `response[0, response[0])` |
| DataLink.CodedHeaderSync | src/1_1/src/silica.cpp:138-158 | in a received frame that starts with the coded header, the first sync is at offset 12, phase 1, inverted |
| DataLink.DecodesCodedMessage | src/1_1/src/silica.cpp:345-357 | skipping the sync and decoding a coded message at phase 1 inverted gives back the message after its header |
| DataLink.FlushedRunIsCaptured | src/1_1/src/silica.cpp:65-90 | a coded frame between flush bytes is captured whole with its closing marker |
| DataLink.TrailedBodyPassesChecks | src/1_1/src/silica.cpp:359-379 | a body whose first byte is its length, followed by its trailer, passes the length and EDC checks |
| DataLink.GoodFrameIsAccepted | src/1_1/src/silica.cpp:334-381 | a frame synchronised at offset 12 that decodes to a body and its trailer is accepted, with that body at the front of `command` |
| DataLink.TransmissionIsReceived | src/1_1/src/silica.cpp:324-433 | the transmission of a response, fed to the receiver, is received: the command buffer holds the body and its trailer |
| Application.Initialize | src/1_1/src/main.cpp:34-41 | the RAM copies of IDm, PMm, service and system codes equal the EEPROM's |
| Application.Status | src/1_1/src/main.cpp:173-175 | an error answer has length 12, status FF and the given code, with every other byte kept |
| Application.SystemIndexIsFirstMatch | src/1_1/src/main.cpp:46-60 | the search finds the first entry, before any unused one, that matches with FF as a wildcard byte; every entry up to and including the one found is in use; -1 means no such entry |
| Application.PollingSystem | src/1_1/src/main.cpp:62-66 | a request for FFFF always answers with system index 0 |
| Application.WithSystemIndex | src/1_1/src/main.cpp:89-93 | the IDm's first byte keeps its low nibble and carries the system index in its top nibble |
| Application.Polling | src/1_1/src/main.cpp:43-108 | polling answers exactly when a system index is found and the request code is at most 2; when it does not, only the length byte may change |
| Application.PollingAnswerContents | src/1_1/src/main.cpp:71-93 | the answer has length 18 or 20, code 01, the IDm with the system index in the top nibble, and the PMm |
| Application.PollingAnswerRequest | src/1_1/src/main.cpp:95-105 | request 1 adds the matched system code, request 2 adds 00 01, request 0 adds nothing; the rest of the buffer is kept |
| Application.RequestServiceAnswer | src/1_1/src/main.cpp:110-132 | answers exactly for a command of at least 11 bytes asking for 1 to 32 nodes, with length 11+2n, the node count and key version 0000 per node; the rest is kept |
| Application.ParseBlockList | src/1_1/src/main.cpp:134-160 | a successful parse takes 2 to 3 bytes per element and yields one block number per element |
| Application.ParseEncodedBlockList | src/1_1/src/main.cpp:134-160 | parsing the encoding of any list of 2- and 3-byte elements gives back their block numbers and the encoding's length |
| Application.ReadBlock | src/1_1/src/main.cpp:235-308 | a block is refused exactly outside 00-0F, E0-E1 and 81-92 except 89; blocks 0-11 read their stored 16 bytes |
| Application.ReadBlockContents | src/1_1/src/main.cpp:235-308 | blocks 12-15 read zeros. E0 and E1 read the two halves of the error log. 8A-8F leave the slot alone. ID reads the IDm, 00 78 and zeros. D_ID reads the IDm and the PMm. SER_C and SYS_C read their tables padded with zeros. MC reads FF FF FF 00 FF and zeros. MAC, CKV, CK, WCNT, MAC_A and STATE read zeros |
| Application.LoadBlocks | src/1_1/src/main.cpp:233-317 | the block loop succeeds exactly when every block from `i` on is valid |
| Application.LoadedSlot | src/1_1/src/main.cpp:233-317 | after a successful loop, slot `k` of the answer holds what block `nums[k]` reads as |
| Application.ReadAnswer | src/1_1/src/main.cpp:162-327 | answers exactly when the length is at least 16. An accepted read answers length 13+16n, status 00 00, the count and each block in its slot. Any other read answers status FF with A1, A2, A6 or A8 |
| Application.AcceptedReadAnswer | src/1_1/src/main.cpp:162-327 | an accepted read answers length 13+16n, status 00 00, the count and each block in its slot |
| Application.ReadStatus | src/1_1/src/main.cpp:162-316 | for a command of 16 bytes or more, the error code follows the order of the checks. A1 when the command names other than one service. Else A6 for a service that is neither listed nor FFFF, whatever the block count. Else A2 for a count outside 1-12. Else A6 for a malformed block list. Else A8 when some listed block is invalid |
| Application.AcceptedReadLoads | src/1_1/src/main.cpp:232-326 | an accepted read answers the buffer its block loop leaves, with length, status and count filled in |
| Application.StoreBlock | src/1_1/src/main.cpp:374-459 | a block is accepted exactly when it is writable. Blocks 0-11 store their 16 bytes of data and no other data block changes. The error log is kept |
| Application.StoreBlocks | src/1_1/src/main.cpp:371-460 | the block loop succeeds exactly when every block from `i` on is writable; the error log is kept |
| Application.StoredBlock | src/1_1/src/main.cpp:372-382 | a data block holds the bytes of the last element that names it |
| Application.StoreBlocksFrameUntil | src/1_1/src/main.cpp:371-460 | when the loop stops at the first unwritable block `f`, a data block not named before `f` keeps its bytes |
| Application.StoredBlockBeforeFailure | src/1_1/src/main.cpp:371-460 | when the loop stops at the first unwritable block `f`, a data block named at `k < f`, and not named again before `f`, holds the 16 bytes sent for element `k` |
| Application.StoredBlockThenKept | src/1_1/src/main.cpp:371-460 | the block written at step `k` survives the steps up to the failing block `f` |
| Application.RefusedWriteKeepsEarlierBlocks | src/1_1/src/main.cpp:329-468 | a write refused with A8 keeps the writes before the first unwritable block: such a block reads back the data sent for it |
| Application.StoreBlockEffects | src/1_1/src/main.cpp:400-453 | RC, STATE and MAC_A change nothing. A single-block write of D_ID sets the IDm from bytes 16-23 and the PMm from bytes 24-31. SER_C and SYS_C set their table from bytes 16-23. Each goes to RAM and EEPROM alike and reads back what was sent |
| Application.WriteStatus | src/1_1/src/main.cpp:337-468 | for a command of 32 bytes or more: A1 when other than one service; else A2 for a count outside 1-12; else A6 for a malformed block list; else no answer when the length is not 14 + list size + 16n; else A8 when some block is unwritable, with the memory the block loop leaves |
| Application.WriteAnswer | src/1_1/src/main.cpp:329-468 | answers exactly for length ≥ 32 whose length agrees with a well-formed block list. Status 00 00 for an accepted write, FF with A1/A2/A6/A8 otherwise. Memory changes only in an answered write that succeeds or fails with A8 |
| Application.WrittenBlockReadsBack | src/1_1/src/main.cpp:372-382 | after an accepted write, reading a data block it names yields the 16 bytes sent for the last element naming it |
| Application.SearchServiceCodeAnswer | src/1_1/src/main.cpp:470-495 | length 12 and either the entry at `index` (when it exists and is in use) or FF FF; a reported code is one a read finds in the table |
| Application.SystemCount | src/1_1/src/main.cpp:499-512 | the count is the number of entries in use before the first unused one |
| Application.RequestSystemCodeAnswer | src/1_1/src/main.cpp:497-517 | lists the codes in use up to the first unused entry, in table order, with their count and length 11+2n; answers exactly when entry 0 is in use |
| Application.ListedSystemsAnswerPolling | src/1_1/src/main.cpp:497-517 | the card answers polling for every system code `request_system_code` lists |
| Application.ErrorLength | src/1_1/src/main.cpp:617-619 | the logged length is the command's length, capped at 32 |
| Application.SaveError | src/1_1/src/main.cpp:615-622 | the error log starts with the command up to the logged length, keeps its other bytes, and nothing else changes |
| Application.ProcessIgnoresOtherCards | src/1_1/src/main.cpp:544-548 | a command other than polling and echo naming another IDm gets no answer and changes nothing |
| Application.ProcessLengthGates | src/1_1/src/main.cpp:566-605 | Request Response and Request System Code are answered only at length 10, Search Service Code only at length 12. Request Response answers length 11 and mode 00, and none of the three changes memory |
| Application.ProcessUnknownCodes | src/1_1/src/main.cpp:551-612 | an addressed command with an odd code, code 10 or any other unhandled code gets no answer and leaves memory as it was |
| Application.ProcessSavesReadErrors | src/1_1/src/main.cpp:574-583 | an answered read with a non-zero status is logged by `save_error`; an answered read with status 00 changes nothing |
| Application.ProcessEchoes | src/1_1/src/main.cpp:537-541 | echo answers the command itself up to its length byte and keeps the rest |
| Application.ProcessKeepsMirror | src/1_1/src/main.cpp:519-613 | the RAM copies stay equal to the EEPROM. Only reads and writes change the memory, and a read changes only the error log |
| Application.ProcessAnswerHeader | src/1_1/src/main.cpp:554-558 | every answer to an addressed command carries the command code plus one and the IDm the command named |
| Application.Process | src/1_1/src/main.cpp:519-613 | the state stays well formed and the response keeps its size |
| Handlers.Card.constructor | src/1_1/src/main.cpp:15-32 | the card's arrays are fresh and the response buffer starts zeroed |
| Handlers.Card.Initialize | src/1_1/src/main.cpp:34-41 | the card's state becomes `Application.Initialize` of the EEPROM |
| Handlers.Card.FindSystem | src/1_1/src/main.cpp:46-60 | the search loop returns the first matching entry as `SystemIndexFrom` states |
| Handlers.Card.Polling | src/1_1/src/main.cpp:43-108 | the answer and the new response buffer are `Application.Polling` |
| Handlers.Card.RequestService | src/1_1/src/main.cpp:110-132 | the answer and the new response buffer are `Application.RequestService` |
| Handlers.Card.FindService | src/1_1/src/main.cpp:185-203 | the service loop finds the target exactly when it is listed |
| Handlers.Card.LookUpBlock | src/1_1/src/main.cpp:235-308 | the block read is `ReadBlock` of the state |
| Handlers.Card.ReadBlockInto | src/1_1/src/main.cpp:235-316 | the block is valid exactly when `ReadBlock` accepts it, and its bytes go to slot `i` |
| Handlers.Card.LoadBlocks | src/1_1/src/main.cpp:232-317 | the loop's outcome and buffer are `Application.LoadBlocks` |
| Handlers.Card.ReadWithoutEncryption | src/1_1/src/main.cpp:162-327 | the answer and the new response buffer are `Application.ReadWithoutEncryption` |
| Handlers.Card.StoreBlock | src/1_1/src/main.cpp:374-459 | the outcome and the new state are `Application.StoreBlock` |
| Handlers.Card.StoreBlocks | src/1_1/src/main.cpp:371-460 | the loop's outcome and the new state are `Application.StoreBlocks` |
| Handlers.Card.WriteWithoutEncryption | src/1_1/src/main.cpp:329-468 | the answer, the new state and the new response buffer are `Application.WriteWithoutEncryption` |
| Handlers.Card.SearchServiceCode | src/1_1/src/main.cpp:470-495 | the new response buffer is `Application.SearchServiceCode` |
| Handlers.Card.CopySystemCodes | src/1_1/src/main.cpp:499-512 | the loop copies the codes in use up to the first unused entry and counts them |
| Handlers.Card.RequestSystemCode | src/1_1/src/main.cpp:497-517 | the answer and the new response buffer are `Application.RequestSystemCode` |
| Handlers.Card.SaveError | src/1_1/src/main.cpp:615-622 | the new state is `Application.SaveError` |
| Handlers.Card.Process | src/1_1/src/main.cpp:519-613 | the outcome, the new state and the new response buffer are `Application.Process` |
| Handlers.Card.Dispatch | src/1_1/src/main.cpp:560-612 | the switch on the command code is `Application.Dispatch` |
| Handlers.ParseBlockListInto | src/1_1/src/main.cpp:134-160 | the loop returns the parsed size and, on success, writes the block numbers into `block_nums[0, n)` |
| Handlers.ParseElement | src/1_1/src/main.cpp:139-156 | one element is 2 bytes after 80, 3 bytes after 00 with a zero third byte, and otherwise refused; its block number is appended |
| Handlers.ProcessRejects | src/1_1/src/main.cpp:544-552 | a command naming another IDm, or with an odd code, gets no answer and changes nothing |
| Handlers.SystemCodesAnswer | src/1_1/src/main.cpp:497-517 | the answer is the copied codes with length 11+2n and count n |
| Firmware.LoopPass | src/1_1/src/silica.cpp:517-538 | a pass with no command changes nothing and sends nothing |
| Firmware.Loop | src/1_1/src/silica.cpp:517-538 | one pass of `loop` on the two objects is `LoopPass` |
| Firmware.SentCommandIsProcessed | src/1_1/src/silica.cpp:517-523 | a frame coded as the transmitter codes it reaches `process` intact |
| Firmware.PassOfReceived | src/1_1/src/silica.cpp:519-530 | a pass over a received command is `process` on it, then `save_error` when it is not answered |
| Firmware.PassTransmitsResponse | src/1_1/src/silica.cpp:523-537 | a pass transmits exactly when it received a command that `process` answers, and what it sends is the transmission of that response's first `response[0]` bytes |
| Firmware.TransmittedResponseIsReceived | src/1_1/src/silica.cpp:408-433 | the card's transmission of a response buffer is accepted by a receiver of the same coding |
| Firmware.UnansweredCommandIsLogged | src/1_1/src/silica.cpp:524-529 | an unanswered command is in the error log up to the logged length |
| Writer.DecimalValue | write.py:54 | a single digit stands for its value |
| Writer.LeadingZero | write.py:53-54 | `int` ignores leading zeros |
| Writer.SwappedPairs | write.py:92-95 | swapping keeps the length |
| Writer.SwapPairs | write.py:92-95 | the loop returns the codes with the two bytes of each pair swapped |
| Writer.SwappedPair | write.py:92-95 | pair `k` comes out with its bytes swapped |
| Writer.SwapTwice | write.py:92-95 | swapping twice gives the codes back |
| Writer.BuildDataForCommand | write.py:49-100 | any result is 16 bytes for a block the tool knows |
| Writer.BuiltData | write.py:49-100 | per command kind, exactly when a result is given and what it holds: the numbered block with its 16 bytes; IDm with the given or default PMm; system codes as typed, service codes swapped, zero-padded; nothing for an unknown command |
| Writer.WriteSystemBlock | write.py:25-38 | the parameters are built exactly when the block fits a byte and the data is 16 bytes; the block check comes first; the data ends the 22 parameter bytes |
| Writer.WriteFrame | write.py:38 | the frame is 32 bytes with its length first, the write code, the IDm, then the parameters |
| Writer.PayloadParsedByCard | write.py:37-38 | the card reads the parameters as one service FFFF and one 2-byte element naming the block, with the data after it |
| Writer.Written | write.py:25-38 | the reference state after a write keeps the mirror and the log, and for a data block changes only that block, to the data |
| Writer.StoresWritten | write.py:37-38 | the card's block loop on the tool's element leaves exactly `Written` |
| Writer.WriteIsApplied | write.py:25-38 | a write sent to the card's IDm is answered with length 12 and status 00 00, and leaves the card in `Written` |
| Writer.PolledIdmAddresses | write.py:103-147 | the IDm of a polling answer addresses the card |
| Writer.TypedServiceCodesListed | write.py:82-97 | a service code typed most significant byte first is listed once the card holds the swapped block |
| Writer.ServiceWriteListsCodes | write.py:82-97 | after `ser` is written, a read naming any of the codes finds it |
| Writer.SystemWriteAnswersPolling | write.py:71-80 | after `sys` is written, the card answers polling for each code up to the first zero code |
| Writer.IdmWriteAnswersPolling | write.py:63-69 | after `idm` is written, the card's IDm and PMm are the ones given (the default PMm for 8 bytes), and polling answers with them |

## Left out

- The hardware setup (`setup`, clock, port and SPI configuration, the CCL register in `enable_transmit`), `main`, `test_response` and the microsecond delay before a polling answer. The flush in `enable_transmit` is modelled as its two bytes.
- The input stream is finite. Input that ends while a frame is incomplete is `InputExhausted` / `Exhausted`; the device would wait for more samples instead.
- Serial output (`Serial_print`, `print_packet`, `print_frame`, the messages of `write.py`): it has no effect on the card's state or on what is sent.
- `fuses.c`, `silica.h` and `read.py` are not part of this model.
- The reader side of `write.py`: the argument parser, `main`, `parse_hex_parameter` and lowercasing. The nfcpy framing in `send_cmd_recv_rsp` is taken to be `WriteFrame` (length, command code, IDm, parameters). Its answer handling and timeout are not modelled.
- Writer.IsDigits: `str.isdigit` accepts every Unicode decimal digit; the model accepts only ASCII `0`-`9`.
- `build_data_for_command` prints a message with each rejection. The model returns `None` alone.
- `write_system_block` raises `ValueError` on refused parameters. The model returns `Refused` with the reason instead.
- Firmware.Loop: one pass is modelled; the endless repetition of `loop` is not.
- Application.Process: a null command (the `nullptr` check of `process`) cannot arise, since `loop` calls `process` only with a received command.
- `eeprom_read_block` and `eeprom_update_block` are modelled as copies. EEPROM wear and write timing are not modelled.
- For the D_ID, SER_C and SYS_C blocks, a write copies from command offset 16 and not from the block's data position. This is modelled as written; it agrees with the data position whenever the block list has one 2-byte element, which is what `write.py` sends.
