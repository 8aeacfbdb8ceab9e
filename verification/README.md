# Verification of the DCS board access software

The software under `rculinux-2.0` connects a DCS board computer to a Readout Control Unit (RCU). This
project models its core in Dafny and proves what the core is relied on for.

- **Message buffer** (`Words`, `MsgHeader`, `Payload`, `Frames`, `FrameFormat`, `MessageBuffer`, `Transparency`,
  `DataModes`): frames in three header formats, block splitting, packing and swapping of data. `FrameFormat` says in
  numbers what the frames are, `DataModes` which data modes are sent and how the numbers in memory arrive. `RcuBus`
  and `Firmware` are a model of the other side, the firmware that executes a frame and the memories behind it, written
  after the description of the frame format in `dcscMsgBufferInterface.h`. The results are end to end: what is
  written is read back.
- **Checking encoded files** (`CheckMsg`, `Encoding`): everything that encode mode writes is split by the
  check into exactly the frames written.
- **Bus modes and flash** (`BusControl`, `FlashProtocol`, `FrameHelpers`, `BusSession`): the three bus modes in two
  register bits, the two ways to the flash memory, the helpers that enter and restore a mode, and runs that mix all calls.
- **Driver lock** (`DriverLock`): the re-entrant lock with its seize code, as interleaved steps of any
  number of processes; and the spin-lock sections as methods on the driver's variables.
- **Line editor** (`Display`, `EditModel`, `EditLaws`, `LineEditor`, `History`): an edit buffer changed in place whose
  incremental redisplay, scrolling included, keeps a terminal showing the text; an abstract editor that it
  refines, with laws that relate its commands to each other; the history ring.
- **Tools** (`MemoryGuard`, `GuardLaws`, `Crc`, `Tokenizer`, `AsciiData`, `Scanner`, `ScannerLaws`): two circular
  doubly linked lists on the heap, the checksum, the in-place tokenizer, the two-pass text converter and the argument
  scanner. `Errno` and `Common` hold what several modules share.

Operations that change state in place are methods on classes or arrays, proved against functions on values;
what the software promises is then proved about these functions. All modules verify with
`dafny verify dfyconfig.toml`.

## Assumptions

- `iSize` is at least 1, transfers do not wrap around the address space, the message in buffer has at most
  1026 words for the v2 formats (so that the word count fits its field), the result buffer 3 to 16383 words.
  The bus control and the flash module assume that encode mode is off, and what goes beyond a single call to the flash
  assumes a message in buffer of at least 6 words. A caller provides as many bytes as the transfer needs.
- `char` is unsigned, as on the ARM target, and words are little endian.
- Setting the execute bit is one step of the device: the loop that polls it is commented out
  (`dcscMsgBufferInterface.c:1185-1207`). The device answers a well-formed frame with exactly the words asked for,
  and its firmware knows the header format the host selects.
- A read-back claim for the memory space excludes the flash command and status registers (0xb000, 0xb100),
  which are not plain memory. How long a flash command keeps the flash busy is arbitrary.
- Encode mode is encode together with append: each frame is added to the file.
- In `DriverLock`, processes have non-zero identifiers, seize codes are positive, and each process is in one
  call at a time. A process may stay in the retry loop for any number of steps.
- In `LineEditor`, at least `gl_scroll + 3` columns are left behind the prompt and `gl_scroll` is at least 1.
  Lines consist of printable characters.
- In `AsciiData`, `sscanf` with the format `%x` reads blanks, a sign, an optional prefix and digits (section 7.21.6.2 of
  ISO/IEC 9899:2011); a number that is too large becomes the largest one, whatever its sign, and a prefix without digits
  reads as 0.
- In `MemoryGuard`, the system's `malloc` never returns a block that is in use.
- In `Scanner`, there are fewer than 256 definitions and no argument is longer than 65535 characters, so that
  the fields of a packed result do not overlap. The tables are acyclic: a nested scan is one of the arbitrary answers.

## What the proofs found

- In mode -2 with compression, the last item of an odd number of items is not swapped
  (`dcscMsgBufferInterface.c:1372-1377`). `SwappedHalfwordsNeedEvenCount` gives the exact condition.
- `getCmdResult` compares bits of the result with bits that no command byte has; the comment in the code suspects it.
  `CommandIsNotChecked` states that no command can be told from another. If the bits of the result are set, 0 is returned.
- `getErrorFromStatus` reports three of the four errors in the description of the status word as other ones
  (`ErrorsAreMixedUp`), and takes a status without an error number of its own for success (`GeneralErrorIsSuccess`).
- `rcuFlashWrite` and `rcuFlashRead` return success without having done anything in two cases: on the Actel path when
  the flash is busy at the start, and on either path when the request reaches beyond the last word but one, since the
  range test is strict. So the last word, at 0xffffff, can neither be written nor read (`LastWordIsNeverWritten`).
  `WriteSuccessIsRight` and `ReadSuccessIsRight` say exactly when a success result is right, for all requests and states;
  `WriteOfLastWord`, `ReadOfLastWord`, `WriteToBusyFlash` and `ReadOfBusyFlash` are instances. On the Actel path
  `rcuFlashRead` returns 1, where the documentation promises the number of words (`ReadIsCounted`).
- `dcscCheckMsgBlock` uses its size only to test whether it is positive. A broken word count can lead it
  outside its buffer, which is the verdict `OutsideBuffer`; `Escapes` is the exact condition on the buffer. Every frame
  that has been cut off does it (`TruncatedFrameEscapes`), and so does a file of one word (`OneWordEscapes`).
- After `lockReset` the branches of `seizeDriver` and `releaseDriver` that should never be reached can be reached
  (`ResetReachesTheBranch`), since a reset makes `lockDriver` return success without the lock; without a reset they
  cannot. `BranchReachableExactly` says from which states they can be reached without a further reset.
- `enterFlashState` returns a value that was never set when the bus already is in flash mode. `calculateStopAddress`
  leaves the flash mode for good when its register cannot be read.
- `hist_prev` steps beyond the oldest entry once, onto a slot that was never used; `hist_next` comes back from it.
- `gl_kill_1_word` needs one character more than the kill buffer has if and only if the line is completely full, consists
  of separators only, and the cursor is at its beginning (`WordEndAhead`, `OverrunExactly`). It takes 1023 blanks and two
  keys to get there (`BlanksOverrun`). What the program does after the overrun is not modelled.
- A line that has been too long for the terminal can stay shifted when it fits again, on every terminal that is narrower
  than the edit buffer (`ShortLineStaysShifted`); `UnshiftedExactly` says for each redisplay when it is not. Lines that have always been short
  are shown as they are (`Run`).
- A change of the history line does not reset the mark; `gl_wipe` and `gl_exch` cope with a mark behind the end,
  but exchanging twice then does not restore the mark.
- A word that runs into a comment sign is lost by `buildArgumentsFromCommandLine` (`CommentIsHarmless`, `LostWord`).
- When the scanner goes back to an earlier argument it continues in the text of the argument it was in. In the scan of
  `GoesBackAcrossArguments` it then scans that text once more; `ElsewhereExactly` says when a scan gets there.

## Model

| member | source | states |
|---|---|---|
| MsgHeader.FieldsReadBack | rculinux-2.0/dcscMsgBufferInterface/dcscMsgBufferInterface.c:303-319 | In all three header formats every field of the first word can be read back from it, whatever the other fields hold, as long as the values fit their widths |
| MsgHeader.SplitV2 | rculinux-2.0/dcscMsgBufferInterface/dcscMsgBufferInterface.c:139-189 | The bit positions and widths of the v2 and v2.2 tables do not overlap: each field is recovered from the sum of all |
| MsgHeader.SplitV1 | rculinux-2.0/dcscMsgBufferInterface/dcscMsgBufferInterface.c:112-137 | The same for the v1 table |
| MsgHeader.ReadsBackV1 | rculinux-2.0/dcscMsgBufferInterface/dcscMsgBufferInterface.c:112-137 | A v1 header gives back count (without the two words it adds), block number and command |
| MsgHeader.ReadsBackV2 | rculinux-2.0/dcscMsgBufferInterface/dcscMsgBufferInterface.c:139-164 | A v2 header gives back count, block number and command; format and mode are lost, as their fields have no width |
| MsgHeader.ReadsBackV2_2 | rculinux-2.0/dcscMsgBufferInterface/dcscMsgBufferInterface.c:166-190 | A v2.2 header gives back count, block number, command, data format and mode |
| MsgHeader.V2TableReadsV2_2 | rculinux-2.0/dcscMsgBufferInterface/dcscMsgBufferInterface.c:1879-1925 | Decoding with the v2 table finds count and block number of a v2.2 header word |
| MsgHeader.Assembled | rculinux-2.0/dcscMsgBufferInterface/dcscMsgBufferInterface.c:1398-1400 | Header, payload, marker and end marker placed at their positions in the buffer are a complete frame |
| RcuBus.StoreHeadFirst | rculinux-2.0/dcscMsgBufferInterface/dcscMsgBufferInterface.h:119-150 | Storing words one after the other at consecutive locations is storing them as a block |
| RcuBus.WriteItemsConcat | rculinux-2.0/dcscMsgBufferInterface/dcscMsgBufferInterface.h:119-150 | Writing a transfer in two portions at consecutive addresses is writing it at once |
| RcuBus.ReadItemsConcat | rculinux-2.0/dcscMsgBufferInterface/dcscMsgBufferInterface.h:119-150 | Reading a transfer in two portions gives the concatenated values and the same device |
| RcuBus.WriteItemsStores | rculinux-2.0/dcscMsgBufferInterface/dcscMsgBufferInterface.h:119-150 | A write to plain locations stores exactly its items there and touches neither the other memory nor anything else |
| RcuBus.ReadItemsLoads | rculinux-2.0/dcscMsgBufferInterface/dcscMsgBufferInterface.h:119-150 | A read from plain locations returns what is stored and changes nothing |
| RcuBus.WrittenIsReadBack | rculinux-2.0/dcscMsgBufferInterface/dcscMsgBufferInterface.c:1261-1532 | A block written to plain locations and read again is the same, and no other location has changed |
| Firmware.ExecuteBitRuns | rculinux-2.0/dcscMsgBufferInterface/dcscMsgBufferInterface.c:1183-1185 | Setting the execute bit in the control register runs the frame once and clears the bit again |
| Firmware.RunKeeps | rculinux-2.0/dcscMsgBufferInterface/dcscMsgBufferInterface.c:1159-1223 | Running a frame changes neither the control register nor the sizes of the buffers |
| Firmware.FrameIsPerformed | rculinux-2.0/dcscMsgBufferInterface/dcscMsgBufferInterface.h:82-115 | The firmware recognises every frame that is built by the host and performs its command on exactly its payload |
| Payload.UnpackPayload | rculinux-2.0/dcscMsgBufferInterface/dcscMsgBufferInterface.c:1321-1394 | For every data mode and either compression setting, what the firmware unpacks at position i of a frame is the item the caller meant, the documented exception of mode -2 aside |
| Payload.UnpackOne | rculinux-2.0/dcscMsgBufferInterface/dcscMsgBufferInterface.c:1324-1371 | One item per word: 8, 16 and 32-bit items arrive as they are, in mode -4 with their bytes reversed |
| Payload.UnpackTwo | rculinux-2.0/dcscMsgBufferInterface/dcscMsgBufferInterface.c:1361-1377 | Two 16-bit items per word arrive in order and, in mode -2, swapped; only a half-filled last word escapes the swap |
| Payload.UnpackThree | rculinux-2.0/dcscMsgBufferInterface/dcscMsgBufferInterface.c:1361-1377 | Three 10-bit items per word arrive in order, also from an incomplete last word |
| Payload.UnpackFour | rculinux-2.0/dcscMsgBufferInterface/dcscMsgBufferInterface.c:1361-1377 | Four bytes per word arrive in order, also from a zero-padded last word |
| Payload.ReversedBySwaps | rculinux-2.0/dcscMsgBufferInterface/dcscMsgBufferInterface.c:1366-1394 | The byte swap and the halfword swap of mode -4 together reverse the four bytes |
| Payload.CompleteHalves | rculinux-2.0/dcscMsgBufferInterface/dcscMsgBufferInterface.c:1366-1371 | The two halves of a copied word are the two 16-bit items at their byte offsets, in mode -2 with exchanged bytes |
| Payload.TenBitsOfRemainder | rculinux-2.0/dcscMsgBufferInterface/dcscMsgBufferInterface.c:1372-1377 | Copying one byte more than there are items is enough to carry the 10-bit items of an incomplete word |
| Payload.TwoPerWord | rculinux-2.0/dcscMsgBufferInterface/dcscMsgBufferInterface.c:1361-1377 | Item i of a frame lies in word i/2; only the last item of an odd transfer lies in an incomplete word |
| Frames.Blocks | rculinux-2.0/dcscMsgBufferInterface/dcscMsgBufferInterface.c:1303-1319 | The blocks are non-empty, not longer than the maximum, contiguous, and the last one ends exactly at the requested size |
| Frames.BlockFrameFits | rculinux-2.0/dcscMsgBufferInterface/dcscMsgBufferInterface.c:1303-1400 | Every frame of a multiple write fits the message in buffer and its word count fits the header field |
| Frames.BlockIsUnpacked | rculinux-2.0/dcscMsgBufferInterface/dcscMsgBufferInterface.c:1321-1394 | The firmware unpacks from a frame exactly the items of its block |
| Frames.BlockFrameIsPerformed | rculinux-2.0/dcscMsgBufferInterface/dcscMsgBufferInterface.c:1311-1413 | Executing the frame of a block writes exactly its items to address + offset |
| Frames.WriteContinues | rculinux-2.0/dcscMsgBufferInterface/dcscMsgBufferInterface.c:1311-1413 | The next block continues the transfer where the previous one ended |
| Frames.StartsOnWord | rculinux-2.0/dcscMsgBufferInterface/dcscMsgBufferInterface.c:1303-1306 | With compression every block starts at a word boundary of the caller's data |
| Frames.BlockStarts | rculinux-2.0/dcscMsgBufferInterface/dcscMsgBufferInterface.c:1303-1319 | Every block begins on a word boundary, and all but the last one fill whole words |
| Frames.ReadFramesStep | rculinux-2.0/dcscMsgBufferInterface/dcscMsgBufferInterface.c:1484-1526 | The frames of a multiple read are extended by exactly the frame of the next block |
| Frames.ReadFrameIsPerformed | rculinux-2.0/dcscMsgBufferInterface/dcscMsgBufferInterface.c:1500-1504 | Executing a read frame returns the words from its address on |
| Frames.SingleWriteIsPerformed | rculinux-2.0/dcscMsgBufferInterface/dcscMsgBufferInterface.c:1235-1241 | Executing a single write frame writes the one word |
| Frames.SingleReadIsPerformed | rculinux-2.0/dcscMsgBufferInterface/dcscMsgBufferInterface.c:1428-1433 | Executing a single read frame returns the one word |
| FrameFormat.HeaderV1 | rculinux-2.0/dcscMsgBufferInterface/dcscMsgBufferInterface.h:111-113 | A v1 header word in numbers: the command in the four highest bits, block number, and the number of words with two added |
| FrameFormat.HeaderV2 | rculinux-2.0/dcscMsgBufferInterface/dcscMsgBufferInterface.c:139-164 | A v2 header word in numbers: version 0xa, block number from bit 16, number of words from bit 6, command |
| FrameFormat.HeaderV22 | rculinux-2.0/dcscMsgBufferInterface/dcscMsgBufferInterface.h:101-107 | A v2.2 header word in numbers: version 0xb, flash mode in bit 26, data format from bit 24, block number from bit 16, number of words from bit 6, command |
| FrameFormat.Markers | rculinux-2.0/dcscMsgBufferInterface/dcscMsgBufferInterface.h:89-96 | The marker and the end marker in numbers, and what counts as one |
| FrameFormat.CommandFrames | rculinux-2.0/dcscMsgBufferInterface/dcscMsgBufferInterface.c:1232-1532 | The frames of single read, single write and multiple read, word by word, in the v2 formats |
| FrameFormat.CommandFramesV1 | rculinux-2.0/dcscMsgBufferInterface/dcscMsgBufferInterface.c:1232-1532 | The same in the v1 format |
| FrameFormat.WriteFrame | rculinux-2.0/dcscMsgBufferInterface/dcscMsgBufferInterface.c:1311-1400 | The frame of a multiple write, word by word: as many items to a word as the format bits say, behind address and number of items |
| FrameFormat.FullFramesFill | rculinux-2.0/dcscMsgBufferInterface/dcscMsgBufferInterface.c:1303-1319 | Every frame of a multiple write but the last one fills the message in buffer |
| FrameFormat.EnoughBlocks | rculinux-2.0/dcscMsgBufferInterface/dcscMsgBufferInterface.c:1484-1526 | There are just enough read requests, and every one but the last fills the result buffer |
| FrameFormat.CompressedPayloads | rculinux-2.0/dcscMsgBufferInterface/dcscMsgBufferInterface.c:1361-1377 | With compression the payload words, byte by byte, in each mode, zeros behind the last item included |
| FrameFormat.PlainPayloads | rculinux-2.0/dcscMsgBufferInterface/dcscMsgBufferInterface.c:1324-1394 | Without compression the payload words, byte by byte, in each mode, with the swaps of modes -2 and -4 |
| MessageBuffer.CommandIsNotChecked | rculinux-2.0/dcscMsgBufferInterface/dcscMsgBufferInterface.c:1046-1047 | The cross check of the command in the result compares disjoint bits: it cannot tell one command from another |
| MessageBuffer.ReplyIsAccepted | rculinux-2.0/dcscMsgBufferInterface/dcscMsgBufferInterface.c:1037-1080 | The host accepts the answer of the firmware to a well-formed frame and finds all its data words |
| MessageBuffer.BlockIsAnswered | rculinux-2.0/dcscMsgBufferInterface/dcscMsgBufferInterface.c:1402-1409 | After a write frame the result is 0 and the items are in the device |
| MessageBuffer.ReadIsAnswered | rculinux-2.0/dcscMsgBufferInterface/dcscMsgBufferInterface.c:1504-1511 | After a read frame the result is the number of words and they lie behind the two result words |
| MessageBuffer.MsgBuffer.constructor | rculinux-2.0/dcscMsgBufferInterface/dcscMsgBufferInterface.c:406-510 | Opening the device establishes the invariant; both buffer sizes are those given, answered by the driver, or the default; compression and flash access through the board are on exactly for firmware 2.2 and later |
| MessageBuffer.MsgBuffer.CheckState | rculinux-2.0/dcscMsgBufferInterface/dcscMsgBufferInterface.c:924-966 | The state test is exact in every bus mode, and always passes in encode mode |
| MessageBuffer.MsgBuffer.WriteToMsgInBuffer | rculinux-2.0/dcscMsgBufferInterface/dcscMsgBufferInterface.c:1127-1147 | The frame goes to the beginning of the message in buffer, or to the end of the file in encode mode |
| MessageBuffer.MsgBuffer.Transact | rculinux-2.0/dcscMsgBufferInterface/dcscMsgBufferInterface.c:1237-1253 | Sending a frame and fetching its result: nothing is fetched for a frame that was not executed |
| MessageBuffer.MsgBuffer.SendRcuCommand | rculinux-2.0/dcscMsgBufferInterface/dcscMsgBufferInterface.c:1159-1223 | A frame is executed exactly if the mode bit of its header matches the bus mode; otherwise nothing changes and the result is -EBADFD; in encode mode it is appended to the file |
| MessageBuffer.MsgBuffer.GetCmdResult | rculinux-2.0/dcscMsgBufferInterface/dcscMsgBufferInterface.c:1037-1080 | A positive result is the number of data words that lie behind the two result words, and never more than the result buffer holds; a negative one is one of five errors, and is returned for every status that has an error number; an answer in order gives its size less two; nothing is read in encode mode |
| MessageBuffer.CmdResultMeans | rculinux-2.0/dcscMsgBufferInterface/dcscMsgBufferInterface.c:1037-1080 | For every result: positive if and only if the comparison passes, the status is clear and the size is in range; an error if and only if the comparison passes and the status has an error number, or is clear with a size out of range; zero otherwise |
| MessageBuffer.ErrorsAreMixedUp | rculinux-2.0/dcscMsgBufferInterface/dcscMsgBufferInterface.c:1005-1029 | Of the four errors described for the status word only the missing marker is reported as described |
| MessageBuffer.GeneralErrorIsSuccess | rculinux-2.0/dcscMsgBufferInterface/dcscMsgBufferInterface.c:1005-1029 | A status with only the general error bit, which the description has for all errors, is taken for success |
| MessageBuffer.StatusErrors | rculinux-2.0/dcscMsgBufferInterface/dcscMsgBufferInterface.c:1005-1029 | The error for every status word in numbers: the highest of the five lowest bits decides, the others play no part |
| MessageBuffer.Choices | rculinux-2.0/dcscMsgBufferInterface/dcscMsgBufferInterface.c:406-510 | The header format for every version of the firmware, and both buffer sizes, in numbers |
| MessageBuffer.MsgBuffer.ReadResultBuffer | rculinux-2.0/dcscMsgBufferInterface/dcscMsgBufferInterface.c:976-1000 | The words behind the two result words are copied to the caller, and nothing else of the target changes |
| MessageBuffer.MsgBuffer.RcuSingleWriteExt | rculinux-2.0/dcscMsgBufferInterface/dcscMsgBufferInterface.c:1232-1256 | Writes the one word; in the wrong bus mode, or with a buffer that is too small, nothing changes |
| MessageBuffer.MsgBuffer.RcuSingleReadExt | rculinux-2.0/dcscMsgBufferInterface/dcscMsgBufferInterface.c:1424-1460 | Returns 1 and the word at the address; errors as for the write |
| MessageBuffer.MsgBuffer.ReadBlock | rculinux-2.0/dcscMsgBufferInterface/dcscMsgBufferInterface.c:1484-1526 | One read block fills its part of the target and nothing else |
| MessageBuffer.MsgBuffer.ReadNextBlock | rculinux-2.0/dcscMsgBufferInterface/dcscMsgBufferInterface.c:1484-1526 | The round of the read loop for block b extends what has been read by that block |
| MessageBuffer.MsgBuffer.RcuMultipleReadExt | rculinux-2.0/dcscMsgBufferInterface/dcscMsgBufferInterface.c:1465-1532 | For every size and result buffer size: returns n, the target holds the n words, nothing else in it has changed; in encode mode exactly the read frames are appended |
| MessageBuffer.MsgBuffer.StoreItems | rculinux-2.0/dcscMsgBufferInterface/dcscMsgBufferInterface.c:1332-1346 | The loop for uncompressed 8 and 16-bit data lays out one item per word |
| MessageBuffer.MsgBuffer.CopyWords | rculinux-2.0/dcscMsgBufferInterface/dcscMsgBufferInterface.c:1361-1377 | The bulk copy lays out the complete words, with their bytes exchanged on request |
| MessageBuffer.MsgBuffer.CopyPayload | rculinux-2.0/dcscMsgBufferInterface/dcscMsgBufferInterface.c:1361-1394 | The bulk copy, the zero-padded remainder and the halfword swap together lay out the packed words |
| MessageBuffer.MsgBuffer.SwapHalfwords | rculinux-2.0/dcscMsgBufferInterface/dcscMsgBufferInterface.c:1384-1393 | The in-place loop exchanges the two halves of every payload word and touches no other word |
| MessageBuffer.MsgBuffer.FillPayload | rculinux-2.0/dcscMsgBufferInterface/dcscMsgBufferInterface.c:1321-1394 | The payload of a block is the packed form of its items, for every mode |
| MessageBuffer.MsgBuffer.BuildBlock | rculinux-2.0/dcscMsgBufferInterface/dcscMsgBufferInterface.c:1311-1400 | The message in buffer begins with the complete frame of the block |
| MessageBuffer.MsgBuffer.WriteBlock | rculinux-2.0/dcscMsgBufferInterface/dcscMsgBufferInterface.c:1311-1413 | Sending a block writes its items, or appends its frame |
| MessageBuffer.MsgBuffer.WriteBlocks | rculinux-2.0/dcscMsgBufferInterface/dcscMsgBufferInterface.c:1301-1414 | The block loop transfers all items, or stops at the first block if the bus mode is wrong |
| MessageBuffer.MsgBuffer.RcuMultipleWriteExt | rculinux-2.0/dcscMsgBufferInterface/dcscMsgBufferInterface.c:1261-1419 | For every size, data mode and buffer size: all items are written at consecutive addresses and nothing else; unsupported modes, a wrong bus mode and a small buffer are refused without effect; in encode mode exactly the frames are appended |
| Transparency.CompressionIsTransparent | rculinux-2.0/dcscMsgBufferInterface/dcscMsgBufferInterface.c:1277-1414 | With and without compression the same items arrive, except in mode -2 with an odd number |
| Transparency.WriteBothWays | rculinux-2.0/dcscMsgBufferInterface/dcscMsgBufferInterface.c:1261-1419 | Two calls on equal devices, one with compression and one without, both succeed and leave the devices equal |
| Transparency.SwappedHalfwordsNeedEvenCount | rculinux-2.0/dcscMsgBufferInterface/dcscMsgBufferInterface.c:1366-1377 | In mode -2 compression is transparent for all data if and only if the number of items is even |
| Transparency.LoneHalfwordIsNotSwapped | rculinux-2.0/dcscMsgBufferInterface/dcscMsgBufferInterface.c:1372-1377 | The failing case: the single item 0x0001 arrives unswapped with compression and swapped without |
| Transparency.SwapOfBytesHasNoEffect | rculinux-2.0/dcscMsgBufferInterface/dcscMsgBufferInterface.c:1298-1300 | Mode -1 is mode 1 |
| Transparency.SwapOfWordsReverses | rculinux-2.0/dcscMsgBufferInterface/dcscMsgBufferInterface.c:1366-1394 | Mode -4 is mode 4 on words with reversed bytes |
| Transparency.WordsAreSentAsTheyAre | rculinux-2.0/dcscMsgBufferInterface/dcscMsgBufferInterface.c:1359-1371 | 32-bit words arrive unchanged |
| Transparency.WriteAndReadBack | rculinux-2.0/dcscMsgBufferInterface/dcscMsgBufferInterface.c:1261-1532 | A multiple write followed by a multiple read returns n and the items, for all legal buffer sizes, although the two split into different blocks; no location outside the transfer changes |
| Transparency.WordRoundTrip | rculinux-2.0/dcscMsgBufferInterface/dcscMsgBufferInterface.c:1549-1573 | For words: the buffer holds what was written |
| DataModes.SendAndRead | rculinux-2.0/dcscMsgBufferInterface/dcscMsgBufferInterface.c:1261-1532 | For every data mode that is sent: numbers laid out in memory as the mode says are written, read back and found in the buffer; bytes, halfwords, 10-bit items and words as they are, in mode -4 reversed |
| DataModes.SendReversed | rculinux-2.0/dcscMsgBufferInterface/dcscMsgBufferInterface.c:1366-1394 | Words in mode -4 arrive with their bytes reversed, with and without compression, for any buffer size |
| DataModes.ModesOneByOne | rculinux-2.0/dcscMsgBufferInterface/dcscMsgBufferInterface.c:1277-1300 | In message buffer mode a multiple write returns 0 if and only if the mode is one of 1, 2, 4, -1, -2, -4, or 3 with compression; each other mode has its error, and changes nothing |
| DataModes.ModesOfTheBus | rculinux-2.0/dcscMsgBufferInterface/dcscMsgBufferInterface.c:1159-1223 | With a v2.2 header a memory transfer succeeds exactly in message buffer mode and a flash transfer exactly in flash mode, where it stores its words in the flash |
| DataModes.SendToFlash | rculinux-2.0/dcscMsgBufferInterface/dcscMsgBufferInterface.c:2130-2305 | In flash mode, on either path, bytes, halfwords and words are stored in an idle flash and read back |
| CheckMsg.DcscCheckMsgBlock | rculinux-2.0/dcscMsgBufferInterface/dcscMsgBufferInterface.c:1879-1925 | A positive result r means that the first r words are a chain of marked blocks, all but the last with non-zero number, closed by an end marker; every such chain is found with its size; and the routine leaves its buffer if and only if following the counts needs a word beyond the end |
| CheckMsg.CheckMessageBlocks | rculinux-2.0/src/cmdInterpreter.c:781-795 | The loop accepts exactly the files that split into command sequences, and reports their sizes; the split is unique; otherwise it reports the sequences before the first one that is not correct, and is led outside the file exactly if following the counts from there is |
| CheckMsg.FrameIsChain | rculinux-2.0/dcscMsgBufferInterface/dcscMsgBufferInterface.c:1879-1925 | Every frame with a v2 or v2.2 header is a chain of one block, whatever its data words are |
| CheckMsg.SequenceIsChain | rculinux-2.0/dcscMsgBufferInterface/dcscMsgBufferInterface.h:85-100 | Any non-empty number of blocks, with non-zero numbers for all but the last one and an end marker behind them, is a chain, with whatever stands before and behind it |
| CheckMsg.ChainIsSequence | rculinux-2.0/dcscMsgBufferInterface/dcscMsgBufferInterface.h:85-100 | And nothing else is: every chain consists of such blocks and an end marker |
| CheckMsg.CheckSequence | rculinux-2.0/dcscMsgBufferInterface/dcscMsgBufferInterface.c:1879-1925 | The check of any such sequence of blocks gives its length |
| CheckMsg.HostBlock | rculinux-2.0/dcscMsgBufferInterface/dcscMsgBufferInterface.c:303-319 | A header built for any block number, payload and marker are such a block |
| CheckMsg.TwoBlocks | rculinux-2.0/dcscMsgBufferInterface/dcscMsgBufferInterface.c:1879-1925 | A concrete sequence: two blocks without payload, five words |
| CheckMsg.ChainSurvivesMore | rculinux-2.0/dcscMsgBufferInterface/dcscMsgBufferInterface.c:1879-1925 | Words before and behind a chain do not change that it is one |
| CheckMsg.FramesSplit | rculinux-2.0/src/cmdInterpreter.c:781-795 | Any concatenation of frames is split into exactly these frames |
| CheckMsg.NextPiece | rculinux-2.0/src/cmdInterpreter.c:781-795 | Piece k of a split begins at the sum of the sizes before it |
| CheckMsg.TruncatedFrameEscapes | rculinux-2.0/dcscMsgBufferInterface/dcscMsgBufferInterface.c:1879-1925 | A frame that has been cut off anywhere leads the check outside the file |
| CheckMsg.EscapesExactly | rculinux-2.0/dcscMsgBufferInterface/dcscMsgBufferInterface.c:1879-1925 | The check is led outside the buffer if and only if the words are the beginning of something longer that it would accept |
| CheckMsg.EscapeIsNoChain | rculinux-2.0/dcscMsgBufferInterface/dcscMsgBufferInterface.c:1879-1925 | What leads the check outside is no chain of any size |
| CheckMsg.OneWordEscapes | rculinux-2.0/src/cmdInterpreter.c:781-795 | A concrete file: one word that announces another one; no sequence is reported before the loop is led outside |
| Encoding.Issue | rculinux-2.0/dcscMsgBufferInterface/dcscMsgBufferInterface.c:1127-1147 | In encode mode every call appends exactly its frames and leaves the device alone |
| Encoding.EncodeAll | rculinux-2.0/dcscMsgBufferInterface/dcscMsgBufferInterface.c:1127-1147 | The file holds the frames of all calls in order |
| Encoding.FramesOfAreFrames | rculinux-2.0/dcscMsgBufferInterface/dcscMsgBufferInterface.c:1232-1532 | Every frame of every kind of call is accepted by the check routine |
| Encoding.AllFramesAreFrames | rculinux-2.0/dcscMsgBufferInterface/dcscMsgBufferInterface.c:1232-1532 | The same for every sequence of calls |
| Encoding.EncodeAndCheck | rculinux-2.0/src/cmdInterpreter.c:781-795 | For every sequence of single and multiple reads and writes, the check of the written file reports exactly the frames that were written |
| Encoding.FramesInOrder | rculinux-2.0/dcscMsgBufferInterface/dcscMsgBufferInterface.c:1127-1147 | The frames of two sequences of calls stand one behind the other, in the order of the calls |
| Encoding.EncodeOneOfEach | rculinux-2.0/dcscMsgBufferInterface/dcscMsgBufferInterface.c:1127-1147 | What encode mode writes for one call of each kind, word by word |
| BusControl.RcuBusControlCmdExt | rculinux-2.0/dcscMsgBufferInterface/dcscMsgBufferInterface.c:1933-2071 | Every command moves the bus mode along the documented transitions, keeps the other register bits and the invariant "select map bit implies direct bit"; a firmware reset changes the reset bit only; a direct change between flash and select map mode is refused with -EBADFD; the queries tell the mode, and every other result is the value of the register |
| BusControl.SwitchMode | rculinux-2.0/dcscMsgBufferInterface/dcscMsgBufferInterface.c:1943-2016 | The six commands that write the register, with both results |
| BusControl.EnterDirectMode | rculinux-2.0/dcscMsgBufferInterface/dcscMsgBufferInterface.c:1943-1989 | A direct mode is entered from the message buffer mode, confirmed if already active, and refused from the other direct mode |
| BusControl.LeaveDirectMode | rculinux-2.0/dcscMsgBufferInterface/dcscMsgBufferInterface.c:1958-2002 | A direct mode is left only if it is the active one |
| BusControl.EnterMsgBufMode | rculinux-2.0/dcscMsgBufferInterface/dcscMsgBufferInterface.c:2003-2011 | Message buffer mode is entered from every mode |
| BusControl.PulseReset | rculinux-2.0/dcscMsgBufferInterface/dcscMsgBufferInterface.c:2012-2016 | The reset pulse does not change the bus mode |
| BusControl.QueryMode | rculinux-2.0/dcscMsgBufferInterface/dcscMsgBufferInterface.c:2020-2028 | The queries tell the bus mode |
| BusControl.DirectBitSet | rculinux-2.0/dcscMsgBufferInterface/dcscMsgBufferInterface.c:1971-1989 | Setting only the direct bit ends in flash mode if and only if the select map bit was clear |
| BusControl.BothBitsSet | rculinux-2.0/dcscMsgBufferInterface/dcscMsgBufferInterface.c:1943-1957 | Setting both bits ends in select map mode |
| BusControl.BothBitsCleared | rculinux-2.0/dcscMsgBufferInterface/dcscMsgBufferInterface.c:2003-2011 | Clearing both bits ends in message buffer mode |
| BusControl.DirectModesAreSeparated | rculinux-2.0/dcscMsgBufferInterface/dcscMsgBufferInterface.c:1933-2071 | In every run of commands, between flash and select map mode there is a command that passes through message buffer mode |
| BusControl.BitsOfModes | rculinux-2.0/dcscMsgBufferInterface/dcscMsgBufferInterface.c:924-966 | The two bits of the control register that stand for the modes, in numbers |
| BusControl.RegisterValue | rculinux-2.0/dcscMsgBufferInterface/dcscMsgBufferInterface.c:1936-2070 | The number that is returned has the bits of the register |
| BusControl.ResetBit | rculinux-2.0/dcscMsgBufferInterface/dcscMsgBufferInterface.c:2012-2016 | Behind a reset pulse the reset bit is clear and all others are as before |
| BusControl.ThereAndBack | rculinux-2.0/dcscMsgBufferInterface/dcscMsgBufferInterface.c:1943-2028 | A direct mode that is entered is reported and left by its own command; the register is then as it was |
| BusControl.TheOtherOne | rculinux-2.0/dcscMsgBufferInterface/dcscMsgBufferInterface.c:1943-2002 | In one direct mode the command that leaves the other one has no effect, and the one that enters it is refused with -EBADFD |
| BusControl.HomeAgain | rculinux-2.0/dcscMsgBufferInterface/dcscMsgBufferInterface.c:2003-2016 | Message buffer mode is reached from everywhere by one command, and the reset leads nowhere |
| BusSession.Perform | rculinux-2.0/dcscMsgBufferInterface/dcscMsgBufferInterface.c:1232-2309 | A read, write or flash call leaves the bus mode as it is; a bus control command moves it as documented |
| BusSession.TraceSeparates | rculinux-2.0/dcscMsgBufferInterface/dcscMsgBufferInterface.c:1933-2071 | In every sequence of modes that follows from calls there is message buffer mode between the two direct modes |
| BusSession.PerformAll | rculinux-2.0/dcscMsgBufferInterface/dcscMsgBufferInterface.c:1232-2309 | In every run of bus control, message buffer and flash calls on a device, between flash and select map mode there is a moment in message buffer mode |
| FlashProtocol.WaitIdle | rculinux-2.0/dcscMsgBufferInterface/dcscMsgBufferInterface.c:2130-2220 | The status poll succeeds exactly if the flash becomes idle within 60 looks at the status, and changes nothing else |
| FlashProtocol.IsIdle | rculinux-2.0/dcscMsgBufferInterface/dcscMsgBufferInterface.c:2145-2146 | One look at the status tells whether the flash is busy; a buffer that is too small is an error |
| FlashProtocol.WriteIfIdle | rculinux-2.0/dcscMsgBufferInterface/dcscMsgBufferInterface.c:2145-2198 | A flash that is busy is left alone, with a result of success; an idle one is written up to the first late cycle |
| FlashProtocol.ReadIfIdle | rculinux-2.0/dcscMsgBufferInterface/dcscMsgBufferInterface.c:2248-2287 | The same for the read |
| FlashProtocol.SelectAddress | rculinux-2.0/dcscMsgBufferInterface/dcscMsgBufferInterface.c:2130-2220 | The two address registers, at 0xb101 and 0xb102, together select the flash location |
| FlashProtocol.WriteCycle | rculinux-2.0/dcscMsgBufferInterface/dcscMsgBufferInterface.c:2130-2220 | One word-by-word cycle stores its word at its address, or reports a time-out |
| FlashProtocol.WriteStateStep | rculinux-2.0/dcscMsgBufferInterface/dcscMsgBufferInterface.c:2130-2220 | Each cycle extends the written part by one word, until the first one that is too late |
| FlashProtocol.ActelWriteLoop | rculinux-2.0/dcscMsgBufferInterface/dcscMsgBufferInterface.c:2130-2220 | The loop stores the items up to the first cycle that exceeds the wait loop and leaves the other memory alone |
| FlashProtocol.ActelWrite | rculinux-2.0/dcscMsgBufferInterface/dcscMsgBufferInterface.c:2142-2215 | The Actel path leaves and re-enters flash mode around the protocol, in all cases |
| FlashProtocol.RcuFlashWrite | rculinux-2.0/dcscMsgBufferInterface/dcscMsgBufferInterface.c:2130-2220 | Empty requests, requests out of mode and out of range, and a buffer that is too small, each with its result, leave the flash as it was; otherwise the flash holds the items, or those before a time-out, or is unchanged if it was busy; the bus mode is as before |
| FlashProtocol.FlashPathsAgree | rculinux-2.0/dcscMsgBufferInterface/dcscMsgBufferInterface.c:2130-2220 | For 8, 16 and 32-bit data both paths, and both compression settings, leave the same flash contents, if the flash is idle and keeps within the wait loops |
| FlashProtocol.WriteSuccessIsRight | rculinux-2.0/dcscMsgBufferInterface/dcscMsgBufferInterface.c:2130-2220 | For every request and in every state, a success result of a write is right if and only if the request is neither out of range nor finds the flash busy on the Actel path, or the flash held the data before |
| FlashProtocol.WriteSucceeds | rculinux-2.0/dcscMsgBufferInterface/dcscMsgBufferInterface.c:2130-2220 | A write reports success if and only if it is dropped in one of these ways, or is in range and mode with a data mode that the path can handle and cycles that are in time; an empty request is -EINVAL, one out of mode -EACCES |
| FlashProtocol.DroppedExactly | rculinux-2.0/dcscMsgBufferInterface/dcscMsgBufferInterface.c:2137-2146 | Which requests are dropped, in numbers |
| FlashProtocol.InTimeExactly | rculinux-2.0/dcscMsgBufferInterface/dcscMsgBufferInterface.c:2168-2177 | In time means that no command keeps the flash busy for more than 60 looks |
| FlashProtocol.LateWrite | rculinux-2.0/dcscMsgBufferInterface/dcscMsgBufferInterface.c:2130-2220 | A write that times out has stored the words up to and with the late one, and no further |
| FlashProtocol.FlashRegisters | rculinux-2.0/dcscMsgBufferInterface/dcscMsgBufferInterface.c:2095-2120 | The registers of the flash controller and its two commands, in numbers |
| FlashProtocol.LastWordIsNeverWritten | rculinux-2.0/dcscMsgBufferInterface/dcscMsgBufferInterface.c:2137 | No request, in whatever state, changes the last word of the flash |
| FlashProtocol.WriteOfLastWord | rculinux-2.0/dcscMsgBufferInterface/dcscMsgBufferInterface.c:2137 | The failing case at 0xffffff: success is reported and the flash is unchanged, on either path |
| FlashProtocol.WriteToBusyFlash | rculinux-2.0/dcscMsgBufferInterface/dcscMsgBufferInterface.c:2145-2196 | The failing case at a busy flash: success is reported and the flash is unchanged |
| FlashProtocol.CyclesStopLate | rculinux-2.0/dcscMsgBufferInterface/dcscMsgBufferInterface.c:2130-2220 | The number of cycles performed ends with the first late one |
| FlashProtocol.ReadCycle | rculinux-2.0/dcscMsgBufferInterface/dcscMsgBufferInterface.c:2223-2305 | One read cycle returns the word at the address, or a time-out |
| FlashProtocol.ActelReadLoop | rculinux-2.0/dcscMsgBufferInterface/dcscMsgBufferInterface.c:2223-2305 | The target holds the words of the flash up to the first late cycle and is unchanged behind them |
| FlashProtocol.RcuFlashRead | rculinux-2.0/dcscMsgBufferInterface/dcscMsgBufferInterface.c:2223-2305 | Never changes the flash or the bus mode; the target holds the words, or those before a time-out, or is unchanged if the flash was busy, out of range or out of mode, and nothing else of it changes |
| FlashProtocol.ReadSuccessIsRight | rculinux-2.0/dcscMsgBufferInterface/dcscMsgBufferInterface.c:2223-2309 | For every request and in every state, when a read reports success, and that a success result is right if and only if the request is neither out of range nor finds the flash busy on the Actel path, or the target held the words before |
| FlashProtocol.ReadOfLastWord | rculinux-2.0/dcscMsgBufferInterface/dcscMsgBufferInterface.c:2236 | The failing case at 0xffffff: success is reported and the target is unchanged, on either path |
| FlashProtocol.ReadIsCounted | rculinux-2.0/dcscMsgBufferInterface/dcscMsgBufferInterface.c:2223-2305 | The result is the number of words if and only if the request is in mode and in range and, on the Actel path, for a single word that is reported as a success |
| FlashProtocol.LateRead | rculinux-2.0/dcscMsgBufferInterface/dcscMsgBufferInterface.c:2223-2305 | A read that times out has read the words before the late one |
| FlashProtocol.ReadIsRefused | rculinux-2.0/dcscMsgBufferInterface/dcscMsgBufferInterface.c:2223-2236 | An empty read is -EINVAL, one out of mode -EACCES, and neither changes anything |
| FlashProtocol.ReadOfBusyFlash | rculinux-2.0/dcscMsgBufferInterface/dcscMsgBufferInterface.c:2245-2292 | A concrete busy flash: one word is reported, and the target holds what it held before |
| FlashProtocol.ActelRead | rculinux-2.0/dcscMsgBufferInterface/dcscMsgBufferInterface.c:2243-2296 | The Actel path leaves and re-enters flash mode around the protocol, in all cases |
| FlashProtocol.ReadDirectly | rculinux-2.0/dcscMsgBufferInterface/dcscMsgBufferInterface.c:2237-2240 | The board path returns the words of the flash through the block protocol and touches nothing else of the target |
| FlashProtocol.FlashRoundTrip | rculinux-2.0/dcscMsgBufferInterface/dcscMsgBufferInterface.c:2130-2305 | What is written to the flash is read back, on either path |
| FrameHelpers.GetBusState | rculinux-2.0/src/framehelpers.c:143-163 | The three queries together identify the bus mode, as 1, 2 or 3, and change nothing |
| FrameHelpers.EnterFlashState | rculinux-2.0/src/framehelpers.c:115-140 | From every mode the bus ends in flash mode |
| FrameHelpers.RestoreBusState | rculinux-2.0/src/framehelpers.c:165-197 | From flash mode the old mode is entered again |
| FrameHelpers.CalculateStopAddress | rculinux-2.0/src/framehelpers.c:78-112 | The computed address, and the bus in flash mode afterwards whatever it was; if the register cannot be read, 1 is returned and the bus is left in message buffer mode |
| FrameHelpers.FlashSession | rculinux-2.0/src/framehelpers.c:78-197 | From every bus mode, entering flash mode, any sequence of flash writes and stop address computations, and restoring ends in the original mode; flash mode holds in between |
| DriverLock.Driver.CheckAndLockSection | rculinux-2.0/drivers/dcs_driver.c:353-371 | The section grants the lock to the owner or when it is free, refuses with -EPERM while seized with another code, and changes nothing when it refuses |
| DriverLock.Driver.UnlockSection | rculinux-2.0/drivers/dcs_driver.c:403-426 | The section releases one level for the owner only |
| DriverLock.Driver.LockReset | rculinux-2.0/drivers/dcs_driver.c:328-341 | Reset clears counter, owner and seize code |
| DriverLock.Driver.LockActivate | rculinux-2.0/drivers/dcs_driver.c:321-326 | Only the reset flag is cleared |
| DriverLock.GrantedExactly | rculinux-2.0/drivers/dcs_driver.c:353-426 | A call that is granted takes the lock once more for its process, and any other leaves it as it is; an unlock fails exactly if the lock belongs to another process |
| DriverLock.LockAfterReset | rculinux-2.0/drivers/dcs_driver.c:321-401 | For every run: after a reset and the activation, the three steps of a lock by any idle process, with any code, end with the lock acquired, whatever was locked and seized before |
| DriverLock.LockThenUnlock | rculinux-2.0/drivers/dcs_driver.c:382-426 | A lock that nothing stands in the way of is acquired in the next steps, once more if the process has it, and unlocking restores the state |
| DriverLock.NoEntry | rculinux-2.0/drivers/dcs_driver.c:353-426 | With another code than the one that is set the call is refused at once; while another process has the lock it goes back to sleep |
| DriverLock.SeizeThenRelease | rculinux-2.0/drivers/dcs_driver.c:436-479 | A whole call of seizeDriver sets the code and gives the lock back; a whole call of releaseDriver with this code clears it |
| DriverLock.ReleaseOfNothing | rculinux-2.0/drivers/dcs_driver.c:462-479 | A release without a code that is set changes nothing |
| DriverLock.CounterIsBalance | rculinux-2.0/drivers/dcs_driver.c:353-426 | In every interleaving the counter is the owner's successful locks minus unlocks since the last reset, every other balance is 0, the counter is positive exactly if there is an owner, and the underflow branch is never taken |
| DriverLock.StepKeepsCounter | rculinux-2.0/drivers/dcs_driver.c:353-426 | Every step keeps "positive exactly if there is an owner" and avoids the underflow branch |
| DriverLock.StepKeepsShare | rculinux-2.0/drivers/dcs_driver.c:353-426 | A step changes what the counter holds for a process exactly by its own successful lock or unlock, or by a reset |
| DriverLock.MutualExclusion | rculinux-2.0/drivers/dcs_driver.c:353-426 | No two processes hold the lock at the same time |
| DriverLock.InvariantIsKept | rculinux-2.0/drivers/dcs_driver.c:436-479 | Every step other than a reset keeps the agreement between program counters and seize code and avoids the "never get here" branch |
| DriverLock.InvariantHolds | rculinux-2.0/drivers/dcs_driver.c:436-479 | In reset-free runs the "never get here" branches of seizeDriver and releaseDriver are unreachable |
| DriverLock.SeizeIsExclusive | rculinux-2.0/drivers/dcs_driver.c:353-479 | In reset-free runs, once a code is set it stays until released; until then every attempt with another code is refused |
| DriverLock.StillSeized | rculinux-2.0/drivers/dcs_driver.c:353-479 | One step keeps a set code, unless it is its release |
| DriverLock.OnlyItsCodeReleases | rculinux-2.0/drivers/dcs_driver.c:462-479 | Only the matching code clears the seize code |
| DriverLock.ResetReachesTheBranch | rculinux-2.0/drivers/dcs_driver.c:328-341 | With a reset the branch that should never be reached is reached: a concrete run |
| DriverLock.SeizeWithoutLock | rculinux-2.0/drivers/dcs_driver.c:328-479 | After a reset a seize code is set although the lock is free |
| DriverLock.BranchNeedsReset | rculinux-2.0/drivers/dcs_driver.c:436-479 | Every run that reaches it contains a reset |
| DriverLock.BranchReachableExactly | rculinux-2.0/drivers/dcs_driver.c:328-479 | Without a further reset the branch can be reached from a state if and only if the reset flag is set, or a process looks at or writes the seize code without the lock, or has seen another code than is set now |
| DriverLock.BranchReachableAfter | rculinux-2.0/drivers/dcs_driver.c:328-479 | The same for the state after every run, resets included |
| DriverLock.SafeAgain | rculinux-2.0/drivers/dcs_driver.c:321-479 | When the lock is active again and no process is between its lock and the last access to the seize code, the branch cannot be reached |
| DriverLock.BasicHolds | rculinux-2.0/drivers/dcs_driver.c:321-479 | What the equivalence rests on holds in every run, resets included |
| DriverLock.SafeIsKept | rculinux-2.0/drivers/dcs_driver.c:353-479 | A step other than a reset does not make a safe state dangerous and does not reach the branch |
| DriverLock.WithAstray | rculinux-2.0/drivers/dcs_driver.c:353-479 | While a process is astray the others can free the lock and lead one of them into the branch |
| DriverLock.RunPrefix | rculinux-2.0/drivers/dcs_driver.c:353-479 | A prefix of a run is a run |
| Display.CursorInWindow | rculinux-2.0/src/Getline.c:1227-1236 | After the choice of the window position the cursor is inside the window, not on the left mark, and two columns are free at the right where they are needed |
| Display.UnshiftedExactly | rculinux-2.0/src/Getline.c:1227-1236 | A redisplay leaves the line unshifted if and only if the cursor and the columns to be kept free fit in |
| Display.ShortStaysUnshifted | rculinux-2.0/src/Getline.c:1227-1236 | An unshifted line that fits stays unshifted while the cursor is in it |
| Display.ShortLineIsShown | rculinux-2.0/src/Getline.c:1161-1285 | An unshifted line that fits is shown as it is, followed by blanks |
| Display.LongLineIsShown | rculinux-2.0/src/Getline.c:1161-1285 | A line that does not fit: the mark for what is hidden on the left, the text, and the mark for the rest |
| Display.NewShiftIsLeast | rculinux-2.0/src/Getline.c:1231-1236 | The window moves by whole scrolls, and no further than the cursor and the free columns need |
| Display.WindowOfTwentyColumns | rculinux-2.0/src/Getline.c:1227-1236 | A concrete window, around a line that ends at its right edge and one that is shifted |
| Display.WriteOneMore | rculinux-2.0/src/Getline.c:1264-1274 | Emitting one more character extends the written part of the line |
| Display.PlanFits | rculinux-2.0/src/Getline.c:1257-1275 | A redraw never reaches the last column |
| Display.PlanShowsText | rculinux-2.0/src/Getline.c:1161-1285 | A partial redraw according to a good plan makes a line that shows the old text show the new one, with its marks for hidden text |
| Display.PlannedRedraw | rculinux-2.0/src/Getline.c:1257-1275 | A planned redraw fits the screen, shows the text and passes the cursor position |
| Display.KeptBefore | rculinux-2.0/src/Getline.c:1243-1249 | Cells left of a redraw need no change |
| Display.KeptAfter | rculinux-2.0/src/Getline.c:1250-1256 | Cells right of a redraw need no change |
| Display.ScrollPlan | rculinux-2.0/src/Getline.c:1237-1242 | When the window moves the complete redraw is a good plan |
| Display.ChangePlan | rculinux-2.0/src/Getline.c:1243-1254 | When the text changes in the window, the redraw from the change on, limited by the extent, is a good plan and always takes place |
| Display.WriteShown | rculinux-2.0/src/Getline.c:1280-1283 | Moving right by emitting text that is on display does not change the line |
| EditModel.PrevWordStart | rculinux-2.0/src/Getline.c:1676-1714 | The nearest start of a word to the left, or the beginning |
| EditModel.NextWordStart | rculinux-2.0/src/Getline.c:1773-1788 | The nearest start of a word to the right, or the end |
| EditModel.NextWordEnd | rculinux-2.0/src/Getline.c:1739-1747 | The nearest end of a word to the right, or the end |
| EditModel.IsPrevWordStart | rculinux-2.0/src/Getline.c:1676-1714 | No other position has the property of the nearest start to the left |
| EditModel.IsNextWordStart | rculinux-2.0/src/Getline.c:1773-1788 | No other position has the property of the nearest start to the right |
| EditModel.IsNextWordEnd | rculinux-2.0/src/Getline.c:1739-1747 | No other position has the property of the nearest end to the right |
| EditModel.Next | rculinux-2.0/src/Getline.c:1019-1149 | The cursor stays within the text under every command |
| EditModel.KillThenYank | rculinux-2.0/src/Getline.c:1039-1068 | A text killed by any of the kill commands and yanked in insert mode is restored, exactly if the line was not full |
| EditModel.WipeThenYank | rculinux-2.0/src/Getline.c:1807-1826 | The same for the region between mark and point |
| EditModel.CutThenInsert | rculinux-2.0/src/Getline.c:1757-1770 | What is cut out of the text and inserted at the same place restores it |
| EditModel.TypeThenDelete | rculinux-2.0/src/Getline.c:1019-1132 | Deleting to the left takes back a typed character |
| EditModel.TransposeTwice | rculinux-2.0/src/Getline.c:1070-1084 | Transposing twice changes nothing |
| EditModel.ExchangeTwice | rculinux-2.0/src/Getline.c:1828-1839 | Exchanging twice changes nothing if and only if the mark is not behind the end of the text |
| EditLaws.TypeLeftDelete | rculinux-2.0/src/Getline.c:856-856 | Typing a character in insert mode, one step to the left and deleting under the cursor changes nothing |
| EditLaws.RightDeleteLeft | rculinux-2.0/src/Getline.c:868-872 | One step to the right and deleting to the left is deleting under the cursor |
| EditLaws.StepsToStart | rculinux-2.0/src/Getline.c:854-856 | Enough steps to the left lead to the beginning of the line, where there is nothing to delete on the left |
| EditLaws.StepsToEnd | rculinux-2.0/src/Getline.c:868-870 | Enough steps to the right lead to the end of the line, where there is nothing to delete under the cursor |
| EditLaws.WordMoves | rculinux-2.0/src/Getline.c:1676-1788 | The two word commands move the cursor, and nothing else, to the nearest place in front of a word |
| EditLaws.WordCharacters | rculinux-2.0/src/Getline.c:1676-1747 | A word consists of letters, digits and underscores |
| EditLaws.TypingText | rculinux-2.0/src/Getline.c:1019-1037 | In either mode a typed text stands where the cursor was, before or instead of what was there |
| EditLaws.YankIsTyping | rculinux-2.0/src/Getline.c:1042-1068 | What is yanked stands there as if it had been typed, in either mode, with the mark at its beginning |
| EditLaws.YankOver | rculinux-2.0/src/Getline.c:1056-1064 | In overwrite mode a yank that ends within the text is possible even if the line is full; beyond it the line must not become full |
| EditLaws.LoadIsTyping | rculinux-2.0/src/Getline.c:887-899 | A line of the history is what comes of typing it on the empty line |
| EditLaws.OverwriteTwice | rculinux-2.0/src/Getline.c:1032-1036 | In overwrite mode the character that was there takes the typed one back |
| EditLaws.ToggleTwice | rculinux-2.0/src/Getline.c:892-892 | Overwriting is switched on and off, and nothing else; drawing the line anew changes nothing in it |
| EditLaws.TransposeIs | rculinux-2.0/src/Getline.c:1070-1084 | Transposing is deleting the left one of two characters and typing it behind the right one |
| EditLaws.TransposeAtEnds | rculinux-2.0/src/Getline.c:1070-1084 | At the ends there is nothing to transpose |
| EditLaws.TypedIsWiped | rculinux-2.0/src/Getline.c:1807-1826 | A region that has been typed since the mark was set is killed, whatever it is |
| EditLaws.ExchangeThenWipe | rculinux-2.0/src/Getline.c:1807-1839 | Which end of the region the cursor is at does not matter |
| EditLaws.NoMark | rculinux-2.0/src/Getline.c:1807-1839 | Without a mark there is no region to kill and nothing to exchange |
| EditLaws.KillIsWipe | rculinux-2.0/src/Getline.c:1757-1826 | Killing to the end is killing the region from the cursor to the end; killing the line is going to its beginning and killing to its end |
| EditLaws.KillWordTakes | rculinux-2.0/src/Getline.c:1739-1752 | Killing a word takes the text from the cursor to the nearest end of a word, and nothing else |
| EditLaws.KillBackWordIs | rculinux-2.0/src/Getline.c:1703-1720 | Killing back a word is setting the mark, going back a word and killing the region |
| EditLaws.YankThenWipe | rculinux-2.0/src/Getline.c:1042-1068 | Killing the region takes back a yank |
| EditLaws.WindowStays | rculinux-2.0/src/Getline.c:1019-1149 | A command that finds nothing to do, or changes only the mark or the mode, leaves the window where it is |
| EditLaws.WindowOfDeletion | rculinux-2.0/src/Getline.c:1019-1136 | A deletion moves the window as the cursor key to the left, and typing as the one to the right |
| EditLaws.WindowOfOthers | rculinux-2.0/src/Getline.c:1070-1839 | So do killing the region, exchanging and transposing |
| EditLaws.WindowOfKillLine | rculinux-2.0/src/Getline.c:906-906 | Killing the line moves the window twice, as going to its beginning and killing to its end do |
| EditLaws.WindowOfRedrawLine | rculinux-2.0/src/Getline.c:1151-1159 | A line that is drawn anew is shown unshifted if and only if the cursor fits, wherever the window was before |
| EditModel.OverrunExactly | rculinux-2.0/src/Getline.c:1723-1770 | In every run of commands the kill buffer is overrun if and only if the run comes to a word kill with the cursor at the beginning of a full line of separators |
| EditModel.OverrunIs | rculinux-2.0/src/Getline.c:1723-1770 | No other command, and no other line, overruns it |
| EditModel.BlanksOverrun | rculinux-2.0/src/Getline.c:1723-1770 | The overrun is reached from the empty line: 1023 blanks, the beginning of the line, the word kill |
| EditModel.AfterConcat | rculinux-2.0/src/Getline.c:796-957 | A run of commands can be taken in two parts |
| EditModel.ShortRunIsUnshifted | rculinux-2.0/src/Getline.c:1227-1242 | In a run in which every line leaves one column free the window does not move |
| EditModel.ShortLineStaysShifted | rculinux-2.0/src/Getline.c:1227-1242 | On every terminal narrower than the edit buffer there is a run after which a line that leaves one column free is shown shifted: typing as many blanks as there are columns, and deleting one |
| EditModel.ShiftAfterConcat | rculinux-2.0/src/Getline.c:796-957 | The window position of a run can be taken in two parts |
| EditModel.FitsInsert | rculinux-2.0/src/Getline.c:1026-1031 | An insertion fulfils what the redisplay expects from its callers |
| EditModel.FitsOver | rculinux-2.0/src/Getline.c:1032-1036 | So does overwriting, with an extent |
| EditModel.FitsWithout | rculinux-2.0/src/Getline.c:1121-1136 | So does a deletion |
| EditModel.FitsSwap | rculinux-2.0/src/Getline.c:1070-1084 | So does a transposition |
| LineEditor.Editor.Backspaces | rculinux-2.0/src/Getline.c:1258-1259 | Moves the cursor left without touching the line |
| LineEditor.Editor.PutText | rculinux-2.0/src/Getline.c:1264-1265 | Emits a part of the buffer |
| LineEditor.Editor.DrawLine | rculinux-2.0/src/Getline.c:1260-1274 | The characters emitted by one redraw |
| LineEditor.Editor.Redraw | rculinux-2.0/src/Getline.c:1257-1275 | After the redraw the line shows the text in the window |
| LineEditor.Editor.SetWindow | rculinux-2.0/src/Getline.c:1227-1254 | The window position is the one of the rule for the old line and the new cursor; the window contains the cursor, and what is to be redrawn is a good plan |
| LineEditor.Editor.MoveTo | rculinux-2.0/src/Getline.c:1276-1284 | The final move leaves the line alone and puts the cursor where it was asked for |
| LineEditor.Editor.Refresh | rculinux-2.0/src/Getline.c:1211-1285 | The terminal shows the new text with the cursor at the requested position, limited to the text, at the window position of the rule |
| LineEditor.Editor.Fixup | rculinux-2.0/src/Getline.c:1161-1285 | The same for all kinds of calls, a new line included |
| LineEditor.Editor.OpenGap | rculinux-2.0/src/Getline.c:1027-1028 | The shifting loop moves the text with its terminator to the right |
| LineEditor.Editor.CloseGap | rculinux-2.0/src/Getline.c:1763-1768 | The shifting loop removes a part of the text; a region beyond the end removes nothing here |
| LineEditor.Editor.KillRegion | rculinux-2.0/src/Getline.c:1757-1770 | The region, cut off at the end of the text, moves to the kill buffer; the kill buffer is overrun exactly by a region of its whole size |
| LineEditor.Editor.SaveKill | rculinux-2.0/src/Getline.c:1757-1761 | The kill buffer holds the region up to the end of the text, terminated, unless it is overrun: exactly by as many characters as it has |
| LineEditor.Editor.InsertKill | rculinux-2.0/src/Getline.c:1048-1053 | The killed text is inserted at the cursor |
| LineEditor.Editor.OverwriteKill | rculinux-2.0/src/Getline.c:1055-1063 | The killed text replaces the text at the cursor, extending it if it is too short |
| LineEditor.Editor.AddChar | rculinux-2.0/src/Getline.c:1019-1037 | Typing refines the abstract editor in both modes, or the program ends because the buffer is full |
| LineEditor.Editor.YankKill | rculinux-2.0/src/Getline.c:1039-1068 | Yanking refines the abstract editor in both modes |
| LineEditor.Editor.TransposeChars | rculinux-2.0/src/Getline.c:1070-1084 | Transposing refines the abstract editor |
| LineEditor.Editor.Del | rculinux-2.0/src/Getline.c:1121-1136 | Both deletions refine the abstract editor |
| LineEditor.Editor.KillToEnd | rculinux-2.0/src/Getline.c:1138-1149 | Killing to the end refines the abstract editor |
| LineEditor.Editor.KillWholeLine | rculinux-2.0/src/Getline.c:906 | Killing the line is going to its beginning and killing to its end, with two redisplays |
| LineEditor.Editor.WipeRegion | rculinux-2.0/src/Getline.c:1807-1826 | Killing the region refines the abstract editor, also with a mark that has become stale |
| LineEditor.Editor.KillOneWord | rculinux-2.0/src/Getline.c:1723-1755 | The killed text ends at the nearest end of a word; the kill buffer is overrun exactly where the abstract editor says so |
| LineEditor.Editor.WordEndAhead | rculinux-2.0/src/Getline.c:1739-1747 | The two loops find the nearest end of a word, and ask for as many characters as the kill buffer has exactly on a full line of separators with the cursor at its beginning |
| LineEditor.Editor.KillBackOneWord | rculinux-2.0/src/Getline.c:1703-1720 | The killed text begins at the nearest start of a word |
| LineEditor.Editor.WordStartBehind | rculinux-2.0/src/Getline.c:1703-1716 | The two loops find the nearest start of a word to the left |
| LineEditor.Editor.BackOneWord | rculinux-2.0/src/Getline.c:1676-1700 | The cursor ends at the nearest start of a word to the left |
| LineEditor.Editor.ForwardOneWord | rculinux-2.0/src/Getline.c:1773-1788 | The cursor ends at the nearest start of a word to the right |
| LineEditor.Editor.ExchangeMark | rculinux-2.0/src/Getline.c:1828-1839 | Point and mark are exchanged, the point limited to the text |
| LineEditor.Editor.MoveCursor | rculinux-2.0/src/Getline.c:854-871 | Only the cursor moves, and it stays within the text |
| LineEditor.Editor.RedrawAll | rculinux-2.0/src/Getline.c:1151-1159 | The line appears on a new terminal line |
| LineEditor.Editor.LoadLine | rculinux-2.0/src/Getline.c:887-899 | A line of the history replaces the text |
| LineEditor.Editor.DoEdit | rculinux-2.0/src/Getline.c:796-957 | The keys that insert, delete or exchange characters, or replace the line, refine the abstract editor |
| LineEditor.Editor.DoKill | rculinux-2.0/src/Getline.c:796-957 | So do the keys that kill text, with the overrun where the abstract editor has it |
| LineEditor.Editor.DoMove | rculinux-2.0/src/Getline.c:796-957 | So do the keys that move the cursor |
| LineEditor.Editor.Do | rculinux-2.0/src/Getline.c:796-957 | Every key refines the abstract editor, and the terminal shows the result at the window position that follows from the line, the key and the window position before; the program ends, or overruns its kill buffer, exactly if the abstract editor does |
| LineEditor.Editor.ShortLineOnScreen | rculinux-2.0/src/Getline.c:1161-1285 | An unshifted line that leaves one column free is on the terminal as it is in the buffer, followed by blanks |
| LineEditor.Editor.Run | rculinux-2.0/src/Getline.c:796-957 | Over every sequence of commands, long lines that scroll included, buffer and cursor are those of the abstract editor, NUL is exactly at the end of the text, and the terminal shows the text, with its cursor at the position, from the window position that the run leads to; if all lines on the way leave one column free, it shows just the buffer followed by blanks; the program ends, or overruns its kill buffer, exactly if the abstract editor does |
| LineEditor.Editor.constructor | rculinux-2.0/src/Getline.c:785-795 | A new line shows nothing, unshifted |
| History.Ring.Add | rculinux-2.0/src/Getline.c:1350-1425 | The ring refines a list: blank lines and consecutive duplicates are dropped |
| History.Ring.Enter | rculinux-2.0/src/Getline.c:1361-1372 | Adding overwrites the oldest entry and keeps one slot empty |
| History.Ring.Prev | rculinux-2.0/src/Getline.c:1427-1444 | One step back, which may lead one step beyond the oldest entry |
| History.Ring.NextEntry | rculinux-2.0/src/Getline.c:1446-1460 | One step forward |
| History.Ring.GoBack | rculinux-2.0/src/Getline.c:1427-1444 | j steps back return the j most recent entries, newest first, up to min(n, 99), and then the empty string |
| History.EnterAndRecall | rculinux-2.0/src/Getline.c:1350-1444 | For lines that are not blank and differ from their neighbours: entered one after the other into a new history, they are recalled newest first, as many as 99, and then the empty string |
| History.NotEntered | rculinux-2.0/src/Getline.c:1350-1372 | A blank line is not entered, nor one that is the same as the last one, with or without its newline |
| History.BackAndForward | rculinux-2.0/src/Getline.c:1427-1460 | From every depth: one step forward undoes one step back, beyond the oldest entry too, unless there was no further step back |
| History.Ring.SearchBack | rculinux-2.0/src/Getline.c:1563-1594 | The search ends, at the nearest older entry that contains the string, or with nothing if there is none |
| History.Ring.SearchForw | rculinux-2.0/src/Getline.c:1596-1627 | The same towards newer entries |
| History.EntriesDiffer | rculinux-2.0/src/Getline.c:1350-1372 | For lines with at most a final newline no two adjacent entries are equal |
| History.KeyIsSaved | rculinux-2.0/src/Getline.c:1356-1362 | For such lines what is compared is what is stored |
| History.SavedIsNotEmpty | rculinux-2.0/src/Getline.c:1462-1483 | No entry is empty, so that an empty result always means the end |
| History.SlotsAfterAdding | rculinux-2.0/src/Getline.c:1361-1372 | Adding changes only the slot of the new entry and the empty slot behind it |
| History.SlotAt | rculinux-2.0/src/Getline.c:1427-1460 | Walking d slots back from the empty one finds the d-th most recent entry, or a slot that was never used |
| History.StrStr | rculinux-2.0/src/Getline.c:1580-1582 | The position found is the first occurrence |
| MemoryGuard.Insert | rculinux-2.0/src/memoryguard.c:132-146 | Inserting behind any element of a circular doubly linked list gives the list with the element there; null arguments are refused |
| MemoryGuard.Remove | rculinux-2.0/src/memoryguard.c:152-168 | Removing gives the list without the element, whose links are cleared; anchors and null are refused |
| MemoryGuard.FindPointer | rculinux-2.0/src/memoryguard.c:170-182 | The search terminates and returns the first entry with the block, or null exactly if there is none |
| MemoryGuard.FirstFreedFirstUsed | rculinux-2.0/src/memoryguard.c:220-275 | For every sequence of uses and releases, descriptors are used in the order in which they have become free |
| MemoryGuard.Guard.UsedInOrder | rculinux-2.0/src/memoryguard.c:220-275 | In every reachable state the descriptors that Malloc has used so far, followed by the free ones from the last on, are the initial ones from the last on, followed by those that Free has released, in their order |
| MemoryGuard.OneMoreOp | rculinux-2.0/src/memoryguard.c:220-275 | One more use or release continues what the operations before it have left |
| MemoryGuard.InsertFront | rculinux-2.0/src/memoryguard.c:132-146 | An element enters a ring behind its anchor, and another ring is not touched |
| MemoryGuard.TakeOut | rculinux-2.0/src/memoryguard.c:152-168 | An element leaves the ring of an anchor, and another ring is not touched |
| MemoryGuard.FollowingElements | rculinux-2.0/src/memoryguard.c:132-146 | Inserting adds exactly the one element |
| MemoryGuard.OmittingElements | rculinux-2.0/src/memoryguard.c:152-168 | Removing removes exactly the one element |
| MemoryGuard.Guard.constructor | rculinux-2.0/src/memoryguard.c:184-208 | All 100 descriptors are free |
| MemoryGuard.Guard.Init | rculinux-2.0/src/memoryguard.c:198-206 | Both lists are well-formed and all descriptors are in the free one |
| MemoryGuard.Guard.Malloc | rculinux-2.0/src/memoryguard.c:220-251 | Both lists stay well-formed, disjoint and complete; the block is tracked by the last free descriptor, if there is one, and the use is added to the log |
| MemoryGuard.Guard.Free | rculinux-2.0/src/memoryguard.c:253-275 | The descriptor of the block, and no other, becomes the first free one, and the release is added to the log; the two warnings are given exactly if nothing is counted, and if the block is not tracked; the count never goes wrong as long as only live blocks are freed |
| MemoryGuard.Guard.Track | rculinux-2.0/src/memoryguard.c:230-247 | The step from the free to the active list |
| MemoryGuard.Guard.CountAllocation | rculinux-2.0/src/memoryguard.c:224-226 | A new block is counted, in the current, the highest and the total number, whether it will be tracked or not |
| MemoryGuard.Guard.Untrack | rculinux-2.0/src/memoryguard.c:258-272 | The step from the active to the free list |
| MemoryGuard.Guard.Exit | rculinux-2.0/src/memoryguard.c:210-218 | Exactly the blocks that are still tracked are reported, the oldest first |
| GuardLaws.AllocateAll | rculinux-2.0/src/memoryguard.c:220-251 | Of blocks that are allocated one after the other all are live, and the first 100 are tracked, in their order |
| GuardLaws.AllocateFreeAllocate | rculinux-2.0/src/memoryguard.c:184-275 | A whole program: blocks are allocated, one of them is freed, and another one is allocated. There is a warning exactly if the freed one came when 100 others were tracked; the report at the end lists the tracked ones, oldest first, without it and with the new one if there was room |
| GuardLaws.Release | rculinux-2.0/src/memoryguard.c:253-275 | Freeing a live block gives a warning exactly if it is not tracked, and takes it from the tracked ones |
| MemoryGuard.AccountsAfterMalloc | rculinux-2.0/src/memoryguard.c:224-226 | A new block keeps the accounts |
| MemoryGuard.AccountsAfterFree | rculinux-2.0/src/memoryguard.c:255-257 | Freeing a live block keeps the accounts, and the counter was positive |
| Crc.Crc16 | rculinux-2.0/dcscMsgBufferInterface/dcscMsgBufferInterface.c:275-301 | The nested bit loops compute the checksum function, for data of every length |
| Crc.BitLoop | rculinux-2.0/dcscMsgBufferInterface/dcscMsgBufferInterface.c:284-294 | The inner loop processes the eight bits of a byte, lowest first |
| Crc.Residue | rculinux-2.0/dcscMsgBufferInterface/dcscMsgBufferInterface.c:275-301 | Data followed by their checksum, high byte first, leave 0xF0B8 in the register, the good value of section C.2 of RFC 1662 |
| Crc.RunOfConcat | rculinux-2.0/dcscMsgBufferInterface/dcscMsgBufferInterface.c:283-295 | Processing can be continued from the register |
| Crc.BurstIsDetected | rculinux-2.0/dcscMsgBufferInterface/dcscMsgBufferInterface.c:275-301 | Any change confined to sixteen successive bits, anywhere in the data, changes the checksum |
| Crc.ShortRunsDiffer | rculinux-2.0/dcscMsgBufferInterface/dcscMsgBufferInterface.c:284-294 | At most sixteen bits lead to different registers if they differ |
| Crc.RunInjective | rculinux-2.0/dcscMsgBufferInterface/dcscMsgBufferInterface.c:284-294 | A difference in the register never disappears while equal bits follow |
| Crc.LongerBurstPasses | rculinux-2.0/dcscMsgBufferInterface/dcscMsgBufferInterface.c:275-301 | The bound is sharp: a change of seventeen bits in the pattern of the polynomial passes |
| Crc.FirstChecksums | rculinux-2.0/dcscMsgBufferInterface/dcscMsgBufferInterface.c:275-301 | The checksum of no data is 0, and that of a zero byte is 0x78f0, so that leading zeros are noticed |
| Tokenizer.BuildArguments | rculinux-2.0/src/mrshellprim.c:128-205 | For every line: the number returned is that of its arguments, with or without cutting and with any target array; the positions stored, as far as there is room, are those of the arguments, and with cutting each one is terminated there; the branch with the error message is unreachable |
| Tokenizer.QuotingIsUndone | rculinux-2.0/src/mrshellprim.c:128-205 | Non-empty arguments free of quotation marks, quoted and joined by blanks, come back unchanged |
| Tokenizer.BuildJoined | rculinux-2.0/src/mrshellprim.c:128-205 | The program cuts such a line into just these arguments, at the positions it stores |
| Tokenizer.CommentTakesWord | rculinux-2.0/src/mrshellprim.c:148-189 | A comment behind a text outside of quotation marks takes away the last word if the text ends within one, and nothing else |
| Tokenizer.CommentIsHarmless | rculinux-2.0/src/mrshellprim.c:148-189 | The arguments are those of the text before the comment if and only if no word runs into the comment sign |
| Tokenizer.LostWord | rculinux-2.0/src/mrshellprim.c:148-189 | The failing case: a line of a word and a comment without a separator has no arguments |
| Tokenizer.WordsAreArguments | rculinux-2.0/src/mrshellprim.c:150-163 | Words with something blank between them are the arguments, quotation marks within them included |
| Tokenizer.BuildSpaced | rculinux-2.0/src/mrshellprim.c:128-205 | The program cuts such a line into just these words: each is found at its position with a terminator behind it, and positions to spare are -1 |
| Tokenizer.QuotationMarks | rculinux-2.0/src/mrshellprim.c:164-179 | Empty quotation marks are no argument, a missing closing one makes the rest none, and either kind closes the other |
| Tokenizer.JoinedHasNoTerminator | rculinux-2.0/src/mrshellprim.c:128-205 | The joined line is a proper string |
| Tokenizer.QuotedToken | rculinux-2.0/src/mrshellprim.c:164-179 | A quoted text is one argument, blanks and hash signs included |
| Tokenizer.ScanLine | rculinux-2.0/src/mrshellprim.c:148-189 | The single pass finds the arguments of the grammar |
| Tokenizer.ScanChar | rculinux-2.0/src/mrshellprim.c:150-188 | Every character continues the scan of the grammar; the branch with the error message is never taken |
| Tokenizer.Cut | rculinux-2.0/src/mrshellprim.c:151-153 | Overwriting the character at the scan position leaves the arguments found so far intact |
| Tokenizer.ScanWordEnd | rculinux-2.0/src/mrshellprim.c:150-163 | A separator ends a word |
| Tokenizer.ScanQuoteEnd | rculinux-2.0/src/mrshellprim.c:164-179 | A second quotation mark ends a quoted text; an empty one is no argument |
| Tokenizer.ScanEnds | rculinux-2.0/src/mrshellprim.c:148-149 | At the end, or at a comment, all arguments have been found |
| AsciiData.ConvertAscii2Bin | rculinux-2.0/src/cmdInterpreter.c:84-162 | A result is returned exactly if there is memory, a word size from 1 to 4, at least one word, and every word can be converted; it has as many words as the text, each one truncated to its size |
| AsciiData.CountWords | rculinux-2.0/src/cmdInterpreter.c:95-108 | The first pass counts the words of the text |
| AsciiData.FillWords | rculinux-2.0/src/cmdInterpreter.c:116-145 | The second pass converts them in order, leaving out those that cannot be converted |
| AsciiData.PrintingIsUndone | rculinux-2.0/src/cmdInterpreter.c:84-162 | Words printed in hexadecimal, each with or without its prefix, with any separators before, between and behind them, are read back |
| AsciiData.ConvertPrintedText | rculinux-2.0/src/cmdInterpreter.c:84-162 | The program returns an array of just these words, each one cut off at 1, 2, 3 or 4 bytes, and the size in bytes |
| AsciiData.ValuesOfPrinted | rculinux-2.0/src/cmdInterpreter.c:84-162 | Each printed word is one word of the text and converts to itself, whatever follows the last one |
| AsciiData.Hex | rculinux-2.0/src/cmdInterpreter.c:127 | The digits of a number have its value |
| AsciiData.ConvertPlain | rculinux-2.0/src/cmdInterpreter.c:122-136 | Digits without the prefix are read all the same |
| AsciiData.ConvertBadText | rculinux-2.0/src/cmdInterpreter.c:116-162 | A word that is no number is not passed over: there is no result at all |
| AsciiData.SignedNumber | rculinux-2.0/src/cmdInterpreter.c:122-136 | A sign goes before the digits: a negative number is counted down from 2^32 |
| AsciiData.LargeNumber | rculinux-2.0/src/cmdInterpreter.c:122-136 | A number that is too large is the largest word, whatever its sign |
| AsciiData.DigitValues | rculinux-2.0/src/cmdInterpreter.c:122-136 | The digits and what they stand for |
| AsciiData.Separators | rculinux-2.0/src/cmdInterpreter.c:95-108 | The characters that separate words, and those that the conversion skips |
| Scanner.ScanArguments | rculinux-2.0/src/mrshellprim.c:692-952 | The scan terminates for arbitrary results of separator tests, comparisons, conversions and handlers: it comes to a final state of the step function, whose result and flags it returns, and goes back at most once for every definition |
| Scanner.SearchDef | rculinux-2.0/src/mrshellprim.c:448-567 | The definition found is the first one that matches, of those that have not failed and may be found again; it alone is marked as found; nothing is found if there is none, if it lacks its terminator, or if it is the first one with an empty match |
| Scanner.ReadParameter | rculinux-2.0/src/mrshellprim.c:749-793 | A parameter read moves the scan on; a failed one gives up the definition and goes back if the command began at the beginning of the text: the step of the scan, flags included |
| Scanner.CharGoesOn | rculinux-2.0/src/mrshellprim.c:741-909 | Every character moves the scan on, or uses up part of what is left for going back |
| Scanner.ElsewhereExactly | rculinux-2.0/src/mrshellprim.c:716-913 | A scan gets into the text of another argument than the one it counts if and only if at some step it goes back from a command that began in another argument, or a match of 256 characters or more spills over into the count |
| Scanner.StepElsewhere | rculinux-2.0/src/mrshellprim.c:741-909 | These two are the only single steps that lead there |
| Scanner.GoesBackAcrossArguments | rculinux-2.0/src/mrshellprim.c:769-782 | A concrete scan of two arguments: it goes back to the first one, continues in the text of the second one, and scans that once more |
| Scanner.ScanArgument | rculinux-2.0/src/mrshellprim.c:716-913 | One round of the outer loop is a number of steps of the scan |
| Scanner.ScanCharacter | rculinux-2.0/src/mrshellprim.c:744-908 | One round of the inner loop is one step of the scan |
| Scanner.RunHandler | rculinux-2.0/src/mrshellprim.c:801-857 | The scan goes behind what the handler has taken and ends with -EINTR for a definition that terminates it: the step of the scan |
| Scanner.AtActive | rculinux-2.0/src/mrshellprim.c:748-857 | A separator behind an active command does the step of the scan |
| Scanner.AtBeginning | rculinux-2.0/src/mrshellprim.c:878-897 | Looking for a command does the step of the scan |
| Scanner.ScanText | rculinux-2.0/src/mrshellprim.c:737-909 | The inner loop ends, and is a number of steps of the scan |
| Scanner.ResetVolatileFlags | rculinux-2.0/src/mrshellprim.c:1098-1107 | No definition counts as failed or found |
| Scanner.OneFails | rculinux-2.0/src/mrshellprim.c:768-783 | Giving up a definition uses up what is left for going back |
| ScannerLaws.HandlerTakesArguments | rculinux-2.0/src/mrshellprim.c:801-824 | A handler that ends nothing and takes k arguments and c characters: the next text entered is that of argument arg + k, from position c; beyond the last argument the scan is over |
| ScannerLaws.HandlerTakesCharacters | rculinux-2.0/src/mrshellprim.c:825-833 | A handler that takes c characters: the scan goes on behind them in the same text |
| ScannerLaws.HandlerFails | rculinux-2.0/src/mrshellprim.c:801-810 | A handler that fails ends the scan with its error |
| ScannerLaws.HandlerEnds | rculinux-2.0/src/mrshellprim.c:834-850 | A definition or a mode that ends the scan does so behind its handler, with -EINTR or without an error |
| ScannerLaws.HandlerDelayed | rculinux-2.0/src/mrshellprim.c:801-859 | A command whose execution is delayed is left without its handler being asked |
| ScannerLaws.ParameterRead | rculinux-2.0/src/mrshellprim.c:749-767 | A parameter that is read is one less to be read, and the next one begins behind it |
| ScannerLaws.ParameterFails | rculinux-2.0/src/mrshellprim.c:768-793 | What comes of a parameter that cannot be read, for each setting: the definition is given up, with or without going back, skipped, or the scan ends with the error |
| ScannerLaws.CommandBegins | rculinux-2.0/src/mrshellprim.c:878-897 | The first definition that matches, of those not passed over, becomes the command; the scan goes on behind its name |
| ScannerLaws.NoCommand | rculinux-2.0/src/mrshellprim.c:878-909 | Where no definition matches the scan goes on with the next character |
| ScannerLaws.WithinText | rculinux-2.0/src/mrshellprim.c:874-877 | Within a name or a parameter, and within a text that no definition matches, nothing happens |
| ScannerLaws.UnknownText | rculinux-2.0/src/mrshellprim.c:859-873 | Behind a text that no definition matches the scan is over if the mode says so, and goes on otherwise |
| ScannerLaws.ScanBegins | rculinux-2.0/src/mrshellprim.c:692-741 | A scan begins in the first argument, from the position given, with the flags cleared unless the mode keeps them, and passes over arguments without a text |
| ScannerLaws.ScanOfNothing | rculinux-2.0/src/mrshellprim.c:692-715 | Without arguments, or behind the end of the only one, the result is -ENODATA |
| ScannerLaws.NextArgument | rculinux-2.0/src/mrshellprim.c:716-741 | At the end of a text the scan goes on with the next argument, from its beginning, with the command it has |

## Left out

- LineEditor.Editor.Fixup: a change of the prompt, which the incremental search makes, is not modelled; nor is the mode without echo.
- LineEditor.Editor.SaveKill: what is behind the kill buffer is not modelled, so nothing is promised after an overrun.
- RcuBus.ReadItems: the plain memory has no faults; bus errors reported in the status word are not modelled on the way to the RCU.
- BusControl.RcuBusControlCmdExt: encode mode is left out, since the control register is then a byte of the file that is being written, or lies behind its end.
- FlashProtocol.RcuFlashWrite: encode mode is left out for the same reason.
- FlashProtocol.RcuFlashRead: encode mode is left out for the same reason.
- DriverLock.Driver.LockReset: that a sleeping process wakes up is not claimed, since the test and the sleep are not one step.
- History.Ring.Add: the history file on disk is not modelled.
- History.Ring.SearchBack: the search prompt and the copy of the entry into the edit buffer are left out; the search string typed so far is a parameter.
- History.Ring.SearchForw: the same.
- MemoryGuard.Guard.Free: the test of the safety margin behind a block, log output, file names and time stamps are left out.
- Scanner.ScanArguments: the packed return value, nested tables, the working copy of an argument and the comparison of names are left out; what the tests for separators and the comparisons find in the text is arbitrary.
- Scanner.SearchDef: how a name is compared is left out; the comparison is arbitrary.
- Tokenizer.BuildArguments: messages are left out.
- `gl_newline` and the tab hook of the line editor: the first passes a change position behind the cursor for a line that ends anyway, the second is a hook.
- `rcuFlashErase`, `rcuFlashID`, `rcuFlashReset`, raw register access, and the `lock_device` calls around a transfer.
- The option that reads the message in buffer back before executing it, the simulation of registers from files, null data pointers, and options that only print.
- Compressed 10-bit data has no uncompressed counterpart; only its unpacking is proved.
- `printReadOutputFormatted`, `ScanCoefficients`, configuration files, timers, the frame tools and the selectmap interface.
- Device opening beyond the choice of the header format, ioctl plumbing, kernel module setup, memory tests, mapping and kernel logging.
- `rcu_flash.c`, the older copies under `drivers/backup`, sample programs and build scripts.
