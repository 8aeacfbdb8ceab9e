/**
 The frames in bits and bytes, as the description of the format has them: nothing here refers to the tables
 from which the program and the firmware take positions and widths.
 */
module FrameFormat {
  import opened Words
  import opened MsgHeader
  import opened Payload
  import opened Frames

  // ---------- words ----------

  /** Version 1: the command in bits 28 to 31, and the number of words with header and marker in bits 0 to 15. */
  lemma HeaderV1(n: nat, blockNum: nat, format: nat, mode: nat, cmdId: nat)
    requires n + 2 < 0x1_0000 && blockNum < 0x100 && cmdId < 0x10
    ensures MkFrstWrd(V1, n, blockNum, format, mode, cmdId) == cmdId * 0x1000_0000 + blockNum * 0x1_0000 + n + 2
  {
    assert mode % 1 == 0 && format % 1 == 0;
  }

  /** Version 2: version in bits 28 to 31, block number in 16 to 23, number of words in 6 to 15, command in 0 to 5. */
  lemma HeaderV2(n: nat, blockNum: nat, format: nat, mode: nat, cmdId: nat)
    requires n < 0x400 && blockNum < 0x100 && cmdId < 0x40
    ensures MkFrstWrd(V2, n, blockNum, format, mode, cmdId)
         == 0xa000_0000 + blockNum * 0x1_0000 + n * 0x40 + cmdId
  {
    assert mode % 1 == 0 && format % 1 == 0;
  }

  /** Version 2.2: in addition the data format in bits 24 and 25, and the flash mode in bit 26. */
  lemma HeaderV22(n: nat, blockNum: nat, format: nat, mode: nat, cmdId: nat)
    requires n < 0x400 && blockNum < 0x100 && format < 4 && mode < 2 && cmdId < 0x40
    ensures MkFrstWrd(V2_2, n, blockNum, format, mode, cmdId)
         == 0xb000_0000 + mode * 0x400_0000 + format * 0x100_0000 + blockNum * 0x1_0000 + n * 0x40 + cmdId
  {
  }

  lemma Markers(w: u32)
    ensures MkLstWrd(0) == 0xaa55_0000 && MkEndMarker() == 0xdd33_0000
    ensures IsMarker(w) <==> 0xaa55_0000 <= w <= 0xaa55_ffff
    ensures IsEndMarker(w) <==> 0xdd33_0000 <= w <= 0xdd33_ffff
  {
  }

  // ---------- frames ----------

  /** The bits of the header word above the word count. */
  function Version(h: Header, format: nat, mode: nat): nat {
    if h == V2_2 then 0xb000_0000 + mode * 0x400_0000 + format * 0x100_0000
    else 0xa000_0000
  }

  /** The frames of the four commands, in the formats since version 2. */
  lemma CommandFrames(h: Header, mode: nat, a: u32, v: u32)
    requires (h == V2 || h == V2_2) && mode < 2
    ensures SingleReadFrame(h, mode, a) == [Version(h, 0, mode) + 0x41, a, 0xaa55_0000, 0xdd33_0000]
    ensures SingleWriteFrame(h, mode, a, v) == [Version(h, 0, mode) + 0x82, a, v, 0xaa55_0000, 0xdd33_0000]
    ensures ReadFrame(h, mode, a, v) == [Version(h, 0, mode) + 0x83, a, v, 0xaa55_0000, 0xdd33_0000]
  {
    HeaderOf(h, 1, 0, mode, 1);
    HeaderOf(h, 2, 0, mode, 2);
    HeaderOf(h, 2, 0, mode, 3);
  }

  lemma HeaderOf(h: Header, n: nat, format: nat, mode: nat, cmdId: nat)
    requires (h == V2 || h == V2_2) && n < 0x400 && format < 4 && mode < 2 && cmdId < 0x40
    ensures MkFrstWrd(h, n, 0, format, mode, cmdId) == Version(h, format, mode) + n * 0x40 + cmdId
  {
    if h == V2 {
      HeaderV2(n, 0, format, mode, cmdId);
    } else {
      HeaderV22(n, 0, format, mode, cmdId);
    }
  }

  /** The same for version 1, where the mode has no place. */
  lemma CommandFramesV1(mode: nat, a: u32, v: u32)
    ensures SingleReadFrame(V1, mode, a) == [0x1000_0003, a, 0xaa55_0000, 0xdd33_0000]
    ensures SingleWriteFrame(V1, mode, a, v) == [0x2000_0004, a, v, 0xaa55_0000, 0xdd33_0000]
    ensures ReadFrame(V1, mode, a, v) == [0x3000_0004, a, v, 0xaa55_0000, 0xdd33_0000]
  {
    HeaderV1(1, 0, 0, mode, 1);
    HeaderV1(2, 0, 0, mode, 2);
    HeaderV1(2, 0, 0, mode, 3);
  }

  /** The items that share one word of the payload. */
  function PerWord(dm: int, compression: bool): nat {
    if !compression then 1
    else if dm == 1 || dm == -1 then 4
    else if dm == 2 || dm == -2 then 2
    else if dm == 3 then 3 else 1
  }

  /** The number of words that hold n items, the last one perhaps not full. */
  function WordsFor(n: nat, k: nat): nat
    requires k >= 1
  {
    (n + k - 1) / k
  }

  /** A frame of a multiple write: as many items to a word as the format bits say, behind address and count. */
  lemma WriteFrame(t: Transfer, start: nat, cnt: nat)
    requires t.Valid() && (t.h == V2 || t.h == V2_2) && t.mode < 2 && IsBlock(t, start, cnt)
    ensures var k := PerWord(t.dm, t.compression);
            var payload := PayloadWords(t.data, t.dm, t.compression, start, cnt);
            && |payload| == WordsFor(cnt, k)
            && BlockFrame(t, start, cnt)
               == [Version(t.h, k - 1, t.mode) + (2 + |payload|) * 0x40 + 4, t.address + start, cnt]
                  + payload + [0xaa55_0000, 0xdd33_0000]
  {
    hide Payload.PayloadWord;
    var k := PerWord(t.dm, t.compression);
    assert k == t.Factor();
    var payload := PayloadWords(t.data, t.dm, t.compression, start, cnt);
    SizeIs(cnt, k);
    BlockFrameFits(t, start, cnt);
    HeaderOf(t.h, 2 + |payload|, k - 1, t.mode, 4);
    assert t.h == V2 ==> k == 1;
  }

  lemma SizeIs(cnt: nat, k: nat)
    requires 1 <= k <= 4
    ensures PayloadSize(cnt, k) == WordsFor(cnt, k)
  {
    match k
    case 1 =>
    case 2 =>
    case 3 =>
    case 4 =>
  }

  /** Every frame but the last one fills the message in buffer. */
  lemma FullFramesFill(t: Transfer, b: nat)
    requires t.Valid() && b + 1 < t.Count()
    ensures t.Len(b) >= 1 && IsBlock(t, b * t.Max(), t.Len(b))
    ensures |BlockFrame(t, b * t.Max(), t.Len(b))| == t.mibSize
  {
    BlockStarts(t, b);
    Blocks(t.n, t.Max(), b);
    FullBlock(t.mibSize - 5, t.Factor());
  }

  /** And every read request but the last one fills the result buffer: there are just enough of them. */
  lemma EnoughBlocks(n: nat, max: nat)
    requires n >= 1 && max >= 1
    ensures (BlockCount(n, max) - 1) * max < n <= BlockCount(n, max) * max
    ensures forall b: nat :: b + 1 < BlockCount(n, max) ==> BlockLen(n, max, b) == max
  {
    var q := (n - 1) / max;
    assert n - 1 == q * max + (n - 1) % max;
    assert (q + 1) * max == q * max + max;
  }

  // ---------- payloads, byte by byte ----------

  /** With compression: bytes and halfwords as they lie in memory, swapped in mode -2, and zeros behind the last one. */
  lemma CompressedPayloads(b: seq<u8>)
    requires |b| >= 6
    ensures var low, last := LittleEndian(b[0], b[1], b[2], b[3]), LittleEndian(b[4], b[5], 0, 0);
            && PayloadWords(b, 1, true, 0, 5) == [low, b[4]] == PayloadWords(b, -1, true, 0, 5)
            && PayloadWords(b, 2, true, 0, 3) == [low, last] == PayloadWords(b, 3, true, 0, 4)
            && PayloadWords(b, -2, true, 0, 3) == [LittleEndian(b[1], b[0], b[3], b[2]), last]
  {
    assert PayloadWord(b, 1, true, 0, 5, 0) == PayloadWord(b, -1, true, 0, 5, 0) == WordAt(b, 0);
    Pairs(b);
  }

  lemma Pairs(b: seq<u8>)
    requires |b| >= 6
    ensures SwapBytes(WordAt(b, 0)) == LittleEndian(b[1], b[0], b[3], b[2])
  {
    BytesOf(b[0], b[1], b[2], b[3]);
  }

  /** Without compression: one item to a word, and whole words as they are or with their bytes reversed. */
  lemma PlainPayloads(b: seq<u8>, compression: bool)
    requires |b| >= 4
    ensures PayloadWords(b, 1, false, 0, 2) == [b[0], b[1]] == PayloadWords(b, -1, false, 0, 2)
    ensures PayloadWords(b, 2, false, 0, 2) == [LittleEndian(b[0], b[1], 0, 0), LittleEndian(b[2], b[3], 0, 0)]
    ensures PayloadWords(b, -2, false, 0, 2) == [LittleEndian(b[1], b[0], 0, 0), LittleEndian(b[3], b[2], 0, 0)]
    ensures PayloadWords(b, 4, compression, 0, 1) == [LittleEndian(b[0], b[1], b[2], b[3])]
    ensures PayloadWords(b, -4, compression, 0, 1) == [LittleEndian(b[3], b[2], b[1], b[0])]
  {
    hide Payload.SwapBytes, Payload.SwapHalves, Words.LittleEndian, Words.WordAt;
    LowBytes(b);
    WholeWord(b);
  }

  lemma LowBytes(b: seq<u8>)
    requires |b| >= 4
    ensures forall i, j :: 0 <= i < 4 && 0 <= j < 4 ==> LittleEndian(b[i], b[j], 0, 0) == 0x100 * (b[j] as int) + b[i]
  {
  }

  lemma WholeWord(b: seq<u8>)
    requires |b| >= 4
    ensures WordAt(b, 0) == LittleEndian(b[0], b[1], b[2], b[3])
    ensures SwapHalves(SwapBytes(WordAt(b, 0))) == LittleEndian(b[3], b[2], b[1], b[0])
  {
    BytesOf(b[0], b[1], b[2], b[3]);
    ReversedBySwaps(WordAt(b, 0));
  }
}
