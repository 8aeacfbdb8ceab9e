/**
 The header word and the markers of a message buffer block.

 A bit field at position `s` of width `w` is kept as its scale 2^s and its range 2^w,
 so that shifting is multiplication by the scale and masking is the remainder by the
 range. The fields of one format do not overlap, so or-ing them together adds them.
 */
module MsgHeader {
  import opened Words

  datatype Header = Header(
    versionBits: u32,
    addNumWords: nat,
    cmdScale: nat, cmdRange: nat,
    dataFmtScale: nat, dataFmtRange: nat,
    numWordsScale: nat, numWordsRange: nat,
    blkNumScale: nat, blkNumRange: nat,
    modeScale: nat, modeRange: nat)

  const V1 := Header(0, 2, 0x1000_0000, 0x10, 0x400_0000, 1, 1, 0x1_0000, 0x1_0000, 0x100, 1, 1)
  const V2 := Header(0xa000_0000, 0, 1, 0x40, 1, 1, 0x40, 0x400, 0x1_0000, 0x100, 1, 1)
  const V2_2 := Header(0xb000_0000, 0, 1, 0x40, 0x100_0000, 4, 0x40, 0x400, 0x1_0000, 0x100, 0x400_0000, 2)

  predicate Known(h: Header) {
    h == V1 || h == V2 || h == V2_2
  }

  const MARKER_PATTERN := 0xaa55
  const ENDMARKER_PATTERN := 0xdd33

  const SINGLE_READ := 1
  const SINGLE_WRITE := 2
  const MULTI_READ := 3
  const MULTI_WRITE := 4

  const MODE_MEMMAPPED := 0
  const MODE_FLASH := 1

  /** The first word of a block. The two bits of the v1 extension field are always zero. */
  function MkFrstWrd(h: Header, numWords: nat, blockNum: nat, format: nat, mode: nat, cmdId: nat): u32
    requires Known(h)
  {
    h.versionBits
    + cmdId % h.cmdRange * h.cmdScale
    + mode % h.modeRange * h.modeScale
    + format % h.dataFmtRange * h.dataFmtScale
    + blockNum % h.blkNumRange * h.blkNumScale
    + (numWords + h.addNumWords) % h.numWordsRange * h.numWordsScale
  }

  /** The block marker, with the (unused) check sum in its lower half. */
  function MkLstWrd(checksum: nat): u32
    requires checksum < 0x1_0000
  {
    MARKER_PATTERN * 0x1_0000 + checksum
  }

  function MkEndMarker(): u32 {
    ENDMARKER_PATTERN * 0x1_0000
  }

  function CmdIdOf(h: Header, w: u32): nat
    requires Known(h)
  {
    w / h.cmdScale % h.cmdRange
  }

  function ModeOf(h: Header, w: u32): nat
    requires Known(h)
  {
    w / h.modeScale % h.modeRange
  }

  function DataFmtOf(h: Header, w: u32): nat
    requires Known(h)
  {
    w / h.dataFmtScale % h.dataFmtRange
  }

  function BlkNumOf(h: Header, w: u32): nat
    requires Known(h)
  {
    w / h.blkNumScale % h.blkNumRange
  }

  /** The number of payload words, which the v1 field counts together with two others. */
  function NumWordsOf(h: Header, w: u32): int
    requires Known(h)
  {
    w / h.numWordsScale % h.numWordsRange - h.addNumWords
  }

  predicate IsMarker(w: u32) {
    w / 0x1_0000 == MARKER_PATTERN
  }

  predicate IsEndMarker(w: u32) {
    w / 0x1_0000 == ENDMARKER_PATTERN
  }

  /** The number of payload words that fits the count field. */
  function MaxPayload(h: Header): nat
    requires Known(h)
  {
    h.numWordsRange - 1 - h.addNumWords
  }

  /** A complete one-block sequence: header, payload, block marker and end marker. */
  function Frame(h: Header, payload: seq<u32>, format: nat, mode: nat, cmdId: nat): seq<u32>
    requires Known(h)
  {
    [MkFrstWrd(h, |payload|, 0, format, mode, cmdId)] + payload + [MkLstWrd(0), MkEndMarker()]
  }

  /** Words laid out one after the other are the frame. */
  lemma Assembled(ws: seq<u32>, h: Header, payload: seq<u32>, format: nat, mode: nat, cmdId: nat)
    requires Known(h) && |ws| == |payload| + 3
    requires ws[0] == MkFrstWrd(h, |payload|, 0, format, mode, cmdId)
    requires ws[1..|payload| + 1] == payload
    requires ws[|payload| + 1] == MkLstWrd(0) && ws[|payload| + 2] == MkEndMarker()
    ensures ws == Frame(h, payload, format, mode, cmdId)
  {
    var frame := Frame(h, payload, format, mode, cmdId);
    forall i | 0 <= i < |ws|
      ensures ws[i] == frame[i]
    {
      if 1 <= i <= |payload| {
        assert ws[i] == ws[1..|payload| + 1][i - 1] == payload[i - 1] == frame[i];
      }
    }
  }

  lemma SplitV2(version: nat, c: nat, n: nat, b: nat, f: nat, m: nat)
    requires c < 0x40 && n < 0x400 && b < 0x100 && f < 4 && m < 2 && version < 0x20
    ensures var w := version * 0x800_0000 + m * 0x400_0000 + f * 0x100_0000 + b * 0x1_0000 + n * 0x40 + c;
            && w % 0x40 == c
            && w / 0x40 % 0x400 == n
            && w / 0x1_0000 % 0x100 == b
            && w / 0x100_0000 % 4 == f
            && w / 0x400_0000 % 2 == m
  {
    var w := version * 0x800_0000 + m * 0x400_0000 + f * 0x100_0000 + b * 0x1_0000 + n * 0x40 + c;
    assert w / 0x40 == version * 0x20_0000 + m * 0x10_0000 + f * 0x4_0000 + b * 0x400 + n;
    assert w / 0x1_0000 == version * 0x800 + m * 0x400 + f * 0x100 + b;
    assert w / 0x100_0000 == version * 8 + m * 4 + f;
    assert w / 0x400_0000 == version * 2 + m;
  }

  lemma SplitV1(c: nat, n: nat, b: nat)
    requires c < 0x10 && n < 0x1_0000 && b < 0x100
    ensures var w := c * 0x1000_0000 + b * 0x1_0000 + n;
            && w % 0x1_0000 == n
            && w / 0x1_0000 % 0x100 == b
            && w / 0x1000_0000 % 0x10 == c
  {
    var w := c * 0x1000_0000 + b * 0x1_0000 + n;
    assert w / 0x1_0000 == c * 0x1000 + b;
    assert w / 0x1000_0000 == c;
  }

  predicate ReadsBack(h: Header, w: u32, numWords: nat, blockNum: nat, format: nat, mode: nat, cmdId: nat)
    requires Known(h)
  {
    && NumWordsOf(h, w) == numWords
    && BlkNumOf(h, w) == blockNum
    && DataFmtOf(h, w) == format % h.dataFmtRange
    && ModeOf(h, w) == mode % h.modeRange
    && CmdIdOf(h, w) == cmdId
  }

  /** Every field that a format has can be read back from the word, whatever the others hold. */
  lemma FieldsReadBack(h: Header, numWords: nat, blockNum: nat, format: nat, mode: nat, cmdId: nat)
    requires Known(h)
    requires numWords <= MaxPayload(h) && blockNum < h.blkNumRange && cmdId < h.cmdRange
    ensures ReadsBack(h, MkFrstWrd(h, numWords, blockNum, format, mode, cmdId), numWords, blockNum, format, mode, cmdId)
  {
    if h == V1 {
      ReadsBackV1(numWords, blockNum, format, mode, cmdId);
    } else if h == V2 {
      ReadsBackV2(numWords, blockNum, format, mode, cmdId);
    } else {
      ReadsBackV2_2(numWords, blockNum, format, mode, cmdId);
    }
  }

  lemma ReadsBackV1(numWords: nat, blockNum: nat, format: nat, mode: nat, cmdId: nat)
    requires numWords <= 0xfffd && blockNum < 0x100 && cmdId < 0x10
    ensures var w := MkFrstWrd(V1, numWords, blockNum, format, mode, cmdId);
            ReadsBack(V1, w, numWords, blockNum, format, mode, cmdId)
  {
    SplitV1(cmdId, numWords + 2, blockNum);
  }

  lemma ReadsBackV2(numWords: nat, blockNum: nat, format: nat, mode: nat, cmdId: nat)
    requires numWords <= 0x3ff && blockNum < 0x100 && cmdId < 0x40
    ensures var w := MkFrstWrd(V2, numWords, blockNum, format, mode, cmdId);
            ReadsBack(V2, w, numWords, blockNum, format, mode, cmdId)
  {
    SplitV2(0x14, cmdId, numWords, blockNum, 0, 0);
    assert mode % 1 == 0 && format % 1 == 0;
  }

  lemma ReadsBackV2_2(numWords: nat, blockNum: nat, format: nat, mode: nat, cmdId: nat)
    requires numWords <= 0x3ff && blockNum < 0x100 && cmdId < 0x40
    ensures var w := MkFrstWrd(V2_2, numWords, blockNum, format, mode, cmdId);
            ReadsBack(V2_2, w, numWords, blockNum, format, mode, cmdId)
  {
    SplitV2(0x16, cmdId, numWords, blockNum, format % 4, mode % 2);
  }

  /** The check routine always decodes with the v2 table; on v2.2 words that finds the same count and number. */
  lemma V2TableReadsV2_2(numWords: nat, blockNum: nat, format: nat, mode: nat, cmdId: nat)
    requires numWords <= MaxPayload(V2_2) && blockNum < 0x100 && cmdId < 0x40
    ensures var w := MkFrstWrd(V2_2, numWords, blockNum, format, mode, cmdId);
            NumWordsOf(V2, w) == numWords && BlkNumOf(V2, w) == blockNum
  {
    FieldsReadBack(V2_2, numWords, blockNum, format, mode, cmdId);
  }
}
