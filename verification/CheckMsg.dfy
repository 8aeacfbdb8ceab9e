/**
 The check of an encoded file: dcscCheckMsgBlock, which measures one command sequence, and
 the loop that applies it to a whole file.
 */
module CheckMsg {
  import opened Errno
  import opened Words
  import opened MsgHeader

  /**
   The words from p up to q are a command sequence: marked blocks, of which exactly the last
   one has block number zero, closed by an end marker.
   */
  predicate ChainAt(buf: seq<u32>, p: int, q: int)
    decreases q - p
  {
    && 0 <= p < q <= |buf|
    && var n := NumWordsOf(V2, buf[p]);
    && p + n + 2 < q
    && IsMarker(buf[p + n + 1])
    && if BlkNumOf(V2, buf[p]) == 0 then q == p + n + 3 && IsEndMarker(buf[p + n + 2])
       else ChainAt(buf, p + n + 2, q)
  }

  /**
   Following the counts from position p on, a word beyond the end of the buffer is needed: a header, the word
   where the marker should be, or the word where the end marker should be.
   */
  predicate Escapes(buf: seq<u32>, p: nat)
    decreases if p < |buf| then |buf| - p else 0
  {
    p >= |buf|
    || var n := NumWordsOf(V2, buf[p]);
       p + n + 1 >= |buf|
       || (IsMarker(buf[p + n + 1])
           && if BlkNumOf(V2, buf[p]) == 0 then p + n + 2 >= |buf| else Escapes(buf, p + n + 2))
  }

  /** The routine does not know where its buffer ends, so a broken count can lead it outside. */
  datatype Verdict = Checked(r: int) | OutsideBuffer

  /** Measure the command sequence at offset off. The size is only tested for being positive. */
  method DcscCheckMsgBlock(buf: seq<u32>, off: nat, iSize: int) returns (v: Verdict)
    requires off <= |buf|
    ensures iSize <= 0 ==> v == Checked(-EINVAL)
    ensures v.Checked? && v.r > 0 ==> ChainAt(buf, off, off + v.r)
    ensures iSize > 0 ==> forall q :: ChainAt(buf, off, q) ==> v == Checked(q - off)
    ensures iSize > 0 && v.Checked? ==> v.r >= 0
    ensures iSize > 0 ==> (v.OutsideBuffer? <==> Escapes(buf, off))
  {
    if iSize <= 0 {
      return Checked(-EINVAL);
    }
    var iResult: int, iBlockNo: int := 0, -1;
    var pCurrent := off;
    while iBlockNo != 0
      invariant off <= pCurrent <= |buf| && iResult == pCurrent - off
      invariant iBlockNo == -1 ==> pCurrent == off
      invariant iBlockNo != 0 ==> forall q :: ChainAt(buf, off, q) <==> ChainAt(buf, pCurrent, q)
      invariant iBlockNo != 0 ==> (Escapes(buf, off) <==> Escapes(buf, pCurrent))
      invariant iBlockNo == 0 ==> (Escapes(buf, off) <==> pCurrent >= |buf|)
      invariant iBlockNo == 0 ==> iResult > 0 && forall q :: ChainAt(buf, off, q) <==>
                                    q == pCurrent + 1 <= |buf| && IsEndMarker(buf[pCurrent])
      decreases |buf| - pCurrent
    {
      if pCurrent >= |buf| {
        return OutsideBuffer;
      }
      var iNofWords := NumWordsOf(V2, buf[pCurrent]);
      iBlockNo := BlkNumOf(V2, buf[pCurrent]);
      pCurrent := pCurrent + iNofWords + 1;
      if pCurrent >= |buf| {
        return OutsideBuffer;
      }
      if !IsMarker(buf[pCurrent]) {
        return Checked(0);
      }
      pCurrent := pCurrent + 1;
      iResult := iResult + iNofWords + 2;
    }
    if pCurrent >= |buf| {
      return OutsideBuffer;
    }
    if !IsEndMarker(buf[pCurrent]) {
      return Checked(0);
    }
    return Checked(iResult + 1);
  }

  function Sum(sizes: seq<int>): int {
    if sizes == [] then 0 else Sum(sizes[..|sizes| - 1]) + sizes[|sizes| - 1]
  }

  /** The words before q are command sequences of these sizes, one after the other. */
  predicate SplitInto(buf: seq<u32>, sizes: seq<int>, q: int) {
    if sizes == [] then q == 0
    else
      var last := sizes[|sizes| - 1];
      ChainAt(buf, q - last, q) && SplitInto(buf, sizes[..|sizes| - 1], q - last)
  }

  lemma {:induction false} SplitEndsAtSum(buf: seq<u32>, sizes: seq<int>, q: int)
    requires SplitInto(buf, sizes, q)
    ensures q == Sum(sizes)
  {
    if sizes != [] {
      SplitEndsAtSum(buf, sizes[..|sizes| - 1], q - sizes[|sizes| - 1]);
    }
  }

  lemma {:induction false} NextPiece(buf: seq<u32>, sizes: seq<int>, q: int, k: nat)
    requires SplitInto(buf, sizes, q) && k < |sizes|
    ensures ChainAt(buf, Sum(sizes[..k]), Sum(sizes[..k]) + sizes[k])
    ensures Sum(sizes[..k]) + sizes[k] <= q
    ensures Sum(sizes[..k]) + sizes[k] == q ==> k == |sizes| - 1
    decreases |sizes|
  {
    var front := sizes[..|sizes| - 1];
    SplitEndsAtSum(buf, front, q - sizes[|sizes| - 1]);
    if k < |front| {
      NextPiece(buf, front, q - sizes[|sizes| - 1], k);
      assert front[..k] == sizes[..k];
    } else {
      assert sizes[..k] == front;
    }
  }

  /**
   The loop over a file: it stops at the end or at the first sequence that is not correct.
   It accepts exactly the files that split into command sequences, and reports their sizes. Otherwise
   it reports the sequences before the first one that is not correct, and whether checking that one
   leads outside the file.
   */
  method CheckMessageBlocks(buf: seq<u32>) returns (sizes: seq<int>, last: Verdict)
    ensures last.Checked? && last.r > 0 ==> SplitInto(buf, sizes, |buf|)
    ensures forall s :: s != [] && SplitInto(buf, s, |buf|) ==> sizes == s && last == Checked(s[|s| - 1])
    ensures 0 <= Sum(sizes) <= |buf| && SplitInto(buf, sizes, Sum(sizes))
    ensures buf == [] ==> last == Checked(-EINVAL)
    ensures buf != [] ==> (last.Checked? && last.r > 0 <==> Sum(sizes) == |buf|)
    ensures Sum(sizes) < |buf| ==> last == if Escapes(buf, Sum(sizes)) then OutsideBuffer else Checked(0)
  {
    hide ChainAt, Escapes, SplitInto;
    sizes := [];
    var iOffset := 0;
    NothingIsSplit(buf);
    last := DcscCheckMsgBlock(buf, iOffset, |buf|);
    while last.Checked? && last.r > 0
      invariant 0 <= iOffset <= |buf| && SplitInto(buf, sizes, iOffset)
      invariant iOffset < |buf| || (iOffset == 0 && sizes == [])
      invariant iOffset < |buf| ==> IsVerdict(buf, iOffset, last)
      invariant buf == [] ==> last == Checked(-EINVAL)
      invariant forall s :: s != [] && SplitInto(buf, s, |buf|) ==> sizes <= s
      decreases |buf| - iOffset
    {
      forall s | s != [] && SplitInto(buf, s, |buf|)
        ensures sizes + [last.r] <= s
      {
        LoopFindsNext(buf, s, sizes, iOffset, last);
      }
      OneMorePiece(buf, sizes, iOffset, last.r);
      sizes, iOffset := sizes + [last.r], iOffset + last.r;
      if iOffset >= |buf| {
        forall s | s != [] && SplitInto(buf, s, |buf|)
          ensures sizes == s
        {
          LoopIsDone(buf, s, sizes);
        }
        SplitEndsAtSum(buf, sizes, iOffset);
        return;
      }
      last := DcscCheckMsgBlock(buf, iOffset, |buf| - iOffset);
    }
    forall s | s != [] && SplitInto(buf, s, |buf|)
      ensures false
    {
      LoopFindsNext(buf, s, sizes, iOffset, last);
    }
    SplitEndsAtSum(buf, sizes, iOffset);
  }

  /** What the routine reports about the words from position p on. */
  ghost predicate IsVerdict(buf: seq<u32>, p: nat, v: Verdict) {
    && (v.Checked? && v.r > 0 ==> ChainAt(buf, p, p + v.r))
    && (forall q :: ChainAt(buf, p, q) ==> v == Checked(q - p))
    && (v.Checked? ==> v.r >= 0)
    && (v.OutsideBuffer? <==> Escapes(buf, p))
  }

  lemma NothingIsSplit(buf: seq<u32>)
    ensures SplitInto(buf, [], 0)
  {
  }

  lemma OneMorePiece(buf: seq<u32>, sizes: seq<int>, p: int, n: int)
    requires SplitInto(buf, sizes, p) && ChainAt(buf, p, p + n)
    ensures SplitInto(buf, sizes + [n], p + n) && p + n <= |buf|
  {
    var found := sizes + [n];
    assert found[..|found| - 1] == sizes;
  }

  lemma LoopFindsNext(buf: seq<u32>, s: seq<int>, sizes: seq<int>, iOffset: int, last: Verdict)
    requires s != [] && SplitInto(buf, s, |buf|) && sizes <= s
    requires 0 <= iOffset && SplitInto(buf, sizes, iOffset)
    requires iOffset < |buf| ==> IsVerdict(buf, iOffset, last)
    requires iOffset < |buf| || (iOffset == 0 && sizes == [])
    ensures last.Checked? && last.r > 0 && sizes + [last.r] <= s
  {
    SplitEndsAtSum(buf, sizes, iOffset);
    SplitEndsAtSum(buf, s, |buf|);
    assert |sizes| == |s| ==> sizes == s;
    if |sizes| < |s| {
      assert s[..|sizes|] == sizes;
      NextPiece(buf, s, |buf|, |sizes|);
    }
  }

  lemma LoopIsDone(buf: seq<u32>, s: seq<int>, sizes: seq<int>)
    requires s != [] && SplitInto(buf, s, |buf|) && sizes <= s
    requires SplitInto(buf, sizes, |buf|) && sizes != []
    ensures sizes == s
  {
    SplitEndsAtSum(buf, sizes, |buf|);
    if |sizes| < |s| {
      assert s[..|sizes|] == sizes;
      NextPiece(buf, s, |buf|, |sizes|);
    }
  }

  // ---------- frames are what the check accepts ----------

  /** A frame as the interface encodes it, in one of the formats the check knows. */
  ghost predicate IsFrame(ws: seq<u32>) {
    exists h, payload, format, mode, cmdId :: IsFrameOf(ws, h, payload, format, mode, cmdId)
  }

  predicate IsFrameOf(ws: seq<u32>, h: Header, payload: seq<u32>, format: nat, mode: nat, cmdId: nat) {
    && (h == V2 || h == V2_2) && |payload| <= MaxPayload(h) && cmdId < 0x40
    && ws == Frame(h, payload, format, mode, cmdId)
  }

  function Lengths(frames: seq<seq<u32>>): seq<int> {
    seq(|frames|, i requires 0 <= i < |frames| => |frames[i]|)
  }

  lemma FrameIsChain(before: seq<u32>, ws: seq<u32>)
    requires IsFrame(ws)
    ensures ChainAt(before + ws, |before|, |before + ws|)
  {
    var h, payload, format, mode, cmdId :| IsFrameOf(ws, h, payload, format, mode, cmdId);
    var n, p := |payload|, |before|;
    if h == V2 {
      FieldsReadBack(V2, n, 0, format, mode, cmdId);
    } else {
      V2TableReadsV2_2(n, 0, format, mode, cmdId);
    }
    var buf := before + ws;
    assert buf[p] == ws[0] && buf[p + n + 1] == ws[n + 1] && buf[p + n + 2] == ws[n + 2];
  }

  lemma {:induction false} ChainSurvivesMore(before: seq<u32>, buf: seq<u32>, more: seq<u32>, p: int, q: int)
    requires ChainAt(buf, p, q)
    ensures ChainAt(before + buf + more, |before| + p, |before| + q)
    decreases q - p
  {
    var n, b := NumWordsOf(V2, buf[p]), |before|;
    var all := before + buf + more;
    assert all[b + p] == buf[p] && all[b + p + n + 1] == buf[p + n + 1] && all[b + p + n + 2] == buf[p + n + 2];
    if BlkNumOf(V2, buf[p]) != 0 {
      ChainSurvivesMore(before, buf, more, p + n + 2, q);
    }
  }

  lemma {:induction false} SplitSurvivesMore(buf: seq<u32>, more: seq<u32>, sizes: seq<int>, q: int)
    requires SplitInto(buf, sizes, q)
    ensures SplitInto(buf + more, sizes, q)
    decreases |sizes|
  {
    hide ChainAt;
    if sizes != [] {
      var last := sizes[|sizes| - 1];
      ChainSurvivesMore([], buf, more, q - last, q);
      assert [] + buf + more == buf + more;
      SplitSurvivesMore(buf, more, sizes[..|sizes| - 1], q - last);
    }
  }

  /** A file of frames splits into just these frames, whatever their data words are. */
  lemma {:induction false} FramesSplit(frames: seq<seq<u32>>)
    requires forall f :: f in frames ==> IsFrame(f)
    ensures SplitInto(Flatten(frames), Lengths(frames), |Flatten(frames)|)
    decreases |frames|
  {
    hide ChainAt, IsFrame;
    if frames != [] {
      var k := |frames| - 1;
      var front, last := frames[..k], frames[k];
      FramesSplit(front);
      assert frames == front + [last];
      FlattenConcat(front, [last]);
      assert Flatten([last]) == last;
      SplitSurvivesMore(Flatten(front), last, Lengths(front), |Flatten(front)|);
      FrameIsChain(Flatten(front), last);
      assert Lengths(frames)[..k] == Lengths(front);
    }
  }

  // ---------- how the check leaves a file ----------

  /** A frame that has been cut off leads the check outside the file, wherever it has been cut. */
  lemma TruncatedFrameEscapes(before: seq<u32>, ws: seq<u32>, k: nat)
    requires IsFrame(ws) && k < |ws|
    ensures Escapes(before + ws[..k], |before|)
  {
    var h, payload, format, mode, cmdId :| IsFrameOf(ws, h, payload, format, mode, cmdId);
    var n, p := |payload|, |before|;
    if h == V2 {
      FieldsReadBack(V2, n, 0, format, mode, cmdId);
    } else {
      V2TableReadsV2_2(n, 0, format, mode, cmdId);
    }
    var buf := before + ws[..k];
    assert k > 0 ==> buf[p] == ws[0];
    assert k > n + 1 ==> buf[p + n + 1] == ws[n + 1];
  }

  /** What leads the check outside is no command sequence, whatever its size. */
  lemma {:induction false} EscapeIsNoChain(buf: seq<u32>, p: nat, q: int)
    requires Escapes(buf, p)
    ensures !ChainAt(buf, p, q)
    decreases if p < |buf| then |buf| - p else 0
  {
    if p < |buf| {
      var n := NumWordsOf(V2, buf[p]);
      if p + n + 1 < |buf| && BlkNumOf(V2, buf[p]) != 0 {
        EscapeIsNoChain(buf, p + n + 2, q);
      }
    }
  }

  /** A file that leads outside at its beginning contains no sequence the loop could report. */
  lemma NothingBeforeEscape(buf: seq<u32>, sizes: seq<int>)
    requires Escapes(buf, 0) && SplitInto(buf, sizes, Sum(sizes))
    ensures sizes == []
  {
    if sizes != [] {
      EscapeIsNoChain(buf, 0, sizes[0]);
      NextPiece(buf, sizes, Sum(sizes), 0);
      assert false;
    }
  }

  /** The file of one word that announces one word more: the loop reports no sequence and is led outside. */
  lemma OneWordEscapes(sizes: seq<int>)
    requires SplitInto([0x40], sizes, Sum(sizes))
    ensures Escapes([0x40], 0) && sizes == [] && Sum(sizes) < |[0x40]|
  {
    hide SplitInto;
    assert Escapes([0x40], 0);
    NothingBeforeEscape([0x40], sizes);
  }

  // ---------- what the check accepts, word by word ----------

  /** A block: a header word that gives the number of words behind it in bits 6 to 15, these words, and the marker. */
  datatype Block = Block(first: u32, payload: seq<u32>, marker: u32)
  {
    predicate Valid() {
      first / 0x40 % 0x400 == |payload| && 0xaa55_0000 <= marker <= 0xaa55_ffff
    }

    /** The block number, in bits 16 to 23. */
    function Number(): nat {
      first / 0x1_0000 % 0x100
    }

    function Contents(): (ws: seq<u32>)
      ensures |ws| == |payload| + 2
    {
      [first] + payload + [marker]
    }
  }

  /** The last block, and no other, has the number zero. */
  predicate Numbered(blocks: seq<Block>) {
    && blocks != []
    && forall i :: 0 <= i < |blocks| ==> blocks[i].Valid() && (blocks[i].Number() == 0 <==> i == |blocks| - 1)
  }

  /** The blocks one after the other, and the end marker. */
  function Sequence(blocks: seq<Block>, end: u32): seq<u32> {
    if blocks == [] then [end] else blocks[0].Contents() + Sequence(blocks[1..], end)
  }

  predicate EndsWell(end: u32) {
    0xdd33_0000 <= end <= 0xdd33_ffff
  }

  /** Any number of blocks is accepted, with whatever stands before and behind them. */
  lemma SequenceIsChain(before: seq<u32>, blocks: seq<Block>, end: u32, more: seq<u32>)
    requires Numbered(blocks) && EndsWell(end)
    ensures ChainAt(before + Sequence(blocks, end) + more, |before|, |before| + |Sequence(blocks, end)|)
  {
    hide ChainAt, Sequence, Numbered;
    BlocksAreChain(blocks, end);
    ChainSurvivesMore(before, Sequence(blocks, end), more, 0, |Sequence(blocks, end)|);
  }

  lemma {:induction false} BlocksAreChain(blocks: seq<Block>, end: u32)
    requires Numbered(blocks) && EndsWell(end)
    ensures ChainAt(Sequence(blocks, end), 0, |Sequence(blocks, end)|)
    decreases |blocks|
  {
    var b, rest := blocks[0], blocks[1..];
    if rest == [] {
      assert Sequence(rest, end) == [end] && |blocks| == 1;
      LastBlock(b, end);
    } else {
      RestIsNumbered(blocks);
      BlocksAreChain(rest, end);
      var tail := Sequence(rest, end);
      FirstBlock(b, tail);
    }
  }

  lemma RestIsNumbered(blocks: seq<Block>)
    requires Numbered(blocks) && |blocks| > 1
    ensures Numbered(blocks[1..]) && blocks[0].Valid() && blocks[0].Number() != 0
  {
    assert forall i :: 0 <= i < |blocks| - 1 ==> blocks[1..][i] == blocks[i + 1];
  }

  lemma LastBlock(b: Block, end: u32)
    requires b.Valid() && b.Number() == 0 && EndsWell(end)
    ensures ChainAt(b.Contents() + [end], 0, |b.payload| + 3)
  {
    var ws, n := b.Contents() + [end], |b.payload|;
    assert ws[0] == b.first && ws[n + 1] == b.marker && ws[n + 2] == end;
  }

  lemma FirstBlock(b: Block, tail: seq<u32>)
    requires b.Valid() && b.Number() != 0 && ChainAt(tail, 0, |tail|)
    ensures ChainAt(b.Contents() + tail, 0, |b.payload| + 2 + |tail|)
  {
    var ws, n := b.Contents() + tail, |b.payload|;
    ChainSurvivesMore(b.Contents(), tail, [], 0, |tail|);
    assert b.Contents() + tail + [] == ws;
    assert ws[0] == b.first && ws[n + 1] == b.marker;
  }

  /** And nothing else is. */
  lemma {:induction false} ChainIsSequence(buf: seq<u32>, p: nat, q: int) returns (blocks: seq<Block>, end: u32)
    requires ChainAt(buf, p, q)
    ensures Numbered(blocks) && EndsWell(end) && p < q <= |buf| && buf[p..q] == Sequence(blocks, end)
    decreases q - p
  {
    hide Sequence, Numbered;
    var n := NumWordsOf(V2, buf[p]);
    var b := Block(buf[p], buf[p + 1..p + n + 1], buf[p + n + 1]);
    var head := buf[p..p + n + 2];
    HeadOf(buf, p, n);
    if BlkNumOf(V2, buf[p]) == 0 {
      blocks, end := [b], buf[p + n + 2];
      OneBlock(b, end);
      assert buf[p..q] == head + [end];
    } else {
      var rest;
      rest, end := ChainIsSequence(buf, p + n + 2, q);
      blocks := [b] + rest;
      OneMoreBlock(b, rest, end);
      assert buf[p..q] == head + buf[p + n + 2..q];
    }
  }

  lemma HeadOf(buf: seq<u32>, p: nat, n: nat)
    requires p + n + 2 <= |buf|
    ensures buf[p..p + n + 2] == [buf[p]] + buf[p + 1..p + n + 1] + [buf[p + n + 1]]
  {
  }

  lemma OneBlock(b: Block, end: u32)
    requires b.Valid() && b.Number() == 0
    ensures Numbered([b]) && Sequence([b], end) == b.Contents() + [end]
  {
    assert [b][1..] == [];
  }

  lemma OneMoreBlock(b: Block, rest: seq<Block>, end: u32)
    requires b.Valid() && b.Number() != 0 && Numbered(rest)
    ensures Numbered([b] + rest) && Sequence([b] + rest, end) == b.Contents() + Sequence(rest, end)
  {
    assert ([b] + rest)[1..] == rest;
  }

  /** The check of any sequence of blocks gives its length. */
  method CheckSequence(before: seq<u32>, blocks: seq<Block>, end: u32, more: seq<u32>, iSize: int) returns (v: Verdict)
    requires Numbered(blocks) && EndsWell(end) && iSize > 0
    ensures v == Checked(|Sequence(blocks, end)|)
  {
    SequenceIsChain(before, blocks, end, more);
    hide ChainAt, Escapes, Sequence, Numbered;
    v := DcscCheckMsgBlock(before + Sequence(blocks, end) + more, |before|, iSize);
  }

  /** A block as the host would build it, with any block number. */
  lemma HostBlock(h: Header, payload: seq<u32>, number: nat, format: nat, mode: nat, cmdId: nat, checksum: nat)
    requires (h == V2 || h == V2_2) && |payload| <= 0x3ff && number < 0x100 && cmdId < 0x40 && checksum < 0x1_0000
    ensures var b := Block(MkFrstWrd(h, |payload|, number, format, mode, cmdId), payload, MkLstWrd(checksum));
            b.Valid() && b.Number() == number
    ensures EndsWell(MkEndMarker())
  {
    if h == V2 {
      FieldsReadBack(V2, |payload|, number, format, mode, cmdId);
    } else {
      V2TableReadsV2_2(|payload|, number, format, mode, cmdId);
    }
  }

  /** Two blocks without payload. */
  lemma TwoBlocks(ws: seq<u32>)
    requires ws == [0xa001_0000, 0xaa55_0000, 0xa000_0000, 0xaa55_0000, 0xdd33_0000]
    ensures ChainAt(ws, 0, 5)
  {
    var blocks := [Block(0xa001_0000, [], 0xaa55_0000), Block(0xa000_0000, [], 0xaa55_0000)];
    assert blocks[1..] == [blocks[1]] && blocks[1..][1..] == [];
    assert Sequence(blocks, 0xdd33_0000) == ws;
    hide ChainAt;
    BlocksAreChain(blocks, 0xdd33_0000);
  }

  // ---------- what leads it outside, word by word ----------

  /** What leads the check outside is the beginning of something that it would accept, and nothing else is. */
  lemma EscapesExactly(buf: seq<u32>, p: nat)
    requires p <= |buf|
    ensures Escapes(buf, p) <==> exists more :: more != [] && ChainAt(buf + more, p, |buf + more|)
  {
    if Escapes(buf, p) {
      var more := Completed(buf, p);
    }
    forall more | more != [] && ChainAt(buf + more, p, |buf + more|)
      ensures Escapes(buf, p)
    {
      PrefixEscapes(buf, more, p);
    }
  }

  lemma {:induction false} Completed(buf: seq<u32>, p: nat) returns (more: seq<u32>)
    requires p <= |buf| && Escapes(buf, p)
    ensures more != [] && ChainAt(buf + more, p, |buf + more|)
    decreases |buf| - p
  {
    var last := [0xa000_0000, 0xaa55_0000, 0xdd33_0000];
    if p == |buf| {
      more := last;
      assert (buf + more)[p] == last[0] && (buf + more)[p + 1] == last[1] && (buf + more)[p + 2] == last[2];
    } else {
      var n, number := NumWordsOf(V2, buf[p]), BlkNumOf(V2, buf[p]);
      if p + n + 1 >= |buf| {
        more := MissingPart(buf, p, n, if number == 0 then [0xdd33_0000] else last);
      } else if number == 0 {
        more := [0xdd33_0000];
        assert (buf + more)[p + n + 2] == 0xdd33_0000;
      } else {
        more := Completed(buf, p + n + 2);
      }
      assert (buf + more)[p] == buf[p];
    }
  }

  /** Payload words that are missing, the marker, and what comes then. */
  lemma MissingPart(buf: seq<u32>, p: nat, n: nat, rest: seq<u32>) returns (more: seq<u32>)
    requires p < |buf| <= p + n + 1 && n == NumWordsOf(V2, buf[p])
    requires rest == if BlkNumOf(V2, buf[p]) == 0 then [0xdd33_0000] else [0xa000_0000, 0xaa55_0000, 0xdd33_0000]
    ensures more != [] && ChainAt(buf + more, p, |buf + more|)
  {
    more := seq(p + n + 1 - |buf|, i => 0) + [0xaa55_0000] + rest;
    var all := buf + more;
    assert all[p] == buf[p] && all[p + n + 1] == 0xaa55_0000 && all[p + n + 2] == rest[0];
    if |rest| == 3 {
      assert all[p + n + 3] == rest[1] && all[p + n + 4] == rest[2];
      assert ChainAt(all, p + n + 2, |all|);
    }
  }

  lemma {:induction false} PrefixEscapes(buf: seq<u32>, more: seq<u32>, p: nat)
    requires p <= |buf| && more != [] && ChainAt(buf + more, p, |buf + more|)
    ensures Escapes(buf, p)
    decreases |buf| - p
  {
    if p < |buf| {
      var n := NumWordsOf(V2, buf[p]);
      assert (buf + more)[p] == buf[p];
      if p + n + 1 < |buf| {
        assert (buf + more)[p + n + 1] == buf[p + n + 1];
        if BlkNumOf(V2, buf[p]) != 0 {
          PrefixEscapes(buf, more, p + n + 2);
        }
      }
    }
  }
}
