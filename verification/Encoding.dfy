/**
 Encode mode: any sequence of transactions is written to a file as frames, and checking that
 file finds exactly these frames again.
 */
module Encoding {
  import opened Words
  import opened MsgHeader
  import opened Payload
  import opened Frames
  import opened FrameFormat
  import opened MessageBuffer
  import opened CheckMsg

  datatype Command =
    | SingleWrite(a: u32, v: u32)
    | SingleRead(a: u32)
    | MultipleWrite(address: nat, data: seq<u8>, count: nat, dm: int)
    | MultipleRead(address: nat, count: nat)
  {
    /** Counts are positive, address ranges do not wrap, and there are data for all items. */
    predicate Legal(compression: bool) {
      match this
      case MultipleWrite(address, data, n, dm) =>
        && 1 <= n < 0x8000_0000 && address + n <= 0x1_0000_0000
        && (Supported(dm, compression) ==> BytesNeeded(dm, n) <= |data|)
      case MultipleRead(address, n) => 1 <= n < 0x8000_0000 && address + n <= 0x1_0000_0000
      case _ => true
    }
  }

  /** The settings that determine the frames of a command. */
  datatype Setup = Setup(h: Header, mibSize: nat, mrbSize: nat, compression: bool) {
    predicate Valid() {
      && Known(h) && 6 <= mibSize && mibSize - 3 <= MaxPayload(h) && 3 <= mrbSize
      && (compression ==> h == V2_2)
    }
  }

  function SetupOf(m: MsgBuffer): Setup
    reads m
  {
    Setup(m.header, m.mib.Length, m.mrbSize, m.compression)
  }

  function FramesOf(s: Setup, c: Command): seq<seq<u32>>
    requires s.Valid() && c.Legal(s.compression)
  {
    match c
    case SingleWrite(a, v) => [SingleWriteFrame(s.h, MODE_MEMMAPPED, a, v)]
    case SingleRead(a) => [SingleReadFrame(s.h, MODE_MEMMAPPED, a)]
    case MultipleWrite(address, data, n, dm) =>
      if Supported(dm, s.compression) then
        var t := Transfer(s.h, s.mibSize, s.compression, address, data, n, dm, MODE_MEMMAPPED);
        WriteFrames(t, t.Count())
      else []
    case MultipleRead(address, n) =>
      ReadFrames(s.h, MODE_MEMMAPPED, address, n, s.mrbSize - 2, BlockCount(n, s.mrbSize - 2))
  }

  predicate AllLegal(cmds: seq<Command>, compression: bool) {
    forall i :: 0 <= i < |cmds| ==> cmds[i].Legal(compression)
  }

  /** Everything a read asks for fits the caller's buffer. */
  predicate ReadsFit(cmds: seq<Command>, size: nat) {
    forall i :: 0 <= i < |cmds| ==> (cmds[i].MultipleRead? ==> cmds[i].count <= size)
  }

  function AllFrames(s: Setup, cmds: seq<Command>): seq<seq<u32>>
    requires s.Valid() && AllLegal(cmds, s.compression)
  {
    if cmds == [] then []
    else
      var k := |cmds| - 1;
      AllFrames(s, cmds[..k]) + FramesOf(s, cmds[k])
  }

  /** The frames of the commands stand one behind the other, in the order of the commands. */
  lemma {:induction false} FramesInOrder(s: Setup, cmds: seq<Command>, more: seq<Command>)
    requires s.Valid() && AllLegal(cmds, s.compression) && AllLegal(more, s.compression)
    ensures AllLegal(cmds + more, s.compression)
    ensures AllFrames(s, cmds + more) == AllFrames(s, cmds) + AllFrames(s, more)
    ensures |more| == 1 ==> AllFrames(s, more) == FramesOf(s, more[0])
  {
    hide FramesOf, Command.Legal;
    var k := |more| - 1;
    if more == [] {
      assert cmds + more == cmds;
    } else {
      FramesInOrder(s, cmds, more[..k]);
      assert (cmds + more)[..|cmds + more| - 1] == cmds + more[..k];
      Regrouped(AllFrames(s, cmds), AllFrames(s, more[..k]), FramesOf(s, more[k]));
      assert k == 0 ==> more[..k] == [];
    }
  }

  lemma Regrouped<T>(a: seq<T>, b: seq<T>, c: seq<T>)
    ensures (a + b) + c == a + (b + c)
  {
  }

  method Issue(m: MsgBuffer, c: Command, scratch: array<u32>)
    requires m.Valid() && m.encode && SetupOf(m).Valid() && c.Legal(m.compression)
    requires scratch != m.mib && (c.MultipleRead? ==> c.count <= scratch.Length)
    modifies m`dev, m`file, m.mib, scratch
    ensures m.Valid() && m.file == old(m.file) + Flatten(FramesOf(SetupOf(m), c)) && m.dev == old(m.dev)
  {
    hide Frames.SingleWriteFrame, Frames.SingleReadFrame, Frames.WriteFrames, Frames.ReadFrames, Frames.BlockCount;
    match c
    case SingleWrite(a, v) =>
      var r := m.RcuSingleWriteExt(a, v, MODE_MEMMAPPED);
      assert Flatten([SingleWriteFrame(m.header, MODE_MEMMAPPED, a, v)])
             == SingleWriteFrame(m.header, MODE_MEMMAPPED, a, v);
    case SingleRead(a) =>
      var r, v := m.RcuSingleReadExt(a, MODE_MEMMAPPED);
      assert Flatten([SingleReadFrame(m.header, MODE_MEMMAPPED, a)]) == SingleReadFrame(m.header, MODE_MEMMAPPED, a);
    case MultipleWrite(address, data, n, dm) =>
      var r := m.RcuMultipleWriteExt(address, data, n, dm, MODE_MEMMAPPED);
    case MultipleRead(address, n) =>
      var r := m.RcuMultipleReadExt(address, n, scratch, MODE_MEMMAPPED);
  }

  lemma OneMoreCommand(s: Setup, cmds: seq<Command>, i: nat)
    requires s.Valid() && i < |cmds| && AllLegal(cmds, s.compression)
    ensures Flatten(AllFrames(s, cmds[..i + 1])) == Flatten(AllFrames(s, cmds[..i])) + Flatten(FramesOf(s, cmds[i]))
  {
    hide FramesOf, Command.Legal;
    assert cmds[..i + 1][..i] == cmds[..i];
    FlattenConcat(AllFrames(s, cmds[..i]), FramesOf(s, cmds[i]));
  }

  /** The file holds the frames of the first k commands behind its original contents. */
  ghost predicate Holds(file: seq<u32>, f0: seq<u32>, s: Setup, cmds: seq<Command>, k: nat)
    requires s.Valid() && k <= |cmds| && AllLegal(cmds, s.compression)
  {
    file == f0 + Flatten(AllFrames(s, cmds[..k]))
  }

  method IssueNext(m: MsgBuffer, cmds: seq<Command>, k: nat, scratch: array<u32>, ghost f0: seq<u32>)
    requires m.Valid() && m.encode && SetupOf(m).Valid() && k < |cmds|
    requires AllLegal(cmds, m.compression) && ReadsFit(cmds, scratch.Length) && scratch != m.mib
    requires Holds(m.file, f0, SetupOf(m), cmds, k)
    modifies m`dev, m`file, m.mib, scratch
    ensures m.Valid() && Holds(m.file, f0, SetupOf(m), cmds, k + 1) && m.dev == old(m.dev)
  {
    ghost var s, before := SetupOf(m), m.file;
    assert cmds[k].Legal(m.compression) && (cmds[k].MultipleRead? ==> cmds[k].count <= scratch.Length);
    hide FramesOf, Words.Flatten, MsgBuffer.Valid, Holds, Command.Legal, AllLegal, ReadsFit, Setup.Valid;
    Issue(m, cmds[k], scratch);
    HoldsNext(before, m.file, f0, s, cmds, k);
  }

  lemma HoldsNext(file: seq<u32>, file': seq<u32>, f0: seq<u32>, s: Setup, cmds: seq<Command>, k: nat)
    requires s.Valid() && k < |cmds| && AllLegal(cmds, s.compression) && Holds(file, f0, s, cmds, k)
    requires file' == file + Flatten(FramesOf(s, cmds[k]))
    ensures Holds(file', f0, s, cmds, k + 1)
  {
    hide FramesOf, AllFrames, Words.Flatten, Command.Legal;
    OneMoreCommand(s, cmds, k);
  }

  /** Any sequence of transactions appends its frames, in order, to the file. */
  method EncodeAll(m: MsgBuffer, cmds: seq<Command>, scratch: array<u32>)
    requires m.Valid() && m.encode && SetupOf(m).Valid()
    requires AllLegal(cmds, m.compression) && ReadsFit(cmds, scratch.Length)
    requires scratch != m.mib
    modifies m`dev, m`file, m.mib, scratch
    ensures m.Valid() && m.file == old(m.file) + Flatten(AllFrames(SetupOf(m), cmds)) && m.dev == old(m.dev)
  {
    ghost var s, f0 := SetupOf(m), m.file;
    assert cmds[..0] == [] && cmds[..|cmds|] == cmds;
    var i := 0;
    assert Holds(m.file, f0, s, cmds, 0);
    assert forall file :: Holds(file, f0, s, cmds, |cmds|) ==> file == f0 + Flatten(AllFrames(s, cmds));
    hide Holds, AllFrames, Words.Flatten, MsgBuffer.Valid, Setup.Valid, AllLegal, ReadsFit;
    while i < |cmds|
      invariant 0 <= i <= |cmds| && m.Valid() && Holds(m.file, f0, s, cmds, i) && m.dev == old(m.dev)
    {
      IssueNext(m, cmds, i, scratch, f0);
      i := i + 1;
    }
  }

  lemma {:induction false} WriteFramesAreFrames(t: Transfer, k: nat)
    requires t.Valid() && k <= t.Count() && (t.h == V2 || t.h == V2_2)
    ensures forall f :: f in WriteFrames(t, k) ==> IsFrame(f)
  {
    if k > 0 {
      WriteFramesAreFrames(t, k - 1);
      BlockStarts(t, k - 1);
      var start, cnt := (k - 1) * t.Max(), t.Len(k - 1);
      BlockFrameFits(t, start, cnt);
      assert IsFrameOf(BlockFrame(t, start, cnt), t.h, BlockPayload(t, start, cnt), t.Factor() - 1, t.mode,
                       MULTI_WRITE);
    }
  }

  lemma {:induction false} ReadFramesAreFrames(h: Header, mode: nat, address: nat, n: nat, max: nat, k: nat)
    requires (h == V2 || h == V2_2) && n >= 1 && max >= 1 && k <= BlockCount(n, max)
    requires n < 0x8000_0000 && address + n <= 0x1_0000_0000
    ensures forall f :: f in ReadFrames(h, mode, address, n, max, k) ==> IsFrame(f)
  {
    if k > 0 {
      ReadFramesAreFrames(h, mode, address, n, max, k - 1);
      Blocks(n, max, k - 1);
      var a, cnt := address + (k - 1) * max, BlockLen(n, max, k - 1);
      assert IsFrameOf(ReadFrame(h, mode, a, cnt), h, [a, cnt], 0, mode, MULTI_READ);
    }
  }

  lemma FramesOfAreFrames(s: Setup, c: Command)
    requires s.Valid() && c.Legal(s.compression) && s.h != V1
    ensures forall f :: f in FramesOf(s, c) ==> IsFrame(f)
  {
    match c
    case SingleWrite(a, v) =>
      assert IsFrameOf(SingleWriteFrame(s.h, MODE_MEMMAPPED, a, v), s.h, [a, v], 0, MODE_MEMMAPPED, SINGLE_WRITE);
    case SingleRead(a) =>
      assert IsFrameOf(SingleReadFrame(s.h, MODE_MEMMAPPED, a), s.h, [a], 0, MODE_MEMMAPPED, SINGLE_READ);
    case MultipleWrite(address, data, n, dm) =>
      if Supported(dm, s.compression) {
        var t := Transfer(s.h, s.mibSize, s.compression, address, data, n, dm, MODE_MEMMAPPED);
        WriteFramesAreFrames(t, t.Count());
      }
    case MultipleRead(address, n) =>
      ReadFramesAreFrames(s.h, MODE_MEMMAPPED, address, n, s.mrbSize - 2, BlockCount(n, s.mrbSize - 2));
  }

  lemma {:induction false} AllFramesAreFrames(s: Setup, cmds: seq<Command>)
    requires s.Valid() && AllLegal(cmds, s.compression) && s.h != V1
    ensures forall f :: f in AllFrames(s, cmds) ==> IsFrame(f)
    decreases |cmds|
  {
    hide FramesOf, CheckMsg.IsFrame;
    if cmds != [] {
      var k := |cmds| - 1;
      AllFramesAreFrames(s, cmds[..k]);
      FramesOfAreFrames(s, cmds[k]);
    }
  }

  /** Encoding and then checking finds the frames that were written, one by one. */
  method EncodeAndCheck(m: MsgBuffer, cmds: seq<Command>, scratch: array<u32>) returns (sizes: seq<int>, last: Verdict)
    requires m.Valid() && m.encode && SetupOf(m).Valid() && m.header != V1 && m.file == []
    requires AllLegal(cmds, m.compression) && ReadsFit(cmds, scratch.Length)
    requires scratch != m.mib
    modifies m`dev, m`file, m.mib, scratch
    ensures var frames := AllFrames(SetupOf(m), cmds);
            frames != [] ==> sizes == Lengths(frames) && last == Checked(|frames[|frames| - 1]|)
  {
    ghost var frames := AllFrames(SetupOf(m), cmds);
    AllFramesAreFrames(SetupOf(m), cmds);
    FramesSplit(frames);
    hide AllFrames, Words.Flatten, MsgBuffer.Valid, Setup.Valid, AllLegal, ReadsFit;
    hide CheckMsg.SplitInto, CheckMsg.IsFrame;
    EncodeAll(m, cmds, scratch);
    assert m.file == Flatten(frames);
    LengthsOf(frames);
    sizes, last := CheckMessageBlocks(m.file);
  }

  lemma LengthsOf(frames: seq<seq<u32>>)
    ensures |Lengths(frames)| == |frames|
    ensures frames != [] ==> Lengths(frames)[|frames| - 1] == |frames[|frames| - 1]|
  {
  }

  /** What encode mode writes for one call of each kind, word by word. */
  method EncodeOneOfEach(m: MsgBuffer, a: u32, v: u32, data: seq<u8>, scratch: array<u32>)
    requires m.Valid() && m.encode && m.header == V2_2 && 6 <= m.mib.Length && m.file == []
    requires scratch != m.mib && scratch.Length >= 1 && |data| == 4
    modifies m`dev, m`file, m.mib, scratch
    ensures m.file == [0xb000_0082, a, v, 0xaa55_0000, 0xdd33_0000]
                      + [0xb000_0041, a, 0xaa55_0000, 0xdd33_0000]
                      + [0xb000_00c4, a, 1, WordAt(data, 0), 0xaa55_0000, 0xdd33_0000]
                      + [0xb000_0083, a, 1, 0xaa55_0000, 0xdd33_0000]
  {
    hide Frames.WriteFrames, Frames.ReadFrames, Frames.SingleWriteFrame, Frames.SingleReadFrame, Words.Flatten;
    CommandFrames(V2_2, 0, a, v);
    CommandFrames(V2_2, 0, a, 1);
    OneWordFrame(m, a, data);
    OneWordRequest(a, m.mrbSize - 2);
    var r := m.RcuSingleWriteExt(a, v, 0);
    var value;
    r, value := m.RcuSingleReadExt(a, 0);
    r := m.RcuMultipleWriteExt(a, data, 1, 4, 0);
    r := m.RcuMultipleReadExt(a, 1, scratch, 0);
  }

  lemma OneWordFrame(m: MsgBuffer, a: u32, data: seq<u8>)
    requires m.Valid() && m.header == V2_2 && 6 <= m.mib.Length && |data| == 4
    ensures var t := m.TransferOf(a, data, 1, 4, 0);
            && t.Valid()
            && Flatten(WriteFrames(t, t.Count()))
               == [0xb000_00c4, a, 1, WordAt(data, 0), 0xaa55_0000, 0xdd33_0000]
  {
    var t := m.TransferOf(a, data, 1, 4, 0);
    assert t.Count() == 1 && t.Len(0) == 1;
    BlockStarts(t, 0);
    WriteFrame(t, 0, 1);
    PayloadIsWord(data, t.compression);
    assert WriteFrames(t, 0) == [];
    assert WriteFrames(t, 1) == [BlockFrame(t, 0, 1)];
    assert Flatten([BlockFrame(t, 0, 1)]) == BlockFrame(t, 0, 1);
  }

  lemma PayloadIsWord(data: seq<u8>, compression: bool)
    ensures PayloadWords(data, 4, compression, 0, 1) == [WordAt(data, 0)]
  {
  }

  lemma OneWordRequest(a: u32, max: nat)
    requires max >= 1
    ensures BlockCount(1, max) == 1
    ensures Flatten(ReadFrames(V2_2, 0, a, 1, max, 1)) == ReadFrame(V2_2, 0, a, 1)
  {
    var frame := ReadFrame(V2_2, 0, a, 1);
    assert ReadFrames(V2_2, 0, a, 1, max, 0) == [];
    assert ReadFrames(V2_2, 0, a, 1, max, 1) == [frame];
    assert Flatten([frame]) == frame;
  }
}
