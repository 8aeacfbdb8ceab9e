/**
 How a transfer of many words is split into frames that fit the message in buffer (for
 writing) or whose answers fit the message result buffer (for reading), and what the
 firmware makes of those frames.
 */
module Frames {
  import opened Words
  import opened MsgHeader
  import opened Payload
  import opened RcuBus
  import opened Firmware

  // ---------- splitting n items into blocks of at most max ----------

  function BlockCount(n: nat, max: nat): nat
    requires n >= 1 && max >= 1
  {
    (n - 1) / max + 1
  }

  /** The size of block b: a full block, or what is left for the last one. */
  function BlockLen(n: nat, max: nat, b: nat): int
    requires n >= 1 && max >= 1
  {
    if b == BlockCount(n, max) - 1 then n - b * max else max
  }

  /** The number of items in the first k blocks. */
  function Covered(n: nat, max: nat, k: nat): nat
    requires n >= 1 && max >= 1
  {
    if k == BlockCount(n, max) then n else k * max
  }

  lemma MulMonotone(x: nat, y: nat, m: nat)
    requires x <= y
    ensures x * m <= y * m
  {
  }

  /** The blocks are not empty, do not overlap, and together are the n items. */
  lemma Blocks(n: nat, max: nat, b: nat)
    requires n >= 1 && max >= 1 && b < BlockCount(n, max)
    ensures 1 <= BlockLen(n, max, b) <= max
    ensures b * max + BlockLen(n, max, b) == Covered(n, max, b + 1) <= n
    ensures Covered(n, max, b) == b * max
    ensures b + 1 < BlockCount(n, max) ==> BlockLen(n, max, b) == max
    ensures b + 1 == BlockCount(n, max) ==> b * max + BlockLen(n, max, b) == n
  {
    var q := (n - 1) / max;
    assert q * max <= n - 1 < q * max + max;
    MulMonotone(b, q, max);
    if b < q {
      MulMonotone(b + 1, q, max);
      assert (b + 1) * max == b * max + max;
    }
  }

  // ---------- the frames of a write ----------

  /** What a multiple write is to transfer, and how. */
  datatype Transfer = Transfer(h: Header, mibSize: nat, compression: bool, address: nat,
                               data: seq<u8>, n: nat, dm: int, mode: nat)
  {
    predicate Valid() {
      && Known(h) && 6 <= mibSize && mibSize - 3 <= MaxPayload(h)
      && (compression ==> h == V2_2)
      && Supported(dm, compression)
      && 1 <= n < 0x8000_0000 && address + n <= 0x1_0000_0000
    }

    function Factor(): (cf: nat)
      requires Valid()
      ensures 1 <= cf <= 4
    {
      CompFactor(dm, compression)
    }

    function Max(): (max: nat)
      requires Valid()
      ensures max >= 1
    {
      (mibSize - 5) * Factor()
    }

    function Count(): nat
      requires Valid()
    {
      BlockCount(n, Max())
    }

    function Len(b: nat): int
      requires Valid()
    {
      BlockLen(n, Max(), b)
    }

    function Sent(): seq<u32>
      requires Valid()
    {
      SentItems(data, dm, compression, n)
    }

    /** The mode the header word can express. */
    function EffectiveMode(): nat
      requires Valid()
    {
      mode % h.modeRange
    }
  }

  /** Items start .. start + cnt form a block: they fit one frame and fill whole words, except at the very end. */
  predicate IsBlock(t: Transfer, start: nat, cnt: nat)
    requires t.Valid()
  {
    && 1 <= cnt && start + cnt <= t.n
    && FrameOf(t.dm, t.compression, t.n, start, cnt)
    && PayloadSize(cnt, t.Factor()) <= t.mibSize - 5
  }

  /** The payload of a block: the address, the number of items and the packed items. */
  function BlockPayload(t: Transfer, start: nat, cnt: nat): seq<u32>
    requires t.Valid() && IsBlock(t, start, cnt)
  {
    [t.address + start, cnt] + PayloadWords(t.data, t.dm, t.compression, start, cnt)
  }

  function BlockFrame(t: Transfer, start: nat, cnt: nat): seq<u32>
    requires t.Valid() && IsBlock(t, start, cnt)
  {
    Frame(t.h, BlockPayload(t, start, cnt), t.Factor() - 1, t.mode, MULTI_WRITE)
  }

  /** Every frame fits the message in buffer, and its word count fits the header. */
  lemma BlockFrameFits(t: Transfer, start: nat, cnt: nat)
    requires t.Valid() && IsBlock(t, start, cnt)
    ensures |BlockFrame(t, start, cnt)| <= t.mibSize
    ensures |BlockPayload(t, start, cnt)| <= MaxPayload(t.h)
  {
  }

  lemma BlockIsUnpacked(t: Transfer, start: nat, cnt: nat)
    requires t.Valid() && IsBlock(t, start, cnt)
    ensures |BlockPayload(t, start, cnt)| == 2 + PayloadSize(cnt, t.Factor())
    ensures UnpackItems(t.Factor(), BlockPayload(t, start, cnt)[2..], cnt) == t.Sent()[start..start + cnt]
  {
    hide Payload.PayloadWord, Payload.UnpackItem, Payload.SentItem, Payload.CompFactor;
    var ws := PayloadWords(t.data, t.dm, t.compression, start, cnt);
    assert BlockPayload(t, start, cnt)[2..] == ws;
    var items := UnpackItems(t.Factor(), ws, cnt);
    forall i | 0 <= i < cnt
      ensures items[i] == t.Sent()[start..start + cnt][i]
    {
      UnpackPayload(t.data, t.dm, t.compression, t.n, start, cnt, i);
      assert items[i] == UnpackItem(t.Factor(), ws, i);
    }
  }

  /** The firmware writes exactly the items of the block, to where they belong. */
  lemma BlockFrameIsPerformed(t: Transfer, start: nat, cnt: nat, d: Device)
    requires t.Valid() && IsBlock(t, start, cnt) && d.fmt == t.h && t.mibSize <= |d.mib|
    ensures var frame := BlockFrame(t, start, cnt);
            Run(d, frame) == Reply(d.(mib := Overlay(d.mib, frame)),
              Answer(WriteItems(d.rcu, t.EffectiveMode(), t.address + start, t.Sent()[start..start + cnt]), []))
  {
    hide Payload.UnpackItems, Payload.PayloadWords, RcuBus.WriteItems, Firmware.Overlay, MsgHeader.MkFrstWrd,
      Firmware.Perform, Firmware.Run, MsgHeader.CmdIdOf, MsgHeader.ModeOf, MsgHeader.DataFmtOf, Transfer.Sent;
    BlockFrameFits(t, start, cnt);
    var frame, payload, cf := BlockFrame(t, start, cnt), BlockPayload(t, start, cnt), t.Factor();
    FrameIsPerformed(d, payload, cf - 1, t.mode, MULTI_WRITE);
    BlockHeader(t, |payload|);
    BlockIsUnpacked(t, start, cnt);
    PerformsMultiWrite(d.(mib := Overlay(d.mib, frame)), frame[0], payload, cf);
  }

  lemma BlockHeader(t: Transfer, size: nat)
    requires t.Valid() && size <= MaxPayload(t.h)
    ensures var w := MkFrstWrd(t.h, size, 0, t.Factor() - 1, t.mode, MULTI_WRITE);
            && CmdIdOf(t.h, w) == MULTI_WRITE
            && ModeOf(t.h, w) == t.EffectiveMode()
            && DataFmtOf(t.h, w) == t.Factor() - 1
  {
    FieldsReadBack(t.h, size, 0, t.Factor() - 1, t.mode, MULTI_WRITE);
  }

  lemma PerformsMultiWrite(d: Device, header: u32, p: seq<u32>, cf: nat)
    requires Known(d.fmt) && CmdIdOf(d.fmt, header) == MULTI_WRITE && DataFmtOf(d.fmt, header) == cf - 1
    requires 1 <= cf <= 4 && |p| >= 2 && PayloadSize(p[1], cf) <= |p| - 2
    ensures Perform(d, header, p)
            == Reply(d, Answer(WriteItems(d.rcu, ModeOf(d.fmt, header), p[0], UnpackItems(cf, p[2..], p[1])), []))
  {
  }

  /** Items written after the first `start` ones continue the transfer. */
  lemma WriteContinues(r: Rcu, t: Transfer, start: nat, cnt: nat)
    requires t.Valid() && start + cnt <= t.n
    ensures WriteItems(WriteItems(r, t.EffectiveMode(), t.address, t.Sent()[..start]),
                       t.EffectiveMode(), t.address + start, t.Sent()[start..start + cnt])
            == WriteItems(r, t.EffectiveMode(), t.address, t.Sent()[..start + cnt])
  {
    WriteItemsConcat(r, t.EffectiveMode(), t.address, t.Sent()[..start], t.Sent()[start..start + cnt]);
    assert t.Sent()[..start] + t.Sent()[start..start + cnt] == t.Sent()[..start + cnt];
  }

  /** The blocks a transfer is split into are blocks in this sense. */
  lemma BlockStarts(t: Transfer, b: nat)
    requires t.Valid() && b < t.Count()
    ensures t.Len(b) >= 1 && IsBlock(t, b * t.Max(), t.Len(b))
  {
    Blocks(t.n, t.Max(), b);
    StartsOnWord(b, t.mibSize - 5, t.Factor());
    SizeMonotone(t.Len(b), t.mibSize - 5, t.Factor());
    FullBlock(t.mibSize - 5, t.Factor());
  }

  lemma StartsOnWord(b: nat, words: nat, cf: nat)
    requires 1 <= cf <= 4
    ensures b * (words * cf) % cf == 0
    ensures b * (words * cf) / cf == b * words
  {
    assert b * (words * cf) == (b * words) * cf;
    FullBlock(b * words, cf);
  }

  lemma FullBlock(words: nat, cf: nat)
    requires 1 <= cf <= 4
    ensures words * cf % cf == 0 && words * cf / cf == words
  {
    match cf
    case 1 =>
    case 2 =>
    case 3 =>
    case 4 =>
  }

  lemma SizeMonotone(cnt: nat, words: nat, cf: nat)
    requires 1 <= cf <= 4 && cnt <= words * cf
    ensures PayloadSize(cnt, cf) <= words
  {
    match cf
    case 1 =>
    case 2 =>
    case 3 =>
    case 4 =>
  }

  /** The frames of the first k blocks. */
  function WriteFrames(t: Transfer, k: nat): seq<seq<u32>>
    requires t.Valid() && k <= t.Count()
  {
    if k == 0 then []
    else
      BlockStarts(t, k - 1);
      WriteFrames(t, k - 1) + [BlockFrame(t, (k - 1) * t.Max(), t.Len(k - 1))]
  }

  // ---------- the frames of a read and of single transactions ----------

  /** The frame that asks for cnt words. */
  function ReadFrame(h: Header, mode: nat, a: u32, cnt: u32): seq<u32>
    requires Known(h)
  {
    Frame(h, [a, cnt], 0, mode, MULTI_READ)
  }

  /** The requests of the first k blocks of a read whose answers hold at most max words. */
  function ReadFrames(h: Header, mode: nat, address: nat, n: nat, max: nat, k: nat): seq<seq<u32>>
    requires Known(h) && n >= 1 && max >= 1 && k <= BlockCount(n, max)
    requires n < 0x8000_0000 && address + n <= 0x1_0000_0000
  {
    if k == 0 then []
    else
      Blocks(n, max, k - 1);
      ReadFrames(h, mode, address, n, max, k - 1)
      + [ReadFrame(h, mode, address + (k - 1) * max, BlockLen(n, max, k - 1))]
  }

  lemma ReadFramesStep(h: Header, mode: nat, address: nat, n: nat, max: nat, b: nat)
    requires Known(h) && n >= 1 && max >= 1 && b < BlockCount(n, max)
    requires n < 0x8000_0000 && address + n <= 0x1_0000_0000
    ensures 0 <= BlockLen(n, max, b) && b * max + BlockLen(n, max, b) <= n
    ensures Flatten(ReadFrames(h, mode, address, n, max, b + 1))
            == Flatten(ReadFrames(h, mode, address, n, max, b))
               + ReadFrame(h, mode, address + b * max, BlockLen(n, max, b))
  {
    Blocks(n, max, b);
    var frame := ReadFrame(h, mode, address + b * max, BlockLen(n, max, b));
    FlattenConcat(ReadFrames(h, mode, address, n, max, b), [frame]);
    assert Flatten([frame]) == frame;
  }

  lemma WriteFramesStep(t: Transfer, b: nat)
    requires t.Valid() && b < t.Count()
    ensures t.Len(b) >= 1 && IsBlock(t, b * t.Max(), t.Len(b))
    ensures Flatten(WriteFrames(t, b + 1)) == Flatten(WriteFrames(t, b)) + BlockFrame(t, b * t.Max(), t.Len(b))
  {
    BlockStarts(t, b);
    var frame := BlockFrame(t, b * t.Max(), t.Len(b));
    FlattenConcat(WriteFrames(t, b), [frame]);
    assert Flatten([frame]) == frame;
  }

  function SingleWriteFrame(h: Header, mode: nat, a: u32, v: u32): seq<u32>
    requires Known(h)
  {
    Frame(h, [a, v], 0, mode, SINGLE_WRITE)
  }

  function SingleReadFrame(h: Header, mode: nat, a: u32): seq<u32>
    requires Known(h)
  {
    Frame(h, [a], 0, mode, SINGLE_READ)
  }

  lemma ReadFrameIsPerformed(d: Device, mode: nat, a: u32, cnt: u32)
    requires Known(d.fmt) && 5 <= |d.mib|
    ensures var frame := ReadFrame(d.fmt, mode, a, cnt);
            Run(d, frame) == Reply(d.(mib := Overlay(d.mib, frame)), ReadItems(d.rcu, mode % d.fmt.modeRange, a, cnt))
  {
    FrameIsPerformed(d, [a, cnt], 0, mode, MULTI_READ);
    FieldsReadBack(d.fmt, 2, 0, 0, mode, MULTI_READ);
  }

  lemma SingleWriteIsPerformed(d: Device, mode: nat, a: u32, v: u32)
    requires Known(d.fmt) && 5 <= |d.mib|
    ensures var frame := SingleWriteFrame(d.fmt, mode, a, v);
            Run(d, frame) == Reply(d.(mib := Overlay(d.mib, frame)),
                                   Answer(WriteItem(d.rcu, mode % d.fmt.modeRange, a, v), []))
  {
    FrameIsPerformed(d, [a, v], 0, mode, SINGLE_WRITE);
    FieldsReadBack(d.fmt, 2, 0, 0, mode, SINGLE_WRITE);
  }

  lemma SingleReadIsPerformed(d: Device, mode: nat, a: u32)
    requires Known(d.fmt) && 4 <= |d.mib|
    ensures var frame := SingleReadFrame(d.fmt, mode, a);
            Run(d, frame) == Reply(d.(mib := Overlay(d.mib, frame)), ReadItem(d.rcu, mode % d.fmt.modeRange, a))
  {
    FrameIsPerformed(d, [a], 0, mode, SINGLE_READ);
    FieldsReadBack(d.fmt, 1, 0, 0, mode, SINGLE_READ);
  }
}
