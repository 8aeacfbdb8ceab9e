/**
 The DCS board as the interface sees it: the message in buffer, the message result buffer
 and the general control register. Setting the execute bit lets the firmware interpret the
 frame in the message in buffer, as the format description prescribes, in one step.
 */
module Firmware {
  import opened Words
  import opened MsgHeader
  import opened Payload
  import opened RcuBus

  const COMMAND_EXECUTE: bv8 := 0x80
  const DIRECT_BUS_ACTIVATE: bv8 := 0x08
  const SELECTMAP_ACTIVATE: bv8 := 0x04
  const FIRMWARE_RESET: bv8 := 0x02

  const STATUS_NOMARKER := 0x01
  const STATUS_NOENDMRK := 0x02
  const STATUS_NOTGTASW := 0x04

  /** fmt is the frame format of the firmware, tag the unused half of its result header. */
  datatype Device = Device(fmt: Header, tag: u16, ctrl: bv8, mib: seq<u32>, mrb: seq<u32>, rcu: Rcu)

  datatype BusMode = MsgBuf | SelectMap | Flash

  function BusModeOf(ctrl: bv8): BusMode {
    if ctrl & DIRECT_BUS_ACTIVATE == 0 then MsgBuf
    else if ctrl & SELECTMAP_ACTIVATE != 0 then SelectMap
    else Flash
  }

  /** A buffer after words have been written to its beginning; what does not fit is lost. */
  function Overlay(buffer: seq<u32>, ws: seq<u32>): (r: seq<u32>)
    ensures |r| == |buffer|
  {
    if |ws| <= |buffer| then ws + buffer[|ws|..] else ws[..|buffer|]
  }

  /** The result header counts itself, the status word and the data words. */
  function Result(d: Device, status: u32, data: seq<u32>): seq<u32> {
    [d.tag * 0x1_0000 + (2 + |data|) % 0x1_0000, status] + data
  }

  function Reply(d: Device, answer: Answer): Device {
    d.(rcu := answer.rcu, mrb := Overlay(d.mrb, Result(d, 0, answer.values)))
  }

  function Refuse(d: Device, status: u32): Device {
    d.(mrb := Overlay(d.mrb, Result(d, status, [])))
  }

  function Perform(d: Device, header: u32, p: seq<u32>): Device
    requires Known(d.fmt)
  {
    var cmd, mode, cf := CmdIdOf(d.fmt, header), ModeOf(d.fmt, header), DataFmtOf(d.fmt, header) + 1;
    if cmd == SINGLE_WRITE && |p| == 2 then
      Reply(d, Answer(WriteItem(d.rcu, mode, p[0], p[1]), []))
    else if cmd == SINGLE_READ && |p| == 1 then
      Reply(d, ReadItem(d.rcu, mode, p[0]))
    else if cmd == MULTI_WRITE && |p| >= 2 && PayloadSize(p[1], cf) <= |p| - 2 then
      Reply(d, Answer(WriteItems(d.rcu, mode, p[0], UnpackItems(cf, p[2..], p[1])), []))
    else if cmd == MULTI_READ && |p| == 2 then
      Reply(d, ReadItems(d.rcu, mode, p[0], p[1]))
    else
      Refuse(d, STATUS_NOTGTASW)
  }

  function Execute(d: Device): Device
    requires Known(d.fmt)
  {
    var n := if d.mib == [] then -1 else NumWordsOf(d.fmt, d.mib[0]);
    if n < 0 || n + 2 >= |d.mib| || !IsMarker(d.mib[n + 1]) then Refuse(d, STATUS_NOMARKER)
    else if !IsEndMarker(d.mib[n + 2]) then Refuse(d, STATUS_NOENDMRK)
    else Perform(d, d.mib[0], d.mib[1..n + 1])
  }

  function WriteReg(d: Device, v: bv8): Device
    requires Known(d.fmt)
  {
    if v & COMMAND_EXECUTE != 0 then Execute(d.(ctrl := v & !COMMAND_EXECUTE)) else d.(ctrl := v)
  }

  /** A frame written to the message in buffer and executed. */
  function Run(d: Device, frame: seq<u32>): Device
    requires Known(d.fmt)
  {
    Execute(d.(mib := Overlay(d.mib, frame)))
  }

  /** Setting the execute bit on top of the others runs the frame and leaves the other bits alone. */
  lemma ExecuteBitRuns(d: Device)
    requires Known(d.fmt) && d.ctrl & COMMAND_EXECUTE == 0
    ensures WriteReg(d, d.ctrl | COMMAND_EXECUTE) == Execute(d)
  {
    ExecuteBit(d.ctrl);
  }

  lemma ExecuteBit(c: bv8)
    requires c & COMMAND_EXECUTE == 0
    ensures (c | COMMAND_EXECUTE) & COMMAND_EXECUTE != 0
    ensures (c | COMMAND_EXECUTE) & !COMMAND_EXECUTE == c
  {
  }

  /** Executing a frame changes neither the mode bits nor the sizes of the buffers. */
  lemma RunKeeps(d: Device, frame: seq<u32>)
    requires Known(d.fmt)
    ensures var d' := Run(d, frame);
            d'.fmt == d.fmt && d'.ctrl == d.ctrl && |d'.mib| == |d.mib| && |d'.mrb| == |d.mrb|
  {
  }

  /** The firmware performs a well formed frame, whatever older words follow it in the buffer. */
  lemma FrameIsPerformed(d: Device, payload: seq<u32>, format: nat, mode: nat, cmdId: nat)
    requires Known(d.fmt) && |payload| <= MaxPayload(d.fmt) && |payload| + 3 <= |d.mib| && cmdId < d.fmt.cmdRange
    ensures var frame := Frame(d.fmt, payload, format, mode, cmdId);
            Run(d, frame) == Perform(d.(mib := Overlay(d.mib, frame)), frame[0], payload)
  {
    var frame := Frame(d.fmt, payload, format, mode, cmdId);
    var mib := Overlay(d.mib, frame);
    var n := |payload|;
    FieldsReadBack(d.fmt, n, 0, format, mode, cmdId);
    assert mib[..|frame|] == frame;
    assert mib[0] == frame[0] && mib[n + 1] == frame[n + 1] && mib[n + 2] == frame[n + 2];
    assert mib[1..n + 1] == frame[1..n + 1] == payload;
  }
}
