/**
 Programs mix bus control, message buffer and flash calls. Only the bus control moves the bus mode for good, and no
 mixture of calls gets from one direct bus mode to the other without passing the message buffer mode.
 */
module BusSession {
  import opened Words
  import opened Payload
  import opened Firmware
  import opened MessageBuffer
  import opened BusControl
  import opened FlashProtocol

  datatype Call =
    | Control(cmd: BusCmd)
    | SingleWrite(a: u32, v: u32, mode: nat)
    | SingleRead(a: u32, mode: nat)
    | MultipleWrite(address: nat, data: seq<u8>, count: nat, dm: int, mode: nat)
    | MultipleRead(address: nat, count: nat, mode: nat)
    | FlashWrite(start: u32, data: seq<u8>, n: int, dm: int)
    | FlashRead(start: u32, n: int)
  {
    /** Address ranges do not wrap, and there are data, or there is room, for all items. */
    predicate Legal(compression: bool, room: nat) {
      match this
      case MultipleWrite(address, data, n, dm, _) =>
        && 1 <= n < 0x8000_0000 && address + n <= 0x1_0000_0000
        && (Supported(dm, compression) ==> BytesNeeded(dm, n) <= |data|)
      case MultipleRead(address, n, _) => 1 <= n < 0x8000_0000 && address + n <= 0x1_0000_0000 && n <= room
      case FlashWrite(start, data, n, dm) =>
        && (n > 0 ==> start + n < 0x1_0000_0000 && n < 0x8000_0000)
        && (n > 0 && KnownMode(dm) ==> BytesNeeded(dm, n) <= |data|)
      case FlashRead(start, n) => n > 0 ==> start + n < 0x1_0000_0000 && n < 0x8000_0000 && n <= room
      case _ => true
    }
  }

  /** The calls are legal whether compression is on or off, which the calls before them may change. */
  predicate AllLegal(calls: seq<Call>, room: nat) {
    forall i :: 0 <= i < |calls| ==> calls[i].Legal(true, room) && calls[i].Legal(false, room)
  }

  /** The bus mode behind a call. */
  function ModeBehind(mode: BusMode, call: Call): BusMode {
    if call.Control? then Target(mode, call.cmd) else mode
  }

  /** The modes before, between and behind the calls. */
  predicate Trace(modes: seq<BusMode>, calls: seq<Call>) {
    && |modes| == |calls| + 1
    && forall k :: 0 <= k < |calls| ==> modes[k + 1] == ModeBehind(modes[k], calls[k])
  }

  /** One call, whatever it returns. */
  method Perform(m: MsgBuffer, call: Call, scratch: array<u32>)
    requires m.Valid() && !m.encode && scratch != m.mib && call.Legal(m.compression, scratch.Length)
    modifies m`dev, m`file, m`flashAccess, m`compression, m.mib, scratch
    ensures m.Valid() && BusModeOf(m.dev.ctrl) == ModeBehind(BusModeOf(old(m.dev).ctrl), call)
  {
    hide Firmware.BusModeOf, Payload.BytesNeeded, MsgBuffer.Valid, Target, Written, Fetched;
    match call
    case Control(cmd) =>
      var r := RcuBusControlCmdExt(m, cmd);
    case SingleWrite(a, v, mode) =>
      var r := m.RcuSingleWriteExt(a, v, mode);
    case SingleRead(a, mode) =>
      var r, v := m.RcuSingleReadExt(a, mode);
    case MultipleWrite(address, data, n, dm, mode) =>
      var r := m.RcuMultipleWriteExt(address, data, n, dm, mode);
    case MultipleRead(address, n, mode) =>
      var r := m.RcuMultipleReadExt(address, n, scratch, mode);
    case FlashWrite(start, data, n, dm) =>
      var r := RcuFlashWrite(m, start, data, n, dm);
    case FlashRead(start, n) =>
      var r := RcuFlashRead(m, start, n, scratch);
  }

  lemma {:induction false} TraceSeparates(modes: seq<BusMode>, calls: seq<Call>, i: nat, j: nat)
    requires Trace(modes, calls) && i <= j < |modes|
    requires modes[i] != MsgBuf && modes[j] != MsgBuf && modes[i] != modes[j]
    ensures exists k :: i < k < j && modes[k] == MsgBuf
    decreases j
  {
    assert i < j && modes[j] == ModeBehind(modes[j - 1], calls[j - 1]);
    if modes[j - 1] != MsgBuf {
      TraceSeparates(modes, calls, i, j - 1);
    }
  }

  /** Between flash and select map mode there is always a moment in message buffer mode. */
  method PerformAll(m: MsgBuffer, calls: seq<Call>, scratch: array<u32>) returns (ghost modes: seq<BusMode>)
    requires m.Valid() && !m.encode && scratch != m.mib && AllLegal(calls, scratch.Length)
    modifies m`dev, m`file, m`flashAccess, m`compression, m.mib, scratch
    ensures m.Valid() && Trace(modes, calls)
    ensures modes[0] == BusModeOf(old(m.dev).ctrl) && modes[|calls|] == BusModeOf(m.dev.ctrl)
    ensures forall i, j :: 0 <= i < j < |modes| && modes[i] != MsgBuf && modes[j] != MsgBuf && modes[i] != modes[j] ==>
              exists k :: i < k < j && modes[k] == MsgBuf
  {
    hide Firmware.BusModeOf, MsgBuffer.Valid, Target, Call.Legal;
    modes := [BusModeOf(m.dev.ctrl)];
    var n := 0;
    while n < |calls|
      invariant 0 <= n <= |calls| && m.Valid() && Trace(modes, calls[..n])
      invariant modes[0] == BusModeOf(old(m.dev).ctrl) && modes[n] == BusModeOf(m.dev.ctrl)
    {
      assert calls[n].Legal(m.compression, scratch.Length);
      Perform(m, calls[n], scratch);
      modes := modes + [BusModeOf(m.dev.ctrl)];
      n := n + 1;
    }
    assert calls[..n] == calls;
    forall i, j | 0 <= i < j < |modes| && modes[i] != MsgBuf && modes[j] != MsgBuf && modes[i] != modes[j]
      ensures exists k :: i < k < j && modes[k] == MsgBuf
    {
      TraceSeparates(modes, calls, i, j);
    }
  }
}
