/** The helpers with which the flash programs enter the flash mode and leave it again. */
module FrameHelpers {
  import opened Words
  import opened Payload
  import opened RcuBus
  import opened Firmware
  import opened MessageBuffer
  import opened BusControl
  import opened FlashProtocol

  const EXIT_FAILURE := 1

  /** The numbers by which the helpers name the modes. */
  function StateNumber(mode: BusMode): int {
    match mode
    case SelectMap => 1
    case Flash => 2
    case MsgBuf => 3
  }

  method GetBusState(m: MsgBuffer) returns (state: int)
    requires m.Valid() && !m.encode
    modifies m`dev, m`flashAccess, m`compression
    ensures m.Valid() && m.dev == old(m.dev)
    ensures m.flashAccess == old(m.flashAccess) && m.compression == old(m.compression)
    ensures state == StateNumber(BusModeOf(m.dev.ctrl))
    ensures state == match BusModeOf(m.dev.ctrl) case SelectMap => 1 case Flash => 2 case MsgBuf => 3
  {
    hide Firmware.BusModeOf;
    state := 0;
    var result := RcuBusControlCmdExt(m, CheckSelectmap);
    if result == 1 {
      state := 1;
    }
    result := RcuBusControlCmdExt(m, CheckFlash);
    if result == 1 {
      state := 2;
    }
    result := RcuBusControlCmdExt(m, CheckMsgBuf);
    if result == 1 {
      state := 3;
    }
  }

  /** The result is only set if a command has been issued. */
  method EnterFlashState(m: MsgBuffer, oldState: int) returns (result: int)
    requires m.Valid() && !m.encode && oldState == StateNumber(BusModeOf(m.dev.ctrl))
    modifies m`dev, m`flashAccess, m`compression
    ensures m.Valid() && m.dev == old(m.dev).(ctrl := m.dev.ctrl)
    ensures m.flashAccess == old(m.flashAccess) && m.compression == old(m.compression)
    ensures BusModeOf(m.dev.ctrl) == Flash && (oldState != 2 ==> result >= 0)
  {
    hide Firmware.BusModeOf;
    result := *;
    if oldState == 1 {
      result := RcuBusControlCmdExt(m, EnableMsgBuf);
    }
    if oldState == 1 || oldState == 3 {
      result := RcuBusControlCmdExt(m, EnableFlash);
    } else if oldState != 2 {
      result := -1;
    }
  }

  /** Return to the former mode. A former flash mode is expected to be still active. */
  method RestoreBusState(m: MsgBuffer, oldState: int) returns (result: int)
    requires m.Valid() && !m.encode
    modifies m`dev, m`flashAccess, m`compression
    ensures m.Valid() && m.dev == old(m.dev).(ctrl := m.dev.ctrl)
    ensures m.flashAccess == old(m.flashAccess) && m.compression == old(m.compression)
    ensures oldState == 1 ==> BusModeOf(m.dev.ctrl) == SelectMap && result >= 0
    ensures oldState == 3 ==> BusModeOf(m.dev.ctrl) == MsgBuf && result >= 0
    ensures oldState == 2 ==> m.dev == old(m.dev) && result == 0
    ensures oldState != 1 && oldState != 2 && oldState != 3 ==> m.dev == old(m.dev) && result == -1
  {
    hide Firmware.BusModeOf;
    result := 0;
    if oldState == 1 {
      result := RcuBusControlCmdExt(m, EnableMsgBuf);
      result := RcuBusControlCmdExt(m, EnableSelectmap);
    } else if oldState == 3 {
      result := RcuBusControlCmdExt(m, EnableMsgBuf);
      result := RcuBusControlCmdExt(m, EnableMsgBuf);
    } else if oldState != 2 {
      result := -1;
    }
  }

  /** The last address of a file of 16-bit words, moved if the low address register shows a broken firmware. */
  method CalculateStopAddress(m: MsgBuffer, filesize: nat, startAddress: nat) returns (stop: int)
    requires m.Valid() && !m.encode
    modifies m`dev, m`file, m`flashAccess, m`compression, m.mib
    ensures m.Valid() && m.dev.rcu == old(m.dev).rcu
    ensures m.flashAccess == old(m.flashAccess) && m.compression == old(m.compression)
    ensures m.mib.Length >= 6 ==>
              && BusModeOf(m.dev.ctrl) == Flash
              && stop == startAddress + filesize / 2 - 1
                         + (if Load(m.dev.rcu.mem, 0xb102) == 0xffff_0102 then 100 else 0)
    ensures m.mib.Length < 6 ==> BusModeOf(m.dev.ctrl) == MsgBuf && stop == EXIT_FAILURE
  {
    stop := startAddress + filesize / 2 - 1;
    var result := RcuBusControlCmdExt(m, EnableMsgBuf);
    var rawdata;
    result, rawdata := Peek(m, FLASH_ADDRL);
    if result < 0 {
      return EXIT_FAILURE;
    }
    result := RcuBusControlCmdExt(m, EnableFlash);
    if rawdata == 0xffff_0102 {
      stop := stop + 100;
    }
  }

  datatype FlashStep =
    | Write(address: u32, data: seq<u8>, n: int, dm: int)
    | StopAddress(filesize: nat, startAddress: nat)
  {
    predicate Legal() {
      match this
      case Write(address, data, n, dm) =>
        && (n > 0 ==> address + n < 0x1_0000_0000 && n < 0x8000_0000)
        && (n > 0 && KnownMode(dm) ==> BytesNeeded(dm, n) <= |data|)
      case StopAddress(_, _) => true
    }
  }

  /** One step of a flash program: the interface is in flash mode before it and after it. */
  method PerformStep(m: MsgBuffer, step: FlashStep)
    requires m.Valid() && !m.encode && m.mib.Length >= 6 && step.Legal() && BusModeOf(m.dev.ctrl) == Flash
    modifies m`dev, m`file, m`flashAccess, m`compression, m.mib
    ensures m.Valid() && BusModeOf(m.dev.ctrl) == Flash && SameMemory(old(m.dev).rcu.mem, m.dev.rcu.mem)
  {
    match step
    case Write(address, data, n, dm) =>
      var r := RcuFlashWrite(m, address, data, n, dm);
    case StopAddress(filesize, startAddress) =>
      var stop := CalculateStopAddress(m, filesize, startAddress);
  }

  /**
   A flash program brackets its work with these helpers. Whatever it does in between, and from
   whichever mode it started, the interface ends up in the mode it was found in.
   */
  method FlashSession(m: MsgBuffer, steps: seq<FlashStep>)
    requires m.Valid() && !m.encode && m.mib.Length >= 6
    requires forall i :: 0 <= i < |steps| ==> steps[i].Legal()
    modifies m`dev, m`file, m`flashAccess, m`compression, m.mib
    ensures m.Valid() && BusModeOf(m.dev.ctrl) == BusModeOf(old(m.dev).ctrl)
    ensures SameMemory(old(m.dev).rcu.mem, m.dev.rcu.mem)
  {
    hide Firmware.BusModeOf, FlashStep.Legal;
    var oldState := GetBusState(m);
    var result := EnterFlashState(m, oldState);
    var i := 0;
    while i < |steps|
      invariant 0 <= i <= |steps| && m.Valid() && BusModeOf(m.dev.ctrl) == Flash
      invariant SameMemory(old(m.dev).rcu.mem, m.dev.rcu.mem)
    {
      PerformStep(m, steps[i]);
      i := i + 1;
    }
    result := RestoreBusState(m, oldState);
  }
}
