/**
 The bus control commands, which switch the interface between its three modes by setting two
 bits of the general control register.
 */
module BusControl {
  import opened Errno
  import opened Firmware
  import opened MessageBuffer

  datatype BusCmd =
    | EnableSelectmap | DisableSelectmap | EnableFlash | DisableFlash | EnableMsgBuf
    | ResetFirmware | ReadCtrlReg | CheckSelectmap | CheckFlash | CheckMsgBuf
    | FlashCtrlDCS | FlashCtrlActel | EnableCompression | DisableCompression | Unknown

  /** The mode a command leads to. The direct bus modes are only reached from the message buffer mode. */
  function Target(mode: BusMode, cmd: BusCmd): BusMode {
    match cmd
    case EnableSelectmap => if mode == MsgBuf then SelectMap else mode
    case DisableSelectmap => if mode == SelectMap then MsgBuf else mode
    case EnableFlash => if mode == MsgBuf then Flash else mode
    case DisableFlash => if mode == Flash then MsgBuf else mode
    case EnableMsgBuf => MsgBuf
    case _ => mode
  }

  /** A direct bus mode is requested while the other one is active. */
  predicate Refused(mode: BusMode, cmd: BusCmd) {
    (cmd == EnableSelectmap && mode == Flash) || (cmd == EnableFlash && mode == SelectMap)
  }

  /** The commands that write the control register. */
  predicate Switches(cmd: BusCmd) {
    cmd.EnableSelectmap? || cmd.DisableSelectmap? || cmd.EnableFlash? || cmd.DisableFlash? || cmd.EnableMsgBuf?
    || cmd.ResetFirmware?
  }

  /** The register value that a successful call returns. */
  function AsInt(v: bv8): nat {
    v as int
  }

  /** The register after the reset bit has been raised and lowered again. */
  function ResetLowered(v: bv8): bv8 {
    v & !FIRMWARE_RESET
  }

  /** The other commands are the three queries. */
  predicate TellsRegister(cmd: BusCmd) {
    !cmd.CheckSelectmap? && !cmd.CheckFlash? && !cmd.CheckMsgBuf? && !cmd.Unknown?
  }

  /** Only the reset bit is different. */
  lemma ResetBit(v: bv8)
    ensures ResetLowered(v) & 0x02 == 0 && ResetLowered(v) & 0xfd == v & 0xfd
  {
  }

  /** The number that is returned has the bits of the register, those of the modes among them. */
  lemma RegisterValue(v: bv8)
    ensures AsInt(v) as bv8 == v && AsInt(v) < 0x100
    ensures AsInt(v) / 4 % 2 == 1 <==> v & 0x04 != 0
    ensures AsInt(v) / 8 % 2 == 1 <==> v & 0x08 != 0
  {
  }

  const MODE_BITS: bv8 := 0x0c

  /** The two register values agree in all bits but the mode bits. */
  predicate OtherBitsKept(v: bv8, v': bv8) {
    v' & !MODE_BITS == v & !MODE_BITS
  }

  /** v' differs from v in the mode bits only and stands for the given mode. */
  predicate SwitchedTo(v: bv8, v': bv8, mode: BusMode) {
    ControlOk(v') && BusModeOf(v') == mode && OtherBitsKept(v, v')
  }

  lemma BothBitsSet(v: bv8)
    requires ControlOk(v)
    ensures var v' := v | (DIRECT_BUS_ACTIVATE | SELECTMAP_ACTIVATE);
            && SwitchedTo(v, v', SelectMap)
            && v' & (DIRECT_BUS_ACTIVATE | SELECTMAP_ACTIVATE) == DIRECT_BUS_ACTIVATE | SELECTMAP_ACTIVATE
  {
  }

  lemma BothBitsCleared(v: bv8)
    requires ControlOk(v)
    ensures var v' := v & !(DIRECT_BUS_ACTIVATE | SELECTMAP_ACTIVATE);
            && SwitchedTo(v, v', MsgBuf)
            && v' & (DIRECT_BUS_ACTIVATE | SELECTMAP_ACTIVATE) == 0
            && v' & (SELECTMAP_ACTIVATE | DIRECT_BUS_ACTIVATE) == 0
  {
  }

  /** Setting the direct bus bit alone leads to the flash mode exactly if the select map bit is not set. */
  lemma DirectBitSet(v: bv8)
    ensures BusModeOf(v | DIRECT_BUS_ACTIVATE) == Flash <==> v & SELECTMAP_ACTIVATE == 0
    ensures ControlOk(v) && BusModeOf(v) == MsgBuf ==> SwitchedTo(v, v | DIRECT_BUS_ACTIVATE, Flash)
    ensures (v | DIRECT_BUS_ACTIVATE) & DIRECT_BUS_ACTIVATE == DIRECT_BUS_ACTIVATE
  {
  }

  lemma DirectBitCleared(v: bv8)
    requires ControlOk(v) && BusModeOf(v) == Flash
    ensures var v' := v & !DIRECT_BUS_ACTIVATE;
            SwitchedTo(v, v', MsgBuf) && v' & DIRECT_BUS_ACTIVATE == 0
  {
  }

  lemma ResetPulse(v: bv8)
    requires ControlOk(v)
    ensures (v | FIRMWARE_RESET) & COMMAND_EXECUTE == 0
    ensures ControlOk(v & !FIRMWARE_RESET) && BusModeOf(v & !FIRMWARE_RESET) == BusModeOf(v)
  {
  }

  /** Write a value with the execute bit clear, and read it back. */
  method WriteAndVerify(m: MsgBuffer, v: bv8) returns (v': bv8)
    requires m.Valid() && ControlOk(v)
    modifies m`dev
    ensures m.Valid() && v' == v && m.dev == old(m.dev).(ctrl := v)
  {
    m.WriteDcscRegister(v);
    v' := m.ReadDcscRegister();
  }

  /** The register before and after a command, and its result. */
  predicate Switching(cmd: BusCmd, v: bv8, v': bv8, r: int) {
    && BusModeOf(v') == Target(BusModeOf(v), cmd)
    && (if Refused(BusModeOf(v), cmd) then r == -EBADFD && v' == v
        else r == AsInt(if cmd == ResetFirmware then v else v'))
    && (if cmd == ResetFirmware then v' == ResetLowered(v) else OtherBitsKept(v, v'))
  }

  /** The two commands that enter a direct bus mode; want is the mode, bits the pattern to set. */
  method EnterDirectMode(m: MsgBuffer, v: bv8, want: BusMode, bits: bv8, ghost cmd: BusCmd) returns (r: int)
    requires m.Valid() && !m.encode && v == m.dev.ctrl
    requires (cmd == EnableSelectmap && want == SelectMap && bits == DIRECT_BUS_ACTIVATE | SELECTMAP_ACTIVATE)
          || (cmd == EnableFlash && want == Flash && bits == DIRECT_BUS_ACTIVATE)
    modifies m`dev
    ensures m.Valid() && m.dev == old(m.dev).(ctrl := m.dev.ctrl)
    ensures Switching(cmd, v, m.dev.ctrl, r)
  {
    BothBitsSet(v);
    DirectBitSet(v);
    assert OtherBitsKept(v, v);
    hide Firmware.BusModeOf, ControlOk, AsInt;
    var there := m.CheckState(want);
    if there {
      return AsInt(v);
    }
    var ok := m.CheckState(MsgBuf);
    if !ok {
      return -EBADFD;
    }
    var v' := WriteAndVerify(m, v | bits);
    r := if v' & bits != bits then -EIO else AsInt(v');
  }

  /** The two commands that leave a direct bus mode, if it is the active one. */
  method LeaveDirectMode(m: MsgBuffer, v: bv8, active: BusMode, bits: bv8, ghost cmd: BusCmd) returns (r: int)
    requires m.Valid() && !m.encode && v == m.dev.ctrl
    requires (cmd == DisableSelectmap && active == SelectMap && bits == DIRECT_BUS_ACTIVATE | SELECTMAP_ACTIVATE)
          || (cmd == DisableFlash && active == Flash && bits == DIRECT_BUS_ACTIVATE)
    modifies m`dev
    ensures m.Valid() && m.dev == old(m.dev).(ctrl := m.dev.ctrl) && Switching(cmd, v, m.dev.ctrl, r)
  {
    BothBitsCleared(v);
    if BusModeOf(v) == Flash {
      DirectBitCleared(v);
    }
    assert OtherBitsKept(v, v);
    hide Firmware.BusModeOf, ControlOk, AsInt;
    r := AsInt(v);
    var there := m.CheckState(active);
    if there {
      var v' := WriteAndVerify(m, v & !bits);
      r := if v' & bits != 0 then -EIO else AsInt(v');
    }
  }

  method EnterMsgBufMode(m: MsgBuffer, v: bv8) returns (r: int)
    requires m.Valid() && v == m.dev.ctrl
    modifies m`dev
    ensures m.Valid() && m.dev == old(m.dev).(ctrl := m.dev.ctrl) && Switching(EnableMsgBuf, v, m.dev.ctrl, r)
  {
    BothBitsCleared(v);
    hide AsInt;
    var v' := WriteAndVerify(m, v & !(DIRECT_BUS_ACTIVATE | SELECTMAP_ACTIVATE));
    r := if v' & (SELECTMAP_ACTIVATE | DIRECT_BUS_ACTIVATE) != 0 then -EIO else AsInt(v');
  }

  /** Raise the reset bit and lower it again. */
  method PulseReset(m: MsgBuffer, v: bv8) returns (r: int)
    requires m.Valid() && v == m.dev.ctrl
    modifies m`dev
    ensures m.Valid() && m.dev == old(m.dev).(ctrl := m.dev.ctrl) && Switching(ResetFirmware, v, m.dev.ctrl, r)
  {
    hide Firmware.Execute, AsInt;
    r := AsInt(v);
    ResetPulse(v);
    m.WriteDcscRegister(v | FIRMWARE_RESET);
    m.WriteDcscRegister(v & !FIRMWARE_RESET);
  }

  /** The commands that write the control register. */
  method SwitchMode(m: MsgBuffer, cmd: BusCmd, v: bv8) returns (r: int)
    requires m.Valid() && !m.encode && Switches(cmd) && v == m.dev.ctrl
    modifies m`dev
    ensures m.Valid() && m.dev == old(m.dev).(ctrl := m.dev.ctrl) && Switching(cmd, v, m.dev.ctrl, r)
  {
    hide Switching, MsgBuffer.Valid;
    r := 0;
    match cmd
    case EnableSelectmap =>
      r := EnterDirectMode(m, v, SelectMap, DIRECT_BUS_ACTIVATE | SELECTMAP_ACTIVATE, cmd);
    case DisableSelectmap =>
      r := LeaveDirectMode(m, v, SelectMap, DIRECT_BUS_ACTIVATE | SELECTMAP_ACTIVATE, cmd);
    case EnableFlash =>
      r := EnterDirectMode(m, v, Flash, DIRECT_BUS_ACTIVATE, cmd);
    case DisableFlash =>
      r := LeaveDirectMode(m, v, Flash, DIRECT_BUS_ACTIVATE, cmd);
    case EnableMsgBuf =>
      r := EnterMsgBufMode(m, v);
    case ResetFirmware =>
      r := PulseReset(m, v);
  }

  method RcuBusControlCmdExt(m: MsgBuffer, cmd: BusCmd) returns (r: int)
    requires m.Valid() && !m.encode
    modifies m`dev, m`flashAccess, m`compression
    ensures m.Valid()
    ensures BusModeOf(m.dev.ctrl) == Target(BusModeOf(old(m.dev).ctrl), cmd)
    ensures m.dev == old(m.dev).(ctrl := m.dev.ctrl)
    ensures !Switches(cmd) || Refused(BusModeOf(old(m.dev).ctrl), cmd) ==> m.dev == old(m.dev)
    ensures if cmd == ResetFirmware then m.dev.ctrl == ResetLowered(old(m.dev).ctrl)
            else OtherBitsKept(old(m.dev).ctrl, m.dev.ctrl)
    ensures TellsRegister(cmd) && !Refused(BusModeOf(old(m.dev).ctrl), cmd) ==>
              r == AsInt(if cmd == ResetFirmware then old(m.dev).ctrl else m.dev.ctrl)
    ensures Refused(BusModeOf(old(m.dev).ctrl), cmd) <==> r == -EBADFD
    ensures cmd == Unknown <==> r == -EINVAL
    ensures r < 0 ==> r == -EBADFD || r == -EINVAL
    ensures cmd == CheckSelectmap ==> r == if BusModeOf(m.dev.ctrl) == SelectMap then 1 else 0
    ensures cmd == CheckFlash ==> r == if BusModeOf(m.dev.ctrl) == Flash then 1 else 0
    ensures cmd == CheckMsgBuf ==> r == if BusModeOf(m.dev.ctrl) == MsgBuf then 1 else 0
    ensures m.flashAccess == if cmd == FlashCtrlDCS && m.firmwareVersion >= FIRMWARE_2_2 then Dcsc
                             else if cmd == FlashCtrlDCS || cmd == FlashCtrlActel then Actel else old(m.flashAccess)
    ensures m.compression == if cmd == EnableCompression then m.firmwareVersion >= FIRMWARE_2_2
                             else if cmd == DisableCompression then false else old(m.compression)
  {
    hide Firmware.Execute, Firmware.WriteReg, ControlOk, Firmware.BusModeOf, OtherBitsKept, AsInt, ResetLowered;
    hide Target, Refused, Switches, MsgBuffer.Valid;
    var v := m.ReadDcscRegister();
    if Switches(cmd) {
      OthersDoNot(cmd);
      r := SwitchMode(m, cmd, v);
    } else {
      NothingChanged(v, BusModeOf(v), cmd);
      r := QueryOrSet(m, cmd, v);
    }
  }

  lemma NothingChanged(v: bv8, mode: BusMode, cmd: BusCmd)
    ensures OtherBitsKept(v, v)
    ensures !Switches(cmd) ==> Target(mode, cmd) == mode && !Refused(mode, cmd) && cmd != ResetFirmware
  {
  }

  lemma OthersDoNot(cmd: BusCmd)
    requires Switches(cmd)
    ensures cmd != Unknown && cmd != CheckSelectmap && cmd != CheckFlash && cmd != CheckMsgBuf
    ensures cmd != FlashCtrlDCS && cmd != FlashCtrlActel && cmd != EnableCompression && cmd != DisableCompression
  {
  }

  /** The commands that leave the control register alone. */
  method QueryOrSet(m: MsgBuffer, cmd: BusCmd, v: bv8) returns (r: int)
    requires m.Valid() && !m.encode && !Switches(cmd) && v == m.dev.ctrl
    modifies m`flashAccess, m`compression
    ensures m.Valid()
    ensures TellsRegister(cmd) ==> r == AsInt(v)
    ensures cmd == Unknown ==> r == -EINVAL
    ensures cmd == CheckSelectmap ==> r == if BusModeOf(m.dev.ctrl) == SelectMap then 1 else 0
    ensures cmd == CheckFlash ==> r == if BusModeOf(m.dev.ctrl) == Flash then 1 else 0
    ensures cmd == CheckMsgBuf ==> r == if BusModeOf(m.dev.ctrl) == MsgBuf then 1 else 0
    ensures m.flashAccess == if cmd == FlashCtrlDCS && m.firmwareVersion >= FIRMWARE_2_2 then Dcsc
                             else if cmd == FlashCtrlDCS || cmd == FlashCtrlActel then Actel else old(m.flashAccess)
    ensures m.compression == if cmd == EnableCompression then m.firmwareVersion >= FIRMWARE_2_2
                             else if cmd == DisableCompression then false else old(m.compression)
  {
    hide Firmware.BusModeOf, AsInt;
    r := AsInt(v);
    match cmd
    case ReadCtrlReg =>
    case CheckSelectmap => r := QueryMode(m, SelectMap);
    case CheckFlash => r := QueryMode(m, Flash);
    case CheckMsgBuf => r := QueryMode(m, MsgBuf);
    case FlashCtrlDCS =>
      m.flashAccess := if m.firmwareVersion >= FIRMWARE_2_2 then Dcsc else Actel;
    case FlashCtrlActel =>
      m.flashAccess := Actel;
    case EnableCompression =>
      m.compression := m.firmwareVersion >= FIRMWARE_2_2;
    case DisableCompression =>
      m.compression := false;
    case Unknown =>
      r := -EINVAL;
  }

  method QueryMode(m: MsgBuffer, mode: BusMode) returns (r: int)
    requires m.Valid() && !m.encode
    ensures r == if BusModeOf(m.dev.ctrl) == mode then 1 else 0
  {
    hide Firmware.BusModeOf;
    var ok := m.CheckState(mode);
    r := if ok then 1 else 0;
  }

  /** The mode after a sequence of commands. */
  function ModeAfter(mode: BusMode, cmds: seq<BusCmd>): BusMode {
    if cmds == [] then mode else Target(ModeAfter(mode, cmds[..|cmds| - 1]), cmds[|cmds| - 1])
  }

  /** No sequence of commands gets from one direct bus mode to the other without passing the message buffer mode. */
  lemma {:induction false} DirectModesAreSeparated(mode: BusMode, cmds: seq<BusCmd>)
    requires mode != MsgBuf && ModeAfter(mode, cmds) != MsgBuf && ModeAfter(mode, cmds) != mode
    ensures exists k :: 0 < k < |cmds| && ModeAfter(mode, cmds[..k]) == MsgBuf
    decreases |cmds|
  {
    var front := cmds[..|cmds| - 1];
    if ModeAfter(mode, front) == MsgBuf {
      assert front != [];
    } else {
      DirectModesAreSeparated(mode, front);
      var k :| 0 < k < |front| && ModeAfter(mode, front[..k]) == MsgBuf;
      assert front[..k] == cmds[..k];
    }
  }

  // ---------- the modes in bits, and round trips between them ----------

  /** The two bits of the control register that stand for the modes. */
  lemma BitsOfModes(ctrl: bv8)
    ensures ControlOk(ctrl) <==> ctrl & 0x80 == 0 && ctrl & 0x0c != 0x04
    ensures BusModeOf(ctrl) == MsgBuf <==> ctrl & 0x08 == 0
    ensures BusModeOf(ctrl) == Flash <==> ctrl & 0x0c == 0x08
    ensures BusModeOf(ctrl) == SelectMap <==> ctrl & 0x0c == 0x0c
  {
  }

  lemma SameBits(v: bv8, v': bv8)
    requires ControlOk(v) && ControlOk(v') && OtherBitsKept(v, v') && BusModeOf(v) == BusModeOf(v')
    ensures v == v'
  {
  }

  /** A direct mode that is entered is reported, and left by its own command: the register is as before. */
  method ThereAndBack(m: MsgBuffer, flash: bool) returns (there: int, back: int)
    requires m.Valid() && !m.encode && BusModeOf(m.dev.ctrl) == MsgBuf
    modifies m`dev, m`flashAccess, m`compression
    ensures m.Valid() && m.dev == old(m.dev) && there == 1 && back == 1
  {
    hide Firmware.BusModeOf, ControlOk, OtherBitsKept;
    ghost var v := m.dev.ctrl;
    there := There(m, flash);
    ghost var v1 := m.dev.ctrl;
    back := Back(m, flash);
    KeptTwice(v, v1, m.dev.ctrl);
    SameBits(v, m.dev.ctrl);
  }

  method There(m: MsgBuffer, flash: bool) returns (there: int)
    requires m.Valid() && !m.encode && BusModeOf(m.dev.ctrl) == MsgBuf
    modifies m`dev, m`flashAccess, m`compression
    ensures m.Valid() && m.dev == old(m.dev).(ctrl := m.dev.ctrl) && there == 1
    ensures BusModeOf(m.dev.ctrl) == (if flash then Flash else SelectMap)
    ensures OtherBitsKept(old(m.dev).ctrl, m.dev.ctrl)
  {
    hide Firmware.BusModeOf, ControlOk, OtherBitsKept, ResetLowered, AsInt, TellsRegister;
    var r := RcuBusControlCmdExt(m, if flash then EnableFlash else EnableSelectmap);
    there := RcuBusControlCmdExt(m, if flash then CheckFlash else CheckSelectmap);
  }

  method Back(m: MsgBuffer, flash: bool) returns (back: int)
    requires m.Valid() && !m.encode && BusModeOf(m.dev.ctrl) == if flash then Flash else SelectMap
    modifies m`dev, m`flashAccess, m`compression
    ensures m.Valid() && m.dev == old(m.dev).(ctrl := m.dev.ctrl) && back == 1
    ensures BusModeOf(m.dev.ctrl) == MsgBuf && OtherBitsKept(old(m.dev).ctrl, m.dev.ctrl)
  {
    hide Firmware.BusModeOf, ControlOk, OtherBitsKept, ResetLowered, AsInt, TellsRegister;
    var r := RcuBusControlCmdExt(m, if flash then DisableFlash else DisableSelectmap);
    back := RcuBusControlCmdExt(m, CheckMsgBuf);
  }

  lemma KeptTwice(v: bv8, v1: bv8, v2: bv8)
    requires OtherBitsKept(v, v1) && OtherBitsKept(v1, v2)
    ensures OtherBitsKept(v, v2)
  {
  }

  /** In one direct mode the commands of the other one have no effect, and entering it is an error. */
  method TheOtherOne(m: MsgBuffer, flash: bool) returns (r: int)
    requires m.Valid() && !m.encode && BusModeOf(m.dev.ctrl) == if flash then Flash else SelectMap
    modifies m`dev, m`flashAccess, m`compression
    ensures m.Valid() && m.dev == old(m.dev) && r == -EBADFD
  {
    hide Firmware.BusModeOf, ControlOk, OtherBitsKept, ResetLowered, AsInt, TellsRegister;
    ghost var v := m.dev.ctrl;
    r := RcuBusControlCmdExt(m, if flash then DisableSelectmap else DisableFlash);
    SameBits(v, m.dev.ctrl);
    r := RcuBusControlCmdExt(m, if flash then EnableSelectmap else EnableFlash);
  }

  /** Message buffer mode is reached from everywhere by one command, and the reset leads nowhere. */
  method HomeAgain(m: MsgBuffer) returns (home: int)
    requires m.Valid() && !m.encode
    modifies m`dev, m`flashAccess, m`compression
    ensures m.Valid() && BusModeOf(m.dev.ctrl) == MsgBuf && home == 1
  {
    hide Firmware.BusModeOf, ControlOk, OtherBitsKept, ResetLowered, AsInt, TellsRegister;
    var r := RcuBusControlCmdExt(m, EnableMsgBuf);
    r := RcuBusControlCmdExt(m, ResetFirmware);
    home := RcuBusControlCmdExt(m, CheckMsgBuf);
  }
}
