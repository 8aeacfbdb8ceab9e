/**
 The message buffer interface: the message in buffer in which frames are built, the device
 they are sent to, and the transactions made of them.
 */
module MessageBuffer {
  import opened Common
  import opened Errno
  import opened Words
  import opened MsgHeader
  import opened Payload
  import opened RcuBus
  import opened Firmware
  import opened Frames

  const FIRMWARE_2_2 := 0x0002_0002

  datatype FlashAccess = Actel | Dcsc

  /** The header format for what the driver says about the firmware; major < 0 if it does not say. */
  function SelectHeader(skip: bool, major: int, minor: u16): Header {
    if skip then V2_2
    else if major > 0 then (if major * 0x1_0000 + minor >= FIRMWARE_2_2 then V2_2 else V2)
    else if major == 0 then V1
    else V2
  }

  const DEFAULT_SIZE := 0x40 // bytes, of either buffer

  /** The driver is not asked if the caller says so, or gives a size for the message in buffer. */
  predicate Unasked(skip: bool, given: int) {
    skip || given > 0
  }

  /** The size of the message in buffer in bytes: as given, as the driver answers, or the default. */
  function InSize(skip: bool, given: int, answer: Option<u32>): u32
    requires given < 0x8000_0000
  {
    if given > 0 then given
    else if !Unasked(skip, given) && answer.Some? then answer.value
    else DEFAULT_SIZE
  }

  /** The size of the result buffer in bytes. */
  function OutSize(skip: bool, given: int, answer: Option<u32>): u32 {
    if !Unasked(skip, given) && answer.Some? then answer.value else DEFAULT_SIZE
  }

  function ErrorFromStatus(status: u32): int {
    if status / 0x10 % 2 == 1 then -EMISS_ENDMARKER
    else if status / 8 % 2 == 1 then -EMISS_ENDMARKER
    else if status / 4 % 2 == 1 then -ENOBUSGRANT
    else if status / 2 % 2 == 1 then -ENOTARGET
    else if status % 2 == 1 then -EMISS_MARKER
    else 0
  }

  /** The number of data words announced in the result, or an error. */
  function CmdResult(data0: u32, data1: u32, cmdWord: u32, mrbSize: nat): int {
    if data0 / 0x4000 % 4 * 0x4000 != cmdWord / 0x400 % 4 * 0x400 then 0
    else if data1 != 0 then ErrorFromStatus(data1)
    else if data0 % 0x1_0000 < 2 then -EIO
    else if data0 % 0x1_0000 > mrbSize then -EIO
    else data0 % 0x1_0000 - 2
  }

  /** The errors a result can report. */
  predicate ResultError(r: int) {
    r == -EIO || r == -EMISS_MARKER || r == -EMISS_ENDMARKER || r == -ENOTARGET || r == -ENOBUSGRANT
  }

  /** The status bits that have an error number; there are others that have none. */
  predicate KnownStatus(status: u32) {
    || status % 2 == 1 || status / 2 % 2 == 1 || status / 4 % 2 == 1 || status / 8 % 2 == 1 || status / 0x10 % 2 == 1
  }

  /** The bits that are compared agree only if they are all zero, which those of a command byte always are. */
  predicate Passes(data0: u32, cmdWord: u32) {
    data0 % 0x1_0000 < 0x4000 && cmdWord / 0x400 % 4 == 0
  }

  /**
   A positive result announces that many data words, a negative one is an error, and zero is
   also returned for a result that does not pass the comparison and for a status without error number.
   */
  lemma CmdResultMeans(data0: u32, data1: u32, cmdWord: u32, mrbSize: nat)
    requires mrbSize >= 2
    ensures cmdWord < 0x100 ==> (Passes(data0, cmdWord) <==> data0 % 0x1_0000 < 0x4000)
    ensures var r, size := CmdResult(data0, data1, cmdWord, mrbSize), data0 % 0x1_0000;
            && r <= mrbSize - 2
            && (r < 0 ==> ResultError(r))
            && (r < 0 <==> Passes(data0, cmdWord)
                           && if data1 != 0 then KnownStatus(data1) else size < 2 || size > mrbSize)
            && (r > 0 <==> Passes(data0, cmdWord) && data1 == 0 && 2 < size <= mrbSize)
            && (r > 0 ==> size == r + 2)
  {
    TopBits(data0);
    CompareBits(data0, cmdWord);
    StatusBits(data1);
  }

  lemma CompareBits(data0: u32, cmdWord: u32)
    ensures data0 / 0x4000 % 4 * 0x4000 == cmdWord / 0x400 % 4 * 0x400 <==>
              data0 / 0x4000 % 4 * 0x4000 == 0 && cmdWord / 0x400 % 4 == 0
    ensures cmdWord < 0x100 ==> cmdWord / 0x400 % 4 == 0
  {
    var a, b := data0 / 0x4000 % 4, cmdWord / 0x400 % 4;
    assert 0 <= a < 4 && 0 <= b < 4;
    assert a * 0x4000 == b * 0x400 ==> a * 0x10 == b;
  }

  lemma TopBits(w: u32)
    ensures w / 0x4000 % 4 * 0x4000 == 0 <==> w % 0x1_0000 < 0x4000
  {
    var high, low := w / 0x1_0000, w % 0x1_0000;
    assert w == 0x4000 * (4 * high + low / 0x4000) + low % 0x4000;
    assert w / 0x4000 == 4 * high + low / 0x4000;
  }

  lemma StatusBits(status: u32)
    ensures ErrorFromStatus(status) < 0 <==> KnownStatus(status)
    ensures KnownStatus(status) ==> ResultError(ErrorFromStatus(status))
    ensures !KnownStatus(status) ==> ErrorFromStatus(status) == 0
  {
  }

  /** The errors in numbers of the status word: the highest of the five bits decides, the others play no part. */
  lemma StatusErrors(status: u32)
    ensures ErrorFromStatus(status)
         == if 8 <= status % 0x20 then -EMISS_ENDMARKER
            else if 4 <= status % 0x20 then -ENOBUSGRANT
            else if 2 <= status % 0x20 then -ENOTARGET
            else if 1 <= status % 0x20 then -EMISS_MARKER
            else 0
  {
    var q, s := status / 0x20, status % 0x20;
    FiveBits(q, s);
    assert status == 0x20 * q + s;
    assert s / 0x10 % 2 == s / 0x10 && (s < 0x10 ==> s / 8 % 2 == s / 8) && (s < 8 ==> s / 4 % 2 == s / 4);
  }

  lemma FiveBits(q: nat, s: nat)
    requires s < 0x20
    ensures var w := 0x20 * q + s;
            && w / 0x10 % 2 == s / 0x10 % 2 && w / 8 % 2 == s / 8 % 2 && w / 4 % 2 == s / 4 % 2
            && w / 2 % 2 == s / 2 % 2 && w % 2 == s % 2
  {
    Quotients(q, s);
    EvenMore(q, s / 0x10);
    EvenMore(2 * q, s / 8);
    EvenMore(4 * q, s / 4);
    EvenMore(8 * q, s / 2);
    EvenMore(0x10 * q, s);
  }

  lemma EvenMore(k: nat, x: nat)
    ensures (2 * k + x) % 2 == x % 2
  {
  }

  lemma Quotients(q: nat, s: nat)
    ensures var w := 0x20 * q + s;
            && w / 0x10 == 2 * q + s / 0x10 && w / 8 == 4 * q + s / 8
            && w / 4 == 8 * q + s / 4 && w / 2 == 0x10 * q + s / 2
  {
    var w := 0x20 * q + s;
    assert w == 0x10 * (2 * q + s / 0x10) + s % 0x10;
    assert w == 8 * (4 * q + s / 8) + s % 8;
    assert w == 4 * (8 * q + s / 4) + s % 4;
    assert w == 2 * (0x10 * q + s / 2) + s % 2;
  }

  /** The header format for a version of the firmware, and the sizes of the buffers. */
  lemma Choices(skip: bool, major: int, minor: u16, given: int, answer: Option<u32>)
    requires given < 0x8000_0000
    ensures SelectHeader(skip, major, minor) == V2_2 <==> skip || major > 2 || (major == 2 && minor >= 2)
    ensures SelectHeader(skip, major, minor) == V1 <==> !skip && major == 0
    ensures SelectHeader(skip, major, minor) == V2_2 || SelectHeader(skip, major, minor) == V1
            || SelectHeader(skip, major, minor) == V2
    ensures given > 0 ==> InSize(skip, given, answer) == given && OutSize(skip, given, answer) == 0x40
    ensures given <= 0 && !skip && answer.Some? ==>
              InSize(skip, given, answer) == OutSize(skip, given, answer) == answer.value
    ensures given <= 0 && (skip || answer.None?) ==> InSize(skip, given, answer) == OutSize(skip, given, answer) == 0x40
  {
  }

  /** What the description of the status word says about its four lowest bits. */
  function DocumentedError(bit: nat): int
    requires bit < 4
  {
    match bit
    case 0 => -EMISS_MARKER
    case 1 => -EMISS_ENDMARKER
    case 2 => -ENOTARGET
    case _ => -ENOBUSGRANT
  }

  function StatusWithBit(bit: nat): u32
    requires bit < 4
  {
    match bit
    case 0 => 1
    case 1 => 2
    case 2 => 4
    case _ => 8
  }

  /** Only the missing marker is reported as described; the other three errors are mixed up. */
  lemma ErrorsAreMixedUp(bit: nat)
    requires bit < 4
    ensures ErrorFromStatus(StatusWithBit(bit)) == DocumentedError(bit) <==> bit == 0
    ensures ResultError(ErrorFromStatus(StatusWithBit(bit)))
  {
  }

  /** A device that sets only the general error bit of the status, bit 15, has its error taken for success. */
  lemma GeneralErrorIsSuccess(count: u16, cmdWord: u32, mrbSize: nat)
    requires count < 0x4000 && cmdWord < 0x100
    ensures CmdResult(count, 0x8000, cmdWord, mrbSize) == 0
  {
    TopBits(count);
    StatusBits(0x8000);
    assert cmdWord / 0x400 % 4 * 0x400 == 0;
  }

  /** The cross check with the command compares bits that no command has: it tells no command from another. */
  lemma CommandIsNotChecked(data0: u32, data1: u32, sent: u32, other: u32, mrbSize: nat)
    requires sent < 0x100 && other < 0x100
    ensures CmdResult(data0, data1, sent, mrbSize) == CmdResult(data0, data1, other, mrbSize)
  {
    assert sent / 0x400 == 0 && other / 0x400 == 0;
  }

  /** The answer of the firmware to a well formed frame passes the checks of the host. */
  lemma ReplyIsAccepted(d: Device, answer: Answer, cmdWord: u32)
    requires cmdWord < 0x100 && 2 + |answer.values| <= |d.mrb| < 0x4000
    ensures var mrb := Reply(d, answer).mrb;
            && |mrb| == |d.mrb|
            && Reply(d, answer).rcu == answer.rcu
            && CmdResult(mrb[0], mrb[1], cmdWord, |mrb|) == |answer.values|
            && mrb[2..2 + |answer.values|] == answer.values
  {
    var result, mrb := Result(d, 0, answer.values), Reply(d, answer).mrb;
    assert mrb[..|result|] == result;
    assert mrb[0] == result[0] && mrb[1] == result[1];
    var count := 2 + |answer.values|;
    assert mrb[0] == d.tag * 0x1_0000 + count;
    assert mrb[0] % 0x1_0000 == count;
    assert mrb[0] / 0x4000 == d.tag * 4 + count / 0x4000;
    assert mrb[2..count] == result[2..] == answer.values;
  }

  /** Executing the frame of a block writes its items and is answered with success. */
  lemma BlockIsAnswered(t: Transfer, start: nat, cnt: nat, d: Device)
    requires t.Valid() && IsBlock(t, start, cnt) && d.fmt == t.h && t.mibSize <= |d.mib| && 2 <= |d.mrb| < 0x4000
    ensures var frame := BlockFrame(t, start, cnt);
            var d' := Run(d, frame);
            && ModeOf(t.h, frame[0]) == t.EffectiveMode()
            && d'.rcu == WriteItems(d.rcu, t.EffectiveMode(), t.address + start, t.Sent()[start..start + cnt])
            && |d'.mrb| == |d.mrb|
            && CmdResult(d'.mrb[0], d'.mrb[1], frame[0] % 0x100, |d.mrb|) == 0
  {
    var frame := BlockFrame(t, start, cnt);
    BlockHeader(t, |BlockPayload(t, start, cnt)|);
    BlockFrameIsPerformed(t, start, cnt, d);
    hide Frames.BlockFrame, Frames.IsBlock, CmdResult, RcuBus.WriteItems, Payload.SentItems, Firmware.Execute;
    ReplyIsAccepted(d.(mib := Overlay(d.mib, frame)),
      Answer(WriteItems(d.rcu, t.EffectiveMode(), t.address + start, t.Sent()[start..start + cnt]), []),
      frame[0] % 0x100);
  }

  /** Executing a read request delivers the words and is answered with their number. */
  lemma ReadIsAnswered(d: Device, mode: nat, a: u32, cnt: u32)
    requires Known(d.fmt) && 5 <= |d.mib| && 2 + cnt <= |d.mrb| < 0x4000
    ensures var frame := ReadFrame(d.fmt, mode, a, cnt);
            var d' := Run(d, frame);
            var answer := ReadItems(d.rcu, mode % d.fmt.modeRange, a, cnt);
            && ModeOf(d.fmt, frame[0]) == mode % d.fmt.modeRange
            && d'.rcu == answer.rcu
            && |d'.mrb| == |d.mrb|
            && CmdResult(d'.mrb[0], d'.mrb[1], frame[0] % 0x100, |d.mrb|) == cnt
            && d'.mrb[2..2 + cnt] == answer.values
  {
    var frame := ReadFrame(d.fmt, mode, a, cnt);
    FieldsReadBack(d.fmt, 2, 0, 0, mode, MULTI_READ);
    ReadFrameIsPerformed(d, mode, a, cnt);
    hide Frames.ReadFrame, CmdResult, RcuBus.ReadItems, Firmware.Execute;
    ReplyIsAccepted(d.(mib := Overlay(d.mib, frame)), ReadItems(d.rcu, mode % d.fmt.modeRange, a, cnt),
                    frame[0] % 0x100);
  }

  /** The execute bit is not left set, and the select map bit is only used together with the direct bus bit. */
  predicate ControlOk(ctrl: bv8) {
    && ctrl & COMMAND_EXECUTE == 0
    && (ctrl & SELECTMAP_ACTIVATE != 0 ==> ctrl & DIRECT_BUS_ACTIVATE != 0)
  }

  class MsgBuffer {
    const mib: array<u32>
    const mrbSize: nat
    const header: Header
    const firmwareVersion: nat
    const encode: bool  // frames are appended to a file instead of being executed
    var compression: bool
    var flashAccess: FlashAccess
    var dev: Device
    var file: seq<u32>

    ghost predicate Valid()
      reads this
    {
      && Known(header) && dev.fmt == header
      && |dev.mib| == mib.Length && mib.Length - 3 <= MaxPayload(header)
      && |dev.mrb| == mrbSize && 3 <= mrbSize < 0x4000
      && (compression || flashAccess.Dcsc? ==> firmwareVersion >= FIRMWARE_2_2)
      && (firmwareVersion >= FIRMWARE_2_2 ==> header == V2_2)
      && ControlOk(dev.ctrl)
    }

    /** Open the device, with the answers of the driver about sizes and version. */
    constructor (skip: bool, given: int, inAnswer: Option<u32>, outAnswer: Option<u32>, major: int, minor: u16,
                 encode: bool, device: Device)
      requires given < 0x8000_0000 && device.fmt == SelectHeader(Unasked(skip, given), major, minor)
      requires |device.mib| == InSize(skip, given, inAnswer) / 4 && |device.mib| - 3 <= MaxPayload(device.fmt)
      requires |device.mrb| == OutSize(skip, given, outAnswer) / 4 && 3 <= |device.mrb| < 0x4000
      requires ControlOk(device.ctrl)
      ensures Valid() && fresh(mib)
      ensures dev == device && file == [] && this.encode == encode
      ensures mib.Length == InSize(skip, given, inAnswer) / 4 && mrbSize == OutSize(skip, given, outAnswer) / 4
      ensures compression <==> !Unasked(skip, given) && major * 0x1_0000 + minor >= FIRMWARE_2_2
      ensures flashAccess.Dcsc? <==> compression
    {
      mib := new u32[InSize(skip, given, inAnswer) / 4](_ => 0);
      mrbSize := OutSize(skip, given, outAnswer) / 4;
      header := SelectHeader(Unasked(skip, given), major, minor);
      this.encode := encode;
      var version := if Unasked(skip, given) || major <= 0 then 0 else major * 0x1_0000 + minor;
      firmwareVersion := version;
      compression := version >= FIRMWARE_2_2;
      flashAccess := if version >= FIRMWARE_2_2 then Dcsc else Actel;
      dev := device;
      file := [];
    }

    // ---------- the control register ----------

    method ReadDcscRegister() returns (v: bv8)
      ensures v == dev.ctrl
    {
      v := dev.ctrl;
    }

    method WriteDcscRegister(v: bv8)
      requires Known(dev.fmt)
      modifies this`dev
      ensures dev == WriteReg(old(dev), v)
    {
      dev := WriteReg(dev, v);
    }

    method SetDcscRegisterBit(pattern: bv8)
      requires Known(dev.fmt)
      modifies this`dev
      ensures dev == WriteReg(old(dev), old(dev).ctrl | pattern)
    {
      var v := ReadDcscRegister();
      WriteDcscRegister(v | pattern);
    }

    method CheckState(state: BusMode) returns (ok: bool)
      ensures ok <==> encode || BusModeOf(dev.ctrl) == state
    {
      if encode {
        ok := true;
      } else {
        var reg := ReadDcscRegister();
        if reg & DIRECT_BUS_ACTIVATE != 0 {
          if reg & SELECTMAP_ACTIVATE != 0 {
            ok := state == SelectMap;
          } else {
            ok := state == Flash;
          }
        } else {
          ok := state == MsgBuf;
        }
      }
    }

    // ---------- sending one frame ----------

    /** The bus is in the state that a frame of this mode needs. */
    predicate Admits(mode: nat)
      reads this
    {
      BusModeOf(dev.ctrl) == if mode == MODE_FLASH then Flash else MsgBuf
    }

    /** What the header format makes of a mode: only v2.2 can ask for the flash. */
    function EffectiveMode(mode: nat): nat
      requires Known(header)
    {
      mode % header.modeRange
    }

    method LaunchExecution()
      requires Known(dev.fmt) && dev.ctrl & COMMAND_EXECUTE == 0
      modifies this`dev
      ensures dev == Execute(old(dev))
    {
      ExecuteBitRuns(dev);
      SetDcscRegisterBit(COMMAND_EXECUTE);
    }

    /** Send the first n words of the message in buffer. A frame for the wrong bus mode is not executed. */
    method SendRcuCommand(n: nat) returns (r: int)
      requires Valid() && 1 <= n <= mib.Length
      modifies this`dev, this`file
      ensures Valid() && dev.ctrl == old(dev).ctrl
      ensures encode ==> r >= 0 && dev == old(dev) && file == old(file) + mib[..n]
      ensures !encode && old(Admits(ModeOf(header, mib[0]))) ==>
                r >= 0 && dev == Run(old(dev), mib[..n]) && file == old(file)
      ensures !encode && !old(Admits(ModeOf(header, mib[0]))) ==>
                r == -EBADFD && dev == old(dev) && file == old(file)
    {
      hide Firmware.Execute;
      var bFlash := ModeOf(header, mib[0]) == MODE_FLASH;
      var ok := CheckState(if bFlash then Flash else MsgBuf);
      if !ok {
        return -EBADFD;
      }
      r := WriteToMsgInBuffer(n);
      if !encode {
        LaunchExecution();
        r := 0;
        RunKeeps(old(dev), mib[..n]);
      }
    }

    method WriteToMsgInBuffer(n: nat) returns (r: int)
      requires 1 <= n <= mib.Length
      modifies this`dev, this`file
      ensures r == 4 * n
      ensures if encode then dev == old(dev) && file == old(file) + mib[..n]
              else dev == old(dev).(mib := Overlay(old(dev).mib, mib[..n])) && file == old(file)
    {
      if encode {
        file := file + mib[..n];
      } else {
        dev := dev.(mib := Overlay(dev.mib, mib[..n]));
      }
      r := 4 * n;
    }

    /** A positive result is the number of data words, which lie behind the two result words. */
    method GetCmdResult(cmdWord: u32) returns (r: int)
      requires Valid()
      ensures r <= mrbSize - 2 && (r < 0 ==> ResultError(r)) && (encode ==> r == 0)
      ensures r > 0 ==> r + 2 <= |dev.mrb| && dev.mrb[0] % 0x1_0000 == r + 2 && dev.mrb[1] == 0
      ensures !encode && cmdWord < 0x100 && dev.mrb[1] == 0 && 2 <= dev.mrb[0] % 0x1_0000 <= mrbSize ==>
                r == dev.mrb[0] % 0x1_0000 - 2
      ensures !encode && Passes(dev.mrb[0], cmdWord) && KnownStatus(dev.mrb[1]) ==> r < 0
      ensures !encode ==> r == CmdResult(dev.mrb[0], dev.mrb[1], cmdWord, mrbSize)
    {
      r := 0;
      if !encode {
        var data0, data1 := dev.mrb[0], dev.mrb[1];
        CmdResultMeans(data0, data1, cmdWord, mrbSize);
        r := CmdResult(data0, data1, cmdWord, mrbSize);
      }
    }

    /** Send the frame at the beginning of the message in buffer and fetch the result. */
    method Transact(n: nat) returns (r: int)
      requires Valid() && 1 <= n <= mib.Length
      modifies this`dev, this`file
      ensures Valid() && dev.ctrl == old(dev).ctrl
      ensures encode ==> r == 0 && dev == old(dev) && file == old(file) + mib[..n]
      ensures !encode ==> file == old(file)
      ensures !encode && old(Admits(ModeOf(header, mib[0]))) ==>
                && dev == Run(old(dev), mib[..n])
                && r == CmdResult(dev.mrb[0], dev.mrb[1], mib[0] % 0x100, mrbSize)
      ensures !encode && !old(Admits(ModeOf(header, mib[0]))) ==> r == -EBADFD && dev == old(dev)
    {
      r := SendRcuCommand(n);
      if r >= 0 {
        r := GetCmdResult(mib[0] % 0x100);
      }
    }

    // ---------- single transactions ----------

    method RcuSingleWriteExt(address: u32, data: u32, mode: nat) returns (r: int)
      requires Valid()
      modifies this`dev, this`file, mib
      ensures Valid() && dev.ctrl == old(dev).ctrl
      ensures mib.Length < 6 ==> r == -EBADFD && dev == old(dev) && file == old(file)
      ensures mib.Length >= 6 && encode ==>
                r == 0 && dev == old(dev) && file == old(file) + SingleWriteFrame(header, mode, address, data)
      ensures !encode ==> file == old(file)
      ensures mib.Length >= 6 && !encode && old(Admits(EffectiveMode(mode))) ==>
                r == 0 && dev.rcu == WriteItem(old(dev).rcu, EffectiveMode(mode), address, data)
      ensures mib.Length >= 6 && !encode && !old(Admits(EffectiveMode(mode))) ==> r == -EBADFD && dev == old(dev)
    {
      hide Firmware.Execute;
      if mib.Length < 6 {
        return -EBADFD;
      }
      mib[0] := MkFrstWrd(header, 2, 0, 0, mode, SINGLE_WRITE);
      mib[1] := address;
      mib[2] := data;
      mib[3] := MkLstWrd(0);
      mib[4] := MkEndMarker();
      assert mib[..5] == SingleWriteFrame(header, mode, address, data);
      FieldsReadBack(header, 2, 0, 0, mode, SINGLE_WRITE);
      SingleWriteIsPerformed(dev, mode, address, data);
      ReplyIsAccepted(dev.(mib := Overlay(dev.mib, mib[..5])),
                      Answer(WriteItem(dev.rcu, EffectiveMode(mode), address, data), []), mib[0] % 0x100);
      r := Transact(5);
    }

    /** On success the word is in r's companion value; nothing is read in encode mode. */
    method RcuSingleReadExt(address: u32, mode: nat) returns (r: int, value: u32)
      requires Valid()
      modifies this`dev, this`file, mib
      ensures Valid() && dev.ctrl == old(dev).ctrl
      ensures mib.Length < 6 ==> r == -EBADFD && dev == old(dev) && file == old(file)
      ensures mib.Length >= 6 && encode ==>
                r == 0 && dev == old(dev) && file == old(file) + SingleReadFrame(header, mode, address)
      ensures !encode ==> file == old(file)
      ensures mib.Length >= 6 && !encode && old(Admits(EffectiveMode(mode))) ==>
                r == 1 && Answer(dev.rcu, [value]) == ReadItem(old(dev).rcu, EffectiveMode(mode), address)
      ensures mib.Length >= 6 && !encode && !old(Admits(EffectiveMode(mode))) ==> r == -EBADFD && dev == old(dev)
    {
      hide Firmware.Execute;
      value := 0;
      if mib.Length < 6 {
        r := -EBADFD;
        return;
      }
      mib[0] := MkFrstWrd(header, 1, 0, 0, mode, SINGLE_READ);
      mib[1] := address;
      mib[2] := MkLstWrd(0);
      mib[3] := MkEndMarker();
      assert mib[..4] == SingleReadFrame(header, mode, address);
      FieldsReadBack(header, 1, 0, 0, mode, SINGLE_READ);
      SingleReadIsPerformed(dev, mode, address);
      ghost var answer := ReadItem(dev.rcu, EffectiveMode(mode), address);
      ReplyIsAccepted(dev.(mib := Overlay(dev.mib, mib[..4])), answer, mib[0] % 0x100);
      r := Transact(4);
      if r > 0 {
        value := dev.mrb[2];
        assert dev.mrb[2..3] == [value];
      }
    }

    // ---------- multiple read ----------

    /** Copy data words of the result buffer to the caller's buffer. */
    method ReadResultBuffer(target: array<u32>, at: nat, cnt: nat)
      requires Valid() && at + cnt <= target.Length && 2 + cnt <= mrbSize
      modifies target
      ensures target[..at + cnt] == old(target[..at]) + dev.mrb[2..2 + cnt]
      ensures forall j :: at + cnt <= j < target.Length ==> target[j] == old(target[j])
    {
      var i := 0;
      while i < cnt
        invariant i <= cnt
        invariant forall j :: at <= j < at + i ==> target[j] == dev.mrb[2 + j - at]
        invariant forall j :: 0 <= j < target.Length && !(at <= j < at + i) ==> target[j] == old(target[j])
      {
        target[at + i] := dev.mrb[2 + i];
        i := i + 1;
      }
    }

    /** Request one block of words and append it to what has been read. */
    method ReadBlock(address: u32, cnt: u32, pData: array<u32>, at: nat, mode: nat) returns (r: int)
      requires Valid() && mib.Length >= 6 && 1 <= cnt <= mrbSize - 2
      requires pData != mib && at + cnt <= pData.Length
      modifies this`dev, this`file, mib, pData
      ensures Valid() && dev.ctrl == old(dev).ctrl
      ensures encode ==>
                && r == 0 && dev == old(dev) && pData[..] == old(pData[..])
                && file == old(file) + ReadFrame(header, mode, address, cnt)
      ensures !encode ==> file == old(file)
      ensures !encode && old(Admits(EffectiveMode(mode))) ==>
                var answer := ReadItems(old(dev).rcu, EffectiveMode(mode), address, cnt);
                && r == cnt && dev.rcu == answer.rcu
                && pData[..at + cnt] == old(pData[..at]) + answer.values
                && forall j :: at + cnt <= j < pData.Length ==> pData[j] == old(pData[j])
      ensures !encode && !old(Admits(EffectiveMode(mode))) ==>
                r == -EBADFD && dev == old(dev) && pData[..] == old(pData[..])
    {
      mib[1] := address;
      mib[2] := cnt;
      mib[0] := MkFrstWrd(header, 2, 0, 0, mode, MULTI_READ);
      mib[3] := MkLstWrd(0);
      mib[4] := MkEndMarker();
      assert mib[..5] == ReadFrame(header, mode, address, cnt);
      assert mib[0] == ReadFrame(header, mode, address, cnt)[0];
      hide Firmware.Execute, RcuBus.ReadItems, Frames.ReadFrame, MsgHeader.MkFrstWrd, MsgHeader.ModeOf, CmdResult;
      hide Firmware.Run, Firmware.BusModeOf, ControlOk, MsgHeader.Known;
      ReadIsAnswered(dev, mode, address, cnt);
      r := Transact(5);
      if r > 0 {
        ReadResultBuffer(pData, at, r);
      }
    }

    /**
     Where a multiple read stands after k blocks, having started with the device d0, the file
     f0 and the contents p0 of the caller's buffer.
     */
    ghost predicate ReadProgress(d0: Device, f0: seq<u32>, p0: seq<u32>, address: nat, n: nat, pData: array<u32>,
                                 mode: nat, k: nat, iRead: nat, r: int)
      requires Known(header) && 1 <= n < 0x8000_0000 && address + n <= 0x1_0000_0000 && 3 <= mrbSize
      requires k <= BlockCount(n, mrbSize - 2) && |p0| == pData.Length
      reads this, pData
    {
      var ok := BusModeOf(d0.ctrl) == if EffectiveMode(mode) == MODE_FLASH then Flash else MsgBuf;
      && dev.ctrl == d0.ctrl
      && (encode ==>
            && r == 0 && iRead == 0 && dev == d0 && pData[..] == p0
            && file == f0 + Flatten(ReadFrames(header, mode, address, n, mrbSize - 2, k)))
      && (!encode ==> file == f0)
      && (!encode && ok ==>
            && r >= 0 && iRead == Covered(n, mrbSize - 2, k) <= n <= pData.Length
            && Answer(dev.rcu, pData[..iRead]) == ReadItems(d0.rcu, EffectiveMode(mode), address, iRead)
            && forall j :: n <= j < pData.Length ==> pData[j] == p0[j])
      && (!encode && !ok ==>
            && iRead == 0 && dev == d0 && pData[..] == p0
            && r == if k == 0 then 0 else -EBADFD)
    }

    method ReadNextBlock(ghost d0: Device, ghost f0: seq<u32>, ghost p0: seq<u32>, address: nat, n: nat,
                         pData: array<u32>, mode: nat, count: nat, b: nat, iRead: nat, ghost r0: int)
      returns (r: int, iRead': nat)
      requires Valid() && mib.Length >= 6 && 1 <= n < 0x8000_0000 && address + n <= 0x1_0000_0000
      requires pData != mib && |p0| == pData.Length >= n
      requires b < count == BlockCount(n, mrbSize - 2) && r0 >= 0
      requires ReadProgress(d0, f0, p0, address, n, pData, mode, b, iRead, r0)
      modifies this`dev, this`file, mib, pData
      ensures Valid() && ReadProgress(d0, f0, p0, address, n, pData, mode, b + 1, iRead', r)
    {
      hide Firmware.Execute, RcuBus.ReadItem, RcuBus.ReadItems, Words.Flatten, Frames.ReadFrames;
      hide Frames.BlockCount, Frames.BlockLen, Firmware.BusModeOf, MsgBuffer.EffectiveMode;
      var max := mrbSize - 2;
      Blocks(n, max, b);
      var start := b * max;
      var cnt := if b == count - 1 then n - start else max;
      ReadFramesStep(header, mode, address, n, max, b);
      ReadItemsConcat(d0.rcu, EffectiveMode(mode), address, start, cnt);
      r := ReadBlock(address + start, cnt, pData, start, mode);
      iRead' := if r > 0 then iRead + r else iRead;
    }

    method RcuMultipleReadExt(address: nat, n: nat, pData: array<u32>, mode: nat) returns (r: int)
      requires Valid() && 1 <= n < 0x8000_0000 && address + n <= 0x1_0000_0000
      requires pData != mib && n <= pData.Length
      modifies this`dev, this`file, mib, pData
      ensures Valid() && dev.ctrl == old(dev).ctrl
      ensures mib.Length < 6 ==> r == -EBADFD && dev == old(dev) && file == old(file) && pData[..] == old(pData[..])
      ensures mib.Length >= 6 && encode ==>
                && r == 0 && dev == old(dev)
                && file == old(file)
                           + Flatten(ReadFrames(header, mode, address, n, mrbSize - 2, BlockCount(n, mrbSize - 2)))
      ensures !encode ==> file == old(file)
      ensures mib.Length >= 6 && !encode && old(Admits(EffectiveMode(mode))) ==>
                && r == n
                && Answer(dev.rcu, pData[..n]) == ReadItems(old(dev).rcu, EffectiveMode(mode), address, n)
                && forall j :: n <= j < pData.Length ==> pData[j] == old(pData[j])
      ensures mib.Length >= 6 && !encode && !old(Admits(EffectiveMode(mode))) ==>
                r == -EBADFD && dev == old(dev) && pData[..] == old(pData[..])
    {
      hide Firmware.Execute, RcuBus.ReadItem, Firmware.BusModeOf, MsgBuffer.EffectiveMode;
      if mib.Length < 6 {
        return -EBADFD;
      }
      r := 0;
      var iRead := 0;
      var max := mrbSize - 2;
      var count := (n - 1) / max + 1;
      var b := 0;
      ghost var d0, f0, p0 := dev, file, pData[..];
      while b < count && r >= 0
        invariant Valid() && b <= count == BlockCount(n, max)
        invariant ReadProgress(d0, f0, p0, address, n, pData, mode, b, iRead, r)
      {
        r, iRead := ReadNextBlock(d0, f0, p0, address, n, pData, mode, count, b, iRead, r);
        b := b + 1;
      }
      if r >= 0 {
        r := iRead;
      }
    }

    // ---------- multiple write: filling the payload from word 3 of the message in buffer on ----------

    /** 8 and 16-bit items, one to a word. */
    method StoreItems(data: seq<u8>, start: nat, cnt: nat, dm: int)
      requires dm == 1 || dm == -1 || dm == 2 || dm == -2
      requires 3 + cnt <= mib.Length && DataSize(dm) * (start + cnt) <= |data|
      modifies mib
      ensures forall j :: 3 <= j < 3 + cnt ==> mib[j] == Item(data, dm, start + j - 3)
      ensures forall j :: 0 <= j < mib.Length && !(3 <= j < 3 + cnt) ==> mib[j] == old(mib[j])
    {
      var size := DataSize(dm);
      var i := 0;
      while i < cnt
        invariant i <= cnt
        invariant forall j :: 3 <= j < 3 + i ==> mib[j] == Item(data, dm, start + j - 3)
        invariant forall j :: 0 <= j < mib.Length && !(3 <= j < 3 + i) ==> mib[j] == old(mib[j])
      {
        var lsbOffset, msbOffset := 0, 1;
        if dm == -2 {
          lsbOffset, msbOffset := 1, 0;
        }
        var lsb := data[(start + i) * size + lsbOffset];
        mib[3 + i] := lsb;
        if size == 2 {
          var msb: u32 := data[(start + i) * size + msbOffset];
          mib[3 + i] := lsb + msb * 0x100;
        }
        i := i + 1;
      }
    }

    /** Copy cnt whole words from byte offset o, with the bytes of each halfword exchanged if swab is set. */
    method CopyWords(data: seq<u8>, o: nat, cnt: nat, swab: bool)
      requires 3 + cnt <= mib.Length && o + 4 * cnt <= |data|
      modifies mib
      ensures forall j :: 3 <= j < 3 + cnt ==>
                mib[j] == if swab then SwapBytes(WordAt(data, o + 4 * (j - 3))) else WordAt(data, o + 4 * (j - 3))
      ensures forall j :: 0 <= j < mib.Length && !(3 <= j < 3 + cnt) ==> mib[j] == old(mib[j])
    {
      hide Payload.SwapBytes, Words.WordAt;
      var i := 0;
      while i < cnt
        invariant i <= cnt
        invariant forall j :: 3 <= j < 3 + i ==>
                    mib[j] == if swab then SwapBytes(WordAt(data, o + 4 * (j - 3))) else WordAt(data, o + 4 * (j - 3))
        invariant forall j :: 0 <= j < mib.Length && !(3 <= j < 3 + i) ==> mib[j] == old(mib[j])
      {
        var w := WordAt(data, o + 4 * i);
        mib[3 + i] := if swab then SwapBytes(w) else w;
        i := i + 1;
      }
    }

    /** Exchange the halves of the first cnt payload words in place. */
    method SwapHalfwords(cnt: nat)
      requires 3 + cnt <= mib.Length
      modifies mib
      ensures forall j :: 3 <= j < 3 + cnt ==> mib[j] == SwapHalves(old(mib[j]))
      ensures forall j :: 0 <= j < mib.Length && !(3 <= j < 3 + cnt) ==> mib[j] == old(mib[j])
    {
      var i := 0;
      while i < cnt
        invariant i <= cnt
        invariant forall j :: 3 <= j < 3 + i ==> mib[j] == SwapHalves(old(mib[j]))
        invariant forall j :: 0 <= j < mib.Length && !(3 <= j < 3 + i) ==> mib[j] == old(mib[j])
      {
        var lsb, msb := mib[3 + i] % 0x1_0000, mib[3 + i] / 0x1_0000;
        mib[3 + i] := lsb * 0x1_0000 + msb;
        i := i + 1;
      }
    }

    /** Copy the payload of one block as it is, apart from the swaps. */
    method CopyPayload(data: seq<u8>, start: nat, cnt: nat, dm: int, cf: nat) returns (size: nat)
      requires Supported(dm, compression) && !Unpacked(dm, compression) && cf == CompFactor(dm, compression)
      requires 3 + PayloadSize(cnt, cf) <= mib.Length && start % cf == 0
      requires BytesNeeded(dm, start + cnt) <= |data|
      modifies mib
      ensures size == PayloadSize(cnt, cf)
      ensures forall j :: 3 <= j < 3 + size ==> mib[j] == PayloadWord(data, dm, compression, start, cnt, j - 3)
      ensures forall j :: 0 <= j < 3 ==> mib[j] == old(mib[j])
    {
      hide Payload.Item, Payload.SwapBytes, Payload.SwapHalves, Payload.Remainder, Words.WordAt;
      size := cnt / cf;
      var bulk, rem := size, cnt % cf;
      var o := 4 * (start / cf);
      BulkFits(data, dm, start, cnt, cf);
      CopyWords(data, o, bulk, dm == -2 || dm == -4);
      if rem != 0 {
        size := size + 1;
        mib[3 + bulk] := Remainder(data, o + 4 * bulk, RemainderBytes(dm, rem));
      }
      if dm == -4 {
        SwapHalfwords(size);
      }
    }

    /** Fill the payload of one block; mib[2] is its number of items. Returns the number of payload words. */
    method FillPayload(data: seq<u8>, start: nat, dm: int, cf: nat) returns (size: nat)
      requires Supported(dm, compression) && cf == CompFactor(dm, compression)
      requires mib.Length >= 6 && start % cf == 0
      requires PayloadSize(mib[2], cf) <= mib.Length - 5
      requires BytesNeeded(dm, start + mib[2]) <= |data|
      modifies mib
      ensures mib[0] == old(mib[0]) && mib[1] == old(mib[1]) && mib[2] == old(mib[2])
      ensures size == PayloadSize(mib[2], cf)
      ensures mib[3..3 + size] == PayloadWords(data, dm, compression, start, mib[2])
    {
      hide Payload.Item, Payload.Ordered, Payload.Remainder, Words.WordAt;
      var cnt := mib[2];
      if !compression && DataSize(dm) < 4 {
        size := cnt;
        StoreItems(data, start, cnt, dm);
      } else {
        size := CopyPayload(data, start, cnt, dm, cf);
      }
      assert |mib[3..3 + size]| == |PayloadWords(data, dm, compression, start, cnt)|;
      assert forall k :: 0 <= k < size ==>
               mib[3..3 + size][k] == mib[3 + k] == PayloadWord(data, dm, compression, start, cnt, k);
    }

    /** The complete words to be copied lie within the data. */
    static lemma BulkFits(data: seq<u8>, dm: int, start: nat, cnt: nat, cf: nat)
      requires Supported(dm, true) && 1 <= cf <= 4 && start % cf == 0
      requires (DataSize(dm) == 4 && cf == 1) || cf == CompFactor(dm, true)
      requires BytesNeeded(dm, start + cnt) <= |data|
      ensures 4 * (start / cf) + 4 * (cnt / cf) <= |data|
    {
      match cf
      case 1 =>
      case 2 =>
      case 3 => assert (start + cnt) / 3 == start / 3 + cnt / 3;
      case 4 =>
    }

    // ---------- multiple write ----------

    function TransferOf(address: nat, data: seq<u8>, n: nat, dm: int, mode: nat): Transfer
      reads this
    {
      Transfer(header, mib.Length, compression, address, data, n, dm, mode)
    }

    /** Build the frame of one block, and return its length. */
    method BuildBlock(address: u32, data: seq<u8>, start: nat, cnt: u32, dm: int, cf: nat, mode: nat)
      returns (length: nat)
      requires Known(header) && Supported(dm, compression) && cf == CompFactor(dm, compression)
      requires mib.Length >= 6 && start % cf == 0 && PayloadSize(cnt, cf) <= mib.Length - 5
      requires BytesNeeded(dm, start + cnt) <= |data|
      modifies mib
      ensures 1 <= length <= mib.Length
      ensures mib[..length] == Frame(header, [address, cnt] + PayloadWords(data, dm, compression, start, cnt),
                                     cf - 1, mode, MULTI_WRITE)
    {
      mib[1] := address;
      mib[2] := cnt;
      hide Payload.PayloadWords, Payload.PayloadSize, Payload.BytesNeeded, Payload.CompFactor, Payload.Supported;
      var size := FillPayload(data, start, dm, cf);
      ghost var packed := mib[3..3 + size];
      mib[0] := MkFrstWrd(header, size + 2, 0, cf - 1, mode, MULTI_WRITE);
      mib[size + 3] := MkLstWrd(0);
      mib[size + 4] := MkEndMarker();
      length := size + 5;
      ghost var ws, payload := mib[..length], [address, cnt] + packed;
      hide MsgHeader.MkFrstWrd, MsgHeader.Frame;
      assert ws[1] == address && ws[2] == cnt && ws[3..size + 3] == packed;
      assert ws[1..size + 3] == payload;
      Assembled(ws, header, payload, cf - 1, mode, MULTI_WRITE);
    }

    /** Build the frame of one block and send it. */
    method WriteBlock(address: u32, data: seq<u8>, start: nat, cnt: u32, dm: int, cf: nat, mode: nat, ghost t: Transfer)
      returns (r: int)
      requires Valid() && mib.Length >= 6 && Supported(dm, compression) && cf == CompFactor(dm, compression)
      requires t == TransferOf(t.address, data, t.n, dm, mode) && t.Valid() && address == t.address + start
      requires IsBlock(t, start, cnt) && BytesNeeded(dm, t.n) <= |data|
      modifies this`dev, this`file, mib
      ensures Valid() && dev.ctrl == old(dev).ctrl
      ensures encode ==> r == 0 && dev == old(dev) && file == old(file) + BlockFrame(t, start, cnt)
      ensures !encode ==> file == old(file)
      ensures !encode && old(Admits(t.EffectiveMode())) ==>
                && r == 0
                && dev.rcu == WriteItems(old(dev).rcu, t.EffectiveMode(), t.address + start,
                                         t.Sent()[start..start + cnt])
      ensures !encode && !old(Admits(t.EffectiveMode())) ==> r == -EBADFD && dev == old(dev)
    {
      BytesMonotone(dm, start + cnt, t.n);
      hide Payload.BytesNeeded, Payload.PayloadWords, Payload.PayloadSize, RcuBus.WriteItems, Payload.SentItems;
      var length := BuildBlock(address, data, start, cnt, dm, cf, mode);
      ghost var frame := BlockFrame(t, start, cnt);
      assert mib[..length] == frame && mib[0] == frame[0];
      hide Frames.BlockFrame, MsgHeader.Frame, MsgHeader.ModeOf, CmdResult, Firmware.Run, Firmware.BusModeOf, ControlOk;
      hide Payload.CompFactor, Payload.Supported, Frames.IsBlock, MsgHeader.Known;
      BlockIsAnswered(t, start, cnt, dev);
      r := Transact(length);
    }

    /** Where a multiple write stands after k blocks, having started with the device d0 and the file f0. */
    ghost predicate WriteProgress(d0: Device, f0: seq<u32>, t: Transfer, k: nat, r: int)
      requires t.Valid() && k <= t.Count()
      reads this
    {
      var ok := BusModeOf(d0.ctrl) == if t.EffectiveMode() == MODE_FLASH then Flash else MsgBuf;
      && dev.ctrl == d0.ctrl
      && (encode ==> r == 0 && dev == d0 && file == f0 + Flatten(WriteFrames(t, k)))
      && (!encode ==> file == f0)
      && (!encode && ok ==>
            && r == 0 && Covered(t.n, t.Max(), k) <= t.n
            && dev.rcu == WriteItems(d0.rcu, t.EffectiveMode(), t.address, t.Sent()[..Covered(t.n, t.Max(), k)]))
      && (!encode && !ok ==> dev == d0 && r == if k == 0 then 0 else -EBADFD)
    }

    method WriteNextBlock(ghost d0: Device, ghost f0: seq<u32>, ghost t: Transfer,
                          address: nat, data: seq<u8>, n: nat, dm: int, cf: nat, mode: nat,
                          max: nat, count: nat, b: nat, ghost r0: int) returns (r: int)
      requires Valid() && t == TransferOf(address, data, n, dm, mode) && t.Valid() && BytesNeeded(dm, n) <= |data|
      requires cf == t.Factor() && max == t.Max() && b < count == t.Count()
      requires WriteProgress(d0, f0, t, b, r0) && r0 >= 0
      modifies this`dev, this`file, mib
      ensures Valid() && WriteProgress(d0, f0, t, b + 1, r)
    {
      hide Firmware.Execute, RcuBus.WriteItem, RcuBus.WriteItems, Words.Flatten, Frames.WriteFrames, Frames.BlockFrame;
      hide Firmware.BusModeOf, Payload.SentItems, Payload.BytesNeeded, Payload.CompFactor, Payload.Supported;
      hide Frames.IsBlock;
      Blocks(n, max, b);
      WriteFramesStep(t, b);
      hide Frames.BlockCount, Frames.BlockLen;
      var start := b * max;
      var cnt := if b == count - 1 then n - start else max;
      WriteContinues(d0.rcu, t, start, cnt);
      r := WriteBlock(address + start, data, start, cnt, dm, cf, mode, t);
    }

    /** The write loop. It stops after the first frame that is refused. */
    method WriteBlocks(address: nat, data: seq<u8>, n: nat, dm: int, cf: nat, mode: nat) returns (r: int)
      requires Valid() && TransferOf(address, data, n, dm, mode).Valid() && BytesNeeded(dm, n) <= |data|
      requires cf == CompFactor(dm, compression)
      modifies this`dev, this`file, mib
      ensures Valid()
      ensures var t := TransferOf(address, data, n, dm, mode);
              WriteProgress(old(dev), old(file), t, if r < 0 then 1 else t.Count(), r)
    {
      ghost var d0, f0, t := dev, file, TransferOf(address, data, n, dm, mode);
      r := 0;
      var max := (mib.Length - 5) * cf;
      var count := (n - 1) / max + 1;
      var b := 0;
      assert t.Sent()[..0] == [];
      assert count == t.Count() && WriteProgress(d0, f0, t, 0, 0);
      hide WriteProgress;
      while b < count && r >= 0
        invariant Valid() && b <= count
        invariant WriteProgress(d0, f0, t, b, r) && (r < 0 ==> b == 1)
      {
        r := WriteNextBlock(d0, f0, t, address, data, n, dm, cf, mode, max, count, b, r);
        b := b + 1;
      }
    }

    /** Why a data mode is refused. */
    function ModeError(dm: int): int
      reads this
    {
      if !KnownMode(dm) || (dm == -3 && compression) then -EINVAL else -ENOSYS
    }

    method RcuMultipleWriteExt(address: nat, data: seq<u8>, n: nat, dm: int, mode: nat) returns (r: int)
      requires Valid() && 1 <= n < 0x8000_0000 && address + n <= 0x1_0000_0000
      requires Supported(dm, compression) ==> BytesNeeded(dm, n) <= |data|
      modifies this`dev, this`file, mib
      ensures Valid() && dev.ctrl == old(dev).ctrl
      ensures mib.Length < 6 ==> r == -EBADFD && dev == old(dev) && file == old(file)
      ensures mib.Length >= 6 && !Supported(dm, compression) ==>
                r == ModeError(dm) && dev == old(dev) && file == old(file)
      ensures mib.Length >= 6 && Supported(dm, compression) && encode ==>
                var t := TransferOf(address, data, n, dm, mode);
                r == 0 && dev == old(dev) && t.Valid() && file == old(file) + Flatten(WriteFrames(t, t.Count()))
      ensures !encode ==> file == old(file)
      ensures mib.Length >= 6 && Supported(dm, compression) && !encode && old(Admits(EffectiveMode(mode))) ==>
                && r == 0
                && dev.rcu == WriteItems(old(dev).rcu, EffectiveMode(mode), address,
                                         SentItems(data, dm, compression, n))
      ensures mib.Length >= 6 && Supported(dm, compression) && !encode && !old(Admits(EffectiveMode(mode))) ==>
                r == -EBADFD && dev == old(dev)
    {
      if mib.Length < 6 {
        return -EBADFD;
      }
      if !KnownMode(dm) {
        return -EINVAL;
      }
      var cf := CompFactor(dm, compression);
      if dm < 0 && cf == 3 {
        return -EINVAL;
      }
      if !compression && DataSize(dm) == 3 {
        return -ENOSYS;
      }
      ghost var t := TransferOf(address, data, n, dm, mode);
      assert Covered(n, t.Max(), t.Count()) == n && t.Sent()[..n] == t.Sent();
      hide Firmware.Execute, RcuBus.WriteItems, Payload.SentItems, Frames.WriteFrames, Firmware.BusModeOf;
      hide Words.Flatten, Payload.BytesNeeded, Payload.CompFactor, Frames.Covered, Frames.BlockCount;
      hide Payload.Supported, Payload.KnownMode;
      r := WriteBlocks(address, data, n, dm, cf, mode);
    }

    static lemma BytesMonotone(dm: int, n: nat, m: nat)
      requires KnownMode(dm) && n <= m
      ensures BytesNeeded(dm, n) <= BytesNeeded(dm, m)
    {
      if DataSize(dm) == 3 {
        assert n / 3 < m / 3 || (n / 3 == m / 3 && n % 3 <= m % 3);
      }
    }
  }
}
