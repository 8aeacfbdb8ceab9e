/**
 Writing and reading the flash memory. With recent firmware this is a transfer in flash mode;
 otherwise it is a protocol of single transactions with the flash controller of the Actel, for
 which the interface has to leave the flash mode and to enter it again.
 */
module FlashProtocol {
  import opened Errno
  import opened Words
  import opened MsgHeader
  import opened Payload
  import opened RcuBus
  import opened Firmware
  import opened MessageBuffer
  import opened BusControl

  const FLASH_SIZE := 0x100_0000
  const MAX_WAITSTATES := 60

  // ---------- what the protocol does, as a function of the state of the RCU ----------

  /** How long the i-th coming command keeps the flash busy. */
  function DelayOf(delays: seq<nat>, i: nat): nat {
    if i < |delays| then delays[i] else 0
  }

  function AfterCommand(delays: seq<nat>): seq<nat> {
    if delays == [] then [] else delays[1..]
  }

  /** The number of cycles started before a delay that exceeds the wait loop, and at most n. */
  function Cycles(delays: seq<nat>, n: nat): (k: nat)
    ensures k <= n
    decreases n
  {
    if n == 0 then 0
    else if DelayOf(delays, 0) > MAX_WAITSTATES then 1
    else 1 + Cycles(AfterCommand(delays), n - 1)
  }

  function Drop(delays: seq<nat>, i: nat): seq<nat> {
    if i <= |delays| then delays[i..] else []
  }

  predicate InTime(delays: seq<nat>, n: nat) {
    forall i :: 0 <= i < n ==> DelayOf(delays, i) <= MAX_WAITSTATES
  }

  /** How many of n cycles complete before the first late one. */
  function CompleteCycles(delays: seq<nat>, n: nat): (k: nat)
    ensures k <= n && InTime(delays, k) && (k < n ==> DelayOf(delays, k) > MAX_WAITSTATES)
    decreases n
  {
    if n == 0 || DelayOf(delays, 0) > MAX_WAITSTATES then 0
    else
      var k := CompleteCycles(AfterCommand(delays), n - 1);
      assert forall i :: 1 <= i <= n ==> DelayOf(delays, i) == DelayOf(AfterCommand(delays), i - 1);
      1 + k
  }

  lemma {:induction false} CyclesAllInTime(delays: seq<nat>, n: nat)
    requires InTime(delays, n)
    ensures Cycles(delays, n) == n
    decreases n
  {
    if n > 0 {
      assert forall i :: 0 <= i < n - 1 ==> DelayOf(AfterCommand(delays), i) == DelayOf(delays, i + 1);
      CyclesAllInTime(AfterCommand(delays), n - 1);
    }
  }

  lemma {:induction false} CyclesStopLate(delays: seq<nat>, n: nat, i: nat)
    requires i < n && InTime(delays, i) && DelayOf(delays, i) > MAX_WAITSTATES
    ensures Cycles(delays, n) == i + 1 && !InTime(delays, n)
    decreases n
  {
    if i > 0 {
      assert forall j :: 0 <= j < i ==> DelayOf(AfterCommand(delays), j) == DelayOf(delays, j + 1);
      assert DelayOf(delays, 0) <= MAX_WAITSTATES;
      CyclesStopLate(AfterCommand(delays), n - 1, i - 1);
    }
  }

  lemma StoreOneMore(m: map<int, u32>, a: int, ws: seq<u32>, i: nat)
    requires i < |ws|
    ensures Store(m, a, ws[..i])[a + i := ws[i]] == Store(m, a, ws[..i + 1])
  {
    var left, right := Store(m, a, ws[..i])[a + i := ws[i]], Store(m, a, ws[..i + 1]);
    assert left.Keys == right.Keys;
    forall k | k in right.Keys
      ensures left[k] == right[k]
    {
      if a <= k < a + i {
        assert ItemFor(ws[..i], a, k) == ItemFor(ws[..i + 1], a, k);
      } else if k == a + i {
        assert right[k] == ItemFor(ws[..i + 1], a, k) == ws[i];
      }
    }
  }

  /** The registers that the protocol uses for itself. */
  predicate ProtocolRegister(a: int) {
    a == FLASH_ADDRH || a == FLASH_ADDRL || a == FLASH_DATA || a == FLASH_READRES
  }

  /** The memory differs in protocol registers only. */
  ghost predicate SameMemory(m: map<int, u32>, m': map<int, u32>) {
    forall a :: !ProtocolRegister(a) ==> Load(m, a) == Load(m', a)
  }

  lemma SameMemoryIsReflexive(m: map<int, u32>)
    ensures SameMemory(m, m)
  {
  }

  // ---------- single steps ----------

  /** Memory mapped transactions are executed. */
  predicate CanTransact(encode: bool, mibSize: nat, ctrl: bv8) {
    !encode && mibSize >= 6 && BusModeOf(ctrl) == MsgBuf
  }

  method Poke(m: MsgBuffer, a: u32, v: u32) returns (r: int)
    requires m.Valid() && CanTransact(m.encode, m.mib.Length, m.dev.ctrl)
    modifies m`dev, m`file, m.mib
    ensures m.Valid() && m.dev.ctrl == old(m.dev).ctrl && m.file == old(m.file)
    ensures r == 0 && m.dev.rcu == WriteItem(old(m.dev).rcu, MODE_MEMMAPPED, a, v)
  {
    assert m.EffectiveMode(MODE_MEMMAPPED) == MODE_MEMMAPPED;
    r := m.RcuSingleWriteExt(a, v, MODE_MEMMAPPED);
  }

  method Peek(m: MsgBuffer, a: u32) returns (r: int, v: u32)
    requires m.Valid() && !m.encode && BusModeOf(m.dev.ctrl) == MsgBuf
    modifies m`dev, m`file, m.mib
    ensures m.Valid() && m.dev.ctrl == old(m.dev).ctrl && m.file == old(m.file)
    ensures m.mib.Length < 6 ==> r == -EBADFD && m.dev == old(m.dev)
    ensures m.mib.Length >= 6 ==> r == 1 && Answer(m.dev.rcu, [v]) == ReadItem(old(m.dev).rcu, MODE_MEMMAPPED, a)
  {
    assert m.EffectiveMode(MODE_MEMMAPPED) == MODE_MEMMAPPED;
    r, v := m.RcuSingleReadExt(a, MODE_MEMMAPPED);
  }

  /** Write the two parts of a flash address to the address registers. */
  method SelectAddress(m: MsgBuffer, aw: u32) returns (r: int)
    requires m.Valid() && CanTransact(m.encode, m.mib.Length, m.dev.ctrl) && aw < FLASH_SIZE
    modifies m`dev, m`file, m.mib
    ensures m.Valid() && m.dev.ctrl == old(m.dev).ctrl && m.file == old(m.file)
    ensures r == 0 && FlashAddress(m.dev.rcu) == aw
    ensures Load(m.dev.rcu.mem, 0xb102) == aw % 0x1_0000 && Load(m.dev.rcu.mem, 0xb101) == aw / 0x1_0000
    ensures m.dev.rcu == old(m.dev).rcu.(mem := m.dev.rcu.mem) && SameMemory(old(m.dev).rcu.mem, m.dev.rcu.mem)
  {
    r := Poke(m, FLASH_ADDRL, aw % 0x1_0000);
    r := Poke(m, FLASH_ADDRH, aw / 0x1_0000 % 0x100);
  }

  /** Leave the flash mode for memory mapped transactions. */
  method FlashModeOff(m: MsgBuffer) returns (r: int)
    requires m.Valid() && !m.encode && BusModeOf(m.dev.ctrl) == Flash
    modifies m`dev, m`flashAccess, m`compression
    ensures m.Valid() && r >= 0 && BusModeOf(m.dev.ctrl) == MsgBuf && m.dev == old(m.dev).(ctrl := m.dev.ctrl)
    ensures m.flashAccess == old(m.flashAccess) && m.compression == old(m.compression)
  {
    r := RcuBusControlCmdExt(m, DisableFlash);
  }

  /** And enter it again. */
  method FlashModeOn(m: MsgBuffer) returns (r: int)
    requires m.Valid() && !m.encode && BusModeOf(m.dev.ctrl) == MsgBuf
    modifies m`dev, m`flashAccess, m`compression
    ensures m.Valid() && r >= 0 && BusModeOf(m.dev.ctrl) == Flash && m.dev == old(m.dev).(ctrl := m.dev.ctrl)
    ensures m.flashAccess == old(m.flashAccess) && m.compression == old(m.compression)
  {
    r := RcuBusControlCmdExt(m, EnableFlash);
  }

  /** Read the status once. */
  method IsIdle(m: MsgBuffer) returns (r: int, idle: bool)
    requires m.Valid() && !m.encode && BusModeOf(m.dev.ctrl) == MsgBuf
    modifies m`dev, m`file, m.mib
    ensures m.Valid() && m.dev.ctrl == old(m.dev).ctrl && m.file == old(m.file)
    ensures m.mib.Length < 6 ==> r == -EBADFD && m.dev == old(m.dev) && !idle
    ensures m.mib.Length >= 6 ==> r == 1 && (idle <==> old(m.dev).rcu.busy == 0)
    ensures m.dev.rcu == old(m.dev).rcu.(busy := m.dev.rcu.busy) && (idle ==> m.dev.rcu.busy == 0)
  {
    var flashstate;
    r, flashstate := Peek(m, FLASH_STATUS);
    idle := r >= 0 && flashstate % 0x1_0000 == FLASH_STATE_IDLE;
  }

  /** Poll the status until the flash is idle, or give up. */
  method WaitIdle(m: MsgBuffer) returns (r: int)
    requires m.Valid() && CanTransact(m.encode, m.mib.Length, m.dev.ctrl)
    modifies m`dev, m`file, m.mib
    ensures m.Valid() && m.dev.ctrl == old(m.dev).ctrl && m.file == old(m.file)
    ensures r == if old(m.dev).rcu.busy <= 60 then 1 else -ETIMEDOUT
    ensures m.dev.rcu == old(m.dev).rcu.(busy := m.dev.rcu.busy)
    ensures r == 1 ==> m.dev.rcu.busy == 0
  {
    ghost var r0 := m.dev.rcu;
    var waitstates := 0;
    var flashstate: u32;
    r, flashstate := Peek(m, FLASH_STATUS);
    while r >= 0 && waitstates < MAX_WAITSTATES && flashstate % 0x1_0000 != FLASH_STATE_IDLE
      invariant m.Valid() && m.dev.ctrl == old(m.dev).ctrl && m.file == old(m.file)
      invariant r == 1 && 0 <= waitstates <= MAX_WAITSTATES
      invariant m.dev.rcu == r0.(busy := if r0.busy <= waitstates then 0 else r0.busy - waitstates - 1)
      invariant flashstate % 0x1_0000 == FLASH_STATE_IDLE <==> r0.busy <= waitstates
    {
      waitstates := waitstates + 1;
      r, flashstate := Peek(m, FLASH_STATUS);
    }
    if waitstates >= MAX_WAITSTATES && flashstate % 0x1_0000 != FLASH_STATE_IDLE {
      r := -ETIMEDOUT;
    }
  }

  // ---------- writing ----------

  /** The data modes the Actel protocol can handle. */
  predicate WordMode(dm: int) {
    dm == 1 || dm == 2 || dm == 4
  }

  /** One cycle of the write protocol: the write has been issued, whether or not it completed in time. */
  method WriteCycle(m: MsgBuffer, aw: u32, dw: u32) returns (r: int)
    requires m.Valid() && CanTransact(m.encode, m.mib.Length, m.dev.ctrl) && aw < FLASH_SIZE && m.dev.rcu.busy == 0
    modifies m`dev, m`file, m.mib
    ensures m.Valid() && m.dev.ctrl == old(m.dev).ctrl && m.file == old(m.file)
    ensures Cycled(old(m.dev).rcu, m.dev.rcu, aw, dw, r) && (r >= 0 ==> m.dev.rcu.busy == 0)
  {
    r := SelectAddress(m, aw);
    r := Poke(m, FLASH_DATA, dw);
    r := Poke(m, FLASH_CMD, FLASH_WRITECMD);
    r := WaitIdle(m);
  }

  method FetchWord(data: seq<u8>, dm: int, i: nat) returns (dw: u32)
    requires WordMode(dm)
    ensures dw == Item(data, dm, i)
  {
    if dm == 1 {
      dw := ByteAt(data, i);
    } else if dm == 2 {
      dw := ByteAt(data, 2 * i) + 0x100 * ByteAt(data, 2 * i + 1);
    } else {
      dw := WordAt(data, 4 * i);
    }
  }

  /** What one cycle makes of the RCU. */
  ghost predicate Cycled(before: Rcu, after: Rcu, aw: u32, dw: u32, r: int) {
    && before.busy == 0
    && after.flash == before.flash[aw := dw]
    && after.delays == AfterCommand(before.delays)
    && r == (if DelayOf(before.delays, 0) <= MAX_WAITSTATES then 1 else -ETIMEDOUT)
    && (r == 1 ==> after.busy == 0)
    && SameMemory(before.mem, after.mem)
  }

  /** Where the write loop stands after i cycles, having started with r0, when the last result is r. */
  ghost predicate WriteState(r0: Rcu, now: Rcu, address: u32, items: seq<u32>, i: nat, r: int)
    requires i <= |items|
  {
    && SameMemory(r0.mem, now.mem)
    && now.flash == Store(r0.flash, address, items[..i])
    && (i == 0 ==> now == r0 && r == 1)
    && (r == 1 || r == -ETIMEDOUT)
    && (r == 1 ==> now.busy == 0 && InTime(r0.delays, i) && now.delays == Drop(r0.delays, i))
    && (r < 0 ==> i > 0 && InTime(r0.delays, i - 1) && DelayOf(r0.delays, i - 1) > MAX_WAITSTATES)
  }

  lemma WriteStateStep(r0: Rcu, before: Rcu, after: Rcu, address: u32, items: seq<u32>, i: nat, r: int, r': int,
                       aw: u32)
    requires i < |items| && WriteState(r0, before, address, items, i, r) && r >= 0
    requires aw == address + i && Cycled(before, after, aw, items[i], r')
    ensures WriteState(r0, after, address, items, i + 1, r')
  {
    StoreOneMore(r0.flash, address, items, i);
  }

  lemma WriteStateBegin(r0: Rcu, address: u32, items: seq<u32>)
    requires r0.busy == 0
    ensures WriteState(r0, r0, address, items, 0, 1)
  {
    assert Store(r0.flash, address, items[..0]) == r0.flash;
  }

  lemma WriteStateEnd(r0: Rcu, now: Rcu, address: u32, items: seq<u32>, i: nat, r: int)
    requires i <= |items| && WriteState(r0, now, address, items, i, r) && (i == |items| || r < 0)
    ensures r == if InTime(r0.delays, |items|) then 1 else -ETIMEDOUT
    ensures SameMemory(r0.mem, now.mem) && now.flash == Store(r0.flash, address, items[..Cycles(r0.delays, |items|)])
    ensures r == 1 ==> now.busy == 0 && now.delays == Drop(r0.delays, |items|)
  {
    if r == 1 {
      CyclesAllInTime(r0.delays, |items|);
    } else {
      CyclesStopLate(r0.delays, |items|, i - 1);
    }
  }

  /** The body of the write loop. */
  method WriteStep(m: MsgBuffer, address: u32, data: seq<u8>, dm: int, i: nat,
                   ghost r1: Rcu, ghost items: seq<u32>, ghost was: int)
    returns (r: int)
    requires m.Valid() && CanTransact(m.encode, m.mib.Length, m.dev.ctrl)
    requires WordMode(dm) && items == Items(data, dm, |items|) && i < |items| && address + |items| < FLASH_SIZE
    requires WriteState(r1, m.dev.rcu, address, items, i, was) && was >= 0 && r1.busy == 0
    modifies m`dev, m`file, m.mib
    ensures m.Valid() && m.dev.ctrl == old(m.dev).ctrl && m.file == old(m.file)
    ensures WriteState(r1, m.dev.rcu, address, items, i + 1, r)
  {
    ghost var before := m.dev.rcu;
    var aw := address + i;
    var dw := FetchWord(data, dm, i);
    assert before.busy == 0 && dw == items[i];
    hide Payload.Item, RcuBus.Store, CanTransact, MsgBuffer.Valid, WriteState, Cycled;
    r := WriteCycle(m, aw, dw);
    WriteStateStep(r1, before, m.dev.rcu, address, items, i, was, r, aw);
  }

  /** The write loop of the Actel protocol, entered with the flash idle. */
  method ActelWriteLoop(m: MsgBuffer, address: u32, data: seq<u8>, n: nat, dm: int, r0: int) returns (r: int)
    requires m.Valid() && CanTransact(m.encode, m.mib.Length, m.dev.ctrl) && m.dev.rcu.busy == 0
    requires 1 <= n && address + n < FLASH_SIZE && r0 == 1
    modifies m`dev, m`file, m.mib
    ensures m.Valid() && m.dev.ctrl == old(m.dev).ctrl && m.file == old(m.file)
    ensures SameMemory(old(m.dev).rcu.mem, m.dev.rcu.mem)
    ensures !WordMode(dm) ==> r == -EINVAL && m.dev.rcu == old(m.dev).rcu.(mem := m.dev.rcu.mem)
    ensures WordMode(dm) ==>
              && r == (if InTime(old(m.dev).rcu.delays, n) then 1 else -ETIMEDOUT)
              && m.dev.rcu.flash == Store(old(m.dev).rcu.flash, address,
                                          Items(data, dm, n)[..Cycles(old(m.dev).rcu.delays, n)])
    ensures r == 1 ==> m.dev.rcu.busy == 0 && m.dev.rcu.delays == Drop(old(m.dev).rcu.delays, n)
  {
    hide Payload.Item, RcuBus.Store, CanTransact, MsgBuffer.Valid, WriteState, InTime, SameMemory, Drop, Cycles;
    if !WordMode(dm) {
      r := SelectAddress(m, address);
      return -EINVAL;
    }
    ghost var r1, items := m.dev.rcu, Items(data, dm, n);
    r := r0;
    var i := 0;
    WriteStateBegin(r1, address, items);
    while i < n && r >= 0
      invariant m.Valid() && m.dev.ctrl == old(m.dev).ctrl && m.file == old(m.file)
      invariant 0 <= i <= n && WriteState(r1, m.dev.rcu, address, items, i, r)
    {
      r := WriteStep(m, address, data, dm, i, r1, items, r);
      i := i + 1;
    }
    WriteStateEnd(r1, m.dev.rcu, address, items, i, r);
  }

  /** A flash that is busy is left alone, which is no error. */
  method WriteIfIdle(m: MsgBuffer, address: u32, data: seq<u8>, n: nat, dm: int) returns (r: int)
    requires m.Valid() && !m.encode && BusModeOf(m.dev.ctrl) == MsgBuf
    requires 1 <= n && address + n < FLASH_SIZE
    modifies m`dev, m`file, m.mib
    ensures m.Valid() && m.dev.ctrl == old(m.dev).ctrl && m.file == old(m.file)
    ensures SameMemory(old(m.dev).rcu.mem, m.dev.rcu.mem)
    ensures m.mib.Length < 6 ==> r == -EBADFD && m.dev.rcu == old(m.dev).rcu
    ensures m.mib.Length >= 6 ==>
              Written(old(m.dev).rcu, m.dev.rcu, Actel, m.compression, address, data, n, dm, r)
  {
    hide RcuBus.Store, Payload.Item, InTime, MsgBuffer.Valid, BusModeOf, SameMemory;
    SameMemoryIsReflexive(m.dev.rcu.mem);
    var idle;
    r, idle := IsIdle(m);
    if idle {
      r := ActelWriteLoop(m, address, data, n, dm, r);
    }
  }

  /** The whole Actel write: leave the flash mode, write if the flash is idle, and enter the flash mode again. */
  method ActelWrite(m: MsgBuffer, address: u32, data: seq<u8>, n: nat, dm: int) returns (r: int)
    requires m.Valid() && !m.encode && BusModeOf(m.dev.ctrl) == Flash
    requires 1 <= n && address + n < FLASH_SIZE
    modifies m`dev, m`file, m`flashAccess, m`compression, m.mib
    ensures m.Valid() && BusModeOf(m.dev.ctrl) == Flash && m.file == old(m.file)
    ensures m.flashAccess == old(m.flashAccess) && m.compression == old(m.compression)
    ensures SameMemory(old(m.dev).rcu.mem, m.dev.rcu.mem)
    ensures m.mib.Length < 6 ==> r == -EBADFD && m.dev.rcu == old(m.dev).rcu
    ensures m.mib.Length >= 6 ==>
              Written(old(m.dev).rcu, m.dev.rcu, Actel, m.compression, address, data, n, dm, r)
  {
    hide Written, MsgBuffer.Valid, BusModeOf, SameMemory;
    r := FlashModeOff(m);
    if r >= 0 {
      r := WriteIfIdle(m, address, data, n, dm);
      var e := FlashModeOn(m);
      if e < 0 {
        r := -EIO;
      }
    }
  }

  /** Write to the flash memory by the access path in use. */
  method RcuFlashWrite(m: MsgBuffer, address: u32, data: seq<u8>, n: int, dm: int) returns (r: int)
    requires m.Valid() && !m.encode
    requires n > 0 ==> address + n < 0x1_0000_0000 && n < 0x8000_0000
    requires n > 0 && KnownMode(dm) ==> BytesNeeded(dm, n) <= |data|
    modifies m`dev, m`file, m`flashAccess, m`compression, m.mib
    ensures m.Valid() && BusModeOf(m.dev.ctrl) == BusModeOf(old(m.dev).ctrl) && m.file == old(m.file)
    ensures m.flashAccess == old(m.flashAccess) && m.compression == old(m.compression)
    ensures SameMemory(old(m.dev).rcu.mem, m.dev.rcu.mem)
    ensures WriteCall(old(m.dev), m.dev, m.mib.Length, m.flashAccess, m.compression, address, data, n, dm, r)
  {
    hide RcuBus.Store, Payload.SentItem, Payload.Item, InTime, Payload.BytesNeeded;
    if n <= 0 {
      return -EINVAL;
    }
    var inFlash := m.CheckState(Flash);
    if !inFlash {
      return -EACCES;
    }
    if address + n >= FLASH_SIZE {
      return 0;
    }
    if m.flashAccess.Dcsc? {
      assert m.EffectiveMode(MODE_FLASH) == MODE_FLASH;
      if Supported(dm, m.compression) {
        WriteItemsStores(m.dev.rcu, MODE_FLASH, address, SentItems(data, dm, m.compression, n));
      }
      r := m.RcuMultipleWriteExt(address, data, n, dm, MODE_FLASH);
    } else {
      r := ActelWrite(m, address, data, n, dm);
    }
  }

  /** What a flash write returns, and what it makes of the device, for every request and in every state. */
  ghost predicate WriteCall(before: Device, after: Device, mibSize: nat, access: FlashAccess, compression: bool,
                            address: u32, data: seq<u8>, n: int, dm: int, r: int)
  {
    if n <= 0 then r == -EINVAL && after == before
    else if BusModeOf(before.ctrl) != Flash then r == -EACCES && after == before
    else if address + n >= FLASH_SIZE then r == 0 && after == before
    else if mibSize < 6 then r == -EBADFD && after.rcu == before.rcu
    else Written(before.rcu, after.rcu, access, compression, address, data, n, dm, r)
  }

  /** What a flash write in range, called in flash mode, makes of the RCU. */
  ghost predicate Written(before: Rcu, after: Rcu, access: FlashAccess, compression: bool,
                          address: u32, data: seq<u8>, n: nat, dm: int, r: int)
  {
    if access.Dcsc? then
      if Supported(dm, compression) then
        r == 0 && after == before.(flash := Store(before.flash, address, SentItems(data, dm, compression, n)))
      else
        r < 0 && after == before
    else if before.busy > 0 then
      r == 1 && after.flash == before.flash
    else if !WordMode(dm) then
      r == -EINVAL && after.flash == before.flash
    else
      && r == (if InTime(before.delays, n) then 1 else -ETIMEDOUT)
      && after.flash == Store(before.flash, address, Items(data, dm, n)[..Cycles(before.delays, n)])
      && (r == 1 ==> after.busy == 0 && after.delays == Drop(before.delays, n))
  }

  /**
   The two paths agree: for 8, 16 and 32-bit data, and a flash that is idle and completes every
   write in time, the flash holds the same afterwards, whichever path and compression setting is used.
   */
  lemma FlashPathsAgree(before: Rcu, after: Rcu, access: FlashAccess, compression: bool,
                        address: u32, data: seq<u8>, n: nat, dm: int, r: int)
    requires Written(before, after, access, compression, address, data, n, dm, r)
    requires WordMode(dm) && before.busy == 0 && InTime(before.delays, n)
    ensures r >= 0 && after.flash == Store(before.flash, address, Items(data, dm, n))
  {
    CyclesAllInTime(before.delays, n);
    assert SentItems(data, dm, compression, n) == Items(data, dm, n);
    assert Items(data, dm, n)[..n] == Items(data, dm, n);
  }

  /**
   The requests that are dropped and reported as a success: those that reach beyond the last word but one, and on
   the Actel path those that find the flash busy.
   */
  predicate Dropped(before: Device, mibSize: nat, access: FlashAccess, address: u32, n: int) {
    && n > 0 && BusModeOf(before.ctrl) == Flash
    && (address + n >= FLASH_SIZE || (mibSize >= 6 && access == Actel && before.rcu.busy > 0))
  }

  /** What the flash is to hold after a write. */
  function Goal(before: Rcu, access: FlashAccess, compression: bool, address: u32, data: seq<u8>, n: int, dm: int)
    : map<int, u32>
    requires KnownMode(dm)
  {
    if n <= 0 then before.flash
    else if access == Dcsc then Store(before.flash, address, SentItems(data, dm, compression, n))
    else Store(before.flash, address, Items(data, dm, n))
  }

  /** A success result of a write is right exactly if the request is not dropped, or the flash held the data before. */
  lemma WriteSuccessIsRight(before: Device, after: Device, mibSize: nat, access: FlashAccess, compression: bool,
                            address: u32, data: seq<u8>, n: int, dm: int, r: int)
    requires WriteCall(before, after, mibSize, access, compression, address, data, n, dm, r) && KnownMode(dm)
    ensures var goal := Goal(before.rcu, access, compression, address, data, n, dm);
            (r >= 0 ==> after.rcu.flash == goal) <==>
              !Dropped(before, mibSize, access, address, n) || before.rcu.flash == goal
  {
    hide RcuBus.Store, Payload.Item, Payload.SentItems;
    if n > 0 && WordMode(dm) && InTime(before.rcu.delays, n) {
      CyclesAllInTime(before.rcu.delays, n);
      assert Items(data, dm, n)[..n] == Items(data, dm, n);
    }
  }

  lemma WriteSucceeds(before: Device, after: Device, mibSize: nat, access: FlashAccess, compression: bool,
                      address: u32, data: seq<u8>, n: int, dm: int, r: int)
    requires WriteCall(before, after, mibSize, access, compression, address, data, n, dm, r)
    ensures r >= 0 <==>
              Dropped(before, mibSize, access, address, n) ||
              (&& n > 0 && BusModeOf(before.ctrl) == Flash && address + n < FLASH_SIZE && mibSize >= 6
               && if access == Dcsc then
                    dm == 1 || dm == 2 || dm == 4 || dm == -1 || dm == -2 || dm == -4 || (dm == 3 && compression)
                  else (dm == 1 || dm == 2 || dm == 4) && InTime(before.rcu.delays, n))
    ensures n <= 0 ==> r == -EINVAL
    ensures n > 0 && BusModeOf(before.ctrl) != Flash ==> r == -EACCES
  {
  }

  /** Which requests are dropped, in numbers. */
  lemma DroppedExactly(before: Device, mibSize: nat, access: FlashAccess, address: u32, n: int)
    ensures Dropped(before, mibSize, access, address, n) <==>
              && n > 0 && BusModeOf(before.ctrl) == Flash
              && (address + n >= 0x100_0000 || (mibSize >= 6 && access == Actel && before.rcu.busy > 0))
  {
  }

  /** In time means that no command keeps the flash busy for more than 60 looks at the status. */
  lemma InTimeExactly(delays: seq<nat>, n: nat)
    ensures InTime(delays, n) <==> forall i :: 0 <= i < n && i < |delays| ==> delays[i] <= 60
  {
    if forall i :: 0 <= i < n && i < |delays| ==> delays[i] <= 60 {
      assert forall i :: 0 <= i < n ==> DelayOf(delays, i) <= MAX_WAITSTATES;
    } else {
      var i :| 0 <= i < n && i < |delays| && delays[i] > 60;
      assert DelayOf(delays, i) > MAX_WAITSTATES;
    }
  }

  /** A write that times out has stored the words up to and with the late one, and no further. */
  lemma LateWrite(before: Rcu, after: Rcu, compression: bool, address: u32, data: seq<u8>, n: nat, dm: int, r: int,
                  i: nat)
    requires Written(before, after, Actel, compression, address, data, n, dm, r)
    requires before.busy == 0 && (dm == 1 || dm == 2 || dm == 4)
    requires i < n && i < |before.delays| && before.delays[i] > 60 && forall j :: 0 <= j < i ==> before.delays[j] <= 60
    ensures r == -ETIMEDOUT && after.flash == Store(before.flash, address, Items(data, dm, i + 1))
  {
    InTimeExactly(before.delays, i);
    CyclesStopLate(before.delays, n, i);
    assert Items(data, dm, n)[..i + 1] == Items(data, dm, i + 1);
  }

  /** A read that times out has read the words before the late one. */
  lemma LateRead(before: Rcu, address: u32, n: nat, was: seq<u32>, now: seq<u32>, r: int, i: nat)
    requires n <= |was| && Fetched(before, Actel, address, n, was, now, r) && before.busy == 0
    requires i < n && i < |before.delays| && before.delays[i] > 60 && forall j :: 0 <= j < i ==> before.delays[j] <= 60
    ensures r == -ETIMEDOUT && now == LoadWords(before.flash, address, i) + was[i..]
  {
    InTimeExactly(before.delays, i);
    InTimeExactly(before.delays, n);
    CompleteIs(before.delays, n, i);
  }

  /** The registers of the flash controller, and its two commands. */
  lemma FlashRegisters()
    ensures FLASH_CMD == 0xb000 && FLASH_STATUS == 0xb100 && FLASH_DATA == 0xb103 && FLASH_READRES == 0xb105
    ensures FLASH_WRITECMD == 4 && FLASH_READCMD == 8 && FLASH_STATE_IDLE == 0
  {
  }

  /** No request ever changes the last word of the flash. */
  lemma LastWordIsNeverWritten(before: Device, after: Device, mibSize: nat, access: FlashAccess, compression: bool,
                               address: u32, data: seq<u8>, n: int, dm: int, r: int)
    requires WriteCall(before, after, mibSize, access, compression, address, data, n, dm, r)
    ensures Load(after.rcu.flash, FLASH_SIZE - 1) == Load(before.rcu.flash, FLASH_SIZE - 1)
  {
  }

  /** An empty flash, and a 5 written to its last word: success is reported, and the flash is still empty. */
  lemma WriteOfLastWord(before: Device, after: Device, mibSize: nat, access: FlashAccess, compression: bool, r: int)
    requires BusModeOf(before.ctrl) == Flash && before.rcu.flash == map[]
    requires WriteCall(before, after, mibSize, access, compression, 0xff_ffff, [5, 0], 1, 2, r)
    ensures r == 0 && after.rcu.flash == map[] != Goal(before.rcu, access, compression, 0xff_ffff, [5, 0], 1, 2)
  {
    assert 0xff_ffff in Goal(before.rcu, access, compression, 0xff_ffff, [5, 0], 1, 2);
  }

  /** An empty flash that is busy, and a 5 written to its first word: the same, on the Actel path. */
  lemma WriteToBusyFlash(before: Device, after: Device, compression: bool, r: int)
    requires BusModeOf(before.ctrl) == Flash && before.rcu.flash == map[] && before.rcu.busy == 1
    requires WriteCall(before, after, 6, Actel, compression, 0, [5, 0], 1, 2, r)
    ensures r == 1 && after.rcu.flash == map[] != Goal(before.rcu, Actel, compression, 0, [5, 0], 1, 2)
  {
    assert 0 in Goal(before.rcu, Actel, compression, 0, [5, 0], 1, 2);
  }

  // ---------- reading ----------

  function LoadWords(m: map<int, u32>, a: int, n: nat): (ws: seq<u32>)
    ensures |ws| == n
  {
    seq<u32>(n, i requires 0 <= i < n => Load(m, a + i))
  }

  /** One cycle of the read protocol. */
  method ReadCycle(m: MsgBuffer, aw: u32) returns (r: int, value: u32)
    requires m.Valid() && CanTransact(m.encode, m.mib.Length, m.dev.ctrl) && aw < FLASH_SIZE && m.dev.rcu.busy == 0
    modifies m`dev, m`file, m.mib
    ensures m.Valid() && m.dev.ctrl == old(m.dev).ctrl && m.file == old(m.file)
    ensures m.dev.rcu.flash == old(m.dev).rcu.flash && SameMemory(old(m.dev).rcu.mem, m.dev.rcu.mem)
    ensures m.dev.rcu.delays == AfterCommand(old(m.dev).rcu.delays)
    ensures r == if DelayOf(old(m.dev).rcu.delays, 0) <= MAX_WAITSTATES then 1 else -ETIMEDOUT
    ensures r == 1 ==> value == Load(old(m.dev).rcu.flash, aw) && m.dev.rcu.busy == 0
  {
    value := 0;
    r := SelectAddress(m, aw);
    r := Poke(m, FLASH_CMD, FLASH_READCMD);
    r := WaitIdle(m);
    if r != -ETIMEDOUT {
      r, value := Peek(m, FLASH_READRES);
    }
  }

  /** Where the read loop stands after i cycles, having started with r0 and was, when the last result is r. */
  ghost predicate ReadState(r0: Rcu, now: Rcu, address: u32, n: nat, i: nat, r: int, was: seq<u32>, buf: seq<u32>)
    requires i <= n <= |buf| == |was|
  {
    && SameMemory(r0.mem, now.mem) && now.flash == r0.flash
    && (r == 1 || r == -ETIMEDOUT)
    && (r == 1 ==> now.busy == 0 && InTime(r0.delays, i) && now.delays == Drop(r0.delays, i))
    && (r < 0 ==> i > 0 && InTime(r0.delays, i - 1) && DelayOf(r0.delays, i - 1) > MAX_WAITSTATES)
    && buf == Filled(r0, address, if r < 0 then i - 1 else i, was)
  }

  /** The target after k words of the flash have been read. */
  function Filled(before: Rcu, address: u32, k: nat, was: seq<u32>): (now: seq<u32>)
    requires k <= |was|
    ensures |now| == |was|
  {
    LoadWords(before.flash, address, k) + was[k..]
  }

  lemma FilledOneMore(before: Rcu, address: u32, k: nat, was: seq<u32>)
    requires k < |was|
    ensures Filled(before, address, k, was)[k := Load(before.flash, address + k)]
         == Filled(before, address, k + 1, was)
  {
  }

  /** The body of the read loop. */
  method ReadStep(m: MsgBuffer, address: u32, n: nat, i: nat, buf: array<u32>, ghost r1: Rcu, ghost was: seq<u32>)
    returns (r: int)
    requires m.Valid() && CanTransact(m.encode, m.mib.Length, m.dev.ctrl)
    requires i < n <= buf.Length == |was| && address + n < FLASH_SIZE && buf != m.mib
    requires ReadState(r1, m.dev.rcu, address, n, i, 1, was, buf[..])
    modifies m`dev, m`file, m.mib, buf
    ensures m.Valid() && m.dev.ctrl == old(m.dev).ctrl && m.file == old(m.file)
    ensures ReadState(r1, m.dev.rcu, address, n, i + 1, r, was, buf[..])
  {
    hide CanTransact, MsgBuffer.Valid, Filled;
    FilledOneMore(r1, address, i, was);
    var value;
    r, value := ReadCycle(m, address + i);
    if r >= 0 {
      buf[i] := value;
    }
  }

  method ActelReadLoop(m: MsgBuffer, address: u32, n: nat, buf: array<u32>, r0: int) returns (r: int)
    requires m.Valid() && CanTransact(m.encode, m.mib.Length, m.dev.ctrl) && m.dev.rcu.busy == 0 && r0 == 1
    requires 1 <= n <= buf.Length && address + n < FLASH_SIZE && buf != m.mib
    modifies m`dev, m`file, m.mib, buf
    ensures m.Valid() && m.dev.ctrl == old(m.dev).ctrl && m.file == old(m.file)
    ensures SameMemory(old(m.dev).rcu.mem, m.dev.rcu.mem) && m.dev.rcu.flash == old(m.dev).rcu.flash
    ensures Fetched(old(m.dev).rcu, Actel, address, n, old(buf[..]), buf[..], r)
  {
    ghost var r1, was := m.dev.rcu, buf[..];
    r := r0;
    var i := 0;
    assert buf[..] == Filled(r1, address, 0, was);
    hide CanTransact, MsgBuffer.Valid, SameMemory, Filled;
    while i < n && r >= 0
      invariant m.Valid() && m.dev.ctrl == old(m.dev).ctrl && m.file == old(m.file)
      invariant 0 <= i <= n && ReadState(r1, m.dev.rcu, address, n, i, r, was, buf[..])
    {
      r := ReadStep(m, address, n, i, buf, r1, was);
      i := i + 1;
    }
    CompleteIs(r1.delays, n, if r < 0 then i - 1 else i);
  }

  lemma CompleteIs(delays: seq<nat>, n: nat, k: nat)
    requires k <= n && InTime(delays, k) && (k < n ==> DelayOf(delays, k) > MAX_WAITSTATES)
    ensures CompleteCycles(delays, n) == k
  {
  }

  /** What a flash read in range, called in flash mode, returns, and what it makes of its target. */
  ghost predicate Fetched(before: Rcu, access: FlashAccess, address: u32, n: nat, was: seq<u32>, now: seq<u32>, r: int)
    requires n <= |was|
  {
    if access.Dcsc? then
      r == n && now == Filled(before, address, n, was)
    else if before.busy > 0 then
      r == 1 && now == was
    else
      && r == (if InTime(before.delays, n) then 1 else -ETIMEDOUT)
      && now == Filled(before, address, CompleteCycles(before.delays, n), was)
  }

  /** What a flash read returns, and what it makes of its target, for every request and in every state. */
  ghost predicate ReadCall(before: Device, after: Device, mibSize: nat, access: FlashAccess, address: u32, n: int,
                           was: seq<u32>, now: seq<u32>, r: int)
    requires n <= |was|
  {
    if n <= 0 then r == -EINVAL && after == before && now == was
    else if BusModeOf(before.ctrl) != Flash then r == -EACCES && after == before && now == was
    else if address + n >= FLASH_SIZE then r == 0 && after == before && now == was
    else if mibSize < 6 then r == -EBADFD && after.rcu == before.rcu && now == was
    else Fetched(before.rcu, access, address, n, was, now, r)
  }

  /** Read from the flash memory by the access path in use. */
  method RcuFlashRead(m: MsgBuffer, address: u32, n: int, buf: array<u32>) returns (r: int)
    requires m.Valid() && !m.encode && buf != m.mib
    requires n > 0 ==> address + n < 0x1_0000_0000 && n < 0x8000_0000 && n <= buf.Length
    modifies m`dev, m`file, m`flashAccess, m`compression, m.mib, buf
    ensures m.Valid() && BusModeOf(m.dev.ctrl) == BusModeOf(old(m.dev).ctrl) && m.file == old(m.file)
    ensures m.flashAccess == old(m.flashAccess) && m.compression == old(m.compression)
    ensures SameMemory(old(m.dev).rcu.mem, m.dev.rcu.mem) && m.dev.rcu.flash == old(m.dev).rcu.flash
    ensures ReadCall(old(m.dev), m.dev, m.mib.Length, m.flashAccess, address, n, old(buf[..]), buf[..], r)
  {
    hide InTime, CompleteCycles;
    if n <= 0 {
      return -EINVAL;
    }
    var inFlash := m.CheckState(Flash);
    if !inFlash {
      return -EACCES;
    }
    if address + n >= FLASH_SIZE {
      return 0;
    }
    if m.flashAccess.Dcsc? {
      r := ReadDirectly(m, address, n, buf);
    } else {
      r := ActelRead(m, address, n, buf);
    }
  }

  method ReadIfIdle(m: MsgBuffer, address: u32, n: nat, buf: array<u32>) returns (r: int)
    requires m.Valid() && !m.encode && buf != m.mib && BusModeOf(m.dev.ctrl) == MsgBuf
    requires 1 <= n <= buf.Length && address + n < FLASH_SIZE
    modifies m`dev, m`file, m.mib, buf
    ensures m.Valid() && m.dev.ctrl == old(m.dev).ctrl && m.file == old(m.file)
    ensures SameMemory(old(m.dev).rcu.mem, m.dev.rcu.mem) && m.dev.rcu.flash == old(m.dev).rcu.flash
    ensures m.mib.Length < 6 ==> r == -EBADFD && m.dev.rcu == old(m.dev).rcu && buf[..] == old(buf[..])
    ensures m.mib.Length >= 6 ==> Fetched(old(m.dev).rcu, Actel, address, n, old(buf[..]), buf[..], r)
  {
    hide InTime, CompleteCycles, Filled, MsgBuffer.Valid, BusModeOf, SameMemory;
    SameMemoryIsReflexive(m.dev.rcu.mem);
    var idle;
    r, idle := IsIdle(m);
    if idle {
      r := ActelReadLoop(m, address, n, buf, r);
    }
  }

  /** The whole Actel read, with the flash mode left and entered again. */
  method ActelRead(m: MsgBuffer, address: u32, n: nat, buf: array<u32>) returns (r: int)
    requires m.Valid() && !m.encode && buf != m.mib && BusModeOf(m.dev.ctrl) == Flash
    requires 1 <= n <= buf.Length && address + n < FLASH_SIZE
    modifies m`dev, m`file, m`flashAccess, m`compression, m.mib, buf
    ensures m.Valid() && BusModeOf(m.dev.ctrl) == Flash && m.file == old(m.file)
    ensures m.flashAccess == old(m.flashAccess) && m.compression == old(m.compression)
    ensures SameMemory(old(m.dev).rcu.mem, m.dev.rcu.mem) && m.dev.rcu.flash == old(m.dev).rcu.flash
    ensures m.mib.Length < 6 ==> r == -EBADFD && m.dev.rcu == old(m.dev).rcu && buf[..] == old(buf[..])
    ensures m.mib.Length >= 6 ==> Fetched(old(m.dev).rcu, Actel, address, n, old(buf[..]), buf[..], r)
  {
    hide Fetched, MsgBuffer.Valid, BusModeOf, SameMemory;
    r := FlashModeOff(m);
    if r >= 0 {
      r := ReadIfIdle(m, address, n, buf);
      var e := FlashModeOn(m);
      if e < 0 {
        r := -EIO;
      }
    }
  }

  /** A success result of a read is right exactly if the request is not dropped, or the target held the words before. */
  lemma ReadSuccessIsRight(before: Device, after: Device, mibSize: nat, access: FlashAccess, address: u32, n: int,
                           was: seq<u32>, now: seq<u32>, r: int)
    requires n <= |was| && ReadCall(before, after, mibSize, access, address, n, was, now, r)
    ensures n > 0 ==>
              var words := LoadWords(before.rcu.flash, address, n);
              |now| == |was| &&
              ((r >= 0 ==> now[..n] == words) <==>
                 !Dropped(before, mibSize, access, address, n) || was[..n] == words)
    ensures r >= 0 <==>
              Dropped(before, mibSize, access, address, n) ||
              (&& n > 0 && BusModeOf(before.ctrl) == Flash && address + n < FLASH_SIZE && mibSize >= 6
               && (access == Dcsc || InTime(before.rcu.delays, n)))
  {
    if n > 0 {
      CompleteWhenInTime(before.rcu.delays, n);
    }
  }

  lemma CompleteWhenInTime(delays: seq<nat>, n: nat)
    ensures CompleteCycles(delays, n) == n <==> InTime(delays, n)
  {
    var k := CompleteCycles(delays, n);
    assert k < n ==> !(DelayOf(delays, k) <= MAX_WAITSTATES);
  }

  /** The documented number of words is returned in range, on the board path, and on the other one for single words. */
  lemma ReadIsCounted(before: Device, after: Device, mibSize: nat, access: FlashAccess, address: u32, n: int,
                      was: seq<u32>, now: seq<u32>, r: int)
    requires 0 < n <= |was| && ReadCall(before, after, mibSize, access, address, n, was, now, r)
    ensures r == n <==>
              && BusModeOf(before.ctrl) == Flash && address + n < FLASH_SIZE && mibSize >= 6
              && (access == Dcsc || (n == 1 && (before.rcu.busy > 0 || InTime(before.rcu.delays, 1))))
  {
  }

  /** Without a count there is nothing to read, and outside of the flash mode reading is not allowed. */
  lemma ReadIsRefused(before: Device, after: Device, mibSize: nat, access: FlashAccess, address: u32, n: int,
                      was: seq<u32>, now: seq<u32>, r: int)
    requires n <= |was| && ReadCall(before, after, mibSize, access, address, n, was, now, r)
    ensures n <= 0 || BusModeOf(before.ctrl) != Flash ==>
              r == (if n <= 0 then -EINVAL else -EACCES) && after == before && now == was
  {
  }

  /** A flash that holds a 5 in its last word: the read of that word reports a success, and the target is as it was. */
  lemma ReadOfLastWord(before: Device, after: Device, mibSize: nat, access: FlashAccess, now: seq<u32>, r: int)
    requires BusModeOf(before.ctrl) == Flash && before.rcu.flash == map[0xff_ffff := 5]
    requires ReadCall(before, after, mibSize, access, 0xff_ffff, 1, [7], now, r)
    ensures r == 0 && now == [7] && LoadWords(before.rcu.flash, 0xff_ffff, 1) == [5]
  {
  }

  /** A flash that is busy and holds a 5: the read of one word reports one word, and the target is as it was. */
  lemma ReadOfBusyFlash(before: Device, after: Device, now: seq<u32>, r: int)
    requires BusModeOf(before.ctrl) == Flash && before.rcu.busy == 1 && before.rcu.flash == map[0 := 5]
    requires ReadCall(before, after, 6, Actel, 0, 1, [7], now, r)
    ensures r == 1 && now == [7] && LoadWords(before.rcu.flash, 0, 1) == [5]
  {
  }

  method ReadDirectly(m: MsgBuffer, address: u32, n: nat, buf: array<u32>) returns (r: int)
    requires m.Valid() && !m.encode && buf != m.mib
    requires 1 <= n < 0x8000_0000 && address + n < 0x1_0000_0000 && n <= buf.Length
    requires BusModeOf(m.dev.ctrl) == Flash && m.header == V2_2
    modifies m`dev, m`file, m.mib, buf
    ensures m.Valid() && m.dev.ctrl == old(m.dev).ctrl && m.file == old(m.file) && m.dev.rcu == old(m.dev).rcu
    ensures m.mib.Length < 6 ==> r == -EBADFD && buf[..] == old(buf[..])
    ensures m.mib.Length >= 6 ==> r == n && buf[..] == Filled(old(m.dev).rcu, address, n, old(buf[..]))
  {
    assert m.EffectiveMode(MODE_FLASH) == MODE_FLASH;
    ReadItemsLoads(m.dev.rcu, MODE_FLASH, address, n);
    assert ReadItems(m.dev.rcu, MODE_FLASH, address, n).values == LoadWords(m.dev.rcu.flash, address, n);
    r := m.RcuMultipleReadExt(address, n, buf, MODE_FLASH);
  }

  /** What has been written to the flash is read back, on either path, if no command exceeds its wait loop. */
  method FlashRoundTrip(m: MsgBuffer, address: u32, data: seq<u8>, n: nat, dm: int, buf: array<u32>) returns (r: int)
    requires m.Valid() && !m.encode && m.mib.Length >= 6 && buf != m.mib
    requires BusModeOf(m.dev.ctrl) == Flash && m.dev.rcu.busy == 0 && InTime(m.dev.rcu.delays, 2 * n)
    requires 1 <= n <= buf.Length && address + n < FLASH_SIZE
    requires WordMode(dm) && BytesNeeded(dm, n) <= |data|
    modifies m`dev, m`file, m`flashAccess, m`compression, m.mib, buf
    ensures m.Valid() && BusModeOf(m.dev.ctrl) == Flash
    ensures r > 0 && buf[..n] == Items(data, dm, n)
  {
    ghost var r0 := m.dev.rcu;
    r := RcuFlashWrite(m, address, data, n, dm);
    assert forall i :: 0 <= i < n ==> DelayOf(Drop(r0.delays, n), i) == DelayOf(r0.delays, n + i);
    assert InTime(r0.delays, n) && InTime(Drop(r0.delays, n), n);
    FlashPathsAgree(r0, m.dev.rcu, m.flashAccess, m.compression, address, data, n, dm, r);
    StoredIsLoaded(r0.flash, address, Items(data, dm, n));
    CompleteWhenInTime(Drop(r0.delays, n), n);
    r := RcuFlashRead(m, address, n, buf);
  }

  lemma StoredIsLoaded(m: map<int, u32>, a: int, ws: seq<u32>)
    ensures LoadWords(Store(m, a, ws), a, |ws|) == ws
  {
    forall i | 0 <= i < |ws|
      ensures Load(Store(m, a, ws), a + i) == ws[i]
    {
      assert ItemFor(ws, a, a + i) == ws[i];
    }
  }
}
