/**
 The data modes one by one, from the caller's numbers in memory to the words that are read back: bytes, halfwords,
 words and packed 10-bit numbers, and what the negative modes do to them.
 */
module DataModes {
  import opened Errno
  import opened Words
  import opened MsgHeader
  import opened Payload
  import opened RcuBus
  import opened Firmware
  import opened MessageBuffer
  import opened Transparency
  import opened FlashProtocol

  // ---------- numbers in memory ----------

  /** Three 10-bit numbers in a word, the first one in its lowest bits. */
  function Packed(ws: seq<u32>, j: nat): u32 {
    (if 3 * j < |ws| then ws[3 * j] % 0x400 else 0)
    + 0x400 * (if 3 * j + 1 < |ws| then ws[3 * j + 1] % 0x400 else 0)
    + 0x10_0000 * (if 3 * j + 2 < |ws| then ws[3 * j + 2] % 0x400 else 0)
  }

  function PackedWords(ws: seq<u32>): seq<u32> {
    seq((|ws| + 2) / 3, j requires 0 <= j => Packed(ws, j))
  }

  function Halfwords(ws: seq<u32>): (data: seq<u8>)
    ensures |data| == 2 * |ws|
  {
    seq(2 * |ws|, k requires 0 <= k < 2 * |ws| => ByteOf(ws[k / 2], k % 2))
  }

  /** How the caller's numbers lie in memory: in 1, 2 or 4 bytes, or three to a word. */
  function Memory(dm: int, ws: seq<u32>): seq<u8> {
    if dm == 1 || dm == -1 then seq(|ws|, i requires 0 <= i < |ws| => ws[i] % 0x100)
    else if dm == 2 || dm == -2 then Halfwords(ws)
    else if dm == 3 then BytesOfWords(PackedWords(ws))
    else BytesOfWords(ws)
  }

  /** The numbers that have room there. */
  predicate HasRoom(dm: int, w: u32) {
    if dm == 1 || dm == -1 then w < 0x100
    else if dm == 2 || dm == -2 then w < 0x1_0000
    else if dm == 3 then w < 0x400
    else true
  }

  /** The modes that are sent, and the one that needs compression. */
  predicate IsSent(dm: int, compression: bool) {
    dm == 1 || dm == 2 || dm == 4 || dm == -1 || dm == -2 || dm == -4 || (dm == 3 && compression)
  }

  /** What arrives of number i of n: itself, or with its bytes in the opposite order. */
  function Arrives(dm: int, compression: bool, n: nat, i: nat, w: u32): u32 {
    if dm == -4 then
      w % 0x100 * 0x100_0000 + w / 0x100 % 0x100 * 0x1_0000 + w / 0x1_0000 % 0x100 * 0x100 + w / 0x100_0000
    else if dm == -2 && !(compression && n % 2 == 1 && i == n - 1) then w % 0x100 * 0x100 + w / 0x100 % 0x100
    else w
  }

  lemma HalfwordAt(ws: seq<u32>, i: nat)
    requires i < |ws|
    ensures ByteAt(Halfwords(ws), 2 * i) == ws[i] % 0x100 && ByteAt(Halfwords(ws), 2 * i + 1) == ws[i] / 0x100 % 0x100
  {
  }

  lemma PackedAt(ws: seq<u32>, i: nat)
    requires i < |ws| && ws[i] < 0x400
    ensures i / 3 < |PackedWords(ws)| && TenBits(PackedWords(ws)[i / 3], i % 3) == ws[i]
  {
    var j := i / 3;
    assert i == 3 * j + i % 3;
    ThreeTens(if 3 * j < |ws| then ws[3 * j] % 0x400 else 0, if 3 * j + 1 < |ws| then ws[3 * j + 1] % 0x400 else 0,
              if 3 * j + 2 < |ws| then ws[3 * j + 2] % 0x400 else 0);
  }

  lemma ThreeTens(a: nat, b: nat, c: nat)
    requires a < 0x400 && b < 0x400 && c < 0x400
    ensures var w := a + 0x400 * b + 0x10_0000 * c;
            w % 0x400 == a && w / 0x400 % 0x400 == b && w / 0x10_0000 % 0x400 == c
  {
    var w := a + 0x400 * b + 0x10_0000 * c;
    assert w / 0x400 == b + 0x400 * c;
    assert w / 0x10_0000 == c;
  }

  lemma ItemInMemory(dm: int, compression: bool, ws: seq<u32>, i: nat)
    requires IsSent(dm, compression) && i < |ws| && HasRoom(dm, ws[i])
    ensures KnownMode(dm)
    ensures SentItem(Memory(dm, ws), dm, compression, |ws|, i) == Arrives(dm, compression, |ws|, i, ws[i])
  {
    hide Words.WordAt, Words.Reversed, BytesOfWords, Halfwords, PackedWords, TenBits;
    if dm == 1 || dm == -1 {
    } else if dm == 2 || dm == -2 {
      HalfwordItem(dm, ws, i);
    } else if dm == 3 {
      PackedAt(ws, i);
      WordOfBytesOfWords(PackedWords(ws), i / 3);
    } else {
      WordOfBytesOfWords(ws, i);
      ReversedIs(ws[i]);
    }
  }

  lemma HalfwordItem(dm: int, ws: seq<u32>, i: nat)
    requires i < |ws| && ws[i] < 0x1_0000
    ensures Item(Halfwords(ws), 2, i) == ws[i]
    ensures Item(Halfwords(ws), -2, i) == ws[i] % 0x100 * 0x100 + ws[i] / 0x100 % 0x100
  {
    HalfwordAt(ws, i);
  }

  lemma ReversedIs(w: u32)
    ensures Reversed(w) == w % 0x100 * 0x100_0000 + w / 0x100 % 0x100 * 0x1_0000 + w / 0x1_0000 % 0x100 * 0x100
                           + w / 0x100_0000
  {
  }

  lemma EnoughMemory(dm: int, compression: bool, ws: seq<u32>)
    requires IsSent(dm, compression)
    ensures Supported(dm, compression) && BytesNeeded(dm, |ws|) <= |Memory(dm, ws)|
  {
  }

  // ---------- calls ----------

  /** In message buffer mode, numbers of every kind are sent and read back. */
  method SendAndRead(m: MsgBuffer, address: nat, ws: seq<u32>, dm: int, buf: array<u32>) returns (r: int)
    requires m.Valid() && !m.encode && m.mib.Length >= 6 && buf != m.mib && buf.Length >= |ws|
    requires BusModeOf(m.dev.ctrl) == MsgBuf && IsSent(dm, m.compression)
    requires 1 <= |ws| < 0x8000_0000 && address + |ws| <= 0x1_0000_0000
    requires !(address <= 0xb000 < address + |ws|) && !(address <= 0xb100 < address + |ws|)
    requires forall i :: 0 <= i < |ws| ==> HasRoom(dm, ws[i])
    modifies m`dev, m`file, m.mib, buf
    ensures r == |ws| && forall i :: 0 <= i < |ws| ==> buf[i] == Arrives(dm, m.compression, |ws|, i, ws[i])
  {
    var data := Memory(dm, ws);
    EnoughMemory(dm, m.compression, ws);
    assert m.EffectiveMode(MODE_MEMMAPPED) == MODE_MEMMAPPED;
    hide Memory, Payload.SentItem, Payload.BytesNeeded, Payload.Supported;
    r := WriteAndReadBack(m, address, data, |ws|, dm, MODE_MEMMAPPED, buf);
    forall i | 0 <= i < |ws|
      ensures buf[i] == Arrives(dm, m.compression, |ws|, i, ws[i])
    {
      ItemInMemory(dm, m.compression, ws, i);
      assert buf[i] == buf[..|ws|][i];
    }
  }

  /** Words in mode -4 arrive with their bytes reversed, with and without compression. */
  method SendReversed(m: MsgBuffer, address: nat, ws: seq<u32>, buf: array<u32>) returns (r: int)
    requires m.Valid() && !m.encode && m.mib.Length >= 6 && buf != m.mib && buf.Length >= |ws|
    requires BusModeOf(m.dev.ctrl) == MsgBuf && 1 <= |ws| < 0x8000_0000 && address + |ws| <= 0x1_0000_0000
    requires !(address <= 0xb000 < address + |ws|) && !(address <= 0xb100 < address + |ws|)
    modifies m`dev, m`file, m.mib, buf
    ensures r == |ws| && forall i :: 0 <= i < |ws| ==> buf[i] == Reversed(ws[i])
  {
    r := SendAndRead(m, address, ws, -4, buf);
  }

  /** Which modes are refused, and with which error: with data for 32-bit words there are enough for all modes. */
  method ModesOneByOne(m: MsgBuffer, address: nat, data: seq<u8>, n: nat, dm: int) returns (r: int)
    requires m.Valid() && !m.encode && m.mib.Length >= 6 && BusModeOf(m.dev.ctrl) == MsgBuf
    requires 1 <= n < 0x8000_0000 && address + n <= 0x1_0000_0000 && |data| >= 4 * n
    modifies m`dev, m`file, m.mib
    ensures r == 0 <==> IsSent(dm, m.compression)
    ensures r != 0 ==> m.dev == old(m.dev)
    ensures r == -ENOSYS <==> (dm == 3 || dm == -3) && !m.compression
    ensures r == -EINVAL <==> dm < -4 || dm == 0 || dm > 4 || (dm == -3 && m.compression)
  {
    assert KnownMode(dm) ==> BytesNeeded(dm, n) <= 4 * n;
    assert m.EffectiveMode(MODE_MEMMAPPED) == MODE_MEMMAPPED;
    hide Payload.SentItems, RcuBus.WriteItems;
    r := m.RcuMultipleWriteExt(address, data, n, dm, MODE_MEMMAPPED);
  }

  /** The frames of memory transfers run in message buffer mode only, those of flash transfers in flash mode only. */
  method ModesOfTheBus(m: MsgBuffer, address: nat, ws: seq<u32>, flash: bool) returns (r: int)
    requires m.Valid() && !m.encode && m.mib.Length >= 6 && m.header == V2_2
    requires 1 <= |ws| < 0x8000_0000 && address + |ws| <= 0x1_0000_0000
    modifies m`dev, m`file, m.mib
    ensures r == 0 <==> BusModeOf(old(m.dev).ctrl) == if flash then Flash else MsgBuf
    ensures r != 0 ==> r == -EBADFD && m.dev == old(m.dev)
    ensures r == 0 && flash ==> m.dev.rcu == old(m.dev).rcu.(flash := Store(old(m.dev).rcu.flash, address, ws))
  {
    hide Payload.SentItems, RcuBus.WriteItems, Payload.BytesNeeded;
    var mode := if flash then 1 else 0;
    EnoughMemory(4, m.compression, ws);
    WordsAreSentAsTheyAre(ws, m.compression);
    WriteItemsStores(m.dev.rcu, MODE_FLASH, address, ws);
    assert m.EffectiveMode(mode) == mode;
    r := m.RcuMultipleWriteExt(address, BytesOfWords(ws), |ws|, 4, mode);
  }

  /** In flash mode, on either path: bytes, halfwords and words are stored in the flash and read back. */
  method SendToFlash(m: MsgBuffer, address: u32, ws: seq<u32>, dm: int, buf: array<u32>) returns (r: int)
    requires m.Valid() && !m.encode && m.mib.Length >= 6 && buf != m.mib && buf.Length >= |ws|
    requires BusModeOf(m.dev.ctrl) == Flash && (dm == 1 || dm == 2 || dm == 4)
    requires m.dev.rcu.busy == 0 && forall i :: 0 <= i < |m.dev.rcu.delays| ==> m.dev.rcu.delays[i] <= 60
    requires 1 <= |ws| && address + |ws| < 0x100_0000 && forall i :: 0 <= i < |ws| ==> HasRoom(dm, ws[i])
    modifies m`dev, m`file, m`flashAccess, m`compression, m.mib, buf
    ensures r > 0 && buf[..|ws|] == ws && BusModeOf(m.dev.ctrl) == Flash
  {
    var data := Memory(dm, ws);
    EnoughMemory(dm, true, ws);
    InTimeExactly(m.dev.rcu.delays, 2 * |ws|);
    hide Memory, Payload.Item, Payload.BytesNeeded, Payload.Supported, FlashProtocol.InTime;
    r := FlashRoundTrip(m, address, data, |ws|, dm, buf);
    forall i | 0 <= i < |ws|
      ensures buf[..|ws|][i] == ws[i]
    {
      ItemInMemory(dm, false, ws, i);
    }
    assert buf[..|ws|] == ws;
  }
}
