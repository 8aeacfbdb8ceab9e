/**
 What the data formats promise: packing several items into one payload word changes nothing
 about what is written, the swap modes exchange bytes, and what has been written is read back.
 */
module Transparency {
  import opened Words
  import opened MsgHeader
  import opened Payload
  import opened RcuBus
  import opened MessageBuffer

  /** Compression does not change what arrives, except in mode -2 with an odd number of items. */
  lemma CompressionIsTransparent(data: seq<u8>, dm: int, n: nat)
    requires Supported(dm, true) && Supported(dm, false)
    requires dm == -2 ==> n % 2 == 0
    ensures SentItems(data, dm, true, n) == SentItems(data, dm, false, n) == Items(data, dm, n)
  {
    assert SentItems(data, dm, true, n) == Items(data, dm, n);
    assert SentItems(data, dm, false, n) == Items(data, dm, n);
  }

  /** Two interfaces to equal devices, one of them with compression, leave the devices equal. */
  method WriteBothWays(m1: MsgBuffer, m2: MsgBuffer, address: nat, data: seq<u8>, n: nat, dm: int, mode: nat)
    returns (r1: int, r2: int)
    requires m1.Valid() && !m1.encode && m1.mib.Length >= 6 && m1.compression
    requires m2.Valid() && !m2.encode && m2.mib.Length >= 6 && !m2.compression && m1 != m2 && m1.mib != m2.mib
    requires m1.EffectiveMode(mode) == m2.EffectiveMode(mode) && m1.dev.rcu == m2.dev.rcu
    requires m1.Admits(m1.EffectiveMode(mode)) && m2.Admits(m2.EffectiveMode(mode))
    requires 1 <= n < 0x8000_0000 && address + n <= 0x1_0000_0000
    requires Supported(dm, true) && Supported(dm, false) && (dm == -2 ==> n % 2 == 0) && BytesNeeded(dm, n) <= |data|
    modifies m1`dev, m1`file, m1.mib, m2`dev, m2`file, m2.mib
    ensures r1 == r2 == 0 && m1.dev.rcu == m2.dev.rcu
  {
    CompressionIsTransparent(data, dm, n);
    hide Payload.SentItems, Payload.BytesNeeded, RcuBus.WriteItems, Payload.Supported;
    r1 := m1.RcuMultipleWriteExt(address, data, n, dm, mode);
    r2 := m2.RcuMultipleWriteExt(address, data, n, dm, mode);
  }

  /** For swapped 16-bit items an even count is also necessary. */
  lemma SwappedHalfwordsNeedEvenCount(n: nat)
    ensures n % 2 == 0 <==>
              forall data: seq<u8> :: |data| == BytesNeeded(-2, n) ==>
                SentItems(data, -2, true, n) == SentItems(data, -2, false, n)
  {
    if n % 2 == 0 {
      forall data: seq<u8> | |data| == BytesNeeded(-2, n)
        ensures SentItems(data, -2, true, n) == SentItems(data, -2, false, n)
      {
        CompressionIsTransparent(data, -2, n);
      }
    } else {
      var data: seq<u8> := seq(2 * n, i => if i == 2 * n - 2 then 1 else 0);
      assert |data| == BytesNeeded(-2, n);
      assert SentItems(data, -2, true, n)[n - 1] == Item(data, 2, n - 1) == 1;
      assert SentItems(data, -2, false, n)[n - 1] == Item(data, -2, n - 1) == 0x100;
    }
  }

  /** The one item 0x0001: compressed, it arrives unswapped. */
  lemma LoneHalfwordIsNotSwapped()
    ensures SentItems([1, 0], -2, true, 1) == [0x0001]
    ensures SentItems([1, 0], -2, false, 1) == [0x0100]
  {
  }

  /** Mode -1 is mode 1: a byte has nothing to swap. */
  lemma SwapOfBytesHasNoEffect(data: seq<u8>, n: nat, compression: bool)
    ensures SentItems(data, -1, compression, n) == SentItems(data, 1, compression, n)
  {
  }

  /** Mode -4 is mode 4 for words whose bytes are reversed. */
  lemma SwapOfWordsReverses(data: seq<u8>, n: nat, compression: bool)
    ensures forall i :: 0 <= i < n ==>
              SentItems(data, -4, compression, n)[i] == Reversed(SentItems(data, 4, compression, n)[i])
  {
  }

  function BytesOfWords(ws: seq<u32>): (data: seq<u8>)
    ensures |data| == 4 * |ws|
  {
    if ws == [] then []
    else [ByteOf(ws[0], 0), ByteOf(ws[0], 1), ByteOf(ws[0], 2), ByteOf(ws[0], 3)] + BytesOfWords(ws[1..])
  }

  lemma {:induction false} WordOfBytesOfWords(ws: seq<u32>, i: nat)
    requires i < |ws|
    ensures WordAt(BytesOfWords(ws), 4 * i) == ws[i]
  {
    if i == 0 {
      WordOfItsBytes(ws[0]);
    } else {
      WordOfBytesOfWords(ws[1..], i - 1);
      var head, tail := BytesOfWords(ws)[..4], BytesOfWords(ws[1..]);
      assert BytesOfWords(ws) == head + tail;
      assert forall k :: 4 <= k < 4 * |ws| ==> (head + tail)[k] == tail[k - 4];
    }
  }

  lemma WordOfItsBytes(w: u32)
    ensures LittleEndian(ByteOf(w, 0), ByteOf(w, 1), ByteOf(w, 2), ByteOf(w, 3)) == w
  {
    assert w / 0x1_0000 == 0x100 * (w / 0x100_0000) + w / 0x1_0000 % 0x100;
    assert w / 0x100 == 0x100 * (w / 0x1_0000) + w / 0x100 % 0x100;
  }

  lemma WholeWordItem(data: seq<u8>, compression: bool, n: nat, i: nat)
    ensures SentItem(data, 4, compression, n, i) == WordAt(data, 4 * i)
  {
  }

  lemma WordsAreSentAsTheyAre(ws: seq<u32>, compression: bool)
    ensures SentItems(BytesOfWords(ws), 4, compression, |ws|) == ws
  {
    hide BytesOfWords, Words.WordAt, Payload.SentItem;
    var data := BytesOfWords(ws);
    forall i | 0 <= i < |ws|
      ensures SentItem(data, 4, compression, |ws|, i) == ws[i]
    {
      WholeWordItem(data, compression, |ws|, i);
      WordOfBytesOfWords(ws, i);
    }
  }

  /**
   A multiple write followed by a multiple read of the same locations, although the two split
   into blocks of different sizes: all items come back, and no other location has changed.
   */
  method WriteAndReadBack(m: MsgBuffer, address: nat, data: seq<u8>, n: nat, dm: int, mode: nat, buf: array<u32>)
    returns (r: int)
    requires m.Valid() && !m.encode && m.mib.Length >= 6 && buf != m.mib && buf.Length >= n
    requires 1 <= n < 0x8000_0000 && address + n <= 0x1_0000_0000
    requires Supported(dm, m.compression) && BytesNeeded(dm, n) <= |data|
    requires m.Admits(m.EffectiveMode(mode)) && Plain(m.EffectiveMode(mode), address, n)
    modifies m`dev, m`file, m.mib, buf
    ensures r == n && buf[..n] == SentItems(data, dm, m.compression, n)
    ensures forall i :: !(address <= i < address + n) ==>
              Load(Space(m.dev.rcu, m.EffectiveMode(mode)), i) == Load(Space(old(m.dev).rcu, m.EffectiveMode(mode)), i)
  {
    hide Payload.SentItem, Payload.BytesNeeded, RcuBus.WriteItem, RcuBus.ReadItem;
    WrittenIsReadBack(m.dev.rcu, m.EffectiveMode(mode), address, SentItems(data, dm, m.compression, n));
    r := m.RcuMultipleWriteExt(address, data, n, dm, mode);
    r := m.RcuMultipleReadExt(address, n, buf, mode);
  }

  /** For 32-bit data that means: the buffer holds the words that were written. */
  method WordRoundTrip(m: MsgBuffer, address: nat, ws: seq<u32>, buf: array<u32>) returns (r: int)
    requires m.Valid() && !m.encode && m.mib.Length >= 6 && buf != m.mib && buf.Length >= |ws|
    requires 1 <= |ws| < 0x8000_0000 && address + |ws| <= 0x1_0000_0000
    requires m.Admits(MODE_MEMMAPPED) && Plain(MODE_MEMMAPPED, address, |ws|)
    modifies m`dev, m`file, m.mib, buf
    ensures r == |ws| && buf[..|ws|] == ws
    ensures forall i :: !(address <= i < address + |ws|) ==>
              Load(Space(m.dev.rcu, MODE_MEMMAPPED), i) == Load(Space(old(m.dev).rcu, MODE_MEMMAPPED), i)
  {
    WordsAreSentAsTheyAre(ws, m.compression);
    hide Payload.SentItems;
    assert m.EffectiveMode(MODE_MEMMAPPED) == MODE_MEMMAPPED;
    r := WriteAndReadBack(m, address, BytesOfWords(ws), |ws|, 4, MODE_MEMMAPPED, buf);
  }
}
