/**
 The data formats of a MULTI_WRITE: how the caller's bytes are packed into the payload of a
 frame, and how the firmware takes the items apart again.
 */
module Payload {
  import opened Words

  /** The data modes: the item size in bytes (3 for packed 10-bit items), negative to swap. */
  predicate KnownMode(dm: int) {
    dm == 1 || dm == 2 || dm == 3 || dm == 4 || dm == -1 || dm == -2 || dm == -3 || dm == -4
  }

  function DataSize(dm: int): nat {
    if dm < 0 then -dm else dm
  }

  /** The number of items that share one payload word. */
  function CompFactor(dm: int, compression: bool): (cf: nat)
    requires KnownMode(dm)
    ensures 1 <= cf <= 4
  {
    if !compression then 1
    else match DataSize(dm)
      case 1 => 4
      case 2 => 2
      case 3 => 3
      case _ => 1
  }

  /** The modes that reach the device; the others are refused. */
  predicate Supported(dm: int, compression: bool) {
    KnownMode(dm) && dm != -3 && (dm == 3 ==> compression)
  }

  /** The k-th of three 10-bit items in a word. */
  function TenBits(w: u32, k: nat): u32
    requires k < 3
  {
    if k == 0 then w % 0x400 else if k == 1 then w / 0x400 % 0x400 else w / 0x10_0000 % 0x400
  }

  /** What the caller means by item i of the data. */
  function Item(data: seq<u8>, dm: int, i: nat): u32
    requires KnownMode(dm)
  {
    if dm == 1 || dm == -1 then ByteAt(data, i)
    else if dm == 2 then ByteAt(data, 2 * i) + 0x100 * ByteAt(data, 2 * i + 1)
    else if dm == -2 then 0x100 * ByteAt(data, 2 * i) + ByteAt(data, 2 * i + 1)
    else if dm == 4 then WordAt(data, 4 * i)
    else if dm == -4 then Reversed(WordAt(data, 4 * i))
    else TenBits(WordAt(data, 4 * (i / 3)), i % 3)
  }

  function Items(data: seq<u8>, dm: int, n: nat): seq<u32>
    requires KnownMode(dm)
  {
    seq(n, i requires 0 <= i < n => Item(data, dm, i))
  }

  /** The number of bytes the caller has to provide for n items. */
  function BytesNeeded(dm: int, n: nat): nat
    requires KnownMode(dm)
  {
    if DataSize(dm) == 3 then 4 * (n / 3) + (if n % 3 == 0 then 0 else n % 3 + 1) else DataSize(dm) * n
  }

  /** swab: the two bytes of each halfword exchanged. */
  function SwapBytes(w: u32): u32 {
    LittleEndian(ByteOf(w, 1), ByteOf(w, 0), ByteOf(w, 3), ByteOf(w, 2))
  }

  function SwapHalves(w: u32): u32 {
    w % 0x1_0000 * 0x1_0000 + w / 0x1_0000
  }

  /** The first m bytes at offset o, the rest of the word being zero. */
  function Remainder(data: seq<u8>, o: nat, m: nat): u32 {
    LittleEndian(if 0 < m then ByteAt(data, o) else 0, if 1 < m then ByteAt(data, o + 1) else 0,
                 if 2 < m then ByteAt(data, o + 2) else 0, if 3 < m then ByteAt(data, o + 3) else 0)
  }

  /** The number of bytes in an incomplete last word with rem items. */
  function RemainderBytes(dm: int, rem: nat): nat {
    if DataSize(dm) == 1 then rem else rem + 1
  }

  /** Items are stored one per word, rather than copied as they are. */
  predicate Unpacked(dm: int, compression: bool) {
    !compression && DataSize(dm) < 4
  }

  /** The swaps which complete words undergo. */
  function Ordered(dm: int, w: u32): u32 {
    if dm == -4 then SwapHalves(SwapBytes(w)) else if dm == -2 then SwapBytes(w) else w
  }

  function PayloadSize(cnt: nat, cf: nat): nat
    requires 1 <= cf
  {
    if cnt % cf == 0 then cnt / cf else cnt / cf + 1
  }

  /** Payload word k of the frame that carries cnt items from item `start` on. */
  function PayloadWord(data: seq<u8>, dm: int, compression: bool, start: nat, cnt: nat, k: nat): u32
    requires KnownMode(dm)
  {
    var cf := CompFactor(dm, compression);
    if Unpacked(dm, compression) then
      Item(data, dm, start + k)
    else if k < cnt / cf then
      Ordered(dm, WordAt(data, 4 * (start / cf + k)))
    else
      Remainder(data, 4 * (start / cf + k), RemainderBytes(dm, cnt % cf))
  }

  function PayloadWords(data: seq<u8>, dm: int, compression: bool, start: nat, cnt: nat): (ws: seq<u32>)
    requires KnownMode(dm)
    ensures |ws| == PayloadSize(cnt, CompFactor(dm, compression))
  {
    var size := PayloadSize(cnt, CompFactor(dm, compression));
    seq(size, k requires 0 <= k < size => PayloadWord(data, dm, compression, start, cnt, k))
  }

  /** How the firmware takes item i out of a payload with cf items to a word. */
  function UnpackItem(cf: nat, words: seq<u32>, i: nat): u32
    requires 1 <= cf <= 4 && i / cf < |words|
  {
    match cf
    case 1 => words[i]
    case 2 => if i % 2 == 0 then words[i / 2] % 0x1_0000 else words[i / 2] / 0x1_0000
    case 3 => TenBits(words[i / 3], i % 3)
    case _ => ByteOf(words[i / 4], i % 4)
  }

  function UnpackItems(cf: nat, words: seq<u32>, cnt: nat): seq<u32>
    requires 1 <= cf <= 4 && PayloadSize(cnt, cf) <= |words|
  {
    seq(cnt, i requires 0 <= i < cnt => assert i / cf < |words| by { IndexFits(i, cnt, cf); } UnpackItem(cf, words, i))
  }

  lemma IndexFits(i: nat, cnt: nat, cf: nat)
    requires 1 <= cf <= 4 && i < cnt
    ensures i / cf < PayloadSize(cnt, cf)
  {
  }

  /**
   What arrives for item i of n. The remainder of a frame is copied without the swap, so that
   the last item of an odd number of compressed, swapped 16-bit items arrives as it is.
   */
  function SentItem(data: seq<u8>, dm: int, compression: bool, n: nat, i: nat): u32
    requires KnownMode(dm)
  {
    if compression && dm == -2 && n % 2 == 1 && i == n - 1 then Item(data, 2, i) else Item(data, dm, i)
  }

  function SentItems(data: seq<u8>, dm: int, compression: bool, n: nat): (items: seq<u32>)
    requires KnownMode(dm)
    ensures |items| == n
  {
    seq(n, i requires 0 <= i < n => SentItem(data, dm, compression, n, i))
  }

  /** Only the last frame may leave its last word incomplete. */
  predicate FrameOf(dm: int, compression: bool, n: nat, start: nat, cnt: nat)
    requires KnownMode(dm)
  {
    var cf := CompFactor(dm, compression);
    start % cf == 0 && start + cnt <= n && (cnt % cf == 0 || start + cnt == n)
  }

  /** The firmware unpacks from a frame exactly the items it was to carry. */
  lemma UnpackPayload(data: seq<u8>, dm: int, compression: bool, n: nat, start: nat, cnt: nat, i: nat)
    requires Supported(dm, compression) && FrameOf(dm, compression, n, start, cnt) && i < cnt
    ensures var cf := CompFactor(dm, compression);
            && i / cf < PayloadSize(cnt, cf)
            && UnpackItem(cf, PayloadWords(data, dm, compression, start, cnt), i)
               == SentItem(data, dm, compression, n, start + i)
  {
    var cf := CompFactor(dm, compression);
    if cf == 1 {
      UnpackOne(data, dm, compression, n, start, cnt, i);
    } else if cf == 2 {
      UnpackTwo(data, dm, n, start, cnt, i);
    } else if cf == 3 {
      UnpackThree(data, n, start, cnt, i);
    } else {
      UnpackFour(data, dm, n, start, cnt, i);
    }
  }

  lemma UnpackOne(data: seq<u8>, dm: int, compression: bool, n: nat, start: nat, cnt: nat, i: nat)
    requires Supported(dm, compression) && CompFactor(dm, compression) == 1 && start + cnt <= n && i < cnt
    ensures i < PayloadSize(cnt, 1)
    ensures UnpackItem(1, PayloadWords(data, dm, compression, start, cnt), i)
            == SentItem(data, dm, compression, n, start + i)
  {
    hide Words.WordAt, Words.Reversed, SwapBytes, SwapHalves;
    var w := WordAt(data, 4 * (start + i));
    ReversedBySwaps(w);
    OneByOne(cnt, start, i);
    assert UnpackItem(1, PayloadWords(data, dm, compression, start, cnt), i)
           == PayloadWord(data, dm, compression, start, cnt, i);
    assert !Unpacked(dm, compression) ==> PayloadWord(data, dm, compression, start, cnt, i) == Ordered(dm, w);
  }

  lemma OneByOne(cnt: nat, start: nat, i: nat)
    requires i < cnt
    ensures cnt / 1 == cnt && start / 1 == start && i / 1 == i && PayloadSize(cnt, 1) == cnt
  {
  }

  /** The two swaps of mode -4 together reverse the bytes of a word. */
  lemma ReversedBySwaps(w: u32)
    ensures SwapHalves(SwapBytes(w)) == Reversed(w)
  {
    HalvesOf(ByteOf(w, 1), ByteOf(w, 0), ByteOf(w, 3), ByteOf(w, 2));
  }

  lemma HalvesOf(b0: u8, b1: u8, b2: u8, b3: u8)
    ensures LittleEndian(b0, b1, b2, b3) % 0x1_0000 == b0 + 0x100 * b1
    ensures LittleEndian(b0, b1, b2, b3) / 0x1_0000 == b2 + 0x100 * b3
  {
    assert LittleEndian(b0, b1, b2, b3) == (b0 + 0x100 * b1) + 0x1_0000 * (b2 + 0x100 * b3);
  }

  lemma BytesOf(b0: u8, b1: u8, b2: u8, b3: u8)
    ensures var w := LittleEndian(b0, b1, b2, b3);
            ByteOf(w, 0) == b0 && ByteOf(w, 1) == b1 && ByteOf(w, 2) == b2 && ByteOf(w, 3) == b3
  {
    var w := LittleEndian(b0, b1, b2, b3);
    assert w / 0x100 == b1 + 0x100 * b2 + 0x1_0000 * b3;
    assert w / 0x1_0000 == b2 + 0x100 * b3;
    assert w / 0x100_0000 == b3;
  }

  /** Two bytes at offset p, as a 16-bit item of mode 2 or -2. */
  function Halfword(data: seq<u8>, dm: int, p: nat): u32 {
    if dm == -2 then 0x100 * ByteAt(data, p) + ByteAt(data, p + 1) else ByteAt(data, p) + 0x100 * ByteAt(data, p + 1)
  }

  lemma CompleteHalves(data: seq<u8>, dm: int, o: nat)
    requires dm == 2 || dm == -2
    ensures var w := Ordered(dm, WordAt(data, o));
            w % 0x1_0000 == Halfword(data, dm, o) && w / 0x1_0000 == Halfword(data, dm, o + 2)
  {
    var b0, b1, b2, b3 := ByteAt(data, o), ByteAt(data, o + 1), ByteAt(data, o + 2), ByteAt(data, o + 3);
    SwappedHalves(b0, b1, b2, b3);
    HalvesOf(b0, b1, b2, b3);
  }

  /** Where the word and the bytes of item i of the frame lie. */
  lemma TwoPerWord(n: nat, start: nat, cnt: nat, i: nat)
    requires start % 2 == 0 && start + cnt <= n && (cnt % 2 == 0 || start + cnt == n) && i < cnt
    ensures 2 * (start + i) == 4 * (start / 2 + i / 2) + 2 * (i % 2)
    ensures i / 2 < PayloadSize(cnt, 2)
    ensures if i / 2 < cnt / 2 then !(start + i == n - 1 && n % 2 == 1)
            else start + i == n - 1 && n % 2 == 1 && i % 2 == 0 && cnt % 2 == 1
  {
    assert i == 2 * (i / 2) + i % 2 && start == 2 * (start / 2) && cnt == 2 * (cnt / 2) + cnt % 2;
  }

  lemma UnpackTwo(data: seq<u8>, dm: int, n: nat, start: nat, cnt: nat, i: nat)
    requires (dm == 2 || dm == -2) && FrameOf(dm, true, n, start, cnt) && i < cnt
    ensures i / 2 < PayloadSize(cnt, 2)
    ensures UnpackItem(2, PayloadWords(data, dm, true, start, cnt), i) == SentItem(data, dm, true, n, start + i)
  {
    TwoPerWord(n, start, cnt, i);
    var k := i / 2;
    var o := 4 * (start / 2 + k);
    var w := PayloadWord(data, dm, true, start, cnt, k);
    if k < cnt / 2 {
      assert w == Ordered(dm, WordAt(data, o));
      CompleteHalves(data, dm, o);
      assert SentItem(data, dm, true, n, start + i) == Halfword(data, dm, 2 * (start + i));
    } else {
      assert w == Remainder(data, o, 2);
      HalvesOf(ByteAt(data, o), ByteAt(data, o + 1), 0, 0);
      assert SentItem(data, dm, true, n, start + i) == Halfword(data, 2, 2 * (start + i));
    }
  }

  lemma SwappedHalves(b0: u8, b1: u8, b2: u8, b3: u8)
    ensures var w := SwapBytes(LittleEndian(b0, b1, b2, b3));
            w % 0x1_0000 == b1 + 0x100 * b0 && w / 0x1_0000 == b3 + 0x100 * b2
  {
    BytesOf(b0, b1, b2, b3);
    HalvesOf(b1, b0, b3, b2);
  }

  lemma BytesOfWord(data: seq<u8>, o: nat, m: nat, j: nat)
    requires j < 4
    ensures ByteOf(WordAt(data, o), j) == ByteAt(data, o + j)
    ensures j < m ==> ByteOf(Remainder(data, o, m), j) == ByteAt(data, o + j)
  {
    var b0, b1, b2, b3 := ByteAt(data, o), ByteAt(data, o + 1), ByteAt(data, o + 2), ByteAt(data, o + 3);
    BytesOf(b0, b1, b2, b3);
    BytesOf(if 0 < m then b0 else 0, if 1 < m then b1 else 0, if 2 < m then b2 else 0, if 3 < m then b3 else 0);
  }

  lemma FourPerWord(n: nat, start: nat, cnt: nat, i: nat)
    requires start % 4 == 0 && i < cnt
    ensures 4 * (start / 4 + i / 4) + i % 4 == start + i
    ensures i / 4 < PayloadSize(cnt, 4) && (i / 4 >= cnt / 4 ==> i % 4 < cnt % 4)
  {
    assert i == 4 * (i / 4) + i % 4 && start == 4 * (start / 4) && cnt == 4 * (cnt / 4) + cnt % 4;
  }

  lemma UnpackFour(data: seq<u8>, dm: int, n: nat, start: nat, cnt: nat, i: nat)
    requires (dm == 1 || dm == -1) && FrameOf(dm, true, n, start, cnt) && i < cnt
    ensures i / 4 < PayloadSize(cnt, 4)
    ensures UnpackItem(4, PayloadWords(data, dm, true, start, cnt), i) == SentItem(data, dm, true, n, start + i)
  {
    hide Words.ByteOf, Words.LittleEndian, Words.WordAt, Remainder, PayloadSize;
    FourPerWord(n, start, cnt, i);
    var k := i / 4;
    var o := 4 * (start / 4 + k);
    var w := PayloadWord(data, dm, true, start, cnt, k);
    assert UnpackItem(4, PayloadWords(data, dm, true, start, cnt), i) == ByteOf(w, i % 4);
    BytesOfWord(data, o, cnt % 4, i % 4);
    assert w == if k < cnt / 4 then WordAt(data, o) else Remainder(data, o, cnt % 4);
    assert SentItem(data, dm, true, n, start + i) == ByteAt(data, start + i);
  }

  lemma ThreePerWord(start: nat, cnt: nat, i: nat)
    requires start % 3 == 0 && i < cnt
    ensures (start + i) / 3 == start / 3 + i / 3 && (start + i) % 3 == i % 3
    ensures i / 3 < PayloadSize(cnt, 3) && (i / 3 >= cnt / 3 ==> i % 3 < cnt % 3)
  {
    var q, r, s, c := i / 3, i % 3, start / 3, cnt / 3;
    assert i == 3 * q + r && start == 3 * s && cnt == 3 * c + cnt % 3;
    assert start + i == 3 * (s + q) + r;
  }

  lemma UnpackThree(data: seq<u8>, n: nat, start: nat, cnt: nat, i: nat)
    requires FrameOf(3, true, n, start, cnt) && i < cnt
    ensures i / 3 < PayloadSize(cnt, 3)
    ensures UnpackItem(3, PayloadWords(data, 3, true, start, cnt), i) == SentItem(data, 3, true, n, start + i)
  {
    hide Words.WordAt, Remainder, TenBits, PayloadSize;
    ThreePerWord(start, cnt, i);
    var k := i / 3;
    var o := 4 * (start / 3 + k);
    var w := PayloadWord(data, 3, true, start, cnt, k);
    assert UnpackItem(3, PayloadWords(data, 3, true, start, cnt), i) == TenBits(w, i % 3);
    assert SentItem(data, 3, true, n, start + i) == TenBits(WordAt(data, o), i % 3);
    if k < cnt / 3 {
      assert w == WordAt(data, o);
    } else {
      assert w == Remainder(data, o, cnt % 3 + 1);
      TenBitsOfRemainder(data, o, cnt % 3, i % 3);
    }
  }

  lemma TenBitsOfRemainder(data: seq<u8>, o: nat, m: nat, j: nat)
    requires j < m < 3
    ensures TenBits(Remainder(data, o, m + 1), j) == TenBits(WordAt(data, o), j)
  {
    var b0, b1, b2, b3 := ByteAt(data, o), ByteAt(data, o + 1), ByteAt(data, o + 2), ByteAt(data, o + 3);
    assert Remainder(data, o, m + 1) == if m == 1 then LittleEndian(b0, b1, 0, 0) else LittleEndian(b0, b1, b2, 0);
    assert WordAt(data, o) == LittleEndian(b0, b1, b2, b3);
    hide Words.LittleEndian, TenBits;
    LowTenBits(b0, b1, b2, b3);
  }

  lemma AddMultiple(x: nat, q: nat)
    ensures (x + 0x400 * q) % 0x400 == x % 0x400 && (x + 0x400 * q) / 0x400 == x / 0x400 + q
  {
  }

  lemma FirstTen(x: nat, h: nat)
    ensures (x + 0x1_0000 * h) % 0x400 == x % 0x400
  {
    AddMultiple(x, 0x40 * h);
  }

  lemma SecondTen(x: nat, h: nat)
    ensures (x + 0x100_0000 * h) / 0x400 % 0x400 == x / 0x400 % 0x400
  {
    AddMultiple(x, 0x4000 * h);
    AddMultiple(x / 0x400, 0x10 * h);
  }

  lemma LowTenBits(b0: u8, b1: u8, b2: u8, b3: u8)
    ensures TenBits(LittleEndian(b0, b1, b2, b3), 0) == TenBits(LittleEndian(b0, b1, b2, 0), 0)
            == TenBits(LittleEndian(b0, b1, 0, 0), 0)
    ensures TenBits(LittleEndian(b0, b1, b2, b3), 1) == TenBits(LittleEndian(b0, b1, b2, 0), 1)
  {
    FirstTen(b0 + 0x100 * b1, b2 + 0x100 * b3);
    FirstTen(b0 + 0x100 * b1, b2);
    SecondTen(b0 + 0x100 * b1 + 0x1_0000 * b2, b3);
  }
}
