/**
 The checksum for message blocks: the 16-bit frame check sequence of RFC 1662, with its two bytes exchanged.
 */
module Crc {

  const POLY: bv16 := 0x8408

  /** The register after one bit of data. */
  function Bit(crc: bv16, d: bool): bv16 {
    if (crc & 1 != 0) != d then (crc >> 1) ^ POLY else crc >> 1
  }

  /** The register after a stream of bits. */
  function Run(crc: bv16, bits: seq<bool>): bv16
    decreases |bits|
  {
    if |bits| == 0 then crc else Run(Bit(crc, bits[0]), bits[1..])
  }

  /** The lowest n bits of a number, the lowest first. */
  function LowBits(d: bv16, n: nat): (bits: seq<bool>)
    ensures |bits| == n
  {
    if n == 0 then [] else [d & 1 != 0] + LowBits(d >> 1, n - 1)
  }

  /** The bits of some bytes in the order in which they are processed. */
  function Stream(data: seq<bv8>): (bits: seq<bool>)
    ensures |bits| == 8 * |data|
  {
    if |data| == 0 then [] else LowBits(data[0] as bv16, 8) + Stream(data[1..])
  }

  function Register(data: seq<bv8>): bv16 {
    Run(0xffff, Stream(data))
  }

  function Exchanged(w: bv16): bv16 {
    (w << 8) | ((w >> 8) & 0xff)
  }

  function Checksum(data: seq<bv8>): bv16 {
    Exchanged(!Register(data))
  }

  function High(w: bv16): bv8 { (w >> 8) as bv8 }
  function Low(w: bv16): bv8 { (w & 0xff) as bv8 }

  lemma {:induction false} RunOfConcat(crc: bv16, a: seq<bool>, b: seq<bool>)
    ensures Run(crc, a + b) == Run(Run(crc, a), b)
    decreases |a|
  {
    if |a| == 0 {
      assert a + b == b;
    } else {
      assert (a + b)[1..] == a[1..] + b;
      RunOfConcat(Bit(crc, a[0]), a[1..], b);
    }
  }

  lemma {:induction false} StreamOfConcat(a: seq<bv8>, b: seq<bv8>)
    ensures Stream(a + b) == Stream(a) + Stream(b)
  {
    if |a| == 0 {
      assert a + b == b;
    } else {
      assert (a + b)[1..] == a[1..] + b;
      StreamOfConcat(a[1..], b);
      assert LowBits(a[0] as bv16, 8) + (Stream(a[1..]) + Stream(b)) == Stream(a) + Stream(b);
    }
  }

  // ---------- the two loops ----------

  method Crc16(data: seq<bv8>) returns (crc: bv16)
    ensures crc == Checksum(data)
  {
    hide Register, Run, Stream, Exchanged;
    crc := 0xffff;
    if |data| == 0 {
      ChecksumOfNothing(data);
      return !crc;
    }
    crc := ByteLoop(data);
    crc := ExchangeBytes(!crc);
  }

  method ExchangeBytes(crc0: bv16) returns (crc: bv16)
    ensures crc == Exchanged(crc0)
  {
    var data := crc0;
    crc := (crc0 << 8) | ((data >> 8) & 0xff);
  }

  lemma ChecksumOfNothing(data: seq<bv8>)
    requires |data| == 0
    ensures Checksum(data) == !0xffff
  {
  }

  method ByteLoop(data: seq<bv8>) returns (crc: bv16)
    ensures crc == Register(data)
  {
    crc := 0xffff;
    var k := 0;
    hide Bit, LowBits;
    while k < |data|
      invariant k <= |data| && Run(crc, Stream(data[k..])) == Register(data)
    {
      assert data[k..][1..] == data[k + 1..];
      RunOfConcat(crc, LowBits(data[k] as bv16, 8), Stream(data[k + 1..]));
      crc := BitLoop(crc, data[k] as bv16);
      k := k + 1;
    }
  }

  method BitLoop(crc0: bv16, data0: bv16) returns (crc: bv16)
    ensures crc == Run(crc0, LowBits(data0, 8))
  {
    crc := crc0;
    var i, data := 0, data0;
    while i < 8
      invariant i <= 8 && Run(crc, LowBits(data, 8 - i)) == Run(crc0, LowBits(data0, 8))
    {
      OneBit(crc, data, 8 - i);
      if (crc & 1) ^ (data & 1) != 0 {
        crc := (crc >> 1) ^ POLY;
      } else {
        crc := crc >> 1;
      }
      i, data := i + 1, data >> 1;
    }
  }

  lemma OneBit(crc: bv16, data: bv16, n: nat)
    requires n > 0
    ensures Run(crc, LowBits(data, n)) == Run(Bit(crc, data & 1 != 0), LowBits(data >> 1, n - 1))
    ensures Bit(crc, data & 1 != 0) == if (crc & 1) ^ (data & 1) != 0 then (crc >> 1) ^ POLY else crc >> 1
  {
    assert LowBits(data, n)[1..] == LowBits(data >> 1, n - 1);
  }

  // ---------- the checksum at the end of the data ----------

  /** The register after eight bits, written out. */
  function Byte(crc: bv16, d: bv16): bv16 {
    var c1 := Bit(crc, d & 1 != 0);
    var c2 := Bit(c1, (d >> 1) & 1 != 0);
    var c3 := Bit(c2, (d >> 2) & 1 != 0);
    var c4 := Bit(c3, (d >> 3) & 1 != 0);
    var c5 := Bit(c4, (d >> 4) & 1 != 0);
    var c6 := Bit(c5, (d >> 5) & 1 != 0);
    var c7 := Bit(c6, (d >> 6) & 1 != 0);
    Bit(c7, (d >> 7) & 1 != 0)
  }

  lemma Shifts(d: bv16)
    ensures (d >> 1) >> 1 == d >> 2 && (d >> 2) >> 1 == d >> 3 && (d >> 3) >> 1 == d >> 4
    ensures (d >> 4) >> 1 == d >> 5 && (d >> 5) >> 1 == d >> 6 && (d >> 6) >> 1 == d >> 7
  {
  }

  lemma ByteIsRun(crc: bv16, d: bv16)
    ensures Run(crc, LowBits(d, 8)) == Byte(crc, d)
  {
    hide Bit;
    var c1 := Bit(crc, d & 1 != 0);
    var c2 := Bit(c1, (d >> 1) & 1 != 0);
    var c3 := Bit(c2, (d >> 2) & 1 != 0);
    var c4 := Bit(c3, (d >> 3) & 1 != 0);
    var c5 := Bit(c4, (d >> 4) & 1 != 0);
    var c6 := Bit(c5, (d >> 5) & 1 != 0);
    var c7 := Bit(c6, (d >> 6) & 1 != 0);
    Shifts(d);
    OneBit(crc, d, 8);
    OneBit(c1, d >> 1, 7);
    OneBit(c2, d >> 2, 6);
    OneBit(c3, d >> 3, 5);
    OneBit(c4, d >> 4, 4);
    OneBit(c5, d >> 5, 3);
    OneBit(c6, d >> 6, 2);
    OneBit(c7, d >> 7, 1);
  }

  lemma TwoBytes(r: bv16)
    ensures Byte(Byte(r, !r & 0xff), (!r >> 8) & 0xff) == 0xf0b8
  {
  }

  lemma ExchangedBytes(w: bv16)
    ensures High(Exchanged(w)) as bv16 == w & 0xff && Low(Exchanged(w)) as bv16 == (w >> 8) & 0xff
  {
  }

  lemma RunOfTwo(r: bv16, a: bv8, b: bv8)
    ensures Run(r, Stream([a, b])) == Byte(Byte(r, a as bv16), b as bv16)
  {
    hide Byte, Bit, LowBits;
    var x, y := LowBits(a as bv16, 8), LowBits(b as bv16, 8);
    assert [a, b][1..] == [b] && Stream([b]) == y + Stream([]) == y;
    RunOfConcat(r, x, y);
    ByteIsRun(r, a as bv16);
    ByteIsRun(Byte(r, a as bv16), b as bv16);
  }

  lemma ResidueOf(r: bv16)
    ensures var c := Exchanged(!r); Run(r, Stream([High(c), Low(c)])) == 0xf0b8
  {
    var c := Exchanged(!r);
    ExchangedBytes(!r);
    TwoBytes(r);
    RunOfTwo(r, High(c), Low(c));
  }

  /** Data followed by their checksum, high byte first, always leave the same value in the register. */
  lemma Residue(data: seq<bv8>)
    ensures var c := Checksum(data); Register(data + [High(c), Low(c)]) == 0xf0b8
  {
    var c := Checksum(data);
    ResidueOf(Register(data));
    hide High, Low, Exchanged, Run, Stream;
    StreamOfConcat(data, [High(c), Low(c)]);
    RunOfConcat(0xffff, Stream(data), Stream([High(c), Low(c)]));
  }

  // ---------- error detection ----------

  /** The register before the bit. */
  function Before(crc: bv16, d: bool): bv16 {
    if crc & 0x8000 != 0 then ((crc ^ POLY) << 1) | (if d then 0 else 1) else (crc << 1) | (if d then 1 else 0)
  }

  lemma BitIsUndone(r: bv16, d: bool)
    ensures Before(Bit(r, d), d) == r
  {
  }

  lemma BitInjective(r: bv16, s: bv16, d: bool)
    requires r != s
    ensures Bit(r, d) != Bit(s, d)
  {
    hide Bit, Before;
    BitIsUndone(r, d);
    BitIsUndone(s, d);
  }

  lemma {:induction false} RunInjective(r: bv16, s: bv16, bits: seq<bool>)
    requires r != s
    ensures Run(r, bits) != Run(s, bits)
    decreases |bits|
  {
    if |bits| > 0 {
      BitInjective(r, s, bits[0]);
      RunInjective(Bit(r, bits[0]), Bit(s, bits[0]), bits[1..]);
    }
  }

  /** The n + 1 highest bits. */
  function Top(n: nat): bv16 {
    if n == 0 then 0x8000 else (Top(n - 1) >> 1) | 0x8000
  }

  lemma TopIsEven(n: nat)
    requires n <= 14
    ensures Top(n) & 1 == 0
  {
    assert Top(1) == 0xc000 && Top(2) == 0xe000 && Top(3) == 0xf000 && Top(4) == 0xf800;
    assert Top(5) == 0xfc00 && Top(6) == 0xfe00 && Top(7) == 0xff00 && Top(8) == 0xff80;
    assert Top(9) == 0xffc0 && Top(10) == 0xffe0 && Top(11) == 0xfff0 && Top(12) == 0xfff8;
    assert Top(13) == 0xfffc && Top(14) == 0xfffe;
  }

  lemma TopStep(n: nat)
    ensures Top(n + 1) == (Top(n) >> 1) | 0x8000
  {
  }

  /** A difference moves down by at most one position with every bit of data. */
  lemma DifferenceMoves(r: bv16, s: bv16, a: bool, b: bool, top: bv16)
    requires (r ^ s) & top != 0 && top & 1 == 0
    ensures (Bit(r, a) ^ Bit(s, b)) & ((top >> 1) | 0x8000) != 0
  {
  }

  lemma FirstDifference(r: bv16, a: bool)
    ensures (Bit(r, a) ^ Bit(r, !a)) & 0x8000 != 0
  {
  }

  predicate DifferIn(r: bv16, s: bv16, n: nat) {
    (r ^ s) & Top(n) != 0
  }

  lemma DifferenceStep(r: bv16, s: bv16, a: bool, b: bool, n: nat)
    requires DifferIn(r, s, n) && n <= 14
    ensures DifferIn(Bit(r, a), Bit(s, b), n + 1)
  {
    TopIsEven(n);
    DifferenceMoves(r, s, a, b, Top(n));
    TopStep(n);
    hide Top, Bit;
  }

  lemma {:induction false} DifferenceRemains(r: bv16, s: bv16, x: seq<bool>, y: seq<bool>, n: nat)
    requires |x| == |y| && n + |x| <= 15 && DifferIn(r, s, n)
    ensures Run(r, x) != Run(s, y)
    decreases |x|
  {
    hide DifferIn, Bit;
    if |x| == 0 {
      SameHasNoDifference(r, s, n);
    } else {
      DifferenceStep(r, s, x[0], y[0], n);
      DifferenceRemains(Bit(r, x[0]), Bit(s, y[0]), x[1..], y[1..], n + 1);
    }
  }

  lemma SameHasNoDifference(r: bv16, s: bv16, n: nat)
    requires DifferIn(r, s, n)
    ensures r != s
  {
  }

  /** Sixteen bits at most lead to different registers if they differ at all. */
  lemma {:induction false} ShortRunsDiffer(r: bv16, x: seq<bool>, y: seq<bool>)
    requires |x| == |y| <= 16 && x != y
    ensures Run(r, x) != Run(r, y)
    decreases |x|
  {
    if x[0] == y[0] {
      assert x[1..] != y[1..];
      ShortRunsDiffer(Bit(r, x[0]), x[1..], y[1..]);
    } else {
      FirstDifference(r, x[0]);
      DifferenceRemains(Bit(r, x[0]), Bit(r, y[0]), x[1..], y[1..], 0);
    }
  }

  lemma ExchangedInjective(r: bv16, s: bv16)
    requires r != s
    ensures Exchanged(!r) != Exchanged(!s)
  {
  }

  /** A change confined to sixteen successive bits, anywhere in the data, changes the checksum. */
  lemma BurstIsDetected(data: seq<bv8>, changed: seq<bv8>,
                        front: seq<bool>, x: seq<bool>, y: seq<bool>, back: seq<bool>)
    requires Stream(data) == front + x + back && Stream(changed) == front + y + back
    requires |x| == |y| <= 16 && x != y
    ensures Checksum(data) != Checksum(changed)
  {
    var r := Run(0xffff, front);
    RunOfConcat(0xffff, front + x, back);
    RunOfConcat(0xffff, front, x);
    RunOfConcat(0xffff, front + y, back);
    RunOfConcat(0xffff, front, y);
    ShortRunsDiffer(r, x, y);
    RunInjective(Run(r, x), Run(r, y), back);
    ExchangedInjective(Register(data), Register(changed));
  }

  lemma RunOfThree(r: bv16, a: bv8, b: bv8, c: bv8)
    ensures Run(r, Stream([a, b, c])) == Byte(Byte(Byte(r, a as bv16), b as bv16), c as bv16)
  {
    hide Byte, Bit, LowBits;
    assert [a, b, c] == [a] + [b, c] && [a][1..] == [];
    StreamOfConcat([a], [b, c]);
    RunOfConcat(r, LowBits(a as bv16, 8), Stream([b, c]));
    ByteIsRun(r, a as bv16);
    RunOfTwo(Byte(r, a as bv16), b, c);
  }

  lemma Polynomial()
    ensures Byte(Byte(Byte(0xffff, 0), 0), 0) == Byte(Byte(Byte(0xffff, 0x11), 0x08), 0x01)
  {
  }

  lemma PolynomialRun()
    ensures Register([0, 0, 0]) == Register([0x11, 0x08, 0x01])
  {
    hide Byte, Run, Stream;
    RunOfThree(0xffff, 0, 0, 0);
    RunOfThree(0xffff, 0x11, 0x08, 0x01);
    Polynomial();
  }

  lemma SameFromHereOn(a: seq<bv8>, b: seq<bv8>, back: seq<bv8>)
    requires Register(a) == Register(b)
    ensures Register(a + back) == Register(b + back)
  {
    hide Run, Stream;
    StreamOfConcat(a, back);
    StreamOfConcat(b, back);
    RunOfConcat(0xffff, Stream(a), Stream(back));
    RunOfConcat(0xffff, Stream(b), Stream(back));
  }

  lemma SameChecksum(a: seq<bv8>, b: seq<bv8>)
    requires Register(a) == Register(b)
    ensures Checksum(a) == Checksum(b)
  {
    hide Register, Exchanged;
  }

  /** Seventeen bits are too many: the bits of the generator polynomial itself pass unnoticed. */
  lemma LongerBurstPasses(back: seq<bv8>)
    ensures Checksum([0, 0, 0] + back) == Checksum([0x11, 0x08, 0x01] + back)
  {
    PolynomialRun();
    SameFromHereOn([0, 0, 0], [0x11, 0x08, 0x01], back);
    SameChecksum([0, 0, 0] + back, [0x11, 0x08, 0x01] + back);
  }

  // ---------- short data ----------

  lemma ZeroByte()
    ensures Byte(0xffff, 0) == 0x0f87
  {
  }

  lemma ExchangedZeroByte()
    ensures Exchanged(!0x0f87) == 0x78f0 && Exchanged(!0xffff) == 0
  {
  }

  /** The checksum of no data is zero, and a zero byte changes it: the register does not begin with zero. */
  lemma FirstChecksums()
    ensures Checksum([]) == 0 && Checksum([0]) == 0x78f0
  {
    hide Byte, Bit, LowBits, Exchanged;
    assert [0 as bv8][1..] == [] && Stream([0]) == LowBits(0, 8) + Stream([]) == LowBits(0, 8);
    ByteIsRun(0xffff, 0);
    ZeroByte();
    ExchangedZeroByte();
  }
}
