/** Machine words, as the numbers they hold. */
module Words {

  type u8 = x: int | 0 <= x < 0x100

  type u16 = x: int | 0 <= x < 0x1_0000

  type u32 = x: int | 0 <= x < 0x1_0000_0000

  /** The 32-bit word whose four bytes, lowest address first, are given. */
  function LittleEndian(b0: u8, b1: u8, b2: u8, b3: u8): u32 {
    b0 + 0x100 * b1 + 0x1_0000 * b2 + 0x100_0000 * b3
  }

  /** One byte of a word, counted from its least significant end. */
  function ByteOf(w: u32, k: nat): u8
    requires k < 4
  {
    match k
    case 0 => w % 0x100
    case 1 => w / 0x100 % 0x100
    case 2 => w / 0x1_0000 % 0x100
    case _ => w / 0x100_0000
  }

  /** Bytes reversed within the word. */
  function Reversed(w: u32): u32 {
    LittleEndian(ByteOf(w, 3), ByteOf(w, 2), ByteOf(w, 1), ByteOf(w, 0))
  }

  /** Byte k of a string of bytes; beyond its end there are zeros. */
  function ByteAt(data: seq<u8>, k: nat): u8 {
    if k < |data| then data[k] else 0
  }

  /** The little endian word stored at byte offset o. */
  function WordAt(data: seq<u8>, o: nat): u32 {
    LittleEndian(ByteAt(data, o), ByteAt(data, o + 1), ByteAt(data, o + 2), ByteAt(data, o + 3))
  }

  /** The concatenation of a list of word sequences. */
  function Flatten(blocks: seq<seq<u32>>): seq<u32> {
    if blocks == [] then [] else blocks[0] + Flatten(blocks[1..])
  }

  lemma {:induction false} FlattenConcat(x: seq<seq<u32>>, y: seq<seq<u32>>)
    ensures Flatten(x + y) == Flatten(x) + Flatten(y)
  {
    if x == [] {
      assert x + y == y;
    } else {
      var tail := x[1..];
      assert x + y == [x[0]] + (tail + y);
      FlattenConcat(tail, y);
      calc {
        Flatten(x + y);
        x[0] + Flatten(tail + y);
        x[0] + (Flatten(tail) + Flatten(y));
        Flatten(x) + Flatten(y);
      }
    }
  }
}
