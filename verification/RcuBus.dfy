/**
 What lies behind the message buffer: the memory space of the RCU, its flash memory, and
 the flash controller of the RCU Actel, which is operated through registers in the memory
 space. This is a model of the hardware the interface talks to.
 */
module RcuBus {
  import opened Words
  import opened MsgHeader

  const FLASH_CMD := 0xb000
  const FLASH_STATUS := 0xb100
  const FLASH_ADDRH := 0xb101
  const FLASH_ADDRL := 0xb102
  const FLASH_DATA := 0xb103
  const FLASH_READRES := 0xb105

  const FLASH_WRITECMD := 0x04
  const FLASH_READCMD := 0x08

  const FLASH_STATE_IDLE := 0
  const FLASH_STATE_BUSY := 0x4000

  /**
   busy is the number of status reads that will still find the flash busy; delays says
   how long each of the coming commands will keep it busy, a missing entry meaning not at all.
   */
  datatype Rcu = Rcu(mem: map<int, u32>, flash: map<int, u32>, busy: nat, delays: seq<nat>)

  datatype Answer = Answer(rcu: Rcu, values: seq<u32>)

  function Load(m: map<int, u32>, a: int): u32 {
    if a in m then m[a] else 0
  }

  /** The word that lands at location i when ws is stored from location a on. */
  function ItemFor(ws: seq<u32>, a: int, i: int): u32
    requires a <= i < a + |ws|
  {
    ws[i - a]
  }

  function Store(m: map<int, u32>, a: int, ws: seq<u32>): map<int, u32> {
    m + map i | a <= i < a + |ws| :: ItemFor(ws, a, i)
  }

  lemma StoreHeadFirst(m: map<int, u32>, a: int, ws: seq<u32>)
    requires ws != []
    ensures Store(m[a := ws[0]], a + 1, ws[1..]) == Store(m, a, ws)
  {
    var head, tail, all := m[a := ws[0]], ws[1..], Store(m, a, ws);
    var left := Store(head, a + 1, tail);
    assert left.Keys == all.Keys;
    forall i | i in all.Keys
      ensures left[i] == all[i]
    {
      if a < i < a + |ws| {
        assert left[i] == ItemFor(tail, a + 1, i) == ItemFor(ws, a, i);
      } else if i == a {
        assert left[i] == head[i] == ItemFor(ws, a, i);
      } else {
        assert left[i] == head[i] == m[i] == all[i];
      }
    }
  }

  /** The flash location selected by the two address registers. */
  function FlashAddress(r: Rcu): int {
    Load(r.mem, FLASH_ADDRH) % 0x100 * 0x1_0000 + Load(r.mem, FLASH_ADDRL) % 0x1_0000
  }

  /** The Actel ignores a command that reaches it while the flash is busy. */
  function FlashCommand(r: Rcu, cmd: u32): Rcu {
    if r.busy > 0 then
      r
    else
      var started := if r.delays == [] then r else r.(busy := r.delays[0], delays := r.delays[1..]);
      if cmd == FLASH_WRITECMD then
        started.(flash := r.flash[FlashAddress(r) := Load(r.mem, FLASH_DATA)])
      else if cmd == FLASH_READCMD then
        started.(mem := r.mem[FLASH_READRES := Load(r.flash, FlashAddress(r))])
      else
        started
  }

  function WriteItem(r: Rcu, mode: nat, a: int, v: u32): Rcu {
    if mode == MODE_FLASH then r.(flash := r.flash[a := v])
    else if a == FLASH_CMD then FlashCommand(r, v)
    else r.(mem := r.mem[a := v])
  }

  function ReadItem(r: Rcu, mode: nat, a: int): Answer {
    if mode == MODE_FLASH then Answer(r, [Load(r.flash, a)])
    else if a == FLASH_STATUS then
      if r.busy > 0 then Answer(r.(busy := r.busy - 1), [FLASH_STATE_BUSY]) else Answer(r, [FLASH_STATE_IDLE])
    else Answer(r, [Load(r.mem, a)])
  }

  /** Items written one after the other, to consecutive locations. */
  function WriteItems(r: Rcu, mode: nat, a: int, items: seq<u32>): Rcu
    decreases |items|
  {
    if items == [] then r else WriteItems(WriteItem(r, mode, a, items[0]), mode, a + 1, items[1..])
  }

  function ReadItems(r: Rcu, mode: nat, a: int, n: nat): (answer: Answer)
    ensures |answer.values| == n
    decreases n
  {
    if n == 0 then
      Answer(r, [])
    else
      var first := ReadItem(r, mode, a);
      var rest := ReadItems(first.rcu, mode, a + 1, n - 1);
      Answer(rest.rcu, first.values + rest.values)
  }

  /** Writing in two portions is writing at once. */
  lemma {:induction false} WriteItemsConcat(r: Rcu, mode: nat, a: int, x: seq<u32>, y: seq<u32>)
    ensures WriteItems(r, mode, a, x + y) == WriteItems(WriteItems(r, mode, a, x), mode, a + |x|, y)
    decreases |x|
  {
    if x == [] {
      assert x + y == y;
    } else {
      assert (x + y)[1..] == x[1..] + y;
      WriteItemsConcat(WriteItem(r, mode, a, x[0]), mode, a + 1, x[1..], y);
    }
  }

  /** Reading in two portions is reading at once. */
  lemma {:induction false} ReadItemsConcat(r: Rcu, mode: nat, a: int, n: nat, k: nat)
    ensures var first := ReadItems(r, mode, a, n);
            var second := ReadItems(first.rcu, mode, a + n, k);
            ReadItems(r, mode, a, n + k) == Answer(second.rcu, first.values + second.values)
    decreases n
  {
    if n > 0 {
      var head := ReadItem(r, mode, a);
      ReadItemsConcat(head.rcu, mode, a + 1, n - 1, k);
      var tail := ReadItems(head.rcu, mode, a + 1, n - 1);
      var second := ReadItems(tail.rcu, mode, a + n, k);
      assert head.values + (tail.values + second.values) == (head.values + tail.values) + second.values;
    }
  }

  /** The locations behave as memory: neither of the two registers that do more is among them. */
  predicate Plain(mode: nat, a: int, n: nat) {
    mode == MODE_FLASH || !(a <= FLASH_CMD < a + n || a <= FLASH_STATUS < a + n)
  }

  /** The memory that a transaction of the mode addresses. */
  function Space(r: Rcu, mode: nat): map<int, u32> {
    if mode == MODE_FLASH then r.flash else r.mem
  }

  /** Apart from the two registers, writing stores the items and changes nothing else. */
  lemma {:induction false} WriteItemsStores(r: Rcu, mode: nat, a: int, items: seq<u32>)
    requires Plain(mode, a, |items|)
    ensures WriteItems(r, mode, a, items) ==
            if mode == MODE_FLASH then r.(flash := Store(r.flash, a, items)) else r.(mem := Store(r.mem, a, items))
    decreases |items|
  {
    if items == [] {
      assert Store(Space(r, mode), a, items) == Space(r, mode);
    } else {
      StoreHeadFirst(Space(r, mode), a, items);
      WriteItemsStores(WriteItem(r, mode, a, items[0]), mode, a + 1, items[1..]);
    }
  }

  /** Apart from the two registers, reading returns the contents and changes nothing. */
  lemma {:induction false} ReadItemsLoads(r: Rcu, mode: nat, a: int, n: nat)
    requires Plain(mode, a, n)
    ensures ReadItems(r, mode, a, n).rcu == r
    ensures forall i :: 0 <= i < n ==> ReadItems(r, mode, a, n).values[i] == Load(Space(r, mode), a + i)
    decreases n
  {
    if n > 0 {
      ReadItemsLoads(r, mode, a + 1, n - 1);
      var all, rest := ReadItems(r, mode, a, n).values, ReadItems(r, mode, a + 1, n - 1).values;
      assert all == [Load(Space(r, mode), a)] + rest;
      forall i | 0 <= i < n
        ensures all[i] == Load(Space(r, mode), a + i)
      {
        if i > 0 {
          assert all[i] == rest[i - 1];
        }
      }
    }
  }

  /** What has been written is read back, and no other location has changed. */
  lemma WrittenIsReadBack(r: Rcu, mode: nat, a: int, items: seq<u32>)
    requires Plain(mode, a, |items|)
    ensures var r' := WriteItems(r, mode, a, items);
            && ReadItems(r', mode, a, |items|) == Answer(r', items)
            && forall i :: !(a <= i < a + |items|) ==> Load(Space(r', mode), i) == Load(Space(r, mode), i)
  {
    var r' := WriteItems(r, mode, a, items);
    WriteItemsStores(r, mode, a, items);
    ReadItemsLoads(r', mode, a, |items|);
    assert ReadItems(r', mode, a, |items|).values == items;
  }
}
