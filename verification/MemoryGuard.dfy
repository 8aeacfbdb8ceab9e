/**
 The memory guard: every block handed out by malloc is tracked by a descriptor, as long as there are
 descriptors left. The descriptors are linked into two rings, one of them free and one active.
 */
module MemoryGuard {
  import opened Common
  import opened Errno

  const LIST_SIZE := 100 // MMG_INITIAL_LIST_SIZE
  const NULL: nat := 0

  class Entry {
    var pNext: Entry?
    var pPrev: Entry?
    var p: nat

    constructor ()
      ensures p == NULL
    {
      pNext, pPrev, p := null, null, NULL;
    }
  }

  predicate Distinct<T(==)>(s: seq<T>) {
    forall i, j :: 0 <= i < j < |s| ==> s[i] != s[j]
  }

  lemma DistinctFront<T>(e: T, s: seq<T>)
    requires Distinct(s) && e !in s
    ensures Distinct([e] + s)
  {
  }

  function Elements<T>(s: seq<T>): set<T> {
    set e | e in s
  }

  /** These entries, and no others, make up a circular doubly linked list. */
  ghost predicate Linked(ring: seq<Entry>)
    reads ring`pNext, ring`pPrev
  {
    && |ring| > 0 && Distinct(ring)
    && (forall i :: 0 <= i < |ring| - 1 ==> ring[i].pNext == ring[i + 1])
    && (forall i :: 0 < i < |ring| ==> ring[i].pPrev == ring[i - 1])
    && ring[|ring| - 1].pNext == ring[0] && ring[0].pPrev == ring[|ring| - 1]
  }

  function Following<T>(ring: seq<T>, k: nat, e: T): seq<T>
    requires k < |ring|
  {
    ring[..k + 1] + [e] + ring[k + 1..]
  }

  function Omitting<T>(ring: seq<T>, k: nat): seq<T>
    requires k < |ring|
  {
    ring[..k] + ring[k + 1..]
  }

  lemma FollowingElements<T>(ring: seq<T>, k: nat, e: T)
    requires k < |ring|
    ensures Elements(Following(ring, k, e)) == Elements(ring) + {e}
    ensures Distinct(ring) && e !in ring ==> Distinct(Following(ring, k, e))
  {
    var f := Following(ring, k, e);
    assert f[k + 1] == e;
    assert forall i :: 0 <= i < |ring| ==> ring[i] == f[if i <= k then i else i + 1];
  }

  lemma OmittingElements<T>(ring: seq<T>, k: nat)
    requires k < |ring| && Distinct(ring)
    ensures Elements(Omitting(ring, k)) == Elements(ring) - {ring[k]} && Distinct(Omitting(ring, k))
  {
    var f := Omitting(ring, k);
    assert forall i :: 0 <= i < |ring| && i != k ==> ring[i] == f[if i < k then i else i - 1];
    assert forall i :: 0 <= i < |f| ==> f[i] == ring[if i < k then i else i + 1];
  }

  /** The links of a ring with an element behind position k. */
  lemma LinkedFollowing(ring: seq<Entry>, k: nat, e: Entry)
    requires k < |ring| && Distinct(ring) && e !in ring
    requires forall i :: 0 <= i < |ring| - 1 && i != k ==> ring[i].pNext == ring[i + 1]
    requires forall i :: 0 < i < |ring| && i != k + 1 ==> ring[i].pPrev == ring[i - 1]
    requires ring[k].pNext == e && e.pPrev == ring[k]
    requires e.pNext == if k == |ring| - 1 then ring[0] else ring[k + 1]
    requires e == if k == |ring| - 1 then ring[0].pPrev else ring[k + 1].pPrev
    requires k < |ring| - 1 ==> ring[|ring| - 1].pNext == ring[0] && ring[0].pPrev == ring[|ring| - 1]
    ensures Linked(Following(ring, k, e))
  {
    hide Distinct;
    FollowingElements(ring, k, e);
  }

  /** Insert an element into the ring behind another one. */
  method Insert(pPrev: Entry?, pElement: Entry?, ghost ring: seq<Entry>, ghost k: nat) returns (r: int)
    requires pPrev != null && pElement != null ==>
      Linked(ring) && k < |ring| && ring[k] == pPrev && pElement !in ring
    modifies (if pPrev != null && pElement != null then {pPrev, pElement} + Elements(ring) else {})`pNext
    modifies (if pPrev != null && pElement != null then {pPrev, pElement} + Elements(ring) else {})`pPrev
    ensures r == if pPrev == null || pElement == null then -EINVAL else 0
    ensures r == 0 ==> Linked(Following(ring, k, pElement))
  {
    if pPrev == null || pElement == null {
      return -EINVAL;
    }
    hide Following;
    assert forall i :: 0 <= i < |ring| ==> ring[i] != pElement;
    assert pPrev.pNext == if k == |ring| - 1 then ring[0] else ring[k + 1];
    pElement.pPrev := pPrev;
    pElement.pNext := pPrev.pNext;
    pPrev.pNext.pPrev := pElement;
    pPrev.pNext := pElement;
    LinkedFollowing(ring, k, pElement);
    r := 0;
  }

  /** Take an element out of the ring; the anchors stay in. */
  method Remove(pElement: Entry?, anchorFree: Entry, anchorActive: Entry, ghost ring: seq<Entry>, ghost k: nat)
    returns (r: int)
    requires pElement != null && pElement != anchorFree && pElement != anchorActive ==>
      Linked(ring) && 0 < k < |ring| && ring[k] == pElement
    modifies (if pElement != null && pElement != anchorFree && pElement != anchorActive
              then Elements(ring) else {})`pNext
    modifies (if pElement != null && pElement != anchorFree && pElement != anchorActive
              then Elements(ring) else {})`pPrev
    ensures r == if pElement == null then -EINVAL
                 else if pElement == anchorFree || pElement == anchorActive then -ENOENT else 0
    ensures r == 0 ==> Linked(Omitting(ring, k)) && pElement !in Omitting(ring, k)
    ensures r == 0 ==> pElement.pNext == null && pElement.pPrev == null
  {
    if pElement == null {
      return -EINVAL;
    }
    if pElement == anchorFree || pElement == anchorActive {
      return -ENOENT;
    }
    OmittingElements(ring, k);
    assert pElement.pPrev == ring[k - 1];
    assert pElement.pNext == if k == |ring| - 1 then ring[0] else ring[k + 1];
    pElement.pPrev.pNext := pElement.pNext;
    pElement.pNext.pPrev := pElement.pPrev;
    pElement.pPrev := null;
    pElement.pNext := null;
    r := 0;
  }

  /** The first entry in the ring, seen from its anchor, that has this block. */
  method FindPointer(p: nat, anchor: Entry?, ghost ring: seq<Entry>) returns (pEntry: Entry?, ghost k: nat)
    requires anchor != null ==> Linked(ring) && ring[0] == anchor
    ensures anchor == null ==> pEntry == null
    ensures anchor != null && pEntry == null ==> p == NULL || forall i :: 0 < i < |ring| ==> ring[i].p != p
    ensures pEntry != null ==>
      && anchor != null && 0 < k < |ring| && ring[k] == pEntry && pEntry.p == p != NULL
      && forall i :: 0 < i < k ==> ring[i].p != p
  {
    pEntry := null;
    k := 0;
    if anchor != null {
      assert ring[0].pNext == if |ring| == 1 then ring[0] else ring[1];
      pEntry := anchor.pNext;
      k := 1;
      while pEntry != anchor
        invariant 0 < k <= |ring| && pEntry == if k == |ring| then ring[0] else ring[k]
        invariant forall i :: 0 < i < k ==> ring[i].p == NULL || ring[i].p != p
        decreases |ring| - k
      {
        if pEntry.p != NULL && pEntry.p == p {
          break;
        }
        pEntry := pEntry.pNext;
        k := k + 1;
      }
      if pEntry == anchor {
        pEntry := null;
      }
    }
  }

  // ---------- what the guard does, on the lists alone ----------

  /** The free list is a queue: freed descriptors enter at the front, the last one is used next. */
  datatype Op<T> = Use | Release(e: T)

  function Rest<T>(free: seq<T>, ops: seq<Op<T>>): seq<T>
    decreases |ops|
  {
    if |ops| == 0 then free
    else match ops[0]
      case Use => Rest(if |free| == 0 then free else free[..|free| - 1], ops[1..])
      case Release(e) => Rest([e] + free, ops[1..])
  }

  function Used<T>(free: seq<T>, ops: seq<Op<T>>): seq<T>
    decreases |ops|
  {
    if |ops| == 0 then []
    else match ops[0]
      case Use =>
        if |free| == 0 then Used(free, ops[1..]) else [free[|free| - 1]] + Used(free[..|free| - 1], ops[1..])
      case Release(e) => Used([e] + free, ops[1..])
  }

  function Released<T>(ops: seq<Op<T>>): seq<T> {
    if |ops| == 0 then []
    else if ops[0].Use? then Released(ops[1..]) else [ops[0].e] + Released(ops[1..])
  }

  function Reversed<T>(s: seq<T>): (r: seq<T>)
    ensures |r| == |s|
  {
    if |s| == 0 then [] else Reversed(s[1..]) + [s[0]]
  }

  lemma {:induction false} ReversedLast<T>(s: seq<T>)
    requires |s| > 0
    ensures Reversed(s) == [s[|s| - 1]] + Reversed(s[..|s| - 1])
  {
    if |s| > 1 {
      ReversedLast(s[1..]);
      assert s[1..][..|s| - 2] == s[..|s| - 1][1..];
    }
  }

  /** In every run, descriptors are used in the order in which they have become free. */
  lemma {:induction false} FirstFreedFirstUsed<T>(free: seq<T>, ops: seq<Op<T>>)
    ensures Used(free, ops) + Reversed(Rest(free, ops)) == Reversed(free) + Released(ops)
    decreases |ops|
  {
    if |ops| > 0 {
      var rest := ops[1..];
      if ops[0].Use? && |free| > 0 {
        var l, front := free[|free| - 1], free[..|free| - 1];
        FirstFreedFirstUsed(front, rest);
        ReversedLast(free);
        Regroup([l], Used(front, rest), Reversed(Rest(front, rest)));
        Regroup([l], Reversed(front), Released(rest));
      } else if ops[0].Use? {
        FirstFreedFirstUsed(free, rest);
      } else {
        var e := ops[0].e;
        FirstFreedFirstUsed([e] + free, rest);
        assert ([e] + free)[1..] == free;
        Regroup(Reversed(free), [e], Released(rest));
      }
    }
  }

  /** The free list and the descriptors used so far are what the operations have made of the first free list. */
  ghost predicate Logged<T>(free: seq<T>, used: seq<T>, start: seq<T>, log: seq<Op<T>>) {
    free == Rest(start, log) && used == Used(start, log)
  }

  /** One more operation. */
  lemma {:induction false} OneMoreOp<T>(start: seq<T>, log: seq<Op<T>>, op: Op<T>)
    ensures Rest(start, log + [op]) == Rest(Rest(start, log), [op])
    ensures Used(start, log + [op]) == Used(start, log) + Used(Rest(start, log), [op])
    decreases |log|
  {
    if |log| == 0 {
      assert log + [op] == [op];
    } else {
      var rest := log[1..];
      assert (log + [op])[0] == log[0] && (log + [op])[1..] == rest + [op];
      match log[0]
      case Release(e) => OneMoreOp([e] + start, rest, op);
      case Use =>
        if |start| == 0 {
          OneMoreOp(start, rest, op);
        } else {
          var next := start[..|start| - 1];
          OneMoreOp(next, rest, op);
          Regroup([start[|start| - 1]], Used(next, rest), Used(Rest(next, rest), [op]));
        }
    }
  }

  lemma UseIsLogged<T>(free: seq<T>, used: seq<T>, start: seq<T>, log: seq<Op<T>>)
    requires Logged(free, used, start, log)
    ensures free == [] ==> Logged(free, used, start, log + [Use])
    ensures free != [] ==>
              Logged(free[..|free| - 1], used + [free[|free| - 1]], start, log + [Use])
  {
    OneMoreOp(start, log, Use);
    assert [Op<T>.Use][1..] == [];
    assert used + [] == used;
  }

  lemma ReleaseIsLogged<T>(free: seq<T>, used: seq<T>, start: seq<T>, log: seq<Op<T>>, e: T)
    requires Logged(free, used, start, log)
    ensures Logged([e] + free, used, start, log + [Release(e)])
  {
    OneMoreOp(start, log, Release(e));
    assert [Release(e)][1..] == [];
    assert used + [] == used;
  }

  lemma RingMembers(anchor: Entry, s: seq<Entry>)
    ensures Elements([anchor] + s) == Elements(s) + {anchor}
  {
  }

  lemma RingParts(anchor: Entry, s: seq<Entry>)
    requires Linked([anchor] + s)
    ensures Distinct(s) && anchor !in s && Elements([anchor] + s) == Elements(s) + {anchor}
  {
    var ring := [anchor] + s;
    assert forall i :: 0 <= i < |s| ==> ring[i + 1] == s[i];
  }

  predicate Apart(r1: seq<Entry>, r2: seq<Entry>) {
    forall x :: x in r1 ==> x !in r2
  }

  /** An element enters a ring behind its anchor; another ring is not touched. */
  method InsertFront(anchor: Entry, e: Entry, ghost s: seq<Entry>, ghost other: seq<Entry>)
    requires Linked([anchor] + s) && e !in [anchor] + s && e !in other
    requires Linked(other) && (Apart([anchor] + s, other) || Apart(other, [anchor] + s))
    modifies anchor`pNext, anchor`pPrev, e`pNext, e`pPrev, s`pNext, s`pPrev
    ensures Linked([anchor] + ([e] + s)) && Linked(other)
  {
    ghost var ring := [anchor] + s;
    assert forall x :: x in Elements(ring) ==> x == anchor || x in s;
    assert Following(ring, 0, e) == [anchor] + ([e] + s);
    hide Following;
    var _ := Insert(anchor, e, ring, 0);
  }

  /** An element leaves the ring of an anchor; another ring is not touched. */
  method TakeOut(e: Entry, anchorFree: Entry, anchorActive: Entry, ghost anchor: Entry, ghost s: seq<Entry>,
                 ghost k: nat, ghost other: seq<Entry>)
    requires Linked([anchor] + s) && k < |s| && e == s[k] && e != anchorFree && e != anchorActive
    requires Linked(other) && (Apart([anchor] + s, other) || Apart(other, [anchor] + s))
    modifies anchor`pNext, anchor`pPrev, s`pNext, s`pPrev
    ensures Linked([anchor] + Omitting(s, k)) && Linked(other)
  {
    ghost var ring := [anchor] + s;
    assert forall x :: x in Elements(ring) ==> x == anchor || x in s;
    assert ring[k + 1] == e && Omitting(ring, k + 1) == [anchor] + Omitting(s, k);
    hide Omitting;
    var _ := Remove(e, anchorFree, anchorActive, ring, k + 1);
  }

  /** Tracked blocks are live, and if only live blocks have been freed, the live ones are counted. */
  ghost predicate Accounts(blocks: seq<nat>, live: set<nat>, clean: bool, count: int) {
    NULL !in live && (forall b :: b in blocks ==> b in live) && (clean ==> count == |live|)
  }

  lemma AccountsAfterMalloc(blocks: seq<nat>, live: set<nat>, clean: bool, count: int, block: nat)
    requires Accounts(blocks, live, clean, count) && block !in live && block != NULL
    ensures block !in blocks
    ensures Accounts(blocks, live + {block}, clean, count + 1)
    ensures Accounts([block] + blocks, live + {block}, clean, count + 1)
  {
  }

  lemma AccountsAfterFree(blocks: seq<nat>, live: set<nat>, clean: bool, count: int, rest: seq<nat>, p: nat)
    requires Accounts(blocks, live, clean, count) && Elements(rest) == Elements(blocks) - {p}
    ensures Accounts(rest, live - {p}, clean && p in live, if count > 0 then count - 1 else count)
    ensures clean && p in live ==> count > 0
  {
    assert forall b :: b in rest ==> b in Elements(rest);
  }

  method MakePool() returns (fixed: seq<Entry>)
    ensures |fixed| == LIST_SIZE && Distinct(fixed) && fresh(Elements(fixed))
    ensures forall e :: e in fixed ==> e.p == NULL
  {
    fixed := [];
    while |fixed| < LIST_SIZE
      invariant |fixed| <= LIST_SIZE && Distinct(fixed) && fresh(Elements(fixed))
      invariant forall e :: e in fixed ==> e.p == NULL
    {
      var e := new Entry();
      assert e !in fixed && Elements(fixed + [e]) == Elements(fixed) + {e};
      fixed := fixed + [e];
    }
  }

  class Guard {
    const anchorFree: Entry
    const anchorActive: Entry
    ghost const pool: set<Entry>
    ghost var free: seq<Entry>
    ghost var active: seq<Entry>
    ghost var blocks: seq<nat>   // the block of each active descriptor
    ghost var live: set<nat>     // the blocks that malloc has returned and that have not been freed
    ghost var clean: bool        // only such blocks have been freed
    ghost var start: seq<Entry>  // the free list at the beginning
    ghost var log: seq<Op<Entry>>
    ghost var used: seq<Entry>   // the descriptors that have been used, in order
    var nofAllocated: int
    var maxAllocated: int
    var nofAllocations: int

    ghost function FreeRing(): seq<Entry>
      reads this`free
    {
      [anchorFree] + free
    }

    ghost function ActiveRing(): seq<Entry>
      reads this`active
    {
      [anchorActive] + active
    }

    /** The two lists are well-formed and share out these descriptors. */
    ghost predicate Chains(held: set<Entry>)
      reads this`free, this`active, anchorFree`pNext, anchorFree`pPrev, anchorActive`pNext, anchorActive`pPrev
      reads held`pNext, held`pPrev
    {
      && anchorFree != anchorActive && anchorFree !in held && anchorActive !in held
      && held == Elements(free) + Elements(active) && Elements(free) !! Elements(active)
      && Linked(FreeRing()) && Linked(ActiveRing())
    }

    /** Every active descriptor has its own block, and a free one has none. */
    ghost predicate Books()
      reads this`free, this`active, this`blocks, free`p, active`p
    {
      && |blocks| == |active| && Distinct(blocks) && NULL !in blocks
      && (forall i :: 0 <= i < |active| ==> active[i].p == blocks[i])
      && (forall e :: e in free ==> e.p == NULL)
    }

    ghost predicate Lists()
      reads this`free, this`active, this`blocks, anchorFree, anchorActive, pool
    {
      Chains(pool) && Books() && |free| + |active| == LIST_SIZE
    }

    ghost predicate Valid()
      reads this, anchorFree, anchorActive, pool
    {
      && Lists()
      && Accounts(blocks, live, clean, nofAllocated) && Logged(free, used, start, log)
    }

    /** Descriptors are used in the order in which they have become free. */
    lemma UsedInOrder()
      requires Valid()
      ensures used + Reversed(free) == Reversed(start) + Released(log)
    {
      FirstFreedFirstUsed(start, log);
    }

    constructor ()
      ensures Valid() && |free| == LIST_SIZE && active == [] && live == {} && clean
      ensures start == free && log == [] && used == []
      ensures fresh(anchorFree) && fresh(anchorActive) && fresh(pool)
    {
      var fixed := MakePool();
      var f := new Entry();
      var a := new Entry();
      anchorFree, anchorActive, pool := f, a, Elements(fixed);
      free, active, blocks, live, clean, log, used := [], [], [], {}, true, [], [];
      nofAllocated, maxAllocated, nofAllocations := 0, 0, 0;
      new;
      hide Linked;
      Init(fixed);
    }

    method Init(fixed: seq<Entry>)
      requires free == [] && active == [] && blocks == [] && live == {} && nofAllocated == 0 && clean
      requires log == [] && used == []
      requires |fixed| == LIST_SIZE && Distinct(fixed) && pool == Elements(fixed)
      requires anchorFree != anchorActive && anchorFree !in fixed && anchorActive !in fixed
      requires forall e :: e in fixed ==> e.p == NULL
      modifies this`free, this`start, anchorFree`pNext, anchorFree`pPrev, anchorActive`pNext, anchorActive`pPrev
      modifies pool`pNext, pool`pPrev
      ensures Valid() && |free| == LIST_SIZE && start == free
    {
      hide Linked, Logged;
      EmptyRings();
      Fill(fixed);
      assert forall e :: e in free ==> e in Elements(free);
      EmptyLog();
      start := free;
    }

    lemma EmptyLog()
      ensures Logged(free, [], free, [])
    {
    }

    method EmptyRings()
      requires free == [] && active == [] && anchorFree != anchorActive
      modifies anchorFree`pNext, anchorFree`pPrev, anchorActive`pNext, anchorActive`pPrev
      ensures Chains({})
    {
      anchorFree.pNext, anchorFree.pPrev := anchorFree, anchorFree;
      anchorActive.pNext, anchorActive.pPrev := anchorActive, anchorActive;
      assert Linked(FreeRing()) && Linked(ActiveRing());
    }

    /** Put all descriptors into the free list. */
    method Fill(fixed: seq<Entry>)
      requires Chains({}) && anchorFree !in fixed && anchorActive !in fixed && Distinct(fixed)
      requires free == []
      modifies this`free, anchorFree`pNext, anchorFree`pPrev, Elements(fixed)`pNext, Elements(fixed)`pPrev
      ensures Chains(Elements(fixed)) && |free| == |fixed|
    {
      var i := 0;
      hide Linked;
      while i < |fixed|
        invariant i <= |fixed| && |free| == i && Chains(Elements(fixed[..i]))
      {
        assert fixed[..i + 1] == fixed[..i] + [fixed[i]];
        assert fixed[i] !in fixed[..i];
        assert Elements(fixed[..i + 1]) == Elements(fixed[..i]) + {fixed[i]};
        PutFree(fixed[i], Elements(fixed[..i]));
        i := i + 1;
      }
      assert fixed[..i] == fixed;
    }

    /** The two rings have no element in common. */
    lemma RingsApart(held: set<Entry>)
      requires Chains(held)
      ensures Apart(FreeRing(), ActiveRing()) && Distinct(free) && Distinct(active)
      ensures forall x :: x in FreeRing() || x in ActiveRing() ==> x in held || x == anchorFree || x == anchorActive
      ensures forall x :: x in free || x in active ==> x in held && x != anchorFree && x != anchorActive
      ensures forall x :: x in free ==> x !in active
    {
      RingParts(anchorFree, free);
      RingParts(anchorActive, active);
      assert forall e :: e in free <==> e in Elements(free);
      assert forall e :: e in active <==> e in Elements(active);
    }

    /** Insert a descriptor into the free list, at its front. */
    method PutFree(e: Entry, ghost held: set<Entry>)
      requires Chains(held) && e !in held && e != anchorFree && e != anchorActive
      modifies this`free, anchorFree`pNext, anchorFree`pPrev, held`pNext, held`pPrev, e`pNext, e`pPrev
      ensures free == [e] + old(free) && Chains(held + {e})
    {
      RingsApart(held);
      RingMembers(e, free);
      hide Linked, Distinct, Elements, Apart;
      InsertFront(anchorFree, e, free, ActiveRing());
      free := [e] + free;
    }

    /** Take a descriptor out of the free list, at its end. */
    method TakeFree(ghost held: set<Entry>) returns (e: Entry)
      requires Chains(held) && free != []
      modifies this`free, anchorFree`pNext, anchorFree`pPrev, held`pNext, held`pPrev
      ensures e == old(free)[|old(free)| - 1] && free == old(free)[..|old(free)| - 1]
      ensures e in held && e != anchorFree && e != anchorActive && Chains(held - {e})
    {
      RingsApart(held);
      ghost var k := |free| - 1;
      OmittingElements(free, k);
      assert anchorFree.pPrev == FreeRing()[k + 1] == free[k] && Omitting(free, k) == free[..k];
      hide Linked, Distinct, Omitting, Elements, Apart;
      e := anchorFree.pPrev;
      TakeOut(e, anchorFree, anchorActive, anchorFree, free, k, ActiveRing());
      free := free[..k];
    }

    /** Insert a descriptor into the active list, at its front. */
    method Activate(e: Entry, ghost held: set<Entry>)
      requires Chains(held) && e !in held && e != anchorFree && e != anchorActive
      modifies this`active, anchorActive`pNext, anchorActive`pPrev, held`pNext, held`pPrev, e`pNext, e`pPrev
      ensures active == [e] + old(active) && Chains(held + {e})
    {
      RingsApart(held);
      RingMembers(e, active);
      hide Linked, Distinct, Elements, Apart;
      InsertFront(anchorActive, e, active, FreeRing());
      active := [e] + active;
    }

    /** Take a descriptor out of the active list. */
    method Deactivate(e: Entry, ghost k: nat, ghost held: set<Entry>)
      requires Chains(held) && k < |active| && e == active[k]
      modifies this`active, anchorActive`pNext, anchorActive`pPrev, held`pNext, held`pPrev
      ensures active == Omitting(old(active), k)
      ensures e in held && e != anchorFree && e != anchorActive && Chains(held - {e})
    {
      RingsApart(held);
      OmittingElements(active, k);
      hide Linked, Distinct, Omitting, Elements, Apart;
      TakeOut(e, anchorFree, anchorActive, anchorActive, active, k, FreeRing());
      active := Omitting(active, k);
    }

    /** Use the last free descriptor for a block, if there is one. */
    method Track(block: nat)
      requires Lists() && block != NULL && block !in blocks
      modifies this`free, this`active, this`blocks, anchorFree, anchorActive, pool
      ensures Lists()
      ensures Tracked(old(free), old(active), old(blocks), block)
    {
      LastFree();
      hide Lists;
      if anchorFree.pPrev != anchorFree {
        UseLast(block);
      }
    }

    lemma LastFree()
      requires Lists()
      ensures anchorFree.pPrev == anchorFree <==> free == []
    {
      assert anchorFree.pPrev == FreeRing()[|free|];
    }

    method UseLast(block: nat)
      requires Lists() && block != NULL && block !in blocks && free != []
      modifies this`free, this`active, this`blocks, anchorFree, anchorActive, pool
      ensures Lists()
      ensures free == old(free)[..|old(free)| - 1] && blocks == [block] + old(blocks)
      ensures active == [old(free)[|old(free)| - 1]] + old(active)
    {
      hide Chains, Distinct, Linked, Elements;
      DistinctFront(block, blocks);
      MoveLast(block);
      blocks := [block] + blocks;
    }

    /** The last free descriptor becomes the first active one, and has this block. */
    method MoveLast(block: nat)
      requires Chains(pool) && free != []
      modifies this`free, this`active, anchorFree, anchorActive, pool
      ensures Chains(pool)
      ensures free == old(free)[..|old(free)| - 1] && active == [old(free)[|old(free)| - 1]] + old(active)
      ensures active[0].p == block
      ensures forall x :: x in free || x in old(active) ==> x.p == old(x.p)
    {
      RingsApart(pool);
      assert free[|free| - 1] !in free[..|free| - 1];
      hide Linked, Distinct, Elements, Apart;
      var pEntry := TakeFree(pool);
      pEntry.p := block;
      hide Chains;
      Activate(pEntry, pool - {pEntry});
      assert pool - {pEntry} + {pEntry} == pool;
    }

    /** The last free descriptor has become the first active one. */
    ghost predicate Tracked(free0: seq<Entry>, active0: seq<Entry>, blocks0: seq<nat>, block: nat)
      reads this`free, this`active, this`blocks
    {
      if free0 == [] then free == free0 && active == active0 && blocks == blocks0
      else
        && free == free0[..|free0| - 1] && active == [free0[|free0| - 1]] + active0
        && blocks == [block] + blocks0
    }

    /** A block has been allocated, and the last free descriptor is about to be used for it. */
    method CountAllocation(block: nat)
      requires Accounts(blocks, live, clean, nofAllocated) && block !in live && block != NULL
      requires Logged(free, used, start, log)
      modifies this`nofAllocations, this`nofAllocated, this`maxAllocated, this`live, this`log, this`used
      ensures nofAllocations == old(nofAllocations) + 1 && nofAllocated == old(nofAllocated) + 1
      ensures maxAllocated == if nofAllocated > old(maxAllocated) then nofAllocated else old(maxAllocated)
      ensures log == old(log) + [Use]
      ensures used == if free == [] then old(used) else old(used) + [free[|free| - 1]]
      ensures Logged(if free == [] then free else free[..|free| - 1], used, start, log)
      ensures live == old(live) + {block} && block !in blocks
      ensures Accounts(blocks, live, clean, nofAllocated) && Accounts([block] + blocks, live, clean, nofAllocated)
    {
      AccountsAfterMalloc(blocks, live, clean, nofAllocated, block);
      UseIsLogged(free, used, start, log);
      hide Accounts, Logged;
      used, log := if free == [] then used else used + [free[|free| - 1]], log + [Use];
      nofAllocations := nofAllocations + 1;
      nofAllocated := nofAllocated + 1;
      if nofAllocated > maxAllocated {
        maxAllocated := nofAllocated;
      }
      live := live + {block};
    }

    /** The system's malloc has returned this block, or NULL. */
    method Malloc(block: nat)
      requires Valid() && block !in live
      modifies this, anchorFree, anchorActive, pool
      ensures Valid() && clean == old(clean)
      ensures live == if block == NULL then old(live) else old(live) + {block}
      ensures block == NULL ==> free == old(free) && active == old(active) && blocks == old(blocks)
      ensures block != NULL ==> Tracked(old(free), old(active), old(blocks), block)
      ensures start == old(start) && log == if block == NULL then old(log) else old(log) + [Use]
      ensures used == if block != NULL && old(free) != [] then old(used) + [active[0]] else old(used)
    {
      hide Lists, Accounts, Logged, Tracked;
      if block != NULL {
        Allocated(block);
      }
    }

    method Allocated(block: nat)
      requires Valid() && block !in live && block != NULL
      modifies this, anchorFree, anchorActive, pool
      ensures Valid() && clean == old(clean) && start == old(start)
      ensures live == old(live) + {block} && log == old(log) + [Use]
      ensures Tracked(old(free), old(active), old(blocks), block) && (old(free) != [] ==> active != [])
      ensures used == if old(free) != [] then old(used) + [active[0]] else old(used)
    {
      hide Lists, Accounts, Logged;
      CountAllocation(block);
      Track(block);
    }

    /** Its descriptor has become the first free one. */
    ghost predicate Untracked(free0: seq<Entry>, active0: seq<Entry>, blocks0: seq<nat>, p: nat)
      reads this`free, this`active, this`blocks
    {
      if p !in blocks0 then free == free0 && active == active0 && blocks == blocks0
      else exists k ::
        && 0 <= k < |blocks0| == |active0| && blocks0[k] == p
        && free == [active0[k]] + free0 && active == Omitting(active0, k) && blocks == Omitting(blocks0, k)
    }

    method FindActive(p: nat) returns (pEntry: Entry?, ghost k: nat)
      requires Chains(pool) && Books() && p != NULL
      ensures pEntry == null <==> p !in blocks
      ensures pEntry != null ==> k < |active| && pEntry == active[k] && blocks[k] == p
    {
      ghost var i;
      pEntry, i := FindPointer(p, anchorActive, ActiveRing());
      k := if i > 0 then i - 1 else 0;
      assert forall j :: 0 <= j < |active| ==> ActiveRing()[j + 1] == active[j];
    }

    /** Release the descriptor of a block, if it has one. */
    method Untrack(p: nat) returns (found: bool)
      requires Lists() && p != NULL && Logged(free, used, start, log)
      modifies this`free, this`active, this`blocks, this`log, anchorFree, anchorActive, pool
      ensures Lists()
      ensures Logged(free, used, start, log) && (found ==> free != [])
      ensures log == if found then old(log) + [Release(free[0])] else old(log)
      ensures found == (p in old(blocks)) && Untracked(old(free), old(active), old(blocks), p)
      ensures Elements(blocks) == Elements(old(blocks)) - {p}
      ensures unchanged(this`live, this`clean, this`nofAllocated, this`start, this`used)
    {
      var pEntry, k := FindActive(p);
      found := pEntry != null;
      if pEntry != null {
        ReleaseIsLogged(free, used, start, log, pEntry);
        hide Lists, Logged;
        ReleaseAt(pEntry, k);
      }
    }

    method ReleaseAt(pEntry: Entry, ghost k: nat)
      requires Lists() && k < |active| == |blocks| && pEntry == active[k]
      modifies this`free, this`active, this`blocks, this`log, anchorFree, anchorActive, pool
      ensures Lists() && log == old(log) + [Release(pEntry)]
      ensures free == [pEntry] + old(free)
      ensures active == Omitting(old(active), k) && blocks == Omitting(old(blocks), k)
      ensures Elements(blocks) == Elements(old(blocks)) - {old(blocks)[k]}
    {
      hide Chains, Linked, Distinct, Elements;
      OmittingElements(blocks, k);
      Recycle(pEntry, k);
      blocks := Omitting(blocks, k);
      log := log + [Release(pEntry)];
    }

    method Recycle(pEntry: Entry, ghost k: nat)
      requires Chains(pool) && k < |active| && pEntry == active[k]
      modifies this`free, this`active, anchorFree, anchorActive, pool
      ensures Chains(pool)
      ensures free == [old(active)[k]] + old(free) && active == Omitting(old(active), k)
      ensures pEntry.p == NULL
      ensures forall x :: x in old(free) || x in active ==> x.p == old(x.p)
    {
      RingsApart(pool);
      OmittingElements(active, k);
      assert forall x :: x in Omitting(active, k) ==> x in Elements(Omitting(active, k));
      hide Linked, Distinct, Omitting, Elements, Apart;
      Deactivate(pEntry, k, pool);
      pEntry.p := NULL;
      PutFree(pEntry, pool - {pEntry});
      assert pool - {pEntry} + {pEntry} == pool;
    }

    /** A warning says that more blocks have been freed than allocated, or that the block is not tracked. */
    method Free(p: nat) returns (mismatch: bool, untracked: bool)
      requires Valid()
      modifies this, anchorFree, anchorActive, pool
      ensures Valid() && live == old(live) - {p}
      ensures clean == (old(clean) && (p == NULL || p in old(live)))
      ensures p == NULL ==> free == old(free) && active == old(active) && blocks == old(blocks)
      ensures p != NULL ==> Untracked(old(free), old(active), old(blocks), p)
      ensures untracked == (p != NULL && p !in old(blocks)) && (clean ==> !mismatch)
      ensures mismatch == (p != NULL && old(nofAllocated) <= 0)
      ensures nofAllocated == if p != NULL && old(nofAllocated) > 0 then old(nofAllocated) - 1 else old(nofAllocated)
      ensures start == old(start) && used == old(used)
      ensures log == if p != NULL && p in old(blocks) then old(log) + [Release(free[0])] else old(log)
    {
      mismatch, untracked := false, false;
      if p != NULL {
        ghost var blocks0, live0, clean0, count := blocks, live, clean, nofAllocated;
        hide Lists, Accounts, Untracked, Elements, Logged;
        if nofAllocated > 0 {
          nofAllocated := nofAllocated - 1;
        } else {
          mismatch := true;
        }
        live, clean := live - {p}, clean && p in live;
        var found := Untrack(p);
        untracked := !found;
        AccountsAfterFree(blocks0, live0, clean0, count, blocks, p);
      }
    }

    /** At the end, the blocks that are still tracked are reported, the oldest one first. */
    method Exit() returns (leftover: seq<nat>)
      requires Valid()
      modifies this`active, this`blocks, anchorActive, pool
      ensures leftover == Reversed(old(blocks)) && active == []
    {
      leftover := [];
      ghost var held := pool;
      assert Reversed<nat>([]) == [];
      assert anchorActive.pPrev == ActiveRing()[|active|];
      hide Linked, Distinct, Reversed;
      while anchorActive.pPrev != anchorActive
        invariant held <= pool && Chains(held) && Books()
        invariant anchorActive.pPrev == ActiveRing()[|active|]
        invariant leftover + Reversed(blocks) == Reversed(old(blocks))
        decreases |active|
      {
        var e := anchorActive.pPrev;
        ghost var k := |active| - 1;
        ReversedLast(blocks);
        Regroup(leftover, [blocks[k]], Reversed(blocks[..k]));
        leftover := leftover + [e.p];
        Drop(e, held);
        held := held - {e};
      }
      assert active == [] && blocks == [];
      assert leftover + [] == leftover;
    }

    method Drop(e: Entry, ghost held: set<Entry>)
      requires Chains(held) && Books() && active != [] && e == active[|active| - 1]
      modifies this`active, this`blocks, anchorActive, held
      ensures e in held && Chains(held - {e}) && Books()
      ensures active == old(active)[..|old(active)| - 1] && blocks == old(blocks)[..|old(blocks)| - 1]
      ensures anchorActive.pPrev == ActiveRing()[|active|]
    {
      ghost var k := |active| - 1;
      assert Distinct(blocks[..k]) && Omitting(active, k) == active[..k];
      assert blocks[..k] == Omitting(blocks, k);
      DropOne(e, k, held);
      assert Linked(ActiveRing());
    }

    method DropOne(e: Entry, ghost k: nat, ghost held: set<Entry>)
      requires Chains(held) && Books() && k < |active| && e == active[k] && Distinct(Omitting(blocks, k))
      modifies this`active, this`blocks, anchorActive, held
      ensures e in held && Chains(held - {e}) && Books()
      ensures active == Omitting(old(active), k) && blocks == Omitting(old(blocks), k)
    {
      hide Linked, Distinct;
      Deactivate(e, k, held);
      blocks := Omitting(blocks, k);
    }
  }
}
