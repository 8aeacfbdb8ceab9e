/**
 What the memory guard reports at the end of a program: of the blocks that have not been freed, those that came
 when there was a descriptor left.
 */
module GuardLaws {
  import opened MemoryGuard

  /** These blocks, and no others, are live and tracked. */
  ghost predicate Tracks(g: Guard, live: seq<nat>, tracked: seq<nat>)
    reads g, g.anchorFree, g.anchorActive, g.pool
  {
    && g.Valid() && g.clean && g.live == Elements(live)
    && Reversed(g.blocks) == tracked && |tracked| == |g.blocks| == |g.active| && |g.free| == 100 - |tracked|
  }

  method NewGuard() returns (g: Guard)
    ensures Tracks(g, [], []) && fresh(g) && fresh(g.anchorFree) && fresh(g.anchorActive) && fresh(g.pool)
  {
    g := new Guard();
    NothingTracked(g);
  }

  lemma NothingTracked(g: Guard)
    requires g.Valid() && |g.free| == LIST_SIZE && g.active == [] && g.live == {} && g.clean
    ensures Tracks(g, [], [])
  {
  }

  /** A block is tracked if fewer than 100 others are. */
  method Allocate(g: Guard, b: nat, ghost live: seq<nat>, ghost tracked: seq<nat>)
    requires Tracks(g, live, tracked) && b !in live && b != 0
    modifies g, g.anchorFree, g.anchorActive, g.pool
    ensures Tracks(g, live + [b], if |tracked| < 100 then tracked + [b] else tracked)
  {
    assert Elements(live + [b]) == Elements(live) + {b};
    g.Malloc(b);
  }

  lemma {:induction false} ReversedOmitting<T>(s: seq<T>, k: nat)
    requires k < |s|
    ensures Reversed(s)[|s| - 1 - k] == s[k]
    ensures Reversed(Omitting(s, k)) == Omitting(Reversed(s), |s| - 1 - k)
  {
    if k == 0 {
      assert Omitting(s, 0) == s[1..];
    } else {
      assert Omitting(s, k)[1..] == Omitting(s[1..], k - 1);
      ReversedOmitting(s[1..], k - 1);
    }
  }

  /** A live block is released without a warning if it is tracked at position j, and with one if it is not tracked. */
  method Release(g: Guard, ghost live: seq<nat>, ghost i: nat, ghost tracked: seq<nat>, ghost j: nat, p: nat)
    returns (mismatch: bool, untracked: bool)
    requires Tracks(g, live, tracked) && Distinct(live) && i < |live| && live[i] == p && p != 0
    requires Distinct(tracked) && (p in tracked ==> j < |tracked| && tracked[j] == p)
    modifies g, g.anchorFree, g.anchorActive, g.pool
    ensures !mismatch && untracked == (p !in tracked)
    ensures Tracks(g, Omitting(live, i), if p in tracked then Omitting(tracked, j) else tracked)
  {
    ghost var blocks := g.blocks;
    ReversedElements(blocks);
    OmittingElements(live, i);
    mismatch, untracked := g.Free(p);
    if p in blocks {
      ghost var k :| 0 <= k < |blocks| && blocks[k] == p && g.blocks == Omitting(blocks, k);
      ReversedOmitting(blocks, k);
      assert tracked[|blocks| - 1 - k] == p;
    }
  }

  lemma {:induction false} ReversedElements<T>(s: seq<T>)
    ensures forall e :: e in Reversed(s) <==> e in s
  {
    if |s| > 0 {
      ReversedElements(s[1..]);
    }
  }

  function FirstHundred(bs: seq<nat>): seq<nat> {
    if |bs| <= 100 then bs else bs[..100]
  }

  lemma OneMore(bs: seq<nat>, i: nat)
    requires i < |bs|
    ensures var first := FirstHundred(bs[..i]);
            FirstHundred(bs[..i + 1]) == if |first| < 100 then first + [bs[i]] else first
  {
    assert i >= 100 ==> bs[..i + 1][..100] == bs[..i][..100];
  }

  /** Of the blocks that are allocated one after the other the first 100 are tracked. */
  method AllocateAll(bs: seq<nat>) returns (g: Guard)
    requires Distinct(bs) && 0 !in bs
    ensures Tracks(g, bs, FirstHundred(bs))
    ensures fresh(g) && fresh(g.anchorFree) && fresh(g.anchorActive) && fresh(g.pool)
  {
    g := NewGuard();
    hide Tracks;
    var i := 0;
    while i < |bs|
      invariant i <= |bs| && Tracks(g, bs[..i], FirstHundred(bs[..i]))
      invariant fresh(g) && fresh(g.anchorFree) && fresh(g.anchorActive) && fresh(g.pool)
    {
      assert bs[..i + 1] == bs[..i] + [bs[i]];
      OneMore(bs, i);
      Allocate(g, bs[i], bs[..i], FirstHundred(bs[..i]));
      i := i + 1;
    }
    assert bs[..i] == bs;
  }

  /**
   A whole program: blocks are allocated, one of them is freed, another one is allocated. Freeing it gives a
   warning if it came when 100 others were tracked, and otherwise makes room for the new one.
   */
  method AllocateFreeAllocate(bs: seq<nat>, k: nat, b: nat) returns (warning: bool, leftover: seq<nat>)
    requires Distinct(bs + [b]) && 0 !in bs + [b] && k < |bs|
    ensures warning == (k >= 100)
    ensures k < 100 ==> leftover == FirstHundred(bs)[..k] + FirstHundred(bs)[k + 1..] + [b]
    ensures k >= 100 ==> leftover == bs[..100]
  {
    Parts(bs, b, k);
    var g := AllocateAll(bs);
    ghost var tracked := FirstHundred(bs);
    var mismatch, untracked := Release(g, bs, k, tracked, k, bs[k]);
    tracked := if k < 100 then Omitting(tracked, k) else tracked;
    Allocate(g, b, Omitting(bs, k), tracked);
    tracked := if |tracked| < 100 then tracked + [b] else tracked;
    leftover := Report(g, Omitting(bs, k) + [b], tracked);
    warning := mismatch || untracked;
  }

  method Report(g: Guard, ghost live: seq<nat>, ghost tracked: seq<nat>) returns (leftover: seq<nat>)
    requires Tracks(g, live, tracked)
    modifies g, g.anchorActive, g.pool
    ensures leftover == tracked
  {
    leftover := g.Exit();
  }

  lemma Parts(bs: seq<nat>, b: nat, k: nat)
    requires Distinct(bs + [b]) && 0 !in bs + [b] && k < |bs|
    ensures Distinct(bs) && 0 !in bs && b != 0 && b !in Omitting(bs, k)
    ensures Distinct(FirstHundred(bs)) && (bs[k] in FirstHundred(bs) <==> k < 100)
  {
    assert forall i :: 0 <= i < |bs| ==> (bs + [b])[i] == bs[i];
    assert (bs + [b])[|bs|] == b && b in bs + [b];
    if bs[k] in FirstHundred(bs) {
      var j :| 0 <= j < |FirstHundred(bs)| && FirstHundred(bs)[j] == bs[k];
      assert bs[j] == bs[k];
    }
    if k < 100 {
      assert FirstHundred(bs)[k] == bs[k];
    }
  }
}
