/**
 The history of the line editor: a ring of one hundred slots, one of which is always kept empty.
 */
module History {
  import opened Common

  const HIST_SIZE := 100

  datatype Slot = Null | Str(s: string)

  // ---------- lines ----------

  predicate BlankChar(c: char) {
    c == ' ' || c == '\t' || c == '\n'
  }

  predicate BlankLine(buf: string) {
    forall i :: 0 <= i < |buf| ==> BlankChar(buf[i])
  }

  /** The part behind leading blanks. */
  function Trimmed(buf: string): (p: string)
    ensures |p| <= |buf| && p == buf[|buf| - |p|..]
    ensures p == "" <==> BlankLine(buf)
  {
    if buf != "" && BlankChar(buf[0]) then Trimmed(buf[1..]) else buf
  }

  /** What is compared with the previous entry. */
  function Key(buf: string): string {
    if '\n' in Trimmed(buf) then buf[..|buf| - 1] else buf
  }

  /** What is kept of a line: with a newline in it, all but its last character. */
  function Saved(buf: string): string {
    if '\n' in buf then buf[..|buf| - 1] else buf
  }

  /** The list of entries after a line has been added. */
  function Added(list: seq<string>, buf: string): seq<string> {
    if BlankLine(buf) || (list != [] && list[|list| - 1] == Key(buf)) then list
    else list + [Saved(buf)]
  }

  function AllAdded(list: seq<string>, lines: seq<string>): seq<string> {
    if |lines| == 0 then list else Added(AllAdded(list, lines[..|lines| - 1]), lines[|lines| - 1])
  }

  lemma SavedIsNotEmpty(buf: string)
    requires !BlankLine(buf)
    ensures Saved(buf) != ""
  {
    if |buf| == 1 {
      assert buf[0] != '\n';
    }
  }

  /** A line as the editor returns it. */
  predicate EndsLine(buf: string) {
    forall i :: 0 <= i < |buf| && buf[i] == '\n' ==> i == |buf| - 1
  }

  predicate NoRepeats(list: seq<string>) {
    forall i :: 0 < i < |list| ==> list[i] != list[i - 1]
  }

  lemma KeyIsSaved(buf: string)
    requires EndsLine(buf) && !BlankLine(buf)
    ensures Key(buf) == Saved(buf)
  {
    var p := Trimmed(buf);
    if '\n' in buf {
      assert p[|p| - 1] == buf[|buf| - 1] == '\n';
    }
  }

  /** No entry is the same as the one before it, and none is blank. */
  lemma {:induction false} EntriesDiffer(lines: seq<string>)
    requires forall i :: 0 <= i < |lines| ==> EndsLine(lines[i])
    ensures NoRepeats(AllAdded([], lines))
  {
    if |lines| > 0 {
      var front, buf := lines[..|lines| - 1], lines[|lines| - 1];
      EntriesDiffer(front);
      if !BlankLine(buf) {
        KeyIsSaved(buf);
      }
    }
  }

  // ---------- searching ----------

  predicate MatchAt(p: string, s: string, i: nat) {
    i + |s| <= |p| && p[i..i + |s|] == s
  }

  /** The first occurrence of a string. */
  function StrStr(p: string, s: string): (r: Option<nat>)
    ensures r.Some? ==> MatchAt(p, s, r.value) && forall i: nat :: i < r.value ==> !MatchAt(p, s, i)
    ensures r.None? ==> forall i: nat :: !MatchAt(p, s, i)
  {
    FindFrom(p, s, 0)
  }

  function FindFrom(p: string, s: string, from: nat): (r: Option<nat>)
    requires from <= |p| + 1 && forall i: nat :: i < from ==> !MatchAt(p, s, i)
    ensures r.Some? ==> MatchAt(p, s, r.value) && forall i: nat :: i < r.value ==> !MatchAt(p, s, i)
    ensures r.None? ==> forall i: nat :: !MatchAt(p, s, i)
    decreases |p| + 1 - from
  {
    if MatchAt(p, s, from) then Some(from)
    else if from >= |p| then None
    else FindFrom(p, s, from + 1)
  }

  // ---------- the ring ----------

  /** How many entries can be recalled. */
  function Depth(n: nat): nat {
    if n < HIST_SIZE - 1 then n else HIST_SIZE - 1
  }

  /** The entry recalled at depth d; depth 0 is the line being typed, one step too far is nothing. */
  function Recall(list: seq<string>, d: nat): string {
    if 1 <= d <= Depth(|list|) then list[|list| - d] else ""
  }

  function Back(d: nat, n: nat): nat {
    if d <= n && d < HIST_SIZE - 1 then d + 1 else d
  }

  /** The slot of a number on the ring. */
  function At(n: int): (k: nat)
    ensures k < HIST_SIZE
  {
    n % HIST_SIZE
  }

  lemma AtStep(x: int)
    ensures (At(x) + 1) % HIST_SIZE == At(x + 1)
    ensures (At(x + 1) - 1 + HIST_SIZE) % HIST_SIZE == At(x)
  {
  }

  lemma SameSlot(n: int, d: nat)
    requires d <= HIST_SIZE
    ensures At(n - d) == At(n) <==> d == 0 || d == HIST_SIZE
  {
  }

  /** The content of a slot. */
  function SlotOf(list: seq<string>, k: nat): Slot {
    var d := At(|list| - k);
    if d == 0 then Str("") else if d <= |list| then Str(list[|list| - d]) else Null
  }

  lemma Distance(n: nat, d: nat)
    requires d < HIST_SIZE
    ensures At(n - At(n - d)) == d
  {
  }

  lemma SlotAt(list: seq<string>, d: nat)
    requires d < HIST_SIZE
    ensures SlotOf(list, At(|list| - d))
         == if d == 0 then Str("") else if d <= |list| then Str(list[|list| - d]) else Null
  {
    Distance(|list|, d);
  }

  lemma OneMore(n: nat, k: nat)
    requires k < HIST_SIZE
    ensures At(n + 1 - k) == if At(n - k) == HIST_SIZE - 1 then 0 else At(n - k) + 1
    ensures At(n + 1) == (At(n) + 1) % HIST_SIZE
    ensures At(n - k) == 0 <==> k == At(n)
    ensures At(n + 1 - k) == 0 <==> k == At(n + 1)
  {
    NextAt(n - k);
    NextAt(n);
    AtZero(n, k);
    AtZero(n + 1, k);
    hide At;
  }

  lemma NextAt(x: int)
    ensures At(x + 1) == if At(x) == HIST_SIZE - 1 then 0 else At(x) + 1
  {
  }

  lemma AtZero(n: nat, k: nat)
    requires k < HIST_SIZE
    ensures At(n - k) == 0 <==> k == At(n)
  {
  }

  lemma SlotsAfterAdding(list: seq<string>, line: string, k: nat)
    requires k < HIST_SIZE
    ensures SlotOf(list + [line], k)
         == if k == At(|list| + 1) then Str("") else if k == At(|list|) then Str(line) else SlotOf(list, k)
  {
    OneMore(|list|, k);
    hide At;
  }

  /** No entry at this depth has the string in it. */
  ghost predicate Misses(list: seq<string>, s: string, k: nat) {
    forall i: nat :: !MatchAt(Recall(list, k), s, i)
  }

  /** The nearest older entry that matches, or nothing if there is none. */
  ghost predicate FoundBack(list: seq<string>, s: string, from: nat, to: nat, p: string, cursor: nat) {
    if p == "" then forall k :: from < k <= Depth(|list|) ==> Misses(list, s, k)
    else
      && from < to <= Depth(|list|) && p == Recall(list, to) && StrStr(p, s) == Some(cursor)
      && forall k :: from < k < to ==> Misses(list, s, k)
  }

  ghost predicate FoundForw(list: seq<string>, s: string, from: nat, to: nat, p: string, cursor: nat) {
    if p == "" then forall k :: 1 <= k < from && k <= Depth(|list|) ==> Misses(list, s, k)
    else
      && 1 <= to < from && p == Recall(list, to) && StrStr(p, s) == Some(cursor)
      && forall k :: to < k < from && k <= Depth(|list|) ==> Misses(list, s, k)
  }

  class Ring {
    const hist_buf: array<Slot>
    var hist_pos: nat
    var hist_last: nat
    var prev: Slot             // the last entry
    var search_last: nat       // the last match
    ghost var list: seq<string>
    ghost var depth: nat

    ghost predicate Valid()
      reads this, hist_buf
    {
      && hist_buf.Length == HIST_SIZE && hist_last == At(|list|)
      && (forall k :: 0 <= k < HIST_SIZE ==> hist_buf[k] == SlotOf(list, k))
      && (forall i :: 0 <= i < |list| ==> list[i] != "")
      && prev == (if list == [] then Null else Str(list[|list| - 1]))
      && depth <= |list| + 1 && depth < HIST_SIZE
      && hist_pos == At(|list| - depth)
    }

    constructor ()
      ensures Valid() && list == [] && depth == 0 && fresh(hist_buf)
    {
      hist_buf := new Slot[HIST_SIZE](i => if i == 0 then Str("") else Null);
      hist_pos, hist_last, search_last := 0, 0, 0;
      prev, list, depth := Null, [], 0;
      new;
      assert forall k :: 0 <= k < HIST_SIZE ==> hist_buf[k] == SlotOf([], k);
    }

    method SkipBlanks(buf: string) returns (p: nat)
      ensures p <= |buf| && Trimmed(buf) == buf[p..]
    {
      p := 0;
      while p < |buf| && BlankChar(buf[p])
        invariant p <= |buf| && Trimmed(buf) == Trimmed(buf[p..])
      {
        assert buf[p..][1..] == buf[p + 1..];
        p := p + 1;
      }
    }

    /** The length without the newline. */
    method Measure(buf: string) returns (blank: bool, len: nat)
      ensures blank == BlankLine(buf)
      ensures !blank ==> len <= |buf| && buf[..len] == Key(buf)
    {
      var p := SkipBlanks(buf);
      blank := p == |buf|;
      len := |buf|;
      if !blank && '\n' in buf[p..] {
        len := len - 1;
      }
    }

    method Enter(buf: string)
      requires Valid() && !BlankLine(buf)
      modifies this`hist_last, this`hist_pos, this`prev, this`list, this`depth, hist_buf
      ensures Valid() && list == old(list) + [Saved(buf)] && depth == 0
    {
      hide At, SlotOf, Saved, BlankLine;
      SavedIsNotEmpty(buf);
      ghost var list1 := list + [Saved(buf)];
      forall k | 0 <= k < HIST_SIZE
        ensures SlotOf(list1, k)
             == if k == At(|list| + 1) then Str("") else if k == At(|list|) then Str(Saved(buf)) else SlotOf(list, k)
      {
        SlotsAfterAdding(list, Saved(buf), k);
      }
      OneMore(|list|, 0);
      hist_buf[hist_last] := Str(Saved(buf));
      prev := hist_buf[hist_last];
      hist_last := (hist_last + 1) % HIST_SIZE;
      hist_buf[hist_last] := Str("");
      list := list1;
      hist_pos := hist_last;
      depth := 0;
    }

    method Add(buf: string)
      requires Valid()
      modifies this, hist_buf
      ensures Valid() && list == Added(old(list), buf) && depth == 0
    {
      var blank, len := Measure(buf);
      hide At, SlotOf, BlankLine, Key, Saved;
      if !blank {
        if prev == Null || prev.s != buf[..len] {
          Enter(buf);
        }
      }
      hist_pos := hist_last;
      depth := 0;
    }

    /** Go back by one entry; the oldest one is left for nothing. */
    method Prev() returns (p: string)
      requires Valid()
      modifies this`hist_pos, this`depth
      ensures Valid() && depth == Back(old(depth), |list|)
      ensures p == if depth > old(depth) then Recall(list, depth) else ""
    {
      hide At, SlotOf;
      AtStep(|list| - depth - 1);
      SameSlot(|list|, depth + 1);
      SlotAt(list, depth);
      if depth < HIST_SIZE - 1 {
        SlotAt(list, depth + 1);
      }
      var next := (hist_pos - 1 + HIST_SIZE) % HIST_SIZE;
      p := "";
      if hist_buf[hist_pos] != Null && next != hist_last {
        hist_pos := next;
        depth := depth + 1;
        if hist_buf[hist_pos] != Null {
          p := hist_buf[hist_pos].s;
        }
      }
    }

    /** Go forward by one entry, at last to the empty line. */
    method NextEntry() returns (p: string)
      requires Valid()
      modifies this`hist_pos, this`depth
      ensures Valid() && depth == if old(depth) > 0 then old(depth) - 1 else 0
      ensures p == Recall(list, depth)
    {
      hide At, SlotOf;
      AtStep(|list| - depth);
      SameSlot(|list|, depth);
      if depth > 0 {
        SlotAt(list, depth - 1);
      }
      p := "";
      if hist_pos != hist_last {
        hist_pos := (hist_pos + 1) % HIST_SIZE;
        depth := depth - 1;
        if hist_buf[hist_pos] != Null {
          p := hist_buf[hist_pos].s;
        }
      }
    }

    /** Going back j times from the line being typed recalls the last entries, newest first, and then nothing. */
    method GoBack(j: nat) returns (lines: seq<string>)
      requires Valid() && depth == 0
      modifies this`hist_pos, this`depth
      ensures Valid() && |lines| == j
      ensures forall k :: 0 <= k < j ==> lines[k] == Recall(list, k + 1)
    {
      lines := [];
      var i := 0;
      hide At, SlotOf;
      while i < j
        invariant Valid() && i <= j && |lines| == i && list == old(list)
        invariant depth == i || (depth < i && Back(depth, |list|) == depth)
        invariant depth == i || i >= Depth(|list|)
        invariant forall k :: 0 <= k < i ==> lines[k] == Recall(list, k + 1)
      {
        var p := Prev();
        lines := lines + [p];
        i := i + 1;
      }
    }

    /** One search goes back to the nearest entry with the string in it; cursor is where it was found. */
    method SearchBack(s: string, newSearch: bool) returns (p: string, cursor: nat)
      requires Valid()
      modifies this`hist_pos, this`depth, this`search_last
      ensures Valid() && FoundBack(list, s, old(depth), depth, p, cursor)
      ensures search_last == if p != "" && newSearch then hist_pos else old(search_last)
    {
      var found := false;
      p, cursor := "", 0;
      hide At, SlotOf;
      while !found
        invariant Valid() && old(depth) <= depth
        invariant !found ==> search_last == old(search_last)
        invariant !found ==> forall k :: old(depth) < k <= depth ==> Misses(list, s, k)
        invariant found ==> FoundBack(list, s, old(depth), depth, p, cursor)
        invariant found ==> search_last == if p != "" && newSearch then hist_pos else old(search_last)
        decreases !found, HIST_SIZE - depth
      {
        p := Prev();
        if p == "" {
          found := true;
        } else if StrStr(p, s).Some? {
          cursor := StrStr(p, s).value;
          if newSearch {
            search_last := hist_pos;
          }
          found := true;
        }
      }
    }

    /** The same towards the newer entries. */
    method SearchForw(s: string, newSearch: bool) returns (p: string, cursor: nat)
      requires Valid()
      modifies this`hist_pos, this`depth, this`search_last
      ensures Valid() && FoundForw(list, s, old(depth), depth, p, cursor)
      ensures search_last == if p != "" && newSearch then hist_pos else old(search_last)
    {
      var found := false;
      p, cursor := "", 0;
      hide At, SlotOf;
      while !found
        invariant Valid() && depth <= old(depth)
        invariant !found ==> search_last == old(search_last)
        invariant !found ==> forall k :: depth <= k < old(depth) ==> Misses(list, s, k)
        invariant found ==> FoundForw(list, s, old(depth), depth, p, cursor)
        invariant found ==> search_last == if p != "" && newSearch then hist_pos else old(search_last)
        decreases !found, depth
      {
        p := NextEntry();
        if p == "" {
          found := true;
        } else if StrStr(p, s).Some? {
          cursor := StrStr(p, s).value;
          if newSearch {
            search_last := hist_pos;
          }
          found := true;
        }
      }
    }
  }

  predicate NotBlank(line: string) {
    exists j :: 0 <= j < |line| && line[j] != ' ' && line[j] != '\t'
  }

  /** Lines that are all kept: none is blank, none has a newline, and none is the same as the one before it. */
  predicate AllKept(lines: seq<string>) {
    forall i :: 0 <= i < |lines| ==>
      NotBlank(lines[i]) && '\n' !in lines[i] && (i > 0 ==> lines[i] != lines[i - 1])
  }

  /** With the newline with which the editor returns them. */
  function Returned(lines: seq<string>): seq<string> {
    seq(|lines|, i requires 0 <= i < |lines| => lines[i] + "\n")
  }

  lemma KeptLine(line: string)
    requires NotBlank(line) && '\n' !in line
    ensures !BlankLine(line + "\n") && Key(line + "\n") == Saved(line + "\n") == line
  {
    var buf := line + "\n";
    var j :| 0 <= j < |line| && line[j] != ' ' && line[j] != '\t';
    assert !BlankChar(buf[j]);
    assert buf[|line|] == '\n' && buf[..|line|] == line;
    KeyIsSaved(buf);
  }

  lemma {:induction false} KeptLines(lines: seq<string>)
    requires AllKept(lines)
    ensures AllAdded([], Returned(lines)) == lines
  {
    hide NotBlank, BlankLine, Key, Saved;
    if |lines| > 0 {
      var k := |lines| - 1;
      var front, all := lines[..k], Returned(lines);
      assert all[..k] == Returned(front) && all[k] == lines[k] + "\n";
      KeptLines(front);
      KeptLine(lines[k]);
      assert lines == front + [lines[k]];
    }
  }

  /** Lines that are entered are recalled, the last one first, as many as there is room for, and then nothing. */
  method EnterAndRecall(lines: seq<string>, j: nat) returns (recalled: seq<string>)
    requires AllKept(lines)
    ensures |recalled| == j
    ensures forall k :: 0 <= k < j ==>
              recalled[k] == if k < |lines| && k < 99 then lines[|lines| - 1 - k] else ""
  {
    var r := new Ring();
    var i := 0;
    hide Added, AllKept;
    while i < |lines|
      invariant i <= |lines| && r.Valid() && r.depth == 0 && fresh(r) && fresh(r.hist_buf)
      invariant r.list == AllAdded([], Returned(lines)[..i])
    {
      assert Returned(lines)[..i + 1][..i] == Returned(lines)[..i];
      r.Add(lines[i] + "\n");
      i := i + 1;
    }
    assert Returned(lines)[..i] == Returned(lines);
    KeptLines(lines);
    recalled := r.GoBack(j);
  }

  /** A blank line is not entered, nor one that is the same as the last one, with or without its newline. */
  method NotEntered(r: Ring, line: string)
    requires r.Valid()
    requires (forall i :: 0 <= i < |line| ==> line[i] == ' ' || line[i] == '\t' || line[i] == '\n')
             || (r.list != [] && '\n' !in line && line == r.list[|r.list| - 1])
    modifies r, r.hist_buf
    ensures r.Valid() && r.list == old(r.list)
  {
    r.Add(line);
  }

  /** One step forward undoes a step back. */
  method BackAndForward(r: Ring) returns (p: string)
    requires r.Valid()
    modifies r`hist_pos, r`depth
    ensures r.Valid()
    ensures r.depth == if old(r.depth) <= |r.list| && old(r.depth) < 99 then old(r.depth) else old(r.depth) - 1
    ensures p == if r.depth == 0 || r.depth == 99 then "" else r.list[|r.list| - r.depth]
  {
    p := r.Prev();
    p := r.NextEntry();
  }
}
