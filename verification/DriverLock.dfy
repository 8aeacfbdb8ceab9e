/**
 The lock of the device driver: re-entrant for the process that holds it, and closed to all
 others while the driver is seized with a master code.

 The sections the driver protects with its spin lock are single steps here, as is lockReset;
 everything else that a call does to the shared variables is a step of its own, so that the
 steps of all processes can interleave in any order.
 */
module DriverLock {
  import opened Errno

  /** The shared variables. */
  datatype Lock = Lock(initialized: bool, reset: bool, count: int, owner: int, seizeCode: int)

  datatype Step = Step(lock: Lock, result: int)

  const UNLOCKED := Lock(true, false, 0, 0, 0)

  function CheckAndLock(l: Lock, code: int, pid: int): Step {
    if !l.initialized then Step(l, 0)
    else if l.seizeCode > 0 && l.seizeCode != code then Step(l, -EPERM)
    else if l.count == 0 then Step(l.(count := 1, owner := pid), 1)
    else if l.owner == pid then Step(l.(count := l.count + 1), 1)
    else Step(l, 0)
  }

  function Unlock(l: Lock, pid: int): Step {
    if !l.initialized then Step(l, 0)
    else if l.owner != pid then Step(l, -ENOLCK)
    else if l.count - 1 == 0 then Step(l.(count := 0, owner := 0), 0)
    else if l.count - 1 < 0 then Step(l.(count := 0), 0)
    else Step(l.(count := l.count - 1), 0)
  }

  function Reset(l: Lock): Lock {
    l.(reset := true, count := 0, owner := 0, seizeCode := 0)
  }

  /** A call that is granted takes the lock once more for its process, and one that is not changes nothing. */
  lemma GrantedExactly(l: Lock, code: int, pid: int)
    requires l.count >= 0 && pid != 0
    ensures var step := CheckAndLock(l, code, pid);
            && (step.result > 0 <==> step.lock.count == l.count + 1)
            && (step.result > 0 ==> step.lock.owner == pid && l.initialized && (l.count == 0 || l.owner == pid))
            && (step.result <= 0 ==> step.lock == l)
    ensures var step := Unlock(l, pid);
            && (step.lock != l ==> step.result == 0 && l.initialized && l.owner == pid)
            && (step.result < 0 <==> l.initialized && l.owner != pid)
  {
  }

  /** The driver's variables, and the sections of code that change them. */
  class Driver {
    var g_iLockInitialized: bool
    var g_iLockReset: bool
    var g_iLock: int
    var g_iLockPid: int
    var g_iSeizeCode: int

    function State(): Lock
      reads this
    {
      Lock(g_iLockInitialized, g_iLockReset, g_iLock, g_iLockPid, g_iSeizeCode)
    }

    constructor InitDriverLock()
      ensures State() == UNLOCKED
    {
      g_iLockReset := false;
      g_iLock := 0;
      g_iLockPid := 0;
      g_iSeizeCode := 0;
      g_iLockInitialized := true;
    }

    method CheckAndLockSection(iSeizeCode: int, pid: int) returns (iResult: int)
      modifies this
      ensures Step(State(), iResult) == CheckAndLock(old(State()), iSeizeCode, pid)
    {
      iResult := 0;
      if g_iLockInitialized {
        if g_iSeizeCode > 0 && g_iSeizeCode != iSeizeCode {
          iResult := -EPERM;
        } else if g_iLock == 0 {
          iResult := 1;
          g_iLock := g_iLock + 1;
          g_iLockPid := pid;
        } else if g_iLockPid == pid {
          iResult := 1;
          g_iLock := g_iLock + 1;
        }
      }
    }

    method UnlockSection(pid: int) returns (iResult: int)
      modifies this
      ensures Step(State(), iResult) == Unlock(old(State()), pid)
    {
      iResult := 0;
      if g_iLockInitialized {
        if g_iLockPid == pid {
          g_iLock := g_iLock - 1;
          if g_iLock == 0 {
            g_iLockPid := 0;
          } else if g_iLock < 0 {
            g_iLock := 0;
          }
        } else {
          iResult := -ENOLCK;
        }
      }
    }

    method LockReset()
      modifies this
      ensures State() == Reset(old(State()))
    {
      g_iLockReset := true;
      g_iLock := 0;
      g_iLockPid := 0;
      g_iSeizeCode := 0;
    }

    method LockActivate()
      modifies this
      ensures State() == old(State()).(reset := false)
    {
      g_iLockReset := false;
    }
  }

  // ---------- processes ----------

  /** Why a process is inside lockDriver. */
  datatype Purpose = ToLock | ToSeize | ToRelease

  /** Where a process stands. */
  datatype Place =
    | Idle
    | BeforeTest(why: Purpose, code: int)    // about to look at the reset flag, or asleep and to be woken up
    | BeforeTry(why: Purpose, code: int)     // about to enter checkAndLock
    | FirstLook(why: Purpose, code: int)     // in seizeDriver or releaseDriver: is the seize code zero?
    | SecondLook(why: Purpose, code: int)    // is it the code given?
    | BeforeWrite(why: Purpose, code: int)   // about to change the seize code
    | BeforeUnlock

  datatype System = System(lock: Lock, places: map<int, Place>)

  function PlaceOf(s: System, pid: int): Place {
    if pid in s.places then s.places[pid] else Idle
  }

  datatype Action =
    | CallLock(code: int) | CallUnlock | CallSeize(code: int) | CallRelease(code: int)
    | CallReset | CallActivate
    | Continue

  datatype Move = Move(pid: int, action: Action)

  /** What a move did, as far as the claims below speak about it. */
  datatype Event = Acquired | Denied | Dropped | Underflow | WasReset | SeizedNow | ReleasedNow | NeverHere | Other

  datatype Outcome = Outcome(s: System, ev: Event)

  /** A process is in one call at a time, and seize codes are positive. */
  predicate Enabled(s: System, m: Move) {
    && m.pid != 0
    && match m.action
       case Continue => PlaceOf(s, m.pid) != Idle
       case CallSeize(code) => PlaceOf(s, m.pid) == Idle && code > 0
       case CallRelease(code) => PlaceOf(s, m.pid) == Idle && code > 0
       case _ => PlaceOf(s, m.pid) == Idle
  }

  function Goto(s: System, pid: int, place: Place): System {
    s.(places := s.places[pid := place])
  }

  function UnlockBy(s: System, pid: int): Outcome {
    var step := Unlock(s.lock, pid);
    var ev := if step.result < 0 then Other else if s.lock.count - 1 < 0 then Underflow else Dropped;
    Outcome(Goto(s.(lock := step.lock), pid, Idle), ev)
  }

  /** One step of one process. */
  function Do(s: System, m: Move): Outcome {
    var pid := m.pid;
    match m.action
    case CallLock(code) => Outcome(Goto(s, pid, BeforeTest(ToLock, code)), Other)
    case CallSeize(code) => Outcome(Goto(s, pid, BeforeTest(ToSeize, code)), Other)
    case CallRelease(code) => Outcome(Goto(s, pid, BeforeTest(ToRelease, code)), Other)
    case CallUnlock => UnlockBy(s, pid)
    case CallReset => Outcome(s.(lock := Reset(s.lock)), WasReset)
    case CallActivate => Outcome(s.(lock := s.lock.(reset := false)), Other)
    case Continue =>
      match PlaceOf(s, pid)
      case Idle => Outcome(s, Other)
      case BeforeTest(why, code) =>
        // lockDriver gives up, with a result that counts as success, once the lock has been reset
        Outcome(Goto(s, pid, if s.lock.reset then AfterLock(why, code) else BeforeTry(why, code)), Other)
      case BeforeTry(why, code) =>
        var step := CheckAndLock(s.lock, code, pid);
        if step.result < 0 then Outcome(Goto(s, pid, Idle), Denied)
        else if step.result == 0 then Outcome(Goto(s, pid, BeforeTest(why, code)), Other)
        else Outcome(Goto(s.(lock := step.lock), pid, AfterLock(why, code)), Acquired)
      case FirstLook(why, code) =>
        if s.lock.seizeCode != 0 then Outcome(Goto(s, pid, SecondLook(why, code)), Other)
        else Outcome(Goto(s, pid, if why == ToSeize then BeforeWrite(why, code) else BeforeUnlock), Other)
      case SecondLook(why, code) =>
        if s.lock.seizeCode != code then Outcome(Goto(s, pid, BeforeUnlock), NeverHere)
        else Outcome(Goto(s, pid, if why == ToSeize then BeforeUnlock else BeforeWrite(why, code)), Other)
      case BeforeWrite(why, code) =>
        if why == ToSeize then Outcome(Goto(s.(lock := s.lock.(seizeCode := code)), pid, BeforeUnlock), SeizedNow)
        else Outcome(Goto(s.(lock := s.lock.(seizeCode := 0)), pid, BeforeUnlock), ReleasedNow)
      case BeforeUnlock => UnlockBy(s, pid)
  }

  function AfterLock(why: Purpose, code: int): Place {
    if why == ToLock then Idle else FirstLook(why, code)
  }

  // ---------- runs ----------

  const START := System(UNLOCKED, map[])

  function After(moves: seq<Move>): System {
    if moves == [] then START else Do(After(moves[..|moves| - 1]), moves[|moves| - 1]).s
  }

  /** The event of the last move. */
  function LastEvent(moves: seq<Move>): Event
    requires moves != []
  {
    Do(After(moves[..|moves| - 1]), moves[|moves| - 1]).ev
  }

  predicate IsRun(moves: seq<Move>) {
    moves == [] || (IsRun(moves[..|moves| - 1]) && Enabled(After(moves[..|moves| - 1]), moves[|moves| - 1]))
  }

  /** The successful locks of a process minus its successful unlocks, since the last reset. */
  function Balance(moves: seq<Move>, pid: int): int {
    if moves == [] then 0
    else
      var before, last := Balance(moves[..|moves| - 1], pid), moves[|moves| - 1];
      match LastEvent(moves)
      case Acquired => if last.pid == pid then before + 1 else before
      case Dropped => if last.pid == pid then before - 1 else before
      case WasReset => 0
      case _ => before
  }

  /**
   In every interleaving, the lock counter is the balance of its owner, nobody else has a
   balance, and no unlock ever takes the counter below zero.
   */
  lemma {:induction false} CounterIsBalance(moves: seq<Move>)
    requires IsRun(moves)
    ensures var l := After(moves).lock;
            && l.initialized && l.count >= 0 && (l.count > 0 <==> l.owner != 0)
            && forall pid :: pid != 0 ==> Balance(moves, pid) == Share(l, pid)
    ensures moves != [] ==> LastEvent(moves) != Underflow
    decreases |moves|
  {
    if moves != [] {
      var front, m := moves[..|moves| - 1], moves[|moves| - 1];
      CounterIsBalance(front);
      StepKeepsCounter(After(front), m);
      forall pid | pid != 0
        ensures Balance(moves, pid) == Share(After(moves).lock, pid)
      {
        assert Balance(front, pid) == Share(After(front).lock, pid);
        StepKeepsShare(After(front), m, pid);
      }
    }
  }

  /** What the counter holds for a process. */
  function Share(l: Lock, pid: int): int {
    if pid == l.owner then l.count else 0
  }

  lemma StepKeepsCounter(s: System, m: Move)
    requires s.lock.initialized && s.lock.count >= 0 && (s.lock.count > 0 <==> s.lock.owner != 0) && m.pid != 0
    ensures var l := Do(s, m).s.lock; l.initialized && l.count >= 0 && (l.count > 0 <==> l.owner != 0)
    ensures Do(s, m).ev != Underflow
  {
  }

  lemma StepKeepsShare(s: System, m: Move, pid: int)
    requires s.lock.initialized && s.lock.count >= 0 && (s.lock.count > 0 <==> s.lock.owner != 0)
    requires m.pid != 0 && pid != 0
    ensures var o := Do(s, m);
            Share(o.s.lock, pid) == match o.ev
              case Acquired => if m.pid == pid then Share(s.lock, pid) + 1 else Share(s.lock, pid)
              case Dropped => if m.pid == pid then Share(s.lock, pid) - 1 else Share(s.lock, pid)
              case WasReset => 0
              case _ => Share(s.lock, pid)
  {
  }

  /** Two processes never hold the lock at the same time. */
  lemma MutualExclusion(moves: seq<Move>, p: int, q: int)
    requires IsRun(moves) && p != 0 && q != 0 && Balance(moves, p) > 0 && Balance(moves, q) > 0
    ensures p == q
  {
    CounterIsBalance(moves);
  }

  // ---------- seizing ----------

  predicate ResetFree(moves: seq<Move>) {
    forall i :: 0 <= i < |moves| ==> moves[i].action != CallReset
  }

  /** Between a successful lockDriver and the unlock, in seizeDriver or releaseDriver. */
  predicate Inside(place: Place) {
    place.FirstLook? || place.SecondLook? || place.BeforeWrite? || place.BeforeUnlock?
  }

  /** What a place inside tells about the seize code. */
  predicate Agrees(place: Place, seizeCode: int) {
    match place
    case FirstLook(why, code) => why != ToLock && code > 0 && (seizeCode == 0 || seizeCode == code)
    case SecondLook(why, code) => why != ToLock && code > 0 && seizeCode == code
    case BeforeWrite(why, code) => code > 0 && seizeCode == if why == ToSeize then 0 else code
    case BeforeTest(why, code) => why != ToLock ==> code > 0
    case BeforeTry(why, code) => why != ToLock ==> code > 0
    case _ => true
  }

  ghost predicate SeizeInvariant(s: System) {
    && !s.lock.reset && s.lock.seizeCode >= 0
    && s.lock.initialized && s.lock.count >= 0 && (s.lock.count > 0 <==> s.lock.owner != 0)
    && forall pid :: pid in s.places ==>
         Agrees(s.places[pid], s.lock.seizeCode) && (Inside(s.places[pid]) ==> s.lock.owner == pid && pid != 0)
  }

  lemma InvariantIsKept(s: System, m: Move)
    requires SeizeInvariant(s) && Enabled(s, m) && m.action != CallReset
    ensures SeizeInvariant(Do(s, m).s) && Do(s, m).ev != NeverHere
  {
    var s' := Do(s, m).s;
    forall pid | pid in s'.places
      ensures Agrees(s'.places[pid], s'.lock.seizeCode) && (Inside(s'.places[pid]) ==> s'.lock.owner == pid && pid != 0)
    {
      if pid != m.pid {
        assert pid in s.places && s'.places[pid] == s.places[pid];
      } else {
        assert pid in s.places ==> Agrees(s.places[pid], s.lock.seizeCode);
      }
    }
  }

  lemma {:induction false} InvariantHolds(moves: seq<Move>)
    requires IsRun(moves) && ResetFree(moves)
    ensures SeizeInvariant(After(moves))
    ensures moves != [] ==> LastEvent(moves) != NeverHere
    decreases |moves|
  {
    if moves != [] {
      InvariantHolds(moves[..|moves| - 1]);
      InvariantIsKept(After(moves[..|moves| - 1]), moves[|moves| - 1]);
    }
  }

  /** What move i of a run did, and where its process stood before it. */
  function EventAt(moves: seq<Move>, i: nat): Event
    requires i < |moves|
  {
    LastEvent(moves[..i + 1])
  }

  function PlaceAt(moves: seq<Move>, i: nat): Place
    requires i < |moves|
  {
    PlaceOf(After(moves[..i]), moves[i].pid)
  }

  function CodeOf(place: Place): int {
    if place == Idle || place == BeforeUnlock then 0 else place.code
  }

  /** Move i is an attempt to lock with another code than c. */
  predicate ForeignAttempt(moves: seq<Move>, i: nat, c: int)
    requires i < |moves|
  {
    moves[i].action == Continue && PlaceAt(moves, i).BeforeTry? && CodeOf(PlaceAt(moves, i)) != c
  }

  /**
   Seize exclusivity: once a code is set it stays until a releaseDriver clears it; until then
   every attempt to lock with another code is refused, and no other code can be set.
   */
  lemma {:induction false} SeizeIsExclusive(moves: seq<Move>, k: nat, c: int)
    requires IsRun(moves) && ResetFree(moves) && k <= |moves| && c > 0
    requires After(moves[..k]).lock.seizeCode == c
    requires forall i :: k <= i < |moves| ==> EventAt(moves, i) != ReleasedNow
    ensures After(moves).lock.seizeCode == c
    ensures forall i :: k <= i < |moves| && ForeignAttempt(moves, i, c) ==> EventAt(moves, i) == Denied
    ensures forall i :: k <= i < |moves| ==> EventAt(moves, i) != SeizedNow
    ensures forall i :: k <= i < |moves| && EventAt(moves, i) == Acquired ==> CodeOf(PlaceAt(moves, i)) == c
    decreases |moves| - k
  {
    hide After, IsRun, EventAt, PlaceAt, ForeignAttempt, SeizeInvariant;
    if k < |moves| {
      RunPrefix(moves, k + 1);
      RunPrefix(moves, k);
      InvariantHolds(moves[..k]);
      StillSeized(moves, k, c);
      SeizeIsExclusive(moves, k + 1, c);
    } else {
      assert moves[..k] == moves;
    }
  }

  lemma {:induction false} RunPrefix(moves: seq<Move>, k: nat)
    requires IsRun(moves) && k <= |moves|
    ensures IsRun(moves[..k])
    decreases |moves|
  {
    if k < |moves| {
      RunPrefix(moves[..|moves| - 1], k);
      assert moves[..|moves| - 1][..k] == moves[..k];
    } else {
      assert moves[..k] == moves;
    }
  }

  lemma StillSeized(moves: seq<Move>, k: nat, c: int)
    requires k < |moves| && IsRun(moves[..k + 1]) && c > 0 && moves[k].action != CallReset
    requires SeizeInvariant(After(moves[..k])) && After(moves[..k]).lock.seizeCode == c
    requires EventAt(moves, k) != ReleasedNow
    ensures After(moves[..k + 1]).lock.seizeCode == c && EventAt(moves, k) != SeizedNow
    ensures ForeignAttempt(moves, k, c) ==> EventAt(moves, k) == Denied
    ensures EventAt(moves, k) == Acquired ==> CodeOf(PlaceAt(moves, k)) == c
  {
    assert moves[..k + 1][..k] == moves[..k];
    var s, pid := After(moves[..k]), moves[k].pid;
    assert pid in s.places ==> Agrees(s.places[pid], c);
  }

  /** Only the release with the right code clears it. */
  lemma OnlyItsCodeReleases(moves: seq<Move>)
    requires IsRun(moves) && ResetFree(moves) && moves != [] && LastEvent(moves) == ReleasedNow
    ensures var before := After(moves[..|moves| - 1]);
            PlaceOf(before, moves[|moves| - 1].pid).code == before.lock.seizeCode > 0
  {
    InvariantHolds(moves[..|moves| - 1]);
    assert ResetFree(moves[..|moves| - 1]);
  }

  /** After a reset the guarantee is gone: two seizes in a row reach the branch that should never be reached. */
  lemma ResetReachesTheBranch()
    ensures exists moves :: IsRun(moves) && moves != [] && LastEvent(moves) == NeverHere
  {
    var m4 := SeizeWithoutLock();
    hide After, IsRun, LastEvent;
    var m5 := Extend(m4, Move(2, CallSeize(6)));
    var m6 := Extend(m5, Move(2, Continue));
    var m7 := Extend(m6, Move(2, Continue));
    var m8 := Extend(m7, Move(2, Continue));
  }

  /** After a reset, process 1 sets its code while the lock is free, and process 2 is idle. */
  lemma SeizeWithoutLock() returns (m4: seq<Move>)
    ensures IsRun(m4) && m4 != []
    ensures var s := After(m4); s.lock.reset && s.lock.seizeCode == 5 && s.lock.count == 0 && PlaceOf(s, 2) == Idle
  {
    assert IsRun([]) && After([]) == START;
    hide After, IsRun, LastEvent;
    var m0 := Extend([], Move(1, CallReset));
    var m1 := Extend(m0, Move(1, CallSeize(5)));
    var m2 := Extend(m1, Move(1, Continue));
    var m3 := Extend(m2, Move(1, Continue));
    m4 := Extend(m3, Move(1, Continue));
  }

  lemma Extend(moves: seq<Move>, m: Move) returns (more: seq<Move>)
    requires IsRun(moves) && Enabled(After(moves), m)
    ensures IsRun(more) && more == moves + [m]
    ensures After(more) == Do(After(moves), m).s && LastEvent(more) == Do(After(moves), m).ev
  {
    more := moves + [m];
    assert more[..|more| - 1] == moves;
  }

  /** So the branch is only reached in runs with a reset. */
  lemma BranchNeedsReset(moves: seq<Move>)
    requires IsRun(moves) && moves != [] && LastEvent(moves) == NeverHere
    ensures !ResetFree(moves)
  {
    if ResetFree(moves) {
      InvariantHolds(moves);
    }
  }

  // ---------- from which states the branch is reached ----------

  /** The seize code is being looked at or written. */
  predicate Looking(place: Place) {
    place.FirstLook? || place.SecondLook? || place.BeforeWrite?
  }

  /** What holds in every run, with resets and without. */
  ghost predicate Basic(s: System) {
    && s.lock.initialized && s.lock.seizeCode >= 0
    && s.lock.count >= 0 && (s.lock.count > 0 <==> s.lock.owner != 0)
    && forall pid :: pid in s.places && s.places[pid] != Idle ==> pid != 0 && HasCode(s.places[pid])
  }

  predicate HasCode(place: Place) {
    match place
    case BeforeTest(why, code) => why != ToLock ==> code > 0
    case BeforeTry(why, code) => why != ToLock ==> code > 0
    case FirstLook(why, code) => why != ToLock && code > 0
    case SecondLook(why, code) => why != ToLock && code > 0
    case BeforeWrite(why, code) => why != ToLock && code > 0
    case _ => true
  }

  lemma BasicIsKept(s: System, m: Move)
    requires Basic(s) && Enabled(s, m)
    ensures Basic(Do(s, m).s)
  {
    StepKeepsCounter(s, m);
    var s' := Do(s, m).s;
    forall pid | pid in s'.places && s'.places[pid] != Idle
      ensures pid != 0 && HasCode(s'.places[pid])
    {
      if pid != m.pid {
        assert pid in s.places && s'.places[pid] == s.places[pid];
      } else {
        assert pid in s.places && s.places[pid] != Idle ==> HasCode(s.places[pid]);
      }
    }
  }

  lemma {:induction false} BasicHolds(moves: seq<Move>)
    requires IsRun(moves)
    ensures Basic(After(moves))
    decreases |moves|
  {
    if moves != [] {
      BasicHolds(moves[..|moves| - 1]);
      BasicIsKept(After(moves[..|moves| - 1]), moves[|moves| - 1]);
    }
  }

  /** A run without reset from this state reaches the branch. */
  predicate ReachedBy(s: System, moves: seq<Move>)
    decreases |moves|
  {
    && moves != [] && Enabled(s, moves[0]) && moves[0].action != CallReset
    && (Do(s, moves[0]).ev == NeverHere || ReachedBy(Do(s, moves[0]).s, moves[1..]))
  }

  ghost predicate Reachable(s: System) {
    exists moves :: ReachedBy(s, moves)
  }

  /**
   A process that looks at or writes the seize code without having the lock, one that has seen something else
   than what is there now, or the reset flag, which lets processes in without the lock.
   */
  ghost predicate Dangerous(s: System) {
    s.lock.reset || exists pid :: pid in s.places && Astray(s, pid)
  }

  predicate Astray(s: System, pid: int)
    requires pid in s.places
  {
    var place := s.places[pid];
    || (Looking(place) && s.lock.owner != pid)
    || (place.FirstLook? && s.lock.seizeCode != 0 && s.lock.seizeCode != place.code)
    || (place.SecondLook? && s.lock.seizeCode != place.code)
  }

  /** The branch can be reached without a further reset from just these states. */
  lemma BranchReachableExactly(s: System)
    requires Basic(s)
    ensures Reachable(s) <==> Dangerous(s)
  {
    if Reachable(s) && !Dangerous(s) {
      var moves :| ReachedBy(s, moves);
      SafeRuns(s, moves);
    }
    if s.lock.reset {
      WhileReset(s);
    } else if Dangerous(s) {
      var pid :| pid in s.places && Astray(s, pid);
      WithAstray(s, pid);
    }
  }

  /** So it is after every run, with resets and without. */
  lemma BranchReachableAfter(moves: seq<Move>)
    requires IsRun(moves)
    ensures Reachable(After(moves)) <==> Dangerous(After(moves))
  {
    BasicHolds(moves);
    BranchReachableExactly(After(moves));
  }

  /** The guarantee holds again when the lock is active and no process is looking. */
  lemma SafeAgain(s: System)
    requires Basic(s) && !s.lock.reset && forall pid :: pid in s.places ==> !Looking(s.places[pid])
    ensures !Reachable(s)
  {
    BranchReachableExactly(s);
  }

  // ---------- states from which it is not reached ----------

  lemma SafeIsKept(s: System, m: Move)
    requires Basic(s) && !Dangerous(s) && Enabled(s, m) && m.action != CallReset
    ensures !Dangerous(Do(s, m).s) && Do(s, m).ev != NeverHere
  {
    var s' := Do(s, m).s;
    assert m.pid in s.places ==> !Astray(s, m.pid) && (s.places[m.pid] != Idle ==> HasCode(s.places[m.pid]));
    forall pid | pid in s'.places
      ensures !Astray(s', pid)
    {
      if pid != m.pid {
        assert pid in s.places && s'.places[pid] == s.places[pid] && !Astray(s, pid);
      }
    }
  }

  lemma {:induction false} SafeRuns(s: System, moves: seq<Move>)
    requires Basic(s) && !Dangerous(s)
    ensures !ReachedBy(s, moves)
    decreases |moves|
  {
    if moves != [] && Enabled(s, moves[0]) && moves[0].action != CallReset {
      SafeIsKept(s, moves[0]);
      BasicIsKept(s, moves[0]);
      SafeRuns(Do(s, moves[0]).s, moves[1..]);
    }
  }

  // ---------- states from which it is reached ----------

  lemma ByMove(s: System, m: Move)
    requires Enabled(s, m) && m.action != CallReset
    requires Do(s, m).ev == NeverHere || Reachable(Do(s, m).s)
    ensures Reachable(s)
  {
    hide Enabled, Do;
    if Do(s, m).ev == NeverHere {
      assert ReachedBy(s, [m]);
    } else {
      var moves :| ReachedBy(Do(s, m).s, moves);
      assert ([m] + moves)[1..] == moves;
      assert ReachedBy(s, [m] + moves);
    }
  }

  /** A process that has not done anything so far. */
  lemma Newcomer(places: map<int, Place>) returns (q: int)
    ensures q > 0 && q !in places
  {
    var n := Bound(places.Keys);
    q := n + 1;
  }

  lemma {:induction false} Bound(pids: set<int>) returns (n: nat)
    ensures forall pid :: pid in pids ==> pid <= n
  {
    if pid :| pid in pids {
      var rest := Bound(pids - {pid});
      n := if pid > rest then pid else rest;
      forall p | p in pids
        ensures p <= n
      {
        assert p == pid || p in pids - {pid};
      }
    } else {
      n := 0;
    }
  }

  /** Process q, called with a seize code, has come to the first look. */
  function Arrived(s: System, l: Lock, q: int, why: Purpose, code: int): System {
    System(l, s.places[q := FirstLook(why, code)])
  }

  /** After a reset a call gets to the first look without the lock. */
  lemma EntersWhileReset(s: System, q: int, code: int)
    requires s.lock.reset && q !in s.places && q > 0 && code > 0
    requires Reachable(Arrived(s, s.lock, q, ToSeize, code))
    ensures Reachable(s)
  {
    var s1 := Do(s, Move(q, CallSeize(code))).s;
    var s2 := Do(s1, Move(q, Continue)).s;
    assert s2.places == s.places[q := FirstLook(ToSeize, code)];
    hide Reachable;
    ByMove(s1, Move(q, Continue));
    ByMove(s, Move(q, CallSeize(code)));
  }

  /** Otherwise it has to get the lock, which is free. */
  lemma EntersFree(s: System, q: int, why: Purpose, code: int)
    requires Basic(s) && !s.lock.reset && s.lock.count == 0 && q !in s.places && q > 0 && code > 0 && why != ToLock
    requires s.lock.seizeCode == 0 || s.lock.seizeCode == code
    requires Reachable(Arrived(s, s.lock.(count := 1, owner := q), q, why, code))
    ensures Reachable(s)
  {
    var call := Move(q, if why == ToSeize then CallSeize(code) else CallRelease(code));
    var go := Move(q, Continue);
    var s1 := Do(s, call).s;
    var s2 := Do(s1, go).s;
    var s3 := Do(s2, go).s;
    assert s3.places == s.places[q := FirstLook(why, code)];
    hide Reachable;
    ByMove(s2, go);
    ByMove(s1, go);
    ByMove(s, call);
  }

  /** With the reset flag set and a code written, any call with another code gets there. */
  lemma WhileReset(s: System)
    requires Basic(s) && s.lock.reset
    ensures Reachable(s)
    decreases if s.lock.seizeCode == 0 then 1 else 0
  {
    var q := Newcomer(s.places);
    var go := Move(q, Continue);
    if s.lock.seizeCode != 0 {
      var s1 := Arrived(s, s.lock, q, ToSeize, s.lock.seizeCode + 1);
      var s2 := Do(s1, go).s;
      assert Do(s2, go).ev == NeverHere;
      ByMove(s2, go);
      ByMove(s1, go);
      EntersWhileReset(s, q, s.lock.seizeCode + 1);
    } else {
      var s1 := Arrived(s, s.lock, q, ToSeize, 1);
      var s2 := Do(s1, go).s;
      var s3 := Do(s2, go).s;
      assert s3.lock.seizeCode == 1;
      BasicArrived(s, s.lock, q, ToSeize, 1);
      BasicIsKept(s1, go);
      BasicIsKept(s2, go);
      WhileReset(s3);
      ByMove(s2, go);
      ByMove(s1, go);
      EntersWhileReset(s, q, 1);
    }
  }

  lemma BasicArrived(s: System, l: Lock, q: int, why: Purpose, code: int)
    requires Basic(s) && Basic(s.(lock := l)) && q != 0 && why != ToLock && code > 0
    ensures Basic(Arrived(s, l, q, why, code))
  {
  }

  /** What remains to be done until the owner has given the lock back. */
  function Effort(s: System): nat {
    var place := PlaceOf(s, s.lock.owner);
    (if s.lock.count > 0 then 2 * s.lock.count else 0)
    + match place
      case Idle => 0
      case BeforeUnlock => 1
      case BeforeWrite(_, _) => 2
      case SecondLook(_, _) => 3
      case FirstLook(_, _) => 4
      case BeforeTry(_, _) => 7
      case BeforeTest(_, _) => 8
  }

  function OwnersMove(s: System): Move {
    Move(s.lock.owner, if PlaceOf(s, s.lock.owner) == Idle then CallUnlock else Continue)
  }

  lemma OwnerGoesOn(s: System, pid: int)
    requires Basic(s) && !s.lock.reset && s.lock.count > 0 && pid in s.places && pid != 0 && pid != s.lock.owner
    ensures var m := OwnersMove(s); var s' := Do(s, m).s;
            && Enabled(s, m) && m.action != CallReset && !s'.lock.reset && Effort(s') < Effort(s)
            && pid in s'.places && s'.places[pid] == s.places[pid] && s'.lock.owner != pid
  {
    assert 0 in s.places ==> s.places[0] == Idle;
  }

  /** A process is astray: the others can do what it takes to let it, or one of them, find something else. */
  lemma {:induction false} WithAstray(s: System, pid: int)
    requires Basic(s) && !s.lock.reset && pid in s.places && Astray(s, pid)
    ensures Reachable(s)
    decreases Effort(s)
  {
    var place, go := s.places[pid], Move(pid, Continue);
    if place.SecondLook? && s.lock.seizeCode != place.code {
      ByMove(s, go);
    } else if place.FirstLook? && s.lock.seizeCode != 0 && s.lock.seizeCode != place.code {
      var s1 := Do(s, go).s;
      assert Do(s1, go).ev == NeverHere;
      ByMove(s1, go);
      ByMove(s, go);
    } else if s.lock.count > 0 {
      var m := OwnersMove(s);
      OwnerGoesOn(s, pid);
      BasicIsKept(s, m);
      WithAstray(Do(s, m).s, pid);
      ByMove(s, m);
    } else {
      match place
      case FirstLook(_, _) => FirstLookAstray(s, pid);
      case SecondLook(_, _) => SecondLookAstray(s, pid);
      case BeforeWrite(_, _) => WriteAstray(s, pid);
    }
  }

  function Held(s: System, q: int): Lock {
    s.lock.(count := 1, owner := q)
  }

  /** The code that it looks for a second time is released by another process. */
  lemma SecondLookAstray(s: System, pid: int)
    requires Basic(s) && !s.lock.reset && s.lock.count == 0
    requires pid in s.places && s.places[pid].SecondLook? && s.lock.seizeCode == s.places[pid].code
    ensures Reachable(s)
  {
    var q := Newcomer(s.places);
    var c, go := s.lock.seizeCode, Move(q, Continue);
    var s1 := Arrived(s, Held(s, q), q, ToRelease, c);
    var s2 := Do(s1, go).s;
    var s3 := Do(s2, go).s;
    var s4 := Do(s3, go).s;
    assert Do(s4, Move(pid, Continue)).ev == NeverHere;
    ByMove(s4, Move(pid, Continue));
    ByMove(s3, go);
    ByMove(s2, go);
    ByMove(s1, go);
    EntersFree(s, q, ToRelease, c);
  }

  /** Another code is written before it looks. */
  lemma FirstLookAstray(s: System, pid: int)
    requires Basic(s) && !s.lock.reset && s.lock.count == 0
    requires pid in s.places && s.places[pid].FirstLook?
    requires s.lock.seizeCode == 0 || s.lock.seizeCode == s.places[pid].code
    ensures Reachable(s)
  {
    var look := Move(pid, Continue);
    if s.lock.seizeCode != 0 {
      BasicIsKept(s, look);
      SecondLookAstray(Do(s, look).s, pid);
      ByMove(s, look);
    } else {
      var q := Newcomer(s.places);
      var c, go := s.places[pid].code + 1, Move(q, Continue);
      var s1 := Arrived(s, Held(s, q), q, ToSeize, c);
      var s2 := Do(s1, go).s;
      var s3 := Do(s2, go).s;
      var s4 := Do(s3, look).s;
      assert Do(s4, look).ev == NeverHere;
      ByMove(s4, look);
      ByMove(s3, look);
      ByMove(s2, go);
      ByMove(s1, go);
      EntersFree(s, q, ToSeize, c);
    }
  }

  /** What it is about to write. */
  function ToBeWritten(place: Place): int
    requires place.BeforeWrite?
  {
    if place.why == ToSeize then place.code else 0
  }

  lemma WriteAstray(s: System, pid: int)
    requires WriterWaits(s, pid)
    ensures Reachable(s)
  {
    var v := ToBeWritten(s.places[pid]);
    if s.lock.seizeCode != v {
      if s.lock.seizeCode != 0 {
        WritesOverCode(s, pid);
      } else {
        WritesOverNone(s, pid);
      }
    } else if v != 0 {
      var s' := AfterRelease(s, pid);
      WritesOverNone(s', pid);
    } else {
      var s' := AfterSeize(s, pid);
      WritesOverCode(s', pid);
    }
  }

  /** Another process is about to look a second time at the code that is overwritten. */
  lemma WritesOverCode(s: System, pid: int)
    requires WriterWaits(s, pid)
    requires s.lock.seizeCode != 0 && s.lock.seizeCode != ToBeWritten(s.places[pid])
    ensures Reachable(s)
  {
    var q := Newcomer(s.places);
    var c, go := s.lock.seizeCode, Move(q, Continue);
    var s1 := Arrived(s, Held(s, q), q, ToSeize, c);
    var s2 := Do(s1, go).s;
    var s3 := Do(s2, Move(pid, Continue)).s;
    assert Do(s3, go).ev == NeverHere;
    ByMove(s3, go);
    ByMove(s2, Move(pid, Continue));
    ByMove(s1, go);
    EntersFree(s, q, ToSeize, c);
  }

  /** Another process has come in with another code. */
  lemma WritesOverNone(s: System, pid: int)
    requires WriterWaits(s, pid)
    requires s.lock.seizeCode == 0 != ToBeWritten(s.places[pid])
    ensures Reachable(s)
  {
    var q := Newcomer(s.places);
    var c, go := s.places[pid].code + 1, Move(q, Continue);
    var s1 := Arrived(s, Held(s, q), q, ToSeize, c);
    var s2 := Do(s1, Move(pid, Continue)).s;
    var s3 := Do(s2, go).s;
    assert Do(s3, go).ev == NeverHere;
    ByMove(s3, go);
    ByMove(s2, go);
    ByMove(s1, Move(pid, Continue));
    EntersFree(s, q, ToSeize, c);
  }

  /** A free lock and a process that is about to write. */
  ghost predicate WriterWaits(s: System, pid: int) {
    Basic(s) && !s.lock.reset && s.lock.count == 0 && pid in s.places && s.places[pid].BeforeWrite?
  }

  /** Another process releases the driver. */
  lemma AfterRelease(s: System, pid: int) returns (s': System)
    requires WriterWaits(s, pid) && s.lock.seizeCode != 0
    ensures WriterWaits(s', pid) && s'.places[pid] == s.places[pid] && s'.lock.seizeCode == 0
    ensures Reachable(s') ==> Reachable(s)
  {
    var q := Newcomer(s.places);
    var c, go := s.lock.seizeCode, Move(q, Continue);
    var s1 := Arrived(s, Held(s, q), q, ToRelease, c);
    BasicArrived(s, Held(s, q), q, ToRelease, c);
    var s2 := Do(s1, go).s;
    BasicIsKept(s1, go);
    var s3 := Do(s2, go).s;
    BasicIsKept(s2, go);
    var s4 := Do(s3, go).s;
    BasicIsKept(s3, go);
    s' := Do(s4, go).s;
    BasicIsKept(s4, go);
    if Reachable(s') {
      ByMove(s4, go);
      ByMove(s3, go);
      ByMove(s2, go);
      ByMove(s1, go);
      EntersFree(s, q, ToRelease, c);
    }
  }

  /** Another process seizes the driver. */
  lemma AfterSeize(s: System, pid: int) returns (s': System)
    requires WriterWaits(s, pid) && s.lock.seizeCode == 0
    ensures WriterWaits(s', pid) && s'.places[pid] == s.places[pid] && s'.lock.seizeCode == 1
    ensures Reachable(s') ==> Reachable(s)
  {
    var q := Newcomer(s.places);
    var go := Move(q, Continue);
    var s1 := Arrived(s, Held(s, q), q, ToSeize, 1);
    BasicArrived(s, Held(s, q), q, ToSeize, 1);
    var s2 := Do(s1, go).s;
    BasicIsKept(s1, go);
    var s3 := Do(s2, go).s;
    BasicIsKept(s2, go);
    s' := Do(s3, go).s;
    BasicIsKept(s3, go);
    if Reachable(s') {
      ByMove(s3, go);
      ByMove(s2, go);
      ByMove(s1, go);
      EntersFree(s, q, ToSeize, 1);
    }
  }

  // ---------- whole calls of one process ----------

  /** A process does n steps on its own. */
  function Steps(s: System, pid: int, n: nat): System {
    if n == 0 then s else Do(Steps(s, pid, n - 1), Move(pid, Continue)).s
  }

  /** It makes a call and does n steps of it. */
  function Call(s: System, pid: int, action: Action, n: nat): System {
    Steps(Do(s, Move(pid, action)).s, pid, n)
  }

  /** What the next step of the process does. */
  function NextEvent(s: System, pid: int): Event {
    Do(s, Move(pid, Continue)).ev
  }

  /** The lock is free for this process, and the driver not seized with another code. */
  predicate Open(s: System, pid: int, code: int) {
    && s.lock.initialized && !s.lock.reset && pid != 0 && PlaceOf(s, pid) == Idle
    && (s.lock.count == 0 || s.lock.owner == pid) && (s.lock.seizeCode <= 0 || s.lock.seizeCode == code)
  }

  /** It is locked then, once more if it was locked by the same process, and unlocking takes that back. */
  lemma LockThenUnlock(s: System, pid: int, code: int)
    requires Basic(s) && Open(s, pid, code)
    ensures NextEvent(Call(s, pid, CallLock(code), 1), pid) == Acquired
    ensures var t := Call(s, pid, CallLock(code), 2);
            && t.lock == s.lock.(count := s.lock.count + 1, owner := pid) && PlaceOf(t, pid) == Idle
            && Do(t, Move(pid, CallUnlock)).ev == Dropped
            && Do(t, Move(pid, CallUnlock)).s.lock == s.lock
  {
    StepsOfLock(s, pid, code);
  }

  lemma StepsOfLock(s: System, pid: int, code: int)
    requires Basic(s) && Open(s, pid, code)
    ensures var s1 := Call(s, pid, CallLock(code), 1);
            s1.lock == s.lock && PlaceOf(s1, pid) == BeforeTry(ToLock, code)
    ensures Call(s, pid, CallLock(code), 2) == Do(Call(s, pid, CallLock(code), 1), Move(pid, Continue)).s
  {
    var s0 := Do(s, Move(pid, CallLock(code))).s;
    assert Steps(s0, pid, 0) == s0;
    assert PlaceOf(s0, pid) == BeforeTest(ToLock, code);
  }

  /** With another code the call is refused at once; while another process has the lock it goes back to sleep. */
  lemma NoEntry(s: System, pid: int, code: int)
    requires Basic(s) && !s.lock.reset && PlaceOf(s, pid) == Idle
    ensures s.lock.seizeCode > 0 && s.lock.seizeCode != code ==>
              && NextEvent(Call(s, pid, CallLock(code), 1), pid) == Denied
              && var t := Call(s, pid, CallLock(code), 2); t.lock == s.lock && PlaceOf(t, pid) == Idle
    ensures (s.lock.seizeCode == 0 || s.lock.seizeCode == code) && s.lock.count > 0 && s.lock.owner != pid ==>
              var t := Call(s, pid, CallLock(code), 2); t.lock == s.lock && PlaceOf(t, pid) == BeforeTest(ToLock, code)
    ensures s.lock.owner != pid ==> Do(s, Move(pid, CallUnlock)).s.lock == s.lock
  {
    var s0 := Do(s, Move(pid, CallLock(code))).s;
    assert Steps(s0, pid, 0) == s0;
    var s1 := Steps(s0, pid, 1);
    assert PlaceOf(s1, pid) == BeforeTry(ToLock, code) && s1.lock == s.lock;
    assert Steps(s0, pid, 2) == Do(s1, Move(pid, Continue)).s;
  }

  /** seizeDriver sets the code and gives the lock back; releaseDriver with this code clears it again. */
  lemma SeizeThenRelease(s: System, pid: int, code: int)
    requires Basic(s) && Open(s, pid, code) && code > 0
    ensures var t := Call(s, pid, CallSeize(code), 5);
            t.lock == s.lock.(seizeCode := code) && PlaceOf(t, pid) == Idle
    ensures s.lock.seizeCode == code ==>
              var t := Call(s, pid, CallRelease(code), 6);
              t.lock == s.lock.(seizeCode := 0) && PlaceOf(t, pid) == Idle
  {
    var go, s2 := Move(pid, Continue), Call(s, pid, CallSeize(code), 2);
    StepsInside(s, pid, ToSeize, code);
    var s3 := Do(s2, go).s;
    var s4 := Do(s3, go).s;
    assert Call(s, pid, CallSeize(code), 3) == s3 && Call(s, pid, CallSeize(code), 4) == s4;
    if s.lock.seizeCode == code {
      ReleaseSteps(s, pid, code);
    }
  }

  lemma ReleaseSteps(s: System, pid: int, code: int)
    requires Basic(s) && Open(s, pid, code) && code > 0 && s.lock.seizeCode == code
    ensures var t := Call(s, pid, CallRelease(code), 6);
            t.lock == s.lock.(seizeCode := 0) && PlaceOf(t, pid) == Idle
  {
    var go, s2 := Move(pid, Continue), Call(s, pid, CallRelease(code), 2);
    StepsInside(s, pid, ToRelease, code);
    var s3 := Do(s2, go).s;
    var s4 := Do(s3, go).s;
    var s5 := Do(s4, go).s;
    assert Call(s, pid, CallRelease(code), 3) == s3 && Call(s, pid, CallRelease(code), 4) == s4;
    assert Call(s, pid, CallRelease(code), 5) == s5;
  }

  /** A release without a seized driver changes nothing. */
  lemma ReleaseOfNothing(s: System, pid: int, code: int)
    requires Basic(s) && Open(s, pid, code) && code > 0 && s.lock.seizeCode == 0
    ensures var t := Call(s, pid, CallRelease(code), 4); t.lock == s.lock && PlaceOf(t, pid) == Idle
  {
    var go, s2 := Move(pid, Continue), Call(s, pid, CallRelease(code), 2);
    StepsInside(s, pid, ToRelease, code);
    assert Call(s, pid, CallRelease(code), 3) == Do(s2, go).s;
  }

  /** The steps of a call that looks at the seize code. */
  lemma StepsInside(s: System, pid: int, why: Purpose, code: int)
    requires Basic(s) && Open(s, pid, code) && code > 0 && why != ToLock
    ensures var call := if why == ToSeize then CallSeize(code) else CallRelease(code);
            var held := s.lock.(count := s.lock.count + 1, owner := pid);
            var t := Call(s, pid, call, 2);
            t.lock == held && PlaceOf(t, pid) == FirstLook(why, code)
  {
    var call := if why == ToSeize then CallSeize(code) else CallRelease(code);
    var go, s0 := Move(pid, Continue), Do(s, Move(pid, call)).s;
    assert Steps(s0, pid, 0) == s0 && PlaceOf(s0, pid) == BeforeTest(why, code);
    var s1 := Do(s0, go).s;
    assert Steps(s0, pid, 1) == s1 && PlaceOf(s1, pid) == BeforeTry(why, code);
    assert Steps(s0, pid, 2) == Do(s1, go).s;
  }

  // ---------- a reset opens the driver ----------

  lemma ResetSteps(s: System, p: int, q: int, code: int)
    requires Basic(s) && p != 0 && q != 0 && PlaceOf(s, p) == Idle && PlaceOf(s, q) == Idle
    ensures var go := Move(q, Continue);
            var s1 := Do(s, Move(p, CallReset)).s;
            var s2 := Do(s1, Move(p, CallActivate)).s;
            var s3 := Do(s2, Move(q, CallLock(code))).s;
            var s4 := Do(s3, go).s;
            && Enabled(s, Move(p, CallReset)) && Enabled(s1, Move(p, CallActivate))
            && Enabled(s2, Move(q, CallLock(code))) && Enabled(s3, go) && Enabled(s4, go)
            && Do(s4, go).ev == Acquired && Do(s4, go).s.lock == Lock(true, false, 1, q, 0)
  {
  }

  /** After every run: a reset and the activation let any process in with any code, whatever was locked and seized. */
  lemma LockAfterReset(moves: seq<Move>, p: int, q: int, code: int) returns (more: seq<Move>)
    requires IsRun(moves) && p != 0 && q != 0 && PlaceOf(After(moves), p) == Idle && PlaceOf(After(moves), q) == Idle
    ensures more == moves + [Move(p, CallReset), Move(p, CallActivate)]
                    + [Move(q, CallLock(code)), Move(q, Continue), Move(q, Continue)]
    ensures IsRun(more) && LastEvent(more) == Acquired
    ensures After(more).lock == Lock(true, false, 1, q, 0)
  {
    BasicHolds(moves);
    ResetSteps(After(moves), p, q, code);
    hide After, IsRun, LastEvent, Do, Enabled, Basic;
    var m1 := Extend(moves, Move(p, CallReset));
    var m2 := Extend(m1, Move(p, CallActivate));
    var m3 := Extend(m2, Move(q, CallLock(code)));
    var m4 := Extend(m3, Move(q, Continue));
    more := Extend(m4, Move(q, Continue));
  }
}
