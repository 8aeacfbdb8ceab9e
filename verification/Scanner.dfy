/**
 The scanner for command line arguments goes back to the beginning of a command whose parameters
 cannot be read, in order to try another definition. It comes to an end all the same.
 */
module Scanner {
  import opened Common
  import opened Errno

  /** What the scan depends on in the definition of a command. */
  datatype Def = Def(required: nat, constString: bool, resume: bool, onlyOnce: bool, delayed: bool, terminates: bool,
                     breaks: bool)

  datatype Mode = Mode(persistent: bool, skipUnknown: bool, readOne: bool, forceTermination: bool)

  type Length = x: int | 0 <= x < 0x1_0000

  datatype Match = NoMatch | Unterminated | Matched(len: Length)

  /** Tests, comparisons, conversions and handlers may give any results, different ones at every step. */
  datatype Answers = Answers(separator: nat -> bool, compare: (nat, nat) -> Match, read: nat -> int, handle: nat -> int)

  /** What a scan is given. */
  datatype Env = Env(args: seq<Option<string>>, first: nat, defs: seq<Def>, mode: Mode, answers: Answers)

  /** The variables of the scan. */
  datatype Scan = Scan(
    arg: nat,        // the argument that is counted
    text: nat,       // the argument whose text is scanned
    size: nat,       // the length of the text when the scan came to it
    pos: int,
    currentArg: nat, // where the command began
    currentPos: int,
    cmd: int,        // the active command, if any
    required: nat,   // the parameters still to be read
    argStart: int,
    initialPos: nat,
    r: int,
    step: nat,
    rewinds: nat)

  /** The scan with the flags of the definitions; it is within a text or between two of them. */
  datatype State = State(s: Scan, failed: seq<bool>, found: seq<bool>, inside: bool)

  /** How many definitions have not failed yet. */
  function Open(failed: seq<bool>): (n: nat)
    ensures n <= |failed|
  {
    if |failed| == 0 then 0 else Open(failed[..|failed| - 1]) + (if failed[|failed| - 1] then 0 else 1)
  }

  lemma {:induction false} OneFails(failed: seq<bool>, i: nat)
    requires i < |failed|
    ensures Open(failed[i := true]) == Open(failed) - (if failed[i] then 0 else 1)
  {
    var k := |failed| - 1;
    if i < k {
      OneFails(failed[..k], i);
      assert failed[i := true][..k] == failed[..k][i := true];
    } else {
      assert failed[i := true][..k] == failed[..k];
    }
  }

  /** The active command has failed before, without going back. */
  function Pending(failed: seq<bool>, cmd: int): nat
    requires -1 <= cmd < |failed|
  {
    if cmd >= 0 && failed[cmd] then 1 else 0
  }

  /** What is left for going back. */
  function Budget(failed: seq<bool>, cmd: int): nat
    requires -1 <= cmd < |failed|
  {
    2 * Open(failed) + Pending(failed, cmd)
  }

  method ResetVolatileFlags(failed: array<bool>, found: array<bool>)
    requires failed.Length == found.Length && failed != found
    modifies failed, found
    ensures forall i :: 0 <= i < failed.Length ==> !failed[i] && !found[i]
  {
    var i := 0;
    while i < failed.Length
      invariant i <= failed.Length && forall k :: 0 <= k < i ==> !failed[k] && !found[k]
    {
      failed[i], found[i] := false, false;
      i := i + 1;
    }
  }

  // ---------- the steps of the scan ----------

  /** A definition that is passed over. */
  predicate Skipped(defs: seq<Def>, failed: seq<bool>, found: seq<bool>, i: nat)
    requires i < |defs| == |failed| == |found|
  {
    failed[i] || (found[i] && defs[i].onlyOnce)
  }

  /** The first definition from i on that is not passed over and is not refuted. */
  function FirstMatch(env: Env, failed: seq<bool>, found: seq<bool>, step: nat, i: nat): (k: nat)
    requires i <= |env.defs| == |failed| == |found|
    ensures i <= k <= |env.defs|
    ensures k < |env.defs| ==> !Skipped(env.defs, failed, found, k) && env.answers.compare(step, k) != NoMatch
    ensures forall j :: i <= j < k ==> Skipped(env.defs, failed, found, j) || env.answers.compare(step, j) == NoMatch
    decreases |env.defs| - i
  {
    if i == |env.defs| then i
    else if !Skipped(env.defs, failed, found, i) && env.answers.compare(step, i) != NoMatch then i
    else FirstMatch(env, failed, found, step, i + 1)
  }

  /** The flags have a place for every definition, and the active command is one of them. */
  predicate Fits(env: Env, w: State) {
    |w.failed| == |w.found| == |env.defs| && -1 <= w.s.cmd < |env.defs|
  }

  /**
   The search for a command at the current position. A match without its terminator ends it, and the first
   definition with an empty match looks like no match, although it is marked as found.
   */
  function Searched(env: Env, w: State): State
    requires Fits(env, w)
  {
    var k, t := FirstMatch(env, w.failed, w.found, w.s.step, 0), w.s.(step := w.s.step + 1);
    if k == |env.defs| then w.(s := t)
    else match env.answers.compare(w.s.step, k)
      case Matched(len) =>
        w.(found := w.found[k := true],
           s := if k == 0 && len == 0 then t
                else t.(cmd := k, currentPos := t.pos, currentArg := t.arg, required := env.defs[k].required,
                        arg := t.arg + len / 0x100, pos := t.pos + len % 0x100 - 1, argStart := t.pos + len % 0x100))
      case _ => w.(s := t)
  }

  /** Back to the argument in which the command began, but within the text that is being scanned. */
  function Rewound(s: Scan): Scan {
    s.(arg := s.currentArg, pos := -1, cmd := -1, r := 0, rewinds := s.rewinds + 1)
  }

  /** The conversion of a parameter. A command that fails is tried no more if it says so. */
  function Read(env: Env, w: State): State
    requires Fits(env, w) && w.s.cmd >= 0
  {
    var def, s, answer := env.defs[w.s.cmd], w.s, env.answers.read(w.s.step);
    var t := s.(text := if def.constString then s.arg else s.text, step := s.step + 1);
    if answer >= 0 then w.(s := t.(argStart := s.pos, required := if s.required > 0 then s.required - 1 else 0))
    else if def.resume then
      w.(s := if s.currentPos == 0 then Rewound(t) else t,
         failed := w.failed[s.cmd := true], found := w.found[s.cmd := false])
    else if env.mode.skipUnknown then w.(s := t.(cmd := -1), found := w.found[s.cmd := false])
    else w.(s := t.(r := answer))
  }

  /** The handler of the active command, and the way behind what it has taken. */
  function Handled(env: Env, s: Scan): Scan
    requires 0 <= s.cmd < |env.defs|
  {
    var def, result, n := env.defs[s.cmd], env.answers.handle(s.step), |env.args|;
    var t :=
      if def.delayed then s
      else
        var u := s.(step := s.step + 1);
        if result < 0 then u.(r := result)
        else
          var shift, chars := result / 0x100 % 0x100, result % 0x100;
          var v := if shift > 0 then u.(arg := s.arg + shift - 1, pos := s.size, initialPos := chars)
                   else u.(pos := s.pos + chars);
          if env.mode.readOne || def.terminates || def.breaks
          then v.(arg := n, pos := s.size, r := if def.terminates then -EINTR else 0) else v;
    t.(currentPos := t.pos + 1, currentArg := t.arg, argStart := t.pos + 1, cmd := -1)
  }

  /** The parameter that has ended here has been read, or there is none. */
  predicate ReadsOn(env: Env, w: State)
    requires Fits(env, w) && w.s.cmd >= 0
  {
    w.s.required == 0 || w.s.pos <= w.s.argStart || env.answers.read(w.s.step) >= 0
  }

  /** A separator behind an active command ends a parameter, or is skipped. */
  function Separated(env: Env, w: State): State
    requires Fits(env, w) && w.s.cmd >= 0
  {
    var v := if w.s.required == 0 then w
             else if w.s.pos > w.s.argStart then Read(env, w)
             else w.(s := w.s.(argStart := w.s.pos + 1));
    if ReadsOn(env, w) && v.s.required == 0 then v.(s := Handled(env, v.s)) else v
  }

  /** One character. */
  function Char(env: Env, w: State): State
    requires Fits(env, w)
  {
    var s, v := w.s, w.(s := w.s.(step := w.s.step + 1));
    if env.answers.separator(s.step) then
      if s.cmd >= 0 then Separated(env, v)
      else if s.argStart >= s.pos then v
      else if env.mode.readOne || env.mode.forceTermination then v.(s := v.s.(pos := s.size, arg := |env.args|))
      else v.(s := v.s.(argStart := s.pos))
    else if s.cmd >= 0 || s.currentPos < s.pos then v
    else Searched(env, v)
  }

  /** The next text, if the argument has one. */
  function Entered(env: Env, w: State): State
    requires w.s.arg < |env.args|
  {
    var s := w.s;
    var t := s.(text := s.arg, currentPos := s.initialPos, pos := s.initialPos, initialPos := 0,
                argStart := if s.argStart > 0 then 0 else s.argStart);
    match env.args[s.arg]
    case None => w.(s := t.(arg := s.arg + 1))
    case Some(text) =>
      var u := t.(size := |text|);
      w.(s := if s.arg == 0 && env.first > 0 then u.(pos := env.first, argStart := env.first) else u, inside := true)
  }

  /** A character of a text is about to be scanned. */
  predicate Scanning(w: State) {
    w.inside && w.s.pos <= w.s.size && w.s.r == 0
  }

  predicate Final(env: Env, w: State) {
    !w.inside && (w.s.arg >= |env.args| || w.s.r != 0)
  }

  /** One step of the scan. */
  function Next(env: Env, w: State): State
    requires Fits(env, w)
  {
    if Scanning(w) then
      var v := Char(env, w);
      v.(s := v.s.(pos := v.s.pos + 1))
    else if w.inside then w.(inside := false, s := w.s.(arg := w.s.arg + 1))
    else if Final(env, w) then w
    else Entered(env, w)
  }

  lemma NextFits(env: Env, w: State)
    requires Fits(env, w) && w.s.pos >= 0
    ensures Fits(env, Char(env, w)) && Char(env, w).s.pos >= -1 && Char(env, w).inside == w.inside
    ensures Fits(env, Next(env, w)) && Next(env, w).s.pos >= 0
  {
  }

  // ---------- the end of the scan ----------

  /** The way back is paid for. */
  ghost predicate Paid(w: State, open: nat)
    requires -1 <= w.s.cmd < |w.failed|
  {
    w.s.rewinds + Open(w.failed) + Pending(w.failed, w.s.cmd) <= open
  }

  /** A character uses up what is left for going back, or the scan does not go back. */
  lemma CharGoesOn(env: Env, w: State, open: nat)
    requires Fits(env, w) && Scanning(w) && w.s.pos >= 0 && Paid(w, open)
    ensures var v := Char(env, w);
            && Fits(env, v) && Paid(v, open) && v.s.size == w.s.size && v.s.pos >= -1 && v.inside
            && Budget(v.failed, v.s.cmd) <= Budget(w.failed, w.s.cmd)
            && (Budget(v.failed, v.s.cmd) == Budget(w.failed, w.s.cmd) ==>
                  && (v.s.arg >= w.s.arg || v.s.arg >= |env.args|)
                  && (v.s.pos >= w.s.pos || (v.s.pos == w.s.pos - 1 && w.s.cmd < 0 <= v.s.cmd)))
  {
    hide Open;
    NextFits(env, w);
    if w.s.cmd >= 0 {
      OneFails(w.failed, w.s.cmd);
    }
  }

  // ---------- the scan in place ----------

  method SearchDef(env: Env, failed: array<bool>, found: array<bool>, step: nat) returns (cmd: int, len: Length)
    requires failed.Length == found.Length == |env.defs| && failed != found
    modifies found
    ensures var k := FirstMatch(env, failed[..], old(found[..]), step, 0);
            if k < |env.defs| && env.answers.compare(step, k).Matched? then
              && env.answers.compare(step, k) == Matched(len) && found[..] == old(found[..])[k := true]
              && cmd == if k == 0 && len == 0 then -1 else k
            else cmd == -1 && found[..] == old(found[..])
  {
    var i := 0;
    while i < |env.defs|
      invariant i <= |env.defs| && found[..] == old(found[..])
      invariant FirstMatch(env, failed[..], found[..], step, 0) == FirstMatch(env, failed[..], found[..], step, i)
    {
      if failed[i] || (found[i] && env.defs[i].onlyOnce) {
        assert Skipped(env.defs, failed[..], found[..], i);
      } else {
        match env.answers.compare(step, i)
        case NoMatch =>
        case Unterminated =>
          return -1, 0;
        case Matched(n) =>
          found[i] := true;
          return if i == 0 && n == 0 then -1 else i, n;
      }
      i := i + 1;
    }
    return -1, 0;
  }

  /** Look for a command at the current position. */
  method AtBeginning(env: Env, s: Scan, failed: array<bool>, found: array<bool>) returns (t: Scan)
    requires failed.Length == found.Length == |env.defs| && failed != found && -1 <= s.cmd < |env.defs|
    modifies found
    ensures State(t, failed[..], found[..], true) == Searched(env, State(s, failed[..], old(found[..]), true))
  {
    var cmd, len := SearchDef(env, failed, found, s.step);
    t := s.(step := s.step + 1);
    if cmd >= 0 {
      t := t.(cmd := cmd, currentPos := s.pos, currentArg := s.arg, required := env.defs[cmd].required,
              arg := s.arg + len / 0x100, pos := s.pos + len % 0x100 - 1, argStart := s.pos + len % 0x100);
    }
  }

  /** Read a parameter of the active command. */
  method ReadParameter(env: Env, s: Scan, failed: array<bool>, found: array<bool>) returns (t: Scan, goOn: bool)
    requires failed.Length == found.Length == |env.defs| && failed != found
    requires 0 <= s.cmd < |env.defs| && s.required > 0 && s.r == 0 && s.pos > s.argStart
    modifies failed, found
    ensures State(t, failed[..], found[..], true) == Read(env, State(s, old(failed[..]), old(found[..]), true))
    ensures goOn <==> ReadsOn(env, State(s, old(failed[..]), old(found[..]), true)) || t.r < 0
  {
    var answer := env.answers.read(s.step);
    t := s.(step := s.step + 1);
    if env.defs[s.cmd].constString {
      t := t.(text := s.arg);
    }
    goOn := true;
    if answer >= 0 {
      t := t.(argStart := s.pos, required := s.required - 1);
    } else if env.defs[s.cmd].resume {
      failed[s.cmd] := true;
      found[s.cmd] := false;
      if s.currentPos == 0 {
        t := Rewound(t);
      }
      goOn := false;
    } else if env.mode.skipUnknown {
      found[s.cmd] := false;
      t := t.(cmd := -1);
      goOn := false;
    } else {
      t := t.(r := answer);
    }
  }

  /** Run the handler of the active command, and go behind what it has taken. */
  method RunHandler(env: Env, s: Scan) returns (t: Scan)
    requires 0 <= s.cmd < |env.defs|
    ensures t == Handled(env, s)
  {
    t := s;
    if !env.defs[s.cmd].delayed {
      var result := env.answers.handle(s.step);
      t := t.(step := s.step + 1);
      if result >= 0 {
        var iArgShift, chars := result / 0x100 % 0x100, result % 0x100;
        if iArgShift > 0 {
          t := t.(arg := s.arg + iArgShift - 1, pos := s.size, initialPos := chars);
        } else {
          t := t.(pos := s.pos + chars);
        }
        if env.mode.readOne || env.defs[s.cmd].terminates || env.defs[s.cmd].breaks {
          t := t.(arg := |env.args|, pos := s.size, r := if env.defs[s.cmd].terminates then -EINTR else 0);
        }
      } else {
        t := t.(r := result);
      }
    }
    t := t.(currentPos := t.pos + 1, currentArg := t.arg, argStart := t.pos + 1, cmd := -1);
  }

  /** A separator behind an active command. */
  method AtActive(env: Env, s: Scan, failed: array<bool>, found: array<bool>) returns (t: Scan)
    requires failed.Length == found.Length == |env.defs| && failed != found
    requires 0 <= s.cmd < |env.defs| && s.r == 0
    modifies failed, found
    ensures State(t, failed[..], found[..], true) == Separated(env, State(s, old(failed[..]), old(found[..]), true))
  {
    hide Handled;
    t := s;
    var goOn := true;
    if s.required > 0 {
      if s.pos - s.argStart > 0 {
        t, goOn := ReadParameter(env, s, failed, found);
      } else {
        t := s.(argStart := s.pos + 1);
      }
    }
    if goOn && t.required == 0 {
      t := RunHandler(env, t);
    }
  }

  method ScanCharacter(env: Env, s: Scan, failed: array<bool>, found: array<bool>) returns (t: Scan)
    requires failed.Length == found.Length == |env.defs| && failed != found
    requires -1 <= s.cmd < |env.defs| && s.r == 0
    modifies failed, found
    ensures State(t, failed[..], found[..], true) == Char(env, State(s, old(failed[..]), old(found[..]), true))
  {
    hide Searched, Separated;
    t := s.(step := s.step + 1);
    if env.answers.separator(s.step) {
      if s.cmd >= 0 {
        t := AtActive(env, t, failed, found);
      } else if s.argStart < s.pos {
        if env.mode.readOne || env.mode.forceTermination {
          t := t.(pos := s.size, arg := |env.args|);
        } else {
          t := t.(argStart := s.pos);
        }
      }
    } else if s.cmd >= 0 || s.currentPos < s.pos {
    } else {
      t := AtBeginning(env, t, failed, found);
    }
  }

  /** The scan after n steps. */
  function After(env: Env, w: State, n: nat): (v: State)
    requires Fits(env, w) && w.s.pos >= 0
    ensures Fits(env, v) && v.s.pos >= 0
  {
    if n == 0 then w
    else
      var v := After(env, w, n - 1);
      NextFits(env, v);
      Next(env, v)
  }

  const AT_START := Scan(0, 0, 0, 0, 0, 0, -1, 0, 0, 0, 0, 0, 0)

  /** The scan begins before the first argument. */
  function Start(failed: seq<bool>, found: seq<bool>): State {
    State(AT_START, failed, found, false)
  }

  /** One argument, or rather what the scan makes of its text. */
  method ScanText(env: Env, s: Scan, failed: array<bool>, found: array<bool>, ghost w0: State, ghost n0: nat,
                  ghost open: nat)
    returns (t: Scan, ghost n: nat)
    requires failed.Length == found.Length == |env.defs| && failed != found && Fits(env, w0) && w0.s.pos >= 0
    requires State(s, failed[..], found[..], true) == After(env, w0, n0) && s.r == 0 && s.arg < |env.args|
    requires Paid(State(s, failed[..], found[..], true), open)
    modifies failed, found
    ensures State(t, failed[..], found[..], true) == After(env, w0, n) && (t.pos > t.size || t.r != 0)
    ensures Paid(State(t, failed[..], found[..], true), open)
    ensures Budget(failed[..], t.cmd) <= Budget(old(failed[..]), s.cmd)
    ensures Budget(failed[..], t.cmd) == Budget(old(failed[..]), s.cmd) ==> t.arg >= s.arg
  {
    hide Open, Pending, Char, Entered;
    ghost var budget := Budget(failed[..], s.cmd);
    t, n := s, n0;
    while t.pos <= t.size && t.r == 0
      invariant State(t, failed[..], found[..], true) == After(env, w0, n)
      invariant -1 <= t.cmd < |failed[..]| && t.pos >= 0 && Paid(State(t, failed[..], found[..], true), open)
      invariant Budget(failed[..], t.cmd) <= budget
      invariant Budget(failed[..], t.cmd) == budget ==> t.arg >= s.arg
      decreases Budget(failed[..], t.cmd), t.size + 1 - t.pos, if t.cmd < 0 then 1 else 0
    {
      ghost var w := State(t, failed[..], found[..], true);
      assert w == After(env, w0, n);
      CharGoesOn(env, w, open);
      t := ScanCharacter(env, t, failed, found);
      t := t.(pos := t.pos + 1);
      n := n + 1;
    }
  }

  method ScanArgument(env: Env, s: Scan, failed: array<bool>, found: array<bool>, ghost w0: State, ghost n0: nat,
                      ghost open: nat)
    returns (t: Scan, ghost n: nat)
    requires failed.Length == found.Length == |env.defs| && failed != found && Fits(env, w0) && w0.s.pos >= 0
    requires State(s, failed[..], found[..], false) == After(env, w0, n0) && s.r == 0 && s.arg < |env.args|
    requires Paid(State(s, failed[..], found[..], false), open)
    modifies failed, found
    ensures State(t, failed[..], found[..], false) == After(env, w0, n)
    ensures Paid(State(t, failed[..], found[..], false), open)
    ensures Budget(failed[..], t.cmd) <= Budget(old(failed[..]), s.cmd)
    ensures Budget(failed[..], t.cmd) == Budget(old(failed[..]), s.cmd) ==> t.arg > s.arg
  {
    hide Open, Pending, Char;
    t, n := s.(text := s.arg, currentPos := s.initialPos, pos := s.initialPos, initialPos := 0,
               argStart := if s.argStart > 0 then 0 else s.argStart), n0;
    if env.args[s.arg].Some? {
      t := t.(size := |env.args[s.arg].value|);
      if s.arg == 0 && env.first > 0 {
        t := t.(pos := env.first, argStart := env.first);
      }
      assert State(t, failed[..], found[..], true) == After(env, w0, n + 1);
      t, n := ScanText(env, t, failed, found, w0, n + 1, open);
    }
    t := t.(arg := t.arg + 1);
    n := n + 1;
  }

  /**
   The scan terminates, whatever the answers are: after n steps it has come to its end. It goes back at most once
   for every definition that could still be matched at its beginning.
   */
  method ScanArguments(env: Env, failed: array<bool>, found: array<bool>) returns (r: int, rewinds: nat, ghost n: nat)
    requires failed.Length == found.Length == |env.defs| && failed != found
    requires |env.args| == 1 ==> env.args[0].Some? && env.first <= |env.args[0].value|
    modifies failed, found
    ensures rewinds <= if env.mode.persistent then Open(old(failed[..])) else |env.defs|
    ensures rewinds + Open(failed[..]) <= if env.mode.persistent then Open(old(failed[..])) else |env.defs|
    ensures if NothingToScan(env) then r == -ENODATA && rewinds == 0
            else
              var w := After(env, Begun(env, old(failed[..]), old(found[..])), n);
              && Final(env, w) && w.failed == failed[..] && w.found == found[..] && rewinds == w.s.rewinds
              && r == if w.s.required > 0 && w.s.r >= 0 then -ENODATA else w.s.r
  {
    hide Open, Next;
    n := 0;
    if !env.mode.persistent {
      ResetVolatileFlags(failed, found);
    }
    if |env.args| == 0 || (|env.args| == 1 && env.first == |env.args[0].value|) {
      return -ENODATA, 0, 0;
    }
    ghost var w0, open := Start(failed[..], found[..]), Open(failed[..]);
    assert w0 == Begun(env, old(failed[..]), old(found[..]));
    var s := AT_START;
    while s.arg < |env.args| && s.r == 0
      invariant Fits(env, w0) && State(s, failed[..], found[..], false) == After(env, w0, n)
      invariant -1 <= s.cmd < |failed[..]| && Paid(State(s, failed[..], found[..], false), open)
      decreases Budget(failed[..], s.cmd), |env.args| - s.arg
    {
      s, n := ScanArgument(env, s, failed, found, w0, n, open);
    }
    r, rewinds := s.r, s.rewinds;
    if s.required > 0 && r >= 0 {
      r := -ENODATA;
    }
  }

  predicate NothingToScan(env: Env)
    requires |env.args| == 1 ==> env.args[0].Some?
  {
    |env.args| == 0 || (|env.args| == 1 && env.first == |env.args[0].value|)
  }

  /** Unless the mode says otherwise, no definition counts as failed or found at the beginning. */
  function Begun(env: Env, failed: seq<bool>, found: seq<bool>): (w: State)
    requires |failed| == |found| == |env.defs|
    ensures Fits(env, w)
  {
    if env.mode.persistent then Start(failed, found)
    else Start(seq(|failed|, i => false), seq(|found|, i => false))
  }

  // ---------- going back across arguments ----------

  /** The text that is scanned is not that of the argument that is counted. */
  predicate Elsewhere(w: State) {
    Scanning(w) && w.s.arg != w.s.text
  }

  /**
   The parameter that ends here cannot be converted, its command lets the scan go back, and began when another
   argument was counted than the one whose text is scanned on.
   */
  predicate GoesBackElsewhere(env: Env, w: State)
    requires Fits(env, w)
  {
    && Scanning(w) && env.answers.separator(w.s.step) && w.s.cmd >= 0
    && w.s.required > 0 && w.s.pos > w.s.argStart && env.answers.read(w.s.step + 1) < 0
    && env.defs[w.s.cmd].resume && w.s.currentPos == 0
    && w.s.currentArg != if env.defs[w.s.cmd].constString then w.s.arg else w.s.text
  }

  /** A match of 256 characters or more spills over into the number of arguments. */
  predicate LongMatch(env: Env, w: State)
    requires Fits(env, w)
  {
    && Scanning(w) && !env.answers.separator(w.s.step) && w.s.cmd < 0 && w.s.currentPos >= w.s.pos
    && var k := FirstMatch(env, w.failed, w.found, w.s.step + 1, 0);
       && k < |env.defs| && env.answers.compare(w.s.step + 1, k).Matched?
       && var len := env.answers.compare(w.s.step + 1, k).len;
          len >= 0x100 && w.s.pos + len % 0x100 <= w.s.size
  }

  predicate Departs(env: Env, w: State)
    requires Fits(env, w)
  {
    GoesBackElsewhere(env, w) || LongMatch(env, w)
  }

  /** These two are the only ways there. */
  lemma StepElsewhere(env: Env, w: State)
    requires Fits(env, w) && w.s.pos >= 0 && !Elsewhere(w)
    ensures Fits(env, Next(env, w))
    ensures Elsewhere(Next(env, w)) <==> Departs(env, w)
  {
  }

  lemma {:induction false} FirstElsewhere(env: Env, w: State, n: nat) returns (k: nat)
    requires Fits(env, w) && w.s.pos >= 0 && !w.inside && Elsewhere(After(env, w, n))
    ensures Departs(env, After(env, w, k))
  {
    hide Next, Departs;
    k := n - 1;
    if Elsewhere(After(env, w, n - 1)) {
      k := FirstElsewhere(env, w, n - 1);
    } else {
      StepElsewhere(env, After(env, w, n - 1));
    }
  }

  /** A scan gets into the text of another argument than it counts exactly if it goes back there or matches too much. */
  lemma ElsewhereExactly(env: Env, w: State)
    requires Fits(env, w) && w.s.pos >= 0 && !w.inside
    ensures (exists n: nat :: Elsewhere(After(env, w, n))) <==>
            (exists n: nat :: Departs(env, After(env, w, n)))
  {
    hide Next, Departs;
    if n: nat :| Elsewhere(After(env, w, n)) {
      var k := FirstElsewhere(env, w, n);
    }
    if n: nat :| Departs(env, After(env, w, n)) {
      if !Elsewhere(After(env, w, n)) {
        StepElsewhere(env, After(env, w, n));
        assert Elsewhere(After(env, w, n + 1));
      }
    }
  }

  /** A command "a" with one parameter, which "b" is not. */
  const TWO_ARGUMENTS := Env([Some("a"), Some("b")], 0, [Def(1, false, true, false, false, false, false)],
                             Mode(false, false, false, false),
                             Answers(step => step == 2 || step == 4, (step, i) => Matched(1), step => -1, step => 0))

  /** The first steps of this scan. */
  function Moment(n: nat): State
    requires n <= 11
  {
    var a := AT_START;
    var b := a.(size := 1, cmd := 0, required := 1);
    var c := a.(text := 1, size := 1, required := 1, rewinds := 1);
    match n
    case 0 => State(a, [false], [false], false)
    case 1 => State(a.(size := 1), [false], [false], true)
    case 2 => State(b.(pos := 1, argStart := 1, step := 2), [false], [true], true)
    case 3 => State(b.(pos := 2, argStart := 2, step := 3), [false], [true], true)
    case 4 => State(b.(arg := 1, pos := 2, argStart := 2, step := 3), [false], [true], false)
    case 5 => State(b.(arg := 1, text := 1, step := 3), [false], [true], true)
    case 6 => State(b.(arg := 1, text := 1, pos := 1, step := 4), [false], [true], true)
    case 7 => State(c.(step := 6), [true], [false], true)
    case 8 => State(c.(pos := 1, step := 8), [true], [false], true)
    case 9 => State(c.(pos := 2, step := 9), [true], [false], true)
    case 10 => State(c.(arg := 1, pos := 2, step := 9), [true], [false], false)
    case _ => State(c.(arg := 1, step := 9), [true], [false], true)
  }

  lemma EarlyMoment(n: nat)
    requires n < 6
    ensures Fits(TWO_ARGUMENTS, Moment(n)) && Next(TWO_ARGUMENTS, Moment(n)) == Moment(n + 1)
  {
    hide Handled, Read;
  }

  /** The parameter cannot be converted. */
  lemma MomentOfFailure()
    ensures Fits(TWO_ARGUMENTS, Moment(6)) && Next(TWO_ARGUMENTS, Moment(6)) == Moment(7)
  {
    hide Handled, Searched;
    var v := State(Moment(6).s.(step := 5), [false], [true], true);
    assert Read(TWO_ARGUMENTS, v) == State(Moment(7).s.(pos := -1), [true], [false], true) by {
      assert [false][0 := true] == [true] && [true][0 := false] == [false];
    }
    hide Read;
    assert !ReadsOn(TWO_ARGUMENTS, v);
    assert Char(TWO_ARGUMENTS, Moment(6)) == Separated(TWO_ARGUMENTS, v);
  }

  lemma LateMoment(n: nat)
    requires 7 <= n < 11
    ensures Fits(TWO_ARGUMENTS, Moment(n)) && Next(TWO_ARGUMENTS, Moment(n)) == Moment(n + 1)
  {
    hide Separated;
  }

  lemma {:induction false} AfterMoments(n: nat)
    requires n <= 11
    ensures Fits(TWO_ARGUMENTS, Moment(0)) && After(TWO_ARGUMENTS, Moment(0), n) == Moment(n)
  {
    hide Next;
    if n > 0 {
      AfterMoments(n - 1);
      if n <= 6 {
        EarlyMoment(n - 1);
      } else if n == 7 {
        MomentOfFailure();
      } else {
        LateMoment(n - 1);
      }
    }
  }

  /**
   The scan goes back from the second argument to the first one and continues in the text of the second one; then
   it scans that text once more. The first argument is not looked at again.
   */
  lemma GoesBackAcrossArguments(env: Env, start: State) returns (n: nat, failing: State, back: State, again: State)
    requires env == TWO_ARGUMENTS && start == Start([false], [false]) && Fits(env, start)
    ensures failing == After(env, start, n) && Fits(env, failing) && GoesBackElsewhere(env, failing)
    ensures back == After(env, start, n + 1) && Elsewhere(back)
    ensures back.s.rewinds == 1 && back.s.arg == 0 && back.s.text == 1
    ensures again == After(env, start, n + 5) && Scanning(again)
    ensures again.s.pos == 0 && again.s.arg == 1 && again.s.text == 1
  {
    hide Next, After;
    n, failing, back, again := 6, Moment(6), Moment(7), Moment(11);
    assert start == Moment(0);
    AfterMoments(n);
    AfterMoments(n + 1);
    AfterMoments(n + 5);
  }
}
