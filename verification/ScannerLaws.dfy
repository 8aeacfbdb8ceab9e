/**
 Where a scan goes: behind the name of a command, behind its parameters, and behind what its handler has taken.
 */
module ScannerLaws {
  import opened Common
  import opened Errno
  import opened Scanner

  // ---------- handlers ----------

  /** The character that is scanned ends the last parameter of a command, or the name of one that has none. */
  predicate HandlerDue(env: Env, w: State)
    requires Fits(env, w)
  {
    && Scanning(w) && w.s.pos >= 0 && env.answers.separator(w.s.step) && w.s.cmd >= 0
    && (w.s.required == 0
        || (w.s.required == 1 && w.s.pos > w.s.argStart && env.answers.read(w.s.step + 1) >= 0))
  }

  /** What the handler answers. */
  function HandlerResult(env: Env, w: State): int {
    env.answers.handle(if w.s.required == 0 then w.s.step + 1 else w.s.step + 2)
  }

  /** Neither the mode nor the definition ends the scan behind this command. */
  predicate EndsNothing(env: Env, w: State)
    requires Fits(env, w) && w.s.cmd >= 0
  {
    var def := env.defs[w.s.cmd];
    !def.delayed && !env.mode.readOne && !def.terminates && !def.breaks
  }

  lemma TwoMore(env: Env, w: State)
    requires Fits(env, w) && w.s.pos >= 0
    ensures Fits(env, Next(env, w)) && Next(env, w).s.pos >= 0
    ensures After(env, w, 1) == Next(env, w) && After(env, w, 2) == Next(env, Next(env, w))
  {
    NextFits(env, w);
    hide Next;
    assert After(env, w, 0) == w;
  }

  lemma ThreeMore(env: Env, w: State)
    requires Fits(env, w) && w.s.pos >= 0
    ensures Fits(env, After(env, w, 2)) && After(env, w, 3) == Next(env, After(env, w, 2))
  {
    hide Next;
  }

  /** A handler that takes k arguments and c characters of the last one: the scan goes on there, or is over. */
  lemma HandlerTakesArguments(env: Env, w: State, k: nat, c: nat)
    requires Fits(env, w) && HandlerDue(env, w) && EndsNothing(env, w)
    requires 1 <= k < 0x100 && c < 0x100 && HandlerResult(env, w) == k * 0x100 + c
    ensures w.s.arg + k >= |env.args| ==> var v := After(env, w, 2); Final(env, v) && v.s.r == 0
    ensures w.s.arg + k < |env.args| && env.args[w.s.arg + k].Some? ==>
              var v := After(env, w, 3);
              && v.inside && v.s.arg == v.s.text == w.s.arg + k && v.s.pos == c
              && v.s.size == |env.args[w.s.arg + k].value| && v.s.cmd == -1 && v.s.r == 0 && v.s.required == 0
  {
    var v1 := Next(env, w);
    TakesArguments(env, w, k, c);
    TwoMore(env, w);
    ThreeMore(env, w);
    hide Char, Handled;
  }

  lemma TakesArguments(env: Env, w: State, k: nat, c: nat)
    requires Fits(env, w) && HandlerDue(env, w) && EndsNothing(env, w)
    requires 1 <= k < 0x100 && c < 0x100 && HandlerResult(env, w) == k * 0x100 + c
    ensures var v := Next(env, w);
            && v.inside && v.s.arg == w.s.arg + k - 1 && v.s.pos == v.s.size + 1 && v.s.initialPos == c
            && v.s.cmd == -1 && v.s.r == 0 && v.s.required == 0
  {
    assert (k * 0x100 + c) / 0x100 == k && (k * 0x100 + c) % 0x100 == c;
  }

  /** A handler that takes c characters of the same argument: the scan goes on behind the next one. */
  lemma HandlerTakesCharacters(env: Env, w: State, c: nat)
    requires Fits(env, w) && HandlerDue(env, w) && EndsNothing(env, w)
    requires c < 0x100 && HandlerResult(env, w) == c
    ensures var v := Next(env, w);
            && v.inside && v.s.arg == w.s.arg && v.s.pos == w.s.pos + c + 1 && v.s.size == w.s.size
            && v.s.cmd == -1 && v.s.r == 0 && v.s.required == 0
            && v.s.currentPos == v.s.argStart == v.s.pos && v.s.currentArg == w.s.arg
            && v.failed == w.failed && v.found == w.found
  {
  }

  /** A handler that fails ends the scan, and the scan returns its error. */
  lemma HandlerFails(env: Env, w: State)
    requires Fits(env, w) && HandlerDue(env, w) && !env.defs[w.s.cmd].delayed && HandlerResult(env, w) < 0
    ensures var v := After(env, w, 2); Final(env, v) && v.s.r == HandlerResult(env, w) && v.s.required == 0
  {
    FailsAtOnce(env, w);
    TwoMore(env, w);
    hide Char;
  }

  lemma FailsAtOnce(env: Env, w: State)
    requires Fits(env, w) && HandlerDue(env, w) && !env.defs[w.s.cmd].delayed && HandlerResult(env, w) < 0
    ensures var v := Next(env, w); v.inside && v.s.r == HandlerResult(env, w) && v.s.required == 0
  {
  }

  /** A definition or a mode that ends the scan does so behind its handler, with -EINTR or without an error. */
  lemma HandlerEnds(env: Env, w: State)
    requires Fits(env, w) && HandlerDue(env, w) && !env.defs[w.s.cmd].delayed && HandlerResult(env, w) >= 0
    requires env.mode.readOne || env.defs[w.s.cmd].terminates || env.defs[w.s.cmd].breaks
    ensures var v := After(env, w, 2);
            Final(env, v) && v.s.required == 0 && v.s.r == if env.defs[w.s.cmd].terminates then -EINTR else 0
  {
    EndsAtOnce(env, w);
    TwoMore(env, w);
    hide Char;
  }

  lemma EndsAtOnce(env: Env, w: State)
    requires Fits(env, w) && HandlerDue(env, w) && !env.defs[w.s.cmd].delayed && HandlerResult(env, w) >= 0
    requires env.mode.readOne || env.defs[w.s.cmd].terminates || env.defs[w.s.cmd].breaks
    ensures var v := Next(env, w);
            && v.inside && v.s.arg == |env.args| && v.s.pos == v.s.size + 1 && v.s.required == 0
            && v.s.r == if env.defs[w.s.cmd].terminates then -EINTR else 0
  {
  }

  /** A command whose execution is delayed is left without its handler being asked. */
  lemma HandlerDelayed(env: Env, w: State)
    requires Fits(env, w) && HandlerDue(env, w) && env.defs[w.s.cmd].delayed
    ensures var v := Next(env, w);
            && v.inside && v.s.arg == w.s.arg && v.s.pos == w.s.pos + 1 && v.s.cmd == -1 && v.s.r == 0
            && v.s.required == 0 && v.s.currentPos == v.s.argStart == v.s.pos
            && v.s.step == if w.s.required == 0 then w.s.step + 1 else w.s.step + 2
  {
  }

  // ---------- parameters ----------

  /** A separator where a parameter is to be read. */
  predicate ParameterDue(env: Env, w: State)
    requires Fits(env, w)
  {
    Scanning(w) && w.s.pos >= 0 && env.answers.separator(w.s.step) && w.s.cmd >= 0 && w.s.required > 0
  }

  /** Separators before a parameter are skipped; a parameter that is read is counted, and the next one is behind it. */
  lemma ParameterRead(env: Env, w: State)
    requires Fits(env, w) && ParameterDue(env, w)
    ensures w.s.pos <= w.s.argStart ==>
              Next(env, w) == w.(s := w.s.(argStart := w.s.pos + 1, pos := w.s.pos + 1, step := w.s.step + 1))
    ensures w.s.pos > w.s.argStart && w.s.required > 1 && env.answers.read(w.s.step + 1) >= 0 ==>
              Next(env, w) == w.(s := w.s.(required := w.s.required - 1, argStart := w.s.pos, pos := w.s.pos + 1,
                                           text := if env.defs[w.s.cmd].constString then w.s.arg else w.s.text,
                                           step := w.s.step + 2))
  {
  }

  /** A parameter that cannot be read ends the scan with its error, unless the definition or the mode lets it go on. */
  lemma ParameterFails(env: Env, w: State)
    requires Fits(env, w) && ParameterDue(env, w) && w.s.pos > w.s.argStart && env.answers.read(w.s.step + 1) < 0
    ensures !env.defs[w.s.cmd].resume && !env.mode.skipUnknown ==>
              var v := After(env, w, 2); Final(env, v) && v.s.r == env.answers.read(w.s.step + 1)
    ensures !env.defs[w.s.cmd].resume && env.mode.skipUnknown ==>
              var v := Next(env, w);
              && v.s.cmd == -1 && v.s.r == 0 && v.s.pos == w.s.pos + 1 && v.s.arg == w.s.arg
              && v.found == w.found[w.s.cmd := false] && v.failed == w.failed
    ensures env.defs[w.s.cmd].resume ==>
              var v := Next(env, w);
              && v.s.r == 0 && v.failed == w.failed[w.s.cmd := true] && v.found == w.found[w.s.cmd := false]
              && if w.s.currentPos == 0 then v.s.cmd == -1 && v.s.pos == 0 && v.s.arg == w.s.currentArg
                 else v.s.cmd == w.s.cmd && v.s.pos == w.s.pos + 1 && v.s.arg == w.s.arg
  {
    TwoMore(env, w);
  }

  // ---------- commands ----------

  /** A place where a command may begin: the beginning of a text, or behind a command. */
  predicate CommandDue(env: Env, w: State)
    requires Fits(env, w)
  {
    Scanning(w) && w.s.pos >= 0 && !env.answers.separator(w.s.step) && w.s.cmd < 0 && w.s.pos <= w.s.currentPos
  }

  /** A definition that has failed is passed over, and so is one that has been found and is found only once. */
  predicate PassedOver(env: Env, w: State, k: nat)
    requires Fits(env, w) && k < |env.defs|
  {
    w.failed[k] || (w.found[k] && env.defs[k].onlyOnce)
  }

  lemma SamePassedOver(env: Env, w: State)
    requires Fits(env, w)
    ensures forall k :: 0 <= k < |env.defs| ==> (PassedOver(env, w, k) <==> Skipped(env.defs, w.failed, w.found, k))
    ensures forall k :: 0 <= k < |env.defs| ==> (Skipped(env.defs, w.failed, w.found, k) <==> PassedOver(env, w, k))
  {
  }

  /**
   The scan goes on behind the name that is found, which is where the first parameter may begin. The name may reach
   over a arguments, and ends after c characters of the last one.
   */
  lemma CommandBegins(env: Env, w: State, k: nat, a: nat, c: nat)
    requires Fits(env, w) && CommandDue(env, w) && a < 0x100 && c < 0x100 && (k > 0 || a > 0 || c > 0)
    requires k < |env.defs| && !PassedOver(env, w, k)
    requires env.answers.compare(w.s.step + 1, k) == Matched(a * 0x100 + c)
    requires forall j :: 0 <= j < k ==> PassedOver(env, w, j) || env.answers.compare(w.s.step + 1, j) == NoMatch
    ensures var v := Next(env, w);
            && v.inside && v.s.cmd == k && v.s.required == env.defs[k].required
            && v.s.currentPos == w.s.pos && v.s.currentArg == w.s.arg && v.s.arg == w.s.arg + a
            && v.s.pos == v.s.argStart == w.s.pos + c && v.s.text == w.s.text
            && v.found == w.found[k := true] && v.failed == w.failed
  {
    assert (a * 0x100 + c) / 0x100 == a && (a * 0x100 + c) % 0x100 == c;
    var f := FirstMatch(env, w.failed, w.found, w.s.step + 1, 0);
    SamePassedOver(env, w);
    assert f == k;
    hide FirstMatch;
  }

  /** Where no definition matches the scan goes on with the next character. */
  lemma NoCommand(env: Env, w: State)
    requires Fits(env, w) && CommandDue(env, w)
    requires forall j :: 0 <= j < |env.defs| ==>
               PassedOver(env, w, j) || env.answers.compare(w.s.step + 1, j) == NoMatch
    ensures Next(env, w) == w.(s := w.s.(pos := w.s.pos + 1, step := w.s.step + 2))
  {
    var f := FirstMatch(env, w.failed, w.found, w.s.step + 1, 0);
    SamePassedOver(env, w);
    assert f == |env.defs|;
    hide FirstMatch;
  }

  /** Within a name or a parameter, and within a text that no definition matches, nothing happens. */
  lemma WithinText(env: Env, w: State)
    requires Fits(env, w) && Scanning(w) && !env.answers.separator(w.s.step)
    requires w.s.cmd >= 0 || w.s.currentPos < w.s.pos
    ensures Next(env, w) == w.(s := w.s.(pos := w.s.pos + 1, step := w.s.step + 1))
  {
  }

  /** Behind a text that no definition matches the scan is over if the mode says so, and goes on otherwise. */
  lemma UnknownText(env: Env, w: State)
    requires Fits(env, w) && Scanning(w) && w.s.pos >= 0 && env.answers.separator(w.s.step) && w.s.cmd < 0
    ensures w.s.argStart < w.s.pos && (env.mode.readOne || env.mode.forceTermination) ==>
              Final(env, After(env, w, 2)) && After(env, w, 2).s.r == 0
    ensures !(env.mode.readOne || env.mode.forceTermination) || w.s.argStart >= w.s.pos ==>
              Next(env, w) == w.(s := w.s.(pos := w.s.pos + 1, step := w.s.step + 1,
                                           argStart := if w.s.argStart < w.s.pos then w.s.pos else w.s.argStart))
  {
    TwoMore(env, w);
  }

  /** A scan begins in the first argument, from the position given, and passes over arguments without a text. */
  lemma ScanBegins(env: Env, failed: seq<bool>, found: seq<bool>)
    requires |failed| == |found| == |env.defs| && |env.args| > 0
    ensures var v := Next(env, Begun(env, failed, found));
            && v.s.cmd == -1 && v.s.required == 0
            && |v.failed| == |v.found| == |env.defs|
            && (forall i :: 0 <= i < |env.defs| ==> v.failed[i] == (env.mode.persistent && failed[i]))
            && (forall i :: 0 <= i < |env.defs| ==> v.found[i] == (env.mode.persistent && found[i]))
            && if env.args[0].None? then !v.inside && v.s.arg == 1
               else v.inside && v.s.arg == v.s.text == 0 && v.s.pos == v.s.argStart == env.first
                    && v.s.size == |env.args[0].value|
  {
  }

  /** Without arguments, or behind the end of the only one, there is nothing to scan. */
  method ScanOfNothing(env: Env, failed: array<bool>, found: array<bool>) returns (r: int)
    requires failed.Length == found.Length == |env.defs| && failed != found
    requires env.args == [] || (exists text :: env.args == [Some(text)] && env.first == |text|)
    modifies failed, found
    ensures r == -ENODATA
  {
    var rewinds;
    ghost var n;
    r, rewinds, n := ScanArguments(env, failed, found);
  }

  /** At the end of a text the scan goes on with the next argument, from its beginning, with the command it has. */
  lemma NextArgument(env: Env, w: State)
    requires Fits(env, w) && w.inside && w.s.pos > w.s.size && w.s.r == 0 && w.s.pos >= 0
    requires w.s.arg + 1 < |env.args| && env.args[w.s.arg + 1].Some? && w.s.initialPos == 0
    ensures var v := After(env, w, 2);
            && v.inside && v.s.arg == v.s.text == w.s.arg + 1 && v.s.pos == v.s.currentPos == 0
            && v.s.size == |env.args[w.s.arg + 1].value|
            && v.s.cmd == w.s.cmd && v.s.required == w.s.required && v.s.currentArg == w.s.currentArg
  {
    TwoMore(env, w);
  }
}
