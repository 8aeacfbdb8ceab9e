/**
 What the commands of the line editor mean, on the text and the cursor alone.
 */
module EditModel {
  import opened Display

  const BUF_SIZE := 1024

  datatype Edit = Edit(text: seq<char>, pos: nat, mark: int, kill: seq<char>, overwrite: bool)

  datatype Command =
    | Type(c: char) | DeleteLeft | DeleteUnder | Transpose
    | Kill | KillLine | Wipe | KillWord | KillBackWord | Yank
    | LineStart | LineEnd | CursorLeft | CursorRight | BackWord | ForwardWord
    | SetMark | Exchange | ToggleOverwrite | RedrawLine
    | Load(line: seq<char>)

  /** The editor goes on, terminates the program because its buffer is full, or writes past its kill buffer. */
  datatype Outcome = Goes(e: Edit) | Overflow | Overrun

  datatype Ending = Continued | Exited | WroteOutside

  function EndingOf(r: Outcome): Ending {
    match r
    case Goes(_) => Continued
    case Overflow => Exited
    case Overrun => WroteOutside
  }

  ghost predicate WellFormed(e: Edit) {
    && |e.text| < BUF_SIZE && IsLine(e.text) && e.pos <= |e.text|
    && -1 <= e.mark < BUF_SIZE && |e.kill| < BUF_SIZE && IsLine(e.kill)
  }

  // ---------- words ----------

  /** Everything but letters, digits and underscores separates words. */
  predicate White(c: char) {
    !('a' <= c <= 'z' || 'A' <= c <= 'Z' || '0' <= c <= '9' || c == '_')
  }

  predicate WordStart(text: seq<char>, i: nat) {
    i < |text| && !White(text[i]) && (i == 0 || White(text[i - 1]))
  }

  predicate WordEnd(text: seq<char>, i: nat) {
    0 < i <= |text| && !White(text[i - 1]) && (i == |text| || White(text[i]))
  }

  /** The nearest start of a word to the left, or the beginning of the line. */
  function PrevWordStart(text: seq<char>, pos: nat): (k: nat)
    requires pos <= |text|
    ensures k <= pos && (pos > 0 ==> k < pos)
    ensures k == 0 || WordStart(text, k)
    ensures forall m :: k < m < pos ==> !WordStart(text, m)
  {
    if pos == 0 then 0
    else if WordStart(text, pos - 1) then pos - 1
    else PrevWordStart(text, pos - 1)
  }

  /** The nearest start of a word to the right, or the end of the line. */
  function NextWordStart(text: seq<char>, pos: nat): (k: nat)
    requires pos <= |text|
    ensures pos <= k <= |text| && (pos < |text| ==> pos < k)
    ensures k == |text| || WordStart(text, k)
    ensures forall m :: pos < m < k ==> !WordStart(text, m)
    decreases |text| - pos
  {
    if pos == |text| then pos
    else if WordStart(text, pos + 1) then pos + 1
    else NextWordStart(text, pos + 1)
  }

  /** The nearest end of a word to the right, or the end of the line. */
  function NextWordEnd(text: seq<char>, pos: nat): (k: nat)
    requires pos <= |text|
    ensures pos <= k <= |text| && (pos < |text| ==> pos < k)
    ensures k == |text| || WordEnd(text, k)
    ensures forall m :: pos < m < k ==> !WordEnd(text, m)
    decreases |text| - pos
  {
    if pos == |text| then pos
    else if WordEnd(text, pos + 1) then pos + 1
    else NextWordEnd(text, pos + 1)
  }

  /** These three are the only positions with their properties. */
  lemma IsPrevWordStart(text: seq<char>, pos: nat, k: nat)
    requires k <= pos <= |text| && (pos > 0 ==> k < pos) && (k == 0 || WordStart(text, k))
    requires forall m :: k < m < pos ==> !WordStart(text, m)
    ensures k == PrevWordStart(text, pos)
  {
  }

  lemma IsNextWordStart(text: seq<char>, pos: nat, k: nat)
    requires pos <= k <= |text| && (pos < |text| ==> pos < k) && (k == |text| || WordStart(text, k))
    requires forall m :: pos < m < k ==> !WordStart(text, m)
    ensures k == NextWordStart(text, pos)
  {
  }

  lemma IsNextWordEnd(text: seq<char>, pos: nat, k: nat)
    requires pos <= k <= |text| && (pos < |text| ==> pos < k) && (k == |text| || WordEnd(text, k))
    requires forall m :: pos < m < k ==> !WordEnd(text, m)
    ensures k == NextWordEnd(text, pos)
  {
  }

  // ---------- the commands ----------

  function Insert(text: seq<char>, pos: nat, s: seq<char>): seq<char>
    requires pos <= |text|
  {
    text[..pos] + s + text[pos..]
  }

  function Over(text: seq<char>, pos: nat, s: seq<char>): seq<char>
    requires pos <= |text|
  {
    text[..pos] + s + (if pos + |s| <= |text| then text[pos + |s|..] else [])
  }

  function Without(text: seq<char>, a: nat, b: nat): seq<char>
    requires a <= b <= |text|
  {
    text[..a] + text[b..]
  }

  /** The text between two positions is moved to the kill buffer. */
  function Cut(e: Edit, a: nat, b: nat): Edit
    requires a <= b <= |e.text|
  {
    e.(kill := e.text[a..b], text := Without(e.text, a, b), pos := a)
  }

  /** Only printable characters are typed, and the lines of the history fit the buffer. */
  predicate Possible(c: Command) {
    match c
    case Type(ch) => Printable(ch)
    case Load(line) => |line| < BUF_SIZE && IsLine(line)
    case _ => true
  }

  /** The cursor is at the beginning of a full line that consists of separators. */
  predicate AllSeparators(text: seq<char>, pos: nat) {
    pos == 0 && |text| == BUF_SIZE - 1 && forall i :: 0 <= i < |text| ==> White(text[i])
  }

  function Typed(e: Edit, c: char): Outcome
    requires e.pos <= |e.text|
  {
    if |e.text| >= BUF_SIZE - 1 then Overflow
    else if !e.overwrite then Goes(e.(text := Insert(e.text, e.pos, [c]), pos := e.pos + 1))
    else Goes(e.(text := Over(e.text, e.pos, [c]), pos := e.pos + 1))
  }

  function Yanked(e: Edit): Outcome
    requires e.pos <= |e.text|
  {
    var n := e.pos + |e.kill|;
    if e.kill == [] then Goes(e)
    else if !e.overwrite then
      if |e.text| + |e.kill| >= BUF_SIZE - 1 then Overflow
      else Goes(e.(text := Insert(e.text, e.pos, e.kill), pos := n, mark := e.pos))
    else if n > |e.text| && n >= BUF_SIZE - 1 then Overflow
    else Goes(e.(text := Over(e.text, e.pos, e.kill), pos := n, mark := e.pos))
  }

  /** A mark that lies behind the end of the text counts as the end. */
  function Wiped(e: Edit): Edit
    requires e.pos <= |e.text|
  {
    if e.mark < 0 || e.mark == e.pos then e
    else if e.mark < e.pos then Cut(e, e.mark, e.pos)
    else Cut(e, e.pos, Clamp(e.mark, |e.text|))
  }

  function Killed(e: Edit): Edit
    requires e.pos <= |e.text|
  {
    if e.pos < |e.text| then Cut(e, e.pos, |e.text|) else e
  }

  function Swapped(e: Edit): Edit
    requires e.pos <= |e.text|
  {
    if 0 < e.pos < |e.text|
    then e.(text := e.text[e.pos - 1 := e.text[e.pos]][e.pos := e.text[e.pos - 1]])
    else e
  }

  /** Where there is no word ahead, the terminator is killed as well: one character too much for a full line. */
  function WordKilled(e: Edit): Outcome
    requires e.pos <= |e.text|
  {
    if AllSeparators(e.text, e.pos) then Overrun else Goes(Cut(e, e.pos, NextWordEnd(e.text, e.pos)))
  }

  /** The editor after a command. */
  function Next(e: Edit, c: Command): (r: Outcome)
    requires e.pos <= |e.text|
    ensures r.Goes? ==> r.e.pos <= |r.e.text|
  {
    match c
    case Type(ch) => Typed(e, ch)
    case Yank => Yanked(e)
    case DeleteLeft => Goes(if e.pos > 0 then e.(text := Without(e.text, e.pos - 1, e.pos), pos := e.pos - 1) else e)
    case DeleteUnder => Goes(if e.pos < |e.text| then e.(text := Without(e.text, e.pos, e.pos + 1)) else e)
    case Transpose => Goes(Swapped(e))
    case Kill => Goes(Killed(e))
    case KillLine => Goes(Killed(e.(pos := 0)))
    case Wipe => Goes(Wiped(e))
    case KillWord => WordKilled(e)
    case KillBackWord => Goes(Wiped(e.(mark := PrevWordStart(e.text, e.pos))))
    case LineStart => Goes(e.(pos := 0))
    case LineEnd => Goes(e.(pos := |e.text|))
    case CursorLeft => Goes(e.(pos := Clamp(e.pos - 1, |e.text|)))
    case CursorRight => Goes(e.(pos := Clamp(e.pos + 1, |e.text|)))
    case BackWord => Goes(e.(pos := PrevWordStart(e.text, e.pos)))
    case ForwardWord => Goes(e.(pos := NextWordStart(e.text, e.pos)))
    case SetMark => Goes(e.(mark := e.pos))
    case Exchange => Goes(if e.mark < 0 then e else e.(pos := Clamp(e.mark, |e.text|), mark := e.pos))
    case ToggleOverwrite => Goes(e.(overwrite := !e.overwrite))
    case RedrawLine => Goes(e)
    case Load(line) => Goes(e.(text := line, pos := |line|))
  }

  // ---------- what a command owes to the redisplay ----------

  lemma FitsInsert(text: seq<char>, pos: nat, s: seq<char>)
    requires pos <= |text| && |s| > 0
    ensures Fits(pos, pos + |s|, pos, 0, text, Insert(text, pos, s))
  {
  }

  lemma FitsOver(text: seq<char>, pos: nat, s: seq<char>)
    requires pos <= |text| && |s| > 0
    ensures Fits(pos, pos + |s|, pos, |s|, text, Over(text, pos, s))
  {
  }

  lemma FitsWithout(text: seq<char>, a: nat, b: nat, pos: nat)
    requires a <= b <= |text| && a <= pos
    ensures Fits(a, a, pos, 0, text, Without(text, a, b))
  {
  }

  lemma FitsSwap(e: Edit)
    requires 0 < e.pos < |e.text|
    ensures Fits(e.pos - 1, e.pos, e.pos, 2, e.text, Swapped(e).text)
  {
  }

  // ---------- runs ----------

  /** The editor after a run of commands, or the end of the program during it. */
  function After(e: Edit, run: seq<Command>): Outcome
    requires e.pos <= |e.text|
    decreases |run|
  {
    if |run| == 0 then Goes(e)
    else match Next(e, run[0])
      case Goes(f) => After(f, run[1..])
      case r => r
  }

  // ---------- the window position ----------

  /** A command that changes nothing on display leaves the window where it is. */
  predicate Redraws(e: Edit, c: Command)
    requires e.pos <= |e.text|
  {
    match c
    case Yank => e.kill != []
    case DeleteLeft => e.pos > 0
    case DeleteUnder => e.pos < |e.text|
    case Transpose => 0 < e.pos < |e.text|
    case Kill => e.pos < |e.text|
    case Wipe => e.mark >= 0 && e.mark != e.pos
    case KillBackWord => e.pos > 0
    case Exchange => e.mark >= 0
    case SetMark => false
    case ToggleOverwrite => false
    case _ => true
  }

  /** The window position after a command that goes on. */
  function NextShift(e: Edit, c: Command, shift: nat, scroll: nat, width: nat): nat
    requires e.pos <= |e.text| && scroll >= 1
  {
    if !Next(e, c).Goes? || !Redraws(e, c) then shift
    else if c == RedrawLine then ShiftFor([], 0, e.pos, scroll, width)
    else if c == KillLine && e.text != [] then
      ShiftFor(e.text, ShiftFor(e.text, shift, 0, scroll, width), 0, scroll, width)
    else ShiftFor(e.text, shift, Next(e, c).e.pos, scroll, width)
  }

  /** The window position after a run of commands. */
  function ShiftAfter(e: Edit, run: seq<Command>, shift: nat, scroll: nat, width: nat): nat
    requires e.pos <= |e.text| && scroll >= 1
    decreases |run|
  {
    if |run| == 0 || !Next(e, run[0]).Goes? then shift
    else ShiftAfter(Next(e, run[0]).e, run[1..], NextShift(e, run[0], shift, scroll, width), scroll, width)
  }

  /** Every line a run comes to leaves one column free. */
  predicate AlwaysShort(e: Edit, run: seq<Command>, width: nat)
    requires e.pos <= |e.text|
    decreases |run|
  {
    |e.text| < width && (|run| > 0 && Next(e, run[0]).Goes? ==> AlwaysShort(Next(e, run[0]).e, run[1..], width))
  }

  lemma ShortStep(e: Edit, c: Command, scroll: nat, width: nat)
    requires e.pos <= |e.text| < width && scroll >= 1
    requires Next(e, c).Goes? ==> |Next(e, c).e.text| < width
    ensures NextShift(e, c, 0, scroll, width) == 0
  {
    hide Next, Display.ShiftFor;
    ShortStaysUnshifted([], e.pos, scroll, width);
    ShortStaysUnshifted(e.text, 0, scroll, width);
    if Next(e, c).Goes? {
      ShortStaysUnshifted(e.text, Next(e, c).e.pos, scroll, width);
    }
  }

  /** While all lines are short the window does not move. */
  lemma {:induction false} ShortRunIsUnshifted(e: Edit, run: seq<Command>, scroll: nat, width: nat)
    requires e.pos <= |e.text| && scroll >= 1 && AlwaysShort(e, run, width)
    ensures ShiftAfter(e, run, 0, scroll, width) == 0
    ensures After(e, run).Goes? ==> |After(e, run).e.text| < width
    decreases |run|
  {
    hide Next, NextShift;
    if |run| > 0 {
      ShortStep(e, run[0], scroll, width);
      if Next(e, run[0]).Goes? {
        ShortRunIsUnshifted(Next(e, run[0]).e, run[1..], scroll, width);
      }
    }
  }

  lemma {:induction false} ShiftAfterConcat(e: Edit, a: seq<Command>, b: seq<Command>, shift: nat, scroll: nat,
                                            width: nat)
    requires e.pos <= |e.text| && scroll >= 1 && After(e, a).Goes?
    ensures After(e, a).e.pos <= |After(e, a).e.text|
    ensures ShiftAfter(e, a + b, shift, scroll, width)
         == ShiftAfter(After(e, a).e, b, ShiftAfter(e, a, shift, scroll, width), scroll, width)
    decreases |a|
  {
    hide Next, NextShift;
    if a == [] {
      assert a + b == b;
    } else {
      assert (a + b)[0] == a[0] && (a + b)[1..] == a[1..] + b;
      ShiftAfterConcat(Next(e, a[0]).e, a[1..], b, NextShift(e, a[0], shift, scroll, width), scroll, width);
    }
  }

  lemma {:induction false} AfterConcat(e: Edit, a: seq<Command>, b: seq<Command>)
    requires e.pos <= |e.text|
    ensures var r := After(e, a); (r.Goes? ==> r.e.pos <= |r.e.text|)
    ensures After(e, a + b) == if After(e, a).Goes? then After(After(e, a).e, b) else After(e, a)
    decreases |a|
  {
    hide Next;
    if a == [] {
      assert a + b == b;
    } else {
      assert (a + b)[0] == a[0] && (a + b)[1..] == a[1..] + b;
      match Next(e, a[0])
      case Goes(f) => AfterConcat(f, a[1..], b);
      case _ =>
    }
  }

  /** The editor has come to the i-th command of a run, the word kill, on a full line of separators. */
  ghost predicate OverrunAt(e: Edit, run: seq<Command>, i: nat)
    requires e.pos <= |e.text|
  {
    && i < |run| && run[i] == KillWord
    && var r := After(e, run[..i]);
       r.Goes? && AllSeparators(r.e.text, r.e.pos)
  }

  /** The kill buffer is overrun in a run if and only if it comes to a word kill on a full line of separators. */
  lemma {:induction false} OverrunExactly(e: Edit, run: seq<Command>)
    requires e.pos <= |e.text|
    ensures After(e, run) == Overrun <==> exists i: nat :: OverrunAt(e, run, i)
    decreases |run|
  {
    forall i: nat | OverrunAt(e, run, i)
      ensures After(e, run) == Overrun
    {
      AfterConcat(e, run[..i], run[i..]);
      assert run == run[..i] + run[i..] && run[i..][0] == KillWord;
    }
    if After(e, run) == Overrun {
      OverrunStep(e, run);
    }
  }

  lemma OverrunIs(e: Edit, c: Command)
    requires e.pos <= |e.text|
    ensures Next(e, c) == Overrun <==> c == KillWord && AllSeparators(e.text, e.pos)
  {
  }

  lemma {:induction false} OverrunStep(e: Edit, run: seq<Command>)
    requires e.pos <= |e.text| && After(e, run) == Overrun
    ensures exists i: nat :: OverrunAt(e, run, i)
    decreases |run|
  {
    hide Next;
    OverrunIs(e, run[0]);
    match Next(e, run[0])
    case Goes(f) =>
      OverrunStep(f, run[1..]);
      var i: nat :| OverrunAt(f, run[1..], i);
      assert run[..i + 1][0] == run[0] && run[..i + 1][1..] == run[1..][..i];
      assert OverrunAt(e, run, i + 1);
    case Overflow =>
    case Overrun =>
      assert OverrunAt(e, run, 0);
  }

  /** A line of blanks that has been typed. */
  function TypedBlanks(n: nat): Edit {
    Edit(Blank(n), n, -1, [], false)
  }

  lemma {:induction false} TypingBlanks(n: nat)
    requires n < BUF_SIZE
    ensures After(TypedBlanks(0), seq(n, i => Type(' '))) == Goes(TypedBlanks(n))
  {
    if n > 0 {
      var before := seq(n - 1, i => Type(' '));
      TypingBlanks(n - 1);
      AfterConcat(TypedBlanks(0), before, [Type(' ')]);
      assert seq(n, i => Type(' ')) == before + [Type(' ')];
      assert Insert(Blank(n - 1), n - 1, [' ']) == Blank(n);
    }
  }

  lemma {:induction false} TypingIsUnshifted(n: nat, scroll: nat, width: nat)
    requires n < width && n < BUF_SIZE && scroll >= 1
    ensures ShiftAfter(TypedBlanks(0), seq(n, i => Type(' ')), 0, scroll, width) == 0
  {
    if n > 0 {
      TypingIsUnshifted(n - 1, scroll, width);
      TypeOneMore(n, 0, scroll, width);
      ShortStaysUnshifted(Blank(n - 1), n, scroll, width);
    }
  }

  lemma TypeOneMore(n: nat, shift: nat, scroll: nat, width: nat)
    requires 0 < n < BUF_SIZE && scroll >= 1
    requires ShiftAfter(TypedBlanks(0), seq(n - 1, i => Type(' ')), 0, scroll, width) == shift
    ensures ShiftAfter(TypedBlanks(0), seq(n, i => Type(' ')), 0, scroll, width)
         == ShiftFor(Blank(n - 1), shift, n, scroll, width)
  {
    hide Display.ShiftFor;
    var before, last := seq(n - 1, i => Type(' ')), [Type(' ')];
    TypingBlanks(n - 1);
    ShiftAfterConcat(TypedBlanks(0), before, last, 0, scroll, width);
    assert seq(n, i => Type(' ')) == before + last;
    ShiftOfOne(TypedBlanks(n - 1), Type(' '), shift, scroll, width);
  }

  lemma ShiftOfOne(e: Edit, c: Command, shift: nat, scroll: nat, width: nat)
    requires e.pos <= |e.text| && scroll >= 1
    ensures ShiftAfter(e, [c], shift, scroll, width) == NextShift(e, c, shift, scroll, width)
  {
    hide Next;
    assert [c][1..] == [];
  }

  /**
   On every terminal a line that has become too long stays shifted when it fits again: as many blanks as there are
   columns, and one of them deleted.
   */
  lemma ShortLineStaysShifted(scroll: nat, width: nat)
    requires scroll >= 1 && scroll + 3 <= width < BUF_SIZE
    ensures var run := seq(width, i => Type(' ')) + [DeleteLeft];
            var shift := ShiftAfter(TypedBlanks(0), run, 0, scroll, width);
            && After(TypedBlanks(0), run) == Goes(TypedBlanks(width - 1))
            && shift > 0 && View(Blank(width - 1), shift, width)[0] == '$'
  {
    hide Next, NextShift, ShiftAfter, After, Display.ShiftFor;
    var blanks, e := seq(width, i => Type(' ')), TypedBlanks(width);
    TypingIsUnshifted(width - 1, scroll, width);
    TypeOneMore(width, 0, scroll, width);
    TypingBlanks(width);
    var shift := ShiftAfter(TypedBlanks(0), blanks, 0, scroll, width);
    AfterConcat(TypedBlanks(0), blanks, [DeleteLeft]);
    ShiftAfterConcat(TypedBlanks(0), blanks, [DeleteLeft], 0, scroll, width);
    ShiftOfOne(e, DeleteLeft, shift, scroll, width);
    DeleteLastBlank(width);
    OneTooLong(width, scroll);
    ShiftOfDelete(width, shift, scroll, width);
  }

  lemma ShiftOfDelete(n: nat, shift: nat, scroll: nat, width: nat)
    requires n > 0 && scroll >= 1
    ensures NextShift(TypedBlanks(n), DeleteLeft, shift, scroll, width)
         == ShiftFor(Blank(n), shift, n - 1, scroll, width)
  {
    hide Display.ShiftFor;
  }

  lemma OneTooLong(width: nat, scroll: nat)
    requires scroll >= 1 && scroll + 3 <= width
    ensures ShiftFor(Blank(width - 1), 0, width, scroll, width) == scroll
    ensures ShiftFor(Blank(width), scroll, width - 1, scroll, width) > 0
  {
    assert scroll / scroll * scroll == scroll;
    UnshiftedExactly(Blank(width), scroll, width - 1, scroll, width);
  }

  lemma DeleteLastBlank(n: nat)
    requires n > 0
    ensures Next(TypedBlanks(n), DeleteLeft) == Goes(TypedBlanks(n - 1))
    ensures After(TypedBlanks(n), [DeleteLeft]) == Goes(TypedBlanks(n - 1))
  {
    assert Without(Blank(n), n - 1, n) == Blank(n - 1);
    assert [DeleteLeft][1..] == [];
  }

  /** From the empty line: 1023 blanks, to the beginning of the line, and the word kill. */
  lemma BlanksOverrun()
    ensures After(Edit([], 0, -1, [], false), seq(1023, i => Type(' ')) + [LineStart, KillWord]) == Overrun
  {
    var e, blanks := Edit([], 0, -1, [], false), seq(1023, i => Type(' '));
    assert Blank(0) == [];
    TypingBlanks(1023);
    AfterConcat(e, blanks, [LineStart, KillWord]);
    assert Next(TypedBlanks(1023), LineStart) == Goes(TypedBlanks(1023).(pos := 0));
    assert [LineStart, KillWord][1..] == [KillWord];
    assert After(TypedBlanks(1023).(pos := 0), [KillWord]) == Overrun;
  }

  predicate Kills(c: Command) {
    c == Kill || c == KillLine || c == Wipe || c == KillWord || c == KillBackWord
  }

  /** The commands that move the cursor only. */
  predicate Moves(c: Command) {
    || c == LineStart || c == LineEnd || c == CursorLeft || c == CursorRight || c == BackWord || c == ForwardWord
    || c == Exchange
  }

  lemma CutThenInsert(e: Edit, a: nat, b: nat)
    requires a <= b <= |e.text|
    ensures var f := Cut(e, a, b); Insert(f.text, f.pos, f.kill) == e.text
  {
  }

  /** A text that has been killed and is yanked in insert mode is restored, exactly when the line is not full. */
  lemma KillThenYank(e: Edit, c: Command)
    requires WellFormed(e) && Kills(c) && !e.overwrite
    requires Next(e, c).Goes? && Next(e, c).e.text != e.text
    ensures var g := Next(Next(e, c).e, Yank);
            if |e.text| < BUF_SIZE - 1 then g.Goes? && g.e.text == e.text else g == Overflow
  {
    hide Yanked, Wiped, Without, NextWordEnd, PrevWordStart, AllSeparators, Display.IsLine;
    match c
    case Kill => CutThenYank(e, e.pos, |e.text|);
    case KillLine => CutThenYank(e.(pos := 0), 0, |e.text|);
    case KillWord => CutThenYank(e, e.pos, NextWordEnd(e.text, e.pos));
    case Wipe => WipeThenYank(e);
    case KillBackWord => WipeThenYank(e.(mark := PrevWordStart(e.text, e.pos)));
  }

  lemma CutThenYank(e: Edit, a: nat, b: nat)
    requires |e.text| < BUF_SIZE && !e.overwrite && a <= b <= |e.text| && Cut(e, a, b).text != e.text
    ensures var g := Yanked(Cut(e, a, b));
            if |e.text| < BUF_SIZE - 1 then g.Goes? && g.e.text == e.text else g == Overflow
  {
    CutThenInsert(e, a, b);
  }

  lemma WipeThenYank(e: Edit)
    requires WellFormed(e) && !e.overwrite && Wiped(e).text != e.text
    ensures var g := Yanked(Wiped(e));
            if |e.text| < BUF_SIZE - 1 then g.Goes? && g.e.text == e.text else g == Overflow
  {
    hide Yanked, Without, Display.IsLine;
    if e.mark < e.pos {
      CutThenYank(e, e.mark, e.pos);
    } else {
      CutThenYank(e, e.pos, Clamp(e.mark, |e.text|));
    }
  }

  /** Deleting to the left takes back what has been typed in insert mode. */
  lemma TypeThenDelete(e: Edit, c: char)
    requires e.pos <= |e.text| && !e.overwrite && Typed(e, c).Goes?
    ensures Next(Typed(e, c).e, DeleteLeft) == Goes(e)
  {
    var f := Typed(e, c).e;
    assert f.text[..e.pos] == e.text[..e.pos] && f.text[e.pos + 1..] == e.text[e.pos..];
    assert Without(f.text, e.pos, e.pos + 1) == e.text;
  }

  lemma TransposeTwice(e: Edit)
    requires e.pos <= |e.text|
    ensures Swapped(Swapped(e)) == e
  {
    assert Swapped(Swapped(e)).text == e.text;
  }

  /** Exchanging twice goes back, unless the mark lies behind the end of the text. */
  lemma ExchangeTwice(e: Edit)
    requires e.pos <= |e.text| && e.mark >= -1
    ensures Next(Next(e, Exchange).e, Exchange) == Goes(e) <==> e.mark <= |e.text|
  {
  }
}
