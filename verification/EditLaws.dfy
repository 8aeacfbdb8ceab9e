/**
 What the commands of the line editor have to do with each other: each of them does what others, or typing, would do.
 */
module EditLaws {
  import opened Display
  import opened EditModel

  lemma AfterTwo(e: Edit, a: Command, b: Command)
    requires e.pos <= |e.text|
    ensures After(e, [a]) == Next(e, a)
    ensures After(e, [a, b]) == if Next(e, a).Goes? then Next(Next(e, a).e, b) else Next(e, a)
  {
    AfterOne(e, a);
    hide Next;
    assert [a, b][1..] == [b];
    if Next(e, a).Goes? {
      AfterOne(Next(e, a).e, b);
    }
  }

  lemma AfterOne(e: Edit, a: Command)
    requires e.pos <= |e.text|
    ensures After(e, [a]) == Next(e, a)
  {
    hide Next;
    assert [a][1..] == [];
  }

  /** A run of three commands by its states. */
  lemma AfterThree(e: Edit, a: Command, f: Edit, b: Command, g: Edit, c: Command)
    requires e.pos <= |e.text| && Next(e, a) == Goes(f) && Next(f, b) == Goes(g)
    ensures After(e, [a, b, c]) == Next(g, c)
  {
    hide Next;
    assert [a, b, c][1..] == [b, c];
    AfterTwo(f, b, c);
  }

  // ---------- the cursor ----------

  /** A typed character is to the left of the cursor: one step back it is under it. */
  lemma TypeLeftDelete(e: Edit, c: char)
    requires e.pos <= |e.text| && !e.overwrite && Typed(e, c).Goes?
    ensures After(e, [Type(c), CursorLeft, DeleteUnder]) == Goes(e)
  {
    var f := Typed(e, c).e;
    AfterThree(e, Type(c), f, CursorLeft, f.(pos := e.pos), DeleteUnder);
    assert f.text[..e.pos] == e.text[..e.pos] && f.text[e.pos + 1..] == e.text[e.pos..];
    assert Without(f.text, e.pos, e.pos + 1) == e.text;
  }

  /** Deleting to the left, one step further, is deleting under the cursor. */
  lemma RightDeleteLeft(e: Edit)
    requires e.pos < |e.text|
    ensures After(e, [CursorRight, DeleteLeft]) == Next(e, DeleteUnder)
    ensures Next(e, DeleteUnder).Goes? && Next(e, DeleteUnder) != Goes(e)
  {
    OneStepRight(e);
    hide Next, After;
    AfterTwo(e, CursorRight, DeleteLeft);
  }

  lemma OneStepRight(e: Edit)
    requires e.pos < |e.text|
    ensures var f := e.(pos := e.pos + 1);
            Next(e, CursorRight) == Goes(f) && Next(f, DeleteLeft) == Next(e, DeleteUnder)
    ensures Next(e, DeleteUnder).Goes? && Next(e, DeleteUnder) != Goes(e)
  {
    assert |Without(e.text, e.pos, e.pos + 1)| == |e.text| - 1;
  }

  /** As many steps as there are characters on that side, or more, lead to the beginning or the end of the line. */
  lemma {:induction false} StepsToStart(e: Edit, n: nat)
    requires e.pos <= |e.text| && n >= e.pos
    ensures After(e, seq(n, i => CursorLeft)) == Next(e, LineStart)
    ensures After(e, [LineStart, DeleteLeft]) == Next(e, LineStart)
    decreases n
  {
    AfterTwo(e, LineStart, DeleteLeft);
    if n > 0 {
      var f := Next(e, CursorLeft).e;
      assert seq(n, i => CursorLeft)[1..] == seq(n - 1, i => CursorLeft);
      StepsToStart(f, n - 1);
    }
  }

  lemma {:induction false} StepsToEnd(e: Edit, n: nat)
    requires e.pos <= |e.text| && n >= |e.text| - e.pos
    ensures After(e, seq(n, i => CursorRight)) == Next(e, LineEnd)
    ensures After(e, [LineEnd, DeleteUnder]) == Next(e, LineEnd)
    decreases n
  {
    AfterTwo(e, LineEnd, DeleteUnder);
    if n > 0 {
      var f := Next(e, CursorRight).e;
      assert seq(n, i => CursorRight)[1..] == seq(n - 1, i => CursorRight);
      StepsToEnd(f, n - 1);
    }
  }

  /** The three commands for words lead to the places that are described by what a word is. */
  lemma WordMoves(e: Edit)
    requires e.pos <= |e.text|
    ensures Next(e, BackWord).Goes? && Next(e, ForwardWord).Goes?
    ensures var f := Next(e, BackWord).e;
            && f == e.(pos := f.pos) && f.pos <= e.pos && (f.pos == 0 || WordStart(e.text, f.pos))
            && (e.pos > 0 ==> f.pos < e.pos) && forall m :: f.pos < m < e.pos ==> !WordStart(e.text, m)
    ensures var f := Next(e, ForwardWord).e;
            && f == e.(pos := f.pos) && e.pos <= f.pos <= |e.text| && (f.pos == |e.text| || WordStart(e.text, f.pos))
            && (e.pos < |e.text| ==> e.pos < f.pos) && forall m :: e.pos < m < f.pos ==> !WordStart(e.text, m)
  {
  }

  /** A word consists of these characters. */
  lemma WordCharacters(c: char)
    ensures !White(c) <==>
              || c in "abcdefghijklmnopqrstuvwxyz" || c in "ABCDEFGHIJKLMNOPQRSTUVWXYZ" || c in "0123456789" || c == '_'
  {
    Consecutive("abcdefghijklmnopqrstuvwxyz", 'a', c);
    Consecutive("ABCDEFGHIJKLMNOPQRSTUVWXYZ", 'A', c);
    Consecutive("0123456789", '0', c);
  }

  lemma Consecutive(all: string, first: char, c: char)
    requires forall i :: 0 <= i < |all| ==> all[i] as int == first as int + i
    ensures c in all <==> 0 <= c as int - first as int < |all|
  {
    var i := c as int - first as int;
    if 0 <= i < |all| {
      assert all[i] == c;
    }
  }

  // ---------- typing ----------

  function Types(s: seq<char>): seq<Command> {
    seq(|s|, i requires 0 <= i < |s| => Type(s[i]))
  }

  function Put(e: Edit, s: seq<char>): seq<char>
    requires e.pos <= |e.text|
  {
    if e.overwrite then Over(e.text, e.pos, s) else Insert(e.text, e.pos, s)
  }

  /** A typed text stands where the cursor was, before or instead of what was there. */
  lemma {:induction false} TypingText(e: Edit, s: seq<char>)
    requires e.pos <= |e.text| < BUF_SIZE - 1 && |Put(e, s)| < BUF_SIZE
    ensures After(e, Types(s)) == Goes(e.(text := Put(e, s), pos := e.pos + |s|))
    decreases |s|
  {
    if s == [] {
      assert Put(e, s) == e.text;
    } else {
      var k := |s| - 1;
      var front, c := s[..k], s[k];
      var f := e.(text := Put(e, front), pos := e.pos + k);
      assert s == front + [c];
      assert Types(s) == Types(front) + [Type(c)];
      TypingText(e, front);
      AfterConcat(e, Types(front), [Type(c)]);
      AfterTwo(f, Type(c), Type(c));
      PutOneMore(e, front, c);
    }
  }

  lemma PutOneMore(e: Edit, s: seq<char>, c: char)
    requires e.pos <= |e.text|
    ensures e.pos + |s| <= |Put(e, s)|
    ensures Put(e.(text := Put(e, s), pos := e.pos + |s|), [c]) == Put(e, s + [c])
  {
    var t := Put(e, s);
    assert t[..e.pos + |s|] == e.text[..e.pos] + s;
    assert t[e.pos + |s|..] == if !e.overwrite then e.text[e.pos..]
                               else if e.pos + |s| <= |e.text| then e.text[e.pos + |s|..] else [];
  }

  /** What is yanked stands there as if it had been typed, in either mode, with the mark at its beginning. */
  lemma YankIsTyping(e: Edit)
    requires e.pos <= |e.text| < BUF_SIZE - 1 && Next(e, Yank).Goes? && |Put(e, e.kill)| < BUF_SIZE
    ensures e.kill != [] ==>
              After(e, Types(e.kill)) == Goes(Next(e, Yank).e.(mark := e.mark)) && Next(e, Yank).e.mark == e.pos
    ensures e.kill == [] ==> Next(e, Yank) == Goes(e)
  {
    TypingText(e, e.kill);
    hide After;
  }

  /** In overwrite mode a yank that ends within the text is possible even if the line is full. */
  lemma YankOver(e: Edit)
    requires e.pos <= |e.text| < 1024 && e.overwrite && e.kill != []
    ensures var n := e.pos + |e.kill|;
            if n <= |e.text| then
              Next(e, Yank) == Goes(e.(text := e.text[..e.pos] + e.kill + e.text[n..], pos := n, mark := e.pos))
            else if n < 1023 then
              Next(e, Yank) == Goes(e.(text := e.text[..e.pos] + e.kill, pos := n, mark := e.pos))
            else Next(e, Yank) == Overflow
  {
  }

  /** A line of the history is what comes of typing it on the empty line. */
  lemma LoadIsTyping(e: Edit, line: seq<char>)
    requires e.pos <= |e.text| && |line| < BUF_SIZE
    ensures After(e.(text := [], pos := 0), Types(line)) == Next(e, Load(line))
  {
    TypingText(e.(text := [], pos := 0), line);
    assert Put(e.(text := [], pos := 0), line) == line;
  }

  /** In overwrite mode the character that was there takes the typed one back. */
  lemma OverwriteTwice(e: Edit, c: char)
    requires e.pos < |e.text| < BUF_SIZE - 1 && e.overwrite
    ensures After(e, [Type(c), CursorLeft, Type(e.text[e.pos])]) == Goes(e.(pos := e.pos + 1))
    ensures Next(e, Type(c)).Goes? && Next(e, Type(c)).e.text[e.pos] == c
  {
    hide After;
    var d := e.text[e.pos];
    OverOne(e.text, e.pos, c);
    OverOne(e.text[e.pos := c], e.pos, d);
    hide EditModel.Over;
    var f := Typed(e, c).e;
    AfterThree(e, Type(c), f, CursorLeft, f.(pos := e.pos), Type(d));
    assert e.text[e.pos := c][e.pos := d] == e.text;
  }

  lemma OverOne(text: seq<char>, pos: nat, c: char)
    requires pos < |text|
    ensures Over(text, pos, [c]) == text[pos := c]
  {
  }

  /** Overwriting is switched on and off, and nothing else. */
  lemma ToggleTwice(e: Edit)
    requires e.pos <= |e.text|
    ensures After(e, [ToggleOverwrite, ToggleOverwrite]) == Goes(e) != Next(e, ToggleOverwrite)
    ensures Next(e, ToggleOverwrite) == Goes(e.(overwrite := !e.overwrite)) && Next(e, RedrawLine) == Goes(e)
  {
    AfterTwo(e, ToggleOverwrite, ToggleOverwrite);
  }

  /** Transposing is deleting the left one of two characters and typing it behind the right one. */
  lemma TransposeIs(e: Edit)
    requires 0 < e.pos < |e.text| < BUF_SIZE && !e.overwrite
    ensures After(e, [DeleteLeft, CursorRight] + [Type(e.text[e.pos - 1]), CursorLeft]) == Next(e, Transpose)
  {
    var p, c := e.pos, e.text[e.pos - 1];
    var f := e.(text := Without(e.text, p - 1, p));
    TransposeParts(e, f);
    hide Next, After;
    AfterTwo(e, DeleteLeft, CursorRight);
    AfterConcat(e, [DeleteLeft, CursorRight], [Type(c), CursorLeft]);
    AfterTwo(f, Type(c), CursorLeft);
  }

  lemma TransposeParts(e: Edit, f: Edit)
    requires 0 < e.pos < |e.text| < BUF_SIZE && !e.overwrite
    requires f == e.(text := Without(e.text, e.pos - 1, e.pos))
    ensures Next(e, DeleteLeft) == Goes(f.(pos := e.pos - 1)) && Next(f.(pos := e.pos - 1), CursorRight) == Goes(f)
    ensures var g := Next(f, Type(e.text[e.pos - 1])); g.Goes? && Next(g.e, CursorLeft) == Next(e, Transpose)
  {
    assert Insert(f.text, e.pos, [e.text[e.pos - 1]]) == Swapped(e).text;
  }

  /** At the ends there is nothing to transpose. */
  lemma TransposeAtEnds(e: Edit)
    requires e.pos == 0 || e.pos == |e.text|
    ensures Next(e, Transpose) == Goes(e)
  {
  }

  // ---------- killing ----------

  /** A region that has been typed since the mark was set is killed, whatever it is. */
  lemma TypedIsWiped(e: Edit, s: seq<char>)
    requires e.pos <= |e.text| && !e.overwrite && |e.text| + |s| < BUF_SIZE && s != []
    ensures After(e, [SetMark] + Types(s) + [Wipe]) == Goes(e.(mark := e.pos, kill := s))
  {
    var e1 := e.(mark := e.pos);
    var f := e1.(text := Insert(e.text, e.pos, s), pos := e.pos + |s|);
    TypingText(e1, s);
    WipeSteps(e, s);
    hide Next, After, Types;
    AfterOne(e, SetMark);
    AfterConcat(e, [SetMark], Types(s));
    AfterConcat(e, [SetMark] + Types(s), [Wipe]);
    AfterOne(f, Wipe);
  }

  lemma WipeSteps(e: Edit, s: seq<char>)
    requires e.pos <= |e.text| && s != []
    ensures Next(e, SetMark) == Goes(e.(mark := e.pos))
    ensures Next(e.(text := Insert(e.text, e.pos, s), pos := e.pos + |s|, mark := e.pos), Wipe)
         == Goes(e.(mark := e.pos, kill := s))
  {
    var text := Insert(e.text, e.pos, s);
    assert text[e.pos..e.pos + |s|] == s && Without(text, e.pos, e.pos + |s|) == e.text;
  }

  /** Which end of the region the cursor is at does not matter. */
  lemma ExchangeThenWipe(e: Edit)
    requires e.pos <= |e.text| && 0 <= e.mark <= |e.text| && e.mark != e.pos
    ensures Next(e, Exchange) == Goes(e.(pos := e.mark, mark := e.pos))
    ensures var f, g := After(e, [Exchange, Wipe]), Next(e, Wipe);
            f.Goes? && g.Goes? && f.e.text == g.e.text && f.e.kill == g.e.kill && f.e.pos == g.e.pos
    ensures |Next(e, Wipe).e.text| + |Next(e, Wipe).e.kill| == |e.text| && Next(e, Wipe).e.kill != []
  {
    AfterTwo(e, Exchange, Wipe);
  }

  /** Without a mark there is nothing to wipe and nothing to exchange. */
  lemma NoMark(e: Edit)
    requires e.pos <= |e.text| && e.mark < 0
    ensures Next(e, Wipe) == Goes(e) == Next(e, Exchange)
  {
  }

  /** Killing to the end is wiping from here to the end. */
  lemma KillIsWipe(e: Edit)
    requires e.pos <= |e.text|
    ensures After(e, [SetMark, LineEnd, Wipe]) == After(e, [SetMark, Kill])
    ensures After(e, [LineStart, Kill]) == Next(e, KillLine)
    ensures e.pos == |e.text| ==> Next(e, Kill) == Goes(e)
  {
    var e1 := e.(mark := e.pos);
    KillSteps(e);
    hide Next, After;
    AfterThree(e, SetMark, e1, LineEnd, e1.(pos := |e.text|), Wipe);
    AfterTwo(e, SetMark, Kill);
    AfterTwo(e, LineStart, Kill);
  }

  lemma KillSteps(e: Edit)
    requires e.pos <= |e.text|
    ensures var e1 := e.(mark := e.pos); var g := e1.(pos := |e.text|);
            Next(e, SetMark) == Goes(e1) && Next(e1, LineEnd) == Goes(g) && Next(g, Wipe) == Next(e1, Kill)
    ensures Next(e, LineStart) == Goes(e.(pos := 0)) && Next(e.(pos := 0), Kill) == Next(e, KillLine)
    ensures e.pos == |e.text| ==> Next(e, Kill) == Goes(e)
  {
    hide Without;
  }

  /** The word kill takes what is up to the nearest end of a word; the cursor stays. */
  lemma KillWordTakes(e: Edit)
    requires e.pos <= |e.text| && !AllSeparators(e.text, e.pos)
    ensures Next(e, KillWord).Goes?
    ensures var f := Next(e, KillWord).e; var k := e.pos + |f.kill|;
            && f == e.(text := f.text, kill := f.kill)
            && k <= |e.text| && f.text == e.text[..e.pos] + e.text[k..] && f.kill == e.text[e.pos..k]
            && (k == |e.text| || WordEnd(e.text, k)) && (e.pos < |e.text| ==> e.pos < k)
            && forall m :: e.pos < m < k ==> !WordEnd(e.text, m)
  {
  }

  /** Killing a word backwards is wiping from here back to where the move goes. */
  lemma KillBackWordIs(e: Edit)
    requires e.pos <= |e.text|
    ensures var f, g := After(e, [SetMark, BackWord, Wipe]), Next(e, KillBackWord);
            && f.Goes? && g.Goes?
            && f.e.text == g.e.text && f.e.pos == g.e.pos && f.e.kill == g.e.kill && f.e.overwrite == g.e.overwrite
  {
    var e1 := e.(mark := e.pos);
    KillBackSteps(e);
    hide Next, After;
    AfterThree(e, SetMark, e1, BackWord, e1.(pos := PrevWordStart(e.text, e.pos)), Wipe);
  }

  lemma KillBackSteps(e: Edit)
    requires e.pos <= |e.text|
    ensures var e1 := e.(mark := e.pos); var g := e1.(pos := PrevWordStart(e.text, e.pos));
            && Next(e, SetMark) == Goes(e1) && Next(e1, BackWord) == Goes(g)
            && var f, h := Next(g, Wipe), Next(e, KillBackWord);
               && f.Goes? && h.Goes?
               && f.e.text == h.e.text && f.e.pos == h.e.pos && f.e.kill == h.e.kill && f.e.overwrite == h.e.overwrite
  {
    hide Without;
  }

  /** What has been yanked is wiped again. */
  lemma YankThenWipe(e: Edit)
    requires e.pos <= |e.text| && !e.overwrite && e.kill != [] && Next(e, Yank).Goes?
    ensures After(e, [Yank, Wipe]) == Goes(e.(mark := e.pos))
  {
    var n := |e.kill|;
    AfterTwo(e, Yank, Wipe);
    var f := Next(e, Yank).e;
    assert f.text[e.pos..e.pos + n] == e.kill && Without(f.text, e.pos, e.pos + n) == e.text;
  }

  // ---------- the window ----------

  /** A command that finds nothing to do, or changes only the mark or the mode, leaves the window where it is. */
  lemma WindowStays(e: Edit, c: Command, shift: nat, scroll: nat, width: nat)
    requires e.pos <= |e.text| && scroll >= 1
    requires match c
             case SetMark => true
             case ToggleOverwrite => true
             case DeleteLeft => e.pos == 0
             case KillBackWord => e.pos == 0
             case DeleteUnder => e.pos == |e.text|
             case Kill => e.pos == |e.text|
             case Transpose => e.pos == 0 || e.pos == |e.text|
             case Yank => e.kill == []
             case Exchange => e.mark < 0
             case Wipe => e.mark < 0 || e.mark == e.pos
             case _ => false
    ensures NextShift(e, c, shift, scroll, width) == shift
  {
  }

  /** Otherwise a deletion moves the window as the cursor key to its left, and typing as the one to its right. */
  lemma WindowOfDeletion(e: Edit, c: char, shift: nat, scroll: nat, width: nat)
    requires 0 < e.pos < |e.text| < BUF_SIZE - 1 && scroll >= 1
    ensures var moved := NextShift(e, CursorLeft, shift, scroll, width);
            && NextShift(e, DeleteLeft, shift, scroll, width) == moved
            && NextShift(e.(pos := e.pos - 1), DeleteUnder, shift, scroll, width) == moved
            && NextShift(e.(pos := e.pos - 1), Kill, shift, scroll, width) == moved
    ensures NextShift(e, Type(c), shift, scroll, width) == NextShift(e, CursorRight, shift, scroll, width)
  {
    hide Display.ShiftFor;
  }

  /** And so do the other commands that leave the cursor there. */
  lemma WindowOfOthers(e: Edit, shift: nat, scroll: nat, width: nat)
    requires 0 < e.pos < |e.text| && scroll >= 1
    ensures var moved := NextShift(e, CursorLeft, shift, scroll, width);
            && NextShift(e.(pos := e.pos - 1, mark := e.pos), Wipe, shift, scroll, width) == moved
            && NextShift(e.(mark := e.pos - 1), Exchange, shift, scroll, width) == moved
            && (e.pos > 1 ==> NextShift(e.(pos := e.pos - 1), Transpose, shift, scroll, width) == moved)
  {
    hide Display.ShiftFor;
  }

  /** Killing the line moves the window twice, as going to its beginning and killing to its end do. */
  lemma WindowOfKillLine(e: Edit, shift: nat, scroll: nat, width: nat)
    requires e.pos <= |e.text| && scroll >= 1
    ensures NextShift(e, KillLine, shift, scroll, width) == ShiftAfter(e, [LineStart, Kill], shift, scroll, width)
  {
    var f := e.(pos := 0);
    assert [LineStart, Kill][1..] == [Kill] && [Kill][1..] == [];
    assert Next(e, LineStart) == Goes(f) && Next(f, Kill).Goes?;
  }

  /** A line that is drawn anew is shown unshifted if the cursor fits, wherever the window was before. */
  lemma WindowOfRedrawLine(e: Edit, shift: nat, scroll: nat, width: nat)
    requires e.pos <= |e.text| && scroll >= 1 && width >= 1
    ensures var s := NextShift(e, RedrawLine, shift, scroll, width);
            (s == 0 <==> e.pos < width) && e.pos < s + width && (s > 0 ==> e.pos >= s - scroll + width)
  {
    assert Extra([], 0, e.pos, scroll, width) == 0;
    UnshiftedExactly([], 0, e.pos, scroll, width);
    var k := NewShiftIsLeast(e.pos, 0, scroll, width);
    hide Display.NewShift;
  }
}
