/**
 The line editor: a text buffer edited in place, with a redisplay that emits only what is
 necessary to bring the terminal line up to date.
 */
module LineEditor {
  import opened Display
  import opened EditModel

  class Editor {
    const gl_width: nat       // columns available for input
    const gl_scroll: nat      // how far the window moves at a time
    const gl_buf: array<char>
    const gl_killbuf: array<char>
    var gl_cnt: nat
    var gl_pos: nat
    var gl_mark: int
    var gl_extent: nat        // how far to redraw, 0 means all
    var gl_overwrite: bool
    var gl_shift: nat         // first character on screen
    var off_right: bool       // more text right of the screen
    var off_left: bool        // more text left of the screen
    var screen: Screen        // the terminal
    ghost var kill: seq<char> // the killed text

    /** The buffer holds this text, terminated by NUL. */
    ghost predicate Holds(text: seq<char>)
      reads gl_buf
    {
      && gl_buf.Length == BUF_SIZE && |text| < BUF_SIZE
      && gl_buf[..|text|] == text && gl_buf[|text|] == NUL && IsLine(text)
    }

    ghost predicate KillHolds()
      reads this`kill, gl_killbuf
    {
      && gl_killbuf.Length == BUF_SIZE && |kill| < BUF_SIZE
      && gl_killbuf[..|kill|] == kill && gl_killbuf[|kill|] == NUL && IsLine(kill)
    }

    /** The terminal shows this text, with the cursor at gl_pos, and the variables of the redisplay agree. */
    ghost predicate Displays(text: seq<char>)
      reads this`screen, this`gl_cnt, this`gl_pos, this`gl_shift, this`off_left, this`off_right
    {
      && gl_scroll >= 1 && gl_width >= gl_scroll + 3
      && gl_cnt == |text| && gl_pos <= gl_cnt
      && (gl_shift > 0 ==> gl_shift < gl_pos)
      && gl_pos < gl_shift + gl_width
      && off_left == (gl_shift > 0) && off_right == OffRight(text, gl_shift, gl_width)
      && screen == Screen(View(text, gl_shift, gl_width), gl_pos - gl_shift, false)
    }

    ghost function Text(): seq<char>
      requires gl_cnt <= gl_buf.Length
      reads this`gl_cnt, gl_buf
    {
      gl_buf[..gl_cnt]
    }

    ghost predicate Valid()
      reads this, gl_buf, gl_killbuf
    {
      && gl_buf != gl_killbuf && KillHolds()
      && -1 <= gl_mark < BUF_SIZE && gl_scroll >= 1
      && gl_pos <= gl_cnt < gl_buf.Length && Holds(Text()) && Displays(Text())
    }

    // ---------- output ----------

    method Putc(c: char)
      modifies this`screen
      ensures screen == Emit(old(screen), c)
    {
      screen := Emit(screen, c);
    }

    method Backspaces(n: nat)
      requires n <= screen.col
      modifies this`screen
      ensures screen == old(screen).(col := old(screen).col - n)
    {
      var i := 0;
      while i < n
        invariant i <= n && screen == old(screen).(col := old(screen).col - i)
      {
        Putc(BACKSPACE);
        i := i + 1;
      }
    }

    method Blanks(n: nat)
      requires 0 <= screen.col && screen.col + n < |screen.cells|
      modifies this`screen
      ensures screen == Write(old(screen), Blank(n))
    {
      var i := 0;
      while i < n
        invariant i <= n && screen == Write(old(screen), Blank(i))
      {
        WriteOneMore(old(screen), Blank(i), ' ');
        assert Blank(i) + [' '] == Blank(i + 1);
        Putc(' ');
        i := i + 1;
      }
    }

    /** Emit the characters of the buffer from position a up to position b. */
    method PutText(a: nat, b: nat)
      requires a <= b < gl_buf.Length && IsLine(gl_buf[a..b])
      requires 0 <= screen.col && screen.col + (b - a) < |screen.cells|
      modifies this`screen
      ensures screen == Write(old(screen), gl_buf[a..b])
    {
      var i := a;
      assert screen == Write(screen, gl_buf[a..a]);
      while i < b
        invariant a <= i <= b && screen == Write(old(screen), gl_buf[a..i])
      {
        assert Printable(gl_buf[a..b][i - a]);
        WriteOneMore(old(screen), gl_buf[a..i], gl_buf[i]);
        assert gl_buf[a..i] + [gl_buf[i]] == gl_buf[a..i + 1];
        Putc(gl_buf[i]);
        i := i + 1;
      }
    }

    method StrLen(ghost text: seq<char>) returns (n: nat)
      requires Holds(text)
      ensures n == |text|
    {
      n := 0;
      assert forall i :: 0 <= i < |text| ==> gl_buf[i] == text[i];
      while gl_buf[n] != NUL
        invariant n <= |text|
        decreases |text| - n
      {
        n := n + 1;
      }
    }

    // ---------- the redisplay ----------

    /** The sign for text that is hidden. */
    method Mark()
      requires 0 <= screen.col && screen.col + 1 < |screen.cells|
      modifies this`screen
      ensures screen == Write(old(screen), ['$'])
    {
      WriteNothing(screen);
      WriteOneMore(screen, [], '$');
      assert [] + ['$'] == ['$'];
      hide Display.Write;
      Putc('$');
    }

    static lemma WriteNothing(t: Screen)
      requires 0 <= t.col <= |t.cells|
      ensures Write(t, []) == t
    {
      assert Write(t, []).cells == t.cells;
    }

    method DrawHead(left: nat) returns (from: nat)
      requires off_left == (gl_shift > 0) && 0 <= screen.col && screen.col + |Head(gl_shift, left)| < |screen.cells|
      modifies this`screen
      ensures from == left + |Head(gl_shift, left)| && screen == Write(old(screen), Head(gl_shift, left))
    {
      hide Display.Write;
      from := left;
      WriteNothing(screen);
      if left == gl_shift && off_left {
        Mark();
        from := from + 1;
      }
    }

    method DrawTail(right: int, newRight: nat, padl: nat, ghost text: seq<char>)
      requires off_right == OffRight(text, gl_shift, gl_width) && right == Right(text, gl_shift, gl_width)
      requires 0 <= screen.col && screen.col + |Tail(text, gl_shift, gl_width, newRight, padl)| < |screen.cells|
      modifies this`screen, this`gl_pos
      ensures screen == Write(old(screen), Tail(text, gl_shift, gl_width, newRight, padl))
      ensures gl_pos == newRight + |Tail(text, gl_shift, gl_width, newRight, padl)|
    {
      hide Display.Write, Display.OffRight, Display.Right, Display.Blank;
      gl_pos := newRight;
      if off_right && newRight == right {
        Mark();
        gl_pos := gl_pos + 1;
      } else {
        Blanks(padl);
        gl_pos := gl_pos + padl;
      }
    }

    /** Draw the text from position left up to newRight, and clear padl cells or mark the rest. */
    method DrawLine(left: nat, right: int, newRight: nat, padl: nat, ghost text: seq<char>)
      requires Holds(text) && left + |Head(gl_shift, left)| <= newRight <= |text|
      requires off_left == (gl_shift > 0) && off_right == OffRight(text, gl_shift, gl_width)
      requires right == Right(text, gl_shift, gl_width)
      requires 0 <= screen.col && screen.col + |Drawn(text, gl_shift, gl_width, left, newRight, padl)| < |screen.cells|
      modifies this`screen, this`gl_pos
      ensures screen == Write(old(screen), Drawn(text, gl_shift, gl_width, left, newRight, padl))
      ensures gl_pos == newRight + |Tail(text, gl_shift, gl_width, newRight, padl)|
    {
      hide Display.Drawn, Display.Tail, Display.Head, Display.OffRight, Display.Right, Display.IsLine;
      hide Display.Write, Holds;
      DrawnInThree(screen, text, left, newRight, padl);
      var from := DrawHead(left);
      PutText(from, newRight);
      DrawTail(right, newRight, padl, text);
    }

    lemma DrawnInThree(t: Screen, text: seq<char>, left: nat, newRight: nat, padl: nat)
      requires Holds(text) && left + |Head(gl_shift, left)| <= newRight <= |text|
      requires 0 <= t.col && t.col + |Drawn(text, gl_shift, gl_width, left, newRight, padl)| < |t.cells|
      ensures newRight < gl_buf.Length
      ensures var head, tail := Head(gl_shift, left), Tail(text, gl_shift, gl_width, newRight, padl);
              var body := gl_buf[left + |head|..newRight];
              var t1 := Write(t, head);
              var t2 := Write(t1, body);
              && IsLine(body) && t.col + |head| < |t.cells| == |t1.cells| == |t2.cells|
              && t1.col == t.col + |head| && t2.col == t1.col + |body| && t2.col + |tail| < |t.cells|
              && Write(t2, tail) == Write(t, Drawn(text, gl_shift, gl_width, left, newRight, padl))
    {
      hide Display.Tail, Display.Head, Display.Write, Display.IsLine, Holds;
      var head, tail := Head(gl_shift, left), Tail(text, gl_shift, gl_width, newRight, padl);
      var body := text[left + |head|..newRight];
      BufferPart(left + |head|, newRight, text);
      assert Drawn(text, gl_shift, gl_width, left, newRight, padl) == head + body + tail;
      WriteThree(t, head, body, tail);
    }

    static lemma WriteThree(t: Screen, a: seq<char>, b: seq<char>, c: seq<char>)
      requires 0 <= t.col && t.col + |a + b + c| < |t.cells|
      ensures var t1 := Write(t, a); var t2 := Write(t1, b);
              && t1.col == t.col + |a| && t2.col == t1.col + |b|
              && |t1.cells| == |t.cells| == |t2.cells| && Write(t2, c) == Write(t, a + b + c)
    {
      WriteAgain(t, a, b);
      WriteAgain(t, a + b, c);
    }

    lemma BufferPart(from: nat, to: nat, text: seq<char>)
      requires Holds(text) && from <= to <= |text|
      ensures to < gl_buf.Length && gl_buf[from..to] == text[from..to] && IsLine(gl_buf[from..to])
    {
      assert gl_buf[from..to] == gl_buf[..|text|][from..to];
    }

    /** Bring the terminal line up to date by a good plan. */
    method Redraw(backup: int, left: nat, right: int, newRight: int, padl: nat,
                  ghost prev: seq<char>, ghost shift0: nat, ghost text: seq<char>, ghost cursor: nat)
      requires Holds(text) && gl_cnt == |text| && gl_shift <= cursor
      requires off_left == (gl_shift > 0) && off_right == OffRight(text, gl_shift, gl_width)
      requires Planned(prev, shift0, gl_pos, text, gl_shift, gl_width, cursor, left, right, newRight, backup)
      requires padl == Padding(prev, shift0, text, gl_shift, gl_width)
      requires screen == Screen(View(prev, shift0, gl_width), gl_pos - shift0, false)
      modifies this`screen, this`gl_pos
      ensures screen == Screen(View(text, gl_shift, gl_width), gl_pos - gl_shift, false)
      ensures 0 <= gl_pos - gl_shift < gl_width && cursor <= gl_pos
    {
      hide Holds, Display.View, Display.Planned, Display.Drawn, Display.Tail, Display.Head, Display.OffRight;
      hide Display.Right, Display.Padding, Display.Write;
      PlannedRedraw(prev, shift0, gl_pos, text, gl_shift, gl_width, cursor, left, right, newRight, backup);
      Backspaces(backup);
      DrawLine(left, right, newRight, padl, text);
    }

    /** Move to the cursor position, over text that is on display. */
    method MoveTo(cursor: nat, ghost text: seq<char>)
      requires Holds(text) && screen == Screen(View(text, gl_shift, gl_width), gl_pos - gl_shift, false)
      requires gl_shift <= cursor <= |text| && 0 <= gl_pos - gl_shift < gl_width
      requires cursor > gl_pos ==> ShowsBetween(text, gl_shift, gl_width, gl_pos, cursor)
      modifies this`screen, this`gl_pos
      ensures gl_pos == cursor && screen == Screen(View(text, gl_shift, gl_width), gl_pos - gl_shift, false)
    {
      if gl_pos - cursor > 0 {
        Backspaces(gl_pos - cursor);
      } else if gl_pos < cursor {
        BufferPart(gl_pos, cursor, text);
        WriteShown(text, gl_shift, gl_width, gl_pos, cursor);
        hide Display.View, Display.ShowsBetween, Display.IsLine, Holds;
        PutText(gl_pos, cursor);
      }
      gl_pos := cursor;
    }

    /** The state of the redisplay for this text, apart from what the terminal shows. */
    ghost predicate InWindow(text: seq<char>, pos: nat)
      reads this`gl_shift, this`off_left, this`off_right
    {
      && gl_scroll >= 1 && gl_width >= gl_scroll + 3
      && gl_shift <= pos <= |text| && pos < gl_shift + gl_width && (gl_shift > 0 ==> gl_shift < pos)
      && off_left == (gl_shift > 0) && off_right == OffRight(text, gl_shift, gl_width)
    }

    /** The window position for the cursor; if there is text to the right, two columns stay free. */
    method WindowFor(cursor: nat, ghost prev: seq<char>) returns (newShift: nat)
      requires gl_scroll >= 1 && gl_width >= gl_scroll + 3
      requires off_left == (gl_shift > 0) && off_right == OffRight(prev, gl_shift, gl_width)
      ensures newShift == ShiftFor(prev, gl_shift, cursor, gl_scroll, gl_width)
      ensures newShift <= cursor < newShift + gl_width - (if off_right then 2 else 0)
      ensures newShift > 0 ==> newShift < cursor
    {
      var extra := if off_right || (off_left && cursor < gl_shift + gl_width - gl_scroll / 2) then 2 else 0;
      CursorInWindow(cursor, extra, gl_scroll, gl_width);
      newShift := NewShift(cursor, extra, gl_scroll, gl_width);
    }

    /** Move the window; everything in it has to be redrawn. */
    method Scroll(newShift: nat, cursor: nat, ghost prev: seq<char>, ghost text: seq<char>)
      returns (left: nat, right: int)
      requires InWindow(prev, gl_pos) && gl_cnt == |text|
      requires newShift <= cursor <= |text| && cursor < newShift + gl_width && (newShift > 0 ==> newShift < cursor)
      modifies this`gl_shift, this`off_left, this`off_right
      ensures InWindow(text, cursor) && left <= right && gl_shift == newShift
      ensures Planned(prev, old(gl_shift), gl_pos, text, gl_shift, gl_width, cursor, left, right, right,
                      gl_pos - old(gl_shift))
    {
      ghost var shift0 := gl_shift;
      gl_shift := newShift;
      off_left := gl_shift > 0;
      off_right := gl_cnt > gl_shift + gl_width - 1;
      left := gl_shift;
      right := if off_right then gl_shift + gl_width - 2 else gl_cnt;
      ScrollPlan(prev, shift0, gl_pos, text, gl_shift, gl_width, cursor);
    }

    /** Choose the window, and what has to be redrawn in it. */
    method SetWindow(change: int, cursor: nat, ghost prev: seq<char>, ghost text: seq<char>)
      returns (left: nat, right: int, newRight: int, backup: int)
      requires InWindow(prev, gl_pos) && gl_cnt == |text| && cursor <= |text|
      requires Fits(change, cursor, gl_pos, gl_extent, prev, text)
      modifies this`gl_shift, this`off_left, this`off_right
      ensures InWindow(text, cursor) && gl_shift == ShiftFor(prev, old(gl_shift), cursor, gl_scroll, gl_width)
      ensures left <= right ==>
        Planned(prev, old(gl_shift), gl_pos, text, gl_shift, gl_width, cursor, left, right, newRight, backup)
      ensures left > right ==>
        && prev == text && gl_shift == old(gl_shift)
        && (off_right ==> cursor <= gl_shift + gl_width - 2)
    {
      hide Display.Planned, Display.Fits;
      left, right, newRight := 0, -1, -1;
      backup := gl_pos - gl_shift;
      var newShift := WindowFor(cursor, prev);
      FitsOrSame(change, cursor, gl_pos, gl_extent, prev, text);
      if newShift != gl_shift {
        left, right := Scroll(newShift, cursor, prev, text);
        newRight := right;
      } else if change >= 0 {
        if change < gl_shift + (if off_left then 1 else 0) {
          left := gl_shift;
        } else {
          left := change;
          backup := gl_pos - change;
        }
        off_right := gl_cnt > gl_shift + gl_width - 1;
        right := if off_right then gl_shift + gl_width - 2 else gl_cnt;
        newRight := if gl_extent > 0 && right > left + gl_extent then left + gl_extent else right;
        ChangePlan(prev, text, gl_shift, gl_width, gl_pos, change, cursor, gl_extent, left, right, newRight);
      }
    }

    /** Count the text anew if it has changed, and move the requested positions into it. */
    method Limit(change0: int, cursor0: int, ghost prev: seq<char>, ghost text: seq<char>)
      returns (change: int, cursor: nat)
      requires Holds(text) && gl_cnt == |prev| && Fits(change0, cursor0, gl_pos, gl_extent, prev, text)
      modifies this`screen, this`gl_cnt
      ensures gl_cnt == |text| && screen == old(screen) && change == change0
      ensures cursor == Clamp(cursor0, |text|) && Fits(change, cursor, gl_pos, gl_extent, prev, text)
    {
      change := change0;
      var c := cursor0;
      if change >= 0 {
        gl_cnt := StrLen(text);
        if change > gl_cnt {
          change := gl_cnt;
        }
      }
      if c > gl_cnt {
        if c != BUF_SIZE {
          Putc(BELL);
        }
        c := gl_cnt;
      }
      if c < 0 {
        Putc(BELL);
        c := 0;
      }
      cursor := c;
    }

    /** Redraw what has changed, and place the cursor. */
    method Refresh(change0: int, cursor0: int, ghost prev: seq<char>, ghost text: seq<char>)
      requires Holds(text) && Displays(prev)
      requires Fits(change0, cursor0, gl_pos, gl_extent, prev, text)
      modifies this`screen, this`gl_pos, this`gl_cnt, this`gl_shift, this`off_left, this`off_right
      ensures Displays(text) && gl_pos == Clamp(cursor0, |text|)
      ensures gl_shift == ShiftFor(prev, old(gl_shift), gl_pos, gl_scroll, gl_width)
    {
      hide Display.ShiftFor;
      ghost var shift0 := gl_shift;
      var padl := if off_right then gl_width - 1 else gl_cnt - gl_shift;
      var change, cursor := Limit(change0, cursor0, prev, text);
      assert cursor <= |text| && InWindow(prev, gl_pos) && padl == Shown(prev, shift0, gl_width);
      hide Display.View, Display.Planned, Display.Fits, Display.Clamp, Holds;
      var left, right, newRight, backup := SetWindow(change, cursor, prev, text);
      padl := padl - (if off_right then gl_width - 1 else gl_cnt - gl_shift);
      padl := if padl < 0 then 0 else padl;
      assert padl == Padding(prev, shift0, text, gl_shift, gl_width);
      if left <= right {
        Redraw(backup, left, right, newRight, padl, prev, shift0, text, cursor);
      }
      MoveTo(cursor, text);
    }

    static lemma WriteAgain(t: Screen, a: seq<char>, b: seq<char>)
      requires 0 <= t.col && t.col + |a| + |b| <= |t.cells|
      ensures Write(Write(t, a), b) == Write(t, a + b)
    {
      assert Write(Write(t, a), b).cells == Write(t, a + b).cells;
    }

    /** A change value of -2 starts a new line, -1 says that only the cursor moves. */
    method Fixup(change: int, cursor: int, ghost prev: seq<char>, ghost text: seq<char>)
      requires Holds(text) && gl_scroll >= 1 && gl_width >= gl_scroll + 3
      requires change == -2 ==> gl_extent == 0 && cursor >= 0
      requires change != -2 ==> Displays(prev) && Fits(change, cursor, gl_pos, gl_extent, prev, text)
      modifies this`screen, this`gl_pos, this`gl_cnt, this`gl_shift, this`off_left, this`off_right
      ensures Displays(text) && gl_pos == Clamp(cursor, |text|)
      ensures gl_shift == if change == -2 then ShiftFor([], 0, gl_pos, gl_scroll, gl_width)
                          else ShiftFor(prev, old(gl_shift), gl_pos, gl_scroll, gl_width)
    {
      if change == -2 {
        gl_pos, gl_cnt, gl_shift, off_right, off_left := 0, 0, 0, false, false;
        screen := Screen(Blank(gl_width), 0, false);
        assert screen.cells == View([], 0, gl_width);
        Refresh(0, cursor, [], text);
      } else {
        Refresh(change, cursor, prev, text);
      }
    }

    // ---------- changes of the buffer ----------

    /** Move the text from position pos on by len, with the terminator. */
    method OpenGap(pos: nat, len: nat, ghost text: seq<char>)
      requires Holds(text) && gl_cnt == |text| && pos <= |text| && 0 < len && |text| + len < BUF_SIZE
      modifies gl_buf
      ensures gl_buf[..pos] == text[..pos] && gl_buf[pos + len..|text| + len] == text[pos..]
      ensures gl_buf[|text| + len] == NUL
    {
      ghost var was := gl_buf[..];
      assert forall k :: 0 <= k < |text| ==> was[k] == gl_buf[..|text|][k];
      var i: int := gl_cnt;
      while i >= pos
        invariant pos - 1 <= i <= gl_cnt
        invariant forall k :: 0 <= k <= i ==> gl_buf[k] == was[k]
        invariant forall k :: 0 <= k < pos ==> gl_buf[k] == was[k]
        invariant forall k :: i < k <= gl_cnt ==> gl_buf[k + len] == was[k]
      {
        gl_buf[i + len] := gl_buf[i];
        i := i - 1;
      }
      forall k | 0 <= k < |text| - pos
        ensures gl_buf[pos + len..|text| + len][k] == text[pos..][k]
      {
        assert gl_buf[(pos + k) + len] == was[pos + k];
      }
    }

    /** Put characters into the buffer. */
    method CopyKill(pos: nat, len: nat)
      requires gl_buf != gl_killbuf && pos + len <= gl_buf.Length && len <= gl_killbuf.Length
      modifies gl_buf
      ensures gl_buf[..] == old(gl_buf[..pos]) + gl_killbuf[..len] + old(gl_buf[pos + len..])
    {
      ghost var was := gl_buf[..];
      var i := 0;
      while i < len
        invariant i <= len
        invariant gl_buf[..] == was[..pos] + gl_killbuf[..i] + was[pos + i..]
      {
        gl_buf[pos + i] := gl_killbuf[i];
        i := i + 1;
      }
    }

    /** Move what follows position j0 to position i0, with the terminator. */
    method CloseGap(i0: nat, j0: nat, ghost text: seq<char>) returns (i: nat)
      requires Holds(text) && gl_cnt == |text| && i0 < j0 && i0 <= |text|
      modifies gl_buf
      ensures j0 <= |text| ==> i == i0 + (|text| + 1 - j0) && Holds(Without(text, i0, j0))
      ensures j0 > |text| ==> i == i0 && Holds(text)
    {
      ghost var was := gl_buf[..];
      i := i0;
      var j := j0 - 1;
      while j < gl_cnt
        invariant i0 <= i && i - i0 == j - (j0 - 1) && (j <= gl_cnt || i == i0)
        invariant forall k :: 0 <= k < i0 || i <= k < BUF_SIZE ==> gl_buf[k] == was[k]
        invariant forall k :: i0 <= k < i ==> gl_buf[k] == was[k + (j0 - i0)]
      {
        gl_buf[i] := gl_buf[j + 1];
        i := i + 1;
        j := j + 1;
      }
    }

    /**
     The characters from position i on, n at most, become the killed text. The buffer for it has no room for more
     than BUF_SIZE - 1; nothing is promised when the original writes behind it.
     */
    method SaveKill(i: nat, n: nat, ghost text: seq<char>) returns (overrun: bool)
      requires Holds(text) && gl_cnt == |text| && i <= |text|
      requires gl_buf != gl_killbuf && gl_killbuf.Length == BUF_SIZE
      modifies gl_killbuf, this`kill
      ensures overrun <==> n >= BUF_SIZE
      ensures !overrun ==> KillHolds() && kill == text[i..Clamp(i + n, |text|)]
    {
      if n >= gl_killbuf.Length {
        return true;
      }
      overrun := false;
      assert forall k :: 0 <= k < |text| ==> gl_buf[k] == text[k];
      var k := 0;
      while k < n && gl_buf[i + k] != NUL
        invariant k <= n && i + k <= |text|
        invariant gl_killbuf[..k] == text[i..i + k]
      {
        gl_killbuf[k] := gl_buf[i + k];
        k := k + 1;
      }
      assert i + k == Clamp(i + n, |text|);
      ghost var saved := text[i..i + k];
      while k < n
        invariant |saved| <= k <= n
        invariant gl_killbuf[..|saved|] == saved
        invariant forall m :: |saved| <= m < k ==> gl_killbuf[m] == NUL
      {
        gl_killbuf[k] := NUL;
        k := k + 1;
      }
      gl_killbuf[n] := NUL;
      kill := saved;
      assert IsLine(saved);
    }

    /** The text between two positions moves to the kill buffer. */
    method KillRegion(left: nat, right: nat, ghost text: seq<char>) returns (overrun: bool)
      requires Holds(text) && gl_cnt == |text| && left <= |text| && left < right
      requires gl_buf != gl_killbuf && gl_killbuf.Length == BUF_SIZE
      modifies gl_buf, gl_killbuf, this`kill
      ensures overrun <==> right - left >= BUF_SIZE
      ensures left <= Clamp(right, |text|)
      ensures !overrun ==> KillHolds() && kill == text[left..Clamp(right, |text|)]
      ensures !overrun ==> Holds(Without(text, left, Clamp(right, |text|)))
    {
      overrun := SaveKill(left, right - left, text);
      if !overrun {
        var i := CloseGap(left, right, text);
        gl_buf[i] := NUL;
      }
    }

    method KillLength() returns (n: nat)
      requires KillHolds()
      ensures n == |kill|
    {
      assert forall k :: 0 <= k < |kill| ==> gl_killbuf[k] == kill[k];
      n := 0;
      while gl_killbuf[n] != NUL
        invariant n <= |kill|
        decreases |kill| - n
      {
        n := n + 1;
      }
    }

    // ---------- the commands ----------

    ghost function Abstract(): Edit
      requires gl_cnt <= gl_buf.Length
      reads this, gl_buf
    {
      Edit(Text(), gl_pos, gl_mark, kill, gl_overwrite)
    }

    /** The editor between two commands. */
    ghost predicate Ready()
      reads this, gl_buf, gl_killbuf
    {
      Valid() && gl_extent == 0
    }

    /** Bring the terminal up to date after a change of the buffer. */
    method Update(change: int, cursor: int, ghost prev: seq<char>, ghost text: seq<char>)
      requires Holds(text) && Displays(prev)
      requires Fits(change, cursor, gl_pos, gl_extent, prev, text)
      requires gl_buf != gl_killbuf && KillHolds() && -1 <= gl_mark < BUF_SIZE
      modifies this`screen, this`gl_pos, this`gl_cnt, this`gl_shift, this`off_left, this`off_right
      ensures Valid() && Text() == text && gl_pos == Clamp(cursor, |text|)
      ensures gl_shift == ShiftFor(prev, old(gl_shift), gl_pos, gl_scroll, gl_width)
    {
      Fixup(change, cursor, prev, text);
      assert Text() == text;
    }

    /** The same, towards the state that the abstract editor is to have. */
    method UpdateTo(change: int, cursor: int, ghost prev: seq<char>, ghost goal: Edit)
      requires Holds(goal.text) && Displays(prev) && goal.pos == Clamp(cursor, |goal.text|)
      requires Fits(change, cursor, gl_pos, gl_extent, prev, goal.text)
      requires goal.mark == gl_mark && goal.kill == kill && goal.overwrite == gl_overwrite
      requires gl_buf != gl_killbuf && KillHolds() && -1 <= gl_mark < BUF_SIZE
      modifies this`screen, this`gl_pos, this`gl_cnt, this`gl_shift, this`off_left, this`off_right
      ensures Valid() && Abstract() == goal
      ensures gl_shift == ShiftFor(prev, old(gl_shift), gl_pos, gl_scroll, gl_width)
    {
      Update(change, cursor, prev, goal.text);
    }

    method InsertChar(c: char, ghost text: seq<char>)
      requires Holds(text) && gl_cnt == |text| && gl_pos <= |text| && |text| + 1 < BUF_SIZE && Printable(c)
      modifies gl_buf
      ensures Holds(Insert(text, gl_pos, [c]))
    {
      OpenGap(gl_pos, 1, text);
      gl_buf[gl_pos] := c;
      assert gl_buf[..|text| + 1] == gl_buf[..gl_pos] + [c] + gl_buf[gl_pos + 1..|text| + 1];
    }

    method ReplaceChar(c: char, ghost text: seq<char>)
      requires Holds(text) && gl_pos < |text| && Printable(c)
      modifies gl_buf
      ensures Holds(Over(text, gl_pos, [c]))
    {
      gl_buf[gl_pos] := c;
      assert gl_buf[..|text|] == text[gl_pos := c] == Over(text, gl_pos, [c]);
    }

    method AddChar(c: char) returns (exited: bool)
      requires Ready() && Printable(c)
      modifies this, gl_buf
      ensures exited ==> Next(old(Abstract()), Type(c)) == Overflow
      ensures !exited ==> Valid() && Goes(Abstract()) == Next(old(Abstract()), Type(c))
      ensures !exited ==> gl_shift == NextShift(old(Abstract()), Type(c), old(gl_shift), gl_scroll, gl_width)
    {
      hide Display.ShiftFor;
      ghost var prev := Text();
      if gl_cnt >= BUF_SIZE - 1 {
        return true;
      }
      if !gl_overwrite || gl_pos == gl_cnt {
        FitsInsert(prev, gl_pos, [c]);
        InsertChar(c, prev);
        assert Over(prev, gl_pos, [c]) == Insert(prev, gl_pos, [c]) || gl_pos < |prev|;
        hide Display.Fits, Display.Printable, Holds, Displays, KillHolds;
        Update(gl_pos, gl_pos + 1, prev, Insert(prev, gl_pos, [c]));
      } else {
        FitsOver(prev, gl_pos, [c]);
        ReplaceChar(c, prev);
        gl_extent := 1;
        hide Display.Fits, Display.Printable, Holds, Displays, KillHolds;
        Update(gl_pos, gl_pos + 1, prev, Over(prev, gl_pos, [c]));
      }
      exited := false;
    }

    method InsertKill(len: nat, ghost text: seq<char>)
      requires Holds(text) && gl_cnt == |text| && gl_pos <= |text| && KillHolds() && gl_buf != gl_killbuf
      requires len == |kill| > 0 && |text| + len < BUF_SIZE
      modifies gl_buf
      ensures Holds(Insert(text, gl_pos, kill))
    {
      OpenGap(gl_pos, len, text);
      CopyKill(gl_pos, len);
      assert gl_buf[..gl_pos] == text[..gl_pos];
      assert gl_buf[..|text| + len] == text[..gl_pos] + kill + text[gl_pos..];
    }

    method OverwriteKill(len: nat, ghost text: seq<char>)
      requires Holds(text) && gl_cnt == |text| && gl_pos <= |text| && KillHolds() && gl_buf != gl_killbuf
      requires len == |kill| > 0 && gl_pos + len < BUF_SIZE
      modifies gl_buf
      ensures Holds(Over(text, gl_pos, kill))
    {
      if gl_pos + len > gl_cnt {
        gl_buf[gl_pos + len] := NUL;
      }
      ghost var was := gl_buf[..];
      CopyKill(gl_pos, len);
      OverIs(text, was, gl_pos, len, kill);
      assert kill == gl_killbuf[..len];
      hide EditModel.Over;
    }

    /** Overwriting in a terminated buffer that has been extended if necessary. */
    lemma OverIs(text: seq<char>, was: seq<char>, pos: nat, len: nat, s: seq<char>)
      requires |was| == BUF_SIZE && pos <= |text| < BUF_SIZE && pos + len < BUF_SIZE && len == |s|
      requires was[..|text|] == text && IsLine(text) && IsLine(s)
      requires was[if pos + len > |text| then pos + len else |text|] == NUL
      requires gl_buf.Length == BUF_SIZE && gl_buf[..] == was[..pos] + s + was[pos + len..]
      ensures Holds(Over(text, pos, s))
    {
      var n := if pos + len > |text| then pos + len else |text|;
      assert was[..pos] == text[..pos];
      assert was[pos + len..n] == if pos + len <= |text| then text[pos + len..] else [];
      assert gl_buf[..n] == Over(text, pos, s);
    }

    method YankInserting(len: nat) returns (exited: bool)
      requires Ready() && len == |kill| > 0 && gl_mark == gl_pos && !gl_overwrite
      modifies this, gl_buf
      ensures exited ==> Yanked(old(Abstract())) == Overflow
      ensures !exited ==> Valid() && Goes(Abstract()) == Yanked(old(Abstract()))
      ensures !exited ==> gl_shift == ShiftFor(old(Text()), old(gl_shift), gl_pos, gl_scroll, gl_width)
    {
      ghost var prev := Text();
      if gl_cnt + len >= BUF_SIZE - 1 {
        return true;
      }
      FitsInsert(prev, gl_pos, kill);
      InsertKill(len, prev);
      hide Display.Fits, EditModel.Insert, Holds, Displays, KillHolds;
      Update(gl_pos, gl_pos + len, prev, Insert(prev, gl_pos, kill));
      exited := false;
    }

    method YankOverwriting(len: nat) returns (exited: bool)
      requires Ready() && len == |kill| > 0 && gl_mark == gl_pos && gl_overwrite
      modifies this, gl_buf
      ensures exited ==> Yanked(old(Abstract())) == Overflow
      ensures !exited ==> Valid() && Goes(Abstract()) == Yanked(old(Abstract()))
      ensures !exited ==> gl_shift == ShiftFor(old(Text()), old(gl_shift), gl_pos, gl_scroll, gl_width)
    {
      ghost var prev := Text();
      if gl_pos + len > gl_cnt && gl_pos + len >= BUF_SIZE - 1 {
        return true;
      }
      FitsOver(prev, gl_pos, kill);
      OverwriteKill(len, prev);
      gl_extent := len;
      hide Display.Fits, EditModel.Over, Holds, Displays, KillHolds;
      Update(gl_pos, gl_pos + len, prev, Over(prev, gl_pos, kill));
      exited := false;
    }

    method YankKill() returns (exited: bool)
      requires Ready()
      modifies this, gl_buf
      ensures exited ==> Next(old(Abstract()), Yank) == Overflow
      ensures !exited ==> Valid() && Goes(Abstract()) == Next(old(Abstract()), Yank)
      ensures !exited ==> gl_shift == NextShift(old(Abstract()), Yank, old(gl_shift), gl_scroll, gl_width)
    {
      exited := false;
      var len := KillLength();
      hide Holds, Displays, KillHolds, EditModel.Insert, EditModel.Over;
      if len > 0 {
        gl_mark := gl_pos;
        if !gl_overwrite {
          exited := YankInserting(len);
        } else {
          exited := YankOverwriting(len);
        }
      } else {
        Putc(BELL);
      }
    }

    method TransposeChars()
      requires Ready()
      modifies this, gl_buf
      ensures Valid() && Goes(Abstract()) == Next(old(Abstract()), Transpose)
      ensures gl_shift == NextShift(old(Abstract()), Transpose, old(gl_shift), gl_scroll, gl_width)
    {
      hide Display.ShiftFor;
      ghost var e := Abstract();
      ghost var prev := Text();
      if gl_pos > 0 && gl_cnt > gl_pos {
        FitsSwap(e);
        var c := gl_buf[gl_pos - 1];
        gl_buf[gl_pos - 1] := gl_buf[gl_pos];
        gl_buf[gl_pos] := c;
        assert gl_buf[..|prev|] == Swapped(e).text;
        assert Holds(Swapped(e).text);
        gl_extent := 2;
        hide Display.Fits, Holds, Displays, KillHolds;
        UpdateTo(gl_pos - 1, gl_pos, prev, Swapped(e));
      } else {
        Putc(BELL);
      }
    }

    /** Delete the character at a position, and go there. */
    method DelAt(at: nat)
      requires Ready() && at <= gl_pos && at < gl_cnt
      modifies this, gl_buf
      ensures Valid() && Abstract() == old(Abstract()).(text := Without(old(Text()), at, at + 1), pos := at)
      ensures gl_shift == ShiftFor(old(Text()), old(gl_shift), at, gl_scroll, gl_width)
    {
      ghost var prev, e := Text(), Abstract();
      ghost var goal := e.(text := Without(prev, at, at + 1), pos := at);
      assert goal.pos == Clamp(at, |goal.text|);
      hide Display.Fits, Holds, Displays, KillHolds, Without, Clamp;
      FitsWithout(prev, at, at + 1, gl_pos);
      var _ := CloseGap(at, at + 1, prev);
      UpdateTo(at, at, prev, goal);
    }

    /** Delete the character to the left of the cursor (-1) or under the cursor (0). */
    method Del(loc: int)
      requires Ready() && (loc == -1 || loc == 0)
      modifies this, gl_buf
      ensures Valid() && Goes(Abstract()) == Next(old(Abstract()), if loc == -1 then DeleteLeft else DeleteUnder)
      ensures gl_shift == NextShift(old(Abstract()), if loc == -1 then DeleteLeft else DeleteUnder, old(gl_shift),
                                    gl_scroll, gl_width)
    {
      assert gl_pos <= gl_cnt == |Text()|;
      hide Holds, Displays, KillHolds, Without;
      if (loc == -1 && gl_pos > 0) || (loc == 0 && gl_pos < gl_cnt) {
        DelAt(gl_pos + loc);
      } else {
        Putc(BELL);
      }
    }

    /** What follows the cursor moves to the kill buffer. */
    method KillTail(ghost text: seq<char>)
      requires Holds(text) && gl_cnt == |text| && gl_pos < |text| && gl_buf != gl_killbuf && KillHolds()
      modifies gl_buf, gl_killbuf, this`kill
      ensures KillHolds() && kill == text[gl_pos..] && Holds(Without(text, gl_pos, |text|))
    {
      var _ := SaveKill(gl_pos, gl_cnt - gl_pos, text);
      gl_buf[gl_pos] := NUL;
      assert Without(text, gl_pos, |text|) == text[..gl_pos];
    }

    method KillToEnd()
      requires Ready()
      modifies this, gl_buf, gl_killbuf
      ensures Valid() && Goes(Abstract()) == Next(old(Abstract()), Kill)
      ensures gl_shift == NextShift(old(Abstract()), Kill, old(gl_shift), gl_scroll, gl_width)
      ensures gl_extent == 0
    {
      hide Display.Fits, Display.ShiftFor, Holds, Displays, KillHolds;
      ghost var prev, e := Text(), Abstract();
      if gl_pos < gl_cnt {
        FitsWithout(prev, gl_pos, |prev|, gl_pos);
        KillTail(prev);
        UpdateTo(gl_pos, gl_pos, prev, Cut(e, gl_pos, |prev|));
      } else {
        Putc(BELL);
      }
    }

    method KillWholeLine()
      requires Ready()
      modifies this, gl_buf, gl_killbuf
      ensures Valid() && Goes(Abstract()) == Next(old(Abstract()), KillLine)
      ensures gl_shift == NextShift(old(Abstract()), KillLine, old(gl_shift), gl_scroll, gl_width)
    {
      hide Holds, Displays, KillHolds, Display.ShiftFor;
      MoveCursor(0);
      KillToEnd();
    }

    /** Kill from mark to point. */
    method WipeRegion()
      requires Ready()
      modifies this, gl_buf, gl_killbuf
      ensures Valid() && Goes(Abstract()) == Next(old(Abstract()), Wipe)
      ensures gl_shift == NextShift(old(Abstract()), Wipe, old(gl_shift), gl_scroll, gl_width)
    {
      ghost var prev := Text();
      if gl_mark < 0 || gl_mark == gl_pos {
        return;
      }
      var left, right := gl_pos, gl_mark;
      if gl_mark < gl_pos {
        left, right := gl_mark, gl_pos;
      }
      ghost var end := Clamp(right, |prev|);
      FitsWithout(prev, left, end, gl_pos);
      var _ := KillRegion(left, right, prev);
      hide Display.Fits, Holds, Displays, KillHolds;
      Update(left, left, prev, Without(prev, left, end));
    }

    /** Kill to the end of the current or the next word. */
    method KillOneWord() returns (overrun: bool)
      requires Ready()
      modifies this, gl_buf, gl_killbuf
      ensures overrun <==> Next(old(Abstract()), KillWord) == Overrun
      ensures !overrun ==> Valid() && Goes(Abstract()) == Next(old(Abstract()), KillWord)
      ensures !overrun ==> gl_shift == NextShift(old(Abstract()), KillWord, old(gl_shift), gl_scroll, gl_width)
    {
      hide Display.Fits, Holds, Displays, KillHolds, NextWordEnd, AllSeparators;
      ghost var prev, e := Text(), Abstract();
      ghost var stop := NextWordEnd(prev, gl_pos);
      FitsWithout(prev, gl_pos, stop, gl_pos);
      overrun := KillToWordEnd(prev);
      if !overrun {
        UpdateTo(gl_pos, gl_pos, prev, Cut(e, gl_pos, stop));
      }
    }

    method KillToWordEnd(ghost text: seq<char>) returns (overrun: bool)
      requires Holds(text) && gl_cnt == |text| && gl_pos <= |text| && gl_buf != gl_killbuf && KillHolds()
      modifies gl_buf, gl_killbuf, this`kill
      ensures overrun <==> AllSeparators(text, gl_pos)
      ensures !overrun ==> KillHolds() && kill == text[gl_pos..NextWordEnd(text, gl_pos)]
      ensures !overrun ==> Holds(Without(text, gl_pos, NextWordEnd(text, gl_pos)))
    {
      hide Holds, NextWordEnd, Without, AllSeparators;
      var j := WordEndAhead(text);
      overrun := KillRegion(gl_pos, j + 1, text);
    }

    /** The last position of the word at or behind the cursor, or the end of the text. */
    method WordEndAhead(ghost text: seq<char>) returns (j: nat)
      requires Holds(text) && gl_cnt == |text| && gl_pos <= |text|
      ensures gl_pos <= j && Clamp(j + 1, |text|) == NextWordEnd(text, gl_pos)
      ensures j + 1 - gl_pos >= BUF_SIZE <==> AllSeparators(text, gl_pos)
    {
      assert forall k :: 0 <= k < |text| ==> gl_buf[k] == text[k];
      j := gl_pos;
      while j < gl_cnt && White(gl_buf[j])
        invariant gl_pos <= j <= gl_cnt
        invariant forall k :: gl_pos <= k < j ==> White(text[k])
      {
        j := j + 1;
      }
      while j < gl_cnt && !White(gl_buf[j + 1])
        invariant gl_pos <= j <= gl_cnt
        invariant j == gl_cnt ==> forall k :: gl_pos <= k < j ==> White(text[k])
        invariant j < gl_cnt ==> !White(text[j])
        invariant forall m :: gl_pos < m <= j ==> !WordEnd(text, m)
      {
        j := j + 1;
      }
      IsNextWordEnd(text, gl_pos, Clamp(j + 1, |text|));
    }

    /** Kill back to the start of the current or the previous word. */
    method KillBackOneWord()
      requires Ready()
      modifies this, gl_buf, gl_killbuf
      ensures Valid() && Goes(Abstract()) == Next(old(Abstract()), KillBackWord)
      ensures gl_shift == NextShift(old(Abstract()), KillBackWord, old(gl_shift), gl_scroll, gl_width)
    {
      ghost var e := Abstract();
      assert Next(e, KillBackWord) == Next(e.(mark := PrevWordStart(e.text, e.pos)), Wipe);
      assert |e.text| < BUF_SIZE && gl_buf.Length == BUF_SIZE;
      hide Holds, Displays, KillHolds, PrevWordStart, Next;
      gl_mark := WordStartBehind(e.text);
      assert Ready() && Abstract() == e.(mark := PrevWordStart(e.text, e.pos));
      WipeRegion();
    }

    method WordStartBehind(ghost text: seq<char>) returns (i: nat)
      requires Holds(text) && gl_cnt == |text| && gl_pos <= |text|
      ensures i == PrevWordStart(text, gl_pos)
    {
      assert forall k :: 0 <= k < |text| ==> gl_buf[k] == text[k];
      i := gl_pos;
      while i > 0 && White(gl_buf[i - 1])
        invariant 0 <= i <= gl_pos
        invariant forall m :: i <= m < gl_pos ==> !WordStart(text, m)
      {
        i := i - 1;
      }
      ghost var a := i;
      while i > 0 && !White(gl_buf[i - 1])
        invariant 0 <= i <= a
        invariant i < a ==> !White(text[i])
        invariant forall m :: i < m < gl_pos ==> !WordStart(text, m)
      {
        i := i - 1;
      }
      IsPrevWordStart(text, gl_pos, i);
    }

    /** Move the cursor; outside of the text it stops at its ends. */
    method MoveCursor(cursor: int)
      requires Valid()
      modifies this`screen, this`gl_pos, this`gl_cnt, this`gl_shift, this`off_left, this`off_right
      ensures Valid() && Abstract() == old(Abstract()).(pos := Clamp(cursor, |old(Text())|))
      ensures gl_shift == ShiftFor(old(Text()), old(gl_shift), gl_pos, gl_scroll, gl_width)
    {
      ghost var text := Text();
      Update(-1, cursor, text, text);
    }

    method BackOneWord()
      requires Valid()
      modifies this
      ensures Valid() && Goes(Abstract()) == Next(old(Abstract()), BackWord)
      ensures gl_shift == NextShift(old(Abstract()), BackWord, old(gl_shift), gl_scroll, gl_width)
    {
      ghost var text := Text();
      assert forall k :: 0 <= k < |text| ==> gl_buf[k] == text[k];
      var i := gl_pos;
      if i > 0 && White(gl_buf[i - 1]) {
        i := i - 1;
      }
      while i > 0 && White(gl_buf[i])
        invariant 0 <= i <= gl_pos
        invariant forall m :: i < m < gl_pos ==> !WordStart(text, m)
      {
        i := i - 1;
      }
      ghost var a := i;
      while i > 0 && !White(gl_buf[i - 1])
        invariant 0 <= i <= a
        invariant i < a ==> !White(text[i])
        invariant forall m :: i < m < gl_pos ==> !WordStart(text, m)
      {
        i := i - 1;
      }
      IsPrevWordStart(text, gl_pos, i);
      MoveCursor(i);
    }

    method ForwardOneWord()
      requires Valid()
      modifies this
      ensures Valid() && Goes(Abstract()) == Next(old(Abstract()), ForwardWord)
      ensures gl_shift == NextShift(old(Abstract()), ForwardWord, old(gl_shift), gl_scroll, gl_width)
    {
      ghost var text := Text();
      assert forall k :: 0 <= k < |text| ==> gl_buf[k] == text[k];
      var i := gl_pos;
      while i < gl_cnt && !White(gl_buf[i])
        invariant gl_pos <= i <= gl_cnt
        invariant i > gl_pos ==> !White(text[i - 1])
        invariant forall m :: gl_pos < m < i ==> !WordStart(text, m)
      {
        i := i + 1;
      }
      ghost var a := i;
      while i < gl_cnt && White(gl_buf[i])
        invariant a <= i <= gl_cnt
        invariant i > a ==> White(text[i - 1])
        invariant forall m :: gl_pos < m < i ==> !WordStart(text, m)
      {
        i := i + 1;
      }
      IsNextWordStart(text, gl_pos, i);
      MoveCursor(i);
    }

    method SetMarkHere()
      requires Ready()
      modifies this`gl_mark
      ensures Valid() && Goes(Abstract()) == Next(old(Abstract()), SetMark)
      ensures gl_shift == NextShift(old(Abstract()), SetMark, old(gl_shift), gl_scroll, gl_width)
    {
      gl_mark := gl_pos;
    }

    /** Exchange point and mark. */
    method ExchangeMark()
      requires Valid()
      modifies this
      ensures Valid() && Goes(Abstract()) == Next(old(Abstract()), Exchange)
      ensures gl_shift == NextShift(old(Abstract()), Exchange, old(gl_shift), gl_scroll, gl_width)
    {
      if gl_mark < 0 {
        return;
      }
      var tmp := gl_pos;
      MoveCursor(gl_mark);
      gl_mark := tmp;
    }

    /** Draw the line anew, on a new line of the terminal. */
    method RedrawAll()
      requires Ready()
      modifies this
      ensures Valid() && Abstract() == old(Abstract())
      ensures gl_shift == ShiftFor([], 0, gl_pos, gl_scroll, gl_width)
    {
      ghost var text := Text();
      Fixup(-2, gl_pos, text, text);
      assert Text() == text;
    }

    method CopyLine(line: seq<char>)
      requires |line| < BUF_SIZE && IsLine(line) && gl_buf.Length == BUF_SIZE
      modifies gl_buf
      ensures Holds(line)
    {
      var i := 0;
      while i < |line|
        invariant i <= |line| && gl_buf[..i] == line[..i]
      {
        gl_buf[i] := line[i];
        i := i + 1;
      }
      gl_buf[i] := NUL;
    }

    /** Replace the text by a line of the history. */
    method LoadLine(line: seq<char>)
      requires Ready() && Possible(Load(line))
      modifies this, gl_buf
      ensures Valid() && Goes(Abstract()) == Next(old(Abstract()), Load(line))
      ensures gl_shift == NextShift(old(Abstract()), Load(line), old(gl_shift), gl_scroll, gl_width)
    {
      ghost var prev := Text();
      CopyLine(line);
      hide Holds, Displays, KillHolds;
      Update(0, BUF_SIZE, prev, line);
    }

    // ---------- runs of commands ----------

    /** The keys that insert or exchange characters, or replace the line. */
    method DoEdit(c: Command) returns (exited: bool)
      requires Ready() && Possible(c) && !Kills(c) && !Moves(c)
      modifies this, gl_buf
      ensures EndingOf(Next(old(Abstract()), c)) == if exited then Exited else Continued
      ensures !exited ==> Valid() && Goes(Abstract()) == Next(old(Abstract()), c)
      ensures !exited ==> gl_shift == NextShift(old(Abstract()), c, old(gl_shift), gl_scroll, gl_width)
    {
      exited := false;
      hide Holds, Displays, KillHolds, Typed, Yanked, Wiped, Killed, Swapped, WordKilled, Clamp;
      match c
      case Type(ch) => exited := AddChar(ch);
      case Yank => exited := YankKill();
      case DeleteLeft => Del(-1);
      case DeleteUnder => Del(0);
      case Transpose => TransposeChars();
      case SetMark => SetMarkHere();
      case ToggleOverwrite => gl_overwrite := !gl_overwrite;
      case RedrawLine => RedrawAll();
      case Load(line) => LoadLine(line);
    }

    /** The keys that kill text. */
    method DoKill(c: Command) returns (overrun: bool)
      requires Ready() && Kills(c)
      modifies this, gl_buf, gl_killbuf
      ensures EndingOf(Next(old(Abstract()), c)) == if overrun then WroteOutside else Continued
      ensures !overrun ==> Valid() && Goes(Abstract()) == Next(old(Abstract()), c)
      ensures !overrun ==> gl_shift == NextShift(old(Abstract()), c, old(gl_shift), gl_scroll, gl_width)
    {
      overrun := false;
      hide Holds, Displays, KillHolds, Typed, Yanked, Wiped, Killed, Swapped;
      match c
      case Kill => KillToEnd();
      case KillLine => KillWholeLine();
      case Wipe => WipeRegion();
      case KillWord => overrun := KillOneWord();
      case KillBackWord => KillBackOneWord();
    }

    /** The keys that move the cursor. */
    method DoMove(c: Command)
      requires Ready() && Moves(c)
      modifies this
      ensures Valid() && Goes(Abstract()) == Next(old(Abstract()), c)
      ensures gl_shift == NextShift(old(Abstract()), c, old(gl_shift), gl_scroll, gl_width)
    {
      hide Holds, Displays, KillHolds, Typed, Yanked, Wiped, Killed, Swapped, WordKilled;
      match c
      case LineStart => MoveCursor(0);
      case LineEnd => MoveCursor(gl_cnt);
      case CursorLeft => MoveCursor(gl_pos - 1);
      case CursorRight => MoveCursor(gl_pos + 1);
      case BackWord => BackOneWord();
      case ForwardWord => ForwardOneWord();
      case Exchange => ExchangeMark();
    }

    /** The action bound to a key. */
    method Do(c: Command) returns (ending: Ending)
      requires Valid() && Possible(c)
      modifies this, gl_buf, gl_killbuf
      ensures ending == EndingOf(Next(old(Abstract()), c))
      ensures ending == Continued ==> Valid() && Goes(Abstract()) == Next(old(Abstract()), c)
      ensures ending == Continued ==> gl_shift == NextShift(old(Abstract()), c, old(gl_shift), gl_scroll, gl_width)
    {
      ending := Continued;
      hide Holds, Displays, KillHolds, Possible, Next;
      gl_extent := 0;
      if Kills(c) {
        var overrun := DoKill(c);
        ending := if overrun then WroteOutside else Continued;
      } else if Moves(c) {
        DoMove(c);
      } else {
        var exited := DoEdit(c);
        ending := if exited then Exited else Continued;
      }
    }

    /** The editor starts with an empty line on a blank terminal. */
    constructor (width: nat, scroll: nat)
      requires scroll >= 1 && width >= scroll + 3
      ensures Valid() && Abstract() == Edit([], 0, -1, [], false) && fresh(gl_buf) && fresh(gl_killbuf)
      ensures gl_shift == 0 && gl_width == width && gl_scroll == scroll
    {
      gl_width, gl_scroll := width, scroll;
      gl_buf := new char[BUF_SIZE](_ => NUL);
      gl_killbuf := new char[BUF_SIZE](_ => NUL);
      kill := [];
      gl_mark, gl_extent, gl_overwrite := -1, 0, false;
      new;
      assert Holds([]);
      Fixup(-2, BUF_SIZE, [], []);
      assert Text() == [];
    }

    lemma ShortLineOnScreen()
      requires Valid() && gl_shift == 0 && gl_cnt < gl_width
      ensures screen == Screen(Text() + Blank(gl_width - gl_cnt), gl_pos, false)
    {
      ShortLineIsShown(Text(), gl_width);
    }

    /** Every run of commands leaves the text of the abstract editor, and the terminal shows it. */
    method Run(commands: seq<Command>) returns (ending: Ending)
      requires Valid() && forall i :: 0 <= i < |commands| ==> Possible(commands[i])
      modifies this, gl_buf, gl_killbuf
      ensures ending == EndingOf(After(old(Abstract()), commands))
      ensures ending == Continued ==> Valid() && Goes(Abstract()) == After(old(Abstract()), commands)
      ensures ending == Continued ==>
                gl_shift == ShiftAfter(old(Abstract()), commands, old(gl_shift), gl_scroll, gl_width)
      ensures ending == Continued && old(gl_shift) == 0 && AlwaysShort(old(Abstract()), commands, gl_width) ==>
                gl_cnt < gl_width && screen == Screen(Text() + Blank(gl_width - gl_cnt), gl_pos, false)
    {
      hide Holds, Displays, KillHolds, Possible, Next;
      ending := Continued;
      var i := 0;
      assert commands[0..] == commands;
      while i < |commands| && ending == Continued
        invariant i <= |commands|
        invariant ending == Continued ==> Valid()
        invariant ending == Continued ==> After(old(Abstract()), commands) == After(Abstract(), commands[i..])
        invariant ending == Continued ==>
                    ShiftAfter(old(Abstract()), commands, old(gl_shift), gl_scroll, gl_width)
                    == ShiftAfter(Abstract(), commands[i..], gl_shift, gl_scroll, gl_width)
        invariant ending != Continued ==> ending == EndingOf(After(old(Abstract()), commands))
      {
        ghost var rest := commands[i..];
        assert rest[0] == commands[i] && rest[1..] == commands[i + 1..];
        ending := Do(commands[i]);
        i := i + 1;
      }
      if ending == Continued && old(gl_shift) == 0 && AlwaysShort(old(Abstract()), commands, gl_width) {
        ShortRunIsUnshifted(old(Abstract()), commands, gl_scroll, gl_width);
        ShortLineOnScreen();
      }
    }
  }
}
