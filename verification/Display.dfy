/**
 The terminal line behind the prompt, and what the line editor means it to show: a window of
 the text, with a dollar sign in place of what lies to the left or to the right of it.
 */
module Display {

  const BELL := '\U{0007}'
  const BACKSPACE := '\U{0008}'
  const NUL := '\0'

  /** The characters that may occur in a line. */
  predicate Printable(c: char) {
    ' ' <= c <= '~'
  }

  predicate IsLine(text: seq<char>) {
    forall i :: 0 <= i < |text| ==> Printable(text[i])
  }

  /**
   The cells from the end of the prompt to the last column, and the column of the cursor.
   A character written to the last column, or a step back into the prompt, garbles the line.
   */
  datatype Screen = Screen(cells: seq<char>, col: int, garbled: bool)

  function Emit(s: Screen, c: char): Screen {
    if c == BELL then s
    else if c == BACKSPACE then (if s.col > 0 then s.(col := s.col - 1) else s.(garbled := true))
    else if 0 <= s.col < |s.cells| - 1 then s.(cells := s.cells[s.col := c], col := s.col + 1)
    else s.(garbled := true)
  }

  function Blank(width: nat): (cells: seq<char>)
    ensures |cells| == width
  {
    seq(width, k => ' ')
  }

  /** There is text to the right of a window of this width that starts at position shift. */
  predicate OffRight(text: seq<char>, shift: nat, width: nat) {
    |text| > shift + width - 1
  }

  /** What cell k of the window shows. */
  function Cell(text: seq<char>, shift: nat, width: nat, k: nat): char {
    if k == 0 && shift > 0 then '$'
    else if OffRight(text, shift, width) && k == width - 2 then '$'
    else if k < width - 1 && shift + k < |text| then text[shift + k]
    else ' '
  }

  function View(text: seq<char>, shift: nat, width: nat): (cells: seq<char>)
    ensures |cells| == width
  {
    seq(width, k requires 0 <= k < width => Cell(text, shift, width, k))
  }

  /** An unshifted line that leaves one column free is shown as it is, followed by blanks. */
  lemma ShortLineIsShown(text: seq<char>, width: nat)
    requires |text| <= width - 1
    ensures View(text, 0, width) == text + Blank(width - |text|)
  {
  }

  /** A line that does not fit: the mark for what is hidden on the left, the text, and the mark for the rest. */
  lemma LongLineIsShown(text: seq<char>, shift: nat, width: nat)
    requires width >= 4 && (shift > 0 || |text| > width - 1) && shift < |text|
    ensures var head := if shift > 0 then ['$'] else [];
            var from := shift + |head|;
            View(text, shift, width) ==
              if |text| > shift + width - 1 then head + text[from..shift + width - 2] + ['$', ' ']
              else head + text[from..] + Blank(width - (|text| - shift))
  {
  }

  /** The number of cells in use. */
  function Shown(text: seq<char>, shift: nat, width: nat): int {
    if OffRight(text, shift, width) then width - 1 else |text| - shift
  }

  /** The screen after the characters s have been written from the cursor on. */
  function Write(t: Screen, s: seq<char>): Screen
    requires 0 <= t.col && t.col + |s| <= |t.cells|
  {
    Screen(t.cells[..t.col] + s + t.cells[t.col + |s|..], t.col + |s|, t.garbled)
  }

  lemma WriteOneMore(t: Screen, s: seq<char>, c: char)
    requires 0 <= t.col && t.col + |s| < |t.cells| - 1 && c != BELL && c != BACKSPACE
    ensures Emit(Write(t, s), c) == Write(t, s + [c])
  {
    var w := Write(t, s);
    assert w.cells[w.col := c] == t.cells[..t.col] + (s + [c]) + t.cells[t.col + |s + [c]|..];
  }

  /**
   The relation between the text on display and the text to be displayed: they agree before
   `change`, and, if an extent is given, also from change + extent on.
   */
  predicate Changed(prev: seq<char>, text: seq<char>, change: nat, extent: nat) {
    && change <= |prev| && change <= |text| && text[..change] == prev[..change]
    && (extent > 0 ==>
          && |text| >= |prev|
          && (|text| > |prev| ==> |text| <= change + extent)
          && forall i :: change + extent <= i < |prev| ==> text[i] == prev[i])
  }

  /** The new window position for a cursor, in C arithmetic. */
  function NewShift(cursor: nat, extra: nat, scroll: nat, width: nat): nat
    requires scroll >= 1
  {
    var x := cursor + extra + scroll - width;
    if x > 0 then x / scroll * scroll else 0
  }

  /** The cursor lies within the window, and not on the sign that marks text to the left. */
  lemma CursorInWindow(cursor: nat, extra: nat, scroll: nat, width: nat)
    requires scroll >= 1 && width >= scroll + 3 && extra <= 2
    ensures var shift := NewShift(cursor, extra, scroll, width);
            0 <= cursor - shift < width - extra && (shift > 0 ==> cursor > shift)
  {
    var x := cursor + extra + scroll - width;
    if x > 0 {
      var m := x / scroll * scroll;
      assert m <= x < m + scroll;
    }
  }

  /** How many columns are to stay free behind the cursor, as the line stands before the redraw. */
  function Extra(prev: seq<char>, shift: nat, cursor: nat, scroll: nat, width: nat): nat {
    if OffRight(prev, shift, width) || (shift > 0 && cursor < shift + width - scroll / 2) then 2 else 0
  }

  /** The window position after a redraw. */
  function ShiftFor(prev: seq<char>, shift: nat, cursor: nat, scroll: nat, width: nat): nat
    requires scroll >= 1
  {
    NewShift(cursor, Extra(prev, shift, cursor, scroll, width), scroll, width)
  }

  /** The window moves by whole scrolls, and no further than the cursor and the free columns need. */
  lemma NewShiftIsLeast(cursor: nat, extra: nat, scroll: nat, width: nat) returns (k: nat)
    requires scroll >= 1
    ensures var shift := NewShift(cursor, extra, scroll, width);
            && shift == k * scroll && cursor + extra < shift + width
            && (shift > 0 ==> cursor + extra >= shift - scroll + width)
  {
    var x := cursor + extra + scroll - width;
    k := if x > 0 then x / scroll else 0;
    if x > 0 {
      assert x == x / scroll * scroll + x % scroll;
    }
  }

  /** A window of 20 columns that moves by 8, around a line that ends at its right edge and one that is shifted. */
  lemma WindowOfTwentyColumns()
    ensures ShiftFor(Blank(19), 0, 19, 8, 20) == 0 && ShiftFor(Blank(19), 0, 20, 8, 20) == 8
    ensures ShiftFor(Blank(20), 0, 17, 8, 20) == 0 && ShiftFor(Blank(20), 0, 18, 8, 20) == 8
    ensures ShiftFor(Blank(20), 8, 17, 8, 20) == 0 && ShiftFor(Blank(20), 8, 18, 8, 20) == 8
    ensures ShiftFor(Blank(27), 8, 27, 8, 20) == 8 && ShiftFor(Blank(27), 8, 28, 8, 20) == 16
    ensures ShiftFor(Blank(28), 8, 25, 8, 20) == 8 && ShiftFor(Blank(28), 8, 26, 8, 20) == 16
  {
  }

  /** The line is unshifted afterwards exactly if the cursor and the free columns fit in. */
  lemma UnshiftedExactly(prev: seq<char>, shift: nat, cursor: nat, scroll: nat, width: nat)
    requires scroll >= 1 && width >= 1
    ensures ShiftFor(prev, shift, cursor, scroll, width) == 0 <==>
              cursor + Extra(prev, shift, cursor, scroll, width) < width
  {
    var x := cursor + Extra(prev, shift, cursor, scroll, width) + scroll - width;
    if x >= scroll {
      assert x == x / scroll * scroll + x % scroll && x / scroll >= 1;
      assert x / scroll * scroll >= scroll;
    } else if x > 0 {
      assert x / scroll == 0;
    }
  }

  /** An unshifted line that fits stays unshifted while the cursor is in it. */
  lemma ShortStaysUnshifted(prev: seq<char>, cursor: nat, scroll: nat, width: nat)
    requires scroll >= 1 && |prev| < width && cursor < width
    ensures ShiftFor(prev, 0, cursor, scroll, width) == 0
  {
    UnshiftedExactly(prev, 0, cursor, scroll, width);
  }

  // ---------- one redraw ----------

  /** Where a redraw of the text stops on the right. */
  function Right(text: seq<char>, shift: nat, width: nat): int {
    if OffRight(text, shift, width) then shift + width - 2 else |text|
  }

  /** What a redraw emits for the text to the left of the window. */
  function Head(shift: nat, left: nat): seq<char> {
    if left == shift && shift > 0 then ['$'] else []
  }

  /** What it emits behind the text: the mark for text to the right, or blanks over an old text. */
  function Tail(text: seq<char>, shift: nat, width: nat, newRight: int, padl: nat): seq<char> {
    if OffRight(text, shift, width) && newRight == Right(text, shift, width) then ['$'] else Blank(padl)
  }

  /** The characters a redraw from position left on emits. */
  function Drawn(text: seq<char>, shift: nat, width: nat, left: nat, newRight: nat, padl: nat): seq<char>
    requires left <= newRight <= |text|
  {
    var from := left + |Head(shift, left)|;
    Head(shift, left) + (if from <= newRight then text[from..newRight] else [])
    + Tail(text, shift, width, newRight, padl)
  }

  /** The number of cells to be cleared at the end. */
  function Padding(prev: seq<char>, shift0: nat, text: seq<char>, shift: nat, width: nat): nat {
    var d := Shown(prev, shift0, width) - Shown(text, shift, width);
    if d > 0 then d else 0
  }

  /**
   A redraw that makes a screen showing prev at position shift0 show text at position shift:
   either everything from the left margin, or from a position up to which nothing has changed;
   and up to the end, or up to a position from which on nothing has changed.
   */
  predicate GoodPlan(prev: seq<char>, shift0: nat, text: seq<char>, shift: nat, width: nat,
                     left: nat, newRight: nat, padl: nat)
  {
    && width >= 4 && (shift0 == 0 || shift0 < |prev|) && (shift == 0 || shift < |text|)
    && shift <= left <= newRight <= Right(text, shift, width)
    && (left == shift && shift > 0 ==> left < newRight)
    && padl == Padding(prev, shift0, text, shift, width)
    && (left == shift
        || (shift == shift0 && left <= |prev| && left <= |text| && text[..left] == prev[..left]
            && (OffRight(prev, shift, width) || OffRight(text, shift, width) ==> left <= shift + width - 2)))
    && (newRight == Right(text, shift, width)
        || (shift == shift0 && |text| == |prev| && forall i :: newRight <= i < |prev| ==> text[i] == prev[i]))
  }

  lemma PlanFits(prev: seq<char>, shift0: nat, text: seq<char>, shift: nat, width: nat,
                 left: nat, newRight: nat, padl: nat)
    requires GoodPlan(prev, shift0, text, shift, width, left, newRight, padl)
    ensures shift <= left <= newRight <= |text|
    ensures left - shift + |Drawn(text, shift, width, left, newRight, padl)| <= width - 1
  {
  }

  lemma DrawnLength(prev: seq<char>, shift0: nat, text: seq<char>, shift: nat, width: nat,
                    left: nat, newRight: nat, padl: nat)
    requires GoodPlan(prev, shift0, text, shift, width, left, newRight, padl)
    ensures shift <= left && left + |Head(shift, left)| <= newRight <= |text|
    ensures |Drawn(text, shift, width, left, newRight, padl)|
         == newRight - left + |Tail(text, shift, width, newRight, padl)|
  {
  }

  lemma PlanShowsText(prev: seq<char>, shift0: nat, text: seq<char>, shift: nat, width: nat,
                      left: nat, newRight: nat, padl: nat)
    requires GoodPlan(prev, shift0, text, shift, width, left, newRight, padl)
    ensures var t := Screen(View(prev, shift0, width), left - shift, false);
            var d := Drawn(text, shift, width, left, newRight, padl);
            t.col + |d| <= width - 1 && Write(t, d).cells == View(text, shift, width)
  {
    hide Drawn, Tail, Head, OffRight, Right, Padding, Cell;
    PlanFits(prev, shift0, text, shift, width, left, newRight, padl);
    var t := Screen(View(prev, shift0, width), left - shift, false);
    var d := Drawn(text, shift, width, left, newRight, padl);
    var w := Write(t, d).cells;
    forall k | 0 <= k < width
      ensures w[k] == Cell(text, shift, width, k)
    {
      if k < t.col {
        assert w[k] == Cell(prev, shift0, width, k);
        KeptBefore(prev, text, shift, width, left, k);
      } else if k < t.col + |d| {
        assert w[k] == d[k - t.col];
        DrawnCell(prev, shift0, text, shift, width, left, newRight, padl, k);
      } else {
        assert w[k] == Cell(prev, shift0, width, k);
        KeptAfter(prev, shift0, text, shift, width, left, newRight, padl, k);
      }
    }
    assert w == View(text, shift, width);
  }

  lemma KeptBefore(prev: seq<char>, text: seq<char>, shift: nat, width: nat, left: nat, k: nat)
    requires shift + k < left <= |prev| && left <= |text| && text[..left] == prev[..left]
    requires OffRight(prev, shift, width) || OffRight(text, shift, width) ==> left <= shift + width - 2
    ensures Cell(prev, shift, width, k) == Cell(text, shift, width, k)
  {
    assert text[shift + k] == text[..left][shift + k] == prev[shift + k];
  }

  lemma DrawnCell(prev: seq<char>, shift0: nat, text: seq<char>, shift: nat, width: nat,
                  left: nat, newRight: nat, padl: nat, k: nat)
    requires GoodPlan(prev, shift0, text, shift, width, left, newRight, padl)
    requires left - shift <= k < left - shift + |Drawn(text, shift, width, left, newRight, padl)|
    ensures Drawn(text, shift, width, left, newRight, padl)[k - (left - shift)] == Cell(text, shift, width, k)
  {
  }

  lemma KeptAfter(prev: seq<char>, shift0: nat, text: seq<char>, shift: nat, width: nat,
                  left: nat, newRight: nat, padl: nat, k: nat)
    requires GoodPlan(prev, shift0, text, shift, width, left, newRight, padl)
    requires left - shift + |Drawn(text, shift, width, left, newRight, padl)| <= k < width
    ensures Cell(prev, shift0, width, k) == Cell(text, shift, width, k)
  {
    if newRight == Right(text, shift, width) {
      assert Shown(prev, shift0, width) <= k && Shown(text, shift, width) <= k;
    } else {
      assert k > 0 || shift == 0;
    }
  }

  // ---------- the plans of the line editor are good ----------

  function Clamp(cursor: int, n: nat): (c: nat) {
    if cursor < 0 then 0 else if cursor > n then n else cursor
  }

  /** What a caller of the redisplay owes it about the change it has made to the text. */
  predicate Fits(change: int, cursor: int, pos: nat, extent: nat, prev: seq<char>, text: seq<char>) {
    if change == -1 then prev == text
    else
      && 0 <= change <= pos && change <= cursor && Changed(prev, text, change, extent)
      && (|text| > |prev| ==> change < cursor || change == 0)
      && (extent > 0 ==> cursor <= change + extent)
  }

  lemma FitsOrSame(change: int, cursor: int, pos: nat, extent: nat, prev: seq<char>, text: seq<char>)
    requires Fits(change, cursor, pos, extent, prev, text)
    ensures if change == -1 then prev == text else 0 <= change <= pos && change <= |prev| && change <= |text|
  {
  }

  /** A redraw up to newRight leaves the cursor at or behind this position. */
  predicate Reaches(cursor: nat, text: seq<char>, shift: nat, width: nat, newRight: int) {
    || cursor <= newRight
    || (OffRight(text, shift, width) && newRight == shift + width - 2 && cursor == newRight + 1)
  }

  lemma TailEnds(cursor: nat, text: seq<char>, shift: nat, width: nat, newRight: int, padl: nat)
    requires Reaches(cursor, text, shift, width, newRight) && shift <= cursor
    ensures cursor <= newRight + |Tail(text, shift, width, newRight, padl)|
  {
  }

  /** What is planned is a good redraw, after going back from position pos, and passes the cursor position. */
  predicate Planned(prev: seq<char>, shift0: nat, pos: nat, text: seq<char>, shift: nat, width: nat, cursor: nat,
                    left: nat, right: int, newRight: int, backup: int)
  {
    && right == Right(text, shift, width) && 0 <= newRight
    && 0 <= backup && backup + left - shift == pos - shift0
    && GoodPlan(prev, shift0, text, shift, width, left, newRight, Padding(prev, shift0, text, shift, width))
    && Reaches(cursor, text, shift, width, newRight)
  }

  /** What a planned redraw draws fits the screen, shows the text and passes the cursor position. */
  lemma PlannedRedraw(prev: seq<char>, shift0: nat, pos: nat, text: seq<char>, shift: nat, width: nat, cursor: nat,
                      left: nat, right: int, newRight: int, backup: int)
    requires Planned(prev, shift0, pos, text, shift, width, cursor, left, right, newRight, backup) && shift <= cursor
    ensures 0 <= backup <= pos - shift0 && pos - shift0 - backup == left - shift && right == Right(text, shift, width)
    ensures left + |Head(shift, left)| <= newRight <= |text|
    ensures var padl := Padding(prev, shift0, text, shift, width);
            var t := Screen(View(prev, shift0, width), left - shift, false);
            var d := Drawn(text, shift, width, left, newRight, padl);
            var end := newRight + |Tail(text, shift, width, newRight, padl)|;
            && |t.cells| == width && t.col + |d| < width && end - shift < width && cursor <= end
            && Write(t, d) == Screen(View(text, shift, width), end - shift, false)
  {
    var padl := Padding(prev, shift0, text, shift, width);
    PlanShowsText(prev, shift0, text, shift, width, left, newRight, padl);
    DrawnLength(prev, shift0, text, shift, width, left, newRight, padl);
    TailEnds(cursor, text, shift, width, newRight, padl);
    hide View, GoodPlan, Drawn, Tail, Head, OffRight, Right;
  }

  lemma ScrollPlan(prev: seq<char>, shift0: nat, pos: nat, text: seq<char>, shift: nat, width: nat, cursor: nat)
    requires width >= 4 && (shift0 > 0 ==> shift0 < pos) && shift0 <= pos <= |prev|
    requires (shift > 0 ==> shift < cursor) && cursor <= |text| && cursor < shift + width
    ensures var right := Right(text, shift, width);
            && shift <= right
            && Planned(prev, shift0, pos, text, shift, width, cursor, shift, right, right, pos - shift0)
  {
  }

  lemma ChangePlan(prev: seq<char>, text: seq<char>, shift: nat, width: nat, pos: nat,
                   change: nat, cursor: nat, extent: nat, left: nat, right: int, newRight: int)
    requires width >= 4 && pos <= |prev| && shift <= pos < shift + width
    requires shift > 0 ==> shift < pos && shift < cursor
    requires cursor <= |text| && Fits(change, cursor, pos, extent, prev, text)
    requires cursor < shift + width - (if OffRight(prev, shift, width) then 2 else 0)
    requires left == if change < shift + (if shift > 0 then 1 else 0) then shift else change
    requires right == Right(text, shift, width)
    requires newRight == if extent > 0 && right > left + extent then left + extent else right
    ensures left <= right
    ensures Planned(prev, shift, pos, text, shift, width, cursor, left, right, newRight, pos - left)
  {
    assert left == change ==> text[..left] == prev[..left];
  }

  /** The cells between two positions show the text there. */
  predicate ShowsBetween(text: seq<char>, shift: nat, width: nat, a: nat, b: nat) {
    && shift <= a <= b <= |text| && b < shift + width
    && (shift > 0 ==> shift < a)
    && (OffRight(text, shift, width) ==> b <= shift + width - 2)
  }

  lemma WriteShown(text: seq<char>, shift: nat, width: nat, a: nat, b: nat)
    requires ShowsBetween(text, shift, width, a, b)
    ensures var t := Screen(View(text, shift, width), a - shift, false);
            t.col + (b - a) < |t.cells| && Write(t, text[a..b]) == t.(col := b - shift)
  {
    var t := Screen(View(text, shift, width), a - shift, false);
    var w := Write(t, text[a..b]).cells;
    assert forall k :: 0 <= k < width ==> w[k] == t.cells[k];
    assert w == t.cells;
  }
}
