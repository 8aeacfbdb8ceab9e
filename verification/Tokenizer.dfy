/**
 The command line is split into arguments in place: separators and quotation marks are overwritten
 with the terminator, and the arguments are given by their positions in the line.
 */
module Tokenizer {
  import opened Common
  import opened Errno

  const NUL := '\0'

  /** Blanks and control characters, the terminator among them. */
  predicate Separator(c: char) {
    c == ' ' || c as int < 16
  }

  predicate Quote(c: char) {
    c == '\'' || c == '\"'
  }

  predicate WordChar(c: char) {
    !Separator(c) && c != '#'
  }

  /** The length of the word at the beginning. */
  function WordLength(line: string): (n: nat)
    ensures n <= |line| && (forall i :: 0 <= i < n ==> WordChar(line[i])) && (n < |line| ==> !WordChar(line[n]))
  {
    if line != "" && WordChar(line[0]) then 1 + WordLength(line[1..]) else 0
  }

  /** The number of characters before the first quotation mark. */
  function Quoted(line: string): (n: nat)
    ensures n <= |line| && (forall i :: 0 <= i < n ==> !Quote(line[i])) && (n < |line| ==> Quote(line[n]))
  {
    if line != "" && !Quote(line[0]) then 1 + Quoted(line[1..]) else 0
  }

  /**
   The arguments in a line. A quoted text ends at the next quotation mark of either kind, an empty one is
   skipped. A comment begins with a hash sign; a word that runs into it is lost.
   */
  function Tokens(line: string): seq<string>
    decreases |line|
  {
    if line == "" || line[0] == '#' then []
    else if Separator(line[0]) then Tokens(line[1..])
    else if Quote(line[0]) then
      var n := Quoted(line[1..]);
      if 1 + n == |line| then []
      else (if n > 0 then [line[1..1 + n]] else []) + Tokens(line[n + 2..])
    else
      var n := WordLength(line);
      if n < |line| && line[n] == '#' then [] else [line[..n]] + Tokens(line[n..])
  }

  // ---------- quoting ----------

  predicate Quotable(arg: string) {
    arg != "" && forall i :: 0 <= i < |arg| ==> !Quote(arg[i]) && arg[i] != NUL
  }

  function Joined(args: seq<string>): string {
    if |args| == 0 then "" else "\"" + args[0] + "\" " + Joined(args[1..])
  }

  lemma QuotedIs(line: string, n: nat)
    requires n < |line| && Quote(line[n]) && forall i :: 0 <= i < n ==> !Quote(line[i])
    ensures Quoted(line) == n
  {
  }

  lemma QuotedToken(arg: string, rest: string)
    requires Quotable(arg)
    ensures Tokens("\"" + arg + "\" " + rest) == [arg] + Tokens(rest)
  {
    var line, n := "\"" + arg + "\" " + rest, |arg|;
    var tail := line[1..];
    assert tail[n] == '\"' && tail[..n] == arg;
    assert forall i :: 0 <= i < n ==> tail[i] == arg[i];
    QuotedIs(tail, n);
    assert line[1..1 + n] == arg && line[n + 2..] == " " + rest && (" " + rest)[1..] == rest;
    hide Quoted, Quotable, WordLength;
    assert Tokens(" " + rest) == Tokens(rest);
  }

  /** Arguments that are put in quotation marks and separated by blanks come back unchanged. */
  lemma {:induction false} QuotingIsUndone(args: seq<string>)
    requires forall i :: 0 <= i < |args| ==> Quotable(args[i])
    ensures Tokens(Joined(args)) == args
  {
    if |args| > 0 {
      QuotingIsUndone(args[1..]);
      hide Tokens, Quotable;
      QuotedToken(args[0], Joined(args[1..]));
      assert args == [args[0]] + args[1..];
    }
  }

  lemma {:induction false} JoinedHasNoTerminator(args: seq<string>)
    requires forall i :: 0 <= i < |args| ==> Quotable(args[i])
    ensures NUL !in Joined(args)
  {
    if |args| > 0 {
      JoinedHasNoTerminator(args[1..]);
    }
  }

  // ---------- comments ----------

  /** Where a character of the line stands. */
  datatype Place = Between | InWord | InQuote | InComment

  function Along(p: Place, c: char): Place {
    match p
    case InComment => InComment
    case InQuote => if Quote(c) then Between else InQuote
    case InWord => if Separator(c) then Between else if c == '#' then InComment else InWord
    case Between =>
      if Separator(c) then Between
      else if c == '#' then InComment
      else if Quote(c) then InQuote else InWord
  }

  /** Where a text leads to. */
  function EndOf(p: Place, text: string): Place
    decreases |text|
  {
    if text == "" then p else EndOf(Along(p, text[0]), text[1..])
  }

  lemma {:induction false} EndOfQuote(text: string)
    ensures var n := Quoted(text);
            EndOf(InQuote, text) == if n == |text| then InQuote else EndOf(Between, text[n + 1..])
    decreases |text|
  {
    if text != "" && !Quote(text[0]) {
      EndOfQuote(text[1..]);
      var n := Quoted(text[1..]);
      assert n < |text[1..]| ==> text[1..][n + 1..] == text[n + 2..];
    }
  }

  lemma {:induction false} EndOfWord(text: string)
    ensures var n := WordLength(text);
            EndOf(InWord, text) == if n == |text| then InWord else EndOf(Along(InWord, text[n]), text[n + 1..])
    decreases |text|
  {
    if text != "" && WordChar(text[0]) {
      EndOfWord(text[1..]);
      var n := WordLength(text[1..]);
      assert n < |text[1..]| ==> text[1..][n + 1..] == text[n + 2..];
    }
  }

  lemma {:induction false} InCommentStays(text: string)
    ensures EndOf(InComment, text) == InComment
    decreases |text|
  {
    if text != "" {
      InCommentStays(text[1..]);
    }
  }

  lemma WordIs(line: string, n: nat)
    requires n < |line| && !WordChar(line[n]) && forall i :: 0 <= i < n ==> WordChar(line[i])
    ensures WordLength(line) == n
  {
  }

  /** A comment behind a text takes away the word it touches, and nothing else. */
  lemma {:induction false} CommentTakesWord(a: string, b: string)
    requires EndOf(Between, a) == Between || EndOf(Between, a) == InWord
    ensures EndOf(Between, a) == InWord ==> Tokens(a) != []
    ensures Tokens(a + "#" + b)
         == if EndOf(Between, a) == InWord then Tokens(a)[..|Tokens(a)| - 1] else Tokens(a)
    decreases |a|
  {
    var line := a + "#" + b;
    if a == "" {
    } else if Separator(a[0]) {
      CommentTakesWord(a[1..], b);
      assert line[1..] == a[1..] + "#" + b;
    } else if Quote(a[0]) {
      CommentBehindQuote(a, b);
    } else if a[0] == '#' {
      InCommentStays(a[1..]);
      assert false;
    } else {
      CommentBehindWord(a, b);
    }
  }

  lemma {:induction false} CommentBehindQuote(a: string, b: string)
    requires EndOf(Between, a) == Between || EndOf(Between, a) == InWord
    requires a != "" && Quote(a[0])
    ensures EndOf(Between, a) == InWord ==> Tokens(a) != []
    ensures Tokens(a + "#" + b)
         == if EndOf(Between, a) == InWord then Tokens(a)[..|Tokens(a)| - 1] else Tokens(a)
    decreases |a|, 0
  {
    hide Tokens, Quoted;
    var line, n := a + "#" + b, Quoted(a[1..]);
    EndOfQuote(a[1..]);
    hide EndOf;
    assert n < |a[1..]| && a[1..][n + 1..] == a[n + 2..];
    CommentTakesWord(a[n + 2..], b);
    assert line[n + 2..] == a[n + 2..] + "#" + b && line[1..1 + n] == a[1..1 + n];
    assert forall k :: 0 < k <= n + 1 ==> a[k] == a[1..][k - 1] == line[k];
    assert a[0..] == a && line[0..] == line;
    QuoteToken(a, 0, n + 1);
    QuoteToken(line, 0, n + 1);
  }

  lemma {:induction false} CommentBehindWord(a: string, b: string)
    requires EndOf(Between, a) == Between || EndOf(Between, a) == InWord
    requires a != "" && WordChar(a[0]) && !Quote(a[0])
    ensures EndOf(Between, a) == InWord ==> Tokens(a) != []
    ensures Tokens(a + "#" + b)
         == if EndOf(Between, a) == InWord then Tokens(a)[..|Tokens(a)| - 1] else Tokens(a)
    decreases |a|, 0
  {
    var line, n := a + "#" + b, WordLength(a);
    EndOfWord(a);
    assert EndOf(Between, a) == EndOf(InWord, a);
    assert forall i :: 0 <= i < |a| ==> line[i] == a[i];
    WordIs(line, n);
    if n < |a| {
      if a[n] == '#' {
        InCommentStays(a[n + 1..]);
        assert false;
      } else {
        assert Separator(a[n]) && EndOf(Between, a[n..]) == EndOf(Between, a[n + 1..]);
        CommentTakesWord(a[n..], b);
        assert line[n..] == a[n..] + "#" + b && line[..n] == a[..n];
      }
    } else {
      assert a[n..] == "" && line[n] == '#';
    }
  }

  /** What stands before a comment is read as if there were no comment, exactly if no word runs into it. */
  lemma CommentIsHarmless(a: string, b: string)
    requires EndOf(Between, a) == Between || EndOf(Between, a) == InWord
    ensures Tokens(a + "#" + b) == Tokens(a) <==> EndOf(Between, a) == Between
  {
    CommentTakesWord(a, b);
  }

  /** The word before this comment is lost. */
  lemma LostWord()
    ensures Tokens("ab#c") == [] && Tokens("ab") == ["ab"] && Tokens("ab #c") == ["ab"]
  {
    var a, b := "ab", "ab ";
    hide Quoted, WordLength;
    ShortWord(a);
    assert a[..2] == a;
    CommentTakesWord(a, "c");
    assert a + "#" + "c" == "ab#c";
    ShortWord(b);
    CommentTakesWord(b, "c");
    assert b + "#" + "c" == "ab #c" && b[..2] == a;
  }

  /** A word of two characters with at most one separator behind it. */
  lemma ShortWord(text: string)
    requires 2 <= |text| <= 3 && (2 < |text| ==> Separator(text[2]))
    requires WordChar(text[0]) && WordChar(text[1]) && !Quote(text[0])
    ensures Tokens(text) == [text[..2]] && EndOf(Between, text) == if 2 < |text| then Between else InWord
  {
    hide Quoted, WordLength;
    WordToken(text, 0, 2);
    assert text[0..] == text && text[0..2] == text[..2];
    assert 2 < |text| ==> text[2..][1..] == "";
    var rest := text[1..][1..];
    assert EndOf(Between, text) == EndOf(InWord, rest);
    assert |rest| > 0 ==> rest[0] == text[2] && rest[1..] == "";
  }

  // ---------- the scanner ----------

  /** The argument is found at this position, and terminated if the line is to be cut. */
  predicate FoundAt(cmd: seq<char>, start: int, arg: string, separate: bool) {
    && 0 <= start && start + |arg| < |cmd| && cmd[start..start + |arg|] == arg
    && (separate ==> cmd[start + |arg|] == NUL)
  }

  predicate AllFound(cmd: seq<char>, starts: seq<int>, args: seq<string>, separate: bool, before: int) {
    && |starts| == |args|
    && forall k :: 0 <= k < |args| ==> FoundAt(cmd, starts[k], args[k], separate) && starts[k] + |args[k]| < before
  }

  /** What remains to be scanned, in each of the three states. */
  ghost predicate Scanning(line: string, args: seq<string>, pos: nat, last: int, quot: int) {
    && -1 <= last < pos <= |line| + 1 && -1 <= quot < pos && (last < 0 || quot < 0)
    && last < |line| && quot < |line| && (last >= 0 ==> pos <= |line|)
    && Tokens(line) == args + Tokens(line[(if last >= 0 then last else if quot >= 0 then quot
                                           else if pos <= |line| then pos else |line|)..])
    && (last >= 0 ==> !Quote(line[last]) && forall k :: last <= k < pos ==> WordChar(line[k]))
    && (quot >= 0 ==> Quote(line[quot]) && forall k :: quot < k < pos && k < |line| ==> !Quote(line[k]))
  }

  lemma ScanSeparator(line: string, args: seq<string>, pos: nat)
    requires Scanning(line, args, pos, -1, -1) && pos <= |line| && (pos == |line| || Separator(line[pos]))
    ensures Scanning(line, args, pos + 1, -1, -1)
  {
    if pos < |line| {
      assert line[pos..][1..] == line[pos + 1..];
    }
  }

  lemma ScanWordStart(line: string, args: seq<string>, pos: nat)
    requires Scanning(line, args, pos, -1, -1) && pos < |line| && WordChar(line[pos]) && !Quote(line[pos])
    ensures Scanning(line, args, pos + 1, pos, -1)
  {
  }

  lemma ScanWordEnd(line: string, args: seq<string>, pos: nat, last: nat)
    requires Scanning(line, args, pos, last, -1) && (pos == |line| || Separator(line[pos]))
    ensures Scanning(line, args + [line[last..pos]], pos, -1, -1)
  {
    WordToken(line, last, pos);
    hide Tokens, WordLength, Quoted;
    Regroup(args, [line[last..pos]], Tokens(line[pos..]));
  }

  lemma WordToken(line: string, last: nat, pos: nat)
    requires last < pos <= |line| && !Quote(line[last]) && forall k :: last <= k < pos ==> WordChar(line[k])
    requires pos == |line| || Separator(line[pos])
    ensures Tokens(line[last..]) == [line[last..pos]] + Tokens(line[pos..])
  {
    var rest := line[last..];
    assert forall i :: 0 <= i < |rest| ==> rest[i] == line[last + i];
    assert WordLength(rest) == pos - last;
    assert rest[..pos - last] == line[last..pos] && rest[pos - last..] == line[pos..];
    hide Quoted, WordLength;
  }

  lemma ScanQuoteStart(line: string, args: seq<string>, pos: nat)
    requires Scanning(line, args, pos, -1, -1) && pos < |line| && Quote(line[pos])
    ensures Scanning(line, args, pos + 1, -1, pos)
  {
  }

  lemma ScanQuoteEnd(line: string, args: seq<string>, pos: nat, quot: nat)
    requires Scanning(line, args, pos, -1, quot) && pos < |line| && Quote(line[pos])
    ensures Scanning(line, args + (if pos - quot > 1 then [line[quot + 1..pos]] else []), pos + 1, -1, -1)
  {
    QuoteToken(line, quot, pos);
    hide Tokens, WordLength, Quoted;
    Regroup(args, if pos - quot > 1 then [line[quot + 1..pos]] else [], Tokens(line[pos + 1..]));
  }

  lemma QuoteToken(line: string, quot: nat, pos: nat)
    requires quot < pos < |line| && Quote(line[quot]) && Quote(line[pos])
    requires forall k :: quot < k < pos ==> !Quote(line[k])
    ensures Tokens(line[quot..]) == (if pos - quot > 1 then [line[quot + 1..pos]] else []) + Tokens(line[pos + 1..])
  {
    var rest, n := line[quot..], pos - quot - 1;
    assert forall i :: 0 <= i < |rest| ==> rest[i] == line[quot + i];
    QuotedIs(rest[1..], n);
    assert rest[1..1 + n] == line[quot + 1..pos] && rest[n + 2..] == line[pos + 1..];
    hide Quoted, WordLength;
  }

  lemma ScanEnds(line: string, args: seq<string>, pos: nat, last: int, quot: int)
    requires Scanning(line, args, pos, last, quot)
    requires pos == |line| + 1 || (pos < |line| && quot < 0 && line[pos] == '#')
    ensures args == Tokens(line)
  {
    if last >= 0 {
      var rest := line[last..];
      assert forall i :: 0 <= i < |rest| ==> rest[i] == line[last + i];
      assert WordLength(rest) == pos - last;
    } else if quot >= 0 {
      var rest := line[quot..];
      assert forall i :: 0 <= i < |rest| ==> rest[i] == line[quot + i];
      assert Quoted(rest[1..]) == |rest| - 1;
    }
  }

  // ---------- in place ----------

  /** From this position on the line has not been overwritten. */
  ghost predicate KeptFrom(cmd: seq<char>, line: string, pos: int) {
    |line| < |cmd| && forall k :: 0 <= pos <= k <= |line| ==> cmd[k] == (if k < |line| then line[k] else NUL)
  }

  /** As many positions as there is room for, and null pointers behind them. */
  ghost predicate Stored(target: seq<int>, starts: seq<int>) {
    forall k :: 0 <= k < |target| ==> target[k] == if k < |starts| then starts[k] else -1
  }

  function From(pos: nat, last: int, quot: int): int {
    if last >= 0 then last else if quot >= 0 then quot + 1 else pos
  }

  /** The line as far as it has been scanned, and the arguments found in it. */
  ghost predicate State(cmd: seq<char>, target: seq<int>, line: string, args: seq<string>, starts: seq<int>,
                        separate: bool, pos: nat, last: int, quot: int, r: int)
  {
    && Scanning(line, args, pos, last, quot) && r == |args| && Stored(target, starts)
    && KeptFrom(cmd, line, From(pos, last, quot)) && AllFound(cmd, starts, args, separate, From(pos, last, quot))
  }

  /** Overwriting the character at the scan position does not touch the arguments before it. */
  lemma Cut(cmd: seq<char>, line: string, args: seq<string>, starts: seq<int>, separate: bool, from: nat, pos: nat)
    requires KeptFrom(cmd, line, from) && AllFound(cmd, starts, args, separate, from) && from <= pos <= |line|
    ensures var now := if separate then cmd[pos := NUL] else cmd;
            KeptFrom(now, line, pos + 1) && AllFound(now, starts, args, separate, pos + 1)
  {
    var now := if separate then cmd[pos := NUL] else cmd;
    forall k | 0 <= k < |args|
      ensures FoundAt(now, starts[k], args[k], separate) && starts[k] + |args[k]| < pos + 1
    {
      assert FoundAt(cmd, starts[k], args[k], separate);
      assert now[starts[k]..starts[k] + |args[k]|] == cmd[starts[k]..starts[k] + |args[k]|];
    }
  }

  /** The same, if an argument ends there. */
  lemma CutArgument(cmd: seq<char>, line: string, args: seq<string>, starts: seq<int>, separate: bool,
                    from: nat, pos: nat)
    requires KeptFrom(cmd, line, from) && AllFound(cmd, starts, args, separate, from) && from <= pos <= |line|
    ensures var now := if separate then cmd[pos := NUL] else cmd;
            && KeptFrom(now, line, pos + 1)
            && AllFound(now, starts + [from], args + [line[from..pos]], separate, pos + 1)
  {
    Cut(cmd, line, args, starts, separate, from, pos);
    var now := if separate then cmd[pos := NUL] else cmd;
    assert now[from..pos] == line[from..pos];
  }

  method Overwrite(cmd: array<char>, pos: nat, separate: bool)
    requires pos < cmd.Length
    modifies if separate then {cmd} else {}
    ensures cmd[..] == if separate then old(cmd[..])[pos := NUL] else old(cmd[..])
  {
    if separate {
      cmd[pos] := NUL;
    }
  }

  method Store(target: array?<int>, r: nat, start: nat, ghost starts: seq<int>)
    requires r == |starts| && (target != null ==> Stored(target[..], starts))
    modifies if target != null then {target} else {}
    ensures target != null ==> Stored(target[..], starts + [start])
  {
    if target != null && r < target.Length {
      target[r] := start;
    }
  }

  ghost function Contents(target: array?<int>): seq<int>
    reads if target != null then {target} else {}
  {
    if target == null then [] else target[..]
  }

  /** A separator outside of quotation marks. */
  method AtSeparator(cmd: array<char>, target: array?<int>, separate: bool, pos: nat, last0: int, r0: nat,
                     ghost line: string, ghost args0: seq<string>, ghost starts0: seq<int>)
    returns (last: int, r: nat, ghost args: seq<string>, ghost starts: seq<int>)
    requires State(cmd[..], Contents(target), line, args0, starts0, separate, pos, last0, -1, r0)
    requires pos <= |line| && (pos == |line| || Separator(line[pos]))
    modifies if separate then {cmd} else {}
    modifies if target != null then {target} else {}
    ensures State(cmd[..], Contents(target), line, args, starts, separate, pos + 1, last, -1, r)
  {
    last, r, args, starts := last0, r0, args0, starts0;
    if last != -1 {
      CutArgument(cmd[..], line, args, starts, separate, last, pos);
      ScanWordEnd(line, args, pos, last);
      args := args + [line[last..pos]];
    } else {
      Cut(cmd[..], line, args, starts, separate, pos, pos);
    }
    ScanSeparator(line, args, pos);
    assert pos < cmd.Length;
    hide Scanning, KeptFrom, AllFound, Stored, Separator;
    Overwrite(cmd, pos, separate);
    if last != -1 {
      Store(target, r, last, starts);
      starts := starts + [last];
      r := r + 1;
      last := -1;
    }
  }

  /** A quotation mark that is not within a word. */
  method AtQuote(cmd: array<char>, target: array?<int>, separate: bool, pos: nat, quot0: int, r0: nat,
                 ghost line: string, ghost args0: seq<string>, ghost starts0: seq<int>)
    returns (quot: int, r: nat, ghost args: seq<string>, ghost starts: seq<int>)
    requires State(cmd[..], Contents(target), line, args0, starts0, separate, pos, -1, quot0, r0)
    requires pos < |line| && Quote(line[pos]) && pos < cmd.Length && quot0 >= -1
    modifies if separate then {cmd} else {}
    modifies if target != null then {target} else {}
    ensures State(cmd[..], Contents(target), line, args, starts, separate, pos + 1, -1, quot, r)
  {
    quot, r, args, starts := quot0, r0, args0, starts0;
    hide State, Quote, Scanning, KeptFrom, AllFound, Stored;
    if quot < 0 {
      QuoteOpens(cmd[..], Contents(target), line, args, starts, separate, pos, r);
      Overwrite(cmd, pos, separate);
      quot := pos;
    } else {
      QuoteCloses(cmd[..], Contents(target), line, args, starts, separate, pos, quot, r);
      Overwrite(cmd, pos, separate);
      if pos - quot > 1 {
        Store(target, r, quot + 1, starts);
        args, starts := args + [line[quot + 1..pos]], starts + [quot + 1];
        r := r + 1;
      }
      quot := -1;
      StateOfParts(cmd[..], Contents(target), line, args, starts, separate, pos + 1, r);
    }
  }

  lemma QuoteOpens(cmd: seq<char>, target: seq<int>, line: string, args: seq<string>, starts: seq<int>,
                   separate: bool, pos: nat, r: int)
    requires State(cmd, target, line, args, starts, separate, pos, -1, -1, r) && pos < |line| && Quote(line[pos])
    ensures pos < |cmd|
    ensures State(if separate then cmd[pos := NUL] else cmd, target, line, args, starts, separate, pos + 1, -1, pos, r)
  {
    Cut(cmd, line, args, starts, separate, pos, pos);
    ScanQuoteStart(line, args, pos);
  }

  lemma QuoteCloses(cmd: seq<char>, target: seq<int>, line: string, args: seq<string>, starts: seq<int>,
                    separate: bool, pos: nat, quot: nat, r: int)
    requires State(cmd, target, line, args, starts, separate, pos, -1, quot, r) && pos < |line| && Quote(line[pos])
    ensures quot < pos < |cmd| && r == |args| == |starts| && Stored(target, starts)
    ensures var now := if separate then cmd[pos := NUL] else cmd;
            var found := pos - quot > 1;
            var more := if found then args + [line[quot + 1..pos]] else args;
            && Scanning(line, more, pos + 1, -1, -1) && KeptFrom(now, line, pos + 1)
            && AllFound(now, if found then starts + [quot + 1] else starts, more, separate, pos + 1)
  {
    ScanQuoteEnd(line, args, pos, quot);
    hide Scanning, Stored;
    if pos - quot > 1 {
      CutArgument(cmd, line, args, starts, separate, quot + 1, pos);
    } else {
      Cut(cmd, line, args, starts, separate, pos, pos);
      assert args + [] == args;
    }
  }

  lemma StateOfParts(cmd: seq<char>, target: seq<int>, line: string, args: seq<string>, starts: seq<int>,
                     separate: bool, pos: nat, r: int)
    requires Scanning(line, args, pos, -1, -1) && r == |args| && Stored(target, starts)
    requires KeptFrom(cmd, line, pos) && AllFound(cmd, starts, args, separate, pos)
    ensures State(cmd, target, line, args, starts, separate, pos, -1, -1, r)
  {
  }

  /** Any other character belongs to a word or to a quoted text. */
  lemma ScanOther(cmd: seq<char>, target: seq<int>, line: string, args: seq<string>, starts: seq<int>,
                  separate: bool, pos: nat, last: int, quot: int, r: int)
    requires State(cmd, target, line, args, starts, separate, pos, last, quot, r) && pos <= |line|
    requires quot < 0 ==> pos < |line| && WordChar(line[pos])
    requires last < 0 && pos < |line| ==> !Quote(line[pos])
    ensures State(cmd, target, line, args, starts, separate, pos + 1,
                  if last < 0 && quot < 0 then pos else last, quot, r)
  {
    if last < 0 && quot < 0 {
      ScanWordStart(line, args, pos);
    }
  }

  /** The number of arguments in a terminated line; their positions are stored as far as there is room. */
  method BuildArguments(pCmdLine: array?<char>, pTarget: array?<int>, separate: bool, ghost line: string)
    returns (r: int)
    requires pCmdLine != null ==> KeptFrom(pCmdLine[..], line, 0) && NUL !in line
    modifies if separate && pCmdLine != null then {pCmdLine} else {}
    modifies if pTarget != null && pCmdLine != null then {pTarget} else {}
    ensures r == if pCmdLine == null then -EINVAL else |Tokens(line)|
    ensures r >= 0 && pTarget != null ==>
      && (forall k :: 0 <= k < pTarget.Length && k < r ==> FoundAt(pCmdLine[..], pTarget[k], Tokens(line)[k], separate))
      && (forall k :: r <= k < pTarget.Length ==> pTarget[k] == -1)
  {
    if pCmdLine == null {
      return -EINVAL;
    }
    var iLen := LineLength(pCmdLine, line);
    if pTarget != null {
      ClearTarget(pTarget);
    }
    ghost var args, starts;
    r, args, starts := ScanLine(pCmdLine, pTarget, separate, iLen, line);
  }

  method ScanLine(cmd: array<char>, target: array?<int>, separate: bool, iLen: nat, ghost line: string)
    returns (r: nat, ghost args: seq<string>, ghost starts: seq<int>)
    requires KeptFrom(cmd[..], line, 0) && iLen == |line| && Stored(Contents(target), [])
    modifies if separate then {cmd} else {}
    modifies if target != null then {target} else {}
    ensures args == Tokens(line) && r == |args| && Stored(Contents(target), starts)
    ensures AllFound(cmd[..], starts, args, separate, cmd.Length)
  {
    hide State, Stored, AllFound, KeptFrom, Tokens;
    args, starts, r := [], [], 0;
    var last, quot, pos := -1, -1, 0;
    StateBegins(cmd[..], Contents(target), line, separate);
    while pos < iLen + 1 && (quot >= 0 || cmd[pos] != '#')
      invariant pos <= iLen + 1 <= cmd.Length
      invariant State(cmd[..], Contents(target), line, args, starts, separate, pos, last, quot, r)
    {
      last, quot, r, args, starts := ScanChar(cmd, target, separate, pos, last, quot, r, line, args, starts);
      pos := pos + 1;
    }
    StateEnds(cmd[..], Contents(target), line, args, starts, separate, pos, last, quot, r);
  }

  /** One round of the loop. */
  method ScanChar(cmd: array<char>, target: array?<int>, separate: bool, pos: nat, last0: int, quot0: int, r0: nat,
                  ghost line: string, ghost args0: seq<string>, ghost starts0: seq<int>)
    returns (last: int, quot: int, r: nat, ghost args: seq<string>, ghost starts: seq<int>)
    requires State(cmd[..], Contents(target), line, args0, starts0, separate, pos, last0, quot0, r0)
    requires pos <= |line| < cmd.Length && (quot0 >= 0 || cmd[pos] != '#')
    modifies if separate then {cmd} else {}
    modifies if target != null then {target} else {}
    ensures State(cmd[..], Contents(target), line, args, starts, separate, pos + 1, last, quot, r)
  {
    hide State, Separator, Quote;
    last, quot, r, args, starts := last0, quot0, r0, args0, starts0;
    StateFacts(cmd[..], Contents(target), line, args, starts, separate, pos, last, quot, r);
    if quot < 0 && Separator(cmd[pos]) {
      last, r, args, starts := AtSeparator(cmd, target, separate, pos, last, r, line, args, starts);
    } else if last == -1 && Quote(cmd[pos]) {
      quot, r, args, starts := AtQuote(cmd, target, separate, pos, quot, r, line, args, starts);
    } else {
      ScanOther(cmd[..], Contents(target), line, args, starts, separate, pos, last, quot, r);
      if quot < 0 {
        if last == -1 {
          last := pos;
        }
      } else if last != -1 && quot >= 0 {
        assert false; // the branch with the error message
      }
    }
  }

  lemma StateBegins(cmd: seq<char>, target: seq<int>, line: string, separate: bool)
    requires KeptFrom(cmd, line, 0) && Stored(target, [])
    ensures |line| < |cmd| && State(cmd, target, line, [], [], separate, 0, -1, -1, 0)
  {
    assert line[0..] == line && [] + Tokens(line) == Tokens(line);
  }

  lemma StateFacts(cmd: seq<char>, target: seq<int>, line: string, args: seq<string>, starts: seq<int>,
                   separate: bool, pos: nat, last: int, quot: int, r: int)
    requires State(cmd, target, line, args, starts, separate, pos, last, quot, r) && pos <= |line|
    ensures pos < |cmd| && cmd[pos] == (if pos < |line| then line[pos] else NUL)
    ensures last >= -1 && quot >= -1 && (last < 0 || quot < 0) && r >= 0
    ensures Separator(NUL) && !Quote(NUL)
  {
  }

  lemma StateEnds(cmd: seq<char>, target: seq<int>, line: string, args: seq<string>, starts: seq<int>,
                  separate: bool, pos: nat, last: int, quot: int, r: int)
    requires State(cmd, target, line, args, starts, separate, pos, last, quot, r)
    requires pos == |line| + 1 || (pos < |cmd| && quot < 0 && cmd[pos] == '#')
    ensures args == Tokens(line) && r == |args| && Stored(target, starts)
    ensures AllFound(cmd, starts, args, separate, |cmd|)
  {
    ScanEnds(line, args, pos, last, quot);
  }

  method LineLength(cmd: array<char>, ghost line: string) returns (n: nat)
    requires KeptFrom(cmd[..], line, 0) && NUL !in line
    ensures n == |line|
  {
    n := 0;
    while cmd[n] != NUL
      invariant n <= |line|
      decreases |line| - n
    {
      n := n + 1;
    }
  }

  method ClearTarget(target: array<int>)
    modifies target
    ensures forall k :: 0 <= k < target.Length ==> target[k] == -1
  {
    var i := 0;
    while i < target.Length
      invariant i <= target.Length && forall k :: 0 <= k < i ==> target[k] == -1
    {
      target[i] := -1;
      i := i + 1;
    }
  }

  /** A line of arguments in quotation marks is cut into just these arguments. */
  method BuildJoined(pCmdLine: array<char>, pTarget: array<int>, args: seq<string>) returns (r: int)
    requires forall i :: 0 <= i < |args| ==> Quotable(args[i])
    requires KeptFrom(pCmdLine[..], Joined(args), 0)
    modifies pCmdLine, pTarget
    ensures r == |args|
    ensures forall k :: 0 <= k < pTarget.Length && k < |args| ==> FoundAt(pCmdLine[..], pTarget[k], args[k], true)
    ensures forall k :: |args| <= k < pTarget.Length ==> pTarget[k] == -1
  {
    QuotingIsUndone(args);
    JoinedHasNoTerminator(args);
    hide Tokens, Joined, Quotable, KeptFrom, FoundAt;
    r := BuildArguments(pCmdLine, pTarget, true, Joined(args));
  }

  // ---------- words without quotation marks ----------

  /** A word: no blank, no control character and no hash sign in it, and no quotation mark at its beginning. */
  predicate PlainWord(w: string) {
    && w != "" && w[0] != '\'' && w[0] != '\"'
    && forall i :: 0 <= i < |w| ==> w[i] != ' ' && w[i] as int >= 16 && w[i] != '#'
  }

  /** Blanks and control characters. */
  predicate Space(sep: string) {
    forall i :: 0 <= i < |sep| ==> sep[i] == ' ' || sep[i] as int < 16
  }

  function Spaced(words: seq<string>, seps: seq<string>): string
    requires |seps| == |words|
  {
    if |words| == 0 then "" else words[0] + (seps[0] + Spaced(words[1..], seps[1..]))
  }

  lemma {:induction false} SkipsSpace(sep: string, rest: string)
    requires Space(sep)
    ensures Tokens(sep + rest) == Tokens(rest)
    decreases |sep|
  {
    if sep == "" {
      assert sep + rest == rest;
    } else {
      assert (sep + rest)[1..] == sep[1..] + rest;
      SkipsSpace(sep[1..], rest);
    }
  }

  /** Words with something blank between them are the arguments, quotation marks within them included. */
  lemma {:induction false} WordsAreArguments(words: seq<string>, seps: seq<string>)
    requires |seps| == |words| && forall k :: 0 <= k < |words| ==> PlainWord(words[k]) && Space(seps[k])
    requires forall k :: 0 <= k < |words| - 1 ==> seps[k] != ""
    ensures Tokens(Spaced(words, seps)) == words
    decreases |words|
  {
    hide Tokens, PlainWord, Space;
    if |words| == 0 {
      NoTokens();
    } else {
      var more := Spaced(words[1..], seps[1..]);
      assert seps[0] == "" ==> more == "";
      WordsAreArguments(words[1..], seps[1..]);
      OnePlainWord(words[0], seps[0], more);
    }
  }

  lemma NoTokens()
    ensures Tokens("") == []
  {
  }

  lemma OnePlainWord(w: string, sep: string, more: string)
    requires PlainWord(w) && Space(sep) && (sep == "" ==> more == "")
    ensures Tokens(w + (sep + more)) == [w] + Tokens(more)
  {
    var line := w + (sep + more);
    assert forall i :: 0 <= i < |w| ==> line[i] == w[i];
    assert line[0..] == line && line[0..|w|] == w && line[|w|..] == sep + more;
    assert sep != "" ==> line[|w|] == sep[0];
    hide Tokens;
    WordToken(line, 0, |w|);
    SkipsSpace(sep, more);
  }

  /** Empty quotation marks are no argument, a missing closing one makes the rest none, and the two kinds match. */
  lemma QuotationMarks(s: string, rest: string)
    requires forall i :: 0 <= i < |s| ==> s[i] != '\'' && s[i] != '\"'
    ensures Tokens("\"" + s) == Tokens("'" + s) == []
    ensures Tokens("\"\"" + rest) == Tokens(rest)
    ensures s != "" ==> Tokens("'" + s + "\"" + rest) == Tokens("\"" + s + "'" + rest) == [s] + Tokens(rest)
  {
    Unclosed("\"", s);
    Unclosed("'", s);
    Closed("\"", "", "\"", rest);
    assert "\"" + "" + "\"" + rest == "\"\"" + rest;
    Closed("'", s, "\"", rest);
    Closed("\"", s, "'", rest);
    assert [] + Tokens(rest) == Tokens(rest);
  }

  lemma Unclosed(q: string, s: string)
    requires |q| == 1 && Quote(q[0]) && forall i :: 0 <= i < |s| ==> !Quote(s[i])
    ensures Tokens(q + s) == []
  {
    var line := q + s;
    assert line[1..] == s && Quoted(s) == |s|;
    hide Quoted, WordLength;
  }

  lemma Closed(q: string, s: string, q': string, rest: string)
    requires |q| == |q'| == 1 && Quote(q[0]) && Quote(q'[0]) && forall i :: 0 <= i < |s| ==> !Quote(s[i])
    ensures Tokens(q + s + q' + rest) == (if s == "" then [] else [s]) + Tokens(rest)
  {
    var line := q + s + q' + rest;
    assert forall k :: 0 < k < |s| + 1 ==> line[k] == s[k - 1];
    assert line[|s| + 1] == q'[0];
    hide Tokens;
    QuoteToken(line, 0, |s| + 1);
    assert line[0..] == line && line[1..|s| + 1] == s && line[|s| + 2..] == rest;
  }

  /** A line of plain words is cut into just these words. */
  method BuildSpaced(pCmdLine: array<char>, pTarget: array<int>, words: seq<string>, seps: seq<string>)
    returns (r: int)
    requires |seps| == |words| && forall k :: 0 <= k < |words| ==> PlainWord(words[k]) && Space(seps[k])
    requires (forall k :: 0 <= k < |words| - 1 ==> seps[k] != "") && NUL !in Spaced(words, seps)
    requires KeptFrom(pCmdLine[..], Spaced(words, seps), 0)
    modifies pCmdLine, pTarget
    ensures r == |words|
    ensures forall k :: 0 <= k < pTarget.Length && k < |words| ==>
              && 0 <= pTarget[k] && pTarget[k] + |words[k]| < pCmdLine.Length
              && pCmdLine[pTarget[k]..pTarget[k] + |words[k]|] == words[k]
              && pCmdLine[pTarget[k] + |words[k]|] == '\0'
    ensures forall k :: |words| <= k < pTarget.Length ==> pTarget[k] == -1
  {
    WordsAreArguments(words, seps);
    hide Tokens, Spaced, PlainWord, Space, KeptFrom;
    r := BuildArguments(pCmdLine, pTarget, true, Spaced(words, seps));
  }
}
