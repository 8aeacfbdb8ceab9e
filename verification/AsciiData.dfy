/**
 Data words in a text: a first pass over the text counts them, a second one converts them.
 */
module AsciiData {
  import opened Common

  const U32 := 0x1_0000_0000

  predicate Separator(c: char) {
    c == '\n' || c == '\t' || c == ' '
  }

  lemma Separators(c: char)
    ensures Separator(c) <==> c in "\n\t "
    ensures Space(c) <==> c in "\n\t \U{000B}\U{000C}\r"
  {
    assert "\n\t "[0] == '\n' && "\n\t "[1] == '\t' && "\n\t "[2] == ' ';
  }

  /** The number of characters before the next separator. */
  function Run(text: string): (n: nat)
    ensures n <= |text| && (forall i :: 0 <= i < n ==> !Separator(text[i])) && (n < |text| ==> Separator(text[n]))
  {
    if text != "" && !Separator(text[0]) then 1 + Run(text[1..]) else 0
  }

  // ---------- conversion by sscanf ----------

  predicate Space(c: char) {
    Separator(c) || c == '\U{000B}' || c == '\U{000C}' || c == '\r'
  }

  function SkipSpace(s: string): string {
    if s != "" && Space(s[0]) then SkipSpace(s[1..]) else s
  }

  predicate HexDigit(c: char) {
    '0' <= c <= '9' || 'a' <= c <= 'f' || 'A' <= c <= 'F'
  }

  function DigitValue(c: char): nat
    requires HexDigit(c)
  {
    if c <= '9' then (c - '0') as nat else if c <= 'F' then (c - 'A') as nat + 10 else (c - 'a') as nat + 10
  }

  function Digits(s: string): (n: nat)
    ensures n <= |s| && (forall i :: 0 <= i < n ==> HexDigit(s[i])) && (n < |s| ==> !HexDigit(s[n]))
  {
    if s != "" && HexDigit(s[0]) then 1 + Digits(s[1..]) else 0
  }

  function HexValue(s: string): nat
    requires forall i :: 0 <= i < |s| ==> HexDigit(s[i])
  {
    if s == "" then 0 else 16 * HexValue(s[..|s| - 1]) + DigitValue(s[|s| - 1])
  }

  /** The format %x: blanks, a sign, a prefix and hexadecimal digits; too large a number gives the largest word. */
  function ScanX(s: string): (r: Option<nat>)
    ensures r.Some? ==> r.value < U32
  {
    var t := SkipSpace(s);
    var signed := t != "" && (t[0] == '-' || t[0] == '+');
    var u := if signed then t[1..] else t;
    var v := if |u| > 2 && u[0] == '0' && (u[1] == 'x' || u[1] == 'X') && HexDigit(u[2]) then u[2..] else u;
    var n := Digits(v);
    if n == 0 then None
    else
      var x := HexValue(v[..n]);
      Some(if x >= U32 then U32 - 1 else if signed && t[0] == '-' && x > 0 then U32 - x else x)
  }

  /** The format 0x%x. */
  function Scan0X(s: string): Option<nat> {
    var t := SkipSpace(s);
    if |t| >= 2 && t[0] == '0' && t[1] == 'x' then ScanX(t[2..]) else None
  }

  function Convert(s: string): (r: Option<nat>) {
    if Scan0X(s).Some? then Scan0X(s) else ScanX(s)
  }

  /** The conversion of every word; it may look at the text behind the word. */
  function Values(text: string): seq<Option<nat>>
    decreases |text|
  {
    if text == "" then []
    else if Separator(text[0]) then Values(text[1..])
    else [Convert(text)] + Values(text[Run(text)..])
  }

  function Succeeded(values: seq<Option<nat>>): (words: seq<nat>)
    ensures |words| <= |values|
    ensures |words| == |values| <==> forall k :: 0 <= k < |values| ==> values[k].Some?
    ensures |words| == |values| ==> forall k :: 0 <= k < |values| ==> words[k] == values[k].value
  {
    if |values| == 0 then []
    else
      var front := Succeeded(values[..|values| - 1]);
      if values[|values| - 1].Some? then front + [values[|values| - 1].value] else front
  }

  // ---------- the two passes ----------

  /** What remains to be scanned when the word being scanned begins at i, or there is none if i is negative. */
  ghost predicate Scanning(text: string, values: seq<Option<nat>>, i: int, j: nat) {
    && -1 <= i < j <= |text| + 1 && (i >= 0 ==> j <= |text| && forall k :: i <= k < j ==> !Separator(text[k]))
    && Values(text) == values + Values(text[(if i >= 0 then i else if j <= |text| then j else |text|)..])
  }

  lemma WordEnds(text: string, values: seq<Option<nat>>, i: nat, j: nat)
    requires Scanning(text, values, i, j) && (j == |text| || Separator(text[j]))
    ensures Scanning(text, values + [Convert(text[i..])], -1, j)
  {
    hide Convert, Run, Values;
    WordAt(text, i, j);
    Regroup(values, [Convert(text[i..])], Values(text[j..]));
  }

  lemma WordAt(text: string, i: nat, j: nat)
    requires i < j <= |text| && (forall k :: i <= k < j ==> !Separator(text[k])) && (j == |text| || Separator(text[j]))
    ensures Values(text[i..]) == [Convert(text[i..])] + Values(text[j..])
  {
    hide Convert, Run, Values;
    var rest := text[i..];
    assert forall k :: 0 <= k < |rest| ==> rest[k] == text[i + k];
    RunOf(rest, j - i);
    assert rest[j - i..] == text[j..];
    OneValue(rest, j - i);
  }

  lemma OneValue(rest: string, n: nat)
    requires rest != "" && !Separator(rest[0]) && Run(rest) == n
    ensures Values(rest) == [Convert(rest)] + Values(rest[n..])
  {
  }

  lemma BetweenWords(text: string, values: seq<Option<nat>>, j: nat)
    requires Scanning(text, values, -1, j) && j <= |text| && (j == |text| || Separator(text[j]))
    ensures Scanning(text, values, -1, j + 1)
  {
    if j < |text| {
      assert text[j..][1..] == text[j + 1..];
    }
  }

  lemma Begins(text: string)
    ensures Scanning(text, [], -1, 0)
  {
    assert text[0..] == text && [] + Values(text) == Values(text);
  }

  lemma Ends(text: string, values: seq<Option<nat>>)
    requires Scanning(text, values, -1, |text| + 1)
    ensures values == Values(text)
  {
    assert text[|text|..] == "";
  }

  /** The first pass. */
  method CountWords(text: string) returns (n: nat)
    ensures n == |Values(text)|
  {
    hide Values, Run, Convert, Scanning, Separator;
    n := 0;
    var i, j := -1, 0;
    ghost var values: seq<Option<nat>> := [];
    Begins(text);
    while j <= |text|
      invariant j <= |text| + 1 && -1 <= i < j && (i >= 0 ==> i < |text|) && (j == |text| + 1 ==> i < 0)
      invariant Scanning(text, values, i, j) && n == |values|
    {
      if j == |text| || Separator(text[j]) {
        if i >= 0 {
          WordEnds(text, values, i, j);
          values := values + [Convert(text[i..])];
          n := n + 1;
        }
        BetweenWords(text, values, j);
        i := -1;
      } else {
        WordGoesOn(text, values, i, j);
        if i < 0 {
          i := j;
        }
      }
      j := j + 1;
    }
    Ends(text, values);
  }

  /** The values that fit into a word of this number of bytes. */
  function Range(wordSize: nat): nat {
    if wordSize == 1 then 0x100 else if wordSize == 2 then 0x1_0000 else if wordSize == 3 then 0x100_0000 else U32
  }

  function Truncated(words: seq<nat>, wordSize: nat): (r: seq<nat>)
    ensures |r| == |words| && forall k :: 0 <= k < |r| ==> r[k] == words[k] % Range(wordSize) < Range(wordSize)
  {
    if |words| == 0 then []
    else Truncated(words[..|words| - 1], wordSize) + [words[|words| - 1] % Range(wordSize)]
  }

  /** The second pass; words that cannot be converted are left out. */
  method FillWords(text: string, result: array<nat>, wordSize: nat) returns (n: nat)
    requires result.Length == |Values(text)| && 1 <= wordSize <= 4
    modifies result
    ensures n == |Succeeded(Values(text))| <= result.Length
    ensures result[..n] == Truncated(Succeeded(Values(text)), wordSize)
  {
    hide Values, Run, Convert, Range, Succeeded, Truncated, Scanning, Filled;
    n := 0;
    var i, j := -1, 0;
    ghost var values: seq<Option<nat>> := [];
    Begins(text);
    NothingFilled(result[..], wordSize);
    while j <= |text|
      invariant j <= |text| + 1 && -1 <= i < j && (i >= 0 ==> i < |text|) && (j == |text| + 1 ==> i < 0)
      invariant Scanning(text, values, i, j) && Filled(result[..], n, values, wordSize)
    {
      if j == |text| || Separator(text[j]) {
        if i >= 0 {
          n, values := EndOfWord(text, result, wordSize, i, j, n, values);
        }
        BetweenWords(text, values, j);
        i := -1;
      } else {
        WordGoesOn(text, values, i, j);
        if i < 0 {
          i := j;
        }
      }
      j := j + 1;
    }
    Ends(text, values);
    AllFilled(result[..], n, values, wordSize);
  }

  method EndOfWord(text: string, result: array<nat>, wordSize: nat, i: nat, j: nat, n0: nat,
                   ghost values0: seq<Option<nat>>)
    returns (n: nat, ghost values: seq<Option<nat>>)
    requires result.Length == |Values(text)| && 1 <= wordSize <= 4 && i < |text|
    requires Scanning(text, values0, i, j) && Filled(result[..], n0, values0, wordSize)
    requires j == |text| || (j < |text| && Separator(text[j]))
    modifies result
    ensures Scanning(text, values, -1, j) && Filled(result[..], n, values, wordSize)
  {
    WordsLeft(text, values0, i, j);
    hide Values, Run, Convert, Range, Succeeded, Truncated, Scanning, Filled;
    WordEnds(text, values0, i, j);
    n := FillOne(result, n0, text, i, wordSize, values0);
    values := values0 + [Convert(text[i..])];
  }

  lemma AllFilled(result: seq<nat>, n: nat, values: seq<Option<nat>>, wordSize: nat)
    requires Filled(result, n, values, wordSize)
    ensures n == |Succeeded(values)| <= |result| && result[..n] == Truncated(Succeeded(values), wordSize)
  {
  }

  ghost predicate Filled(result: seq<nat>, n: nat, values: seq<Option<nat>>, wordSize: nat) {
    n == |Succeeded(values)| <= |result| && result[..n] == Truncated(Succeeded(values), wordSize)
  }

  lemma NothingFilled(result: seq<nat>, wordSize: nat)
    ensures Filled(result, 0, [], wordSize)
  {
  }

  lemma WordsLeft(text: string, values: seq<Option<nat>>, i: int, j: nat)
    requires Scanning(text, values, i, j) && i >= 0 && (j == |text| || Separator(text[j]))
    ensures |values| < |Values(text)|
  {
  }

  lemma WordGoesOn(text: string, values: seq<Option<nat>>, i: int, j: nat)
    requires Scanning(text, values, i, j) && j < |text| && !Separator(text[j])
    ensures Scanning(text, values, if i < 0 then j else i, j + 1)
  {
  }

  method FillOne(result: array<nat>, n0: nat, text: string, i: nat, wordSize: nat, ghost values: seq<Option<nat>>)
    returns (n: nat)
    requires i < |text| && |values| < result.Length && 1 <= wordSize <= 4
    requires Filled(result[..], n0, values, wordSize)
    modifies result
    ensures Filled(result[..], n, values + [Convert(text[i..])], wordSize)
  {
    n := n0;
    assert (values + [Convert(text[i..])])[..|values|] == values;
    hide Convert;
    var data := Convert(text[i..]);
    if data.Some? {
      assert Succeeded(values + [data]) == Succeeded(values) + [data.value];
      assert (Succeeded(values) + [data.value])[..n] == Succeeded(values);
      result[n] := data.value % Range(wordSize);
      n := n + 1;
    }
  }

  /** The data words, or nothing if there are none or if one of them cannot be converted. */
  method ConvertAscii2Bin(buffer: Option<string>, wordSize: int, memory: bool)
    returns (result: array?<nat>, size: nat)
    ensures result != null <==> memory && Convertible(buffer, wordSize)
    ensures result != null ==>
      && fresh(result) && result.Length == |Values(buffer.value)| && size == wordSize * result.Length
      && result[..] == Truncated(Succeeded(Values(buffer.value)), wordSize)
    ensures result == null && memory ==> size == 0
  {
    result, size := null, 0;
    if buffer.Some? && wordSize > 0 && wordSize <= 4 {
      var text := buffer.value;
      var n := CountWords(text);
      hide Values, Truncated;
      if n > 0 {
        size := n * wordSize;
        if memory {
          result := new nat[n];
          n := FillWords(text, result, wordSize);
          assert result[..result.Length] == result[..];
        }
      }
      if size > 0 && size != n * wordSize {
        size := 0;
      }
    }
    if size == 0 && result != null {
      result := null;
    }
  }

  ghost predicate Convertible(buffer: Option<string>, wordSize: int) {
    && buffer.Some? && 1 <= wordSize <= 4
    && |Values(buffer.value)| > 0 && |Succeeded(Values(buffer.value))| == |Values(buffer.value)|
  }

  // ---------- printing and reading ----------

  function HexChar(d: nat): (c: char)
    requires d < 16
    ensures HexDigit(c) && DigitValue(c) == d
  {
    if d < 10 then '0' + d as char else 'a' + (d - 10) as char
  }

  function Hex(w: nat): (s: string)
    ensures s != "" && (forall i :: 0 <= i < |s| ==> HexDigit(s[i])) && HexValue(s) == w
  {
    if w < 16 then HexOne(w) else
      var front := Hex(w / 16);
      HexStep(front, w);
      front + [HexChar(w % 16)]
  }

  function HexOne(w: nat): (s: string)
    requires w < 16
    ensures |s| == 1 && HexDigit(s[0]) && HexValue(s) == w
  {
    assert HexValue([HexChar(w)][..0]) == 0;
    [HexChar(w)]
  }

  lemma HexStep(front: string, w: nat)
    requires (forall i :: 0 <= i < |front| ==> HexDigit(front[i])) && HexValue(front) == w / 16
    ensures HexValue(front + [HexChar(w % 16)]) == w
  {
    assert (front + [HexChar(w % 16)])[..|front|] == front;
  }

  predicate AllSeparators(sep: string) {
    forall i :: 0 <= i < |sep| ==> Separator(sep[i])
  }

  /** A word is printed with the prefix or without it. */
  function Word(w: nat, prefixed: bool): string {
    (if prefixed then "0x" else "") + Hex(w)
  }

  /** Every word is followed by separators. */
  function Printed(words: seq<nat>, prefixed: seq<bool>, seps: seq<string>): string
    requires |seps| == |words| == |prefixed|
  {
    if |words| == 0 then ""
    else Word(words[0], prefixed[0]) + seps[0] + Printed(words[1..], prefixed[1..], seps[1..])
  }

  /** Only behind the last word there may be no separator. */
  predicate Separated(seps: seq<string>) {
    forall k :: 0 <= k < |seps| ==> AllSeparators(seps[k]) && (k < |seps| - 1 ==> seps[k] != "")
  }

  lemma ConvertPrinted(h: string, rest: string, w: nat)
    requires h != "" && (forall i :: 0 <= i < |h| ==> HexDigit(h[i])) && HexValue(h) == w < U32
    requires rest != "" ==> Separator(rest[0])
    ensures Convert("0x" + h + rest) == Some(w) && Run("0x" + h + rest) == 2 + |h|
  {
    var s := "0x" + h + rest;
    ScanDigits(h, rest, w);
    PrintedIs(h, rest);
    hide ScanX, HexValue, Digits, Run, HexDigit, Convert;
    ConvertPrefixed(s, w);
    RunOf(s, 2 + |h|);
  }

  lemma PrintedIs(h: string, rest: string)
    requires forall i :: 0 <= i < |h| ==> HexDigit(h[i])
    ensures var s := "0x" + h + rest;
            && s[0] == '0' && s[1] == 'x' && s[2..] == h + rest
            && (forall i :: 0 <= i < 2 + |h| ==> !Separator(s[i])) && (rest != "" ==> s[2 + |h|] == rest[0])
  {
    var s := "0x" + h + rest;
    assert forall i :: 2 <= i < 2 + |h| ==> s[i] == h[i - 2];
  }

  lemma ConvertPrefixed(s: string, w: nat)
    requires |s| >= 2 && s[0] == '0' && s[1] == 'x' && ScanX(s[2..]) == Some(w)
    ensures Convert(s) == Some(w)
  {
    hide ScanX;
  }

  lemma RunOf(s: string, n: nat)
    requires n <= |s| && (forall i :: 0 <= i < n ==> !Separator(s[i])) && (n < |s| ==> Separator(s[n]))
    ensures Run(s) == n
  {
  }

  lemma DigitsOf(s: string, n: nat)
    requires n <= |s| && (forall i :: 0 <= i < n ==> HexDigit(s[i])) && (n < |s| ==> !HexDigit(s[n]))
    ensures Digits(s) == n
  {
  }

  lemma ScanDigits(h: string, rest: string, w: nat)
    requires h != "" && (forall i :: 0 <= i < |h| ==> HexDigit(h[i])) && HexValue(h) == w < U32
    requires rest != "" ==> Separator(rest[0])
    ensures ScanX(h + rest) == Some(w)
  {
    var s := h + rest;
    assert s[0] == h[0] && forall i :: 0 <= i < |h| ==> s[i] == h[i];
    assert |s| > 1 ==> s[1] == (if |h| > 1 then h[1] else rest[0]);
    assert s[..|h|] == h;
    DigitsOf(s, |h|);
    assert |s| > 1 ==> s[1] != 'x' && s[1] != 'X';
    hide Digits, HexValue, ScanX;
    ScanPlain(s, |h|);
  }

  lemma ScanPlain(s: string, n: nat)
    requires 0 < n == Digits(s)
    requires |s| > 1 ==> s[1] != 'x' && s[1] != 'X'
    requires HexValue(s[..n]) < U32
    ensures ScanX(s) == Some(HexValue(s[..n]))
  {
    hide Digits, HexValue, HexDigit, SkipSpace;
    FirstIsDigit(s);
  }

  lemma FirstIsDigit(s: string)
    requires s != "" && HexDigit(s[0])
    ensures SkipSpace(s) == s && s[0] != '-' && s[0] != '+'
  {
  }

  lemma {:induction false} ValuesSkip(sep: string, rest: string)
    requires AllSeparators(sep)
    ensures Values(sep + rest) == Values(rest)
  {
    if sep == "" {
      assert sep + rest == rest;
    } else {
      assert (sep + rest)[1..] == sep[1..] + rest;
      ValuesSkip(sep[1..], rest);
    }
  }

  /** Without the prefix the digits are read all the same. */
  lemma ConvertPlain(h: string, rest: string, w: nat)
    requires h != "" && (forall i :: 0 <= i < |h| ==> HexDigit(h[i])) && HexValue(h) == w < U32
    requires rest != "" ==> Separator(rest[0])
    ensures Convert(h + rest) == Some(w) && Run(h + rest) == |h|
  {
    var s := h + rest;
    ScanDigits(h, rest, w);
    PlainIs(h, rest);
    hide ScanX, HexValue, Digits, Run, HexDigit, SkipSpace;
    RunOf(s, |h|);
  }

  lemma PlainIs(h: string, rest: string)
    requires h != "" && forall i :: 0 <= i < |h| ==> HexDigit(h[i])
    requires rest != "" ==> Separator(rest[0])
    ensures var s := h + rest;
            && (forall i :: 0 <= i < |h| ==> !Separator(s[i])) && (|h| < |s| ==> Separator(s[|h|]))
            && Scan0X(s) == None
  {
    var s := h + rest;
    assert forall i :: 0 <= i < |h| ==> s[i] == h[i];
    assert |s| > 1 ==> s[1] == if |h| > 1 then h[1] else rest[0];
    FirstIsDigit(s);
    hide SkipSpace, ScanX;
  }

  lemma WordIsRead(w: nat, prefixed: bool, rest: string)
    requires w < U32 && (rest != "" ==> Separator(rest[0]))
    ensures var text := Word(w, prefixed) + rest;
            && Convert(text) == Some(w) && text[Run(text)..] == rest && Values(text) == [Some(w)] + Values(rest)
  {
    hide Convert, Hex, HexValue;
    var text := Word(w, prefixed) + rest;
    if prefixed {
      assert text == "0x" + Hex(w) + rest;
      ConvertPrinted(Hex(w), rest, w);
    } else {
      assert text == Hex(w) + rest;
      ConvertPlain(Hex(w), rest, w);
    }
    assert text[Run(text)..] == rest;
    WordIsNotBlank(w, prefixed, rest);
  }

  lemma WordIsNotBlank(w: nat, prefixed: bool, rest: string)
    ensures var text := Word(w, prefixed) + rest; text != "" && !Separator(text[0])
  {
  }

  /** The words of a printed text are the printed ones, and then those of what follows. */
  lemma {:induction false} ValuesOfPrinted(words: seq<nat>, prefixed: seq<bool>, seps: seq<string>, tail: string)
    requires |seps| == |words| == |prefixed| && forall k :: 0 <= k < |words| ==> words[k] < U32
    requires Separated(seps) && (tail != "" && seps != [] ==> seps[|seps| - 1] != "")
    ensures var values := Values(Printed(words, prefixed, seps) + tail);
            && |values| == |words| + |Values(tail)| && values[|words|..] == Values(tail)
            && forall k :: 0 <= k < |words| ==> values[k] == Some(words[k])
  {
    hide Values, Word, Separated, Run, Convert;
    if |words| == 0 {
      assert Printed(words, prefixed, seps) + tail == tail;
    } else {
      var more := Printed(words[1..], prefixed[1..], seps[1..]) + tail;
      var rest := seps[0] + more;
      PrintedFirst(words, prefixed, seps, tail);
      WordIsRead(words[0], prefixed[0], rest);
      FirstSeps(seps);
      ValuesSkip(seps[0], more);
      ValuesOfPrinted(words[1..], prefixed[1..], seps[1..], tail);
      OneBefore(words, Values(more), Values(tail));
    }
  }

  lemma OneBefore(words: seq<nat>, more: seq<Option<nat>>, tail: seq<Option<nat>>)
    requires words != [] && |more| == |words| - 1 + |tail| && more[|words| - 1..] == tail
    requires forall k :: 0 <= k < |words| - 1 ==> more[k] == Some(words[1..][k])
    ensures var values := [Some(words[0])] + more;
            && values[|words|..] == tail && forall k :: 0 <= k < |words| ==> values[k] == Some(words[k])
  {
    var values := [Some(words[0])] + more;
    forall k | 0 <= k < |words|
      ensures values[k] == Some(words[k])
    {
      assert k > 0 ==> values[k] == more[k - 1] == Some(words[1..][k - 1]);
    }
  }

  lemma FirstSeps(seps: seq<string>)
    requires Separated(seps) && seps != []
    ensures AllSeparators(seps[0])
  {
  }

  lemma PrintedFirst(words: seq<nat>, prefixed: seq<bool>, seps: seq<string>, tail: string)
    requires |seps| == |words| == |prefixed| && words != [] && Separated(seps)
    requires tail != "" ==> seps[|seps| - 1] != ""
    ensures var rest := seps[0] + (Printed(words[1..], prefixed[1..], seps[1..]) + tail);
            && Printed(words, prefixed, seps) + tail == Word(words[0], prefixed[0]) + rest
            && (rest != "" ==> Separator(rest[0])) && Separated(seps[1..])
            && (tail != "" && seps[1..] != [] ==> seps[1..][|seps| - 2] != "")
  {
    hide Hex;
    var more := Printed(words[1..], prefixed[1..], seps[1..]);
    Regroup(Word(words[0], prefixed[0]) + seps[0], more, tail);
    Regroup(Word(words[0], prefixed[0]), seps[0], more + tail);
    assert forall k :: 0 <= k < |seps| - 1 ==> seps[1..][k] == seps[k + 1];
    if seps[0] != "" {
      assert (seps[0] + (more + tail))[0] == seps[0][0];
    } else {
      assert |seps| == 1 && more == "" && tail == "";
    }
  }

  lemma SucceededAll(values: seq<Option<nat>>, words: seq<nat>)
    requires |values| == |words| && forall k :: 0 <= k < |words| ==> values[k] == Some(words[k])
    ensures Succeeded(values) == words
  {
    assert forall k :: 0 <= k < |values| ==> values[k].Some?;
  }

  /** What has been printed, with any separators before, between and behind the words, is read back. */
  lemma PrintingIsUndone(words: seq<nat>, prefixed: seq<bool>, before: string, seps: seq<string>)
    requires |seps| == |words| == |prefixed| && Separated(seps) && forall k :: 0 <= k < |words| ==> words[k] < U32
    requires AllSeparators(before)
    ensures var text := before + Printed(words, prefixed, seps);
            Succeeded(Values(text)) == words && |Values(text)| == |words|
  {
    hide Values, Printed, AllSeparators, Separated, Succeeded;
    var text := Printed(words, prefixed, seps);
    ValuesSkip(before, text);
    ValuesOfPrinted(words, prefixed, seps, "");
    assert text + "" == text;
    NoValues();
    SucceededAll(Values(text), words);
  }

  lemma NoValues()
    ensures Values("") == []
  {
  }

  /** The program reads what has been printed; of each word it keeps as many bytes as it is asked for. */
  method ConvertPrintedText(words: seq<nat>, prefixed: seq<bool>, before: string, seps: seq<string>, wordSize: int)
    returns (result: array?<nat>, size: nat)
    requires words != [] && forall k :: 0 <= k < |words| ==> words[k] < U32
    requires |seps| == |words| == |prefixed| && Separated(seps) && AllSeparators(before) && 1 <= wordSize <= 4
    ensures result != null && result.Length == |words| && size == wordSize * |words|
    ensures forall k :: 0 <= k < |words| ==>
              result[k] == words[k] % (match wordSize case 1 => 0x100 case 2 => 0x1_0000 case 3 => 0x100_0000
                                                      case _ => 0x1_0000_0000)
  {
    var text := before + Printed(words, prefixed, seps);
    hide Values, Printed, AllSeparators, Separated, Succeeded, Truncated;
    PrintingIsUndone(words, prefixed, before, seps);
    result, size := ConvertAscii2Bin(Some(text), wordSize, true);
  }

  /** A word that is no number is not passed over: there is no result at all. */
  method ConvertBadText(words: seq<nat>, prefixed: seq<bool>, before: string, seps: seq<string>, bad: string,
                        wordSize: int)
    returns (result: array?<nat>, size: nat)
    requires |seps| == |words| == |prefixed| && Separated(seps) && AllSeparators(before)
    requires (forall k :: 0 <= k < |words| ==> words[k] < U32) && (seps != [] ==> seps[|seps| - 1] != "")
    requires bad != "" && !Separator(bad[0]) && NoNumber(bad[0])
    ensures result == null && size == 0
  {
    var text := before + (Printed(words, prefixed, seps) + bad);
    hide Printed, AllSeparators, Separated, Succeeded, Truncated;
    ValuesSkip(before, Printed(words, prefixed, seps) + bad);
    ValuesOfPrinted(words, prefixed, seps, bad);
    NotConverted(bad);
    hide Values, NoNumber;
    assert Values(text)[|words|] == None;
    result, size := ConvertAscii2Bin(Some(text), wordSize, true);
  }

  /** No blank, no sign and no hexadecimal digit. */
  predicate NoNumber(c: char) {
    && c != ' ' && c != '\t' && c != '\n' && c != '\r' && c != '\U{000B}' && c != '\U{000C}' && c != '+' && c != '-'
    && !('0' <= c <= '9') && !('a' <= c <= 'f') && !('A' <= c <= 'F')
  }

  lemma NotConverted(bad: string)
    requires bad != "" && !Separator(bad[0]) && NoNumber(bad[0])
    ensures Convert(bad) == None && Values(bad) != [] && Values(bad)[0] == None
  {
    assert SkipSpace(bad) == bad;
  }

  // ---------- signs and large numbers ----------

  /** A sign goes before the digits: a negative number is counted down from 2^32. */
  lemma SignedNumber(h: string, rest: string, w: nat)
    requires h != "" && (forall i :: 0 <= i < |h| ==> HexDigit(h[i])) && HexValue(h) == w < U32
    requires rest != "" ==> Separator(rest[0])
    ensures Convert("+" + h + rest) == Some(w)
    ensures Convert("-" + h + rest) == Some(if w == 0 then 0 else U32 - w)
  {
    hide Digits, HexValue, HexDigit, ScanX, Scan0X, SkipSpace;
    LeadingDigits(h, rest);
    assert "+" + h + rest == ['+'] + (h + rest) && "-" + h + rest == ['-'] + (h + rest);
    ScanSigned('+', h + rest, |h|);
    ScanSigned('-', h + rest, |h|);
  }

  lemma ScanSigned(sign: char, s: string, n: nat)
    requires (sign == '+' || sign == '-') && 0 < n == Digits(s) && (|s| > 1 ==> s[1] != 'x' && s[1] != 'X')
    ensures Scan0X([sign] + s) == None
    ensures var x := HexValue(s[..n]);
            ScanX([sign] + s) == Some(if x >= U32 then U32 - 1 else if sign == '-' && x > 0 then U32 - x else x)
  {
    hide Digits, HexValue, HexDigit, ScanX, Scan0X;
    var t := [sign] + s;
    assert t[1..] == s;
    NoPrefix(t);
    SignedIs(t, s, n);
  }

  lemma NoPrefix(t: string)
    requires t != "" && (t[0] == '+' || t[0] == '-')
    ensures Scan0X(t) == None && SkipSpace(t) == t
  {
    hide ScanX;
  }

  lemma SignedIs(t: string, s: string, n: nat)
    requires t != "" && (t[0] == '+' || t[0] == '-') && t[1..] == s && SkipSpace(t) == t
    requires 0 < n == Digits(s) && (|s| > 1 ==> s[1] != 'x' && s[1] != 'X')
    ensures var x := HexValue(s[..n]);
            ScanX(t) == Some(if x >= U32 then U32 - 1 else if t[0] == '-' && x > 0 then U32 - x else x)
  {
    hide Digits, HexValue, HexDigit, SkipSpace;
  }

  lemma LeadingDigits(h: string, rest: string)
    requires h != "" && forall i :: 0 <= i < |h| ==> HexDigit(h[i])
    requires rest != "" ==> Separator(rest[0])
    ensures var s := h + rest;
            Digits(s) == |h| && s[..|h|] == h && (|s| > 1 ==> s[1] != 'x' && s[1] != 'X')
  {
    var s := h + rest;
    assert forall i :: 0 <= i < |h| ==> s[i] == h[i];
    assert |s| > 1 ==> s[1] == if |h| > 1 then h[1] else rest[0];
    DigitsOf(s, |h|);
  }

  /** A number that is too large is the largest word, whatever its sign. */
  lemma LargeNumber(h: string, rest: string)
    requires h != "" && (forall i :: 0 <= i < |h| ==> HexDigit(h[i])) && HexValue(h) >= U32
    requires rest != "" ==> Separator(rest[0])
    ensures Convert(h + rest) == Convert("-" + h + rest) == Some(0xffff_ffff)
  {
    LeadingDigits(h, rest);
    PlainIs(h, rest);
    FirstIsDigit(h + rest);
    assert "-" + h + rest == ['-'] + (h + rest);
    ScanUnsigned(h + rest, |h|);
    hide Digits, HexValue, HexDigit, ScanX, Scan0X, SkipSpace;
    ScanSigned('-', h + rest, |h|);
  }

  lemma ScanUnsigned(s: string, n: nat)
    requires 0 < n == Digits(s) && (|s| > 1 ==> s[1] != 'x' && s[1] != 'X') && HexValue(s[..n]) >= U32
    ensures ScanX(s) == Some(U32 - 1)
  {
    hide Digits, HexValue, HexDigit, SkipSpace;
    FirstIsDigit(s);
  }

  /** The digits and what they stand for. */
  lemma DigitValues(c: char)
    ensures '0' <= c <= '9' ==> HexDigit(c) && DigitValue(c) == c as int - '0' as int
    ensures 'a' <= c <= 'f' ==> HexDigit(c) && DigitValue(c) == 10 + (c as int - 'a' as int)
    ensures 'A' <= c <= 'F' ==> HexDigit(c) && DigitValue(c) == 10 + (c as int - 'A' as int)
    ensures HexDigit(c) ==> '0' <= c <= '9' || 'a' <= c <= 'f' || 'A' <= c <= 'F'
  {
  }
}
