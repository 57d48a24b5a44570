/**
  The scrollback buffer of the console: an ordered list of lines, oldest
  first. `Print` appends text to it, closing a line after every '\n'; the
  last line is the only one that may still be open.
 */
module Scrollback {
  import opened Text

  /** A line is closed once it ends in a line break. */
  predicate Closed(line: string)
  {
    |line| > 0 && line[|line| - 1] == '\n'
  }

  /** A non-empty suffix of a text is closed exactly when the text is. */
  lemma ClosedSuffix(text: string, k: nat)
    requires k < |text|
    ensures Closed(text[k..]) <==> Closed(text)
  {
    assert text[k..][|text| - k - 1] == text[|text| - 1];
  }

  /** The last line of a non-empty buffer is closed. */
  predicate LastClosed(lines: seq<string>)
  {
    |lines| > 0 && Closed(lines[|lines| - 1])
  }

  /** A single line: no line break except, possibly, as its last character. */
  predicate IsLine(line: string)
  {
    forall j :: 0 <= j < |line| - 1 ==> line[j] != '\n'
  }

  /** The shape `Print` maintains: every entry is a single line and every
      entry but the last is closed. */
  predicate WellFormed(lines: seq<string>)
  {
    && (forall i :: 0 <= i < |lines| ==> IsLine(lines[i]))
    && (forall i :: 0 <= i < |lines| - 1 ==> Closed(lines[i]))
  }

  /** The two preparatory steps of `print`: seed an empty buffer with one
      empty line, then start a fresh empty line if the last one is closed. */
  function Reopen(lines: seq<string>): (r: seq<string>)
    ensures |r| > 0 && !Closed(r[|r| - 1])
    ensures |lines| > 0 ==> |lines| <= |r| && r[..|lines|] == lines
    ensures |r| <= |lines| + 1
    ensures |r| > |lines| ==> r[|r| - 1] == ""
    ensures |lines| > 0 && !Closed(lines[|lines| - 1]) ==> r == lines
  {
    var seeded := if |lines| == 0 then [""] else lines;
    if Closed(seeded[|seeded| - 1]) then
      assert (seeded + [""])[..|seeded|] == seeded;
      seeded + [""]
    else
      seeded
  }

  /** Appends `piece` to the last line of a non-empty buffer. */
  function Extend(lines: seq<string>, piece: string): (r: seq<string>)
    requires |lines| > 0
    ensures |r| == |lines|
  {
    lines[..|lines| - 1] + [lines[|lines| - 1] + piece]
  }

  /** Appends `text` to the buffer (console_t::print). The current open line
      is extended up to and including the first '\n' of `text`; whatever
      follows that break is printed again, on a fresh line. The text of the
      buffer grows by exactly `text`, no line before the previous last one
      changes, the last line ends up closed exactly when `text` ends in a
      break, and a well-formed buffer stays well formed. */
  function Print(lines: seq<string>, text: string): (r: seq<string>)
    ensures |r| > 0
    ensures Concat(r) == Concat(lines) + text
    ensures KeepsEarlier(lines, r)
    ensures LastClosed(r) <==> Closed(text)
    ensures WellFormed(lines) ==> WellFormed(r)
    decreases |text|
  {
    var open := Reopen(lines);
    match Find(text, '\n')
    case None =>
      ExtendReopenAppends(lines, text);
      Extend(open, text)
    case Some(i) =>
      var closed := Extend(open, text[..i + 1]);
      if i < |text| - 1 then
        var r := Print(closed, text[i + 1..]);
        PrintStep(lines, text, r);
        r
      else
        assert text[..i + 1] == text;
        ExtendReopenAppends(lines, text);
        closed
  }

  /** `text` fits on the current line: it holds no line break, or only
      one, as its last character. */
  predicate OneLine(text: string)
  {
    Find(text, '\n').None? || Find(text, '\n').value == |text| - 1
  }

  /** `print` of a text that fits on the current line. */
  lemma PrintOneLine(lines: seq<string>, text: string)
    requires OneLine(text)
    ensures Print(lines, text) == Extend(Reopen(lines), text)
  {
    if Find(text, '\n').Some? {
      assert text[..|text|] == text;
    }
  }

  /** `print` of a text that goes on past its first line break. */
  lemma PrintMoreLines(lines: seq<string>, text: string)
    requires Find(text, '\n').Some? && Find(text, '\n').value < |text| - 1
    ensures var i := Find(text, '\n').value;
      Print(lines, text) == Print(Extend(Reopen(lines), text[..i + 1]), text[i + 1..])
  {
  }

  /** `print` of a text without line breaks extends the current line. */
  lemma PrintNoBreak(lines: seq<string>, text: string)
    requires '\n' !in text
    ensures OneLine(text)
    ensures Print(lines, text) == Extend(Reopen(lines), text)
  {
    FindSpec(text, '\n');
    PrintOneLine(lines, text);
  }

  /** A text that fits on one line, printed while the last line is open,
      is appended to that line. */
  lemma PrintOpenLine(lines: seq<string>, text: string)
    requires |lines| > 0 && !Closed(lines[|lines| - 1]) && OneLine(text)
    ensures Print(lines, text) == lines[..|lines| - 1] + [lines[|lines| - 1] + text]
  {
    PrintOneLine(lines, text);
  }

  /** A text that fits on one line, printed into an empty buffer or after a
      closed line, gets a line of its own. */
  lemma PrintOwnLine(lines: seq<string>, text: string)
    requires (|lines| == 0 || LastClosed(lines)) && OneLine(text)
    ensures Print(lines, text) == lines + [text]
  {
    PrintOneLine(lines, text);
    var open := Reopen(lines);
    assert open == lines + [""];
    assert open[..|open| - 1] == lines;
    assert "" + text == text;
  }

  /** The buffer `print` continues with after the first line break of a
      text that goes on past it. */
  function Continue(lines: seq<string>, text: string): seq<string>
    requires Find(text, '\n').Some?
  {
    Extend(Reopen(lines), text[..Find(text, '\n').value + 1])
  }

  /** The text `print` continues with after its first line break. */
  function Rest(text: string): string
    requires Find(text, '\n').Some?
  {
    text[Find(text, '\n').value + 1..]
  }

  /** Seeding and reopening add no text. */
  lemma ReopenConcat(lines: seq<string>)
    ensures Concat(Reopen(lines)) == Concat(lines)
  {
    if |lines| == 0 {
      assert Concat([""]) == Concat([]) + "";
    } else if Closed(lines[|lines| - 1]) {
      assert (lines + [""])[..|lines|] == lines;
    }
  }

  /** Extending the last line appends exactly `piece` to the text and leaves
      every earlier line alone. */
  lemma ExtendFacts(lines: seq<string>, piece: string)
    requires |lines| > 0
    ensures var r := Extend(lines, piece);
      && r[..|lines| - 1] == lines[..|lines| - 1]
      && r[|r| - 1] == lines[|lines| - 1] + piece
      && Concat(r) == Concat(lines) + piece
  {
    var keep := lines[..|lines| - 1];
    var r := Extend(lines, piece);
    assert r[..|r| - 1] == keep;
    assert Concat(lines) == Concat(keep) + lines[|lines| - 1];
  }

  /** Reopening and then extending appends exactly `piece` to the text. */
  lemma ExtendReopenConcat(lines: seq<string>, piece: string)
    ensures Concat(Extend(Reopen(lines), piece)) == Concat(lines) + piece
  {
    ReopenConcat(lines);
    ExtendFacts(Reopen(lines), piece);
  }

  /** Chains two appends to the text of a buffer. */
  lemma ConcatChain(r: seq<string>, mid: seq<string>, lines: seq<string>, head: string, rest: string)
    requires Concat(r) == Concat(mid) + rest
    requires Concat(mid) == Concat(lines) + head
    ensures Concat(r) == Concat(lines) + (head + rest)
  {
  }

  /** `after` is at least as long as `before` and agrees with it on every
      line before the last one of `before`. */
  predicate KeepsEarlier(before: seq<string>, after: seq<string>)
  {
    |before| <= |after| && forall k :: 0 <= k < |before| - 1 ==> after[k] == before[k]
  }

  lemma KeepsEarlierTransitive(a: seq<string>, b: seq<string>, c: seq<string>)
    requires KeepsEarlier(a, b) && KeepsEarlier(b, c)
    ensures KeepsEarlier(a, c)
  {
  }

  /** Reopening and then extending keeps every line before the previous
      last one. */
  lemma ExtendReopenKeeps(lines: seq<string>, piece: string)
    ensures KeepsEarlier(lines, Extend(Reopen(lines), piece))
  {
    var open := Reopen(lines);
    ExtendFacts(open, piece);
    if |lines| > 0 {
      assert forall k :: 0 <= k < |lines| - 1 ==> open[k] == open[..|lines|][k];
    }
  }

  /** A text that fits on the current line is a single line. */
  lemma OneLineIsLine(text: string)
    requires OneLine(text)
    ensures IsLine(text)
  {
    FindSpec(text, '\n');
    if Find(text, '\n').Some? {
      assert text[..|text| - 1] == text[..Find(text, '\n').value];
    }
    forall j | 0 <= j < |text| - 1
      ensures text[j] != '\n'
    {
      if Find(text, '\n').Some? {
        assert text[j] == text[..|text| - 1][j];
      } else {
        assert text[j] in text;
      }
    }
  }

  /** The part of a text that `print` puts on the current line is a single,
      closed line. */
  lemma HeadIsLine(text: string)
    requires !OneLine(text)
    ensures var head := text[..Find(text, '\n').value + 1]; IsLine(head) && Closed(head)
  {
    FindSpec(text, '\n');
    var i := Find(text, '\n').value;
    var head := text[..i + 1];
    forall j | 0 <= j < |head| - 1
      ensures head[j] != '\n'
    {
      assert head[j] == text[..i][j];
    }
  }

  /** Seeding and reopening keep the buffer well formed. */
  lemma ReopenWellFormed(lines: seq<string>)
    requires WellFormed(lines)
    ensures WellFormed(Reopen(lines))
  {
    var open := Reopen(lines);
    if |lines| > 0 {
      assert forall k :: 0 <= k < |lines| ==> open[k] == open[..|lines|][k];
    }
  }

  /** An open single line followed by a single line is a single line. */
  lemma JoinIsLine(last: string, piece: string)
    requires IsLine(last) && !Closed(last) && IsLine(piece)
    ensures IsLine(last + piece)
  {
    var line := last + piece;
    forall j | 0 <= j < |line| - 1
      ensures line[j] != '\n'
    {
      if j < |last| {
        assert line[j] == last[j];
      } else {
        assert line[j] == piece[j - |last|];
      }
    }
  }

  /** Reopening and then extending by a single line keeps the buffer well
      formed. */
  lemma ExtendReopenWellFormed(lines: seq<string>, piece: string)
    requires WellFormed(lines) && IsLine(piece)
    ensures WellFormed(Extend(Reopen(lines), piece))
  {
    var open := Reopen(lines);
    ReopenWellFormed(lines);
    var last := open[|open| - 1];
    JoinIsLine(last, piece);
    ExtendFacts(open, piece);
    var r := Extend(open, piece);
    assert forall k :: 0 <= k < |r| - 1 ==> r[k] == open[..|open| - 1][k];
  }

  /** The first step of `print` on a text that goes on past a line break
      keeps the buffer well formed. */
  lemma WellFormedContinue(lines: seq<string>, text: string)
    requires WellFormed(lines) && !OneLine(text)
    ensures WellFormed(Continue(lines, text))
  {
    HeadIsLine(text);
    ExtendReopenWellFormed(lines, text[..Find(text, '\n').value + 1]);
  }

  /** Reopening and then extending leaves a closed last line exactly when
      the piece added is closed. */
  lemma ExtendReopenLastClosed(lines: seq<string>, piece: string)
    ensures LastClosed(Extend(Reopen(lines), piece)) <==> Closed(piece)
  {
    var open := Reopen(lines);
    var last := open[|open| - 1];
    ExtendFacts(open, piece);
    if |piece| > 0 {
      assert (last + piece)[|last + piece| - 1] == piece[|piece| - 1];
    } else {
      assert last + piece == last;
    }
  }

  /** The facts `Print` promises about `after`, the buffer once `text` is
      printed onto `before`. */
  predicate Appended(before: seq<string>, text: string, after: seq<string>)
  {
    && |after| > 0
    && Concat(after) == Concat(before) + text
    && KeepsEarlier(before, after)
    && (LastClosed(after) <==> Closed(text))
    && (WellFormed(before) ==> WellFormed(after))
  }

  /** A text that fits on the current line, added to the (re)opened last
      line, is appended as `Print` promises. */
  lemma ExtendReopenAppends(lines: seq<string>, text: string)
    requires OneLine(text)
    ensures Appended(lines, text, Extend(Reopen(lines), text))
  {
    ExtendReopenConcat(lines, text);
    ExtendReopenKeeps(lines, text);
    ExtendReopenLastClosed(lines, text);
    OneLineIsLine(text);
    if WellFormed(lines) {
      ExtendReopenWellFormed(lines, text);
    }
  }

  /** The recursive case of `Print`: when printing the rest after the first
      break appends as promised, so does printing the whole text. */
  lemma PrintStep(lines: seq<string>, text: string, r: seq<string>)
    requires !OneLine(text)
    requires Appended(Continue(lines, text), Rest(text), r)
    ensures Appended(lines, text, r)
  {
    var i := Find(text, '\n').value;
    var head := text[..i + 1];
    var mid := Continue(lines, text);
    ExtendReopenConcat(lines, head);
    ConcatChain(r, mid, lines, head, Rest(text));
    SplitJoin(text, i + 1);
    ExtendReopenKeeps(lines, head);
    KeepsEarlierTransitive(lines, mid, r);
    ClosedSuffix(text, i + 1);
    if WellFormed(lines) {
      WellFormedContinue(lines, text);
    }
  }

  /** Printing one break-terminated line onto a buffer that is empty or
      whose last line is closed adds that line as a new entry; any text
      after the break is printed onto the result. */
  lemma {:induction false} PrintFreshLine(lines: seq<string>, line: string, rest: string)
    requires |lines| == 0 || LastClosed(lines)
    requires '\n' !in line
    ensures |rest| == 0 ==> Print(lines, line + "\n" + rest) == lines + [line + "\n"]
    ensures |rest| > 0 ==> Print(lines, line + "\n" + rest) == Print(lines + [line + "\n"], rest)
  {
    var text := line + "\n" + rest;
    FindAfterPrefix(line, '\n', rest);
    var open := Reopen(lines);
    assert open == lines + [""];
    var head := text[..|line| + 1];
    assert head == line + "\n";
    var closed := Extend(open, head);
    ExtendFacts(open, head);
    assert closed[..|lines|] == lines;
    assert closed[|lines|] == "" + head == head;
    assert closed == closed[..|lines|] + [closed[|lines|]];
    if |rest| == 0 {
      assert text == head;
      PrintOneLine(lines, text);
    } else {
      assert text[|line| + 1..] == rest;
      PrintMoreLines(lines, text);
    }
  }

  /** One break-terminated line printed onto a buffer that is empty or
      whose last line is closed becomes one new entry. */
  lemma PrintLastLine(lines: seq<string>, c: string)
    requires |lines| == 0 || LastClosed(lines)
    requires '\n' !in c
    ensures Print(lines, c + "\n") == lines + [c + "\n"]
  {
    PrintFreshLine(lines, c, "");
    NoTail(c + "\n");
  }

  /** Appending nothing, stated on its own (see Text.Regroup). */
  lemma NoTail(s: string)
    ensures s + "" == s
  {
  }

  /** Two break-terminated lines printed onto a buffer that is empty or
      whose last line is closed become two new entries. */
  lemma PrintTwoLines(lines: seq<string>, b: string, c: string)
    requires |lines| == 0 || LastClosed(lines)
    requires '\n' !in b && '\n' !in c
    ensures Print(lines, b + "\n" + c + "\n") == lines + [b + "\n", c + "\n"]
  {
    PrintFreshLine(lines, b, c + "\n");
    Regroup(b + "\n", c, "\n");
    var mid := lines + [b + "\n"];
    assert LastClosed(mid);
    PrintLastLine(mid, c);
    AppendTwo(lines, b + "\n", c + "\n");
  }

  /** Two entries appended one at a time, or together. */
  lemma AppendTwo(lines: seq<string>, x: string, y: string)
    ensures lines + [x] + [y] == lines + [x, y]
  {
  }

  /** Three lines printed into an empty buffer, each closed by a line
      break and holding no other, become three entries. */
  lemma PrintThreeLines(a: string, b: string, c: string)
    requires '\n' !in a && '\n' !in b && '\n' !in c
    ensures Print([], a + "\n" + b + "\n" + c + "\n") == [a + "\n", b + "\n", c + "\n"]
  {
    ThreeRegroup(a + "\n", b, c);
    PrintFreshLine([], a, b + "\n" + c + "\n");
    PrintTwoLines([] + [a + "\n"], b, c);
    OneThenTwo(a + "\n", b + "\n", c + "\n");
  }

  /** The three-line text regrouped as its first line and the rest. */
  lemma ThreeRegroup(x: string, b: string, c: string)
    ensures x + b + "\n" + c + "\n" == x + (b + "\n" + c + "\n")
  {
  }

  /** One entry followed by two, as three. */
  lemma OneThenTwo(x: string, y: string, z: string)
    ensures [] + [x] + [y, z] == [x, y, z]
  {
  }

  /** Printing "a\nb\n" into an empty buffer gives two closed lines and no
      trailing empty line. */
  lemma TwoLinesExample()
    ensures Print([], "a\nb\n") == ["a\n", "b\n"]
  {
    PrintTwoLines([], "a", "b");
    TwoLinesText();
  }

  /** The pieces of TwoLinesExample, spelled out. */
  lemma TwoLinesText()
    ensures "a" + "\n" + "b" + "\n" == "a\nb\n"
    ensures [] + ["a" + "\n", "b" + "\n"] == ["a\n", "b\n"]
  {
    assert "a" + "\n" == "a\n" && "b" + "\n" == "b\n";
  }
}
