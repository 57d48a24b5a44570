/**
  The console's input line: a bounded character buffer, a cursor into it and
  a one-slot kill-ring. Each edit action of `console_t::process` that does
  not involve a handler is a pure transition on this state.
 */
module LineEditor {
  import opened Text

  /** Capacity of the input line and of the kill-ring (MAX_LINE_LENGTH); the
      C arrays hold one more byte for the terminator. */
  const MaxLineLength: nat := 511

  datatype Editor = Editor(input: string, cursor: nat, killring: string)
  {
    /** The invariant every action re-establishes:
        0 <= cursor <= |input| <= MaxLineLength, and the line and the
        kill-ring are C strings, so neither holds a NUL. */
    predicate Valid()
    {
      && cursor <= |input| <= MaxLineLength && |killring| <= MaxLineLength
      && Nul !in input && Nul !in killring
    }
  }

  /** The state set up by the constructor: empty input, cursor 0, empty
      kill-ring. */
  const Initial: Editor := Editor("", 0, "")

  /** "type": inserts `key` before the cursor and moves past it; a full
      line is left as it is. A NUL key is ignored: the line is a C string,
      and a NUL stored in it would end it before the cursor (see
      CBuffer.TypeNulBreaks for what the unguarded code does). */
  function Type(e: Editor, key: char): (r: Editor)
    requires e.Valid()
    ensures r.Valid() && r.killring == e.killring
    ensures key != Nul && |e.input| < MaxLineLength ==>
      && |r.input| == |e.input| + 1
      && r.cursor == e.cursor + 1
      && r.input[e.cursor] == key
      && r.input[..e.cursor] == e.input[..e.cursor]
      && r.input[r.cursor..] == e.input[e.cursor..]
    ensures key == Nul || |e.input| >= MaxLineLength ==> r == e
  {
    if key != Nul && |e.input| < MaxLineLength then
      e.(input := Insert(e.input, e.cursor, [key]), cursor := e.cursor + 1)
    else
      e
  }

  /** "left": one step towards the start; nothing happens at position 0. */
  function Left(e: Editor): (r: Editor)
    requires e.Valid()
    ensures r.Valid() && r.input == e.input && r.killring == e.killring
    ensures e.cursor > 0 ==> r.cursor + 1 == e.cursor
    ensures e.cursor == 0 ==> r == e
  {
    if e.cursor > 0 then e.(cursor := e.cursor - 1) else e
  }

  /** "right": one step towards the end; nothing happens at the end. */
  function Right(e: Editor): (r: Editor)
    requires e.Valid()
    ensures r.Valid() && r.input == e.input && r.killring == e.killring
    ensures e.cursor < |e.input| ==> r.cursor == e.cursor + 1
    ensures e.cursor == |e.input| ==> r == e
  {
    if e.cursor < |e.input| then e.(cursor := e.cursor + 1) else e
  }

  /** "home": the cursor goes to the start of the line. */
  function Home(e: Editor): (r: Editor)
    requires e.Valid()
    ensures r.Valid() && r.input == e.input && r.killring == e.killring
    ensures r.cursor == 0
  {
    e.(cursor := 0)
  }

  /** "end": the cursor goes past the last character. */
  function End(e: Editor): (r: Editor)
    requires e.Valid()
    ensures r.Valid() && r.input == e.input && r.killring == e.killring
    ensures r.cursor == |r.input|
  {
    e.(cursor := |e.input|)
  }

  /** "delete": removes the character under the cursor. At the end of the
      line the C code moves zero bytes, so nothing changes. */
  function Delete(e: Editor): (r: Editor)
    requires e.Valid()
    ensures r.Valid() && r.cursor == e.cursor && r.killring == e.killring
    ensures e.cursor < |e.input| ==>
      && |r.input| + 1 == |e.input|
      && r.input[..e.cursor] == e.input[..e.cursor]
      && r.input[e.cursor..] == e.input[e.cursor + 1..]
    ensures e.cursor == |e.input| ==> r == e
  {
    if e.cursor < |e.input| then e.(input := RemoveAt(e.input, e.cursor)) else e
  }

  /** "backspace": removes the character before the cursor and steps back
      over it; nothing happens at position 0. */
  function Backspace(e: Editor): (r: Editor)
    requires e.Valid()
    ensures r.Valid() && r.killring == e.killring
    ensures e.cursor > 0 ==>
      && |r.input| + 1 == |e.input|
      && r.cursor + 1 == e.cursor
      && r.input[..r.cursor] == e.input[..r.cursor]
      && r.input[r.cursor..] == e.input[e.cursor..]
    ensures e.cursor == 0 ==> r == e
  {
    if e.cursor > 0 then
      e.(input := RemoveAt(e.input, e.cursor - 1), cursor := e.cursor - 1)
    else
      e
  }

  /** "kill": when there is text after the cursor, the WHOLE line (not only
      the part after the cursor) is copied to the kill-ring and the line is
      cut at the cursor. */
  function Kill(e: Editor): (r: Editor)
    requires e.Valid()
    ensures r.Valid() && r.cursor == e.cursor
    ensures e.cursor < |e.input| ==>
      r.killring == e.input && r.input == e.input[..e.cursor] && r.cursor == |r.input|
    ensures e.cursor == |e.input| ==> r == e
  {
    if e.cursor < |e.input| then
      Editor(e.input[..e.cursor], e.cursor, e.input)
    else
      e
  }

  /** "yank": inserts the kill-ring at the cursor and moves past it, but only
      when the result stays strictly shorter than MaxLineLength; otherwise
      nothing changes. The kill-ring itself is never consumed.

      The C code moves only the `len - cursor` characters after the cursor,
      not the terminator, so when the kill-ring is non-empty the line can
      end on stale bytes left in the buffer. This function models the
      evident intent, the plain insertion; CBuffer.YankAsWritten models the
      byte-level behaviour. */
  function Yank(e: Editor): (r: Editor)
    requires e.Valid()
    ensures r.Valid() && r.killring == e.killring
    ensures |e.input| + |e.killring| < MaxLineLength ==>
      && |r.input| == |e.input| + |e.killring|
      && r.cursor == e.cursor + |e.killring|
      && r.input[..e.cursor] == e.input[..e.cursor]
      && r.input[e.cursor..r.cursor] == e.killring
      && r.input[r.cursor..] == e.input[e.cursor..]
    ensures |e.input| + |e.killring| >= MaxLineLength ==> r == e
  {
    if |e.input| + |e.killring| < MaxLineLength then
      e.(input := Insert(e.input, e.cursor, e.killring), cursor := e.cursor + |e.killring|)
    else
      e
  }

  /** Typing a character and erasing it with backspace restores the state. */
  lemma TypeThenBackspace(e: Editor, key: char)
    requires e.Valid() && |e.input| < MaxLineLength && key != Nul
    ensures Backspace(Type(e, key)) == e
  {
    RemoveInserted(e.input, e.cursor, key);
  }

  /** Typing a character, stepping back over it and deleting it restores the
      state. */
  lemma TypeLeftDelete(e: Editor, key: char)
    requires e.Valid() && |e.input| < MaxLineLength && key != Nul
    ensures Delete(Left(Type(e, key))) == e
  {
    RemoveInserted(e.input, e.cursor, key);
  }

  /** `home` and `end` are idempotent, and each only moves the cursor. */
  lemma HomeEndIdempotent(e: Editor)
    requires e.Valid()
    ensures Home(Home(e)) == Home(e) && End(End(e)) == End(e)
    ensures Home(e) == e.(cursor := 0) && End(e) == e.(cursor := |e.input|)
  {
  }

  /** `left` applied `n` times. */
  function LeftN(e: Editor, n: nat): (r: Editor)
    requires e.Valid()
    ensures r.Valid()
    decreases n
  {
    if n == 0 then e else LeftN(Left(e), n - 1)
  }

  /** Pressing `left` as many times as the cursor position reaches `home`. */
  lemma {:induction false} LeftNReachesHome(e: Editor)
    requires e.Valid()
    ensures LeftN(e, e.cursor) == Home(e)
    decreases e.cursor
  {
    if e.cursor > 0 {
      LeftNReachesHome(Left(e));
    }
  }

  /** `left` applied more often than the cursor position stays at 0. */
  lemma {:induction false} LeftNSaturates(e: Editor, n: nat)
    requires e.Valid() && e.cursor <= n
    ensures LeftN(e, n) == Home(e)
    decreases n
  {
    if n > 0 {
      LeftNSaturates(Left(e), n - 1);
    }
  }

  /** `right` applied `n` times. */
  function RightN(e: Editor, n: nat): (r: Editor)
    requires e.Valid()
    ensures r.Valid()
    decreases n
  {
    if n == 0 then e else RightN(Right(e), n - 1)
  }

  /** Pressing `right` until the end of the line reaches `end`. */
  lemma {:induction false} RightNReachesEnd(e: Editor)
    requires e.Valid()
    ensures RightN(e, |e.input| - e.cursor) == End(e)
    decreases |e.input| - e.cursor
  {
    if e.cursor < |e.input| {
      RightNReachesEnd(Right(e));
    }
  }

  /** `backspace` applied `n` times. */
  function BackspaceN(e: Editor, n: nat): (r: Editor)
    requires e.Valid()
    ensures r.Valid()
    decreases n
  {
    if n == 0 then e else BackspaceN(Backspace(e), n - 1)
  }

  /** `n` backspaces, with `n` at most the cursor position, erase exactly
      the `n` characters before the cursor. */
  lemma {:induction false} BackspaceNErases(e: Editor, n: nat)
    requires e.Valid() && n <= e.cursor
    ensures BackspaceN(e, n) ==
      e.(input := e.input[..e.cursor - n] + e.input[e.cursor..], cursor := e.cursor - n)
    decreases n
  {
    if n > 0 {
      BackspaceNErases(Backspace(e), n - 1);
      BackspaceNStep(e, n);
    } else {
      SplitJoin(e.input, e.cursor);
    }
  }

  /** The inductive step of BackspaceNErases: if the remaining `n - 1`
      backspaces erase what they should after the first one, all `n` do. */
  lemma BackspaceNStep(e: Editor, n: nat)
    requires e.Valid() && 0 < n <= e.cursor
    requires var b := Backspace(e);
      BackspaceN(b, n - 1) ==
      b.(input := b.input[..b.cursor - (n - 1)] + b.input[b.cursor..], cursor := b.cursor - (n - 1))
    ensures BackspaceN(e, n) ==
      e.(input := e.input[..e.cursor - n] + e.input[e.cursor..], cursor := e.cursor - n)
  {
    var b := Backspace(e);
    BackspaceKeeps(e, e.cursor - n);
    assert b.cursor - (n - 1) == e.cursor - n;
    assert b.input[..b.cursor - (n - 1)] + b.input[b.cursor..]
        == e.input[..e.cursor - n] + e.input[e.cursor..];
  }

  /** One backspace keeps any prefix that ends before the erased character
      and everything from the cursor on. */
  lemma BackspaceKeeps(e: Editor, k: nat)
    requires e.Valid() && k < e.cursor
    ensures Backspace(e).input[..k] == e.input[..k]
    ensures Backspace(e).input[Backspace(e).cursor..] == e.input[e.cursor..]
  {
  }

  /** A yank that fits is undone by as many backspaces as the kill-ring is
      long. */
  lemma YankThenBackspaces(e: Editor)
    requires e.Valid() && |e.input| + |e.killring| < MaxLineLength
    ensures BackspaceN(Yank(e), |e.killring|) == e
  {
    var y := Yank(e);
    BackspaceNErases(y, |e.killring|);
    assert y.input[..y.cursor - |e.killring|] == e.input[..e.cursor];
    assert e.input[..e.cursor] + e.input[e.cursor..] == e.input;
  }

  /** Because `kill` saves the whole line, yanking right after a kill puts
      the whole old line back after the kept prefix: it does not restore
      the line that was killed. */
  lemma KillThenYank(e: Editor)
    requires e.Valid() && e.cursor < |e.input| && e.cursor + |e.input| < MaxLineLength
    ensures Yank(Kill(e)) ==
      Editor(e.input[..e.cursor] + e.input, e.cursor + |e.input|, e.input)
  {
    var k := Kill(e);
    assert Yank(k).input == k.input + e.input by {
      assert k.input[k.cursor..] == [];
      assert k.input[..k.cursor] == k.input;
    }
  }

  /** The sequence worked through by hand: "hello world" with the cursor at
      5, then kill, then yank. */
  lemma KillYankExample()
    ensures var e := Editor("hello world", 5, "");
      Kill(e) == Editor("hello", 5, "hello world") &&
      Yank(Kill(e)) == Editor("hellohello world", 16, "hello world")
  {
    HelloWorld();
    KillThenYank(Editor("hello world", 5, ""));
  }

  /** The character-level facts KillYankExample rests on. */
  lemma HelloWorld()
    ensures Editor("hello world", 5, "").Valid()
    ensures "hello world"[..5] == "hello"
    ensures "hello world"[..5] + "hello world" == "hellohello world"
  {
  }

  /** A second `kill` finds the cursor at the end of the line and does
      nothing. */
  lemma KillIdempotent(e: Editor)
    requires e.Valid()
    ensures Kill(Kill(e)) == Kill(e)
  {
  }
}
