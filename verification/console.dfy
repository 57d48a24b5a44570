/**
  The console as a whole: scrollback lines, prompt, input line and signal
  table, driven by `console_t::process`, which dispatches on an action name.
  A handler call is recorded in `trace` with the signal, the handler and the
  input it was given; what the handler itself does is not modelled.
 */
module Console {
  import opened Text
  import opened Scrollback
  import E = LineEditor
  import Signals

  datatype Invocation = Invocation(signal: Signals.Signal, handler: Signals.HandlerId, input: string)

  datatype Console = Console(
    lines: seq<string>,
    prompt: string,
    editor: E.Editor,
    handlers: Signals.Table,
    trace: seq<Invocation>)
  {
    /** The editing invariant, a prompt that is a C string, and the shape
        of the scrollback. */
    predicate Valid()
    {
      editor.Valid() && Nul !in prompt && WellFormed(lines)
    }
  }

  /** The actions `process` recognises. */
  datatype Action =
    | Type | Enter | Right | Left | Delete | Backspace | Kill | Yank
    | Home | End | Clear | HistoryPrev | HistoryNext | Complete

  function ActionName(a: Action): string
  {
    match a
    case Type => "type"
    case Enter => "enter"
    case Right => "right"
    case Left => "left"
    case Delete => "delete"
    case Backspace => "backspace"
    case Kill => "kill"
    case Yank => "yank"
    case Home => "home"
    case End => "end"
    case Clear => "clear"
    case HistoryPrev => "history-prev"
    case HistoryNext => "history-next"
    case Complete => "complete"
  }

  /** The action a name selects, in the order `process` tests the names;
      any other name (such as "escape") selects nothing. */
  function ParseAction(name: string): (r: Option<Action>)
    ensures r.Some? ==> ActionName(r.value) == name
  {
    if name == "type" then Some(Type)
    else if name == "enter" then Some(Enter)
    else if name == "right" then Some(Right)
    else if name == "left" then Some(Left)
    else if name == "delete" then Some(Delete)
    else if name == "backspace" then Some(Backspace)
    else if name == "kill" then Some(Kill)
    else if name == "yank" then Some(Yank)
    else if name == "home" then Some(Home)
    else if name == "end" then Some(End)
    else if name == "clear" then Some(Clear)
    else if name == "history-prev" then Some(HistoryPrev)
    else if name == "history-next" then Some(HistoryNext)
    else if name == "complete" then Some(Complete)
    else None
  }

  /** Names and actions correspond one to one. */
  lemma ParseActionName(a: Action, name: string)
    ensures ParseAction(ActionName(a)) == Some(a)
    ensures ParseAction(name) == Some(a) <==> name == ActionName(a)
  {
  }

  /** The calls a signal makes: one call of its handler with the current
      input when a handler is connected, none otherwise. */
  function Emit(c: Console, s: Signals.Signal): seq<Invocation>
  {
    match Signals.Lookup(c.handlers, s)
    case None => []
    case Some(h) => [Invocation(s, h, c.editor.input)]
  }

  /** "enter": the activate handler, if one is connected, is called once
      with the line as it was; then the prompt, the line and a newline go to
      the scrollback, whose text grows by exactly those and whose earlier
      lines stay, leaving the last line closed; the line is emptied with
      the cursor at 0 and the kill-ring kept. */
  function Submit(c: Console): (r: Console)
    requires c.Valid()
    ensures r.Valid()
    ensures r.prompt == c.prompt && r.handlers == c.handlers
    ensures r.editor == E.Editor("", 0, c.editor.killring)
    ensures Concat(r.lines) == Concat(c.lines) + c.prompt + c.editor.input + "\n"
    ensures KeepsEarlier(c.lines, r.lines) && LastClosed(r.lines)
    ensures Signals.Lookup(c.handlers, Signals.Activate).None? ==> r.trace == c.trace
    ensures Signals.Lookup(c.handlers, Signals.Activate).Some? ==>
      r.trace == c.trace + [Invocation(Signals.Activate,
                                       Signals.Lookup(c.handlers, Signals.Activate).value,
                                       c.editor.input)]
  {
    var p := Print(c.lines, c.prompt);
    var q := Print(p, c.editor.input);
    KeepsEarlierTransitive(c.lines, p, q);
    KeepsEarlierTransitive(c.lines, q, Print(q, "\n"));
    assert Closed("\n");
    c.(lines := Print(q, "\n"),
       editor := c.editor.(input := "", cursor := 0),
       trace := c.trace + Emit(c, Signals.Activate))
  }

  /** One step of `process` for a recognised action: it keeps the console
      valid, only "enter" touches the scrollback, only "enter" and the
      signal actions call handlers, and the prompt and the signal table
      never change. */
  function Step(c: Console, a: Action, key: char): (r: Console)
    requires c.Valid()
    ensures r.Valid()
    ensures r.prompt == c.prompt && r.handlers == c.handlers
    ensures a != Enter ==> r.lines == c.lines
    ensures a !in {Enter, HistoryPrev, HistoryNext, Complete} ==> r.trace == c.trace
  {
    match a
    case Type => c.(editor := E.Type(c.editor, key))
    case Enter => Submit(c)
    case Right => c.(editor := E.Right(c.editor))
    case Left => c.(editor := E.Left(c.editor))
    case Delete => c.(editor := E.Delete(c.editor))
    case Backspace => c.(editor := E.Backspace(c.editor))
    case Kill => c.(editor := E.Kill(c.editor))
    case Yank => c.(editor := E.Yank(c.editor))
    case Home => c.(editor := E.Home(c.editor))
    case End => c.(editor := E.End(c.editor))
    case Clear => c
    case HistoryPrev => c.(trace := c.trace + Emit(c, Signals.HistoryPrev))
    case HistoryNext => c.(trace := c.trace + Emit(c, Signals.HistoryNext))
    case Complete => c.(trace := c.trace + Emit(c, Signals.Complete))
  }

  /** `process(action, key)`: every action keeps the console valid, only
      "enter" touches the scrollback, only the signal actions and "enter"
      call handlers, the prompt and the signal table never change, and
      an unrecognised action changes nothing. */
  function Process(c: Console, action: string, key: char): (r: Console)
    requires c.Valid()
    ensures r.Valid()
    ensures r.prompt == c.prompt && r.handlers == c.handlers
    ensures ParseAction(action).None? ==> r == c
    ensures ParseAction(action) != Some(Enter) ==> r.lines == c.lines
    ensures ParseAction(action) !in {Some(Enter), Some(HistoryPrev), Some(HistoryNext), Some(Complete)} ==>
      r.trace == c.trace
  {
    match ParseAction(action)
    case None => c
    case Some(a) => Step(c, a, key)
  }

  /** The action named `ActionName(a)` performs the step for `a`. */
  lemma ProcessDispatch(c: Console, a: Action, key: char)
    requires c.Valid()
    ensures Process(c, ActionName(a), key) == Step(c, a, key)
  {
    ParseActionName(a, ActionName(a));
  }

  /** "escape", which the keyboard callback sends, and "clear", whose branch
      is empty, leave the console exactly as it was. */
  lemma EscapeAndClearChangeNothing(c: Console, key: char)
    requires c.Valid()
    ensures Process(c, "escape", key) == c
    ensures Process(c, "clear", key) == c
  {
    ProcessDispatch(c, Clear, key);
  }

  /** A signal action calls the connected handler once with the current
      input and changes nothing else; with no handler it changes nothing. */
  lemma ProcessSignal(c: Console, a: Action, s: Signals.Signal, key: char)
    requires c.Valid()
    requires (a == HistoryPrev && s == Signals.HistoryPrev)
          || (a == HistoryNext && s == Signals.HistoryNext)
          || (a == Complete && s == Signals.Complete)
    ensures Signals.Lookup(c.handlers, s).None? ==> Process(c, ActionName(a), key) == c
    ensures Signals.Lookup(c.handlers, s).Some? ==>
      Process(c, ActionName(a), key) ==
      c.(trace := c.trace + [Invocation(s, Signals.Lookup(c.handlers, s).value, c.editor.input)])
  {
    ProcessDispatch(c, a, key);
  }

  /** "enter" calls the activate handler, if one is connected, with the
      line as it was before the call, then leaves an empty line with the
      cursor at 0 and the kill-ring kept. */
  lemma EnterActivates(c: Console, key: char)
    requires c.Valid()
    ensures var r := Process(c, "enter", key);
      && r.editor == E.Editor("", 0, c.editor.killring)
      && (Signals.Lookup(c.handlers, Signals.Activate).None? ==> r.trace == c.trace)
      && (Signals.Lookup(c.handlers, Signals.Activate).Some? ==>
            r.trace == c.trace + [Invocation(Signals.Activate,
                                             Signals.Lookup(c.handlers, Signals.Activate).value,
                                             c.editor.input)])
  {
    ProcessDispatch(c, Enter, key);
  }

  /** What "enter" writes to the scrollback: the text grows by exactly
      prompt, input and a newline, the earlier lines stay, and the last
      line is closed again. */
  lemma EnterScrollback(c: Console, key: char)
    requires c.Valid()
    ensures var r := Process(c, "enter", key);
      && Concat(r.lines) == Concat(c.lines) + c.prompt + c.editor.input + "\n"
      && KeepsEarlier(c.lines, r.lines)
      && LastClosed(r.lines)
  {
    ProcessDispatch(c, Enter, key);
  }

  /** The prompt and the line submitted by "enter" land on a line of their
      own when the scrollback was empty or its last line closed, and neither
      holds a newline. */
  lemma EnterAppendsLine(c: Console, key: char)
    requires c.Valid()
    requires |c.lines| == 0 || LastClosed(c.lines)
    requires '\n' !in c.prompt && '\n' !in c.editor.input
    ensures Process(c, "enter", key).lines == c.lines + [c.prompt + c.editor.input + "\n"]
  {
    ProcessDispatch(c, Enter, key);
    PromptLine(c.lines, c.prompt, c.editor.input);
  }

  /** Printing a prompt, an input and a newline, none of the first two
      holding a line break, after a closed line adds one line. */
  lemma PromptLine(lines: seq<string>, prompt: string, input: string)
    requires |lines| == 0 || LastClosed(lines)
    requires '\n' !in prompt && '\n' !in input
    ensures Print(Print(Print(lines, prompt), input), "\n") == lines + [prompt + input + "\n"]
  {
    var line := prompt + input;
    var p := Print(lines, prompt);
    PrintNoBreak(lines, prompt);
    PrintOwnLine(lines, prompt);
    assert p[..|p| - 1] == lines && p[|p| - 1] == prompt;
    PrintNoBreak(p, input);
    PrintOpenLine(p, input);
    var q := Print(p, input);
    assert q == lines + [line];
    assert '\n' !in line;
    assert "\n"[0] == '\n';
    assert OneLine("\n");
    PrintOpenLine(q, "\n");
    assert q[..|q| - 1] == lines;
  }

  /** The console built by the constructor, before `init` prints anything. */
  const Fresh: Console := Console([], ">>> ", E.Initial, Signals.Empty, [])

  /** The constructor's console is valid and empty: no scrollback, the
      prompt ">>> ", an empty input and kill-ring with the cursor at 0, no
      handler connected to any signal and nothing invoked yet. */
  lemma FreshConsole(s: Signals.Signal)
    ensures Fresh.Valid()
    ensures Fresh.lines == [] && Fresh.prompt == ">>> " && Fresh.trace == []
    ensures Fresh.editor.input == "" && Fresh.editor.cursor == 0 && Fresh.editor.killring == ""
    ensures Signals.Lookup(Fresh.handlers, s).None?
  {
    assert Signals.Index(s) < 4;
  }

  /** The two text lines of the banner `init` prints, spelled in short
      pieces so that their characters can be inspected one piece at a
      time. */
  const BannerTitle: string := "OpenGL " + "Freetype " + "console"
  const BannerCopyright: string :=
    "Copyright 2011 " + "Nicolas P. " + "Rougier. " + "All rights " + "reserved."

  /** The banner: the two lines above and a line holding one space, each
      closed by a line break. */
  const Banner: string := BannerTitle + "\n" + BannerCopyright + "\n" + " " + "\n"

  lemma BannerNoBreaks()
    ensures '\n' !in BannerTitle && '\n' !in BannerCopyright && '\n' !in " "
  {
    assert '\n' !in "OpenGL " && '\n' !in "Freetype " && '\n' !in "console";
    assert '\n' !in "Copyright 2011 " && '\n' !in "Nicolas P. " && '\n' !in "Rougier. ";
    assert '\n' !in "All rights " && '\n' !in "reserved.";
  }

  /** The banner fills exactly three closed lines, the last being " \n". */
  lemma BannerLines()
    ensures Print([], Banner) == [BannerTitle + "\n", BannerCopyright + "\n", " \n"]
  {
    BannerNoBreaks();
    PrintThreeLines(BannerTitle, BannerCopyright, " ");
    assert " " + "\n" == " \n";
  }

  /** `init`: prints the banner and connects the four handlers, so the
      console starts out valid with each signal bound to its handler. */
  function Init(activate: Signals.HandlerId, complete: Signals.HandlerId,
                prev: Signals.HandlerId, next: Signals.HandlerId): (r: Console)
    ensures r.Valid()
    ensures r.prompt == ">>> " && r.editor == E.Initial && r.trace == []
    ensures Signals.Lookup(r.handlers, Signals.Activate) == Some(activate)
    ensures Signals.Lookup(r.handlers, Signals.Complete) == Some(complete)
    ensures Signals.Lookup(r.handlers, Signals.HistoryPrev) == Some(prev)
    ensures Signals.Lookup(r.handlers, Signals.HistoryNext) == Some(next)
  {
    var t := Signals.Connect(Signals.Empty, "activate", Some(activate));
    var t := Signals.Connect(t, "complete", Some(complete));
    var t := Signals.Connect(t, "history-prev", Some(prev));
    var t := Signals.Connect(t, "history-next", Some(next));
    Fresh.(lines := Print(Fresh.lines, Banner), handlers := t)
  }

  /** After `init` the scrollback holds the three banner lines. */
  lemma InitBanner(activate: Signals.HandlerId, complete: Signals.HandlerId,
                   prev: Signals.HandlerId, next: Signals.HandlerId)
    ensures Init(activate, complete, prev, next).lines ==
      [BannerTitle + "\n", BannerCopyright + "\n", " \n"]
  {
    BannerLines();
  }
}
