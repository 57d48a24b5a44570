# console-next: the console's line editor, scrollback and signals in Dafny

This project models the text console of `demos/console-next.cpp`:

- the input line that `console_t::process` edits with named actions ("type", "enter", "left", "right", "delete", "backspace", "kill", "yank", "home", "end", "clear", "history-prev", "history-next", "complete");
- the scrollback that `console_t::print` appends to;
- the four-slot signal table that `console_t::connect` fills;
- what `init` puts in place: the banner and the four handlers.

Modules, one per concern:

- `Text`: C-string helpers. `Find` plays `strchr`. `Insert` and `RemoveAt` are the effect of the `memmove` pairs. `Concat` joins the scrollback lines.
- `Scrollback`: `Print` as a function on a sequence of lines. Its lemmas show that nothing is lost or reordered, that earlier lines are kept, that every entry is one line, and which entry ends up closed.
- `LineEditor`: the intended effect of each editing action, on an `Editor(input, cursor, killring)`. The invariant is `cursor <= |input| <= 511`.
- `Signals`: the handler slots, the name lookup of `connect`, and its laws.
- `Console`: the whole object. `Process` dispatches on the action name. Handler calls are recorded in a `trace` of `(signal, handler, input)` triples.
- `CBuffer`: the same actions on the raw 512-character array the code edits with `memmove`/`memcpy`, read up to the first NUL. It shows that the code agrees with `LineEditor` on type (for any key but NUL), kill and left. It also pins down two places where the code goes wrong (see Findings).

Handlers are opaque identities (`HandlerId`); an empty slot is the null pointer. `size_t` arithmetic is written out modulo 2^64 where it matters (`CBuffer.DeleteCount`).

Two behaviours of the code that a reader might not expect are kept as written:

- "kill" saves the whole line, not just the part after the cursor, in the kill-ring. So kill followed by yank does not restore the line: "hello world" with the cursor at 5 becomes "hellohello world" (`LineEditor.KillThenYank`, `LineEditor.KillYankExample`).
- `print` leaves no trailing empty entry: `print("a\nb\n")` on an empty scrollback leaves the two closed entries "a\n" and "b\n". A fresh empty line is opened only by the next `print` (`Scrollback.TwoLinesExample`).

One behaviour is deliberately not kept. The code's "type" stores any key, NUL included, and a NUL breaks the line (Findings, row 1). `LineEditor.Type` ignores a NUL key instead. `CBuffer` models the code as written and shows the break.

The line, the kill-ring and the prompt are C strings, so the model's invariants (`LineEditor.Editor.Valid`, `Console.Console.Valid`) require them to be NUL-free.

## Model

| member | source | states |
|---|---|---|
| Signals.Index | demos/console-next.cpp:54-57 | every signal has one of the four slot numbers 0..3 |
| Signals.SignalAt | demos/console-next.cpp:54-57 | each slot number 0..3 belongs to a signal whose index it is |
| Signals.IndexBijective | demos/console-next.cpp:54-57 | distinct signals own distinct slots, and SignalAt inverts Index |
| Signals.Parse | demos/console-next.cpp:342-361 | a name selects a signal only if it is that signal's name |
| Signals.ParseName | demos/console-next.cpp:342-361 | names and signals correspond one to one: parsing a signal's name gives it back, and a name selects a signal exactly when it is its name |
| Signals.Connect | demos/console-next.cpp:342-361 | the named slot now holds the handler, every other slot is unchanged, and an unknown name leaves the table as it was |
| Signals.ConnectLookup | demos/console-next.cpp:342-361 | after connect, the named signal answers with the new handler and every other signal with its old one |
| Signals.ConnectLastWins | demos/console-next.cpp:342-361 | connecting the same name twice keeps only the second handler |
| Signals.ConnectCommutes | demos/console-next.cpp:342-361 | connections under different names can be made in either order |
| Text.FindSpec | demos/console-next.cpp:384 | the strchr model: None exactly when the character is absent, otherwise the index of its first occurrence |
| Text.FindAfterPrefix | demos/console-next.cpp:384 | the first occurrence of a character after a prefix free of it is at the prefix's length |
| Scrollback.Reopen | demos/console-next.cpp:365-381 | the buffer is non-empty and its last line is open; the old lines are kept as a prefix; a line is added only when the buffer was empty or its last line closed, and the added line is empty; an open last line leaves the buffer as it was |
| Scrollback.Print | demos/console-next.cpp:363-408 | the joined text after print is the joined text before followed by the printed text; every earlier line is unchanged; the last entry is closed exactly when the text ends in a break; well-formed scrollback stays well formed |
| Scrollback.PrintNoBreak | demos/console-next.cpp:400-407 | a text without a break fits on one line and extends the current line |
| Scrollback.PrintOpenLine | demos/console-next.cpp:381-407 | a one-line text printed while the last line is open is appended to that line |
| Scrollback.PrintOwnLine | demos/console-next.cpp:365-407 | a one-line text printed into an empty buffer or after a closed line becomes a new entry |
| Scrollback.PrintFreshLine | demos/console-next.cpp:363-408 | a break-terminated line printed after a closed line becomes its own entry, and the rest is printed after it |
| Scrollback.PrintLastLine | demos/console-next.cpp:363-408 | one break-terminated line printed into an empty buffer or after a closed line becomes exactly one new entry |
| Scrollback.PrintTwoLines | demos/console-next.cpp:363-408 | two break-terminated lines printed into an empty buffer or after a closed line become exactly two new entries |
| Scrollback.PrintThreeLines | demos/console-next.cpp:363-408 | three break-terminated lines printed into an empty buffer become exactly three entries |
| Scrollback.TwoLinesExample | demos/console-next.cpp:363-408 | "a\nb\n" printed into an empty buffer gives the entries "a\n" and "b\n", with no trailing empty entry |
| LineEditor.Type | demos/console-next.cpp:416-425 | a non-NUL key on a line with room is inserted at the cursor, which moves past it; a full line or a NUL key changes nothing |
| LineEditor.Right | demos/console-next.cpp:437-443 | the cursor moves one step right unless at the end; the line and kill-ring are untouched |
| LineEditor.Left | demos/console-next.cpp:444-450 | the cursor moves one step left unless at 0; the line and kill-ring are untouched |
| LineEditor.Delete | demos/console-next.cpp:451-456 | the character under the cursor is removed and the rest closes up; at the end of the line nothing changes |
| LineEditor.Backspace | demos/console-next.cpp:457-466 | the character before the cursor is removed and the cursor steps back; at 0 nothing changes |
| LineEditor.Kill | demos/console-next.cpp:467-476 | with text after the cursor, the kill-ring receives the whole line and the line is cut at the cursor; otherwise nothing changes |
| LineEditor.Yank | demos/console-next.cpp:477-489 | when the result stays under 511 characters, the kill-ring is inserted at the cursor and the cursor moves past it; otherwise nothing changes |
| LineEditor.Home | demos/console-next.cpp:490-493 | the cursor goes to 0 and nothing else changes |
| LineEditor.End | demos/console-next.cpp:494-497 | the cursor goes past the last character and nothing else changes |
| LineEditor.TypeThenBackspace | demos/console-next.cpp:416-466 | typing a non-NUL key and then backspace restores the state |
| LineEditor.TypeLeftDelete | demos/console-next.cpp:416-456 | typing a non-NUL key, then left, then delete restores the state |
| LineEditor.HomeEndIdempotent | demos/console-next.cpp:490-497 | home and end are idempotent and move only the cursor |
| LineEditor.LeftNReachesHome | demos/console-next.cpp:444-450 | pressing left as many times as the cursor position reaches home |
| LineEditor.LeftNSaturates | demos/console-next.cpp:444-450 | pressing left more often than that still ends at home |
| LineEditor.RightNReachesEnd | demos/console-next.cpp:437-443 | pressing right until the end of the line reaches end |
| LineEditor.BackspaceNErases | demos/console-next.cpp:457-466 | n backspaces, n at most the cursor, erase exactly the n characters before the cursor |
| LineEditor.YankThenBackspaces | demos/console-next.cpp:457-489 | a yank that fits is undone by as many backspaces as the kill-ring is long |
| LineEditor.KillThenYank | demos/console-next.cpp:467-489 | yank right after kill puts the whole old line back after the kept prefix, rather than restoring the line |
| LineEditor.KillYankExample | demos/console-next.cpp:467-489 | "hello world" at cursor 5: kill gives "hello" with kill-ring "hello world", and yank gives "hellohello world" at 16 |
| LineEditor.KillIdempotent | demos/console-next.cpp:467-476 | a second kill changes nothing |
| Console.ParseAction | demos/console-next.cpp:416-521 | an action name is recognised only as the name of the action it selects |
| Console.ParseActionName | demos/console-next.cpp:416-521 | action names and actions correspond one to one |
| Console.FreshConsole | demos/console-next.cpp:96-108 | the constructor's console is valid, with no scrollback, the prompt ">>> ", an empty line at cursor 0, an empty kill-ring, no handler on any signal and no calls |
| Console.Submit | demos/console-next.cpp:427-436 | "enter" keeps the console valid, the prompt and the table; it prints prompt, input and a newline, keeping earlier lines and closing the last one; it empties the line, keeps the kill-ring, and calls the activate handler with the old input exactly when one is connected |
| Console.Step | demos/console-next.cpp:410-523 | every recognised action keeps the console valid (NUL-free line, kill-ring and prompt, well-formed scrollback) and never changes the prompt or the table; only "enter" touches the scrollback; only "enter" and the signal actions call handlers |
| Console.Process | demos/console-next.cpp:410-523 | as Step, and an unrecognised action name changes nothing |
| Console.ProcessDispatch | demos/console-next.cpp:410-523 | the action named by an action's name performs that action's step |
| Console.EscapeAndClearChangeNothing | demos/console-next.cpp:498-500 | "clear" and "escape" (which no branch handles) leave the console exactly as it was |
| Console.ProcessSignal | demos/console-next.cpp:501-521 | history-prev, history-next and complete call the connected handler once with the input and change nothing else |
| Console.EnterActivates | demos/console-next.cpp:427-436 | "enter" calls the activate handler with the line as it was, then leaves an empty line at cursor 0 with the kill-ring kept |
| Console.EnterScrollback | demos/console-next.cpp:427-436 | "enter" grows the scrollback text by exactly prompt, input and a newline, keeps the earlier lines, and closes the last line |
| Console.EnterAppendsLine | demos/console-next.cpp:427-436 | after a closed line, "enter" with a break-free prompt and input adds exactly the entry prompt + input + "\n" |
| Console.PromptLine | demos/console-next.cpp:431-433 | printing a prompt, an input and a newline after a closed line adds one entry |
| Console.BannerNoBreaks | demos/console-next.cpp:576-577 | the two banner lines hold no line break |
| Console.BannerLines | demos/console-next.cpp:576-577 | the banner printed into an empty scrollback gives three entries, the last being " \n" |
| Console.Init | demos/console-next.cpp:574-582 | after init the console is valid, with prompt ">>> ", an empty line, no calls yet, and each signal bound to its handler |
| Console.InitBanner | demos/console-next.cpp:576-577 | after init the scrollback holds exactly the three banner lines |
| CBuffer.CStr | demos/console-next.cpp:414 | the strlen model: the string is NUL-free and, when the array holds a NUL, shorter than the array |
| CBuffer.CStrAfter | demos/console-next.cpp:414 | a NUL-free string followed by a terminator reads back as itself, whatever follows |
| CBuffer.Decompose | demos/console-next.cpp:414 | a terminated array is its C string, the terminator and the rest |
| CBuffer.CStrPrefixed | demos/console-next.cpp:414 | a NUL-free prefix is read through |
| CBuffer.TypeAsWritten | demos/console-next.cpp:416-425 | "type" on the array keeps its size and the kill-ring |
| CBuffer.TypeAsWrittenSplit | demos/console-next.cpp:417-422 | "type" puts the key at the cursor and moves the terminator one place, overwriting the next byte |
| CBuffer.TypeAsWrittenAgrees | demos/console-next.cpp:416-425 | for every key but NUL, "type" on the array shows what LineEditor.Type computes and keeps the array consistent |
| CBuffer.TypeAsWrittenText | demos/console-next.cpp:417-422 | for a non-NUL key on a line with room, the string read back is the old one with the key inserted at the cursor |
| CBuffer.TypeNulBreaks | demos/console-next.cpp:417-422 | a NUL key ends the string at the old cursor while the cursor moves one past it, so the array is no longer consistent |
| CBuffer.DeleteCount | demos/console-next.cpp:453-455 | the byte count delete passes is len - cursor in 64-bit size_t, exact when the cursor is within the string |
| CBuffer.TypeNulThenDelete | demos/console-next.cpp:416-456 | NUL typed into the empty line leaves cursor 1 on an empty string, and delete then moves 2^64 - 1 bytes |
| CBuffer.EnterAsWritten | demos/console-next.cpp:434-435 | "enter" empties the string by writing one terminator and leaves the rest of the array as it was |
| CBuffer.LeftAsWritten | demos/console-next.cpp:444-450 | "left" on the array shows what LineEditor.Left computes |
| CBuffer.KillAsWritten | demos/console-next.cpp:467-476 | "kill" on the array keeps its size |
| CBuffer.KillAsWrittenAgrees | demos/console-next.cpp:467-476 | "kill" on the array shows what LineEditor.Kill computes and keeps the array consistent |
| CBuffer.KillAsWrittenText | demos/console-next.cpp:469-472 | with the cursor inside the line, the string left is the part before the cursor |
| CBuffer.YankAsWritten | demos/console-next.cpp:477-489 | "yank" on the array keeps its size and the kill-ring |
| CBuffer.YankAsWrittenSplit | demos/console-next.cpp:479-487 | "yank" inserts the kill-ring at the cursor, overwriting the terminator and the bytes after it, and leaves whatever follows |
| CBuffer.YankAsWrittenText | demos/console-next.cpp:479-487 | after "yank" the array is the intended line followed by the bytes past the overwritten ones; when those hold a NUL, the string read back is the intended line followed by the C string they start, and when they hold none the array has no terminator left |
| CBuffer.YankReadsStale | demos/console-next.cpp:477-489 | "yank" puts the cursor where LineEditor.Yank does; the string read back is LineEditor.Yank's line followed by the stale C string past the overwritten bytes, or the array is left unterminated when no NUL follows; with an empty kill-ring it agrees exactly |
| CBuffer.YankNothing | demos/console-next.cpp:477-489 | yanking an empty kill-ring leaves the line and cursor as they were |
| CBuffer.YankUnterminated | demos/console-next.cpp:479-487 | on an array with no NUL past the terminator, yanking "k" into the empty line overwrites the only terminator, so the array holds no NUL at all |
| CBuffer.StepAgrees | demos/console-next.cpp:416-489 | on a consistent array, "type" with a non-NUL key, "enter", "left" and "kill" stay consistent and show what LineEditor computes; "type" with NUL on a line with room breaks consistency; "yank" moves the cursor where LineEditor.Yank does and agrees with it on an empty kill-ring |
| CBuffer.RunTypes | demos/console-next.cpp:416-425 | typing a NUL-free string at the end of a line with room appends it and moves the terminator past it |
| CBuffer.StaleYankExample | demos/console-next.cpp:427-489 | type "abcd", enter, type "xy", left, kill, yank leaves "xxyd" on the array, where LineEditor.Yank gives "xxy" |

## Left out

- Rendering is not part of this model: `render`, `add_glyph`, the markup table, the vertex buffer and the font atlas (`demos/console-next.cpp:110-341`). It is floating-point geometry on foreign libraries.
- The GLFW callbacks `char_input` and `keyboard` and the program's main loop (`demos/console-next.cpp:613-766`) are not modelled; they are window-system I/O. Only their observable inputs appear: an action name, a key, and the "escape" name that no branch handles.
- `demos/distance-field-2v5.cpp` is not part of this model.
- The handlers' own effects are not modelled. They receive the console pointer and are foreign code. The model records each call (signal, handler, input) in `trace`.
- The diagnostics written with `fprintf` (`demos/console-next.cpp:424`, `473`) are not modelled; they are I/O.
- Memory management is replaced by immutable sequences: `strdup`, `malloc`, `free`, `vector_t`.
- LineEditor.Type: the key is a `char`, not an `unsigned char`. The truncation of code points in `char_input` is not modelled, except for the NUL it can produce.
- CBuffer models only "type", "enter", "left", "kill" and "yank" byte by byte. These are the actions where the code and the intended model could part. The other actions are modelled only in LineEditor.
- The bytes the constructor leaves unset are not modelled as such. The constructor writes only `input[0]`, and `CBuffer` takes the rest of the array as a parameter. `CBuffer.YankUnterminated` shows what "yank" does when none of those bytes is NUL.

## Findings

| source | as written | input that shows it | evidently intended | confidence | as-written member | corrected member |
|---|---|---|---|---|---|---|
| demos/console-next.cpp:416-425 | "type" stores any key, NUL included. `char_input` passes a code point truncated to `unsigned char`, so U+0100 arrives as NUL. The NUL ends the string at the old cursor, while the cursor moves one past it. | On an empty line, type U+0100 (NUL after truncation), then press delete. `len - cursor` is 0 - 1 in `size_t`, so `memmove` is asked to move 2^64 - 1 bytes. | A NUL key is not stored, so the cursor stays within the string. | not executed; high: the arithmetic follows from the code alone | CBuffer.TypeNulThenDelete | LineEditor.Type |
| demos/console-next.cpp:482-484 | "yank" moves the `len - cursor` characters after the cursor but not the terminator. The line then reads on into whatever the array held past the old end. | Type "abcd", enter, type "xy", left, kill, yank. The line shows "xxyd", the "d" being left over from the submitted line. | Move `len - cursor + 1` characters, so that the kill-ring is inserted and the line reads "xxy". | not executed; high: the stale byte is traced step by step | CBuffer.StaleYankExample | LineEditor.Yank |
