/**
  The input line as the C code stores it: a fixed array of
  MAX_LINE_LENGTH + 1 characters, read up to its first NUL, edited with
  `memmove` and `memcpy`. This byte-level model serves to compare the code
  as written with the line editor of LineEditor, which models the intended
  behaviour, on the two actions where they part: "type" with a NUL key and
  "yank".
 */
module CBuffer {
  import opened Text
  import E = LineEditor

  /** Size of the `input` array. */
  const Capacity: nat := E.MaxLineLength + 1

  /** The C string stored in `buf`: everything before its first NUL. */
  function CStr(buf: string): (r: string)
    ensures |r| <= |buf|
    ensures Nul in buf ==> |r| < |buf|
    ensures Nul !in r
  {
    FindSpec(buf, Nul);
    match Find(buf, Nul)
    case None => buf
    case Some(i) => buf[..i]
  }

  /** A C string followed by its terminator reads back as itself, whatever
      follows. */
  lemma CStrAfter(s: string, t: string)
    requires Nul !in s
    ensures CStr(s + [Nul] + t) == s
  {
    FindAfterPrefix(s, Nul, t);
  }

  /** A buffer holding a NUL is its C string, the terminator and the rest. */
  lemma Decompose(buf: string)
    requires Nul in buf
    ensures buf == CStr(buf) + [Nul] + buf[|CStr(buf)| + 1..]
  {
    FindSpec(buf, Nul);
    var i := Find(buf, Nul).value;
    assert buf == buf[..i] + [buf[i]] + buf[i + 1..];
  }

  /** A NUL-free prefix is read through: the C string of `x + y` is `x`
      followed by the C string of `y`. */
  lemma CStrPrefixed(x: string, y: string)
    requires Nul !in x
    ensures CStr(x + y) == x + CStr(y)
  {
    FindSpec(y, Nul);
    if Find(y, Nul).None? {
      FindSpec(x + y, Nul);
    } else {
      Decompose(y);
      var s, t := CStr(y), y[|CStr(y)| + 1..];
      assert x + y == (x + s) + [Nul] + t;
      CStrAfter(x + s, t);
    }
  }

  /** `memmove(buf + dst, buf + src, n)`: the `n` characters at `src` are
      copied to `dst`, as if through a temporary. */
  function MemMove(buf: string, dst: nat, src: nat, n: nat): (r: string)
    requires dst + n <= |buf| && src + n <= |buf|
    ensures |r| == |buf|
  {
    buf[..dst] + buf[src..src + n] + buf[dst + n..]
  }

  /** `memcpy(buf + dst, t, |t|)`. */
  function MemCopy(buf: string, dst: nat, t: string): (r: string)
    requires dst + |t| <= |buf|
    ensures |r| == |buf|
  {
    buf[..dst] + t + buf[dst + |t|..]
  }

  /** The console's `input`, `cursor` and `killring` fields; the kill-ring
      is kept as the C string it holds. */
  datatype Raw = Raw(buf: string, cursor: nat, killring: string)
  {
    /** The array is terminated within its bounds, the cursor lies within
        the string, and the kill-ring is a C string that fits its array. */
    predicate Consistent()
    {
      && |buf| == Capacity && Nul in buf
      && cursor <= |CStr(buf)|
      && |killring| <= E.MaxLineLength && Nul !in killring
    }

    /** What the console shows: the C string and the cursor. */
    function View(): E.Editor
    {
      E.Editor(CStr(buf), cursor, killring)
    }
  }

  /** "type" as written: move the tail, terminator included, one place
      right, store the key and advance. Nothing stops `key` from being NUL. */
  function TypeAsWritten(r: Raw, key: char): (s: Raw)
    requires r.Consistent()
    ensures |s.buf| == |r.buf| && s.killring == r.killring
  {
    var len := |CStr(r.buf)|;
    if len < E.MaxLineLength then
      var moved := MemMove(r.buf, r.cursor + 1, r.cursor, len - r.cursor + 1);
      r.(buf := moved[r.cursor := key], cursor := r.cursor + 1)
    else
      r
  }

  /** "type" as written on a buffer laid out as string, terminator, rest:
      the key goes in at the cursor and the terminator moves one place,
      overwriting the first character of the rest. */
  lemma TypeAsWrittenSplit(s: string, t: string, c: nat, k: string, key: char)
    requires Nul !in s && |s| < E.MaxLineLength && |s| + 1 + |t| == Capacity
    requires c <= |s| && |k| <= E.MaxLineLength && Nul !in k
    ensures Raw(s + [Nul] + t, c, k).Consistent()
    ensures TypeAsWritten(Raw(s + [Nul] + t, c, k), key) ==
      Raw(s[..c] + [key] + s[c..] + [Nul] + t[1..], c + 1, k)
  {
    var buf := s + [Nul] + t;
    CStrAfter(s, t);
    var x := MemMove(buf, c + 1, c, |s| - c + 1)[c := key];
    TypeBytes(s, t, c, key);
    assert TypeAsWritten(Raw(buf, c, k), key) == Raw(x, c + 1, k);
  }

  /** The moves "type" makes on the bytes of string, terminator, rest. */
  lemma TypeBytes(s: string, t: string, c: nat, key: char)
    requires c <= |s| && |t| > 0
    ensures MemMove(s + [Nul] + t, c + 1, c, |s| - c + 1)[c := key] ==
      s[..c] + [key] + s[c..] + [Nul] + t[1..]
  {
    var buf := s + [Nul] + t;
    var tail := s[c..] + [Nul] + t[1..];
    var moved := MemMove(buf, c + 1, c, |s| - c + 1);
    assert moved == s[..c] + [buf[c]] + tail by {
      assert buf[..c + 1] == s[..c] + [buf[c]];
      assert buf[c..|s| + 1] == s[c..] + [Nul];
      assert buf[|s| + 2..] == t[1..];
    }
    UpdateAt(s[..c], buf[c], tail, key);
    assert s[..c] + [key] + tail == s[..c] + [key] + s[c..] + [Nul] + t[1..];
  }

  /** Overwriting the element after a prefix. */
  lemma UpdateAt(a: string, x: char, b: string, y: char)
    ensures (a + [x] + b)[|a| := y] == a + [y] + b
  {
    assert forall i :: 0 <= i < |a + [y] + b| ==> (a + [x] + b)[|a| := y][i] == (a + [y] + b)[i];
  }

  /** For every key but NUL, "type" as written shows exactly what the line
      editor's Type computes, and the buffer stays consistent. */
  lemma TypeAsWrittenAgrees(r: Raw, key: char)
    requires r.Consistent() && key != Nul
    ensures TypeAsWritten(r, key).Consistent()
    ensures TypeAsWritten(r, key).View() == E.Type(r.View(), key)
  {
    if |CStr(r.buf)| < E.MaxLineLength {
      TypeAsWrittenText(r, key);
    }
  }

  /** The string "type" as written leaves, for a key other than NUL on a
      line with room. */
  lemma TypeAsWrittenText(r: Raw, key: char)
    requires r.Consistent() && key != Nul && |CStr(r.buf)| < E.MaxLineLength
    ensures var x := TypeAsWritten(r, key);
      && CStr(x.buf) == Insert(CStr(r.buf), r.cursor, [key])
      && x.cursor == r.cursor + 1 && Nul in x.buf
  {
    Decompose(r.buf);
    var s, t, c := CStr(r.buf), r.buf[|CStr(r.buf)| + 1..], r.cursor;
    assert r == Raw(s + [Nul] + t, c, r.killring);
    TypeAsWrittenSplit(s, t, c, r.killring, key);
    var s' := Insert(s, c, [key]);
    assert s' + [Nul] + t[1..] == s[..c] + [key] + s[c..] + [Nul] + t[1..];
    assert Nul !in s' by {
      assert Nul !in s[..c] && Nul !in s[c..];
    }
    CStrAfter(s', t[1..]);
  }

  /** "type" with a NUL key, as written, on a line with room: the NUL ends
      the string at the old cursor while the cursor moves one past it, so
      the cursor is no longer within the line. */
  lemma TypeNulBreaks(r: Raw)
    requires r.Consistent() && |CStr(r.buf)| < E.MaxLineLength
    ensures var s := TypeAsWritten(r, Nul);
      CStr(s.buf) == CStr(r.buf)[..r.cursor] && s.cursor == r.cursor + 1
    ensures !TypeAsWritten(r, Nul).Consistent()
  {
    Decompose(r.buf);
    var s, t := CStr(r.buf), r.buf[|CStr(r.buf)| + 1..];
    assert r == Raw(s + [Nul] + t, r.cursor, r.killring);
    TypeAsWrittenSplit(s, t, r.cursor, r.killring, Nul);
    var u := s[r.cursor..] + [Nul] + t[1..];
    assert s[..r.cursor] + [Nul] + s[r.cursor..] + [Nul] + t[1..] == s[..r.cursor] + [Nul] + u;
    CStrAfter(s[..r.cursor], u);
  }

  /** The byte count "delete" passes to `memmove`: `len - cursor` computed
      in the 64-bit unsigned `size_t`. */
  function DeleteCount(r: Raw): (n: nat)
    requires |r.buf| == Capacity
    ensures r.cursor <= |CStr(r.buf)| ==> n == |CStr(r.buf)| - r.cursor
    ensures n < 0x1_0000_0000_0000_0000
  {
    (|CStr(r.buf)| - r.cursor) % 0x1_0000_0000_0000_0000
  }

  /** The concrete failure: a NUL typed into the empty line leaves the
      cursor at 1 on an empty string, and a "delete" pressed next asks
      `memmove` to move 2^64 - 1 bytes within a 512-byte array. */
  lemma TypeNulThenDelete(t: string)
    requires |t| == E.MaxLineLength
    ensures var r := TypeAsWritten(Raw([Nul] + t, 0, ""), Nul);
      CStr(r.buf) == "" && r.cursor == 1 && DeleteCount(r) == 0xFFFF_FFFF_FFFF_FFFF
  {
    CStrAfter("", t);
    assert "" + [Nul] + t == [Nul] + t;
    TypeNulBreaks(Raw([Nul] + t, 0, ""));
  }

  /** "enter" as written, as far as the array goes: only the first
      character is overwritten by a terminator. */
  function EnterAsWritten(r: Raw): (s: Raw)
    requires r.Consistent()
    ensures s.Consistent() && CStr(s.buf) == "" && s.cursor == 0
    ensures s.buf[1..] == r.buf[1..]
  {
    CStrAfter("", r.buf[1..]);
    assert r.buf[0 := Nul] == "" + [Nul] + r.buf[1..];
    r.(buf := r.buf[0 := Nul], cursor := 0)
  }

  /** "left" as written. */
  function LeftAsWritten(r: Raw): (s: Raw)
    requires r.Consistent()
    ensures s.Consistent() && s.View() == E.Left(r.View())
  {
    if r.cursor > 0 then r.(cursor := r.cursor - 1) else r
  }

  /** "kill" as written: `strcpy` the whole string into the kill-ring, then
      terminate the line at the cursor. */
  function KillAsWritten(r: Raw): (s: Raw)
    requires r.Consistent()
    ensures |s.buf| == |r.buf|
  {
    if r.cursor < |CStr(r.buf)| then
      r.(buf := r.buf[r.cursor := Nul], killring := CStr(r.buf))
    else
      r
  }

  /** "kill" as written shows what the line editor's Kill computes. */
  lemma KillAsWrittenAgrees(r: Raw)
    requires r.Consistent()
    ensures KillAsWritten(r).Consistent()
    ensures KillAsWritten(r).View() == E.Kill(r.View())
  {
    if r.cursor < |CStr(r.buf)| {
      KillAsWrittenText(r);
    }
  }

  /** The string "kill" as written leaves when the cursor is inside the
      line: the part before the cursor. */
  lemma KillAsWrittenText(r: Raw)
    requires r.Consistent() && r.cursor < |CStr(r.buf)|
    ensures CStr(KillAsWritten(r).buf) == CStr(r.buf)[..r.cursor]
    ensures Nul in KillAsWritten(r).buf
  {
    Decompose(r.buf);
    var s, t, c := CStr(r.buf), r.buf[|CStr(r.buf)| + 1..], r.cursor;
    var u := s[c + 1..] + [Nul] + t;
    assert r.buf[c := Nul] == s[..c] + [Nul] + u by {
      assert r.buf == s[..c] + [s[c]] + u;
      UpdateAt(s[..c], s[c], u, Nul);
    }
    assert Nul !in s[..c];
    CStrAfter(s[..c], u);
  }

  /** "yank" as written: move the `len - cursor` characters after the
      cursor (but not the terminator) `l` places right, copy the kill-ring
      into the gap and advance the cursor. */
  function YankAsWritten(r: Raw): (s: Raw)
    requires r.Consistent()
    ensures |s.buf| == |r.buf| && s.killring == r.killring
  {
    var len, l := |CStr(r.buf)|, |r.killring|;
    if len + l < E.MaxLineLength then
      var moved := MemMove(r.buf, r.cursor + l, r.cursor, len - r.cursor);
      r.(buf := MemCopy(moved, r.cursor, r.killring), cursor := r.cursor + l)
    else
      r
  }

  /** "yank" as written on a buffer laid out as string, terminator, rest:
      the first `l` characters from the terminator on are overwritten,
      and whatever follows them stays. */
  lemma YankAsWrittenSplit(s: string, t: string, c: nat, k: string)
    requires Nul !in s && |s| + 1 + |t| == Capacity && c <= |s|
    requires Nul !in k && |s| + |k| < E.MaxLineLength
    ensures Raw(s + [Nul] + t, c, k).Consistent()
    ensures YankAsWritten(Raw(s + [Nul] + t, c, k)) ==
      Raw(s[..c] + k + s[c..] + ([Nul] + t)[|k|..], c + |k|, k)
  {
    var buf := s + [Nul] + t;
    CStrAfter(s, t);
    var x := MemCopy(MemMove(buf, c + |k|, c, |s| - c), c, k);
    YankBytes(s, t, c, k);
    assert YankAsWritten(Raw(buf, c, k)) == Raw(x, c + |k|, k);
  }

  /** The moves "yank" makes on the bytes of string, terminator, rest. */
  lemma YankBytes(s: string, t: string, c: nat, k: string)
    requires c <= |s| && |k| <= |t| + 1
    ensures MemCopy(MemMove(s + [Nul] + t, c + |k|, c, |s| - c), c, k) ==
      s[..c] + k + s[c..] + ([Nul] + t)[|k|..]
  {
    var buf := s + [Nul] + t;
    var l := |k|;
    var rest := ([Nul] + t)[l..];
    var moved := MemMove(buf, c + l, c, |s| - c);
    assert moved[..c] == s[..c] by {
      assert moved[..c] == buf[..c + l][..c];
    }
    assert moved[c + l..] == s[c..] + rest by {
      assert moved[c + l..] == buf[c..|s|] + buf[|s| + l..];
      assert buf[c..|s|] == s[c..];
      assert buf[|s| + l..] == rest;
    }
    assert s[..c] + k + (s[c..] + rest) == s[..c] + k + s[c..] + rest;
  }

  /** What "yank" as written shows. The array holds the intended line,
      with the kill-ring inserted at the cursor, followed by what the array
      held `l` places past the old terminator. When that remainder holds a
      NUL, the line reads on into its C string; when it holds none, the
      array is left without a terminator, and `strlen` would run past its
      end. With an empty kill-ring the remainder starts with the old
      terminator and the action agrees with the line editor's Yank. */
  lemma YankReadsStale(r: Raw)
    requires r.Consistent() && |CStr(r.buf)| + |r.killring| < E.MaxLineLength
    ensures var tail := r.buf[|CStr(r.buf)| + |r.killring|..];
      Nul in tail ==> CStr(YankAsWritten(r).buf) == E.Yank(r.View()).input + CStr(tail)
    ensures var tail := r.buf[|CStr(r.buf)| + |r.killring|..];
      Nul !in tail ==> Nul !in YankAsWritten(r).buf && !YankAsWritten(r).Consistent()
    ensures YankAsWritten(r).cursor == E.Yank(r.View()).cursor
    ensures |r.killring| == 0 ==> YankAsWritten(r).View() == E.Yank(r.View())
  {
    YankAsWrittenText(r);
    if |r.killring| == 0 {
      YankNothing(r);
    }
  }

  /** "yank" with an empty kill-ring, as written, changes nothing the
      console shows. */
  lemma YankNothing(r: Raw)
    requires r.Consistent() && |r.killring| == 0 && |CStr(r.buf)| < E.MaxLineLength
    ensures YankAsWritten(r).View() == r.View()
  {
    Decompose(r.buf);
    var s, t := CStr(r.buf), r.buf[|CStr(r.buf)| + 1..];
    YankAsWrittenSplit(s, t, r.cursor, r.killring);
    assert r == Raw(s + [Nul] + t, r.cursor, r.killring);
    InsertNothing(s, t, r.cursor, r.killring);
    CStrAfter(s, t);
  }

  /** Inserting an empty kill-ring leaves the array as it was. */
  lemma InsertNothing(s: string, t: string, c: nat, k: string)
    requires c <= |s| && |k| == 0
    ensures s[..c] + k + s[c..] + ([Nul] + t)[|k|..] == s + [Nul] + t
  {
    assert s[..c] + s[c..] == s;
  }

  /** The array "yank" as written leaves: the kill-ring inserted at the
      cursor, then the bytes from `l` places past the old terminator on.
      Read as a C string, that is the inserted line followed by the C
      string of those bytes when they hold a NUL; when they hold none, the
      array holds no NUL at all. */
  lemma YankAsWrittenText(r: Raw)
    requires r.Consistent() && |CStr(r.buf)| + |r.killring| < E.MaxLineLength
    ensures var tail := r.buf[|CStr(r.buf)| + |r.killring|..];
      YankAsWritten(r).buf == Insert(CStr(r.buf), r.cursor, r.killring) + tail
    ensures var tail := r.buf[|CStr(r.buf)| + |r.killring|..];
      Nul in tail ==>
        CStr(YankAsWritten(r).buf) == Insert(CStr(r.buf), r.cursor, r.killring) + CStr(tail)
    ensures Nul !in r.buf[|CStr(r.buf)| + |r.killring|..] ==> Nul !in YankAsWritten(r).buf
    ensures YankAsWritten(r).cursor == r.cursor + |r.killring|
  {
    Decompose(r.buf);
    var s, t := CStr(r.buf), r.buf[|CStr(r.buf)| + 1..];
    var c, k := r.cursor, r.killring;
    assert r == Raw(s + [Nul] + t, c, k);
    YankAsWrittenSplit(s, t, c, k);
    var ins := Insert(s, c, k);
    var rest := r.buf[|s| + |k|..];
    assert s[..c] + k + s[c..] + ([Nul] + t)[|k|..] == ins + rest by {
      assert ([Nul] + t)[|k|..] == rest;
    }
    assert Nul !in ins by {
      assert Nul !in s[..c] && Nul !in s[c..];
    }
    CStrPrefixed(ins, rest);
  }

  /** The unterminated case of "yank": an array whose bytes after the
      terminator were never zero, an empty line and a one-character
      kill-ring. The kill-ring overwrites the only NUL, and nothing stops
      the string from running past the array. */
  lemma YankUnterminated(t: string)
    requires |t| == E.MaxLineLength && Nul !in t
    ensures Raw([Nul] + t, 0, "k").Consistent()
    ensures YankAsWritten(Raw([Nul] + t, 0, "k")).buf == "k" + t
    ensures Nul !in YankAsWritten(Raw([Nul] + t, 0, "k")).buf
  {
    var r := Raw([Nul] + t, 0, "k");
    CStrAfter("", t);
    assert "" + [Nul] + t == [Nul] + t;
    assert Nul !in "k";
    YankAsWrittenText(r);
    assert r.buf[1..] == t;
    assert Insert("", 0, "k") == "k";
  }

  /** Typing at the end of the line, as written: the key is appended and
      the terminator moves one place right. */
  lemma TypeAtEnd(s: string, t: string, k: string, key: char)
    requires Nul !in s && |s| < E.MaxLineLength && |s| + 1 + |t| == Capacity
    requires |k| <= E.MaxLineLength && Nul !in k
    ensures Raw(s + [Nul] + t, |s|, k).Consistent()
    ensures TypeAsWritten(Raw(s + [Nul] + t, |s|, k), key) == Raw(s + [key] + [Nul] + t[1..], |s| + 1, k)
  {
    TypeAsWrittenSplit(s, t, |s|, k, key);
    assert s[..|s|] + [key] + s[|s|..] + [Nul] + t[1..] == s + [key] + [Nul] + t[1..] by {
      assert s[..|s|] == s && s[|s|..] == [];
    }
  }

  /** The keys of the traces below, each handled as written. */
  datatype Act = TypeKey(key: char) | EnterKey | LeftKey | KillKey | YankKey

  /** One key, as written, on a consistent buffer; None once the buffer has
      lost the invariant the byte-level model relies on. What each key does
      is stated by StepAgrees. */
  function StepAsWritten(r: Raw, a: Act): (s: Option<Raw>)
    ensures s.Some? <==> r.Consistent()
  {
    if !r.Consistent() then None
    else
      match a
      case TypeKey(key) => Some(TypeAsWritten(r, key))
      case EnterKey => Some(EnterAsWritten(r))
      case LeftKey => Some(LeftAsWritten(r))
      case KillKey => Some(KillAsWritten(r))
      case YankKey => Some(YankAsWritten(r))
  }

  /** Each key, as written, against the line editor. On a consistent
      buffer, "type" with any key but NUL, "enter", "left" and "kill" show
      what the line editor computes and keep the buffer consistent; "type"
      with NUL on a line with room breaks the invariant; "yank" moves the
      cursor where the line editor's Yank does, and shows what it computes
      when the kill-ring is empty. */
  lemma StepAgrees(r: Raw, a: Act)
    requires r.Consistent()
    ensures a.TypeKey? && a.key != Nul ==>
      StepAsWritten(r, a).value.Consistent() && StepAsWritten(r, a).value.View() == E.Type(r.View(), a.key)
    ensures a == TypeKey(Nul) && |CStr(r.buf)| < E.MaxLineLength ==>
      !StepAsWritten(r, a).value.Consistent()
    ensures a == EnterKey ==>
      StepAsWritten(r, a).value.Consistent() && StepAsWritten(r, a).value.View() == E.Editor("", 0, r.killring)
    ensures a == LeftKey ==>
      StepAsWritten(r, a).value.Consistent() && StepAsWritten(r, a).value.View() == E.Left(r.View())
    ensures a == KillKey ==>
      StepAsWritten(r, a).value.Consistent() && StepAsWritten(r, a).value.View() == E.Kill(r.View())
    ensures a == YankKey ==>
      && StepAsWritten(r, a).value.cursor == E.Yank(r.View()).cursor
      && (|r.killring| == 0 ==> StepAsWritten(r, a).value.View() == E.Yank(r.View()))
  {
    match a
    case TypeKey(key) =>
      if key != Nul {
        TypeAsWrittenAgrees(r, key);
      } else if |CStr(r.buf)| < E.MaxLineLength {
        TypeNulBreaks(r);
      }
    case YankKey =>
      if |CStr(r.buf)| + |r.killring| < E.MaxLineLength {
        YankReadsStale(r);
      }
    case KillKey =>
      KillAsWrittenAgrees(r);
    case _ =>
  }

  /** A sequence of keys, as written, one after the other. */
  function RunAsWritten(r: Raw, acts: seq<Act>): Option<Raw>
    decreases |acts|
  {
    if |acts| == 0 then Some(r)
    else
      match RunAsWritten(r, acts[..|acts| - 1])
      case None => None
      case Some(s) => StepAsWritten(s, acts[|acts| - 1])
  }

  lemma RunSnoc(r: Raw, acts: seq<Act>, a: Act, s: Raw)
    requires RunAsWritten(r, acts) == Some(s)
    ensures RunAsWritten(r, acts + [a]) == StepAsWritten(s, a)
  {
    assert (acts + [a])[..|acts|] == acts;
  }

  /** Typing at the end of a consistent line, as written, with the state
      spelled out. */
  lemma TypeStep(s: string, t: string, key: char, s': string, t': string)
    requires Nul !in s && |s| < E.MaxLineLength && |s| + 1 + |t| == Capacity && key != Nul
    requires s' == s + [key] && t' == t[1..]
    ensures StepAsWritten(Raw(s + [Nul] + t, |s|, ""), TypeKey(key)) == Some(Raw(s' + [Nul] + t', |s'|, ""))
  {
    TypeAtEnd(s, t, "", key);
  }

  /** The keys that type `w`, one character after the other. */
  function TypeKeys(w: string): (acts: seq<Act>)
    ensures |acts| == |w|
  {
    seq(|w|, i requires 0 <= i < |w| => TypeKey(w[i]))
  }

  /** The keys of the stale-yank trace, in four parts: type "abcd"; enter
      and type "xy"; left and kill; yank. */
  const TypedAbcd: seq<Act> := TypeKeys("abcd")
  const TypedXy: seq<Act> := TypedAbcd + [EnterKey] + TypeKeys("xy")
  const Killed: seq<Act> := TypedXy + [LeftKey] + [KillKey]
  const StaleTrace: seq<Act> := Killed + [YankKey]

  /** "enter" after "abcd": the string ends at byte 0. */
  lemma EnterStep(u: string)
    requires |u| == E.MaxLineLength - 4
    ensures StepAsWritten(Raw("abcd" + [Nul] + u, 4, ""), EnterKey) ==
      Some(Raw("" + [Nul] + ("bc" + ("d" + [Nul] + u)), |""|, ""))
  {
    CStrAfter("abcd", u);
    assert ("abcd" + [Nul] + u)[0 := Nul] == "" + [Nul] + ("bc" + ("d" + [Nul] + u));
  }

  /** "left" then "kill" on "xy" with the cursor at its end. */
  lemma LeftKillSteps(u: string)
    requires |u| == E.MaxLineLength - 4
    ensures StepAsWritten(Raw("xy" + [Nul] + ("d" + [Nul] + u), 2, ""), LeftKey) ==
      Some(Raw("xy" + [Nul] + ("d" + [Nul] + u), 1, ""))
    ensures StepAsWritten(Raw("xy" + [Nul] + ("d" + [Nul] + u), 1, ""), KillKey) ==
      Some(Raw("x" + [Nul] + ([Nul] + ("d" + [Nul] + u)), 1, "xy"))
  {
    CStrAfter("xy", "d" + [Nul] + u);
    var b := "xy" + [Nul] + ("d" + [Nul] + u);
    UpdateAt("x", 'y', [Nul] + ("d" + [Nul] + u), Nul);
    assert b == "x" + ['y'] + ([Nul] + ("d" + [Nul] + u));
  }

  /** "yank" as written on string, terminator, rest: the kill-ring is
      inserted at the cursor, overwriting the terminator and the |k| - 1
      characters after it, and the rest of the array stays where it was. */
  lemma YankOver(s: string, q: string, rest: string, c: nat, k: string, s': string)
    requires Nul !in s && c <= |s| && Nul !in k && |s| + |k| < E.MaxLineLength
    requires |q| + 1 == |k| && |s| + 1 + |q| + |rest| == Capacity
    requires s' == s[..c] + k + s[c..]
    ensures StepAsWritten(Raw(s + [Nul] + (q + rest), c, k), YankKey) == Some(Raw(s' + rest, c + |k|, k))
  {
    YankAsWrittenSplit(s, q + rest, c, k);
    assert ([Nul] + (q + rest))[|k|..] == rest;
  }

  /** What the yanked line reads as, as written and as meant. */
  lemma YankReads(u: string)
    ensures CStr("xxy" + ("d" + [Nul] + u)) == "xxyd"
    ensures E.Yank(E.Editor("x", 1, "xy")).input == "xxy"
  {
    CStrAfter("d", u);
    CStrPrefixed("xxy", "d" + [Nul] + u);
    assert Insert("x", 1, "xy") == "xxy";
  }

  /** A run that ends by typing at the end of a consistent line. */
  lemma RunType(r0: Raw, acts: seq<Act>, s: string, t: string, key: char, s': string, t': string)
    requires RunAsWritten(r0, acts) == Some(Raw(s + [Nul] + t, |s|, ""))
    requires Nul !in s && |s| < E.MaxLineLength && |s| + 1 + |t| == Capacity && key != Nul
    requires s' == s + [key] && t' == t[1..]
    ensures RunAsWritten(r0, acts + [TypeKey(key)]) == Some(Raw(s' + [Nul] + t', |s'|, ""))
  {
    TypeStep(s, t, key, s', t');
    RunSnoc(r0, acts, TypeKey(key), Raw(s + [Nul] + t, |s|, ""));
  }

  /** Typing a NUL-free string at the end of a consistent line, as
      written, appends it and moves the terminator past it: as long as the
      line has room, the code agrees with the line editor here. */
  lemma {:induction false} RunTypes(r0: Raw, acts: seq<Act>, s: string, t: string, w: string)
    requires RunAsWritten(r0, acts) == Some(Raw(s + [Nul] + t, |s|, ""))
    requires Nul !in s && Nul !in w && |s| + |w| <= E.MaxLineLength && |s| + 1 + |t| == Capacity
    ensures RunAsWritten(r0, acts + TypeKeys(w)) == Some(Raw(s + w + [Nul] + t[|w|..], |s| + |w|, ""))
    decreases |w|
  {
    if |w| == 0 {
      assert acts + TypeKeys(w) == acts;
      assert Raw(s + w + [Nul] + t[|w|..], |s| + |w|, "") == Raw(s + [Nul] + t, |s|, "") by {
        assert s + w == s && t[|w|..] == t;
      }
    } else {
      var v, c := w[..|w| - 1], w[|w| - 1];
      assert w == v + [c];
      assert Nul !in v && c != Nul by {
        assert Nul !in v + [c];
      }
      RunTypes(r0, acts, s, t, v);
      RunTypesStep(r0, acts, s, t, v, c);
      assert acts + TypeKeys(w) == acts + TypeKeys(v + [c]);
      assert Raw(s + w + [Nul] + t[|w|..], |s| + |w|, "") ==
        Raw(s + (v + [c]) + [Nul] + t[|v| + 1..], |s| + |v| + 1, "");
    }
  }

  /** One more key for RunTypes. */
  lemma RunTypesStep(r0: Raw, acts: seq<Act>, s: string, t: string, v: string, c: char)
    requires Nul !in s && Nul !in v && c != Nul && |s| + |v| < E.MaxLineLength && |s| + 1 + |t| == Capacity
    requires RunAsWritten(r0, acts + TypeKeys(v)) == Some(Raw(s + v + [Nul] + t[|v|..], |s| + |v|, ""))
    ensures RunAsWritten(r0, acts + TypeKeys(v + [c])) ==
      Some(Raw(s + (v + [c]) + [Nul] + t[|v| + 1..], |s| + |v| + 1, ""))
  {
    var s1, t1 := s + v, t[|v|..];
    assert |s1| == |s| + |v| && Nul !in s1;
    RunType(r0, acts + TypeKeys(v), s1, t1, c, s1 + [c], t1[1..]);
    TypeKeysSnoc(acts, v, c);
    assert Raw(s1 + [c] + [Nul] + t1[1..], |s1 + [c]|, "") ==
      Raw(s + (v + [c]) + [Nul] + t[|v| + 1..], |s| + |v| + 1, "") by {
      assert s1 + [c] == s + (v + [c]);
      assert t1[1..] == t[|v| + 1..];
    }
  }

  lemma TypeKeysSnoc(acts: seq<Act>, v: string, c: char)
    ensures acts + TypeKeys(v) + [TypeKey(c)] == acts + TypeKeys(v + [c])
  {
    assert TypeKeys(v) + [TypeKey(c)] == TypeKeys(v + [c]);
  }

  /** RunTypes with the bytes the typed string overwrites given apart from
      the rest of the array. */
  lemma RunTypesOver(r0: Raw, acts: seq<Act>, s: string, p: string, rest: string, w: string, s': string)
    requires RunAsWritten(r0, acts) == Some(Raw(s + [Nul] + (p + rest), |s|, ""))
    requires Nul !in s && Nul !in w && |p| == |w| && |s| + |w| <= E.MaxLineLength
    requires |s| + 1 + |p| + |rest| == Capacity && s' == s + w
    ensures RunAsWritten(r0, acts + TypeKeys(w)) == Some(Raw(s' + [Nul] + rest, |s'|, ""))
  {
    RunTypes(r0, acts, s, p + rest, w);
    assert Raw(s + w + [Nul] + (p + rest)[|w|..], |s| + |w|, "") == Raw(s' + [Nul] + rest, |s'|, "") by {
      assert (p + rest)[|w|..] == rest;
    }
  }

  /** Typing "abcd" on a fresh line, as written. */
  lemma RunAbcd(j: string)
    requires |j| == E.MaxLineLength
    ensures RunAsWritten(Raw([Nul] + j, 0, ""), TypedAbcd) == Some(Raw("abcd" + [Nul] + j[4..], 4, ""))
  {
    var r0 := Raw([Nul] + j, 0, "");
    assert RunAsWritten(r0, []) == Some(Raw("" + [Nul] + (j[..4] + j[4..]), |""|, "")) by {
      assert [Nul] + j == "" + [Nul] + (j[..4] + j[4..]);
    }
    RunTypesOver(r0, [], "", j[..4], j[4..], "abcd", "abcd");
    assert [] + TypeKeys("abcd") == TypedAbcd;
  }

  /** Then "enter", as written: only the first byte changes. */
  lemma RunEnter(j: string)
    requires |j| == E.MaxLineLength
    ensures RunAsWritten(Raw([Nul] + j, 0, ""), TypedAbcd + [EnterKey]) ==
      Some(Raw("" + [Nul] + ("bc" + ("d" + [Nul] + j[4..])), |""|, ""))
  {
    RunAbcd(j);
    EnterStep(j[4..]);
    RunSnoc(Raw([Nul] + j, 0, ""), TypedAbcd, EnterKey, Raw("abcd" + [Nul] + j[4..], 4, ""));
  }

  /** Then typing "xy", as written. */
  lemma RunEnterXy(j: string)
    requires |j| == E.MaxLineLength
    ensures RunAsWritten(Raw([Nul] + j, 0, ""), TypedXy) ==
      Some(Raw("xy" + [Nul] + ("d" + [Nul] + j[4..]), 2, ""))
  {
    RunEnter(j);
    RunTypesOver(Raw([Nul] + j, 0, ""), TypedAbcd + [EnterKey], "", "bc", "d" + [Nul] + j[4..], "xy", "xy");
  }

  /** Then "left" and "kill", as written. */
  lemma RunLeftKill(j: string)
    requires |j| == E.MaxLineLength
    ensures RunAsWritten(Raw([Nul] + j, 0, ""), Killed) ==
      Some(Raw("x" + [Nul] + ([Nul] + ("d" + [Nul] + j[4..])), 1, "xy"))
  {
    var r0 := Raw([Nul] + j, 0, "");
    var u := j[4..];
    RunEnterXy(j);
    LeftKillSteps(u);
    RunSnoc(r0, TypedXy, LeftKey, Raw("xy" + [Nul] + ("d" + [Nul] + u), 2, ""));
    RunSnoc(r0, TypedXy + [LeftKey], KillKey, Raw("xy" + [Nul] + ("d" + [Nul] + u), 1, ""));
  }

  /** Kill then yank, as written, after a longer line was submitted, from a
      fresh line whatever the rest of the array holds: the kill leaves "x"
      with the kill-ring "xy", which the line editor would turn into "xxy"
      on yank, but the code shows "xxyd", the "d" being left over from the
      first line. */
  lemma StaleYankExample(j: string)
    requires |j| == E.MaxLineLength
    ensures RunAsWritten(Raw([Nul] + j, 0, ""), Killed) ==
      Some(Raw("x" + [Nul] + ([Nul] + ("d" + [Nul] + j[4..])), 1, "xy"))
    ensures E.Yank(E.Editor("x", 1, "xy")).input == "xxy"
    ensures RunAsWritten(Raw([Nul] + j, 0, ""), StaleTrace) == Some(Raw("xxy" + ("d" + [Nul] + j[4..]), 3, "xy"))
    ensures CStr(RunAsWritten(Raw([Nul] + j, 0, ""), StaleTrace).value.buf) == "xxyd"
  {
    var u := j[4..];
    RunLeftKill(j);
    YankOver("x", [Nul], "d" + [Nul] + u, 1, "xy", "xxy");
    YankReads(u);
    RunSnoc(Raw([Nul] + j, 0, ""), Killed, YankKey, Raw("x" + [Nul] + ([Nul] + ("d" + [Nul] + u)), 1, "xy"));
  }
}
