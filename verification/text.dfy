/**
  Character-sequence helpers shared by the scrollback buffer and the line
  editor. The console works on single-byte code units; here a string is a
  plain `seq<char>` and carries no terminator.
 */
module Text {

  datatype Option<+T> = None | Some(value: T)

  /** The terminator of a C string. */
  const Nul: char := '\0'

  /** Position of the first occurrence of `ch` in `s` (the search done by
      `strchr` for '\n', and by `strlen` for the terminator). What the
      answer means is stated by FindSpec. */
  function Find(s: string, ch: char): (r: Option<nat>)
    ensures r.Some? ==> r.value < |s|
  {
    FindFrom(s, ch, 0)
  }

  /** Position of the first `ch` in `s` at or after `k`. */
  function FindFrom(s: string, ch: char, k: nat): (r: Option<nat>)
    requires k <= |s|
    ensures r.Some? ==> k <= r.value < |s|
    decreases |s| - k
  {
    if k == |s| then None
    else if s[k] == ch then Some(k)
    else FindFrom(s, ch, k + 1)
  }

  /** Searching from `k`, past a prefix free of `ch`, finds the first `ch`
      of `s`, or reports that there is none. */
  lemma {:induction false} FindFromSpec(s: string, ch: char, k: nat)
    requires k <= |s| && ch !in s[..k]
    ensures FindFrom(s, ch, k).None? <==> ch !in s
    ensures FindFrom(s, ch, k).Some? ==>
      var i := FindFrom(s, ch, k).value; s[i] == ch && ch !in s[..i]
    decreases |s| - k
  {
    if k == |s| {
      assert s[..k] == s;
    } else if s[k] != ch {
      assert s[..k + 1] == s[..k] + [s[k]];
      FindFromSpec(s, ch, k + 1);
    }
  }

  /** `Find` answers with the first `ch` of `s`, and with None exactly when
      `s` holds no `ch`. */
  lemma FindSpec(s: string, ch: char)
    ensures Find(s, ch).None? <==> ch !in s
    ensures Find(s, ch).Some? ==>
      var i := Find(s, ch).value; s[i] == ch && ch !in s[..i]
  {
    FindFromSpec(s, ch, 0);
  }

  /** Searching from `k` finds `n` when `s[n]` is the first `ch` at or
      after `k`. */
  lemma {:induction false} FindFromReaches(s: string, ch: char, k: nat, n: nat)
    requires k <= n < |s| && s[n] == ch
    requires forall j :: k <= j < n ==> s[j] != ch
    ensures FindFrom(s, ch, k) == Some(n)
    decreases n - k
  {
    if k < n {
      FindFromReaches(s, ch, k + 1, n);
    }
  }

  /** When `a` holds no `ch`, the first `ch` of `a + [ch] + b` is the one
      right after `a`. */
  lemma FindAfterPrefix(a: string, ch: char, b: string)
    requires ch !in a
    ensures Find(a + [ch] + b, ch) == Some(|a|)
  {
    var s := a + [ch] + b;
    forall j | 0 <= j < |a|
      ensures s[j] != ch
    {
      assert s[j] == a[j];
    }
    FindFromReaches(s, ch, 0, |a|);
  }

  /** Cutting a sequence in two and joining the parts gives it back. */
  lemma SplitJoin(s: string, k: nat)
    requires k <= |s|
    ensures s[..k] + s[k..] == s
  {
  }

  /** Concatenation regrouped, stated on its own so that proofs about
      functions of the two groupings need not redo it. */
  lemma Regroup(x: string, y: string, z: string)
    ensures x + y + z == x + (y + z)
  {
  }

  /** The text of a sequence of lines, read top to bottom. */
  function Concat(lines: seq<string>): string
  {
    if |lines| == 0 then "" else Concat(lines[..|lines| - 1]) + lines[|lines| - 1]
  }

  /** The sequence `s` with `t` inserted before position `i`. */
  function Insert(s: string, i: nat, t: string): (r: string)
    requires i <= |s|
    ensures |r| == |s| + |t|
    ensures r[..i] == s[..i] && r[i..i + |t|] == t && r[i + |t|..] == s[i..]
    ensures forall x :: x in r <==> x in s || x in t
  {
    assert s == s[..i] + s[i..];
    s[..i] + t + s[i..]
  }

  /** The sequence `s` without its element at position `i`. */
  function RemoveAt(s: string, i: nat): (r: string)
    requires i < |s|
    ensures |r| == |s| - 1
    ensures r[..i] == s[..i] && r[i..] == s[i + 1..]
    ensures forall x :: x in r ==> x in s
  {
    assert s == s[..i] + [s[i]] + s[i + 1..];
    s[..i] + s[i + 1..]
  }

  lemma {:induction false} RemoveInserted(s: string, i: nat, ch: char)
    requires i <= |s|
    ensures RemoveAt(Insert(s, i, [ch]), i) == s
  {
    var t := Insert(s, i, [ch]);
    assert t[..i] + t[i + 1..] == s[..i] + s[i..];
    assert s[..i] + s[i..] == s;
  }
}
