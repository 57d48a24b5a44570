/**
  The console's signal table: four handler slots, one per signal, indexed by
  the integer constants of the program and selected by name in `connect`.
  A handler is an opaque identity (the C function pointer); an empty slot is
  the null pointer.
 */
module Signals {
  import opened Text

  datatype Signal = Activate | Complete | HistoryNext | HistoryPrev

  /** The slot index of each signal (__SIGNAL_ACTIVATE__ and friends). */
  function Index(s: Signal): (r: nat)
    ensures r < 4
  {
    match s
    case Activate => 0
    case Complete => 1
    case HistoryNext => 2
    case HistoryPrev => 3
  }

  /** The signal whose slot is `i`. */
  function SignalAt(i: nat): (r: Signal)
    requires i < 4
    ensures Index(r) == i
  {
    if i == 0 then Activate
    else if i == 1 then Complete
    else if i == 2 then HistoryNext
    else HistoryPrev
  }

  /** Distinct signals own distinct slots, and every slot has its signal. */
  lemma IndexBijective(s: Signal, t: Signal)
    ensures Index(s) == Index(t) <==> s == t
    ensures SignalAt(Index(s)) == s
  {
  }

  /** The name under which `connect` selects the signal's slot. */
  function Name(s: Signal): string
  {
    match s
    case Activate => "activate"
    case Complete => "complete"
    case HistoryNext => "history-next"
    case HistoryPrev => "history-prev"
  }

  /** The signal a name selects, if any; every other name selects nothing. */
  function Parse(name: string): (r: Option<Signal>)
    ensures r.Some? ==> Name(r.value) == name
  {
    if name == "activate" then Some(Activate)
    else if name == "complete" then Some(Complete)
    else if name == "history-next" then Some(HistoryNext)
    else if name == "history-prev" then Some(HistoryPrev)
    else None
  }

  /** Names and signals correspond one to one: parsing a signal's name gives
      the signal back, and a name is recognised exactly when it is one of
      the four names. */
  lemma ParseName(s: Signal, name: string)
    ensures Parse(Name(s)) == Some(s)
    ensures Parse(name) == Some(s) <==> name == Name(s)
  {
  }

  type HandlerId = nat

  /** The four slots, in index order; None is the null pointer. */
  type Table = t: seq<Option<HandlerId>> | |t| == 4 witness [None, None, None, None]

  /** The table the constructor sets up: every slot null. */
  const Empty: Table := [None, None, None, None]

  /** The handler connected to `s`, if any. */
  function Lookup(t: Table, s: Signal): Option<HandlerId>
  {
    t[Index(s)]
  }

  /** `connect`: stores `handler` in the slot the name selects; a name that
      selects no slot leaves the table as it is. Passing None models
      connecting a null pointer, which empties the slot. */
  function Connect(t: Table, name: string, handler: Option<HandlerId>): (r: Table)
    ensures Parse(name).None? ==> r == t
    ensures Parse(name).Some? ==>
      && r[Index(Parse(name).value)] == handler
      && forall i :: 0 <= i < 4 && i != Index(Parse(name).value) ==> r[i] == t[i]
  {
    if name == "activate" then t[0 := handler]
    else if name == "complete" then t[1 := handler]
    else if name == "history-next" then t[2 := handler]
    else if name == "history-prev" then t[3 := handler]
    else t
  }

  /** After `connect`, the named signal answers with the new handler and
      every other signal with its old one. */
  lemma ConnectLookup(t: Table, name: string, handler: Option<HandlerId>, s: Signal)
    ensures Lookup(Connect(t, name, handler), s) ==
      if Parse(name) == Some(s) then handler else Lookup(t, s)
  {
    if Parse(name).Some? {
      IndexBijective(s, Parse(name).value);
    }
  }

  /** Connecting the same name twice keeps only the second handler. */
  lemma ConnectLastWins(t: Table, name: string, h1: Option<HandlerId>, h2: Option<HandlerId>)
    ensures Connect(Connect(t, name, h1), name, h2) == Connect(t, name, h2)
  {
  }

  /** Connections under different names do not interfere: their order does
      not matter. */
  lemma ConnectCommutes(t: Table, n1: string, h1: Option<HandlerId>, n2: string, h2: Option<HandlerId>)
    requires n1 != n2
    ensures Connect(Connect(t, n1, h1), n2, h2) == Connect(Connect(t, n2, h2), n1, h1)
  {
  }
}
