/** The process-wide lock, the one-time engine initialisation and the engine handles
    that ReadImage opens and closes, recorded as a log of events and checked by a
    small state machine. */
module ResourceLog {

  datatype Option<T> = None | Some(value: T)

  /** The engine objects a call holds: the document, page 0 of it, the render bitmap. */
  datatype Handle = Document | Page | Bitmap

  datatype Event =
    | Lock                       // enter the critical section
    | Unlock                     // leave it
    | InitLibrary                // FPDF_InitLibrary
    | Acquire(handle: Handle)    // a handle is returned by the engine
    | Release(handle: Handle)    // the handle is closed or destroyed

  /** What the discipline has to remember: is the lock held, has the engine been
      initialised, and which handles are live, oldest first. */
  datatype Monitor = Monitor(held: bool, inited: bool, live: seq<Handle>)

  /** Process start: lock free, engine not initialised, nothing open. */
  const Start: Monitor := Monitor(false, false, [])

  /** Between calls: the lock is free and no handle is open. */
  predicate Idle(m: Monitor) {
    !m.held && m.live == []
  }

  /** The discipline, one event at a time; None is a violation.
      - the lock is taken only when free, and given back only with no handle open;
      - initialisation happens under the lock and only once;
      - a handle is acquired under the lock, after initialisation, never twice at
        once, and a page only while its document is open;
      - a handle is released under the lock, and only the most recently acquired
        live one (reverse order of acquisition). */
  function Step(m: Monitor, ev: Event): Option<Monitor> {
    match ev
    case Lock =>
      if !m.held then Some(m.(held := true)) else None
    case Unlock =>
      if m.held && m.live == [] then Some(m.(held := false)) else None
    case InitLibrary =>
      if m.held && !m.inited then Some(m.(inited := true)) else None
    case Acquire(h) =>
      if m.held && m.inited && h !in m.live && (h == Page ==> Document in m.live)
      then Some(m.(live := m.live + [h]))
      else None
    case Release(h) =>
      if m.held && m.live != [] && m.live[|m.live| - 1] == h
      then Some(m.(live := m.live[..|m.live| - 1]))
      else None
  }

  /** Runs the discipline over a whole log, from its first event to its last. */
  function Run(m: Monitor, log: seq<Event>): Option<Monitor>
    decreases |log|
  {
    if log == [] then Some(m)
    else
      match Run(m, log[..|log| - 1])
      case None => None
      case Some(m') => Step(m', log[|log| - 1])
  }

  lemma {:induction false} RunAppend(m: Monitor, a: seq<Event>, b: seq<Event>)
    ensures Run(m, a + b) == match Run(m, a) case None => None case Some(m') => Run(m', b)
    decreases |b|
  {
    if b == [] {
      assert a + b == a;
    } else {
      assert (a + b)[..|a + b| - 1] == a + b[..|b| - 1];
      assert (a + b)[|a + b| - 1] == b[|b| - 1];
      RunAppend(m, a, b[..|b| - 1]);
    }
  }

  lemma {:induction false} RunPrefix(m: Monitor, log: seq<Event>, k: nat)
    requires Run(m, log).Some?
    requires k <= |log|
    ensures Run(m, log[..k]).Some?
    decreases |log| - k
  {
    if k < |log| {
      RunPrefix(m, log[..|log| - 1], k);
      assert log[..|log| - 1][..k] == log[..k];
    } else {
      assert log[..k] == log;
    }
  }

  /** Net number of times the lock has been taken in a log. */
  function LockDepth(log: seq<Event>): int {
    multiset(log)[Lock] as int - multiset(log)[Unlock] as int
  }

  predicate Distinct(hs: seq<Handle>) {
    forall i, j :: 0 <= i < j < |hs| ==> hs[i] != hs[j]
  }

  /** What a log accepted from Start says about the counts of its events. */
  ghost predicate Consistent(log: seq<Event>, m: Monitor) {
    && m.inited == (InitLibrary in log)
    && multiset(log)[InitLibrary] == (if m.inited then 1 else 0)
    && LockDepth(log) == (if m.held then 1 else 0)
    && (!m.held ==> m.live == [])
    && Distinct(m.live)
    && (forall h: Handle :: multiset(log)[Acquire(h)] as int - multiset(log)[Release(h)] as int == (if h in m.live then 1 else 0))
  }

  lemma PopDistinct(live: seq<Handle>)
    requires live != [] && Distinct(live)
    ensures Distinct(live[..|live| - 1])
    ensures live[|live| - 1] !in live[..|live| - 1]
    ensures forall h :: h in live <==> h in live[..|live| - 1] || h == live[|live| - 1]
  {
    assert live == live[..|live| - 1] + [live[|live| - 1]];
  }

  lemma PushDistinct(live: seq<Handle>, h: Handle)
    requires Distinct(live) && h !in live
    ensures Distinct(live + [h])
    ensures forall g :: g in live + [h] <==> g in live || g == h
  {
  }

  lemma {:induction false} RunConsistent(log: seq<Event>, m: Monitor)
    requires Run(Start, log) == Some(m)
    ensures Consistent(log, m)
    decreases |log|
  {
    if log != [] {
      var prefix, ev := log[..|log| - 1], log[|log| - 1];
      assert log == prefix + [ev];
      var m' := Run(Start, prefix).value;
      RunConsistent(prefix, m');
      assert multiset(log) == multiset(prefix) + multiset{ev};
      match ev
      case Acquire(h) =>
        PushDistinct(m'.live, h);
      case Release(h) =>
        PopDistinct(m'.live);
      case _ =>
    }
  }

  /** Over any sequence of calls, the engine is initialised at most once. */
  lemma InitAtMostOnce(log: seq<Event>)
    requires Run(Start, log).Some?
    ensures multiset(log)[InitLibrary] <= 1
  {
    RunConsistent(log, Run(Start, log).value);
  }

  /** Every event happens inside the critical section, except taking the lock,
      which happens outside it: the lock is never taken twice, never given back
      when free, and initialisation and all handle traffic happen while it is held. */
  lemma InsideCriticalSection(log: seq<Event>, i: nat)
    requires Run(Start, log).Some?
    requires i < |log|
    ensures LockDepth(log[..i]) == if log[i] == Lock then 0 else 1
  {
    RunPrefix(Start, log, i + 1);
    var before := log[..i + 1][..i];
    assert before == log[..i];
    assert log[..i + 1][i] == log[i];
    RunConsistent(log[..i], Run(Start, log[..i]).value);
  }

  /** No handle is acquired before the engine has been initialised. */
  lemma InitBeforeAnyHandle(log: seq<Event>, i: nat)
    requires Run(Start, log).Some?
    requires i < |log| && log[i].Acquire?
    ensures InitLibrary in log[..i]
  {
    RunPrefix(Start, log, i + 1);
    assert log[..i + 1][..i] == log[..i];
    assert log[..i + 1][i] == log[i];
    RunConsistent(log[..i], Run(Start, log[..i]).value);
  }

  /** Between calls, every handle ever acquired has been released exactly as many
      times, and the lock has been given back as often as it was taken. */
  lemma IdleMeansBalanced(log: seq<Event>, h: Handle)
    requires Run(Start, log).Some? && Idle(Run(Start, log).value)
    ensures multiset(log)[Acquire(h)] == multiset(log)[Release(h)]
    ensures multiset(log)[Lock] == multiset(log)[Unlock]
  {
    RunConsistent(log, Run(Start, log).value);
  }

  /** The handle events of one call: acquire the first handle, do the rest inside
      it, release the first handle last. */
  function Bracket(hs: seq<Handle>): (r: seq<Event>)
    ensures |r| == 2 * |hs|
  {
    if hs == [] then [] else [Acquire(hs[0])] + Bracket(hs[1..]) + [Release(hs[0])]
  }

  /** How often one event occurs in a bracket of distinct handles. */
  lemma {:induction false} BracketCount(hs: seq<Handle>, ev: Event)
    requires Distinct(hs)
    ensures multiset(Bracket(hs))[ev] == if (ev.Acquire? || ev.Release?) && ev.handle in hs then 1 else 0
  {
    if hs != [] {
      var first, rest := hs[0], hs[1..];
      assert hs == [first] + rest;
      assert Distinct(rest);
      BracketCount(rest, ev);
      assert multiset(Bracket(hs)) == multiset{Acquire(first)} + multiset(Bracket(rest)) + multiset{Release(first)};
    }
  }

  /** A bracket of distinct handles takes no lock and initialises nothing, and
      acquires and releases each of its handles exactly once. */
  lemma BracketCounts(hs: seq<Handle>)
    requires Distinct(hs)
    ensures multiset(Bracket(hs))[Lock] == 0 && multiset(Bracket(hs))[Unlock] == 0
    ensures multiset(Bracket(hs))[InitLibrary] == 0
    ensures forall h: Handle :: multiset(Bracket(hs))[Acquire(h)] == (if h in hs then 1 else 0)
    ensures forall h: Handle :: multiset(Bracket(hs))[Release(h)] == (if h in hs then 1 else 0)
  {
    BracketCount(hs, Lock);
    BracketCount(hs, Unlock);
    BracketCount(hs, InitLibrary);
    forall h: Handle
      ensures multiset(Bracket(hs))[Acquire(h)] == (if h in hs then 1 else 0)
      ensures multiset(Bracket(hs))[Release(h)] == (if h in hs then 1 else 0)
    {
      BracketCount(hs, Acquire(h));
      BracketCount(hs, Release(h));
    }
  }

  /** A list of handles that can be acquired in order given the live ones. */
  predicate Acquirable(live: seq<Handle>, hs: seq<Handle>)
    decreases |hs|
  {
    hs == [] ||
    (hs[0] !in live && (hs[0] == Page ==> Document in live) && Acquirable(live + [hs[0]], hs[1..]))
  }

  lemma RunSingle(m: Monitor, ev: Event)
    ensures Run(m, [ev]) == Step(m, ev)
  {
    assert [ev][..0] == [];
  }

  /** A bracket of acquirable handles, run under the held lock after
      initialisation, leaves the discipline where it found it. */
  lemma {:induction false} BracketRestores(m: Monitor, hs: seq<Handle>)
    requires m.held && m.inited && Acquirable(m.live, hs)
    ensures Run(m, Bracket(hs)) == Some(m)
    decreases |hs|
  {
    if hs != [] {
      var h := hs[0];
      var inner := m.(live := m.live + [h]);
      RunSingle(m, Acquire(h));
      BracketRestores(inner, hs[1..]);
      RunAppend(m, [Acquire(h)], Bracket(hs[1..]));
      RunSingle(inner, Release(h));
      assert inner.live[..|inner.live| - 1] == m.live;
      RunAppend(m, [Acquire(h)] + Bracket(hs[1..]), [Release(h)]);
    }
  }
}
