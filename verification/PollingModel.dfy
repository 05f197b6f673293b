/** Value changes waiting to be serviced, and the process that services them, as functions. */
module PollingModel {

  // ----- the change list

  /** A change is put in front, unless it is already waiting. */
  function Push<T(==)>(pending: seq<T>, h: T): seq<T> {
    if h in pending then pending else [h] + pending
  }

  function PushAll<T(==)>(pending: seq<T>, hs: seq<T>): seq<T> {
    if hs == [] then pending else Push(PushAll(pending, hs[..|hs| - 1]), hs[|hs| - 1])
  }

  predicate Distinct<T(==)>(s: seq<T>) {
    forall i, j | 0 <= i < j < |s| :: s[i] != s[j]
  }

  /** The changes raised inside the first notification, and those inside the later ones. */
  function First<T>(script: seq<seq<T>>): seq<T> {
    if script == [] then [] else script[0]
  }

  function Later<T>(script: seq<seq<T>>): seq<seq<T>> {
    if script == [] then [] else script[1..]
  }

  /** What one run of the drain loop notifies, when the k-th notification itself raises script[k]. */
  function Drain<T(==)>(pending: seq<T>, script: seq<seq<T>>): seq<T>
    decreases |script|, |pending|
  {
    if pending == [] then []
    else [pending[0]] + Drain(PushAll(pending[1..], First(script)), Later(script))
  }

  /** served has been notified, pending is waiting and rest is still to be raised. */
  ghost predicate Serving<T>(start: seq<T>, script: seq<seq<T>>, served: seq<T>, pending: seq<T>, rest: seq<seq<T>>) {
    Drain(start, script) == served + Drain(pending, rest)
  }

  lemma ServingStep<T>(start: seq<T>, script: seq<seq<T>>, served: seq<T>, pending: seq<T>, rest: seq<seq<T>>)
    requires pending != [] && Serving(start, script, served, pending, rest)
    ensures Serving(start, script, served + [pending[0]], PushAll(pending[1..], First(rest)), Later(rest))
  {
    var tail := Drain(PushAll(pending[1..], First(rest)), Later(rest));
    assert served + ([pending[0]] + tail) == served + [pending[0]] + tail;
  }

  lemma {:induction false} PushAllKeeps<T>(pending: seq<T>, hs: seq<T>, x: T)
    ensures x in PushAll(pending, hs) <==> x in pending || x in hs
    ensures Distinct(pending) ==> Distinct(PushAll(pending, hs))
  {
    if hs != [] {
      PushAllKeeps(pending, hs[..|hs| - 1], x);
      assert hs == hs[..|hs| - 1] + [hs[|hs| - 1]];
    }
  }

  /** Without changes from inside, each waiting entry is notified once, newest first. */
  lemma {:induction false} QuietDrain<T>(pending: seq<T>)
    ensures Drain(pending, []) == pending
  {
    if pending != [] {
      assert PushAll(pending[1..], []) == pending[1..];
      QuietDrain(pending[1..]);
    }
  }

  /** Whatever waits is notified before the loop ends. */
  lemma {:induction false} WaitingIsNotified<T>(pending: seq<T>, script: seq<seq<T>>, x: T)
    requires x in pending
    ensures x in Drain(pending, script)
    decreases |script|, |pending|
  {
    if x != pending[0] {
      assert pending == [pending[0]] + pending[1..];
      PushAllKeeps(pending[1..], First(script), x);
      WaitingIsNotified(PushAll(pending[1..], First(script)), Later(script), x);
    }
  }

  /** A change raised inside a notification is notified by a later one, before the loop ends. */
  lemma {:induction false} RaisedIsNotified<T>(pending: seq<T>, script: seq<seq<T>>, k: nat, x: T)
    requires k < |Drain(pending, script)| && k < |script| && x in script[k]
    ensures x in Drain(pending, script)[k + 1..]
    decreases k
  {
    var next := PushAll(pending[1..], First(script));
    assert Drain(pending, script)[1..] == Drain(next, Later(script));
    if k == 0 {
      PushAllKeeps(pending[1..], First(script), x);
      WaitingIsNotified(next, Later(script), x);
    } else {
      RaisedIsNotified(next, Later(script), k - 1, x);
      assert Drain(pending, script)[k + 1..] == Drain(next, Later(script))[k..];
    }
  }

  /** Nothing is notified that did not wait at the start and was not raised by an earlier notification. */
  lemma {:induction false} NotifiedHasCause<T>(pending: seq<T>, script: seq<seq<T>>, m: nat)
    requires m < |Drain(pending, script)|
    ensures var x := Drain(pending, script)[m];
            x in pending || exists k | 0 <= k < m && k < |script| :: x in script[k]
    decreases m
  {
    if m > 0 {
      var x := Drain(pending, script)[m];
      var next := PushAll(pending[1..], First(script));
      NotifiedHasCause(next, Later(script), m - 1);
      PushAllKeeps(pending[1..], First(script), x);
      if x in next {
        assert x in First(script) ==> 0 < |script| && x in script[0];
      } else {
        var k :| 0 <= k < m - 1 && k < |Later(script)| && x in Later(script)[k];
        assert x in script[k + 1];
      }
    }
  }

  // ----- the waking process, in any interleaving

  /** The process that waits for the notifier: not yet set up, waiting for it to toggle, woken but not
      yet running, or in the drain loop. */
  datatype Waker = Absent | Waiting | Woken | Draining

  /** fatal: the report that there is no notifier to toggle has been made.  By default that report ends the
      simulation; what follows it here is a run told to go on. */
  datatype System<T> = System(pending: seq<T>, waker: Waker, notified: seq<T>, fatal: bool)

  datatype Event<T> = Change(h: T) | SetUp | Run | Notify | Finish

  /** One event; one that is not possible leaves everything as it is.  A toggle of the notifier is seen
      only by a process that waits for it. */
  function After<T(==)>(s: System<T>, e: Event<T>): System<T> {
    match e
    case Change(h) =>
      s.(pending := Push(s.pending, h),
         waker := if s.pending == [] && s.waker.Waiting? then Woken else s.waker,
         fatal := s.fatal || (s.pending == [] && s.waker.Absent?))
    case SetUp => if s.waker.Absent? then s.(waker := Waiting) else s
    case Run => if s.waker.Woken? then s.(waker := Draining) else s
    case Notify =>
      if s.waker.Draining? && s.pending != []
      then s.(pending := s.pending[1..], notified := s.notified + [s.pending[0]]) else s
    case Finish => if s.waker.Draining? && s.pending == [] then s.(waker := Waiting) else s
  }

  function Trace<T(==)>(es: seq<Event<T>>): System<T> {
    if es == [] then System([], Absent, [], false) else After(Trace(es[..|es| - 1]), es[|es| - 1])
  }

  /** What waits is about to be serviced. */
  predicate Attended<T(==)>(s: System<T>) {
    s.pending != [] ==> s.waker.Woken? || s.waker.Draining?
  }

  /** A change is reported before the notifier has been set up. */
  predicate ChangeBeforeSetUp<T(==)>(es: seq<Event<T>>) {
    es != [] && (ChangeBeforeSetUp(es[..|es| - 1]) || (es[|es| - 1].Change? && SetUp !in es[..|es| - 1]))
  }

  lemma {:induction false} AbsentUntilSetUp<T>(es: seq<Event<T>>)
    ensures Trace(es).waker.Absent? <==> SetUp !in es
  {
    if es != [] {
      AbsentUntilSetUp(es[..|es| - 1]);
      assert es == es[..|es| - 1] + [es[|es| - 1]];
    }
  }

  lemma {:induction false} TraceShape<T>(es: seq<Event<T>>)
    ensures var s := Trace(es);
            && Distinct(s.pending)
            && (s.waker.Absent? ==> s.notified == [])
            && (s.fatal <==> ChangeBeforeSetUp(es))
            && if ChangeBeforeSetUp(es)
               then s.pending != [] && s.notified == [] && (s.waker.Absent? || s.waker.Waiting?)
               else (s.waker.Woken? ==> s.pending != []) && (s.waker.Absent? || s.waker.Waiting? ==> s.pending == [])
  {
    if es != [] {
      TraceShape(es[..|es| - 1]);
      AbsentUntilSetUp(es[..|es| - 1]);
    }
  }

  /** No wake-up is lost, in any interleaving once the notifier is set up, exactly when no change was
      reported before that, which is exactly when no fatal report was made.  If a change was, and the run goes on
      past the report, nothing is ever notified. */
  lemma NoLostWakeUp<T>(es: seq<Event<T>>)
    ensures Trace(es).fatal <==> ChangeBeforeSetUp(es)
    ensures SetUp in es ==> (Attended(Trace(es)) <==> !ChangeBeforeSetUp(es))
    ensures ChangeBeforeSetUp(es) ==> Trace(es).notified == []
    ensures Distinct(Trace(es).pending)
  {
    TraceShape(es);
    AbsentUntilSetUp(es);
  }

  lemma {:induction false} EarlyStaysEarly<T>(es: seq<Event<T>>, more: seq<Event<T>>)
    requires ChangeBeforeSetUp(es)
    ensures ChangeBeforeSetUp(es + more)
  {
    if more == [] {
      assert es + more == es;
    } else {
      EarlyStaysEarly(es, more[..|more| - 1]);
      assert (es + more)[..|es + more| - 1] == es + more[..|more| - 1];
    }
  }

  /** A change, then the set-up, then anything: the change waits for ever, and so does every later one. */
  lemma EarlyChangeIsLost<T>(h: T, es: seq<Event<T>>)
    ensures var s := Trace([Change(h), SetUp] + es);
            s.fatal && s.pending != [] && s.notified == [] && s.waker.Waiting?
  {
    var early := [Change(h), SetUp];
    assert early[..1] == [Change(h)] && early[..1][..0] == [];
    assert ChangeBeforeSetUp(early[..1]);
    EarlyStaysEarly(early, es);
    TraceShape(early + es);
    AbsentUntilSetUp(early + es);
    assert (early + es)[1] == SetUp;
  }

  function Drainage<T>(n: nat): seq<Event<T>> {
    if n == 0 then [Finish] else [Notify] + Drainage(n - 1)
  }

  function Then<T(==)>(s: System<T>, es: seq<Event<T>>): System<T>
    decreases |es|
  {
    if es == [] then s else Then(After(s, es[0]), es[1..])
  }

  lemma {:induction false} DrainageEmpties<T>(s: System<T>)
    requires s.waker.Draining?
    ensures Then(s, Drainage(|s.pending|)) == System([], Waiting, s.notified + s.pending, s.fatal)
    decreases |s.pending|
  {
    var es := Drainage<T>(|s.pending|);
    if s.pending == [] {
      assert es[1..] == [];
      assert s.notified + s.pending == s.notified;
    } else {
      var t := After(s, Notify);
      DrainageEmpties(t);
      assert es[1..] == Drainage(|t.pending|);
      assert t.notified + t.pending == s.notified + s.pending;
    }
  }

  /** Attended changes do get serviced: left alone, the woken process notifies each of them once, newest
      first, and goes back to waiting. */
  lemma AttendedIsServiced<T>(s: System<T>)
    requires Attended(s) && s.pending != []
    ensures Then(s, [Run] + Drainage(|s.pending|)) == System([], Waiting, s.notified + s.pending, s.fatal)
  {
    var es := [Run] + Drainage<T>(|s.pending|);
    assert es[1..] == Drainage(|s.pending|);
    DrainageEmpties(After(s, Run));
  }

  // ----- probes made while the simulation runs

  /** What happens to the testbench: it asks for the probe of a path, whose signal is found or not, or there is an
      event, in which a changed signal is known by the key of its probe. */
  datatype Happening = Probing(path: string, located: bool) | Happens(e: Event<nat>)

  /** The keys given out, the paths that have a probe, and the keys of the signals that are watched. */
  datatype Probes = Probes(count: nat, paths: set<string>, keys: set<nat>)

  function Probed(r: Probes, path: string, located: bool): Probes {
    if path in r.paths then r
    else if !located then r.(count := r.count + 2)
    else Probes(r.count + 2, r.paths + {path}, r.keys + {r.count + 1})
  }

  /** The simulator reports changes only of signals that are watched. */
  predicate Possible(r: Probes, e: Event<nat>) {
    e.Change? ==> e.h in r.keys
  }

  datatype Bench = Bench(probes: Probes, system: System<nat>)

  function BenchAfter(b: Bench, h: Happening): Bench {
    match h
    case Probing(path, located) => b.(probes := Probed(b.probes, path, located))
    case Happens(e) => if Possible(b.probes, e) then b.(system := After(b.system, e)) else b
  }

  function BenchOf(hs: seq<Happening>): Bench {
    if hs == [] then Bench(Probes(0, {}, {}), Trace([])) else BenchAfter(BenchOf(hs[..|hs| - 1]), hs[|hs| - 1])
  }

  lemma BenchMore(hs: seq<Happening>, i: nat)
    requires i < |hs|
    ensures BenchOf(hs[..i + 1]) == BenchAfter(BenchOf(hs[..i]), hs[i])
  {
    assert hs[..i + 1][..i] == hs[..i];
  }

  /** The events that come to the change list. */
  function Events(hs: seq<Happening>): seq<Event<nat>> {
    if hs == [] then []
    else
      var before, h := hs[..|hs| - 1], hs[|hs| - 1];
      Events(before) + if h.Happens? && Possible(BenchOf(before).probes, h.e) then [h.e] else []
  }

  /** Making probes comes between the events and changes nothing for them. */
  lemma {:induction false} BenchIsTrace(hs: seq<Happening>)
    ensures BenchOf(hs).system == Trace(Events(hs))
  {
    if hs != [] {
      var before, h := hs[..|hs| - 1], hs[|hs| - 1];
      BenchIsTrace(before);
      if h.Happens? && Possible(BenchOf(before).probes, h.e) {
        assert (Events(before) + [h.e])[..|Events(before)|] == Events(before);
      } else {
        assert Events(before) + [] == Events(before);
      }
    }
  }

  /** Only a signal that a probe was made for can change. */
  lemma {:induction false} ChangesAreWatched(hs: seq<Happening>, k: nat)
    requires Change(k) in Events(hs)
    ensures k in BenchOf(hs).probes.keys && exists path :: Probing(path, true) in hs
  {
    var before, h := hs[..|hs| - 1], hs[|hs| - 1];
    assert hs == before + [h];
    if Change(k) in Events(before) {
      ChangesAreWatched(before, k);
    } else {
      WatchedWasMade(before, k);
    }
  }

  lemma {:induction false} WatchedWasMade(hs: seq<Happening>, k: nat)
    requires k in BenchOf(hs).probes.keys
    ensures exists path :: Probing(path, true) in hs
  {
    var before, h := hs[..|hs| - 1], hs[|hs| - 1];
    assert hs == before + [h];
    if k in BenchOf(before).probes.keys { WatchedWasMade(before, k); }
  }

  lemma {:induction false} EventsAdd(hs: seq<Happening>, later: seq<Happening>) returns (more: seq<Event<nat>>)
    ensures Events(hs + later) == Events(hs) + more
  {
    if later == [] {
      assert hs + later == hs;
      more := [];
      assert Events(hs) + more == Events(hs);
    } else {
      var n := |later| - 1;
      var before := EventsAdd(hs, later[..n]);
      assert (hs + later)[..|hs + later| - 1] == hs + later[..n];
      more := before + Events(hs + later)[|Events(hs + later[..n])|..];
    }
  }

  /** A probe is made and its signal changes before the notifier is set up: whatever happens afterwards, nothing is
      ever notified. */
  lemma EarlyProbeIsLost(path: string, later: seq<Happening>)
    ensures var s := BenchOf([Probing(path, true), Happens(Change(1)), Happens(SetUp)] + later).system;
            s.fatal && s.pending != [] && s.notified == []
  {
    var early := [Probing(path, true), Happens(Change(1)), Happens(SetUp)];
    assert early[..2] == [Probing(path, true), Happens(Change(1))] && early[..1] == [Probing(path, true)];
    assert early[..2][..1] == early[..1] && early[..1][..0] == [];
    assert Events(early[..1]) == [] && BenchOf(early[..1]).probes.keys == {1};
    assert Events(early[..2]) == [Change(1)];
    assert Events(early) == [Change(1), SetUp];
    var more := EventsAdd(early, later);
    BenchIsTrace(early + later);
    EarlyChangeIsLost(1, more);
  }
}
