/** The order in which changes are notified, said of the events alone. */
module PollingOrder {
  import opened PollingModel

  predicate WaitsAt<T(==)>(es: seq<Event<T>>, h: T, l: nat)
    requires l <= |es|
  {
    h in Trace(es[..l]).pending
  }

  /** Signal h waits since event k: that is a change of it, it was not waiting before, and it has been ever since. */
  ghost predicate WaitsSince<T>(es: seq<Event<T>>, h: T, k: nat) {
    && k < |es| && es[k] == Change(h) && !WaitsAt(es, h, k)
    && forall l | k < l <= |es| :: WaitsAt(es, h, l)
  }

  lemma WaitsBefore<T>(es: seq<Event<T>>, h: T, l: nat)
    requires l < |es|
    ensures WaitsAt(es[..|es| - 1], h, l) <==> WaitsAt(es, h, l)
  {
    assert es[..|es| - 1][..l] == es[..l];
  }

  lemma SinceBefore<T>(es: seq<Event<T>>, h: T, k: nat)
    requires k + 1 < |es|
    ensures WaitsSince(es, h, k) <==> WaitsSince(es[..|es| - 1], h, k) && WaitsAt(es, h, |es|)
  {
    var before := es[..|es| - 1];
    forall l: nat | l < |es| ensures WaitsAt(before, h, l) <==> WaitsAt(es, h, l) { WaitsBefore(es, h, l); }
    if WaitsSince(before, h, k) && WaitsAt(es, h, |es|) {
      forall l | k < l <= |es| ensures WaitsAt(es, h, l) { assert l < |es| ==> WaitsAt(before, h, l); }
    }
    if WaitsSince(es, h, k) {
      forall l | k < l <= |before| ensures WaitsAt(before, h, l) { assert WaitsAt(es, h, l); }
    }
  }

  lemma WaitsNow<T>(es: seq<Event<T>>, h: T)
    ensures WaitsAt(es, h, |es|) <==> h in Trace(es).pending
  {
    assert es[..|es|] == es;
  }

  /** Whatever waits has waited since some event. */
  lemma {:induction false} SinceWhen<T>(es: seq<Event<T>>, h: T) returns (k: nat)
    requires h in Trace(es).pending
    ensures WaitsSince(es, h, k)
  {
    var n := |es| - 1;
    WaitsNow(es, h);
    if h in Trace(es[..n]).pending {
      k := SinceWhen(es[..n], h);
      SinceBefore(es, h, k);
    } else {
      k := n;
    }
  }

  lemma StartedBefore<T>(es: seq<Event<T>>, h: T, k: nat, l: nat)
    requires WaitsSince(es, h, k) && l <= |es| && !WaitsAt(es, h, l)
    ensures l <= k
  {
  }

  /** Since when the waiting signals have waited, in the order of the list; event n is next. */
  function TimesAfter<T(==)>(s: System<T>, n: nat, ts: seq<nat>, e: Event<T>): seq<nat> {
    if e.Change? && e.h !in s.pending then [n] + ts
    else if e.Notify? && s.waker.Draining? && s.pending != [] && ts != [] then ts[1..]
    else ts
  }

  function Times<T(==)>(es: seq<Event<T>>): seq<nat> {
    if es == [] then []
    else
      var n := |es| - 1;
      TimesAfter(Trace(es[..n]), n, Times(es[..n]), es[n])
  }

  predicate GoDown(ts: seq<nat>, n: nat) {
    && (forall i | 0 <= i < |ts| :: ts[i] < n)
    && (forall i, j | 0 <= i < j < |ts| :: ts[j] < ts[i])
  }

  lemma StepGoesDown<T>(s: System<T>, n: nat, ts: seq<nat>, e: Event<T>)
    requires |ts| == |s.pending| && GoDown(ts, n)
    ensures |TimesAfter(s, n, ts, e)| == |After(s, e).pending| && GoDown(TimesAfter(s, n, ts, e), n + 1)
  {
  }

  lemma {:induction false} TimesGoDown<T>(es: seq<Event<T>>)
    ensures |Times(es)| == |Trace(es).pending| && GoDown(Times(es), |es|)
  {
    if es != [] {
      var n := |es| - 1;
      TimesGoDown(es[..n]);
      StepGoesDown(Trace(es[..n]), n, Times(es[..n]), es[n]);
    }
  }

  /** A waiting signal and its time, after one more event: both new, or both from the same place before. */
  lemma StepFrom<T>(s: System<T>, n: nat, ts: seq<nat>, e: Event<T>, i: nat) returns (at: int)
    requires |ts| == |s.pending| && i < |After(s, e).pending| == |TimesAfter(s, n, ts, e)|
    ensures var h, k := After(s, e).pending[i], TimesAfter(s, n, ts, e)[i];
            if at < 0 then e == Change(h) && h !in s.pending && k == n
            else at < |s.pending| && h == s.pending[at] && k == ts[at]
  {
    at := i + |s.pending| - |After(s, e).pending|;
  }

  lemma SinceNow<T>(es: seq<Event<T>>, h: T)
    requires es != [] && es[|es| - 1] == Change(h) && h !in Trace(es[..|es| - 1]).pending && h in Trace(es).pending
    ensures WaitsSince(es, h, |es| - 1)
  {
    WaitsNow(es, h);
  }

  lemma SinceStill<T>(es: seq<Event<T>>, h: T, k: nat)
    requires es != [] && WaitsSince(es[..|es| - 1], h, k) && h in Trace(es).pending
    ensures WaitsSince(es, h, k)
  {
    SinceBefore(es, h, k);
    WaitsNow(es, h);
  }

  lemma {:induction false} TimesAreRight<T>(es: seq<Event<T>>, i: nat)
    requires i < |Trace(es).pending|
    ensures |Times(es)| == |Trace(es).pending| && WaitsSince(es, Trace(es).pending[i], Times(es)[i])
  {
    var n := |es| - 1;
    TimesGoDown(es);
    TimesGoDown(es[..n]);
    var at := StepFrom(Trace(es[..n]), n, Times(es[..n]), es[n], i);
    var h := Trace(es).pending[i];
    if at < 0 {
      SinceNow(es, h);
    } else {
      TimesAreRight(es[..n], at);
      SinceStill(es, h, Times(es)[i]);
    }
  }

  lemma SinceOnce<T>(es: seq<Event<T>>, h: T, k: nat, l: nat)
    requires WaitsSince(es, h, k) && WaitsSince(es, h, l)
    ensures k == l
  {
    StartedBefore(es, h, k, l);
    StartedBefore(es, h, l, k);
  }

  /** In every interleaving, of two signals that wait the one nearer to the front, which is notified first, is the one
      that has waited for the shorter time. */
  lemma NewestFirst<T>(es: seq<Event<T>>, i: nat, j: nat, since: nat, older: nat)
    requires i < j < |Trace(es).pending|
    requires WaitsSince(es, Trace(es).pending[i], since) && WaitsSince(es, Trace(es).pending[j], older)
    ensures older < since
  {
    TimesGoDown(es);
    TimesAreRight(es, i);
    TimesAreRight(es, j);
    SinceOnce(es, Trace(es).pending[i], since, Times(es)[i]);
    SinceOnce(es, Trace(es).pending[j], older, Times(es)[j]);
  }

  // ----- a batch of changes

  function Changes<T>(hs: seq<T>): (es: seq<Event<T>>)
    ensures |es| == |hs| && forall i | 0 <= i < |hs| :: es[i] == Change(hs[i])
  {
    seq(|hs|, i requires 0 <= i < |hs| => Change(hs[i]))
  }

  function Notifies<T>(n: nat): (es: seq<Event<T>>)
    ensures |es| == n && forall i | 0 <= i < n :: es[i] == Notify
  {
    seq(n, _ => Notify)
  }

  /** r is s from the last to the first. */
  predicate Backwards<T(==)>(r: seq<T>, s: seq<T>) {
    |r| == |s| && forall i | 0 <= i < |s| :: r[i] == s[|s| - 1 - i]
  }

  lemma TraceMore<T>(es: seq<Event<T>>, e: Event<T>)
    ensures Trace(es + [e]) == After(Trace(es), e)
  {
    assert (es + [e])[..|es|] == es;
  }

  lemma BackwardsMore<T>(r: seq<T>, s: seq<T>, h: T)
    requires Backwards(r, s)
    ensures Backwards([h] + r, s + [h])
    ensures h in r <==> h in s
  {
    if h in s {
      var i :| 0 <= i < |s| && s[i] == h;
      assert r[|s| - 1 - i] == s[i];
    }
  }

  ghost predicate Piled<T>(start: System<T>, hs: seq<T>, s: System<T>) {
    && Backwards(s.pending, hs) && s.notified == start.notified
    && (if hs == [] then s.waker.Waiting? else s.waker.Woken?)
  }

  lemma PileOne<T>(start: System<T>, hs: seq<T>, s: System<T>, h: T)
    requires Piled(start, hs, s) && h !in hs
    ensures Piled(start, hs + [h], After(s, Change(h)))
  {
    BackwardsMore(s.pending, hs, h);
  }

  lemma OneMoreChange<T>(es: seq<Event<T>>, hs: seq<T>)
    requires hs != []
    ensures es + Changes(hs) == es + Changes(hs[..|hs| - 1]) + [Change(hs[|hs| - 1])]
  {
  }

  lemma LastOfDistinct<T>(hs: seq<T>)
    requires hs != [] && Distinct(hs)
    ensures var n := |hs| - 1;
            Distinct(hs[..n]) && hs[n] !in hs[..n] && hs == hs[..n] + [hs[n]]
  {
  }

  lemma PileLast<T>(es: seq<Event<T>>, hs: seq<T>)
    requires hs != [] && Distinct(hs) && Piled(Trace(es), hs[..|hs| - 1], Trace(es + Changes(hs[..|hs| - 1])))
    ensures Piled(Trace(es), hs, Trace(es + Changes(hs)))
  {
    var front, last := hs[..|hs| - 1], hs[|hs| - 1];
    LastOfDistinct(hs);
    OneMoreChange(es, hs);
    TraceMore(es + Changes(front), Change(last));
    PileOne(Trace(es), front, Trace(es + Changes(front)), last);
  }

  lemma {:induction false} ChangesPile<T>(es: seq<Event<T>>, hs: seq<T>)
    requires Distinct(hs) && Trace(es).waker.Waiting? && Trace(es).pending == []
    ensures Piled(Trace(es), hs, Trace(es + Changes(hs)))
  {
    if hs == [] {
      assert es + Changes(hs) == es;
    } else {
      LastOfDistinct(hs);
      ChangesPile(es, hs[..|hs| - 1]);
      PileLast(es, hs);
    }
  }

  ghost predicate Served<T>(start: System<T>, n: nat, s: System<T>) {
    && n <= |start.pending| && s.waker.Draining?
    && s.pending == start.pending[n..] && s.notified == start.notified + start.pending[..n]
  }

  lemma ServeOne<T>(start: System<T>, n: nat, s: System<T>)
    requires n < |start.pending| && Served(start, n, s)
    ensures Served(start, n + 1, After(s, Notify))
  {
    assert start.pending[..n + 1] == start.pending[..n] + [start.pending[n]];
  }

  lemma {:induction false} NotifiesAll<T>(es: seq<Event<T>>, n: nat)
    requires Trace(es).waker.Draining? && n <= |Trace(es).pending|
    ensures Served(Trace(es), n, Trace(es + Notifies(n)))
  {
    if n == 0 {
      assert es + Notifies(0) == es;
    } else {
      NotifiesAll(es, n - 1);
      assert es + Notifies(n) == es + Notifies(n - 1) + [Notify];
      TraceMore(es + Notifies(n - 1), Notify);
      ServeOne(Trace(es), n - 1, Trace(es + Notifies(n - 1)));
    }
  }

  /** A batch of changes of different signals, found waiting for nothing else, is notified from the last to the
      first. */
  lemma BatchBackwards<T>(es: seq<Event<T>>, hs: seq<T>)
    requires hs != [] && Distinct(hs) && Trace(es).waker.Waiting? && Trace(es).pending == []
    ensures var s := Trace(es + Changes(hs) + [Run] + Notifies(|hs|));
            && s.pending == [] && |s.notified| == |Trace(es).notified| + |hs| && Trace(es).notified <= s.notified
            && forall i | 0 <= i < |hs| :: hs[i] == s.notified[|s.notified| - 1 - i]
  {
    ChangesPile(es, hs);
    TraceMore(es + Changes(hs), Run);
    NotifiesAll(es + Changes(hs) + [Run], |hs|);
  }

  /** Two signals that change one after the other: the second is notified first. */
  lemma SecondFirst<T>(g: T, h: T)
    requires g != h
    ensures Trace([SetUp, Change(g), Change(h), Run, Notify, Notify]).notified == [h, g]
  {
    var ready: seq<Event<T>> := [SetUp];
    TraceMore<T>([], SetUp);
    assert [] + ready == ready;
    BatchBackwards(ready, [g, h]);
    assert ready + Changes([g, h]) + [Run] + Notifies(2) == [SetUp, Change(g), Change(h), Run, Notify, Notify];
    var r := Trace([SetUp, Change(g), Change(h), Run, Notify, Notify]).notified;
    assert |r| == 2 && [g, h][0] == r[1] && [g, h][1] == r[0];
  }

  // ----- changes raised inside a notification

  lemma LastIsNew<T>(pending: seq<T>, hs: seq<T>)
    requires hs != [] && Distinct(pending + hs)
    ensures var n := |hs| - 1;
            hs[n] !in pending && hs[n] !in hs[..n] && Distinct(pending + hs[..n])
  {
    var all, n := pending + hs, |hs| - 1;
    assert all == (pending + hs[..n]) + [hs[n]];
    assert forall i | 0 <= i < |pending| :: pending[i] == all[i];
    assert forall i | 0 <= i < n :: hs[..n][i] == all[|pending| + i];
    assert hs[n] == all[|all| - 1];
  }

  lemma PileFront<T>(p: seq<T>, h: T, front: seq<T>, k: nat)
    requires k <= |p| && Backwards(p[..k], front)
    ensures Backwards(([h] + p)[..k + 1], front + [h]) && ([h] + p)[k + 1..] == p[k..]
  {
    assert ([h] + p)[..k + 1] == [h] + p[..k];
    BackwardsMore(p[..k], front, h);
  }

  lemma {:induction false} RaisedPile<T>(pending: seq<T>, hs: seq<T>)
    requires Distinct(pending + hs)
    ensures |PushAll(pending, hs)| == |hs| + |pending|
    ensures Backwards(PushAll(pending, hs)[..|hs|], hs) && PushAll(pending, hs)[|hs|..] == pending
  {
    if hs != [] {
      var front, last := hs[..|hs| - 1], hs[|hs| - 1];
      LastIsNew(pending, hs);
      RaisedPile(pending, front);
      PushAllKeeps(pending, front, last);
      PileFront(PushAll(pending, front), last, front, |front|);
      assert hs == front + [last];
    }
  }

  lemma DrainOne<T>(first: T, pending: seq<T>, hs: seq<T>)
    ensures Drain([first] + pending, [hs]) == [first] + PushAll(pending, hs)
  {
    assert ([first] + pending)[1..] == pending && [hs][1..] == [];
    QuietDrain(PushAll(pending, hs));
  }

  lemma SplitAgain<T>(p: seq<T>, n: nat)
    requires n <= |p|
    ensures p == p[..n] + p[n..]
  {
  }

  /** Changes that the first notification raises are notified next, from the last to the first, before whatever was
      waiting already. */
  lemma RaisedGoFirst<T>(first: T, pending: seq<T>, hs: seq<T>)
    requires Distinct(pending + hs)
    ensures var d := Drain([first] + pending, [hs]);
            && |d| == 1 + |hs| + |pending| && d[0] == first
            && (forall i | 0 <= i < |hs| :: hs[i] == d[|hs| - i])
            && d[1 + |hs|..] == pending
  {
    RaisedPile(pending, hs);
    DrainOne(first, pending, hs);
    SplitAgain(PushAll(pending, hs), |hs|);
  }
}
