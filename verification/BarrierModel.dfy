/** The barrier protocol as a state machine over named processes. */
module BarrierModel {

  type Pid = nat

  /** numWaiters is the barrier's count and eventWaiters its event's.  blocked are the processes suspended on
      the event the barrier now uses, in order of arrival, and stranded those on events it has dropped.
      batches are the groups set free, one for each trigger, the process that caused it last. */
  datatype Barrier = Barrier(threshold: int, numWaiters: int, atThreshold: bool, autoReset: bool,
                             eventWaiters: int, blocked: seq<Pid>, stranded: seq<Pid>, killed: seq<Pid>,
                             batches: seq<seq<Pid>>)

  datatype Op = WaitFor(p: Pid) | Cancel | Reset(wakeup: bool) | SetThreshold(t: int) | SetAutoReset(value: bool)
              | Kill(victim: Pid)

  function Start(threshold: int): Barrier {
    Barrier(threshold, 0, false, true, 0, [], [], [], [])
  }

  function Without(s: seq<Pid>, p: Pid): seq<Pid> {
    if s == [] then [] else if s[0] == p then s[1..] else [s[0]] + Without(s[1..], p)
  }

  /** The event wakes whoever is suspended on it; cause is the process that triggers it, if it was waiting too. */
  function Triggered(b: Barrier, cause: seq<Pid>): Barrier {
    b.(numWaiters := 0, eventWaiters := 0, blocked := [], batches := b.batches + [b.blocked + cause])
  }

  function AfterReset(b: Barrier, wakeup: bool): Barrier {
    if b.numWaiters == 0 then b.(atThreshold := false)
    else if wakeup then Triggered(b.(atThreshold := false), [])
    else b.(atThreshold := false, numWaiters := 0, eventWaiters := 0, blocked := [], stranded := b.stranded + b.blocked)
  }

  function AfterWait(b: Barrier, p: Pid): Barrier {
    if b.atThreshold then b.(batches := b.batches + [[p]])
    else if b.numWaiters + 1 >= b.threshold then Triggered(b.(atThreshold := !b.autoReset), [p])
    else b.(numWaiters := b.numWaiters + 1, eventWaiters := b.eventWaiters + 1, blocked := b.blocked + [p])
  }

  function AfterCancel(b: Barrier): Barrier {
    var left := if b.eventWaiters > 0 then b.eventWaiters - 1 else b.eventWaiters;
    b.(eventWaiters := left, numWaiters := left)
  }

  function After(b: Barrier, o: Op): Barrier {
    match o
    case WaitFor(p) => AfterWait(b, p)
    case Cancel => AfterCancel(b)
    case Reset(wakeup) => AfterReset(b, wakeup)
    case SetThreshold(t) => var c := b.(threshold := t); if t <= b.numWaiters then AfterReset(c, true) else c
    case SetAutoReset(value) => b.(atThreshold := false, autoReset := value)
    case Kill(p) => if p in b.blocked then b.(blocked := Without(b.blocked, p), killed := b.killed + [p]) else b
  }

  function Run(b: Barrier, os: seq<Op>): Barrier {
    if os == [] then b else After(Run(b, os[..|os| - 1]), os[|os| - 1])
  }

  // ----- counting, over every run

  /** The two counts agree, and are zero or below the threshold. */
  predicate CountsValid(b: Barrier) {
    && b.numWaiters == b.eventWaiters
    && (b.numWaiters == 0 || 0 < b.numWaiters < b.threshold)
    && (b.atThreshold ==> b.numWaiters == 0 && !b.autoReset)
  }

  lemma {:induction false} CountsStayValid(threshold: int, os: seq<Op>)
    ensures CountsValid(Run(Start(threshold), os))
  {
    if os != [] { CountsStayValid(threshold, os[..|os| - 1]); }
  }

  // ----- conservation, over every run

  function Arrivals(os: seq<Op>): seq<Pid> {
    if os == [] then []
    else Arrivals(os[..|os| - 1]) + (if os[|os| - 1].WaitFor? then [os[|os| - 1].p] else [])
  }

  function Freed(batches: seq<seq<Pid>>): seq<Pid> {
    if batches == [] then [] else Freed(batches[..|batches| - 1]) + batches[|batches| - 1]
  }

  lemma FreedMore(batches: seq<seq<Pid>>, batch: seq<Pid>)
    ensures Freed(batches + [batch]) == Freed(batches) + batch
  {
    assert (batches + [batch])[..|batches|] == batches;
  }

  lemma {:induction false} WithoutTakesOne(s: seq<Pid>, p: Pid)
    requires p in s
    ensures multiset(Without(s, p)) + multiset{p} == multiset(s)
    ensures |Without(s, p)| == |s| - 1
  {
    assert s == [s[0]] + s[1..];
    if s[0] != p { WithoutTakesOne(s[1..], p); }
  }

  function Accounted(b: Barrier): multiset<Pid> {
    multiset(Freed(b.batches)) + multiset(b.blocked) + multiset(b.stranded) + multiset(b.killed)
  }

  lemma TriggeredAccounts(b: Barrier, cause: seq<Pid>)
    ensures Accounted(Triggered(b, cause)) == Accounted(b) + multiset(cause)
  {
    FreedMore(b.batches, b.blocked + cause);
  }

  lemma ResetAccounts(b: Barrier, wakeup: bool)
    ensures Accounted(AfterReset(b, wakeup)) == Accounted(b)
  {
    if b.numWaiters != 0 && wakeup {
      TriggeredAccounts(b.(atThreshold := false), []);
    }
  }

  lemma WaitAccounts(b: Barrier, p: Pid)
    ensures Accounted(AfterWait(b, p)) == Accounted(b) + multiset{p}
  {
    if b.atThreshold {
      FreedMore(b.batches, [p]);
    } else if b.numWaiters + 1 >= b.threshold {
      TriggeredAccounts(b.(atThreshold := !b.autoReset), [p]);
    }
  }

  lemma KillAccounts(b: Barrier, p: Pid)
    ensures Accounted(After(b, Kill(p))) == Accounted(b)
  {
    if p in b.blocked { WithoutTakesOne(b.blocked, p); }
  }

  /** Everything but an arrival. */
  lemma OtherAccounts(b: Barrier, o: Op)
    requires !o.WaitFor?
    ensures Accounted(After(b, o)) == Accounted(b)
  {
    match o
    case Cancel =>
    case Reset(wakeup) => ResetAccounts(b, wakeup);
    case SetThreshold(t) => ResetAccounts(b.(threshold := t), true);
    case SetAutoReset(_) =>
    case Kill(p) => KillAccounts(b, p);
  }

  /** Every process that arrived is freed, suspended, stranded or killed, and only one of these. */
  lemma {:induction false} NobodyVanishes(threshold: int, os: seq<Op>)
    ensures Accounted(Run(Start(threshold), os)) == multiset(Arrivals(os))
  {
    if os != [] {
      var b, o := Run(Start(threshold), os[..|os| - 1]), os[|os| - 1];
      NobodyVanishes(threshold, os[..|os| - 1]);
      if o.WaitFor? { WaitAccounts(b, o.p); } else { OtherAccounts(b, o); }
    }
  }

  /** Nobody leaves a dropped event. */
  lemma {:induction false} StrandedForever(b: Barrier, os: seq<Op>)
    ensures b.stranded <= Run(b, os).stranded
  {
    if os != [] { StrandedForever(b, os[..|os| - 1]); }
  }

  /** A reset that does not wake leaves everyone who is suspended behind on the old event, if the count is not zero,
      and sets no one free. */
  lemma ResetStrandsAll(threshold: int, os: seq<Op>)
    ensures var b, c := Run(Start(threshold), os), Run(Start(threshold), os + [Reset(false)]);
            && Freed(c.batches) == Freed(b.batches) && c.batches == b.batches && c.killed == b.killed
            && !c.atThreshold && c.numWaiters == c.eventWaiters == 0
            && (if b.numWaiters == 0 then c.stranded == b.stranded && c.blocked == b.blocked
                else c.stranded == b.stranded + b.blocked && c.blocked == [])
  {
    assert (os + [Reset(false)])[..|os|] == os;
    CountsStayValid(threshold, os);
  }

  /** Where someone is stranded, and only there: at a reset that does not wake while the count is not zero. */
  ghost predicate StrandedAt(threshold: int, os: seq<Op>, k: nat, p: Pid)
    requires k < |os|
  {
    os[k] == Reset(false) && Run(Start(threshold), os[..k]).numWaiters != 0
    && p in Run(Start(threshold), os[..k]).blocked
  }

  lemma StrandedAtBefore(threshold: int, os: seq<Op>, k: nat, p: Pid)
    requires k + 1 < |os|
    ensures StrandedAt(threshold, os[..|os| - 1], k, p) <==> StrandedAt(threshold, os, k, p)
  {
    assert os[..|os| - 1][..k] == os[..k];
  }

  ghost predicate StrandedSometime(threshold: int, os: seq<Op>, p: Pid) {
    exists k: nat | k < |os| :: StrandedAt(threshold, os, k, p)
  }

  lemma StrandedMore(threshold: int, os: seq<Op>, p: Pid)
    requires os != []
    ensures StrandedSometime(threshold, os, p)
       <==> StrandedSometime(threshold, os[..|os| - 1], p) || StrandedAt(threshold, os, |os| - 1, p)
  {
    forall k: nat | k < |os| - 1
      ensures StrandedAt(threshold, os[..|os| - 1], k, p) <==> StrandedAt(threshold, os, k, p)
    {
      StrandedAtBefore(threshold, os, k, p);
    }
    if StrandedSometime(threshold, os, p) && !StrandedAt(threshold, os, |os| - 1, p) {
      var k: nat :| k < |os| && StrandedAt(threshold, os, k, p);
      assert StrandedAt(threshold, os[..|os| - 1], k, p);
    }
    if StrandedSometime(threshold, os[..|os| - 1], p) {
      var k: nat :| k < |os| - 1 && StrandedAt(threshold, os[..|os| - 1], k, p);
      assert StrandedAt(threshold, os, k, p);
    }
  }

  lemma StrandedNow(b: Barrier, o: Op, p: Pid)
    ensures p in After(b, o).stranded
       <==> p in b.stranded || (o == Reset(false) && b.numWaiters != 0 && p in b.blocked)
  {
  }

  lemma {:induction false} StrandedIff(threshold: int, os: seq<Op>, p: Pid)
    ensures p in Run(Start(threshold), os).stranded <==> exists k: nat | k < |os| :: StrandedAt(threshold, os, k, p)
  {
    if os != [] {
      StrandedIff(threshold, os[..|os| - 1], p);
      StrandedNow(Run(Start(threshold), os[..|os| - 1]), os[|os| - 1], p);
      StrandedMore(threshold, os, p);
    }
  }

  /** The calls that set someone free. */
  predicate Frees(b: Barrier, o: Op, p: Pid) {
    match o
    case WaitFor(q) =>
      if b.atThreshold then p == q else b.numWaiters + 1 >= b.threshold && (p == q || p in b.blocked)
    case Reset(wakeup) => wakeup && b.numWaiters != 0 && p in b.blocked
    case SetThreshold(t) => t <= b.numWaiters && b.numWaiters != 0 && p in b.blocked
    case _ => false
  }

  lemma FreedNow(b: Barrier, o: Op, p: Pid)
    ensures p in Freed(After(b, o).batches) <==> p in Freed(b.batches) || Frees(b, o, p)
  {
    var c := After(b, o);
    if c.batches != b.batches {
      FreedMore(b.batches, c.batches[|b.batches|]);
      assert c.batches == b.batches + [c.batches[|b.batches|]];
    }
  }

  ghost predicate FreedAt(threshold: int, os: seq<Op>, k: nat, p: Pid)
    requires k < |os|
  {
    Frees(Run(Start(threshold), os[..k]), os[k], p)
  }

  ghost predicate FreedSometime(threshold: int, os: seq<Op>, p: Pid) {
    exists k: nat | k < |os| :: FreedAt(threshold, os, k, p)
  }

  lemma FreedAtBefore(threshold: int, os: seq<Op>, k: nat, p: Pid)
    requires k + 1 < |os|
    ensures FreedAt(threshold, os[..|os| - 1], k, p) <==> FreedAt(threshold, os, k, p)
  {
    assert os[..|os| - 1][..k] == os[..k];
  }

  lemma FreedSometimeMore(threshold: int, os: seq<Op>, p: Pid)
    requires os != []
    ensures FreedSometime(threshold, os, p)
       <==> FreedSometime(threshold, os[..|os| - 1], p) || FreedAt(threshold, os, |os| - 1, p)
  {
    forall k: nat | k < |os| - 1
      ensures FreedAt(threshold, os[..|os| - 1], k, p) <==> FreedAt(threshold, os, k, p)
    {
      FreedAtBefore(threshold, os, k, p);
    }
    if FreedSometime(threshold, os, p) && !FreedAt(threshold, os, |os| - 1, p) {
      var k: nat :| k < |os| && FreedAt(threshold, os, k, p);
      assert FreedAt(threshold, os[..|os| - 1], k, p);
    }
    if FreedSometime(threshold, os[..|os| - 1], p) {
      var k: nat :| k < |os| - 1 && FreedAt(threshold, os[..|os| - 1], k, p);
      assert FreedAt(threshold, os, k, p);
    }
  }

  /** A process is free after a run if and only if it arrived when no one had to wait any more, or some arrival, waking
      reset or lower threshold came while it was suspended on the event in use. */
  lemma {:induction false} FreedIff(threshold: int, os: seq<Op>, p: Pid)
    ensures p in Freed(Run(Start(threshold), os).batches) <==> exists k: nat | k < |os| :: FreedAt(threshold, os, k, p)
  {
    if os != [] {
      FreedIff(threshold, os[..|os| - 1], p);
      FreedNow(Run(Start(threshold), os[..|os| - 1]), os[|os| - 1], p);
      FreedSometimeMore(threshold, os, p);
    }
  }

  /** One process waits below the threshold: a reset that does not wake strands it for good, a waking one sets it
      free. */
  lemma ResetDecides(p: Pid, threshold: int, os: seq<Op>)
    requires threshold > 1
    ensures var b := Run(Start(threshold), [WaitFor(p), Reset(false)]);
            b.stranded == [p] && Freed(b.batches) == [] && [p] <= Run(b, os).stranded
    ensures var b := Run(Start(threshold), [WaitFor(p), Reset(true)]); b.stranded == [] && Freed(b.batches) == [p]
  {
    var one := [WaitFor(p)];
    assert one[..0] == [] && Run(Start(threshold), one) == After(Start(threshold), WaitFor(p));
    assert [WaitFor(p), Reset(false)][..1] == one && [WaitFor(p), Reset(true)][..1] == one;
    StrandedForever(Run(Start(threshold), [WaitFor(p), Reset(false)]), os);
    FreedMore([], [p]);
    assert [] + [[p]] == [[p]] && [] + [p] + [] == [p];
  }

  // ----- the count and the processes

  /** Each killed waiter is taken off the count at once, and nothing else is. */
  predicate Paired(b: Barrier, os: seq<Op>) {
    os == [] ||
    (var n := |os| - 1;
     match os[n]
     case Kill(_) => false
     case Cancel =>
       n > 0 && os[n - 1].Kill? && os[n - 1].victim in Run(b, os[..n - 1]).blocked && Paired(b, os[..n - 1])
     case _ => Paired(b, os[..n]))
  }

  /** Then the count is the number of suspended processes. */
  lemma {:induction false} CountIsSuspended(threshold: int, os: seq<Op>)
    requires Paired(Start(threshold), os)
    ensures Run(Start(threshold), os).numWaiters == |Run(Start(threshold), os).blocked|
  {
    CountsStayValid(threshold, os);
    if os != [] {
      var n := |os| - 1;
      if os[n].Cancel? {
        CountIsSuspended(threshold, os[..n - 1]);
        CountsStayValid(threshold, os[..n - 1]);
        assert os[..n][..n - 1] == os[..n - 1];
        WithoutTakesOne(Run(Start(threshold), os[..n - 1]).blocked, os[n - 1].victim);
      } else {
        CountIsSuspended(threshold, os[..n]);
        CountsStayValid(threshold, os[..n]);
      }
    }
  }

  /** A reset that is asked to wake the waiters does so exactly when the count is not already zero. */
  lemma ResetWakesIffCounted(b: Barrier)
    ensures After(b, Reset(true)).blocked == [] <==> b.numWaiters != 0 || b.blocked == []
    ensures b.numWaiters != 0 ==> After(b, Reset(true)).batches == b.batches + [b.blocked]
  {
    assert b.blocked + [] == b.blocked;
  }

  /** So where every killed waiter is cancelled at once, and no one else is, a waking reset sets everyone free. */
  lemma WakingResetWakesAll(threshold: int, os: seq<Op>)
    requires Paired(Start(threshold), os)
    ensures var b := Run(Start(threshold), os);
            var c := After(b, Reset(true));
            c.blocked == [] && c.stranded == b.stranded && Freed(c.batches) == Freed(b.batches) + b.blocked
  {
    var b := Run(Start(threshold), os);
    CountIsSuspended(threshold, os);
    ResetWakesIffCounted(b);
    if b.numWaiters == 0 {
      assert Freed(b.batches) + [] == Freed(b.batches);
    } else {
      FreedMore(b.batches, b.blocked);
    }
  }

  /** A cancel that no dying waiter stands behind can leave one suspended through a waking reset. */
  lemma SpuriousCancelStrands(p: Pid)
    ensures Run(Start(2), [WaitFor(p), Cancel, Reset(true)]).blocked == [p]
  {
    var os := [WaitFor(p), Cancel, Reset(true)];
    assert os[..2] == [WaitFor(p), Cancel] && os[..2][..1] == [WaitFor(p)] && os[..1][..0] == [];
    assert Run(Start(2), os[..1]) == After(Start(2), WaitFor(p));
    assert Run(Start(2), os[..2]) == After(Run(Start(2), os[..1]), Cancel) by { assert os[..2][..1] == os[..1]; }
  }

  // ----- a fixed threshold with automatic reset

  /** arrivals cut into consecutive groups of n; what is left over is shorter. */
  predicate CutInto(arrivals: seq<Pid>, n: nat, batches: seq<seq<Pid>>, left: seq<Pid>) {
    && |arrivals| == n * |batches| + |left| && |left| < n
    && arrivals == Freed(batches) + left
    && forall batch | batch in batches :: |batch| == n
  }

  lemma CutWaits(arrivals: seq<Pid>, n: nat, batches: seq<seq<Pid>>, left: seq<Pid>, p: Pid)
    requires CutInto(arrivals, n, batches, left) && |left| + 1 < n
    ensures CutInto(arrivals + [p], n, batches, left + [p])
  {
    assert Freed(batches) + left + [p] == Freed(batches) + (left + [p]);
  }

  lemma CutFrees(arrivals: seq<Pid>, n: nat, batches: seq<seq<Pid>>, left: seq<Pid>, p: Pid)
    requires CutInto(arrivals, n, batches, left) && |left| + 1 == n
    ensures CutInto(arrivals + [p], n, batches + [left + [p]], [])
  {
    FreedMore(batches, left + [p]);
    assert Freed(batches) + left + [p] == Freed(batches) + (left + [p]) + [];
    assert n * (|batches| + 1) == n * |batches| + n;
  }

  /** Processes are set free in groups of exactly the threshold, in the order they arrived. */
  lemma {:induction false} FreedInGroups(n: nat, os: seq<Op>)
    requires n >= 1 && forall o | o in os :: o.WaitFor?
    ensures var b := Run(Start(n), os);
            && CutInto(Arrivals(os), n, b.batches, b.blocked)
            && b.numWaiters == |b.blocked| && b.threshold == n && b.autoReset && !b.atThreshold
  {
    if os != [] {
      var b := Run(Start(n), os[..|os| - 1]);
      var p := os[|os| - 1].p;
      FreedInGroups(n, os[..|os| - 1]);
      if b.numWaiters + 1 >= n {
        CutFrees(Arrivals(os[..|os| - 1]), n, b.batches, b.blocked, p);
      } else {
        CutWaits(Arrivals(os[..|os| - 1]), n, b.batches, b.blocked, p);
      }
    }
  }

  /** Where the k-th group stands among all that were set free. */
  lemma {:induction false} GroupAt(batches: seq<seq<Pid>>, n: nat, k: nat)
    requires forall batch | batch in batches :: |batch| == n
    ensures |Freed(batches)| == n * |batches|
    ensures k < |batches| ==> 0 <= n * k && n * k + n <= |Freed(batches)|
    ensures k < |batches| ==> batches[k] == Freed(batches)[n * k..n * k + n]
  {
    if batches != [] {
      var front, last := batches[..|batches| - 1], batches[|batches| - 1];
      GroupAt(front, n, k);
      OneMoreGroup(n, |front|);
      if k == |front| {
        assert Freed(batches)[|Freed(front)|..] == last;
      } else if k < |front| {
        Prefix(Freed(front), last, n * k, n * k + n);
      }
    }
  }

  lemma OneMoreGroup(n: nat, k: nat)
    ensures n * (k + 1) == n * k + n
  {
  }

  lemma Prefix(s: seq<Pid>, t: seq<Pid>, i: nat, j: nat)
    requires i <= j <= |s|
    ensures (s + t)[i..j] == s[i..j]
  {
  }

  /** The k-th group is the k-th stretch of the arrivals. */
  lemma GroupIsStretch(arrivals: seq<Pid>, n: nat, batches: seq<seq<Pid>>, left: seq<Pid>, k: nat)
    requires CutInto(arrivals, n, batches, left) && k < |batches|
    ensures 0 <= n * k && n * k + n <= |arrivals| && batches[k] == arrivals[n * k..n * k + n]
  {
    GroupAt(batches, n, k);
    Prefix(Freed(batches), left, n * k, n * k + n);
  }

  // ----- the same with waiters that are killed

  /** s can be got from t by leaving out some of it. */
  predicate InOrder(s: seq<Pid>, t: seq<Pid>)
    decreases |t|
  {
    if s == [] then true
    else if t == [] then false
    else
      var u := t[..|t| - 1];
      (s[|s| - 1] == t[|t| - 1] && InOrder(s[..|s| - 1], u)) || InOrder(s, u)
  }

  lemma InOrderMore(s: seq<Pid>, t: seq<Pid>, p: Pid)
    requires InOrder(s, t)
    ensures InOrder(s + [p], t + [p])
  {
    assert (s + [p])[..|s|] == s && (t + [p])[..|t|] == t;
  }

  function DropAt(s: seq<Pid>, i: nat): seq<Pid>
    requires i < |s|
  {
    s[..i] + s[i + 1..]
  }

  /** Leaving out one more. */
  lemma {:induction false} InOrderLess(s: seq<Pid>, t: seq<Pid>, i: nat)
    requires i < |s| && InOrder(s, t)
    ensures InOrder(DropAt(s, i), t)
    decreases |t|
  {
    var r, u := DropAt(s, i), t[..|t| - 1];
    if r != [] {
      if InOrder(s, u) {
        InOrderLess(s, u, i);
      } else {
        var front := s[..|s| - 1];
        if i < |front| {
          InOrderLess(front, u, i);
          assert r[..|r| - 1] == DropAt(front, i);
        } else {
          assert r == front;
          InOrderWider(front, u, t[|t| - 1]);
          assert t == u + [t[|t| - 1]];
        }
      }
    }
  }

  lemma InOrderWider(s: seq<Pid>, t: seq<Pid>, p: Pid)
    requires InOrder(s, t)
    ensures InOrder(s, t + [p])
  {
    assert (t + [p])[..|t|] == t;
  }

  lemma DropFirst(s: seq<Pid>)
    requires s != []
    ensures DropAt(s, 0) == s[1..]
  {
  }

  lemma DropLater(s: seq<Pid>, k: nat)
    requires k + 1 < |s|
    ensures DropAt(s, k + 1) == [s[0]] + DropAt(s[1..], k)
  {
    assert s[1..][..k] == s[1..k + 1] && s[1..][k + 1..] == s[k + 2..];
    assert [s[0]] + s[1..k + 1] == s[..k + 1];
  }

  lemma {:induction false} WithoutAt(s: seq<Pid>, p: Pid) returns (i: nat)
    requires p in s
    ensures i < |s| && Without(s, p) == DropAt(s, i)
  {
    if s[0] == p {
      i := 0;
      DropFirst(s);
    } else {
      var k := WithoutAt(s[1..], p);
      DropLater(s, k);
      i := k + 1;
    }
  }

  lemma DropBehind(s: seq<Pid>, t: seq<Pid>, i: nat)
    requires i < |t|
    ensures DropAt(s + t, |s| + i) == s + DropAt(t, i)
  {
  }

  lemma InOrderWithout(s: seq<Pid>, t: seq<Pid>, arrivals: seq<Pid>, p: Pid)
    requires p in t && InOrder(s + t, arrivals)
    ensures InOrder(s + Without(t, p), arrivals)
  {
    var i := WithoutAt(t, p);
    InOrderLess(s + t, arrivals, |s| + i);
    DropBehind(s, t, i);
  }

  /** Every group has n processes, fewer than n are waiting, and both, in order, are what arrived but for those
      that were killed. */
  ghost predicate Grouped(arrivals: seq<Pid>, n: nat, b: Barrier) {
    && b.threshold == n && b.autoReset && !b.atThreshold && |b.blocked| == b.numWaiters == b.eventWaiters < n
    && (forall batch | batch in b.batches :: |batch| == n)
    && |arrivals| == n * |b.batches| + |b.blocked| + |b.killed|
    && InOrder(Freed(b.batches) + b.blocked, arrivals)
  }

  lemma GroupedWait(arrivals: seq<Pid>, n: nat, b: Barrier, p: Pid)
    requires n >= 1 && Grouped(arrivals, n, b)
    ensures Grouped(arrivals + [p], n, AfterWait(b, p))
  {
    InOrderMore(Freed(b.batches) + b.blocked, arrivals, p);
    assert Freed(b.batches) + b.blocked + [p] == Freed(b.batches) + (b.blocked + [p]);
    if b.numWaiters + 1 >= n {
      FreedMore(b.batches, b.blocked + [p]);
      assert Freed(b.batches) + (b.blocked + [p]) + [] == Freed(b.batches) + (b.blocked + [p]);
      OneMoreGroup(n, |b.batches|);
    }
  }

  lemma GroupedKill(arrivals: seq<Pid>, n: nat, b: Barrier, p: Pid)
    requires Grouped(arrivals, n, b) && p in b.blocked
    ensures Grouped(arrivals, n, AfterCancel(After(b, Kill(p))))
  {
    WithoutTakesOne(b.blocked, p);
    InOrderWithout(Freed(b.batches), b.blocked, arrivals, p);
  }

  /** With killed waiters cancelled at once, processes are still set free in groups of exactly the threshold. */
  lemma {:induction false} SurvivorsFreedInGroups(n: nat, os: seq<Op>)
    requires n >= 1 && Paired(Start(n), os) && forall o | o in os :: o.WaitFor? || o.Kill? || o.Cancel?
    ensures Grouped(Arrivals(os), n, Run(Start(n), os))
  {
    if os != [] {
      var k := |os| - 1;
      if os[k].Cancel? {
        SurvivorsFreedInGroups(n, os[..k - 1]);
        assert os[..k][..k - 1] == os[..k - 1];
        assert Arrivals(os) == Arrivals(os[..k]) == Arrivals(os[..k - 1]);
        GroupedKill(Arrivals(os), n, Run(Start(n), os[..k - 1]), os[k - 1].victim);
      } else {
        SurvivorsFreedInGroups(n, os[..k]);
        GroupedWait(Arrivals(os[..k]), n, Run(Start(n), os[..k]), os[k].p);
      }
    }
  }

  // ----- without automatic reset

  lemma OpenStep(b: Barrier, o: Op)
    requires CountsValid(b) && b.atThreshold && (o.WaitFor? || o.Cancel? || o.Kill?)
    ensures After(b, o).atThreshold && CountsValid(After(b, o))
    ensures Freed(After(b, o).batches) == Freed(b.batches) + if o.WaitFor? then [o.p] else []
  {
    if o.WaitFor? { FreedMore(b.batches, [o.p]); }
  }

  /** Once the threshold has been reached the barrier stays open: whoever arrives passes at once, until it is
      reset, given a threshold that no one has to wait for, or switched. */
  lemma {:induction false} OpenUntilReset(b: Barrier, os: seq<Op>)
    requires CountsValid(b) && b.atThreshold && forall o | o in os :: o.WaitFor? || o.Cancel? || o.Kill?
    ensures Run(b, os).atThreshold && CountsValid(Run(b, os))
    ensures Freed(Run(b, os).batches) == Freed(b.batches) + Arrivals(os)
  {
    if os == [] {
      assert Freed(b.batches) + [] == Freed(b.batches);
    } else {
      OpenUntilReset(b, os[..|os| - 1]);
      OpenStep(Run(b, os[..|os| - 1]), os[|os| - 1]);
    }
  }

  /** What the calls so far have set last. */
  function ThresholdAfter(threshold: int, os: seq<Op>): int {
    if os == [] then threshold
    else if os[|os| - 1].SetThreshold? then os[|os| - 1].t
    else ThresholdAfter(threshold, os[..|os| - 1])
  }

  function AutoAfter(os: seq<Op>): bool {
    if os == [] then true
    else if os[|os| - 1].SetAutoReset? then os[|os| - 1].value
    else AutoAfter(os[..|os| - 1])
  }

  lemma {:induction false} SettingsAfter(threshold: int, os: seq<Op>)
    ensures Run(Start(threshold), os).threshold == ThresholdAfter(threshold, os)
    ensures Run(Start(threshold), os).autoReset == AutoAfter(os)
  {
    if os != [] { SettingsAfter(threshold, os[..|os| - 1]); }
  }

  /** Call k is an arrival that makes up the threshold while automatic reset is off. */
  predicate ReachesAt(threshold: int, os: seq<Op>, k: nat)
    requires k < |os|
  {
    && os[k].WaitFor? && !AutoAfter(os[..k])
    && Run(Start(threshold), os[..k]).numWaiters + 1 >= ThresholdAfter(threshold, os[..k])
  }

  predicate Closes(o: Op) {
    o.Reset? || o.SetAutoReset? || (o.SetThreshold? && o.t <= 0)
  }

  ghost predicate OpenSince(threshold: int, os: seq<Op>, k: nat)
    requires k < |os|
  {
    ReachesAt(threshold, os, k) && forall j | k < j < |os| :: !Closes(os[j])
  }

  lemma OpenSinceBefore(threshold: int, os: seq<Op>, k: nat)
    requires k + 1 < |os|
    ensures OpenSince(threshold, os, k) <==> OpenSince(threshold, os[..|os| - 1], k) && !Closes(os[|os| - 1])
  {
    var before := os[..|os| - 1];
    assert before[..k] == os[..k] && before[k] == os[k];
    assert forall j | k < j < |before| :: before[j] == os[j];
  }

  lemma OpenStays(b: Barrier, o: Op)
    requires CountsValid(b)
    ensures After(b, o).atThreshold
       <==> (b.atThreshold && !Closes(o)) || (o.WaitFor? && !b.autoReset && b.numWaiters + 1 >= b.threshold)
  {
  }

  /** After any run the barrier is open if and only if some arrival made up the threshold with automatic reset off
      and since then it has not been reset, switched, or given a threshold that no one has to wait for. */
  lemma {:induction false} OpenIffReached(threshold: int, os: seq<Op>)
    ensures Run(Start(threshold), os).atThreshold <==> exists k: nat | k < |os| :: OpenSince(threshold, os, k)
  {
    if os != [] {
      var n := |os| - 1;
      var b := Run(Start(threshold), os[..n]);
      OpenIffReached(threshold, os[..n]);
      CountsStayValid(threshold, os[..n]);
      SettingsAfter(threshold, os[..n]);
      OpenStays(b, os[n]);
      forall k: nat | k < n
        ensures OpenSince(threshold, os, k) <==> OpenSince(threshold, os[..n], k) && !Closes(os[n])
      {
        OpenSinceBefore(threshold, os, k);
      }
      assert OpenSince(threshold, os, n) <==> ReachesAt(threshold, os, n);
    }
  }
}
