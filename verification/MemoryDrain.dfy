/** The driver in front of the pipeline: each item is on the pins for one edge, and three empty edges
    after the last one are exactly enough to see everything scored. */
module MemoryDrain {
  import opened Wrappers
  import opened MemoryBench
  import opened MemoryRefinement
  import opened MemoryTrust

  type Items = seq<Option<Transaction>>

  /** The pins after the driver has handled `items`, one edge each. */
  function HeldPins(idle: Pins, items: Items): Pins {
    if items == [] then idle else Drive(HeldPins(idle, items[..|items| - 1]), items[|items| - 1])
  }

  /** What the controller and the monitor sample at each of those edges: the pins of the edge before. */
  function Sampled(idle: Pins, items: Items): (ps: seq<Pins>)
    ensures |ps| == |items|
  {
    if items == [] then []
    else Sampled(idle, items[..|items| - 1]) + [HeldPins(idle, items[..|items| - 1])]
  }

  lemma PlayOne(b: Bench, idle: Pins, items: Items, i: nat)
    requires i < |items|
    ensures HeldPins(idle, items[..i + 1]) == Drive(HeldPins(idle, items[..i]), items[i])
    ensures Run(b, Sampled(idle, items[..i + 1])) == Edge(Run(b, Sampled(idle, items[..i])), HeldPins(idle, items[..i]))
  {
    assert items[..i + 1][..i] == items[..i];
    var ps := Sampled(idle, items[..i + 1]);
    assert ps[..i] == Sampled(idle, items[..i]);
  }

  lemma {:induction false} SampledAppends(idle: Pins, items: Items, more: Items)
    ensures HeldPins(idle, items + more) == HeldPins(HeldPins(idle, items), more)
    ensures Sampled(idle, items + more) == Sampled(idle, items) + Sampled(HeldPins(idle, items), more)
  {
    if more == [] {
      assert items + more == items;
    } else {
      SampledAppends(idle, items, more[..|more| - 1]);
      assert (items + more)[..|items + more| - 1] == items + more[..|more| - 1];
    }
  }

  /** The requests among the items, as the monitor would record them. */
  function Requests(items: Items): seq<Transaction> {
    if items == [] then []
    else
      var before := Requests(items[..|items| - 1]);
      match items[|items| - 1]
      case None => before
      case Some(t) => before + [Transaction(t.write, t.addr, if t.write then t.wdata else UNKNOWN, UNKNOWN)]
  }

  function Empty(n: nat): Items {
    seq(n, _ => None)
  }

  /** An item handled at edge k is sampled at edge k+1; an empty cycle only lowers valid. */
  lemma OneEdgePerItem(idle: Pins, items: Items, k: nat)
    requires k + 1 < |items|
    ensures var p := Sampled(idle, items)[k + 1];
            && p.rst == idle.rst
            && match items[k]
               case None => p == Sampled(idle, items)[k].(valid := false)
               case Some(t) => p == Pins(idle.rst, true, t.write, t.addr, t.wdata)
  {
    SampledAt(idle, items, k + 1);
    SampledAt(idle, items, k);
    assert items[..k + 1][..k] == items[..k];
    ResetLineHeld(idle, items[..k]);
  }

  lemma {:induction false} SampledAt(idle: Pins, items: Items, k: nat)
    requires k < |items|
    ensures Sampled(idle, items)[k] == HeldPins(idle, items[..k])
  {
    if k < |items| - 1 {
      SampledAt(idle, items[..|items| - 1], k);
      assert items[..|items| - 1][..k] == items[..k];
    }
  }

  lemma {:induction false} ResetLineHeld(idle: Pins, items: Items)
    ensures HeldPins(idle, items).rst == idle.rst
  {
    if items != [] {
      ResetLineHeld(idle, items[..|items| - 1]);
    }
  }

  lemma {:induction false} SampledRequests(idle: Pins, items: Items)
    requires !idle.valid
    ensures items != [] ==> Accepted(Sampled(idle, items)) == Requests(items[..|items| - 1])
  {
    if items != [] {
      var before := items[..|items| - 1];
      SampledRequests(idle, before);
      var ps := Sampled(idle, items);
      assert ps[..|ps| - 1] == Sampled(idle, before);
    }
  }

  lemma SampledQuiet(b: Bench, idle: Pins, items: Items)
    requires !idle.rst
    ensures QuietResets(b, Sampled(idle, items))
  {
    forall p | p in Sampled(idle, items)
      ensures !p.rst
    {
      var k :| 0 <= k < |items| && Sampled(idle, items)[k] == p;
      SampledAt(idle, items, k);
      ResetLineHeld(idle, items[..k]);
    }
    NoResetIsQuiet(b, Sampled(idle, items));
  }

  lemma {:induction false} EmptyAddsNothing(items: Items, n: nat)
    ensures Requests(items + Empty(n)) == Requests(items)
  {
    if n == 0 {
      assert items + Empty(0) == items;
    } else {
      EmptyAddsNothing(items, n - 1);
      assert (items + Empty(n))[..|items| + n - 1] == items + Empty(n - 1);
    }
  }

  /** A run of the bench from power-up: a first stretch in reset with the pins idle, then the items,
      then n empty edges. */
  function Session(c: Controller, boot: nat, idle: Pins, items: Items, n: nat): Bench {
    Run(Start(c), Booting(boot, idle) + Sampled(idle, items + Empty(n)))
  }

  function Booting(boot: nat, idle: Pins): (ps: seq<Pins>)
    ensures |ps| == boot && forall i | 0 <= i < boot :: ps[i] == idle.(rst := true)
  {
    seq(boot, _ => idle.(rst := true))
  }

  /** A session, one stretch after the other. */
  lemma SessionRun(c: Controller, boot: nat, idle: Pins, items: Items, n: nat)
    ensures var b := Run(Start(c), Booting(boot, idle));
            Session(c, boot, idle, items, n)
              == Run(Run(b, Sampled(idle, items)), Sampled(HeldPins(idle, items), Empty(n)))
  {
    var b := Run(Start(c), Booting(boot, idle));
    SampledAppends(idle, items, Empty(n));
    RunOn(Start(c), Booting(boot, idle), Sampled(idle, items + Empty(n)));
    RunOn(b, Sampled(idle, items), Sampled(HeldPins(idle, items), Empty(n)));
  }

  lemma {:induction false} BootIsIdle(c: Controller, boot: nat, idle: Pins)
    requires PowerUp(c) && !idle.valid
    ensures var b := Run(Start(c), Booting(boot, idle));
            && b == Start(b.controller) && Held(b.controller) == 0
            && b.controller.memory == ZeroMemory()
    ensures Accepted(Booting(boot, idle)) == []
    ensures QuietResets(Start(c), Booting(boot, idle))
  {
    if boot > 0 {
      var ps := Booting(boot, idle);
      assert ps[..boot - 1] == Booting(boot - 1, idle);
      BootIsIdle(c, boot - 1, idle);
    }
  }

  lemma {:induction false} AcceptedAppends(ps: seq<Pins>, qs: seq<Pins>)
    ensures Accepted(ps + qs) == Accepted(ps) + Accepted(qs)
  {
    if qs == [] {
      assert ps + qs == ps;
    } else {
      AcceptedAppends(ps, qs[..|qs| - 1]);
      assert (ps + qs)[..|ps + qs| - 1] == ps + qs[..|qs| - 1];
    }
  }

  /** What the controller still holds depends on the last two edges only. */
  lemma HeldAfter(b: Bench, ps: seq<Pins>)
    requires |ps| >= 2 && !ps[|ps| - 1].rst && !ps[|ps| - 2].rst
    ensures Held(Run(b, ps).controller) == Count(Level1(ps[|ps| - 1].valid)) + Count(Level1(ps[|ps| - 2].valid))
  {
    var k := |ps| - 2;
    assert ps[..k + 1][..k] == ps[..k];
    var b0 := Run(b, ps[..k]);
    assert Run(b, ps[..k + 1]) == Edge(b0, ps[k]);
    assert Run(b, ps) == Edge(Edge(b0, ps[k]), ps[k + 1]);
    TwoEdges(b0, ps[k], ps[k + 1]);
  }

  /** Whether edge k + 1 sees a request: whether item k is one. */
  lemma ValidAt(idle: Pins, items: Items, k: nat)
    requires k + 1 < |items| && !idle.rst
    ensures var p := Sampled(idle, items)[k + 1];
            !p.rst && (p.valid <==> items[k].Some?)
  {
    OneEdgePerItem(idle, items, k);
  }

  lemma FirstEdge(idle: Pins, items: Items)
    requires items != [] && !idle.rst && !idle.valid
    ensures !Sampled(idle, items)[0].rst && !Sampled(idle, items)[0].valid
  {
    SampledAt(idle, items, 0);
  }

  lemma ItemAt(items: Items, n: nat, i: nat)
    requires i < |items| + n
    ensures (items + Empty(n))[i] == if i < |items| then items[i] else None
  {
  }

  /** Of the last two edges, one sees a request exactly when there are fewer than three empty ones. */
  lemma LastTwo(idle: Pins, items: Items, n: nat)
    requires !idle.valid && !idle.rst && n > 0
    requires items != [] && items[|items| - 1].Some?
    ensures var ps := Sampled(idle, items + Empty(n));
            var k := |ps| - 1;
            && |ps| == |items| + n && !ps[k].rst && !ps[k - 1].rst
            && (!ps[k].valid && !ps[k - 1].valid <==> n >= 3)
  {
    var all := items + Empty(n);
    var k := |items| + n - 1;
    ItemAt(items, n, k - 1);
    ValidAt(idle, all, k - 1);
    if k >= 2 {
      ItemAt(items, n, k - 2);
      ValidAt(idle, all, k - 2);
    } else {
      FirstEdge(idle, all);
    }
  }

  /** After n empty edges behind a last real item the controller is idle exactly when n is at least three. */
  lemma HeldAtEnd(b: Bench, idle: Pins, items: Items, n: nat)
    requires !idle.valid && !idle.rst && n > 0
    requires items != [] && items[|items| - 1].Some?
    ensures Held(Run(b, Sampled(idle, items + Empty(n))).controller) == 0 <==> n >= 3
  {
    LastTwo(idle, items, n);
    HeldAfter(b, Sampled(idle, items + Empty(n)));
  }

  lemma SessionIsQuiet(c: Controller, boot: nat, idle: Pins, items: Items)
    requires PowerUp(c) && !idle.valid && !idle.rst && items != []
    ensures var ps := Booting(boot, idle) + Sampled(idle, items);
            && QuietResets(Start(c), ps)
            && Accepted(ps) == Requests(items[..|items| - 1])
            && Run(Start(c), ps) == Run(Run(Start(c), Booting(boot, idle)), Sampled(idle, items))
  {
    BootIsIdle(c, boot, idle);
    SampledQuiet(Run(Start(c), Booting(boot, idle)), idle, items);
    RunOn(Start(c), Booting(boot, idle), Sampled(idle, items));
    AcceptedAppends(Booting(boot, idle), Sampled(idle, items));
    SampledRequests(idle, items);
  }

  /** Of the requests `acc`, those the controller holds have not been published; once it holds none, all have been,
      nothing is in flight and nothing was objected to. */
  ghost predicate CaughtUp(b: Bench, acc: seq<Transaction>) {
    && |b.monitor.published| == |acc| - Held(b.controller)
    && (Held(b.controller) == 0 ==> b.monitor == Monitor([], History(acc)) && b.scoreboard.errors == 0)
  }

  /** Everything accepted has been scored exactly when the controller holds nothing. */
  lemma CaughtUpIffIdle(c: Controller, ps: seq<Pins>)
    requires PowerUp(c) && QuietResets(Start(c), ps)
    ensures CaughtUp(Run(Start(c), ps), Accepted(ps))
  {
    RefinesAtomicMemory(c, ps);
    QueueLength(c, ps);
    LostNothing(Start(c), ps);
    var acc := Accepted(ps);
    assert acc[|acc|..] == [] && History(acc)[..|acc|] == History(acc);
  }

  /** What has been presented by the end of a session: all of it, unless no edge followed the last item. */
  lemma Presented(items: Items, n: nat)
    requires items != [] && items[|items| - 1].Some?
    ensures var sent := Requests((items + Empty(n))[..|items| + n - 1]);
            if n == 0 then |sent| < |Requests(items)| else sent == Requests(items)
  {
    if n == 0 {
      assert (items + Empty(n))[..|items| + n - 1] == items[..|items| - 1];
    } else {
      assert (items + Empty(n))[..|items| + n - 1] == items + Empty(n - 1);
      EmptyAddsNothing(items, n - 1);
    }
  }

  /** `b` has published what was sent but for what it holds, and holds nothing just when n >= 3. */
  ghost predicate EndsWith(b: Bench, sent: seq<Transaction>, n: nat) {
    CaughtUp(b, sent) && (n > 0 ==> (Held(b.controller) == 0 <==> n >= 3))
  }

  lemma SessionHeld(c: Controller, boot: nat, idle: Pins, items: Items, n: nat)
    requires !idle.valid && !idle.rst && n > 0 && items != [] && items[|items| - 1].Some?
    ensures Held(Session(c, boot, idle, items, n).controller) == 0 <==> n >= 3
  {
    var b := Run(Start(c), Booting(boot, idle));
    RunOn(Start(c), Booting(boot, idle), Sampled(idle, items + Empty(n)));
    HeldAtEnd(b, idle, items, n);
  }

  lemma SessionPublished(c: Controller, boot: nat, idle: Pins, items: Items, n: nat)
    requires PowerUp(c) && !idle.valid && !idle.rst && items != []
    ensures CaughtUp(Session(c, boot, idle, items, n), Requests((items + Empty(n))[..|items| + n - 1]))
  {
    var all := items + Empty(n);
    assert |all| == |items| + n;
    SessionIsQuiet(c, boot, idle, all);
    CaughtUpIffIdle(c, Booting(boot, idle) + Sampled(idle, all));
  }

  lemma SessionEnd(c: Controller, boot: nat, idle: Pins, items: Items, n: nat)
    requires PowerUp(c) && !idle.valid && !idle.rst
    requires items != [] && items[|items| - 1].Some?
    ensures EndsWith(Session(c, boot, idle, items, n), Requests((items + Empty(n))[..|items| + n - 1]), n)
  {
    SessionPublished(c, boot, idle, items, n);
    if n > 0 { SessionHeld(c, boot, idle, items, n); }
  }

  lemma DoneIffThree(b: Bench, sent: seq<Transaction>, all: seq<Transaction>, n: nat)
    requires EndsWith(b, sent, n)
    requires if n == 0 then |sent| < |all| else sent == all
    ensures n >= 3 <==> b.monitor.published == History(all)
    ensures n >= 3 ==> b.monitor.inflight == [] && b.scoreboard.errors == 0
  {
    assert |History(all)| == |all|;
  }

  /** After n empty edges behind a last real item, everything has been scored once and in order, and
      nothing is left in flight, exactly when n is at least three. */
  lemma DrainedIffThreeEdges(c: Controller, boot: nat, idle: Pins, items: Items, n: nat)
    requires PowerUp(c) && !idle.valid && !idle.rst
    requires items != [] && items[|items| - 1].Some?
    ensures var b := Session(c, boot, idle, items, n);
            && (n >= 3 <==> b.monitor.published == History(Requests(items)))
            && (n >= 3 ==> b.monitor.inflight == [] && b.scoreboard.errors == 0)
  {
    SessionEnd(c, boot, idle, items, n);
    Presented(items, n);
    DoneIffThree(Session(c, boot, idle, items, n), Requests((items + Empty(n))[..|items| + n - 1]), Requests(items), n);
  }
}
