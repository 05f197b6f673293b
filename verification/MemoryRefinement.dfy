/** The pipelined controller, watched by the monitor, behaves as a memory that does one access at a time. */
module MemoryRefinement {
  import opened Wrappers
  import opened MemoryBench

  // ----- the reference: one access at a time

  function MemoryAfter(ts: seq<Transaction>): Memory {
    if ts == [] then ZeroMemory()
    else
      var m := MemoryAfter(ts[..|ts| - 1]);
      var t := ts[|ts| - 1];
      if t.write then m[t.addr as int := t.wdata] else m
  }

  /** The requests `ts`, each completed at once, before the next one starts. */
  function History(ts: seq<Transaction>): (h: seq<Transaction>)
    ensures |h| == |ts|
  {
    if ts == [] then []
    else
      var t := ts[|ts| - 1];
      History(ts[..|ts| - 1]) + [Finish(t, MemoryAfter(ts[..|ts| - 1])[t.addr as int])]
  }

  /** The requests presented on the pins, oldest first. */
  function Accepted(ps: seq<Pins>): seq<Transaction> {
    if ps == [] then []
    else
      var p := ps[|ps| - 1];
      var before := Accepted(ps[..|ps| - 1]);
      if p.valid then before + [Observe(p)] else before
  }

  // ----- reset discipline

  function Count(l: Level): nat {
    if l.High? then 1 else 0
  }

  /** Requests a reset edge throws away: the one on the pins and the one not yet performed. */
  function LostAt(c: Controller, p: Pins): nat {
    if p.rst then Count(c.pending) + Count(Level1(p.valid)) else 0
  }

  function Lost(b: Bench, ps: seq<Pins>): nat {
    if ps == [] then 0
    else Lost(b, ps[..|ps| - 1]) + LostAt(Run(b, ps[..|ps| - 1]).controller, ps[|ps| - 1])
  }

  /** Every reset edge finds valid and pending low. */
  predicate QuietResets(b: Bench, ps: seq<Pins>) {
    ps == [] ||
    var before := ps[..|ps| - 1];
    var p := ps[|ps| - 1];
    QuietResets(b, before) && (p.rst ==> !p.valid && !Run(b, before).controller.pending.High?)
  }

  // ----- what every edge keeps

  /** The requests the controller still holds: completed but not yet published, and captured but not
      yet performed. */
  function Held(c: Controller): nat {
    Count(c.ready) + Count(c.pending)
  }

  ghost predicate ControllerTracks(c: Controller, acc: seq<Transaction>)
  {
    var performed := |acc| - Count(c.pending);
    && Held(c) <= |acc|
    && c.memory == MemoryAfter(acc[..performed])
    && (c.pending.High? ==>
          var t := acc[performed];
          t.write == c.pendingWrite && t.addr == c.pendingAddr && (t.write ==> t.wdata == c.pendingWdata))
    && (c.ready.High? ==>
          var t := acc[performed - 1];
          t.write || c.rdata == MemoryAfter(acc[..performed - 1])[t.addr as int])
  }

  ghost predicate MonitorTracks(m: Monitor, acc: seq<Transaction>, held: nat)
    requires held <= |acc|
  {
    m.inflight == acc[|acc| - held..] && m.published == History(acc[..|acc| - held])
  }

  function Accept(acc: seq<Transaction>, p: Pins): seq<Transaction> {
    if p.valid then acc + [Observe(p)] else acc
  }

  lemma MemoryAfterOne(acc: seq<Transaction>, n: nat)
    requires n < |acc|
    ensures var m := MemoryAfter(acc[..n]);
            MemoryAfter(acc[..n + 1]) == if acc[n].write then m[acc[n].addr as int := acc[n].wdata] else m
    ensures History(acc[..n + 1]) == History(acc[..n]) + [Finish(acc[n], MemoryAfter(acc[..n])[acc[n].addr as int])]
  {
    assert acc[..n + 1][..n] == acc[..n];
  }

  lemma ControllerEdgeTracks(c: Controller, acc: seq<Transaction>, p: Pins)
    requires ControllerTracks(c, acc)
    requires p.rst ==> !p.valid && !c.pending.High?
    ensures ControllerTracks(ControllerEdge(c, p), Accept(acc, p))
  {
    var acc' := Accept(acc, p);
    var performed := |acc| - Count(c.pending);
    assert acc'[..|acc|] == acc == acc[..|acc|];
    assert acc'[..performed] == acc[..performed];
    if c.pending.High? {
      MemoryAfterOne(acc, performed);
    }
  }

  /** The completed request, finished with what is on the read port, is the one the reference completes. */
  ghost predicate PortRight(c: Controller, acc: seq<Transaction>) {
    && Held(c) <= |acc|
    && (c.ready.High? ==>
          var done := |acc| - Held(c);
          Finish(acc[done], c.rdata) == Finish(acc[done], MemoryAfter(acc[..done])[acc[done].addr as int]))
  }

  lemma ControllerPortRight(c: Controller, acc: seq<Transaction>)
    requires ControllerTracks(c, acc)
    ensures PortRight(c, acc)
  {}

  lemma HeldNext(c: Controller, p: Pins)
    requires p.rst ==> !p.valid && !c.pending.High?
    ensures Held(ControllerEdge(c, p)) == Held(c) - Count(c.ready) + Count(Level1(p.valid))
  {}

  lemma MonitorEdgeTracks(c: Controller, m: Monitor, acc: seq<Transaction>, p: Pins)
    requires PortRight(c, acc) && MonitorTracks(m, acc, Held(c))
    ensures MonitorTracks(MonitorEdge(m, p, c.ready, c.rdata), Accept(acc, p),
                          Held(c) - Count(c.ready) + Count(Level1(p.valid)))
  {
    var acc' := Accept(acc, p);
    var done := |acc| - Held(c);
    assert AfterRequest(m.inflight, p) == acc'[done..];
    assert acc'[..done] == acc[..done];
    if c.ready.High? {
      assert acc'[done..][1..] == acc'[done + 1..];
      MemoryAfterOne(acc', done);
    }
  }

  ghost predicate Tracks(b: Bench, acc: seq<Transaction>) {
    ControllerTracks(b.controller, acc) && MonitorTracks(b.monitor, acc, Held(b.controller))
  }

  lemma EdgeTracks(b: Bench, acc: seq<Transaction>, p: Pins)
    requires Tracks(b, acc)
    requires p.rst ==> !p.valid && !b.controller.pending.High?
    ensures Tracks(Edge(b, p), Accept(acc, p))
  {
    ControllerEdgeTracks(b.controller, acc, p);
    ControllerPortRight(b.controller, acc);
    MonitorEdgeTracks(b.controller, b.monitor, acc, p);
    HeldNext(b.controller, p);
  }

  lemma {:induction false} RunTracks(c: Controller, ps: seq<Pins>)
    requires PowerUp(c) && QuietResets(Start(c), ps)
    ensures Tracks(Run(Start(c), ps), Accepted(ps))
  {
    if ps == [] {
      assert Tracks(Start(c), []);
    } else {
      var before := ps[..|ps| - 1];
      RunTracks(c, before);
      EdgeTracks(Run(Start(c), before), Accepted(before), ps[|ps| - 1]);
    }
  }

  lemma {:induction false} ScoreboardSeesPublished(c: Controller, ps: seq<Pins>)
    ensures var b := Run(Start(c), ps);
            b.scoreboard == ScoreAll(Scoreboard(ZeroMemory(), 0), b.monitor.published)
  {
    if ps != [] {
      ScoreboardSeesPublished(c, ps[..|ps| - 1]);
      var b := Run(Start(c), ps);
      if b.monitor.published != Run(Start(c), ps[..|ps| - 1]).monitor.published {
        var n := |b.monitor.published| - 1;
        assert b.monitor.published[..n] == Run(Start(c), ps[..|ps| - 1]).monitor.published;
      }
    }
  }

  lemma {:induction false} ScoreHistory(ts: seq<Transaction>)
    ensures ScoreAll(Scoreboard(ZeroMemory(), 0), History(ts)) == Scoreboard(MemoryAfter(ts), 0)
  {
    if ts != [] {
      ScoreHistory(ts[..|ts| - 1]);
      assert History(ts)[..|ts| - 1] == History(ts[..|ts| - 1]);
    }
  }

  lemma {:induction false} HistoryPrefix(ts: seq<Transaction>, n: nat)
    requires n <= |ts|
    ensures History(ts[..n]) == History(ts)[..n]
  {
    if n == |ts| {
      assert ts[..n] == ts;
    } else {
      HistoryPrefix(ts[..|ts| - 1], n);
      assert ts[..|ts| - 1][..n] == ts[..n];
    }
  }

  /** `b` is the bench after the requests `acc`: published in order, at most two behind, as the
      reference completes them, with no objection from the scoreboard. */
  ghost predicate Refines(b: Bench, acc: seq<Transaction>) {
    var n := |b.monitor.published|;
    && |acc| - 2 <= n <= |acc|
    && b.monitor.published == History(acc)[..n]
    && b.monitor.inflight == acc[n..]
    && b.scoreboard == Scoreboard(MemoryAfter(acc[..n]), 0)
  }

  lemma TracksRefines(b: Bench, acc: seq<Transaction>)
    requires Tracks(b, acc) && b.scoreboard == ScoreAll(Scoreboard(ZeroMemory(), 0), b.monitor.published)
    ensures Refines(b, acc)
  {
    var done := |acc| - Held(b.controller);
    HistoryPrefix(acc, done);
    ScoreHistory(acc[..done]);
  }

  /** The monitor publishes the presented requests in order, each once and at most two behind, with the
      data a memory that performs them one at a time returns; the scoreboard never objects. */
  lemma RefinesAtomicMemory(c: Controller, ps: seq<Pins>)
    requires PowerUp(c) && QuietResets(Start(c), ps)
    ensures Refines(Run(Start(c), ps), Accepted(ps))
  {
    RunTracks(c, ps);
    ScoreboardSeesPublished(c, ps);
    TracksRefines(Run(Start(c), ps), Accepted(ps));
  }

  // ----- the queue length, on every run whatever the resets

  lemma {:induction false} QueueLength(c: Controller, ps: seq<Pins>)
    requires PowerUp(c)
    ensures var b := Run(Start(c), ps);
            |b.monitor.inflight| == Held(b.controller) + Lost(Start(c), ps)
  {
    if ps != [] {
      QueueLength(c, ps[..|ps| - 1]);
    }
  }

  lemma {:induction false} LostNothing(b: Bench, ps: seq<Pins>)
    ensures Lost(b, ps) == 0 <==> QuietResets(b, ps)
  {
    if ps != [] {
      LostNothing(b, ps[..|ps| - 1]);
    }
  }

  /** The queue holds just what the controller holds exactly when every reset so far was quiet. */
  lemma InStepIffQuietResets(c: Controller, ps: seq<Pins>)
    requires PowerUp(c)
    ensures var b := Run(Start(c), ps);
            |b.monitor.inflight| == Held(b.controller) <==> QuietResets(Start(c), ps)
  {
    QueueLength(c, ps);
    LostNothing(Start(c), ps);
  }

  lemma TwoEdges(b: Bench, p: Pins, q: Pins)
    requires !p.rst && !q.rst
    ensures var c := Edge(Edge(b, p), q).controller;
            c.ready == Level1(p.valid) && c.pending == Level1(q.valid)
  {}

  /** Away from resets, ready is seen high two edges after exactly the edges that saw valid high. */
  lemma ReadyTwoEdgesLater(b: Bench, ps: seq<Pins>, k: nat)
    requires k + 2 <= |ps| && !ps[k].rst && !ps[k + 1].rst
    ensures Run(b, ps[..k + 2]).controller.ready.High? <==> ps[k].valid
  {
    assert ps[..k + 2][..k + 1] == ps[..k + 1];
    assert ps[..k + 1][..k] == ps[..k];
    var b0 := Run(b, ps[..k]);
    assert Run(b, ps[..k + 1]) == Edge(b0, ps[k]);
    TwoEdges(b0, ps[k], ps[k + 1]);
  }

  // ----- what a reset leaves, and what stays on the read port

  /** A reset clears the outputs and whatever was requested, and leaves the memory alone: what comes after it depends
      on the memory only. */
  lemma ResetForgets(b: Bench, ps: seq<Pins>, p: Pins)
    requires p.rst
    ensures var c, d := Run(b, ps).controller, Run(b, ps + [p]).controller;
            && d.ready.Low? && d.rdata == Word(0, 0) && d.pending.Low? && d.memory == c.memory
            && !d.pendingWrite && d.pendingAddr == 0 && d.pendingWdata == Word(0, 0)
  {
    assert (ps + [p])[..|ps|] == ps;
  }

  /** No request that is presented before a reset is performed after it, and none that is presented during it. */
  lemma NothingThroughReset(b: Bench, ps: seq<Pins>, p: Pins, q: Pins)
    requires p.rst && !q.rst
    ensures var c, d := Run(b, ps).controller, Run(b, ps + [p] + [q]).controller;
            d.ready.Low? && d.memory == c.memory && d.rdata == Word(0, 0)
  {
    ResetForgets(b, ps, p);
    assert (ps + [p] + [q])[..|ps| + 1] == ps + [p];
  }

  /** The read port keeps its value until the next read is performed or the controller is reset. */
  lemma ReadPortHolds(b: Bench, ps: seq<Pins>, p: Pins)
    requires !p.rst
    ensures var c, d := Run(b, ps).controller, Run(b, ps + [p]).controller;
            && (c.pending.High? && !c.pendingWrite ==> d.rdata == c.memory[c.pendingAddr as int])
            && (!c.pending.High? || c.pendingWrite ==> d.rdata == c.rdata)
            && (d.ready.High? <==> c.pending.High?)
            && (c.pending.High? && c.pendingWrite ==> d.memory == c.memory[c.pendingAddr as int := c.pendingWdata])
            && (!c.pending.High? || !c.pendingWrite ==> d.memory == c.memory)
  {
    assert (ps + [p])[..|ps|] == ps;
  }

  /** What is on the pins is captured if it is valid; if not, the last request stays in the registers but is not
      pending. */
  lemma CapturesRequest(b: Bench, ps: seq<Pins>, p: Pins)
    requires !p.rst
    ensures var c, d := Run(b, ps).controller, Run(b, ps + [p]).controller;
            && (d.pending.High? <==> p.valid)
            && (d.pendingWrite, d.pendingAddr, d.pendingWdata)
                 == if p.valid then (p.write, p.addr, p.wdata) else (c.pendingWrite, c.pendingAddr, c.pendingWdata)
  {
    assert (ps + [p])[..|ps|] == ps;
  }

  /** Two edges after a read was presented, if no reset came, the port shows what the memory held when it was
      performed, one edge after it was presented. */
  lemma ReadShowsMemory(b: Bench, ps: seq<Pins>, p: Pins, q: Pins)
    requires !p.rst && p.valid && !p.write && !q.rst
    ensures var c, d := Run(b, ps + [p]).controller, Run(b, ps + [p] + [q]).controller;
            d.ready.High? && d.rdata == c.memory[p.addr as int]
  {
    assert (ps + [p])[..|ps|] == ps && (ps + [p] + [q])[..|ps| + 1] == ps + [p];
  }

  lemma WriteReachesMemory(b: Bench, ps: seq<Pins>, p: Pins, q: Pins)
    requires !p.rst && p.valid && p.write && !q.rst
    ensures var c, d := Run(b, ps + [p]).controller, Run(b, ps + [p] + [q]).controller;
            d.ready.High? && d.memory == c.memory[p.addr as int := p.wdata]
  {
    assert (ps + [p])[..|ps|] == ps && (ps + [p] + [q])[..|ps| + 1] == ps + [p];
  }

  // ----- what the monitor records

  /** A request on the pins is recorded with its address and direction, with its data only if it is a write, and with
      no result yet. */
  lemma RecordsRequest(ps: seq<Pins>, p: Pins)
    ensures var unknown := Word(0xFFFF_FFFF, 0xFFFF_FFFF);
            var t := Transaction(p.write, p.addr, if p.write then p.wdata else unknown, unknown);
            Accepted(ps + [p]) == if p.valid then Accepted(ps) + [t] else Accepted(ps)
  {
    assert (ps + [p])[..|ps|] == ps;
  }

  /** A request that shows up together with ready, while nothing is in flight, is itself published. */
  lemma PublishesAtOnce(m: Monitor, p: Pins, rdata: Word)
    requires m.inflight == []
    ensures var n := MonitorEdge(m, p, High, rdata);
            n.inflight == [] && |n.published| == |m.published| + (if p.valid then 1 else 0)
    ensures p.valid && !p.write ==> MonitorEdge(m, p, High, rdata).published[|m.published|].rdata == rdata
  {
  }
}
