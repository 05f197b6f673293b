/** When the scoreboard's silence can be trusted: its verdict against an independent notion of a legal
    history, and what a reset in the middle of a request does to it. */
module MemoryTrust {
  import opened MemoryBench
  import opened MemoryRefinement

  // ----- the scoreboard's verdict

  /** Entry i reads the value of the latest earlier write to its address, or zero if there is none. */
  ghost predicate ReadsLatestWrite(ts: seq<Transaction>, i: nat)
    requires i < |ts|
  {
    || (exists j | 0 <= j < i :: WriteSeenAt(ts, j, i) && ts[j].wdata == ts[i].rdata)
    || (ts[i].rdata == ZERO && forall j | 0 <= j < i :: !WritesTo(ts[j], ts[i].addr))
  }

  predicate WritesTo(t: Transaction, a: Addr) {
    t.write && t.addr == a
  }

  ghost predicate WriteSeenAt(ts: seq<Transaction>, j: nat, i: nat)
    requires j < i < |ts|
  {
    WritesTo(ts[j], ts[i].addr) && forall k | j < k < i :: !WritesTo(ts[k], ts[i].addr)
  }

  ghost predicate LegalHistory(ts: seq<Transaction>) {
    forall i | 0 <= i < |ts| && !ts[i].write :: ReadsLatestWrite(ts, i)
  }

  lemma MemoryHoldsLatestWrite(ts: seq<Transaction>, i: nat)
    requires i < |ts|
    ensures MemoryAfter(ts[..i])[ts[i].addr as int] == ts[i].rdata <==> ReadsLatestWrite(ts, i)
  {
    MemoryLookup(ts, i, ts[i].addr);
  }

  /** What the memory holds at `a` once the first i entries are done. */
  lemma {:induction false} MemoryLookup(ts: seq<Transaction>, i: nat, a: Addr)
    requires i <= |ts|
    ensures var v := MemoryAfter(ts[..i])[a as int];
            || (v == ZERO && forall j | 0 <= j < i :: !WritesTo(ts[j], a))
            || (exists j | 0 <= j < i :: WritesTo(ts[j], a) && ts[j].wdata == v
                                        && forall k | j < k < i :: !WritesTo(ts[k], a))
  {
    if i > 0 {
      MemoryLookup(ts, i - 1, a);
      MemoryAfterOne(ts, i - 1);
      var v := MemoryAfter(ts[..i - 1])[a as int];
      if WritesTo(ts[i - 1], a) {
      } else if exists j | 0 <= j < i - 1 :: WritesTo(ts[j], a) && ts[j].wdata == v
                                        && forall k | j < k < i - 1 :: !WritesTo(ts[k], a) {
        var j :| 0 <= j < i - 1 && WritesTo(ts[j], a) && ts[j].wdata == v
                                        && forall k | j < k < i - 1 :: !WritesTo(ts[k], a);
        assert forall k | j < k < i :: !WritesTo(ts[k], a);
      }
    }
  }

  lemma {:induction false} ScoreboardExpects(ts: seq<Transaction>)
    ensures ScoreAll(Scoreboard(ZeroMemory(), 0), ts).expected == MemoryAfter(ts)
  {
    if ts != [] {
      ScoreboardExpects(ts[..|ts| - 1]);
    }
  }

  /** For any stream, from any controller, the scoreboard is silent exactly when the stream is a legal
      sequential history of a memory that starts all zero. */
  lemma {:induction false} VerdictIsExact(ts: seq<Transaction>)
    ensures ScoreAll(Scoreboard(ZeroMemory(), 0), ts).errors == 0 <==> LegalHistory(ts)
  {
    if ts != [] {
      var n := |ts| - 1;
      VerdictIsExact(ts[..n]);
      ScoreboardExpects(ts[..n]);
      MemoryHoldsLatestWrite(ts, n);
      LegalBefore(ts);
    }
  }

  lemma LatestBefore(ts: seq<Transaction>, i: nat)
    requires i + 1 < |ts|
    ensures ReadsLatestWrite(ts, i) <==> ReadsLatestWrite(ts[..|ts| - 1], i)
  {
    var before := ts[..|ts| - 1];
    MemoryHoldsLatestWrite(ts, i);
    MemoryHoldsLatestWrite(before, i);
    assert before[..i] == ts[..i];
  }

  lemma LegalBefore(ts: seq<Transaction>)
    requires ts != []
    ensures var n := |ts| - 1;
            LegalHistory(ts) <==> LegalHistory(ts[..n]) && (ts[n].write || ReadsLatestWrite(ts, n))
  {
    var before := ts[..|ts| - 1];
    forall i: nat | i < |before|
      ensures before[i] == ts[i] && (ReadsLatestWrite(ts, i) <==> ReadsLatestWrite(before, i))
    {
      LatestBefore(ts, i);
    }
  }

  lemma HistoryIsLegal(ts: seq<Transaction>)
    ensures LegalHistory(History(ts))
  {
    ScoreHistory(ts);
    VerdictIsExact(History(ts));
  }

  /** The entries that are reads and do not return the latest write. */
  ghost function WrongReads(ts: seq<Transaction>): set<nat> {
    set i: nat | i < |ts| && !ts[i].write && !ReadsLatestWrite(ts, i)
  }

  lemma WrongReadsBefore(ts: seq<Transaction>)
    requires ts != []
    ensures var n := |ts| - 1;
            WrongReads(ts) == WrongReads(ts[..n]) + if ts[n].write || ReadsLatestWrite(ts, n) then {} else {n}
  {
    var n := |ts| - 1;
    forall i: nat | i < n ensures ReadsLatestWrite(ts, i) <==> ReadsLatestWrite(ts[..n], i) { LatestBefore(ts, i); }
  }

  /** The scoreboard reports one error for every read that does not return the latest write, and for nothing else. */
  lemma {:induction false} OneErrorPerWrongRead(ts: seq<Transaction>)
    ensures ScoreAll(Scoreboard(ZeroMemory(), 0), ts).errors == |WrongReads(ts)|
  {
    if ts != [] {
      var n := |ts| - 1;
      OneErrorPerWrongRead(ts[..n]);
      ScoreboardExpects(ts[..n]);
      MemoryHoldsLatestWrite(ts, n);
      WrongReadsBefore(ts);
    }
  }

  /** An address that was never written reads as zero, in all 32 bits. */
  lemma NeverWrittenReadsZero(c: Controller, ps: seq<Pins>, i: nat)
    requires PowerUp(c) && QuietResets(Start(c), ps) && i < |Run(Start(c), ps).monitor.published|
    requires var h := Run(Start(c), ps).monitor.published;
             !h[i].write && forall j | 0 <= j < i :: !(h[j].write && h[j].addr == h[i].addr)
    ensures Run(Start(c), ps).monitor.published[i].rdata == Word(0, 0)
  {
    PublishedIsLegal(c, ps);
    assert ReadsLatestWrite(Run(Start(c), ps).monitor.published, i);
  }

  /** What the monitor publishes on a run with quiet resets is a legal sequential history. */
  lemma PublishedIsLegal(c: Controller, ps: seq<Pins>)
    requires PowerUp(c) && QuietResets(Start(c), ps)
    ensures LegalHistory(Run(Start(c), ps).monitor.published)
  {
    RefinesAtomicMemory(c, ps);
    ScoreboardSeesPublished(c, ps);
    VerdictIsExact(Run(Start(c), ps).monitor.published);
  }

  // ----- a request lost in a reset can always be made to show

  predicate NoReset(ps: seq<Pins>) {
    forall p | p in ps :: !p.rst
  }

  lemma {:induction false} RunOn(b: Bench, ps: seq<Pins>, qs: seq<Pins>)
    ensures Run(Run(b, ps), qs) == Run(b, ps + qs)
    ensures QuietResets(b, ps) && QuietResets(Run(b, ps), qs) ==> QuietResets(b, ps + qs)
  {
    if qs == [] {
      assert ps + qs == ps;
    } else {
      RunOn(b, ps, qs[..|qs| - 1]);
      assert (ps + qs)[..|ps + qs| - 1] == ps + qs[..|qs| - 1];
    }
  }

  lemma {:induction false} NoResetIsQuiet(b: Bench, ps: seq<Pins>)
    requires NoReset(ps)
    ensures QuietResets(b, ps)
  {
    if ps != [] {
      NoResetIsQuiet(b, ps[..|ps| - 1]);
    }
  }

  const IDLE := Pins(false, false, false, 0, ZERO)

  function Ask(write: bool, addr: Addr, wdata: Word): Pins {
    Pins(false, true, write, addr, wdata)
  }

  predicate Drained(b: Bench) {
    Held(b.controller) == 0
  }

  lemma RunThree(b: Bench, p: Pins, q: Pins, r: Pins)
    ensures Run(b, [p, q, r]) == Edge(Edge(Edge(b, p), q), r)
  {
    assert [p, q, r][..2] == [p, q];
    assert [p, q][..1] == [p];
    assert [p][..0] == [];
    assert Run(b, [p]) == Edge(b, p);
    assert Run(b, [p, q]) == Edge(Run(b, [p]), q);
  }

  /** One request alone on an idle controller, with stale entries ahead of it in the monitor's queue:
      its completion is credited to the oldest stale entry. */
  lemma Exchange(b: Bench, p: Pins) returns (after: Bench)
    requires Drained(b) && !p.rst && p.valid && |b.monitor.inflight| > 0
    ensures after == Run(b, [p, IDLE, IDLE])
    ensures Drained(after)
    ensures after.monitor.inflight == b.monitor.inflight[1..] + [Observe(p)]
    ensures after.controller.memory ==
            if p.write then b.controller.memory[p.addr as int := p.wdata] else b.controller.memory
    ensures var head := b.monitor.inflight[0];
            head.write || !p.write ==>
              after.scoreboard == Score(b.scoreboard, Finish(head, b.controller.memory[p.addr as int]))
  {
    var b1 := Edge(b, p);
    var b2 := Edge(b1, IDLE);
    after := Edge(b2, IDLE);
    RunThree(b, p, IDLE, IDLE);
    assert b2.monitor.inflight == b1.monitor.inflight == b.monitor.inflight + [Observe(p)];
    assert b1.monitor.inflight[1..] == b.monitor.inflight[1..] + [Observe(p)];
  }

  /** The queue as the probe leaves it: anything, then the probe's write of v to address 1 at place k,
      then only reads of address 1; address 0 holds something else. */
  ghost predicate Primed(b: Bench, k: nat, v: Word) {
    && Drained(b) && k < |b.monitor.inflight|
    && b.monitor.inflight[k] == Observe(Ask(true, 1, v))
    && (forall i | k < i < |b.monitor.inflight| :: b.monitor.inflight[i] == Observe(Ask(false, 1, ZERO)))
    && b.controller.memory[0] != v
  }

  lemma {:induction false} PrimedFails(b: Bench, k: nat, v: Word) returns (qs: seq<Pins>)
    requires Primed(b, k, v)
    ensures NoReset(qs) && Run(b, qs).scoreboard.errors > 0
    decreases k
  {
    var read1 := Ask(false, 1, ZERO);
    var next := Exchange(b, read1);
    var rest: seq<Pins>;
    if k > 0 {
      rest := PrimedFails(next, k - 1, v);
    } else {
      rest := [Ask(false, 0, ZERO), IDLE, IDLE];
      var last := Exchange(next, rest[0]);
      assert next.monitor.inflight[0] == Observe(read1);
    }
    qs := [read1, IDLE, IDLE] + rest;
    RunOn(b, [read1, IDLE, IDLE], rest);
  }

  lemma StaleEntryShows(b: Bench) returns (qs: seq<Pins>)
    requires |b.monitor.inflight| > Held(b.controller)
    ensures NoReset(qs) && Run(b, qs).scoreboard.errors > 0
  {
    RunThree(b, IDLE, IDLE, IDLE);
    var quiet := Run(b, [IDLE, IDLE, IDLE]);
    var v := if quiet.controller.memory[0] == ZERO then UNKNOWN else ZERO;
    var write1 := Ask(true, 1, v);
    var next := Exchange(quiet, write1);
    var rest := PrimedFails(next, |next.monitor.inflight| - 1, v);
    RunOn(quiet, [write1, IDLE, IDLE], rest);
    RunOn(b, [IDLE, IDLE, IDLE], [write1, IDLE, IDLE] + rest);
    qs := [IDLE, IDLE, IDLE] + ([write1, IDLE, IDLE] + rest);
  }

  /** The scoreboard can never object from here on, whatever is presented, as long as resets are quiet. */
  ghost predicate NeverObjects(b: Bench) {
    forall qs | QuietResets(b, qs) :: Run(b, qs).scoreboard.errors == 0
  }

  /** The bench can be trusted after a run exactly when every reset of the run found valid and pending low. */
  lemma TrustedIffQuietResets(c: Controller, ps: seq<Pins>)
    requires PowerUp(c)
    ensures NeverObjects(Run(Start(c), ps)) <==> QuietResets(Start(c), ps)
  {
    var b := Run(Start(c), ps);
    if QuietResets(Start(c), ps) {
      forall qs | QuietResets(b, qs)
        ensures Run(b, qs).scoreboard.errors == 0
      {
        RunOn(Start(c), ps, qs);
        RefinesAtomicMemory(c, ps + qs);
      }
    } else {
      InStepIffQuietResets(c, ps);
      QueueLength(c, ps);
      var qs := StaleEntryShows(b);
      NoResetIsQuiet(b, qs);
    }
  }
}
