/** The clocked behaviour of the memory controller and of the bench around it, as functions.

    One step is one rising clock edge.  The controller and the monitor both sample the values the
    pins carried just before the edge.  Data words and one-bit levels keep their unknown values, so
    the model also covers the edges before the first reset. */
module MemoryBench {
  import opened Wrappers

  const WORDS := 256

  newtype Addr = x: int | 0 <= x < 256

  /** A 32-bit four-state word: a bit is x or z where `bval` is set.  Equality is the `===` operator. */
  datatype Word = Word(aval: bv32, bval: bv32)

  const ZERO := Word(0, 0)
  const UNKNOWN := Word(0xFFFF_FFFF, 0xFFFF_FFFF)

  /** A one-bit four-state level; a condition is taken only on High. */
  datatype Level = Low | High | Undefined

  type Memory = m: seq<Word> | |m| == WORDS witness seq(256, _ => ZERO)

  datatype Pins = Pins(rst: bool, valid: bool, write: bool, addr: Addr, wdata: Word)

  datatype Transaction = Transaction(write: bool, addr: Addr, wdata: Word, rdata: Word)

  function ZeroMemory(): Memory {
    seq(WORDS, _ => ZERO)
  }

  // ----- the controller

  datatype Controller = Controller(
    memory: Memory,
    pending: Level, pendingWrite: bool, pendingAddr: Addr, pendingWdata: Word,
    ready: Level, rdata: Word)

  /** The controller at power-up: a zeroed memory and registers that hold anything. */
  predicate PowerUp(c: Controller) {
    c.memory == ZeroMemory() && c.pending == Undefined && c.ready == Undefined
  }

  function Level1(b: bool): Level {
    if b then High else Low
  }

  function ControllerEdge(c: Controller, p: Pins): Controller {
    if p.rst then
      c.(ready := Low, rdata := ZERO, pending := Low, pendingWrite := false, pendingAddr := 0, pendingWdata := ZERO)
    else
      var done := c.pending.High?;
      Controller(
        if done && c.pendingWrite then c.memory[c.pendingAddr as int := c.pendingWdata] else c.memory,
        Level1(p.valid),
        if p.valid then p.write else c.pendingWrite,
        if p.valid then p.addr else c.pendingAddr,
        if p.valid then p.wdata else c.pendingWdata,
        Level1(done),
        if done && !c.pendingWrite then c.memory[c.pendingAddr as int] else c.rdata)
  }

  // ----- the monitor

  /** The transaction object the monitor builds from a valid request; what it does not set stays unknown. */
  function Observe(p: Pins): Transaction {
    Transaction(p.write, p.addr, if p.write then p.wdata else UNKNOWN, UNKNOWN)
  }

  function Finish(t: Transaction, rdata: Word): Transaction {
    if t.write then t else t.(rdata := rdata)
  }

  function AfterRequest(inflight: seq<Transaction>, p: Pins): seq<Transaction> {
    if p.valid then inflight + [Observe(p)] else inflight
  }

  datatype Monitor = Monitor(inflight: seq<Transaction>, published: seq<Transaction>)

  function MonitorEdge(m: Monitor, p: Pins, ready: Level, rdata: Word): Monitor {
    var q := AfterRequest(m.inflight, p);
    if ready.High? && |q| > 0 then Monitor(q[1..], m.published + [Finish(q[0], rdata)])
    else Monitor(q, m.published)
  }

  // ----- the scoreboard

  datatype Scoreboard = Scoreboard(expected: Memory, errors: nat)

  function Score(s: Scoreboard, t: Transaction): Scoreboard {
    if t.write then s.(expected := s.expected[t.addr as int := t.wdata])
    else if s.expected[t.addr as int] == t.rdata then s
    else s.(errors := s.errors + 1)
  }

  function ScoreAll(s: Scoreboard, ts: seq<Transaction>): Scoreboard {
    if ts == [] then s else Score(ScoreAll(s, ts[..|ts| - 1]), ts[|ts| - 1])
  }

  // ----- all of them on one clock

  datatype Bench = Bench(controller: Controller, monitor: Monitor, scoreboard: Scoreboard)

  function Start(c: Controller): Bench {
    Bench(c, Monitor([], []), Scoreboard(ZeroMemory(), 0))
  }

  function Edge(b: Bench, p: Pins): Bench {
    var m := MonitorEdge(b.monitor, p, b.controller.ready, b.controller.rdata);
    Bench(ControllerEdge(b.controller, p), m,
          if |m.published| > |b.monitor.published| then Score(b.scoreboard, m.published[|m.published| - 1])
          else b.scoreboard)
  }

  function Run(b: Bench, ps: seq<Pins>): Bench {
    if ps == [] then b else Edge(Run(b, ps[..|ps| - 1]), ps[|ps| - 1])
  }

  // ----- the driver

  /** What the driver puts on the pins for the next edge: one item, or an empty cycle. */
  function Drive(p: Pins, item: Option<Transaction>): Pins {
    match item
    case Some(t) => p.(valid := true, write := t.write, addr := t.addr, wdata := t.wdata)
    case None => p.(valid := false)
  }
}
