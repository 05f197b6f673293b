/** The controller, driver, monitor and scoreboard as the clocked objects they are, and a bench that
    clocks them together.  Each is tied to its step function in MemoryBench. */
module MemoryComponents {
  import opened Wrappers
  import opened MemoryBench
  import opened MemoryRefinement
  import opened MemoryTrust
  import opened MemoryDrain

  class MemoryController {
    const memory: array<Word>
    var pending: Level
    var pendingWrite: bool
    var pendingAddr: Addr
    var pendingWdata: Word
    var ready: Level
    var rdata: Word

    ghost predicate Valid()
      reads this
    {
      memory.Length == WORDS
    }

    ghost function State(): Controller
      requires Valid()
      reads this, memory
    {
      Controller(memory[..], pending, pendingWrite, pendingAddr, pendingWdata, ready, rdata)
    }

    /** Power-up: the memory is zeroed; the registers hold anything until the first edge. */
    constructor (pendingWrite: bool, pendingAddr: Addr, pendingWdata: Word, rdata: Word)
      ensures Valid() && fresh(memory) && PowerUp(State())
      ensures pending == Undefined && ready == Undefined && forall i | 0 <= i < 256 :: memory[i] == Word(0, 0)
    {
      memory := new Word[WORDS](_ => ZERO);
      pending, ready := Undefined, Undefined;
      this.pendingWrite, this.pendingAddr, this.pendingWdata := pendingWrite, pendingAddr, pendingWdata;
      this.rdata := rdata;
      new;
      assert memory[..] == ZeroMemory();
    }

    /** One rising edge.  The assignments take effect together, so each reads the values from before. */
    method ClockEdge(p: Pins)
      requires Valid()
      modifies this, memory
      ensures Valid() && State() == ControllerEdge(old(State()), p)
    {
      if p.rst {
        ready, rdata := Low, ZERO;
        pending, pendingWrite, pendingAddr, pendingWdata := Low, false, 0, ZERO;
      } else {
        ready := Low;
        if pending.High? {
          if pendingWrite {
            memory[pendingAddr as int] := pendingWdata;
          } else {
            rdata := memory[pendingAddr as int];
          }
          ready := High;
        }
        pending := Level1(p.valid);
        if p.valid {
          pendingWrite, pendingAddr, pendingWdata := p.write, p.addr, p.wdata;
        }
      }
    }
  }

  class MemoryMonitor {
    var inflight: seq<Transaction>
    ghost var published: seq<Transaction>

    ghost function State(): Monitor
      reads this
    {
      Monitor(inflight, published)
    }

    constructor ()
      ensures State() == Monitor([], [])
    {
      inflight, published := [], [];
    }

    /** One rising edge: record a request that shows up, then publish the oldest one if ready is seen. */
    method Sample(p: Pins, ready: Level, rdata: Word) returns (finished: Option<Transaction>)
      modifies this
      ensures State() == MonitorEdge(old(State()), p, ready, rdata)
      ensures published == match finished case None => old(published) case Some(t) => old(published) + [t]
    {
      finished := None;
      if p.valid {
        inflight := inflight + [Observe(p)];
      }
      if ready.High? && |inflight| > 0 {
        var t := inflight[0];
        inflight := inflight[1..];
        if !t.write {
          t := t.(rdata := rdata);
        }
        finished := Some(t);
        published := published + [t];
      }
    }
  }

  class MemoryScoreboard {
    const expected: array<Word>
    var errors: nat

    ghost predicate Valid()
      reads this
    {
      expected.Length == WORDS
    }

    ghost function State(): Scoreboard
      requires Valid()
      reads this, expected
    {
      Scoreboard(expected[..], errors)
    }

    constructor ()
      ensures Valid() && fresh(expected) && State() == Scoreboard(ZeroMemory(), 0)
    {
      expected := new Word[WORDS];
      errors := 0;
      new;
      for i := 0 to WORDS
        invariant errors == 0
        invariant forall k | 0 <= k < i :: expected[k] == ZERO
      {
        expected[i] := ZERO;
      }
      assert expected[..] == ZeroMemory();
    }

    method Write(t: Transaction)
      requires Valid()
      modifies this, expected
      ensures Valid() && State() == Score(old(State()), t)
    {
      if t.write {
        expected[t.addr as int] := t.wdata;
      } else if expected[t.addr as int] != t.rdata {
        errors := errors + 1;
      }
    }
  }

  class MemoryDriver {
    var pins: Pins

    constructor (idle: Pins)
      ensures pins == idle
    {
      pins := idle;
    }

    /** One rising edge: present the next item if the sequencer has one, else an empty cycle. */
    method ClockEdge(item: Option<Transaction>)
      modifies this
      ensures pins == Drive(old(pins), item)
    {
      match item {
        case Some(t) =>
          pins := pins.(write := t.write, addr := t.addr, wdata := t.wdata);
          pins := pins.(valid := true);
        case None =>
          pins := pins.(valid := false);
      }
    }
  }

  class TestBench {
    const controller: MemoryController
    const monitor: MemoryMonitor
    const scoreboard: MemoryScoreboard
    const driver: MemoryDriver

    ghost predicate Valid()
      reads this, controller, scoreboard
    {
      && controller.Valid() && scoreboard.Valid()
      && controller.memory != scoreboard.expected
    }

    ghost function Parts(): set<object> {
      {controller, controller.memory, monitor, scoreboard, scoreboard.expected, driver}
    }

    ghost function State(): Bench
      reads this, controller, controller.memory, monitor, scoreboard, scoreboard.expected
      requires Valid()
    {
      Bench(controller.State(), monitor.State(), scoreboard.State())
    }

    constructor (idle: Pins, pendingWrite: bool, pendingAddr: Addr, pendingWdata: Word, rdata: Word)
      ensures Valid() && fresh(Parts())
      ensures PowerUp(State().controller) && State() == Start(State().controller) && driver.pins == idle
    {
      controller := new MemoryController(pendingWrite, pendingAddr, pendingWdata, rdata);
      monitor := new MemoryMonitor();
      scoreboard := new MemoryScoreboard();
      driver := new MemoryDriver(idle);
    }

    /** Every component sees the values from before the edge. */
    method ClockEdge(item: Option<Transaction>)
      requires Valid()
      modifies Parts()
      ensures Valid()
      ensures State() == Edge(old(State()), old(driver.pins))
      ensures driver.pins == Drive(old(driver.pins), item)
    {
      SampleAndClock();
      driver.ClockEdge(item);
    }

    /** An edge for everything but the driver. */
    method SampleAndClock()
      requires Valid()
      modifies Parts() - {driver}
      ensures Valid()
      ensures State() == Edge(old(State()), driver.pins)
    {
      var p := driver.pins;
      var finished := monitor.Sample(p, controller.ready, controller.rdata);
      if finished.Some? {
        scoreboard.Write(finished.value);
      }
      controller.ClockEdge(p);
    }

    /** The run phase over a finite stretch of edges. */
    method Play(items: Items)
      requires Valid()
      modifies Parts()
      ensures Valid()
      ensures State() == Run(old(State()), Sampled(old(driver.pins), items))
      ensures driver.pins == HeldPins(old(driver.pins), items)
    {
      for i := 0 to |items|
        invariant Valid()
        invariant State() == Run(old(State()), Sampled(old(driver.pins), items[..i]))
        invariant driver.pins == HeldPins(old(driver.pins), items[..i])
      {
        PlayOne(old(State()), old(driver.pins), items, i);
        ClockEdge(items[i]);
      }
      assert items[..|items|] == items;
    }

    /** Let the pipeline drain before a test ends. */
    method WaitIdle(cycles: nat := 4)
      requires Valid()
      modifies Parts()
      ensures Valid()
      ensures State() == Run(old(State()), Sampled(old(driver.pins), Empty(cycles)))
      ensures driver.pins == HeldPins(old(driver.pins), Empty(cycles))
    {
      Play(Empty(cycles));
    }

    /** The reset line held high for some edges; the driver waits for it to fall. */
    method Reset(edges: nat)
      requires Valid()
      modifies Parts()
      ensures Valid()
      ensures driver.pins == old(driver.pins).(rst := false)
      ensures State() == Run(old(State()), Booting(edges, driver.pins))
    {
      ghost var idle := driver.pins.(rst := false);
      driver.pins := driver.pins.(rst := true);
      for i := 0 to edges
        invariant Valid() && driver.pins == idle.(rst := true)
        invariant State() == Run(old(State()), Booting(i, idle))
      {
        SampleAndClock();
        assert Booting(i + 1, idle)[..i] == Booting(i, idle);
      }
      driver.pins := driver.pins.(rst := false);
    }

    /** A test: hold reset, play the sequence, whose end is the edge that hands over its last item, then drain. */
    method RunTest(boot: nat, items: Items)
      requires Valid() && PowerUp(State().controller) && State() == Start(State().controller)
      requires !driver.pins.valid
      requires items != [] && items[|items| - 1].Some?
      modifies Parts()
      ensures Valid()
      ensures State().monitor == Monitor([], History(Requests(items)))
      ensures scoreboard.errors == 0
      ensures LegalHistory(State().monitor.published)
    {
      ghost var c := controller.State();
      Reset(boot);
      ghost var idle := driver.pins;
      Play(items);
      WaitIdle();
      SessionRun(c, boot, idle, items, 4);
      DrainedIffThreeEdges(c, boot, idle, items, 4);
      HistoryIsLegal(Requests(items));
    }
  }
}
