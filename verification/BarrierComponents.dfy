/** The barrier and the event it waits on, as objects; a task that suspends its caller leaves it queued on an
    event object of the simulator. */
module BarrierComponents {
  import opened BarrierModel

  /** A simulator event: the processes suspended on it. */
  class SimEvent {
    var suspended: seq<Pid>

    constructor ()
      ensures suspended == []
    {
      suspended := [];
    }

    method Wake() returns (woken: seq<Pid>)
      modifies this
      ensures woken == old(suspended) && suspended == []
    {
      woken, suspended := suspended, [];
    }
  }

  class UvmEvent {
    var mEvent: SimEvent
    var numWaiters: int
    var on: bool

    constructor ()
      ensures fresh(mEvent) && mEvent.suspended == [] && numWaiters == 0 && !on
    {
      mEvent := new SimEvent();
      numWaiters, on := 0, false;
    }

    method WaitTrigger(p: Pid)
      modifies this`numWaiters, mEvent
      ensures numWaiters == old(numWaiters) + 1 && mEvent.suspended == old(mEvent.suspended) + [p]
    {
      numWaiters := numWaiters + 1;
      mEvent.suspended := mEvent.suspended + [p];
    }

    method Trigger() returns (woken: seq<Pid>)
      modifies this`numWaiters, this`on, mEvent
      ensures woken == old(mEvent.suspended) && mEvent.suspended == [] && numWaiters == 0 && on
    {
      on := true;
      woken := mEvent.Wake();
      numWaiters := 0;
    }

    /** The event object is replaced: whoever is suspended on the old one and is not woken stays there. */
    method Reset(wakeup: bool) returns (woken: seq<Pid>)
      modifies this, mEvent
      ensures fresh(mEvent) && mEvent.suspended == [] && numWaiters == 0 && !on
      ensures woken == (if wakeup then old(mEvent.suspended) else [])
      ensures old(mEvent).suspended == if wakeup then [] else old(mEvent.suspended)
    {
      woken := [];
      if wakeup { woken := mEvent.Wake(); }
      mEvent := new SimEvent();
      numWaiters, on := 0, false;
    }

    method Cancel()
      modifies this`numWaiters
      ensures numWaiters == if old(numWaiters) > 0 then old(numWaiters) - 1 else old(numWaiters)
    {
      if numWaiters > 0 { numWaiters := numWaiters - 1; }
    }
  }

  class UvmBarrier {
    var threshold: int
    var numWaiters: int
    var atThreshold: bool
    var autoReset: bool
    const mEvent: UvmEvent
    ghost var stranded: seq<Pid>
    ghost var killed: seq<Pid>
    ghost var batches: seq<seq<Pid>>

    constructor (threshold: int)
      ensures State() == Start(threshold) && fresh(mEvent) && fresh(mEvent.mEvent)
    {
      this.threshold, numWaiters, atThreshold, autoReset := threshold, 0, false, true;
      mEvent := new UvmEvent();
      stranded, killed, batches := [], [], [];
    }

    ghost function State(): Barrier
      reads this, mEvent, mEvent.mEvent
    {
      Barrier(threshold, numWaiters, atThreshold, autoReset, mEvent.numWaiters, mEvent.mEvent.suspended, stranded,
              killed, batches)
    }

    /** passed tells whether the caller goes on at once; woken are the processes it sets free before itself. */
    method WaitFor(p: Pid) returns (passed: bool, woken: seq<Pid>)
      modifies this, mEvent, mEvent.mEvent
      ensures mEvent.mEvent == old(mEvent.mEvent)
      ensures State() == After(old(State()), BarrierModel.WaitFor(p))
      ensures passed <==> old(atThreshold) || old(numWaiters) + 1 >= old(threshold)
      ensures passed ==> batches == old(batches) + [woken + [p]]
      ensures !passed ==> batches == old(batches) && woken == []
    {
      woken := [];
      if atThreshold {
        batches := batches + [[p]];
        assert [] + [p] == [p];
        return true, [];
      }
      numWaiters := numWaiters + 1;
      if numWaiters >= threshold {
        if !autoReset { atThreshold := true; }
        woken := Release();
        batches := batches + [woken + [p]];
        return true, woken;
      }
      mEvent.WaitTrigger(p);
      passed := false;
    }

    method Release() returns (woken: seq<Pid>)
      modifies this`numWaiters, mEvent, mEvent.mEvent
      ensures mEvent.mEvent == old(mEvent.mEvent)
      ensures woken == old(mEvent.mEvent.suspended) && mEvent.mEvent.suspended == []
      ensures numWaiters == 0 && mEvent.numWaiters == 0
    {
      woken := mEvent.Trigger();
      numWaiters := 0;
    }

    method Reset(wakeup: bool) returns (woken: seq<Pid>)
      modifies this, mEvent, mEvent.mEvent
      ensures mEvent.mEvent == old(mEvent.mEvent) || fresh(mEvent.mEvent)
      ensures State() == After(old(State()), BarrierModel.Reset(wakeup))
      ensures woken == if wakeup && old(numWaiters) != 0 then old(mEvent.mEvent.suspended) else []
      ensures !wakeup ==> old(mEvent.mEvent).suspended == old(mEvent.mEvent.suspended)
      ensures batches == if wakeup && old(numWaiters) != 0 then old(batches) + [woken] else old(batches)
      ensures stranded == if !wakeup && old(numWaiters) != 0 then old(stranded) + old(mEvent.mEvent.suspended)
                          else old(stranded)
    {
      woken := [];
      atThreshold := false;
      if numWaiters != 0 {
        if wakeup {
          woken := mEvent.Trigger();
          batches := batches + [woken];
          assert woken + [] == woken;
        } else {
          stranded := stranded + mEvent.mEvent.suspended;
          var _ := mEvent.Reset(false);
        }
      }
      numWaiters := 0;
    }

    method SetAutoReset(value: bool)
      modifies this
      ensures State() == After(old(State()), BarrierModel.SetAutoReset(value))
    {
      atThreshold := false;
      autoReset := value;
    }

    method SetThreshold(t: int) returns (woken: seq<Pid>)
      modifies this, mEvent, mEvent.mEvent
      ensures mEvent.mEvent == old(mEvent.mEvent) || fresh(mEvent.mEvent)
      ensures State() == After(old(State()), BarrierModel.SetThreshold(t))
      ensures woken == if t <= old(numWaiters) != 0 then old(mEvent.mEvent.suspended) else []
      ensures batches == if t <= old(numWaiters) != 0 then old(batches) + [woken] else old(batches)
      ensures stranded == old(stranded) && threshold == t
    {
      threshold := t;
      woken := [];
      if t <= numWaiters { woken := Reset(true); }
    }

    method Cancel()
      modifies this`numWaiters, mEvent`numWaiters
      ensures State() == After(old(State()), BarrierModel.Cancel)
    {
      mEvent.Cancel();
      numWaiters := mEvent.numWaiters;
    }

    /** Not a call of the barrier: the simulator ends a suspended process. */
    method Kill(victim: Pid)
      modifies this`killed, mEvent.mEvent
      ensures mEvent.mEvent == old(mEvent.mEvent)
      ensures State() == After(old(State()), BarrierModel.Kill(victim))
    {
      if victim in mEvent.mEvent.suspended {
        mEvent.mEvent.suspended := Without(mEvent.mEvent.suspended, victim);
        killed := killed + [victim];
      }
    }
  }

  /** Any sequence of calls, in whatever order the processes make them. */
  method Play(threshold: int, ops: seq<Op>) returns (b: UvmBarrier)
    ensures fresh(b) && b.State() == Run(Start(threshold), ops)
    ensures b.numWaiters == b.mEvent.numWaiters && (b.numWaiters == 0 || 0 < b.numWaiters < b.threshold)
  {
    b := new UvmBarrier(threshold);
    var i := 0;
    while i < |ops|
      invariant 0 <= i <= |ops| && fresh(b) && fresh(b.mEvent) && fresh(b.mEvent.mEvent)
      invariant b.State() == Run(Start(threshold), ops[..i])
    {
      Perform(b, ops[i]);
      assert ops[..i + 1][..i] == ops[..i];
      i := i + 1;
    }
    assert ops[..i] == ops;
    CountsStayValid(threshold, ops);
  }

  method Perform(b: UvmBarrier, o: Op)
    modifies b, b.mEvent, b.mEvent.mEvent
    ensures b.mEvent.mEvent == old(b.mEvent.mEvent) || fresh(b.mEvent.mEvent)
    ensures b.State() == After(old(b.State()), o)
  {
    match o
    case WaitFor(p) => var _, _ := b.WaitFor(p);
    case Cancel => b.Cancel();
    case Reset(wakeup) => var _ := b.Reset(wakeup);
    case SetThreshold(t) => var _ := b.SetThreshold(t);
    case SetAutoReset(value) => b.SetAutoReset(value);
    case Kill(p) => b.Kill(p);
  }
}
