/** The probe registry, the linked change list and the notifier of the polling code, over the heap. */
module PollingHooks {
  import opened PollingModel
  import opened Wrappers

  /** One probed signal, as the simulator's callback sees it. */
  class HookRecord {
    const svKey: nat
    var onChangeList: bool
    var changeListLink: HookRecord?
    var callback: bool

    constructor (key: nat)
      ensures svKey == key && !onChangeList && !callback
    {
      svKey, onChangeList, changeListLink, callback := key, false, null, false;
    }

    method SetEnableCallback(enable: bool)
      modifies this`callback
      ensures callback == enable
    {
      if enable {
        if !callback { callback := true; }
      } else {
        if callback { callback := false; }
      }
    }
  }

  /** One polling object of the testbench. */
  class Probe {
    var key: int
    var signalName: string
    var handle: HookRecord?
    var callbackRegistered: bool

    constructor ()
      ensures handle == null && !callbackRegistered
    {
      key, signalName, handle, callbackRegistered := 0, "", null, false;
    }

    ghost predicate Attached(fullname: string, enable: bool, k: int)
      reads this, handle
    {
      && handle != null && handle.svKey == key == k && handle.callback == enable
      && signalName == fullname && callbackRegistered == enable
    }

    method Attach(fullname: string, hook: HookRecord, enable: bool)
      modifies this, hook`callback
      ensures handle == hook && Attached(fullname, enable, hook.svKey)
    {
      signalName := fullname;
      handle := hook;
      callbackRegistered := enable;
      hook.SetEnableCallback(enable);
      key := hook.svKey;
    }
  }

  function Next(s: seq<HookRecord>, i: nat): HookRecord? {
    if i + 1 < |s| then s[i + 1] else null
  }

  /** first, linked by its next references, runs through exactly the records of s. */
  ghost predicate Linked(first: HookRecord?, s: seq<HookRecord>)
    reads (set h | h in s)`changeListLink
  {
    && first == (if s == [] then null else s[0])
    && forall i | 0 <= i < |s| :: s[i].changeListLink == Next(s, i)
  }

  /** log are the probes that the records of served belong to. */
  ghost predicate Logged(owner: map<HookRecord, Probe>, log: seq<Probe>, served: seq<HookRecord>) {
    |log| == |served| && forall i | 0 <= i < |log| :: served[i] in owner && log[i] == owner[served[i]]
  }

  lemma LoggedMore(owner: map<HookRecord, Probe>, log: seq<Probe>, served: seq<HookRecord>, rec: HookRecord)
    requires Logged(owner, log, served) && rec in owner
    ensures Logged(owner, log + [owner[rec]], served + [rec])
  {
  }

  function Keys(s: seq<HookRecord>): (r: seq<nat>)
    ensures |r| == |s| && forall i | 0 <= i < |s| :: r[i] == s[i].svKey
  {
    seq(|s|, i requires 0 <= i < |s| => s[i].svKey)
  }

  function Keyed(s: System<HookRecord>): System<nat> {
    System(Keys(s.pending), s.waker, Keys(s.notified), s.fatal)
  }

  function KeyedEvent(e: Event<HookRecord>): Event<nat> {
    match e
    case Change(h) => Change(h.svKey)
    case SetUp => SetUp
    case Run => Run
    case Notify => Notify
    case Finish => Finish
  }

  lemma KeysOfPush(pending: seq<HookRecord>, h: HookRecord)
    requires forall g | g in pending && g.svKey == h.svKey :: g == h
    ensures Keys(Push(pending, h)) == Push(Keys(pending), h.svKey)
  {
    if h in pending {
      var i :| 0 <= i < |pending| && pending[i] == h;
      assert Keys(pending)[i] == h.svKey;
    } else {
      assert Keys([h] + pending) == [h.svKey] + Keys(pending);
    }
  }

  lemma KeyedAttended(s: System<HookRecord>)
    ensures Attended(Keyed(s)) <==> Attended(s)
  {
  }

  /** Where no two records share a key, an event on records is the event on their keys. */
  lemma KeyedAfter(s: System<HookRecord>, e: Event<HookRecord>)
    requires e.Change? ==> forall g | g in s.pending && g.svKey == e.h.svKey :: g == e.h
    ensures Keyed(After(s, e)) == After(Keyed(s), KeyedEvent(e))
  {
    match e
    case Change(h) => KeysOfPush(s.pending, h);
    case Notify =>
      if s.waker.Draining? && s.pending != [] {
        assert Keys(s.pending[1..]) == Keys(s.pending)[1..];
        assert Keys(s.notified + [s.pending[0]]) == Keys(s.notified) + [Keys(s.pending)[0]];
      }
    case _ =>
  }

  class Polling {
    var changeList: HookRecord?
    var notifier: Option<bool>
    var instanceCount: nat
    var probesByKey: map<nat, Probe>
    var probesByName: map<string, Probe>
    var waker: Waker
    var fatal: bool
    ghost var hooks: set<HookRecord>
    ghost var owner: map<HookRecord, Probe>
    ghost var pending: seq<HookRecord>
    ghost var notified: seq<HookRecord>

    constructor ()
      ensures Valid() && State() == Trace([]) && hooks == {} && instanceCount == 0
      ensures probesByKey == map[] && probesByName == map[]
    {
      changeList, notifier, instanceCount, probesByKey, probesByName := null, None, 0, map[], map[];
      waker, fatal, hooks, owner, pending, notified := Absent, false, {}, map[], [], [];
    }

    /** The list is acyclic, and a record's flag says whether it is on it. */
    ghost predicate ListValid()
      reads `changeList, `pending, `hooks, hooks`onChangeList, hooks`changeListLink
    {
      && (forall h | h in pending :: h in hooks)
      && (forall h | h in hooks :: h.onChangeList <==> h in pending)
      && Distinct(pending)
      && Linked(changeList, pending)
    }

    /** Every record's key leads back to the probe it was made for, and no two records share a key. */
    ghost predicate KeysValid()
      reads `instanceCount, `probesByKey, `hooks, `owner
    {
      && owner.Keys == hooks
      && (forall h | h in hooks ::
            h.svKey < instanceCount && h.svKey in probesByKey && probesByKey[h.svKey] == owner[h])
      && (forall g, h | g in hooks && h in hooks && g.svKey == h.svKey :: g == h)
    }

    ghost predicate Valid()
      reads this, hooks`onChangeList, hooks`changeListLink
    {
      ListValid() && KeysValid() && (notifier.None? <==> waker.Absent?)
    }

    ghost predicate AllKnown(hs: seq<HookRecord>)
      reads `hooks
    {
      forall h | h in hs :: h in hooks
    }

    /** The changes that user callbacks raise are on known records. */
    ghost predicate Raisable(script: seq<seq<HookRecord>>)
      reads `hooks
    {
      forall k | 0 <= k < |script| :: AllKnown(script[k])
    }

    ghost function State(): System<HookRecord>
      reads this
    {
      System(pending, waker, notified, fatal)
    }

    // ----- the change list

    method GetNewestEntry() returns (rec: HookRecord?)
      requires ListValid()
      modifies this`changeList, this`pending, hooks
      ensures ListValid()
      ensures rec == (if old(pending) == [] then null else old(pending)[0])
      ensures pending == (if old(pending) == [] then [] else old(pending)[1..])
    {
      rec := changeList;
      if rec != null {
        changeList := rec.changeListLink;
        rec.onChangeList := false;
        pending := pending[1..];
        forall i | 0 <= i < |pending| ensures pending[i].changeListLink == Next(pending, i) {
          assert pending[i] == old(pending)[i + 1] != rec;
          assert Next(pending, i) == Next(old(pending), i + 1);
        }
        assert changeList == Next(old(pending), 0);
      }
    }

    method PushIfNeeded(rec: HookRecord)
      requires ListValid() && rec in hooks
      modifies this`changeList, this`pending, hooks
      ensures ListValid()
      ensures pending == if rec in old(pending) then old(pending) else [rec] + old(pending)
    {
      if !rec.onChangeList {
        rec.onChangeList := true;
        rec.changeListLink := changeList;
        changeList := rec;
        pending := [rec] + pending;
        forall i | 0 < i < |pending| ensures pending[i].changeListLink == Next(pending, i) {
          assert pending[i] == old(pending)[i - 1] != rec;
          assert Next(pending, i) == Next(old(pending), i - 1);
        }
        assert rec.changeListLink == Next(pending, 0);
      }
    }

    /** Without a notifier a fatal error is reported. */
    method ToggleNotifier() returns (ok: bool)
      modifies this`notifier, this`fatal
      ensures ok == old(notifier.Some?) && notifier == if ok then Some(!old(notifier).value) else None
      ensures fatal == (old(fatal) || !ok)
    {
      ok := notifier.Some?;
      if ok { notifier := Some(!notifier.value); } else { fatal := true; }
    }

    /** The simulator reports a change: only the first one of a batch toggles the notifier. */
    method ValueChangeCallback(hook: HookRecord?) returns (ok: bool)
      requires Valid() && (hook != null ==> hook in hooks)
      modifies this`changeList, this`pending, this`notifier, this`fatal, hooks
      ensures Valid()
      ensures hook == null ==> !ok && fatal && pending == old(pending) && notifier == old(notifier)
      ensures hook != null ==> fatal == (old(fatal) || !ok)
      ensures hook != null ==> pending == if hook in old(pending) then old(pending) else [hook] + old(pending)
      ensures hook != null ==> ok == (old(pending) != [] || old(notifier.Some?))
      ensures hook != null ==> notifier == if old(pending) != [] then old(notifier)
                                           else if old(notifier.Some?) then Some(!old(notifier).value) else None
    {
      if hook == null {
        fatal := true;
        return false;
      }
      var requireNotification := changeList == null;
      PushIfNeeded(hook);
      ok := true;
      if requireNotification {
        ok := ToggleNotifier();
      }
    }

    /** The key found in a record is turned back into the probe; null stands for the invalid-key report. */
    method ValueChangeNotify(svKey: int) returns (probe: Probe?)
      requires KeysValid()
      ensures forall h | h in hooks && h.svKey == svKey :: probe == owner[h]
      ensures svKey < 0 || svKey >= instanceCount ==> probe == null
    {
      probe := null;
      if 0 <= svKey < instanceCount {
        if svKey in probesByKey { probe := probesByKey[svKey]; }
      }
    }

    method RaiseAll(hs: seq<HookRecord>)
      requires Valid() && AllKnown(hs)
      modifies this`changeList, this`pending, this`notifier, this`fatal, hooks
      ensures Valid()
      ensures pending == PushAll(old(pending), hs)
      ensures notifier.Some? == old(notifier.Some?) && (notifier.Some? ==> fatal == old(fatal))
    {
      var i := 0;
      while i < |hs|
        invariant 0 <= i <= |hs| && Valid()
        invariant pending == PushAll(old(pending), hs[..i])
        invariant notifier.Some? == old(notifier.Some?) && (notifier.Some? ==> fatal == old(fatal))
      {
        var _ := ValueChangeCallback(hs[i]);
        assert hs[..i + 1][..i] == hs[..i];
        i := i + 1;
      }
      assert hs[..i] == hs;
    }

    /** The drain loop.  The k-th notification runs user callbacks that change the signals script[k]. */
    method ProcessChangelist(script: seq<seq<HookRecord>>) returns (log: seq<Probe>)
      requires Valid() && Raisable(script)
      modifies this`changeList, this`pending, this`notifier, this`fatal, hooks
      ensures Valid() && pending == []
      ensures Logged(owner, log, Drain(old(pending), script))
    {
      log := [];
      var rest := script;
      ghost var served: seq<HookRecord> := [];
      while changeList != null
        invariant Valid() && Raisable(rest)
        invariant Serving(old(pending), script, served, pending, rest)
        invariant Logged(owner, log, served)
        decreases |rest|, |pending|
      {
        ghost var newest := [pending[0]];
        log := ServeOne(old(pending), script, served, rest, log);
        served, rest := served + newest, Later(rest);
      }
    }

    method ServeOne(ghost start: seq<HookRecord>, ghost script: seq<seq<HookRecord>>, ghost served: seq<HookRecord>,
                    rest: seq<seq<HookRecord>>, log: seq<Probe>)
      returns (more: seq<Probe>)
      requires Valid() && Raisable(rest) && changeList != null && Serving(start, script, served, pending, rest)
      requires Logged(owner, log, served)
      modifies this`changeList, this`pending, this`notifier, this`fatal, hooks
      ensures Valid() && Raisable(Later(rest))
      ensures old(pending) != [] && pending == PushAll(old(pending)[1..], First(rest))
      ensures Serving(start, script, served + [old(pending)[0]], pending, Later(rest))
      ensures Logged(owner, more, served + [old(pending)[0]])
    {
      ServingStep(start, script, served, pending, rest);
      LoggedMore(owner, log, served, pending[0]);
      var probe := ServeNewest(First(rest));
      more := log + [probe];
    }

    /** One turn of the drain loop; raised are the signals changed inside the notification. */
    method ServeNewest(raised: seq<HookRecord>) returns (probe: Probe)
      requires Valid() && changeList != null && AllKnown(raised)
      modifies this`changeList, this`pending, this`notifier, this`fatal, hooks
      ensures Valid() && old(pending) != [] && pending == PushAll(old(pending)[1..], raised)
      ensures notifier.Some? == old(notifier.Some?) && (notifier.Some? ==> fatal == old(fatal))
      ensures old(pending)[0] in owner && probe == owner[old(pending)[0]]
    {
      probe := TakeNewest();
      RaiseAll(raised);
    }

    method TakeNewest() returns (probe: Probe)
      requires Valid() && changeList != null
      modifies this`changeList, this`pending, hooks
      ensures Valid() && old(pending) != [] && pending == old(pending)[1..]
      ensures old(pending)[0] in owner && probe == owner[old(pending)[0]]
    {
      var rec := GetNewestEntry();
      probe := ValueChangeNotify(rec.svKey);
    }

    // ----- probes

    /** A key is used up even when the signal is not found. */
    method CreateProbe(p: Probe, fullname: string, enable: bool, located: bool) returns (ok: bool)
      requires Valid()
      modifies this`instanceCount, this`probesByKey, this`probesByName, this`hooks, this`owner, p
      ensures Valid() && ok == located && instanceCount == old(instanceCount) + 1
      ensures ok ==> p.handle != null && fresh(p.handle) && p.handle.svKey == p.key == old(instanceCount)
      ensures ok ==> p.signalName == fullname && p.handle.callback == p.callbackRegistered == enable
      ensures ok ==> hooks == old(hooks) + {p.handle} && owner == old(owner)[p.handle := p]
      ensures ok ==> probesByName == old(probesByName)[fullname := p]
      ensures !ok ==> hooks == old(hooks) && owner == old(owner) && probesByName == old(probesByName)
      ensures !ok ==> probesByKey == old(probesByKey)
    {
      var key := instanceCount;
      instanceCount := instanceCount + 1;
      if !located { return false; }
      var handle := Register(p, fullname, key);
      p.Attach(fullname, handle, enable);
      ok := true;
    }

    method Register(p: Probe, fullname: string, key: nat) returns (handle: HookRecord)
      requires Valid() && key < instanceCount && forall h | h in hooks :: h.svKey != key
      modifies this`probesByKey, this`probesByName, this`hooks, this`owner
      ensures Valid() && fresh(handle) && handle.svKey == key
      ensures hooks == old(hooks) + {handle} && owner == old(owner)[handle := p]
      ensures probesByName == old(probesByName)[fullname := p]
    {
      handle := new HookRecord(key);
      probesByName := probesByName[fullname := p];
      probesByKey := probesByKey[key := p];
      hooks, owner := hooks + {handle}, owner[handle := p];
    }

    /** The probe of a path: the one made for it last, or a new one. */
    method GetPoll(pathname: string, located: bool) returns (p: Probe)
      requires Valid()
      modifies this`instanceCount, this`probesByKey, this`probesByName, this`hooks, this`owner
      ensures Valid() && old(hooks) <= hooks && forall h | h in old(hooks) :: h in owner && owner[h] == old(owner)[h]
      ensures pathname in old(probesByName) ==> p == old(probesByName)[pathname] && hooks == old(hooks)
      ensures pathname in old(probesByName) ==> instanceCount == old(instanceCount) && probesByName == old(probesByName)
      ensures pathname !in old(probesByName) ==> fresh(p) && instanceCount == old(instanceCount) + 2
      ensures pathname !in old(probesByName) && located ==>
                && p.handle in hooks && fresh(p.handle) && p.handle.svKey == old(instanceCount) + 1
                && hooks == old(hooks) + {p.handle} && owner[p.handle] == p
                && probesByName == old(probesByName)[pathname := p]
      ensures pathname !in old(probesByName) && !located ==> hooks == old(hooks) && probesByName == old(probesByName)
    {
      if pathname in probesByName { return probesByName[pathname]; }
      instanceCount := instanceCount + 1;
      p := new Probe();
      var _ := CreateProbe(p, pathname, true, located);
    }

    // ----- interleavings

    /** A process that waits sees the notifier only by its changing. */
    method ReportChange(h: HookRecord)
      requires Valid() && h in hooks
      modifies this`changeList, this`pending, this`notifier, this`fatal, this`waker, hooks
      ensures Valid()
      ensures State() == After(old(State()), Change(h))
    {
      var before := notifier;
      var _ := ValueChangeCallback(h);
      if waker.Waiting? && notifier != before { waker := Woken; }
    }

    method NotifyOne()
      requires Valid()
      modifies this`changeList, this`pending, this`notifier, this`fatal, this`notified, hooks
      ensures Valid()
      ensures State() == After(old(State()), Notify)
    {
      if waker.Draining? && changeList != null {
        notified := notified + [pending[0]];
        var _ := ServeNewest([]);
      }
    }

    /** One event: a change reported by the simulator, or a turn of the waking process. */
    method Step(e: Event<HookRecord>)
      requires Valid() && (e.Change? ==> e.h in hooks)
      modifies this`changeList, this`pending, this`notifier, this`fatal, this`waker, this`notified, hooks
      ensures Valid()
      ensures State() == After(old(State()), e)
    {
      match e
      case Change(h) => ReportChange(h);
      case SetUp =>
        if waker.Absent? { notifier, waker := Some(false), Waiting; }
      case Run =>
        if waker.Woken? { waker := Draining; }
      case Notify => NotifyOne();
      case Finish =>
        if waker.Draining? && changeList == null { waker := Waiting; }
    }

    /** The simulator calls back with the record that it was given for a signal. */
    ghost predicate Watches(r: Probes, records: map<nat, HookRecord>)
      reads `instanceCount, `probesByName, `hooks
    {
      && r.count == instanceCount && r.paths == probesByName.Keys && r.keys == records.Keys
      && forall k | k in records :: records[k] in hooks && records[k].svKey == k
    }

    /** A path that is asked for may bring a new signal to watch. */
    method Watch(path: string, located: bool, records: map<nat, HookRecord>, ghost r: Probes)
      returns (more: map<nat, HookRecord>)
      requires Valid() && Watches(r, records)
      modifies this`instanceCount, this`probesByKey, this`probesByName, this`hooks, this`owner
      ensures Valid() && Watches(Probed(r, path, located), more)
      ensures old(hooks) <= hooks && fresh(hooks - old(hooks))
    {
      var known := path in probesByName;
      var p := GetPoll(path, located);
      more := if !known && located then records[p.handle.svKey := p.handle] else records;
    }

    method StepByKey(e: Event<nat>, records: map<nat, HookRecord>, ghost r: Probes)
      requires Valid() && Watches(r, records) && Possible(r, e)
      modifies this`changeList, this`pending, this`notifier, this`fatal, this`waker, this`notified, hooks
      ensures Valid()
      ensures Keyed(State()) == After(Keyed(old(State())), e)
    {
      var byRecord := match e
        case Change(k) => Change(records[k])
        case SetUp => SetUp
        case Run => Run
        case Notify => Notify
        case Finish => Finish;
      KeyedAfter(State(), byRecord);
      Step(byRecord);
    }

    /** Probes and change list are as in the model. */
    ghost predicate Abreast(b: Bench, records: map<nat, HookRecord>)
      reads this, hooks`onChangeList, hooks`changeListLink
    {
      Valid() && Watches(b.probes, records) && Keyed(State()) == b.system
    }

    method Act(h: Happening, ghost b: Bench, records: map<nat, HookRecord>) returns (more: map<nat, HookRecord>)
      requires Abreast(b, records)
      modifies this, hooks
      ensures Abreast(BenchAfter(b, h), more) && hooks >= old(hooks) && fresh(hooks - old(hooks))
    {
      match h
      case Probing(path, located) => more := Watch(path, located, records, b.probes);
      case Happens(e) =>
        more := records;
        if !e.Change? || e.h in records { StepByKey(e, records, b.probes); }
    }

    /** Any interleaving of events and of probes being made, from the start. */
    method Play(hs: seq<Happening>)
      requires Valid() && State() == Trace([]) && hooks == {} && instanceCount == 0
      requires probesByKey == map[] && probesByName == map[]
      modifies this
      ensures Valid() && instanceCount == BenchOf(hs).probes.count && probesByName.Keys == BenchOf(hs).probes.paths
      ensures Keyed(State()) == Trace(Events(hs))
      ensures fatal <==> ChangeBeforeSetUp(Events(hs))
      ensures SetUp in Events(hs) ==> (Attended(State()) <==> !fatal)
    {
      PlayAll(hs);
      BenchIsTrace(hs);
      NoLostWakeUp(Events(hs));
      KeyedAttended(State());
    }

    method PlayAll(hs: seq<Happening>)
      requires Abreast(BenchOf([]), map[]) && hooks == {}
      modifies this
      ensures Valid() && Keyed(State()) == BenchOf(hs).system
      ensures instanceCount == BenchOf(hs).probes.count && probesByName.Keys == BenchOf(hs).probes.paths
    {
      var records: map<nat, HookRecord> := map[];
      ghost var b := BenchOf([]);
      var i := 0;
      while i < |hs|
        invariant 0 <= i <= |hs| && b == BenchOf(hs[..i])
        invariant fresh(hooks) && Abreast(b, records)
      {
        BenchMore(hs, i);
        records := Act(hs[i], b, records);
        b := BenchAfter(b, hs[i]);
        i := i + 1;
      }
      assert hs[..i] == hs;
    }
  }
}
