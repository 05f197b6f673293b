/** A whole search, instance overrides included, is a walk along a plain table that the calls write: where the
    walk ends the search ends, and it ends exactly when the table does not lead round in a circle. */
module FactoryWalk {
  import opened Wrappers
  import opened Chains
  import opened FactoryState
  import opened FactoryTable
  import opened FactoryResolution

  // ----- the instance overrides that apply to one path

  predicate PathApplies(m: PathMatch, pattern: string, path: string) {
    if HasWildcard(pattern) then pattern == "*" || m(pattern, path) else pattern == path
  }

  /** One call on the table of a path: of the instance overrides that apply, the first for a type counts. */
  function InstTabulated(t: Table, m: PathMatch, path: string, call: Call): Table {
    match call
    case InstByType(o, v, p) => if PathApplies(m, p, path) then Write(t, KeyOf(o), KeyOf(v), false) else t
    case InstByName(on, vn, p) =>
      if PathApplies(m, p, path) && Usable(on) then Write(t, Named(on), Named(vn), false) else t
    case _ => t
  }

  function InstTabulate(calls: seq<Call>, m: PathMatch, path: string): Table {
    if calls == [] then map[]
    else InstTabulated(InstTabulate(calls[..|calls| - 1], m, path), m, path, calls[|calls| - 1])
  }

  function PickInstKey(os: seq<Override>, m: PathMatch, path: string, k: Key): Option<Override> {
    if os == [] then None
    else if PairKey(os[0].orig) == k && PathApplies(m, os[0].path, path) then Some(os[0])
    else PickInstKey(os[1..], m, path, k)
  }

  predicate InstAgreesOn(os: seq<Override>, m: PathMatch, path: string, t: Table, k: Key) {
    match PickInstKey(os, m, path, k)
    case None => k !in t
    case Some(o) => k in t && t[k] == PairKey(o.ovrd)
  }

  ghost predicate InstAgrees(os: seq<Override>, m: PathMatch, path: string, t: Table) {
    && (forall k | k in t :: Real(k))
    && (forall k | Real(k) :: InstAgreesOn(os, m, path, t, k))
  }

  lemma {:induction false} PickInstIsKey(f: Factory, universe: set<Wrapper>, os: seq<Override>, m: PathMatch,
                                         wrapper: Option<Wrapper>, name: string, path: string)
    requires UniqueNames(universe) && NamesOk(f, universe) && RequestOk(f, universe, wrapper, name)
    requires forall o | o in os :: OverrideOk(f, o)
    ensures var k := RequestKey(wrapper, name);
            PickInst(f.names, m, os, wrapper, name, path) == if Real(k) then PickInstKey(os, m, path, k) else None
  {
    if os != [] {
      assert os[0] in os && forall o | o in os[1..] :: o in os;
      PickInstIsKey(f, universe, os[1..], m, wrapper, name, path);
      MatchIsKey(f, universe, os[0].orig, wrapper, name);
    }
  }

  lemma {:induction false} PickInstOfRefreshed(f: Factory, universe: set<Wrapper>, os: seq<Override>, w: Wrapper,
                                               m: PathMatch, path: string, k: Key)
    requires UniqueNames(universe) && NamesOk(f, universe) && w in universe
    requires forall o | o in os :: OverrideOk(f, o)
    ensures var a, b := PickInstKey(os, m, path, k), PickInstKey(RefreshAll(os, w), m, path, k);
            a.Some? == b.Some? && (a.Some? ==> PairKey(a.value.ovrd) == PairKey(b.value.ovrd))
  {
    if os != [] {
      assert os[0] in os && forall o | o in os[1..] :: o in os;
      assert RefreshAll(os, w)[1..] == RefreshAll(os[1..], w);
      RefreshKeepsKeys(f, universe, os[0], w);
      PickInstOfRefreshed(f, universe, os[1..], w, m, path, k);
    }
  }

  lemma {:induction false} PickInstOfAppended(os: seq<Override>, o: Override, m: PathMatch, path: string, k: Key)
    ensures var before := PickInstKey(os, m, path, k);
            PickInstKey(os + [o], m, path, k)
              == if before.Some? then before
                 else if PairKey(o.orig) == k && PathApplies(m, o.path, path) then Some(o) else None
  {
    if os == [] {
      assert [] + [o] == [o];
    } else {
      assert (os + [o])[1..] == os[1..] + [o];
      PickInstOfAppended(os[1..], o, m, path, k);
    }
  }

  lemma {:induction false} PickInstFinds(os: seq<Override>, e: Override, m: PathMatch, path: string)
    requires e in os && PathApplies(m, e.path, path)
    ensures PickInstKey(os, m, path, PairKey(e.orig)).Some?
  {
    if e != os[0] { PickInstFinds(os[1..], e, m, path); }
  }

  // ----- what every call keeps

  lemma InstRefreshAgrees(f: Factory, universe: set<Wrapper>, m: PathMatch, path: string, t: Table, w: Wrapper)
    requires UniqueNames(universe) && Consistent(f, universe) && w in universe
    requires InstAgrees(f.instOverrides, m, path, t)
    ensures InstAgrees(RegisterIfNew(f, w).instOverrides, m, path, t)
    ensures InstAgrees(Register(f, w).instOverrides, m, path, t)
  {
    if w !in f.types {
      forall k | Real(k) ensures InstAgreesOn(Register(f, w).instOverrides, m, path, t, k) {
        assert InstAgreesOn(f.instOverrides, m, path, t, k);
        PickInstOfRefreshed(f, universe, f.instOverrides, w, m, path, k);
      }
    }
  }

  lemma AddInstAgrees(f: Factory, m: PathMatch, path: string, t: Table, o: Override)
    requires InstAgrees(f.instOverrides, m, path, t)
    ensures var own, v := PairKey(o.orig), PairKey(o.ovrd);
            InstAgrees(AddInst(f, o).instOverrides, m, path,
                       if Real(own) && PathApplies(m, o.path, path) then Write(t, own, v, false) else t)
  {
    var own, os := PairKey(o.orig), f.instOverrides;
    if e :| e in os && e.path == o.path && e.orig == o.orig && e.ovrd == o.ovrd {
      if Real(own) && PathApplies(m, o.path, path) {
        PickInstFinds(os, e, m, path);
        assert InstAgreesOn(os, m, path, t, own);
      }
    } else {
      var u := if Real(own) && PathApplies(m, o.path, path) then Write(t, own, PairKey(o.ovrd), false) else t;
      forall k | Real(k) ensures InstAgreesOn(os + [o], m, path, u, k) {
        assert InstAgreesOn(os, m, path, t, k);
        PickInstOfAppended(os, o, m, path, k);
      }
    }
  }

  lemma InstAfterAgrees(f: Factory, universe: set<Wrapper>, m: PathMatch, path: string, t: Table, call: Call)
    requires UniqueNames(universe) && Consistent(f, universe) && CallWithin(call, universe)
    requires InstAgrees(f.instOverrides, m, path, t)
    ensures InstAgrees(After(f, call).instOverrides, m, path, InstTabulated(t, m, path, call))
  {
    match call
    case Registering(w) => InstRefreshAgrees(f, universe, m, path, t, w);
    case TypeByType(o, v, _) => InstBothAgree(f, universe, m, path, t, o, v);
    case TypeByName(_, _, _) =>
    case InstByType(o, v, p) =>
      InstBothAgree(f, universe, m, path, t, o, v);
      AddInstAgrees(RegisterIfNew(RegisterIfNew(f, o), v), m, path, t,
                    Override(p, TypePair(Some(o), o.typeName), TypePair(Some(v), v.typeName), false));
    case InstByName(on, vn, p) =>
      AddInstAgrees(f, m, path, t,
                    Override(p, TypePair(Resolve(f.names, on), on), TypePair(Resolve(f.names, vn), vn), false));
      assert PairKey(TypePair(Resolve(f.names, on), on)) == Named(on);
      assert PairKey(TypePair(Resolve(f.names, vn), vn)) == Named(vn);
  }

  lemma InstBothAgree(f: Factory, universe: set<Wrapper>, m: PathMatch, path: string, t: Table, o: Wrapper, v: Wrapper)
    requires UniqueNames(universe) && Consistent(f, universe) && o in universe && v in universe
    requires InstAgrees(f.instOverrides, m, path, t)
    ensures InstAgrees(RegisterIfNew(RegisterIfNew(f, o), v).instOverrides, m, path, t)
  {
    RegisterConsistent(f, o, universe);
    InstRefreshAgrees(f, universe, m, path, t, o);
    InstRefreshAgrees(RegisterIfNew(f, o), universe, m, path, t, v);
  }

  lemma {:induction false} InstReplayAgrees(calls: seq<Call>, universe: set<Wrapper>, m: PathMatch, path: string)
    requires UniqueNames(universe) && Within(calls, universe)
    ensures InstAgrees(Replay(calls).instOverrides, m, path, InstTabulate(calls, m, path))
  {
    if calls != [] {
      var before := calls[..|calls| - 1];
      assert forall c | c in before :: c in calls;
      InstReplayAgrees(before, universe, m, path);
      ReplayConsistent(before, universe);
      InstAfterAgrees(Replay(before), universe, m, path, InstTabulate(before, m, path), calls[|calls| - 1]);
    }
  }

  // ----- the table of a path, and walking along it

  /** What each type is replaced with at a path: by an instance override if one applies, else by a type override. */
  function TableFor(calls: seq<Call>, m: PathMatch, path: string): Table {
    if path == "" then Tabulate(calls) else Tabulate(calls) + InstTabulate(calls, m, path)
  }

  /** From a type to the one that replaces it; a type that replaces itself, or that nothing replaces, is the end. */
  function TableStep(t: Table): Key -> Step<Key, Key> {
    k => if k in t && t[k] != k then Go(t[k]) else Stop(k)
  }

  function KeyOfRequest(f: Factory, r: Request): Key {
    RequestKey(WrapperOf(f, r), NameOf(r))
  }

  /** After any history, what a search selects for a request is what the table of its path holds for it. */
  lemma SelectionIsTableLookup(calls: seq<Call>, universe: set<Wrapper>, m: PathMatch, r: Request, path: string)
    requires UniqueNames(universe) && Within(calls, universe) && Asked(Replay(calls), universe, r)
    ensures var f := Replay(calls);
            var t, k := TableFor(calls, m, path), KeyOfRequest(f, r);
            match Selected(f, m, r, path)
            case None => k !in t
            case Some(o) => k in t && t[k] == PairKey(o.ovrd) && Real(k) && OverrideOk(f, o)
  {
    var f := Replay(calls);
    var k := KeyOfRequest(f, r);
    ReplayAgrees(calls, universe);
    ScanIsTableLookup(calls, universe, WrapperOf(f, r), NameOf(r));
    ReplayConsistent(calls, universe);
    InstReplayAgrees(calls, universe, m, path);
    PickInstIsKey(f, universe, f.instOverrides, m, WrapperOf(f, r), NameOf(r), path);
    assert Real(k) ==> InstAgreesOn(f.instOverrides, m, path, InstTabulate(calls, m, path), k);
  }

  /** The outcome of a search against the key at which the walk ends: a type with that key, or nothing, if no type
      is registered under it or if it is the very name that was asked for. */
  predicate Reached(f: Factory, r: Request, found: Option<Wrapper>, k: Key) {
    match found
    case Some(w) => KeyOf(w) == k
    case None => k.Named? && (k.name in f.names ==> r == ForName(k.name))
  }

  lemma TargetKey(f: Factory, universe: set<Wrapper>, p: TypePair)
    requires NamesOk(f, universe) && PairOk(f, p)
    ensures KeyOfRequest(f, RequestOf(p)) == PairKey(p)
    ensures Asked(f, universe, RequestOf(p)) && OnTheWay(f, RequestOf(p))
    ensures forall r :: Reached(f, r, Completed(f.names, p).wrapper, PairKey(p))
  {
  }

  lemma LeadsBackIsOwnKey(f: Factory, universe: set<Wrapper>, o: Override, r: Request)
    requires UniqueNames(universe) && NamesOk(f, universe) && OverrideOk(f, o) && Asked(f, universe, r)
    requires Real(KeyOfRequest(f, r))
    ensures LeadsBack(f, o, r) <==> PairKey(o.ovrd) == KeyOfRequest(f, r)
  {
    MatchIsKey(f, universe, o.ovrd, WrapperOf(f, r), NameOf(r));
  }

  /** One step of the search is one step along the table. */
  lemma HopIsTableStep(calls: seq<Call>, universe: set<Wrapper>, m: PathMatch, r: Request, path: string)
    requires UniqueNames(universe) && Within(calls, universe) && Asked(Replay(calls), universe, r)
    ensures var f := Replay(calls);
            var t, k := TableFor(calls, m, path), KeyOfRequest(f, r);
            match Hop(f, m, r, path)
            case Stop(found) => TableStep(t)(k) == Stop(k) && Reached(f, r, found, k)
            case Go(next) =>
              TableStep(t)(k) == Go(KeyOfRequest(f, next)) && Asked(f, universe, next) && OnTheWay(f, next)
  {
    var f := Replay(calls);
    SelectionIsTableLookup(calls, universe, m, r, path);
    ReplayConsistent(calls, universe);
    var sel := Selected(f, m, r, path);
    if sel.Some? {
      LeadsBackIsOwnKey(f, universe, sel.value, r);
      TargetKey(f, universe, sel.value.ovrd);
    }
  }

  /** The search for any request at any path ends within n steps exactly when the walk does, at the same type. */
  lemma {:induction false} SearchIsTableWalk(calls: seq<Call>, universe: set<Wrapper>, m: PathMatch, r: Request,
                                             path: string, n: nat)
    requires UniqueNames(universe) && Within(calls, universe) && Asked(Replay(calls), universe, r)
    ensures var f := Replay(calls);
            var search, walk := Search(f, m, path), TableStep(TableFor(calls, m, path));
            var k := KeyOfRequest(f, r);
            && (Ends(search, r, n) <==> Ends(walk, k, n))
            && (Ends(search, r, n) ==> Reached(f, r, Result(search, r, n), Result(walk, k, n)))
    decreases n
  {
    var f := Replay(calls);
    HopIsTableStep(calls, universe, m, r, path);
    assert Search(f, m, path)(r) == Hop(f, m, r, path);
    if n > 0 && Hop(f, m, r, path).Go? {
      SearchIsTableWalk(calls, universe, m, Hop(f, m, r, path).next, path, n - 1);
    }
  }

  /** The search ends exactly when the table does not lead from the request's key round in a circle, which shows
      within as many steps as the table has values. */
  lemma SearchEndsIffTableEnds(calls: seq<Call>, universe: set<Wrapper>, m: PathMatch, r: Request, path: string)
    requires UniqueNames(universe) && Within(calls, universe) && Asked(Replay(calls), universe, r)
    ensures var f := Replay(calls);
            var t, k := TableFor(calls, m, path), KeyOfRequest(f, r);
            && (Terminates(Search(f, m, path), r) <==> Ends(TableStep(t), k, |t.Values|))
            && (Terminates(Search(f, m, path), r) <==> Acyclic(TableStep(t), k))
  {
    var f := Replay(calls);
    var t, k := TableFor(calls, m, path), KeyOfRequest(f, r);
    var walk := TableStep(t);
    assert forall q | walk(q).Go? :: walk(q).next in t.Values;
    TerminatesIffAcyclic(walk, k, t.Values);
    if Terminates(Search(f, m, path), r) {
      var n :| Ends(Search(f, m, path), r, n);
      SearchIsTableWalk(calls, universe, m, r, path, n);
      assert Terminates(walk, k);
    }
    if Ends(walk, k, |t.Values|) {
      SearchIsTableWalk(calls, universe, m, r, path, |t.Values|);
    }
  }

  function Swap(a: Wrapper, b: Wrapper): seq<Call> {
    [TypeByType(a, b, true), TypeByType(b, a, true)]
  }

  lemma {:induction false} TypeCallsAlone(calls: seq<Call>, m: PathMatch, path: string)
    requires forall c | c in calls :: c.TypeByType?
    ensures InstTabulate(calls, m, path) == map[]
  {
    if calls != [] {
      var before, last := calls[..|calls| - 1], calls[|calls| - 1];
      assert last in calls && forall c | c in before :: c in calls;
      TypeCallsAlone(before, m, path);
    }
  }

  lemma SwapTable(a: Wrapper, b: Wrapper, m: PathMatch, path: string)
    requires KeyOf(a) != KeyOf(b)
    ensures TableFor(Swap(a, b), m, path) == map[KeyOf(a) := KeyOf(b), KeyOf(b) := KeyOf(a)]
  {
    var first := [TypeByType(a, b, true)];
    assert Swap(a, b)[..1] == first && first[..0] == [];
    assert Tabulate(first) == map[KeyOf(a) := KeyOf(b)];
    TypeCallsAlone(Swap(a, b), m, path);
  }

  lemma CircleNeverEnds(t: Table, j: Key, k: Key)
    requires j != k && j in t && k in t && t[j] == k && t[k] == j
    ensures !Acyclic(TableStep(t), j)
  {
    var walk := TableStep(t);
    assert Walk(walk, j, 0) == Some(j) && Walk(walk, j, 1) == Some(k) && Walk(walk, j, 2) == Some(j);
  }

  /** Two types that replace each other: the search for one of them does not end, at whatever path. */
  lemma MutualOverridesNeverEnd(a: Wrapper, b: Wrapper, m: PathMatch, path: string)
    requires Usable(a.typeName) && Usable(b.typeName) && a.typeName != b.typeName
    ensures !Terminates(Search(Replay(Swap(a, b)), m, path), ForType(a))
  {
    SwapTable(a, b, m, path);
    CircleNeverEnds(TableFor(Swap(a, b), m, path), KeyOf(a), KeyOf(b));
    SearchEndsIffTableEnds(Swap(a, b), {a, b}, m, ForType(a), path);
  }
}
