/** The type overrides, with their in-place revisions and early exits, act as a plain table from a type
    to the type that replaces it. */
module FactoryTable {
  import opened Wrappers
  import opened Scans
  import opened FactoryState

  /** What identifies a type to the factory: its name if it has one that is used in lookups, else itself. */
  datatype Key = Named(name: string) | Unnamed(w: Wrapper)

  function KeyOf(w: Wrapper): Key {
    if Usable(w.typeName) then Named(w.typeName) else Unnamed(w)
  }

  function PairKey(p: TypePair): Key {
    match p.wrapper
    case None => Named(p.name)
    case Some(w) => KeyOf(w)
  }

  /** The key of a request for a wrapper, or for a name that may not be registered. */
  function RequestKey(wrapper: Option<Wrapper>, name: string): Key {
    PairKey(TypePair(wrapper, name))
  }

  predicate Real(k: Key) {
    k.Unnamed? || Usable(k.name)
  }

  type Table = map<Key, Key>

  function Write(t: Table, k: Key, v: Key, replace: bool): Table {
    if !replace && k in t then t else t[k := v]
  }

  /** One call on the table: a replacing override overwrites, another one is written only where there
      is none, and by name a type is never overridden with itself. */
  function Tabulated(t: Table, call: Call): Table {
    match call
    case TypeByType(o, v, replace) => Write(t, KeyOf(o), KeyOf(v), replace)
    case TypeByName(on, vn, replace) => if on == vn || !Usable(on) then t else Write(t, Named(on), Named(vn), replace)
    case _ => t
  }

  function Tabulate(calls: seq<Call>): Table {
    if calls == [] then map[] else Tabulated(Tabulate(calls[..|calls| - 1]), calls[|calls| - 1])
  }

  // ----- what every call keeps

  /** No two of these wrappers report the same usable name. */
  ghost predicate UniqueNames(universe: set<Wrapper>) {
    forall w, x | w in universe && x in universe && Usable(w.typeName) && w.typeName == x.typeName :: w == x
  }

  predicate CallWithin(call: Call, universe: set<Wrapper>) {
    match call
    case Registering(w) => w in universe
    case TypeByType(o, v, _) => o in universe && v in universe
    case InstByType(o, v, _) => o in universe && v in universe
    case _ => true
  }

  predicate Within(calls: seq<Call>, universe: set<Wrapper>) {
    forall c | c in calls :: CallWithin(c, universe)
  }

  predicate PairOk(f: Factory, p: TypePair) {
    match p.wrapper
    case Some(w) => w in f.types && w.typeName == p.name
    case None => p.name !in f.names
  }

  predicate OverrideOk(f: Factory, o: Override) {
    PairOk(f, o.orig) && PairOk(f, o.ovrd)
  }

  ghost predicate NamesOk(f: Factory, universe: set<Wrapper>) {
    && f.types <= universe
    && (forall n | n in f.names :: Usable(n) && f.names[n] in f.types && f.names[n].typeName == n)
    && (forall w | w in f.types && Usable(w.typeName) :: w.typeName in f.names)
  }

  ghost predicate Consistent(f: Factory, universe: set<Wrapper>) {
    && NamesOk(f, universe)
    && (forall o | o in f.typeOverrides :: OverrideOk(f, o))
    && (forall o | o in f.instOverrides :: OverrideOk(f, o))
  }

  lemma RegisterConsistent(f: Factory, w: Wrapper, universe: set<Wrapper>)
    requires UniqueNames(universe) && Consistent(f, universe) && w in universe
    ensures Consistent(Register(f, w), universe)
  {
    var g := Register(f, w);
    assert NamesOk(g, universe);
    if w !in f.types {
      forall o | OverrideOk(f, o)
        ensures OverrideOk(g, Refresh(o, w))
      {
      }
    }
  }

  lemma {:induction false} ReviseConsistent(f: Factory, os: seq<Override>, rev: Revision)
    requires forall o | o in os :: OverrideOk(f, o)
    requires OverrideOk(f, Entry(rev))
    ensures forall o | o in Revise(f.names, os, rev).0 :: OverrideOk(f, o)
  {
    if os != [] {
      assert os[0] in os && forall o | o in os[1..] :: o in os;
      ReviseConsistent(f, os[1..], rev);
      ReviseStep(f.names, os, rev);
    }
  }

  lemma BothRegistered(f: Factory, o: Wrapper, v: Wrapper, universe: set<Wrapper>)
    requires UniqueNames(universe) && Consistent(f, universe) && o in universe && v in universe
    ensures var g := RegisterIfNew(RegisterIfNew(f, o), v);
            Consistent(g, universe) && o in g.types && v in g.types
  {
    RegisterConsistent(f, o, universe);
    RegisterConsistent(RegisterIfNew(f, o), v, universe);
  }

  lemma ReviseTypesConsistent(f: Factory, rev: Revision, universe: set<Wrapper>)
    requires Consistent(f, universe) && OverrideOk(f, Entry(rev))
    ensures Consistent(ReviseTypes(f, rev), universe)
  {
    ReviseConsistent(f, f.typeOverrides, rev);
    var g := ReviseTypes(f, rev);
    assert forall o | o in g.typeOverrides :: OverrideOk(f, o);
    assert forall o | OverrideOk(f, o) :: OverrideOk(g, o);
  }

  lemma AddInstConsistent(f: Factory, o: Override, universe: set<Wrapper>)
    requires Consistent(f, universe) && OverrideOk(f, o)
    ensures Consistent(AddInst(f, o), universe)
  {
    assert forall e | OverrideOk(f, e) :: OverrideOk(AddInst(f, o), e);
  }

  lemma AfterConsistent(f: Factory, call: Call, universe: set<Wrapper>)
    requires UniqueNames(universe) && Consistent(f, universe) && CallWithin(call, universe)
    ensures Consistent(After(f, call), universe)
  {
    match call
    case Registering(w) =>
      RegisterConsistent(f, w, universe);
    case TypeByType(o, v, replace) =>
      BothRegistered(f, o, v, universe);
      ReviseTypesConsistent(RegisterIfNew(RegisterIfNew(f, o), v), ByTypeRevision(o, v, replace), universe);
    case TypeByName(on, vn, replace) =>
      ReviseTypesConsistent(f, ByNameRevision(f.names, on, vn, replace), universe);
    case InstByType(o, v, path) =>
      BothRegistered(f, o, v, universe);
      AddInstConsistent(RegisterIfNew(RegisterIfNew(f, o), v),
                        Override(path, TypePair(Some(o), o.typeName), TypePair(Some(v), v.typeName), false), universe);
    case InstByName(on, vn, path) =>
      AddInstConsistent(
        f, Override(path, TypePair(Resolve(f.names, on), on), TypePair(Resolve(f.names, vn), vn), false), universe);
  }

  lemma {:induction false} ReplayConsistent(calls: seq<Call>, universe: set<Wrapper>)
    requires UniqueNames(universe) && Within(calls, universe)
    ensures Consistent(Replay(calls), universe)
  {
    if calls != [] {
      var before := calls[..|calls| - 1];
      assert forall c | c in before :: c in calls;
      ReplayConsistent(before, universe);
      AfterConsistent(Replay(before), calls[|calls| - 1], universe);
    }
  }

  // ----- picking by key

  /** The scan of PickType, on keys. */
  function PickKey(os: seq<Override>, k: Key): (r: Option<Override>)
  {
    if os == [] then None
    else
      var older := PickKey(os[1..], k);
      if PairKey(os[0].orig) != k then older
      else if os[0].replace || older.None? then Some(os[0])
      else older
  }

  lemma PickKeyOfCons(o: Override, os: seq<Override>, k: Key)
    ensures PickKey([o] + os, k)
         == if PairKey(o.orig) == k && (o.replace || PickKey(os, k).None?) then Some(o) else PickKey(os, k)
  {
    assert ([o] + os)[1..] == os;
  }

  /** A request the factory can be sent: a wrapper with the name it reports, or a name and what it resolves to. */
  predicate RequestOk(f: Factory, universe: set<Wrapper>, wrapper: Option<Wrapper>, name: string) {
    match wrapper
    case Some(w) => w in universe && w.typeName == name
    case None => name !in f.names
  }

  lemma MatchIsKey(f: Factory, universe: set<Wrapper>, p: TypePair, wrapper: Option<Wrapper>, name: string)
    requires UniqueNames(universe) && NamesOk(f, universe) && PairOk(f, p) && RequestOk(f, universe, wrapper, name)
    ensures MatchesPair(Completed(f.names, p), wrapper, name)
       <==> Real(RequestKey(wrapper, name)) && PairKey(p) == RequestKey(wrapper, name)
  {}

  lemma {:induction false} PickIsPickKey(f: Factory, universe: set<Wrapper>, os: seq<Override>,
                                         wrapper: Option<Wrapper>, name: string)
    requires UniqueNames(universe) && NamesOk(f, universe) && RequestOk(f, universe, wrapper, name)
    requires forall o | o in os :: OverrideOk(f, o)
    ensures var k := RequestKey(wrapper, name);
            PickType(f.names, os, wrapper, name) == if Real(k) then PickKey(os, k) else None
  {
    if os != [] {
      assert os[0] in os && forall o | o in os[1..] :: o in os;
      PickIsPickKey(f, universe, os[1..], wrapper, name);
      MatchIsKey(f, universe, os[0].orig, wrapper, name);
    }
  }

  /** Completing an override leaves its keys alone. */
  lemma RefreshKeepsKeys(f: Factory, universe: set<Wrapper>, o: Override, w: Wrapper)
    requires UniqueNames(universe) && NamesOk(f, universe) && w in universe && OverrideOk(f, o)
    ensures PairKey(Refresh(o, w).orig) == PairKey(o.orig) && PairKey(Refresh(o, w).ovrd) == PairKey(o.ovrd)
  {
  }

  lemma {:induction false} PickKeyOfRefreshed(f: Factory, universe: set<Wrapper>, os: seq<Override>, w: Wrapper, k: Key)
    requires UniqueNames(universe) && NamesOk(f, universe) && w in universe
    requires forall o | o in os :: OverrideOk(f, o)
    ensures var a, b := PickKey(os, k), PickKey(RefreshAll(os, w), k);
            a.Some? == b.Some? && (a.Some? ==> PairKey(a.value.ovrd) == PairKey(b.value.ovrd))
            && (a.Some? ==> a.value.replace == b.value.replace)
  {
    if os != [] {
      assert os[0] in os && forall o | o in os[1..] :: o in os;
      assert RefreshAll(os, w)[1..] == RefreshAll(os[1..], w);
      PickKeyOfRefreshed(f, universe, os[1..], w, k);
      RefreshKeepsKeys(f, universe, os[0], w);
    }
  }

  /** What a revision does to the entry picked for each key, whichever exit it takes. */
  lemma {:induction false} PickKeyOfRevised(names: map<string, Wrapper>, os: seq<Override>, rev: Revision, own: Key,
                                            k: Key)
    requires own == RequestKey(rev.wrapper, rev.name)
    requires forall o | o in os :: MatchesType(names, o, rev.wrapper, rev.name) <==> Real(own) && PairKey(o.orig) == own
    ensures var r := Revise(names, os, rev);
            && (k != own || r.1 != Revised ==> PickKey(r.0, k) == PickKey(os, k))
            && (k == own && r.1 == Revised ==> PickKey(r.0, k).Some? && PickKey(r.0, k).value.ovrd == rev.ovrd)
            && (k == own && r.1 == Kept ==> PickKey(os, k).Some?)
            && (r.1 != NotFound ==> Real(own))
  {
    if os != [] {
      assert os[0] in os && forall o | o in os[1..] :: o in os;
      PickKeyOfRevised(names, os[1..], rev, own, k);
      var rest := Revise(names, os[1..], rev).0;
      ReviseStep(names, os, rev);
      PickKeyOfCons(Rewrite(os[0], rev), rest, k);
      PickKeyOfCons(os[0], rest, k);
    }
  }

  /** The table says of every real key what the overrides would pick for it. */
  ghost predicate Agrees(os: seq<Override>, t: Table) {
    && (forall k | k in t :: Real(k))
    && (forall k | Real(k) :: AgreesOn(os, t, k))
  }

  predicate AgreesOn(os: seq<Override>, t: Table, k: Key) {
    match PickKey(os, k)
    case None => k !in t
    case Some(o) => k in t && t[k] == PairKey(o.ovrd)
  }

  lemma RefreshAgrees(f: Factory, universe: set<Wrapper>, t: Table, w: Wrapper)
    requires UniqueNames(universe) && Consistent(f, universe) && w in universe && Agrees(f.typeOverrides, t)
    ensures Agrees(Register(f, w).typeOverrides, t)
  {
    if w !in f.types {
      forall k | Real(k)
        ensures AgreesOn(Register(f, w).typeOverrides, t, k)
      {
        assert AgreesOn(f.typeOverrides, t, k);
        PickKeyOfRefreshed(f, universe, f.typeOverrides, w, k);
      }
    }
  }

  lemma ReviseAgrees(f: Factory, universe: set<Wrapper>, t: Table, rev: Revision)
    requires UniqueNames(universe) && Consistent(f, universe) && Agrees(f.typeOverrides, t)
    requires RequestOk(f, universe, rev.wrapper, rev.name) && OverrideOk(f, Entry(rev))
    ensures var own := RequestKey(rev.wrapper, rev.name);
            Agrees(ReviseTypes(f, rev).typeOverrides,
                   if Real(own) then Write(t, own, PairKey(rev.ovrd), rev.replace) else t)
  {
    var own := RequestKey(rev.wrapper, rev.name);
    var t' := if Real(own) then Write(t, own, PairKey(rev.ovrd), rev.replace) else t;
    var os := f.typeOverrides;
    var r := Revise(f.names, os, rev);
    var os' := ReviseTypes(f, rev).typeOverrides;
    forall o | o in os
      ensures MatchesType(f.names, o, rev.wrapper, rev.name) <==> Real(own) && PairKey(o.orig) == own
    {
      MatchIsKey(f, universe, o.orig, rev.wrapper, rev.name);
    }
    forall k | Real(k)
      ensures AgreesOn(os', t', k)
    {
      assert AgreesOn(os, t, k);
      PickKeyOfRevised(f.names, os, rev, own, k);
      PickKeyOfCons(Entry(rev), os, k);
    }
  }

  lemma ByTypeAgrees(f: Factory, universe: set<Wrapper>, t: Table, o: Wrapper, v: Wrapper, replace: bool)
    requires UniqueNames(universe) && Consistent(f, universe) && Agrees(f.typeOverrides, t)
    requires o in universe && v in universe
    ensures Agrees(SetTypeByType(f, o, v, replace).typeOverrides, Write(t, KeyOf(o), KeyOf(v), replace))
  {
    RegisteredAgrees(f, universe, t, o, v);
    ReviseAgrees(RegisterIfNew(RegisterIfNew(f, o), v), universe, t, ByTypeRevision(o, v, replace));
  }

  lemma ByNameAgrees(f: Factory, universe: set<Wrapper>, t: Table, on: string, vn: string, replace: bool)
    requires UniqueNames(universe) && Consistent(f, universe) && Agrees(f.typeOverrides, t) && on != vn
    ensures Agrees(SetTypeByName(f, on, vn, replace).typeOverrides,
                   if Usable(on) then Write(t, Named(on), Named(vn), replace) else t)
  {
    var rev := ByNameRevision(f.names, on, vn, replace);
    ReviseAgrees(f, universe, t, rev);
    assert RequestKey(rev.wrapper, on) == Named(on) && PairKey(rev.ovrd) == Named(vn);
  }

  lemma AfterAgrees(f: Factory, universe: set<Wrapper>, t: Table, call: Call)
    requires UniqueNames(universe) && Consistent(f, universe) && Agrees(f.typeOverrides, t)
    requires CallWithin(call, universe)
    ensures Agrees(After(f, call).typeOverrides, Tabulated(t, call))
  {
    match call
    case Registering(w) =>
      RefreshAgrees(f, universe, t, w);
    case TypeByType(o, v, replace) =>
      ByTypeAgrees(f, universe, t, o, v, replace);
    case TypeByName(on, vn, replace) =>
      if on != vn {
        ByNameAgrees(f, universe, t, on, vn, replace);
      }
    case InstByType(o, v, path) =>
      RegisteredAgrees(f, universe, t, o, v);
    case InstByName(on, vn, path) =>
  }

  lemma RegisteredAgrees(f: Factory, universe: set<Wrapper>, t: Table, o: Wrapper, v: Wrapper)
    requires UniqueNames(universe) && Consistent(f, universe) && Agrees(f.typeOverrides, t)
    requires o in universe && v in universe
    ensures var g := RegisterIfNew(RegisterIfNew(f, o), v);
            Consistent(g, universe) && o in g.types && v in g.types && Agrees(g.typeOverrides, t)
  {
    BothRegistered(f, o, v, universe);
    RegisterConsistent(f, o, universe);
    RefreshAgrees(f, universe, t, o);
    RefreshAgrees(RegisterIfNew(f, o), universe, t, v);
  }

  lemma {:induction false} ReplayAgrees(calls: seq<Call>, universe: set<Wrapper>)
    requires UniqueNames(universe) && Within(calls, universe)
    ensures Agrees(Replay(calls).typeOverrides, Tabulate(calls))
  {
    if calls != [] {
      var before := calls[..|calls| - 1];
      assert forall c | c in before :: c in calls;
      ReplayAgrees(before, universe);
      ReplayConsistent(before, universe);
      AfterAgrees(Replay(before), universe, Tabulate(before), calls[|calls| - 1]);
    }
  }

  /** After any history of calls, what the scan picks for any request is what the table holds for it. */
  lemma ScanIsTableLookup(calls: seq<Call>, universe: set<Wrapper>, wrapper: Option<Wrapper>, name: string)
    requires UniqueNames(universe) && Within(calls, universe)
    requires RequestOk(Replay(calls), universe, wrapper, name)
    ensures var f := Replay(calls);
            var t := Tabulate(calls);
            var k := RequestKey(wrapper, name);
            match PickType(f.names, f.typeOverrides, wrapper, name)
            case None => k !in t
            case Some(o) => k in t && t[k] == PairKey(o.ovrd)
  {
    ReplayConsistent(calls, universe);
    ReplayAgrees(calls, universe);
    var f := Replay(calls);
    var k := RequestKey(wrapper, name);
    PickIsPickKey(f, universe, f.typeOverrides, wrapper, name);
    assert Real(k) ==> AgreesOn(f.typeOverrides, Tabulate(calls), k);
  }
}
