/** Following overrides from a request to the type that is created: when the search ends, where it ends,
    and when asking by name and asking by type come to the same. */
module FactoryResolution {
  import opened Wrappers
  import opened FactoryState
  import opened FactoryTable
  import opened Chains

  /** What the search asks for at each step: a type, or a name nothing is registered under yet. */
  datatype Request = ForType(w: Wrapper) | ForName(name: string)

  function WrapperOf(f: Factory, r: Request): Option<Wrapper> {
    match r case ForType(w) => Some(w) case ForName(n) => Resolve(f.names, n)
  }

  function NameOf(r: Request): string {
    match r case ForType(w) => w.typeName case ForName(n) => n
  }

  function Selected(f: Factory, m: PathMatch, r: Request, path: string): Option<Override> {
    Select(f, m, WrapperOf(f, r), NameOf(r), path)
  }

  /** Whether an override leads back to what was asked for. */
  predicate LeadsBack(f: Factory, o: Override, r: Request) {
    MatchesPair(Completed(f.names, o.ovrd), WrapperOf(f, r), NameOf(r))
  }

  function Hop(f: Factory, m: PathMatch, r: Request, path: string): Step<Request, Option<Wrapper>> {
    match Selected(f, m, r, path)
    case None => Stop(match r case ForType(w) => Some(w) case ForName(_) => None)
    case Some(o) =>
      if LeadsBack(f, o, r) then Stop(Completed(f.names, o.ovrd).wrapper)
      else match o.ovrd.wrapper
           case None => Go(ForName(o.ovrd.name))
           case Some(w) => Go(ForType(w))
  }

  function Search(f: Factory, m: PathMatch, path: string): Request -> Step<Request, Option<Wrapper>> {
    r => Hop(f, m, r, path)
  }

  // ----- when the search ends

  function RequestOf(p: TypePair): Request {
    match p.wrapper case None => ForName(p.name) case Some(w) => ForType(w)
  }

  function Targets(os: seq<Override>): (s: set<Request>)
    ensures |s| <= |os|
    ensures forall o | o in os :: RequestOf(o.ovrd) in s
  {
    if os == [] then {} else {RequestOf(os[0].ovrd)} + Targets(os[1..])
  }

  lemma GoesToTarget(f: Factory, m: PathMatch, r: Request, path: string)
    requires Hop(f, m, r, path).Go?
    ensures Hop(f, m, r, path).next in Targets(f.typeOverrides) + Targets(f.instOverrides)
  {
    assert Selected(f, m, r, path).Some?;
  }

  /** The two searches, which call each other, end exactly when no request comes up twice, and then after
      at most as many steps as there are overrides. */
  lemma SearchEndsIffAcyclic(f: Factory, m: PathMatch, r: Request, path: string)
    ensures Acyclic(Search(f, m, path), r) <==> Terminates(Search(f, m, path), r)
    ensures Acyclic(Search(f, m, path), r) ==> Ends(Search(f, m, path), r, |f.typeOverrides| + |f.instOverrides|)
  {
    var step := Search(f, m, path);
    var targets := Targets(f.typeOverrides) + Targets(f.instOverrides);
    forall q | step(q).Go?
      ensures step(q).next in targets
    {
      GoesToTarget(f, m, q, path);
    }
    TerminatesIffAcyclic(step, r, targets);
    if Acyclic(step, r) {
      EndsLater(step, r, |targets|, |f.typeOverrides| + |f.instOverrides|);
    }
  }

  // ----- where it ends

  /** The request at which the search stops. */
  function Last(f: Factory, m: PathMatch, path: string, r: Request, n: nat): (q: Request)
    requires Ends(Search(f, m, path), r, n)
    ensures Hop(f, m, q, path) == Stop(Result(Search(f, m, path), r, n))
    decreases n
  {
    match Hop(f, m, r, path)
    case Stop(_) => r
    case Go(next) => Last(f, m, path, next, n - 1)
  }

  predicate Asked(f: Factory, universe: set<Wrapper>, r: Request) {
    RequestOk(f, universe, WrapperOf(f, r), NameOf(r))
  }

  /** Requests that can come up on the way: registered types, and names that are not registered. */
  predicate OnTheWay(f: Factory, r: Request) {
    match r case ForType(w) => w in f.types case ForName(n) => n !in f.names
  }

  lemma {:induction false} LastOnTheWay(f: Factory, universe: set<Wrapper>, m: PathMatch, path: string, r: Request,
                                        n: nat)
    requires Consistent(f, universe) && Ends(Search(f, m, path), r, n)
    ensures Last(f, m, path, r, n) == r || OnTheWay(f, Last(f, m, path, r, n))
    decreases n
  {
    if Hop(f, m, r, path).Go? {
      var next := Hop(f, m, r, path).next;
      assert OnTheWay(f, next) by {
        assert OverrideOk(f, Selected(f, m, r, path).value);
      }
      LastOnTheWay(f, universe, m, path, next, n - 1);
    }
  }

  lemma StopsAtItself(f: Factory, universe: set<Wrapper>, m: PathMatch, q: Request, path: string)
    requires UniqueNames(universe) && Consistent(f, universe) && Asked(f, universe, q)
    requires Hop(f, m, q, path).Stop? && Hop(f, m, q, path).result.Some?
    ensures var w := Hop(f, m, q, path).result.value;
            && Selected(f, m, ForType(w), path) == Selected(f, m, q, path)
            && Hop(f, m, ForType(w), path) == Stop(Some(w))
  {
    var sel := Selected(f, m, q, path);
    assert sel.Some? ==> OverrideOk(f, sel.value);
  }

  /** The type found is one that nothing overrides, or only an override that leads back to it: asking
      for it again gives it at once. */
  lemma FoundTypeIsFinal(f: Factory, universe: set<Wrapper>, m: PathMatch, path: string, r: Request, n: nat)
    requires UniqueNames(universe) && Consistent(f, universe) && Asked(f, universe, r)
    requires Ends(Search(f, m, path), r, n)
    requires Result(Search(f, m, path), r, n).Some?
    ensures var w := Result(Search(f, m, path), r, n).value;
            var sel := Selected(f, m, ForType(w), path);
            && Hop(f, m, ForType(w), path) == Stop(Some(w))
            && (sel.None? || LeadsBack(f, sel.value, ForType(w)))
  {
    LastOnTheWay(f, universe, m, path, r, n);
    StopsAtItself(f, universe, m, Last(f, m, path, r, n), path);
  }

  /** From a registered type the search comes to nothing exactly when it ends at a name, and that name
      is not registered. */
  lemma NothingIffUnregistered(f: Factory, universe: set<Wrapper>, m: PathMatch, path: string, w: Wrapper, n: nat)
    requires UniqueNames(universe) && Consistent(f, universe) && w in f.types
    requires Ends(Search(f, m, path), ForType(w), n)
    ensures var last := Last(f, m, path, ForType(w), n);
            && (Result(Search(f, m, path), ForType(w), n).None? <==> last.ForName?)
            && (last.ForName? ==> last.name !in f.names)
  {
    LastOnTheWay(f, universe, m, path, ForType(w), n);
    var last := Last(f, m, path, ForType(w), n);
    var sel := Selected(f, m, last, path);
    assert sel.Some? ==> OverrideOk(f, sel.value);
  }

  // ----- creating by name and by type

  /** What creation by name uses: the search's answer, or the type registered under the name itself. */
  function CreatedByName(f: Factory, m: PathMatch, name: string, path: string, n: nat): Option<Wrapper>
    requires Ends(Search(f, m, path), ForName(name), n)
  {
    var found := Result(Search(f, m, path), ForName(name), n);
    if found.None? then Resolve(f.names, name) else found
  }

  lemma FirstHopAgrees(f: Factory, universe: set<Wrapper>, m: PathMatch, w: Wrapper, path: string)
    requires UniqueNames(universe) && Consistent(f, universe) && w in f.types && Usable(w.typeName)
    ensures var a, b := Hop(f, m, ForName(w.typeName), path), Hop(f, m, ForType(w), path);
            a == b || (a == Stop(None) && b == Stop(Some(w)))
  {}

  /** By name or by type, a registered type leads to the same wrapper exactly when its chain does not
      come to nothing; when it does, only creation by name falls back on the type itself. */
  lemma ByNameIsByType(f: Factory, universe: set<Wrapper>, m: PathMatch, w: Wrapper, path: string, n: nat)
    requires UniqueNames(universe) && Consistent(f, universe) && w in f.types && Usable(w.typeName)
    requires Ends(Search(f, m, path), ForType(w), n)
    ensures Ends(Search(f, m, path), ForName(w.typeName), n)
    ensures var byType := Result(Search(f, m, path), ForType(w), n);
            CreatedByName(f, m, w.typeName, path, n) == if byType.Some? then byType else Some(w)
  {
    FirstHopAgrees(f, universe, m, w, path);
  }

  // ----- the order of preference at each hop

  /** The first instance override that matches goes before every type override. */
  lemma FirstInstanceFirst(f: Factory, m: PathMatch, wrapper: Option<Wrapper>, name: string, path: string, i: nat)
    requires path != "" && i < |f.instOverrides|
    requires MatchesInst(f.names, m, f.instOverrides[i], wrapper, name, path)
    requires forall j | 0 <= j < i :: !MatchesInst(f.names, m, f.instOverrides[j], wrapper, name, path)
    ensures Select(f, m, wrapper, name, path) == Some(f.instOverrides[i])
  {
    FirstMatch(f.names, m, f.instOverrides, wrapper, name, path, i);
  }

  lemma {:induction false} FirstMatch(names: map<string, Wrapper>, m: PathMatch, os: seq<Override>,
                                      wrapper: Option<Wrapper>, name: string, path: string, i: nat)
    requires i < |os| && MatchesInst(names, m, os[i], wrapper, name, path)
    requires forall j | 0 <= j < i :: !MatchesInst(names, m, os[j], wrapper, name, path)
    ensures PickInst(names, m, os, wrapper, name, path) == Some(os[i])
  {
    if i > 0 {
      assert forall j | 0 <= j < i - 1 :: os[1..][j] == os[j + 1];
      FirstMatch(names, m, os[1..], wrapper, name, path, i - 1);
    }
  }

  /** Among the type overrides that match: the newest that replaces, and failing that the oldest. */
  predicate IsPick(names: map<string, Wrapper>, os: seq<Override>, wrapper: Option<Wrapper>, name: string, i: nat)
    requires i < |os|
  {
    && MatchesType(names, os[i], wrapper, name)
    && (forall j | 0 <= j < i && MatchesType(names, os[j], wrapper, name) :: !os[j].replace)
    && (os[i].replace || forall j | i < j < |os| :: !MatchesType(names, os[j], wrapper, name))
  }

  lemma {:induction false} PickTypeOrder(names: map<string, Wrapper>, os: seq<Override>,
                                         wrapper: Option<Wrapper>, name: string, i: nat)
    requires i < |os| && IsPick(names, os, wrapper, name, i)
    ensures PickType(names, os, wrapper, name) == Some(os[i])
  {
    assert forall j | 0 <= j < |os| - 1 :: os[1..][j] == os[j + 1];
    if i > 0 {
      PickTypeOrder(names, os[1..], wrapper, name, i - 1);
    } else if !os[0].replace {
      NoMatchNoPick(names, os[1..], wrapper, name);
    }
  }

  lemma {:induction false} NoMatchNoPick(names: map<string, Wrapper>, os: seq<Override>, wrapper: Option<Wrapper>,
                                         name: string)
    ensures PickType(names, os, wrapper, name).None? <==> forall o | o in os :: !MatchesType(names, o, wrapper, name)
  {
    if os != [] {
      NoMatchNoPick(names, os[1..], wrapper, name);
    }
  }
}
