/** What is created after a history of calls, said of the calls themselves: which of them decides, where an instance
    override applies, and how overrides follow one another. */
module FactoryCreation {
  import opened Wrappers
  import opened Chains
  import opened FactoryState
  import opened FactoryTable
  import opened FactoryResolution
  import opened FactoryWalk
  import opened FactoryEngine

  /** The call overrides a type that is w or has its name. */
  predicate Overrides(c: Call, w: Wrapper) {
    match c
    case Registering(_) => false
    case TypeByType(o, _, _) => o == w || o.typeName == w.typeName
    case TypeByName(on, _, _) => on == w.typeName
    case InstByType(o, _, _) => o == w || o.typeName == w.typeName
    case InstByName(on, _, _) => on == w.typeName
  }

  /** A history in which every type has its own name, and neither w nor a namesake of it is overridden. */
  ghost predicate Untouched(calls: seq<Call>, universe: set<Wrapper>, w: Wrapper) {
    UniqueNames(universe) && Within(calls, universe) && w in universe && forall c | c in calls :: !Overrides(c, w)
  }

  lemma {:induction false} UntouchedKey(calls: seq<Call>, universe: set<Wrapper>, w: Wrapper, m: PathMatch,
                                        path: string)
    requires Untouched(calls, universe, w)
    ensures KeyOf(w) !in Tabulate(calls) && KeyOf(w) !in InstTabulate(calls, m, path)
    ensures KeyOf(w) !in TableFor(calls, m, path)
  {
    if calls != [] {
      var before, c := calls[..|calls| - 1], calls[|calls| - 1];
      assert c in calls && forall d | d in before :: d in calls;
      UntouchedKey(before, universe, w, m, path);
    }
  }

  /** No instance override for w, or a namesake of it, is among the calls. */
  predicate NoInstanceFor(calls: seq<Call>, w: Wrapper) {
    forall c | c in calls && (c.InstByType? || c.InstByName?) :: !Overrides(c, w)
  }

  lemma {:induction false} NoInstanceKey(calls: seq<Call>, w: Wrapper, m: PathMatch, path: string)
    requires NoInstanceFor(calls, w)
    ensures KeyOf(w) !in InstTabulate(calls, m, path)
  {
    if calls != [] {
      var before, c := calls[..|calls| - 1], calls[|calls| - 1];
      assert c in calls && forall d | d in before :: d in calls;
      NoInstanceKey(before, w, m, path);
    }
  }

  lemma OneMoreCall(calls: seq<Call>, c: Call, m: PathMatch, path: string)
    ensures Tabulate(calls + [c]) == Tabulated(Tabulate(calls), c)
    ensures InstTabulate(calls + [c], m, path) == InstTabulated(InstTabulate(calls, m, path), m, path, c)
    ensures Replay(calls + [c]) == After(Replay(calls), c)
  {
    assert (calls + [c])[..|calls|] == calls;
  }

  lemma WithinMore(calls: seq<Call>, universe: set<Wrapper>, c: Call)
    requires Within(calls, universe) && CallWithin(c, universe)
    ensures Within(calls + [c], universe)
  {
  }

  /** Two more calls: the tables, and what is registered. */
  lemma TwoMoreCalls(calls: seq<Call>, universe: set<Wrapper>, c: Call, d: Call, m: PathMatch, path: string)
    requires Within(calls, universe) && CallWithin(c, universe) && CallWithin(d, universe)
    ensures var after := calls + [c] + [d];
            && Tabulate(after) == Tabulated(Tabulated(Tabulate(calls), c), d)
            && InstTabulate(after, m, path)
                 == InstTabulated(InstTabulated(InstTabulate(calls, m, path), m, path, c), m, path, d)
            && Within(after, universe)
            && (c.TypeByType? || c.InstByType? ==> c.v in Replay(after).types)
            && (d.TypeByType? || d.InstByType? ==> d.v in Replay(after).types)
  {
    OneMoreCall(calls, c, m, path);
    OneMoreCall(calls + [c], d, m, path);
    WithinMore(calls, universe, c);
    WithinMore(calls + [c], universe, d);
    TypesGrow(calls, c);
    TypesGrow(calls + [c], d);
  }

  // ----- from the table to what is created

  /** What creation by type gives, if the search ends within a step. */
  ghost predicate Creates(calls: seq<Call>, m: PathMatch, a: Wrapper, path: string, v: Wrapper, n: nat) {
    var search := Search(Replay(calls), m, path);
    Ends(search, ForType(a), n) && Result(search, ForType(a), n) == Some(v)
  }

  lemma {:induction false} ResultWithin(f: Factory, universe: set<Wrapper>, m: PathMatch, path: string, r: Request,
                                        n: nat)
    requires Consistent(f, universe) && Asked(f, universe, r) && Ends(Search(f, m, path), r, n)
    ensures var found := Result(Search(f, m, path), r, n);
            found.Some? ==> found.value in universe
    decreases n
  {
    var sel := Selected(f, m, r, path);
    assert sel.Some? ==> OverrideOk(f, sel.value);
    if Hop(f, m, r, path).Go? { ResultWithin(f, universe, m, path, Hop(f, m, r, path).next, n - 1); }
  }

  /** A walk that ends at the key of a registered type creates that type. */
  lemma WalkCreates(calls: seq<Call>, universe: set<Wrapper>, m: PathMatch, a: Wrapper, path: string, v: Wrapper,
                    n: nat)
    requires UniqueNames(universe) && Within(calls, universe) && a in universe && v in Replay(calls).types
    requires var walk := TableStep(TableFor(calls, m, path));
             Ends(walk, KeyOf(a), n) && Result(walk, KeyOf(a), n) == KeyOf(v)
    ensures Creates(calls, m, a, path, v, n)
  {
    var f := Replay(calls);
    ReplayConsistent(calls, universe);
    SearchIsTableWalk(calls, universe, m, ForType(a), path, n);
    ResultWithin(f, universe, m, path, ForType(a), n);
    var found := Result(Search(f, m, path), ForType(a), n);
    assert KeyOf(v).Named? ==> v.typeName in f.names;
  }

  lemma WalkOfOne(t: Table, k: Key, l: Key)
    requires k in t && t[k] == l != k && l !in t
    ensures Ends(TableStep(t), k, 1) && Result(TableStep(t), k, 1) == l
  {
    assert TableStep(t)(k) == Go(l) && TableStep(t)(l) == Stop(l);
    assert Ends(TableStep(t), l, 0);
  }

  lemma WalkOfTwo(t: Table, k: Key, l: Key, j: Key)
    requires k in t && t[k] == l != k && l in t && t[l] == j != l && j !in t
    ensures Ends(TableStep(t), k, 2) && Result(TableStep(t), k, 2) == j
  {
    WalkOfOne(t, l, j);
    assert TableStep(t)(k) == Go(l);
  }

  lemma {:induction false} TypesGrow(calls: seq<Call>, c: Call)
    ensures Replay(calls).types <= Replay(calls + [c]).types
    ensures c.TypeByType? || c.InstByType? ==> c.o in Replay(calls + [c]).types && c.v in Replay(calls + [c]).types
  {
    assert (calls + [c])[..|calls|] == calls;
  }

  // ----- what decides

  /** A registered type that no call overrides is created as it is. */
  lemma NothingOverridden(calls: seq<Call>, universe: set<Wrapper>, m: PathMatch, a: Wrapper, path: string)
    requires Untouched(calls, universe, a) && a in Replay(calls).types
    ensures Creates(calls, m, a, path, a, 0)
  {
    UntouchedKey(calls, universe, a, m, path);
    WalkCreates(calls, universe, m, a, path, a, 0);
  }

  /** By its name the search finds nothing, and creation falls back on the type itself; under a name that is not
      registered nothing is created. */
  lemma NothingOverriddenByName(calls: seq<Call>, universe: set<Wrapper>, m: PathMatch, a: Wrapper, path: string)
    requires Untouched(calls, universe, a) && a in Replay(calls).types
    requires a.typeName != "" && a.typeName != "<unknown>"
    ensures var search := Search(Replay(calls), m, path);
            && Ends(search, ForName(a.typeName), 0) && Result(search, ForName(a.typeName), 0) == None
            && CreatedByName(Replay(calls), m, a.typeName, path, 0) == Some(a)
  {
    UntouchedKey(calls, universe, a, m, path);
    ReplayConsistent(calls, universe);
    SelectionIsTableLookup(calls, universe, m, ForName(a.typeName), path);
    assert a.typeName in Replay(calls).names;
  }

  lemma UnknownNameCreatesNothing(calls: seq<Call>, universe: set<Wrapper>, m: PathMatch, a: Wrapper, path: string)
    requires Untouched(calls, universe, a) && a.typeName !in Replay(calls).names
    ensures var search := Search(Replay(calls), m, path);
            && Ends(search, ForName(a.typeName), 0) && Result(search, ForName(a.typeName), 0) == None
            && CreatedByName(Replay(calls), m, a.typeName, path, 0) == None
  {
    UntouchedKey(calls, universe, a, m, path);
    UntouchedName(calls, universe, a, m, path);
    SelectionIsTableLookup(calls, universe, m, ForName(a.typeName), path);
  }

  lemma {:induction false} UntouchedName(calls: seq<Call>, universe: set<Wrapper>, w: Wrapper, m: PathMatch,
                                         path: string)
    requires Untouched(calls, universe, w)
    ensures Named(w.typeName) !in TableFor(calls, m, path)
    ensures Named(w.typeName) !in Tabulate(calls) && Named(w.typeName) !in InstTabulate(calls, m, path)
  {
    if calls != [] {
      var before, c := calls[..|calls| - 1], calls[|calls| - 1];
      assert c in calls && forall d | d in before :: d in calls;
      UntouchedName(before, universe, w, m, path);
    }
  }

  /** The last replacing override by type decides, whatever was called before, where there is no instance override
      for the type. */
  lemma LastReplacingDecides(calls: seq<Call>, universe: set<Wrapper>, m: PathMatch, a: Wrapper, v: Wrapper,
                             path: string)
    requires Untouched(calls, universe, v) && NoInstanceFor(calls, a) && a in universe
    requires a != v && a.typeName != v.typeName
    ensures Creates(calls + [TypeByType(a, v, true)], m, a, path, v, 1)
  {
    var c := TypeByType(a, v, true);
    OneMoreCall(calls, c, m, path);
    WithinMore(calls, universe, c);
    TypesGrow(calls, c);
    UntouchedKey(calls, universe, v, m, path);
    NoInstanceKey(calls, a, m, path);
    WalkOfOne(TableFor(calls + [c], m, path), KeyOf(a), KeyOf(v));
    WalkCreates(calls + [c], universe, m, a, path, v, 1);
  }

  /** So does one by name. */
  lemma LastReplacingByNameDecides(calls: seq<Call>, universe: set<Wrapper>, m: PathMatch, a: Wrapper, v: Wrapper,
                                   path: string)
    requires Untouched(calls, universe, v) && NoInstanceFor(calls, a) && a in universe
    requires v in Replay(calls).types && a.typeName != v.typeName
    requires a.typeName != "" && a.typeName != "<unknown>" && v.typeName != "" && v.typeName != "<unknown>"
    ensures Creates(calls + [TypeByName(a.typeName, v.typeName, true)], m, a, path, v, 1)
  {
    var c := TypeByName(a.typeName, v.typeName, true);
    OneMoreCall(calls, c, m, path);
    WithinMore(calls, universe, c);
    TypesGrow(calls, c);
    UntouchedKey(calls, universe, v, m, path);
    NoInstanceKey(calls, a, m, path);
    WalkOfOne(TableFor(calls + [c], m, path), KeyOf(a), KeyOf(v));
    WalkCreates(calls + [c], universe, m, a, path, v, 1);
  }

  /** An override that does not replace decides only if it is the first. */
  lemma FirstKeepingDecides(calls: seq<Call>, universe: set<Wrapper>, m: PathMatch, a: Wrapper, v: Wrapper, w: Wrapper,
                            path: string)
    requires Untouched(calls, universe, a) && Untouched(calls, universe, v)
    requires a != v && a.typeName != v.typeName && w in universe
    ensures Creates(calls + [TypeByType(a, v, false)] + [TypeByType(a, w, false)], m, a, path, v, 1)
  {
    var c, d := TypeByType(a, v, false), TypeByType(a, w, false);
    TwoMoreCalls(calls, universe, c, d, m, path);
    UntouchedKey(calls, universe, a, m, path);
    UntouchedKey(calls, universe, v, m, path);
    WalkOfOne(TableFor(calls + [c] + [d], m, path), KeyOf(a), KeyOf(v));
    WalkCreates(calls + [c] + [d], universe, m, a, path, v, 1);
  }

  /** Overrides follow one another. */
  lemma OverridesChain(calls: seq<Call>, universe: set<Wrapper>, m: PathMatch, a: Wrapper, b: Wrapper, v: Wrapper,
                       path: string)
    requires Untouched(calls, universe, v) && NoInstanceFor(calls, a) && NoInstanceFor(calls, b)
    requires a in universe && b in universe
    requires a != b && a != v && b != v
    requires a.typeName != b.typeName && a.typeName != v.typeName && b.typeName != v.typeName
    ensures Creates(calls + [TypeByType(a, b, true)] + [TypeByType(b, v, true)], m, a, path, v, 2)
  {
    var c, d := TypeByType(a, b, true), TypeByType(b, v, true);
    TwoMoreCalls(calls, universe, c, d, m, path);
    var t := TableFor(calls + [c] + [d], m, path);
    assert KeyOf(v) !in t by { UntouchedKey(calls, universe, v, m, path); }
    assert KeyOf(a) in t && t[KeyOf(a)] == KeyOf(b) by { NoInstanceKey(calls, a, m, path); }
    assert KeyOf(b) in t && t[KeyOf(b)] == KeyOf(v) by { NoInstanceKey(calls, b, m, path); }
    WalkOfTwo(t, KeyOf(a), KeyOf(b), KeyOf(v));
    WalkCreates(calls + [c] + [d], universe, m, a, path, v, 2);
  }

  /** Overriding a type with itself takes its overrides back; by name such a call is ignored. */
  lemma OverriddenWithItself(calls: seq<Call>, universe: set<Wrapper>, m: PathMatch, a: Wrapper, path: string)
    requires UniqueNames(universe) && Within(calls, universe) && NoInstanceFor(calls, a) && a in universe
    ensures Creates(calls + [TypeByType(a, a, true)], m, a, path, a, 0)
    ensures Replay(calls + [TypeByName(a.typeName, a.typeName, true)]) == Replay(calls)
  {
    var c := TypeByType(a, a, true);
    OneMoreCall(calls, c, m, path);
    OneMoreCall(calls, TypeByName(a.typeName, a.typeName, true), m, path);
    WithinMore(calls, universe, c);
    TypesGrow(calls, c);
    NoInstanceKey(calls, a, m, path);
    assert TableStep(TableFor(calls + [c], m, path))(KeyOf(a)) == Stop(KeyOf(a));
    WalkCreates(calls + [c], universe, m, a, path, a, 0);
  }

  // ----- where an instance override applies

  /** An instance override decides, before any type override, exactly at the paths it is for: the one it names, or,
      if there is a wildcard in it, those that match; and never for an object without a path. */
  lemma InstanceDecidesIff(calls: seq<Call>, universe: set<Wrapper>, m: PathMatch, a: Wrapper, v: Wrapper,
                           pattern: string, path: string)
    requires NoInstanceFor(calls, a) && a in universe && Untouched(calls, universe, v)
    requires a != v && a.typeName != v.typeName
    ensures var after := calls + [InstByType(a, v, pattern)];
            if path != "" && if '*' in pattern || '?' in pattern then pattern == "*" || m(pattern, path)
                             else pattern == path
            then Creates(after, m, a, path, v, 1)
            else Untouched(calls, universe, a) ==> Creates(after, m, a, path, a, 0)
  {
    var c := InstByType(a, v, pattern);
    OneMoreCall(calls, c, m, path);
    WithinMore(calls, universe, c);
    TypesGrow(calls, c);
    NoInstanceKey(calls, a, m, path);
    UntouchedKey(calls, universe, v, m, path);
    var t := TableFor(calls + [c], m, path);
    if path != "" && PathApplies(m, pattern, path) {
      WalkOfOne(t, KeyOf(a), KeyOf(v));
      WalkCreates(calls + [c], universe, m, a, path, v, 1);
    } else if Untouched(calls, universe, a) {
      UntouchedKey(calls, universe, a, m, path);
      WalkCreates(calls + [c], universe, m, a, path, a, 0);
    }
  }

  /** And it does so before type overrides that come later. */
  lemma InstanceBeforeType(calls: seq<Call>, universe: set<Wrapper>, m: PathMatch, a: Wrapper, v: Wrapper, w: Wrapper,
                           replace: bool, path: string)
    requires NoInstanceFor(calls, a) && a in universe && Untouched(calls, universe, v) && w in universe
    requires a != v && a.typeName != v.typeName && path != "" && '*' !in path && '?' !in path
    ensures Creates(calls + [InstByType(a, v, path)] + [TypeByType(a, w, replace)], m, a, path, v, 1)
  {
    var c, d := InstByType(a, v, path), TypeByType(a, w, replace);
    TwoMoreCalls(calls, universe, c, d, m, path);
    NoInstanceKey(calls, a, m, path);
    UntouchedKey(calls, universe, v, m, path);
    WalkOfOne(TableFor(calls + [c] + [d], m, path), KeyOf(a), KeyOf(v));
    WalkCreates(calls + [c] + [d], universe, m, a, path, v, 1);
  }

  /** Of two instance overrides for the same path the first decides. */
  lemma FirstInstanceDecides(calls: seq<Call>, universe: set<Wrapper>, m: PathMatch, a: Wrapper, v: Wrapper, w: Wrapper,
                             path: string)
    requires NoInstanceFor(calls, a) && a in universe && Untouched(calls, universe, v) && w in universe
    requires a != v && a.typeName != v.typeName && path != "" && '*' !in path && '?' !in path
    ensures Creates(calls + [InstByType(a, v, path)] + [InstByType(a, w, path)], m, a, path, v, 1)
  {
    var c, d := InstByType(a, v, path), InstByType(a, w, path);
    TwoMoreCalls(calls, universe, c, d, m, path);
    NoInstanceKey(calls, a, m, path);
    UntouchedKey(calls, universe, v, m, path);
    WalkOfOne(TableFor(calls + [c] + [d], m, path), KeyOf(a), KeyOf(v));
    WalkCreates(calls + [c] + [d], universe, m, a, path, v, 1);
  }

  /** By name an instance override does the same. */
  lemma InstanceByNameDecides(calls: seq<Call>, universe: set<Wrapper>, m: PathMatch, a: Wrapper, v: Wrapper,
                              path: string)
    requires NoInstanceFor(calls, a) && a in universe && Untouched(calls, universe, v) && v in Replay(calls).types
    requires a.typeName != "" && a.typeName != "<unknown>" && v.typeName != "" && v.typeName != "<unknown>"
    requires a.typeName != v.typeName && path != "" && '*' !in path && '?' !in path
    ensures Creates(calls + [InstByName(a.typeName, v.typeName, path)], m, a, path, v, 1)
  {
    var c := InstByName(a.typeName, v.typeName, path);
    OneMoreCall(calls, c, m, path);
    WithinMore(calls, universe, c);
    TypesGrow(calls, c);
    NoInstanceKey(calls, a, m, path);
    UntouchedKey(calls, universe, v, m, path);
    WalkOfOne(TableFor(calls + [c], m, path), KeyOf(a), KeyOf(v));
    WalkCreates(calls + [c], universe, m, a, path, v, 1);
  }

  // ----- names

  /** A type is found by the name it reports, unless that is empty or unknown, as soon as it is registered. */
  lemma FoundByName(calls: seq<Call>, universe: set<Wrapper>, w: Wrapper)
    requires UniqueNames(universe) && Within(calls, universe)
    ensures var f := Replay(calls);
            && "" !in f.names && "<unknown>" !in f.names
            && (w in f.types && w.typeName != "" && w.typeName != "<unknown>" ==>
                  w.typeName in f.names && f.names[w.typeName] == w)
  {
    ReplayConsistent(calls, universe);
    var f := Replay(calls);
    assert w in f.types && Usable(w.typeName) ==> w.typeName in f.names;
  }

  lemma ReplayMore(calls: seq<Call>, c: Call)
    ensures Replay(calls + [c]) == After(Replay(calls), c)
  {
    assert (calls + [c])[..|calls|] == calls;
  }

  lemma NameStaysOnce(f: Factory, c: Call, name: string)
    requires name in f.names
    ensures name in After(f, c).names && After(f, c).names[name] == f.names[name]
  {
  }

  /** A name stays with the type that was registered under it first, even if others report the same. */
  lemma {:induction false} NameStays(calls: seq<Call>, more: seq<Call>, name: string)
    requires name in Replay(calls).names
    ensures name in Replay(calls + more).names && Replay(calls + more).names[name] == Replay(calls).names[name]
  {
    if more == [] {
      assert calls + more == calls;
    } else {
      var front, last := more[..|more| - 1], more[|more| - 1];
      NameStays(calls, front, name);
      assert calls + more == (calls + front) + [last];
      ReplayMore(calls + front, last);
      NameStaysOnce(Replay(calls + front), last, name);
    }
  }

  /** A call by type looks no further than an entry for a type that is not registered, and one by a name that is not
      registered no further than the first entry: if that is not what they look for, a new entry goes before it,
      whatever stands behind it. */
  lemma EarlyExits(f: Factory, on: string, vn: string, replace: bool)
    requires f.typeOverrides != [] && on !in f.names && on != vn
    requires var first := f.typeOverrides[0].orig;
             first.name != on && (first.wrapper.Some? || first.name !in f.names)
    ensures SetTypeByName(f, on, vn, replace).typeOverrides
         == [Override("", TypePair(None, on), TypePair(if vn in f.names then Some(f.names[vn]) else None, vn), replace)]
            + f.typeOverrides
  {
  }

  lemma EarlyExitsByType(f: Factory, o: Wrapper, v: Wrapper, replace: bool)
    requires f.typeOverrides != [] && o in f.types && v in f.types
    requires var first := f.typeOverrides[0].orig;
             first.name != o.typeName && first.wrapper.None? && first.name !in f.names
    ensures SetTypeByType(f, o, v, replace).typeOverrides
         == [Override("", TypePair(Some(o), o.typeName), TypePair(Some(v), v.typeName), replace)] + f.typeOverrides
  {
  }

  // ----- creation by the object

  /** An instance override for the joined path decides what is created there, by type and by name, whatever was
      called before, as long as it is the first for the type. */
  method CreateAtInstance(isMatch: PathMatch, calls: seq<Call>, a: Wrapper, v: Wrapper, parent: string, leaf: string,
                          ghost universe: set<Wrapper>)
    returns (byType: Option<Wrapper>, byName: Option<Wrapper>)
    requires NoInstanceFor(calls, a) && a in universe && Untouched(calls, universe, v)
    requires a != v && a.typeName != v.typeName && a.typeName != "" && a.typeName != "<unknown>"
    requires parent != "" && leaf != "" && '*' !in parent + leaf && '?' !in parent + leaf
    ensures byType == Some(v) && byName == Some(v)
  {
    var path := parent + "." + leaf;
    InstanceDecidesIff(calls, universe, isMatch, a, v, path, path);
    OneMoreCall(calls, InstByType(a, v, path), isMatch, path);
    TypesGrow(calls, InstByType(a, v, path));
    WithinMore(calls, universe, InstByType(a, v, path));
    ReplayConsistent(calls + [InstByType(a, v, path)], universe);
    ByNameIsByType(Replay(calls + [InstByType(a, v, path)]), universe, isMatch, a, path, 1);
    var factory := Configure(isMatch, calls + [InstByType(a, v, path)]);
    byType := factory.CreateObjectByType(a, parent, leaf, 1);
    byName := factory.CreateObjectByName(a.typeName, parent, leaf, 1);
  }

  /** Where the parent or the leaf is empty the override has to be for the other alone. */
  method CreateAtEnd(isMatch: PathMatch, calls: seq<Call>, a: Wrapper, v: Wrapper, part: string, atTop: bool,
                     ghost universe: set<Wrapper>)
    returns (byType: Option<Wrapper>)
    requires NoInstanceFor(calls, a) && a in universe && Untouched(calls, universe, v)
    requires a != v && a.typeName != v.typeName && part != "" && '*' !in part && '?' !in part
    ensures byType == Some(v)
  {
    InstanceDecidesIff(calls, universe, isMatch, a, v, part, part);
    var factory := Configure(isMatch, calls + [InstByType(a, v, part)]);
    if atTop {
      byType := factory.CreateObjectByType(a, "", part, 1);
    } else {
      byType := factory.CreateObjectByType(a, part, "", 1);
    }
  }

  /** And an override for anything else, the parent alone included, does not apply there. */
  method CreateElsewhere(isMatch: PathMatch, calls: seq<Call>, a: Wrapper, v: Wrapper, parent: string, leaf: string,
                         other: string, ghost universe: set<Wrapper>)
    returns (byType: Option<Wrapper>)
    requires Untouched(calls, universe, a) && Untouched(calls, universe, v)
    requires a != v && a.typeName != v.typeName && parent != "" && leaf != ""
    requires other != parent + "." + leaf && '*' !in other && '?' !in other
    ensures byType == Some(a)
  {
    InstanceDecidesIff(calls, universe, isMatch, a, v, other, parent + "." + leaf);
    var factory := Configure(isMatch, calls + [InstByType(a, v, other)]);
    byType := factory.CreateObjectByType(a, parent, leaf, 0);
  }
}
