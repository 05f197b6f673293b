/** The state of the type factory and what its updates and searches do to it, as functions. */
module FactoryState {
  import opened Wrappers
  import opened Scans

  /** The proxy of a registered type: its identity, and the type name it reports. */
  datatype Wrapper = Wrapper(id: nat, typeName: string)

  datatype TypePair = TypePair(wrapper: Option<Wrapper>, name: string)

  datatype Override = Override(path: string, orig: TypePair, ovrd: TypePair, replace: bool)

  type PathMatch = (string, string) -> bool

  datatype Factory = Factory(types: set<Wrapper>, names: map<string, Wrapper>,
                             typeOverrides: seq<Override>, instOverrides: seq<Override>)

  const EMPTY := Factory({}, map[], [], [])

  /** Names that take part in lookups by name. */
  predicate Usable(name: string) {
    name != "" && name != "<unknown>"
  }

  // ----- matching

  function Resolve(names: map<string, Wrapper>, name: string): Option<Wrapper> {
    if name in names then Some(names[name]) else None
  }

  function Completed(names: map<string, Wrapper>, p: TypePair): TypePair {
    if p.wrapper.None? then p.(wrapper := Resolve(names, p.name)) else p
  }

  predicate MatchesPair(p: TypePair, wrapper: Option<Wrapper>, name: string) {
    || (p.wrapper.Some? && p.wrapper == wrapper)
    || (Usable(p.name) && p.name == name)
  }

  predicate MatchesType(names: map<string, Wrapper>, o: Override, wrapper: Option<Wrapper>, name: string) {
    MatchesPair(Completed(names, o.orig), wrapper, name)
  }

  predicate HasWildcard(path: string) {
    '*' in path || '?' in path
  }

  predicate MatchesInst(names: map<string, Wrapper>, match_: PathMatch, o: Override,
                        wrapper: Option<Wrapper>, name: string, path: string)
  {
    && MatchesType(names, o, wrapper, name)
    && if HasWildcard(o.path) then o.path == "*" || match_(o.path, path) else o.path == path
  }

  // ----- registration

  function RefreshPair(p: TypePair, w: Wrapper): TypePair {
    if MatchesPair(p, None, w.typeName) then p.(wrapper := Some(w)) else p
  }

  function Refresh(o: Override, w: Wrapper): Override {
    o.(orig := RefreshPair(o.orig, w), ovrd := RefreshPair(o.ovrd, w))
  }

  function RefreshAll(os: seq<Override>, w: Wrapper): (r: seq<Override>)
    ensures |r| == |os|
    ensures forall i | 0 <= i < |os| :: r[i] == Refresh(os[i], w)
  {
    seq(|os|, i requires 0 <= i < |os| => Refresh(os[i], w))
  }

  function Register(f: Factory, w: Wrapper): Factory {
    var names := if Usable(w.typeName) && w.typeName !in f.names then f.names[w.typeName := w] else f.names;
    if w in f.types then f.(names := names)
    else Factory(f.types + {w}, names, RefreshAll(f.typeOverrides, w), RefreshAll(f.instOverrides, w))
  }

  function RegisterIfNew(f: Factory, w: Wrapper): Factory {
    if w in f.types then f else Register(f, w)
  }

  // ----- type overrides

  /** What a call asks for: entries of this wrapper or name get this override.  A call by type also
      rewrites the original of an entry it revises; a call by an unregistered name looks no further
      than the first entry that does not match. */
  datatype Revision = Revision(wrapper: Option<Wrapper>, name: string, byType: bool,
                               ovrd: TypePair, replace: bool)

  function Entry(rev: Revision): Override {
    Override("", TypePair(rev.wrapper, rev.name), rev.ovrd, rev.replace)
  }

  function Rewrite(o: Override, rev: Revision): Override {
    var o' := o.(ovrd := rev.ovrd, replace := rev.replace);
    if rev.byType then o'.(orig := TypePair(rev.wrapper, rev.name)) else o'
  }

  predicate StopsAt(o: Override, rev: Revision) {
    o.orig.wrapper.None? || (!rev.byType && rev.wrapper.None?)
  }

  /** The scan from the newest entry, with its early exits. */
  function RulesOf(names: map<string, Wrapper>, rev: Revision): Rules<Override> {
    Rules(o => MatchesType(names, o, rev.wrapper, rev.name), o => StopsAt(o, rev), o => Rewrite(o, rev), rev.replace)
  }

  function Revise(names: map<string, Wrapper>, os: seq<Override>, rev: Revision): (seq<Override>, Outcome) {
    Scan(os, RulesOf(names, rev))
  }

  lemma ReviseStep(names: map<string, Wrapper>, os: seq<Override>, rev: Revision)
    requires os != []
    ensures var rest := Revise(names, os[1..], rev);
            Revise(names, os, rev) ==
              if MatchesType(names, os[0], rev.wrapper, rev.name) then
                if rev.replace then ([Rewrite(os[0], rev)] + rest.0, Revised) else (os, Kept)
              else if StopsAt(os[0], rev) then (os, NotFound)
              else ([os[0]] + rest.0, rest.1)
  {}

  function ReviseTypes(f: Factory, rev: Revision): Factory {
    var r := Revise(f.names, f.typeOverrides, rev);
    f.(typeOverrides := if r.1 == NotFound then [Entry(rev)] + r.0 else r.0)
  }

  function ByTypeRevision(o: Wrapper, v: Wrapper, replace: bool): Revision {
    Revision(Some(o), o.typeName, true, TypePair(Some(v), v.typeName), replace)
  }

  function SetTypeByType(f: Factory, o: Wrapper, v: Wrapper, replace: bool): Factory {
    ReviseTypes(RegisterIfNew(RegisterIfNew(f, o), v), ByTypeRevision(o, v, replace))
  }

  function ByNameRevision(names: map<string, Wrapper>, o: string, v: string, replace: bool): Revision {
    Revision(Resolve(names, o), o, false, TypePair(Resolve(names, v), v), replace)
  }

  function SetTypeByName(f: Factory, o: string, v: string, replace: bool): Factory {
    if o == v then f else ReviseTypes(f, ByNameRevision(f.names, o, v, replace))
  }

  // ----- instance overrides

  function AddInst(f: Factory, o: Override): Factory {
    if exists e | e in f.instOverrides :: e.path == o.path && e.orig == o.orig && e.ovrd == o.ovrd then f
    else f.(instOverrides := f.instOverrides + [o])
  }

  function SetInstByType(f: Factory, o: Wrapper, v: Wrapper, path: string): Factory {
    AddInst(RegisterIfNew(RegisterIfNew(f, o), v),
            Override(path, TypePair(Some(o), o.typeName), TypePair(Some(v), v.typeName), false))
  }

  function SetInstByName(f: Factory, o: string, v: string, path: string): Factory {
    AddInst(f, Override(path, TypePair(Resolve(f.names, o), o), TypePair(Resolve(f.names, v), v), false))
  }

  // ----- searches

  /** The scan over the type overrides: the newest matching entry wins, unless it does not replace, in
      which case an older one goes before it. */
  function PickType(names: map<string, Wrapper>, os: seq<Override>, wrapper: Option<Wrapper>, name: string)
    : (r: Option<Override>)
    ensures r.Some? ==> r.value in os
  {
    if os == [] then None
    else
      var older := PickType(names, os[1..], wrapper, name);
      if !MatchesType(names, os[0], wrapper, name) then older
      else if os[0].replace || older.None? then Some(os[0])
      else older
  }

  /** The first instance override, in order of registration, that matches. */
  function PickInst(names: map<string, Wrapper>, match_: PathMatch, os: seq<Override>,
                    wrapper: Option<Wrapper>, name: string, path: string): (r: Option<Override>)
    ensures r.Some? ==> r.value in os
  {
    if os == [] then None
    else if MatchesInst(names, match_, os[0], wrapper, name, path) then Some(os[0])
    else PickInst(names, match_, os[1..], wrapper, name, path)
  }

  function Select(f: Factory, match_: PathMatch, wrapper: Option<Wrapper>, name: string, path: string)
    : (r: Option<Override>)
    ensures r.Some? ==> r.value in f.typeOverrides || r.value in f.instOverrides
  {
    var inst := if path == "" then None else PickInst(f.names, match_, f.instOverrides, wrapper, name, path);
    if inst.Some? then inst else PickType(f.names, f.typeOverrides, wrapper, name)
  }

  // ----- histories

  datatype Call =
    | Registering(w: Wrapper)
    | TypeByType(o: Wrapper, v: Wrapper, replace: bool)
    | TypeByName(on: string, vn: string, replace: bool)
    | InstByType(o: Wrapper, v: Wrapper, path: string)
    | InstByName(on: string, vn: string, path: string)

  function After(f: Factory, call: Call): Factory {
    match call
    case Registering(w) => Register(f, w)
    case TypeByType(o, v, replace) => SetTypeByType(f, o, v, replace)
    case TypeByName(on, vn, replace) => SetTypeByName(f, on, vn, replace)
    case InstByType(o, v, path) => SetInstByType(f, o, v, path)
    case InstByName(on, vn, path) => SetInstByName(f, on, vn, path)
  }

  function Replay(calls: seq<Call>): Factory {
    if calls == [] then EMPTY else After(Replay(calls[..|calls| - 1]), calls[|calls| - 1])
  }
}
