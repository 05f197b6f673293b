/** The factory as an object: registration and override calls update its queues in place, and the two
    searches call each other. */
module FactoryEngine {
  import opened Wrappers
  import opened Scans
  import opened Chains
  import opened FactoryState
  import opened FactoryTable
  import opened FactoryResolution

  class DefaultFactory {
    var types: set<Wrapper>
    var names: map<string, Wrapper>
    var typeOverrides: seq<Override>
    var instOverrides: seq<Override>
    const isMatch: PathMatch

    ghost function State(): Factory
      reads this
    {
      Factory(types, names, typeOverrides, instOverrides)
    }

    constructor (isMatch: PathMatch)
      ensures State() == EMPTY && this.isMatch == isMatch
    {
      types, names, typeOverrides, instOverrides := {}, map[], [], [];
      this.isMatch := isMatch;
    }

    method RefreshOverrides(os: seq<Override>, w: Wrapper) returns (r: seq<Override>)
      ensures r == RefreshAll(os, w)
    {
      r := os;
      for i := 0 to |os|
        invariant |r| == |os|
        invariant forall j | 0 <= j < i :: r[j] == Refresh(os[j], w)
        invariant forall j | i <= j < |os| :: r[j] == os[j]
      {
        if MatchesPair(r[i].orig, None, w.typeName) {
          r := r[i := r[i].(orig := r[i].orig.(wrapper := Some(w)))];
        }
        if MatchesPair(r[i].ovrd, None, w.typeName) {
          r := r[i := r[i].(ovrd := r[i].ovrd.(wrapper := Some(w)))];
        }
      }
    }

    method Register(w: Wrapper)
      modifies this
      ensures State() == FactoryState.Register(old(State()), w)
    {
      if Usable(w.typeName) && w.typeName !in names {
        names := names[w.typeName := w];
      }
      if w !in types {
        types := types + {w};
        typeOverrides := RefreshOverrides(typeOverrides, w);
        instOverrides := RefreshOverrides(instOverrides, w);
      }
    }

    method RegisterBoth(o: Wrapper, v: Wrapper)
      modifies this
      ensures State() == RegisterIfNew(RegisterIfNew(old(State()), o), v)
    {
      if o !in types {
        Register(o);
      }
      if v !in types {
        Register(v);
      }
    }

    /** The scan of the type overrides that both calls below do, newest first. */
    method ReviseInPlace(rev: Revision)
      modifies this`typeOverrides
      ensures State() == ReviseTypes(old(State()), rev)
    {
      var revised, outcome := ScanInPlace(typeOverrides, RulesOf(names, rev));
      typeOverrides := revised;
      if outcome == NotFound {
        typeOverrides := [Entry(rev)] + typeOverrides;
      }
    }

    method SetTypeOverrideByType(o: Wrapper, v: Wrapper, replace: bool := true)
      modifies this
      ensures State() == SetTypeByType(old(State()), o, v, replace)
    {
      RegisterBoth(o, v);
      ReviseInPlace(ByTypeRevision(o, v, replace));
    }

    method SetTypeOverrideByName(o: string, v: string, replace: bool := true)
      modifies this
      ensures State() == SetTypeByName(old(State()), o, v, replace)
    {
      if o == v {
        return;
      }
      ReviseInPlace(ByNameRevision(names, o, v, replace));
    }

    method InstOverrideExists(o: Override) returns (found: bool)
      ensures found <==> exists e | e in instOverrides :: e.path == o.path && e.orig == o.orig && e.ovrd == o.ovrd
    {
      for i := 0 to |instOverrides|
        invariant forall j | 0 <= j < i ::
                    !(instOverrides[j].path == o.path && instOverrides[j].orig == o.orig
                      && instOverrides[j].ovrd == o.ovrd)
      {
        var e := instOverrides[i];
        if e.path == o.path && e.orig == o.orig && e.ovrd == o.ovrd {
          return true;
        }
      }
      return false;
    }

    method AddInstOverride(o: Override)
      modifies this`instOverrides
      ensures State() == AddInst(old(State()), o)
    {
      var found := InstOverrideExists(o);
      if !found {
        instOverrides := instOverrides + [o];
      }
    }

    method SetInstOverrideByType(o: Wrapper, v: Wrapper, path: string)
      modifies this
      ensures State() == SetInstByType(old(State()), o, v, path)
    {
      RegisterBoth(o, v);
      AddInstOverride(Override(path, TypePair(Some(o), o.typeName), TypePair(Some(v), v.typeName), false));
    }

    method SetInstOverrideByName(o: string, v: string, path: string)
      modifies this
      ensures State() == SetInstByName(old(State()), o, v, path)
    {
      AddInstOverride(Override(path, TypePair(Resolve(names, o), o), TypePair(Resolve(names, v), v), false));
    }

    method Apply(call: Call)
      modifies this
      ensures State() == After(old(State()), call)
    {
      match call
      case Registering(w) => Register(w);
      case TypeByType(o, v, replace) => SetTypeOverrideByType(o, v, replace);
      case TypeByName(on, vn, replace) => SetTypeOverrideByName(on, vn, replace);
      case InstByType(o, v, path) => SetInstOverrideByType(o, v, path);
      case InstByName(on, vn, path) => SetInstOverrideByName(on, vn, path);
    }

    /** The two scans of a search: instances in order of registration, then types newest first. */
    method SelectOverride(wrapper: Option<Wrapper>, name: string, path: string) returns (chosen: Option<Override>)
      ensures chosen == Select(State(), isMatch, wrapper, name, path)
    {
      chosen := None;
      if path != "" {
        for i := 0 to |instOverrides|
          invariant chosen == None
          invariant PickInst(names, isMatch, instOverrides, wrapper, name, path)
                 == PickInst(names, isMatch, instOverrides[i..], wrapper, name, path)
        {
          assert instOverrides[i..][1..] == instOverrides[i + 1..];
          if MatchesInst(names, isMatch, instOverrides[i], wrapper, name, path) {
            chosen := Some(instOverrides[i]);
            return;
          }
        }
      }
      var i := 0;
      while i < |typeOverrides|
        invariant 0 <= i <= |typeOverrides|
        invariant chosen.Some? ==> !chosen.value.replace
        invariant PickType(names, typeOverrides, wrapper, name)
               == var older := PickType(names, typeOverrides[i..], wrapper, name); if older.Some? then older else chosen
      {
        assert typeOverrides[i..][1..] == typeOverrides[i + 1..];
        if MatchesType(names, typeOverrides[i], wrapper, name) {
          chosen := Some(typeOverrides[i]);
          if typeOverrides[i].replace {
            return;
          }
        }
        i := i + 1;
      }
    }

    /** The search by name.  `bound` is a number of steps within which it is known to end. */
    method FindOverrideByName(name: string, path: string, ghost bound: nat) returns (found: Option<Wrapper>)
      requires Ends(Search(State(), isMatch, path), ForName(name), bound)
      ensures found == Result(Search(State(), isMatch, path), ForName(name), bound)
      decreases bound
    {
      ghost var f := State();
      var requested := Resolve(names, name);
      var chosen := SelectOverride(requested, name, path);
      assert Search(f, isMatch, path)(ForName(name)) == Hop(f, isMatch, ForName(name), path);
      if chosen.None? {
        return None;
      }
      var o := chosen.value;
      found := o.ovrd.wrapper;
      if !MatchesPair(Completed(names, o.ovrd), requested, name) {
        if found.None? {
          found := FindOverrideByName(o.ovrd.name, path, bound - 1);
        } else {
          found := FindOverrideByType(found.value, path, bound - 1);
        }
      } else if found.None? {
        found := Resolve(names, o.ovrd.name);
      }
    }

    method FindOverrideByType(requested: Wrapper, path: string, ghost bound: nat) returns (found: Option<Wrapper>)
      requires Ends(Search(State(), isMatch, path), ForType(requested), bound)
      ensures found == Result(Search(State(), isMatch, path), ForType(requested), bound)
      decreases bound
    {
      ghost var f := State();
      var chosen := SelectOverride(Some(requested), requested.typeName, path);
      assert Search(f, isMatch, path)(ForType(requested)) == Hop(f, isMatch, ForType(requested), path);
      if chosen.None? {
        return Some(requested);
      }
      var o := chosen.value;
      found := o.ovrd.wrapper;
      if !MatchesPair(Completed(names, o.ovrd), Some(requested), requested.typeName) {
        if found.None? {
          found := FindOverrideByName(o.ovrd.name, path, bound - 1);
        } else {
          found := FindOverrideByType(found.value, path, bound - 1);
        }
      } else if found.None? {
        found := Resolve(names, o.ovrd.name);
      }
    }

    method JoinPath(parent: string, leaf: string) returns (path: string)
      ensures path == if parent == "" then leaf else if leaf == "" then parent else parent + "." + leaf
    {
      if parent == "" {
        path := leaf;
      } else if leaf != "" {
        path := parent + "." + leaf;
      } else {
        path := parent;
      }
    }

    /** The wrapper that is asked to create the object; None where an unregistered name is reported. */
    method CreateObjectByName(name: string, parentPath: string, leaf: string, ghost bound: nat)
      returns (wrapper: Option<Wrapper>)
      requires var path := if parentPath == "" then leaf else if leaf == "" then parentPath
                           else parentPath + "." + leaf;
               Ends(Search(State(), isMatch, path), ForName(name), bound)
      ensures var path := if parentPath == "" then leaf else if leaf == "" then parentPath
                          else parentPath + "." + leaf;
              wrapper == CreatedByName(State(), isMatch, name, path, bound)
    {
      var path := JoinPath(parentPath, leaf);
      wrapper := FindOverrideByName(name, path, bound);
      if wrapper.None? {
        wrapper := Resolve(names, name);
      }
    }

    method CreateObjectByType(requested: Wrapper, parentPath: string, leaf: string, ghost bound: nat)
      returns (wrapper: Option<Wrapper>)
      requires var path := if parentPath == "" then leaf else if leaf == "" then parentPath
                           else parentPath + "." + leaf;
               Ends(Search(State(), isMatch, path), ForType(requested), bound)
      ensures var path := if parentPath == "" then leaf else if leaf == "" then parentPath
                          else parentPath + "." + leaf;
              wrapper == Result(Search(State(), isMatch, path), ForType(requested), bound)
    {
      var path := JoinPath(parentPath, leaf);
      wrapper := FindOverrideByType(requested, path, bound);
    }
  }

  /** A fresh factory driven through a history of calls. */
  method Configure(isMatch: PathMatch, calls: seq<Call>) returns (factory: DefaultFactory)
    ensures fresh(factory) && factory.isMatch == isMatch && factory.State() == Replay(calls)
  {
    factory := new DefaultFactory(isMatch);
    for i := 0 to |calls|
      invariant fresh(factory) && factory.isMatch == isMatch && factory.State() == Replay(calls[..i])
    {
      assert calls[..i + 1][..i] == calls[..i];
      factory.Apply(calls[i]);
    }
    assert calls[..|calls|] == calls;
  }
}
