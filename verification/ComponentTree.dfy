/** The component hierarchy, built by constructors and searched by name. */
module ComponentTree {
  import opened Sequences
  import opened ComponentNames

  /** What the constructor settles for good is constant. */
  class Component {
    const name: string
    const mName: string
    const parent: Component?
    var children: map<string, Component>
    ghost const path: seq<string>

    /** A component without a place in the hierarchy. */
    constructor Detached(name: string)
      ensures this.name == name && mName == "" && parent == null && children == map[] && path == []
    {
      this.name, mName, parent, children, path := name, "", null, map[], [];
    }

    /** The full name goes on from the parent's, or starts with the name where the parent is the root. */
    constructor (name: string, parent: Component, top: Component)
      ensures this.name == name && this.parent == parent && children == map[] && path == parent.path + [name]
      ensures mName == if parent == top then name else parent.mName + "." + name
    {
      this.name, this.parent, children, path := name, parent, map[], parent.path + [name];
      mName := if parent == top then name else parent.mName + "." + name;
    }
  }

  /** The children of every component of a hierarchy, at one moment. */
  type Kids = map<Component, map<string, Component>>

  /** Each child is filed under its name, and its path goes on from its parent's. */
  ghost predicate Filed(kids: Kids, c: Component)
    requires c in kids
  {
    forall k | k in kids[c] ::
      kids[c][k] in kids && kids[c][k].parent == c && kids[c][k].name == k && kids[c][k].path == c.path + [k]
  }

  ghost predicate Placed(kids: Kids, c: Component) {
    && c.parent != null && c.parent in kids && c.name != "" && c.name in kids[c.parent]
    && kids[c.parent][c.name] == c && c.mName == Join(c.path)
  }

  ghost predicate IsTree(root: Component, kids: Kids) {
    && root in kids && root.parent == null && root.path == [] && root.mName == ""
    && forall c | c in kids :: Filed(kids, c) && (c != root ==> Placed(kids, c))
  }

  lemma TreeStarts(root: Component)
    requires root.parent == null && root.path == [] && root.mName == ""
    ensures IsTree(root, map[root := map[]])
  {
  }

  ghost function Grown(kids: Kids, p: Component, c: Component): Kids
    requires p in kids
  {
    kids[p := kids[p][c.name := c]][c := map[]]
  }

  lemma TreeGrows(root: Component, kids: Kids, p: Component, c: Component)
    requires IsTree(root, kids) && p in kids && c !in kids && c.name !in kids[p] && c.name != ""
    requires c.parent == p && c.path == p.path + [c.name]
    requires c.mName == if p == root then c.name else p.mName + "." + c.name
    ensures IsTree(root, Grown(kids, p, c))
  {
    PathOf(root, kids, p);
    assert c.path[..|c.path| - 1] == p.path;
    assert c.mName == Join(c.path);
    var more := Grown(kids, p, c);
    forall d | d in more ensures Filed(more, d) && (d != root ==> Placed(more, d)) {
      if d != c { StillFiled(root, kids, p, c, d); }
    }
  }

  lemma StillFiled(root: Component, kids: Kids, p: Component, c: Component, d: Component)
    requires p in kids && c !in kids && d in kids && c.name !in kids[p] && Filed(kids, d)
    requires c.parent == p && c.path == p.path + [c.name] && (d != root ==> Placed(kids, d))
    ensures Filed(Grown(kids, p, c), d) && (d != root ==> Placed(Grown(kids, p, c), d))
  {
  }

  lemma {:induction false} PathOf(root: Component, kids: Kids, c: Component)
    requires IsTree(root, kids) && c in kids
    ensures c.mName == Join(c.path) && NoneEmpty(c.path)
    ensures c == root <==> c.path == []
    ensures c != root ==> c.parent != null && c.parent in kids && c.path == c.parent.path + [c.name]
    decreases |c.path|
  {
    if c != root {
      assert Placed(kids, c) && Filed(kids, c.parent);
      PathOf(root, kids, c.parent);
    }
  }

  lemma {:induction false} PathIsUnique(root: Component, kids: Kids, c: Component, d: Component)
    requires IsTree(root, kids) && c in kids && d in kids && c.path == d.path
    ensures c == d
    decreases |c.path|
  {
    PathOf(root, kids, c);
    PathOf(root, kids, d);
    if c != root {
      SameEnds(c.parent.path, c.name, d.parent.path, d.name);
      PathIsUnique(root, kids, c.parent, d.parent);
      assert Placed(kids, c) && Placed(kids, d);
    }
  }

  lemma SameEnds(p: seq<string>, x: string, q: seq<string>, y: string)
    requires p + [x] == q + [y]
    ensures p == q && x == y
  {
    assert p == (p + [x])[..|p + [x]| - 1];
    assert (p + [x])[|p|] == x;
  }

  // ----- looking up

  /** Going down from c along the names of segs. */
  ghost function Descend(root: Component, kids: Kids, c: Component, segs: seq<string>): (r: Component?)
    requires IsTree(root, kids) && c in kids
    ensures r != null ==> r in kids
    decreases |segs|
  {
    if segs == [] then c
    else if segs[0] in kids[c] then
      assert Filed(kids, c);
      Descend(root, kids, kids[c][segs[0]], segs[1..])
    else null
  }

  lemma DescendStep(root: Component, kids: Kids, c: Component, leaf: string, rest: seq<string>)
    requires IsTree(root, kids) && c in kids
    ensures leaf in kids[c] ==> kids[c][leaf] in kids && kids[c][leaf].path == c.path + [leaf]
    ensures leaf in kids[c] ==> Descend(root, kids, c, [leaf] + rest) == Descend(root, kids, kids[c][leaf], rest)
    ensures leaf !in kids[c] ==> Descend(root, kids, c, [leaf] + rest) == null
  {
    assert ([leaf] + rest)[1..] == rest;
    assert Filed(kids, c);
  }

  lemma {:induction false} DescendPath(root: Component, kids: Kids, c: Component, segs: seq<string>)
    requires IsTree(root, kids) && c in kids && Descend(root, kids, c, segs) != null
    ensures Descend(root, kids, c, segs).path == c.path + segs
    decreases |segs|
  {
    if segs == [] {
      assert c.path + segs == c.path;
    } else {
      HeadTail(segs);
      Regroup(c.path, [segs[0]], segs[1..]);
      DescendStep(root, kids, c, segs[0], segs[1..]);
      DescendPath(root, kids, kids[c][segs[0]], segs[1..]);
    }
  }

  /** Going down a component's path leads to it. */
  lemma {:induction false} DescendFinds(root: Component, kids: Kids, c: Component, rest: seq<string>)
    requires IsTree(root, kids) && c in kids
    ensures Descend(root, kids, root, c.path + rest) == Descend(root, kids, c, rest)
    decreases |c.path|
  {
    PathOf(root, kids, c);
    if c == root {
      assert c.path + rest == rest;
    } else {
      assert Placed(kids, c);
      Regroup(c.parent.path, [c.name], rest);
      DescendFinds(root, kids, c.parent, [c.name] + rest);
      DescendStep(root, kids, c.parent, c.name, rest);
    }
  }

  /** A path from c is found exactly where it belongs. */
  lemma DescendIff(root: Component, kids: Kids, c: Component, segs: seq<string>, d: Component)
    requires IsTree(root, kids) && c in kids && d in kids
    ensures Descend(root, kids, c, segs) == d <==> d.path == c.path + segs
  {
    if Descend(root, kids, c, segs) == d { DescendPath(root, kids, c, segs); }
    if d.path == c.path + segs {
      DescendFinds(root, kids, c, segs);
      DescendFinds(root, kids, d, []);
      assert d.path + [] == d.path;
    }
  }

  /** What a lookup of name from start is to find. */
  ghost function Found(root: Component, kids: Kids, start: Component, name: string): Component?
    requires IsTree(root, kids) && start in kids
  {
    if Malformed(name) then null
    else Descend(root, kids, if Absolute(name) then root else start, Segments(Body(name)))
  }

  /** A lookup finds a component exactly when the string is well formed and spells the rest of its path. */
  lemma LookupFindsIff(root: Component, kids: Kids, start: Component, name: string, c: Component)
    requires IsTree(root, kids) && start in kids && c in kids
    ensures var origin := if Absolute(name) then root else start;
            Found(root, kids, start, name) == c <==> !Malformed(name) && c.path == origin.path + Segments(Body(name))
  {
    DescendIff(root, kids, if Absolute(name) then root else start, Segments(Body(name)), c);
  }

  /** From anywhere, the full name after a dot finds the component exactly when no name on its path has a dot
      or a wildcard. */
  lemma FullNameFinds(root: Component, kids: Kids, start: Component, c: Component)
    requires IsTree(root, kids) && start in kids && c in kids && c != root
    ensures Found(root, kids, start, "." + c.mName) == c <==> AllLegal(c.path)
  {
    PathOf(root, kids, c);
    FullNameReadsBack(c.path);
    LookupFindsIff(root, kids, start, "." + c.mName, c);
    assert root.path + Segments(c.mName) == Segments(c.mName);
  }

  /** And where names are legal nothing but the full name finds it, except with one more dot at the end. */
  lemma OnlyFullNameFinds(root: Component, kids: Kids, start: Component, s: string, c: Component)
    requires IsTree(root, kids) && start in kids && c in kids && Found(root, kids, start, "." + s) == c
    ensures s == c.mName || s == c.mName + "."
  {
    PathOf(root, kids, c);
    LookupFindsIff(root, kids, start, "." + s, c);
    assert root.path + Segments(s) == Segments(s);
    JoinOfSegments(s);
  }

  /** From an ancestor, the rest of the path finds the component. */
  lemma RelativeNameFinds(root: Component, kids: Kids, start: Component, c: Component, rest: seq<string>)
    requires IsTree(root, kids) && start in kids && c in kids && c.path == start.path + rest
    requires rest != [] && AllLegal(rest)
    ensures Found(root, kids, start, Join(rest)) == c
  {
    RelativeReadsBack(rest);
    LookupFindsIff(root, kids, start, Join(rest), c);
  }

  /** A full name is the parent's and the name, with a dot between them, or the name alone below the root. */
  lemma FullNameGrows(root: Component, kids: Kids, c: Component)
    requires IsTree(root, kids) && c in kids && c != root
    ensures c.parent != null && c.parent in kids
    ensures c.mName == if c.parent == root then c.name else c.parent.mName + "." + c.name
  {
    PathOf(root, kids, c);
    PathOf(root, kids, c.parent);
    assert Placed(kids, c) && c.path[..|c.path| - 1] == c.parent.path;
  }

  /** Two components have the same full name exactly when their paths, with every name cut at its dots, are the
      same. */
  lemma FullNamesAgreeIff(root: Component, kids: Kids, c: Component, d: Component)
    requires IsTree(root, kids) && c in kids && d in kids
    ensures c.mName == d.mName <==> Pieces(c.path) == Pieces(d.path)
  {
    PathOf(root, kids, c);
    PathOf(root, kids, d);
    JoinsAlikeIff(c.path, d.path);
  }

  /** Where no name has a dot, different components have different full names. */
  lemma FullNamesAreUnique(root: Component, kids: Kids, c: Component, d: Component)
    requires IsTree(root, kids) && c in kids && d in kids && DotFree(c.path) && DotFree(d.path) && c.mName == d.mName
    ensures c == d
  {
    FullNamesAgreeIff(root, kids, c, d);
    DotFreePieces(c.path);
    DotFreePieces(d.path);
    PathIsUnique(root, kids, c, d);
  }

  // ----- depth

  ghost function Ancestors(root: Component, kids: Kids, c: Component): nat
    requires IsTree(root, kids) && c in kids
    decreases |c.path|
  {
    PathOf(root, kids, c);
    if c == root then 0 else 1 + Ancestors(root, kids, c.parent)
  }

  lemma {:induction false} AncestorsAreThePath(root: Component, kids: Kids, c: Component)
    requires IsTree(root, kids) && c in kids
    ensures Ancestors(root, kids, c) == |c.path|
    decreases |c.path|
  {
    PathOf(root, kids, c);
    if c != root { AncestorsAreThePath(root, kids, c.parent); }
  }

  /** The depth is the number of ancestors exactly when no name on the path has a dot. */
  lemma DepthCountsAncestors(root: Component, kids: Kids, c: Component)
    requires IsTree(root, kids) && c in kids
    ensures DepthOf(c.mName) == Ancestors(root, kids, c) <==> DotFree(c.path)
  {
    PathOf(root, kids, c);
    AncestorsAreThePath(root, kids, c);
    DepthIsPathLength(c.path);
  }

  lemma SameKids(a: Kids, b: Kids)
    requires a.Keys == b.Keys && forall c | c in a :: a[c] == b[c]
    ensures a == b
  {
  }

  // ----- the methods

  /** Where a lookup starts, and what of the string names components. */
  predicate Absolute(s: string) {
    s == "" || s[0] == '.'
  }

  function Body(s: string): string {
    if s != "" && s[0] == '.' then s[1..] else s
  }

  /** The string is looked through for what a lookup refuses. */
  method CheckName(name: string) returns (bad: bool)
    ensures bad == Malformed(name)
    ensures bad <==> '*' in name || '?' in name || exists i | 0 <= i < |name| - 1 :: name[i] == '.' == name[i + 1]
  {
    var i := 0;
    while i < |name|
      invariant 0 <= i <= |name|
      invariant forall k: nat | k < i :: !MalformedAt(name, k)
    {
      if (i + 1 < |name| && name[i..i + 2] == "..") || name[i] == '*' || name[i] == '?' {
        assert MalformedAt(name, i);
        MalformedIs(name);
        return true;
      }
      i := i + 1;
    }
    MalformedIs(name);
    bad := false;
  }

  lemma MalformedIs(name: string)
    ensures Malformed(name) <==>
              '*' in name || '?' in name || exists i | 0 <= i < |name| - 1 :: name[i] == '.' == name[i + 1]
  {
    if c :| c in name && (c == '*' || c == '?') {
      var i :| 0 <= i < |name| && name[i] == c;
      assert MalformedAt(name, i);
    }
    if i :| 0 <= i < |name| - 1 && name[i] == '.' == name[i + 1] { assert MalformedAt(name, i); }
  }

  method ExtractName(name: string) returns (leaf: string, remainder: string)
    ensures leaf == Leaf(name) && remainder == Remainder(name)
    ensures '.' !in leaf
    ensures if '.' in name then name == leaf + "." + remainder else name == leaf && remainder == ""
  {
    var i := 0;
    while i < |name|
      invariant 0 <= i <= |name| && '.' !in name[..i]
    {
      if name[i] == '.' { break; }
      i := i + 1;
    }
    FirstDotIs(name, i);
    if i == |name| {
      assert name[..i] == name;
      return name, "";
    }
    leaf, remainder := name[..i], name[i + 1..];
    SplitAt(name, i);
  }

  lemma {:induction false} DotsAreCounted(s: string)
    ensures Dots(s) == |set i | 0 <= i < |s| && s[i] == '.'|
  {
    if s != "" {
      var n := |s| - 1;
      DotsAreCounted(s[..n]);
      assert (set i | 0 <= i < |s| && s[i] == '.')
          == (set i | 0 <= i < n && s[..n][i] == '.') + if s[n] == '.' then {n} else {};
    }
  }

  method GetDepth(c: Component) returns (depth: nat)
    ensures depth == DepthOf(c.mName)
    ensures depth == if c.mName == "" then 0 else 1 + |set i | 0 <= i < |c.mName| && c.mName[i] == '.'|
  {
    if c.mName == "" { return 0; }
    DotsAreCounted(c.mName);
    depth := 1;
    var i := 0;
    while i < |c.mName|
      invariant 0 <= i <= |c.mName| && depth == 1 + Dots(c.mName[..i])
    {
      assert c.mName[..i + 1][..i] == c.mName[..i];
      if c.mName[i] == '.' { depth := depth + 1; }
      i := i + 1;
    }
    assert c.mName[..i] == c.mName;
  }

  class Hierarchy {
    const root: Component
    ghost var comps: set<Component>

    constructor ()
      ensures Valid() && fresh(root) && comps == {root} && root.children == map[]
    {
      root := new Component.Detached("");
      comps := {root};
      new;
      assert KidsNow() == map[root := map[]];
      TreeStarts(root);
    }

    ghost function KidsNow(): Kids
      reads this, comps
    {
      map c | c in comps :: c.children
    }

    ghost predicate Valid()
      reads this, comps
    {
      IsTree(root, KidsNow())
    }

    /** A new component below parent, or below the root.  It stays outside the hierarchy when its parent has a
        child of that name.  instCount is the number of objects made so far, of whatever kind, this one included. */
    method New(name: string, parent: Component?, instCount: nat) returns (c: Component, ok: bool)
      requires Valid() && (parent != null ==> parent in comps)
      modifies this, if parent == null then root else parent
      ensures Valid() && fresh(c)
      ensures var p := if parent == null then root else parent;
              var n := if name == "" then "COMP_" + Decimal(instCount) else name;
              && (ok <==> !(parent == null && name == "__top__") && n !in old(p.children))
              && (ok ==> comps == old(comps) + {c} && p.children == old(p.children)[n := c])
              && (ok ==> c.parent == p && c.name == n && c.path == p.path + [n] && c.children == map[])
              && (ok ==> c.mName == if p == root then n else p.mName + "." + n)
              && (!ok ==> comps == old(comps) && p.children == old(p.children))
    {
      if parent == null && name == "__top__" {
        c := new Component.Detached("");
        return c, false;
      }
      var n := if name == "" then "COMP_" + Decimal(instCount) else name;
      var p := if parent == null then root else parent;
      if n in p.children {
        c := new Component.Detached(name);
        return c, false;
      }
      c := new Component(n, p, root);
      AddChild(p, c);
      ok := true;
    }

    method AddChild(p: Component, c: Component)
      requires Valid() && p in comps && c !in comps && c.name !in p.children && c.name != ""
      requires c.parent == p && c.children == map[] && c.path == p.path + [c.name]
      requires c.mName == if p == root then c.name else p.mName + "." + c.name
      modifies p`children, this`comps
      ensures Valid() && comps == old(comps) + {c} && p.children == old(p.children)[c.name := c]
    {
      TreeGrows(root, KidsNow(), p, c);
      Link(p, c);
    }

    method Link(p: Component, c: Component)
      requires p in comps && c !in comps && c.children == map[]
      modifies p`children, this`comps
      ensures KidsNow() == Grown(old(KidsNow()), p, c)
      ensures comps == old(comps) + {c} && p.children == old(p.children)[c.name := c]
    {
      ghost var kids := KidsNow();
      p.children := p.children[c.name := c];
      comps := comps + {c};
      forall d | d in comps ensures d.children == Grown(kids, p, c)[d] {
        if d != p && d != c { assert kids[d] == old(d.children); }
      }
      SameKids(KidsNow(), Grown(kids, p, c));
    }

    method Lookup(start: Component, name: string) returns (comp: Component?)
      requires Valid() && start in comps
      ensures comp == Found(root, KidsNow(), start, name)
      decreases |name|
    {
      var bad := CheckName(name);
      if bad { return null; }
      var from := start;
      var leaf, remainder := ExtractName(name);
      if leaf == "" {
        from := root;
        leaf, remainder := ExtractName(remainder);
      }
      LeafOfBody(name);
      DescendStep(root, KidsNow(), from, leaf, if remainder == "" then [] else Segments(remainder));
      if leaf !in from.children { return null; }
      if remainder != "" {
        RemainderIsRelative(name);
        comp := Lookup(from.children[leaf], remainder);
      } else {
        comp := from.children[leaf];
      }
    }
  }

  lemma DottedPaths()
    ensures Join(["a.b"]) == Join(["a", "b"]) && AllLegal(["a", "b"])
  {
    assert ["a", "b"][..1] == ["a"] && "a" + "." + "b" == "a.b";
  }

  /** With a dot in a name they need not: "a.b" at the top has the full name of b below a, and a lookup takes it
      for that. */
  lemma DottedNameClashes(root: Component, kids: Kids, c: Component, d: Component)
    requires IsTree(root, kids) && c in kids && d in kids && c.path == ["a.b"] && d.path == ["a", "b"]
    ensures c != d && c.mName == d.mName && Found(root, kids, root, "." + c.mName) == d
  {
    PathOf(root, kids, c);
    PathOf(root, kids, d);
    DottedPaths();
    FullNameFinds(root, kids, root, d);
  }

  method MakeTop() returns (h: Hierarchy, a: Component)
    ensures fresh(h) && fresh(h.root) && fresh(a) && h.Valid() && a in h.comps && a != h.root
    ensures a.path == ["a"] && "b" !in a.children && "a.b" !in h.root.children
  {
    h := new Hierarchy();
    var ok;
    a, ok := h.New("a", null, 1);
    assert a.path == ["a"];
  }

  method MakePair() returns (h: Hierarchy, d: Component)
    ensures fresh(h) && fresh(h.root) && h.Valid() && d in h.comps && d.path == ["a", "b"]
    ensures "a.b" !in h.root.children
  {
    var a, ok;
    h, a := MakeTop();
    d, ok := h.New("b", a, 2);
    assert ["a"] + ["b"] == ["a", "b"];
  }

  /** Nothing keeps such names from being given. */
  method MakeDotted() returns (h: Hierarchy, c: Component, d: Component)
    ensures fresh(h) && h.Valid() && c in h.comps && d in h.comps && c != d && c.mName == d.mName
  {
    h, d := MakePair();
    var ok;
    c, ok := h.New("a.b", null, 3);
    assert c.path == ["a.b"];
    DottedNameClashes(h.root, h.KidsNow(), c, d);
  }

  lemma RelativeReadsBack(rest: seq<string>)
    requires rest != [] && AllLegal(rest)
    ensures !Malformed(Join(rest)) && !Absolute(Join(rest)) && Body(Join(rest)) == Join(rest)
    ensures Segments(Join(rest)) == rest
  {
    SegmentsOfJoin(rest);
    WellFormedJoin(rest);
    JoinHasNoTwoDots(rest);
    var s := "." + Join(rest);
    assert s[1..] == Join(rest);
    MalformedSuffix(s, 1);
  }

  lemma MalformedSuffix(s: string, at: nat)
    requires at <= |s|
    ensures Malformed(s[at..]) ==> Malformed(s)
  {
    if Malformed(s[at..]) {
      var i: nat :| i < |s[at..]| && MalformedAt(s[at..], i);
      assert MalformedAt(s, at + i);
    }
  }

  lemma LeafOfBody(name: string)
    ensures Leaf(name) == "" <==> Absolute(name)
    ensures Leaf(name) == "" ==> Remainder(name) == Body(name)
    ensures Leaf(name) != "" ==> name == Body(name)
  {
    if name != "" && name[0] == '.' { FirstDotIs(name, 0); }
  }

  /** What remains of a well-formed string is well formed and does not start over from the root. */
  lemma RemainderIsRelative(name: string)
    requires !Malformed(name) && Remainder(Body(name)) != ""
    ensures var rest := Remainder(Body(name));
            |rest| < |name| && !Malformed(rest) && !Absolute(rest) && Body(rest) == rest
  {
    var rest := Remainder(Body(name));
    var at := |name| - |rest|;
    assert name[at..] == rest && name[at - 1] == '.';
    assert !MalformedAt(name, at - 1);
    MalformedSuffix(name, at);
  }
}
