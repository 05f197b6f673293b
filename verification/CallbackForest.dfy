/** The forest of registered types, and the recursion that goes down it. */
module CallbackForest {
  import opened Wrappers
  import opened Chains

  type Type = nat
  type Obj = nat

  /** What the class declarations fix: how deep each class lies in the inheritance tree, and the classes that each
      object is an instance of. */
  datatype Classes = Classes(depth: map<Type, nat>, kinds: map<Obj, set<Type>>) {
    predicate IsA(o: Obj, t: Type) {
      o in kinds && t in kinds[o]
    }
  }

  /** derived are the types registered below each type, superType the type each is registered below. */
  datatype Forest = Forest(classes: Classes, derived: map<Type, seq<Type>>, superType: map<Type, Type>) {

    /** Both directions of each registration are recorded. */
    ghost predicate Linked() {
      && (forall t | t in superType :: t in derived && superType[t] in derived && t in derived[superType[t]])
      && (forall t, d | t in derived && d in derived[t] :: d in superType && superType[d] == t)
    }

    /** From a type to the one it is registered below; a registration below itself is ignored. */
    function Up(): Type -> Step<Type, Type> {
      t => if t in superType && superType[t] != t then Go(superType[t]) else Stop(t)
    }

    /** Going up from t one meets top. */
    ghost predicate ClimbsTo(t: Type, top: Type) {
      exists k: nat :: Walk(Up(), t, k) == Some(top)
    }

    ghost predicate OnCircle(t: Type) {
      exists k: nat :: k > 0 && Walk(Up(), t, k) == Some(t)
    }

    ghost predicate CircleFree() {
      forall t: Type :: !OnCircle(t)
    }

    /** The recursion that calls itself for every type registered below t, but not for t, comes back, and its calls
        are nested no deeper than n. */
    predicate ReturnsWithin(t: Type, n: nat)
      decreases n
    {
      t in derived && forall d | d in derived[t] && d != t :: n > 0 && ReturnsWithin(d, n - 1)
    }

    /** The recursion from t has an end. */
    ghost predicate Finite(t: Type) {
      Linked() && t in derived && !OnCircle(t)
    }

    function Least(t: Type, n: nat): (h: nat)
      requires ReturnsWithin(t, n)
      ensures ReturnsWithin(t, h)
    {
      if n > 0 && ReturnsWithin(t, n - 1) then Least(t, n - 1) else n
    }

    /** How deep the calls from t are nested. */
    ghost function Height(t: Type): (h: nat)
      requires Finite(t)
      ensures ReturnsWithin(t, h)
    {
      ReturnsIffNotOnCircle(t);
      Least(t, |superType.Values|)
    }

    lemma {:induction false} ReturnsLater(t: Type, n: nat, m: nat)
      requires ReturnsWithin(t, n) && n <= m
      ensures ReturnsWithin(t, m)
      decreases n
    {
      forall d | d in derived[t] && d != t ensures ReturnsWithin(d, m - 1) { ReturnsLater(d, n - 1, m - 1); }
    }

    lemma {:induction false} LeastIsLeast(t: Type, n: nat, m: nat)
      requires ReturnsWithin(t, n) && ReturnsWithin(t, m)
      ensures Least(t, n) <= m
      decreases n
    {
      if n > 0 {
        if ReturnsWithin(t, n - 1) {
          LeastIsLeast(t, n - 1, m);
        } else if m < n {
          ReturnsLater(t, m, n - 1);
        }
      }
    }

    /** On a circle the recursion goes round for ever. */
    lemma {:induction false} CircleNeverReturns(t: Type, k: nat, n: nat)
      requires Linked() && k > 0 && Walk(Up(), t, k) == Some(t)
      ensures !ReturnsWithin(t, n)
      decreases n
    {
      var below := Walk(Up(), t, k - 1).value;
      WalkFromNext(Up(), below, k - 1);
      assert below in derived[t] && below != t;
      if n > 0 { CircleNeverReturns(below, k, n - 1); }
    }

    lemma {:induction false} DeepCallsClimb(t: Type, n: nat) returns (low: Type)
      requires Linked() && t in derived && !ReturnsWithin(t, n)
      ensures Walk(Up(), low, n + 1) == Some(t)
      decreases n
    {
      var d :| d in derived[t] && d != t && !(n > 0 && ReturnsWithin(d, n - 1));
      if n > 0 {
        low := DeepCallsClimb(d, n - 1);
      } else {
        low := d;
        assert Walk(Up(), d, 0) == Some(d);
      }
    }

    /** The recursion comes back exactly when the type is not on a circle of registrations, and then it is nested
        no deeper than there are types with something registered below them. */
    lemma ReturnsIffNotOnCircle(t: Type)
      requires Linked() && t in derived
      ensures (exists n: nat :: ReturnsWithin(t, n)) <==> !OnCircle(t)
      ensures !OnCircle(t) ==> ReturnsWithin(t, |superType.Values|)
    {
      if OnCircle(t) {
        var k: nat :| k > 0 && Walk(Up(), t, k) == Some(t);
        forall n: nat ensures !ReturnsWithin(t, n) { CircleNeverReturns(t, k, n); }
      } else {
        if !ReturnsWithin(t, |superType.Values|) {
          var low := DeepCallsClimb(t, |superType.Values|);
          var p := LongWalkEndsOnCircle(Up(), low, t, superType.Values);
        }
        assert ReturnsWithin(t, |superType.Values|);
      }
    }

    lemma Deeper(t: Type, d: Type)
      requires Finite(t) && d in derived[t] && d != t
      ensures Finite(d) && Height(d) < Height(t)
    {
      var h := Height(t);
      assert ReturnsWithin(d, h - 1);
      ReturnsIffNotOnCircle(d);
      LeastIsLeast(d, |superType.Values|, h - 1);
    }

    /** The types in the order in which the recursion comes to them. */
    ghost function Visits(t: Type): seq<Type>
      requires Finite(t)
      decreases Height(t), |derived[t]| + 1
    {
      [t] + VisitsEach(t, derived[t])
    }

    ghost function VisitsEach(t: Type, ds: seq<Type>): seq<Type>
      requires Finite(t) && forall d | d in ds :: d in derived[t]
      decreases Height(t), |ds|
    {
      if ds == [] then []
      else
        var d := ds[|ds| - 1];
        VisitsEach(t, ds[..|ds| - 1]) + (if d == t then [] else Deeper(t, d); Visits(d))
    }

    /** The registrations follow inheritance: what is an instance of a type is one of its super type. */
    ghost predicate Honest() {
      forall o, t | classes.IsA(o, t) && t in superType :: classes.IsA(o, superType[t])
    }

    /** Types are registered below one of their base classes, or below themselves. */
    ghost predicate Descending() {
      forall t | t in superType && superType[t] != t ::
        t in classes.depth && superType[t] in classes.depth && classes.depth[superType[t]] < classes.depth[t]
    }
  }

  // ----- registering

  /** A type seen for the first time has nothing below it. */
  function WithType(f: Forest, t: Type): Forest {
    f.(derived := f.derived[t := []])
  }

  lemma NewTypeLinks(f: Forest, t: Type)
    requires f.Linked() && t !in f.derived
    ensures WithType(f, t).Linked()
  {
  }

  function Registered(f: Forest, t: Type, st: Type): Forest
    requires st in f.derived
  {
    f.(derived := f.derived[st := f.derived[st] + [t]], superType := f.superType[t := st])
  }

  /** Both directions stay in step, whatever is registered below what. */
  lemma RegisteringLinks(f: Forest, t: Type, st: Type)
    requires f.Linked() && t in f.derived && st in f.derived && t !in f.superType
    ensures Registered(f, t, st).Linked()
  {
    var g := Registered(f, t, st);
    forall d | d in g.superType
      ensures d in g.derived && g.superType[d] in g.derived && d in g.derived[g.superType[d]]
    {
      if d == t { assert g.derived[st][|f.derived[st]|] == t; }
    }
    forall s, d | s in g.derived && d in g.derived[s] ensures d in g.superType && g.superType[d] == s {
      assert d in f.derived[s] || (s == st && d == t);
    }
  }

  lemma SameElsewhere(f: Forest, t: Type, st: Type)
    requires st in f.derived && t !in f.superType
    ensures forall q | q != t :: f.Up()(q) == Registered(f, t, st).Up()(q)
    ensures f.Up()(t).Stop? && Registered(f, t, st).Up()(t) == if t == st then Stop(t) else Go(st)
  {
  }

  lemma ClosesCircle(f: Forest, t: Type, st: Type)
    requires st in f.derived && t !in f.superType && t != st && f.ClimbsTo(st, t)
    ensures Registered(f, t, st).OnCircle(t)
  {
    var g := Registered(f, t, st);
    SameElsewhere(f, t, st);
    var m: nat :| Walk(f.Up(), st, m) == Some(t);
    var k := SameWalkTo(f.Up(), g.Up(), st, t, m);
    WalkFromNext(g.Up(), t, k);
  }

  lemma ClosedBelow(f: Forest, t: Type, st: Type, u: Type)
    requires st in f.derived && t !in f.superType && !f.OnCircle(u) && Registered(f, t, st).OnCircle(u)
    ensures t != st && f.ClimbsTo(st, t)
  {
    var g := Registered(f, t, st);
    SameElsewhere(f, t, st);
    var k: nat :| k > 0 && Walk(g.Up(), u, k) == Some(u);
    var i := WalksPast(g.Up(), f.Up(), u, t, k);
    StaysOnCircle(g.Up(), u, k, i);
    var next := WalkBegins(g.Up(), t, k);
    var m := SameWalkTo(g.Up(), f.Up(), st, t, k - 1);
  }

  /** A registration closes a circle exactly when the super type is itself registered, directly or not, below the
      type. */
  lemma CircleFreeIff(f: Forest, t: Type, st: Type)
    requires st in f.derived && t !in f.superType && f.CircleFree()
    ensures Registered(f, t, st).CircleFree() <==> t == st || !f.ClimbsTo(st, t)
  {
    if t != st && f.ClimbsTo(st, t) { ClosesCircle(f, t, st); }
    if u: Type :| Registered(f, t, st).OnCircle(u) { ClosedBelow(f, t, st, u); }
  }

  /** What a class derived from another one has: it lies deeper, and its instances are instances of the other. */
  ghost predicate DerivesFrom(classes: Classes, t: Type, st: Type) {
    && t in classes.depth && st in classes.depth && classes.depth[st] < classes.depth[t]
    && forall o | classes.IsA(o, t) :: classes.IsA(o, st)
  }

  lemma {:induction false} UpIsHigher(f: Forest, t: Type, k: nat)
    requires f.Descending() && k > 0 && Walk(f.Up(), t, k).Some?
    ensures var top := Walk(f.Up(), t, k).value;
            t in f.classes.depth && top in f.classes.depth && f.classes.depth[top] < f.classes.depth[t]
  {
    if k > 1 {
      UpIsHigher(f, t, k - 1);
    } else {
      assert Walk(f.Up(), t, 0) == Some(t);
    }
  }

  /** Registering types below classes they derive from, or below themselves, never closes a circle, and keeps the
      forest true to inheritance. */
  lemma RegisteringBelowABase(f: Forest, t: Type, st: Type)
    requires f.Descending() && st in f.derived && t !in f.superType && (t == st || DerivesFrom(f.classes, t, st))
    ensures Registered(f, t, st).Descending() && Registered(f, t, st).CircleFree()
    ensures f.Honest() ==> Registered(f, t, st).Honest()
  {
    var g := Registered(f, t, st);
    forall u: Type ensures !g.OnCircle(u) {
      forall k: nat | k > 0 ensures Walk(g.Up(), u, k) != Some(u) {
        if Walk(g.Up(), u, k).Some? { UpIsHigher(g, u, k); }
      }
    }
    if f.Honest() {
      forall o, u | g.classes.IsA(o, u) && u in g.superType ensures g.classes.IsA(o, g.superType[u]) {
        if u != t { assert f.superType[u] == g.superType[u]; }
      }
    }
  }

  /** Two types registered below each other: the recursion from either of them never comes back. */
  lemma MutualSuperTypesNeverReturn(f: Forest, s: Type, t: Type)
    requires f.Linked() && s != t && s in f.superType && t in f.superType && f.superType[s] == t && f.superType[t] == s
    ensures forall n: nat :: !f.ReturnsWithin(s, n)
  {
    var up := f.Up();
    assert Walk(up, s, 0) == Some(s) && Walk(up, s, 1) == Some(t) && Walk(up, s, 2) == Some(s);
    f.ReturnsIffNotOnCircle(s);
  }

  // ----- what the recursion visits

  lemma ClimbFurther(f: Forest, t: Type, d: Type, top: Type)
    requires f.ClimbsTo(t, d) && d in f.superType && d != f.superType[d] == top
    ensures f.ClimbsTo(t, top)
  {
    var k: nat :| Walk(f.Up(), t, k) == Some(d);
    assert Walk(f.Up(), t, k + 1) == Some(top);
  }

  lemma {:induction false} VisitedClimbs(f: Forest, top: Type, t: Type)
    requires f.Finite(top) && t in f.Visits(top)
    ensures t in f.derived && f.ClimbsTo(t, top)
    decreases f.Height(top), |f.derived[top]| + 1
  {
    if t != top {
      assert t in f.VisitsEach(top, f.derived[top]);
      VisitedEachClimbs(f, top, f.derived[top], t);
    } else {
      assert Walk(f.Up(), t, 0) == Some(top);
    }
  }

  lemma {:induction false} VisitedEachClimbs(f: Forest, top: Type, ds: seq<Type>, t: Type)
    requires f.Finite(top) && (forall d | d in ds :: d in f.derived[top]) && t in f.VisitsEach(top, ds)
    ensures t in f.derived && f.ClimbsTo(t, top)
    decreases f.Height(top), |ds|
  {
    var d := ds[|ds| - 1];
    if t in f.VisitsEach(top, ds[..|ds| - 1]) {
      VisitedEachClimbs(f, top, ds[..|ds| - 1], t);
    } else {
      f.Deeper(top, d);
      assert t in f.Visits(d);
      VisitedClimbs(f, d, t);
      ClimbFurther(f, t, d, top);
    }
  }

  lemma {:induction false} EachIsVisited(f: Forest, t: Type, ds: seq<Type>, d: Type)
    requires f.Finite(t) && (forall e | e in ds :: e in f.derived[t]) && d in ds && d != t
    ensures f.Finite(d) && forall x | x in f.Visits(d) :: x in f.VisitsEach(t, ds)
    decreases |ds|
  {
    f.Deeper(t, d);
    if d != ds[|ds| - 1] {
      EachIsVisited(f, t, ds[..|ds| - 1], d);
    }
  }

  /** The recursion goes on below whatever it visits. */
  lemma {:induction false} VisitsGoDown(f: Forest, top: Type, s: Type, d: Type)
    requires f.Finite(top) && s in f.derived && s in f.Visits(top) && d in f.derived[s] && d != s
    ensures d in f.Visits(top)
    decreases f.Height(top), |f.derived[top]| + 1
  {
    if s == top {
      EachIsVisited(f, top, f.derived[top], d);
      assert d in f.Visits(d);
    } else {
      VisitsGoDownEach(f, top, f.derived[top], s, d);
    }
  }

  lemma {:induction false} VisitsGoDownEach(f: Forest, top: Type, ds: seq<Type>, s: Type, d: Type)
    requires f.Finite(top) && (forall e | e in ds :: e in f.derived[top])
    requires s in f.derived && s in f.VisitsEach(top, ds) && d in f.derived[s] && d != s
    ensures d in f.VisitsEach(top, ds)
    decreases f.Height(top), |ds|
  {
    if s in f.VisitsEach(top, ds[..|ds| - 1]) {
      VisitsGoDownEach(f, top, ds[..|ds| - 1], s, d);
    } else {
      f.Deeper(top, ds[|ds| - 1]);
      VisitsGoDown(f, ds[|ds| - 1], s, d);
    }
  }

  lemma {:induction false} ClimberIsVisited(f: Forest, top: Type, t: Type, k: nat)
    requires f.Finite(top) && Walk(f.Up(), t, k) == Some(top)
    ensures t in f.Visits(top)
    decreases k
  {
    if k > 0 {
      var up := WalkBegins(f.Up(), t, k);
      ClimberIsVisited(f, top, up, k - 1);
      VisitsGoDown(f, top, up, t);
    }
  }

  /** The recursion from a type reaches exactly the types registered, directly or not, below it. */
  lemma VisitsAreTheTypesBelow(f: Forest, top: Type, t: Type)
    requires f.Finite(top)
    ensures t in f.Visits(top) <==> f.ClimbsTo(t, top)
  {
    if t in f.Visits(top) { VisitedClimbs(f, top, t); }
    if f.ClimbsTo(t, top) {
      var k: nat :| Walk(f.Up(), t, k) == Some(top);
      ClimberIsVisited(f, top, t, k);
    }
  }

  lemma {:induction false} InstanceClimbs(f: Forest, o: Obj, t: Type, k: nat)
    requires f.Honest() && Walk(f.Up(), t, k).Some? && f.classes.IsA(o, t)
    ensures f.classes.IsA(o, Walk(f.Up(), t, k).value)
    decreases k
  {
    if k > 0 { InstanceClimbs(f, o, t, k - 1); }
  }

  /** Where registrations follow inheritance, an object is an instance of some visited type exactly when it is
      one of the type the recursion started from. */
  lemma VisitedInstances(f: Forest, top: Type, o: Obj)
    requires f.Finite(top) && f.Honest()
    ensures (exists t | t in f.Visits(top) :: f.classes.IsA(o, t)) <==> f.classes.IsA(o, top)
  {
    if t :| t in f.Visits(top) && f.classes.IsA(o, t) {
      VisitedClimbs(f, top, t);
      var k: nat :| Walk(f.Up(), t, k) == Some(top);
      InstanceClimbs(f, o, t, k);
    }
    assert f.Visits(top)[0] == top;
  }
}
