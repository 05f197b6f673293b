/** Typewide callbacks: which queues a registration reaches, and what taking it back leaves. */
module CallbackModel {
  import opened CallbackForest

  type Cb = nat

  // ----- the queues

  function Insert(q: seq<Cb>, cb: Cb, append: bool): seq<Cb> {
    if cb in q then q else if append then q + [cb] else [cb] + q
  }

  function RemoveFirst(q: seq<Cb>, cb: Cb): seq<Cb> {
    if q == [] then [] else if q[0] == cb then q[1..] else [q[0]] + RemoveFirst(q[1..], cb)
  }

  function RemoveTimes(q: seq<Cb>, cb: Cb, n: nat): seq<Cb> {
    if n == 0 then q else RemoveFirst(RemoveTimes(q, cb, n - 1), cb)
  }

  /** The queue of each type and of each object that has one. */
  datatype Queues = Queues(tw: map<Type, seq<Cb>>, pool: map<Obj, seq<Cb>>)

  predicate Known(qs: Queues, visits: seq<Type>) {
    forall t | t in visits :: t in qs.tw
  }

  function AddInstances(classes: Classes, pool: map<Obj, seq<Cb>>, t: Type, cb: Cb, append: bool): map<Obj, seq<Cb>> {
    map o | o in pool :: if classes.IsA(o, t) then Insert(pool[o], cb, append) else pool[o]
  }

  function AddAt(classes: Classes, qs: Queues, t: Type, cb: Cb, append: bool): Queues
    requires t in qs.tw
  {
    Queues(qs.tw[t := Insert(qs.tw[t], cb, append)], AddInstances(classes, qs.pool, t, cb, append))
  }

  /** The visit looks at every queue of the pool, whatever its object is. */
  function DeleteInstances(pool: map<Obj, seq<Cb>>, cb: Cb): map<Obj, seq<Cb>> {
    map o | o in pool :: RemoveFirst(pool[o], cb)
  }

  function DeleteAt(qs: Queues, t: Type, cb: Cb): Queues
    requires t in qs.tw
  {
    Queues(qs.tw[t := RemoveFirst(qs.tw[t], cb)], DeleteInstances(qs.pool, cb))
  }

  function AddAll(classes: Classes, qs: Queues, visits: seq<Type>, cb: Cb, append: bool): (r: Queues)
    requires Known(qs, visits)
    ensures r.tw.Keys == qs.tw.Keys && r.pool.Keys == qs.pool.Keys
  {
    if visits == [] then qs
    else AddAt(classes, AddAll(classes, qs, visits[..|visits| - 1], cb, append), visits[|visits| - 1], cb, append)
  }

  function DeleteAll(qs: Queues, visits: seq<Type>, cb: Cb): (r: Queues)
    requires Known(qs, visits)
    ensures r.tw.Keys == qs.tw.Keys && r.pool.Keys == qs.pool.Keys
  {
    if visits == [] then qs
    else DeleteAt(DeleteAll(qs, visits[..|visits| - 1], cb), visits[|visits| - 1], cb)
  }

  lemma {:induction false} AddAllSplits(classes: Classes, qs: Queues, v: seq<Type>, w: seq<Type>, cb: Cb, append: bool)
    requires Known(qs, v + w)
    ensures Known(qs, v) && Known(qs, w)
    ensures AddAll(classes, qs, v + w, cb, append) == AddAll(classes, AddAll(classes, qs, v, cb, append), w, cb, append)
  {
    assert forall t | t in v || t in w :: t in v + w;
    if w == [] {
      assert v + w == v;
    } else {
      assert (v + w)[..|v + w| - 1] == v + w[..|w| - 1];
      AddAllSplits(classes, qs, v, w[..|w| - 1], cb, append);
    }
  }

  lemma {:induction false} DeleteAllSplits(qs: Queues, v: seq<Type>, w: seq<Type>, cb: Cb)
    requires Known(qs, v + w)
    ensures Known(qs, v) && Known(qs, w)
    ensures DeleteAll(qs, v + w, cb) == DeleteAll(DeleteAll(qs, v, cb), w, cb)
  {
    assert forall t | t in v || t in w :: t in v + w;
    if w == [] {
      assert v + w == v;
    } else {
      assert (v + w)[..|v + w| - 1] == v + w[..|w| - 1];
      DeleteAllSplits(qs, v, w[..|w| - 1], cb);
    }
  }

  ghost predicate Reached(classes: Classes, visits: seq<Type>, o: Obj) {
    exists t | t in visits :: classes.IsA(o, t)
  }

  lemma {:induction false} AddAllInserts(classes: Classes, qs: Queues, visits: seq<Type>, cb: Cb, append: bool)
    requires Known(qs, visits)
    ensures var r := AddAll(classes, qs, visits, cb, append);
            && (forall t | t in qs.tw :: r.tw[t] == if t in visits then Insert(qs.tw[t], cb, append) else qs.tw[t])
            && (forall o | o in qs.pool ::
                  r.pool[o] == if Reached(classes, visits, o) then Insert(qs.pool[o], cb, append) else qs.pool[o])
  {
    if visits != [] {
      var front, last := visits[..|visits| - 1], visits[|visits| - 1];
      assert visits == front + [last];
      AddAllInserts(classes, qs, front, cb, append);
      forall o | o in qs.pool
        ensures Reached(classes, visits, o) <==> Reached(classes, front, o) || classes.IsA(o, last)
      {
      }
    }
  }

  /** However often a queue is come to, it gets at most one copy: behind what is there or in front of it. */
  lemma AddAllReaches(classes: Classes, qs: Queues, visits: seq<Type>, cb: Cb, append: bool)
    requires Known(qs, visits)
    ensures var r := AddAll(classes, qs, visits, cb, append);
            && (forall t | t in qs.tw ::
                  var q := qs.tw[t];
                  r.tw[t] == if t !in visits || cb in q then q else if append then q + [cb] else [cb] + q)
            && (forall o | o in qs.pool ::
                  var q := qs.pool[o];
                  r.pool[o] == if !(exists t | t in visits :: classes.IsA(o, t)) || cb in q then q
                               else if append then q + [cb] else [cb] + q)
  {
    AddAllInserts(classes, qs, visits, cb, append);
    forall o | o in qs.pool ensures Reached(classes, visits, o) <==> exists t | t in visits :: classes.IsA(o, t) {}
  }

  function Times(visits: seq<Type>, t: Type): (n: nat)
    ensures n > 0 <==> t in visits
  {
    if visits == [] then 0
    else
      var last := visits[|visits| - 1];
      assert visits == visits[..|visits| - 1] + [last];
      Times(visits[..|visits| - 1], t) + if last == t then 1 else 0
  }

  lemma {:induction false} DeleteAllRemovesTw(qs: Queues, visits: seq<Type>, cb: Cb, t: Type)
    requires t in qs.tw && Known(qs, visits)
    ensures DeleteAll(qs, visits, cb).tw[t] == RemoveTimes(qs.tw[t], cb, Times(visits, t))
  {
    if visits != [] {
      DeleteAllRemovesTw(qs, visits[..|visits| - 1], cb, t);
    }
  }

  lemma {:induction false} DeleteAllRemovesPool(qs: Queues, visits: seq<Type>, cb: Cb, o: Obj)
    requires o in qs.pool && Known(qs, visits)
    ensures DeleteAll(qs, visits, cb).pool[o] == RemoveTimes(qs.pool[o], cb, |visits|)
  {
    if visits != [] {
      DeleteAllRemovesPool(qs, visits[..|visits| - 1], cb, o);
    }
  }

  // ----- adding and taking back

  lemma {:induction false} RemoveAbsent(q: seq<Cb>, cb: Cb)
    requires cb !in q
    ensures RemoveFirst(q, cb) == q
  {
    if q != [] { RemoveAbsent(q[1..], cb); }
  }

  lemma {:induction false} RemoveLast(q: seq<Cb>, cb: Cb)
    requires cb !in q
    ensures RemoveFirst(q + [cb], cb) == q
  {
    if q != [] {
      assert (q + [cb])[1..] == q[1..] + [cb];
      RemoveLast(q[1..], cb);
    }
  }

  lemma {:induction false} RemoveShortens(q: seq<Cb>, cb: Cb, n: nat)
    ensures |RemoveFirst(q, cb)| == |q| - if cb in q then 1 else 0
    ensures |RemoveTimes(q, cb, n)| <= |q| - if cb in q && n > 0 then 1 else 0
  {
    RemoveFirstLength(q, cb);
    if n > 0 {
      RemoveShortens(q, cb, n - 1);
      RemoveFirstLength(RemoveTimes(q, cb, n - 1), cb);
    }
  }

  lemma {:induction false} RemoveFirstLength(q: seq<Cb>, cb: Cb)
    ensures |RemoveFirst(q, cb)| == |q| - if cb in q then 1 else 0
  {
    if q != [] { RemoveFirstLength(q[1..], cb); }
  }

  /** Removing at least once takes an insertion back exactly when there was nothing to begin with. */
  lemma {:induction false} RemoveUndoesInsert(q: seq<Cb>, cb: Cb, append: bool, n: nat)
    requires n >= 1
    ensures RemoveTimes(Insert(q, cb, append), cb, n) == q <==> cb !in q
    ensures RemoveTimes(q, cb, n) == q <==> cb !in q
  {
    if cb in q {
      RemoveShortens(q, cb, n);
    } else if n == 1 {
      RemoveLast(q, cb);
      RemoveAbsent(q, cb);
      assert RemoveTimes(q, cb, 0) == q && RemoveTimes(Insert(q, cb, append), cb, 0) == Insert(q, cb, append);
    } else {
      RemoveUndoesInsert(q, cb, append, n - 1);
      RemoveAbsent(q, cb);
    }
  }

  /** The registration reaches no queue that holds the callback already. */
  ghost predicate Unknown(qs: Queues, visits: seq<Type>, cb: Cb) {
    && (forall t | t in visits && t in qs.tw :: cb !in qs.tw[t])
    && (forall o | o in qs.pool :: cb !in qs.pool[o])
  }

  /** A typewide registration that finds the callback in the queue of the type itself, which is visited first,
      does nothing. */
  function AddGuarded(classes: Classes, qs: Queues, visits: seq<Type>, cb: Cb, append: bool): (r: Queues)
    requires Known(qs, visits) && visits != []
    ensures r.tw.Keys == qs.tw.Keys && r.pool.Keys == qs.pool.Keys && Known(r, visits)
  {
    if cb in qs.tw[visits[0]] then qs else AddAll(classes, qs, visits, cb, append)
  }

  lemma BackTw(classes: Classes, qs: Queues, visits: seq<Type>, cb: Cb, append: bool, t: Type)
    requires Known(qs, visits) && visits != [] && t in qs.tw
    ensures var back := DeleteAll(AddGuarded(classes, qs, visits, cb, append), visits, cb);
            back.tw[t] == qs.tw[t] <==> (t in visits ==> cb !in qs.tw[t])
  {
    AddAllInserts(classes, qs, visits, cb, append);
    DeleteAllRemovesTw(AddGuarded(classes, qs, visits, cb, append), visits, cb, t);
    if t in visits {
      RemoveUndoesInsert(qs.tw[t], cb, append, Times(visits, t));
    } else {
      assert RemoveTimes(qs.tw[t], cb, 0) == qs.tw[t];
    }
  }

  lemma BackPool(classes: Classes, qs: Queues, visits: seq<Type>, cb: Cb, append: bool, o: Obj)
    requires Known(qs, visits) && visits != [] && o in qs.pool
    ensures var back := DeleteAll(AddGuarded(classes, qs, visits, cb, append), visits, cb);
            back.pool[o] == qs.pool[o] <==> cb !in qs.pool[o]
  {
    AddAllInserts(classes, qs, visits, cb, append);
    DeleteAllRemovesPool(AddGuarded(classes, qs, visits, cb, append), visits, cb, o);
    RemoveUndoesInsert(qs.pool[o], cb, append, |visits|);
  }

  lemma BackIffUnknown(classes: Classes, qs: Queues, visits: seq<Type>, cb: Cb, append: bool)
    requires Known(qs, visits) && visits != []
    ensures DeleteAll(AddGuarded(classes, qs, visits, cb, append), visits, cb) == qs <==> Unknown(qs, visits, cb)
  {
    var back := DeleteAll(AddGuarded(classes, qs, visits, cb, append), visits, cb);
    forall t | t in qs.tw ensures back.tw[t] == qs.tw[t] <==> (t in visits ==> cb !in qs.tw[t]) {
      BackTw(classes, qs, visits, cb, append, t);
    }
    forall o | o in qs.pool ensures back.pool[o] == qs.pool[o] <==> cb !in qs.pool[o] {
      BackPool(classes, qs, visits, cb, append, o);
    }
    if Unknown(qs, visits, cb) {
      assert back.tw == qs.tw && back.pool == qs.pool;
    }
  }

  // ----- over the forest

  lemma VisitsKnown(f: Forest, qs: Queues, top: Type)
    requires f.Finite(top) && f.derived.Keys == qs.tw.Keys
    ensures Known(qs, f.Visits(top)) && f.Visits(top)[0] == top
  {
    forall t | t in f.Visits(top) ensures t in f.derived { VisitedClimbs(f, top, t); }
  }

  ghost function AddTypewide(f: Forest, qs: Queues, top: Type, cb: Cb, append: bool): Queues
    requires f.Finite(top) && f.derived.Keys == qs.tw.Keys
  {
    VisitsKnown(f, qs, top);
    AddGuarded(f.classes, qs, f.Visits(top), cb, append)
  }

  ghost function DeleteTypewide(f: Forest, qs: Queues, top: Type, cb: Cb): Queues
    requires f.Finite(top) && f.derived.Keys == qs.tw.Keys
  {
    VisitsKnown(f, qs, top);
    DeleteAll(qs, f.Visits(top), cb)
  }

  /** A typewide registration adds behind, or in front of, every queue it reaches and that does not hold the callback;
      it does nothing if the type's own queue holds it. */
  lemma AddTypewideReaches(f: Forest, qs: Queues, top: Type, cb: Cb, append: bool)
    requires f.Finite(top) && f.derived.Keys == qs.tw.Keys
    ensures top in qs.tw
    ensures var r := AddTypewide(f, qs, top, cb, append);
            && r.tw.Keys == qs.tw.Keys && r.pool.Keys == qs.pool.Keys
            && (forall t | t in qs.tw ::
                  var q := qs.tw[t];
                  r.tw[t] == if cb in qs.tw[top] || cb in q || t !in f.Visits(top) then q
                             else if append then q + [cb] else [cb] + q)
            && (forall o | o in qs.pool ::
                  var q := qs.pool[o];
                  r.pool[o] == if cb in qs.tw[top] || cb in q || !(exists t | t in f.Visits(top) :: f.classes.IsA(o, t))
                               then q else if append then q + [cb] else [cb] + q)
  {
    VisitsKnown(f, qs, top);
    AddAllReaches(f.classes, qs, f.Visits(top), cb, append);
  }

  /** A callback new to the type gets one copy in the queue of every type below it and of every instance, at
      the chosen end, and goes nowhere else. */
  lemma AddReachesExactly(f: Forest, qs: Queues, top: Type, cb: Cb, append: bool)
    requires f.Finite(top) && f.Honest() && f.derived.Keys == qs.tw.Keys && cb !in qs.tw[top]
    ensures var r := AddTypewide(f, qs, top, cb, append);
            && r.tw.Keys == qs.tw.Keys && r.pool.Keys == qs.pool.Keys
            && (forall t | t in qs.tw ::
                  var q := qs.tw[t];
                  r.tw[t] == if !f.ClimbsTo(t, top) || cb in q then q else if append then q + [cb] else [cb] + q)
            && (forall o | o in qs.pool ::
                  var q := qs.pool[o];
                  r.pool[o] == if !f.classes.IsA(o, top) || cb in q then q else if append then q + [cb] else [cb] + q)
  {
    VisitsKnown(f, qs, top);
    AddAllInserts(f.classes, qs, f.Visits(top), cb, append);
    forall t | t in qs.tw ensures t in f.Visits(top) <==> f.ClimbsTo(t, top) { VisitsAreTheTypesBelow(f, top, t); }
    forall o | o in qs.pool ensures Reached(f.classes, f.Visits(top), o) <==> f.classes.IsA(o, top) {
      VisitedInstances(f, top, o);
    }
  }

  lemma {:induction false} RemoveOnly(x: seq<Cb>, cb: Cb, y: seq<Cb>, n: nat)
    requires cb !in x && cb !in y
    ensures RemoveTimes(x + [cb] + y, cb, n) == if n == 0 then x + [cb] + y else x + y
  {
    if n == 1 {
      assert RemoveTimes(x + [cb] + y, cb, 0) == x + [cb] + y;
      RemoveBetween(x, cb, y);
    } else if n > 1 {
      RemoveOnly(x, cb, y, n - 1);
      RemoveAbsent(x + y, cb);
    }
  }

  lemma {:induction false} RemoveBetween(x: seq<Cb>, cb: Cb, y: seq<Cb>)
    requires cb !in x
    ensures RemoveFirst(x + [cb] + y, cb) == x + y
  {
    if x == [] {
      assert ([] + [cb] + y)[1..] == y;
    } else {
      assert (x + [cb] + y)[1..] == x[1..] + [cb] + y;
      RemoveBetween(x[1..], cb, y);
    }
  }

  /** A typewide deletion takes a callback that stands once out of the queue of every type it visits and of every
      object, and leaves the others in order. */
  lemma DeleteTypewideTakes(f: Forest, qs: Queues, top: Type, cb: Cb, x: seq<Cb>, y: seq<Cb>)
    requires f.Finite(top) && f.derived.Keys == qs.tw.Keys && cb !in x && cb !in y
    ensures var r := DeleteTypewide(f, qs, top, cb);
            && r.tw.Keys == qs.tw.Keys && r.pool.Keys == qs.pool.Keys
            && (forall t | t in qs.tw && qs.tw[t] == x + [cb] + y ::
                  r.tw[t] == if t in f.Visits(top) then x + y else qs.tw[t])
            && (forall o | o in qs.pool && qs.pool[o] == x + [cb] + y :: r.pool[o] == x + y)
  {
    VisitsKnown(f, qs, top);
    var visits := f.Visits(top);
    forall t | t in qs.tw && qs.tw[t] == x + [cb] + y
      ensures DeleteTypewide(f, qs, top, cb).tw[t] == if t in visits then x + y else qs.tw[t]
    {
      DeleteAllRemovesTw(qs, visits, cb, t);
      RemoveOnly(x, cb, y, Times(visits, t));
    }
    forall o | o in qs.pool && qs.pool[o] == x + [cb] + y
      ensures DeleteTypewide(f, qs, top, cb).pool[o] == x + y
    {
      DeleteAllRemovesPool(qs, visits, cb, o);
      RemoveOnly(x, cb, y, |visits|);
    }
  }

  /** Taking a registration back restores every queue exactly when the callback was in none of the types'
      queues it reaches and in no object's queue at all. */
  lemma DeleteRestoresIffUnknown(f: Forest, qs: Queues, top: Type, cb: Cb, append: bool)
    requires f.Finite(top) && f.derived.Keys == qs.tw.Keys
    ensures DeleteTypewide(f, AddTypewide(f, qs, top, cb, append), top, cb) == qs <==> Unknown(qs, f.Visits(top), cb)
  {
    VisitsKnown(f, qs, top);
    BackIffUnknown(f.classes, qs, f.Visits(top), cb, append);
  }

  /** The queues are those of the types of the forest. */
  ghost predicate Matches(f: Forest, classes: Classes, tw: map<Type, seq<Cb>>) {
    f.Linked() && f.classes == classes && f.derived.Keys == tw.Keys
  }

  lemma EmptyMatches(classes: Classes)
    ensures Matches(Forest(classes, map[], map[]), classes, map[]) && Forest(classes, map[], map[]).CircleFree()
  {
  }

  // ----- the recursion, one derived type at a time

  ghost predicate Under(f: Forest, qs: Queues, t: Type, ds: seq<Type>) {
    f.Finite(t) && f.derived.Keys == qs.tw.Keys && forall d | d in ds :: d in f.derived[t]
  }

  ghost function VisitsSoFar(f: Forest, t: Type, ds: seq<Type>): seq<Type>
    requires f.Finite(t) && forall d | d in ds :: d in f.derived[t]
  {
    [t] + f.VisitsEach(t, ds)
  }

  lemma SoFarKnown(f: Forest, qs: Queues, t: Type, ds: seq<Type>)
    requires Under(f, qs, t, ds)
    ensures Known(qs, VisitsSoFar(f, t, ds))
  {
    forall x | x in VisitsSoFar(f, t, ds) ensures x in f.derived {
      if x != t { VisitedEachClimbs(f, t, ds, x); }
    }
  }

  lemma SoFarMore(f: Forest, t: Type, i: nat)
    requires f.Finite(t) && i < |f.derived[t]|
    ensures var d := f.derived[t][i];
            && d in f.derived && (d != t ==> f.Finite(d))
            && VisitsSoFar(f, t, f.derived[t][..i + 1])
                 == VisitsSoFar(f, t, f.derived[t][..i]) + if d == t then [] else f.Visits(d)
  {
    if f.derived[t][i] != t { f.Deeper(t, f.derived[t][i]); }
    assert f.derived[t][..i + 1][..i] == f.derived[t][..i];
  }

  /** now is what before becomes when t and what is below ds have been visited. */
  ghost predicate Added(f: Forest, before: Queues, now: Queues, t: Type, ds: seq<Type>, cb: Cb, append: bool) {
    Under(f, before, t, ds) &&
    (SoFarKnown(f, before, t, ds); now == AddAll(f.classes, before, VisitsSoFar(f, t, ds), cb, append))
  }

  lemma AddedFirst(f: Forest, before: Queues, t: Type, cb: Cb, append: bool)
    requires Under(f, before, t, [])
    ensures Added(f, before, AddAt(f.classes, before, t, cb, append), t, [], cb, append)
  {
    assert VisitsSoFar(f, t, []) == [t];
    assert [t][..0] == [];
  }

  lemma AddedMore(f: Forest, before: Queues, now: Queues, t: Type, i: nat, cb: Cb, append: bool)
    requires f.Finite(t) && i < |f.derived[t]|
    requires Added(f, before, now, t, f.derived[t][..i], cb, append)
    ensures var d := f.derived[t][i];
            && d in f.derived && (d != t ==> f.Finite(d)) && f.derived.Keys == now.tw.Keys
            && (d == t ==> Added(f, before, now, t, f.derived[t][..i + 1], cb, append))
            && (d != t ==> Known(now, f.Visits(d)))
            && (d != t ==>
                  Added(f, before, AddAll(f.classes, now, f.Visits(d), cb, append), t, f.derived[t][..i + 1], cb,
                        append))
  {
    var d := f.derived[t][i];
    SoFarKnown(f, before, t, f.derived[t][..i]);
    SoFarKnown(f, before, t, f.derived[t][..i + 1]);
    SoFarMore(f, t, i);
    if d == t {
      assert VisitsSoFar(f, t, f.derived[t][..i]) + [] == VisitsSoFar(f, t, f.derived[t][..i]);
    } else {
      AddAllSplits(f.classes, before, VisitsSoFar(f, t, f.derived[t][..i]), f.Visits(d), cb, append);
    }
  }

  /** Whether a visit removes anything. */
  predicate FoundAt(qs: Queues, t: Type, cb: Cb)
    requires t in qs.tw
  {
    cb in qs.tw[t] || exists o | o in qs.pool :: cb in qs.pool[o]
  }

  predicate FoundAll(qs: Queues, visits: seq<Type>, cb: Cb)
    requires Known(qs, visits)
  {
    visits != [] &&
    (FoundAll(qs, visits[..|visits| - 1], cb) ||
     FoundAt(DeleteAll(qs, visits[..|visits| - 1], cb), visits[|visits| - 1], cb))
  }

  lemma {:induction false} FoundAllSplits(qs: Queues, v: seq<Type>, w: seq<Type>, cb: Cb)
    requires Known(qs, v + w)
    ensures Known(qs, v) && Known(qs, w)
    ensures FoundAll(qs, v + w, cb) <==> FoundAll(qs, v, cb) || FoundAll(DeleteAll(qs, v, cb), w, cb)
  {
    assert forall t | t in v || t in w :: t in v + w;
    if w == [] {
      assert v + w == v;
    } else {
      assert (v + w)[..|v + w| - 1] == v + w[..|w| - 1];
      FoundAllSplits(qs, v, w[..|w| - 1], cb);
      DeleteAllSplits(qs, v, w[..|w| - 1], cb);
    }
  }

  lemma DeleteNothing(qs: Queues, visits: seq<Type>, cb: Cb)
    requires Known(qs, visits) && Unknown(qs, visits, cb) && visits != []
    ensures DeleteAll(qs, visits, cb) == qs
  {
    var r := DeleteAll(qs, visits, cb);
    forall t | t in qs.tw ensures r.tw[t] == qs.tw[t] {
      DeleteAllRemovesTw(qs, visits, cb, t);
      if Times(visits, t) > 0 {
        RemoveUndoesInsert(qs.tw[t], cb, true, Times(visits, t));
      } else {
        assert RemoveTimes(qs.tw[t], cb, 0) == qs.tw[t];
      }
    }
    forall o | o in qs.pool ensures r.pool[o] == qs.pool[o] {
      DeleteAllRemovesPool(qs, visits, cb, o);
      RemoveUndoesInsert(qs.pool[o], cb, true, |visits|);
    }
    assert r.tw == qs.tw && r.pool == qs.pool;
  }

  /** Something is reported as deleted exactly when some queue the deletion reaches held the callback. */
  lemma {:induction false} FoundIffHeld(qs: Queues, visits: seq<Type>, cb: Cb)
    requires Known(qs, visits) && visits != []
    ensures FoundAll(qs, visits, cb) <==> !Unknown(qs, visits, cb)
  {
    var front, last := visits[..|visits| - 1], visits[|visits| - 1];
    UnknownMore(qs, front, last, cb);
    assert visits == front + [last];
    if front != [] {
      FoundIffHeld(qs, front, cb);
      if Unknown(qs, front, cb) { DeleteNothing(qs, front, cb); }
    }
  }

  lemma UnknownMore(qs: Queues, front: seq<Type>, last: Type, cb: Cb)
    requires Known(qs, front + [last])
    ensures last in qs.tw
    ensures Unknown(qs, front + [last], cb) <==> Unknown(qs, front, cb) && !FoundAt(qs, last, cb)
  {
    assert last in front + [last];
  }

  ghost predicate Deleted(f: Forest, before: Queues, now: Queues, found: bool, t: Type, ds: seq<Type>, cb: Cb) {
    Under(f, before, t, ds) &&
    (SoFarKnown(f, before, t, ds);
     now == DeleteAll(before, VisitsSoFar(f, t, ds), cb) && found == FoundAll(before, VisitsSoFar(f, t, ds), cb))
  }

  lemma DeletedFirst(f: Forest, before: Queues, t: Type, cb: Cb)
    requires Under(f, before, t, [])
    ensures Deleted(f, before, DeleteAt(before, t, cb), FoundAt(before, t, cb), t, [], cb)
  {
    assert VisitsSoFar(f, t, []) == [t];
    assert [t][..0] == [];
  }

  lemma DeletedMore(f: Forest, before: Queues, now: Queues, found: bool, t: Type, i: nat, cb: Cb)
    requires f.Finite(t) && i < |f.derived[t]|
    requires Deleted(f, before, now, found, t, f.derived[t][..i], cb)
    ensures var d := f.derived[t][i];
            && d in f.derived && (d != t ==> f.Finite(d)) && f.derived.Keys == now.tw.Keys
            && (d == t ==> Deleted(f, before, now, found, t, f.derived[t][..i + 1], cb))
            && (d != t ==> Known(now, f.Visits(d)))
            && (d != t ==>
                  Deleted(f, before, DeleteAll(now, f.Visits(d), cb), found || FoundAll(now, f.Visits(d), cb), t,
                          f.derived[t][..i + 1], cb))
  {
    var d := f.derived[t][i];
    SoFarKnown(f, before, t, f.derived[t][..i]);
    SoFarKnown(f, before, t, f.derived[t][..i + 1]);
    SoFarMore(f, t, i);
    if d == t {
      assert VisitsSoFar(f, t, f.derived[t][..i]) + [] == VisitsSoFar(f, t, f.derived[t][..i]);
    } else {
      DeleteAllSplits(before, VisitsSoFar(f, t, f.derived[t][..i]), f.Visits(d), cb);
      FoundAllSplits(before, VisitsSoFar(f, t, f.derived[t][..i]), f.Visits(d), cb);
    }
  }
}
