/** The callback queues of all types and objects, updated in place. */
module CallbackRegistry {
  import opened CallbackForest
  import opened CallbackModel

  /** Position of the first copy, or -1. */
  method CbFind(q: seq<Cb>, cb: Cb) returns (at: int)
    ensures at == -1 <==> cb !in q
    ensures at != -1 ==> 0 <= at < |q| && q[at] == cb && cb !in q[..at]
  {
    var i := 0;
    while i < |q|
      invariant 0 <= i <= |q| && cb !in q[..i]
    {
      if q[i] == cb { return i; }
      i := i + 1;
    }
    at := -1;
  }

  lemma {:induction false} RemoveFirstAt(q: seq<Cb>, cb: Cb, at: nat)
    requires at < |q| && q[at] == cb && cb !in q[..at]
    ensures RemoveFirst(q, cb) == q[..at] + q[at + 1..]
  {
    if at > 0 {
      assert q[0] == q[..at][0];
      assert q[1..][..at - 1] == q[..at][1..];
      RemoveFirstAt(q[1..], cb, at - 1);
      assert q[1..][at..] == q[at + 1..] && [q[0]] + q[..at][1..] == q[..at];
    }
  }

  method Inserted(q: seq<Cb>, cb: Cb, append: bool) returns (r: seq<Cb>)
    ensures r == Insert(q, cb, append)
  {
    r := q;
    var at := CbFind(q, cb);
    if at == -1 {
      if append { r := r + [cb]; } else { r := [cb] + r; }
    }
  }

  method Removed(q: seq<Cb>, cb: Cb) returns (r: seq<Cb>, found: bool)
    ensures r == RemoveFirst(q, cb) && (found <==> cb in q)
  {
    var at := CbFind(q, cb);
    if at == -1 {
      RemoveAbsent(q, cb);
      return q, false;
    }
    RemoveFirstAt(q, cb, at);
    return q[..at] + q[at + 1..], true;
  }

  class Registry {
    const classes: Classes
    var forest: Forest
    var twQueue: map<Type, seq<Cb>>
    var pool: map<Obj, seq<Cb>>

    constructor (classes: Classes)
      ensures Valid() && forest.CircleFree() && this.classes == classes && twQueue == map[] && pool == map[]
    {
      this.classes := classes;
      forest, twQueue, pool := Forest(classes, map[], map[]), map[], map[];
      new;
      EmptyMatches(classes);
    }

    function Contents(): Queues
      reads `twQueue, `pool
    {
      Queues(twQueue, pool)
    }

    ghost predicate Valid()
      reads `forest, `twQueue
    {
      Matches(forest, classes, twQueue)
    }

    /** The first use of a type makes its queue. */
    method Get(t: Type)
      requires Valid()
      modifies `forest, `twQueue
      ensures Valid() && t in forest.derived
      ensures forest.superType == old(forest).superType && forest.classes == classes
      ensures forest.derived == if t in old(forest).derived then old(forest).derived else old(forest).derived[t := []]
      ensures twQueue == if t in old(forest).derived then old(twQueue) else old(twQueue)[t := []]
    {
      if t !in forest.derived {
        NewTypeLinks(forest, t);
        forest, twQueue := WithType(forest, t), twQueue[t := []];
      }
    }

    /** Only the first registration of a type counts. */
    method RegisterSuperType(t: Type, st: Type) returns (ok: bool)
      requires Valid() && t in forest.derived && st in forest.derived
      modifies `forest
      ensures Valid() && ok
      ensures if t in old(forest).superType then forest == old(forest)
              else && forest.superType == old(forest).superType[t := st] && forest.classes == classes
                   && forest.derived == old(forest).derived[st := old(forest).derived[st] + [t]]
    {
      ok := true;
      if t in forest.superType { return; }
      RegisteringLinks(forest, t, st);
      forest := Registered(forest, t, st);
    }

    method AddToInstances(t: Type, cb: Cb, append: bool)
      modifies `pool
      ensures pool == AddInstances(classes, old(pool), t, cb, append)
    {
      var todo := pool.Keys;
      while todo != {}
        invariant todo <= pool.Keys == old(pool.Keys)
        invariant forall o | o in todo :: pool[o] == old(pool)[o]
        invariant forall o | o in pool.Keys - todo :: pool[o] == AddInstances(classes, old(pool), t, cb, append)[o]
        decreases |todo|
      {
        var o :| o in todo;
        if classes.IsA(o, t) {
          var q := Inserted(pool[o], cb, append);
          pool := pool[o := q];
        }
        todo := todo - {o};
      }
    }

    method DeleteFromInstances(cb: Cb) returns (found: bool)
      modifies `pool
      ensures pool == DeleteInstances(old(pool), cb)
      ensures found <==> exists o | o in old(pool) :: cb in old(pool)[o]
    {
      var todo := pool.Keys;
      found := false;
      while todo != {}
        invariant todo <= pool.Keys == old(pool.Keys)
        invariant forall o | o in todo :: pool[o] == old(pool)[o]
        invariant forall o | o in pool.Keys - todo :: pool[o] == RemoveFirst(old(pool)[o], cb)
        invariant found <==> exists o | o in pool.Keys - todo :: cb in old(pool)[o]
        decreases |todo|
      {
        var o :| o in todo;
        var q, here := Removed(pool[o], cb);
        pool := pool[o := q];
        if here { found := true; }
        todo := todo - {o};
      }
    }

    method AddHere(t: Type, cb: Cb, append: bool)
      requires t in twQueue
      modifies `twQueue, `pool
      ensures Contents() == AddAt(classes, old(Contents()), t, cb, append)
    {
      var q := Inserted(twQueue[t], cb, append);
      twQueue := twQueue[t := q];
      AddToInstances(t, cb, append);
    }

    method DeleteHere(t: Type, cb: Cb) returns (found: bool)
      requires t in twQueue
      modifies `twQueue, `pool
      ensures Contents() == DeleteAt(old(Contents()), t, cb)
      ensures found == FoundAt(old(Contents()), t, cb)
    {
      var q, here := Removed(twQueue[t], cb);
      twQueue := twQueue[t := q];
      var there := DeleteFromInstances(cb);
      found := here || there;
    }

    /** The queue of the type, those of its instances, then the types registered below it. */
    method AddTwCbs(t: Type, cb: Cb, append: bool)
      requires Valid() && forest.Finite(t)
      modifies `twQueue, `pool
      ensures Valid()
      ensures Known(old(Contents()), forest.Visits(t))
      ensures Contents() == AddAll(forest.classes, old(Contents()), forest.Visits(t), cb, append)
      decreases forest.Height(t), |forest.derived[t]| + 1
    {
      ghost var before := Contents();
      VisitsKnown(forest, before, t);
      AddHere(t, cb, append);
      AddedFirst(forest, before, t, cb, append);
      var i := 0;
      while i < |forest.derived[t]|
        invariant 0 <= i <= |forest.derived[t]| && Valid()
        invariant Added(forest, before, Contents(), t, forest.derived[t][..i], cb, append)
      {
        AddBelow(t, i, before, cb, append);
        i := i + 1;
      }
      assert forest.derived[t][..i] == forest.derived[t];
    }

    method AddBelow(t: Type, i: nat, ghost before: Queues, cb: Cb, append: bool)
      requires Valid() && forest.Finite(t) && i < |forest.derived[t]|
      requires Added(forest, before, Contents(), t, forest.derived[t][..i], cb, append)
      modifies `twQueue, `pool
      ensures Valid()
      ensures Added(forest, before, Contents(), t, forest.derived[t][..i + 1], cb, append)
      decreases forest.Height(t), |forest.derived[t]| - i
    {
      var d := forest.derived[t][i];
      AddedMore(forest, before, Contents(), t, i, cb, append);
      if d != t {
        forest.Deeper(t, d);
        AddTwCbs(d, cb, append);
      }
    }

    /** Everything found on the way is deleted, in the queues of all objects too. */
    method DeleteTwCbs(t: Type, cb: Cb) returns (found: bool)
      requires Valid() && forest.Finite(t)
      modifies `twQueue, `pool
      ensures Valid()
      ensures Known(old(Contents()), forest.Visits(t))
      ensures Contents() == DeleteAll(old(Contents()), forest.Visits(t), cb)
      ensures found == FoundAll(old(Contents()), forest.Visits(t), cb)
      decreases forest.Height(t)
    {
      ghost var f, before := forest, Contents();
      VisitsKnown(f, before, t);
      found := DeleteHere(t, cb);
      DeletedFirst(f, before, t, cb);
      var i := 0;
      while i < |forest.derived[t]|
        invariant 0 <= i <= |forest.derived[t]| && f.derived.Keys == twQueue.Keys
        invariant Deleted(f, before, Contents(), found, t, forest.derived[t][..i], cb)
      {
        var d := forest.derived[t][i];
        DeletedMore(f, before, Contents(), found, t, i, cb);
        if d != t {
          f.Deeper(t, d);
          var more := DeleteTwCbs(d, cb);
          found := found || more;
        }
        i := i + 1;
      }
      assert forest.derived[t][..i] == forest.derived[t];
    }

    /** Registers a callback with a type; false stands for the warning that it is registered already. */
    method Add(t: Type, cb: Cb, append: bool) returns (added: bool)
      requires Valid() && forest.Finite(t)
      modifies `twQueue, `pool
      ensures Valid() && added == (cb !in old(twQueue)[t])
      ensures Contents() == AddTypewide(forest, old(Contents()), t, cb, append)
      ensures forall u | u in old(twQueue) :: var q := old(twQueue)[u];
                u in twQueue && twQueue[u] == if !added || cb in q || u !in forest.Visits(t) then q
                                             else if append then q + [cb] else [cb] + q
    {
      VisitsKnown(forest, Contents(), t);
      AddTypewideReaches(forest, Contents(), t, cb, append);
      var at := CbFind(twQueue[t], cb);
      added := at == -1;
      if added { AddTwCbs(t, cb, append); }
    }

    /** Registers a callback with one object.  A queue that is empty is first filled with the typewide callbacks
        of the report objects, if it belongs to one, and of the type. */
    method AddToObject(t: Type, o: Obj, cb: Cb, append: bool, reportType: Type) returns (added: bool)
      requires Valid() && t in forest.derived
      modifies this
      ensures Valid() && t in twQueue
      ensures classes.IsA(o, reportType) && (o in old(pool) ==> old(pool)[o] == []) ==> reportType in twQueue
      ensures forall u | u in old(twQueue) :: u in twQueue && twQueue[u] == old(twQueue)[u]
      ensures var had := if o in old(pool) then old(pool)[o] else [];
              var q := if had != [] then had
                       else if classes.IsA(o, reportType) then twQueue[reportType] + twQueue[t] else twQueue[t];
              && added == (cb !in q)
              && pool == old(pool)[o := if !added then q else if append then q + [cb] else [cb] + q]
    {
      var q := if o in pool then pool[o] else [];
      if q == [] {
        if classes.IsA(o, reportType) {
          Get(reportType);
          q := twQueue[reportType];
        }
        q := q + twQueue[t];
        assert [] + twQueue[t] == twQueue[t];
      }
      var at := CbFind(q, cb);
      added := at == -1;
      if added { q := if append then q + [cb] else [cb] + q; }
      pool := pool[o := q];
    }

    /** false stands for the warning that the callback was nowhere to be removed. */
    method Delete(t: Type, cb: Cb) returns (found: bool)
      requires Valid() && forest.Finite(t)
      modifies `twQueue, `pool
      ensures Valid() && Contents() == DeleteTypewide(forest, old(Contents()), t, cb)
      ensures found <==> !Unknown(old(Contents()), forest.Visits(t), cb)
    {
      VisitsKnown(forest, Contents(), t);
      FoundIffHeld(Contents(), forest.Visits(t), cb);
      found := DeleteTwCbs(t, cb);
    }
  }

  /** Nothing keeps two types from being registered below each other. */
  method MakeCircle(classes: Classes) returns (r: Registry)
    ensures fresh(r) && r.Valid() && 0 in r.forest.derived && forall n: nat :: !r.forest.ReturnsWithin(0, n)
  {
    r := new Registry(classes);
    r.Get(0);
    r.Get(1);
    var _ := r.RegisterSuperType(0, 1);
    var _ := r.RegisterSuperType(1, 0);
    MutualSuperTypesNeverReturn(r.forest, 0, 1);
  }
}
