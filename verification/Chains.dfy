/** Searches that go from one request to the next until they stop. */
module Chains {
  import opened Wrappers

  datatype Step<R, T> = Stop(result: T) | Go(next: R)

  /** The search stops within n more steps. */
  predicate Ends<R, T>(step: R -> Step<R, T>, r: R, n: nat)
    decreases n
  {
    match step(r)
    case Stop(_) => true
    case Go(next) => n > 0 && Ends(step, next, n - 1)
  }

  function Length<R, T>(step: R -> Step<R, T>, r: R, n: nat): (k: nat)
    requires Ends(step, r, n)
    ensures k <= n
    decreases n
  {
    match step(r)
    case Stop(_) => 0
    case Go(next) => 1 + Length(step, next, n - 1)
  }

  function Result<R, T>(step: R -> Step<R, T>, r: R, n: nat): T
    requires Ends(step, r, n)
    decreases n
  {
    match step(r)
    case Stop(result) => result
    case Go(next) => Result(step, next, n - 1)
  }

  /** The request after k steps, if the search gets that far. */
  function Walk<R, T>(step: R -> Step<R, T>, r: R, k: nat): Option<R>
    decreases k
  {
    if k == 0 then Some(r)
    else
      match Walk(step, r, k - 1)
      case None => None
      case Some(q) => match step(q) case Stop(_) => None case Go(next) => Some(next)
  }

  ghost predicate Acyclic<R, T>(step: R -> Step<R, T>, r: R) {
    forall i: nat, j: nat | i < j && Walk(step, r, j).Some? :: Walk(step, r, i) != Walk(step, r, j)
  }

  ghost predicate Terminates<R, T>(step: R -> Step<R, T>, r: R) {
    exists n :: Ends(step, r, n)
  }

  lemma {:induction false} BoundIrrelevant<R, T>(step: R -> Step<R, T>, r: R, n: nat, k: nat)
    requires Ends(step, r, n) && Ends(step, r, k)
    ensures Length(step, r, n) == Length(step, r, k) && Result(step, r, n) == Result(step, r, k)
    decreases n
  {
    if step(r).Go? {
      BoundIrrelevant(step, step(r).next, n - 1, k - 1);
    }
  }

  /** Along the walk the remaining length goes down by one at each step and the result stays. */
  lemma {:induction false} AlongWalk<R, T>(step: R -> Step<R, T>, r: R, n: nat, k: nat)
    requires Ends(step, r, n)
    ensures var w := Walk(step, r, k);
            var len := Length(step, r, n);
            && (w.Some? <==> k <= len)
            && (w.Some? ==> Ends(step, w.value, n - k) && Length(step, w.value, n - k) == len - k
                            && Result(step, w.value, n - k) == Result(step, r, n))
    decreases k
  {
    if k > 0 {
      AlongWalk(step, r, n, k - 1);
    }
  }

  lemma {:induction false} EndsLater<R, T>(step: R -> Step<R, T>, r: R, n: nat, k: nat)
    requires Ends(step, r, n) && n <= k
    ensures Ends(step, r, k)
    decreases n
  {
    if step(r).Go? {
      EndsLater(step, step(r).next, n - 1, k - 1);
    }
  }

  lemma EndsIsAcyclic<R, T>(step: R -> Step<R, T>, r: R, n: nat)
    requires Ends(step, r, n)
    ensures Acyclic(step, r)
  {
    forall i: nat, j: nat | i < j && Walk(step, r, j).Some?
      ensures Walk(step, r, i) != Walk(step, r, j)
    {
      AlongWalk(step, r, n, i);
      AlongWalk(step, r, n, j);
      if Walk(step, r, i) == Walk(step, r, j) {
        BoundIrrelevant(step, Walk(step, r, i).value, n - i, n - j);
      }
    }
  }

  lemma {:induction false} WalkFromNext<R, T>(step: R -> Step<R, T>, r: R, k: nat)
    requires step(r).Go?
    ensures Walk(step, r, k + 1) == Walk(step, step(r).next, k)
    decreases k
  {
    if k > 0 {
      WalkFromNext(step, r, k - 1);
    } else {
      assert Walk(step, r, 0) == Some(r);
    }
  }

  lemma {:induction false} NotEndingWalksOn<R, T>(step: R -> Step<R, T>, r: R, n: nat)
    requires !Ends(step, r, n)
    ensures Walk(step, r, n + 1).Some?
    decreases n
  {
    WalkFromNext(step, r, n);
    if n > 0 {
      NotEndingWalksOn(step, step(r).next, n - 1);
    }
  }

  /** The requests after steps 1 to k. */
  ghost function Visited<R, T>(step: R -> Step<R, T>, r: R, k: nat): (s: set<R>)
    requires Walk(step, r, k).Some?
    decreases k
  {
    if k == 0 then {} else Visited(step, r, k - 1) + {Walk(step, r, k).value}
  }

  lemma {:induction false} VisitedWhen<R, T>(step: R -> Step<R, T>, r: R, k: nat, q: R) returns (i: nat)
    requires Walk(step, r, k).Some? && q in Visited(step, r, k)
    ensures 0 < i <= k && Walk(step, r, i) == Some(q)
    decreases k
  {
    if Walk(step, r, k) == Some(q) {
      i := k;
    } else {
      i := VisitedWhen(step, r, k - 1, q);
    }
  }

  lemma {:induction false} VisitedGrows<R, T>(step: R -> Step<R, T>, r: R, k: nat, targets: set<R>)
    requires forall q | step(q).Go? :: step(q).next in targets
    requires Walk(step, r, k).Some? && forall i: nat, j: nat | i < j <= k :: Walk(step, r, i) != Walk(step, r, j)
    ensures |Visited(step, r, k)| == k && Visited(step, r, k) <= targets
    decreases k
  {
    if k > 0 {
      VisitedGrows(step, r, k - 1, targets);
      var last := Walk(step, r, k).value;
      assert step(Walk(step, r, k - 1).value).next == last;
      if last in Visited(step, r, k - 1) {
        var i := VisitedWhen(step, r, k - 1, last);
        assert false;
      }
    }
  }

  lemma {:induction false} SubsetCard<T>(a: set<T>, b: set<T>)
    requires a <= b
    ensures |a| <= |b|
    decreases a
  {
    if a != {} {
      var x :| x in a;
      SubsetCard(a - {x}, b - {x});
    }
  }

  // ----- walks put together

  lemma {:induction false} WalkAdds<R, T>(step: R -> Step<R, T>, r: R, i: nat, k: nat)
    requires Walk(step, r, i).Some?
    ensures Walk(step, r, i + k) == Walk(step, Walk(step, r, i).value, k)
    decreases k
  {
    if k > 0 { WalkAdds(step, r, i, k - 1); }
  }

  lemma {:induction false} WalkEarlier<R, T>(step: R -> Step<R, T>, r: R, i: nat, k: nat)
    requires i <= k && Walk(step, r, k).Some?
    ensures Walk(step, r, i).Some?
    decreases k
  {
    if i < k { WalkEarlier(step, r, i, k - 1); }
  }

  lemma WalkBegins<R, T>(step: R -> Step<R, T>, r: R, k: nat) returns (next: R)
    requires k > 0 && Walk(step, r, k).Some?
    ensures step(r) == Go(next) && Walk(step, next, k - 1) == Walk(step, r, k)
  {
    WalkEarlier(step, r, 1, k);
    assert Walk(step, r, 0) == Some(r);
    next := step(r).next;
    WalkFromNext(step, r, k - 1);
  }

  /** A walk from a circle never leaves it. */
  lemma StaysOnCircle<R, T>(step: R -> Step<R, T>, r: R, p: nat, i: nat)
    requires Walk(step, r, p) == Some(r) && Walk(step, r, i).Some?
    ensures Walk(step, Walk(step, r, i).value, p) == Walk(step, r, i)
  {
    WalkAdds(step, r, p, i);
    WalkAdds(step, r, i, p);
  }

  /** A walk of more steps than there are places to go ends on a circle. */
  lemma LongWalkEndsOnCircle<R, T>(step: R -> Step<R, T>, r: R, q: R, targets: set<R>) returns (p: nat)
    requires forall x | step(x).Go? :: step(x).next in targets
    requires Walk(step, r, |targets| + 1) == Some(q)
    ensures p > 0 && Walk(step, q, p) == Some(q)
  {
    var n := |targets| + 1;
    if forall i: nat, j: nat | i < j <= n :: Walk(step, r, i) != Walk(step, r, j) {
      VisitedGrows(step, r, n, targets);
      SubsetCard(Visited(step, r, n), targets);
      assert false;
    }
    var i: nat, j: nat :| i < j <= n && Walk(step, r, i) == Walk(step, r, j);
    p := j - i;
    WalkEarlier(step, r, i, n);
    var x := Walk(step, r, i).value;
    WalkAdds(step, r, i, p);
    WalkAdds(step, r, i, n - i);
    StaysOnCircle(step, x, p, n - i);
  }

  /** Two searches that differ in one place only get there alike. */
  lemma {:induction false} SameWalkTo<R, T>(a: R -> Step<R, T>, b: R -> Step<R, T>, r: R, t: R, m: nat) returns (k: nat)
    requires (forall q | q != t :: a(q) == b(q)) && Walk(a, r, m) == Some(t)
    ensures Walk(b, r, k) == Some(t)
    decreases m
  {
    if r == t {
      k := 0;
    } else {
      var next := WalkBegins(a, r, m);
      k := SameWalkTo(a, b, next, t, m - 1);
      WalkFromNext(b, r, k);
      k := k + 1;
    }
  }

  /** A walk of the one that the other does not make comes past that place. */
  lemma {:induction false} WalksPast<R, T>(a: R -> Step<R, T>, b: R -> Step<R, T>, r: R, t: R, m: nat) returns (i: nat)
    requires (forall q | q != t :: a(q) == b(q)) && Walk(a, r, m).Some? && Walk(a, r, m) != Walk(b, r, m)
    ensures i < m && Walk(a, r, i) == Some(t)
    decreases m
  {
    if r == t {
      i := 0;
    } else {
      var next := WalkBegins(a, r, m);
      WalkFromNext(b, r, m - 1);
      i := WalksPast(a, b, next, t, m - 1);
      WalkFromNext(a, r, i);
      i := i + 1;
    }
  }

  /** A search that can only go to finitely many places stops exactly when it never asks for the same
      thing twice, and then within as many steps as there are places. */
  lemma TerminatesIffAcyclic<R, T>(step: R -> Step<R, T>, r: R, targets: set<R>)
    requires forall q | step(q).Go? :: step(q).next in targets
    ensures Acyclic(step, r) <==> Terminates(step, r)
    ensures Acyclic(step, r) ==> Ends(step, r, |targets|)
  {
    if Terminates(step, r) {
      var n :| Ends(step, r, n);
      EndsIsAcyclic(step, r, n);
    }
    if Acyclic(step, r) && !Ends(step, r, |targets|) {
      var n := |targets|;
      NotEndingWalksOn(step, r, n);
      forall i: nat, j: nat | i < j <= n + 1 ensures Walk(step, r, i) != Walk(step, r, j) {
        WalkEarlier(step, r, j, n + 1);
      }
      VisitedGrows(step, r, n + 1, targets);
      SubsetCard(Visited(step, r, n + 1), targets);
    }
  }
}
