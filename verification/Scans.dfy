/** A pass over a queue that rewrites the entries that match and may leave early. */
module Scans {
  datatype Outcome = NotFound | Kept | Revised

  /** Which entries match, at which others the pass leaves, and what a match becomes if it may be replaced. */
  datatype Rules<!T> = Rules(matches: T -> bool, stops: T -> bool, rewrite: T -> T, replace: bool)

  function Scan<T>(os: seq<T>, rules: Rules<T>): (r: (seq<T>, Outcome))
    ensures r.1 != Revised ==> r.0 == os
    ensures r.1 == Kept ==> !rules.replace
    ensures r.1 == Revised ==> rules.replace
    ensures |r.0| == |os|
  {
    if os == [] then ([], NotFound)
    else if rules.matches(os[0]) then
      if !rules.replace then (os, Kept)
      else ([rules.rewrite(os[0])] + Scan(os[1..], rules).0, Revised)
    else if rules.stops(os[0]) then (os, NotFound)
    else
      var rest := Scan(os[1..], rules);
      ([os[0]] + rest.0, rest.1)
  }

  /** The pass goes beyond entry o. */
  predicate Passes<T>(o: T, rules: Rules<T>) {
    if rules.matches(o) then rules.replace else !rules.stops(o)
  }

  function Become<T>(o: T, rules: Rules<T>): T {
    if rules.matches(o) then rules.rewrite(o) else o
  }

  /** A pass that leaves at entry n has rewritten the matches before it and nothing else. */
  lemma {:induction false} ScanLeavesAt<T>(os: seq<T>, rules: Rules<T>, n: nat)
    requires n <= |os|
    requires forall j | 0 <= j < n :: Passes(os[j], rules)
    requires n < |os| ==> !Passes(os[n], rules)
    ensures var r := Scan(os, rules);
            && (forall j | 0 <= j < n :: r.0[j] == Become(os[j], rules))
            && (forall j | n <= j < |os| :: r.0[j] == os[j])
            && r.1 == (if exists j | 0 <= j < n :: rules.matches(os[j]) then Revised
                       else if n < |os| && rules.matches(os[n]) then Kept else NotFound)
  {
    if n > 0 {
      var tail := os[1..];
      assert forall j | 0 <= j < |tail| :: tail[j] == os[j + 1];
      ScanLeavesAt(tail, rules, n - 1);
      assert (exists j | 0 <= j < n :: rules.matches(os[j]))
        <==> rules.matches(os[0]) || exists j | 0 <= j < n - 1 :: rules.matches(tail[j]);
    }
  }

  method ScanInPlace<T>(os: seq<T>, rules: Rules<T>) returns (now: seq<T>, outcome: Outcome)
    ensures (now, outcome) == Scan(os, rules)
  {
    now := os;
    outcome := NotFound;
    var i := 0;
    while i < |now|
      invariant 0 <= i <= |now| == |os|
      invariant forall j | 0 <= j < i :: Passes(os[j], rules)
      invariant forall j | 0 <= j < i :: now[j] == Become(os[j], rules)
      invariant forall j | i <= j < |os| :: now[j] == os[j]
      invariant outcome == if exists j | 0 <= j < i :: rules.matches(os[j]) then Revised else NotFound
    {
      var o := now[i];
      if rules.matches(o) {
        if !rules.replace {
          assert forall j | 0 <= j < i :: Passes(os[j], rules) && !rules.matches(os[j]);
          ScanLeavesAt(os, rules, i);
          assert now == Scan(os, rules).0;
          outcome := Kept;
          return;
        }
        outcome := Revised;
        now := now[i := rules.rewrite(o)];
      } else if rules.stops(o) {
        break;
      }
      i := i + 1;
    }
    ScanLeavesAt(os, rules, i);
    assert now == Scan(os, rules).0;
  }
}
