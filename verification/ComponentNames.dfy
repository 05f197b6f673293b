/** Full names of components: paths written with dots, and read back by lookup. */
module ComponentNames {
  import opened Sequences

  function FirstDot(s: string): (i: nat)
    ensures i <= |s| && '.' !in s[..i] && (i < |s| ==> s[i] == '.')
  {
    if s == "" || s[0] == '.' then 0
    else
      var i := 1 + FirstDot(s[1..]);
      assert s[..i] == [s[0]] + s[1..][..i - 1];
      i
  }

  function Leaf(s: string): string {
    s[..FirstDot(s)]
  }

  function Remainder(s: string): string {
    if FirstDot(s) == |s| then "" else s[FirstDot(s) + 1..]
  }

  /** The names that a lookup goes through, one at a time. */
  function Segments(s: string): seq<string>
    decreases |s|
  {
    [Leaf(s)] + if Remainder(s) == "" then [] else Segments(Remainder(s))
  }

  function Join(path: seq<string>): string {
    if path == [] then "" else if |path| == 1 then path[0] else Join(path[..|path| - 1]) + "." + path[|path| - 1]
  }

  /** Characters that a lookup refuses. */
  predicate MalformedAt(s: string, i: nat)
    requires i < |s|
  {
    s[i] == '*' || s[i] == '?' || (s[i] == '.' && i + 1 < |s| && s[i + 1] == '.')
  }

  predicate Malformed(s: string) {
    exists i: nat | i < |s| :: MalformedAt(s, i)
  }

  predicate Legal(name: string) {
    name != "" && '.' !in name && '*' !in name && '?' !in name
  }

  predicate AllLegal(path: seq<string>) {
    forall name | name in path :: Legal(name)
  }

  predicate NoneEmpty(path: seq<string>) {
    "" !in path
  }

  predicate DotFree(path: seq<string>) {
    forall name | name in path :: '.' !in name
  }

  lemma DotFreeMore(front: seq<string>, last: string)
    ensures DotFree(front + [last]) <==> DotFree(front) && '.' !in last
  {
    assert forall name | name in front :: name in front + [last];
    assert last in front + [last];
  }

  // ----- writing and reading

  lemma {:induction false} FirstDotIs(s: string, i: nat)
    requires i <= |s| && '.' !in s[..i] && (i < |s| ==> s[i] == '.')
    ensures FirstDot(s) == i
  {
    if i > 0 {
      assert s[0] == s[..i][0];
      assert s[1..][..i - 1] == s[..i][1..];
      FirstDotIs(s[1..], i - 1);
    }
  }

  lemma LeafOf(name: string, rest: string)
    requires '.' !in name
    ensures Leaf(name) == name && Remainder(name) == ""
    ensures Leaf(name + "." + rest) == name && Remainder(name + "." + rest) == rest
  {
    assert name[..|name|] == name;
    FirstDotIs(name, |name|);
    var s := name + "." + rest;
    assert s[..|name|] == name && s[|name| + 1..] == rest;
    FirstDotIs(s, |name|);
  }

  /** Joining from the front. */
  lemma {:induction false} JoinFront(path: seq<string>)
    requires |path| >= 2
    ensures Join(path) == path[0] + "." + Join(path[1..])
  {
    var front := path[..|path| - 1];
    assert path[1..][..|path| - 2] == front[1..];
    if |path| > 2 {
      JoinFront(front);
    } else {
      assert front == [path[0]] && path[1..] == [path[1]];
    }
  }

  lemma JoinCons(name: string, path: seq<string>)
    requires path != []
    ensures Join([name] + path) == name + "." + Join(path)
  {
    JoinFront([name] + path);
    assert ([name] + path)[1..] == path;
  }

  lemma JoinNotEmpty(path: seq<string>)
    requires path != [] && NoneEmpty(path)
    ensures Join(path) != ""
  {
    assert path[|path| - 1] in path;
  }

  lemma {:induction false} SegmentsOfJoin(path: seq<string>)
    requires path != [] && NoneEmpty(path) && DotFree(path)
    ensures Segments(Join(path)) == path
  {
    LeafOf(path[0], Join(path[1..]));
    if |path| == 1 {
      assert path == [path[0]];
    } else {
      JoinFront(path);
      assert NoneEmpty(path[1..]) && path == [path[0]] + path[1..];
      JoinNotEmpty(path[1..]);
      SegmentsOfJoin(path[1..]);
    }
  }

  lemma {:induction false} SegmentsAreDotFree(s: string)
    ensures forall name | name in Segments(s) :: '.' !in name
    decreases |s|
  {
    if Remainder(s) != "" { SegmentsAreDotFree(Remainder(s)); }
  }

  lemma SplitAtDot(s: string)
    requires FirstDot(s) < |s|
    ensures s == Leaf(s) + "." + Remainder(s)
  {
    SplitAt(s, FirstDot(s));
  }

  /** What is read back of s, written out, is s, but for one dot at the end. */
  predicate WritesBack(s: string) {
    s == Join(Segments(s)) || s == Join(Segments(s)) + "."
  }

  lemma WritesBackMore(s: string)
    requires Remainder(s) != "" && WritesBack(Remainder(s))
    ensures WritesBack(s)
  {
    var rest, written := Remainder(s), Join(Segments(Remainder(s)));
    JoinCons(Leaf(s), Segments(rest));
    SplitAtDot(s);
    assert Join(Segments(s)) == Leaf(s) + "." + written;
    LastDotStays(Leaf(s) + ".", rest, written);
  }

  lemma LastDotStays(front: string, rest: string, written: string)
    requires rest == written || rest == written + "."
    ensures front + rest == front + written || front + rest == front + written + "."
  {
  }

  lemma WritesBackLast(s: string)
    requires Remainder(s) == ""
    ensures WritesBack(s)
  {
    var i := FirstDot(s);
    assert Segments(s) == [Leaf(s)];
    if i == |s| {
      assert s[..i] == s;
    } else {
      assert s == s[..i] + ".";
    }
  }

  lemma {:induction false} JoinOfSegments(s: string)
    ensures WritesBack(s)
    decreases |s|
  {
    if Remainder(s) == "" {
      WritesBackLast(s);
    } else {
      JoinOfSegments(Remainder(s));
      WritesBackMore(s);
    }
  }

  // ----- refused characters

  lemma {:induction false} CharsOfJoin(path: seq<string>, c: char)
    requires c != '.'
    ensures c in Join(path) <==> exists name | name in path :: c in name
  {
    if |path| == 1 {
      assert path[0] in path;
    } else if |path| > 1 {
      var front := path[..|path| - 1];
      CharsOfJoin(front, c);
      assert path == front + [path[|path| - 1]];
    }
  }

  lemma {:induction false} JoinHasNoTwoDots(path: seq<string>)
    requires path != [] && NoneEmpty(path) && DotFree(path)
    ensures forall i | 0 <= i < |Join(path)| ::
              !(Join(path)[i] == '.' && i + 1 < |Join(path)| && Join(path)[i + 1] == '.')
    ensures Join(path) != "" && Join(path)[0] != '.' && Join(path)[|Join(path)| - 1] != '.'
  {
    var last := path[|path| - 1];
    assert last in path && path[0] in path;
    if |path| > 1 {
      JoinHasNoTwoDots(path[..|path| - 1]);
    }
  }

  lemma WellFormedJoin(path: seq<string>)
    requires path != [] && NoneEmpty(path) && DotFree(path)
    ensures Malformed("." + Join(path)) <==> !AllLegal(path)
  {
    var s := "." + Join(path);
    JoinHasNoTwoDots(path);
    CharsOfJoin(path, '*');
    CharsOfJoin(path, '?');
    if !AllLegal(path) {
      assert '*' in Join(path) || '?' in Join(path);
      var j :| 0 <= j < |Join(path)| && (Join(path)[j] == '*' || Join(path)[j] == '?');
      assert MalformedAt(s, j + 1);
    }
  }

  /** A full name is a lookup string that leads back along its own path exactly when no name in it has a
      dot or a wildcard. */
  lemma FullNameReadsBack(path: seq<string>)
    requires path != [] && NoneEmpty(path)
    ensures !Malformed("." + Join(path)) && Segments(Join(path)) == path <==> AllLegal(path)
  {
    if DotFree(path) {
      SegmentsOfJoin(path);
      WellFormedJoin(path);
    } else {
      SegmentsAreDotFree(Join(path));
    }
  }

  // ----- which paths are written alike

  /** A string cut at all its dots. */
  function Cut(s: string): (r: seq<string>)
    ensures r != []
    decreases |s|
  {
    if FirstDot(s) == |s| then [s] else [Leaf(s)] + Cut(Remainder(s))
  }

  /** All names of a path cut at all their dots. */
  function Pieces(path: seq<string>): seq<string> {
    if path == [] then [] else Pieces(path[..|path| - 1]) + Cut(path[|path| - 1])
  }

  lemma CutWhole(name: string)
    requires '.' !in name
    ensures Cut(name) == [name]
  {
    assert name[..|name|] == name;
    FirstDotIs(name, |name|);
  }

  lemma CutFirst(name: string, rest: string)
    requires '.' !in name
    ensures Cut(name + "." + rest) == [name] + Cut(rest)
  {
    LeafOf(name, rest);
    assert (name + "." + rest)[..|name|] == name;
    FirstDotIs(name + "." + rest, |name|);
  }

  lemma {:induction false} CutAdds(s: string, t: string)
    ensures Cut(s + "." + t) == Cut(s) + Cut(t)
    decreases |s|
  {
    if FirstDot(s) == |s| {
      assert s[..|s|] == s;
      CutWhole(s);
      CutFirst(s, t);
    } else {
      var first, later := Leaf(s), Remainder(s);
      CutAdds(later, t);
      CutFirst(first, later + "." + t);
      SplitAtDot(s);
      DotBetween(first, later, t);
      Regroup([first], Cut(later), Cut(t));
    }
  }

  lemma DotBetween(first: string, later: string, t: string)
    ensures first + "." + later + "." + t == first + "." + (later + "." + t)
  {
  }

  lemma {:induction false} CutOfJoin(path: seq<string>)
    requires path != []
    ensures Cut(Join(path)) == Pieces(path)
  {
    var front, last := path[..|path| - 1], path[|path| - 1];
    if front == [] {
      assert Pieces(path) == [] + Cut(last) == Cut(last);
    } else {
      CutOfJoin(front);
      CutAdds(Join(front), last);
    }
  }

  lemma {:induction false} JoinOfCut(s: string)
    ensures Join(Cut(s)) == s
    decreases |s|
  {
    if FirstDot(s) < |s| {
      JoinOfCut(Remainder(s));
      JoinCons(Leaf(s), Cut(Remainder(s)));
      SplitAtDot(s);
    }
  }

  /** Two paths are written alike exactly when, cut at all their dots, they come to the same pieces. */
  lemma JoinsAlikeIff(p: seq<string>, q: seq<string>)
    requires NoneEmpty(p) && NoneEmpty(q)
    ensures Join(p) == Join(q) <==> Pieces(p) == Pieces(q)
  {
    if p != [] && q != [] {
      CutOfJoin(p);
      CutOfJoin(q);
      JoinOfCut(Join(p));
      JoinOfCut(Join(q));
    } else if p != [] {
      JoinNotEmpty(p);
      CutOfJoin(p);
    } else if q != [] {
      JoinNotEmpty(q);
      CutOfJoin(q);
    }
  }

  lemma {:induction false} DotFreePieces(path: seq<string>)
    requires DotFree(path)
    ensures Pieces(path) == path
  {
    if path != [] {
      var front, last := path[..|path| - 1], path[|path| - 1];
      assert last in path;
      DotFreePieces(front);
      CutWhole(last);
      assert path == front + [last];
    }
  }

  // ----- depth

  function Dots(s: string): nat {
    if s == "" then 0 else (if s[|s| - 1] == '.' then 1 else 0) + Dots(s[..|s| - 1])
  }

  lemma {:induction false} DotsAdd(s: string, t: string)
    ensures Dots(s + t) == Dots(s) + Dots(t)
  {
    if t == "" {
      assert s + t == s;
    } else {
      assert (s + t)[..|s + t| - 1] == s + t[..|t| - 1];
      DotsAdd(s, t[..|t| - 1]);
    }
  }

  lemma {:induction false} NoDots(s: string)
    ensures Dots(s) == 0 <==> '.' !in s
  {
    if s != "" {
      NoDots(s[..|s| - 1]);
      assert s == s[..|s| - 1] + [s[|s| - 1]];
    }
  }

  function DepthOf(fullName: string): nat {
    if fullName == "" then 0 else 1 + Dots(fullName)
  }

  lemma DepthOfLonger(front: seq<string>, last: string)
    requires front != [] && NoneEmpty(front) && last != ""
    ensures DepthOf(Join(front + [last])) == DepthOf(Join(front)) + 1 + Dots(last)
  {
    assert (front + [last])[..|front|] == front;
    JoinNotEmpty(front);
    DotsAdd(Join(front) + ".", last);
    DotsAdd(Join(front), ".");
    assert Dots(".") == 1;
  }

  /** The dots of a full name count its ancestors exactly when no name on the path has a dot itself. */
  lemma {:induction false} DepthIsPathLength(path: seq<string>)
    requires NoneEmpty(path)
    ensures DepthOf(Join(path)) >= |path|
    ensures DepthOf(Join(path)) == |path| <==> DotFree(path)
  {
    if path != [] {
      var front, last := path[..|path| - 1], path[|path| - 1];
      DotFreeMore(front, last);
      assert path == front + [last];
      NoDots(last);
      if front != [] {
        DepthIsPathLength(front);
        DepthOfLonger(front, last);
      }
    }
  }

  // ----- generated names

  function DigitOf(d: nat): (c: char)
    requires d < 10
    ensures '0' <= c <= '9'
  {
    ('0' as int + d) as char
  }

  function Decimal(n: nat): string {
    (if n < 10 then "" else Decimal(n / 10)) + [DigitOf(n % 10)]
  }

  lemma {:induction false} DecimalIsLegal(n: nat)
    ensures Legal(Decimal(n)) && Legal("COMP_" + Decimal(n))
  {
    if n >= 10 { DecimalIsLegal(n / 10); }
  }

  /** What decimal digits write. */
  function Written(s: string): int {
    if s == "" then 0 else 10 * Written(s[..|s| - 1]) + (s[|s| - 1] as int - '0' as int)
  }

  lemma WrittenMore(front: string, d: nat)
    requires d < 10
    ensures Written(front + [DigitOf(d)]) == 10 * Written(front) + d
  {
    assert (front + [DigitOf(d)])[..|front|] == front;
  }

  /** A generated number reads back, has only digits and no zero in front. */
  lemma {:induction false} DecimalReadsBack(n: nat)
    ensures Written(Decimal(n)) == n
    ensures Decimal(n) != "" && forall c | c in Decimal(n) :: '0' <= c <= '9'
    ensures n > 0 ==> Decimal(n)[0] != '0'
  {
    WrittenMore(if n < 10 then "" else Decimal(n / 10), n % 10);
    if n >= 10 { DecimalReadsBack(n / 10); }
  }

  /** So generated names differ whenever the numbers do. */
  lemma GeneratedNamesDiffer(m: nat, n: nat)
    ensures "COMP_" + Decimal(m) == "COMP_" + Decimal(n) <==> m == n
  {
    DecimalReadsBack(m);
    DecimalReadsBack(n);
    SplitBack("COMP_", Decimal(m));
    SplitBack("COMP_", Decimal(n));
  }
}
