/** Extended regular expressions, section 9.4 of the Base Definitions of IEEE Std 1003.1: the lexical
    rules and grammar of section 9.5.3, without bracket expressions, and what they match.  How large the counts of
    an interval may be is left open. */
module Ere {
  import opened Wrappers

  datatype Symbol = Plain(c: char) | Quoted(c: char) | AnyOne | StartAnchor | EndAnchor

  datatype Repeat = ZeroOrMore | OneOrMore | ZeroOrOne | Interval(lo: nat, hi: Option<nat>)

  datatype Token = Sym(s: Symbol) | Dup(op: Repeat) | Open | Close | Bar

  predicate Quotable(c: char) {
    c in "^.[]$()|*+?{\\"
  }

  function TokenOf(c: char): Token {
    match c
    case '.' => Sym(AnyOne)
    case '^' => Sym(StartAnchor)
    case '$' => Sym(EndAnchor)
    case '*' => Dup(ZeroOrMore)
    case '+' => Dup(OneOrMore)
    case '?' => Dup(ZeroOrOne)
    case '(' => Open
    case ')' => Close
    case '|' => Bar
    case _ => Sym(Plain(c))
  }

  function IndexOf(s: string, c: char): (i: nat)
    ensures i <= |s| && c !in s[..i] && (i < |s| ==> s[i] == c)
  {
    if s == "" || s[0] == c then 0
    else
      var i := 1 + IndexOf(s[1..], c);
      assert s[..i] == [s[0]] + s[1..][..i - 1];
      i
  }

  lemma {:induction false} IndexOfIs(s: string, c: char, i: nat)
    requires i < |s| && c !in s[..i] && s[i] == c
    ensures IndexOf(s, c) == i
  {
    if i > 0 {
      assert s[0] == s[..i][0];
      assert s[1..][..i - 1] == s[..i][1..];
      IndexOfIs(s[1..], c, i - 1);
    }
  }

  /** The number that a string of digits writes. */
  function Count(s: string): Option<nat> {
    if s == "" || !('0' <= s[|s| - 1] <= '9') then None
    else
      var last := s[|s| - 1] as int - '0' as int;
      if |s| == 1 then Some(last)
      else
        match Count(s[..|s| - 1])
        case None => None
        case Some(n) => Some(10 * n + last)
  }

  /** What stands between the braces of an interval. */
  function IntervalOf(inner: string): Option<Repeat> {
    var comma := IndexOf(inner, ',');
    var lo := Count(inner[..comma]);
    if lo.None? then None
    else if comma == |inner| then Some(Interval(lo.value, lo))
    else if comma == |inner| - 1 then Some(Interval(lo.value, None))
    else
      var hi := Count(inner[comma + 1..]);
      if hi.Some? && lo.value <= hi.value then Some(Interval(lo.value, hi)) else None
  }

  /** The first token of a text; None where a bracket expression starts, or an opening brace does not begin an
      interval, or the text ends in a backslash or quotes a character that has no quoted form. */
  function FirstToken(text: string): Option<Token>
    requires text != []
  {
    if text[0] == '[' then None
    else if text[0] == '{' then
      var close := IndexOf(text, '}');
      if close == |text| then None
      else
        match IntervalOf(text[1..close])
        case None => None
        case Some(op) => Some(Dup(op))
    else if text[0] != '\\' then Some(TokenOf(text[0]))
    else if |text| > 1 && Quotable(text[1]) then Some(Sym(Quoted(text[1])))
    else None
  }

  function Width(text: string): (n: nat)
    requires text != [] && FirstToken(text).Some?
    ensures 0 < n <= |text|
  {
    if text[0] == '\\' then 2 else if text[0] == '{' then IndexOf(text, '}') + 1 else 1
  }

  function Lex(text: string): Option<seq<Token>> {
    if text == [] then Some([])
    else if FirstToken(text).None? then None
    else
      match Lex(text[Width(text)..])
      case None => None
      case Some(rest) => Some([FirstToken(text).value] + rest)
  }

  // ----- parse trees

  datatype Regex = One(b: Branch) | Either(r: Regex, b: Branch)
  datatype Branch = Single(x: Expr) | Then(b: Branch, x: Expr)
  datatype Expr = Atom(s: Symbol) | Group(r: Regex) | Repeated(x: Expr, op: Repeat)

  function RegexTokens(r: Regex): seq<Token> {
    match r
    case One(b) => BranchTokens(b)
    case Either(r', b) => RegexTokens(r') + [Bar] + BranchTokens(b)
  }

  function BranchTokens(b: Branch): (ts: seq<Token>)
    ensures ts != []
  {
    match b
    case Single(x) => ExprTokens(x)
    case Then(b', x) => BranchTokens(b') + ExprTokens(x)
  }

  function ExprTokens(x: Expr): (ts: seq<Token>)
    ensures ts != []
  {
    match x
    case Atom(s) => [Sym(s)]
    case Group(r) => [Open] + RegexTokens(r) + [Close]
    case Repeated(x', op) => ExprTokens(x') + [Dup(op)]
  }

  predicate Parses(text: string, r: Regex) {
    Lex(text) == Some(RegexTokens(r))
  }

  // ----- meaning: a branch or expression takes s from i to j

  ghost predicate TakesRegex(r: Regex, s: string, i: nat, j: nat)
    requires i <= j <= |s|
    decreases r, 0, 0
  {
    match r
    case One(b) => TakesBranch(b, s, i, j)
    case Either(r', b) => TakesRegex(r', s, i, j) || TakesBranch(b, s, i, j)
  }

  ghost predicate TakesBranch(b: Branch, s: string, i: nat, j: nat)
    requires i <= j <= |s|
    decreases b, 0, 0
  {
    match b
    case Single(x) => Takes(x, s, i, j)
    case Then(b', x) => exists k | i <= k <= j :: TakesBranch(b', s, i, k) && Takes(x, s, k, j)
  }

  ghost predicate Takes(x: Expr, s: string, i: nat, j: nat)
    requires i <= j <= |s|
    decreases x, 0, 0
  {
    match x
    case Atom(a) => TakesSymbol(a, s, i, j)
    case Group(r) => TakesRegex(r, s, i, j)
    case Repeated(y, op) =>
      match op
      case ZeroOrMore => TakesMany(y, s, i, j)
      case OneOrMore => exists k | i <= k <= j :: Takes(y, s, i, k) && TakesMany(y, s, k, j)
      case ZeroOrOne => i == j || Takes(y, s, i, j)
      case Interval(lo, hi) => exists n: nat | lo <= n && (hi.Some? ==> n <= hi.value) :: TakesTimes(y, n, s, i, j)
  }

  ghost predicate TakesSymbol(a: Symbol, s: string, i: nat, j: nat)
    requires i <= j <= |s|
  {
    match a
    case Plain(c) => j == i + 1 && s[i] == c
    case Quoted(c) => j == i + 1 && s[i] == c
    case AnyOne => j == i + 1
    case StartAnchor => i == j == 0
    case EndAnchor => i == j == |s|
  }

  ghost predicate TakesMany(x: Expr, s: string, i: nat, j: nat)
    requires i <= j <= |s|
    decreases x, 1, j - i
  {
    i == j || exists k | i < k <= j :: Takes(x, s, i, k) && TakesMany(x, s, k, j)
  }

  ghost predicate TakesTimes(x: Expr, n: nat, s: string, i: nat, j: nat)
    requires i <= j <= |s|
    decreases x, 1, n
  {
    if n == 0 then i == j
    else exists k | i <= k <= j :: Takes(x, s, i, k) && TakesTimes(x, n - 1, s, k, j)
  }

  /** Whether a search finds the expression anywhere in the string. */
  ghost predicate Found(r: Regex, s: string) {
    exists i, j | 0 <= i <= j <= |s| :: TakesRegex(r, s, i, j)
  }

  // ----- a text without groups and alternatives has at most one parse tree

  predicate Flat(ts: seq<Token>) {
    Open !in ts && Close !in ts && Bar !in ts
  }

  function LastExpr(b: Branch): Expr {
    match b case Single(x) => x case Then(_, x) => x
  }

  function WithLast(b: Branch, x: Expr): Branch {
    match b case Single(_) => Single(x) case Then(b', _) => Then(b', x)
  }

  /** The tokens before the last expression. */
  function Front(b: Branch): seq<Token> {
    match b case Single(_) => [] case Then(b', _) => BranchTokens(b')
  }

  /** The last token tells the kind of the last expression; without it, it belongs to the branch before. */
  lemma LastToken(b: Branch)
    requires Flat(BranchTokens(b))
    ensures var ts := BranchTokens(b);
            var last := LastExpr(b);
            && !last.Group?
            && (last.Atom? ==> ts == Front(b) + [Sym(last.s)])
            && (last.Repeated? ==> ts == BranchTokens(WithLast(b, last.x)) + [Dup(last.op)])
  {
    var last := LastExpr(b);
    assert BranchTokens(b) == Front(b) + ExprTokens(last);
    assert forall t | t in ExprTokens(last) :: t in BranchTokens(b);
    assert last.Group? ==> Open in ExprTokens(last);
    if last.Repeated? {
      assert BranchTokens(WithLast(b, last.x)) == Front(b) + ExprTokens(last.x);
    }
  }

  lemma {:induction false} BranchUnique(b: Branch, c: Branch)
    requires BranchTokens(b) == BranchTokens(c) && Flat(BranchTokens(b))
    ensures b == c
    decreases |BranchTokens(b)|
  {
    LastToken(b);
    LastToken(c);
    var ts := BranchTokens(b);
    var x, y := LastExpr(b), LastExpr(c);
    if x.Atom? {
      assert ts[|ts| - 1] == Sym(x.s);
      assert Front(b) == ts[..|ts| - 1] == Front(c);
      if b.Then? && c.Then? {
        BranchUnique(b.b, c.b);
      }
    } else {
      assert ts[|ts| - 1] == Dup(x.op);
      var b', c' := WithLast(b, x.x), WithLast(c, y.x);
      assert BranchTokens(b') == ts[..|ts| - 1] == BranchTokens(c');
      BranchUnique(b', c');
    }
  }

  lemma ParseUnique(text: string, r: Regex, q: Regex)
    requires Parses(text, r) && Parses(text, q) && Flat(RegexTokens(r))
    ensures r == q
  {
    assert r.Either? ==> Bar in RegexTokens(r);
    assert q.Either? ==> Bar in RegexTokens(q);
    BranchUnique(r.b, q.b);
  }
}
