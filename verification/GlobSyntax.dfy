/** Globs with characters that mean something to a regular expression and nothing to a glob: the translation copies
    them, and exactly then it does not mean the glob. */
module GlobSyntax {
  import opened Sequences
  import opened Wrappers
  import opened GlobTranslator
  import opened Ere
  import opened GlobMeaning

  /** Copied into the text, where they are anchors, alternatives or intervals. */
  predicate IsSyntax(c: char) {
    c == '^' || c == '$' || c == '|' || c == '{'
  }

  // ----- what a glob matches, character by character

  /** As few characters as each character of the glob takes. */
  function Shortest(glob: string): string {
    if glob == [] then []
    else
      var c := glob[|glob| - 1];
      Shortest(glob[..|glob| - 1]) + if c == '*' then [] else if c == '+' || c == '?' then "x" else [c]
  }

  lemma {:induction false} ShortestMatches(glob: string)
    ensures Matches(glob, Shortest(glob))
  {
    if glob != [] {
      var n := |glob| - 1;
      ShortestMatches(glob[..n]);
      var front := Shortest(glob[..n]);
      SplitBack(front, Shortest(glob)[|front|..]);
      assert MatchesOne(glob[n], Shortest(glob)[|front|..]);
    }
  }

  lemma {:induction false} MatchedHasIt(glob: string, s: string, c: char)
    requires IsSyntax(c) && c in glob && Matches(glob, s)
    ensures c in s
  {
    var n := |glob| - 1;
    var k :| 0 <= k <= |s| && Matches(glob[..n], s[..k]) && MatchesOne(glob[n], s[k..]);
    if glob[n] == c {
      assert s[k..][0] == c;
    } else {
      assert c in glob[..n];
      MatchedHasIt(glob[..n], s[..k], c);
    }
  }

  // ----- such a character never stands for itself

  predicate NoLiteral(ts: seq<Token>, c: char) {
    Sym(Plain(c)) !in ts && Sym(Quoted(c)) !in ts
  }

  /** Every backslash quotes one of the characters that the translator quotes. */
  predicate QuotesWell(text: string) {
    forall i | 0 <= i < |text| && text[i] == ESCAPE :: i + 1 < |text| && IsQuoted(text[i + 1])
  }

  lemma QuotesWellAdds(a: string, b: string)
    requires QuotesWell(a) && QuotesWell(b)
    ensures QuotesWell(a + b)
  {
  }

  lemma {:induction false} BodyQuotesWell(glob: string)
    requires ESCAPE !in glob
    ensures QuotesWell(Body(glob))
  {
    if glob != [] {
      var front, c := glob[..|glob| - 1], glob[|glob| - 1];
      assert c in glob;
      BodyQuotesWell(front);
      QuotesWellAdds(Body(front), Piece(c));
    }
  }

  lemma RestQuotesWell(text: string, n: nat)
    requires QuotesWell(text) && n <= |text|
    ensures QuotesWell(text[n..])
  {
    forall i | 0 <= i < |text[n..]| && text[n..][i] == ESCAPE
      ensures i + 1 < |text[n..]| && IsQuoted(text[n..][i + 1])
    {
      assert text[n + i] == ESCAPE;
    }
  }

  lemma FirstIsNoLiteral(text: string, c: char)
    requires IsSyntax(c) && QuotesWell(text) && text != [] && FirstToken(text).Some?
    ensures NoLiteral([FirstToken(text).value], c)
  {
    assert text[0] == ESCAPE ==> IsQuoted(text[1]);
  }

  lemma {:induction false} SyntaxIsNoLiteral(text: string, c: char)
    requires IsSyntax(c) && QuotesWell(text) && Lex(text).Some?
    ensures NoLiteral(Lex(text).value, c)
    decreases |text|
  {
    if text != [] {
      FirstIsNoLiteral(text, c);
      RestQuotesWell(text, Width(text));
      SyntaxIsNoLiteral(text[Width(text)..], c);
    }
  }

  function Replaced(s: string, c: char, d: char): (r: string)
    ensures |r| == |s| && forall i | 0 <= i < |s| :: r[i] == if s[i] == c then d else s[i]
  {
    seq(|s|, i requires 0 <= i < |s| => if s[i] == c then d else s[i])
  }

  /** A regular expression that does not ask for a character takes any other in its place. */
  lemma {:induction false} TakesReplaced(x: Expr, s: string, i: nat, j: nat, c: char, d: char)
    requires i <= j <= |s| && NoLiteral(ExprTokens(x), c) && Takes(x, s, i, j)
    ensures Takes(x, Replaced(s, c, d), i, j)
    decreases x, 0, 0
  {
    match x
    case Atom(a) => assert Sym(a) in ExprTokens(x);
    case Group(r) =>
      assert forall t | t in RegexTokens(r) :: t in ExprTokens(x);
      RegexReplaced(r, s, i, j, c, d);
    case Repeated(y, op) =>
      assert forall t | t in ExprTokens(y) :: t in ExprTokens(x);
      match op {
        case ZeroOrMore => ManyReplaced(y, s, i, j, c, d);
        case OneOrMore =>
          var k :| i <= k <= j && Takes(y, s, i, k) && TakesMany(y, s, k, j);
          TakesReplaced(y, s, i, k, c, d);
          ManyReplaced(y, s, k, j, c, d);
        case ZeroOrOne => if i != j { TakesReplaced(y, s, i, j, c, d); }
        case Interval(lo, hi) =>
          var n: nat :| lo <= n && (hi.Some? ==> n <= hi.value) && TakesTimes(y, n, s, i, j);
          TimesReplaced(y, n, s, i, j, c, d);
      }
  }

  lemma {:induction false} ManyReplaced(x: Expr, s: string, i: nat, j: nat, c: char, d: char)
    requires i <= j <= |s| && NoLiteral(ExprTokens(x), c) && TakesMany(x, s, i, j)
    ensures TakesMany(x, Replaced(s, c, d), i, j)
    decreases x, 1, j - i
  {
    if i != j {
      var k :| i < k <= j && Takes(x, s, i, k) && TakesMany(x, s, k, j);
      TakesReplaced(x, s, i, k, c, d);
      ManyReplaced(x, s, k, j, c, d);
    }
  }

  lemma {:induction false} TimesReplaced(x: Expr, n: nat, s: string, i: nat, j: nat, c: char, d: char)
    requires i <= j <= |s| && NoLiteral(ExprTokens(x), c) && TakesTimes(x, n, s, i, j)
    ensures TakesTimes(x, n, Replaced(s, c, d), i, j)
    decreases x, 1, n
  {
    if n > 0 {
      var k :| i <= k <= j && Takes(x, s, i, k) && TakesTimes(x, n - 1, s, k, j);
      TakesReplaced(x, s, i, k, c, d);
      TimesReplaced(x, n - 1, s, k, j, c, d);
    }
  }

  lemma {:induction false} BranchReplaced(b: Branch, s: string, i: nat, j: nat, c: char, d: char)
    requires i <= j <= |s| && NoLiteral(BranchTokens(b), c) && TakesBranch(b, s, i, j)
    ensures TakesBranch(b, Replaced(s, c, d), i, j)
    decreases b, 0, 0
  {
    match b
    case Single(x) => TakesReplaced(x, s, i, j, c, d);
    case Then(b', x) =>
      assert forall t | t in BranchTokens(b') || t in ExprTokens(x) :: t in BranchTokens(b);
      var k :| i <= k <= j && TakesBranch(b', s, i, k) && Takes(x, s, k, j);
      BranchReplaced(b', s, i, k, c, d);
      TakesReplaced(x, s, k, j, c, d);
  }

  lemma {:induction false} RegexReplaced(r: Regex, s: string, i: nat, j: nat, c: char, d: char)
    requires i <= j <= |s| && NoLiteral(RegexTokens(r), c) && TakesRegex(r, s, i, j)
    ensures TakesRegex(r, Replaced(s, c, d), i, j)
    decreases r, 0, 0
  {
    match r
    case One(b) => BranchReplaced(b, s, i, j, c, d);
    case Either(r', b) =>
      assert forall t | t in RegexTokens(r') || t in BranchTokens(b) :: t in RegexTokens(r);
      if TakesRegex(r', s, i, j) { RegexReplaced(r', s, i, j, c, d); } else { BranchReplaced(b, s, i, j, c, d); }
  }

  /** If the text finds anything, it finds a string that the glob does not match. */
  lemma FindsForeign(text: string, glob: string, c: char, r: Regex, s: string) returns (foreign: string)
    requires IsSyntax(c) && c in glob && QuotesWell(text) && Parses(text, r) && Found(r, s)
    ensures Found(r, foreign) && !Matches(glob, foreign)
  {
    SyntaxIsNoLiteral(text, c);
    foreign := Replaced(s, c, 'x');
    var i, j :| 0 <= i <= j <= |s| && TakesRegex(r, s, i, j);
    RegexReplaced(r, s, i, j, c, 'x');
    if Matches(glob, foreign) { MatchedHasIt(glob, foreign, c); }
  }

  lemma SyntaxLosesMeaning(text: string, glob: string, c: char)
    requires IsSyntax(c) && c in glob && QuotesWell(text)
    ensures !KeepsMeaning(text, glob)
  {
    if r :| Parses(text, r) {
      ShortestMatches(glob);
      if Found(r, Shortest(glob)) {
        var foreign := FindsForeign(text, glob, c, r, Shortest(glob));
      }
    }
  }

  // ----- exactly which translations mean their glob

  function WithoutOpening(glob: string): string {
    if glob != [] && glob[0] == '^' then glob[1..] else glob
  }

  function WithoutClosing(glob: string): string {
    if glob != [] && glob[|glob| - 1] == '$' then glob[..|glob| - 1] else glob
  }

  /** A glob without the anchors it brings itself. */
  function Core(glob: string): string {
    WithoutClosing(WithoutOpening(glob))
  }

  lemma {:induction false} BodyAdds(a: string, b: string)
    ensures Body(a + b) == Body(a) + Body(b)
  {
    if b == [] {
      assert a + b == a;
    } else {
      assert (a + b)[..|a + b| - 1] == a + b[..|b| - 1];
      BodyAdds(a, b[..|b| - 1]);
      Regroup(Body(a), Body(b[..|b| - 1]), Piece(b[|b| - 1]));
    }
  }

  lemma BodyOfOne(c: char)
    ensures Body([c]) == Piece(c)
  {
    assert [c][..0] == [];
  }

  lemma OpeningOnce(glob: string)
    requires glob != []
    ensures Opening(glob) + Body(glob) == "^" + Body(WithoutOpening(glob))
  {
    if glob[0] == '^' {
      assert glob == "^" + WithoutOpening(glob);
      BodyOfOne('^');
      BodyAdds("^", WithoutOpening(glob));
    }
  }

  lemma ClosingOnce(glob: string)
    requires glob != []
    ensures Body(glob) + Closing(glob) == Body(WithoutClosing(glob)) + "$"
  {
    if glob[|glob| - 1] == '$' {
      assert glob == WithoutClosing(glob) + "$";
      BodyOfOne('$');
      BodyAdds(WithoutClosing(glob), "$");
    }
  }

  lemma AnchorAlone()
    ensures Text("^", false) == "^" + Body(Core("^")) + "$"
  {
    BodyOfOne('^');
    assert Core("^") == [] && "^"[..0] == [];
    assert Text("^", false) == [] + [] + "^" + "$" + [];
  }

  lemma AnchoredOnce(glob: string)
    requires glob != [] && glob != "^"
    ensures Text(glob, false) == "^" + Body(Core(glob)) + "$"
  {
    var rest := WithoutOpening(glob);
    OpeningOnce(glob);
    assert rest[|rest| - 1] == glob[|glob| - 1];
    ClosingOnce(rest);
    Anchors(Opening(glob), Body(glob), Closing(glob), Body(rest), Body(Core(glob)));
  }

  lemma Anchors(front: string, body: string, back: string, rest: string, core: string)
    requires front + body == "^" + rest && rest + back == core + "$"
    ensures [] + front + body + back + [] == "^" + core + "$"
  {
    Regroup("^", rest, back);
    Regroup("^", core, "$");
  }

  /** What is emitted is the core between one pair of anchors. */
  lemma TextOfCore(glob: string)
    requires !SlashBracketed(glob) && Translate(glob, false).Some?
    ensures Translate(glob, false).value == "^" + Body(Core(glob)) + "$"
  {
    if glob == "^" { AnchorAlone(); } else if glob != [] { AnchoredOnce(glob); }
  }

  lemma CoreIsAll(glob: string)
    requires '^' !in glob && '$' !in glob
    ensures Core(glob) == glob
  {
    if glob != [] {
      assert glob[0] in glob && glob[|glob| - 1] in glob;
    }
  }

  lemma TextQuotesWell(glob: string)
    requires ESCAPE !in glob && !SlashBracketed(glob) && Translate(glob, false).Some?
    ensures QuotesWell(Translate(glob, false).value)
  {
    TextOfCore(glob);
    assert forall c | c in Core(glob) :: c in glob;
    BodyQuotesWell(Core(glob));
    QuotesWellAdds("^", Body(Core(glob)));
    QuotesWellAdds("^" + Body(Core(glob)), "$");
  }

  /** For every glob without a backslash that is not slash-bracketed and is accepted, the emitted text means the
      glob if and only if the glob has none of ^ $ | { in it. */
  lemma MeaningKeptIffClean(glob: string)
    requires ESCAPE !in glob && !SlashBracketed(glob) && Translate(glob, false).Some?
    ensures KeepsMeaning(Translate(glob, false).value, glob) <==> forall c | c in glob :: !IsSyntax(c)
  {
    if c :| c in glob && IsSyntax(c) {
      TextQuotesWell(glob);
      SyntaxLosesMeaning(Translate(glob, false).value, glob, c);
    } else {
      assert forall c | c in glob :: CleanChar(c);
      TranslationMeansTheGlob(glob);
    }
  }

  /** And if a ^ at its start and a $ at its end are taken for the anchors they become, if and only if there is
      none of these characters anywhere else. */
  lemma CoreKeptIffClean(glob: string)
    requires ESCAPE !in glob && !SlashBracketed(glob) && Translate(glob, false).Some?
    ensures KeepsMeaning(Translate(glob, false).value, Core(glob)) <==> forall c | c in Core(glob) :: !IsSyntax(c)
  {
    assert forall c | c in Core(glob) :: c in glob;
    TextOfCore(glob);
    if c :| c in Core(glob) && IsSyntax(c) {
      TextQuotesWell(glob);
      SyntaxLosesMeaning(Translate(glob, false).value, Core(glob), c);
    } else {
      assert forall c | c in Core(glob) :: CleanChar(c);
      CleanKeepsMeaning(Core(glob));
    }
  }

  // ----- with a bar the text always finds too much

  predicate CleanOrBar(glob: string) {
    forall c | c in glob :: CleanChar(c) || c == '|'
  }

  lemma {:induction false} BodyLexes(glob: string)
    requires CleanOrBar(glob)
    ensures Lex(Body(glob)).Some? && Open !in Lex(Body(glob)).value
  {
    if glob != [] {
      var front, c := glob[..|glob| - 1], glob[|glob| - 1];
      assert c in glob && forall d | d in front :: d in glob;
      BodyLexes(front);
      if c == '|' { LexOne('|'); } else { PieceTokens(c); }
      LexAppends(Body(front), Piece(c));
    }
  }

  /** The alternative that stands first. */
  function LeftBranch(r: Regex): Branch {
    match r case One(b) => b case Either(r', _) => LeftBranch(r')
  }

  predicate BarFirst(ts: seq<Token>) {
    ts == [] || ts[0] == Bar
  }

  lemma {:induction false} LeftTokens(r: Regex) returns (rest: seq<Token>)
    ensures RegexTokens(r) == BranchTokens(LeftBranch(r)) + rest && BarFirst(rest)
  {
    match r
    case One(b) => rest := [];
    case Either(r', b) =>
      var more := LeftTokens(r');
      Regroup(BranchTokens(LeftBranch(r)), more, [Bar] + BranchTokens(b));
      Regroup(RegexTokens(r'), [Bar], BranchTokens(b));
      rest := more + ([Bar] + BranchTokens(b));
  }

  lemma {:induction false} BarNeedsOpen(b: Branch)
    ensures Bar in BranchTokens(b) ==> Open in BranchTokens(b)
  {
    match b
    case Single(x) => BarNeedsOpenIn(x);
    case Then(b', x) =>
      BarNeedsOpen(b');
      BarNeedsOpenIn(x);
  }

  lemma {:induction false} BarNeedsOpenIn(x: Expr)
    ensures Bar in ExprTokens(x) ==> Open in ExprTokens(x)
  {
    match x
    case Atom(_) =>
    case Group(_) => assert ExprTokens(x)[0] == Open;
    case Repeated(y, _) => BarNeedsOpenIn(y);
  }

  lemma LongerHasBar(a: seq<Token>, x: seq<Token>, b: seq<Token>, y: seq<Token>)
    requires a + x == b + y && BarFirst(x)
    ensures |a| < |b| ==> Bar in b
  {
    if |a| < |b| {
      assert b[|a|] == (b + y)[|a|] == (a + x)[|a|] == x[0];
    }
  }

  /** A sequence splits before its first bar in only one way. */
  lemma SameBeforeBar(a: seq<Token>, x: seq<Token>, b: seq<Token>, y: seq<Token>)
    requires a + x == b + y && Bar !in a && Bar !in b && BarFirst(x) && BarFirst(y)
    ensures a == b
  {
    LongerHasBar(a, x, b, y);
    LongerHasBar(b, y, a, x);
    SplitBack(a, x);
    SplitBack(b, y);
  }

  lemma {:induction false} LeftTakes(r: Regex, s: string, i: nat, j: nat)
    requires i <= j <= |s| && TakesBranch(LeftBranch(r), s, i, j)
    ensures TakesRegex(r, s, i, j)
  {
    if r.Either? { LeftTakes(r.r, s, i, j); }
  }

  lemma FirstBar(glob: string) returns (p: nat)
    requires '|' in glob
    ensures p < |glob| && glob[p] == '|' && '|' !in glob[..p]
  {
    p := IndexOf(glob, '|');
  }

  lemma BodyAtBar(seg: string, tail: string)
    ensures Body((seg + "|") + tail) == (Body(seg) + "|") + Body(tail)
  {
    BodyAdds(seg + "|", tail);
    BodyAdds(seg, "|");
    BodyOfOne('|');
  }

  lemma AroundBar(a: string, b: string)
    ensures "^" + ((a + "|") + b) + "$" == ("^" + a) + ("|" + (b + "$"))
  {
  }

  lemma SplitText(glob: string, p: nat)
    requires p < |glob| && glob[p] == '|'
    ensures "^" + Body(glob) + "$" == ("^" + Body(glob[..p])) + ("|" + (Body(glob[p + 1..]) + "$"))
  {
    assert glob == (glob[..p] + "|") + glob[p + 1..];
    BodyAtBar(glob[..p], glob[p + 1..]);
    AroundBar(Body(glob[..p]), Body(glob[p + 1..]));
  }

  lemma TokensOfTail(tail: string) returns (rest: seq<Token>)
    requires CleanOrBar(tail)
    ensures Lex(Body(tail) + "$") == Some(rest) && Open !in rest
  {
    BodyLexes(tail);
    AnchorTokens();
    LexAppends(Body(tail), "$");
    rest := Lex(Body(tail)).value + [Sym(EndAnchor)];
  }

  lemma BarBefore(text: string, later: seq<Token>)
    requires Lex(text) == Some(later) && Open !in later
    ensures Lex("|" + text) == Some([Bar] + later) && Open !in [Bar] + later
  {
    LexCons('|', text);
  }

  /** The tokens from a bar on. */
  lemma TokensFromBar(tail: string) returns (rest: seq<Token>)
    requires CleanOrBar(tail)
    ensures Lex("|" + (Body(tail) + "$")) == Some(rest)
    ensures rest != [] && rest[0] == Bar && Open !in rest
  {
    var later := TokensOfTail(tail);
    BarBefore(Body(tail) + "$", later);
    rest := [Bar] + later;
  }

  /** The tokens of the text up to the first bar are those of the glob up to there. */
  lemma TokensToBar(glob: string, p: nat) returns (rest: seq<Token>)
    requires p < |glob| && glob[p] == '|' && Clean(glob[..p]) && CleanOrBar(glob[p + 1..])
    ensures Lex("^" + Body(glob) + "$") == Some(BranchTokens(BranchOf(glob[..p])) + rest)
    ensures rest != [] && rest[0] == Bar && Open !in rest && Flat(BranchTokens(BranchOf(glob[..p])))
  {
    BodyTokens(glob[..p]);
    rest := TokensFromBar(glob[p + 1..]);
    LexAppends("^" + Body(glob[..p]), "|" + (Body(glob[p + 1..]) + "$"));
    SplitText(glob, p);
  }

  lemma AroundFirstBar(glob: string, p: nat)
    requires CleanOrBar(glob) && p < |glob| && '|' !in glob[..p]
    ensures Clean(glob[..p]) && CleanOrBar(glob[p + 1..])
  {
    assert forall c | c in glob[..p] || c in glob[p + 1..] :: c in glob;
  }

  /** Whatever parse there is of a text with a bar finds a string that the glob does not match: any that begins as
      the glob does before the bar. */
  lemma BarFindsForeign(glob: string, r: Regex) returns (foreign: string)
    requires CleanOrBar(glob) && '|' in glob && !SlashBracketed(glob) && Translate(glob, false).Some?
    requires Parses(Translate(glob, false).value, r)
    ensures Found(r, foreign) && !Matches(glob, foreign)
  {
    var p := FirstBar(glob);
    assert '^' !in glob && '$' !in glob;
    CoreIsAll(glob);
    TextOfCore(glob);
    AroundFirstBar(glob, p);
    var rest := TokensToBar(glob, p);
    var b := BranchOf(glob[..p]);
    var more := LeftTokens(r);
    assert Open !in BranchTokens(LeftBranch(r)) by {
      assert forall t | t in BranchTokens(LeftBranch(r)) :: t in RegexTokens(r);
    }
    BarNeedsOpen(LeftBranch(r));
    SameBeforeBar(BranchTokens(LeftBranch(r)), more, BranchTokens(b), rest);
    BranchUnique(b, LeftBranch(r));
    var s := Shortest(glob[..p]);
    ShortestMatches(glob[..p]);
    assert s[..|s|] == s;
    BranchMeaning(glob[..p], s, 0, |s|);
    LeftTakes(r, s, 0, |s|);
    TextQuotesWell(glob);
    foreign := FindsForeign(Translate(glob, false).value, glob, '|', r, s);
  }
}
