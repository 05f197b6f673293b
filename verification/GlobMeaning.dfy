/** The regular expression a glob is translated into finds exactly the strings the glob matches. */
module GlobMeaning {
  import opened Sequences
  import opened Wrappers
  import opened GlobTranslator
  import opened Ere

  // ----- what a glob matches

  /** One character of a glob matches a run of characters. */
  predicate MatchesOne(c: char, run: string) {
    match c
    case '*' => true
    case '+' => |run| > 0
    case '?' => |run| == 1
    case _ => run == [c]
  }

  /** The string splits into one run for each character of the glob, in order. */
  ghost predicate Matches(glob: string, s: string) {
    if glob == [] then s == []
    else exists k | 0 <= k <= |s| :: Matches(glob[..|glob| - 1], s[..k]) && MatchesOne(glob[|glob| - 1], s[k..])
  }

  /** Free of the characters that mean something to a regular expression and nothing to a glob. */
  predicate Clean(glob: string) {
    forall c | c in glob :: CleanChar(c)
  }

  predicate CleanChar(c: char) {
    c != '^' && c != '$' && c != '|' && c != '{' && c != '\\'
  }

  // ----- the parse tree of a translation

  function ExprOf(c: char): Expr {
    match c
    case '*' => Repeated(Atom(AnyOne), ZeroOrMore)
    case '+' => Repeated(Atom(AnyOne), OneOrMore)
    case '?' => Atom(AnyOne)
    case _ => Atom(if IsQuoted(c) then Quoted(c) else Plain(c))
  }

  function BranchOf(glob: string): Branch {
    if glob == [] then Single(Atom(StartAnchor))
    else Then(BranchOf(glob[..|glob| - 1]), ExprOf(glob[|glob| - 1]))
  }

  function RegexOf(glob: string): Regex {
    One(Then(BranchOf(glob), Atom(EndAnchor)))
  }

  lemma {:induction false} LexAppends(a: string, b: string)
    requires Lex(a).Some? && Lex(b).Some?
    ensures Lex(a + b) == Some(Lex(a).value + Lex(b).value)
    decreases |a|
  {
    if a == [] {
      assert a + b == b && [] + Lex(b).value == Lex(b).value;
    } else {
      var rest := a[Width(a)..];
      LexAppends(rest, b);
      FirstOfAppend(a, b);
      Regroup([FirstToken(a).value], Lex(rest).value, Lex(b).value);
    }
  }

  lemma FirstOfAppend(a: string, b: string)
    requires a != [] && FirstToken(a).Some?
    ensures FirstToken(a + b) == FirstToken(a) && Width(a + b) == Width(a)
    ensures (a + b)[Width(a)..] == a[Width(a)..] + b
  {
    if a[0] == '{' {
      var close := IndexOf(a, '}');
      assert (a + b)[..close] == a[..close];
      IndexOfIs(a + b, '}', close);
      assert (a + b)[1..close] == a[1..close];
    }
  }

  lemma LexOne(c: char)
    requires c != '[' && c != '{' && c != '\\'
    ensures Lex([c]) == Some([TokenOf(c)])
  {
    assert [c][1..] == [];
    assert [TokenOf(c)] + [] == [TokenOf(c)];
  }

  lemma PieceTokens(c: char)
    requires CleanChar(c)
    ensures Lex(Piece(c)) == Some(ExprTokens(ExprOf(c))) && Flat(ExprTokens(ExprOf(c)))
  {
    if IsRepeat(c) {
      LexOne('.');
      LexOne(c);
      LexAppends(".", [c]);
      assert Piece(c) == "." + [c];
    } else if IsQuoted(c) {
      var p := Piece(c);
      assert p[2..] == [];
      assert [Sym(Quoted(c))] + [] == [Sym(Quoted(c))];
    } else if c == '?' {
      LexOne('.');
    } else {
      LexOne(c);
    }
  }

  lemma AnchorTokens()
    ensures Lex("^") == Some([Sym(StartAnchor)]) && Lex("$") == Some([Sym(EndAnchor)])
  {
    LexOne('^');
    LexOne('$');
  }

  lemma {:induction false} BodyTokens(glob: string)
    requires Clean(glob)
    ensures Lex("^" + Body(glob)) == Some(BranchTokens(BranchOf(glob)))
    ensures Flat(BranchTokens(BranchOf(glob)))
  {
    AnchorTokens();
    if glob == [] {
      assert "^" + Body(glob) == "^";
    } else {
      var front, c := glob[..|glob| - 1], glob[|glob| - 1];
      BodyTokens(front);
      PieceTokens(c);
      LexAppends("^" + Body(front), Piece(c));
      assert "^" + Body(glob) == ("^" + Body(front)) + Piece(c);
    }
  }

  lemma TextTokens(glob: string)
    requires Clean(glob)
    ensures Lex("^" + Body(glob) + "$") == Some(RegexTokens(RegexOf(glob)))
    ensures Flat(RegexTokens(RegexOf(glob)))
  {
    BodyTokens(glob);
    AnchorTokens();
    LexAppends("^" + Body(glob), "$");
    assert ExprTokens(Atom(EndAnchor)) == [Sym(EndAnchor)];
  }

  // ----- its meaning

  lemma {:induction false} TakesAnyRun(s: string, i: nat, j: nat)
    requires i <= j <= |s|
    ensures TakesMany(Atom(AnyOne), s, i, j)
    decreases j - i
  {
    if i < j {
      TakesAnyRun(s, i + 1, j);
      assert Takes(Atom(AnyOne), s, i, i + 1);
    }
  }

  lemma ExprMeaning(c: char, s: string, i: nat, j: nat)
    requires i <= j <= |s|
    ensures Takes(ExprOf(c), s, i, j) <==> MatchesOne(c, s[i..j])
  {
    if c == '*' {
      TakesAnyRun(s, i, j);
    } else if c == '+' {
      if i < j {
        TakesAnyRun(s, i + 1, j);
        assert Takes(Atom(AnyOne), s, i, i + 1);
      }
    } else if c != '?' && j == i + 1 {
      assert s[i..j] == [s[i]];
    }
  }

  lemma {:induction false} BranchMeaning(glob: string, s: string, i: nat, j: nat)
    requires i <= j <= |s|
    ensures TakesBranch(BranchOf(glob), s, i, j) <==> i == 0 && Matches(glob, s[..j])
  {
    if glob == [] {
    } else {
      var front, c := glob[..|glob| - 1], glob[|glob| - 1];
      forall k | 0 <= k <= j
        ensures s[..j][..k] == s[..k] && s[..j][k..] == s[k..j]
        ensures MatchesOne(c, s[k..j]) <==> Takes(ExprOf(c), s, k, j)
        ensures i <= k ==> (TakesBranch(BranchOf(front), s, i, k) <==> i == 0 && Matches(front, s[..k]))
      {
        ExprMeaning(c, s, k, j);
        if i <= k {
          BranchMeaning(front, s, i, k);
        }
      }
    }
  }

  lemma RegexMeaning(glob: string, s: string)
    ensures Found(RegexOf(glob), s) <==> Matches(glob, s)
  {
    var b := BranchOf(glob);
    var whole := Then(b, Atom(EndAnchor));
    forall i, j | 0 <= i <= j <= |s|
      ensures TakesRegex(RegexOf(glob), s, i, j) <==> i == 0 && j == |s| && Matches(glob, s)
    {
      BranchMeaning(glob, s, i, j);
      assert s[..|s|] == s;
      assert TakesRegex(RegexOf(glob), s, i, j) <==> TakesBranch(whole, s, i, j);
      if TakesBranch(b, s, i, j) && j == |s| {
        assert Takes(Atom(EndAnchor), s, j, j);
      }
    }
    if Matches(glob, s) {
      assert TakesRegex(RegexOf(glob), s, 0, |s|);
    }
  }

  /** The text has exactly one parse tree, and searching with it succeeds on exactly the strings the glob matches. */
  ghost predicate KeepsMeaning(text: string, glob: string) {
    && (exists r :: Parses(text, r))
    && (forall r, q | Parses(text, r) && Parses(text, q) :: r == q)
    && (forall r, s | Parses(text, r) :: Found(r, s) <==> Matches(glob, s))
  }

  /** The text between anchors means a clean glob. */
  lemma CleanKeepsMeaning(glob: string)
    requires Clean(glob)
    ensures KeepsMeaning("^" + Body(glob) + "$", glob)
  {
    var text := "^" + Body(glob) + "$";
    TextTokens(glob);
    assert Parses(text, RegexOf(glob));
    forall r | Parses(text, r) ensures r == RegexOf(glob) { ParseUnique(text, RegexOf(glob), r); }
    forall s ensures Found(RegexOf(glob), s) <==> Matches(glob, s) { RegexMeaning(glob, s); }
  }

  lemma CleanText(glob: string)
    requires Clean(glob) && !SlashBracketed(glob) && Translate(glob, false).Some?
    ensures Translate(glob, false).value == "^" + Body(glob) + "$"
  {
    if glob == [] {
      assert [] + "^$" + [] == "^" + [] + "$";
    } else {
      assert glob[0] in glob && glob[|glob| - 1] in glob;
    }
  }

  /** For a clean glob that is not slash-bracketed and is accepted, the emitted text means the glob. */
  lemma TranslationMeansTheGlob(glob: string)
    requires Clean(glob) && !SlashBracketed(glob) && Translate(glob, false).Some?
    ensures KeepsMeaning(Translate(glob, false).value, glob)
  {
    CleanText(glob);
    CleanKeepsMeaning(glob);
  }

  lemma LexCons(c: char, rest: string)
    requires c != '[' && c != '{' && c != '\\' && Lex(rest).Some?
    ensures Lex([c] + rest) == Some([TokenOf(c)] + Lex(rest).value)
  {
    LexOne(c);
    LexAppends([c], rest);
  }

  /** A bar is copied as it stands, so a glob with one is not anchored as a whole. */
  lemma BarIsNotLiteral()
    ensures Translate("a|b", false) == Some("^a|b$")
    ensures exists r :: Parses("^a|b$", r) && Found(r, "ax")
    ensures !Matches("a|b", "ax")
  {
    BodyOfThree('a', '|', 'b');
    BodyLength("a|b");
    assert Text("a|b", false) == "^a|b$";
    LexBar();
    var left := Then(Single(Atom(StartAnchor)), Atom(Plain('a')));
    assert TakesBranch(Single(Atom(StartAnchor)), "ax", 0, 0) && Takes(Atom(Plain('a')), "ax", 0, 1);
    assert TakesRegex(BarRegex(), "ax", 0, 1);
    MatchesAsLong("a|b", "ax");
  }

  function BarRegex(): Regex {
    Either(One(Then(Single(Atom(StartAnchor)), Atom(Plain('a')))), Then(Single(Atom(Plain('b'))), Atom(EndAnchor)))
  }

  lemma LexBar()
    ensures Parses("^a|b$", BarRegex())
  {
    LexOne('$');
    LexCons('b', "$");
    LexCons('|', "b" + "$");
    LexCons('a', "|" + ("b" + "$"));
    LexCons('^', "a" + ("|" + ("b" + "$")));
    assert "^" + ("a" + ("|" + ("b" + "$"))) == "^a|b$";
    var left, right := [Sym(StartAnchor)] + [Sym(Plain('a'))], [Sym(Plain('b'))] + [Sym(EndAnchor)];
    assert BranchTokens(BarRegex().r.b) == left && BranchTokens(BarRegex().b) == right;
    assert left + [Bar] + right
        == [Sym(StartAnchor)] + ([Sym(Plain('a'))] + ([Bar] + ([Sym(Plain('b'))] + [Sym(EndAnchor)])));
  }

  lemma BodyOfThree(a: char, b: char, c: char)
    ensures Body([a, b, c]) == Piece(a) + Piece(b) + Piece(c)
  {
    assert [a, b, c][..2] == [a, b] && [a, b][..1] == [a] && [a][..0] == [];
    assert Body([a]) == Piece(a);
    assert Body([a, b]) == Piece(a) + Piece(b);
  }

  /** Without * every character of a glob takes at least one of the string. */
  lemma {:induction false} MatchesAsLong(glob: string, s: string)
    requires '*' !in glob
    ensures Matches(glob, s) ==> |glob| <= |s|
  {
    if glob != [] && Matches(glob, s) {
      var n := |glob| - 1;
      var k :| 0 <= k <= |s| && Matches(glob[..n], s[..k]) && MatchesOne(glob[n], s[k..]);
      MatchesAsLong(glob[..n], s[..k]);
    }
  }
}
