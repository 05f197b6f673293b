/** Which globs are translated, what is copied as it stands, and what a glob matches, character by character. */
module GlobLimits {
  import opened Sequences
  import opened Wrappers
  import opened GlobTranslator
  import opened GlobMeaning
  import opened GlobSyntax

  predicate Doubles(c: char) {
    c == '*' || c == '+' || c == '.' || c == '[' || c == ']' || c == '(' || c == ')'
  }

  /** The places of the characters that take two characters in the text. */
  function Doubled(glob: string): set<nat> {
    set i: nat | i < |glob| && Doubles(glob[i])
  }

  lemma OneMoreDoubled(glob: string)
    requires glob != []
    ensures var n := |glob| - 1;
            Doubled(glob) == Doubled(glob[..n]) + if Doubles(glob[n]) then {n} else {}
  {
  }

  lemma {:induction false} DoubledAreGrown(glob: string)
    ensures |Doubled(glob)| == Grown(glob)
  {
    if glob != [] {
      var n := |glob| - 1;
      DoubledAreGrown(glob[..n]);
      OneMoreDoubled(glob);
    }
  }

  /** A glob that is not a regular expression between slashes is translated if and only if its length, two for each of
      its characters that are doubled, one for each anchor it does not bring, one for each slash and one for the end
      come to at most 2048. */
  lemma AcceptedIff(glob: string, withBrackets: bool)
    requires glob != "" && !(glob[0] == '/' && glob[|glob| - 1] == '/')
    ensures Translate(glob, withBrackets).Some? <==>
              |glob| + 2 * |Doubled(glob)| + (if glob[0] == '^' then 0 else 1)
              + (if glob[|glob| - 1] == '$' then 0 else 1) + (if withBrackets then 2 else 0) + 1 <= 2048
  {
    BodyLength(glob);
    DoubledAreGrown(glob);
  }

  /** A regular expression between slashes is passed on without them if it has at most 2048 characters, and the empty
      one matches only the empty string. */
  lemma RegexPassedOn(glob: string)
    requires |glob| >= 2 && glob[0] == '/' && glob[|glob| - 1] == '/'
    ensures Translate(glob, false) == if |glob| <= 2048 then Some(glob[1..|glob| - 1]) else None
    ensures Translate(glob, true) == if |glob| <= 2048 then Some(glob) else None
  {
  }

  lemma EmptyGlobs()
    ensures Translate("", false) == Some("^$") == Translate("/", false)
    ensures Translate("", true) == Some("/^$/") == Translate("/", true)
  {
    assert "/" + "^$" + "/" == "/^$/" && [] + "^$" + [] == "^$";
  }

  lemma {:induction false} PlainBody(glob: string)
    requires forall c | c in glob :: !Doubles(c) && c != '?'
    ensures Body(glob) == glob
  {
    if glob != [] {
      var front, c := glob[..|glob| - 1], glob[|glob| - 1];
      assert c in glob && forall d | d in front :: d in glob;
      PlainBody(front);
      assert Piece(c) == [c];
      assert glob == front + [c];
    }
  }

  /** Characters other than * + ? . [ ] ( ) are copied, a backslash included. */
  lemma PlainIsCopied(glob: string)
    requires glob != "" && !(glob[0] == '/' && glob[|glob| - 1] == '/')
    requires forall c | c in glob :: !Doubles(c) && c != '?'
    requires Translate(glob, false).Some?
    ensures Translate(glob, false).value
         == (if glob[0] == '^' then "" else "^") + glob + (if glob[|glob| - 1] == '$' then "" else "$")
  {
    PlainBody(glob);
    assert Text(glob, false) == Opening(glob) + Body(glob) + Closing(glob);
  }

  // ----- what a glob matches

  /** A star matches anything, a plus anything but nothing, a question mark any one character, and every other character
      itself. */
  lemma OneMatches(c: char, s: string)
    ensures Matches([c], s) <==> if c == '*' then true else if c == '+' then s != "" else if c == '?' then |s| == 1
                                 else s == [c]
  {
    assert [c][..0] == [];
    assert s[0..] == s;
    if MatchesOne(c, s) { assert Matches([c][..0], s[..0]) && MatchesOne([c][0], s[0..]); }
    if Matches([c], s) {
      var k :| 0 <= k <= |s| && Matches([c][..0], s[..k]) && MatchesOne([c][0], s[k..]);
      assert k == 0;
    }
  }

  /** A glob matches what splits into a part that its front matches and one that its last character matches. */
  lemma MatchesSplits(glob: string, c: char, s: string)
    ensures Matches(glob + [c], s) <==> exists k | 0 <= k <= |s| :: Matches(glob, s[..k]) && Matches([c], s[k..])
  {
    assert (glob + [c])[..|glob|] == glob;
    forall k | 0 <= k <= |s| ensures Matches([c], s[k..]) <==> MatchesOne(c, s[k..]) {
      OneMatches(c, s[k..]);
    }
  }

  lemma NothingMatchesNothing(s: string)
    ensures Matches("", s) <==> s == ""
  {
  }
}
