/** Translation of a glob into the text of a regular expression, in a fixed buffer. */
module GlobTranslator {
  import opened Wrappers

  const MAX_LENGTH := 2048
  const BUFFER_SIZE := MAX_LENGTH + 4
  const BRACKET := '/'
  const ESCAPE := '\\'

  /** The text is held in the buffer as a zero-terminated string. */
  predicate Holds(buffer: seq<char>, text: string) {
    |text| < |buffer| && buffer[..|text|] == text && buffer[|text|] == '\0'
  }

  predicate IsRepeat(c: char) {
    c == '*' || c == '+'
  }

  predicate IsQuoted(c: char) {
    c == '.' || c == '[' || c == ']' || c == '(' || c == ')'
  }

  /** Characters whose piece is two characters long. */
  predicate IsSpecial(c: char) {
    IsRepeat(c) || IsQuoted(c)
  }

  function Piece(c: char): string {
    if IsRepeat(c) then ['.', c]
    else if IsQuoted(c) then [ESCAPE, c]
    else if c == '?' then "."
    else [c]
  }

  function Body(glob: string): string {
    if glob == [] then [] else Body(glob[..|glob| - 1]) + Piece(glob[|glob| - 1])
  }

  /** The characters of the glob whose piece is two characters long. */
  function Grown(glob: string): nat {
    if glob == [] then 0
    else Grown(glob[..|glob| - 1]) + if |Piece(glob[|glob| - 1])| == 2 then 1 else 0
  }

  function Opening(glob: string): string
    requires glob != []
  {
    if glob[0] == '^' then [] else "^"
  }

  function Closing(glob: string): string
    requires glob != []
  {
    if glob[|glob| - 1] == '$' then [] else "$"
  }

  function Slashes(withBrackets: bool): string {
    if withBrackets then [BRACKET] else []
  }

  /** The text of the translation: the pieces between anchors, between slashes if asked for. */
  function Text(glob: string, withBrackets: bool): string
    requires glob != []
  {
    Slashes(withBrackets) + Opening(glob) + Body(glob) + Closing(glob) + Slashes(withBrackets)
  }

  predicate IsEmptyGlob(glob: string) {
    glob == [] || glob == [BRACKET]
  }

  predicate SlashBracketed(glob: string) {
    glob != [] && glob[0] == BRACKET && glob[|glob| - 1] == BRACKET
  }

  /** What the translator returns; None when it gives up because the length budget is exceeded. */
  function Translate(glob: string, withBrackets: bool): Option<string> {
    if IsEmptyGlob(glob) then
      Some(Slashes(withBrackets) + "^$" + Slashes(withBrackets))
    else if SlashBracketed(glob) then
      if |glob| > MAX_LENGTH then None
      else Some(if withBrackets then glob else glob[1..|glob| - 1])
    else
      var text := Text(glob, withBrackets);
      if |text| + Grown(glob) + 1 <= MAX_LENGTH then Some(text) else None
  }

  lemma {:induction false} BodyLength(glob: string)
    ensures |Body(glob)| == |glob| + Grown(glob)
  {
    if glob != [] {
      BodyLength(glob[..|glob| - 1]);
    }
  }

  lemma {:induction false} GrownMonotone(glob: string, n: nat)
    requires n <= |glob|
    ensures Grown(glob[..n]) <= Grown(glob)
  {
    if n == |glob| {
      assert glob[..n] == glob;
    } else {
      GrownMonotone(glob[..|glob| - 1], n);
      assert glob[..|glob| - 1][..n] == glob[..n];
    }
  }

  /** The budget when the first n characters have been translated. */
  function Budget(glob: string, n: nat, withBrackets: bool): nat
    requires glob != [] && n <= |glob|
  {
    |glob| + |Slashes(withBrackets)| + |Opening(glob)| + 2 * Grown(glob[..n])
  }

  /** At every turn the running length covers what has been written and the input left to read, with one to spare for
      every two-character piece. */
  lemma BudgetCovers(glob: string, n: nat, withBrackets: bool)
    requires glob != [] && n <= |glob|
    ensures Budget(glob, n, withBrackets)
         == |Slashes(withBrackets) + Opening(glob) + Body(glob[..n])| + (|glob| - n) + Grown(glob[..n])
  {
    BodyLength(glob[..n]);
  }

  /** The translator's final length budget charges every two-character piece one more than it takes. */
  lemma BudgetVersusText(glob: string, withBrackets: bool)
    requires glob != [] && !IsEmptyGlob(glob) && !SlashBracketed(glob)
    ensures |Text(glob, withBrackets)| + Grown(glob) + 1
         == Budget(glob, |glob|, withBrackets) + |Closing(glob)| + |Slashes(withBrackets)| + 1
  {
    BodyLength(glob);
    assert glob[..|glob|] == glob;
  }

  lemma OverBudget(glob: string, n: nat, withBrackets: bool)
    requires glob != [] && n <= |glob| && Budget(glob, n, withBrackets) > MAX_LENGTH
    requires !IsEmptyGlob(glob) && !SlashBracketed(glob)
    ensures Translate(glob, withBrackets) == None
  {
    BudgetVersusText(glob, withBrackets);
    GrownMonotone(glob, n);
    assert glob[..|glob|] == glob;
  }

  lemma Step(glob: string, n: nat)
    requires n < |glob|
    ensures Body(glob[..n + 1]) == Body(glob[..n]) + Piece(glob[n])
    ensures Grown(glob[..n + 1]) == Grown(glob[..n]) + if |Piece(glob[n])| == 2 then 1 else 0
  {
    assert glob[..n + 1][..n] == glob[..n];
  }

  lemma LastOfBody(glob: string)
    requires glob != []
    ensures Body(glob) != []
    ensures Body(glob)[|Body(glob)| - 1] == '$' <==> glob[|glob| - 1] == '$'
  {}

  /** What has been written so far. */
  ghost predicate Filled(buffer: array<char>, text: string)
    reads buffer
  {
    |text| <= buffer.Length && forall k | 0 <= k < |text| :: buffer[k] == text[k]
  }

  method Put(buffer: array<char>, iter: nat, c: char, ghost before: string) returns (next: nat)
    requires |before| == iter < buffer.Length && Filled(buffer, before)
    modifies buffer
    ensures next == iter + 1 && Filled(buffer, before + [c])
  {
    buffer[iter] := c;
    next := iter + 1;
  }

  method PutTwo(buffer: array<char>, iter: nat, c: char, d: char, ghost before: string) returns (next: nat)
    requires |before| == iter < buffer.Length - 1 && Filled(buffer, before)
    modifies buffer
    ensures next == iter + 2 && Filled(buffer, before + [c, d])
  {
    buffer[iter] := c;
    buffer[iter + 1] := d;
    next := iter + 2;
  }

  // ----- where the main loop writes

  /** A glob that brings its own ^ and is translated without brackets is copied before any length is checked:
      it has to fit, or to come to a two-character piece, which is checked, before the buffer ends. */
  predicate FitsBuffer(glob: string, withBrackets: bool) {
    || withBrackets || glob == [] || glob[0] != '^' || |glob| <= BUFFER_SIZE
    || exists p | 0 <= p <= BUFFER_SIZE && p < |glob| :: IsSpecial(glob[p])
  }

  /** The checks before the main loop have passed, and those of its first n characters. */
  ghost predicate Passed(glob: string, withBrackets: bool, n: nat)
    requires glob != [] && n <= |glob|
  {
    && (withBrackets || glob[0] != '^' ==> Budget(glob, 0, withBrackets) <= MAX_LENGTH)
    && forall q | 0 <= q < n && IsSpecial(glob[q]) :: Budget(glob, q + 1, withBrackets) <= MAX_LENGTH
  }

  /** No check before has given up when the piece of character p is written. */
  ghost predicate Arrives(glob: string, withBrackets: bool, p: nat)
    requires p < |glob|
  {
    Passed(glob, withBrackets, p + 1)
  }

  /** The last index that the piece of character p is written to. */
  function WriteIndex(glob: string, withBrackets: bool, p: nat): nat
    requires p < |glob|
  {
    |Slashes(withBrackets)| + |Opening(glob)| + p + Grown(glob[..p]) + |Piece(glob[p])| - 1
  }

  lemma {:induction false} GrownSince(glob: string, n: nat) returns (q: nat)
    requires n <= |glob|
    ensures Grown(glob[..n]) > 0 ==> q < n && IsSpecial(glob[q]) && Grown(glob[..q + 1]) == Grown(glob[..n])
    ensures Grown(glob[..n]) == 0 ==> forall k | 0 <= k < n :: !IsSpecial(glob[k])
    ensures Grown(glob[..n]) <= n
  {
    q := 0;
    if n > 0 {
      Step(glob, n - 1);
      q := GrownSince(glob, n - 1);
      if IsSpecial(glob[n - 1]) { q := n - 1; }
    }
  }

  lemma {:induction false} NothingGrown(glob: string, n: nat)
    requires n <= |glob| && forall k | 0 <= k < n :: !IsSpecial(glob[k])
    ensures Grown(glob[..n]) == 0
  {
    if n > 0 {
      Step(glob, n - 1);
      NothingGrown(glob, n - 1);
    }
  }

  lemma WriteInBounds(glob: string, withBrackets: bool, p: nat)
    requires p < |glob| && FitsBuffer(glob, withBrackets) && Arrives(glob, withBrackets, p)
    ensures WriteIndex(glob, withBrackets, p) < BUFFER_SIZE
  {
    Step(glob, p);
    var q := GrownSince(glob, p + 1);
    if Grown(glob[..p + 1]) > 0 {
      assert Budget(glob, q + 1, withBrackets) <= MAX_LENGTH;
    } else if !withBrackets && glob[0] == '^' && |glob| > BUFFER_SIZE {
      var k :| 0 <= k <= BUFFER_SIZE && k < |glob| && IsSpecial(glob[k]);
      assert k > p;
    }
  }

  /** A long plain glob gets as far as the index behind the buffer. */
  lemma LongPlainGlobOverruns(glob: string)
    requires !FitsBuffer(glob, false)
    ensures Arrives(glob, false, BUFFER_SIZE) && WriteIndex(glob, false, BUFFER_SIZE) == BUFFER_SIZE
  {
    NothingGrown(glob, BUFFER_SIZE);
  }

  /** Every write of the main loop stays in the buffer exactly when the glob fits. */
  lemma InBoundsIffFits(glob: string, withBrackets: bool)
    ensures (forall p: nat | p < |glob| && Arrives(glob, withBrackets, p) ::
               WriteIndex(glob, withBrackets, p) < BUFFER_SIZE)
            <==> FitsBuffer(glob, withBrackets)
  {
    if FitsBuffer(glob, withBrackets) {
      forall p: nat | p < |glob| && Arrives(glob, withBrackets, p)
        ensures WriteIndex(glob, withBrackets, p) < BUFFER_SIZE
      {
        WriteInBounds(glob, withBrackets, p);
      }
    } else {
      LongPlainGlobOverruns(glob);
    }
  }

  // ----- the translator

  /** The translation, in place in `buffer`. */
  method Deglob(glob: string, withBrackets: bool, buffer: array<char>) returns (text: Option<string>)
    requires '\0' !in glob && buffer.Length == BUFFER_SIZE
    requires FitsBuffer(glob, withBrackets)
    modifies buffer
    ensures text == Translate(glob, withBrackets)
    ensures text.Some? && glob != "" && glob != "/" ==>
              |text.value| < buffer.Length && buffer[..|text.value|] == text.value && buffer[|text.value|] == '\0'
  {
    if |glob| == 0 || (|glob| == 1 && glob[0] == BRACKET) {
      text := Some(if withBrackets then "/^$/" else "^$");
      assert text.value == Slashes(withBrackets) + "^$" + Slashes(withBrackets);
    } else if glob[0] == BRACKET && glob[|glob| - 1] == BRACKET {
      if |glob| > MAX_LENGTH {
        return None;
      }
      text := Some(if withBrackets then glob else glob[1..|glob| - 1]);
      Copy(text.value, buffer);
    } else {
      text := Expand(glob, withBrackets, buffer);
    }
  }

  method Expand(glob: string, withBrackets: bool, buffer: array<char>) returns (text: Option<string>)
    requires glob != [] && !IsEmptyGlob(glob) && !SlashBracketed(glob)
    requires FitsBuffer(glob, withBrackets)
    requires buffer.Length == BUFFER_SIZE
    modifies buffer
    ensures text == Translate(glob, withBrackets)
    ensures text.Some? ==> Holds(buffer[..], text.value)
  {
    var globLen, iter := |glob|, 0;
    if withBrackets {
      globLen := globLen + 1;
      if globLen > MAX_LENGTH {
        OverBudget(glob, 0, withBrackets);
        return None;
      }
      iter := Put(buffer, iter, BRACKET, []);
    }
    ghost var slash := Slashes(withBrackets);
    assert Filled(buffer, slash);
    if glob[0] != '^' {
      globLen := globLen + 1;
      if globLen > MAX_LENGTH {
        OverBudget(glob, 0, withBrackets);
        return None;
      }
      iter := Put(buffer, iter, '^', slash);
    }
    assert Filled(buffer, slash + Opening(glob));
    text := Pieces(glob, withBrackets, buffer, globLen, iter);
  }

  /** The piece of one character, unless the running length gets too long. */
  method OnePiece(glob: string, withBrackets: bool, buffer: array<char>, budget: nat, iter: nat, p: nat,
                  ghost out: string)
    returns (fits: bool, globLen: nat, next: nat)
    requires p < |glob| && FitsBuffer(glob, withBrackets) && Passed(glob, withBrackets, p)
    requires buffer.Length == BUFFER_SIZE && budget == Budget(glob, p, withBrackets)
    requires |out| == iter == |Slashes(withBrackets)| + |Opening(glob)| + p + Grown(glob[..p]) && Filled(buffer, out)
    modifies buffer
    ensures globLen == Budget(glob, p + 1, withBrackets)
    ensures fits ==> Passed(glob, withBrackets, p + 1) && next == iter + |Piece(glob[p])|
    ensures fits ==> Filled(buffer, out + Piece(glob[p]))
    ensures !fits ==> globLen > MAX_LENGTH
  {
    var c := glob[p];
    Step(glob, p);
    fits, globLen, next := true, budget, iter;
    if IsRepeat(c) || IsQuoted(c) {
      globLen := globLen + 2;
      if globLen > MAX_LENGTH {
        return false, globLen, iter;
      }
      WriteInBounds(glob, withBrackets, p);
      next := PutTwo(buffer, iter, if IsRepeat(c) then '.' else ESCAPE, c, out);
    } else {
      WriteInBounds(glob, withBrackets, p);
      next := Put(buffer, iter, if c == '?' then '.' else c, out);
    }
  }

  /** The main loop: one piece per character of the glob. */
  method Pieces(glob: string, withBrackets: bool, buffer: array<char>, budget: nat, filled: nat)
    returns (text: Option<string>)
    requires glob != [] && !IsEmptyGlob(glob) && !SlashBracketed(glob) && buffer.Length == BUFFER_SIZE
    requires FitsBuffer(glob, withBrackets)
    requires budget == Budget(glob, 0, withBrackets) && (withBrackets || glob[0] != '^' ==> budget <= MAX_LENGTH)
    requires filled == |Slashes(withBrackets) + Opening(glob)|
    requires Filled(buffer, Slashes(withBrackets) + Opening(glob))
    modifies buffer
    ensures text == Translate(glob, withBrackets)
    ensures text.Some? ==> Holds(buffer[..], text.value)
  {
    var globLen, iter := budget, filled;
    ghost var lead := Slashes(withBrackets) + Opening(glob);
    ghost var out := lead;
    assert glob[..0] == [];
    for p := 0 to |glob|
      invariant Passed(glob, withBrackets, p) && globLen == budget + 2 * Grown(glob[..p])
      invariant iter == |out| == filled + p + Grown(glob[..p])
      invariant out == lead + Body(glob[..p])
      invariant Filled(buffer, out)
    {
      var fits;
      fits, globLen, iter := OnePiece(glob, withBrackets, buffer, globLen, iter, p, out);
      if !fits {
        OverBudget(glob, p + 1, withBrackets);
        return None;
      }
      out := out + Piece(glob[p]);
      Step(glob, p);
      assert out == lead + (Body(glob[..p]) + Piece(glob[p]));
    }
    assert glob[..|glob|] == glob;
    text := Close(glob, withBrackets, buffer, globLen, iter);
  }

  /** One more character, if the running length allows it. */
  method PutCounted(buffer: array<char>, budget: nat, iter: nat, c: char, ghost before: string)
    returns (fits: bool, globLen: nat, next: nat)
    requires buffer.Length == BUFFER_SIZE && |before| == iter <= budget && Filled(buffer, before)
    modifies buffer
    ensures globLen == budget + 1 && fits == (globLen <= MAX_LENGTH)
    ensures fits ==> next == iter + 1 && Filled(buffer, before + [c])
  {
    globLen, next := budget + 1, iter;
    fits := globLen <= MAX_LENGTH;
    if fits { next := Put(buffer, iter, c, before); }
  }

  /** The closing anchor, unless the glob brings its own. */
  method CloseAnchor(glob: string, buffer: array<char>, budget: nat, iter: nat, ghost out: string)
    returns (fits: bool, globLen: nat, next: nat)
    requires glob != [] && buffer.Length == BUFFER_SIZE && 0 < |out| == iter <= budget && Filled(buffer, out)
    requires out[|out| - 1] == '$' <==> glob[|glob| - 1] == '$'
    modifies buffer
    ensures globLen == budget + |Closing(glob)|
    ensures fits == (Closing(glob) == [] || globLen <= MAX_LENGTH)
    ensures fits ==> next == iter + |Closing(glob)| && Filled(buffer, out + Closing(glob))
  {
    fits, globLen, next := true, budget, iter;
    if buffer[iter - 1] != '$' {
      fits, globLen, next := PutCounted(buffer, globLen, iter, '$', out);
    }
  }

  method CloseBracket(withBrackets: bool, buffer: array<char>, budget: nat, iter: nat, ghost out: string)
    returns (fits: bool, globLen: nat, next: nat)
    requires buffer.Length == BUFFER_SIZE && |out| == iter <= budget && Filled(buffer, out)
    modifies buffer
    ensures globLen == budget + |Slashes(withBrackets)|
    ensures fits == (!withBrackets || globLen <= MAX_LENGTH)
    ensures fits ==> next == iter + |Slashes(withBrackets)| && Filled(buffer, out + Slashes(withBrackets))
  {
    fits, globLen, next := true, budget, iter;
    if withBrackets {
      fits, globLen, next := PutCounted(buffer, globLen, iter, BRACKET, out);
    }
  }

  method Close(glob: string, withBrackets: bool, buffer: array<char>, budget: nat, filled: nat)
    returns (text: Option<string>)
    requires glob != [] && !IsEmptyGlob(glob) && !SlashBracketed(glob) && buffer.Length == BUFFER_SIZE
    requires budget == Budget(glob, |glob|, withBrackets)
    requires filled == |Slashes(withBrackets) + Opening(glob) + Body(glob)|
    requires Filled(buffer, Slashes(withBrackets) + Opening(glob) + Body(glob))
    modifies buffer
    ensures text == Translate(glob, withBrackets)
    ensures text.Some? ==> Holds(buffer[..], text.value)
  {
    ghost var out := Slashes(withBrackets) + Opening(glob) + Body(glob);
    BudgetVersusText(glob, withBrackets);
    BodyWithinBudget(glob, withBrackets);
    LastOfBody(glob);
    assert out[|out| - 1] == Body(glob)[|Body(glob)| - 1];
    var fits, globLen, iter := CloseAnchor(glob, buffer, budget, filled, out);
    if !fits { return None; }
    out := out + Closing(glob);
    fits, globLen, iter := CloseBracket(withBrackets, buffer, globLen, iter, out);
    if !fits { return None; }
    out := out + Slashes(withBrackets);
    fits, globLen, iter := PutCounted(buffer, globLen, iter, '\0', out);
    if !fits { return None; }
    text := Some(buffer[..iter - 1]);
    assert text.value == out;
  }

  lemma BodyWithinBudget(glob: string, withBrackets: bool)
    requires glob != []
    ensures |Slashes(withBrackets) + Opening(glob) + Body(glob)| <= Budget(glob, |glob|, withBrackets)
  {
    BudgetCovers(glob, |glob|, withBrackets);
    assert glob[..|glob|] == glob;
  }

  method Copy(text: string, buffer: array<char>)
    requires |text| < buffer.Length
    modifies buffer
    ensures Holds(buffer[..], text)
  {
    for i := 0 to |text|
      invariant forall k | 0 <= k < i :: buffer[k] == text[k]
    {
      buffer[i] := text[i];
    }
    buffer[|text|] := '\0';
  }

  /** The bracketed form is a regular expression of its own: translating it again gives the form
      without brackets. */
  lemma BracketedFormIsRegex(glob: string)
    requires Translate(glob, true).Some?
    ensures Translate(glob, false).Some?
    ensures Translate(Translate(glob, true).value, false) == Translate(glob, false)
    ensures Translate(Translate(glob, true).value, true) == Translate(glob, true)
  {
    if IsEmptyGlob(glob) {
      assert "/^$/"[1..3] == "^$" == Slashes(false) + "^$" + Slashes(false);
      assert Translate(glob, true).value == "/^$/";
    } else if SlashBracketed(glob) {
    } else {
      var text := Text(glob, true);
      assert text[1..|text| - 1] == Text(glob, false);
    }
  }
}
