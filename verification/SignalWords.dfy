/** The value of a polled signal, read 32 bits at a time and extended to whole words. */
module SignalWords {
  import opened HdlWords

  /** The bits of a word, least significant first. */
  type Word = w: seq<bool> | |w| == 32 witness seq(32, _ => false)

  function And(v: Word, w: Word): Word {
    seq(32, i requires 0 <= i < 32 => v[i] && w[i])
  }

  function Or(v: Word, w: Word): Word {
    seq(32, i requires 0 <= i < 32 => v[i] || w[i])
  }

  function Not(w: Word): Word {
    seq(32, i requires 0 <= i < 32 => !w[i])
  }

  predicate NonZero(w: Word) {
    exists i | 0 <= i < 32 :: w[i]
  }

  /** The low bits of a number. */
  function BitsOf(n: nat, count: nat): (r: seq<bool>)
    ensures |r| == count
  {
    if count == 0 then [] else [n % 2 == 1] + BitsOf(n / 2, count - 1)
  }

  lemma {:induction false} BitsOfPower(m: nat, count: nat, k: nat)
    requires k < count
    ensures BitsOf(Pow2(m), count)[k] <==> k == m
  {
    if m == 0 {
      if k > 0 { BitsOfZero(count - 1, k - 1); }
    } else if k > 0 {
      assert Pow2(m) / 2 == Pow2(m - 1);
      BitsOfPower(m - 1, count - 1, k - 1);
    }
  }

  lemma {:induction false} BitsOfZero(count: nat, k: nat)
    requires k < count
    ensures !BitsOf(0, count)[k]
  {
    if k > 0 { BitsOfZero(count - 1, k - 1); }
  }

  lemma {:induction false} BitsOfOnes(m: nat, count: nat, k: nat)
    requires k < count
    ensures Pow2(m) >= 1 && (BitsOf(Pow2(m) - 1, count)[k] <==> k < m)
  {
    Pow2Grows(0, m);
    if m == 0 {
      BitsOfZero(count, k);
    } else {
      Pow2Grows(0, m - 1);
      assert (Pow2(m) - 1) / 2 == Pow2(m - 1) - 1 && (Pow2(m) - 1) % 2 == 1;
      if k > 0 { BitsOfOnes(m - 1, count - 1, k - 1); }
    }
  }

  // ----- the signal

  /** Bit i of what the simulator holds, least significant first; what it puts above the signal's last bit in
      the last word is anything. */
  function SignalBit(words: seq<Word>, i: nat): bool
    requires i < 32 * |words|
  {
    words[i / 32][i % 32]
  }

  /** The signal's bits, followed for ever by zeros, or by its last bit if it is signed. */
  function Extended(words: seq<Word>, size: nat, isSigned: bool, i: nat): bool
    requires size >= 1 && |words| == WordsFor(size)
  {
    if i < size then SignalBit(words, i) else isSigned && SignalBit(words, size - 1)
  }

  /** What a hook record keeps of a signal. */
  datatype Hook = Hook(size: nat, isSigned: bool, topMsb: nat, topMask: nat)

  predicate OnlyBit(bits: seq<bool>, m: nat) {
    forall k | 0 <= k < |bits| :: bits[k] <==> k == m
  }

  predicate LowBits(bits: seq<bool>, m: nat) {
    forall k | 0 <= k < |bits| :: bits[k] <==> k <= m
  }

  ghost predicate ValidHook(h: Hook) {
    && h.size >= 1
    && OnlyBit(BitsOf(h.topMsb, 32), (h.size - 1) % 32)
    && LowBits(BitsOf(h.topMask, 32), (h.size - 1) % 32)
  }

  /** The mask is computed in unsigned words: where the size is a multiple of 32 doubling wraps round to zero,
      and taking one away wraps back. */
  method CreateHook(size: nat, isSigned: bool) returns (h: Hook)
    requires size >= 1
    ensures ValidHook(h) && h.size == size && h.isSigned == isSigned
    ensures h.topMsb < WORD && h.topMask < WORD
  {
    var m := (size - 1) % 32;
    var topMsb := Pow2(m);
    var topMask := (2 * topMsb % WORD + WORD - 1) % WORD;
    HookFits(m, topMask);
    h := Hook(size, isSigned, topMsb, topMask);
  }

  lemma HookFits(m: nat, topMask: nat)
    requires m < 32 && topMask == (2 * Pow2(m) % WORD + WORD - 1) % WORD
    ensures OnlyBit(BitsOf(Pow2(m), 32), m) && LowBits(BitsOf(topMask, 32), m)
    ensures Pow2(m) < WORD && topMask < WORD
  {
    MaskIsOnes(m);
    HookBits(m, 32);
  }

  lemma HookBits(m: nat, count: nat)
    ensures Pow2(m + 1) >= 1
    ensures OnlyBit(BitsOf(Pow2(m), count), m)
    ensures LowBits(BitsOf(Pow2(m + 1) - 1, count), m)
  {
    Pow2Grows(0, m + 1);
    var power, ones := BitsOf(Pow2(m), count), BitsOf(Pow2(m + 1) - 1, count);
    forall k | 0 <= k < count ensures power[k] <==> k == m { BitsOfPower(m, count, k); }
    forall k | 0 <= k < count ensures ones[k] <==> k <= m { BitsOfOnes(m + 1, count, k); }
  }

  lemma MaskIsOnes(m: nat)
    requires m < 32
    ensures Pow2(m + 1) >= 1 && (2 * Pow2(m) % WORD + WORD - 1) % WORD == Pow2(m + 1) - 1
    ensures Pow2(m) < WORD
  {
    Pow2Word();
    Pow2Grows(m + 1, 32);
    Pow2Grows(0, m);
    assert Pow2(m + 1) == 2 * Pow2(m);
  }

  /** The word of one plane, cut down to the signal and extended if it is the last. */
  function Masked(h: Hook, w: Word): Word {
    var mask := BitsOf(h.topMask, 32);
    var r := And(w, mask);
    if h.isSigned && NonZero(And(r, BitsOf(h.topMsb, 32))) then Or(r, Not(mask)) else r
  }

  lemma MaskedBits(h: Hook, w: Word, k: nat)
    requires ValidHook(h) && k < 32
    ensures var m := (h.size - 1) % 32;
            Masked(h, w)[k] <==> if k <= m then w[k] else h.isSigned && w[m]
  {
    var r := And(w, BitsOf(h.topMask, 32));
    var m := (h.size - 1) % 32;
    assert And(r, BitsOf(h.topMsb, 32))[m] == w[m];
  }

  /** w is word number chunk of the extended value. */
  ghost predicate WordIs(h: Hook, words: seq<Word>, chunk: nat, w: Word)
    requires h.size >= 1 && |words| == WordsFor(h.size)
  {
    forall j | 0 <= j < 32 :: w[j] == Extended(words, h.size, h.isSigned, 32 * chunk + j)
  }

  lemma WholeWord(words: seq<Word>, word: nat, j: nat)
    requires word < |words| && j < 32
    ensures SignalBit(words, 32 * word + j) == words[word][j]
  {
    assert (32 * word + j) / 32 == word && (32 * word + j) % 32 == j;
  }

  lemma InnerWord(h: Hook, words: seq<Word>, word: nat)
    requires h.size >= 1 && |words| == WordsFor(h.size) && 32 * word + 32 <= h.size
    ensures WordIs(h, words, word, words[word])
  {
    forall j | 0 <= j < 32 ensures words[word][j] == Extended(words, h.size, h.isSigned, 32 * word + j) {
      WholeWord(words, word, j);
    }
  }

  lemma LastWord(h: Hook, words: seq<Word>)
    requires ValidHook(h) && |words| == WordsFor(h.size)
    ensures WordIs(h, words, WordsFor(h.size) - 1, Masked(h, words[WordsFor(h.size) - 1]))
  {
    var word, m := WordsFor(h.size) - 1, (h.size - 1) % 32;
    forall j | 0 <= j < 32
      ensures Masked(h, words[word])[j] == Extended(words, h.size, h.isSigned, 32 * word + j)
    {
      MaskedBits(h, words[word], j);
      WholeWord(words, word, j);
      WholeWord(words, word, m);
      assert h.size - 1 == 32 * word + m;
    }
  }

  /** One word of the value, chunk counting from the least significant.  A negative one is refused; one beyond
      the end reads as the last. */
  method GetValue32(h: Hook, avals: seq<Word>, bvals: seq<Word>, chunk: int) returns (ok: bool, aval: Word, bval: Word)
    requires ValidHook(h) && |avals| == |bvals| == WordsFor(h.size)
    ensures ok == (chunk >= 0)
    ensures ok ==> var c := if chunk < WordsFor(h.size) then chunk else WordsFor(h.size) - 1;
                   WordIs(h, avals, c, aval) && WordIs(h, bvals, c, bval)
  {
    if chunk < 0 { return false, avals[0], bvals[0]; }
    var lsb := 32 * chunk;
    var word := chunk;
    if lsb >= h.size { word := (h.size - 1) / 32; }
    ok, aval, bval := true, avals[word], bvals[word];
    if lsb + 32 > h.size {
      LastWord(h, avals);
      LastWord(h, bvals);
      aval, bval := Masked(h, aval), Masked(h, bval);
    } else {
      InnerWord(h, avals, word);
      InnerWord(h, bvals, word);
    }
  }

  /** Words that are right one by one make up the extended value. */
  lemma WordsAreTheValue(h: Hook, words: seq<Word>, all: seq<Word>, i: nat)
    requires h.size >= 1 && |words| == |all| == WordsFor(h.size) && i < 32 * |all|
    requires forall c | 0 <= c < |all| :: WordIs(h, words, c, all[c])
    ensures SignalBit(all, i) == Extended(words, h.size, h.isSigned, i)
  {
    assert WordIs(h, words, i / 32, all[i / 32]);
    assert i == 32 * (i / 32) + i % 32;
  }

  /** All words of a signal, from the least significant. */
  method ReadSignal(h: Hook, avals: seq<Word>, bvals: seq<Word>) returns (a: seq<Word>, b: seq<Word>)
    requires ValidHook(h) && |avals| == |bvals| == WordsFor(h.size)
    ensures |a| == |b| == WordsFor(h.size)
    ensures forall i: nat | i < 32 * |a| :: SignalBit(a, i) == Extended(avals, h.size, h.isSigned, i)
    ensures forall i: nat | i < 32 * |b| :: SignalBit(b, i) == Extended(bvals, h.size, h.isSigned, i)
  {
    a, b := [], [];
    var chunk := 0;
    while chunk < WordsFor(h.size)
      invariant 0 <= chunk == |a| == |b| <= WordsFor(h.size)
      invariant forall c | 0 <= c < chunk :: WordIs(h, avals, c, a[c]) && WordIs(h, bvals, c, b[c])
    {
      var ok, aval, bval := GetValue32(h, avals, bvals, chunk);
      a, b, chunk := a + [aval], b + [bval], chunk + 1;
    }
    forall i: nat | i < 32 * |a|
      ensures SignalBit(a, i) == Extended(avals, h.size, h.isSigned, i)
      ensures SignalBit(b, i) == Extended(bvals, h.size, h.isSigned, i)
    {
      WordsAreTheValue(h, avals, a, i);
      WordsAreTheValue(h, bvals, b, i);
    }
  }
}
