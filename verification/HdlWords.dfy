/** Signal values as strings of digits and as words of 32 bits, in the mixed-language access code. */
module HdlWords {

  const WORD: nat := 0x1_0000_0000

  function Pow2(n: nat): nat {
    if n == 0 then 1 else 2 * Pow2(n - 1)
  }

  /** What a digit counts for; anything else reads as zero. */
  function Digit(c: char): nat {
    if '0' <= c <= '9' then c as nat - '0' as nat else 0
  }

  /** The number that a string of binary digits writes, the most significant first. */
  function Num(s: string): nat {
    if s == "" then 0 else 2 * Num(s[..|s| - 1]) + Digit(s[|s| - 1])
  }

  predicate Binary(s: string) {
    forall i | 0 <= i < |s| :: s[i] == '0' || s[i] == '1'
  }

  function DigitOf(b: bool): char {
    if b then '1' else '0'
  }

  /** The number that words make up, the least significant first. */
  function Total(ws: seq<nat>): nat {
    if ws == [] then 0 else ws[0] + WORD * Total(ws[1..])
  }

  // ----- numbers

  lemma {:induction false} Pow2Adds(m: nat, n: nat)
    ensures Pow2(m + n) == Pow2(m) * Pow2(n)
    decreases n
  {
    if n > 0 {
      Pow2Adds(m, n - 1);
      Doubled(Pow2(m), Pow2(n - 1));
    }
  }

  lemma Doubled(x: nat, y: nat)
    ensures x * (2 * y) == 2 * (x * y)
  {
  }

  lemma DoubledLeft(x: nat, y: nat)
    ensures (2 * x) * y == 2 * (x * y)
  {
  }

  lemma Pow2Word()
    ensures Pow2(32) == WORD
  {
    assert Pow2(8) == 256 by { assert Pow2(4) == 16; }
    Pow2Adds(8, 8);
    Pow2Adds(16, 16);
  }

  lemma {:induction false} Pow2Grows(m: nat, n: nat)
    requires m <= n
    ensures 1 <= Pow2(m) <= Pow2(n)
    decreases n
  {
    if m < n { Pow2Grows(m, n - 1); } else if m > 0 { Pow2Grows(m - 1, n - 1); }
  }

  lemma OneDigitMore(x: nat, p: nat, f: nat, d: nat)
    ensures 2 * (x * p + f) + d == x * (2 * p) + (2 * f + d)
  {
  }

  lemma {:induction false} NumJoins(s: string, t: string)
    ensures Num(s + t) == Num(s) * Pow2(|t|) + Num(t)
    decreases |t|
  {
    if t == "" {
      assert s + t == s;
    } else {
      var front := t[..|t| - 1];
      assert (s + t)[..|s + t| - 1] == s + front;
      NumJoins(s, front);
      OneDigitMore(Num(s), Pow2(|front|), Num(front), Digit(t[|t| - 1]));
    }
  }

  lemma {:induction false} NumBounded(s: string)
    requires Binary(s)
    ensures Num(s) < Pow2(|s|)
  {
    if s != "" {
      NumBounded(s[..|s| - 1]);
    }
  }

  /** A binary string that starts with a one writes at least that power. */
  lemma {:induction false} NumAtLeast(s: string)
    requires Binary(s) && s != "" && s[0] == '1'
    ensures Num(s) >= Pow2(|s| - 1)
  {
    if |s| > 1 {
      assert s[..|s| - 1][0] == s[0];
      NumAtLeast(s[..|s| - 1]);
    }
  }

  lemma {:induction false} TotalEnds(ws: seq<nat>, x: nat, y: nat)
    ensures Total(ws + [x]) == Total(ws + [y]) <==> x == y
  {
    if ws == [] {
      assert (ws + [x])[1..] == [] && (ws + [y])[1..] == [];
    } else {
      assert (ws + [x])[1..] == ws[1..] + [x] && (ws + [y])[1..] == ws[1..] + [y];
      TotalEnds(ws[1..], x, y);
    }
  }

  /** Putting the digits of one more word behind a string puts the word before the others. */
  lemma MoreWords(buf: string, digits: string, w: nat, ws: seq<nat>)
    requires Num(buf) == Total(ws) && |digits| == 32 && Num(digits) == w
    ensures Num(buf + digits) == Total([w] + ws)
  {
    NumJoins(buf, digits);
    Pow2Word();
    assert ([w] + ws)[1..] == ws;
  }

  // ----- single bits

  /** Bit k of a number, the least significant being bit 0. */
  predicate Bit(n: nat, k: nat) {
    if k == 0 then n % 2 == 1 else Bit(n / 2, k - 1)
  }

  /** What is added from bit m up does not show below. */
  lemma {:induction false} LowBit(n: nat, x: nat, k: nat, m: nat)
    requires k < m
    ensures Bit(n + Pow2(m) * x, k) == Bit(n, k)
  {
    var half := Pow2(m - 1) * x;
    assert Pow2(m) * x == 2 * half by { DoubledLeft(Pow2(m - 1), x); }
    if k > 0 { LowBit(n / 2, x, k - 1, m - 1); }
  }

  /** And from there on only it does, if the rest fits below. */
  lemma {:induction false} HighBit(n: nat, x: nat, k: nat, m: nat)
    requires n < Pow2(m)
    ensures Bit(n + Pow2(m) * x, m + k) == Bit(x, k)
  {
    if m > 0 {
      var half := Pow2(m - 1) * x;
      assert Pow2(m) * x == 2 * half by { DoubledLeft(Pow2(m - 1), x); }
      HighBit(n / 2, x, k, m - 1);
    }
  }

  lemma WordBit(n: nat, k: nat)
    requires k < 32
    ensures Bit(n % WORD, k) == Bit(n, k)
  {
    Pow2Word();
    LowBit(n % WORD, n / WORD, k, 32);
  }

  /** Bit k of the number that binary digits write is the k-th digit from the end. */
  lemma {:induction false} NumBit(s: string, k: nat)
    requires Binary(s) && k < |s|
    ensures Bit(Num(s), k) <==> s[|s| - 1 - k] == '1'
  {
    if k > 0 {
      assert Num(s) / 2 == Num(s[..|s| - 1]);
      NumBit(s[..|s| - 1], k - 1);
    }
  }

  lemma NumBits(s: string)
    ensures |s| == 1 ==> Num(s) == if '0' <= s[0] <= '9' then s[0] as nat - '0' as nat else 0
    ensures Binary(s) ==> forall k: nat | k < |s| :: Bit(Num(s), k) <==> s[|s| - 1 - k] == '1'
  {
    if Binary(s) {
      forall k: nat | k < |s| ensures Bit(Num(s), k) <==> s[|s| - 1 - k] == '1' { NumBit(s, k); }
    }
  }

  /** Bit i of the number that words make up is bit i mod 32 of word i div 32. */
  lemma {:induction false} TotalBit(ws: seq<nat>, i: nat)
    requires i < 32 * |ws| && forall k | 0 <= k < |ws| :: ws[k] < WORD
    ensures Bit(Total(ws), i) == Bit(ws[i / 32], i % 32)
  {
    Pow2Word();
    if i < 32 {
      LowBit(ws[0], Total(ws[1..]), i, 32);
    } else {
      HighBit(ws[0], Total(ws[1..]), i - 32, 32);
      TotalBit(ws[1..], i - 32);
    }
  }

  lemma {:induction false} NothingAbove(n: nat, m: nat, k: nat)
    requires n < Pow2(m) && m <= k
    ensures !Bit(n, k)
  {
    if m > 0 { NothingAbove(n / 2, m - 1, k - 1); } else if k > 0 { NothingAbove(0, 0, k - 1); }
  }

  // ----- btoi and dtob

  /** The sums are computed in double precision, which is exact up to this power and holds no power beyond
      the other. */
  const EXACT_BITS: nat := 53
  const LARGEST_POWER: nat := 1023

  method Btoi(binVal: string) returns (dec: nat)
    requires Num(binVal) <= Pow2(EXACT_BITS) && |binVal| <= LARGEST_POWER + 1
    ensures dec == Num(binVal)
    ensures |binVal| == 1 ==> dec == if '0' <= binVal[0] <= '9' then binVal[0] as nat - '0' as nat else 0
    ensures Binary(binVal) ==>
              forall k: nat | k < |binVal| :: Bit(dec, k) <==> binVal[|binVal| - 1 - k] == '1'
  {
    NumBits(binVal);
    dec := 0;
    var j, i := 0, |binVal|;
    while i > 0
      invariant 0 <= i <= |binVal| && j == |binVal| - i
      invariant dec == Num(binVal[i..])
    {
      i := i - 1;
      assert binVal[i..] == [binVal[i]] + binVal[i + 1..];
      NumJoins([binVal[i]], binVal[i + 1..]);
      assert Num([binVal[i]]) == Digit(binVal[i]);
      dec := dec + Digit(binVal[i]) * Pow2(j);
      j := j + 1;
    }
    assert binVal[0..] == binVal;
  }

  /** Digits as they are found, the least significant first, and as they are written. */
  function Written(bits: seq<bool>): string {
    if bits == [] then "" else Written(bits[1..]) + [DigitOf(bits[0])]
  }

  function Value(bits: seq<bool>): nat {
    if bits == [] then 0 else (if bits[0] then 1 else 0) + 2 * Value(bits[1..])
  }

  lemma {:induction false} WrittenIsBinary(bits: seq<bool>)
    ensures |Written(bits)| == |bits| && Binary(Written(bits)) && Num(Written(bits)) == Value(bits)
    ensures bits != [] ==> Written(bits)[0] == DigitOf(bits[|bits| - 1])
  {
    if bits != [] { WrittenIsBinary(bits[1..]); }
  }

  lemma {:induction false} ValueAppends(bits: seq<bool>, more: seq<bool>)
    ensures Value(bits + more) == Value(bits) + Pow2(|bits|) * Value(more)
  {
    if bits == [] {
      assert bits + more == more;
    } else {
      assert (bits + more)[1..] == bits[1..] + more;
      ValueAppends(bits[1..], more);
      DoubledLeft(Pow2(|bits| - 1), Value(more));
    }
  }

  lemma {:induction false} ZerosAreNothing(n: nat)
    ensures Value(seq(n, _ => false)) == 0
  {
    if n > 0 {
      assert seq(n, _ => false)[1..] == seq(n - 1, _ => false);
      ZerosAreNothing(n - 1);
    }
  }

  lemma PaddedValue(bits: seq<bool>, n: nat)
    ensures Value(bits + seq(n, _ => false)) == Value(bits)
  {
    ValueAppends(bits, seq(n, _ => false));
    ZerosAreNothing(n);
  }

  /** Writes a number in binary: with as few digits as it takes, at least one, or with 32.  Only the low 32 bits
      are kept. */
  method Dtob(decimalNumber: nat, msb: bool) returns (s: string)
    ensures Binary(s) && Num(s) == decimalNumber % WORD
    ensures !msb ==> |s| == 32
    ensures msb ==> 1 <= |s| <= 32 && (s == "0" || s[0] == '1')
    ensures forall k: nat | k < |s| :: s[|s| - 1 - k] == '1' <==> Bit(decimalNumber, k)
  {
    var bits, i := Divide(decimalNumber % WORD);
    var length := if msb then i else 32;
    s := Spell(bits + seq(length - i, _ => false));
    DigitsAreRight(bits, length - i, s);
    LowBits(decimalNumber, s);
  }

  lemma DigitsAreRight(bits: seq<bool>, pad: nat, s: string)
    requires s == Written(bits + seq(pad, _ => false))
    ensures |s| == |bits| + pad && Binary(s) && Num(s) == Value(bits)
    ensures pad == 0 && bits != [] ==> s[0] == DigitOf(bits[|bits| - 1])
    ensures pad == 0 && bits == [false] ==> s == "0"
  {
    var binN := bits + seq(pad, _ => false);
    PaddedValue(bits, pad);
    WrittenIsBinary(binN);
    if pad == 0 { assert binN == bits; }
  }

  lemma LowBits(n: nat, s: string)
    requires Binary(s) && |s| <= 32 && Num(s) == n % WORD
    ensures forall k: nat | k < |s| :: s[|s| - 1 - k] == '1' <==> Bit(n, k)
  {
    forall k: nat | k < |s| ensures s[|s| - 1 - k] == '1' <==> Bit(n, k) {
      NumBit(s, k);
      WordBit(n, k);
    }
  }

  method Spell(binN: seq<bool>) returns (s: string)
    ensures s == Written(binN)
  {
    s := "";
    var k := |binN|;
    assert binN[..k] == binN;
    while k > 0
      invariant 0 <= k <= |binN|
      invariant s + Written(binN[..k]) == Written(binN)
    {
      k := k - 1;
      WrittenLast(binN[..k + 1]);
      assert binN[..k + 1][..k] == binN[..k];
      s := s + [DigitOf(binN[k])];
    }
  }

  lemma {:induction false} WrittenLast(bits: seq<bool>)
    requires bits != []
    ensures Written(bits) == [DigitOf(bits[|bits| - 1])] + Written(bits[..|bits| - 1])
  {
    if |bits| > 1 {
      assert bits[..|bits| - 1][1..] == bits[1..][..|bits| - 2];
      WrittenLast(bits[1..]);
    }
  }

  /** The remainders of repeated halving. */
  method Divide(n: nat) returns (bits: seq<bool>, i: nat)
    requires n < WORD
    ensures i == |bits| && 1 <= i <= 32 && Value(bits) == n
    ensures bits == [false] || bits[i - 1]
  {
    var quotient := n;
    bits, i := [], 0;
    while quotient != 0 || i == 0
      invariant 0 <= i == |bits| <= 32
      invariant n == Value(bits) + Pow2(i) * quotient
      invariant i > 0 && quotient == 0 ==> bits == [false] || bits[i - 1]
      decreases quotient + if i == 0 then 1 else 0
    {
      StillRoom(n, quotient, i);
      HalveStep(bits, quotient);
      bits, i := bits + [quotient % 2 == 1], i + 1;
      quotient := quotient / 2;
    }
  }

  lemma StillRoom(n: nat, q: nat, i: nat)
    requires n < WORD && (q == 0 ==> i == 0) && Pow2(i) * q <= n
    ensures i < 32
  {
    Pow2Word();
    if i >= 32 {
      Pow2Grows(32, i);
      AtLeast(Pow2(i), q);
    }
  }

  lemma AtLeast(p: nat, q: nat)
    requires q >= 1
    ensures p * q >= p
  {
  }

  lemma HalveStep(bits: seq<bool>, q: nat)
    ensures var more := bits + [q % 2 == 1];
            Value(bits) + Pow2(|bits|) * q == Value(more) + Pow2(|more|) * (q / 2)
  {
    ValueAppends(bits, [q % 2 == 1]);
    assert Value([q % 2 == 1]) == q % 2;
    Halve(Pow2(|bits|), q % 2, q / 2);
  }

  lemma Halve(p: nat, r: nat, h: nat)
    ensures p * (r + 2 * h) == p * r + (2 * p) * h
  {
  }

  // ----- there and back

  /** Whatever form it was printed in, a number is read back; beyond 32 bits only its low word is. */
  method ReadBack(n: nat, msb: bool) returns (r: nat)
    ensures r == n % WORD
  {
    var s := Dtob(n, msb);
    Pow2Word();
    Pow2Grows(32, EXACT_BITS);
    r := Btoi(s);
  }

  // ----- words to a string

  /** How many words a signal takes and how many bits the last of them holds. */
  function WordsFor(size: nat): nat
    requires size >= 1
  {
    (size - 1) / 32 + 1
  }

  function TopBits(size: nat): (sz: nat)
    requires size >= 1
    ensures 1 <= sz <= 32
  {
    size - 32 * (WordsFor(size) - 1)
  }

  /** At most sz characters are taken over. */
  function Taken(s: string, sz: nat): string {
    if |s| <= sz then s else s[..sz]
  }

  lemma {:induction false} PrefixNum(s: string, k: nat)
    requires k <= |s| && Binary(s)
    ensures Num(s[..k]) <= Num(s)
    ensures k < |s| && Num(s) > 0 ==> Num(s[..k]) < Num(s)
  {
    if k < |s| {
      assert s[..|s| - 1][..k] == s[..k];
      PrefixNum(s[..|s| - 1], k);
    } else {
      assert s[..k] == s;
    }
  }

  /** What is taken over of the top word's digits writes that word exactly when it has no more bits than sz. */
  lemma TakenFits(s: string, sz: nat)
    requires Binary(s) && 1 <= sz && s != "" && (s == "0" || s[0] == '1')
    ensures Num(Taken(s, sz)) == Num(s) <==> Num(s) < Pow2(sz)
  {
    NumBounded(s);
    if |s| <= sz {
      Pow2Grows(|s|, sz);
    } else {
      NumAtLeast(s);
      Pow2Grows(sz, |s| - 1);
      Pow2Grows(0, sz);
      PrefixNum(s, sz);
    }
  }

  /** buf writes the words from i on, with top in place of the last. */
  ghost predicate Wrote(buf: string, ws: seq<nat>, i: nat, top: nat)
    requires i < |ws|
  {
    Num(buf) == Total(ws[i..|ws| - 1] + [top])
  }

  lemma WroteTop(buf: string, ws: seq<nat>)
    requires ws != []
    ensures Wrote(buf, ws, |ws| - 1, Num(buf))
  {
    var top := Num(buf);
    assert ws[|ws| - 1..|ws| - 1] + [top] == [top] && [top][1..] == [];
  }

  lemma WroteMore(buf: string, more: string, ws: seq<nat>, i: nat, top: nat)
    requires i + 1 < |ws| && Wrote(buf, ws, i + 1, top) && |more| == 32 && Num(more) == ws[i]
    ensures Wrote(buf + more, ws, i, top)
  {
    var rest := ws[i + 1..|ws| - 1] + [top];
    MoreWords(buf, more, ws[i], rest);
    assert [ws[i]] + rest == ws[i..|ws| - 1] + [top];
  }

  lemma WroteAll(buf: string, ws: seq<nat>, top: nat)
    requires ws != [] && Wrote(buf, ws, 0, top)
    ensures Num(buf) == Total(ws) <==> top == ws[|ws| - 1]
  {
    var front, last := ws[0..|ws| - 1], ws[|ws| - 1];
    assert ws == front + [last];
    TotalEnds(front, top, last);
  }

  /** Digits that write what the words make up have their bits, and the words have no others. */
  lemma WrittenBits(buf: string, ws: seq<nat>, i: nat)
    requires Binary(buf) && Num(buf) == Total(ws) && i < 32 * |ws| && forall k | 0 <= k < |ws| :: ws[k] < WORD
    ensures Bit(ws[i / 32], i % 32) <==> i < |buf| && buf[|buf| - 1 - i] == '1'
  {
    TotalBit(ws, i);
    if i < |buf| {
      NumBit(buf, i);
    } else {
      NumBounded(buf);
      NothingAbove(Num(buf), |buf|, i);
    }
  }

  /** The string handed to the simulator for a signal of size bits.  It writes the number that the words make
      up exactly when the last word has no more bits than the signal leaves for it. */
  method SetString(size: nat, value: array<nat>) returns (buf: string)
    requires size >= 1 && WordsFor(size) <= value.Length
    requires forall i | 0 <= i < WordsFor(size) :: value[i] < WORD
    ensures Num(buf) == Total(value[..WordsFor(size)]) <==> value[WordsFor(size) - 1] < Pow2(TopBits(size))
    ensures |buf| <= size && forall c | c in buf :: c == '0' || c == '1'
    ensures value[WordsFor(size) - 1] < Pow2(TopBits(size)) ==>
              forall i: nat | i < size :: i / 32 < value.Length
                && (Bit(value[i / 32], i % 32) <==> i < |buf| && buf[|buf| - 1 - i] == '1')
  {
    buf := Concatenated(size, value);
    ghost var ws := value[..WordsFor(size)];
    if Num(buf) == Total(ws) {
      forall i: nat | i < size
        ensures i / 32 < value.Length && (Bit(value[i / 32], i % 32) <==> i < |buf| && buf[|buf| - 1 - i] == '1')
      {
        WrittenBits(buf, ws, i);
      }
    }
  }

  method Concatenated(size: nat, value: array<nat>) returns (buf: string)
    requires size >= 1 && WordsFor(size) <= value.Length
    requires forall i | 0 <= i < WordsFor(size) :: value[i] < WORD
    ensures Num(buf) == Total(value[..WordsFor(size)]) <==> value[WordsFor(size) - 1] < Pow2(TopBits(size))
    ensures |buf| <= size && Binary(buf)
  {
    var max := WordsFor(size);
    ghost var ws := value[..max];
    var digits := Dtob(value[max - 1], true);
    buf := Taken(digits, TopBits(size));
    ghost var top := Num(buf);
    TakenFits(digits, TopBits(size));
    WroteTop(buf, ws);
    var i := max - 1;
    while i > 0
      invariant 0 <= i <= max - 1 && Wrote(buf, ws, i, top)
      invariant |buf| <= size - 32 * i && Binary(buf)
    {
      i := i - 1;
      var more := Dtob(value[i], false);
      WroteMore(buf, more, ws, i, top);
      buf := buf + more;
    }
    WroteAll(buf, ws, top);
  }

  // ----- a string to words

  /** The two bits that stand for a character: 0, 1, unknown or high impedance. */
  datatype VecVal = VecVal(aval: nat, bval: nat)

  predicate InRange(v: VecVal) {
    v.aval < WORD && v.bval < WORD
  }

  function Code(c: char): VecVal {
    match c
    case '0' => VecVal(0, 0)
    case '1' => VecVal(1, 0)
    case 'U' => VecVal(1, 1)
    case 'X' => VecVal(1, 1)
    case 'Z' => VecVal(0, 1)
    case _ => VecVal(1, 1)
  }

  /** One of the two planes of a value: the first, or the second. */
  function Field(v: VecVal, second: bool): nat {
    if second then v.bval else v.aval
  }

  function Fields(vs: seq<VecVal>, second: bool): (r: seq<nat>)
    ensures |r| == |vs| && forall i | 0 <= i < |vs| :: r[i] == Field(vs[i], second)
  {
    seq(|vs|, i requires 0 <= i < |vs| => Field(vs[i], second))
  }

  /** A string with each character replaced by its bit in a plane. */
  function Plane(s: string, second: bool): (r: string)
    ensures |r| == |s| && Binary(r)
    ensures forall i | 0 <= i < |s| :: r[i] == DigitOf(Field(Code(s[i]), second) == 1)
  {
    seq(|s|, i requires 0 <= i < |s| => DigitOf(Field(Code(s[i]), second) == 1))
  }

  /** What a word of a plane is after the bits of s were shifted into it. */
  function Shifted(was: nat, s: string, second: bool): nat {
    MovedUp(was, Pow2(|s|), Num(Plane(s, second)))
  }

  function MovedUp(was: nat, p: nat, n: nat): nat {
    (was * p + n) % WORD
  }

  lemma PlaneMore(s: string, c: char, second: bool)
    ensures Num(Plane(s + [c], second)) == 2 * Num(Plane(s, second)) + Field(Code(c), second)
  {
    var more := Plane(s + [c], second);
    assert more[..|more| - 1] == Plane(s, second);
    assert more[|s|] == DigitOf(Field(Code(c), second) == 1);
  }

  lemma DoubleMod(x: nat, b: nat)
    ensures (2 * (x % WORD) + b) % WORD == (2 * x + b) % WORD
  {
  }

  lemma ShiftOne(was: nat, s: string, c: char, second: bool)
    ensures Shifted(was, s + [c], second) == (2 * Shifted(was, s, second) + Field(Code(c), second)) % WORD
  {
    PlaneMore(s, c, second);
    Doubled(was, Pow2(|s|));
    DoubleMod(was * Pow2(|s|) + Num(Plane(s, second)), Field(Code(c), second));
  }

  method ShiftInto(value: array<VecVal>, at: nat, sub: string)
    requires at < value.Length && InRange(value[at])
    modifies value
    ensures forall k | 0 <= k < value.Length && k != at :: value[k] == old(value[k])
    ensures value[at].aval == Shifted(old(value[at]).aval, sub, false)
    ensures value[at].bval == Shifted(old(value[at]).bval, sub, true)
  {
    var j := 0;
    while j < |sub|
      invariant 0 <= j <= |sub|
      invariant forall k | 0 <= k < value.Length && k != at :: value[k] == old(value[k])
      invariant value[at].aval == Shifted(old(value[at]).aval, sub[..j], false)
      invariant value[at].bval == Shifted(old(value[at]).bval, sub[..j], true)
    {
      assert sub[..j + 1] == sub[..j] + [sub[j]];
      ShiftOne(old(value[at]).aval, sub[..j], sub[j], false);
      ShiftOne(old(value[at]).bval, sub[..j], sub[j], true);
      var v := value[at];
      value[at] := VecVal((2 * v.aval + Code(sub[j]).aval) % WORD, (2 * v.bval + Code(sub[j]).bval) % WORD);
      j := j + 1;
    }
    assert sub[..j] == sub;
  }

  lemma OutOfTheWay(x: int, n: nat)
    requires n < WORD
    ensures (x + n) % WORD == n <==> x % WORD == 0
  {
  }

  lemma RightIff(was: nat, p: nat, n: nat)
    requires n < WORD
    ensures MovedUp(was, p, n) == n <==> was * p % WORD == 0
  {
    OutOfTheWay(was * p, n);
  }

  lemma PlaneBounded(s: string, second: bool)
    requires |s| <= 32
    ensures Num(Plane(s, second)) < WORD
  {
    Pow2Word();
    Pow2Grows(|s|, 32);
    NumBounded(Plane(s, second));
  }

  /** Bits shifted in leave the value right exactly when what was there moves out of the word. */
  lemma ShiftedRight(was: nat, s: string, second: bool)
    requires |s| <= 32
    ensures Shifted(was, s, second) == Num(Plane(s, second)) <==> was * Pow2(|s|) % WORD == 0
  {
    PlaneBounded(s, second);
    RightIff(was, Pow2(|s|), Num(Plane(s, second)));
  }

  /** A whole word of bits shifts out whatever was there. */
  lemma WholeWord(was: nat, s: string, second: bool)
    requires |s| == 32
    ensures Shifted(was, s, second) == Num(Plane(s, second))
  {
    ShiftedRight(was, s, second);
    Pow2Word();
    Multiple(was);
  }

  lemma Multiple(x: nat)
    ensures x * WORD % WORD == 0
  {
  }

  /** v holds the bits of s. */
  ghost predicate Holds(v: VecVal, s: string) {
    v.aval == Num(Plane(s, false)) && v.bval == Num(Plane(s, true))
  }

  method ShiftInWord(value: array<VecVal>, at: nat, sub: string)
    requires at < value.Length && |sub| == 32 && InRange(value[at])
    modifies value
    ensures forall k | 0 <= k < value.Length && k != at :: value[k] == old(value[k])
    ensures Holds(value[at], sub)
  {
    WholeWord(value[at].aval, sub, false);
    WholeWord(value[at].bval, sub, true);
    ShiftInto(value, at, sub);
  }

  /** words hold, in one plane, the string up to pos but for its first sz characters. */
  ghost predicate PlaneRead(s: string, sz: nat, words: seq<VecVal>, pos: nat, second: bool)
    requires sz <= |s| && pos <= |s|
  {
    Num(Plane(s[..pos], second)) == Total(Fields(words, second) + [Num(Plane(s[..sz], second))])
  }

  lemma PlaneReadFirst(s: string, sz: nat, second: bool)
    requires sz <= |s|
    ensures PlaneRead(s, sz, [], sz, second)
  {
    var n := Num(Plane(s[..sz], second));
    assert Fields([], second) + [n] == [n];
    assert [n][1..] == [];
  }

  lemma PlaneReadMore(s: string, sz: nat, words: seq<VecVal>, pos: nat, w: VecVal, second: bool)
    requires sz <= |s| && pos + 32 <= |s| && PlaneRead(s, sz, words, pos, second)
    requires Field(w, second) == Num(Plane(s[pos..pos + 32], second))
    ensures PlaneRead(s, sz, [w] + words, pos + 32, second)
  {
    var rest := Fields(words, second) + [Num(Plane(s[..sz], second))];
    PlaneJoins(s, pos, second);
    MoreWords(Plane(s[..pos], second), Plane(s[pos..pos + 32], second), Field(w, second), rest);
    assert [Field(w, second)] + rest == Fields([w] + words, second) + [Num(Plane(s[..sz], second))];
  }

  lemma PlaneJoins(s: string, pos: nat, second: bool)
    requires pos + 32 <= |s|
    ensures Plane(s[..pos + 32], second) == Plane(s[..pos], second) + Plane(s[pos..pos + 32], second)
  {
  }

  /** In a plane the words make up the number of the string exactly when what the last word held before moves
      out of it. */
  ghost predicate ReadRight(s: string, words: seq<VecVal>, sz: nat, stale: VecVal, second: bool) {
    (Total(Fields(words, second)) == Num(Plane(s, second))) == (Field(stale, second) * Pow2(sz) % WORD == 0)
  }

  lemma ReadAll(s: string, sz: nat, words: seq<VecVal>, top: VecVal, stale: VecVal, second: bool)
    requires sz <= |s| && sz <= 32 && PlaneRead(s, sz, words, |s|, second)
    requires Field(top, second) == Shifted(Field(stale, second), s[..sz], second)
    ensures ReadRight(s, words + [top], sz, stale, second)
  {
    assert s[..|s|] == s;
    assert Fields(words + [top], second) == Fields(words, second) + [Field(top, second)];
    TotalEnds(Fields(words, second), Field(top, second), Num(Plane(s[..sz], second)));
    ShiftedRight(Field(stale, second), s[..sz], second);
  }

  /** The characters that belong to a word below the last: those of word k end 32 * k before the end. */
  function Share(s: string, k: nat): string
    requires 32 * k + 32 <= |s|
  {
    s[|s| - 32 * k - 32..|s| - 32 * k]
  }

  /** Every word below the last, the most significant first. */
  method OtherWords(s: string, value: array<VecVal>, max: nat)
    requires 1 <= max <= value.Length && 32 * (max - 1) <= |s|
    requires forall k | 0 <= k < value.Length :: InRange(value[k])
    modifies value
    ensures forall k | max - 1 <= k < value.Length :: value[k] == old(value[k])
    ensures forall k | 0 <= k < max - 1 :: Holds(value[k], Share(s, k))
  {
    var at, binVal := max - 1, s[|s| - 32 * (max - 1)..];
    while at > 0
      invariant 0 <= at <= max - 1 && binVal == s[|s| - 32 * at..]
      invariant forall k | 0 <= k < at :: InRange(value[k])
      invariant forall k | max - 1 <= k < value.Length :: value[k] == old(value[k])
      invariant forall k | at <= k < max - 1 :: Holds(value[k], Share(s, k))
    {
      at := at - 1;
      assert binVal[..32] == Share(s, at);
      ShiftInWord(value, at, binVal[..32]);
      binVal := binVal[32..];
    }
  }

  ghost predicate HasShare(s: string, w: VecVal, k: nat, second: bool)
    requires 32 * k + 32 <= |s|
  {
    Field(w, second) == Num(Plane(Share(s, k), second))
  }

  ghost predicate AllShares(s: string, words: seq<VecVal>, second: bool) {
    32 * |words| <= |s| && forall k | 0 <= k < |words| :: HasShare(s, words[k], k, second)
  }

  /** Words that hold their shares hold all of the string but its first sz characters; pos is where word at ends. */
  lemma {:induction false} SharesAreRead(s: string, sz: nat, words: seq<VecVal>, at: nat, pos: nat, second: bool)
    requires at <= |words| && |s| == sz + 32 * |words| && pos + 32 * at == |s| && AllShares(s, words, second)
    ensures PlaneRead(s, sz, words[at..], pos, second)
    decreases |words| - at
  {
    if at == |words| {
      PlaneReadFirst(s, sz, second);
      assert words[at..] == [];
    } else {
      SharesAreRead(s, sz, words, at + 1, pos - 32, second);
      assert HasShare(s, words[at], at, second);
      NextShare(s, sz, words, at, pos - 32, second);
    }
  }

  lemma NextShare(s: string, sz: nat, words: seq<VecVal>, at: nat, pos: nat, second: bool)
    requires at < |words| && sz <= |s| && pos + 32 * at + 32 == |s| && HasShare(s, words[at], at, second)
    requires PlaneRead(s, sz, words[at + 1..], pos, second)
    ensures PlaneRead(s, sz, words[at..], pos + 32, second)
  {
    assert Share(s, at) == s[pos..pos + 32];
    PlaneReadMore(s, sz, words[at + 1..], pos, words[at], second);
    assert words[at..] == [words[at]] + words[at + 1..];
  }

  lemma AllSharesRead(s: string, sz: nat, value: seq<VecVal>, stale: VecVal, second: bool)
    requires value != [] && |s| == sz + 32 * (|value| - 1) && sz <= 32
    requires forall k | 0 <= k < |value| - 1 :: Holds(value[k], Share(s, k))
    requires Field(value[|value| - 1], second) == Shifted(Field(stale, second), s[..sz], second)
    ensures ReadRight(s, value, sz, stale, second)
  {
    var words, top := value[..|value| - 1], value[|value| - 1];
    assert value == words + [top];
    forall k | 0 <= k < |words| ensures HasShare(s, words[k], k, second) {
      assert Holds(value[k], Share(s, k));
    }
    SharesAreRead(s, sz, words, 0, |s|, second);
    assert words[0..] == words;
    ReadAll(s, sz, words, top, stale, second);
  }

  /** What a character puts into the two planes. */
  lemma CodeIs(c: char)
    ensures Code(c).aval == if c == '0' || c == 'Z' then 0 else 1
    ensures Code(c).bval == if c == '0' || c == '1' then 0 else 1
  {
  }

  lemma MovedBit(was: nat, m: nat, n: nat, j: nat)
    requires j < m <= 32
    ensures Bit(MovedUp(was, Pow2(m), n), j) == Bit(n, j)
  {
    WordBit(was * Pow2(m) + n, j);
    assert was * Pow2(m) == Pow2(m) * was;
    LowBit(n, was, j, m);
  }

  lemma PlaneBit(s: string, second: bool, j: nat)
    requires j < |s|
    ensures var c := s[|s| - 1 - j];
            Bit(Num(Plane(s, second)), j) <==> if second then c != '0' && c != '1' else c != '0' && c != 'Z'
  {
    CodeIs(s[|s| - 1 - j]);
    NumBit(Plane(s, second), j);
  }

  /** The bits of a word are those of the characters last shifted into it, whatever it held before. */
  lemma ShiftedBit(was: nat, s: string, second: bool, j: nat)
    requires j < |s| <= 32
    ensures var c := s[|s| - 1 - j];
            Bit(Shifted(was, s, second), j) <==> if second then c != '0' && c != '1' else c != '0' && c != 'Z'
  {
    MovedBit(was, |s|, Num(Plane(s, second)), j);
    PlaneBit(s, second, j);
  }

  /** v holds the last |t| bits in t, read as unknown, high impedance, one or zero. */
  ghost predicate HoldsBits(v: VecVal, t: string) {
    forall j: nat | j < |t| :: var c := t[|t| - 1 - j];
      && (Bit(v.aval, j) <==> c != '0' && c != 'Z')
      && (Bit(v.bval, j) <==> c != '0' && c != '1')
  }

  lemma ShiftedHolds(was: VecVal, v: VecVal, t: string)
    requires |t| <= 32 && v.aval == Shifted(was.aval, t, false) && v.bval == Shifted(was.bval, t, true)
    ensures HoldsBits(v, t)
  {
    forall j: nat | j < |t|
      ensures var c := t[|t| - 1 - j];
              (Bit(v.aval, j) <==> c != '0' && c != 'Z') && (Bit(v.bval, j) <==> c != '0' && c != '1')
    {
      ShiftedBit(was.aval, t, false, j);
      ShiftedBit(was.bval, t, true, j);
    }
  }

  lemma WholeHolds(v: VecVal, t: string)
    requires |t| == 32 && Holds(v, t)
    ensures HoldsBits(v, t)
  {
    WholeWord(0, t, false);
    WholeWord(0, t, true);
    ShiftedHolds(VecVal(0, 0), v, t);
  }

  /** Every character is found in its place, the last one in bit 0 of the first word: the second plane is set for
      what is neither 0 nor 1, and the first for what is neither 0 nor high impedance. */
  ghost predicate BitsRead(s: string, words: seq<VecVal>)
    requires |s| <= 32 * |words|
  {
    forall i: nat | i < |s| :: var c := s[|s| - 1 - i];
      && (Bit(words[i / 32].aval, i % 32) <==> c != '0' && c != 'Z')
      && (Bit(words[i / 32].bval, i % 32) <==> c != '0' && c != '1')
  }

  lemma ReadBit(s: string, value: seq<VecVal>, sz: nat, i: nat)
    requires value != [] && |s| == sz + 32 * (|value| - 1) && 1 <= sz <= 32 && i < |s|
    requires forall k | 0 <= k < |value| - 1 :: Holds(value[k], Share(s, k))
    requires HoldsBits(value[|value| - 1], s[..sz])
    ensures var c := s[|s| - 1 - i];
            && (Bit(value[i / 32].aval, i % 32) <==> c != '0' && c != 'Z')
            && (Bit(value[i / 32].bval, i % 32) <==> c != '0' && c != '1')
  {
    var k, j := i / 32, i % 32;
    if k < |value| - 1 {
      WholeHolds(value[k], Share(s, k));
      assert Share(s, k)[32 - 1 - j] == s[|s| - 1 - i];
    } else {
      assert s[..sz][sz - 1 - j] == s[|s| - 1 - i];
    }
  }

  lemma AllBitsRead(s: string, value: seq<VecVal>, sz: nat)
    requires value != [] && |s| == sz + 32 * (|value| - 1) && 1 <= sz <= 32
    requires forall k | 0 <= k < |value| - 1 :: Holds(value[k], Share(s, k))
    requires HoldsBits(value[|value| - 1], s[..sz])
    ensures BitsRead(s, value)
  {
    forall i: nat | i < |s|
      ensures var c := s[|s| - 1 - i];
              && (Bit(value[i / 32].aval, i % 32) <==> c != '0' && c != 'Z')
              && (Bit(value[i / 32].bval, i % 32) <==> c != '0' && c != '1')
    {
      ReadBit(s, value, sz, i);
    }
  }

  /** The words that a signal's string is read into. */
  method GetString(size: nat, s: string, value: array<VecVal>)
    requires size >= 1 && |s| == size && WordsFor(size) <= value.Length
    requires forall k | 0 <= k < value.Length :: InRange(value[k])
    modifies value
    ensures forall k | WordsFor(size) <= k < value.Length :: value[k] == old(value[k])
    ensures ReadRight(s, value[..WordsFor(size)], TopBits(size), old(value[WordsFor(size) - 1]), false)
    ensures ReadRight(s, value[..WordsFor(size)], TopBits(size), old(value[WordsFor(size) - 1]), true)
    ensures BitsRead(s, value[..WordsFor(size)])
  {
    var max, sz := WordsFor(size), TopBits(size);
    ghost var stale := value[max - 1];
    ShiftInto(value, max - 1, s[..sz]);
    OtherWords(s, value, max);
    WordsRead(s, value[..max], stale, sz);
  }

  lemma WordsRead(s: string, value: seq<VecVal>, stale: VecVal, sz: nat)
    requires value != [] && |s| == sz + 32 * (|value| - 1) && 1 <= sz <= 32
    requires forall k | 0 <= k < |value| - 1 :: Holds(value[k], Share(s, k))
    requires value[|value| - 1].aval == Shifted(stale.aval, s[..sz], false)
    requires value[|value| - 1].bval == Shifted(stale.bval, s[..sz], true)
    ensures ReadRight(s, value, sz, stale, false) && ReadRight(s, value, sz, stale, true) && BitsRead(s, value)
  {
    AllSharesRead(s, sz, value, stale, false);
    AllSharesRead(s, sz, value, stale, true);
    ShiftedHolds(stale, value[|value| - 1], s[..sz]);
    AllBitsRead(s, value, sz);
  }

  /** A zeroed buffer is always read into right. */
  lemma ZeroedIsRight(s: string, words: seq<VecVal>, sz: nat, second: bool)
    requires ReadRight(s, words, sz, VecVal(0, 0), second)
    ensures Total(Fields(words, second)) == Num(Plane(s, second))
  {
    assert Field(VecVal(0, 0), second) * Pow2(sz) == 0;
  }

  lemma {:induction false} TwoStatePlanes(s: string)
    requires Binary(s)
    ensures Plane(s, false) == s && Num(Plane(s, true)) == 0
  {
    if s != "" {
      TwoStatePlanes(s[..|s| - 1]);
      PlaneMore(s[..|s| - 1], s[|s| - 1], true);
      assert s == s[..|s| - 1] + [s[|s| - 1]];
    }
  }
}
