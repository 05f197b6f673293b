/** What the compatibility packer stores and reads back, as functions on its bit buffer. */
module PackerModel {
  import opened Sequences
  import opened Bits

  /** 4096 bytes of bits; a write beyond them has no effect, and a read there gives zero. */
  const CAPACITY := 32768

  /** The first bits are kept free for the iterators of the newer packer. */
  const HEADER := 64

  datatype PackerState =
    PackerState(bigEndian: bool, useMetadata: bool, bits: BitString, packIter: nat, unpackIter: nat)

  function Window(bits: BitString, from: nat, n: nat): (w: BitString)
    ensures |w| == n
  {
    seq(n, i requires 0 <= i => from + i < |bits| && bits[from + i])
  }

  /** What has been packed since the last flush. */
  function Payload(p: PackerState): BitString
    requires p.packIter >= HEADER
  {
    Window(p.bits, HEADER, p.packIter - HEADER)
  }

  /** What is left to unpack. */
  function Rest(p: PackerState): BitString
    requires p.unpackIter <= p.packIter
  {
    Window(p.bits, p.unpackIter, p.packIter - p.unpackIter)
  }

  function Overwrite(bits: BitString, at: nat, s: BitString): (r: BitString)
    ensures |r| == |bits|
  {
    seq(|bits|, i requires 0 <= i < |bits| => if at <= i < at + |s| then s[i - at] else bits[i])
  }

  function Written(p: PackerState, s: BitString): PackerState {
    p.(bits := Overwrite(p.bits, p.packIter, s), packIter := p.packIter + |s|)
  }

  function Taken(p: PackerState, n: nat): PackerState {
    p.(unpackIter := p.unpackIter + n)
  }

  /** The order a value's bits go into the buffer in. */
  function Ordered(s: BitString, bigEndian: bool): (r: BitString)
    ensures |r| == |s|
  {
    if bigEndian then Reverse(s) else s
  }

  /** A bit string whose first bits have been replaced by w, in the order it is read. */
  function Mixed(w: BitString, bigEndian: bool, was: BitString): (r: BitString)
    requires |w| <= |was|
    ensures |r| == |was|
  {
    Ordered(w, bigEndian) + was[|w|..]
  }

  lemma OrderedTwice(s: BitString, bigEndian: bool)
    ensures Ordered(Ordered(s, bigEndian), bigEndian) == s
  {
    ReverseTwice(s);
  }

  /** Writing appends to the payload, as long as the buffer has room. */
  lemma WrittenAppends(p: PackerState, s: BitString)
    requires HEADER <= p.packIter && p.packIter + |s| <= |p.bits|
    ensures Payload(Written(p, s)) == Payload(p) + s
  {}

  /** Taking bits takes them from the front of what is left. */
  lemma TakenIsFront(p: PackerState, n: nat)
    requires p.unpackIter + n <= p.packIter
    ensures Rest(p)[..n] == Window(p.bits, p.unpackIter, n) && Rest(p)[n..] == Rest(Taken(p, n))
  {}

  lemma WrittenNothing(p: PackerState)
    ensures Written(p, []) == p
  {
    assert Overwrite(p.bits, p.packIter, []) == p.bits;
  }

  /** What the buffer keeps of a stream: zeros are read beyond its end. */
  function Stored(s: BitString): (r: BitString)
    ensures |r| == |s| && (|s| <= CAPACITY ==> r == s)
  {
    seq(|s|, i requires 0 <= i < |s| => i < CAPACITY && s[i])
  }

  lemma StoredMore(p: PackerState, s: BitString, t: BitString)
    requires |p.bits| == CAPACITY && p.unpackIter == 0 && p.packIter == |s| && Rest(p) == Stored(s)
    ensures Rest(Written(p, t)) == Stored(s + t)
  {
    var q := Written(p, t);
    forall i | 0 <= i < |s| + |t| ensures Rest(q)[i] == Stored(s + t)[i] {
      if i < |s| { assert Rest(p)[i] == Stored(s)[i]; }
    }
  }

  lemma WrittenTwice(p: PackerState, s: BitString, t: BitString)
    ensures Written(Written(p, s), t) == Written(p, s + t)
  {}

  // ----- characters and strings

  const BYTE := 8

  predicate IsByte(b: BitString) {
    |b| == BYTE
  }

  function StringBits(text: seq<BitString>, bigEndian: bool): BitString {
    if text == [] then [] else Ordered(text[0], bigEndian) + StringBits(text[1..], bigEndian)
  }

  lemma {:induction false} StringBitsAppend(text: seq<BitString>, c: BitString, bigEndian: bool)
    ensures StringBits(text + [c], bigEndian) == StringBits(text, bigEndian) + Ordered(c, bigEndian)
  {
    if text == [] {
      assert text + [c] == [c] && [c][1..] == [];
      assert StringBits([], bigEndian) == [];
    } else {
      StringBitsAppend(text[1..], c, bigEndian);
      assert (text + [c])[1..] == text[1..] + [c];
      Regroup(Ordered(text[0], bigEndian), StringBits(text[1..], bigEndian), Ordered(c, bigEndian));
    }
  }

  function TextBits(text: seq<BitString>, bigEndian: bool, useMetadata: bool): BitString {
    StringBits(text, bigEndian) + if useMetadata then Zeros(BYTE) else []
  }

  /** Characters are read up to a zero byte, or until fewer than eight bits are left. */
  function ReadChars(s: BitString, bigEndian: bool): (text: seq<BitString>)
    ensures |text| * BYTE <= |s|
  {
    if |s| < BYTE || s[..BYTE] == Zeros(BYTE) then []
    else [Ordered(s[..BYTE], bigEndian)] + ReadChars(s[BYTE..], bigEndian)
  }

  /** The bits a string takes up: its characters and, if they are there, the eight bits behind them. */
  function ReadLength(s: BitString, bigEndian: bool): (n: nat)
    ensures n <= |s|
  {
    var n := |ReadChars(s, bigEndian)| * BYTE;
    if |s| - n >= BYTE then n + BYTE else n
  }

  // ----- export and import

  /** The word sizes there is an export for: byte, int and longint. */
  predicate StreamWidth(width: nat) {
    width == 8 || width == 32 || width == 64
  }

  function Chunks(n: nat, width: nat): nat
    requires width > 0
  {
    (n + width - 1) / width
  }

  /** The payload filled up with zeros to a whole number of words. */
  function Padded(payload: BitString, width: nat): BitString
    requires width > 0
  {
    Window(payload, 0, Chunks(|payload|, width) * width)
  }

  /** The first n words of `width` bits. */
  function Words(payload: BitString, n: nat, width: nat, bigEndian: bool): (words: seq<BitString>)
    ensures |words| == n && AllOfWidth(words, width)
  {
    if n == 0 then []
    else Words(payload, n - 1, width, bigEndian) + [Ordered(Window(payload, (n - 1) * width, width), bigEndian)]
  }

  function Export(payload: BitString, width: nat, bigEndian: bool): seq<BitString>
    requires width > 0
  {
    Words(payload, Chunks(|payload|, width), width, bigEndian)
  }

  function Import(words: seq<BitString>, bigEndian: bool): BitString {
    if words == [] then [] else Import(words[..|words| - 1], bigEndian) + Ordered(words[|words| - 1], bigEndian)
  }

  lemma PaddedIsPayload(payload: BitString, width: nat)
    requires width > 0
    ensures var n := |Padded(payload, width)| - |payload|;
            0 <= n < width && Padded(payload, width) == payload + Zeros(n)
  {
    ChunksCover(|payload|, width);
  }

  lemma WindowJoin(payload: BitString, m: nat, n: nat)
    ensures Window(payload, 0, m + n) == Window(payload, 0, m) + Window(payload, m, n)
  {}

  lemma ImportSnoc(words: seq<BitString>, w: BitString, bigEndian: bool)
    ensures Import(words + [w], bigEndian) == Import(words, bigEndian) + Ordered(w, bigEndian)
  {
    assert (words + [w])[..|words|] == words;
  }

  lemma {:induction false} ImportLength(words: seq<BitString>, width: nat, bigEndian: bool)
    requires AllOfWidth(words, width)
    ensures |Import(words, bigEndian)| == |words| * width
  {
    if words != [] {
      ImportLength(words[..|words| - 1], width, bigEndian);
      OneMore(|words|, width);
    }
  }

  lemma {:induction false} ImportOfWords(payload: BitString, n: nat, width: nat, bigEndian: bool)
    ensures Import(Words(payload, n, width, bigEndian), bigEndian) == Window(payload, 0, n * width)
  {
    if n > 0 {
      ImportOfWords(payload, n - 1, width, bigEndian);
      OneMore(n, width);
      ImportOneMore(payload, Words(payload, n - 1, width, bigEndian), (n - 1) * width, width, bigEndian);
    }
  }

  lemma ImportOneMore(payload: BitString, words: seq<BitString>, m: nat, width: nat, bigEndian: bool)
    requires Import(words, bigEndian) == Window(payload, 0, m)
    ensures Import(words + [Ordered(Window(payload, m, width), bigEndian)], bigEndian) == Window(payload, 0, m + width)
  {
    ImportSnoc(words, Ordered(Window(payload, m, width), bigEndian), bigEndian);
    OrderedTwice(Window(payload, m, width), bigEndian);
    WindowJoin(payload, m, width);
  }

  /** Importing what was exported gives the payload back, with less than a word of zeros behind it. */
  lemma ImportOfExport(payload: BitString, width: nat, bigEndian: bool)
    requires width > 0
    ensures var back := Import(Export(payload, width, bigEndian), bigEndian);
            && |payload| <= |back| < |payload| + width
            && back == payload + Zeros(|back| - |payload|)
  {
    ImportOfWords(payload, Chunks(|payload|, width), width, bigEndian);
    PaddedIsPayload(payload, width);
  }

  lemma ChunksCover(n: nat, width: nat)
    requires width > 0
    ensures n <= Chunks(n, width) * width < n + width
  {
    var m := n + width - 1;
    assert m == m / width * width + m % width;
  }
}
