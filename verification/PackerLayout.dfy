/** Where every bit goes: in the buffer, in the exported words and in the packed items, by position. */
module PackerLayout {
  import opened Sequences
  import opened Bits
  import opened PackerModel
  import opened PackerRoundTrip

  // ----- the buffer

  /** What is packed after a flush stands from bit 64 on, as far as the 32768 bits reach; the export begins there. */
  lemma BufferLayout(bigEndian: bool, useMetadata: bool, s: BitString, i: nat)
    ensures var p := Written(PackerState(bigEndian, useMetadata, Zeros(CAPACITY), HEADER, HEADER), s);
            && |p.bits| == 32768 && p.packIter == 64 + |s| && p.unpackIter == 64
            && (i < 32768 ==> p.bits[i] == (64 <= i < 64 + |s| && s[i - 64]))
            && |Payload(p)| == |s| && (i < |s| ==> Payload(p)[i] == (i < 32704 && s[i]))
  {
  }

  /** Nothing is lost exactly if no bit from 32704 on is set; in particular if there is none. */
  lemma RoomFor(s: BitString)
    ensures NothingLost(s) <==> forall i | 32704 <= i < |s| :: !s[i]
    ensures |s| <= 32704 ==> NothingLost(s)
  {
  }

  /** An imported stream is read from its first bit on, with zeros beyond the 32768 bits. */
  lemma StreamLayout(s: BitString, i: nat)
    requires i < |s|
    ensures Stored(s)[i] == (i < 32768 && s[i])
  {
  }

  // ----- words

  /** Bit j of the stretch that word k is made of: its bit j, or, in the other order, its bit j from the top; bits
      beyond the payload are zero. */
  lemma {:induction false} WordsAt(payload: BitString, n: nat, width: nat, bigEndian: bool, k: nat, j: nat)
    requires k < n && j < width
    ensures Words(payload, n, width, bigEndian)[k][if bigEndian then width - 1 - j else j]
         == (k * width + j < |payload| && payload[k * width + j])
  {
    if k < n - 1 { WordsAt(payload, n - 1, width, bigEndian, k, j); }
  }

  lemma ExportAt(payload: BitString, width: nat, bigEndian: bool, k: nat, j: nat)
    requires width > 0 && j < width
    ensures |Export(payload, width, bigEndian)| == (|payload| + width - 1) / width
    ensures k < |Export(payload, width, bigEndian)| ==>
              Export(payload, width, bigEndian)[k][if bigEndian then width - 1 - j else j]
              == (k * width + j < |payload| && payload[k * width + j])
  {
    if k < Chunks(|payload|, width) { WordsAt(payload, Chunks(|payload|, width), width, bigEndian, k, j); }
  }

  lemma {:induction false} ImportAt(words: seq<BitString>, width: nat, bigEndian: bool, k: nat, j: nat)
    requires AllOfWidth(words, width) && k < |words| && j < width
    ensures |Import(words, bigEndian)| == |words| * width && 0 <= k * width + j < |words| * width
    ensures Import(words, bigEndian)[k * width + j] == words[k][if bigEndian then width - 1 - j else j]
  {
    var front, last := words[..|words| - 1], words[|words| - 1];
    ImportLength(words, width, bigEndian);
    ImportLength(front, width, bigEndian);
    Within(k, j, |words|, width);
    if k < |front| {
      Within(k, j, |front|, width);
      ImportAt(front, width, bigEndian, k, j);
      InFront(Import(front, bigEndian), Ordered(last, bigEndian), k * width + j);
    } else {
      Behind(Import(front, bigEndian), Ordered(last, bigEndian), j);
    }
  }

  lemma InFront<T>(a: seq<T>, b: seq<T>, i: nat)
    requires i < |a|
    ensures (a + b)[i] == a[i]
  {
  }

  lemma Behind<T>(a: seq<T>, b: seq<T>, j: nat)
    requires j < |b|
    ensures (a + b)[|a| + j] == b[j]
  {
  }

  lemma Within(k: nat, j: nat, n: nat, width: nat)
    requires k < n && j < width
    ensures 0 <= k * width + j < n * width
  {
    assert (k + 1) * width <= n * width;
  }

  // ----- items

  /** A field: its low bits first, or its top one, with zeros beyond the value. */
  lemma FieldLayout(value: BitString, size: nat, bigEndian: bool, useMetadata: bool, i: nat)
    requires i < size
    ensures var bits := ItemBits(Field(value, size), bigEndian, useMetadata);
            var at := if bigEndian then size - 1 - i else i;
            |bits| == size && bits[i] == (at < |value| && value[at])
  {
  }

  /** An array of bits: as many as its size asks for, all of them if it is negative and none if there are too few,
      the first one first or last. */
  lemma ArrayLayout(whole: BitString, count: int, bigEndian: bool, i: nat)
    ensures var n := if count < 0 then |whole| else count;
            var bits := ArrayBits(whole, count, bigEndian);
            && |bits| == (if n > |whole| then 0 else n)
            && (i < |bits| ==> bits[i] == whole[if bigEndian then n - 1 - i else i])
  {
  }

  /** An array of bytes or ints is the array of their bits, the lowest bit of the first word first. */
  lemma WordArrayLayout(words: seq<BitString>, count: int, bigEndian: bool, useMetadata: bool)
    ensures ItemBits(ByteArray(words, count), bigEndian, useMetadata)
         == ItemBits(BitArray(Flatten(words), count), bigEndian, useMetadata)
    ensures ItemBits(IntArray(words, count), bigEndian, useMetadata)
         == ItemBits(BitArray(Flatten(words), count), bigEndian, useMetadata)
  {
  }

  lemma FlatLayout(words: seq<BitString>, width: nat, k: nat, j: nat)
    requires AllOfWidth(words, width) && k < |words| && j < width
    ensures |Flatten(words)| == |words| * width && 0 <= k * width + j < |words| * width
    ensures Flatten(words)[k * width + j] == words[k][j]
  {
    FlattenLength(words, width);
    Within(k, j, |words|, width);
    FlattenAt(words, width, k * width + j);
    DivUnique(k * width + j, k, j, width);
  }

  /** A string: eight bits for each character, the first one first, each in the chosen order, then eight zeros if
      there is metadata. */
  lemma {:induction false} CharsLayout(text: seq<BitString>, bigEndian: bool, k: nat, j: nat)
    requires AllOfWidth(text, 8) && k < |text| && j < 8
    ensures |StringBits(text, bigEndian)| == 8 * |text|
    ensures StringBits(text, bigEndian)[8 * k + j] == text[k][if bigEndian then 7 - j else j]
  {
    CharsLength(text, bigEndian);
    CharsLength(text[1..], bigEndian);
    if k > 0 {
      CharsLayout(text[1..], bigEndian, k - 1, j);
      assert 8 * k + j == 8 + (8 * (k - 1) + j);
    }
  }

  lemma {:induction false} CharsLength(text: seq<BitString>, bigEndian: bool)
    requires AllOfWidth(text, 8)
    ensures |StringBits(text, bigEndian)| == 8 * |text|
  {
    if text != [] { CharsLength(text[1..], bigEndian); }
  }

  lemma StringLayout(text: seq<BitString>, bigEndian: bool, useMetadata: bool, k: nat, j: nat)
    requires AllOfWidth(text, 8) && k <= |text| && j < 8
    ensures var bits := ItemBits(Text(text), bigEndian, useMetadata);
            && |bits| == 8 * |text| + (if useMetadata then 8 else 0)
            && (k < |text| ==> bits[8 * k + j] == text[k][if bigEndian then 7 - j else j])
            && (k == |text| && useMetadata ==> !bits[8 * k + j])
  {
    CharsLength(text, bigEndian);
    if k < |text| { CharsLayout(text, bigEndian, k, j); }
  }

  /** Items stand one behind the other, in the order they are packed. */
  lemma {:induction false} ItemsLayout(before: seq<Item>, later: seq<Item>, bigEndian: bool, useMetadata: bool)
    ensures Packed(before + later, bigEndian, useMetadata)
         == Packed(before, bigEndian, useMetadata) + Packed(later, bigEndian, useMetadata)
  {
    if before == [] {
      assert [] + later == later;
    } else {
      ItemsLayout(before[1..], later, bigEndian, useMetadata);
      assert (before + later)[1..] == before[1..] + later;
      Regroup(ItemBits(before[0], bigEndian, useMetadata), Packed(before[1..], bigEndian, useMetadata),
              Packed(later, bigEndian, useMetadata));
    }
  }

  lemma OneItem(item: Item, bigEndian: bool, useMetadata: bool)
    ensures Packed([item], bigEndian, useMetadata) == ItemBits(item, bigEndian, useMetadata)
  {
    assert [item][1..] == [];
    assert ItemBits(item, bigEndian, useMetadata) + [] == ItemBits(item, bigEndian, useMetadata);
  }

  // ----- reading

  /** A field is read from the next bits, in the chosen order; if there are too few it is zero and none is taken. */
  lemma FieldReads(s: BitString, n: nat, bigEndian: bool, i: nat)
    ensures var (item, taken) := ReadItem(FieldOf(n), s, bigEndian);
            && item.Field? && item.size == n && |item.value| == n && taken == (if |s| < n then 0 else n)
            && (i < n ==> item.value[i] == (|s| >= n && s[if bigEndian then n - 1 - i else i]))
  {
  }

  /** An array of zeros gets the next bits; if it is too short, or they are too few, it stays and none is taken. */
  lemma ArrayReads(length: nat, count: int, s: BitString, bigEndian: bool, i: nat)
    requires i < length
    ensures var (bits, taken) := FillArray(length, count, s, bigEndian);
            var n := if count < 0 then length else count;
            && |bits| == length && taken == (if n > length || n > |s| then 0 else n)
            && bits[i] == (i < taken && s[if bigEndian then n - 1 - i else i])
  {
  }

  lemma FirstChar(s: BitString, bigEndian: bool)
    requires |s| >= 8 && s[..8] != Zeros(8)
    ensures ReadChars(s, bigEndian) == [Ordered(s[..8], bigEndian)] + ReadChars(s[8..], bigEndian)
    ensures Ordered(s[..8], bigEndian) != Zeros(8)
    ensures forall j | 0 <= j < 8 :: Ordered(s[..8], bigEndian)[j] == s[if bigEndian then 7 - j else j]
  {
    OrderedZero(s[..8], bigEndian);
  }

  /** The characters of a string are read from eight bits each, in the chosen order, and none of them is zero. */
  lemma {:induction false} StringReads(s: BitString, bigEndian: bool, k: nat, j: nat)
    requires k < |ReadChars(s, bigEndian)| && j < 8
    ensures var c := ReadChars(s, bigEndian)[k];
            && |c| == 8 && c != Zeros(8) && 8 * k + 8 <= |s|
            && c[j] == s[8 * k + if bigEndian then 7 - j else j]
  {
    FirstChar(s, bigEndian);
    if k > 0 {
      StringReads(s[8..], bigEndian, k - 1, j);
      assert ReadChars(s, bigEndian)[k] == ReadChars(s[8..], bigEndian)[k - 1];
    }
  }

  /** It is read up to the first eight zeros that stand where a character could, or until there are fewer than eight
      bits left. */
  lemma {:induction false} StringEnds(s: BitString, bigEndian: bool)
    ensures var n := 8 * |ReadChars(s, bigEndian)|;
            n <= |s| && (|s| - n < 8 || s[n..n + 8] == Zeros(8))
  {
    if |s| >= 8 && s[..8] != Zeros(8) {
      FirstChar(s, bigEndian);
      StringEnds(s[8..], bigEndian);
      var n := 8 * |ReadChars(s[8..], bigEndian)|;
      if |s[8..]| - n >= 8 { assert s[8..][n..n + 8] == s[n + 8..n + 16]; }
    }
  }

  /** And with it the eight zeros behind it are taken, if there are eight bits. */
  lemma StringTakes(s: BitString, bigEndian: bool)
    ensures var (item, taken) := ReadItem(Terminated, s, bigEndian);
            && item == Text(ReadChars(s, bigEndian)) && 8 * |item.chars| <= |s|
            && taken == 8 * |item.chars| + if |s| - 8 * |item.chars| >= 8 then 8 else 0
  {
  }
}
