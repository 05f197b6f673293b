/** Whatever is packed comes back: through any of the exports, in either bit order. */
module PackerRoundTrip {
  import opened Sequences
  import opened Bits
  import opened PackerModel

  /** One pack call.  The size of an array counts bits; a negative one stands for the whole array. */
  datatype Item =
    | Field(value: BitString, size: nat)
    | BitArray(bits: BitString, count: int)
    | ByteArray(bytes: seq<BitString>, count: int)
    | IntArray(ints: seq<BitString>, count: int)
    | Text(chars: seq<BitString>)

  /** What the reader has to know: the size of a field, the length of an array that it supplies and how many
      bits of it to fill; a string brings its own end. */
  datatype Shape =
    | FieldOf(size: nat)
    | BitsOf(length: nat, count: int)
    | BytesOf(length: nat, count: int)
    | IntsOf(length: nat, count: int)
    | Terminated

  function ShapeOf(item: Item): Shape {
    match item
    case Field(_, size) => FieldOf(size)
    case BitArray(bits, count) => BitsOf(|bits|, count)
    case ByteArray(bytes, count) => BytesOf(|bytes|, count)
    case IntArray(ints, count) => IntsOf(|ints|, count)
    case Text(_) => Terminated
  }

  predicate ZeroFree(text: seq<BitString>) {
    forall i | 0 <= i < |text| :: IsByte(text[i]) && text[i] != Zeros(BYTE)
  }

  /** Bytes have 8 bits and ints 32; strings have no zero byte inside. */
  predicate Packable(item: Item) {
    match item
    case ByteArray(bytes, _) => AllOfWidth(bytes, 8)
    case IntArray(ints, _) => AllOfWidth(ints, 32)
    case Text(chars) => ZeroFree(chars)
    case _ => true
  }

  predicate AllPackable(items: seq<Item>) {
    forall i | 0 <= i < |items| :: Packable(items[i])
  }

  /** The bits that a size asks for. */
  function Wanted(length: nat, count: int): nat {
    if count < 0 then length else count
  }

  /** What goes into the buffer for an array; a size beyond it is refused. */
  function ArrayBits(whole: BitString, count: int, bigEndian: bool): BitString {
    var n := Wanted(|whole|, count);
    if n > |whole| then [] else Ordered(whole[..n], bigEndian)
  }

  function ItemBits(item: Item, bigEndian: bool, useMetadata: bool): BitString {
    match item
    case Field(value, size) => Ordered(Window(value, 0, size), bigEndian)
    case BitArray(bits, count) => ArrayBits(bits, count, bigEndian)
    case ByteArray(bytes, count) => ArrayBits(Flatten(bytes), count, bigEndian)
    case IntArray(ints, count) => ArrayBits(Flatten(ints), count, bigEndian)
    case Text(chars) => TextBits(chars, bigEndian, useMetadata)
  }

  function Packed(items: seq<Item>, bigEndian: bool, useMetadata: bool): BitString {
    if items == [] then [] else ItemBits(items[0], bigEndian, useMetadata) + Packed(items[1..], bigEndian, useMetadata)
  }

  /** How an array of zeros is filled from what is left, and how many bits that takes; a size beyond the array
      is refused, and too few bits left change nothing. */
  function FillArray(length: nat, count: int, s: BitString, bigEndian: bool): (r: (BitString, nat))
    ensures |r.0| == length && r.1 <= |s|
  {
    var n := Wanted(length, count);
    if n > length || n > |s| then (Zeros(length), 0) else (Mixed(s[..n], bigEndian, Zeros(length)), n)
  }

  /** One unpack call: what it returns and how many bits it takes. */
  function ReadItem(shape: Shape, s: BitString, bigEndian: bool): (Item, nat) {
    match shape
    case FieldOf(n) =>
      if |s| < n then (Field(Zeros(n), n), 0) else (Field(Ordered(s[..n], bigEndian), n), n)
    case BitsOf(length, count) =>
      var (bits, n) := FillArray(length, count, s, bigEndian);
      (BitArray(bits, count), n)
    case BytesOf(length, count) =>
      var (bits, n) := FillArray(length * 8, count, s, bigEndian);
      (ByteArray(Chop(bits, 8, length), count), n)
    case IntsOf(length, count) =>
      var (bits, n) := FillArray(length * 32, count, s, bigEndian);
      (IntArray(Chop(bits, 32, length), count), n)
    case Terminated => (Text(ReadChars(s, bigEndian)), ReadLength(s, bigEndian))
  }

  lemma ReadLengthFits(shape: Shape, s: BitString, bigEndian: bool)
    ensures ReadItem(shape, s, bigEndian).1 <= |s|
  {
  }

  function Unpacked(shapes: seq<Shape>, s: BitString, bigEndian: bool): seq<Item> {
    if shapes == [] then []
    else
      var (item, n) := ReadItem(shapes[0], s, bigEndian);
      ReadLengthFits(shapes[0], s, bigEndian);
      [item] + Unpacked(shapes[1..], s[n..], bigEndian)
  }

  function Shapes(items: seq<Item>): (r: seq<Shape>)
    ensures |r| == |items|
  {
    if items == [] then [] else [ShapeOf(items[0])] + Shapes(items[1..])
  }

  // ----- what arrives of an item

  /** The bits that were asked for, and zeros for the others. */
  function Kept(whole: BitString, count: int): (r: BitString)
    ensures |r| == |whole|
  {
    var n := Wanted(|whole|, count);
    if n > |whole| then Zeros(|whole|) else whole[..n] + Zeros(|whole| - n)
  }

  function Delivered(item: Item): Item
    requires Packable(item)
  {
    match item
    case Field(value, size) => Field(Window(value, 0, size), size)
    case BitArray(bits, count) => BitArray(Kept(bits, count), count)
    case ByteArray(bytes, count) =>
      FlattenLength(bytes, 8);
      ByteArray(Chop(Kept(Flatten(bytes), count), 8, |bytes|), count)
    case IntArray(ints, count) =>
      FlattenLength(ints, 32);
      IntArray(Chop(Kept(Flatten(ints), count), 32, |ints|), count)
    case Text(chars) => item
  }

  function AllDelivered(items: seq<Item>): (r: seq<Item>)
    requires AllPackable(items)
    ensures |r| == |items| && forall i | 0 <= i < |items| :: r[i] == Delivered(items[i])
  {
    seq(|items|, i requires 0 <= i < |items| => Delivered(items[i]))
  }

  /** Nothing was held back: a field has just its size, and an array was packed as a whole. */
  predicate Whole(item: Item) {
    match item
    case Field(value, size) => |value| == size
    case BitArray(bits, count) => Wanted(|bits|, count) == |bits|
    case ByteArray(bytes, count) => Wanted(|Flatten(bytes)|, count) == |Flatten(bytes)|
    case IntArray(ints, count) => Wanted(|Flatten(ints)|, count) == |Flatten(ints)|
    case Text(_) => true
  }

  lemma KeptWhole(whole: BitString, count: int)
    ensures Wanted(|whole|, count) == |whole| ==> Kept(whole, count) == whole
  {
    assert whole[..|whole|] + Zeros(0) == whole;
  }

  /** A whole item arrives as it is. */
  lemma WholeIsDelivered(item: Item)
    requires Packable(item) && Whole(item)
    ensures Delivered(item) == item
  {
    match item
    case Field(value, size) => assert Window(value, 0, size) == value;
    case BitArray(bits, count) => KeptWhole(bits, count);
    case ByteArray(bytes, count) =>
      KeptWhole(Flatten(bytes), count);
      ChopOfFlatten(bytes, 8);
    case IntArray(ints, count) =>
      KeptWhole(Flatten(ints), count);
      ChopOfFlatten(ints, 32);
    case Text(_) =>
  }

  lemma AllWholeDelivered(items: seq<Item>)
    requires AllPackable(items) && forall i | 0 <= i < |items| :: Whole(items[i])
    ensures AllDelivered(items) == items
  {
    forall i | 0 <= i < |items| ensures Delivered(items[i]) == items[i] { WholeIsDelivered(items[i]); }
  }

  // ----- strings

  lemma OrderedZero(b: BitString, bigEndian: bool)
    requires IsByte(b)
    ensures Ordered(b, bigEndian) == Zeros(BYTE) <==> b == Zeros(BYTE)
  {
    if bigEndian && Reverse(b) == Zeros(BYTE) {
      forall i | 0 <= i < BYTE
        ensures !b[i]
      {
        assert Reverse(b)[BYTE - 1 - i] == b[i];
      }
    }
  }

  lemma ReadCharsStep(first: BitString, later: BitString, bigEndian: bool)
    requires IsByte(first) && first != Zeros(BYTE)
    ensures ReadChars(first + later, bigEndian) == [Ordered(first, bigEndian)] + ReadChars(later, bigEndian)
  {
    SplitBack(first, later);
  }

  /** Behind a zero-free string, anything may follow; the reader gives the string back exactly when what
      follows starts with a zero byte or is shorter than one. */
  lemma {:induction false} ReadBackString(text: seq<BitString>, rest: BitString, bigEndian: bool)
    requires ZeroFree(text)
    ensures ReadChars(StringBits(text, bigEndian) + rest, bigEndian) == text + ReadChars(rest, bigEndian)
  {
    if text == [] {
      assert StringBits(text, bigEndian) + rest == rest;
      assert text + ReadChars(rest, bigEndian) == ReadChars(rest, bigEndian);
    } else {
      var first, mid := Ordered(text[0], bigEndian), StringBits(text[1..], bigEndian);
      ReadBackString(text[1..], rest, bigEndian);
      OrderedZero(text[0], bigEndian);
      OrderedTwice(text[0], bigEndian);
      Regroup(first, mid, rest);
      ReadCharsStep(first, mid + rest, bigEndian);
      HeadTail(text);
      Regroup([text[0]], text[1..], ReadChars(rest, bigEndian));
    }
  }

  /** Without the terminating byte a string comes back just when what is packed behind it happens to
      start with a zero byte, or is shorter than one. */
  lemma StringNeedsTerminator(text: seq<BitString>, rest: BitString, bigEndian: bool)
    requires ZeroFree(text)
    ensures ReadChars(TextBits(text, bigEndian, false) + rest, bigEndian) == text
       <==> |rest| < BYTE || rest[..BYTE] == Zeros(BYTE)
  {
    assert TextBits(text, bigEndian, false) == StringBits(text, bigEndian);
    ReadBackString(text, rest, bigEndian);
    assert |text + ReadChars(rest, bigEndian)| == |text| + |ReadChars(rest, bigEndian)|;
  }

  lemma {:induction false} StringBitsLength(text: seq<BitString>, bigEndian: bool)
    requires ZeroFree(text)
    ensures |StringBits(text, bigEndian)| == |text| * BYTE
  {
    if text != [] {
      StringBitsLength(text[1..], bigEndian);
    }
  }

  lemma ReadBackText(text: seq<BitString>, rest: BitString, bigEndian: bool)
    requires ZeroFree(text)
    ensures var s := TextBits(text, bigEndian, true) + rest;
            ReadItem(Terminated, s, bigEndian) == (Text(text), |TextBits(text, bigEndian, true)|)
  {
    var tail := Zeros(BYTE) + rest;
    Regroup(StringBits(text, bigEndian), Zeros(BYTE), rest);
    assert tail[..BYTE] == Zeros(BYTE);
    ReadBackString(text, tail, bigEndian);
    StringBitsLength(text, bigEndian);
    assert text + [] == text;
  }

  // ----- arrays

  /** An array of zeros filled from packed bits gets the bits that were asked for. */
  lemma FillBack(whole: BitString, count: int, rest: BitString, bigEndian: bool)
    ensures var bits := ArrayBits(whole, count, bigEndian);
            FillArray(|whole|, count, bits + rest, bigEndian) == (Kept(whole, count), |bits|)
  {
    var n := Wanted(|whole|, count);
    if n <= |whole| {
      SplitBack(Ordered(whole[..n], bigEndian), rest);
      OrderedTwice(whole[..n], bigEndian);
      assert Zeros(|whole|)[n..] == Zeros(|whole| - n);
    }
  }

  // ----- any sequence of items

  lemma ReadBackItem(item: Item, rest: BitString, bigEndian: bool)
    requires Packable(item)
    ensures var bits := ItemBits(item, bigEndian, true);
            ReadItem(ShapeOf(item), bits + rest, bigEndian) == (Delivered(item), |bits|)
  {
    match item
    case Field(value, size) =>
      SplitBack(Ordered(Window(value, 0, size), bigEndian), rest);
      OrderedTwice(Window(value, 0, size), bigEndian);
    case BitArray(bits, count) => FillBack(bits, count, rest, bigEndian);
    case ByteArray(bytes, count) =>
      FlattenLength(bytes, 8);
      FillBack(Flatten(bytes), count, rest, bigEndian);
    case IntArray(ints, count) =>
      FlattenLength(ints, 32);
      FillBack(Flatten(ints), count, rest, bigEndian);
    case Text(chars) => ReadBackText(chars, rest, bigEndian);
  }

  lemma {:induction false} ReadBackAll(items: seq<Item>, rest: BitString, bigEndian: bool)
    requires AllPackable(items)
    ensures Unpacked(Shapes(items), Packed(items, bigEndian, true) + rest, bigEndian) == AllDelivered(items)
  {
    if items != [] {
      var bits := ItemBits(items[0], bigEndian, true);
      var later := Packed(items[1..], bigEndian, true) + rest;
      Regroup(bits, Packed(items[1..], bigEndian, true), rest);
      ReadBackItem(items[0], later, bigEndian);
      SplitBack(bits, later);
      ReadBackAll(items[1..], rest, bigEndian);
      assert AllDelivered(items) == [Delivered(items[0])] + AllDelivered(items[1..]);
    }
  }

  // ----- and nothing but what was packed comes back as it

  lemma FillBackOnly(whole: BitString, count: int, s: BitString, bigEndian: bool)
    requires |s| >= |ArrayBits(whole, count, bigEndian)|
    requires FillArray(|whole|, count, s, bigEndian).0 == Kept(whole, count)
    ensures FillArray(|whole|, count, s, bigEndian).1 == |ArrayBits(whole, count, bigEndian)|
    ensures ArrayBits(whole, count, bigEndian) <= s
  {
    var n := Wanted(|whole|, count);
    if n <= |whole| {
      var front := Ordered(s[..n], bigEndian);
      SplitBack(front, Zeros(|whole|)[n..]);
      SplitBack(whole[..n], Zeros(|whole| - n));
      OrderedTwice(s[..n], bigEndian);
    }
  }

  lemma {:induction false} ReadCharsOnly(text: seq<BitString>, s: BitString, bigEndian: bool)
    requires ReadChars(s, bigEndian) == text && |s| >= |text| * BYTE + BYTE
    ensures StringBits(text, bigEndian) + Zeros(BYTE) <= s
  {
    if text == [] {
      assert [] + Zeros(BYTE) == Zeros(BYTE);
    } else {
      ReadCharsOnly(text[1..], s[BYTE..], bigEndian);
      OrderedTwice(s[..BYTE], bigEndian);
      Regroup(s[..BYTE], StringBits(text[1..], bigEndian), Zeros(BYTE));
      PrefixMore(s, BYTE, StringBits(text[1..], bigEndian) + Zeros(BYTE));
    }
  }

  lemma PrefixMore<T>(s: seq<T>, n: nat, t: seq<T>)
    requires n <= |s| && t <= s[n..]
    ensures s[..n] + t <= s
  {
  }

  lemma ChoppedAlike(a: BitString, b: BitString, width: nat, n: nat)
    requires |a| == n * width && |b| == n * width && Chop(a, width, n) == Chop(b, width, n)
    ensures a == b
  {
    FlattenOfChop(a, width, n);
    FlattenOfChop(b, width, n);
  }

  lemma ReadWordsOnly(words: seq<BitString>, width: nat, count: int, s: BitString, bigEndian: bool)
    requires AllOfWidth(words, width) && |Flatten(words)| == |words| * width
    requires |s| >= |ArrayBits(Flatten(words), count, bigEndian)|
    requires Chop(FillArray(|words| * width, count, s, bigEndian).0, width, |words|)
          == Chop(Kept(Flatten(words), count), width, |words|)
    ensures FillArray(|words| * width, count, s, bigEndian).1 == |ArrayBits(Flatten(words), count, bigEndian)|
    ensures ArrayBits(Flatten(words), count, bigEndian) <= s
  {
    var filled := FillArray(|words| * width, count, s, bigEndian).0;
    ChoppedAlike(filled, Kept(Flatten(words), count), width, |words|);
    FillBackOnly(Flatten(words), count, s, bigEndian);
  }

  /** An item is read only from its own bits. */
  lemma ReadBackOnly(item: Item, s: BitString, bigEndian: bool)
    requires Packable(item) && |s| >= |ItemBits(item, bigEndian, true)|
    requires ReadItem(ShapeOf(item), s, bigEndian).0 == Delivered(item)
    ensures ReadItem(ShapeOf(item), s, bigEndian).1 == |ItemBits(item, bigEndian, true)|
    ensures ItemBits(item, bigEndian, true) <= s
  {
    match item
    case Field(value, size) => OrderedTwice(s[..size], bigEndian);
    case BitArray(bits, count) => FillBackOnly(bits, count, s, bigEndian);
    case ByteArray(bytes, count) =>
      FlattenLength(bytes, 8);
      ReadWordsOnly(bytes, 8, count, s, bigEndian);
    case IntArray(ints, count) =>
      FlattenLength(ints, 32);
      ReadWordsOnly(ints, 32, count, s, bigEndian);
    case Text(chars) =>
      StringBitsLength(chars, bigEndian);
      ReadCharsOnly(chars, s, bigEndian);
  }

  lemma {:induction false} ReadBackAllOnly(items: seq<Item>, s: BitString, bigEndian: bool)
    requires AllPackable(items) && |s| >= |Packed(items, bigEndian, true)|
    requires Unpacked(Shapes(items), s, bigEndian) == AllDelivered(items)
    ensures Packed(items, bigEndian, true) <= s
  {
    if items != [] {
      var bits := ItemBits(items[0], bigEndian, true);
      var (item, n) := ReadItem(ShapeOf(items[0]), s, bigEndian);
      ReadLengthFits(ShapeOf(items[0]), s, bigEndian);
      assert AllDelivered(items)[0] == Delivered(items[0]) == item;
      ReadBackOnly(items[0], s, bigEndian);
      assert Unpacked(Shapes(items), s, bigEndian)[1..] == AllDelivered(items[1..]);
      ReadBackAllOnly(items[1..], s[n..], bigEndian);
      PrefixMore(s, n, Packed(items[1..], bigEndian, true));
    }
  }

  // ----- through an export

  /** The stream bit by bit, or in words of 8, 32 or 64 bits. */
  datatype Channel = InBits | InWords(width: nat)

  predicate ValidChannel(c: Channel) {
    c.InBits? || StreamWidth(c.width)
  }

  /** What an import makes of an export. */
  function Through(payload: BitString, c: Channel, bigEndian: bool): BitString
    requires ValidChannel(c)
  {
    match c
    case InBits => payload
    case InWords(width) => Import(Export(payload, width, bigEndian), bigEndian)
  }

  lemma ThroughIsPadded(payload: BitString, c: Channel, bigEndian: bool)
    requires ValidChannel(c)
    ensures |payload| <= |Through(payload, c, bigEndian)|
    ensures Through(payload, c, bigEndian) == payload + Zeros(|Through(payload, c, bigEndian)| - |payload|)
  {
    match c
    case InBits => assert payload + Zeros(0) == payload;
    case InWords(width) => ImportOfExport(payload, width, bigEndian);
  }

  /** Pack, export as bits, bytes, ints or longints, import again and unpack in the same order with the
      same sizes: every value comes back, whatever the bit order. */
  lemma RoundTrip(items: seq<Item>, c: Channel, bigEndian: bool)
    requires AllPackable(items) && ValidChannel(c)
    ensures var received := Through(Packed(items, bigEndian, true), c, bigEndian);
            Unpacked(Shapes(items), received, bigEndian) == AllDelivered(items)
    ensures (forall i | 0 <= i < |items| :: Whole(items[i])) ==> AllDelivered(items) == items
  {
    var sent := Packed(items, bigEndian, true);
    ThroughIsPadded(sent, c, bigEndian);
    ReadBackAll(items, Zeros(|Through(sent, c, bigEndian)| - |sent|), bigEndian);
    if forall i | 0 <= i < |items| :: Whole(items[i]) { AllWholeDelivered(items); }
  }

  // ----- through a buffer that is too small

  /** What the buffer keeps of what is packed: zeros are read beyond its end. */
  function Surviving(sent: BitString): (r: BitString)
    ensures |r| == |sent|
  {
    seq(|sent|, i requires 0 <= i < |sent| => i < CAPACITY - HEADER && sent[i])
  }

  /** No bit that is set is dropped. */
  predicate NothingLost(sent: BitString) {
    forall i | CAPACITY - HEADER <= i < |sent| :: !sent[i]
  }

  lemma SurvivesIff(sent: BitString)
    ensures Surviving(sent) == sent <==> NothingLost(sent)
  {
    if Surviving(sent) == sent {
      forall i | CAPACITY - HEADER <= i < |sent| ensures !sent[i] { assert Surviving(sent)[i] == sent[i]; }
    }
  }

  /** However much is packed, everything comes back exactly when the bits that the buffer drops are zeros. */
  lemma RoundTripIffNothingLost(items: seq<Item>, c: Channel, bigEndian: bool)
    requires AllPackable(items) && ValidChannel(c)
    ensures var sent := Packed(items, bigEndian, true);
            Unpacked(Shapes(items), Through(Surviving(sent), c, bigEndian), bigEndian) == AllDelivered(items)
            <==> NothingLost(sent)
  {
    var sent := Packed(items, bigEndian, true);
    var kept := Surviving(sent);
    var received := Through(kept, c, bigEndian);
    SurvivesIff(sent);
    ThroughIsPadded(kept, c, bigEndian);
    if Unpacked(Shapes(items), received, bigEndian) == AllDelivered(items) {
      ReadBackAllOnly(items, received, bigEndian);
      SplitBack(kept, Zeros(|received| - |kept|));
    }
    if NothingLost(sent) { RoundTrip(items, c, bigEndian); }
  }
}
