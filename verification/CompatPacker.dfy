/** The compatibility packer as an object over a fixed bit buffer. */
module CompatPacker {
  import opened Sequences
  import opened Bits
  import opened PackerModel
  import opened PackerRoundTrip

  class Packer {
    const bits: array<bool>
    var bigEndian: bool
    var useMetadata: bool
    var packIter: nat
    var unpackIter: nat

    ghost predicate Valid()
      reads this
    {
      bits.Length == CAPACITY
    }

    ghost function State(): PackerState
      reads this, bits
    {
      PackerState(bigEndian, useMetadata, bits[..], packIter, unpackIter)
    }

    constructor (bigEndian: bool, useMetadata: bool)
      ensures Valid() && fresh(bits)
      ensures State() == PackerState(bigEndian, useMetadata, Zeros(CAPACITY), HEADER, HEADER)
    {
      bits := new bool[CAPACITY](_ => false);
      this.bigEndian, this.useMetadata := bigEndian, useMetadata;
      packIter, unpackIter := HEADER, HEADER;
      new;
      assert bits[..] == Zeros(CAPACITY);
    }

    method Flush()
      requires Valid()
      modifies this, bits
      ensures Valid()
      ensures State() == old(State()).(bits := Zeros(CAPACITY), packIter := HEADER, unpackIter := HEADER)
    {
      packIter, unpackIter := HEADER, HEADER;
      forall i | 0 <= i < bits.Length {
        bits[i] := false;
      }
      assert bits[..] == Zeros(CAPACITY);
    }

    // ----- access to the buffer: nothing is stored beyond its end, and zero is read there

    method Put(at: nat, b: bool)
      requires Valid()
      modifies bits
      ensures forall k | 0 <= k < bits.Length :: bits[k] == if k == at then b else old(bits[k])
    {
      if at < bits.Length {
        bits[at] := b;
      }
    }

    function Get(at: nat): bool
      reads this, bits
    {
      at < bits.Length && bits[at]
    }

    /** The first n bits of s stand behind what was packed in `before`, which is otherwise unchanged. */
    ghost predicate Wrote(before: BitString, s: BitString, n: nat)
      requires n <= |s|
      reads this, bits
    {
      |before| == bits.Length && forall k | 0 <= k < bits.Length ::
        bits[k] == if packIter <= k < packIter + n then s[k - packIter] else before[k]
    }

    lemma WroteAll(before: BitString, s: BitString)
      requires Wrote(before, s, |s|)
      ensures bits[..] == Overwrite(before, packIter, s)
    {}

    // ----- packing

    /** The low bits of the value, and zeros where the size goes beyond it. */
    method PackField(value: BitString, size: nat)
      requires Valid()
      modifies this`packIter, bits
      ensures Valid() && State() == Written(old(State()), Ordered(Window(value, 0, size), bigEndian))
    {
      ghost var before, s := bits[..], Ordered(Window(value, 0, size), bigEndian);
      for i := 0 to size
        invariant packIter == old(packIter) && Wrote(before, s, i)
      {
        var from := if bigEndian then size - 1 - i else i;
        Put(packIter + i, from < |value| && value[from]);
      }
      WroteAll(before, s);
      packIter := packIter + size;
    }

    method PackBits(value: BitString, size: int := -1)
      requires Valid()
      modifies this`packIter, bits
      ensures Valid()
      ensures State() == Written(old(State()), ArrayBits(value, size, bigEndian))
    {
      WrittenNothing(State());
      var n := if size < 0 then |value| else size;
      if n > |value| {
        return;
      }
      assert value[..|value|] == value && Window(value, 0, n) == value[..n];
      PackField(value, n);
    }

    method PackBytes(value: seq<BitString>, size: int := -1)
      requires Valid() && AllOfWidth(value, 8)
      modifies this`packIter, bits
      ensures Valid()
      ensures State() == Written(old(State()), ArrayBits(Flatten(value), size, bigEndian))
    {
      WrittenNothing(State());
      FlattenLength(value, 8);
      var n := if size < 0 then |value| * 8 else size;
      if n > |value| * 8 {
        return;
      }
      assert Flatten(value)[..|value| * 8] == Flatten(value);
      PutWords(value, 8, n);
      packIter := packIter + n;
    }

    /** The loop of pack_bytes and pack_ints: the first n bits of the words, in buffer order. */
    method PutWords(value: seq<BitString>, width: nat, n: nat)
      requires Valid() && width > 0 && AllOfWidth(value, width) && n <= |Flatten(value)|
      modifies bits
      ensures bits[..] == Overwrite(old(bits[..]), packIter, Ordered(Flatten(value)[..n], bigEndian))
    {
      ghost var before, s := bits[..], Ordered(Flatten(value)[..n], bigEndian);
      for i := 0 to n
        invariant Wrote(before, s, i)
      {
        OrderedAt(Flatten(value), n, bigEndian, i);
        Put(packIter + i, WordBit(value, width, if bigEndian then n - 1 - i else i));
      }
      WroteAll(before, s);
    }

    method PackInts(value: seq<BitString>, size: int := -1)
      requires Valid() && AllOfWidth(value, 32)
      modifies this`packIter, bits
      ensures Valid()
      ensures State() == Written(old(State()), ArrayBits(Flatten(value), size, bigEndian))
    {
      WrittenNothing(State());
      FlattenLength(value, 32);
      var n := if size < 0 then |value| * 32 else size;
      if n > |value| * 32 {
        return;
      }
      assert Flatten(value)[..|value| * 32] == Flatten(value);
      PutWords(value, 32, n);
      packIter := packIter + n;
    }

    method PackString(value: seq<BitString>)
      requires Valid() && AllOfWidth(value, BYTE)
      modifies this`packIter, bits
      ensures Valid() && State() == Written(old(State()), TextBits(value, bigEndian, useMetadata))
    {
      ghost var before := State();
      for k := 0 to |value|
        invariant Valid() && State() == Written(before, StringBits(value[..k], bigEndian))
      {
        assert value[..k + 1] == value[..k] + [value[k]];
        StringBitsAppend(value[..k], value[k], bigEndian);
        assert Window(value[k], 0, BYTE) == value[k];
        PackField(value[k], BYTE);
        WrittenTwice(before, StringBits(value[..k], bigEndian), Ordered(value[k], bigEndian));
      }
      assert value[..|value|] == value;
      if useMetadata {
        var zero := Zeros(BYTE);
        assert Window(zero, 0, BYTE) == zero && Ordered(zero, bigEndian) == zero;
        PackField(zero, BYTE);
        WrittenTwice(before, StringBits(value, bigEndian), zero);
      } else {
        assert TextBits(value, bigEndian, useMetadata) == StringBits(value, bigEndian);
      }
    }

    // ----- unpacking

    predicate Enough(n: nat)
      reads this
    {
      packIter - unpackIter >= n
    }

    method UnpackField(size: nat) returns (value: BitString)
      requires Valid() && unpackIter <= packIter
      modifies this`unpackIter
      ensures Valid() && unpackIter <= packIter
      ensures var (item, n) := ReadItem(FieldOf(size), old(Rest(State())), bigEndian);
              item == Field(value, size) && State() == Taken(old(State()), n)
    {
      value := Zeros(size);
      if Enough(size) {
        unpackIter := unpackIter + size;
        for i := 0 to size
          invariant |value| == size && unpackIter == old(unpackIter) + size
          invariant forall k | 0 <= k < i ::
                      value[k] == Get(if bigEndian then unpackIter - k - 1 else unpackIter - size + k)
        {
          value := value[i := Get(if bigEndian then unpackIter - i - 1 else unpackIter - size + i)];
        }
        assert value == Ordered(old(Rest(State()))[..size], bigEndian);
      }
    }

    /** The bits read go to the start of the array; the others stay. */
    method UnpackBits(value: array<bool>, size: int := -1)
      requires Valid() && unpackIter <= packIter && value != bits
      modifies this`unpackIter, value
      ensures Valid() && unpackIter <= packIter
      ensures var n := if size < 0 then value.Length else size;
              if n <= value.Length && n <= |old(Rest(State()))| then
                && value[..] == Mixed(old(Rest(State()))[..n], bigEndian, old(value[..]))
                && State() == Taken(old(State()), n)
              else value[..] == old(value[..]) && State() == old(State())
    {
      var n := if size < 0 then value.Length else size;
      if n <= value.Length && Enough(n) {
        TakenIsFront(State(), n);
        ghost var w := Rest(State())[..n];
        unpackIter := unpackIter + n;
        assert Window(bits[..], unpackIter - n, n) == w;
        FillBits(value, n);
      }
    }

    method FillBits(value: array<bool>, n: nat)
      requires Valid() && value != bits && n <= value.Length && n <= unpackIter
      modifies value
      ensures value[..] == Mixed(old(Window(bits[..], unpackIter - n, n)), bigEndian, old(value[..]))
    {
      ghost var taken := Ordered(Window(bits[..], unpackIter - n, n), bigEndian);
      for i := 0 to n
        invariant bits[..] == old(bits[..])
        invariant forall k | 0 <= k < i :: value[k] == taken[k]
        invariant forall k | i <= k < value.Length :: value[k] == old(value[k])
      {
        value[i] := Get(if bigEndian then unpackIter - i - 1 else unpackIter - n + i);
      }
      assert value[..n] == taken;
      assert value[n..] == old(value[..])[n..];
    }

    method FillWords(value: array<BitString>, width: nat, n: nat)
      requires Valid() && width > 0 && AllOfWidth(value[..], width)
      requires n <= |Flatten(value[..])| && n <= unpackIter
      modifies value
      ensures AllOfWidth(value[..], width)
      ensures Flatten(value[..]) == Mixed(old(Window(bits[..], unpackIter - n, n)), bigEndian, old(Flatten(value[..])))
    {
      ghost var taken := Ordered(Window(bits[..], unpackIter - n, n), bigEndian);
      ghost var was := Flatten(value[..]);
      ghost var now := was;
      for i := 0 to n
        invariant AllOfWidth(value[..], width)
        invariant Flatten(value[..]) == now && |now| == |was|
        invariant forall k | 0 <= k < i :: now[k] == taken[k]
        invariant forall k | i <= k < |was| :: now[k] == was[k]
      {
        var b := Get(if bigEndian then unpackIter - i - 1 else unpackIter - n + i);
        SetBit(value, width, i, b);
        now := now[i := b];
      }
      assert now[..n] == taken;
      assert now[n..] == was[n..];
    }

    method UnpackBytes(value: array<BitString>, size: int := -1)
      requires Valid() && unpackIter <= packIter && AllOfWidth(value[..], 8)
      modifies this`unpackIter, value
      ensures Valid() && unpackIter <= packIter && AllOfWidth(value[..], 8)
      ensures Filled(old(value[..]), value[..], size, old(State()), State())
    {
      FlattenLength(value[..], 8);
      var n := if size < 0 then value.Length * 8 else size;
      if n <= value.Length * 8 && Enough(n) {
        TakenIsFront(State(), n);
        ghost var w := Rest(State())[..n];
        unpackIter := unpackIter + n;
        assert Window(bits[..], unpackIter - n, n) == w;
        FillWords(value, 8, n);
      }
    }

    method UnpackInts(value: array<BitString>, size: int := -1)
      requires Valid() && unpackIter <= packIter && AllOfWidth(value[..], 32)
      modifies this`unpackIter, value
      ensures Valid() && unpackIter <= packIter && AllOfWidth(value[..], 32)
      ensures Filled(old(value[..]), value[..], size, old(State()), State())
    {
      FlattenLength(value[..], 32);
      var n := if size < 0 then value.Length * 32 else size;
      if n <= value.Length * 32 && Enough(n) {
        TakenIsFront(State(), n);
        ghost var w := Rest(State())[..n];
        unpackIter := unpackIter + n;
        assert Window(bits[..], unpackIter - n, n) == w;
        FillWords(value, 32, n);
      }
    }

    static method SetBit(value: array<BitString>, width: nat, i: nat, b: bool)
      requires AllOfWidth(value[..], width) && width > 0 && i < |Flatten(value[..])|
      modifies value
      ensures AllOfWidth(value[..], width)
      ensures Flatten(value[..]) == old(Flatten(value[..]))[i := b]
    {
      FlattenWithBit(value[..], width, i, b);
      ghost var next := WithBit(value[..], i / width, i % width, b);
      value[i / width] := value[i / width][i % width := b];
      assert value[..] == next;
    }

    /** Whether there is another character before the end of the string. */
    predicate MoreChars()
      requires unpackIter <= packIter
      reads this, bits
    {
      Enough(BYTE) && Window(bits[..], unpackIter, BYTE) != Zeros(BYTE)
    }

    method TakeChar() returns (c: BitString)
      requires Valid() && unpackIter <= packIter && MoreChars()
      modifies this`unpackIter
      ensures Valid() && unpackIter <= packIter
      ensures State() == Taken(old(State()), BYTE)
      ensures old(ReadChars(Rest(State()), bigEndian)) == [c] + ReadChars(Rest(State()), bigEndian)
    {
      NextChar(State());
      c := Ordered(Window(bits[..], unpackIter, BYTE), bigEndian);
      unpackIter := unpackIter + BYTE;
    }

    method TakeChars() returns (text: seq<BitString>)
      requires Valid() && unpackIter <= packIter
      modifies this`unpackIter
      ensures Valid() && unpackIter <= packIter && !MoreChars()
      ensures State() == Taken(old(State()), |text| * BYTE)
      ensures text == old(ReadChars(Rest(State()), bigEndian))
    {
      text := [];
      ghost var whole := ReadChars(Rest(State()), bigEndian);
      while MoreChars()
        invariant unpackIter <= packIter && State() == Taken(old(State()), |text| * BYTE)
        invariant text + ReadChars(Rest(State()), bigEndian) == whole
        decreases packIter - unpackIter
      {
        var c := TakeChar();
        Regroup(text, [c], ReadChars(Rest(State()), bigEndian));
        text := text + [c];
      }
      NextChar(State());
      assert text + [] == text;
    }

    method UnpackString() returns (text: seq<BitString>)
      requires Valid() && unpackIter <= packIter
      modifies this`unpackIter
      ensures Valid() && unpackIter <= packIter
      ensures var (item, n) := ReadItem(Terminated, old(Rest(State())), bigEndian);
              item == Text(text) && State() == Taken(old(State()), n)
    {
      text := TakeChars();
      if Enough(BYTE) {
        unpackIter := unpackIter + BYTE;
      }
    }

    // ----- sequences of items

    method PackItem(item: Item)
      requires Valid() && Packable(item)
      modifies this`packIter, bits
      ensures Valid() && State() == Written(old(State()), ItemBits(item, bigEndian, useMetadata))
    {
      match item
      case Field(value, size) => PackField(value, size);
      case BitArray(value, count) => PackBits(value, count);
      case ByteArray(value, count) => PackBytes(value, count);
      case IntArray(value, count) => PackInts(value, count);
      case Text(chars) => PackString(chars);
    }

    method PackAll(items: seq<Item>)
      requires Valid() && AllPackable(items)
      modifies this`packIter, bits
      ensures Valid() && State() == Written(old(State()), Packed(items, bigEndian, useMetadata))
    {
      if items != [] {
        PackItem(items[0]);
        PackAll(items[1..]);
        WrittenTwice(old(State()), ItemBits(items[0], bigEndian, useMetadata),
                     Packed(items[1..], bigEndian, useMetadata));
      } else {
        WrittenNothing(State());
      }
    }

    method UnpackItem(shape: Shape) returns (item: Item)
      requires Valid() && unpackIter <= packIter
      modifies this`unpackIter
      ensures Valid() && unpackIter <= packIter
      ensures (item, unpackIter - old(unpackIter)) == ReadItem(shape, old(Rest(State())), bigEndian)
      ensures State() == Taken(old(State()), unpackIter - old(unpackIter))
    {
      match shape
      case FieldOf(n) =>
        var value := UnpackField(n);
        item := Field(value, n);
      case BitsOf(length, count) => item := UnpackNewBits(length, count);
      case BytesOf(length, count) => item := UnpackNewBytes(length, count);
      case IntsOf(length, count) => item := UnpackNewInts(length, count);
      case Terminated =>
        var text := UnpackString();
        item := Text(text);
    }

    /** Unpacking into a new array, which is all zeros. */
    method UnpackNewBits(length: nat, count: int) returns (item: Item)
      requires Valid() && unpackIter <= packIter
      modifies this`unpackIter
      ensures Valid() && unpackIter <= packIter
      ensures (item, unpackIter - old(unpackIter)) == ReadItem(BitsOf(length, count), old(Rest(State())), bigEndian)
      ensures State() == Taken(old(State()), unpackIter - old(unpackIter))
    {
      var value := new bool[length](_ => false);
      assert value[..] == Zeros(length);
      UnpackBits(value, count);
      item := BitArray(value[..], count);
    }

    method UnpackNewBytes(length: nat, count: int) returns (item: Item)
      requires Valid() && unpackIter <= packIter
      modifies this`unpackIter
      ensures Valid() && unpackIter <= packIter
      ensures (item, unpackIter - old(unpackIter)) == ReadItem(BytesOf(length, count), old(Rest(State())), bigEndian)
      ensures State() == Taken(old(State()), unpackIter - old(unpackIter))
    {
      var value := new BitString[length](_ => Zeros(8));
      ghost var was, p := value[..], State();
      UnpackBytes(value, count);
      FilledWords(was, value[..], 8, count, p, State());
      item := ByteArray(value[..], count);
    }

    method UnpackNewInts(length: nat, count: int) returns (item: Item)
      requires Valid() && unpackIter <= packIter
      modifies this`unpackIter
      ensures Valid() && unpackIter <= packIter
      ensures (item, unpackIter - old(unpackIter)) == ReadItem(IntsOf(length, count), old(Rest(State())), bigEndian)
      ensures State() == Taken(old(State()), unpackIter - old(unpackIter))
    {
      var value := new BitString[length](_ => Zeros(32));
      ghost var was, p := value[..], State();
      UnpackInts(value, count);
      FilledWords(was, value[..], 32, count, p, State());
      item := IntArray(value[..], count);
    }

    method UnpackAll(shapes: seq<Shape>) returns (items: seq<Item>)
      requires Valid() && unpackIter <= packIter
      modifies this`unpackIter
      ensures Valid() && unpackIter <= packIter
      ensures items == Unpacked(shapes, old(Rest(State())), bigEndian)
    {
      if shapes == [] {
        items := [];
      } else {
        var first := UnpackItem(shapes[0]);
        TakenIsFront(old(State()), unpackIter - old(unpackIter));
        var later := UnpackAll(shapes[1..]);
        items := [first] + later;
      }
    }

    // ----- export and import

    method GetPackedBits() returns (stream: BitString)
      requires Valid() && packIter >= HEADER
      ensures stream == Payload(State())
    {
      stream := Zeros(packIter - HEADER);
      for i := 0 to packIter - HEADER
        invariant |stream| == packIter - HEADER
        invariant forall k | 0 <= k < i :: stream[k] == Get(HEADER + k)
      {
        stream := stream[i := Get(HEADER + i)];
      }
    }

    /** get_packed_bytes, _ints and _longints: width 8, 32 or 64. */
    method GetPackedWords(width: nat) returns (stream: seq<BitString>)
      requires Valid() && packIter >= HEADER && StreamWidth(width)
      ensures stream == Export(Payload(State()), width, bigEndian)
    {
      var size := (packIter - HEADER + width - 1) / width;
      stream := [];
      ghost var payload := Payload(State());
      for i := 0 to size
        invariant stream == Words(payload, i, width, bigEndian)
      {
        var v := WordAt(i, width, size);
        stream := stream + [Ordered(v, bigEndian)];
      }
    }

    /** Word i behind the header; of the last one only the bits that were packed. */
    method WordAt(i: nat, width: nat, size: nat) returns (v: BitString)
      requires Valid() && packIter >= HEADER && StreamWidth(width)
      requires size == Chunks(packIter - HEADER, width) && i < size
      ensures v == Window(Payload(State()), i * width, width)
    {
      var offset := i + HEADER / width;
      HeaderOffset(i, width);
      v := Window(bits[..], offset * width, width);
      LastWordBits(packIter, i, width);
      if i == size - 1 && packIter % width != 0 {
        v := v[..packIter % width] + Zeros(width - packIter % width);
      }
    }

    method SetPackedBits(stream: BitString)
      requires Valid()
      modifies this`packIter, this`unpackIter, bits
      ensures Valid() && packIter == |stream| && unpackIter == 0
      ensures Rest(State()) == Stored(stream)
      ensures bigEndian == old(bigEndian) && useMetadata == old(useMetadata)
    {
      for i := 0 to |stream|
        invariant forall k | 0 <= k < i && k < bits.Length :: bits[k] == stream[k]
      {
        Put(i, stream[i]);
      }
      packIter, unpackIter := |stream|, 0;
    }

    /** set_packed_bytes, _ints and _longints. */
    method SetPackedWords(stream: seq<BitString>, width: nat)
      requires Valid() && AllOfWidth(stream, width)
      modifies this`packIter, this`unpackIter, bits
      ensures Valid() && packIter == |stream| * width && unpackIter == 0
      ensures Rest(State()) == Stored(Import(stream, bigEndian))
      ensures bigEndian == old(bigEndian) && useMetadata == old(useMetadata)
    {
      packIter, unpackIter := 0, 0;
      assert stream[..0] == [];
      for i := 0 to |stream|
        invariant unpackIter == 0 && packIter == i * width
        invariant Rest(State()) == Stored(Import(stream[..i], bigEndian))
      {
        assert stream[..i + 1] == stream[..i] + [stream[i]];
        OneMore(i + 1, width);
        ImportWord(stream[..i], stream[i], width);
      }
      assert stream[..|stream|] == stream;
    }

    method ImportWord(ghost before: seq<BitString>, word: BitString, width: nat)
      requires Valid() && AllOfWidth(before, width) && |word| == width && unpackIter == 0
      requires packIter == |before| * width && Rest(State()) == Stored(Import(before, bigEndian))
      modifies this`packIter, bits
      ensures packIter == |before| * width + width
      ensures Rest(State()) == Stored(Import(before + [word], bigEndian))
    {
      ImportSnoc(before, word, bigEndian);
      ImportLength(before, width, bigEndian);
      assert Window(word, 0, width) == word;
      StoredMore(State(), Import(before, bigEndian), Ordered(word, bigEndian));
      PackField(word, width);
    }

    method Send(c: Channel) returns (bitStream: BitString, wordStream: seq<BitString>)
      requires Valid() && packIter >= HEADER && ValidChannel(c)
      ensures c.InBits? ==> bitStream == Payload(State())
      ensures c.InWords? ==> wordStream == Export(Payload(State()), c.width, bigEndian)
    {
      bitStream, wordStream := [], [];
      match c
      case InBits => bitStream := GetPackedBits();
      case InWords(width) => wordStream := GetPackedWords(width);
    }
  }

  /** One packer to another through any of the streams, in either bit order: every item arrives, exactly if the
      buffer drops no bit that is set. */
  method Transfer(items: seq<Item>, c: Channel, bigEndian: bool) returns (received: seq<Item>)
    requires AllPackable(items) && ValidChannel(c)
    ensures var sent := Packed(items, bigEndian, true);
            && (received == AllDelivered(items) <==> NothingLost(sent))
            && received == Unpacked(Shapes(items), Through(Surviving(sent), c, bigEndian), bigEndian)
    ensures (forall i | 0 <= i < |items| :: Whole(items[i])) ==> AllDelivered(items) == items
  {
    var sender := new Packer(bigEndian, true);
    sender.PackAll(items);
    ghost var sent := Packed(items, bigEndian, true);
    PayloadOfFresh(bigEndian, sent);
    var bitStream, wordStream := sender.Send(c);
    var receiver := new Packer(bigEndian, true);
    match c {
      case InBits => receiver.SetPackedBits(bitStream);
      case InWords(width) => receiver.SetPackedWords(wordStream, width);
    }
    StoredSurvivors(sent, c, bigEndian);
    RoundTrip(items, c, bigEndian);
    RoundTripIffNothingLost(items, c, bigEndian);
    received := receiver.UnpackAll(Shapes(items));
  }

  lemma PayloadOfFresh(bigEndian: bool, sent: BitString)
    ensures Payload(Written(PackerState(bigEndian, true, Zeros(CAPACITY), HEADER, HEADER), sent)) == Surviving(sent)
  {
  }

  /** The receiver stores all that reaches it. */
  lemma StoredSurvivors(sent: BitString, c: Channel, bigEndian: bool)
    requires ValidChannel(c)
    ensures var received := Through(Surviving(sent), c, bigEndian);
            Stored(received) == received
  {
    ThroughIsPadded(Surviving(sent), c, bigEndian);
  }

  /** What an unpack call for an array of words does to the array and to the packer. */
  ghost predicate Filled(was: seq<BitString>, now: seq<BitString>, count: int, p: PackerState, q: PackerState)
    requires p.unpackIter <= p.packIter
  {
    var n := Wanted(|Flatten(was)|, count);
    if n <= |Flatten(was)| && n <= |Rest(p)| then
      Flatten(now) == Mixed(Rest(p)[..n], p.bigEndian, Flatten(was)) && q == Taken(p, n)
    else now == was && q == p
  }

  /** An array of zero words, filled from what is left, is what reading it gives. */
  lemma FilledWords(was: seq<BitString>, now: seq<BitString>, width: nat, count: int, p: PackerState, q: PackerState)
    requires p.unpackIter <= p.packIter && Filled(was, now, count, p, q)
    requires |was| == |now| && AllOfWidth(now, width) && forall i | 0 <= i < |was| :: was[i] == Zeros(width)
    ensures p.unpackIter <= q.unpackIter && q == Taken(p, q.unpackIter - p.unpackIter)
    ensures var (bits, n) := FillArray(|now| * width, count, Rest(p), p.bigEndian);
            Chop(bits, width, |now|) == now && n == q.unpackIter - p.unpackIter
  {
    FlattenZeros(was, width);
    ChopOfFlatten(now, width);
  }

  lemma NextChar(p: PackerState)
    requires p.unpackIter <= p.packIter
    ensures var c := Window(p.bits, p.unpackIter, BYTE);
            ReadChars(Rest(p), p.bigEndian) ==
              if p.packIter - p.unpackIter >= BYTE && c != Zeros(BYTE)
              then [Ordered(c, p.bigEndian)] + ReadChars(Rest(Taken(p, BYTE)), p.bigEndian)
              else []
  {
    if p.packIter - p.unpackIter >= BYTE {
      TakenIsFront(p, BYTE);
    }
  }

  lemma OrderedAt(s: BitString, n: nat, bigEndian: bool, i: nat)
    requires i < n <= |s|
    ensures Ordered(s[..n], bigEndian)[i] == s[if bigEndian then n - 1 - i else i]
  {}

  lemma HeaderOffset(i: nat, width: nat)
    requires StreamWidth(width)
    ensures (i + HEADER / width) * width == i * width + HEADER
  {
    if width == 8 {
    } else if width == 32 {
    }
  }

  /** Where the last word ends. */
  lemma LastWordBits(packed: nat, i: nat, width: nat)
    requires packed >= HEADER && StreamWidth(width)
    requires i < Chunks(packed - HEADER, width)
    ensures var n, last := packed - HEADER, Chunks(packed - HEADER, width) - 1;
            && (i < last ==> i * width + width <= n)
            && (i == last ==> i * width + (if packed % width == 0 then width else packed % width) == n)
  {
    if width == 8 {
      LastByteBits(packed, i);
    } else if width == 32 {
      LastIntBits(packed, i);
    } else {
      LastLongBits(packed, i);
    }
  }

  lemma LastByteBits(packed: nat, i: nat)
    requires packed >= 64 && i < (packed - 64 + 7) / 8
    ensures i < (packed - 64 + 7) / 8 - 1 ==> i * 8 + 8 <= packed - 64
    ensures i == (packed - 64 + 7) / 8 - 1 ==> i * 8 + (if packed % 8 == 0 then 8 else packed % 8) == packed - 64
  {}

  lemma LastIntBits(packed: nat, i: nat)
    requires packed >= 64 && i < (packed - 64 + 31) / 32
    ensures i < (packed - 64 + 31) / 32 - 1 ==> i * 32 + 32 <= packed - 64
    ensures i == (packed - 64 + 31) / 32 - 1 ==> i * 32 + (if packed % 32 == 0 then 32 else packed % 32) == packed - 64
  {}

  lemma LastLongBits(packed: nat, i: nat)
    requires packed >= 64 && i < (packed - 64 + 63) / 64
    ensures i < (packed - 64 + 63) / 64 - 1 ==> i * 64 + 64 <= packed - 64
    ensures i == (packed - 64 + 63) / 64 - 1 ==> i * 64 + (if packed % 64 == 0 then 64 else packed % 64) == packed - 64
  {}
}
