/** Bit strings, least significant bit first. */
module Bits {
  import opened Sequences

  type BitString = seq<bool>

  function Zeros(n: nat): (z: BitString)
    ensures |z| == n && forall i | 0 <= i < n :: !z[i]
  {
    seq(n, _ => false)
  }

  function Reverse(s: BitString): (r: BitString)
    ensures |r| == |s|
    ensures forall i | 0 <= i < |s| :: r[i] == s[|s| - 1 - i]
  {
    seq(|s|, i requires 0 <= i < |s| => s[|s| - 1 - i])
  }

  lemma ReverseTwice(s: BitString)
    ensures Reverse(Reverse(s)) == s
  {}

  // ----- words

  predicate AllOfWidth(ws: seq<BitString>, width: nat) {
    forall i | 0 <= i < |ws| :: |ws[i]| == width
  }

  /** Words one after the other, the first one in the lowest bits. */
  function Flatten(ws: seq<BitString>): BitString {
    if ws == [] then [] else ws[0] + Flatten(ws[1..])
  }

  lemma {:induction false} FlattenLength(ws: seq<BitString>, width: nat)
    requires AllOfWidth(ws, width)
    ensures |Flatten(ws)| == |ws| * width
  {
    if ws != [] {
      FlattenLength(ws[1..], width);
      OneMore(|ws|, width);
    }
  }

  lemma {:induction false} FlattenZeros(ws: seq<BitString>, width: nat)
    requires forall i | 0 <= i < |ws| :: ws[i] == Zeros(width)
    ensures Flatten(ws) == Zeros(|ws| * width)
  {
    if ws != [] {
      FlattenZeros(ws[1..], width);
      OneMore(|ws|, width);
    }
  }

  lemma OneMore(n: nat, width: nat)
    requires n > 0
    ensures n * width == (n - 1) * width + width
  {}

  lemma DivStep(k: nat, width: nat)
    requires width > 0
    ensures k < width ==> k / width == 0 && k % width == k
    ensures k >= width ==> k / width == (k - width) / width + 1 && k % width == (k - width) % width
  {
    if k >= width {
      var q, r := (k - width) / width, (k - width) % width;
      assert k == (q + 1) * width + r;
      DivUnique(k, q + 1, r, width);
    }
  }

  lemma DivUnique(k: nat, q: nat, r: nat, width: nat)
    requires r < width && k == q * width + r
    ensures k / width == q && k % width == r
  {
    var p := k / width;
    assert k == p * width + k % width;
    assert p < q ==> (p + 1) * width <= q * width;
    assert p > q ==> (q + 1) * width <= p * width;
  }

  /** Bit k of the whole is bit k mod width of word k div width. */
  lemma {:induction false} FlattenAt(ws: seq<BitString>, width: nat, k: nat)
    requires AllOfWidth(ws, width) && width > 0 && k < |Flatten(ws)|
    ensures k / width < |ws| && k % width < width == |ws[k / width]|
    ensures Flatten(ws)[k] == ws[k / width][k % width]
  {
    DivStep(k, width);
    if k >= width {
      FlattenAt(ws[1..], width, k - width);
    }
  }

  function WordBit(ws: seq<BitString>, width: nat, k: nat): (b: bool)
    requires AllOfWidth(ws, width) && width > 0 && k < |Flatten(ws)|
    ensures b == Flatten(ws)[k]
  {
    FlattenAt(ws, width, k);
    ws[k / width][k % width]
  }

  function WithBit(ws: seq<BitString>, q: nat, r: nat, b: bool): seq<BitString>
    requires q < |ws| && r < |ws[q]|
  {
    ws[q := ws[q][r := b]]
  }

  /** Setting one bit of one word sets the corresponding bit of the whole. */
  lemma {:induction false} FlattenWithBit(ws: seq<BitString>, width: nat, k: nat, b: bool)
    requires AllOfWidth(ws, width) && width > 0 && k < |Flatten(ws)|
    ensures k / width < |ws| && k % width < width
    ensures var ws' := WithBit(ws, k / width, k % width, b);
            AllOfWidth(ws', width) && Flatten(ws') == Flatten(ws)[k := b]
  {
    DivStep(k, width);
    FlattenAt(ws, width, k);
    var ws' := WithBit(ws, k / width, k % width, b);
    if k < width {
      assert ws'[1..] == ws[1..];
    } else {
      FlattenWithBit(ws[1..], width, k - width, b);
      assert ws'[1..] == WithBit(ws[1..], (k - width) / width, (k - width) % width, b);
      assert ws'[0] == ws[0];
    }
  }

  /** The first n words of a bit string; Flatten the other way round. */
  function Chop(s: BitString, width: nat, n: nat): (ws: seq<BitString>)
    requires |s| == n * width
    ensures |ws| == n && AllOfWidth(ws, width)
  {
    if n == 0 then []
    else
      OneMore(n, width);
      [s[..width]] + Chop(s[width..], width, n - 1)
  }

  /** Words of one width are told by their bits alone. */
  lemma {:induction false} ChopOfFlatten(ws: seq<BitString>, width: nat)
    requires AllOfWidth(ws, width)
    ensures |Flatten(ws)| == |ws| * width && Chop(Flatten(ws), width, |ws|) == ws
  {
    FlattenLength(ws, width);
    if ws != [] {
      FlattenLength(ws[1..], width);
      SplitBack(ws[0], Flatten(ws[1..]));
      ChopOfFlatten(ws[1..], width);
      HeadTail(ws);
    }
  }

  /** So two arrays of words with the same bits are the same array. */
  lemma FlattenIsInjective(vs: seq<BitString>, ws: seq<BitString>, width: nat)
    requires AllOfWidth(vs, width) && AllOfWidth(ws, width) && |vs| == |ws| && Flatten(vs) == Flatten(ws)
    ensures vs == ws
  {
    ChopOfFlatten(vs, width);
    ChopOfFlatten(ws, width);
  }

  /** And a bit string is told by the words it is cut into. */
  lemma {:induction false} FlattenOfChop(s: BitString, width: nat, n: nat)
    requires |s| == n * width
    ensures Flatten(Chop(s, width, n)) == s
  {
    if n > 0 {
      OneMore(n, width);
      var later := Chop(s[width..], width, n - 1);
      FlattenOfChop(s[width..], width, n - 1);
      assert Chop(s, width, n) == [s[..width]] + later && ([s[..width]] + later)[1..] == later;
    }
  }
}
