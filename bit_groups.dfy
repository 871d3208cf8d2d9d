/**
 * Bit windows of a byte array, numbered the way java.util.BitSet.valueOf(byte[])
 * numbers them (bit n is bit n % 8 of byte n / 8), and their split into
 * consecutive unsigned groups read least-significant bit first.
 */
module BitGroups {

  /** Bit k of a byte, bit 0 being the least significant. */
  function ByteBit(b: bv8, k: nat): bool
    requires k < 8
  {
    match k
    case 0 => b & 0x01 != 0
    case 1 => b & 0x02 != 0
    case 2 => b & 0x04 != 0
    case 3 => b & 0x08 != 0
    case 4 => b & 0x10 != 0
    case 5 => b & 0x20 != 0
    case 6 => b & 0x40 != 0
    case _ => b & 0x80 != 0
  }

  /** Bit n of raw, counting eight bits per byte from the first byte's least significant one; a bit past the end reads as 0. */
  function RawBit(raw: seq<bv8>, n: nat): bool {
    if raw == [] then false
    else if n < 8 then ByteBit(raw[0], n)
    else RawBit(raw[1..], n - 8)
  }

  /** That numbering is BitSet.valueOf's: bit n is bit n % 8 of byte n / 8. */
  lemma {:induction false} RawBitAt(raw: seq<bv8>, n: nat)
    ensures RawBit(raw, n) == (n / 8 < |raw| && ByteBit(raw[n / 8], n % 8))
  {
    if raw != [] && n >= 8 {
      RawBitAt(raw[1..], n - 8);
      assert (n - 8) / 8 == n / 8 - 1 && (n - 8) % 8 == n % 8;
    }
  }

  /** BitSet.valueOf(raw).get(from, from + width) as a list of width bits. */
  function Window(raw: seq<bv8>, from: nat, width: nat): (w: seq<bool>)
    ensures |w| == width
    decreases width
  {
    if width == 0 then [] else [RawBit(raw, from)] + Window(raw, from + 1, width - 1)
  }

  /** Bit j of the window is bit from + j of the data. */
  lemma {:induction false} WindowAt(raw: seq<bv8>, from: nat, width: nat, j: nat)
    requires j < width
    ensures Window(raw, from, width)[j] == RawBit(raw, from + j)
    decreases width
  {
    if j > 0 {
      WindowAt(raw, from + 1, width - 1, j - 1);
    }
  }

  /** BitSet.get(from, from + size) on a window: bits past the window read as 0. */
  function Slice(w: seq<bool>, from: nat, size: nat): (s: seq<bool>)
    ensures |s| == size
    ensures forall k :: 0 <= k < size ==> s[k] == (from + k < |w| && w[from + k])
  {
    seq(size, k requires 0 <= k < size => from + k < |w| && w[from + k])
  }

  /** Inside the window, a slice is the window's own run of bits. */
  lemma SliceInside(w: seq<bool>, from: nat, size: nat)
    requires from + size <= |w|
    ensures Slice(w, from, size) == w[from..from + size]
  {
  }

  /** A slice that starts at or past the end of the window holds only clear bits. */
  lemma SlicePastEnd(w: seq<bool>, from: nat, size: nat)
    requires |w| <= from
    ensures forall k :: 0 <= k < size ==> !Slice(w, from, size)[k]
  {
  }

  function Pow2(n: nat): (p: nat)
    ensures p >= 1
  {
    if n == 0 then 1 else 2 * Pow2(n - 1)
  }

  /** v shifted left by n bits, that is v * 2^n (see ShiftLeftIsProduct). */
  function ShiftLeft(v: nat, n: nat): nat {
    if n == 0 then v else 2 * ShiftLeft(v, n - 1)
  }

  lemma {:induction false} ShiftLeftIsProduct(v: nat, n: nat)
    ensures ShiftLeft(v, n) == v * Pow2(n)
  {
    if n > 0 {
      ShiftLeftIsProduct(v, n - 1);
      calc {
        ShiftLeft(v, n);
        2 * (v * Pow2(n - 1));
        v * (2 * Pow2(n - 1));
      }
    }
  }

  /** The unsigned value of an LSB-first bit list: the sum of bit i times 2^i. */
  function Unsigned(bits: seq<bool>): nat {
    if bits == [] then 0 else (if bits[0] then 1 else 0) + 2 * Unsigned(bits[1..])
  }

  /** The cumulative offset of group i: the sum of the sizes of the groups before it. */
  function Offset(sizes: seq<nat>, i: nat): nat
    requires i <= |sizes|
  {
    if i == 0 then 0 else Offset(sizes, i - 1) + sizes[i - 1]
  }

  /**
   * The groups of the window read from bit offset on, one unsigned value per
   * group size, each group starting where the previous one ended.
   */
  function Groups(w: seq<bool>, sizes: seq<nat>, offset: nat): (g: seq<nat>)
    ensures |g| == |sizes|
  {
    if sizes == [] then []
    else [Unsigned(Slice(w, offset, sizes[0]))] + Groups(w, sizes[1..], offset + sizes[0])
  }

  /** Puts the groups back together: group 0 at bit 0, each next one above the previous. */
  function Recombine(g: seq<nat>, sizes: seq<nat>): nat
    requires |g| == |sizes|
  {
    if g == [] then 0 else g[0] + ShiftLeft(Recombine(g[1..], sizes[1..]), sizes[0])
  }

  function Total(sizes: seq<nat>): nat {
    if sizes == [] then 0 else sizes[0] + Total(sizes[1..])
  }

  lemma {:induction false} UnsignedBound(bits: seq<bool>)
    ensures Unsigned(bits) < Pow2(|bits|)
  {
    if bits != [] {
      UnsignedBound(bits[1..]);
    }
  }

  lemma {:induction false} UnsignedOfZeros(bits: seq<bool>)
    requires forall k :: 0 <= k < |bits| ==> !bits[k]
    ensures Unsigned(bits) == 0
  {
    if bits != [] {
      UnsignedOfZeros(bits[1..]);
    }
  }

  lemma {:induction false} UnsignedAppend(a: seq<bool>, b: seq<bool>)
    ensures Unsigned(a + b) == Unsigned(a) + ShiftLeft(Unsigned(b), |a|)
  {
    if a == [] {
      assert a + b == b;
    } else {
      var ab := a + b;
      assert ab[0] == a[0] && ab[1..] == a[1..] + b;
      UnsignedAppend(a[1..], b);
    }
  }

  lemma SliceSplit(w: seq<bool>, from: nat, a: nat, b: nat)
    ensures Slice(w, from, a + b) == Slice(w, from, a) + Slice(w, from + a, b)
  {
    var l, r := Slice(w, from, a), Slice(w, from + a, b);
    forall k | 0 <= k < a + b
      ensures Slice(w, from, a + b)[k] == (l + r)[k]
    {
      if k >= a {
        assert (l + r)[k] == r[k - a];
      }
    }
  }

  /** Group i covers bits [Offset(i), Offset(i) + size_i) of the window, read from bit offset on. */
  lemma {:induction false} GroupAt(w: seq<bool>, sizes: seq<nat>, offset: nat, i: nat)
    requires i < |sizes|
    ensures Groups(w, sizes, offset)[i] == Unsigned(Slice(w, offset + Offset(sizes, i), sizes[i]))
  {
    if i > 0 {
      GroupAt(w, sizes[1..], offset + sizes[0], i - 1);
      OffsetOfTail(sizes, i);
    }
  }

  lemma {:induction false} OffsetOfTail(sizes: seq<nat>, i: nat)
    requires 0 < i <= |sizes|
    ensures Offset(sizes, i) == sizes[0] + Offset(sizes[1..], i - 1)
  {
    if i > 1 {
      OffsetOfTail(sizes, i - 1);
    }
  }

  /** A group's value fits in its width. */
  lemma GroupBound(w: seq<bool>, sizes: seq<nat>, offset: nat, i: nat)
    requires i < |sizes|
    ensures Groups(w, sizes, offset)[i] < Pow2(sizes[i])
  {
    GroupAt(w, sizes, offset, i);
    UnsignedBound(Slice(w, offset + Offset(sizes, i), sizes[i]));
  }

  /** A group that starts at or past the end of the window decodes to 0. */
  lemma GroupPastWindowIsZero(w: seq<bool>, sizes: seq<nat>, offset: nat, i: nat)
    requires i < |sizes| && offset + Offset(sizes, i) >= |w|
    ensures Groups(w, sizes, offset)[i] == 0
  {
    GroupAt(w, sizes, offset, i);
    UnsignedOfZeros(Slice(w, offset + Offset(sizes, i), sizes[i]));
  }

  /**
   * The groups tile the bits they cover with no gap and no overlap: putting every
   * group back at its offset gives the value of the whole run of bits.
   */
  lemma {:induction false} GroupsReassemble(w: seq<bool>, sizes: seq<nat>, offset: nat)
    ensures Recombine(Groups(w, sizes, offset), sizes) == Unsigned(Slice(w, offset, Total(sizes)))
  {
    if sizes == [] {
      assert Slice(w, offset, 0) == [];
    } else {
      var g := Groups(w, sizes, offset);
      GroupsReassemble(w, sizes[1..], offset + sizes[0]);
      assert g[1..] == Groups(w, sizes[1..], offset + sizes[0]);
      var first, rest := Slice(w, offset, sizes[0]), Slice(w, offset + sizes[0], Total(sizes[1..]));
      SliceSplit(w, offset, sizes[0], Total(sizes[1..]));
      UnsignedAppend(first, rest);
    }
  }

  /** When the group sizes add up to the width of the window, the groups reassemble the whole window. */
  lemma GroupsCoverWindow(w: seq<bool>, sizes: seq<nat>)
    requires Total(sizes) == |w|
    ensures Recombine(Groups(w, sizes, 0), sizes) == Unsigned(w)
  {
    GroupsReassemble(w, sizes, 0);
    assert Slice(w, 0, |w|) == w;
  }

  lemma ExampleWindow()
    ensures Window([0xA5, 0x51], 0, 15) == ExampleBits
  {
    var raw: seq<bv8> := [0xA5, 0x51];
    var w := Window(raw, 0, 15);
    var expected := ExampleBits;
    forall j | 0 <= j < 15
      ensures w[j] == expected[j]
    {
      WindowAt(raw, 0, 15, j);
    }
  }

  lemma ExampleValues()
    ensures Unsigned([true]) == 1 && Unsigned([false]) == 0
    ensures Unsigned([false, true]) == 2 && Unsigned([true, true]) == 3 && Unsigned([false, false]) == 0
    ensures Unsigned([false, true, false]) == 2
    ensures Unsigned([false, true, false, true]) == 10
  {
    assert [true][1..] == [] && [false][1..] == [];
    assert [false, true][1..] == [true] && [true, true][1..] == [true] && [false, false][1..] == [false];
    assert [false, true, false][1..] == [true, false];
    assert [true, false][1..] == [false];
    assert Unsigned([true, false]) == 1;
    assert [false, true, false, true][1..] == [true, false, true];
    assert [true, false, true][1..] == [false, true];
    assert Unsigned([true, false, true]) == 5;
  }

  const ExampleBits := [true, false, true, false, false, true, false, true, true, false, false, false, true, false, true]

  lemma ExampleSlices(w: seq<bool>)
    requires w == ExampleBits
    ensures Slice(w, 0, 1) == [true] && Slice(w, 1, 2) == [false, true] && Slice(w, 3, 1) == [false]
    ensures Slice(w, 4, 3) == [false, true, false] && Slice(w, 7, 2) == [true, true]
    ensures Slice(w, 9, 2) == [false, false] && Slice(w, 11, 4) == [false, true, false, true]
  {
  }

  /** One step of decoding: the first group is read at the offset, the rest after it. */
  lemma GroupsCons(w: seq<bool>, sizes: seq<nat>, offset: nat, v: nat, rest: seq<nat>)
    requires sizes != [] && Unsigned(Slice(w, offset, sizes[0])) == v
    requires Groups(w, sizes[1..], offset + sizes[0]) == rest
    ensures Groups(w, sizes, offset) == [v] + rest
  {
  }

  lemma ExampleTail(w: seq<bool>)
    requires Slice(w, 4, 3) == [false, true, false] && Slice(w, 7, 2) == [true, true]
    requires Slice(w, 9, 2) == [false, false] && Slice(w, 11, 4) == [false, true, false, true]
    ensures Groups(w, [3, 2, 2, 4], 4) == [2, 3, 0, 10]
  {
    ExampleValues();
    GroupsCons(w, [4], 11, 10, []);
    GroupsCons(w, [2, 4], 9, 0, [10]);
    GroupsCons(w, [2, 2, 4], 7, 3, [0, 10]);
    GroupsCons(w, [3, 2, 2, 4], 4, 2, [3, 0, 10]);
  }

  lemma ExampleGroups(w: seq<bool>)
    requires Slice(w, 0, 1) == [true] && Slice(w, 1, 2) == [false, true] && Slice(w, 3, 1) == [false]
    requires Slice(w, 4, 3) == [false, true, false] && Slice(w, 7, 2) == [true, true]
    requires Slice(w, 9, 2) == [false, false] && Slice(w, 11, 4) == [false, true, false, true]
    ensures Groups(w, [1, 2, 1, 3, 2, 2, 4], 0) == [1, 2, 0, 2, 3, 0, 10]
  {
    ExampleValues();
    ExampleTail(w);
    GroupsCons(w, [1, 3, 2, 2, 4], 3, 0, [2, 3, 0, 10]);
    GroupsCons(w, [2, 1, 3, 2, 2, 4], 1, 2, [0, 2, 3, 0, 10]);
    GroupsCons(w, [1, 2, 1, 3, 2, 2, 4], 0, 1, [2, 0, 2, 3, 0, 10]);
  }

  /** Widths [1,2,1,3,2,2,4] over the bytes 0b10100101, 0b01010001 decode to [1,2,0,2,3,0,10]. */
  lemma DecodeExample()
    ensures Groups(Window([0xA5, 0x51], 0, 15), [1, 2, 1, 3, 2, 2, 4], 0) == [1, 2, 0, 2, 3, 0, 10]
  {
    ExampleWindow();
    var w := Window([0xA5, 0x51], 0, 15);
    ExampleSlices(w);
    ExampleGroups(w);
  }
}
