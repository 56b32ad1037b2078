/**
 The bitmap functions of src/std/rtl.cpp, which work on 32-bit words, proved against the bits one by
 one.
 */
module Bitmap {
  const U32: nat := 0x1_0000_0000
  const ALL_ONES: bv32 := 0xFFFF_FFFF

  // ----- positions as numbers and as shift amounts -----

  function Offset(k: nat): bv6
    requires k < 64
  {
    k as bv6
  }

  lemma OffsetBack(k: nat)
    requires k < 64
    ensures Offset(k) as int == k
  {
  }

  lemma LessAsInt(a: bv6, b: bv6)
    ensures a < b <==> (a as int) < (b as int)
  {
  }

  lemma OffsetsCompare(k: nat, n: nat)
    requires k < 64 && n < 64
    ensures Offset(k) < Offset(n) <==> k < n
  {
    OffsetBack(k);
    OffsetBack(n);
    LessAsInt(Offset(k), Offset(n));
  }

  lemma PlusAsInt(a: bv6, b: bv6)
    requires a <= 32 && b < 32
    ensures (a + b) as int == (a as int) + (b as int)
  {
  }

  lemma SameAsInt(a: bv6, b: bv6)
    requires (a as int) == (b as int)
    ensures a == b
  {
  }

  lemma OffsetsPlus(k: nat, n: nat)
    requires k <= 32 && n < 32
    ensures Offset(k) + Offset(n) == Offset(k + n)
  {
    OffsetBack(k);
    OffsetBack(n);
    OffsetBack(k + n);
    OffsetsCompare(32, k);
    OffsetsCompare(n, 32);
    PlusAsInt(Offset(k), Offset(n));
    SameAsInt(Offset(k) + Offset(n), Offset(k + n));
  }

  // ----- bits of a word -----

  /** Bit k of a word. */
  predicate BitAt(w: bv32, k: bv6)
    decreases k
  {
    if k == 0 then w & 1 == 1 else BitAt(w >> 1, k - 1)
  }

  predicate Shifted(w: bv32, k: bv6)
    requires k < 32
  {
    (w >> k) & 1 == 1
  }

  lemma {:induction false} BitAtIs(w: bv32, k: bv6)
    requires k < 32
    ensures BitAt(w, k) <==> Shifted(w, k)
    decreases k
  {
    if k > 0 {
      BitAtIs(w >> 1, k - 1);
      ShiftTwice(w, k);
    }
  }

  lemma ShiftTwice(w: bv32, k: bv6)
    requires 0 < k < 32
    ensures (w >> 1) >> (k - 1) == w >> k
  {
  }

  lemma LowBits(n: bv6, k: bv6)
    requires n < 32 && k < 32
    ensures var low: bv32 := (1 << n) - 1; Shifted(low, k) <==> k < n
  {
  }

  lemma ShiftedBits(w: bv32, o: bv6, k: bv6)
    requires k < 32 && o < 32
    ensures Shifted(w << o, k) <==> o <= k && Shifted(w, k - o)
  {
  }

  lemma OnesBits(k: bv6)
    requires k < 32
    ensures Shifted(ALL_ONES, k)
  {
  }

  lemma JoinedBits(a: bv32, b: bv32, k: bv6)
    requires k < 32
    ensures Shifted(a | b, k) <==> Shifted(a, k) || Shifted(b, k)
    ensures Shifted(a & !b, k) <==> Shifted(a, k) && !Shifted(b, k)
  {
  }

  lemma TestedBit(w: bv32, k: bv6)
    requires k < 32
    ensures w & (1 << k) != 0 <==> Shifted(w, k)
  {
  }

  /** Bit k of a mask is set exactly for lo <= k < hi. */
  ghost predicate MaskIs(mask: bv32, lo: bv6, hi: bv6) {
    forall k: bv6 {:trigger BitAt(mask, k)} :: k < 32 ==> (BitAt(mask, k) <==> lo <= k && k < hi)
  }

  /** w' is w with the bits from lo to hi - 1 set to v. */
  ghost predicate WordSet(w: bv32, w': bv32, lo: bv6, hi: bv6, v: bool) {
    forall k: bv6 {:trigger BitAt(w', k)} :: k < 32 ==> (BitAt(w', k) <==> if lo <= k && k < hi then v else BitAt(w, k))
  }

  /** The n low ones, shifted by o. */
  method LowMask(n: bv6, o: bv6) returns (mask: bv32)
    requires n < 32 && o < 32 && o + n <= 32
    ensures MaskIs(mask, o, o + n)
  {
    var low: bv32 := (1 << n) - 1;
    mask := low << o;
    forall k: bv6 | k < 32
      ensures BitAt(mask, k) <==> o <= k && k < o + n
    {
      BitAtIs(mask, k);
      ShiftedBits(low, o, k);
      if o <= k {
        LowBits(n, k - o);
      }
    }
  }

  /** Ones from bit o on. */
  method HighMask(o: bv6) returns (mask: bv32)
    requires o < 32
    ensures MaskIs(mask, o, 32)
  {
    mask := ALL_ONES << o;
    forall k: bv6 | k < 32
      ensures BitAt(mask, k) <==> o <= k && k < 32
    {
      BitAtIs(mask, k);
      ShiftedBits(ALL_ONES, o, k);
      if o <= k {
        OnesBits(k - o);
      }
    }
  }

  /** Sets or clears the bits of a mask. */
  method Apply(w: bv32, mask: bv32, v: bool, ghost lo: bv6, ghost hi: bv6) returns (w': bv32)
    requires MaskIs(mask, lo, hi)
    ensures WordSet(w, w', lo, hi, v)
  {
    w' := if v then w | mask else w & !mask;
    forall k: bv6 | k < 32
      ensures BitAt(w', k) <==> if lo <= k && k < hi then v else BitAt(w, k)
    {
      BitAtIs(w, k);
      BitAtIs(mask, k);
      BitAtIs(w', k);
      JoinedBits(w, mask, k);
      assert BitAt(mask, k) <==> lo <= k && k < hi;
    }
  }

  method TestBit(w: bv32, k: bv6) returns (isSet: bool)
    requires k < 32
    ensures isSet <==> BitAt(w, k)
  {
    isSet := w & (1 << k) != 0;
    BitAtIs(w, k);
    TestedBit(w, k);
  }

  lemma WholeWord(w: bv32)
    ensures WordSet(w, ALL_ONES, 0, 32, true) && WordSet(w, 0, 0, 32, false)
  {
    forall k: bv6 | k < 32
      ensures BitAt(ALL_ONES, k) && !BitAt(0, k)
    {
      BitAtIs(ALL_ONES, k);
      BitAtIs(0, k);
      OnesBits(k);
    }
  }

  // ----- bits of a buffer -----

  /** Bit i of a buffer of words. */
  ghost predicate BitOf(s: seq<bv32>, i: int) {
    0 <= i < 32 * |s| && BitIn(s[i / 32], i % 32)
  }

  ghost predicate BitIn(w: bv32, k: int) {
    0 <= k < 32 && BitAt(w, Offset(k))
  }

  /** Setting bits of a word, with positions as numbers. */
  lemma BitInWord(w: bv32, w': bv32, lo: nat, hi: nat, v: bool, k: nat)
    requires lo <= hi <= 32 && k < 32 && WordSet(w, w', Offset(lo), Offset(hi), v)
    ensures BitIn(w', k) <==> if lo <= k < hi then v else BitIn(w, k)
  {
    OffsetsCompare(k, 32);
    OffsetsCompare(k, lo);
    OffsetsCompare(k, hi);
  }

  /** s' is s with n bits from `start` on set to v: the definition bit by bit. */
  ghost predicate Filled(s: seq<bv32>, s': seq<bv32>, start: nat, n: nat, v: bool) {
    && |s'| == |s|
    && forall i {:trigger BitOf(s', i)} :: 0 <= i < 32 * |s| ==>
         (BitOf(s', i) <==> if start <= i < start + n then v else BitOf(s, i))
  }

  /** Filling part of the next word extends the filled range. */
  lemma WordFilled(s: seq<bv32>, t: seq<bv32>, start: nat, n: nat, v: bool, index: nat, w: bv32, lo: nat, hi: nat)
    requires Filled(s, t, start, n, v) && index < |t| && lo <= hi <= 32 && start + n == 32 * index + lo
             && (lo == 0 || n == 0)
    requires WordSet(t[index], w, Offset(lo), Offset(hi), v)
    ensures Filled(s, t[index := w], start, n + hi - lo, v)
  {
    var t' := t[index := w];
    forall i | 0 <= i < 32 * |s|
      ensures BitOf(t', i) <==> if start <= i < start + (n + hi - lo) then v else BitOf(s, i)
    {
      assert BitOf(t, i) <==> if start <= i < start + n then v else BitOf(s, i);
      if i / 32 == index {
        BitInWord(t[index], w, lo, hi, v, i % 32);
      } else {
        assert t'[i / 32] == t[i / 32];
      }
    }
  }

  method FillPart(buffer: array<bv32>, index: nat, lo: nat, n: nat, v: bool)
    requires index < buffer.Length && lo < 32 && n < 32 && lo + n <= 32
    modifies buffer
    ensures buffer[..] == old(buffer[..])[index := buffer[index]]
            && WordSet(old(buffer[index]), buffer[index], Offset(lo), Offset(lo + n), v)
  {
    OffsetsCompare(lo, 32);
    OffsetsCompare(n, 32);
    OffsetsCompare(32, lo + n);
    OffsetsPlus(lo, n);
    var mask := LowMask(Offset(n), Offset(lo));
    buffer[index] := Apply(buffer[index], mask, v, Offset(lo), Offset(lo + n));
  }

  /** The common form of RtlSetBits and RtlClearBits: partial words at the ends, whole words between. */
  method FillBits(buffer: array<bv32>, start: nat, number: nat, v: bool)
    requires start + number <= 32 * buffer.Length
    modifies buffer
    ensures Filled(old(buffer[..]), buffer[..], start, number, v)
  {
    var offset, index, n := start % 32, start / 32, number;
    ghost var s, done := buffer[..], 0;
    if offset != 0 {
      if n <= 32 - offset {
        FillPart(buffer, index, offset, n, v);
        WordFilled(s, s, start, 0, v, index, buffer[index], offset, offset + n);
        return;
      }
      FillHigh(buffer, index, offset, v);
      WordFilled(s, s, start, 0, v, index, buffer[index], offset, 32);
      n, index, done := n - (32 - offset), index + 1, 32 - offset;
    }
    while n >= 32
      invariant n >= 0 && index <= buffer.Length && start + done == 32 * index && done + n == number
                && Filled(s, buffer[..], start, done, v)
    {
      ghost var t := buffer[..];
      WholeWord(buffer[index]);
      buffer[index] := if v then ALL_ONES else 0;
      WordFilled(s, t, start, done, v, index, buffer[index], 0, 32);
      assert buffer[..] == t[index := buffer[index]];
      n, index, done := n - 32, index + 1, done + 32;
    }
    if n != 0 {
      ghost var t := buffer[..];
      FillPart(buffer, index, 0, n, v);
      WordFilled(s, t, start, done, v, index, buffer[index], 0, n);
    }
  }

  method FillHigh(buffer: array<bv32>, index: nat, lo: nat, v: bool)
    requires index < buffer.Length && lo < 32
    modifies buffer
    ensures buffer[..] == old(buffer[..])[index := buffer[index]]
            && WordSet(old(buffer[index]), buffer[index], Offset(lo), Offset(32), v)
  {
    OffsetsCompare(lo, 32);
    var mask := HighMask(Offset(lo));
    buffer[index] := Apply(buffer[index], mask, v, Offset(lo), Offset(32));
  }

  method RtlSetBits(buffer: array<bv32>, start: nat, number: nat)
    requires start + number <= 32 * buffer.Length
    modifies buffer
    ensures Filled(old(buffer[..]), buffer[..], start, number, true)
  {
    FillBits(buffer, start, number, true);
  }

  method RtlClearBits(buffer: array<bv32>, start: nat, number: nat)
    requires start + number <= 32 * buffer.Length
    modifies buffer
    ensures Filled(old(buffer[..]), buffer[..], start, number, false)
  {
    FillBits(buffer, start, number, false);
  }

  // ----- single bits -----

  lemma OneBit(o: bv6, k: bv6)
    requires k < 32 && o < 32
    ensures var one: bv32 := 1 << o; Shifted(one, k) <==> o == k
  {
  }

  /** buffer[i / 32] & 1 << i % 32 */
  method GetBit(buffer: array<bv32>, i: nat) returns (isSet: bool)
    requires i < 32 * buffer.Length
    ensures isSet <==> BitOf(buffer[..], i)
  {
    OffsetsCompare(i % 32, 32);
    isSet := TestBit(buffer[i / 32], Offset(i % 32));
  }

  method RtlSetBit(buffer: array<bv32>, i: nat)
    requires i < 32 * buffer.Length
    modifies buffer
    ensures Filled(old(buffer[..]), buffer[..], i, 1, true)
  {
    ghost var s := buffer[..];
    var index, offset := i / 32, i % 32;
    OffsetsCompare(offset, 32);
    OffsetsPlus(offset, 1);
    var mask := OneMask(Offset(offset));
    buffer[index] := Apply(buffer[index], mask, true, Offset(offset), Offset(offset + 1));
    WordFilled(s, s, i, 0, true, index, buffer[index], offset, offset + 1);
    assert buffer[..] == s[index := buffer[index]];
  }

  method OneMask(o: bv6) returns (mask: bv32)
    requires o < 32
    ensures MaskIs(mask, o, o + 1)
  {
    mask := 1 << o;
    forall k: bv6 | k < 32
      ensures BitAt(mask, k) <==> o <= k && k < o + 1
    {
      BitAtIs(mask, k);
      OneBit(o, k);
    }
  }

  /** The n bits from i on are clear. */
  ghost predicate Clear(s: seq<bv32>, i: nat, n: nat) {
    forall j {:trigger BitOf(s, j)} :: i <= j < i + n ==> !BitOf(s, j)
  }

  /** How many of the n bits from i on are clear, up to the first set one. */
  method ClearRun(buffer: array<bv32>, i: nat, n: nat) returns (k: nat)
    requires n > 0 ==> i + n <= 32 * buffer.Length
    ensures k <= n && Clear(buffer[..], i, k) && (k < n ==> BitOf(buffer[..], i + k))
  {
    k := 0;
    while k < n
      invariant k <= n && Clear(buffer[..], i, k)
    {
      var taken := GetBit(buffer, i + k);
      if taken {
        return;
      }
      k := k + 1;
    }
  }

  /** The least start from `start` on, below `size`, of n clear bits; `size` or more if there is none. */
  method FindClear(buffer: array<bv32>, size: nat, n: nat, start: nat) returns (index: nat)
    requires size == 0 || n == 0 || size + n <= 32 * buffer.Length + 1
    ensures index >= start && (index < size ==> Clear(buffer[..], index, n))
    ensures forall i :: start <= i < index && i < size ==> !Clear(buffer[..], i, n)
  {
    index := start;
    while index < size
      invariant index >= start && forall i :: start <= i < index && i < size ==> !Clear(buffer[..], i, n)
      decreases size - index
    {
      var k := ClearRun(buffer, index, n);
      if k == n {
        return;
      }
      forall i | index <= i <= index + k
        ensures !Clear(buffer[..], i, n)
      {
        assert BitOf(buffer[..], index + k) && i <= index + k < i + n;
      }
      index := index + k + 1;
    }
  }

  /** r is the least number from `from` on, below `size`, where n bits are clear. */
  ghost predicate LeastClear(s: seq<bv32>, size: nat, n: nat, from: nat, r: nat) {
    from <= r < size && Clear(s, r, n) && forall i :: from <= i < r ==> !Clear(s, i, n)
  }

  ghost predicate NoneClear(s: seq<bv32>, size: nat, n: nat, from: nat) {
    forall i :: from <= i < size ==> !Clear(s, i, n)
  }

  /** n clear bits that lie inside the bitmap start at or after `from`. */
  ghost predicate ClearInside(s: seq<bv32>, size: nat, n: nat, from: nat) {
    exists i {:trigger Clear(s, i, n)} :: from <= i < size && i + n <= size && Clear(s, i, n)
  }

  /** The search looks at starts inside the bitmap, not at ends: what it finds from some index on lies
      inside exactly if something from there on does. */
  lemma InsideIff(s: seq<bv32>, size: nat, n: nat, from: nat, r: nat)
    requires LeastClear(s, size, n, from, r)
    ensures r + n <= size <==> ClearInside(s, size, n, from)
  {
    if ClearInside(s, size, n, from) {
      var i: nat :| from <= i < size && i + n <= size && Clear(s, i, n);
      assert i >= r;
    }
  }

  /** Finds n clear bits, from the hint on and then from the start, and sets them.  They can reach past
      the end of the bitmap, even if others inside it, before the hint, are clear. */
  method RtlFindClearBitsAndSet(buffer: array<bv32>, size: nat, n: nat, hint: nat) returns (r: nat)
    requires size < U32 && n < U32 && hint < U32 && 32 * buffer.Length < U32
             && (size == 0 || n == 0 || size + n <= 32 * buffer.Length + 1)
    modifies buffer
    ensures !NoneClear(old(buffer[..]), size, n, hint) ==> LeastClear(old(buffer[..]), size, n, hint, r)
    ensures NoneClear(old(buffer[..]), size, n, hint) && !NoneClear(old(buffer[..]), size, n, 0) ==>
              LeastClear(old(buffer[..]), size, n, 0, r)
    ensures NoneClear(old(buffer[..]), size, n, 0) <==> r == U32 - 1
    ensures if r == U32 - 1 then buffer[..] == old(buffer[..]) else Filled(old(buffer[..]), buffer[..], r, n, true)
    ensures r != U32 - 1 ==>
              (r + n <= size <==>
               || ClearInside(old(buffer[..]), size, n, hint)
               || (NoneClear(old(buffer[..]), size, n, hint) && ClearInside(old(buffer[..]), size, n, 0)))
  {
    r := FindClear(buffer, size, n, hint);
    if r >= size && hint != 0 {
      r := FindClear(buffer, size, n, 0);
    }
    if r >= size {
      return U32 - 1;
    }
    ghost var s := buffer[..];
    InsideIff(s, size, n, if NoneClear(s, size, n, hint) then 0 else hint, r);
    assert NoneClear(s, size, n, hint) ==> !ClearInside(s, size, n, hint);
    var i := 0;
    while i < n
      invariant i <= n && Filled(s, buffer[..], r, i, true)
    {
      RtlSetBit(buffer, r + i);
      i := i + 1;
    }
  }

  lemma ZeroWord(k: bv6)
    requires k < 32
    ensures !BitAt(0, k)
  {
    BitAtIs(0, k);
  }

  /** In a bitmap of one clear bit two clear bits are found, and the bit behind its end is set. */
  method SetsPastTheEnd() returns (buffer: array<bv32>, r: nat)
    ensures fresh(buffer) && buffer.Length == 1 && r == 0 && BitOf(buffer[..], 1)
  {
    buffer := new bv32[1](_ => 0);
    ghost var s := buffer[..];
    forall j | 0 <= j < 2
      ensures !BitOf(s, j)
    {
      OffsetsCompare(j, 32);
      ZeroWord(Offset(j));
    }
    assert Clear(s, 0, 2);
    r := RtlFindClearBitsAndSet(buffer, 1, 2, 0);
  }

  /** All bits in [i, k) are set. */
  ghost predicate AllSet(s: seq<bv32>, i: nat, k: nat) {
    forall j {:trigger BitOf(s, j)} :: i <= j < k ==> BitOf(s, j)
  }

  /** Behind set bits from `from` on, the bits from k to the end of the bitmap are clear. */
  ghost predicate ClearToTheEnd(s: seq<bv32>, size: nat, from: nat, k: nat) {
    from <= k < size && AllSet(s, from, k) && Clear(s, k, size - k)
  }

  /** Behind set bits from `from` on, there are n clear bits at k and then a set one, in the bitmap. */
  ghost predicate FirstRun(s: seq<bv32>, size: nat, from: nat, k: nat, n: nat) {
    from <= k && n > 0 && k + n < size && AllSet(s, from, k) && Clear(s, k, n) && BitOf(s, k + n)
  }

  lemma OneEnd(s: seq<bv32>, size: nat, from: nat, k: nat, k': nat, n: nat)
    requires FirstRun(s, size, from, k, n)
    ensures !ClearToTheEnd(s, size, from, k')
  {
    assert !BitOf(s, k) && BitOf(s, k + n);
  }

  /**
   The first run of clear bits: its length is right, but the index returned is the one behind the set
   bit that ends it, length + 1 too far.  A run at the end of the bitmap is never found: `stuck` says
   that the source repeats the same pass forever, which it does exactly then.
   */
  method RtlFindNextForwardRunClear(buffer: array<bv32>, size: nat, from: nat) returns (stuck: bool, count: nat,
        index: nat)
    requires size <= 32 * buffer.Length
    ensures stuck <==> exists k: nat :: ClearToTheEnd(buffer[..], size, from, k)
    ensures !stuck && count > 0 ==> exists k: nat ::
              FirstRun(buffer[..], size, from, k, count) && index == k + count + 1
    ensures !stuck && count == 0 ==> AllSet(buffer[..], from, size)
  {
    index := from;
    while index < size
      invariant index >= from && AllSet(buffer[..], from, index)
      decreases size - index
    {
      ghost var k := index;
      count := ClearRun(buffer, index, size - index);
      if count == size - index {
        assert ClearToTheEnd(buffer[..], size, from, k);
        return true, 0, index;
      }
      index := index + count + 1;
      if count != 0 {
        assert FirstRun(buffer[..], size, from, k, count);
        forall k': nat
          ensures !ClearToTheEnd(buffer[..], size, from, k')
        {
          OneEnd(buffer[..], size, from, k, k', count);
        }
        return false, count, index;
      }
    }
    forall k: nat
      ensures !ClearToTheEnd(buffer[..], size, from, k)
    {
      assert from <= k < size ==> BitOf(buffer[..], k);
    }
    stuck, count := false, 0;
  }

  // ----- queries -----

  /** The range is not empty, lies in the bitmap, and all its bits are v. */
  ghost predicate RangeIs(s: seq<bv32>, size: nat, start: nat, length: nat, v: bool) {
    length > 0 && start + length <= size && forall i {:trigger BitOf(s, i)} :: start <= i < start + length ==>
          BitOf(s, i) == v
  }

  /**
   RtlAreBitsSet and RtlAreBitsClear.  The end of the range is computed in 32 bits; where it wraps
   around, the answer is yes whatever the bits are.  The answer is right exactly if it does not wrap,
   or if the start is outside the bitmap anyway.
   */
  method AreBits(buffer: array<bv32>, size: nat, start: nat, length: nat, v: bool) returns (r: bool)
    requires size < U32 && start < U32 && length < U32 && size <= 32 * buffer.Length
    ensures start + length < U32 || start >= size ==> (r <==> RangeIs(buffer[..], size, start, length, v))
    ensures start + length >= U32 && start < size ==> r && !RangeIs(buffer[..], size, start, length, v)
  {
    var end := (start + length) % U32;
    if length == 0 || start >= size || end > size {
      return false;
    }
    var i := start;
    while i < end
      invariant start <= i && (start <= end ==> i <= end) && forall j {:trigger BitOf(buffer[..], j)} ::
                  start <= j < i && j < end ==> BitOf(buffer[..], j) == v
    {
      var bit := GetBit(buffer, i);
      if bit != v {
        return false;
      }
      i := i + 1;
    }
    r := true;
  }

  method RtlAreBitsSet(buffer: array<bv32>, size: nat, start: nat, length: nat) returns (r: bool)
    requires size < U32 && start < U32 && length < U32 && size <= 32 * buffer.Length
    ensures (r <==> RangeIs(buffer[..], size, start, length, true)) <==> start + length < U32 || start >= size
  {
    r := AreBits(buffer, size, start, length, true);
  }

  method RtlAreBitsClear(buffer: array<bv32>, size: nat, start: nat, length: nat) returns (r: bool)
    requires size < U32 && start < U32 && length < U32 && size <= 32 * buffer.Length
    ensures (r <==> RangeIs(buffer[..], size, start, length, false)) <==> start + length < U32 || start >= size
  {
    r := AreBits(buffer, size, start, length, false);
  }

  /** How many of the first n bits are v. */
  ghost function Count(s: seq<bv32>, n: nat, v: bool): nat {
    if n == 0 then 0 else Count(s, n - 1, v) + if BitOf(s, n - 1) == v then 1 else 0
  }

  /** RtlNumberOfSetBits and RtlNumberOfClearBits. */
  method NumberOfBits(buffer: array<bv32>, size: nat, v: bool) returns (count: nat)
    requires size <= 32 * buffer.Length
    ensures count == Count(buffer[..], size, v) && count <= size
  {
    count := 0;
    for i := 0 to size
      invariant count == Count(buffer[..], i, v) && count <= i
    {
      var bit := GetBit(buffer, i);
      if bit == v {
        count := count + 1;
      }
    }
  }

  lemma {:induction false} SetAndClear(s: seq<bv32>, n: nat)
    ensures Count(s, n, true) + Count(s, n, false) == n
  {
    if n > 0 {
      SetAndClear(s, n - 1);
    }
  }

  /** Setting n clear bits adds n to the set bits of a bitmap that has them all. */
  lemma {:induction false} FilledCounts(s: seq<bv32>, s': seq<bv32>, start: nat, n: nat, size: nat)
    requires Filled(s, s', start, n, true) && Clear(s, start, n) && size <= 32 * |s|
    ensures Count(s', size, true) == Count(s, size, true) + if size <= start then 0
            else if size < start + n then size - start else n
    decreases size
  {
    if size > 0 {
      FilledCounts(s, s', start, n, size - 1);
      assert BitOf(s', size - 1) <==> if start <= size - 1 < start + n then true else BitOf(s, size - 1);
    }
  }
}
