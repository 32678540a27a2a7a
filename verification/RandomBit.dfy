/** Choosing one set bit of a mask (random_bit, ltp_framework/lib/random_range.c) and one I/O type and
    wait method of a request (lio_random_methods, ltp_framework/lib/tlibio.c). */
module RandomBit {
  import opened Basics
  import R = RandomRange

  /** A C long: its bits, least significant first; the last is the sign. */
  type Word = seq<bool>

  datatype Choice = NoBit | Bit(pos: nat)

  /** How many of the first n bits are set. */
  function SetBits(mask: Word, n: nat): (c: nat)
    requires n <= |mask|
    ensures c <= n
  {
    if n == 0 then 0 else SetBits(mask, n - 1) + if mask[n - 1] then 1 else 0
  }

  /** Arithmetic shift right by one. */
  function ShiftRight(mask: Word): Word
    requires mask != []
  {
    mask[1..] + [mask[|mask| - 1]]
  }

  lemma {:induction false} SetBitsMonotone(mask: Word, a: nat, b: nat)
    requires a <= b <= |mask|
    ensures SetBits(mask, a) <= SetBits(mask, b)
    decreases b
  {
    if a < b {
      SetBitsMonotone(mask, a, b - 1);
    }
  }

  lemma {:induction false} NoBits(mask: Word, n: nat)
    requires n <= |mask|
    ensures SetBits(mask, n) == 0 <==> forall i :: 0 <= i < n ==> !mask[i]
  {
    if n > 0 {
      NoBits(mask, n - 1);
    }
  }

  /** The k-th lowest set bit: set, with k - 1 set bits below it. */
  predicate IsKth(mask: Word, k: nat, pos: nat) {
    pos < |mask| && mask[pos] && SetBits(mask, pos) + 1 == k
  }

  /** Every k from 1 to the number of set bits names exactly one of them, and every set bit has its k:
      so each set bit is drawn by exactly one value of random_range(1, nbits, 1). */
  lemma KthIsUnique(mask: Word, k: nat, p: nat, q: nat)
    requires IsKth(mask, k, p) && IsKth(mask, k, q)
    ensures p == q && 1 <= k <= SetBits(mask, |mask|)
  {
    SetBitsMonotone(mask, p + 1, |mask|);
    if p < q {
      SetBitsMonotone(mask, p + 1, q);
    } else if q < p {
      SetBitsMonotone(mask, q + 1, p);
    }
  }

  lemma {:induction false} KthExists(mask: Word, k: nat, n: nat) returns (pos: nat)
    requires n <= |mask| && 1 <= k <= SetBits(mask, n)
    ensures pos < n && IsKth(mask, k, pos)
  {
    pos := n - 1;
    if k <= SetBits(mask, n - 1) {
      pos := KthExists(mask, k, n - 1);
    }
  }

  function NumBits(mask: Word): nat {
    SetBits(mask, |mask|)
  }

  lemma OneTo(n: int, draw: int)
    requires 1 <= n <= 64 && 0 <= draw < TWO_31
    ensures R.NoOverflow(1, n, 1)
    ensures R.Pick(1, n, 1, draw) == R.Value(1 + draw % n)
  {
    assert R.Rounded(1, n, 1) == R.Range(1, n);
    assert R.Count(R.Range(1, n), 1) == n;
  }

  method CountBits(mask: Word) returns (nbits: nat)
    ensures nbits == NumBits(mask)
  {
    nbits := 0;
    for nshift := 0 to |mask|
      invariant nbits == SetBits(mask, nshift)
    {
      if mask[nshift] {
        nbits := nbits + 1;
      }
    }
  }

  /** n shifts have brought bit n of the mask to the front. */
  predicate ShiftedBy(shifted: Word, mask: Word, n: nat) {
    |shifted| == |mask| && n <= |mask| && forall j :: 0 <= j < |mask| - n ==> shifted[j] == mask[n + j]
  }

  lemma ShiftOnce(shifted: Word, mask: Word, n: nat)
    requires ShiftedBy(shifted, mask, n) && n < |mask|
    ensures shifted[0] == mask[n] && ShiftedBy(ShiftRight(shifted), mask, n + 1)
  {
    forall j | 0 <= j < |mask| - (n + 1) ensures ShiftRight(shifted)[j] == mask[n + 1 + j] {
      assert ShiftRight(shifted)[j] == shifted[j + 1];
    }
  }

  /** The second loop of random_bit: shift the mask until k set bits went by. */
  method ShiftToBit(mask: Word, k: nat) returns (pos: nat)
    requires 1 <= k <= NumBits(mask)
    ensures IsKth(mask, k, pos)
  {
    var bit: nat, nshift: nat, shifted := k, 0, mask;
    assert ShiftedBy(shifted, mask, 0);
    hide ShiftRight, ShiftedBy;
    while bit > 0
      invariant nshift <= |mask| == |shifted| && ShiftedBy(shifted, mask, nshift)
      invariant SetBits(mask, nshift) + bit == k
      invariant bit == 0 ==> nshift > 0 && IsKth(mask, k, nshift - 1)
      decreases |mask| - nshift
    {
      ShiftOnce(shifted, mask, nshift);
      if shifted[0] {
        bit := bit - 1;
      }
      shifted := ShiftRight(shifted);
      nshift := nshift + 1;
    }
    pos := nshift - 1;
  }

  /** random_bit: draw is what lrand48 returns. */
  method RandomBit(mask: Word, draw: int) returns (r: Choice)
    requires |mask| <= 64 && 0 <= draw < TWO_31
    ensures r == NoBit <==> forall i :: 0 <= i < |mask| ==> !mask[i]
    ensures r.Bit? ==> NumBits(mask) > 0 && IsKth(mask, 1 + draw % NumBits(mask), r.pos)
    ensures r.Bit? ==> Drawn(mask, draw, r.pos)
  {
    NoBits(mask, |mask|);
    if forall i :: 0 <= i < |mask| ==> !mask[i] {
      return NoBit;
    }
    var nbits := CountBits(mask);
    OneTo(nbits, draw);
    hide *;
    var picked := R.RandomRange(1, nbits, 1, draw);
    var pos := ShiftToBit(mask, picked.value);
    r := Bit(pos);
  }

  /** Of the n bits set, the bit at pos is the one that (draw mod n) others are below. */
  predicate Drawn(mask: Word, draw: int, pos: nat) {
    pos < |mask| && mask[pos] && NumBits(mask) > 0 && SetBits(mask, pos) == draw % NumBits(mask)
  }

  // lio_random_methods

  function And(a: Word, b: Word): (c: Word)
    requires |a| == |b|
    ensures |c| == |a|
  {
    seq(|a|, i requires 0 <= i < |a| => a[i] && b[i])
  }

  function OneBit(c: Choice, size: nat): (w: Word)
    ensures |w| == size
  {
    seq(size, i requires 0 <= i < size => c == Bit(i))
  }

  predicate Disjoint(a: Word, b: Word) {
    |a| == |b| && forall i :: 0 <= i < |a| ==> !(a[i] && b[i])
  }

  /** lio_random_methods keeps one io-type bit and one wait bit of those asked for, if any were, clears
      LIO_RANDOM, and changes no other bit. */
  method LioRandomMethods(currMask: Word, ioTypes: Word, waitTypes: Word, random: Word, draw0: int, draw1: int)
    returns (mask: Word, ghost io: Choice, ghost wt: Choice)
    requires |currMask| <= 64 && |random| == |currMask| == |ioTypes| == |waitTypes|
    requires Disjoint(ioTypes, waitTypes) && Disjoint(ioTypes, random) && Disjoint(waitTypes, random)
    requires 0 <= draw0 < TWO_31 && 0 <= draw1 < TWO_31
    ensures |mask| == |currMask|
    ensures io == NoBit <==> forall i :: 0 <= i < |currMask| ==> !(currMask[i] && ioTypes[i])
    ensures wt == NoBit <==> forall i :: 0 <= i < |currMask| ==> !(currMask[i] && waitTypes[i])
    ensures io.Bit? ==> io.pos < |currMask| && currMask[io.pos] && ioTypes[io.pos]
    ensures wt.Bit? ==> wt.pos < |currMask| && currMask[wt.pos] && waitTypes[wt.pos]
    ensures io.Bit? ==> Drawn(And(currMask, ioTypes), draw0, io.pos)
    ensures wt.Bit? ==> Drawn(And(currMask, waitTypes), draw1, wt.pos)
    ensures forall i :: 0 <= i < |currMask| ==>
      mask[i] == if ioTypes[i] then io == Bit(i) else if waitTypes[i] then wt == Bit(i) else !random[i] && currMask[i]
  {
    var size := |currMask|;
    assert forall i :: 0 <= i < size ==> And(currMask, ioTypes)[i] == (currMask[i] && ioTypes[i]);
    assert forall i :: 0 <= i < size ==> And(currMask, waitTypes)[i] == (currMask[i] && waitTypes[i]);
    var kept := seq(size, i requires 0 <= i < size => currMask[i] && !(ioTypes[i] || waitTypes[i] || random[i]));
    var ioBit := RandomBit(And(currMask, ioTypes), draw0);
    var waitBit := RandomBit(And(currMask, waitTypes), draw1);
    var ioWord, waitWord := OneBit(ioBit, size), OneBit(waitBit, size);
    assert forall i :: 0 <= i < size ==> ioWord[i] == (ioBit == Bit(i)) && waitWord[i] == (waitBit == Bit(i));
    mask := seq(size, i requires 0 <= i < size => kept[i] || ioWord[i] || waitWord[i]);
    io, wt := ioBit, waitBit;
  }
}
