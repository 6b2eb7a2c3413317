/** VLAN bitmaps: 4096 bits in 64-bit words, where no bitmap at all (NULL) is a valid value. */
module Bitmap {
  import opened Common

  const BITS: nat := 4096
  const WORDS: nat := BITS / 64

  type Word = bv64
  type Words = seq<Word>

  /** 1UL << k, reached from the top bit so that every value is a shift by one. */
  function Mask(k: nat): (m: Word)
    requires k < 64
    decreases 64 - k
  {
    if k == 63 then 0x8000_0000_0000_0000 else Mask(k + 1) >> 1
  }

  ghost predicate OneBit(m: Word) {
    m != 0 && m & (m - 1) == 0
  }

  lemma Bottom()
    ensures Mask(0) == 1
  {
    assert Mask(56) == 0x0100_0000_0000_0000;
    assert Mask(48) == 0x0001_0000_0000_0000;
    assert Mask(40) == 0x0000_0100_0000_0000;
    assert Mask(32) == 0x0000_0001_0000_0000;
    assert Mask(24) == 0x0100_0000;
    assert Mask(16) == 0x0001_0000;
    assert Mask(8) == 0x0100;
  }

  lemma ZeroDown(j: nat, k: nat)
    requires j <= k < 64 && Mask(k) == 0
    ensures Mask(j) == 0
    decreases k
  {
    if j < k { ZeroDown(j, k - 1); }
  }

  lemma MaskOneBit(k: nat)
    requires k < 64
    ensures OneBit(Mask(k))
    decreases 64 - k
  {
    if k < 63 {
      MaskOneBit(k + 1);
      ShiftOneBit(Mask(k + 1));
      if Mask(k) == 0 {
        ZeroDown(0, k);
        Bottom();
      }
    }
  }

  lemma ShiftOneBit(m: Word)
    requires OneBit(m)
    ensures (m >> 1) & ((m >> 1) - 1) == 0 || m >> 1 == 0
    ensures m >> 1 < m
  {
  }

  lemma MaskDescends(j: nat, k: nat)
    requires j < k < 64
    ensures Mask(j) < Mask(k)
    decreases k
  {
    MaskOneBit(k);
    ShiftOneBit(Mask(k));
    if j < k - 1 { MaskDescends(j, k - 1); }
  }

  lemma Disjoint(a: Word, b: Word)
    requires OneBit(a) && OneBit(b) && a != b
    ensures a & b == 0
  {
  }

  lemma MasksDisjoint(j: nat, k: nat)
    requires j < 64 && k < 64 && j != k
    ensures Mask(j) & Mask(k) == 0
  {
    MaskOneBit(j);
    MaskOneBit(k);
    if j < k { MaskDescends(j, k); } else { MaskDescends(k, j); }
    Disjoint(Mask(j), Mask(k));
  }

  // ---------------------------------------------------------------- words and masks

  predicate At(w: Word, m: Word) {
    w & m != 0
  }

  function Or(w: Word, m: Word): (r: Word) {
    w | m
  }

  function AndNot(w: Word, m: Word): (r: Word) {
    w & !m
  }

  function Differing(a: Word, b: Word): (r: Word) {
    a ^ b
  }

  lemma XorRaw(a: Word, b: Word, m: Word)
    requires m & (m - 1) == 0
    ensures (a ^ b) & m != 0 <==> ((a & m != 0) != (b & m != 0))
  {
  }

  lemma OrRaw(w: Word, a: Word, m: Word)
    ensures (w | a) & m == (w & m) | (a & m)
  {
  }

  lemma AndNotRaw(w: Word, a: Word, m: Word)
    requires a & m == 0
    ensures (w & !a) & m == w & m
  {
  }

  lemma OrZero(w: Word)
    ensures w | 0 == w
  {
  }

  lemma XorAt(a: Word, b: Word, m: Word)
    requires OneBit(m)
    ensures At(Differing(a, b), m) <==> At(a, m) != At(b, m)
  {
    XorRaw(a, b, m);
  }

  lemma ChangeElsewhere(w: Word, a: Word, m: Word)
    requires a & m == 0
    ensures At(Or(w, a), m) <==> At(w, m)
    ensures At(AndNot(w, a), m) <==> At(w, m)
  {
    OrRaw(w, a, m);
    OrZero(w & m);
    AndNotRaw(w, a, m);
  }

  lemma ChangeHere(w: Word, m: Word)
    requires OneBit(m)
    ensures At(Or(w, m), m) && !At(AndNot(w, m), m)
  {
  }

  /** bitmap_is_set() within a word. */
  predicate Bit(w: Word, k: nat)
    requires k < 64
  {
    At(w, Mask(k))
  }

  function With(w: Word, k: nat): (r: Word)
    requires k < 64
  {
    Or(w, Mask(k))
  }

  function Without(w: Word, k: nat): (r: Word)
    requires k < 64
  {
    AndNot(w, Mask(k))
  }

  lemma BitXor(a: Word, b: Word, k: nat)
    requires k < 64
    ensures Bit(Differing(a, b), k) <==> Bit(a, k) != Bit(b, k)
  {
    hide Mask, OneBit, At, Differing;
    MaskOneBit(k);
    XorAt(a, b, Mask(k));
  }

  lemma BitOrSame(w: Word, k: nat)
    requires k < 64
    ensures Bit(With(w, k), k) && !Bit(Without(w, k), k)
  {
    hide Mask, OneBit, At, Or, AndNot;
    MaskOneBit(k);
    ChangeHere(w, Mask(k));
  }

  lemma BitOther(w: Word, k: nat, j: nat)
    requires k < 64 && j < 64 && j != k
    ensures Bit(With(w, k), j) == Bit(w, j)
    ensures Bit(Without(w, k), j) == Bit(w, j)
  {
    hide Mask, OneBit, At, Or, AndNot;
    MasksDisjoint(k, j);
    ChangeElsewhere(w, Mask(k), Mask(j));
  }

  /** Setting or clearing bit k changes bit k. */
  lemma BitChange(w: Word, k: nat, j: nat)
    requires k < 64 && j < 64
    ensures Bit(With(w, k), j) <==> Bit(w, j) || j == k
    ensures Bit(Without(w, k), j) <==> Bit(w, j) && j != k
  {
    hide Bit, With, Without;
    if j == k { BitOrSame(w, k); } else { BitOther(w, k, j); }
  }

  /** No bit is set from the mask's upwards. */
  ghost predicate ClearFrom(w: Word, m: Word) {
    w & (0 - m) == 0
  }

  lemma ClearBelow(w: Word, m: Word, half: Word)
    requires half == m >> 1 && OneBit(m) && OneBit(half) && ClearFrom(w, m) && !At(w, half)
    ensures ClearFrom(w, half)
  {
  }

  lemma MaskHalves(k: nat)
    requires k < 64
    ensures if k == 63 then Mask(k) == 0x8000_0000_0000_0000 else Mask(k) == Mask(k + 1) >> 1
  {
  }

  lemma ClearTop(w: Word)
    requires !At(w, 0x8000_0000_0000_0000)
    ensures ClearFrom(w, 0x8000_0000_0000_0000)
  {
  }

  lemma {:induction false} NoBitsFrom(w: Word, k: nat)
    requires k < 64 && forall j: nat | k <= j < 64 :: !Bit(w, j)
    ensures ClearFrom(w, Mask(k))
    decreases 64 - k
  {
    hide OneBit, At, ClearFrom, Mask;
    MaskHalves(k);
    assert !Bit(w, k);
    if k < 63 {
      NoBitsFrom(w, k + 1);
      MaskOneBit(k);
      MaskOneBit(k + 1);
      ClearBelow(w, Mask(k + 1), Mask(k));
    } else {
      ClearTop(w);
    }
  }

  /** A word is its bits. */
  lemma WordIsBits(a: Word, b: Word)
    requires forall k: nat | k < 64 :: Bit(a, k) == Bit(b, k)
    ensures a == b
  {
    hide Bit, OneBit, Mask, Differing, ClearFrom;
    forall k: nat | k < 64 ensures !Bit(Differing(a, b), k) { BitXor(a, b, k); }
    NoBitsFrom(Differing(a, b), 0);
    Bottom();
    NoDifference(a, b);
  }

  lemma NoDifference(a: Word, b: Word)
    requires ClearFrom(Differing(a, b), 1)
    ensures a == b
  {
  }

  // ---------------------------------------------------------------- whole bitmaps

  predicate IsSet(b: Words, i: nat)
    requires |b| == WORDS && i < BITS
  {
    Bit(b[i / 64], i % 64)
  }

  /** The set a bitmap stands for. */
  function Bits(b: Words): (r: set<nat>)
    requires |b| == WORDS
  {
    set i: nat | i < BITS && IsSet(b, i)
  }

  ghost predicate Good(o: Option<Words>) {
    o.Some? ==> |o.value| == WORDS
  }

  /** NULL stands for the empty set here. */
  function BitsOf(o: Option<Words>): (r: set<nat>)
    requires Good(o)
  {
    if o.Some? then Bits(o.value) else {}
  }

  const EMPTY: Words := seq(WORDS, _ => 0)

  lemma EmptyBits()
    ensures Bits(EMPTY) == {}
  {
  }

  /** bitmap_set1() */
  function Set1(b: Words, i: nat): (r: Words)
    requires |b| == WORDS && i < BITS
    ensures |r| == WORDS
  {
    b[i / 64 := With(b[i / 64], i % 64)]
  }

  /** bitmap_set0() */
  function Set0(b: Words, i: nat): (r: Words)
    requires |b| == WORDS && i < BITS
    ensures |r| == WORDS
  {
    b[i / 64 := Without(b[i / 64], i % 64)]
  }

  lemma Set1Bits(b: Words, i: nat)
    requires |b| == WORDS && i < BITS
    ensures Bits(Set1(b, i)) == Bits(b) + {i}
  {
    hide Bit, With, Without, Differing;
    forall j: nat | j < BITS ensures IsSet(Set1(b, i), j) <==> IsSet(b, j) || j == i {
      BitChange(b[i / 64], i % 64, j % 64);
      SamePlace(i, j);
    }
  }

  lemma Set0Bits(b: Words, i: nat)
    requires |b| == WORDS && i < BITS
    ensures Bits(Set0(b, i)) == Bits(b) - {i}
  {
    hide Bit, With, Without, Differing;
    forall j: nat | j < BITS ensures IsSet(Set0(b, i), j) <==> IsSet(b, j) && j != i {
      BitChange(b[i / 64], i % 64, j % 64);
      SamePlace(i, j);
    }
  }

  lemma SamePlace(i: nat, j: nat)
    ensures i == j <==> i / 64 == j / 64 && i % 64 == j % 64
  {
  }

  /** ops_xp_bitmap_xor(): the symmetric difference; with one NULL argument, a copy of the other. */
  method Xor(a: Option<Words>, b: Option<Words>) returns (r: Option<Words>)
    requires Good(a) && Good(b)
    ensures Good(r) && (r.None? <==> a.None? && b.None?)
    ensures BitsOf(r) == (BitsOf(a) - BitsOf(b)) + (BitsOf(b) - BitsOf(a))
  {
    if a.None? || b.None? {
      return if a.Some? then a else b;
    }
    hide Differing;
    var x := new Word[WORDS];
    var i := 0;
    while i < WORDS
      invariant i <= WORDS
      invariant forall j | 0 <= j < i :: x[j] == Differing(a.value[j], b.value[j])
    {
      x[i] := Differing(a.value[i], b.value[i]);
      i := i + 1;
    }
    XorBits(a.value, b.value, x[..]);
    r := Some(x[..]);
  }

  lemma XorBits(a: Words, b: Words, x: Words)
    requires |a| == |b| == |x| == WORDS
    requires forall j | 0 <= j < WORDS :: x[j] == Differing(a[j], b[j])
    ensures Bits(x) == (Bits(a) - Bits(b)) + (Bits(b) - Bits(a))
  {
    hide Bit, With, Without, Differing;
    forall i: nat | i < BITS ensures IsSet(x, i) <==> IsSet(a, i) != IsSet(b, i) {
      BitXor(a[i / 64], b[i / 64], i % 64);
    }
  }

  /** ops_xp_vlan_bitmap_equal(): the same set, and NULL only like NULL. */
  predicate Equal(a: Option<Words>, b: Option<Words>)
    requires Good(a) && Good(b)
  {
    (a.None? && b.None?) || (a.Some? && b.Some? && a.value == b.value)
  }

  /** Bitmaps compare equal exactly when they stand for the same set and both are present or neither. */
  lemma EqualIff(a: Option<Words>, b: Option<Words>)
    requires Good(a) && Good(b)
    ensures Equal(a, b) <==> (a.None? <==> b.None?) && BitsOf(a) == BitsOf(b)
  {
    if a.Some? && b.Some? && BitsOf(a) == BitsOf(b) {
      forall i: nat | i < WORDS ensures a.value[i] == b.value[i] { SameWord(a.value, b.value, i); }
    }
  }

  lemma SameWord(a: Words, b: Words, i: nat)
    requires |a| == |b| == WORDS && i < WORDS && Bits(a) == Bits(b)
    ensures a[i] == b[i]
  {
    hide Bit;
    forall k: nat | k < 64 ensures Bit(a[i], k) == Bit(b[i], k) {
      var v := 64 * i + k;
      assert v / 64 == i && v % 64 == k;
      assert v in Bits(a) <==> IsSet(a, v);
      assert v in Bits(b) <==> IsSet(b, v);
    }
    WordIsBits(a[i], b[i]);
  }
}
