/**
  The bit-field macros of include/bitops.h and include/mm.h on 32-bit words.

  A word is the sequence of its 32 bits, least significant first.  The field results hold for every field a
  GENMASK can name, not only for the fields the page tables use.
*/
module Bits {

  const WORD_BITS := 32

  type Word = w: seq<bool> | |w| == WORD_BITS witness Repeat(false, WORD_BITS)

  function Repeat(b: bool, n: nat): (w: seq<bool>)
    ensures |w| == n && forall i :: 0 <= i < n ==> w[i] == b
  {
    if n == 0 then [] else [b] + Repeat(b, n - 1)
  }

  const ZERO: Word := Repeat(false, WORD_BITS)
  const ALL_ONES: Word := Repeat(true, WORD_BITS)

  function And(x: Word, y: Word): Word { seq(WORD_BITS, i requires 0 <= i < WORD_BITS => x[i] && y[i]) }

  function Or(x: Word, y: Word): Word { seq(WORD_BITS, i requires 0 <= i < WORD_BITS => x[i] || y[i]) }

  function Not(x: Word): Word { seq(WORD_BITS, i requires 0 <= i < WORD_BITS => !x[i]) }

  function Shl(x: Word, k: nat): Word {
    seq(WORD_BITS, i requires 0 <= i < WORD_BITS => i >= k && x[i - k])
  }

  function Shr(x: Word, k: nat): Word {
    seq(WORD_BITS, i requires 0 <= i < WORD_BITS => i + k < WORD_BITS && x[i + k])
  }

  /** BIT(n). */
  function BitMask(n: nat): Word
    requires n < WORD_BITS
  {
    Shl(FromNat(1), n)
  }

  function GenMask(h: nat, l: nat): Word
    requires l <= h < WORD_BITS
  {
    And(Shl(ALL_ONES, l), Shr(ALL_ONES, WORD_BITS - h - 1))
  }

  function SetBit(v: Word, mask: Word): Word { Or(v, mask) }

  function ClrBit(v: Word, mask: Word): Word { And(v, Not(mask)) }

  function SetVal(v: Word, value: Word, mask: Word, offset: nat): Word {
    Or(And(v, Not(mask)), And(Shl(value, offset), mask))
  }

  function GetVal(v: Word, mask: Word, offset: nat): Word { Shr(And(v, mask), offset) }

  // ----- words as numbers

  function ToBits(n: nat, k: nat): (b: seq<bool>)
    ensures |b| == k
    decreases k
  {
    if k == 0 then [] else [n % 2 == 1] + ToBits(n / 2, k - 1)
  }

  function Value(b: seq<bool>): nat {
    if b == [] then 0 else (if b[0] then 1 else 0) + 2 * Value(b[1..])
  }

  /** Conversion of a number to uint32_t. */
  function FromNat(n: nat): Word { ToBits(n, WORD_BITS) }

  function Pow2(k: nat): nat { if k == 0 then 1 else 2 * Pow2(k - 1) }

  lemma {:induction false} ValueOfToBits(n: nat, k: nat)
    requires n < Pow2(k)
    ensures Value(ToBits(n, k)) == n
    decreases k
  {
    if k > 0 {
      ValueOfToBits(n / 2, k - 1);
      assert ToBits(n, k)[1..] == ToBits(n / 2, k - 1);
    }
  }

  lemma {:induction false} ValueBound(b: seq<bool>)
    ensures Value(b) < Pow2(|b|)
    decreases |b|
  {
    if b != [] { ValueBound(b[1..]); }
  }

  /** Halving `k` times. */
  function Halve(n: nat, k: nat): nat
    decreases k
  {
    if k == 0 then n else Halve(n / 2, k - 1)
  }

  lemma {:induction false} ToBitsDrop(n: nat, k: nat, l: nat)
    requires l <= k
    ensures ToBits(n, k)[l..] == ToBits(Halve(n, l), k - l)
    decreases l
  {
    if l > 0 {
      ToBitsDrop(n / 2, k - 1, l - 1);
      assert ToBits(n, k)[l..] == ToBits(n / 2, k - 1)[l - 1..];
    }
  }

  lemma {:induction false} ToBitsTake(n: nat, k: nat, l: nat)
    requires l <= k
    ensures ToBits(n, k)[..l] == ToBits(n, l)
    decreases l
  {
    if l > 0 {
      ToBitsTake(n / 2, k - 1, l - 1);
      assert ToBits(n, k)[..l] == [n % 2 == 1] + ToBits(n / 2, k - 1)[..l - 1];
    }
  }

  lemma {:induction false} ZerosAreWorthless(b: seq<bool>)
    requires forall i :: 0 <= i < |b| ==> !b[i]
    ensures Value(b) == 0
    decreases |b|
  {
    if b != [] { ZerosAreWorthless(b[1..]); }
  }

  /** Leading zeros do not change the value. */
  lemma {:induction false} ValueOfPadded(a: seq<bool>, b: seq<bool>)
    requires forall i :: 0 <= i < |b| ==> !b[i]
    ensures Value(a + b) == Value(a)
    decreases |a|
  {
    if a == [] {
      assert a + b == b;
      ZerosAreWorthless(b);
    } else {
      assert (a + b)[1..] == a[1..] + b;
      ValueOfPadded(a[1..], b);
    }
  }

  // ----- fields

  /** The field of `v` at bits h..l. */
  function Field(v: Word, h: nat, l: nat): seq<bool>
    requires l <= h < WORD_BITS
  {
    v[l..h + 1]
  }

  /** GENMASK(h, l) has ones at bits h..l and nowhere else. */
  lemma GenMaskBits(h: nat, l: nat)
    requires l <= h < WORD_BITS
    ensures forall i :: 0 <= i < WORD_BITS ==> (GenMask(h, l)[i] <==> l <= i <= h)
  {
  }

  /** GETVAL with a GENMASK yields the number in the field. */
  lemma GetValField(v: Word, h: nat, l: nat)
    requires l <= h < WORD_BITS
    ensures Value(GetVal(v, GenMask(h, l), l)) == Value(Field(v, h, l)) < Pow2(h - l + 1)
  {
    var r, f := GetVal(v, GenMask(h, l), l), Field(v, h, l);
    GenMaskBits(h, l);
    assert r == f + r[|f|..];
    ValueOfPadded(f, r[|f|..]);
    ValueBound(f);
  }

  /**
    SETVAL on any GENMASK field of any word: the field then holds the low bits of the value, and no bit
    outside the field changes.
  */
  lemma SetValField(v: Word, value: Word, h: nat, l: nat)
    requires l <= h < WORD_BITS
    ensures var r := SetVal(v, value, GenMask(h, l), l);
            && Field(r, h, l) == value[..h - l + 1]
            && forall i :: 0 <= i < WORD_BITS && !(l <= i <= h) ==> r[i] == v[i]
  {
    var m, s := GenMask(h, l), Shl(value, l);
    GenMaskBits(h, l);
    var r := SetVal(v, value, m, l);
    assert forall i :: 0 <= i < WORD_BITS ==> r[i] == if m[i] then s[i] else v[i];
  }

  /** A number set with SETVAL is read back by GETVAL exactly when it fits the width of the field. */
  lemma SetThenGet(v: Word, n: nat, h: nat, l: nat)
    requires l <= h < WORD_BITS
    ensures Value(GetVal(SetVal(v, FromNat(n), GenMask(h, l), l), GenMask(h, l), l)) == n <==> n < Pow2(h - l + 1)
  {
    var w := h - l + 1;
    SetValField(v, FromNat(n), h, l);
    GetValField(SetVal(v, FromNat(n), GenMask(h, l), l), h, l);
    ToBitsTake(n, WORD_BITS, w);
    if n < Pow2(w) { ValueOfToBits(n, w); }
  }

  /** Setting a field does not disturb a field that shares no bit with it. */
  lemma OtherFieldKept(v: Word, value: Word, h: nat, l: nat, h2: nat, l2: nat)
    requires l <= h < WORD_BITS && l2 <= h2 < WORD_BITS && (h2 < l || h < l2)
    ensures Field(SetVal(v, value, GenMask(h, l), l), h2, l2) == Field(v, h2, l2)
  {
    SetValField(v, value, h, l);
  }

  lemma BitMaskBits(n: nat)
    requires n < WORD_BITS
    ensures forall i :: 0 <= i < WORD_BITS ==> (BitMask(n)[i] <==> i == n)
  {
    assert FromNat(1)[0];
    ToBitsDrop(1, WORD_BITS, 1);
    assert Halve(1, 1) == 0;
    ZeroBits(WORD_BITS - 1);
    assert forall i :: 1 <= i < WORD_BITS ==> FromNat(1)[i] == FromNat(1)[1..][i - 1];
  }

  lemma {:induction false} ZeroBits(k: nat)
    ensures forall i :: 0 <= i < k ==> !ToBits(0, k)[i]
    decreases k
  {
    if k > 0 { ZeroBits(k - 1); }
  }

  /** SETBIT and CLRBIT change their bit and no other. */
  lemma SetClrBit(v: Word, n: nat)
    requires n < WORD_BITS
    ensures SetBit(v, BitMask(n)) == v[n := true]
    ensures ClrBit(v, BitMask(n)) == v[n := false]
  {
    BitMaskBits(n);
  }

  // ----- NBITS

  function NBits2(n: Word): nat { if And(n, GenMask(1, 1)) != ZERO then 1 else 0 }

  function NBits4(n: Word): nat {
    if And(n, GenMask(3, 2)) != ZERO then 2 + NBits2(Shr(n, 2)) else NBits2(n)
  }

  function NBits8(n: Word): nat {
    if And(n, GenMask(7, 4)) != ZERO then 4 + NBits4(Shr(n, 4)) else NBits4(n)
  }

  function NBits16(n: Word): nat {
    if And(n, GenMask(15, 8)) != ZERO then 8 + NBits8(Shr(n, 8)) else NBits8(n)
  }

  function NBits32(n: Word): nat {
    if And(n, GenMask(31, 16)) != ZERO then 16 + NBits16(Shr(n, 16)) else NBits16(n)
  }

  function NBits(n: Word): nat { if n == ZERO then 0 else NBits32(n) }

  /** `k` is the position of the highest one of `n`. */
  predicate IsTop(n: Word, k: nat) {
    k < WORD_BITS && n[k] && forall i :: k < i < WORD_BITS ==> !n[i]
  }

  predicate Below(n: Word, k: nat) {
    forall i :: k <= i < WORD_BITS ==> !n[i]
  }

  /** The test `n & mask` of one NBITS level, for a word below 2^(2w): it looks at bits 2w-1..w. */
  lemma HalfTest(n: Word, w: nat)
    requires 1 <= w <= 16 && Below(n, 2 * w)
    ensures And(n, GenMask(2 * w - 1, w)) == ZERO <==> Below(n, w)
  {
    GenMaskBits(2 * w - 1, w);
    var a := And(n, GenMask(2 * w - 1, w));
    if !Below(n, w) {
      var i :| w <= i < WORD_BITS && n[i];
      assert a[i];
    } else {
      assert a == ZERO;
    }
  }

  /** The right shift of one NBITS level. */
  lemma HalfShift(n: Word, w: nat)
    requires 1 <= w <= 16 && Below(n, 2 * w) && !Below(n, w)
    ensures Below(Shr(n, w), w) && Shr(n, w) != ZERO
  {
    var i :| w <= i < WORD_BITS && n[i];
    assert Shr(n, w)[i - w];
  }

  lemma ShiftedTop(n: Word, w: nat, k: nat)
    requires w < WORD_BITS && IsTop(Shr(n, w), k)
    ensures IsTop(n, k + w)
  {
    var s := Shr(n, w);
    forall i | k + w < i < WORD_BITS ensures !n[i] { assert s[i - w] == n[i]; }
  }

  lemma NBits2Top(n: Word)
    requires n != ZERO && Below(n, 2)
    ensures IsTop(n, NBits2(n))
  {
    HalfTest(n, 1);
    assert n[0] || n[1];
  }

  lemma NBits4Top(n: Word)
    requires n != ZERO && Below(n, 4)
    ensures IsTop(n, NBits4(n))
  {
    HalfTest(n, 2);
    if Below(n, 2) {
      NBits2Top(n);
    } else {
      HalfShift(n, 2);
      NBits2Top(Shr(n, 2));
      ShiftedTop(n, 2, NBits2(Shr(n, 2)));
    }
  }

  lemma NBits8Top(n: Word)
    requires n != ZERO && Below(n, 8)
    ensures IsTop(n, NBits8(n))
  {
    HalfTest(n, 4);
    if Below(n, 4) {
      NBits4Top(n);
    } else {
      HalfShift(n, 4);
      NBits4Top(Shr(n, 4));
      ShiftedTop(n, 4, NBits4(Shr(n, 4)));
    }
  }

  lemma NBits16Top(n: Word)
    requires n != ZERO && Below(n, 16)
    ensures IsTop(n, NBits16(n))
  {
    HalfTest(n, 8);
    if Below(n, 8) {
      NBits8Top(n);
    } else {
      HalfShift(n, 8);
      NBits8Top(Shr(n, 8));
      ShiftedTop(n, 8, NBits8(Shr(n, 8)));
    }
  }

  /** NBITS finds the highest one of every non-zero word. */
  lemma NBitsTop(n: Word)
    requires n != ZERO
    ensures IsTop(n, NBits(n))
  {
    HalfTest(n, 16);
    if Below(n, 16) {
      NBits16Top(n);
    } else {
      HalfShift(n, 16);
      NBits16Top(Shr(n, 16));
      ShiftedTop(n, 16, NBits16(Shr(n, 16)));
    }
  }

  /** NBITS is the floor of the binary logarithm. */
  lemma NBitsIsLog2(n: nat)
    requires 0 < n < Pow2(WORD_BITS)
    ensures Pow2(NBits(FromNat(n))) <= n < Pow2(NBits(FromNat(n)) + 1)
  {
    var w := FromNat(n);
    ValueOfToBits(n, WORD_BITS);
    if w == ZERO { ZerosAreWorthless(w); }
    NBitsTop(w);
    TopBounds(w, NBits(w));
  }

  lemma {:induction false} TopBounds(b: seq<bool>, k: nat)
    requires k < |b| && b[k] && forall i :: k < i < |b| ==> !b[i]
    ensures Pow2(k) <= Value(b) < Pow2(k + 1)
    decreases |b|
  {
    if k == 0 {
      ZerosAreWorthless(b[1..]);
    } else {
      TopBounds(b[1..], k - 1);
    }
  }
}
