/**
  Page table entries (src/mm.c) and virtual addresses (include/mm.h) as packed words, and what the rest of
  the memory manager can tell about an entry.
*/
module Pte {
  import opened Bits
  import opened Common

  const BUS_WIDTH := 22
  const MAX_PGN := 16384
  const MAX_FRAMES := 8192      // RAM of 2^21 bytes
  const MAX_SLOTS := 2097152    // swap of 2^29 bytes
  const MAX_TYPES := 32         // swap types a 5-bit field can name

  const PRESENT := 31
  const SWAPPED := 30

  function FpnMask(): Word { GenMask(12, 0) }

  function SwpTypMask(): Word { GenMask(4, 0) }

  function SwpOffMask(): Word { GenMask(25, 5) }

  function SetFpn(pte: Word, fpn: nat): Word {
    SetVal(ClrBit(SetBit(pte, BitMask(PRESENT)), BitMask(SWAPPED)), FromNat(fpn), FpnMask(), 0)
  }

  /** pte_set_swap: it sets the present bit as well as the swapped bit. */
  function SetSwap(pte: Word, typ: nat, off: nat): Word {
    SetVal(SetVal(SetBit(SetBit(pte, BitMask(PRESENT)), BitMask(SWAPPED)), FromNat(typ), SwpTypMask(), 0),
           FromNat(off), SwpOffMask(), 5)
  }

  function IsPresent(pte: Word): bool { And(pte, BitMask(PRESENT)) != ZERO }

  /** PAGING_FPN. */
  function GetFpn(pte: Word): nat { Value(GetVal(pte, FpnMask(), 0)) }

  /** PAGING_PTE_SWP. */
  function GetSwp(pte: Word): nat { Value(GetVal(pte, SwpOffMask(), 5)) }

  /** What an entry says: never mapped, in a frame, or moved out to a swap slot. */
  datatype Entry = Absent(slot: nat) | Resident(fpn: nat) | Evicted(typ: nat, slot: nat)

  function Decode(pte: Word): Entry {
    if !pte[PRESENT] then Absent(Value(Field(pte, 25, 5)))
    else if !pte[SWAPPED] then Resident(Value(Field(pte, 12, 0)))
    else Evicted(Value(Field(pte, 4, 0)), Value(Field(pte, 25, 5)))
  }

  /** The frame number pg_getpage reads from a present entry, whatever the entry means. */
  function FrameRead(e: Entry): nat {
    match e
    case Absent(s) => 0
    case Resident(f) => f
    case Evicted(t, s) => (32 * s + t) % MAX_FRAMES
  }

  lemma Sizes()
    ensures Pow2(5) == 32 && Pow2(8) == 256 && Pow2(13) == MAX_FRAMES && Pow2(14) == MAX_PGN
    ensures Pow2(21) == MAX_SLOTS && Pow2(22) == 4194304
  {
    assert Pow2(13) == 8192;
    assert Pow2(21) == 2097152;
  }

  /** The fields are wide enough for every frame of a 2^21-byte RAM and every slot of a 2^29-byte swap. */
  lemma EntryRoundTrip(pte: Word, n: nat, typ: nat)
    ensures n < MAX_FRAMES <==> Decode(SetFpn(pte, n)) == Resident(n)
    ensures typ < MAX_TYPES && n < MAX_SLOTS <==> Decode(SetSwap(pte, typ, n)) == Evicted(typ, n)
  {
    Sizes();
    SetFpnDecodes(pte, n);
    SetSwapDecodes(pte, typ, n);
  }

  lemma SetFpnDecodes(pte: Word, fpn: nat)
    ensures var r := SetFpn(pte, fpn);
            && Decode(r) == Resident(Value(Field(r, 12, 0)))
            && (Value(Field(r, 12, 0)) == fpn <==> fpn < MAX_FRAMES)
            && forall i :: 13 <= i < SWAPPED ==> r[i] == pte[i]
  {
    Sizes();
    var w := ClrBit(SetBit(pte, BitMask(PRESENT)), BitMask(SWAPPED));
    MarkResident(pte, w);
    FieldSet(w, fpn, 12, 0);
  }

  lemma MarkResident(pte: Word, w: Word)
    requires w == ClrBit(SetBit(pte, BitMask(PRESENT)), BitMask(SWAPPED))
    ensures w == pte[PRESENT := true][SWAPPED := false]
  {
    SetClrBit(pte, PRESENT);
    SetClrBit(SetBit(pte, BitMask(PRESENT)), SWAPPED);
  }

  /** A field that is set holds the value if and only if it fits; every other bit is kept. */
  lemma FieldSet(w: Word, n: nat, h: nat, l: nat)
    requires l <= h < WORD_BITS
    ensures var r := SetVal(w, FromNat(n), GenMask(h, l), l);
            && (Value(Field(r, h, l)) == n <==> n < Pow2(h - l + 1))
            && forall i :: 0 <= i < WORD_BITS && !(l <= i <= h) ==> r[i] == w[i]
  {
    SetValField(w, FromNat(n), h, l);
    SetThenGet(w, n, h, l);
    GetValField(SetVal(w, FromNat(n), GenMask(h, l), l), h, l);
  }

  lemma TypeSet(w: Word, typ: nat)
    ensures var r := SetVal(w, FromNat(typ), SwpTypMask(), 0);
            && (Value(Field(r, 4, 0)) == typ <==> typ < MAX_TYPES)
            && forall i :: 5 <= i < WORD_BITS ==> r[i] == w[i]
  {
    Sizes();
    FieldSet(w, typ, 4, 0);
  }

  lemma OffsetSet(w: Word, off: nat)
    ensures var r := SetVal(w, FromNat(off), SwpOffMask(), 5);
            && (Value(Field(r, 25, 5)) == off <==> off < MAX_SLOTS)
            && Field(r, 4, 0) == Field(w, 4, 0)
            && forall i :: 26 <= i < WORD_BITS ==> r[i] == w[i]
  {
    Sizes();
    FieldSet(w, off, 25, 5);
    assert Field(SetVal(w, FromNat(off), SwpOffMask(), 5), 4, 0) == Field(w, 4, 0);
  }

  lemma MarkEvicted(pte: Word, w: Word)
    requires w == SetBit(SetBit(pte, BitMask(PRESENT)), BitMask(SWAPPED))
    ensures w == pte[PRESENT := true][SWAPPED := true]
  {
    SetClrBit(pte, PRESENT);
    SetClrBit(SetBit(pte, BitMask(PRESENT)), SWAPPED);
  }

  /** Setting the swap fields of a word leaves its flag bits alone. */
  lemma SwapFields(w: Word, w1: Word, r: Word, typ: nat, off: nat)
    requires w1 == SetVal(w, FromNat(typ), SwpTypMask(), 0) && r == SetVal(w1, FromNat(off), SwpOffMask(), 5)
    ensures Value(Field(r, 4, 0)) == typ <==> typ < MAX_TYPES
    ensures Value(Field(r, 25, 5)) == off <==> off < MAX_SLOTS
    ensures forall i :: 26 <= i < WORD_BITS ==> r[i] == w[i]
  {
    TypeSet(w, typ);
    OffsetSet(w1, off);
  }

  lemma SetSwapDecodes(pte: Word, typ: nat, off: nat)
    ensures var r := SetSwap(pte, typ, off);
            && Decode(r) == Evicted(Value(Field(r, 4, 0)), Value(Field(r, 25, 5)))
            && (Value(Field(r, 4, 0)) == typ <==> typ < MAX_TYPES)
            && (Value(Field(r, 25, 5)) == off <==> off < MAX_SLOTS)
            && forall i :: 26 <= i < SWAPPED ==> r[i] == pte[i]
  {
    var w := SetBit(SetBit(pte, BitMask(PRESENT)), BitMask(SWAPPED));
    MarkEvicted(pte, w);
    SwapFields(w, SetVal(w, FromNat(typ), SwpTypMask(), 0), SetSwap(pte, typ, off), typ, off);
  }

  lemma ZeroDecodes()
    ensures Decode(ZERO) == Absent(0)
  {
    ZerosAreWorthless(Field(ZERO, 25, 5));
  }

  lemma PresentBit(pte: Word)
    ensures IsPresent(pte) <==> pte[PRESENT]
  {
    BitMaskBits(PRESENT);
    var a := And(pte, BitMask(PRESENT));
    assert a[PRESENT] == pte[PRESENT] && !ZERO[PRESENT];
    if !pte[PRESENT] { assert a == ZERO; }
  }

  /** What pg_getpage computes from a word is determined by the decoded entry. */
  lemma ReadsAgree(pte: Word)
    ensures IsPresent(pte) <==> !Decode(pte).Absent?
    ensures Decode(pte).Absent? ==> GetSwp(pte) == Decode(pte).slot
    ensures !Decode(pte).Absent? ==> GetFpn(pte) == FrameRead(Decode(pte))
  {
    PresentBit(pte);
    FieldsAgree(pte);
  }

  lemma FieldsAgree(pte: Word)
    ensures Decode(pte).Absent? ==> GetSwp(pte) == Decode(pte).slot
    ensures !Decode(pte).Absent? ==> GetFpn(pte) == FrameRead(Decode(pte))
  {
    GetFields(pte);
    if !Decode(pte).Absent? { FrameAgrees(pte); }
  }

  lemma FrameAgrees(pte: Word)
    requires !Decode(pte).Absent?
    ensures FrameRead(Decode(pte)) == Value(Field(pte, 12, 0))
  {
    EvictedFrame(pte);
  }

  lemma GetFields(pte: Word)
    ensures GetSwp(pte) == Value(Field(pte, 25, 5)) && GetFpn(pte) == Value(Field(pte, 12, 0))
  {
    GetValField(pte, 25, 5);
    GetValField(pte, 12, 0);
  }

  lemma DoubleProduct(x: nat, y: nat)
    ensures 2 * (x * y) == (2 * x) * y
  {
  }

  lemma {:induction false} ValueConcat(a: seq<bool>, b: seq<bool>)
    ensures Value(a + b) == Value(a) + Pow2(|a|) * Value(b)
    decreases |a|
  {
    if a == [] {
      assert a + b == b;
    } else {
      assert (a + b)[1..] == a[1..] + b;
      ValueConcat(a[1..], b);
      DoubleProduct(Pow2(|a| - 1), Value(b));
    }
  }

  /** The frame field of an entry that names a swap slot overlaps the low bits of the slot number. */
  lemma EvictedFrame(pte: Word)
    ensures Value(Field(pte, 12, 0)) == (32 * Value(Field(pte, 25, 5)) + Value(Field(pte, 4, 0))) % MAX_FRAMES
  {
    Sizes();
    var t, m, h := pte[0..5], pte[5..13], pte[13..26];
    assert Field(pte, 12, 0) == t + m && Field(pte, 25, 5) == m + h && Field(pte, 4, 0) == t;
    ValueConcat(t, m);
    ValueConcat(m, h);
    ValueBound(t);
    ValueBound(m);
    LowBits(Value(t), Value(m), Value(h));
  }

  lemma LowBits(t: nat, m: nat, h: nat)
    requires t < 32 && m < 256
    ensures (32 * (m + 256 * h) + t) % MAX_FRAMES == t + 32 * m
  {
    assert 32 * (m + 256 * h) + t == (t + 32 * m) + MAX_FRAMES * h;
  }

  // ----- virtual addresses

  /** PAGING_PGN and PAGING_OFFST; their bounds come from NBITS(PAGING_PAGESZ). */
  function Pgn(addr: nat): nat {
    Value(GetVal(FromNat(addr), GenMask(21, 8), 8))
  }

  function Offset(addr: nat): nat {
    Value(GetVal(FromNat(addr), GenMask(7, 0), 0))
  }

  /** The bit positions the header derives with NBITS are the ones used here. */
  lemma LayoutConstants()
    ensures NBits(FromNat(PAGE_SIZE)) == 8
    ensures NBits(FromNat(PAGE_SIZE * MAX_FRAMES)) == 21 && NBits(FromNat(PAGE_SIZE * MAX_SLOTS)) == 29
  {
    Pow2Up(21, 29);
    Sizes();
    assert Pow2(29) == PAGE_SIZE * MAX_SLOTS by { assert Pow2(29) == 256 * Pow2(21); }
    assert Pow2(32) == 8 * Pow2(29);
    NBitsIsLog2(Pow2(8));
    NBitsIsLog2(Pow2(21));
    NBitsIsLog2(Pow2(29));
    LogUnique(NBits(FromNat(Pow2(8))), 8);
    LogUnique(NBits(FromNat(Pow2(21))), 21);
    LogUnique(NBits(FromNat(Pow2(29))), 29);
  }

  lemma {:induction false} Pow2Up(a: nat, b: nat)
    requires a <= b
    ensures 0 < Pow2(a) <= Pow2(b)
    decreases b
  {
    if a < b {
      Pow2Up(a, b - 1);
    } else if a > 0 {
      Pow2Up(a - 1, a - 1);
    }
  }

  lemma LogUnique(k: nat, m: nat)
    requires Pow2(k) <= Pow2(m) < Pow2(k + 1)
    ensures k == m
  {
    if k < m { Pow2Up(k + 1, m); }
    if m < k { Pow2Up(m + 1, k); Pow2Up(m, m); }
  }

  lemma {:induction false} ToBitsPeriodic(r: nat, q: nat, k: nat)
    ensures ToBits(r + Pow2(k) * q, k) == ToBits(r, k)
    decreases k
  {
    if k > 0 {
      var p := Pow2(k - 1) * q;
      assert Pow2(k) * q == 2 * p;
      ToBitsPeriodic(r / 2, q, k - 1);
    }
  }

  lemma FieldBits(n: nat, h: nat, l: nat)
    requires l <= h < WORD_BITS
    ensures Field(FromNat(n), h, l) == ToBits(Halve(n, l), h - l + 1)
  {
    ToBitsDrop(n, WORD_BITS, l);
    assert Field(FromNat(n), h, l) == FromNat(n)[l..][..h - l + 1];
    ToBitsTake(Halve(n, l), WORD_BITS - l, h - l + 1);
  }

  lemma LowValue(m: nat, q: nat, r: nat, w: nat)
    requires r < Pow2(w) && m == r + Pow2(w) * q
    ensures Value(ToBits(m, w)) == r
  {
    ToBitsPeriodic(r, q, w);
    ValueOfToBits(r, w);
  }

  lemma ValueOfField(n: nat, h: nat, l: nat)
    requires l <= h < WORD_BITS
    ensures Value(GetVal(FromNat(n), GenMask(h, l), l)) == Value(ToBits(Halve(n, l), h - l + 1))
  {
    GetValField(FromNat(n), h, l);
    FieldBits(n, h, l);
  }

  /** An address splits into page number and offset as division and remainder, within the 22-bit bus. */
  lemma AddressFields(addr: nat)
    ensures Pgn(addr) == addr / PAGE_SIZE % MAX_PGN
    ensures Offset(addr) == addr % PAGE_SIZE
  {
    Sizes();
    assert Halve(addr, 4) == addr / 16 by { assert addr / 2 / 2 == addr / 4 && addr / 4 / 2 / 2 == addr / 16; }
    HalveSum(addr, 4, 4);
    assert Halve(addr / 16, 4) == addr / 256 by {
      var a := addr / 16;
      assert a / 2 / 2 == a / 4 && a / 4 / 2 / 2 == a / 16;
    }
    ValueOfField(addr, 21, 8);
    LowValue(addr / 256, addr / 256 / MAX_PGN, addr / 256 % MAX_PGN, 14);
    ValueOfField(addr, 7, 0);
    LowValue(addr, addr / 256, addr % 256, 8);
  }

  lemma {:induction false} HalveSum(n: nat, a: nat, b: nat)
    ensures Halve(Halve(n, a), b) == Halve(n, a + b)
    decreases a
  {
    if a > 0 { HalveSum(n / 2, a - 1, b); }
  }

  /** Below 2^22 splitting and rejoining an address is the identity. */
  lemma AddressRoundTrip(addr: nat, pgn: nat, off: nat)
    requires addr < MAX_PGN * PAGE_SIZE && pgn == Pgn(addr) && off == Offset(addr)
    ensures pgn * PAGE_SIZE + off == addr && pgn < MAX_PGN && off < PAGE_SIZE
  {
    AddressFields(addr);
    SplitAndRejoin(addr);
  }

  lemma SplitAndRejoin(addr: nat)
    requires addr < MAX_PGN * PAGE_SIZE
    ensures addr / PAGE_SIZE % MAX_PGN * PAGE_SIZE + addr % PAGE_SIZE == addr
  {
    assert addr / PAGE_SIZE < MAX_PGN;
  }
}
