/** Faulty memories, and what the three parts of the alternate memory test of cmd_mem.c can see of them.
    Addresses count words. */
module MemFaults {
  import opened CTypes
  import opened BitMath

  const TOP := 0xFFFF_FFFF
  const PATTERN: u32 := 0xAAAA_AAAA
  const ANTI_PATTERN: u32 := 0x5555_5555
  const BIT_PATTERNS: seq<u32> :=
    [0x00000001, 0x00000003, 0x00000007, 0x0000000F, 0x00000005, 0x00000015, 0x00000055, 0xAAAAAAAA]

  /** The words of a 32-bit address space. */
  const MAX_WORDS := 0x4000_0000

  function Not(v: u32): u32 {
    TOP - v
  }

  /** The number with bit `k` forced to `x`: what a stuck address line makes of an address. */
  function Force(a: nat, k: nat, x: nat): nat {
    if k == 0 then a - a % 2 + x else 2 * Force(a / 2, k - 1, x) + a % 2
  }

  lemma {:induction false} FlipBelow(v: nat, w: nat, b: nat)
    requires v < Pow2(w) && b < w
    ensures Bit(Pow2(w) - 1 - v, b) == 1 - Bit(v, b)
  {
    if b > 0 {
      assert (Pow2(w) - 1 - v) / 2 == Pow2(w - 1) - 1 - v / 2;
      FlipBelow(v / 2, w - 1, b - 1);
    }
  }

  /** Complementing a word flips each of its bits. */
  lemma BitFlips(v: u32, b: nat)
    requires b < 32
    ensures Bit(Not(v), b) != Bit(v, b)
  {
    WordSize();
    FlipBelow(v, 32, b);
  }

  // ----- faults -----

  /** Where an address leads, and what a cell that holds a word reads back as. */
  datatype Faults = Faults(wiring: nat -> nat, senses: (nat, u32) -> u32)

  ghost predicate SoundCells(f: Faults) {
    forall c: nat, v: u32 :: f.senses(c, v) == v
  }

  /** No two of the `n` words from `base` on share a cell. */
  ghost predicate Separate(f: Faults, base: nat, n: nat) {
    forall a: nat, b: nat :: base <= a < b < base + n ==> f.wiring(a) != f.wiring(b)
  }

  /** Bit `b` of cell `c` always reads as `x`. */
  ghost predicate StuckBit(f: Faults, c: nat, b: nat, x: nat) {
    b < 32 && forall v: u32 :: Bit(f.senses(c, v), b) == x
  }

  /** Bits `i` and `j` of cell `c` always read alike. */
  ghost predicate ShortedBits(f: Faults, c: nat, i: nat, j: nat) {
    i < 32 && j < 32 && i != j && forall v: u32 :: Bit(f.senses(c, v), i) == Bit(f.senses(c, v), j)
  }

  /** Address line `k` is stuck at `x`. */
  ghost predicate StuckLine(f: Faults, k: nat, x: nat) {
    x <= 1 && forall a: nat :: f.wiring(a) == Force(a, k, x)
  }

  /** With line `k` stuck, two addresses are one exactly if they differ by 2^k and the lower has that bit clear. */
  lemma {:induction false} StuckLineAliases(a: nat, b: nat, k: nat, x: nat)
    requires a < b && x <= 1
    ensures Force(a, k, x) == Force(b, k, x) <==> b == a + Pow2(k) && Bit(a, k) == 0
  {
    if k > 0 {
      if a / 2 < b / 2 {
        StuckLineAliases(a / 2, b / 2, k - 1, x);
      }
    }
  }

  /** Some address of the `n` words from `base` on has bit `k` clear, and the word 2^k above it is among them too. */
  ghost predicate LineShows(base: nat, n: nat, k: nat) {
    exists a: nat :: base <= a && a + Pow2(k) < base + n && Bit(a, k) == 0
  }

  /** A stuck line leaves exactly those regions apart in which it does not show. */
  lemma StuckLineSeparates(f: Faults, k: nat, x: nat, base: nat, n: nat)
    requires StuckLine(f, k, x)
    ensures Separate(f, base, n) <==> !LineShows(base, n, k)
  {
    hide Bit, Force, Pow2;
    if LineShows(base, n, k) {
      var a: nat :| base <= a && a + Pow2(k) < base + n && Bit(a, k) == 0;
      StuckLineAliases(a, a + Pow2(k), k, x);
      assert f.wiring(a) == f.wiring(a + Pow2(k));
    } else {
      forall a: nat, b: nat | base <= a < b < base + n
        ensures f.wiring(a) != f.wiring(b)
      {
        StuckLineAliases(a, b, k, x);
      }
    }
  }

  /** Line 1 does not show in the four words from 2 on: 2 and 3 have the bit set, 4 and 5 lack the word above. */
  lemma UnalignedRegionHidesLine()
    ensures Pow2(1) < 3 && !LineShows(2, 4, 1)
  {
    forall a: nat | 2 <= a && a + Pow2(1) < 6
      ensures Bit(a, 1) == 1
    {
      assert Pow2(1) == 2 * Pow2(0);
      assert a == 2 || a == 3;
    }
  }

  // ----- data lines -----

  /** A pattern after `i` shifts to the left. */
  function Shifted(pattern: u32, i: nat): u32 {
    if i == 0 then pattern else Wrap32(Shifted(pattern, i - 1) as int * 2)
  }

  /** What the word at `addr` reads as after `v` went there and its complement to the parking address. */
  ghost function Echo(f: Faults, addr: nat, dummy: nat, v: u32): u32 {
    f.senses(f.wiring(addr), if f.wiring(addr) == f.wiring(dummy) then Not(v) else v)
  }

  ghost predicate Echoes(f: Faults, addr: nat, dummy: nat, v: u32) {
    Echo(f, addr, dummy, v) == v && Echo(f, addr, dummy, Not(v)) == Not(v)
  }

  /** The pattern after `i` shifts reads back, and so does its complement, unless nothing is left of it. */
  ghost predicate ShiftPass(f: Faults, addr: nat, dummy: nat, pattern: u32, i: nat) {
    Shifted(pattern, i) != 0 ==> Echoes(f, addr, dummy, Shifted(pattern, i))
  }

  ghost predicate WalkPass(f: Faults, addr: nat, dummy: nat, pattern: u32) {
    forall i: nat :: ShiftPass(f, addr, dummy, pattern, i)
  }

  /** Every shift of every bit pattern, and its complement, reads back. */
  ghost predicate DataPass(f: Faults, addr: nat, dummy: nat) {
    forall j :: 0 <= j < |BIT_PATTERNS| ==> WalkPass(f, addr, dummy, BIT_PATTERNS[j])
  }

  lemma {:induction false} ZeroStays(pattern: u32, i: nat, j: nat)
    requires i <= j && Shifted(pattern, i) == 0
    ensures Shifted(pattern, j) == 0
    decreases j
  {
    if i < j {
      ZeroStays(pattern, i, j - 1);
    }
  }

  lemma {:induction false} WalkingOne(i: nat)
    requires i < 32
    ensures Shifted(1, i) == Pow2(i)
  {
    if i > 0 {
      WalkingOne(i - 1);
      Pow2Grows(i - 1, 32);
      WordSize();
      if i < 32 {
        Pow2Grows(i, 32);
      }
    }
  }

  lemma {:induction false} PowerBits(i: nat, j: nat)
    ensures Bit(Pow2(i), j) == if i == j then 1 else 0
  {
    if j == 0 {
      assert i > 0 ==> Pow2(i) == 2 * Pow2(i - 1);
    } else if i == 0 {
      ZeroBits(j - 1);
    } else {
      PowerBits(i - 1, j - 1);
    }
  }

  /** The walking one reads back in every position if the data lines pass. */
  lemma OnePasses(f: Faults, addr: nat, dummy: nat, i: nat)
    requires DataPass(f, addr, dummy) && i < 32
    ensures Pow2(i) < U32_LIMIT && Echoes(f, addr, dummy, Pow2(i))
  {
    WalkingOne(i);
    hide Shifted;
    assert BIT_PATTERNS[0] == 1;
    assert WalkPass(f, addr, dummy, 1);
    assert ShiftPass(f, addr, dummy, 1, i);
  }

  /** With sound cells the data lines pass exactly if the parking address is another cell. */
  lemma SoundDataPass(f: Faults, addr: nat, dummy: nat)
    requires SoundCells(f)
    ensures DataPass(f, addr, dummy) <==> f.wiring(addr) != f.wiring(dummy)
  {
    if DataPass(f, addr, dummy) {
      OnePasses(f, addr, dummy, 0);
    }
  }

  /** A stuck data line never passes, whatever the wiring. */
  lemma StuckBitFailsData(f: Faults, addr: nat, dummy: nat, b: nat, x: nat)
    requires StuckBit(f, f.wiring(addr), b, x)
    ensures !DataPass(f, addr, dummy)
  {
    if DataPass(f, addr, dummy) {
      OnePasses(f, addr, dummy, 0);
      BitFlips(1, b);
    }
  }

  /** Two shorted data lines never pass, whatever the wiring. */
  lemma ShortedBitsFailData(f: Faults, addr: nat, dummy: nat, i: nat, j: nat)
    requires ShortedBits(f, f.wiring(addr), i, j)
    ensures !DataPass(f, addr, dummy)
  {
    if DataPass(f, addr, dummy) {
      OnePasses(f, addr, dummy, i);
      PowerBits(i, i);
      PowerBits(i, j);
    }
  }

  // ----- address lines -----

  /** What the word at offset `o` reads as when all hold the pattern but the one at offset `mark`. */
  ghost function Seen(f: Faults, base: nat, mark: nat, o: nat): u32 {
    var c := f.wiring(base + o);
    f.senses(c, if c == f.wiring(base + mark) then ANTI_PATTERN else PATTERN)
  }

  ghost predicate PowerPass(f: Faults, base: nat, len: nat, mark: nat, k: nat) {
    Pow2(k) < len && Pow2(k) != mark ==> Seen(f, base, mark, Pow2(k)) == PATTERN
  }

  ghost predicate MarkPass(f: Faults, base: nat, len: nat, mark: nat) {
    forall k: nat :: PowerPass(f, base, len, mark, k)
  }

  ghost predicate LowPass(f: Faults, base: nat, len: nat, j: nat) {
    Pow2(j) < len ==> MarkPass(f, base, len, Pow2(j))
  }

  /** The other power-of-two offsets keep the pattern, wherever the mark is put. */
  ghost predicate AddressPass(f: Faults, base: nat, len: nat) {
    MarkPass(f, base, len, 0) && forall j: nat :: LowPass(f, base, len, j)
  }

  /** A separate region passes. */
  lemma SeparatePasses(f: Faults, base: nat, len: nat)
    requires SoundCells(f) && Separate(f, base, len + 1)
    ensures AddressPass(f, base, len)
  {
    hide Pow2;
    forall mark: nat | mark < len || mark == 0
      ensures MarkPass(f, base, len, mark)
    {
    }
  }

  /** A power of two is the sum of two others only if they are equal. */
  lemma {:induction false} PowerSums(i: nat, j: nat, k: nat)
    requires Pow2(j) == Pow2(i) + Pow2(k)
    ensures i == k && j == k + 1
  {
    if i > 0 && k > 0 {
      PowerSums(i - 1, j - 1, k - 1);
    }
  }

  lemma {:induction false} AddPower(a: nat, k: nat)
    ensures Bit(a + Pow2(k), k) == 1 - Bit(a, k)
  {
    if k > 0 {
      assert (a + Pow2(k)) / 2 == a / 2 + Pow2(k - 1);
      AddPower(a / 2, k - 1);
    }
  }

  /** The address line part finds a stuck line exactly if its offset is in the region, or, where the base
      address has that bit set, the next one. */
  lemma StuckLinePasses(f: Faults, base: nat, len: nat, k: nat, x: nat)
    requires SoundCells(f) && StuckLine(f, k, x)
    ensures AddressPass(f, base, len) <==> len <= Pow2(k + Bit(base, k))
  {
    hide Force;
    assert Pow2(k + 1) == 2 * Pow2(k);
    AddPower(base, k);
    hide Pow2, Bit;
    if Bit(base, k) == 0 && Pow2(k) < len {
      StuckLineAliases(base, base + Pow2(k), k, x);
      assert !PowerPass(f, base, len, 0, k);
    } else if Bit(base, k) == 1 && Pow2(k + 1) < len {
      StuckLineAliases(base + Pow2(k), base + Pow2(k + 1), k, x);
      assert !PowerPass(f, base, len, Pow2(k), k + 1);
      assert !LowPass(f, base, len, k);
    } else {
      LongLinePasses(f, base, len, k, x);
    }
  }

  lemma LongLinePasses(f: Faults, base: nat, len: nat, k: nat, x: nat)
    requires SoundCells(f) && StuckLine(f, k, x) && len <= Pow2(k + Bit(base, k))
    ensures AddressPass(f, base, len)
  {
    hide Force, Bit, Pow2;
    forall i: nat | Pow2(i) < len
      ensures f.wiring(base) != f.wiring(base + Pow2(i))
    {
      StuckLineAliases(base, base + Pow2(i), k, x);
    }
    forall i: nat, j: nat | Pow2(i) < Pow2(j) < len
      ensures f.wiring(base + Pow2(i)) != f.wiring(base + Pow2(j))
    {
      StuckLineAliases(base + Pow2(i), base + Pow2(j), k, x);
      if Pow2(j) == Pow2(i) + Pow2(k) {
        PowerSums(i, j, k);
        AddPower(base, k);
      }
    }
  }

  // ----- storage bits -----

  /** The pattern for offset `o`: the counter starts at 1. */
  function PatternAt(o: nat): u32 {
    Wrap32(o + 1)
  }

  function Written(o: nat, inverted: bool): u32 {
    if inverted then Not(PatternAt(o)) else PatternAt(o)
  }

  /** What a check leaves at offset `o`: the complement, or zero after the second one. */
  function After(o: nat, inverted: bool): u32 {
    if inverted then 0 else Not(PatternAt(o))
  }

  /** The last of the first `n` offsets that leads to cell `c`, or -1. */
  ghost function Last(f: Faults, base: nat, n: nat, c: nat): (o: int)
    ensures -1 <= o < n && (o >= 0 ==> f.wiring(base + o) == c)
  {
    if n == 0 then -1
    else if f.wiring(base + n - 1) == c then n - 1
    else Last(f, base, n - 1, c)
  }

  lemma {:induction false} LastIsLast(f: Faults, base: nat, n: nat, o: nat)
    requires o < n
    ensures Last(f, base, n, f.wiring(base + o)) >= o
  {
    if o < n - 1 {
      LastIsLast(f, base, n - 1, o);
    }
  }

  /** What cell `c` holds when a check comes to offset `o`. */
  ghost function Held(f: Faults, base: nat, n: nat, o: nat, c: nat, inverted: bool): u32
    requires Last(f, base, n, c) >= 0
  {
    var p := Last(f, base, o, c);
    if p >= 0 then After(p, inverted) else Written(Last(f, base, n, c), inverted)
  }

  /** Offset `o` reads as it was written when a check comes to it. */
  ghost predicate ReadsBack(f: Faults, base: nat, n: nat, o: nat, inverted: bool)
    requires o < n
  {
    LastIsLast(f, base, n, o);
    var c := f.wiring(base + o);
    f.senses(c, Held(f, base, n, o, c, inverted)) == Written(o, inverted)
  }

  ghost predicate CheckPass(f: Faults, base: nat, n: nat, inverted: bool) {
    forall o: nat :: o < n ==> ReadsBack(f, base, n, o, inverted)
  }

  /** Every word of the region reads as its pattern, and later as its complement. */
  ghost predicate StoragePass(f: Faults, base: nat, n: nat) {
    CheckPass(f, base, n, false) && CheckPass(f, base, n, true)
  }

  /** Two words in one cell: the first of them to be checked reads as another pattern. */
  lemma {:induction false} AliasFails(f: Faults, base: nat, n: nat, o: nat, later: nat)
    requires SoundCells(f) && o < later < n <= MAX_WORDS && f.wiring(base + o) == f.wiring(base + later)
    ensures !StoragePass(f, base, n)
    decreases o
  {
    var c := f.wiring(base + o);
    var p := Last(f, base, o, c);
    if p >= 0 {
      AliasFails(f, base, n, p, o);
    } else {
      LastIsLast(f, base, n, later);
      assert !ReadsBack(f, base, n, o, false);
    }
  }

  /** With sound cells the storage part passes exactly if no two words share a cell. */
  lemma SoundStoragePass(f: Faults, base: nat, n: nat)
    requires SoundCells(f) && n <= MAX_WORDS
    ensures StoragePass(f, base, n) <==> Separate(f, base, n)
  {
    if StoragePass(f, base, n) {
      forall a: nat, b: nat | base <= a < b < base + n
        ensures f.wiring(a) != f.wiring(b)
      {
        if f.wiring(a) == f.wiring(b) {
          AliasFails(f, base, n, a - base, b - base);
        }
      }
    } else if Separate(f, base, n) {
      forall o: nat, inverted: bool | o < n
        ensures ReadsBack(f, base, n, o, inverted)
      {
        SeparateReadsBack(f, base, n, o, inverted);
      }
    }
  }

  lemma SeparateReadsBack(f: Faults, base: nat, n: nat, o: nat, inverted: bool)
    requires SoundCells(f) && Separate(f, base, n) && o < n
    ensures ReadsBack(f, base, n, o, inverted)
  {
    LastIsLast(f, base, n, o);
  }

  /** A stuck bit cannot read right both in a pattern and in its complement, whatever the wiring. */
  lemma StuckBitFailsStorage(f: Faults, base: nat, n: nat, o: nat, b: nat, x: nat)
    requires o < n && StuckBit(f, f.wiring(base + o), b, x)
    ensures !StoragePass(f, base, n)
  {
    hide Last, Held, Bit;
    BitFlips(PatternAt(o), b);
    assert ReadsBack(f, base, n, o, false) ==> Bit(Written(o, false), b) == x;
    assert ReadsBack(f, base, n, o, true) ==> Bit(Written(o, true), b) == x;
  }

  // ----- one iteration -----

  /** What one iteration over the words from `start` to `start + len`, both included, needs to report nothing. */
  ghost predicate Pass(f: Faults, start: nat, len: nat, dummy: nat) {
    DataPass(f, start, dummy) && AddressPass(f, start, len) && StoragePass(f, start, len + 1)
  }

  /** With sound cells, whatever the wiring: the words are separate, and the parking address is not the first. */
  lemma SoundPass(f: Faults, start: nat, len: nat, dummy: nat)
    requires SoundCells(f) && len < MAX_WORDS
    ensures Pass(f, start, len, dummy) <==> Separate(f, start, len + 1) && f.wiring(start) != f.wiring(dummy)
  {
    hide DataPass, AddressPass, StoragePass, Separate, SoundCells;
    SoundDataPass(f, start, dummy);
    SoundStoragePass(f, start, len + 1);
    if Separate(f, start, len + 1) {
      SeparatePasses(f, start, len);
    }
  }
}
