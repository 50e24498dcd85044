/** The words the alternate memory test of cmd_mem.c writes, and what reading them back comes to: the eight bit
    patterns and all their shifts, 0xAAAAAAAA against 0x55555555, and the counter from 1 on. */
module MemLaws {
  import opened CTypes
  import opened BitMath
  import opened MemFaults

  /** Cell `c` reads back the word it holds. */
  ghost predicate Keeps(f: Faults, c: nat, v: u32) {
    f.senses(c, v) == v
  }

  /** A word and its complement. */
  ghost predicate KeepsBoth(f: Faults, c: nat, v: u32) {
    Keeps(f, c, v) && Keeps(f, c, 0xFFFF_FFFF - v)
  }

  // ----- data lines -----

  lemma {:induction false} ShiftedIs(pattern: u32, i: nat)
    ensures Shifted(pattern, i) == pattern * Pow2(i) % 0x1_0000_0000
  {
    if i > 0 {
      ShiftedIs(pattern, i - 1);
      DoubledMod(pattern * Pow2(i - 1));
      TwiceTimes(pattern, Pow2(i - 1));
    }
  }

  lemma DoubledMod(x: nat)
    ensures x % 0x1_0000_0000 * 2 % 0x1_0000_0000 == 2 * x % 0x1_0000_0000
  {
    var k, m := x / 0x1_0000_0000, x % 0x1_0000_0000;
    if m < 0x8000_0000 {
      Remainder(2 * x, 0x1_0000_0000, 2 * k, 2 * m);
    } else {
      Remainder(2 * x, 0x1_0000_0000, 2 * k + 1, 2 * m - 0x1_0000_0000);
    }
  }

  /** All shifts of a pattern that leave something of it read back, and their complements. */
  ghost predicate AllShifts(f: Faults, c: nat, pattern: u32) {
    forall i: nat :: pattern * Pow2(i) % 0x1_0000_0000 != 0 ==>
      KeepsBoth(f, c, pattern * Pow2(i) % 0x1_0000_0000)
  }

  lemma WalkIs(f: Faults, addr: nat, dummy: nat, pattern: u32)
    requires f.wiring(addr) != f.wiring(dummy)
    ensures WalkPass(f, addr, dummy, pattern) <==> AllShifts(f, f.wiring(addr), pattern)
  {
    forall i: nat
      ensures ShiftPass(f, addr, dummy, pattern, i) <==>
                (pattern * Pow2(i) % 0x1_0000_0000 != 0 ==>
                     KeepsBoth(f, f.wiring(addr), pattern * Pow2(i) % 0x1_0000_0000))
    {
      ShiftedIs(pattern, i);
      hide Shifted, Pow2;
    }
    hide ShiftPass, KeepsBoth, Pow2;
  }

  /** With the parking address in another cell, the data line part passes exactly if the first word reads back
      every shift of 1, 3, 7, 15, 5, 0x15, 0x55 and 0xAAAAAAAA, and the complements. */
  lemma DataPassIs(f: Faults, addr: nat, dummy: nat)
    requires f.wiring(addr) != f.wiring(dummy)
    ensures var c := f.wiring(addr);
      DataPass(f, addr, dummy) <==>
        && AllShifts(f, c, 1) && AllShifts(f, c, 3) && AllShifts(f, c, 7) && AllShifts(f, c, 15)
        && AllShifts(f, c, 5) && AllShifts(f, c, 0x15) && AllShifts(f, c, 0x55) && AllShifts(f, c, 0xAAAA_AAAA)
  {
    hide AllShifts, WalkPass;
    forall j | 0 <= j < |BIT_PATTERNS|
      ensures WalkPass(f, addr, dummy, BIT_PATTERNS[j]) <==> AllShifts(f, f.wiring(addr), BIT_PATTERNS[j])
    {
      WalkIs(f, addr, dummy, BIT_PATTERNS[j]);
    }
    var p := BIT_PATTERNS;
    assert |p| == 8 && p[0] == 1 && p[1] == 3 && p[2] == 7 && p[3] == 15;
    assert p[4] == 5 && p[5] == 0x15 && p[6] == 0x55 && p[7] == 0xAAAA_AAAA;
  }

  /** With the first word at the parking address the part never passes with sound cells: 1 reads as its complement. */
  lemma ParkedFails(f: Faults, addr: nat, dummy: nat)
    requires f.wiring(addr) == f.wiring(dummy) && Keeps(f, f.wiring(addr), 0xFFFF_FFFE)
    ensures !DataPass(f, addr, dummy)
  {
    if DataPass(f, addr, dummy) {
      OnePasses(f, addr, dummy, 0);
    }
  }

  // ----- address lines -----

  ghost predicate PowerKept(f: Faults, base: nat, mark: nat, o: nat) {
    o != mark ==>
      var c := f.wiring(base + o);
      f.senses(c, if c == f.wiring(base + mark) then 0x5555_5555 else 0xAAAA_AAAA) == 0xAAAA_AAAA
  }

  ghost predicate IsPower(o: nat) {
    exists k: nat :: o == Pow2(k)
  }

  /** With 0x55555555 at offset 0 or a power of two and 0xAAAAAAAA at the powers of two of the region, all but
      the first read 0xAAAAAAAA: exactly then the address line part passes. */
  lemma AddressPassIs(f: Faults, base: nat, len: nat)
    ensures AddressPass(f, base, len) <==>
            forall mark: nat, o: nat :: (mark == 0 || (IsPower(mark) && mark < len)) && IsPower(o) && o < len ==>
              PowerKept(f, base, mark, o)
  {
    hide Pow2;
    forall mark: nat
      ensures MarkPass(f, base, len, mark) <==>
              forall o: nat :: IsPower(o) && o < len ==> PowerKept(f, base, mark, o)
    {
      MarkIs(f, base, len, mark);
    }
    hide MarkPass, PowerKept;
    if AddressPass(f, base, len) {
      forall mark: nat, o: nat | (mark == 0 || (IsPower(mark) && mark < len)) && IsPower(o) && o < len
        ensures PowerKept(f, base, mark, o)
      {
        if mark > 0 {
          var j: nat :| mark == Pow2(j);
          assert LowPass(f, base, len, j);
        }
      }
    }
  }

  lemma MarkIs(f: Faults, base: nat, len: nat, mark: nat)
    ensures MarkPass(f, base, len, mark) <==> forall o: nat :: IsPower(o) && o < len ==> PowerKept(f, base, mark, o)
  {
    hide Pow2;
    forall k: nat
      ensures PowerPass(f, base, len, mark, k) <==> (Pow2(k) < len ==> PowerKept(f, base, mark, Pow2(k)))
    {
    }
    hide PowerPass, PowerKept;
    if MarkPass(f, base, len, mark) {
      forall o: nat | IsPower(o) && o < len
        ensures PowerKept(f, base, mark, o)
      {
        var k: nat :| o == Pow2(k);
        assert PowerPass(f, base, len, mark, k);
      }
    } else {
      var k: nat :| !PowerPass(f, base, len, mark, k);
      assert IsPower(Pow2(k));
    }
  }

  // ----- storage bits -----

  ghost predicate KeepsNumber(f: Faults, base: nat, o: nat) {
    o + 1 < 0x1_0000_0000 && KeepsBoth(f, f.wiring(base + o), o + 1)
  }

  /** Where no two words share a cell, the storage part passes exactly if the word at offset `o` reads back
      `o + 1` and its complement. */
  lemma StoragePassIs(f: Faults, base: nat, n: nat)
    requires Separate(f, base, n) && n <= MAX_WORDS
    ensures StoragePass(f, base, n) <==> forall o: nat :: o < n ==> KeepsNumber(f, base, o)
  {
    forall o: nat | o < n
      ensures ReadsBack(f, base, n, o, false) <==> Keeps(f, f.wiring(base + o), o + 1)
      ensures ReadsBack(f, base, n, o, true) <==> Keeps(f, f.wiring(base + o), 0xFFFF_FFFF - (o + 1))
    {
      SeparateWord(f, base, n, o);
    }
    hide ReadsBack, Separate, Keeps;
    assert forall o: nat :: o < n ==>
             (KeepsNumber(f, base, o) <==> ReadsBack(f, base, n, o, false) && ReadsBack(f, base, n, o, true));
  }

  lemma SeparateWord(f: Faults, base: nat, n: nat, o: nat)
    requires Separate(f, base, n) && o < n <= MAX_WORDS
    ensures ReadsBack(f, base, n, o, false) <==> Keeps(f, f.wiring(base + o), o + 1)
    ensures ReadsBack(f, base, n, o, true) <==> Keeps(f, f.wiring(base + o), 0xFFFF_FFFF - (o + 1))
  {
    LastIsLast(f, base, n, o);
  }

  // ----- one iteration -----

  /** On separate words, the parking address apart, one iteration reports nothing exactly if the first word
      keeps all shifted patterns, the words at powers of two keep 0xAAAAAAAA, and every word keeps its number
      and the complement. */
  lemma PassIs(f: Faults, start: nat, len: nat, dummy: nat)
    requires Separate(f, start, len + 1) && f.wiring(start) != f.wiring(dummy) && len < MAX_WORDS
    ensures var c := f.wiring(start);
      Pass(f, start, len, dummy) <==>
        && AllShifts(f, c, 1) && AllShifts(f, c, 3) && AllShifts(f, c, 7) && AllShifts(f, c, 15)
        && AllShifts(f, c, 5) && AllShifts(f, c, 0x15) && AllShifts(f, c, 0x55) && AllShifts(f, c, 0xAAAA_AAAA)
        && (forall o: nat :: IsPower(o) && o < len ==> Keeps(f, f.wiring(start + o), 0xAAAA_AAAA))
        && (forall o: nat :: o <= len ==> KeepsNumber(f, start, o))
  {
    hide AllShifts, DataPass, AddressPass, StoragePass;
    DataPassIs(f, start, dummy);
    StoragePassIs(f, start, len + 1);
    SeparateAddresses(f, start, len);
    hide Separate, IsPower;
  }

  lemma SeparateAddresses(f: Faults, base: nat, len: nat)
    requires Separate(f, base, len + 1)
    ensures AddressPass(f, base, len) <==>
            forall o: nat :: IsPower(o) && o < len ==> Keeps(f, f.wiring(base + o), 0xAAAA_AAAA)
  {
    AddressPassIs(f, base, len);
    hide AddressPass, IsPower;
    PowersArePositive();
    if AddressPass(f, base, len) {
      forall o: nat | IsPower(o) && o < len
        ensures Keeps(f, f.wiring(base + o), 0xAAAA_AAAA)
      {
        assert PowerKept(f, base, 0, o);
      }
    }
  }

  lemma PowersArePositive()
    ensures forall o: nat :: IsPower(o) ==> o > 0
  {
  }
}
