/** One iteration of the alternate memory test of cmd_mem.c, on a memory with any wiring and any cell faults:
    it reports no errors exactly if `MemFaults.Pass` holds. Addresses count words. */
module MemTest {
  import opened CTypes
  import opened BitMath
  import opened MemFaults

  class Ram {
    const faults: Faults
    const cells: array<u32>

    ghost predicate Valid() {
      cells.Length <= MAX_WORDS && forall a: nat :: a < cells.Length ==> faults.wiring(a) < cells.Length
    }

    constructor (size: nat, faults: Faults)
      requires size <= MAX_WORDS && forall a: nat :: a < size ==> faults.wiring(a) < size
      ensures Valid() && this.faults == faults && cells.Length == size && fresh(cells)
    {
      this.faults := faults;
      cells := new u32[size];
    }

    function CellOf(a: nat): nat {
      faults.wiring(a)
    }

    method Write(a: nat, v: u32)
      requires Valid() && a < cells.Length
      modifies cells
      ensures cells[CellOf(a)] == v
      ensures forall c :: 0 <= c < cells.Length && c != CellOf(a) ==> cells[c] == old(cells[c])
    {
      cells[faults.wiring(a)] := v;
    }

    method Read(a: nat) returns (v: u32)
      requires Valid() && a < cells.Length
      ensures v == faults.senses(CellOf(a), cells[CellOf(a)])
    {
      var c := faults.wiring(a);
      v := faults.senses(c, cells[c]);
    }

    // ----- data lines -----

    /** Write a value and its complement to another address, and read the value back. */
    method Probe(addr: nat, dummy: nat, val: u32) returns (bad: bool)
      requires Valid() && addr < cells.Length && dummy < cells.Length
      modifies cells
      ensures bad <==> Echo(faults, addr, dummy, val) != val
    {
      Write(addr, val);
      Write(dummy, Not(val));
      var readback := Read(addr);
      bad := readback != val;
    }

    method DataLines(addr: nat, dummy: nat) returns (errs: nat)
      requires Valid() && addr < cells.Length && dummy < cells.Length
      modifies cells
      ensures errs == 0 <==> DataPass(faults, addr, dummy)
      ensures SoundCells(faults) ==> (errs == 0 <==> CellOf(addr) != CellOf(dummy))
      ensures forall b: nat, x: nat :: StuckBit(faults, CellOf(addr), b, x) ==> errs > 0
      ensures forall i: nat, j: nat :: ShortedBits(faults, CellOf(addr), i, j) ==> errs > 0
    {
      hide WalkPass;
      errs := 0;
      for j := 0 to |BIT_PATTERNS|
        invariant errs == 0 <==> forall i :: 0 <= i < j ==> WalkPass(faults, addr, dummy, BIT_PATTERNS[i])
      {
        var more := WalkPattern(addr, dummy, BIT_PATTERNS[j]);
        errs := errs + more;
      }
      DataFaults(addr, dummy);
    }

    lemma DataFaults(addr: nat, dummy: nat)
      ensures SoundCells(faults) ==> (DataPass(faults, addr, dummy) <==> CellOf(addr) != CellOf(dummy))
      ensures forall b: nat, x: nat :: StuckBit(faults, CellOf(addr), b, x) ==> !DataPass(faults, addr, dummy)
      ensures forall i: nat, j: nat :: ShortedBits(faults, CellOf(addr), i, j) ==> !DataPass(faults, addr, dummy)
    {
      hide SoundCells, DataPass, StuckBit, ShortedBits;
      if SoundCells(faults) {
        SoundDataPass(faults, addr, dummy);
      }
      forall b: nat, x: nat | StuckBit(faults, CellOf(addr), b, x)
        ensures !DataPass(faults, addr, dummy)
      {
        StuckBitFailsData(faults, addr, dummy, b, x);
      }
      forall i: nat, j: nat | ShortedBits(faults, CellOf(addr), i, j)
        ensures !DataPass(faults, addr, dummy)
      {
        ShortedBitsFailData(faults, addr, dummy, i, j);
      }
    }

    /** The inner loop: shift the pattern until nothing is left of it. */
    method WalkPattern(addr: nat, dummy: nat, pattern: u32) returns (errs: nat)
      requires Valid() && addr < cells.Length && dummy < cells.Length && pattern != 0
      modifies cells
      ensures errs == 0 <==> WalkPass(faults, addr, dummy, pattern)
    {
      hide Echoes, ShiftPass, WalkPass;
      errs := 0;
      var val := pattern;
      ghost var i, q: nat := 0, pattern;
      while val != 0
        invariant i <= 32 && val == q * Pow2(i) && val == Shifted(pattern, i)
        invariant errs == 0 <==> forall j: nat :: j < i ==> ShiftPass(faults, addr, dummy, pattern, j)
        decreases 32 - i
      {
        var bad := Probe(addr, dummy, val);
        var worse := Probe(addr, dummy, Not(val));
        ShiftPassIff(addr, dummy, pattern, i);
        errs := errs + (if bad then 1 else 0) + (if worse then 1 else 0);
        q := ShiftUp(val, i, q);
        val := Wrap32(val as int * 2);
        i := i + 1;
      }
      WalkEnds(addr, dummy, pattern, i);
    }

    lemma ShiftPassIff(addr: nat, dummy: nat, pattern: u32, i: nat)
      requires Shifted(pattern, i) != 0
      ensures var v := Shifted(pattern, i);
              ShiftPass(faults, addr, dummy, pattern, i) <==>
                Echo(faults, addr, dummy, v) == v && Echo(faults, addr, dummy, Not(v)) == Not(v)
    {
    }

    lemma WalkEnds(addr: nat, dummy: nat, pattern: u32, i: nat)
      requires Shifted(pattern, i) == 0
      ensures WalkPass(faults, addr, dummy, pattern) <==>
                forall j: nat :: j < i ==> ShiftPass(faults, addr, dummy, pattern, j)
    {
      forall j: nat | i <= j
        ensures ShiftPass(faults, addr, dummy, pattern, j)
      {
        ZeroStays(pattern, i, j);
      }
      hide ShiftPass;
    }

    // ----- address lines -----

    /** Every power-of-two offset holds the pattern. */
    ghost predicate PowersHold(base: nat, len: nat)
      requires Valid() && base + len < cells.Length
      reads cells
    {
      forall k: nat :: Pow2(k) < len ==> cells[CellOf(base + Pow2(k))] == PATTERN
    }

    /** The same after the word at offset `mark` was changed. */
    ghost predicate Marked(base: nat, len: nat, mark: nat)
      requires Valid() && base + len < cells.Length && mark <= len
      reads cells
    {
      forall k: nat :: Pow2(k) < len ==>
        var c := CellOf(base + Pow2(k));
        cells[c] == if c == CellOf(base + mark) then ANTI_PATTERN else PATTERN
    }

    method FillPowers(base: nat, len: nat)
      requires Valid() && base + len < cells.Length
      modifies cells
      ensures PowersHold(base, len)
    {
      var offset := 1;
      ghost var i := 0;
      while offset < len
        invariant offset == Pow2(i)
        invariant forall k: nat :: k < i && Pow2(k) < len ==> cells[CellOf(base + Pow2(k))] == PATTERN
        decreases len - offset
      {
        Write(base + offset, PATTERN);
        offset, i := offset * 2, i + 1;
      }
      BeyondPowers(len, i);
    }

    method CheckPowers(base: nat, len: nat, mark: nat) returns (errs: nat)
      requires Valid() && base + len < cells.Length && mark <= len && Marked(base, len, mark)
      ensures errs == 0 <==> MarkPass(faults, base, len, mark)
    {
      hide Seen;
      errs := 0;
      var offset := 1;
      ghost var i := 0;
      while offset < len
        invariant offset == Pow2(i)
        invariant errs == 0 <==> forall k: nat :: k < i ==> PowerPass(faults, base, len, mark, k)
        decreases len - offset
      {
        var temp := Read(base + offset);
        SeenIs(base, mark, Pow2(i));
        assert PowerPass(faults, base, len, mark, i) <==> offset == mark || temp == PATTERN;
        if temp != PATTERN && offset != mark {
          errs := errs + 1;
        }
        offset, i := offset * 2, i + 1;
      }
      BeyondPowers(len, i);
      assert forall k: nat :: i <= k ==> PowerPass(faults, base, len, mark, k);
    }

    lemma SeenIs(base: nat, mark: nat, o: nat)
      ensures Seen(faults, base, mark, o) ==
              faults.senses(CellOf(base + o), if CellOf(base + o) == CellOf(base + mark) then ANTI_PATTERN else PATTERN)
    {
    }

    /** Put the other pattern at an offset, count the words it shows at, and put the pattern back. */
    method CheckMark(base: nat, len: nat, mark: nat) returns (errs: nat)
      requires Valid() && base + len < cells.Length && mark <= len && PowersHold(base, len)
      modifies cells
      ensures PowersHold(base, len) && (errs == 0 <==> MarkPass(faults, base, len, mark))
    {
      hide Pow2, MarkPass;
      Write(base + mark, ANTI_PATTERN);
      errs := CheckPowers(base, len, mark);
      Write(base + mark, PATTERN);
    }

    method AddressLines(base: nat, len: nat) returns (errs: nat)
      requires Valid() && base + len < cells.Length
      modifies cells
      ensures errs == 0 <==> AddressPass(faults, base, len)
      ensures SoundCells(faults) && Separate(faults, base, len + 1) ==> errs == 0
      ensures forall k: nat, x: nat :: SoundCells(faults) && StuckLine(faults, k, x) ==>
                                         (errs == 0 <==> len <= Pow2(k + Bit(base, k)))
    {
      hide Bit, MarkPass, LowPass, Separate, StuckLine, SoundCells;
      FillPowers(base, len);
      errs := CheckMark(base, len, 0);
      var more := CheckLow(base, len);
      errs := errs + more;
      AddressFaults(base, len);
    }

    lemma AddressFaults(base: nat, len: nat)
      ensures SoundCells(faults) && Separate(faults, base, len + 1) ==> AddressPass(faults, base, len)
      ensures forall k: nat, x: nat :: SoundCells(faults) && StuckLine(faults, k, x) ==>
                                         (AddressPass(faults, base, len) <==> len <= Pow2(k + Bit(base, k)))
    {
      hide *;
      if SoundCells(faults) && Separate(faults, base, len + 1) {
        SeparatePasses(faults, base, len);
      }
      forall k: nat, x: nat | SoundCells(faults) && StuckLine(faults, k, x)
        ensures AddressPass(faults, base, len) <==> len <= Pow2(k + Bit(base, k))
      {
        StuckLinePasses(faults, base, len, k, x);
      }
    }

    /** The loop that looks for lines stuck low or shorted. */
    method CheckLow(base: nat, len: nat) returns (errs: nat)
      requires Valid() && base + len < cells.Length && PowersHold(base, len)
      modifies cells
      ensures errs == 0 <==> forall j: nat :: LowPass(faults, base, len, j)
    {
      hide MarkPass, Ram.PowersHold;
      assert Pow2(0) == 1;
      errs := 0;
      var testOffset := 1;
      ghost var i := 0;
      while testOffset < len
        invariant testOffset == Pow2(i) && PowersHold(base, len)
        invariant errs == 0 <==> forall j: nat :: j < i ==> LowPass(faults, base, len, j)
        decreases len - testOffset
      {
        var more := CheckMark(base, len, testOffset);
        errs := errs + more;
        assert LowPass(faults, base, len, i) <==> more == 0;
        testOffset, i := testOffset * 2, i + 1;
      }
      BeyondPowers(len, i);
      assert forall j: nat :: i <= j ==> LowPass(faults, base, len, j);
    }

    // ----- storage bits -----

    /** Every cell of the region holds what was last written to it, inverted if `inverted`. */
    ghost predicate Filled(base: nat, n: nat, inverted: bool)
      reads cells
    {
      forall c :: 0 <= c < cells.Length && Last(faults, base, n, c) >= 0 ==>
        cells[c] == Written(Last(faults, base, n, c), inverted)
    }

    method FillRegion(base: nat, numWords: nat)
      requires Valid() && base + numWords <= cells.Length
      modifies cells
      ensures Filled(base, numWords, false)
    {
      var pattern: u32 := 1;
      for offset := 0 to numWords
        invariant pattern == PatternAt(offset)
        invariant Filled(base, offset, false)
      {
        Write(base + offset, pattern);
        NextPattern(offset);
        pattern := Wrap32(pattern as int + 1);
      }
    }

    /** A check has come to offset `o`. */
    ghost predicate Checked(base: nat, n: nat, o: nat, inverted: bool)
      reads cells
    {
      forall c :: 0 <= c < cells.Length && Last(faults, base, n, c) >= 0 ==>
        cells[c] == Held(faults, base, n, o, c, inverted)
    }

    /** Check one word, and invert or clear it. */
    method CheckWord(base: nat, numWords: nat, offset: nat, pattern: u32, inverted: bool) returns (bad: bool)
      requires Valid() && base + numWords <= cells.Length && offset < numWords && pattern == PatternAt(offset)
      requires Checked(base, numWords, offset, inverted)
      modifies cells
      ensures Checked(base, numWords, offset + 1, inverted)
      ensures bad <==> !ReadsBack(faults, base, numWords, offset, inverted)
    {
      hide PatternAt, Last, Held, ReadsBack;
      LastIsLast(faults, base, numWords, offset);
      HeldSteps(base, numWords, offset, inverted);
      ReadsBackIff(base, numWords, offset, inverted);
      var expected := if inverted then Not(pattern) else pattern;
      var temp := Read(base + offset);
      bad := temp != expected;
      Write(base + offset, if inverted then 0 else Not(pattern));
    }

    /** The second pass checks the pattern and inverts it; the third checks the inverse and clears it. */
    method CheckRegion(base: nat, numWords: nat, inverted: bool) returns (errs: nat)
      requires Valid() && base + numWords <= cells.Length && Filled(base, numWords, inverted)
      modifies cells
      ensures errs == 0 <==> CheckPass(faults, base, numWords, inverted)
      ensures if inverted then Cleared(base, numWords) else Filled(base, numWords, true)
    {
      hide PatternAt, ReadsBack, Ram.Checked, Ram.Filled, Ram.Cleared;
      HeldAtFirst(base, numWords, inverted);
      errs := 0;
      var pattern: u32 := 1;
      for offset := 0 to numWords
        invariant pattern == PatternAt(offset)
        invariant Checked(base, numWords, offset, inverted)
        invariant errs == 0 <==> forall o: nat :: o < offset ==> ReadsBack(faults, base, numWords, o, inverted)
      {
        var bad := CheckWord(base, numWords, offset, pattern, inverted);
        errs := errs + if bad then 1 else 0;
        NextPattern(offset);
        pattern := Wrap32(pattern as int + 1);
      }
      HeldAtLast(base, numWords, inverted);
    }

    lemma ReadsBackIff(base: nat, n: nat, o: nat, inverted: bool)
      requires o < n && Last(faults, base, n, CellOf(base + o)) >= 0
      ensures ReadsBack(faults, base, n, o, inverted) <==>
                faults.senses(CellOf(base + o), Held(faults, base, n, o, CellOf(base + o), inverted))
                == Written(o, inverted)
    {
    }

    lemma HeldAtFirst(base: nat, n: nat, inverted: bool)
      requires Filled(base, n, inverted)
      ensures PatternAt(0) == 1 && Checked(base, n, 0, inverted)
    {
    }

    lemma HeldSteps(base: nat, n: nat, o: nat, inverted: bool)
      requires o < n
      ensures forall c: nat :: Last(faults, base, n, c) >= 0 ==>
                                 Held(faults, base, n, o + 1, c, inverted) ==
                                 if c == CellOf(base + o) then After(o, inverted)
                                 else Held(faults, base, n, o, c, inverted)
    {
    }

    lemma HeldAtLast(base: nat, n: nat, inverted: bool)
      requires Valid() && base + n <= cells.Length && Checked(base, n, n, inverted)
      ensures if inverted then Cleared(base, n) else Filled(base, n, true)
    {
      RegionReached(base, n);
    }

    ghost predicate Cleared(base: nat, n: nat)
      requires Valid() && base + n <= cells.Length
      reads cells
    {
      forall a: nat :: base <= a < base + n ==> cells[CellOf(a)] == 0
    }

    lemma RegionReached(base: nat, n: nat)
      ensures forall a: nat :: base <= a < base + n ==> Last(faults, base, n, CellOf(a)) >= 0
    {
      forall a: nat | base <= a < base + n
        ensures Last(faults, base, n, CellOf(a)) >= 0
      {
        LastIsLast(faults, base, n, a - base);
      }
    }

    method StorageBits(base: nat, numWords: nat) returns (errs: nat)
      requires Valid() && base + numWords <= cells.Length
      modifies cells
      ensures errs == 0 <==> StoragePass(faults, base, numWords)
      ensures SoundCells(faults) ==> (errs == 0 <==> Separate(faults, base, numWords))
      ensures forall a: nat, b: nat, x: nat ::
                base <= a < base + numWords && StuckBit(faults, CellOf(a), b, x) ==> errs > 0
      ensures Cleared(base, numWords)
    {
      hide Ram.Filled, CheckPass, Ram.Cleared, Separate, StuckBit, SoundCells;
      FillRegion(base, numWords);
      errs := CheckRegion(base, numWords, false);
      var more := CheckRegion(base, numWords, true);
      errs := errs + more;
      StorageFaults(base, numWords);
    }

    lemma StorageFaults(base: nat, n: nat)
      requires n <= MAX_WORDS
      ensures SoundCells(faults) ==> (StoragePass(faults, base, n) <==> Separate(faults, base, n))
      ensures forall a: nat, b: nat, x: nat ::
                base <= a < base + n && StuckBit(faults, CellOf(a), b, x) ==> !StoragePass(faults, base, n)
    {
      hide SoundCells, StoragePass, Separate, StuckBit;
      if SoundCells(faults) {
        SoundStoragePass(faults, base, n);
      }
      forall a: nat, b: nat, x: nat | base <= a < base + n && StuckBit(faults, CellOf(a), b, x)
        ensures !StoragePass(faults, base, n)
      {
        StuckBitFailsStorage(faults, base, n, a - base, b, x);
      }
    }

    // ----- one iteration -----

    /** One iteration over the words from `start` to `start + len`, both included; `dummy` is the word
        used to change the data bus. */
    method Iteration(start: nat, len: nat, dummy: nat) returns (errs: nat)
      requires Valid() && start + len < cells.Length && dummy < cells.Length
      modifies cells
      ensures errs == 0 <==> Pass(faults, start, len, dummy)
      ensures SoundCells(faults) ==>
                (errs == 0 <==> Separate(faults, start, len + 1) && CellOf(start) != CellOf(dummy))
      ensures forall k: nat, x: nat :: SoundCells(faults) && StuckLine(faults, k, x) ==>
                (errs == 0 <==> !LineShows(start, len + 1, k) && CellOf(start) != CellOf(dummy))
      ensures forall a: nat, b: nat, x: nat ::
                start <= a <= start + len && StuckBit(faults, CellOf(a), b, x) ==> errs > 0
      ensures forall i: nat, j: nat :: ShortedBits(faults, CellOf(start), i, j) ==> errs > 0
      ensures Cleared(start, len + 1)
    {
      hide DataPass, AddressPass, StoragePass, Separate, SoundCells, StuckLine, StuckBit, ShortedBits, LineShows,
           Ram.Cleared;
      errs := DataLines(start, dummy);
      var more := AddressLines(start, len);
      var rest := StorageBits(start, len + 1);
      errs := errs + more + rest;
      LineFaults(start, len + 1);
    }

    lemma LineFaults(start: nat, n: nat)
      ensures forall k: nat, x: nat :: StuckLine(faults, k, x) ==>
                                         (Separate(faults, start, n) <==> !LineShows(start, n, k))
    {
      hide *;
      forall k: nat, x: nat | StuckLine(faults, k, x)
        ensures Separate(faults, start, n) <==> !LineShows(start, n, k)
      {
        StuckLineSeparates(faults, k, x, start, n);
      }
    }
  }

  /** Eight words with address line 1 stuck: an iteration over the words 2 to 5 reports nothing, although the
      offset 2^1 is below its length 3. */
  method UnnoticedLine() returns (errs: nat)
    ensures errs == 0
  {
    StuckInRange();
    var ram := new Ram(8, Faults(a => Force(a, 1, 1), (c, v) => v));
    assert StuckLine(ram.faults, 1, 1) && SoundCells(ram.faults);
    hide LineShows;
    UnalignedRegionHidesLine();
    errs := ram.Iteration(2, 3, 1);
  }

  lemma StuckInRange()
    ensures forall a: nat :: a < 8 ==> Force(a, 1, 1) < 8
    ensures Force(1, 1, 1) == 3 && Force(2, 1, 1) == 2
  {
  }

  /** Doubling from 1 passes every power of two below the bound. */
  lemma BeyondPowers(len: nat, i: nat)
    requires Pow2(i) >= len
    ensures forall k: nat :: Pow2(k) < len ==> k < i
  {
    forall k: nat | i <= k
      ensures Pow2(i) <= Pow2(k)
    {
      if i < k {
        Pow2Grows(i, k);
      }
    }
  }

  lemma NextPattern(o: nat)
    ensures Wrap32(PatternAt(o) as int + 1) == PatternAt(o + 1)
  {
  }

  /** After `i` shifts the value is a multiple of 2^i, so at most 32 shifts leave anything. */
  lemma ShiftUp(val: nat, i: nat, q: nat) returns (next: nat)
    requires val < U32_LIMIT && i <= 32 && val == q * Pow2(i) && val != 0
    ensures i < 32 && Wrap32(val * 2) == next * Pow2(i + 1)
  {
    WordSize();
    BelowOne(q, val);
    assert i < 32;
    Pow2Sum(31 - i, i + 1);
    var h, p := Pow2(31 - i), Pow2(i + 1);
    DoubleProduct(q, Pow2(i));
    hide Pow2;
    next := Reduce(val * 2, q, p, h);
  }

  lemma BelowOne(q: nat, val: nat)
    requires 0 < val < U32_LIMIT
    ensures val != q * U32_LIMIT
  {
  }

  lemma DoubleProduct(q: nat, p: nat)
    ensures q * p * 2 == q * (2 * p)
  {
  }

  lemma Reduce(v: nat, q: nat, p: nat, h: nat) returns (next: nat)
    requires v == q * p && U32_LIMIT == h * p && v < 2 * U32_LIMIT
    ensures Wrap32(v) == next * p
  {
    if v < U32_LIMIT {
      next := q;
    } else {
      assert q * p - h * p == (q - h) * p;
      assert q >= h;
      next := q - h;
    }
  }
}
