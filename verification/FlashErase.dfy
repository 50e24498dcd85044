/** The "erase" command of cmd_flash.c: address specifications, rounding up to a sector end, and the
    erase loop over the planned sectors. */
module FlashErase {
  import opened CTypes
  import opened Flash
  import opened FlashRanges
  import opened FlashCover
  import opened FlashComplete

  ghost predicate HeldBy(banks: seq<Bank>, k: nat, s: nat, a: u32) {
    k < |banks| && s < |banks[k].start| && banks[k].Holds(s, a)
  }

  ghost predicate NotInFlash(banks: seq<Bank>, a: u32) {
    forall k: nat, s: nat :: !HeldBy(banks, k, s, a)
  }

  /** `z` is the end of a sector that holds `a`. */
  ghost predicate RoundsTo(banks: seq<Bank>, a: u32, z: u32) {
    exists k: nat, s: nat :: HeldBy(banks, k, s, a) && z == banks[k].SectorEnd(s)
  }

  /** flash_sect_roundb: every bank is searched, known or not. */
  method SectRoundb(banks: seq<Bank>, addr: u32) returns (ok: bool, a: u32)
    ensures ok <==> !NotInFlash(banks, addr)
    ensures if ok then RoundsTo(banks, addr, a) else a == addr
  {
    a := addr;
    var found := false;
    var bank := 0;
    while bank < |banks| && !found
      invariant bank <= |banks|
      invariant if found then RoundsTo(banks, addr, a) && !NotInFlash(banks, addr) else a == addr
      invariant !found ==> forall k: nat, s: nat :: k < bank ==> !HeldBy(banks, k, s, addr)
      decreases |banks| - bank
    {
      var info := banks[bank];
      var i := 0;
      while i < |info.start| && !found
        invariant i <= |info.start|
        invariant if found then RoundsTo(banks, addr, a) && !NotInFlash(banks, addr) else a == addr
        invariant !found ==> forall s: nat :: s < i ==> !HeldBy(banks, bank, s, addr)
        decreases |info.start| - i
      {
        var sectorEnd := if i == |info.start| - 1 then info.End() else Wrap32(info.start[i + 1] as int - 1);
        if a <= sectorEnd && a >= info.start[i] {
          found := true;
          assert HeldBy(banks, bank, i, addr);
          if a < sectorEnd {
            a := sectorEnd;
          }
        }
        i := i + 1;
      }
      bank := bank + 1;
    }
    ok := found;
  }

  /** addr_spec once both numbers are parsed: "first last" or, with `lenUsed`, "first +length". */
  method AddrSpec(banks: seq<Bank>, addr1: u32, addr2: u32, lenUsed: bool) returns (ok: bool, first: u32, last: u32)
    ensures first == addr1
    ensures !lenUsed ==> ok && last == addr2
    ensures lenUsed ==> (ok <==> !NotInFlash(banks, Wrap32(addr1 + addr2 - 1)))
    ensures lenUsed && ok ==> RoundsTo(banks, Wrap32(addr1 + addr2 - 1), last)
  {
    first, last := addr1, addr2;
    if lenUsed {
      last := Wrap32(first + last - 1);
      ok, last := SectRoundb(banks, last);
      return;
    }
    ok := true;
  }

  /** addr_spec refuses only a "+length" range whose end is not in flash. */
  ghost predicate Accepts(banks: seq<Bank>, addr1: u32, addr2: u32, lenUsed: bool) {
    lenUsed ==> !NotInFlash(banks, Wrap32(addr1 + addr2 - 1))
  }

  /** A range "first +length" whose start is a sector start is never refused: its end is rounded. */
  lemma RoundedIsUncut(banks: seq<Bank>, k: nat, s: nat, m: nat, z: nat, first: u32, last: u32)
    requires ValidBanks(banks) && Contiguous(banks)
    requires Covers(banks, k) && s < |banks[k].start| && banks[k].start[s] == first
    requires Covers(banks, m) && z < |banks[m].start| && banks[m].SectorEnd(z) == last
    ensures Uncut(banks, 0, first, last)
  {
    forall n: nat, t: nat | Covers(banks, n) && t < |banks[n].start| && Meets(banks[n], t, first, last)
      ensures Within(banks[n], t, first, last)
    {
      NotCut(banks, k, s, n, t);
      NotCut(banks, n, t, m, z);
    }
  }

  /** Two sectors of contiguous banks are the same, or one lies behind the other. */
  lemma NotCut(banks: seq<Bank>, k: nat, s: nat, n: nat, t: nat)
    requires ValidBanks(banks) && Contiguous(banks)
    requires Covers(banks, k) && s < |banks[k].start| && Covers(banks, n) && t < |banks[n].start|
    ensures banks[k].start[s] <= banks[n].SectorEnd(t) ==>
              banks[k].start[s] <= banks[n].start[t] && banks[k].SectorEnd(s) <= banks[n].SectorEnd(t)
  {
    SectorBounds(banks[k], s);
    SectorBounds(banks[n], t);
    if k == n {
      SectorOrder(banks[k], if s < t then s else t, if s < t then t else s);
    }
  }

  // ----- erasing -----

  lemma PlannedPrefix(plan: seq<Range>, n: nat)
    requires n <= |plan|
    ensures PlannedSet(plan[..n]) <= PlannedSet(plan)
  {
    forall x | x in PlannedSet(plan[..n])
      ensures x in PlannedSet(plan)
    {
      PlannedMember(plan[..n], x.0, x.1);
      PlannedMember(plan, x.0, x.1);
    }
  }

  /** Every address of the range lies in an erased sector. */
  ghost predicate AllErased(banks: seq<Bank>, erased: set<(nat, nat)>, first: u32, last: u32) {
    forall a: u32 :: first <= a <= last ==> Erased(banks, erased, a)
  }

  ghost predicate Erased(banks: seq<Bank>, erased: set<(nat, nat)>, a: u32) {
    exists k: nat, s: nat :: (k, s) in erased && HeldBy(banks, k, s, a)
  }

  /** Some address of the range lies in no known bank. */
  ghost predicate Gap(banks: seq<Bank>, first: u32, last: u32)
    requires ValidBanks(banks)
  {
    exists a: u32 :: first <= a <= last && InNoBank(banks, a)
  }

  ghost predicate InNoBank(banks: seq<Bank>, a: u32)
    requires ValidBanks(banks)
  {
    forall m: nat, s: nat :: Covers(banks, m) && s < |banks[m].start| ==> !banks[m].Holds(s, a)
  }

  /** Erasing what is planned erases the whole range. */
  lemma PlanErases(banks: seq<Bank>, erased: set<(nat, nat)>, first: u32, last: u32)
    requires ValidBanks(banks) && first <= last && Plan(banks, 0, first, last).Some? && EndsSector(banks, 0, last)
    requires PlannedSet(Plan(banks, 0, first, last).value) <= erased
    ensures AllErased(banks, erased, first, last)
  {
    hide Plan, PlannedSet, EndsSector;
    CompleteIff(banks, first, last);
    var plan := Plan(banks, 0, first, last).value;
    forall a: u32 | first <= a <= last
      ensures Erased(banks, erased, a)
    {
      assert Reached(banks, 0, plan, a);
      var k: nat, s: nat :| PlannedAt(banks, 0, plan, k, s, a);
      PlannedMember(plan, k, s);
      assert 0 + k == k && (k, s) in erased && HeldBy(banks, k, s, a);
    }
  }

  lemma GapPlansNothing(banks: seq<Bank>, first: u32, last: u32)
    requires ValidBanks(banks) && Gap(banks, first, last) && EndsSector(banks, 0, last)
    ensures Plan(banks, 0, first, last).None?
  {
    var a: u32 :| first <= a <= last && InNoBank(banks, a);
    GapRefused(banks, first, last, a);
  }

  class Chips {
    const banks: seq<Bank>
    var erased: set<(nat, nat)>

    constructor (banks: seq<Bank>)
      requires ValidBanks(banks)
      ensures this.banks == banks && erased == {}
    {
      this.banks, erased := banks, {};
    }

    /** flash_erase of sectors `f` to `l` of one bank; a failing bank may be left partly erased. */
    method FlashErase(k: nat, f: nat, l: nat, failing: set<nat>) returns (rc: int)
      requires f <= l
      modifies this
      ensures rc == 0 <==> k !in failing
      ensures old(erased) <= erased <= old(erased) + Column(k, f, l)
      ensures rc == 0 ==> erased == old(erased) + Column(k, f, l)
    {
      erased := erased + (set s: nat | f <= s <= (if k in failing then f else l) :: (k, s));
      rc := if k in failing then 1 else 0;
    }

    /** The loop of flash_sect_erase over the banks. */
    method EraseBanks(sFirst: array<int>, sLast: array<int>, failing: set<nat>, ghost plan: seq<Range>)
        returns (rcode: int)
      requires |plan| == |banks| == sFirst.Length == sLast.Length && Shows(sFirst[..], sLast[..], plan) && Ordered(plan)
      modifies this
      ensures old(erased) <= erased <= old(erased) + PlannedSet(plan)
      ensures rcode == 0 ==> erased == old(erased) + PlannedSet(plan)
      ensures failing == {} ==> rcode == 0
    {
      rcode := 0;
      var bank := 0;
      assert PlannedSet(plan[..0]) == {};
      hide PlannedSet, Column;
      while bank < |banks| && rcode == 0
        invariant bank <= |plan| && old(erased) <= erased <= old(erased) + PlannedSet(plan[..bank])
        invariant rcode == 0 ==> erased == old(erased) + PlannedSet(plan[..bank])
        invariant failing == {} ==> rcode == 0
        decreases |banks| - bank
      {
        assert SlotShows(sFirst[..][bank], sLast[..][bank], plan[bank]);
        PlannedBank(plan, bank);
        if sFirst[bank] >= 0 {
          rcode := FlashErase(bank, sFirst[bank], sLast[bank], failing);
        }
        bank := bank + 1;
      }
      PlannedPrefix(plan, bank);
      assert bank == |banks| ==> plan[..bank] == plan;
    }

    method SectErase(first: u32, last: u32, failing: set<nat>) returns (rcode: int)
      requires ValidBanks(banks)
      modifies this
      ensures var p := Plan(banks, 0, first, last);
        if p.Some? && Count(p.value) > 0 then
          && old(erased) <= erased <= old(erased) + PlannedSet(p.value)
          && (rcode == 0 ==> erased == old(erased) + PlannedSet(p.value))
          && (failing == {} ==> rcode == 0)
        else rcode != 0 && erased == old(erased)
      ensures EndsSector(banks, 0, last) && first <= last && rcode == 0 ==> AllErased(banks, erased, first, last)
      ensures EndsSector(banks, 0, last) && Gap(banks, first, last) ==> rcode != 0 && erased == old(erased)
    {
      var sFirst, sLast := new int[|banks|], new int[|banks|];
      var planned;
      rcode, planned := FillSectRanges(banks, first, last, sFirst, sLast);
      PlanOrdered(banks, 0, first, last);
      if rcode == 0 {
        PlannedIsPositive(banks, first, last);
      }
      hide Plan, Ordered, Shows, PlannedSet, Count, EndsSector, AllErased, Gap;
      if EndsSector(banks, 0, last) && Gap(banks, first, last) {
        GapPlansNothing(banks, first, last);
      }
      if planned != 0 && rcode == 0 {
        rcode := EraseBanks(sFirst, sLast, failing, Plan(banks, 0, first, last).value);
        if EndsSector(banks, 0, last) && first <= last && rcode == 0 {
          PlanErases(banks, erased, first, last);
        }
      } else if rcode == 0 {
        rcode := 1;
      }
    }

    /** "erase first last" and "erase first +length": in contiguous flash, success means that exactly the
        sectors of the range are erased, and only a range that cuts a sector or a failing chip is an error.
        In any layout, a range up to the end of a sector is erased whole on success and refused over a gap. */
    method Erase(addr1: u32, addr2: u32, lenUsed: bool, failing: set<nat>) returns (rcode: int, ghost last: u32)
      requires ValidBanks(banks)
      modifies this
      ensures !lenUsed ==> last == addr2
      ensures lenUsed && !NotInFlash(banks, Wrap32(addr1 + addr2 - 1)) ==>
              RoundsTo(banks, Wrap32(addr1 + addr2 - 1), last)
      ensures rcode == 0 ==> addr1 < last && Accepts(banks, addr1, addr2, lenUsed)
      ensures EndsSector(banks, 0, last) && rcode == 0 ==> AllErased(banks, erased, addr1, last)
      ensures EndsSector(banks, 0, last) && Gap(banks, addr1, last) ==> rcode != 0 && erased == old(erased)
      ensures forall i: nat, j: nat :: Contiguous(banks) && InFlash(banks, 0, i, j, addr1, last) ==>
                && old(erased) <= erased <= old(erased) + SectorsWithin(banks, addr1, last)
                && (rcode == 0 ==>
                      Uncut(banks, 0, addr1, last) && erased == old(erased) + SectorsWithin(banks, addr1, last))
                && (Uncut(banks, 0, addr1, last) && addr1 < last && Accepts(banks, addr1, addr2, lenUsed)
                    && failing == {} ==>
                      rcode == 0)
    {
      var ok, first, z := AddrSpec(banks, addr1, addr2, lenUsed);
      last := z;
      if !ok || first >= z {
        return 1, z;
      }
      hide Contiguous, InFlash, Plan, Count, PlannedSet, SectorsWithin, Uncut, EndsSector, AllErased, Gap;
      forall i: nat, j: nat | Contiguous(banks) && InFlash(banks, 0, i, j, first, z)
        ensures (Plan(banks, 0, first, z).Some? && Count(Plan(banks, 0, first, z).value) > 0) <==>
                Uncut(banks, 0, first, z)
        ensures Uncut(banks, 0, first, z) ==>
                PlannedSet(Plan(banks, 0, first, z).value) == SectorsWithin(banks, first, z)
      {
        CoverIff(banks, i, j, first, z);
      }
      rcode := SectErase(first, z, failing);
    }
  }
}
