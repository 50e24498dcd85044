/** What the sector ranges planned by cmd_flash.c cover, and the rounding of "+length" ranges. */
module FlashRanges {
  import opened CTypes
  import opened Flash

  ghost predicate PlannedIn(plan: seq<Range>, i: nat, s: nat) {
    i < |plan| && plan[i].Some? && plan[i].value.0 <= s <= plan[i].value.1
  }

  ghost predicate Within(b: Bank, s: nat, lo: u32, hi: u32)
    requires s < |b.start|
  {
    lo <= b.start[s] && b.SectorEnd(s) <= hi
  }

  // ----- planned sectors lie in the range -----

  /** The first planned sector starts at `first`; the last one ends at `last` or with the bank. */
  lemma TakeEnds(b: Bank, first: u32, last: u32)
    requires ValidBank(b) && Decide(b, first, last).Take?
    ensures var d := Decide(b, first, last);
      && b.start[d.first] == first
      && (b.SectorEnd(d.last) == last || (d.last == |b.start| - 1 && b.SectorEnd(d.last) < last))
  {
    hide StartIndex, EndIndex;
  }

  lemma NextIs(b: Bank, sl: nat)
    requires ValidBank(b) && sl < |b.start|
    ensures if b.SectorEnd(sl) == TOP then Next(b, sl) == 0 && b.End() == TOP && sl == |b.start| - 1
            else Next(b, sl) == b.SectorEnd(sl) + 1
  {
    SectorBounds(b, sl);
  }

  lemma TakeWithin(b: Bank, first: u32, last: u32)
    requires ValidBank(b) && Decide(b, first, last).Take?
    ensures var d := Decide(b, first, last);
      forall s: nat :: d.first <= s <= d.last ==> Within(b, s, first, last)
  {
    TakeEnds(b, first, last);
    var d := Decide(b, first, last);
    hide Decide;
    forall s: nat | d.first <= s <= d.last
      ensures Within(b, s, first, last)
    {
      SectorOrder(b, s, d.last);
      SectorOrder(b, d.first, s);
    }
  }

  lemma SectorOrder(b: Bank, i: nat, j: nat)
    requires ValidBank(b) && i <= j < |b.start|
    ensures b.start[i] <= b.start[j] && b.SectorEnd(i) <= b.SectorEnd(j)
    ensures i < j ==> b.SectorEnd(i) < b.start[j]
  {
    SectorBounds(b, i);
    SectorBounds(b, j);
  }

  ghost predicate Covers(banks: seq<Bank>, i: nat)
    requires ValidBanks(banks)
  {
    i < |banks| && banks[i].known
  }

  /** A bank ends at the very top of the address space and a later one starts at its bottom. */
  ghost predicate WrapLayout(banks: seq<Bank>)
    requires ValidBanks(banks)
  {
    exists i, j :: 0 <= i < j && Covers(banks, i) && Covers(banks, j) && banks[i].End() == TOP && banks[j].start[0] == 0
  }

  /** The planned sectors of the banks from `k` on. */
  ghost predicate PlanWithin(banks: seq<Bank>, k: nat, first: u32, last: u32, lo: u32)
    requires ValidBanks(banks) && k <= |banks|
  {
    Plan(banks, k, first, last).Some? ==>
      forall i: nat, s: nat :: i < |banks| - k && PlannedIn(Plan(banks, k, first, last).value, i, s) ==>
        banks[k + i].known && s < |banks[k + i].start| && Within(banks[k + i], s, lo, last)
  }

  /** From address 0 on nothing is planned when no bank starts there. */
  lemma {:induction false} NothingAtZero(banks: seq<Bank>, k: nat, last: u32, lo: u32)
    requires ValidBanks(banks) && k <= |banks|
    requires forall m :: k <= m < |banks| && banks[m].known ==> banks[m].start[0] != 0
    ensures PlanWithin(banks, k, 0, last, lo)
    decreases |banks| - k
  {
    if k < |banks| {
      NothingAtZero(banks, k + 1, last, lo);
      if banks[k].known {
        NotAtZero(banks[k], last);
      }
      hide Plan, Decide;
      Shift(banks, k, 0, last, lo);
    }
  }

  lemma NotAtZero(b: Bank, last: u32)
    requires ValidBank(b) && b.start[0] != 0
    ensures !Decide(b, 0, last).Take?
  {
    if Decide(b, 0, last).Take? {
      TakeEnds(b, 0, last);
      SectorOrder(b, 0, Decide(b, 0, last).first);
    }
  }

  /** The plan from bank `k` is its own part and the plan from bank `k + 1`. */
  lemma Shift(banks: seq<Bank>, k: nat, first: u32, last: u32, lo: u32)
    requires ValidBanks(banks) && k < |banks| && first <= last
    requires var x := Here(banks[k], first, last);
      x.Some? ==>
        x.value.1 < |banks[k].start| && forall s: nat :: x.value.0 <= s <= x.value.1 ==> Within(banks[k], s, lo, last)
    requires PlanWithin(banks, k + 1, NextAddress(banks[k], first, last), last, lo)
    ensures PlanWithin(banks, k, first, last, lo)
  {
    PlanStep(banks, k, first, last);
    hide Plan, Decide, NextAddress, Within;
    var next := NextAddress(banks[k], first, last);
    if Plan(banks, k, first, last).Some? {
      var plan, rest := Plan(banks, k, first, last).value, Plan(banks, k + 1, next, last).value;
      forall i: nat, s: nat | i < |banks| - k && PlannedIn(plan, i, s)
        ensures banks[k + i].known && s < |banks[k + i].start| && Within(banks[k + i], s, lo, last)
      {
        if i > 0 {
          assert plan[i] == rest[i - 1];
          assert PlannedIn(rest, i - 1, s);
        }
      }
    }
  }

  lemma TakeFacts(b: Bank, first: u32, last: u32, lo: u32)
    requires ValidBank(b) && lo <= first && Decide(b, first, last).Take?
    ensures var d := Decide(b, first, last);
      && (forall s: nat :: d.first <= s <= d.last ==> Within(b, s, lo, last))
      && (if Next(b, d.last) == 0 then b.End() == TOP else first < Next(b, d.last))
  {
    var d := Decide(b, first, last);
    TakeEnds(b, first, last);
    TakeWithin(b, first, last);
    NextIs(b, d.last);
    SectorOrder(b, d.first, d.last);
    SectorBounds(b, d.last);
    hide Decide, Next;
  }

  lemma {:induction false} PlanStaysWithin(banks: seq<Bank>, k: nat, first: u32, last: u32, lo: u32)
    requires ValidBanks(banks) && k <= |banks| && lo <= first && !WrapLayout(banks)
    ensures PlanWithin(banks, k, first, last, lo)
    decreases |banks| - k
  {
    if k < |banks| && first <= last {
      hide Plan, Decide, Next, PlanWithin;
      var b := banks[k];
      if b.known && Decide(b, first, last).Take? {
        var next := Next(b, Decide(b, first, last).last);
        TakeFacts(b, first, last, lo);
        if next == 0 {
          NoneAtZeroBehind(banks, k);
          NothingAtZero(banks, k + 1, last, lo);
        } else {
          PlanStaysWithin(banks, k + 1, next, last, lo);
        }
      } else {
        PlanStaysWithin(banks, k + 1, first, last, lo);
      }
      Shift(banks, k, first, last, lo);
    } else {
      NoMore(banks, k, first, last);
    }
  }

  lemma NoneAtZeroBehind(banks: seq<Bank>, k: nat)
    requires ValidBanks(banks) && !WrapLayout(banks) && Covers(banks, k) && banks[k].End() == TOP
    ensures forall m :: k < m < |banks| && banks[m].known ==> banks[m].start[0] != 0
  {
    assert forall m :: k < m < |banks| && banks[m].known ==> Covers(banks, m);
  }

  /** The plan for a range holds no address outside it. */
  ghost predicate Sound(banks: seq<Bank>, first: u32, last: u32)
    requires ValidBanks(banks)
  {
    PlanWithin(banks, 0, first, last, first)
  }

  ghost predicate Disjoint(banks: seq<Bank>)
    requires ValidBanks(banks)
  {
    forall i, j :: 0 <= i < j && Covers(banks, i) && Covers(banks, j) ==>
      banks[i].End() < banks[j].start[0] || banks[j].End() < banks[i].start[0]
  }

  // ----- what goes wrong at the top of the address space -----

  lemma NothingHere(b: Bank, first: u32, last: u32)
    requires ValidBank(b) && (first < b.start[0] || b.End() < first) &&
             (b.End() < last || last < b.start[0] || b.End() < first <= last)
    ensures Decide(b, first, last) == Skip
  {
    if First(b, first) >= 0 {
      SectorBounds(b, First(b, first));
    }
    if Last(b, last) >= 0 {
      SectorBounds(b, Last(b, last));
    }
  }

  /** A bank that starts at `first` and ends below `last` is planned whole. */
  lemma WholeBank(b: Bank, first: u32, last: u32)
    requires ValidBank(b) && b.start[0] == first && b.End() <= last
    ensures Decide(b, first, last) == Take(0, |b.start| - 1)
  {
    var f, l := First(b, first), Last(b, last);
    SectorOrder(b, 0, if f >= 0 then f else 0);
    SectorBounds(b, |b.start| - 1);
    if l >= 0 {
      SectorBounds(b, l);
      SectorOrder(b, l, |b.start| - 1);
    }
  }

  /** No bank is cut by `first`, and none ends at the top: nothing is refused. */
  lemma {:induction false} NeverRefused(banks: seq<Bank>, k: nat, first: u32)
    requires ValidBanks(banks) && Disjoint(banks) && k <= |banks|
    requires forall m :: k <= m < |banks| && banks[m].known ==>
               banks[m].End() != TOP && (first <= banks[m].start[0] || banks[m].End() < first)
    ensures Plan(banks, k, first, TOP).Some?
    decreases |banks| - k
  {
    if k < |banks| {
      PlanStep(banks, k, first, TOP);
      hide Plan, Decide, Next;
      var b, next := banks[k], NextAddress(banks[k], first, TOP);
      if b.known && b.start[0] == first {
        WholeBank(b, first, TOP);
        NextIs(b, |b.start| - 1);
        SectorBounds(b, |b.start| - 1);
        assert next == b.End() + 1;
        forall m | k < m < |banks| && banks[m].known
          ensures next <= banks[m].start[0] || banks[m].End() < next
        {
          assert Covers(banks, k) && Covers(banks, m);
        }
        NeverRefused(banks, k + 1, next);
      } else {
        if b.known {
          NothingHere(b, first, TOP);
        }
        NeverRefused(banks, k + 1, first);
      }
    } else {
      NoMore(banks, k, first, TOP);
    }
  }

  /** A sector outside the range stays planned when an earlier bank is put in front. */
  lemma Unshift(banks: seq<Bank>, k: nat, first: u32, last: u32, lo: u32)
    requires ValidBanks(banks) && k < |banks| && first <= last
    requires banks[k].known ==> !Decide(banks[k], first, last).Fail?
    requires !PlanWithin(banks, k + 1, NextAddress(banks[k], first, last), last, lo)
    ensures !PlanWithin(banks, k, first, last, lo)
  {
    PlanStep(banks, k, first, last);
    hide Plan, Decide, NextAddress, Within;
    var next := NextAddress(banks[k], first, last);
    var plan, rest := Plan(banks, k, first, last).value, Plan(banks, k + 1, next, last).value;
    var i: nat, s: nat :| i < |banks| - k - 1 && PlannedIn(rest, i, s)
      && !(banks[k + 1 + i].known && s < |banks[k + 1 + i].start| && Within(banks[k + 1 + i], s, lo, last));
    assert plan[i + 1] == rest[i];
    assert PlannedIn(plan, i + 1, s);
  }

  lemma {:induction false} Backwards(banks: seq<Bank>, k: nat, i: nat, first: u32, lo: u32)
    requires ValidBanks(banks) && k <= i <= |banks|
    requires forall m :: k <= m < i && banks[m].known ==>
               banks[m].End() != TOP && (first < banks[m].start[0] || banks[m].End() < first)
    requires !PlanWithin(banks, i, first, TOP, lo)
    ensures !PlanWithin(banks, k, first, TOP, lo)
    decreases i - k
  {
    if k < i {
      Backwards(banks, k + 1, i, first, lo);
      hide Plan, PlanWithin, Decide;
      if banks[k].known {
        NothingHere(banks[k], first, TOP);
      }
      Unshift(banks, k, first, TOP, lo);
    }
  }

  /** With such a layout, erasing the top bank also plans the bank at address 0. */
  lemma WrapPlansMore(banks: seq<Bank>, i: nat, j: nat)
    requires ValidBanks(banks) && Disjoint(banks) && i < j && Covers(banks, i) && Covers(banks, j)
    requires banks[i].End() == TOP && banks[j].start[0] == 0
    ensures !Sound(banks, banks[i].start[0], TOP)
  {
    var lo := banks[i].start[0];
    forall m | 0 <= m < |banks| && m != i && banks[m].known
      ensures banks[m].End() != TOP && (lo < banks[m].start[0] || banks[m].End() < lo)
    {
      assert Covers(banks, m);
      SectorBounds(banks[i], 0);
      SectorBounds(banks[m], 0);
    }
    BankAtZero(banks, j, lo);
    forall m | i < m < j && banks[m].known
      ensures 0 < banks[m].start[0]
    {
      assert Covers(banks, m);
    }
    hide Plan, PlanWithin, Decide, Next;
    Backwards(banks, i + 1, j, 0, lo);
    WholeBank(banks[i], lo, TOP);
    NextIs(banks[i], |banks[i].start| - 1);
    Unshift(banks, i, lo, TOP, lo);
    Backwards(banks, 0, i, lo, lo);
  }

  lemma BankAtZero(banks: seq<Bank>, j: nat, lo: u32)
    requires ValidBanks(banks) && Disjoint(banks) && Covers(banks, j) && banks[j].start[0] == 0 && lo > 0
    requires forall m :: j <= m < |banks| && banks[m].known ==> banks[m].End() != TOP
    ensures !PlanWithin(banks, j, 0, TOP, lo)
  {
    NeverRefused(banks, j, 0);
    WholeBank(banks[j], 0, TOP);
    PlanStep(banks, j, 0, TOP);
    hide Plan, Decide, Next;
    assert PlannedIn(Plan(banks, j, 0, TOP).value, 0, 0);
    assert banks[j + 0] == banks[j];
    assert !Within(banks[j], 0, lo, TOP);
  }

  /** For disjoint banks: no range ever plans a sector outside itself, exactly when no bank at address 0
      comes after a bank that ends at 0xFFFFFFFF. */
  lemma SoundIff(banks: seq<Bank>)
    requires ValidBanks(banks) && Disjoint(banks)
    ensures (forall first: u32, last: u32 :: Sound(banks, first, last)) <==> !WrapLayout(banks)
  {
    if WrapLayout(banks) {
      var i, j :| 0 <= i < j && Covers(banks, i) && Covers(banks, j) && banks[i].End() == TOP && banks[j].start[0] == 0;
      WrapPlansMore(banks, i, j);
    } else {
      forall first: u32, last: u32
        ensures Sound(banks, first, last)
      {
        PlanStaysWithin(banks, 0, first, last, first);
      }
    }
  }

  /** The failing family is not empty: 64 KiB at the top of the address space listed before 64 KiB at 0. */
  lemma ReversedBanks()
    ensures var banks := [Bank(true, [0xFFFF_0000], 0x1_0000), Bank(true, [0], 0x1_0000)];
      && ValidBanks(banks) && Disjoint(banks)
      && Plan(banks, 0, 0xFFFF_0000, 0xFFFF_FFFF) == Some([Some((0, 0)), Some((0, 0))])
  {
    var a, b := Bank(true, [0xFFFF_0000], 0x1_0000), Bank(true, [0], 0x1_0000);
    var banks := [a, b];
    WholeBank(a, 0xFFFF_0000, TOP);
    WholeBank(b, 0, TOP);
    NextIs(a, 0);
    NextIs(b, 0);
    assert a.SectorEnd(0) == TOP && b.SectorEnd(0) == 0xFFFF;
    PlanStep(banks, 0, 0xFFFF_0000, TOP);
    PlanStep(banks, 1, 0, TOP);
    hide Decide, Next;
    var one: seq<Range> := [Some((0, 0))];
    var two: seq<Range> := [Some((0, 0)), Some((0, 0))];
    assert Plan(banks, 2, 0x1_0000, TOP) == Some([]);
    assert one + [] == one && one + one == two;
    assert Plan(banks, 1, 0, TOP) == Some(one);
  }
}
