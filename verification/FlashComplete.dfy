/** Banks in any order and with gaps: a range that is planned without an error is erased completely exactly
    when a sector ends at its last address; with any other last address it may be erased in part. */
module FlashComplete {
  import opened CTypes
  import opened Flash
  import opened FlashRanges
  import opened FlashCover

  /** A sector of a known bank, from number `k` on, ends at `a`. */
  ghost predicate EndsSector(banks: seq<Bank>, k: nat, a: u32)
    requires ValidBanks(banks)
  {
    exists m: nat, s: nat :: k <= m && EndsIn(banks, m, s, a)
  }

  ghost predicate EndsIn(banks: seq<Bank>, m: nat, s: nat, a: u32) {
    m < |banks| && banks[m].known && s < |banks[m].start| && banks[m].SectorEnd(s) == a
  }

  /** The plan from bank `k` on has sector `s` of the `i`-th of these banks, which holds `a`. */
  ghost predicate PlannedAt(banks: seq<Bank>, k: nat, plan: seq<Range>, i: nat, s: nat, a: u32) {
    && PlannedIn(plan, i, s) && k + i < |banks| && banks[k + i].known
    && s < |banks[k + i].start| && banks[k + i].start[s] <= a <= banks[k + i].SectorEnd(s)
  }

  ghost predicate Reached(banks: seq<Bank>, k: nat, plan: seq<Range>, a: u32) {
    exists i: nat, s: nat :: PlannedAt(banks, k, plan, i, s, a)
  }

  /** Every address of the range lies in a planned sector. */
  ghost predicate Complete(banks: seq<Bank>, k: nat, first: u32, last: u32)
    requires ValidBanks(banks) && k <= |banks|
  {
    Plan(banks, k, first, last).Some? ==>
      forall a: u32 :: first <= a <= last ==> Reached(banks, k, Plan(banks, k, first, last).value, a)
  }

  lemma ReachedLater(banks: seq<Bank>, k: nat, first: u32, last: u32, a: u32)
    requires ValidBanks(banks) && k < |banks| && first <= last && Plan(banks, k, first, last).Some?
    requires var next := NextAddress(banks[k], first, last);
      Plan(banks, k + 1, next, last).Some? && Reached(banks, k + 1, Plan(banks, k + 1, next, last).value, a)
    ensures Reached(banks, k, Plan(banks, k, first, last).value, a)
  {
    Ahead(banks, k, first, last);
    hide Plan, NextAddress, PlannedIn;
    var rest := Plan(banks, k + 1, NextAddress(banks[k], first, last), last).value;
    var i: nat, s: nat :| PlannedAt(banks, k + 1, rest, i, s, a);
    assert k + 1 + i == k + (i + 1);
    assert PlannedAt(banks, k, Plan(banks, k, first, last).value, i + 1, s, a);
  }

  /** The sectors planned in one bank follow each other without a gap. */
  lemma ReachedHere(banks: seq<Bank>, k: nat, first: u32, last: u32, a: u32)
    requires ValidBanks(banks) && Covers(banks, k) && first <= last && Plan(banks, k, first, last).Some?
    requires Decide(banks[k], first, last).Take?
    requires first <= a <= banks[k].SectorEnd(Decide(banks[k], first, last).last)
    ensures Reached(banks, k, Plan(banks, k, first, last).value, a)
  {
    var b, d := banks[k], Decide(banks[k], first, last);
    TakeEnds(b, first, last);
    SectorBounds(b, d.first);
    SectorBounds(b, d.last);
    var s := SectorHolding(b, a);
    SectorOrder(b, if s < d.first then s else d.first, if s < d.first then d.first else s);
    SectorOrder(b, if s < d.last then s else d.last, if s < d.last then d.last else s);
    Ahead(banks, k, first, last);
    hide Plan, Decide, PlannedIn;
    assert PlannedAt(banks, k, Plan(banks, k, first, last).value, 0, s, a);
  }

  lemma TakeLast(b: Bank, first: u32, last: u32)
    requires ValidBank(b) && Decide(b, first, last).Take?
    ensures var z := b.SectorEnd(Decide(b, first, last).last);
      && z <= last
      && (z < last ==> Next(b, Decide(b, first, last).last) == z + 1 && Last(b, last) < 0)
  {
    TakeEnds(b, first, last);
    NextIs(b, Decide(b, first, last).last);
    if Last(b, last) >= 0 {
      hide First, Last;
    }
  }

  lemma EndsLater(banks: seq<Bank>, k: nat, last: u32)
    requires ValidBanks(banks) && k < |banks| && EndsSector(banks, k, last)
    requires banks[k].known ==> Last(banks[k], last) < 0
    ensures EndsSector(banks, k + 1, last)
  {
    var m: nat, s: nat :| k <= m && EndsIn(banks, m, s, last);
    assert m != k;
  }

  lemma {:induction false} EndCompletes(banks: seq<Bank>, k: nat, first: u32, last: u32)
    requires ValidBanks(banks) && k <= |banks| && first <= last && EndsSector(banks, k, last)
    ensures Complete(banks, k, first, last)
    decreases |banks| - k
  {
    hide Plan, EndsSector, Reached;
    if Plan(banks, k, first, last).Some? {
      SomeBank(banks, k, last);
      PlanStep(banks, k, first, last);
      var b, next := banks[k], NextAddress(banks[k], first, last);
      hide Decide, Last;
      if b.known && Decide(b, first, last).Take? {
        var z := b.SectorEnd(Decide(b, first, last).last);
        TakeLast(b, first, last);
        if z < last {
          EndsLater(banks, k, last);
          EndCompletes(banks, k + 1, next, last);
        }
        forall a: u32 | first <= a <= last
          ensures Reached(banks, k, Plan(banks, k, first, last).value, a)
        {
          if a <= z {
            ReachedHere(banks, k, first, last, a);
          } else {
            ReachedLater(banks, k, first, last, a);
          }
        }
      } else {
        SkippedEnd(banks, k, first, last);
        EndCompletes(banks, k + 1, first, last);
        forall a: u32 | first <= a <= last
          ensures Reached(banks, k, Plan(banks, k, first, last).value, a)
        {
          ReachedLater(banks, k, first, last, a);
        }
      }
    }
  }

  lemma SomeBank(banks: seq<Bank>, k: nat, last: u32)
    requires ValidBanks(banks) && EndsSector(banks, k, last)
    ensures k < |banks|
  {
  }

  /** A bank that is passed over holds no sector ending at `last`. */
  lemma SkippedEnd(banks: seq<Bank>, k: nat, first: u32, last: u32)
    requires ValidBanks(banks) && k < |banks| && EndsSector(banks, k, last)
    requires banks[k].known ==> Decide(banks[k], first, last).Skip?
    ensures EndsSector(banks, k + 1, last)
  {
    EndsLater(banks, k, last);
  }

  /** In every layout the planned sectors end at `last` or below it. */
  lemma {:induction false} PlannedBelow(banks: seq<Bank>, k: nat, first: u32, last: u32)
    requires ValidBanks(banks) && k <= |banks|
    ensures PlanWithin(banks, k, first, last, 0)
    decreases |banks| - k
  {
    if k < |banks| && first <= last {
      hide Plan, Decide, Next, PlanWithin;
      var b := banks[k];
      if b.known && Decide(b, first, last).Take? {
        TakeFacts(b, first, last, 0);
      }
      PlannedBelow(banks, k + 1, NextAddress(b, first, last), last);
      Shift(banks, k, first, last, 0);
    } else {
      NoMore(banks, k, first, last);
    }
  }

  /** For a range that is planned without an error, whatever the order of the banks and the gaps between
      them: every address of it lies in a planned sector, exactly when a sector ends at its last address. */
  lemma CompleteIff(banks: seq<Bank>, first: u32, last: u32)
    requires ValidBanks(banks) && first <= last && Plan(banks, 0, first, last).Some?
    ensures Complete(banks, 0, first, last) <==> EndsSector(banks, 0, last)
  {
    hide Plan, PlannedIn;
    if EndsSector(banks, 0, last) {
      EndCompletes(banks, 0, first, last);
    }
    if Complete(banks, 0, first, last) {
      PlannedBelow(banks, 0, first, last);
      var plan := Plan(banks, 0, first, last).value;
      assert Reached(banks, 0, plan, last);
      var i: nat, s: nat :| PlannedAt(banks, 0, plan, i, s, last);
      assert 0 + i == i && Within(banks[0 + i], s, 0, last);
      assert EndsIn(banks, i, s, last);
    }
  }

  lemma NotReached(banks: seq<Bank>, plan: seq<Range>, a: u32)
    requires ValidBanks(banks)
    requires forall m: nat, s: nat :: Covers(banks, m) && s < |banks[m].start| ==> !banks[m].Holds(s, a)
    ensures !Reached(banks, 0, plan, a)
  {
    forall i: nat, s: nat
      ensures !PlannedAt(banks, 0, plan, i, s, a)
    {
      assert 0 + i == i;
      assert Covers(banks, i) && s < |banks[i].start| ==> !banks[i].Holds(s, a);
    }
  }

  /** So a range whose last address ends a sector is refused as soon as some address of it is in no bank. */
  lemma GapRefused(banks: seq<Bank>, first: u32, last: u32, a: u32)
    requires ValidBanks(banks) && first <= a <= last && EndsSector(banks, 0, last)
    requires forall m: nat, s: nat :: Covers(banks, m) && s < |banks[m].start| ==> !banks[m].Holds(s, a)
    ensures Plan(banks, 0, first, last).None?
  {
    hide Plan, PlannedIn;
    if Plan(banks, 0, first, last).Some? {
      CompleteIff(banks, first, last);
      var plan := Plan(banks, 0, first, last).value;
      NotReached(banks, plan, a);
      assert false;
    }
  }

  /** And as soon as it runs into a bank that comes earlier in the list than the one it starts in. */
  lemma ReversedRefused(banks: seq<Bank>, i: nat, j: nat, first: u32, last: u32)
    requires ValidBanks(banks) && Disjoint(banks) && i < j && Covers(banks, i) && Covers(banks, j)
    requires banks[j].start[0] <= first <= banks[j].End() < banks[i].start[0] <= last <= banks[i].End()
    requires EndsSector(banks, 0, last)
    ensures Plan(banks, 0, first, last).None?
  {
    hide Plan;
    var m, s := EndBank(banks, i, last);
    NotStartedIn(banks[i], first, last, banks[j].start[0], banks[j].End());
    assert Last(banks[i], last) >= 0;
    hide Disjoint;
    RefusedAt(banks, 0, i, j, first, last);
  }

  /** A range that starts within a bank, but neither with a sector nor at the last address, is refused. */
  lemma CutStartRefused(banks: seq<Bank>, j: nat, first: u32, last: u32)
    requires ValidBanks(banks) && Disjoint(banks) && Covers(banks, j) && first <= last
    requires banks[j].start[0] <= first < banks[j].start[0] + banks[j].size - 1 && first !in banks[j].start
    ensures Plan(banks, 0, first, last).None?
  {
    hide Plan, Disjoint;
    SectorBounds(banks[j], 0);
    assert First(banks[j], first) < 0;
    RefusedAt(banks, 0, j, j, first, last);
  }

  /** A range that starts with a sector and ends within the same bank, but not with a sector, is refused. */
  lemma CutEndRefused(banks: seq<Bank>, j: nat, first: u32, last: u32)
    requires ValidBanks(banks) && Disjoint(banks) && Covers(banks, j) && first <= last
    requires first in banks[j].start && last < banks[j].start[0] + banks[j].size && !EndsSector(banks, 0, last)
    ensures Plan(banks, 0, first, last).None?
  {
    hide Plan, Disjoint;
    var b := banks[j];
    SectorBounds(b, 0);
    var s :| 0 <= s < |b.start| && b.start[s] == first;
    SectorBounds(b, s);
    assert First(b, first) >= 0;
    if Last(b, last) >= 0 {
      EndsHere(banks, j, last);
    }
    RefusedAt(banks, 0, j, j, first, last);
  }

  lemma EndsHere(banks: seq<Bank>, j: nat, last: u32)
    requires ValidBanks(banks) && Covers(banks, j) && Last(banks[j], last) >= 0
    ensures EndsSector(banks, 0, last)
  {
    assert EndsIn(banks, j, Last(banks[j], last), last);
  }

  /** The bank that holds `last` is the one in which a sector ends there. */
  lemma EndBank(banks: seq<Bank>, i: nat, last: u32) returns (m: nat, s: nat)
    requires ValidBanks(banks) && Disjoint(banks) && Covers(banks, i) && EndsSector(banks, 0, last)
    requires banks[i].start[0] <= last <= banks[i].End()
    ensures m == i && EndsIn(banks, m, s, last)
  {
    m, s :| 0 <= m && EndsIn(banks, m, s, last);
    SectorBounds(banks[m], s);
    assert Covers(banks, m);
  }

  /** Nothing starts at an address of bank `j` in the banks before it: they are passed over, or refuse it. */
  lemma {:induction false} RefusedAt(banks: seq<Bank>, k: nat, m: nat, j: nat, first: u32, last: u32)
    requires ValidBanks(banks) && Disjoint(banks) && k <= m <= j && Covers(banks, m) && Covers(banks, j)
    requires banks[j].start[0] <= first <= banks[j].End() && first <= last
    requires Decide(banks[m], first, last).Fail?
    ensures Plan(banks, k, first, last).None?
    decreases m - k
  {
    PlanStep(banks, k, first, last);
    hide Plan, Decide;
    if k < m {
      if banks[k].known {
        assert Covers(banks, k);
        NotStartedIn(banks[k], first, last, banks[j].start[0], banks[j].End());
      }
      RefusedAt(banks, k + 1, m, j, first, last);
    }
  }

  /** Nothing starts at `first` in a bank disjoint from the one that holds it. */
  lemma NotStartedIn(b: Bank, first: u32, last: u32, lo: u32, hi: u32)
    requires ValidBank(b) && lo <= first <= hi && (b.End() < lo || hi < b.start[0])
    ensures First(b, first) < 0 && !Decide(b, first, last).Take?
  {
    if First(b, first) >= 0 {
      SectorBounds(b, First(b, first));
    }
  }

  /** Without a sector end as its last address a range can be erased in part without an error: the gap behind
      the first bank ends the plan, because the second bank is passed over. */
  lemma GapErasedInPart()
    ensures var banks := [Bank(true, [0], 0x1000), Bank(true, [0x2000], 0x1000)];
      && ValidBanks(banks) && Disjoint(banks)
      && Plan(banks, 0, 0, 0x27FF) == Some([Some((0, 0)), None])
      && Plan(banks, 0, 0, 0x2FFF) == None
  {
    var a, b := Bank(true, [0], 0x1000), Bank(true, [0x2000], 0x1000);
    var banks := [a, b];
    WholeBank(a, 0, 0x27FF);
    WholeBank(a, 0, 0x2FFF);
    NextIs(a, 0);
    assert a.SectorEnd(0) == 0xFFF && b.SectorEnd(0) == 0x2FFF && b.End() == 0x2FFF;
    assert First(b, 0x1000) == -1 && Last(b, 0x27FF) == -1 && Last(b, 0x2FFF) == 0 by {
      assert StartIndex(b, 0, 0x1000) == -1 && EndIndex(b, 0, 0x27FF) == -1;
    }
    assert Decide(b, 0x1000, 0x27FF) == Skip && Decide(b, 0x1000, 0x2FFF) == Fail;
    hide Decide, Next;
    PlanStep(banks, 0, 0, 0x27FF);
    PlanStep(banks, 1, 0x1000, 0x27FF);
    PlanStep(banks, 0, 0, 0x2FFF);
    PlanStep(banks, 1, 0x1000, 0x2FFF);
    var none: seq<Range> := [None];
    assert Plan(banks, 2, 0x1000, 0x27FF) == Some([]);
    assert none + [] == none;
    assert [Some((0, 0))] + none == [Some((0, 0)), None];
  }
}
