/** On contiguous ascending banks the plan of cmd_flash.c covers a range in flash exactly, and is refused
    or empty exactly when the range cuts a sector; rounding makes every "+length" range end with a sector. */
module FlashCover {
  import opened CTypes
  import opened Flash
  import opened FlashRanges

  /** Known banks follow each other without gaps; unknown ones may lie between. */
  ghost predicate Contiguous(banks: seq<Bank>)
    requires ValidBanks(banks)
  {
    forall i, j :: 0 <= i < j && Covers(banks, i) && Covers(banks, j) ==>
      && banks[i].End() < banks[j].start[0]
      && (NoneBetween(banks, i, j) ==> banks[j].start[0] == banks[i].End() + 1)
  }

  ghost predicate NoneBetween(banks: seq<Bank>, i: int, j: nat)
    requires ValidBanks(banks)
  {
    forall m: nat :: i < m < j ==> !Covers(banks, m)
  }

  /** The range and the sector have an address in common. */
  ghost predicate Meets(b: Bank, s: nat, first: u32, last: u32)
    requires s < |b.start|
  {
    b.start[s] <= last && first <= b.SectorEnd(s)
  }

  /** The known bank that comes next starts at or below `first`, and the range ends in or below bank `j`. */
  ghost predicate InFlash(banks: seq<Bank>, k: nat, i: nat, j: nat, first: u32, last: u32)
    requires ValidBanks(banks)
  {
    && k <= i <= j && Covers(banks, i) && Covers(banks, j) && NoneBetween(banks, k - 1, i)
    && banks[i].start[0] <= first <= last <= banks[j].End()
  }

  /** In bank `b` the sectors of the plan are those that meet the range, and they lie within it. */
  ghost predicate ExactIn(b: Bank, plan: seq<Range>, i: nat, first: u32, last: u32) {
    forall s: nat :: s < |b.start| ==>
      && (PlannedIn(plan, i, s) <==> Within(b, s, first, last))
      && (Meets(b, s, first, last) <==> Within(b, s, first, last))
  }

  ghost predicate Exact(banks: seq<Bank>, k: nat, first: u32, last: u32)
    requires ValidBanks(banks) && k <= |banks|
  {
    Plan(banks, k, first, last).Some? ==>
      forall m: nat :: k <= m && Covers(banks, m) ==>
          ExactIn(banks[m], Plan(banks, k, first, last).value, m - k, first, last)
  }

  ghost predicate PlansSome(banks: seq<Bank>, k: nat, first: u32, last: u32)
    requires ValidBanks(banks) && k <= |banks|
  {
    Plan(banks, k, first, last).Some? ==> exists i: nat, s: nat :: PlannedIn(Plan(banks, k, first, last).value, i, s)
  }

  lemma {:induction false} NoneKnown(banks: seq<Bank>, k: nat, first: u32, last: u32)
    requires ValidBanks(banks) && k <= |banks|
    requires forall m :: k <= m < |banks| ==> !banks[m].known
    ensures Plan(banks, k, first, last) == Some(Nones(|banks| - k))
    decreases |banks| - k
  {
    if k < |banks| && first <= last {
      NoneKnown(banks, k + 1, first, last);
      PlanStep(banks, k, first, last);
      assert [None] + Nones(|banks| - k - 1) == Nones(|banks| - k);
    } else {
      NoMore(banks, k, first, last);
    }
  }

  /** Nothing is planned in banks that all start behind `first`. */
  lemma {:induction false} NothingBehind(banks: seq<Bank>, k: nat, first: u32, last: u32)
    requires ValidBanks(banks) && k <= |banks|
    requires forall m :: k <= m < |banks| && banks[m].known ==> first < banks[m].start[0]
    ensures Plan(banks, k, first, last).Some? ==>
            forall i: nat, s: nat :: !PlannedIn(Plan(banks, k, first, last).value, i, s)
    decreases |banks| - k
  {
    if k < |banks| && first <= last {
      PlanStep(banks, k, first, last);
      NothingBehind(banks, k + 1, first, last);
      if banks[k].known {
        NotBelow(banks[k], first, last);
      }
      hide Plan, Decide;
      if Plan(banks, k, first, last).Some? {
        Ahead(banks, k, first, last);
      }
    } else {
      NoMore(banks, k, first, last);
    }
  }

  lemma NotBelow(b: Bank, first: u32, last: u32)
    requires ValidBank(b) && first < b.start[0]
    ensures !Decide(b, first, last).Take?
  {
    if Decide(b, first, last).Take? {
      TakeEnds(b, first, last);
      SectorOrder(b, 0, Decide(b, first, last).first);
    }
  }

  /** How the plan from bank `k` is made of its own part and the plan from `k + 1`. */
  lemma Ahead(banks: seq<Bank>, k: nat, first: u32, last: u32)
    requires ValidBanks(banks) && k < |banks| && first <= last
    requires Plan(banks, k, first, last).Some?
    ensures var x, next := Here(banks[k], first, last), NextAddress(banks[k], first, last);
      && Plan(banks, k + 1, next, last).Some?
      && (forall s: nat :: PlannedIn(Plan(banks, k, first, last).value, 0, s) <==>
          x.Some? && x.value.0 <= s <= x.value.1)
      && forall i: nat, s: nat :: i > 0 ==>
           (PlannedIn(Plan(banks, k, first, last).value, i, s) <==>
               PlannedIn(Plan(banks, k + 1, next, last).value, i - 1, s))
  {
    PlanStep(banks, k, first, last);
    hide Plan, Decide, Next;
    var x, next := Here(banks[k], first, last), NextAddress(banks[k], first, last);
    var plan, rest := Plan(banks, k, first, last).value, Plan(banks, k + 1, next, last).value;
    assert plan == [x] + rest;
    assert forall i: nat :: 0 < i < |plan| ==> plan[i] == rest[i - 1];
  }

  // ----- exactness -----

  lemma NextInFlash(banks: seq<Bank>, k: nat, j: nat, first: u32, last: u32) returns (i: nat)
    requires ValidBanks(banks) && Contiguous(banks) && k < j && Covers(banks, k) && Covers(banks, j)
    requires banks[k].End() < first <= last <= banks[j].End()
    ensures InFlash(banks, k + 1, i, j, first, last) && banks[i].start[0] == banks[k].End() + 1
  {
    i := FirstKnown(banks, k + 1, j);
    assert NoneBetween(banks, k, i);
  }

  lemma FirstKnown(banks: seq<Bank>, k: nat, j: nat) returns (i: nat)
    requires ValidBanks(banks) && k <= j && Covers(banks, j)
    ensures k <= i <= j && Covers(banks, i) && NoneBetween(banks, k - 1, i)
  {
    i := k;
    while !Covers(banks, i)
      invariant k <= i <= j && NoneBetween(banks, k - 1, i)
      decreases j - i
    {
      i := i + 1;
    }
  }

  /** The sector that holds an address of the bank. */
  lemma SectorHolding(b: Bank, a: u32) returns (s: nat)
    requires ValidBank(b) && b.start[0] <= a <= b.End()
    ensures s < |b.start| && b.Holds(s, a)
  {
    s := 0;
    SectorBounds(b, 0);
    while b.SectorEnd(s) < a
      invariant s < |b.start| && b.start[s] <= a
      invariant b.SectorEnd(s) <= b.End()
      decreases |b.start| - s
    {
      SectorBounds(b, s);
      s := s + 1;
      SectorBounds(b, s);
    }
  }

  /** In a bank whose planned sectors start at `first`, they are exactly those that meet the range. */
  lemma TakeIsExact(b: Bank, plan: seq<Range>, first: u32, last: u32)
    requires ValidBank(b) && first <= last && Decide(b, first, last).Take?
    requires plan != [] && plan[0] == Some((Decide(b, first, last).first, Decide(b, first, last).last))
    ensures ExactIn(b, plan, 0, first, last)
  {
    TakeEnds(b, first, last);
    var d := Decide(b, first, last);
    hide Decide;
    SectorBounds(b, d.last);
    forall s: nat | s < |b.start|
      ensures d.first <= s <= d.last <==> Within(b, s, first, last)
      ensures Meets(b, s, first, last) <==> Within(b, s, first, last)
    {
      SectorBounds(b, s);
      SectorOrder(b, if s < d.first then s else d.first, if s < d.first then d.first else s);
      SectorOrder(b, if s < d.last then s else d.last, if s < d.last then d.last else s);
    }
  }

  /** Banks behind the end of the range hold nothing of it. */
  lemma BehindIsExact(b: Bank, plan: seq<Range>, i: nat, first: u32, last: u32)
    requires ValidBank(b) && last < b.start[0] && forall s: nat :: !PlannedIn(plan, i, s)
    ensures ExactIn(b, plan, i, first, last)
  {
    forall s: nat | s < |b.start|
      ensures !Within(b, s, first, last) && !Meets(b, s, first, last)
    {
      SectorBounds(b, s);
    }
  }

  /** Banks before the start of the range hold nothing of it. */
  lemma BeforeIsExact(b: Bank, plan: seq<Range>, i: nat, first: u32, last: u32)
    requires ValidBank(b) && b.End() < first && forall s: nat :: !PlannedIn(plan, i, s)
    ensures ExactIn(b, plan, i, first, last)
  {
    forall s: nat | s < |b.start|
      ensures !Within(b, s, first, last) && !Meets(b, s, first, last)
    {
      SectorBounds(b, s);
    }
  }

  /** Moving the start of the range up to where a bank begins changes nothing in that bank. */
  lemma LaterStart(b: Bank, plan: seq<Range>, rest: seq<Range>, i: nat, first: u32, next: u32, last: u32)
    requires ValidBank(b) && first <= next <= b.start[0]
    requires i > 0 && forall s: nat :: PlannedIn(plan, i, s) <==> PlannedIn(rest, i - 1, s)
    requires ExactIn(b, rest, i - 1, next, last)
    ensures ExactIn(b, plan, i, first, last)
  {
    forall s: nat | s < |b.start|
      ensures Within(b, s, first, last) <==> Within(b, s, next, last)
      ensures Meets(b, s, first, last) <==> Meets(b, s, next, last)
    {
      SectorBounds(b, s);
    }
  }

  /** The plan from a bank that holds the start of the range. */
  lemma FromBankExact(banks: seq<Bank>, k: nat, j: nat, first: u32, last: u32)
    requires ValidBanks(banks) && Contiguous(banks) && InFlash(banks, k, k, j, first, last)
    requires Decide(banks[k], first, last).Take?
    ensures Exact(banks, k, first, last)
    decreases |banks| - k, 0
  {
    hide Plan, Decide, Next;
    if Plan(banks, k, first, last).Some? {
      var b, next := banks[k], NextAddress(banks[k], first, last);
      var plan := Plan(banks, k, first, last).value;
      Ahead(banks, k, first, last);
      PlanStep(banks, k, first, last);
      TakeIsExact(b, plan, first, last);
      hide Exact;
      if b.End() < last {
        NextOfWhole(b, first, last);
        hide NextAddress;
        var i := NextInFlash(banks, k, j, next, last);
        ContinueExact(banks, k + 1, i, j, next, last);
        JoinExact(banks, k, first, next, last, plan);
      } else {
        NextBehind(b, first, last);
        NothingAfter(banks, k, next, last);
        hide NextAddress;
        EndExact(banks, k, first, next, last, plan);
      }
    }
  }

  lemma JoinExact(banks: seq<Bank>, k: nat, first: u32, next: u32, last: u32, plan: seq<Range>)
    requires ValidBanks(banks) && Contiguous(banks) && Covers(banks, k) && Plan(banks, k, first, last) == Some(plan)
    requires ExactIn(banks[k], plan, 0, first, last) && first <= next == banks[k].End() + 1
    requires Plan(banks, k + 1, next, last).Some? && Exact(banks, k + 1, next, last)
    requires forall i: nat, s: nat :: i > 0 ==>
               (PlannedIn(plan, i, s) <==> PlannedIn(Plan(banks, k + 1, next, last).value, i - 1, s))
    ensures Exact(banks, k, first, last)
  {
    hide Plan, ExactIn, PlannedIn;
    var rest := Plan(banks, k + 1, next, last).value;
    forall m: nat | k <= m && Covers(banks, m)
      ensures ExactIn(banks[m], plan, m - k, first, last)
    {
      if m > k {
        assert ExactIn(banks[m], rest, m - (k + 1), next, last);
        LaterStart(banks[m], plan, rest, m - k, first, next, last);
      }
    }
  }

  lemma EndExact(banks: seq<Bank>, k: nat, first: u32, next: u32, last: u32, plan: seq<Range>)
    requires ValidBanks(banks) && Contiguous(banks) && Covers(banks, k) && Plan(banks, k, first, last) == Some(plan)
    requires ExactIn(banks[k], plan, 0, first, last) && last <= banks[k].End()
    requires Plan(banks, k + 1, next, last) == Some(Nones(|banks| - k - 1))
    requires forall i: nat, s: nat :: i > 0 ==>
               (PlannedIn(plan, i, s) <==> PlannedIn(Plan(banks, k + 1, next, last).value, i - 1, s))
    ensures Exact(banks, k, first, last)
  {
    hide Plan, ExactIn;
    forall m: nat | k <= m && Covers(banks, m)
      ensures ExactIn(banks[m], plan, m - k, first, last)
    {
      if m > k {
        var i: nat, none := m - k - 1, Nones(|banks| - k - 1);
        assert forall s: nat :: !PlannedIn(none, i, s);
        BehindIsExact(banks[m], plan, m - k, first, last);
      }
    }
  }

  /** Once the range ends in bank `k`, nothing is planned behind it. */
  lemma NothingAfter(banks: seq<Bank>, k: nat, next: u32, last: u32)
    requires ValidBanks(banks) && Contiguous(banks) && Covers(banks, k) && last <= banks[k].End()
    requires next > last || banks[k].End() == TOP
    ensures Plan(banks, k + 1, next, last) == Some(Nones(|banks| - k - 1))
  {
    if next > last {
      NoMore(banks, k + 1, next, last);
    } else {
      forall m | k < m < |banks|
        ensures !banks[m].known
      {
        assert !Covers(banks, m);
      }
      NoneKnown(banks, k + 1, next, last);
    }
  }

  /** The plan when the next known bank starts exactly at `first`. */
  lemma {:induction false} ContinueExact(banks: seq<Bank>, k: nat, i: nat, j: nat, first: u32, last: u32)
    requires ValidBanks(banks) && Contiguous(banks) && InFlash(banks, k, i, j, first, last) &&
             banks[i].start[0] == first
    ensures Exact(banks, k, first, last)
    decreases |banks| - k, 1
  {
    if k < i {
      assert !Covers(banks, k);
      assert NoneBetween(banks, k, i);
      ContinueExact(banks, k + 1, i, j, first, last);
      SkipExact(banks, k, first, last);
    } else if Plan(banks, k, first, last).Some? {
      PlanStep(banks, k, first, last);
      StartsHere(banks[k], first, last);
      FromBankExact(banks, k, j, first, last);
    }
  }

  lemma StartsHere(b: Bank, first: u32, last: u32)
    requires ValidBank(b) && b.start[0] <= first && First(b, first) >= 0
    ensures Decide(b, first, last).Fail? || Decide(b, first, last).Take?
  {
  }

  /** A bank that holds no part of the range and has no sectors planned. */
  lemma SkipExact(banks: seq<Bank>, k: nat, first: u32, last: u32)
    requires ValidBanks(banks) && k < |banks| && first <= last && Here(banks[k], first, last) == None
    requires NextAddress(banks[k], first, last) == first && Exact(banks, k + 1, first, last)
    requires banks[k].known ==> banks[k].End() < first
    ensures Exact(banks, k, first, last)
  {
    if Plan(banks, k, first, last).Some? {
      Ahead(banks, k, first, last);
      hide Plan, Here, NextAddress;
      var plan, rest := Plan(banks, k, first, last).value, Plan(banks, k + 1, first, last).value;
      forall m: nat | k <= m && Covers(banks, m)
        ensures ExactIn(banks[m], plan, m - k, first, last)
      {
        if m == k {
          BeforeIsExact(banks[m], plan, 0, first, last);
        } else {
          SamePlanned(banks[m], plan, rest, m - k, first, last);
        }
      }
    }
  }

  lemma SamePlanned(b: Bank, plan: seq<Range>, rest: seq<Range>, i: nat, first: u32, last: u32)
    requires i > 0 && forall s: nat :: PlannedIn(plan, i, s) <==> PlannedIn(rest, i - 1, s)
    requires ExactIn(b, rest, i - 1, first, last)
    ensures ExactIn(b, plan, i, first, last)
  {
    hide PlannedIn, Within, Meets;
  }

  /** A bank that holds the start of the range but is not planned: then nothing else is. */
  lemma NoOtherStart(banks: seq<Bank>, k: nat, first: u32, last: u32)
    requires ValidBanks(banks) && Contiguous(banks) && Covers(banks, k) && banks[k].start[0] <= first <= banks[k].End()
    requires first <= last && Plan(banks, k, first, last).Some? && !Decide(banks[k], first, last).Take?
    ensures !PlansSome(banks, k, first, last)
  {
    Ahead(banks, k, first, last);
    forall m | k < m < |banks| && banks[m].known
      ensures first < banks[m].start[0]
    {
      assert Covers(banks, m);
    }
    NothingBehind(banks, k + 1, first, last);
    hide Plan, Decide;
    assert forall i: nat, s: nat :: !PlannedIn(Plan(banks, k, first, last).value, i, s);
  }

  lemma {:induction false} PlanIsExact(banks: seq<Bank>, k: nat, i: nat, j: nat, first: u32, last: u32)
    requires ValidBanks(banks) && Contiguous(banks) && InFlash(banks, k, i, j, first, last)
    requires Plan(banks, k, first, last).Some? && PlansSome(banks, k, first, last)
    ensures Exact(banks, k, first, last)
    decreases |banks| - k
  {
    Ahead(banks, k, first, last);
    if k < i {
      assert !Covers(banks, k);
      assert NoneBetween(banks, k, i);
      hide Plan, Exact;
      SomeAhead(banks, k, first, last);
      PlanIsExact(banks, k + 1, i, j, first, last);
      SkipExact(banks, k, first, last);
    } else if banks[k].End() < first {
      NothingHere(banks[k], first, last);
      var n := NextInFlash(banks, k, j, first, last);
      hide Plan, Exact, Decide;
      SomeAhead(banks, k, first, last);
      PlanIsExact(banks, k + 1, n, j, first, last);
      SkipExact(banks, k, first, last);
    } else if Decide(banks[k], first, last).Take? {
      FromBankExact(banks, k, j, first, last);
    } else {
      NoOtherStart(banks, k, first, last);
    }
  }

  lemma SomeAhead(banks: seq<Bank>, k: nat, first: u32, last: u32)
    requires ValidBanks(banks) && k < |banks| && first <= last && Plan(banks, k, first, last).Some?
    requires Here(banks[k], first, last) == None && NextAddress(banks[k], first, last) == first
    requires PlansSome(banks, k, first, last)
    ensures PlansSome(banks, k + 1, first, last)
  {
    Ahead(banks, k, first, last);
    hide Plan, Here, NextAddress;
    var i: nat, s: nat :| PlannedIn(Plan(banks, k, first, last).value, i, s);
    assert PlannedIn(Plan(banks, k + 1, first, last).value, i - 1, s);
  }

  // ----- which ranges are accepted -----

  /** The range cuts no sector of the banks from `k` on. */
  ghost predicate Uncut(banks: seq<Bank>, k: nat, first: u32, last: u32)
    requires ValidBanks(banks)
  {
    forall m: nat :: k <= m && Covers(banks, m) ==> UncutIn(banks[m], first, last)
  }

  ghost predicate UncutIn(b: Bank, first: u32, last: u32) {
    forall s: nat :: s < |b.start| ==> Meets(b, s, first, last) ==> Within(b, s, first, last)
  }

  lemma UncutTakes(b: Bank, first: u32, last: u32)
    requires ValidBank(b) && b.start[0] <= first <= b.End() && first <= last && UncutIn(b, first, last)
    ensures Decide(b, first, last).Take?
  {
    var f, l := First(b, first), Last(b, last);
    var s := SectorHolding(b, first);
    assert Within(b, s, first, last);
    assert b.start[s] == first;
    if last <= b.End() {
      var z := SectorHolding(b, last);
      SectorBounds(b, z);
      assert Meets(b, z, first, last);
      assert b.SectorEnd(z) == last;
      if l < f {
        SectorOrder(b, l, f);
      }
    } else if l >= 0 {
      SectorBounds(b, l);
    }
  }

  lemma UncutLater(banks: seq<Bank>, k: nat, first: u32, last: u32)
    requires ValidBanks(banks) && Contiguous(banks) && Covers(banks, k) && Uncut(banks, k, first, last)
    requires first <= banks[k].End() < last
    ensures Uncut(banks, k + 1, (banks[k].End() as int + 1) as u32, last)
  {
    var next: u32 := (banks[k].End() as int + 1) as u32;
    forall m: nat, s: nat | k < m && Covers(banks, m) && s < |banks[m].start| && Meets(banks[m], s, next, last)
      ensures Within(banks[m], s, next, last)
    {
      SectorBounds(banks[m], s);
      assert Meets(banks[m], s, first, last);
      assert UncutIn(banks[m], first, last);
    }
  }

  lemma {:induction false} UncutRuns(banks: seq<Bank>, k: nat, i: nat, j: nat, first: u32, last: u32)
    requires ValidBanks(banks) && Contiguous(banks) && InFlash(banks, k, i, j, first, last) &&
             Uncut(banks, k, first, last)
    ensures Plan(banks, k, first, last).Some? && PlansSome(banks, k, first, last)
    decreases |banks| - k, 1
  {
    hide Plan, Decide, Next, PlansSome;
    var b := banks[k];
    if k < i {
      PlanStep(banks, k, first, last);
      assert !Covers(banks, k);
      assert NoneBetween(banks, k, i);
      UncutRuns(banks, k + 1, i, j, first, last);
      SomeBefore(banks, k, first, last);
    } else if b.End() < first {
      PlanStep(banks, k, first, last);
      NothingHere(b, first, last);
      var n := NextInFlash(banks, k, j, first, last);
      UncutRuns(banks, k + 1, n, j, first, last);
      SomeBefore(banks, k, first, last);
    } else {
      UncutFrom(banks, k, j, first, last);
    }
  }

  lemma UncutFrom(banks: seq<Bank>, k: nat, j: nat, first: u32, last: u32)
    requires ValidBanks(banks) && Contiguous(banks) && InFlash(banks, k, k, j, first, last) &&
             Uncut(banks, k, first, last)
    requires first <= banks[k].End()
    ensures Plan(banks, k, first, last).Some? && PlansSome(banks, k, first, last)
    decreases |banks| - k, 0
  {
    hide Plan, Decide, Next, PlansSome, Contiguous, Uncut, UncutIn, NoneBetween;
    var b, next := banks[k], NextAddress(banks[k], first, last);
    UncutAt(banks, k, first, last);
    UncutTakes(b, first, last);
    if b.End() < last {
      NextOfWhole(b, first, last);
      UncutLater(banks, k, first, last);
      var n := NextInFlash(banks, k, j, next, last);
      hide NextAddress, InFlash;
      UncutRuns(banks, k + 1, n, j, next, last);
    } else {
      NextBehind(b, first, last);
      hide NextAddress;
      NothingAfter(banks, k, next, last);
    }
    StepHere(banks, k, first, last);
  }

  lemma UncutAt(banks: seq<Bank>, k: nat, first: u32, last: u32)
    requires ValidBanks(banks) && Covers(banks, k) && Uncut(banks, k, first, last)
    ensures UncutIn(banks[k], first, last)
  {
  }

  lemma StepHere(banks: seq<Bank>, k: nat, first: u32, last: u32)
    requires ValidBanks(banks) && Covers(banks, k) && first <= last && Decide(banks[k], first, last).Take?
    requires Plan(banks, k + 1, NextAddress(banks[k], first, last), last).Some?
    ensures Plan(banks, k, first, last).Some? && PlansSome(banks, k, first, last)
  {
    PlanStep(banks, k, first, last);
    hide Plan, Decide, PlansSome;
    SomeHere(banks, k, first, last);
  }

  lemma SomeHere(banks: seq<Bank>, k: nat, first: u32, last: u32)
    requires ValidBanks(banks) && k < |banks| && first <= last && Plan(banks, k, first, last).Some?
    requires banks[k].known && Decide(banks[k], first, last).Take?
    ensures PlansSome(banks, k, first, last)
  {
    Ahead(banks, k, first, last);
    hide Plan, Decide, Next;
    assert PlannedIn(Plan(banks, k, first, last).value, 0, Decide(banks[k], first, last).first);
  }

  lemma NextOfWhole(b: Bank, first: u32, last: u32)
    requires ValidBank(b) && b.known && Decide(b, first, last).Take? && b.End() < last
    ensures first <= b.End() && NextAddress(b, first, last) == b.End() + 1
  {
    TakeEnds(b, first, last);
    SectorBounds(b, Decide(b, first, last).first);
    SectorBounds(b, Decide(b, first, last).last);
    NextIs(b, Decide(b, first, last).last);
    hide Next, Decide;
  }

  lemma NextBehind(b: Bank, first: u32, last: u32)
    requires ValidBank(b) && b.known && Decide(b, first, last).Take? && last <= b.End()
    ensures NextAddress(b, first, last) > last || b.End() == TOP
  {
    TakeEnds(b, first, last);
    SectorBounds(b, Decide(b, first, last).last);
    NextIs(b, Decide(b, first, last).last);
    hide Next, Decide;
  }

  lemma SomeBefore(banks: seq<Bank>, k: nat, first: u32, last: u32)
    requires ValidBanks(banks) && k < |banks| && first <= last && Plan(banks, k, first, last).Some?
    requires NextAddress(banks[k], first, last) == first && PlansSome(banks, k + 1, first, last)
    ensures PlansSome(banks, k, first, last)
  {
    Ahead(banks, k, first, last);
    hide Plan, Here, NextAddress;
    var i: nat, s: nat :| PlannedIn(Plan(banks, k + 1, first, last).value, i, s);
    assert PlannedIn(Plan(banks, k, first, last).value, i + 1, s);
  }

  // ----- the count -----

  ghost function PlannedSet(plan: seq<Range>): set<(nat, nat)> {
    set k: nat, s: nat | k < |plan| && plan[k].Some? && s <= plan[k].value.1 && PlannedIn(plan, k, s) :: (k, s)
  }

  ghost function Column(k: nat, f: nat, l: nat): set<(nat, nat)> {
    set s: nat | f <= s <= l :: (k, s)
  }

  lemma {:induction false} ColumnSize(k: nat, f: nat, l: nat)
    requires f <= l
    ensures |Column(k, f, l)| == l - f + 1
    decreases l - f
  {
    if f < l {
      ColumnSize(k, f, l - 1);
      assert Column(k, f, l) == Column(k, f, l - 1) + {(k, l)};
    } else {
      assert Column(k, f, l) == {(k, l)};
    }
  }

  ghost predicate Ordered(plan: seq<Range>) {
    forall k :: 0 <= k < |plan| && plan[k].Some? ==> plan[k].value.0 <= plan[k].value.1
  }

  lemma {:induction false} PlanOrdered(banks: seq<Bank>, k: nat, first: u32, last: u32)
    requires ValidBanks(banks) && k <= |banks|
    ensures Plan(banks, k, first, last).Some? ==> Ordered(Plan(banks, k, first, last).value)
    decreases |banks| - k
  {
    if k < |banks| && first <= last {
      PlanStep(banks, k, first, last);
      PlanOrdered(banks, k + 1, NextAddress(banks[k], first, last), last);
      hide Plan, Decide, Next;
      if Plan(banks, k, first, last).Some? {
        var rest := Plan(banks, k + 1, NextAddress(banks[k], first, last), last).value;
        assert forall i :: 0 < i < |rest| + 1 ==> Plan(banks, k, first, last).value[i] == rest[i - 1];
      }
    } else {
      NoMore(banks, k, first, last);
    }
  }

  lemma PlannedMember(plan: seq<Range>, k: nat, s: nat)
    ensures (k, s) in PlannedSet(plan) <==> PlannedIn(plan, k, s)
  {
  }

  lemma PlannedBank(plan: seq<Range>, n: nat)
    requires n < |plan|
    ensures PlannedSet(plan[..n + 1])
            == PlannedSet(plan[..n]) + match plan[n] case None => {} case Some((f, l)) => Column(n, f, l)
  {
    var more := match plan[n] case None => {} case Some((f, l)) => Column(n, f, l);
    forall k: nat, s: nat
      ensures (k, s) in PlannedSet(plan[..n + 1]) <==> (k, s) in PlannedSet(plan[..n]) + more
    {
      PlannedMember(plan[..n + 1], k, s);
      PlannedMember(plan[..n], k, s);
    }
  }

  /** The count is the number of planned sectors. */
  lemma {:induction false} CountIsSize(plan: seq<Range>)
    requires Ordered(plan)
    ensures Count(plan) == |PlannedSet(plan)|
  {
    if plan == [] {
      assert PlannedSet(plan) == {};
    } else {
      var n := |plan| - 1;
      CountIsSize(plan[..n]);
      PlannedBank(plan, n);
      assert plan[..n + 1] == plan;
      PlannedBefore(plan, n);
      hide PlannedSet;
      if plan[n].Some? {
        var (f, l) := plan[n].value;
        ColumnSize(n, f, l);
        assert forall x :: x in Column(n, f, l) ==> x.0 == n;
        assert PlannedSet(plan[..n]) !! Column(n, f, l);
      }
    }
  }

  lemma PlannedBefore(plan: seq<Range>, n: nat)
    requires n <= |plan|
    ensures forall x :: x in PlannedSet(plan[..n]) ==> x.0 < n
  {
  }

  lemma PlannedIsPositive(banks: seq<Bank>, first: u32, last: u32)
    requires ValidBanks(banks) && Plan(banks, 0, first, last).Some?
    ensures var plan := Plan(banks, 0, first, last).value;
      Count(plan) == |PlannedSet(plan)| && (Count(plan) > 0 <==> PlansSome(banks, 0, first, last))
  {
    PlanOrdered(banks, 0, first, last);
    hide Plan;
    var plan := Plan(banks, 0, first, last).value;
    CountIsSize(plan);
    if PlansSome(banks, 0, first, last) {
      var i: nat, s: nat :| PlannedIn(plan, i, s);
      assert (i, s) in PlannedSet(plan);
    } else {
      assert PlannedSet(plan) == {};
    }
  }

  // ----- the main result -----

  /** The sectors of known banks that lie within the range. */
  ghost function SectorsWithin(banks: seq<Bank>, first: u32, last: u32): set<(nat, nat)>
    requires ValidBanks(banks)
  {
    set k: nat, s: nat | k < |banks| && banks[k].known && s < |banks[k].start| && Within(banks[k], s, first, last) ::
        (k, s)
  }

  /** For a range in contiguous flash: something is planned, and no error reported, exactly when the range
      cuts no sector; then the planned sectors are exactly those in the range, and the count is their number. */
  lemma CoverIff(banks: seq<Bank>, i: nat, j: nat, first: u32, last: u32)
    requires ValidBanks(banks) && Contiguous(banks) && InFlash(banks, 0, i, j, first, last)
    ensures (Plan(banks, 0, first, last).Some? && Count(Plan(banks, 0, first, last).value) > 0) <==>
            Uncut(banks, 0, first, last)
    ensures Uncut(banks, 0, first, last) ==>
              var plan := Plan(banks, 0, first, last).value;
              PlannedSet(plan) == SectorsWithin(banks, first, last)
              && Count(plan) == |SectorsWithin(banks, first, last)|
  {
    if Uncut(banks, 0, first, last) {
      UncutRuns(banks, 0, i, j, first, last);
    }
    if Plan(banks, 0, first, last).Some? {
      PlannedIsPositive(banks, first, last);
      hide Plan, InFlash;
      if PlansSome(banks, 0, first, last) {
        PlanIsExact(banks, 0, i, j, first, last);
        ExactSet(banks, first, last);
      }
    }
  }

  lemma ExactSet(banks: seq<Bank>, first: u32, last: u32)
    requires ValidBanks(banks) && Plan(banks, 0, first, last).Some? && Exact(banks, 0, first, last)
    ensures PlannedSet(Plan(banks, 0, first, last).value) == SectorsWithin(banks, first, last)
    ensures Uncut(banks, 0, first, last)
  {
    PlannedExist(banks, 0, first, last);
    hide Plan, Within, Meets, PlannedIn;
    var plan := Plan(banks, 0, first, last).value;
    forall m: nat | Covers(banks, m)
      ensures ExactIn(banks[m], plan, m, first, last)
    {
      assert m - 0 == m;
    }
    forall k: nat, s: nat
      ensures (k, s) in PlannedSet(plan) <==> (k, s) in SectorsWithin(banks, first, last)
    {
      PlannedMember(plan, k, s);
      assert k < |banks| && banks[k].known ==> Covers(banks, k);
    }
  }

  /** Only sectors of known banks are planned. */
  lemma {:induction false} PlannedExist(banks: seq<Bank>, k: nat, first: u32, last: u32)
    requires ValidBanks(banks) && k <= |banks| && Plan(banks, k, first, last).Some?
    ensures forall i: nat, s: nat :: PlannedIn(Plan(banks, k, first, last).value, i, s) ==>
              Covers(banks, k + i) && s < |banks[k + i].start|
    decreases |banks| - k
  {
    if k < |banks| && first <= last {
      Ahead(banks, k, first, last);
      PlannedExist(banks, k + 1, NextAddress(banks[k], first, last), last);
      hide Plan, Decide, Next, PlannedIn;
      var plan := Plan(banks, k, first, last).value;
      forall i: nat, s: nat | PlannedIn(plan, i, s)
        ensures Covers(banks, k + i) && s < |banks[k + i].start|
      {
        if i > 0 {
          assert PlannedIn(Plan(banks, k + 1, NextAddress(banks[k], first, last), last).value, i - 1, s);
        }
      }
    } else {
      NoMore(banks, k, first, last);
    }
  }
}
