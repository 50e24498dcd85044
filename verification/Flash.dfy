/** Sector ranges of cmd_flash.c: which sectors of which banks a range of addresses means, and what the
    32-bit arithmetic does at the top of the address space. */
module Flash {
  import opened CTypes

  const TOP := 0xFFFF_FFFF

  /** A flash bank: where its sectors start, and its size; `known` unless its id is FLASH_UNKNOWN. */
  datatype Bank = Bank(known: bool, start: seq<u32>, size: u32) {
    /** Bank end address, as the code computes it. */
    function End(): u32
      requires start != []
    {
      Wrap32(start[0] + size - 1)
    }

    /** Last address of sector `i`. */
    function SectorEnd(i: nat): u32
      requires i < |start|
    {
      if i == |start| - 1 then End() else Wrap32(start[i + 1] as int - 1)
    }

    predicate Holds(i: nat, a: u32)
      requires i < |start|
    {
      start[i] <= a <= SectorEnd(i)
    }
  }

  const MAX_SECTORS := 0x8000

  /** Sectors ascend and the bank ends below 4 GiB; the last sector number fits in a short. */
  ghost predicate ValidBank(b: Bank) {
    && 0 < |b.start| <= MAX_SECTORS
    && (forall i, j :: 0 <= i < j < |b.start| ==> b.start[i] < b.start[j])
    && b.start[|b.start| - 1] < b.start[0] + b.size <= U32_LIMIT
  }

  ghost predicate ValidBanks(banks: seq<Bank>) {
    forall k :: 0 <= k < |banks| && banks[k].known ==> ValidBank(banks[k])
  }

  lemma SectorBounds(b: Bank, i: nat)
    requires ValidBank(b) && i < |b.start|
    ensures b.End() == b.start[0] + b.size - 1
    ensures b.start[0] <= b.start[i] <= b.SectorEnd(i) <= b.End()
    ensures b.SectorEnd(i) == if i == |b.start| - 1 then b.End() else b.start[i + 1] - 1
  {
  }

  // ----- one bank -----

  /** The sector that starts at `a`, or -1. */
  ghost predicate StartsAt(b: Bank, a: u32, s: int) {
    if s < 0 then s == -1 && forall i :: 0 <= i < |b.start| ==> b.start[i] != a
    else s < |b.start| && b.start[s] == a
  }

  /** The sector that ends at `a`, or -1. */
  ghost predicate EndsAt(b: Bank, a: u32, s: int) {
    if s < 0 then s == -1 && forall i :: 0 <= i < |b.start| ==> b.SectorEnd(i) != a
    else s < |b.start| && b.SectorEnd(s) == a
  }

  /** The loop over the sectors of one bank. */
  method ScanSectors(b: Bank, addrFirst: u32, addrLast: u32) returns (sFirst: int, sLast: int)
    requires ValidBank(b) && addrFirst <= addrLast
    ensures StartsAt(b, addrFirst, sFirst) && EndsAt(b, addrLast, sLast)
  {
    sFirst, sLast := -1, -1;
    var bEnd := b.End();
    var sEnd := |b.start| - 1;
    for sect := 0 to |b.start|
      invariant sFirst < 0 ==> sFirst == -1 && forall i :: 0 <= i < sect ==> b.start[i] != addrFirst
      invariant sLast < 0 ==> sLast == -1 && forall i :: 0 <= i < sect ==> b.SectorEnd(i) != addrLast
      invariant sFirst >= 0 ==> sFirst < |b.start| && b.start[sFirst] == addrFirst
      invariant sLast >= 0 ==> sLast < |b.start| && b.SectorEnd(sLast) == addrLast
    {
      SectorBounds(b, sect);
      var end := if sect == sEnd then bEnd else Wrap32(b.start[sect + 1] as int - 1);
      if addrFirst > end || addrLast < b.start[sect] {
        continue;
      }
      if addrFirst == b.start[sect] {
        sFirst := sect;
      }
      if addrLast == end {
        sLast := sect;
      }
    }
  }

  /** The sector among the first `n` that starts at `a`, or -1. */
  ghost function StartIndex(b: Bank, n: nat, a: u32): (s: int)
    requires n <= |b.start|
    ensures -1 <= s < n && (s >= 0 ==> b.start[s] == a)
    ensures s < 0 ==> forall i :: 0 <= i < n ==> b.start[i] != a
  {
    if n == 0 then -1 else if b.start[n - 1] == a then n - 1 else StartIndex(b, n - 1, a)
  }

  ghost function EndIndex(b: Bank, n: nat, a: u32): (s: int)
    requires n <= |b.start|
    ensures -1 <= s < n && (s >= 0 ==> b.SectorEnd(s) == a)
    ensures s < 0 ==> forall i :: 0 <= i < n ==> b.SectorEnd(i) != a
  {
    if n == 0 then -1 else if b.SectorEnd(n - 1) == a then n - 1 else EndIndex(b, n - 1, a)
  }

  ghost function First(b: Bank, a: u32): int {
    StartIndex(b, |b.start|, a)
  }

  ghost function Last(b: Bank, a: u32): int {
    EndIndex(b, |b.start|, a)
  }

  /** Sectors are told apart by where they start and by where they end. */
  lemma ScannedIs(b: Bank, a: u32, z: u32, sFirst: int, sLast: int)
    requires ValidBank(b) && StartsAt(b, a, sFirst) && EndsAt(b, z, sLast)
    ensures sFirst == First(b, a) && sLast == Last(b, z)
  {
    var f, l := First(b, a), Last(b, z);
    if l >= 0 && sLast >= 0 {
      SectorBounds(b, l);
      SectorBounds(b, sLast);
    }
  }

  // ----- all banks -----

  /** The sectors planned in one bank, first and last. */
  type Range = Option<(nat, nat)>

  datatype BankPlan = Skip | Take(first: nat, last: nat) | Fail

  /** What the body of the loop over the banks decides for a known bank. */
  ghost function Decide(b: Bank, first: u32, last: u32): (d: BankPlan)
    requires ValidBank(b)
    ensures d.Take? ==> d.first <= d.last < |b.start|
  {
    var sf, sl := First(b, first), Last(b, last);
    if sf >= 0 then
      if sl < 0 then if last > b.End() then Take(sf, |b.start| - 1) else Fail
      else if sl < sf then Fail
      else Take(sf, sl)
    else if b.start[0] <= first < b.End() then Fail
    else if sl >= 0 then Fail
    else Skip
  }

  /** Where the next bank is expected to go on; 0 behind the end of the address space. */
  ghost function Next(b: Bank, sl: nat): u32
    requires ValidBank(b) && sl < |b.start|
  {
    if sl == |b.start| - 1 then Wrap32(b.End() as int + 1) else b.start[sl + 1]
  }

  /** The plan for the banks from number `k` on; None when the range is refused. */
  ghost function Plan(banks: seq<Bank>, k: nat, first: u32, last: u32): (r: Option<seq<Range>>)
    requires ValidBanks(banks) && k <= |banks|
    ensures r.Some? ==> |r.value| == |banks| - k
    decreases |banks| - k
  {
    if k == |banks| then Some([])
    else if first > last || !banks[k].known then Then(None, Plan(banks, k + 1, first, last))
    else
      var d := Decide(banks[k], first, last);
      if d.Fail? then None
      else if d.Skip? then Then(None, Plan(banks, k + 1, first, last))
      else Then(Some((d.first, d.last)), Plan(banks, k + 1, Next(banks[k], d.last), last))
  }

  ghost function Then(x: Range, rest: Option<seq<Range>>): (r: Option<seq<Range>>) {
    match rest
    case None => None
    case Some(t) => Some([x] + t)
  }

  ghost function Size(x: Range): int {
    match x
    case None => 0
    case Some((f, l)) => l - f + 1
  }

  ghost function Count(plan: seq<Range>): int {
    if plan == [] then 0 else Count(plan[..|plan| - 1]) + Size(plan[|plan| - 1])
  }

  /** The arrays as the code leaves them, -1 for a bank without planned sectors. */
  ghost predicate Shows(sFirst: seq<int>, sLast: seq<int>, plan: seq<Range>) {
    |sFirst| == |sLast| == |plan| && forall k :: 0 <= k < |plan| ==> SlotShows(sFirst[k], sLast[k], plan[k])
  }

  /** The body of the loop over the banks, for a known bank. */
  method PlanBank(b: Bank, addrFirst: u32, addrLast: u32) returns (rcode: int, sFirst: int, sLast: int)
    requires ValidBank(b) && addrFirst <= addrLast
    ensures rcode == if Decide(b, addrFirst, addrLast).Fail? then 1 else 0
    ensures rcode == 0 ==> match Decide(b, addrFirst, addrLast)
                           case Take(f, l) => sFirst == f && sLast == l
                           case Skip => sFirst == -1 && sLast == -1
                           case Fail => true
  {
    sFirst, sLast := ScanSectors(b, addrFirst, addrLast);
    ScannedIs(b, addrFirst, addrLast, sFirst, sLast);
    hide StartsAt, EndsAt, First, Last;
    var bEnd := b.End();
    if sFirst >= 0 {
      if sLast < 0 {
        if addrLast > bEnd {
          sLast := |b.start| - 1;
        } else {
          return 1, sFirst, sLast;
        }
      }
      if sLast < sFirst {
        return 1, sFirst, sLast;
      }
    } else if addrFirst >= b.start[0] && addrFirst < bEnd {
      return 1, sFirst, sLast;
    } else if sLast >= 0 {
      return 1, sFirst, sLast;
    }
    rcode := 0;
  }

  method ClearRanges(sFirst: array<int>, sLast: array<int>)
    requires sFirst.Length == sLast.Length && sFirst != sLast
    modifies sFirst, sLast
    ensures forall k :: 0 <= k < sFirst.Length ==> sFirst[k] == -1 && sLast[k] == -1
  {
    for bank := 0 to sFirst.Length
      invariant forall k :: 0 <= k < bank ==> sFirst[k] == -1 && sLast[k] == -1
    {
      sFirst[bank], sLast[bank] := -1, -1;
    }
  }

  method FillSectRanges(banks: seq<Bank>, first: u32, last: u32, sFirst: array<int>, sLast: array<int>)
    returns (rcode: int, sCount: int)
    requires ValidBanks(banks) && sFirst.Length == sLast.Length == |banks| && sFirst != sLast
    modifies sFirst, sLast
    ensures rcode == if Plan(banks, 0, first, last).Some? then 0 else 1
    ensures rcode == 0 ==> Shows(sFirst[..], sLast[..], Plan(banks, 0, first, last).value)
    ensures rcode == 0 ==> sCount == Count(Plan(banks, 0, first, last).value)
  {
    hide Decide, Then, After, Count, Next, Plan, ValidBank, Nones, SlotShows;
    sCount, rcode := 0, 0;
    ClearRanges(sFirst, sLast);
    var addrFirst: u32 := first;
    ghost var done: seq<Range> := [];
    var bank := 0;
    AfterNothing(Plan(banks, 0, first, last));
    while bank < |banks| && addrFirst <= last
      invariant 0 <= bank <= |banks| && |done| == bank
      invariant Plan(banks, 0, first, last) == After(done, Plan(banks, bank, addrFirst, last))
      invariant forall k :: 0 <= k < bank ==> SlotShows(sFirst[k], sLast[k], done[k])
      invariant forall k :: bank <= k < |banks| ==> sFirst[k] == -1 && sLast[k] == -1
      invariant sCount == Count(done)
    {
      PlanStep(banks, bank, addrFirst, last);
      ghost var x := Here(banks[bank], addrFirst, last);
      var rc, sf, sl, next := VisitBank(banks[bank], addrFirst, last);
      sFirst[bank], sLast[bank] := sf, sl;
      if rc != 0 {
        Refused(done);
        return 1, sCount;
      }
      sCount := sCount + if sf >= 0 then sl - sf + 1 else 0;
      AfterStep(done, x, Plan(banks, bank + 1, next, last));
      CountStep(done, x);
      addrFirst, done, bank := next, done + [x], bank + 1;
    }
    NoMore(banks, bank, addrFirst, last);
    NoMoreAfter(done, |banks| - bank);
    ghost var plan := done + Nones(|banks| - bank);
    forall k | 0 <= k < |banks|
      ensures SlotShows(sFirst[k], sLast[k], plan[k])
    {
      ShowsNone(k, done, |banks| - bank, sFirst[k], sLast[k]);
    }
  }

  lemma ShowsNone(k: nat, done: seq<Range>, n: nat, sf: int, sl: int)
    requires k < |done| + n
    requires if k < |done| then SlotShows(sf, sl, done[k]) else sf == -1 && sl == -1
    ensures |Nones(n)| == n && SlotShows(sf, sl, (done + Nones(n))[k])
  {
  }

  /** One turn of the loop over the banks. */
  method VisitBank(info: Bank, addrFirst: u32, last: u32) returns (rc: int, sf: int, sl: int, next: u32)
    requires info.known ==> ValidBank(info)
    requires addrFirst <= last
    ensures rc != 0 <==> info.known && Decide(info, addrFirst, last).Fail?
    ensures rc == 0 ==> next == NextAddress(info, addrFirst, last)
    ensures rc == 0 ==> SlotShows(sf, sl, Here(info, addrFirst, last))
    ensures rc == 0 ==> (if sf >= 0 then sl - sf + 1 else 0) == Size(Here(info, addrFirst, last))
  {
    rc, sf, sl, next := 0, -1, -1, addrFirst;
    if !info.known {
      return;
    }
    rc, sf, sl := PlanBank(info, addrFirst, last);
    hide Decide;
    if rc == 0 && sf >= 0 {
      next := if sl == |info.start| - 1 then Wrap32(info.End() as int + 1) else info.start[sl + 1];
    }
  }

  ghost predicate SlotShows(sf: int, sl: int, x: Range) {
    match x
    case None => sf == -1 && sl == -1
    case Some((f, l)) => sf == f && sl == l
  }

  /** What one bank contributes to the plan. */
  ghost function Here(b: Bank, first: u32, last: u32): Range
    requires b.known ==> ValidBank(b)
  {
    if b.known && Decide(b, first, last).Take? then Some((Decide(b, first, last).first, Decide(b, first, last).last))
    else None
  }

  ghost function NextAddress(b: Bank, first: u32, last: u32): u32
    requires b.known ==> ValidBank(b)
  {
    if b.known && Decide(b, first, last).Take? then Next(b, Decide(b, first, last).last) else first
  }

  lemma PlanStep(banks: seq<Bank>, k: nat, first: u32, last: u32)
    requires ValidBanks(banks) && k < |banks| && first <= last
    ensures Plan(banks, k, first, last) ==
              if banks[k].known && Decide(banks[k], first, last).Fail? then None
              else Then(Here(banks[k], first, last), Plan(banks, k + 1, NextAddress(banks[k], first, last), last))
  {
    hide Decide, Next, Then;
  }

  ghost function After(done: seq<Range>, rest: Option<seq<Range>>): Option<seq<Range>> {
    match rest
    case None => None
    case Some(t) => Some(done + t)
  }

  lemma AfterStep(done: seq<Range>, x: Range, rest: Option<seq<Range>>)
    ensures After(done, Then(x, rest)) == After(done + [x], rest)
  {
    if rest.Some? {
      assert done + ([x] + rest.value) == done + [x] + rest.value;
    }
  }

  lemma AfterNothing(rest: Option<seq<Range>>)
    ensures After([], rest) == rest && Count([]) == 0
  {
    if rest.Some? {
      assert [] + rest.value == rest.value;
    }
  }

  lemma Refused(done: seq<Range>)
    ensures After(done, None) == None
  {
  }

  lemma CountStep(done: seq<Range>, x: Range)
    ensures Count(done + [x]) == Count(done) + Size(x)
  {
    assert (done + [x])[..|done|] == done;
  }

  ghost function Nones(n: nat): seq<Range> {
    seq(n, _ => None)
  }

  /** Once the range is used up no further bank is planned. */
  lemma {:induction false} NoMore(banks: seq<Bank>, k: nat, first: u32, last: u32)
    requires ValidBanks(banks) && k <= |banks| && (k == |banks| || first > last)
    ensures Plan(banks, k, first, last) == Some(Nones(|banks| - k))
    decreases |banks| - k
  {
    hide Decide, Next;
    if k < |banks| {
      NoMore(banks, k + 1, first, last);
      assert [None] + Nones(|banks| - k - 1) == Nones(|banks| - k);
    } else {
      assert Nones(0) == [];
    }
  }

  lemma {:induction false} NoMoreAfter(done: seq<Range>, n: nat)
    ensures After(done, Some(Nones(n))) == Some(done + Nones(n))
    ensures Count(done + Nones(n)) == Count(done)
  {
    if n == 0 {
      assert done + Nones(0) == done;
    } else {
      NoMoreAfter(done, n - 1);
      assert (done + Nones(n))[..|done| + n - 1] == done + Nones(n - 1);
    }
  }
}
