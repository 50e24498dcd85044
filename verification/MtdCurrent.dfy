/** The current partition of cmd_mtdparts.c over runs of commands: it stays the same partition until
    that partition is deleted, and mtddevnum is its position among all partitions. */
module MtdCurrent {
  import opened CTypes
  import opened MtdValidate
  import opened MtdTable

  // ----- one insertion, one deletion -----

  /** Device `f` holds the current partition. */
  lemma CurrentIn(t: Table, f: nat)
    requires Good(t) && f < |t.devs| && t.cur == Some(t.devs[f].Name())
    ensures t.devs[f].numParts <= |t.devs[f].parts|
    ensures InRange(t) <==> t.num < t.devs[f].numParts
    ensures Current(t) == if t.num < t.devs[f].numParts then Some((t.cur.value, t.devs[f].parts[t.num])) else None
  {
    FindAt(t.devs, f);
    CountBound(t, f);
  }

  /** Inserting a partition never changes which partition is current, even among equal offsets. */
  lemma InsertFollows(t: Table, k: nat, p: Part)
    requires Good(t) && InRange(t) && k < |t.devs| && |t.devs[k].parts| < 0x100
    ensures Good(Inserted(t, k, p)) && InRange(Inserted(t, k, p))
    ensures Current(Inserted(t, k, p)) == Current(t)
  {
    InsertedIsGood(t, k, p);
    if t.cur.Some? && !Clash(t.devs[k].parts, p.offset) {
      var f := FindDev(t.devs, t.cur.value);
      hide Good, Inserted, Current, InRange;
      if f == k {
        InsertHere(t, k, p);
      } else {
        InsertElsewhere(t, f, k, p);
      }
    }
  }

  lemma InsertHere(t: Table, k: nat, p: Part)
    requires Good(t) && InRange(t) && k < |t.devs| && |t.devs[k].parts| < 0x100
    requires t.cur == Some(t.devs[k].Name()) && !Clash(t.devs[k].parts, p.offset)
    requires Good(Inserted(t, k, p))
    ensures InRange(Inserted(t, k, p)) && Current(Inserted(t, k, p)) == Current(t)
  {
    hide Slot, UniqueNames, FindDev, Sorted, Current, InRange, InsertAt;
    var u, d, i := Inserted(t, k, p), t.devs[k], Slot(t.devs[k].parts, p.offset);
    CurrentIn(t, k);
    assert d.numParts == |d.parts| by { assert GoodDev(d); }
    CurrentIn(u, k);
    hide Good, GoodDev;
    InsertedItem(d.parts, i, p, t.num);
    assert u.devs[k].numParts == d.numParts + 1;
  }

  lemma InsertedItem(parts: seq<Part>, i: nat, p: Part, n: nat)
    requires i <= |parts| && n < |parts|
    ensures |InsertAt(parts, i, p)| == |parts| + 1
    ensures InsertAt(parts, i, p)[if i <= n then n + 1 else n] == parts[n]
  {
  }

  lemma InsertElsewhere(t: Table, f: nat, k: nat, p: Part)
    requires Good(t) && InRange(t) && k < |t.devs| && f < |t.devs| && f != k && t.cur == Some(t.devs[f].Name())
    requires Good(Inserted(t, k, p))
    ensures InRange(Inserted(t, k, p)) && Current(Inserted(t, k, p)) == Current(t)
  {
    var u := Inserted(t, k, p);
    CurrentIn(t, f);
    CurrentIn(u, f);
    assert t.devs[k].Name() != t.devs[f].Name();
    hide Good, GoodDev, Slot, UniqueNames, FindDev, Sorted, Clash, Current, InRange, InsertAt;
  }

  /** Where partition number `num` goes when partition `i` of its device is deleted. */
  function Shifted(num: nat, i: nat): int {
    if i < num then num - 1 else num
  }

  /** A deletion moves the number of the current partition to its new place, exactly when the deleted
      partition is not one behind it with the same offset. */
  lemma DeleteFollowsIff(parts: seq<Part>, num: byte, i: nat)
    requires Sorted(parts) && num < |parts| && i < |parts| && i != num
    ensures NumAfterDelete(parts, num, i) == Shifted(num, i) <==> !(num < i && parts[i].offset == parts[num].offset)
  {
    if i < num {
      assert parts[i].offset <= parts[num].offset;
    } else {
      assert parts[num].offset <= parts[i].offset;
    }
  }

  /** Among equal offsets the wrong partition becomes current: deleting the last one moves it off "a". */
  lemma EqualOffsetsMisnumber()
    ensures var a, b, c := Part("boot", false, 4096, 0, false),
        Part("a", false, 4096, 4096, false), Part("b", false, 8192, 4096, false);
      && Sorted([a, b, c])
      && NumAfterDelete([a, b, c], 1, 2) == 0
      && RemoveAt([a, b, c], 2)[0] != b
  {
  }

  // ----- runs with distinct offsets -----

  /** Offsets are distinct in each device, and the number of a partition fits in the 8-bit index. */
  ghost predicate Tame(t: Table) {
    forall k :: 0 <= k < |t.devs| ==> 0 < |t.devs[k].parts| < 0x100 && Rising(t.devs[k].parts)
  }

  lemma TameCount(t: Table, k: nat)
    requires Good(t) && Tame(t) && k < |t.devs|
    ensures t.devs[k].numParts == |t.devs[k].parts|
  {
    assert GoodDev(t.devs[k]);
  }

  ghost predicate IsCurrent(t: Table, key: Key, i: nat)
    requires Good(t)
  {
    t.cur == Some(key) && t.num == i
  }

  /** What ought to be current after a command. */
  ghost function Expected(t: Table, op: Op): Option<(Key, Part)>
    requires Good(t) && Tame(t) && InRange(t)
  {
    match op
    case AddDevice(id, parts) =>
      if t.devs == [] && parts != [] then Some((Key(id.devType, id.num), parts[0])) else Current(t)
    case AddPartition(_, _) => Current(t)
    case DelPartition(key, i) =>
      var k := FindDev(t.devs, key);
      if k < |t.devs| && i < |t.devs[k].parts| && IsCurrent(t, key, i) then
        if |t.devs[k].parts| > 1 then Some((key, t.devs[k].parts[if i == 0 then 1 else 0]))
        else if |t.devs| > 1 then
          var first := t.devs[if k == 0 then 1 else 0];
          Some((first.Name(), first.parts[0]))
        else None
      else Current(t)
    case ChangePart(key, num) =>
      var k := FindDev(t.devs, key);
      if k < |t.devs| && num < |t.devs[k].parts| then Some((key, t.devs[k].parts[num])) else Current(t)
    case DelAll => None
  }

  lemma AddDeviceFollows(t: Table, d: Dev)
    requires Good(t) && Tame(t) && InRange(t)
    requires GoodDev(d) && FindDev(t.devs, d.Name()) == |t.devs| && 0 < |d.parts| < 0x100
    ensures Good(DevAdded(t, d)) && InRange(DevAdded(t, d))
    ensures Current(DevAdded(t, d)) == if t.devs == [] then Some((d.Name(), d.parts[0])) else Current(t)
  {
    DevAddedIsGood(t, d);
    var u := DevAdded(t, d);
    if t.devs != [] {
      var f := FindDev(t.devs, t.cur.value);
      assert u.devs[f].Name() == t.cur.value;
      FindAt(u.devs, f);
    }
  }

  lemma DeletePartFollows(t: Table, k: nat, i: nat)
    requires Good(t) && Tame(t) && InRange(t) && k < |t.devs| && i < |t.devs[k].parts| && |t.devs[k].parts| > 1
    ensures Good(Deleted(t, k, i)) && InRange(Deleted(t, k, i))
    ensures Current(Deleted(t, k, i)) ==
              if IsCurrent(t, t.devs[k].Name(), i)
              then Some((t.devs[k].Name(), t.devs[k].parts[if i == 0 then 1 else 0]))
              else Current(t)
  {
    DeletedIsGood(t, k, i);
    TameCount(t, k);
    FindAt(t.devs, k);
    var d := t.devs[k];
    var e := Deleted(t, k, i).devs[k];
    ReplaceKeepsNames(t.devs, k, e);
    if IsCurrentDev(t, k) && i != t.num {
      assert GoodDev(d);
      DeleteFollowsIff(d.parts, t.num, i);
    }
    hide Good, UniqueNames;
    assert e.parts == d.parts[..i] + d.parts[i + 1..];
    assert e.numParts == |e.parts|;
  }

  lemma DeleteDeviceFollows(t: Table, k: nat)
    requires Good(t) && Tame(t) && InRange(t) && k < |t.devs|
    ensures Good(DevDeleted(t, k)) && InRange(DevDeleted(t, k))
    ensures Current(DevDeleted(t, k)) ==
              if t.cur != Some(t.devs[k].Name()) then Current(t)
              else if |t.devs| == 1 then None
              else var first := t.devs[if k == 0 then 1 else 0]; Some((first.Name(), first.parts[0]))
  {
    DevDeletedIsGood(t, k);
    var u := DevDeleted(t, k);
    if t.cur != Some(t.devs[k].Name()) {
      var f := FindDev(t.devs, t.cur.value);
      hide Good, Current, InRange, FindDev, UniqueNames, GoodDev, Tame;
      DeleteOther(t, f, k);
    } else if |t.devs| > 1 {
      var first := if k == 0 then 1 else 0;
      TameCount(t, first);
      assert u.devs[0] == t.devs[first];
      CurrentIn(u, 0);
      hide Good, Current, InRange, FindDev, UniqueNames, GoodDev, Rising;
    }
  }

  lemma DeleteOther(t: Table, f: nat, k: nat)
    requires Good(t) && InRange(t) && k < |t.devs| && f < |t.devs| && f != k
    requires t.cur == Some(t.devs[f].Name()) && t.cur != Some(t.devs[k].Name())
    requires Good(DevDeleted(t, k))
    ensures InRange(DevDeleted(t, k)) && Current(DevDeleted(t, k)) == Current(t)
  {
    var u, g := DevDeleted(t, k), if f < k then f else f - 1;
    assert u.devs[g] == t.devs[f];
    CurrentIn(t, f);
    CurrentIn(u, g);
    hide Good, Current, InRange, FindDev, UniqueNames, GoodDev, DevDeleted;
  }

  lemma StepAddDevice(t: Table, op: Op)
    requires Good(t) && Tame(t) && InRange(t) && Tame(Step(t, op)) && op.AddDevice?
    ensures Good(Step(t, op)) && InRange(Step(t, op))
    ensures Current(Step(t, op)) == Expected(t, op)
  {
    hide InRange, Current, Rising, FindDev;
    var d := Dev(op.id, op.parts, |op.parts| % U16_LIMIT);
    if op.parts != [] && FindDev(t.devs, d.Name()) == |t.devs| {
      assert Step(t, op).devs[|t.devs|] == d;
      assert GoodDev(d);
      hide Good, GoodDev;
      AddDeviceFollows(t, d);
    }
  }

  lemma StepDelete(t: Table, op: Op)
    requires Good(t) && Tame(t) && InRange(t) && op.DelPartition?
    ensures Good(Step(t, op)) && InRange(Step(t, op))
    ensures Current(Step(t, op)) == Expected(t, op)
  {
    hide Current, Rising, FindDev, GoodDev;
    var k := FindDev(t.devs, op.key);
    if k < |t.devs| {
      TameCount(t, k);
      if op.i < |t.devs[k].parts| {
        if |t.devs[k].parts| > 1 {
          hide Good, InRange;
          DeletePartFollows(t, k, op.i);
        } else {
          DeleteDeviceFollows(t, k);
          hide Good;
        }
      }
    }
  }

  lemma StepChange(t: Table, op: Op)
    requires Good(t) && Tame(t) && InRange(t) && op.ChangePart?
    ensures Good(Step(t, op)) && InRange(Step(t, op))
    ensures Current(Step(t, op)) == Expected(t, op)
  {
    hide Rising, GoodDev;
    var k := FindDev(t.devs, op.key);
    if k < |t.devs| {
      TameCount(t, k);
    }
  }

  /** One command keeps the current partition, or moves to the one it should. */
  lemma StepFollows(t: Table, op: Op)
    requires Good(t) && Tame(t) && InRange(t) && Tame(Step(t, op))
    ensures Good(Step(t, op)) && InRange(Step(t, op))
    ensures Current(Step(t, op)) == Expected(t, op)
  {
    hide Good, Current, FindDev, Validate;
    match op
    case AddDevice(_, _) =>
      StepAddDevice(t, op);
    case AddPartition(key, part) =>
      var k := FindDev(t.devs, key);
      if k < |t.devs| && Validate(t.devs[k].id, part).Some? {
        InsertFollows(t, k, Validate(t.devs[k].id, part).value);
      }
    case DelPartition(_, _) =>
      StepDelete(t, op);
    case ChangePart(_, _) =>
      StepChange(t, op);
    case DelAll =>
      StepIsGood(t, op);
      NothingCurrent(t.num);
  }

  lemma NothingCurrent(num: byte)
    ensures Good(Table([], None, num)) && InRange(Table([], None, num)) && Current(Table([], None, num)) == None
  {
  }

  ghost function Run(t: Table, ops: seq<Op>): (r: Table)
    requires Good(t)
    ensures Good(r)
  {
    if ops == [] then t
    else
      var n := |ops| - 1;
      StepIsGood(Run(t, ops[..n]), ops[n]);
      Step(Run(t, ops[..n]), ops[n])
  }

  ghost function Start(): (t: Table)
    ensures Good(t) && Tame(t) && InRange(t)
  {
    Table([], None, 0)
  }

  /** Every run whose tables keep distinct offsets and fewer than 256 partitions a device. */
  lemma {:induction false} RunInRange(ops: seq<Op>)
    requires forall n :: 0 <= n <= |ops| ==> Tame(Run(Start(), ops[..n]))
    ensures InRange(Run(Start(), ops))
  {
    assert ops[..|ops|] == ops;
    if ops != [] {
      var n := |ops| - 1;
      forall m | 0 <= m <= n
        ensures Tame(Run(Start(), ops[..n][..m]))
      {
        assert ops[..n][..m] == ops[..m];
      }
      RunInRange(ops[..n]);
      StepFollows(Run(Start(), ops[..n]), ops[n]);
    }
  }

  /** The main result: at every step of every such run the right partition is current. */
  lemma {:induction false} RunFollows(ops: seq<Op>, n: nat)
    requires n < |ops|
    requires forall m :: 0 <= m <= |ops| ==> Tame(Run(Start(), ops[..m]))
    ensures InRange(Run(Start(), ops[..n]))
    ensures Current(Run(Start(), ops[..n + 1])) == Expected(Run(Start(), ops[..n]), ops[n])
  {
    forall m | 0 <= m <= n
      ensures Tame(Run(Start(), ops[..n][..m]))
    {
      assert ops[..n][..m] == ops[..m];
    }
    RunInRange(ops[..n]);
    assert ops[..n + 1][..n] == ops[..n];
    StepFollows(Run(Start(), ops[..n]), ops[n]);
  }

  // ----- the global number -----

  /** All partitions of all devices, in order. */
  ghost function All(devs: seq<Dev>): seq<Part> {
    if devs == [] then [] else All(devs[..|devs| - 1]) + devs[|devs| - 1].parts
  }

  lemma {:induction false} CountIsLength(t: Table, i: nat)
    requires Good(t) && Tame(t) && i <= |t.devs|
    ensures CountBefore(t.devs, i) == |All(t.devs[..i])|
  {
    if i > 0 {
      CountIsLength(t, i - 1);
      assert t.devs[..i][..i - 1] == t.devs[..i - 1];
      TameCount(t, i - 1);
    }
  }

  lemma {:induction false} AllAt(devs: seq<Dev>, f: nat, j: nat)
    requires f < |devs| && j < |devs[f].parts|
    ensures |All(devs[..f])| + j < |All(devs)| && All(devs)[|All(devs[..f])| + j] == devs[f].parts[j]
    decreases |devs|
  {
    var n := |devs| - 1;
    if f < n {
      AllAt(devs[..n], f, j);
      assert devs[..n][..f] == devs[..f];
    }
  }

  /** mtddevnum is the position of the current partition in the list of all partitions. */
  lemma DevNumIsPosition(t: Table)
    requires Good(t) && Tame(t) && InRange(t) && t.cur.Some? && |All(t.devs)| <= U16_LIMIT
    ensures DevNum(t).value < |All(t.devs)| && All(t.devs)[DevNum(t).value] == Current(t).value.1
  {
    var f := FindDev(t.devs, t.cur.value);
    CountIsLength(t, f);
    TameCount(t, f);
    CurrentIn(t, f);
    hide Good, Current, InRange, Tame, CountBefore, All;
    AllAt(t.devs, f, t.num);
  }
}
