/** What the table commands of cmd_mtdparts.c do, command by command: which partition appears or disappears,
    where, and what becomes current. */
module MtdLaws {
  import opened CTypes
  import opened MtdValidate
  import opened MtdTable

  /** Device `k` is the one of that type and number. */
  ghost predicate IsDevice(t: Table, k: nat, key: Key) {
    k < |t.devs| && t.devs[k].id.devType == key.devType && t.devs[k].id.num == key.num
  }

  lemma DeviceFound(t: Table, k: nat, key: Key)
    requires Good(t) && IsDevice(t, k, key)
    ensures FindDev(t.devs, key) == k
  {
    FindAt(t.devs, k);
  }

  lemma DeviceMissing(t: Table, key: Key)
    requires forall k: nat :: !IsDevice(t, k, key)
    ensures FindDev(t.devs, key) == |t.devs|
  {
    var f := FindDev(t.devs, key);
    assert !IsDevice(t, f, key);
  }

  /** All devices but number `k` are as before, and it keeps its id. */
  ghost predicate OthersKept(t: Table, r: Table, k: nat) {
    && |r.devs| == |t.devs| && k < |t.devs|
    && r.devs[k].id == t.devs[k].id
    && forall j :: 0 <= j < |t.devs| && j != k ==> r.devs[j] == t.devs[j]
  }

  /** A command for a device that is not in the list changes nothing. */
  lemma MissingDevice(t: Table, op: Op)
    requires Good(t) && (op.AddPartition? || op.DelPartition? || op.ChangePart?)
    requires forall k: nat :: !IsDevice(t, k, op.key)
    ensures Step(t, op) == t
  {
    DeviceMissing(t, op.key);
  }

  // ----- "mtdparts add": a partition -----

  /** The new partition stands at place `i`, the others as before around it, in ascending order. */
  ghost predicate PutAt(before: seq<Part>, after: seq<Part>, i: nat, p: Part) {
    && i <= |before|
    && after == before[..i] + [p] + before[i..]
    && (forall j :: 0 <= j < i ==> before[j].offset < p.offset)
    && forall j :: i <= j < |before| ==> p.offset <= before[j].offset
  }

  /** The current partition moves up when the new one is put before it. */
  ghost predicate MovedUp(t: Table, r: Table, key: Key, i: nat, count: nat) {
    && r.cur == t.cur
    && r.num == if t.cur == Some(key) && t.num < count && i <= t.num then (t.num + 1) % 0x100 else t.num
  }

  /** A valid partition is added: it and nothing else appears, the devices keep all their partitions. */
  lemma AddPartitionLaw(t: Table, k: nat, key: Key, part: Part) returns (i: nat)
    requires Good(t) && IsDevice(t, k, key) && Validate(t.devs[k].id, part).Some?
    requires var q := Validate(t.devs[k].id, part).value;
      !(q.offset == 0 && exists j :: 0 <= j < |t.devs[k].parts| && t.devs[k].parts[j].offset == 0)
    ensures var q, r := Validate(t.devs[k].id, part).value, Step(t, AddPartition(key, part));
      && OthersKept(t, r, k)
      && PutAt(t.devs[k].parts, r.devs[k].parts, i, q)
      && r.devs[k].numParts == (t.devs[k].numParts + 1) % 0x1_0000
      && multiset(r.devs[k].parts) == multiset(t.devs[k].parts) + multiset{q}
      && MovedUp(t, r, key, i, t.devs[k].numParts)
  {
    DeviceFound(t, k, key);
    var q := Validate(t.devs[k].id, part).value;
    hide Validate, FindDev, Good;
    InsertLaw(t, k, q);
    i := Slot(t.devs[k].parts, q.offset);
    assert t.devs[k].Name() == key;
  }

  lemma InsertLaw(t: Table, k: nat, q: Part)
    requires k < |t.devs| && Good(t)
    requires !(q.offset == 0 && exists j :: 0 <= j < |t.devs[k].parts| && t.devs[k].parts[j].offset == 0)
    ensures var r, i := Inserted(t, k, q), Slot(t.devs[k].parts, q.offset);
      && OthersKept(t, r, k)
      && PutAt(t.devs[k].parts, r.devs[k].parts, i, q)
      && r.devs[k].numParts == (t.devs[k].numParts + 1) % 0x1_0000
      && multiset(r.devs[k].parts) == multiset(t.devs[k].parts) + multiset{q}
      && MovedUp(t, r, t.devs[k].Name(), i, t.devs[k].numParts)
  {
    var d := t.devs[k];
    var i := Slot(d.parts, q.offset);
    assert GoodDev(d);
    hide Good;
    assert !Clash(d.parts, q.offset);
    PutLaw(d.parts, i, q);
    hide Slot, InsertAt, PutAt, GoodDev;
  }

  lemma PutLaw(parts: seq<Part>, i: nat, q: Part)
    requires Sorted(parts) && i == Slot(parts, q.offset)
    ensures PutAt(parts, InsertAt(parts, i, q), i, q)
    ensures multiset(InsertAt(parts, i, q)) == multiset(parts) + multiset{q}
  {
    SortedFrom(parts, i, q.offset);
    hide Slot, Sorted;
    assert parts == parts[..i] + parts[i..];
  }

  lemma SortedFrom(parts: seq<Part>, i: nat, offset: u32)
    requires Sorted(parts) && i <= |parts| && (i < |parts| ==> offset <= parts[i].offset)
    ensures forall j :: i <= j < |parts| ==> offset <= parts[j].offset
  {
  }

  /** A partition that is not valid, or a second one at offset 0, is refused and changes nothing. */
  lemma AddPartitionRefused(t: Table, k: nat, key: Key, part: Part)
    requires Good(t) && IsDevice(t, k, key)
    requires var v := Validate(t.devs[k].id, part);
      v.None? || (v.value.offset == 0 && exists j :: 0 <= j < |t.devs[k].parts| && t.devs[k].parts[j].offset == 0)
    ensures Step(t, AddPartition(key, part)) == t
  {
    DeviceFound(t, k, key);
    assert GoodDev(t.devs[k]);
    hide Validate, FindDev, Slot;
  }

  // ----- "mtdparts del" -----

  /** One of several partitions is deleted: it and nothing else disappears. */
  lemma DelPartitionLaw(t: Table, k: nat, key: Key, i: nat)
    requires Good(t) && IsDevice(t, k, key) && i < t.devs[k].numParts && t.devs[k].numParts != 1
    ensures |t.devs[k].parts| >= t.devs[k].numParts
    ensures var r, parts := Step(t, DelPartition(key, i)), t.devs[k].parts;
      && OthersKept(t, r, k)
      && r.devs[k].parts == parts[..i] + parts[i + 1..]
      && r.devs[k].numParts == t.devs[k].numParts - 1
      && multiset(parts) == multiset(r.devs[k].parts) + multiset{parts[i]}
      && r.cur == t.cur
      && r.num == (if t.cur == Some(key) && t.num < t.devs[k].numParts then
                     if i == t.num then 0
                     else if parts[i].offset <= parts[t.num].offset then (t.num + 0xFF) % 0x100
                     else t.num
                   else t.num)
  {
    DeviceFound(t, k, key);
    CountBound(t, k);
    hide FindDev, Good;
    assert t.devs[k].Name() == key;
    Without(t.devs[k].parts, i);
  }

  lemma Without(parts: seq<Part>, i: nat)
    requires i < |parts|
    ensures multiset(parts) == multiset(parts[..i] + parts[i + 1..]) + multiset{parts[i]}
  {
    assert parts == parts[..i] + [parts[i]] + parts[i + 1..];
  }

  /** The only partition of a device is deleted: the device goes with it, and if it was the current one,
      partition 0 of the device that is now first becomes current. */
  lemma DelLastLaw(t: Table, k: nat, key: Key)
    requires Good(t) && IsDevice(t, k, key) && t.devs[k].numParts == 1
    ensures var r := Step(t, DelPartition(key, 0));
      && r.devs == t.devs[..k] + t.devs[k + 1..]
      && (t.cur != Some(key) ==> r.cur == t.cur && r.num == t.num)
      && (t.cur == Some(key) && |t.devs| == 1 ==> r.cur == None)
      && (t.cur == Some(key) && |t.devs| > 1 ==>
            r.cur == Some(Key(r.devs[0].id.devType, r.devs[0].id.num)) && r.num == 0)
  {
    DeviceFound(t, k, key);
    CountBound(t, k);
    hide FindDev, Good;
    assert t.devs[k].Name() == key;
  }

  /** A partition number that does not exist changes nothing. */
  lemma DelRefused(t: Table, k: nat, key: Key, i: nat)
    requires Good(t) && IsDevice(t, k, key) && i >= t.devs[k].numParts
    ensures Step(t, DelPartition(key, i)) == t
  {
    DeviceFound(t, k, key);
  }

  /** "mtdparts delall" leaves no device and no current partition, so none of the variables. */
  lemma DelAllLaw(t: Table)
    requires Good(t)
    ensures var r := Step(t, DelAll);
      && r.devs == [] && r.cur == None && Good(r)
      && DevNum(r) == None && DevName(r) == None && SavedPartition(r.cur, r.num) == None
  {
    StepIsGood(t, DelAll);
    VariablesAre(Step(t, DelAll));
  }

  // ----- "mtdparts add": a device; "chpart" -----

  /** A new device goes to the end of the list with its partitions as they come; the first device of all
      becomes current. */
  lemma AddDeviceLaw(t: Table, id: Id, parts: SortedParts)
    requires Good(t) && parts != [] && forall k: nat :: !IsDevice(t, k, Key(id.devType, id.num))
    ensures var r := Step(t, AddDevice(id, parts));
      && |r.devs| == |t.devs| + 1 && r.devs[..|t.devs|] == t.devs
      && r.devs[|t.devs|].id == id && r.devs[|t.devs|].parts == parts
      && r.devs[|t.devs|].numParts == |parts| % 0x1_0000
      && (if t.devs == [] then r.cur == Some(Key(id.devType, id.num)) && r.num == 0
          else r.cur == t.cur && r.num == t.num)
  {
    DeviceMissing(t, Key(id.devType, id.num));
    hide FindDev, Good;
  }

  /** A device that is in the list already, or has no partitions, changes nothing. */
  lemma AddDeviceRefused(t: Table, k: nat, id: Id, parts: SortedParts)
    requires Good(t) && (parts == [] || IsDevice(t, k, Key(id.devType, id.num)))
    ensures Step(t, AddDevice(id, parts)) == t
  {
    if parts != [] {
      DeviceFound(t, k, Key(id.devType, id.num));
    }
  }

  /** chpart makes an existing partition current, touches no device, and refuses any other number. */
  lemma ChangePartLaw(t: Table, k: nat, key: Key, num: byte)
    requires Good(t) && IsDevice(t, k, key)
    ensures var r := Step(t, ChangePart(key, num));
      && r.devs == t.devs
      && (if num < t.devs[k].numParts then r.cur == Some(key) && r.num == num else r.cur == t.cur && r.num == t.num)
  {
    DeviceFound(t, k, key);
  }

  // ----- the variables -----

  ghost function Counts(devs: seq<Dev>): nat {
    if devs == [] then 0 else devs[0].numParts + Counts(devs[1..])
  }

  lemma {:induction false} CountsSnoc(devs: seq<Dev>, i: nat)
    requires i < |devs|
    ensures Counts(devs[..i + 1]) == Counts(devs[..i]) + devs[i].numParts
  {
    if i > 0 {
      assert devs[..i + 1][1..] == devs[1..][..i] && devs[..i][1..] == devs[1..][..i - 1];
      CountsSnoc(devs[1..], i - 1);
    } else {
      assert devs[..1][1..] == [];
    }
  }

  lemma {:induction false} CountBeforeIs(devs: seq<Dev>, i: nat)
    requires i <= |devs|
    ensures CountBefore(devs, i) == Counts(devs[..i])
  {
    if i > 0 {
      CountBeforeIs(devs, i - 1);
      CountsSnoc(devs, i - 1);
    }
  }

  /** Without a current device there are no variables; else mtddevnum counts the partitions of the devices
      before it, mtddevname is the name of the current partition and 'partition' its device and number. */
  lemma VariablesAre(t: Table)
    requires Good(t)
    ensures t.cur == None ==> DevNum(t) == None && DevName(t) == None && SavedPartition(t.cur, t.num) == None
    ensures forall k: nat :: t.cur.Some? && IsDevice(t, k, t.cur.value) ==>
              && DevNum(t) == Some((Counts(t.devs[..k]) + t.num) % 0x1_0000)
              && t.devs[k].numParts <= |t.devs[k].parts|
              && DevName(t) == (if t.num < t.devs[k].numParts then Some(t.devs[k].parts[t.num].name) else None)
              && SavedPartition(t.cur, t.num) == Some((t.cur.value, t.num))
  {
    if t.cur.Some? {
      forall k: nat | IsDevice(t, k, t.cur.value)
        ensures DevNum(t) == Some((Counts(t.devs[..k]) + t.num) % 0x1_0000) && t.devs[k].numParts <= |t.devs[k].parts|
        ensures DevName(t) == if t.num < t.devs[k].numParts then Some(t.devs[k].parts[t.num].name) else None
      {
        DeviceFound(t, k, t.cur.value);
        NumberAndName(t);
        CountBeforeIs(t.devs, k);
        hide Good, FindDev, CountBefore, Counts, DevName;
      }
    }
  }
}
