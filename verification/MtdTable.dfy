/** The device list of cmd_mtdparts.c under chpart and "mtdparts add|del|delall": the current partition
    follows its partition through insertions and deletions, and mtddevnum is its global number. */
module MtdTable {
  import opened CTypes
  import opened MtdValidate

  const U16_LIMIT := 0x1_0000

  /** What the pointer to a device stands for: type and number are unique in the list. */
  datatype Key = Key(devType: byte, num: byte)

  /** A device in the list; `numParts` is the 16-bit counter kept beside the list of partitions. */
  datatype Dev = Dev(id: Id, parts: seq<Part>, numParts: nat) {
    function Name(): Key {
      Key(id.devType, id.num)
    }
  }

  /** The list and the current partition; `num` means nothing while there is no current device. */
  datatype Table = Table(devs: seq<Dev>, cur: Option<Key>, num: byte)

  ghost predicate Sorted(parts: seq<Part>) {
    forall i, j :: 0 <= i < j < |parts| ==> parts[i].offset <= parts[j].offset
  }

  ghost predicate GoodDev(d: Dev) {
    Sorted(d.parts) && d.numParts == |d.parts| % U16_LIMIT
  }

  ghost predicate UniqueNames(devs: seq<Dev>) {
    forall i, j :: 0 <= i < j < |devs| ==> devs[i].Name() != devs[j].Name()
  }

  ghost predicate Good(t: Table) {
    && (forall i :: 0 <= i < |t.devs| ==> GoodDev(t.devs[i]))
    && UniqueNames(t.devs)
    && (t.cur == None <==> t.devs == [])
    && (t.cur.Some? ==> FindDev(t.devs, t.cur.value) < |t.devs|)
  }

  /** The place of a device in the list, or its length. */
  ghost function FindDev(devs: seq<Dev>, key: Key): (i: nat)
    ensures i <= |devs|
    ensures i < |devs| ==> devs[i].Name() == key
    ensures forall j :: 0 <= j < i ==> devs[j].Name() != key
  {
    if devs == [] then 0 else if devs[0].Name() == key then 0 else 1 + FindDev(devs[1..], key)
  }

  lemma FindAt(devs: seq<Dev>, i: nat)
    requires UniqueNames(devs) && i < |devs|
    ensures FindDev(devs, devs[i].Name()) == i
  {
    var f := FindDev(devs, devs[i].Name());
    assert f == i;
  }

  /** The current device has a partition of the current number. */
  ghost predicate InRange(t: Table)
    requires Good(t)
  {
    t.cur.Some? ==> t.num < t.devs[FindDev(t.devs, t.cur.value)].numParts
  }

  /** The device and partition that are current. */
  ghost function Current(t: Table): Option<(Key, Part)>
    requires Good(t)
  {
    if t.cur == None || !InRange(t) then None
    else
      CountBound(t, FindDev(t.devs, t.cur.value));
      Some((t.cur.value, t.devs[FindDev(t.devs, t.cur.value)].parts[t.num]))
  }

  lemma CountBound(t: Table, i: nat)
    requires Good(t) && i < |t.devs|
    ensures t.devs[i].numParts <= |t.devs[i].parts|
  {
    assert GoodDev(t.devs[i]);
  }

  // ----- the environment variables -----

  ghost function CountBefore(devs: seq<Dev>, i: nat): nat
    requires i <= |devs|
  {
    if i == 0 then 0 else CountBefore(devs, i - 1) + devs[i - 1].numParts
  }

  ghost function DevNum(t: Table): Option<nat>
    requires Good(t)
  {
    if t.cur == None then None
    else Some((CountBefore(t.devs, FindDev(t.devs, t.cur.value)) + t.num) % U16_LIMIT)
  }

  /** mtddevname; left open when the number is out of range. */
  ghost function DevName(t: Table): Option<string>
    requires Good(t)
  {
    match Current(t)
    case None => None
    case Some((_, p)) => Some(p.name)
  }

  /** The text of the variable 'partition', as a pair. */
  function SavedPartition(cur: Option<Key>, num: byte): Option<(Key, byte)> {
    match cur
    case None => None
    case Some(key) => Some((key, num))
  }

  lemma NumberAndName(t: Table)
    requires Good(t) && t.cur.Some?
    ensures var f := FindDev(t.devs, t.cur.value);
      && f < |t.devs| && GoodDev(t.devs[f]) && t.devs[f].numParts <= |t.devs[f].parts|
      && DevNum(t) == Some((CountBefore(t.devs, f) % U16_LIMIT + t.num) % U16_LIMIT)
      && DevName(t) == if t.num < t.devs[f].numParts then Some(t.devs[f].parts[t.num].name) else None
  {
    CountBound(t, FindDev(t.devs, t.cur.value));
  }

  // ----- what the operations do to the table -----

  function Key8(n: int): byte {
    n % 0x100
  }

  /** The place of a new partition: before the first one that does not start earlier. */
  ghost function Slot(parts: seq<Part>, offset: u32): (i: nat)
    ensures i <= |parts|
    ensures i < |parts| ==> offset <= parts[i].offset
    ensures forall j :: 0 <= j < i ==> parts[j].offset < offset
  {
    if parts == [] then 0 else if offset <= parts[0].offset then 0 else 1 + Slot(parts[1..], offset)
  }

  /** A second partition at offset 0 is refused. */
  ghost predicate Clash(parts: seq<Part>, offset: u32) {
    parts != [] && offset == 0 && parts[0].offset == 0
  }

  ghost function InsertAt(parts: seq<Part>, i: nat, p: Part): seq<Part>
    requires i <= |parts|
  {
    parts[..i] + [p] + parts[i..]
  }

  ghost function RemoveAt<X>(parts: seq<X>, i: nat): seq<X>
    requires i < |parts|
  {
    parts[..i] + parts[i + 1..]
  }

  /** Whether partition `num` of device `k` exists and is the current one. */
  ghost predicate IsCurrentDev(t: Table, k: nat)
    requires k < |t.devs|
  {
    t.cur == Some(t.devs[k].Name()) && t.num < t.devs[k].numParts
  }

  /** part_sort_add: a current partition at or behind the new one moves up by one. */
  ghost function Inserted(t: Table, k: nat, p: Part): Table
    requires k < |t.devs|
  {
    var d := t.devs[k];
    var i := Slot(d.parts, p.offset);
    if Clash(d.parts, p.offset) then t
    else Table(t.devs[k := Dev(d.id, InsertAt(d.parts, i, p), (d.numParts + 1) % U16_LIMIT)], t.cur,
               if IsCurrentDev(t, k) && i <= t.num then Key8(t.num + 1) else t.num)
  }

  /** The number after partition `i` is deleted, as the code computes it from the offsets. */
  ghost function NumAfterDelete(parts: seq<Part>, num: byte, i: nat): byte
    requires i < |parts| && num < |parts|
  {
    if i == num then 0 else if parts[i].offset <= parts[num].offset then Key8(num - 1) else num
  }

  /** device_del: when the current device goes, partition 0 of the first device becomes current. */
  ghost function DevDeleted(t: Table, k: nat): Table
    requires k < |t.devs|
  {
    var devs := RemoveAt(t.devs, k);
    if t.cur != Some(t.devs[k].Name()) then t.(devs := devs)
    else if devs == [] then Table(devs, None, t.num)
    else Table(devs, Some(devs[0].Name()), 0)
  }

  /** part_del */
  ghost function Deleted(t: Table, k: nat, i: nat): Table
    requires Good(t) && k < |t.devs| && i < |t.devs[k].parts|
  {
    var d := t.devs[k];
    CountBound(t, k);
    if d.numParts == 1 then DevDeleted(t, k)
    else Table(t.devs[k := Dev(d.id, RemoveAt(d.parts, i), (d.numParts - 1) % U16_LIMIT)], t.cur,
               if IsCurrentDev(t, k) then NumAfterDelete(d.parts, t.num, i) else t.num)
  }

  /** device_add: the first device becomes current. */
  ghost function DevAdded(t: Table, d: Dev): Table {
    if t.devs == [] then Table([d], Some(d.Name()), 0) else t.(devs := t.devs + [d])
  }

  ghost function Linked(t: Table, k: nat, parts: seq<Part>, moveUp: bool): Table
    requires k < |t.devs|
  {
    Table(t.devs[k := Dev(t.devs[k].id, parts, (t.devs[k].numParts + 1) % U16_LIMIT)], t.cur,
          if moveUp then Key8(t.num + 1) else t.num)
  }

  /** The table after an insertion, in terms of the offsets the code compares. */
  lemma InsertedAs(t: Table, k: nat, p: Part)
    requires Good(t) && k < |t.devs| && t.devs[k].numParts <= |t.devs[k].parts|
    ensures var d, i := t.devs[k], Slot(t.devs[k].parts, p.offset);
      if Clash(d.parts, p.offset) then Inserted(t, k, p) == t
      else Inserted(t, k, p) ==
             Linked(t, k, d.parts[..i] + [p] + d.parts[i..],
                    IsCurrentDev(t, k) && i < |d.parts| && d.parts[i].offset <= d.parts[t.num].offset)
    ensures t.devs[k].parts == [] ==> Inserted(t, k, p) == Linked(t, k, [p], false)
  {
    var d := t.devs[k];
    assert GoodDev(d);
    var i := Slot(d.parts, p.offset);
    if IsCurrentDev(t, k) && i < |d.parts| {
      SlotAtOrBefore(d.parts, p.offset, t.num);
    }
    hide Good, GoodDev, Slot, Sorted;
    if d.parts == [] {
      assert InsertAt(d.parts, i, p) == [p];
    }
  }

  // ----- the invariant -----

  lemma InsertKeepsSorted(parts: seq<Part>, p: Part)
    requires Sorted(parts)
    ensures Sorted(InsertAt(parts, Slot(parts, p.offset), p))
  {
    var i := Slot(parts, p.offset);
    hide Slot;
    var r := InsertAt(parts, i, p);
    assert forall j :: 0 <= j < i ==> r[j] == parts[j];
    assert r[i] == p;
    assert forall j :: i < j < |r| ==> r[j] == parts[j - 1];
    hide InsertAt;
    forall j, m | 0 <= j < m < |r|
      ensures r[j].offset <= r[m].offset
    {
      if j == i {
        assert p.offset <= parts[i].offset <= parts[m - 1].offset;
      }
    }
  }

  /** Comparing offsets tells whether the slot lies at or before the current partition. */
  lemma SlotAtOrBefore(parts: seq<Part>, offset: u32, num: nat)
    requires Sorted(parts) && num < |parts| && Slot(parts, offset) < |parts|
    ensures parts[Slot(parts, offset)].offset <= parts[num].offset <==> Slot(parts, offset) <= num
  {
    hide Slot;
  }

  lemma RemoveKeepsSorted(parts: seq<Part>, i: nat)
    requires Sorted(parts) && i < |parts|
    ensures Sorted(RemoveAt(parts, i))
  {
    var r := RemoveAt(parts, i);
    assert forall j :: 0 <= j < |r| ==> r[j] == if j < i then parts[j] else parts[j + 1];
  }

  /** Replacing the partitions of one device keeps the names, so every device is found where it was. */
  lemma ReplaceKeepsNames(devs: seq<Dev>, k: nat, d: Dev)
    requires UniqueNames(devs) && k < |devs| && d.Name() == devs[k].Name()
    ensures UniqueNames(devs[k := d])
    ensures forall key :: FindDev(devs[k := d], key) == FindDev(devs, key)
  {
    forall key
      ensures FindDev(devs[k := d], key) == FindDev(devs, key)
    {
      var a, b := FindDev(devs[k := d], key), FindDev(devs, key);
      assert forall j :: 0 <= j < |devs| ==> devs[k := d][j].Name() == devs[j].Name();
    }
  }

  lemma ReplaceIsGood(t: Table, k: nat, d: Dev, num: byte)
    requires Good(t) && k < |t.devs| && d.Name() == t.devs[k].Name() && GoodDev(d)
    ensures Good(Table(t.devs[k := d], t.cur, num))
  {
    ReplaceKeepsNames(t.devs, k, d);
  }

  lemma InsertedIsGood(t: Table, k: nat, p: Part)
    requires Good(t) && k < |t.devs|
    ensures Good(Inserted(t, k, p))
  {
    hide GoodDev, Sorted, Slot, InsertAt;
    var d := t.devs[k];
    var e := Dev(d.id, InsertAt(d.parts, Slot(d.parts, p.offset), p), (d.numParts + 1) % U16_LIMIT);
    GrownIsGood(d, p);
    ReplaceIsGood(t, k, e, Inserted(t, k, p).num);
    hide Good;
  }

  lemma GrownIsGood(d: Dev, p: Part)
    requires GoodDev(d)
    ensures GoodDev(Dev(d.id, InsertAt(d.parts, Slot(d.parts, p.offset), p), (d.numParts + 1) % U16_LIMIT))
  {
    InsertKeepsSorted(d.parts, p);
    hide Sorted, Slot;
    OneMore(|d.parts|);
  }

  lemma OneMore(n: nat)
    ensures (n % U16_LIMIT + 1) % U16_LIMIT == (n + 1) % U16_LIMIT
  {
  }

  lemma RemoveKeepsNames(devs: seq<Dev>, k: nat)
    requires UniqueNames(devs) && k < |devs|
    ensures UniqueNames(RemoveAt(devs, k))
  {
    var r := RemoveAt(devs, k);
    assert forall j :: 0 <= j < |r| ==> r[j] == if j < k then devs[j] else devs[j + 1];
  }

  lemma FoundBelow(devs: seq<Dev>, i: nat)
    requires i < |devs|
    ensures FindDev(devs, devs[i].Name()) < |devs|
  {
    hide FindDev;
  }

  lemma RemainingDevs(devs: seq<Dev>, k: nat)
    requires k < |devs|
    ensures var r := RemoveAt(devs, k);
            |r| == |devs| - 1 && forall j :: 0 <= j < |r| ==> r[j] == devs[if j < k then j else j + 1]
  {
  }

  lemma DevDeletedIsGood(t: Table, k: nat)
    requires Good(t) && k < |t.devs|
    ensures Good(DevDeleted(t, k))
  {
    hide GoodDev, FindDev, UniqueNames, RemoveAt;
    var devs := RemoveAt(t.devs, k);
    RemoveKeepsNames(t.devs, k);
    RemainingDevs(t.devs, k);
    if t.cur != Some(t.devs[k].Name()) {
      var f := FindDev(t.devs, t.cur.value);
      FoundBelow(devs, if f < k then f else f - 1);
    } else if devs != [] {
      FoundBelow(devs, 0);
    }
  }

  lemma DeletedIsGood(t: Table, k: nat, i: nat)
    requires Good(t) && k < |t.devs| && i < |t.devs[k].parts|
    ensures Good(Deleted(t, k, i))
  {
    var d := t.devs[k];
    if d.numParts == 1 {
      DevDeletedIsGood(t, k);
    } else {
      var e := Dev(d.id, RemoveAt(d.parts, i), (d.numParts - 1) % U16_LIMIT);
      RemoveKeepsSorted(d.parts, i);
      assert GoodDev(e);
      ReplaceIsGood(t, k, e, Deleted(t, k, i).num);
    }
  }

  lemma DevAddedIsGood(t: Table, d: Dev)
    requires Good(t) && GoodDev(d) && FindDev(t.devs, d.Name()) == |t.devs|
    ensures Good(DevAdded(t, d))
  {
    var devs := DevAdded(t, d).devs;
    assert forall j :: 0 <= j < |t.devs| ==> devs[j] == t.devs[j];
    if t.devs != [] {
      assert devs[FindDev(t.devs, t.cur.value)].Name() == t.cur.value;
    } else {
      assert devs[0].Name() == d.Name();
    }
  }

  // ----- runs of commands -----

  /** The commands; the partitions of a new device come sorted from device_parse. */
  datatype Op =
    | AddDevice(id: Id, parts: SortedParts)
    | AddPartition(key: Key, part: Part)
    | DelPartition(key: Key, i: nat)
    | ChangePart(key: Key, num: byte)
    | DelAll

  type SortedParts = parts: seq<Part> | Sorted(parts)

  ghost function Step(t: Table, op: Op): Table
    requires Good(t)
  {
    match op
    case AddDevice(id, parts) =>
      var d := Dev(id, parts, |parts| % U16_LIMIT);
      if parts == [] || FindDev(t.devs, d.Name()) < |t.devs| then t else DevAdded(t, d)
    case AddPartition(key, part) =>
      var k := FindDev(t.devs, key);
      if k == |t.devs| then t
      else
        var v := Validate(t.devs[k].id, part);
        if v.None? then t else Inserted(t, k, v.value)
    case DelPartition(key, i) =>
      var k := FindDev(t.devs, key);
      if k == |t.devs| || i >= t.devs[k].numParts then t
      else
        CountBound(t, k);
        Deleted(t, k, i)
    case ChangePart(key, num) =>
      var k := FindDev(t.devs, key);
      if k == |t.devs| || num >= t.devs[k].numParts then t else Table(t.devs, Some(key), num)
    case DelAll => Table([], None, t.num)
  }

  lemma StepIsGood(t: Table, op: Op)
    requires Good(t)
    ensures Good(Step(t, op))
  {
    hide Sorted, Validate;
    match op
    case AddDevice(id, parts) =>
      var d := Dev(id, parts, |parts| % U16_LIMIT);
      if FindDev(t.devs, d.Name()) == |t.devs| {
        assert GoodDev(d);
        DevAddedIsGood(t, d);
      }
    case AddPartition(key, part) =>
      var k := FindDev(t.devs, key);
      if k < |t.devs| && Validate(t.devs[k].id, part).Some? {
        InsertedIsGood(t, k, Validate(t.devs[k].id, part).value);
      }
    case DelPartition(key, i) =>
      var k := FindDev(t.devs, key);
      if k < |t.devs| {
        CountBound(t, k);
        if i < t.devs[k].numParts {
          DeletedIsGood(t, k, i);
        }
      }
    case ChangePart(key, num) =>
    case DelAll =>
  }

  // ----- the code -----

  class Mtd {
    var devices: seq<Dev>
    var currentMtdDev: Option<Key>
    var currentMtdPartnum: byte
    var mtddevnum: Option<nat>
    var mtddevname: Option<string>
    var partition: Option<(Key, byte)>

    ghost function T(): Table
      reads this
    {
      Table(devices, currentMtdDev, currentMtdPartnum)
    }

    /** The variables agree with the table. */
    ghost predicate Saved()
      requires Good(T())
      reads this
    {
      && mtddevnum == DevNum(T())
      && mtddevname == DevName(T())
      && partition == SavedPartition(currentMtdDev, currentMtdPartnum)
    }

    ghost predicate Valid()
      reads this
    {
      Good(T()) && Saved()
    }

    constructor ()
      ensures Valid() && devices == []
    {
      devices, currentMtdDev, currentMtdPartnum := [], None, 0;
      mtddevnum, mtddevname, partition := None, None, None;
    }

    /** mtd_part_info: walk the list to the partition of number `partNum`. */
    method PartInfo(k: nat, partNum: nat) returns (part: Option<Part>)
      requires k < |devices| && GoodDev(devices[k])
      ensures part == if partNum < devices[k].numParts then Some(devices[k].parts[partNum]) else None
    {
      var dev := devices[k];
      if partNum >= dev.numParts {
        return None;
      }
      var num := 0;
      for i := 0 to |dev.parts|
        invariant num == i <= partNum
      {
        if partNum == num {
          return Some(dev.parts[i]);
        }
        num := num + 1;
      }
      return None;
    }

    /** The loop of index_partitions: the device of name `key` and the number of partitions before it. */
    method CountTo(key: Key) returns (k: nat, count: nat)
      requires FindDev(devices, key) < |devices|
      ensures k == FindDev(devices, key) && count == CountBefore(devices, k) % U16_LIMIT
    {
      ghost var f := FindDev(devices, key);
      hide FindDev;
      k, count := 0, 0;
      while devices[k].Name() != key
        invariant k <= f && count == CountBefore(devices, k) % U16_LIMIT
        decreases f - k
      {
        count := (count + devices[k].numParts) % U16_LIMIT;
        k := k + 1;
      }
    }

    method IndexPartitions()
      requires Good(T())
      modifies this`mtddevnum, this`mtddevname
      ensures mtddevnum == DevNum(T()) && mtddevname == DevName(T())
      ensures Good(T())
      ensures old(partition) == SavedPartition(old(currentMtdDev), old(currentMtdPartnum)) ==> Valid()
    {
      if currentMtdDev.None? {
        mtddevnum, mtddevname := None, None;
        return;
      }
      hide Good, FindDev, CountBefore, GoodDev, DevNum, DevName;
      NumberAndName(T());
      var k, count := CountTo(currentMtdDev.value);
      mtddevnum := Some((count + currentMtdPartnum) % U16_LIMIT);
      var part := PartInfo(k, currentMtdPartnum);
      mtddevname := match part case None => None case Some(p) => Some(p.name);
    }

    method CurrentSave()
      requires Good(T())
      modifies this`mtddevnum, this`mtddevname, this`partition
      ensures Valid()
    {
      partition := SavedPartition(currentMtdDev, currentMtdPartnum);
      IndexPartitions();
    }

    /** The search loop of part_sort_add. */
    static method SearchSlot(parts: seq<Part>, offset: u32) returns (clash: bool, i: nat)
      ensures clash <==> Clash(parts, offset)
      ensures !clash ==> i == Slot(parts, offset)
    {
      i := 0;
      while i < |parts|
        invariant i <= Slot(parts, offset)
        invariant i > 0 ==> !Clash(parts, offset)
      {
        if offset == parts[i].offset && parts[i].offset == 0 {
          return true, i;
        }
        if offset <= parts[i].offset {
          return false, i;
        }
        i := i + 1;
      }
      clash := false;
    }

    /** Link the new partition in and count it; `moveUp` when the current partition moves up. */
    method Link(k: nat, parts: seq<Part>, moveUp: bool)
      requires Valid() && k < |devices| && Good(Linked(T(), k, parts, moveUp))
      modifies this
      ensures Valid() && T() == Linked(old(T()), k, parts, moveUp)
    {
      ghost var next := Linked(T(), k, parts, moveUp);
      hide Good, DevNum, DevName;
      devices := devices[k := devices[k].(parts := parts, numParts := (devices[k].numParts + 1) % U16_LIMIT)];
      if moveUp {
        currentMtdPartnum := Key8(currentMtdPartnum + 1);
        assert T() == next;
        CurrentSave();
      } else {
        assert T() == next;
        IndexPartitions();
      }
    }

    method PartSortAdd(k: nat, part: Part) returns (ok: bool)
      requires Valid() && k < |devices|
      modifies this
      ensures Valid()
      ensures T() == Inserted(old(T()), k, part)
      ensures ok <==> !Clash(old(devices)[k].parts, part.offset)
    {
      InsertedIsGood(T(), k, part);
      CountBound(T(), k);
      var dev := devices[k];
      assert GoodDev(dev);
      InsertedAs(T(), k, part);
      hide Good, Inserted, Slot, GoodDev, Linked, Mtd.Saved;
      if dev.parts == [] {
        Link(k, [part], false);
        return true;
      }
      var curr: Option<Part> := None;
      if currentMtdDev == Some(dev.Name()) {
        curr := PartInfo(k, currentMtdPartnum);
      }
      var clash, i := SearchSlot(dev.parts, part.offset);
      if clash {
        return false;
      }
      var moveUp := i < |dev.parts| && curr.Some? && dev.parts[i].offset <= curr.value.offset;
      Link(k, dev.parts[..i] + [part] + dev.parts[i..], moveUp);
      return true;
    }

    /** part_add: validate, then insert. */
    method PartAdd(k: nat, part: Part) returns (ok: bool)
      requires Valid() && k < |devices| && ValidId(devices[k].id)
      modifies this
      ensures Valid()
      ensures var v := Validate(old(devices)[k].id, part);
        && (v.None? ==> !ok && T() == old(T()))
        && (v.Some? ==> T() == Inserted(old(T()), k, v.value)
                        && (ok <==> !Clash(old(devices)[k].parts, v.value.offset)))
    {
      var v := PartValidate(devices[k].id, part);
      if v.None? {
        return false;
      }
      ok := PartSortAdd(k, v.value);
    }

    method DeviceDel(k: nat)
      requires Valid() && k < |devices|
      modifies this
      ensures Valid()
      ensures T() == DevDeleted(old(T()), k)
    {
      DevDeletedIsGood(T(), k);
      var dev := devices[k];
      devices := devices[..k] + devices[k + 1..];
      if currentMtdDev == Some(dev.Name()) {
        if devices == [] {
          currentMtdDev := None;
        } else {
          currentMtdDev := Some(devices[0].Name());
          currentMtdPartnum := 0;
        }
        CurrentSave();
        return;
      }
      IndexPartitions();
    }

    /** part_del: delete partition `i` of device `k`. */
    method PartDel(k: nat, i: nat)
      requires Valid() && k < |devices| && i < |devices[k].parts|
      modifies this
      ensures Valid()
      ensures T() == Deleted(old(T()), k, i)
    {
      ghost var next := Deleted(T(), k, i);
      DeletedIsGood(T(), k, i);
      CountBound(T(), k);
      var dev := devices[k];
      assert GoodDev(dev);
      hide Good, DevNum, DevName, GoodDev, DevDeleted;
      if dev.numParts == 1 {
        DeviceDel(k);
        return;
      }
      var saveNeeded := false;
      if currentMtdDev == Some(dev.Name()) {
        var curr := PartInfo(k, currentMtdPartnum);
        if curr.Some? {
          if currentMtdPartnum == i {
            currentMtdPartnum := 0;
          } else if dev.parts[i].offset <= curr.value.offset {
            currentMtdPartnum := Key8(currentMtdPartnum - 1);
          }
          saveNeeded := true;
        }
      }
      devices := devices[k := dev.(parts := dev.parts[..i] + dev.parts[i + 1..],
                                   numParts := (dev.numParts - 1) % U16_LIMIT)];
      assert T() == next;
      if saveNeeded {
        CurrentSave();
      } else {
        IndexPartitions();
      }
    }

    method DeviceAdd(dev: Dev)
      requires Valid() && GoodDev(dev) && FindDev(devices, dev.Name()) == |devices|
      modifies this
      ensures Valid()
      ensures T() == DevAdded(old(T()), dev)
    {
      DevAddedIsGood(T(), dev);
      hide Good, DevNum, DevName, GoodDev, FindDev;
      var saveNeeded := false;
      if devices == [] {
        currentMtdDev, currentMtdPartnum := Some(dev.Name()), 0;
        saveNeeded := true;
      }
      devices := devices + [dev];
      if saveNeeded {
        CurrentSave();
      } else {
        IndexPartitions();
      }
    }

    /** The last steps of chpart, for a device and partition that were found. */
    method ChPart(k: nat, pnum: byte)
      requires Valid() && k < |devices| && pnum < devices[k].numParts
      modifies this
      ensures Valid()
      ensures T() == Table(old(devices), Some(old(devices)[k].Name()), pnum)
    {
      FindAt(devices, k);
      currentMtdDev, currentMtdPartnum := Some(devices[k].Name()), pnum;
      CurrentSave();
    }

    method DeviceFind(key: Key) returns (k: nat)
      ensures k == FindDev(devices, key)
    {
      k := 0;
      while k < |devices|
        invariant k <= FindDev(devices, key)
      {
        if devices[k].Name() == key {
          return;
        }
        k := k + 1;
      }
    }

    /** One command; a device or partition that is not found, or is there already, changes nothing. */
    method Perform(op: Op)
      requires Valid()
      requires op.AddPartition? ==> forall k :: 0 <= k < |devices| ==> ValidId(devices[k].id)
      modifies this
      ensures Valid()
      ensures T() == Step(old(T()), op)
    {
      match op
      case AddDevice(id, parts) =>
        if parts != [] {
          var dev := Dev(id, parts, |parts| % U16_LIMIT);
          var k := DeviceFind(dev.Name());
          if k == |devices| {
            DeviceAdd(dev);
          }
        }
      case AddPartition(key, part) =>
        var k := DeviceFind(key);
        if k < |devices| {
          var _ := PartAdd(k, part);
        }
      case DelPartition(key, i) =>
        var k := DeviceFind(key);
        if k < |devices| {
          CountBound(T(), k);
          if i < devices[k].numParts {
            PartDel(k, i);
          }
        }
      case ChangePart(key, i) =>
        var k := DeviceFind(key);
        if k < |devices| && i < devices[k].numParts {
          ChPart(k, i);
        }
      case DelAll =>
        DevicesInit();
    }

    /** mtd_devices_init, the effect of "mtdparts delall". */
    method DevicesInit()
      requires Valid()
      modifies this
      ensures Valid() && T() == Table([], None, old(currentMtdPartnum))
    {
      currentMtdDev := None;
      devices := [];
      CurrentSave();
    }
  }
}
