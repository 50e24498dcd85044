/** device_parse and parse_mtdparts of cmd_mtdparts.c, and the round trip with generate_mtdparts. */
module MtdParse {
  import opened CTypes
  import opened MtdValidate
  import opened MtdNumbers
  import opened MtdText

  // ----- lists -----

  /** part_sort_add on the list alone: insert by ascending offset, only one partition at offset 0. */
  function SortAdd(parts: seq<Part>, p: Part): Option<seq<Part>> {
    if parts == [] then Some([p])
    else if p.offset == parts[0].offset && parts[0].offset == 0 then None
    else if p.offset <= parts[0].offset then Some([p] + parts)
    else match SortAdd(parts[1..], p)
      case None => None
      case Some(rest) => Some([parts[0]] + rest)
  }

  ghost function SortAll(parts: seq<Part>): Option<seq<Part>> {
    if parts == [] then Some([])
    else match SortAll(parts[..|parts| - 1])
      case None => None
      case Some(sorted) => SortAdd(sorted, parts[|parts| - 1])
  }

  method SortAddTo(parts: seq<Part>, p: Part) returns (r: Option<seq<Part>>)
    ensures r == SortAdd(parts, p)
  {
    var i := 0;
    assert parts[0..] == parts && forall t: seq<Part> :: parts[..0] + t == t;
    while i < |parts|
      invariant 0 <= i <= |parts|
      invariant SortAdd(parts, p) == (match SortAdd(parts[i..], p)
                                      case None => None
                                      case Some(rest) => Some(parts[..i] + rest))
    {
      assert parts[i..][1..] == parts[i + 1..];
      if p.offset == parts[i].offset && parts[i].offset == 0 {
        return None;
      }
      if p.offset <= parts[i].offset {
        return Some(parts[..i] + ([p] + parts[i..]));
      }
      assert forall t: seq<Part> :: parts[..i] + ([parts[i]] + t) == parts[..i + 1] + t;
      i := i + 1;
    }
    assert parts[..i] == parts && parts[i..] == [];
    return Some(parts + [p]);
  }

  function FindId(ids: seq<Id>, mtdId: string): Option<Id> {
    if ids == [] then None else if ids[0].mtdId == mtdId then Some(ids[0]) else FindId(ids[1..], mtdId)
  }

  predicate SameDevice(a: Id, b: Id) {
    a.devType == b.devType && a.num == b.num
  }

  function FindDevice(ds: seq<Device>, id: Id): Option<Device> {
    if ds == [] then None else if SameDevice(ds[0].id, id) then Some(ds[0]) else FindDevice(ds[1..], id)
  }

  /** Where partitions without an offset go first: behind those the device already has. */
  function StartOffset(ds: seq<Device>, id: Id): u32 {
    match FindDevice(ds, id)
    case None => 0
    case Some(d) => if d.parts == [] then 0 else Wrap32(d.parts[|d.parts| - 1].offset + d.parts[|d.parts| - 1].size)
  }

  // ----- the parser of one device -----

  /** One turn of the loop: parse, settle the offset, validate. */
  ghost function ParseOne(id: Id, offset: u32, s: string): Option<(Part, string)> {
    match ParsePart(s)
    case None => None
    case Some((p, rest)) =>
      match Validate(id, if p.offset == OFFSET_NOT_SPECIFIED then p.(offset := offset) else p)
      case None => None
      case Some(v) => Some((v, rest))
  }

  lemma OneShrinks(id: Id, offset: u32, s: string)
    ensures ParseOne(id, offset, s).Some? ==> |ParseOne(id, offset, s).value.1| < |s|
  {
    PartShrinks(s);
  }

  ghost function ParseParts(id: Id, offset: u32, done: seq<Part>, s: string): Option<(seq<Part>, string)>
    decreases |s|
  {
    if s == [] || s[0] == ';' then Some((done, s))
    else
      OneShrinks(id, offset, s);
      match ParseOne(id, offset, s)
      case None => None
      case Some((v, rest)) => ParseParts(id, Wrap32(v.offset + v.size), done + [v], rest)
  }

  ghost function ParseDevice(ids: seq<Id>, ds: seq<Device>, s: string): Option<(Device, string)> {
    match SplitAt(s, ':')
    case None => None
    case Some((mtdId, text)) =>
      match FindId(ids, mtdId)
      case None => None
      case Some(id) =>
        match ParseParts(id, StartOffset(ds, id), [], text)
        case None => None
        case Some((parts, rest)) =>
          if parts == [] then None
          else match SortAll(parts)
            case None => None
            case Some(sorted) => Some((Device(id, sorted), if rest == [] then rest else rest[1..]))
  }

  lemma {:induction false} PartsShrink(id: Id, offset: u32, done: seq<Part>, s: string)
    ensures ParseParts(id, offset, done, s).Some? ==>
              var rest := ParseParts(id, offset, done, s).value.1; |rest| <= |s| && (rest == [] || rest[0] == ';')
    decreases |s|
  {
    hide ParseOne, Validate;
    if s != [] && s[0] != ';' && ParseOne(id, offset, s).Some? {
      OneShrinks(id, offset, s);
      var (v, rest) := ParseOne(id, offset, s).value;
      PartsShrink(id, Wrap32(v.offset + v.size), done + [v], rest);
    }
  }

  lemma {:induction false} DeviceShrinks(ids: seq<Id>, ds: seq<Device>, s: string)
    ensures ParseDevice(ids, ds, s).Some? ==> |ParseDevice(ids, ds, s).value.1| < |s|
  {
    SplitShrinks(s, ':');
    if SplitAt(s, ':').Some? {
      var (mtdId, text) := SplitAt(s, ':').value;
      if FindId(ids, mtdId).Some? {
        var id := FindId(ids, mtdId).value;
        PartsShrink(id, StartOffset(ds, id), [], text);
      }
    }
  }

  ghost predicate ValidIds(ids: seq<Id>) {
    forall i :: 0 <= i < |ids| ==> ValidId(ids[i])
  }

  lemma {:induction false} FoundIdIsValid(ids: seq<Id>, mtdId: string)
    requires ValidIds(ids)
    ensures FindId(ids, mtdId).Some? ==> ValidId(FindId(ids, mtdId).value)
  {
    if ids != [] {
      FoundIdIsValid(ids[1..], mtdId);
    }
  }

  method ReadOne(id: Id, offset: u32, s: string) returns (r: Option<(Part, string)>)
    requires ValidId(id)
    ensures r == ParseOne(id, offset, s)
  {
    var parsed := PartParse(s);
    if parsed.None? {
      return None;
    }
    var (part, rest) := parsed.value;
    if part.offset == OFFSET_NOT_SPECIFIED {
      part := part.(offset := offset);
    }
    var v := PartValidate(id, part);
    r := if v.None? then None else Some((v.value, rest));
  }

  /** The loop of device_parse over its partitions. */
  method ReadParts(id: Id, start: u32, s: string) returns (r: Option<(seq<Part>, string)>)
    requires ValidId(id)
    ensures r == ParseParts(id, start, [], s)
  {
    hide ParseOne, Validate;
    var p := s;
    var offset: u32 := start;
    var tmpList: seq<Part> := [];
    while p != [] && p[0] != ';'
      invariant ParseParts(id, start, [], s) == ParseParts(id, offset, tmpList, p)
      decreases |p|
    {
      OneShrinks(id, offset, p);
      var parsed := ReadOne(id, offset, p);
      if parsed.None? {
        return None;
      }
      var (part, rest) := parsed.value;
      offset := Wrap32(part.offset + part.size);
      tmpList := tmpList + [part];
      p := rest;
    }
    return Some((tmpList, p));
  }

  /** The loop that moves the parsed partitions into the device. */
  method SortParts(parts: seq<Part>) returns (r: Option<seq<Part>>)
    ensures r == SortAll(parts)
  {
    var sorted: seq<Part> := [];
    for i := 0 to |parts|
      invariant SortAll(parts[..i]) == Some(sorted)
    {
      assert parts[..i + 1][..i] == parts[..i];
      var more := SortAddTo(sorted, parts[i]);
      if more.None? {
        SortFails(parts, i + 1);
        return None;
      }
      sorted := more.value;
    }
    assert parts[..|parts|] == parts;
    return Some(sorted);
  }

  lemma {:induction false} SortFails(parts: seq<Part>, k: nat)
    requires k <= |parts| && SortAll(parts[..k]) == None
    ensures SortAll(parts) == None
    decreases |parts| - k
  {
    if k < |parts| {
      assert parts[..k + 1][..k] == parts[..k];
      SortFails(parts, k + 1);
    } else {
      assert parts[..k] == parts;
    }
  }

  method DeviceParse(ids: seq<Id>, ds: seq<Device>, s: string) returns (r: Option<(Device, string)>)
    requires ValidIds(ids)
    ensures r == ParseDevice(ids, ds, s)
  {
    var found, i := StrChr(s, ':');
    if !found {
      return None;
    }
    FoundIdIsValid(ids, s[..i]);
    var id := FindId(ids, s[..i]);
    if id.None? {
      return None;
    }
    var parsed := ReadParts(id.value, StartOffset(ds, id.value), s[i + 1..]);
    if parsed.None? || parsed.value.0 == [] {
      return None;
    }
    var (parts, rest) := parsed.value;
    var sorted := SortParts(parts);
    if sorted.None? {
      return None;
    }
    return Some((Device(id.value, sorted.value), if rest == [] then rest else rest[1..]));
  }

  // ----- the whole variable -----

  ghost function ParseDevices(ids: seq<Id>, ds: seq<Device>, s: string): Option<seq<Device>>
    decreases |s|
  {
    if s == [] then Some(ds)
    else
      DeviceShrinks(ids, ds, s);
      match ParseDevice(ids, ds, s)
      case None => None
      case Some((d, rest)) =>
        if FindDevice(ds, d.id).Some? then None else ParseDevices(ids, ds + [d], rest)
  }

  ghost function Parse(ids: seq<Id>, s: string): Option<seq<Device>> {
    if |s| <= 9 || s[..9] != "mtdparts=" then None else ParseDevices(ids, [], s[9..])
  }

  /** parse_mtdparts */
  method ParseMtdparts(ids: seq<Id>, s: string) returns (r: Option<seq<Device>>)
    requires ValidIds(ids)
    ensures r == Parse(ids, s)
  {
    if |s| < 9 || s[..9] != "mtdparts=" {
      return None;
    }
    var p := s[9..];
    var devices: seq<Device> := [];
    var err := true;
    while p != []
      invariant err <==> devices == [] && p == s[9..]
      invariant err || |s| > 9
      invariant ParseDevices(ids, [], s[9..]) == ParseDevices(ids, devices, p)
      decreases |p|
    {
      DeviceShrinks(ids, devices, p);
      var parsed := DeviceParse(ids, devices, p);
      if parsed.None? {
        return None;
      }
      var (dev, rest) := parsed.value;
      if FindDevice(devices, dev.id).Some? {
        return None;
      }
      devices := devices + [dev];
      p := rest;
      err := false;
    }
    if err {
      return None;
    }
    return Some(devices);
  }
}
