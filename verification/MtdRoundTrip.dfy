/** parse_mtdparts undoes generate_mtdparts. The exception is a partition of 0xFFFFFFFF bytes that is
    not the last of its device: its size is printed like any other and read back as SIZE_REMAINING. */
module MtdRoundTrip {
  import opened CTypes
  import opened MtdValidate
  import opened MtdNumbers
  import opened MtdText
  import opened MtdParse

  // ----- what a table must satisfy, and what is rebuilt -----

  ghost predicate PrintableName(p: Part) {
    p.autoName || (p.name != [] && ')' !in p.name)
  }

  /** A partition that passed part_parse and part_validate: its size is settled. */
  ghost predicate Settled(id: Id, p: Part) {
    Validate(id, p) == Some(p) && p.size >= MIN_PART_SIZE && PrintableName(p)
  }

  ghost predicate ValidDevice(ids: seq<Id>, d: Device) {
    && FindId(ids, d.id.mtdId) == Some(d.id)
    && ':' !in d.id.mtdId
    && d.parts != []
    && (forall i :: 0 <= i < |d.parts| ==> Settled(d.id, d.parts[i]))
    && Rising(d.parts)
  }

  ghost predicate Distinct(ds: seq<Device>) {
    forall i, j :: 0 <= i < j < |ds| ==> !SameDevice(ds[i].id, ds[j].id)
  }

  ghost predicate ValidTable(ids: seq<Id>, ds: seq<Device>) {
    && ds != []
    && (forall i :: 0 <= i < |ds| ==> ValidDevice(ids, ds[i]))
    && Distinct(ds)
  }

  /** Equal up to the text of an automatic name. */
  ghost predicate SamePart(p: Part, q: Part) {
    p.(name := q.name) == q && (!p.autoName ==> p.name == q.name)
  }

  ghost predicate SameParts(a: seq<Part>, b: seq<Part>) {
    |a| == |b| && forall i :: 0 <= i < |a| ==> SamePart(a[i], b[i])
  }

  ghost predicate SameTable(a: seq<Device>, b: seq<Device>) {
    |a| == |b| && forall i :: 0 <= i < |a| ==> a[i].id == b[i].id && SameParts(a[i].parts, b[i].parts)
  }

  /** No partition but the last has the size that stands for all remaining space. */
  ghost predicate NoFullPart(parts: seq<Part>) {
    forall i :: 0 <= i < |parts| - 1 ==> parts[i].size != SIZE_REMAINING
  }

  ghost predicate NoFullParts(ds: seq<Device>) {
    forall i :: 0 <= i < |ds| ==> NoFullPart(ds[i].parts)
  }

  ghost function WrittenOffset(prev: Option<Part>, p: Part): u32 {
    if HasGap(prev, p) then p.offset else OFFSET_NOT_SPECIFIED
  }

  /** The partition read back: an automatic name is made from the size and offset as written. */
  ghost function Rebuilt(prev: Option<Part>, p: Part): (q: Part)
    ensures SamePart(p, q)
  {
    if p.autoName then p.(name := AutoName(p.size, WrittenOffset(prev, p))) else p
  }

  ghost function RebuiltParts(prev: Option<Part>, parts: seq<Part>): (r: seq<Part>)
    ensures SameParts(parts, r)
    decreases parts
  {
    if parts == [] then [] else [Rebuilt(prev, parts[0])] + RebuiltParts(Some(parts[0]), parts[1..])
  }

  ghost function RebuiltDevices(ds: seq<Device>): (r: seq<Device>)
    ensures SameTable(ds, r)
  {
    if ds == [] then [] else [Device(ds[0].id, RebuiltParts(None, ds[0].parts))] + RebuiltDevices(ds[1..])
  }

  // ----- one partition, piece by piece -----

  lemma FormatStartsWithDigit(size: u32)
    ensures MemsizeFormat(size) != [] && IsDigit(MemsizeFormat(size)[0], 10)
  {
    var n, unit, suffix := FormatForms(size);
    DecimalIsDecimal(n);
    assert MemsizeFormat(size)[0] == Decimal(n)[0];
  }

  ghost predicate Delimits(t: string) {
    t == [] || t[0] == '@' || t[0] == '(' || t[0] == 'r' || t[0] == ';' || t[0] == ','
  }

  lemma DelimiterEndsNumber(t: string)
    requires Delimits(t)
    ensures EndsNumber(t)
  {
  }

  lemma ReadsSize(size: u32, r: string)
    requires size >= MIN_PART_SIZE && Delimits(r)
    ensures ParseSize(MemsizeFormat(size) + r) == Some((size, r))
  {
    DelimiterEndsNumber(r);
    MemsizeRoundTrip(size, r);
    FormatStartsWithDigit(size);
    hide MemsizeFormat, MemsizeParse;
    assert (MemsizeFormat(size) + r)[0] == MemsizeFormat(size)[0];
  }

  function OffsetText(gap: bool, offset: u32): string {
    if gap then "@" + MemsizeFormat(offset) else ""
  }

  lemma ReadsOffset(gap: bool, offset: u32, r: string)
    requires Delimits(r) && (r == [] || r[0] != '@')
    ensures ParseOffset(OffsetText(gap, offset) + r) == Parsed(if gap then offset else OFFSET_NOT_SPECIFIED, r)
  {
    hide MemsizeFormat, MemsizeParse, EndsNumber;
    DelimiterEndsNumber(r);
    if gap {
      MemsizeRoundTrip(offset, r);
      DropFirst('@', MemsizeFormat(offset), r);
    } else {
      assert "" + r == r;
    }
  }

  lemma DropFirst(c: char, a: string, r: string)
    ensures var s := [c] + a + r; s[0] == c && s[1..] == a + r
  {
  }

  lemma {:induction false} SplitsAtFirst(before: string, c: char, after: string)
    requires c !in before
    ensures SplitAt(before + [c] + after, c) == Some((before, after))
  {
    var s := before + [c] + after;
    if before == [] {
      assert s[1..] == after;
    } else {
      assert s[1..] == before[1..] + [c] + after;
      SplitsAtFirst(before[1..], c, after);
      assert [before[0]] + before[1..] == before;
    }
  }

  function NameText(p: Part): string {
    if p.autoName then "" else "(" + p.name + ")"
  }

  lemma ReadsName(p: Part, r: string)
    requires PrintableName(p) && (r == [] || r[0] != '(')
    ensures ParseName(NameText(p) + r) == Some((if p.autoName then None else Some(p.name), r))
  {
    if p.autoName {
      assert "" + r == r;
    } else {
      SplitsAtFirst(p.name, ')', r);
      assert (NameText(p) + r)[1..] == p.name + ")" + r;
    }
  }

  function FlagText(readOnly: bool): string {
    if readOnly then "ro" else ""
  }

  lemma ReadsFlag(readOnly: bool, r: string)
    requires r == [] || r[0] != 'r'
    ensures ParseFlag(FlagText(readOnly) + r) == (readOnly, r)
  {
    if readOnly {
      assert ("ro" + r)[2..] == r;
    } else {
      assert "" + r == r;
    }
  }

  /** What follows a partition: nothing, the next device or the next partition. */
  ghost predicate EndsPart(t: string) {
    t == [] || t[0] == ';' || t[0] == ','
  }

  lemma {:induction false} PartPieces(prev: Option<Part>, p: Part, t: string)
    ensures PartText(prev, p) + t
         == MemsizeFormat(p.size) + (OffsetText(HasGap(prev, p), p.offset) + (NameText(p) + (FlagText(p.readOnly) + t)))
  {
    hide MemsizeFormat, HasGap;
    var a, b, c, d := MemsizeFormat(p.size), OffsetText(HasGap(prev, p), p.offset), NameText(p), FlagText(p.readOnly);
    assert PartText(prev, p) == a + b + c + d;
    assert (a + b + c + d) + t == a + (b + (c + (d + t)));
  }

  /** part_parse undoes the printing of one partition, except for the size 0xFFFFFFFF before a comma. */
  lemma PartRoundTrip(prev: Option<Part>, p: Part, t: string)
    requires p.size >= MIN_PART_SIZE && PrintableName(p) && EndsPart(t)
    ensures ParsePart(PartText(prev, p) + t) ==
              if t != [] && t[0] == ',' then
                if p.size == SIZE_REMAINING then None
                else Some((Rebuilt(prev, p).(offset := WrittenOffset(prev, p)), t[1..]))
              else Some((Rebuilt(prev, p).(offset := WrittenOffset(prev, p)), t))
  {
    hide MemsizeFormat, HasGap, PartText, ParseSize, ParseOffset, ParseName, ParseFlag, AutoName;
    PartPieces(prev, p, t);
    var d := FlagText(p.readOnly) + t;
    var c := NameText(p) + d;
    var b := OffsetText(HasGap(prev, p), p.offset) + c;
    Delimiters(p, HasGap(prev, p), t);
    hide Delimits, OffsetText, NameText, FlagText, PrintableName;
    ReadsSize(p.size, b);
    ReadsOffset(HasGap(prev, p), p.offset, c);
    ReadsName(p, d);
    ReadsFlag(p.readOnly, t);
  }

  lemma Delimiters(p: Part, gap: bool, t: string)
    requires EndsPart(t)
    ensures t == [] || t[0] != 'r'
    ensures var d := FlagText(p.readOnly) + t;
      var c := NameText(p) + d;
      && (d == [] || d[0] != '(')
      && (c == [] || c[0] != '@') && Delimits(c)
      && Delimits(OffsetText(gap, p.offset) + c)
  {
    hide MemsizeFormat;
    var d := FlagText(p.readOnly) + t;
    assert d == [] || d[0] == 'r' || d[0] == ';' || d[0] == ',';
    var c := NameText(p) + d;
    assert c == [] || c[0] == '(' || c[0] == 'r' || c[0] == ';' || c[0] == ',';
  }

  // ----- the partitions of one device -----

  /** Where the parser expects the partition after `prev`. */
  ghost function NextOffset(prev: Option<Part>): u32 {
    match prev
    case None => 0
    case Some(q) => Wrap32(q.offset + q.size)
  }

  lemma SettledOffset(id: Id, p: Part)
    requires Settled(id, p)
    ensures p.offset != OFFSET_NOT_SPECIFIED
  {
    AcceptedIff(id, p);
  }

  /** The name of a partition plays no part in its validation. */
  lemma ValidateRebuilt(id: Id, prev: Option<Part>, p: Part)
    requires Settled(id, p)
    ensures Validate(id, Rebuilt(prev, p)) == Some(Rebuilt(prev, p))
  {
    hide Aligned, AutoName;
    AcceptedIff(id, p);
    AcceptedIff(id, Rebuilt(prev, p));
  }

  /** One turn of the loop of device_parse. */
  lemma OneRoundTrip(id: Id, prev: Option<Part>, p: Part, t: string)
    requires Settled(id, p) && EndsPart(t)
    ensures ParseOne(id, NextOffset(prev), PartText(prev, p) + t) ==
              if t != [] && t[0] == ',' then
                if p.size == SIZE_REMAINING then None else Some((Rebuilt(prev, p), t[1..]))
              else Some((Rebuilt(prev, p), t))
  {
    SettledOffset(id, p);
    PartRoundTrip(prev, p, t);
    ValidateRebuilt(id, prev, p);
    hide Validate, PartText, ParsePart, AutoName;
  }

  lemma PartTextStart(prev: Option<Part>, p: Part)
    ensures PartText(prev, p) != [] && IsDigit(PartText(prev, p)[0], 10)
  {
    FormatStartsWithDigit(p.size);
    hide MemsizeFormat, HasGap;
    assert PartText(prev, p)[0] == MemsizeFormat(p.size)[0];
  }

  lemma {:induction false} PartsRoundTrip(id: Id, done: seq<Part>, prev: Option<Part>, parts: seq<Part>, t: string)
    requires forall i :: 0 <= i < |parts| ==> Settled(id, parts[i])
    requires t == [] || t[0] == ';'
    ensures ParseParts(id, NextOffset(prev), done, PartsText(prev, parts) + t) ==
              if NoFullPart(parts) then Some((done + RebuiltParts(prev, parts), t)) else None
    decreases |parts|
  {
    hide Settled, ParseOne, PartText, Rebuilt, NoFullPart, PartsText, SameParts, SamePart, NextOffset;
    if parts == [] {
      NoParts(prev, t);
      assert done + [] == done;
    } else {
      var p, rest := parts[0], parts[1..];
      assert forall i :: 0 <= i < |rest| ==> rest[i] == parts[i + 1];
      var q := Rebuilt(prev, p);
      var more := PartsText(Some(p), rest) + t;
      FirstRoundTrip(id, prev, parts, t);
      NoFullStep(parts);
      if |parts| == 1 || p.size != SIZE_REMAINING {
        PartsRoundTrip(id, done + [q], Some(p), rest, t);
        assert done + RebuiltParts(prev, parts) == (done + [q]) + RebuiltParts(Some(p), rest);
      }
    }
  }

  lemma NoParts(prev: Option<Part>, t: string)
    ensures PartsText(prev, []) + t == t
    ensures NoFullPart([])
  {
    assert "" + t == t;
  }

  lemma NoFullStep(parts: seq<Part>)
    requires parts != []
    ensures NoFullPart(parts) <==> (|parts| > 1 ==> parts[0].size != SIZE_REMAINING) && NoFullPart(parts[1..])
  {
    assert forall i :: 0 < i < |parts| - 1 ==> parts[i] == parts[1..][i - 1];
  }

  /** The first turn of the loop over the text of `parts`. */
  lemma FirstRoundTrip(id: Id, prev: Option<Part>, parts: seq<Part>, t: string)
    requires parts != [] && Settled(id, parts[0])
    requires t == [] || t[0] == ';'
    ensures var s, p, q := PartsText(prev, parts) + t, parts[0], Rebuilt(prev, parts[0]);
      && s != [] && s[0] != ';'
      && ParseOne(id, NextOffset(prev), s) ==
           (if |parts| > 1 && p.size == SIZE_REMAINING then None
            else Some((q, PartsText(Some(p), parts[1..]) + t)))
      && Wrap32(q.offset + q.size) == NextOffset(Some(p))
  {
    hide Settled, ParseOne, PartText, AutoName, HasGap;
    var p, rest := parts[0], parts[1..];
    var more := PartsText(Some(p), rest) + t;
    var tail := (if |parts| > 1 then "," else "") + more;
    PartsSplit(prev, parts, t);
    if |parts| == 1 {
      NoParts(Some(p), t);
      assert tail == t;
    } else {
      assert tail[1..] == more;
    }
    OneRoundTrip(id, prev, p, tail);
    PartTextStart(prev, p);
    assert (PartText(prev, p) + tail)[0] == PartText(prev, p)[0];
  }

  lemma PartsSplit(prev: Option<Part>, parts: seq<Part>, t: string)
    requires parts != []
    ensures PartsText(prev, parts) + t
         == PartText(prev, parts[0]) + ((if |parts| > 1 then "," else "") + (PartsText(Some(parts[0]), parts[1..]) + t))
  {
    hide PartText;
    var b, c := if |parts| > 1 then "," else "", PartsText(Some(parts[0]), parts[1..]);
    Regroup4(PartText(prev, parts[0]), b, c, t);
  }

  lemma Regroup4(a: string, b: string, c: string, t: string)
    ensures (a + b + c) + t == a + (b + (c + t))
  {
  }

  // ----- one device -----

  lemma {:induction false} SortAddLast(parts: seq<Part>, p: Part)
    requires forall i :: 0 <= i < |parts| ==> parts[i].offset < p.offset
    ensures SortAdd(parts, p) == Some(parts + [p])
  {
    if parts == [] {
      assert parts + [p] == [p];
    } else {
      SortAddLast(parts[1..], p);
      assert parts + [p] == [parts[0]] + (parts[1..] + [p]);
    }
  }

  /** Partitions that arrive in order stay in order. */
  lemma {:induction false} SortAllSorted(parts: seq<Part>)
    requires Rising(parts)
    ensures SortAll(parts) == Some(parts)
  {
    if parts != [] {
      var n := |parts| - 1;
      SortAllSorted(parts[..n]);
      SortAddLast(parts[..n], parts[n]);
      assert parts[..n] + [parts[n]] == parts;
    }
  }

  lemma {:induction false} NoSuchDevice(ds: seq<Device>, id: Id)
    requires forall i :: 0 <= i < |ds| ==> !SameDevice(ds[i].id, id)
    ensures FindDevice(ds, id) == None && StartOffset(ds, id) == 0
  {
    if ds != [] {
      NoSuchDevice(ds[1..], id);
    }
  }

  lemma DeviceRoundTrip(ids: seq<Id>, done: seq<Device>, d: Device, t: string)
    requires ValidDevice(ids, d) && (t == [] || t[0] == ';')
    requires forall i :: 0 <= i < |done| ==> !SameDevice(done[i].id, d.id)
    ensures ParseDevice(ids, done, DeviceText(d) + t) ==
              if NoFullPart(d.parts) then
                Some((Device(d.id, RebuiltParts(None, d.parts)), if t == [] then t else t[1..]))
              else None
  {
    var text, parts := PartsText(None, d.parts) + t, RebuiltParts(None, d.parts);
    hide DeviceText, PartsText, ParseParts, RebuiltParts, SortAll, FindId, FindDevice, StartOffset, Settled, SplitAt,
         NoFullPart;
    DeviceTextIs(d, t);
    SplitsAtFirst(d.id.mtdId, ':', text);
    NoSuchDevice(done, d.id);
    PartsRoundTrip(d.id, [], None, d.parts, t);
    assert [] + parts == parts;
    SameRising(d.parts, parts);
    hide Rising, SameParts;
    SortAllSorted(parts);
  }

  lemma DeviceTextIs(d: Device, t: string)
    ensures DeviceText(d) + t == d.id.mtdId + [':'] + (PartsText(None, d.parts) + t)
  {
    hide PartsText;
    assert (d.id.mtdId + ":" + PartsText(None, d.parts)) + t == d.id.mtdId + ":" + (PartsText(None, d.parts) + t);
  }

  lemma SameRising(a: seq<Part>, b: seq<Part>)
    requires SameParts(a, b) && Rising(a)
    ensures Rising(b)
  {
    assert forall i :: 0 <= i < |a| ==> SamePart(a[i], b[i]);
  }

  // ----- the whole variable -----

  lemma DevicesSplit(ds: seq<Device>)
    requires ds != []
    ensures DevicesText(ds) == DeviceText(ds[0]) + if |ds| > 1 then ";" + DevicesText(ds[1..]) else ""
    ensures DevicesText(ds) != []
  {
    DeviceTextSome(ds[0]);
    hide DeviceText;
    if |ds| == 1 {
      Regroup3(DeviceText(ds[0]), "", DevicesText(ds[1..]));
    } else {
      Regroup3(DeviceText(ds[0]), ";", DevicesText(ds[1..]));
    }
  }

  lemma Regroup3(a: string, b: string, c: string)
    ensures a + b + c == a + (b + c)
    ensures |a + (b + c)| >= |a|
  {
  }

  lemma DeviceTextSome(d: Device)
    ensures DeviceText(d) != []
  {
  }

  lemma {:induction false} DevicesRoundTrip(ids: seq<Id>, done: seq<Device>, ds: seq<Device>)
    requires forall i :: 0 <= i < |ds| ==> ValidDevice(ids, ds[i])
    requires Distinct(ds) && Apart(done, ds)
    ensures ParseDevices(ids, done, DevicesText(ds)) ==
              if NoFullParts(ds) then Some(done + RebuiltDevices(ds)) else None
    decreases |ds|
  {
    hide ValidDevice, DeviceText, ParseDevice, RebuiltParts, FindDevice, NoFullParts, NoFullPart, Distinct, Apart,
         DevicesText;
    if ds == [] {
      NoDevices();
      assert done + [] == done;
    } else {
      var d, rest := ds[0], ds[1..];
      FirstDevice(ids, done, ds);
      NoFullDevice(ds);
      if NoFullPart(d.parts) {
        var e := Device(d.id, RebuiltParts(None, d.parts));
        ApartStep(done, e, ds);
        DevicesRoundTrip(ids, done + [e], rest);
        assert done + RebuiltDevices(ds) == (done + [e]) + RebuiltDevices(rest);
      }
    }
  }

  ghost predicate Apart(done: seq<Device>, ds: seq<Device>) {
    forall i, j :: 0 <= i < |done| && 0 <= j < |ds| ==> !SameDevice(done[i].id, ds[j].id)
  }

  lemma ApartStep(done: seq<Device>, e: Device, ds: seq<Device>)
    requires ds != [] && e.id == ds[0].id && Apart(done, ds) && Distinct(ds)
    ensures Apart(done + [e], ds[1..]) && Distinct(ds[1..])
  {
    hide SameDevice;
    assert forall j :: 0 <= j < |ds[1..]| ==> ds[1..][j] == ds[j + 1];
  }

  lemma NoDevices()
    ensures DevicesText([]) == "" && NoFullParts([])
  {
  }

  lemma NoFullDevice(ds: seq<Device>)
    requires ds != []
    ensures NoFullParts(ds) <==> NoFullPart(ds[0].parts) && NoFullParts(ds[1..])
  {
    hide NoFullPart;
    assert forall i :: 0 < i < |ds| ==> ds[i] == ds[1..][i - 1];
  }

  /** The first turn of the loop over the text of `ds`. */
  lemma FirstDevice(ids: seq<Id>, done: seq<Device>, ds: seq<Device>)
    requires ds != [] && ValidDevice(ids, ds[0]) && Apart(done, ds)
    ensures DevicesText(ds) != [] && FindDevice(done, ds[0].id) == None
    ensures ParseDevice(ids, done, DevicesText(ds)) ==
              if NoFullPart(ds[0].parts) then
                Some((Device(ds[0].id, RebuiltParts(None, ds[0].parts)), DevicesText(ds[1..])))
              else None
  {
    hide ValidDevice, DeviceText, ParseDevice, RebuiltParts, FindDevice, NoFullPart, SameDevice, StartOffset;
    var t := if |ds| > 1 then ";" + DevicesText(ds[1..]) else "";
    DevicesSplit(ds);
    DeviceRoundTrip(ids, done, ds[0], t);
    NoSuchDevice(done, ds[0].id);
    if |ds| == 1 {
      NoDevices();
    } else {
      assert t[1..] == DevicesText(ds[1..]);
    }
  }

  /** parse_mtdparts undoes generate_mtdparts for every valid table, exactly when no partition but the
      last of its device fills 0xFFFFFFFF bytes; otherwise the text is refused. */
  lemma TableRoundTrip(ids: seq<Id>, ds: seq<Device>)
    requires ValidTable(ids, ds)
    ensures Parse(ids, Generate(ds)).Some? <==> NoFullParts(ds)
    ensures NoFullParts(ds) ==> SameTable(ds, Parse(ids, Generate(ds)).value)
  {
    hide ValidDevice, ParseDevices, RebuiltDevices;
    var s := Generate(ds);
    DevicesSplit(ds);
    assert s[..9] == "mtdparts=" && s[9..] == DevicesText(ds);
    DevicesRoundTrip(ids, [], ds);
    assert [] + RebuiltDevices(ds) == RebuiltDevices(ds);
  }

  /** The code end to end: save the table as text in a buffer of `buflen` characters and parse it again. */
  method Reload(ids: seq<Id>, ds: seq<Device>, buflen: nat) returns (r: Option<seq<Device>>)
    requires ValidIds(ids) && ValidTable(ids, ds) && buflen > 0
    ensures r.Some? <==> NoFullParts(ds) && |DevicesText(ds)| < buflen
    ensures r.Some? ==> SameTable(ds, r.value)
  {
    TableRoundTrip(ids, ds);
    var ok, text := GenerateMtdparts(ds, buflen);
    if !ok {
      return None;
    }
    r := ParseMtdparts(ids, text);
  }

  /** A valid table whose own text is refused: the first of two overlapping partitions has 0xFFFFFFFF bytes. */
  lemma FullPartRefused()
    ensures var id := Id(1, 0, 0xFFFF_FFFF, "flash", Some(Flash(0xFFFF, [])));
      var ds := [Device(id, [Part("all", false, 0xFFFF_FFFF, 0, false), Part("boot", false, 0xFFFF, 0xFFFF, true)])];
      ValidTable([id], ds) && Parse([id], Generate(ds)) == None
  {
    var id := Id(1, 0, 0xFFFF_FFFF, "flash", Some(Flash(0xFFFF, [])));
    var all, boot := Part("all", false, 0xFFFF_FFFF, 0, false), Part("boot", false, 0xFFFF, 0xFFFF, true);
    var d := Device(id, [all, boot]);
    AcceptedIff(id, all);
    AcceptedIff(id, boot);
    assert Settled(id, all) && Settled(id, boot);
    assert FindId([id], "flash") == Some(id);
    assert ValidDevice([id], d);
    hide ValidDevice, Parse, Generate;
    TableRoundTrip([id], [d]);
    assert [d][0].parts[0].size == SIZE_REMAINING;
    assert !NoFullPart([d][0].parts);
  }
}
