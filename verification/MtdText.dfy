/** The text form of the partition table in cmd_mtdparts.c: the printer and the parsers of one
    partition, one device and the whole variable. */
module MtdText {
  import opened CTypes
  import opened MtdValidate
  import opened MtdNumbers

  const MIN_PART_SIZE := 4096
  const OFFSET_NOT_SPECIFIED: u32 := 0xFFFF_FFFF

  datatype Device = Device(id: Id, parts: seq<Part>)

  // ----- the printer -----

  /** A size, an offset after a gap, a user-given name, the read-only flag. */
  function PartText(prev: Option<Part>, p: Part): string {
    MemsizeFormat(p.size)
    + (if HasGap(prev, p) then "@" + MemsizeFormat(p.offset) else "")
    + (if p.autoName then "" else "(" + p.name + ")")
    + (if p.readOnly then "ro" else "")
  }

  predicate HasGap(prev: Option<Part>, p: Part) {
    match prev
    case None => p.offset != 0
    case Some(q) => Wrap32(q.offset + q.size) != p.offset
  }

  ghost function PartsText(prev: Option<Part>, parts: seq<Part>): string
    decreases parts
  {
    if parts == [] then ""
    else PartText(prev, parts[0]) + (if |parts| > 1 then "," else "") + PartsText(Some(parts[0]), parts[1..])
  }

  ghost function DeviceText(d: Device): string {
    d.id.mtdId + ":" + PartsText(None, d.parts)
  }

  ghost function DevicesText(ds: seq<Device>): string {
    if ds == [] then ""
    else DeviceText(ds[0]) + (if |ds| > 1 then ";" else "") + DevicesText(ds[1..])
  }

  /** The text of a table. */
  ghost function Generate(ds: seq<Device>): string {
    if ds == [] then "" else "mtdparts=" + DevicesText(ds)
  }

  lemma Regroup(p: string, a: string, b: string, c: string)
    ensures p + (a + b) + c == p + (a + b + c)
  {
  }

  lemma {:induction false} DevicesTextStep(ds: seq<Device>, d: nat)
    requires d < |ds|
    ensures DevicesText(ds[d..]) == DeviceText(ds[d]) + (if d + 1 < |ds| then ";" else "") + DevicesText(ds[d + 1..])
  {
    assert ds[d..][1..] == ds[d + 1..];
  }

  lemma {:induction false} PartsTextStep(prev: Option<Part>, parts: seq<Part>, k: nat)
    requires k < |parts|
    ensures PartsText(prev, parts[k..])
         == PartText(prev, parts[k]) + (if k + 1 < |parts| then "," else "") + PartsText(Some(parts[k]), parts[k + 1..])
  {
    assert parts[k..][1..] == parts[k + 1..];
  }

  /** generate_mtdparts: the text, if what follows the prefix fits the buffer with its end. */
  method GenerateMtdparts(ds: seq<Device>, buflen: nat) returns (ok: bool, p: string)
    requires buflen > 0
    ensures ok <==> |DevicesText(ds)| < buflen
    ensures p == if ok then Generate(ds) else ""
  {
    if ds == [] {
      return true, "";
    }
    NoDevices();
    hide DevicesText, DeviceText;
    var maxlen := buflen - 1;
    var text := "";
    assert ds[0..] == ds;
    var d := 0;
    while d < |ds|
      invariant 0 <= d <= |ds| && |text| + maxlen == buflen - 1 && maxlen >= 0
      invariant text + DevicesText(ds[d..]) == DevicesText(ds)
    {
      DevicesTextStep(ds, d);
      var sep := if d + 1 < |ds| then ";" else "";
      ok, p := PrintDevice(ds[d], sep, maxlen);
      Regroup(text, DeviceText(ds[d]), sep, DevicesText(ds[d + 1..]));
      if !ok {
        return false, "";
      }
      text, maxlen := text + p, maxlen - |p|;
      d := d + 1;
    }
    assert ds[d..] == [] && text + "" == text;
    ok, p := true, "mtdparts=" + text;
  }

  lemma NoDevices()
    ensures DevicesText([]) == ""
  {
  }

  /** One device and the separator behind it, if they take at most `limit` characters. */
  method PrintDevice(d: Device, sep: string, limit: nat) returns (ok: bool, p: string)
    ensures ok <==> |DeviceText(d) + sep| <= limit
    ensures ok ==> p == DeviceText(d) + sep
  {
    p := d.id.mtdId + ":";
    if |p| > limit {
      return false, p;
    }
    var parts;
    ok, parts := PrintParts(d.parts, limit - |p|);
    if !ok || |sep| > limit - |p| - |parts| {
      return false, p;
    }
    p := p + parts + sep;
  }

  method PrintParts(parts: seq<Part>, limit: nat) returns (ok: bool, p: string)
    ensures ok <==> |PartsText(None, parts)| <= limit
    ensures ok ==> p == PartsText(None, parts)
  {
    hide PartText;
    p := "";
    var prev: Option<Part>, maxlen: int := None, limit;
    assert parts[0..] == parts;
    var cnt := 0;
    while cnt < |parts|
      invariant 0 <= cnt <= |parts| && |p| + maxlen == limit && maxlen >= 0
      invariant p + PartsText(prev, parts[cnt..]) == PartsText(None, parts)
    {
      PartsTextStep(prev, parts, cnt);
      var sep := if |parts| > cnt + 1 then "," else "";
      var text;
      ok, text := PrintPart(prev, parts[cnt], sep, maxlen);
      Regroup(p, PartText(prev, parts[cnt]), sep, PartsText(Some(parts[cnt]), parts[cnt + 1..]));
      if !ok {
        return false, p;
      }
      p, maxlen := p + text, maxlen - |text|;
      prev := Some(parts[cnt]);
      cnt := cnt + 1;
    }
    assert parts[cnt..] == [];
    assert p + "" == p;
    ok := true;
  }

  /** One partition and the separator behind it. */
  method PrintPart(prev: Option<Part>, part: Part, sep: string, limit: nat) returns (ok: bool, p: string)
    ensures ok <==> |PartText(prev, part) + sep| <= limit
    ensures ok ==> p == PartText(prev, part) + sep
  {
    hide MemsizeFormat, HasGap;
    var size := MemsizeFormat(part.size);
    var gap := if HasGap(prev, part) then "@" + MemsizeFormat(part.offset) else "";
    var name := if part.autoName then "" else "(" + part.name + ")";
    var flag := if part.readOnly then "ro" else "";
    assert PartText(prev, part) == size + gap + name + flag;
    hide PartText;
    ok, p := PutTwo(size, gap, "", limit);
    if ok {
      assert p + name + flag == size + gap + name + flag;
      ok, p := PutTwo(p, name, flag, limit);
    }
    if ok {
      ok, p := PutTwo(p, sep, "", limit);
    }
  }

  /** Copy two pieces, empty if there is nothing to print, unless one is longer than what is left. */
  method PutTwo(p: string, a: string, b: string, limit: nat) returns (ok: bool, q: string)
    ensures ok <==> |p + a + b| <= limit
    ensures ok ==> q == p + a + b
  {
    q := p;
    if |p| > limit || |a| > limit - |p| {
      return false, p;
    }
    q := p + a;
    if |b| > limit - |q| {
      return false, p;
    }
    return true, q + b;
  }

  // ----- the parser of one partition -----

  /** strchr: the text before the first `c` and the text after it. */
  ghost function SplitAt(s: string, c: char): Option<(string, string)> {
    if s == [] then None
    else if s[0] == c then Some(([], s[1..]))
    else match SplitAt(s[1..], c)
      case None => None
      case Some((before, after)) => Some(([s[0]] + before, after))
  }

  method StrChr(s: string, c: char) returns (found: bool, i: nat)
    ensures found <==> SplitAt(s, c).Some?
    ensures found ==> i < |s| && SplitAt(s, c) == Some((s[..i], s[i + 1..]))
  {
    i := 0;
    assert s[0..] == s && forall b: string :: s[..0] + b == b;
    while i < |s|
      invariant i <= |s|
      invariant SplitAt(s, c) == (match SplitAt(s[i..], c)
                                  case None => None
                                  case Some((before, after)) => Some((s[..i] + before, after)))
    {
      assert s[i..][1..] == s[i + 1..];
      if s[i] == c {
        assert s[..i] + [] == s[..i];
        return true, i;
      }
      assert forall b: string :: s[..i] + ([s[i]] + b) == s[..i + 1] + b;
      i := i + 1;
    }
    found := false;
  }

  ghost function ParseSize(s: string): Option<(u32, string)> {
    if s != [] && s[0] == '-' then Some((SIZE_REMAINING, s[1..]))
    else
      var p := MemsizeParse(s);
      if p.value < MIN_PART_SIZE then None else Some((p.value, p.rest))
  }

  ghost function ParseOffset(s: string): Parsed {
    if s != [] && s[0] == '@' then MemsizeParse(s[1..]) else Parsed(OFFSET_NOT_SPECIFIED, s)
  }

  ghost function ParseName(s: string): Option<(Option<string>, string)> {
    if s != [] && s[0] == '(' then
      match SplitAt(s[1..], ')')
      case None => None
      case Some((name, rest)) => if name == [] then None else Some((Some(name), rest))
    else Some((None, s))
  }

  function ParseFlag(s: string): (bool, string) {
    if |s| >= 2 && s[0] == 'r' && s[1] == 'o' then (true, s[2..]) else (false, s)
  }

  function ParseEnd(size: u32, s: string): Option<string> {
    if s != [] && s[0] == ',' then if size == SIZE_REMAINING then None else Some(s[1..])
    else if s == [] || s[0] == ';' then Some(s)
    else None
  }

  function HexDigits(x: u32, n: nat): string {
    if n == 0 then ""
    else
      var d := x % 16;
      HexDigits(x / 16, n - 1) + [if d < 10 then ('0' as int + d) as char else ('a' as int + d - 10) as char]
  }

  /** "0x%08lx@0x%08lx" */
  function AutoName(size: u32, offset: u32): string {
    "0x" + HexDigits(size, 8) + "@0x" + HexDigits(offset, 8)
  }

  /** part_parse: the partition as written and the text behind it, a separating comma included. */
  ghost function ParsePart(s: string): Option<(Part, string)> {
    match ParseSize(s)
    case None => None
    case Some((size, s1)) =>
      var o := ParseOffset(s1);
      match ParseName(o.rest)
      case None => None
      case Some((name, s2)) =>
        var (ro, s3) := ParseFlag(s2);
        match ParseEnd(size, s3)
        case None => None
        case Some(rest) =>
          var p := match name
            case Some(n) => Part(n, false, size, o.value, ro)
            case None => Part(AutoName(size, o.value), true, size, o.value, ro);
          Some((p, rest))
  }

  method PartParse(s: string) returns (r: Option<(Part, string)>)
    ensures r == ParsePart(s)
  {
    var p := s;
    var size: u32;
    if p != [] && p[0] == '-' {
      size := SIZE_REMAINING;
      p := p[1..];
    } else {
      var n := ReadMemsize(p);
      size, p := n.value, n.rest;
      if size < MIN_PART_SIZE {
        return None;
      }
    }
    var offset: u32 := OFFSET_NOT_SPECIFIED;
    if p != [] && p[0] == '@' {
      var n := ReadMemsize(p[1..]);
      offset, p := n.value, n.rest;
    }
    var name: Option<string> := None;
    if p != [] && p[0] == '(' {
      p := p[1..];
      var found, i := StrChr(p, ')');
      if !found || i == 0 {
        return None;
      }
      name := Some(p[..i]);
      p := p[i + 1..];
    }
    var (ro, p') := ParseFlag(p);
    p := p';
    var end := ParseEnd(size, p);
    match end
    case None => return None;
    case Some(rest) =>
      var part := match name
        case Some(n) => Part(n, false, size, offset, ro)
        case None => Part(AutoName(size, offset), true, size, offset, ro);
      return Some((part, rest));
  }

  // ----- consumption, so that the loops end -----

  lemma {:induction false} ScanShrinks(acc: u32, base: nat, s: string)
    ensures |ScanDigits(acc, base, s).rest| <= |s|
    decreases s
  {
    if s != [] && IsDigit(s[0], base) {
      ScanShrinks(Wrap32(acc * base + DigitValue(s[0])), base, s[1..]);
    }
  }

  lemma MemsizeShrinks(s: string)
    ensures |MemsizeParse(s).rest| <= |s|
    ensures MemsizeParse(s).value != 0 ==> |MemsizeParse(s).rest| < |s|
  {
    if s == [] {
    } else if s[0] == '0' {
      if |s| >= 3 {
        ScanShrinks(0, 16, s[2..]);
      }
      ScanShrinks(0, 8, s[1..]);
    } else if IsDigit(s[0], 10) {
      ScanShrinks(Wrap32(DigitValue(s[0])), 10, s[1..]);
    } else {
      assert StrToUl(s) == Parsed(0, s);
      assert Shift10(0) == 0;
    }
  }

  lemma {:induction false} SplitShrinks(s: string, c: char)
    ensures SplitAt(s, c).Some? ==> |SplitAt(s, c).value.1| < |s|
  {
    if s != [] && s[0] != c {
      SplitShrinks(s[1..], c);
    }
  }

  lemma PartShrinks(s: string)
    ensures ParsePart(s).Some? ==> |ParsePart(s).value.1| < |s|
  {
    hide MemsizeParse;
    MemsizeShrinks(s);
    if ParseSize(s).Some? {
      var s1 := ParseSize(s).value.1;
      assert |s1| < |s|;
      if s1 != [] {
        MemsizeShrinks(s1[1..]);
      }
      var o := ParseOffset(s1);
      if o.rest != [] {
        SplitShrinks(o.rest[1..], ')');
      }
    }
  }
}
