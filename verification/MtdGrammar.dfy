/** The grammar of the header of cmd_mtdparts.c as written text, with its meaning in exact arithmetic, and the
    parsers on every such text: "-" for all remaining space, numbers in the three bases with all suffixes, offsets
    in any order. */
module MtdGrammar {
  import opened CTypes
  import opened MtdValidate
  import opened MtdNumbers
  import opened MtdText
  import opened MtdParse
  import opened MtdRoundTrip

  // ----- numbers -----

  /** A number as written: "12", "0x0c" or "014", and one of the letters kKmMgG or none. */
  datatype Numeral = Numeral(prefix: string, digits: string, suffix: string)

  function Base(n: Numeral): nat {
    if n.prefix == "0x" then 16 else if n.prefix == "0" then 8 else 10
  }

  function Alphabet(n: Numeral): string {
    if n.prefix == "0x" then "0123456789abcdefABCDEF" else if n.prefix == "0" then "01234567" else "0123456789"
  }

  predicate IsNumeral(n: Numeral) {
    && n.prefix in ["", "0x", "0"]
    && n.suffix in ["", "k", "K", "m", "M", "g", "G"]
    && (forall i :: 0 <= i < |n.digits| ==> n.digits[i] in Alphabet(n))
    && (n.prefix == "" ==> n.digits != "" && n.digits[0] != '0')
    && (n.prefix == "0x" ==> n.digits != "")
  }

  function DigitOf(c: char): nat {
    if '0' <= c <= '9' then c as nat - '0' as nat
    else if 'a' <= c <= 'f' then c as nat - 'a' as nat + 10
    else if 'A' <= c <= 'F' then c as nat - 'A' as nat + 10
    else 0
  }

  function Positional(base: nat, digits: string): nat {
    if digits == "" then 0
    else base * Positional(base, digits[..|digits| - 1]) + DigitOf(digits[|digits| - 1])
  }

  function Unit(suffix: string): nat {
    if suffix in ["k", "K"] then 1024
    else if suffix in ["m", "M"] then 1024 * 1024
    else if suffix in ["g", "G"] then 1024 * 1024 * 1024
    else 1
  }

  /** Its value, in 32 bits. */
  function NumeralValue(n: Numeral): u32 {
    Wrap32(Positional(Base(n), n.digits) * Unit(n.suffix))
  }

  function NumeralText(n: Numeral): string {
    n.prefix + n.digits + n.suffix
  }

  lemma Multiple(a: int, r: nat)
    requires r < U32_LIMIT
    ensures (a * U32_LIMIT + r) % U32_LIMIT == r
  {
  }

  lemma WrapStep(x: nat, b: nat, d: nat)
    ensures Wrap32(Wrap32(x) * b + d) == Wrap32(x * b + d)
  {
    var q, r := x / U32_LIMIT, x % U32_LIMIT;
    var y := r * b + d;
    assert x * b == (q * b) * U32_LIMIT + r * b;
    assert x * b + d == (q * b + y / U32_LIMIT) * U32_LIMIT + y % U32_LIMIT;
    Multiple(q * b + y / U32_LIMIT, y % U32_LIMIT);
  }

  lemma {:induction false} ScanValue(base: nat, digits: string, t: string)
    requires forall i :: 0 <= i < |digits| ==> IsDigit(digits[i], base)
    requires t == [] || !IsDigit(t[0], base)
    ensures ScanDigits(0, base, digits + t) == Parsed(Wrap32(Positional(base, digits)), t)
  {
    if digits == [] {
      assert digits + t == t;
    } else {
      hide ScanDigits;
      var p, c := digits[..|digits| - 1], digits[|digits| - 1];
      ScanValue(base, p, []);
      assert p + [] == p;
      ScanSplit(0, base, p, c, t);
      assert p + [c] == digits;
      WrapStep(Positional(base, p), base, DigitOf(c));
      ScanEnds(Wrap32(Positional(base, digits)), base, t);
    }
  }

  lemma ScanEnds(acc: u32, base: nat, t: string)
    requires t == [] || !IsDigit(t[0], base)
    ensures ScanDigits(acc, base, t) == Parsed(acc, t)
  {
  }

  lemma DigitsOf(n: Numeral)
    requires IsNumeral(n)
    ensures forall i :: 0 <= i < |n.digits| ==> IsDigit(n.digits[i], Base(n))
    ensures n.prefix == "" ==> n.digits != "" && n.digits[0] != '0'
    ensures n.prefix == "0x" ==> n.digits != ""
  {
  }

  // The first characters tell the base.

  lemma StartsHex(s: string)
    requires |s| >= 3 && s[0] == '0' && s[1] == 'x' && DigitValue(s[2]) >= 0
    ensures StrToUl(s) == ScanDigits(0, 16, s[2..])
  {
    hide ScanDigits, DigitValue;
  }

  lemma StartsOctal(s: string)
    requires s != "" && s[0] == '0' && (|s| > 1 ==> s[1] != 'x')
    ensures StrToUl(s) == ScanDigits(0, 8, s[1..])
  {
    hide ScanDigits, DigitValue;
  }

  lemma StartsPlain(s: string)
    requires s != "" && s[0] != '0'
    ensures StrToUl(s) == ScanDigits(0, 10, s)
  {
    hide ScanDigits, DigitValue;
  }

  lemma Behind(a: string, b: string, c: string)
    requires a != ""
    ensures (a + b + c)[|a|..] == b + c && (a + b + c)[..|a|] == a && (a + b + c)[0] == a[0]
    ensures |b + c| > 0 ==> (a + b + c)[|a|] == (b + c)[0] == if b == "" then c[0] else b[0]
  {
    assert a + b + c == a + (b + c);
  }

  lemma ReadsHex(digits: string, t: string)
    requires digits != "" && forall i :: 0 <= i < |digits| ==> IsDigit(digits[i], 16)
    requires t == [] || DigitValue(t[0]) < 0
    ensures StrToUl("0x" + digits + t) == Parsed(Wrap32(Positional(16, digits)), t)
  {
    ScanValue(16, digits, t);
    assert DigitValue(digits[0]) >= 0;
    hide ScanDigits, Positional, StrToUl, DigitValue, IsDigit;
    Behind("0x", digits, t);
    StartsHex("0x" + digits + t);
  }

  lemma ReadsOctal(digits: string, t: string)
    requires forall i :: 0 <= i < |digits| ==> IsDigit(digits[i], 8)
    requires t == [] || (t[0] != 'x' && DigitValue(t[0]) < 0)
    ensures StrToUl("0" + digits + t) == Parsed(Wrap32(Positional(8, digits)), t)
  {
    ScanValue(8, digits, t);
    assert digits != "" ==> digits[0] != 'x';
    hide ScanDigits, Positional, StrToUl, DigitValue, IsDigit;
    Behind("0", digits, t);
    StartsOctal("0" + digits + t);
  }

  lemma ReadsPlain(digits: string, t: string)
    requires digits != "" && digits[0] != '0' && forall i :: 0 <= i < |digits| ==> IsDigit(digits[i], 10)
    requires t == [] || DigitValue(t[0]) < 0
    ensures StrToUl(digits + t) == Parsed(Wrap32(Positional(10, digits)), t)
  {
    ScanValue(10, digits, t);
    hide ScanDigits, Positional, StrToUl, DigitValue;
    assert (digits + t)[0] == digits[0];
    StartsPlain(digits + t);
  }

  /** The number without its suffix. */
  lemma ReadsDigits(n: Numeral, t: string)
    requires IsNumeral(n) && (t == [] || (t[0] != 'x' && DigitValue(t[0]) < 0))
    ensures StrToUl(n.prefix + n.digits + t) == Parsed(Wrap32(Positional(Base(n), n.digits)), t)
  {
    DigitsOf(n);
    hide StrToUl, Positional, IsDigit, DigitValue;
    if n.prefix == "0x" {
      ReadsHex(n.digits, t);
    } else if n.prefix == "0" {
      ReadsOctal(n.digits, t);
    } else {
      assert "" + n.digits + t == n.digits + t;
      ReadsPlain(n.digits, t);
    }
  }

  lemma ShiftWraps(v: nat)
    ensures Shift10(Wrap32(v)) == Wrap32(v * 1024)
  {
    WrapStep(v, 1024, 0);
  }

  lemma Letter(s: string, v: u32, suffix: string, t: string)
    requires suffix in ["", "k", "K", "m", "M", "g", "G"] && StrToUl(s) == Parsed(v, suffix + t)
    requires t == [] || t[0] !in "kKmMgG"
    ensures MemsizeParse(s) ==
              if suffix in ["k", "K"] then Parsed(Shift10(v), t)
              else if suffix in ["m", "M"] then Parsed(Shift10(Shift10(v)), t)
              else if suffix in ["g", "G"] then Parsed(Shift10(Shift10(Shift10(v))), t)
              else Parsed(v, t)
  {
    hide StrToUl, Shift10;
    if suffix != "" {
      assert (suffix + t)[1..] == t;
    } else {
      assert suffix + t == t;
    }
  }

  /** The letter behind a number multiplies it. */
  lemma Multiplies(s: string, v: nat, suffix: string, t: string)
    requires suffix in ["", "k", "K", "m", "M", "g", "G"] && StrToUl(s) == Parsed(Wrap32(v), suffix + t)
    requires t == [] || t[0] !in "kKmMgG"
    ensures MemsizeParse(s) == Parsed(Wrap32(v * Unit(suffix)), t)
  {
    Letter(s, Wrap32(v), suffix, t);
    hide StrToUl, MemsizeParse, Shift10, Wrap32;
    ShiftWraps(v);
    ShiftWraps(v * 1024);
    ShiftWraps(v * 1024 * 1024);
  }

  lemma ReadsNumeral(n: Numeral, t: string)
    requires IsNumeral(n) && Delimits(t)
    ensures MemsizeParse(NumeralText(n) + t) == Parsed(NumeralValue(n), t)
  {
    hide StrToUl, Positional, MemsizeParse;
    assert NumeralText(n) + t == n.prefix + n.digits + (n.suffix + t);
    ReadsDigits(n, n.suffix + t);
    Multiplies(NumeralText(n) + t, Positional(Base(n), n.digits), n.suffix, t);
  }

  // ----- one partition -----

  /** `size` None stands for "-", `offset` and `name` may be left out. */
  datatype Spec = Spec(size: Option<Numeral>, offset: Option<Numeral>, name: Option<string>, readOnly: bool)

  predicate IsSpec(s: Spec) {
    && (s.size.Some? ==> IsNumeral(s.size.value))
    && (s.offset.Some? ==> IsNumeral(s.offset.value))
    && (s.name.Some? ==> s.name.value != "" && ')' !in s.name.value)
  }

  function SizeText(s: Spec): string {
    match s.size
    case None => "-"
    case Some(n) => NumeralText(n)
  }

  function AtText(s: Spec): string {
    match s.offset
    case None => ""
    case Some(n) => "@" + NumeralText(n)
  }

  function CalledText(s: Spec): string {
    match s.name
    case None => ""
    case Some(n) => "(" + n + ")"
  }

  function SpecText(s: Spec): string {
    SizeText(s) + AtText(s) + CalledText(s) + if s.readOnly then "ro" else ""
  }

  /** The size as written; the largest number stands for "-". */
  function WrittenSize(s: Spec): u32 {
    match s.size
    case None => 0xFFFF_FFFF
    case Some(n) => NumeralValue(n)
  }

  /** The offset as written; the largest number stands for none. */
  function WrittenAt(s: Spec): u32 {
    match s.offset
    case None => 0xFFFF_FFFF
    case Some(n) => NumeralValue(n)
  }

  function WrittenPart(s: Spec): Part {
    Part(if s.name.Some? then s.name.value else AutoName(WrittenSize(s), WrittenAt(s)),
         s.name.None?, WrittenSize(s), WrittenAt(s), s.readOnly)
  }

  lemma ReadsWrittenSize(s: Spec, r: string)
    requires IsSpec(s) && Delimits(r)
    ensures ParseSize(SizeText(s) + r) == if WrittenSize(s) < 4096 then None else Some((WrittenSize(s), r))
  {
    hide MemsizeParse, NumeralValue;
    match s.size
    case None =>
      assert ("-" + r)[1..] == r;
    case Some(n) =>
      ReadsNumeral(n, r);
      NumeralStart(n);
      assert (NumeralText(n) + r)[0] == NumeralText(n)[0];
  }

  lemma NumeralStart(n: Numeral)
    requires IsNumeral(n)
    ensures NumeralText(n) != "" && IsDigit(NumeralText(n)[0], 10)
  {
    if n.prefix == "" {
      assert NumeralText(n)[0] == n.digits[0];
    } else {
      assert NumeralText(n)[0] == n.prefix[0];
    }
  }

  lemma ReadsWrittenAt(s: Spec, r: string)
    requires IsSpec(s) && Delimits(r) && (r == [] || r[0] != '@')
    ensures ParseOffset(AtText(s) + r) == Parsed(WrittenAt(s), r)
  {
    hide MemsizeParse, NumeralValue, NumeralText;
    match s.offset
    case None =>
      assert "" + r == r;
    case Some(n) =>
      ReadsNumeral(n, r);
      DropFirst('@', NumeralText(n), r);
  }

  lemma ReadsCalled(s: Spec, r: string)
    requires IsSpec(s) && (r == [] || r[0] != '(')
    ensures ParseName(CalledText(s) + r) == Some((s.name, r))
  {
    match s.name
    case None =>
      assert "" + r == r;
    case Some(n) =>
      SplitsAtFirst(n, ')', r);
      assert (CalledText(s) + r)[1..] == n + ")" + r;
  }

  lemma SpecPieces(s: Spec, t: string)
    ensures SpecText(s) + t == SizeText(s) + (AtText(s) + (CalledText(s) + (FlagText(s.readOnly) + t)))
  {
    var a, b, c, d := SizeText(s), AtText(s), CalledText(s), FlagText(s.readOnly);
    hide SizeText, AtText, CalledText;
    assert (a + b + c + d) + t == a + (b + (c + (d + t)));
  }

  lemma SpecDelimiters(s: Spec, t: string)
    requires EndsPart(t)
    ensures t == [] || t[0] != 'r'
    ensures var d := FlagText(s.readOnly) + t;
            var c := CalledText(s) + d;
            && (d == [] || d[0] != '(')
            && (c == [] || c[0] != '@') && Delimits(c)
            && Delimits(AtText(s) + c)
  {
    hide NumeralText;
    var d := FlagText(s.readOnly) + t;
    assert d == [] || d[0] == 'r' || d[0] == ';' || d[0] == ',';
    var c := CalledText(s) + d;
    assert c == [] || c[0] == '(' || c[0] == 'r' || c[0] == ';' || c[0] == ',';
  }

  /** part_parse on every written partition: less than 4096 bytes, or a comma behind "-", is refused. */
  lemma SpecParses(s: Spec, t: string)
    requires IsSpec(s) && EndsPart(t)
    ensures ParsePart(SpecText(s) + t) ==
              if WrittenSize(s) < 4096 then None
              else if t != [] && t[0] == ',' then
                if WrittenSize(s) == 0xFFFF_FFFF then None else Some((WrittenPart(s), t[1..]))
              else Some((WrittenPart(s), t))
  {
    hide SizeText, AtText, CalledText, SpecText, WrittenSize, WrittenAt, ParseSize, ParseOffset, ParseName, ParseFlag,
         AutoName;
    SpecPieces(s, t);
    var d := FlagText(s.readOnly) + t;
    var c := CalledText(s) + d;
    var b := AtText(s) + c;
    SpecDelimiters(s, t);
    hide Delimits, FlagText, IsSpec;
    ReadsWrittenSize(s, b);
    ReadsWrittenAt(s, c);
    ReadsCalled(s, d);
    ReadsFlag(s.readOnly, t);
  }

  // ----- the partitions of a device -----

  function SpecsText(ss: seq<Spec>): string
    decreases |ss|
  {
    if ss == [] then "" else SpecText(ss[0]) + (if |ss| > 1 then "," else "") + SpecsText(ss[1..])
  }

  ghost predicate AreSpecs(ss: seq<Spec>) {
    forall i :: 0 <= i < |ss| ==> IsSpec(ss[i])
  }

  /** Where a partition begins: where it says, or behind the one before. */
  function Begins(s: Spec, next: u32): u32 {
    if WrittenAt(s) == 0xFFFF_FFFF then next else WrittenAt(s)
  }

  /** How long it is: as it says, or to the end of the device. */
  function Extent(id: Id, s: Spec, next: u32): int {
    if WrittenSize(s) == 0xFFFF_FFFF then id.size - Begins(s, next) else WrittenSize(s)
  }

  /** A piece of the device, in whole eraseblocks. */
  ghost predicate Lies(id: Id, at: u32, size: int) {
    0 < size && at + size <= id.size && id.flash.Some? && Aligned(id.flash.value, at, at + size, size)
  }

  /** A written partition is accepted: at least 4096 bytes, inside the device, and last if it takes the rest. */
  ghost predicate Accepted(id: Id, s: Spec, next: u32, last: bool) {
    && WrittenSize(s) >= 4096
    && (WrittenSize(s) == 0xFFFF_FFFF ==> last)
    && Lies(id, Begins(s, next), Extent(id, s, next))
  }

  ghost function PartOf(id: Id, s: Spec, next: u32): Part
    requires Lies(id, Begins(s, next), Extent(id, s, next))
  {
    WrittenPart(s).(offset := Begins(s, next), size := Extent(id, s, next))
  }

  /** The partitions the text describes, the first without an offset beginning at `next`. */
  ghost function Placed(id: Id, next: u32, ss: seq<Spec>): Option<seq<Part>>
    decreases |ss|
  {
    if ss == [] then Some([])
    else if !Accepted(id, ss[0], next, |ss| == 1) then None
    else
      var p := PartOf(id, ss[0], next);
      match Placed(id, p.offset + p.size, ss[1..])
      case None => None
      case Some(ps) => Some([p] + ps)
  }

  lemma SpecValidates(id: Id, s: Spec, next: u32)
    ensures Validate(id, WrittenPart(s).(offset := Begins(s, next))) ==
              if Lies(id, Begins(s, next), Extent(id, s, next)) then Some(PartOf(id, s, next)) else None
  {
    AcceptedIff(id, WrittenPart(s).(offset := Begins(s, next)));
    hide Validate, Aligned, WrittenSize, AutoName;
  }

  lemma OneIs(id: Id, next: u32, text: string, p: Part, rest: string, at: u32)
    requires ParsePart(text) == Some((p, rest)) && at == if p.offset == 0xFFFF_FFFF then next else p.offset
    ensures ParseOne(id, next, text) ==
              match Validate(id, p.(offset := at))
              case None => None
              case Some(v) => Some((v, rest))
  {
    hide ParsePart, Validate;
  }

  /** One turn of the loop of device_parse. */
  lemma SpecPlaced(id: Id, s: Spec, next: u32, t: string)
    requires IsSpec(s) && EndsPart(t)
    ensures ParseOne(id, next, SpecText(s) + t) ==
              var comma := t != [] && t[0] == ',';
              if Accepted(id, s, next, !comma) then Some((PartOf(id, s, next), if comma then t[1..] else t)) else None
  {
    SpecParses(s, t);
    hide Validate, ParsePart, Lies, SpecText, WrittenSize, WrittenAt, AutoName, IsSpec;
    var comma := t != [] && t[0] == ',';
    if WrittenSize(s) >= 4096 && (WrittenSize(s) == 0xFFFF_FFFF ==> !comma) {
      SpecValidates(id, s, next);
      OneIs(id, next, SpecText(s) + t, WrittenPart(s), if comma then t[1..] else t, Begins(s, next));
    }
  }

  lemma SpecStarts(s: Spec)
    requires IsSpec(s)
    ensures SpecText(s) != "" && SpecText(s)[0] != ';'
  {
    if s.size.Some? {
      NumeralStart(s.size.value);
    }
    var a := SizeText(s);
    assert a != "" && a[0] != ';';
    hide SizeText, AtText, CalledText;
    assert SpecText(s)[0] == a[0];
  }

  lemma SpecsSplit(ss: seq<Spec>, t: string)
    requires ss != []
    ensures SpecsText(ss) + t == SpecText(ss[0]) + ((if |ss| > 1 then "," else "") + (SpecsText(ss[1..]) + t))
  {
    hide SpecText;
    Regroup4(SpecText(ss[0]), if |ss| > 1 then "," else "", SpecsText(ss[1..]), t);
  }

  lemma NoSpecs(t: string)
    ensures SpecsText([]) + t == t
  {
    assert "" + t == t;
  }

  /** The first turn of the loop over a written list. */
  lemma FirstPlaced(id: Id, next: u32, ss: seq<Spec>, t: string)
    requires ss != [] && AreSpecs(ss) && (t == [] || t[0] == ';')
    ensures var s := SpecsText(ss) + t;
            && s != [] && s[0] != ';'
            && ParseOne(id, next, s) ==
                 if Accepted(id, ss[0], next, |ss| == 1) then
                   Some((PartOf(id, ss[0], next), SpecsText(ss[1..]) + t))
                 else None
  {
    hide Accepted, SpecText, ParseOne, IsSpec, Lies;
    var more := SpecsText(ss[1..]) + t;
    var tail := (if |ss| > 1 then "," else "") + more;
    SpecsSplit(ss, t);
    SpecStarts(ss[0]);
    assert (SpecText(ss[0]) + tail)[0] == SpecText(ss[0])[0];
    if |ss| > 1 {
      assert tail[1..] == more;
    } else {
      NoSpecs(t);
      assert tail == more == t;
    }
    SpecPlaced(id, ss[0], next, tail);
  }

  lemma {:induction false} ListPlaced(id: Id, next: u32, done: seq<Part>, ss: seq<Spec>, t: string)
    requires AreSpecs(ss) && (t == [] || t[0] == ';')
    ensures ParseParts(id, next, done, SpecsText(ss) + t) ==
              match Placed(id, next, ss)
              case None => None
              case Some(ps) => Some((done + ps, t))
    decreases |ss|
  {
    hide ParseOne, Accepted, SpecsText, IsSpec, WrittenPart, Begins, Extent;
    if ss == [] {
      NoSpecs(t);
      assert done + [] == done;
    } else {
      FirstPlaced(id, next, ss, t);
      if Accepted(id, ss[0], next, |ss| == 1) {
        AcceptedLies(id, ss[0], next, |ss| == 1);
        var p := PartOf(id, ss[0], next);
        ListPlaced(id, p.offset + p.size, done + [p], ss[1..], t);
        var tail := Placed(id, p.offset + p.size, ss[1..]);
        if tail.Some? {
          assert (done + [p]) + tail.value == done + ([p] + tail.value);
        }
      }
    }
  }

  lemma AcceptedLies(id: Id, s: Spec, next: u32, last: bool)
    requires Accepted(id, s, next, last)
    ensures Lies(id, Begins(s, next), Extent(id, s, next))
    ensures var p := PartOf(id, s, next); p.offset + p.size <= id.size && Wrap32(p.offset + p.size) == p.offset + p.size
  {
    hide Aligned, WrittenSize, WrittenAt, AutoName;
  }

  // ----- sorting -----

  ghost predicate Ascending(parts: seq<Part>) {
    forall i, j :: 0 <= i < j < |parts| ==> parts[i].offset <= parts[j].offset
  }

  ghost predicate OneAtZero(parts: seq<Part>) {
    forall i, j :: 0 <= i < j < |parts| ==> !(parts[i].offset == 0 && parts[j].offset == 0)
  }

  ghost predicate NoneAtZero(parts: seq<Part>) {
    forall i :: 0 <= i < |parts| ==> parts[i].offset != 0
  }

  lemma ConsAscends(q: Part, rest: seq<Part>, tail: seq<Part>, p: Part)
    requires Ascending(rest) && Ascending([q] + tail) && q.offset < p.offset
    requires multiset(rest) == multiset(tail) + multiset{p}
    ensures Ascending([q] + rest) && multiset([q] + rest) == multiset([q] + tail) + multiset{p}
  {
    var r, all := [q] + rest, [q] + tail;
    forall i | 0 <= i < |rest|
      ensures q.offset <= rest[i].offset
    {
      assert rest[i] in multiset(rest);
      if rest[i] != p {
        assert rest[i] in multiset(tail);
        var k :| 0 <= k < |tail| && tail[k] == rest[i];
        assert all[0] == q && all[k + 1] == tail[k];
      }
    }
  }

  lemma ConsFirst(p: Part, parts: seq<Part>)
    requires Ascending(parts) && (parts != [] ==> p.offset <= parts[0].offset)
    ensures Ascending([p] + parts) && multiset([p] + parts) == multiset(parts) + multiset{p}
    ensures p.offset == 0 && parts != [] && parts[0].offset != 0 ==> NoneAtZero(parts)
  {
  }

  lemma TailAscends(parts: seq<Part>)
    requires Ascending(parts) && parts != []
    ensures Ascending(parts[1..]) && parts == [parts[0]] + parts[1..]
  {
  }

  /** An insertion fails exactly for a second partition at offset 0; otherwise it adds the partition in its place. */
  lemma {:induction false} SortAddIs(parts: seq<Part>, p: Part)
    requires Ascending(parts)
    ensures SortAdd(parts, p).Some? <==> p.offset != 0 || NoneAtZero(parts)
    ensures SortAdd(parts, p).Some? ==>
              var r := SortAdd(parts, p).value; Ascending(r) && multiset(r) == multiset(parts) + multiset{p}
  {
    if parts == [] || p.offset <= parts[0].offset {
      ConsFirst(p, parts);
      assert [p] + [] == [p];
    } else {
      TailAscends(parts);
      SortAddIs(parts[1..], p);
      hide Ascending, NoneAtZero;
      if SortAdd(parts[1..], p).Some? {
        ConsAscends(parts[0], SortAdd(parts[1..], p).value, parts[1..], p);
      }
    }
  }

  /** The partitions of a device in the order of their offsets, if at most one is at offset 0. */
  lemma {:induction false} SortAllIs(parts: seq<Part>)
    ensures SortAll(parts).Some? <==> OneAtZero(parts)
    ensures SortAll(parts).Some? ==>
              var r := SortAll(parts).value; Ascending(r) && multiset(r) == multiset(parts)
  {
    if parts != [] {
      var n := |parts| - 1;
      SortAllIs(parts[..n]);
      assert parts == parts[..n] + [parts[n]];
      if SortAll(parts[..n]).Some? {
        var r := SortAll(parts[..n]).value;
        SortAddIs(r, parts[n]);
        SameZeros(r, parts[..n]);
      }
    }
  }

  lemma SameZeros(a: seq<Part>, b: seq<Part>)
    requires multiset(a) == multiset(b)
    ensures NoneAtZero(a) <==> NoneAtZero(b)
  {
    assert forall p :: p in a <==> p in multiset(a);
    assert forall p :: p in b <==> p in multiset(b);
    assert NoneAtZero(a) <==> forall p :: p in a ==> p.offset != 0;
    assert NoneAtZero(b) <==> forall p :: p in b ==> p.offset != 0;
  }

  // ----- devices and the whole variable -----

  datatype DeviceSpec = DeviceSpec(id: Id, specs: seq<Spec>)

  function DeviceSpecText(d: DeviceSpec): string {
    d.id.mtdId + ":" + SpecsText(d.specs)
  }

  function TableText(ds: seq<DeviceSpec>): string
    decreases |ds|
  {
    if ds == [] then "" else DeviceSpecText(ds[0]) + (if |ds| > 1 then ";" else "") + TableText(ds[1..])
  }

  /** A device of the list, its mtd-id not used by an earlier entry, with at least one partition. */
  ghost predicate IsDeviceSpec(ids: seq<Id>, d: DeviceSpec) {
    && (exists k :: 0 <= k < |ids| && ids[k] == d.id && forall j :: 0 <= j < k ==> ids[j].mtdId != d.id.mtdId)
    && ':' !in d.id.mtdId && d.specs != [] && AreSpecs(d.specs)
  }

  lemma {:induction false} FirstIdFound(ids: seq<Id>, id: Id, k: nat)
    requires k < |ids| && ids[k] == id && forall j :: 0 <= j < k ==> ids[j].mtdId != id.mtdId
    ensures FindId(ids, id.mtdId) == Some(id)
  {
    if k > 0 {
      FirstIdFound(ids[1..], id, k - 1);
    }
  }

  /** The partitions of a device, sorted. */
  ghost function Sorted(id: Id, start: u32, ss: seq<Spec>): Option<seq<Part>> {
    match Placed(id, start, ss)
    case None => None
    case Some(ps) => SortAll(ps)
  }

  /** device_parse on every written device: partitions without an offset go first behind those the device
      already has. */
  lemma DeviceParses(ids: seq<Id>, done: seq<Device>, d: DeviceSpec, t: string)
    requires IsDeviceSpec(ids, d) && (t == [] || t[0] == ';')
    ensures ParseDevice(ids, done, DeviceSpecText(d) + t) ==
              match Sorted(d.id, StartOffset(done, d.id), d.specs)
              case None => None
              case Some(ps) => Some((Device(d.id, ps), if t == [] then t else t[1..]))
  {
    var text, start := SpecsText(d.specs) + t, StartOffset(done, d.id);
    KnownDevice(ids, d);
    hide SpecsText, ParseParts, Placed, SortAll, FindId, StartOffset, SplitAt, AreSpecs, IsDeviceSpec, DeviceSpecText;
    NameFirst(d, t);
    SplitsAtFirst(d.id.mtdId, ':', text);
    ListPlaced(d.id, start, [], d.specs, t);
    var ps := Placed(d.id, start, d.specs);
    if ps.Some? {
      PlacedSome(d.id, start, d.specs);
      assert [] + ps.value == ps.value;
    }
  }

  lemma NameFirst(d: DeviceSpec, t: string)
    ensures DeviceSpecText(d) + t == d.id.mtdId + [':'] + (SpecsText(d.specs) + t)
  {
    hide SpecsText;
  }

  lemma KnownDevice(ids: seq<Id>, d: DeviceSpec)
    requires IsDeviceSpec(ids, d)
    ensures FindId(ids, d.id.mtdId) == Some(d.id) && ':' !in d.id.mtdId && d.specs != [] && AreSpecs(d.specs)
  {
    var k :| 0 <= k < |ids| && ids[k] == d.id && forall j :: 0 <= j < k ==> ids[j].mtdId != d.id.mtdId;
    FirstIdFound(ids, d.id, k);
  }

  lemma PlacedSome(id: Id, next: u32, ss: seq<Spec>)
    requires ss != [] && Placed(id, next, ss).Some?
    ensures Placed(id, next, ss).value != []
  {
    hide Accepted;
  }

  ghost predicate Different(ds: seq<DeviceSpec>) {
    forall i, j :: 0 <= i < j < |ds| ==> !SameDevice(ds[i].id, ds[j].id)
  }

  ghost predicate NotListed(done: seq<Device>, ds: seq<DeviceSpec>) {
    forall i, j :: 0 <= i < |done| && 0 <= j < |ds| ==> !SameDevice(done[i].id, ds[j].id)
  }

  /** The table a text describes. */
  ghost function Tables(ds: seq<DeviceSpec>): Option<seq<Device>>
    decreases |ds|
  {
    if ds == [] then Some([])
    else match Sorted(ds[0].id, 0, ds[0].specs)
      case None => None
      case Some(ps) =>
        match Tables(ds[1..])
        case None => None
        case Some(rest) => Some([Device(ds[0].id, ps)] + rest)
  }

  /** A turn of the loop of parse_mtdparts. */
  lemma OneDeviceParses(ids: seq<Id>, done: seq<Device>, ds: seq<DeviceSpec>)
    requires ds != [] && IsDeviceSpec(ids, ds[0])
    ensures TableText(ds) != ""
    ensures ParseDevice(ids, done, TableText(ds)) ==
              match Sorted(ds[0].id, StartOffset(done, ds[0].id), ds[0].specs)
              case None => None
              case Some(ps) => Some((Device(ds[0].id, ps), TableText(ds[1..])))
  {
    var d, t := ds[0], (if |ds| > 1 then ";" else "") + TableText(ds[1..]);
    assert DeviceSpecText(d) != "";
    hide IsDeviceSpec, DeviceSpecText, ParseDevice, Sorted, FindDevice, SameDevice, StartOffset;
    Regroup3(DeviceSpecText(d), if |ds| > 1 then ";" else "", TableText(ds[1..]));
    assert TableText(ds) == DeviceSpecText(d) + t;
    if |ds| == 1 {
      assert TableText(ds[1..]) == "" == t;
    } else {
      assert t[1..] == TableText(ds[1..]);
    }
    DeviceParses(ids, done, d, t);
  }

  /** The same for a device that is not in the list yet. */
  lemma FirstDeviceParses(ids: seq<Id>, done: seq<Device>, ds: seq<DeviceSpec>)
    requires ds != [] && IsDeviceSpec(ids, ds[0]) && NotListed(done, ds)
    ensures TableText(ds) != "" && FindDevice(done, ds[0].id) == None
    ensures ParseDevice(ids, done, TableText(ds)) ==
              match Sorted(ds[0].id, 0, ds[0].specs)
              case None => None
              case Some(ps) => Some((Device(ds[0].id, ps), TableText(ds[1..])))
  {
    OneDeviceParses(ids, done, ds);
    hide IsDeviceSpec, TableText, ParseDevice, Sorted, FindDevice, SameDevice, StartOffset;
    NoSuchDevice(done, ds[0].id);
  }

  lemma ListedStep(done: seq<Device>, e: Device, ds: seq<DeviceSpec>)
    requires ds != [] && e.id == ds[0].id && NotListed(done, ds) && Different(ds)
    ensures NotListed(done + [e], ds[1..]) && Different(ds[1..])
  {
    hide SameDevice;
    assert forall j :: 0 <= j < |ds[1..]| ==> ds[1..][j] == ds[j + 1];
  }

  lemma {:induction false} DevicesParse(ids: seq<Id>, done: seq<Device>, ds: seq<DeviceSpec>)
    requires forall i :: 0 <= i < |ds| ==> IsDeviceSpec(ids, ds[i])
    requires Different(ds) && NotListed(done, ds)
    ensures ParseDevices(ids, done, TableText(ds)) ==
              match Tables(ds)
              case None => None
              case Some(r) => Some(done + r)
    decreases |ds|
  {
    hide IsDeviceSpec, ParseDevice, FindDevice, Different, NotListed, TableText, Sorted;
    if ds == [] {
      NoDevice();
      assert done + [] == done;
    } else {
      FirstDeviceParses(ids, done, ds);
      var ps := Sorted(ds[0].id, 0, ds[0].specs);
      if ps.Some? {
        var e := Device(ds[0].id, ps.value);
        ListedStep(done, e, ds);
        DevicesParse(ids, done + [e], ds[1..]);
        var rest := Tables(ds[1..]);
        if rest.Some? {
          assert (done + [e]) + rest.value == done + ([e] + rest.value);
        }
      }
    }
  }

  lemma NoDevice()
    ensures TableText([]) == ""
  {
  }

  /** The text of a device describes partitions that lie on it, at most one of them at offset 0. */
  ghost predicate Describes(d: DeviceSpec) {
    Placed(d.id, 0, d.specs).Some? && OneAtZero(Placed(d.id, 0, d.specs).value)
  }

  ghost predicate Described(d: DeviceSpec, e: Device) {
    && e.id == d.id
    && Placed(d.id, 0, d.specs).Some?
    && multiset(e.parts) == multiset(Placed(d.id, 0, d.specs).value)
    && Ascending(e.parts)
  }

  ghost predicate AllDescribed(ds: seq<DeviceSpec>, r: seq<Device>) {
    |r| == |ds| && forall i :: 0 <= i < |ds| ==> Described(ds[i], r[i])
  }

  lemma ConsDescribed(ds: seq<DeviceSpec>, e: Device, rest: seq<Device>)
    requires ds != [] && Described(ds[0], e) && AllDescribed(ds[1..], rest)
    ensures AllDescribed(ds, [e] + rest)
  {
    hide Described;
    var r := [e] + rest;
    assert forall i :: 0 < i < |ds| ==> ds[i] == ds[1..][i - 1] && r[i] == rest[i - 1];
  }

  lemma {:induction false} TablesIs(ds: seq<DeviceSpec>)
    ensures Tables(ds).Some? <==> forall i :: 0 <= i < |ds| ==> Describes(ds[i])
    ensures Tables(ds).Some? ==> AllDescribed(ds, Tables(ds).value)
    decreases |ds|
  {
    if ds != [] {
      var d := ds[0];
      hide Describes, Described, Sorted;
      FirstTable(d);
      TablesIs(ds[1..]);
      FirstDescribed(ds);
      hide AllDescribed;
      if Tables(ds).Some? {
        ConsDescribed(ds, Device(d.id, Sorted(d.id, 0, d.specs).value), Tables(ds[1..]).value);
      }
    }
  }

  lemma FirstTable(d: DeviceSpec)
    ensures Sorted(d.id, 0, d.specs).Some? <==> Describes(d)
    ensures Describes(d) ==> Described(d, Device(d.id, Sorted(d.id, 0, d.specs).value))
  {
    hide Placed, SortAll, Ascending, OneAtZero;
    if Placed(d.id, 0, d.specs).Some? {
      SortAllIs(Placed(d.id, 0, d.specs).value);
    }
  }

  lemma FirstDescribed(ds: seq<DeviceSpec>)
    requires ds != []
    ensures (forall i :: 0 <= i < |ds| ==> Describes(ds[i])) <==>
            Describes(ds[0]) && forall i :: 0 <= i < |ds[1..]| ==> Describes(ds[1..][i])
  {
    hide Describes;
    assert forall i :: 0 < i < |ds| ==> ds[i] == ds[1..][i - 1];
  }

  /** parse_mtdparts on every written variable: it succeeds exactly if the text of every device describes
      partitions that lie on it, and then gives those, each device sorted by offset. */
  lemma WrittenTableParses(ids: seq<Id>, ds: seq<DeviceSpec>)
    requires ds != [] && Different(ds) && forall i :: 0 <= i < |ds| ==> IsDeviceSpec(ids, ds[i])
    ensures var r := Parse(ids, "mtdparts=" + TableText(ds));
            && (r.Some? <==> forall i :: 0 <= i < |ds| ==> Describes(ds[i]))
            && (r.Some? ==> |r.value| == |ds| && forall i :: 0 <= i < |ds| ==> Described(ds[i], r.value[i]))
  {
    TablesIs(ds);
    WrittenTable(ids, ds);
    hide Parse, Tables, Describes, Described;
  }

  lemma WrittenTable(ids: seq<Id>, ds: seq<DeviceSpec>)
    requires ds != [] && Different(ds) && forall i :: 0 <= i < |ds| ==> IsDeviceSpec(ids, ds[i])
    ensures Parse(ids, "mtdparts=" + TableText(ds)) == Tables(ds)
  {
    hide IsDeviceSpec, Different, NotListed, Tables, ParseDevices, TableText, ParseDevice, FindDevice;
    var s := "mtdparts=" + TableText(ds);
    NoneListed(ds);
    FirstDeviceParses(ids, [], ds);
    assert s[..9] == "mtdparts=" && s[9..] == TableText(ds);
    DevicesParse(ids, [], ds);
    var r := Tables(ds);
    assert r.Some? ==> [] + r.value == r.value;
  }

  lemma NoneListed(ds: seq<DeviceSpec>)
    ensures NotListed([], ds)
  {
  }

  // ----- what the partitions are -----

  /** Each partition begins where it says, or behind the one before it in the text, and is as long as it says, or
      reaches to the end of the device. */
  lemma {:induction false} PlacedAt(id: Id, next: u32, ss: seq<Spec>, i: nat)
    requires Placed(id, next, ss).Some? && i < |ss|
    ensures var ps := Placed(id, next, ss).value;
            && |ps| == |ss|
            && ps[i].offset == (if WrittenAt(ss[i]) != 0xFFFF_FFFF then WrittenAt(ss[i])
                                else if i == 0 then next
                                else ps[i - 1].offset + ps[i - 1].size)
            && ps[i].size == (if WrittenSize(ss[i]) != 0xFFFF_FFFF then WrittenSize(ss[i]) else id.size - ps[i].offset)
            && ps[i].readOnly == ss[i].readOnly
            && (if ss[i].name.Some? then ps[i].name == ss[i].name.value && !ps[i].autoName else ps[i].autoName)
            && 0 < ps[i].size && ps[i].offset + ps[i].size <= id.size
            && WrittenSize(ss[i]) >= 4096
    decreases |ss|
  {
    hide WrittenAt, WrittenSize, Aligned, AutoName;
    var p := PartOf(id, ss[0], next);
    PlacedLength(id, p.offset + p.size, ss[1..]);
    if i > 0 {
      PlacedAt(id, p.offset + p.size, ss[1..], i - 1);
    }
  }

  lemma {:induction false} PlacedLength(id: Id, next: u32, ss: seq<Spec>)
    ensures Placed(id, next, ss).Some? ==> |Placed(id, next, ss).value| == |ss|
    decreases |ss|
  {
    hide Accepted;
    if ss != [] && Accepted(id, ss[0], next, |ss| == 1) {
      AcceptedLies(id, ss[0], next, |ss| == 1);
      var p := PartOf(id, ss[0], next);
      PlacedLength(id, p.offset + p.size, ss[1..]);
    }
  }

  /** Only the last partition may take the rest. */
  lemma {:induction false} RestIsLast(id: Id, next: u32, ss: seq<Spec>, i: nat)
    requires i < |ss| - 1 && ss[i].size == None
    ensures Placed(id, next, ss) == None
    decreases |ss|
  {
    if i > 0 && Accepted(id, ss[0], next, |ss| == 1) {
      var p := PartOf(id, ss[0], next);
      RestIsLast(id, p.offset + p.size, ss[1..], i - 1);
    }
  }

  /** Some partition ends where the device ends. */
  ghost predicate ReachesEnd(d: Device) {
    exists p :: p in d.parts && p.offset + p.size == d.id.size
  }

  /** A last partition written "-", with or without offset, name and flag, ends where the device ends. */
  lemma FillsUp(ids: seq<Id>, ds: seq<DeviceSpec>, k: nat)
    requires ds != [] && Different(ds) && forall i :: 0 <= i < |ds| ==> IsDeviceSpec(ids, ds[i])
    requires k < |ds| && ds[k].specs != [] && ds[k].specs[|ds[k].specs| - 1].size == None
    ensures var r := Parse(ids, "mtdparts=" + TableText(ds));
            r.Some? ==> |r.value| == |ds| && ReachesEnd(r.value[k])
  {
    hide *;
    DescribedAt(ids, ds, k);
    var r := Parse(ids, "mtdparts=" + TableText(ds));
    if r.Some? {
      LastFills(ds[k], r.value[k]);
    }
  }

  lemma DescribedAt(ids: seq<Id>, ds: seq<DeviceSpec>, k: nat)
    requires ds != [] && Different(ds) && forall i :: 0 <= i < |ds| ==> IsDeviceSpec(ids, ds[i])
    requires k < |ds|
    ensures var r := Parse(ids, "mtdparts=" + TableText(ds));
            r.Some? ==> |r.value| == |ds| && Described(ds[k], r.value[k])
  {
    hide *;
    WrittenTableParses(ids, ds);
  }

  lemma LastFills(d: DeviceSpec, e: Device)
    requires Described(d, e) && d.specs != [] && d.specs[|d.specs| - 1].size == None
    ensures ReachesEnd(e)
  {
    var n := |d.specs| - 1;
    PlacedAt(d.id, 0, d.specs, n);
    hide Placed, Ascending, AutoName;
    var p := Placed(d.id, 0, d.specs).value[n];
    assert p in multiset(e.parts);
  }

  /** Without written offsets the partitions follow each other without gaps, in the order of the text. */
  lemma FollowOn(id: Id, ss: seq<Spec>, i: nat, j: nat)
    requires (forall k :: 0 <= k < |ss| ==> ss[k].offset == None) && Placed(id, 0, ss).Some? && i < j < |ss|
    ensures |Placed(id, 0, ss).value| == |ss|
    ensures var ps := Placed(id, 0, ss).value; ps[i].offset < ps[j].offset && ps[i].offset + ps[i].size <= ps[j].offset
    decreases j
  {
    PlacedAt(id, 0, ss, j);
    PlacedAt(id, 0, ss, j - 1);
    hide Placed;
    if i < j - 1 {
      FollowOn(id, ss, i, j - 1);
    }
  }

  lemma {:induction false} TablesAt(ds: seq<DeviceSpec>, k: nat)
    requires k < |ds| && Tables(ds).Some?
    ensures |Tables(ds).value| == |ds|
    ensures Sorted(ds[k].id, 0, ds[k].specs).Some?
    ensures Tables(ds).value[k] == Device(ds[k].id, Sorted(ds[k].id, 0, ds[k].specs).value)
    decreases |ds|
  {
    hide Sorted;
    TablesLength(ds);
    if k > 0 {
      TablesAt(ds[1..], k - 1);
    }
  }

  lemma {:induction false} TablesLength(ds: seq<DeviceSpec>)
    ensures Tables(ds).Some? ==> |Tables(ds).value| == |ds|
    decreases |ds|
  {
    hide Sorted;
    if ds != [] {
      TablesLength(ds[1..]);
    }
  }

  /** A device whose partitions have no written offsets, the last of them written "-": they come in the order of
      the text, and the last one ends where the device ends. */
  lemma RestIsFilled(ids: seq<Id>, ds: seq<DeviceSpec>, k: nat)
    requires ds != [] && Different(ds) && forall i :: 0 <= i < |ds| ==> IsDeviceSpec(ids, ds[i])
    requires k < |ds| && ds[k].specs != [] && ds[k].specs[|ds[k].specs| - 1].size == None
    requires forall i :: 0 <= i < |ds[k].specs| ==> ds[k].specs[i].offset == None
    ensures var r := Parse(ids, "mtdparts=" + TableText(ds));
            r.Some? ==>
              && |r.value| == |ds| && r.value[k].id == ds[k].id
              && Placed(ds[k].id, 0, ds[k].specs) == Some(r.value[k].parts)
              && |r.value[k].parts| == |ds[k].specs|
              && var last := r.value[k].parts[|ds[k].specs| - 1]; last.offset + last.size == ds[k].id.size
  {
    hide IsDeviceSpec, Different, Parse, TableText, Placed, Tables;
    WrittenTable(ids, ds);
    if Tables(ds).Some? {
      TablesAt(ds, k);
      InOrder(ds[k].id, ds[k].specs);
    }
  }

  lemma InOrder(id: Id, ss: seq<Spec>)
    requires ss != [] && ss[|ss| - 1].size == None && forall i :: 0 <= i < |ss| ==> ss[i].offset == None
    ensures Placed(id, 0, ss).Some? ==>
              var ps := Placed(id, 0, ss).value;
              && Sorted(id, 0, ss) == Some(ps) && |ps| == |ss|
              && ps[|ss| - 1].offset + ps[|ss| - 1].size == id.size
  {
    if Placed(id, 0, ss).Some? {
      var ps := Placed(id, 0, ss).value;
      PlacedAt(id, 0, ss, |ss| - 1);
      hide Placed;
      forall i, j | 0 <= i < j < |ps|
        ensures ps[i].offset < ps[j].offset
      {
        FollowOn(id, ss, i, j);
      }
      SortAllSorted(ps);
    }
  }

  /** A partition behind one written "-" is refused, wherever it stands. */
  lemma NothingBehindRest(ids: seq<Id>, ds: seq<DeviceSpec>, k: nat, i: nat)
    requires ds != [] && Different(ds) && forall j :: 0 <= j < |ds| ==> IsDeviceSpec(ids, ds[j])
    requires k < |ds| && i < |ds[k].specs| - 1 && ds[k].specs[i].size == None
    ensures Parse(ids, "mtdparts=" + TableText(ds)) == None
  {
    WrittenTableParses(ids, ds);
    RestIsLast(ds[k].id, 0, ds[k].specs, i);
    assert !Describes(ds[k]);
  }

  /** A device that is listed already: partitions without an offset go behind its last one. */
  lemma {:induction false} StartsBehind(ds: seq<Device>, id: Id, k: nat)
    requires k < |ds| && ds[k].id.devType == id.devType && ds[k].id.num == id.num && ds[k].parts != []
    requires forall j :: 0 <= j < k ==> !(ds[j].id.devType == id.devType && ds[j].id.num == id.num)
    ensures var last := ds[k].parts[|ds[k].parts| - 1]; StartOffset(ds, id) == Wrap32(last.offset + last.size)
  {
    if k > 0 {
      StartsBehind(ds[1..], id, k - 1);
    }
  }

  // ----- the examples of the header -----

  const BOOT := Spec(Some(Numeral("", "256", "k")), None, Some("ARMboot"), true)
  const ROOT := Spec(None, None, Some("root"), false)
  const HOME := Spec(None, None, Some("home"), false)

  /** A flash with uniform eraseblocks that divide 256k, and room behind the first 256k. */
  ghost predicate Uniform(id: Id) {
    && id.flash.Some? && id.flash.value.regions == []
    && 262144 % id.flash.value.eraseSize == 0 && id.size % id.flash.value.eraseSize == 0
    && (id.size - 262144) % id.flash.value.eraseSize == 0
    && id.size > 262144
  }

  lemma TwoHundredFiftySix()
    ensures Positional(10, "256") == 256 && NumeralValue(Numeral("", "256", "k")) == 262144
  {
    assert "256"[..2] == "25" && "25"[..1] == "2" && "2"[..0] == "";
    assert Positional(10, "2") == 2 && Positional(10, "25") == 25;
  }

  lemma BootIs()
    ensures SpecText(BOOT) == "256k(ARMboot)ro" && SpecText(ROOT) == "-(root)" && SpecText(HOME) == "-(home)"
    ensures WrittenSize(BOOT) == 262144 && WrittenAt(BOOT) == 0xFFFF_FFFF
    ensures IsSpec(BOOT) && IsSpec(ROOT) && IsSpec(HOME)
  {
    TwoHundredFiftySix();
    hide Positional;
    assert "" + "256" + "k" == "256k";
    assert "256k" + "" + "(ARMboot)" + "ro" == "256k(ARMboot)ro";
    assert "(" + "ARMboot" + ")" == "(ARMboot)" && "(" + "root" + ")" == "(root)" && "(" + "home" + ")" == "(home)";
    assert "-" + "" + "(root)" + "" == "-(root)" && "-" + "" + "(home)" + "" == "-(home)";
  }

  /** The second example: 256k read-only, the rest of the NOR flash, and all of the NAND flash. */
  lemma HeaderExample(nor: Id, nand: Id)
    requires nor.mtdId == "edb7312-nor" && nand.mtdId == "edb7312-nand"
    requires !(nor.devType == nand.devType && nor.num == nand.num) && Uniform(nor) && Uniform(nand)
    ensures var text := "edb7312-nor:" + ("256k(ARMboot)ro" + "," + "-(root)") + ";" + ("edb7312-nand:" + "-(home)");
            Parse([nor, nand], "mtdparts=" + text) ==
            Some([Device(nor, [Part("ARMboot", false, 262144, 0, true),
                               Part("root", false, nor.size - 262144, 262144, false)]),
                  Device(nand, [Part("home", false, nand.size, 0, false)])])
  {
    HeaderText(nor, nand);
    HeaderSpecs(nor, nand);
    BootAndRoot(nor);
    HomeOnly(nand);
    var a, b := DeviceSpec(nor, [BOOT, ROOT]), DeviceSpec(nand, [HOME]);
    hide Sorted, Parse, TableText, IsDeviceSpec, Different, Uniform;
    WrittenTable([nor, nand], [a, b]);
    TwoTables(a, b);
  }

  lemma OneTable(a: DeviceSpec)
    requires Sorted(a.id, 0, a.specs).Some?
    ensures Tables([a]) == Some([Device(a.id, Sorted(a.id, 0, a.specs).value)])
  {
    hide Sorted;
    assert [a][1..] == [] && Tables([]) == Some([]);
    assert [Device(a.id, Sorted(a.id, 0, a.specs).value)] + [] == [Device(a.id, Sorted(a.id, 0, a.specs).value)];
  }

  lemma TwoTables(a: DeviceSpec, b: DeviceSpec)
    requires Sorted(a.id, 0, a.specs).Some? && Sorted(b.id, 0, b.specs).Some?
    ensures Tables([a, b]) ==
            Some([Device(a.id, Sorted(a.id, 0, a.specs).value), Device(b.id, Sorted(b.id, 0, b.specs).value)])
  {
    OneTable(b);
    hide Sorted;
    var ds := [a, b];
    assert ds[0] == a && ds[1..] == [b];
    var x, y := Device(a.id, Sorted(a.id, 0, a.specs).value), Device(b.id, Sorted(b.id, 0, b.specs).value);
    assert Tables(ds) == Some([x] + [y]);
    assert [x] + [y] == [x, y];
  }

  lemma OneSpec(a: Spec)
    ensures SpecsText([a]) == SpecText(a)
  {
    hide SpecText;
    assert [a][1..] == [] && SpecsText([]) == "";
    assert SpecText(a) + "" + "" == SpecText(a);
  }

  lemma TwoSpecs(a: Spec, b: Spec)
    ensures SpecsText([a, b]) == SpecText(a) + "," + SpecText(b)
  {
    OneSpec(b);
    hide SpecText;
    assert [a, b][1..] == [b];
  }

  lemma TwoDevices(a: DeviceSpec, b: DeviceSpec)
    ensures TableText([a, b]) == DeviceSpecText(a) + ";" + DeviceSpecText(b)
  {
    hide DeviceSpecText;
    assert [a, b][1..] == [b] && [b][1..] == [] && TableText([]) == "";
    assert DeviceSpecText(b) + "" + "" == DeviceSpecText(b);
  }

  lemma HeaderText(nor: Id, nand: Id)
    requires nor.mtdId == "edb7312-nor" && nand.mtdId == "edb7312-nand"
    ensures TableText([DeviceSpec(nor, [BOOT, ROOT]), DeviceSpec(nand, [HOME])])
            == "edb7312-nor:" + ("256k(ARMboot)ro" + "," + "-(root)") + ";" + ("edb7312-nand:" + "-(home)")
  {
    BootIs();
    TwoSpecs(BOOT, ROOT);
    OneSpec(HOME);
    TwoDevices(DeviceSpec(nor, [BOOT, ROOT]), DeviceSpec(nand, [HOME]));
    hide SpecText, SpecsText, TableText;
    assert "edb7312-nor" + ":" == "edb7312-nor:" && "edb7312-nand" + ":" == "edb7312-nand:";
  }

  lemma HeaderSpecs(nor: Id, nand: Id)
    requires nor.mtdId == "edb7312-nor" && nand.mtdId == "edb7312-nand"
    requires !(nor.devType == nand.devType && nor.num == nand.num)
    ensures var ds := [DeviceSpec(nor, [BOOT, ROOT]), DeviceSpec(nand, [HOME])];
            Different(ds) && forall i :: 0 <= i < |ds| ==> IsDeviceSpec([nor, nand], ds[i])
  {
    BootIs();
    hide SpecText, IsSpec;
    var ids := [nor, nand];
    assert ids[0] == nor && ids[1] == nand;
    assert "edb7312-nor" != "edb7312-nand" by {
      assert |"edb7312-nor"| == 11 && |"edb7312-nand"| == 12;
    }
    assert IsDeviceSpec(ids, DeviceSpec(nor, [BOOT, ROOT]));
    assert IsDeviceSpec(ids, DeviceSpec(nand, [HOME]));
  }

  lemma BootAndRoot(id: Id)
    requires Uniform(id)
    ensures Sorted(id, 0, [BOOT, ROOT]) ==
            Some([Part("ARMboot", false, 262144, 0, true), Part("root", false, id.size - 262144, 262144, false)])
  {
    BootIs();
    hide SpecText, IsSpec, AutoName, NumeralValue;
    assert [BOOT, ROOT][1..] == [ROOT] && [ROOT][1..] == [];
    var a, b := Part("ARMboot", false, 262144, 0, true), Part("root", false, id.size - 262144, 262144, false);
    assert Accepted(id, BOOT, 0, false) && PartOf(id, BOOT, 0) == a;
    assert Accepted(id, ROOT, 262144, true) && PartOf(id, ROOT, 262144) == b;
    hide Accepted, Lies;
    assert Placed(id, id.size, []) == Some([]) && [b] + [] == [b];
    assert Placed(id, 262144, [ROOT]) == Some([b]);
    assert Placed(id, 0, [BOOT, ROOT]) == Some([a] + [b]);
    SortAllSorted([a, b]);
  }

  lemma HomeOnly(id: Id)
    requires Uniform(id)
    ensures Sorted(id, 0, [HOME]) == Some([Part("home", false, id.size, 0, false)])
  {
    hide AutoName;
    assert [HOME][1..] == [];
    var a := Part("home", false, id.size, 0, false);
    assert Accepted(id, HOME, 0, true) && PartOf(id, HOME, 0) == a;
    hide Accepted, Lies;
    assert Placed(id, id.size, []) == Some([]) && [a] + [] == [a];
    assert Placed(id, 0, [HOME]) == Some([a]);
    SortAllSorted([a]);
  }

  /** The printer on a table with a gap: the second partition begins at 512k, behind the end of the first. */
  lemma PrintedExample(id: Id)
    requires id.mtdId == "edb7312-nor"
    ensures Generate([Device(id, [Part("ARMboot", false, 262144, 0, true),
                                  Part("root", false, 7340032, 524288, false)])])
            == "mtdparts=" + ("edb7312-nor" + ":" + ("256k" + "(ARMboot)" + "ro" + "," + ("7m" + "@512k" + "(root)")))
  {
    var a, b := Part("ARMboot", false, 262144, 0, true), Part("root", false, 7340032, 524288, false);
    SomeSizes();
    PrintedParts(a, b);
    hide PartText, PartsText;
    var d := Device(id, [a, b]);
    assert [d][1..] == [] && DevicesText([]) == "";
    assert DevicesText([d]) == DeviceText(d) + "" + "" == DeviceText(d);
  }

  lemma SomeSizes()
    ensures MemsizeFormat(262144) == "256k" && MemsizeFormat(7340032) == "7m" && MemsizeFormat(524288) == "512k"
  {
    SomeDecimals();
    hide Decimal;
  }

  lemma SomeDecimals()
    ensures Decimal(256) == "256" && Decimal(512) == "512" && Decimal(7) == "7"
  {
    TwoDigits();
    assert Decimal(256) == "25" + "6" && Decimal(512) == "51" + "2";
  }

  lemma TwoDigits()
    ensures Decimal(25) == "25" && Decimal(51) == "51"
  {
    assert Decimal(25) == "2" + "5" && Decimal(51) == "5" + "1";
  }

  lemma PrintedParts(a: Part, b: Part)
    requires a == Part("ARMboot", false, 262144, 0, true) && b == Part("root", false, 7340032, 524288, false)
    ensures PartsText(None, [a, b]) == "256k" + "(ARMboot)" + "ro" + "," + ("7m" + "@512k" + "(root)")
  {
    SomeSizes();
    hide MemsizeFormat;
    assert PartText(None, a) == "256k" + "" + ("(" + "ARMboot" + ")") + "ro" == "256k" + "(ARMboot)" + "ro";
    assert PartText(Some(a), b) == "7m" + ("@" + "512k") + ("(" + "root" + ")") + "" == "7m" + "@512k" + "(root)";
    hide PartText;
    assert [a, b][1..] == [b] && [b][1..] == [] && PartsText(Some(b), []) == "";
    assert PartsText(Some(a), [b]) == PartText(Some(a), b) + "" + "" == PartText(Some(a), b);
  }
}
