/** Sizes and offsets as text: simple_strtoul with base 0, memsize_parse and memsize_format. */
module MtdNumbers {
  import opened CTypes

  /** A parsed number and the text behind it. A string stands for the C string up to its NUL. */
  datatype Parsed = Parsed(value: u32, rest: string)

  /** The value of a hexadecimal digit, or -1. */
  function DigitValue(c: char): int {
    if '0' <= c <= '9' then c as int - '0' as int
    else if 'a' <= c <= 'f' then c as int - 'a' as int + 10
    else if 'A' <= c <= 'F' then c as int - 'A' as int + 10
    else -1
  }

  predicate IsDigit(c: char, base: nat) {
    0 <= DigitValue(c) < base
  }

  ghost function ScanDigits(acc: u32, base: nat, s: string): Parsed
    decreases s
  {
    if s == [] || !IsDigit(s[0], base) then Parsed(acc, s)
    else ScanDigits(Wrap32(acc * base + DigitValue(s[0])), base, s[1..])
  }

  /** simple_strtoul with base 0: a leading 0 means octal, 0x before a digit hexadecimal. */
  ghost function StrToUl(s: string): Parsed {
    if s != [] && s[0] == '0' then
      if |s| >= 3 && s[1] == 'x' && DigitValue(s[2]) >= 0 then ScanDigits(0, 16, s[2..])
      else ScanDigits(0, 8, s[1..])
    else
      ScanDigits(0, 10, s)
  }

  method ReadNumber(s: string) returns (r: Parsed)
    ensures r == StrToUl(s)
  {
    var cp, base := 0, 0;
    if cp < |s| && s[cp] == '0' {
      cp := cp + 1;
      if cp + 1 < |s| && s[cp] == 'x' && DigitValue(s[cp + 1]) >= 0 {
        base := 16;
        cp := cp + 1;
      }
      if base == 0 {
        base := 8;
      }
    }
    if base == 0 {
      base := 10;
    }
    var result: u32 := 0;
    assert ScanDigits(result, base, s[cp..]) == StrToUl(s);
    while cp < |s| && IsDigit(s[cp], base)
      invariant 0 <= cp <= |s|
      invariant ScanDigits(result, base, s[cp..]) == StrToUl(s)
    {
      assert s[cp..][1..] == s[cp + 1..];
      result := Wrap32(result * base + DigitValue(s[cp]));
      cp := cp + 1;
    }
    r := Parsed(result, s[cp..]);
  }

  function Shift10(v: u32): u32 {
    Wrap32(v * 1024)
  }

  /** memsize_parse: G falls through to M and K. */
  ghost function MemsizeParse(s: string): Parsed {
    var p := StrToUl(s);
    if p.rest == [] then p
    else
      var c := p.rest[0];
      if c == 'G' || c == 'g' then Parsed(Shift10(Shift10(Shift10(p.value))), p.rest[1..])
      else if c == 'M' || c == 'm' then Parsed(Shift10(Shift10(p.value)), p.rest[1..])
      else if c == 'K' || c == 'k' then Parsed(Shift10(p.value), p.rest[1..])
      else p
  }

  method ReadMemsize(s: string) returns (r: Parsed)
    ensures r == MemsizeParse(s)
  {
    r := ReadNumber(s);
    if r.rest != [] {
      var c := r.rest[0];
      var ret := r.value;
      if c in "Gg" {
        ret := Shift10(ret);
      }
      if c in "GgMm" {
        ret := Shift10(ret);
      }
      if c in "GgMmKk" {
        ret := Shift10(ret);
        r := Parsed(ret, r.rest[1..]);
      }
    }
  }

  /** The %u conversion. */
  function Decimal(n: nat): (s: string)
    ensures s != []
  {
    if n < 10 then [('0' as int + n) as char] else Decimal(n / 10) + [('0' as int + n % 10) as char]
  }

  const SIZE_GB := 1024 * 1024 * 1024
  const SIZE_MB := 1024 * 1024
  const SIZE_KB := 1024

  function MemsizeFormat(size: u32): string {
    if size % SIZE_GB == 0 then Decimal(size / SIZE_GB) + "g"
    else if size % SIZE_MB == 0 then Decimal(size / SIZE_MB) + "m"
    else if size % SIZE_KB == 0 then Decimal(size / SIZE_KB) + "k"
    else Decimal(size)
  }

  // ----- parsing undoes formatting -----

  ghost predicate AllDigits(s: string) {
    forall i :: 0 <= i < |s| ==> IsDigit(s[i], 10)
  }

  ghost function DecimalValue(s: string): nat
    requires AllDigits(s)
  {
    if s == [] then 0 else 10 * DecimalValue(s[..|s| - 1]) + DigitValue(s[|s| - 1])
  }

  lemma {:induction false} DecimalIsDecimal(n: nat)
    ensures AllDigits(Decimal(n)) && DecimalValue(Decimal(n)) == n
    ensures n > 0 ==> Decimal(n)[0] != '0'
  {
    if n < 10 {
      assert Decimal(n)[..0] == [];
      assert DecimalValue(Decimal(n)[..0]) == 0;
    } else {
      DecimalIsDecimal(n / 10);
      assert Decimal(n)[..|Decimal(n)| - 1] == Decimal(n / 10);
    }
  }

  lemma {:induction false} ScanSplit(acc: u32, base: nat, a: string, c: char, t: string)
    requires (forall i :: 0 <= i < |a| ==> IsDigit(a[i], base)) && IsDigit(c, base)
    ensures ScanDigits(acc, base, a + [c] + t)
            == ScanDigits(Wrap32(ScanDigits(acc, base, a).value * base + DigitValue(c)), base, t)
    decreases |a|
  {
    if a == [] {
      assert a + [c] + t == [c] + t;
      assert ([c] + t)[1..] == t;
    } else {
      assert (a + [c] + t)[1..] == a[1..] + [c] + t;
      ScanSplit(Wrap32(acc * base + DigitValue(a[0])), base, a[1..], c, t);
    }
  }

  lemma DecimalSnoc(s: string)
    requires AllDigits(s) && s != []
    ensures var p, c := s[..|s| - 1], s[|s| - 1];
            && AllDigits(p) && (forall i :: 0 <= i < |p| ==> IsDigit(p[i], 10))
            && IsDigit(c, 10) && 0 <= DigitValue(c) < 10
            && DecimalValue(s) == 10 * DecimalValue(p) + DigitValue(c)
  {
  }

  lemma {:induction false} ScanDecimal(s: string, t: string)
    requires AllDigits(s) && DecimalValue(s) < U32_LIMIT
    requires t == [] || !IsDigit(t[0], 10)
    ensures ScanDigits(0, 10, s + t) == Parsed(DecimalValue(s), t)
  {
    if s == [] {
      assert s + t == t;
    } else {
      var p, c := s[..|s| - 1], s[|s| - 1];
      DecimalSnoc(s);
      hide ScanDigits, DecimalValue, IsDigit, DigitValue, AllDigits, Wrap32;
      ScanDecimal(p, []);
      ScanSplit(0, 10, p, c, t);
      LastApart(s);
      Unwrapped(DecimalValue(s));
      ScanStops(DecimalValue(s), t);
    }
  }

  lemma LastApart(s: string)
    requires s != []
    ensures s[..|s| - 1] + [] == s[..|s| - 1] && s[..|s| - 1] + [s[|s| - 1]] == s
  {
  }

  lemma Unwrapped(x: int)
    requires 0 <= x < U32_LIMIT
    ensures Wrap32(x) == x
  {
  }

  lemma {:induction false} ScanStops(acc: u32, t: string)
    requires t == [] || !IsDigit(t[0], 10)
    ensures ScanDigits(acc, 10, t) == Parsed(acc, t)
  {
  }

  lemma {:induction false} ReadsDecimal(n: nat, t: string)
    requires 0 < n < U32_LIMIT
    requires t == [] || !IsDigit(t[0], 10)
    ensures StrToUl(Decimal(n) + t) == Parsed(n, t)
  {
    DecimalIsDecimal(n);
    ScanDecimal(Decimal(n), t);
    assert (Decimal(n) + t)[0] == Decimal(n)[0];
  }

  /** The characters that may follow a formatted size without being taken for a part of it. */
  ghost predicate EndsNumber(t: string) {
    t == [] || (!IsDigit(t[0], 10) && t[0] !in "GgMmKk")
  }

  lemma ReadsSuffix(n: nat, c: char, t: string)
    requires 0 < n < U32_LIMIT && c in "gmk"
    ensures StrToUl(Decimal(n) + [c] + t) == Parsed(n, [c] + t)
  {
    assert Decimal(n) + [c] + t == Decimal(n) + ([c] + t);
    ReadsDecimal(n, [c] + t);
  }

  lemma {:induction false} ReadsZero(t: string)
    ensures MemsizeParse("0g" + t) == Parsed(0, t)
  {
    var s := "0g" + t;
    assert s[1..] == "g" + t;
    assert ScanDigits(0, 8, s[1..]) == Parsed(0, "g" + t);
    assert ("g" + t)[1..] == t;
  }

  lemma ParsesGiga(n: nat, t: string)
    requires 0 < n < 4
    ensures MemsizeParse(Decimal(n) + "g" + t) == Parsed(n * SIZE_GB, t)
  {
    ReadsSuffix(n, 'g', t);
    assert (['g'] + t)[1..] == t;
    assert Shift10(n) == n * 1024 && Shift10(n * 1024) == n * SIZE_MB && Shift10(n * SIZE_MB) == n * SIZE_GB;
  }

  lemma ParsesMega(n: nat, t: string)
    requires 0 < n < 4096
    ensures MemsizeParse(Decimal(n) + "m" + t) == Parsed(n * SIZE_MB, t)
  {
    ReadsSuffix(n, 'm', t);
    assert (['m'] + t)[1..] == t;
    assert Shift10(n) == n * 1024 && Shift10(n * 1024) == n * SIZE_MB;
  }

  lemma ParsesKilo(n: nat, t: string)
    requires 0 < n < 4194304
    ensures MemsizeParse(Decimal(n) + "k" + t) == Parsed(n * SIZE_KB, t)
  {
    ReadsSuffix(n, 'k', t);
    assert (['k'] + t)[1..] == t;
    assert Shift10(n) == n * 1024;
  }

  lemma ParsesPlain(n: nat, t: string)
    requires 0 < n < U32_LIMIT && EndsNumber(t)
    ensures MemsizeParse(Decimal(n) + t) == Parsed(n, t)
  {
    ReadsDecimal(n, t);
  }

  lemma ParsesZero(t: string)
    ensures MemsizeParse(Decimal(0) + "g" + t) == Parsed(0, t)
  {
    assert Decimal(0) == "0";
    assert "0" + "g" == "0g";
    ReadsZero(t);
  }

  /** The four forms memsize_format chooses from. */
  lemma FormatForms(size: u32) returns (n: nat, unit: nat, suffix: string)
    ensures MemsizeFormat(size) == Decimal(n) + suffix && size == n * unit
    ensures (suffix == "g" && unit == SIZE_GB && n < 4) || (suffix == "m" && unit == SIZE_MB && 0 < n < 4096)
         || (suffix == "k" && unit == SIZE_KB && 0 < n < 4194304) || (suffix == "" && unit == 1 && n > 0)
  {
    if size % SIZE_GB == 0 {
      n, unit, suffix := size / SIZE_GB, SIZE_GB, "g";
    } else if size % SIZE_MB == 0 {
      n, unit, suffix := size / SIZE_MB, SIZE_MB, "m";
    } else if size % SIZE_KB == 0 {
      n, unit, suffix := size / SIZE_KB, SIZE_KB, "k";
    } else {
      n, unit, suffix := size, 1, "";
      assert Decimal(n) + "" == Decimal(n);
    }
  }

  /** memsize_parse undoes memsize_format for every 32-bit size. */
  lemma MemsizeRoundTrip(size: u32, t: string)
    requires EndsNumber(t)
    ensures MemsizeParse(MemsizeFormat(size) + t) == Parsed(size, t)
  {
    hide MemsizeParse, MemsizeFormat, Decimal;
    var n, unit, suffix := FormatForms(size);
    if suffix == "" {
      assert Decimal(n) + "" == Decimal(n);
      ParsesPlain(n, t);
    } else if suffix == "k" {
      ParsesKilo(n, t);
    } else if suffix == "m" {
      ParsesMega(n, t);
    } else if n == 0 {
      ParsesZero(t);
    } else {
      ParsesGiga(n, t);
    }
  }
}
