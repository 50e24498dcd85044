/** save_serial of cmd_load.c: a memory slice sent as S3 records of at most 16 bytes. */
module SRecord {
  import opened ByteSums
  import opened CTypes

  const BYTES_PER_RECORD := 16
  const START := "S0030000FC\n"
  const END := "S70500000000FA\n"

  /** Memory as the CPU reads it; addresses wrap at 4 GiB. */
  type Memory = u32 -> byte

  function HexDigit(x: nat): char
    requires x < 16
  {
    "0123456789ABCDEF"[x]
  }

  /** Two hexadecimal digits a byte. */
  ghost function HexOf(bs: seq<byte>): string {
    if bs == [] then "" else [HexDigit(bs[0] / 16), HexDigit(bs[0] % 16)] + HexOf(bs[1..])
  }

  /** %0nX for a number below 16^n. */
  function HexNumber(x: nat, n: nat): string {
    if n == 0 then "" else HexNumber(x / 16, n - 1) + [HexDigit(x % 16)]
  }

  function ByteAt(x: nat, i: nat): byte {
    if i == 0 then x % 0x100 else ByteAt(x / 0x100, i - 1)
  }

  /** The bytes of an address, the highest first. */
  function AddressBytes(a: u32): seq<byte> {
    [ByteAt(a, 3), ByteAt(a, 2), ByteAt(a, 1), ByteAt(a, 0)]
  }

  function Not8(x: nat): byte {
    0xFF - x % 0x100
  }

  // ----- reading records back -----

  function HexValue(c: char): int {
    if '0' <= c <= '9' then c as int - '0' as int else if 'A' <= c <= 'F' then c as int - 'A' as int + 10 else -1
  }

  ghost function BytesOf(s: string): Option<seq<byte>> {
    if s == [] then Some([])
    else if |s| == 1 || HexValue(s[0]) < 0 || HexValue(s[1]) < 0 then None
    else match BytesOf(s[2..])
      case None => None
      case Some(t) => Some([16 * HexValue(s[0]) + HexValue(s[1])] + t)
  }

  function AddressOf(b: seq<byte>): u32
    requires |b| == 4
  {
    b[0] as int * 0x100_0000 + b[1] as int * 0x1_0000 + b[2] as int * 0x100 + b[3]
  }

  datatype Piece = Piece(address: u32, data: seq<byte>)

  /** An S3 record: a count of the bytes behind it, four address bytes, the data and a checksum that makes
      all of them sum to 0xFF modulo 256. */
  ghost function Decode(line: string): Option<Piece> {
    if |line| < 3 || line[..2] != "S3" || line[|line| - 1] != '\n' then None
    else match BytesOf(line[2..|line| - 1])
      case None => None
      case Some(bs) =>
        if |bs| < 6 || bs[0] != |bs| - 1 || Sum(bs) % 0x100 != 0xFF then None
        else Some(Piece(AddressOf(bs[1..5]), bs[5..|bs| - 1]))
  }

  // ----- what is sent -----

  /** `n` bytes from `address` on. */
  ghost function Slice(mem: Memory, address: u32, n: nat): (r: seq<byte>)
    ensures |r| == n
  {
    if n == 0 then [] else Slice(mem, address, n - 1) + [mem(Wrap32(address + n - 1))]
  }

  ghost function Checksum(address: u32, data: seq<byte>): byte {
    Not8(Sum(data) + (5 + |data|) + Sum(AddressBytes(address)))
  }

  ghost function Record(address: u32, data: seq<byte>): string
    requires |data| <= BYTES_PER_RECORD
  {
    "S3" + HexNumber(5 + |data|, 2) + HexNumber(address, 8) + HexOf(data) + HexNumber(Checksum(address, data), 2) + "\n"
  }

  ghost function Records(mem: Memory, address: u32, count: nat): seq<string>
    decreases count
  {
    if count == 0 then []
    else
      var n := if count < BYTES_PER_RECORD then count else BYTES_PER_RECORD;
      [Record(address, Slice(mem, address, n))] + Records(mem, Wrap32(address + n), count - n)
  }

  lemma BytesOfStep(a: char, b: char, rest: string, bs: seq<byte>, x: byte)
    requires 0 <= HexValue(a) < 16 && 0 <= HexValue(b) < 16 && x == 16 * HexValue(a) + HexValue(b)
    requires BytesOf(rest) == Some(bs)
    ensures BytesOf([a, b] + rest) == Some([x] + bs)
  {
    hide HexValue;
    assert ([a, b] + rest)[2..] == rest;
  }

  lemma HexReadByte(x: byte, rest: string, bs: seq<byte>)
    requires BytesOf(rest) == Some(bs)
    ensures BytesOf([HexDigit(x / 16), HexDigit(x % 16)] + rest) == Some([x] + bs)
  {
    hide HexDigit, HexValue, BytesOf;
    DigitRead(x / 16);
    DigitRead(x % 16);
    BytesOfStep(HexDigit(x / 16), HexDigit(x % 16), rest, bs, x);
  }

  lemma {:induction false} HexRead(bs: seq<byte>)
    ensures BytesOf(HexOf(bs)) == Some(bs)
  {
    if bs != [] {
      hide HexDigit, HexValue, BytesOf;
      HexRead(bs[1..]);
      HexReadByte(bs[0], HexOf(bs[1..]), bs[1..]);
      assert bs == [bs[0]] + bs[1..];
    }
  }

  lemma DigitRead(x: nat)
    requires x < 16
    ensures HexValue(HexDigit(x)) == x
  {
  }

  lemma {:induction false} HexConcat(a: seq<byte>, b: seq<byte>)
    ensures HexOf(a + b) == HexOf(a) + HexOf(b)
  {
    if a == [] {
      assert a + b == b;
    } else {
      assert (a + b)[1..] == a[1..] + b;
      HexConcat(a[1..], b);
    }
  }

  lemma HexByte(x: byte)
    ensures HexNumber(x, 2) == HexOf([x])
  {
    assert HexNumber(x / 16, 1) == HexNumber(x / 16 / 16, 0) + [HexDigit(x / 16 % 16)];
    assert [x][1..] == [];
    assert HexOf([x][1..]) == "";
  }

  lemma Nibbles(x: nat)
    ensures x / 16 / 16 == x / 0x100 && x / 16 % 16 == x % 0x100 / 16 && x % 16 == x % 0x100 % 16
  {
  }

  lemma NumberStep(x: nat, n: nat)
    ensures HexNumber(x, n + 1) == HexNumber(x / 16, n) + [HexDigit(x % 16)]
  {
  }

  lemma HexPair(x: nat, n: nat)
    ensures HexNumber(x, n + 2) == HexNumber(x / 0x100, n) + HexOf([x % 0x100])
  {
    var b: byte := x % 0x100;
    Nibbles(x);
    HexByte(b);
    NumberStep(x, n + 1);
    NumberStep(x / 16, n);
    NumberStep(b, 1);
    NumberStep(b / 16, 0);
    hide HexNumber, HexOf, HexDigit;
    assert HexNumber(b / 16 / 16, 0) + [HexDigit(b / 16 % 16)] == [HexDigit(b / 16 % 16)] by { NoDigits(b / 16 / 16); }
  }

  lemma NoDigits(x: nat)
    ensures HexNumber(x, 0) == ""
  {
  }

  lemma ByteIs(a: nat)
    ensures ByteAt(a, 0) == a % 0x100
    ensures ByteAt(a, 1) == a / 0x100 % 0x100
    ensures ByteAt(a, 2) == a / 0x100 / 0x100 % 0x100
    ensures ByteAt(a, 3) == a / 0x100 / 0x100 / 0x100 % 0x100
  {
    assert ByteAt(a, 2) == ByteAt(a / 0x100, 1);
    assert ByteAt(a, 3) == ByteAt(a / 0x100, 2) == ByteAt(a / 0x100 / 0x100, 1);
  }

  /** %08lX prints the four bytes of an address. */
  lemma HexAddress(a: u32)
    ensures HexNumber(a, 8) == HexOf(AddressBytes(a))
  {
    hide HexNumber, HexOf;
    ByteIs(a);
    HexPair(a, 6);
    HexPair(a / 0x100, 4);
    HexPair(a / 0x100 / 0x100, 2);
    HexPair(a / 0x100 / 0x100 / 0x100, 0);
    NoDigits(a / 0x100 / 0x100 / 0x100 / 0x100);
    var b3, b2, b1, b0 := [ByteAt(a, 3)], [ByteAt(a, 2)], [ByteAt(a, 1)], [ByteAt(a, 0)];
    HexConcat(b3, b2);
    HexConcat(b3 + b2, b1);
    HexConcat(b3 + b2 + b1, b0);
    assert AddressBytes(a) == b3 + b2 + b1 + b0;
  }

  lemma AddressRead(a: u32)
    ensures AddressOf(AddressBytes(a)) == a
  {
    ByteIs(a);
    hide ByteAt;
    var x := a / 0x100;
    var y := x / 0x100;
    var z := y / 0x100;
    assert a == x * 0x100 + a % 0x100 && x == y * 0x100 + x % 0x100 && y == z * 0x100 + y % 0x100 && z < 0x100;
  }

  /** The bytes of a record: count, address, data, checksum. */
  ghost function RecordBytes(address: u32, data: seq<byte>): seq<byte>
    requires |data| <= BYTES_PER_RECORD
  {
    [5 + |data|] + AddressBytes(address) + data + [Checksum(address, data)]
  }

  lemma RecordIsHex(address: u32, data: seq<byte>)
    requires |data| <= BYTES_PER_RECORD
    ensures Record(address, data) == "S3" + HexOf(RecordBytes(address, data)) + "\n"
  {
    hide HexNumber, HexOf, AddressBytes, Checksum;
    var n: byte := 5 + |data|;
    HexByte(n);
    HexByte(Checksum(address, data));
    HexAddress(address);
    HexConcat([n], AddressBytes(address));
    HexConcat([n] + AddressBytes(address), data);
    HexConcat([n] + AddressBytes(address) + data, [Checksum(address, data)]);
  }

  /** Count, address, data and checksum sum to 0xFF modulo 256. */
  lemma RecordSum(address: u32, data: seq<byte>)
    requires |data| <= BYTES_PER_RECORD
    ensures Sum(RecordBytes(address, data)) % 0x100 == 0xFF
  {
    hide Sum, AddressBytes;
    var n: byte := 5 + |data|;
    var c := Checksum(address, data);
    SumConcat([n], AddressBytes(address));
    SumConcat([n] + AddressBytes(address), data);
    SumConcat([n] + AddressBytes(address) + data, [c]);
    SumOne(n);
    SumOne(c);
  }

  lemma SumOne(x: byte)
    ensures Sum([x]) == x
  {
    assert [x][..0] == [];
    assert Sum([x][..0]) == 0;
  }

  /** Every record decodes to the bytes it was made of. */
  lemma RecordDecodes(address: u32, data: seq<byte>)
    requires |data| <= BYTES_PER_RECORD
    ensures Decode(Record(address, data)) == Some(Piece(address, data))
  {
    var bs := RecordBytes(address, data);
    RecordIsHex(address, data);
    RecordSum(address, data);
    HexRead(bs);
    AddressRead(address);
    hide Record, HexOf, BytesOf, Sum, Checksum, AddressOf;
    var line := "S3" + HexOf(bs) + "\n";
    assert line[..2] == "S3" && line[2..|line| - 1] == HexOf(bs) && line[|line| - 1] == '\n';
    assert bs[1..5] == AddressBytes(address);
    assert bs[5..|bs| - 1] == data;
  }

  /** The header and the end record are complete too: their bytes sum to 0xFF. */
  lemma HeaderAndEnd()
    ensures START == "S0030000FC\n" && BytesOf("030000FC") == Some([3, 0, 0, 0xFC])
    ensures Sum([3, 0, 0, 0xFC]) % 0x100 == 0xFF
    ensures END == "S70500000000FA\n" && BytesOf("0500000000FA") == Some([5, 0, 0, 0, 0, 0xFA])
    ensures Sum([5, 0, 0, 0, 0, 0xFA]) % 0x100 == 0xFF
  {
    HeaderRead();
    EndRead();
    hide Sum, BytesOf;
    SumFour(3, 0, 0, 0xFC);
    EndSum();
  }

  lemma EndSum()
    ensures Sum([5, 0, 0, 0, 0, 0xFA]) == 0xFF
  {
    hide Sum;
    SumFour(5, 0, 0, 0);
    SumConcat([0], [0xFA]);
    SumOne(0);
    SumOne(0xFA);
    SumConcat([5, 0, 0, 0], [0, 0xFA]);
    assert [5, 0, 0, 0] + [0, 0xFA] == [5, 0, 0, 0, 0, 0xFA] && [0] + [0xFA] == [0, 0xFA];
  }

  lemma HeaderRead()
    ensures BytesOf("030000FC") == Some([3, 0, 0, 0xFC])
  {
    hide BytesOf;
    ReadPairs("030000FC", [3, 0, 0, 0xFC]);
  }

  lemma EndRead()
    ensures BytesOf("0500000000FA") == Some([5, 0, 0, 0, 0, 0xFA])
  {
    hide BytesOf;
    ReadPairs("0500000000FA", [5, 0, 0, 0, 0, 0xFA]);
  }

  lemma SumFour(a: byte, b: byte, c: byte, d: byte)
    ensures Sum([a, b, c, d]) == a as int + b + c + d
  {
    hide Sum;
    SumConcat([a], [b]);
    SumConcat([a, b], [c]);
    SumConcat([a, b, c], [d]);
    SumOne(a);
    SumOne(b);
    SumOne(c);
    SumOne(d);
    assert [a] + [b] == [a, b] && [a, b] + [c] == [a, b, c] && [a, b, c] + [d] == [a, b, c, d];
  }

  /** Pairs of digits, read one after the other. */
  lemma {:induction false} ReadPairs(s: string, bs: seq<byte>)
    requires |s| == 2 * |bs|
    requires forall k :: 0 <= k < |bs| ==> PairIs(s, k, bs[k])
    ensures BytesOf(s) == Some(bs)
    decreases |bs|
  {
    if bs != [] {
      assert PairIs(s, 0, bs[0]);
      forall k | 0 <= k < |bs[1..]|
        ensures PairIs(s[2..], k, bs[1..][k])
      {
        assert PairIs(s, k + 1, bs[k + 1]);
      }
      ReadPairs(s[2..], bs[1..]);
      hide HexValue, BytesOf;
      assert s == [s[0], s[1]] + s[2..] && bs == [bs[0]] + bs[1..];
      BytesOfStep(s[0], s[1], s[2..], bs[1..], bs[0]);
    }
  }

  predicate PairIs(s: string, k: nat, x: byte)
    requires 2 * k + 1 < |s|
  {
    0 <= HexValue(s[2 * k]) < 16 && 0 <= HexValue(s[2 * k + 1]) < 16
    && x == 16 * HexValue(s[2 * k]) + HexValue(s[2 * k + 1])
  }

  /** Two bytes at 0x80001234: count 7, checksum 0xFF - (7 + 0x80 + 0x12 + 0x34 + 1 + 0xAB) modulo 256. */
  lemma RecordExample()
    ensures Record(0x8000_1234, [0x01, 0xAB]) == "S3" + "07" + "80001234" + "01AB" + "86" + "\n"
  {
    hide Sum, HexNumber, HexOf, ByteAt;
    ByteIs(0x8000_1234);
    var data: seq<byte> := [0x01, 0xAB];
    ExampleHex();
    SumFour(0x80, 0, 0x12, 0x34);
    SumConcat([0x01], [0xAB]);
    SumOne(0x01);
    SumOne(0xAB);
    assert [0x01] + [0xAB] == data;
    assert AddressBytes(0x8000_1234) == [0x80, 0, 0x12, 0x34];
    assert Checksum(0x8000_1234, data) == 0x86;
  }

  lemma ExampleHex()
    ensures HexNumber(7, 2) == "07" && HexNumber(0x86, 2) == "86" && HexNumber(0x8000_1234, 8) == "80001234"
    ensures HexOf([0x01, 0xAB]) == "01AB"
  {
    ExampleBytes();
    hide HexNumber, HexOf, AddressBytes;
    HexByte(7);
    HexByte(0x86);
    HexAddress(0x8000_1234);
  }

  lemma ExampleBytes()
    ensures AddressBytes(0x8000_1234) == [0x80, 0, 0x12, 0x34]
    ensures HexOf([7]) == "07" && HexOf([0x86]) == "86" && HexOf([0x80, 0, 0x12, 0x34]) == "80001234"
    ensures HexOf([0x01, 0xAB]) == "01AB"
  {
    hide HexOf;
    ByteIs(0x8000_1234);
    HexPrinted([7], "07");
    HexPrinted([0x86], "86");
    HexPrinted([0x80, 0, 0x12, 0x34], "80001234");
    HexPrinted([0x01, 0xAB], "01AB");
  }

  lemma {:induction false} HexPrinted(bs: seq<byte>, s: string)
    requires |s| == 2 * |bs|
    requires forall k :: 0 <= k < |bs| ==> s[2 * k] == HexDigit(bs[k] / 16) && s[2 * k + 1] == HexDigit(bs[k] % 16)
    ensures HexOf(bs) == s
    decreases |bs|
  {
    if bs != [] {
      forall k | 0 <= k < |bs[1..]|
        ensures s[2..][2 * k] == HexDigit(bs[1..][k] / 16) && s[2..][2 * k + 1] == HexDigit(bs[1..][k] % 16)
      {
        assert s[2 * (k + 1)] == HexDigit(bs[k + 1] / 16);
      }
      HexPrinted(bs[1..], s[2..]);
      hide HexDigit;
      assert s == [s[0], s[1]] + s[2..];
    }
  }

  // ----- the whole upload -----

  /** The records decode to contiguous ascending pieces of 1 to 16 bytes from `address` on. */
  ghost predicate Contiguous(lines: seq<string>, address: u32) {
    lines == [] ||
    (Decode(lines[0]).Some? &&
     var p := Decode(lines[0]).value;
     p.address == address && 0 < |p.data| <= BYTES_PER_RECORD && Contiguous(lines[1..], Wrap32(address + |p.data|)))
  }

  ghost function Joined(lines: seq<string>): seq<byte> {
    if lines == [] then []
    else (if Decode(lines[0]).Some? then Decode(lines[0]).value.data else []) + Joined(lines[1..])
  }

  lemma {:induction false} SliceSplit(mem: Memory, address: u32, a: nat, b: nat)
    ensures Slice(mem, address, a + b) == Slice(mem, address, a) + Slice(mem, Wrap32(address + a), b)
  {
    if b > 0 {
      SliceSplit(mem, address, a, b - 1);
      WrapSum(address, a, b - 1);
    }
  }

  lemma WrapSum(x: nat, a: nat, b: nat)
    ensures Wrap32(Wrap32(x + a) + b) == Wrap32(x + a + b)
  {
  }

  /** For every address and length, zero and beyond the top of memory included, the data records decode to
      exactly the memory slice, in order and without gaps. */
  lemma {:induction false} UploadIsSlice(mem: Memory, address: u32, count: nat)
    ensures Contiguous(Records(mem, address, count), address)
    ensures Joined(Records(mem, address, count)) == Slice(mem, address, count)
    decreases count
  {
    hide Decode, Record;
    if count > 0 {
      var n := if count < BYTES_PER_RECORD then count else BYTES_PER_RECORD;
      var next := Wrap32(address + n);
      UploadIsSlice(mem, next, count - n);
      RecordDecodes(address, Slice(mem, address, n));
      SliceSplit(mem, address, n, count - n);
      var lines := Records(mem, address, count);
      assert lines[1..] == Records(mem, next, count - n);
    }
  }

  lemma {:induction false} SliceAt(mem: Memory, address: u32, n: nat, i: nat)
    requires i < n
    ensures Slice(mem, address, n)[i] == mem((address + i) % 0x1_0000_0000)
  {
    if i < n - 1 {
      SliceAt(mem, address, n - 1, i);
    }
  }

  lemma OneByteMore(mem: Memory, address: u32, n: nat)
    ensures var c := mem(Wrap32(address + n));
      && Slice(mem, address, n + 1) == Slice(mem, address, n) + [c]
      && Sum(Slice(mem, address, n + 1)) == Sum(Slice(mem, address, n)) + c
      && HexOf(Slice(mem, address, n + 1)) == HexOf(Slice(mem, address, n)) + [HexDigit(c / 16), HexDigit(c % 16)]
  {
    var c := mem(Wrap32(address + n));
    var s := Slice(mem, address, n);
    HexConcat(s, [c]);
    SumConcat(s, [c]);
    SumOne(c);
    assert [c][1..] == [];
    assert HexOf([c]) == [HexDigit(c / 16), HexDigit(c % 16)];
  }

  /** The bytes of a number summed by shifting, as the checksum loops do. */
  method SumOfBytes(x: nat, n: nat) returns (sum: nat)
    ensures sum == BytesSum(x, n)
  {
    sum := 0;
    for i := 0 to n
      invariant sum == BytesSum(x, i)
    {
      sum := sum + ByteAt(x, i);
    }
  }

  ghost function BytesSum(x: nat, n: nat): nat {
    if n == 0 then 0 else BytesSum(x, n - 1) + ByteAt(x, n - 1)
  }

  lemma SumsAgree(address: u32, length: nat)
    requires length < 0x100
    ensures BytesSum(address, 4) == Sum(AddressBytes(address)) && BytesSum(length, 2) == length
  {
    var a, b, c, d := ByteAt(address, 3), ByteAt(address, 2), ByteAt(address, 1), ByteAt(address, 0);
    SumConcat([a], [b]);
    SumConcat([a, b], [c]);
    SumConcat([a, b, c], [d]);
    SumOne(a);
    SumOne(b);
    SumOne(c);
    SumOne(d);
    assert [a] + [b] == [a, b] && [a, b] + [c] == [a, b, c] && [a, b, c] + [d] == AddressBytes(address);
    assert BytesSum(address, 0) == 0;
    assert BytesSum(address, 1) == d;
    var two: nat := d as int + c;
    assert BytesSum(address, 2) == two;
    assert BytesSum(address, 3) == two + b;
    assert ByteAt(length, 1) == 0;
    assert BytesSum(length, 0) == 0;
    assert BytesSum(length, 1) == length;
  }

  /** Build one record from the collected digits and the checksum of the data. */
  method BuildRecord(address: u32, data: string, reclen: nat, sum: nat, ghost bytes: seq<byte>) returns (record: string)
    requires 0 < reclen <= BYTES_PER_RECORD && |bytes| == reclen && data == HexOf(bytes) && sum == Sum(bytes)
    ensures record == Record(address, bytes)
  {
    var length := 4 + reclen + 1;
    var checksum := sum;
    SumsAgree(address, length);
    var part := SumOfBytes(length, 2);
    checksum := checksum + part;
    part := SumOfBytes(address, 4);
    checksum := checksum + part;
    record := "S3" + HexNumber(length, 2) + HexNumber(address, 8) + data + HexNumber(Not8(checksum), 2) + "\n";
  }

  method SaveSerial(mem: Memory, address: u32, count: nat) returns (sent: seq<string>)
    ensures sent == [START] + Records(mem, address, count) + [END]
    ensures |sent| >= 2 && sent[0] == "S0030000FC\n" && sent[|sent| - 1] == "S70500000000FA\n"
    ensures var lines := sent[1..|sent| - 1];
      && Contiguous(lines, address) && |Joined(lines)| == count
      && |lines| == (count + 15) / 16
      && forall i :: 0 <= i < count ==> Joined(lines)[i] == mem((address + i) % 0x1_0000_0000)
  {
    UploadHolds(mem, address, count);
    RecordCount(mem, address, count);
    sent := SendAll(mem, address, count);
    assert sent[1..|sent| - 1] == Records(mem, address, count);
  }

  /** All records but the last hold 16 bytes. */
  lemma {:induction false} RecordCount(mem: Memory, address: u32, count: nat)
    ensures |Records(mem, address, count)| == (count + 15) / 16
    decreases count
  {
    hide Record, Slice;
    if count > 16 {
      RecordCount(mem, Wrap32(address + 16), count - 16);
    }
  }

  lemma UploadHolds(mem: Memory, address: u32, count: nat)
    ensures var lines := Records(mem, address, count);
      && Contiguous(lines, address) && |Joined(lines)| == count
      && forall i :: 0 <= i < count ==> Joined(lines)[i] == mem((address + i) % 0x1_0000_0000)
  {
    hide Records, Contiguous, Joined, Slice;
    UploadIsSlice(mem, address, count);
    forall i | 0 <= i < count
      ensures Joined(Records(mem, address, count))[i] == mem((address + i) % 0x1_0000_0000)
    {
      SliceAt(mem, address, count, i);
    }
  }

  method SendAll(mem: Memory, address: u32, count: nat) returns (sent: seq<string>)
    ensures sent == [START] + Records(mem, address, count) + [END]
  {
    sent := [START];
    hide Slice, Record, Records, HexOf, Sum;
    Nothing(mem, address);
    var addr: u32 := address;
    var left := count;
    var reclen, checksum: nat, data := 0, 0, "";
    ghost var bytes: seq<byte> := [];
    var more := true;
    while more
      invariant reclen < BYTES_PER_RECORD && (more || (left == 0 && reclen == 0))
      invariant bytes == Slice(mem, addr, reclen) && checksum == Sum(bytes) && data == HexOf(bytes)
      invariant left == 0 ==> reclen == 0
      invariant sent + Records(mem, addr, reclen + left) == [START] + Records(mem, address, count)
      decreases left, more
    {
      if left > 0 {
        OneByteMore(mem, addr, reclen);
        var c := mem(Wrap32(addr + reclen));
        checksum := checksum + c;
        data := data + [HexDigit(c / 16), HexDigit(c % 16)];
        bytes := bytes + [c];
        reclen, left := reclen + 1, left - 1;
      }
      if reclen == BYTES_PER_RECORD || left == 0 {
        if reclen > 0 {
          FlushStep(mem, addr, reclen, left);
          var record := BuildRecord(addr, data, reclen, checksum, bytes);
          sent := sent + [record];
        }
        addr := Wrap32(addr + reclen);
        Nothing(mem, addr);
        checksum, reclen, data, bytes := 0, 0, "", [];
      }
      more := left > 0;
    }
    Nothing(mem, addr);
    assert sent + [] == sent;
    sent := sent + [END];
  }

  lemma Nothing(mem: Memory, address: u32)
    ensures Slice(mem, address, 0) == [] && Sum([]) == 0 && HexOf([]) == "" && Records(mem, address, 0) == []
    ensures Wrap32(address) == address
  {
  }

  /** A full buffer, or the last bytes, make the next record. */
  lemma FlushStep(mem: Memory, address: u32, reclen: nat, left: nat)
    requires 0 < reclen <= BYTES_PER_RECORD && (reclen == BYTES_PER_RECORD || left == 0)
    ensures Records(mem, address, reclen + left)
         == [Record(address, Slice(mem, address, reclen))] + Records(mem, Wrap32(address + reclen), left)
  {
    hide Record, Slice;
  }
}
