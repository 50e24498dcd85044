/** EEPROM transfers of cmd_eeprom.c: chunks that respect the write page, whose address counter wraps,
    and the 256-byte block of a read. */
module Eeprom {
  import opened CTypes
  import opened BitMath

  const BLOCK := 0x100

  /** Where the address counter stands after `i` bytes from `ofs`: it counts only within a page. */
  function Counter(ofs: nat, i: nat, page: nat): nat
    requires page > 0
  {
    ofs - ofs % page + (ofs + i) % page
  }

  lemma {:induction false} ModUnique(x: int, p: nat, q: int, r: nat)
    requires r < p && x == q * p + r
    ensures x % p == r
  {
    var d := x / p - q;
    assert d * p == r - x % p;
    Small(d, p, r - x % p);
  }

  lemma Small(d: int, p: nat, e: int)
    requires p > 0 && d * p == e && 0 < e + p && e < p
    ensures d == 0
  {
    assert d > 0 ==> d * p >= p;
    assert d < 0 ==> d * p + p <= 0;
  }

  /** Within a page the counter is the flat address. */
  lemma CounterIsFlat(ofs: nat, i: nat, page: nat)
    requires page > 0 && ofs % page + i < page
    ensures Counter(ofs, i, page) == ofs + i
  {
    ModUnique(ofs + i, page, ofs / page, ofs % page + i);
  }

  /** For pages of at most 256 bytes the offset in the block tells the offset in the page. */
  lemma PageOffset(ofs: nat, bits: nat)
    requires bits <= 8
    ensures ofs % BLOCK % Pow2(bits) == ofs % Pow2(bits)
  {
    BlockSize();
    Pow2Sum(8 - bits, bits);
    hide Pow2;
    ModOfMod(ofs, BLOCK, Pow2(8 - bits), Pow2(bits));
  }

  lemma BlockSize()
    ensures Pow2(8) == BLOCK
  {
    assert Pow2(2) == 4 && Pow2(4) == 16;
    Pow2Sum(4, 4);
  }

  lemma ModOfMod(x: nat, n: nat, m: nat, p: nat)
    requires p > 0 && n == m * p && n > 0
    ensures x % n % p == x % p
  {
    var a, r := x / n, x % n;
    MulAssoc(a, m, p);
    AddMul(a * m, r / p, p);
    assert x == (a * m + r / p) * p + r % p;
    ModUnique(x, p, a * m + r / p, r % p);
  }

  lemma MulAssoc(a: nat, b: nat, c: nat)
    ensures a * (b * c) == (a * b) * c
  {
  }

  lemma AddMul(a: nat, b: nat, c: nat)
    ensures (a + b) * c == a * c + b * c
  {
  }

  /** The length of the next write: what is left, at most the rest of the page and one bus transfer. The
      page offset is taken from the offset in the block. */
  function WriteLength(ofs: nat, left: nat, bits: nat, rxtx: nat): nat {
    Min(left, Min(Pow2(bits) - ofs % BLOCK % Pow2(bits), rxtx))
  }

  /** No write crosses a page, whatever the offset and length, exactly for pages of at most 256 bytes (or
      a bus that carries a byte at a time). */
  lemma NoCrossingIff(bits: nat, rxtx: nat)
    requires rxtx > 0
    ensures (forall ofs: nat, left: nat :: ofs % Pow2(bits) + WriteLength(ofs, left, bits, rxtx) <= Pow2(bits))
            <==> bits <= 8 || rxtx == 1
  {
    hide Pow2;
    if bits <= 8 {
      forall ofs: nat, left: nat
        ensures ofs % Pow2(bits) + WriteLength(ofs, left, bits, rxtx) <= Pow2(bits)
      {
        PageOffset(ofs, bits);
      }
    } else {
      LargePage(bits);
      var p := Pow2(bits);
      ModUnique(p - 1, p, 0, p - 1);
      assert WriteLength(p - 1, 2, bits, rxtx) == Min(2, rxtx);
    }
  }

  /** The last offset of a larger page lies at the end of a block, but not at its page's end as computed. */
  lemma LargePage(bits: nat)
    requires bits > 8
    ensures Pow2(bits) >= 2 * BLOCK && (Pow2(bits) - 1) % BLOCK % Pow2(bits) == BLOCK - 1
  {
    BlockSize();
    Pow2Grows(8, bits);
    Pow2Sum(bits - 8, 8);
    hide Pow2;
    var m := Pow2(bits - 8);
    AddMul(m - 1, 1, BLOCK);
    ModUnique(Pow2(bits) - 1, BLOCK, m - 1, BLOCK - 1);
    ModUnique(BLOCK - 1, Pow2(bits), 0, BLOCK - 1);
  }

  // ----- what a write does to the contents -----

  /** One bus transfer. */
  datatype Chunk = Chunk(ofs: nat, len: nat)

  ghost predicate AllAnswered(cs: seq<Chunk>, failing: set<nat>) {
    forall k :: 0 <= k < |cs| ==> cs[k].ofs !in failing
  }

  /** The device is made of whole pages, and the range lies inside. */
  ghost predicate Fits(cells: seq<byte>, ofs: nat, n: nat, bits: nat) {
    |cells| % Pow2(bits) == 0 && ofs + n <= |cells|
  }

  /** The counter stays inside a device of whole pages. */
  lemma CounterInside(ofs: nat, i: nat, page: nat, size: nat)
    requires page > 0 && size % page == 0 && ofs < size
    ensures 0 <= Counter(ofs, i, page) < size
  {
    var q, m := ofs / page, size / page;
    assert ofs == q * page + ofs % page && size == m * page;
    Multiples(q, m, page, ofs % page);
    assert ofs - ofs % page + page <= size;
  }

  lemma Multiples(q: nat, m: nat, p: nat, r: nat)
    requires q * p + r < m * p && r < p
    ensures q * p + p <= m * p
  {
    if q >= m {
      MulLe(m, q, p);
      assert false;
    }
    MulLe(q + 1, m, p);
    AddMul(q, 1, p);
  }

  lemma MulLe(a: nat, b: nat, p: nat)
    requires a <= b
    ensures a * p <= b * p
  {
  }

  /** One bus transfer: byte `i` goes where the address counter stands. */
  ghost function Wrapped(cells: seq<byte>, ofs: nat, data: seq<byte>, bits: nat): (r: seq<byte>)
    requires Fits(cells, ofs, |data|, bits)
    ensures |r| == |cells|
    decreases |data|
  {
    if data == [] then cells
    else
      var n := |data| - 1;
      CounterInside(ofs, n, Pow2(bits), |cells|);
      Wrapped(cells, ofs, data[..n], bits)[Counter(ofs, n, Pow2(bits)) := data[n]]
  }

  /** eeprom_write: the transfers one after the other; one that fails writes nothing. */
  ghost function WriteAll(cells: seq<byte>, ofs: nat, data: seq<byte>, bits: nat, rxtx: nat,
                          failing: set<nat>): (r: seq<byte>)
    requires Fits(cells, ofs, |data|, bits) && rxtx > 0
    ensures |r| == |cells|
    decreases |data|
  {
    if data == [] then cells
    else
      var len := WriteLength(ofs, |data|, bits, rxtx);
      var next := if ofs in failing then cells else Wrapped(cells, ofs, data[..len], bits);
      WriteAll(next, ofs + len, data[len..], bits, rxtx, failing)
  }

  /** The offsets and lengths of these transfers. */
  ghost function WriteChunks(ofs: nat, n: nat, bits: nat, rxtx: nat): seq<Chunk>
    requires rxtx > 0
    decreases n
  {
    if n == 0 then []
    else
      var len := WriteLength(ofs, n, bits, rxtx);
      [Chunk(ofs, len)] + WriteChunks(ofs + len, n - len, bits, rxtx)
  }

  /** The range overwritten, and nothing else. */
  function Splice(cells: seq<byte>, ofs: nat, data: seq<byte>): seq<byte>
    requires ofs + |data| <= |cells|
  {
    cells[..ofs] + data + cells[ofs + |data|..]
  }

  /** Within a page one transfer is a flat write. */
  lemma {:induction false} WrappedIsFlat(cells: seq<byte>, ofs: nat, data: seq<byte>, bits: nat)
    requires Fits(cells, ofs, |data|, bits) && ofs % Pow2(bits) + |data| <= Pow2(bits)
    ensures Wrapped(cells, ofs, data, bits) == Splice(cells, ofs, data)
    decreases |data|
  {
    if data != [] {
      hide Pow2;
      var n := |data| - 1;
      WrappedIsFlat(cells, ofs, data[..n], bits);
      CounterIsFlat(ofs, n, Pow2(bits));
      hide Counter;
      SpliceSnoc(cells, ofs, data);
    }
  }

  lemma SpliceSnoc(cells: seq<byte>, ofs: nat, data: seq<byte>)
    requires data != [] && ofs + |data| <= |cells|
    ensures var n := |data| - 1;
            Splice(cells, ofs, data) == Splice(cells, ofs, data[..n])[ofs + n := data[n]]
  {
  }

  lemma SpliceTwice(cells: seq<byte>, ofs: nat, data: seq<byte>, len: nat)
    requires len <= |data| && ofs + |data| <= |cells|
    ensures Splice(Splice(cells, ofs, data[..len]), ofs + len, data[len..]) == Splice(cells, ofs, data)
  {
  }

  /** A write that stays within the page, for pages that fit a block or for single bytes. */
  lemma StaysInPage(ofs: nat, left: nat, bits: nat, rxtx: nat)
    requires bits <= 8 || rxtx == 1
    ensures ofs % Pow2(bits) + WriteLength(ofs, left, bits, rxtx) <= Pow2(bits)
  {
    hide Pow2;
    if bits <= 8 {
      PageOffset(ofs, bits);
    }
  }

  /** The first transfer of a write, and the rest. */
  lemma WriteStep(cells: seq<byte>, ofs: nat, data: seq<byte>, bits: nat, rxtx: nat, failing: set<nat>)
      returns (len: nat)
    requires Fits(cells, ofs, |data|, bits) && rxtx > 0 && data != []
    ensures len == WriteLength(ofs, |data|, bits, rxtx) && 0 < len <= |data|
    ensures Fits(cells, ofs, len, bits)
    ensures var next := if ofs in failing then cells else Wrapped(cells, ofs, data[..len], bits);
            && Fits(next, ofs + len, |data| - len, bits)
            && WriteAll(cells, ofs, data, bits, rxtx, failing)
               == WriteAll(next, ofs + len, data[len..], bits, rxtx, failing)
    ensures AllAnswered(WriteChunks(ofs, |data|, bits, rxtx), failing) <==>
            ofs !in failing && AllAnswered(WriteChunks(ofs + len, |data| - len, bits, rxtx), failing)
  {
    hide Pow2, WriteLength, Wrapped, AllAnswered;
    LengthInRange(ofs, |data|, bits, rxtx);
    len := WriteLength(ofs, |data|, bits, rxtx);
    FirstAnswered(Chunk(ofs, len), WriteChunks(ofs + len, |data| - len, bits, rxtx), failing);
  }

  /** All but the range is as before. */
  ghost predicate SameOutside(a: seq<byte>, b: seq<byte>, from: nat, to: nat) {
    |a| == |b| && forall k :: 0 <= k < |a| && !(from <= k < to) ==> a[k] == b[k]
  }

  /** `r` is the flat write if all transfers are answered, and nothing outside the range is changed anyhow. */
  ghost predicate Flat(cells: seq<byte>, r: seq<byte>, ofs: nat, data: seq<byte>, answered: bool)
    requires ofs + |data| <= |cells|
  {
    (answered ==> r == Splice(cells, ofs, data)) && SameOutside(cells, r, ofs, ofs + |data|)
  }

  lemma FlatStep(cells: seq<byte>, next: seq<byte>, r: seq<byte>, ofs: nat, data: seq<byte>, len: nat, first: bool,
                 rest: bool)
    requires len <= |data| && ofs + |data| <= |cells|
    requires next == if first then Splice(cells, ofs, data[..len]) else cells
    requires Flat(next, r, ofs + len, data[len..], rest)
    ensures Flat(cells, r, ofs, data, first && rest)
  {
    SpliceTwice(cells, ofs, data, len);
  }

  lemma FlatStart(cells: seq<byte>, ofs: nat)
    requires ofs <= |cells|
    ensures Flat(cells, cells, ofs, [], true)
  {
    assert Splice(cells, ofs, []) == cells;
  }

  lemma NoneFails(failing: set<nat>)
    ensures AllAnswered([], failing)
  {
  }

  /** Then the whole write is one flat write. */
  lemma {:induction false} WritesFlat(cells: seq<byte>, ofs: nat, data: seq<byte>, bits: nat, rxtx: nat,
                                      failing: set<nat>)
    requires Fits(cells, ofs, |data|, bits) && rxtx > 0 && (bits <= 8 || rxtx == 1)
    ensures Flat(cells, WriteAll(cells, ofs, data, bits, rxtx, failing), ofs, data,
                 AllAnswered(WriteChunks(ofs, |data|, bits, rxtx), failing))
    decreases |data|
  {
    hide Pow2, Wrapped, WriteLength, AllAnswered, Splice, Flat;
    if data == [] {
      FlatStart(cells, ofs);
      NoneFails(failing);
    } else {
      hide WriteAll, WriteChunks;
      var len := WriteStep(cells, ofs, data, bits, rxtx, failing);
      StaysInPage(ofs, |data|, bits, rxtx);
      WrappedIsFlat(cells, ofs, data[..len], bits);
      var next := if ofs in failing then cells else Splice(cells, ofs, data[..len]);
      WritesFlat(next, ofs + len, data[len..], bits, rxtx, failing);
      FlatStep(cells, next, WriteAll(next, ofs + len, data[len..], bits, rxtx, failing), ofs, data, len,
               ofs !in failing, AllAnswered(WriteChunks(ofs + len, |data| - len, bits, rxtx), failing));
    }
  }

  lemma LengthInRange(ofs: nat, left: nat, bits: nat, rxtx: nat)
    requires rxtx > 0 && left > 0
    ensures 0 < WriteLength(ofs, left, bits, rxtx) <= left
  {
    hide Pow2;
    BlockOffset(ofs, Pow2(bits));
  }

  lemma BlockOffset(ofs: nat, page: nat)
    requires page > 0
    ensures 0 <= ofs % BLOCK % page < page
  {
  }

  lemma FirstAnswered(c: Chunk, cs: seq<Chunk>, failing: set<nat>)
    ensures AllAnswered([c] + cs, failing) <==> c.ofs !in failing && AllAnswered(cs, failing)
  {
    var all := [c] + cs;
    assert all[0] == c && all[1..] == cs;
    if AllAnswered(all, failing) {
      forall k | 0 <= k < |cs|
        ensures cs[k].ofs !in failing
      {
        assert all[k + 1] == cs[k];
      }
    }
  }

  /** Two bytes written from the last one of a larger page on: the second goes to the start of that page. */
  lemma LargePageWraps(cells: seq<byte>, a: byte, b: byte, bits: nat, rxtx: nat)
    requires bits > 8 && rxtx >= 2 && Fits(cells, Pow2(bits) - 1, 2, bits)
    ensures WriteAll(cells, Pow2(bits) - 1, [a, b], bits, rxtx, {}) == cells[Pow2(bits) - 1 := a][0 := b]
  {
    var p := Pow2(bits);
    var ofs, data := p - 1, [a, b];
    LargePage(bits);
    hide Pow2;
    assert WriteLength(ofs, 2, bits, rxtx) == 2;
    assert data[..2] == data && data[2..] == [];
    ModUnique(ofs, p, 0, ofs);
    ModUnique(p, p, 1, 0);
    assert Counter(ofs, 0, p) == ofs && Counter(ofs, 1, p) == 0;
    assert data[..1] == [a] && [a][..0] == [];
    assert Wrapped(cells, ofs, [a], bits) == Wrapped(cells, ofs, [a][..0], bits)[ofs := a] == cells[ofs := a];
    assert Wrapped(cells, ofs, data, bits) == Wrapped(cells, ofs, data[..1], bits)[0 := b];
  }

  /** On two pages of 512 bytes, 2 bytes at 511: the byte meant for 512 lands at 0. */
  lemma PageOf512(rxtx: nat)
    requires rxtx >= 2
    ensures var cells := seq(1024, _ => 0xFF as byte);
            && Fits(cells, 511, 2, 9)
            && var r := WriteAll(cells, 511, [1, 2], 9, rxtx, {});
            r[511] == 1 && r[512] == 0xFF && r[0] == 2
  {
    var cells := seq(1024, _ => 0xFF as byte);
    assert Pow2(9) == 512 by {
      BlockSize();
      assert Pow2(9) == 2 * Pow2(8);
    }
    hide Pow2;
    LargePageWraps(cells, 1, 2, 9, rxtx);
  }

  ghost predicate AlwaysFlat(bits: nat, rxtx: nat)
    requires rxtx > 0
  {
    forall cells: seq<byte>, ofs: nat, data: seq<byte> :: Fits(cells, ofs, |data|, bits) ==>
      WriteAll(cells, ofs, data, bits, rxtx, {}) == Splice(cells, ofs, data)
  }

  /** Every write is one flat write exactly for pages of at most 256 bytes or a bus that carries a byte at a
      time. */
  lemma FlatIff(bits: nat, rxtx: nat)
    requires rxtx > 0
    ensures AlwaysFlat(bits, rxtx) <==> bits <= 8 || rxtx == 1
  {
    hide Pow2, WriteAll, WriteChunks;
    if bits <= 8 || rxtx == 1 {
      forall cells: seq<byte>, ofs: nat, data: seq<byte> | Fits(cells, ofs, |data|, bits)
        ensures WriteAll(cells, ofs, data, bits, rxtx, {}) == Splice(cells, ofs, data)
      {
        WritesFlat(cells, ofs, data, bits, rxtx, {});
      }
    } else {
      var p := Pow2(bits);
      LargePage(bits);
      var cells := seq(2 * p, _ => 0xFF as byte);
      ModUnique(2 * p, p, 2, 0);
      LargePageWraps(cells, 1, 2, bits, rxtx);
      assert WriteAll(cells, p - 1, [1, 2], bits, rxtx, {})[p] == 0xFF;
      assert Splice(cells, p - 1, [1, 2])[p] == 2;
    }
  }

  // ----- the transfers -----

  /** Non-empty chunks, in order and without gaps, from `from` to `to`. */
  ghost predicate Tiles(cs: seq<Chunk>, from: nat, to: nat) {
    if cs == [] then from == to
    else var c := cs[|cs| - 1]; c.len > 0 && c.ofs + c.len == to && Tiles(cs[..|cs| - 1], from, c.ofs)
  }

  /** No chunk crosses a boundary between pieces of `size` bytes. */
  ghost predicate NoneCross(cs: seq<Chunk>, size: nat)
    requires size > 0
  {
    forall k :: 0 <= k < |cs| ==> cs[k].ofs % size + cs[k].len <= size
  }

  lemma TilesStep(cs: seq<Chunk>, from: nat, c: Chunk)
    requires Tiles(cs, from, c.ofs) && c.len > 0
    ensures Tiles(cs + [c], from, c.ofs + c.len)
  {
    assert (cs + [c])[..|cs|] == cs;
  }

  class Device {
    const cells: array<byte>
    const bits: nat
    const rxtx: nat

    ghost predicate Valid() {
      && rxtx > 0
      && cells.Length < U32_LIMIT
      && cells.Length % Pow2(bits) == 0
    }

    constructor (pages: nat, bits: nat, rxtx: nat)
      requires rxtx > 0 && pages * Pow2(bits) < U32_LIMIT
      ensures Valid() && fresh(cells) && this.bits == bits && this.rxtx == rxtx
    {
      this.bits, this.rxtx := bits, rxtx;
      ModUnique(pages * Pow2(bits), Pow2(bits), pages, 0);
      cells := new byte[pages * Pow2(bits)];
    }

    /** The device's write: byte `i` goes where the address counter stands. A transfer that fails writes
        nothing. */
    method I2cWrite(ofs: nat, data: seq<byte>, failing: set<nat>) returns (rc: int)
      requires Valid() && ofs + |data| <= cells.Length
      modifies cells
      ensures rc == 0 <==> ofs !in failing
      ensures cells[..] == if rc == 0 then Wrapped(old(cells[..]), ofs, data, bits) else old(cells[..])
    {
      hide Pow2, Counter;
      if ofs in failing {
        return 1;
      }
      for i := 0 to |data|
        invariant cells[..] == Wrapped(old(cells[..]), ofs, data[..i], bits)
      {
        CounterInside(ofs, i, Pow2(bits), cells.Length);
        cells[Counter(ofs, i, Pow2(bits))] := data[i];
        assert data[..i + 1][..i] == data[..i];
      }
      assert data[..|data|] == data;
      rc := 0;
    }

    method I2cRead(ofs: nat, len: nat, failing: set<nat>) returns (rc: int, data: seq<byte>)
      requires Valid() && ofs + len <= cells.Length && ofs % BLOCK + len <= BLOCK
      ensures rc == 0 <==> ofs !in failing
      ensures |data| == len && (rc == 0 ==> data == cells[ofs..ofs + len])
    {
      data := [];
      for i := 0 to len
        invariant data == cells[ofs..ofs + i]
      {
        CounterIsFlat(ofs, i, BLOCK);
        data := data + [cells[Counter(ofs, i, BLOCK)]];
      }
      rc := if ofs in failing then 1 else 0;
    }

    /** eeprom_write, for every page size: its transfers in order. */
    method EepromWrite(offset: nat, buffer: seq<byte>, failing: set<nat>) returns (rcode: int)
      requires Valid() && offset + |buffer| <= cells.Length
      modifies cells
      ensures cells[..] == WriteAll(old(cells[..]), offset, buffer, bits, rxtx, failing)
      ensures rcode == 0 <==> AllAnswered(WriteChunks(offset, |buffer|, bits, rxtx), failing)
      ensures bits <= 8 || rxtx == 1 ==> Flat(old(cells[..]), cells[..], offset, buffer, rcode == 0)
    {
      hide Pow2, Wrapped, AllAnswered, WriteAll, WriteChunks, WriteLength, Flat;
      var end := Wrap32(offset + |buffer|);
      var ofs, buf := offset, 0;
      rcode := 0;
      assert buffer[0..] == buffer;
      while ofs < end
        invariant ofs == offset + buf <= end
        invariant WriteAll(cells[..], ofs, buffer[buf..], bits, rxtx, failing)
               == WriteAll(old(cells[..]), offset, buffer, bits, rxtx, failing)
        invariant rcode == 0 && AllAnswered(WriteChunks(ofs, end - ofs, bits, rxtx), failing) <==>
                  AllAnswered(WriteChunks(offset, |buffer|, bits, rxtx), failing)
        decreases end - ofs
      {
        ghost var first := WriteStep(cells[..], ofs, buffer[buf..], bits, rxtx, failing);
        var len := NextLength(ofs, end - ofs);
        var rc := I2cWrite(ofs, buffer[buf..buf + len], failing);
        if rc != 0 {
          rcode := 1;
        }
        assert buffer[buf..][..len] == buffer[buf..buf + len] && buffer[buf..][len..] == buffer[buf + len..];
        buf, ofs := buf + len, ofs + len;
      }
      assert buffer[buf..] == [];
      NothingLeft(cells[..], ofs, bits, rxtx, failing);
      if bits <= 8 || rxtx == 1 {
        WritesFlat(old(cells[..]), offset, buffer, bits, rxtx, failing);
      }
    }

    /** The length of the next transfer. */
    method NextLength(ofs: nat, left: nat) returns (len: nat)
      requires Valid()
      ensures len == WriteLength(ofs, left, bits, rxtx)
    {
      hide Pow2;
      BlockOffset(ofs, Pow2(bits));
      var blkOff := ofs % BLOCK;
      len := left;
      var maxlen := Pow2(bits) - blkOff % Pow2(bits);
      if maxlen > rxtx {
        maxlen := rxtx;
      }
      if len > maxlen {
        len := maxlen;
      }
    }

    /** eeprom_read: like one flat read. */
    method EepromRead(offset: nat, cnt: nat, failing: set<nat>)
        returns (rcode: int, buffer: seq<byte>, ghost chunks: seq<Chunk>)
      requires Valid() && offset + cnt <= cells.Length
      ensures Tiles(chunks, offset, offset + cnt) && NoneCross(chunks, BLOCK)
      ensures rcode == 0 <==> AllAnswered(chunks, failing)
      ensures |buffer| == cnt && (rcode == 0 ==> buffer == cells[offset..offset + cnt])
    {
      hide Tiles;
      ghost var s := cells[..];
      var end := Wrap32(offset + cnt);
      var ofs := offset;
      rcode, buffer, chunks := 0, [], [];
      NoTiles(offset);
      while ofs < end
        invariant ofs == offset + |buffer| <= end
        invariant Tiles(chunks, offset, ofs) && NoneCross(chunks, BLOCK)
        invariant rcode == 0 <==> AllAnswered(chunks, failing)
        invariant rcode == 0 ==> buffer == s[offset..ofs]
        decreases end - ofs
      {
        var blkOff := ofs % BLOCK;
        var len := end - ofs;
        var maxlen := BLOCK - blkOff;
        if maxlen > rxtx {
          maxlen := rxtx;
        }
        if len > maxlen {
          len := maxlen;
        }
        var rc, data := I2cRead(ofs, len, failing);
        if rc != 0 {
          rcode := 1;
        }
        assert cells[ofs..ofs + len] == s[ofs..ofs + len];
        Adjacent(s, offset, ofs, ofs + len);
        TilesStep(chunks, offset, Chunk(ofs, len));
        chunks := chunks + [Chunk(ofs, len)];
        buffer, ofs := buffer + data, ofs + len;
      }
      assert cells[offset..ofs] == s[offset..ofs];
    }

    /** What is written is read back if pages fit a block or single bytes are sent; otherwise what is read is
        what the wrapping counter made of it. */
    method WriteThenRead(offset: nat, data: seq<byte>, failing: set<nat>)
        returns (wrote: int, read: int, buffer: seq<byte>)
      requires Valid() && offset + |data| <= cells.Length
      modifies cells
      ensures wrote == 0 && read == 0 && (bits <= 8 || rxtx == 1) ==> buffer == data
      ensures read == 0 ==>
                buffer == WriteAll(old(cells[..]), offset, data, bits, rxtx, failing)[offset..offset + |data|]
      ensures failing == {} ==> wrote == 0 && read == 0
    {
      hide Pow2, Tiles, WriteAll, WriteChunks, AllAnswered;
      wrote := EepromWrite(offset, data, failing);
      ghost var cs;
      read, buffer, cs := EepromRead(offset, |data|, failing);
      assert cells[..][offset..offset + |data|] == cells[offset..offset + |data|];
      if failing == {} {
        AllAnswer(WriteChunks(offset, |data|, bits, rxtx));
        AllAnswer(cs);
      }
    }
  }

  /** The transfers of a write tile the range, and none crosses a page if pages fit a block or single bytes are
      sent. */
  lemma {:induction false} WriteTiles(ofs: nat, n: nat, bits: nat, rxtx: nat)
    requires rxtx > 0
    ensures Tiles(WriteChunks(ofs, n, bits, rxtx), ofs, ofs + n)
    ensures bits <= 8 || rxtx == 1 ==> NoneCross(WriteChunks(ofs, n, bits, rxtx), Pow2(bits))
    decreases n
  {
    hide Pow2, WriteLength, Tiles, NoneCross;
    if n == 0 {
      NoTiles(ofs);
      NoneCrosses(Pow2(bits));
    } else {
      var len := WriteLength(ofs, n, bits, rxtx);
      LengthInRange(ofs, n, bits, rxtx);
      WriteTiles(ofs + len, n - len, bits, rxtx);
      var cs := WriteChunks(ofs + len, n - len, bits, rxtx);
      TilesCons(Chunk(ofs, len), cs, ofs + n);
      if bits <= 8 || rxtx == 1 {
        StaysInPage(ofs, n, bits, rxtx);
        FirstStays(Chunk(ofs, len), cs, Pow2(bits));
      }
    }
  }

  lemma NoneCrosses(size: nat)
    requires size > 0
    ensures NoneCross([], size)
  {
  }

  lemma AllAnswer(cs: seq<Chunk>)
    ensures AllAnswered(cs, {})
  {
  }

  lemma FirstStays(c: Chunk, cs: seq<Chunk>, size: nat)
    requires size > 0 && c.ofs % size + c.len <= size && NoneCross(cs, size)
    ensures NoneCross([c] + cs, size)
  {
  }

  lemma {:induction false} TilesCons(c: Chunk, cs: seq<Chunk>, to: nat)
    requires c.len > 0 && Tiles(cs, c.ofs + c.len, to)
    ensures Tiles([c] + cs, c.ofs, to)
  {
    var all := [c] + cs;
    if cs == [] {
      assert all[..0] == [];
    } else {
      var n := |cs| - 1;
      TilesCons(c, cs[..n], cs[n].ofs);
      assert all[..n + 1] == [c] + cs[..n];
    }
  }

  lemma NothingLeft(cells: seq<byte>, ofs: nat, bits: nat, rxtx: nat, failing: set<nat>)
    requires rxtx > 0 && Fits(cells, ofs, 0, bits)
    ensures AllAnswered(WriteChunks(ofs, 0, bits, rxtx), failing)
    ensures WriteAll(cells, ofs, [], bits, rxtx, failing) == cells
  {
  }

  lemma Adjacent(s: seq<byte>, a: nat, b: nat, c: nat)
    requires a <= b <= c <= |s|
    ensures s[a..c] == s[a..b] + s[b..c]
  {
  }

  lemma NoTiles(from: nat)
    ensures Tiles([], from, from)
  {
  }
}
