/** Block transfers of cmd_onenand.c: a write skips bad and failing blocks and remembers, for the next
    write that continues it, how far it has slipped; a read skips the same blocks. */
module OneNand {
  import opened CTypes

  /** The blocks of a chip that cannot be used: marked bad, or failing when written or read. */
  datatype Chip = Chip(size: nat, bad: set<nat>, failing: set<nat>) {
    predicate Usable(b: nat) {
      b < size && b !in bad && b !in failing
    }
  }

  /** The usable blocks from block `p` on. */
  ghost function Slots(c: Chip, p: nat): (r: seq<nat>)
    ensures forall j :: 0 <= j < |r| ==> p <= r[j] && c.Usable(r[j])
    decreases c.size - p
  {
    if p >= c.size then [] else if c.Usable(p) then [p] + Slots(c, p + 1) else Slots(c, p + 1)
  }

  /** They are all blocks from `p` to the end of the chip that are neither marked bad nor failing, in
      ascending order, each once. */
  lemma {:induction false} SlotsAre(c: Chip, p: nat)
    ensures forall b: nat :: b in Slots(c, p) <==> p <= b < c.size && b !in c.bad && b !in c.failing
    ensures forall i, j :: 0 <= i < j < |Slots(c, p)| ==> Slots(c, p)[i] < Slots(c, p)[j]
    decreases c.size - p
  {
    if p < c.size {
      SlotsAre(c, p + 1);
      var r, rest := Slots(c, p), Slots(c, p + 1);
      assert r == if c.Usable(p) then [p] + rest else rest;
      assert forall i :: 0 <= i < |rest| ==> rest[i] > p;
      hide Slots;
      assert forall b: nat :: b in r <==> b in rest || (b == p && c.Usable(p));
    }
  }

  /** Two starts use the same blocks exactly when no usable block lies between them. */
  lemma {:induction false} SameSlotsIff(c: Chip, p: nat, q: nat)
    requires p <= q
    ensures Slots(c, p) == Slots(c, q) <==> forall b :: p <= b < q ==> !c.Usable(b)
    decreases q - p
  {
    if p < q {
      SameSlotsIff(c, p + 1, q);
      if c.Usable(p) && p < c.size {
        assert Slots(c, p)[0] == p;
        if Slots(c, q) != [] {
          assert Slots(c, q)[0] >= q;
        }
      }
    }
  }

  /** What the blocks `slots` hold, in order. */
  ghost function Contents(blocks: seq<seq<byte>>, slots: seq<nat>): seq<byte>
    requires forall j :: 0 <= j < |slots| ==> slots[j] < |blocks|
  {
    if slots == [] then []
    else Contents(blocks, slots[..|slots| - 1]) + blocks[slots[|slots| - 1]]
  }

  lemma {:induction false} ContentsSame(a: seq<seq<byte>>, b: seq<seq<byte>>, slots: seq<nat>)
    requires forall j :: 0 <= j < |slots| ==> slots[j] < |a| && slots[j] < |b| && a[slots[j]] == b[slots[j]]
    ensures Contents(a, slots) == Contents(b, slots)
  {
    if slots != [] {
      ContentsSame(a, b, slots[..|slots| - 1]);
    }
  }

  lemma {:induction false} ContentsConcat(blocks: seq<seq<byte>>, a: seq<nat>, b: seq<nat>)
    requires forall j :: 0 <= j < |a| ==> a[j] < |blocks|
    requires forall j :: 0 <= j < |b| ==> b[j] < |blocks|
    ensures Contents(blocks, a + b) == Contents(blocks, a) + Contents(blocks, b)
  {
    if b == [] {
      assert a + b == a;
    } else {
      var n := |b| - 1;
      ContentsConcat(blocks, a, b[..n]);
      assert (a + b)[..|a + b| - 1] == a + b[..n] && (a + b)[|a + b| - 1] == b[n];
    }
  }

  // ----- sizes in blocks and bytes -----

  function Bytes(n: nat, blockSize: nat): nat {
    n * blockSize
  }

  function WholeBlocks(len: nat, blockSize: nat): nat
    requires blockSize > 0
  {
    len / blockSize
  }

  lemma BytesStep(n: nat, blockSize: nat)
    ensures Bytes(n + 1, blockSize) == Bytes(n, blockSize) + blockSize
  {
  }

  lemma BytesUpTo(k: nat, n: nat, blockSize: nat)
    requires k <= n
    ensures Bytes(k, blockSize) <= Bytes(n, blockSize)
  {
  }

  lemma BlockOf(q: nat, blockSize: nat)
    requires blockSize > 0
    ensures Bytes(q, blockSize) / blockSize == q
  {
    assert q * blockSize / blockSize == q by {
      DivMul(q, blockSize, q * blockSize / blockSize);
    }
  }

  lemma DivMul(a: nat, b: nat, c: nat)
    requires b > 0 && c == a * b / b
    ensures a == c
  {
    var d := a - c;
    assert 0 <= a * b - c * b < b;
    assert a * b - c * b == d * b;
    assert d > 0 ==> d * b >= b;
    assert d < 0 ==> d * b + b <= 0;
  }

  lemma WholeFits(len: nat, blockSize: nat)
    requires blockSize > 0
    ensures Bytes(WholeBlocks(len, blockSize), blockSize) <= len
    ensures Bytes(0, blockSize) == 0
  {
  }

  ghost predicate Written(blocks: seq<seq<byte>>, slots: seq<nat>, data: seq<byte>) {
    (forall j :: 0 <= j < |slots| ==> slots[j] < |blocks|) && Contents(blocks, slots) == data
  }

  /** Outside `slots` only a failing block that is not marked bad may have changed. */
  ghost predicate Kept(c: Chip, before: seq<seq<byte>>, after: seq<seq<byte>>, slots: seq<nat>) {
    && |before| == |after| == c.size
    && forall b :: 0 <= b < c.size && (b in c.bad || b !in c.failing) && b !in slots ==> after[b] == before[b]
  }

  /** The loops' account: `k` blocks of `s` lie before block `q`, the others from it on. */
  ghost predicate Passed(c: Chip, s: seq<nat>, k: nat, q: nat) {
    && k <= |s|
    && (forall j :: 0 <= j < |s| ==> s[j] < c.size)
    && (forall j :: 0 <= j < k ==> s[j] < q)
    && Slots(c, q) == s[k..]
  }

  lemma PassedStart(c: Chip, p: nat)
    ensures Passed(c, Slots(c, p), 0, p)
  {
    assert Slots(c, p)[0..] == Slots(c, p);
  }

  /** One block further: either it is the next slot, or it is not usable. */
  lemma PassedStep(c: Chip, s: seq<nat>, k: nat, q: nat)
    requires Passed(c, s, k, q) && k < |s|
    ensures q < c.size
    ensures if c.Usable(q) then s[k] == q && Passed(c, s, k + 1, q + 1) else Passed(c, s, k, q + 1)
  {
    assert Slots(c, q) != [];
    if c.Usable(q) {
      assert s[k] == s[k..][0] == q;
      assert Slots(c, q + 1) == s[k..][1..] == s[k + 1..];
    }
  }

  /** The state of a write: `data` is in the first `k` slots, the cursor at block `q`. */
  ghost predicate Stored(c: Chip, before: seq<seq<byte>>, after: seq<seq<byte>>,
                         s: seq<nat>, k: nat, q: nat, data: seq<byte>) {
    Passed(c, s, k, q) && Written(after, s[..k], data) && Kept(c, before, after, s[..k])
  }

  lemma StoredStart(c: Chip, blocks: seq<seq<byte>>, p: nat)
    requires |blocks| == c.size
    ensures Stored(c, blocks, blocks, Slots(c, p), 0, p, [])
  {
    PassedStart(c, p);
    assert Slots(c, p)[..0] == [];
  }

  /** A stored block continues what is written. */
  lemma StoredStep(c: Chip, before: seq<seq<byte>>, prev: seq<seq<byte>>, after: seq<seq<byte>>,
                   s: seq<nat>, k: nat, q: nat, data: seq<byte>)
    requires Stored(c, before, prev, s, k, q, data) && k < |s| && c.Usable(q) && |after| == c.size
    requires forall i :: 0 <= i < c.size && i != q ==> after[i] == prev[i]
    ensures Stored(c, before, after, s, k + 1, q + 1, data + after[q])
  {
    PassedStep(c, s, k, q);
    hide Slots;
    assert s[..k + 1][..k] == s[..k];
    assert s[..k + 1][k] == q;
    ContentsSame(prev, after, s[..k]);
    assert forall j :: 0 <= j < k ==> s[..k + 1][j] == s[..k][j];
  }

  /** Whatever happens to a block that is not usable does not matter. */
  lemma StoredSkip(c: Chip, before: seq<seq<byte>>, prev: seq<seq<byte>>, after: seq<seq<byte>>,
                   s: seq<nat>, k: nat, q: nat, data: seq<byte>)
    requires Stored(c, before, prev, s, k, q, data) && k < |s| && !c.Usable(q) && |after| == c.size
    requires q in c.bad || q !in c.failing ==> after == prev
    requires forall i :: 0 <= i < c.size && i != q ==> after[i] == prev[i]
    ensures Stored(c, before, after, s, k, q + 1, data)
  {
    PassedStep(c, s, k, q);
    hide Slots;
    ContentsSame(prev, after, s[..k]);
  }

  ghost predicate Whole(blocks: seq<seq<byte>>, blockSize: nat) {
    forall b :: 0 <= b < |blocks| ==> |blocks[b]| == blockSize
  }

  /** The `j`-th block of a buffer. */
  ghost function Piece(buf: seq<byte>, j: nat, blockSize: nat): seq<byte> {
    if (j + 1) * blockSize <= |buf| then PieceBounds(j, blockSize); buf[j * blockSize..(j + 1) * blockSize] else []
  }

  lemma PieceBounds(j: nat, blockSize: nat)
    ensures 0 <= j * blockSize <= (j + 1) * blockSize == j * blockSize + blockSize
  {
  }

  lemma {:induction false} ContentsPieces(blocks: seq<seq<byte>>, slots: seq<nat>, blockSize: nat)
    requires Whole(blocks, blockSize) && forall j :: 0 <= j < |slots| ==> slots[j] < |blocks|
    ensures |Contents(blocks, slots)| == |slots| * blockSize
    ensures forall j: nat :: j < |slots| ==> blocks[slots[j]] == Piece(Contents(blocks, slots), j, blockSize)
  {
    if slots != [] {
      var n := |slots| - 1;
      var before := Contents(blocks, slots[..n]);
      ContentsPieces(blocks, slots[..n], blockSize);
      PieceBounds(n, blockSize);
      forall j: nat | j < |slots|
        ensures blocks[slots[j]] == Piece(before + blocks[slots[n]], j, blockSize)
      {
        PieceOf(before, blocks[slots[n]], j, n, blockSize);
      }
    }
  }

  lemma PieceOf(before: seq<byte>, last: seq<byte>, j: nat, n: nat, blockSize: nat)
    requires j <= n && |before| == n * blockSize && |last| == blockSize
    ensures Piece(before + last, j, blockSize) == if j < n then Piece(before, j, blockSize) else last
  {
    PieceBounds(n, blockSize);
    PieceBounds(j, blockSize);
    if j < n {
      BytesUpTo(j + 1, n, blockSize);
    }
  }

  /** What a write leaves: in each slot the next block of the buffer, and nothing in a block marked bad. */
  lemma WrittenPieces(c: Chip, before: seq<seq<byte>>, after: seq<seq<byte>>, s: seq<nat>, n: nat, q: nat,
                      buf: seq<byte>, blockSize: nat)
    requires blockSize > 0 && n == |buf| / blockSize && Whole(after, blockSize) && n * blockSize <= |buf|
    requires Stored(c, before, after, s, n, q, buf[..n * blockSize]) && forall b :: b in s ==> b !in c.bad
    ensures forall j: nat :: j < n ==> s[j] < |after| && after[s[j]] == Piece(buf, j, blockSize)
    ensures forall b :: 0 <= b < c.size && b in c.bad ==> after[b] == before[b]
  {
    StoredIsWritten(c, before, after, s, n, q, buf[..n * blockSize]);
    hide Stored, Contents, Whole;
    ContentsPieces(after, s[..n], blockSize);
    forall j: nat | j < n
      ensures s[j] < |after| && after[s[j]] == Piece(buf, j, blockSize)
    {
      assert s[..n][j] == s[j];
      SamePiece(buf, n * blockSize, j, n, blockSize);
    }
  }

  lemma SamePiece(buf: seq<byte>, len: nat, j: nat, n: nat, blockSize: nat)
    requires j < n && len == n * blockSize <= |buf|
    ensures Piece(buf[..len], j, blockSize) == Piece(buf, j, blockSize)
  {
    BytesUpTo(j + 1, n, blockSize);
    PieceBounds(j, blockSize);
  }

  class Device {
    const chip: Chip
    const blockSize: nat
    var blocks: seq<seq<byte>>
    var nextOfs: nat
    var skipOfs: nat

    ghost predicate Valid()
      reads this
    {
      blockSize > 0 && |blocks| == chip.size && Whole(blocks, blockSize)
    }

    constructor (chip: Chip, blockSize: nat, blocks: seq<seq<byte>>)
      requires blockSize > 0 && |blocks| == chip.size && Whole(blocks, blockSize)
      ensures Valid() && this.chip == chip && this.blockSize == blockSize && this.blocks == blocks
      ensures nextOfs == 0 && skipOfs == 0
    {
      this.chip, this.blockSize, this.blocks := chip, blockSize, blocks;
      nextOfs, skipOfs := 0, 0;
    }

    /** mtd->block_isbad; an offset beyond the chip is an error, taken for a bad block. */
    method BlockIsBad(ofs: nat) returns (bad: bool)
      requires blockSize > 0
      ensures bad <==> var b := ofs / blockSize; b >= chip.size || b in chip.bad
    {
      var b := ofs / blockSize;
      bad := b >= chip.size || b in chip.bad;
    }

    /** mtd->write of one whole block; a failing block may be left in any state. */
    method DeviceWrite(ofs: nat, data: seq<byte>) returns (ret: bool)
      requires Valid() && ofs / blockSize < chip.size && |data| == blockSize
      modifies this`blocks
      ensures Valid()
      ensures ret <==> ofs / blockSize in chip.failing
      ensures !ret ==> blocks[ofs / blockSize] == data
      ensures forall i :: 0 <= i < |blocks| && i != ofs / blockSize ==> blocks[i] == old(blocks)[i]
    {
      var b := ofs / blockSize;
      if b in chip.failing {
        var zeros: seq<byte> := seq(blockSize, _ => 0);
        var junk: seq<byte> :| |junk| == blockSize;
        blocks := blocks[b := junk];
        return true;
      }
      blocks := blocks[b := data];
      return false;
    }

    method DeviceRead(ofs: nat) returns (ret: bool, data: seq<byte>)
      requires Valid() && ofs / blockSize < chip.size
      ensures ret <==> ofs / blockSize in chip.failing
      ensures !ret ==> data == blocks[ofs / blockSize]
    {
      ret, data := ofs / blockSize in chip.failing, blocks[ofs / blockSize];
    }

    /** One turn of the loop of onenand_block_write: store a block unless the place is unusable.
        `done` is what the first `k` slots of `s` already hold. */
    method WriteOne(ofs: nat, data: seq<byte>, ghost before: seq<seq<byte>>, ghost s: seq<nat>, ghost k: nat,
                    ghost q: nat, ghost done: seq<byte>) returns (stored: bool)
      requires Valid() && k < |s| && ofs == Bytes(q, blockSize) && |data| == blockSize
      requires Stored(chip, before, blocks, s, k, q, done)
      modifies this`blocks
      ensures Valid()
      ensures stored <==> chip.Usable(q)
      ensures q < chip.size
      ensures Stored(chip, before, blocks, s, if stored then k + 1 else k, q + 1, if stored then done + data else done)
    {
      InChip(chip, before, blocks, s, k, q, done);
      BlockOf(q, blockSize);
      hide Stored, Bytes;
      ghost var prev := blocks;
      var ret := BlockIsBad(ofs);
      if ret {
        StoredSkip(chip, before, prev, blocks, s, k, q, done);
        return false;
      }
      ret := DeviceWrite(ofs, data);
      if ret {
        StoredSkip(chip, before, prev, blocks, s, k, q, done);
      } else {
        StoredStep(chip, before, prev, blocks, s, k, q, done);
      }
      return !ret;
    }

    /** Where a write to logical offset `to` starts. */
    ghost function StartOf(to: nat): nat
      reads this
    {
      if to == nextOfs then to + skipOfs else to
    }

    /** onenand_block_write, starting at block `p`; `q` is the block it stops at. */
    method BlockWrite(to: nat, buf: seq<byte>, ghost p: nat) returns (retlen: nat, ghost q: nat)
      requires Valid() && StartOf(to) == Bytes(p, blockSize)
      requires WholeBlocks(|buf|, blockSize) <= |Slots(chip, p)|
      modifies this
      ensures Valid()
      ensures nextOfs == to + |buf|
      ensures var n := WholeBlocks(|buf|, blockSize);
        && retlen == Bytes(n, blockSize) <= |buf|
        && to + retlen + skipOfs == Bytes(q, blockSize) && p <= q
        && Stored(chip, old(blocks), blocks, Slots(chip, p), n, q, buf[..retlen])
      ensures forall j: nat :: j < |buf| / blockSize ==>
                Slots(chip, p)[j] < |blocks| && blocks[Slots(chip, p)[j]] == Piece(buf, j, blockSize)
      ensures forall b :: 0 <= b < chip.size && b in chip.bad ==> blocks[b] == old(blocks)[b]
    {
      var ofs := to;
      if to == nextOfs {
        nextOfs := to + |buf|;
        ofs := to + skipOfs;
      } else {
        nextOfs := to + |buf|;
        skipOfs := 0;
      }
      hide Bytes, WholeBlocks, Slots, Stored;
      retlen, q := StoreBlocks(ofs, buf, p);
      WrittenPieces(chip, old(blocks), blocks, Slots(chip, p), WholeBlocks(|buf|, blockSize), q, buf, blockSize);
    }

    /** The loop of onenand_block_write. */
    method StoreBlocks(start: nat, buf: seq<byte>, ghost p: nat) returns (retlen: nat, ghost q: nat)
      requires Valid() && start == Bytes(p, blockSize)
      requires WholeBlocks(|buf|, blockSize) <= |Slots(chip, p)|
      modifies this`blocks, this`skipOfs
      ensures Valid()
      ensures retlen == Bytes(WholeBlocks(|buf|, blockSize), blockSize) <= |buf|
      ensures start + retlen + skipOfs == Bytes(q, blockSize) + old(skipOfs) && p <= q
      ensures Stored(chip, old(blocks), blocks, Slots(chip, p), WholeBlocks(|buf|, blockSize), q, buf[..retlen])
    {
      hide Bytes, WholeBlocks, Slots, Stored, Chip.Usable;
      var left := WholeBlocks(|buf|, blockSize);
      ghost var n, s := left, Slots(chip, p);
      WholeFits(|buf|, blockSize);
      StoredStart(chip, blocks, p);
      var ofs := start;
      retlen, q := 0, p;
      ghost var k := 0;
      assert buf[..0] == [];
      while left > 0
        invariant Valid() && left + k == n && retlen == Bytes(k, blockSize) <= |buf|
        invariant p <= q && ofs == Bytes(q, blockSize) && ofs + old(skipOfs) == start + retlen + skipOfs
        invariant Stored(chip, old(blocks), blocks, s, k, q, buf[..retlen])
        decreases chip.size - q
      {
        BytesStep(k, blockSize);
        BytesStep(q, blockSize);
        BytesUpTo(k + 1, n, blockSize);
        var stored := WriteOne(ofs, buf[retlen..retlen + blockSize], old(blocks), s, k, q, buf[..retlen]);
        if stored {
          assert buf[..retlen] + buf[retlen..retlen + blockSize] == buf[..retlen + blockSize];
          left, retlen, k := left - 1, retlen + blockSize, k + 1;
        } else {
          skipOfs := skipOfs + blockSize;
        }
        ofs, q := ofs + blockSize, q + 1;
      }
    }

    /** onenand_block_read of the main area, from block `p` on. */
    method BlockRead(from: nat, len: nat, ghost p: nat) returns (buf: seq<byte>)
      requires Valid() && from == Bytes(p, blockSize)
      requires WholeBlocks(len, blockSize) <= |Slots(chip, p)|
      ensures Written(blocks, Slots(chip, p)[..WholeBlocks(len, blockSize)], buf)
    {
      ghost var n, s := WholeBlocks(len, blockSize), Slots(chip, p);
      hide WholeBlocks, Slots, Stored, Written, Kept, Contents;
      StoredStart(chip, blocks, p);
      ghost var q;
      buf, q := TakeBlocks(from, WholeBlocks(len, blockSize), s, p);
      StoredIsWritten(chip, blocks, blocks, s, n, q, buf);
    }

    /** The loop of onenand_block_read. */
    method TakeBlocks(from: nat, n: nat, ghost s: seq<nat>, ghost p: nat) returns (buf: seq<byte>, ghost q: nat)
      requires Valid() && from == Bytes(p, blockSize) && n <= |s|
      requires Stored(chip, blocks, blocks, s, 0, p, [])
      ensures Stored(chip, blocks, blocks, s, n, q, buf)
    {
      hide Bytes, Stored, Chip.Usable;
      var left: nat, ofs: nat := n, from;
      buf, q := [], p;
      while left > 0
        invariant 0 <= left <= n && ofs == Bytes(q, blockSize)
        invariant Stored(chip, blocks, blocks, s, n - left, q, buf)
        decreases chip.size - q
      {
        BytesStep(q, blockSize);
        var read, data := ReadOne(ofs, s, n - left, q, buf);
        if read {
          left, buf := left - 1, buf + data;
        }
        ofs, q := ofs + blockSize, q + 1;
      }
    }

    /** One turn of the loop of onenand_block_read: take a block unless the place is unusable. */
    method ReadOne(ofs: nat, ghost s: seq<nat>, ghost k: nat, ghost q: nat, ghost done: seq<byte>)
        returns (read: bool, data: seq<byte>)
      requires Valid() && k < |s| && ofs == Bytes(q, blockSize)
      requires Stored(chip, blocks, blocks, s, k, q, done)
      ensures read <==> chip.Usable(q)
      ensures q < chip.size
      ensures Stored(chip, blocks, blocks, s, if read then k + 1 else k, q + 1, if read then done + data else done)
    {
      InChip(chip, blocks, blocks, s, k, q, done);
      BlockOf(q, blockSize);
      hide Stored, Bytes;
      data := [];
      var ret := BlockIsBad(ofs);
      if ret {
        StoredSkip(chip, blocks, blocks, blocks, s, k, q, done);
        return false, data;
      }
      ret, data := DeviceRead(ofs);
      if ret {
        StoredSkip(chip, blocks, blocks, blocks, s, k, q, done);
      } else {
        StoredStep(chip, blocks, blocks, blocks, s, k, q, done);
      }
      return !ret, data;
    }

    /** Back-to-back writes from `from` on, the first of which starts at block `p`. */
    method WriteAll(from: nat, chunks: seq<seq<byte>>, ghost p: nat) returns (len: nat, ghost q: nat)
      requires Valid() && StartOf(from) == Bytes(p, blockSize)
      requires forall i :: 0 <= i < |chunks| ==> IsMultiple(chunks[i], blockSize)
      requires BlockCount(chunks, blockSize) <= |Slots(chip, p)|
      modifies this
      ensures Valid() && len == |Flatten(chunks)|
      ensures Stored(chip, old(blocks), blocks, Slots(chip, p), BlockCount(chunks, blockSize), q, Flatten(chunks))
      ensures chunks != [] ==> nextOfs == from + |Flatten(chunks)| && nextOfs + skipOfs == Bytes(q, blockSize)
    {
      hide Bytes, WholeBlocks, Slots, Stored, BlockCount, Flatten;
      ghost var s := Slots(chip, p);
      var to := from;
      q := p;
      StoredStart(chip, blocks, p);
      NoChunks(blockSize);
      assert chunks[..0] == [];
      for i := 0 to |chunks|
        invariant Valid() && to == from + |Flatten(chunks[..i])| && StartOf(to) == Bytes(q, blockSize)
        invariant Stored(chip, old(blocks), blocks, s, BlockCount(chunks[..i], blockSize), q, Flatten(chunks[..i]))
        invariant i > 0 ==> nextOfs == to
      {
        ghost var k, n, r, prev := BlockCount(chunks[..i], blockSize), WholeBlocks(|chunks[i]|, blockSize), q, blocks;
        ChunkStep(chunks, i, blockSize);
        CountUpTo(chunks, i + 1, blockSize);
        StoredIsWritten(chip, old(blocks), blocks, s, k, q, Flatten(chunks[..i]));
        var retlen;
        retlen, q := BlockWrite(to, chunks[i], r);
        assert chunks[i][..retlen] == chunks[i];
        Chain(chip, old(blocks), prev, blocks, s, k, r, Flatten(chunks[..i]), n, q, chunks[i]);
        to := to + |chunks[i]|;
      }
      assert chunks[..|chunks|] == chunks;
      len := to - from;
    }

    /** Whatever is written back to back is read back in one piece, whatever the unusable blocks: block
        `p`, where the writes start, is block `f` of the read unless the session begins at the offset
        where an earlier one stopped after skipping. Then no usable block may lie between the two: the read
        begins with what the first one held before. */
    method WriteThenRead(from: nat, chunks: seq<seq<byte>>, ghost f: nat, ghost p: nat) returns (buf: seq<byte>)
      requires Valid() && from == Bytes(f, blockSize) && StartOf(from) == Bytes(p, blockSize) && f <= p
      requires forall i :: 0 <= i < |chunks| ==> IsMultiple(chunks[i], blockSize)
      requires BlockCount(chunks, blockSize) <= |Slots(chip, p)|
      modifies this
      ensures Valid()
      ensures (forall b :: f <= b < p ==> !chip.Usable(b)) ==> buf == Flatten(chunks)
      ensures Flatten(chunks) != [] ==> OldBlockFirst(chip, old(blocks), f, p, buf)
    {
      hide Bytes, WholeBlocks, Slots, BlockCount, Flatten, Contents, Stored, OldBlockFirst, Chip.Usable;
      MoreSlots(chip, f, p);
      SameSlotsIff(chip, f, p);
      ghost var before := blocks;
      var len, q := WriteAll(from, chunks, p);
      TotalBlocks(chunks, blockSize);
      NoBytes(blockSize);
      buf := BlockRead(from, len, f);
      ghost var n := BlockCount(chunks, blockSize);
      StoredIsWritten(chip, before, blocks, Slots(chip, p), n, q, Flatten(chunks));
      if Flatten(chunks) != [] {
        OldBlockIsRead(chip, before, blocks, f, p, n);
      }
    }
  }

  /** Block `b` is the first usable one from `f` on. */
  ghost predicate FirstUsable(c: Chip, f: nat, b: nat) {
    f <= b && c.Usable(b) && forall a: nat :: f <= a < b ==> !c.Usable(a)
  }

  lemma {:induction false} FirstSlot(c: Chip, f: nat, b: nat)
    requires FirstUsable(c, f, b)
    ensures Slots(c, f) != [] && Slots(c, f)[0] == b
    decreases b - f
  {
    if f < b {
      FirstSlot(c, f + 1, b);
    }
  }

  lemma {:induction false} ContentsStart(blocks: seq<seq<byte>>, slots: seq<nat>)
    requires slots != [] && forall j :: 0 <= j < |slots| ==> slots[j] < |blocks|
    ensures blocks[slots[0]] <= Contents(blocks, slots)
  {
    var n := |slots| - 1;
    if n == 0 {
      OneBlock(blocks, slots[0]);
      assert slots == [slots[0]];
    } else {
      ContentsStart(blocks, slots[..n]);
    }
  }

  /** If the first usable block from `f` on lies before `p`, the data begins with what it held. */
  ghost predicate OldBlockFirst(c: Chip, before: seq<seq<byte>>, f: nat, p: nat, data: seq<byte>) {
    forall b: nat :: FirstUsable(c, f, b) && b < p ==> b < |before| && before[b] <= data
  }

  /** A write from block `p` on leaves a usable block before `p` alone, and a read from there begins with it. */
  lemma OldBlockIsRead(c: Chip, before: seq<seq<byte>>, after: seq<seq<byte>>, f: nat, p: nat, n: nat)
    requires 0 < n <= |Slots(c, p)| <= |Slots(c, f)| && Kept(c, before, after, Slots(c, p)[..n])
    ensures OldBlockFirst(c, before, f, p, Contents(after, Slots(c, f)[..n]))
  {
    forall b: nat | FirstUsable(c, f, b) && b < p
      ensures b < |before| && before[b] <= Contents(after, Slots(c, f)[..n])
    {
      FirstSlot(c, f, b);
      ContentsStart(after, Slots(c, f)[..n]);
      hide Slots, Contents;
      assert b !in Slots(c, p)[..n];
    }
  }

  lemma NoBytes(blockSize: nat)
    ensures Bytes(0, blockSize) == 0
  {
  }

  lemma {:induction false} MoreSlots(c: Chip, p: nat, q: nat)
    requires p <= q
    ensures |Slots(c, q)| <= |Slots(c, p)|
    decreases q - p
  {
    if p < q {
      MoreSlots(c, p + 1, q);
    }
  }

  /** A new session that begins where an earlier one stopped: the write goes to block 2, the read to block 1. */
  method ContinuedSession() returns (buf: seq<byte>)
    ensures buf == [7]
  {
    var d := new Device(Chip(3, {0}, {}), 1, [[0], [0], [0]]);
    ThreeBlocks(d.chip);
    hide Slots, Contents;
    var _, _ := d.BlockWrite(0, [7], 0);
    OneBlock(d.blocks, 1);
    var _, _ := d.BlockWrite(1, [9], 2);
    assert d.blocks[1] == [7];
    OneBlock(d.blocks, 1);
    buf := d.BlockRead(1, 1, 1);
  }

  lemma ThreeBlocks(c: Chip)
    requires c == Chip(3, {0}, {})
    ensures Slots(c, 2) == [2] && Slots(c, 1) == Slots(c, 0) == [1, 2]
    ensures [1, 2][..1] == [1] && [2][..1] == [2]
  {
    assert Slots(c, 3) == [];
  }

  lemma OneBlock(blocks: seq<seq<byte>>, b: nat)
    requires b < |blocks|
    ensures Contents(blocks, [b]) == blocks[b]
  {
    assert [b][..0] == [];
    assert Contents(blocks, [b][..0]) == [];
  }

  /** The length is a whole number of blocks. */
  ghost predicate IsMultiple(chunk: seq<byte>, blockSize: nat)
    requires blockSize > 0
  {
    |chunk| == Bytes(WholeBlocks(|chunk|, blockSize), blockSize)
  }

  lemma NoChunks(blockSize: nat)
    requires blockSize > 0
    ensures Flatten([]) == [] && BlockCount([], blockSize) == 0
  {
  }

  lemma ChunkStep(chunks: seq<seq<byte>>, i: nat, blockSize: nat)
    requires i < |chunks| && blockSize > 0
    ensures Flatten(chunks[..i + 1]) == Flatten(chunks[..i]) + chunks[i]
    ensures BlockCount(chunks[..i + 1], blockSize)
            == BlockCount(chunks[..i], blockSize) + WholeBlocks(|chunks[i]|, blockSize)
  {
    assert chunks[..i + 1][..i] == chunks[..i];
  }

  lemma {:induction false} CountUpTo(chunks: seq<seq<byte>>, i: nat, blockSize: nat)
    requires i <= |chunks| && blockSize > 0
    ensures BlockCount(chunks[..i], blockSize) <= BlockCount(chunks, blockSize)
    decreases |chunks| - i
  {
    if i < |chunks| {
      ChunkStep(chunks, i, blockSize);
      CountUpTo(chunks, i + 1, blockSize);
    } else {
      assert chunks[..i] == chunks;
    }
  }

  lemma {:induction false} TotalBlocks(chunks: seq<seq<byte>>, blockSize: nat)
    requires blockSize > 0 && forall i :: 0 <= i < |chunks| ==> IsMultiple(chunks[i], blockSize)
    ensures |Flatten(chunks)| == Bytes(BlockCount(chunks, blockSize), blockSize)
    ensures WholeBlocks(|Flatten(chunks)|, blockSize) == BlockCount(chunks, blockSize)
  {
    if chunks != [] {
      var n := |chunks| - 1;
      TotalBlocks(chunks[..n], blockSize);
      BytesAdd(BlockCount(chunks[..n], blockSize), WholeBlocks(|chunks[n]|, blockSize), blockSize);
    }
    BlockOf(BlockCount(chunks, blockSize), blockSize);
  }

  lemma BytesAdd(a: nat, b: nat, blockSize: nat)
    ensures Bytes(a + b, blockSize) == Bytes(a, blockSize) + Bytes(b, blockSize)
  {
  }

  /** Two writes one after the other are one longer write. */
  lemma Chain(c: Chip, b0: seq<seq<byte>>, b1: seq<seq<byte>>, b2: seq<seq<byte>>, s: seq<nat>, k: nat, q: nat,
              data: seq<byte>, n: nat, r: nat, chunk: seq<byte>)
    requires Stored(c, b0, b1, s, k, q, data) && Stored(c, b1, b2, Slots(c, q), n, r, chunk)
    requires q <= r && forall j :: 0 <= j < |s| ==> c.Usable(s[j])
    ensures Stored(c, b0, b2, s, k + n, r, data + chunk)
  {
    hide Slots, Contents;
    var t := Slots(c, q);
    assert t == s[k..];
    assert s[..k + n] == s[..k] + t[..n];
    ContentsSame(b1, b2, s[..k]);
    ContentsConcat(b2, s[..k], t[..n]);
    assert forall j :: 0 <= j < k + n ==> s[j] == if j < k then s[..k][j] else t[j - k];
    assert t[n..] == s[k + n..];
  }

  ghost function Flatten(chunks: seq<seq<byte>>): seq<byte> {
    if chunks == [] then [] else Flatten(chunks[..|chunks| - 1]) + chunks[|chunks| - 1]
  }

  ghost function BlockCount(chunks: seq<seq<byte>>, blockSize: nat): nat
    requires blockSize > 0
  {
    if chunks == [] then 0
    else BlockCount(chunks[..|chunks| - 1], blockSize) + WholeBlocks(|chunks[|chunks| - 1]|, blockSize)
  }

  lemma InChip(c: Chip, before: seq<seq<byte>>, after: seq<seq<byte>>, s: seq<nat>, k: nat, q: nat, data: seq<byte>)
    requires Stored(c, before, after, s, k, q, data) && k < |s|
    ensures q < c.size
  {
    PassedStep(c, s, k, q);
  }

  lemma StoredIsWritten(c: Chip, before: seq<seq<byte>>, after: seq<seq<byte>>,
                        s: seq<nat>, k: nat, q: nat, data: seq<byte>)
    requires Stored(c, before, after, s, k, q, data)
    ensures k <= |s| && Written(after, s[..k], data) && Kept(c, before, after, s[..k])
    ensures |Slots(c, q)| == |s| - k
  {
  }
}
