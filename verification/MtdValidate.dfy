/** part_validate of cmd_mtdparts.c: 32-bit range checks and eraseblock alignment. */
module MtdValidate {
  import opened CTypes

  const SIZE_REMAINING: u32 := 0xFFFF_FFFF

  type BlockSize = w: int | 0 < w < U32_LIMIT witness 1

  /** One erase region: `numBlocks` blocks of `eraseSize` bytes from `offset` on. */
  datatype Region = Region(offset: u32, eraseSize: BlockSize, numBlocks: nat)

  /** The geometry of a flash device; no regions means uniform blocks of `eraseSize`. */
  datatype Flash = Flash(eraseSize: BlockSize, regions: seq<Region>)

  /** An entry of the mtdids list. `flash` is None when the driver does not know the device. */
  datatype Id = Id(devType: byte, num: byte, size: u32, mtdId: string, flash: Option<Flash>)

  datatype Part = Part(name: string, autoName: bool, size: u32, offset: u32, readOnly: bool)

  /** Every region lies below 4 GiB. */
  ghost predicate ValidFlash(f: Flash) {
    forall i :: 0 <= i < |f.regions| ==> RegionEnd(f.regions[i]) < U32_LIMIT
  }

  ghost predicate ValidId(id: Id) {
    id.flash.Some? ==> ValidFlash(id.flash.value)
  }

  function BlockStart(r: Region, j: nat): nat {
    r.offset + j * r.eraseSize
  }

  function RegionEnd(r: Region): nat {
    BlockStart(r, r.numBlocks)
  }

  ghost predicate StartsIn(r: Region, x: u32) {
    exists j: nat :: j < r.numBlocks && x == BlockStart(r, j)
  }

  ghost predicate IsBlockStart(regions: seq<Region>, x: u32) {
    exists i :: 0 <= i < |regions| && StartsIn(regions[i], x)
  }

  ghost predicate IsLastEnd(regions: seq<Region>, x: u32) {
    regions != [] && x == RegionEnd(regions[|regions| - 1])
  }

  ghost predicate Aligned(f: Flash, offset: u32, end: u32, size: u32) {
    if f.regions == [] then offset % f.eraseSize == 0 && size % f.eraseSize == 0
    else IsBlockStart(f.regions, offset) && (IsBlockStart(f.regions, end) || IsLastEnd(f.regions, end))
  }

  /** The inner loop over the blocks of one region. */
  method ScanRegion(r: Region, x: u32) returns (found: bool, start: u32)
    requires RegionEnd(r) < U32_LIMIT
    ensures found <==> StartsIn(r, x)
    ensures !found ==> start == RegionEnd(r)
  {
    start := r.offset;
    var j := 0;
    while j < r.numBlocks
      invariant j <= r.numBlocks && start == BlockStart(r, j)
      invariant forall k: nat :: k < j ==> x != BlockStart(r, k)
    {
      if x == start {
        return true, start;
      }
      BlockStep(r, j);
      start := Wrap32(start + r.eraseSize);
      j := j + 1;
    }
    found := false;
  }

  lemma BlockStep(r: Region, j: nat)
    requires j < r.numBlocks && RegionEnd(r) < U32_LIMIT
    ensures BlockStart(r, j) + r.eraseSize == BlockStart(r, j + 1) < U32_LIMIT
  {
    assert (j + 1) * r.eraseSize <= r.numBlocks * r.eraseSize;
  }

  /** The loops over all regions; `start` is left where the last region ends. */
  method ScanRegions(regions: seq<Region>, x: u32) returns (found: bool, start: u32)
    requires forall i :: 0 <= i < |regions| ==> RegionEnd(regions[i]) < U32_LIMIT
    ensures found <==> IsBlockStart(regions, x)
    ensures !found && regions != [] ==> start == RegionEnd(regions[|regions| - 1])
  {
    found, start := false, 0;
    for i := 0 to |regions|
      invariant !IsBlockStart(regions[..i], x)
      invariant i > 0 ==> start == RegionEnd(regions[i - 1])
    {
      found, start := ScanRegion(regions[i], x);
      if found {
        return;
      }
    }
    assert regions[..|regions|] == regions;
    found := false;
  }

  method ValidateEraseblock(id: Id, part: Part) returns (ok: bool)
    requires ValidId(id)
    ensures ok <==> id.flash.Some? && Aligned(id.flash.value, part.offset, Wrap32(part.offset + part.size), part.size)
  {
    if id.flash.None? {
      return false;
    }
    var f := id.flash.value;
    if f.regions == [] {
      if part.offset % f.eraseSize != 0 {
        return false;
      }
      if part.size % f.eraseSize != 0 {
        return false;
      }
      return true;
    }
    var found, start := ScanRegions(f.regions, part.offset);
    if !found {
      return false;
    }
    found, start := ScanRegions(f.regions, Wrap32(part.offset + part.size));
    if found {
      return true;
    }
    return Wrap32(part.offset + part.size) == start;
  }

  /** part_validate as the code computes it, in 32-bit arithmetic; it settles a "remaining" size. */
  ghost function Validate(id: Id, part: Part): Option<Part> {
    var p := if part.size == SIZE_REMAINING then part.(size := Wrap32(id.size - part.offset)) else part;
    var end := Wrap32(p.offset + p.size);
    if p.offset > id.size || end <= p.offset || end > id.size then None
    else if id.flash.Some? && Aligned(id.flash.value, p.offset, end, p.size) then Some(p)
    else None
  }

  method PartValidate(id: Id, part: Part) returns (r: Option<Part>)
    requires ValidId(id)
    ensures r == Validate(id, part)
  {
    var p := part;
    if p.size == SIZE_REMAINING {
      p := p.(size := Wrap32(id.size - p.offset));
    }
    if p.offset > id.size {
      return None;
    }
    if Wrap32(p.offset + p.size) <= p.offset {
      return None;
    }
    if Wrap32(p.offset + p.size) > id.size {
      return None;
    }
    var ok := ValidateEraseblock(id, p);
    r := if ok then Some(p) else None;
  }

  /** The three 32-bit comparisons rule out exactly the empty, the wrapping and the overlong range. */
  lemma RangeCheck(offset: u32, size: u32, total: u32)
    ensures !(offset > total || Wrap32(offset + size) <= offset || Wrap32(offset + size) > total)
            <==> 0 < size && offset + size <= total
  {
    if offset + size < U32_LIMIT {
      assert Wrap32(offset + size) == offset + size;
    } else {
      assert Wrap32(offset + size) == offset + size - U32_LIMIT;
    }
  }

  /** In exact arithmetic: what is accepted, for every offset and size, is a non-empty piece of the
      device that starts and ends on eraseblock boundaries, and every such piece is accepted. */
  lemma AcceptedIff(id: Id, part: Part)
    ensures Validate(id, part).Some? <==>
              var size := if part.size == SIZE_REMAINING then id.size - part.offset else part.size;
              && 0 < size
              && part.offset + size <= id.size
              && id.flash.Some?
              && Aligned(id.flash.value, part.offset, part.offset + size, size)
    ensures Validate(id, part).Some? ==>
              Validate(id, part).value
                  == part.(size := if part.size == SIZE_REMAINING then id.size - part.offset else part.size)
  {
    hide Aligned;
    var size := if part.size == SIZE_REMAINING then Wrap32(id.size - part.offset) else part.size;
    RangeCheck(part.offset, size, id.size);
    if part.offset > id.size {
      assert Validate(id, part) == None;
    } else if part.size == SIZE_REMAINING {
      assert size == id.size - part.offset;
    }
  }

  /** Partitions sorted by offset, no two at the same one. */
  ghost predicate Rising(parts: seq<Part>) {
    forall i, j :: 0 <= i < j < |parts| ==> parts[i].offset < parts[j].offset
  }

  /** Regions that follow each other without gaps from offset 0. */
  ghost predicate Contiguous(regions: seq<Region>) {
    && regions != []
    && regions[0].offset == 0
    && (forall i :: 0 <= i < |regions| ==> regions[i].numBlocks > 0)
    && forall i :: 0 <= i < |regions| - 1 ==> regions[i + 1].offset == RegionEnd(regions[i])
  }

  ghost predicate EdgeOf(r: Region, x: int) {
    exists j: nat :: j <= r.numBlocks && x == BlockStart(r, j)
  }

  /** The first or last byte boundary of some eraseblock. */
  ghost predicate IsEdge(regions: seq<Region>, x: int) {
    exists i :: 0 <= i < |regions| && EdgeOf(regions[i], x)
  }

  /** With contiguous regions the end check accepts exactly the block boundaries. */
  lemma EndsOnEdge(regions: seq<Region>, x: u32)
    requires Contiguous(regions)
    ensures IsBlockStart(regions, x) || IsLastEnd(regions, x) <==> IsEdge(regions, x)
  {
    if IsBlockStart(regions, x) {
      var i :| 0 <= i < |regions| && StartsIn(regions[i], x);
      assert EdgeOf(regions[i], x);
    }
    if IsLastEnd(regions, x) {
      assert EdgeOf(regions[|regions| - 1], x);
    }
    if IsEdge(regions, x) {
      var i :| 0 <= i < |regions| && EdgeOf(regions[i], x);
      var j: nat :| j <= regions[i].numBlocks && x == BlockStart(regions[i], j);
      if j < regions[i].numBlocks {
        assert StartsIn(regions[i], x);
      } else if i < |regions| - 1 {
        assert x == BlockStart(regions[i + 1], 0);
        assert StartsIn(regions[i + 1], x);
      }
    }
  }

  /** On a device with contiguous regions exactly the non-empty pieces are accepted that start and end on
      block boundaries; size 0xFFFFFFFF stands for all that is left of the device. */
  lemma AcceptedOnEdges(id: Id, part: Part)
    requires id.flash.Some? && Contiguous(id.flash.value.regions)
    ensures var size := if part.size == 0xFFFF_FFFF then id.size - part.offset else part.size;
      && (Validate(id, part).Some? <==>
            && size > 0 && part.offset + size <= id.size
            && IsEdge(id.flash.value.regions, part.offset) && IsEdge(id.flash.value.regions, part.offset + size))
      && (Validate(id, part).Some? ==> Validate(id, part).value == part.(size := size))
  {
    AcceptedIff(id, part);
    var regions := id.flash.value.regions;
    var size := if part.size == 0xFFFF_FFFF then id.size - part.offset else part.size;
    hide Validate, Contiguous, IsBlockStart, IsLastEnd, IsEdge;
    EndsOnEdge(regions, part.offset);
    if size > 0 && part.offset + size <= id.size {
      EndsOnEdge(regions, part.offset + size);
      if IsEdge(regions, part.offset + size) {
        NotLast(regions, part.offset, part.offset + size);
      }
    }
  }

  lemma {:induction false} RegionsRise(regions: seq<Region>, i: nat)
    requires Contiguous(regions) && i < |regions|
    ensures RegionEnd(regions[i]) <= RegionEnd(regions[|regions| - 1])
    decreases |regions| - i
  {
    if i < |regions| - 1 {
      RegionsRise(regions, i + 1);
    }
  }

  /** Below an edge no region list ends. */
  lemma NotLast(regions: seq<Region>, x: u32, y: u32)
    requires Contiguous(regions) && x < y && IsEdge(regions, y)
    ensures !IsLastEnd(regions, x)
  {
    var i :| 0 <= i < |regions| && EdgeOf(regions[i], y);
    var j: nat :| j <= regions[i].numBlocks && y == BlockStart(regions[i], j);
    RegionsRise(regions, i);
    BlockOrder(regions[i], j, regions[i].numBlocks);
  }

  lemma BlockOrder(r: Region, j: nat, n: nat)
    requires j <= n
    ensures BlockStart(r, j) <= BlockStart(r, n)
  {
    TimesUpTo(j, n, r.eraseSize);
  }

  lemma TimesUpTo(j: nat, n: nat, size: nat)
    requires j <= n
    ensures j * size <= n * size
  {
  }

  /** On a device with uniform blocks exactly the non-empty pieces are accepted whose offset and size are
      multiples of the block size. */
  lemma UniformIff(id: Id, part: Part)
    requires id.flash.Some? && id.flash.value.regions == []
    ensures var size := if part.size == 0xFFFF_FFFF then id.size - part.offset else part.size;
      && (Validate(id, part).Some? <==>
            && size > 0 && part.offset + size <= id.size
            && part.offset % id.flash.value.eraseSize == 0 && size % id.flash.value.eraseSize == 0)
      && (Validate(id, part).Some? ==> Validate(id, part).value == part.(size := size))
  {
    AcceptedIff(id, part);
    hide Validate;
  }
}
