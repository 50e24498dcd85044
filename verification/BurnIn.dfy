/** The NAND burn-in loop of cmd_nand.c ("ew" and "ewc"): passes over an area, percentages, and "stop". */
module BurnIn {
  import opened CTypes

  const UBOOT_END := 0x10_0000

  // ----- the percentage -----

  /** The progress computation: halve dividend and length until the length fits in 32 bits, then divide. */
  ghost function Halve(n: nat, length: nat): nat
    requires length > 0
    decreases length
  {
    if length < U32_LIMIT then n / length else Halve(n / 2, length / 2)
  }

  ghost function Percent(done: nat, size: nat): nat
    requires size > 0
  {
    Halve(done * 100, size)
  }

  method ComputePercent(done: nat, size: nat) returns (percent: nat)
    requires size > 0
    ensures percent == Percent(done, size)
  {
    var n: nat, length: nat := done * 100, size;
    while length >= U32_LIMIT
      invariant length > 0 && Halve(n, length) == Percent(done, size)
      decreases length
    {
      n, length := n / 2, length / 2;
    }
    percent := n / length;
  }

  lemma {:induction false} HalveAtLeast(n: nat, length: nat, m: nat)
    requires length > 0 && m * length <= n
    ensures Halve(n, length) >= m
    decreases length
  {
    if length < U32_LIMIT {
      Quotient(n, length, m);
    } else {
      HalfProduct(m, length);
      HalveAtLeast(n / 2, length / 2, m);
    }
  }

  lemma MulMono(a: nat, b: nat, d: nat)
    requires a <= b
    ensures a * d <= b * d
  {
  }

  lemma DivBounds(n: nat, d: nat)
    requires d > 0
    ensures n / d * d <= n < n / d * d + d
  {
  }

  lemma Quotient(n: nat, d: nat, m: nat)
    requires d > 0
    ensures m * d <= n <==> n / d >= m
  {
    var q := n / d;
    DivBounds(n, d);
    if q >= m {
      MulMono(m, q, d);
    } else {
      MulMono(q + 1, m, d);
      assert (q + 1) * d == q * d + d;
    }
  }

  lemma HalfProduct(m: nat, length: nat)
    ensures 2 * (m * (length / 2)) <= m * length <= 2 * (m * (length / 2)) + m
  {
    var h := length / 2;
    assert length == 2 * h || length == 2 * h + 1;
    assert m * (2 * h) == 2 * (m * h) && m * (2 * h + 1) == 2 * (m * h) + m;
  }

  lemma {:induction false} HalveAtMost(n: nat, length: nat, m: nat, halved: bool)
    requires 0 < length && m < U32_LIMIT / 2 && n <= m * length + if halved then m else 0
    requires halved ==> length >= U32_LIMIT / 2
    ensures Halve(n, length) <= m
    decreases length
  {
    if length < U32_LIMIT {
      assert (m + 1) * length == m * length + length;
      Quotient(n, length, m + 1);
    } else {
      HalfProduct(m, length);
      HalveAtMost(n / 2, length / 2, m, true);
    }
  }

  lemma {:induction false} HalveGrows(a: nat, b: nat, length: nat)
    requires length > 0 && a <= b
    ensures Halve(a, length) <= Halve(b, length)
    decreases length
  {
    if length < U32_LIMIT {
      Quotient(a, length, a / length);
      Quotient(b, length, a / length);
    } else {
      HalveGrows(a / 2, b / 2, length / 2);
    }
  }

  /** Despite the halving, the percentage is the exact one rounded down or up, never above 100, and 100
      exactly at the end. */
  lemma PercentIs(done: nat, size: nat)
    requires 0 < size && done <= size
    ensures done * 100 / size <= Percent(done, size) <= (done * 100 + size - 1) / size
    ensures Percent(done, size) <= 100
    ensures Percent(size, size) == 100
  {
    hide Halve;
    var n := done * 100;
    DivBounds(n, size);
    HalveAtLeast(n, size, n / size);
    RoundedUp(n, size);
    HalveAtMost(n, size, 100, false);
    HalveAtMost(n, size, (n + size - 1) / size, false);
    HalveAtLeast(size * 100, size, 100);
    HalveAtMost(size * 100, size, 100, false);
  }

  lemma RoundedUp(n: nat, size: nat)
    requires 0 < size && n <= 100 * size
    ensures n <= (n + size - 1) / size * size && (n + size - 1) / size <= 100
  {
    DivBounds(n + size - 1, size);
    Quotient(n + size - 1, size, 101);
    assert 101 * size == 100 * size + size;
  }

  lemma PercentGrows(a: nat, b: nat, size: nat)
    requires 0 < size && a <= b
    ensures Percent(a, size) <= Percent(b, size)
  {
    HalveGrows(a * 100, b * 100, size);
  }

  // ----- one pass -----

  /** What one pass did: the blocks visited, the percentage after each, the percentages printed, and
      whether "stop" was typed. */
  datatype Pass = Pass(visited: seq<nat>, percents: seq<nat>, printed: seq<nat>, stopped: bool)

  /** The first `n` erase blocks from `off` on. */
  ghost function Blocks(off: nat, erase: nat, n: nat): (r: seq<nat>)
    ensures |r| == n
  {
    if n == 0 then [] else Blocks(off, erase, n - 1) + [off + (n - 1) * erase]
  }

  function BlockCount(size: nat, erase: nat): nat
    requires erase > 0
  {
    size / erase
  }

  ghost function Percents(erase: nat, size: nat, n: nat): (r: seq<nat>)
    requires n * erase <= size && (n > 0 ==> size > 0)
    ensures |r| == n
  {
    if n == 0 then []
    else
      MulMono(n - 1, n, erase);
      Percents(erase, size, n - 1) + [Percent(n * erase, size)]
  }

  function LastShown(shown: int, percents: seq<nat>): int {
    if percents == [] then shown else percents[|percents| - 1]
  }

  /** The values printed: those that differ from the one before; `shown` is left from the pass before. */
  ghost function Changes(shown: int, percents: seq<nat>): seq<nat> {
    if percents == [] then []
    else
      var n := |percents| - 1;
      Changes(shown, percents[..n]) + if percents[n] != LastShown(shown, percents[..n]) then [percents[n]] else []
  }

  /** The pass visits the blocks in order, each once, and ends early only at the first "stop". */
  ghost predicate IsPass(p: Pass, off: nat, size: nat, erase: nat, shown: int, stop: set<nat>)
    requires erase > 0
  {
    var n := |p.visited|;
    && n * erase <= size && (n > 0 ==> size > 0)
    && p.visited == Blocks(off, erase, n)
    && p.percents == Percents(erase, size, n)
    && p.printed == Changes(shown, p.percents)
    && (forall i :: 0 <= i < n - 1 ==> p.visited[i] !in stop)
    && (if p.stopped then n > 0 && p.visited[n - 1] in stop
        else n * erase == size && (n > 0 ==> p.visited[n - 1] !in stop))
  }

  lemma PercentsStep(erase: nat, size: nat, n: nat, shown: int)
    requires (n + 1) * erase <= size && size > 0
    ensures n * erase <= size && (n + 1) * erase == n * erase + erase
    ensures Percents(erase, size, n + 1) == Percents(erase, size, n) + [Percent(n * erase + erase, size)]
    ensures var p := Percent(n * erase + erase, size);
      Changes(shown, Percents(erase, size, n + 1)) ==
        Changes(shown, Percents(erase, size, n)) + if p != LastShown(shown, Percents(erase, size, n)) then [p] else []
  {
    MulMono(n, n + 1, erase);
    assert (n + 1) * erase == n * erase + erase;
    var ps := Percents(erase, size, n + 1);
    assert ps[..n] == Percents(erase, size, n);
  }

  lemma NextBlock(n: nat, erase: nat, size: nat)
    requires erase > 0 && size % erase == 0 && n * erase < size
    ensures (n + 1) * erase <= size
  {
    var m := size / erase;
    DivBounds(size, erase);
    assert size == m * erase;
    if n >= m {
      MulMono(m, n, erase);
      assert false;
    }
    MulMono(n + 1, m, erase);
  }

  method RunPass(off: nat, size: nat, erase: nat, shown: int, stop: set<nat>) returns (p: Pass, shownAfter: int)
    requires erase > 0 && size % erase == 0
    ensures IsPass(p, off, size, erase, shown, stop)
    ensures shownAfter == LastShown(shown, p.percents)
  {
    hide Percents, Changes, Blocks, Percent;
    shownAfter := shown;
    var visited: seq<nat>, percents: seq<nat>, printed: seq<nat> := [], [], [];
    var rwAddr := off;
    NoBlocks(off, erase, size, shown);
    while rwAddr < off + size
      invariant rwAddr == off + |visited| * erase <= off + size && (visited != [] ==> size > 0)
      invariant visited == Blocks(off, erase, |visited|)
      invariant percents == Percents(erase, size, |visited|) && printed == Changes(shown, percents)
      invariant shownAfter == LastShown(shown, percents)
      invariant forall i :: 0 <= i < |visited| ==> visited[i] !in stop
      decreases off + size - rwAddr
    {
      ghost var n := |visited|;
      NextBlock(n, erase, size);
      PercentsStep(erase, size, n, shown);
      BlocksStep(off, erase, n);
      var percent := ComputePercent(rwAddr + erase - off, size);
      visited, percents := visited + [rwAddr], percents + [percent];
      if percent != shownAfter {
        shownAfter := percent;
        printed := printed + [percent];
      }
      if rwAddr in stop {
        return Pass(visited, percents, printed, true), shownAfter;
      }
      rwAddr := rwAddr + erase;
    }
    p := Pass(visited, percents, printed, false);
  }

  lemma NoBlocks(off: nat, erase: nat, size: nat, shown: int)
    ensures Blocks(off, erase, 0) == [] && Percents(erase, size, 0) == [] && Changes(shown, []) == []
  {
  }

  lemma BlocksStep(off: nat, erase: nat, n: nat)
    ensures Blocks(off, erase, n + 1) == Blocks(off, erase, n) + [off + n * erase]
  {
  }

  lemma {:induction false} BlockAt(off: nat, erase: nat, n: nat, i: nat)
    requires i < n
    ensures Blocks(off, erase, n)[i] == off + i * erase
  {
    if i < n - 1 {
      BlockAt(off, erase, n - 1, i);
    }
  }

  lemma {:induction false} PercentAt(erase: nat, size: nat, n: nat, i: nat)
    requires n * erase <= size && size > 0 && i < n
    ensures (i + 1) * erase <= size && Percents(erase, size, n)[i] == Percent((i + 1) * erase, size)
  {
    MulMono(i + 1, n, erase);
    MulMono(n - 1, n, erase);
    if i < n - 1 {
      PercentAt(erase, size, n - 1, i);
    }
  }

  ghost predicate NonDecreasing(s: seq<nat>) {
    forall i, j :: 0 <= i < j < |s| ==> s[i] <= s[j]
  }

  ghost predicate Rising(s: seq<nat>) {
    forall i, j :: 0 <= i < j < |s| ==> s[i] < s[j]
  }

  /** Every visited block is different; the percentages never fall and stay within 100; a pass that is not
      stopped ends at exactly 100 and has visited the whole area. */
  lemma PassPercents(p: Pass, off: nat, size: nat, erase: nat, shown: int, stop: set<nat>)
    requires erase > 0 && IsPass(p, off, size, erase, shown, stop)
    ensures Rising(p.visited) && NonDecreasing(p.percents)
    ensures forall i :: 0 <= i < |p.percents| ==> p.percents[i] <= 100
    ensures !p.stopped && size > 0 ==>
              p.visited == Blocks(off, erase, BlockCount(size, erase)) && LastShown(shown, p.percents) == 100
  {
    hide Percent, Percents, Blocks, Changes;
    var n := |p.visited|;
    forall i, j | 0 <= i < j < n
      ensures p.visited[i] < p.visited[j] && p.percents[i] <= p.percents[j]
    {
      BlockAt(off, erase, n, i);
      BlockAt(off, erase, n, j);
      PercentAt(erase, size, n, i);
      PercentAt(erase, size, n, j);
      MulMono(i + 1, j, erase);
      MulMono(i + 1, j + 1, erase);
      assert (i + 1) * erase == i * erase + erase;
      PercentGrows((i + 1) * erase, (j + 1) * erase, size);
    }
    forall i | 0 <= i < n
      ensures p.percents[i] <= 100
    {
      PercentAt(erase, size, n, i);
      PercentIs((i + 1) * erase, size);
    }
    if !p.stopped && size > 0 {
      assert n > 0;
      Quotient(size, erase, n);
      Quotient(size, erase, n + 1);
      assert (n + 1) * erase == size + erase;
      PercentAt(erase, size, n, n - 1);
      PercentIs(size, size);
    }
  }

  lemma {:induction false} ChangesRise(shown: int, percents: seq<nat>)
    requires NonDecreasing(percents)
    ensures Rising(Changes(shown, percents))
    ensures forall i :: 0 <= i < |Changes(shown, percents)| ==>
            Changes(shown, percents)[i] <= LastShown(shown, percents)
    ensures forall x :: x in Changes(shown, percents) ==> x in percents
  {
    if percents != [] {
      var n := |percents| - 1;
      ChangesRise(shown, percents[..n]);
      assert n > 0 ==> percents[n - 1] <= percents[n];
    }
  }

  lemma {:induction false} RisingLength(s: seq<nat>, bound: nat)
    requires Rising(s) && forall i :: 0 <= i < |s| ==> s[i] <= bound
    ensures |s| <= bound + 1
  {
    if s != [] {
      var n := |s| - 1;
      assert n > 0 ==> s[n - 1] < s[n];
      if bound > 0 {
        forall i | 0 <= i < n
          ensures s[..n][i] <= bound - 1
        {
          assert s[i] < s[n];
        }
        RisingLength(s[..n], bound - 1);
      }
    }
  }

  /** A pass prints rising percentages, so at most 101 of them. */
  lemma PassPrints(p: Pass, off: nat, size: nat, erase: nat, shown: int, stop: set<nat>)
    requires erase > 0 && IsPass(p, off, size, erase, shown, stop)
    ensures Rising(p.printed) && |p.printed| <= 101
  {
    PassPercents(p, off, size, erase, shown, stop);
    ChangesRise(shown, p.percents);
    forall i | 0 <= i < |p.printed|
      ensures p.printed[i] <= 100
    {
      assert p.printed[i] in p.percents;
    }
    RisingLength(p.printed, 100);
  }

  // ----- the whole command -----

  predicate Refused(nandSize: nat, erase: nat, off: nat, size: nat)
    requires erase > 0
  {
    off < UBOOT_END || off + size > nandSize || off % erase != 0 || size % erase != 0
  }

  /** The checks on the area, in the order of the source. */
  method AreaIsFine(nandSize: nat, erase: nat, off: nat, size: nat) returns (ok: bool)
    requires erase > 0
    ensures ok <==> !Refused(nandSize, erase, off, size)
    ensures ok ==> size % erase == 0
  {
    if off < UBOOT_END {
      return false;
    }
    if off + size > nandSize {
      return false;
    }
    if off % erase != 0 {
      return false;
    }
    if size % erase != 0 {
      return false;
    }
    return true;
  }

  /** An erase block of the chip that holds no byte of the boot loader, the first megabyte. */
  ghost predicate Inside(block: nat, erase: nat, nandSize: nat)
    requires erase > 0
  {
    0x10_0000 <= block && block + erase <= nandSize && block % erase == 0
  }

  /** The blocks of a pass follow each other from `off` on, and none holds a byte below 0x100000 or reaches
      behind the end of the chip; the pass is stopped exactly if "stop" is typed at a visited block, and covers
      the whole area otherwise. */
  lemma VisitsInside(p: Pass, nandSize: nat, off: nat, size: nat, erase: nat, shown: int, stop: set<nat>)
    requires erase > 0 && !Refused(nandSize, erase, off, size) && IsPass(p, off, size, erase, shown, stop)
    ensures forall i :: 0 <= i < |p.visited| ==>
              p.visited[i] == off + i * erase && Inside(p.visited[i], erase, nandSize)
    ensures p.stopped <==> exists i :: 0 <= i < |p.visited| && p.visited[i] in stop
    ensures !p.stopped ==> |p.visited| * erase == size
  {
    hide Blocks, Percents, Changes, Inside;
    forall i | 0 <= i < |p.visited|
      ensures p.visited[i] == off + i * erase && Inside(p.visited[i], erase, nandSize)
    {
      BlockAt(off, erase, |p.visited|, i);
      BlockInside(nandSize, off, size, erase, |p.visited|, i);
    }
  }

  lemma BlockInside(nandSize: nat, off: nat, size: nat, erase: nat, n: nat, i: nat)
    requires erase > 0 && !Refused(nandSize, erase, off, size) && i < n && n * erase <= size
    ensures Inside(off + i * erase, erase, nandSize)
  {
    MulMono(i + 1, n, erase);
    OneMore(i, erase);
    BlockStart(off, i, erase);
  }

  lemma OneMore(i: nat, erase: nat)
    ensures (i + 1) * erase == i * erase + erase
  {
  }

  lemma BlockStart(off: nat, i: nat, erase: nat)
    requires erase > 0 && off % erase == 0
    ensures (off + i * erase) % erase == 0
  {
    var m := off / erase;
    DivBounds(off, erase);
    assert off == m * erase;
    assert off + i * erase == (m + i) * erase;
    DivBounds((m + i) * erase, erase);
    Quotient((m + i) * erase, erase, m + i);
    Quotient((m + i) * erase, erase, m + i + 1);
    assert (m + i + 1) * erase == (m + i) * erase + erase;
  }

  /** What was shown last before pass `k`. */
  ghost function ShownBefore(passes: seq<Pass>, k: nat): int
    requires k <= |passes|
  {
    if k == 0 then -1 else LastShown(ShownBefore(passes, k - 1), passes[k - 1].percents)
  }

  ghost predicate IsRun(passes: seq<Pass>, off: nat, size: nat, erase: nat, stops: seq<set<nat>>)
    requires erase > 0
  {
    && |passes| <= |stops|
    && forall k :: 0 <= k < |passes| ==> IsPass(passes[k], off, size, erase, ShownBefore(passes, k), stops[k])
  }

  /** "nand ew off size -t count": the checks, then passes until the count is used up or one is stopped.
      `stops[k]` holds the blocks after which "stop" is typed in pass `k`. */
  method EraseWrite(nandSize: nat, erase: nat, off: nat, size: nat, count: nat, stops: seq<set<nat>>)
    returns (ok: bool, passes: seq<Pass>)
    requires erase > 0 && |stops| == count
    ensures ok <==> off >= 0x10_0000 && off + size <= nandSize && off % erase == 0 && size % erase == 0
    ensures !ok ==> passes == []
    ensures forall k, i :: 0 <= k < |passes| && 0 <= i < |passes[k].visited| ==>
              Inside(passes[k].visited[i], erase, nandSize)
    ensures ok ==> IsRun(passes, off, size, erase, stops)
    ensures |passes| <= count
    ensures forall k :: 0 <= k < |passes| - 1 ==> !passes[k].stopped
    ensures ok && |passes| < count ==> passes != [] && passes[|passes| - 1].stopped
  {
    hide IsPass, Inside;
    passes := [];
    ok := AreaIsFine(nandSize, erase, off, size);
    if ok {
      passes := RunPasses(erase, off, size, count, stops);
      forall k | 0 <= k < |passes|
        ensures forall i :: 0 <= i < |passes[k].visited| ==> Inside(passes[k].visited[i], erase, nandSize)
      {
        VisitsInside(passes[k], nandSize, off, size, erase, ShownBefore(passes, k), stops[k]);
      }
    }
  }

  method RunPasses(erase: nat, off: nat, size: nat, count: nat, stops: seq<set<nat>>) returns (passes: seq<Pass>)
    requires erase > 0 && size % erase == 0 && |stops| == count
    ensures IsRun(passes, off, size, erase, stops)
    ensures |passes| <= count
    ensures forall k :: 0 <= k < |passes| - 1 ==> !passes[k].stopped
    ensures |passes| < count ==> passes != [] && passes[|passes| - 1].stopped
  {
    hide IsPass, LastShown;
    passes := [];
    var left: nat := count;
    var shown := -1;
    while left > 0
      invariant |passes| <= count && (left > 0 ==> |passes| + left == count)
      invariant shown == ShownBefore(passes, |passes|)
      invariant IsRun(passes, off, size, erase, stops)
      invariant forall k :: 0 <= k < |passes| - 1 ==> !passes[k].stopped
      invariant left > 0 && passes != [] ==> !passes[|passes| - 1].stopped
      invariant left == 0 && |passes| < count ==> passes != [] && passes[|passes| - 1].stopped
    {
      var p, after := RunPass(off, size, erase, shown, stops[|passes|]);
      RunStep(passes, p, off, size, erase, stops);
      left := if p.stopped then 0 else left - 1;
      passes, shown := passes + [p], after;
    }
  }

  lemma {:induction false} ShownSame(passes: seq<Pass>, p: Pass, k: nat)
    requires k <= |passes|
    ensures ShownBefore(passes + [p], k) == ShownBefore(passes, k)
  {
    if k > 0 {
      ShownSame(passes, p, k - 1);
    }
  }

  lemma RunStep(passes: seq<Pass>, p: Pass, off: nat, size: nat, erase: nat, stops: seq<set<nat>>)
    requires erase > 0 && |passes| < |stops| && IsRun(passes, off, size, erase, stops)
    requires IsPass(p, off, size, erase, ShownBefore(passes, |passes|), stops[|passes|])
    ensures IsRun(passes + [p], off, size, erase, stops)
    ensures ShownBefore(passes + [p], |passes| + 1) == LastShown(ShownBefore(passes, |passes|), p.percents)
  {
    hide IsPass, ShownBefore, LastShown;
    var more := passes + [p];
    ShownLast(passes, p);
    forall k | 0 <= k < |more|
      ensures IsPass(more[k], off, size, erase, ShownBefore(more, k), stops[k])
    {
      ShownSame(passes, p, k);
      if k < |passes| {
        assert more[k] == passes[k];
      }
    }
  }

  lemma ShownLast(passes: seq<Pass>, p: Pass)
    ensures ShownBefore(passes + [p], |passes| + 1) == LastShown(ShownBefore(passes, |passes|), p.percents)
  {
    ShownSame(passes, p, |passes|);
  }

  // ----- passes after the first -----

  lemma {:induction false} ChangesStart(shown: int, percents: seq<nat>)
    requires percents != [] && percents[0] != shown
    ensures Changes(shown, percents) != [] && Changes(shown, percents)[0] == percents[0]
  {
    var n := |percents| - 1;
    if n == 0 {
      assert percents[..n] == [];
    } else {
      ChangesStart(shown, percents[..n]);
    }
  }

  /** The only block of an area ends it at 100; the first of several ends at most halfway. */
  lemma FirstPercent(size: nat, erase: nat, n: nat)
    requires erase > 0 && n > 0 && n * erase == size
    ensures size == erase <==> n == 1
    ensures Percent(erase, size) == 100 <==> n == 1
  {
    hide Percent;
    MulMono(1, n, erase);
    if n == 1 {
      PercentIs(erase, erase);
    } else {
      MulMono(2, n, erase);
      PercentIs(erase, size);
      Quotient(erase * 100 + size - 1, size, 51);
      assert 51 * size == 50 * size + size;
    }
  }

  /** The percentage shown last survives a pass: each later pass starts from 100, so it prints nothing exactly
      if the area is a single block. */
  lemma LaterPassSilentIff(passes: seq<Pass>, off: nat, size: nat, erase: nat, stops: seq<set<nat>>, k: nat)
    requires erase > 0 && size > 0 && IsRun(passes, off, size, erase, stops)
    requires 1 <= k < |passes| && !passes[k - 1].stopped
    ensures ShownBefore(passes, k) == 100
    ensures passes[k].printed == [] <==> size == erase
  {
    hide Percents, Percent, Blocks, Changes;
    PassPercents(passes[k - 1], off, size, erase, ShownBefore(passes, k - 1), stops[k - 1]);
    FirstPercent(size, erase, |passes[k - 1].visited|);
    SilentIff(passes[k], off, size, erase, stops[k]);
  }

  lemma SilentIff(p: Pass, off: nat, size: nat, erase: nat, stop: set<nat>)
    requires erase > 0 && size > 0 && IsPass(p, off, size, erase, 100, stop)
    requires size == erase <==> Percent(erase, size) == 100
    ensures p.printed == [] <==> size == erase
  {
    hide Percents, Percent, Blocks;
    var n := |p.visited|;
    assert n > 0;
    PercentAt(erase, size, n, 0);
    if size == erase {
      assert n == 1 by {
        if n > 1 {
          MulMono(2, n, erase);
        }
      }
      assert p.percents[..0] == [];
      assert Changes(100, p.percents[..0]) == [];
    } else {
      ChangesStart(100, p.percents);
    }
  }
}
