/** What the remainder of module Crc16 is in polynomial terms, and which transmission errors it detects. */
module Crc16Errors {
  import opened CrcWords
  import opened Crc16

  // ----- the remainder of a polynomial division -----

  /** x^16 + x^12 + x^5 + 1, highest power first. */
  ghost function GeneratorBits(): (g: seq<bool>)
    ensures |g| == 17
  {
    seq(17, k => k == 0 || k == 4 || k == 11 || k == 16)
  }

  ghost function RegisterBit(w: Word, k: nat): bool {
    if k == 0 then w.b15 else if k == 1 then w.b14 else if k == 2 then w.b13 else if k == 3 then w.b12
    else if k == 4 then w.b11 else if k == 5 then w.b10 else if k == 6 then w.b9 else if k == 7 then w.b8
    else if k == 8 then w.b7 else if k == 9 then w.b6 else if k == 10 then w.b5 else if k == 11 then w.b4
    else if k == 12 then w.b3 else if k == 13 then w.b2 else if k == 14 then w.b1 else k == 15 && w.b0
  }

  ghost function RegisterBits(w: Word): (r: seq<bool>)
    ensures |r| == 16
  {
    seq(16, k requires 0 <= k => RegisterBit(w, k))
  }

  /** x times a product, plus the generator if the next coefficient of the multiplier is set. */
  ghost function AddMultiple(product: seq<bool>, t: bool): (r: seq<bool>)
    requires |product| >= 16
    ensures |r| == |product| + 1
  {
    XorSeq(product + [false], Zeros(|product| - 16) + if t then GeneratorBits() else Zeros(17))
  }

  /** The product of a polynomial and the generator, by shift and add. */
  ghost function TimesGenerator(q: seq<bool>): (r: seq<bool>)
    ensures |r| == |q| + 16
  {
    if q == [] then Zeros(16)
    else AddMultiple(TimesGenerator(q[..|q| - 1]), q[|q| - 1])
  }

  ghost function Quotient(m: seq<bool>): (q: seq<bool>)
    ensures |q| == |m|
  {
    if m == [] then []
    else
      var n := |m| - 1;
      Quotient(m[..n]) + [Crc(m[..n]).b15 != m[n]]
  }

  lemma {:induction false} CrcSnoc(m: seq<bool>, b: bool)
    ensures Crc(m + [b]) == ShiftBit(Crc(m), b)
  {
    FoldConcat(ZERO, m, [b]);
    assert [b][1..] == [];
    assert Fold(Crc(m), [b]) == Fold(ShiftBit(Crc(m), b), []);
  }

  /** The register as a bit string: shift left and subtract the low part of the generator. */
  ghost function ShiftSeq(r: seq<bool>, t: bool): (s: seq<bool>)
    requires |r| == 16
    ensures |s| == 16
  {
    XorSeq(r[1..] + [false], if t then GeneratorBits()[1..] else Zeros(16))
  }

  lemma ShiftRegister(r: Word, b: bool, t: bool, s: Word)
    requires t == (r.b15 != b) && s == ShiftBit(r, b)
    ensures RegisterBits(s) == ShiftSeq(RegisterBits(r), t)
  {
    var x := ShiftLeft(r);
    if t {
      SubtractFields(x, s);
    }
    forall k | 0 <= k < 16
      ensures RegisterBit(s, k) == (RegisterBit(r, k + 1) != (t && GeneratorBits()[k + 1]))
    {
      LeftRow(r, k);
      if t {
        SubtractRow(x, s, k);
      }
    }
    ShiftSeqIs(RegisterBits(r), t, RegisterBits(s));
  }

  lemma ShiftSeqIs(r: seq<bool>, t: bool, s: seq<bool>)
    requires |r| == |s| == 16
    requires forall k :: 0 <= k < 15 ==> s[k] == (r[k + 1] != (t && GeneratorBits()[k + 1]))
    requires s[15] == (t && GeneratorBits()[16])
    ensures s == ShiftSeq(r, t)
  {
  }

  lemma SubtractFields(x: Word, s: Word)
    requires s == Xor(x, GENERATOR)
    ensures s.b15 == x.b15 && s.b14 == x.b14 && s.b13 == x.b13 && s.b12 == !x.b12
    ensures s.b11 == x.b11 && s.b10 == x.b10 && s.b9 == x.b9 && s.b8 == x.b8
    ensures s.b7 == x.b7 && s.b6 == x.b6 && s.b5 == !x.b5 && s.b4 == x.b4
    ensures s.b3 == x.b3 && s.b2 == x.b2 && s.b1 == x.b1 && s.b0 == !x.b0
  {
  }

  lemma SubtractRow(x: Word, s: Word, k: nat)
    requires k < 16
    requires s.b15 == x.b15 && s.b14 == x.b14 && s.b13 == x.b13 && s.b12 == !x.b12
    requires s.b11 == x.b11 && s.b10 == x.b10 && s.b9 == x.b9 && s.b8 == x.b8
    requires s.b7 == x.b7 && s.b6 == x.b6 && s.b5 == !x.b5 && s.b4 == x.b4
    requires s.b3 == x.b3 && s.b2 == x.b2 && s.b1 == x.b1 && s.b0 == !x.b0
    ensures RegisterBit(s, k) == (RegisterBit(x, k) != GeneratorBits()[k + 1])
  {
    if k == 3 || k == 10 || k == 15 {
      assert GeneratorBits()[k + 1];
      FlippedRow(x, s, k);
    } else {
      assert !GeneratorBits()[k + 1];
      KeptRow(x, s, k);
    }
  }

  lemma FlippedRow(x: Word, s: Word, k: nat)
    requires k == 3 || k == 10 || k == 15
    requires s.b12 == !x.b12 && s.b5 == !x.b5 && s.b0 == !x.b0
    ensures RegisterBit(s, k) == !RegisterBit(x, k)
  {
  }

  lemma KeptRow(x: Word, s: Word, k: nat)
    requires k < 16 && k != 3 && k != 10 && k != 15
    requires s.b15 == x.b15 && s.b14 == x.b14 && s.b13 == x.b13 && s.b11 == x.b11
    requires s.b10 == x.b10 && s.b9 == x.b9 && s.b8 == x.b8 && s.b7 == x.b7
    requires s.b6 == x.b6 && s.b4 == x.b4 && s.b3 == x.b3 && s.b2 == x.b2
    requires s.b1 == x.b1
    ensures RegisterBit(s, k) == RegisterBit(x, k)
  {
  }

  lemma LeftRow(r: Word, k: nat)
    requires k < 16
    ensures RegisterBit(ShiftLeft(r), k) == RegisterBit(r, k + 1)
  {
  }

  lemma TimesSnoc(q: seq<bool>, t: bool)
    ensures TimesGenerator(q + [t])
         == AddMultiple(TimesGenerator(q), t)
  {
    assert (q + [t])[..|q|] == q;
    assert (q + [t])[|q|] == t;
  }

  lemma QuotientSnoc(p: seq<bool>, b: bool)
    ensures Quotient(p + [b]) == Quotient(p) + [Crc(p).b15 != b]
  {
    assert (p + [b])[..|p|] == p;
  }

  /** Division with remainder: message times x^16 is quotient times generator plus the CRC, and the
      CRC has fewer than seventeen bits. */
  lemma {:induction false} DivisionTheorem(m: seq<bool>)
    ensures m + Zeros(16) == XorSeq(TimesGenerator(Quotient(m)), Zeros(|m|) + RegisterBits(Crc(m)))
  {
    if m == [] {
      DivisionEmpty(m);
    } else {
      var p, b := m[..|m| - 1], m[|m| - 1];
      DivisionTheorem(p);
      DivisionSnoc(m, p, b, Crc(p), TimesGenerator(Quotient(p)));
    }
  }

  lemma DivisionEmpty(m: seq<bool>)
    requires m == []
    ensures m + Zeros(16) == XorSeq(TimesGenerator(Quotient(m)), Zeros(|m|) + RegisterBits(Crc(m)))
  {
    DivisionBase(Crc(m));
  }

  lemma DivisionSnoc(m: seq<bool>, p: seq<bool>, b: bool, r: Word, product: seq<bool>)
    requires m == p + [b] && r == Crc(p) && product == TimesGenerator(Quotient(p))
    requires p + Zeros(16) == XorSeq(product, Zeros(|p|) + RegisterBits(r))
    ensures m + Zeros(16) == XorSeq(TimesGenerator(Quotient(m)), Zeros(|m|) + RegisterBits(Crc(m)))
  {
    var t := r.b15 != b;
    CrcSnoc(p, b);
    QuotientSnoc(p, b);
    TimesSnoc(Quotient(p), t);
    DivisionStep(p, b, t, product, r, ShiftBit(r, b));
  }

  lemma DivisionBase(w: Word)
    requires w == ZERO
    ensures [] + Zeros(16) == XorSeq(Zeros(16), Zeros(0) + RegisterBits(w))
  {
    assert forall k :: 0 <= k < 16 ==> !RegisterBits(w)[k];
  }

  lemma DivisionStep(p: seq<bool>, b: bool, t: bool, product: seq<bool>, r: Word, s: Word)
    requires |product| == |p| + 16 && t == (r.b15 != b) && s == ShiftBit(r, b)
    requires p + Zeros(16) == XorSeq(product, Zeros(|p|) + RegisterBits(r))
    ensures (p + [b]) + Zeros(16)
         == XorSeq(AddMultiple(product, t), Zeros(|p| + 1) + RegisterBits(s))
  {
    ShiftRegister(r, b, t, s);
    assert RegisterBits(r)[0] == RegisterBit(r, 0) == r.b15;
    LongDivisionRow(p, b, t, product, RegisterBits(r));
  }

  /** One more message bit: the leading bits cancel and the rest is the shifted register. */
  lemma LongDivisionRow(p: seq<bool>, b: bool, t: bool, product: seq<bool>, r: seq<bool>)
    requires |product| == |p| + 16 && |r| == 16 && t == (r[0] != b)
    requires p + Zeros(16) == XorSeq(product, Zeros(|p|) + r)
    ensures (p + [b]) + Zeros(16)
         == XorSeq(AddMultiple(product, t), Zeros(|p| + 1) + ShiftSeq(r, t))
  {
    var n := |p|;
    var g := if t then GeneratorBits() else Zeros(17);
    var prev := XorSeq(product, Zeros(n) + r);
    assert g[0] == t && g[1..] == if t then GeneratorBits()[1..] else Zeros(16);
    forall k | 0 <= k < n + 17
      ensures ((p + [b]) + Zeros(16))[k]
           == (((product + [false])[k] != (Zeros(n) + g)[k]) != (Zeros(n + 1) + ShiftSeq(r, t))[k])
    {
      if k < n {
        assert (p + Zeros(16))[k] == prev[k];
      } else if k < n + 16 {
        assert (p + Zeros(16))[k] == prev[k] == (product[k] != r[k - n]);
        if k > n {
          assert ShiftSeq(r, t)[k - n - 1] == (r[k - n] != g[1..][k - n - 1]);
        }
      } else {
        assert ShiftSeq(r, t)[15] == g[1..][15];
      }
    }
  }

  // ----- when a remainder is zero -----

  lemma {:induction false} FoldLinear(r: Word, s: Word, a: seq<bool>, b: seq<bool>)
    requires |a| == |b|
    ensures Fold(Xor(r, s), XorSeq(a, b)) == Xor(Fold(r, a), Fold(s, b))
    decreases |a|
  {
    if a != [] {
      ShiftBitLinear(r, s, a[0], b[0]);
      FoldLinear(ShiftBit(r, a[0]), ShiftBit(s, b[0]), a[1..], b[1..]);
      assert XorSeq(a, b)[1..] == XorSeq(a[1..], b[1..]);
    }
  }

  ghost function At(v: seq<bool>, i: nat): bool {
    i < |v| && v[i]
  }

  /** The bits of `v` at the high end of a word. */
  ghost function Left(v: seq<bool>): Word {
    Word(At(v, 0), At(v, 1), At(v, 2), At(v, 3), At(v, 4), At(v, 5), At(v, 6), At(v, 7),
         At(v, 8), At(v, 9), At(v, 10), At(v, 11), At(v, 12), At(v, 13), At(v, 14), At(v, 15))
  }

  ghost function Prepend(b: bool, u: Word): Word {
    Word(b, u.b15, u.b14, u.b13, u.b12, u.b11, u.b10, u.b9, u.b8, u.b7, u.b6, u.b5, u.b4, u.b3, u.b2, u.b1)
  }

  lemma LeftCons(v: seq<bool>, rest: seq<bool>)
    requires v != [] && rest == v[1..]
    ensures Left(v) == Prepend(v[0], Left(rest))
  {
    assert forall i: nat :: At(rest, i) == At(v, i + 1);
  }

  // The step of the register run backwards.

  lemma ShiftBitBack(r: Word, b: bool, u: Word)
    requires !u.b0 && ShiftBit(r, b) == u
    ensures r == Prepend(b, u)
  {
    if r.b15 != b {
      TopBitOfGenerator(r);
    } else {
      ShiftLeftBack(r, u);
    }
  }

  lemma TopBitOfGenerator(r: Word)
    ensures Xor(ShiftLeft(r), GENERATOR).b0
  {
  }

  lemma ShiftLeftBack(r: Word, u: Word)
    requires ShiftLeft(r) == u
    ensures r == Prepend(r.b15, u)
  {
  }

  lemma ShiftBitForth(b: bool, u: Word)
    requires !u.b0
    ensures ShiftBit(Prepend(b, u), b) == u
  {
    ShiftLeftForth(b, u);
  }

  lemma ShiftLeftForth(b: bool, u: Word)
    requires !u.b0
    ensures ShiftLeft(Prepend(b, u)) == u
  {
  }

  /** Up to sixteen bits bring the register to zero only if they are the bits it holds. */
  lemma {:induction false} FoldsToZero(r: Word, v: seq<bool>)
    requires |v| <= 16
    ensures Fold(r, v) == ZERO <==> r == Left(v)
    decreases |v|
  {
    if v == [] {
      assert Left(v) == ZERO;
    } else {
      var rest := v[1..];
      FoldsToZero(ShiftBit(r, v[0]), rest);
      LeftCons(v, rest);
      ShiftBitForth(v[0], Left(rest));
      if ShiftBit(r, v[0]) == Left(rest) {
        ShiftBitBack(r, v[0], Left(rest));
      }
    }
  }

  lemma {:induction false} LeftIsNotZero(v: seq<bool>, i: nat)
    requires i < |v| <= 16 && v[i]
    ensures Left(v) != ZERO
    decreases i
  {
    var rest := v[1..];
    LeftCons(v, rest);
    if !v[0] {
      LeftIsNotZero(rest, i - 1);
      assert !Left(rest).b0;
      PrependZero(Left(rest));
    }
  }

  lemma PrependZero(u: Word)
    requires !u.b0 && u != ZERO
    ensures Prepend(false, u) != ZERO
  {
  }

  lemma {:induction false} ZerosKeepZero(r: Word, n: nat)
    ensures Fold(r, Zeros(n)) == ZERO <==> r == ZERO
    decreases n
  {
    if n > 0 {
      ZerosKeepZero(ShiftBit(r, false), n - 1);
      assert Zeros(n)[1..] == Zeros(n - 1);
      ShiftBitForth(false, ZERO);
      assert Prepend(false, ZERO) == ZERO;
      if ShiftBit(r, false) == ZERO {
        ShiftBitBack(r, false, ZERO);
      }
    }
  }

  /** All set bits of `e` lie in a window of sixteen starting at `p`, and there is one. */
  ghost predicate IsBurst(e: seq<bool>, p: nat) {
    && (forall i :: 0 <= i < |e| && e[i] ==> p <= i < p + 16)
    && exists i :: 0 <= i < |e| && e[i]
  }

  lemma {:induction false} BurstIsNotDivisible(e: seq<bool>, p: nat)
    requires IsBurst(e, p)
    ensures Crc(e) != ZERO
  {
    var i, q := BurstWindow(e, p);
    var w := e[p..q];
    FoldPadded(p, w, |e| - q);
    FoldsToZero(ZERO, w);
    LeftIsNotZero(w, i - p);
  }

  lemma BurstWindow(e: seq<bool>, p: nat) returns (i: nat, q: nat)
    requires IsBurst(e, p)
    ensures p <= i < q <= |e| && q <= p + 16 && e[p..q][i - p]
    ensures e == Zeros(p) + e[p..q] + Zeros(|e| - q)
  {
    i :| 0 <= i < |e| && e[i];
    q := if p + 16 <= |e| then p + 16 else |e|;
  }

  /** Zero bits on either side do not matter for divisibility. */
  lemma FoldPadded(p: nat, w: seq<bool>, k: nat)
    ensures Crc(Zeros(p) + w + Zeros(k)) == ZERO <==> Crc(w) == ZERO
  {
    ZerosKeepZero(ZERO, p);
    FoldConcat(ZERO, Zeros(p), w);
    FoldConcat(ZERO, Zeros(p) + w, Zeros(k));
    ZerosKeepZero(Crc(w), k);
  }

  /** Any error confined to sixteen consecutive bits leaves a non-zero remainder. */
  lemma BurstDetected(f: seq<bool>, g: seq<bool>, p: nat)
    requires |f| == |g| && Crc(f) == ZERO && IsBurst(XorSeq(f, g), p)
    ensures Crc(g) != ZERO
  {
    FoldLinear(ZERO, ZERO, f, g);
    BurstIsNotDivisible(XorSeq(f, g), p);
    assert Xor(ZERO, ZERO) == ZERO;
  }

  /** Sixteen is the most that holds: the seventeen bits of the generator, added anywhere, pass. */
  lemma SeventeenBitsPass(f: seq<bool>, p: nat, k: nat)
    requires |f| == p + 17 + k
    ensures Crc(XorSeq(f, Zeros(p) + GeneratorBits() + Zeros(k))) == Crc(f)
  {
    FoldLinear(ZERO, ZERO, f, Zeros(p) + GeneratorBits() + Zeros(k));
    GeneratorDivides();
    FoldPadded(p, GeneratorBits(), k);
    XorZero(Crc(f));
    XorZero(ZERO);
  }

  lemma {:induction false} GeneratorDivides()
    ensures Crc(GeneratorBits()) == ZERO
  {
    var tail := GeneratorBits()[1..];
    LeftIs(tail, GENERATOR);
    GeneratorFromZero();
    FoldsToZero(GENERATOR, tail);
    assert GeneratorBits()[0];
    assert Fold(ZERO, GeneratorBits()) == Fold(ShiftBit(ZERO, true), tail);
  }

  lemma GeneratorFromZero()
    ensures ShiftBit(ZERO, true) == GENERATOR
  {
  }

  lemma XorZero(w: Word)
    ensures Xor(w, ZERO) == w
  {
  }

  // ----- frames of bytes -----

  lemma TrailerWord(hi: bv8, lo: bv8, x: bv16)
    requires x == ((hi as bv16) << 8) | (lo as bv16)
    ensures ToWord(x) == Left(Bits([hi, lo]))
  {
    ToWordMove(hi as bv16, lo);
    BitsSnoc([hi], lo);
    BitsSnoc([], hi);
    assert [] + [hi] == [hi] && [hi] + [lo] == [hi, lo];
    var v := Bits([hi, lo]);
    assert v == BitsOf(hi) + BitsOf(lo);
    LeftOfBytes(v, hi, lo);
    LowWord(hi);
  }

  lemma LowWord(b: bv8)
    ensures ToWord(b as bv16) == ByteLow(b)
  {
  }

  lemma LeftOfBytes(v: seq<bool>, hi: bv8, lo: bv8)
    requires v == BitsOf(hi) + BitsOf(lo)
    ensures Left(v) == Xor(MoveUp(ByteLow(hi)), ByteLow(lo))
  {
    LeftOfHalves(v, BitsOf(hi), BitsOf(lo), MoveUp(ByteLow(hi)), ByteLow(lo));
  }

  lemma LeftOfHalves(v: seq<bool>, h: seq<bool>, l: seq<bool>, x: Word, y: Word)
    requires |h| == |l| == 8 && v == h + l
    requires x == Word(h[0], h[1], h[2], h[3], h[4], h[5], h[6], h[7],
                       false, false, false, false, false, false, false, false)
    requires y == Word(false, false, false, false, false, false, false, false,
                       l[0], l[1], l[2], l[3], l[4], l[5], l[6], l[7])
    ensures Left(v) == Xor(x, y)
  {
    LeftIs(v, Xor(x, y));
  }

  lemma LeftIs(v: seq<bool>, w: Word)
    requires |v| == 16
    requires v[0] == w.b15 && v[1] == w.b14 && v[2] == w.b13 && v[3] == w.b12
    requires v[4] == w.b11 && v[5] == w.b10 && v[6] == w.b9 && v[7] == w.b8
    requires v[8] == w.b7 && v[9] == w.b6 && v[10] == w.b5 && v[11] == w.b4
    requires v[12] == w.b3 && v[13] == w.b2 && v[14] == w.b1 && v[15] == w.b0
    ensures Left(v) == w
  {
  }

  /** A frame whose last two bytes are the CRC of the rest is one whose remainder is zero. */
  lemma TrailerCheck(m: seq<bv8>, hi: bv8, lo: bv8, x: bv16)
    requires x == ((hi as bv16) << 8) | (lo as bv16)
    ensures Crc(Bits(m + [hi, lo])) == ZERO <==> Crc(Bits(m)) == ToWord(x)
  {
    BitsConcat(m, [hi, lo]);
    FoldConcat(ZERO, Bits(m), Bits([hi, lo]));
    FoldsToZero(Crc(Bits(m)), Bits([hi, lo]));
    TrailerWord(hi, lo, x);
  }

  lemma {:induction false} BitsAt(m: seq<bv8>, k: nat, j: nat)
    requires k < |m| && j < 8
    ensures Bits(m)[8 * k + j] == BitsOf(m[k])[j]
  {
    if k < |m| - 1 {
      BitsAt(m[..|m| - 1], k, j);
    }
  }

  lemma ByteDiffers(a: bv8, b: bv8)
    requires BitsOf(a) == BitsOf(b)
    ensures a == b
  {
    assert (a & 0x80 != 0) == BitsOf(a)[0] == BitsOf(b)[0] == (b & 0x80 != 0);
    assert (a & 0x40 != 0) == BitsOf(a)[1] == BitsOf(b)[1] == (b & 0x40 != 0);
    assert (a & 0x20 != 0) == BitsOf(a)[2] == BitsOf(b)[2] == (b & 0x20 != 0);
    assert (a & 0x10 != 0) == BitsOf(a)[3] == BitsOf(b)[3] == (b & 0x10 != 0);
    assert (a & 0x08 != 0) == BitsOf(a)[4] == BitsOf(b)[4] == (b & 0x08 != 0);
    assert (a & 0x04 != 0) == BitsOf(a)[5] == BitsOf(b)[5] == (b & 0x04 != 0);
    assert (a & 0x02 != 0) == BitsOf(a)[6] == BitsOf(b)[6] == (b & 0x02 != 0);
    assert (a & 0x01 != 0) == BitsOf(a)[7] == BitsOf(b)[7] == (b & 0x01 != 0);
  }

  /** A change to at most two adjacent bytes is a burst. */
  lemma {:induction false} AdjacentBytesAreBurst(f: seq<bv8>, g: seq<bv8>, k: nat)
    requires |f| == |g| && f != g
    requires forall i :: 0 <= i < |f| && i != k && i != k + 1 ==> f[i] == g[i]
    ensures IsBurst(XorSeq(Bits(f), Bits(g)), 8 * k)
  {
    var e := XorSeq(Bits(f), Bits(g));
    forall i | 0 <= i < |e| && e[i]
      ensures 8 * k <= i < 8 * k + 16
    {
      BitsAt(f, i / 8, i % 8);
      BitsAt(g, i / 8, i % 8);
    }
    var i :| 0 <= i < |f| && f[i] != g[i];
    if BitsOf(f[i]) == BitsOf(g[i]) {
      ByteDiffers(f[i], g[i]);
    }
    var j :| 0 <= j < 8 && BitsOf(f[i])[j] != BitsOf(g[i])[j];
    BitsAt(f, i, j);
    BitsAt(g, i, j);
    assert e[8 * i + j];
  }
}
