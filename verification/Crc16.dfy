/** calc_crc16 of bootstrap.c against the bit-by-bit remainder, and what the remainder detects. */
module Crc16 {
  import opened CrcWords

  // ----- bit strings, most significant bit first -----

  function BitsOf(b: bv8): (r: seq<bool>)
    ensures |r| == 8
  {
    [b & 0x80 != 0, b & 0x40 != 0, b & 0x20 != 0, b & 0x10 != 0,
     b & 0x08 != 0, b & 0x04 != 0, b & 0x02 != 0, b & 0x01 != 0]
  }

  ghost function Bits(m: seq<bv8>): (r: seq<bool>)
    ensures |r| == 8 * |m|
  {
    if m == [] then [] else Bits(m[..|m| - 1]) + BitsOf(m[|m| - 1])
  }

  lemma {:induction false} BitsSnoc(m: seq<bv8>, b: bv8)
    ensures Bits(m + [b]) == Bits(m) + BitsOf(b)
  {
    assert (m + [b])[..|m|] == m;
  }

  lemma SeqAssoc(x: seq<bool>, y: seq<bool>, z: seq<bool>)
    ensures (x + y) + z == x + (y + z)
  {
  }

  lemma {:induction false} BitsConcat(a: seq<bv8>, b: seq<bv8>)
    ensures Bits(a + b) == Bits(a) + Bits(b)
  {
    if b == [] {
      assert a + b == a;
    } else {
      var n := |b| - 1;
      BitsConcat(a, b[..n]);
      BitsSnoc(a + b[..n], b[n]);
      BitsSnoc(b[..n], b[n]);
      assert a + b == a + b[..n] + [b[n]] && b == b[..n] + [b[n]];
      SeqAssoc(Bits(a), Bits(b[..n]), BitsOf(b[n]));
    }
  }

  ghost function Zeros(n: nat): seq<bool> {
    seq(n, _ => false)
  }

  ghost function XorSeq(a: seq<bool>, b: seq<bool>): (r: seq<bool>)
    requires |a| == |b|
    ensures |r| == |a|
  {
    seq(|a|, i requires 0 <= i < |a| => a[i] != b[i])
  }

  // ----- the remainder, one bit at a time -----

  ghost function Fold(r: Word, bits: seq<bool>): Word
    decreases bits
  {
    if bits == [] then r else Fold(ShiftBit(r, bits[0]), bits[1..])
  }

  /** The remainder of the bit string times x^16 modulo the generator. */
  ghost function Crc(bits: seq<bool>): Word {
    Fold(ZERO, bits)
  }

  lemma {:induction false} FoldConcat(r: Word, a: seq<bool>, b: seq<bool>)
    ensures Fold(r, a + b) == Fold(Fold(r, a), b)
    decreases a
  {
    if a == [] {
      assert a + b == b;
    } else {
      FoldConcat(ShiftBit(r, a[0]), a[1..], b);
      assert (a + b)[1..] == a[1..] + b;
    }
  }

  lemma {:induction false} FoldTwo(r: Word, a: bool, b: bool)
    ensures Fold(r, [a, b]) == ShiftBit(ShiftBit(r, a), b)
  {
    assert [a, b][1..] == [b];
    assert [b][1..] == [];
    assert Fold(r, [a, b]) == Fold(ShiftBit(r, a), [b]) == Fold(ShiftBit(ShiftBit(r, a), b), []);
  }

  lemma {:induction false} FoldFour(r: Word, a: bool, b: bool, c: bool, d: bool)
    ensures Fold(r, [a, b, c, d]) == Step4(Xor(r, ZERO.(b15 := a, b14 := b, b13 := c, b12 := d)))
  {
    assert [a, b, c, d] == [a, b] + [c, d];
    FoldConcat(r, [a, b], [c, d]);
    FoldTwo(r, a, b);
    FoldTwo(ShiftBit(ShiftBit(r, a), b), c, d);
    FourBits(r, a, b, c, d);
  }

  lemma FourBits(r: Word, a: bool, b: bool, c: bool, d: bool)
    ensures ShiftBit(ShiftBit(ShiftBit(ShiftBit(r, a), b), c), d)
         == Step4(Xor(r, ZERO.(b15 := a, b14 := b, b13 := c, b12 := d)))
  {
    var t, u := ZERO.(b15 := a, b14 := b), ZERO.(b13 := c, b12 := d);
    ShiftTwoBits(r, a, b);
    ShiftTwoBits(Step2(Xor(r, t)), c, d);
    Step2Pair(r, t, u, a, b, c, d);
    assert Xor(t, u) == ZERO.(b15 := a, b14 := b, b13 := c, b12 := d);
    Step2Twice(Xor(r, Xor(t, u)));
  }

  lemma {:induction false} FoldQuad(r: Word, s: seq<bool>)
    requires |s| == 4
    ensures Fold(r, s) == Step4(Xor(r, ZERO.(b15 := s[0], b14 := s[1], b13 := s[2], b12 := s[3])))
  {
    assert s == [s[0], s[1], s[2], s[3]];
    FoldFour(r, s[0], s[1], s[2], s[3]);
  }

  /** Eight single bit steps add the byte at the high end and run eight zero bits. */
  lemma FoldByte(r: Word, b: bv8)
    ensures Fold(r, BitsOf(b)) == Step8(Xor(r, ByteHigh(b)))
  {
    var s := BitsOf(b);
    assert s == s[..4] + s[4..];
    FoldConcat(r, s[..4], s[4..]);
    var mid := Fold(r, s[..4]);
    FoldQuad(r, s[..4]);
    FoldQuad(mid, s[4..]);
    EightBits(r, mid, ByteHigh(b));
  }

  lemma EightBits(r: Word, mid: Word, w: Word)
    requires HighByte(w) == w
    requires mid == Step4(Xor(r, ZERO.(b15 := w.b15, b14 := w.b14, b13 := w.b13, b12 := w.b12)))
    ensures Step4(Xor(mid, ZERO.(b15 := w.b11, b14 := w.b10, b13 := w.b9, b12 := w.b8))) == Step8(Xor(r, w))
  {
    var t := ZERO.(b15 := w.b15, b14 := w.b14, b13 := w.b13, b12 := w.b12);
    var u := ZERO.(b11 := w.b11, b10 := w.b10, b9 := w.b9, b8 := w.b8);
    Step4Pair(r, t, u, w.b11, w.b10, w.b9, w.b8);
    assert Xor(t, u) == w;
  }

  // ----- the code -----

  method LookUp(i: bv8) returns (entry: bv16)
    ensures entry == Crc16Table(i)
    ensures ToWord(entry) == Step8(ByteHigh(i))
  {
    entry := Crc16Table(i);
    TableEntry(i, entry);
  }

  /** One turn of the loops of calc_crc16: the byte enters at the low end of the register. */
  method Turn(crc16: bv16, b: bv8) returns (r: bv16)
    ensures ToWord(r) == Xor(Step8(ToWord(crc16)), ByteLow(b))
  {
    var entry := LookUp((crc16 >> 8) as bv8);
    var moved := (crc16 << 8) | (b as bv16);
    r := moved ^ entry;
    MoveIn(crc16, b, moved);
    ToWordXor(moved, entry);
    HighByteOf(crc16);
    TurnWord(ToWord(crc16), b);
  }

  lemma MoveIn(crc16: bv16, b: bv8, moved: bv16)
    requires moved == (crc16 << 8) | (b as bv16)
    ensures ToWord(moved) == Xor(MoveUp(ToWord(crc16)), ByteLow(b))
  {
    ToWordMove(crc16, b);
  }

  lemma TurnWord(w: Word, b: bv8)
    ensures Xor(Xor(MoveUp(w), ByteLow(b)), Step8(HighByte(w))) == Xor(Step8(w), ByteLow(b))
  {
    Step8Split(w);
    var m, l, h := MoveUp(w), ByteLow(b), Step8(HighByte(w));
    XorAssoc(m, l, h);
    XorCommutes(l, h);
    XorAssoc(m, h, l);
  }

  /** A byte that entered at the low end reaches the high end eight bits later, where the
      bit-by-bit remainder adds it. */
  lemma EnterThenFlush(w: Word, b: bv8)
    ensures Step8(Step8(Xor(Step8(w), ByteLow(b)))) == Fold(Step8(Step8(w)), BitsOf(b))
  {
    Step8Linear(Step8(w), ByteLow(b));
    Step8Low(b);
    FoldByte(Step8(Step8(w)), b);
  }

  /** The first loop of calc_crc16. */
  method Accumulate(packet: seq<bv8>) returns (crc16: bv16)
    ensures Step8(Step8(ToWord(crc16))) == Crc(Bits(packet))
  {
    crc16 := 0;
    ghost var w := ToWord(crc16);
    assert w == ZERO && Step8(Step8(ZERO)) == ZERO;
    for i := 0 to |packet|
      invariant w == ToWord(crc16)
      invariant Step8(Step8(w)) == Crc(Bits(packet[..i]))
    {
      assert packet[..i + 1][..i] == packet[..i];
      EnterThenFlush(w, packet[i]);
      FoldConcat(ZERO, Bits(packet[..i]), BitsOf(packet[i]));
      crc16 := Turn(crc16, packet[i]);
      w := Xor(Step8(w), ByteLow(packet[i]));
    }
    assert packet[..|packet|] == packet;
  }

  /** calc_crc16: the table-driven loop with its two zero bytes computes the bit-by-bit remainder. */
  method CalcCrc16(packet: seq<bv8>) returns (crc16: bv16)
    ensures ToWord(crc16) == Crc(Bits(packet))
  {
    crc16 := Accumulate(packet);
    ghost var w := ToWord(crc16);
    for i := 0 to 2
      invariant w == ToWord(crc16)
      invariant i == 0 ==> Step8(Step8(w)) == Crc(Bits(packet))
      invariant i == 1 ==> Step8(w) == Crc(Bits(packet))
      invariant i == 2 ==> w == Crc(Bits(packet))
    {
      crc16 := Turn(crc16, 0);
      XorZeroByte(Step8(w));
      w := Step8(w);
    }
  }

  lemma XorZeroByte(w: Word)
    ensures Xor(w, ByteLow(0)) == w
  {
  }

  /** The usual form of the same CRC, which needs no flush. */
  function DirectStep(crc: bv16, b: bv8): bv16 {
    (crc << 8) ^ Crc16Table(((crc >> 8) as bv8) ^ b)
  }

  ghost function DirectCrc(m: seq<bv8>): bv16 {
    if m == [] then 0 else DirectStep(DirectCrc(m[..|m| - 1]), m[|m| - 1])
  }

  lemma DirectStepIsFold(crc: bv16, b: bv8, w: Word, next: Word)
    requires w == ToWord(crc) && next == ToWord(DirectStep(crc, b))
    ensures next == Fold(w, BitsOf(b))
  {
    DirectStepWord(crc, b);
    FoldByte(w, b);
    DirectWord(w, b, Xor(HighByte(w), ByteHigh(b)), Step8(Xor(HighByte(w), ByteHigh(b))));
  }

  lemma DirectStepWord(crc: bv16, b: bv8)
    ensures ToWord(DirectStep(crc, b))
         == Xor(MoveUp(ToWord(crc)), Step8(Xor(HighByte(ToWord(crc)), ByteHigh(b))))
  {
    hide ToWord, Xor, MoveUp, Step8, HighByte, ByteHigh, Crc16Table;
    var i := ((crc >> 8) as bv8) ^ b;
    DirectIndex(crc, b);
    DirectEntry(crc, i, Crc16Table(i), ByteHigh(i));
  }

  lemma DirectEntry(crc: bv16, i: bv8, entry: bv16, index: Word)
    requires entry == Crc16Table(i) && index == ByteHigh(i)
    ensures ToWord((crc << 8) ^ entry) == Xor(MoveUp(ToWord(crc)), Step8(index))
  {
    hide ToWord, Xor, MoveUp, Step8, ByteHigh, Crc16Table;
    TableEntry(i, entry);
    DirectBits(crc, entry);
  }

  lemma DirectBits(crc: bv16, entry: bv16)
    ensures ToWord((crc << 8) ^ entry) == Xor(MoveUp(ToWord(crc)), ToWord(entry))
  {
    hide ToWord, Xor, MoveUp;
    AddMoved(crc, crc << 8, entry);
  }

  lemma AddMoved(crc: bv16, moved: bv16, entry: bv16)
    requires moved == crc << 8
    ensures ToWord(moved ^ entry) == Xor(MoveUp(ToWord(crc)), ToWord(entry))
  {
    hide ToWord, Xor, MoveUp;
    ToWordMoveZero(crc);
    ToWordXor(moved, entry);
  }

  lemma DirectIndex(crc: bv16, b: bv8)
    ensures ByteHigh(((crc >> 8) as bv8) ^ b) == Xor(HighByte(ToWord(crc)), ByteHigh(b))
  {
    hide ToWord, Xor, HighByte, ByteHigh;
    HighByteOf(crc);
    ByteHighXor((crc >> 8) as bv8, b);
  }

  lemma ToWordMoveZero(x: bv16)
    ensures ToWord(x << 8) == MoveUp(ToWord(x))
  {
    ToWordMove(x, 0);
    assert Xor(MoveUp(ToWord(x)), ByteLow(0)) == MoveUp(ToWord(x));
  }

  lemma DirectWord(w: Word, b: bv8, index: Word, entry: Word)
    requires index == Xor(HighByte(w), ByteHigh(b)) && entry == Step8(index)
    ensures Xor(MoveUp(w), entry) == Step8(Xor(w, ByteHigh(b)))
  {
    Step8Linear(HighByte(w), ByteHigh(b));
    Step8Linear(w, ByteHigh(b));
    Step8Split(w);
    XorAssoc(MoveUp(w), Step8(HighByte(w)), Step8(ByteHigh(b)));
  }

  /** The table-driven CRC in its usual form computes the same remainder. */
  lemma {:induction false} DirectIsBitwise(m: seq<bv8>)
    ensures ToWord(DirectCrc(m)) == Crc(Bits(m))
  {
    if m == [] {
      assert ToWord(0) == ZERO;
    } else {
      var n := |m| - 1;
      DirectIsBitwise(m[..n]);
      FoldConcat(ZERO, Bits(m[..n]), BitsOf(m[n]));
      var c := DirectCrc(m[..n]);
      DirectStepIsFold(c, m[n], ToWord(c), ToWord(DirectStep(c, m[n])));
    }
  }
}
