/** 16-bit words as sixteen booleans, and the bit-vector operations of the C code on them. */
module CrcWords {

  datatype Word = Word(b15: bool, b14: bool, b13: bool, b12: bool, b11: bool, b10: bool, b9: bool, b8: bool,
                       b7: bool, b6: bool, b5: bool, b4: bool, b3: bool, b2: bool, b1: bool, b0: bool)

  const ZERO := Word(false, false, false, false, false, false, false, false,
                     false, false, false, false, false, false, false, false)

  function ToWord(x: bv16): Word {
    Word(x & 0x8000 != 0, x & 0x4000 != 0, x & 0x2000 != 0, x & 0x1000 != 0,
         x & 0x0800 != 0, x & 0x0400 != 0, x & 0x0200 != 0, x & 0x0100 != 0,
         x & 0x0080 != 0, x & 0x0040 != 0, x & 0x0020 != 0, x & 0x0010 != 0,
         x & 0x0008 != 0, x & 0x0004 != 0, x & 0x0002 != 0, x & 0x0001 != 0)
  }

  function Xor(x: Word, y: Word): Word {
    Word(x.b15 != y.b15, x.b14 != y.b14, x.b13 != y.b13, x.b12 != y.b12,
         x.b11 != y.b11, x.b10 != y.b10, x.b9 != y.b9, x.b8 != y.b8,
         x.b7 != y.b7, x.b6 != y.b6, x.b5 != y.b5, x.b4 != y.b4,
         x.b3 != y.b3, x.b2 != y.b2, x.b1 != y.b1, x.b0 != y.b0)
  }

  lemma ToWordIs(x: bv16, w: Word)
    requires w.b15 == (x & 0x8000 != 0)
    requires w.b14 == (x & 0x4000 != 0)
    requires w.b13 == (x & 0x2000 != 0)
    requires w.b12 == (x & 0x1000 != 0)
    requires w.b11 == (x & 0x0800 != 0)
    requires w.b10 == (x & 0x0400 != 0)
    requires w.b9 == (x & 0x0200 != 0)
    requires w.b8 == (x & 0x0100 != 0)
    requires w.b7 == (x & 0x0080 != 0)
    requires w.b6 == (x & 0x0040 != 0)
    requires w.b5 == (x & 0x0020 != 0)
    requires w.b4 == (x & 0x0010 != 0)
    requires w.b3 == (x & 0x0008 != 0)
    requires w.b2 == (x & 0x0004 != 0)
    requires w.b1 == (x & 0x0002 != 0)
    requires w.b0 == (x & 0x0001 != 0)
    ensures ToWord(x) == w
  {
  }

  lemma ToWordInjective(x: bv16, y: bv16)
    requires ToWord(x) == ToWord(y)
    ensures x == y
  {
  }

  lemma XorBits(x: bv16, y: bv16)
    ensures ((x ^ y) & 0x8000 != 0) == ((x & 0x8000 != 0) != (y & 0x8000 != 0))
    ensures ((x ^ y) & 0x4000 != 0) == ((x & 0x4000 != 0) != (y & 0x4000 != 0))
    ensures ((x ^ y) & 0x2000 != 0) == ((x & 0x2000 != 0) != (y & 0x2000 != 0))
    ensures ((x ^ y) & 0x1000 != 0) == ((x & 0x1000 != 0) != (y & 0x1000 != 0))
    ensures ((x ^ y) & 0x0800 != 0) == ((x & 0x0800 != 0) != (y & 0x0800 != 0))
    ensures ((x ^ y) & 0x0400 != 0) == ((x & 0x0400 != 0) != (y & 0x0400 != 0))
    ensures ((x ^ y) & 0x0200 != 0) == ((x & 0x0200 != 0) != (y & 0x0200 != 0))
    ensures ((x ^ y) & 0x0100 != 0) == ((x & 0x0100 != 0) != (y & 0x0100 != 0))
    ensures ((x ^ y) & 0x0080 != 0) == ((x & 0x0080 != 0) != (y & 0x0080 != 0))
    ensures ((x ^ y) & 0x0040 != 0) == ((x & 0x0040 != 0) != (y & 0x0040 != 0))
    ensures ((x ^ y) & 0x0020 != 0) == ((x & 0x0020 != 0) != (y & 0x0020 != 0))
    ensures ((x ^ y) & 0x0010 != 0) == ((x & 0x0010 != 0) != (y & 0x0010 != 0))
    ensures ((x ^ y) & 0x0008 != 0) == ((x & 0x0008 != 0) != (y & 0x0008 != 0))
    ensures ((x ^ y) & 0x0004 != 0) == ((x & 0x0004 != 0) != (y & 0x0004 != 0))
    ensures ((x ^ y) & 0x0002 != 0) == ((x & 0x0002 != 0) != (y & 0x0002 != 0))
    ensures ((x ^ y) & 0x0001 != 0) == ((x & 0x0001 != 0) != (y & 0x0001 != 0))
  {
  }

  lemma ToWordXor(x: bv16, y: bv16)
    ensures ToWord(x ^ y) == Xor(ToWord(x), ToWord(y))
  {
    XorBits(x, y);
    ToWordIs(x ^ y, Xor(ToWord(x), ToWord(y)));
  }

  // The high byte, the low byte moved up, and bytes placed at either end.

  function HighByte(w: Word): Word {
    Word(w.b15, w.b14, w.b13, w.b12, w.b11, w.b10, w.b9, w.b8, false, false, false, false, false, false, false, false)
  }

  function MoveUp(w: Word): Word {
    Word(w.b7, w.b6, w.b5, w.b4, w.b3, w.b2, w.b1, w.b0, false, false, false, false, false, false, false, false)
  }

  function ByteHigh(b: bv8): Word {
    Word(b & 0x80 != 0, b & 0x40 != 0, b & 0x20 != 0, b & 0x10 != 0,
         b & 0x08 != 0, b & 0x04 != 0, b & 0x02 != 0, b & 0x01 != 0,
         false, false, false, false, false, false, false, false)
  }

  function ByteLow(b: bv8): Word {
    Word(false, false, false, false, false, false, false, false,
         b & 0x80 != 0, b & 0x40 != 0, b & 0x20 != 0, b & 0x10 != 0,
         b & 0x08 != 0, b & 0x04 != 0, b & 0x02 != 0, b & 0x01 != 0)
  }

  lemma MoveBits(x: bv16, b: bv8)
    ensures (((x << 8) | (b as bv16)) & 0x8000 != 0) == (x & 0x0080 != 0)
    ensures (((x << 8) | (b as bv16)) & 0x4000 != 0) == (x & 0x0040 != 0)
    ensures (((x << 8) | (b as bv16)) & 0x2000 != 0) == (x & 0x0020 != 0)
    ensures (((x << 8) | (b as bv16)) & 0x1000 != 0) == (x & 0x0010 != 0)
    ensures (((x << 8) | (b as bv16)) & 0x0800 != 0) == (x & 0x0008 != 0)
    ensures (((x << 8) | (b as bv16)) & 0x0400 != 0) == (x & 0x0004 != 0)
    ensures (((x << 8) | (b as bv16)) & 0x0200 != 0) == (x & 0x0002 != 0)
    ensures (((x << 8) | (b as bv16)) & 0x0100 != 0) == (x & 0x0001 != 0)
    ensures (((x << 8) | (b as bv16)) & 0x0080 != 0) == (b & 0x80 != 0)
    ensures (((x << 8) | (b as bv16)) & 0x0040 != 0) == (b & 0x40 != 0)
    ensures (((x << 8) | (b as bv16)) & 0x0020 != 0) == (b & 0x20 != 0)
    ensures (((x << 8) | (b as bv16)) & 0x0010 != 0) == (b & 0x10 != 0)
    ensures (((x << 8) | (b as bv16)) & 0x0008 != 0) == (b & 0x08 != 0)
    ensures (((x << 8) | (b as bv16)) & 0x0004 != 0) == (b & 0x04 != 0)
    ensures (((x << 8) | (b as bv16)) & 0x0002 != 0) == (b & 0x02 != 0)
    ensures (((x << 8) | (b as bv16)) & 0x0001 != 0) == (b & 0x01 != 0)
  {
  }

  lemma ToWordMove(x: bv16, b: bv8)
    ensures ToWord((x << 8) | (b as bv16)) == Xor(MoveUp(ToWord(x)), ByteLow(b))
  {
    MoveBits(x, b);
    ToWordIs((x << 8) | (b as bv16), Xor(MoveUp(ToWord(x)), ByteLow(b)));
  }

  lemma HighBits(x: bv16)
    ensures (((x >> 8) as bv8) & 0x80 != 0) == (x & 0x8000 != 0)
    ensures (((x >> 8) as bv8) & 0x40 != 0) == (x & 0x4000 != 0)
    ensures (((x >> 8) as bv8) & 0x20 != 0) == (x & 0x2000 != 0)
    ensures (((x >> 8) as bv8) & 0x10 != 0) == (x & 0x1000 != 0)
    ensures (((x >> 8) as bv8) & 0x08 != 0) == (x & 0x0800 != 0)
    ensures (((x >> 8) as bv8) & 0x04 != 0) == (x & 0x0400 != 0)
    ensures (((x >> 8) as bv8) & 0x02 != 0) == (x & 0x0200 != 0)
    ensures (((x >> 8) as bv8) & 0x01 != 0) == (x & 0x0100 != 0)
  {
  }

  lemma HighByteOf(x: bv16)
    ensures ByteHigh((x >> 8) as bv8) == HighByte(ToWord(x))
  {
    HighBits(x);
  }

  lemma ByteXorBits(a: bv8, b: bv8)
    ensures ((a ^ b) & 0x80 != 0) == ((a & 0x80 != 0) != (b & 0x80 != 0))
    ensures ((a ^ b) & 0x40 != 0) == ((a & 0x40 != 0) != (b & 0x40 != 0))
    ensures ((a ^ b) & 0x20 != 0) == ((a & 0x20 != 0) != (b & 0x20 != 0))
    ensures ((a ^ b) & 0x10 != 0) == ((a & 0x10 != 0) != (b & 0x10 != 0))
    ensures ((a ^ b) & 0x08 != 0) == ((a & 0x08 != 0) != (b & 0x08 != 0))
    ensures ((a ^ b) & 0x04 != 0) == ((a & 0x04 != 0) != (b & 0x04 != 0))
    ensures ((a ^ b) & 0x02 != 0) == ((a & 0x02 != 0) != (b & 0x02 != 0))
    ensures ((a ^ b) & 0x01 != 0) == ((a & 0x01 != 0) != (b & 0x01 != 0))
  {
  }

  lemma ByteXorFields(a: bv8, b: bv8)
    ensures ByteHigh(a ^ b).b15 == (ByteHigh(a).b15 != ByteHigh(b).b15)
    ensures ByteHigh(a ^ b).b14 == (ByteHigh(a).b14 != ByteHigh(b).b14)
    ensures ByteHigh(a ^ b).b13 == (ByteHigh(a).b13 != ByteHigh(b).b13)
    ensures ByteHigh(a ^ b).b12 == (ByteHigh(a).b12 != ByteHigh(b).b12)
    ensures ByteHigh(a ^ b).b11 == (ByteHigh(a).b11 != ByteHigh(b).b11)
    ensures ByteHigh(a ^ b).b10 == (ByteHigh(a).b10 != ByteHigh(b).b10)
    ensures ByteHigh(a ^ b).b9 == (ByteHigh(a).b9 != ByteHigh(b).b9)
    ensures ByteHigh(a ^ b).b8 == (ByteHigh(a).b8 != ByteHigh(b).b8)
  {
    hide ByteHigh;
    HighFields(a);
    HighFields(b);
    HighFields(a ^ b);
    ByteXorBits(a, b);
  }

  lemma HighFields(b: bv8)
    ensures var w := ByteHigh(b);
            && w.b15 == (b & 0x80 != 0) && w.b14 == (b & 0x40 != 0)
            && w.b13 == (b & 0x20 != 0) && w.b12 == (b & 0x10 != 0)
            && w.b11 == (b & 0x08 != 0) && w.b10 == (b & 0x04 != 0)
            && w.b9 == (b & 0x02 != 0) && w.b8 == (b & 0x01 != 0)
  {
  }

  lemma HighByteOnly(b: bv8)
    ensures HighByte(ByteHigh(b)) == ByteHigh(b)
  {
  }

  /** Words without a low byte, field by field. */
  lemma XorHigh(u: Word, v: Word, w: Word)
    requires HighByte(u) == u && HighByte(v) == v && HighByte(w) == w
    requires w.b15 == (u.b15 != v.b15) && w.b14 == (u.b14 != v.b14)
    requires w.b13 == (u.b13 != v.b13) && w.b12 == (u.b12 != v.b12)
    requires w.b11 == (u.b11 != v.b11) && w.b10 == (u.b10 != v.b10)
    requires w.b9 == (u.b9 != v.b9) && w.b8 == (u.b8 != v.b8)
    ensures w == Xor(u, v)
  {
  }

  lemma ByteHighXor(a: bv8, b: bv8)
    ensures ByteHigh(a ^ b) == Xor(ByteHigh(a), ByteHigh(b))
  {
    hide ByteHigh, HighByte, Xor;
    ByteXorFields(a, b);
    HighByteOnly(a);
    HighByteOnly(b);
    HighByteOnly(a ^ b);
    XorHigh(ByteHigh(a), ByteHigh(b), ByteHigh(a ^ b));
  }

  // ----- the remainder register -----

  /** The generator x^16 + x^12 + x^5 + 1 without its leading term. */
  const GENERATOR := Word(false, false, false, true, false, false, false, false,
                          false, false, true, false, false, false, false, true)

  function ShiftLeft(r: Word): Word {
    Word(r.b14, r.b13, r.b12, r.b11, r.b10, r.b9, r.b8, r.b7, r.b6, r.b5, r.b4, r.b3, r.b2, r.b1, r.b0, false)
  }

  /** Shift one message bit into the register: the bit that leaves, added to the message bit, decides
      whether the generator is subtracted. */
  function ShiftBit(r: Word, b: bool): Word {
    if r.b15 != b then Xor(ShiftLeft(r), GENERATOR) else ShiftLeft(r)
  }

  // One, two, four and eight zero bits through the register, in closed form.

  function Step(r: Word): Word {
    Word(r.b14, r.b13, r.b12, r.b15 != r.b11,
         r.b10, r.b9, r.b8, r.b7,
         r.b6, r.b5, r.b15 != r.b4, r.b3,
         r.b2, r.b1, r.b0, r.b15)
  }

  function Step2(r: Word): Word {
    Word(r.b13, r.b12, r.b15 != r.b11, r.b14 != r.b10,
         r.b9, r.b8, r.b7, r.b6,
         r.b5, r.b15 != r.b4, r.b14 != r.b3, r.b2,
         r.b1, r.b0, r.b15, r.b14)
  }

  function Step4(r: Word): Word {
    Word(r.b15 != r.b11, r.b14 != r.b10, r.b13 != r.b9, r.b12 != r.b8,
         r.b7, r.b6, r.b5, r.b15 != r.b4,
         r.b14 != r.b3, r.b13 != r.b2, r.b12 != r.b1, r.b0,
         r.b15, r.b14, r.b13, r.b12)
  }

  function Step8(r: Word): Word {
    Step4(Step4(r))
  }

  lemma StepTwice(r: Word)
    ensures Step(Step(r)) == Step2(r)
  {
  }

  lemma Step2Twice(r: Word)
    ensures Step2(Step2(r)) == Step4(r)
  {
  }

  lemma ShiftBitIsStep(r: Word, b: bool)
    ensures ShiftBit(r, b) == Step(Xor(r, ZERO.(b15 := b)))
  {
  }

  lemma ShiftTwoBits(r: Word, b: bool, c: bool)
    ensures ShiftBit(ShiftBit(r, b), c) == Step2(Xor(r, ZERO.(b15 := b, b14 := c)))
  {
    ShiftBitIsStep(r, b);
    var s := ShiftBit(r, b);
    ShiftBitIsStep(s, c);
    StepPair(r, b, c);
    StepTwice(Xor(r, ZERO.(b15 := b, b14 := c)));
  }

  lemma StepPair(r: Word, b: bool, c: bool)
    ensures Xor(Step(Xor(r, ZERO.(b15 := b))), ZERO.(b15 := c)) == Step(Xor(r, ZERO.(b15 := b, b14 := c)))
  {
  }

  lemma Step2Pair(r: Word, t: Word, u: Word, a: bool, b: bool, c: bool, d: bool)
    requires t == ZERO.(b15 := a, b14 := b) && u == ZERO.(b13 := c, b12 := d)
    ensures Xor(Step2(Xor(r, t)), ZERO.(b15 := c, b14 := d)) == Step2(Xor(r, Xor(t, u)))
  {
    Step2Linear(Xor(r, t), u);
    XorAssoc(r, t, u);
  }

  lemma Step4Pair(r: Word, t: Word, u: Word, e: bool, f: bool, g: bool, h: bool)
    requires u == ZERO.(b11 := e, b10 := f, b9 := g, b8 := h)
    ensures Xor(Step4(Xor(r, t)), ZERO.(b15 := e, b14 := f, b13 := g, b12 := h)) == Step4(Xor(r, Xor(t, u)))
  {
    Step4Linear(Xor(r, t), u);
    XorAssoc(r, t, u);
  }

  lemma XorAssoc(x: Word, y: Word, z: Word)
    ensures Xor(Xor(x, y), z) == Xor(x, Xor(y, z))
  {
  }

  lemma StepLinear(r: Word, s: Word)
    ensures Step(Xor(r, s)) == Xor(Step(r), Step(s))
  {
  }

  lemma Step2Linear(r: Word, s: Word)
    ensures Step2(Xor(r, s)) == Xor(Step2(r), Step2(s))
  {
  }

  lemma Step4Linear(r: Word, s: Word)
    ensures Step4(Xor(r, s)) == Xor(Step4(r), Step4(s))
  {
  }

  lemma AddBits(r: Word, s: Word, a: bool, b: bool)
    ensures Xor(Xor(r, s), ZERO.(b15 := a != b)) == Xor(Xor(r, ZERO.(b15 := a)), Xor(s, ZERO.(b15 := b)))
  {
    XorInterchange(r, s, ZERO.(b15 := a), ZERO.(b15 := b));
  }

  lemma XorInterchange(r: Word, s: Word, x: Word, y: Word)
    ensures Xor(Xor(r, s), Xor(x, y)) == Xor(Xor(r, x), Xor(s, y))
  {
    XorAssoc(r, s, Xor(x, y));
    XorAssoc(s, x, y);
    XorAssoc(x, s, y);
    XorCommutes(s, x);
    XorAssoc(r, x, Xor(s, y));
  }

  lemma XorCommutes(x: Word, y: Word)
    ensures Xor(x, y) == Xor(y, x)
  {
  }

  lemma ShiftBitLinear(r: Word, s: Word, a: bool, b: bool)
    ensures ShiftBit(Xor(r, s), a != b) == Xor(ShiftBit(r, a), ShiftBit(s, b))
  {
    ShiftBitIsStep(Xor(r, s), a != b);
    ShiftBitIsStep(r, a);
    ShiftBitIsStep(s, b);
    AddBits(r, s, a, b);
    StepLinear(Xor(r, ZERO.(b15 := a)), Xor(s, ZERO.(b15 := b)));
  }

  lemma Step8Linear(r: Word, s: Word)
    ensures Step8(Xor(r, s)) == Xor(Step8(r), Step8(s))
  {
    Step4Linear(r, s);
    Step4Linear(Step4(r), Step4(s));
  }

  lemma Step8Split(r: Word)
    ensures Step8(r) == Xor(MoveUp(r), Step8(HighByte(r)))
  {
  }

  lemma Step8Low(b: bv8)
    ensures Step8(ByteLow(b)) == ByteHigh(b)
  {
  }

  // ----- crc16_table -----

  function Row(i: bv8, a: bv16, b: bv16, c: bv16, d: bv16, e: bv16, f: bv16, g: bv16, h: bv16): bv16 {
    var k := i & 7;
    if k == 0 then a else if k == 1 then b else if k == 2 then c else if k == 3 then d
    else if k == 4 then e else if k == 5 then f else if k == 6 then g else h
  }

  /** crc16_table, eight entries a row. */
  function Crc16Table(i: bv8): bv16 {
    if i >> 3 == 0 then Row(i, 0x0000, 0x1021, 0x2042, 0x3063, 0x4084, 0x50A5, 0x60C6, 0x70E7)
    else if i >> 3 == 1 then Row(i, 0x8108, 0x9129, 0xA14A, 0xB16B, 0xC18C, 0xD1AD, 0xE1CE, 0xF1EF)
    else if i >> 3 == 2 then Row(i, 0x1231, 0x0210, 0x3273, 0x2252, 0x52B5, 0x4294, 0x72F7, 0x62D6)
    else if i >> 3 == 3 then Row(i, 0x9339, 0x8318, 0xB37B, 0xA35A, 0xD3BD, 0xC39C, 0xF3FF, 0xE3DE)
    else if i >> 3 == 4 then Row(i, 0x2462, 0x3443, 0x0420, 0x1401, 0x64E6, 0x74C7, 0x44A4, 0x5485)
    else if i >> 3 == 5 then Row(i, 0xA56A, 0xB54B, 0x8528, 0x9509, 0xE5EE, 0xF5CF, 0xC5AC, 0xD58D)
    else if i >> 3 == 6 then Row(i, 0x3653, 0x2672, 0x1611, 0x0630, 0x76D7, 0x66F6, 0x5695, 0x46B4)
    else if i >> 3 == 7 then Row(i, 0xB75B, 0xA77A, 0x9719, 0x8738, 0xF7DF, 0xE7FE, 0xD79D, 0xC7BC)
    else if i >> 3 == 8 then Row(i, 0x48C4, 0x58E5, 0x6886, 0x78A7, 0x0840, 0x1861, 0x2802, 0x3823)
    else if i >> 3 == 9 then Row(i, 0xC9CC, 0xD9ED, 0xE98E, 0xF9AF, 0x8948, 0x9969, 0xA90A, 0xB92B)
    else if i >> 3 == 10 then Row(i, 0x5AF5, 0x4AD4, 0x7AB7, 0x6A96, 0x1A71, 0x0A50, 0x3A33, 0x2A12)
    else if i >> 3 == 11 then Row(i, 0xDBFD, 0xCBDC, 0xFBBF, 0xEB9E, 0x9B79, 0x8B58, 0xBB3B, 0xAB1A)
    else if i >> 3 == 12 then Row(i, 0x6CA6, 0x7C87, 0x4CE4, 0x5CC5, 0x2C22, 0x3C03, 0x0C60, 0x1C41)
    else if i >> 3 == 13 then Row(i, 0xEDAE, 0xFD8F, 0xCDEC, 0xDDCD, 0xAD2A, 0xBD0B, 0x8D68, 0x9D49)
    else if i >> 3 == 14 then Row(i, 0x7E97, 0x6EB6, 0x5ED5, 0x4EF4, 0x3E13, 0x2E32, 0x1E51, 0x0E70)
    else if i >> 3 == 15 then Row(i, 0xFF9F, 0xEFBE, 0xDFDD, 0xCFFC, 0xBF1B, 0xAF3A, 0x9F59, 0x8F78)
    else if i >> 3 == 16 then Row(i, 0x9188, 0x81A9, 0xB1CA, 0xA1EB, 0xD10C, 0xC12D, 0xF14E, 0xE16F)
    else if i >> 3 == 17 then Row(i, 0x1080, 0x00A1, 0x30C2, 0x20E3, 0x5004, 0x4025, 0x7046, 0x6067)
    else if i >> 3 == 18 then Row(i, 0x83B9, 0x9398, 0xA3FB, 0xB3DA, 0xC33D, 0xD31C, 0xE37F, 0xF35E)
    else if i >> 3 == 19 then Row(i, 0x02B1, 0x1290, 0x22F3, 0x32D2, 0x4235, 0x5214, 0x6277, 0x7256)
    else if i >> 3 == 20 then Row(i, 0xB5EA, 0xA5CB, 0x95A8, 0x8589, 0xF56E, 0xE54F, 0xD52C, 0xC50D)
    else if i >> 3 == 21 then Row(i, 0x34E2, 0x24C3, 0x14A0, 0x0481, 0x7466, 0x6447, 0x5424, 0x4405)
    else if i >> 3 == 22 then Row(i, 0xA7DB, 0xB7FA, 0x8799, 0x97B8, 0xE75F, 0xF77E, 0xC71D, 0xD73C)
    else if i >> 3 == 23 then Row(i, 0x26D3, 0x36F2, 0x0691, 0x16B0, 0x6657, 0x7676, 0x4615, 0x5634)
    else if i >> 3 == 24 then Row(i, 0xD94C, 0xC96D, 0xF90E, 0xE92F, 0x99C8, 0x89E9, 0xB98A, 0xA9AB)
    else if i >> 3 == 25 then Row(i, 0x5844, 0x4865, 0x7806, 0x6827, 0x18C0, 0x08E1, 0x3882, 0x28A3)
    else if i >> 3 == 26 then Row(i, 0xCB7D, 0xDB5C, 0xEB3F, 0xFB1E, 0x8BF9, 0x9BD8, 0xABBB, 0xBB9A)
    else if i >> 3 == 27 then Row(i, 0x4A75, 0x5A54, 0x6A37, 0x7A16, 0x0AF1, 0x1AD0, 0x2AB3, 0x3A92)
    else if i >> 3 == 28 then Row(i, 0xFD2E, 0xED0F, 0xDD6C, 0xCD4D, 0xBDAA, 0xAD8B, 0x9DE8, 0x8DC9)
    else if i >> 3 == 29 then Row(i, 0x7C26, 0x6C07, 0x5C64, 0x4C45, 0x3CA2, 0x2C83, 0x1CE0, 0x0CC1)
    else if i >> 3 == 30 then Row(i, 0xEF1F, 0xFF3E, 0xCF5D, 0xDF7C, 0xAF9B, 0xBFBA, 0x8FD9, 0x9FF8)
    else Row(i, 0x6E17, 0x7E36, 0x4E55, 0x5E74, 0x2E93, 0x3EB2, 0x0ED1, 0x1EF0)
  }

  lemma TableLowHalf(i: bv8)
    requires i & 0x80 == 0
    ensures var e := (i ^ (i >> 4)) as bv16; Crc16Table(i) == (e << 12) ^ (e << 5) ^ e
  {
  }

  lemma TableHighHalf(i: bv8)
    requires i & 0x80 != 0
    ensures var e := (i ^ (i >> 4)) as bv16; Crc16Table(i) == (e << 12) ^ (e << 5) ^ e
  {
  }

  lemma SpreadBits(i: bv8, e: bv16)
    requires e == (i ^ (i >> 4)) as bv16
    ensures (((e << 12) ^ (e << 5) ^ e) & 0x8000 != 0) == ((i & 0x80 != 0) != (i & 0x08 != 0))
    ensures (((e << 12) ^ (e << 5) ^ e) & 0x4000 != 0) == ((i & 0x40 != 0) != (i & 0x04 != 0))
    ensures (((e << 12) ^ (e << 5) ^ e) & 0x2000 != 0) == ((i & 0x20 != 0) != (i & 0x02 != 0))
    ensures (((e << 12) ^ (e << 5) ^ e) & 0x1000 != 0) == (((i & 0x80 != 0) != (i & 0x10 != 0)) != (i & 0x01 != 0))
    ensures (((e << 12) ^ (e << 5) ^ e) & 0x0800 != 0) == (i & 0x40 != 0)
    ensures (((e << 12) ^ (e << 5) ^ e) & 0x0400 != 0) == (i & 0x20 != 0)
    ensures (((e << 12) ^ (e << 5) ^ e) & 0x0200 != 0) == (i & 0x10 != 0)
    ensures (((e << 12) ^ (e << 5) ^ e) & 0x0100 != 0) == ((i & 0x80 != 0) != (i & 0x08 != 0))
    ensures (((e << 12) ^ (e << 5) ^ e) & 0x0080 != 0) == (((i & 0x80 != 0) != (i & 0x40 != 0)) != (i & 0x04 != 0))
    ensures (((e << 12) ^ (e << 5) ^ e) & 0x0040 != 0) == (((i & 0x40 != 0) != (i & 0x20 != 0)) != (i & 0x02 != 0))
    ensures (((e << 12) ^ (e << 5) ^ e) & 0x0020 != 0) == (((i & 0x20 != 0) != (i & 0x10 != 0)) != (i & 0x01 != 0))
    ensures (((e << 12) ^ (e << 5) ^ e) & 0x0010 != 0) == (i & 0x10 != 0)
    ensures (((e << 12) ^ (e << 5) ^ e) & 0x0008 != 0) == ((i & 0x80 != 0) != (i & 0x08 != 0))
    ensures (((e << 12) ^ (e << 5) ^ e) & 0x0004 != 0) == ((i & 0x40 != 0) != (i & 0x04 != 0))
    ensures (((e << 12) ^ (e << 5) ^ e) & 0x0002 != 0) == ((i & 0x20 != 0) != (i & 0x02 != 0))
    ensures (((e << 12) ^ (e << 5) ^ e) & 0x0001 != 0) == ((i & 0x10 != 0) != (i & 0x01 != 0))
  {
  }

  lemma SpreadWord(i: bv8, e: bv16)
    requires e == (i ^ (i >> 4)) as bv16
    ensures ToWord((e << 12) ^ (e << 5) ^ e) == Step8(ByteHigh(i))
  {
    SpreadBits(i, e);
    ToWordIs((e << 12) ^ (e << 5) ^ e, Step8(ByteHigh(i)));
  }

  /** Entry `i` of the table is the remainder left by the byte `i` followed by sixteen zero bits. */
  lemma TableEntry(i: bv8, t: bv16)
    requires t == Crc16Table(i)
    ensures ToWord(t) == Step8(ByteHigh(i))
  {
    var e := (i ^ (i >> 4)) as bv16;
    if i & 0x80 == 0 { TableLowHalf(i); } else { TableHighHalf(i); }
    SpreadWord(i, e);
  }
}
