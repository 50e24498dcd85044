/** The assembler of bedbug.c in plain arithmetic: when a line is accepted, what "addi" and "b" give for every
    operand, and what a field and a swapped register number are. */
module BedbugLaws {
  import opened CTypes
  import opened BitMath
  import opened Bedbug

  // ----- when a line is accepted -----

  /** A register number is at most 31, and SPR and TBR names are known. */
  predicate Fits(o: Operand, a: Arg) {
    && (o.kind == Reg ==> a.number <= 31)
    && (o.kind == Spr ==> a.spr != 0)
    && (o.kind == Tbr ==> a.tbr != 0)
  }

  /** There is a word for operand `k`, if it is written, and the word fits. */
  ghost predicate WordFits(table: seq<Operand>, op: Opcode, k: nat, args: seq<Arg>)
    requires ValidTable(table, op) && k < |op.fields|
  {
    At(table, op, k).silent || (WordOf(table, op, k) < |args| && Fits(At(table, op, k), args[WordOf(table, op, k)]))
  }

  lemma ParsesIff(memaddr: u32, relative: bool, o: Operand, a: Arg)
    requires o.bits > 0
    ensures Parse(memaddr, relative, o, a).Value? <==> Fits(o, a)
  {
  }

  lemma {:induction false} AssemblesFrom(memaddr: u32, op: Opcode, table: seq<Operand>, k: nat, args: seq<Arg>,
                                         instr: nat)
    requires ValidTable(table, op) && k <= |op.fields| && WordOf(table, op, k) <= |args|
    ensures AsmFrom(memaddr, op, table, k, args[WordOf(table, op, k)..], instr).Ok? <==>
            forall j: nat :: k <= j < |op.fields| ==> WordFits(table, op, j, args)
    decreases |op.fields| - k
  {
    hide Parse, Fits, Or, ShiftLeft;
    if k < |op.fields| {
      var o, w := At(table, op, k), WordOf(table, op, k);
      if o.silent {
        AssemblesFrom(memaddr, op, table, k + 1, args, instr);
      } else if w < |args| {
        ParsesIff(memaddr, op.relative, o, args[w]);
        assert args[w..][1..] == args[w + 1..] && args[w..][0] == args[w];
        if Parse(memaddr, op.relative, o, args[w]).Value? {
          var v := Parse(memaddr, op.relative, o, args[w]).v;
          AssemblesFrom(memaddr, op, table, k + 1, args, Or(instr, ShiftLeft(v, o.shift)));
        } else {
          assert !WordFits(table, op, k, args);
        }
      } else {
        assert !WordFits(table, op, k, args);
      }
    }
  }

  /** A line is assembled exactly if there is a word for every written operand and each of them fits. */
  lemma AssemblesIff(memaddr: u32, op: Opcode, table: seq<Operand>, args: seq<Arg>)
    requires ValidTable(table, op)
    ensures AsmFrom(memaddr, op, table, 0, args, op.base).Ok? <==>
            forall j: nat :: j < |op.fields| ==> WordFits(table, op, j, args)
  {
    assert args[0..] == args;
    AssemblesFrom(memaddr, op, table, 0, args, op.base);
  }

  // ----- two instructions -----

  /** An operand put below the bits that are already there. */
  lemma PutBelow(h: nat, v: nat, bits: nat, shift: nat)
    requires v < Pow2(bits)
    ensures Or(h * Pow2(bits) * Pow2(shift), ShiftLeft(v, shift)) == (h * Pow2(bits) + v) * Pow2(shift)
  {
    hide Or, ShiftLeft, Pow2;
    ShiftLeftIs(v, shift);
    OrShifted(h * Pow2(bits), v, shift);
    OrBelow(h, v, bits);
  }

  lemma Powers()
    ensures Pow2(0) == 1 && Pow2(2) == 4 && Pow2(5) == 0x20 && Pow2(16) == 0x1_0000 && Pow2(21) == 0x20_0000
    ensures Pow2(23) == 0x80_0000 && Pow2(24) == 0x100_0000
  {
    assert Pow2(5) == 2 * Pow2(4) && Pow2(4) == 2 * Pow2(3) && Pow2(3) == 2 * Pow2(2);
    Pow2Sum(4, 4);
    Pow2Sum(8, 8);
    Pow2Sum(16, 5);
    Pow2Sum(21, 2);
    Pow2Sum(23, 1);
  }

  lemma Written(memaddr: u32, op: Opcode, table: seq<Operand>, k: nat, args: seq<Arg>, instr: nat, v: nat)
    requires ValidTable(table, op) && k < |op.fields| && !At(table, op, k).silent && args != []
    requires Parse(memaddr, op.relative, At(table, op, k), args[0]) == Value(v)
    ensures AsmFrom(memaddr, op, table, k, args, instr) ==
            AsmFrom(memaddr, op, table, k + 1, args[1..], Or(instr, ShiftLeft(v, At(table, op, k).shift)))
  {
    hide Parse, Or, ShiftLeft;
  }

  /** The operands and the opcode of "addi". */
  const REGISTERS_AND_NUMBER := [Operand(5, 21, Reg, false), Operand(5, 16, Reg, false), Operand(16, 0, Other, false)]
  const ADDI := Opcode(0x3800_0000, [0, 1, 2], false)

  /** "addi rD,rA,SIMM" for all registers and every number, of which the low 16 bits are taken. */
  lemma Addi(memaddr: u32, d: nat, a: nat, imm: int)
    requires d <= 31 && a <= 31
    ensures ValidTable(REGISTERS_AND_NUMBER, ADDI)
    ensures var args := [Arg(d, 0, 0), Arg(a, 0, 0), Arg(imm, 0, 0)];
      AsmFrom(memaddr, ADDI, REGISTERS_AND_NUMBER, 0, args, ADDI.base) ==
        Ok(0x3800_0000 + d * 0x20_0000 + a * 0x1_0000 + imm % 0x1_0000)
  {
    hide Parse, Or, ShiftLeft, AsmFrom, ValidTable;
    var m := AddiParses(memaddr, d, a, imm);
    var one, two, three := AddiWords(d, a, m);
    ThreeWords(memaddr, ADDI, REGISTERS_AND_NUMBER, [Arg(d, 0, 0), Arg(a, 0, 0), Arg(imm, 0, 0)], d, a, m,
               one, two, three);
  }

  lemma AddiParses(memaddr: u32, d: nat, a: nat, imm: int) returns (m: nat)
    requires d <= 31 && a <= 31
    ensures m == imm % 0x1_0000
    ensures var table := REGISTERS_AND_NUMBER;
      && ValidTable(table, ADDI)
      && At(table, ADDI, 0) == table[0] && At(table, ADDI, 1) == table[1] && At(table, ADDI, 2) == table[2]
      && Parse(memaddr, false, table[0], Arg(d, 0, 0)) == Value(d)
      && Parse(memaddr, false, table[1], Arg(a, 0, 0)) == Value(a)
      && Parse(memaddr, false, table[2], Arg(imm, 0, 0)) == Value(m)
  {
    hide Low, Pow2;
    m := imm % 0x1_0000;
    Powers();
    LowIsMod(d, 5);
    LowIsMod(a, 5);
    LowIsMod(imm, 16);
  }

  lemma ThreeWords(memaddr: u32, op: Opcode, table: seq<Operand>, args: seq<Arg>, u: nat, v: nat, w: nat,
                   one: nat, two: nat, three: nat)
    requires ValidTable(table, op) && |op.fields| == |args| == 3
    requires !At(table, op, 0).silent && !At(table, op, 1).silent && !At(table, op, 2).silent
    requires Parse(memaddr, op.relative, At(table, op, 0), args[0]) == Value(u)
    requires Parse(memaddr, op.relative, At(table, op, 1), args[1]) == Value(v)
    requires Parse(memaddr, op.relative, At(table, op, 2), args[2]) == Value(w)
    requires one == Or(op.base, ShiftLeft(u, At(table, op, 0).shift))
    requires two == Or(one, ShiftLeft(v, At(table, op, 1).shift))
    requires three == Or(two, ShiftLeft(w, At(table, op, 2).shift))
    ensures AsmFrom(memaddr, op, table, 0, args, op.base) == Ok(three)
  {
    hide Parse, Or, ShiftLeft;
    Written(memaddr, op, table, 0, args, op.base, u);
    Written(memaddr, op, table, 1, args[1..], one, v);
    Written(memaddr, op, table, 2, args[1..][1..], two, w);
  }

  lemma AddiWords(d: nat, a: nat, m: nat) returns (one: nat, two: nat, three: nat)
    requires d <= 31 && a <= 31 && m < 0x1_0000
    ensures one == Or(0x3800_0000, ShiftLeft(d, 21))
    ensures two == Or(one, ShiftLeft(a, 16))
    ensures three == Or(two, ShiftLeft(m, 0)) == 0x3800_0000 + d * 0x20_0000 + a * 0x1_0000 + m
  {
    hide Or, ShiftLeft, Low, Pow2;
    Powers();
    one, two := 0x3800_0000 + d * 0x20_0000, 0x3800_0000 + d * 0x20_0000 + a * 0x1_0000;
    three := two + m;
    PutBelow(14, d, 5, 21);
    PutBelow(14 * 32 + d, a, 5, 16);
    PutBelow((14 * 32 + d) * 32 + a, m, 16, 0);
  }

  /** "b target" for every target that is a multiple of 4 away and less than 32 MiB; AA and LK are silent. */
  lemma Branch(memaddr: u32, target: u32)
    requires (target - memaddr) % 4 == 0 && -0x200_0000 <= target - memaddr < 0x200_0000
    ensures var table := [Operand(24, 2, Addr, false), Operand(1, 1, Other, true), Operand(1, 0, Other, true)];
      var op := Opcode(0x4800_0000, [0, 1, 2], true);
      && ValidTable(table, op)
      && AsmFrom(memaddr, op, table, 0, [Arg(target, 0, 0)], op.base) ==
           Ok(0x4800_0000 + (target - memaddr) % 0x400_0000)
  {
    var table := [Operand(24, 2, Addr, false), Operand(1, 1, Other, true), Operand(1, 0, Other, true)];
    var op := Opcode(0x4800_0000, [0, 1, 2], true);
    var args := [Arg(target, 0, 0)];
    var d := target - memaddr;
    assert Displacement(target, memaddr, true) == d;
    BranchField(d);
    var v := d % 0x400_0000 / 4;
    hide Or, ShiftLeft, EncodeAddress, Displacement;
    assert At(table, op, 0) == table[0] && At(table, op, 1) == table[1] && At(table, op, 2) == table[2];
    Written(memaddr, op, table, 0, args, 0x4800_0000, v);
    assert args[1..] == [];
    assert AsmFrom(memaddr, op, table, 3, [], 0x4800_0000 + 4 * v) == Ok(0x4800_0000 + 4 * v);
  }

  lemma BranchField(d: int)
    requires d % 4 == 0 && -0x200_0000 <= d < 0x200_0000
    ensures var v := d % 0x400_0000 / 4;
      && EncodeAddress(24, d) == v
      && Or(0x4800_0000, ShiftLeft(v, 2)) == 0x4800_0000 + 4 * v
      && 4 * v == d % 0x400_0000
  {
    hide Or, ShiftLeft, Low, Pow2;
    Powers();
    LowIsMod(d / 4, 23);
    PutBelow(18, d % 0x400_0000 / 4, 24, 2);
  }

  // ----- fields and swapped halves -----

  lemma FieldIsQuotient(instr: nat, o: Operand)
    ensures Field(instr, o) == instr / Pow2(o.shift) % Pow2(o.bits)
  {
    ShiftRightIs(instr, o.shift);
    LowIsMod(ShiftRight(instr, o.shift), o.bits);
  }

  lemma SwapIs(x: nat)
    ensures Swap(x) == x % 32 * 32 + x / 32 % 32
  {
    Powers();
    ShiftRightIs(x, 5);
    LowIsMod(x / 32, 5);
    LowIsMod(x, 5);
    ShiftLeftIs(x % 32, 5);
    OrCommutes(x / 32 % 32, x % 32 * 32);
    OrBelow(x % 32, x / 32 % 32, 5);
  }

  lemma {:induction false} OrCommutes(a: nat, b: nat)
    ensures Or(a, b) == Or(b, a)
    decreases a + b
  {
    OrZero(a);
    OrZero(b);
    if a > 0 && b > 0 {
      OrCommutes(a / 2, b / 2);
    }
  }
}
