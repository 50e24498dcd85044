/** The PowerPC assembler and operand extraction of bedbug.c, for any opcode and operand tables. The host
    is big-endian, so htonl changes nothing. */
module Bedbug {
  import opened CTypes
  import opened BitMath

  datatype Kind = Addr | Reg | Spr | Tbr | Other

  /** An entry of the operand table: a field of `bits` bits at bit `shift`. */
  datatype Operand = Operand(bits: nat, shift: nat, kind: Kind, silent: bool)

  /** An entry of the opcode table; `fields` are positions in the operand table. */
  datatype Opcode = Opcode(base: u32, fields: seq<nat>, relative: bool)

  /** A word of the source text: its value as a number, an SPR and a TBR (0 where it is none). */
  datatype Arg = Arg(number: int, spr: nat, tbr: nat)

  datatype AsmError = BadRegister | BadSpr | BadTbr | NumOperands

  datatype Asm = Ok(instr: nat) | Err(error: AsmError)

  datatype Data = Value(v: nat) | Bad(error: AsmError)

  const MAX_OPERANDS := 8

  /** A 32-bit word taken as signed. */
  function Signed32(x: int): int {
    var w := x % U32_LIMIT;
    if w >= 0x8000_0000 then w - U32_LIMIT else w
  }

  /** The branch field of parse_operand: shift, keep all but the sign bit, put the sign back. */
  function EncodeAddress(bits: nat, displacement: int): nat
    requires bits > 0
  {
    Low(displacement / 4, bits - 1) + if displacement < 0 then Pow2(bits - 1) else 0
  }

  function Displacement(target: int, memaddr: u32, relative: bool): int {
    if relative then Signed32(target - memaddr) else Signed32(target)
  }

  /** The value of one operand before it is moved to its place. */
  function Parse(memaddr: u32, relative: bool, o: Operand, a: Arg): Data
    requires o.bits > 0
  {
    match o.kind
    case Addr => Value(EncodeAddress(o.bits, Displacement(a.number, memaddr, relative)))
    case Reg => if a.number > 31 then Bad(BadRegister) else Value(Low(a.number, o.bits))
    case Spr => if a.spr == 0 then Bad(BadSpr) else Value(Low(a.spr, o.bits))
    case Tbr => if a.tbr == 0 then Bad(BadTbr) else Value(Low(a.tbr, o.bits))
    case Other => Value(Low(a.number, o.bits))
  }

  /** A field of an instruction. */
  function Field(instr: nat, o: Operand): nat {
    Low(ShiftRight(instr, o.shift), o.bits)
  }

  ghost predicate ValidTable(table: seq<Operand>, op: Opcode) {
    && |op.fields| <= MAX_OPERANDS
    && forall k :: 0 <= k < |op.fields| ==> op.fields[k] < |table| && table[op.fields[k]].bits > 0
  }

  /** The loop of asmppc from operand `k` on. */
  ghost function AsmFrom(memaddr: u32, op: Opcode, table: seq<Operand>, k: nat, args: seq<Arg>, instr: nat): Asm
    requires ValidTable(table, op) && k <= |op.fields|
    decreases |op.fields| - k
  {
    if k == |op.fields| then Ok(instr)
    else
      var o := table[op.fields[k]];
      if o.silent then AsmFrom(memaddr, op, table, k + 1, args, instr)
      else if args == [] then Err(NumOperands)
      else
        match Parse(memaddr, op.relative, o, args[0])
        case Bad(e) => Err(e)
        case Value(v) => AsmFrom(memaddr, op, table, k + 1, args[1..], Or(instr, ShiftLeft(v, o.shift)))
  }

  /** asmppc once the opcode is found; words left over are ignored. */
  method AsmPpc(memaddr: u32, op: Opcode, table: seq<Operand>, args: seq<Arg>) returns (r: Asm)
    requires ValidTable(table, op)
    ensures r == AsmFrom(memaddr, op, table, 0, args, op.base)
  {
    hide Parse;
    var wanted := |op.fields|;
    var instr: nat := op.base;
    var n, next := 0, 0;
    assert args[0..] == args;
    while n < wanted
      invariant n <= wanted && next <= |args|
      invariant AsmFrom(memaddr, op, table, 0, args, op.base) == AsmFrom(memaddr, op, table, n, args[next..], instr)
    {
      var o := table[op.fields[n]];
      if o.silent {
        n := n + 1;
        continue;
      }
      if next == |args| {
        break;
      }
      assert args[next..][1..] == args[next + 1..];
      var param := Parse(memaddr, op.relative, o, args[next]);
      if param.Bad? {
        return Err(param.error);
      }
      instr := Or(instr, ShiftLeft(param.v, o.shift));
      n, next := n + 1, next + 1;
    }
    if n < wanted {
      return Err(NumOperands);
    }
    return Ok(instr);
  }

  /** get_operand_value: the first operand of that number. */
  method GetOperandValue(op: Opcode, table: seq<Operand>, instr: nat, field: nat) returns (found: bool, value: nat)
    requires ValidTable(table, op)
    ensures found <==> field in op.fields
    ensures found ==> field < |table| && value == Field(instr, table[field])
  {
    found, value := false, 0;
    if field >= |table| {
      return;
    }
    for i := 0 to |op.fields|
      invariant field !in op.fields[..i]
    {
      if op.fields[i] == field {
        return true, Low(ShiftRight(instr, table[field].shift), table[field].bits);
      }
    }
  }

  // ----- assembled operands are read back -----

  ghost predicate InField(o: Operand, i: nat) {
    o.shift <= i < o.shift + o.bits
  }

  ghost function At(table: seq<Operand>, op: Opcode, k: nat): Operand
    requires ValidTable(table, op) && k < |op.fields|
  {
    table[op.fields[k]]
  }

  /** The fields of the written operands are disjoint and clear in the base opcode. */
  ghost predicate WellFormed(table: seq<Operand>, op: Opcode)
    requires ValidTable(table, op)
  {
    && (forall j: nat, k: nat, i: nat :: j < k < |op.fields| && !At(table, op, j).silent && !At(table, op, k).silent ==>
          !(InField(At(table, op, j), i) && InField(At(table, op, k), i)))
    && (forall k: nat, i: nat :: k < |op.fields| && !At(table, op, k).silent && InField(At(table, op, k), i) ==>
          Bit(op.base, i) == 0)
  }

  /** The number of written operands before operand `k`: which word of the text it takes. */
  ghost function WordOf(table: seq<Operand>, op: Opcode, k: nat): nat
    requires ValidTable(table, op) && k <= |op.fields|
  {
    if k == 0 then 0 else WordOf(table, op, k - 1) + if At(table, op, k - 1).silent then 0 else 1
  }

  lemma FieldBits(instr: nat, o: Operand, i: nat)
    ensures Bit(Field(instr, o), i) == if i < o.bits then Bit(instr, i + o.shift) else 0
  {
    LowBits(ShiftRight(instr, o.shift), o.bits, i);
    ShiftRightBits(instr, o.shift, i);
  }

  /** A field is determined by its bits. */
  lemma FieldIs(instr: nat, o: Operand, v: nat)
    requires v < Pow2(o.bits)
    requires forall i: nat :: i < o.bits ==> Bit(instr, i + o.shift) == Bit(v, i)
    ensures Field(instr, o) == v
  {
    LowOfSmall(v, o.bits);
    forall i: nat
      ensures Bit(Field(instr, o), i) == Bit(v, i)
    {
      FieldBits(instr, o, i);
      LowBits(v, o.bits, i);
    }
    SameBits(Field(instr, o), v);
  }

  lemma FieldSmall(instr: nat, o: Operand)
    ensures Field(instr, o) < Pow2(o.bits)
  {
    LowIsSmall(ShiftRight(instr, o.shift), o.bits);
  }

  lemma {:induction false} EncodeSmall(bits: nat, displacement: int)
    requires bits > 0
    ensures EncodeAddress(bits, displacement) < Pow2(bits)
  {
    LowIsSmall(displacement / 4, bits - 1);
  }

  lemma ParseSmall(memaddr: u32, relative: bool, o: Operand, a: Arg)
    requires o.bits > 0
    ensures Parse(memaddr, relative, o, a).Value? ==> Parse(memaddr, relative, o, a).v < Pow2(o.bits)
  {
    LowIsSmall(a.number, o.bits);
    LowIsSmall(a.spr, o.bits);
    LowIsSmall(a.tbr, o.bits);
    EncodeSmall(o.bits, Displacement(a.number, memaddr, relative));
  }

  /** The bits of an instruction with one more operand put in. */
  lemma PutBits(instr: nat, o: Operand, v: nat, i: nat)
    requires v < Pow2(o.bits)
    ensures Bit(Or(instr, ShiftLeft(v, o.shift)), i) ==
              if Bit(instr, i) == 1 || (InField(o, i) && Bit(v, i - o.shift) == 1) then 1 else 0
  {
    OrBits(instr, ShiftLeft(v, o.shift), i);
    ShiftLeftBits(v, o.shift, i);
    LowOfSmall(v, o.bits);
    if i >= o.shift {
      LowBits(v, o.bits, i - o.shift);
    }
  }

  /** The operands before `k` are in place, and all other bits are those of the opcode. */
  ghost predicate Placed(memaddr: u32, op: Opcode, table: seq<Operand>, k: nat, args: seq<Arg>, instr: nat)
    requires ValidTable(table, op) && k <= |op.fields|
  {
    && (forall j: nat :: j < k && !At(table, op, j).silent ==> PlacedAt(memaddr, op, table, j, args, instr))
    && forall i: nat :: Untouched(table, op, k, i) ==> Bit(instr, i) == Bit(op.base, i)
  }

  ghost predicate PlacedAt(memaddr: u32, op: Opcode, table: seq<Operand>, j: nat, args: seq<Arg>, instr: nat)
    requires ValidTable(table, op) && j < |op.fields|
  {
    && WordOf(table, op, j) < |args|
    && Parse(memaddr, op.relative, At(table, op, j), args[WordOf(table, op, j)])
        == Value(Field(instr, At(table, op, j)))
  }

  ghost predicate Untouched(table: seq<Operand>, op: Opcode, k: nat, i: nat)
    requires ValidTable(table, op) && k <= |op.fields|
  {
    forall j: nat :: j < k && !At(table, op, j).silent ==> !InField(At(table, op, j), i)
  }

  lemma PlaceOne(memaddr: u32, op: Opcode, table: seq<Operand>, k: nat, args: seq<Arg>, instr: nat, v: nat)
    requires ValidTable(table, op) && WellFormed(table, op) && k < |op.fields| && !At(table, op, k).silent
    requires Placed(memaddr, op, table, k, args, instr) && WordOf(table, op, k) < |args|
    requires Parse(memaddr, op.relative, At(table, op, k), args[WordOf(table, op, k)]) == Value(v)
    ensures Placed(memaddr, op, table, k + 1, args, Or(instr, ShiftLeft(v, At(table, op, k).shift)))
  {
    var o := At(table, op, k);
    var next := Or(instr, ShiftLeft(v, o.shift));
    ParseSmall(memaddr, op.relative, o, args[WordOf(table, op, k)]);
    hide Parse, Field, Or, ShiftLeft, Bit;
    forall i: nat
      ensures Bit(next, i) == if Bit(instr, i) == 1 || (InField(o, i) && Bit(v, i - o.shift) == 1) then 1 else 0
    {
      PutBits(instr, o, v, i);
    }
    forall i: nat | i < o.bits
      ensures Bit(next, i + o.shift) == Bit(v, i)
    {
      assert InField(o, i + o.shift);
      assert Untouched(table, op, k, i + o.shift);
    }
    FieldIs(next, o, v);
    forall j: nat | j < k && !At(table, op, j).silent
      ensures PlacedAt(memaddr, op, table, j, args, next)
    {
      KeepField(table, op, j, k, instr, next);
    }
  }

  lemma KeepField(table: seq<Operand>, op: Opcode, j: nat, k: nat, instr: nat, next: nat)
    requires ValidTable(table, op) && WellFormed(table, op) && j < k < |op.fields|
    requires !At(table, op, j).silent && !At(table, op, k).silent
    requires forall i: nat :: !InField(At(table, op, k), i) ==> Bit(next, i) == Bit(instr, i)
    ensures Field(next, At(table, op, j)) == Field(instr, At(table, op, j))
  {
    var o := At(table, op, j);
    FieldSmall(instr, o);
    forall i: nat | i < o.bits
      ensures Bit(next, i + o.shift) == Bit(Field(instr, o), i)
    {
      FieldBits(instr, o, i);
      assert InField(o, i + o.shift);
    }
    FieldIs(next, o, Field(instr, o));
  }

  lemma PlaceNone(memaddr: u32, op: Opcode, table: seq<Operand>, k: nat, args: seq<Arg>, instr: nat)
    requires ValidTable(table, op) && k < |op.fields| && At(table, op, k).silent
    requires Placed(memaddr, op, table, k, args, instr)
    ensures Placed(memaddr, op, table, k + 1, args, instr)
  {
    hide PlacedAt;
    forall i: nat | Untouched(table, op, k + 1, i)
      ensures Untouched(table, op, k, i)
    {
    }
  }

  lemma {:induction false} AsmPlaces(memaddr: u32, op: Opcode, table: seq<Operand>, k: nat, args: seq<Arg>, instr: nat)
    requires ValidTable(table, op) && WellFormed(table, op) && k <= |op.fields| && WordOf(table, op, k) <= |args|
    requires Placed(memaddr, op, table, k, args, instr)
    ensures var r := AsmFrom(memaddr, op, table, k, args[WordOf(table, op, k)..], instr);
      r.Ok? ==> Placed(memaddr, op, table, |op.fields|, args, r.instr)
    decreases |op.fields| - k
  {
    hide Parse, WellFormed, Placed, Or, ShiftLeft;
    if k < |op.fields| {
      var o, w := At(table, op, k), WordOf(table, op, k);
      if o.silent {
        PlaceNone(memaddr, op, table, k, args, instr);
        AsmPlaces(memaddr, op, table, k + 1, args, instr);
      } else if w < |args| && Parse(memaddr, op.relative, o, args[w]).Value? {
        var v := Parse(memaddr, op.relative, o, args[w]).v;
        PlaceOne(memaddr, op, table, k, args, instr, v);
        assert args[w..][1..] == args[w + 1..];
        AsmPlaces(memaddr, op, table, k + 1, args, Or(instr, ShiftLeft(v, o.shift)));
      }
    }
  }

  /** Extracting each written operand from an assembled instruction gives the value that was parsed for
      it, and the rest of the instruction is the opcode. */
  lemma AssembledFields(memaddr: u32, op: Opcode, table: seq<Operand>, args: seq<Arg>)
    requires ValidTable(table, op) && WellFormed(table, op)
    ensures var r := AsmFrom(memaddr, op, table, 0, args, op.base);
      r.Ok? ==> Placed(memaddr, op, table, |op.fields|, args, r.instr)
  {
    assert args[0..] == args;
    AsmPlaces(memaddr, op, table, 0, args, op.base);
  }

  // ----- addresses -----

  /** What print_operands shows for an address field: sign extension and shift in 32-bit arithmetic. */
  function ShownAddress(field: nat, bits: nat, virtual: u32, relative: bool): u32
    requires bits > 0
  {
    var operand := if Bit(field, bits - 1) != 0 then Wrap32(field - Pow2(bits)) else Wrap32(field);
    if relative then Wrap32(Wrap32(4 * operand) + virtual) else Wrap32(4 * operand)
  }

  lemma {:induction false} TopBit(low: nat, n: nat, x: nat)
    requires low < Pow2(n) && x <= 1
    ensures Bit(low + if x == 1 then Pow2(n) else 0, n) == x
  {
    if n > 0 {
      var v := low + if x == 1 then Pow2(n) else 0;
      assert v / 2 == low / 2 + if x == 1 then Pow2(n - 1) else 0;
      TopBit(low / 2, n - 1, x);
    }
  }

  /** The number of words an address field stands for. */
  function WordsOf(bits: nat, d: int): int
    requires bits > 0
  {
    Low(d / 4, bits - 1) - if d < 0 then Pow2(bits - 1) else 0
  }

  lemma ShownWords(bits: nat, d: int, virtual: u32, relative: bool)
    requires 0 < bits <= 30
    ensures ShownAddress(EncodeAddress(bits, d), bits, virtual, relative)
         == Wrap32(4 * WordsOf(bits, d) + if relative then virtual else 0)
    ensures -0x8000_0000 <= 4 * WordsOf(bits, d) < 0x8000_0000
  {
    var l, p := Low(d / 4, bits - 1), Pow2(bits - 1);
    LowIsSmall(d / 4, bits - 1);
    TopBit(l, bits - 1, if d < 0 then 1 else 0);
    assert Pow2(bits) == 2 * p;
    SmallWords(bits);
    hide Low, Pow2, Bit;
    Quadruple(WordsOf(bits, d), if relative then virtual else 0);
  }

  lemma SmallWords(bits: nat)
    requires 0 < bits <= 30
    ensures 4 * Pow2(bits - 1) <= 0x8000_0000
  {
    WordSize();
    Pow2Grows(bits, 31);
    assert Pow2(32) == 2 * Pow2(31);
  }

  lemma Quadruple(w: int, v: int)
    ensures Wrap32(Wrap32(4 * Wrap32(w)) + v) == Wrap32(4 * w + v)
    ensures Wrap32(4 * Wrap32(w)) == Wrap32(4 * w)
  {
  }

  lemma SameWrapped(a: int, b: int, m: int)
    requires -0x8000_0000 <= a < 0x8000_0000 && -0x8000_0000 <= b < 0x8000_0000
    ensures Wrap32(a + m) == Wrap32(b + m) <==> a == b
  {
    var q, r := (a + m) / U32_LIMIT, (b + m) / U32_LIMIT;
    assert a + m == q * U32_LIMIT + Wrap32(a + m) && b + m == r * U32_LIMIT + Wrap32(b + m);
  }

  lemma TargetIs(target: u32, memaddr: u32, relative: bool)
    ensures var d := Displacement(target, memaddr, relative);
      target == Wrap32(d + if relative then memaddr else 0) && -0x8000_0000 <= d < 0x8000_0000
  {
  }

  lemma WordsIff(bits: nat, d: int)
    requires 0 < bits
    ensures 4 * WordsOf(bits, d) == d <==> d % 4 == 0 && 0 <= d + 2 * Pow2(bits) && d < 2 * Pow2(bits)
  {
    hide Low, Pow2;
    var w, n := d / 4, bits - 1;
    Doubled(n);
    LowIsSmall(w, n);
    if 0 <= w + Pow2(n) && w < Pow2(n) {
      LowOfSmall(w, n);
    }
    Reach(d, Low(w, n), Pow2(n));
  }

  lemma Doubled(n: nat)
    ensures Pow2(n + 1) == 2 * Pow2(n)
  {
  }

  lemma Reach(d: int, l: nat, p: nat)
    requires l < p && (0 <= d / 4 + p && d / 4 < p ==> l == if d / 4 < 0 then d / 4 + p else d / 4)
    ensures 4 * (l - if d < 0 then p else 0) == d <==> d % 4 == 0 && 0 <= d + 4 * p && d < 4 * p
  {
  }

  /** The disassembler shows the branch target that was assembled, exactly when its displacement is a
      multiple of 4 within the reach of the field. */
  lemma AddressIff(bits: nat, target: u32, memaddr: u32, relative: bool)
    requires 0 < bits <= 30
    ensures var d := Displacement(target, memaddr, relative);
      ShownAddress(EncodeAddress(bits, d), bits, memaddr, relative) == target
      <==> d % 4 == 0 && 0 <= d + 2 * Pow2(bits) && d < 2 * Pow2(bits)
  {
    hide WordsOf, ShownAddress, EncodeAddress, Displacement, Wrap32, Pow2;
    var d := Displacement(target, memaddr, relative);
    ShownWords(bits, d, memaddr, relative);
    TargetIs(target, memaddr, relative);
    WordsIff(bits, d);
    SameWrapped(4 * WordsOf(bits, d), d, if relative then memaddr else 0);
  }

  /** From the text of an operand to the instruction and back: numbers and registers in range come back
      as they were, and a branch target is shown again exactly when the field reaches it. */
  lemma OperandsComeBack(memaddr: u32, op: Opcode, table: seq<Operand>, args: seq<Arg>, k: nat)
    requires ValidTable(table, op) && WellFormed(table, op)
    requires AsmFrom(memaddr, op, table, 0, args, op.base).Ok?
    requires k < |op.fields| && !At(table, op, k).silent
    ensures WordOf(table, op, k) < |args|
    ensures var o, a := At(table, op, k), args[WordOf(table, op, k)];
      var f := Field(AsmFrom(memaddr, op, table, 0, args, op.base).instr, o);
      && ((o.kind == Reg || o.kind == Other) && 0 <= a.number < Pow2(o.bits) ==> f == a.number)
      && (o.kind == Spr && a.spr < Pow2(o.bits) ==> f == a.spr)
      && (o.kind == Tbr && a.tbr < Pow2(o.bits) ==> f == a.tbr)
      && (o.kind == Addr && o.bits <= 30 && 0 <= a.number < U32_LIMIT ==>
            var d := Displacement(a.number, memaddr, op.relative);
            ShownAddress(f, o.bits, memaddr, op.relative) == a.number
            <==> d % 4 == 0 && 0 <= d + 2 * Pow2(o.bits) && d < 2 * Pow2(o.bits))
  {
    AssembledFields(memaddr, op, table, args);
    hide AsmFrom, WellFormed, Field, ShownAddress, Displacement, EncodeAddress, Pow2, Low;
    var o := At(table, op, k);
    assert PlacedAt(memaddr, op, table, k, args, AsmFrom(memaddr, op, table, 0, args, op.base).instr);
    var a := args[WordOf(table, op, k)];
    match o.kind
    case Addr =>
      if o.bits <= 30 && 0 <= a.number < U32_LIMIT {
        AddressIff(o.bits, a.number, memaddr, op.relative);
      }
    case Reg => LowIfSmall(a.number, o.bits);
    case Other => LowIfSmall(a.number, o.bits);
    case Spr => LowIfSmall(a.spr, o.bits);
    case Tbr => LowIfSmall(a.tbr, o.bits);
  }

  lemma LowIfSmall(v: int, n: nat)
    ensures 0 <= v < Pow2(n) ==> Low(v, n) == v
  {
    if 0 <= v < Pow2(n) {
      LowOfSmall(v, n);
    }
  }

  // ----- special purpose registers -----

  /** spr_value and spr_name exchange the two halves of the 10-bit register number. */
  function Swap(x: nat): nat {
    Or(Low(ShiftRight(x, 5), 5), ShiftLeft(Low(x, 5), 5))
  }

  lemma SwapBits(x: nat, i: nat)
    ensures Bit(Swap(x), i) == if i < 5 then Bit(x, i + 5) else if i < 10 then Bit(x, i - 5) else 0
  {
    OrBits(Low(ShiftRight(x, 5), 5), ShiftLeft(Low(x, 5), 5), i);
    LowBits(ShiftRight(x, 5), 5, i);
    ShiftRightBits(x, 5, i);
    ShiftLeftBits(Low(x, 5), 5, i);
    if i >= 5 {
      LowBits(x, 5, i - 5);
    }
  }

  /** Swapping twice gives back the register number. */
  lemma SwapTwice(x: nat)
    ensures Swap(Swap(x)) == Low(x, 10)
  {
    hide Swap, Low, Bit;
    forall i: nat
      ensures Bit(Swap(Swap(x)), i) == Bit(Low(x, 10), i)
    {
      SwapBits(Swap(x), i);
      SwapBits(x, i + 5);
      if i >= 5 {
        SwapBits(x, i - 5);
      }
      LowBits(x, 10, i);
    }
    SameBits(Swap(Swap(x)), Low(x, 10));
  }

  /** spr_value answers 0 both for "not found" and for every number whose low ten bits are 0, so asmppc
      refuses exactly those register numbers. */
  lemma RefusedRegisters(memaddr: u32, relative: bool, o: Operand, number: nat)
    requires o.kind == Spr && o.bits > 0
    ensures Parse(memaddr, relative, o, Arg(number, Swap(number), 0)).Bad? <==> Low(number, 10) == 0
  {
    SwapTwice(number);
    if Swap(number) == 0 {
      assert Swap(0) == 0 by {
        SwapTwice(0);
        forall i: nat
          ensures Bit(Swap(0), i) == Bit(0, i)
        {
          SwapBits(0, i);
          ZeroBits(i);
          ZeroBits(i + 5);
          if i >= 5 {
            ZeroBits(i - 5);
          }
        }
        SameBits(Swap(0), 0);
      }
    } else if Low(number, 10) == 0 {
      hide Swap, Low;
      forall i: nat
        ensures Bit(Swap(number), i) == Bit(0, i)
      {
        SwapBits(number, i);
        ZeroBits(i);
        LowBits(number, 10, i + 5);
        ZeroBits(i + 5);
        if i >= 5 {
          LowBits(number, 10, i - 5);
          ZeroBits(i - 5);
        }
      }
      SameBits(Swap(number), 0);
    }
  }
}
