/**
 What the names in the model of `mov` stand for, in numerals: effective addresses as in section 17.2.1 of the Intel
 80386 Programmer's Reference Manual, the aliasing of the register views, the order of bytes in memory, and the
 opcode bits. Nothing here refers to the functions that the interpreter computes with, except to state what they give.
 */
module X86Meaning {
  import opened Common
  import opened Words
  import Bits
  import opened X86Mov

  // ---------------------------------------------------------------- effective addresses

  /** The base register; none for mod 0 with number 5. */
  function BasePart(gpr: Gpr, mod: nat, base: Base): nat
    requires |gpr| == 8 && base.r < 8
  {
    if mod == 0 && base.r == 5 then 0 else gpr[base.r]
  }

  /** The index register shifted left by the scale; number 4 means no index. */
  function IndexPart(gpr: Gpr, base: Base): nat
    requires |gpr| == 8 && (base.Sib? ==> base.index < 8)
  {
    if base.Sib? && base.index != 4 then gpr[base.index] * Bits.Pow2(base.scale) else 0
  }

  /**
   a is the effective address, modulo 2^32. A one-byte displacement d reaches d bytes up when it is below 128 and
   256 - d bytes down otherwise.
   */
  ghost predicate Effective(gpr: Gpr, mod: nat, base: Base, disp: nat, a: nat)
    requires |gpr| == 8 && base.r < 8 && (base.Sib? ==> base.index < 8)
  {
    var sum := BasePart(gpr, mod, base) + IndexPart(gpr, base);
    && a < 0x1_0000_0000
    && (mod == 0 && base.r != 5 ==> a == sum % 0x1_0000_0000)
    && ((mod == 0 && base.r == 5) || mod == 2 ==> a == (sum + disp) % 0x1_0000_0000)
    && (mod == 1 && disp < 128 ==> (a as int - disp) % 0x1_0000_0000 == sum % 0x1_0000_0000)
    && (mod == 1 && disp >= 128 ==> (a + (256 - disp)) % 0x1_0000_0000 == sum % 0x1_0000_0000)
  }

  lemma AddressIsEffective(gpr: Gpr, m: RM)
    requires |gpr| == 8 && ValidRM(m) && m.Memory?
    ensures Effective(gpr, m.mod, m.base, m.disp, Address(gpr, m))
  {
    Scale(m.base);
    hide Bits.Pow2, Pow4;
    var sum: int := BasePart(gpr, m.mod, m.base) + IndexPart(gpr, m.base);
    var d: int := if m.mod == 1 then SignExtend8(m.disp) else m.disp;
    assert Address(gpr, m) == (sum + d) % 0x1_0000_0000;
    hide Address, BasePart, IndexPart;
    Back(sum, d);
  }

  lemma Scale(base: Base)
    requires base.Sib? ==> base.scale < 4
    ensures base.Sib? ==> Pow4(base.scale) == Bits.Pow2(base.scale)
  {
    assert Bits.Pow2(0) == 1 && Bits.Pow2(1) == 2 && Bits.Pow2(2) == 4 && Bits.Pow2(3) == 8;
  }

  lemma Back(sum: int, d: int)
    ensures ((sum + d) % 0x1_0000_0000 - d) % 0x1_0000_0000 == sum % 0x1_0000_0000
  {
    var m := 0x1_0000_0000;
    var q, r := (sum + d) / m, (sum + d) % m;
    assert r - d == sum - q * m;
  }

  // ---------------------------------------------------------------- operands of a decoded instruction

  /** The place that a ModR/M operand denotes. */
  ghost predicate Denotes(gpr: Gpr, m: RM, p: Place)
    requires |gpr| == 8 && ValidRM(m)
  {
    match m
    case Direct(r) => p == InReg(r)
    case Memory(mod, base, disp) => p.InMem? && Effective(gpr, mod, base, disp, p.a)
  }

  /** Where the moved value comes from and where it goes, form by form. */
  lemma OperandPlaces(gpr: Gpr, mem: seq<Byte>, f: Form, w: nat)
    requires |gpr| == 8 && Width(w) && ValidForm(f, w)
    ensures var target, source := Target(gpr, f, w), Source(gpr, mem, f, w);
            match f
            case G2E(m, reg) => Denotes(gpr, m, target) && source == Some(ReadReg(gpr, reg, w))
            case E2G(m, reg) => target == InReg(reg) && exists p: Place :: (p.InReg? ==> p.r < 8) && Denotes(gpr, m, p)
                                                                          && source == ReadPlace(gpr, mem, p, w)
            case O2A(a) => target == InReg(0) && source == ReadMem(mem, a, w)
            case A2O(a) => target == InMem(a) && source == Some(ReadReg(gpr, 0, w))
            case I2R(r, imm) => target == InReg(r) && source == Some(imm)
            case I2E(m, _, imm) => Denotes(gpr, m, target) && source == Some(imm)
  {
    hide ReadReg, ReadMem, Address, Effective;
    match f
    case G2E(m, _) => if m.Memory? { AddressIsEffective(gpr, m); }
    case E2G(m, _) =>
      if m.Memory? { AddressIsEffective(gpr, m); }
      assert Denotes(gpr, m, RMPlace(gpr, m));
    case I2E(m, _, _) => if m.Memory? { AddressIsEffective(gpr, m); }
    case _ =>
  }

  // ---------------------------------------------------------------- registers and memory

  /** ax is ah above al, eax is its upper half above ax, and so for the registers 1 to 3; the others have no byte views. */
  lemma Views(gpr: Gpr, r: nat)
    requires |gpr| == 8 && r < 8
    ensures ReadReg(gpr, r, 4) == gpr[r]
    ensures gpr[r] % 0x1_0000 == ReadReg(gpr, r, 2)
    ensures r < 4 ==> ReadReg(gpr, r, 2) == 0x100 * ReadReg(gpr, r + 4, 1) + ReadReg(gpr, r, 1)
  {
    if r < 4 { HalfOf(gpr[r]); }
  }

  lemma HalfOf(x: U32)
    ensures x % 0x1_0000 == 0x100 * (x / 0x100 % 0x100) + x % 0x100
  {
    SplitWord(x);
  }

  /** Writing a view leaves the rest of the 32-bit register and all other registers. */
  lemma WrittenViews(gpr: Gpr, r: nat, w: nat, v: nat, i: nat)
    requires |gpr| == 8 && r < 8 && Width(w) && i < 8 && v < Modulus(w)
    ensures w == 4 ==> WriteReg(gpr, r, w, v)[i] == if i == r then v else gpr[i]
    ensures w == 2 ==> WriteReg(gpr, r, w, v)[i] == if i == r then gpr[r] - gpr[r] % 0x1_0000 + v else gpr[i]
    ensures w == 1 && r < 4 ==> WriteReg(gpr, r, w, v)[i] == if i == r then gpr[r] - gpr[r] % 0x100 + v else gpr[i]
    ensures w == 1 && r >= 4 ==>
              WriteReg(gpr, r, w, v)[i] == if i == r - 4 then gpr[i] - gpr[i] % 0x1_0000 + 0x100 * v + gpr[i] % 0x100 else gpr[i]
  {
    var k := if w == 1 && r >= 4 then r - 4 else r;
    UpperPart(gpr[k]);
    SmallMod(v, w);
    if i != k {
      assert WriteReg(gpr, r, w, v)[i] == gpr[i];
    } else if w == 4 {
      assert WriteReg(gpr, r, w, v)[i] == v;
    }
  }

  lemma UpperPart(x: U32)
    ensures x / 0x1_0000 * 0x1_0000 == x - x % 0x1_0000 && x / 0x100 * 0x100 == x - x % 0x100
  {
  }

  /** The low half of a word in memory comes first, and so does the low byte of a half. */
  lemma LowFirst(mem: seq<Byte>, a: nat)
    ensures a + 1 <= |mem| ==> ReadMem(mem, a, 1) == Some(mem[a])
    ensures a + 2 <= |mem| ==> ReadMem(mem, a, 2) == Some(mem[a] as int + 0x100 * mem[a + 1] as int)
    ensures a + 4 <= |mem| ==>
              ReadMem(mem, a, 4) == Some(ReadMem(mem, a, 2).value + 0x1_0000 * ReadMem(mem, a + 2, 2).value)
  {
  }

  // ---------------------------------------------------------------- opcodes

  /**
   The opcode bits: bit 0 of 88-8B, A0-A3 and C6-C7 and bit 3 of B0-BF choose bytes (0) or words (1), bit 1 of 88-8B
   and of A0-A3 the direction, and the low bits of B0-BF the register. No other opcode is in the table.
   */
  lemma OpcodeBits(op: nat)
    ensures var row := TableRow(op);
            && (0x88 <= op <= 0x8b ==> row == Some(Row(if op / 2 % 2 == 0 then ShapeG2E else ShapeE2G, op % 2 == 0)))
            && (0xa0 <= op <= 0xa3 ==> row == Some(Row(if op / 2 % 2 == 0 then ShapeO2A else ShapeA2O, op % 2 == 0)))
            && (0xb0 <= op <= 0xbf ==> row == Some(Row(ShapeI2R(op - op / 8 * 8), op / 8 % 2 == 0)))
            && (0xc6 <= op <= 0xc7 ==> row == Some(Row(ShapeI2E, op % 2 == 0)))
            && (row.Some? <==> 0x88 <= op <= 0x8b || 0xa0 <= op <= 0xa3 || 0xb0 <= op <= 0xbf || 0xc6 <= op <= 0xc7)
  {
  }

  /** 8B 45 FC with ebp = 0x1000 loads eax from 0x0ffc. */
  lemma LoadBelowFrame(gpr: Gpr, mem: seq<Byte>, p: nat)
    requires |gpr| == 8 && gpr[5] == 0x1000 && p + 3 <= |mem| && mem[p..p + 3] == [0x8b, 0x45, 0xfc]
    ensures match ParseInstr(mem, p, false)
            case None => false
            case Some(i) =>
              && i.width == 4 && i.next == p + 3 && ValidForm(i.form, 4)
              && Target(gpr, i.form, 4) == InReg(0) && Source(gpr, mem, i.form, 4) == ReadMem(mem, 0x0ffc, 4)
  {
    var f := E2G(Memory(1, Plain(5), 0xfc), 0);
    assert Bytes(0xfc, 1) == [0xfc];
    assert Encode(0, false, f) == [0x8b, 0x45, 0xfc];
    assert Address(gpr, f.m) == 0x0ffc;
    hide Encode, Bytes, Address, ParseInstr, ReadMem;
    DecodeEncoded(mem, p, 0, false, f);
  }

  /** 66 89 84 8B 78 56 34 12 stores ax at ebx + 4 * ecx + 0x12345678. */
  lemma StoreIndexed(gpr: Gpr, mem: seq<Byte>, p: nat)
    requires |gpr| == 8 && p + 8 <= |mem| && mem[p..p + 8] == [0x66, 0x89, 0x84, 0x8b, 0x78, 0x56, 0x34, 0x12]
    ensures match ParseInstr(mem, p, false)
            case None => false
            case Some(i) =>
              && i.width == 2 && i.next == p + 8 && ValidForm(i.form, 2)
              && Target(gpr, i.form, 2) == InMem((gpr[3] as int + 4 * gpr[1] as int + 0x1234_5678) % 0x1_0000_0000)
              && Source(gpr, mem, i.form, 2) == Some(gpr[0] % 0x1_0000)
  {
    var f := G2E(Memory(2, Sib(3, 1, 2), 0x1234_5678), 0);
    StoredText();
    assert Address(gpr, f.m) == (gpr[3] as int + 4 * gpr[1] as int + 0x1234_5678) % 0x1_0000_0000;
    hide Encode, Bytes, Address, ParseInstr, ReadMem, LE;
    DecodeEncoded(mem, p, 1, false, f);
  }

  lemma StoredText()
    ensures Encode(1, false, G2E(Memory(2, Sib(3, 1, 2), 0x1234_5678), 0)) == [0x66, 0x89, 0x84, 0x8b, 0x78, 0x56, 0x34, 0x12]
  {
    assert Bytes(0x1234_5678, 4) == [0x78, 0x56, 0x34, 0x12];
    hide Bytes;
    assert seq(1, i => 0x66) == [0x66];
    assert EncodeRM(0, Memory(2, Sib(3, 1, 2), 0x1234_5678)) == [0x84, 0x8b, 0x78, 0x56, 0x34, 0x12];
  }
}
