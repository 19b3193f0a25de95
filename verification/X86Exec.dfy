/**
 The interpreter path of `mov` (nemu/src/isa/x86/decode.c, local-include/decode.h, exec/exec.c and
 memory/paddr.c): the decode state is filled step by step, operands hold pointers to their values, and
 `isa_exec_once` performs exactly what the decoded instruction stands for.
 */
module X86Exec {
  import opened Common
  import opened Words
  import opened X86Mov

  const PMEM_SIZE: nat := 128 * 1024 * 1024

  /** What an `rtlreg_t *` of the decode state points to. */
  datatype Ref = RegRef(r: nat) | OwnVal | Zero | Mbr

  datatype OpType = OpReg | OpMem | OpImm

  datatype Operand = Operand(kind: OpType, width: nat, reg: nat, preg: Ref, val: U32)

  datatype Outcome = Done | Outside | OtherInstruction

  class Interpreter {
    const pmem: array<Byte>
    var gpr: Gpr
    var pc: U32
    // the decode state
    var seqPc: nat
    var is16: bool
    var width: nat
    var src1: Operand
    var dest: Operand
    var mbase: Ref
    var mbr: U32
    var moff: U32

    ghost predicate Valid()
      reads this
    {
      pmem.Length == PMEM_SIZE && |gpr| == 8
    }

    constructor (memory: array<Byte>)
      requires memory.Length == PMEM_SIZE
      ensures Valid() && pmem == memory
    {
      pmem := memory;
      gpr := [0, 0, 0, 0, 0, 0, 0, 0];
      pc, seqPc, is16, width := 0, 0, false, 4;
      src1, dest := Operand(OpImm, 4, 0, OwnVal, 0), Operand(OpImm, 4, 0, OwnVal, 0);
      mbase, mbr, moff := Zero, 0, 0;
    }

    /** `*preg`. */
    function Deref(op: Operand): U32
      requires op.preg.RegRef? ==> op.preg.r < |gpr|
      reads this
    {
      if op.preg.RegRef? then gpr[op.preg.r] else if op.preg.OwnVal? then op.val else if op.preg.Mbr? then mbr else 0
    }

    /** `*mbase + moff`, the address a memory operand stands for. */
    function MemAddr(): U32
      requires mbase.RegRef? ==> mbase.r < |gpr|
      reads this
    {
      ((if mbase.RegRef? then gpr[mbase.r] else if mbase.Mbr? then mbr else 0) + moff) % 0x1_0000_0000
    }

    /** `paddr_read` inside pmem. */
    method ReadMemory(a: nat, w: nat) returns (v: Option<U32>)
      requires Valid() && Width(w)
      ensures v == ReadMem(pmem[..], a, w)
    {
      if a + w > pmem.Length {
        return None;
      }
      assert pmem[..][a..a + w] == pmem[a..a + w];
      v := Some(LE(pmem[a..a + w]));
    }

    /** `paddr_write` inside pmem: the bytes are stored in place. */
    method WriteMemory(a: nat, w: nat, v: U32) returns (ok: bool)
      requires Valid() && Width(w)
      modifies pmem
      ensures ok <==> a + w <= pmem.Length
      ensures ok ==> pmem[..] == WriteMem(old(pmem[..]), a, w, v)
      ensures !ok ==> pmem[..] == old(pmem[..])
    {
      if a + w > pmem.Length {
        return false;
      }
      var k := 0;
      while k < w
        invariant 0 <= k <= w
        invariant forall i :: 0 <= i < pmem.Length ==> pmem[i] == if a <= i < a + k then ByteOf(v, i - a) else old(pmem[i])
      {
        pmem[a + k] := ByteOf(v, k);
        k := k + 1;
      }
      ok := true;
    }

    /** `instr_fetch`. */
    method InstrFetch(n: nat) returns (v: Option<U32>)
      requires Valid() && Width(n)
      modifies this`seqPc
      ensures v == Fetch(pmem[..], old(seqPc), n)
      ensures seqPc == if v.Some? then old(seqPc) + n else old(seqPc)
    {
      v := ReadMemory(seqPc, n);
      if v.Some? {
        seqPc := seqPc + n;
      }
    }

    /** The SIB part of `load_addr`: base, index (-1 for none) and scale. */
    method LoadBase(rm: nat) returns (ok: bool, baseReg: nat, indexReg: int, scale: nat, ghost base: Base)
      requires Valid() && rm < 8
      modifies this`seqPc
      ensures ok <==> ParseBase(pmem[..], old(seqPc), rm).Some?
      ensures ok ==> ParseBase(pmem[..], old(seqPc), rm) == Some((base, seqPc))
      ensures ok ==> && base.r == baseReg < 8 && scale < 4 && (base.Plain? ==> base.r != ESP)
                     && (base.Sib? ==> base.index < 8 && base.scale == scale)
                     && indexReg == (if base.Sib? && base.index != ESP then base.index else -1)
    {
      baseReg, indexReg, scale, base := rm, -1, 0, Plain(rm);
      if rm == ESP {
        var s := InstrFetch(1);
        if s.None? {
          return false, baseReg, indexReg, scale, base;
        }
        var sib: nat := s.value;
        baseReg := sib % 8;
        scale := sib / 64;
        base := Sib(sib % 8, sib / 8 % 8, sib / 64);
        if sib / 8 % 8 != ESP {
          indexReg := sib / 8 % 8;
        }
      }
      ok := true;
    }

    /** The displacement part of `load_addr`. */
    method LoadDisp(mod: nat, baseReg: nat, ghost base: Base, ghost reg: nat) returns (ok: bool, noBase: bool, disp: U32)
      requires Valid() && mod < 3 && base.r == baseReg
      modifies this`seqPc
      ensures noBase <==> mod == 0 && baseReg == EBP
      ensures match ParseDisp(pmem[..], old(seqPc), reg, mod, base)
              case None => !ok
              case Some(x) =>
                && ok && seqPc == x.next && x.m.Memory? && x.m.mod == mod && x.m.base == base && x.reg == reg
                && x.m.disp < (var n := DispSize(mod, base.r); if n == 0 then 1 else if n == 1 then 256 else 0x1_0000_0000)
                && disp == (if mod == 1 then SignExtend8(x.m.disp) else x.m.disp) % 0x1_0000_0000
    {
      var dispSize := 4;
      noBase := false;
      if mod == 0 {
        if baseReg == EBP {
          noBase := true;
        } else {
          dispSize := 0;
        }
      } else if mod == 1 {
        dispSize := 1;
      }
      disp := 0;
      if dispSize != 0 {
        var d := InstrFetch(dispSize);
        if d.None? {
          return false, noBase, disp;
        }
        disp := if dispSize == 1 then SignExtend8(d.value) % 0x1_0000_0000 else d.value;
      }
      ok := true;
    }

    /** `load_addr`: base, index and displacement of a memory operand. */
    method LoadAddr(mod: nat, rm: nat, ghost reg: nat) returns (ok: bool)
      requires Valid() && mod < 3 && rm < 8
      modifies this`seqPc, this`mbase, this`mbr, this`moff
      ensures match ParseMem(pmem[..], old(seqPc), reg, mod, rm)
              case None => !ok
              case Some(x) =>
                && ok && seqPc == x.next && x.reg == reg && x.m.Memory? && ValidRM(x.m)
                && (mbase.RegRef? ==> mbase.r < 8)
                && MemAddr() == Address(gpr, x.m)
    {
      hide LE, Fetch, ParseBase, ParseDisp, SignExtend8, Pow4, Address;
      var baseReg, indexReg, scale;
      ghost var base;
      ok, baseReg, indexReg, scale, base := LoadBase(rm);
      if !ok {
        return;
      }
      var noBase, disp;
      ok, noBase, disp := LoadDisp(mod, baseReg, base, reg);
      if !ok {
        return;
      }
      ghost var m := ParseMem(pmem[..], old(seqPc), reg, mod, rm).value.m;
      SetAddress(noBase, baseReg, indexReg, scale, disp, m);
    }

    /** The last lines of `load_addr`: mbase, mbr and moff. */
    method SetAddress(noBase: bool, baseReg: nat, indexReg: int, scale: nat, disp: U32, ghost m: RM)
      requires Valid() && ValidRM(m) && m.Memory? && m.base.r == baseReg < 8
      requires noBase <==> m.mod == 0 && baseReg == EBP
      requires indexReg == (if m.base.Sib? && m.base.index != ESP then m.base.index else -1)
      requires m.base.Sib? ==> m.base.scale == scale
      requires disp == (if m.mod == 1 then SignExtend8(m.disp) else m.disp) % 0x1_0000_0000
      modifies this`mbase, this`mbr, this`moff
      ensures (mbase.RegRef? ==> mbase.r < 8) && MemAddr() == Address(gpr, m)
    {
      hide SignExtend8, Pow4, Address;
      ghost var d: int := if m.mod == 1 then SignExtend8(m.disp) else m.disp;
      ghost var b: int := if noBase then 0 else gpr[baseReg];
      ghost var x: int := if indexReg != -1 then gpr[indexReg] * Pow4(scale) else 0;
      AddressByParts(gpr, m, b, x, d);
      mbase := if noBase then Zero else RegRef(baseReg);
      moff := disp;
      if indexReg != -1 {
        var scaled := gpr[indexReg] * Pow4(scale) % 0x1_0000_0000;
        mbr := ((if noBase then 0 else gpr[baseReg]) + scaled) % 0x1_0000_0000;
        mbase := Mbr;
      }
    }

    /** `operand_reg`: a 32-bit operand points into the register file, a narrower one holds a copy. */
    method OperandReg(load: bool, r: nat, w: nat) returns (op: Operand)
      requires Valid() && r < 8 && Width(w)
      ensures op.kind == OpReg && op.reg == r && op.width == w
      ensures op.preg == (if w == 4 then RegRef(r) else OwnVal)
      ensures load ==> Deref(op) == ReadReg(gpr, r, w)
    {
      op := if w == 4 then Operand(OpReg, w, r, RegRef(r), 0)
            else Operand(OpReg, w, r, OwnVal, if load then ReadReg(gpr, r, w) else 0);
    }

    /** The operand stands for this R/M. */
    ghost predicate Denotes(op: Operand, m: RM, w: nat)
      requires Valid() && ValidRM(m)
      reads this
    {
      && op.width == w
      && (m.Direct? ==> op.kind == OpReg && op.reg == m.r)
      && (m.Memory? ==> op.kind == OpMem && (mbase.RegRef? ==> mbase.r < 8) && MemAddr() == Address(gpr, m))
      && (op.preg.RegRef? ==> op.preg.r < 8)
    }

    /** `read_ModR_M`. */
    method ReadModRM(loadRm: bool, loadReg: bool, w: nat) returns (ok: bool, rm: Operand, reg: Operand)
      requires Valid() && Width(w)
      modifies this`seqPc, this`mbase, this`mbr, this`moff
      ensures match ParseRM(pmem[..], old(seqPc))
              case None => !ok
              case Some(x) =>
                && x.reg < 8 && ValidRM(x.m)
                && (ok <==> !loadRm || LoadRM(gpr, pmem[..], x.m, w).Some?)
                && (ok ==> && seqPc == x.next
                           && reg.kind == OpReg && reg.reg == x.reg && reg.width == w
                           && (reg.preg.RegRef? ==> reg.preg.r < 8)
                           && (loadReg ==> Deref(reg) == ReadReg(gpr, x.reg, w))
                           && Denotes(rm, x.m, w)
                           && (loadRm ==> Some(Deref(rm)) == LoadRM(gpr, pmem[..], x.m, w)))
    {
      hide LE, Fetch, ParseMem, Address, ReadMem, ReadReg;
      rm, reg := Operand(OpMem, w, 0, OwnVal, 0), Operand(OpReg, w, 0, OwnVal, 0);
      ByteRange(pmem[..], seqPc);
      var b := InstrFetch(1);
      if b.None? {
        return false, rm, reg;
      }
      var m: nat := b.value;
      reg := OperandReg(loadReg, m / 8 % 8, w);
      if m / 64 == 3 {
        rm := OperandReg(loadRm, m % 8, w);
        ok := true;
      } else {
        ok := LoadAddr(m / 64, m % 8, m / 8 % 8);
        if ok && loadRm {
          var v := ReadMemory(MemAddr(), w);
          if v.None? {
            return false, rm, reg;
          }
          rm := Operand(OpMem, w, 0, OwnVal, v.value);
        }
      }
    }

    /** `operand_write`. */
    method OperandWrite(op: Operand, v: U32) returns (ok: bool)
      requires Valid() && Width(op.width) && (op.kind == OpReg || op.kind == OpMem)
      requires op.kind == OpReg ==> op.reg < 8
      requires op.kind == OpMem ==> (mbase.RegRef? ==> mbase.r < 8)
      modifies this`gpr, pmem
      ensures Valid()
      ensures op.kind == OpReg ==> ok && gpr == WriteReg(old(gpr), op.reg, op.width, v) && pmem[..] == old(pmem[..])
      ensures op.kind == OpMem ==>
                && gpr == old(gpr)
                && (ok <==> old(MemAddr()) + op.width <= pmem.Length)
                && (ok ==> pmem[..] == WriteMem(old(pmem[..]), old(MemAddr()), op.width, v))
    {
      if op.kind == OpReg {
        gpr := WriteReg(gpr, op.reg, op.width, v);
        ok := true;
      } else {
        ok := WriteMemory(MemAddr(), op.width, v);
      }
    }

    /** `exec_mov` after a decode helper with an R/M destination. */
    method WriteRM(op: Operand, v: U32, ghost m: RM, w: nat) returns (ok: bool)
      requires Valid() && Width(w) && ValidRM(m) && Denotes(op, m, w)
      modifies this`gpr, pmem
      ensures Valid()
      ensures match StoreRM(old(gpr), old(pmem[..]), m, w, v)
              case None => !ok
              case Some(e) => ok && gpr == e.gpr && pmem[..] == e.mem
    {
      hide WriteReg, Address, Bytes;
      ok := OperandWrite(op, v);
    }

    /** A row of the opcode table: decode the operands, then move. */
    method DecodeAndMove(shape: Shape, w: nat) returns (ok: bool)
      requires Valid() && Width(w) && (shape.ShapeI2R? ==> shape.r < 8)
      modifies this`gpr, this`seqPc, this`src1, this`dest, this`mbase, this`mbr, this`moff, pmem
      ensures Valid()
      ensures match ParseOperands(old(pmem[..]), old(seqPc), shape, w)
              case None => !ok
              case Some(i) =>
                && i.width == w && ValidForm(i.form, w)
                && match Move(old(gpr), old(pmem[..]), i.form, w)
                   case None => !ok
                   case Some(e) => ok && gpr == e.gpr && pmem[..] == e.mem && seqPc == i.next
    {
      hide ParseOperands, Move, Bytes;
      if shape.ShapeG2E? || shape.ShapeE2G? || shape.ShapeI2E? {
        ok := MoveModRM(shape, w);
      } else {
        ok := MoveDirect(shape, w);
      }
    }

    /** The rows with a ModR/M byte. */
    method MoveModRM(shape: Shape, w: nat) returns (ok: bool)
      requires Valid() && Width(w) && (shape.ShapeG2E? || shape.ShapeE2G? || shape.ShapeI2E?)
      modifies this`gpr, this`seqPc, this`src1, this`dest, this`mbase, this`mbr, this`moff, pmem
      ensures Valid()
      ensures match ParseOperands(old(pmem[..]), old(seqPc), shape, w)
              case None => !ok
              case Some(i) =>
                && i.width == w && ValidForm(i.form, w)
                && match Move(old(gpr), old(pmem[..]), i.form, w)
                   case None => !ok
                   case Some(e) => ok && gpr == e.gpr && pmem[..] == e.mem && seqPc == i.next
    {
      hide LE, Fetch, ParseRM, Address, ReadReg, WriteReg, ReadMem, WriteMem, StoreRM, LoadRM, Bytes;
      OperandsRange(pmem[..], seqPc, w);
      match shape {
        case ShapeG2E =>
          ok, dest, src1 := ReadModRM(false, true, w);
          if ok {
            ok := WriteRM(dest, Deref(src1), ParseRM(pmem[..], old(seqPc)).value.m, w);
          }
        case ShapeE2G =>
          ok, src1, dest := ReadModRM(true, false, w);
          if ok {
            ok := OperandWrite(dest, Deref(src1));
          }
        case ShapeI2E =>
          ok, dest, src1 := ReadModRM(false, false, w);
          if ok {
            ghost var m := ParseRM(pmem[..], old(seqPc)).value.m;
            ok := DecodeI(w);
            if ok {
              ok := WriteRM(dest, Deref(src1), m, w);
            }
          }
      }
    }

    /** The rows with an absolute address or a register number in the opcode. */
    method MoveDirect(shape: Shape, w: nat) returns (ok: bool)
      requires Valid() && Width(w)
      requires shape.ShapeO2A? || shape.ShapeA2O? || (shape.ShapeI2R? && shape.r < 8)
      modifies this`gpr, this`seqPc, this`src1, this`dest, this`mbase, this`mbr, this`moff, pmem
      ensures Valid()
      ensures match ParseOperands(old(pmem[..]), old(seqPc), shape, w)
              case None => !ok
              case Some(i) =>
                && i.width == w && ValidForm(i.form, w)
                && match Move(old(gpr), old(pmem[..]), i.form, w)
                   case None => !ok
                   case Some(e) => ok && gpr == e.gpr && pmem[..] == e.mem && seqPc == i.next
    {
      hide LE, Fetch, ParseRM, Address, ReadReg, WriteReg, ReadMem, WriteMem, StoreRM, LoadRM, Bytes;
      OperandsRange(pmem[..], seqPc, w);
      match shape {
        case ShapeO2A =>
          ok := DecodeO(w);
          if ok {
            var v := ReadMemory(MemAddr(), w);
            if v.None? {
              return false;
            }
            src1 := Operand(OpMem, w, 0, OwnVal, v.value);
            dest := OperandReg(false, 0, w);
            ok := OperandWrite(dest, Deref(src1));
          }
        case ShapeA2O =>
          src1 := OperandReg(true, 0, w);
          ok := DecodeO(w);
          if ok {
            dest := Operand(OpMem, w, 0, OwnVal, 0);
            ok := OperandWrite(dest, Deref(src1));
          }
        case ShapeI2R(r) =>
          dest := OperandReg(false, r, w);
          ok := DecodeI(w);
          if ok {
            ok := OperandWrite(dest, Deref(src1));
          }
      }
    }

    /** `decode_op_O`: an absolute address. */
    method DecodeO(w: nat) returns (ok: bool)
      requires Valid()
      modifies this`seqPc, this`mbase, this`moff
      ensures match Fetch(pmem[..], old(seqPc), 4)
              case None => !ok
              case Some(a) => ok && seqPc == old(seqPc) + 4 && mbase == Zero && MemAddr() == a
    {
      var a := InstrFetch(4);
      if a.None? {
        return false;
      }
      moff, mbase := a.value, Zero;
      ok := true;
    }

    /** `decode_op_I`: an immediate of the operand width. */
    method DecodeI(w: nat) returns (ok: bool)
      requires Valid() && Width(w)
      modifies this`seqPc, this`src1
      ensures match Fetch(pmem[..], old(seqPc), w)
              case None => !ok
              case Some(v) => ok && seqPc == old(seqPc) + w && src1.preg == OwnVal && Deref(src1) == v
    {
      var v := InstrFetch(w);
      if v.None? {
        return false;
      }
      src1 := Operand(OpImm, w, 0, OwnVal, v.value);
      ok := true;
    }

    /** `fetch_decode_exec` with its prefix loop, and `isa_exec_once` around it. */
    method IsaExecOnce() returns (r: Outcome)
      requires Valid()
      modifies this, pmem
      ensures Valid()
      ensures match ParseInstr(old(pmem[..]), old(pc), false)
              case None =>
                r == (match OpcodeAt(old(pmem[..]), old(pc))
                      case None => Outside
                      case Some(op) => if TableRow(op).None? then OtherInstruction else Outside)
              case Some(i) =>
                && Width(i.width) && ValidForm(i.form, i.width)
                && match Move(old(gpr), old(pmem[..]), i.form, i.width)
                   case None => r == Outside
                   case Some(e) => r == Done && gpr == e.gpr && pmem[..] == e.mem && pc == i.next
    {
      hide LE, ParseOperands, Move, TableRow;
      ParsedValid(pmem[..], pc, false);
      is16 := false;
      seqPc := pc;
      while true
        invariant Valid() && gpr == old(gpr) && pmem[..] == old(pmem[..]) && pc == old(pc)
        invariant ParseInstr(old(pmem[..]), old(pc), false) == ParseInstr(pmem[..], seqPc, is16)
        invariant OpcodeAt(old(pmem[..]), old(pc)) == OpcodeAt(pmem[..], seqPc)
        decreases pmem.Length - seqPc
      {
        FetchOpcode(pmem[..], seqPc);
        var op := InstrFetch(1);
        if op.None? {
          return Outside;
        }
        if op.value != 0x66 {
          var row := TableRow(op.value);
          if row.None? {
            return OtherInstruction;
          }
          RowRegister(op.value);
          width := RowWidth(row.value, is16);
          var ok := DecodeAndMove(row.value.shape, width);
          if !ok {
            return Outside;
          }
          pc := seqPc;
          return Done;
        }
        is16 := true;
      }
    }
  }

  lemma FetchOpcode(mem: seq<Byte>, p: nat)
    ensures Fetch(mem, p, 1) == if p < |mem| then Some(mem[p]) else None
  {
    if p < |mem| { FetchByte(mem, p); }
  }

  lemma RowRegister(op: nat)
    ensures var row := TableRow(op); row.Some? && row.value.shape.ShapeI2R? ==> row.value.shape.r < 8
  {
  }

  lemma ByteRange(mem: seq<Byte>, p: nat)
    ensures var b := Fetch(mem, p, 1); b.Some? ==> b.value < 256
    ensures var x := ParseRM(mem, p); x.Some? ==> x.value.reg < 8 && ValidRM(x.value.m)
  {
    if p <= |mem| {
      ParsedRMValid(mem, p);
    }
  }

  /** Immediates and addresses fit their width. */
  lemma OperandsRange(mem: seq<Byte>, p: nat, w: nat)
    requires Width(w)
    ensures forall q: nat, n: nat {:trigger Fetch(mem, q, n)} :: Width(n) && Fetch(mem, q, n).Some? ==> Fetch(mem, q, n).value < Modulus(n)
    ensures var x := ParseRM(mem, p); x.Some? ==> x.value.reg < 8 && ValidRM(x.value.m)
  {
    ByteRange(mem, p);
  }

  /** Wrapping after every addition or only at the end gives the same address. */
  lemma WrapSum(b: int, x: int, d: int)
    ensures ((b + x % 0x1_0000_0000) % 0x1_0000_0000 + d % 0x1_0000_0000) % 0x1_0000_0000 == (b + x + d) % 0x1_0000_0000
    ensures (b + d % 0x1_0000_0000) % 0x1_0000_0000 == (b + d) % 0x1_0000_0000
  {
    var m := 0x1_0000_0000;
    WrapRight(b, d);
    WrapRight(b, x);
    WrapRight((b + x) % m, d);
    WrapRight(d, b + x);
    assert (b + x) % m + d == d + (b + x) % m && d + (b + x) == b + x + d;
  }

  /** The address of a memory operand, wrapped after each addition. */
  lemma AddressByParts(gpr: Gpr, m: RM, b: int, x: int, d: int)
    requires |gpr| == 8 && ValidRM(m) && m.Memory?
    requires b == if m.mod == 0 && m.base.r == EBP then 0 else gpr[m.base.r]
    requires x == if m.base.Sib? && m.base.index != ESP then gpr[m.base.index] * Pow4(m.base.scale) else 0
    requires d == if m.mod == 1 then SignExtend8(m.disp) else m.disp
    ensures Address(gpr, m) == ((b + x % 0x1_0000_0000) % 0x1_0000_0000 + d % 0x1_0000_0000) % 0x1_0000_0000
    ensures x == 0 ==> Address(gpr, m) == (b + d % 0x1_0000_0000) % 0x1_0000_0000
  {
    hide SignExtend8, Pow4;
    WrapSum(b, x, d);
  }

  lemma WrapRight(b: int, d: int)
    ensures (b + d % 0x1_0000_0000) % 0x1_0000_0000 == (b + d) % 0x1_0000_0000
  {
    var m := 0x1_0000_0000;
    var q, s := d / m, b + d % m;
    assert d == q * m + d % m && s == s / m * m + s % m;
    SameRest(b + d, s / m + q, s % m);
  }

  lemma SameRest(n: int, q: int, r: int)
    requires n == q * 0x1_0000_0000 + r && 0 <= r < 0x1_0000_0000
    ensures n % 0x1_0000_0000 == r
  {
  }

  // ---------------------------------------------------------------- the theorem about encoded instructions

  /**
   For every `mov` form, width, number of prefixes and choice of operands: running the interpreter on the
   encoding performs exactly the move and advances pc by the length of the encoding.
   */
  method ExecuteEncoded(cpu: Interpreter, prefixes: nat, byteForm: bool, f: Form) returns (r: Outcome)
    requires cpu.Valid() && ValidForm(f, OperandWidth(prefixes, byteForm))
    requires var e := Encode(prefixes, byteForm, f);
             cpu.pc + |e| <= PMEM_SIZE && cpu.pmem[cpu.pc..cpu.pc + |e|] == e
    modifies cpu, cpu.pmem
    ensures cpu.Valid()
    ensures match Move(old(cpu.gpr), old(cpu.pmem[..]), f, OperandWidth(prefixes, byteForm))
            case None => r == Outside
            case Some(e) =>
              && r == Done && cpu.gpr == e.gpr && cpu.pmem[..] == e.mem
              && cpu.pc == old(cpu.pc) + |Encode(prefixes, byteForm, f)|
              && ReadPlace(cpu.gpr, cpu.pmem[..], Target(old(cpu.gpr), f, OperandWidth(prefixes, byteForm)), OperandWidth(prefixes, byteForm))
              == Source(old(cpu.gpr), old(cpu.pmem[..]), f, OperandWidth(prefixes, byteForm))
  {
    MoveDelivers(cpu.gpr, cpu.pmem[..], f, OperandWidth(prefixes, byteForm));
    hide Encode, Move, ParseInstr, ReadPlace, Source, Target;
    ghost var mem, p, n := cpu.pmem[..], cpu.pc, |Encode(prefixes, byteForm, f)|;
    assert mem[p..p + n] == cpu.pmem[p..p + n];
    DecodeEncoded(mem, p, prefixes, byteForm, f);
    r := cpu.IsaExecOnce();
  }
}
