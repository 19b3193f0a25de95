/**
 The `mov` instructions of the x86 interpreter: their encodings (ModR/M and SIB as in section 17.2.1 of
 the Intel 80386 Programmer's Reference Manual), what they move, and a decoder over byte memory.
 Registers have aliased 8-, 16- and 32-bit views; memory is little-endian.
 */
module X86Mov {

  import opened Common
  import opened Words

  // ---------------------------------------------------------------- registers

  type Gpr = seq<U32>

  /** Byte j of register i: the finest view of the register file. */
  function RegByte(gpr: Gpr, i: nat, j: nat): Byte
    requires i < |gpr| && j < 4
  {
    if j == 0 then gpr[i] % 256 else if j == 1 then gpr[i] / 256 % 256
    else if j == 2 then gpr[i] / 65536 % 256 else gpr[i] / 16777216
  }

  /** `reg_l`, `reg_w` and `reg_b`, read. */
  function ReadReg(gpr: Gpr, r: nat, w: nat): (v: U32)
    requires |gpr| == 8 && r < 8 && Width(w)
    ensures v < Modulus(w)
  {
    if w == 4 then gpr[r]
    else if w == 2 then gpr[r] % 65536
    else if r < 4 then gpr[r] % 256 else gpr[r - 4] / 256 % 256
  }

  /** The same views, written. */
  function WriteReg(gpr: Gpr, r: nat, w: nat, v: nat): (g: Gpr)
    requires |gpr| == 8 && r < 8 && Width(w)
    ensures |g| == 8
  {
    var x := if w == 1 && r >= 4 then gpr[r - 4] else gpr[r];
    WriteRange(x, v % 65536, v % 256);
    if w == 4 then gpr[r := v % 0x1_0000_0000]
    else if w == 2 then gpr[r := x / 65536 * 65536 + v % 65536]
    else if r < 4 then gpr[r := x / 256 * 256 + v % 256]
    else gpr[r - 4 := x / 65536 * 65536 + v % 256 * 256 + x % 256]
  }

  lemma WriteRange(x: U32, half: nat, b: Byte)
    requires half < 65536
    ensures 0 <= x / 65536 * 65536 + half < 0x1_0000_0000
    ensures 0 <= x / 256 * 256 + b < 0x1_0000_0000
    ensures 0 <= x / 65536 * 65536 + b * 256 + x % 256 < 0x1_0000_0000
  {
    var h, t := x / 65536, x / 256;
    assert 0 <= h < 65536 && 0 <= t < 16777216;
  }

  /** Byte j of register i belongs to the view (r, w), as byte number At of it. */
  predicate Covers(r: nat, w: nat, i: nat, j: nat)
  {
    if w == 1 then i == r % 4 && j == r / 4 else i == r && j < w
  }

  function At(w: nat, j: nat): nat
  {
    if w == 1 then 0 else j
  }

  lemma JoinWord(b0: Byte, b1: Byte, b2: Byte, b3: Byte)
    ensures var x := b0 as int + 256 * b1 as int + 65536 * b2 as int + 16777216 * b3 as int;
            0 <= x < 0x1_0000_0000 && x % 256 == b0 && x / 256 % 256 == b1 && x / 65536 % 256 == b2 && x / 16777216 == b3
  {
    var x := b0 as int + 256 * b1 as int + 65536 * b2 as int + 16777216 * b3 as int;
    assert x / 256 == b1 as int + 256 * b2 as int + 65536 * b3 as int;
    assert x / 65536 == b2 as int + 256 * b3 as int;
    assert x / 16777216 == b3;
  }

  /** Writing a view changes exactly the bytes of that view. */
  lemma WriteRegBytes(gpr: Gpr, r: nat, w: nat, v: nat, i: nat, j: nat)
    requires |gpr| == 8 && r < 8 && Width(w) && i < 8 && j < 4
    ensures RegByte(WriteReg(gpr, r, w, v), i, j)
         == if Covers(r, w, i, j) then ByteOf(v, At(w, j)) else RegByte(gpr, i, j)
  {
    if i == (if w == 1 then r % 4 else r) {
      if w == 1 {
        WrittenByte(gpr, r, v, j);
      } else if w == 2 {
        WrittenHalf(gpr, r, v, j);
      } else {
        LowBytes(v);
      }
    }
  }

  lemma WrittenByte(gpr: Gpr, r: nat, v: nat, j: nat)
    requires |gpr| == 8 && r < 8 && j < 4
    ensures RegByte(WriteReg(gpr, r, 1, v), r % 4, j) == if j == r / 4 then v % 256 else RegByte(gpr, r % 4, j)
  {
    var x := gpr[r % 4];
    if r < 4 {
      ReplaceByte0(x, v % 256);
    } else {
      ReplaceByte1(x, v % 256);
    }
  }

  lemma WrittenHalf(gpr: Gpr, r: nat, v: nat, j: nat)
    requires |gpr| == 8 && r < 8 && j < 4
    ensures RegByte(WriteReg(gpr, r, 2, v), r, j) == if j < 2 then ByteOf(v, j) else RegByte(gpr, r, j)
  {
    LowHalf(v);
    ReplaceHalf(gpr[r], v % 256, v / 256 % 256);
  }

  lemma ReplaceByte0(x: U32, b: Byte)
    ensures var y := x / 256 * 256 + b;
            0 <= y < 0x1_0000_0000 && y % 256 == b && y / 256 == x / 256 && y / 65536 == x / 65536 && y / 16777216 == x / 16777216
  {
    SplitWord(x);
    JoinWord(b, x / 256 % 256, x / 65536 % 256, x / 16777216);
  }

  lemma ReplaceByte1(x: U32, b: Byte)
    ensures var y := x / 65536 * 65536 + b * 256 + x % 256;
            && 0 <= y < 0x1_0000_0000 && y % 256 == x % 256 && y / 256 % 256 == b
            && y / 65536 == x / 65536 && y / 16777216 == x / 16777216
  {
    SplitWord(x);
    JoinWord(x % 256, b, x / 65536 % 256, x / 16777216);
  }

  lemma ReplaceHalf(x: U32, b0: Byte, b1: Byte)
    ensures var y := x / 65536 * 65536 + b0 as int + 256 * b1 as int;
            && 0 <= y < 0x1_0000_0000 && y % 256 == b0 && y / 256 % 256 == b1
            && y / 65536 == x / 65536 && y / 16777216 == x / 16777216
  {
    SplitWord(x);
    JoinWord(b0, b1, x / 65536 % 256, x / 16777216);
  }

  /** Reading a view gives the value of exactly its bytes. */
  lemma ReadRegBytes(gpr: Gpr, r: nat, w: nat)
    requires |gpr| == 8 && r < 8 && Width(w)
    ensures w == 1 ==> ReadReg(gpr, r, w) == RegByte(gpr, r % 4, r / 4)
    ensures w == 2 ==> ReadReg(gpr, r, w) == LE([RegByte(gpr, r, 0), RegByte(gpr, r, 1)])
    ensures w == 4 ==> ReadReg(gpr, r, w) == LE([RegByte(gpr, r, 0), RegByte(gpr, r, 1), RegByte(gpr, r, 2), RegByte(gpr, r, 3)])
  {
    if w > 1 {
      SplitWord(gpr[r]);
    }
  }

  // ---------------------------------------------------------------- memory

  /** `pmem_read` inside the physical memory; None outside, where devices would answer. */
  function ReadMem(mem: seq<Byte>, a: nat, w: nat): (r: Option<U32>)
    requires Width(w)
  {
    if a + w <= |mem| then Some(LE(mem[a..a + w])) else None
  }

  /** `pmem_write`. */
  function WriteMem(mem: seq<Byte>, a: nat, w: nat, v: nat): (m: seq<Byte>)
    requires Width(w) && a + w <= |mem|
    ensures |m| == |mem|
    ensures forall k :: 0 <= k < |mem| ==> m[k] == if a <= k < a + w then Bytes(v, w)[k - a] else mem[k]
  {
    mem[..a] + Bytes(v, w) + mem[a + w..]
  }

  // ---------------------------------------------------------------- operands

  const ESP: nat := 4
  const EBP: nat := 5

  /** The base part of a memory operand: a register in R/M, or a SIB byte. */
  datatype Base = Plain(r: nat) | Sib(r: nat, index: nat, scale: nat)

  /** Direct is mod = 3; otherwise mod, base and the raw displacement (0 when there is none). */
  datatype RM = Direct(r: nat) | Memory(mod: nat, base: Base, disp: nat)

  /** Bytes of displacement that follow. */
  function DispSize(mod: nat, base: nat): nat
  {
    if mod == 0 then (if base == EBP then 4 else 0) else if mod == 1 then 1 else 4
  }

  predicate ValidRM(m: RM)
  {
    match m
    case Direct(r) => r < 8
    case Memory(mod, base, disp) =>
      && mod < 3
      && base.r < 8
      && (base.Plain? ==> base.r != ESP)
      && (base.Sib? ==> base.index < 8 && base.scale < 4)
      && disp < (var n := DispSize(mod, base.r); if n == 0 then 1 else if n == 1 then 256 else 0x1_0000_0000)
  }

  function Pow4(s: nat): nat
  {
    if s == 0 then 1 else if s == 1 then 2 else if s == 2 then 4 else 8
  }

  function SignExtend8(d: nat): int
  {
    if d >= 128 then d - 256 else d
  }

  /** The address of a memory operand: base + index * scale + displacement, modulo 2^32. */
  function Address(gpr: Gpr, m: RM): U32
    requires |gpr| == 8 && ValidRM(m) && m.Memory?
  {
    var b: int := if m.mod == 0 && m.base.r == EBP then 0 else gpr[m.base.r];
    var x: int := if m.base.Sib? && m.base.index != ESP then gpr[m.base.index] * Pow4(m.base.scale) else 0;
    var d: int := if m.mod == 1 then SignExtend8(m.disp) else m.disp;
    (b + x + d) % 0x1_0000_0000
  }

  function EncodeRM(reg: nat, m: RM): seq<Byte>
    requires reg < 8 && ValidRM(m)
  {
    match m
    case Direct(r) => [192 + 8 * reg + r]
    case Memory(mod, base, disp) =>
      var tail := Bytes(disp, DispSize(mod, base.r));
      if base.Plain? then [64 * mod + 8 * reg + base.r] + tail
      else [64 * mod + 8 * reg + ESP, 64 * base.scale + 8 * base.index + base.r] + tail
  }

  // ---------------------------------------------------------------- instructions

  /** The `mov` rows of the opcode table. `ext` is the register field that "C6/C7" ignores. */
  datatype Form =
    | G2E(m: RM, reg: nat)
    | E2G(m: RM, reg: nat)
    | O2A(addr: nat)
    | A2O(addr: nat)
    | I2R(r: nat, imm: nat)
    | I2E(m: RM, ext: nat, imm: nat)

  predicate ValidForm(f: Form, w: nat)
    requires Width(w)
  {
    match f
    case G2E(m, reg) => ValidRM(m) && reg < 8
    case E2G(m, reg) => ValidRM(m) && reg < 8
    case O2A(a) => a < 0x1_0000_0000
    case A2O(a) => a < 0x1_0000_0000
    case I2R(r, imm) => r < 8 && imm < Modulus(w)
    case I2E(m, ext, imm) => ValidRM(m) && ext < 8 && imm < Modulus(w)
  }

  function Opcode(f: Form, byteForm: bool): Byte
    requires f.I2R? ==> f.r < 8
  {
    match f
    case G2E(_, _) => if byteForm then 0x88 else 0x89
    case E2G(_, _) => if byteForm then 0x8a else 0x8b
    case O2A(_) => if byteForm then 0xa0 else 0xa1
    case A2O(_) => if byteForm then 0xa2 else 0xa3
    case I2R(r, _) => if byteForm then 0xb0 + r else 0xb8 + r
    case I2E(_, _, _) => if byteForm then 0xc6 else 0xc7
  }

  /** The bytes after the opcode. */
  function Tail(f: Form, w: nat): seq<Byte>
    requires Width(w) && ValidForm(f, w)
  {
    match f
    case G2E(m, reg) => EncodeRM(reg, m)
    case E2G(m, reg) => EncodeRM(reg, m)
    case O2A(a) => Bytes(a, 4)
    case A2O(a) => Bytes(a, 4)
    case I2R(_, imm) => Bytes(imm, w)
    case I2E(m, ext, imm) => EncodeRM(ext, m) + Bytes(imm, w)
  }

  /** Any number of operand-size prefixes: they select 16 bits, except for the byte forms. */
  function OperandWidth(prefixes: nat, byteForm: bool): nat
  {
    if byteForm then 1 else if prefixes > 0 then 2 else 4
  }

  function Encode(prefixes: nat, byteForm: bool, f: Form): (s: seq<Byte>)
    requires ValidForm(f, OperandWidth(prefixes, byteForm))
  {
    seq(prefixes, i => 0x66) + [Opcode(f, byteForm)] + Tail(f, OperandWidth(prefixes, byteForm))
  }

  // ---------------------------------------------------------------- effect

  datatype Effect = Effect(gpr: Gpr, mem: seq<Byte>)

  /** Value of an E operand. */
  function LoadRM(gpr: Gpr, mem: seq<Byte>, m: RM, w: nat): Option<U32>
    requires |gpr| == 8 && ValidRM(m) && Width(w)
  {
    if m.Direct? then Some(ReadReg(gpr, m.r, w)) else ReadMem(mem, Address(gpr, m), w)
  }

  function StoreRM(gpr: Gpr, mem: seq<Byte>, m: RM, w: nat, v: nat): Option<Effect>
    requires |gpr| == 8 && ValidRM(m) && Width(w)
  {
    if m.Direct? then Some(Effect(WriteReg(gpr, m.r, w, v), mem))
    else Store(gpr, mem, Address(gpr, m), w, v)
  }

  function Store(gpr: Gpr, mem: seq<Byte>, a: nat, w: nat, v: nat): Option<Effect>
    requires Width(w)
  {
    if a + w <= |mem| then Some(Effect(gpr, WriteMem(mem, a, w, v))) else None
  }

  /** What the instruction moves; None when it touches memory outside pmem. */
  function Move(gpr: Gpr, mem: seq<Byte>, f: Form, w: nat): Option<Effect>
    requires |gpr| == 8 && Width(w) && ValidForm(f, w)
  {
    match f
    case G2E(m, reg) => StoreRM(gpr, mem, m, w, ReadReg(gpr, reg, w))
    case E2G(m, reg) =>
      (match LoadRM(gpr, mem, m, w) case None => None case Some(v) => Some(Effect(WriteReg(gpr, reg, w, v), mem)))
    case O2A(a) =>
      (match ReadMem(mem, a, w) case None => None case Some(v) => Some(Effect(WriteReg(gpr, 0, w, v), mem)))
    case A2O(a) => Store(gpr, mem, a, w, ReadReg(gpr, 0, w))
    case I2R(r, imm) => Some(Effect(WriteReg(gpr, r, w, imm), mem))
    case I2E(m, _, imm) => StoreRM(gpr, mem, m, w, imm)
  }

  /** Where an instruction writes. */
  datatype Place = InReg(r: nat) | InMem(a: nat)

  function Target(gpr: Gpr, f: Form, w: nat): (p: Place)
    requires |gpr| == 8 && Width(w) && ValidForm(f, w)
    ensures p.InReg? ==> p.r < 8
  {
    match f
    case G2E(m, _) => RMPlace(gpr, m)
    case E2G(_, reg) => InReg(reg)
    case O2A(_) => InReg(0)
    case A2O(a) => InMem(a)
    case I2R(r, _) => InReg(r)
    case I2E(m, _, _) => RMPlace(gpr, m)
  }

  function RMPlace(gpr: Gpr, m: RM): (p: Place)
    requires |gpr| == 8 && ValidRM(m)
    ensures p.InReg? ==> p.r < 8
  {
    if m.Direct? then InReg(m.r) else InMem(Address(gpr, m))
  }

  function ReadPlace(gpr: Gpr, mem: seq<Byte>, p: Place, w: nat): Option<U32>
    requires |gpr| == 8 && Width(w) && (p.InReg? ==> p.r < 8)
  {
    if p.InReg? then Some(ReadReg(gpr, p.r, w)) else ReadMem(mem, p.a, w)
  }

  /** The value an instruction moves, in the state before it. */
  function Source(gpr: Gpr, mem: seq<Byte>, f: Form, w: nat): Option<U32>
    requires |gpr| == 8 && Width(w) && ValidForm(f, w)
  {
    match f
    case G2E(_, reg) => ReadPlace(gpr, mem, InReg(reg), w)
    case E2G(m, _) => ReadPlace(gpr, mem, RMPlace(gpr, m), w)
    case O2A(a) => ReadPlace(gpr, mem, InMem(a), w)
    case A2O(_) => ReadPlace(gpr, mem, InReg(0), w)
    case I2R(_, imm) => Some(imm)
    case I2E(_, _, imm) => Some(imm)
  }

  /** Written views read back. */
  lemma ReadWrittenReg(gpr: Gpr, r: nat, w: nat, v: nat)
    requires |gpr| == 8 && r < 8 && Width(w) && v < Modulus(w)
    ensures ReadReg(WriteReg(gpr, r, w, v), r, w) == v
  {
    SmallMod(v, w);
    if w == 1 && r < 4 {
      ReplaceByte0(gpr[r], v);
    } else if w == 1 {
      ReplaceByte1(gpr[r - 4], v);
    } else if w == 2 {
      ReadWrittenHalf(gpr, r, v);
    }
  }

  lemma ReadWrittenHalf(gpr: Gpr, r: nat, v: nat)
    requires |gpr| == 8 && r < 8 && v < 65536
    ensures ReadReg(WriteReg(gpr, r, 2, v), r, 2) == v
  {
    assert v % 65536 == v;
    LowPart(gpr[r] / 65536, v);
  }

  lemma LowPart(h: nat, v: nat)
    requires v < 65536
    ensures (h * 65536 + v) % 65536 == v
  {
  }

  lemma ReadWrittenMem(mem: seq<Byte>, a: nat, w: nat, v: nat)
    requires Width(w) && a + w <= |mem| && v < Modulus(w)
    ensures ReadMem(WriteMem(mem, a, w, v), a, w) == Some(v)
  {
    hide LE, Bytes;
    assert WriteMem(mem, a, w, v)[a..a + w] == Bytes(v, w);
    LoadStored(v, w);
    SmallMod(v, w);
  }

  lemma SmallMod(v: nat, w: nat)
    requires Width(w) && v < Modulus(w)
    ensures v % Modulus(w) == v
  {
  }

  /**
   After the instruction, the target holds what the source held before it; it fails exactly when source
   or target is not inside memory.
   */
  lemma MoveDelivers(gpr: Gpr, mem: seq<Byte>, f: Form, w: nat)
    requires |gpr| == 8 && Width(w) && ValidForm(f, w)
    ensures match Move(gpr, mem, f, w)
            case None => var t := Target(gpr, f, w); Source(gpr, mem, f, w).None? || (t.InMem? && t.a + w > |mem|)
            case Some(e) =>
              && Source(gpr, mem, f, w).Some?
              && (var t := Target(gpr, f, w); t.InMem? ==> t.a + w <= |mem|)
              && ReadPlace(e.gpr, e.mem, Target(gpr, f, w), w) == Source(gpr, mem, f, w)
  {
    hide LE, Bytes, ReadReg, WriteReg, ReadMem, WriteMem, Address;
    var move, src, t := Move(gpr, mem, f, w), Source(gpr, mem, f, w), Target(gpr, f, w);
    SourceRange(gpr, mem, f, w);
    if move.Some? && src.Some? {
      if t.InReg? {
        ReadWrittenReg(gpr, t.r, w, src.value);
      } else if t.a + w <= |mem| {
        ReadWrittenMem(mem, t.a, w, src.value);
      }
    }
  }

  lemma SourceRange(gpr: Gpr, mem: seq<Byte>, f: Form, w: nat)
    requires |gpr| == 8 && Width(w) && ValidForm(f, w)
    ensures var v := Source(gpr, mem, f, w); v.Some? ==> v.value < Modulus(w)
  {
  }

  /** Nothing else changes: no other byte of the register file and no other byte of memory. */
  lemma MoveFrame(gpr: Gpr, mem: seq<Byte>, f: Form, w: nat, i: nat, j: nat, k: nat)
    requires |gpr| == 8 && Width(w) && ValidForm(f, w) && i < 8 && j < 4 && k < |mem|
    ensures match Move(gpr, mem, f, w)
            case None => true
            case Some(e) =>
              var t := Target(gpr, f, w);
              && |e.gpr| == 8 && |e.mem| == |mem|
              && (!(t.InReg? && Covers(t.r, w, i, j)) ==> RegByte(e.gpr, i, j) == RegByte(gpr, i, j))
              && (!(t.InMem? && t.a <= k < t.a + w) ==> e.mem[k] == mem[k])
  {
    hide LE, Bytes, ReadReg, WriteReg, ReadMem, WriteMem, Address, RegByte, Covers;
    var src, t := Source(gpr, mem, f, w), Target(gpr, f, w);
    if src.Some? && t.InReg? {
      WriteRegBytes(gpr, t.r, w, src.value, i, j);
    }
  }

  // ---------------------------------------------------------------- decoder

  function Fetch(mem: seq<Byte>, p: nat, n: nat): Option<U32>
    requires Width(n)
  {
    ReadMem(mem, p, n)
  }

  datatype ParsedRM = ParsedRM(reg: nat, m: RM, next: nat)

  /** Displacement after the base part has been read. */
  function ParseDisp(mem: seq<Byte>, p: nat, reg: nat, mod: nat, base: Base): Option<ParsedRM>
  {
    var n := DispSize(mod, base.r);
    if n == 0 then Some(ParsedRM(reg, Memory(mod, base, 0), p))
    else match Fetch(mem, p, n)
      case None => None
      case Some(d) => Some(ParsedRM(reg, Memory(mod, base, d), p + n))
  }

  /** The base part named by R/M: the register itself or a SIB byte. */
  function ParseBase(mem: seq<Byte>, p: nat, rm: nat): Option<(Base, nat)>
  {
    if rm != ESP then Some((Plain(rm), p))
    else match Fetch(mem, p, 1)
      case None => None
      case Some(s) => Some((Sib(s % 8, s / 8 % 8, s / 64), p + 1))
  }

  function ParseMem(mem: seq<Byte>, p: nat, reg: nat, mod: nat, rm: nat): Option<ParsedRM>
  {
    match ParseBase(mem, p, rm)
    case None => None
    case Some((base, q)) => ParseDisp(mem, q, reg, mod, base)
  }

  /** ModR/M with what follows it. */
  function ParseRM(mem: seq<Byte>, p: nat): Option<ParsedRM>
  {
    match Fetch(mem, p, 1)
    case None => None
    case Some(b) =>
      var mod, reg, rm := b / 64, b / 8 % 8, b % 8;
      if mod == 3 then Some(ParsedRM(reg, Direct(rm), p + 1)) else ParseMem(mem, p + 1, reg, mod, rm)
  }

  datatype Instr = Instr(form: Form, width: nat, next: nat)

  /** The operand decoder of a row of the opcode table. */
  datatype Shape = ShapeG2E | ShapeE2G | ShapeO2A | ShapeA2O | ShapeI2R(r: nat) | ShapeI2E

  datatype Row = Row(shape: Shape, byteForm: bool)

  /** The `mov` rows of `fetch_decode_exec`. */
  function TableRow(op: nat): Option<Row>
  {
    if op == 0x88 || op == 0x89 then Some(Row(ShapeG2E, op == 0x88))
    else if op == 0x8a || op == 0x8b then Some(Row(ShapeE2G, op == 0x8a))
    else if op == 0xa0 || op == 0xa1 then Some(Row(ShapeO2A, op == 0xa0))
    else if op == 0xa2 || op == 0xa3 then Some(Row(ShapeA2O, op == 0xa2))
    else if 0xb0 <= op <= 0xb7 then Some(Row(ShapeI2R(op % 8), true))
    else if 0xb8 <= op <= 0xbf then Some(Row(ShapeI2R(op % 8), false))
    else if op == 0xc6 || op == 0xc7 then Some(Row(ShapeI2E, op == 0xc6))
    else None
  }

  /** `set_width`. */
  function RowWidth(row: Row, is16: bool): (w: nat)
    ensures Width(w)
  {
    if row.byteForm then 1 else if is16 then 2 else 4
  }

  /** The operands that follow the opcode. */
  function ParseOperands(mem: seq<Byte>, p: nat, shape: Shape, w: nat): Option<Instr>
    requires Width(w)
  {
    match shape
    case ShapeG2E =>
      (match ParseRM(mem, p) case None => None case Some(x) => Some(Instr(G2E(x.m, x.reg), w, x.next)))
    case ShapeE2G =>
      (match ParseRM(mem, p) case None => None case Some(x) => Some(Instr(E2G(x.m, x.reg), w, x.next)))
    case ShapeO2A =>
      (match Fetch(mem, p, 4) case None => None case Some(a) => Some(Instr(O2A(a), w, p + 4)))
    case ShapeA2O =>
      (match Fetch(mem, p, 4) case None => None case Some(a) => Some(Instr(A2O(a), w, p + 4)))
    case ShapeI2R(r) =>
      (match Fetch(mem, p, w) case None => None case Some(v) => Some(Instr(I2R(r, v), w, p + w)))
    case ShapeI2E =>
      match ParseRM(mem, p)
      case None => None
      case Some(x) =>
        match Fetch(mem, x.next, w)
        case None => None
        case Some(v) => Some(Instr(I2E(x.m, x.reg, v), w, x.next + w))
  }

  /** The instruction at p; None for other opcodes or when a fetch leaves pmem. */
  function ParseInstr(mem: seq<Byte>, p: nat, is16: bool): Option<Instr>
    decreases |mem| - p
  {
    match Fetch(mem, p, 1)
    case None => None
    case Some(op) =>
      if op == 0x66 then ParseInstr(mem, p + 1, true)
      else match TableRow(op)
        case None => None
        case Some(row) => ParseOperands(mem, p + 1, row.shape, RowWidth(row, is16))
  }

  /** The opcode after the prefixes; None when the memory ends before it. */
  function OpcodeAt(mem: seq<Byte>, p: nat): Option<Byte>
    decreases |mem| - p
  {
    if p >= |mem| then None else if mem[p] == 0x66 then OpcodeAt(mem, p + 1) else Some(mem[p])
  }

  // ---------------------------------------------------------------- the decoder inverts the encoding

  /** Reading back bytes that are in memory. */
  lemma FetchBytes(mem: seq<Byte>, p: nat, v: nat, n: nat)
    requires Width(n) && p + n <= |mem| && mem[p..p + n] == Bytes(v, n) && v < Modulus(n)
    ensures Fetch(mem, p, n) == Some(v)
  {
    LoadStored(v, n);
  }

  lemma FetchByte(mem: seq<Byte>, p: nat)
    requires p < |mem|
    ensures Fetch(mem, p, 1) == Some(mem[p])
  {
    assert mem[p..p + 1] == [mem[p]];
  }

  /** The bit fields of ModR/M and SIB. */
  lemma Fields(hi: nat, mid: nat, lo: nat)
    requires hi < 4 && mid < 8 && lo < 8
    ensures var b := 64 * hi + 8 * mid + lo; b < 256 && b / 64 == hi && b / 8 % 8 == mid && b % 8 == lo
  {
    var b := 64 * hi + 8 * mid + lo;
    assert b / 8 == 8 * hi + mid;
  }

  lemma ParseDispEncoded(mem: seq<Byte>, p: nat, reg: nat, m: RM)
    requires ValidRM(m) && m.Memory?
    requires var n := DispSize(m.mod, m.base.r); p + n <= |mem| && mem[p..p + n] == Bytes(m.disp, n)
    ensures ParseDisp(mem, p, reg, m.mod, m.base) == Some(ParsedRM(reg, m, p + DispSize(m.mod, m.base.r)))
  {
    var n := DispSize(m.mod, m.base.r);
    if n > 0 {
      FetchBytes(mem, p, m.disp, n);
    }
  }

  /** Decoding any encoded ModR/M operand. */
  lemma ParseRMEncoded(mem: seq<Byte>, p: nat, reg: nat, m: RM)
    requires reg < 8 && ValidRM(m)
    requires var e := EncodeRM(reg, m); p + |e| <= |mem| && mem[p..p + |e|] == e
    ensures ParseRM(mem, p) == Some(ParsedRM(reg, m, p + |EncodeRM(reg, m)|))
  {
    hide Bytes, Fetch;
    var e := EncodeRM(reg, m);
    assert mem[p] == mem[p..p + |e|][0] == e[0];
    FetchByte(mem, p);
    if m.Direct? {
      Fields(3, reg, m.r);
    } else {
      var n := DispSize(m.mod, m.base.r);
      var k := if m.base.Plain? then 1 else 2;
      assert |e| == k + n;
      SliceAt(mem, p, e, k);
      ParseDispEncoded(mem, p + k, reg, m);
      if m.base.Plain? {
        Fields(m.mod, reg, m.base.r);
      } else {
        Fields(m.mod, reg, ESP);
        Fields(m.base.scale, m.base.index, m.base.r);
        assert mem[p + 1] == mem[p..p + |e|][1] == e[1];
        FetchByte(mem, p + 1);
      }
    }
  }

  lemma SliceAt(mem: seq<Byte>, p: nat, e: seq<Byte>, k: nat)
    requires k <= |e| && p + |e| <= |mem| && mem[p..p + |e|] == e
    ensures mem[p + k..p + |e|] == e[k..]
    ensures mem[p..p + k] == e[..k]
  {
    assert forall i :: 0 <= i < |e| ==> mem[p + i] == e[i] by {
      forall i | 0 <= i < |e|
        ensures mem[p + i] == e[i]
      {
        assert mem[p..p + |e|][i] == mem[p + i];
      }
    }
  }

  lemma ShapeOf(f: Form, byteForm: bool)
    requires f.I2R? ==> f.r < 8
    ensures TableRow(Opcode(f, byteForm)).Some? && Opcode(f, byteForm) != 0x66
    ensures var row := TableRow(Opcode(f, byteForm)).value;
            && row.byteForm == byteForm
            && match f
               case G2E(_, _) => row.shape == ShapeG2E
               case E2G(_, _) => row.shape == ShapeE2G
               case O2A(_) => row.shape == ShapeO2A
               case A2O(_) => row.shape == ShapeA2O
               case I2R(r, _) => row.shape == ShapeI2R(r)
               case I2E(_, _, _) => row.shape == ShapeI2E
  {
  }

  lemma ParseOperandsEncoded(mem: seq<Byte>, p: nat, f: Form, byteForm: bool, w: nat)
    requires Width(w) && ValidForm(f, w)
    requires var e := Tail(f, w); p + |e| <= |mem| && mem[p..p + |e|] == e
    ensures TableRow(Opcode(f, byteForm)).Some?
    ensures ParseOperands(mem, p, TableRow(Opcode(f, byteForm)).value.shape, w) == Some(Instr(f, w, p + |Tail(f, w)|))
  {
    hide Bytes, Fetch, ParseRM, EncodeRM, TableRow, Opcode;
    ShapeOf(f, byteForm);
    match f
    case G2E(m, reg) => ParseRMEncoded(mem, p, reg, m);
    case E2G(m, reg) => ParseRMEncoded(mem, p, reg, m);
    case O2A(a) => FetchBytes(mem, p, a, 4);
    case A2O(a) => FetchBytes(mem, p, a, 4);
    case I2R(_, imm) => FetchBytes(mem, p, imm, w);
    case I2E(m, ext, imm) =>
      var e := EncodeRM(ext, m);
      SliceAt(mem, p, e + Bytes(imm, w), |e|);
      assert (e + Bytes(imm, w))[..|e|] == e && (e + Bytes(imm, w))[|e|..] == Bytes(imm, w);
      ParseRMEncoded(mem, p, ext, m);
      FetchBytes(mem, p + |e|, imm, w);
  }

  lemma {:induction false} ParsePrefixes(mem: seq<Byte>, p: nat, n: nat, is16: bool)
    requires p + n <= |mem| && forall i :: p <= i < p + n ==> mem[i] == 0x66
    ensures ParseInstr(mem, p, is16) == ParseInstr(mem, p + n, is16 || n > 0)
    decreases n
  {
    if n > 0 {
      FetchByte(mem, p);
      ParsePrefixes(mem, p + 1, n - 1, true);
    }
  }

  /** The instruction encoded at p is decoded, whatever form, width, prefixes and operands were chosen. */
  lemma DecodeEncoded(mem: seq<Byte>, p: nat, prefixes: nat, byteForm: bool, f: Form)
    requires ValidForm(f, OperandWidth(prefixes, byteForm))
    requires var e := Encode(prefixes, byteForm, f); p + |e| <= |mem| && mem[p..p + |e|] == e
    ensures ParseInstr(mem, p, false) == Some(Instr(f, OperandWidth(prefixes, byteForm), p + |Encode(prefixes, byteForm, f)|))
  {
    hide Bytes, Fetch, Tail, ParseOperands, TableRow, Opcode;
    var w := OperandWidth(prefixes, byteForm);
    var e := Encode(prefixes, byteForm, f);
    var op := Opcode(f, byteForm);
    forall i | p <= i < p + prefixes
      ensures mem[i] == 0x66
    {
      assert mem[i] == mem[p..p + |e|][i - p] == e[i - p];
    }
    ParsePrefixes(mem, p, prefixes, false);
    var q := p + prefixes;
    assert mem[q] == mem[p..p + |e|][prefixes] == e[prefixes] == op;
    FetchByte(mem, q);
    ShapeOf(f, byteForm);
    SliceAt(mem, p, e, prefixes + 1);
    assert e[prefixes + 1..] == Tail(f, w);
    ParseOperandsEncoded(mem, q + 1, f, byteForm, w);
  }

  /** Parsed operands are valid. */
  lemma ParsedValid(mem: seq<Byte>, p: nat, is16: bool)
    ensures var r := ParseInstr(mem, p, is16);
            r.Some? ==> Width(r.value.width) && ValidForm(r.value.form, r.value.width) && r.value.next <= |mem|
    decreases |mem| - p
  {
    if p < |mem| {
      FetchByte(mem, p);
      if mem[p] == 0x66 {
        ParsedValid(mem, p + 1, true);
      } else if TableRow(mem[p]).Some? {
        OperandsValid(mem, p + 1, TableRow(mem[p]).value.shape, RowWidth(TableRow(mem[p]).value, is16));
      }
    }
  }

  lemma OperandsValid(mem: seq<Byte>, p: nat, shape: Shape, w: nat)
    requires Width(w) && p <= |mem| && (shape.ShapeI2R? ==> shape.r < 8)
    ensures var r := ParseOperands(mem, p, shape, w);
            r.Some? ==> r.value.width == w && ValidForm(r.value.form, w) && r.value.next <= |mem|
  {
    hide ParseRM;
    ParsedRMValid(mem, p);
  }

  lemma ParsedRMValid(mem: seq<Byte>, p: nat)
    requires p <= |mem|
    ensures var r := ParseRM(mem, p);
            r.Some? ==> r.value.reg < 8 && ValidRM(r.value.m) && r.value.next <= |mem|
  {
  }
}
