/**
 AArch64 instructions by their fields, assembled as the Arm ARM (DDI 0487, section
 C4.1) lays them out, and what each does to the processor.  Proved here: a word
 decoded by `A64Effects`, `A64Bitmask` and `A64Branch` is the instruction it was
 assembled from, and every word of a modelled class is assembled from one.
 Nothing below decodes a word, and no decoder above assembles one.
 */
module A64Asm {
  import opened Arith
  import opened Bits
  import opened Lattice
  import opened A64Bitmask
  import opened SccpModel
  import opened A64Effects
  import Br = A64Branch
  import Wrappers

  /** `is64` is the sf bit; register 31 is SP or XZR as the class says. */
  datatype DataIns =
    | AddSubI(is64: bool, sub: bool, flags: bool, shifted: bool, imm: nat, n: nat, d: nat)
    | LogicI(is64: bool, op: Logic, size: nat, ones: nat, immr: nat, n: nat, d: nat)
    | MoveWide(is64: bool, kind: Move, hw: nat, imm: nat, d: nat)
    | AddSubR(is64: bool, sub: bool, flags: bool, shift: nat, m: nat, amount: nat, n: nat, d: nat)
    | LogicR(is64: bool, op: Logic, shift: nat, inverted: bool, m: nat, amount: nat, n: nat, d: nat)

  /** AND, ORR, EOR, ANDS. */
  datatype Logic = AndL | OrrL | EorL | AndsL

  datatype Move = Movn | Movz | Movk

  function B(b: bool): (v: nat)
    ensures v < 2
  {
    if b then 1 else 0
  }

  function LogicBits(op: Logic): (v: nat)
    ensures v < 4
  {
    match op case AndL => 0 case OrrL => 1 case EorL => 2 case AndsL => 3
  }

  function MoveBits(k: Move): (v: nat)
    ensures v < 4
  {
    match k case Movn => 0 case Movz => 2 case Movk => 3
  }

  /** The N bit and the imms field of an element of `size` bits with `ones + 1` ones. */
  function SizeBits(size: nat): nat {
    if size == 32 then 0 else if size == 16 then 0x20 else if size == 8 then 0x30 else if size == 4 then 0x38
    else if size == 2 then 0x3c else 0
  }

  predicate InsOk(i: DataIns) {
    i.d < 32 && match i
      case AddSubI(_, _, _, _, imm, n, _) => imm < 0x1000 && n < 32
      case LogicI(is64, _, size, ones, immr, n, _) =>
        IsElementSize(size) && (size == 64 ==> is64) && ones + 1 < size && immr < 64 && n < 32
      case MoveWide(_, _, hw, imm, _) => hw < 4 && imm < 0x1_0000
      case AddSubR(_, _, _, shift, m, amount, n, _) => shift < 4 && m < 32 && amount < 64 && n < 32
      case LogicR(_, _, shift, _, m, amount, n, _) => shift < 4 && m < 32 && amount < 64 && n < 32
  }

  /** sf, two operation bits, six fixed bits: bits 31 to 23. */
  function Top(is64: bool, op: nat, fixed: nat): nat { (B(is64) * 4 + op) * 0x40 + fixed }

  /** The instruction word. */
  function Assemble(i: DataIns): nat {
    match i
    case AddSubI(is64, sub, flags, shifted, imm, n, d) =>
      (((Top(is64, B(sub) * 2 + B(flags), 0x22) * 2 + B(shifted)) * 0x1000 + imm) * 0x20 + n) * 0x20 + d
    case LogicI(is64, op, size, ones, immr, n, d) =>
      ((((Top(is64, LogicBits(op), 0x24) * 2 + B(size == 64)) * 0x40 + immr) * 0x40 + SizeBits(size) + ones) * 0x20 + n) * 0x20 + d
    case MoveWide(is64, kind, hw, imm, d) =>
      ((Top(is64, MoveBits(kind), 0x25) * 4 + hw) * 0x1_0000 + imm) * 0x20 + d
    case AddSubR(is64, sub, flags, shift, m, amount, n, d) =>
      (((((RegTop(is64, B(sub) * 2 + B(flags), 11) * 4 + shift) * 2 + 0) * 0x20 + m) * 0x40 + amount) * 0x20 + n) * 0x20 + d
    case LogicR(is64, op, shift, inverted, m, amount, n, d) =>
      (((((RegTop(is64, LogicBits(op), 10) * 4 + shift) * 2 + B(inverted)) * 0x20 + m) * 0x40 + amount) * 0x20 + n) * 0x20 + d
  }

  /** Bits 31 to 24 of the register forms. */
  function RegTop(is64: bool, op: nat, fixed: nat): nat { (B(is64) * 4 + op) * 0x20 + fixed }

  // ---- What they do --------------------------------------------------------------------

  function Trim(v: Word, is64: bool): Word { if is64 then v else AndWord(v, 0xFFFF_FFFF) }

  function Zr(c: Cpu, n: nat): Word { if n == 31 then 0 else if n < 31 then c.x[n] else 0 }

  function SetZr(c: Cpu, d: nat, v: Word): Cpu { if d < 31 then Cpu(c.x[d := v], c.sp, c.z) else c }

  function AddOrSub(sub: bool, a: Word, b: Word): Word { if sub then SubWord(a, b) else AddWord(a, b) }

  function Combine(op: Logic, a: Word, b: Word): Word {
    match op
    case AndL => AndWord(a, b)
    case OrrL => OrWord(a, b)
    case EorL => XorWord(a, b)
    case AndsL => AndWord(a, b)
  }

  function WithZ(c: Cpu, flags: bool, v: Word): Cpu { if flags then Cpu(c.x, c.sp, v == 0) else c }

  /** The number whose bits are `ones + 1` ones, rotated right by `immr`, in every element. */
  ghost predicate Pattern(v: nat, is64: bool, size: nat, ones: nat, immr: nat)
    requires size > 0
  {
    forall k: nat :: Bit(v, k) == InPattern(k, is64, size, ones, immr)
  }

  predicate InPattern(k: nat, is64: bool, size: nat, ones: nat, immr: nat)
    requires size > 0
  {
    k < (if is64 then 64 else 32) && (k + immr) % size <= ones
  }

  /** The halfword `imm` in lane `hw`. */
  function InLane(imm: Word, hw: nat): Word {
    if hw == 0 then imm else if hw == 1 then ShlWord(imm, 16) else if hw == 2 then ShlWord(imm, 32) else ShlWord(imm, 48)
  }

  function Moved16(kind: Move, was: Word, imm: Word, hw: nat): Word {
    match kind
    case Movn => NotWord(InLane(imm, hw))
    case Movz => InLane(imm, hw)
    case Movk => OrWord(AndWord(was, NotWord(InLane(0xFFFF, hw))), InLane(imm, hw))
  }

  /** The result of an operation on two operands, both and the result at the width. */
  function AddSubResult(is64: bool, sub: bool, a: Word, b: Word): Word {
    Trim(AddOrSub(sub, Trim(a, is64), Trim(b, is64)), is64)
  }

  function LogicResult(is64: bool, op: Logic, a: Word, b: Word): Word {
    Trim(Combine(op, Trim(a, is64), Trim(b, is64)), is64)
  }

  /** The state after a result `v` goes to register `d`, where 31 is SP unless flags are set. */
  function AfterSp(c: Cpu, d: nat, v: Word, flags: bool): Cpu {
    if d == 31 && !flags then Cpu(c.x, v, c.z) else AfterZr(c, d, v, flags)
  }

  function AfterZr(c: Cpu, d: nat, v: Word, flags: bool): Cpu { WithZ(SetZr(c, d, v), flags, v) }

  function BaseReg(c: Cpu, n: nat): Word
    requires n < 32
  {
    if n == 31 then c.sp else c.x[n]
  }

  function Number(v: nat): Word
    requires v < 0x1_0000_0000_0000_0000
  {
    v as bv64
  }

  function Imm(i: DataIns): (v: nat)
    requires InsOk(i) && i.AddSubI?
    ensures v < 0x100_0000
  {
    if i.shifted then i.imm * 4096 else i.imm
  }

  /** Instruction `i` takes `c` to `c'`; `y` is a shifted or inverted second operand. */
  ghost predicate Does(i: DataIns, c: Cpu, c': Cpu, y: Word)
    requires InsOk(i)
  {
    match i
    case AddSubI(is64, sub, flags, _, _, n, d) =>
      c' == AfterSp(c, d, AddSubResult(is64, sub, BaseReg(c, n), Number(Imm(i))), flags)
    case LogicI(is64, op, size, ones, immr, n, d) =>
      exists p: nat :: Pattern(p, is64, size, ones, immr) && p < 0x1_0000_0000_0000_0000
        && c' == AfterSp(c, d, LogicResult(is64, op, Zr(c, n), Number(p)), op == AndsL)
    case MoveWide(is64, kind, hw, imm, d) =>
      c' == SetZr(c, d, Trim(Moved16(kind, Zr(c, d), Number(imm), hw), is64))
    case AddSubR(is64, sub, flags, _, m, amount, n, d) =>
      (amount == 0 ==> y == Zr(c, m)) && c' == AfterZr(c, d, AddSubResult(is64, sub, Zr(c, n), y), flags)
    case LogicR(is64, op, _, inverted, m, amount, n, d) =>
      (amount == 0 && !inverted ==> y == Zr(c, m)) && c' == AfterZr(c, d, LogicResult(is64, op, Zr(c, n), y), op == AndsL)
  }

  // ---- Fields of an assembled word --------------------------------------------------------

  lemma LowFields(q: nat, n: nat, d: nat)
    requires n < 0x20 && d < 0x20
    ensures var w := (q * 0x20 + n) * 0x20 + d; w % 0x20 == d && w / 0x20 % 0x20 == n && w / 0x400 == q
  {
    var w := (q * 0x20 + n) * 0x20 + d;
    Arith.Cut(q * 0x20 + n, 0x20, d);
    Layer(w, 0x20, q, 0x20, n);
  }

  /** Shifting out the low bits of a number in two parts. */
  lemma Quotients(h: nat, fixed: nat, unit: nat)
    requires unit in {0x20, 0x40} && fixed < unit
    ensures var t := h * unit + fixed;
      t / unit == h && t / (2 * unit) == h / 2 && t / (4 * unit) == h / 4
  {
    var t := h * unit + fixed;
    Arith.Cut(h, unit, fixed);
    DivDiv(t, unit, 2);
    DivDiv(t, unit, 4);
  }

  lemma OpBits(b: nat, op: nat)
    requires b < 2 && op < 4
    ensures var h := b * 4 + op; h / 4 == b && h % 4 == op && h / 2 % 2 == op / 2 && h % 2 == op % 2
  {
  }

  /** sf and the two operation bits, wherever the fixed bits below them end. */
  lemma HighFields(w: nat, low: nat, is64: bool, op: nat, unit: nat, fixed: nat)
    requires (low, unit) in {(0x80_0000, 0x40), (0x100_0000, 0x20)} && op < 4 && fixed < unit
    requires w / low == (B(is64) * 4 + op) * unit + fixed
    ensures Is64(w) == is64 && Opc(w) == op && IsSub(w) == (op >= 2) && SetsFlags(w) == (op % 2 == 1)
  {
    var h := B(is64) * 4 + op;
    Quotients(h, fixed, unit);
    OpBits(B(is64), op);
    DivDiv(w, low, unit);
    DivDiv(w, low, 2 * unit);
    DivDiv(w, low, 4 * unit);
  }

  /** What bits 31 to 23 say. */
  lemma TopFields(w: nat, is64: bool, op: nat, fixed: nat)
    requires op < 4 && fixed < 0x40 && w / 0x80_0000 == Top(is64, op, fixed)
    ensures Is64(w) == is64 && Opc(w) == op && IsSub(w) == (op >= 2) && SetsFlags(w) == (op % 2 == 1)
    ensures w / 0x80_0000 % 8 == fixed % 8 && w / 0x200_0000 % 0x10 == fixed / 4
  {
    hide Is64, Opc, IsSub, SetsFlags;
    HighFields(w, 0x80_0000, is64, op, 0x40, fixed);
    Groups(w, B(is64) * 4 + op, fixed);
  }

  lemma Groups(w: nat, h: nat, fixed: nat)
    requires fixed < 0x40 && w / 0x80_0000 == h * 0x40 + fixed
    ensures w / 0x80_0000 % 8 == fixed % 8 && w / 0x200_0000 % 0x10 == fixed / 4
  {
    Arith.Cut(h * 8 + fixed / 8, 8, fixed % 8);
    Layer(w, 0x80_0000, h * 0x10 + fixed / 4, 4, fixed % 4);
    Arith.Cut(h, 0x10, fixed / 4);
  }

  lemma AddSubIFields(i: DataIns)
    requires InsOk(i) && i.AddSubI?
    ensures var w := Assemble(i);
      && ClassOf(w) == AddSubImmClass && Is64(w) == i.is64 && IsSub(w) == i.sub && SetsFlags(w) == i.flags
      && Imm12(w) == Imm(i) && Rn(w) == i.n && Rd(w) == i.d
  {
    hide Is64, Opc, IsSub, SetsFlags, Top;
    var w, t := Assemble(i), Top(i.is64, B(i.sub) * 2 + B(i.flags), 0x22);
    LowFields((t * 2 + B(i.shifted)) * 0x1000 + i.imm, i.n, i.d);
    Layer(w, 0x400, t * 2 + B(i.shifted), 0x1000, i.imm);
    Layer(w, 0x40_0000, t, 2, B(i.shifted));
    TopFields(w, i.is64, B(i.sub) * 2 + B(i.flags), 0x22);
  }

  lemma LogicIFields(i: DataIns)
    requires InsOk(i) && i.LogicI?
    ensures var w := Assemble(i);
      && ClassOf(w) == LogicalImmClass && Is64(w) == i.is64 && Opc(w) == LogicBits(i.op)
      && FieldN(w) == B(i.size == 64) && Immr(w) == i.immr && Imms(w) == SizeBits(i.size) + i.ones
      && Rn(w) == i.n && Rd(w) == i.d
  {
    hide Is64, Opc, IsSub, SetsFlags, Top;
    var w, t, s := Assemble(i), Top(i.is64, LogicBits(i.op), 0x24), SizeBits(i.size) + i.ones;
    LowFields(((t * 2 + B(i.size == 64)) * 0x40 + i.immr) * 0x40 + s, i.n, i.d);
    Layer(w, 0x400, (t * 2 + B(i.size == 64)) * 0x40 + i.immr, 0x40, s);
    Layer(w, 0x1_0000, t * 2 + B(i.size == 64), 0x40, i.immr);
    Layer(w, 0x40_0000, t, 2, B(i.size == 64));
    TopFields(w, i.is64, LogicBits(i.op), 0x24);
  }

  lemma MoveWideFields(i: DataIns)
    requires InsOk(i) && i.MoveWide?
    ensures var w := Assemble(i);
      && ClassOf(w) == MovWideClass && Is64(w) == i.is64 && Opc(w) == MoveBits(i.kind)
      && w / 0x20 % 0x1_0000 == i.imm && w / 0x20_0000 % 4 == i.hw && Rd(w) == i.d
  {
    hide Is64, Opc, IsSub, SetsFlags, Top;
    var w, t := Assemble(i), Top(i.is64, MoveBits(i.kind), 0x25);
    Arith.Cut((t * 4 + i.hw) * 0x1_0000 + i.imm, 0x20, i.d);
    Layer(w, 0x20, t * 4 + i.hw, 0x1_0000, i.imm);
    Layer(w, 0x20_0000, t, 4, i.hw);
    TopFields(w, i.is64, MoveBits(i.kind), 0x25);
  }

  /** The register forms, from bit 24 up and down. */
  lemma RegFields(w: nat, is64: bool, op: nat, fixed: nat, shift: nat, b21: nat, m: nat, amount: nat, n: nat, d: nat)
    requires op < 4 && (fixed == 10 || fixed == 11) && shift < 4 && b21 < 2 && m < 32 && amount < 64 && n < 32 && d < 32
    requires w == (((((RegTop(is64, op, fixed) * 4 + shift) * 2 + b21) * 0x20 + m) * 0x40 + amount) * 0x20 + n) * 0x20 + d
    ensures Is64(w) == is64 && Opc(w) == op && IsSub(w) == (op >= 2) && SetsFlags(w) == (op % 2 == 1)
    ensures w / 0x20_0000 % 2 == b21 && Rm(w) == m && w / 0x400 % 0x40 == amount && Rn(w) == n && Rd(w) == d
    ensures w / 0x100_0000 == RegTop(is64, op, fixed)
  {
    hide Is64, Opc, IsSub, SetsFlags, RegTop;
    var t := RegTop(is64, op, fixed);
    hide Rm, Rn, Rd;
    RegLow((t * 4 + shift) * 2 + b21, m, amount, n, d);
    Layer(w, 0x20_0000, t * 4 + shift, 2, b21);
    Layer(w, 0x40_0000, t, 4, shift);
    RegTopFields(w, is64, op, fixed);
  }

  lemma RegLow(q: nat, m: nat, amount: nat, n: nat, d: nat)
    requires m < 32 && amount < 64 && n < 32 && d < 32
    ensures var w := (((q * 0x20 + m) * 0x40 + amount) * 0x20 + n) * 0x20 + d;
      && w / 0x20_0000 == q && Rm(w) == m && w / 0x400 % 0x40 == amount && Rn(w) == n && Rd(w) == d
  {
    var w := (((q * 0x20 + m) * 0x40 + amount) * 0x20 + n) * 0x20 + d;
    LowFields((q * 0x20 + m) * 0x40 + amount, n, d);
    Layer(w, 0x400, q * 0x20 + m, 0x40, amount);
    Layer(w, 0x1_0000, q, 0x20, m);
  }

  lemma RegTopFields(w: nat, is64: bool, op: nat, fixed: nat)
    requires op < 4 && (fixed == 10 || fixed == 11) && w / 0x100_0000 == RegTop(is64, op, fixed)
    ensures Is64(w) == is64 && Opc(w) == op && IsSub(w) == (op >= 2) && SetsFlags(w) == (op % 2 == 1)
    ensures w / 0x200_0000 % 0x10 == 5 && w / 0x1000_0000 % 2 == 0 && w / 0x100_0000 % 2 == fixed - 10
  {
    hide Is64, Opc, IsSub, SetsFlags;
    HighFields(w, 0x100_0000, is64, op, 0x20, fixed);
    RegGroups(w, B(is64) * 4 + op, fixed);
  }

  lemma RegGroups(w: nat, h: nat, fixed: nat)
    requires (fixed == 10 || fixed == 11) && w / 0x100_0000 == h * 0x20 + fixed
    ensures w / 0x200_0000 % 0x10 == 5 && w / 0x1000_0000 % 2 == 0 && w / 0x100_0000 % 2 == fixed - 10
  {
    DivDiv(w, 0x100_0000, 2);
    DivDiv(w, 0x100_0000, 0x10);
  }

  lemma AddSubRFields(i: DataIns)
    requires InsOk(i) && i.AddSubR?
    ensures var w := Assemble(i);
      && ClassOf(w) == AddSubRegClass && Is64(w) == i.is64 && IsSub(w) == i.sub && SetsFlags(w) == i.flags
      && Unshifted(w) == (i.amount == 0) && Rm(w) == i.m && Rn(w) == i.n && Rd(w) == i.d
  {
    hide Is64, Opc, IsSub, SetsFlags, RegTop, Rn, Rd, Rm;
    var w, op := Assemble(i), B(i.sub) * 2 + B(i.flags);
    RegFields(w, i.is64, op, 11, i.shift, 0, i.m, i.amount, i.n, i.d);
    RegTopFields(w, i.is64, op, 11);
  }

  lemma LogicRFields(i: DataIns)
    requires InsOk(i) && i.LogicR?
    ensures var w := Assemble(i);
      && ClassOf(w) == LogicalRegClass && Is64(w) == i.is64 && Opc(w) == LogicBits(i.op)
      && PlainOperand(w) == (i.amount == 0 && !i.inverted) && Rm(w) == i.m && Rn(w) == i.n && Rd(w) == i.d
  {
    hide Is64, Opc, IsSub, SetsFlags, RegTop, Rn, Rd, Rm;
    var w := Assemble(i);
    RegFields(w, i.is64, LogicBits(i.op), 10, i.shift, B(i.inverted), i.m, i.amount, i.n, i.d);
    RegTopFields(w, i.is64, LogicBits(i.op), 10);
  }

  // ---- Bitmask immediates -----------------------------------------------------------------------

  lemma ElementOf(w: nat, is64: bool, size: nat, ones: nat)
    requires IsElementSize(size) && (size == 64 ==> is64) && ones + 1 < size
    requires Is64(w) == is64 && FieldN(w) == B(size == 64) && Imms(w) == SizeBits(size) + ones
    ensures ElementSize(w) == Wrappers.Some(size) && Rem(Imms(w), size) == ones && !Reserved(w)
  {
    RemIsMod(Imms(w), size);
  }

  /** The immediate is the number with the bits of the encoded pattern. */
  lemma PatternExact(i: DataIns, v: nat)
    requires InsOk(i) && i.LogicI?
    ensures BitmaskImm(Assemble(i)).Some?
    ensures BitmaskImm(Assemble(i)) == Wrappers.Some(v) <==> Pattern(v, i.is64, i.size, i.ones, i.immr)
  {
    hide Assemble, Is64, FieldN, Imms, Immr, BitmaskImm, Bit, ElementSize, Reserved, Rem, ImmBit, InPattern;
    var w := Assemble(i);
    LogicIFields(i);
    ElementOf(w, i.is64, i.size, i.ones);
    BitmaskExact(w, v);
    forall k: nat ensures ImmBit(w, i.size, k) == InPattern(k, i.is64, i.size, i.ones, i.immr) {
      SameRotation(w, i.size, i.immr, k);
    }
  }

  lemma SameRotation(w: nat, e: nat, immr: nat, k: nat)
    requires IsElementSize(e) && Immr(w) == immr
    ensures ImmBit(w, e, k) == InPattern(k, Is64(w), e, Rem(Imms(w), e), immr)
  {
    hide Imms, Is64, Rem, Immr;
    RemSum(immr, k, e);
    RemIsMod(immr + k, e);
  }

  // ---- The decoded processor is this one ----------------------------------------------------------

  lemma TrimIs(v: Word, is64: bool)
    ensures A64Effects.Cut(v, is64) == Trim(v, is64)
  {
    hide AndWord;
  }

  lemma AddSubIs(is64: bool, sub: bool, a: Word, b: Word)
    ensures Alu(if sub then BinOp.Sub else BinOp.Add, a, b, is64) == AddSubResult(is64, sub, a, b)
  {
    hide AndWord, AddWord, SubWord, Trim, A64Effects.Cut;
    TrimIs(a, is64);
    TrimIs(b, is64);
    TrimIs(AddOrSub(sub, Trim(a, is64), Trim(b, is64)), is64);
  }

  lemma LogicIs(is64: bool, op: Logic, a: Word, b: Word)
    ensures Alu(LogicOp(LogicBits(op)), a, b, is64) == LogicResult(is64, op, a, b)
  {
    hide AndWord, OrWord, XorWord, Trim, A64Effects.Cut;
    TrimIs(a, is64);
    TrimIs(b, is64);
    TrimIs(Combine(op, Trim(a, is64), Trim(b, is64)), is64);
  }

  lemma NumberIs(v: nat)
    requires v < 0x1_0000_0000_0000_0000
    ensures ToWord(v) == Number(v)
  {
  }

  lemma LaneIs(x: Word, hw: nat)
    requires hw < 4
    ensures Lane(x, hw) == InLane(x, hw)
  {
    hide ShlWord;
  }

  lemma FinishIs(c: Cpu, d: nat, v: Word, flags: bool)
    requires d < 32
    ensures Finish(c, d, v, flags) == AfterSp(c, d, v, flags)
    ensures FinishZr(c, d, v, flags) == AfterZr(c, d, v, flags)
  {
  }

  lemma OperandIs(c: Cpu, n: nat)
    requires n < 32
    ensures ReadZr(c, n) == Zr(c, n) && ReadSp(c, n) == BaseReg(c, n)
  {
  }

  // What the processor above does with a word of each class.

  lemma ExecAddSubI(w: nat, c: Cpu, c': Cpu, y: Word)
    requires ClassOf(w) == AddSubImmClass
    ensures Executes(w, c, c', y)
       <==> c' == Finish(c, Rd(w), Alu(AddSubOp(w), ReadSp(c, Rn(w)), ToWord(Imm12(w)), Is64(w)), SetsFlags(w))
  {
  }

  lemma ExecLogicI(w: nat, c: Cpu, c': Cpu, y: Word, p: nat)
    requires ClassOf(w) == LogicalImmClass && BitmaskImm(w) == Wrappers.Some(p)
    ensures Executes(w, c, c', y) <==> c' == Finish(c, Rd(w), Alu(LogicOp(Opc(w)), ReadZr(c, Rn(w)), ToWord(p), Is64(w)), Opc(w) == 3)
  {
  }

  lemma ExecMoveWide(w: nat, c: Cpu, c': Cpu, y: Word)
    requires ClassOf(w) == MovWideClass && Opc(w) != 1
    ensures Executes(w, c, c', y) <==> c' == WriteZr(c, Rd(w), Moved(w, ReadZr(c, Rd(w))))
  {
  }

  lemma ExecAddSubR(w: nat, c: Cpu, c': Cpu, y: Word)
    requires ClassOf(w) == AddSubRegClass
    ensures Executes(w, c, c', y)
       <==> (Unshifted(w) ==> y == ReadZr(c, Rm(w)))
            && c' == FinishZr(c, Rd(w), Alu(AddSubOp(w), ReadZr(c, Rn(w)), y, Is64(w)), SetsFlags(w))
  {
  }

  lemma ExecLogicR(w: nat, c: Cpu, c': Cpu, y: Word)
    requires ClassOf(w) == LogicalRegClass
    ensures Executes(w, c, c', y)
       <==> (PlainOperand(w) ==> y == ReadZr(c, Rm(w)))
            && c' == FinishZr(c, Rd(w), Alu(LogicOp(Opc(w)), ReadZr(c, Rn(w)), y, Is64(w)), Opc(w) == 3)
  {
  }

  lemma AddSubOpIs(w: nat)
    ensures AddSubOp(w) == if IsSub(w) then BinOp.Sub else BinOp.Add
  {
  }

  lemma AddSubIMeans(i: DataIns, c: Cpu, c': Cpu, y: Word)
    requires InsOk(i) && i.AddSubI?
    ensures Executes(Assemble(i), c, c', y) <==> c' == AfterSp(c, i.d, AddSubResult(i.is64, i.sub, BaseReg(c, i.n), Number(Imm(i))), i.flags)
  {
    hide *;
    var w := Assemble(i);
    var b := Number(Imm(i));
    AddSubIFields(i);
    assert i.n < 32 && i.d < 32 && Imm12(w) == Imm(i) by { Bounds(i); }
    ExecAddSubI(w, c, c', y);
    AddSubOpIs(w);
    NumberIs(Imm(i));
    OperandIs(c, i.n);
    AddSubIs(i.is64, i.sub, BaseReg(c, i.n), b);
    FinishIs(c, i.d, AddSubResult(i.is64, i.sub, BaseReg(c, i.n), b), i.flags);
  }

  lemma Bounds(i: DataIns)
    requires InsOk(i)
    ensures i.d < 32 && (!i.MoveWide? ==> i.n < 32) && (i.AddSubR? || i.LogicR? ==> i.m < 32) && (i.MoveWide? ==> i.imm < 0x1_0000 && i.hw < 4)
    ensures i.AddSubI? ==> Imm(i) == if i.shifted then i.imm * 4096 else i.imm
  {
  }

  lemma AddSubRMeans(i: DataIns, c: Cpu, c': Cpu, y: Word)
    requires InsOk(i) && i.AddSubR?
    ensures Executes(Assemble(i), c, c', y)
       <==> (i.amount == 0 ==> y == Zr(c, i.m)) && c' == AfterZr(c, i.d, AddSubResult(i.is64, i.sub, Zr(c, i.n), y), i.flags)
  {
    hide *;
    var w := Assemble(i);
    AddSubRFields(i);
    Bounds(i);
    ExecAddSubR(w, c, c', y);
    AddSubOpIs(w);
    OperandIs(c, i.n);
    OperandIs(c, i.m);
    AddSubIs(i.is64, i.sub, Zr(c, i.n), y);
    FinishIs(c, i.d, AddSubResult(i.is64, i.sub, Zr(c, i.n), y), i.flags);
  }

  lemma AndsIs(op: Logic)
    ensures LogicBits(op) == 3 <==> op == AndsL
  {
  }

  lemma LogicRMeans(i: DataIns, c: Cpu, c': Cpu, y: Word)
    requires InsOk(i) && i.LogicR?
    ensures Executes(Assemble(i), c, c', y)
       <==> (i.amount == 0 && !i.inverted ==> y == Zr(c, i.m))
            && c' == AfterZr(c, i.d, LogicResult(i.is64, i.op, Zr(c, i.n), y), i.op == AndsL)
  {
    hide *;
    var w := Assemble(i);
    LogicRFields(i);
    Bounds(i);
    AndsIs(i.op);
    ExecLogicR(w, c, c', y);
    OperandIs(c, i.n);
    OperandIs(c, i.m);
    LogicIs(i.is64, i.op, Zr(c, i.n), y);
    FinishIs(c, i.d, LogicResult(i.is64, i.op, Zr(c, i.n), y), i.op == AndsL);
  }

  /** The immediate of a logical instruction. */
  lemma PatternOf(i: DataIns) returns (p: nat)
    requires InsOk(i) && i.LogicI?
    ensures BitmaskImm(Assemble(i)) == Wrappers.Some(p) && p < 0x1_0000_0000_0000_0000
    ensures forall q: nat :: Pattern(q, i.is64, i.size, i.ones, i.immr) <==> q == p
  {
    hide Assemble, BitmaskImm, Pattern;
    PatternExact(i, 0);
    p := BitmaskImm(Assemble(i)).value;
    PatternFits(Assemble(i), p);
    forall q: nat ensures Pattern(q, i.is64, i.size, i.ones, i.immr) <==> q == p { PatternExact(i, q); }
  }

  lemma LogicIMeans(i: DataIns, c: Cpu, c': Cpu, y: Word, p: nat)
    requires InsOk(i) && i.LogicI? && BitmaskImm(Assemble(i)) == Wrappers.Some(p) && p < 0x1_0000_0000_0000_0000
    ensures Executes(Assemble(i), c, c', y) <==> c' == AfterSp(c, i.d, LogicResult(i.is64, i.op, Zr(c, i.n), Number(p)), i.op == AndsL)
  {
    hide *;
    var w := Assemble(i);
    LogicIFields(i);
    Bounds(i);
    AndsIs(i.op);
    ExecLogicI(w, c, c', y, p);
    NumberIs(p);
    OperandIs(c, i.n);
    LogicIs(i.is64, i.op, Zr(c, i.n), Number(p));
    FinishIs(c, i.d, LogicResult(i.is64, i.op, Zr(c, i.n), Number(p)), i.op == AndsL);
  }

  lemma PatternFits(w: nat, p: nat)
    requires BitmaskImm(w) == Wrappers.Some(p)
    ensures p < 0x1_0000_0000_0000_0000
  {
    BitmaskFits(w);
    PowerSteps();
  }

  lemma PowerSteps()
    ensures Pow2(32) == 0x1_0000_0000 && Pow2(64) == 0x1_0000_0000_0000_0000
  {
    assert Pow2(8) == 0x100 && Pow2(16) == 0x1_0000 && Pow2(24) == 0x100_0000 && Pow2(32) == 0x1_0000_0000;
    assert Pow2(40) == 0x100_0000_0000 && Pow2(48) == 0x1_0000_0000_0000 && Pow2(56) == 0x100_0000_0000_0000;
  }

  lemma MovedIs(w: nat, kind: Move, was: Word, imm: nat, hw: nat, is64: bool)
    requires imm < 0x1_0000 && hw < 4
    requires Opc(w) == MoveBits(kind) && w / 0x20 % 0x1_0000 == imm && w / 0x20_0000 % 4 == hw && Is64(w) == is64
    ensures Moved(w, was) == Trim(Moved16(kind, was, Number(imm), hw), is64)
  {
    hide Opc, Is64, ToWord, Number, A64Effects.Cut, Trim, Lane, InLane, NotWord, AndWord, OrWord;
    NumberIs(imm);
    LaneIs(Number(imm), hw);
    LaneIs(0xFFFF, hw);
    TrimIs(Moved16(kind, was, Number(imm), hw), is64);
  }

  lemma WriteIs(c: Cpu, d: nat, v: Word)
    requires d < 32
    ensures WriteZr(c, d, v) == SetZr(c, d, v)
  {
  }

  lemma MoveKind(k: Move)
    ensures MoveBits(k) != 1
  {
  }

  lemma MoveWideMeans(i: DataIns, c: Cpu, c': Cpu, y: Word)
    requires InsOk(i) && i.MoveWide?
    ensures Executes(Assemble(i), c, c', y) <==> c' == SetZr(c, i.d, Trim(Moved16(i.kind, Zr(c, i.d), Number(i.imm), i.hw), i.is64))
  {
    hide *;
    var w := Assemble(i);
    MoveWideFields(i);
    Bounds(i);
    MoveKind(i.kind);
    ExecMoveWide(w, c, c', y);
    OperandIs(c, i.d);
    MovedIs(w, i.kind, Zr(c, i.d), i.imm, i.hw, i.is64);
    WriteIs(c, i.d, Trim(Moved16(i.kind, Zr(c, i.d), Number(i.imm), i.hw), i.is64));
  }

  /** What the decoded word does is what the instruction does. */
  lemma DataMeans(i: DataIns, c: Cpu, c': Cpu, y: Word)
    requires InsOk(i)
    ensures Executes(Assemble(i), c, c', y) <==> Does(i, c, c', y)
  {
    hide Executes, Assemble, AfterSp, AfterZr, AddSubResult, LogicResult, Number, Imm, BaseReg, Zr, SetZr, Trim, Moved16, Pattern;
    match i
    case AddSubI(_, _, _, _, _, _, _) => AddSubIMeans(i, c, c', y);
    case LogicI(_, _, _, _, _, _, _) =>
      var p := PatternOf(i);
      LogicIMeans(i, c, c', y, p);
    case MoveWide(_, _, _, _, _) => MoveWideMeans(i, c, c', y);
    case AddSubR(_, _, _, _, _, _, _, _) => AddSubRMeans(i, c, c', y);
    case LogicR(_, _, _, _, _, _, _, _) => LogicRMeans(i, c, c', y);
  }

  // ---- What the effects leave unknown -----------------------------------------------------------

  /** A register form whose operands are both tracked and neither shifted. */
  predicate Tracked(n: nat, m: nat, amount: nat) { n <= 15 && m <= 15 && amount == 0 }

  /** The effects give up on register `g`, 16 being the flags: an operand is not tracked,
      is shifted or inverted, or the flags are those of an addition of registers. */
  predicate Unknown(i: DataIns, g: nat) {
    match i
    case AddSubI(_, _, flags, _, _, n, d) => n > 15 && ((g == d && d <= 15) || (g == 16 && flags))
    case LogicI(_, op, _, _, _, n, d) => (g == d && d <= 15 && 15 < n < 31) || (g == 16 && op == AndsL && n > 15)
    case MoveWide(_, _, _, _, _) => false
    case AddSubR(_, sub, flags, _, m, amount, n, d) =>
      (g == d && d <= 15 && !Tracked(n, m, amount)) || (g == 16 && flags && !(sub && Tracked(n, m, amount)))
    case LogicR(_, op, _, inverted, m, amount, n, d) =>
      || (g == d && d <= 15 && (inverted || !(Tracked(n, m, amount) || (Tracked(0, m, amount) && n == 31 && op == OrrL))))
      || (g == 16 && op == AndsL && (inverted || !Tracked(n, m, amount)))
  }

  lemma ClobberedJoin(a: seq<Effect>, b: seq<Effect>, g: Reg)
    ensures Clobbered(a + b, g) <==> Clobbered(a, g) || Clobbered(b, g)
  {
  }

  /** The flag effect `fl` and the write `e`: what they clobber. */
  lemma ListClobbers(w: nat, fl: seq<Effect>, e: Effect, g: Reg)
    ensures Clobbered(OrNop(fl + WriteRd(w, e)), g) <==> Clobbered(fl, g) || (Rd(w) <= 15 && e == Clobber(g))
  {
    hide Is64;
    ClobberedJoin(fl, WriteRd(w, e), g);
    ClobberedJoin([e], Zext(Dst(w), Is64(w)), g);
  }

  lemma AddSubIUnknown(i: DataIns, g: Reg)
    requires InsOk(i) && i.AddSubI?
    ensures var w := Assemble(i); ClassOf(w) != OtherClass && (Clobbered(EffectsOf(w), g) <==> Unknown(i, g))
  {
    hide Assemble, Is64, IsSub, SetsFlags, Imm12, Rn, ToWord, NegWord, ClassOf, WriteRd, OrNop;
    var w := Assemble(i);
    AddSubIFields(i);
    ListClobbers(w, AddSubImmFlags(w), AddSubImmWrite(w, Dst(w)), g);
  }

  lemma LogicIUnknown(i: DataIns, g: Reg)
    requires InsOk(i) && i.LogicI?
    ensures var w := Assemble(i); ClassOf(w) != OtherClass && (Clobbered(EffectsOf(w), g) <==> Unknown(i, g))
  {
    hide Assemble, Is64, Opc, Rn, ToWord, BitmaskImm, ClassOf, WriteRd, OrNop, Pattern, Immr, Imms, FieldN;
    var w := Assemble(i);
    LogicIFields(i);
    PatternExact(i, 0);
    ListClobbers(w, LogicalImmFlags(w), LogicalImmWrite(w, Dst(w)), g);
  }

  lemma MoveWideUnknown(i: DataIns, g: Reg)
    requires InsOk(i) && i.MoveWide?
    ensures var w := Assemble(i); ClassOf(w) != OtherClass && !Clobbered(EffectsOf(w), g)
  {
    hide Assemble, Is64, Opc, MoveImm, MoveLane, ClassOf, NotWord;
    MoveWideFields(i);
  }

  lemma AddSubRUnknown(i: DataIns, g: Reg)
    requires InsOk(i) && i.AddSubR?
    ensures var w := Assemble(i); ClassOf(w) != OtherClass && (Clobbered(EffectsOf(w), g) <==> Unknown(i, g))
  {
    hide Assemble, Is64, IsSub, SetsFlags, Rn, Rm, Unshifted, ClassOf, WriteRd, OrNop;
    var w := Assemble(i);
    AddSubRFields(i);
    ListClobbers(w, AddSubRegFlags(w), AddSubRegWrite(w, Dst(w)), g);
  }

  lemma LogicRUnknown(i: DataIns, g: Reg)
    requires InsOk(i) && i.LogicR?
    ensures var w := Assemble(i); ClassOf(w) != OtherClass && (Clobbered(EffectsOf(w), g) <==> Unknown(i, g))
  {
    hide Assemble, Is64, Opc, Rn, Rm, PlainOperand, ClassOf, WriteRd, OrNop;
    var w := Assemble(i);
    LogicRFields(i);
    ListClobbers(w, LogicalRegFlags(w), LogicalRegWrite(w, Dst(w)), g);
  }

  /** The effects clobber a register exactly when they cannot know what the instruction
      leaves there; all else is exact by `EffectsExact`. */
  lemma ClobbersExact(i: DataIns, g: Reg)
    requires InsOk(i)
    ensures var w := Assemble(i); ClassOf(w) != OtherClass && (Clobbered(EffectsOf(w), g) <==> Unknown(i, g))
  {
    hide Assemble, Clobbered, EffectsOf;
    match i
    case AddSubI(_, _, _, _, _, _, _) => AddSubIUnknown(i, g);
    case LogicI(_, _, _, _, _, _, _) => LogicIUnknown(i, g);
    case MoveWide(_, _, _, _, _) => MoveWideUnknown(i, g);
    case AddSubR(_, _, _, _, _, _, _, _) => AddSubRUnknown(i, g);
    case LogicR(_, _, _, _, _, _, _, _) => LogicRUnknown(i, g);
  }

  // ---- Every decoded word is one of these ---------------------------------------------------------

  lemma LowParts(w: nat)
    ensures w == (w / 0x400 * 0x20 + w / 0x20 % 0x20) * 0x20 + w % 0x20
  {
    DivDiv(w, 0x20, 0x20);
    DivMod(w, 0x20);
    DivMod(w / 0x20, 0x20);
  }

  /** Two groups of a word above `unit`. */
  lemma MiddleParts(w: nat, unit: nat, v1: nat, v2: nat, u1: nat, u2: nat)
    requires unit > 0 && u1 > 0 && u2 > 0 && v1 > 0 && v2 > 0 && v1 == unit * u1 && v2 == v1 * u2
    ensures w / unit == (w / v2 * u2 + w / v1 % u2) * u1 + w / unit % u1
  {
    DivDiv(w, unit, u1);
    DivDiv(w, v1, u2);
    TwoParts(w / unit, w / v1, w / v2, u1, u2);
  }

  lemma TwoParts(a: nat, b: nat, c: nat, u1: nat, u2: nat)
    requires u1 > 0 && u2 > 0 && b == a / u1 && c == b / u2
    ensures a == (c * u2 + b % u2) * u1 + a % u1
  {
    DivMod(a, u1);
    DivMod(b, u2);
  }

  /** The top nine bits of a word whose fixed bits are `fixed`. */
  lemma TopParts(w: nat, fixed: nat) returns (is64: bool, op: nat)
    requires w < 0x1_0000_0000 && w / 0x80_0000 % 0x40 == fixed
    ensures op < 4 && w / 0x80_0000 == Top(is64, op, fixed)
  {
    var t := w / 0x80_0000;
    DivMod(t, 0x40);
    var h := t / 0x40;
    assert h < 8;
    is64, op := h >= 4, h % 4;
  }

  lemma SixBits(t: nat, low: nat, fixed: nat)
    requires t % 8 == low && (low, fixed) in {(2, 0x22), (4, 0x24), (5, 0x25)} && (t / 4 % 0x10 == 8 || t / 4 % 0x10 == 9)
    ensures t % 0x40 == fixed
  {
    DivMod(t, 0x40);
    DivMod(t, 8);
    DivDiv(t, 4, 0x10);
    DivDiv(t, 8, 8);
  }

  /** The fixed bits of the immediate classes. */
  lemma ImmediateClass(w: nat)
    ensures ClassOf(w) == AddSubImmClass ==> w / 0x80_0000 % 0x40 == 0x22
    ensures ClassOf(w) == LogicalImmClass ==> w / 0x80_0000 % 0x40 == 0x24
    ensures ClassOf(w) == MovWideClass ==> w / 0x80_0000 % 0x40 == 0x25
  {
    var t := w / 0x80_0000;
    DivDiv(w, 0x80_0000, 4);
    if ClassOf(w) == AddSubImmClass { SixBits(t, 2, 0x22); }
    if ClassOf(w) == LogicalImmClass { SixBits(t, 4, 0x24); }
    if ClassOf(w) == MovWideClass { SixBits(t, 5, 0x25); }
  }

  lemma BitOp(op: nat)
    requires op < 4
    ensures B(op >= 2) * 2 + B(op % 2 == 1) == op
  {
  }

  lemma BitBack(x: nat)
    requires x < 2
    ensures B(x == 1) == x
  {
  }

  lemma CoverAddSubI(w: nat) returns (i: DataIns)
    requires w < 0x1_0000_0000 && w / 0x80_0000 % 0x40 == 0x22
    ensures InsOk(i) && Assemble(i) == w
  {
    hide Top, B;
    var is64, op := TopParts(w, 0x22);
    var sh := w / 0x40_0000 % 2;
    BitOp(op);
    BitBack(sh);
    LowParts(w);
    MiddleParts(w, 0x400, 0x40_0000, 0x80_0000, 0x1000, 2);
    i := AddSubI(is64, op >= 2, op % 2 == 1, sh == 1, w / 0x400 % 0x1000, w / 0x20 % 0x20, w % 0x20);
  }

  function LogicOf(op: nat): Logic
    requires op < 4
  {
    if op == 0 then AndL else if op == 1 then OrrL else if op == 2 then EorL else AndsL
  }

  lemma LogicBack(op: nat)
    requires op < 4
    ensures LogicBits(LogicOf(op)) == op
  {
  }

  lemma SizeBack(w: nat, e: nat)
    requires ElementSize(w) == Wrappers.Some(e) && Rem(Imms(w), e) != e - 1
    ensures Imms(w) == SizeBits(e) + Rem(Imms(w), e) && FieldN(w) == B(e == 64) && (e == 64 ==> Is64(w))
  {
    hide Is64;
    RemIsMod(Imms(w), e);
    assert Pow2(1) == 2 && Pow2(2) == 4 && Pow2(3) == 8 && Pow2(4) == 16 && Pow2(5) == 32 && Pow2(6) == 64;
  }

  lemma CoverLogicI(w: nat) returns (i: DataIns)
    requires w < 0x1_0000_0000 && w / 0x80_0000 % 0x40 == 0x24 && BitmaskImm(w).Some?
    ensures InsOk(i) && Assemble(i) == w
  {
    hide Top, B, ElementSize, Rem, SizeBits, LogicBits, LogicOf, Element, Repeated, Imms, FieldN, Is64, Opc, IsSub, SetsFlags;
    var is64, op := TopParts(w, 0x24);
    TopFields(w, is64, op, 0x24);
    var e := ElementSize(w).value;
    var s := Rem(Imms(w), e);
    SizeBack(w, e);
    LogicBack(op);
    LogicIParts(w);
    i := LogicI(is64, LogicOf(op), e, s, w / 0x1_0000 % 0x40, w / 0x20 % 0x20, w % 0x20);
  }

  lemma LogicIParts(w: nat)
    ensures w == ((((w / 0x80_0000 * 2 + FieldN(w)) * 0x40 + w / 0x1_0000 % 0x40) * 0x40 + Imms(w)) * 0x20 + w / 0x20 % 0x20) * 0x20
                 + w % 0x20
  {
    LowParts(w);
    MiddleParts(w, 0x400, 0x1_0000, 0x40_0000, 0x40, 0x40);
    MiddleParts(w, 0x1_0000, 0x40_0000, 0x80_0000, 0x40, 2);
  }

  function MoveOf(op: nat): Move { if op == 0 then Movn else if op == 2 then Movz else Movk }

  lemma MoveBack(op: nat)
    requires op < 4 && op != 1
    ensures MoveBits(MoveOf(op)) == op
  {
  }

  lemma CoverMoveWide(w: nat) returns (i: DataIns)
    requires w < 0x1_0000_0000 && w / 0x80_0000 % 0x40 == 0x25 && Opc(w) != 1
    ensures InsOk(i) && Assemble(i) == w
  {
    hide Top, B, MoveBits, MoveOf;
    var is64, op := TopParts(w, 0x25);
    TopFields(w, is64, op, 0x25);
    MoveBack(op);
    DivMod(w, 0x20);
    MiddleParts(w, 0x20, 0x20_0000, 0x80_0000, 0x1_0000, 4);
    i := MoveWide(is64, MoveOf(op), w / 0x20_0000 % 4, w / 0x20 % 0x1_0000, w % 0x20);
  }

  /** The fixed bits of the register classes. */
  lemma RegisterClass(w: nat)
    ensures ClassOf(w) == LogicalRegClass ==> w / 0x100_0000 % 0x20 == 10
    ensures ClassOf(w) == AddSubRegClass ==> w / 0x100_0000 % 0x20 == 11 && w / 0x20_0000 % 2 == 0
  {
    var t := w / 0x100_0000;
    DivDiv(w, 0x100_0000, 2);
    DivDiv(w, 0x100_0000, 0x10);
    if ClassOf(w) == LogicalRegClass || ClassOf(w) == AddSubRegClass { FiveBits(t); }
  }

  lemma FiveBits(t: nat)
    requires (t / 2 % 0x10 == 5 || t / 2 % 0x10 == 13) && t / 0x10 % 2 == 0
    ensures t % 0x20 == 10 + t % 2
  {
    DivMod(t, 0x20);
    DivDiv(t, 2, 0x10);
    DivDiv(t, 0x10, 2);
    DivDiv(t, 2, 8);
  }

  lemma RegTopParts(w: nat, fixed: nat) returns (is64: bool, op: nat)
    requires w < 0x1_0000_0000 && w / 0x100_0000 % 0x20 == fixed
    ensures op < 4 && w / 0x100_0000 == RegTop(is64, op, fixed)
  {
    var t := w / 0x100_0000;
    DivMod(t, 0x20);
    var h := t / 0x20;
    assert h < 8;
    is64, op := h >= 4, h % 4;
  }

  lemma RegParts(w: nat)
    ensures w == (((((w / 0x100_0000 * 4 + w / 0x40_0000 % 4) * 2 + w / 0x20_0000 % 2) * 0x20 + w / 0x1_0000 % 0x20) * 0x40
                   + w / 0x400 % 0x40) * 0x20 + w / 0x20 % 0x20) * 0x20 + w % 0x20
  {
    LowParts(w);
    MiddleParts(w, 0x400, 0x1_0000, 0x20_0000, 0x40, 0x20);
    MiddleParts(w, 0x20_0000, 0x40_0000, 0x100_0000, 2, 4);
  }

  lemma CoverAddSubR(w: nat) returns (i: DataIns)
    requires w < 0x1_0000_0000 && w / 0x100_0000 % 0x20 == 11 && w / 0x20_0000 % 2 == 0
    ensures InsOk(i) && Assemble(i) == w
  {
    hide RegTop, B;
    var is64, op := RegTopParts(w, 11);
    BitOp(op);
    RegParts(w);
    i := AddSubR(is64, op >= 2, op % 2 == 1, w / 0x40_0000 % 4, w / 0x1_0000 % 0x20, w / 0x400 % 0x40, w / 0x20 % 0x20, w % 0x20);
  }

  lemma CoverLogicR(w: nat) returns (i: DataIns)
    requires w < 0x1_0000_0000 && w / 0x100_0000 % 0x20 == 10
    ensures InsOk(i) && Assemble(i) == w
  {
    hide RegTop, B, LogicBits, LogicOf;
    var is64, op := RegTopParts(w, 10);
    LogicBack(op);
    BitBack(w / 0x20_0000 % 2);
    RegParts(w);
    i := LogicR(is64, LogicOf(op), w / 0x40_0000 % 4, w / 0x20_0000 % 2 == 1, w / 0x1_0000 % 0x20, w / 0x400 % 0x40,
                w / 0x20 % 0x20, w % 0x20);
  }

  /** The words of a class that the architecture leaves unallocated. */
  predicate Unallocated(w: nat) {
    (ClassOf(w) == LogicalImmClass && BitmaskImm(w).None?) || (ClassOf(w) == MovWideClass && Opc(w) == 1)
  }

  /** Every other word of a modelled class is assembled from an instruction, so `DataMeans`
      says what the decoded processor does with all of them. */
  lemma Assembled(w: nat) returns (i: DataIns)
    requires w < 0x1_0000_0000 && ClassOf(w) != OtherClass && !Unallocated(w)
    ensures InsOk(i) && Assemble(i) == w
  {
    hide Assemble, InsOk, ClassOf, BitmaskImm, Opc;
    ImmediateClass(w);
    RegisterClass(w);
    match ClassOf(w)
    case AddSubImmClass => i := CoverAddSubI(w);
    case LogicalImmClass => i := CoverLogicI(w);
    case MovWideClass => i := CoverMoveWide(w);
    case AddSubRegClass => i := CoverAddSubR(w);
    case LogicalRegClass => i := CoverLogicR(w);
  }

  // ---- Branches -----------------------------------------------------------------------------------

  /** `imm` counts words. */
  datatype BranchIns =
    | Jump(link: bool, imm: int)
    | Cond(cond: nat, imm: int)
    | Zero(is64: bool, nz: bool, imm: int, t: nat)
    | Bit1(bit: nat, nz: bool, imm: int, t: nat)

  predicate BranchOk(i: BranchIns) {
    match i
    case Jump(_, imm) => -0x200_0000 <= imm < 0x200_0000
    case Cond(cond, imm) => cond < 16 && -0x4_0000 <= imm < 0x4_0000
    case Zero(_, _, imm, t) => -0x4_0000 <= imm < 0x4_0000 && t < 32
    case Bit1(bit, _, imm, t) => bit < 64 && -0x2000 <= imm < 0x2000 && t < 32
  }

  function AssembleBranch(i: BranchIns): nat {
    match i
    case Jump(link, imm) => (B(link) * 0x20 + 5) * 0x400_0000 + imm % 0x400_0000
    case Cond(cond, imm) => (0x54 * 0x8_0000 + imm % 0x8_0000) * 0x20 + cond
    case Zero(is64, nz, imm, t) => (((B(is64) * 0x40 + 0x1a) * 2 + B(nz)) * 0x8_0000 + imm % 0x8_0000) * 0x20 + t
    case Bit1(bit, nz, imm, t) =>
      ((((bit / 0x20 * 0x40 + 0x1b) * 2 + B(nz)) * 0x20 + bit % 0x20) * 0x4000 + imm % 0x4000) * 0x20 + t
  }

  /** Sign extension undoes reduction. */
  lemma Signed(imm: int, half: int)
    requires half in {0x200_0000, 0x4_0000, 0x2000} && -half <= imm < half
    ensures Br.SignExtend(imm % (2 * half), half) == imm
  {
    Br.SignExtendBack(imm, half);
  }

  /** The patcher's decoder: the displacement is four times the immediate. */
  lemma OffsetMeans(i: BranchIns)
    requires BranchOk(i)
    ensures Br.FormOf(AssembleBranch(i)) == (match i case Jump(_, _) => Br.B26 case Bit1(_, _, _, _) => Br.B14 case _ => Br.B19)
    ensures Br.Offset(AssembleBranch(i)) == 4 * i.imm
  {
    hide Br.SignExtend, Br.Offset;
    match i
    case Jump(link, imm) => JumpOffset(link, imm);
    case Cond(cond, imm) => CondOffset(cond, imm);
    case Zero(is64, nz, imm, t) => ZeroOffset(is64, nz, imm, t);
    case Bit1(bit, nz, imm, t) => BitOffset(bit, nz, imm, t);
  }

  lemma JumpOffset(link: bool, imm: int)
    requires -0x200_0000 <= imm < 0x200_0000
    ensures var w := AssembleBranch(Jump(link, imm)); Br.FormOf(w) == Br.B26 && Br.Offset(w) == 4 * imm
  {
    Arith.Cut(B(link) * 0x20 + 5, 0x400_0000, imm % 0x400_0000);
    Signed(imm, 0x200_0000);
  }

  /** Bits 31 to 24, bits 23 to 5 and bits 4 to 0. */
  lemma ThreeParts(top: nat, mid: nat, low: nat)
    requires mid < 0x8_0000 && low < 0x20
    ensures var w := (top * 0x8_0000 + mid) * 0x20 + low;
      && w % 0x20 == low && w / 0x20 % 0x8_0000 == mid && w / 0x100_0000 == top && w / 0x200_0000 == top / 2 && w / 0x400_0000 == top / 4
      && w / 0x8000_0000 == top / 0x80
  {
    var w := (top * 0x8_0000 + mid) * 0x20 + low;
    Arith.Cut(top * 0x8_0000 + mid, 0x20, low);
    Layer(w, 0x20, top, 0x8_0000, mid);
    DivDiv(w, 0x100_0000, 2);
    DivDiv(w, 0x100_0000, 4);
    DivDiv(w, 0x100_0000, 0x80);
  }

  lemma LowTail(w: nat, low: nat)
    requires w % 0x20 == low
    ensures w / 0x10 % 2 == low / 0x10 && w % 0x10 == low % 0x10
  {
    DivDiv(w, 0x10, 2);
  }

  lemma CondOffset(cond: nat, imm: int)
    requires cond < 16 && -0x4_0000 <= imm < 0x4_0000
    ensures var w := AssembleBranch(Cond(cond, imm)); Br.FormOf(w) == Br.B19 && Br.Offset(w) == 4 * imm
  {
    ThreeParts(0x54, imm % 0x8_0000, cond);
    LowTail(AssembleBranch(Cond(cond, imm)), cond);
    Signed(imm, 0x4_0000);
  }

  lemma ZeroOffset(is64: bool, nz: bool, imm: int, t: nat)
    requires -0x4_0000 <= imm < 0x4_0000 && t < 32
    ensures var w := AssembleBranch(Zero(is64, nz, imm, t)); Br.FormOf(w) == Br.B19 && Br.Offset(w) == 4 * imm
  {
    TopByte(B(is64), 0x1a, B(nz));
    ThreeParts((B(is64) * 0x40 + 0x1a) * 2 + B(nz), imm % 0x8_0000, t);
    Signed(imm, 0x4_0000);
  }

  /** The same with the low five of the tested bit's number in bits 23 to 19. */
  lemma FourParts(top: nat, b40: nat, mid: nat, low: nat)
    requires b40 < 0x20 && mid < 0x4000 && low < 0x20
    ensures var w := ((top * 0x20 + b40) * 0x4000 + mid) * 0x20 + low;
      && w % 0x20 == low && w / 0x20 % 0x4000 == mid && w / 0x8_0000 % 0x20 == b40
      && w / 0x100_0000 == top && w / 0x200_0000 == top / 2 && w / 0x400_0000 == top / 4 && w / 0x8000_0000 == top / 0x80
  {
    var w := ((top * 0x20 + b40) * 0x4000 + mid) * 0x20 + low;
    Arith.Cut((top * 0x20 + b40) * 0x4000 + mid, 0x20, low);
    Layer(w, 0x20, top * 0x20 + b40, 0x4000, mid);
    Layer(w, 0x8_0000, top, 0x20, b40);
    DivDiv(w, 0x100_0000, 2);
    DivDiv(w, 0x100_0000, 4);
    DivDiv(w, 0x100_0000, 0x80);
  }

  /** A top byte with a six-bit opcode in the middle. */
  lemma TopByte(b5: nat, op: nat, nz: nat)
    requires b5 < 2 && (op == 0x1a || op == 0x1b) && nz < 2
    ensures var top := (b5 * 0x40 + op) * 2 + nz;
      && top / 2 % 0x40 == op && top % 2 == nz && top / 0x80 == b5 && top != 0x54 && top / 4 != 5 && top / 4 != 37
  {
  }

  lemma BitOffset(bit: nat, nz: bool, imm: int, t: nat)
    requires bit < 64 && -0x2000 <= imm < 0x2000 && t < 32
    ensures var w := AssembleBranch(Bit1(bit, nz, imm, t)); Br.FormOf(w) == Br.B14 && Br.Offset(w) == 4 * imm
  {
    hide B, Br.SignExtend;
    TopByte(bit / 0x20, 0x1b, B(nz));
    FourParts((bit / 0x20 * 0x40 + 0x1b) * 2 + B(nz), bit % 0x20, imm % 0x4000, t);
    Signed(imm, 0x2000);
  }

  lemma Unsigned(v: nat, half: int)
    requires 0 < half && v < 2 * half
    ensures -half <= Br.SignExtend(v, half) < half && Br.SignExtend(v, half) % (2 * half) == v
  {
    if v < half { Arith.Cut(0, 2 * half, v); } else { Wrapped(v, 2 * half); }
  }

  lemma Wrapped(v: nat, m: nat)
    requires v < m
    ensures (v - m) % m == v
  {
    var k := (v - m) / m;
    if k > -1 { AtLeast(k + 1, m); }
    if k < -1 { AtLeast(-1 - k, m); }
  }

  /** A word of 32 bits with a branch form is assembled from a branch. */
  lemma BranchAssembled(w: nat) returns (i: BranchIns)
    requires w < 0x1_0000_0000 && Br.FormOf(w) != Br.Other
    ensures BranchOk(i) && AssembleBranch(i) == w
  {
    if w / 0x400_0000 == 5 || w / 0x400_0000 == 37 { i := JumpCover(w); }
    else if w / 0x100_0000 == 0x54 && w / 0x10 % 2 == 0 { i := CondCover(w); }
    else if w / 0x200_0000 % 0x40 == 0x1a { i := ZeroCover(w); }
    else { i := BitCover(w); }
  }

  lemma JumpCover(w: nat) returns (i: BranchIns)
    requires w / 0x400_0000 == 5 || w / 0x400_0000 == 37
    ensures BranchOk(i) && AssembleBranch(i) == w
  {
    DivMod(w, 0x400_0000);
    Unsigned(w % 0x400_0000, 0x200_0000);
    i := Jump(w / 0x400_0000 == 37, Br.SignExtend(w % 0x400_0000, 0x200_0000));
  }

  lemma CondCover(w: nat) returns (i: BranchIns)
    requires w / 0x100_0000 == 0x54 && w / 0x10 % 2 == 0
    ensures BranchOk(i) && AssembleBranch(i) == w
  {
    DivMod(w, 0x20);
    LowTail(w, w % 0x20);
    DivDiv(w, 0x20, 0x8_0000);
    DivMod(w / 0x20, 0x8_0000);
    Unsigned(w / 0x20 % 0x8_0000, 0x4_0000);
    i := Cond(w % 0x20, Br.SignExtend(w / 0x20 % 0x8_0000, 0x4_0000));
  }

  /** The top eight bits around a six-bit opcode. */
  lemma OpcodeByte(w: nat, op: nat)
    requires w < 0x1_0000_0000 && w / 0x200_0000 % 0x40 == op
    ensures w / 0x100_0000 == (w / 0x8000_0000 * 0x40 + op) * 2 + w / 0x100_0000 % 2 && w / 0x8000_0000 < 2
  {
    DivDiv(w, 0x100_0000, 2);
    DivDiv(w, 0x200_0000, 0x40);
    DivMod(w / 0x200_0000, 0x40);
  }

  lemma ZeroCover(w: nat) returns (i: BranchIns)
    requires w < 0x1_0000_0000 && w / 0x200_0000 % 0x40 == 0x1a
    ensures BranchOk(i) && AssembleBranch(i) == w
  {
    hide Br.SignExtend;
    OpcodeByte(w, 0x1a);
    DivMod(w, 0x20);
    DivDiv(w, 0x20, 0x8_0000);
    DivMod(w / 0x20, 0x8_0000);
    Unsigned(w / 0x20 % 0x8_0000, 0x4_0000);
    i := Zero(w / 0x8000_0000 == 1, w / 0x100_0000 % 2 == 1, Br.SignExtend(w / 0x20 % 0x8_0000, 0x4_0000), w % 0x20);
  }

  lemma BitNumber(b5: nat, b40: nat)
    requires b5 < 2 && b40 < 0x20
    ensures (b5 * 0x20 + b40) / 0x20 == b5 && (b5 * 0x20 + b40) % 0x20 == b40
  {
  }

  lemma BitCover(w: nat) returns (i: BranchIns)
    requires w < 0x1_0000_0000 && w / 0x200_0000 % 0x40 == 0x1b
    ensures BranchOk(i) && AssembleBranch(i) == w
  {
    hide Br.SignExtend;
    OpcodeByte(w, 0x1b);
    var b40 := w / 0x8_0000 % 0x20;
    BitNumber(w / 0x8000_0000, b40);
    DivMod(w, 0x20);
    DivDiv(w, 0x20, 0x4000);
    DivMod(w / 0x20, 0x4000);
    DivDiv(w, 0x8_0000, 0x20);
    DivMod(w / 0x8_0000, 0x20);
    Unsigned(w / 0x20 % 0x4000, 0x2000);
    i := Bit1(w / 0x8000_0000 * 0x20 + b40, w / 0x100_0000 % 2 == 1, Br.SignExtend(w / 0x20 % 0x4000, 0x2000), w % 0x20);
  }

  // ---- What a conditional branch tests ----------------------------------------------------------

  /** Whether the processor takes it. */
  predicate Taken(i: BranchIns, c: Cpu)
    requires BranchOk(i) && (i.Cond? ==> i.cond <= 1)
  {
    match i
    case Jump(_, _) => true
    case Cond(cond, _) => c.z == (cond == 0)
    case Zero(is64, nz, _, t) => (Trim(Zr(c, t), is64) == 0) != nz
    case Bit1(bit, nz, _, t) => (AndWord(Zr(c, t), ShlWord(1, bit as bv6)) == 0) != nz
  }

  lemma CondTest(cond: nat, imm: int, c: Cpu)
    requires cond < 16 && -0x4_0000 <= imm < 0x4_0000
    ensures var w := AssembleBranch(Cond(cond, imm));
      && BranchTestOf(w) == (if cond == 0 then Wrappers.Some(BranchTest(Flags, Eq))
                             else if cond == 1 then Wrappers.Some(BranchTest(Flags, Ne)) else Wrappers.None)
      && (cond <= 1 ==> Takes(w, c) == Taken(Cond(cond, imm), c))
  {
    ThreeParts(0x54, imm % 0x8_0000, cond);
    LowTail(AssembleBranch(Cond(cond, imm)), cond);
  }

  lemma MasksAre(is64: bool)
    ensures MaskOf(is64) == if is64 then 0xFFFF_FFFF_FFFF_FFFF else 0xFFFF_FFFF
  {
  }

  lemma ZeroFields(is64: bool, nz: bool, imm: int, t: nat)
    requires -0x4_0000 <= imm < 0x4_0000 && t < 32
    ensures var w := AssembleBranch(Zero(is64, nz, imm, t));
      !IsBcond(w) && IsCbz(w) && !IsTbz(w) && IsNz(w) == nz && Is64(w) == is64 && Rd(w) == t
  {
    TopByte(B(is64), 0x1a, B(nz));
    ThreeParts((B(is64) * 0x40 + 0x1a) * 2 + B(nz), imm % 0x8_0000, t);
  }

  lemma ZeroTest(is64: bool, nz: bool, imm: int, t: nat, c: Cpu)
    requires -0x4_0000 <= imm < 0x4_0000 && t < 32
    ensures var w := AssembleBranch(Zero(is64, nz, imm, t));
      && BranchTestOf(w) == (if t > 15 then Wrappers.None
           else Wrappers.Some(BranchTest(RegBits(t, if is64 then 0xFFFF_FFFF_FFFF_FFFF else 0xFFFF_FFFF), if nz then Ne else Eq)))
      && Takes(w, c) == Taken(Zero(is64, nz, imm, t), c)
  {
    hide AssembleBranch, IsBcond, IsCbz, IsTbz, IsNz, Is64, Rd, MaskOf, A64Effects.Cut, Trim, ReadZr, Zr;
    ZeroFields(is64, nz, imm, t);
    MasksAre(is64);
    OperandIs(c, t);
    TrimIs(Zr(c, t), is64);
  }

  lemma BitFields(bit: nat, nz: bool, imm: int, t: nat)
    requires bit < 64 && -0x2000 <= imm < 0x2000 && t < 32
    ensures var w := AssembleBranch(Bit1(bit, nz, imm, t));
      !IsBcond(w) && !IsCbz(w) && IsTbz(w) && IsNz(w) == nz && TestedBit(w) == bit && Rd(w) == t
  {
    TopByte(bit / 0x20, 0x1b, B(nz));
    FourParts((bit / 0x20 * 0x40 + 0x1b) * 2 + B(nz), bit % 0x20, imm % 0x4000, t);
  }

  lemma OneIs(b: nat)
    requires b < 64
    ensures OneAt(b) == ShlWord(1, b as bv6)
  {
  }

  lemma BitTest(bit: nat, nz: bool, imm: int, t: nat, c: Cpu)
    requires bit < 64 && -0x2000 <= imm < 0x2000 && t < 32
    ensures var w := AssembleBranch(Bit1(bit, nz, imm, t));
      && BranchTestOf(w) == (if t > 15 then Wrappers.None
           else Wrappers.Some(BranchTest(RegBits(t, ShlWord(1, bit as bv6)), if nz then Ne else Eq)))
      && Takes(w, c) == Taken(Bit1(bit, nz, imm, t), c)
  {
    hide AssembleBranch, IsBcond, IsCbz, IsTbz, IsNz, Rd, TestedBit, OneAt, ReadZr, Zr, AndWord, ShlWord;
    BitFields(bit, nz, imm, t);
    OneIs(bit);
    OperandIs(c, t);
  }
}
