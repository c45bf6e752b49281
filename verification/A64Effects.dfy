/**
 AArch64 instructions as effects on tracked registers
 (src/analysis/regstate.rs:540-552, 605-624, 713-918, 1027-1108).

 The processor below follows the Arm ARM (DDI 0487, section C6.2) for the five
 modelled classes: 31 general registers, SP and the Z flag.  The theorem is that
 the effect list simulates it: from a register file that agrees with the processor,
 the effects can reach one that agrees after the instruction.
 */
module A64Effects {
  import opened Wrappers
  import opened Bits
  import opened Lattice
  import opened SccpModel
  import opened A64Bitmask

  const LOW32: Word := 0xFFFF_FFFF
  const ALL64: Word := 0xFFFF_FFFF_FFFF_FFFF

  /** A number as a 64-bit pattern. */
  function ToWord(v: nat): Word { if v < 0x1_0000_0000_0000_0000 then v as bv64 else 0 }

  // ---- Fields ------------------------------------------------------------------------

  function Rd(w: nat): nat { w % 0x20 }
  function Rn(w: nat): nat { w / 0x20 % 0x20 }
  function Rm(w: nat): nat { w / 0x1_0000 % 0x20 }
  predicate IsSub(w: nat) { w / 0x4000_0000 % 2 == 1 }
  predicate SetsFlags(w: nat) { w / 0x2000_0000 % 2 == 1 }
  function Opc(w: nat): nat { w / 0x2000_0000 % 4 }

  /** The unsigned immediate of ADD/SUB, shifted by 12 if asked. */
  function Imm12(w: nat): nat {
    if w / 0x40_0000 % 2 == 1 then w / 0x400 % 0x1000 * 0x1000 else w / 0x400 % 0x1000
  }

  /** `x << (16 * hw)`. */
  function Lane(x: Word, hw: nat): Word {
    if hw == 0 then x else if hw == 1 then ShlWord(x, 16) else if hw == 2 then ShlWord(x, 32) else ShlWord(x, 48)
  }

  function MoveImm(w: nat): Word { Lane(ToWord(w / 0x20 % 0x1_0000), w / 0x20_0000 % 4) }

  function MoveLane(w: nat): Word { Lane(0xFFFF, w / 0x20_0000 % 4) }

  // ---- Effects ---------------------------------------------------------------------------

  /** X0 to X15 are tracked. */
  function RegId(n: nat): Option<Reg> { if n <= 15 then Some(n) else None }

  /** The implicit zero-extension of a 32-bit write. */
  function Zext(d: Reg, is64: bool): seq<Effect> { if is64 then [] else [BinOpImm(d, And, d, LOW32)] }

  function OrNop(e: seq<Effect>): seq<Effect> { if e == [] then [Nop] else e }

  /** Rd, when it is tracked. */
  function Dst(w: nat): Reg { if Rd(w) <= 15 then Rd(w) else 0 }

  /** One write `e` of Rd, if it is tracked. */
  function WriteRd(w: nat, e: Effect): seq<Effect> {
    if RegId(Rd(w)).None? then [] else [e] + Zext(Dst(w), Is64(w))
  }

  function AddSubOp(w: nat): BinOp { if IsSub(w) then Sub else Add }

  function NegWord(x: Word): Word { 0 - x }

  // ADD and SUB (immediate), with CMP and CMN.

  function AddSubImmFlags(w: nat): seq<Effect> {
    var rn := RegId(Rn(w));
    if !SetsFlags(w) then []
    else if rn.None? then [Clobber(FLAGS_REG)]
    else if IsSub(w) then [CmpImm(rn.value, ToWord(Imm12(w)))] else [CmpImm(rn.value, NegWord(ToWord(Imm12(w))))]
  }

  function AddSubImmWrite(w: nat, d: Reg): Effect {
    var rn := RegId(Rn(w));
    if rn.None? then Clobber(d) else BinOpImm(d, AddSubOp(w), rn.value, ToWord(Imm12(w)))
  }

  function AddSubImm(w: nat): seq<Effect> { OrNop(AddSubImmFlags(w) + WriteRd(w, AddSubImmWrite(w, Dst(w)))) }

  // AND, ORR, EOR and ANDS (immediate), with MOV and TST.

  function LogicOp(opc: nat): BinOp { if opc == 1 then Or else if opc == 2 then Xor else And }

  function LogicalImmFlags(w: nat): seq<Effect> {
    var rn, imm := RegId(Rn(w)), BitmaskImm(w);
    if Opc(w) != 3 then []
    else if rn.Some? && imm.Some? then [TestImm(rn.value, ToWord(imm.value))] else [Clobber(FLAGS_REG)]
  }

  function LogicalImmWrite(w: nat, d: Reg): Effect {
    var rn, imm, op := RegId(Rn(w)), BitmaskImm(w), LogicOp(Opc(w));
    if imm.None? then Clobber(d)
    else if Rn(w) == 31 then (if op != And then MovConst(d, ToWord(imm.value)) else MovConst(d, 0))
    else if rn.Some? then BinOpImm(d, op, rn.value, ToWord(imm.value)) else Clobber(d)
  }

  function LogicalImm(w: nat): seq<Effect> { OrNop(LogicalImmFlags(w) + WriteRd(w, LogicalImmWrite(w, Dst(w)))) }

  // MOVN, MOVZ and MOVK.

  function MovWide(w: nat): seq<Effect> {
    var d := Dst(w);
    if RegId(Rd(w)).None? then [Nop]
    else if Opc(w) == 3 then
      [BinOpImm(d, And, d, NotWord(MoveLane(w))), BinOpImm(d, Or, d, MoveImm(w))] + Zext(d, Is64(w))
    else WriteRd(w, MovWideWrite(w, d))
  }

  function MovWideWrite(w: nat, d: Reg): Effect {
    if Opc(w) == 0 then MovConst(d, NotWord(MoveImm(w)))
    else if Opc(w) == 2 then MovConst(d, MoveImm(w)) else Clobber(d)
  }

  // ADD and SUB (shifted register), with CMP and NEG.

  predicate Unshifted(w: nat) { w / 0x400 % 0x40 == 0 }

  predicate KnownOperands(w: nat) { RegId(Rn(w)).Some? && RegId(Rm(w)).Some? }

  function AddSubRegFlags(w: nat): seq<Effect> {
    if !SetsFlags(w) then []
    else if KnownOperands(w) && Unshifted(w) && IsSub(w) then [CmpReg(Rn(w), Rm(w))] else [Clobber(FLAGS_REG)]
  }

  function AddSubRegWrite(w: nat, d: Reg): Effect {
    if KnownOperands(w) && Unshifted(w) then BinOpReg(d, AddSubOp(w), Rn(w), Rm(w)) else Clobber(d)
  }

  function AddSubReg(w: nat): seq<Effect> { OrNop(AddSubRegFlags(w) + WriteRd(w, AddSubRegWrite(w, Dst(w)))) }

  // AND, ORR, EOR and ANDS (shifted register) and their inverted forms, with MOV and TST.

  /** Unshifted and not inverted. */
  predicate PlainOperand(w: nat) { Unshifted(w) && w / 0x20_0000 % 2 == 0 }

  function LogicalRegFlags(w: nat): seq<Effect> {
    if Opc(w) != 3 then []
    else if KnownOperands(w) && PlainOperand(w) then [TestReg(Rn(w), Rm(w))] else [Clobber(FLAGS_REG)]
  }

  function LogicalRegWrite(w: nat, d: Reg): Effect {
    var m := RegId(Rm(w));
    if m.Some? && PlainOperand(w) && Rn(w) == 31 && Opc(w) == 1 then MovReg(d, m.value)
    else if KnownOperands(w) && PlainOperand(w) then BinOpReg(d, LogicOp(Opc(w)), Rn(w), Rm(w))
    else Clobber(d)
  }

  function LogicalReg(w: nat): seq<Effect> { OrNop(LogicalRegFlags(w) + WriteRd(w, LogicalRegWrite(w, Dst(w)))) }

  /** The classes modelled here; `OtherClass` words are not. */
  datatype Class = AddSubImmClass | LogicalImmClass | MovWideClass | AddSubRegClass | LogicalRegClass | OtherClass

  function ClassOf(w: nat): Class {
    var group := w / 0x200_0000 % 0x10;
    if group == 8 || group == 9 then
      var sub := w / 0x80_0000 % 8;
      if sub == 2 then AddSubImmClass else if sub == 4 then LogicalImmClass else if sub == 5 then MovWideClass
      else OtherClass
    else if (group == 5 || group == 13) && w / 0x1000_0000 % 2 == 0 then
      if w / 0x100_0000 % 2 == 0 then LogicalRegClass
      else if w / 0x20_0000 % 2 == 0 then AddSubRegClass else OtherClass
    else OtherClass
  }

  function EffectsOf(w: nat): seq<Effect>
    requires ClassOf(w) != OtherClass
  {
    match ClassOf(w)
    case AddSubImmClass => AddSubImm(w)
    case LogicalImmClass => LogicalImm(w)
    case MovWideClass => MovWide(w)
    case AddSubRegClass => AddSubReg(w)
    case LogicalRegClass => LogicalReg(w)
  }

  // ---- The processor -----------------------------------------------------------------------

  type Regs31 = s: seq<Word> | |s| == 31 witness seq(31, i => 0)

  datatype Cpu = Cpu(x: Regs31, sp: Word, z: bool)

  function ReadZr(c: Cpu, n: nat): Word { if n < 31 then c.x[n] else 0 }
  function ReadSp(c: Cpu, n: nat): Word { if n < 31 then c.x[n] else c.sp }
  function WriteZr(c: Cpu, n: nat, v: Word): Cpu { if n < 31 then c.(x := c.x[n := v]) else c }
  function WriteSp(c: Cpu, n: nat, v: Word): Cpu { if n < 31 then c.(x := c.x[n := v]) else c.(sp := v) }

  /** A value cut to the operand width. */
  function Cut(v: Word, is64: bool): Word { if is64 then v else AndWord(v, LOW32) }


  /** The five operations of these classes. */
  predicate IsAluOp(op: BinOp) { op == Add || op == Sub || op == And || op == Or || op == Xor }

  function AluWord(op: BinOp, a: Word, b: Word): Word
    requires IsAluOp(op)
  {
    match op
    case Add => AddWord(a, b)
    case Sub => SubWord(a, b)
    case And => AndWord(a, b)
    case Or => OrWord(a, b)
    case Xor => XorWord(a, b)
  }

  /** A data-processing result: operands and result at the operand width. */
  function Alu(op: BinOp, a: Word, b: Word, is64: bool): Word
    requires IsAluOp(op)
  {
    Cut(AluWord(op, Cut(a, is64), Cut(b, is64)), is64)
  }

  /** Writes a result and, if asked, Z; register 31 is XZR when flags are set, else SP. */
  function Finish(c: Cpu, d: nat, v: Word, flags: bool): Cpu {
    if flags then WriteZr(c, d, v).(z := IsZero(v)) else WriteSp(c, d, v)
  }

  predicate IsZero(v: Word) { v == 0 }

  /** The same for the register forms, where register 31 is always XZR. */
  function FinishZr(c: Cpu, d: nat, v: Word, flags: bool): Cpu {
    if flags then WriteZr(c, d, v).(z := IsZero(v)) else WriteZr(c, d, v)
  }

  /** MOVN, MOVZ and MOVK, from the old value of Rd. */
  function Moved(w: nat, was: Word): Word {
    Cut(match Opc(w)
        case 0 => NotWord(MoveImm(w))
        case 2 => MoveImm(w)
        case _ => OrWord(AndWord(was, NotWord(MoveLane(w))), MoveImm(w)), Is64(w))
  }

  /**
   The instruction takes `c` to `c'`.  `y` is the second operand of a register form:
   the register itself when plain, unconstrained when shifted, extended or inverted.
   */
  ghost predicate Executes(w: nat, c: Cpu, c': Cpu, y: Word) {
    match ClassOf(w)
    case AddSubImmClass =>
      c' == Finish(c, Rd(w), Alu(AddSubOp(w), ReadSp(c, Rn(w)), ToWord(Imm12(w)), Is64(w)), SetsFlags(w))
    case LogicalImmClass =>
      && BitmaskImm(w).Some?
      && c' == Finish(c, Rd(w), Alu(LogicOp(Opc(w)), ReadZr(c, Rn(w)), ToWord(BitmaskImm(w).value), Is64(w)), Opc(w) == 3)
    case MovWideClass => Opc(w) != 1 && c' == WriteZr(c, Rd(w), Moved(w, ReadZr(c, Rd(w))))
    case AddSubRegClass =>
      && (Unshifted(w) ==> y == ReadZr(c, Rm(w)))
      && c' == FinishZr(c, Rd(w), Alu(AddSubOp(w), ReadZr(c, Rn(w)), y, Is64(w)), SetsFlags(w))
    case LogicalRegClass =>
      && (PlainOperand(w) ==> y == ReadZr(c, Rm(w)))
      && c' == FinishZr(c, Rd(w), Alu(LogicOp(Opc(w)), ReadZr(c, Rn(w)), y, Is64(w)), Opc(w) == 3)
    case OtherClass => false
  }

  /** The register file holds the tracked registers, and its slot 16 explains Z at some compare width. */
  ghost predicate Agrees(c: Cpu, r: Concrete) {
    && (forall g: nat :: g < 16 ==> r[g] == c.x[g])
    && exists m: Word :: WidthMask(m) && c.z == ZeroBits(r[16], m)
  }

  // ---- Width facts ---------------------------------------------------------------------------

  function MaskOf(is64: bool): Word { if is64 then ALL64 else LOW32 }

  lemma WidthOf(is64: bool)
    ensures WidthMask(MaskOf(is64))
  {
  }

  /** The operation an effect computes is the one of the processor. */
  lemma AluIs(op: BinOp, a: Word, b: Word)
    requires IsAluOp(op)
    ensures ComputeBinop(op, a, b) == AluWord(op, a, b)
  {
    hide ComputeBinop, AddWord, SubWord, AndWord, OrWord, XorWord;
    match op
    case Add => AddIs(a, b);
    case Sub => SubIs(a, b);
    case And => AndIs(a, b);
    case Or => OrIs(a, b);
    case Xor => XorIs(a, b);
  }

  lemma AddIs(a: Word, b: Word)
    ensures ComputeBinop(Add, a, b) == AddWord(a, b)
  {
  }

  lemma SubIs(a: Word, b: Word)
    ensures ComputeBinop(Sub, a, b) == SubWord(a, b)
  {
  }

  lemma AndIs(a: Word, b: Word)
    ensures ComputeBinop(And, a, b) == AndWord(a, b)
  {
  }

  lemma OrIs(a: Word, b: Word)
    ensures ComputeBinop(Or, a, b) == OrWord(a, b)
  {
  }

  lemma XorIs(a: Word, b: Word)
    ensures ComputeBinop(Xor, a, b) == XorWord(a, b)
  {
  }

  /** The low half of a sum and of a difference. */
  function LowSum(a: Word, b: Word): Word { (a + b) & 0xFFFF_FFFF }

  function LowDiff(a: Word, b: Word): Word { (a - b) & 0xFFFF_FFFF }

  /** No carry or borrow comes down into the low half. */
  lemma Carries(a: Word, b: Word)
    ensures LowSum(a & 0xFFFF_FFFF, b & 0xFFFF_FFFF) == LowSum(a, b)
    ensures LowDiff(a & 0xFFFF_FFFF, b & 0xFFFF_FFFF) == LowDiff(a, b)
  {
  }

  lemma AddOperands(a: Word, b: Word)
    ensures AddWord(AndWord(a, LOW32), AndWord(b, LOW32)) == AddWord(a & 0xFFFF_FFFF, b & 0xFFFF_FFFF)
  {
  }

  lemma AddResult(a: Word, b: Word)
    ensures AndWord(AddWord(a, b), LOW32) == LowSum(a, b)
  {
  }

  lemma LowAdd(a: Word, b: Word)
    ensures AndWord(AddWord(AndWord(a, LOW32), AndWord(b, LOW32)), LOW32) == AndWord(AddWord(a, b), LOW32)
  {
    hide *;
    AddOperands(a, b);
    AddResult(a & 0xFFFF_FFFF, b & 0xFFFF_FFFF);
    Carries(a, b);
    AddResult(a, b);
  }

  lemma SubOperands(a: Word, b: Word)
    ensures SubWord(AndWord(a, LOW32), AndWord(b, LOW32)) == SubWord(a & 0xFFFF_FFFF, b & 0xFFFF_FFFF)
  {
  }

  lemma SubResult(a: Word, b: Word)
    ensures AndWord(SubWord(a, b), LOW32) == LowDiff(a, b)
  {
  }

  lemma LowSub(a: Word, b: Word)
    ensures AndWord(SubWord(AndWord(a, LOW32), AndWord(b, LOW32)), LOW32) == AndWord(SubWord(a, b), LOW32)
  {
    hide *;
    SubOperands(a, b);
    SubResult(a & 0xFFFF_FFFF, b & 0xFFFF_FFFF);
    Carries(a, b);
    SubResult(a, b);
  }

  // The low half of a logical result, from the low halves of its operands.

  function LowMeet(a: Word, b: Word): Word { (a & b) & 0xFFFF_FFFF }

  function LowJoin(a: Word, b: Word): Word { (a | b) & 0xFFFF_FFFF }

  function LowDiffer(a: Word, b: Word): Word { (a ^ b) & 0xFFFF_FFFF }

  lemma MeetsLow(a: Word, b: Word) ensures LowMeet(a & 0xFFFF_FFFF, b & 0xFFFF_FFFF) == LowMeet(a, b) {}

  lemma JoinsLow(a: Word, b: Word) ensures LowJoin(a & 0xFFFF_FFFF, b & 0xFFFF_FFFF) == LowJoin(a, b) {}

  lemma DiffersLow(a: Word, b: Word) ensures LowDiffer(a & 0xFFFF_FFFF, b & 0xFFFF_FFFF) == LowDiffer(a, b) {}

  lemma LowIs(a: Word) ensures AndWord(a, LOW32) == a & 0xFFFF_FFFF {}

  lemma AndResult(a: Word, b: Word) ensures AndWord(AndWord(a, b), LOW32) == LowMeet(a, b) {}

  lemma OrResult(a: Word, b: Word) ensures AndWord(OrWord(a, b), LOW32) == LowJoin(a, b) {}

  lemma XorResult(a: Word, b: Word) ensures AndWord(XorWord(a, b), LOW32) == LowDiffer(a, b) {}

  lemma LowAnd(a: Word, b: Word)
    ensures AndWord(AndWord(AndWord(a, LOW32), AndWord(b, LOW32)), LOW32) == AndWord(AndWord(a, b), LOW32)
  {
    hide *;
    LowIs(a);
    LowIs(b);
    AndResult(a & 0xFFFF_FFFF, b & 0xFFFF_FFFF);
    MeetsLow(a, b);
    AndResult(a, b);
  }

  lemma LowOr(a: Word, b: Word)
    ensures AndWord(OrWord(AndWord(a, LOW32), AndWord(b, LOW32)), LOW32) == AndWord(OrWord(a, b), LOW32)
  {
    hide *;
    LowIs(a);
    LowIs(b);
    OrResult(a & 0xFFFF_FFFF, b & 0xFFFF_FFFF);
    JoinsLow(a, b);
    OrResult(a, b);
  }

  lemma LowXor(a: Word, b: Word)
    ensures AndWord(XorWord(AndWord(a, LOW32), AndWord(b, LOW32)), LOW32) == AndWord(XorWord(a, b), LOW32)
  {
    hide *;
    LowIs(a);
    LowIs(b);
    XorResult(a & 0xFFFF_FFFF, b & 0xFFFF_FFFF);
    DiffersLow(a, b);
    XorResult(a, b);
  }

  /** Cutting the operands first changes nothing below the cut. */
  lemma CutAlu(op: BinOp, a: Word, b: Word, is64: bool)
    requires IsAluOp(op)
    ensures Alu(op, a, b, is64) == Cut(AluWord(op, a, b), is64)
  {
    hide AddWord, SubWord, AndWord, OrWord, XorWord;
    LowAdd(a, b);
    LowSub(a, b);
    LowAnd(a, b);
    LowOr(a, b);
    LowXor(a, b);
  }

  lemma CutZero(v: Word, is64: bool)
    ensures IsZero(Cut(v, is64)) <==> ZeroBits(v, MaskOf(is64))
    ensures Cut(Cut(v, is64), is64) == Cut(v, is64)
  {
  }

  lemma NegAdd(a: Word, b: Word)
    ensures SubWord(a, NegWord(b)) == AddWord(a, b)
  {
    calc {
      SubWord(a, NegWord(b));
      a - NegWord(b);
      a - (0 - b);
      a + b;
      AddWord(a, b);
    }
  }

  lemma ZeroOperand(b: Word)
    ensures OrWord(0, b) == b && XorWord(0, b) == b && AndWord(0, b) == 0
  {
  }

  // ---- Running an effect list -----------------------------------------------------------------

  lemma RunOrNop(e: seq<Effect>, r: Concrete, r': Concrete)
    requires EffectsRun(e, r, r')
    ensures EffectsRun(OrNop(e), r, r')
  {
    if e == [] { assert Concretely(Nop, r, 0) == r; RunCons(Nop, [], r, 0, r); assert [Nop] + [] == [Nop]; }
  }

  /** One write of register `d` and its zero-extension. */
  lemma RunWrite(e: Effect, d: Reg, is64: bool, r: Concrete, x: Word)
    requires Dest(e) == Some(d)
    ensures EffectsRun([e] + Zext(d, is64), r, r[d := Cut(Written(e, r, x), is64)])
  {
    hide AndWord, ComputeBinop, EffectsRun;
    var v := Written(e, r, x);
    var r1, r2 := Concretely(e, r, x), r[d := Cut(v, is64)];
    RunNil(r2);
    if !is64 {
      var z := BinOpImm(d, And, d, LOW32);
      AndIs(v, LOW32);
      assert Concretely(z, r1, 0) == r2;
      RunCons(z, [], r1, 0, r2);
      assert [z] + [] == [z];
    } else {
      assert r1 == r2;
    }
    RunCons(e, Zext(d, is64), r, x, r2);
  }

  // ---- Simulation --------------------------------------------------------------------------------

  /** `effs` can reach a register file that agrees with `c'`. */
  ghost predicate Reaches(effs: seq<Effect>, r: Concrete, c': Cpu) {
    exists r': Concrete :: EffectsRun(effs, r, r') && Agrees(c', r')
  }

  /** `WriteRd` brings the tracked Rd to `v`, if its effect can write a value that cuts to `v`. */
  lemma WriteRdRuns(w: nat, e: Effect, r: Concrete, x: Word, v: Word)
    requires Dest(e) == Some(Dst(w)) && (Rd(w) <= 15 ==> Cut(Written(e, r, x), Is64(w)) == v)
    ensures EffectsRun(WriteRd(w, e), r, if Rd(w) <= 15 then r[Rd(w) := v] else r)
  {
    hide EffectsRun, Written, Cut, Is64;
    if Rd(w) <= 15 { RunWrite(e, Dst(w), Is64(w), r, x); } else { RunNil(r); }
  }

  /** The register file after flags `f` and a tracked Rd. */
  function Updated(r: Concrete, d: nat, v: Word, f: Word): Concrete {
    if d <= 15 then r[16 := f][d := v] else r[16 := f]
  }

  /** It agrees once `f` explains the new Z. */
  lemma FinishAgrees(c: Cpu, r: Concrete, d: nat, v: Word, f: Word, flags: bool, m: Word)
    requires Agrees(c, r) && d < 32
    requires if flags then WidthMask(m) && IsZero(v) == ZeroBits(f, m) else f == r[16]
    ensures Agrees(Finish(c, d, v, flags), Updated(r, d, v, f))
    ensures Agrees(FinishZr(c, d, v, flags), Updated(r, d, v, f))
  {
    hide IsZero, ZeroBits, WidthMask;
  }

  /** A flags part then an Rd part reach the finished state. */
  lemma PartsReach(w: nat, c: Cpu, r: Concrete, fl: seq<Effect>, e: Effect, x: Word, f: Word, v: Word, flags: bool, m: Word)
    requires Agrees(c, r) && EffectsRun(fl, r, r[16 := f])
    requires if flags then WidthMask(m) && IsZero(v) == ZeroBits(f, m) else f == r[16]
    requires Dest(e) == Some(Dst(w)) && (Rd(w) <= 15 ==> Cut(Written(e, r[16 := f], x), Is64(w)) == v)
    ensures Reaches(OrNop(fl + WriteRd(w, e)), r, Finish(c, Rd(w), v, flags))
    ensures Reaches(OrNop(fl + WriteRd(w, e)), r, FinishZr(c, Rd(w), v, flags))
  {
    hide EffectsRun, Written, Cut, Is64, IsZero, ZeroBits, WidthMask, WriteRd, Agrees, Finish, FinishZr;
    var r1 := r[16 := f];
    var r2 := Updated(r, Rd(w), v, f);
    WriteRdRuns(w, e, r1, x, v);
    RunConcat(fl, WriteRd(w, e), r, r1, r2);
    RunOrNop(fl + WriteRd(w, e), r, r2);
    FinishAgrees(c, r, Rd(w), v, f, flags, m);
  }

  lemma RunFlags(e: Effect, r: Concrete, x: Word)
    requires Dest(e) == Some(FLAGS_REG)
    ensures EffectsRun([e], r, r[16 := Written(e, r, x)])
  {
    RunNil(Concretely(e, r, x));
    RunCons(e, [], r, x, Concretely(e, r, x));
    assert [e] + [] == [e];
  }

  lemma NoFlags(r: Concrete)
    ensures EffectsRun([], r, r[16 := r[16]])
  {
    assert r[16 := r[16]] == r;
  }

  /** A compare or test explains Z of the cut result, through the mask of the width. */
  lemma FlagsExplain(f: Word, v: Word, raw: Word, is64: bool)
    requires f == raw && v == Cut(raw, is64)
    ensures WidthMask(MaskOf(is64)) && IsZero(v) == ZeroBits(f, MaskOf(is64))
  {
    WidthOf(is64);
    CutZero(raw, is64);
  }

  /** What a tracked register holds. */
  lemma TrackedValue(c: Cpu, r: Concrete, n: nat, f: Word)
    requires Agrees(c, r) && n <= 15
    ensures r[n] == c.x[n] && r[16 := f][n] == c.x[n] && ReadZr(c, n) == c.x[n] && ReadSp(c, n) == c.x[n]
  {
  }

  /** An ALU write of Rd from known operands, or a clobber standing for anything. */
  lemma AluWrites(op: BinOp, a: Word, b: Word, is64: bool, v: Word)
    requires IsAluOp(op) && v == Alu(op, a, b, is64)
    ensures Cut(ComputeBinop(op, a, b), is64) == v && Cut(v, is64) == v
  {
    hide *;
    CutAlu(op, a, b, is64);
    AluIs(op, a, b);
    CutZero(AluWord(op, a, b), is64);
  }

  /** The flags of ADD/SUB (immediate). */
  lemma AddSubImmFlagsRun(w: nat, c: Cpu, r: Concrete, v: Word) returns (f: Word, m: Word)
    requires Agrees(c, r) && v == Alu(AddSubOp(w), ReadSp(c, Rn(w)), ToWord(Imm12(w)), Is64(w))
    ensures EffectsRun(AddSubImmFlags(w), r, r[16 := f])
    ensures if SetsFlags(w) then WidthMask(m) && IsZero(v) == ZeroBits(f, m) else f == r[16]
  {
    hide Agrees, EffectsRun, Cut, AddWord, SubWord, NegWord, ToWord, Imm12, IsZero, ZeroBits, Is64, ComputeBinop, Alu,
         Rn, IsSub, SetsFlags, WidthMask;
    var imm, rn, x := ToWord(Imm12(w)), RegId(Rn(w)), ReadSp(c, Rn(w));
    var raw := AluWord(AddSubOp(w), x, imm);
    m := MaskOf(Is64(w));
    f := if SetsFlags(w) then raw else r[16];
    NoFlags(r);
    CutAlu(AddSubOp(w), x, imm, Is64(w));
    FlagsExplain(raw, v, raw, Is64(w));
    if rn.Some? { TrackedValue(c, r, rn.value, f); }
    if SetsFlags(w) {
      NegAdd(x, imm);
      RunFlags(AddSubImmFlags(w)[0], r, raw);
    }
  }

  lemma AddSubImmSimulates(w: nat, c: Cpu, c': Cpu, y: Word, r: Concrete)
    requires ClassOf(w) == AddSubImmClass && Executes(w, c, c', y) && Agrees(c, r)
    ensures Reaches(AddSubImm(w), r, c')
  {
    hide Agrees, Reaches, EffectsRun, Cut, AddWord, SubWord, NegWord, ToWord, Imm12, IsZero, ZeroBits, Is64, ComputeBinop, Alu,
         Finish, ClassOf, Rn, IsSub, SetsFlags, WidthMask;
    var imm, rn, op, x := ToWord(Imm12(w)), RegId(Rn(w)), AddSubOp(w), ReadSp(c, Rn(w));
    var v := Alu(op, x, imm, Is64(w));
    var f, m := AddSubImmFlagsRun(w, c, r, v);
    AluWrites(op, x, imm, Is64(w), v);
    if rn.Some? { TrackedValue(c, r, rn.value, f); }
    PartsReach(w, c, r, AddSubImmFlags(w), AddSubImmWrite(w, Dst(w)), v, f, v, SetsFlags(w), m);
  }

  /** The flags of ANDS (immediate). */
  lemma LogicalImmFlagsRun(w: nat, c: Cpu, r: Concrete, v: Word) returns (f: Word, m: Word)
    requires Agrees(c, r) && BitmaskImm(w).Some?
    requires v == Alu(LogicOp(Opc(w)), ReadZr(c, Rn(w)), ToWord(BitmaskImm(w).value), Is64(w))
    ensures EffectsRun(LogicalImmFlags(w), r, r[16 := f])
    ensures if Opc(w) == 3 then WidthMask(m) && IsZero(v) == ZeroBits(f, m) else f == r[16]
  {
    hide Agrees, Reaches, EffectsRun, Cut, AddWord, SubWord, AndWord, OrWord, XorWord, NegWord, ToWord, IsZero, ZeroBits, Is64, ComputeBinop, Alu, Rn, Opc, WidthMask, BitmaskImm;
    var imm, rn, x := ToWord(BitmaskImm(w).value), RegId(Rn(w)), ReadZr(c, Rn(w));
    var raw := AluWord(LogicOp(Opc(w)), x, imm);
    m := MaskOf(Is64(w));
    f := if Opc(w) == 3 then raw else r[16];
    NoFlags(r);
    CutAlu(LogicOp(Opc(w)), x, imm, Is64(w));
    FlagsExplain(raw, v, raw, Is64(w));
    if rn.Some? { TrackedValue(c, r, rn.value, f); }
    if Opc(w) == 3 { RunFlags(LogicalImmFlags(w)[0], r, raw); }
  }

  lemma LogicalImmSimulates(w: nat, c: Cpu, c': Cpu, y: Word, r: Concrete)
    requires ClassOf(w) == LogicalImmClass && Executes(w, c, c', y) && Agrees(c, r)
    ensures Reaches(LogicalImm(w), r, c')
  {
    hide Agrees, Reaches, EffectsRun, Cut, AddWord, SubWord, AndWord, OrWord, XorWord, NegWord, ToWord, IsZero, ZeroBits, Is64, ComputeBinop, Alu, Finish, ClassOf, Rn, Opc, WidthMask, BitmaskImm;
    var imm, op, x := ToWord(BitmaskImm(w).value), LogicOp(Opc(w)), ReadZr(c, Rn(w));
    var v := Alu(op, x, imm, Is64(w));
    var f, m := LogicalImmFlagsRun(w, c, r, v);
    LogicalImmWritten(w, c, r, f, v);
    PartsReach(w, c, r, LogicalImmFlags(w), LogicalImmWrite(w, Dst(w)), v, f, v, Opc(w) == 3, m);
  }

  /** The write of Rd can leave the processor's result. */
  lemma LogicalImmWritten(w: nat, c: Cpu, r: Concrete, f: Word, v: Word)
    requires Agrees(c, r) && BitmaskImm(w).Some?
    requires v == Alu(LogicOp(Opc(w)), ReadZr(c, Rn(w)), ToWord(BitmaskImm(w).value), Is64(w))
    ensures Cut(Written(LogicalImmWrite(w, Dst(w)), r[16 := f], v), Is64(w)) == v
  {
    hide Agrees, Cut, AddWord, SubWord, AndWord, OrWord, XorWord, NegWord, ToWord, Is64, ComputeBinop, Alu, Rn, Opc, BitmaskImm;
    var imm, rn, op, x := ToWord(BitmaskImm(w).value), RegId(Rn(w)), LogicOp(Opc(w)), ReadZr(c, Rn(w));
    AluWrites(op, x, imm, Is64(w), v);
    AluIs(op, x, imm);
    ZeroOperand(imm);
    if rn.Some? { TrackedValue(c, r, rn.value, f); }
  }

  /** The flags of ADD/SUB (register). */
  lemma AddSubRegFlagsRun(w: nat, c: Cpu, r: Concrete, y: Word, v: Word) returns (f: Word, m: Word)
    requires Agrees(c, r) && (Unshifted(w) ==> y == ReadZr(c, Rm(w)))
    requires v == Alu(AddSubOp(w), ReadZr(c, Rn(w)), y, Is64(w))
    ensures EffectsRun(AddSubRegFlags(w), r, r[16 := f])
    ensures if SetsFlags(w) then WidthMask(m) && IsZero(v) == ZeroBits(f, m) else f == r[16]
  {
    hide Agrees, Reaches, EffectsRun, Cut, AddWord, SubWord, AndWord, OrWord, XorWord, NegWord, ToWord, IsZero, ZeroBits, Is64, ComputeBinop, Alu, Rn, Rm, IsSub, SetsFlags, WidthMask, Unshifted;
    var x := ReadZr(c, Rn(w));
    var raw := AluWord(AddSubOp(w), x, y);
    m := MaskOf(Is64(w));
    f := if SetsFlags(w) then raw else r[16];
    NoFlags(r);
    CutAlu(AddSubOp(w), x, y, Is64(w));
    FlagsExplain(raw, v, raw, Is64(w));
    if KnownOperands(w) { TrackedValue(c, r, Rn(w), f); TrackedValue(c, r, Rm(w), f); }
    if SetsFlags(w) { RunFlags(AddSubRegFlags(w)[0], r, raw); }
  }

  lemma AddSubRegSimulates(w: nat, c: Cpu, c': Cpu, y: Word, r: Concrete)
    requires ClassOf(w) == AddSubRegClass && Executes(w, c, c', y) && Agrees(c, r)
    ensures Reaches(AddSubReg(w), r, c')
  {
    hide Agrees, Reaches, EffectsRun, Cut, AddWord, SubWord, AndWord, OrWord, XorWord, NegWord, ToWord, IsZero, ZeroBits, Is64, ComputeBinop, Alu, FinishZr, ClassOf, Rn, Rm, IsSub, SetsFlags, WidthMask, Unshifted;
    var op, x := AddSubOp(w), ReadZr(c, Rn(w));
    var v := Alu(op, x, y, Is64(w));
    var f, m := AddSubRegFlagsRun(w, c, r, y, v);
    AluWrites(op, x, y, Is64(w), v);
    if KnownOperands(w) { TrackedValue(c, r, Rn(w), f); TrackedValue(c, r, Rm(w), f); }
    PartsReach(w, c, r, AddSubRegFlags(w), AddSubRegWrite(w, Dst(w)), v, f, v, SetsFlags(w), m);
  }

  /** The flags of ANDS (register). */
  lemma LogicalRegFlagsRun(w: nat, c: Cpu, r: Concrete, y: Word, v: Word) returns (f: Word, m: Word)
    requires Agrees(c, r) && (PlainOperand(w) ==> y == ReadZr(c, Rm(w)))
    requires v == Alu(LogicOp(Opc(w)), ReadZr(c, Rn(w)), y, Is64(w))
    ensures EffectsRun(LogicalRegFlags(w), r, r[16 := f])
    ensures if Opc(w) == 3 then WidthMask(m) && IsZero(v) == ZeroBits(f, m) else f == r[16]
  {
    hide Agrees, Reaches, EffectsRun, Cut, AddWord, SubWord, AndWord, OrWord, XorWord, NegWord, ToWord, IsZero, ZeroBits, Is64, ComputeBinop, Alu, Rn, Rm, Opc, WidthMask, PlainOperand;
    var x := ReadZr(c, Rn(w));
    var raw := AluWord(LogicOp(Opc(w)), x, y);
    m := MaskOf(Is64(w));
    f := if Opc(w) == 3 then raw else r[16];
    NoFlags(r);
    CutAlu(LogicOp(Opc(w)), x, y, Is64(w));
    FlagsExplain(raw, v, raw, Is64(w));
    if KnownOperands(w) { TrackedValue(c, r, Rn(w), f); TrackedValue(c, r, Rm(w), f); }
    if Opc(w) == 3 { RunFlags(LogicalRegFlags(w)[0], r, raw); }
  }

  lemma LogicalRegSimulates(w: nat, c: Cpu, c': Cpu, y: Word, r: Concrete)
    requires ClassOf(w) == LogicalRegClass && Executes(w, c, c', y) && Agrees(c, r)
    ensures Reaches(LogicalReg(w), r, c')
  {
    hide Agrees, Reaches, EffectsRun, Cut, AddWord, SubWord, AndWord, OrWord, XorWord, NegWord, ToWord, IsZero, ZeroBits, Is64, ComputeBinop, Alu, FinishZr, ClassOf, Rn, Rm, Opc, WidthMask, PlainOperand;
    var op, x := LogicOp(Opc(w)), ReadZr(c, Rn(w));
    var v := Alu(op, x, y, Is64(w));
    var f, m := LogicalRegFlagsRun(w, c, r, y, v);
    AluWrites(op, x, y, Is64(w), v);
    AluIs(op, x, y);
    ZeroOperand(y);
    if KnownOperands(w) { TrackedValue(c, r, Rn(w), f); }
    if Rm(w) <= 15 { TrackedValue(c, r, Rm(w), f); }
    PartsReach(w, c, r, LogicalRegFlags(w), LogicalRegWrite(w, Dst(w)), v, f, v, Opc(w) == 3, m);
  }

  /** MOVK as two effects: clear the lane, then fill it. */
  lemma MovkRuns(d: Reg, is64: bool, lane: Word, imm: Word, r: Concrete)
    ensures EffectsRun([BinOpImm(d, And, d, lane), BinOpImm(d, Or, d, imm)] + Zext(d, is64), r,
                       r[d := Cut(OrWord(AndWord(r[d], lane), imm), is64)])
  {
    hide EffectsRun, Cut, AndWord, OrWord, ComputeBinop;
    var clear, fill := BinOpImm(d, And, d, lane), BinOpImm(d, Or, d, imm);
    var r1 := Concretely(clear, r, 0);
    AndIs(r[d], lane);
    OrIs(r1[d], imm);
    RunWrite(fill, d, is64, r1, 0);
    var r2 := r[d := Cut(OrWord(AndWord(r[d], lane), imm), is64)];
    assert r1[d := Cut(Written(fill, r1, 0), is64)] == r2;
    RunCons(clear, [fill] + Zext(d, is64), r, 0, r2);
    assert [clear] + ([fill] + Zext(d, is64)) == [clear, fill] + Zext(d, is64);
  }

  lemma OpcBound(w: nat)
    ensures Opc(w) < 4
  {
  }

  lemma MovWideSimulates(w: nat, c: Cpu, c': Cpu, y: Word, r: Concrete)
    requires ClassOf(w) == MovWideClass && Executes(w, c, c', y) && Agrees(c, r)
    ensures Reaches(MovWide(w), r, c')
  {
    hide EffectsRun, Cut, AndWord, OrWord, NotWord, MoveImm, MoveLane, Is64, ZeroBits, WidthMask, ClassOf, Opc;
    var v := Moved(w, ReadZr(c, Rd(w)));
    var d := Dst(w);
    OpcBound(w);
    if Rd(w) > 15 {
      RunNil(r);
      RunOrNop([], r, r);
    } else if Opc(w) == 3 {
      MovkRuns(d, Is64(w), NotWord(MoveLane(w)), MoveImm(w), r);
      assert Agrees(c', r[d := v]);
    } else {
      RunWrite(MovWideWrite(w, d), d, Is64(w), r, 0);
      assert Agrees(c', r[d := v]);
    }
  }

  /**
   Every modelled instruction is simulated by its effects: whatever the processor
   does, with any operand where the extractor clobbers, the effects can follow.
   */
  lemma EffectsSimulate(w: nat, c: Cpu, c': Cpu, y: Word, r: Concrete)
    requires ClassOf(w) != OtherClass && Executes(w, c, c', y) && Agrees(c, r)
    ensures Reaches(EffectsOf(w), r, c')
  {
    hide Reaches, Executes, Agrees, ClassOf, AddSubImm, LogicalImm, MovWide, AddSubReg, LogicalReg;
    match ClassOf(w)
    case AddSubImmClass => AddSubImmSimulates(w, c, c', y, r);
    case LogicalImmClass => LogicalImmSimulates(w, c, c', y, r);
    case MovWideClass => MovWideSimulates(w, c, c', y, r);
    case AddSubRegClass => AddSubRegSimulates(w, c, c', y, r);
    case LogicalRegClass => LogicalRegSimulates(w, c, c', y, r);
  }

  // ---- Exactness -------------------------------------------------------------------------------------

  /** Equal in every register that `all` does not clobber. */
  predicate AgreeOff(r: Concrete, s: Concrete, all: seq<Effect>) { forall g: Reg :: !Clobbered(all, g) ==> r[g] == s[g] }

  lemma CleanStep(e: Effect, all: seq<Effect>, r: Concrete, s: Concrete, x: Word, y: Word)
    requires Clean(e, all) && AgreeOff(r, s, all)
    ensures AgreeOff(Concretely(e, r, x), Concretely(e, s, y), all)
  {
    hide Clobbered, ComputeBinop, SubWord, AndWord;
    if Dest(e).Some? && !Clobbered(all, Dest(e).value) {
      assert forall i: nat :: i < |Reads(e)| ==> r[Reads(e)[i]] == s[Reads(e)[i]];
      SameWritten(e, r, s, x, y);
    }
  }

  lemma SameWritten(e: Effect, r: Concrete, s: Concrete, x: Word, y: Word)
    requires !e.Clobber? && !e.Nop? && forall i: nat :: i < |Reads(e)| ==> r[Reads(e)[i]] == s[Reads(e)[i]]
    ensures Written(e, r, x) == Written(e, s, y)
  {
    hide ComputeBinop, SubWord, AndWord;
    if |Reads(e)| > 0 { assert r[Reads(e)[0]] == s[Reads(e)[0]]; }
    if |Reads(e)| > 1 { assert r[Reads(e)[1]] == s[Reads(e)[1]]; }
  }

  /** All outcomes agree in the registers that are not clobbered. */
  lemma {:induction false} OneOutcome(effs: seq<Effect>, all: seq<Effect>, r: Concrete, s: Concrete, r': Concrete, s': Concrete)
    requires AllClean(effs, all) && AgreeOff(r, s, all) && EffectsRun(effs, r, r') && EffectsRun(effs, s, s')
    ensures AgreeOff(r', s', all)
    decreases |effs|
  {
    hide Concretely, Clean, AgreeOff;
    if effs != [] {
      var x: Word :| EffectsRun(effs[1..], Concretely(effs[0], r, x), r');
      var y: Word :| EffectsRun(effs[1..], Concretely(effs[0], s, y), s');
      CleanStep(effs[0], all, r, s, x, y);
      assert forall i: nat :: i < |effs[1..]| ==> Clean(effs[1..][i], all) by {
        assert forall i: nat :: i < |effs[1..]| ==> effs[1..][i] == effs[i + 1];
      }
      OneOutcome(effs[1..], all, Concretely(effs[0], r, x), Concretely(effs[0], s, y), r', s');
    }
  }

  /** The effect reads tracked registers only. */
  predicate ReadsTracked(e: Effect) { forall i: nat :: i < |Reads(e)| ==> Reads(e)[i] <= 15 }

  /** Flags first, then Rd: Rd is clobbered only if the flags are not computed. */
  lemma PartsClean(w: nat, fl: seq<Effect>, e: Effect)
    requires Dest(e) == Some(Dst(w)) && ReadsTracked(e)
    requires |fl| <= 1 && (fl != [] ==> Dest(fl[0]) == Some(FLAGS_REG) && ReadsTracked(fl[0]))
    requires fl == [] || fl[0].Clobber? || !e.Clobber?
    ensures AllClean(OrNop(fl + WriteRd(w, e)), OrNop(fl + WriteRd(w, e)))
  {
    hide Is64, Rd;
    var all := OrNop(fl + WriteRd(w, e));
    var d := Dst(w);
    assert forall g: Reg :: Clobbered(all, g) ==> g == d || g == FLAGS_REG;
    assert Clobbered(all, FLAGS_REG) ==> |fl| == 1 && fl[0] == Clobber(FLAGS_REG);
    assert Clobbered(all, d) ==> e == Clobber(d);
    if |fl| == 1 { assert all[0] == fl[0]; }
    forall i: nat | i < |all| ensures Clean(all[i], all) {
      if |fl| == 1 && i == 0 {
        if !fl[0].Clobber? { assert !e.Clobber?; }
      } else if all != [Nop] {
        assert all[i] == e || all[i] == BinOpImm(d, And, d, LOW32);
        if e.Clobber? { assert all[|fl|] == e; }
      }
    }
  }

  lemma MovWideClean(w: nat)
    ensures AllClean(MovWide(w), MovWide(w))
  {
    hide Is64, Rd, Opc, NotWord, MoveLane, MoveImm;
    if RegId(Rd(w)).Some? && Opc(w) != 3 {
      PartsClean(w, [], MovWideWrite(w, Dst(w)));
      assert [] + WriteRd(w, MovWideWrite(w, Dst(w))) == MovWide(w);
    }
  }

  lemma EffectsClean(w: nat)
    requires ClassOf(w) != OtherClass
    ensures AllClean(EffectsOf(w), EffectsOf(w))
  {
    hide AllClean, MovWide, WriteRd, OrNop, Clean, ClassOf, Rd, Rn, Rm, Is64, Opc, SetsFlags, IsSub, Unshifted, PlainOperand,
         BitmaskImm, ToWord, NegWord, Imm12;
    match ClassOf(w)
    case AddSubImmClass => PartsClean(w, AddSubImmFlags(w), AddSubImmWrite(w, Dst(w)));
    case LogicalImmClass => PartsClean(w, LogicalImmFlags(w), LogicalImmWrite(w, Dst(w)));
    case MovWideClass => MovWideClean(w);
    case AddSubRegClass => PartsClean(w, AddSubRegFlags(w), AddSubRegWrite(w, Dst(w)));
    case LogicalRegClass => PartsClean(w, LogicalRegFlags(w), LogicalRegWrite(w, Dst(w)));
  }

  /**
   The effects are exact in everything they do not clobber: every outcome holds the
   processor's value in each such register, and its slot 16, unless clobbered,
   explains the processor's Z.
   */
  lemma EffectsExact(w: nat, c: Cpu, c': Cpu, y: Word, r: Concrete, r': Concrete)
    requires ClassOf(w) != OtherClass && Executes(w, c, c', y) && Agrees(c, r) && EffectsRun(EffectsOf(w), r, r')
    ensures forall g: nat :: g < 16 && !Clobbered(EffectsOf(w), g) ==> r'[g] == c'.x[g]
    ensures !Clobbered(EffectsOf(w), FLAGS_REG) ==> exists m: Word :: WidthMask(m) && c'.z == ZeroBits(r'[16], m)
  {
    hide Executes, ClassOf, EffectsOf, EffectsRun, Clobbered, AllClean, WidthMask, ZeroBits;
    EffectsSimulate(w, c, c', y, r);
    var r1: Concrete :| EffectsRun(EffectsOf(w), r, r1) && Agrees(c', r1);
    EffectsClean(w);
    OneOutcome(EffectsOf(w), EffectsOf(w), r, r, r', r1);
    if !Clobbered(EffectsOf(w), FLAGS_REG) { assert r'[16] == r1[16]; }
  }

  /** The zero flag the solver derives from slot 16 is the processor's. */
  lemma FlagsZeroAgrees(c: Cpu, r: Concrete)
    requires Agrees(c, r) && FlagsZero(Const(r[16])).Some?
    ensures FlagsZero(Const(r[16])).value == c.z
  {
    hide FlagsZero, ZeroBits, WidthMask;
    FlagsZeroExact(r[16], FlagsZero(Const(r[16])).value);
  }

  // ---- Branches --------------------------------------------------------------------------------------

  /** `1 << b`. */
  function OneAt(b: nat): Word
    requires b < 64
  {
    ShlWord(1, b as bv6)
  }

  function EqNe(isEq: bool): CondCode { if isEq then Eq else Ne }

  /** B.EQ and B.NE (not BC.cond). */
  predicate IsBcond(w: nat) { w / 0x100_0000 == 0x54 && w / 0x10 % 2 == 0 && w % 0x10 <= 1 }

  predicate IsCbz(w: nat) { w / 0x200_0000 % 0x40 == 0x1a }

  predicate IsTbz(w: nat) { w / 0x200_0000 % 0x40 == 0x1b }

  /** The bit TBZ and TBNZ test: b5:b40. */
  function TestedBit(w: nat): (b: nat)
    ensures b < 64
  {
    (if Is64(w) then 32 else 0) + w / 0x8_0000 % 0x20
  }

  /** Bit 24: the NZ form. */
  predicate IsNz(w: nat) { w / 0x100_0000 % 2 == 1 }

  function TestMask(w: nat): Word { if IsCbz(w) then MaskOf(Is64(w)) else OneAt(TestedBit(w)) }

  /** `a64_branch_test`. */
  function BranchTestOf(w: nat): Option<BranchTest> {
    if IsBcond(w) then Some(BranchTest(Flags, EqNe(w % 0x10 == 0)))
    else if (IsCbz(w) || IsTbz(w)) && RegId(Rd(w)).Some? then
      Some(BranchTest(RegBits(Rd(w), TestMask(w)), EqNe(!IsNz(w))))
    else None
  }

  /** Whether the processor takes the branch. */
  predicate Takes(w: nat, c: Cpu) {
    if IsBcond(w) then (if w % 0x10 == 0 then c.z else !c.z)
    else
      var zero := if IsCbz(w) then IsZero(Cut(ReadZr(c, Rd(w)), Is64(w)))
                  else IsZero(AndWord(ReadZr(c, Rd(w)), OneAt(TestedBit(w))));
      if IsNz(w) then !zero else zero
  }

  lemma MaskedZero(v: Word, m: Word)
    ensures IsZero(AndWord(v, m)) == ZeroBits(v, m)
  {
  }

  /** The branch the processor takes is one the model allows; on a register test, the only one. */
  lemma BranchTestSound(w: nat, c: Cpu, r: Concrete)
    requires BranchTestOf(w).Some? && Agrees(c, r)
    ensures var t := BranchTestOf(w).value;
      exists z: bool :: MayTest(t.src, r, z) && MayTake(t.cc, z, Takes(w, c))
  {
    hide IsBcond, IsCbz, IsTbz, IsNz, Is64, Rd, TestedBit, OneAt, Cut, AndWord, ZeroBits, IsZero, WidthMask;
    var t := BranchTestOf(w).value;
    if IsBcond(w) {
      assert MayTest(t.src, r, c.z) && MayTake(t.cc, c.z, Takes(w, c));
    } else {
      var v := r[Rd(w)];
      CutZero(v, Is64(w));
      MaskedZero(v, OneAt(TestedBit(w)));
      var z := ZeroBits(v, TestMask(w));
      assert MayTest(t.src, r, z) && MayTake(t.cc, z, Takes(w, c));
    }
  }

  /** On a register test the processor's branch is the only one the model allows. */
  lemma BranchTestExact(w: nat, c: Cpu, r: Concrete, z: bool, taken: bool)
    requires BranchTestOf(w).Some? && !IsBcond(w) && Agrees(c, r)
    requires var t := BranchTestOf(w).value; MayTest(t.src, r, z) && MayTake(t.cc, z, taken)
    ensures taken == Takes(w, c)
  {
    hide IsBcond, IsCbz, IsTbz, IsNz, Is64, Rd, TestedBit, OneAt, Cut, AndWord, ZeroBits, IsZero, WidthMask;
    var v := r[Rd(w)];
    CutZero(v, Is64(w));
    MaskedZero(v, OneAt(TestedBit(w)));
  }
}
