/**
 RISC-V jumps, branches and pc-relative pairs, assembled from the instruction formats
 of the RISC-V manual (U, J, B, I and S types, and the compressed CJ and CB types).
 Proved here: the patcher takes for branches exactly the words assembled below, finds
 their displacements where the assembler put them, and pairs an AUIPC with exactly the
 instructions that use its register.
 */
module RiscvAsm {
  import opened Bytes
  import opened Arith
  import opened Retarget
  import B = RiscvBranch
  import P = RiscvPair
  import opened RiscvPatch

  /** `cond`, `kind` and `width` are the `funct3` field. */
  datatype RvIns =
    | Jal(rd: nat, disp: int)
    | Branch(cond: nat, rs1: nat, rs2: nat, disp: int)
    | CJ(disp: int) | CJal(disp: int)
    | CBeqz(rs: nat, disp: int) | CBnez(rs: nat, disp: int)
    | Auipc(rd: nat, upper: int)
    | Jalr(kind: nat, rd: nat, rs1: nat, imm: int)
    | Load(kind: nat, rd: nat, rs1: nat, imm: int)
    | OpImm(kind: nat, rd: nat, rs1: nat, imm: int)
    | Store(width: nat, rs1: nat, rs2: nat, imm: int)

  predicate Whole(i: RvIns) {
    match i
    case Jal(rd, disp) => rd < 32 && -0x10_0000 <= disp < 0x10_0000 && disp % 2 == 0
    case Branch(cond, rs1, rs2, disp) => cond < 8 && rs1 < 32 && rs2 < 32 && -0x1000 <= disp < 0x1000 && disp % 2 == 0
    case CJ(disp) => -0x800 <= disp < 0x800 && disp % 2 == 0
    case CJal(disp) => -0x800 <= disp < 0x800 && disp % 2 == 0
    case CBeqz(rs, disp) => rs < 8 && -0x100 <= disp < 0x100 && disp % 2 == 0
    case CBnez(rs, disp) => rs < 8 && -0x100 <= disp < 0x100 && disp % 2 == 0
    case Auipc(rd, upper) => rd < 32 && -0x8_0000 <= upper < 0x8_0000
    case Jalr(kind, rd, rs1, imm) => kind < 8 && rd < 32 && rs1 < 32 && -0x800 <= imm < 0x800
    case Load(kind, rd, rs1, imm) => kind < 8 && rd < 32 && rs1 < 32 && -0x800 <= imm < 0x800
    case OpImm(kind, rd, rs1, imm) => kind < 8 && rd < 32 && rs1 < 32 && -0x800 <= imm < 0x800
    case Store(width, rs1, rs2, imm) => width < 8 && rs1 < 32 && rs2 < 32 && -0x800 <= imm < 0x800
  }

  predicate IsBranch(i: RvIns) { i.Jal? || i.Branch? || i.CJ? || i.CJal? || i.CBeqz? || i.CBnez? }

  function Length(i: RvIns): nat { if i.CJ? || i.CJal? || i.CBeqz? || i.CBnez? then 2 else 4 }

  /** Two's complement. */
  function Word32(x: int): nat { x % 0x1_0000_0000 }

  /** imm[20|10:1|11|19:12], rd, opcode. */
  function JType(u: nat, rd: nat): nat {
    u / 0x10_0000 % 2 * 0x8000_0000 + u / 2 % 0x400 * 0x20_0000 + u / 0x800 % 2 * 0x10_0000 + u / 0x1000 % 0x100 * 0x1000
    + rd * 0x80 + 0x6f
  }

  /** imm[12|10:5], rs2, rs1, funct3, imm[4:1|11], opcode. */
  function BType(u: nat, cond: nat, rs1: nat, rs2: nat): nat {
    u / 0x1000 % 2 * 0x8000_0000 + u / 0x20 % 0x40 * 0x200_0000 + rs2 * 0x10_0000 + rs1 * 0x8000 + cond * 0x1000
    + u / 2 % 0x10 * 0x100 + u / 0x800 % 2 * 0x80 + 0x63
  }

  /** funct3, imm[11|4|9:8|10|6|7|3:1|5], quadrant 1. */
  function CJType(u: nat, funct3: nat): nat {
    funct3 * 0x2000 + u / 0x800 % 2 * 0x1000 + u / 0x10 % 2 * 0x800 + u / 0x100 % 4 * 0x200 + u / 0x400 % 2 * 0x100
    + u / 0x40 % 2 * 0x80 + u / 0x80 % 2 * 0x40 + u / 2 % 8 * 8 + u / 0x20 % 2 * 4 + 1
  }

  /** funct3, imm[8|4:3], rs1', imm[7:6|2:1|5], quadrant 1. */
  function CBType(u: nat, funct3: nat, rs: nat): nat {
    funct3 * 0x2000 + u / 0x100 % 2 * 0x1000 + u / 8 % 4 * 0x400 + rs * 0x80
    + u / 0x40 % 4 * 0x20 + u / 2 % 4 * 8 + u / 0x20 % 2 * 4 + 1
  }

  /** imm[11:0], rs1, funct3, rd, opcode. */
  function IType(u: nat, rs1: nat, kind: nat, rd: nat, opcode: nat): nat {
    u % 0x1000 * 0x10_0000 + rs1 * 0x8000 + kind * 0x1000 + rd * 0x80 + opcode
  }

  /** imm[11:5], rs2, rs1, funct3, imm[4:0], opcode. */
  function SType(u: nat, rs2: nat, rs1: nat, width: nat): nat {
    u / 0x20 % 0x80 * 0x200_0000 + rs2 * 0x10_0000 + rs1 * 0x8000 + width * 0x1000 + u % 0x20 * 0x80 + 0x23
  }

  function Word(i: RvIns): nat {
    match i
    case Jal(rd, disp) => JType(Word32(disp), rd)
    case Branch(cond, rs1, rs2, disp) => BType(Word32(disp), cond, rs1, rs2)
    case CJ(disp) => CJType(Word32(disp), 5)
    case CJal(disp) => CJType(Word32(disp), 1)
    case CBeqz(rs, disp) => CBType(Word32(disp), 6, rs)
    case CBnez(rs, disp) => CBType(Word32(disp), 7, rs)
    case Auipc(rd, upper) => upper % 0x10_0000 * 0x1000 + rd * 0x80 + 0x17
    case Jalr(kind, rd, rs1, imm) => IType(Word32(imm), rs1, kind, rd, 0x67)
    case Load(kind, rd, rs1, imm) => IType(Word32(imm), rs1, kind, rd, 0x03)
    case OpImm(kind, rd, rs1, imm) => IType(Word32(imm), rs1, kind, rd, 0x13)
    case Store(width, rs1, rs2, imm) => SType(Word32(imm), rs2, rs1, width)
  }

  // ---- Branches ------------------------------------------------------------------------

  lemma JalWord(rd: nat, disp: int)
    requires Whole(Jal(rd, disp))
    ensures var w := Word(Jal(rd, disp)); B.FormOf(w, 4) == B.Jal && B.JalImm(w) == disp && w % 0x1000 == rd * 0x80 + 0x6f
  {
    hide B.JalImm;
    B.JalReads(rd * 0x80 + 0x6f, disp);
    B.OpcodeOf(Word(Jal(rd, disp)));
    Cut(rd, 0x80, 0x6f);
  }

  lemma BranchWord(cond: nat, rs1: nat, rs2: nat, disp: int)
    requires Whole(Branch(cond, rs1, rs2, disp))
    ensures var w := Word(Branch(cond, rs1, rs2, disp));
      && B.FormOf(w, 4) == B.Branch && B.BranchImm(w) == disp
      && w / 0x1000 % 0x2000 == cond + rs1 * 8 + rs2 * 0x100 && w % 0x80 == 0x63
  {
    hide B.BranchImm;
    B.BranchReads(cond + rs1 * 8 + rs2 * 0x100, 0x63, disp);
  }

  lemma CJWord(disp: int, funct3: nat)
    requires -0x800 <= disp < 0x800 && disp % 2 == 0 && funct3 in {1, 5}
    ensures var w := CJType(Word32(disp), funct3);
      B.FormOf(w, 2) == B.CJump && B.CjImm(w) == disp && w / 0x2000 % 8 == funct3 && w % 4 == 1
  {
    hide B.CjImm;
    B.CjReads(funct3, 1, disp);
  }

  lemma CBWord(rs: nat, disp: int, funct3: nat)
    requires rs < 8 && -0x100 <= disp < 0x100 && disp % 2 == 0 && funct3 in {6, 7}
    ensures var w := CBType(Word32(disp), funct3, rs);
      && B.FormOf(w, 2) == B.CBranch && B.CbImm(w) == disp
      && w / 0x2000 % 8 == funct3 && w / 0x80 % 8 == rs && w % 4 == 1
  {
    hide B.CbImm;
    B.CbReads(funct3, rs, 1, disp);
  }

  function FormIs(i: RvIns): B.Form {
    if i.Jal? then B.Jal else if i.Branch? then B.Branch else if i.CJ? || i.CJal? then B.CJump
    else if i.CBeqz? || i.CBnez? then B.CBranch else B.Other
  }

  /** An assembled branch is taken for one, and its displacement is the one assembled. */
  lemma BranchReads(i: RvIns)
    requires Whole(i) && IsBranch(i)
    ensures B.FormOf(Word(i), Length(i)) == FormIs(i) && B.Offset(FormIs(i), Word(i)) == i.disp
  {
    hide B.FormOf, B.JalImm, B.BranchImm, B.CjImm, B.CbImm, JType, BType, CJType, CBType;
    match i
    case Jal(rd, disp) => JalWord(rd, disp);
    case Branch(cond, rs1, rs2, disp) => BranchWord(cond, rs1, rs2, disp);
    case CJ(disp) => CJWord(disp, 5);
    case CJal(disp) => CJWord(disp, 1);
    case CBeqz(rs, disp) => CBWord(rs, disp, 6);
    case CBnez(rs, disp) => CBWord(rs, disp, 7);
  }

  // ---- Every branch is assembled -------------------------------------------------------------

  lemma SameRaw(x: nat, y: nat, half: int)
    requires x < 2 * half && y < 2 * half && B.SignExtend(x, half) == B.SignExtend(y, half)
    ensures x == y
  {
  }

  /** Numbers of four digits are equal digit by digit. */
  lemma FourDigits(a: nat, b: nat, c: nat, d: nat, a2: nat, b2: nat, c2: nat, d2: nat, ua: nat, ub: nat, uc: nat)
    requires (ua, ub, uc) in {(0x10_0000, 0x1000, 0x800), (0x1000, 0x800, 0x20)}
    requires b * ub < ua && b2 * ub < ua && c * uc < ub && c2 * uc < ub && d * 2 < uc && d2 * 2 < uc
    requires a * ua + b * ub + c * uc + d * 2 == a2 * ua + b2 * ub + c2 * uc + d2 * 2
    ensures a == a2 && b == b2 && c == c2 && d == d2
  {
  }

  lemma JalParts(w: nat)
    requires w < 0x1_0000_0000
    ensures w == w / 0x8000_0000 % 2 * 0x8000_0000 + w / 0x20_0000 % 0x400 * 0x20_0000 + w / 0x10_0000 % 2 * 0x10_0000
                 + w / 0x1000 % 0x100 * 0x1000 + w % 0x1000
  {
    DivDiv(w, 0x1000, 0x100);
    DivDiv(w, 0x10_0000, 2);
    DivDiv(w, 0x20_0000, 0x400);
    DivMod(w, 0x8000_0000);
  }

  lemma JalSame(w: nat, v: nat)
    requires w < 0x1_0000_0000 && v < 0x1_0000_0000 && B.JalImm(w) == B.JalImm(v) && w % 0x1000 == v % 0x1000
    ensures w == v
  {
    hide B.SignExtend;
    var a, b, c, d := w / 0x8000_0000 % 2, w / 0x1000 % 0x100, w / 0x10_0000 % 2, w / 0x20_0000 % 0x400;
    var a2, b2, c2, d2 := v / 0x8000_0000 % 2, v / 0x1000 % 0x100, v / 0x10_0000 % 2, v / 0x20_0000 % 0x400;
    SameRaw(a * 0x10_0000 + b * 0x1000 + c * 0x800 + d * 2, a2 * 0x10_0000 + b2 * 0x1000 + c2 * 0x800 + d2 * 2, 0x10_0000);
    FourDigits(a, b, c, d, a2, b2, c2, d2, 0x10_0000, 0x1000, 0x800);
    JalParts(w);
    JalParts(v);
  }

  lemma JTypeBound(u: nat, rd: nat)
    requires rd < 32
    ensures JType(u, rd) < 0x1_0000_0000
  {
  }

  lemma JalWas(w: nat)
    requires w < 0x1_0000_0000 && w % 0x80 == 0x6f
    ensures var i := Jal(w / 0x80 % 0x20, B.JalImm(w)); Whole(i) && Word(i) == w
  {
    hide B.JalImm, JType;
    B.JalInReach(w);
    JalWord(w / 0x80 % 0x20, B.JalImm(w));
    DivDiv(w, 0x80, 0x20);
    JTypeBound(Word32(B.JalImm(w)), w / 0x80 % 0x20);
    JalSame(w, Word(Jal(w / 0x80 % 0x20, B.JalImm(w))));
  }

  lemma BranchParts(w: nat)
    requires w < 0x1_0000_0000
    ensures w == w / 0x8000_0000 % 2 * 0x8000_0000 + w / 0x200_0000 % 0x40 * 0x200_0000 + w / 0x1000 % 0x2000 * 0x1000
                 + w / 0x100 % 0x10 * 0x100 + w / 0x80 % 2 * 0x80 + w % 0x80
  {
    DivDiv(w, 0x80, 2);
    DivDiv(w, 0x100, 0x10);
    DivDiv(w, 0x1000, 0x2000);
    DivDiv(w, 0x200_0000, 0x40);
    DivMod(w, 0x8000_0000);
  }

  lemma BranchSame(w: nat, v: nat)
    requires w < 0x1_0000_0000 && v < 0x1_0000_0000 && B.BranchImm(w) == B.BranchImm(v)
    requires w / 0x1000 % 0x2000 == v / 0x1000 % 0x2000 && w % 0x80 == v % 0x80
    ensures w == v
  {
    hide B.SignExtend;
    var a, b, c, d := w / 0x8000_0000 % 2, w / 0x80 % 2, w / 0x200_0000 % 0x40, w / 0x100 % 0x10;
    var a2, b2, c2, d2 := v / 0x8000_0000 % 2, v / 0x80 % 2, v / 0x200_0000 % 0x40, v / 0x100 % 0x10;
    SameRaw(a * 0x1000 + b * 0x800 + c * 0x20 + d * 2, a2 * 0x1000 + b2 * 0x800 + c2 * 0x20 + d2 * 2, 0x1000);
    FourDigits(a, b, c, d, a2, b2, c2, d2, 0x1000, 0x800, 0x20);
    BranchParts(w);
    BranchParts(v);
  }

  lemma BTypeBound(u: nat, cond: nat, rs1: nat, rs2: nat)
    requires cond < 8 && rs1 < 32 && rs2 < 32
    ensures BType(u, cond, rs1, rs2) < 0x1_0000_0000
  {
  }

  lemma ThreeFields(m: nat)
    requires m < 0x2000
    ensures m == m % 8 + m / 8 % 0x20 * 8 + m / 0x100 * 0x100 && m / 0x100 < 0x20
  {
    DivDiv(m, 8, 0x20);
  }

  lemma BranchWas(w: nat)
    requires w < 0x1_0000_0000 && w % 0x80 == 0x63
    ensures exists i: RvIns :: i.Branch? && Whole(i) && Word(i) == w
  {
    hide B.BranchImm, BType;
    var m := w / 0x1000 % 0x2000;
    ThreeFields(m);
    B.BranchInReach(w);
    var i := Branch(m % 8, m / 8 % 0x20, m / 0x100, B.BranchImm(w));
    BranchWord(i.cond, i.rs1, i.rs2, i.disp);
    BTypeBound(Word32(i.disp), i.cond, i.rs1, i.rs2);
    BranchSame(w, Word(i));
  }

  lemma CJSame(w: nat, v: nat)
    requires w < 0x1_0000 && v < 0x1_0000 && B.CjImm(w) == B.CjImm(v)
    requires w / 0x2000 % 8 == v / 0x2000 % 8 && w % 4 == v % 4
    ensures w == v
  {
    hide B.SignExtend, B.CjOrdered, B.CjPayload;
    B.OrderedRange(w / 4 % 0x800);
    B.OrderedRange(v / 4 % 0x800);
    SameRaw(B.CjOrdered(w / 4 % 0x800), B.CjOrdered(v / 4 % 0x800), 0x800);
    B.CjForth(w / 4 % 0x800);
    B.CjForth(v / 4 % 0x800);
    B.HalfwordParts(w);
    B.HalfwordParts(v);
  }

  lemma CJTypeBound(u: nat, funct3: nat)
    requires funct3 < 8
    ensures CJType(u, funct3) < 0x1_0000
  {
  }

  lemma CJWas(w: nat)
    requires w < 0x1_0000 && w % 4 == 1 && w / 0x2000 % 8 in {1, 5}
    ensures var i := if w / 0x2000 % 8 == 5 then CJ(B.CjImm(w)) else CJal(B.CjImm(w)); Whole(i) && Word(i) == w
  {
    hide B.CjImm, CJType;
    B.CjInReach(w);
    CJWord(B.CjImm(w), w / 0x2000 % 8);
    CJTypeBound(Word32(B.CjImm(w)), w / 0x2000 % 8);
    CJSame(w, CJType(Word32(B.CjImm(w)), w / 0x2000 % 8));
  }

  lemma FiveDigits(a: nat, b: nat, c: nat, d: nat, e: nat, a2: nat, b2: nat, c2: nat, d2: nat, e2: nat)
    requires b < 4 && b2 < 4 && c < 2 && c2 < 2 && d < 4 && d2 < 4 && e < 4 && e2 < 4
    requires a * 0x100 + b * 0x40 + c * 0x20 + d * 8 + e * 2 == a2 * 0x100 + b2 * 0x40 + c2 * 0x20 + d2 * 8 + e2 * 2
    ensures a == a2 && b == b2 && c == c2 && d == d2 && e == e2
  {
  }

  lemma CBParts(w: nat)
    requires w < 0x1_0000
    ensures w == w / 0x2000 % 8 * 0x2000 + w / 0x400 % 8 * 0x400 + w / 0x80 % 8 * 0x80 + w / 4 % 0x20 * 4 + w % 4
  {
    DivDiv(w, 4, 0x20);
    DivDiv(w, 0x80, 8);
    DivDiv(w, 0x400, 8);
  }

  lemma LowParts(lo: nat, hi: nat)
    requires lo < 0x20 && hi < 8
    ensures lo == lo / 8 % 4 * 8 + lo / 2 % 4 * 2 + lo % 2 && hi == hi / 4 % 2 * 4 + hi % 4
  {
    DivDiv(lo, 2, 4);
  }

  lemma CBSame(w: nat, v: nat)
    requires w < 0x1_0000 && v < 0x1_0000 && B.CbImm(w) == B.CbImm(v)
    requires w / 0x2000 % 8 == v / 0x2000 % 8 && w / 0x80 % 8 == v / 0x80 % 8 && w % 4 == v % 4
    ensures w == v
  {
    hide B.SignExtend;
    var lo: nat, hi: nat, lo2: nat, hi2: nat := w / 4 % 0x20, w / 0x400 % 8, v / 4 % 0x20, v / 0x400 % 8;
    SameRaw(hi / 4 % 2 * 0x100 + lo / 8 % 4 * 0x40 + lo % 2 * 0x20 + hi % 4 * 8 + lo / 2 % 4 * 2,
            hi2 / 4 % 2 * 0x100 + lo2 / 8 % 4 * 0x40 + lo2 % 2 * 0x20 + hi2 % 4 * 8 + lo2 / 2 % 4 * 2, 0x100);
    FiveDigits(hi / 4 % 2, lo / 8 % 4, lo % 2, hi % 4, lo / 2 % 4, hi2 / 4 % 2, lo2 / 8 % 4, lo2 % 2, hi2 % 4, lo2 / 2 % 4);
    LowParts(lo, hi);
    LowParts(lo2, hi2);
    CBParts(w);
    CBParts(v);
  }

  lemma CBTypeBound(u: nat, funct3: nat, rs: nat)
    requires funct3 < 8 && rs < 8
    ensures CBType(u, funct3, rs) < 0x1_0000
  {
  }

  lemma CBWas(w: nat)
    requires w < 0x1_0000 && w % 4 == 1 && w / 0x2000 % 8 in {6, 7}
    ensures var rs, disp := w / 0x80 % 8, B.CbImm(w);
      var i := if w / 0x2000 % 8 == 6 then CBeqz(rs, disp) else CBnez(rs, disp); Whole(i) && Word(i) == w
  {
    hide B.CbImm, CBType;
    var rs, disp := w / 0x80 % 8, B.CbImm(w);
    B.CbInReach(w);
    CBWord(rs, disp, w / 0x2000 % 8);
    CBTypeBound(Word32(disp), w / 0x2000 % 8, rs);
    CBSame(w, CBType(Word32(disp), w / 0x2000 % 8, rs));
  }

  predicate Encodes(i: RvIns, w: nat, len: nat) { Whole(i) && Length(i) == len && Word(i) == w }

  lemma BranchFound(w: nat, len: nat) returns (i: RvIns)
    requires w < (if len == 4 then 0x1_0000_0000 else 0x1_0000) && B.FormOf(w, len) != B.Other
    ensures IsBranch(i) && Encodes(i, w, len)
  {
    hide B.JalImm, B.BranchImm, B.CjImm, B.CbImm, Word;
    if len == 4 && w % 0x80 == 0x6f {
      JalWas(w);
      i := Jal(w / 0x80 % 0x20, B.JalImm(w));
    } else if len == 4 {
      BranchWas(w);
      i :| i.Branch? && Whole(i) && Word(i) == w;
    } else if w / 0x2000 % 8 in {1, 5} {
      CJWas(w);
      i := if w / 0x2000 % 8 == 5 then CJ(B.CjImm(w)) else CJal(B.CjImm(w));
    } else {
      CBWas(w);
      i := if w / 0x2000 % 8 == 6 then CBeqz(w / 0x80 % 8, B.CbImm(w)) else CBnez(w / 0x80 % 8, B.CbImm(w));
    }
  }

  /** The patcher takes for a branch of some form and displacement exactly the words
      that assemble one, by length; C.ADDIW of RV64 shares its words with C.JAL. */
  lemma BranchExact(w: nat, len: nat, f: B.Form, disp: int)
    requires w < (if len == 4 then 0x1_0000_0000 else 0x1_0000) && f != B.Other
    ensures B.FormOf(w, len) == f && B.Offset(f, w) == disp
       <==> exists i: RvIns :: IsBranch(i) && Encodes(i, w, len) && FormIs(i) == f && i.disp == disp
  {
    hide B.FormOf, B.Offset, Word, Whole;
    if B.FormOf(w, len) == f {
      var i := BranchFound(w, len);
      BranchReads(i);
    }
    forall i: RvIns | IsBranch(i) && Encodes(i, w, len)
      ensures B.FormOf(w, len) == FormIs(i) && B.Offset(FormIs(i), w) == i.disp
    {
      BranchReads(i);
    }
  }

  // ---- AUIPC and the users of its register ------------------------------------------------------

  lemma Fields(opcode: nat, rd: nat, kind: nat, rs1: nat, top: nat)
    requires opcode < 0x80 && rd < 32 && kind < 8 && rs1 < 32 && top < 0x1000
    ensures var w := top * 0x10_0000 + rs1 * 0x8000 + kind * 0x1000 + rd * 0x80 + opcode;
      && w < 0x1_0000_0000 && w % 0x80 == opcode && w / 0x80 % 0x20 == rd && w / 0x1000 % 8 == kind
      && w / 0x8000 % 0x20 == rs1 && w / 0x10_0000 == top
  {
    var w := top * 0x10_0000 + rs1 * 0x8000 + kind * 0x1000 + rd * 0x80 + opcode;
    var q2 := top * 0x20 + rs1;
    var q1 := q2 * 8 + kind;
    Cut(q1 * 0x20 + rd, 0x80, opcode);
    Layer(w, 0x80, q1, 0x20, rd);
    Layer(w, 0x1000, q2, 8, kind);
    Layer(w, 0x8000, top, 0x20, rs1);
  }

  lemma FieldsBack(w: nat)
    requires w < 0x1_0000_0000
    ensures w == w / 0x10_0000 * 0x10_0000 + w / 0x8000 % 0x20 * 0x8000 + w / 0x1000 % 8 * 0x1000 + w / 0x80 % 0x20 * 0x80 + w % 0x80
    ensures w / 0x10_0000 < 0x1000
  {
    DivDiv(w, 0x80, 0x20);
    DivDiv(w, 0x1000, 8);
    DivDiv(w, 0x8000, 0x20);
    DivMod(w, 0x10_0000);
  }

  /** An instruction that adds its immediate to `rs1`, or a store. */
  predicate Based(i: RvIns) { i.Jalr? || i.Load? || i.OpImm? || i.Store? }

  lemma ImmIs(imm: int)
    requires -0x800 <= imm < 0x800
    ensures P.SignExtend(Word32(imm) % 0x1000, 0x800) == imm
  {
  }

  lemma SplitImm(u: nat)
    ensures u / 0x20 % 0x80 * 0x20 + u % 0x20 == u % 0x1000
  {
    DivDiv(u, 0x20, 0x80);
  }

  lemma ITypeReads(imm: int, rs1: nat, kind: nat, rd: nat, opcode: nat)
    requires -0x800 <= imm < 0x800 && rs1 < 32 && kind < 8 && rd < 32 && opcode in {0x67, 0x03, 0x13}
    ensures var w := IType(Word32(imm), rs1, kind, rd, opcode);
      && w < 0x1_0000_0000 && w % 0x80 == opcode && w / 0x80 % 0x20 == rd && w / 0x8000 % 0x20 == rs1
      && P.LowOffset(w) == imm
  {
    hide P.SignExtend;
    var top := Word32(imm) % 0x1000;
    Fields(opcode, rd, kind, rs1, top);
    ImmIs(imm);
  }

  lemma STypeReads(imm: int, rs2: nat, rs1: nat, width: nat)
    requires -0x800 <= imm < 0x800 && rs1 < 32 && width < 8 && rs2 < 32
    ensures var w := SType(Word32(imm), rs2, rs1, width);
      && w < 0x1_0000_0000 && w % 0x80 == 0x23 && w / 0x8000 % 0x20 == rs1
      && P.LowOffset(w) == imm
  {
    hide P.SignExtend;
    var u := Word32(imm);
    Fields(0x23, u % 0x20, width, rs1, u / 0x20 % 0x80 * 0x20 + rs2);
    Layer(SType(u, rs2, rs1, width), 0x10_0000, u / 0x20 % 0x80, 0x20, rs2);
    SplitImm(u);
    ImmIs(imm);
  }

  /** The immediate that completes an address, and the register it is added to. */
  lemma BasedReads(i: RvIns)
    requires Whole(i) && Based(i)
    ensures var w := Word(i);
      && w < 0x1_0000_0000 && w / 0x8000 % 0x20 == i.rs1 && P.LowOffset(w) == i.imm
      && w % 0x80 == (if i.Jalr? then 0x67 else if i.Load? then 0x03 else if i.OpImm? then 0x13 else 0x23)
      && (!i.Store? ==> w / 0x80 % 0x20 == i.rd)
  {
    hide P.LowOffset, IType, SType;
    match i
    case Jalr(kind, rd, rs1, imm) => ITypeReads(imm, rs1, kind, rd, 0x67);
    case Load(kind, rd, rs1, imm) => ITypeReads(imm, rs1, kind, rd, 0x03);
    case OpImm(kind, rd, rs1, imm) => ITypeReads(imm, rs1, kind, rd, 0x13);
    case Store(width, rs1, rs2, imm) => STypeReads(imm, rs2, rs1, width);
  }

  lemma AuipcReads(i: RvIns)
    requires Whole(i) && i.Auipc?
    ensures var w := Word(i);
      w < 0x1_0000_0000 && w % 0x80 == 0x17 && w / 0x80 % 0x20 == i.rd && P.AuipcOffset(w) == i.upper * 0x1000
  {
    var v := i.upper % 0x10_0000;
    var w := Word(i);
    Cut(v * 0x20 + i.rd, 0x80, 0x17);
    Layer(w, 0x80, v, 0x20, i.rd);
  }

  lemma ITypeBack(w: nat, opcode: nat)
    requires w < 0x1_0000_0000 && w % 0x80 == opcode
    ensures var imm := P.SignExtend(w / 0x10_0000, 0x800);
      -0x800 <= imm < 0x800 && IType(Word32(imm), w / 0x8000 % 0x20, w / 0x1000 % 8, w / 0x80 % 0x20, opcode) == w
  {
    FieldsBack(w);
    UnsignedImm(w / 0x10_0000);
  }

  lemma UnsignedImm(top: nat)
    requires top < 0x1000
    ensures var imm := P.SignExtend(top, 0x800); -0x800 <= imm < 0x800 && Word32(imm) % 0x1000 == top
  {
  }

  lemma STypeBack(w: nat)
    requires w < 0x1_0000_0000 && w % 0x80 == 0x23
    ensures var imm := P.SignExtend(w / 0x200_0000 * 0x20 + w / 0x80 % 0x20, 0x800);
      -0x800 <= imm < 0x800 && w / 0x10_0000 % 0x20 < 32
      && SType(Word32(imm), w / 0x10_0000 % 0x20, w / 0x8000 % 0x20, w / 0x1000 % 8) == w
  {
    hide P.SignExtend, Word32;
    FieldsBack(w);
    DivDiv(w, 0x10_0000, 0x20);
    DivMod(w / 0x10_0000, 0x20);
    var hi, lo := w / 0x200_0000, w / 0x80 % 0x20;
    UnsignedImm(hi * 0x20 + lo);
    var u := Word32(P.SignExtend(hi * 0x20 + lo, 0x800));
    DivDiv(u, 0x20, 0x80);
    SplitUnique(u / 0x20 % 0x80, u % 0x20, hi, lo);
  }

  lemma SplitUnique(a: nat, b: nat, c: nat, d: nat)
    requires a * 0x20 + b == c * 0x20 + d && b < 0x20 && d < 0x20
    ensures a == c && b == d
  {
  }

  predicate UsedBy(w: nat, rd: nat, i: RvIns) { Whole(i) && Based(i) && Word(i) == w && i.rs1 == rd }

  /** An instruction completes an address in `rd` exactly when it is a JALR, a load, an
      operation with an immediate or a store based on `rd`. */
  lemma UsesExact(ins: Instr, rd: nat)
    requires |ins.raw| == 4
    ensures Uses(ins, rd) <==> exists i: RvIns :: UsedBy(WordOf(ins), rd, i)
  {
    hide Word, IType, SType, P.LowOffset, LeValue;
    var w := WordOf(ins);
    ValueBound(ins.raw, false);
    assert Pow256(4) == 0x1_0000_0000;
    if Uses(ins, rd) {
      var i := UserOf(w);
      assert UsedBy(w, rd, i);
    }
    forall i: RvIns | UsedBy(w, rd, i)
      ensures Uses(ins, rd)
    {
      BasedReads(i);
    }
  }

  lemma UserOf(w: nat) returns (i: RvIns)
    requires w < 0x1_0000_0000 && w % 0x80 in {0x67, 0x03, 0x13, 0x23}
    ensures Whole(i) && Based(i) && Word(i) == w && i.rs1 == w / 0x8000 % 0x20
  {
    hide IType, SType, P.SignExtend;
    var rd, kind, rs1 := w / 0x80 % 0x20, w / 0x1000 % 8, w / 0x8000 % 0x20;
    var imm := P.SignExtend(w / 0x10_0000, 0x800);
    if w % 0x80 == 0x23 {
      STypeBack(w);
      i := Store(kind, rs1, w / 0x10_0000 % 0x20, P.SignExtend(w / 0x200_0000 * 0x20 + w / 0x80 % 0x20, 0x800));
    } else {
      ITypeBack(w, w % 0x80);
      i := if w % 0x80 == 0x67 then Jalr(kind, rd, rs1, imm) else if w % 0x80 == 0x03 then Load(kind, rd, rs1, imm)
           else OpImm(kind, rd, rs1, imm);
    }
  }

  /** What the patcher reads of a pair's two words is what was assembled; a store never
      overwrites the register of the AUIPC, another completion does when it is its own. */
  lemma PairReads(a: Instr, p: Instr, i: RvIns, j: RvIns)
    requires |a.raw| == 4 == |p.raw| && Whole(i) && Whole(j) && i.Auipc? && Based(j)
    requires WordOf(a) == Word(i) && WordOf(p) == Word(j)
    ensures (IsAuipc(a) <==> i.rd != 0) && Rd(a) == i.rd
    ensures P.Offset(WordOf(a), WordOf(p)) == i.upper * 0x1000 + j.imm
    ensures forall r: nat :: Overwrites(p, r) <==> !j.Store? && j.rd == r
  {
    hide Word, P.LowOffset, P.AuipcOffset, LeValue;
    AuipcReads(i);
    BasedReads(j);
  }
}
