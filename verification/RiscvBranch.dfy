/**
 RISC-V jumps and branches (src/arch/riscv_patch.rs:36-151, 175-305).

 Instruction words are numbers; each immediate scatters its bits over fields that
 do not overlap, so masks and shifts are division, remainder and addition.
 */
module RiscvBranch {
  import opened Bytes
  import opened Arith
  import opened AddressMap
  import opened Retarget

  const W32: nat := 0x1_0000_0000
  const W16: nat := 0x1_0000

  /** JAL, B-type, C.J or C.JAL, C.BEQZ or C.BNEZ, anything else. */
  datatype Form = Jal | Branch | CJump | CBranch | Other

  /** `len` is the instruction length: 4 or 2 bytes. */
  function FormOf(w: nat, len: nat): Form {
    if len == 4 then
      if w % 0x80 == 0x6f then Jal else if w % 0x80 == 0x63 then Branch else Other
    else if len == 2 && w % 4 == 1 then
      var funct3 := w / 0x2000 % 8;
      if funct3 == 5 || funct3 == 1 then CJump else if funct3 == 6 || funct3 == 7 then CBranch else Other
    else Other
  }

  /** `as u32` of a displacement. */
  function U32(x: int): nat { x % W32 }

  function SignExtend(v: int, half: int): int { if v < half then v else v - 2 * half }

  // ---- Immediates -------------------------------------------------------------------

  function EncodeJalImm(offset: int): nat {
    var imm := U32(offset);
    imm / 0x10_0000 % 2 * 0x8000_0000 + imm / 2 % 0x400 * 0x20_0000 + imm / 0x800 % 2 * 0x10_0000
      + imm / 0x1000 % 0x100 * 0x1000
  }

  function JalImm(w: nat): int {
    SignExtend(w / 0x8000_0000 % 2 * 0x10_0000 + w / 0x1000 % 0x100 * 0x1000 + w / 0x10_0000 % 2 * 0x800
               + w / 0x20_0000 % 0x400 * 2, 0x10_0000)
  }

  function EncodeBranchImm(offset: int): nat {
    var imm := U32(offset);
    imm / 0x1000 % 2 * 0x8000_0000 + imm / 0x20 % 0x40 * 0x200_0000 + imm / 2 % 0x10 * 0x100 + imm / 0x800 % 2 * 0x80
  }

  function BranchImm(w: nat): int {
    SignExtend(w / 0x8000_0000 % 2 * 0x1000 + w / 0x80 % 2 * 0x800 + w / 0x200_0000 % 0x40 * 0x20
               + w / 0x100 % 0x10 * 2, 0x1000)
  }

  /** The 11-bit payload of C.J, bit by bit out of order. */
  function CjPayload(imm: nat): nat {
    imm / 0x20 % 2 + imm / 2 % 8 * 2 + imm / 0x80 % 2 * 0x10 + imm / 0x40 % 2 * 0x20
      + imm / 0x400 % 2 * 0x40 + imm / 0x100 % 4 * 0x80 + imm / 0x10 % 2 * 0x200 + imm / 0x800 % 2 * 0x400
  }

  function EncodeCjImm(offset: int): nat { CjPayload(U32(offset)) * 4 }

  /** The payload put back in order. */
  function CjOrdered(bits: nat): nat {
    bits / 0x400 % 2 * 0x800 + bits / 0x40 % 2 * 0x400 + bits / 0x80 % 4 * 0x100 + bits / 0x10 % 2 * 0x80
      + bits / 0x20 % 2 * 0x40 + bits % 2 * 0x20 + bits / 0x200 % 2 * 0x10 + bits / 2 % 8 * 2
  }

  function CjImm(hw: nat): int { SignExtend(CjOrdered(hw / 4 % 0x800), 0x800) }

  function EncodeCbImm(offset: int): nat {
    var imm := U32(offset);
    var lo := imm / 0x20 % 2 + imm / 2 % 4 * 2 + imm / 0x40 % 4 * 8;
    var hi := imm / 8 % 4 + imm / 0x100 % 2 * 4;
    hi * 0x400 + lo * 4
  }

  function CbImm(hw: nat): int {
    var lo, hi := hw / 4 % 0x20, hw / 0x400 % 8;
    SignExtend(hi / 4 % 2 * 0x100 + lo / 8 % 4 * 0x40 + lo % 2 * 0x20 + hi % 4 * 8 + lo / 2 % 4 * 2, 0x100)
  }

  /** The displacement a word of this form encodes. */
  function Offset(f: Form, w: nat): int {
    match f
    case Jal => JalImm(w)
    case Branch => BranchImm(w)
    case CJump => CjImm(w)
    case CBranch => CbImm(w)
    case Other => 0
  }

  /** The word with its displacement replaced, other fields masked through. */
  function SetOffset(f: Form, w: nat, off: int): nat {
    match f
    case Jal => w % 0x1000 + EncodeJalImm(off)
    case Branch => w / 0x1000 % 0x2000 * 0x1000 + w % 0x80 + EncodeBranchImm(off)
    case CJump => w / 0x2000 % 8 * 0x2000 + w % 4 + EncodeCjImm(off)
    case CBranch => w / 0x2000 % 8 * 0x2000 + w / 0x80 % 8 * 0x80 + w % 4 + EncodeCbImm(off)
    case Other => w
  }

  /** Opcode, function and registers. */
  function Rest(f: Form, w: nat): (nat, nat, nat) {
    match f
    case Jal => (w % 0x1000, 0, 0)
    case Branch => (w / 0x1000 % 0x2000, w % 0x80, 0)
    case CJump => (w / 0x2000 % 8, w % 4, 0)
    case CBranch => (w / 0x2000 % 8, w / 0x80 % 8, w % 4)
    case Other => (w, 0, 0)
  }

  function Reach(f: Form): int {
    match f
    case Jal => 0x10_0000
    case Branch => 0x1000
    case CJump => 0x800
    case CBranch => 0x100
    case Other => 1
  }

  lemma InReach(raw: int, half: int)
    requires half in {0x10_0000, 0x1000, 0x800, 0x100} && 0 <= raw < 2 * half && raw % 2 == 0
    ensures -half <= SignExtend(raw, half) < half && SignExtend(raw, half) % 2 == 0
  {
  }

  lemma FourFields(a: nat, ua: nat, b: nat, ub: nat, c: nat, uc: nat, d: nat, half: nat)
    requires (ua, ub, uc, half) in {(0x10_0000, 0x1000, 0x800, 0x10_0000), (0x1000, 0x800, 0x20, 0x1000)}
    requires a < 2 && b * ub < ua && c * uc < ub && d * 2 < uc
    ensures 0 <= a * ua + b * ub + c * uc + d * 2 < 2 * half && (a * ua + b * ub + c * uc + d * 2) % 2 == 0
  {
  }

  lemma CjRange(b11: nat, b10: nat, b98: nat, b7: nat, b6: nat, b5: nat, b4: nat, b31: nat)
    requires b5 < 2 && b31 < 8 && b7 < 2 && b6 < 2 && b10 < 2 && b98 < 4 && b4 < 2 && b11 < 2
    ensures var raw := b11 * 0x800 + b10 * 0x400 + b98 * 0x100 + b7 * 0x80 + b6 * 0x40 + b5 * 0x20 + b4 * 0x10 + b31 * 2;
      0 <= raw < 0x1000 && raw % 2 == 0
  {
  }

  lemma CbRange(b8: nat, b76: nat, b5: nat, b43: nat, b21: nat)
    requires b8 < 2 && b76 < 4 && b5 < 2 && b43 < 4 && b21 < 4
    ensures var raw := b8 * 0x100 + b76 * 0x40 + b5 * 0x20 + b43 * 8 + b21 * 2; 0 <= raw < 0x200 && raw % 2 == 0
  {
  }

  lemma JalInReach(w: nat)
    ensures -Reach(Jal) <= JalImm(w) < Reach(Jal) && JalImm(w) % 2 == 0
  {
    hide SignExtend;
    var a, b, c, d := w / 0x8000_0000 % 2, w / 0x1000 % 0x100, w / 0x10_0000 % 2, w / 0x20_0000 % 0x400;
    FourFields(a, 0x10_0000, b, 0x1000, c, 0x800, d, 0x10_0000);
    InReach(a * 0x10_0000 + b * 0x1000 + c * 0x800 + d * 2, 0x10_0000);
  }

  lemma BranchInReach(w: nat)
    ensures -Reach(Branch) <= BranchImm(w) < Reach(Branch) && BranchImm(w) % 2 == 0
  {
    hide SignExtend;
    var a, b, c, d := w / 0x8000_0000 % 2, w / 0x80 % 2, w / 0x200_0000 % 0x40, w / 0x100 % 0x10;
    FourFields(a, 0x1000, b, 0x800, c, 0x20, d, 0x1000);
    InReach(a * 0x1000 + b * 0x800 + c * 0x20 + d * 2, 0x1000);
  }

  lemma CjInReach(w: nat)
    ensures -Reach(CJump) <= CjImm(w) < Reach(CJump) && CjImm(w) % 2 == 0
  {
    hide SignExtend;
    var bits: nat := w / 4 % 0x800;
    var b11, b10, b98, b7 := bits / 0x400 % 2, bits / 0x40 % 2, bits / 0x80 % 4, bits / 0x10 % 2;
    var b6, b5, b4, b31 := bits / 0x20 % 2, bits % 2, bits / 0x200 % 2, bits / 2 % 8;
    CjRange(b11, b10, b98, b7, b6, b5, b4, b31);
    InReach(b11 * 0x800 + b10 * 0x400 + b98 * 0x100 + b7 * 0x80 + b6 * 0x40 + b5 * 0x20 + b4 * 0x10 + b31 * 2, 0x800);
  }

  lemma CbInReach(w: nat)
    ensures -Reach(CBranch) <= CbImm(w) < Reach(CBranch) && CbImm(w) % 2 == 0
  {
    hide SignExtend;
    var lo: nat, hi: nat := w / 4 % 0x20, w / 0x400 % 8;
    CbRange(hi / 4 % 2, lo / 8 % 4, lo % 2, hi % 4, lo / 2 % 4);
    InReach(hi / 4 % 2 * 0x100 + lo / 8 % 4 * 0x40 + lo % 2 * 0x20 + hi % 4 * 8 + lo / 2 % 4 * 2, 0x100);
  }

  lemma OffsetInReach(f: Form, w: nat)
    ensures -Reach(f) <= Offset(f, w) < Reach(f) && Offset(f, w) % 2 == 0
  {
    hide JalImm, BranchImm, CjImm, CbImm;
    match f
    case Jal => JalInReach(w);
    case Branch => BranchInReach(w);
    case CJump => CjInReach(w);
    case CBranch => CbInReach(w);
    case Other =>
  }

  // ---- Round trips ---------------------------------------------------------------------

  /** The two's complement digits of a displacement within reach. */
  lemma Digits(off: int, half: int)
    requires half in {0x10_0000, 0x1000, 0x800, 0x100} && -half <= off < half
    ensures SignExtend(U32(off) % (2 * half), half) == off
  {
  }

  lemma JalFields(a: nat, b: nat, c: nat, d: nat, low: nat)
    requires a < 2 && b < 0x400 && c < 2 && d < 0x100 && low < 0x1000
    ensures var w := low + (a * 0x8000_0000 + b * 0x20_0000 + c * 0x10_0000 + d * 0x1000);
      && w / 0x8000_0000 % 2 == a && w / 0x20_0000 % 0x400 == b && w / 0x10_0000 % 2 == c && w / 0x1000 % 0x100 == d
      && w % 0x1000 == low
  {
    var q2 := a * 0x400 + b;
    var q1 := q2 * 2 + c;
    var w := (q1 * 0x100 + d) * 0x1000 + low;
    Cut(q1 * 0x100 + d, 0x1000, low);
    Layer(w, 0x1000, q1, 0x100, d);
    Layer(w, 0x10_0000, q2, 2, c);
    Layer(w, 0x20_0000, a, 0x400, b);
  }

  lemma JalDigits(imm: nat)
    requires imm % 2 == 0
    ensures imm % 0x20_0000
      == imm / 0x10_0000 % 2 * 0x10_0000 + imm / 0x1000 % 0x100 * 0x1000 + imm / 0x800 % 2 * 0x800 + imm / 2 % 0x400 * 2
  {
    DivDiv(imm, 0x10_0000, 2);
    DivDiv(imm, 0x1000, 0x100);
    DivDiv(imm, 0x800, 2);
    DivDiv(imm, 2, 0x400);
  }

  lemma JalReads(low: nat, off: int)
    requires low < 0x1000 && -0x10_0000 <= off < 0x10_0000 && off % 2 == 0
    ensures JalImm(low + EncodeJalImm(off)) == off && (low + EncodeJalImm(off)) % 0x1000 == low
  {
    hide SignExtend;
    var imm := U32(off);
    Digits(off, 0x10_0000);
    JalDigits(imm);
    JalFields(imm / 0x10_0000 % 2, imm / 2 % 0x400, imm / 0x800 % 2, imm / 0x1000 % 0x100, low);
  }

  lemma BranchLow(q2: nat, c: nat, d: nat, low: nat)
    requires c < 0x10 && d < 2 && low < 0x80
    ensures var w := ((q2 * 0x10 + c) * 2 + d) * 0x80 + low;
      w / 0x1000 == q2 && w / 0x100 % 0x10 == c && w / 0x80 % 2 == d && w % 0x80 == low
  {
    var q1 := q2 * 0x10 + c;
    var w := (q1 * 2 + d) * 0x80 + low;
    Cut(q1 * 2 + d, 0x80, low);
    Layer(w, 0x80, q1, 2, d);
    Layer(w, 0x100, q2, 0x10, c);
  }

  lemma BranchHigh(w: nat, a: nat, b: nat, mid: nat)
    requires a < 2 && b < 0x40 && mid < 0x2000 && w / 0x1000 == (a * 0x40 + b) * 0x2000 + mid
    ensures w / 0x8000_0000 % 2 == a && w / 0x200_0000 % 0x40 == b && w / 0x1000 % 0x2000 == mid
  {
    Layer(w, 0x1000, a * 0x40 + b, 0x2000, mid);
    Layer(w, 0x200_0000, a, 0x40, b);
  }

  lemma BranchFields(a: nat, b: nat, mid: nat, c: nat, d: nat, low: nat)
    requires a < 2 && b < 0x40 && mid < 0x2000 && c < 0x10 && d < 2 && low < 0x80
    ensures var w := mid * 0x1000 + low + (a * 0x8000_0000 + b * 0x200_0000 + c * 0x100 + d * 0x80);
      && w / 0x8000_0000 % 2 == a && w / 0x200_0000 % 0x40 == b && w / 0x1000 % 0x2000 == mid
      && w / 0x100 % 0x10 == c && w / 0x80 % 2 == d && w % 0x80 == low
  {
    var q2 := (a * 0x40 + b) * 0x2000 + mid;
    BranchLow(q2, c, d, low);
    BranchHigh(((q2 * 0x10 + c) * 2 + d) * 0x80 + low, a, b, mid);
  }

  lemma BranchDigits(imm: nat)
    requires imm % 2 == 0
    ensures imm % 0x2000
      == imm / 0x1000 % 2 * 0x1000 + imm / 0x800 % 2 * 0x800 + imm / 0x20 % 0x40 * 0x20 + imm / 2 % 0x10 * 2
  {
    DivDiv(imm, 0x1000, 2);
    DivDiv(imm, 0x800, 2);
    DivDiv(imm, 0x20, 0x40);
    DivDiv(imm, 2, 0x10);
  }

  lemma BranchReads(mid: nat, low: nat, off: int)
    requires mid < 0x2000 && low < 0x80 && -0x1000 <= off < 0x1000 && off % 2 == 0
    ensures var w := mid * 0x1000 + low + EncodeBranchImm(off);
      BranchImm(w) == off && w / 0x1000 % 0x2000 == mid && w % 0x80 == low
  {
    hide SignExtend;
    var imm := U32(off);
    Digits(off, 0x1000);
    BranchDigits(imm);
    BranchFields(imm / 0x1000 % 2, imm / 0x20 % 0x40, mid, imm / 2 % 0x10, imm / 0x800 % 2, low);
  }

  lemma CjLow(q4: nat, b5: nat, b31: nat, b7: nat, b6: nat)
    requires b5 < 2 && b31 < 8 && b7 < 2 && b6 < 2
    ensures var bits := (((q4 * 2 + b6) * 2 + b7) * 8 + b31) * 2 + b5;
      bits / 0x40 == q4 && bits % 2 == b5 && bits / 2 % 8 == b31 && bits / 0x10 % 2 == b7 && bits / 0x20 % 2 == b6
  {
    var q3 := q4 * 2 + b6;
    var q2 := q3 * 2 + b7;
    var bits := (q2 * 8 + b31) * 2 + b5;
    Cut(q2 * 8 + b31, 2, b5);
    Layer(bits, 2, q2, 8, b31);
    Layer(bits, 0x10, q3, 2, b7);
    Layer(bits, 0x20, q4, 2, b6);
  }

  lemma CjTop(bits: nat, b10: nat, b98: nat, b4: nat, b11: nat)
    requires b10 < 2 && b98 < 4 && b4 < 2 && b11 < 2 && bits / 0x40 == ((b11 * 2 + b4) * 4 + b98) * 2 + b10
    ensures bits / 0x40 % 2 == b10 && bits / 0x80 % 4 == b98 && bits / 0x200 % 2 == b4 && bits / 0x400 % 2 == b11
  {
    Layer(bits, 0x40, (b11 * 2 + b4) * 4 + b98, 2, b10);
    Layer(bits, 0x80, b11 * 2 + b4, 4, b98);
    Layer(bits, 0x200, b11, 2, b4);
  }

  /** Eight scattered fields of an 11-bit payload. */
  lemma CjFields(b5: nat, b31: nat, b7: nat, b6: nat, b10: nat, b98: nat, b4: nat, b11: nat)
    requires b5 < 2 && b31 < 8 && b7 < 2 && b6 < 2 && b10 < 2 && b98 < 4 && b4 < 2 && b11 < 2
    ensures var bits := b5 + b31 * 2 + b7 * 0x10 + b6 * 0x20 + b10 * 0x40 + b98 * 0x80 + b4 * 0x200 + b11 * 0x400;
      && bits < 0x800 && bits % 2 == b5 && bits / 2 % 8 == b31 && bits / 0x10 % 2 == b7 && bits / 0x20 % 2 == b6
      && bits / 0x40 % 2 == b10 && bits / 0x80 % 4 == b98 && bits / 0x200 % 2 == b4 && bits / 0x400 % 2 == b11
  {
    var q4 := ((b11 * 2 + b4) * 4 + b98) * 2 + b10;
    CjLow(q4, b5, b31, b7, b6);
    CjTop((((q4 * 2 + b6) * 2 + b7) * 8 + b31) * 2 + b5, b10, b98, b4, b11);
  }

  lemma CjDigits(imm: nat)
    requires imm % 2 == 0
    ensures imm % 0x1000
      == imm / 0x800 % 2 * 0x800 + imm / 0x400 % 2 * 0x400 + imm / 0x100 % 4 * 0x100 + imm / 0x80 % 2 * 0x80
         + imm / 0x40 % 2 * 0x40 + imm / 0x20 % 2 * 0x20 + imm / 0x10 % 2 * 0x10 + imm / 2 % 8 * 2
  {
    DivDiv(imm, 0x800, 2);
    DivDiv(imm, 0x400, 2);
    DivDiv(imm, 0x100, 4);
    DivDiv(imm, 0x80, 2);
    DivDiv(imm, 0x40, 2);
    DivDiv(imm, 0x20, 2);
    DivDiv(imm, 0x10, 2);
    DivDiv(imm, 2, 8);
  }

  /** A compressed word: three high bits, an 11-bit payload, two low bits. */
  lemma CompressedFields(top: nat, bits: nat, low: nat)
    requires top < 8 && bits < 0x800 && low < 4
    ensures var hw := top * 0x2000 + low + bits * 4;
      hw / 0x2000 % 8 == top && hw / 4 % 0x800 == bits && hw % 4 == low && hw < W16
  {
    var hw := (top * 0x800 + bits) * 4 + low;
    Cut(top * 0x800 + bits, 4, low);
    Layer(hw, 4, top, 0x800, bits);
  }

  /** The payload of eight fields, put back in order. */
  lemma CjOrder(b5: nat, b31: nat, b7: nat, b6: nat, b10: nat, b98: nat, b4: nat, b11: nat)
    requires b5 < 2 && b31 < 8 && b7 < 2 && b6 < 2 && b10 < 2 && b98 < 4 && b4 < 2 && b11 < 2
    ensures CjOrdered(b5 + b31 * 2 + b7 * 0x10 + b6 * 0x20 + b10 * 0x40 + b98 * 0x80 + b4 * 0x200 + b11 * 0x400)
      == b11 * 0x800 + b10 * 0x400 + b98 * 0x100 + b7 * 0x80 + b6 * 0x40 + b5 * 0x20 + b4 * 0x10 + b31 * 2
  {
    CjFields(b5, b31, b7, b6, b10, b98, b4, b11);
  }

  lemma CjBack(imm: nat)
    requires imm % 2 == 0
    ensures CjPayload(imm) < 0x800 && CjOrdered(CjPayload(imm)) == imm % 0x1000
  {
    hide CjOrdered;
    var b5, b31, b7, b6 := imm / 0x20 % 2, imm / 2 % 8, imm / 0x80 % 2, imm / 0x40 % 2;
    var b10, b98, b4, b11 := imm / 0x400 % 2, imm / 0x100 % 4, imm / 0x10 % 2, imm / 0x800 % 2;
    CjFields(b5, b31, b7, b6, b10, b98, b4, b11);
    CjOrder(b5, b31, b7, b6, b10, b98, b4, b11);
    CjDigits(imm);
  }

  lemma OrderedLow(q: nat, b31: nat, b4: nat, b5: nat, b6: nat, raw: nat)
    requires b31 < 8 && b4 < 2 && b5 < 2 && b6 < 2 && raw == ((((q * 2 + b6) * 2 + b5) * 2 + b4) * 8 + b31) * 2
    ensures raw / 2 % 8 == b31 && raw / 0x10 % 2 == b4 && raw / 0x20 % 2 == b5 && raw / 0x40 % 2 == b6 && raw / 0x80 == q
  {
    var q6, q5 := q * 2 + b6, (q * 2 + b6) * 2 + b5;
    Cut((q5 * 2 + b4) * 8 + b31, 2, 0);
    Layer(raw, 2, q5 * 2 + b4, 8, b31);
    Layer(raw, 0x10, q5, 2, b4);
    Layer(raw, 0x20, q6, 2, b5);
    Layer(raw, 0x40, q, 2, b6);
  }

  lemma OrderedTop(b7: nat, b98: nat, b10: nat, b11: nat, raw: nat)
    requires b7 < 2 && b98 < 4 && b10 < 2 && b11 < 2 && raw / 0x80 == ((b11 * 2 + b10) * 4 + b98) * 2 + b7
    ensures raw / 0x80 % 2 == b7 && raw / 0x100 % 4 == b98 && raw / 0x400 % 2 == b10 && raw / 0x800 % 2 == b11
  {
    Layer(raw, 0x80, (b11 * 2 + b10) * 4 + b98, 2, b7);
    Layer(raw, 0x100, b11 * 2 + b10, 4, b98);
    Layer(raw, 0x400, b11, 2, b10);
  }

  lemma PayloadDigits(bits: nat)
    requires bits < 0x800
    ensures bits == bits % 2 + bits / 2 % 8 * 2 + bits / 0x10 % 2 * 0x10 + bits / 0x20 % 2 * 0x20
      + bits / 0x40 % 2 * 0x40 + bits / 0x80 % 4 * 0x80 + bits / 0x200 % 2 * 0x200 + bits / 0x400 % 2 * 0x400
  {
    DivDiv(bits, 0x400, 2);
    DivDiv(bits, 0x200, 2);
    DivDiv(bits, 0x80, 4);
    DivDiv(bits, 0x40, 2);
    DivDiv(bits, 0x20, 2);
    DivDiv(bits, 0x10, 2);
    DivDiv(bits, 2, 8);
  }

  lemma CjScatter(b5: nat, b31: nat, b7: nat, b6: nat, b10: nat, b98: nat, b4: nat, b11: nat)
    requires b5 < 2 && b31 < 8 && b7 < 2 && b6 < 2 && b10 < 2 && b98 < 4 && b4 < 2 && b11 < 2
    ensures CjPayload(b11 * 0x800 + b10 * 0x400 + b98 * 0x100 + b7 * 0x80 + b6 * 0x40 + b5 * 0x20 + b4 * 0x10 + b31 * 2)
      == b5 + b31 * 2 + b7 * 0x10 + b6 * 0x20 + b10 * 0x40 + b98 * 0x80 + b4 * 0x200 + b11 * 0x400
  {
    hide CjPayload;
    var q := ((b11 * 2 + b10) * 4 + b98) * 2 + b7;
    var raw := ((((q * 2 + b6) * 2 + b5) * 2 + b4) * 8 + b31) * 2;
    OrderedLow(q, b31, b4, b5, b6, raw);
    OrderedTop(b7, b98, b10, b11, raw);
    PayloadOf(raw);
  }

  lemma PayloadOf(imm: nat)
    ensures CjPayload(imm) == imm / 0x20 % 2 + imm / 2 % 8 * 2 + imm / 0x80 % 2 * 0x10 + imm / 0x40 % 2 * 0x20
      + imm / 0x400 % 2 * 0x40 + imm / 0x100 % 4 * 0x80 + imm / 0x10 % 2 * 0x200 + imm / 0x800 % 2 * 0x400
  {
  }

  /** Every payload is the scattering of its own order. */
  lemma CjForth(bits: nat)
    requires bits < 0x800
    ensures CjPayload(CjOrdered(bits)) == bits
  {
    hide CjPayload;
    CjScatter(bits % 2, bits / 2 % 8, bits / 0x10 % 2, bits / 0x20 % 2, bits / 0x40 % 2, bits / 0x80 % 4,
              bits / 0x200 % 2, bits / 0x400 % 2);
    PayloadDigits(bits);
  }

  lemma HalvesAgree(imm: nat, m: nat)
    requires imm % 2 == 1 && m > 0
    ensures 2 * m > 0 && imm / (2 * m) == (imm - 1) / (2 * m)
  {
    DivDiv(imm, 2, m);
    DivDiv(imm - 1, 2, m);
  }

  /** Bit 0 of a displacement has no place in the payload. */
  lemma CjDropsBit0(imm: nat)
    ensures CjPayload(imm) == CjPayload(imm - imm % 2)
  {
    if imm % 2 == 1 { CjDropsOne(imm, imm - 1); }
  }

  lemma CjDropsOne(imm: nat, even: nat)
    requires imm % 2 == 1 && even == imm - 1
    ensures CjPayload(imm) == CjPayload(even)
  {
    HalvesAgree(imm, 1);
    HalvesAgree(imm, 8);
    HalvesAgree(imm, 0x10);
    HalvesAgree(imm, 0x20);
    HalvesAgree(imm, 0x40);
    HalvesAgree(imm, 0x80);
    HalvesAgree(imm, 0x200);
    HalvesAgree(imm, 0x400);
  }

  /** A displacement has the payload `bits` exactly when it agrees with their order in bits 1 to 11. */
  lemma CjSame(imm: nat, bits: nat)
    requires bits < 0x800
    ensures CjPayload(imm) == bits <==> (imm - imm % 2) % 0x1000 == CjOrdered(bits)
  {
    hide CjPayload, CjOrdered;
    var even: nat := imm - imm % 2;
    assert even % 2 == 0;
    CjDropsBit0(imm);
    CjBack(even);
    CjForth(bits);
    CjForth(CjPayload(even));
  }

  lemma CjReads(top: nat, low: nat, off: int)
    requires top < 8 && low < 4 && -0x800 <= off < 0x800 && off % 2 == 0
    ensures var hw := top * 0x2000 + low + EncodeCjImm(off);
      CjImm(hw) == off && hw / 0x2000 % 8 == top && hw % 4 == low
  {
    hide SignExtend, CjPayload, CjOrdered;
    Digits(off, 0x800);
    CjBack(U32(off));
    CompressedFields(top, CjPayload(U32(off)), low);
  }

  lemma CbParts(b5: nat, b21: nat, b76: nat, b43: nat, b8: nat)
    requires b5 < 2 && b21 < 4 && b76 < 4 && b43 < 4 && b8 < 2
    ensures var lo, hi := b5 + b21 * 2 + b76 * 8, b43 + b8 * 4;
      && lo < 0x20 && hi < 8 && lo % 2 == b5 && lo / 2 % 4 == b21 && lo / 8 % 4 == b76 && hi % 4 == b43 && hi / 4 % 2 == b8
  {
    Cut(b76 * 4 + b21, 2, b5);
    Layer(b5 + b21 * 2 + b76 * 8, 2, b76, 4, b21);
    Cut(b8, 4, b43);
  }

  lemma CbFields(top: nat, reg: nat, low: nat, lo: nat, hi: nat)
    requires top < 8 && reg < 8 && low < 4 && lo < 0x20 && hi < 8
    ensures var hw := top * 0x2000 + reg * 0x80 + low + (hi * 0x400 + lo * 4);
      && hw / 4 % 0x20 == lo && hw / 0x400 % 8 == hi && hw / 0x2000 % 8 == top && hw / 0x80 % 8 == reg && hw % 4 == low
  {
    var q1 := (top * 8 + hi) * 8 + reg;
    var hw := (q1 * 0x20 + lo) * 4 + low;
    Cut(q1 * 0x20 + lo, 4, low);
    Layer(hw, 4, q1, 0x20, lo);
    Layer(hw, 0x80, top * 8 + hi, 8, reg);
    Layer(hw, 0x400, top, 8, hi);
  }

  lemma CbDigits(imm: nat)
    requires imm % 2 == 0
    ensures imm % 0x200
      == imm / 0x100 % 2 * 0x100 + imm / 0x40 % 4 * 0x40 + imm / 0x20 % 2 * 0x20 + imm / 8 % 4 * 8 + imm / 2 % 4 * 2
  {
    DivDiv(imm, 0x100, 2);
    DivDiv(imm, 0x40, 4);
    DivDiv(imm, 0x20, 2);
    DivDiv(imm, 8, 4);
    DivDiv(imm, 2, 4);
  }

  lemma CbReads(top: nat, reg: nat, low: nat, off: int)
    requires top < 8 && reg < 8 && low < 4 && -0x100 <= off < 0x100 && off % 2 == 0
    ensures var hw := top * 0x2000 + reg * 0x80 + low + EncodeCbImm(off);
      CbImm(hw) == off && hw / 0x2000 % 8 == top && hw / 0x80 % 8 == reg && hw % 4 == low
  {
    hide SignExtend;
    var imm := U32(off);
    Digits(off, 0x100);
    CbDigits(imm);
    CbParts(imm / 0x20 % 2, imm / 2 % 4, imm / 0x40 % 4, imm / 8 % 4, imm / 0x100 % 2);
    CbFields(top, reg, low, imm / 0x20 % 2 + imm / 2 % 4 * 2 + imm / 0x40 % 4 * 8, imm / 8 % 4 + imm / 0x100 % 2 * 4);
  }

  lemma SetOffsetReads(f: Form, w: nat, off: int)
    requires f != Other && off % 2 == 0 && -Reach(f) <= off < Reach(f)
    ensures Offset(f, SetOffset(f, w, off)) == off && Rest(f, SetOffset(f, w, off)) == Rest(f, w)
  {
    hide JalImm, BranchImm, CjImm, CbImm, EncodeJalImm, EncodeBranchImm, EncodeCjImm, EncodeCbImm;
    match f
    case Jal => JalReads(w % 0x1000, off);
    case Branch => BranchReads(w / 0x1000 % 0x2000, w % 0x80, off);
    case CJump => CjReads(w / 0x2000 % 8, w % 4, off);
    case CBranch => CbReads(w / 0x2000 % 8, w / 0x80 % 8, w % 4, off);
  }

  lemma OpcodeOf(w: nat)
    ensures w % 0x1000 % 0x80 == w % 0x80
  {
    DivDiv(w, 0x80, 0x20);
    Cut(w / 0x80 % 0x20, 0x80, w % 0x80);
  }

  /** The form of a word depends on `Rest` alone. */
  lemma FormKept(f: Form, w: nat, w2: nat, len: nat)
    requires FormOf(w, len) == f && Rest(f, w2) == Rest(f, w)
    ensures FormOf(w2, len) == f
  {
    if f == Jal {
      OpcodeOf(w);
      OpcodeOf(w2);
    }
  }

  // ---- Patching --------------------------------------------------------------------------

  /** `patch_one_32` and `patch_one_16` on the word at `addr`. */
  function PatchWord(w: nat, len: nat, addr: nat, ivs: Intervals, ts: nat, te: nat): nat {
    var f := FormOf(w, len);
    var target := Wrap64(addr + Offset(f, w));
    var delta := TotalShift(addr, ivs, ts, te) - TotalShift(target, ivs, ts, te);
    if f == Other || delta == 0 then w
    else
      var newAddr := addr - TotalShift(addr, ivs, ts, te);
      var newTarget := target - TotalShift(target, ivs, ts, te);
      SetOffset(f, w, newTarget - newAddr)
  }

  /** A branch that stays, with its target in or before .text and both shifts even. */
  ghost predicate Retargetable(w: nat, len: nat, addr: nat, ivs: Intervals, ts: nat, te: nat) {
    var f := FormOf(w, len);
    && f != Other && WhollyLive(addr, len, ivs, ts, te) && te <= M64
    && 0 <= addr + Offset(f, w) < te
    && TotalShift(addr, ivs, ts, te) % 2 == 0 && TotalShift(addr + Offset(f, w), ivs, ts, te) % 2 == 0
  }

  /**
   `w2`, read at its new address, goes where the target of `w` went, with a
   displacement between zero and the old one; nothing else about it changed.
   */
  ghost predicate Follows(w: nat, w2: nat, len: nat, addr: nat, ivs: Intervals, ts: nat, te: nat) {
    var f := FormOf(w, len);
    && 0 <= addr + Offset(f, w) && FormOf(w2, len) == f && Rest(f, w2) == Rest(f, w)
    && Moved(addr, ivs, ts, te) + Offset(f, w2) == Moved(addr + Offset(f, w), ivs, ts, te)
    && Between(Offset(f, w2), Offset(f, w))
  }

  /** Between live instructions the shifts are even when all dead intervals are. */
  lemma AlignedRetargetable(w: nat, len: nat, addr: nat, ivs: Intervals, ts: nat, te: nat)
    requires FormOf(w, len) != Other && WhollyLive(addr, len, ivs, ts, te) && te <= M64
    requires 0 <= addr + Offset(FormOf(w, len), w) < te
    requires Multiples(ivs, 2) && !InDead(addr + Offset(FormOf(w, len), w), ivs)
    ensures Retargetable(w, len, addr, ivs, ts, te)
  {
    hide Offset, TotalShift;
    FormLength(w, len);
    ShiftAligned(ivs, ts, te, addr, 2);
    ShiftAligned(ivs, ts, te, addr + Offset(FormOf(w, len), w), 2);
  }

  lemma BranchFollows(w: nat, len: nat, addr: nat, ivs: Intervals, ts: nat, te: nat)
    requires Retargetable(w, len, addr, ivs, ts, te)
    ensures Follows(w, PatchWord(w, len, addr, ivs, ts, te), len, addr, ivs, ts, te)
  {
    hide Offset, SetOffset, Rest;
    var f := FormOf(w, len);
    var target := addr + Offset(f, w);
    OffsetInReach(f, w);
    DispShrinks(addr, len, 0, Offset(f, w), ivs, ts, te);
    DispAligned(Offset(f, w), addr, target, ivs, ts, te, 2);
    var off := NewDisp(Offset(f, w), addr, target, ivs, ts, te);
    SetOffsetReads(f, w, off);
    FormKept(f, w, PatchWord(w, len, addr, ivs, ts, te), len);
  }

  lemma FormLength(w: nat, len: nat)
    requires FormOf(w, len) != Other
    ensures len == 2 || len == 4
  {
  }

  /**
   A target after .text: the branch follows it exactly when the new displacement
   still fits, which nothing checks.
   */
  lemma PastTextExact(w: nat, len: nat, addr: nat, ivs: Intervals, ts: nat, te: nat)
    requires FormOf(w, len) != Other && WhollyLive(addr, len, ivs, ts, te)
    requires te <= addr + Offset(FormOf(w, len), w) < M64 && TotalShift(addr, ivs, ts, te) % 2 == 0
    ensures
      var f, w2 := FormOf(w, len), PatchWord(w, len, addr, ivs, ts, te);
      Moved(addr, ivs, ts, te) + Offset(f, w2) == Moved(addr + Offset(f, w), ivs, ts, te)
      <==> NewDisp(Offset(f, w), addr, addr + Offset(f, w), ivs, ts, te) < Reach(f)
  {
    hide Offset, SetOffset, FormOf, Rest, PageShrink;
    var f := FormOf(w, len);
    var target := addr + Offset(f, w);
    var off := NewDisp(Offset(f, w), addr, target, ivs, ts, te);
    OffsetInReach(f, w);
    FormLength(w, len);
    DispPastText(addr, len, 0, Offset(f, w), ivs, ts, te);
    PagesAligned(ivs, 2);
    DispAligned(Offset(f, w), addr, target, ivs, ts, te, 2);
    OffsetInReach(f, PatchWord(w, len, addr, ivs, ts, te));
    if off < Reach(f) { SetOffsetReads(f, w, off); }
  }

  /** And it can fail to: `c.j` by 0x7fe, with 256 dead bytes below and no whole page to drop. */
  lemma PastTextLost()
    ensures
      var w := 0xaffd;
      && FormOf(w, 2) == CJump && WhollyLive(0x1000, 2, GAP, 0, 0x1400) && 0x1400 <= 0x1000 + CjImm(w)
      && Moved(0x1000, GAP, 0, 0x1400) + CjImm(PatchWord(w, 2, 0x1000, GAP, 0, 0x1400))
         != Moved(0x1000 + CjImm(w), GAP, 0, 0x1400)
  {
    hide CjImm, Shift, PageShrink, PatchWord;
    assert FormOf(0xaffd, 2) == CJump;
    assert CjImm(0xaffd) == 0x7fe by { FarJump(); }
    forall x: nat | 0x1000 <= x < 0x1002 ensures !InDead(x, GAP) { GapShifts(x); }
    GapShifts(0x1000);
    PastTextExact(0xaffd, 2, 0x1000, GAP, 0, 0x1400);
  }

  lemma FarJump()
    ensures CjImm(0xaffd) == 0x7fe
  {
    assert 0xaffd / 4 % 0x800 == 0x3ff;
  }

  // ---- In the file -----------------------------------------------------------------------

  /** The bytes `patch_one` leaves for an instruction of 2 or 4 bytes. */
  function PatchBytes(ins: Instr, ivs: Intervals, ts: nat, te: nat): (r: seq<byte>)
    ensures |r| == |ins.raw|
  {
    if |ins.raw| == 4 || |ins.raw| == 2
    then LeBytes(PatchWord(LeValue(ins.raw), |ins.raw|, ins.addr, ivs, ts, te), |ins.raw|)
    else ins.raw
  }

  lemma SetOffsetSmall(f: Form, w: nat, off: int, len: nat)
    requires FormOf(w, len) == f != Other && w < (if len == 4 then W32 else W16)
    ensures SetOffset(f, w, off) < if len == 4 then W32 else W16
  {
    var imm := U32(off);
  }

  lemma PatchBytesRead(ins: Instr, ivs: Intervals, ts: nat, te: nat)
    requires |ins.raw| in {2, 4}
    ensures LeValue(PatchBytes(ins, ivs, ts, te)) == PatchWord(LeValue(ins.raw), |ins.raw|, ins.addr, ivs, ts, te)
  {
    hide SetOffset, Offset;
    assert Pow256(2) == W16 && Pow256(4) == W32;
    var w, len := LeValue(ins.raw), |ins.raw|;
    ValueBound(ins.raw, false);
    if FormOf(w, len) != Other {
      var target := Wrap64(ins.addr + Offset(FormOf(w, len), w));
      var off := target - TotalShift(target, ivs, ts, te) - (ins.addr - TotalShift(ins.addr, ivs, ts, te));
      SetOffsetSmall(FormOf(w, len), w, off, len);
    }
    LeRoundTrip(PatchWord(w, len, ins.addr, ivs, ts, te), len);
  }

  /** The number of `len` bytes at `off`. */
  function WordAt(d: seq<byte>, off: nat, len: nat): nat
    requires off + len <= |d|
  {
    LeValue(d[off..off + len])
  }

  /** The branch of `ins` lies in the file, stays and can be retargeted. */
  ghost predicate Staying(ins: Instr, n: nat, ivs: Intervals, ts: nat, te: nat) {
    InFile(ins, n) && |ins.raw| in {2, 4} && Retargetable(LeValue(ins.raw), |ins.raw|, ins.addr, ivs, ts, te)
  }

  ghost predicate FollowsIn(d: seq<byte>, ins: Instr, ivs: Intervals, ts: nat, te: nat)
    requires InFile(ins, |d|)
  {
    Follows(LeValue(ins.raw), WordAt(d, ins.foff, |ins.raw|), |ins.raw|, ins.addr, ivs, ts, te)
  }

  lemma BranchInFile(d: seq<byte>, ins: Instr, ivs: Intervals, ts: nat, te: nat, patch: Patcher)
    requires Staying(ins, |d|, ivs, ts, te)
    requires patch(ins) == PatchBytes(ins, ivs, ts, te)
    requires HoldsAt(d, ins.foff, BytesOf(ins, ivs, patch))
    ensures FollowsIn(d, ins, ivs, ts, te)
  {
    hide Follows, PatchWord, LeValue, PatchBytes, Offset, FormOf;
    assert !InDead(ins.addr, ivs) by { LiveStart(LeValue(ins.raw), |ins.raw|, ins.addr, ivs, ts, te); }
    PatchBytesRead(ins, ivs, ts, te);
    BranchFollows(LeValue(ins.raw), |ins.raw|, ins.addr, ivs, ts, te);
  }

  lemma LiveStart(w: nat, len: nat, addr: nat, ivs: Intervals, ts: nat, te: nat)
    requires Retargetable(w, len, addr, ivs, ts, te)
    ensures !InDead(addr, ivs)
  {
  }

  // ---- Halfwords that are no jump at all ---------------------------------------------------

  lemma HalfwordParts(w: nat)
    requires w < W16
    ensures w == w / 0x2000 % 8 * 0x2000 + w % 4 + w / 4 % 0x800 * 4
  {
    DivDiv(w, 4, 0x800);
  }

  lemma CjWordSame(w: nat, off: int)
    requires w < W16
    ensures SetOffset(CJump, w, off) == w <==> CjPayload(U32(off)) == w / 4 % 0x800
  {
    hide CjPayload;
    HalfwordParts(w);
  }

  /** A number `d` beyond `raw`, modulo 4096, agrees with it in bits 1 to 11. */
  lemma SameDigits(raw: nat, d: nat, x: nat, k: int)
    requires raw < 0x1000 && raw % 2 == 0 && d < 0x1000 && x == raw + d + k * 0x1000
    ensures (x - x % 2) % 0x1000 == raw <==> d == 0 || d == 1
  {
    SameParity(x, d, raw / 2 + k * 0x800);
    var e := raw + (d - d % 2);
    if e < 0x1000 { Residue(x - x % 2, k, e); } else { Residue(x - x % 2, k + 1, e - 0x1000); }
  }

  lemma SameParity(x: int, d: int, h: int)
    requires x == d + 2 * h
    ensures x % 2 == d % 2
  {
  }

  lemma Residue(n: int, k: int, r: int)
    requires n == k * 0x1000 + r && 0 <= r < 0x1000
    ensures n % 0x1000 == r
  {
  }

  /** The low 32 bits of `imm + delta`, wherever the address space wrapped, lie
      `delta` beyond the digits of `imm`. */
  lemma OffsetDigits(imm: int, raw: nat, delta: int, off: int, k: int)
    requires imm == SignExtend(raw, 0x800) && off == imm + delta + k * M64
    ensures exists c: int :: U32(off) == raw + delta % 0x1000 + c * 0x1000
  {
    var s := if raw < 0x800 then 0 else -1;
    assert U32(off) == raw + delta % 0x1000 + (s + delta / 0x1000 + k * 0x10_0000_0000_0000 - off / W32 * 0x10_0000) * 0x1000;
  }

  /**
   `funct3` 1 in quadrant 1 is C.JAL on RV32 and C.ADDIW on RV64, and the patcher
   does not ask which.  It leaves such a halfword alone exactly when the place the
   immediate seems to name moves as far as the instruction itself, give or take
   what the field does not hold: bit 0 and multiples of 4096.
   */
  lemma CjKeptExact(w: nat, addr: nat, ivs: Intervals, ts: nat, te: nat)
    requires w < W16 && FormOf(w, 2) == CJump
    ensures PatchWord(w, 2, addr, ivs, ts, te) == w
       <==> (TotalShift(addr, ivs, ts, te) - TotalShift(Wrap64(addr + CjImm(w)), ivs, ts, te)) % 0x1000 in {0, 1}
  {
    hide SetOffset, TotalShift, CjPayload, CjOrdered;
    var bits := w / 4 % 0x800;
    var target := Wrap64(addr + CjImm(w));
    var delta := TotalShift(addr, ivs, ts, te) - TotalShift(target, ivs, ts, te);
    var off := target - addr + delta;
    CjWordSame(w, off);
    CjSame(U32(off), bits);
    OrderedRange(bits);
    OffsetDigits(CjImm(w), CjOrdered(bits), delta, off, -((addr + CjImm(w)) / M64));
    var c: int :| U32(off) == CjOrdered(bits) + delta % 0x1000 + c * 0x1000;
    SameDigits(CjOrdered(bits), delta % 0x1000, U32(off), c);
  }

  lemma OrderedRange(bits: nat)
    ensures CjOrdered(bits) < 0x1000 && CjOrdered(bits) % 2 == 0
  {
    CjRange(bits / 0x400 % 2, bits / 0x40 % 2, bits / 0x80 % 4, bits / 0x10 % 2, bits / 0x20 % 2, bits % 2,
            bits / 0x200 % 2, bits / 2 % 8);
  }

  /** With the seeming target in or before .text the shifts must be equal. */
  lemma AddiwKeptExact(w: nat, addr: nat, ivs: Intervals, ts: nat, te: nat)
    requires w < W16 && w % 4 == 1 && w / 0x2000 % 8 == 1 && Retargetable(w, 2, addr, ivs, ts, te)
    ensures PatchWord(w, 2, addr, ivs, ts, te) == w
       <==> TotalShift(addr, ivs, ts, te) == TotalShift(addr + CjImm(w), ivs, ts, te)
  {
    hide PatchWord, Offset, CjImm, TotalShift, Rest, WhollyLive;
    OffsetIsCj(w);
    BranchFollows(w, 2, addr, ivs, ts, te);
    if TotalShift(addr, ivs, ts, te) == TotalShift(addr + CjImm(w), ivs, ts, te) { UnmovedKept(w, addr, ivs, ts, te); }
  }

  lemma OffsetIsCj(w: nat)
    ensures Offset(CJump, w) == CjImm(w)
  {
  }

  lemma UnmovedKept(w: nat, addr: nat, ivs: Intervals, ts: nat, te: nat)
    requires te <= M64 && 0 <= addr + CjImm(w) < te && FormOf(w, 2) == CJump
    requires TotalShift(addr, ivs, ts, te) == TotalShift(addr + CjImm(w), ivs, ts, te)
    ensures PatchWord(w, 2, addr, ivs, ts, te) == w
  {
    hide CjImm, TotalShift, SetOffset;
  }

  /** Past .text the instruction itself must move by whole pages. */
  lemma AddiwPastText(w: nat, addr: nat, ivs: Intervals, ts: nat, te: nat)
    requires w < W16 && w % 4 == 1 && w / 0x2000 % 8 == 1 && ts <= te <= addr + CjImm(w) < M64
    requires TotalShift(addr, ivs, ts, te) % 2 == 0
    ensures PatchWord(w, 2, addr, ivs, ts, te) == w <==> TotalShift(addr, ivs, ts, te) % PAGE_SIZE == 0
  {
    hide CjImm, PatchWord, PageShrink;
    CjKeptExact(w, addr, ivs, ts, te);
    WholePages(TotalShift(addr, ivs, ts, te), TotalDead(ivs) / PAGE_SIZE, ivs);
  }

  lemma WholePages(shift: nat, pages: nat, ivs: Intervals)
    requires shift % 2 == 0 && pages == TotalDead(ivs) / PAGE_SIZE
    ensures (shift - PageShrink(ivs)) % 0x1000 in {0, 1} <==> shift % PAGE_SIZE == 0
  {
    Residue(shift - pages * 0x1000, shift / 0x1000 - pages, shift % 0x1000);
  }

  /**
   And it does happen: `c.addiw a0, 1` (0x2505), read as a jump ahead by 0x620,
   is rewritten when dead bytes lie between.
   */
  lemma AddiwRewritten() returns (ivs: Intervals)
    ensures Fits(ivs, 0, 0x1000) && WhollyLive(0x800, 2, ivs, 0, 0x1000)
    ensures PatchWord(0x2505, 2, 0x800, ivs, 0, 0x1000) != 0x2505
  {
    hide CjImm, SetOffset, Shift;
    ivs := [(0xa00, 0xa10)];
    AddiwImm();
    OneInterval(ivs, 0x800);
    OneInterval(ivs, 0xe20);
    SetOffsetReads(CJump, 0x2505, 0x610);
  }

  lemma AddiwImm()
    ensures FormOf(0x2505, 2) == CJump && CjImm(0x2505) == 0x620
  {
    assert 0x2505 / 4 % 0x800 == 0x141;
  }
}
