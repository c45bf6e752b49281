/**
 The instructions of a CFA program, assembled (section 6.4.2 of the DWARF 5 standard,
 and the GNU, MIPS and AArch64 additions).  Proved here: `Walk` of an assembled
 program lists its instructions and the locations they apply to, and every program
 that walks is an assembled one.
 */
module CfaAsm {
  import opened Wrappers
  import opened Bytes
  import opened Arith
  import opened CfaProgram

  /** Registers, offsets and sizes are LEB128 numbers, kept as their bytes; an
      expression is a LEB128 length and as many bytes. */
  type Leb = seq<byte>

  datatype CfaIns =
    | AdvanceLoc(d: nat) | AdvanceLoc1(d: nat) | AdvanceLoc2(d: nat) | AdvanceLoc4(d: nat) | MipsAdvanceLoc8(d: nat)
    | Nop | RememberState | RestoreState | NegateRaStateWithPc | NegateRaState
    | Restore(r: nat)
    | Offset(r: nat, n: Leb)
    | RestoreExtended(n: Leb) | Undefined(n: Leb) | SameValue(n: Leb) | DefCfaRegister(n: Leb)
    | DefCfaOffset(n: Leb) | DefCfaOffsetSf(n: Leb) | GnuArgsSize(n: Leb)
    | OffsetExtended(n: Leb, m: Leb) | Register(n: Leb, m: Leb) | DefCfa(n: Leb, m: Leb) | OffsetExtendedSf(n: Leb, m: Leb)
    | DefCfaSf(n: Leb, m: Leb) | ValOffset(n: Leb, m: Leb) | ValOffsetSf(n: Leb, m: Leb) | GnuNegativeOffset(n: Leb, m: Leb)
    | DefCfaExpression(len: Leb, body: seq<byte>)
    | Expression(n: Leb, len: Leb, body: seq<byte>) | ValExpression(n: Leb, len: Leb, body: seq<byte>)

  /** At most ten bytes, all but the last with their top bit set. */
  predicate IsLeb(s: Leb) {
    0 < |s| <= 10 && s[|s| - 1] < 128 && forall k: nat :: k < |s| - 1 ==> s[k] >= 128
  }

  /** The number whose seven-bit digits the bytes hold, lowest first. */
  function LebValue(s: Leb): nat {
    if s == [] then 0 else s[0] % 128 + 128 * LebValue(s[1..])
  }

  /** A number, or a length with as many bytes. */
  datatype Arg = Number(n: Leb) | Bytes(len: Leb, body: seq<byte>)

  predicate ArgOk(a: Arg) {
    match a
    case Number(n) => IsLeb(n)
    case Bytes(len, body) => IsLeb(len) && LebValue(len) % 0x1_0000_0000_0000_0000 == |body|
  }

  predicate ArgsOk(args: seq<Arg>) { forall k: nat :: k < |args| ==> ArgOk(args[k]) }

  function ArgBytes(a: Arg): seq<byte> {
    match a
    case Number(n) => n
    case Bytes(len, body) => len + body
  }

  function Args(i: CfaIns): seq<Arg> {
    match i
    case Offset(_, n) => [Number(n)]
    case RestoreExtended(n) => [Number(n)]
    case Undefined(n) => [Number(n)]
    case SameValue(n) => [Number(n)]
    case DefCfaRegister(n) => [Number(n)]
    case DefCfaOffset(n) => [Number(n)]
    case DefCfaOffsetSf(n) => [Number(n)]
    case GnuArgsSize(n) => [Number(n)]
    case OffsetExtended(n, m) => [Number(n), Number(m)]
    case Register(n, m) => [Number(n), Number(m)]
    case DefCfa(n, m) => [Number(n), Number(m)]
    case OffsetExtendedSf(n, m) => [Number(n), Number(m)]
    case DefCfaSf(n, m) => [Number(n), Number(m)]
    case ValOffset(n, m) => [Number(n), Number(m)]
    case ValOffsetSf(n, m) => [Number(n), Number(m)]
    case GnuNegativeOffset(n, m) => [Number(n), Number(m)]
    case DefCfaExpression(len, body) => [Bytes(len, body)]
    case Expression(n, len, body) => [Number(n), Bytes(len, body)]
    case ValExpression(n, len, body) => [Number(n), Bytes(len, body)]
    case _ => []
  }

  /** Width of the field an advance keeps its distance in, 0 for the opcode itself. */
  function Width(i: CfaIns): Option<nat> {
    match i
    case AdvanceLoc(_) => Some(0)
    case AdvanceLoc1(_) => Some(1)
    case AdvanceLoc2(_) => Some(2)
    case AdvanceLoc4(_) => Some(4)
    case MipsAdvanceLoc8(_) => Some(8)
    case _ => None
  }

  predicate Whole(i: CfaIns) {
    && (i.AdvanceLoc? ==> i.d < 64)
    && (i.AdvanceLoc1? ==> i.d < 0x100)
    && (i.AdvanceLoc2? ==> i.d < 0x1_0000)
    && (i.AdvanceLoc4? ==> i.d < 0x1_0000_0000)
    && (i.MipsAdvanceLoc8? ==> i.d < 0x1_0000_0000_0000_0000)
    && (i.Restore? || i.Offset? ==> i.r < 64)
    && ArgsOk(Args(i))
  }

  function Opcode(i: CfaIns): byte
    requires Whole(i)
  {
    match i
    case AdvanceLoc(d) => 0x40 + d
    case AdvanceLoc1(_) => 0x02
    case AdvanceLoc2(_) => 0x03
    case AdvanceLoc4(_) => 0x04
    case MipsAdvanceLoc8(_) => 0x1d
    case Nop => 0x00
    case RememberState => 0x0a
    case RestoreState => 0x0b
    case NegateRaStateWithPc => 0x2c
    case NegateRaState => 0x2d
    case Restore(r) => 0xc0 + r
    case Offset(r, _) => 0x80 + r
    case RestoreExtended(_) => 0x06
    case Undefined(_) => 0x07
    case SameValue(_) => 0x08
    case DefCfaRegister(_) => 0x0d
    case DefCfaOffset(_) => 0x0e
    case DefCfaOffsetSf(_) => 0x13
    case GnuArgsSize(_) => 0x2e
    case OffsetExtended(_, _) => 0x05
    case Register(_, _) => 0x09
    case DefCfa(_, _) => 0x0c
    case OffsetExtendedSf(_, _) => 0x11
    case DefCfaSf(_, _) => 0x12
    case ValOffset(_, _) => 0x14
    case ValOffsetSf(_, _) => 0x15
    case GnuNegativeOffset(_, _) => 0x2f
    case DefCfaExpression(_, _) => 0x0f
    case Expression(_, _, _) => 0x10
    case ValExpression(_, _, _) => 0x16
  }

  function Operand(i: CfaIns, be: bool): seq<byte>
    requires Whole(i)
  {
    match i
    case AdvanceLoc1(d) => [d]
    case AdvanceLoc2(d) => Encode(d, 2, be)
    case AdvanceLoc4(d) => Encode(d, 4, be)
    case MipsAdvanceLoc8(d) => Encode(d, 8, be)
    case _ => ArgsBytes(Args(i))
  }

  function ArgsBytes(args: seq<Arg>): seq<byte> {
    if args == [] then [] else ArgBytes(args[0]) + ArgsBytes(args[1..])
  }

  function Code(i: CfaIns, be: bool): (r: seq<byte>)
    requires Whole(i)
    ensures |r| > 0
  {
    [Opcode(i)] + Operand(i, be)
  }

  predicate AllWhole(ins: seq<CfaIns>) { forall k: nat :: k < |ins| ==> Whole(ins[k]) }

  function Program(ins: seq<CfaIns>, be: bool): seq<byte>
    requires AllWhole(ins)
  {
    if ins == [] then [] else Code(ins[0], be) + Program(ins[1..], be)
  }

  /** How far an instruction moves the location, in units of the code alignment. */
  function Distance(i: CfaIns): nat { if Width(i).Some? then i.d else 0 }

  function OpOf(i: CfaIns, be: bool): Op
    requires Whole(i)
  {
    match Width(i)
    case Some(w) => Advance(w)
    case None => Plain(Code(i, be))
  }

  /** The rows of a program assembled at offset `p`, from location `loc` on. */
  function Rows(ins: seq<CfaIns>, p: nat, loc: nat, caf: nat, be: bool): seq<Row>
    requires AllWhole(ins)
  {
    if ins == [] then [Row(p, End, loc)]
    else [Row(p, OpOf(ins[0], be), loc)] + Rows(ins[1..], p + |Code(ins[0], be)|, loc + Distance(ins[0]) * caf, caf, be)
  }

  // ---- Reading back -----------------------------------------------------------------------

  predicate At(s: seq<byte>, p: nat, part: seq<byte>) { p + |part| <= |s| && s[p..p + |part|] == part }

  lemma AtParts(s: seq<byte>, p: nat, a: seq<byte>, b: seq<byte>)
    requires At(s, p, a + b)
    ensures At(s, p, a) && At(s, p + |a|, b)
  {
    assert s[p..p + |a|] == (a + b)[..|a|];
    assert s[p + |a|..p + |a + b|] == (a + b)[|a|..];
  }

  lemma AtBoth(s: seq<byte>, p: nat, a: seq<byte>, b: seq<byte>)
    requires At(s, p, a) && At(s, p + |a|, b)
    ensures At(s, p, a + b)
  {
    assert s[p..p + |a + b|] == s[p..p + |a|] + s[p + |a|..p + |a| + |b|];
  }

  lemma AtByte(s: seq<byte>, p: nat, n: seq<byte>, k: nat)
    requires At(s, p, n) && k < |n|
    ensures p + k < |s| && s[p + k] == n[k]
  {
    assert s[p + k] == s[p..p + |n|][k];
  }

  /** A number is read from any of its digits on. */
  lemma {:induction false} LebReads(s: seq<byte>, p: nat, end: nat, n: Leb, k: nat)
    requires IsLeb(n) && k < |n| && At(s, p, n) && p + |n| <= end
    ensures ReadUleb(s, p, end, k) == Some((LebValue(n[k..]), |n|))
    decreases |n| - k
  {
    AtByte(s, p, n, k);
    assert n[k..][1..] == n[k + 1..];
    if k + 1 < |n| { LebReads(s, p, end, n, k + 1); } else { assert LebValue(n[k + 1..]) == 0; }
  }

  lemma UlebReads(s: seq<byte>, p: nat, end: nat, n: Leb)
    requires IsLeb(n) && At(s, p, n) && p + |n| <= end
    ensures Uleb(s, p, end) == Some((LebValue(n) % 0x1_0000_0000_0000_0000, |n|))
  {
    LebReads(s, p, end, n, 0);
    assert n[0..] == n;
  }

  function KindOf(a: Arg): CfaProgram.Operand { if a.Number? then CfaProgram.Leb else CfaProgram.Block }

  function Kinds(args: seq<Arg>): (r: seq<CfaProgram.Operand>)
    ensures |r| == |args|
  {
    if args == [] then [] else [KindOf(args[0])] + Kinds(args[1..])
  }

  /** One operand is skipped. */
  lemma ArgSkipped(s: seq<byte>, p: nat, end: nat, a: Arg, ks: seq<CfaProgram.Operand>)
    requires At(s, p, ArgBytes(a)) && p + |ArgBytes(a)| <= end && ArgOk(a)
    requires ks != [] && ks[0] == KindOf(a)
    ensures SkipOperands(s, p, end, ks) == SkipOperands(s, p + |ArgBytes(a)|, end, ks[1..])
  {
    hide IsLeb, LebValue, Uleb, At;
    match a
    case Number(n) => UlebReads(s, p, end, n);
    case Bytes(len, body) =>
      AtParts(s, p, len, body);
      UlebReads(s, p, end, len);
  }

  lemma {:induction false} ArgsSkipped(s: seq<byte>, p: nat, end: nat, args: seq<Arg>)
    requires At(s, p, ArgsBytes(args)) && p + |ArgsBytes(args)| <= end && ArgsOk(args)
    ensures SkipOperands(s, p, end, Kinds(args)) == Some(p + |ArgsBytes(args)|)
    decreases |args|
  {
    hide SkipOperands, At, ArgOk, ArgBytes;
    if args == [] {
      NoneSkipped(s, p, end);
    } else {
      AtParts(s, p, ArgBytes(args[0]), ArgsBytes(args[1..]));
      ArgSkipped(s, p, end, args[0], Kinds(args));
      ArgsSkipped(s, p + |ArgBytes(args[0])|, end, args[1..]);
      assert Kinds(args)[1..] == Kinds(args[1..]);
    }
  }

  lemma NoneSkipped(s: seq<byte>, p: nat, end: nat)
    ensures SkipOperands(s, p, end, []) == Some(p)
  {
  }

  lemma KindsOfOne(a: Arg)
    ensures Kinds([a]) == [KindOf(a)]
  {
    assert [a][1..] == [];
  }

  lemma KindsOfTwo(a: Arg, b: Arg)
    ensures Kinds([a, b]) == [KindOf(a), KindOf(b)]
  {
    assert [a, b][1..] == [b];
    KindsOfOne(b);
  }

  /** The operands of every opcode but the advances. */
  lemma OperandsAre(i: CfaIns)
    requires Whole(i) && Width(i).None?
    ensures AdvanceWidth(Opcode(i)).None? && Operands(Opcode(i)) == Some(Kinds(Args(i)))
  {
    hide ArgOk, Kinds;
    var a := Args(i);
    if |a| == 1 { KindsOfOne(a[0]); } else if |a| == 2 { KindsOfTwo(a[0], a[1]); }
    KindsOfNone();
  }

  lemma KindsOfNone()
    ensures Kinds([]) == []
  {
  }

  lemma OtherSkipped(s: seq<byte>, p: nat, end: nat, i: CfaIns, be: bool)
    requires Whole(i) && Width(i).None? && At(s, p, Code(i, be)) && p + |Code(i, be)| <= end
    ensures AdvanceWidth(s[p]).None? && SkipCfaOp(s, p, end) == Some(p + |Code(i, be)|)
  {
    hide Opcode, Args, Operands, AdvanceWidth, ArgOk, Kinds, SkipOperands, ArgsBytes;
    AtParts(s, p, [Opcode(i)], Operand(i, be));
    AtByte(s, p, [Opcode(i)], 0);
    OperandsAre(i);
    ArgsSkipped(s, p + 1, end, Args(i));
  }

  lemma WidthBounds(i: CfaIns)
    requires Whole(i) && Width(i).Some? && !i.AdvanceLoc?
    ensures Distance(i) < Pow256(Width(i).value)
  {
    assert Pow256(1) == 0x100 && Pow256(2) == 0x1_0000;
    assert Pow256(3) == 0x100_0000 && Pow256(4) == 0x1_0000_0000;
    assert Pow256(5) == 0x100_0000_0000 && Pow256(6) == 0x1_0000_0000_0000;
    assert Pow256(7) == 0x100_0000_0000_0000 && Pow256(8) == 0x1_0000_0000_0000_0000;
  }

  lemma OneByte(d: byte, be: bool)
    ensures Encode(d, 1, be) == [d]
  {
    assert LeBytes(d, 1)[0] == d && BeBytes(d, 1)[0] == d;
  }

  lemma AdvanceReads(s: seq<byte>, p: nat, i: CfaIns, be: bool)
    requires Whole(i) && Width(i).Some? && At(s, p, Code(i, be))
    ensures |Code(i, be)| == 1 + Width(i).value
    ensures AdvanceWidth(s[p]) == Width(i) && Delta(s, p, Width(i).value, be) == Some(Distance(i))
  {
    hide Encode, Value, Pow256, At, ArgOk;
    AtParts(s, p, [Opcode(i)], Operand(i, be));
    AtByte(s, p, [Opcode(i)], 0);
    if !i.AdvanceLoc? {
      WidthBounds(i);
      if i.AdvanceLoc1? { OneByte(i.d, be); }
      FieldReads(s, p + 1, Distance(i), Width(i).value, be);
    }
  }

  lemma FieldReads(s: seq<byte>, p: nat, d: nat, w: nat, be: bool)
    requires d < Pow256(w) && At(s, p, Encode(d, w, be))
    ensures ReadUn(s, p, w, be) == Some(d)
  {
    RoundTrip(d, w, be);
  }

  lemma WalkOther(s: seq<byte>, p: nat, end: nat, i: CfaIns, loc: nat, caf: nat, be: bool)
    requires Whole(i) && Width(i).None? && At(s, p, Code(i, be)) && p + |Code(i, be)| <= end
    ensures Walk(s, p, end, loc, caf, be)
         == Then(Row(p, Plain(Code(i, be)), loc), Walk(s, p + |Code(i, be)|, end, loc, caf, be))
  {
    hide SkipCfaOp, Code, AdvanceWidth, Then;
    OtherSkipped(s, p, end, i, be);
  }

  /** A walk over an assembled program lists its instructions. */
  lemma {:induction false} ProgramWalks(s: seq<byte>, p: nat, end: nat, ins: seq<CfaIns>, loc: nat, caf: nat, be: bool)
    requires AllWhole(ins) && At(s, p, Program(ins, be)) && end == p + |Program(ins, be)|
    ensures Walk(s, p, end, loc, caf, be) == Some(Rows(ins, p, loc, caf, be))
    decreases |ins|
  {
    hide Whole, Code, Width, At, AdvanceWidth, Delta, SkipCfaOp, PlainOp, Opcode;
    if ins != [] {
      var i := ins[0];
      var c := Code(i, be);
      AtParts(s, p, c, Program(ins[1..], be));
      ProgramWalks(s, p + |c|, end, ins[1..], loc + Distance(i) * caf, caf, be);
      if Width(i).None? {
        WalkOther(s, p, end, i, loc, caf, be);
        assert loc + Distance(i) * caf == loc;
      } else {
        AdvanceReads(s, p, i, be);
        AtByte(s, p, c, 0);
        WalkStep(s, p, end, loc, loc + Distance(i) * caf, caf, be, Width(i).value, Distance(i));
      }
    }
  }

  // ---- Every program that walks is assembled ------------------------------------------------

  /** A number that is read is a LEB128 number. */
  lemma {:induction false} LebWas(s: seq<byte>, p: nat, end: nat, k: nat)
    requires k <= 10 && ReadUleb(s, p, end, k).Some?
    ensures var (v, n) := ReadUleb(s, p, end, k).value;
      && k < n <= 10 && p + n <= end && p + n <= |s| && IsTail(s[p + k..p + n]) && LebValue(s[p + k..p + n]) == v
    decreases 10 - k
  {
    hide IsTail;
    if s[p + k] >= 0x80 {
      LebWas(s, p, end, k + 1);
      var n := ReadUleb(s, p, end, k).value.1;
      assert s[p + k..p + n][1..] == s[p + k + 1..p + n];
      TailMore(s[p + k], s[p + k + 1..p + n]);
      assert s[p + k..p + n] == [s[p + k]] + s[p + k + 1..p + n];
    } else {
      assert s[p + k..p + k + 1] == [s[p + k]];
      TailOne(s[p + k]);
    }
  }

  lemma TailOne(x: byte)
    requires x < 128
    ensures IsTail([x]) && LebValue([x]) == x
  {
    assert [x][1..] == [];
  }

  /** The last digits of a number. */
  predicate IsTail(s: Leb) {
    0 < |s| && s[|s| - 1] < 128 && forall k: nat :: k < |s| - 1 ==> s[k] >= 128
  }

  lemma TailMore(x: byte, s: Leb)
    requires x >= 128 && IsTail(s)
    ensures IsTail([x] + s) && LebValue([x] + s) == x - 128 + 128 * LebValue(s)
  {
    assert ([x] + s)[1..] == s;
  }

  /** The numbers that are read are those of the standard. */
  lemma UlebWas(s: seq<byte>, p: nat, end: nat) returns (n: Leb)
    requires Uleb(s, p, end).Some?
    ensures IsLeb(n) && At(s, p, n) && Uleb(s, p, end) == Some((LebValue(n) % 0x1_0000_0000_0000_0000, |n|))
  {
    LebWas(s, p, end, 0);
    n := s[p..p + ReadUleb(s, p, end, 0).value.1];
  }

  lemma ArgWas(s: seq<byte>, p: nat, end: nat, ks: seq<CfaProgram.Operand>) returns (a: Arg)
    requires ks != [] && SkipOperands(s, p, end, ks).Some? && SkipOperands(s, p, end, ks).value <= |s|
    ensures ArgOk(a) && KindOf(a) == ks[0] && At(s, p, ArgBytes(a))
    ensures SkipOperands(s, p, end, ks) == SkipOperands(s, p + |ArgBytes(a)|, end, ks[1..])
  {
    hide IsLeb, LebValue, Uleb, At;
    var n := UlebWas(s, p, end);
    a := Number(n);
    if ks[0].Block? {
      var q := p + |n| + Uleb(s, p, end).value.0;
      a := Bytes(n, s[p + |n|..q]);
      SliceAt(s, p + |n|, q);
      AtBoth(s, p, n, s[p + |n|..q]);
    }
  }

  lemma {:induction false} ArgsWere(s: seq<byte>, p: nat, end: nat, ks: seq<CfaProgram.Operand>) returns (args: seq<Arg>)
    requires SkipOperands(s, p, end, ks).Some? && SkipOperands(s, p, end, ks).value <= |s|
    ensures ArgsOk(args) && Kinds(args) == ks && At(s, p, ArgsBytes(args))
    ensures SkipOperands(s, p, end, ks) == Some(p + |ArgsBytes(args)|)
    decreases |ks|
  {
    hide IsLeb, LebValue, Uleb, At, ArgBytes, ArgOk, KindOf;
    if ks == [] {
      args := [];
      NothingAt(s, p);
    } else {
      var a := ArgWas(s, p, end, ks);
      var rest := ArgsWere(s, p + |ArgBytes(a)|, end, ks[1..]);
      args := [a] + rest;
      assert args[1..] == rest;
      AtBoth(s, p, ArgBytes(a), ArgsBytes(rest));
      assert ArgsOk(args);
    }
  }

  lemma NothingAt(s: seq<byte>, p: nat)
    requires p <= |s|
    ensures At(s, p, [])
  {
  }

  lemma SliceAt(s: seq<byte>, p: nat, q: nat)
    requires p <= q <= |s|
    ensures At(s, p, s[p..q])
  {
  }

  function One(args: seq<Arg>): Leb { if |args| > 0 && args[0].Number? then args[0].n else [] }

  function Two(args: seq<Arg>): Leb { if |args| > 1 && args[1].Number? then args[1].n else [] }

  /** The instruction, other than an advance, with opcode `op` and operands `args`. */
  function OfOpcode(op: byte, args: seq<Arg>): CfaIns {
    if op >= 0xc0 then Restore(op - 0xc0)
    else if op >= 0x80 then Offset(op - 0x80, One(args))
    else if op == 0x00 then Nop
    else if op == 0x0a then RememberState
    else if op == 0x0b then RestoreState
    else if op == 0x2c then NegateRaStateWithPc
    else if op == 0x2d then NegateRaState
    else if op == 0x06 then RestoreExtended(One(args))
    else if op == 0x07 then Undefined(One(args))
    else if op == 0x08 then SameValue(One(args))
    else if op == 0x0d then DefCfaRegister(One(args))
    else if op == 0x0e then DefCfaOffset(One(args))
    else if op == 0x13 then DefCfaOffsetSf(One(args))
    else if op == 0x2e then GnuArgsSize(One(args))
    else if op == 0x05 then OffsetExtended(One(args), Two(args))
    else if op == 0x09 then Register(One(args), Two(args))
    else if op == 0x0c then DefCfa(One(args), Two(args))
    else if op == 0x11 then OffsetExtendedSf(One(args), Two(args))
    else if op == 0x12 then DefCfaSf(One(args), Two(args))
    else if op == 0x14 then ValOffset(One(args), Two(args))
    else if op == 0x15 then ValOffsetSf(One(args), Two(args))
    else if op == 0x2f then GnuNegativeOffset(One(args), Two(args))
    else if op == 0x0f && |args| > 0 && args[0].Bytes? then DefCfaExpression(args[0].len, args[0].body)
    else if op == 0x10 && |args| > 1 && args[1].Bytes? then Expression(One(args), args[1].len, args[1].body)
    else if |args| > 1 && args[1].Bytes? then ValExpression(One(args), args[1].len, args[1].body)
    else Nop
  }

  lemma ArgsOfKinds(args: seq<Arg>, ks: seq<CfaProgram.Operand>)
    requires Kinds(args) == ks && |ks| <= 2
    ensures |args| == |ks|
    ensures |ks| > 0 ==> args == [args[0]] + args[1..] && KindOf(args[0]) == ks[0]
    ensures |ks| == 2 ==> args == [args[0], args[1]] && KindOf(args[1]) == ks[1]
  {
    if |ks| == 2 { assert Kinds(args[1..]) == ks[1..]; }
  }

  lemma OfOpcodeIs(op: byte, args: seq<Arg>)
    requires ArgsOk(args) && Operands(op) == Some(Kinds(args)) && AdvanceWidth(op).None?
    ensures var i := OfOpcode(op, args); Whole(i) && Width(i).None? && Opcode(i) == op && Args(i) == args
  {
    hide ArgOk, Kinds;
    ArgsOfKinds(args, Operands(op).value);
  }

  lemma OtherWas(s: seq<byte>, p: nat, end: nat, be: bool) returns (i: CfaIns)
    requires p < end <= |s| && AdvanceWidth(s[p]).None? && SkipCfaOp(s, p, end).Some?
    ensures Whole(i) && Width(i).None? && At(s, p, Code(i, be)) && SkipCfaOp(s, p, end) == Some(p + |Code(i, be)|)
  {
    hide Operands, AdvanceWidth, SkipOperands, ArgsBytes, OfOpcode, Args, Opcode, ArgOk, Kinds, Whole;
    var args := ArgsWere(s, p + 1, end, Operands(s[p]).value);
    OfOpcodeIs(s[p], args);
    i := OfOpcode(s[p], args);
    assert s[p..p + 1] == [s[p]];
    AtBoth(s, p, [s[p]], ArgsBytes(args));
  }

  lemma AdvanceWas(s: seq<byte>, p: nat, be: bool) returns (i: CfaIns)
    requires p < |s| && AdvanceWidth(s[p]).Some? && p + 1 + AdvanceWidth(s[p]).value <= |s|
    ensures Whole(i) && Width(i) == AdvanceWidth(s[p]) && At(s, p, Code(i, be))
  {
    hide Encode, Value;
    var w := AdvanceWidth(s[p]).value;
    assert s[p..p + 1] == [s[p]];
    if w == 0 {
      i := AdvanceLoc(s[p] - 0x40);
      assert Code(i, be) == [s[p]];
    } else {
      var f := s[p + 1..p + 1 + w];
      var d := Value(f, be);
      ValueBound(f, be);
      EncodeBack(f, be);
      i := if w == 1 then AdvanceLoc1(f[0]) else if w == 2 then AdvanceLoc2(d) else if w == 4 then AdvanceLoc4(d) else MipsAdvanceLoc8(d);
      Bounds(w, d);
      if w == 1 { assert f == [f[0]]; }
      AtBoth(s, p, [s[p]], f);
    }
  }

  lemma Bounds(w: nat, d: nat)
    requires d < Pow256(w)
    ensures (w == 2 ==> d < 0x1_0000) && (w == 4 ==> d < 0x1_0000_0000) && (w == 8 ==> d < 0x1_0000_0000_0000_0000)
  {
    assert Pow256(1) == 0x100 && Pow256(2) == 0x1_0000;
    assert Pow256(3) == 0x100_0000 && Pow256(4) == 0x1_0000_0000;
    assert Pow256(5) == 0x100_0000_0000 && Pow256(6) == 0x1_0000_0000_0000;
    assert Pow256(7) == 0x100_0000_0000_0000 && Pow256(8) == 0x1_0000_0000_0000_0000;
  }

  /** The instruction with which a program that walks begins. */
  lemma FirstWas(s: seq<byte>, p: nat, end: nat, loc: nat, caf: nat, be: bool) returns (i: CfaIns)
    requires p < end <= |s| && Walk(s, p, end, loc, caf, be).Some?
    ensures Whole(i) && At(s, p, Code(i, be)) && p + |Code(i, be)| <= end
    ensures Walk(s, p + |Code(i, be)|, end, loc + Distance(i) * caf, caf, be).Some?
  {
    hide Whole, Code, At, AdvanceWidth, Delta, SkipCfaOp, PlainOp, Opcode;
    if AdvanceWidth(s[p]).None? {
      i := OtherWas(s, p, end, be);
    } else {
      i := AdvanceWas(s, p, be);
      AdvanceReads(s, p, i, be);
    }
  }

  lemma {:induction false} WalkWas(s: seq<byte>, p: nat, end: nat, loc: nat, caf: nat, be: bool) returns (ins: seq<CfaIns>)
    requires p <= end <= |s| && Walk(s, p, end, loc, caf, be).Some?
    ensures AllWhole(ins) && At(s, p, Program(ins, be)) && end == p + |Program(ins, be)|
    decreases end - p
  {
    hide Whole, Code, Walk, At, Width;
    if p == end {
      ins := [];
      NothingAt(s, p);
    } else {
      var i := FirstWas(s, p, end, loc, caf, be);
      var rest := WalkWas(s, p + |Code(i, be)|, end, loc + Distance(i) * caf, caf, be);
      ins := [i] + rest;
      assert ins[1..] == rest;
      AtBoth(s, p, Code(i, be), Program(rest, be));
    }
  }

  /** A program in `[p, end)` has exactly the rows of the instructions it is assembled
      from, and none when it is not assembled from instructions. */
  lemma WalkExact(s: seq<byte>, p: nat, end: nat, loc: nat, caf: nat, be: bool, rows: seq<Row>)
    requires p <= end <= |s|
    ensures Walk(s, p, end, loc, caf, be) == Some(rows)
       <==> exists ins: seq<CfaIns> :: AllWhole(ins) && s[p..end] == Program(ins, be) && Rows(ins, p, loc, caf, be) == rows
  {
    hide Walk, Rows, Program;
    if Walk(s, p, end, loc, caf, be) == Some(rows) {
      var ins := WalkWas(s, p, end, loc, caf, be);
      ProgramWalks(s, p, end, ins, loc, caf, be);
      assert s[p..end] == Program(ins, be);
    }
    forall ins: seq<CfaIns> | AllWhole(ins) && s[p..end] == Program(ins, be)
      ensures Walk(s, p, end, loc, caf, be) == Some(Rows(ins, p, loc, caf, be))
    {
      ProgramWalks(s, p, end, ins, loc, caf, be);
    }
  }
}
