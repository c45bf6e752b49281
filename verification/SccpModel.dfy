/**
 The program the solver analyses, its concrete runs, and the solutions it may
 compute (src/analysis/sccp.rs, src/analysis/regstate.rs:12-45).

 A concrete run keeps 17 64-bit values: the tracked registers and, in slot 16,
 the difference (or AND) left by the last compare.  The width of a compare is
 not known to the analysis, so a branch may see the zero flag of any of the
 widths 8, 16, 32 and 64.
 */
module SccpModel {
  import opened Wrappers
  import opened Lattice

  const REG_COUNT: nat := 17
  const FLAGS_REG: Reg := 16

  type Reg = r: nat | r < 17

  datatype Effect =
    | MovConst(d: Reg, c: Word)
    | MovReg(d: Reg, s: Reg)
    | BinOpReg(d: Reg, op: BinOp, a: Reg, b: Reg)
    | BinOpImm(d: Reg, op: BinOp, a: Reg, imm: Word)
    | CmpReg(a: Reg, b: Reg)
    | CmpImm(a: Reg, imm: Word)
    | TestReg(a: Reg, b: Reg)
    | TestImm(a: Reg, imm: Word)
    | Clobber(d: Reg)
    | Nop

  datatype TestSrc = Flags | RegBits(r: nat, mask: Word)
  datatype BranchTest = BranchTest(src: TestSrc, cc: CondCode)
  datatype CondTerm = CondTerm(test: BranchTest, taken: nat, fallthrough: nat)

  datatype Prog = Prog(n: nat, entry: nat, succs: seq<seq<nat>>, effects: seq<seq<Effect>>, terms: seq<Option<CondTerm>>)

  /** Sizes agree, and a foldable terminator names two listed successors
      (what `cond_term` checks before it returns one). */
  predicate ProgOk(p: Prog)
  {
    && p.entry < p.n && |p.succs| == p.n && |p.effects| == p.n && |p.terms| == p.n
    && (forall b: nat :: b < p.n && p.terms[b].Some? ==>
          p.terms[b].value.taken in p.succs[b] && p.terms[b].value.fallthrough in p.succs[b])
  }

  // ---- Concrete runs -----------------------------------------------------------

  type Concrete = s: seq<Word> | |s| == 17 witness seq(17, i => 0)
  type Abstract = s: seq<Value> | |s| == 17 witness seq(17, i => Bot)

  /** The register an effect writes, if any. */
  function Dest(e: Effect): Option<Reg> {
    match e
    case MovConst(d, _) => Some(d)
    case MovReg(d, _) => Some(d)
    case BinOpReg(d, _, _, _) => Some(d)
    case BinOpImm(d, _, _, _) => Some(d)
    case Clobber(d) => Some(d)
    case Nop => None
    case _ => Some(FLAGS_REG)
  }

  /** The value it writes; `arbitrary` is what a clobber leaves. */
  function Written(e: Effect, r: Concrete, arbitrary: Word): Word {
    match e
    case MovConst(_, c) => c
    case MovReg(_, s) => r[s]
    case BinOpReg(_, op, a, b) => ComputeBinop(op, r[a], r[b])
    case BinOpImm(_, op, a, imm) => ComputeBinop(op, r[a], imm)
    case CmpReg(a, b) => SubWord(r[a], r[b])
    case CmpImm(a, imm) => SubWord(r[a], imm)
    case TestReg(a, b) => AndWord(r[a], r[b])
    case TestImm(a, imm) => AndWord(r[a], imm)
    case _ => arbitrary
  }

  function Concretely(e: Effect, r: Concrete, arbitrary: Word): Concrete {
    match Dest(e)
    case None => r
    case Some(d) => r[d := Written(e, r, arbitrary)]
  }

  /** `effs` can turn the register file `r` into `r'`. */
  ghost predicate EffectsRun(effs: seq<Effect>, r: Concrete, r': Concrete) {
    if effs == [] then r' == r
    else exists x: Word :: EffectsRun(effs[1..], Concretely(effs[0], r, x), r')
  }

  // Running effect lists one after the other.

  lemma RunNil(r: Concrete)
    ensures EffectsRun([], r, r)
  {
  }

  lemma RunCons(e: Effect, rest: seq<Effect>, r: Concrete, x: Word, r': Concrete)
    requires EffectsRun(rest, Concretely(e, r, x), r')
    ensures EffectsRun([e] + rest, r, r')
  {
    var all := [e] + rest;
    assert all[1..] == rest && all[0] == e;
    assert EffectsRun(all[1..], Concretely(all[0], r, x), r');
  }

  lemma {:induction false} RunConcat(a: seq<Effect>, b: seq<Effect>, r: Concrete, m: Concrete, r': Concrete)
    requires EffectsRun(a, r, m) && EffectsRun(b, m, r')
    ensures EffectsRun(a + b, r, r')
  {
    if a == [] { assert a + b == b; } else {
      var x: Word :| EffectsRun(a[1..], Concretely(a[0], r, x), m);
      RunConcat(a[1..], b, Concretely(a[0], r, x), m, r');
      RunCons(a[0], a[1..] + b, r, x, r');
      assert a + b == [a[0]] + (a[1..] + b);
    }
  }

  /** The bits a compare of 8, 16, 32 or 64 bits looks at. */
  predicate WidthMask(m: Word) { m == 0xFF || m == 0xFFFF || m == 0xFFFF_FFFF || m == 0xFFFF_FFFF_FFFF_FFFF }

  /** No bit of `x` selected by `m` is set. */
  predicate ZeroBits(x: Word, m: Word) { x & m == 0 }

  /** The tested value may be found zero (`z`) or not by the processor. */
  ghost predicate MayTest(src: TestSrc, r: Concrete, z: bool) {
    match src
    case Flags => exists m: Word :: WidthMask(m) && z == ZeroBits(r[16], m)
    case RegBits(reg, mask) => reg < 17 ==> z == ZeroBits(r[reg], mask)
  }

  /** Whether the condition, given the zero test, may be taken or not. */
  predicate MayTake(cc: CondCode, z: bool, taken: bool) {
    match cc
    case Eq => taken == z
    case Ne => taken == !z
    case _ => true
  }

  ghost predicate MayGo(p: Prog, b: nat, r: Concrete, next: nat)
    requires ProgOk(p) && b < p.n
  {
    match p.terms[b]
    case None => next in p.succs[b]
    case Some(t) => exists z: bool, taken: bool ::
      MayTest(t.test.src, r, z) && MayTake(t.test.cc, z, taken) && next == if taken then t.taken else t.fallthrough
  }

  datatype Config = Config(block: nat, regs: Concrete)

  ghost predicate Step(p: Prog, x: Config, y: Config)
    requires ProgOk(p)
  {
    && x.block < p.n && y.block < p.n
    && EffectsRun(p.effects[x.block], x.regs, y.regs)
    && MayGo(p, x.block, y.regs, y.block)
  }

  /** A run starts at the entry with arbitrary registers. */
  ghost predicate IsRun(p: Prog, run: seq<Config>)
    requires ProgOk(p)
  {
    && |run| > 0 && run[0].block == p.entry
    && forall i :: 0 < i < |run| ==> Step(p, run[i - 1], run[i])
  }

  // ---- Transfer of abstract values (sccp.rs:258-366) ------------------------------

  function Result(e: Effect, v: Abstract): Value {
    match e
    case MovConst(_, c) => Const(c)
    case MovReg(_, s) => v[s]
    case BinOpReg(_, op, a, b) => EvalBinop(op, v[a], v[b])
    case BinOpImm(_, op, a, imm) => EvalBinop(op, v[a], Const(imm))
    case CmpReg(a, b) => Difference(v[a], v[b])
    case CmpImm(a, imm) => Difference(v[a], Const(imm))
    case TestReg(a, b) => CommonBits(v[a], v[b])
    case TestImm(a, imm) => CommonBits(v[a], Const(imm))
    case _ => Top
  }

  function Apply(e: Effect, v: Abstract): Abstract {
    match Dest(e)
    case None => v
    case Some(d) => v[d := Result(e, v)]
  }

  function ApplyAll(effs: seq<Effect>, v: Abstract): Abstract {
    if effs == [] then v else ApplyAll(effs[1..], Apply(effs[0], v))
  }

  lemma {:induction false} ApplyAllSplit(effs: seq<Effect>, i: nat, v: Abstract)
    requires i < |effs|
    ensures ApplyAll(effs[..i + 1], v) == Apply(effs[i], ApplyAll(effs[..i], v))
    decreases i
  {
    if i > 0 {
      assert effs[1..][..i] == effs[..i + 1][1..] && effs[1..][..i - 1] == effs[..i][1..];
      ApplyAllSplit(effs[1..], i - 1, Apply(effs[0], v));
    }
  }

  /** Zero flag of a compare of unknown width (sccp.rs:436-442). */
  function FlagsZero(flags: Value): Option<bool> {
    if flags == Const(0) then Some(true)
    else if flags.Const? && flags.v & 0xFF != 0 then Some(false)
    else None
  }

  function TestedZero(src: TestSrc, v: Abstract): Option<bool> {
    match src
    case Flags => FlagsZero(v[16])
    case RegBits(r, mask) =>
      if r < 17 && v[r].Const? then Some(ZeroBits(v[r].v, mask)) else None
  }

  /** The outcome of a branch when it is forced (sccp.rs:405-420). */
  function ResolveBranch(cc: CondCode, zero: Option<bool>): Option<bool> {
    if zero.None? then None
    else match cc
      case Eq => Some(zero.value)
      case Ne => Some(!zero.value)
      case _ => None
  }

  /** The one successor a resolved branch leaves, if it is resolved. */
  function Only(p: Prog, b: nat, v: Abstract): Option<nat>
    requires ProgOk(p) && b < p.n
  {
    match p.terms[b]
    case None => None
    case Some(t) =>
      match ResolveBranch(t.test.cc, TestedZero(t.test.src, v))
      case Some(true) => Some(t.taken)
      case Some(false) => Some(t.fallthrough)
      case None => None
  }

  function Targets(p: Prog, b: nat, v: Abstract): seq<nat>
    requires ProgOk(p) && b < p.n
  {
    match Only(p, b, v)
    case Some(s) => [s]
    case None => p.succs[b]
  }

  /** `flags_zero` answers exactly when every width gives the same zero flag. */
  lemma FlagsZeroExact(v: Word, z: bool)
    ensures FlagsZero(Const(v)) == Some(z) <==> forall m: Word :: WidthMask(m) ==> ZeroBits(v, m) == z
  {
    if forall m: Word :: WidthMask(m) ==> ZeroBits(v, m) == z {
      assert WidthMask(0xFF) && WidthMask(0xFFFF_FFFF_FFFF_FFFF);
      AllBits(v);
    } else if FlagsZero(Const(v)) == Some(z) {
      forall m: Word | WidthMask(m) ensures ZeroBits(v, m) == z { LowByte(v, m); }
    }
  }

  lemma AllBits(v: Word) ensures v & 0xFFFF_FFFF_FFFF_FFFF == v {}

  lemma LowByte(v: Word, m: Word)
    requires WidthMask(m)
    ensures ZeroBits(v, m) ==> v & 0xFF == 0
    ensures v == 0 ==> ZeroBits(v, m)
  {}

  // ---- Soundness of the transfer ----------------------------------------------------

  predicate Models(v: Abstract, r: Concrete) { forall i: Reg :: Stands(v[i], r[i]) }

  lemma ResultSound(e: Effect, v: Abstract, r: Concrete, x: Word)
    requires Models(v, r) && Dest(e).Some?
    ensures Stands(Result(e, v), Written(e, r, x))
  {
    match e
    case BinOpReg(_, op, a, b) => BinopStands(op, v, r, a, b);
    case BinOpImm(_, op, a, imm) => BinopStandsImm(op, v, r, a, imm);
    case CmpReg(a, b) => FlagsStand(v, r, a, v[b], r[b]);
    case CmpImm(a, imm) => FlagsStand(v, r, a, Const(imm), imm);
    case TestReg(a, b) => FlagsStand(v, r, a, v[b], r[b]);
    case TestImm(a, imm) => FlagsStand(v, r, a, Const(imm), imm);
    case MovReg(_, s) => assert Stands(v[s], r[s]);
    case _ =>
  }

  lemma BinopStands(op: BinOp, v: Abstract, r: Concrete, a: Reg, b: Reg)
    requires Models(v, r)
    ensures Stands(EvalBinop(op, v[a], v[b]), ComputeBinop(op, r[a], r[b]))
  {
    assert Stands(v[a], r[a]) && Stands(v[b], r[b]);
    BinopSound(op, v[a], v[b], r[a], r[b]);
  }

  lemma FlagsStand(v: Abstract, r: Concrete, a: Reg, w: Value, y: Word)
    requires Models(v, r) && (Stands(w, y) || exists b: Reg :: w == v[b] && y == r[b])
    ensures Stands(Difference(v[a], w), SubWord(r[a], y)) && Stands(CommonBits(v[a], w), AndWord(r[a], y))
  {
    assert Stands(v[a], r[a]);
    FlagsSound(v[a], w, r[a], y);
  }

  lemma BinopStandsImm(op: BinOp, v: Abstract, r: Concrete, a: Reg, imm: Word)
    requires Models(v, r)
    ensures Stands(EvalBinop(op, v[a], Const(imm)), ComputeBinop(op, r[a], imm))
  {
    assert Stands(v[a], r[a]);
    BinopSound(op, v[a], Const(imm), r[a], imm);
  }

  lemma ApplySound(e: Effect, v: Abstract, r: Concrete, x: Word)
    requires Models(v, r)
    ensures Models(Apply(e, v), Concretely(e, r, x))
  {
    if Dest(e).Some? { ResultSound(e, v, r, x); }
  }

  lemma {:induction false} ApplyAllSound(effs: seq<Effect>, v: Abstract, r: Concrete, r': Concrete)
    requires Models(v, r) && EffectsRun(effs, r, r')
    ensures Models(ApplyAll(effs, v), r')
    decreases |effs|
  {
    if effs != [] {
      var x: Word :| EffectsRun(effs[1..], Concretely(effs[0], r, x), r');
      ApplySound(effs[0], v, r, x);
      ApplyAllSound(effs[1..], Apply(effs[0], v), Concretely(effs[0], r, x), r');
    }
  }

  // ---- What a known zero flag says of the registers (sccp.rs:315-366) ---------------

  /** `x` and `y` are equal in the bits selected by `m`. */
  predicate EqualBits(x: Word, y: Word, m: Word) { x & m == y & m }

  // Folding the names apart from the bit-vector facts keeps both cheap.

  lemma ZeroBitsIs(x: Word, m: Word) ensures ZeroBits(x, m) == (x & m == 0) {}

  lemma EqualBitsIs(x: Word, y: Word, m: Word) ensures EqualBits(x, y, m) == (x & m == y & m) {}

  lemma ByteDifference(x: Word, y: Word, m: Word) requires m == 0xFF ensures ((x - y) & m == 0) == (x & m == y & m) {}

  lemma HalfDifference(x: Word, y: Word, m: Word) requires m == 0xFFFF ensures ((x - y) & m == 0) == (x & m == y & m) {}

  lemma WordDifference(x: Word, y: Word, m: Word) requires m == 0xFFFF_FFFF ensures ((x - y) & m == 0) == (x & m == y & m) {}

  lemma LongDifference(x: Word, y: Word, m: Word)
    requires m == 0xFFFF_FFFF_FFFF_FFFF
    ensures ((x - y) & m == 0) == (x & m == y & m)
  {
  }

  lemma WidthDifference(x: Word, y: Word, m: Word)
    requires WidthMask(m)
    ensures ((x - y) & m == 0) == (x & m == y & m)
  {
    if m == 0xFF { ByteDifference(x, y, m); }
    else if m == 0xFFFF { HalfDifference(x, y, m); }
    else if m == 0xFFFF_FFFF { WordDifference(x, y, m); }
    else { LongDifference(x, y, m); }
  }

  lemma DifferenceBits(x: Word, y: Word, m: Word)
    requires WidthMask(m)
    ensures ZeroBits(SubWord(x, y), m) == EqualBits(x, y, m)
  {
    hide *;
    SubWordIs(x, y);
    ZeroBitsIs(x - y, m);
    WidthDifference(x, y, m);
    EqualBitsIs(x, y, m);
  }

  /** The zero flag after a compare is known exactly when both operands are, and
      then it tells whether the registers are equal, whatever the width was. */
  lemma CmpRegExact(a: Reg, b: Reg, v: Abstract, r: Concrete, z: bool)
    requires Models(v, r)
    ensures FlagsZero(Apply(CmpReg(a, b), v)[FLAGS_REG]) == Some(z)
       <==> v[a].Const? && v[b].Const? && forall m: Word :: WidthMask(m) ==> EqualBits(r[a], r[b], m) == z
  {
    assert Stands(v[a], r[a]) && Stands(v[b], r[b]);
    CmpExact(r[a], r[b], z);
  }

  lemma CmpImmExact(a: Reg, imm: Word, v: Abstract, r: Concrete, z: bool)
    requires Models(v, r)
    ensures FlagsZero(Apply(CmpImm(a, imm), v)[FLAGS_REG]) == Some(z)
       <==> v[a].Const? && forall m: Word :: WidthMask(m) ==> EqualBits(r[a], imm, m) == z
  {
    assert Stands(v[a], r[a]);
    CmpExact(r[a], imm, z);
  }

  lemma CmpExact(x: Word, y: Word, z: bool)
    ensures FlagsZero(Const(SubWord(x, y))) == Some(z) <==> forall m: Word :: WidthMask(m) ==> EqualBits(x, y, m) == z
  {
    hide SubWord, ZeroBits, EqualBits, FlagsZero;
    FlagsZeroExact(SubWord(x, y), z);
    forall m: Word | WidthMask(m) ensures ZeroBits(SubWord(x, y), m) == EqualBits(x, y, m) { DifferenceBits(x, y, m); }
  }

  /** After a test it is known under the same condition, and tells whether the
      registers share a bit. */
  lemma TestRegExact(a: Reg, b: Reg, v: Abstract, r: Concrete, z: bool)
    requires Models(v, r)
    ensures FlagsZero(Apply(TestReg(a, b), v)[FLAGS_REG]) == Some(z)
       <==> v[a].Const? && v[b].Const? && forall m: Word :: WidthMask(m) ==> ZeroBits(AndWord(r[a], r[b]), m) == z
  {
    assert Stands(v[a], r[a]) && Stands(v[b], r[b]);
    FlagsZeroExact(AndWord(r[a], r[b]), z);
  }

  lemma TestImmExact(a: Reg, imm: Word, v: Abstract, r: Concrete, z: bool)
    requires Models(v, r)
    ensures FlagsZero(Apply(TestImm(a, imm), v)[FLAGS_REG]) == Some(z)
       <==> v[a].Const? && forall m: Word :: WidthMask(m) ==> ZeroBits(AndWord(r[a], imm), m) == z
  {
    assert Stands(v[a], r[a]);
    FlagsZeroExact(AndWord(r[a], imm), z);
  }

  /** The analysis never drops a successor the processor may go to. */
  lemma TargetsSound(p: Prog, b: nat, v: Abstract, r: Concrete, next: nat)
    requires ProgOk(p) && b < p.n && Models(v, r) && MayGo(p, b, r, next)
    ensures next in Targets(p, b, v)
  {
    if Only(p, b, v).Some? {
      var t := p.terms[b].value;
      var z: bool, taken: bool :| MayTest(t.test.src, r, z) && MayTake(t.test.cc, z, taken)
        && next == if taken then t.taken else t.fallthrough;
      TestSound(t.test.src, v, r, z);
    }
  }

  lemma TestSound(src: TestSrc, v: Abstract, r: Concrete, z: bool)
    requires Models(v, r) && MayTest(src, r, z) && TestedZero(src, v).Some?
    ensures TestedZero(src, v) == Some(z)
  {
    match src
    case Flags =>
      assert Stands(v[16], r[16]);
      FlagsZeroExact(v[16].v, TestedZero(src, v).value);
    case RegBits(reg, mask) =>
      assert Stands(v[reg], r[reg]);
  }

  // ---- Precision of the transfer ----------------------------------------------------

  /** The register is clobbered somewhere in the list. */
  predicate Clobbered(effs: seq<Effect>, g: Reg) { Clobber(g) in effs }

  /** The registers an effect reads. */
  function Reads(e: Effect): seq<Reg> {
    match e
    case MovReg(_, s) => [s]
    case BinOpReg(_, _, a, b) => [a, b]
    case BinOpImm(_, _, a, _) => [a]
    case CmpReg(a, b) => [a, b]
    case CmpImm(a, _) => [a]
    case TestReg(a, b) => [a, b]
    case TestImm(a, _) => [a]
    case _ => []
  }

  /** A register that `all` does not clobber is not computed from one that it does. */
  predicate Clean(e: Effect, all: seq<Effect>) {
    match Dest(e)
    case None => true
    case Some(d) => Clobbered(all, d) || (!e.Clobber? && forall i: nat :: i < |Reads(e)| ==> !Clobbered(all, Reads(e)[i]))
  }

  predicate AllClean(effs: seq<Effect>, all: seq<Effect>) { forall i: nat :: i < |effs| ==> Clean(effs[i], all) }

  /** From known operands an effect computes a known result, and it is the concrete one. */
  lemma ResultKnown(e: Effect, v: Abstract, r: Concrete, x: Word)
    requires Models(v, r) && Dest(e).Some? && !e.Clobber?
    requires forall i: nat :: i < |Reads(e)| ==> v[Reads(e)[i]].Const?
    ensures Result(e, v) == Const(Written(e, r, x))
  {
    hide ComputeBinop, SubWord, AndWord;
    if |Reads(e)| > 0 { assert v[Reads(e)[0]].Const? && Stands(v[Reads(e)[0]], r[Reads(e)[0]]); }
    if |Reads(e)| > 1 { assert v[Reads(e)[1]].Const? && Stands(v[Reads(e)[1]], r[Reads(e)[1]]); }
  }

  /** Every register not clobbered by `all` is known. */
  predicate KnownOff(v: Abstract, all: seq<Effect>) { forall g: Reg :: !Clobbered(all, g) ==> v[g].Const? }

  lemma ApplyKnown(e: Effect, v: Abstract, r: Concrete, x: Word, all: seq<Effect>)
    requires Models(v, r) && Clean(e, all) && KnownOff(v, all)
    ensures KnownOff(Apply(e, v), all)
  {
    hide Clobbered, Result, Written;
    if Dest(e).Some? && !Clobbered(all, Dest(e).value) { ResultKnown(e, v, r, x); }
  }

  /** A block whose inputs are known leaves known everything it does not clobber, with
      the values of the run. */
  lemma {:induction false} ApplyAllKnown(effs: seq<Effect>, v: Abstract, r: Concrete, r': Concrete, all: seq<Effect>)
    requires Models(v, r) && EffectsRun(effs, r, r') && AllClean(effs, all) && KnownOff(v, all)
    ensures forall g: Reg :: !Clobbered(all, g) ==> ApplyAll(effs, v)[g] == Const(r'[g])
    decreases |effs|
  {
    hide Clobbered, Clean, Apply, Concretely, KnownOff;
    if effs == [] {
      KnownValues(v, r, all);
    } else {
      var x: Word :| EffectsRun(effs[1..], Concretely(effs[0], r, x), r');
      ApplySound(effs[0], v, r, x);
      ApplyKnown(effs[0], v, r, x, all);
      assert forall i: nat :: i < |effs[1..]| ==> effs[1..][i] == effs[i + 1];
      ApplyAllKnown(effs[1..], Apply(effs[0], v), Concretely(effs[0], r, x), r', all);
    }
  }

  lemma KnownValues(v: Abstract, r: Concrete, all: seq<Effect>)
    requires Models(v, r) && KnownOff(v, all)
    ensures forall g: Reg :: !Clobbered(all, g) ==> v[g] == Const(r[g])
  {
    hide Clobbered;
    forall g: Reg | !Clobbered(all, g) ensures v[g] == Const(r[g]) { assert Stands(v[g], r[g]); }
  }

  // ---- Precision of the branches -----------------------------------------------------

  /** The terminator's two targets are the block's successors, and it tests something. */
  predicate TwoTargets(p: Prog, b: nat)
    requires ProgOk(p) && b < p.n
  {
    p.terms[b].Some? ==>
      var t := p.terms[b].value;
      && (forall s :: s in p.succs[b] ==> s == t.taken || s == t.fallthrough)
      && (t.test.src.RegBits? ==> t.test.src.r < 17 && t.test.src.mask != 0)
  }

  /** When the analysis cannot tell, the processor may find either. */
  lemma EitherTest(src: TestSrc, v: Abstract, r0: Concrete, z: bool) returns (r: Concrete)
    requires Models(v, r0) && TestedZero(src, v).None? && (src.RegBits? ==> src.r < 17 && src.mask != 0)
    ensures Models(v, r) && MayTest(src, r, z)
  {
    r := r0;
    match src
    case Flags =>
      assert Stands(v[16], r0[16]);
      if v[16].Const? { EitherWidth(v[16].v, z); } else {
        r := r0[16 := if z then 0 else 0xFF];
        ByteTest(z);
      }
    case RegBits(reg, mask) =>
      assert Stands(v[reg], r0[reg]);
      r := r0[reg := if z then 0 else mask];
      OwnBits(mask);
  }

  lemma OwnBits(m: Word) ensures m & m == m && 0 & m == 0 {}

  lemma ByteTest(z: bool)
    ensures WidthMask(0xFF) && z == ZeroBits(if z then 0 else 0xFF, 0xFF)
  {
  }

  /** A difference whose zero flag is not known has widths that say zero and widths that do not. */
  lemma EitherWidth(x: Word, z: bool)
    requires FlagsZero(Const(x)).None?
    ensures exists m: Word :: WidthMask(m) && z == ZeroBits(x, m)
  {
    hide ZeroBits, FlagsZero;
    FlagsZeroExact(x, !z);
  }

  lemma KnownTest(src: TestSrc, v: Abstract, r: Concrete)
    requires Models(v, r) && TestedZero(src, v).Some?
    ensures MayTest(src, r, TestedZero(src, v).value)
  {
    match src
    case Flags =>
      assert Stands(v[16], r[16]);
      FlagsZeroExact(v[16].v, TestedZero(src, v).value);
      assert WidthMask(0xFF);
    case RegBits(reg, mask) =>
      assert Stands(v[reg], r[reg]);
  }

  /**
   Nothing is propagated that no run can take: whatever the values known of a block
   describe, each successor kept is one the processor may go to from some register
   file they describe.
   */
  lemma TargetsPrecise(p: Prog, b: nat, v: Abstract, r0: Concrete, next: nat) returns (r: Concrete)
    requires ProgOk(p) && b < p.n && Models(v, r0) && TwoTargets(p, b) && next in Targets(p, b, v)
    ensures Models(v, r) && MayGo(p, b, r, next)
  {
    hide Models, MayTest, TestedZero;
    r := r0;
    if p.terms[b].Some? {
      var t := p.terms[b].value;
      var zero := TestedZero(t.test.src, v);
      var taken := next == t.taken;
      var z := if t.test.cc == Ne then !taken else taken;
      if zero.Some? {
        KnownTest(t.test.src, v, r0);
        if Only(p, b, v).None? { z := zero.value; }
        else { z := zero.value; taken := if t.test.cc == Ne then !z else z; }
      } else {
        r := EitherTest(t.test.src, v, r0, z);
      }
      assert MayTest(t.test.src, r, z) && MayTake(t.test.cc, z, taken);
    }
  }

  /** Together with `TargetsSound`: the successors kept are exactly the possible ones. */
  lemma TargetsExact(p: Prog, b: nat, v: Abstract, r0: Concrete, next: nat)
    requires ProgOk(p) && b < p.n && Models(v, r0) && TwoTargets(p, b)
    ensures next in Targets(p, b, v) <==> exists r: Concrete :: Models(v, r) && MayGo(p, b, r, next)
  {
    hide Models, MayGo, Targets, TwoTargets;
    if next in Targets(p, b, v) { var r := TargetsPrecise(p, b, v, r0, next); }
    if r: Concrete :| Models(v, r) && MayGo(p, b, r, next) { TargetsSound(p, b, v, r, next); }
  }
}
