/**
 Dead regions of AArch64 functions, for the processor itself (src/analysis/
 sccp.rs:32-65, 163-189, src/analysis/regstate.rs:599-626, 696-742): a run of the
 processor is followed by a run of the extracted effects, so no run of the
 processor executes an address that is reported.

 Words of the five modelled classes execute as the Arm ARM says.  Of any other word
 it is only assumed that it changes no tracked register, nor the Z flag, that its
 clobber list leaves out; a call may leave anything in all of them.
 */
module A64Run {
  import opened Wrappers
  import opened Lattice
  import opened SccpModel
  import opened A64Effects
  import opened FuncCfg
  import Sccp

  /** An instruction word, and what it may change if it is of no modelled class. */
  datatype Line = Line(word: nat, written: seq<Reg>)

  predicate IsModelled(l: Line) { ClassOf(l.word) != OtherClass }

  function OwnEffects(l: Line): seq<Effect> {
    if IsModelled(l) then EffectsOf(l.word) else OrNop(Clobbers(l.written))
  }

  /** X0 to X15 and the flags. */
  const CALLER_SAVED: seq<Reg> := [0, 1, 2, 3, 4, 5, 6, 7, 8, 9, 10, 11, 12, 13, 14, 15, FLAGS_REG]

  /** The function's instructions carry the effects and tests of these words. */
  predicate Extracted(f: Func, ls: seq<Line>) {
    && |ls| == |f.instrs| && f.callerSaved == CALLER_SAVED
    && forall i: nat :: i < |ls| ==> FromLine(f.instrs[i], ls[i])
  }

  predicate FromLine(ins: Ins, l: Line) {
    ins.own == OwnEffects(l) && (ins.flow == CondJump ==> ins.test == BranchTestOf(l.word))
  }

  // ---- Runs of the processor -----------------------------------------------------------

  datatype CpuAt = CpuAt(at: nat, cpu: Cpu)

  /** No tracked register outside `rs` changes, nor Z if the flags are outside. */
  predicate ChangesOnly(c: Cpu, c': Cpu, rs: seq<Reg>) {
    && (forall g: nat :: g < 16 && g !in rs ==> c'.x[g] == c.x[g])
    && (FLAGS_REG !in rs ==> c'.z == c.z)
  }

  predicate Calls(ins: Ins) { ins.isCall || ins.flow == IndirectCall }

  /** A call may leave anything behind. */
  ghost predicate CpuExecutes(ins: Ins, l: Line, c: Cpu, c': Cpu) {
    if Calls(ins) then true
    else if IsModelled(l) then exists y: Word :: Executes(l.word, c, c', y)
    else ChangesOnly(c, c', l.written)
  }

  predicate MayBranch(l: Line, c: Cpu, taken: bool) { BranchTestOf(l.word).Some? ==> taken == Takes(l.word, c) }

  /** A decoded conditional branch goes where the processor takes it; any other
      transfer does not depend on registers. */
  ghost predicate CpuGoes(f: Func, i: nat, l: Line, c: Cpu, j: nat)
    requires i < |f.instrs| && j < |f.instrs|
  {
    if f.instrs[i].flow == CondJump then exists taken: bool :: MayBranch(l, c, taken) && Lands(f, i, taken, j)
    else exists r: Concrete :: Goes(f, i, r, j)
  }

  ghost predicate CpuStep(f: Func, ls: seq<Line>, x: CpuAt, y: CpuAt)
    requires |ls| == |f.instrs|
  {
    && x.at < |f.instrs| && y.at < |f.instrs|
    && CpuExecutes(f.instrs[x.at], ls[x.at], x.cpu, y.cpu)
    && CpuGoes(f, x.at, ls[x.at], y.cpu, y.at)
  }

  /** A run enters the function with the processor in any state. */
  ghost predicate IsCpuRun(f: Func, ls: seq<Line>, run: seq<CpuAt>)
    requires |ls| == |f.instrs|
  {
    && run != [] && run[0].at == 0 && |f.instrs| > 0
    && forall k: nat :: k + 1 < |run| ==> CpuStep(f, ls, run[k], run[k + 1])
  }

  ghost predicate CpuReaches(f: Func, ls: seq<Line>, a: nat)
    requires |ls| == |f.instrs|
  {
    exists run: seq<CpuAt>, k: nat :: IsCpuRun(f, ls, run) && k < |run| && run[k].at < |f.instrs| && f.instrs[run[k].at].addr == a
  }

  // ---- Effects follow the processor -------------------------------------------------------

  /** Clobbers can leave anything in the registers they name. */
  lemma {:induction false} ClobbersRun(rs: seq<Reg>, r: Concrete, r': Concrete)
    requires forall g: Reg :: g !in rs ==> r'[g] == r[g]
    ensures EffectsRun(Clobbers(rs), r, r')
    decreases |rs|
  {
    if rs == [] {
      assert r' == r;
    } else {
      var k := |rs| - 1;
      var g := rs[k];
      assert rs == rs[..k] + [g];
      var m := if g in rs[..k] then r' else r'[g := r[g]];
      ClobbersRun(rs[..k], r, m);
      assert m[g := r'[g]] == r';
      RunNil(r');
      RunCons(Clobber(g), [], m, r'[g], r');
      assert [Clobber(g)] + [] == [Clobber(g)];
      RunConcat(Clobbers(rs[..k]), [Clobber(g)], r, m, r');
    }
  }

  /** A slot 16 that explains a given Z at every width. */
  function Explains(z: bool): Word { if z then 0 else 0xFFFF_FFFF_FFFF_FFFF }

  lemma ExplainsZ(z: bool)
    ensures WidthMask(0xFF) && z == ZeroBits(Explains(z), 0xFF)
  {
  }

  /** The tracked registers of `c`, with `flags` in slot 16. */
  function FileOf(c: Cpu, flags: Word): (r: Concrete)
    ensures r[16] == flags && forall g: nat :: g < 16 ==> r[g] == c.x[g]
  {
    c.x[..16] + [flags]
  }

  lemma ChangeFollowed(c: Cpu, c': Cpu, rs: seq<Reg>, r: Concrete) returns (r': Concrete)
    requires Agrees(c, r) && ChangesOnly(c, c', rs)
    ensures EffectsRun(Clobbers(rs), r, r') && Agrees(c', r')
  {
    hide WidthMask, ZeroBits, Explains, EffectsRun;
    r' := FileOf(c', if FLAGS_REG in rs then Explains(c'.z) else r[16]);
    ExplainsZ(c'.z);
    ClobbersRun(rs, r, r');
  }

  lemma CallChanges(c: Cpu, c': Cpu)
    ensures ChangesOnly(c, c', CALLER_SAVED)
  {
    forall g: nat | g < 16 ensures g in CALLER_SAVED { assert CALLER_SAVED[g] == g; }
    assert CALLER_SAVED[16] == FLAGS_REG;
  }

  /** Whatever the processor does, the effects of the instruction can follow. */
  lemma ExecutionFollowed(f: Func, ins: Ins, l: Line, c: Cpu, c': Cpu, r: Concrete) returns (r': Concrete)
    requires f.callerSaved == CALLER_SAVED && FromLine(ins, l) && CpuExecutes(ins, l, c, c') && Agrees(c, r)
    ensures EffectsRun(InsEffects(f, ins), r, r') && Agrees(c', r')
  {
    hide Agrees, EffectsRun, Executes, EffectsOf, ClassOf, ChangesOnly, BranchTestOf;
    if Calls(ins) {
      CallChanges(c, c');
      r' := ChangeFollowed(c, c', CALLER_SAVED, r);
    } else if IsModelled(l) {
      var y: Word :| Executes(l.word, c, c', y);
      EffectsSimulate(l.word, c, c', y, r);
      r' :| EffectsRun(EffectsOf(l.word), r, r') && Agrees(c', r');
    } else {
      r' := ChangeFollowed(c, c', l.written, r);
      RunOrNop(Clobbers(l.written), r, r');
    }
  }

  /** And the way it goes is one the effects allow. */
  lemma TransferFollowed(f: Func, i: nat, l: Line, c: Cpu, r: Concrete, j: nat)
    requires i < |f.instrs| && j < |f.instrs| && FromLine(f.instrs[i], l) && CpuGoes(f, i, l, c, j) && Agrees(c, r)
    ensures Goes(f, i, r, j)
  {
    hide Agrees, BranchTestOf, Takes, MayTest, MayTake, OwnEffects;
    if f.instrs[i].flow == CondJump {
      var ins := f.instrs[i];
      var taken: bool :| MayBranch(l, c, taken) && Lands(f, i, taken, j);
      if ins.test.Some? { BranchTestSound(l.word, c, r); }
      assert Allowed(ins.test, r, taken);
    }
  }

  /** The traces agree with the run, step by step. */
  ghost predicate Shadows(run: seq<CpuAt>, tr: seq<Pc>) {
    |tr| == |run| && forall k: nat :: k < |run| ==> tr[k].at == run[k].at && Agrees(run[k].cpu, tr[k].regs)
  }

  /** Every run of the processor is followed by a trace of the function. */
  lemma {:induction false} RunFollowed(f: Func, ls: seq<Line>, run: seq<CpuAt>) returns (tr: seq<Pc>)
    requires Extracted(f, ls) && IsCpuRun(f, ls, run)
    ensures IsTrace(f, tr) && Shadows(run, tr)
    decreases |run|
  {
    hide Agrees, CpuExecutes, CpuGoes, FromLine, Goes, InsEffects, EffectsRun;
    if |run| == 1 {
      tr := [Pc(0, FileOf(run[0].cpu, Explains(run[0].cpu.z)))];
      FileAgrees(run[0].cpu);
    } else {
      var k := |run| - 2;
      var x, y := run[k], run[k + 1];
      assert CpuStep(f, ls, run[k], run[k + 1]);
      var before := RunFollowed(f, ls, run[..k + 1]);
      assert Agrees(run[..k + 1][k].cpu, before[k].regs);
      var r' := ExecutionFollowed(f, f.instrs[x.at], ls[x.at], x.cpu, y.cpu, before[k].regs);
      TransferFollowed(f, x.at, ls[x.at], y.cpu, r', y.at);
      tr := before + [Pc(y.at, r')];
      assert InsStep(f, tr[k], tr[k + 1]);
    }
  }

  lemma FileAgrees(c: Cpu)
    ensures Agrees(c, FileOf(c, Explains(c.z)))
  {
    hide WidthMask, ZeroBits, Explains;
    ExplainsZ(c.z);
  }

  // ---- The result for the processor ------------------------------------------------------------

  /** What the processor executes, a trace of the function executes. */
  lemma ReachedIsExecuted(f: Func, ls: seq<Line>, a: nat)
    requires Extracted(f, ls) && CpuReaches(f, ls, a)
    ensures Executed(f, a)
  {
    hide FromLine, IsTrace, Agrees;
    var run: seq<CpuAt>, k: nat :| IsCpuRun(f, ls, run) && k < |run| && run[k].at < |f.instrs| && f.instrs[run[k].at].addr == a;
    var tr := RunFollowed(f, ls, run);
    assert IsTrace(f, tr) && tr[k].at == run[k].at;
  }

  /**
   No run of the processor, entering with any registers, executes an address that is
   reported dead.
   */
  method CpuDeadRegions(f: Func, ghost ls: seq<Line>, maxInstrs: nat, minSize: nat)
    returns (dead: seq<Sccp.DeadBlock>, skipped: bool)
    requires WellFormed(f) && Extracted(f, ls)
    ensures skipped ==> dead == []
    ensures forall d, a: nat :: d in dead && d.addr <= a < d.addr + d.size ==> !CpuReaches(f, ls, a)
    ensures !skipped ==> exists starts: seq<nat>, s: Sccp.Sol :: Reports(f, starts, s, minSize, dead)
  {
    hide WellFormed, FromLine, Executed, CpuReaches, Reports;
    dead, skipped := DeadRegions(f, maxInstrs, minSize);
    forall d, a: nat | d in dead && d.addr <= a < d.addr + d.size ensures !CpuReaches(f, ls, a) {
      if CpuReaches(f, ls, a) { ReachedIsExecuted(f, ls, a); }
    }
  }
}
