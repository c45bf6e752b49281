/**
 Basic blocks and edges of one function (src/analysis/cfg.rs:291-536), the
 foldable terminators and block effects the solver reads (src/analysis/sccp.rs:
 84-189), and the lift of its result to runs of single instructions.

 Instructions are those of the function, in address order.  A call that does not
 return is marked so; a call or jump out of the function ends the run.
 */
module FuncCfg {
  import opened Wrappers
  import opened Lattice
  import opened SccpModel
  import opened Sccp

  datatype Flow = Normal | Call | Jump | CondJump | Return | Halt | IndirectJump | IndirectCall

  datatype Ins = Ins(addr: nat, len: nat, flow: Flow, targets: seq<nat>, isCall: bool, noreturn: bool,
                     own: seq<Effect>, test: Option<BranchTest>)

  /** The function `[start, end)`, its instructions and the registers calls clobber. */
  datatype Func = Func(start: nat, end: nat, instrs: seq<Ins>, callerSaved: seq<Reg>)

  // ---- Block starts ------------------------------------------------------------------

  predicate Inside(f: Func, a: nat) { f.start <= a < f.end }

  /** The address after an instruction that ends a block, or a direct target of it. */
  predicate Opens(f: Func, ins: Ins, a: nat) {
    || (ins.flow != Normal && a == ins.addr + ins.len && a < f.end)
    || (!ins.isCall && a in ins.targets && Inside(f, a))
  }

  predicate IsStart(f: Func, a: nat, n: nat)
    requires n <= |f.instrs|
  {
    a == f.start || exists i: nat :: i < n && Opens(f, f.instrs[i], a)
  }

  predicate Strict(s: seq<nat>) { forall i: nat, j: nat :: i < j < |s| ==> s[i] < s[j] }

  /** Add to a sorted list without repeats: a set insertion and the final sort in one. */
  function Add(s: seq<nat>, a: nat): (r: seq<nat>)
    requires Strict(s)
    ensures Strict(r) && forall x :: x in r <==> x == a || x in s
  {
    if s == [] || s[|s| - 1] < a then s + [a]
    else
      var k := |s| - 1;
      assert s == s[..k] + [s[k]];
      if s[k] == a then s
      else
        var t := Add(s[..k], a);
        AddBelow(t, s[..k], a, s[k]);
        t + [s[k]]
  }

  lemma AddBelow(t: seq<nat>, s: seq<nat>, a: nat, bound: nat)
    requires a < bound && (forall i: nat :: i < |s| ==> s[i] < bound) && forall x :: x in t ==> x == a || x in s
    ensures forall i: nat :: i < |t| ==> t[i] < bound
  {
    forall i: nat | i < |t|
      ensures t[i] < bound
    {
      assert t[i] in t;
    }
  }

  /** `find_block_starts`. */
  method FindBlockStarts(f: Func) returns (starts: seq<nat>)
    ensures Strict(starts) && forall a :: a in starts <==> IsStart(f, a, |f.instrs|)
  {
    starts := [f.start];
    for i := 0 to |f.instrs|
      invariant Strict(starts) && forall a :: a in starts <==> IsStart(f, a, i)
    {
      var ins := f.instrs[i];
      ghost var was := starts;
      if ins.flow != Normal {
        var next := ins.addr + ins.len;
        if next < f.end {
          starts := Add(starts, next);
        }
      }
      ghost var mid := starts;
      if !ins.isCall {
        for k := 0 to |ins.targets|
          invariant Strict(starts)
          invariant forall a :: a in starts <==> a in mid || (a in ins.targets[..k] && Inside(f, a))
        {
          var tgt := ins.targets[k];
          assert ins.targets[..k + 1] == ins.targets[..k] + [tgt];
          if f.start <= tgt && tgt < f.end {
            starts := Add(starts, tgt);
          }
        }
        assert ins.targets[..|ins.targets|] == ins.targets;
      }
      forall a
        ensures a in starts <==> IsStart(f, a, i + 1)
      {
        assert a in starts <==> a in was || Opens(f, f.instrs[i], a);
      }
    }
  }

  // ---- Edges -------------------------------------------------------------------------

  /** The end of block `b`: the next start, or the end of the function. */
  function BlockEnd(f: Func, starts: seq<nat>, b: nat): nat { if b + 1 < |starts| then starts[b + 1] else f.end }

  predicate InBlock(f: Func, starts: seq<nat>, b: nat, a: nat) {
    b < |starts| && starts[b] <= a < BlockEnd(f, starts, b)
  }

  /** `addr_to_block`. */
  function BlockAt(starts: seq<nat>, a: nat): (r: Option<nat>)
    ensures r.Some? ==> r.value < |starts| && starts[r.value] == a
    ensures a in starts ==> r.Some?
  {
    if starts == [] then None
    else if starts[|starts| - 1] == a then Some(|starts| - 1)
    else BlockAt(starts[..|starts| - 1], a)
  }

  lemma BlockAtIs(starts: seq<nat>, b: nat)
    requires Strict(starts) && b < |starts|
    ensures BlockAt(starts, starts[b]) == Some(b)
  {
    assert starts[b] in starts;
  }

  /** `find_last_instr`. */
  function LastIn(f: Func, starts: seq<nat>, b: nat, n: nat): (r: Option<nat>)
    requires n <= |f.instrs|
    ensures r.Some? ==> r.value < n && InBlock(f, starts, b, f.instrs[r.value].addr)
  {
    if n == 0 then None
    else if InBlock(f, starts, b, f.instrs[n - 1].addr) then Some(n - 1)
    else LastIn(f, starts, b, n - 1)
  }

  function Fallthrough(starts: seq<nat>, b: nat): seq<nat> { if b + 1 < |starts| then [b + 1] else [] }

  /** `resolve_targets`. */
  function Resolve(starts: seq<nat>, targets: seq<nat>): (r: seq<nat>)
    ensures forall t :: t in targets && BlockAt(starts, t).Some? ==> BlockAt(starts, t).value in r
  {
    if targets == [] then []
    else (match BlockAt(starts, targets[0]) case Some(b) => [b] case None => []) + Resolve(starts, targets[1..])
  }

  /** Targets of a conditional branch, added unless already there. */
  function AddTargets(e: seq<nat>, starts: seq<nat>, targets: seq<nat>): (r: seq<nat>)
    ensures e <= r
    ensures forall t :: t in targets && BlockAt(starts, t).Some? ==> BlockAt(starts, t).value in r
    decreases |targets|
  {
    if targets == [] then e
    else
      match BlockAt(starts, targets[0])
      case Some(b) =>
        var next := if b in e then e else e + [b];
        assert b in next;
        AddTargets(next, starts, targets[1..])
      case None => AddTargets(e, starts, targets[1..])
  }

  function AllBlocks(n: nat): (r: seq<nat>)
    ensures |r| == n && forall i: nat :: i < n ==> r[i] == i
  {
    seq(n, i => i)
  }

  /** `compute_edges`, for the last instruction of block `b`. */
  function ComputeEdges(ins: Ins, starts: seq<nat>, b: nat): seq<nat> {
    match ins.flow
    case Normal => Fallthrough(starts, b)
    case IndirectCall => Fallthrough(starts, b)
    case Call => if ins.noreturn then [] else Fallthrough(starts, b)
    case Jump => Resolve(starts, ins.targets)
    case CondJump => AddTargets(Fallthrough(starts, b), starts, ins.targets)
    case Return => []
    case Halt => []
    case IndirectJump => AllBlocks(|starts|)
  }

  function EdgesOf(f: Func, starts: seq<nat>, b: nat): seq<nat> {
    match LastIn(f, starts, b, |f.instrs|)
    case Some(i) => ComputeEdges(f.instrs[i], starts, b)
    case None => Fallthrough(starts, b)
  }

  /** `cond_term`. */
  function TermOf(f: Func, starts: seq<nat>, b: nat): Option<CondTerm> {
    var last := LastIn(f, starts, b, |f.instrs|);
    if last.None? then None
    else
      var ins, succs := f.instrs[last.value], EdgesOf(f, starts, b);
      if ins.flow != CondJump || |succs| != 2 then None
      else
        var ft, taken := BlockAt(starts, ins.addr + ins.len), Resolve(starts, ins.targets);
        if ft.None? || taken == [] || ins.test.None? then None
        else if |taken| == 1 && taken[0] != ft.value && taken[0] in succs && ft.value in succs
        then Some(CondTerm(ins.test.value, taken[0], ft.value))
        else None
  }

  // ---- What edges and terminators are ------------------------------------------------------

  /** Block `next` starts at one of the targets. */
  predicate Starts(starts: seq<nat>, targets: seq<nat>, next: nat) { next < |starts| && starts[next] in targets }

  /** Where the last instruction of block `b` can lead: on, unless control never comes
      back, and to the blocks at its targets; a computed jump anywhere. */
  predicate Leads(ins: Ins, starts: seq<nat>, b: nat, next: nat) {
    && next < |starts|
    && match ins.flow
       case Normal => next == b + 1
       case IndirectCall => next == b + 1
       case Call => next == b + 1 && !ins.noreturn
       case Jump => starts[next] in ins.targets
       case CondJump => next == b + 1 || starts[next] in ins.targets
       case IndirectJump => true
       case Return => false
       case Halt => false
  }

  lemma {:induction false} ResolveExact(starts: seq<nat>, targets: seq<nat>, next: nat)
    requires Strict(starts)
    ensures next in Resolve(starts, targets) <==> Starts(starts, targets, next)
    decreases |targets|
  {
    if targets != [] {
      ResolveExact(starts, targets[1..], next);
      assert targets == [targets[0]] + targets[1..];
      if next < |starts| { BlockAtIs(starts, next); }
    }
  }

  lemma {:induction false} AddTargetsExact(e: seq<nat>, starts: seq<nat>, targets: seq<nat>, next: nat)
    requires Strict(starts)
    ensures next in AddTargets(e, starts, targets) <==> next in e || Starts(starts, targets, next)
    decreases |targets|
  {
    if targets != [] {
      assert targets == [targets[0]] + targets[1..];
      if next < |starts| { BlockAtIs(starts, next); }
      match BlockAt(starts, targets[0])
      case Some(b) => AddTargetsExact(if b in e then e else e + [b], starts, targets[1..], next);
      case None => AddTargetsExact(e, starts, targets[1..], next);
    }
  }

  /** The edges of a block are exactly the blocks its last instruction can lead to. */
  lemma EdgesExact(f: Func, starts: seq<nat>, b: nat, i: nat, next: nat)
    requires Strict(starts) && LastIn(f, starts, b, |f.instrs|) == Some(i)
    ensures next in EdgesOf(f, starts, b) <==> Leads(f.instrs[i], starts, b, next)
  {
    var ins := f.instrs[i];
    if ins.flow == Jump { ResolveExact(starts, ins.targets, next); }
    if ins.flow == CondJump { AddTargetsExact(Fallthrough(starts, b), starts, ins.targets, next); }
    if ins.flow == IndirectJump && next < |starts| { assert AllBlocks(|starts|)[next] == next; }
  }

  /** The one target that starts a block. */
  ghost predicate OneTarget(starts: seq<nat>, targets: seq<nat>, taken: nat) {
    exists k: nat :: OneTargetAt(starts, targets, taken, k)
  }

  predicate OneTargetAt(starts: seq<nat>, targets: seq<nat>, taken: nat, k: nat) {
    && taken < |starts| && k < |targets| && targets[k] == starts[taken]
    && forall j: nat :: j < |targets| && j != k ==> targets[j] !in starts
  }

  lemma {:induction false} NoTarget(starts: seq<nat>, targets: seq<nat>)
    ensures Resolve(starts, targets) == [] <==> forall j: nat :: j < |targets| ==> targets[j] !in starts
    decreases |targets|
  {
    if targets != [] {
      NoTarget(starts, targets[1..]);
      assert targets == [targets[0]] + targets[1..];
    }
  }

  lemma {:induction false} OneTargetExact(starts: seq<nat>, targets: seq<nat>, taken: nat)
    requires Strict(starts)
    ensures Resolve(starts, targets) == [taken] <==> OneTarget(starts, targets, taken)
    decreases |targets|
  {
    if targets != [] {
      var rest := targets[1..];
      assert targets == [targets[0]] + rest;
      NoTarget(starts, rest);
      OneTargetExact(starts, rest, taken);
      if taken < |starts| { BlockAtIs(starts, taken); }
      match BlockAt(starts, targets[0])
      case Some(b) =>
        assert targets[0] in starts;
        if Resolve(starts, targets) == [taken] { assert OneTargetAt(starts, targets, taken, 0); }
        if k: nat :| OneTargetAt(starts, targets, taken, k) { OnlyHere(starts, targets, taken, k); }
      case None =>
        assert targets[0] !in starts;
        if k: nat :| OneTargetAt(starts, rest, taken, k) { TargetLater(starts, targets, taken, k); }
        if k: nat :| OneTargetAt(starts, targets, taken, k) { TargetEarlier(starts, targets, taken, k); }
    }
  }

  lemma OnlyHere(starts: seq<nat>, targets: seq<nat>, taken: nat, k: nat)
    requires OneTargetAt(starts, targets, taken, k) && targets[0] in starts
    ensures targets[0] == starts[taken] && forall j: nat :: j < |targets[1..]| ==> targets[1..][j] !in starts
  {
    assert k == 0;
  }

  lemma TargetLater(starts: seq<nat>, targets: seq<nat>, taken: nat, k: nat)
    requires targets != [] && targets[0] !in starts && OneTargetAt(starts, targets[1..], taken, k)
    ensures OneTarget(starts, targets, taken)
  {
    forall j: nat | j < |targets| && j != k + 1
      ensures targets[j] !in starts
    {
      if j > 0 { assert targets[j] == targets[1..][j - 1]; }
    }
    assert OneTargetAt(starts, targets, taken, k + 1);
  }

  lemma TargetEarlier(starts: seq<nat>, targets: seq<nat>, taken: nat, k: nat)
    requires targets != [] && targets[0] !in starts && OneTargetAt(starts, targets, taken, k)
    ensures OneTarget(starts, targets[1..], taken)
  {
    assert targets[k] in starts;
    forall j: nat | j < |targets[1..]| && j != k - 1
      ensures targets[1..][j] !in starts
    {
      assert targets[1..][j] == targets[j + 1];
    }
    assert OneTargetAt(starts, targets[1..], taken, k - 1);
  }

  /** A block folds exactly when it ends in a decoded conditional branch, the next block
      starts behind it and exactly one other block starts at its targets. */
  ghost predicate Folds(f: Func, starts: seq<nat>, b: nat, i: nat, t: CondTerm)
    requires i < |f.instrs|
  {
    var ins := f.instrs[i];
    && ins.flow == CondJump && ins.test == Some(t.test) && t.fallthrough == b + 1 < |starts|
    && OneTarget(starts, ins.targets, t.taken) && t.taken != b + 1
  }

  lemma {:induction false} AddOne(e: seq<nat>, starts: seq<nat>, targets: seq<nat>, taken: nat)
    requires Resolve(starts, targets) == [taken] && taken !in e
    ensures AddTargets(e, starts, targets) == e + [taken]
    decreases |targets|
  {
    if targets != [] {
      if BlockAt(starts, targets[0]).Some? { AddNone(e + [taken], starts, targets[1..]); } else { AddOne(e, starts, targets[1..], taken); }
    }
  }

  lemma {:induction false} AddNone(e: seq<nat>, starts: seq<nat>, targets: seq<nat>)
    requires Resolve(starts, targets) == []
    ensures AddTargets(e, starts, targets) == e
    decreases |targets|
  {
    if targets != [] { AddNone(e, starts, targets[1..]); }
  }

  lemma TermExact(f: Func, starts: seq<nat>, b: nat, i: nat, t: CondTerm)
    requires Strict(starts) && LastIn(f, starts, b, |f.instrs|) == Some(i)
    requires b + 1 < |starts| ==> starts[b + 1] == f.instrs[i].addr + f.instrs[i].len
    requires b + 1 == |starts| ==> f.instrs[i].addr + f.instrs[i].len !in starts
    ensures TermOf(f, starts, b) == Some(t) <==> Folds(f, starts, b, i, t)
  {
    hide OneTarget, Resolve, AddTargets, BlockAt, LastIn, Strict;
    var ins := f.instrs[i];
    OneTargetExact(starts, ins.targets, t.taken);
    if ins.flow == CondJump && b + 1 < |starts| {
      BlockAtIs(starts, b + 1);
      var taken := Resolve(starts, ins.targets);
      if |taken| == 1 && taken[0] != b + 1 {
        assert taken == [taken[0]];
        AddOne([b + 1], starts, ins.targets, taken[0]);
      }
    }
  }

  /** A block that folds has no successors but the two of its branch, so what is kept
      of them is exactly what can be taken: see `SccpModel.TargetsExact`. */
  lemma FoldsTwoTargets(f: Func, starts: seq<nat>, b: nat)
    requires |starts| > 0 && b < |starts|
    requires forall i: nat :: i < |f.instrs| && f.instrs[i].test.Some? ==> TestFits(f.instrs[i].test.value)
    ensures TwoTargets(ProgOf(f, starts), b)
  {
    var p := ProgOf(f, starts);
    if p.terms[b].Some? {
      var t, succs := p.terms[b].value, p.succs[b];
      assert TestFits(t.test);
      forall s | s in succs
        ensures s == t.taken || s == t.fallthrough
      {
        TwoOf(succs, t.taken, t.fallthrough, s);
      }
    }
  }

  predicate TestFits(t: BranchTest) { t.src.RegBits? ==> t.src.r < 17 && t.src.mask != 0 }

  lemma TwoOf(xs: seq<nat>, a: nat, b: nat, s: nat)
    requires |xs| == 2 && a in xs && b in xs && a != b && s in xs
    ensures s == a || s == b
  {
    assert xs == [xs[0], xs[1]];
  }

  // ---- Effects -------------------------------------------------------------------------

  function Clobbers(rs: seq<Reg>): seq<Effect> { if rs == [] then [] else Clobbers(rs[..|rs| - 1]) + [Clobber(rs[|rs| - 1])] }

  /** `add_instr_effects`: calls clobber the caller-saved registers. */
  function InsEffects(f: Func, ins: Ins): seq<Effect> {
    if ins.isCall || ins.flow == IndirectCall then Clobbers(f.callerSaved) else ins.own
  }

  /** The effects of block `b` among the first `n` instructions, in order. */
  function BlockEffects(f: Func, starts: seq<nat>, b: nat, n: nat): seq<Effect>
    requires n <= |f.instrs|
  {
    if n == 0 then []
    else
      BlockEffects(f, starts, b, n - 1)
      + (if InBlock(f, starts, b, f.instrs[n - 1].addr) then InsEffects(f, f.instrs[n - 1]) else [])
  }

  function ProgOf(f: Func, starts: seq<nat>): (p: Prog)
    requires |starts| > 0
    ensures p.n == |starts| && p.entry < p.n && ProgOk(p)
    ensures forall b: nat :: b < p.n ==> p.succs[b] == EdgesOf(f, starts, b) && p.terms[b] == TermOf(f, starts, b)
    ensures forall b: nat :: b < p.n ==> p.effects[b] == BlockEffects(f, starts, b, |f.instrs|)
    ensures f.start in starts ==> starts[p.entry] == f.start
  {
    var n := |starts|;
    var entry := BlockAt(starts, f.start);
    Prog(n, if entry.Some? then entry.value else 0,
         seq(n, b requires 0 <= b < n => EdgesOf(f, starts, b)),
         seq(n, b requires 0 <= b < n => BlockEffects(f, starts, b, |f.instrs|)),
         seq(n, b requires 0 <= b < n => TermOf(f, starts, b)))
  }

  // ---- Runs of single instructions -----------------------------------------------------------

  datatype Pc = Pc(at: nat, regs: Concrete)

  /** A branch at `i`, taken or not, goes to `j`. */
  predicate Lands(f: Func, i: nat, taken: bool, j: nat)
    requires i < |f.instrs| && j < |f.instrs|
  {
    if taken then f.instrs[j].addr in f.instrs[i].targets else j == i + 1
  }

  ghost predicate Branches(f: Func, i: nat, r: Concrete, j: nat)
    requires i < |f.instrs| && j < |f.instrs|
  {
    exists taken: bool :: Allowed(f.instrs[i].test, r, taken) && Lands(f, i, taken, j)
  }

  /** Where control may go after instruction `i`, the registers being `r` after it;
      a computed jump may land on any instruction of the function. */
  ghost predicate Goes(f: Func, i: nat, r: Concrete, j: nat)
    requires i < |f.instrs| && j < |f.instrs|
  {
    var ins := f.instrs[i];
    match ins.flow
    case Normal => j == i + 1
    case IndirectCall => j == i + 1
    case Call => !ins.noreturn && j == i + 1
    case Jump => f.instrs[j].addr in ins.targets
    case CondJump => Branches(f, i, r, j)
    case IndirectJump => true
    case Return => false
    case Halt => false
  }

  /** The outcome a decoded test leaves open; without one, any. */
  ghost predicate Allowed(test: Option<BranchTest>, r: Concrete, taken: bool) {
    test.Some? ==> exists z: bool :: MayTest(test.value.src, r, z) && MayTake(test.value.cc, z, taken)
  }

  ghost predicate InsStep(f: Func, x: Pc, y: Pc) {
    && x.at < |f.instrs| && y.at < |f.instrs|
    && EffectsRun(InsEffects(f, f.instrs[x.at]), x.regs, y.regs)
    && Goes(f, x.at, y.regs, y.at)
  }

  /** A run enters at the first instruction with arbitrary registers. */
  ghost predicate IsTrace(f: Func, tr: seq<Pc>) {
    && tr != [] && tr[0].at == 0 && |f.instrs| > 0
    && forall k: nat :: k + 1 < |tr| ==> InsStep(f, tr[k], tr[k + 1])
  }

  /** The instructions fill the function, and direct targets inside it are instructions. */
  ghost predicate WellFormed(f: Func) {
    && |f.instrs| > 0 && f.instrs[0].addr == f.start
    && (forall i: nat :: i < |f.instrs| ==> f.instrs[i].len > 0)
    && (forall i: nat :: i + 1 < |f.instrs| ==> f.instrs[i + 1].addr == f.instrs[i].addr + f.instrs[i].len)
    && f.instrs[|f.instrs| - 1].addr + f.instrs[|f.instrs| - 1].len == f.end
    && (forall i: nat :: i < |f.instrs| && f.instrs[i].isCall ==> f.instrs[i].flow == Call || f.instrs[i].flow == IndirectCall)
    && (forall i: nat, t :: i < |f.instrs| && !f.instrs[i].isCall && t in f.instrs[i].targets && Inside(f, t) ==> IsIns(f, t))
  }

  predicate IsIns(f: Func, a: nat) { exists k: nat :: k < |f.instrs| && f.instrs[k].addr == a }

  ghost predicate StartsOf(f: Func, starts: seq<nat>) {
    Strict(starts) && forall a :: a in starts <==> IsStart(f, a, |f.instrs|)
  }

  // ---- Blocks and instructions -----------------------------------------------------------------

  lemma {:induction false} InOrder(f: Func, i: nat, j: nat)
    requires WellFormed(f) && i < j < |f.instrs|
    ensures f.instrs[i].addr + f.instrs[i].len <= f.instrs[j].addr
    decreases j
  {
    if i + 1 < j { InOrder(f, i, j - 1); }
    assert f.instrs[j - 1 + 1].addr == f.instrs[j - 1].addr + f.instrs[j - 1].len;
  }

  lemma BeforeEnd(f: Func, i: nat)
    requires WellFormed(f) && i < |f.instrs|
    ensures f.start <= f.instrs[i].addr && f.instrs[i].addr + f.instrs[i].len <= f.end
  {
    if i > 0 { InOrder(f, 0, i); }
    if i + 1 < |f.instrs| { InOrder(f, i, |f.instrs| - 1); }
  }

  /** Every block starts at an instruction. */
  lemma StartIsIns(f: Func, a: nat)
    requires WellFormed(f) && IsStart(f, a, |f.instrs|)
    ensures IsIns(f, a)
  {
    if a == f.start { assert f.instrs[0].addr == a; } else {
      var i: nat :| i < |f.instrs| && Opens(f, f.instrs[i], a);
      if i + 1 < |f.instrs| && a == f.instrs[i].addr + f.instrs[i].len { assert f.instrs[i + 1].addr == a; }
    }
  }

  /** A start past the start of block `b` is past its end. */
  lemma NextStart(f: Func, starts: seq<nat>, b: nat, a: nat)
    requires StartsOf(f, starts) && b < |starts| && a in starts && starts[b] < a
    ensures BlockEnd(f, starts, b) <= a
  {
    var k: nat :| k < |starts| && starts[k] == a;
    if b + 1 < k { assert starts[b + 1] < starts[k]; }
  }

  /** Instruction `i` ends block `b`. */
  predicate Ends(f: Func, starts: seq<nat>, b: nat, i: nat) {
    && i < |f.instrs| && InBlock(f, starts, b, f.instrs[i].addr)
    && (i + 1 < |f.instrs| ==> BlockEnd(f, starts, b) <= f.instrs[i + 1].addr)
  }

  /** Whatever is not straight-line code ends its block. */
  lemma TerminatorEnds(f: Func, starts: seq<nat>, b: nat, i: nat)
    requires WellFormed(f) && StartsOf(f, starts) && i < |f.instrs| && InBlock(f, starts, b, f.instrs[i].addr)
    requires f.instrs[i].flow != Normal
    ensures Ends(f, starts, b, i)
  {
    if i + 1 < |f.instrs| {
      var a := f.instrs[i + 1].addr;
      BeforeEnd(f, i + 1);
      assert Opens(f, f.instrs[i], a);
      NextStart(f, starts, b, a);
    }
  }

  /** The block after an ended one starts at the next instruction. */
  lemma NextBlock(f: Func, starts: seq<nat>, b: nat, i: nat)
    requires WellFormed(f) && StartsOf(f, starts) && Ends(f, starts, b, i) && i + 1 < |f.instrs|
    ensures b + 1 < |starts| && starts[b + 1] == f.instrs[i + 1].addr
  {
    BeforeEnd(f, i + 1);
    var s := starts[b + 1];
    assert s in starts;
    StartIsIns(f, s);
    var k: nat :| k < |f.instrs| && f.instrs[k].addr == s;
    if k < i { InOrder(f, k, i); }
    if k > i + 1 { InOrder(f, i + 1, k); }
  }

  lemma {:induction false} LastIs(f: Func, starts: seq<nat>, b: nat, i: nat, n: nat)
    requires WellFormed(f) && Ends(f, starts, b, i) && i < n <= |f.instrs|
    ensures LastIn(f, starts, b, n) == Some(i)
    ensures BlockEffects(f, starts, b, n) == BlockEffects(f, starts, b, i + 1)
    decreases n
  {
    if n > i + 1 {
      LastIs(f, starts, b, i, n - 1);
      if n - 1 > i + 1 { InOrder(f, i + 1, n - 1); }
    }
  }

  lemma {:induction false} NothingBefore(f: Func, starts: seq<nat>, b: nat, j: nat, n: nat)
    requires WellFormed(f) && b < |starts| && j < |f.instrs| && starts[b] == f.instrs[j].addr && n <= j
    ensures BlockEffects(f, starts, b, n) == []
    decreases n
  {
    if n > 0 {
      InOrder(f, n - 1, j);
      NothingBefore(f, starts, b, j, n - 1);
    }
  }

  // ---- The lift ----------------------------------------------------------------------------------

  /** A block run that has come as far as `x`, inside its last block. */
  ghost predicate Tracks(f: Func, starts: seq<nat>, run: seq<Config>, x: Pc)
    requires |starts| > 0
  {
    && IsRun(ProgOf(f, starts), run) && x.at < |f.instrs|
    && var last := run[|run| - 1];
    InBlock(f, starts, last.block, f.instrs[x.at].addr)
    && EffectsRun(BlockEffects(f, starts, last.block, x.at), last.regs, x.regs)
  }

  /** The block whose start control goes to, and that the edges allow it.  A computed
      jump may land inside a block: see `ComputedJump`. */
  lemma EdgeTaken(f: Func, starts: seq<nat>, b: nat, i: nat, r: Concrete, j: nat) returns (b': nat)
    requires WellFormed(f) && StartsOf(f, starts) && |starts| > 0 && Ends(f, starts, b, i) && j < |f.instrs| && Goes(f, i, r, j)
    requires f.instrs[i].flow == IndirectJump ==> f.instrs[j].addr in starts
    ensures b' < |starts| && starts[b'] == f.instrs[j].addr && MayGo(ProgOf(f, starts), b, r, b')
  {
    LastIs(f, starts, b, i, |f.instrs|);
    var ins, p := f.instrs[i], ProgOf(f, starts);
    assert p.succs[b] == ComputeEdges(ins, starts, b);
    if ins.flow == CondJump {
      var taken: bool :| Allowed(ins.test, r, taken) && Lands(f, i, taken, j);
      b' := CondTaken(f, starts, b, i, r, j, taken);
    } else if ins.flow == Jump {
      b' := TargetBlock(f, starts, i, j);
    } else if ins.flow == IndirectJump {
      b' := BlockAt(starts, f.instrs[j].addr).value;
      assert AllBlocks(|starts|)[b'] == b';
    } else {
      NextBlock(f, starts, b, i);
      b' := b + 1;
    }
  }

  lemma TargetBlock(f: Func, starts: seq<nat>, i: nat, j: nat) returns (b: nat)
    requires WellFormed(f) && StartsOf(f, starts) && i < |f.instrs| && j < |f.instrs|
    requires !f.instrs[i].isCall && f.instrs[j].addr in f.instrs[i].targets
    ensures b < |starts| && starts[b] == f.instrs[j].addr && BlockAt(starts, f.instrs[j].addr) == Some(b)
  {
    BeforeEnd(f, j);
    assert f.instrs[j].len > 0;
    assert Opens(f, f.instrs[i], f.instrs[j].addr);
    assert f.instrs[j].addr in starts;
    b := BlockAt(starts, f.instrs[j].addr).value;
  }

  /** A conditional branch: the edge, and agreement with a foldable terminator. */
  lemma CondTaken(f: Func, starts: seq<nat>, b: nat, i: nat, r: Concrete, j: nat, taken: bool) returns (b': nat)
    requires WellFormed(f) && StartsOf(f, starts) && |starts| > 0 && Ends(f, starts, b, i) && j < |f.instrs|
    requires f.instrs[i].flow == CondJump && LastIn(f, starts, b, |f.instrs|) == Some(i)
    requires Allowed(f.instrs[i].test, r, taken) && Lands(f, i, taken, j)
    ensures b' < |starts| && starts[b'] == f.instrs[j].addr && MayGo(ProgOf(f, starts), b, r, b')
  {
    hide MayGo, MayTest, MayTake, Allowed;
    if taken { b' := TargetBlock(f, starts, i, j); } else {
      NextBlock(f, starts, b, i);
      b' := b + 1;
      BlockAtIs(starts, b + 1);
    }
    CondEdge(f, starts, b, i, taken, b');
    TermGoes(ProgOf(f, starts), b, f.instrs[i].test, r, taken, b');
  }

  /** The edge of a conditional branch for one outcome, and what a foldable terminator says of it. */
  lemma CondEdge(f: Func, starts: seq<nat>, b: nat, i: nat, taken: bool, b': nat)
    requires b < |starts| && i < |f.instrs| && f.instrs[i].flow == CondJump && LastIn(f, starts, b, |f.instrs|) == Some(i)
    requires if taken then b' < |starts| && starts[b'] in f.instrs[i].targets && BlockAt(starts, starts[b']) == Some(b')
             else b' == b + 1 < |starts| && BlockAt(starts, f.instrs[i].addr + f.instrs[i].len) == Some(b')
    ensures
      var p := ProgOf(f, starts);
      && b' in p.succs[b]
      && (p.terms[b].Some? ==> f.instrs[i].test == Some(p.terms[b].value.test))
      && (p.terms[b].Some? ==> b' == if taken then p.terms[b].value.taken else p.terms[b].value.fallthrough)
  {
    hide LastIn, BlockAt, BlockEffects;
    var ins, p := f.instrs[i], ProgOf(f, starts);
    assert p.terms[b] == TermOf(f, starts, b) && p.succs[b] == EdgesOf(f, starts, b) == ComputeEdges(ins, starts, b);
    assert Fallthrough(starts, b) <= p.succs[b];
    if taken { ResolvedIn(starts, ins.targets, starts[b']); } else { assert Fallthrough(starts, b)[0] == b'; }
  }

  lemma ResolvedIn(starts: seq<nat>, targets: seq<nat>, t: nat)
    requires t in targets && BlockAt(starts, t).Some?
    ensures BlockAt(starts, t).value in Resolve(starts, targets)
  {
  }

  lemma TermGoes(p: Prog, b: nat, test: Option<BranchTest>, r: Concrete, taken: bool, b': nat)
    requires ProgOk(p) && b < p.n && Allowed(test, r, taken) && b' in p.succs[b]
    requires p.terms[b].Some? ==> test == Some(p.terms[b].value.test)
    requires p.terms[b].Some? ==> b' == if taken then p.terms[b].value.taken else p.terms[b].value.fallthrough
    ensures MayGo(p, b, r, b')
  {
    hide MayTest, MayTake;
  }

  lemma EffectsNext(f: Func, starts: seq<nat>, b: nat, i: nat)
    requires i < |f.instrs| && InBlock(f, starts, b, f.instrs[i].addr)
    ensures BlockEffects(f, starts, b, i + 1) == BlockEffects(f, starts, b, i) + InsEffects(f, f.instrs[i])
  {
  }

  /** Every block is entered by some run. */
  ghost predicate AllEntered(p: Prog)
    requires ProgOk(p)
  {
    forall i: nat :: i < p.n ==> !NeverEntered(p, i)
  }

  /** A block that ends in a computed jump has an edge to every block, whatever the
      registers: once it is reached, no block is never entered. */
  lemma ComputedJump(f: Func, starts: seq<nat>, run: seq<Config>, i: nat, r: Concrete)
    requires |starts| > 0 && i < |f.instrs| && f.instrs[i].flow == IndirectJump
    requires IsRun(ProgOf(f, starts), run) && run[|run| - 1].block < |starts|
    requires
      var last, p := run[|run| - 1], ProgOf(f, starts);
      LastIn(f, starts, last.block, |f.instrs|) == Some(i) && EffectsRun(p.effects[last.block], last.regs, r)
    ensures AllEntered(ProgOf(f, starts))
  {
    hide EffectsRun, BlockEffects, ProgOf, LastIn;
    var last, p := run[|run| - 1], ProgOf(f, starts);
    assert p.succs[last.block] == AllBlocks(p.n) && p.terms[last.block] == None;
    forall b: nat | b < p.n ensures !NeverEntered(p, b) {
      var longer := run + [Config(b, r)];
      assert AllBlocks(p.n)[b] == b;
      assert Step(p, last, Config(b, r));
      assert IsRun(p, longer) && longer[|run|].block == b;
    }
  }

  /** A step stays inside a block, is a step of the block run, or shows that every
      block is entered. */
  lemma TrackStep(f: Func, starts: seq<nat>, run: seq<Config>, x: Pc, y: Pc) returns (run': seq<Config>)
    requires WellFormed(f) && StartsOf(f, starts) && |starts| > 0 && Tracks(f, starts, run, x) && InsStep(f, x, y)
    ensures Tracks(f, starts, run', y) || AllEntered(ProgOf(f, starts))
    ensures f.instrs[x.at].flow == IndirectJump ==> AllEntered(ProgOf(f, starts))
    ensures f.instrs[x.at].flow != IndirectJump ==> Tracks(f, starts, run', y)
  {
    hide ProgOf, MayGo, BlockEffects, InsEffects, EffectsRun, Branches, Lands, IsStart, AllEntered;
    var last, i, j := run[|run| - 1], x.at, y.at;
    var b := last.block;
    RunConcat(BlockEffects(f, starts, b, i), InsEffects(f, f.instrs[i]), last.regs, x.regs, y.regs);
    EffectsNext(f, starts, b, i);
    run' := run;
    if f.instrs[i].flow != Normal || !InBlock(f, starts, b, f.instrs[j].addr) {
      if f.instrs[i].flow != Normal { TerminatorEnds(f, starts, b, i); } else { InOrder(f, i, j); }
      LastIs(f, starts, b, i, |f.instrs|);
      if f.instrs[i].flow == IndirectJump {
        ComputedJump(f, starts, run, i, y.regs);
      } else {
        var b' := EdgeTaken(f, starts, b, i, y.regs, j);
        run' := run + [Config(b', y.regs)];
        assert Step(ProgOf(f, starts), last, Config(b', y.regs));
        NothingBefore(f, starts, b', j, j);
        BeforeEnd(f, j);
        RunNil(y.regs);
      }
    }
  }

  /** Every run of instructions is followed by a run of blocks, or takes a computed
      jump and then every block is entered. */
  lemma {:induction false} TraceTracked(f: Func, starts: seq<nat>, tr: seq<Pc>, k: nat) returns (run: seq<Config>)
    requires WellFormed(f) && StartsOf(f, starts) && |starts| > 0 && IsTrace(f, tr) && k < |tr|
    ensures Tracks(f, starts, run, tr[k]) || AllEntered(ProgOf(f, starts))
    decreases k
  {
    hide AllEntered;
    if k == 0 {
      var p := ProgOf(f, starts);
      assert f.start in starts;
      run := [Config(p.entry, tr[0].regs)];
      BeforeEnd(f, 0);
      RunNil(tr[0].regs);
    } else {
      run := TraceTracked(f, starts, tr, k - 1);
      assert InsStep(f, tr[k - 1], tr[k - 1 + 1]);
      if Tracks(f, starts, run, tr[k - 1]) { run := TrackStep(f, starts, run, tr[k - 1], tr[k]); }
    }
  }

  // ---- The result for instructions ---------------------------------------------------------------

  /** The blocks by address. */
  function BlocksOf(f: Func, starts: seq<nat>): (bs: seq<Block>)
    ensures |bs| == |starts| && forall b: nat :: b < |starts| ==> bs[b].start == starts[b] && bs[b].end == Upper(f, starts, b)
    ensures forall x :: x in bs ==> x.start <= x.end
  {
    seq(|starts|, b requires 0 <= b < |starts| => Block(starts[b], Upper(f, starts, b)))
  }

  /** The end of a block, never before its start. */
  function Upper(f: Func, starts: seq<nat>, b: nat): (e: nat)
    requires b < |starts|
    ensures e >= starts[b]
  {
    if BlockEnd(f, starts, b) >= starts[b] then BlockEnd(f, starts, b) else starts[b]
  }

  /** No run from the function entry executes an instruction in a block no block run enters. */
  lemma DeadNeverExecuted(f: Func, starts: seq<nat>, i: nat, tr: seq<Pc>, k: nat)
    requires WellFormed(f) && StartsOf(f, starts) && |starts| > 0 && IsTrace(f, tr) && k < |tr|
    requires i < |starts| && NeverEntered(ProgOf(f, starts), i)
    ensures tr[k].at < |f.instrs| && !InBlock(f, starts, i, f.instrs[tr[k].at].addr)
  {
    if k > 0 { assert InsStep(f, tr[k - 1], tr[k - 1 + 1]); }
    var run := TraceTracked(f, starts, tr, k);
    var b := run[|run| - 1].block;
    if b < i { BlocksApart(f, starts, b, i); }
    if i < b { BlocksApart(f, starts, i, b); }
  }

  lemma BlocksApart(f: Func, starts: seq<nat>, b: nat, i: nat)
    requires Strict(starts) && b < i < |starts|
    ensures BlockEnd(f, starts, b) <= starts[i]
  {
    if b + 1 < i { assert starts[b + 1] < starts[i]; }
  }

  /** `a` is executed by some run. */
  ghost predicate Executed(f: Func, a: nat) {
    exists tr: seq<Pc>, k: nat :: IsTrace(f, tr) && k < |tr| && tr[k].at < |f.instrs| && f.instrs[tr[k].at].addr == a
  }

  lemma StartsFound(f: Func, starts: seq<nat>)
    requires Strict(starts) && forall a :: a in starts <==> IsStart(f, a, |f.instrs|)
    ensures StartsOf(f, starts)
  {
  }

  lemma DeadAddress(f: Func, starts: seq<nat>, i: nat, a: nat)
    requires WellFormed(f) && StartsOf(f, starts) && |starts| > 0 && i < |starts| && NeverEntered(ProgOf(f, starts), i)
    requires starts[i] <= a < Upper(f, starts, i)
    ensures !Executed(f, a)
  {
    forall tr: seq<Pc>, k: nat | IsTrace(f, tr) && k < |tr| && tr[k].at < |f.instrs|
      ensures f.instrs[tr[k].at].addr != a
    {
      DeadNeverExecuted(f, starts, i, tr, k);
    }
  }

  /** `dead` is every block the least solution of the function's graph leaves unmarked. */
  ghost predicate Reports(f: Func, starts: seq<nat>, s: Sol, minSize: nat, dead: seq<DeadBlock>) {
    && StartsOf(f, starts) && |starts| > 0 && LeastSolution(ProgOf(f, starts), s)
    && dead == FindSccpDead(BlocksOf(f, starts), s.exec, minSize)
  }

  /**
   From instructions to dead regions: nothing reported is ever executed, on any run
   from the function entry, with any registers and any compare widths.
   */
  method DeadRegions(f: Func, maxInstrs: nat, minSize: nat) returns (dead: seq<DeadBlock>, skipped: bool)
    requires WellFormed(f)
    ensures skipped ==> dead == []
    ensures forall d, a: nat :: d in dead && d.addr <= a < d.addr + d.size ==> !Executed(f, a)
    ensures !skipped ==> exists starts: seq<nat>, s: Sol :: Reports(f, starts, s, minSize, dead)
  {
    hide WellFormed, StartsOf, NeverEntered, InBlock, IsTrace;
    var starts := FindBlockStarts(f);
    assert f.start in starts;
    assert StartsOf(f, starts) by { StartsFound(f, starts); }
    var p, blocks := ProgOf(f, starts), BlocksOf(f, starts);
    dead, skipped := SccpDeadBlocks(blocks, p, |f.instrs|, maxInstrs, minSize);
    if !skipped {
      ghost var s: Sol :| LeastSolution(p, s) && dead == FindSccpDead(blocks, s.exec, minSize);
      assert Reports(f, starts, s, minSize, dead);
    }
    forall d, a: nat | d in dead && d.addr <= a < d.addr + d.size
      ensures !Executed(f, a)
    {
      var i: nat :| i < p.n && NeverEntered(p, i) && d.addr == blocks[i].start && d.addr + d.size == blocks[i].end;
      DeadAddress(f, starts, i, a);
    }
  }
}
