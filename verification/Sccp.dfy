/**
 The worklist solver of the sparse conditional constant propagation
 (src/analysis/sccp.rs:191-496).

 `Sol` is the solver's whole state as a value: register values per block, the
 executable edges, the executable blocks and the worklist.  The class methods
 update the source's `SccpState` and are specified by functions on `Sol`.
 Proved of a run that returns true: no concrete run enters a block left
 unmarked, and the state is the least solution, so the answer does not depend
 on the order of the worklist.  When no block has more than two distinct
 successors the iteration cap is never reached.
 */
module Sccp {
  import opened Wrappers
  import opened Lattice
  import opened SccpModel

  datatype Sol = Sol(vals: seq<Abstract>, edges: set<(nat, nat)>, exec: seq<bool>, work: seq<nat>)

  // ---- One merge (sccp.rs:445-470) -------------------------------------------

  function Joined(old_: Abstract, new_: Abstract): (r: Abstract)
    ensures forall i: Reg :: r[i] == old_[i].Meet(new_[i])
  {
    seq(17, i requires 0 <= i < 17 => old_[i].Meet(new_[i]))
  }

  function Changes(s: Sol, from: nat, to: nat, v: Abstract): bool
    requires to < |s.vals|
  {
    (from, to) !in s.edges || Joined(s.vals[to], v) != s.vals[to]
  }

  function Merge(s: Sol, from: nat, to: nat, v: Abstract): Sol
    requires |s.exec| == |s.vals|
  {
    if to >= |s.vals| then s
    else if Changes(s, from, to, v) then
      Sol(s.vals[to := Joined(s.vals[to], v)], s.edges + {(from, to)}, s.exec[to := true], s.work + [to])
    else s
  }

  /** Merging into each listed successor in turn. */
  function MergeAll(s: Sol, from: nat, tos: seq<nat>, v: Abstract): (r: Sol)
    requires |s.exec| == |s.vals|
    ensures |r.exec| == |r.vals| == |s.vals|
    decreases |tos|
  {
    if tos == [] then s
    else Merge(MergeAll(s, from, tos[..|tos| - 1], v), from, tos[|tos| - 1], v)
  }

  class SccpState {
    var regVals: seq<Abstract>
    var execEdges: set<(nat, nat)>
    var blockExec: seq<bool>

    /** The state together with a worklist. */
    ghost function View(work: seq<nat>): Sol
      reads this
    {
      Sol(regVals, execEdges, blockExec, work)
    }

    constructor (n: nat)
      ensures View([]) == Sol(seq(n, i => seq(17, j => Bot)), {}, seq(n, i => false), [])
    {
      regVals := seq(n, i => seq(17, j => Bot));
      execEdges := {};
      blockExec := seq(n, i => false);
    }

    method MarkEdgeExec(block: nat)
      requires block < |blockExec|
      modifies this`blockExec
      ensures blockExec == old(blockExec)[block := true]
    {
      blockExec := blockExec[block := true];
    }

    method InitEntryRegs(entry: nat)
      requires entry < |regVals|
      modifies this`regVals
      ensures regVals == old(regVals)[entry := seq(17, i => Top)]
    {
      var r := 0;
      while r < REG_COUNT
        invariant r <= 17 && |regVals| == old(|regVals|)
        invariant forall b: nat :: b < |regVals| && b != entry ==> regVals[b] == old(regVals[b])
        invariant forall i: Reg :: i < r ==> regVals[entry][i] == Top
      {
        regVals := regVals[entry := regVals[entry][r := Top]];
        r := r + 1;
      }
      assert regVals[entry] == seq(17, i => Top);
    }

    method MergeAndEnqueue(from: nat, to: nat, vals: Abstract, worklist: seq<nat>) returns (work: seq<nat>)
      requires |blockExec| == |regVals|
      modifies this
      ensures View(work) == Merge(old(View(worklist)), from, to, vals)
    {
      work := worklist;
      if to >= |regVals| {
        return;
      }
      var newExec := (from, to) !in execEdges;
      execEdges := execEdges + {(from, to)};
      var changed := newExec;
      ghost var was := regVals;
      ghost var joined := Joined(was[to], vals);
      var r := 0;
      while r < REG_COUNT
        invariant r <= 17 && |regVals| == |was| && blockExec == old(blockExec)
        invariant execEdges == old(execEdges) + {(from, to)}
        invariant regVals == was[to := regVals[to]]
        invariant forall i: Reg :: regVals[to][i] == if i < r then joined[i] else was[to][i]
        invariant changed <==> newExec || regVals[to] != was[to]
      {
        ghost var cur := regVals[to];
        var newVal := regVals[to][r].Meet(vals[r]);
        if newVal != regVals[to][r] {
          regVals := regVals[to := regVals[to][r := newVal]];
          changed := true;
          assert regVals[to][r] != was[to][r];
        } else {
          assert cur[r] == joined[r];
        }
        r := r + 1;
      }
      assert regVals[to] == joined;
      if changed {
        blockExec := blockExec[to := true];
        work := work + [to];
      } else {
        assert execEdges == old(execEdges);
      }
    }

    method EvalBlock(b: nat, blockEffects: seq<seq<Effect>>) returns (vals: array<Value>)
      requires b < |regVals| && b < |blockEffects|
      ensures fresh(vals) && vals[..] == ApplyAll(blockEffects[b], regVals[b])
    {
      var effs := blockEffects[b];
      var start := regVals[b];
      vals := new Value[17](i requires 0 <= i < 17 => start[i]);
      assert vals[..] == start;
      for k := 0 to |effs|
        invariant vals[..] == ApplyAll(effs[..k], start)
      {
        ApplyAllSplit(effs, k, start);
        ApplyEffect(vals, effs[k]);
      }
      assert effs[..|effs|] == effs;
    }

    method PropagateSuccs(b: nat, vals: Abstract, p: Prog, worklist: seq<nat>) returns (work: seq<nat>)
      requires ProgOk(p) && b < p.n && |blockExec| == |regVals|
      modifies this
      ensures View(work) == MergeAll(old(View(worklist)), b, Targets(p, b, vals), vals)
    {
      work := worklist;
      match Only(p, b, vals)
      case Some(s) =>
        work := MergeAndEnqueue(b, s, vals, work);
        assert [s][..0] == [];
      case None =>
        var ss := p.succs[b];
        for i := 0 to |ss|
          invariant |blockExec| == |regVals|
          invariant View(work) == MergeAll(old(View(worklist)), b, ss[..i], vals)
        {
          assert ss[..i + 1][..i] == ss[..i];
          work := MergeAndEnqueue(b, ss[i], vals, work);
        }
        assert ss[..|ss|] == ss;
    }
  }

  // ---- Effects, in place (sccp.rs:271-366) ------------------------------------------

  method ApplyEffect(vals: array<Value>, e: Effect)
    requires vals.Length == 17
    modifies vals
    ensures vals[..] == Apply(e, old(vals[..]))
  {
    match e
    case MovConst(d, c) => vals[d] := Const(c);
    case MovReg(d, s) => vals[d] := vals[s];
    case BinOpReg(d, op, a, b) => vals[d] := EvalBinop(op, vals[a], vals[b]);
    case BinOpImm(d, op, a, imm) => vals[d] := EvalBinop(op, vals[a], Const(imm));
    case CmpReg(a, b) => ApplyCmpReg(vals, a, b);
    case CmpImm(a, imm) => ApplyCmpImm(vals, a, imm);
    case TestReg(a, b) => ApplyTestReg(vals, a, b);
    case TestImm(a, imm) => ApplyTestImm(vals, a, imm);
    case Clobber(d) => vals[d] := Top;
    case Nop =>
  }

  method ApplyCmpReg(vals: array<Value>, a: Reg, b: Reg)
    requires vals.Length == 17
    modifies vals
    ensures vals[..] == old(vals[..])[FLAGS_REG := Difference(old(vals[a]), old(vals[b]))]
  {
    vals[FLAGS_REG] := Difference(vals[a], vals[b]);
  }

  method ApplyCmpImm(vals: array<Value>, a: Reg, imm: Word)
    requires vals.Length == 17
    modifies vals
    ensures vals[..] == old(vals[..])[FLAGS_REG := Difference(old(vals[a]), Const(imm))]
  {
    vals[FLAGS_REG] := Difference(vals[a], Const(imm));
  }

  method ApplyTestReg(vals: array<Value>, a: Reg, b: Reg)
    requires vals.Length == 17
    modifies vals
    ensures vals[..] == old(vals[..])[FLAGS_REG := CommonBits(old(vals[a]), old(vals[b]))]
  {
    vals[FLAGS_REG] := CommonBits(vals[a], vals[b]);
  }

  method ApplyTestImm(vals: array<Value>, a: Reg, imm: Word)
    requires vals.Length == 17
    modifies vals
    ensures vals[..] == old(vals[..])[FLAGS_REG := CommonBits(old(vals[a]), Const(imm))]
  {
    vals[FLAGS_REG] := CommonBits(vals[a], Const(imm));
  }

  // ---- Solutions -----------------------------------------------------------------------

  predicate LeqAll(a: Abstract, b: Abstract) { forall i: Reg :: Leq(a[i], b[i]) }

  predicate NoBot(a: Abstract) { forall i: Reg :: !a[i].Bot? }

  predicate AllTop(a: Abstract) { forall i: Reg :: a[i].Top? }

  /** Block `t`, if it exists, is executable and admits the values `out`. */
  predicate Received(s: Sol, t: nat, out: Abstract)
    requires |s.exec| == |s.vals|
  {
    t < |s.vals| ==> s.exec[t] && LeqAll(out, s.vals[t])
  }

  predicate AllReceived(s: Sol, ts: seq<nat>, out: Abstract)
    requires |s.exec| == |s.vals|
  {
    forall k: nat :: k < |ts| ==> Received(s, ts[k], out)
  }

  /** Block `b` has passed its values on. */
  predicate Stable(p: Prog, s: Sol, b: nat)
    requires ProgOk(p) && |s.exec| == |s.vals| == p.n && b < p.n
  {
    var out := ApplyAll(p.effects[b], s.vals[b]);
    AllReceived(s, Targets(p, b, out), out)
  }

  /** What every solver state satisfies. */
  predicate Base(p: Prog, s: Sol) {
    && ProgOk(p) && |s.exec| == |s.vals| == p.n
    && s.exec[p.entry] && AllTop(s.vals[p.entry])
    && (forall b: nat :: b < p.n && s.exec[b] ==> NoBot(s.vals[b]))
    && (forall e :: e in s.edges ==> e.0 < p.n && e.1 < p.n && e.1 in p.succs[e.0] && s.exec[e.1])
    && (forall k: nat :: k < |s.work| ==> s.work[k] < p.n)
  }

  /** Every executable block outside the worklist is stable, `b` apart. */
  ghost predicate StableBut(p: Prog, s: Sol, b: nat)
    requires ProgOk(p) && |s.exec| == |s.vals| == p.n
  {
    forall c: nat {:trigger Stable(p, s, c)} :: c < p.n && c != b && s.exec[c] && c !in s.work ==> Stable(p, s, c)
  }

  ghost predicate Solution(p: Prog, s: Sol) {
    Base(p, s) && forall c: nat {:trigger Stable(p, s, c)} :: c < p.n && s.exec[c] ==> Stable(p, s, c)
  }

  /** `s` marks no more and promises no less precise values than `o`. */
  predicate Below(s: Sol, o: Sol) {
    && |s.vals| == |s.exec| == |o.vals| == |o.exec|
    && forall b: nat :: b < |s.vals| && s.exec[b] ==> o.exec[b] && LeqAll(s.vals[b], o.vals[b])
  }

  lemma JoinedLub(a: Abstract, b: Abstract, c: Abstract)
    ensures LeqAll(a, Joined(a, b)) && LeqAll(b, Joined(a, b))
    ensures LeqAll(a, c) && LeqAll(b, c) ==> LeqAll(Joined(a, b), c)
  {
    forall i: Reg ensures Leq(a[i], Joined(a, b)[i]) && Leq(b[i], Joined(a, b)[i]) { }
  }

  lemma LeqAllTrans(a: Abstract, b: Abstract, c: Abstract)
    requires LeqAll(a, b) && LeqAll(b, c)
    ensures LeqAll(a, c)
  {
  }

  /** A merge only raises: what a block had received it still has. */
  lemma MergeRaises(s: Sol, from: nat, to: nat, v: Abstract, t: nat, out: Abstract)
    requires |s.exec| == |s.vals| && Received(s, t, out)
    ensures Received(Merge(s, from, to, v), t, out)
  {
    if t == to && to < |s.vals| {
      JoinedLub(s.vals[to], v, v);
      LeqAllTrans(out, s.vals[to], Joined(s.vals[to], v));
    }
  }

  lemma MergeStable(p: Prog, s: Sol, from: nat, to: nat, v: Abstract, c: nat)
    requires ProgOk(p) && |s.exec| == |s.vals| == p.n && c < p.n && Stable(p, s, c)
    requires Merge(s, from, to, v).vals[c] == s.vals[c]
    ensures Stable(p, Merge(s, from, to, v), c)
  {
    var out := ApplyAll(p.effects[c], s.vals[c]);
    var ts := Targets(p, c, out);
    forall k: nat | k < |ts| ensures Received(Merge(s, from, to, v), ts[k], out) {
      MergeRaises(s, from, to, v, ts[k], out);
    }
  }

  lemma MergeBase(p: Prog, s: Sol, from: nat, to: nat, v: Abstract)
    requires Base(p, s) && NoBot(v) && from < p.n && to in p.succs[from]
    requires forall e :: e in s.edges && e.0 == from ==> e.1 < p.n
    ensures Base(p, Merge(s, from, to, v))
  {
    if to < p.n {
      var j := Joined(s.vals[to], v);
      forall i: Reg ensures !j[i].Bot? { }
      if to == p.entry { forall i: Reg ensures j[i].Top? { } }
    }
  }

  lemma MergeReceives(s: Sol, from: nat, to: nat, v: Abstract, had: bool)
    requires |s.exec| == |s.vals|
    requires forall e :: e in s.edges ==> e.1 < |s.exec| && s.exec[e.1]
    ensures Received(Merge(s, from, to, v), to, v)
  {
    if to < |s.vals| {
      JoinedLub(s.vals[to], v, v);
    }
  }

  lemma MergeStableBut(p: Prog, s: Sol, b: nat, to: nat, v: Abstract)
    requires Base(p, s) && StableBut(p, s, b)
    ensures StableBut(p, Merge(s, b, to, v), b)
  {
    var t := Merge(s, b, to, v);
    forall c: nat | c < p.n && c != b && t.exec[c] && c !in t.work ensures Stable(p, t, c) {
      if to < p.n && Changes(s, b, to, v) {
        assert t.work[|s.work|] == to;
        assert forall x :: x in s.work ==> x in t.work;
      }
      assert Stable(p, s, c);
      MergeStable(p, s, b, to, v, c);
    }
  }

  // ---- One block: all its merges ---------------------------------------------------------

  /** The state in the middle of passing `out` from `b` to the blocks `ts`. */
  ghost predicate Passing(p: Prog, s0: Sol, s: Sol, b: nat, ts: seq<nat>, out: Abstract) {
    && Base(p, s) && b < p.n && |s0.vals| == p.n && StableBut(p, s, b)
    && AllReceived(s, ts, out)
    && (s.vals[b] == s0.vals[b] || b in s.work)
  }

  lemma PassingStep(p: Prog, s0: Sol, s: Sol, b: nat, ts: seq<nat>, to: nat, out: Abstract)
    requires Passing(p, s0, s, b, ts, out) && NoBot(out) && to in p.succs[b]
    ensures Passing(p, s0, Merge(s, b, to, out), b, ts + [to], out)
  {
    var t := Merge(s, b, to, out);
    MergeBase(p, s, b, to, out);
    MergeStableBut(p, s, b, to, out);
    MergeReceives(s, b, to, out, true);
    var us := ts + [to];
    forall k: nat | k < |us| ensures Received(t, us[k], out) {
      if k < |ts| {
        assert us[k] == ts[k];
        MergeRaises(s, b, to, out, ts[k], out);
      }
    }
    if to < p.n && Changes(s, b, to, out) { assert t.work[|s.work|] == to; }
    assert forall x :: x in s.work ==> x in t.work;
  }

  lemma {:induction false} PassingAll(p: Prog, s: Sol, b: nat, ts: seq<nat>, out: Abstract)
    requires Base(p, s) && b < p.n && StableBut(p, s, b) && NoBot(out)
    requires forall k: nat :: k < |ts| ==> ts[k] in p.succs[b]
    ensures Passing(p, s, MergeAll(s, b, ts, out), b, ts, out)
    decreases |ts|
  {
    if ts != [] {
      var k := |ts| - 1;
      PassingAll(p, s, b, ts[..k], out);
      PassingStep(p, s, MergeAll(s, b, ts[..k], out), b, ts[..k], ts[k], out);
      assert ts[..k] + [ts[k]] == ts;
    }
  }

  lemma {:induction false} ApplyAllNoBot(effs: seq<Effect>, v: Abstract)
    requires NoBot(v)
    ensures NoBot(ApplyAll(effs, v))
    decreases |effs|
  {
    if effs != [] {
      forall i: Reg ensures !Apply(effs[0], v)[i].Bot? { }
      ApplyAllNoBot(effs[1..], Apply(effs[0], v));
    }
  }

  lemma TargetsListed(p: Prog, b: nat, v: Abstract)
    requires ProgOk(p) && b < p.n
    ensures forall k: nat :: k < |Targets(p, b, v)| ==> Targets(p, b, v)[k] in p.succs[b]
  {
  }

  /** One round of the worklist loop keeps the invariant. */
  ghost predicate Inv(p: Prog, s: Sol) {
    Base(p, s) && StableBut(p, s, p.n)
  }

  function Visit(p: Prog, s: Sol): Sol
    requires ProgOk(p) && |s.exec| == |s.vals| == p.n && |s.work| > 0 && s.work[0] < p.n
  {
    var b := s.work[0];
    var out := ApplyAll(p.effects[b], s.vals[b]);
    MergeAll(s.(work := s.work[1..]), b, Targets(p, b, out), out)
  }

  lemma VisitKeeps(p: Prog, s: Sol)
    requires Inv(p, s) && |s.work| > 0 && s.work[0] < p.n && s.exec[s.work[0]]
    ensures Inv(p, Visit(p, s))
  {
    var b := s.work[0];
    var s1 := s.(work := s.work[1..]);
    var out := ApplyAll(p.effects[b], s.vals[b]);
    var ts := Targets(p, b, out);
    forall c: nat | c < p.n && c != b && s1.exec[c] && c !in s1.work ensures Stable(p, s1, c) {
      assert s.work == [b] + s.work[1..];
      assert Stable(p, s, c);
    }
    ApplyAllNoBot(p.effects[b], s.vals[b]);
    TargetsListed(p, b, out);
    PassingAll(p, s1, b, ts, out);
    var t := MergeAll(s1, b, ts, out);
    forall c: nat | c < p.n && c != p.n && t.exec[c] && c !in t.work ensures Stable(p, t, c) { }
  }

  // ---- The least solution ---------------------------------------------------------------

  lemma ResultMonotone(e: Effect, v: Abstract, w: Abstract)
    requires LeqAll(v, w)
    ensures Leq(Result(e, v), Result(e, w))
  {
    match e
    case BinOpReg(_, op, a, b) => BinopMonotone(op, v[a], v[b], w[a], w[b]);
    case BinOpImm(_, op, a, imm) => BinopMonotone(op, v[a], Const(imm), w[a], Const(imm));
    case CmpReg(a, b) => FlagsMonotone(v[a], v[b], w[a], w[b]);
    case CmpImm(a, imm) => FlagsMonotone(v[a], Const(imm), w[a], Const(imm));
    case TestReg(a, b) => FlagsMonotone(v[a], v[b], w[a], w[b]);
    case TestImm(a, imm) => FlagsMonotone(v[a], Const(imm), w[a], Const(imm));
    case _ =>
  }

  lemma {:induction false} ApplyAllMonotone(effs: seq<Effect>, v: Abstract, w: Abstract)
    requires LeqAll(v, w)
    ensures LeqAll(ApplyAll(effs, v), ApplyAll(effs, w))
    decreases |effs|
  {
    if effs != [] {
      ResultMonotone(effs[0], v, w);
      ApplyAllMonotone(effs[1..], Apply(effs[0], v), Apply(effs[0], w));
    }
  }

  /** Less precise values never drop a successor. */
  lemma TargetsMonotone(p: Prog, b: nat, v: Abstract, w: Abstract, t: nat)
    requires ProgOk(p) && b < p.n && LeqAll(v, w) && NoBot(v) && t in Targets(p, b, v)
    ensures t in Targets(p, b, w)
  {
    if Only(p, b, w).Some? {
      TestedMonotone(p.terms[b].value.test.src, v, w);
    } else {
      TargetsListed(p, b, v);
    }
  }

  lemma TestedMonotone(src: TestSrc, v: Abstract, w: Abstract)
    requires LeqAll(v, w) && NoBot(v) && TestedZero(src, w).Some?
    ensures TestedZero(src, v) == TestedZero(src, w)
  {
    match src
    case Flags =>
      assert Leq(v[16], w[16]) && !v[16].Bot?;
      assert v[16] == w[16];
    case RegBits(r, mask) =>
      assert Leq(v[r], w[r]) && !v[r].Bot?;
      assert v[r] == w[r];
  }

  lemma MergeBelow(s: Sol, o: Sol, from: nat, to: nat, v: Abstract)
    requires Below(s, o) && Received(o, to, v)
    requires forall e :: e in s.edges ==> e.1 < |s.exec| && s.exec[e.1]
    requires to < |s.vals| && !s.exec[to] ==> forall i: Reg :: s.vals[to][i].Bot?
    ensures Below(Merge(s, from, to, v), o)
  {
    if to < |s.vals| { JoinedLub(s.vals[to], v, o.vals[to]); }
  }

  /** Blocks not yet marked hold nothing. */
  predicate Fresh(s: Sol)
    requires |s.exec| == |s.vals|
  {
    forall b: nat, i: Reg :: b < |s.vals| && !s.exec[b] ==> s.vals[b][i].Bot?
  }

  lemma MergeFresh(s: Sol, from: nat, to: nat, v: Abstract)
    requires |s.exec| == |s.vals| && Fresh(s)
    ensures Fresh(Merge(s, from, to, v))
  {
  }

  lemma {:induction false} MergeAllBelow(p: Prog, s: Sol, o: Sol, b: nat, ts: seq<nat>, v: Abstract)
    requires Base(p, s) && Below(s, o) && Fresh(s) && NoBot(v) && b < p.n
    requires forall k: nat :: k < |ts| ==> ts[k] in p.succs[b] && Received(o, ts[k], v)
    ensures Base(p, MergeAll(s, b, ts, v)) && Below(MergeAll(s, b, ts, v), o) && Fresh(MergeAll(s, b, ts, v))
    decreases |ts|
  {
    if ts != [] {
      var k := |ts| - 1;
      MergeAllBelow(p, s, o, b, ts[..k], v);
      var m := MergeAll(s, b, ts[..k], v);
      MergeBase(p, m, b, ts[k], v);
      MergeFresh(m, b, ts[k], v);
      MergeBelow(m, o, b, ts[k], v);
    }
  }

  lemma VisitBelow(p: Prog, s: Sol, o: Sol)
    requires Base(p, s) && Fresh(s) && |s.work| > 0 && s.work[0] < p.n && s.exec[s.work[0]]
    requires Below(s, o) && Solution(p, o)
    ensures Below(Visit(p, s), o)
  {
    var b := s.work[0];
    var out := ApplyAll(p.effects[b], s.vals[b]);
    var outO := ApplyAll(p.effects[b], o.vals[b]);
    ApplyAllMonotone(p.effects[b], s.vals[b], o.vals[b]);
    ApplyAllNoBot(p.effects[b], s.vals[b]);
    TargetsListed(p, b, out);
    assert Stable(p, o, b);
    var ts := Targets(p, b, out);
    forall k: nat | k < |ts| ensures Received(o, ts[k], out) {
      TargetsMonotone(p, b, out, outO, ts[k]);
      var j :| 0 <= j < |Targets(p, b, outO)| && Targets(p, b, outO)[j] == ts[k];
      assert Received(o, Targets(p, b, outO)[j], outO);
      if ts[k] < p.n { LeqAllTrans(out, outO, o.vals[ts[k]]); }
    }
    MergeAllBelow(p, s.(work := s.work[1..]), o, b, ts, out);
  }

  lemma VisitFresh(p: Prog, s: Sol)
    requires Base(p, s) && Fresh(s) && |s.work| > 0 && s.work[0] < p.n
    ensures Fresh(Visit(p, s))
  {
    var b := s.work[0];
    var out := ApplyAll(p.effects[b], s.vals[b]);
    MergeAllFresh(s.(work := s.work[1..]), b, Targets(p, b, out), out);
  }

  lemma {:induction false} MergeAllFresh(s: Sol, b: nat, ts: seq<nat>, v: Abstract)
    requires |s.exec| == |s.vals| && Fresh(s)
    ensures Fresh(MergeAll(s, b, ts, v))
    decreases |ts|
  {
    if ts != [] { MergeAllFresh(s, b, ts[..|ts| - 1], v); }
  }

  // ---- How often a block is queued ---------------------------------------------------------

  function TopCount(v: seq<Value>): nat {
    if v == [] then 0 else TopCount(v[..|v| - 1]) + (if v[|v| - 1].Top? then 1 else 0)
  }

  lemma {:induction false} TopCountRises(a: seq<Value>, b: seq<Value>)
    requires |a| == |b| && forall i :: 0 <= i < |a| && a[i].Top? ==> b[i].Top?
    ensures TopCount(a) <= TopCount(b) <= |b|
    ensures (exists i :: 0 <= i < |a| && !a[i].Top? && b[i].Top?) ==> TopCount(a) < TopCount(b)
    decreases |a|
  {
    if a != [] {
      var k := |a| - 1;
      TopCountRises(a[..k], b[..k]);
      if i :| 0 <= i < |a| && !a[i].Top? && b[i].Top? {
        if i < k { assert !a[..k][i].Top? && b[..k][i].Top?; }
      }
    }
  }

  /** The Top registers of every block but the entry, which is all Top. */
  function Tops(vals: seq<Abstract>, entry: nat): nat {
    if vals == [] then 0
    else
      var k := |vals| - 1;
      Tops(vals[..k], entry) + (if k == entry then 0 else TopCount(vals[k]))
  }

  lemma {:induction false} TopsBound(vals: seq<Abstract>, entry: nat)
    ensures Tops(vals, entry) <= 17 * (if entry < |vals| then |vals| - 1 else |vals|)
    decreases |vals|
  {
    if vals != [] {
      var k := |vals| - 1;
      TopsBound(vals[..k], entry);
      TopCountRises(vals[k], vals[k]);
    }
  }

  lemma {:induction false} TopsUpdate(vals: seq<Abstract>, entry: nat, t: nat, v: Abstract)
    requires t < |vals|
    ensures Tops(vals[t := v], entry) == Tops(vals, entry) + (if t == entry then 0 else TopCount(v) - TopCount(vals[t]))
    decreases |vals|
  {
    var k := |vals| - 1;
    if t < k {
      TopsUpdate(vals[..k], entry, t, v);
      assert vals[t := v][..k] == vals[..k][t := v];
    } else {
      assert vals[t := v][..k] == vals[..k];
    }
  }

  /** Queue length, edges and Tops: a push is paid by an edge or a new Top. */
  function Spent(p: Prog, s: Sol): int { |s.work| - |s.edges| - Tops(s.vals, p.entry) }

  lemma MergePays(p: Prog, s: Sol, from: nat, to: nat, v: Abstract)
    requires Base(p, s) && NoBot(v)
    ensures Spent(p, Merge(s, from, to, v)) <= Spent(p, s)
  {
    if to < p.n && Changes(s, from, to, v) {
      var a, j := s.vals[to], Joined(s.vals[to], v);
      TopsUpdate(s.vals, p.entry, to, j);
      TopCountRises(a, j);
      if (from, to) in s.edges {
        assert s.exec[to] && NoBot(a);
        var i: Reg :| j[i] != a[i] by { ChangedAt(a, j); }
        assert !a[i].Top? && j[i].Top?;
        assert s.edges + {(from, to)} == s.edges;
      }
    }
  }

  lemma ChangedAt(a: Abstract, b: Abstract)
    requires a != b
    ensures exists i: Reg :: b[i] != a[i]
  {
    var i :| 0 <= i < 17 && a[i] != b[i];
    assert b[i] != a[i];
  }

  lemma {:induction false} MergeAllPays(p: Prog, s: Sol, b: nat, ts: seq<nat>, v: Abstract)
    requires Base(p, s) && NoBot(v) && b < p.n
    requires forall k: nat :: k < |ts| ==> ts[k] in p.succs[b]
    ensures Base(p, MergeAll(s, b, ts, v)) && Spent(p, MergeAll(s, b, ts, v)) <= Spent(p, s)
    decreases |ts|
  {
    if ts != [] {
      var k := |ts| - 1;
      MergeAllPays(p, s, b, ts[..k], v);
      MergeBase(p, MergeAll(s, b, ts[..k], v), b, ts[k], v);
      MergePays(p, MergeAll(s, b, ts[..k], v), b, ts[k], v);
    }
  }

  lemma VisitPays(p: Prog, s: Sol)
    requires Base(p, s) && |s.work| > 0 && s.work[0] < p.n && s.exec[s.work[0]]
    ensures Spent(p, Visit(p, s)) <= Spent(p, s) - 1
  {
    var b := s.work[0];
    var out := ApplyAll(p.effects[b], s.vals[b]);
    ApplyAllNoBot(p.effects[b], s.vals[b]);
    TargetsListed(p, b, out);
    MergeAllPays(p, s.(work := s.work[1..]), b, Targets(p, b, out), out);
  }

  // ---- Edges of the graph -----------------------------------------------------------------------

  function EdgesFrom(u: nat, n: nat, ss: seq<nat>): set<(nat, nat)> {
    if ss == [] then {}
    else EdgesFrom(u, n, ss[..|ss| - 1]) + (if ss[|ss| - 1] < n then {(u, ss[|ss| - 1])} else {})
  }

  function EdgesBelow(p: Prog, k: nat): set<(nat, nat)>
    requires ProgOk(p) && k <= p.n
  {
    if k == 0 then {} else EdgesBelow(p, k - 1) + EdgesFrom(k - 1, p.n, p.succs[k - 1])
  }

  lemma {:induction false} EdgesFromHas(u: nat, n: nat, ss: seq<nat>, v: nat)
    requires v in ss && v < n
    ensures (u, v) in EdgesFrom(u, n, ss)
    decreases |ss|
  {
    var k := |ss| - 1;
    assert ss == ss[..k] + [ss[k]];
    if ss[k] != v { EdgesFromHas(u, n, ss[..k], v); }
  }

  lemma {:induction false} EdgesBelowHas(p: Prog, k: nat, u: nat, v: nat)
    requires ProgOk(p) && u < k <= p.n && v < p.n && v in p.succs[u]
    ensures (u, v) in EdgesBelow(p, k)
    decreases k
  {
    if u == k - 1 { EdgesFromHas(u, p.n, p.succs[u], v); } else { EdgesBelowHas(p, k - 1, u, v); }
  }

  lemma EdgesFit(p: Prog, s: Sol)
    requires Base(p, s)
    ensures |s.edges| <= |EdgesBelow(p, p.n)|
  {
    forall e | e in s.edges ensures e in EdgesBelow(p, p.n) { EdgesBelowHas(p, p.n, e.0, e.1); }
    SubsetCard(s.edges, EdgesBelow(p, p.n));
  }

  lemma {:induction false} SubsetCard<T>(a: set<T>, b: set<T>)
    requires a <= b
    ensures |a| <= |b|
    decreases |a|
  {
    if a != {} {
      var x :| x in a;
      SubsetCard(a - {x}, b - {x});
    }
  }

  /** Block `u` has at most two distinct successors inside the function. */
  predicate TwoWay(p: Prog, u: nat)
    requires ProgOk(p) && u < p.n
  {
    |EdgesFrom(u, p.n, p.succs[u])| <= 2
  }

  lemma {:induction false} TwoWayEdges(p: Prog, k: nat)
    requires ProgOk(p) && k <= p.n && forall u: nat :: u < k ==> TwoWay(p, u)
    ensures |EdgesBelow(p, k)| <= 2 * k
    decreases k
  {
    if k > 0 {
      TwoWayEdges(p, k - 1);
      assert TwoWay(p, k - 1);
      UnionCard(EdgesBelow(p, k - 1), EdgesFrom(k - 1, p.n, p.succs[k - 1]));
    }
  }

  lemma UnionCard<T>(a: set<T>, b: set<T>)
    ensures |a + b| <= |a| + |b|
  {
    assert a + b == a + (b - a);
    SubsetCard(b - a, b);
  }

  // ---- The worklist loop (sccp.rs:223-248) -------------------------------------------------------

  /** The state at the head of the loop. */
  ghost predicate AtHead(p: Prog, s: Sol) { Inv(p, s) && Fresh(s) }

  ghost predicate BelowAll(p: Prog, s: Sol) {
    forall o :: Solution(p, o) ==> Below(s, o)
  }

  lemma SkipKeeps(p: Prog, s: Sol)
    requires AtHead(p, s) && |s.work| > 0 && !s.exec[s.work[0]]
    ensures AtHead(p, s.(work := s.work[1..]))
  {
    var t := s.(work := s.work[1..]);
    forall c: nat | c < p.n && c != p.n && t.exec[c] && c !in t.work ensures Stable(p, t, c) {
      assert s.work == [s.work[0]] + s.work[1..];
      assert Stable(p, s, c);
    }
  }

  lemma VisitHead(p: Prog, s: Sol)
    requires AtHead(p, s) && |s.work| > 0 && s.exec[s.work[0]]
    ensures AtHead(p, Visit(p, s)) && Spent(p, Visit(p, s)) <= Spent(p, s) - 1
    ensures BelowAll(p, s) ==> BelowAll(p, Visit(p, s))
  {
    VisitKeeps(p, s);
    VisitFresh(p, s);
    VisitPays(p, s);
    if BelowAll(p, s) {
      forall o | Solution(p, o) ensures Below(Visit(p, s), o) { VisitBelow(p, s, o); }
    }
  }

  /** All registers of the entry unknown, nothing else reached. */
  function InitialSol(p: Prog): Sol
    requires ProgOk(p)
  {
    Sol(seq(p.n, i => seq(17, j => Bot))[p.entry := seq(17, i => Top)], {}, seq(p.n, i => false)[p.entry := true], [p.entry])
  }

  lemma InitialHead(p: Prog)
    requires ProgOk(p)
    ensures AtHead(p, InitialSol(p)) && BelowAll(p, InitialSol(p)) && Spent(p, InitialSol(p)) == 1
  {
    var s := InitialSol(p);
    forall o | Solution(p, o) ensures Below(s, o) {
      forall i: Reg ensures Leq(s.vals[p.entry][i], o.vals[p.entry][i]) { }
    }
    TopsUpdate(seq(p.n, i => seq(17, j => Bot)), p.entry, p.entry, seq(17, i => Top));
    NoTops(p.n, p.entry);
  }

  lemma {:induction false} NoTops(n: nat, entry: nat)
    ensures Tops(seq(n, i => seq(17, j => Bot)), entry) == 0
    decreases n
  {
    if n > 0 {
      NoTops(n - 1, entry);
      assert seq(n, i => seq(17, j => Bot))[..n - 1] == seq(n - 1, i => seq(17, j => Bot));
      NoTopRegs(seq(17, j => Bot));
    }
  }

  lemma {:induction false} NoTopRegs(v: seq<Value>)
    requires forall i :: 0 <= i < |v| ==> v[i].Bot?
    ensures TopCount(v) == 0
    decreases |v|
  {
    if v != [] { NoTopRegs(v[..|v| - 1]); }
  }

  /** The most blocks the loop can take from the worklist. */
  function PopBound(p: Prog): nat
    requires ProgOk(p)
  {
    1 + |EdgesBelow(p, p.n)| + 17 * (p.n - 1)
  }

  lemma PopsBounded(p: Prog, s: Sol)
    requires Base(p, s)
    ensures |s.work| <= Spent(p, s) + PopBound(p) - 1
  {
    EdgesFit(p, s);
    TopsBound(s.vals, p.entry);
  }

  method RunSccp(state: SccpState, p: Prog) returns (converged: bool)
    requires ProgOk(p)
    requires state.regVals == seq(p.n, i => seq(17, j => Bot)) && state.execEdges == {}
    requires state.blockExec == seq(p.n, i => false)[p.entry := true]
    modifies state
    ensures |state.blockExec| == |state.regVals| == p.n
    ensures converged ==> Solution(p, state.View([])) && BelowAll(p, state.View([]))
    ensures PopBound(p) <= 20 * p.n ==> converged
  {
    state.InitEntryRegs(p.entry);
    var worklist := [p.entry];
    assert state.View(worklist) == InitialSol(p);
    InitialHead(p);
    var iterations := 0;
    var maxIter := p.n * 20;
    while |worklist| > 0
      invariant AtHead(p, state.View(worklist)) && BelowAll(p, state.View(worklist))
      invariant iterations + Spent(p, state.View(worklist)) <= 1
      decreases maxIter - iterations
    {
      var b := worklist[0];
      ghost var s := state.View(worklist);
      PopsBounded(p, s);
      worklist := worklist[1..];
      iterations := iterations + 1;
      if iterations > maxIter {
        return false;
      }
      if !state.blockExec[b] {
        SkipKeeps(p, s);
        continue;
      }
      VisitHead(p, s);
      var newVals := state.EvalBlock(b, p.effects);
      worklist := state.PropagateSuccs(b, newVals[..], p, worklist);
    }
    converged := true;
  }

  /** At most two successors a block: the cap of 20 visits a block suffices. */
  lemma CapSuffices(p: Prog)
    requires ProgOk(p) && forall u: nat :: u < p.n ==> TwoWay(p, u)
    ensures PopBound(p) <= 1 + 2 * p.n + 17 * (p.n - 1) < 20 * p.n
  {
    TwoWayEdges(p, p.n);
  }

  // ---- Soundness over concrete runs -----------------------------------------------------------------

  /** Every block a run enters is marked, and its values describe the registers. */
  lemma {:induction false} RunsStayMarked(p: Prog, s: Sol, run: seq<Config>, i: nat)
    requires Solution(p, s) && IsRun(p, run) && i < |run|
    ensures run[i].block < p.n && s.exec[run[i].block] && Models(s.vals[run[i].block], run[i].regs)
    decreases i
  {
    if i == 0 {
      forall k: Reg ensures Stands(s.vals[p.entry][k], run[0].regs[k]) { }
    } else {
      RunsStayMarked(p, s, run, i - 1);
      var x, y := run[i - 1], run[i];
      assert Step(p, x, y);
      StepStaysMarked(p, s, x, y);
    }
  }

  lemma StepStaysMarked(p: Prog, s: Sol, x: Config, y: Config)
    requires Solution(p, s) && Step(p, x, y) && s.exec[x.block] && Models(s.vals[x.block], x.regs)
    ensures s.exec[y.block] && Models(s.vals[y.block], y.regs)
  {
    var out := ApplyAll(p.effects[x.block], s.vals[x.block]);
    ApplyAllSound(p.effects[x.block], s.vals[x.block], x.regs, y.regs);
    TargetsSound(p, x.block, out, y.regs, y.block);
    assert Stable(p, s, x.block);
    var ts := Targets(p, x.block, out);
    var k :| 0 <= k < |ts| && ts[k] == y.block;
    assert Received(s, ts[k], out);
    forall j: Reg ensures Stands(s.vals[y.block][j], y.regs[j]) {
      assert Leq(out[j], s.vals[y.block][j]) && Stands(out[j], y.regs[j]);
    }
  }

  // ---- Dead blocks (sccp.rs:32-65, 473-496) ------------------------------------------------------------

  datatype Block = Block(start: nat, end: nat)
  datatype DeadBlock = DeadBlock(addr: nat, size: nat)

  predicate Reported(blocks: seq<Block>, exec: seq<bool>, minSize: nat, i: nat, d: DeadBlock)
    requires |blocks| == |exec| && i < |blocks|
  {
    && !exec[i] && blocks[i].end - blocks[i].start >= minSize
    && d.addr == blocks[i].start && d.addr + d.size == blocks[i].end
  }

  /** The blocks never marked, if long enough to report. */
  function FindSccpDead(blocks: seq<Block>, exec: seq<bool>, minSize: nat): (dead: seq<DeadBlock>)
    requires |blocks| == |exec| && forall b :: b in blocks ==> b.start <= b.end
    ensures forall d :: d in dead <==> exists i: nat :: i < |blocks| && Reported(blocks, exec, minSize, i, d)
    decreases |blocks|
  {
    if blocks == [] then []
    else
      var k := |blocks| - 1;
      var rest := FindSccpDead(blocks[..k], exec[..k], minSize);
      var size := blocks[k].end - blocks[k].start;
      assert forall i: nat, d :: i < k ==>
        (Reported(blocks, exec, minSize, i, d) <==> Reported(blocks[..k], exec[..k], minSize, i, d));
      var last := DeadBlock(blocks[k].start, size);
      if !exec[k] && size >= minSize then
        assert Reported(blocks, exec, minSize, k, last);
        rest + [last]
      else rest
  }

  /** No concrete run enters block `i`. */
  ghost predicate NeverEntered(p: Prog, i: nat)
    requires ProgOk(p)
  {
    forall run: seq<Config>, j: nat :: IsRun(p, run) && j < |run| ==> run[j].block != i
  }

  /** A reported region is a block of the function that no run enters. */
  ghost predicate TrulyDead(blocks: seq<Block>, p: Prog, d: DeadBlock)
    requires ProgOk(p) && |blocks| == p.n
  {
    exists i: nat :: i < p.n && NeverEntered(p, i) && d.addr == blocks[i].start && d.addr + d.size == blocks[i].end
  }

  /** The least solution: what the solver marks, no more and no less. */
  ghost predicate LeastSolution(p: Prog, s: Sol)
    requires ProgOk(p)
  {
    Solution(p, s) && BelowAll(p, s) && |s.exec| == p.n
  }

  method SccpDeadBlocks(blocks: seq<Block>, p: Prog, instrCount: nat, maxInstrs: nat, minSize: nat)
    returns (dead: seq<DeadBlock>, skipped: bool)
    requires ProgOk(p) && |blocks| == p.n && forall b :: b in blocks ==> b.start <= b.end
    ensures skipped ==> dead == []
    ensures forall d :: d in dead ==> TrulyDead(blocks, p, d)
    ensures !skipped ==> exists s: Sol :: LeastSolution(p, s) && dead == FindSccpDead(blocks, s.exec, minSize)
    ensures instrCount <= maxInstrs && (forall u: nat :: u < p.n ==> TwoWay(p, u)) ==> !skipped
  {
    if instrCount > maxInstrs {
      return [], true;
    }
    var state := new SccpState(p.n);
    state.MarkEdgeExec(p.entry);
    var converged := RunSccp(state, p);
    if forall u: nat :: u < p.n ==> TwoWay(p, u) { CapSuffices(p); }
    if !converged {
      return [], true;
    }
    dead := FindSccpDead(blocks, state.blockExec, minSize);
    skipped := false;
    ghost var s := state.View([]);
    assert LeastSolution(p, s);
    forall d | d in dead ensures TrulyDead(blocks, p, d) {
      var i: nat :| i < p.n && Reported(blocks, s.exec, minSize, i, d);
      UnmarkedNeverEntered(p, s, i);
    }
  }

  lemma UnmarkedNeverEntered(p: Prog, s: Sol, i: nat)
    requires Solution(p, s) && i < p.n && !s.exec[i]
    ensures NeverEntered(p, i)
  {
    forall run: seq<Config>, j: nat | IsRun(p, run) && j < |run| ensures run[j].block != i {
      RunsStayMarked(p, s, run, j);
    }
  }
}
