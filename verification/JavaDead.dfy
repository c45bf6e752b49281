/**
 The dead-branch scan of a method (src/format/java/bytecode.rs:141-324).

 The scan marks what follows a terminator as dead up to the next branch target.
 The result is proved against runs of the method: no run visits a reported
 range, and each range is a whole number of instructions.
 */
module JavaDead {
  import opened Wrappers
  import opened Bytes
  import opened AddressMap
  import opened JvmCode

  // ---- Branch targets (bytecode.rs:220-324) --------------------------------------

  /** `rel_pc + off` as `u32`. */
  function AsU32(x: int): nat { x % 0x1_0000_0000 }

  lemma AsU32Is(x: int)
    requires -0x8000_0000 <= x < 0x1_0000_0000
    ensures AsU32(x) == if x < 0 then x + 0x1_0000_0000 else x
  {
  }

  /** The operand offsets of a switch: the default, then the table entries. */
  function SwitchOffsets(code: seq<byte>, pc: nat): seq<int>
    requires pc < |code|
  {
    var end, p := |code|, pc + 1 + Pad(pc);
    if code[pc] == 0xAA then
      if p + 12 <= end then
        var n := JvmCode.Min(NonNeg(ReadI32(code, p + 8) - ReadI32(code, p + 4) + 1), (end - p - 12) / 4);
        [ReadI32(code, p)] + seq(n, j requires 0 <= j < n => ReadI32(code, p + 12 + j * 4))
      else []
    else if code[pc] == 0xAB && p + 8 <= end then
      var n := JvmCode.Min(NonNeg(ReadI32(code, p + 4)), (end - p - 8) / 8);
      [ReadI32(code, p)] + seq(n, j requires 0 <= j < n => ReadI32(code, p + 8 + j * 8 + 4))
    else []
  }

  /** The targets the instruction at `pc` adds. */
  function TargetsAt(code: seq<byte>, pc: nat): set<nat>
    requires pc < |code|
  {
    if HasTarget(code, pc) then {AsU32(BranchTarget(code, pc))}
    else set o | o in SwitchOffsets(code, pc) :: AsU32(pc + o)
  }

  function TargetsFrom(code: seq<byte>, base: nat, pos: nat): set<nat>
    decreases |code| - pos
  {
    if pos >= |code| then {} else TargetsAt(code, pos) + TargetsFrom(code, base, pos + Len(code, pos, base))
  }

  method CollectBranchTargets(code: seq<byte>, base: nat) returns (targets: set<nat>)
    ensures targets == TargetsFrom(code, base, 0)
  {
    hide Len, TargetsFrom, TargetsAt;
    targets := {};
    var pos: nat := 0;
    ghost var goal, rest := TargetsFrom(code, base, 0), TargetsFrom(code, base, 0);
    while pos < |code|
      invariant rest == TargetsFrom(code, base, pos) && targets + rest == goal
      decreases |code| - pos
    {
      var len := Len(code, pos, base);
      TargetsStep(code, base, pos, pos + len, targets);
      rest := TargetsFrom(code, base, pos + len);
      var found := TargetsOf(code, pos);
      targets := targets + found;
      pos := pos + len;
    }
    TargetsEnd(code, base, pos);
  }

  lemma TargetsEnd(code: seq<byte>, base: nat, pos: nat)
    requires pos >= |code|
    ensures TargetsFrom(code, base, pos) == {}
  {
  }

  lemma TargetsStep(code: seq<byte>, base: nat, pos: nat, next: nat, targets: set<nat>)
    requires pos < |code| && next == pos + Len(code, pos, base)
    ensures targets + TargetsFrom(code, base, pos) == (targets + TargetsAt(code, pos)) + TargetsFrom(code, base, next)
  {
    hide Len, TargetsAt;
  }

  /** One instruction of the collecting loop. */
  method TargetsOf(code: seq<byte>, pos: nat) returns (found: set<nat>)
    requires pos < |code|
    ensures found == TargetsAt(code, pos)
  {
    var op := code[pos];
    found := {};
    if IsBranch16(op) {
      if pos + 3 <= |code| {
        var off := ReadI16(code, pos + 1);
        return {AsU32(pos + off)};
      }
    } else if IsBranch32(op) {
      if pos + 5 <= |code| {
        var off := ReadI32(code, pos + 1);
        return {AsU32(pos + off)};
      }
    } else if IsSwitch(op) {
      var offs := SwitchOffsets(code, pos);
      return set o | o in offs :: AsU32(pos + o);
    }
    assert SwitchOffsets(code, pos) == [];
  }

  lemma {:induction false} TargetCollected(code: seq<byte>, base: nat, pos: nat, pc: nat)
    requires pc < |code| && Meets(code, base, pos, pc)
    ensures TargetsAt(code, pc) <= TargetsFrom(code, base, pos)
    decreases |code| - pos
  {
    if pos != pc { TargetCollected(code, base, pos + Len(code, pos, base), pc); }
  }

  // ---- The scan (bytecode.rs:144-216) ----------------------------------------------

  /** A range of at least two bytes is reported. */
  function Report(ds: nat, pos: nat): Intervals { if pos >= ds + 2 then [(ds, pos)] else [] }

  /** The ranges reported from `pos` on; `ds` is where a dead stretch began. */
  function ScanFrom(code: seq<byte>, base: nat, targets: set<nat>, pos: nat, ds: Option<nat>): Intervals
    decreases |code| - pos
  {
    if pos >= |code| then (if ds.Some? then Report(ds.value, |code|) else [])
    else if ds.Some? && pos !in targets then ScanFrom(code, base, targets, pos + Len(code, pos, base), ds)
    else
      var next := pos + Len(code, pos, base);
      (if ds.Some? then Report(ds.value, pos) else [])
      + ScanFrom(code, base, targets, next, if IsTerminator(code[pos]) && next < |code| then Some(next) else None)
  }

  /** One step of the scan: the ranges it reports, and whether a dead stretch
      goes on or begins after the instruction at `pos`. */
  function StepReports(targets: set<nat>, pos: nat, ds: Option<nat>): Intervals {
    if ds.Some? && pos in targets then Report(ds.value, pos) else []
  }

  function StepDead(code: seq<byte>, targets: set<nat>, pos: nat, next: nat, ds: Option<nat>): Option<nat>
    requires pos < |code|
  {
    if ds.Some? && pos !in targets then ds
    else if IsTerminator(code[pos]) && next < |code| then Some(next) else None
  }

  lemma ScanStep(code: seq<byte>, base: nat, targets: set<nat>, pos: nat, next: nat, ds: Option<nat>, blocks: Intervals)
    requires pos < |code| && next == pos + Len(code, pos, base)
    ensures blocks + ScanFrom(code, base, targets, pos, ds)
         == (blocks + StepReports(targets, pos, ds))
            + ScanFrom(code, base, targets, next, StepDead(code, targets, pos, next, ds))
  {
    var rest := ScanFrom(code, base, targets, next, StepDead(code, targets, pos, next, ds));
    var head := StepReports(targets, pos, ds);
    assert ScanFrom(code, base, targets, pos, ds) == head + rest;
    assert blocks + (head + rest) == (blocks + head) + rest;
  }

  lemma ScanEnds(code: seq<byte>, base: nat, targets: set<nat>, pos: nat, ds: Option<nat>)
    requires pos >= |code|
    ensures ScanFrom(code, base, targets, pos, ds) == if ds.Some? then Report(ds.value, |code|) else []
  {
  }

  method ScanDeadInMethod(code: seq<byte>, base: nat) returns (blocks: Intervals)
    ensures blocks == ScanFrom(code, base, TargetsFrom(code, base, 0), 0, None)
  {
    hide Len, ScanFrom, TargetsFrom;
    var targets := CollectBranchTargets(code, base);
    blocks := [];
    var pos: nat := 0;
    var deadStart: Option<nat> := None;
    ghost var goal, rest := ScanFrom(code, base, targets, 0, None), ScanFrom(code, base, targets, 0, None);
    while pos < |code|
      invariant rest == ScanFrom(code, base, targets, pos, deadStart) && blocks + rest == goal
      decreases |code| - pos
    {
      var len := Len(code, pos, base);
      ScanStep(code, base, targets, pos, pos + len, deadStart, blocks);
      rest := ScanFrom(code, base, targets, pos + len, StepDead(code, targets, pos, pos + len, deadStart));
      if deadStart.Some? {
        if pos in targets {
          if pos - deadStart.value >= 2 {
            blocks := blocks + [(deadStart.value, pos)];
          }
          deadStart := None;
        } else {
          pos := pos + len;
          continue;
        }
      }
      var op := code[pos];
      pos := pos + len;
      deadStart := if IsTerminator(op) && pos < |code| then Some(pos) else None;
    }
    ScanEnds(code, base, targets, pos, deadStart);
    if deadStart.Some? {
      if |code| - deadStart.value >= 2 {
        blocks := blocks + [(deadStart.value, |code|)];
      }
    }
  }

  /** The scan from `pos` processes `pc` as live code. */
  predicate LiveAt(code: seq<byte>, base: nat, targets: set<nat>, pos: nat, live: bool, pc: nat)
    decreases |code| - pos
  {
    && pos < |code|
    && var now := live || pos in targets;
      (pos == pc && now)
      || LiveAt(code, base, targets, pos + Len(code, pos, base), now && !IsTerminator(code[pos]), pc)
  }

  lemma {:induction false} LiveFalls(code: seq<byte>, base: nat, targets: set<nat>, pos: nat, live: bool, pc: nat)
    requires LiveAt(code, base, targets, pos, live, pc) && pc < |code| && !IsTerminator(code[pc])
    requires pc + Len(code, pc, base) < |code|
    ensures LiveAt(code, base, targets, pos, live, pc + Len(code, pc, base))
    decreases |code| - pos
  {
    var now, next := live || pos in targets, pos + Len(code, pos, base);
    if !(pos == pc && now) { LiveFalls(code, base, targets, next, now && !IsTerminator(code[pos]), pc); }
  }

  lemma {:induction false} LiveTarget(code: seq<byte>, base: nat, targets: set<nat>, pos: nat, live: bool, pc: nat)
    requires pc < |code| && Meets(code, base, pos, pc) && pc in targets
    ensures LiveAt(code, base, targets, pos, live, pc)
    decreases |code| - pos
  {
    if pos != pc {
      LiveTarget(code, base, targets, pos + Len(code, pos, base), (live || pos in targets) && !IsTerminator(code[pos]), pc);
    }
  }

  lemma {:induction false} LiveBound(code: seq<byte>, base: nat, targets: set<nat>, pos: nat, live: bool, pc: nat)
    requires LiveAt(code, base, targets, pos, live, pc)
    ensures pos <= pc
    decreases |code| - pos
  {
    var now := live || pos in targets;
    if !(pos == pc && now) {
      LiveBound(code, base, targets, pos + Len(code, pos, base), now && !IsTerminator(code[pos]), pc);
    }
  }

  /** Every instruction a run visits is processed as live. */
  lemma {:induction false} RunsAreLive(code: seq<byte>, base: nat, run: seq<nat>, i: nat)
    requires Linear(code, base) && BranchesToStarts(code, base) && IsRun(code, base, run) && i < |run|
    requires |code| <= 0x1_0000_0000
    ensures LiveAt(code, base, TargetsFrom(code, base, 0), 0, true, run[i])
    decreases i
  {
    if i > 0 {
      RunsAreLive(code, base, run, i - 1);
      ReachedIsStart(code, base, run, i - 1);
      ReachedIsStart(code, base, run, i);
      StepIsLive(code, base, run[i - 1], run[i]);
    }
  }

  lemma StepIsLive(code: seq<byte>, base: nat, a: nat, b: nat)
    requires IsStart(code, base, a) && IsStart(code, base, b) && Goes(code, base, a, b) && |code| <= 0x1_0000_0000
    requires LiveAt(code, base, TargetsFrom(code, base, 0), 0, true, a)
    ensures LiveAt(code, base, TargetsFrom(code, base, 0), 0, true, b)
  {
    hide Len, LiveAt, TargetsFrom, Meets;
    var targets := TargetsFrom(code, base, 0);
    if HasTarget(code, a) && b == BranchTarget(code, a) {
      TargetCollected(code, base, 0, a);
      assert AsU32(b) == b;
      LiveTarget(code, base, targets, 0, true, b);
    } else {
      LiveFalls(code, base, targets, 0, true, a);
    }
  }

  // ---- Ranges that may be cut out ---------------------------------------------------------

  /** Both ends are instruction boundaries and no run visits the inside. */
  ghost predicate Excisable(code: seq<byte>, base: nat, r: Interval) {
    && Meets(code, base, 0, r.0) && Meets(code, base, 0, r.1) && r.0 <= r.1 <= |code|
    && forall pc: nat :: r.0 <= pc < r.1 ==> !Reachable(code, base, pc)
  }

  /** No position in `[r.0, r.1)` is processed live by the scan from `pos`. */
  ghost predicate Quiet(code: seq<byte>, base: nat, targets: set<nat>, pos: nat, live: bool, r: Interval) {
    forall pc: nat :: r.0 <= pc < r.1 ==> !LiveAt(code, base, targets, pos, live, pc)
  }

  /** A range the scan from `pos` may report. */
  ghost predicate RangeOk(code: seq<byte>, base: nat, targets: set<nat>, pos: nat, ds: Option<nat>, r: Interval) {
    && (Meets(code, base, pos, r.0) || (ds.Some? && r.0 == ds.value))
    && Meets(code, base, pos, r.1) && Quiet(code, base, targets, pos, ds.None?, r)
  }

  /** What the scan from `pos` reports, `ds` being where a dead stretch began. */
  ghost predicate RangesOk(code: seq<byte>, base: nat, targets: set<nat>, pos: nat, ds: Option<nat>, rs: Intervals) {
    && Fits(rs, if ds.Some? then ds.value else pos, |code|)
    && forall i: nat :: i < |rs| ==> RangeOk(code, base, targets, pos, ds, rs[i])
  }

  lemma LiveSkip(code: seq<byte>, base: nat, targets: set<nat>, pos: nat, live: bool, pc: nat)
    requires pos < |code| && LiveAt(code, base, targets, pos, live, pc) && (pos != pc || !(live || pos in targets))
    ensures LiveAt(code, base, targets, pos + Len(code, pos, base), (live || pos in targets) && !IsTerminator(code[pos]), pc)
  {
  }

  /** A range reported in a dead stretch that goes on past `pos`. */
  lemma DeadGoesOn(code: seq<byte>, base: nat, targets: set<nat>, pos: nat, ds: nat, r: Interval)
    requires pos < |code| && pos !in targets && ds <= pos
    requires RangeOk(code, base, targets, pos + Len(code, pos, base), Some(ds), r)
    ensures RangeOk(code, base, targets, pos, Some(ds), r)
  {
    forall pc: nat | r.0 <= pc < r.1 ensures !LiveAt(code, base, targets, pos, false, pc) {
      if LiveAt(code, base, targets, pos, false, pc) { LiveSkip(code, base, targets, pos, false, pc); }
    }
  }

  /** A range reported after the live instruction at `pos`. */
  lemma LiveGoesOn(code: seq<byte>, base: nat, targets: set<nat>, pos: nat, ds: Option<nat>, r: Interval)
    requires pos < |code| && (ds.None? || pos in targets)
    requires var next := pos + Len(code, pos, base);
      next <= r.0 && RangeOk(code, base, targets, next, if IsTerminator(code[pos]) && next < |code| then Some(next) else None, r)
    ensures RangeOk(code, base, targets, pos, ds, r)
  {
    forall pc: nat | r.0 <= pc < r.1 ensures !LiveAt(code, base, targets, pos, ds.None?, pc) {
      if LiveAt(code, base, targets, pos, ds.None?, pc) { LiveSkip(code, base, targets, pos, ds.None?, pc); }
    }
  }

  /** The range that ends where `pos` revives the code. */
  lemma RevivedRange(code: seq<byte>, base: nat, targets: set<nat>, pos: nat, ds: nat)
    requires ds <= pos
    ensures RangeOk(code, base, targets, pos, Some(ds), (ds, pos))
  {
    forall pc: nat | ds <= pc < pos ensures !LiveAt(code, base, targets, pos, false, pc) {
      if LiveAt(code, base, targets, pos, false, pc) { LiveBound(code, base, targets, pos, false, pc); }
    }
  }

  lemma {:induction false} ScanRanges(code: seq<byte>, base: nat, targets: set<nat>, pos: nat, ds: Option<nat>)
    requires Meets(code, base, pos, |code|) && (ds.Some? ==> ds.value <= pos)
    ensures RangesOk(code, base, targets, pos, ds, ScanFrom(code, base, targets, pos, ds))
    decreases |code| - pos
  {
    MeetsBound(code, base, pos, |code|);
    if pos >= |code| {
      if ds.Some? { RevivedRange(code, base, targets, pos, ds.value); }
    } else {
      var next := pos + Len(code, pos, base);
      MeetsBound(code, base, next, |code|);
      if ds.Some? && pos !in targets {
        ScanRanges(code, base, targets, next, ds);
        var rs := ScanFrom(code, base, targets, next, ds);
        forall i: nat | i < |rs| ensures RangeOk(code, base, targets, pos, ds, rs[i]) {
          DeadGoesOn(code, base, targets, pos, ds.value, rs[i]);
        }
      } else {
        var ds' := if IsTerminator(code[pos]) && next < |code| then Some(next) else None;
        ScanRanges(code, base, targets, next, ds');
        var rs := ScanFrom(code, base, targets, next, ds');
        ScanLiveRanges(code, base, targets, pos, ds, rs);
      }
    }
  }

  lemma ScanLiveRanges(code: seq<byte>, base: nat, targets: set<nat>, pos: nat, ds: Option<nat>, rs: Intervals)
    requires pos < |code| && (ds.None? || (pos in targets && ds.value <= pos)) && pos + Len(code, pos, base) <= |code|
    requires var next := pos + Len(code, pos, base);
      RangesOk(code, base, targets, next, if IsTerminator(code[pos]) && next < |code| then Some(next) else None, rs)
    ensures RangesOk(code, base, targets, pos, ds, (if ds.Some? then Report(ds.value, pos) else []) + rs)
  {
    var head := if ds.Some? then Report(ds.value, pos) else [];
    var all := head + rs;
    forall i: nat | i < |all| ensures RangeOk(code, base, targets, pos, ds, all[i]) {
      if i < |head| {
        RevivedRange(code, base, targets, pos, ds.value);
      } else {
        assert all[i] == rs[i - |head|];
        LiveGoesOn(code, base, targets, pos, ds, all[i]);
      }
    }
    var lo := if ds.Some? then ds.value else pos;
    assert Fits(rs, pos + Len(code, pos, base), |code|);
    assert Fits(head, lo, pos);
  }

  /** The scan of a method: every reported range is excisable, and they are
      sorted and disjoint. */
  lemma ScanIsSound(code: seq<byte>, base: nat)
    requires Linear(code, base) && BranchesToStarts(code, base) && |code| <= 0x1_0000_0000
    ensures var rs := ScanFrom(code, base, TargetsFrom(code, base, 0), 0, None);
      Fits(rs, 0, |code|) && forall i: nat :: i < |rs| ==> Excisable(code, base, rs[i])
  {
    var targets := TargetsFrom(code, base, 0);
    var rs := ScanFrom(code, base, targets, 0, None);
    ScanRanges(code, base, targets, 0, None);
    forall i: nat | i < |rs| ensures Excisable(code, base, rs[i]) {
      assert RangeOk(code, base, targets, 0, None, rs[i]);
      forall pc: nat | rs[i].0 <= pc < rs[i].1 ensures !Reachable(code, base, pc) {
        if Reachable(code, base, pc) {
          var run :| IsRun(code, base, run) && run[|run| - 1] == pc;
          RunsAreLive(code, base, run, |run| - 1);
        }
      }
    }
  }
}
