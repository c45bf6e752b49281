/**
 Dead ranges in methods with switches and exception handlers, and what happens to
 those methods (src/format/java/bytecode.rs:144-399, src/format/java/mod.rs:106-125).

 Compaction refuses such methods, and the ranges found in them are overwritten with
 `nop`.  Two things can put executed code in a range.  The scan collects no handler
 entries; and it pads a switch by its file offset, so behind one it may decode from
 the middle of an instruction.  Runs below are those of the JVM, which decodes from
 the offset in the method.
 */
module JavaHandlers {
  import opened Wrappers
  import opened Bytes
  import opened AddressMap
  import opened JvmCode
  import opened JavaDead

  /** An entry of the exception table. */
  datatype Handler = Handler(from: nat, to: nat, entry: nat)

  // ---- Runs with switches and exceptions ------------------------------------------------

  predicate SwitchesTo(code: seq<byte>, pc: nat, next: nat)
    requires pc < |code|
  {
    exists o: int :: o in SwitchOffsets(code, pc) && next == pc + o
  }

  predicate BranchesTo(code: seq<byte>, pc: nat, next: nat) { HasTarget(code, pc) && next == BranchTarget(code, pc) }

  predicate ThrowsTo(hs: seq<Handler>, pc: nat, next: nat) {
    exists h: Handler :: h in hs && h.from <= pc < h.to && next == h.entry
  }

  /** A switch does not fall through; any protected instruction may throw. */
  predicate Flows(code: seq<byte>, hs: seq<Handler>, pc: nat, next: nat) {
    && pc < |code| && next < |code|
    && (|| BranchesTo(code, pc, next)
        || SwitchesTo(code, pc, next)
        || (!IsTerminator(code[pc]) && !IsSwitch(code[pc]) && next == pc + Len(code, pc, 0))
        || ThrowsTo(hs, pc, next))
  }

  ghost predicate IsPath(code: seq<byte>, hs: seq<Handler>, run: seq<nat>) {
    && |run| > 0 && run[0] == 0 && 0 < |code|
    && forall i: nat :: 0 < i < |run| ==> Flows(code, hs, run[i - 1], run[i])
  }

  ghost predicate Visited(code: seq<byte>, hs: seq<Handler>, pc: nat) {
    exists run :: IsPath(code, hs, run) && run[|run| - 1] == pc
  }

  lemma VisitNext(code: seq<byte>, hs: seq<Handler>, pc: nat, next: nat)
    requires Visited(code, hs, pc) && Flows(code, hs, pc, next)
    ensures Visited(code, hs, next)
  {
    hide Flows;
    var run :| IsPath(code, hs, run) && run[|run| - 1] == pc;
    var longer := run + [next];
    assert IsPath(code, hs, longer) && longer[|longer| - 1] == next;
  }

  lemma VisitPrefix(code: seq<byte>, hs: seq<Handler>, run: seq<nat>, i: nat)
    requires IsPath(code, hs, run) && i < |run|
    ensures Visited(code, hs, run[i])
  {
    hide Flows;
    var head := run[..i + 1];
    assert IsPath(code, hs, head) && head[|head| - 1] == run[i];
  }

  /** What the JVM's verifier guarantees: decoding ends at the end, and runs stay on
      the instructions it meets. */
  ghost predicate Decodes(code: seq<byte>, hs: seq<Handler>) {
    && Meets(code, 0, 0, |code|) && |code| <= 0x1_0000_0000
    && forall pc: nat, next: nat :: Visited(code, hs, pc) && Flows(code, hs, pc, next) ==> IsStart(code, 0, next)
  }

  lemma VisitedIsStart(code: seq<byte>, hs: seq<Handler>, pc: nat)
    requires Decodes(code, hs) && Visited(code, hs, pc)
    ensures IsStart(code, 0, pc)
  {
    hide Flows;
    var run :| IsPath(code, hs, run) && run[|run| - 1] == pc;
    if |run| > 1 {
      VisitPrefix(code, hs, run, |run| - 2);
      assert Flows(code, hs, run[|run| - 2], run[|run| - 1]);
    }
  }

  /** What the scan reports. */
  function Reported(code: seq<byte>, base: nat): Intervals { ScanFrom(code, base, TargetsFrom(code, base, 0), 0, None) }

  // ---- What the scan reports, on the bytes ----------------------------------------------------

  /** Decoding meets `y`, and some decoded instruction branches or switches to it. */
  ghost predicate Marked(code: seq<byte>, base: nat, y: nat) {
    IsStart(code, base, y) && exists pc: nat :: IsStart(code, base, pc) && y in TargetsAt(code, pc)
  }

  /** A decoded terminator ends at `e`. */
  ghost predicate EndsFlow(code: seq<byte>, base: nat, e: nat) {
    exists t: nat :: IsStart(code, base, t) && IsTerminator(code[t]) && e == t + Len(code, t, base)
  }

  /** From `e`, where a terminator ends, to `q`, the first marked position after it
      or the end, there are at least two bytes and no marked position. */
  ghost predicate Stretch(code: seq<byte>, base: nat, e: nat, q: nat) {
    && EndsFlow(code, base, e) && e + 2 <= q <= |code| && (q == |code| || Marked(code, base, q))
    && forall y: nat :: e <= y < q ==> !Marked(code, base, y)
  }

  ghost predicate Abandoned(code: seq<byte>, base: nat, x: nat) {
    exists e: nat, q: nat :: Stretch(code, base, e, q) && e <= x < q
  }

  lemma DeadConcat(x: nat, a: Intervals, b: Intervals)
    ensures InDead(x, a + b) <==> InDead(x, a) || InDead(x, b)
  {
    if i: nat :| i < |a| && a[i].0 <= x < a[i].1 { assert (a + b)[i] == a[i]; }
    if i: nat :| i < |b| && b[i].0 <= x < b[i].1 { assert (a + b)[|a| + i] == b[i]; }
  }

  lemma {:induction false} TargetFound(code: seq<byte>, base: nat, pos: nat, y: nat) returns (pc: nat)
    requires Meets(code, base, 0, pos) && y in TargetsFrom(code, base, pos)
    ensures IsStart(code, base, pc) && y in TargetsAt(code, pc)
    decreases |code| - pos
  {
    hide Len, TargetsAt;
    if y in TargetsAt(code, pos) { pc := pos; } else {
      MeetsTrans(code, base, 0, pos, pos + Len(code, pos, base));
      pc := TargetFound(code, base, pos + Len(code, pos, base), y);
    }
  }

  /** Of the positions decoding meets, the collected targets are the marked ones. */
  lemma CollectedIsMarked(code: seq<byte>, base: nat, y: nat)
    requires IsStart(code, base, y)
    ensures y in TargetsFrom(code, base, 0) <==> Marked(code, base, y)
  {
    hide Len, TargetsAt, TargetsFrom;
    if y in TargetsFrom(code, base, 0) { var pc := TargetFound(code, base, 0, y); }
    if Marked(code, base, y) {
      var pc: nat :| IsStart(code, base, pc) && y in TargetsAt(code, pc);
      TargetCollected(code, base, 0, pc);
    }
  }

  /** No marked position lies in `[d, pos)`, where decoding has come to `pos`. */
  ghost predicate Unmarked(code: seq<byte>, base: nat, d: nat, pos: nat) {
    forall y: nat :: d <= y < pos ==> !Marked(code, base, y)
  }

  lemma UnmarkedNext(code: seq<byte>, base: nat, d: nat, pos: nat)
    requires Unmarked(code, base, d, pos) && IsStart(code, base, pos) && pos !in TargetsFrom(code, base, 0)
    ensures Unmarked(code, base, d, pos + Len(code, pos, base)) && Meets(code, base, 0, pos + Len(code, pos, base))
  {
    hide Len, TargetsFrom, Meets;
    CollectedIsMarked(code, base, pos);
    MeetsNext(code, base, pos);
    forall y: nat | pos < y < pos + Len(code, pos, base) ensures !Marked(code, base, y) {
      if Marked(code, base, y) { NextStart(code, base, pos, y); }
    }
  }

  lemma MeetsNext(code: seq<byte>, base: nat, pos: nat)
    requires IsStart(code, base, pos)
    ensures Meets(code, base, 0, pos + Len(code, pos, base))
  {
    hide Len;
    MeetsTrans(code, base, 0, pos, pos + Len(code, pos, base));
  }

  /** What the scan knows at `pos`: where the dead stretch it is in began. */
  ghost predicate ScanState(code: seq<byte>, base: nat, pos: nat, ds: Option<nat>) {
    && Meets(code, base, 0, pos)
    && (ds.Some? ==> ds.value <= pos && ds.value < |code| && EndsFlow(code, base, ds.value) && Unmarked(code, base, ds.value, pos))
  }

  lemma ScanStateNext(code: seq<byte>, base: nat, pos: nat, ds: Option<nat>)
    requires ScanState(code, base, pos, ds) && pos < |code|
    ensures var next := pos + Len(code, pos, base);
      ScanState(code, base, next, StepDead(code, TargetsFrom(code, base, 0), pos, next, ds))
  {
    hide Len, TargetsFrom, Meets;
    MeetsNext(code, base, pos);
    if ds.Some? && pos !in TargetsFrom(code, base, 0) { UnmarkedNext(code, base, ds.value, pos); }
  }

  /** A report made at `pos` is a stretch. */
  lemma ReportIsStretch(code: seq<byte>, base: nat, pos: nat, d: nat, x: nat)
    requires ScanState(code, base, pos, Some(d)) && InDead(x, Report(d, if pos < |code| then pos else |code|))
    requires pos < |code| ==> pos in TargetsFrom(code, base, 0)
    ensures Abandoned(code, base, x)
  {
    hide Meets, TargetsFrom;
    var q := if pos < |code| then pos else |code|;
    if pos < |code| { CollectedIsMarked(code, base, pos); }
    assert Stretch(code, base, d, q) && d <= x < q;
  }

  lemma {:induction false} ReportedIsAbandoned(code: seq<byte>, base: nat, pos: nat, ds: Option<nat>, x: nat)
    requires ScanState(code, base, pos, ds) && InDead(x, ScanFrom(code, base, TargetsFrom(code, base, 0), pos, ds))
    ensures Abandoned(code, base, x)
    decreases |code| - pos
  {
    hide Len, TargetsFrom, ScanState, Abandoned, InDead, Report;
    var targets := TargetsFrom(code, base, 0);
    if pos >= |code| {
      if ds.Some? { ReportIsStretch(code, base, pos, ds.value, x); } else { NoneDead(x); }
    } else {
      var next := pos + Len(code, pos, base);
      var head, ds' := StepReports(targets, pos, ds), StepDead(code, targets, pos, next, ds);
      ScanSplits(code, base, targets, pos, next, ds);
      DeadConcat(x, head, ScanFrom(code, base, targets, next, ds'));
      if InDead(x, head) {
        NoneDead(x);
        ReportIsStretch(code, base, pos, ds.value, x);
      } else {
        ScanStateNext(code, base, pos, ds);
        ReportedIsAbandoned(code, base, next, ds', x);
      }
    }
  }

  lemma NoneDead(x: nat)
    ensures !InDead(x, [])
  {
  }

  lemma ScanSplits(code: seq<byte>, base: nat, targets: set<nat>, pos: nat, next: nat, ds: Option<nat>)
    requires pos < |code| && next == pos + Len(code, pos, base)
    ensures ScanFrom(code, base, targets, pos, ds)
         == StepReports(targets, pos, ds) + ScanFrom(code, base, targets, next, StepDead(code, targets, pos, next, ds))
  {
    hide Len;
  }

  /** Inside a stretch the scan goes on. */
  lemma StretchStep(code: seq<byte>, base: nat, e: nat, q: nat, pos: nat, d: nat)
    requires Stretch(code, base, e, q) && e <= pos < q && Meets(code, base, 0, pos)
    ensures
      var next, targets := pos + Len(code, pos, base), TargetsFrom(code, base, 0);
      && Meets(code, base, 0, next) && (next <= q || q == |code|)
      && ScanFrom(code, base, targets, pos, Some(d)) == ScanFrom(code, base, targets, next, Some(d))
  {
    hide Len, TargetsFrom, Meets;
    CollectedIsMarked(code, base, pos);
    MeetsNext(code, base, pos);
    if q < |code| { NextStart(code, base, pos, q); }
  }

  /** At its end it reports. */
  lemma StretchEnd(code: seq<byte>, base: nat, e: nat, q: nat, pos: nat, d: nat, x: nat)
    requires Stretch(code, base, e, q) && d <= e && q <= pos && Meets(code, base, 0, pos) && (pos == q || q == |code|) && e <= x < q
    ensures InDead(x, ScanFrom(code, base, TargetsFrom(code, base, 0), pos, Some(d)))
  {
    hide Len, TargetsFrom, Meets, InDead, EndsFlow;
    if pos < |code| { CollectedIsMarked(code, base, pos); }
    ReportFirst(x, d, q, ScanFrom(code, base, TargetsFrom(code, base, 0), pos, Some(d)));
  }

  /** In a stretch up to `q` the scan goes on to `q` and reports from no later than `e`. */
  lemma {:induction false} StretchReported(code: seq<byte>, base: nat, e: nat, q: nat, pos: nat, d: nat, x: nat)
    requires Stretch(code, base, e, q) && d <= e <= pos && e <= x < q && Meets(code, base, 0, pos) && (pos <= q || q == |code|)
    ensures InDead(x, ScanFrom(code, base, TargetsFrom(code, base, 0), pos, Some(d)))
    decreases |code| - pos
  {
    hide Len, TargetsFrom, Meets, InDead, Stretch, ScanFrom;
    StretchBounds(code, base, e, q);
    if pos < q {
      StretchStep(code, base, e, q, pos, d);
      StretchReported(code, base, e, q, pos + Len(code, pos, base), d, x);
    } else {
      StretchEnd(code, base, e, q, pos, d, x);
    }
  }

  lemma ReportFirst(x: nat, d: nat, q: nat, rs: Intervals)
    requires |rs| > 0 && rs[0] == (d, q) && d <= x < q
    ensures InDead(x, rs)
  {
  }

  lemma {:induction false} AbandonedIsReported(code: seq<byte>, base: nat, e: nat, q: nat, t: nat, pos: nat, ds: Option<nat>, x: nat)
    requires Stretch(code, base, e, q) && e <= x < q && ScanState(code, base, pos, ds)
    requires IsStart(code, base, t) && IsTerminator(code[t]) && e == t + Len(code, t, base) && pos <= t
    ensures InDead(x, ScanFrom(code, base, TargetsFrom(code, base, 0), pos, ds))
    decreases |code| - pos
  {
    hide Len, TargetsFrom, Meets, InDead, Stretch, ScanFrom, Report;
    StretchBounds(code, base, e, q);
    var targets, next := TargetsFrom(code, base, 0), pos + Len(code, pos, base);
    var ds' := StepDead(code, targets, pos, next, ds);
    ScanSplits(code, base, targets, pos, next, ds);
    ScanStateNext(code, base, pos, ds);
    DeadConcat(x, StepReports(targets, pos, ds), ScanFrom(code, base, targets, next, ds'));
    if pos == t {
      StretchReported(code, base, e, q, e, ds'.value, x);
    } else {
      NextStart(code, base, pos, t);
      AbandonedIsReported(code, base, e, q, t, next, ds', x);
    }
  }

  lemma StretchBounds(code: seq<byte>, base: nat, e: nat, q: nat)
    requires Stretch(code, base, e, q)
    ensures 0 < e && e + 2 <= q <= |code|
  {
    hide Len;
  }

  /** The scan reports exactly the abandoned bytes, whatever the code. */
  lemma ReportedExact(code: seq<byte>, base: nat, x: nat)
    ensures InDead(x, Reported(code, base)) <==> Abandoned(code, base, x)
  {
    hide Len, TargetsFrom, InDead, ScanFrom, Stretch;
    if InDead(x, Reported(code, base)) { ReportedIsAbandoned(code, base, 0, None, x); }
    if Abandoned(code, base, x) {
      var e: nat, q: nat :| Stretch(code, base, e, q) && e <= x < q;
      var t := TerminatorOf(code, base, e, q);
      AbandonedIsReported(code, base, e, q, t, 0, None, x);
    }
  }

  lemma TerminatorOf(code: seq<byte>, base: nat, e: nat, q: nat) returns (t: nat)
    requires Stretch(code, base, e, q)
    ensures IsStart(code, base, t) && IsTerminator(code[t]) && e == t + Len(code, t, base)
  {
    t :| IsStart(code, base, t) && IsTerminator(code[t]) && e == t + Len(code, t, base);
  }

  // ---- The source's decoding and the JVM's -------------------------------------------------------

  ghost predicate SwitchFree(code: seq<byte>) { forall pc: nat :: IsStart(code, 0, pc) ==> !IsSwitch(code[pc]) }

  /** Padding by the file offset is harmless: the body starts at a multiple of four,
      or there is nothing to pad. */
  ghost predicate InStep(code: seq<byte>, base: nat) { base % 4 == 0 || SwitchFree(code) }

  lemma PlainLength(code: seq<byte>, base: nat, pc: nat)
    requires pc < |code| && (base % 4 == 0 || !IsSwitch(code[pc]))
    ensures Len(code, pc, base) == Len(code, pc, 0)
  {
    hide ReadI32;
    if base % 4 == 0 { SwitchPad(base, pc); }
  }

  lemma SwitchPad(base: nat, pc: nat)
    requires base % 4 == 0
    ensures Pad(base + pc) == Pad(pc)
  {
    PadAgrees(base);
  }

  /** Then the source decodes as the JVM does. */
  lemma {:induction false} SameDecoding(code: seq<byte>, base: nat, pos: nat, pc: nat)
    requires base % 4 == 0 || (SwitchFree(code) && Meets(code, 0, 0, pos))
    ensures Meets(code, base, pos, pc) <==> Meets(code, 0, pos, pc)
    decreases |code| - pos
  {
    hide Len, SwitchFree;
    if pos != pc && pos < |code| {
      var next := pos + Len(code, pos, 0);
      if base % 4 != 0 {
        NotSwitch(code, pos);
        MeetsNext(code, 0, pos);
      }
      PlainLength(code, base, pos);
      SameDecoding(code, base, next, pc);
    }
  }

  lemma NotSwitch(code: seq<byte>, pc: nat)
    requires SwitchFree(code) && IsStart(code, 0, pc)
    ensures !IsSwitch(code[pc])
  {
  }

  lemma SameStarts(code: seq<byte>, base: nat)
    requires InStep(code, base)
    ensures forall pc: nat :: Meets(code, base, 0, pc) <==> Meets(code, 0, 0, pc)
  {
    hide Len, SwitchFree;
    forall pc: nat ensures Meets(code, base, 0, pc) <==> Meets(code, 0, 0, pc) { SameDecoding(code, base, 0, pc); }
  }

  lemma SameLength(code: seq<byte>, base: nat, pc: nat)
    requires InStep(code, base) && IsStart(code, 0, pc)
    ensures Len(code, pc, base) == Len(code, pc, 0)
  {
    hide Len, SwitchFree;
    if base % 4 != 0 { NotSwitch(code, pc); }
    PlainLength(code, base, pc);
  }

  /** And it abandons what the JVM's decoding shows abandoned. */
  lemma SameAbandoned(code: seq<byte>, base: nat, x: nat)
    requires InStep(code, base)
    ensures Abandoned(code, base, x) <==> Abandoned(code, 0, x)
  {
    hide Len, SwitchFree, InStep, Meets;
    SameStarts(code, base);
    forall pc: nat | IsStart(code, 0, pc) ensures Len(code, pc, base) == Len(code, pc, 0) { SameLength(code, base, pc); }
    forall e: nat ensures EndsFlow(code, base, e) <==> EndsFlow(code, 0, e) { }
    forall y: nat ensures Marked(code, base, y) <==> Marked(code, 0, y) { }
    forall e: nat, q: nat ensures Stretch(code, base, e, q) <==> Stretch(code, 0, e, q) { }
  }

  // ---- No step but a throw goes into a stretch -----------------------------------------------------

  lemma BranchIsTarget(code: seq<byte>, pc: nat, next: nat)
    requires pc < |code| && next < 0x1_0000_0000 && BranchesTo(code, pc, next)
    ensures next in TargetsAt(code, pc)
  {
    hide SwitchOffsets, BranchTarget;
    assert AsU32(next) == next;
  }

  lemma OffsetsOfSwitch(code: seq<byte>, pc: nat)
    requires pc < |code|
    ensures SwitchOffsets(code, pc) != [] ==> IsSwitch(code[pc]) && !HasTarget(code, pc)
  {
    hide ReadI32;
  }

  lemma SwitchIsTarget(code: seq<byte>, pc: nat, next: nat)
    requires pc < |code| && next < 0x1_0000_0000 && SwitchesTo(code, pc, next)
    ensures next in TargetsAt(code, pc)
  {
    hide SwitchOffsets, BranchTarget, HasTarget;
    var o: int :| o in SwitchOffsets(code, pc) && next == pc + o;
    OffsetsOfSwitch(code, pc);
    assert AsU32(pc + o) == next;
  }

  lemma MarkedLive(code: seq<byte>, pc: nat, next: nat)
    requires IsStart(code, 0, pc) && IsStart(code, 0, next) && next in TargetsAt(code, pc)
    ensures !Abandoned(code, 0, next)
  {
    hide Meets, TargetsAt;
    assert Marked(code, 0, next);
  }

  lemma FallsLive(code: seq<byte>, pc: nat)
    requires IsStart(code, 0, pc) && !IsTerminator(code[pc]) && IsStart(code, 0, pc + Len(code, pc, 0))
    requires Abandoned(code, 0, pc + Len(code, pc, 0))
    ensures Abandoned(code, 0, pc)
  {
    hide Len, Meets, Stretch;
    var next := pc + Len(code, pc, 0);
    var e: nat, q: nat :| Stretch(code, 0, e, q) && e <= next < q;
    var t := TerminatorOf(code, 0, e, q);
    MeetsNext(code, 0, t);
    if pc < t { NextStart(code, 0, pc, t); }
    if t < pc { NextStart(code, 0, t, pc); }
    assert e <= pc;
  }

  /** Without a throw, no step goes from a live instruction into a stretch. */
  lemma StepLive(code: seq<byte>, hs: seq<Handler>, pc: nat, next: nat)
    requires |code| <= 0x1_0000_0000 && IsStart(code, 0, pc) && IsStart(code, 0, next)
    requires Flows(code, hs, pc, next) && !ThrowsTo(hs, pc, next) && !Abandoned(code, 0, pc)
    ensures !Abandoned(code, 0, next)
  {
    hide Len, Meets, BranchesTo, SwitchesTo, ThrowsTo, TargetsAt, Abandoned;
    if BranchesTo(code, pc, next) {
      BranchIsTarget(code, pc, next);
      MarkedLive(code, pc, next);
    } else if SwitchesTo(code, pc, next) {
      SwitchIsTarget(code, pc, next);
      MarkedLive(code, pc, next);
    } else if Abandoned(code, 0, next) {
      FallsLive(code, pc);
    }
  }

  // ---- The exact condition -----------------------------------------------------------------------

  /** Some run executes an instruction the handler protects. */
  ghost predicate Enterable(code: seq<byte>, hs: seq<Handler>, h: Handler) {
    exists pc: nat :: Visited(code, hs, pc) && h.from <= pc < h.to
  }

  /** No enterable handler starts behind a terminator, before the next branch or
      switch target, unless that leaves less than two bytes. */
  ghost predicate HandlersClear(code: seq<byte>, hs: seq<Handler>) {
    forall h: Handler :: h in hs && Enterable(code, hs, h) ==> !Abandoned(code, 0, h.entry)
  }

  ghost predicate NeverRun(code: seq<byte>, hs: seq<Handler>, rs: Intervals) {
    forall pc: nat :: InDead(pc, rs) ==> !Visited(code, hs, pc)
  }

  lemma {:induction false} RunLive(code: seq<byte>, hs: seq<Handler>, run: seq<nat>, i: nat)
    requires Decodes(code, hs) && HandlersClear(code, hs) && IsPath(code, hs, run) && i < |run|
    ensures !Abandoned(code, 0, run[i])
    decreases i
  {
    hide Flows, Abandoned, Meets, ThrowsTo;
    VisitPrefix(code, hs, run, i);
    VisitedIsStart(code, hs, run[i]);
    if i == 0 {
      EntryLive(code);
    } else {
      RunLive(code, hs, run, i - 1);
      VisitPrefix(code, hs, run, i - 1);
      VisitedIsStart(code, hs, run[i - 1]);
      assert Flows(code, hs, run[i - 1], run[i]);
      if ThrowsTo(hs, run[i - 1], run[i]) {
        HandlerLive(code, hs, run[i - 1], run[i]);
      } else {
        StepLive(code, hs, run[i - 1], run[i]);
      }
    }
  }

  lemma EntryLive(code: seq<byte>)
    ensures !Abandoned(code, 0, 0)
  {
    hide Stretch;
    if Abandoned(code, 0, 0) {
      var e: nat, q: nat :| Stretch(code, 0, e, q) && e <= 0 < q;
      StretchBounds(code, 0, e, q);
    }
  }

  lemma HandlerLive(code: seq<byte>, hs: seq<Handler>, pc: nat, next: nat)
    requires HandlersClear(code, hs) && Visited(code, hs, pc) && ThrowsTo(hs, pc, next)
    ensures !Abandoned(code, 0, next)
  {
    hide Abandoned, Visited;
    var h: Handler :| h in hs && h.from <= pc < h.to && next == h.entry;
    assert Enterable(code, hs, h);
  }

  lemma ReportedInStep(code: seq<byte>, base: nat, x: nat)
    requires InStep(code, base)
    ensures InDead(x, Reported(code, base)) <==> Abandoned(code, 0, x)
  {
    ReportedExact(code, base, x);
    SameAbandoned(code, base, x);
  }

  /**
   In a body that starts at a multiple of four or has no switch, nothing reported is
   ever executed exactly when no handler that can be entered is abandoned.
   */
  lemma HandlersExact(code: seq<byte>, base: nat, hs: seq<Handler>)
    requires Decodes(code, hs) && InStep(code, base)
    ensures NeverRun(code, hs, Reported(code, base)) <==> HandlersClear(code, hs)
  {
    hide InDead, Reported, Decodes, Flows, Abandoned, InStep;
    if HandlersClear(code, hs) {
      forall pc: nat | Visited(code, hs, pc) ensures !InDead(pc, Reported(code, base)) {
        var run :| IsPath(code, hs, run) && run[|run| - 1] == pc;
        RunLive(code, hs, run, |run| - 1);
        ReportedInStep(code, base, pc);
      }
    } else {
      var h: Handler :| h in hs && Enterable(code, hs, h) && Abandoned(code, 0, h.entry);
      var pc: nat :| Visited(code, hs, pc) && h.from <= pc < h.to;
      ReportedInStep(code, base, h.entry);
      ThrowVisits(code, hs, pc, h);
    }
  }

  lemma ThrowVisits(code: seq<byte>, hs: seq<Handler>, pc: nat, h: Handler)
    requires Decodes(code, hs) && Visited(code, hs, pc) && h in hs && h.from <= pc < h.to && Abandoned(code, 0, h.entry)
    ensures Visited(code, hs, h.entry)
  {
    hide Len;
    VisitedIsStart(code, hs, pc);
    assert ThrowsTo(hs, pc, h.entry);
    assert Flows(code, hs, pc, h.entry);
    VisitNext(code, hs, pc, h.entry);
  }

  /** Without an exception table nothing reported is executed, switches or not. */
  lemma NoHandlersSound(code: seq<byte>, base: nat)
    requires Decodes(code, []) && InStep(code, base)
    ensures NeverRun(code, [], Reported(code, base))
  {
    HandlersExact(code, base, []);
  }

  // ---- Overwriting with nop (mod.rs:114-121) -------------------------------------------------------

  /** The bytes with every dead one zero. */
  function Filled(code: seq<byte>, rs: Intervals): (r: seq<byte>)
    ensures |r| == |code|
  {
    seq(|code|, i requires 0 <= i < |code| => if InDead(i, rs) then 0 else code[i])
  }

  method NopFill(data: array<byte>, rs: Intervals)
    requires forall i: nat :: i < |rs| ==> rs[i].0 <= rs[i].1 <= data.Length
    modifies data
    ensures data[..] == Filled(old(data[..]), rs)
  {
    ghost var was := data[..];
    for i := 0 to |rs|
      invariant forall k: nat :: k < data.Length ==> data[k] == if InDead(k, rs[..i]) then 0 else was[k]
    {
      var (s, e) := rs[i];
      for j := s to e
        invariant forall k: nat :: k < data.Length ==> data[k] == if InDead(k, rs[..i]) || s <= k < j then 0 else was[k]
      {
        data[j] := 0;
      }
      assert rs[..i + 1][..i] == rs[..i];
      forall k: nat | k < data.Length ensures InDead(k, rs[..i + 1]) <==> InDead(k, rs[..i]) || s <= k < e {
        InDeadPrefix(k, rs[..i + 1]);
      }
    }
    assert rs[..|rs|] == rs;
  }

  /** The instruction at `pc` reads the same in both. */
  ghost predicate SameBytes(a: seq<byte>, b: seq<byte>, pc: nat, n: nat) {
    |a| == |b| && pc + n <= |a| && forall k: nat :: pc <= k < pc + n ==> a[k] == b[k]
  }

  /** What an instruction does depends on its own bytes. */
  lemma SameFlows(a: seq<byte>, b: seq<byte>, hs: seq<Handler>, pc: nat, next: nat)
    requires pc < |a| && SameBytes(a, b, pc, Len(a, pc, 0))
    ensures Flows(a, hs, pc, next) <==> Flows(b, hs, pc, next)
  {
    hide ReadI32, ReadI16, Pad, SwitchesTo, ThrowsTo, Len;
    SameLen(a, b, pc);
    SameBranch(a, b, pc);
    SameSwitch(a, b, pc);
    assert SwitchesTo(a, pc, next) <==> SwitchesTo(b, pc, next) by { SwitchByOffsets(a, b, pc, next); }
    assert a[pc] == b[pc];
  }

  lemma SwitchByOffsets(a: seq<byte>, b: seq<byte>, pc: nat, next: nat)
    requires pc < |a| && pc < |b| && SwitchOffsets(a, pc) == SwitchOffsets(b, pc)
    ensures SwitchesTo(a, pc, next) <==> SwitchesTo(b, pc, next)
  {
    hide SwitchOffsets;
  }

  lemma SameLen(a: seq<byte>, b: seq<byte>, pc: nat)
    requires pc < |a| && SameBytes(a, b, pc, Len(a, pc, 0))
    ensures Len(a, pc, 0) == Len(b, pc, 0)
  {
    hide SwitchLength;
    assert a[pc] == b[pc];
    if IsSwitch(a[pc]) { SameSwitchLength(a, b, pc); }
  }

  lemma SameSwitchLength(a: seq<byte>, b: seq<byte>, pc: nat)
    requires pc < |a| && SameBytes(a, b, pc, SwitchLength(a, pc, 0)) && IsSwitch(a[pc])
    ensures SwitchLength(a, pc, 0) == SwitchLength(b, pc, 0)
  {
    hide ReadI32, Pad;
    var p := pc + 1 + Pad(pc);
    if a[pc] == 0xaa && p + 12 <= |a| {
      WordSame(a, b, p + 4);
      WordSame(a, b, p + 8);
    } else if a[pc] == 0xab && p + 8 <= |a| {
      WordSame(a, b, p + 4);
    }
  }

  lemma SameBranch(a: seq<byte>, b: seq<byte>, pc: nat)
    requires pc < |a| && SameBytes(a, b, pc, Len(a, pc, 0))
    ensures HasTarget(a, pc) == HasTarget(b, pc) && (HasTarget(a, pc) ==> BranchTarget(a, pc) == BranchTarget(b, pc))
  {
  }

  lemma WordSame(a: seq<byte>, b: seq<byte>, i: nat)
    requires |a| == |b| && i + 4 <= |a| && forall k: nat :: i <= k < i + 4 ==> a[k] == b[k]
    ensures ReadI32(a, i) == ReadI32(b, i)
  {
  }

  /** The operands of a switch lie inside it. */
  lemma SwitchSpan(code: seq<byte>, pc: nat)
    requires pc < |code| && IsSwitch(code[pc])
    ensures var p := pc + 1 + Pad(pc); var n := |SwitchOffsets(code, pc)|;
      && (n > 0 && code[pc] == 0xaa ==> p + 12 + (n - 1) * 4 <= pc + Len(code, pc, 0))
      && (n > 0 && code[pc] == 0xab ==> p + 8 + (n - 1) * 8 <= pc + Len(code, pc, 0))
  {
    hide ReadI32, Pad, Len;
    LenOfSwitch(code, 0, pc);
  }

  lemma LenOfSwitch(code: seq<byte>, base: nat, pc: nat)
    requires pc < |code| && IsSwitch(code[pc])
    ensures Len(code, pc, base) == SwitchLength(code, pc, base)
  {
    hide SwitchLength;
  }

  lemma SameSwitch(a: seq<byte>, b: seq<byte>, pc: nat)
    requires pc < |a| && SameBytes(a, b, pc, Len(a, pc, 0))
    ensures SwitchOffsets(a, pc) == SwitchOffsets(b, pc)
  {
    hide Len, SwitchOffsets;
    assert a[pc] == b[pc];
    if IsSwitch(a[pc]) {
      SwitchSpan(a, pc);
      OperandsSame(a, b, pc, pc + Len(a, pc, 0));
    } else {
      NoOffsets(a, pc);
      NoOffsets(b, pc);
    }
  }

  lemma NoOffsets(code: seq<byte>, pc: nat)
    requires pc < |code| && !IsSwitch(code[pc])
    ensures SwitchOffsets(code, pc) == []
  {
  }

  /** Where the operand of offset `k` of a switch lies. */
  function OperandAt(op: byte, p: nat, k: nat): nat {
    if k == 0 then p else if op == 0xaa then p + 12 + (k - 1) * 4 else p + 8 + (k - 1) * 8 + 4
  }

  lemma OperandInside(op: byte, p: nat, k: nat, n: nat, end: nat)
    requires k < n && (if op == 0xaa then p + 12 + (n - 1) * 4 else p + 8 + (n - 1) * 8) <= end
    ensures OperandAt(op, p, k) + 4 <= end && p <= OperandAt(op, p, k)
  {
  }

  /** The offsets of a switch are its operands. */
  lemma OperandsOf(code: seq<byte>, pc: nat, k: nat)
    requires pc < |code| && IsSwitch(code[pc]) && k < |SwitchOffsets(code, pc)|
    ensures var at := OperandAt(code[pc], pc + 1 + Pad(pc), k); at + 4 <= |code| && SwitchOffsets(code, pc)[k] == ReadI32(code, at)
  {
    hide ReadI32, Pad;
  }

  /** How many there are depends on the leading operands. */
  lemma CountSame(a: seq<byte>, b: seq<byte>, pc: nat)
    requires pc < |a| == |b| && a[pc] == b[pc] && IsSwitch(a[pc])
    requires var p := pc + 1 + Pad(pc); p + 12 <= |a| && a[pc] == 0xaa ==>
      ReadI32(a, p + 4) == ReadI32(b, p + 4) && ReadI32(a, p + 8) == ReadI32(b, p + 8)
    requires var p := pc + 1 + Pad(pc); p + 8 <= |a| && a[pc] == 0xab ==> ReadI32(a, p + 4) == ReadI32(b, p + 4)
    ensures |SwitchOffsets(a, pc)| == |SwitchOffsets(b, pc)|
  {
    hide ReadI32, Pad;
  }

  lemma OperandsSame(a: seq<byte>, b: seq<byte>, pc: nat, end: nat)
    requires pc < |a| == |b| && IsSwitch(a[pc]) && pc < end <= |a| && forall k: nat :: pc <= k < end ==> a[k] == b[k]
    requires var p := pc + 1 + Pad(pc); var n := |SwitchOffsets(a, pc)|;
      n > 0 ==> (if a[pc] == 0xaa then p + 12 + (n - 1) * 4 else p + 8 + (n - 1) * 8) <= end
    ensures SwitchOffsets(a, pc) == SwitchOffsets(b, pc)
  {
    hide ReadI32, Pad, SwitchOffsets, OperandAt;
    var p, n := pc + 1 + Pad(pc), |SwitchOffsets(a, pc)|;
    HasOperands(a, pc);
    if n > 0 {
      WordSame(a, b, p + 4);
      if a[pc] == 0xaa { WordSame(a, b, p + 8); }
    }
    CountSame(a, b, pc);
    forall k: nat | k < n ensures SwitchOffsets(a, pc)[k] == SwitchOffsets(b, pc)[k] {
      OperandInside(a[pc], p, k, n, end);
      OperandsOf(a, pc, k);
      OperandsOf(b, pc, k);
      WordSame(a, b, OperandAt(a[pc], p, k));
    }
  }

  lemma HasOperands(code: seq<byte>, pc: nat)
    requires pc < |code| && IsSwitch(code[pc])
    ensures var p := pc + 1 + Pad(pc); SwitchOffsets(code, pc) == [] <==> |code| < p + (if code[pc] == 0xaa then 12 else 8)
  {
    hide ReadI32, Pad;
  }

  /** An instruction that runs is not cut by a range that none executes. */
  lemma KeptInstruction(code: seq<byte>, hs: seq<Handler>, rs: Intervals, pc: nat)
    requires Decodes(code, hs) && Visited(code, hs, pc) && NeverRun(code, hs, rs)
    requires forall i: nat :: i < |rs| ==> Meets(code, 0, 0, rs[i].0)
    ensures pc < |code| && SameBytes(code, Filled(code, rs), pc, Len(code, pc, 0))
  {
    hide Len, Meets, Flows, Visited;
    VisitedIsStart(code, hs, pc);
    NextStart(code, 0, pc, |code|);
    var n := Len(code, pc, 0);
    forall x: nat | pc <= x < pc + n ensures !InDead(x, rs) {
      if InDead(x, rs) {
        var i: nat :| i < |rs| && rs[i].0 <= x < rs[i].1;
        if pc < rs[i].0 { NextStart(code, 0, pc, rs[i].0); }
      }
    }
  }

  /** A step the method takes from `pc` is one the overwritten method takes, and the other way round. */
  lemma FillStep(code: seq<byte>, hs: seq<Handler>, rs: Intervals, pc: nat, next: nat)
    requires Decodes(code, hs) && Visited(code, hs, pc) && NeverRun(code, hs, rs)
    requires forall i: nat :: i < |rs| ==> Meets(code, 0, 0, rs[i].0)
    ensures Flows(code, hs, pc, next) <==> Flows(Filled(code, rs), hs, pc, next)
  {
    hide Flows, Visited, Len, SameBytes;
    KeptInstruction(code, hs, rs, pc);
    SameFlows(code, Filled(code, rs), hs, pc, next);
  }

  lemma {:induction false} FillForth(code: seq<byte>, hs: seq<Handler>, rs: Intervals, run: seq<nat>, i: nat)
    requires Decodes(code, hs) && NeverRun(code, hs, rs)
    requires forall i: nat :: i < |rs| ==> Meets(code, 0, 0, rs[i].0)
    requires IsPath(code, hs, run) && i < |run|
    ensures Visited(Filled(code, rs), hs, run[i])
    decreases i
  {
    hide Flows, Filled, Decodes, NeverRun;
    if i == 0 { Entered(Filled(code, rs), hs); } else {
      FillForth(code, hs, rs, run, i - 1);
      VisitPrefix(code, hs, run, i - 1);
      FillStep(code, hs, rs, run[i - 1], run[i]);
      VisitNext(Filled(code, rs), hs, run[i - 1], run[i]);
    }
  }

  lemma {:induction false} FillBack(code: seq<byte>, hs: seq<Handler>, rs: Intervals, run: seq<nat>, i: nat)
    requires Decodes(code, hs) && NeverRun(code, hs, rs)
    requires forall i: nat :: i < |rs| ==> Meets(code, 0, 0, rs[i].0)
    requires IsPath(Filled(code, rs), hs, run) && i < |run|
    ensures Visited(code, hs, run[i])
    decreases i
  {
    hide Flows, Filled, Decodes, NeverRun;
    if i == 0 { Entered(code, hs); } else {
      FillBack(code, hs, rs, run, i - 1);
      FillStep(code, hs, rs, run[i - 1], run[i]);
      VisitNext(code, hs, run[i - 1], run[i]);
    }
  }

  lemma Entered(code: seq<byte>, hs: seq<Handler>)
    requires 0 < |code|
    ensures Visited(code, hs, 0)
  {
    assert IsPath(code, hs, [0]) && [0][|[0]| - 1] == 0;
  }

  /**
   Overwriting reported ranges with `nop` keeps every run, and every byte of every
   instruction that runs, if no enterable handler is abandoned.
   */
  lemma FillKeepsRuns(code: seq<byte>, base: nat, hs: seq<Handler>, pc: nat)
    requires InStep(code, base) && Decodes(code, hs) && HandlersClear(code, hs)
    ensures var now := Filled(code, Reported(code, base));
      && (Visited(now, hs, pc) <==> Visited(code, hs, pc))
      && (Visited(code, hs, pc) ==> pc < |code| && SameBytes(code, now, pc, Len(code, pc, 0)))
  {
    hide Flows, Filled, HandlersClear, Len, Meets, SameBytes, InStep;
    var rs := Reported(code, base);
    HandlersExact(code, base, hs);
    ReportedStarts(code, base);
    if Visited(code, hs, pc) {
      KeptInstruction(code, hs, rs, pc);
      var run :| IsPath(code, hs, run) && run[|run| - 1] == pc;
      FillForth(code, hs, rs, run, |run| - 1);
    }
    if Visited(Filled(code, rs), hs, pc) {
      var run :| IsPath(Filled(code, rs), hs, run) && run[|run| - 1] == pc;
      FillBack(code, hs, rs, run, |run| - 1);
    }
  }

  lemma ReportedStarts(code: seq<byte>, base: nat)
    requires Meets(code, 0, 0, |code|) && InStep(code, base)
    ensures forall i: nat :: i < |Reported(code, base)| ==> Meets(code, 0, 0, Reported(code, base)[i].0)
  {
    hide ScanFrom, TargetsFrom, Meets, InStep;
    SameStarts(code, base);
    var targets := TargetsFrom(code, base, 0);
    ScanRanges(code, base, targets, 0, None);
    var rs := Reported(code, base);
    forall i: nat | i < |rs| ensures Meets(code, 0, 0, rs[i].0) { assert RangeOk(code, base, targets, 0, None, rs[i]); }
  }

  // ---- Code that is lost -----------------------------------------------------------------------------

  /** It is enough that every decoded instruction leads to decoded ones. */
  lemma ClosedDecodes(code: seq<byte>, hs: seq<Handler>)
    requires Meets(code, 0, 0, |code|) && |code| <= 0x1_0000_0000
    requires forall pc: nat, next: nat :: IsStart(code, 0, pc) && Flows(code, hs, pc, next) ==> IsStart(code, 0, next)
    ensures Decodes(code, hs)
  {
    hide Flows, Len;
    forall pc: nat | Visited(code, hs, pc) ensures IsStart(code, 0, pc) {
      var run :| IsPath(code, hs, run) && run[|run| - 1] == pc;
      ClosedRun(code, hs, run, |run| - 1);
    }
  }

  lemma {:induction false} ClosedRun(code: seq<byte>, hs: seq<Handler>, run: seq<nat>, i: nat)
    requires forall pc: nat, next: nat :: IsStart(code, 0, pc) && Flows(code, hs, pc, next) ==> IsStart(code, 0, next)
    requires IsPath(code, hs, run) && i < |run|
    ensures IsStart(code, 0, run[i])
    decreases i
  {
    hide Flows, Len;
    if i > 0 {
      ClosedRun(code, hs, run, i - 1);
      assert Flows(code, hs, run[i - 1], run[i]);
    }
  }

  /** `aconst_null; athrow; pop; return`, the first two protected by a handler at the third. */
  const LOST: seq<byte> := [0x01, 0xbf, 0x57, 0xb1]

  /** The handler runs, is reported dead, and its `pop` is overwritten. */
  lemma HandlerLost(base: nat)
    ensures
      var hs := [Handler(0, 2, 2)];
      && Decodes(LOST, hs) && Visited(LOST, hs, 2) && InDead(2, Reported(LOST, base))
      && Filled(LOST, Reported(LOST, base))[2] == 0
  {
    hide Decodes, Visited, Reported, InDead, Flows;
    var hs := [Handler(0, 2, 2)];
    Entered(LOST, hs);
    LostThrows(hs);
    VisitNext(LOST, hs, 0, 2);
    OneByteEach(0);
    ClosedDecodes(LOST, hs) by { hide *; LostClosed(hs); OneByteEach(0); }
    LostAbandoned(base);
    ReportedExact(LOST, base, 2);
  }

  lemma LostThrows(hs: seq<Handler>)
    requires hs == [Handler(0, 2, 2)]
    ensures Flows(LOST, hs, 0, 2)
  {
    assert hs[0] in hs && ThrowsTo(hs, 0, 2);
  }

  lemma LostClosed(hs: seq<Handler>)
    ensures |LOST| == 4
    ensures forall pc: nat, next: nat :: IsStart(LOST, 0, pc) && Flows(LOST, hs, pc, next) ==> IsStart(LOST, 0, next)
  {
    OneByteEach(0);
  }

  lemma OneByteEach(base: nat)
    ensures forall pc: nat :: pc < 4 ==> Len(LOST, pc, base) == 1 && Meets(LOST, base, 0, pc)
    ensures Meets(LOST, base, 0, 4)
  {
    assert Meets(LOST, base, 4, 4);
    assert Meets(LOST, base, 3, 4) && Meets(LOST, base, 3, 3);
    assert Meets(LOST, base, 2, 4) && Meets(LOST, base, 2, 3) && Meets(LOST, base, 2, 2);
    assert Meets(LOST, base, 1, 4) && Meets(LOST, base, 1, 3) && Meets(LOST, base, 1, 2) && Meets(LOST, base, 1, 1);
  }

  lemma LostAbandoned(base: nat)
    ensures Abandoned(LOST, base, 2)
  {
    hide Len;
    OneByteEach(base);
    assert EndsFlow(LOST, base, 2) by { assert IsStart(LOST, base, 1) && IsTerminator(LOST[1]); }
    assert forall pc: nat :: pc < 4 ==> TargetsAt(LOST, pc) == {};
    assert Stretch(LOST, base, 2, 4);
  }

  /**
   `iconst_0; lookupswitch` without pairs and a default at 12; there `aconst_null`,
   four `nop`, `wide iinc 0 177`, `pop` and `return`.  Read with any other padding,
   the switch ends inside the `iinc`, whose last byte passes for a `return`.
   */
  const LOST_SWITCH: seq<byte> := [
    0x03, 0xab, 0, 0, 0, 0, 0, 0x0b, 0, 0, 0, 0, 0x01, 0, 0, 0, 0, 0xc4, 0x84, 0, 0, 0, 0xb1, 0x57, 0xb1]

  /** At every offset that is no multiple of four the last two instructions run, are
      reported dead and are overwritten. */
  lemma SwitchLost(base: nat)
    requires base % 4 != 0
    ensures Decodes(LOST_SWITCH, []) && Visited(LOST_SWITCH, [], 23) && InDead(23, Reported(LOST_SWITCH, base))
    ensures LOST_SWITCH[23] == 0x57 && Filled(LOST_SWITCH, Reported(LOST_SWITCH, base))[23] == 0
  {
    hide Decodes, Visited, Reported, InDead;
    SwitchRuns();
    SwitchAbandoned(base);
    ReportedExact(LOST_SWITCH, base, 23);
  }

  /** The JVM decodes these positions. */
  predicate SwitchStart(pc: nat) { pc in {0, 1, 12, 13, 14, 15, 16, 17, 23, 24} }

  lemma SwitchWords()
    ensures |LOST_SWITCH| == 25 && SwitchOffsets(LOST_SWITCH, 1) == [11] && SwitchLength(LOST_SWITCH, 1, 0) == 11
  {
    assert Pad(1) == 2;
    assert ReadI32(LOST_SWITCH, 4) == 11 && ReadI32(LOST_SWITCH, 8) == 0;
  }

  /** The lengths of the opcodes below. */
  lemma OpcodeLength(code: seq<byte>, pc: nat, base: nat)
    requires pc + 1 < |code| || (pc < |code| && code[pc] != 0xc4)
    ensures code[pc] in {0x00, 0x01, 0x03, 0x57, 0xb1} ==> Len(code, pc, base) == 1
    ensures code[pc] == 0x84 ==> Len(code, pc, base) == 3
    ensures code[pc] == 0xc4 && code[pc + 1] == 0x84 ==> Len(code, pc, base) == 6
  {
    hide SwitchLength;
  }

  lemma SwitchLengths()
    ensures forall pc: nat :: SwitchStart(pc) ==> Len(LOST_SWITCH, pc, 0) == if pc == 1 then 11 else if pc == 17 then 6 else 1
  {
    hide Len, SwitchLength;
    SwitchWords();
    forall pc: nat | SwitchStart(pc)
      ensures Len(LOST_SWITCH, pc, 0) == if pc == 1 then 11 else if pc == 17 then 6 else 1
    {
      if pc == 1 { LenOfSwitch(LOST_SWITCH, 0, 1); } else { OpcodeLength(LOST_SWITCH, pc, 0); }
    }
  }

  lemma SwitchStarts()
    ensures forall pc: nat :: Meets(LOST_SWITCH, 0, 0, pc) <==> SwitchStart(pc) || pc == 25
  {
    hide Len;
    SwitchLengths();
    var c := LOST_SWITCH;
    forall pc: nat ensures Meets(c, 0, 0, pc) <==> SwitchStart(pc) || pc == 25 {
      assert Meets(c, 0, 25, pc) <==> pc == 25;
      assert Meets(c, 0, 24, pc) <==> pc == 24 || Meets(c, 0, 25, pc);
      assert Meets(c, 0, 23, pc) <==> pc == 23 || Meets(c, 0, 24, pc);
      assert Meets(c, 0, 17, pc) <==> pc == 17 || Meets(c, 0, 23, pc);
      assert Meets(c, 0, 16, pc) <==> pc == 16 || Meets(c, 0, 17, pc);
      assert Meets(c, 0, 15, pc) <==> pc == 15 || Meets(c, 0, 16, pc);
      assert Meets(c, 0, 14, pc) <==> pc == 14 || Meets(c, 0, 15, pc);
      assert Meets(c, 0, 13, pc) <==> pc == 13 || Meets(c, 0, 14, pc);
      assert Meets(c, 0, 12, pc) <==> pc == 12 || Meets(c, 0, 13, pc);
      assert Meets(c, 0, 1, pc) <==> pc == 1 || Meets(c, 0, 12, pc);
    }
  }

  lemma SwitchRuns()
    ensures Decodes(LOST_SWITCH, []) && Visited(LOST_SWITCH, [], 23)
  {
    hide Decodes, Visited, Len, Flows, Meets;
    var c := LOST_SWITCH;
    SwitchStarts();
    SwitchFlows();
    ClosedDecodes(c, []);
    Entered(c, []);
    VisitNext(c, [], 0, 1);
    VisitNext(c, [], 1, 12);
    VisitNext(c, [], 12, 13);
    VisitNext(c, [], 13, 14);
    VisitNext(c, [], 14, 15);
    VisitNext(c, [], 15, 16);
    VisitNext(c, [], 16, 17);
    VisitNext(c, [], 17, 23);
  }

  /** The one place control goes from each of them. */
  lemma SwitchFlows()
    ensures |LOST_SWITCH| == 25
    ensures forall pc: nat, next: nat :: SwitchStart(pc) ==>
      (Flows(LOST_SWITCH, [], pc, next) <==> pc != 24 && next == if pc == 1 then 12 else if pc == 17 then 23 else pc + 1)
  {
    hide Len, SwitchOffsets;
    SwitchWords();
    SwitchLengths();
    forall pc: nat, next: nat | SwitchStart(pc)
      ensures Flows(LOST_SWITCH, [], pc, next) <==> pc != 24 && next == if pc == 1 then 12 else if pc == 17 then 23 else pc + 1
    {
      if pc == 1 { DefaultOnly(next); } else { NoOffsets(LOST_SWITCH, pc); }
    }
  }

  lemma DefaultOnly(next: nat)
    requires SwitchOffsets(LOST_SWITCH, 1) == [11] && |LOST_SWITCH| == 25
    ensures SwitchesTo(LOST_SWITCH, 1, next) <==> next == 12
  {
    hide SwitchOffsets;
    assert [11][0] == 11 && 11 in SwitchOffsets(LOST_SWITCH, 1);
  }

  /** The source's length of the switch, by the offset modulo four. */
  lemma WrongLength(base: nat)
    requires base % 4 != 0
    ensures SwitchLength(LOST_SWITCH, 1, base) == if base % 4 == 1 then 18 else if base % 4 == 2 then 17 else 20
  {
    hide ReadI32;
    var c := LOST_SWITCH;
    assert Pad(base + 1) == if base % 4 == 1 then 1 else if base % 4 == 2 then 0 else 3;
    WrongCounts();
  }

  lemma WrongCounts()
    ensures ReadI32(LOST_SWITCH, 7) == 0xb00_0000 && ReadI32(LOST_SWITCH, 6) == 0xb_0000 && ReadI32(LOST_SWITCH, 9) == 1
  {
  }

  /** Whatever the wrong padding, the last byte of the `iinc` is decoded as an instruction. */
  lemma WrongStarts(base: nat)
    requires base % 4 != 0
    ensures IsStart(LOST_SWITCH, base, 22) && Len(LOST_SWITCH, 22, base) == 1
  {
    hide Len;
    var c := LOST_SWITCH;
    WrongLengths(base);
    assert Meets(c, base, 22, 22);
    assert Meets(c, base, 21, 22);
    assert Meets(c, base, 18, 22);
    assert Meets(c, base, 20, 22);
    assert Meets(c, base, 19, 22);
    assert Meets(c, base, 1, 22);
    assert Meets(c, base, 0, 22);
  }

  lemma WrongLengths(base: nat)
    requires base % 4 != 0
    ensures |LOST_SWITCH| == 25
    ensures Len(LOST_SWITCH, 1, base) == if base % 4 == 1 then 18 else if base % 4 == 2 then 17 else 20
    ensures Len(LOST_SWITCH, 0, base) == 1 && Len(LOST_SWITCH, 18, base) == 3
    ensures forall pc: nat :: 19 <= pc <= 22 ==> Len(LOST_SWITCH, pc, base) == 1
  {
    hide SwitchLength, Len;
    WrongLength(base);
    LenOfSwitch(LOST_SWITCH, base, 1);
    OpcodeLength(LOST_SWITCH, 0, base);
    OpcodeLength(LOST_SWITCH, 18, base);
    forall pc: nat | 19 <= pc <= 22 ensures Len(LOST_SWITCH, pc, base) == 1 { OpcodeLength(LOST_SWITCH, pc, base); }
  }

  lemma SwitchAbandoned(base: nat)
    requires base % 4 != 0
    ensures Abandoned(LOST_SWITCH, base, 23)
  {
    hide Len, Meets;
    WrongStarts(base);
    assert EndsFlow(LOST_SWITCH, base, 23) by { assert IsTerminator(LOST_SWITCH[22]); }
    OnlyTwelve();
    assert Stretch(LOST_SWITCH, base, 23, 25);
  }

  lemma OnlyTwelve()
    ensures |LOST_SWITCH| == 25 && forall pc: nat, y: nat :: pc < 25 && y in TargetsAt(LOST_SWITCH, pc) ==> y == 12
  {
    hide SwitchOffsets;
    SwitchWords();
    forall pc: nat, y: nat | pc < 25 && y in TargetsAt(LOST_SWITCH, pc) ensures y == 12 {
      if pc != 1 { NoOffsets(LOST_SWITCH, pc); }
    }
  }

  /** What `HandlersExact` and `NoHandlersSound` promise is promised of every method
      exactly at the offsets that are a multiple of four. */
  lemma BaseExact(base: nat)
    ensures (forall code: seq<byte> :: Decodes(code, []) ==> NeverRun(code, [], Reported(code, base))) <==> base % 4 == 0
    ensures base % 4 == 0 <==> forall code: seq<byte>, hs: seq<Handler> :: Decodes(code, hs) && HandlersClear(code, hs) ==>
      NeverRun(code, hs, Reported(code, base))
  {
    hide Decodes, NeverRun, Reported, HandlersClear;
    if base % 4 == 0 {
      forall code: seq<byte>, hs: seq<Handler> | Decodes(code, hs) ensures HandlersClear(code, hs) ==> NeverRun(code, hs, Reported(code, base)) {
        HandlersExact(code, base, hs);
      }
      forall code: seq<byte> | Decodes(code, []) ensures NeverRun(code, [], Reported(code, base)) { NoHandlersSound(code, base); }
    } else {
      SwitchLost(base);
      LostRuns(base);
      NoHandlersClear(LOST_SWITCH);
    }
  }

  lemma NoHandlersClear(code: seq<byte>)
    ensures HandlersClear(code, [])
  {
  }

  lemma LostRuns(base: nat)
    requires Visited(LOST_SWITCH, [], 23) && InDead(23, Reported(LOST_SWITCH, base))
    ensures !NeverRun(LOST_SWITCH, [], Reported(LOST_SWITCH, base))
  {
  }
}
