/**
 Compaction of a method body (src/format/java/bytecode.rs:422-627).

 The main result is a simulation: after the branches are patched and the dead
 ranges cut out, control goes from one instruction to another exactly when it
 did before, each instruction standing at its old address less the bytes cut
 out before it.  The new branch offsets always fit their fields.
 */
module JavaCompact {
  import opened Wrappers
  import opened Bytes
  import opened AddressMap
  import opened JvmCode
  import opened JavaDead
  import Compact

  // ---- Branch patching (bytecode.rs:555-608) --------------------------------------

  /** `java_shift`. */
  method JavaShift(offset: nat, ranges: Intervals) returns (shift: nat)
    requires Upright(ranges)
    ensures shift == Shift(offset, ranges)
  {
    shift := 0;
    for i := 0 to |ranges|
      invariant shift == Shift(offset, ranges[..i])
    {
      var (s, e) := ranges[i];
      assert ranges[..i + 1][..i] == ranges[..i];
      if s < offset {
        shift := shift + AddressMap.Min(e, offset) - s;
      }
    }
    assert ranges[..|ranges|] == ranges;
  }

  /** `x as usize` of a signed 32-bit value. */
  function AsUsize(x: int): nat { if x >= 0 then x else if x + 0x1_0000_0000_0000_0000 >= 0 then x + 0x1_0000_0000_0000_0000 else 0 }

  lemma AsUsizeIs(x: int)
    requires -0x8000_0000_0000_0000 <= x < 0x1_0000_0000_0000_0000
    ensures AsUsize(x) == x % 0x1_0000_0000_0000_0000
  {
  }

  /** The offset written into the branch at `pc` whose target is `tgt`. */
  function NewOffset(pc: nat, tgt: int, ranges: Intervals): int {
    (AsUsize(tgt) - Shift(AsUsize(tgt), ranges)) - (pc - Shift(pc, ranges))
  }

  /** The bytes of the instruction at `pc` after patching. */
  function PatchedInstr(code: seq<byte>, pc: nat, base: nat, ranges: Intervals): seq<byte>
    requires pc < |code|
  {
    if HasTarget(code, pc) then
      if IsBranch16(code[pc]) then [code[pc]] + I16Bytes(NewOffset(pc, BranchTarget(code, pc), ranges))
      else [code[pc]] + I32Bytes(NewOffset(pc, BranchTarget(code, pc), ranges))
    else code[pc..JvmCode.Min(pc + Len(code, pc, base), |code|)]
  }

  lemma PatchedInstrLength(code: seq<byte>, pc: nat, base: nat, ranges: Intervals)
    requires pc < |code|
    ensures |PatchedInstr(code, pc, base, ranges)| == JvmCode.Min(pc + Len(code, pc, base), |code|) - pc
  {
  }

  /** The instruction at `pc` of `code` reads in `now` as patched. */
  ghost predicate PatchedAt(code: seq<byte>, now: seq<byte>, base: nat, ranges: Intervals, pc: nat)
    requires pc < |code| == |now|
  {
    now[pc..JvmCode.Min(pc + Len(code, pc, base), |code|)] == PatchedInstr(code, pc, base, ranges)
  }

  /** Every instruction is patched. */
  ghost predicate Patched(code: seq<byte>, now: seq<byte>, base: nat, ranges: Intervals) {
    |now| == |code| && forall pc: nat :: IsStart(code, base, pc) ==> PatchedAt(code, now, base, ranges, pc)
  }

  method PatchOne(code: array<byte>, pos: nat, base: nat, ranges: Intervals)
    requires pos < code.Length && Upright(ranges)
    modifies code
    ensures pos + |PatchedInstr(old(code[..]), pos, base, ranges)| <= code.Length
    ensures code[..] == Put(old(code[..]), pos, PatchedInstr(old(code[..]), pos, base, ranges))
  {
    hide Len, PatchedInstr, Shift, I16Bytes, I32Bytes, ReadI16, ReadI32;
    ghost var was := code[..];
    PatchedForms(was, pos, base, ranges);
    var op := code[pos];
    if IsBranch16(op) && pos + 3 <= code.Length {
      var tgt := pos + ReadI16(code[..], pos + 1);
      var s1 := JavaShift(pos, ranges);
      var s2 := JavaShift(AsUsize(tgt), ranges);
      var bytes := I16Bytes((AsUsize(tgt) - s2) - (pos - s1));
      code[pos + 1], code[pos + 2] := bytes[0], bytes[1];
      assert PatchedInstr(was, pos, base, ranges) == [op] + bytes;
    } else if IsBranch32(op) && pos + 5 <= code.Length {
      var tgt := pos + ReadI32(code[..], pos + 1);
      var s1 := JavaShift(pos, ranges);
      var s2 := JavaShift(AsUsize(tgt), ranges);
      var bytes := I32Bytes((AsUsize(tgt) - s2) - (pos - s1));
      code[pos + 1], code[pos + 2], code[pos + 3], code[pos + 4] := bytes[0], bytes[1], bytes[2], bytes[3];
      assert PatchedInstr(was, pos, base, ranges) == [op] + bytes;
    }
  }

  /** A branch is its opcode and the new offset; anything else is as it was. */
  lemma PatchedForms(code: seq<byte>, pc: nat, base: nat, ranges: Intervals)
    requires pc < |code|
    ensures pc + |PatchedInstr(code, pc, base, ranges)| <= |code|
    ensures HasTarget(code, pc) && IsBranch16(code[pc]) ==>
      PatchedInstr(code, pc, base, ranges) == [code[pc]] + I16Bytes(NewOffset(pc, BranchTarget(code, pc), ranges))
    ensures HasTarget(code, pc) && !IsBranch16(code[pc]) ==>
      PatchedInstr(code, pc, base, ranges) == [code[pc]] + I32Bytes(NewOffset(pc, BranchTarget(code, pc), ranges))
    ensures !HasTarget(code, pc) ==> Put(code, pc, PatchedInstr(code, pc, base, ranges)) == code
  {
    hide Shift, ReadI16, ReadI32, I16Bytes, I32Bytes;
    PatchedInstrLength(code, pc, base, ranges);
  }

  /** Branches are patched in place. */
  method PatchCodeBranches(code: array<byte>, base: nat, ranges: Intervals)
    requires Upright(ranges)
    modifies code
    ensures Patched(old(code[..]), code[..], base, ranges)
  {
    hide Len, PatchedInstr, PatchedAt;
    ghost var orig := code[..];
    var pos: nat := 0;
    while pos < code.Length
      invariant |orig| == code.Length && Meets(orig, base, 0, pos)
      invariant forall k: nat :: pos <= k < code.Length ==> code[k] == orig[k]
      invariant forall pc: nat :: IsStart(orig, base, pc) && pc < pos ==> PatchedAt(orig, code[..], base, ranges, pc)
      decreases code.Length - pos
    {
      ghost var was := code[..];
      LenTail(was, orig, pos, base);
      var len := Len(code[..], pos, base);
      PatchOne(code, pos, base, ranges);
      PatchStep(orig, was, code[..], base, ranges, pos);
      pos := pos + len;
    }
    MeetsEnd(orig, base, pos);
  }

  lemma MeetsEnd(code: seq<byte>, base: nat, pos: nat)
    requires pos >= |code|
    ensures forall pc: nat :: IsStart(code, base, pc) ==> pc < pos
  {
  }

  lemma PatchStep(orig: seq<byte>, was: seq<byte>, now: seq<byte>, base: nat, ranges: Intervals, pos: nat)
    requires pos < |orig| == |was| && Meets(orig, base, 0, pos)
    requires forall k: nat :: pos <= k < |orig| ==> was[k] == orig[k]
    requires forall pc: nat :: IsStart(orig, base, pc) && pc < pos ==> PatchedAt(orig, was, base, ranges, pc)
    requires pos + |PatchedInstr(was, pos, base, ranges)| <= |orig| && now == Put(was, pos, PatchedInstr(was, pos, base, ranges))
    ensures Meets(orig, base, 0, pos + Len(orig, pos, base))
    ensures forall k: nat :: pos + Len(orig, pos, base) <= k < |orig| ==> now[k] == orig[k]
    ensures forall pc: nat :: IsStart(orig, base, pc) && pc < pos + Len(orig, pos, base) ==> PatchedAt(orig, now, base, ranges, pc)
  {
    hide Len, PatchedInstr;
    LenTail(was, orig, pos, base);
    PatchedTail(was, orig, pos, base, ranges);
    PatchedInstrLength(orig, pos, base, ranges);
    MeetsTrans(orig, base, 0, pos, pos + Len(orig, pos, base));
    forall pc: nat | IsStart(orig, base, pc) && pc < pos + Len(orig, pos, base)
      ensures PatchedAt(orig, now, base, ranges, pc)
    {
      if pc < pos {
        NextStart(orig, base, pc, pos);
        assert PatchedAt(orig, was, base, ranges, pc);
        var hi := JvmCode.Min(pc + Len(orig, pc, base), |orig|);
        assert now[pc..hi] == was[pc..hi];
      } else if pos < pc {
        NextStart(orig, base, pos, pc);
      }
    }
  }

  lemma PatchedTail(a: seq<byte>, b: seq<byte>, pos: nat, base: nat, ranges: Intervals)
    requires |a| == |b| && pos < |a| && forall k: nat :: pos <= k < |a| ==> a[k] == b[k]
    ensures PatchedInstr(a, pos, base, ranges) == PatchedInstr(b, pos, base, ranges)
  {
    hide Len, NewOffset, BranchTarget, I16Bytes, I32Bytes;
    LenTail(a, b, pos, base);
    TargetTail(a, b, pos);
    var hi := JvmCode.Min(pos + Len(a, pos, base), |a|);
    assert a[pos..hi] == b[pos..hi];
  }

  lemma TargetTail(a: seq<byte>, b: seq<byte>, pos: nat)
    requires |a| == |b| && pos < |a| && forall k: nat :: pos <= k < |a| ==> a[k] == b[k]
    ensures HasTarget(a, pos) == HasTarget(b, pos)
    ensures HasTarget(a, pos) ==> BranchTarget(a, pos) == BranchTarget(b, pos)
  {
  }

  /** A length depends only on the bytes from `pos` on. */
  lemma LenTail(a: seq<byte>, b: seq<byte>, pos: nat, base: nat)
    requires |a| == |b| && pos < |a| && forall k: nat :: pos <= k < |a| ==> a[k] == b[k]
    ensures Len(a, pos, base) == Len(b, pos, base)
  {
    hide SwitchLength;
    SwitchTail(a, b, pos, base);
  }

  lemma SwitchTail(a: seq<byte>, b: seq<byte>, pos: nat, base: nat)
    requires |a| == |b| && pos < |a| && forall k: nat :: pos <= k < |a| ==> a[k] == b[k]
    ensures SwitchLength(a, pos, base) == SwitchLength(b, pos, base)
  {
    hide Signed;
  }

  // ---- Cutting out (bytecode.rs:611-627) -----------------------------------------------

  method ExciseRanges(code: seq<byte>, ranges: Intervals) returns (result: seq<byte>)
    requires Fits(ranges, 0, |code|)
    ensures result == Compact.LiveBytes(code, ranges, 0, |code|)
  {
    result := [];
    var pos: nat := 0;
    for i := 0 to |ranges|
      invariant pos <= |code| && result == Compact.LiveBytes(code, ranges, 0, pos)
      invariant pos == if i == 0 then 0 else ranges[i - 1].1
    {
      var (start, end) := ranges[i];
      Compact.LiveGap(ranges, 0, |code|, i);
      Compact.LiveStretch(code, ranges, 0, pos, start);
      Compact.DeadStretch(code, ranges, 0, start, end);
      if start > pos {
        result := result + code[pos..start];
      }
      pos := end;
    }
    Compact.LiveGap(ranges, 0, |code|, |ranges|);
    Compact.LiveStretch(code, ranges, 0, pos, |code|);
    if pos < |code| {
      result := result + code[pos..];
    }
  }

  // ---- The simulation ---------------------------------------------------------------------

  /** A method and ranges that may be cut out of it. */
  ghost predicate Plan(code: seq<byte>, base: nat, rs: Intervals) {
    && Linear(code, base) && BranchesToStarts(code, base) && |code| < 0x8000_0000
    && Fits(rs, 0, |code|) && forall i: nat :: i < |rs| ==> Excisable(code, base, rs[i])
  }

  /** `new_` is the compacted form of `code`. */
  ghost predicate Result(code: seq<byte>, base: nat, rs: Intervals, new_: seq<byte>) {
    exists mid :: Patched(code, mid, base, rs) && new_ == Compact.LiveBytes(mid, rs, 0, |mid|)
  }

  function NewPc(pc: nat, rs: Intervals): int { pc - Shift(pc, rs) }

  lemma ReachableIsLive(code: seq<byte>, base: nat, rs: Intervals, pc: nat)
    requires Plan(code, base, rs) && Reachable(code, base, pc)
    ensures !InDead(pc, rs) && IsStart(code, base, pc)
  {
    hide Len, Reachable, Linear, BranchesToStarts, IsStart;
    ReachableIsStart(code, base, pc);
  }

  /** A live instruction is live as a whole, and inside the method. */
  lemma LiveInstruction(code: seq<byte>, base: nat, rs: Intervals, pc: nat)
    requires Plan(code, base, rs) && IsStart(code, base, pc) && !InDead(pc, rs)
    ensures pc + Len(code, pc, base) <= |code|
    ensures forall x: nat :: pc <= x < pc + Len(code, pc, base) ==> !InDead(x, rs)
    ensures 0 <= NewPc(pc, rs) && NewPc(pc + Len(code, pc, base), rs) == NewPc(pc, rs) + Len(code, pc, base)
  {
    hide Len;
    var next := pc + Len(code, pc, base);
    NextStart(code, base, pc, |code|);
    forall x: nat | pc <= x < next ensures !InDead(x, rs) {
      if InDead(x, rs) {
        var i: nat :| i < |rs| && rs[i].0 <= x < rs[i].1;
        assert Excisable(code, base, rs[i]);
        if pc < rs[i].0 { NextStart(code, base, pc, rs[i].0); }
      }
    }
    ShiftFlat(rs, 0, |code|, pc, next);
    ShiftInside(rs, 0, |code|, pc);
  }

  /** The bytes of a live instruction in the result. */
  lemma InstructionLands(code: seq<byte>, base: nat, rs: Intervals, mid: seq<byte>, pc: nat)
    requires Plan(code, base, rs) && IsStart(code, base, pc) && !InDead(pc, rs) && Patched(code, mid, base, rs)
    ensures var new_ := Compact.LiveBytes(mid, rs, 0, |mid|);
      && 0 <= NewPc(pc, rs) && NewPc(pc, rs) + Len(code, pc, base) <= |new_|
      && new_[NewPc(pc, rs)..NewPc(pc, rs) + Len(code, pc, base)] == PatchedInstr(code, pc, base, rs)
  {
    hide Len, PatchedInstr;
    LiveInstruction(code, base, rs, pc);
    PatchedInstrLength(code, pc, base, rs);
    Compact.LiveRunLands(mid, rs, 0, pc, Len(code, pc, base));
    assert PatchedAt(code, mid, base, rs, pc);
  }

  // ---- Offsets ---------------------------------------------------------------------------

  /** A new offset lies between zero and the old one. */
  lemma OffsetShrinks(rs: Intervals, n: nat, pc: nat, tgt: nat)
    requires Fits(rs, 0, n) && pc < n && tgt < n
    ensures NewOffset(pc, tgt, rs) == NewPc(tgt, rs) - NewPc(pc, rs)
    ensures if tgt >= pc then 0 <= NewOffset(pc, tgt, rs) <= tgt - pc else tgt - pc <= NewOffset(pc, tgt, rs) <= 0
  {
    if tgt >= pc { ShiftBetween(rs, 0, n, pc, tgt); } else { ShiftBetween(rs, 0, n, tgt, pc); }
  }

  ghost predicate TargetMoved(code: seq<byte>, rs: Intervals, new_: seq<byte>, pc: nat, q: nat)
    requires HasTarget(code, pc) && HasTarget(new_, q)
  {
    BranchTarget(code, pc) >= 0 && BranchTarget(new_, q) == NewPc(BranchTarget(code, pc), rs)
  }

  /** The instruction at `pc` reads the same in the result, at its new place,
      with its target moved. */
  ghost predicate SameInstruction(code: seq<byte>, base: nat, rs: Intervals, new_: seq<byte>, base': nat, pc: nat) {
    && IsStart(code, base, pc) && 0 <= NewPc(pc, rs) < |new_|
    && var q := NewPc(pc, rs);
    && new_[q] == code[pc] && Len(new_, q, base') == Len(code, pc, base) && q + Len(code, pc, base) <= |new_|
    && HasTarget(new_, q) == HasTarget(code, pc)
    && pc + Len(code, pc, base) <= |code|
    && (HasTarget(code, pc) ==> TargetMoved(code, rs, new_, pc, q))
    && (!HasTarget(code, pc) ==> new_[q..q + Len(code, pc, base)] == code[pc..pc + Len(code, pc, base)])
  }

  /** A complete branch of a linear method has its whole length. */
  lemma BranchLength(code: seq<byte>, base: nat, pc: nat)
    requires HasTarget(code, pc)
    ensures Len(code, pc, base) == if IsBranch16(code[pc]) then 3 else 5
  {
  }

  lemma BranchWhole(code: seq<byte>, base: nat, pc: nat)
    requires pc < |code| && pc + Len(code, pc, base) <= |code|
    ensures HasTarget(code, pc) <==> IsBranch16(code[pc]) || IsBranch32(code[pc])
  {
  }

  /** Same bytes, same length, unless the bytes are a switch. */
  lemma LenMoves(a: seq<byte>, i: nat, base: nat, b: seq<byte>, j: nat, base': nat)
    requires i < |a| && !IsSwitch(a[i]) && i + Len(a, i, base) <= |a| && j + Len(a, i, base) <= |b|
    requires b[j] == a[i] && (a[i] == 0xC4 ==> b[j + 1] == a[i + 1])
    ensures Len(b, j, base') == Len(a, i, base)
  {
  }

  lemma LiveBranch(code: seq<byte>, base: nat, rs: Intervals, mid: seq<byte>, new_: seq<byte>, base': nat, pc: nat)
    requires Plan(code, base, rs) && Reachable(code, base, pc) && Patched(code, mid, base, rs)
    requires new_ == Compact.LiveBytes(mid, rs, 0, |mid|) && HasTarget(code, pc)
    ensures SameInstruction(code, base, rs, new_, base', pc)
  {
    ReachableIsLive(code, base, rs, pc);
    InstructionLands(code, base, rs, mid, pc);
    var q, tgt := NewPc(pc, rs), BranchTarget(code, pc);
    BranchLength(code, base, pc);
    assert IsStart(code, base, tgt);
    OffsetShrinks(rs, |code|, pc, tgt);
    BranchBytes(code, rs, new_, base', pc, q, tgt, Len(code, pc, base));
  }

  lemma BranchBytes(code: seq<byte>, rs: Intervals, new_: seq<byte>, base': nat, pc: nat, q: nat, tgt: nat, n: nat)
    requires HasTarget(code, pc) && n == (if IsBranch16(code[pc]) then 3 else 5) && q + n <= |new_|
    requires tgt == BranchTarget(code, pc) && NewOffset(pc, tgt, rs) == NewPc(tgt, rs) - q
    requires if tgt >= pc then 0 <= NewPc(tgt, rs) - q <= tgt - pc else tgt - pc <= NewPc(tgt, rs) - q <= 0
    requires new_[q..q + n] == [code[pc]] + (if IsBranch16(code[pc]) then I16Bytes(NewOffset(pc, tgt, rs)) else I32Bytes(NewOffset(pc, tgt, rs)))
    ensures new_[q] == code[pc] && Len(new_, q, base') == n && HasTarget(new_, q) && BranchTarget(new_, q) == NewPc(tgt, rs)
  {
    assert new_[q] == new_[q..q + n][0];
    assert new_[q + 1..q + n] == new_[q..q + n][1..];
    var off := NewOffset(pc, tgt, rs);
    if IsBranch16(code[pc]) {
      assert new_[q + 1..q + 1 + 2] == I16Bytes(off);
      I16RoundTrip(off, new_, q + 1);
    } else {
      assert new_[q + 1..q + 1 + 4] == I32Bytes(off);
      I32RoundTrip(off, new_, q + 1);
    }
  }

  lemma LiveOther(code: seq<byte>, base: nat, rs: Intervals, mid: seq<byte>, new_: seq<byte>, base': nat, pc: nat)
    requires Plan(code, base, rs) && Reachable(code, base, pc) && Patched(code, mid, base, rs)
    requires new_ == Compact.LiveBytes(mid, rs, 0, |mid|) && !HasTarget(code, pc)
    ensures SameInstruction(code, base, rs, new_, base', pc)
  {
    hide Plan, Reachable, Patched, NewPc, Len, HasTarget;
    ReachableIsLive(code, base, rs, pc);
    LiveInstruction(code, base, rs, pc);
    InstructionLands(code, base, rs, mid, pc);
    var q, n := NewPc(pc, rs), Len(code, pc, base);
    assert new_[q..q + n] == code[pc..pc + n];
    NotSwitch(code, base, rs, pc);
    OtherBytes(code, base, new_, base', pc, q, n);
  }

  lemma NotSwitch(code: seq<byte>, base: nat, rs: Intervals, pc: nat)
    requires Plan(code, base, rs) && IsStart(code, base, pc)
    ensures !IsSwitch(code[pc])
  {
  }

  lemma OtherBytes(code: seq<byte>, base: nat, new_: seq<byte>, base': nat, pc: nat, q: nat, n: nat)
    requires pc < |code| && n == Len(code, pc, base) && pc + n <= |code| && q + n <= |new_|
    requires new_[q..q + n] == code[pc..pc + n] && !HasTarget(code, pc) && !IsSwitch(code[pc])
    ensures new_[q] == code[pc] && Len(new_, q, base') == n && !HasTarget(new_, q)
  {
    assert new_[q] == new_[q..q + n][0] == code[pc];
    if code[pc] == 0xC4 { assert n >= 2 && new_[q + 1] == new_[q..q + n][1] == code[pc..pc + n][1]; }
    LenMoves(code, pc, base, new_, q, base');
    BranchWhole(code, base, pc);
  }

  lemma LiveSame(code: seq<byte>, base: nat, rs: Intervals, new_: seq<byte>, base': nat, pc: nat)
    requires Plan(code, base, rs) && Result(code, base, rs, new_) && Reachable(code, base, pc)
    ensures SameInstruction(code, base, rs, new_, base', pc)
  {
    var mid :| Patched(code, mid, base, rs) && new_ == Compact.LiveBytes(mid, rs, 0, |mid|);
    if HasTarget(code, pc) { LiveBranch(code, base, rs, mid, new_, base', pc); }
    else { LiveOther(code, base, rs, mid, new_, base', pc); }
  }

  /** The result is as long as the bytes left, and a live byte stays inside. */
  lemma NewPcInside(code: seq<byte>, base: nat, rs: Intervals, new_: seq<byte>, pc: nat)
    requires Plan(code, base, rs) && Result(code, base, rs, new_) && pc <= |code|
    ensures |new_| == NewPc(|code|, rs)
    ensures pc < |code| && !InDead(pc, rs) ==> NewPc(pc, rs) < |new_|
  {
    var mid :| Patched(code, mid, base, rs) && new_ == Compact.LiveBytes(mid, rs, 0, |mid|);
    Compact.LivePlace(mid, rs, 0, |mid|);
    if pc < |code| { ShiftBetween(rs, 0, |code|, pc, |code|); }
  }

  /** Live addresses stay distinct. */
  lemma NewPcInjective(code: seq<byte>, base: nat, rs: Intervals, a: nat, b: nat)
    requires Plan(code, base, rs) && Reachable(code, base, a) && Reachable(code, base, b)
    requires NewPc(a, rs) == NewPc(b, rs)
    ensures a == b
  {
    ReachableIsLive(code, base, rs, a);
    ReachableIsLive(code, base, rs, b);
    if a < b { ShiftBetween(rs, 0, |code|, a, b); } else if b < a { ShiftBetween(rs, 0, |code|, b, a); }
  }

  /** One step forward: where the method went, the result goes. */
  lemma StepForward(code: seq<byte>, base: nat, rs: Intervals, new_: seq<byte>, base': nat, pc: nat, next: nat)
    requires Plan(code, base, rs) && Result(code, base, rs, new_)
    requires Reachable(code, base, pc) && Goes(code, base, pc, next)
    ensures 0 <= NewPc(pc, rs) && 0 <= NewPc(next, rs) && Goes(new_, base', NewPc(pc, rs), NewPc(next, rs))
  {
    LiveSame(code, base, rs, new_, base', pc);
    ReachStep(code, base, pc, next);
    ReachableIsLive(code, base, rs, pc);
    ReachableIsLive(code, base, rs, next);
    NewPcInside(code, base, rs, new_, next);
    LiveInstruction(code, base, rs, pc);
    ShiftInside(rs, 0, |code|, next);
    GoesForward(code, base, rs, new_, base', pc, next, NewPc(pc, rs), NewPc(next, rs));
  }

  lemma GoesForward(code: seq<byte>, base: nat, rs: Intervals, new_: seq<byte>, base': nat, pc: nat, next: nat, q: nat, q2: nat)
    requires SameInstruction(code, base, rs, new_, base', pc) && Goes(code, base, pc, next)
    requires q == NewPc(pc, rs) && q2 == NewPc(next, rs) < |new_|
    requires NewPc(pc + Len(code, pc, base), rs) == q + Len(code, pc, base)
    ensures Goes(new_, base', q, q2)
  {
    hide Len, BranchTarget, HasTarget;
  }

  /** One step back: the result goes nowhere the method did not. */
  lemma StepBack(code: seq<byte>, base: nat, rs: Intervals, new_: seq<byte>, base': nat, pc: nat, q2: nat) returns (next: nat)
    requires Plan(code, base, rs) && Result(code, base, rs, new_) && Reachable(code, base, pc)
    requires 0 <= NewPc(pc, rs) && Goes(new_, base', NewPc(pc, rs), q2)
    ensures Goes(code, base, pc, next) && q2 == NewPc(next, rs)
  {
    LiveSame(code, base, rs, new_, base', pc);
    ReachableIsLive(code, base, rs, pc);
    LiveInstruction(code, base, rs, pc);
    NewPcInside(code, base, rs, new_, |code|);
    next := GoesBack(code, base, rs, new_, base', pc, NewPc(pc, rs), q2);
  }

  lemma GoesBack(code: seq<byte>, base: nat, rs: Intervals, new_: seq<byte>, base': nat, pc: nat, q: nat, q2: nat) returns (next: nat)
    requires SameInstruction(code, base, rs, new_, base', pc) && q == NewPc(pc, rs) && Goes(new_, base', q, q2)
    requires HasTarget(code, pc) ==> BranchTarget(code, pc) < |code|
    requires NewPc(pc + Len(code, pc, base), rs) == q + Len(code, pc, base) && |new_| == NewPc(|code|, rs)
    ensures Goes(code, base, pc, next) && q2 == NewPc(next, rs)
  {
    hide Len, BranchTarget;
    if HasTarget(new_, q) && q2 == BranchTarget(new_, q) {
      next := BranchTarget(code, pc);
    } else {
      next := pc + Len(code, pc, base);
    }
  }

  /** The addresses the result visits are exactly the moved addresses the
      method visits. */
  lemma SameReach(code: seq<byte>, base: nat, rs: Intervals, new_: seq<byte>, base': nat, q: nat)
    requires Plan(code, base, rs) && Result(code, base, rs, new_) && 0 < |code|
    ensures Reachable(new_, base', q) <==> exists pc: nat :: Reachable(code, base, pc) && q == NewPc(pc, rs)
  {
    if Reachable(new_, base', q) {
      var run :| IsRun(new_, base', run) && run[|run| - 1] == q;
      var pc := ReachBack(code, base, rs, new_, base', run, |run| - 1);
    }
    if pc: nat :| Reachable(code, base, pc) && q == NewPc(pc, rs) {
      var run :| IsRun(code, base, run) && run[|run| - 1] == pc;
      ReachForward(code, base, rs, new_, base', run, |run| - 1);
    }
  }

  lemma StartReachable(code: seq<byte>, base: nat)
    requires 0 < |code|
    ensures Reachable(code, base, 0)
  {
    assert IsRun(code, base, [0]);
  }

  lemma {:induction false} ReachBack(code: seq<byte>, base: nat, rs: Intervals, new_: seq<byte>, base': nat, run: seq<nat>, i: nat)
    returns (pc: nat)
    requires Plan(code, base, rs) && Result(code, base, rs, new_) && 0 < |code|
    requires IsRun(new_, base', run) && i < |run|
    ensures Reachable(code, base, pc) && run[i] == NewPc(pc, rs)
    decreases i
  {
    if i == 0 {
      pc := 0;
      StartReachable(code, base);
      ShiftInside(rs, 0, |code|, 0);
    } else {
      var prev := ReachBack(code, base, rs, new_, base', run, i - 1);
      pc := StepBack(code, base, rs, new_, base', prev, run[i]);
      ReachStep(code, base, prev, pc);
    }
  }

  lemma {:induction false} ReachForward(code: seq<byte>, base: nat, rs: Intervals, new_: seq<byte>, base': nat, run: seq<nat>, i: nat)
    requires Plan(code, base, rs) && Result(code, base, rs, new_) && IsRun(code, base, run) && i < |run|
    ensures Reachable(code, base, run[i]) && 0 <= NewPc(run[i], rs) && Reachable(new_, base', NewPc(run[i], rs))
    decreases i
  {
    if i == 0 {
      StartReachable(code, base);
      ReachableIsLive(code, base, rs, 0);
      ShiftInside(rs, 0, |code|, 0);
      NewPcInside(code, base, rs, new_, 0);
      StartReachable(new_, base');
    } else {
      ReachForward(code, base, rs, new_, base', run, i - 1);
      StepForward(code, base, rs, new_, base', run[i - 1], run[i]);
      ReachStep(code, base, run[i - 1], run[i]);
      ReachStep(new_, base', NewPc(run[i - 1], rs), NewPc(run[i], rs));
    }
  }

  // ---- compact_method_code (bytecode.rs:427-493) -------------------------------------------

  /** Decoding meets a `tableswitch` or a `lookupswitch`. */
  predicate SwitchFrom(code: seq<byte>, base: nat, pos: nat)
    decreases |code| - pos
  {
    pos < |code| && (IsSwitch(code[pos]) || SwitchFrom(code, base, pos + Len(code, pos, base)))
  }

  lemma {:induction false} NoSwitchMet(code: seq<byte>, base: nat, pos: nat, pc: nat)
    requires !SwitchFrom(code, base, pos) && Meets(code, base, pos, pc) && pc < |code|
    ensures !IsSwitch(code[pc])
    decreases |code| - pos
  {
    if pos != pc { NoSwitchMet(code, base, pos + Len(code, pos, base), pc); }
  }

  method HasSwitch(code: seq<byte>, base: nat) returns (b: bool)
    ensures b == SwitchFrom(code, base, 0)
  {
    hide Len;
    var pos: nat := 0;
    while pos < |code|
      invariant SwitchFrom(code, base, pos) == SwitchFrom(code, base, 0)
      decreases |code| - pos
    {
      if IsSwitch(code[pos]) {
        return true;
      }
      pos := pos + Len(code, pos, base);
    }
    b := false;
  }

  /** The code bytes of a method, compacted; None when a guard refuses.
      `ranges` are the dead ranges relative to the method, sorted. */
  method CompactMethodCode(code: seq<byte>, base: nat, handlers: nat, hasStackMap: bool, ranges: Intervals)
    returns (r: Option<seq<byte>>)
    requires Fits(ranges, 0, |code|)
    ensures r.Some? ==> handlers == 0 && !hasStackMap && !SwitchFrom(code, base, 0)
    ensures r.Some? ==> Result(code, base, ranges, r.value) && |r.value| < |code|
    ensures r.None? && handlers == 0 && !hasStackMap && !SwitchFrom(code, base, 0) ==> TotalDead(ranges) == 0
  {
    hide Len, Patched, SwitchFrom;
    if |code| == 0 || |ranges| == 0 {
      if |code| == 0 { EmptyRanges(ranges); }
      return None;
    }
    if handlers > 0 {
      return None;
    }
    var sw := HasSwitch(code, base);
    if sw || hasStackMap {
      return None;
    }
    var copy := new byte[|code|](i requires 0 <= i < |code| => code[i]);
    assert copy[..] == code;
    PatchCodeBranches(copy, base, ranges);
    PatchedSize(code, copy[..], base, ranges);
    var compacted := ExciseRanges(copy[..], ranges);
    Compact.FitCounts(copy[..], ranges, 0);
    if |compacted| == |code| {
      return None;
    }
    assert Result(code, base, ranges, compacted);
    r := Some(compacted);
  }

  lemma PatchedSize(code: seq<byte>, now: seq<byte>, base: nat, rs: Intervals)
    requires Patched(code, now, base, rs)
    ensures |now| == |code|
  {
  }

  lemma {:induction false} EmptyRanges(rs: Intervals)
    requires Fits(rs, 0, 0)
    ensures TotalDead(rs) == 0
    decreases |rs|
  {
    if rs != [] {
      assert Fits(rs[..|rs| - 1], 0, 0);
      EmptyRanges(rs[..|rs| - 1]);
    }
  }

  /** From the scan to the compacted method: for every linearly decodable
      switch-free method whose reachable branches go to instruction starts, the
      result visits exactly the moved addresses, and the instruction there is
      the old one with its target moved. */
  lemma CompactionPreservesMeaning(code: seq<byte>, base: nat, new_: seq<byte>, base': nat)
    requires Linear(code, base) && BranchesToStarts(code, base) && 0 < |code| < 0x8000_0000
    requires Result(code, base, ScanFrom(code, base, TargetsFrom(code, base, 0), 0, None), new_)
    ensures var rs := ScanFrom(code, base, TargetsFrom(code, base, 0), 0, None);
      && (forall pc: nat :: Reachable(code, base, pc) ==>
            !InDead(pc, rs) && SameInstruction(code, base, rs, new_, base', pc))
      && (forall q: nat :: Reachable(new_, base', q) <==> exists pc: nat :: Reachable(code, base, pc) && q == NewPc(pc, rs))
  {
    var rs := ScanFrom(code, base, TargetsFrom(code, base, 0), 0, None);
    ScanIsSound(code, base);
    forall pc: nat | Reachable(code, base, pc) ensures !InDead(pc, rs) && SameInstruction(code, base, rs, new_, base', pc) {
      ReachableIsLive(code, base, rs, pc);
      LiveSame(code, base, rs, new_, base', pc);
    }
    forall q: nat ensures Reachable(new_, base', q) <==> exists pc: nat :: Reachable(code, base, pc) && q == NewPc(pc, rs) {
      SameReach(code, base, rs, new_, base', q);
    }
  }
}
