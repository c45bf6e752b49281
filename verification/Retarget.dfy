/**
 Re-pointing a relative branch after compaction, whatever the instruction set
 (src/arch/x86_patch.rs:62-119, aarch64_patch.rs:17-120, riscv_patch.rs:17-305).

 A branch at `addr` measures its displacement from `addr + bias`; x86 counts from
 the end of the instruction, AArch64 and RISC-V from its start.
 */
module Retarget {
  import opened Wrappers
  import opened Bytes
  import opened Arith
  import opened AddressMap

  const M64: nat := 0x1_0000_0000_0000_0000

  /** `as u64` of an address computation. */
  function Wrap64(x: int): (r: nat)
    ensures 0 <= x < M64 ==> r == x
  {
    x % M64
  }

  /** The displacement from `origin` once both ends have moved. */
  function NewDisp(disp: int, addr: nat, target: nat, ivs: Intervals, ts: nat, te: nat): int {
    disp + TotalShift(addr, ivs, ts, te) - TotalShift(target, ivs, ts, te)
  }

  /** Every byte of `[addr, addr + len)` stays, inside .text. */
  ghost predicate WhollyLive(addr: nat, len: nat, ivs: Intervals, ts: nat, te: nat) {
    && Fits(ivs, ts, te) && ts <= addr && addr + len <= te
    && forall x: nat :: addr <= x < addr + len ==> !InDead(x, ivs)
  }

  predicate Between(x: int, disp: int) { 0 <= x <= disp || disp <= x <= 0 }

  /**
   A target in or before .text: the new displacement lies between zero and the
   old one, so any field that held the old one holds it.
   */
  lemma DispShrinks(addr: nat, len: nat, bias: nat, disp: int, ivs: Intervals, ts: nat, te: nat)
    requires WhollyLive(addr, len, ivs, ts, te) && 0 < len && bias <= len
    requires 0 <= addr + bias + disp < te
    ensures Between(NewDisp(disp, addr, addr + bias + disp, ivs, ts, te), disp)
  {
    var target := addr + bias + disp;
    ShiftFlat(ivs, ts, te, addr, addr + bias);
    if target < ts {
      ShiftInside(ivs, ts, te, addr);
    } else if addr <= target <= addr + bias {
      ShiftFlat(ivs, ts, te, addr, target);
    } else if target > addr {
      ShiftBetween(ivs, ts, te, addr + bias, target);
    } else {
      ShiftBetween(ivs, ts, te, target, addr);
    }
  }

  /**
   A target after .text: the displacement may grow, by less than one page, when
   more dead bytes lie below the branch than whole pages leave the file.
   */
  lemma DispPastText(addr: nat, len: nat, bias: nat, disp: int, ivs: Intervals, ts: nat, te: nat)
    requires WhollyLive(addr, len, ivs, ts, te) && 0 < len && bias <= len && te <= addr + bias + disp
    ensures NewDisp(disp, addr, addr + bias + disp, ivs, ts, te) < disp + PAGE_SIZE
    ensures 0 <= NewDisp(disp, addr, addr + bias + disp, ivs, ts, te)
  {
    ShiftFlat(ivs, ts, te, addr, addr + len);
    ShiftAtEnd(ivs, te);
    ShiftBetween(ivs, ts, te, addr + len, te);
  }

  /** Displacements keep their alignment when the shifts agree modulo it. */
  lemma DispAligned(disp: int, addr: nat, target: nat, ivs: Intervals, ts: nat, te: nat, n: nat)
    requires n in {1, 2, 4} && disp % n == 0
    requires TotalShift(addr, ivs, ts, te) % n == 0 && TotalShift(target, ivs, ts, te) % n == 0
    ensures NewDisp(disp, addr, target, ivs, ts, te) % n == 0
  {
    hide TotalShift;
    AlignedSum(disp, TotalShift(addr, ivs, ts, te), TotalShift(target, ivs, ts, te), n);
  }

  // ---- Patching a whole list of instructions -----------------------------------------

  /** A decoded instruction: its address, its bytes and where they lie in the file. */
  datatype Instr = Instr(addr: nat, raw: seq<byte>, foff: nat)

  /** Instructions do not share file bytes. */
  predicate Spread(instrs: seq<Instr>) {
    forall i: nat, j: nat :: i < j < |instrs| ==>
      instrs[i].foff + |instrs[i].raw| <= instrs[j].foff || instrs[j].foff + |instrs[j].raw| <= instrs[i].foff
  }

  /** File byte `k` belongs to one of the instructions that are not dead. */
  predicate OfLive(instrs: seq<Instr>, ivs: Intervals, k: nat) {
    exists i: nat :: i < |instrs| && !InDead(instrs[i].addr, ivs)
      && instrs[i].foff <= k < instrs[i].foff + |instrs[i].raw|
  }

  /** The bytes `ins` has after its own patch. */
  type Patcher = f: Instr -> seq<byte> | forall ins :: |f(ins)| == |ins.raw| witness (ins: Instr) => ins.raw

  /** Holds the bytes `b` at `off`. */
  predicate HoldsAt(d: seq<byte>, off: nat, b: seq<byte>) { off + |b| <= |d| && d[off..off + |b|] == b }

  lemma HoldsKept(d: seq<byte>, e: seq<byte>, off: nat, b: seq<byte>, at: nat, n: nat)
    requires HoldsAt(d, off, b) && |e| == |d| && (at + n <= off || off + |b| <= at)
    requires forall k: nat :: k < |d| && !(at <= k < at + n) ==> e[k] == d[k]
    ensures HoldsAt(e, off, b)
  {
    assert e[off..off + |b|] == d[off..off + |b|];
  }

  predicate InFile(ins: Instr, n: nat) { ins.foff + |ins.raw| <= n }

  /** The instructions lie in `d` as decoded. */
  predicate Decoded(d: seq<byte>, instrs: seq<Instr>) {
    forall i: nat :: i < |instrs| && InFile(instrs[i], |d|) ==> HoldsAt(d, instrs[i].foff, instrs[i].raw)
  }

  /** The bytes of a patched instruction: its own patch if it is live, else unchanged. */
  function BytesOf(ins: Instr, ivs: Intervals, patch: Patcher): (r: seq<byte>)
    ensures |r| == |ins.raw|
  {
    if InDead(ins.addr, ivs) then ins.raw else patch(ins)
  }

  /** The file bytes of each instruction, which an earlier pass may have changed. */
  predicate Held(d: seq<byte>, instrs: seq<Instr>, held: seq<seq<byte>>) {
    && |held| == |instrs|
    && forall i: nat :: i < |instrs| ==> HoldsIn(d, instrs[i], held[i])
  }

  predicate HoldsIn(d: seq<byte>, ins: Instr, b: seq<byte>) {
    |b| == |ins.raw| && (InFile(ins, |d|) ==> HoldsAt(d, ins.foff, b))
  }

  /** The patcher works from the decoded bytes, and writes only what differs from them. */
  function Outcome(ins: Instr, held: seq<byte>, ivs: Intervals, patch: Patcher): seq<byte> {
    if InDead(ins.addr, ivs) || patch(ins) == ins.raw then held else patch(ins)
  }

  function Outcomes(instrs: seq<Instr>, held: seq<seq<byte>>, ivs: Intervals, patch: Patcher, n: nat): (r: seq<seq<byte>>)
    requires |held| == |instrs|
    ensures |r| == |instrs|
  {
    seq(|instrs|, i requires 0 <= i < |instrs| => if i < n then Outcome(instrs[i], held[i], ivs, patch) else held[i])
  }

  /**
   The loop of `patch_branches`: every instruction in the file ends up as its own
   patch says if it is live and the patch changes it, and stays as it was held if
   not; no other byte changes.
   */
  method PatchOver(data: array<byte>, instrs: seq<Instr>, ghost held: seq<seq<byte>>, ivs: Intervals, patch: Patcher)
    requires Spread(instrs) && Held(data[..], instrs, held)
    modifies data
    ensures Held(data[..], instrs, Outcomes(instrs, held, ivs, patch, |instrs|))
    ensures forall k: nat :: k < data.Length && !OfLive(instrs, ivs, k) ==> data[k] == old(data[k])
  {
    hide HoldsIn, HoldsAt, Spread;
    for i := 0 to |instrs|
      invariant Held(data[..], instrs, Outcomes(instrs, held, ivs, patch, i))
      invariant forall k: nat :: k < data.Length && !OfLive(instrs, ivs, k) ==> data[k] == old(data[k])
    {
      var ins := instrs[i];
      ghost var was, now := Outcomes(instrs, held, ivs, patch, i), Outcomes(instrs, held, ivs, patch, i + 1);
      assert now == was[i := Outcome(ins, held[i], ivs, patch)];
      if InDead(ins.addr, ivs) || patch(ins) == ins.raw {
        continue;
      }
      ghost var before := data[..];
      if ins.foff + |ins.raw| <= data.Length { WriteBytes(data, ins.foff, patch(ins)); }
      HeldNext(before, data[..], instrs, was, i, patch(ins));
      forall k: nat | k < data.Length && !OfLive(instrs, ivs, k)
        ensures data[k] == old(data[k])
      {
        assert !(instrs[i].foff <= k < instrs[i].foff + |instrs[i].raw|);
        assert data[k] == before[k];
      }
    }
  }

  /** Writing one instruction leaves the others as held. */
  lemma HeldNext(d: seq<byte>, e: seq<byte>, instrs: seq<Instr>, held: seq<seq<byte>>, i: nat, b: seq<byte>)
    requires Spread(instrs) && Held(d, instrs, held) && i < |instrs| && |e| == |d|
    requires |b| == |instrs[i].raw| && (InFile(instrs[i], |d|) ==> HoldsAt(e, instrs[i].foff, b))
    requires forall k: nat :: k < |d| && !(instrs[i].foff <= k < instrs[i].foff + |instrs[i].raw|) ==> e[k] == d[k]
    ensures Held(e, instrs, held[i := b])
  {
    hide HoldsAt;
    forall j: nat | j < |instrs| ensures HoldsIn(e, instrs[j], held[i := b][j]) {
      if j != i && InFile(instrs[j], |d|) {
        assert HoldsIn(d, instrs[j], held[j]);
        HoldsKept(d, e, instrs[j].foff, held[j], instrs[i].foff, |instrs[i].raw|);
      }
    }
  }

  function Raws(instrs: seq<Instr>): (r: seq<seq<byte>>)
    ensures |r| == |instrs|
  {
    seq(|instrs|, i requires 0 <= i < |instrs| => instrs[i].raw)
  }

  /** The loop over instructions that lie in the file as decoded. */
  method PatchAll(data: array<byte>, instrs: seq<Instr>, ivs: Intervals, patch: Patcher)
    requires Spread(instrs) && Decoded(data[..], instrs)
    modifies data
    ensures forall i: nat :: i < |instrs| ==> HoldsIn(data[..], instrs[i], BytesOf(instrs[i], ivs, patch))
    ensures forall k: nat :: k < data.Length && !OfLive(instrs, ivs, k) ==> data[k] == old(data[k])
  {
    ghost var held := Raws(instrs);
    PatchOver(data, instrs, held, ivs, patch);
    forall i: nat | i < |instrs| ensures HoldsIn(data[..], instrs[i], BytesOf(instrs[i], ivs, patch)) {
      assert HoldsIn(data[..], instrs[i], Outcomes(instrs, held, ivs, patch, |instrs|)[i]);
    }
  }

  /** `copy_from_slice` at `off`. */
  method WriteBytes(data: array<byte>, off: nat, bytes: seq<byte>)
    requires off + |bytes| <= data.Length
    modifies data
    ensures HoldsAt(data[..], off, bytes)
    ensures forall k: nat :: k < data.Length && !(off <= k < off + |bytes|) ==> data[k] == old(data[k])
  {
    for i := 0 to |bytes|
      invariant forall k: nat :: k < data.Length && !(off <= k < off + i) ==> data[k] == old(data[k])
      invariant forall k: nat :: k < i ==> data[off + k] == bytes[k]
    {
      data[off + i] := bytes[i];
    }
    assert data[..][off..off + |bytes|] == bytes;
  }
}
