/**
 AArch64 branch words (src/arch/aarch64_patch.rs:33-120, 183-211).

 A word is a number below 2^32.  Masks select disjoint fields, so they are
 written as division and remainder, and joining fields is addition.
 */
module A64Branch {
  import opened Bytes
  import opened Arith
  import opened AddressMap
  import opened Retarget

  const W32: nat := 0x1_0000_0000

  /** B and BL; B.cond, CBZ and CBNZ; TBZ and TBNZ; anything else. */
  datatype Form = B26 | B19 | B14 | Other

  function FormOf(w: nat): Form {
    if w / 0x400_0000 == 5 || w / 0x400_0000 == 37 then B26
    else if w / 0x100_0000 == 0x54 && w / 0x10 % 2 == 0 then B19
    else if w / 0x200_0000 % 0x40 == 0x1a then B19
    else if w / 0x200_0000 % 0x40 == 0x1b then B14
    else Other
  }

  /** Two's complement of a field below `2 * half`. */
  function SignExtend(v: nat, half: nat): int { if v < half then v else v - 2 * half }

  /** The byte displacement a branch word encodes. */
  function Offset(w: nat): int {
    match FormOf(w)
    case B26 => 4 * SignExtend(w % 0x400_0000, 0x200_0000)
    case B19 => 4 * SignExtend(w / 0x20 % 0x8_0000, 0x4_0000)
    case B14 => 4 * SignExtend(w / 0x20 % 0x4000, 0x2000)
    case Other => 0
  }

  /** `w` with its immediate field set from byte displacement `off`. */
  function SetOffset(w: nat, off: int): nat {
    match FormOf(w)
    case B26 => w / 0x400_0000 * 0x400_0000 + off / 4 % 0x400_0000
    case B19 => w / 0x100_0000 * 0x100_0000 + off / 4 % 0x8_0000 * 0x20 + w % 0x20
    case B14 => w / 0x8_0000 * 0x8_0000 + off / 4 % 0x4000 * 0x20 + w % 0x20
    case Other => w
  }

  /** `patch_one` on the word of a branch at `addr`. */
  function PatchWord(w: nat, addr: nat, ivs: Intervals, ts: nat, te: nat): nat {
    var target := Wrap64(addr + Offset(w));
    var delta := TotalShift(addr, ivs, ts, te) - TotalShift(target, ivs, ts, te);
    if FormOf(w) == Other || delta == 0 then w
    else
      var newAddr := addr - TotalShift(addr, ivs, ts, te);
      var newTarget := target - TotalShift(target, ivs, ts, te);
      SetOffset(w, newTarget - newAddr)
  }

  /** Half the reach of a form, in bytes. */
  function Reach(f: Form): int {
    match f
    case B26 => 0x800_0000
    case B19 => 0x10_0000
    case B14 => 0x8000
    case Other => 1
  }

  lemma OffsetInReach(w: nat)
    ensures -Reach(FormOf(w)) <= Offset(w) < Reach(FormOf(w)) && (FormOf(w) != Other ==> Offset(w) % 4 == 0)
  {
  }

  /** What the branch is apart from where it goes: opcode, condition, register, bit. */
  function Rest(w: nat): (nat, nat) {
    match FormOf(w)
    case B26 => (w / 0x400_0000, 0)
    case B19 => (w / 0x100_0000, w % 0x20)
    case B14 => (w / 0x8_0000, w % 0x20)
    case Other => (w, 0)
  }

  lemma Field26(top: nat, v: nat)
    requires v < 0x400_0000
    ensures (top * 0x400_0000 + v) / 0x400_0000 == top && (top * 0x400_0000 + v) % 0x400_0000 == v
  {
    Cut(top, 0x400_0000, v);
  }

  /** Three fields of a word: the middle one `size` wide, five bits below it. */
  lemma ThreeFields(top: nat, size: nat, v: nat, low: nat)
    requires v < size && low < 0x20
    ensures var w := (top * size + v) * 0x20 + low;
      w / 0x20 % size == v && w % 0x20 == low && size * 0x20 > 0 && w / (0x20 * size) == top
  {
    var w := (top * size + v) * 0x20 + low;
    Cut(top * size + v, 0x20, low);
    Cut(top, size, v);
    DivDiv(w, 0x20, size);
  }

  lemma Field19(top: nat, v: nat, low: nat)
    requires v < 0x8_0000 && low < 0x20
    ensures var w := top * 0x100_0000 + v * 0x20 + low;
      w / 0x100_0000 == top && w / 0x20 % 0x8_0000 == v && w % 0x20 == low
  {
    ThreeFields(top, 0x8_0000, v, low);
  }

  lemma Field14(top: nat, v: nat, low: nat)
    requires v < 0x4000 && low < 0x20
    ensures var w := top * 0x8_0000 + v * 0x20 + low;
      w / 0x8_0000 == top && w / 0x20 % 0x4000 == v && w % 0x20 == low
  {
    ThreeFields(top, 0x4000, v, low);
  }

  lemma SignExtendBack(x: int, half: int)
    requires half in {0x200_0000, 0x4_0000, 0x2000} && -half <= x < half
    ensures SignExtend(x % (2 * half), half) == x
  {
  }

  /** Upper bits of a wider cut of the same word. */
  lemma UpperBits(w: nat)
    ensures w / 0x200_0000 == w / 0x100_0000 / 2 && w / 0x200_0000 == w / 0x8_0000 / 0x40
    ensures w / 0x400_0000 == w / 0x100_0000 / 4 && w / 0x400_0000 == w / 0x8_0000 / 0x80
    ensures w / 0x100_0000 == w / 0x8_0000 / 0x20
    ensures w / 0x10 % 2 == w % 0x20 / 0x10
  {
    DivDiv(w, 0x100_0000, 2);
    DivDiv(w, 0x8_0000, 0x40);
    DivDiv(w, 0x100_0000, 4);
    DivDiv(w, 0x8_0000, 0x80);
    DivDiv(w, 0x8_0000, 0x20);
    DivDiv(w, 0x10, 2);
  }

  /** Setting the displacement leaves the rest of the instruction alone. */
  lemma SetOffsetKeeps(w: nat, off: int)
    requires FormOf(w) != Other
    ensures FormOf(SetOffset(w, off)) == FormOf(w) && Rest(SetOffset(w, off)) == Rest(w)
  {
    UpperBits(w);
    UpperBits(SetOffset(w, off));
    match FormOf(w)
    case B26 => Field26(w / 0x400_0000, off / 4 % 0x400_0000);
    case B19 => Field19(w / 0x100_0000, off / 4 % 0x8_0000, w % 0x20);
    case B14 => Field14(w / 0x8_0000, off / 4 % 0x4000, w % 0x20);
  }

  /** A displacement within reach reads back. */
  lemma SetOffsetReads(w: nat, off: int)
    requires FormOf(w) != Other && off % 4 == 0 && -Reach(FormOf(w)) <= off < Reach(FormOf(w))
    ensures Offset(SetOffset(w, off)) == off
  {
    SetOffsetKeeps(w, off);
    match FormOf(w)
    case B26 =>
      Field26(w / 0x400_0000, off / 4 % 0x400_0000);
      SignExtendBack(off / 4, 0x200_0000);
    case B19 =>
      Field19(w / 0x100_0000, off / 4 % 0x8_0000, w % 0x20);
      SignExtendBack(off / 4, 0x4_0000);
    case B14 =>
      Field14(w / 0x8_0000, off / 4 % 0x4000, w % 0x20);
      SignExtendBack(off / 4, 0x2000);
  }

  /** A branch that stays, with its target in or before .text and both shifts whole words. */
  ghost predicate Retargetable(w: nat, addr: nat, ivs: Intervals, ts: nat, te: nat) {
    && FormOf(w) != Other && WhollyLive(addr, 4, ivs, ts, te) && te <= M64
    && 0 <= addr + Offset(w) < te
    && TotalShift(addr, ivs, ts, te) % 4 == 0 && TotalShift(addr + Offset(w), ivs, ts, te) % 4 == 0
  }

  /**
   `w2`, read at its new address, goes where the target of `w` went, with a
   displacement between zero and the old one; nothing else about it changed.
   */
  ghost predicate Follows(w: nat, w2: nat, addr: nat, ivs: Intervals, ts: nat, te: nat) {
    && 0 <= addr + Offset(w) && FormOf(w2) == FormOf(w) && Rest(w2) == Rest(w)
    && Moved(addr, ivs, ts, te) + Offset(w2) == Moved(addr + Offset(w), ivs, ts, te)
    && Between(Offset(w2), Offset(w))
  }

  /** Between live instructions the shifts are whole words when dead intervals are. */
  lemma AlignedRetargetable(w: nat, addr: nat, ivs: Intervals, ts: nat, te: nat)
    requires FormOf(w) != Other && WhollyLive(addr, 4, ivs, ts, te) && te <= M64 && 0 <= addr + Offset(w) < te
    requires Multiples(ivs, 4) && !InDead(addr + Offset(w), ivs)
    ensures Retargetable(w, addr, ivs, ts, te)
  {
    hide Offset, FormOf, TotalShift;
    ShiftAligned(ivs, ts, te, addr, 4);
    ShiftAligned(ivs, ts, te, addr + Offset(w), 4);
  }

  lemma BranchFollows(w: nat, addr: nat, ivs: Intervals, ts: nat, te: nat)
    requires Retargetable(w, addr, ivs, ts, te)
    ensures Follows(w, PatchWord(w, addr, ivs, ts, te), addr, ivs, ts, te)
  {
    var target := addr + Offset(w);
    OffsetInReach(w);
    DispShrinks(addr, 4, 0, Offset(w), ivs, ts, te);
    DispAligned(Offset(w), addr, target, ivs, ts, te, 4);
    var off := NewDisp(Offset(w), addr, target, ivs, ts, te);
    assert -Reach(FormOf(w)) <= off < Reach(FormOf(w));
    SetOffsetReads(w, off);
    SetOffsetKeeps(w, off);
  }

  /**
   A target after .text: nothing checks that the new displacement still fits, and
   the branch follows its target exactly when it does.
   */
  lemma PastTextExact(w: nat, addr: nat, ivs: Intervals, ts: nat, te: nat)
    requires FormOf(w) != Other && WhollyLive(addr, 4, ivs, ts, te) && te <= addr + Offset(w) < M64
    requires TotalShift(addr, ivs, ts, te) % 4 == 0
    ensures Moved(addr, ivs, ts, te) + Offset(PatchWord(w, addr, ivs, ts, te)) == Moved(addr + Offset(w), ivs, ts, te)
      <==> NewDisp(Offset(w), addr, addr + Offset(w), ivs, ts, te) < Reach(FormOf(w))
  {
    hide Offset, SetOffset, FormOf, PageShrink;
    var target := addr + Offset(w);
    var off := NewDisp(Offset(w), addr, target, ivs, ts, te);
    OffsetInReach(w);
    DispPastText(addr, 4, 0, Offset(w), ivs, ts, te);
    PagesAligned(ivs, 4);
    DispAligned(Offset(w), addr, target, ivs, ts, te, 4);
    SetOffsetKeeps(w, off);
    OffsetInReach(SetOffset(w, off));
    if off < Reach(FormOf(w)) { SetOffsetReads(w, off); }
  }

  /** And it can fail to: a TBZ at its full reach, with 256 dead bytes below it and
      no whole page to drop. */
  lemma PastTextLost()
    ensures
      var w := 0x3603_ffe0;
      && FormOf(w) == B14 && WhollyLive(0x1000, 4, GAP, 0, 0x2000) && 0x2000 <= 0x1000 + Offset(w)
      && Moved(0x1000, GAP, 0, 0x2000) + Offset(PatchWord(w, 0x1000, GAP, 0, 0x2000))
         != Moved(0x1000 + Offset(w), GAP, 0, 0x2000)
  {
    hide Shift, PageShrink, PatchWord;
    assert Offset(0x3603_ffe0) == 0x7ffc;
    forall x: nat | 0x1000 <= x < 0x1004 ensures !InDead(x, GAP) { GapShifts(x); }
    GapShifts(0x1000);
    PastTextExact(0x3603_ffe0, 0x1000, GAP, 0, 0x2000);
  }

  // ---- In the file ---------------------------------------------------------------------

  lemma PatchWordSmall(w: nat, addr: nat, ivs: Intervals, ts: nat, te: nat)
    requires w < W32
    ensures PatchWord(w, addr, ivs, ts, te) < W32
  {
    forall off: int
      ensures SetOffset(w, off) < W32
    {
    }
  }

  /** The bytes `patch_one` leaves for an instruction. */
  function PatchBytes(ins: Instr, ivs: Intervals, ts: nat, te: nat): (r: seq<byte>)
    ensures |r| == |ins.raw|
  {
    if |ins.raw| < 4 then ins.raw
    else LeBytes(PatchWord(LeValue(ins.raw[..4]), ins.addr, ivs, ts, te), 4) + ins.raw[4..]
  }

  lemma PatchBytesRead(ins: Instr, ivs: Intervals, ts: nat, te: nat)
    requires |ins.raw| >= 4
    ensures LeValue(PatchBytes(ins, ivs, ts, te)[..4]) == PatchWord(LeValue(ins.raw[..4]), ins.addr, ivs, ts, te)
  {
    assert Pow256(4) == W32;
    ValueBound(ins.raw[..4], false);
    PatchWordSmall(LeValue(ins.raw[..4]), ins.addr, ivs, ts, te);
    var w := PatchWord(LeValue(ins.raw[..4]), ins.addr, ivs, ts, te);
    LeRoundTrip(w, 4);
    assert PatchBytes(ins, ivs, ts, te)[..4] == LeBytes(w, 4);
  }

  /** The word at `off`. */
  function WordAt(d: seq<byte>, off: nat): nat
    requires off + 4 <= |d|
  {
    LeValue(d[off..off + 4])
  }

  /** The branch of `ins` lies in the file, stays and can be retargeted. */
  ghost predicate Staying(ins: Instr, n: nat, ivs: Intervals, ts: nat, te: nat) {
    |ins.raw| == 4 && InFile(ins, n) && Retargetable(LeValue(ins.raw), ins.addr, ivs, ts, te)
  }

  /** After `patch_branches` every branch that stays follows its target. */
  method PatchBranches(data: array<byte>, instrs: seq<Instr>, ivs: Intervals, ts: nat, te: nat)
    requires Spread(instrs) && Decoded(data[..], instrs)
    modifies data
    ensures forall i: nat :: i < |instrs| && Staying(instrs[i], data.Length, ivs, ts, te) ==>
      Follows(LeValue(instrs[i].raw), WordAt(data[..], instrs[i].foff), instrs[i].addr, ivs, ts, te)
    ensures forall k: nat :: k < data.Length && !OfLive(instrs, ivs, k) ==> data[k] == old(data[k])
  {
    var patch: Patcher := (ins: Instr) => PatchBytes(ins, ivs, ts, te);
    PatchAll(data, instrs, ivs, patch);
    forall i: nat | i < |instrs| && Staying(instrs[i], data.Length, ivs, ts, te)
      ensures Follows(LeValue(instrs[i].raw), WordAt(data[..], instrs[i].foff), instrs[i].addr, ivs, ts, te)
    {
      BranchInFile(data[..], instrs[i], ivs, ts, te, patch);
    }
  }

  lemma BranchInFile(d: seq<byte>, ins: Instr, ivs: Intervals, ts: nat, te: nat, patch: Patcher)
    requires Staying(ins, |d|, ivs, ts, te)
    requires patch(ins) == PatchBytes(ins, ivs, ts, te)
    requires HoldsAt(d, ins.foff, BytesOf(ins, ivs, patch))
    ensures Follows(LeValue(ins.raw), WordAt(d, ins.foff), ins.addr, ivs, ts, te)
  {
    hide Follows, PatchWord, LeValue, PatchBytes;
    assert ins.raw[..4] == ins.raw && patch(ins)[..4] == patch(ins);
    assert !InDead(ins.addr, ivs);
    PatchBytesRead(ins, ivs, ts, te);
    BranchFollows(LeValue(ins.raw), ins.addr, ivs, ts, te);
  }
}
