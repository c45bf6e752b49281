/**
 RISC-V AUIPC and the instruction that completes its address
 (src/arch/riscv_patch.rs:308-340, 420-484): a 20-bit upper part and a signed
 12-bit lower part, patched together.
 */
module RiscvPair {
  import opened Arith
  import opened AddressMap
  import opened Retarget

  function SignExtend(v: int, half: int): int { if v < half then v else v - 2 * half }

  /** The upper offset of an AUIPC word. */
  function AuipcOffset(w: nat): int { SignExtend(w / 0x1000 % 0x10_0000, 0x8_0000) * 0x1000 }

  predicate IsStore(pw: nat) { pw % 0x80 == 0x23 }

  /** The lower offset: S-type for a store, else I-type. */
  function LowOffset(pw: nat): int {
    if IsStore(pw) then SignExtend(pw / 0x200_0000 % 0x80 * 0x20 + pw / 0x80 % 0x20, 0x800)
    else SignExtend(pw / 0x10_0000 % 0x1000, 0x800)
  }

  function Offset(aw: nat, pw: nat): int { AuipcOffset(aw) + LowOffset(pw) }

  /** The upper part, rounded so that the rest is a signed 12-bit number. */
  function Hi20(off: int): int { (off + 0x800) / 0x1000 }

  function Lo12(off: int): int { off - Hi20(off) * 0x1000 }

  function SetUpper(aw: nat, hi: int): nat { aw % 0x1000 + hi % 0x10_0000 * 0x1000 }

  function SetLower(pw: nat, lo: int): nat {
    var imm := lo % 0x1000;
    if IsStore(pw) then pw / 0x1000 % 0x2000 * 0x1000 + pw % 0x80 + imm / 0x20 * 0x200_0000 + imm % 0x20 * 0x80
    else pw % 0x10_0000 + imm * 0x10_0000
  }

  /** `do_patch_auipc_pair` on the two words. */
  function PatchPair(aw: nat, pw: nat, addr: nat, ivs: Intervals, ts: nat, te: nat): (nat, nat) {
    var target := Wrap64(addr + Offset(aw, pw));
    var delta := TotalShift(addr, ivs, ts, te) - TotalShift(target, ivs, ts, te);
    if delta == 0 then (aw, pw)
    else
      var off := target - TotalShift(target, ivs, ts, te) - (addr - TotalShift(addr, ivs, ts, te));
      (SetUpper(aw, Hi20(off)), SetLower(pw, Lo12(off)))
  }

  /** What a pair can reach. */
  predicate InReach(off: int) { -0x8000_0800 <= off < 0x7fff_f800 }

  lemma OffsetInReach(aw: nat, pw: nat)
    ensures InReach(Offset(aw, pw))
  {
  }

  lemma SplitBounds(off: int)
    ensures -0x800 <= Lo12(off) < 0x800 && Hi20(off) * 0x1000 + Lo12(off) == off
    ensures InReach(off) ==> -0x8_0000 <= Hi20(off) < 0x8_0000
  {
  }

  lemma UpperReads(aw: nat, hi: int)
    requires -0x8_0000 <= hi < 0x8_0000
    ensures AuipcOffset(SetUpper(aw, hi)) == hi * 0x1000 && SetUpper(aw, hi) % 0x1000 == aw % 0x1000
  {
    var v := hi % 0x10_0000;
    Cut(v, 0x1000, aw % 0x1000);
    assert SignExtend(v, 0x8_0000) == hi;
  }

  /** The fields of the paired word that are not its immediate. */
  function Rest(pw: nat): (nat, nat) { if IsStore(pw) then (pw / 0x1000 % 0x2000, pw % 0x80) else (pw % 0x10_0000, 0) }

  lemma StoreFields(mid: nat, low: nat, hi: nat, lo: nat)
    requires mid < 0x2000 && low < 0x80 && hi < 0x80 && lo < 0x20
    ensures var w := mid * 0x1000 + low + hi * 0x200_0000 + lo * 0x80;
      w / 0x200_0000 % 0x80 == hi && w / 0x80 % 0x20 == lo && w / 0x1000 % 0x2000 == mid && w % 0x80 == low
  {
    var q2 := hi * 0x2000 + mid;
    var w := (q2 * 0x20 + lo) * 0x80 + low;
    Cut(q2 * 0x20 + lo, 0x80, low);
    Layer(w, 0x80, q2, 0x20, lo);
    Layer(w, 0x1000, hi, 0x2000, mid);
  }

  lemma LowerReads(pw: nat, lo: int)
    requires -0x800 <= lo < 0x800
    ensures LowOffset(SetLower(pw, lo)) == lo && Rest(SetLower(pw, lo)) == Rest(pw)
  {
    var imm := lo % 0x1000;
    assert SignExtend(imm, 0x800) == lo;
    if IsStore(pw) {
      StoreFields(pw / 0x1000 % 0x2000, pw % 0x80, imm / 0x20, imm % 0x20);
    } else {
      ImmediateReads(pw, imm);
    }
  }

  lemma ImmediateReads(pw: nat, imm: nat)
    requires imm < 0x1000 && !IsStore(pw)
    ensures var w := pw % 0x10_0000 + imm * 0x10_0000;
      !IsStore(w) && w / 0x10_0000 % 0x1000 == imm && w % 0x10_0000 == pw % 0x10_0000
  {
    var w := pw % 0x10_0000 + imm * 0x10_0000;
    Cut(imm, 0x10_0000, pw % 0x10_0000);
    DivDiv(pw, 0x80, 0x2000);
    DivDiv(w, 0x80, 0x2000);
    Cut(pw / 0x80 % 0x2000, 0x80, pw % 0x80);
    Cut(w / 0x80 % 0x2000, 0x80, w % 0x80);
  }

  /** Any reachable offset is split and read back whole, leaving the other fields alone. */
  lemma PairReads(aw: nat, pw: nat, off: int)
    requires InReach(off)
    ensures Offset(SetUpper(aw, Hi20(off)), SetLower(pw, Lo12(off))) == off
    ensures SetUpper(aw, Hi20(off)) % 0x1000 == aw % 0x1000 && Rest(SetLower(pw, Lo12(off))) == Rest(pw)
  {
    hide SetUpper, SetLower, Hi20, Lo12, AuipcOffset, LowOffset, Rest;
    SplitBounds(off);
    UpperReads(aw, Hi20(off));
    LowerReads(pw, Lo12(off));
  }

  /**
   A wholly live AUIPC with its target in or before .text: the patched pair, from
   the new address, designates where the target went.
   */
  lemma PairFollows(aw: nat, pw: nat, addr: nat, ivs: Intervals, ts: nat, te: nat)
    requires WhollyLive(addr, 4, ivs, ts, te) && te <= M64 && 0 <= addr + Offset(aw, pw) < te
    ensures
      var (aw2, pw2) := PatchPair(aw, pw, addr, ivs, ts, te);
      && Moved(addr, ivs, ts, te) + Offset(aw2, pw2) == Moved(addr + Offset(aw, pw), ivs, ts, te)
      && Between(Offset(aw2, pw2), Offset(aw, pw))
      && aw2 % 0x1000 == aw % 0x1000 && Rest(pw2) == Rest(pw)
  {
    hide Offset, SetUpper, SetLower, Rest, TotalShift, WhollyLive, Hi20, Lo12;
    var off := Offset(aw, pw);
    OffsetInReach(aw, pw);
    DispShrinks(addr, 4, 0, off, ivs, ts, te);
    PairReads(aw, pw, NewDisp(off, addr, addr + off, ivs, ts, te));
  }

  /** A target after .text is followed exactly when the new offset is in reach, which nothing checks. */
  lemma PastTextExact(aw: nat, pw: nat, addr: nat, ivs: Intervals, ts: nat, te: nat)
    requires WhollyLive(addr, 4, ivs, ts, te) && te <= addr + Offset(aw, pw) < M64
    ensures
      var (aw2, pw2) := PatchPair(aw, pw, addr, ivs, ts, te);
      Moved(addr, ivs, ts, te) + Offset(aw2, pw2) == Moved(addr + Offset(aw, pw), ivs, ts, te)
      <==> InReach(NewDisp(Offset(aw, pw), addr, addr + Offset(aw, pw), ivs, ts, te))
  {
    hide Offset, SetUpper, SetLower, Rest, TotalShift, WhollyLive, Hi20, Lo12;
    var off := Offset(aw, pw);
    var off2 := NewDisp(off, addr, addr + off, ivs, ts, te);
    OffsetInReach(aw, pw);
    var (aw2, pw2) := PatchPair(aw, pw, addr, ivs, ts, te);
    OffsetInReach(aw2, pw2);
    if InReach(off2) { PairReads(aw, pw, off2); }
  }

  /** And it can fail to: the farthest pair ahead, with 256 dead bytes below and no
      whole page to drop. */
  lemma PastTextLost()
    ensures
      var (aw, pw) := (0x7fff_f517, 0x7ff5_0513);
      var (aw2, pw2) := PatchPair(aw, pw, 0x1000, GAP, 0, 0x2000);
      && Offset(aw, pw) == 0x7fff_f7ff && WhollyLive(0x1000, 4, GAP, 0, 0x2000)
      && Moved(0x1000, GAP, 0, 0x2000) + Offset(aw2, pw2) != Moved(0x1000 + Offset(aw, pw), GAP, 0, 0x2000)
  {
    hide Shift, PageShrink, PatchPair;
    assert Offset(0x7fff_f517, 0x7ff5_0513) == 0x7fff_f7ff;
    forall x: nat | 0x1000 <= x < 0x1004 ensures !InDead(x, GAP) { GapShifts(x); }
    GapShifts(0x1000);
    PastTextExact(0x7fff_f517, 0x7ff5_0513, 0x1000, GAP, 0, 0x2000);
  }

  // ---- Other users of the upper part -------------------------------------------------------

  lemma UpperOf(aw: nat, pw: nat)
    ensures AuipcOffset(aw) == Hi20(Offset(aw, pw)) * 0x1000
  {
    LowBounds(pw);
    RoundsTo(AuipcOffset(aw) / 0x1000, LowOffset(pw));
  }

  lemma LowBounds(pw: nat)
    ensures -0x800 <= LowOffset(pw) < 0x800
  {
  }

  lemma RoundsTo(hi: int, lo: int)
    requires -0x800 <= lo < 0x800
    ensures Hi20(hi * 0x1000 + lo) == hi
  {
  }

  /** How far a use with lower word `pw` and one with `pw2` of the same upper part have
      to move apart for the second to stay right: by what the rounding gives the upper part. */
  predicate MovesWithUpper(aw: nat, pw: nat, pw2: nat, addr: nat, ivs: Intervals, ts: nat, te: nat)
    requires 0 <= addr + Offset(aw, pw) && 0 <= addr + Offset(aw, pw2)
  {
    TotalShift(addr, ivs, ts, te) - TotalShift(addr + Offset(aw, pw2), ivs, ts, te)
    == (Hi20(NewDisp(Offset(aw, pw), addr, addr + Offset(aw, pw), ivs, ts, te)) - Hi20(Offset(aw, pw))) * 0x1000
  }

  /** After the first pair is patched, the second use designates where its target went. */
  predicate SecondFollows(aw: nat, pw: nat, pw2: nat, addr: nat, ivs: Intervals, ts: nat, te: nat)
    requires 0 <= addr + Offset(aw, pw2)
  {
    Moved(addr, ivs, ts, te) + Offset(PatchPair(aw, pw, addr, ivs, ts, te).0, pw2)
    == Moved(addr + Offset(aw, pw2), ivs, ts, te)
  }

  /**
   A later user of the register keeps its lower part while the upper part is set for
   the first: it designates where its own target went exactly when that target's shift
   against the instruction's is the multiple of 4096 by which the upper part changed.
   */
  lemma SecondUserExact(aw: nat, pw: nat, pw2: nat, addr: nat, ivs: Intervals, ts: nat, te: nat)
    requires 0 <= addr + Offset(aw, pw) < M64 && 0 <= addr + Offset(aw, pw2)
    requires InReach(NewDisp(Offset(aw, pw), addr, addr + Offset(aw, pw), ivs, ts, te))
    ensures SecondFollows(aw, pw, pw2, addr, ivs, ts, te) <==> MovesWithUpper(aw, pw, pw2, addr, ivs, ts, te)
  {
    hide AuipcOffset, LowOffset, SetUpper, SetLower, Hi20, Lo12, TotalShift;
    var off := NewDisp(Offset(aw, pw), addr, addr + Offset(aw, pw), ivs, ts, te);
    UpperOf(aw, pw);
    SplitBounds(off);
    UpperReads(aw, Hi20(off));
  }

  const SECOND_GAP: Intervals := [(0x1100, 0x1200)]

  /** `auipc a0, 0; lw a1, 0x7fc(a0); lw a2, 0x7f0(a0)` with dead bytes before both
      words loaded: the second load misses. */
  lemma SecondUserLost()
    ensures WhollyLive(0x1000, 12, SECOND_GAP, 0x1000, 0x2000) && Offset(0x517, 0x7f05_2603) == 0x7f0
    ensures !SecondFollows(0x517, 0x7fc5_2583, 0x7f05_2603, 0x1000, SECOND_GAP, 0x1000, 0x2000)
  {
    hide Offset, SecondFollows, MovesWithUpper, NewDisp, PageShrink;
    LostOffsets();
    SecondShifts();
    SecondUserExact(0x517, 0x7fc5_2583, 0x7f05_2603, 0x1000, SECOND_GAP, 0x1000, 0x2000);
  }

  lemma SecondShifts()
    requires Offset(0x517, 0x7fc5_2583) == 0x7fc && Offset(0x517, 0x7f05_2603) == 0x7f0
    ensures NewDisp(0x7fc, 0x1000, 0x17fc, SECOND_GAP, 0x1000, 0x2000) == 0x6fc
    ensures !MovesWithUpper(0x517, 0x7fc5_2583, 0x7f05_2603, 0x1000, SECOND_GAP, 0x1000, 0x2000)
  {
    hide Offset, Hi20, Shift, PageShrink;
    LostOffsets();
    OneInterval(SECOND_GAP, 0x1000);
    OneInterval(SECOND_GAP, 0x17fc);
    OneInterval(SECOND_GAP, 0x17f0);
  }

  lemma LostOffsets()
    ensures Offset(0x517, 0x7fc5_2583) == 0x7fc && Offset(0x517, 0x7f05_2603) == 0x7f0
    ensures Hi20(0x6fc) == 0 && Hi20(0x7fc) == 0
  {
  }

  // ---- Completions that do not add ------------------------------------------------------------

  /** The 12 bits of a word that hold its lower part. */
  function LowField(pw: nat): nat {
    if IsStore(pw) then pw / 0x200_0000 % 0x80 * 0x20 + pw / 0x80 % 0x20 else pw / 0x10_0000 % 0x1000
  }

  lemma FieldOfOffset(aw: nat, pw: nat)
    ensures Offset(aw, pw) % 0x1000 == LowField(pw) && LowField(pw) < 0x1000
  {
    hide IsStore;
    MultipleAway(SignExtend(aw / 0x1000 % 0x10_0000, 0x8_0000), LowOffset(pw), LowField(pw));
  }

  lemma MultipleAway(k: int, lo: int, field: nat)
    requires field < 0x1000 && (lo == field || lo == field - 0x1000)
    ensures (k * 0x1000 + lo) % 0x1000 == field
  {
  }

  lemma LowerKept(pw: nat, lo: int)
    requires pw < 0x1_0000_0000
    ensures SetLower(pw, lo) == pw <==> lo % 0x1000 == LowField(pw)
  {
    if IsStore(pw) { StoreKept(pw, lo % 0x1000); } else { DivMod(pw, 0x10_0000); }
  }

  lemma StoreKept(pw: nat, imm: nat)
    requires pw < 0x1_0000_0000 && imm < 0x1000
    ensures pw / 0x1000 % 0x2000 * 0x1000 + pw % 0x80 + imm / 0x20 * 0x200_0000 + imm % 0x20 * 0x80 == pw
       <==> imm == pw / 0x200_0000 % 0x80 * 0x20 + pw / 0x80 % 0x20
  {
    var hi, mid, lo, low := pw / 0x200_0000, pw / 0x1000 % 0x2000, pw / 0x80 % 0x20, pw % 0x80;
    StoreDigits(pw);
    assert hi % 0x80 == hi;
    SplitField(pw, imm, mid * 0x1000 + low, imm / 0x20, imm % 0x20, hi, lo);
  }

  lemma StoreDigits(pw: nat)
    requires pw < 0x1_0000_0000
    ensures pw == pw / 0x200_0000 * 0x200_0000 + pw / 0x1000 % 0x2000 * 0x1000 + pw / 0x80 % 0x20 * 0x80 + pw % 0x80
    ensures pw / 0x200_0000 < 0x80
  {
    DivDiv(pw, 0x80, 0x20);
    DivDiv(pw, 0x1000, 0x2000);
  }

  /** Of two words alike but for a field stored in two parts, the fields tell. */
  lemma SplitField(w: nat, imm: nat, rest: nat, a: nat, b: nat, c: nat, d: nat)
    requires b < 0x20 && d < 0x20 && imm == a * 0x20 + b && w == rest + c * 0x200_0000 + d * 0x80
    ensures rest + a * 0x200_0000 + b * 0x80 == w <==> imm == c * 0x20 + d
  {
  }

  /**
   The search takes any OP-IMM for an addition; one that is not (ANDI, XORI, a shift)
   keeps its immediate, like every completion, exactly when the two shifts differ by a
   multiple of 4096.
   */
  lemma CompletionKeptExact(aw: nat, pw: nat, addr: nat, ivs: Intervals, ts: nat, te: nat)
    requires pw < 0x1_0000_0000
    ensures PatchPair(aw, pw, addr, ivs, ts, te).1 == pw
       <==> (TotalShift(addr, ivs, ts, te) - TotalShift(Wrap64(addr + Offset(aw, pw)), ivs, ts, te)) % 0x1000 == 0
  {
    hide Offset, SetUpper, SetLower, Hi20, Lo12, TotalShift, LowField, AuipcOffset, LowOffset;
    var target := Wrap64(addr + Offset(aw, pw));
    var delta := TotalShift(addr, ivs, ts, te) - TotalShift(target, ivs, ts, te);
    var off := target - addr + delta;
    FieldOfOffset(aw, pw);
    SplitBounds(off);
    LowerKept(pw, Lo12(off));
    SameLow(off, Lo12(off), Hi20(off), Offset(aw, pw), delta, (addr + Offset(aw, pw)) / M64);
  }

  lemma SameLow(off: int, lo: int, hi: int, was: int, delta: int, k: int)
    requires hi * 0x1000 + lo == off && off == was + delta - k * M64
    ensures lo % 0x1000 == was % 0x1000 <==> delta % 0x1000 == 0
  {
    var m := hi + k * 0x10_0000_0000_0000;
    assert lo == was + delta - m * 0x1000;
  }

  /** `auipc a0, 0; andi a1, a0, 0x7fc`: the mask is rewritten. */
  lemma MaskRewritten()
    ensures WhollyLive(0x1000, 8, SECOND_GAP, 0x1000, 0x2000)
    ensures PatchPair(0x517, 0x7fc5_7593, 0x1000, SECOND_GAP, 0x1000, 0x2000).1 != 0x7fc5_7593
  {
    hide Shift, PatchPair;
    assert Offset(0x517, 0x7fc5_7593) == 0x7fc;
    OneInterval(SECOND_GAP, 0x1000);
    OneInterval(SECOND_GAP, 0x17fc);
    CompletionKeptExact(0x517, 0x7fc5_7593, 0x1000, SECOND_GAP, 0x1000, 0x2000);
  }
}
