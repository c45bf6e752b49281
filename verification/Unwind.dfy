/**
 Narrowing the compaction so that every live function can be unwound
 (src/format/elf/ehframe.rs:680-810).

 A function is stuck when it stays but its description cannot follow the bytes
 it loses.  Its range is then cut out of the intervals.  A function cut out
 loses nothing and is never stuck again, so the rounds end, within the bound
 the source sets, with no stuck function.
 */
module Unwind {
  import opened Wrappers
  import opened Bytes
  import opened AddressMap
  import opened CfaProgram
  import opened Arith

  /** The `pc_range` field: its width when fixed, and whether it is signed. */
  datatype Slot = Slot(off: nat, width: Option<nat>, signed: bool, raw: nat)

  /** The fields of a frame description that matter here. */
  datatype Fde = Fde(begin: nat, range: Slot, cfa: nat, end: nat, caf: nat)

  /** The described code, as the source bounds it (saturating). */
  function EndOf(f: Fde): nat { Min(f.begin + f.range.raw, M - 1) }

  predicate FdeOk(f: Fde) { f.begin + f.range.raw < M }

  // ---- Can a function follow? (ehframe.rs:683-733) ---------------------------------

  /** `extend`: what a reader gets from the low `w` bytes of `v`. */
  function Extend(v: nat, w: nat, signed: bool): int {
    var low := v % Pow256(w);
    if signed && w < 8 && low >= Pow256(w) / 2 then low + M - Pow256(w) else low
  }

  predicate FitsField(v: nat, w: nat, signed: bool) { Extend(v, w, signed) == v }

  /** The 64-bit value of the `w`-byte field at `off`, sign-extended if `signed`. */
  function ReadField(data: seq<byte>, off: nat, w: nat, signed: bool, be: bool): Option<int> {
    match ReadUn(data, off, w, be)
    case None => None
    case Some(v) => Some(Extend(v, w, signed))
  }

  function PlanValue(slot: Slot, v: nat): Option<seq<Store>> {
    if v == slot.raw then Some([])
    else if slot.width.Some? && FitsField(v, slot.width.value, slot.signed) then Some([Store(slot.off, slot.width.value, v)])
    else None
  }

  predicate FdeDead(f: Fde, ivs: Intervals) {
    exists i: nat :: i < |ivs| && ivs[i].0 <= f.begin < ivs[i].1 && EndOf(f) <= ivs[i].1
  }

  /** The length the function has after compaction. */
  function NewRange(f: Fde, cx: Ctx): nat {
    var end := (f.begin + f.range.raw) % M;
    Min(WrapSub(MapEnd(cx, end), Map(cx, f.begin)), f.range.raw)
  }

  function PlanShrink(data: seq<byte>, f: Fde, cx: Ctx): Option<seq<Store>> {
    if NewRange(f, cx) == f.range.raw then Some([])
    else
      match PlanValue(f.range, NewRange(f, cx))
      case None => None
      case Some(st) => Append(st, PlanCfaOf(data, f.cfa, f.end, f.begin, f.caf, cx))
  }

  predicate Stuck(data: seq<byte>, f: Fde, cx: Ctx) { !FdeDead(f, cx.ivs) && PlanShrink(data, f, cx).None? }

  /** No byte of the function is removed. */
  ghost predicate Whole(f: Fde, ivs: Intervals) {
    forall x: nat :: f.begin <= x < f.begin + f.range.raw ==> !InDead(x, ivs)
  }

  /** A function that loses nothing keeps its length, so it can follow. */
  lemma WholeFollows(data: seq<byte>, f: Fde, cx: Ctx)
    requires CtxOk(cx) && cx.te < M && FdeOk(f) && Whole(f, cx.ivs)
    ensures PlanShrink(data, f, cx) == Some([])
  {
    hide Map, MapEnd, CtxOk;
    WholeLength(f.begin, f.begin + f.range.raw, cx);
  }

  lemma WholeLength(a: nat, e: nat, cx: Ctx)
    requires CtxOk(cx) && cx.te < M && a <= e < M && forall x: nat :: a <= x < e ==> !InDead(x, cx.ivs)
    ensures Min(WrapSub(MapEnd(cx, e), Map(cx, a)), e - a) == e - a
  {
    var ivs, ts, te := cx.ivs, cx.ts, cx.te;
    ShiftAtEnd(ivs, te);
    ShiftInside(ivs, ts, te, te);
    assert PageShrink(ivs) <= TotalDead(ivs);
    if ts <= a { ShiftInside(ivs, ts, te, a); }
    if ts <= e { ShiftInside(ivs, ts, te, e); }
    if a <= te { ShiftFlat(ivs, ts, te, a, Min(e, te)); }
    if a <= ts { ShiftBefore(ivs, a); ShiftBefore(ivs, ts); }
    if e <= ts { ShiftBefore(ivs, e); }
  }

  /** The new length of a function in .text is the number of its bytes left. */
  lemma LengthIsLive(f: Fde, cx: Ctx)
    requires CtxOk(cx) && cx.ts <= f.begin && f.begin + f.range.raw <= cx.te < M && 0 < f.range.raw
    ensures NewRange(f, cx) + CountDead(cx.ivs, cx.ts, f.begin + f.range.raw) == f.range.raw + CountDead(cx.ivs, cx.ts, f.begin)
  {
    hide CountDead, Fits;
    MapEndCounts(cx, f.begin);
    DistanceIsLive(cx, f.begin, f.begin + f.range.raw);
    StartMaps(cx, f.begin);
  }

  lemma StartMaps(cx: Ctx, a: nat)
    requires CtxOk(cx) && cx.ts <= a < cx.te
    ensures Map(cx, a) == MapEnd(cx, a)
  {
  }

  /** What is removed as a whole lies in one interval, from its start to its end. */
  lemma DeadIsRemoved(f: Fde, ivs: Intervals, x: nat)
    requires FdeOk(f) && FdeDead(f, ivs) && f.begin <= x < f.begin + f.range.raw
    ensures InDead(x, ivs)
  {
  }

  /** A field holds what a reader extends back to the same 64 bits. */
  lemma FitsExact(v: nat, w: nat, signed: bool)
    requires v < 0x1_0000_0000_0000_0000 && 0 < w <= 8
    ensures FitsField(v, w, signed) <==>
      if signed && w < 8 then v < Pow256(w) / 2 || v >= 0x1_0000_0000_0000_0000 - Pow256(w) / 2
      else v < Pow256(w)
  {
    var p := Pow256(w);
    PowerBound(w);
    DivMod(v, p);
    if v < p { Arith.Cut(0, p, v); } else { HighPart(v, p, w, signed); }
  }

  /** 64 bits are a whole number of fields of even size. */
  lemma PowerBound(w: nat)
    requires 0 < w <= 8
    ensures Pow256(w) % 2 == 0 && Pow256(w) <= M && M % Pow256(w) == 0 && M / Pow256(w) * Pow256(w) == M
    ensures w == 8 ==> Pow256(w) == M
    ensures w < 8 ==> 2 * Pow256(w) <= M
  {
    assert Pow256(1) == 0x100 && Pow256(2) == 0x1_0000;
    assert Pow256(3) == 0x100_0000 && Pow256(4) == 0x1_0000_0000;
    assert Pow256(5) == 0x100_0000_0000 && Pow256(6) == 0x1_0000_0000_0000;
    assert Pow256(7) == 0x100_0000_0000_0000 && Pow256(8) == 0x1_0000_0000_0000_0000;
  }

  lemma HighPart(v: nat, p: nat, w: nat, signed: bool)
    requires p == Pow256(w) && 0 < w <= 8 && p <= v < M
    ensures FitsField(v, w, signed) <==> signed && w < 8 && v >= M - p / 2
  {
    PowerBound(w);
    var k, j := v / p, M / p;
    DivMod(v, p);
    if v >= M - p {
      Distribute(j, 1, p);
      RemainderUnique(v, p, j - 1, v - (M - p));
    }
  }

  /** The program of `f` is understood and every advance in it can be stored anew. */
  ghost predicate Respaceable(data: seq<byte>, f: Fde, cx: Ctx) {
    f.caf > 0 && var rows := Walk(data, f.cfa, f.end, f.begin, f.caf, cx.be); rows.Some? && AllSpaced(cx, rows.value, f.caf)
  }

  /** A function is stuck exactly when no one interval removes it, it changes length, and
      its field does not hold the new length or its program cannot be re-spaced. */
  lemma StuckExact(data: seq<byte>, f: Fde, cx: Ctx)
    ensures Stuck(data, f, cx) <==>
      && (forall i: nat :: i < |cx.ivs| ==>
            !(cx.ivs[i].0 <= f.begin < cx.ivs[i].1
              && (f.begin + f.range.raw <= cx.ivs[i].1 || 0xffff_ffff_ffff_ffff <= cx.ivs[i].1)))
      && NewRange(f, cx) != f.range.raw
      && !(f.range.width.Some? && FitsField(NewRange(f, cx), f.range.width.value, f.range.signed) && Respaceable(data, f, cx))
  {
    hide NewRange, FitsField, Walk, PlanFrom, AllSpaced;
    if f.caf > 0 { PlanExact(data, f.cfa, f.end, f.begin, f.caf, cx); }
  }

  // ---- Cutting a range out (ehframe.rs:794-810) -----------------------------------------

  /** `x` rounded down to a multiple of `align`. */
  function Down(x: nat, align: nat): (r: nat)
    requires align > 0
    ensures r <= x < r + align
  {
    x / align * align
  }

  function Keep(iv: Interval): Intervals { if iv.0 < iv.1 then [iv] else [] }

  /** What is left of one interval, rounded to whole multiples of `align`. */
  function Pieces(iv: Interval, lo: nat, hi: nat, align: nat): Intervals
    requires align > 0
  {
    var (s, e) := iv;
    if e <= lo || s >= hi then Keep(iv)
    else
      (if s < lo then Keep((s, s + Down(lo - s, align))) else [])
      + (if hi < e then Keep((e - Down(e - hi, align), e)) else [])
  }

  function Cut(ivs: Intervals, lo: nat, hi: nat, align: nat): Intervals
    requires align > 0
  {
    if ivs == [] then [] else Cut(ivs[..|ivs| - 1], lo, hi, align) + Pieces(ivs[|ivs| - 1], lo, hi, align)
  }

  method CutRange(intervals: Intervals, lo: nat, hi: nat, align: nat) returns (out: Intervals)
    requires align > 0
    ensures out == Cut(intervals, lo, hi, align)
  {
    out := [];
    for i := 0 to |intervals|
      invariant out == Cut(intervals[..i], lo, hi, align)
    {
      var (s, e) := intervals[i];
      assert intervals[..i + 1][..i] == intervals[..i];
      ghost var was := out;
      if e <= lo || s >= hi {
        out := out + Keep((s, e));
        continue;
      }
      if s < lo {
        out := out + Keep((s, s + Down(lo - s, align)));
      }
      if hi < e {
        out := out + Keep((e - Down(e - hi, align), e));
      }
      assert out == was + Pieces(intervals[i], lo, hi, align);
    }
    assert intervals[..|intervals|] == intervals;
  }

  lemma PiecesFit(iv: Interval, lo: nat, hi: nat, align: nat)
    requires align > 0 && iv.0 <= iv.1 && lo <= hi
    ensures Fits(Pieces(iv, lo, hi, align), iv.0, iv.1)
  {
    if iv.0 < lo { var l := Down(lo - iv.0, align); }
    if hi < iv.1 { var r := Down(iv.1 - hi, align); }
  }

  lemma FitsConcat(a: Intervals, b: Intervals, ts: nat, mid: nat, mid': nat, te: nat)
    requires Fits(a, ts, mid) && Fits(b, mid', te) && mid <= mid'
    ensures Fits(a + b, ts, te)
  {
  }

  lemma FitsWiden(a: Intervals, ts: nat, te: nat, te': nat)
    requires Fits(a, ts, te) && te <= te'
    ensures Fits(a, ts, te')
  {
  }

  lemma {:induction false} CutFits(ivs: Intervals, ts: nat, te: nat, lo: nat, hi: nat, align: nat)
    requires align > 0 && Fits(ivs, ts, te) && lo <= hi
    ensures Fits(Cut(ivs, lo, hi, align), ts, te)
    decreases |ivs|
  {
    if ivs != [] {
      var k := |ivs| - 1;
      FitsPrefix(ivs, ts, te);
      CutFits(ivs[..k], ts, ivs[k].0, lo, hi, align);
      PiecesFit(ivs[k], lo, hi, align);
      FitsConcat(Cut(ivs[..k], lo, hi, align), Pieces(ivs[k], lo, hi, align), ts, ivs[k].0, ivs[k].0, ivs[k].1);
      FitsWiden(Cut(ivs, lo, hi, align), ts, ivs[k].1, te);
    }
  }

  /** No interval left is empty. */
  lemma {:induction false} CutNonEmpty(ivs: Intervals, lo: nat, hi: nat, align: nat, i: nat)
    requires align > 0 && i < |Cut(ivs, lo, hi, align)|
    ensures Cut(ivs, lo, hi, align)[i].0 < Cut(ivs, lo, hi, align)[i].1
    decreases |ivs|
  {
    hide Down;
    var k := |ivs| - 1;
    if i < |Cut(ivs[..k], lo, hi, align)| { CutNonEmpty(ivs[..k], lo, hi, align, i); }
  }

  lemma InDeadConcat(x: nat, a: Intervals, b: Intervals)
    ensures InDead(x, a + b) <==> InDead(x, a) || InDead(x, b)
  {
    if InDead(x, a) { var i: nat :| i < |a| && a[i].0 <= x < a[i].1; assert (a + b)[i] == a[i]; }
    if InDead(x, b) { var i: nat :| i < |b| && b[i].0 <= x < b[i].1; assert (a + b)[|a| + i] == b[i]; }
  }

  /** Counting blocks of `align` bytes from `s`, the block of `x` ends by `lo`. */
  predicate BlockBelow(s: nat, lo: nat, align: nat, x: nat)
    requires align > 0
  {
    s <= x && s + (x - s) / align * align + align <= lo
  }

  /** Counting blocks down from `e`, the block of `x` starts at `hi` or above. */
  predicate BlockAbove(e: nat, hi: nat, align: nat, x: nat)
    requires align > 0
  {
    x < e && hi + (e - 1 - x) / align * align + align <= e
  }

  /**
   The byte `x` of a dead interval stays dead when `[lo, hi)` is taken out: the
   interval misses the range, or the aligned block of `x`, counted from the end of
   the interval on its side, lies clear of the range.
   */
  predicate StaysDead(iv: Interval, lo: nat, hi: nat, align: nat, x: nat)
    requires align > 0
  {
    && iv.0 <= x < iv.1
    && (iv.1 <= lo || hi <= iv.0 || BlockBelow(iv.0, lo, align, x) || BlockAbove(iv.1, hi, align, x))
  }

  /** A number is below the largest multiple of `a` in `n` exactly when its own block fits. */
  lemma DownExact(n: nat, a: nat, y: nat)
    requires a > 0
    ensures y < Down(n, a) <==> y / a * a + a <= n
  {
    var q, k := n / a, y / a;
    DivMod(n, a);
    DivMod(y, a);
    if k < q { AtLeast(q - k, a); Distribute(q, k, a); }
    if k >= q { Distribute(k, q, a); Product(k - q, a); }
  }

  lemma Product(x: nat, a: nat)
    ensures x * a >= 0
  {
  }

  lemma LeftExact(s: nat, lo: nat, align: nat, x: nat)
    requires align > 0 && s < lo
    ensures InDead(x, Keep((s, s + Down(lo - s, align)))) <==> BlockBelow(s, lo, align, x)
  {
    KeepExact(x, (s, s + Down(lo - s, align)));
    if s <= x { DownExact(lo - s, align, x - s); }
  }

  lemma RightExact(hi: nat, e: nat, align: nat, x: nat)
    requires align > 0 && hi < e
    ensures InDead(x, Keep((e - Down(e - hi, align), e))) <==> BlockAbove(e, hi, align, x)
  {
    KeepExact(x, (e - Down(e - hi, align), e));
    if x < e { DownExact(e - hi, align, e - 1 - x); }
  }

  lemma BlockBounds(s: nat, lo: nat, align: nat, x: nat)
    requires align > 0
    ensures BlockBelow(s, lo, align, x) ==> s <= x < lo
    ensures BlockAbove(s, lo, align, x) ==> lo <= x < s
    ensures s <= x && x + align <= lo ==> BlockBelow(s, lo, align, x)
    ensures x < s && lo + align <= x + 1 ==> BlockAbove(s, lo, align, x)
  {
    if s <= x { DivMod(x - s, align); } else { DivMod(s - 1 - x, align); }
  }

  lemma PiecesExact(iv: Interval, lo: nat, hi: nat, align: nat, x: nat)
    requires align > 0 && lo <= hi
    ensures InDead(x, Pieces(iv, lo, hi, align)) <==> StaysDead(iv, lo, hi, align, x)
  {
    hide Keep, Down, BlockBelow, BlockAbove;
    var (s, e) := iv;
    BlockBounds(s, lo, align, x);
    BlockBounds(e, hi, align, x);
    if e <= lo || s >= hi {
      KeepExact(x, iv);
    } else {
      var l := if s < lo then Keep((s, s + Down(lo - s, align))) else [];
      var r := if hi < e then Keep((e - Down(e - hi, align), e)) else [];
      InDeadConcat(x, l, r);
      if s < lo { LeftExact(s, lo, align, x); }
      if hi < e { RightExact(hi, e, align, x); }
    }
  }

  lemma KeepExact(x: nat, iv: Interval)
    ensures InDead(x, Keep(iv)) <==> iv.0 <= x < iv.1
  {
    if iv.0 <= x < iv.1 { assert Keep(iv)[0] == iv; }
  }

  /** After a cut exactly the bytes in aligned blocks clear of the range are dead. */
  lemma {:induction false} CutExact(ivs: Intervals, lo: nat, hi: nat, align: nat, x: nat)
    requires align > 0 && lo <= hi
    ensures InDead(x, Cut(ivs, lo, hi, align)) <==> exists i: nat :: i < |ivs| && StaysDead(ivs[i], lo, hi, align, x)
    decreases |ivs|
  {
    hide StaysDead, Pieces;
    if ivs != [] {
      var k := |ivs| - 1;
      CutExact(ivs[..k], lo, hi, align, x);
      PiecesExact(ivs[k], lo, hi, align, x);
      InDeadConcat(x, Cut(ivs[..k], lo, hi, align), Pieces(ivs[k], lo, hi, align));
      if i: nat :| i < k && StaysDead(ivs[..k][i], lo, hi, align, x) { assert StaysDead(ivs[i], lo, hi, align, x); }
      if i: nat :| i < k && StaysDead(ivs[i], lo, hi, align, x) { assert StaysDead(ivs[..k][i], lo, hi, align, x); }
    }
  }

  /** So a cut removes the range, and gives back less than `align` bytes on either side of it. */
  lemma CutBounds(ivs: Intervals, lo: nat, hi: nat, align: nat, x: nat)
    requires align > 0 && lo <= hi
    ensures InDead(x, Cut(ivs, lo, hi, align)) ==> InDead(x, ivs) && !(lo <= x < hi)
    ensures InDead(x, ivs) && !InDead(x, Cut(ivs, lo, hi, align)) ==> lo < x + align && x + 1 < hi + align
  {
    hide Cut, BlockBelow, BlockAbove;
    CutExact(ivs, lo, hi, align, x);
    forall i: nat | i < |ivs|
      ensures StaysDead(ivs[i], lo, hi, align, x) ==> ivs[i].0 <= x < ivs[i].1 && !(lo <= x < hi)
      ensures ivs[i].0 <= x < ivs[i].1 && !StaysDead(ivs[i], lo, hi, align, x) ==> lo < x + align && x + 1 < hi + align
    {
      BlockBounds(ivs[i].0, lo, align, x);
      BlockBounds(ivs[i].1, hi, align, x);
    }
  }

  /** The pieces left keep a multiple of `align` bytes. */
  lemma {:induction false} CutMultiples(ivs: Intervals, lo: nat, hi: nat, align: nat)
    requires align > 0 && Multiples(ivs, align)
    ensures Multiples(Cut(ivs, lo, hi, align), align)
    decreases |ivs|
  {
    hide Pieces;
    if ivs != [] {
      var k := |ivs| - 1;
      CutMultiples(ivs[..k], lo, hi, align);
      PiecesMultiples(ivs[k], lo, hi, align);
    }
  }

  lemma PiecesMultiples(iv: Interval, lo: nat, hi: nat, align: nat)
    requires align > 0 && iv.0 <= iv.1 && (iv.1 - iv.0) % align == 0
    ensures Multiples(Pieces(iv, lo, hi, align), align)
  {
    hide Down;
    if iv.0 < lo { DownMultiple(lo - iv.0, align); }
    if hi < iv.1 { DownMultiple(iv.1 - hi, align); }
  }

  lemma DownMultiple(x: nat, align: nat)
    requires align > 0
    ensures Down(x, align) % align == 0
  {
    MultipleMod(x / align, align);
  }

  // ---- Rounds (ehframe.rs:744-790) ----------------------------------------------------------

  predicate StuckAt(data: seq<byte>, fdes: seq<Fde>, cx: Ctx, i: nat, r: Interval)
    requires i < |fdes|
  {
    Stuck(data, fdes[i], cx) && r == (fdes[i].begin, EndOf(fdes[i]))
  }

  /** `stuck_ranges`: the code ranges of the stuck functions. */
  function StuckRanges(data: seq<byte>, fdes: seq<Fde>, cx: Ctx): (rs: seq<Interval>)
    ensures forall r :: r in rs <==> exists i: nat :: i < |fdes| && StuckAt(data, fdes, cx, i, r)
    decreases |fdes|
  {
    if fdes == [] then []
    else
      var k := |fdes| - 1;
      var rest := StuckRanges(data, fdes[..k], cx);
      assert forall i: nat, r :: i < k ==> (StuckAt(data, fdes, cx, i, r) <==> StuckAt(data, fdes[..k], cx, i, r));
      var last := (fdes[k].begin, EndOf(fdes[k]));
      if Stuck(data, fdes[k], cx) then
        assert StuckAt(data, fdes, cx, k, last);
        rest + [last]
      else rest
  }

  /** `now` removes only bytes that `was` removed. */
  ghost predicate RemovesLess(now: Intervals, was: Intervals) {
    forall x: nat :: InDead(x, now) ==> InDead(x, was)
  }

  ghost predicate Spared(ivs: Intervals, r: Interval) {
    forall x: nat :: r.0 <= x < r.1 ==> !InDead(x, ivs)
  }

  /** All ranges of one round are cut out, one after the other. */
  method CutAll(intervals: Intervals, rs: seq<Interval>, align: nat, ts: nat, te: nat) returns (ivs: Intervals)
    requires align > 0 && Fits(intervals, ts, te) && forall k: nat :: k < |rs| ==> rs[k].0 <= rs[k].1
    ensures Fits(ivs, ts, te) && RemovesLess(ivs, intervals)
    ensures forall k: nat :: k < |rs| ==> Spared(ivs, rs[k])
    ensures Multiples(intervals, align) ==> Multiples(ivs, align)
  {
    ivs := intervals;
    for k := 0 to |rs|
      invariant Fits(ivs, ts, te) && RemovesLess(ivs, intervals)
      invariant Multiples(intervals, align) ==> Multiples(ivs, align)
      invariant forall j: nat :: j < k ==> Spared(ivs, rs[j])
    {
      ghost var was := ivs;
      var (lo, hi) := rs[k];
      CutFits(was, ts, te, lo, hi, align);
      if Multiples(was, align) { CutMultiples(was, lo, hi, align); }
      ivs := CutRange(ivs, lo, hi, align);
      forall x: nat ensures InDead(x, ivs) ==> InDead(x, was) && !(lo <= x < hi) { CutBounds(was, lo, hi, align, x); }
    }
  }

  ghost predicate NoneStuck(data: seq<byte>, fdes: seq<Fde>, cx: Ctx) {
    forall i: nat :: i < |fdes| ==> !Stuck(data, fdes[i], cx)
  }

  /** The functions known to be whole after some rounds. */
  ghost predicate AllWhole(fdes: seq<Fde>, whole: set<nat>, ivs: Intervals) {
    forall i :: i in whole ==> i < |fdes| && Whole(fdes[i], ivs)
  }

  lemma {:induction false} AtMost(whole: set<nat>, n: nat)
    requires forall i :: i in whole ==> i < n
    ensures |whole| <= n
    decreases n
  {
    if n > 0 {
      var rest := whole - {n - 1};
      AtMost(rest, n - 1);
      if n - 1 in whole { assert whole == rest + {n - 1}; } else { assert whole == rest; }
    }
  }

  /** A round makes at least one more function whole. */
  lemma RoundGains(data: seq<byte>, fdes: seq<Fde>, cx: Ctx, whole: set<nat>, next: Intervals, rs: seq<Interval>)
    returns (i: nat)
    requires CtxOk(cx) && cx.te < M && (forall f :: f in fdes ==> FdeOk(f)) && AllWhole(fdes, whole, cx.ivs)
    requires rs == StuckRanges(data, fdes, cx) && |rs| > 0
    requires RemovesLess(next, cx.ivs) && forall k: nat :: k < |rs| ==> Spared(next, rs[k])
    ensures i < |fdes| && i !in whole && AllWhole(fdes, whole + {i}, next)
  {
    assert rs[0] in rs;
    i :| i < |fdes| && StuckAt(data, fdes, cx, i, rs[0]);
    if Whole(fdes[i], cx.ivs) { WholeFollows(data, fdes[i], cx); }
    assert Spared(next, rs[0]);
  }

  /** What the rounds keep: `round` functions have become whole. */
  ghost predicate RoundInv(data: seq<byte>, fdes: seq<Fde>, start: Intervals, cx: Ctx, whole: set<nat>, round: nat) {
    && CtxOk(cx) && RemovesLess(cx.ivs, start)
    && AllWhole(fdes, whole, cx.ivs) && |whole| == round
    && (NoneStuck(data, fdes, cx.(ivs := start)) ==> round == 0 && cx.ivs == start)
  }

  lemma NoRangesNoneStuck(data: seq<byte>, fdes: seq<Fde>, cx: Ctx)
    ensures StuckRanges(data, fdes, cx) == [] <==> NoneStuck(data, fdes, cx)
  {
    forall i: nat | i < |fdes| && Stuck(data, fdes[i], cx) ensures StuckRanges(data, fdes, cx) != [] {
      assert StuckAt(data, fdes, cx, i, (fdes[i].begin, EndOf(fdes[i])));
    }
    if StuckRanges(data, fdes, cx) != [] { assert StuckRanges(data, fdes, cx)[0] in StuckRanges(data, fdes, cx); }
  }

  lemma StuckRangesUpright(data: seq<byte>, fdes: seq<Fde>, cx: Ctx)
    requires forall f :: f in fdes ==> FdeOk(f)
    ensures forall k: nat :: k < |StuckRanges(data, fdes, cx)| ==>
      StuckRanges(data, fdes, cx)[k].0 <= StuckRanges(data, fdes, cx)[k].1
  {
    var rs := StuckRanges(data, fdes, cx);
    forall k: nat | k < |rs| ensures rs[k].0 <= rs[k].1 {
      assert rs[k] in rs;
      var i: nat :| i < |fdes| && StuckAt(data, fdes, cx, i, rs[k]);
      assert FdeOk(fdes[i]) && rs[k] == (fdes[i].begin, EndOf(fdes[i]));
    }
  }

  method UnwindSafeIntervals(data: seq<byte>, fdes: seq<Fde>, intervals: Intervals, ts: nat, te: nat, align: nat, be: bool)
    returns (ivs: Intervals)
    requires Fits(intervals, ts, te) && te < M && forall f :: f in fdes ==> FdeOk(f)
    ensures Fits(ivs, ts, te) && RemovesLess(ivs, intervals)
    ensures NoneStuck(data, fdes, Ctx(ivs, ts, te, be))
    ensures NoneStuck(data, fdes, Ctx(intervals, ts, te, be)) ==> ivs == intervals
    ensures Multiples(intervals, Max(align, 1)) ==> Multiples(ivs, Max(align, 1))
  {
    ivs := intervals;
    ghost var whole: set<nat> := {};
    for round := 0 to |fdes| + 1
      invariant RoundInv(data, fdes, intervals, Ctx(ivs, ts, te, be), whole, round)
      invariant Multiples(intervals, Max(align, 1)) ==> Multiples(ivs, Max(align, 1))
    {
      ghost var cx := Ctx(ivs, ts, te, be);
      var stuck := StuckRanges(data, fdes, Ctx(ivs, ts, te, be));
      NoRangesNoneStuck(data, fdes, cx);
      if |stuck| == 0 {
        return;
      }
      StuckRangesUpright(data, fdes, cx);
      ivs := CutAll(ivs, stuck, Max(align, 1), ts, te);
      ghost var i := RoundGains(data, fdes, cx, whole, ivs, stuck);
      whole := whole + {i};
    }
    AtMost(whole, |fdes|);
    assert false;
  }

  /** Stores past a field leave it as written: a reader gets any value that fits. */
  lemma FieldStays(data: seq<byte>, off: nat, w: nat, v: nat, signed: bool, st: seq<Store>, lo: nat, hi: nat, be: bool)
    requires off + w <= lo <= |data| && Within(st, lo, hi) && FitsField(v, w, signed)
    ensures ReadField(Commit(WriteUn(data, off, w, v, be), st, be), off, w, signed, be) == Some(v)
  {
    var d1 := WriteUn(data, off, w, v, be);
    CommitLocal(d1, st, be, lo, hi);
    StoredLow(v, w, be);
    assert Commit(d1, st, be)[off..off + w] == d1[off..off + w];
    LowOfLow(v, w);
  }

  lemma LowOfLow(v: nat, w: nat)
    ensures v % Pow256(w) % Pow256(w) == v % Pow256(w)
  {
    var p := Pow256(w);
    assert v % p < p;
    Arith.Cut(0, p, v % p);
  }

  /** A store before the program does not disturb its re-spacing. */
  lemma RowsFollow(data: seq<byte>, d1: seq<byte>, p: nat, end: nat, loc: nat, caf: nat, cx: Ctx, b: nat)
    requires caf > 0 && PlanFrom(data, p, end, loc, caf, cx).Some? && Agree(d1, data, p, |d1|)
    ensures Walk(data, p, end, loc, caf, cx.be).Some?
    ensures var d := Commit(d1, PlanFrom(data, p, end, loc, caf, cx).value, cx.be);
      Walk(d, p, end, b, caf, cx.be).Some?
      && Respaced(cx, Walk(data, p, end, loc, caf, cx.be).value, Walk(d, p, end, b, caf, cx.be).value, loc, b)
  {
    var st := PlanFrom(data, p, end, loc, caf, cx).value;
    PlanWithin(data, p, end, loc, caf, cx);
    PlanRespaces(data, p, end, loc, caf, cx, b);
    CommitAgree(d1, data, st, cx.be, p, if p <= end then end else p);
    WalkLocal(Commit(d1, st, cx.be), Commit(data, st, cx.be), p, end, b, caf, cx.be);
  }

  lemma ShrinkStores(data: seq<byte>, f: Fde, cx: Ctx)
    requires PlanShrink(data, f, cx).Some? && NewRange(f, cx) != f.range.raw
    ensures f.range.width.Some? && FitsField(NewRange(f, cx), f.range.width.value, f.range.signed)
    ensures f.caf > 0 && PlanFrom(data, f.cfa, f.end, f.begin, f.caf, cx).Some?
    ensures Commit(data, PlanShrink(data, f, cx).value, cx.be)
         == Commit(WriteUn(data, f.range.off, f.range.width.value, NewRange(f, cx), cx.be),
                   PlanFrom(data, f.cfa, f.end, f.begin, f.caf, cx).value, cx.be)
  {
    var st := PlanFrom(data, f.cfa, f.end, f.begin, f.caf, cx).value;
    var own := Store(f.range.off, f.range.width.value, NewRange(f, cx));
    assert ([own] + st)[1..] == st;
  }

  /** The field of a length lies before the program it belongs to, inside the file. */
  predicate FieldBefore(f: Fde, n: nat) {
    (f.range.width.Some? ==> f.range.off + f.range.width.value <= f.cfa) && f.cfa <= n
  }

  /** A function left live can follow: after its stores its length field, signed
      or not, reads the new length, and the program keeps its instructions with
      every row re-spaced, whatever its new start `b`. */
  lemma LiveFollows(data: seq<byte>, f: Fde, cx: Ctx, b: nat)
    requires !FdeDead(f, cx.ivs) && !Stuck(data, f, cx) && NewRange(f, cx) != f.range.raw && FieldBefore(f, |data|)
    ensures PlanShrink(data, f, cx).Some? && f.caf > 0 && f.range.width.Some?
    ensures var d := Commit(data, PlanShrink(data, f, cx).value, cx.be);
      && ReadField(d, f.range.off, f.range.width.value, f.range.signed, cx.be) == Some(NewRange(f, cx))
      && Walk(data, f.cfa, f.end, f.begin, f.caf, cx.be).Some? && Walk(d, f.cfa, f.end, b, f.caf, cx.be).Some?
      && Respaced(cx, Walk(data, f.cfa, f.end, f.begin, f.caf, cx.be).value,
                  Walk(d, f.cfa, f.end, b, f.caf, cx.be).value, f.begin, b)
  {
    ShrinkStores(data, f, cx);
    var w := f.range.width.value;
    var st := PlanFrom(data, f.cfa, f.end, f.begin, f.caf, cx).value;
    var d1 := WriteUn(data, f.range.off, w, NewRange(f, cx), cx.be);
    PlanWithin(data, f.cfa, f.end, f.begin, f.caf, cx);
    FieldStays(data, f.range.off, w, NewRange(f, cx), f.range.signed, st, f.cfa, if f.cfa <= f.end then f.end else f.cfa, cx.be);
    RowsFollow(data, d1, f.cfa, f.end, f.begin, f.caf, cx, b);
  }
}
