/**
 The address map of compaction (src/patch/relocs.rs): dead intervals, the shift
 of every address, and the merging of interval lists.

 Addresses are natural numbers; the intervals are half open.  Under `Fits`
 (what `compaction_fits` checks) every sum below stays inside .text, so no
 64-bit overflow can occur.
 */
module AddressMap {
  import opened Arith

  type Interval = (nat, nat)
  type Intervals = seq<Interval>

  const PAGE_SIZE: nat := 4096

  function Min(a: nat, b: nat): nat { if a <= b then a else b }
  function Max(a: nat, b: nat): nat { if a >= b then a else b }

  /** `a.saturating_sub(b)`. */
  function Monus(a: nat, b: nat): nat { if a >= b then a - b else 0 }

  /** `in_dead_range`. */
  predicate InDead(x: nat, ivs: Intervals) {
    exists i: nat :: i < |ivs| && ivs[i].0 <= x < ivs[i].1
  }

  /** What one interval adds to the shift of `addr`. */
  function Part(addr: nat, iv: Interval): nat {
    if iv.0 < addr then Monus(Min(iv.1, addr), iv.0) else 0
  }

  function Shift(addr: nat, ivs: Intervals): nat {
    if ivs == [] then 0 else Shift(addr, ivs[..|ivs| - 1]) + Part(addr, ivs[|ivs| - 1])
  }

  method ShiftAt(addr: nat, intervals: Intervals) returns (total: nat)
    ensures total == Shift(addr, intervals)
  {
    total := 0;
    for i := 0 to |intervals|
      invariant total == Shift(addr, intervals[..i])
    {
      var (start, end) := intervals[i];
      assert intervals[..i + 1][..i] == intervals[..i];
      if start < addr {
        total := total + Monus(Min(end, addr), start);
      }
    }
    assert intervals[..|intervals|] == intervals;
  }

  function TotalDead(ivs: Intervals): nat {
    if ivs == [] then 0 else TotalDead(ivs[..|ivs| - 1]) + Monus(ivs[|ivs| - 1].1, ivs[|ivs| - 1].0)
  }

  function PageShrink(ivs: Intervals): nat { TotalDead(ivs) / PAGE_SIZE * PAGE_SIZE }

  /** The shift of any address: 0 before .text, the dead bytes below inside
      it, the pages that leave the file after it. */
  function TotalShift(addr: nat, ivs: Intervals, ts: nat, te: nat): nat {
    if addr < ts then 0 else if addr < te then Shift(addr, ivs) else PageShrink(ivs)
  }

  /** Sorted, disjoint and inside `[ts, te)`. */
  ghost predicate Fits(ivs: Intervals, ts: nat, te: nat) {
    && ts <= te
    && (forall i: nat :: i < |ivs| ==> ts <= ivs[i].0 <= ivs[i].1 <= te)
    && (forall i: nat, j: nat :: i < j < |ivs| ==> ivs[i].1 <= ivs[j].0)
  }

  // ---- The shift counts dead bytes ---------------------------------------------

  /** The dead addresses in `[lo, a)`, counted one by one. */
  ghost function CountDead(ivs: Intervals, lo: nat, a: nat): nat {
    if a <= lo then 0 else CountDead(ivs, lo, a - 1) + (if InDead(a - 1, ivs) then 1 else 0)
  }

  lemma FitsPrefix(ivs: Intervals, ts: nat, te: nat)
    requires Fits(ivs, ts, te) && |ivs| > 0
    ensures Fits(ivs[..|ivs| - 1], ts, te) && Fits(ivs[..|ivs| - 1], ts, ivs[|ivs| - 1].0)
  {
  }

  lemma {:induction false} InDeadPrefix(x: nat, ivs: Intervals)
    requires |ivs| > 0
    ensures InDead(x, ivs) <==> InDead(x, ivs[..|ivs| - 1]) || ivs[|ivs| - 1].0 <= x < ivs[|ivs| - 1].1
  {
    var k := |ivs| - 1;
    if InDead(x, ivs) {
      var i: nat :| i < |ivs| && ivs[i].0 <= x < ivs[i].1;
      if i < k { assert ivs[..k][i].0 <= x < ivs[..k][i].1; }
    }
    if InDead(x, ivs[..k]) {
      var i: nat :| i < k && ivs[..k][i].0 <= x < ivs[..k][i].1;
      assert ivs[i].0 <= x < ivs[i].1;
    }
  }

  /** One address further, the shift grows by one exactly over a dead byte. */
  lemma {:induction false} ShiftStep(ivs: Intervals, ts: nat, te: nat, a: nat)
    requires Fits(ivs, ts, te)
    ensures Shift(a + 1, ivs) == Shift(a, ivs) + (if InDead(a, ivs) then 1 else 0)
    decreases |ivs|
  {
    if ivs != [] {
      var k := |ivs| - 1;
      FitsPrefix(ivs, ts, te);
      ShiftStep(ivs[..k], ts, te, a);
      InDeadPrefix(a, ivs);
      if InDead(a, ivs[..k]) {
        var i: nat :| i < k && ivs[..k][i].0 <= a < ivs[..k][i].1;
        assert ivs[i].1 <= ivs[k].0;
      }
    }
  }

  lemma {:induction false} ShiftBefore(ivs: Intervals, a: nat)
    requires forall i: nat :: i < |ivs| ==> ivs[i].0 >= a
    ensures Shift(a, ivs) == 0
    decreases |ivs|
  {
    if ivs != [] { ShiftBefore(ivs[..|ivs| - 1], a); }
  }

  /** The interval arithmetic of `shift_at` is the count of dead bytes below. */
  lemma {:induction false} ShiftIsCount(ivs: Intervals, ts: nat, te: nat, a: nat)
    requires Fits(ivs, ts, te) && ts <= a
    ensures Shift(a, ivs) == CountDead(ivs, ts, a)
    decreases a
  {
    if a == ts { ShiftBefore(ivs, a); } else {
      ShiftIsCount(ivs, ts, te, a - 1);
      ShiftStep(ivs, ts, te, a - 1);
    }
  }

  lemma {:induction false} ShiftAtEnd(ivs: Intervals, te: nat)
    requires forall i: nat :: i < |ivs| ==> ivs[i].1 <= te
    ensures Shift(te, ivs) == TotalDead(ivs)
    decreases |ivs|
  {
    if ivs != [] { ShiftAtEnd(ivs[..|ivs| - 1], te); }
  }

  /** Between two addresses the shift grows by at most their distance, and by
      less if the lower one is live. */
  lemma {:induction false} ShiftBetween(ivs: Intervals, ts: nat, te: nat, a: nat, b: nat)
    requires Fits(ivs, ts, te) && a <= b
    ensures Shift(a, ivs) <= Shift(b, ivs) <= Shift(a, ivs) + (b - a)
    ensures a < b && !InDead(a, ivs) ==> Shift(b, ivs) < Shift(a, ivs) + (b - a)
    decreases b - a
  {
    if a < b {
      ShiftStep(ivs, ts, te, b - 1);
      ShiftBetween(ivs, ts, te, a, b - 1);
    }
  }

  /** Over a stretch of live bytes the shift stays the same. */
  lemma {:induction false} ShiftFlat(ivs: Intervals, ts: nat, te: nat, a: nat, b: nat)
    requires Fits(ivs, ts, te) && a <= b && forall x: nat :: a <= x < b ==> !InDead(x, ivs)
    ensures Shift(b, ivs) == Shift(a, ivs)
    decreases b - a
  {
    if a < b {
      ShiftFlat(ivs, ts, te, a, b - 1);
      ShiftStep(ivs, ts, te, b - 1);
    }
  }

  lemma ShiftInside(ivs: Intervals, ts: nat, te: nat, a: nat)
    requires Fits(ivs, ts, te) && ts <= a
    ensures Shift(a, ivs) <= a - ts
  {
    ShiftBefore(ivs, ts);
    ShiftBetween(ivs, ts, te, ts, a);
  }

  function Moved(a: nat, ivs: Intervals, ts: nat, te: nat): int { a - TotalShift(a, ivs, ts, te) }

  /** The map is strictly increasing on live addresses, before, inside and
      after .text alike. */
  lemma MapIncreases(ivs: Intervals, ts: nat, te: nat, a: nat, b: nat)
    requires Fits(ivs, ts, te) && a < b && !InDead(a, ivs)
    ensures Moved(a, ivs, ts, te) < Moved(b, ivs, ts, te)
  {
    ShiftAtEnd(ivs, te);
    if ts <= b < te { ShiftInside(ivs, ts, te, b); }
    if ts <= a < te { ShiftBetween(ivs, ts, te, a, Min(b, te)); }
    if a < ts <= te <= b { ShiftInside(ivs, ts, te, te); }
  }

  // ---- Merging (relocs.rs:39-49, 175-190) -------------------------------------------

  predicate LexLe(a: Interval, b: Interval) { a.0 < b.0 || (a.0 == b.0 && a.1 <= b.1) }

  predicate SortedIvs(s: Intervals) { forall i: nat, j: nat :: i < j < |s| ==> LexLe(s[i], s[j]) }

  /** The library sort of interval lists. */
  function Sort(s: Intervals): (r: Intervals)
    ensures SortedIvs(r) && multiset(r) == multiset(s)
  {
    if s == [] then []
    else
      assert s == s[..|s| - 1] + [s[|s| - 1]];
      Insert(Sort(s[..|s| - 1]), s[|s| - 1])
  }

  function Insert(s: Intervals, x: Interval): (r: Intervals)
    requires SortedIvs(s)
    ensures SortedIvs(r) && multiset(r) == multiset(s) + multiset{x}
  {
    if s == [] then [x]
    else
      var k := |s| - 1;
      assert s == s[..k] + [s[k]];
      if LexLe(s[k], x) then s + [x]
      else
        var t := Insert(s[..k], x);
        assert forall y :: y in t ==> y in multiset(t);
        assert forall y :: y in t ==> LexLe(y, s[k]);
        t + [s[k]]
  }

  /** Each interval starts past the end of the one before it. */
  predicate Separate(ivs: Intervals) { forall i: nat :: i + 1 < |ivs| ==> ivs[i].1 < ivs[i + 1].0 }

  predicate Upright(ivs: Intervals) { forall i: nat :: i < |ivs| ==> ivs[i].0 <= ivs[i].1 }

  /** One interval more: it extends the last one or stands alone. */
  function Extend(merged: Intervals, iv: Interval): Intervals {
    var last := |merged| - 1;
    if merged != [] && iv.0 <= merged[last].1
    then merged[last := (merged[last].0, Max(merged[last].1, iv.1))]
    else merged + [iv]
  }

  /** The same addresses are dead. */
  ghost predicate SameDead(a: Intervals, b: Intervals) { forall x: nat :: InDead(x, a) <==> InDead(x, b) }

  /** The list merged from `done`, which is sorted by start. */
  ghost predicate MergedFrom(merged: Intervals, done: Intervals) {
    && Separate(merged) && SameDead(merged, done)
    && (merged != [] ==> done != [] && merged[|merged| - 1].0 <= done[|done| - 1].0)
    && (Upright(done) ==> Upright(merged))
  }

  lemma ExtendKeeps(merged: Intervals, done: Intervals, iv: Interval)
    requires MergedFrom(merged, done) && (done != [] ==> done[|done| - 1].0 <= iv.0)
    ensures MergedFrom(Extend(merged, iv), done + [iv])
  {
    var r, last, all := Extend(merged, iv), |merged| - 1, done + [iv];
    if merged != [] && iv.0 <= merged[last].1 { assert r[..last] == merged[..last]; } else { assert r[..|merged|] == merged; }
    assert all[..|done|] == done;
    forall x: nat ensures InDead(x, r) <==> InDead(x, all) {
      InDeadPrefix(x, r);
      InDeadPrefix(x, all);
      if r[..|r| - 1] != merged { InDeadPrefix(x, merged); }
    }
  }

  method MergeIntervals(intervals: Intervals) returns (merged: Intervals)
    ensures Separate(merged) && SameDead(merged, intervals)
    ensures Upright(intervals) ==> Upright(merged)
  {
    hide InDead, Sort;
    var sorted := Sort(intervals);
    merged := [];
    for k := 0 to |sorted|
      invariant MergedFrom(merged, sorted[..k])
    {
      var (start, end) := sorted[k];
      assert sorted[..k + 1] == sorted[..k] + [sorted[k]];
      ExtendKeeps(merged, sorted[..k], sorted[k]);
      var last := |merged| - 1;
      if merged != [] && start <= merged[last].1 {
        merged := merged[last := (merged[last].0, Max(merged[last].1, end))];
      } else {
        merged := merged + [(start, end)];
      }
    }
    assert sorted[..|sorted|] == sorted;
    SameElements(intervals, sorted);
  }

  lemma SameElements(a: Intervals, b: Intervals)
    requires multiset(a) == multiset(b)
    ensures SameDead(a, b) && (Upright(a) ==> Upright(b))
  {
    forall x: nat ensures InDead(x, a) <==> InDead(x, b) {
      if InDead(x, a) { InDeadPermuted(a, b, x); }
      if InDead(x, b) { InDeadPermuted(b, a, x); }
    }
    forall i: nat | i < |b| && Upright(a) ensures b[i].0 <= b[i].1 {
      assert b[i] in multiset(a);
    }
  }

  lemma InDeadPermuted(a: Intervals, b: Intervals, x: nat)
    requires multiset(a) == multiset(b) && InDead(x, a)
    ensures InDead(x, b)
  {
    var i: nat :| i < |a| && a[i].0 <= x < a[i].1;
    assert a[i] in multiset(b);
    var j :| 0 <= j < |b| && b[j] == a[i];
  }

  /** `combine_intervals`: the union of two lists, separated and sorted. */
  method CombineIntervals(a: Intervals, b: Intervals) returns (r: Intervals)
    ensures Separate(r)
    ensures forall x: nat :: InDead(x, r) <==> InDead(x, a) || InDead(x, b)
  {
    r := MergeIntervals(a + b);
    forall x: nat ensures InDead(x, a + b) <==> InDead(x, a) || InDead(x, b) {
      if InDead(x, a) { var i: nat :| i < |a| && a[i].0 <= x < a[i].1; assert (a + b)[i] == a[i]; }
      if InDead(x, b) { var i: nat :| i < |b| && b[i].0 <= x < b[i].1; assert (a + b)[|a| + i] == b[i]; }
    }
  }

  lemma OneInterval(ivs: Intervals, a: nat)
    requires |ivs| == 1
    ensures Shift(a, ivs) == Part(a, ivs[0])
  {
    assert ivs[..0] == [];
  }

  /** The shift of every address by counting: none before .text, the dead bytes below
      inside it, and after it the whole pages of 4096 bytes that the dead bytes fill. */
  lemma TotalShiftCounts(ivs: Intervals, ts: nat, te: nat, a: nat)
    requires Fits(ivs, ts, te)
    ensures TotalShift(a, ivs, ts, te)
         == if a < ts then 0 else if a < te then CountDead(ivs, ts, a) else CountDead(ivs, ts, te) / 4096 * 4096
  {
    if ts <= a < te { ShiftIsCount(ivs, ts, te, a); }
    ShiftIsCount(ivs, ts, te, te);
    ShiftAtEnd(ivs, te);
  }

  // ---- Aligned shifts ---------------------------------------------------------------

  /** Every interval holds a multiple of `n` bytes. */
  predicate Multiples(ivs: Intervals, n: nat)
    requires n > 0
  {
    forall i: nat :: i < |ivs| ==> ivs[i].0 <= ivs[i].1 && (ivs[i].1 - ivs[i].0) % n == 0
  }

  lemma {:induction false} ShiftMultiple(ivs: Intervals, a: nat, n: nat)
    requires n in {1, 2, 4} && Multiples(ivs, n) && !InDead(a, ivs)
    ensures Shift(a, ivs) % n == 0
    decreases |ivs|
  {
    if ivs != [] {
      var k := |ivs| - 1;
      InDeadPrefix(a, ivs);
      ShiftMultiple(ivs[..k], a, n);
      AlignedSum(Shift(a, ivs[..k]), Part(a, ivs[k]), 0, n);
    }
  }

  /** If all intervals hold whole instructions, live addresses move by whole instructions. */
  lemma ShiftAligned(ivs: Intervals, ts: nat, te: nat, a: nat, n: nat)
    requires n in {1, 2, 4} && Multiples(ivs, n) && !InDead(a, ivs)
    ensures TotalShift(a, ivs, ts, te) % n == 0
  {
    hide PageShrink, Shift;
    ShiftMultiple(ivs, a, n);
    PagesAligned(ivs, n);
  }

  lemma PagesAligned(ivs: Intervals, n: nat)
    requires n in {1, 2, 4}
    ensures PageShrink(ivs) % n == 0
  {
    hide TotalDead;
    PageMultiple(TotalDead(ivs) / PAGE_SIZE, n);
  }

  /** 256 dead bytes, too few to free a page. */
  const GAP: Intervals := [(0, 0x100)]

  lemma GapShifts(a: nat)
    requires 0x100 <= a
    ensures Shift(a, GAP) == 0x100 && PageShrink(GAP) == 0 && !InDead(a, GAP)
  {
    OneInterval(GAP, a);
    assert GAP[..0] == [];
    assert TotalDead(GAP) == 0x100;
  }
}
