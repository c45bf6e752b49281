/**
 Which functions hold one of a list of addresses
 (src/format/elf/symbols.rs:99-133): one sweep over both sorted lists.
 */
module FuncSweep {
  const MAX: nat := 0xffff_ffff_ffff_ffff

  datatype Func = Func(name: string, addr: nat, size: nat)

  /** A range, its end saturated, and the function it belongs to. */
  datatype Range = Range(start: nat, end: nat, name: string)

  function SatAdd(a: nat, b: nat): nat { if a + b <= MAX then a + b else MAX }

  function RangeOf(f: Func): Range { Range(f.addr, SatAdd(f.addr, f.size), f.name) }

  predicate Covers(r: Range, a: nat) { r.start <= a < r.end }

  /** Saturation loses one address: the highest, of a range that runs past it. */
  lemma CoversExact(f: Func, a: nat)
    requires a < 0x1_0000_0000_0000_0000
    ensures Covers(RangeOf(f), a) <==>
      && f.addr <= a < f.addr + f.size
      && (a < 0xffff_ffff_ffff_ffff || f.addr + f.size < 0x1_0000_0000_0000_0000)
  {
  }

  // ---- Sorting -------------------------------------------------------------------

  predicate ByStart(rs: seq<Range>) { forall i: nat, j: nat :: i < j < |rs| ==> rs[i].start <= rs[j].start }

  function InsertRange(rs: seq<Range>, r: Range): (s: seq<Range>)
    requires ByStart(rs)
    ensures ByStart(s) && forall x :: x in s <==> x == r || x in rs
  {
    if rs == [] || rs[|rs| - 1].start <= r.start then rs + [r]
    else
      var k := |rs| - 1;
      assert rs == rs[..k] + [rs[k]];
      var t := InsertRange(rs[..k], r);
      assert forall x :: x in t ==> x.start <= rs[k].start;
      t + [rs[k]]
  }

  /** The ranges of the functions, sorted by start. */
  function SortedRanges(fs: seq<Func>): (s: seq<Range>)
    ensures ByStart(s)
  {
    if fs == [] then [] else InsertRange(SortedRanges(fs[..|fs| - 1]), RangeOf(fs[|fs| - 1]))
  }

  lemma {:induction false} RangesOfFuncs(fs: seq<Func>, r: Range)
    ensures r in SortedRanges(fs) <==> exists f :: f in fs && RangeOf(f) == r
  {
    if fs != [] {
      var k := |fs| - 1;
      RangesOfFuncs(fs[..k], r);
      assert fs == fs[..k] + [fs[k]];
    }
  }

  predicate Ascending(xs: seq<nat>) { forall i: nat, j: nat :: i < j < |xs| ==> xs[i] <= xs[j] }

  lemma AllBelow(t: seq<nat>, xs: seq<nat>, x: nat, bound: nat)
    requires x <= bound && (forall i: nat :: i < |xs| ==> xs[i] <= bound) && forall y :: y in t ==> y == x || y in xs
    ensures forall i: nat :: i < |t| ==> t[i] <= bound
  {
    forall i: nat | i < |t|
      ensures t[i] <= bound
    {
      assert t[i] in t;
    }
  }

  function InsertAddr(xs: seq<nat>, x: nat): (s: seq<nat>)
    requires Ascending(xs)
    ensures Ascending(s) && forall y :: y in s <==> y == x || y in xs
  {
    if xs == [] || xs[|xs| - 1] <= x then xs + [x]
    else
      var k := |xs| - 1;
      assert xs == xs[..k] + [xs[k]];
      var t := InsertAddr(xs[..k], x);
      AllBelow(t, xs[..k], x, xs[k]);
      t + [xs[k]]
  }

  function SortAddrs(xs: seq<nat>): (s: seq<nat>)
    ensures Ascending(s) && forall y :: y in s <==> y in xs
  {
    if xs == [] then []
    else
      assert xs == xs[..|xs| - 1] + [xs[|xs| - 1]];
      InsertAddr(SortAddrs(xs[..|xs| - 1]), xs[|xs| - 1])
  }

  // ---- The open set ----------------------------------------------------------------

  /** The heap of open ranges, smallest end first. */
  predicate ByEnd(heap: seq<Range>) { forall i: nat, j: nat :: i < j < |heap| ==> heap[i].end <= heap[j].end }

  function Push(heap: seq<Range>, r: Range): (h: seq<Range>)
    requires ByEnd(heap)
    ensures ByEnd(h) && forall x :: x in h <==> x == r || x in heap
  {
    if heap == [] || heap[|heap| - 1].end <= r.end then heap + [r]
    else
      var k := |heap| - 1;
      assert heap == heap[..k] + [heap[k]];
      var t := Push(heap[..k], r);
      assert forall x :: x in t ==> x.end <= heap[k].end;
      t + [heap[k]]
  }

  function Names(rs: seq<Range>): (s: set<string>)
    ensures forall n :: n in s <==> exists r :: r in rs && r.name == n
  {
    if rs == [] then {}
    else
      assert rs == rs[..|rs| - 1] + [rs[|rs| - 1]];
      Names(rs[..|rs| - 1]) + {rs[|rs| - 1].name}
  }

  // ---- The sweep ---------------------------------------------------------------------

  ghost predicate Hit(r: Range, done: seq<nat>) { exists k: nat :: k < |done| && Covers(r, done[k]) }

  /** Empty, or over at one of the addresses: no later one is in it. */
  ghost predicate Spent(r: Range, done: seq<nat>) {
    r.end <= r.start || exists k: nat :: k < |done| && r.end <= done[k]
  }

  /** What is named after the addresses `done`, with ranges below `next` taken. */
  ghost predicate Swept(ranges: seq<Range>, next: nat, done: seq<nat>, names: set<string>) {
    && next <= |ranges|
    && (forall n :: n in names <==> NamedBy(ranges, next, done, n))
    && (forall i: nat :: i < next ==> Hit(ranges[i], done) || Spent(ranges[i], done))
    && forall i: nat, k: nat :: next <= i < |ranges| && k < |done| ==> done[k] < ranges[i].start
  }

  ghost predicate NamedBy(ranges: seq<Range>, next: nat, done: seq<nat>, n: string) {
    exists i: nat :: i < next && i < |ranges| && ranges[i].name == n && Hit(ranges[i], done)
  }

  /** The open set holds the non-empty ranges taken for the current address. */
  ghost predicate Opened(ranges: seq<Range>, from: nat, next: nat, heap: seq<Range>) {
    && from <= next <= |ranges| && ByEnd(heap)
    && (forall r :: r in heap ==> exists i: nat :: from <= i < next && ranges[i] == r)
    && (forall i: nat :: from <= i < next && ranges[i].start < ranges[i].end ==> ranges[i] in heap)
  }

  lemma OpenedNext(ranges: seq<Range>, from: nat, next: nat, heap: seq<Range>)
    requires Opened(ranges, from, next, heap) && next < |ranges|
    ensures Opened(ranges, from, next + 1, if ranges[next].start < ranges[next].end then Push(heap, ranges[next]) else heap)
  {
    var h := if ranges[next].start < ranges[next].end then Push(heap, ranges[next]) else heap;
    forall r | r in h
      ensures exists i: nat :: from <= i < next + 1 && ranges[i] == r
    {
      if r in heap { var i: nat :| from <= i < next && ranges[i] == r; } else { assert ranges[next] == r; }
    }
  }

  /** One address: what stays open covers it, and names exactly the new hits. */
  lemma AddressSwept(ranges: seq<Range>, from: nat, next: nat, done: seq<nat>, a: nat, names: set<string>,
                     heap: seq<Range>, drop: nat)
    requires ByStart(ranges) && Swept(ranges, from, done, names) && Opened(ranges, from, next, heap)
    requires forall k: nat :: k < |done| ==> done[k] <= a
    requires forall i: nat :: from <= i < next ==> ranges[i].start <= a
    requires next < |ranges| ==> a < ranges[next].start
    requires drop <= |heap| && (forall i: nat :: i < drop ==> heap[i].end <= a) && (drop < |heap| ==> a < heap[drop].end)
    ensures Swept(ranges, next, done + [a], names + Names(heap[drop..]))
  {
    var now, open := done + [a], heap[drop..];
    forall i: nat, k: nat | next <= i < |ranges| && k < |now|
      ensures now[k] < ranges[i].start
    {
      if k < |done| { assert now[k] == done[k]; }
    }
    forall i: nat | i < next
      ensures Hit(ranges[i], now) || Spent(ranges[i], now)
    {
      SpentOrHit(ranges, from, next, done, a, names, heap, drop, i);
    }
    forall n
      ensures n in names + Names(open) <==> NamedBy(ranges, next, now, n)
    {
      if n in Names(open) {
        var r :| r in open && r.name == n;
        OpenCovers(ranges, from, next, heap, drop, a, r);
        var i: nat :| from <= i < next && ranges[i] == r;
        assert Covers(ranges[i], now[|done|]);
        assert NamedBy(ranges, next, now, n);
      } else if n in names {
        var i: nat :| i < from && i < |ranges| && ranges[i].name == n && Hit(ranges[i], done);
        var k: nat :| k < |done| && Covers(ranges[i], done[k]);
        assert Covers(ranges[i], now[k]);
        assert NamedBy(ranges, next, now, n);
      }
      if NamedBy(ranges, next, now, n) {
        var i: nat :| i < next && i < |ranges| && ranges[i].name == n && Hit(ranges[i], now);
        NamedNow(ranges, from, next, done, a, names, heap, drop, i);
      }
    }
  }

  lemma OpenCovers(ranges: seq<Range>, from: nat, next: nat, heap: seq<Range>, drop: nat, a: nat, r: Range)
    requires Opened(ranges, from, next, heap) && drop <= |heap| && (drop < |heap| ==> a < heap[drop].end)
    requires forall i: nat :: from <= i < next ==> ranges[i].start <= a
    requires r in heap[drop..]
    ensures Covers(r, a) && exists i: nat :: from <= i < next && ranges[i] == r
  {
    var k: nat :| k < |heap[drop..]| && heap[drop..][k] == r;
    assert heap[drop + k] == r && r in heap;
  }

  lemma NamedNow(ranges: seq<Range>, from: nat, next: nat, done: seq<nat>, a: nat, names: set<string>,
                 heap: seq<Range>, drop: nat, i: nat)
    requires ByStart(ranges) && Swept(ranges, from, done, names) && Opened(ranges, from, next, heap)
    requires forall k: nat :: k < |done| ==> done[k] <= a
    requires drop <= |heap| && (forall j: nat :: j < drop ==> heap[j].end <= a) && i < next && Hit(ranges[i], done + [a])
    ensures ranges[i].name in names + Names(heap[drop..])
  {
    var now := done + [a];
    var k: nat :| k < |now| && Covers(ranges[i], now[k]);
    if i < from {
      assert Hit(ranges[i], done) by {
        if k < |done| { assert now[k] == done[k]; }
      }
      assert NamedBy(ranges, from, done, ranges[i].name);
    } else {
      assert ranges[i] in heap;
      var j: nat :| j < |heap| && heap[j] == ranges[i];
      assert heap[drop..][j - drop] == ranges[i];
    }
  }

  lemma SpentOrHit(ranges: seq<Range>, from: nat, next: nat, done: seq<nat>, a: nat, names: set<string>,
                   heap: seq<Range>, drop: nat, i: nat)
    requires Swept(ranges, from, done, names) && Opened(ranges, from, next, heap) && i < next
    requires forall j: nat :: from <= j < next ==> ranges[j].start <= a
    ensures Hit(ranges[i], done + [a]) || Spent(ranges[i], done + [a])
  {
    var now := done + [a];
    if i < from {
      if Hit(ranges[i], done) {
        var k: nat :| k < |done| && Covers(ranges[i], done[k]);
        assert Covers(ranges[i], now[k]);
      } else if ranges[i].end > ranges[i].start {
        var k: nat :| k < |done| && ranges[i].end <= done[k];
        assert ranges[i].end <= now[k];
      }
    } else {
      assert now[|done|] == a;
    }
  }

  /**
   `funcs_containing`: exactly the functions some address of `addrs` lies in, up to
   the saturated end, however the ranges nest and overlap.
   */
  method FuncsContaining(funcs: seq<Func>, addrs: seq<nat>) returns (names: set<string>)
    ensures forall n :: n in names <==>
      exists f, a :: f in funcs && a in addrs && f.name == n && Covers(RangeOf(f), a)
  {
    hide Swept, Opened, Covers, RangeOf, SortedRanges, SortAddrs, Names, Push;
    var ranges, sorted := SortedRanges(funcs), SortAddrs(addrs);
    var next: nat := 0;
    names := {};
    SweptStart(ranges);
    for k := 0 to |sorted|
      invariant next <= |ranges| && Swept(ranges, next, sorted[..k], names)
    {
      var a := sorted[k];
      ghost var from := next;
      var open: seq<Range> := [];
      OpenedStart(ranges, from);
      StartsAfter(ranges, next, sorted[..k], names, sorted, k);
      while next < |ranges| && ranges[next].start <= a
        invariant from <= next <= |ranges| && ByEnd(open) && Opened(ranges, from, next, open)
        invariant forall i: nat :: from <= i < next ==> ranges[i].start <= a
      {
        OpenedNext(ranges, from, next, open);
        if ranges[next].start < ranges[next].end {
          open := Push(open, ranges[next]);
        }
        next := next + 1;
      }
      ghost var heap, drop := open, 0;
      while open != [] && open[0].end <= a
        invariant 0 <= drop <= |heap| && open == heap[drop..]
        invariant forall i: nat :: i < drop ==> heap[i].end <= a
      {
        open := open[1..];
        drop := drop + 1;
      }
      AddressSwept(ranges, from, next, sorted[..k], a, names, heap, drop);
      assert sorted[..k + 1] == sorted[..k] + [a];
      names := names + Names(open);
    }
    assert sorted[..|sorted|] == sorted;
    SweptAll(funcs, addrs, next, names);
  }

  lemma SweptStart(ranges: seq<Range>)
    ensures Swept(ranges, 0, [], {})
  {
  }

  lemma OpenedStart(ranges: seq<Range>, from: nat)
    requires from <= |ranges|
    ensures Opened(ranges, from, from, [])
  {
  }

  lemma StartsAfter(ranges: seq<Range>, next: nat, done: seq<nat>, names: set<string>, sorted: seq<nat>, k: nat)
    requires Ascending(sorted) && k < |sorted| && done == sorted[..k]
    ensures forall i: nat :: i < |done| ==> done[i] <= sorted[k]
  {
  }

  lemma SweptAll(funcs: seq<Func>, addrs: seq<nat>, next: nat, names: set<string>)
    requires Swept(SortedRanges(funcs), next, SortAddrs(addrs), names)
    ensures forall n :: n in names <==>
      exists f, a :: f in funcs && a in addrs && f.name == n && Covers(RangeOf(f), a)
  {
    var ranges, sorted := SortedRanges(funcs), SortAddrs(addrs);
    forall n | n in names
      ensures exists f, a :: f in funcs && a in addrs && f.name == n && Covers(RangeOf(f), a)
    {
      var i: nat :| i < next && i < |ranges| && ranges[i].name == n && Hit(ranges[i], sorted);
      var k: nat :| k < |sorted| && Covers(ranges[i], sorted[k]);
      RangesOfFuncs(funcs, ranges[i]);
      assert ranges[i] in ranges && sorted[k] in sorted;
      var f :| f in funcs && RangeOf(f) == ranges[i];
    }
    forall f, a | f in funcs && a in addrs && Covers(RangeOf(f), a)
      ensures f.name in names
    {
      RangesOfFuncs(funcs, RangeOf(f));
      var i: nat :| i < |ranges| && ranges[i] == RangeOf(f);
      assert a in sorted;
      var k: nat :| k < |sorted| && sorted[k] == a;
      assert Hit(ranges[i], sorted);
      assert i < next;
      assert NamedBy(ranges, next, sorted, f.name);
    }
  }
}
