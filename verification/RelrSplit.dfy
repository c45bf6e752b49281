/**
 Sorting the DT_RELA entries into packed and kept ones, ordering the packed
 words and refusing overlaps (src/format/elf/relr.rs:711-832).
 */
module RelrSplit {
  import opened Wrappers
  import opened Bytes
  import opened ElfModel
  import opened RelrMemory

  /** A RELATIVE relocation RELR can encode. */
  datatype Packed = Packed(addr: nat, addend: nat, fileOff: nat)

  /** Packed entries, the raw bytes that stay RELA, and how many lead as RELATIVE. */
  datatype Split = Split(packed: seq<Packed>, keep: seq<byte>, lead: nat)

  // ---- split_relocs --------------------------------------------------------------

  function ToPacked(phdrs: seq<Phdr>, e: Rela, rel: nat): Packed
    requires Packable(phdrs, e, rel)
  {
    Packed(e.rOff, e.addend, LoadRange(phdrs, e.rOff, WORD, 0).value.1)
  }

  function PackedOf(phdrs: seq<Phdr>, es: seq<Rela>, rel: nat): seq<Packed> {
    if es == [] then []
    else
      var k := |es| - 1;
      PackedOf(phdrs, es[..k], rel) + (if Packable(phdrs, es[k], rel) then [ToPacked(phdrs, es[k], rel)] else [])
  }

  predicate Relative(e: Rela, rel: nat) { e.info % 0x1_0000_0000 == rel }

  /** `n` is the length of the longest all-RELATIVE prefix of `es`. */
  predicate LeadOf(es: seq<Rela>, rel: nat, n: nat) {
    && n <= |es| && (forall i: nat :: i < n ==> Relative(es[i], rel))
    && (n < |es| ==> !Relative(es[n], rel))
  }

  lemma {:induction false} PackedFrom(phdrs: seq<Phdr>, es: seq<Rela>, rel: nat)
    ensures forall p :: p in PackedOf(phdrs, es, rel) <==>
      (exists e :: e in es && Packable(phdrs, e, rel) && p == ToPacked(phdrs, e, rel))
  {
    hide LoadRange;
    if es != [] {
      var k := |es| - 1;
      PackedFrom(phdrs, es[..k], rel);
      assert es == es[..k] + [es[k]];
    }
  }

  /** Every entry is either packed or kept. */
  lemma {:induction false} SplitCounts(phdrs: seq<Phdr>, es: seq<Rela>, rel: nat)
    ensures |PackedOf(phdrs, es, rel)| + |Kept(phdrs, es, rel)| == |es|
  {
    if es != [] { SplitCounts(phdrs, es[..|es| - 1], rel); }
  }

  lemma RelaSame(d1: seq<byte>, o1: nat, d2: seq<byte>, o2: nat)
    requires o1 + RELA_SIZE <= |d1| && o2 + RELA_SIZE <= |d2|
    requires d1[o1..o1 + RELA_SIZE] == d2[o2..o2 + RELA_SIZE]
    ensures RelaAt(d1, o1) == RelaAt(d2, o2)
  {
    var e1, e2 := d1[o1..o1 + RELA_SIZE], d2[o2..o2 + RELA_SIZE];
    assert d1[o1..o1 + 8] == e1[..8] && d2[o2..o2 + 8] == e2[..8];
    assert d1[o1 + 8..o1 + 16] == e1[8..16] && d2[o2 + 8..o2 + 16] == e2[8..16];
    assert d1[o1 + 16..o1 + 24] == e1[16..24] && d2[o2 + 16..o2 + 24] == e2[16..24];
  }

  /** Equal bytes hold equal entries. */
  lemma {:induction false} EntriesSame(d1: seq<byte>, o1: nat, d2: seq<byte>, o2: nat, n: nat)
    requires o1 + n * RELA_SIZE <= |d1| && o2 + n * RELA_SIZE <= |d2|
    requires d1[o1..o1 + n * RELA_SIZE] == d2[o2..o2 + n * RELA_SIZE]
    ensures Entries(d1, o1, n) == Entries(d2, o2, n)
    decreases n
  {
    hide RelaAt;
    if n > 0 {
      var m := (n - 1) * RELA_SIZE;
      assert d1[o1..o1 + m] == d1[o1..o1 + n * RELA_SIZE][..m];
      assert d2[o2..o2 + m] == d2[o2..o2 + n * RELA_SIZE][..m];
      EntriesSame(d1, o1, d2, o2, n - 1);
      assert d1[o1 + m..o1 + m + RELA_SIZE] == d1[o1..o1 + n * RELA_SIZE][m..];
      assert d2[o2 + m..o2 + m + RELA_SIZE] == d2[o2..o2 + n * RELA_SIZE][m..];
      RelaSame(d1, o1 + m, d2, o2 + m);
    }
  }

  lemma EntriesAppend(keep: seq<byte>, m: nat, d: seq<byte>, at: nat)
    requires |keep| == m * RELA_SIZE && at + RELA_SIZE <= |d|
    ensures Entries(keep + d[at..at + RELA_SIZE], 0, m + 1) == Entries(keep, 0, m) + [RelaAt(d, at)]
  {
    hide RelaAt;
    var raw := d[at..at + RELA_SIZE];
    var out := keep + raw;
    assert out[..m * RELA_SIZE] == keep == keep[..m * RELA_SIZE];
    EntriesSame(out, 0, keep, 0, m);
    assert out[m * RELA_SIZE..m * RELA_SIZE + RELA_SIZE] == raw;
    RelaSame(out, m * RELA_SIZE, d, at);
  }

  /** What `split_relocs` makes of the entries `es`. */
  predicate SplitOf(phdrs: seq<Phdr>, es: seq<Rela>, rel: nat, s: Split) {
    && s.packed == PackedOf(phdrs, es, rel)
    && |s.keep| == |Kept(phdrs, es, rel)| * RELA_SIZE
    && Entries(s.keep, 0, |Kept(phdrs, es, rel)|) == Kept(phdrs, es, rel)
    && LeadOf(Kept(phdrs, es, rel), rel, s.lead)
  }

  lemma SplitPacked(phdrs: seq<Phdr>, es: seq<Rela>, rel: nat, s: Split, e: Rela)
    requires SplitOf(phdrs, es, rel, s) && Packable(phdrs, e, rel)
    ensures SplitOf(phdrs, es + [e], rel, s.(packed := s.packed + [ToPacked(phdrs, e, rel)]))
  {
    hide LoadRange, Packable;
    assert (es + [e])[..|es|] == es;
  }

  lemma SplitKept(phdrs: seq<Phdr>, es: seq<Rela>, rel: nat, s: Split, d: seq<byte>, at: nat, leading: bool)
    requires SplitOf(phdrs, es, rel, s) && at + RELA_SIZE <= |d| && !Packable(phdrs, RelaAt(d, at), rel)
    requires if leading then s.lead == |Kept(phdrs, es, rel)| else s.lead < |Kept(phdrs, es, rel)|
    ensures
      var e := RelaAt(d, at);
      SplitOf(phdrs, es + [e], rel,
        Split(s.packed, s.keep + d[at..at + RELA_SIZE], s.lead + if leading && Relative(e, rel) then 1 else 0))
  {
    hide LoadRange, Packable, RelaAt, Relative;
    var e := RelaAt(d, at);
    assert (es + [e])[..|es|] == es;
    EntriesAppend(s.keep, |Kept(phdrs, es, rel)|, d, at);
    assert Kept(phdrs, es + [e], rel) == Kept(phdrs, es, rel) + [e];
  }

  /** Fails iff the table leaves the file or holds nothing RELR can encode. */
  method SplitRelocs(d: seq<byte>, phdrs: seq<Phdr>, t: Table, rel: nat) returns (r: Option<Split>)
    ensures r.Some? ==> t.off + t.size / RELA_SIZE * RELA_SIZE <= |d|
    ensures t.off + t.size / RELA_SIZE * RELA_SIZE <= |d| ==>
      (r.Some? <==> PackedOf(phdrs, Entries(d, t.off, t.size / RELA_SIZE), rel) != [])
    ensures r.Some? ==> SplitOf(phdrs, Entries(d, t.off, t.size / RELA_SIZE), rel, r.value)
  {
    hide LoadRange, RelaAt, Relative, Packable;
    var n := t.size / RELA_SIZE;
    var s := Split([], [], 0);
    var leading := true;
    var i := 0;
    while i < n
      invariant i <= n
      invariant i > 0 ==> t.off + i * RELA_SIZE <= |d|
      invariant i > 0 ==> SplitOf(phdrs, Entries(d, t.off, i), rel, s)
      invariant i == 0 ==> s == Split([], [], 0)
      invariant if leading then s.lead * RELA_SIZE == |s.keep| else s.lead * RELA_SIZE < |s.keep|
    {
      var at := t.off + i * RELA_SIZE;
      if at + RELA_SIZE > |d| {
        return None;
      }
      ghost var es := Entries(d, t.off, i);
      assert SplitOf(phdrs, es, rel, s);
      var e := RelaAt(d, at);
      assert Entries(d, t.off, i + 1) == es + [e];
      if Packable(phdrs, e, rel) {
        SplitPacked(phdrs, es, rel, s, e);
        s := s.(packed := s.packed + [ToPacked(phdrs, e, rel)]);
      } else {
        SplitKept(phdrs, es, rel, s, d, at, leading);
        leading := leading && Relative(e, rel);
        s := Split(s.packed, s.keep + d[at..at + RELA_SIZE], s.lead + if leading then 1 else 0);
      }
      i := i + 1;
    }
    if s.packed == [] {
      return None;
    }
    r := Some(s);
  }

  // ---- sorted_offsets ------------------------------------------------------------

  predicate SortedByAddr(ps: seq<Packed>) {
    forall i: nat, j: nat :: i < j < |ps| ==> ps[i].addr <= ps[j].addr
  }

  predicate StrictByAddr(ps: seq<Packed>) {
    forall i: nat, j: nat :: i < j < |ps| ==> ps[i].addr < ps[j].addr
  }

  function Insert(p: Packed, ps: seq<Packed>): (r: seq<Packed>)
    ensures |r| == |ps| + 1 && forall q :: q in r <==> q == p || q in ps
  {
    if ps == [] || ps[|ps| - 1].addr <= p.addr then ps + [p]
    else
      var k := |ps| - 1;
      assert ps == ps[..k] + [ps[k]];
      Insert(p, ps[..k]) + [ps[k]]
  }

  lemma {:induction false} InsertSorted(p: Packed, ps: seq<Packed>)
    requires SortedByAddr(ps)
    ensures SortedByAddr(Insert(p, ps))
  {
    if ps != [] && ps[|ps| - 1].addr > p.addr {
      var k := |ps| - 1;
      InsertSorted(p, ps[..k]);
      var r := Insert(p, ps[..k]);
      forall i: nat | i < |r|
        ensures r[i].addr <= ps[k].addr
      {
        assert r[i] in r;
      }
    }
  }

  /** A stable sort by address. */
  function SortByAddr(ps: seq<Packed>): (r: seq<Packed>)
    ensures SortedByAddr(r) && |r| == |ps| && forall q :: q in r <==> q in ps
  {
    if ps == [] then []
    else
      var k := |ps| - 1;
      assert ps == ps[..k] + [ps[k]];
      InsertSorted(ps[k], SortByAddr(ps[..k]));
      Insert(ps[k], SortByAddr(ps[..k]))
  }

  predicate Clash(p: Packed, q: Packed) { p.addr == q.addr && p.addend != q.addend }

  /** In sorted order, any clash shows up between neighbours. */
  lemma {:induction false} NeighboursAgree(ps: seq<Packed>, i: nat, j: nat)
    requires SortedByAddr(ps) && i <= j < |ps|
    requires forall k: nat {:trigger ps[k]} :: 0 < k < |ps| ==> !Clash(ps[k - 1], ps[k])
    ensures !Clash(ps[i], ps[j])
    decreases j - i
  {
    if i < j {
      NeighboursAgree(ps, i, j - 1);
      assert ps[i].addr <= ps[j - 1].addr <= ps[j].addr;
      assert !Clash(ps[j - 1], ps[j]);
    }
  }

  /** `ps` holds each word of `packed` once, in address order. */
  ghost predicate Uniques(packed: seq<Packed>, ps: seq<Packed>) {
    && StrictByAddr(ps) && |ps| <= |packed|
    && (forall p :: p in ps ==> p in packed)
    && (forall p :: p in packed ==> exists q :: q in ps && q.addr == p.addr && q.addend == p.addend)
  }

  /** `dedup_by_key`: drop each entry whose address repeats the one before. */
  method Dedup(ps: seq<Packed>) returns (out: seq<Packed>)
    requires SortedByAddr(ps)
    ensures StrictByAddr(out) && |out| <= |ps| && forall p :: p in out ==> p in ps
    ensures forall k: nat :: k < |ps| ==> AddrIn(out, ps[k].addr)
  {
    out := [];
    for i := 0 to |ps|
      invariant |out| <= i && StrictByAddr(out)
      invariant i == 0 ==> out == []
      invariant i > 0 ==> out != [] && out[|out| - 1].addr == ps[i - 1].addr
      invariant forall p :: p in out ==> p in ps
      invariant forall k: nat :: k < i ==> AddrIn(out, ps[k].addr)
    {
      ghost var was := out;
      if i == 0 || out[|out| - 1].addr != ps[i].addr {
        out := out + [ps[i]];
      }
      assert out[|out| - 1].addr == ps[i].addr;
      forall k: nat | k < i
        ensures AddrIn(out, ps[k].addr)
      {
        AddrStays(was, out, ps[k].addr);
      }
    }
  }

  predicate AddrIn(ps: seq<Packed>, a: nat) { exists j: nat :: j < |ps| && ps[j].addr == a }

  lemma AddrStays(was: seq<Packed>, ps: seq<Packed>, a: nat)
    requires AddrIn(was, a) && was <= ps
    ensures AddrIn(ps, a)
  {
    var j: nat :| j < |was| && was[j].addr == a;
    assert ps[j].addr == a;
  }

  /** Refused iff two entries of one word disagree. */
  method SortedOffsets(packed: seq<Packed>) returns (r: Option<seq<Packed>>)
    ensures r.None? <==> exists p, q :: p in packed && q in packed && Clash(p, q)
    ensures r.Some? ==> Uniques(packed, r.value)
  {
    hide Clash, SortedByAddr, StrictByAddr, AddrIn;
    var ps := SortByAddr(packed);
    var i := 1;
    while i < |ps|
      invariant 1 <= i && (i <= |ps| || |ps| == 0)
      invariant forall k: nat {:trigger ps[k]} :: 0 < k < i && k < |ps| ==> !Clash(ps[k - 1], ps[k])
    {
      if Clash(ps[i - 1], ps[i]) {
        assert ps[i - 1] in packed && ps[i] in packed;
        return None;
      }
      i := i + 1;
    }
    NoClash(packed, ps);
    var out := Dedup(ps);
    AllFound(packed, ps, out);
    r := Some(out);
  }

  lemma AllFound(packed: seq<Packed>, ps: seq<Packed>, out: seq<Packed>)
    requires forall p :: p in packed ==> p in ps
    requires forall p :: p in out ==> p in packed
    requires forall p, q :: p in packed && q in packed ==> !Clash(p, q)
    requires forall k: nat :: k < |ps| ==> AddrIn(out, ps[k].addr)
    ensures forall p :: p in packed ==> exists q :: q in out && q.addr == p.addr && q.addend == p.addend
  {
    forall p | p in packed
      ensures exists q :: q in out && q.addr == p.addr && q.addend == p.addend
    {
      var a: nat :| a < |ps| && ps[a] == p;
      assert AddrIn(out, ps[a].addr);
      var j: nat :| j < |out| && out[j].addr == p.addr;
      assert out[j] in out && out[j] in packed;
      assert !Clash(p, out[j]);
    }
  }

  lemma NoClash(packed: seq<Packed>, ps: seq<Packed>)
    requires SortedByAddr(ps) && forall p :: p in packed ==> p in ps
    requires forall k: nat {:trigger ps[k]} :: 0 < k < |ps| ==> !Clash(ps[k - 1], ps[k])
    ensures forall p, q :: p in packed && q in packed ==> !Clash(p, q)
  {
    forall p, q | p in packed && q in packed
      ensures !Clash(p, q)
    {
      var a: nat :| a < |ps| && ps[a] == p;
      var b: nat :| b < |ps| && ps[b] == q;
      NeighboursAgree(ps, if a <= b then a else b, if a <= b then b else a);
    }
  }

  /** The addresses of the packed words. */
  function Addrs(ps: seq<Packed>): (r: seq<nat>)
    ensures |r| == |ps| && forall i: nat :: i < |ps| ==> r[i] == ps[i].addr
  {
    seq(|ps|, i requires 0 <= i < |ps| => ps[i].addr)
  }

  // ---- check_targets -------------------------------------------------------------

  function SatAdd(a: nat, b: nat): nat { if a + b < M then a + b else M - 1 }

  /** `partition_point` for words ending at or below `lo`. */
  function PartitionPoint(xs: seq<nat>, lo: nat, i: nat): (r: nat)
    requires i <= |xs|
    ensures i <= r <= |xs| && (r < |xs| ==> SatAdd(xs[r], WORD) > lo)
    ensures forall k: nat :: i <= k < r ==> SatAdd(xs[k], WORD) <= lo
    decreases |xs| - i
  {
    if i < |xs| && SatAdd(xs[i], WORD) <= lo then PartitionPoint(xs, lo, i + 1) else i
  }

  function Overlaps(xs: seq<nat>, lo: nat, len: nat): bool {
    var i := PartitionPoint(xs, lo, 0);
    i < |xs| && xs[i] < SatAdd(lo, len)
  }

  predicate Meets(a: nat, lo: nat, len: nat) { a < lo + len && lo < a + WORD }

  predicate Increasing(xs: seq<nat>) { forall i: nat, j: nat :: i < j < |xs| ==> xs[i] < xs[j] }

  /** One probe finds whether any word meets `[lo, lo + len)`. */
  lemma OverlapsExact(xs: seq<nat>, lo: nat, len: nat)
    requires Increasing(xs) && forall i: nat :: i < |xs| ==> xs[i] + WORD < M
    ensures Overlaps(xs, lo, len) <==> exists a :: a in xs && Meets(a, lo, len)
  {
    var p := PartitionPoint(xs, lo, 0);
    if Overlaps(xs, lo, len) {
      assert xs[p] in xs && Meets(xs[p], lo, len);
    }
    forall a | a in xs && Meets(a, lo, len)
      ensures Overlaps(xs, lo, len)
    {
      var k: nat :| k < |xs| && xs[k] == a;
      assert p <= k;
    }
  }

  /** The words of `xs` stay clear of the other patched words and of both tables. */
  ghost predicate TargetsClear(xs: seq<nat>, others: seq<nat>, t: Table, dynAddr: nat, dynSize: nat) {
    && (forall a, r :: a in xs && r in others ==> !Meets(a, r, WORD))
    && (forall a :: a in xs ==> !Meets(a, t.addr, t.size) && !Meets(a, dynAddr, dynSize))
  }

  /** `check_targets` accepts exactly the words clear of everything rewritten elsewhere. */
  method CheckTargets(xs: seq<nat>, others: seq<nat>, t: Table, dynAddr: nat, dynSize: nat) returns (ok: bool)
    requires Increasing(xs) && forall i: nat :: i < |xs| ==> xs[i] + WORD < M
    ensures ok <==> TargetsClear(xs, others, t, dynAddr, dynSize)
  {
    var i := 0;
    while i < |others|
      invariant i <= |others|
      invariant forall a, k: nat :: a in xs && k < i ==> !Meets(a, others[k], WORD)
    {
      OverlapsExact(xs, others[i], WORD);
      if Overlaps(xs, others[i], WORD) {
        return false;
      }
      i := i + 1;
    }
    OverlapsExact(xs, t.addr, t.size);
    OverlapsExact(xs, dynAddr, dynSize);
    ok := !Overlaps(xs, t.addr, t.size) && !Overlaps(xs, dynAddr, dynSize);
  }
}
