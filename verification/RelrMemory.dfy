/**
 What relocating does to loaded memory.

 Memory is a function from addresses to bytes.  A RELA entry stores: a RELATIVE
 one the load base plus its addend, any other one up to eight bytes that depend
 on the entry and the base alone.  A RELR address adds the load base to the word
 already in place.
 */
module RelrMemory {
  import opened Wrappers
  import opened Bytes
  import opened ElfModel

  type Mem = nat -> byte

  /** What a relocation that is not RELATIVE stores, given the load base. */
  type Resolver = f: (Rela, nat) -> seq<byte> | forall e, b :: |f(e, b)| <= 8
    witness (e: Rela, b: nat) => []

  datatype Op =
    | Store(addr: nat, bytes: seq<byte>)
    | AddBase(addr: nat)

  predicate Covers(op: Op, v: nat) {
    match op
    case Store(a, bs) => a <= v < a + |bs|
    case AddBase(a) => a <= v < a + 8
  }

  predicate Untouched(ops: seq<Op>, v: nat) {
    forall i: nat :: i < |ops| ==> !Covers(ops[i], v)
  }

  /** The byte at `v` after the operations, in order. */
  function After(ops: seq<Op>, mem: Mem, base: nat, v: nat): byte
    decreases |ops|, 0
  {
    if ops == [] then mem(v)
    else
      var k := |ops| - 1;
      if !Covers(ops[k], v) then After(ops[..k], mem, base, v)
      else
        match ops[k]
        case Store(a, bs) => bs[v - a]
        case AddBase(a) => Rebased(MemWord(u requires a <= u < a + 8 => After(ops[..k], mem, base, u), a), base)[v - a]
  }

  /** The eight bytes at `a`. */
  function MemWord(mem: nat --> byte, a: nat): (r: seq<byte>)
    requires forall u: nat :: a <= u < a + 8 ==> mem.requires(u)
    ensures |r| == 8 && forall i: nat :: i < 8 ==> r[i] == mem(a + i)
  {
    [mem(a), mem(a + 1), mem(a + 2), mem(a + 3), mem(a + 4), mem(a + 5), mem(a + 6), mem(a + 7)]
  }

  /** A stored word with the load base added. */
  function Rebased(w: seq<byte>, base: nat): (r: seq<byte>)
    ensures |r| == 8
  {
    LeBytes((LeValue(w) + base) % M, 8)
  }

  /** Running `a` then `b` is running `b` over what `a` left. */
  lemma {:induction false} Compose(a: seq<Op>, b: seq<Op>, mem: Mem, base: nat, v: nat)
    ensures After(a + b, mem, base, v) == After(b, (u: nat) => After(a, mem, base, u), base, v)
    decreases |b|
  {
    if b == [] {
      assert a + b == a;
    } else {
      var k := |b| - 1;
      assert (a + b)[..|a + b| - 1] == a + b[..k];
      forall u: nat
        ensures After(a + b[..k], mem, base, u) == After(b[..k], (u: nat) => After(a, mem, base, u), base, u)
      {
        Compose(a, b[..k], mem, base, u);
      }
      if Covers(b[k], v) && b[k].AddBase? {
        var x := b[k].addr;
        var m1 := u requires x <= u < x + 8 => After((a + b)[..|a + b| - 1], mem, base, u);
        var m2 := u requires x <= u < x + 8 => After(b[..k], (u: nat) => After(a, mem, base, u), base, u);
        assert MemWord(m1, x) == MemWord(m2, x);
      }
    }
  }

  lemma {:induction false} NotCovered(ops: seq<Op>, mem: Mem, base: nat, v: nat)
    requires Untouched(ops, v)
    ensures After(ops, mem, base, v) == mem(v)
    decreases |ops|
  {
    if ops != [] { NotCovered(ops[..|ops| - 1], mem, base, v); }
  }

  /** Every operation covering `v` stores `x` there. */
  predicate AllStore(ops: seq<Op>, v: nat, x: byte) {
    forall i: nat :: i < |ops| && Covers(ops[i], v) ==> ops[i].Store? && ops[i].bytes[v - ops[i].addr] == x
  }

  lemma {:induction false} StoresAgree(ops: seq<Op>, mem: Mem, base: nat, v: nat, x: byte)
    requires AllStore(ops, v, x) && !Untouched(ops, v)
    ensures After(ops, mem, base, v) == x
    decreases |ops|
  {
    var k := |ops| - 1;
    if !Covers(ops[k], v) { StoresAgree(ops[..k], mem, base, v, x); }
  }

  // ---- RELA tables ---------------------------------------------------------------

  /** `packable`, as a test: RELATIVE, no symbol, word-aligned, file-backed. */
  predicate Packable(phdrs: seq<Phdr>, e: Rela, rel: nat) {
    && e.info % 0x1_0000_0000 == rel && e.info / 0x1_0000_0000 == 0 && e.rOff % WORD == 0
    && LoadRange(phdrs, e.rOff, WORD, 0).Some?
  }

  /** An entry is packable exactly when it is RELATIVE without a symbol, on a word at a
      multiple of eight that some PT_LOAD takes from the file. */
  lemma PackableExact(phdrs: seq<Phdr>, e: Rela, rel: nat)
    requires rel < 0x1_0000_0000
    ensures Packable(phdrs, e, rel) <==>
      && e.info == rel && e.rOff % 8 == 0 && e.rOff + 8 < 0x1_0000_0000_0000_0000
      && exists j: nat :: j < |phdrs| && phdrs[j].load && phdrs[j].vaddr <= e.rOff && e.rOff + 8 <= phdrs[j].vaddr + phdrs[j].filesz
  {
    hide LoadRange;
    LoadRangeFinds(phdrs, e.rOff, 8, 0);
  }

  /** The operation of a RELA entry: `rel` is the machine's RELATIVE type. */
  function RelaOp(e: Rela, rel: nat, base: nat, other: Resolver): (r: Op)
    ensures r.Store?
  {
    if e.info % 0x1_0000_0000 == rel then Store(e.rOff, LeBytes((e.addend + base) % M, 8))
    else Store(e.rOff, other(e, base))
  }

  function RelaOps(es: seq<Rela>, rel: nat, base: nat, other: Resolver): (r: seq<Op>)
    ensures |r| == |es| && forall i: nat :: i < |es| ==> r[i] == RelaOp(es[i], rel, base, other)
  {
    seq(|es|, i requires 0 <= i < |es| => RelaOp(es[i], rel, base, other))
  }

  /** The entries that stay RELA, in order. */
  function Kept(phdrs: seq<Phdr>, es: seq<Rela>, rel: nat): seq<Rela> {
    if es == [] then []
    else
      var k := |es| - 1;
      Kept(phdrs, es[..k], rel) + (if Packable(phdrs, es[k], rel) then [] else [es[k]])
  }

  lemma {:induction false} KeptFrom(phdrs: seq<Phdr>, es: seq<Rela>, rel: nat)
    ensures forall e :: e in Kept(phdrs, es, rel) <==> e in es && !Packable(phdrs, e, rel)
  {
    if es != [] {
      KeptFrom(phdrs, es[..|es| - 1], rel);
      assert es == es[..|es| - 1] + [es[|es| - 1]];
    }
  }

  // ---- RELR ----------------------------------------------------------------------

  function RelrOps(xs: seq<nat>): (r: seq<Op>)
    ensures |r| == |xs| && forall i: nat :: i < |xs| ==> r[i] == AddBase(xs[i])
  {
    seq(|xs|, i requires 0 <= i < |xs| => AddBase(xs[i]))
  }

  function WordOf(v: nat): (r: nat)
    ensures r <= v < r + 8 && r % 8 == 0
  {
    v - v % 8
  }

  lemma AlignedCover(a: nat, v: nat)
    requires a % 8 == 0 && a <= v < a + 8
    ensures a == WordOf(v)
  {
  }

  predicate Aligned(xs: seq<nat>) { forall i: nat :: i < |xs| ==> xs[i] % 8 == 0 }

  predicate Distinct(xs: seq<nat>) { forall i: nat, j: nat :: i < j < |xs| ==> xs[i] != xs[j] }

  lemma AfterBase(ops: seq<Op>, a: nat, mem: Mem, base: nat, v: nat)
    ensures After(ops + [AddBase(a)], mem, base, v)
      == if a <= v < a + 8 then Rebased(MemWord((u: nat) => After(ops, mem, base, u), a), base)[v - a]
         else After(ops, mem, base, v)
  {
    assert (ops + [AddBase(a)])[..|ops|] == ops;
    assert MemWord(u requires a <= u < a + 8 => After((ops + [AddBase(a)])[..|ops|], mem, base, u), a)
      == MemWord((u: nat) => After(ops, mem, base, u), a);
  }

  /** Distinct aligned words are each rebased exactly once. */
  lemma {:induction false} RebasedOnce(xs: seq<nat>, mem: Mem, base: nat, v: nat)
    requires Aligned(xs) && Distinct(xs)
    ensures After(RelrOps(xs), mem, base, v)
      == if WordOf(v) in xs then Rebased(MemWord(mem, WordOf(v)), base)[v - WordOf(v)] else mem(v)
    decreases |xs|
  {
    hide After, Rebased;
    if xs == [] {
      NotCovered([], mem, base, v);
      return;
    }
    var k := |xs| - 1;
    var init, a := xs[..k], xs[k];
    assert xs == init + [a] && a !in init;
    assert RelrOps(xs) == RelrOps(init) + [AddBase(a)];
    AfterBase(RelrOps(init), a, mem, base, v);
    RebasedOnce(init, mem, base, v);
    if a <= v < a + 8 {
      AlignedCover(a, v);
      forall u: nat | a <= u < a + 8
        ensures After(RelrOps(init), mem, base, u) == mem(u)
      {
        AlignedCover(a, u);
        RebasedOnce(init, mem, base, u);
      }
      assert MemWord((u: nat) => After(RelrOps(init), mem, base, u), a) == MemWord(mem, a);
    }
  }

  // ---- The law of packing --------------------------------------------------------

  predicate Clear(a: nat, r: nat) { a + 8 <= r || r + 8 <= a }

  /** `xs` are the packable words of `es`, apart from everything kept. */
  ghost predicate Packs(phdrs: seq<Phdr>, es: seq<Rela>, rel: nat, xs: seq<nat>) {
    && Aligned(xs) && Distinct(xs)
    && (forall e :: e in es && Packable(phdrs, e, rel) ==> e.rOff in xs)
    && (forall a :: a in xs ==> exists e :: e in es && Packable(phdrs, e, rel) && e.rOff == a)
    && (forall e, a :: e in es && !Packable(phdrs, e, rel) && a in xs ==> Clear(a, e.rOff))
  }

  /** `new` holds each packed addend in place and is `old` at `v` otherwise. */
  ghost predicate InPlace(phdrs: seq<Phdr>, es: seq<Rela>, rel: nat, mem: Mem) {
    forall e :: e in es && Packable(phdrs, e, rel) ==> e.addend < M && LeValue(MemWord(mem, e.rOff)) == e.addend
  }

  lemma AfterStore(ops: seq<Op>, op: Op, mem: Mem, base: nat, v: nat)
    requires op.Store?
    ensures After(ops + [op], mem, base, v)
      == if Covers(op, v) then op.bytes[v - op.addr] else After(ops, mem, base, v)
  {
    assert (ops + [op])[..|ops|] == ops;
  }

  lemma RelaOpsSnoc(es: seq<Rela>, e: Rela, rel: nat, base: nat, other: Resolver)
    ensures RelaOps(es + [e], rel, base, other) == RelaOps(es, rel, base, other) + [RelaOp(e, rel, base, other)]
  {
  }

  lemma {:induction false} PackedDropped(phdrs: seq<Phdr>, es: seq<Rela>, rel: nat, base: nat, other: Resolver, mem: Mem, v: nat)
    requires forall e :: e in es && Packable(phdrs, e, rel) ==> e.rOff != WordOf(v)
    ensures After(RelaOps(es, rel, base, other), mem, base, v)
      == After(RelaOps(Kept(phdrs, es, rel), rel, base, other), mem, base, v)
    decreases |es|
  {
    hide LoadRange, LeBytes, AllStore, Untouched, RelaOps, After;
    if es != [] {
      var k := |es| - 1;
      var init, e := es[..k], es[k];
      assert es == init + [e];
      PackedDropped(phdrs, init, rel, base, other, mem, v);
      var op := RelaOp(e, rel, base, other);
      RelaOpsSnoc(init, e, rel, base, other);
      AfterStore(RelaOps(init, rel, base, other), op, mem, base, v);
      if Packable(phdrs, e, rel) {
        if Covers(op, v) {
          AlignedCover(e.rOff, v);
        }
        assert Kept(phdrs, es, rel) == Kept(phdrs, init, rel);
      } else {
        var kept := Kept(phdrs, init, rel);
        RelaOpsSnoc(kept, e, rel, base, other);
        AfterStore(RelaOps(kept, rel, base, other), op, mem, base, v);
        assert Kept(phdrs, es, rel) == kept + [e];
      }
    }
  }

  lemma PackableOp(phdrs: seq<Phdr>, e: Rela, rel: nat, base: nat, other: Resolver, mem: Mem)
    requires Packable(phdrs, e, rel) && LeValue(MemWord(mem, e.rOff)) == e.addend
    ensures RelaOp(e, rel, base, other) == Store(e.rOff, Rebased(MemWord(mem, e.rOff), base)) && e.rOff % 8 == 0
  {
  }

  lemma KeptOp(e: Rela, rel: nat, base: nat, other: Resolver, v: nat)
    ensures Covers(RelaOp(e, rel, base, other), v) ==> !Clear(WordOf(v), e.rOff)
  {
  }

  /** A packed word before packing: the base plus its addend. */
  lemma PackedByte(phdrs: seq<Phdr>, es: seq<Rela>, rel: nat, xs: seq<nat>, base: nat, other: Resolver,
                   mem0: Mem, mem1: Mem, v: nat)
    requires Packs(phdrs, es, rel, xs) && InPlace(phdrs, es, rel, mem1) && WordOf(v) in xs
    ensures After(RelaOps(es, rel, base, other), mem0, base, v)
      == Rebased(MemWord(mem1, WordOf(v)), base)[v - WordOf(v)]
  {
    hide LoadRange, LeBytes, LeValue, After, MemWord, RelaOp, Packable;
    var a := WordOf(v);
    var ops := RelaOps(es, rel, base, other);
    var x := Rebased(MemWord(mem1, a), base)[v - a];
    var e :| e in es && Packable(phdrs, e, rel) && e.rOff == a;
    var j :| 0 <= j < |es| && es[j] == e;
    PackableOp(phdrs, e, rel, base, other, mem1);
    assert Covers(ops[j], v);
    forall i: nat | i < |ops| && Covers(ops[i], v)
      ensures ops[i].bytes[v - ops[i].addr] == x
    {
      assert es[i] in es;
      if Packable(phdrs, es[i], rel) {
        PackableOp(phdrs, es[i], rel, base, other, mem1);
        AlignedCover(es[i].rOff, v);
      } else {
        KeptOp(es[i], rel, base, other, v);
      }
    }
    StoresAgree(ops, mem0, base, v, x);
  }

  /** No kept entry stores into a packed word. */
  lemma KeptClear(phdrs: seq<Phdr>, es: seq<Rela>, rel: nat, xs: seq<nat>, base: nat, other: Resolver, u: nat)
    requires Packs(phdrs, es, rel, xs) && WordOf(u) in xs
    ensures Untouched(RelaOps(Kept(phdrs, es, rel), rel, base, other), u)
  {
    var kept := Kept(phdrs, es, rel);
    KeptFrom(phdrs, es, rel);
    var ops := RelaOps(kept, rel, base, other);
    forall i: nat | i < |ops|
      ensures !Covers(ops[i], u)
    {
      assert kept[i] in kept;
      assert Clear(WordOf(u), kept[i].rOff);
    }
  }

  /** Stores at `v` see only the starting byte at `v`. */
  lemma {:induction false} SameStart(ops: seq<Op>, mem0: Mem, mem1: Mem, base: nat, v: nat)
    requires mem0(v) == mem1(v) && forall i: nat :: i < |ops| ==> ops[i].Store?
    ensures After(ops, mem0, base, v) == After(ops, mem1, base, v)
    decreases |ops|
  {
    if ops != [] { SameStart(ops[..|ops| - 1], mem0, mem1, base, v); }
  }
  /** In-place addends are not disturbed by the kept entries. */
  lemma KeptFirst(phdrs: seq<Phdr>, es: seq<Rela>, rel: nat, xs: seq<nat>, base: nat, other: Resolver, mem: Mem, v: nat)
    requires Packs(phdrs, es, rel, xs) && WordOf(v) in xs
    ensures
      var kept := RelaOps(Kept(phdrs, es, rel), rel, base, other);
      MemWord((u: nat) => After(kept, mem, base, u), WordOf(v)) == MemWord(mem, WordOf(v))
  {
    hide Packs, After, Kept, RelaOps;
    var kept := RelaOps(Kept(phdrs, es, rel), rel, base, other);
    forall u: nat | WordOf(v) <= u < WordOf(v) + 8
      ensures After(kept, mem, base, u) == mem(u)
    {
      AlignedCover(WordOf(v), u);
      KeptClear(phdrs, es, rel, xs, base, other, u);
      NotCovered(kept, mem, base, u);
    }
  }

  /**
   Replacing the packable entries by RELR over in-place addends leaves the same
   byte at `v` when the kept entries come first.
   */
  lemma SameMemory(phdrs: seq<Phdr>, es: seq<Rela>, rel: nat, xs: seq<nat>, base: nat, other: Resolver,
                   mem0: Mem, mem1: Mem, v: nat)
    requires Packs(phdrs, es, rel, xs) && InPlace(phdrs, es, rel, mem1)
    requires WordOf(v) !in xs ==> mem1(v) == mem0(v)
    ensures After(RelaOps(es, rel, base, other), mem0, base, v)
      == After(RelaOps(Kept(phdrs, es, rel), rel, base, other) + RelrOps(xs), mem1, base, v)
  {
    hide InPlace, Kept, After, Rebased, MemWord, RelaOp, RelaOps, Untouched, Packable, Clear;
    var kept := RelaOps(Kept(phdrs, es, rel), rel, base, other);
    var afterKept: Mem := (u: nat) => After(kept, mem1, base, u);
    Compose(kept, RelrOps(xs), mem1, base, v);
    RebasedOnce(xs, afterKept, base, v);
    if WordOf(v) in xs {
      PackedByte(phdrs, es, rel, xs, base, other, mem0, mem1, v);
      KeptFirst(phdrs, es, rel, xs, base, other, mem1, v);
    } else {
      PackedDropped(phdrs, es, rel, base, other, mem0, v);
      OnlyStores(Kept(phdrs, es, rel), rel, base, other);
      SameStart(kept, mem0, mem1, base, v);
    }
  }

  lemma OnlyStores(es: seq<Rela>, rel: nat, base: nat, other: Resolver)
    ensures forall i: nat :: i < |es| ==> RelaOps(es, rel, base, other)[i].Store?
  {
  }

  /** The same when the RELR words come first. */
  lemma SameMemoryRelrFirst(phdrs: seq<Phdr>, es: seq<Rela>, rel: nat, xs: seq<nat>, base: nat, other: Resolver,
                            mem0: Mem, mem1: Mem, v: nat)
    requires Packs(phdrs, es, rel, xs) && InPlace(phdrs, es, rel, mem1)
    requires WordOf(v) !in xs ==> mem1(v) == mem0(v)
    ensures After(RelaOps(es, rel, base, other), mem0, base, v)
      == After(RelrOps(xs) + RelaOps(Kept(phdrs, es, rel), rel, base, other), mem1, base, v)
  {
    hide InPlace, Kept, After, Rebased, MemWord, RelaOp, RelaOps, Untouched, Packable, Clear;
    var kept := RelaOps(Kept(phdrs, es, rel), rel, base, other);
    var afterRelr: Mem := (u: nat) => After(RelrOps(xs), mem1, base, u);
    Compose(RelrOps(xs), kept, mem1, base, v);
    RebasedOnce(xs, mem1, base, v);
    if WordOf(v) in xs {
      PackedByte(phdrs, es, rel, xs, base, other, mem0, mem1, v);
      KeptClear(phdrs, es, rel, xs, base, other, v);
      NotCovered(kept, afterRelr, base, v);
    } else {
      PackedDropped(phdrs, es, rel, base, other, mem0, v);
      OnlyStores(Kept(phdrs, es, rel), rel, base, other);
      SameStart(kept, mem0, afterRelr, base, v);
    }
  }
}
