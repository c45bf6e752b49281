/**
 RELA to RELR packing as a whole (src/format/elf/relr.rs:215-305): the rewritten
 file, loaded at any base and relocated in either table order, gives the memory
 the original gives, outside the relocation table, `.dynamic` and headers.
 */
module RelrImage {
  import opened Wrappers
  import opened Bytes
  import opened ElfModel
  import opened RelrMemory
  import opened RelrSplit
  import opened RelrTables
  import RelrCodec

  // ---- Loading -------------------------------------------------------------------

  /** The byte a loader puts at `v`: the file's, or zero beyond file contents. */
  function LoadedByte(phdrs: seq<Phdr>, d: seq<byte>, v: nat): byte {
    match LoadRange(phdrs, v, 1, 0)
    case Some(at) => if at.1 < |d| then d[at.1] else 0
    case None => 0
  }

  function Loaded(phdrs: seq<Phdr>, d: seq<byte>): Mem { (v: nat) => LoadedByte(phdrs, d, v) }

  lemma {:induction false} LoadRangeFinds(phdrs: seq<Phdr>, i: nat, v: nat, from: nat)
    requires from <= i < |phdrs| && Holds(phdrs[i], v, 1) && v + 1 < M
    ensures LoadRange(phdrs, v, 1, from).Some?
    decreases |phdrs| - from
  {
    if !Holds(phdrs[from], v, 1) { LoadRangeFinds(phdrs, i, v, from + 1); }
  }

  /** A file byte backing some address of a range backs that address only. */
  lemma BackedOnce(phdrs: seq<Phdr>, n: nat, i: nat, off: nat, addr: nat, len: nat, j: nat, o: nat, v: nat)
    requires Apart(phdrs, n) && InSegment(phdrs, i, off, addr, len) && InSegment(phdrs, j, o, v, 1)
    requires off <= o < off + len
    ensures v == addr + (o - off)
  {
    var w := addr + (o - off);
    if v != w { OffsetsDiffer(phdrs, n, i, w, j, v); }
  }

  /** The bytes of a mapped range are loaded from its file range. */
  lemma LoadedRange(phdrs: seq<Phdr>, d: seq<byte>, i: nat, off: nat, addr: nat, len: nat, v: nat)
    requires Apart(phdrs, |d|) && InSegment(phdrs, i, off, addr, len) && addr <= v < addr + len && addr + len < M
    ensures off + (v - addr) < |d| && LoadedByte(phdrs, d, v) == d[off + (v - addr)]
  {
    hide LoadRange;
    LoadRangeFinds(phdrs, i, v, 0);
    assert InFile(phdrs[i], |d|);
    var at := LoadRange(phdrs, v, 1, 0).value;
    OneSegment(phdrs, |d|, i, at.0, v);
  }

  // ---- What the rewritten file looks like ------------------------------------------

  predicate TableByte(t: Table, k: nat) { t.off <= k < t.off + t.size }

  predicate DynByte(dy: Dynamic, k: nat) { dy.off <= k < dy.off + dy.slots * DYN_SIZE }

  /**
   `fin` holds every packed addend in place and is `d` outside the packed words,
   the relocation table, `.dynamic` and the header bytes `hdr`.
   */
  ghost predicate Rewritten(d: seq<byte>, fin: seq<byte>, ps: seq<Packed>, t: Table, dy: Dynamic, hdr: set<nat>) {
    && |fin| == |d| && WordsIn(ps, |d|)
    && (forall i: nat :: i < |ps| ==> Word(fin, ps[i].fileOff) == ps[i].addend)
    && (forall k: nat :: k < |d| && !InWord(ps, k) && !TableByte(t, k) && !DynByte(dy, k) && k !in hdr ==> fin[k] == d[k])
  }

  /** The headers place the table and `.dynamic`, which do not meet, where they are loaded. */
  ghost predicate Mapped(phdrs: seq<Phdr>, n: nat, t: Table, dy: Dynamic) {
    && Apart(phdrs, n)
    && InSegment(phdrs, t.seg, t.off, t.addr, t.size)
    && (t.addr + t.size <= dy.addr || dy.addr + dy.slots * DYN_SIZE <= t.addr)
    && (exists i: nat :: InSegment(phdrs, i, dy.off, dy.addr, dy.slots * DYN_SIZE))
  }

  /** `v` is outside the table, `.dynamic` and the headers. */
  ghost predicate Plain(phdrs: seq<Phdr>, t: Table, dy: Dynamic, hdr: set<nat>, v: nat) {
    && !(t.addr <= v < t.addr + t.size) && !(dy.addr <= v < dy.addr + dy.slots * DYN_SIZE)
    && (LoadRange(phdrs, v, 1, 0).Some? ==> LoadRange(phdrs, v, 1, 0).value.1 !in hdr)
  }

  predicate ClearOfKept(phdrs: seq<Phdr>, es: seq<Rela>, rel: nat, xs: seq<nat>) {
    forall a, e :: a in xs && e in Kept(phdrs, es, rel) ==> !Meets(a, e.rOff, WORD)
  }

  /** `ps` are the packable entries of `es`, once each, clear of the kept ones. */
  ghost predicate Chosen(phdrs: seq<Phdr>, es: seq<Rela>, rel: nat, ps: seq<Packed>) {
    Uniques(PackedOf(phdrs, es, rel), ps) && ClearOfKept(phdrs, es, rel, Addrs(ps))
  }

  // ---- The memory theorem ----------------------------------------------------------

  /** Each packed word comes from a packable entry. */
  lemma PackedEntry(phdrs: seq<Phdr>, es: seq<Rela>, rel: nat, ps: seq<Packed>, i: nat) returns (e: Rela, seg: nat)
    requires Uniques(PackedOf(phdrs, es, rel), ps) && i < |ps|
    ensures e in es && Packable(phdrs, e, rel) && ps[i] == ToPacked(phdrs, e, rel)
    ensures ps[i].addr == e.rOff && ps[i].addend == e.addend && e.rOff % 8 == 0 && e.rOff + 8 < M
    ensures InSegment(phdrs, seg, ps[i].fileOff, e.rOff, 8)
  {
    hide LoadRange;
    PackedFrom(phdrs, es, rel);
    assert ps[i] in ps;
    e :| e in es && Packable(phdrs, e, rel) && ps[i] == ToPacked(phdrs, e, rel);
    seg := LoadRange(phdrs, e.rOff, WORD, 0).value.0;
  }

  /** Each packable entry has its word. */
  lemma EntryPacked(phdrs: seq<Phdr>, es: seq<Rela>, rel: nat, ps: seq<Packed>, e: Rela) returns (i: nat)
    requires Uniques(PackedOf(phdrs, es, rel), ps) && e in es && Packable(phdrs, e, rel)
    ensures i < |ps| && ps[i].addr == e.rOff && ps[i].addend == e.addend
  {
    hide LoadRange, Packable;
    PackedFrom(phdrs, es, rel);
    var p := ToPacked(phdrs, e, rel);
    assert p in PackedOf(phdrs, es, rel);
    var q :| q in ps && q.addr == p.addr && q.addend == p.addend;
    i :| i < |ps| && ps[i] == q;
  }

  lemma ChosenPacks(phdrs: seq<Phdr>, es: seq<Rela>, rel: nat, ps: seq<Packed>)
    requires Chosen(phdrs, es, rel, ps)
    ensures Packs(phdrs, es, rel, Addrs(ps))
  {
    hide LoadRange, Packable, PackedOf, ToPacked, Kept;
    var xs := Addrs(ps);
    forall i: nat | i < |xs|
      ensures xs[i] % 8 == 0
    {
      var e, seg := PackedEntry(phdrs, es, rel, ps, i);
    }
    forall e | e in es && Packable(phdrs, e, rel)
      ensures e.rOff in xs
    {
      var i := EntryPacked(phdrs, es, rel, ps, e);
      assert xs[i] == e.rOff;
    }
    forall a | a in xs
      ensures exists e :: e in es && Packable(phdrs, e, rel) && e.rOff == a
    {
      var i: nat :| i < |xs| && xs[i] == a;
      var e, seg := PackedEntry(phdrs, es, rel, ps, i);
    }
    forall e, a | e in es && !Packable(phdrs, e, rel) && a in xs
      ensures Clear(a, e.rOff)
    {
      KeptFrom(phdrs, es, rel);
      assert !Meets(a, e.rOff, WORD);
    }
  }

  /** The packed word at `a`, loaded from the rewritten file, is the addend. */
  lemma AddendLoaded(phdrs: seq<Phdr>, es: seq<Rela>, rel: nat, ps: seq<Packed>, d: seq<byte>, fin: seq<byte>,
                     t: Table, dy: Dynamic, hdr: set<nat>, e: Rela)
    requires Apart(phdrs, |d|) && Uniques(PackedOf(phdrs, es, rel), ps) && Rewritten(d, fin, ps, t, dy, hdr)
    requires e in es && Packable(phdrs, e, rel)
    ensures e.addend < M && LeValue(MemWord(Loaded(phdrs, fin), e.rOff)) == e.addend
  {
    hide LoadRange, Packable, PackedOf, ToPacked, LeValue, LoadedByte, Uniques, InWord, TableByte, DynByte;
    var i := EntryPacked(phdrs, es, rel, ps, e);
    var e', seg := PackedEntry(phdrs, es, rel, ps, i);
    var o := ps[i].fileOff;
    var w := MemWord(Loaded(phdrs, fin), e.rOff);
    forall k: nat | k < 8
      ensures w[k] == fin[o..o + 8][k]
    {
      LoadedRange(phdrs, fin, seg, o, e.rOff, 8, e.rOff + k);
    }
    assert w == fin[o..o + 8];
    WordBound(fin, o);
  }

  /** A file byte of a packed word backs that word. */
  lemma WordBacked(phdrs: seq<Phdr>, es: seq<Rela>, rel: nat, ps: seq<Packed>, n: nat, j: nat, o: nat, v: nat)
    requires Apart(phdrs, n) && Uniques(PackedOf(phdrs, es, rel), ps)
    requires InSegment(phdrs, j, o, v, 1) && InWord(ps, o)
    ensures WordOf(v) in Addrs(ps)
  {
    hide LoadRange, Packable, PackedOf, ToPacked, Uniques, InSegment, Apart;
    var i: nat :| i < |ps| && ps[i].fileOff <= o < ps[i].fileOff + 8;
    var e, seg := PackedEntry(phdrs, es, rel, ps, i);
    BackedOnce(phdrs, n, seg, ps[i].fileOff, e.rOff, 8, j, o, v);
    AlignedCover(e.rOff, v);
    assert Addrs(ps)[i] == WordOf(v);
  }

  lemma SameByteLoaded(phdrs: seq<Phdr>, es: seq<Rela>, rel: nat, ps: seq<Packed>, d: seq<byte>, fin: seq<byte>,
                       t: Table, dy: Dynamic, hdr: set<nat>, v: nat)
    requires Mapped(phdrs, |d|, t, dy) && Uniques(PackedOf(phdrs, es, rel), ps) && Rewritten(d, fin, ps, t, dy, hdr)
    requires Plain(phdrs, t, dy, hdr, v) && WordOf(v) !in Addrs(ps)
    ensures LoadedByte(phdrs, fin, v) == LoadedByte(phdrs, d, v)
  {
    hide LoadRange, Packable, PackedOf, ToPacked, Uniques, InSegment, Apart, InWord, Word;
    var at := LoadRange(phdrs, v, 1, 0);
    if at.Some? && at.value.1 < |d| {
      var (j, o) := at.value;
      if InWord(ps, o) {
        WordBacked(phdrs, es, rel, ps, |d|, j, o, v);
      }
      if TableByte(t, o) {
        BackedOnce(phdrs, |d|, t.seg, t.off, t.addr, t.size, j, o, v);
      }
      if DynByte(dy, o) {
        var i: nat :| InSegment(phdrs, i, dy.off, dy.addr, dy.slots * DYN_SIZE);
        BackedOnce(phdrs, |d|, i, dy.off, dy.addr, dy.slots * DYN_SIZE, j, o, v);
      }
    }
  }

  /** The byte at `v` after loading `d` at `base` and applying `ops`. */
  function ImageAt(phdrs: seq<Phdr>, d: seq<byte>, ops: seq<Op>, base: nat, v: nat): byte {
    After(ops, Loaded(phdrs, d), base, v)
  }

  /**
   Packing keeps the image: for every load base and every byte outside the
   rewritten tables and headers, RELA alone over the old file gives what kept
   RELA and RELR give over the new one, in either order.
   */
  lemma ImageKept(phdrs: seq<Phdr>, es: seq<Rela>, rel: nat, ps: seq<Packed>, d: seq<byte>, fin: seq<byte>,
                  t: Table, dy: Dynamic, hdr: set<nat>, base: nat, other: Resolver, v: nat)
    requires Mapped(phdrs, |d|, t, dy) && Chosen(phdrs, es, rel, ps) && Rewritten(d, fin, ps, t, dy, hdr)
    requires Plain(phdrs, t, dy, hdr, v)
    ensures
      var kept := RelaOps(Kept(phdrs, es, rel), rel, base, other);
      var was := ImageAt(phdrs, d, RelaOps(es, rel, base, other), base, v);
      && ImageAt(phdrs, fin, kept + RelrOps(Addrs(ps)), base, v) == was
      && ImageAt(phdrs, fin, RelrOps(Addrs(ps)) + kept, base, v) == was
  {
    hide LoadRange, Packable, PackedOf, Kept, LoadedByte, Uniques, Apart, InSegment, Packs, Rewritten, Plain, After,
         ClearOfKept, RelaOps;
    ChosenPacks(phdrs, es, rel, ps);
    forall e | e in es && Packable(phdrs, e, rel)
      ensures e.addend < M && LeValue(MemWord(Loaded(phdrs, fin), e.rOff)) == e.addend
    {
      AddendLoaded(phdrs, es, rel, ps, d, fin, t, dy, hdr, e);
    }
    if WordOf(v) !in Addrs(ps) {
      SameByteLoaded(phdrs, es, rel, ps, d, fin, t, dy, hdr, v);
    }
    SameMemory(phdrs, es, rel, Addrs(ps), base, other, Loaded(phdrs, d), Loaded(phdrs, fin), v);
    SameMemoryRelrFirst(phdrs, es, rel, Addrs(ps), base, other, Loaded(phdrs, d), Loaded(phdrs, fin), v);
  }

  // ---- The pass --------------------------------------------------------------------

  /** Ranges that do not meet in memory do not meet in the file. */
  lemma FileApart(phdrs: seq<Phdr>, n: nat, i: nat, off: nat, addr: nat, len: nat, j: nat, o: nat, a: nat, l: nat)
    requires Apart(phdrs, n) && InSegment(phdrs, i, off, addr, len) && InSegment(phdrs, j, o, a, l)
    requires 0 < len && 0 < l && (a + l <= addr || addr + len <= a)
    ensures o + l <= off || off + len <= o
  {
    hide Apart;
    if off < o + l && o < off + len {
      var k := if off < o then o else off;
      BackedOnce(phdrs, n, i, off, addr, len, j, k, a + (k - o));
    }
  }

  lemma AddrsDiffer(packed: seq<Packed>, ps: seq<Packed>, i: nat, j: nat)
    requires Uniques(packed, ps) && i < |ps| && j < |ps| && i != j
    ensures ps[i].addr != ps[j].addr
  {
    assert StrictByAddr(ps);
  }

  lemma PackedPairApart(phdrs: seq<Phdr>, es: seq<Rela>, rel: nat, ps: seq<Packed>, n: nat, i: nat, j: nat)
    requires Apart(phdrs, n) && Uniques(PackedOf(phdrs, es, rel), ps) && i < |ps| && j < |ps| && i != j
    ensures ps[i].fileOff + 8 <= ps[j].fileOff || ps[j].fileOff + 8 <= ps[i].fileOff
  {
    hide LoadRange, Packable, PackedOf, ToPacked, Apart, InSegment, Uniques;
    var e, seg := PackedEntry(phdrs, es, rel, ps, i);
    var f, seg' := PackedEntry(phdrs, es, rel, ps, j);
    AddrsDiffer(PackedOf(phdrs, es, rel), ps, i, j);
    FileApart(phdrs, n, seg, ps[i].fileOff, e.rOff, 8, seg', ps[j].fileOff, f.rOff, 8);
  }

  lemma PackedApart(phdrs: seq<Phdr>, es: seq<Rela>, rel: nat, ps: seq<Packed>, n: nat)
    requires Apart(phdrs, n) && Uniques(PackedOf(phdrs, es, rel), ps)
    ensures WordsApart(ps) && WordsIn(ps, n)
  {
    hide LoadRange, Packable, PackedOf, ToPacked, Apart, InSegment, Uniques;
    forall i: nat, j: nat | i < |ps| && j < |ps| && i != j
      ensures ps[i].fileOff + 8 <= ps[j].fileOff || ps[j].fileOff + 8 <= ps[i].fileOff
    {
      PackedPairApart(phdrs, es, rel, ps, n, i, j);
    }
    forall i: nat | i < |ps|
      ensures ps[i].fileOff + 8 <= n
    {
      var e, seg := PackedEntry(phdrs, es, rel, ps, i);
      SegmentInFile(phdrs, n, seg, ps[i].fileOff, e.rOff, 8);
    }
  }

  lemma SegmentInFile(phdrs: seq<Phdr>, n: nat, i: nat, off: nat, addr: nat, len: nat)
    requires Apart(phdrs, n) && InSegment(phdrs, i, off, addr, len)
    ensures off + len <= n
  {
    assert InFile(phdrs[i], n);
  }

  /** What `rela_table` and `read_dynamic` establish. */
  predicate Located(phdrs: seq<Phdr>, t: Table, dy: Dynamic) {
    && t.size > 0 && t.size % RELA_SIZE == 0
    && LoadRange(phdrs, t.addr, t.size, 0) == Some((t.seg, t.off))
    && TagsFit(dy.tags)
  }

  /** The addresses patched by entries that stay RELA. */
  function Offsets(es: seq<Rela>): (r: seq<nat>)
    ensures |r| == |es| && forall i: nat :: i < |es| ==> r[i] == es[i].rOff
  {
    seq(|es|, i requires 0 <= i < |es| => es[i].rOff)
  }

  predicate Agree(e: Rela, f: Rela) { e.rOff == f.rOff ==> e.addend == f.addend }

  /** The word of `e` is clear of everything patched or rewritten elsewhere. */
  predicate Alone(phdrs: seq<Phdr>, es: seq<Rela>, rel: nat, jmp: seq<nat>, t: Table, dy: Dynamic, e: Rela) {
    && (forall f :: f in es && !Packable(phdrs, f, rel) ==> !Meets(e.rOff, f.rOff, WORD))
    && (forall r :: r in jmp ==> !Meets(e.rOff, r, WORD))
    && !Meets(e.rOff, t.addr, t.size) && !Meets(e.rOff, dy.addr, dy.slots * DYN_SIZE)
  }

  /** Everything the pass asks: nothing else makes it refuse. */
  ghost predicate Acceptable(phdrs: seq<Phdr>, es: seq<Rela>, rel: nat, jmp: seq<nat>, t: Table, dy: Dynamic) {
    && (exists e :: e in es && Packable(phdrs, e, rel))
    && (forall e, f :: e in es && f in es && Packable(phdrs, e, rel) && Packable(phdrs, f, rel) ==> Agree(e, f))
    && (forall e :: e in es && Packable(phdrs, e, rel) ==> Alone(phdrs, es, rel, jmp, t, dy, e))
    && |Resized(dy.tags, |Kept(phdrs, es, rel)| * RELA_SIZE, 0)| + 3 < dy.slots
  }

  lemma {:induction false} ResizedLength(tags: seq<Tag>, keep: nat, lead: nat)
    ensures |Resized(tags, keep, lead)| == |Resized(tags, keep, 0)|
  {
    if tags != [] { ResizedLength(tags[..|tags| - 1], keep, lead); }
  }

  lemma AgreeExact(phdrs: seq<Phdr>, es: seq<Rela>, rel: nat)
    ensures (exists p, q :: p in PackedOf(phdrs, es, rel) && q in PackedOf(phdrs, es, rel) && Clash(p, q))
      <==> !(forall e, f :: e in es && f in es && Packable(phdrs, e, rel) && Packable(phdrs, f, rel) ==> Agree(e, f))
  {
    hide LoadRange, Packable, PackedOf;
    var ps := PackedOf(phdrs, es, rel);
    PackedFrom(phdrs, es, rel);
    forall e, f | e in es && f in es && Packable(phdrs, e, rel) && Packable(phdrs, f, rel) && !Agree(e, f)
      ensures exists p, q :: p in ps && q in ps && Clash(p, q)
    {
      assert ToPacked(phdrs, e, rel) in ps && ToPacked(phdrs, f, rel) in ps;
      assert Clash(ToPacked(phdrs, e, rel), ToPacked(phdrs, f, rel));
    }
    forall p, q | p in ps && q in ps && Clash(p, q)
      ensures exists e, f :: e in es && f in es && Packable(phdrs, e, rel) && Packable(phdrs, f, rel) && !Agree(e, f)
    {
      var e :| e in es && Packable(phdrs, e, rel) && p == ToPacked(phdrs, e, rel);
      var f :| f in es && Packable(phdrs, f, rel) && q == ToPacked(phdrs, f, rel);
      assert !Agree(e, f);
    }
  }

  lemma ClearExact(phdrs: seq<Phdr>, es: seq<Rela>, rel: nat, jmp: seq<nat>, t: Table, dy: Dynamic, ps: seq<Packed>)
    requires Uniques(PackedOf(phdrs, es, rel), ps)
    ensures TargetsClear(Addrs(ps), Offsets(Kept(phdrs, es, rel)) + jmp, t, dy.addr, dy.slots * DYN_SIZE)
      <==> (forall e :: e in es && Packable(phdrs, e, rel) ==> Alone(phdrs, es, rel, jmp, t, dy, e))
  {
    hide LoadRange, Packable, PackedOf, Kept, Uniques, Meets, InSegment;
    var xs, kept := Addrs(ps), Kept(phdrs, es, rel);
    var others := Offsets(kept) + jmp;
    KeptFrom(phdrs, es, rel);
    if TargetsClear(xs, others, t, dy.addr, dy.slots * DYN_SIZE) {
      forall e | e in es && Packable(phdrs, e, rel)
        ensures Alone(phdrs, es, rel, jmp, t, dy, e)
      {
        var i := EntryPacked(phdrs, es, rel, ps, e);
        assert xs[i] == e.rOff;
        forall f | f in es && !Packable(phdrs, f, rel)
          ensures !Meets(e.rOff, f.rOff, WORD)
        {
          assert f in kept;
          var k: nat :| k < |kept| && kept[k] == f;
          assert others[k] == f.rOff;
        }
      }
    }
    if forall e :: e in es && Packable(phdrs, e, rel) ==> Alone(phdrs, es, rel, jmp, t, dy, e) {
      forall a | a in xs
        ensures !Meets(a, t.addr, t.size) && !Meets(a, dy.addr, dy.slots * DYN_SIZE)
        ensures forall r :: r in others ==> !Meets(a, r, WORD)
      {
        var i: nat :| i < |xs| && xs[i] == a;
        var e, seg := PackedEntry(phdrs, es, rel, ps, i);
        assert Alone(phdrs, es, rel, jmp, t, dy, e);
        forall r | r in others
          ensures !Meets(a, r, WORD)
        {
          var k: nat :| k < |others| && others[k] == r;
          if k < |kept| { assert kept[k] in kept; } else { assert jmp[k - |kept|] == r; }
        }
      }
    }
  }

  /** The packed words survive the writes of the tables and of `.dynamic`. */
  lemma WordsSurvive(phdrs: seq<Phdr>, es: seq<Rela>, rel: nat, ps: seq<Packed>, d0: seq<byte>, d1: seq<byte>,
                     i: nat, off: nat, addr: nat, len: nat, k: nat)
    requires Apart(phdrs, |d0|) && Uniques(PackedOf(phdrs, es, rel), ps) && InSegment(phdrs, i, off, addr, len)
    requires 0 < len && SameOutside(d0, d1, off, off + len) && k < |ps| && !Meets(ps[k].addr, addr, len)
    ensures ps[k].fileOff + 8 <= |d0| && Word(d1, ps[k].fileOff) == Word(d0, ps[k].fileOff)
  {
    hide LoadRange, Packable, PackedOf, ToPacked, Apart, InSegment, Uniques, Word;
    var e, seg := PackedEntry(phdrs, es, rel, ps, k);
    SegmentInFile(phdrs, |d0|, seg, ps[k].fileOff, e.rOff, 8);
    FileApart(phdrs, |d0|, i, off, addr, len, seg, ps[k].fileOff, e.rOff, 8);
    WordKept(d0, d1, off, off + len, ps[k].fileOff);
  }

  /** File offset of the RELR words: right after the kept entries. */
  function RelrOff(t: Table, kept: nat): nat { t.off + kept * RELA_SIZE }

  /** Table contents as a loader reads them from the rewritten file. */
  predicate TablesHold(fin: seq<byte>, t: Table, kept: seq<Rela>, words: seq<nat>) {
    && RelrOff(t, |kept|) + |words| * WORD <= |fin|
    && Entries(fin, t.off, |kept|) == kept
    && Words(fin, RelrOff(t, |kept|), |words|) == words
  }

  /**
   `ps` packs the entries of `d`, and `fin` is the file rewritten for it, with
   its tables in place.
   */
  ghost predicate PackedFile(phdrs: seq<Phdr>, es: seq<Rela>, rel: nat, ps: seq<Packed>, d: seq<byte>, fin: seq<byte>,
                             t: Table, dy: Dynamic, words: seq<nat>) {
    && Chosen(phdrs, es, rel, ps) && Rewritten(d, fin, ps, t, dy, {})
    && TablesHold(fin, t, Kept(phdrs, es, rel), words)
  }

  lemma ChosenFrom(phdrs: seq<Phdr>, es: seq<Rela>, rel: nat, ps: seq<Packed>, jmp: seq<nat>, t: Table, da: nat, dn: nat)
    requires Uniques(PackedOf(phdrs, es, rel), ps)
    requires TargetsClear(Addrs(ps), Offsets(Kept(phdrs, es, rel)) + jmp, t, da, dn)
    ensures Chosen(phdrs, es, rel, ps)
  {
    hide LoadRange, Packable, PackedOf, Kept, Uniques, Meets;
    var xs, kept := Addrs(ps), Kept(phdrs, es, rel);
    var others := Offsets(kept) + jmp;
    forall a, e | a in xs && e in kept
      ensures !Meets(a, e.rOff, WORD)
    {
      var k: nat :| k < |kept| && kept[k] == e;
      assert others[k] == e.rOff;
    }
  }

  /** The result: the rewritten file, its `.dynamic` entries, how many entries stay RELA, the RELR words. */
  datatype Packing = Packing(data: seq<byte>, tags: seq<Tag>, kept: nat, words: seq<nat>)

  lemma {:induction false} EntriesFit(d: seq<byte>, o: nat, n: nat)
    requires o + n * RELA_SIZE <= |d|
    ensures forall e :: e in Entries(d, o, n) ==> e.addend < M
    decreases n
  {
    hide Word;
    if n > 0 {
      EntriesFit(d, o, n - 1);
      WordBound(d, o + (n - 1) * RELA_SIZE + 16);
    }
  }

  lemma PackedFit(phdrs: seq<Phdr>, es: seq<Rela>, rel: nat, ps: seq<Packed>)
    requires Uniques(PackedOf(phdrs, es, rel), ps) && forall e :: e in es ==> e.addend < M
    ensures forall i: nat :: i < |ps| ==> ps[i].addend < M
    ensures RelrCodec.Encodable(Addrs(ps)) && Increasing(Addrs(ps))
    ensures forall i: nat :: i < |ps| ==> Addrs(ps)[i] + WORD < M
  {
    hide LoadRange, Packable, PackedOf, ToPacked, InSegment;
    forall i: nat | i < |ps|
      ensures ps[i].addend < M && ps[i].addr % 8 == 0 && ps[i].addr + 8 < M
    {
      var e, seg := PackedEntry(phdrs, es, rel, ps, i);
    }
  }

  lemma NothingPackable(phdrs: seq<Phdr>, es: seq<Rela>, rel: nat)
    ensures PackedOf(phdrs, es, rel) == [] <==> !exists e :: e in es && Packable(phdrs, e, rel)
  {
    hide LoadRange, Packable, PackedOf, ToPacked;
    PackedFrom(phdrs, es, rel);
    forall e | e in es && Packable(phdrs, e, rel)
      ensures PackedOf(phdrs, es, rel) != []
    {
      assert ToPacked(phdrs, e, rel) in PackedOf(phdrs, es, rel);
    }
    if PackedOf(phdrs, es, rel) != [] {
      assert PackedOf(phdrs, es, rel)[0] in PackedOf(phdrs, es, rel);
    }
  }

  lemma OffsetsOfKeep(keep: seq<byte>, kept: seq<Rela>)
    requires |keep| == |kept| * RELA_SIZE && Entries(keep, 0, |kept|) == kept
    ensures Offsets(Entries(keep, 0, |keep| / RELA_SIZE)) == Offsets(kept)
  {
  }

  /** The files after each write, and the words and entries written. */
  datatype Writes = Writes(d1: seq<byte>, d2: seq<byte>, d3: seq<byte>)

  /** The words, the tables and `.dynamic` lie in the file, and the new tables fit. */
  predicate Roomy(ps: seq<Packed>, n: nat, t: Table, dy: Dynamic, size: nat) {
    WordsIn(ps, n) && size <= t.size && t.off + t.size <= n && dy.off + dy.slots * DYN_SIZE <= n
  }

  /**
   `rewrite` up to the section headers.  Given words chosen by the checks, the
   file alone decides whether it succeeds.
   */
  method Rewrite(d: seq<byte>, ps: seq<Packed>, t: Table, dy: Dynamic, keep: seq<byte>, words: seq<nat>, tags: seq<Tag>)
    returns (r: Option<Writes>)
    requires AllWords(words) && TagsFit(tags) && |tags| < dy.slots
    requires forall i: nat :: i < |ps| ==> ps[i].addend < M
    ensures r.Some? <==> Roomy(ps, |d|, t, dy, |keep| + |words| * WORD)
    ensures r.Some? ==> Written(d, r.value, ps, t, dy, keep, words, tags)
  {
    hide Word, InWord, Words, ReadTags;
    var a := WriteAddends(d, ps);
    if a.None? { return None; }
    var b := WriteTables(a.value.0, t, keep, words);
    if b.None? { return None; }
    var c := WriteDynamic(b.value.0, dy.off, dy.slots, tags);
    if c.None? { return None; }
    r := Some(Writes(a.value.0, b.value.0, c.value));
  }

  ghost predicate Written(d: seq<byte>, w: Writes, ps: seq<Packed>, t: Table, dy: Dynamic, keep: seq<byte>,
                          words: seq<nat>, tags: seq<Tag>) {
    && |w.d1| == |d| && (forall k: nat :: k < |d| && !InWord(ps, k) ==> w.d1[k] == d[k])
    && WordsIn(ps, |d|) && (WordsApart(ps) ==> forall i: nat :: i < |ps| ==> Word(w.d1, ps[i].fileOff) == ps[i].addend)
    && SameOutside(w.d1, w.d2, t.off, t.off + t.size) && t.off + t.size <= |d|
    && |keep| + |words| * WORD <= t.size && w.d2[t.off..t.off + |keep|] == keep
    && Words(w.d2, t.off + |keep|, |words|) == words
    && SameOutside(w.d2, w.d3, dy.off, dy.off + dy.slots * DYN_SIZE) && dy.off + dy.slots * DYN_SIZE <= |d|
    && ReadTags(w.d3, dy.off, dy.slots, 0) == tags
  }

  lemma MappedApart(phdrs: seq<Phdr>, n: nat, t: Table, dy: Dynamic, es: seq<Rela>, rel: nat, ps: seq<Packed>)
    requires Mapped(phdrs, n, t, dy) && Chosen(phdrs, es, rel, ps)
    ensures Apart(phdrs, n) && Uniques(PackedOf(phdrs, es, rel), ps)
  {
  }

  lemma WrittenShape(d: seq<byte>, w: Writes, ps: seq<Packed>, t: Table, dy: Dynamic, keep: seq<byte>,
                     words: seq<nat>, tags: seq<Tag>)
    requires Written(d, w, ps, t, dy, keep, words, tags)
    ensures |w.d1| == |w.d2| == |w.d3| == |d| && dy.off + dy.slots * DYN_SIZE <= |d| && ReadTags(w.d3, dy.off, dy.slots, 0) == tags
  {
  }

  lemma AddendsSurvive(phdrs: seq<Phdr>, es: seq<Rela>, rel: nat, ps: seq<Packed>, t: Table, dy: Dynamic, w: Writes,
                       others: seq<nat>)
    requires Mapped(phdrs, |w.d1|, t, dy) && t.size > 0 && dy.slots > 0 && Uniques(PackedOf(phdrs, es, rel), ps)
    requires TargetsClear(Addrs(ps), others, t, dy.addr, dy.slots * DYN_SIZE)
    requires SameOutside(w.d1, w.d2, t.off, t.off + t.size)
    requires SameOutside(w.d2, w.d3, dy.off, dy.off + dy.slots * DYN_SIZE)
    requires WordsIn(ps, |w.d1|) && forall i: nat :: i < |ps| ==> Word(w.d1, ps[i].fileOff) == ps[i].addend
    ensures forall i: nat :: i < |ps| ==> Word(w.d3, ps[i].fileOff) == ps[i].addend
  {
    hide LoadRange, Packable, PackedOf, Uniques, Meets, Apart, InSegment, Word;
    var i: nat :| InSegment(phdrs, i, dy.off, dy.addr, dy.slots * DYN_SIZE);
    forall k: nat | k < |ps|
      ensures Word(w.d3, ps[k].fileOff) == ps[k].addend
    {
      assert Addrs(ps)[k] == ps[k].addr;
      WordsSurvive(phdrs, es, rel, ps, w.d1, w.d2, t.seg, t.off, t.addr, t.size, k);
      WordsSurvive(phdrs, es, rel, ps, w.d2, w.d3, i, dy.off, dy.addr, dy.slots * DYN_SIZE, k);
    }
  }

  lemma TableApart(phdrs: seq<Phdr>, n: nat, t: Table, dy: Dynamic)
    requires Mapped(phdrs, n, t, dy) && t.size > 0 && dy.slots > 0
    ensures t.off + t.size <= dy.off || dy.off + dy.slots * DYN_SIZE <= t.off
    ensures t.off + t.size <= n && dy.off + dy.slots * DYN_SIZE <= n
  {
    hide Apart, InSegment;
    var i: nat :| InSegment(phdrs, i, dy.off, dy.addr, dy.slots * DYN_SIZE);
    FileApart(phdrs, n, i, dy.off, dy.addr, dy.slots * DYN_SIZE, t.seg, t.off, t.addr, t.size);
    SegmentInFile(phdrs, n, t.seg, t.off, t.addr, t.size);
    SegmentInFile(phdrs, n, i, dy.off, dy.addr, dy.slots * DYN_SIZE);
  }

  lemma KeepRead(keep: seq<byte>, kept: seq<Rela>, d: seq<byte>, off: nat)
    requires |keep| == |kept| * RELA_SIZE && Entries(keep, 0, |kept|) == kept
    requires off + |keep| <= |d| && d[off..off + |keep|] == keep
    ensures Entries(d, off, |kept|) == kept
  {
    hide Entries;
    assert keep[0..0 + |kept| * RELA_SIZE] == keep;
    EntriesSame(d, off, keep, 0, |kept|);
  }

  lemma WordsRead(d: seq<byte>, out: seq<byte>, lo: nat, hi: nat, o: nat, words: seq<nat>)
    requires SameOutside(d, out, lo, hi) && o + |words| * WORD <= |d| && (o + |words| * WORD <= lo || hi <= o)
    requires Words(d, o, |words|) == words
    ensures Words(out, o, |words|) == words
  {
    hide Words;
    WordsKept(d, out, lo, hi, o, |words|);
  }

  lemma RelrSurvives(t: Table, dy: Dynamic, kept: nat, words: seq<nat>, d2: seq<byte>, d3: seq<byte>)
    requires t.off + t.size <= dy.off || dy.off + dy.slots * DYN_SIZE <= t.off
    requires t.off + t.size <= |d2| && kept * RELA_SIZE + |words| * WORD <= t.size
    requires Words(d2, t.off + kept * RELA_SIZE, |words|) == words
    requires SameOutside(d2, d3, dy.off, dy.off + dy.slots * DYN_SIZE)
    ensures RelrOff(t, kept) + |words| * WORD <= |d3| && Words(d3, RelrOff(t, kept), |words|) == words
  {
    hide Words;
    WordsRead(d2, d3, dy.off, dy.off + dy.slots * DYN_SIZE, RelrOff(t, kept), words);
  }

  lemma RelaSurvives(t: Table, dy: Dynamic, kept: seq<Rela>, d2: seq<byte>, d3: seq<byte>)
    requires t.off + t.size <= dy.off || dy.off + dy.slots * DYN_SIZE <= t.off
    requires t.off + t.size <= |d2| && |kept| * RELA_SIZE <= t.size && Entries(d2, t.off, |kept|) == kept
    requires SameOutside(d2, d3, dy.off, dy.off + dy.slots * DYN_SIZE)
    ensures RelrOff(t, |kept|) <= |d3| && Entries(d3, t.off, |kept|) == kept
  {
    hide Entries;
    EntriesKept(d2, d3, dy.off, dy.off + dy.slots * DYN_SIZE, t.off, |kept|);
  }

  lemma FrameKept(d: seq<byte>, w: Writes, ps: seq<Packed>, t: Table, dy: Dynamic, keep: seq<byte>,
                  words: seq<nat>, tags: seq<Tag>)
    requires Written(d, w, ps, t, dy, keep, words, tags)
    ensures forall k: nat :: k < |d| && !InWord(ps, k) && !TableByte(t, k) && !DynByte(dy, k) ==> w.d3[k] == d[k]
  {
    hide InWord, Words, Word, ReadTags;
  }

  lemma WrittenPacks(phdrs: seq<Phdr>, es: seq<Rela>, rel: nat, ps: seq<Packed>, t: Table, dy: Dynamic, keep: seq<byte>,
                     words: seq<nat>, tags: seq<Tag>, d: seq<byte>, w: Writes, others: seq<nat>)
    requires Mapped(phdrs, |d|, t, dy) && t.size > 0 && dy.slots > 0 && Chosen(phdrs, es, rel, ps)
    requires TargetsClear(Addrs(ps), others, t, dy.addr, dy.slots * DYN_SIZE)
    requires Written(d, w, ps, t, dy, keep, words, tags)
    requires |keep| == |Kept(phdrs, es, rel)| * RELA_SIZE
    requires Entries(keep, 0, |Kept(phdrs, es, rel)|) == Kept(phdrs, es, rel)
    ensures PackedFile(phdrs, es, rel, ps, d, w.d3, t, dy, words)
  {
    hide LoadRange, Packable, PackedOf, Kept, Uniques, Meets, InSegment, Word, InWord, Entries, Words, ClearOfKept,
         WordsApart, ReadTags, Apart, TargetsClear, SameOutside, Mapped;
    WrittenShape(d, w, ps, t, dy, keep, words, tags);
    FrameKept(d, w, ps, t, dy, keep, words, tags);
    MappedApart(phdrs, |d|, t, dy, es, rel, ps);
    PackedApart(phdrs, es, rel, ps, |d|);
    AddendsSurvive(phdrs, es, rel, ps, t, dy, w, others);
    TableApart(phdrs, |d|, t, dy);
    RelrSurvives(t, dy, |Kept(phdrs, es, rel)|, words, w.d2, w.d3);
    KeepRead(keep, Kept(phdrs, es, rel), w.d2, t.off);
    RelaSurvives(t, dy, Kept(phdrs, es, rel), w.d2, w.d3);
  }

  /** No word of `xs` meets `[lo, lo + len)`. */
  predicate AwayFrom(xs: seq<nat>, lo: nat, len: nat) { forall i: nat :: i < |xs| ==> !Meets(xs[i], lo, len) }

  lemma TargetsAway(xs: seq<nat>, others: seq<nat>, t: Table, da: nat, dn: nat)
    requires TargetsClear(xs, others, t, da, dn)
    ensures AwayFrom(xs, t.addr, t.size)
  {
    hide Meets;
    forall i: nat | i < |xs|
      ensures !Meets(xs[i], t.addr, t.size)
    {
      assert xs[i] in xs;
    }
  }

  /** What `pack_relative` promises of its result. */
  ghost predicate PackedAs(d: seq<byte>, phdrs: seq<Phdr>, es: seq<Rela>, rel: nat, t: Table, dy: Dynamic, p: Packing,
                           ps: seq<Packed>) {
    && |p.data| == |d| && dy.off + dy.slots * DYN_SIZE <= |d|
    && p.kept == |Kept(phdrs, es, rel)| && RelrOff(t, p.kept) + |p.words| * WORD <= t.off + t.size <= |d|
    && RelrCodec.Decoded(p.words) == Addrs(ps) && AwayFrom(Addrs(ps), t.addr, t.size)
    && ReadTags(p.data, dy.off, dy.slots, 0) == p.tags
    && (exists lead: nat :: LeadOf(Kept(phdrs, es, rel), rel, lead)
         && p.tags == NewTags(dy.tags, t.addr, p.kept * RELA_SIZE, lead, |p.words|))
    && (Mapped(phdrs, |d|, t, dy) ==> PackedFile(phdrs, es, rel, ps, d, p.data, t, dy, p.words))
  }

  /**
   Packs the RELATIVE relocations of `d`; `jmp` are the PLT relocation targets.
   When the headers map the tables where they say, it refuses only for the
   reasons in `Acceptable`: the new tables always fit the old one.
   */
  method PackRelative(d: seq<byte>, phdrs: seq<Phdr>, t: Table, dy: Dynamic, jmp: seq<nat>, rel: nat)
    returns (r: Option<Packing>, ghost ps: seq<Packed>)
    requires Located(phdrs, t, dy)
    ensures r.Some? ==> t.off + t.size <= |d|
    ensures t.off + t.size <= |d| ==>
      var es := Entries(d, t.off, t.size / RELA_SIZE);
      && (r.Some? ==> Acceptable(phdrs, es, rel, jmp, t, dy) && PackedAs(d, phdrs, es, rel, t, dy, r.value, ps))
      && (Mapped(phdrs, |d|, t, dy) ==> (r.Some? <==> Acceptable(phdrs, es, rel, jmp, t, dy)))
  {
    hide LoadRange, Packable, PackedOf, Kept, Apart, InSegment, Word, InWord, Entries, Words, Resized, Meets, ClearOfKept,
         Clash, ReadTags, Uniques, TargetsClear, Alone, Agree, Written, Mapped, PackedFile, RelrCodec.Decoded, LeadOf, AwayFrom;
    ps := [];
    var split := SplitRelocs(d, phdrs, t, rel);
    if split.None? {
      if t.off + t.size <= |d| { NothingPackable(phdrs, Entries(d, t.off, t.size / RELA_SIZE), rel); }
      return None, ps;
    }
    ghost var es := Entries(d, t.off, t.size / RELA_SIZE);
    ghost var kept := Kept(phdrs, es, rel);
    var keep := split.value.keep;
    NothingPackable(phdrs, es, rel);
    AgreeExact(phdrs, es, rel);
    var sorted := SortedOffsets(split.value.packed);
    if sorted.None? {
      return None, ps;
    }
    ps := sorted.value;
    EntriesFit(d, t.off, t.size / RELA_SIZE);
    PackedFit(phdrs, es, rel, ps);
    ClearExact(phdrs, es, rel, jmp, t, dy, ps);
    OffsetsOfKeep(keep, kept);
    var offsets := Addrs(sorted.value);
    var others := Offsets(Entries(keep, 0, |keep| / RELA_SIZE)) + jmp;
    var clear := CheckTargets(offsets, others, t, dy.addr, dy.slots * DYN_SIZE);
    if !clear {
      return None, ps;
    }
    var words := RelrCodec.EncodeRelr(offsets);
    var back := RelrCodec.DecodeRelr(words);
    if back != offsets {
      return None, ps;
    }
    SplitCounts(phdrs, es, rel);
    UniquesCount(PackedOf(phdrs, es, rel), ps);
    TableBound(phdrs, t);
    LeadBound(kept, rel, split.value.lead);
    var tags := NewTags(dy.tags, t.addr, |keep|, split.value.lead, |words|);
    ResizedLength(dy.tags, |keep|, split.value.lead);
    if |tags| + 1 > dy.slots {
      return None, ps;
    }
    ResizedFits(dy.tags, |keep|, split.value.lead);
    var w := Rewrite(d, sorted.value, t, dy, keep, words, tags);
    if w.None? {
      if Mapped(phdrs, |d|, t, dy) { RewriteSucceeds(phdrs, es, rel, ps, |d|, t, dy); }
      return None, ps;
    }
    WrittenShape(d, w.value, ps, t, dy, keep, words, tags);
    ChosenFrom(phdrs, es, rel, ps, jmp, t, dy.addr, dy.slots * DYN_SIZE);
    TargetsAway(offsets, others, t, dy.addr, dy.slots * DYN_SIZE);
    if Mapped(phdrs, |d|, t, dy) {
      WrittenPacks(phdrs, es, rel, ps, t, dy, keep, words, tags, d, w.value, others);
    }
    r := Some(Packing(w.value.d3, tags, |keep| / RELA_SIZE, words));
  }

  lemma UniquesCount(packed: seq<Packed>, ps: seq<Packed>)
    requires Uniques(packed, ps)
    ensures |ps| <= |packed|
  {
  }

  lemma TableBound(phdrs: seq<Phdr>, t: Table)
    requires LoadRange(phdrs, t.addr, t.size, 0) == Some((t.seg, t.off))
    ensures t.addr + t.size < M
  {
  }

  lemma LeadBound(kept: seq<Rela>, rel: nat, lead: nat)
    requires LeadOf(kept, rel, lead)
    ensures lead <= |kept|
  {
  }

  lemma RewriteSucceeds(phdrs: seq<Phdr>, es: seq<Rela>, rel: nat, ps: seq<Packed>, n: nat, t: Table, dy: Dynamic)
    requires Mapped(phdrs, n, t, dy) && Uniques(PackedOf(phdrs, es, rel), ps)
    ensures WordsIn(ps, n) && dy.off + dy.slots * DYN_SIZE <= n
  {
    PackedApart(phdrs, es, rel, ps, n);
    var i: nat :| InSegment(phdrs, i, dy.off, dy.addr, dy.slots * DYN_SIZE);
    SegmentInFile(phdrs, n, i, dy.off, dy.addr, dy.slots * DYN_SIZE);
  }

  // ---- Reading the rewritten file ------------------------------------------------------

  ghost predicate SameOn(d1: seq<byte>, d2: seq<byte>, lo: nat, hi: nat) {
    |d1| == |d2| && hi <= |d1| && forall k: nat :: lo <= k < hi ==> d1[k] == d2[k]
  }

  lemma {:induction false} WordsSame(d1: seq<byte>, d2: seq<byte>, o: nat, n: nat)
    requires SameOn(d1, d2, o, o + n * WORD)
    ensures Words(d1, o, n) == Words(d2, o, n)
    decreases n
  {
    hide Word;
    if n > 0 {
      var at := o + (n - 1) * WORD;
      WordsSame(d1, d2, o, n - 1);
      WordKeptOn(d1, d2, at);
    }
  }

  lemma WordKeptOn(d1: seq<byte>, d2: seq<byte>, o: nat)
    requires SameOn(d1, d2, o, o + 8)
    ensures Word(d1, o) == Word(d2, o)
  {
    assert d1[o..o + 8] == d2[o..o + 8];
  }

  lemma EntriesSameOn(d1: seq<byte>, d2: seq<byte>, o: nat, n: nat)
    requires SameOn(d1, d2, o, o + n * RELA_SIZE)
    ensures Entries(d1, o, n) == Entries(d2, o, n)
  {
    hide Entries;
    assert d1[o..o + n * RELA_SIZE] == d2[o..o + n * RELA_SIZE];
    EntriesSame(d1, o, d2, o, n);
  }

  /** `fin` is `data` but for header bytes away from the table and the packed words. */
  ghost predicate HeadersEdited(data: seq<byte>, fin: seq<byte>, ps: seq<Packed>, t: Table, hdr: set<nat>) {
    && |fin| == |data| && (forall k: nat :: k < |data| && k !in hdr ==> fin[k] == data[k])
    && (forall k: nat :: k in hdr ==> !InWord(ps, k) && !TableByte(t, k))
  }

  lemma HeadersHarmless(d: seq<byte>, data: seq<byte>, fin: seq<byte>, ps: seq<Packed>, t: Table, dy: Dynamic, hdr: set<nat>)
    requires Rewritten(d, data, ps, t, dy, {}) && HeadersEdited(data, fin, ps, t, hdr)
    ensures Rewritten(d, fin, ps, t, dy, hdr)
  {
    hide Word, TableByte, DynByte;
    forall i: nat | i < |ps|
      ensures Word(fin, ps[i].fileOff) == ps[i].addend
    {
      forall k: nat | ps[i].fileOff <= k < ps[i].fileOff + 8
        ensures fin[k] == data[k]
      {
        assert InWord(ps, k);
      }
      WordKeptOn(fin, data, ps[i].fileOff);
    }
  }

  lemma TableSame(data: seq<byte>, fin: seq<byte>, ps: seq<Packed>, t: Table, hdr: set<nat>)
    requires HeadersEdited(data, fin, ps, t, hdr) && t.off + t.size <= |data|
    ensures SameOn(fin, data, t.off, t.off + t.size)
  {
    hide InWord;
    forall k: nat | t.off <= k < t.off + t.size
      ensures fin[k] == data[k]
    {
      assert TableByte(t, k);
    }
  }

  lemma TablesRead(data: seq<byte>, fin: seq<byte>, t: Table, kept: seq<Rela>, words: seq<nat>)
    requires SameOn(fin, data, t.off, t.off + t.size) && RelrOff(t, |kept|) + |words| * WORD <= t.off + t.size
    requires TablesHold(data, t, kept, words)
    ensures TablesHold(fin, t, kept, words)
  {
    hide Entries, Words;
    EntriesSameOn(fin, data, t.off, |kept|);
    WordsSame(fin, data, RelrOff(t, |kept|), |words|);
  }

  /**
   The law of the pass: reading the two tables out of the packed file (whatever
   was then edited in its headers) and applying them in either order gives, at
   every load base, the memory the original file and table give.
   */
  lemma SameImage(d: seq<byte>, phdrs: seq<Phdr>, es: seq<Rela>, rel: nat, t: Table, dy: Dynamic, p: Packing, ps: seq<Packed>,
                  fin: seq<byte>, hdr: set<nat>, base: nat, other: Resolver, v: nat)
    requires Mapped(phdrs, |d|, t, dy) && PackedAs(d, phdrs, es, rel, t, dy, p, ps)
    requires HeadersEdited(p.data, fin, ps, t, hdr) && Plain(phdrs, t, dy, hdr, v)
    ensures TablesHold(fin, t, Kept(phdrs, es, rel), p.words)
    ensures
      var rela := RelaOps(Entries(fin, t.off, p.kept), rel, base, other);
      var relr := RelrOps(RelrCodec.Decoded(Words(fin, RelrOff(t, p.kept), |p.words|)));
      var was := ImageAt(phdrs, d, RelaOps(es, rel, base, other), base, v);
      ImageAt(phdrs, fin, rela + relr, base, v) == was && ImageAt(phdrs, fin, relr + rela, base, v) == was
  {
    hide LoadRange, Packable, PackedOf, Kept, Uniques, Apart, InSegment, Word, InWord, Entries, Words, ClearOfKept, ImageAt,
         ReadTags, RelrCodec.Decoded, Plain, RelaOps, LeadOf, NewTags, RelrOff, TableByte, HeadersEdited, Rewritten;
    assert PackedFile(phdrs, es, rel, ps, d, p.data, t, dy, p.words);
    HeadersHarmless(d, p.data, fin, ps, t, dy, hdr);
    TableSame(p.data, fin, ps, t, hdr);
    TablesRead(p.data, fin, t, Kept(phdrs, es, rel), p.words);
    ImageKept(phdrs, es, rel, ps, d, fin, t, dy, hdr, base, other, v);
  }
}
