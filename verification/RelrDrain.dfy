/**
 Removing the bytes freed by RELR packing from the file
 (src/format/elf/relr.rs:923-1039, 1182-1210).

 Headers are parsed values here; the 8-byte fields the source overwrites are the
 fields of these records.
 */
module RelrDrain {
  import opened Wrappers
  import opened Arith
  import opened Bytes
  import opened ElfModel
  import opened RelrMemory
  import opened RelrSplit
  import opened RelrTables
  import opened RelrImage
  import RelrCodec

  const PAGE: nat := 0x1000
  const EHDR_SIZE: nat := 64
  const PHDR_SIZE: nat := 56
  const SHDR_SIZE: nat := 64

  /** `len` bytes leave at `cut`; segment `seg` now ends at `newEnd`. */
  datatype Drain = Drain(cut: nat, len: nat, seg: nat, newEnd: nat)

  function Max(a: nat, b: nat): nat { if a < b then b else a }

  function Min(a: nat, b: nat): nat { if a < b then a else b }

  // ---- Folds over the headers ------------------------------------------------------

  predicate HasBytes(s: Shdr) { !s.nobits && s.size > 0 }

  function SectionsEnd(ss: seq<Shdr>, acc: nat): nat {
    if ss == [] then acc
    else SectionsEnd(ss[1..], if ss[0].nobits then acc else Max(acc, SatAdd(ss[0].offset, ss[0].size)))
  }

  function SegmentsEnd(ps: seq<Phdr>, acc: nat): nat {
    if ps == [] then acc else SegmentsEnd(ps[1..], Max(acc, SatAdd(ps[0].offset, ps[0].filesz)))
  }

  function PhEnd(elf: Elf): nat { SatAdd(elf.phoff, |elf.phdrs| * PHDR_SIZE) }

  function ShEnd(elf: Elf): nat { SatAdd(elf.shoff, |elf.shdrs| * SHDR_SIZE) }

  /** Where the content the headers describe ends. */
  function ContentEnd(elf: Elf): nat {
    Max(Max(SegmentsEnd(elf.phdrs, SectionsEnd(elf.shdrs, EHDR_SIZE)), PhEnd(elf)), ShEnd(elf))
  }

  function NextSection(ss: seq<Shdr>, from: nat, acc: nat): (r: nat)
    ensures r <= acc && (acc >= from ==> r >= from)
    ensures forall i: nat :: i < |ss| && HasBytes(ss[i]) && ss[i].offset >= from ==> r <= ss[i].offset
    ensures r == acc || exists i: nat :: i < |ss| && HasBytes(ss[i]) && ss[i].offset == r
  {
    if ss == [] then acc
    else NextSection(ss[1..], from, if HasBytes(ss[0]) && ss[0].offset >= from then Min(acc, ss[0].offset) else acc)
  }

  function NextSegment(ps: seq<Phdr>, from: nat, acc: nat): (r: nat)
    ensures r <= acc && (acc >= from ==> r >= from)
    ensures forall i: nat :: i < |ps| && ps[i].filesz > 0 && ps[i].offset >= from ==> r <= ps[i].offset
    ensures r == acc || exists i: nat :: i < |ps| && ps[i].filesz > 0 && ps[i].offset == r
  {
    if ps == [] then acc
    else NextSegment(ps[1..], from, if ps[0].filesz > 0 && ps[0].offset >= from then Min(acc, ps[0].offset) else acc)
  }

  function NextTable(n: nat, off: nat, from: nat, acc: nat): nat {
    if n > 0 && off >= from then Min(acc, off) else acc
  }

  /** The first content at or after `from`, or the end of the file. */
  function NextContent(elf: Elf, from: nat, fileLen: nat): nat {
    var s := NextSegment(elf.phdrs, from, NextSection(elf.shdrs, from, fileLen));
    NextTable(|elf.phdrs|, elf.phoff, from, NextTable(|elf.shdrs|, elf.shoff, from, s))
  }

  /** Something with file bytes starts at `x`. */
  ghost predicate Begins(elf: Elf, x: nat) {
    || (exists i: nat :: i < |elf.shdrs| && elf.shdrs[i].offset == x && !elf.shdrs[i].nobits && elf.shdrs[i].size > 0)
    || (exists i: nat :: i < |elf.phdrs| && elf.phdrs[i].offset == x && elf.phdrs[i].filesz > 0)
    || (|elf.phdrs| > 0 && elf.phoff == x) || (|elf.shdrs| > 0 && elf.shoff == x)
  }

  /** The first of them at or after `from`. */
  lemma NextContentExact(elf: Elf, from: nat, fileLen: nat)
    requires from <= fileLen
    ensures var next := NextContent(elf, from, fileLen);
      && from <= next <= fileLen && (next < fileLen ==> Begins(elf, next))
      && forall x: nat :: from <= x < next ==> !Begins(elf, x)
  {
    hide NextSection, NextSegment;
  }

  /** An end that does not fit 64 bits is the highest address. */
  function Capped(x: nat): nat { if x < 0x1_0000_0000_0000_0000 then x else 0xffff_ffff_ffff_ffff }

  /** Something the headers describe ends at `x`: a section or segment, a header table, the file header. */
  ghost predicate Ends(elf: Elf, x: nat) {
    || (exists i: nat :: i < |elf.shdrs| && !elf.shdrs[i].nobits && Capped(elf.shdrs[i].offset + elf.shdrs[i].size) == x)
    || (exists i: nat :: i < |elf.phdrs| && Capped(elf.phdrs[i].offset + elf.phdrs[i].filesz) == x)
    || Capped(elf.phoff + 56 * |elf.phdrs|) == x || Capped(elf.shoff + 64 * |elf.shdrs|) == x || x == 64
  }

  lemma {:induction false} SectionsEndIs(ss: seq<Shdr>, acc: nat)
    ensures SectionsEnd(ss, acc) >= acc
    ensures forall i: nat :: i < |ss| && !ss[i].nobits ==> Capped(ss[i].offset + ss[i].size) <= SectionsEnd(ss, acc)
    ensures SectionsEnd(ss, acc) == acc
         || exists i: nat :: i < |ss| && !ss[i].nobits && Capped(ss[i].offset + ss[i].size) == SectionsEnd(ss, acc)
  {
    if ss != [] {
      var next := if ss[0].nobits then acc else Max(acc, SatAdd(ss[0].offset, ss[0].size));
      SectionsEndIs(ss[1..], next);
      assert forall i: nat :: 0 < i < |ss| ==> ss[i] == ss[1..][i - 1];
    }
  }

  lemma {:induction false} SegmentsEndIs(ps: seq<Phdr>, acc: nat)
    ensures SegmentsEnd(ps, acc) >= acc
    ensures forall i: nat :: i < |ps| ==> Capped(ps[i].offset + ps[i].filesz) <= SegmentsEnd(ps, acc)
    ensures SegmentsEnd(ps, acc) == acc
         || exists i: nat :: i < |ps| && Capped(ps[i].offset + ps[i].filesz) == SegmentsEnd(ps, acc)
  {
    if ps != [] {
      SegmentsEndIs(ps[1..], Max(acc, SatAdd(ps[0].offset, ps[0].filesz)));
      assert forall i: nat :: 0 < i < |ps| ==> ps[i] == ps[1..][i - 1];
    }
  }

  /** The content ends where the last of them does. */
  lemma ContentEndExact(elf: Elf)
    ensures Ends(elf, ContentEnd(elf)) && forall x: nat :: Ends(elf, x) ==> x <= ContentEnd(elf)
  {
    hide SectionsEnd, SegmentsEnd, Capped;
    SectionsEndIs(elf.shdrs, EHDR_SIZE);
    SegmentsEndIs(elf.phdrs, SectionsEnd(elf.shdrs, EHDR_SIZE));
    CappedIs(elf.phoff, 56 * |elf.phdrs|);
    CappedIs(elf.shoff, 64 * |elf.shdrs|);
  }

  lemma CappedIs(a: nat, b: nat)
    ensures SatAdd(a, b) == Capped(a + b)
  {
  }

  predicate Hit(off: nat, len: nat, lo: nat, hi: nat) { len > 0 && off < hi && SatAdd(off, len) > lo }

  /** Something other than the table and its segment has file bytes in `[lo, hi)`. */
  predicate Straddled(elf: Elf, t: Table, lo: nat, hi: nat) {
    || (exists i: nat :: i < |elf.shdrs| && Some(i) != t.sec && !elf.shdrs[i].nobits
          && Hit(elf.shdrs[i].offset, elf.shdrs[i].size, lo, hi))
    || (exists i: nat :: i < |elf.phdrs| && i != t.seg && Hit(elf.phdrs[i].offset, elf.phdrs[i].filesz, lo, hi))
    || Hit(elf.phoff, |elf.phdrs| * PHDR_SIZE, lo, hi)
    || Hit(elf.shoff, |elf.shdrs| * SHDR_SIZE, lo, hi)
  }

  /** A segment whose file bytes move when the cut ends at `from`. */
  predicate Moves(p: Phdr, from: nat) { p.filesz > 0 && p.offset >= from }

  /** The largest alignment of a moving segment, at least one page. */
  function ShiftAlign(ps: seq<Phdr>, from: nat, acc: nat): (r: nat)
    ensures r >= acc
    ensures forall i: nat :: i < |ps| && Moves(ps[i], from) ==> ps[i].align <= r
    ensures r == acc || exists i: nat :: i < |ps| && Moves(ps[i], from) && ps[i].align == r
  {
    if ps == [] then acc
    else
      var r := ShiftAlign(ps[1..], from, if Moves(ps[0], from) then Max(acc, ps[0].align) else acc);
      assert forall i: nat :: 0 < i < |ps| ==> ps[i] == ps[1..][i - 1];
      r
  }

  // ---- Planning --------------------------------------------------------------------

  /** The byte count drained: the free room before `next`, in whole units. */
  function DrainLen(elf: Elf, newEnd: nat, next: nat): nat
    requires newEnd <= next
  {
    var align := ShiftAlign(elf.phdrs, next, PAGE);
    (next - newEnd) / align * align
  }

  /** When a drain happens: nothing follows or straddles the freed bytes, and a unit fits. */
  ghost predicate Drainable(fileLen: nat, elf: Elf, t: Table, newEnd: nat)
    requires newEnd <= t.off + t.size <= fileLen
  {
    var next := NextContent(elf, t.off + t.size, fileLen);
    && t.seg < |elf.phdrs|
    && SatAdd(elf.phdrs[t.seg].offset, elf.phdrs[t.seg].filesz) == t.off + t.size
    && elf.phdrs[t.seg].memsz == elf.phdrs[t.seg].filesz
    && fileLen <= ContentEnd(elf)
    && !Straddled(elf, t, newEnd, next)
    && ShiftAlign(elf.phdrs, next, 0x1000) <= next - newEnd
  }

  method PlanDrain(fileLen: nat, elf: Elf, t: Table, newEnd: nat) returns (r: Option<Drain>)
    requires newEnd <= t.off + t.size <= fileLen
    ensures r.Some? <==> Drainable(fileLen, elf, t, newEnd)
    ensures r.Some? ==> Planned(fileLen, elf, t, newEnd, r.value)
    ensures r.Some? ==>
      var next := NextContent(elf, t.off + t.size, fileLen);
      next == r.value.cut + r.value.len && r.value.cut - newEnd < ShiftAlign(elf.phdrs, next, 0x1000)
  {
    hide ContentEnd, ShiftAlign, DrainLen, Straddled, SatAdd, NextContent, Begins;
    if t.seg >= |elf.phdrs| {
      return None;
    }
    var seg := elf.phdrs[t.seg];
    var oldEnd := t.off + t.size;
    if SatAdd(seg.offset, seg.filesz) != oldEnd || seg.memsz != seg.filesz {
      return None;
    }
    if fileLen > ContentEnd(elf) {
      return None;
    }
    var next := NextContent(elf, oldEnd, fileLen);
    NextContentExact(elf, oldEnd, fileLen);
    if Straddled(elf, t, newEnd, next) {
      return None;
    }
    var len := DrainLen(elf, newEnd, next);
    DrainUnits(elf, newEnd, next);
    if len == 0 {
      return None;
    }
    r := Some(Drain(next - len, len, t.seg, newEnd));
  }

  lemma DrainUnits(elf: Elf, newEnd: nat, next: nat)
    requires newEnd <= next
    ensures DrainLen(elf, newEnd, next) <= next - newEnd
    ensures DrainLen(elf, newEnd, next) % ShiftAlign(elf.phdrs, next, 0x1000) == 0
    ensures next - newEnd - DrainLen(elf, newEnd, next) < ShiftAlign(elf.phdrs, next, 0x1000)
    ensures DrainLen(elf, newEnd, next) == 0 <==> next - newEnd < ShiftAlign(elf.phdrs, next, 0x1000)
  {
    RoundDown(next - newEnd, ShiftAlign(elf.phdrs, next, 0x1000));
  }

  lemma RoundDown(room: nat, a: nat)
    requires a > 0
    ensures room / a * a <= room && room - room / a * a < a && room / a * a % a == 0
    ensures room / a * a == 0 <==> room < a
  {
    var k := room / a;
    assert room == k * a + room % a;
    MultipleMod(k, a);
    if room < a { QuotientUnique(0, a, 0, k); } else if k > 0 { AtLeast(k, a); }
  }

  /** What planning guarantees of its cut. */
  ghost predicate Planned(fileLen: nat, elf: Elf, t: Table, newEnd: nat, dr: Drain) {
    var next := dr.cut + dr.len;
    && dr.seg == t.seg < |elf.phdrs| && dr.newEnd == newEnd <= dr.cut && 0 < dr.len && newEnd <= t.off + t.size
    && t.off + t.size <= next <= fileLen
    && SatAdd(elf.phdrs[t.seg].offset, elf.phdrs[t.seg].filesz) == t.off + t.size
    && elf.phdrs[t.seg].memsz == elf.phdrs[t.seg].filesz
    && !Straddled(elf, t, newEnd, next)
    && dr.len % ShiftAlign(elf.phdrs, next, 0x1000) == 0
    && fileLen <= ContentEnd(elf)
  }

  // ---- Applying --------------------------------------------------------------------

  function Lowered(off: nat, dr: Drain): nat { if off >= dr.cut + dr.len then off - dr.len else off }

  function MovedPhdr(p: Phdr, i: nat, dr: Drain): Phdr {
    if i == dr.seg then
      var size := if dr.newEnd >= p.offset then dr.newEnd - p.offset else 0;
      p.(filesz := size, memsz := size)
    else p.(offset := Lowered(p.offset, dr))
  }

  function MovedShdr(s: Shdr, dr: Drain): Shdr { s.(offset := Lowered(s.offset, dr)) }

  function DrainedElf(elf: Elf, dr: Drain): (r: Elf)
    ensures |r.phdrs| == |elf.phdrs| && |r.shdrs| == |elf.shdrs|
    ensures forall i: nat :: i < |elf.phdrs| ==> r.phdrs[i] == MovedPhdr(elf.phdrs[i], i, dr)
    ensures forall i: nat :: i < |elf.shdrs| ==> r.shdrs[i] == MovedShdr(elf.shdrs[i], dr)
  {
    Elf(seq(|elf.phdrs|, i requires 0 <= i < |elf.phdrs| => MovedPhdr(elf.phdrs[i], i, dr)),
        seq(|elf.shdrs|, i requires 0 <= i < |elf.shdrs| => MovedShdr(elf.shdrs[i], dr)),
        Lowered(elf.phoff, dr),
        if |elf.shdrs| > 0 then Lowered(elf.shoff, dr) else elf.shoff)
  }

  /** The file without `[cut, cut + len)`. */
  function Drained(d: seq<byte>, dr: Drain): seq<byte>
    requires dr.cut + dr.len <= |d|
  {
    d[..dr.cut] + d[dr.cut + dr.len..]
  }

  method ApplyDrain(d: seq<byte>, elf: Elf, dr: Drain) returns (r: Option<(seq<byte>, Elf)>)
    requires dr.seg < |elf.phdrs| && elf.phdrs[dr.seg].offset <= dr.newEnd
    ensures r.Some? <==> dr.cut + dr.len <= |d|
    ensures r.Some? ==> r.value == (Drained(d, dr), DrainedElf(elf, dr))
  {
    var next := dr.cut + dr.len;
    var phdrs, shdrs := elf.phdrs, elf.shdrs;
    for i := 0 to |elf.phdrs|
      invariant |phdrs| == |elf.phdrs|
      invariant forall k: nat :: k < i ==> phdrs[k] == MovedPhdr(elf.phdrs[k], k, dr)
      invariant forall k: nat :: i <= k < |phdrs| ==> phdrs[k] == elf.phdrs[k]
    {
      var p := elf.phdrs[i];
      if i == dr.seg {
        var size := dr.newEnd - p.offset;
        phdrs := phdrs[i := p.(filesz := size, memsz := size)];
      } else if p.offset >= next {
        phdrs := phdrs[i := p.(offset := p.offset - dr.len)];
      }
    }
    for i := 0 to |elf.shdrs|
      invariant |shdrs| == |elf.shdrs|
      invariant forall k: nat :: k < i ==> shdrs[k] == MovedShdr(elf.shdrs[k], dr)
      invariant forall k: nat :: i <= k < |shdrs| ==> shdrs[k] == elf.shdrs[k]
    {
      if elf.shdrs[i].offset >= next {
        shdrs := shdrs[i := elf.shdrs[i].(offset := elf.shdrs[i].offset - dr.len)];
      }
    }
    var shoff, phoff := elf.shoff, elf.phoff;
    if |elf.shdrs| > 0 && elf.shoff >= next {
      shoff := elf.shoff - dr.len;
    }
    if elf.phoff >= next {
      phoff := elf.phoff - dr.len;
    }
    if next > |d| {
      return None;
    }
    assert Elf(phdrs, shdrs, phoff, shoff) == DrainedElf(elf, dr);
    r := Some((d[..dr.cut] + d[next..], Elf(phdrs, shdrs, phoff, shoff)));
  }

  // ---- No described content is lost ------------------------------------------------

  /** `[off, off + len)` of `d` is found whole at `at` in `out`. */
  ghost predicate FoundAt(d: seq<byte>, off: nat, len: nat, out: seq<byte>, at: nat) {
    && off + len <= |d| && at + len <= |out|
    && forall k: nat :: k < len ==> Get(out, at, k) == Get(d, off, k)
  }

  function Get(d: seq<byte>, off: nat, k: nat): byte
    requires off + k < |d|
  {
    d[off + k]
  }

  /** A range clear of the cut is found at its lowered offset. */
  lemma ClearRange(d: seq<byte>, dr: Drain, off: nat, len: nat)
    requires dr.cut + dr.len <= |d| && off + len <= |d| && (off + len <= dr.cut || off >= dr.cut + dr.len)
    requires len > 0
    ensures FoundAt(d, off, len, Drained(d, dr), Lowered(off, dr))
  {
  }

  lemma NotHit(off: nat, len: nat, lo: nat, hi: nat)
    requires len > 0 && !Hit(off, len, lo, hi) && off + len < M
    ensures off + len <= lo || off >= hi
  {
  }

  /** Every other segment keeps its file bytes, at its possibly lowered offset. */
  lemma SegmentKept(d: seq<byte>, elf: Elf, t: Table, newEnd: nat, dr: Drain, i: nat)
    requires Planned(|d|, elf, t, newEnd, dr) && |d| < M
    requires i < |elf.phdrs| && i != t.seg && elf.phdrs[i].filesz > 0
    requires elf.phdrs[i].offset + elf.phdrs[i].filesz <= |d|
    ensures var q := DrainedElf(elf, dr).phdrs[i];
      q.vaddr == elf.phdrs[i].vaddr && q.filesz == elf.phdrs[i].filesz
      && FoundAt(d, elf.phdrs[i].offset, q.filesz, Drained(d, dr), q.offset)
  {
    var p := elf.phdrs[i];
    assert !Hit(p.offset, p.filesz, newEnd, dr.cut + dr.len);
    NotHit(p.offset, p.filesz, newEnd, dr.cut + dr.len);
    ClearRange(d, dr, p.offset, p.filesz);
  }

  /** The table's own segment keeps every byte up to the end of the new tables. */
  lemma TableSegmentKept(d: seq<byte>, elf: Elf, t: Table, newEnd: nat, dr: Drain)
    requires Planned(|d|, elf, t, newEnd, dr) && elf.phdrs[t.seg].offset < newEnd
    ensures var q := DrainedElf(elf, dr).phdrs[t.seg];
      q.offset == elf.phdrs[t.seg].offset && q.offset + q.filesz == newEnd
      && FoundAt(d, q.offset, q.filesz, Drained(d, dr), q.offset)
  {
    ClearRange(d, dr, elf.phdrs[t.seg].offset, newEnd - elf.phdrs[t.seg].offset);
  }

  /** Every other section with file bytes keeps them. */
  lemma SectionKept(d: seq<byte>, elf: Elf, t: Table, newEnd: nat, dr: Drain, i: nat)
    requires Planned(|d|, elf, t, newEnd, dr) && |d| < M
    requires i < |elf.shdrs| && Some(i) != t.sec && HasBytes(elf.shdrs[i])
    requires elf.shdrs[i].offset + elf.shdrs[i].size <= |d|
    ensures var q := DrainedElf(elf, dr).shdrs[i];
      q.size == elf.shdrs[i].size && FoundAt(d, elf.shdrs[i].offset, q.size, Drained(d, dr), q.offset)
  {
    var s := elf.shdrs[i];
    assert !Hit(s.offset, s.size, newEnd, dr.cut + dr.len);
    NotHit(s.offset, s.size, newEnd, dr.cut + dr.len);
    ClearRange(d, dr, s.offset, s.size);
  }

  /** Both header tables stay whole and are found where the ELF header then says. */
  lemma HeaderTablesKept(d: seq<byte>, elf: Elf, t: Table, newEnd: nat, dr: Drain)
    requires Planned(|d|, elf, t, newEnd, dr) && |d| < M
    requires elf.phoff + 56 * |elf.phdrs| <= |d| && elf.shoff + 64 * |elf.shdrs| <= |d|
    ensures FoundAt(d, elf.phoff, 56 * |elf.phdrs|, Drained(d, dr), DrainedElf(elf, dr).phoff)
    ensures |elf.shdrs| > 0 ==>
      FoundAt(d, elf.shoff, 64 * |elf.shdrs|, Drained(d, dr), DrainedElf(elf, dr).shoff)
  {
    NotHit(elf.phoff, 56 * |elf.phdrs|, newEnd, dr.cut + dr.len);
    ClearRange(d, dr, elf.phoff, 56 * |elf.phdrs|);
    if |elf.shdrs| > 0 {
      NotHit(elf.shoff, 64 * |elf.shdrs|, newEnd, dr.cut + dr.len);
      ClearRange(d, dr, elf.shoff, 64 * |elf.shdrs|);
    }
  }

  /** A dropped byte is past the new tables and in no other segment. */
  lemma DroppedIsFree(fileLen: nat, elf: Elf, t: Table, newEnd: nat, dr: Drain, k: nat, i: nat)
    requires Planned(fileLen, elf, t, newEnd, dr) && fileLen < M
    requires dr.cut <= k < dr.cut + dr.len && i < |elf.phdrs|
    requires elf.phdrs[i].offset <= k < elf.phdrs[i].offset + elf.phdrs[i].filesz
    ensures i == t.seg && newEnd <= k < t.off + t.size
  {
    hide ContentEnd, ShiftAlign;
  }

  // ---- Alignment -------------------------------------------------------------------

  /** `p_offset` and `p_vaddr` agree modulo `p_align`. */
  predicate Congruent(p: Phdr) { p.align > 0 ==> p.offset % p.align == p.vaddr % p.align }

  predicate PowerOfTwo(a: nat) { a == 1 || (a > 1 && a % 2 == 0 && PowerOfTwo(a / 2)) }

  lemma {:induction false} Divides(a: nat, b: nat)
    requires PowerOfTwo(a) && PowerOfTwo(b) && a <= b
    ensures b % a == 0
    decreases a
  {
    if a > 1 {
      Divides(a / 2, b / 2);
      Doubled(b / 2, a / 2);
    }
  }

  lemma Doubled(b: nat, a: nat)
    requires a > 0 && b % a == 0
    ensures (2 * b) % (2 * a) == 0
  {
    var k := b / a;
    assert b == k * a;
    assert 2 * b == k * (2 * a) by { Shuffle(k, a); }
    MultipleMod(k, 2 * a);
  }

  lemma Shuffle(k: nat, a: nat)
    ensures 2 * (k * a) == k * (2 * a)
  {
  }

  lemma ModShift(x: nat, y: nat, n: nat, a: nat)
    requires a > 0 && n <= x && x % a == y % a
    ensures (x - n) % a == y % a <==> n % a == 0
  {
    var k, m, j := x / a, n / a, (x - n) / a;
    assert x == k * a + x % a && n == m * a + n % a && x - n == j * a + (x - n) % a;
    // x - n == j * a + r1 and x == k * a + r, so n == (k - j) * a + (r - r1).
    Distribute(k, j, a);
    if (x - n) % a == x % a {
      assert n == (k - j) * a;
      if k < j { AtLeast(j - k, a); Distribute(j, k, a); }
      MultipleMod(k - j, a);
    }
    if n % a == 0 {
      Distribute(k, m, a);
      assert x - n == (k - m) * a + x % a;
      RemainderUnique(x - n, a, k - m, x % a);
    }
  }

  /** A moved segment stays congruent exactly when the drained length is a multiple of its alignment. */
  lemma MovedCongruent(p: Phdr, i: nat, dr: Drain)
    requires Congruent(p) && p.align > 0 && i != dr.seg && dr.cut + dr.len <= p.offset
    ensures Congruent(MovedPhdr(p, i, dr)) <==> dr.len % p.align == 0
  {
    ModShift(p.offset, p.vaddr, dr.len, p.align);
  }

  /**
   Over all the lengths a drain in units of `unit` may remove, a moving segment
   stays congruent iff its alignment divides the unit.
   */
  lemma UnitExact(p: Phdr, i: nat, unit: nat, seg: nat)
    requires Congruent(p) && p.align > 0 && i != seg && 0 < unit <= p.offset
    ensures (forall dr: Drain :: dr.seg == seg && dr.len % unit == 0 && dr.cut + dr.len <= p.offset ==>
               Congruent(MovedPhdr(p, i, dr)))
      <==> unit % p.align == 0
  {
    var one := Drain(0, unit, seg, 0);
    if forall dr: Drain :: dr.seg == seg && dr.len % unit == 0 && dr.cut + dr.len <= p.offset ==>
         Congruent(MovedPhdr(p, i, dr)) {
      assert unit % unit == 0 by { MultipleMod(1, unit); }
      assert Congruent(MovedPhdr(p, i, one));
      MovedCongruent(p, i, one);
    }
    if unit % p.align == 0 {
      forall dr: Drain | dr.seg == seg && dr.len % unit == 0 && dr.cut + dr.len <= p.offset
        ensures Congruent(MovedPhdr(p, i, dr))
      {
        DivTrans(dr.len, unit, p.align);
        MovedCongruent(p, i, dr);
      }
    }
  }

  /** Every moving segment's alignment is a power of two, as the ELF format asks. */
  ghost predicate PowerAligned(ps: seq<Phdr>, from: nat) {
    forall i: nat :: i < |ps| && Moves(ps[i], from) && ps[i].align > 0 ==> PowerOfTwo(ps[i].align)
  }

  /** Then every segment with file bytes stays congruent. */
  lemma AlignmentKept(fileLen: nat, elf: Elf, t: Table, newEnd: nat, dr: Drain, i: nat)
    requires Planned(fileLen, elf, t, newEnd, dr) && PowerAligned(elf.phdrs, dr.cut + dr.len)
    requires i < |elf.phdrs| && elf.phdrs[i].filesz > 0 && Congruent(elf.phdrs[i])
    ensures Congruent(DrainedElf(elf, dr).phdrs[i])
  {
    var p, next := elf.phdrs[i], dr.cut + dr.len;
    if i != t.seg && p.offset >= next && p.align > 0 {
      assert Moves(p, next);
      var unit := ShiftAlign(elf.phdrs, next, 0x1000);
      assert PowerOfTwo(unit) by {
        PageIsPower();
        if unit != 0x1000 {
          var j: nat :| j < |elf.phdrs| && Moves(elf.phdrs[j], next) && elf.phdrs[j].align == unit;
        }
      }
      Divides(p.align, unit);
      DivTrans(dr.len, unit, p.align);
      MovedCongruent(p, i, dr);
    }
  }

  lemma PageIsPower()
    ensures PowerOfTwo(0x1000)
  {
    assert PowerOfTwo(0x10) && PowerOfTwo(0x100) && PowerOfTwo(0x1000);
  }

  /**
   Without that condition alignment can be lost: here another segment's
   alignment of 0x3000 sets the unit, and the segment aligned to 0x2000 moves by
   0x3000.
   */
  lemma OddAlignmentLost() returns (elf: Elf, t: Table, newEnd: nat, dr: Drain)
    ensures Planned(0xa000, elf, t, newEnd, dr)
    ensures |elf.phdrs| == 3 && forall i: nat :: i < 3 ==> Congruent(elf.phdrs[i]) && elf.phdrs[i].filesz > 0
    ensures PowerOfTwo(elf.phdrs[1].align) && !Congruent(DrainedElf(elf, dr).phdrs[1])
  {
    var p0 := Phdr(true, 0, 0, 0x6000, 0x6000, 0x1000);
    var p1 := Phdr(true, 0x6000, 0x16000, 0x1000, 0x1000, 0x2000);
    var p2 := Phdr(true, 0x9000, 0x1b000, 0x1000, 0x1000, 0x3000);
    elf := Elf([p0, p1, p2], [], 0x40, 0);
    t := Table(0x1800, 0x1800, 0x4800, 0, None);
    newEnd := 0x1808;
    dr := Drain(0x3000, 0x3000, 0, 0x1808);
    ThreeUnits(p0, p1, p2);
    ThreeEnds(p0, p1, p2);
    assert 0x3000 % ShiftAlign(elf.phdrs, 0x6000, 0x1000) == 0;
    hide ShiftAlign, ContentEnd;
    assert PowerOfTwo(0x2000) by { PageIsPower(); }
  }

  lemma ThreeUnits(p0: Phdr, p1: Phdr, p2: Phdr)
    requires !Moves(p0, 0x6000) && Moves(p1, 0x6000) && Moves(p2, 0x6000) && p1.align == 0x2000 && p2.align == 0x3000
    ensures ShiftAlign([p0, p1, p2], 0x6000, 0x1000) == 0x3000
  {
    assert [p0, p1, p2][1..] == [p1, p2] && [p1, p2][1..] == [p2] && [p2][1..] == [];
    assert ShiftAlign([p2], 0x6000, 0x2000) == 0x3000;
    assert ShiftAlign([p1, p2], 0x6000, 0x1000) == 0x3000;
  }

  lemma ThreeEnds(p0: Phdr, p1: Phdr, p2: Phdr)
    requires p0.offset + p0.filesz == 0x6000 && p1.offset + p1.filesz == 0x7000 && p2.offset + p2.filesz == 0xa000
    ensures ContentEnd(Elf([p0, p1, p2], [], 0x40, 0)) == 0xa000
  {
    assert [p0, p1, p2][1..] == [p1, p2] && [p1, p2][1..] == [p2] && [p2][1..] == [];
    assert SegmentsEnd([p2], 0x7000) == 0xa000;
    assert SegmentsEnd([p1, p2], 0x6000) == 0xa000;
  }

  // ---- The loaded image ------------------------------------------------------------

  /** The address range whose file bytes no longer belong to the table's segment. */
  predicate Freed(t: Table, newEnd: nat, v: nat) { t.addr + newEnd <= v + t.off && v < t.addr + t.size }

  lemma HoldsSame(fileLen: nat, elf: Elf, t: Table, newEnd: nat, dr: Drain, v: nat, i: nat)
    requires Planned(fileLen, elf, t, newEnd, dr) && fileLen + 1 < M && i < |elf.phdrs|
    requires InSegment(elf.phdrs, t.seg, t.off, t.addr, t.size) && t.off <= newEnd && !Freed(t, newEnd, v)
    ensures Holds(DrainedElf(elf, dr).phdrs[i], v, 1) == Holds(elf.phdrs[i], v, 1)
  {
  }

  lemma {:induction false} LoadRangeSame(ps: seq<Phdr>, qs: seq<Phdr>, v: nat, from: nat)
    requires |qs| == |ps| && forall i: nat :: i < |ps| ==> Holds(qs[i], v, 1) == Holds(ps[i], v, 1)
    ensures LoadRange(qs, v, 1, from).Some? == LoadRange(ps, v, 1, from).Some?
    ensures LoadRange(qs, v, 1, from).Some? ==> LoadRange(qs, v, 1, from).value.0 == LoadRange(ps, v, 1, from).value.0
    decreases |ps| - from
  {
    if from < |ps| && !Holds(ps[from], v, 1) { LoadRangeSame(ps, qs, v, from + 1); }
  }

  /** Draining changes no loaded byte outside the freed range. */
  lemma LoadedKept(d: seq<byte>, elf: Elf, t: Table, newEnd: nat, dr: Drain, v: nat)
    requires Planned(|d|, elf, t, newEnd, dr) && |d| + 1 < M
    requires InSegment(elf.phdrs, t.seg, t.off, t.addr, t.size) && t.off <= newEnd && !Freed(t, newEnd, v)
    ensures LoadedByte(DrainedElf(elf, dr).phdrs, Drained(d, dr), v) == LoadedByte(elf.phdrs, d, v)
  {
    hide LoadRange, ContentEnd, ShiftAlign;
    var ps, qs := elf.phdrs, DrainedElf(elf, dr).phdrs;
    forall i: nat | i < |ps|
      ensures Holds(qs[i], v, 1) == Holds(ps[i], v, 1)
    {
      HoldsSame(|d|, elf, t, newEnd, dr, v, i);
    }
    LoadRangeSame(ps, qs, v, 0);
    var at := LoadRange(ps, v, 1, 0);
    if at.Some? {
      var (i, o) := at.value;
      if i != t.seg { assert !Hit(ps[i].offset, ps[i].filesz, newEnd, dr.cut + dr.len); }
    }
  }

  /** Relocation sees the difference of two memories only where they differ. */
  lemma {:induction false} AfterAgree(ops: seq<Op>, m1: Mem, m2: Mem, base: nat, lo: nat, hi: nat, v: nat)
    requires forall u: nat :: !(lo <= u < hi) ==> m1(u) == m2(u)
    requires forall i: nat :: i < |ops| && ops[i].AddBase? ==> ops[i].addr + 8 <= lo || hi <= ops[i].addr
    requires !(lo <= v < hi)
    ensures After(ops, m1, base, v) == After(ops, m2, base, v)
    decreases |ops|
  {
    hide After, Rebased;
    if ops == [] {
      NotCovered([], m1, base, v);
      NotCovered([], m2, base, v);
      return;
    }
    var k := |ops| - 1;
    var init := ops[..k];
    assert ops == init + [ops[k]];
    AfterAgree(init, m1, m2, base, lo, hi, v);
    match ops[k]
    case Store(_, _) =>
      AfterStore(init, ops[k], m1, base, v);
      AfterStore(init, ops[k], m2, base, v);
    case AddBase(a) =>
      AfterBase(init, a, m1, base, v);
      AfterBase(init, a, m2, base, v);
      forall u: nat | a <= u < a + 8
        ensures After(init, m1, base, u) == After(init, m2, base, u)
      {
        AfterAgree(init, m1, m2, base, lo, hi, u);
      }
      assert MemWord((u: nat) => After(init, m1, base, u), a) == MemWord((u: nat) => After(init, m2, base, u), a);
  }

  /** Relocating the drained file gives the memory of the undrained one. */
  lemma DrainedImage(d: seq<byte>, elf: Elf, t: Table, newEnd: nat, dr: Drain, ops: seq<Op>, base: nat, v: nat)
    requires Planned(|d|, elf, t, newEnd, dr) && |d| + 1 < M
    requires InSegment(elf.phdrs, t.seg, t.off, t.addr, t.size) && t.off <= newEnd
    requires forall i: nat :: i < |ops| && ops[i].AddBase? ==> !Meets(ops[i].addr, t.addr, t.size)
    requires !Freed(t, newEnd, v)
    ensures ImageAt(DrainedElf(elf, dr).phdrs, Drained(d, dr), ops, base, v) == ImageAt(elf.phdrs, d, ops, base, v)
  {
    hide LoadedByte, After, DrainedElf, Drained;
    var m1, m2 := Loaded(DrainedElf(elf, dr).phdrs, Drained(d, dr)), Loaded(elf.phdrs, d);
    var lo, hi := t.addr + (newEnd - t.off), t.addr + t.size;
    forall u: nat | !(lo <= u < hi)
      ensures m1(u) == m2(u)
    {
      LoadedKept(d, elf, t, newEnd, dr, u);
    }
    AfterAgree(ops, m1, m2, base, lo, hi, v);
  }

  /**
   The law of the whole pass: the packed, header-edited and drained file, its two
   tables applied in either order, loads and relocates at every base to the
   memory the original file and table give.
   */
  lemma PackedDrainedImage(d: seq<byte>, elf: Elf, es: seq<Rela>, rel: nat, t: Table, dy: Dynamic, p: Packing,
                           ps: seq<Packed>, fin: seq<byte>, hdr: set<nat>, newEnd: nat, dr: Drain,
                           base: nat, other: Resolver, v: nat)
    requires Mapped(elf.phdrs, |d|, t, dy) && PackedAs(d, elf.phdrs, es, rel, t, dy, p, ps)
    requires HeadersEdited(p.data, fin, ps, t, hdr) && Plain(elf.phdrs, t, dy, hdr, v)
    requires newEnd == RelrOff(t, p.kept) + |p.words| * WORD && |d| + 1 < M
    requires Planned(|d|, elf, t, newEnd, dr)
    ensures
      var rela := RelaOps(Entries(fin, t.off, p.kept), rel, base, other);
      var relr := RelrOps(RelrCodec.Decoded(Words(fin, RelrOff(t, p.kept), |p.words|)));
      var was := ImageAt(elf.phdrs, d, RelaOps(es, rel, base, other), base, v);
      var phdrs, out := DrainedElf(elf, dr).phdrs, Drained(fin, dr);
      ImageAt(phdrs, out, rela + relr, base, v) == was && ImageAt(phdrs, out, relr + rela, base, v) == was
  {
    hide LoadRange, PackedFile, Entries, Words, ImageAt, NewTags, ReadTags, RelrCodec.Decoded, HeadersEdited, Plain, Planned,
         InSegment, Apart, LeadOf, Meets, DrainedElf, Kept, TablesHold, RelaOp;
    SameImage(d, elf.phdrs, es, rel, t, dy, p, ps, fin, hdr, base, other, v);
    EditedLength(p.data, fin, ps, t, hdr);
    var rela := RelaOps(Entries(fin, t.off, p.kept), rel, base, other);
    var relr := RelrOps(RelrCodec.Decoded(Words(fin, RelrOff(t, p.kept), |p.words|)));
    RelrAway(fin, t, Kept(elf.phdrs, es, rel), p.words, ps);
    OnlyStores(Entries(fin, t.off, p.kept), rel, base, other);
    PlainNotFreed(elf.phdrs, t, dy, hdr, newEnd, v);
    DrainedImage(fin, elf, t, newEnd, dr, rela + relr, base, v);
    DrainedImage(fin, elf, t, newEnd, dr, relr + rela, base, v);
  }

  lemma EditedLength(data: seq<byte>, fin: seq<byte>, ps: seq<Packed>, t: Table, hdr: set<nat>)
    requires HeadersEdited(data, fin, ps, t, hdr)
    ensures |fin| == |data|
  {
  }

  lemma PlainNotFreed(phdrs: seq<Phdr>, t: Table, dy: Dynamic, hdr: set<nat>, newEnd: nat, v: nat)
    requires Plain(phdrs, t, dy, hdr, v) && t.off <= newEnd
    ensures !Freed(t, newEnd, v)
  {
  }

  lemma RelrAway(fin: seq<byte>, t: Table, kept: seq<Rela>, words: seq<nat>, ps: seq<Packed>)
    requires TablesHold(fin, t, kept, words) && RelrCodec.Decoded(words) == Addrs(ps) && AwayFrom(Addrs(ps), t.addr, t.size)
    ensures var relr := RelrOps(RelrCodec.Decoded(Words(fin, RelrOff(t, |kept|), |words|)));
      forall i: nat :: i < |relr| ==> !Meets(relr[i].addr, t.addr, t.size)
  {
    hide Words, Entries, RelrCodec.Decoded, Meets;
  }
}
