/**
 Writing the packed tables into the file: in-place addends, the two relocation
 tables, and the `.dynamic` entries that name them
 (src/format/elf/relr.rs:885-917, 1042-1092).
 */
module RelrTables {
  import opened Wrappers
  import opened Bytes
  import opened ElfModel
  import opened RelrSplit

  /** `out` is `d` outside `[lo, hi)`. */
  ghost predicate SameOutside(d: seq<byte>, out: seq<byte>, lo: nat, hi: nat) {
    |out| == |d| && forall k: nat :: k < |d| && !(lo <= k < hi) ==> out[k] == d[k]
  }

  lemma WordBound(d: seq<byte>, o: nat)
    requires o + 8 <= |d|
    ensures Word(d, o) < M
  {
    ValueBound(d[o..o + 8], false);
    assert Pow256(8) == M by { assert Pow256(4) == 0x1_0000_0000; }
  }

  function PutWord(d: seq<byte>, o: nat, v: nat): (r: seq<byte>)
    requires o + 8 <= |d|
    ensures SameOutside(d, r, o, o + 8)
    ensures v < M ==> Word(r, o) == v
  {
    if v < M then PutRead(v); Put(d, o, LeBytes(v, 8)) else Put(d, o, LeBytes(v, 8))
  }

  lemma PutRead(v: nat)
    requires v < M
    ensures LeValue(LeBytes(v, 8)) == v
  {
    assert Pow256(8) == M by { assert Pow256(4) == 0x1_0000_0000; }
    LeRoundTrip(v, 8);
  }

  /** A word outside the changed range reads as before. */
  lemma WordKept(d: seq<byte>, out: seq<byte>, lo: nat, hi: nat, o: nat)
    requires SameOutside(d, out, lo, hi) && o + 8 <= |d| && (o + 8 <= lo || hi <= o)
    ensures Word(out, o) == Word(d, o)
  {
    assert out[o..o + 8] == d[o..o + 8];
  }

  // ---- write_addends -------------------------------------------------------------

  predicate InWord(ps: seq<Packed>, k: nat) { exists i: nat :: i < |ps| && ps[i].fileOff <= k < ps[i].fileOff + 8 }

  /** No two packed words share a file byte. */
  predicate WordsApart(ps: seq<Packed>) {
    forall i: nat, j: nat :: i < |ps| && j < |ps| && i != j ==>
      ps[i].fileOff + 8 <= ps[j].fileOff || ps[j].fileOff + 8 <= ps[i].fileOff
  }

  predicate WordsIn(ps: seq<Packed>, n: nat) { forall i: nat :: i < |ps| ==> ps[i].fileOff + 8 <= n }

  /** How many packed words hold something other than their addend. */
  function Differing(d: seq<byte>, ps: seq<Packed>): nat
    requires WordsIn(ps, |d|)
  {
    if ps == [] then 0
    else
      var p := ps[|ps| - 1];
      Differing(d, ps[..|ps| - 1]) + if Word(d, p.fileOff) != p.addend then 1 else 0
  }

  method WriteAddends(d: seq<byte>, ps: seq<Packed>) returns (r: Option<(seq<byte>, nat)>)
    requires forall i: nat :: i < |ps| ==> ps[i].addend < M
    ensures r.Some? <==> WordsIn(ps, |d|)
    ensures r.Some? ==> |r.value.0| == |d| && forall k: nat :: k < |d| && !InWord(ps, k) ==> r.value.0[k] == d[k]
    ensures r.Some? && WordsApart(ps) ==>
      r.value.1 == Differing(d, ps) && forall i: nat :: i < |ps| ==> Word(r.value.0, ps[i].fileOff) == ps[i].addend
  {
    hide Word, InWord;
    var out, changed := d, 0;
    for i := 0 to |ps|
      invariant WordsIn(ps[..i], |d|)
      invariant |out| == |d| && forall k: nat :: k < |d| && !InWord(ps[..i], k) ==> out[k] == d[k]
      invariant WordsApart(ps) ==>
        (changed == Differing(d, ps[..i]) && forall j: nat :: j < i ==> Word(out, ps[j].fileOff) == ps[j].addend)
    {
      var p := ps[i];
      if p.fileOff + 8 > |out| {
        assert ps[i].fileOff + 8 > |d|;
        return None;
      }
      assert ps[..i + 1][..i] == ps[..i];
      ghost var was := out;
      if WordsApart(ps) { WordUntouched(d, out, ps, i); }
      if Word(out, p.fileOff) != p.addend {
        out := PutWord(out, p.fileOff, p.addend);
        changed := changed + 1;
      }
      AddendWritten(d, was, out, ps, i);
    }
    assert ps[..|ps|] == ps;
    r := Some((out, changed));
  }

  lemma WordUntouched(d: seq<byte>, out: seq<byte>, ps: seq<Packed>, i: nat)
    requires i < |ps| && WordsApart(ps) && |out| == |d| && ps[i].fileOff + 8 <= |d|
    requires forall k: nat :: k < |d| && !InWord(ps[..i], k) ==> out[k] == d[k]
    ensures Word(out, ps[i].fileOff) == Word(d, ps[i].fileOff)
  {
    var o := ps[i].fileOff;
    forall k: nat | o <= k < o + 8
      ensures out[k] == d[k]
    {
      assert !InWord(ps[..i], k);
    }
    assert out[o..o + 8] == d[o..o + 8];
  }

  lemma InWordGrows(ps: seq<Packed>, i: nat, k: nat)
    requires i < |ps| && InWord(ps[..i], k)
    ensures InWord(ps[..i + 1], k)
  {
    var j: nat :| j < i && ps[..i][j].fileOff <= k < ps[..i][j].fileOff + 8;
    assert ps[..i + 1][j] == ps[j];
  }

  lemma AddendWritten(d: seq<byte>, was: seq<byte>, out: seq<byte>, ps: seq<Packed>, i: nat)
    requires i < |ps| && |was| == |d| && ps[i].fileOff + 8 <= |d|
    requires WordsIn(ps[..i], |d|)
    requires SameOutside(was, out, ps[i].fileOff, ps[i].fileOff + 8) && Word(out, ps[i].fileOff) == ps[i].addend
    requires forall k: nat :: k < |d| && !InWord(ps[..i], k) ==> was[k] == d[k]
    requires WordsApart(ps) ==> forall j: nat :: j < i ==> Word(was, ps[j].fileOff) == ps[j].addend
    ensures WordsIn(ps[..i + 1], |d|)
    ensures forall k: nat :: k < |d| && !InWord(ps[..i + 1], k) ==> out[k] == d[k]
    ensures WordsApart(ps) ==> forall j: nat :: j <= i ==> Word(out, ps[j].fileOff) == ps[j].addend
  {
    hide Word;
    forall k: nat | k < |d| && !InWord(ps[..i + 1], k)
      ensures out[k] == d[k]
    {
      assert ps[..i + 1][i].fileOff == ps[i].fileOff;
      if InWord(ps[..i], k) {
        InWordGrows(ps, i, k);
      }
    }
    if WordsApart(ps) {
      forall j: nat | j < i
        ensures Word(out, ps[j].fileOff) == ps[j].addend
      {
        assert ps[..i][j] == ps[j];
        WordKept(was, out, ps[i].fileOff, ps[i].fileOff + 8, ps[j].fileOff);
      }
    }
  }

  // ---- write_tables --------------------------------------------------------------

  predicate AllWords(ws: seq<nat>) { forall i: nat :: i < |ws| ==> ws[i] < M }

  lemma {:induction false} WordsKept(d: seq<byte>, out: seq<byte>, lo: nat, hi: nat, o: nat, n: nat)
    requires SameOutside(d, out, lo, hi) && o + n * WORD <= |d| && (o + n * WORD <= lo || hi <= o)
    ensures Words(out, o, n) == Words(d, o, n)
    decreases n
  {
    hide Word;
    if n > 0 {
      WordsKept(d, out, lo, hi, o, n - 1);
      WordKept(d, out, lo, hi, o + (n - 1) * WORD);
    }
  }

  lemma {:induction false} EntriesKept(d: seq<byte>, out: seq<byte>, lo: nat, hi: nat, o: nat, n: nat)
    requires SameOutside(d, out, lo, hi) && o + n * RELA_SIZE <= |d| && (o + n * RELA_SIZE <= lo || hi <= o)
    ensures Entries(out, o, n) == Entries(d, o, n)
    decreases n
  {
    hide RelaAt;
    if n > 0 {
      EntriesKept(d, out, lo, hi, o, n - 1);
      var at := o + (n - 1) * RELA_SIZE;
      assert out[at..at + RELA_SIZE] == d[at..at + RELA_SIZE];
      RelaSame(out, at, d, at);
    }
  }

  /**
   `[kept RELA][RELR]`, then zeros, over the old table.  Fails only when the
   tables outgrow the old one or that one leaves the file.
   */
  method WriteTables(d: seq<byte>, t: Table, keep: seq<byte>, words: seq<nat>) returns (r: Option<(seq<byte>, nat)>)
    requires AllWords(words)
    ensures r.Some? <==> |keep| + |words| * WORD <= t.size && t.off + t.size <= |d|
    ensures r.Some? ==>
      var out, end := r.value.0, r.value.1;
      && SameOutside(d, out, t.off, t.off + t.size)
      && end == t.off + |keep| + |words| * WORD
      && out[t.off..t.off + |keep|] == keep
      && Words(out, t.off + |keep|, |words|) == words
      && forall k: nat :: end <= k < t.off + t.size ==> out[k] == 0
  {
    hide Word;
    var relr := t.off + |keep|;
    var end := relr + |words| * WORD;
    var oldEnd := t.off + t.size;
    if end > oldEnd || relr > |d| {
      return None;
    }
    var out := Put(d, t.off, keep);
    for i := 0 to |words|
      invariant |out| == |d| && (i > 0 ==> relr + i * WORD <= |d|)
      invariant SameOutside(d, out, t.off, relr + i * WORD)
      invariant out[t.off..relr] == keep
      invariant Words(out, relr, i) == words[..i]
    {
      if relr + i * WORD + 8 > |out| {
        return None;
      }
      ghost var was := out;
      out := PutWord(out, relr + i * WORD, words[i]);
      assert out[t.off..relr] == was[t.off..relr];
      WordsKept(was, out, relr + i * WORD, relr + i * WORD + 8, relr, i);
      assert words[..i + 1] == words[..i] + [words[i]];
    }
    if oldEnd > |out| {
      return None;
    }
    ghost var was := out;
    out := Put(out, end, seq(oldEnd - end, i => 0));
    assert out[t.off..relr] == was[t.off..relr];
    WordsKept(was, out, end, oldEnd, relr, |words|);
    assert words[..|words|] == words;
    forall k: nat | end <= k < oldEnd
      ensures out[k] == 0
    {
      assert out[k] == out[end..oldEnd][k - end];
    }
    r := Some((out, end));
  }

  // ---- .dynamic ------------------------------------------------------------------

  const DYN_SIZE: nat := 16
  const DT_NULL: nat := 0
  const DT_RELA: nat := 7
  const DT_RELASZ: nat := 8
  const DT_RELAENT: nat := 9
  const DT_RELRSZ: nat := 35
  const DT_RELR: nat := 36
  const DT_RELRENT: nat := 37
  const DT_RELACOUNT: nat := 0x6fff_fff9

  type Tag = (nat, nat)

  /** The `.dynamic` array and its entries before the first DT_NULL. */
  datatype Dynamic = Dynamic(off: nat, addr: nat, slots: nat, tags: seq<Tag>)

  /** The entries a loader reads from slot `i` on. */
  function ReadTags(d: seq<byte>, off: nat, slots: nat, i: nat): seq<Tag>
    requires i <= slots && off + slots * DYN_SIZE <= |d|
    decreases slots - i
  {
    if i == slots || Word(d, off + i * DYN_SIZE) == DT_NULL then []
    else
      [(Word(d, off + i * DYN_SIZE), Word(d, off + i * DYN_SIZE + 8))] + ReadTags(d, off, slots, i + 1)
  }

  predicate RelaTag(k: nat) { k == DT_RELA || k == DT_RELASZ || k == DT_RELAENT || k == DT_RELACOUNT }

  /** The old entries, RELA ones resized, or dropped when no RELA entry remains. */
  function Resized(tags: seq<Tag>, keep: nat, lead: nat): (r: seq<Tag>)
    ensures |r| <= |tags|
  {
    if tags == [] then []
    else
      var (k, v) := tags[|tags| - 1];
      var init := Resized(tags[..|tags| - 1], keep, lead);
      if keep == 0 && RelaTag(k) then init
      else if k == DT_RELASZ then init + [(k, keep)]
      else if k == DT_RELACOUNT then init + [(k, lead)]
      else init + [(k, v)]
  }

  function NewTags(tags: seq<Tag>, addr: nat, keep: nat, lead: nat, words: nat): (r: seq<Tag>)
    ensures |r| <= |tags| + 3
  {
    Resized(tags, keep, lead) + [(DT_RELR, addr + keep), (DT_RELRSZ, words * WORD), (DT_RELRENT, WORD)]
  }

  /** The value of the first entry with key `k`. */
  function TagOf(tags: seq<Tag>, k: nat): Option<nat> {
    if tags == [] then None
    else if tags[0].0 == k then Some(tags[0].1)
    else TagOf(tags[1..], k)
  }

  lemma {:induction false} TagOfAppend(a: seq<Tag>, b: seq<Tag>, k: nat)
    ensures TagOf(a + b, k) == if TagOf(a, k).Some? then TagOf(a, k) else TagOf(b, k)
  {
    if a == [] { assert a + b == b; } else {
      assert (a + b)[1..] == a[1..] + b;
      TagOfAppend(a[1..], b, k);
    }
  }

  /** What a lookup finds among the resized entries. */
  function Found(was: Option<nat>, k: nat, keep: nat, lead: nat): Option<nat> {
    if was.None? || (keep == 0 && RelaTag(k)) then None
    else if k == DT_RELASZ then Some(keep)
    else if k == DT_RELACOUNT then Some(lead)
    else was
  }

  lemma {:induction false} ResizedFinds(tags: seq<Tag>, keep: nat, lead: nat, k: nat)
    ensures TagOf(Resized(tags, keep, lead), k) == Found(TagOf(tags, k), k, keep, lead)
  {
    if tags != [] {
      var init, last := tags[..|tags| - 1], tags[|tags| - 1];
      assert tags == init + [last];
      ResizedFinds(init, keep, lead, k);
      TagOfAppend(init, [last], k);
      var r := Resized(init, keep, lead);
      if keep == 0 && RelaTag(last.0) {
      } else if last.0 == DT_RELASZ {
        TagOfAppend(r, [(last.0, keep)], k);
      } else if last.0 == DT_RELACOUNT {
        TagOfAppend(r, [(last.0, lead)], k);
      } else {
        TagOfAppend(r, [last], k);
      }
    }
  }

  /**
   What a loader finds in the new entries: the RELR table right after the kept
   RELA bytes, RELA entries resized or gone, everything else as it was.
   */
  lemma LoaderFinds(tags: seq<Tag>, addr: nat, keep: nat, lead: nat, words: nat, k: nat)
    requires 35 <= k <= 37 ==> TagOf(tags, k).None?
    ensures TagOf(NewTags(tags, addr, keep, lead, words), k)
      == if k == 36 then Some(addr + keep)
         else if k == 35 then Some(8 * words)
         else if k == 37 then Some(8)
         else if TagOf(tags, k).None? || (keep == 0 && k in {7, 8, 9, 0x6fff_fff9}) then None
         else if k == 8 then Some(keep)
         else if k == 0x6fff_fff9 then Some(lead)
         else TagOf(tags, k)
  {
    hide TagOf, Resized;
    ResizedFinds(tags, keep, lead, k);
    var added: seq<Tag> := [(DT_RELR, addr + keep), (DT_RELRSZ, words * WORD), (DT_RELRENT, WORD)];
    TagOfAppend(Resized(tags, keep, lead), added, k);
    TagOfThree((DT_RELR, addr + keep), (DT_RELRSZ, words * WORD), (DT_RELRENT, WORD), k);
  }

  lemma TagOfThree(a: Tag, b: Tag, c: Tag, k: nat)
    ensures TagOf([a, b, c], k)
      == if a.0 == k then Some(a.1) else if b.0 == k then Some(b.1) else if c.0 == k then Some(c.1) else None
  {
    assert [a, b, c][1..] == [b, c] && [b, c][1..] == [c] && [c][1..] == [];
    assert TagOf([c], k) == if c.0 == k then Some(c.1) else None;
  }

  predicate TagsFit(tags: seq<Tag>) {
    forall i: nat :: i < |tags| ==> 0 < tags[i].0 < M && tags[i].1 < M
  }

  lemma {:induction false} ReadTagsFit(d: seq<byte>, off: nat, slots: nat, i: nat)
    requires i <= slots && off + slots * DYN_SIZE <= |d|
    ensures TagsFit(ReadTags(d, off, slots, i))
    decreases slots - i
  {
    if i < slots {
      ReadTagsFit(d, off, slots, i + 1);
      WordBound(d, off + i * DYN_SIZE);
      WordBound(d, off + i * DYN_SIZE + 8);
    }
  }

  lemma {:induction false} ResizedFits(tags: seq<Tag>, keep: nat, lead: nat)
    requires TagsFit(tags) && keep < M && lead < M
    ensures TagsFit(Resized(tags, keep, lead))
  {
    if tags != [] { ResizedFits(tags[..|tags| - 1], keep, lead); }
  }

  /** Slot `i` of the array holds `tags[i]`, or DT_NULL past the end. */
  function SlotOf(tags: seq<Tag>, i: nat): Tag { if i < |tags| then tags[i] else (DT_NULL, 0) }

  predicate SlotIs(d: seq<byte>, off: nat, i: nat, tag: Tag)
    requires off + i * DYN_SIZE + DYN_SIZE <= |d|
  {
    Word(d, off + 16 * i) == tag.0 && Word(d, off + 16 * i + 8) == tag.1
  }

  lemma {:induction false} TagsRead(d: seq<byte>, off: nat, slots: nat, tags: seq<Tag>, i: nat)
    requires i <= |tags| < slots && off + slots * DYN_SIZE <= |d| && TagsFit(tags)
    requires forall j: nat :: j < slots ==> SlotIs(d, off, j, SlotOf(tags, j))
    ensures ReadTags(d, off, slots, i) == tags[i..]
    decreases |tags| - i
  {
    hide Word;
    assert SlotIs(d, off, i, SlotOf(tags, i));
    if i < |tags| {
      TagsRead(d, off, slots, tags, i + 1);
      assert tags[i..] == [tags[i]] + tags[i + 1..];
    }
  }

  lemma SlotKept(d: seq<byte>, out: seq<byte>, off: nat, i: nat, j: nat, tag: Tag)
    requires j < i && off + i * DYN_SIZE + DYN_SIZE <= |d|
    requires SameOutside(d, out, off + i * DYN_SIZE, off + i * DYN_SIZE + DYN_SIZE)
    requires SlotIs(d, off, j, tag)
    ensures SlotIs(out, off, j, tag)
  {
    hide Word;
    WordKept(d, out, off + i * DYN_SIZE, off + i * DYN_SIZE + DYN_SIZE, off + j * DYN_SIZE);
    WordKept(d, out, off + i * DYN_SIZE, off + i * DYN_SIZE + DYN_SIZE, off + j * DYN_SIZE + 8);
  }

  /** Writes the entries and pads with DT_NULL: a loader reads them back. */
  method WriteDynamic(d: seq<byte>, off: nat, slots: nat, tags: seq<Tag>) returns (r: Option<seq<byte>>)
    requires TagsFit(tags) && |tags| < slots
    ensures r.Some? <==> off + slots * DYN_SIZE <= |d|
    ensures r.Some? ==> SameOutside(d, r.value, off, off + slots * DYN_SIZE) && ReadTags(r.value, off, slots, 0) == tags
  {
    hide Word;
    var out := d;
    for i := 0 to slots
      invariant |out| == |d| && (i > 0 ==> off + i * DYN_SIZE <= |d|)
      invariant SameOutside(d, out, off, off + i * DYN_SIZE)
      invariant forall j: nat :: j < i ==> off + j * DYN_SIZE + DYN_SIZE <= |out| && SlotIs(out, off, j, SlotOf(tags, j))
    {
      var at := off + i * DYN_SIZE;
      if at + 16 > |out| {
        return None;
      }
      ghost var was := out;
      out := PutWord(out, at, SlotOf(tags, i).0);
      ghost var mid := out;
      out := PutWord(out, at + 8, SlotOf(tags, i).1);
      WordKept(mid, out, at + 8, at + 16, at);
      forall j: nat | j < i
        ensures SlotIs(out, off, j, SlotOf(tags, j))
      {
        SlotKept(was, out, off, i, j, SlotOf(tags, j));
      }
    }
    TagsRead(out, off, slots, tags, 0);
    r := Some(out);
  }
}
