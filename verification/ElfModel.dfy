/**
 The ELF headers the RELR pass reads (src/format/elf/relr.rs:98-177, 515-531),
 and the memory image a loader builds from them.

 Header tables are taken as parsed values; their own bytes in the file are
 outside what is claimed about memory.
 */
module ElfModel {
  import opened Wrappers
  import opened Bytes

  const M: nat := 0x1_0000_0000_0000_0000
  const WORD: nat := 8
  const RELA_SIZE: nat := 24

  datatype Phdr = Phdr(load: bool, offset: nat, vaddr: nat, filesz: nat, memsz: nat, align: nat)

  datatype Shdr = Shdr(nobits: bool, offset: nat, size: nat)

  datatype Elf = Elf(phdrs: seq<Phdr>, shdrs: seq<Shdr>, phoff: nat, shoff: nat)

  /** The DT_RELA table: file offset, address, size, holding segment, section. */
  datatype Table = Table(off: nat, addr: nat, size: nat, seg: nat, sec: Option<nat>)

  /** A relocation entry. */
  datatype Rela = Rela(rOff: nat, info: nat, addend: nat)

  /** The segment holds `[addr, addr + len)` in its file-backed part. */
  predicate Holds(p: Phdr, addr: nat, len: nat) {
    p.load && p.vaddr <= addr && addr + len <= p.vaddr + p.filesz
  }

  /** File offset `off` backs address `addr` through segment `i`. */
  predicate InSegment(phdrs: seq<Phdr>, i: nat, off: nat, addr: nat, len: nat) {
    i < |phdrs| && Holds(phdrs[i], addr, len) && off == phdrs[i].offset + (addr - phdrs[i].vaddr)
  }

  /** `load_range`: the first PT_LOAD holding a range, and its file offset. */
  function LoadRange(phdrs: seq<Phdr>, addr: nat, len: nat, i: nat): (r: Option<(nat, nat)>)
    ensures r.Some? ==> InSegment(phdrs, r.value.0, r.value.1, addr, len) && i <= r.value.0 && addr + len < M
    decreases |phdrs| - i
  {
    if i >= |phdrs| || addr + len >= M then None
    else if Holds(phdrs[i], addr, len) then Some((i, phdrs[i].offset + (addr - phdrs[i].vaddr)))
    else LoadRange(phdrs, addr, len, i + 1)
  }

  /** The range lies in the bytes segment `i` takes from the file, and in no earlier one's. */
  predicate FirstHolder(phdrs: seq<Phdr>, addr: nat, len: nat, i: nat) {
    && i < |phdrs| && phdrs[i].load && phdrs[i].vaddr <= addr && addr + len <= phdrs[i].vaddr + phdrs[i].filesz
    && forall j: nat :: j < i ==> !(phdrs[j].load && phdrs[j].vaddr <= addr && addr + len <= phdrs[j].vaddr + phdrs[j].filesz)
  }

  lemma {:induction false} LoadRangeFrom(phdrs: seq<Phdr>, addr: nat, len: nat, k: nat, i: nat, off: nat)
    requires forall j: nat :: j < k && j < |phdrs| ==> !Holds(phdrs[j], addr, len)
    ensures LoadRange(phdrs, addr, len, k) == Some((i, off))
       <==> addr + len < 0x1_0000_0000_0000_0000 && FirstHolder(phdrs, addr, len, i) && off == phdrs[i].offset + (addr - phdrs[i].vaddr)
    decreases |phdrs| - k
  {
    if k < |phdrs| && !Holds(phdrs[k], addr, len) { LoadRangeFrom(phdrs, addr, len, k + 1, i, off); }
  }

  /** A range is found exactly in the first PT_LOAD with file bytes for all of it. */
  lemma LoadRangeExact(phdrs: seq<Phdr>, addr: nat, len: nat, i: nat, off: nat)
    ensures LoadRange(phdrs, addr, len, 0) == Some((i, off))
       <==> addr + len < 0x1_0000_0000_0000_0000 && FirstHolder(phdrs, addr, len, i) && off == phdrs[i].offset + (addr - phdrs[i].vaddr)
  {
    LoadRangeFrom(phdrs, addr, len, 0, i, off);
  }

  /** And some segment is found exactly when one has them. */
  lemma {:induction false} LoadRangeFinds(phdrs: seq<Phdr>, addr: nat, len: nat, k: nat)
    ensures LoadRange(phdrs, addr, len, k).Some? <==>
      && addr + len < 0x1_0000_0000_0000_0000
      && exists j: nat :: k <= j < |phdrs| && phdrs[j].load && phdrs[j].vaddr <= addr && addr + len <= phdrs[j].vaddr + phdrs[j].filesz
    decreases |phdrs| - k
  {
    if k < |phdrs| && !Holds(phdrs[k], addr, len) { LoadRangeFinds(phdrs, addr, len, k + 1); }
  }

  /** No two PT_LOADs share an address or a file byte, and all lie in the file. */
  ghost predicate Apart(phdrs: seq<Phdr>, fileLen: nat) {
    && (forall i: nat :: i < |phdrs| && phdrs[i].load ==> InFile(phdrs[i], fileLen))
    && (forall i: nat, j: nat :: i < |phdrs| && j < |phdrs| && i != j && phdrs[i].load && phdrs[j].load
          ==> Disjoint(phdrs[i], phdrs[j]))
  }

  predicate InFile(p: Phdr, fileLen: nat) {
    p.offset + p.filesz <= fileLen && p.filesz <= p.memsz && p.vaddr + p.memsz < M
  }

  predicate Disjoint(p: Phdr, q: Phdr) {
    && (p.vaddr + p.memsz <= q.vaddr || q.vaddr + q.memsz <= p.vaddr)
    && (p.offset + p.filesz <= q.offset || q.offset + q.filesz <= p.offset)
  }

  /** The loaded byte at `v` comes from segment `i`. */
  predicate From(phdrs: seq<Phdr>, i: nat, v: nat) { i < |phdrs| && Holds(phdrs[i], v, 1) }

  /** The file offset backing address `v` through segment `i`. */
  function OffsetIn(phdrs: seq<Phdr>, i: nat, v: nat): nat
    requires From(phdrs, i, v)
  {
    phdrs[i].offset + (v - phdrs[i].vaddr)
  }

  lemma OneSegment(phdrs: seq<Phdr>, n: nat, i: nat, j: nat, v: nat)
    requires Apart(phdrs, n) && From(phdrs, i, v) && From(phdrs, j, v)
    ensures i == j
  {
  }

  /** Different addresses are backed by different file bytes. */
  lemma OffsetsDiffer(phdrs: seq<Phdr>, n: nat, i: nat, v: nat, j: nat, w: nat)
    requires Apart(phdrs, n) && From(phdrs, i, v) && From(phdrs, j, w) && v != w
    ensures OffsetIn(phdrs, i, v) != OffsetIn(phdrs, j, w)
  {
    if i != j { assert Disjoint(phdrs[i], phdrs[j]); }
  }

  /** The 8-byte little-endian number at file offset `o`. */
  function Word(data: seq<byte>, o: nat): nat
    requires o + 8 <= |data|
  {
    LeValue(data[o..o + 8])
  }

  function RelaAt(data: seq<byte>, o: nat): Rela
    requires o + RELA_SIZE <= |data|
  {
    Rela(Word(data, o), Word(data, o + 8), Word(data, o + 16))
  }

  /** The entries of the `n` relocations stored from file offset `o`. */
  function Entries(data: seq<byte>, o: nat, n: nat): (r: seq<Rela>)
    requires o + n * RELA_SIZE <= |data|
    ensures |r| == n
    decreases n
  {
    if n == 0 then [] else Entries(data, o, n - 1) + [RelaAt(data, o + (n - 1) * RELA_SIZE)]
  }

  function Words(data: seq<byte>, o: nat, n: nat): (r: seq<nat>)
    requires o + n * WORD <= |data|
    ensures |r| == n
    decreases n
  {
    if n == 0 then [] else Words(data, o, n - 1) + [Word(data, o + (n - 1) * WORD)]
  }
}
