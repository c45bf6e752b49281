/**
 Locating .NET MethodTables in rebuilt (hydrated) memory
 (src/format/elf/nativeaot.rs:735-782, 949-1006).
 */
module MethodTables {
  import opened Wrappers
  import opened Bytes

  /** A pointer written: address, width, target. */
  datatype Write = Write(addr: nat, width: nat, target: nat)

  /** Rebuilt bytes at `base` (pointer slots hold zero) and the pointers written, by address. */
  datatype Hydrated = Hydrated(base: nat, bytes: seq<byte>, writes: seq<Write>)

  const MT_FIXED: nat := 24
  const MT_MAX_SLOTS: nat := 131070

  /** Sorted writes that do not overlap, as replaying the commands leaves them. */
  ghost predicate Valid(hyd: Hydrated) {
    && (forall i: nat :: i < |hyd.writes| ==> hyd.writes[i].width > 0)
    && forall i: nat, j: nat :: i < j < |hyd.writes| ==> hyd.writes[i].addr + hyd.writes[i].width <= hyd.writes[j].addr
  }

  // ---- Rebuilding ------------------------------------------------------------------

  const CMD_COPY: nat := 0
  const CMD_ZERO_FILL: nat := 1
  const CMD_RELPTR32_RELOC: nat := 2
  const CMD_PTR_RELOC: nat := 3
  const CMD_INLINE_RELPTR32_RELOC: nat := 4
  const CMD_INLINE_PTR_RELOC: nat := 5
  const MAX_SHORT_PAYLOAD: nat := 28

  /** The command at `p`: its code, its payload and where the next bytes are. */
  function DecodeCommand(s: seq<byte>, p: nat): (r: Option<(nat, nat, nat)>)
    ensures r.Some? ==> p < r.value.2 <= |s|
  {
    if p >= |s| then None
    else
      var short := s[p] / 8;
      if short <= MAX_SHORT_PAYLOAD then Some((s[p] % 8, short, p + 1))
      else
        var extra := short - MAX_SHORT_PAYLOAD;
        if p + 1 + extra > |s| then None
        else Some((s[p] % 8, LeValue(s[p + 1..p + 1 + extra]) + MAX_SHORT_PAYLOAD, p + 1 + extra))
  }

  /** Bytes a command writes. */
  function CommandOutput(cmd: nat, payload: nat): Option<nat> {
    if cmd == CMD_COPY || cmd == CMD_ZERO_FILL then Some(payload)
    else if cmd == CMD_RELPTR32_RELOC then Some(4)
    else if cmd == CMD_PTR_RELOC then Some(8)
    else if cmd == CMD_INLINE_RELPTR32_RELOC && payload > 0 then Some(4 * payload)
    else if cmd == CMD_INLINE_PTR_RELOC && payload > 0 then Some(8 * payload)
    else None
  }

  function Zeros(n: nat): (r: seq<byte>)
    ensures |r| == n && forall i: nat :: i < n ==> r[i] == 0
  {
    seq(n, i => 0)
  }

  /** The slot of `w` lies in the rebuilt bytes and holds zero there. */
  predicate ZeroSlot(base: nat, bytes: seq<byte>, w: Write) {
    && 0 < w.width && base <= w.addr && w.addr + w.width <= base + |bytes|
    && forall k: nat :: w.addr <= base + k < w.addr + w.width && k < |bytes| ==> bytes[k] == 0
  }

  predicate Separate(a: Write, b: Write) { a.addr + a.width <= b.addr || b.addr + b.width <= a.addr }

  /** Slots that hold zero and do not overlap. */
  ghost predicate LaidOut(base: nat, bytes: seq<byte>, ws: seq<Write>) {
    && (forall i: nat :: i < |ws| ==> ZeroSlot(base, bytes, ws[i]))
    && forall i: nat, j: nat :: i < j < |ws| ==> Separate(ws[i], ws[j])
  }

  lemma SlotStays(base: nat, bytes: seq<byte>, more: seq<byte>, w: Write)
    requires ZeroSlot(base, bytes, w)
    ensures ZeroSlot(base, bytes + more, w)
  {
    forall k: nat | w.addr <= base + k < w.addr + w.width
      ensures (bytes + more)[k] == 0
    {
      assert bytes[k] == 0;
    }
  }

  lemma LaidOutGrows(base: nat, bytes: seq<byte>, more: seq<byte>, ws: seq<Write>)
    requires LaidOut(base, bytes, ws)
    ensures LaidOut(base, bytes + more, ws)
  {
    forall i: nat | i < |ws|
      ensures ZeroSlot(base, bytes + more, ws[i])
    {
      SlotStays(base, bytes, more, ws[i]);
    }
  }

  /** A new slot of zeros at the end of the bytes. */
  lemma SlotAdded(base: nat, bytes: seq<byte>, width: nat, target: nat, ws: seq<Write>)
    requires LaidOut(base, bytes, ws) && width > 0
    ensures LaidOut(base, bytes + Zeros(width), ws + [Write(base + |bytes|, width, target)])
  {
    hide ZeroSlot;
    LaidOutGrows(base, bytes, Zeros(width), ws);
    var w := Write(base + |bytes|, width, target);
    NewSlot(base, bytes, w);
    forall i: nat | i < |ws|
      ensures Separate(ws[i], w)
    {
      SlotEnds(base, bytes, ws[i]);
    }
  }

  lemma NewSlot(base: nat, bytes: seq<byte>, w: Write)
    requires w.addr == base + |bytes| && w.width > 0
    ensures ZeroSlot(base, bytes + Zeros(w.width), w)
  {
  }

  lemma SlotEnds(base: nat, bytes: seq<byte>, w: Write)
    requires ZeroSlot(base, bytes, w)
    ensures w.addr + w.width <= base + |bytes|
  {
  }

  /** A fixup use holds its index as `target` until the fixup table is read. */
  type Reader = nat -> Option<nat>

  /** Rebuilt bytes, the slots whose target is known, and the fixup slots. */
  datatype Built = Built(bytes: seq<byte>, writes: seq<Write>, uses: seq<Write>)

  function AddBytes(b: Built, more: seq<byte>): Built { b.(bytes := b.bytes + more) }

  /** A zeroed slot at the end, for a pointer to `target`. */
  function AddWrite(b: Built, base: nat, width: nat, target: nat): Built {
    AddBytes(b, Zeros(width)).(writes := b.writes + [Write(base + |b.bytes|, width, target)])
  }

  /** A zeroed slot at the end, for fixup `idx`. */
  function AddUse(b: Built, base: nat, width: nat, idx: nat): Built {
    AddBytes(b, Zeros(width)).(uses := b.uses + [Write(base + |b.bytes|, width, idx)])
  }

  /** `n` inline pointers, read one after the other from image address `loc` on. */
  function Inlined(b: Built, base: nat, loc: nat, n: nat, width: nat, relptr: Reader): Option<Built>
    decreases n
  {
    if n == 0 then Some(b)
    else
      match relptr(loc)
      case None => None
      case Some(t) => Inlined(AddWrite(b, base, width, t), base, loc + 4, n - 1, width, relptr)
  }

  function InlineWidth(cmd: nat): nat { if cmd == CMD_INLINE_PTR_RELOC then 8 else 4 }

  /** What the commands from `p` on make of `b`; the stream lies at image address `at`. */
  function Replayed(stream: seq<byte>, p: nat, b: Built, base: nat, room: nat, at: nat, relptr: Reader): Option<Built>
    decreases |stream| - p
  {
    if p >= |stream| then (if p == |stream| then Some(b) else None)
    else
      match DecodeCommand(stream, p)
      case None => None
      case Some((cmd, payload, next)) =>
        var size := CommandOutput(cmd, payload);
        if size.None? || |b.bytes| + size.value > room then None
        else if cmd == CMD_COPY then
          if next + payload > |stream| then None
          else Replayed(stream, next + payload, AddBytes(b, stream[next..next + payload]), base, room, at, relptr)
        else if cmd == CMD_ZERO_FILL then
          Replayed(stream, next, AddBytes(b, Zeros(payload)), base, room, at, relptr)
        else if cmd == CMD_RELPTR32_RELOC || cmd == CMD_PTR_RELOC then
          Replayed(stream, next, AddUse(b, base, size.value, payload), base, room, at, relptr)
        else
          match Inlined(b, base, at + next, payload, InlineWidth(cmd), relptr)
          case None => None
          case Some(b2) => Replayed(stream, next + 4 * payload, b2, base, room, at, relptr)
  }

  /** `run_commands`: replays the stream, over slots that hold zero and do not overlap. */
  method RunCommands(stream: seq<byte>, base: nat, room: nat, at: nat, relptr: Reader) returns (r: Option<Built>)
    ensures r == Replayed(stream, 0, Built([], [], []), base, room, at, relptr)
    ensures r.Some? ==> LaidOut(base, r.value.bytes, r.value.writes + r.value.uses) && |r.value.bytes| <= room
  {
    hide LaidOut, Inlined, DecodeCommand, ZeroSlot;
    var b := Built([], [], []);
    var p := 0;
    NothingLaid(base);
    while p < |stream|
      invariant LaidOut(base, b.bytes, b.writes + b.uses) && |b.bytes| <= room
      invariant Replayed(stream, 0, Built([], [], []), base, room, at, relptr) == Replayed(stream, p, b, base, room, at, relptr)
      decreases |stream| - p
    {
      var c := DecodeCommand(stream, p);
      if c.None? {
        return None;
      }
      var (cmd, payload, next) := c.value;
      var size := CommandOutput(cmd, payload);
      if size.None? || |b.bytes| + size.value > room {
        return None;
      }
      p := next;
      if cmd == CMD_COPY {
        if p + payload > |stream| {
          return None;
        }
        LaidOutGrows(base, b.bytes, stream[p..p + payload], b.writes + b.uses);
        b := AddBytes(b, stream[p..p + payload]);
        p := p + payload;
      } else if cmd == CMD_ZERO_FILL {
        LaidOutGrows(base, b.bytes, Zeros(payload), b.writes + b.uses);
        b := AddBytes(b, Zeros(payload));
      } else if cmd == CMD_RELPTR32_RELOC || cmd == CMD_PTR_RELOC {
        UseAdded(base, b, size.value, payload);
        b := AddUse(b, base, size.value, payload);
      } else {
        var inlined := InlineRun(base, b, at + p, payload, InlineWidth(cmd), relptr);
        if inlined.None? {
          return None;
        }
        b := inlined.value;
        p := p + 4 * payload;
      }
    }
    r := if p == |stream| then Some(b) else None;
  }

  lemma NothingLaid(base: nat)
    ensures LaidOut(base, [], [] + [])
  {
  }

  lemma UseAdded(base: nat, b: Built, width: nat, idx: nat)
    requires LaidOut(base, b.bytes, b.writes + b.uses) && width > 0
    ensures var n := AddUse(b, base, width, idx); LaidOut(base, n.bytes, n.writes + n.uses)
  {
    hide LaidOut;
    SlotAdded(base, b.bytes, width, idx, b.writes + b.uses);
    var w := Write(base + |b.bytes|, width, idx);
    assert b.writes + b.uses + [w] == b.writes + (b.uses + [w]);
  }

  lemma WriteAdded(base: nat, b: Built, width: nat, target: nat)
    requires LaidOut(base, b.bytes, b.writes + b.uses) && width > 0
    ensures var n := AddWrite(b, base, width, target); LaidOut(base, n.bytes, n.writes + n.uses)
  {
    hide LaidOut;
    SlotAdded(base, b.bytes, width, target, b.writes + b.uses);
    LaidOutOrder(base, b.bytes + Zeros(width), b.writes, b.uses, Write(base + |b.bytes|, width, target));
  }

  /** The inline pointers of one command. */
  method InlineRun(base: nat, b0: Built, loc: nat, payload: nat, width: nat, relptr: Reader) returns (r: Option<Built>)
    requires LaidOut(base, b0.bytes, b0.writes + b0.uses) && width > 0
    ensures r == Inlined(b0, base, loc, payload, width, relptr)
    ensures r.Some? ==> LaidOut(base, r.value.bytes, r.value.writes + r.value.uses)
    ensures r.Some? ==> |r.value.bytes| == |b0.bytes| + width * payload
  {
    hide LaidOut;
    var b := b0;
    for i := 0 to payload
      invariant LaidOut(base, b.bytes, b.writes + b.uses) && |b.bytes| == |b0.bytes| + width * i
      invariant Inlined(b0, base, loc, payload, width, relptr) == Inlined(b, base, loc + 4 * i, payload - i, width, relptr)
    {
      var t := relptr(loc + 4 * i);
      if t.None? {
        return None;
      }
      WriteAdded(base, b, width, t.value);
      b := AddWrite(b, base, width, t.value);
    }
    r := Some(b);
  }

  lemma LaidOutOrder(base: nat, bytes: seq<byte>, writes: seq<Write>, uses: seq<Write>, w: Write)
    requires LaidOut(base, bytes, writes + uses + [w])
    ensures LaidOut(base, bytes, writes + [w] + uses)
  {
    hide ZeroSlot;
    var a, b := writes + uses + [w], writes + [w] + uses;
    forall i: nat | i < |b|
      ensures ZeroSlot(base, bytes, b[i])
    {
      assert b[i] == a[if i < |writes| then i else if i == |writes| then |a| - 1 else i - 1];
    }
    forall i: nat, j: nat | i < j < |b|
      ensures Separate(b[i], b[j])
    {
      assert b[i] == a[if i < |writes| then i else if i == |writes| then |a| - 1 else i - 1];
      assert b[j] == a[if j < |writes| then j else if j == |writes| then |a| - 1 else j - 1];
    }
  }

  /** Insertion by address: the library sort of the writes. */
  function InsertWrite(ws: seq<Write>, w: Write): (r: seq<Write>)
    ensures multiset(r) == multiset(ws) + multiset{w}
  {
    if ws == [] || ws[|ws| - 1].addr <= w.addr then ws + [w]
    else
      assert ws == ws[..|ws| - 1] + [ws[|ws| - 1]];
      InsertWrite(ws[..|ws| - 1], w) + [ws[|ws| - 1]]
  }

  function SortWrites(ws: seq<Write>): (r: seq<Write>)
    ensures multiset(r) == multiset(ws)
  {
    if ws == [] then []
    else
      assert ws == ws[..|ws| - 1] + [ws[|ws| - 1]];
      InsertWrite(SortWrites(ws[..|ws| - 1]), ws[|ws| - 1])
  }

  ghost predicate InOrder(ws: seq<Write>) {
    && (forall i: nat :: i < |ws| ==> ws[i].width > 0)
    && forall i: nat, j: nat :: i < j < |ws| ==> ws[i].addr + ws[i].width <= ws[j].addr
  }

  lemma {:induction false} InsertInOrder(ws: seq<Write>, w: Write)
    requires InOrder(ws) && w.width > 0 && forall x :: x in ws ==> Separate(x, w)
    ensures InOrder(InsertWrite(ws, w))
  {
    if ws == [] { return; }
    var k := |ws| - 1;
    assert Separate(ws[k], w);
    if ws[k].addr <= w.addr {
      forall i: nat | i <= k
        ensures ws[i].addr + ws[i].width <= w.addr
      {
        if i < k { assert ws[i].addr + ws[i].width <= ws[k].addr; }
      }
      InOrderSnoc(ws, w);
    } else {
      var r := InsertWrite(ws[..k], w);
      InsertInOrder(ws[..k], w);
      forall i: nat | i < |r|
        ensures r[i].addr + r[i].width <= ws[k].addr
      {
        assert r[i] in multiset(r);
        if r[i] != w { assert r[i] in ws[..k]; }
      }
      InOrderSnoc(r, ws[k]);
    }
  }

  lemma InOrderSnoc(ws: seq<Write>, w: Write)
    requires InOrder(ws) && w.width > 0 && forall i: nat :: i < |ws| ==> ws[i].addr + ws[i].width <= w.addr
    ensures InOrder(ws + [w])
  {
  }

  lemma {:induction false} SortInOrder(base: nat, bytes: seq<byte>, ws: seq<Write>)
    requires LaidOut(base, bytes, ws)
    ensures InOrder(SortWrites(ws))
  {
    if ws != [] {
      var k := |ws| - 1;
      SortInOrder(base, bytes, ws[..k]);
      assert ZeroSlot(base, bytes, ws[k]);
      forall x | x in SortWrites(ws[..k])
        ensures Separate(x, ws[k])
      {
        assert x in multiset(SortWrites(ws[..k]));
        var i: nat :| i < k && ws[i] == x;
      }
      InsertInOrder(SortWrites(ws[..k]), ws[k]);
    }
  }

  lemma SortedZero(base: nat, bytes: seq<byte>, ws: seq<Write>)
    requires LaidOut(base, bytes, ws)
    ensures forall i: nat :: i < |ws| ==> |SortWrites(ws)| == |ws| && ZeroSlot(base, bytes, SortWrites(ws)[i])
  {
    hide ZeroSlot;
    var r := SortWrites(ws);
    assert |multiset(r)| == |multiset(ws)|;
    forall i: nat | i < |ws|
      ensures ZeroSlot(base, bytes, r[i])
    {
      assert r[i] in multiset(r);
      var k: nat :| k < |ws| && ws[k] == r[i];
    }
  }

  /** How many fixup table entries the uses require. */
  function TableSize(uses: seq<Write>): (r: nat)
    ensures forall i: nat :: i < |uses| ==> uses[i].target < r
    ensures if uses == [] then r == 0 else exists i: nat :: i < |uses| && r == uses[i].target + 1
  {
    if uses == [] then 0
    else
      var r, k := TableSize(uses[..|uses| - 1]), uses[|uses| - 1].target;
      if k < r then r else k + 1
  }

  /** The uses with the targets `table` holds for their indexes. */
  function Targeted(uses: seq<Write>, targets: seq<nat>): (r: seq<Write>)
    requires forall i: nat :: i < |uses| ==> uses[i].target < |targets|
    ensures |r| == |uses| && forall i: nat :: i < |uses| ==> r[i] == uses[i].(target := targets[uses[i].target])
  {
    seq(|uses|, i requires 0 <= i < |uses| => uses[i].(target := targets[uses[i].target]))
  }

  /** Entry `i` of the fixup table. */
  function Entry(relptr: Reader, table: nat, i: nat): Option<nat> { relptr(table + 4 * i) }

  /** `resolve_fixups`: read the table, all of it that is required, and fill the uses in. */
  method ResolveFixups(uses: seq<Write>, table: nat, relptr: Reader) returns (r: Option<seq<Write>>, ghost targets: seq<nat>)
    ensures r.Some? <==> forall i: nat :: i < TableSize(uses) ==> Entry(relptr, table, i).Some?
    ensures r.Some? ==> |targets| == TableSize(uses) && r.value == Targeted(uses, targets)
    ensures r.Some? ==> forall i: nat :: i < |targets| ==> Entry(relptr, table, i) == Some(targets[i])
  {
    var read: seq<nat> := [];
    targets := [];
    for i := 0 to TableSize(uses)
      invariant |read| == i && forall k: nat :: k < i ==> Entry(relptr, table, k) == Some(read[k])
    {
      var t := relptr(table + 4 * i);
      assert t == Entry(relptr, table, i);
      if t.None? {
        return None, targets;
      }
      read := read + [t.value];
    }
    targets := read;
    r := Some(Targeted(uses, read));
  }

  lemma Retargeted(base: nat, bytes: seq<byte>, writes: seq<Write>, uses: seq<Write>, fixed: seq<Write>)
    requires LaidOut(base, bytes, writes + uses) && |fixed| == |uses|
    requires forall i: nat :: i < |uses| ==> fixed[i].addr == uses[i].addr && fixed[i].width == uses[i].width
    ensures LaidOut(base, bytes, writes + fixed)
  {
    hide ZeroSlot;
    var a, b := writes + uses, writes + fixed;
    forall i: nat | i < |b|
      ensures b[i].addr == a[i].addr && b[i].width == a[i].width && ZeroSlot(base, bytes, b[i])
    {
      SameSlot(base, bytes, a[i], b[i]);
    }
  }

  lemma SameSlot(base: nat, bytes: seq<byte>, a: Write, b: Write)
    requires ZeroSlot(base, bytes, a) && a.addr == b.addr && a.width == b.width
    ensures ZeroSlot(base, bytes, b)
  {
  }

  /** The rebuilt memory: the replayed bytes, and every slot with its target, sorted. */
  ghost predicate Hydrates(b: Built, targets: seq<nat>, hyd: Hydrated) {
    && |targets| == TableSize(b.uses) && hyd.bytes == b.bytes
    && multiset(hyd.writes) == multiset(b.writes + Targeted(b.uses, targets))
  }

  /**
   `dehydrate`: succeeds exactly when the stream replays and the fixup table reads;
   the writes come out sorted and disjoint, over slots that hold zero.
   */
  method Dehydrate(stream: seq<byte>, base: nat, room: nat, at: nat, table: nat, relptr: Reader)
    returns (r: Option<Hydrated>, ghost targets: seq<nat>)
    ensures var b := Replayed(stream, 0, Built([], [], []), base, room, at, relptr);
      && (r.Some? <==> b.Some? && forall i: nat :: i < TableSize(b.value.uses) ==> Entry(relptr, table, i).Some?)
      && (r.Some? ==> Hydrates(b.value, targets, r.value) && r.value.base == base)
    ensures r.Some? ==> forall i: nat :: i < |targets| ==> Entry(relptr, table, i) == Some(targets[i])
    ensures r.Some? ==> Valid(r.value) && |r.value.bytes| <= room
    ensures r.Some? ==> forall i: nat :: i < |r.value.writes| ==> ZeroSlot(base, r.value.bytes, r.value.writes[i])
  {
    hide Replayed;
    var built := RunCommands(stream, base, room, at, relptr);
    targets := [];
    if built.None? {
      return None, targets;
    }
    var b := built.value;
    var fixed;
    fixed, targets := ResolveFixups(b.uses, table, relptr);
    if fixed.None? {
      return None, targets;
    }
    Retargeted(base, b.bytes, b.writes, b.uses, fixed.value);
    var all := b.writes + fixed.value;
    SortInOrder(base, b.bytes, all);
    SortedZero(base, b.bytes, all);
    assert |multiset(SortWrites(all))| == |multiset(all)|;
    r := Some(Hydrated(base, b.bytes, SortWrites(all)));
  }

  // ---- Accessors -------------------------------------------------------------------

  /** Little-endian integer of `n` bytes at `addr`. */
  function Uint(hyd: Hydrated, addr: int, n: nat): Option<nat> {
    if addr < hyd.base || addr - hyd.base + n > |hyd.bytes| then None
    else Some(LeValue(hyd.bytes[addr - hyd.base..addr - hyd.base + n]))
  }

  /** The number is the one with those bytes, lowest first, if they were rebuilt. */
  lemma UintExact(hyd: Hydrated, addr: int, n: nat, v: nat)
    ensures Uint(hyd, addr, n) == Some(v) <==>
      && hyd.base <= addr && addr + n <= hyd.base + |hyd.bytes| && v < Pow256(n)
      && forall k: nat :: k < n ==> hyd.bytes[addr - hyd.base + k] == Digit(v, k)
  {
    hide LeValue, Pow256, Digit;
    if hyd.base <= addr && addr + n <= hyd.base + |hyd.bytes| {
      ValueExact(hyd.bytes[addr - hyd.base..addr - hyd.base + n], v);
    }
  }

  lemma UintBound(hyd: Hydrated, addr: int)
    ensures Uint(hyd, addr, 2).Some? ==> Uint(hyd, addr, 2).value < 0x1_0000
  {
    if Uint(hyd, addr, 2).Some? {
      ValueBound(hyd.bytes[addr - hyd.base..addr - hyd.base + 2], false);
      assert Pow256(2) == 0x1_0000;
    }
  }

  /** `binary_search_by_key` on the write addresses. */
  function Search(ws: seq<Write>, addr: int, lo: nat, hi: nat): (r: Option<nat>)
    requires lo <= hi <= |ws|
    ensures r.Some? ==> lo <= r.value < hi && ws[r.value].addr == addr
    decreases hi - lo
  {
    if lo == hi then None
    else
      var mid := (lo + hi) / 2;
      if ws[mid].addr == addr then Some(mid)
      else if ws[mid].addr < addr then Search(ws, addr, mid + 1, hi)
      else Search(ws, addr, lo, mid)
  }

  /** The write starting exactly at `addr`. */
  function WriteAt(hyd: Hydrated, addr: int): Option<Write> {
    var i := Search(hyd.writes, addr, 0, |hyd.writes|);
    if i.None? then None else Some(hyd.writes[i.value])
  }

  lemma {:induction false} SearchFinds(hyd: Hydrated, addr: int, lo: nat, hi: nat, k: nat)
    requires Valid(hyd) && lo <= k < hi <= |hyd.writes| && hyd.writes[k].addr == addr
    ensures Search(hyd.writes, addr, lo, hi) == Some(k)
    decreases hi - lo
  {
    var mid := (lo + hi) / 2;
    if mid < k {
      assert hyd.writes[mid].addr + hyd.writes[mid].width <= hyd.writes[k].addr;
      SearchFinds(hyd, addr, mid + 1, hi, k);
    } else if k < mid {
      assert hyd.writes[k].addr + hyd.writes[k].width <= hyd.writes[mid].addr;
      SearchFinds(hyd, addr, lo, mid, k);
    }
  }

  /** The search finds a write exactly when one starts there. */
  lemma WriteAtExact(hyd: Hydrated, addr: int, w: Write)
    requires Valid(hyd)
    ensures WriteAt(hyd, addr) == Some(w) <==> w in hyd.writes && w.addr == addr
  {
    if w in hyd.writes && w.addr == addr {
      var k: nat :| k < |hyd.writes| && hyd.writes[k] == w;
      SearchFinds(hyd, addr, 0, |hyd.writes|, k);
    }
  }

  /** `partition_point` for writes ending at or below `addr`, by bisection. */
  function PartitionPoint(ws: seq<Write>, addr: int, lo: nat, hi: nat): (r: nat)
    requires lo <= hi <= |ws|
    ensures lo <= r <= hi
    decreases hi - lo
  {
    if lo == hi then lo
    else
      var mid := (lo + hi) / 2;
      if ws[mid].addr + ws[mid].width <= addr then PartitionPoint(ws, addr, mid + 1, hi)
      else PartitionPoint(ws, addr, lo, mid)
  }

  lemma {:induction false} PartitionSplits(hyd: Hydrated, addr: int, lo: nat, hi: nat, k: nat)
    requires Valid(hyd) && lo <= k < hi <= |hyd.writes|
    ensures k < PartitionPoint(hyd.writes, addr, lo, hi) <==> hyd.writes[k].addr + hyd.writes[k].width <= addr
    decreases hi - lo
  {
    var mid := (lo + hi) / 2;
    if hyd.writes[mid].addr + hyd.writes[mid].width <= addr {
      if k > mid { PartitionSplits(hyd, addr, mid + 1, hi, k); }
      else if k < mid { assert hyd.writes[k].addr + hyd.writes[k].width <= hyd.writes[mid].addr; }
    } else {
      if k < mid { PartitionSplits(hyd, addr, lo, mid, k); }
      else if k > mid { assert hyd.writes[mid].addr + hyd.writes[mid].width <= hyd.writes[k].addr; }
    }
  }

  /** No write overlaps `[addr, addr + n)`. */
  predicate Plain(hyd: Hydrated, addr: int, n: nat) {
    var i := PartitionPoint(hyd.writes, addr, 0, |hyd.writes|);
    i < |hyd.writes| ==> hyd.writes[i].addr >= addr + n
  }

  predicate Overlaps(w: Write, addr: int, n: nat) { w.addr < addr + n && addr < w.addr + w.width }

  /** One probe tells whether any write overlaps. */
  lemma PlainExact(hyd: Hydrated, addr: int, n: nat)
    requires Valid(hyd)
    ensures Plain(hyd, addr, n) <==> forall i: nat :: i < |hyd.writes| ==> !Overlaps(hyd.writes[i], addr, n)
  {
    var p := PartitionPoint(hyd.writes, addr, 0, |hyd.writes|);
    forall k: nat | k < |hyd.writes|
      ensures k < p <==> hyd.writes[k].addr + hyd.writes[k].width <= addr
    {
      PartitionSplits(hyd, addr, 0, |hyd.writes|, k);
    }
    if p < |hyd.writes| && hyd.writes[p].addr < addr + n {
      assert Overlaps(hyd.writes[p], addr, n);
    }
    forall k: nat | k < |hyd.writes| && Plain(hyd, addr, n)
      ensures !Overlaps(hyd.writes[k], addr, n)
    {
      if p < k { assert hyd.writes[p].addr + hyd.writes[p].width <= hyd.writes[k].addr; }
    }
  }

  /** The 8 bytes at `addr` are a pointer written there, or plain zero. */
  predicate PtrOrNull(hyd: Hydrated, addr: int) {
    || (WriteAt(hyd, addr).Some? && WriteAt(hyd, addr).value.width == 8)
    || (Plain(hyd, addr, 8) && Uint(hyd, addr, 8) == Some(0))
  }

  /** A plain non-zero word is neither. */
  lemma PlainWord(hyd: Hydrated, addr: int)
    requires Valid(hyd) && Plain(hyd, addr, 8) && Uint(hyd, addr, 8).Some? && Uint(hyd, addr, 8).value != 0
    ensures !PtrOrNull(hyd, addr)
  {
    PlainExact(hyd, addr, 8);
    var at := WriteAt(hyd, addr);
    if at.Some? {
      WriteAtExact(hyd, addr, at.value);
    }
  }

  // ---- MethodTables ------------------------------------------------------------------

  /** The slot counts at `m` say `n`, and the fixed words look right. */
  predicate MtHeader(hyd: Hydrated, m: int, n: nat) {
    var v, i := Uint(hyd, m + 16, 2), Uint(hyd, m + 18, 2);
    && v.Some? && i.Some? && v.value + i.value == n
    && Uint(hyd, m, 8).Some? && Uint(hyd, m, 8).value != 0
    && Plain(hyd, m, 8) && Plain(hyd, m + 16, 8) && PtrOrNull(hyd, m + 8)
  }

  /** A MethodTable with `n` vtable plus interface slots starts at `m`. */
  predicate IsMethodTable(hyd: Hydrated, m: int, n: nat) {
    MtHeader(hyd, m, n) && forall j: nat :: j < n ==> PtrOrNull(hyd, SlotAt(m, j))
  }

  function SlotAt(m: int, j: nat): int { m + 24 + 8 * j }

  /** Where a table of `n` slots before `field` would start. */
  function StartFor(field: nat, n: nat): int { field - (24 + 8 * n) }

  /** A table of some slot count, not below `floor`, starts at `m` and ends at `field`. */
  ghost predicate Candidate(hyd: Hydrated, field: nat, floor: nat, m: int) {
    exists n: nat :: m == StartFor(field, n) && floor <= m && IsMethodTable(hyd, m, n)
  }

  /** `m` is the lowest one. */
  ghost predicate Lowest(hyd: Hydrated, field: nat, floor: nat, m: int) {
    Candidate(hyd, field, floor, m) && forall m': int :: Candidate(hyd, field, floor, m') ==> m <= m'
  }

  predicate NoneOverlaps(hyd: Hydrated, addr: int, n: nat) {
    forall i: nat :: i < |hyd.writes| ==> hyd.writes[i].addr + hyd.writes[i].width <= addr || addr + n <= hyd.writes[i].addr
  }

  /** An 8-byte pointer was written there, or the bytes are zero and no pointer's. */
  predicate PointerOrZero(hyd: Hydrated, addr: int) {
    || (exists w :: w in hyd.writes && w.addr == addr && w.width == 8)
    || (NoneOverlaps(hyd, addr, 8) && Uint(hyd, addr, 8) == Some(0))
  }

  lemma PlainMeans(hyd: Hydrated, addr: int, n: nat)
    requires Valid(hyd) && n > 0
    ensures Plain(hyd, addr, n) <==> NoneOverlaps(hyd, addr, n)
  {
    hide Plain;
    PlainExact(hyd, addr, n);
    if NoneOverlaps(hyd, addr, n) {
      forall i: nat | i < |hyd.writes| ensures !Overlaps(hyd.writes[i], addr, n) { }
    }
  }

  lemma PointerMeans(hyd: Hydrated, addr: int)
    requires Valid(hyd)
    ensures PtrOrNull(hyd, addr) <==> PointerOrZero(hyd, addr)
  {
    hide Plain, WriteAt, Uint, NoneOverlaps;
    PlainMeans(hyd, addr, 8);
    if WriteAt(hyd, addr).Some? { WriteAtExact(hyd, addr, WriteAt(hyd, addr).value); }
    if w :| w in hyd.writes && w.addr == addr && w.width == 8 { WriteAtExact(hyd, addr, w); }
  }

  predicate SlotsPoint(hyd: Hydrated, first: int, n: nat) { forall j: nat :: j < n ==> PointsAt(hyd, first, j) }

  predicate PointsAt(hyd: Hydrated, first: int, j: nat) { PointerOrZero(hyd, first + 8 * j) }

  lemma SlotsMean(hyd: Hydrated, m: int, n: nat)
    requires Valid(hyd)
    ensures (forall j: nat :: j < n ==> PtrOrNull(hyd, SlotAt(m, j))) <==> SlotsPoint(hyd, m + 24, n)
  {
    hide PtrOrNull, PointerOrZero;
    if SlotsPoint(hyd, m + 24, n) {
      forall j: nat | j < n
        ensures PtrOrNull(hyd, SlotAt(m, j))
      {
        assert PointsAt(hyd, m + 24, j);
        PointerMeans(hyd, SlotAt(m, j));
      }
    }
    if forall j: nat :: j < n ==> PtrOrNull(hyd, SlotAt(m, j)) {
      var first := m + 24;
      forall j: nat | j < n
        ensures PointsAt(hyd, first, j)
      {
        assert PtrOrNull(hyd, SlotAt(m, j));
        PointerMeans(hyd, SlotAt(m, j));
      }
    }
  }

  /** The shape the search looks for: a flags word that is not zero and no pointer, the
      related type, a word of counts that add up to the slots, and the slots. */
  predicate TableShape(hyd: Hydrated, m: int, n: nat) {
    var v, i := Uint(hyd, m + 16, 2), Uint(hyd, m + 18, 2);
    && Uint(hyd, m, 8).Some? && Uint(hyd, m, 8) != Some(0) && NoneOverlaps(hyd, m, 8)
    && PointerOrZero(hyd, m + 8)
    && v.Some? && i.Some? && n == v.value + i.value && NoneOverlaps(hyd, m + 16, 8)
    && SlotsPoint(hyd, m + 24, n)
  }

  lemma MethodTableExact(hyd: Hydrated, m: int, n: nat)
    requires Valid(hyd)
    ensures IsMethodTable(hyd, m, n) <==> TableShape(hyd, m, n)
  {
    hide Plain, PtrOrNull, PointerOrZero, Uint, NoneOverlaps, SlotsPoint, SlotAt, Valid;
    PlainMeans(hyd, m, 8);
    PlainMeans(hyd, m + 16, 8);
    PointerMeans(hyd, m + 8);
    SlotsMean(hyd, m, n);
  }

  lemma SlotCount(hyd: Hydrated, m: int, n: nat)
    requires MtHeader(hyd, m, n)
    ensures n <= MT_MAX_SLOTS
  {
    UintBound(hyd, m + 16);
    UintBound(hyd, m + 18);
  }

  /** Every word of the last `n` before the field is a pointer or null. */
  predicate SlotsUpTo(hyd: Hydrated, field: nat, n: nat) {
    forall k: nat :: 0 < k <= n ==> PtrOrNull(hyd, field - 8 * k)
  }

  lemma SlotsFill(hyd: Hydrated, field: nat, n: nat)
    requires MtHeader(hyd, StartFor(field, n), n) && SlotsUpTo(hyd, field, n)
    ensures IsMethodTable(hyd, StartFor(field, n), n)
  {
    var m := StartFor(field, n);
    forall j: nat | j < n
      ensures PtrOrNull(hyd, SlotAt(m, j))
    {
      assert SlotAt(m, j) == field - 8 * (n - j);
    }
  }

  /** A word that is neither pointer nor null ends the search below it. */
  lemma BlockedBelow(hyd: Hydrated, field: nat, k: nat, n: nat)
    requires 0 < k <= n && !PtrOrNull(hyd, field - 8 * k)
    ensures !IsMethodTable(hyd, StartFor(field, n), n)
  {
    assert SlotAt(StartFor(field, n), n - k) == field - 8 * k;
  }

  /** Below a header only the start two words lower can also be one. */
  lemma OnlyTwoBelow(hyd: Hydrated, field: nat, n: nat, n': nat)
    requires Valid(hyd) && MtHeader(hyd, StartFor(field, n), n) && n < n' && n' != n + 2
    ensures !IsMethodTable(hyd, StartFor(field, n'), n')
  {
    var m := StartFor(field, n);
    PlainWord(hyd, m);
    if n' == n + 1 {
      assert StartFor(field, n') + 8 == m;
    } else {
      BlockedBelow(hyd, field, n + 3, n');
    }
  }

  ghost predicate NoHeaderUpTo(hyd: Hydrated, field: nat, n: nat) {
    forall k: nat :: k < n ==> !MtHeader(hyd, StartFor(field, k), k)
  }

  lemma NoneFound(hyd: Hydrated, field: nat, floor: nat, n: nat)
    requires NoHeaderUpTo(hyd, field, n)
    requires StartFor(field, n) < floor || n > MT_MAX_SLOTS || (NoHeaderUpTo(hyd, field, n + 1) && !PtrOrNull(hyd, field - 8 * (n + 1)))
    ensures forall m: int :: !Candidate(hyd, field, floor, m)
  {
    forall k: nat
      ensures !(floor <= StartFor(field, k) && IsMethodTable(hyd, StartFor(field, k), k))
    {
      if k > n && StartFor(field, n) >= floor && n <= MT_MAX_SLOTS {
        BlockedBelow(hyd, field, n + 1, k);
      }
      if MtHeader(hyd, StartFor(field, k), k) { SlotCount(hyd, StartFor(field, k), k); }
    }
  }

  lemma FirstHit(hyd: Hydrated, field: nat, floor: nat, n: nat)
    requires Valid(hyd) && NoHeaderUpTo(hyd, field, n) && SlotsUpTo(hyd, field, n)
    requires MtHeader(hyd, StartFor(field, n), n) && floor <= StartFor(field, n)
    ensures
      var m := StartFor(field, n);
      Lowest(hyd, field, floor, if floor <= m - 16 && IsMethodTable(hyd, m - 16, n + 2) then m - 16 else m)
  {
    hide MtHeader, PtrOrNull;
    var m := StartFor(field, n);
    SlotsFill(hyd, field, n);
    assert StartFor(field, n + 2) == m - 16;
    forall m': int | Candidate(hyd, field, floor, m')
      ensures m' == m || (m' == m - 16 && IsMethodTable(hyd, m - 16, n + 2))
    {
      var k: nat :| m' == StartFor(field, k) && floor <= m' && IsMethodTable(hyd, m', k);
      if k > n && k != n + 2 { OnlyTwoBelow(hyd, field, n, k); }
    }
  }

  /** `method_table_start` is the exhaustive search: the lowest candidate, or none at all. */
  method MethodTableStart(hyd: Hydrated, field: nat, floor: nat) returns (r: Option<nat>)
    requires Valid(hyd)
    ensures r.Some? ==> Lowest(hyd, field, floor, r.value)
    ensures r.None? ==> forall m: int :: !Candidate(hyd, field, floor, m)
  {
    hide MtHeader, PtrOrNull, IsMethodTable;
    var n := 0;
    while n <= MT_MAX_SLOTS
      invariant n <= MT_MAX_SLOTS + 1
      invariant NoHeaderUpTo(hyd, field, n) && SlotsUpTo(hyd, field, n)
    {
      if field < MT_FIXED + 8 * n || field - (MT_FIXED + 8 * n) < floor {
        NoneFound(hyd, field, floor, n);
        return None;
      }
      var m := field - (MT_FIXED + 8 * n);
      if MtHeader(hyd, m, n) {
        FirstHit(hyd, field, floor, n);
        if m >= 16 && m - 16 >= floor && IsMethodTable(hyd, m - 16, n + 2) {
          return Some(m - 16);
        }
        return Some(m);
      }
      if !PtrOrNull(hyd, field - 8 * (n + 1)) {
        NoneFound(hyd, field, floor, n);
        return None;
      }
      n := n + 1;
    }
    NoneFound(hyd, field, floor, n);
    r := None;
  }
}
