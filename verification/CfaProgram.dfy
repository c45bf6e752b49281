/**
 Re-spacing of CFA programs (src/format/elf/ehframe.rs:84-98, 812-886).

 A CFA program is a byte string whose advance instructions move the current
 code location.  `Walk` lists, for every instruction, where it lies and the
 location it applies to (section 6.4.2.1 of the DWARF 5 standard for the
 advance instructions).  The theorem: when a plan is found, the patched
 program has the same instructions at the same places, and each row that began
 at location `l` now begins at the mapped location.
 */
module CfaProgram {
  import opened Wrappers
  import opened Bytes
  import opened AddressMap

  const M: nat := 0x1_0000_0000_0000_0000

  /** `wrapping_sub` of two 64-bit words. */
  function WrapSub(a: nat, b: nat): nat { if a >= b then a - b else if a + M >= b then a + M - b else 0 }

  lemma WrapSubIs(a: nat, b: nat)
    requires a < 0x1_0000_0000_0000_0000 && b < 0x1_0000_0000_0000_0000
    ensures WrapSub(a, b) == (a - b) % 0x1_0000_0000_0000_0000
  {
  }

  /** The compaction described to the unwind patcher. */
  datatype Ctx = Ctx(ivs: Intervals, ts: nat, te: nat, be: bool)

  function Map(cx: Ctx, a: nat): nat { WrapSub(a, TotalShift(a, cx.ivs, cx.ts, cx.te)) }

  /** A boundary exactly at the .text end keeps the shift inside .text. */
  function MapEnd(cx: Ctx, e: nat): nat {
    if cx.ts < e <= cx.te then WrapSub(e, Shift(e, cx.ivs)) else Map(cx, e)
  }

  ghost predicate CtxOk(cx: Ctx) { Fits(cx.ivs, cx.ts, cx.te) }

  /** A boundary in .text, its end included, moves down by the dead bytes below it. */
  lemma MapEndCounts(cx: Ctx, e: nat)
    requires CtxOk(cx) && cx.ts <= e <= cx.te < M && cx.ts < cx.te
    ensures MapEnd(cx, e) + CountDead(cx.ivs, cx.ts, e) == e
  {
    ShiftIsCount(cx.ivs, cx.ts, cx.te, e);
    ShiftInside(cx.ivs, cx.ts, cx.te, e);
  }

  /** Two boundaries end up apart by the bytes left between them. */
  lemma DistanceIsLive(cx: Ctx, a: nat, b: nat)
    requires CtxOk(cx) && cx.ts <= a <= b <= cx.te < M && cx.ts < cx.te
    ensures MapEnd(cx, a) <= MapEnd(cx, b) && CountDead(cx.ivs, cx.ts, a) <= CountDead(cx.ivs, cx.ts, b)
    ensures MapEnd(cx, b) - MapEnd(cx, a) + (CountDead(cx.ivs, cx.ts, b) - CountDead(cx.ivs, cx.ts, a)) == b - a
  {
    MapEndCounts(cx, a);
    MapEndCounts(cx, b);
    ShiftIsCount(cx.ivs, cx.ts, cx.te, a);
    ShiftIsCount(cx.ivs, cx.ts, cx.te, b);
    ShiftBetween(cx.ivs, cx.ts, cx.te, a, b);
  }

  // ---- Instructions ----------------------------------------------------------------

  /** The length of the LEB128 number at `off` and its value, read before `end`. */
  function ReadUleb(data: seq<byte>, off: nat, end: nat, i: nat): Option<(nat, nat)>
    requires i <= 10
    decreases 10 - i
  {
    if off + i >= end || i >= 10 || off + i >= |data| then None
    else
      var b := data[off + i];
      if b < 0x80 then Some((b, i + 1))
      else
        match ReadUleb(data, off, end, i + 1)
        case None => None
        case Some((v, n)) => Some((b - 0x80 + 128 * v, n))
  }

  /** The value as the source keeps it: its low 64 bits. */
  function Uleb(data: seq<byte>, off: nat, end: nat): Option<(nat, nat)> {
    match ReadUleb(data, off, end, 0)
    case None => None
    case Some((v, n)) => Some((v % M, n))
  }

  /** Width of the delta field of an advance instruction; 0 when the delta is
      the low six bits of the opcode. */
  function AdvanceWidth(op: byte): Option<nat> {
    if 0x40 <= op <= 0x7f then Some(0)
    else if op == 0x02 then Some(1)
    else if op == 0x03 then Some(2)
    else if op == 0x04 then Some(4)
    else if op == 0x1d then Some(8)
    else None
  }

  datatype Operand = Leb | Block

  /** Operands of the instructions that do not advance. */
  function Operands(op: byte): Option<seq<Operand>> {
    if 0x80 <= op <= 0xbf then Some([Leb])
    else if 0xc0 <= op || op == 0x00 || op == 0x0a || op == 0x0b || op == 0x2c || op == 0x2d then Some([])
    else if op == 0x06 || op == 0x07 || op == 0x08 || op == 0x0d || op == 0x0e || op == 0x13 || op == 0x2e then Some([Leb])
    else if op == 0x05 || op == 0x09 || op == 0x0c || op == 0x11 || op == 0x12 || op == 0x14 || op == 0x15 || op == 0x2f
    then Some([Leb, Leb])
    else if op == 0x0f then Some([Block])
    else if op == 0x10 || op == 0x16 then Some([Leb, Block])
    else None
  }

  function SkipOperands(data: seq<byte>, q: nat, end: nat, ks: seq<Operand>): (r: Option<nat>)
    ensures r.Some? ==> q <= r.value
    decreases |ks|
  {
    if ks == [] then Some(q)
    else
      match Uleb(data, q, end)
      case None => None
      case Some((v, n)) => SkipOperands(data, if ks[0].Block? then q + n + v else q + n, end, ks[1..])
  }

  /** `skip_cfa_op`: the offset past a non-advance instruction. */
  function SkipCfaOp(data: seq<byte>, p: nat, end: nat): (r: Option<nat>)
    ensures r.Some? ==> p < r.value <= end
  {
    if p >= |data| then None
    else
      match Operands(data[p])
      case None => None
      case Some(ks) =>
        match SkipOperands(data, p + 1, end, ks)
        case None => None
        case Some(q) => if q <= end then Some(q) else None
  }

  /** The delta of the advance instruction at `p`. */
  function Delta(data: seq<byte>, p: nat, width: nat, be: bool): Option<nat>
    requires p < |data|
  {
    if width == 0 then Some(data[p] % 64) else ReadUn(data, p + 1, width, be)
  }

  // ---- Rows -----------------------------------------------------------------------------

  /** What an instruction is, apart from the distance it advances: an advance with
      a delta field of some width, or any other one with all its bytes. */
  datatype Op = Advance(width: nat) | Plain(bytes: seq<byte>) | End

  /** Instruction `op` at offset `pos`, met at code location `loc`. */
  datatype Row = Row(pos: nat, op: Op, loc: nat)

  /** The non-advance instruction in `[p, q)`. */
  function PlainOp(data: seq<byte>, p: nat, q: nat): (r: Op)
    requires p <= |data| && p <= q
    ensures r.Plain?
  {
    Plain(if q <= |data| then data[p..q] else data[p..])
  }

  /** The rows from offset `p` and location `loc` on; None on a bad program. */
  function Walk(data: seq<byte>, p: nat, end: nat, loc: nat, caf: nat, be: bool): Option<seq<Row>>
    decreases end - p
  {
    if p >= end then Some([Row(p, End, loc)])
    else if p >= |data| then None
    else
      match AdvanceWidth(data[p])
      case None =>
        (match SkipCfaOp(data, p, end)
         case None => None
         case Some(q) => Then(Row(p, PlainOp(data, p, q), loc), Walk(data, q, end, loc, caf, be)))
      case Some(width) =>
        if p + 1 + width > end then None
        else
          match Delta(data, p, width, be)
          case None => None
          case Some(d) => Then(Row(p, Advance(width), loc), Walk(data, p + 1 + width, end, loc + d * caf, caf, be))
  }

  function Then(r: Row, rest: Option<seq<Row>>): Option<seq<Row>> {
    match rest
    case None => None
    case Some(rs) => Some([r] + rs)
  }

  // ---- The plan (ehframe.rs:815-860) -------------------------------------------------------

  /** A planned in-place store. */
  datatype Store = Store(off: nat, width: nat, val: nat)

  function Append(st: seq<Store>, rest: Option<seq<Store>>): Option<seq<Store>> {
    match rest
    case None => None
    case Some(r) => Some(st + r)
  }

  /** The new delta of an advance from `loc` to `next`, if it can be stored. */
  function NewDelta(cx: Ctx, loc: nat, next: nat, delta: nat, caf: nat): Option<nat>
    requires caf > 0
  {
    var a, b := MapEnd(cx, loc), MapEnd(cx, next);
    if b < a then None
    else if (b - a) % caf != 0 || (b - a) / caf > delta then None
    else Some((b - a) / caf)
  }

  function DeltaStore(p: nat, width: nat, delta: nat, nd: nat): seq<Store> {
    if nd == delta then []
    else if width == 0 then [Store(p, 1, 0x40 + nd)]
    else [Store(p + 1, width, nd)]
  }

  /** One instruction of the plan: where the next one lies and its location,
      and the stores this one needs. */
  datatype Planned = Planned(p: nat, loc: nat, stores: seq<Store>)

  function PlanOne(data: seq<byte>, p: nat, end: nat, loc: nat, caf: nat, cx: Ctx): (r: Option<Planned>)
    requires caf > 0
    ensures r.Some? ==> p < r.value.p <= end
  {
    if p >= |data| || p >= end then None
    else
      match AdvanceWidth(data[p])
      case None =>
        (match SkipCfaOp(data, p, end)
         case None => None
         case Some(q) => Some(Planned(q, loc, [])))
      case Some(width) =>
        if p + 1 + width > end then None
        else
          match Delta(data, p, width, cx.be)
          case None => None
          case Some(delta) => PlanAdvance(p, width, delta, loc, caf, cx)
  }

  function PlanAdvance(p: nat, width: nat, delta: nat, loc: nat, caf: nat, cx: Ctx): (r: Option<Planned>)
    requires caf > 0
    ensures r.Some? ==> r.value.p == p + 1 + width
  {
    if delta * caf >= M || loc + delta * caf >= M then None
    else
      var next := loc + delta * caf;
      match NewDelta(cx, loc, next, delta, caf)
      case None => None
      case Some(nd) => Some(Planned(p + 1 + width, next, DeltaStore(p, width, delta, nd)))
  }

  /** The stores for the program from `p` on. */
  function PlanFrom(data: seq<byte>, p: nat, end: nat, loc: nat, caf: nat, cx: Ctx): Option<seq<Store>>
    requires caf > 0
    decreases end - p
  {
    if p >= end then Some([])
    else
      match PlanOne(data, p, end, loc, caf, cx)
      case None => None
      case Some(s) => Append(s.stores, PlanFrom(data, s.p, end, s.loc, caf, cx))
  }

  /** What `plan_cfa` returns for a program at `[cfa, end)` starting at `begin`. */
  function PlanCfaOf(data: seq<byte>, cfa: nat, end: nat, begin: nat, caf: nat, cx: Ctx): Option<seq<Store>> {
    if caf == 0 then None else PlanFrom(data, cfa, end, begin, caf, cx)
  }

  method PlanCfa(data: seq<byte>, cfa: nat, end: nat, begin: nat, caf: nat, cx: Ctx) returns (r: Option<seq<Store>>)
    ensures r == PlanCfaOf(data, cfa, end, begin, caf, cx)
  {
    if caf == 0 {
      return None;
    }
    var st: seq<Store> := [];
    var p: nat, loc: nat := cfa, begin;
    ghost var goal, rest := PlanFrom(data, cfa, end, begin, caf, cx), PlanFrom(data, cfa, end, begin, caf, cx);
    AppendNil(goal);
    while p < end
      invariant rest == PlanFrom(data, p, end, loc, caf, cx) && goal == Append(st, rest)
      decreases end - p
    {
      var step := PlanOne(data, p, end, loc, caf, cx);
      if step.None? {
        return None;
      }
      rest := PlanFrom(data, step.value.p, end, step.value.loc, caf, cx);
      AppendAssoc(st, step.value.stores, rest);
      st := st + step.value.stores;
      p, loc := step.value.p, step.value.loc;
    }
    AppendEnd(st);
    r := Some(st);
  }

  lemma AppendNil(rest: Option<seq<Store>>)
    ensures Append([], rest) == rest
  {
    if rest.Some? { assert [] + rest.value == rest.value; }
  }

  lemma AppendEnd(st: seq<Store>)
    ensures Append(st, Some([])) == Some(st)
  {
    assert st + [] == st;
  }

  lemma AppendAssoc(a: seq<Store>, b: seq<Store>, rest: Option<seq<Store>>)
    ensures Append(a, Append(b, rest)) == Append(a + b, rest)
  {
    if rest.Some? { assert a + (b + rest.value) == a + b + rest.value; }
  }

  // ---- Applying the plan ---------------------------------------------------------------------

  /** `commit`: the stores, in order. */
  function Commit(data: seq<byte>, st: seq<Store>, be: bool): (r: seq<byte>)
    ensures |r| == |data|
    decreases |st|
  {
    if st == [] then data else Commit(WriteUn(data, st[0].off, st[0].width, st[0].val, be), st[1..], be)
  }

  /** All stores lie in `[lo, hi)`. */
  predicate Within(st: seq<Store>, lo: nat, hi: nat) {
    forall i: nat :: i < |st| ==> lo <= st[i].off && st[i].off + st[i].width <= hi
  }

  lemma {:induction false} CommitLocal(data: seq<byte>, st: seq<Store>, be: bool, lo: nat, hi: nat)
    requires Within(st, lo, hi)
    ensures forall k: nat :: k < |data| && !(lo <= k < hi) ==> Commit(data, st, be)[k] == data[k]
    decreases |st|
  {
    if st != [] {
      assert forall i: nat :: i < |st[1..]| ==> st[1..][i] == st[i + 1];
      CommitLocal(WriteUn(data, st[0].off, st[0].width, st[0].val, be), st[1..], be, lo, hi);
    }
  }

  lemma {:induction false} CommitSplit(data: seq<byte>, a: seq<Store>, b: seq<Store>, be: bool)
    ensures Commit(data, a + b, be) == Commit(Commit(data, a, be), b, be)
    decreases |a|
  {
    if a == [] { assert a + b == b; } else {
      assert (a + b)[1..] == a[1..] + b;
      CommitSplit(WriteUn(data, a[0].off, a[0].width, a[0].val, be), a[1..], b, be);
    }
  }

  lemma {:induction false} PlanWithin(data: seq<byte>, p: nat, end: nat, loc: nat, caf: nat, cx: Ctx)
    requires caf > 0 && PlanFrom(data, p, end, loc, caf, cx).Some?
    ensures Within(PlanFrom(data, p, end, loc, caf, cx).value, p, if p <= end then end else p)
    decreases end - p
  {
    if p < end {
      var s := PlanOne(data, p, end, loc, caf, cx).value;
      PlanWithin(data, s.p, end, s.loc, caf, cx);
    }
  }

  // ---- Reading depends only on the bytes read ----------------------------------------------------

  /** `a` and `b` hold the same bytes in `[lo, hi)`. */
  predicate Agree(a: seq<byte>, b: seq<byte>, lo: nat, hi: nat) {
    |a| == |b| && forall k: nat :: lo <= k < hi && k < |a| ==> a[k] == b[k]
  }

  lemma {:induction false} UlebLocal(a: seq<byte>, b: seq<byte>, off: nat, end: nat, i: nat)
    requires i <= 10 && ReadUleb(a, off, end, i).Some?
    requires Agree(a, b, off, off + ReadUleb(a, off, end, i).value.1)
    ensures i < ReadUleb(a, off, end, i).value.1 && off + ReadUleb(a, off, end, i).value.1 <= end
    ensures ReadUleb(b, off, end, i) == ReadUleb(a, off, end, i)
    decreases 10 - i
  {
    if a[off + i] >= 0x80 {
      UlebAdvances(a, off, end, i);
      UlebLocal(a, b, off, end, i + 1);
    }
  }

  lemma {:induction false} UlebAdvances(a: seq<byte>, off: nat, end: nat, i: nat)
    requires i <= 10 && ReadUleb(a, off, end, i).Some?
    ensures i < ReadUleb(a, off, end, i).value.1 && off + ReadUleb(a, off, end, i).value.1 <= end
    decreases 10 - i
  {
    if a[off + i] >= 0x80 { UlebAdvances(a, off, end, i + 1); }
  }

  lemma AgreeParts(a: seq<byte>, b: seq<byte>, q: nat, r: nat, next: nat, hi: nat)
    requires Agree(a, b, q, hi) && q <= r <= next <= hi
    ensures Agree(a, b, q, r) && Agree(a, b, next, hi)
  {
  }

  lemma UlebSame(a: seq<byte>, b: seq<byte>, q: nat, end: nat)
    requires Uleb(a, q, end).Some? && Agree(a, b, q, q + Uleb(a, q, end).value.1)
    ensures Uleb(b, q, end) == Uleb(a, q, end)
  {
    UlebLocal(a, b, q, end, 0);
  }

  lemma {:induction false} SkipOperandsLocal(a: seq<byte>, b: seq<byte>, q: nat, end: nat, ks: seq<Operand>)
    requires SkipOperands(a, q, end, ks).Some? && Agree(a, b, q, SkipOperands(a, q, end, ks).value)
    ensures SkipOperands(b, q, end, ks) == SkipOperands(a, q, end, ks)
    decreases |ks|
  {
    hide Uleb, Agree;
    if ks != [] {
      var (v, n) := Uleb(a, q, end).value;
      var next := if ks[0].Block? then q + n + v else q + n;
      AgreeParts(a, b, q, q + n, next, SkipOperands(a, q, end, ks).value);
      UlebSame(a, b, q, end);
      SkipOperandsLocal(a, b, next, end, ks[1..]);
    }
  }

  lemma SkipLocal(a: seq<byte>, b: seq<byte>, p: nat, end: nat)
    requires SkipCfaOp(a, p, end).Some? && Agree(a, b, p, SkipCfaOp(a, p, end).value)
    ensures SkipCfaOp(b, p, end) == SkipCfaOp(a, p, end)
  {
    SkipOperandsLocal(a, b, p + 1, end, Operands(a[p]).value);
  }

  // ---- Exactness -----------------------------------------------------------------------------------

  /** The patched rows are the same instructions at the same places, `b` standing
      for location `loc0` and every other location at its mapped distance from it. */
  ghost predicate Respaced(cx: Ctx, rows: seq<Row>, rows': seq<Row>, loc0: nat, b: nat) {
    && |rows| == |rows'|
    && forall i: nat :: i < |rows| ==> SameRow(cx, rows[i], rows'[i], loc0, b)
  }

  predicate SameRow(cx: Ctx, r: Row, r': Row, loc0: nat, b: nat) {
    r'.pos == r.pos && r'.op == r.op && r'.loc + MapEnd(cx, loc0) == MapEnd(cx, r.loc) + b
  }

  lemma RespacedCons(cx: Ctx, r: Row, rows: seq<Row>, r': Row, rows': seq<Row>, loc0: nat, next: nat, b: nat, b': nat)
    requires Respaced(cx, rows, rows', next, b') && r.pos == r'.pos && r.op == r'.op && r.loc == loc0 && r'.loc == b
    requires b' + MapEnd(cx, loc0) == MapEnd(cx, next) + b
    ensures Respaced(cx, [r] + rows, [r'] + rows', loc0, b)
  {
    var s, s' := [r] + rows, [r'] + rows';
    forall i: nat | i < |s| ensures SameRow(cx, s[i], s'[i], loc0, b) {
      if i > 0 { assert s[i] == rows[i - 1] && s'[i] == rows'[i - 1]; }
    }
  }

  /** The delta field after the plan's own store holds the new delta, and the
      opcode is still an advance of the same width. */
  lemma FieldPatched(data: seq<byte>, p: nat, width: nat, delta: nat, nd: nat, be: bool)
    requires p < |data| && AdvanceWidth(data[p]) == Some(width) && Delta(data, p, width, be) == Some(delta) && nd <= delta
    ensures var d := Commit(data, DeltaStore(p, width, delta, nd), be);
      |d| == |data| && AdvanceWidth(d[p]) == Some(width) && Delta(d, p, width, be) == Some(nd)
  {
    if nd != delta {
      if width == 0 {
        assert Encode(0x40 + nd, 1, be) == [0x40 + nd] by { assert LeBytes(0x40 + nd, 1)[0] == 0x40 + nd; assert BeBytes(0x40 + nd, 1)[0] == 0x40 + nd; }
        var d := WriteUn(data, p, 1, 0x40 + nd, be);
        assert d[p..p + 1] == [0x40 + nd];
        assert d[p] == 0x40 + nd;
      } else {
        ValueBound(data[p + 1..p + 1 + width], be);
        RoundTrip(nd, width, be);
      }
    }
  }

  /** Stores further on leave the instruction at `p` as it is. */
  lemma LaterStores(data: seq<byte>, st: seq<Store>, p: nat, q: nat, hi: nat, width: nat, be: bool)
    requires p < |data| && Within(st, q, hi) && p + 1 + width <= q
    ensures Commit(data, st, be)[p] == data[p]
    ensures p + 1 + width <= |data| ==> Commit(data, st, be)[p + 1..p + 1 + width] == data[p + 1..p + 1 + width]
  {
    CommitLocal(data, st, be, q, hi);
  }

  /** The patched program re-spaces every row exactly. */
  lemma {:induction false} PlanRespaces(data: seq<byte>, p: nat, end: nat, loc: nat, caf: nat, cx: Ctx, b: nat)
    requires caf > 0 && PlanFrom(data, p, end, loc, caf, cx).Some?
    ensures Walk(data, p, end, loc, caf, cx.be).Some?
    ensures var patched := Commit(data, PlanFrom(data, p, end, loc, caf, cx).value, cx.be);
      Walk(patched, p, end, b, caf, cx.be).Some?
      && Respaced(cx, Walk(data, p, end, loc, caf, cx.be).value, Walk(patched, p, end, b, caf, cx.be).value, loc, b)
    decreases end - p
  {
    if p < end {
      if AdvanceWidth(data[p]).None? {
        RespaceSkip(data, p, end, loc, caf, cx, b);
      } else {
        RespaceAdvance(data, p, end, loc, caf, cx, b);
      }
    }
  }

  lemma RespaceSkip(data: seq<byte>, p: nat, end: nat, loc: nat, caf: nat, cx: Ctx, b: nat)
    requires caf > 0 && p < end && PlanFrom(data, p, end, loc, caf, cx).Some? && AdvanceWidth(data[p]).None?
    ensures Walk(data, p, end, loc, caf, cx.be).Some?
    ensures var patched := Commit(data, PlanFrom(data, p, end, loc, caf, cx).value, cx.be);
      Walk(patched, p, end, b, caf, cx.be).Some?
      && Respaced(cx, Walk(data, p, end, loc, caf, cx.be).value, Walk(patched, p, end, b, caf, cx.be).value, loc, b)
    decreases end - p, 0
  {
    var q := SkipCfaOp(data, p, end).value;
    var st := PlanFrom(data, q, end, loc, caf, cx).value;
    AppendNil(Some(st));
    var patched := Commit(data, st, cx.be);
    PlanRespaces(data, q, end, loc, caf, cx, b);
    PlanWithin(data, q, end, loc, caf, cx);
    CommitLocal(data, st, cx.be, q, end);
    SkipLocal(data, patched, p, end);
    SamePlain(data, patched, p, q, end);
    RespacedCons(cx, Row(p, PlainOp(data, p, q), loc), Walk(data, q, end, loc, caf, cx.be).value,
      Row(p, PlainOp(patched, p, q), b), Walk(patched, q, end, b, caf, cx.be).value, loc, loc, b, b);
  }

  /** Changes from `q` on leave the instruction in `[p, q)` as it was. */
  lemma SamePlain(data: seq<byte>, patched: seq<byte>, p: nat, q: nat, end: nat)
    requires p <= |data| == |patched| && p <= q
    requires forall k: nat :: k < |data| && !(q <= k < end) ==> patched[k] == data[k]
    ensures PlainOp(patched, p, q) == PlainOp(data, p, q)
  {
    if q <= |data| { assert patched[p..q] == data[p..q]; } else { assert patched[p..] == data[p..]; }
  }

  lemma WalkStep(data: seq<byte>, p: nat, end: nat, loc: nat, next: nat, caf: nat, be: bool, width: nat, d: nat)
    requires p < |data| && p < end && p + 1 + width <= end && next == loc + d * caf
    requires AdvanceWidth(data[p]) == Some(width) && Delta(data, p, width, be) == Some(d)
    ensures Walk(data, p, end, loc, caf, be) == Then(Row(p, Advance(width), loc), Walk(data, p + 1 + width, end, next, caf, be))
  {
    hide Delta, AdvanceWidth, SkipCfaOp, PlainOp, Then;
  }

  /** Programs that agree from `q` on hold the same instruction at `q`. */
  lemma PlainSame(a: seq<byte>, b: seq<byte>, q: nat, r: nat)
    requires Agree(a, b, q, |a|) && q <= r && q <= |a|
    ensures PlainOp(a, q, r) == PlainOp(b, q, r)
  {
    if r <= |a| { assert a[q..r] == b[q..r]; } else { assert a[q..] == b[q..]; }
  }

  lemma DeltaSame(a: seq<byte>, b: seq<byte>, q: nat, width: nat, be: bool)
    requires Agree(a, b, q, |a|) && q < |a|
    ensures Delta(a, q, width, be) == Delta(b, q, width, be)
  {
    if q + 1 + width <= |a| { assert a[q + 1..q + 1 + width] == b[q + 1..q + 1 + width]; }
  }

  /** A walk reads nothing before its start. */
  lemma {:induction false} WalkLocal(a: seq<byte>, b: seq<byte>, q: nat, end: nat, loc: nat, caf: nat, be: bool)
    requires Agree(a, b, q, |a|)
    ensures Walk(a, q, end, loc, caf, be) == Walk(b, q, end, loc, caf, be)
    decreases end - q
  {
    hide PlainOp, Delta, AdvanceWidth, SkipCfaOp;
    if q < end && q < |a| {
      match AdvanceWidth(a[q])
      case None =>
        SkipSame(a, b, q, end);
        var r := SkipCfaOp(a, q, end);
        if r.Some? {
          WalkLocal(a, b, r.value, end, loc, caf, be);
          PlainSame(a, b, q, r.value);
        }
      case Some(width) =>
        DeltaSame(a, b, q, width, be);
        var d := Delta(a, q, width, be);
        if d.Some? && q + 1 + width <= end {
          var next := loc + d.value * caf;
          WalkStep(a, q, end, loc, next, caf, be, width, d.value);
          WalkStep(b, q, end, loc, next, caf, be, width, d.value);
          WalkLocal(a, b, q + 1 + width, end, next, caf, be);
        }
    }
  }

  lemma SkipSame(a: seq<byte>, b: seq<byte>, q: nat, end: nat)
    requires Agree(a, b, q, |a|)
    ensures SkipCfaOp(a, q, end) == SkipCfaOp(b, q, end)
  {
    if SkipCfaOp(a, q, end).Some? { SkipLocal(a, b, q, end); }
    if SkipCfaOp(b, q, end).Some? { SkipLocal(b, a, q, end); }
  }

  lemma {:induction false} CommitAgree(a: seq<byte>, b: seq<byte>, st: seq<Store>, be: bool, q: nat, hi: nat)
    requires Agree(a, b, q, |a|) && Within(st, q, hi)
    ensures Agree(Commit(a, st, be), Commit(b, st, be), q, |a|)
    decreases |st|
  {
    if st != [] {
      var a1 := WriteUn(a, st[0].off, st[0].width, st[0].val, be);
      var b1 := WriteUn(b, st[0].off, st[0].width, st[0].val, be);
      WriteAgree(a, b, st[0].off, st[0].width, st[0].val, be, q);
      assert forall i: nat :: i < |st[1..]| ==> st[1..][i] == st[i + 1];
      CommitAgree(a1, b1, st[1..], be, q, hi);
    }
  }

  lemma WriteAgree(a: seq<byte>, b: seq<byte>, off: nat, n: nat, v: nat, be: bool, q: nat)
    requires Agree(a, b, q, |a|) && q <= off
    ensures Agree(WriteUn(a, off, n, v, be), WriteUn(b, off, n, v, be), q, |a|)
  {
    if off + n <= |a| {
      var a1, b1 := WriteUn(a, off, n, v, be), WriteUn(b, off, n, v, be);
      forall k: nat | q <= k < |a| ensures a1[k] == b1[k] {
        if off <= k < off + n {
          assert a1[k] == a1[off..off + n][k - off] && b1[k] == b1[off..off + n][k - off];
        }
      }
    }
  }

  /** The first instruction of the patched program, and where its rest begins. */
  lemma AdvancePatched(data: seq<byte>, p: nat, end: nat, width: nat, delta: nat, nd: nat, tail: seq<Store>, be: bool)
    requires p < |data| && AdvanceWidth(data[p]) == Some(width) && Delta(data, p, width, be) == Some(delta) && nd <= delta
    requires p + 1 + width <= end && Within(tail, p + 1 + width, end)
    ensures var d := Commit(data, DeltaStore(p, width, delta, nd) + tail, be);
      && |d| == |data| && AdvanceWidth(d[p]) == Some(width) && Delta(d, p, width, be) == Some(nd)
      && Agree(d, Commit(data, tail, be), p + 1 + width, |data|)
  {
    var own, q := DeltaStore(p, width, delta, nd), p + 1 + width;
    var d1 := Commit(data, own, be);
    CommitSplit(data, own, tail, be);
    FieldPatched(data, p, width, delta, nd, be);
    LaterStores(d1, tail, p, q, end, width, be);
    assert Within(own, p, q);
    CommitLocal(data, own, be, p, q);
    CommitAgree(d1, data, tail, be, q, end);
  }

  lemma RespaceAdvance(data: seq<byte>, p: nat, end: nat, loc: nat, caf: nat, cx: Ctx, b: nat)
    requires caf > 0 && p < end && PlanFrom(data, p, end, loc, caf, cx).Some? && AdvanceWidth(data[p]).Some?
    ensures Walk(data, p, end, loc, caf, cx.be).Some?
    ensures var patched := Commit(data, PlanFrom(data, p, end, loc, caf, cx).value, cx.be);
      Walk(patched, p, end, b, caf, cx.be).Some?
      && Respaced(cx, Walk(data, p, end, loc, caf, cx.be).value, Walk(patched, p, end, b, caf, cx.be).value, loc, b)
    decreases end - p, 0
  {
    hide Delta, NewDelta, DeltaStore, MapEnd, AdvanceWidth, Commit, Walk, SameRow;
    PlanUnfold(data, p, end, loc, caf, cx);
    var width := AdvanceWidth(data[p]).value;
    var delta := Delta(data, p, width, cx.be).value;
    var q, next := p + 1 + width, loc + delta * caf;
    var nd := NewDelta(cx, loc, next, delta, caf).value;
    var tail := PlanFrom(data, q, end, next, caf, cx).value;
    var patched := Commit(data, DeltaStore(p, width, delta, nd) + tail, cx.be);
    PlanWithin(data, q, end, next, caf, cx);
    AdvancePatched(data, p, end, width, delta, nd, tail, cx.be);
    var b' := b + nd * caf;
    PlanRespaces(data, q, end, next, caf, cx, b');
    var ws := Walk(data, q, end, next, caf, cx.be).value;
    var ws' := Walk(Commit(data, tail, cx.be), q, end, b', caf, cx.be).value;
    WalkLocal(patched, Commit(data, tail, cx.be), q, end, b', caf, cx.be);
    WalkCons(data, p, end, loc, next, caf, cx.be, width, delta, ws);
    WalkCons(patched, p, end, b, b', caf, cx.be, width, nd, ws');
    RespacedCons(cx, Row(p, Advance(width), loc), ws, Row(p, Advance(width), b), ws', loc, next, b, b');
  }

  /** The pieces of a plan that starts with an advance. */
  lemma PlanUnfold(data: seq<byte>, p: nat, end: nat, loc: nat, caf: nat, cx: Ctx)
    requires caf > 0 && p < end && PlanFrom(data, p, end, loc, caf, cx).Some? && AdvanceWidth(data[p]).Some?
    ensures var width := AdvanceWidth(data[p]).value;
      && p < |data| && p + 1 + width <= end && Delta(data, p, width, cx.be).Some?
      && var delta := Delta(data, p, width, cx.be).value;
      && var next := loc + delta * caf;
      && NewDelta(cx, loc, next, delta, caf).Some?
      && var nd := NewDelta(cx, loc, next, delta, caf).value;
      && nd <= delta && nd * caf + MapEnd(cx, loc) == MapEnd(cx, next)
      && PlanFrom(data, p + 1 + width, end, next, caf, cx).Some?
      && PlanFrom(data, p, end, loc, caf, cx).value
         == DeltaStore(p, width, delta, nd) + PlanFrom(data, p + 1 + width, end, next, caf, cx).value
  {
    hide Delta, NewDelta, DeltaStore, MapEnd, AdvanceWidth;
    var width := AdvanceWidth(data[p]).value;
    var delta := Delta(data, p, width, cx.be).value;
    NewDeltaExact(cx, loc, loc + delta * caf, delta, caf);
  }

  /** A walk that begins with an advance of `d`, from the rows after it. */
  lemma WalkCons(data: seq<byte>, p: nat, end: nat, loc: nat, next: nat, caf: nat, be: bool, width: nat, d: nat, ws: seq<Row>)
    requires p < |data| && p < end && p + 1 + width <= end && next == loc + d * caf
    requires AdvanceWidth(data[p]) == Some(width) && Delta(data, p, width, be) == Some(d)
    requires Walk(data, p + 1 + width, end, next, caf, be) == Some(ws)
    ensures Walk(data, p, end, loc, caf, be) == Some([Row(p, Advance(width), loc)] + ws)
  {
    WalkStep(data, p, end, loc, next, caf, be, width, d);
  }

  lemma DivExact(x: nat, c: nat)
    requires c > 0 && x % c == 0
    ensures x / c * c == x
  {
  }

  lemma NewDeltaExact(cx: Ctx, loc: nat, next: nat, delta: nat, caf: nat)
    requires caf > 0 && NewDelta(cx, loc, next, delta, caf).Some?
    ensures NewDelta(cx, loc, next, delta, caf).value <= delta
    ensures NewDelta(cx, loc, next, delta, caf).value * caf + MapEnd(cx, loc) == MapEnd(cx, next)
  {
    var a, b := MapEnd(cx, loc), MapEnd(cx, next);
    DivExact(b - a, caf);
  }

  // ---- When a program can be re-spaced ---------------------------------------------------------

  /** The bytes left between two locations are a whole number of units, no more than there were. */
  predicate Spaced(cx: Ctx, loc: nat, next: nat, caf: nat)
    requires caf > 0
  {
    && next < M && MapEnd(cx, loc) <= MapEnd(cx, next)
    && MapEnd(cx, next) - MapEnd(cx, loc) <= next - loc && (MapEnd(cx, next) - MapEnd(cx, loc)) % caf == 0
  }

  /** Every advance of the rows can be stored anew. */
  ghost predicate AllSpaced(cx: Ctx, rows: seq<Row>, caf: nat)
    requires caf > 0
  {
    forall i: nat :: i + 1 < |rows| && rows[i].op.Advance? ==> Spaced(cx, rows[i].loc, rows[i + 1].loc, caf)
  }

  lemma AllSpacedCons(cx: Ctx, r: Row, rows: seq<Row>, caf: nat)
    requires caf > 0 && rows != []
    ensures AllSpaced(cx, [r] + rows, caf)
       <==> (r.op.Advance? ==> Spaced(cx, r.loc, rows[0].loc, caf)) && AllSpaced(cx, rows, caf)
  {
    hide Spaced;
    var s := [r] + rows;
    assert s[0] == r && s[1] == rows[0];
    if AllSpaced(cx, s, caf) {
      forall i: nat | i + 1 < |rows| && rows[i].op.Advance?
        ensures Spaced(cx, rows[i].loc, rows[i + 1].loc, caf)
      {
        assert s[i + 1] == rows[i] && s[i + 2] == rows[i + 1];
      }
    }
    if (r.op.Advance? ==> Spaced(cx, r.loc, rows[0].loc, caf)) && AllSpaced(cx, rows, caf) {
      forall i: nat | i + 1 < |s| && s[i].op.Advance?
        ensures Spaced(cx, s[i].loc, s[i + 1].loc, caf)
      {
        if i > 0 { assert s[i] == rows[i - 1] && s[i + 1] == rows[i]; }
      }
    }
  }

  lemma SpacedExact(cx: Ctx, p: nat, width: nat, delta: nat, loc: nat, next: nat, caf: nat)
    requires caf > 0 && next == loc + delta * caf
    ensures PlanAdvance(p, width, delta, loc, caf, cx).Some? <==> Spaced(cx, loc, next, caf)
  {
    hide MapEnd;
    var a, b := MapEnd(cx, loc), MapEnd(cx, next);
    if a <= b && (b - a) % caf == 0 { Quotients((b - a) / caf, delta, caf); }
  }

  lemma Quotients(x: nat, y: nat, caf: nat)
    requires caf > 0
    ensures x <= y <==> x * caf <= y * caf
  {
    if x <= y { assert x * caf <= y * caf; } else { assert (y + 1) * caf <= x * caf; }
  }

  lemma WalkStarts(data: seq<byte>, p: nat, end: nat, loc: nat, caf: nat, be: bool)
    requires Walk(data, p, end, loc, caf, be).Some?
    ensures var rows := Walk(data, p, end, loc, caf, be).value; rows != [] && rows[0].loc == loc
  {
  }

  /** A plan is found exactly for the programs that walk and whose every advance can be stored anew. */
  lemma {:induction false} PlanExact(data: seq<byte>, p: nat, end: nat, loc: nat, caf: nat, cx: Ctx)
    requires caf > 0
    ensures PlanFrom(data, p, end, loc, caf, cx).Some?
       <==> Walk(data, p, end, loc, caf, cx.be).Some? && AllSpaced(cx, Walk(data, p, end, loc, caf, cx.be).value, caf)
    decreases end - p
  {
    hide Delta, AdvanceWidth, SkipCfaOp, PlainOp, Spaced, AllSpaced, PlanAdvance;
    if p < end && p < |data| {
      match AdvanceWidth(data[p])
      case None => PlanExactOther(data, p, end, loc, caf, cx);
      case Some(width) =>
        if p + 1 + width <= end && Delta(data, p, width, cx.be).Some? { PlanExactAdvance(data, p, end, loc, caf, cx); }
    } else if p >= end {
      NothingSpaced(cx, Row(p, End, loc), caf);
    }
  }

  lemma NothingSpaced(cx: Ctx, r: Row, caf: nat)
    requires caf > 0
    ensures AllSpaced(cx, [r], caf)
  {
  }

  lemma PlanExactOther(data: seq<byte>, p: nat, end: nat, loc: nat, caf: nat, cx: Ctx)
    requires caf > 0 && p < end && p < |data| && AdvanceWidth(data[p]).None?
    ensures PlanFrom(data, p, end, loc, caf, cx).Some?
       <==> Walk(data, p, end, loc, caf, cx.be).Some? && AllSpaced(cx, Walk(data, p, end, loc, caf, cx.be).value, caf)
    decreases end - p, 0
  {
    hide Delta, AdvanceWidth, SkipCfaOp, PlainOp, Spaced, AllSpaced, PlanAdvance;
    var q := SkipCfaOp(data, p, end);
    if q.Some? {
      PlanExact(data, q.value, end, loc, caf, cx);
      var rest := Walk(data, q.value, end, loc, caf, cx.be);
      if rest.Some? {
        WalkStarts(data, q.value, end, loc, caf, cx.be);
        AllSpacedCons(cx, Row(p, PlainOp(data, p, q.value), loc), rest.value, caf);
      }
    }
  }

  lemma PlanStep(data: seq<byte>, p: nat, end: nat, loc: nat, caf: nat, cx: Ctx, width: nat, delta: nat)
    requires caf > 0 && p < end && p < |data| && AdvanceWidth(data[p]) == Some(width)
    requires p + 1 + width <= end && Delta(data, p, width, cx.be) == Some(delta)
    ensures PlanFrom(data, p, end, loc, caf, cx).Some?
       <==> PlanAdvance(p, width, delta, loc, caf, cx).Some? && PlanFrom(data, p + 1 + width, end, loc + delta * caf, caf, cx).Some?
  {
    hide Delta, AdvanceWidth, SkipCfaOp, NewDelta, DeltaStore;
  }

  lemma PlanExactAdvance(data: seq<byte>, p: nat, end: nat, loc: nat, caf: nat, cx: Ctx)
    requires caf > 0 && p < end && p < |data| && AdvanceWidth(data[p]).Some?
    requires p + 1 + AdvanceWidth(data[p]).value <= end && Delta(data, p, AdvanceWidth(data[p]).value, cx.be).Some?
    ensures PlanFrom(data, p, end, loc, caf, cx).Some?
       <==> Walk(data, p, end, loc, caf, cx.be).Some? && AllSpaced(cx, Walk(data, p, end, loc, caf, cx.be).value, caf)
    decreases end - p, 0
  {
    hide Delta, AdvanceWidth, SkipCfaOp, PlainOp, Spaced, AllSpaced, Walk, PlanFrom, PlanAdvance;
    var width := AdvanceWidth(data[p]).value;
    var delta := Delta(data, p, width, cx.be).value;
    var q, next := p + 1 + width, loc + delta * caf;
    SpacedExact(cx, p, width, delta, loc, next, caf);
    PlanExact(data, q, end, next, caf, cx);
    PlanStep(data, p, end, loc, caf, cx, width, delta);
    WalkStep(data, p, end, loc, next, caf, cx.be, width, delta);
    var rest := Walk(data, q, end, next, caf, cx.be);
    if rest.Some? {
      WalkStarts(data, q, end, next, caf, cx.be);
      AllSpacedCons(cx, Row(p, Advance(width), loc), rest.value, caf);
    }
  }
}
