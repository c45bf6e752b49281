/**
 x86 relative calls and jumps (src/arch/x86_patch.rs:23-119): E8, E9, EB, 0F 8x
 and 7x, behind any of the prefixes that leave the displacement alone.
 */
module X86Branch {
  import opened Wrappers
  import opened Bytes
  import opened AddressMap
  import opened Retarget

  predicate IsPrefix(b: byte) { b == 0x2e || b == 0x3e || b == 0x67 || b == 0xf2 }

  /** How many prefix bytes lead. */
  function Prefixes(raw: seq<byte>): (p: nat)
    ensures p <= |raw| && forall k: nat :: k < p ==> IsPrefix(raw[k])
    ensures p < |raw| ==> !IsPrefix(raw[p])
  {
    if raw == [] || !IsPrefix(raw[0]) then 0 else 1 + Prefixes(raw[1..])
  }

  lemma {:induction false} PrefixesUnique(raw: seq<byte>, p: nat)
    requires p < |raw| && !IsPrefix(raw[p]) && forall k: nat :: k < p ==> IsPrefix(raw[k])
    ensures Prefixes(raw) == p
  {
  }

  /** `from_le_bytes` of a signed field. */
  function Signed(b: seq<byte>): int {
    if |b| == 1 then (if b[0] < 0x80 then b[0] else b[0] - 0x100)
    else if LeValue(b) < 0x8000_0000 then LeValue(b) else LeValue(b) - 0x1_0000_0000
  }

  /** Where the displacement field of an unprefixed opcode lies: offset and size. */
  function FieldOf(raw: seq<byte>): Option<(nat, nat)> {
    if raw == [] then None
    else if (raw[0] == 0xe8 || raw[0] == 0xe9) && |raw| >= 5 then Some((1, 4))
    else if raw[0] == 0xeb && |raw| >= 2 then Some((1, 1))
    else if raw[0] == 0x0f && |raw| >= 6 && 0x80 <= raw[1] <= 0x8f then Some((2, 4))
    else if 0x70 <= raw[0] <= 0x7f && |raw| >= 2 then Some((1, 1))
    else None
  }

  /** The first `p` bytes of `raw` are prefixes, and the next one is not. */
  predicate Leads(raw: seq<byte>, p: nat) {
    p <= |raw| && (forall k: nat :: k < p ==> IsPrefix(raw[k])) && (p < |raw| ==> !IsPrefix(raw[p]))
  }

  /**
   `decode_rel_ref`: offset and size of the displacement, and its value.  The field
   is that of the opcode behind the prefixes, which the last one follows directly.
   */
  function DecodeRelRef(raw: seq<byte>): (r: Option<(nat, nat, int)>)
    ensures r.Some? ==> r.value.1 in {1, 4} && 0 < r.value.0 && r.value.0 + r.value.1 <= |raw|
    ensures forall p: nat :: Leads(raw, p) && r.Some? ==>
      p < r.value.0 && FieldOf(raw[p..]) == Some((r.value.0 - p, r.value.1))
    ensures forall p: nat :: Leads(raw, p) && r.None? ==> FieldOf(raw[p..]).None?
  {
    assert forall p: nat :: Leads(raw, p) ==> p == Prefixes(raw);
    var p := Prefixes(raw);
    var f := FieldOf(raw[p..]);
    if f.None? then None
    else Some((p + f.value.0, f.value.1, Signed(raw[p + f.value.0..p + f.value.0 + f.value.1])))
  }

  /** Two's complement in `n` bytes. */
  function Truncate(x: int, n: nat): (r: nat)
    requires n in {1, 4}
    ensures r < Pow256(n)
  {
    assert Pow256(1) == 0x100 && Pow256(4) == 0x1_0000_0000;
    if n == 1 then x % 0x100 else x % 0x1_0000_0000
  }

  predicate FitsField(x: int, n: nat) {
    if n == 1 then -0x80 <= x < 0x80 else -0x8000_0000 <= x < 0x8000_0000
  }

  lemma SignedReads(x: int, n: nat)
    requires n in {1, 4}
    ensures FitsField(Signed(LeBytes(Truncate(x, n), n)), n)
    ensures FitsField(x, n) ==> Signed(LeBytes(Truncate(x, n), n)) == x
  {
    LeRoundTrip(Truncate(x, n), n);
    if n == 1 { assert LeBytes(Truncate(x, 1), 1)[0] == x % 0x100; }
  }

  /** The instruction with displacement `x` written in its field. */
  function SetRel(raw: seq<byte>, x: int): (r: seq<byte>)
    requires DecodeRelRef(raw).Some?
    ensures |r| == |raw|
  {
    var (doff, dsz, _) := DecodeRelRef(raw).value;
    Put(raw, doff, LeBytes(Truncate(x, dsz), dsz))
  }

  /** Rewriting the displacement changes nothing else, and it reads back if it fits. */
  lemma SetRelReads(raw: seq<byte>, x: int)
    requires DecodeRelRef(raw).Some?
    ensures
      var (doff, dsz, _) := DecodeRelRef(raw).value;
      var r := DecodeRelRef(SetRel(raw, x));
      && r.Some? && r.value.0 == doff && r.value.1 == dsz && FitsField(r.value.2, dsz)
      && (FitsField(x, dsz) ==> r.value.2 == x)
      && forall k: nat :: k < |raw| && !(doff <= k < doff + dsz) ==> SetRel(raw, x)[k] == raw[k]
  {
    var (doff, dsz, _) := DecodeRelRef(raw).value;
    var raw2, p := SetRel(raw, x), Prefixes(raw);
    hide FieldOf, Signed;
    PrefixesUnique(raw2, p);
    FieldKept(raw[p..], raw2[p..]);
    SignedReads(x, dsz);
  }

  /** The field depends on the bytes before it alone. */
  lemma FieldKept(a: seq<byte>, b: seq<byte>)
    requires FieldOf(a).Some? && |a| == |b| && a[..FieldOf(a).value.0] == b[..FieldOf(a).value.0]
    ensures FieldOf(b) == FieldOf(a)
  {
    var n := FieldOf(a).value.0;
    assert a[0] == a[..n][0] == b[..n][0] == b[0];
    if n == 2 { assert a[1] == a[..n][1] == b[..n][1] == b[1]; }
  }

  /** `patch_one_rel` on the bytes of one instruction. */
  function PatchBytes(ins: Instr, ivs: Intervals, ts: nat, te: nat): (r: seq<byte>)
    ensures |r| == |ins.raw|
  {
    var d := DecodeRelRef(ins.raw);
    if d.None? then ins.raw
    else
      var rel := d.value.2;
      var target := Wrap64(ins.addr + |ins.raw| + rel);
      var delta := TotalShift(ins.addr, ivs, ts, te) - TotalShift(target, ivs, ts, te);
      if delta == 0 then ins.raw else SetRel(ins.raw, rel + delta)
  }

  /** A branch that stays, with its target in or before .text. */
  ghost predicate Retargetable(ins: Instr, ivs: Intervals, ts: nat, te: nat) {
    && DecodeRelRef(ins.raw).Some? && WhollyLive(ins.addr, |ins.raw|, ivs, ts, te) && te <= M64
    && 0 <= ins.addr + |ins.raw| + DecodeRelRef(ins.raw).value.2 < te
  }

  /**
   The bytes `b` are the same instruction but for its displacement, which from the
   new address leads where the target went and lies between zero and the old one.
   */
  ghost predicate Follows(ins: Instr, b: seq<byte>, ivs: Intervals, ts: nat, te: nat)
    requires Retargetable(ins, ivs, ts, te)
  {
    var (doff, dsz, rel) := DecodeRelRef(ins.raw).value;
    var d := DecodeRelRef(b);
    && |b| == |ins.raw| && d.Some? && d.value.0 == doff && d.value.1 == dsz
    && (forall k: nat :: k < |b| && !(doff <= k < doff + dsz) ==> b[k] == ins.raw[k])
    && Moved(ins.addr, ivs, ts, te) + |b| + d.value.2 == Moved(ins.addr + |ins.raw| + rel, ivs, ts, te)
    && Between(d.value.2, rel)
  }

  lemma RelFits(raw: seq<byte>)
    requires DecodeRelRef(raw).Some?
    ensures FitsField(DecodeRelRef(raw).value.2, DecodeRelRef(raw).value.1)
  {
    var (doff, dsz, _) := DecodeRelRef(raw).value;
    assert Pow256(4) == 0x1_0000_0000;
    ValueBound(raw[doff..doff + dsz], false);
  }

  lemma BranchFollows(ins: Instr, ivs: Intervals, ts: nat, te: nat)
    requires Retargetable(ins, ivs, ts, te)
    ensures Follows(ins, PatchBytes(ins, ivs, ts, te), ivs, ts, te)
  {
    hide DecodeRelRef, SetRel;
    var (doff, dsz, rel) := DecodeRelRef(ins.raw).value;
    var len := |ins.raw|;
    RelFits(ins.raw);
    DispShrinks(ins.addr, len, len, rel, ivs, ts, te);
    SetRelReads(ins.raw, NewDisp(rel, ins.addr, ins.addr + len + rel, ivs, ts, te));
  }

  /**
   A target after .text: the branch follows it exactly when the new displacement
   fits its field, which nothing checks.
   */
  lemma PastTextExact(ins: Instr, ivs: Intervals, ts: nat, te: nat)
    requires DecodeRelRef(ins.raw).Some? && WhollyLive(ins.addr, |ins.raw|, ivs, ts, te)
    requires te <= ins.addr + |ins.raw| + DecodeRelRef(ins.raw).value.2 < M64
    ensures
      var (_, dsz, rel) := DecodeRelRef(ins.raw).value;
      var target := ins.addr + |ins.raw| + rel;
      var d := DecodeRelRef(PatchBytes(ins, ivs, ts, te));
      && d.Some?
      && (Moved(ins.addr, ivs, ts, te) + |ins.raw| + d.value.2 == Moved(target, ivs, ts, te)
          <==> FitsField(NewDisp(rel, ins.addr, target, ivs, ts, te), dsz))
  {
    hide DecodeRelRef, SetRel;
    RelFits(ins.raw);
    var rel := DecodeRelRef(ins.raw).value.2;
    SetRelReads(ins.raw, NewDisp(rel, ins.addr, ins.addr + |ins.raw| + rel, ivs, ts, te));
  }

  /** And it can fail to: `jmp +127`, with 256 dead bytes below and no whole page to drop. */
  lemma PastTextLost()
    ensures
      var ins := Instr(0x1000, [0xeb, 0x7f], 0);
      var d := DecodeRelRef(PatchBytes(ins, GAP, 0, 0x1040));
      && DecodeRelRef(ins.raw) == Some((1, 1, 0x7f)) && WhollyLive(0x1000, 2, GAP, 0, 0x1040) && 0x1040 <= 0x1081
      && d.Some? && Moved(0x1000, GAP, 0, 0x1040) + 2 + d.value.2 != Moved(0x1081, GAP, 0, 0x1040)
  {
    hide Shift, PageShrink, PatchBytes;
    var ins := Instr(0x1000, [0xeb, 0x7f], 0);
    assert Prefixes(ins.raw) == 0;
    assert ins.raw[0..] == ins.raw;
    forall x: nat | 0x1000 <= x < 0x1002 ensures !InDead(x, GAP) { GapShifts(x); }
    GapShifts(0x1000);
    PastTextExact(ins, GAP, 0, 0x1040);
  }

  /** The branch of `ins` lies in the file, stays and can be retargeted. */
  ghost predicate Staying(ins: Instr, n: nat, ivs: Intervals, ts: nat, te: nat) {
    InFile(ins, n) && Retargetable(ins, ivs, ts, te)
  }

  /** What the file holds where `ins` was follows its target. */
  ghost predicate FollowsIn(d: seq<byte>, ins: Instr, ivs: Intervals, ts: nat, te: nat) {
    Staying(ins, |d|, ivs, ts, te) && Follows(ins, d[ins.foff..ins.foff + |ins.raw|], ivs, ts, te)
  }

  /** After `patch_call_jmp` every branch that stays follows its target. */
  method PatchCallJmp(data: array<byte>, instrs: seq<Instr>, ivs: Intervals, ts: nat, te: nat)
    requires Spread(instrs) && Decoded(data[..], instrs)
    modifies data
    ensures forall i: nat :: i < |instrs| && Staying(instrs[i], data.Length, ivs, ts, te) ==>
      FollowsIn(data[..], instrs[i], ivs, ts, te)
    ensures forall k: nat :: k < data.Length && !OfLive(instrs, ivs, k) ==> data[k] == old(data[k])
  {
    hide Follows, FollowsIn, Staying;
    var patch: Patcher := (ins: Instr) => PatchBytes(ins, ivs, ts, te);
    PatchAll(data, instrs, ivs, patch);
    forall i: nat | i < |instrs| && Staying(instrs[i], data.Length, ivs, ts, te)
      ensures FollowsIn(data[..], instrs[i], ivs, ts, te)
    {
      StayingInFile(instrs[i], data.Length, ivs, ts, te);
      BranchInFile(data[..], instrs[i], ivs, ts, te, patch);
    }
  }

  lemma StayingInFile(ins: Instr, n: nat, ivs: Intervals, ts: nat, te: nat)
    requires Staying(ins, n, ivs, ts, te)
    ensures InFile(ins, n)
  {
  }

  lemma BranchInFile(d: seq<byte>, ins: Instr, ivs: Intervals, ts: nat, te: nat, patch: Patcher)
    requires Staying(ins, |d|, ivs, ts, te)
    requires patch(ins) == PatchBytes(ins, ivs, ts, te)
    requires HoldsAt(d, ins.foff, BytesOf(ins, ivs, patch))
    ensures FollowsIn(d, ins, ivs, ts, te)
  {
    hide Follows, PatchBytes, DecodeRelRef;
    assert |ins.raw| > 0 by { NotEmpty(ins.raw); }
    assert !InDead(ins.addr, ivs);
    BranchFollows(ins, ivs, ts, te);
  }

  lemma NotEmpty(raw: seq<byte>)
    requires DecodeRelRef(raw).Some?
    ensures |raw| > 0
  {
  }
}
