/**
 The whole RISC-V patcher (src/arch/riscv_patch.rs:17-33, 342-484): AUIPC and the
 instruction that completes its address first, then branches one by one.

 Both passes work from the decoded words and write into one file.  They do not
 disturb each other because no instruction completes two AUIPCs and neither half of
 a pair is a branch.
 */
module RiscvPatch {
  import opened Wrappers
  import opened Bytes
  import opened AddressMap
  import opened Retarget
  import B = RiscvBranch
  import P = RiscvPair

  // ---- Finding the other half (riscv_patch.rs:384-419) -------------------------------

  function WordOf(ins: Instr): nat { LeValue(ins.raw) }

  function Rd(ins: Instr): nat { WordOf(ins) / 0x80 % 0x20 }

  function Rs1(ins: Instr): nat { WordOf(ins) / 0x8000 % 0x20 }

  function Opcode(ins: Instr): nat { WordOf(ins) % 0x80 }

  /** JALR, a load, an I-type operation or a store based on register `rd`. */
  predicate Uses(ins: Instr, rd: nat) {
    |ins.raw| == 4 && Rs1(ins) == rd && Opcode(ins) in {0x67, 0x03, 0x13, 0x23}
  }

  predicate Overwrites(ins: Instr, rd: nat) { |ins.raw| == 4 && Rd(ins) == rd && Opcode(ins) != 0x23 }

  predicate IsAuipc(ins: Instr) { |ins.raw| == 4 && Opcode(ins) == 0x17 && Rd(ins) != 0 }

  /** `k` is the first of the four instructions after `i` to use `rd`, and none
      before it overwrites `rd`. */
  predicate Completes(instrs: seq<Instr>, i: nat, k: nat, rd: nat) {
    && i < k < |instrs| && k <= i + 4 && Uses(instrs[k], rd)
    && forall j: nat :: i < j < k ==> !Uses(instrs[j], rd) && !Overwrites(instrs[j], rd)
  }

  /** `find_auipc_pair`. */
  method FindAuipcPair(instrs: seq<Instr>, i: nat, rd: nat) returns (r: Option<nat>)
    requires i < |instrs|
    ensures r.Some? ==> Completes(instrs, i, r.value, rd)
    ensures r.None? ==> forall k: nat :: !Completes(instrs, i, k, rd)
  {
    var limit := if |instrs| - (i + 1) < 4 then |instrs| - (i + 1) else 4;
    for off := 1 to limit + 1
      invariant forall j: nat :: i < j < i + off ==> !Uses(instrs[j], rd) && !Overwrites(instrs[j], rd)
    {
      if Uses(instrs[i + off], rd) {
        return Some(i + off);
      }
      if Overwrites(instrs[i + off], rd) {
        return None;
      }
    }
    r := None;
  }

  /** The live AUIPC `i` and its completion `k`, both in a file of `n` bytes. */
  predicate Paired(instrs: seq<Instr>, ivs: Intervals, n: nat, i: nat, k: nat) {
    && i < |instrs| && k < |instrs| && IsAuipc(instrs[i]) && !InDead(instrs[i].addr, ivs)
    && Completes(instrs, i, k, Rd(instrs[i])) && InFile(instrs[i], n) && InFile(instrs[k], n)
  }

  /** Pairs have no instruction in common. */
  lemma PairsApart(instrs: seq<Instr>, ivs: Intervals, n: nat, i: nat, k: nat, i2: nat, k2: nat)
    requires Paired(instrs, ivs, n, i, k) && Paired(instrs, ivs, n, i2, k2)
    ensures i != k2 && (i == i2 <==> k == k2)
  {
    hide LeValue, InDead;
  }

  // ---- Patching the pairs (riscv_patch.rs:342-381, 421-484) ----------------------------

  /** The bytes held for a pair are the patched words. */
  predicate PairHeld(a: Instr, ha: seq<byte>, p: Instr, hp: seq<byte>, ivs: Intervals, ts: nat, te: nat) {
    |ha| == 4 == |hp| && (LeValue(ha), LeValue(hp)) == P.PatchPair(WordOf(a), WordOf(p), a.addr, ivs, ts, te)
  }

  /** One of the first `m` instructions is an AUIPC whose pair has `j`. */
  ghost predicate Touched(instrs: seq<Instr>, ivs: Intervals, n: nat, m: nat, j: nat) {
    exists i: nat, k: nat :: i < m && Paired(instrs, ivs, n, i, k) && (j == i || j == k)
  }

  /** The AUIPCs among the first `m` instructions are patched, nothing else is. */
  ghost predicate PairsDone(instrs: seq<Instr>, held: seq<seq<byte>>, ivs: Intervals, ts: nat, te: nat, n: nat, m: nat) {
    && |held| == |instrs|
    && (forall i: nat, k: nat :: i < m && Paired(instrs, ivs, n, i, k) ==>
          PairHeld(instrs[i], held[i], instrs[k], held[k], ivs, ts, te))
    && (forall j: nat :: j < |instrs| && !Touched(instrs, ivs, n, m, j) ==> held[j] == instrs[j].raw)
  }

  lemma Untouched(instrs: seq<Instr>, ivs: Intervals, n: nat, i: nat, k: nat)
    requires Paired(instrs, ivs, n, i, k)
    ensures !Touched(instrs, ivs, n, i, i) && !Touched(instrs, ivs, n, i, k)
  {
    if i2: nat, k2: nat :| i2 < i && Paired(instrs, ivs, n, i2, k2) && (i == i2 || i == k2 || k == i2 || k == k2) {
      PairsApart(instrs, ivs, n, i, k, i2, k2);
      PairsApart(instrs, ivs, n, i2, k2, i, k);
    }
  }

  lemma PairStep(instrs: seq<Instr>, held: seq<seq<byte>>, ivs: Intervals, ts: nat, te: nat, n: nat, i: nat, k: nat,
                 x: seq<byte>, y: seq<byte>)
    requires PairsDone(instrs, held, ivs, ts, te, n, i) && Paired(instrs, ivs, n, i, k)
    requires PairHeld(instrs[i], x, instrs[k], y, ivs, ts, te)
    ensures PairsDone(instrs, held[i := x][k := y], ivs, ts, te, n, i + 1)
  {
    hide PairHeld;
    var now := held[i := x][k := y];
    forall i2: nat, k2: nat | i2 < i + 1 && Paired(instrs, ivs, n, i2, k2)
      ensures PairHeld(instrs[i2], now[i2], instrs[k2], now[k2], ivs, ts, te)
    {
      PairsApart(instrs, ivs, n, i, k, i2, k2);
      PairsApart(instrs, ivs, n, i2, k2, i, k);
    }
    forall j: nat | j < |instrs| && !Touched(instrs, ivs, n, i + 1, j) ensures now[j] == instrs[j].raw {
      assert j != i && j != k;
    }
  }

  lemma NoPairStep(instrs: seq<Instr>, held: seq<seq<byte>>, ivs: Intervals, ts: nat, te: nat, n: nat, i: nat)
    requires PairsDone(instrs, held, ivs, ts, te, n, i) && forall k: nat :: !Paired(instrs, ivs, n, i, k)
    ensures PairsDone(instrs, held, ivs, ts, te, n, i + 1)
  {
    hide PairHeld, Paired;
  }

  lemma PatchedSmall(aw: nat, pw: nat, addr: nat, ivs: Intervals, ts: nat, te: nat)
    requires aw < 0x1_0000_0000 && pw < 0x1_0000_0000
    ensures P.PatchPair(aw, pw, addr, ivs, ts, te).0 < 0x1_0000_0000
    ensures P.PatchPair(aw, pw, addr, ivs, ts, te).1 < 0x1_0000_0000
  {
    hide P.Hi20, P.Lo12, P.Offset, TotalShift, Wrap64;
    forall hi: int ensures P.SetUpper(aw, hi) < 0x1_0000_0000 { }
    forall lo: int ensures P.SetLower(pw, lo) < 0x1_0000_0000 { }
  }

  /** `do_patch_auipc_pair` as the bytes of the two words. */
  function PairBytes(a: Instr, p: Instr, ivs: Intervals, ts: nat, te: nat): (seq<byte>, seq<byte>) {
    var (aw, pw) := P.PatchPair(WordOf(a), WordOf(p), a.addr, ivs, ts, te);
    (LeBytes(aw, 4), LeBytes(pw, 4))
  }

  lemma PairBytesHeld(a: Instr, p: Instr, ivs: Intervals, ts: nat, te: nat)
    requires |a.raw| == 4 == |p.raw|
    ensures var (x, y) := PairBytes(a, p, ivs, ts, te); PairHeld(a, x, p, y, ivs, ts, te)
  {
    hide P.PatchPair;
    assert Pow256(4) == 0x1_0000_0000;
    ValueBound(a.raw, false);
    ValueBound(p.raw, false);
    PatchedSmall(WordOf(a), WordOf(p), a.addr, ivs, ts, te);
    var (aw, pw) := P.PatchPair(WordOf(a), WordOf(p), a.addr, ivs, ts, te);
    LeRoundTrip(aw, 4);
    LeRoundTrip(pw, 4);
  }

  /** File byte `x` belongs to an instruction of a pair. */
  ghost predicate OfPair(instrs: seq<Instr>, ivs: Intervals, n: nat, x: nat) {
    exists j: nat :: j < |instrs| && Touched(instrs, ivs, n, |instrs|, j)
      && instrs[j].foff <= x < instrs[j].foff + |instrs[j].raw|
  }

  lemma TouchedBytes(instrs: seq<Instr>, ivs: Intervals, n: nat, i: nat, k: nat, x: nat)
    requires Paired(instrs, ivs, n, i, k) && !OfPair(instrs, ivs, n, x)
    ensures !(instrs[i].foff <= x < instrs[i].foff + |instrs[i].raw|)
    ensures !(instrs[k].foff <= x < instrs[k].foff + |instrs[k].raw|)
  {
    assert Touched(instrs, ivs, n, |instrs|, i) && Touched(instrs, ivs, n, |instrs|, k);
  }

  /** `do_patch_auipc_pair` on the pair of `i` and `k`. */
  method PatchPairAt(data: array<byte>, instrs: seq<Instr>, ghost held: seq<seq<byte>>, i: nat, k: nat, ivs: Intervals,
                     ts: nat, te: nat) returns (ghost now: seq<seq<byte>>)
    requires Spread(instrs) && Held(data[..], instrs, held) && PairsDone(instrs, held, ivs, ts, te, data.Length, i)
    requires Paired(instrs, ivs, data.Length, i, k)
    modifies data
    ensures Held(data[..], instrs, now) && PairsDone(instrs, now, ivs, ts, te, data.Length, i + 1)
    ensures forall x: nat :: x < data.Length && !OfPair(instrs, ivs, data.Length, x) ==> data[x] == old(data[x])
  {
    hide Spread, Held, PairHeld, OfPair, PairBytes, P.PatchPair, TotalShift;
    var a, p, n := instrs[i], instrs[k], data.Length;
    var target := Wrap64(a.addr + P.Offset(WordOf(a), WordOf(p)));
    if TotalShift(a.addr, ivs, ts, te) == TotalShift(target, ivs, ts, te) {
      Untouched(instrs, ivs, n, i, k);
      PairUnmoved(a, p, ivs, ts, te);
      now := held;
      PairStep(instrs, held, ivs, ts, te, n, i, k, held[i], held[k]);
      assert held[i := held[i]][k := held[k]] == held;
      return;
    }
    var (x, y) := PairBytes(a, p, ivs, ts, te);
    PairBytesHeld(a, p, ivs, ts, te);
    assert |x| == 4 == |y| by { PairLength(a, p, ivs, ts, te); }
    ghost var d0 := data[..];
    WriteBytes(data, a.foff, x);
    ghost var d1 := data[..];
    HeldNext(d0, d1, instrs, held, i, x);
    WriteBytes(data, p.foff, y);
    HeldNext(d1, data[..], instrs, held[i := x], k, y);
    now := held[i := x][k := y];
    PairStep(instrs, held, ivs, ts, te, n, i, k, x, y);
    forall z: nat | z < n && !OfPair(instrs, ivs, n, z) ensures data[z] == old(data[z]) {
      TouchedBytes(instrs, ivs, n, i, k, z);
      assert data[z] == d1[z] == d0[z];
    }
  }

  lemma PairLength(a: Instr, p: Instr, ivs: Intervals, ts: nat, te: nat)
    ensures var (x, y) := PairBytes(a, p, ivs, ts, te); |x| == 4 == |y|
  {
  }

  lemma PairUnmoved(a: Instr, p: Instr, ivs: Intervals, ts: nat, te: nat)
    requires |a.raw| == 4 == |p.raw|
    requires var target := Wrap64(a.addr + P.Offset(WordOf(a), WordOf(p)));
      TotalShift(a.addr, ivs, ts, te) == TotalShift(target, ivs, ts, te)
    ensures PairHeld(a, a.raw, p, p.raw, ivs, ts, te)
  {
    hide P.Offset, TotalShift;
  }

  lemma CompletesOnce(instrs: seq<Instr>, i: nat, k: nat, k2: nat, rd: nat)
    requires Completes(instrs, i, k, rd) && Completes(instrs, i, k2, rd)
    ensures k == k2
  {
  }

  /** `patch_auipc_pairs`. */
  method PatchAuipcPairs(data: array<byte>, instrs: seq<Instr>, ivs: Intervals, ts: nat, te: nat)
      returns (ghost held: seq<seq<byte>>)
    requires Spread(instrs) && Decoded(data[..], instrs)
    modifies data
    ensures Held(data[..], instrs, held) && PairsDone(instrs, held, ivs, ts, te, data.Length, |instrs|)
    ensures forall x: nat :: x < data.Length && !OfPair(instrs, ivs, data.Length, x) ==> data[x] == old(data[x])
  {
    hide Spread, PairHeld, Touched, OfPair, IsAuipc, Completes, HoldsAt;
    held := Raws(instrs);
    var n := data.Length;
    for i := 0 to |instrs|
      invariant Held(data[..], instrs, held) && PairsDone(instrs, held, ivs, ts, te, n, i)
      invariant forall x: nat :: x < n && !OfPair(instrs, ivs, n, x) ==> data[x] == old(data[x])
    {
      var a := instrs[i];
      var found := None;
      if !InDead(a.addr, ivs) && IsAuipc(a) { found := FindAuipcPair(instrs, i, Rd(a)); }
      if found.None? || !InFile(a, n) || !InFile(instrs[found.value], n) {
        forall k: nat ensures !Paired(instrs, ivs, n, i, k) {
          if Paired(instrs, ivs, n, i, k) { CompletesOnce(instrs, i, k, found.value, Rd(a)); }
        }
        NoPairStep(instrs, held, ivs, ts, te, n, i);
      } else {
        assert Paired(instrs, ivs, n, i, found.value);
        held := PatchPairAt(data, instrs, held, i, found.value, ivs, ts, te);
      }
    }
  }

  // ---- Both passes (riscv_patch.rs:17-33) --------------------------------------------------

  /** The file holds the pair of `a` and `p` as patched. */
  ghost predicate PairIn(d: seq<byte>, a: Instr, p: Instr, ivs: Intervals, ts: nat, te: nat)
    requires a.foff + 4 <= |d| && p.foff + 4 <= |d|
  {
    (B.WordAt(d, a.foff, 4), B.WordAt(d, p.foff, 4)) == P.PatchPair(WordOf(a), WordOf(p), a.addr, ivs, ts, te)
  }

  /** The pair stays and designates something in or before .text. */
  ghost predicate StayingPair(a: Instr, p: Instr, ivs: Intervals, ts: nat, te: nat) {
    && WhollyLive(a.addr, 4, ivs, ts, te) && te <= M64
    && 0 <= a.addr + P.Offset(WordOf(a), WordOf(p)) < te
  }

  /** The pair in the file, from its new address, designates where its target went. */
  ghost predicate PairFollowsIn(d: seq<byte>, a: Instr, p: Instr, ivs: Intervals, ts: nat, te: nat)
    requires a.foff + 4 <= |d| && p.foff + 4 <= |d| && StayingPair(a, p, ivs, ts, te)
  {
    Moved(a.addr, ivs, ts, te) + P.Offset(B.WordAt(d, a.foff, 4), B.WordAt(d, p.foff, 4))
    == Moved(a.addr + P.Offset(WordOf(a), WordOf(p)), ivs, ts, te)
  }

  /**
   After `patch_branches` every pair is the patched one, every pair that stays
   designates where its target went, a later use of its register does exactly when its
   target moves with the upper part, every branch that stays follows its target, and
   only live instructions and halves of pairs have changed.
   */
  method PatchBranches(data: array<byte>, instrs: seq<Instr>, ivs: Intervals, ts: nat, te: nat)
    requires Spread(instrs) && Decoded(data[..], instrs)
    modifies data
    ensures forall i: nat, k: nat :: Paired(instrs, ivs, data.Length, i, k) ==>
      PairIn(data[..], instrs[i], instrs[k], ivs, ts, te)
    ensures forall i: nat, k: nat :: Paired(instrs, ivs, data.Length, i, k) && StayingPair(instrs[i], instrs[k], ivs, ts, te) ==>
      PairFollowsIn(data[..], instrs[i], instrs[k], ivs, ts, te)
    ensures forall i: nat, k: nat, m: nat ::
      Paired(instrs, ivs, data.Length, i, k) && LaterUser(instrs, i, k, m) && InFile(instrs[m], data.Length) ==>
      LaterIn(data[..], instrs[i], instrs[k], instrs[m], ivs, ts, te)
    ensures forall i: nat :: i < |instrs| && B.Staying(instrs[i], data.Length, ivs, ts, te) ==>
      B.FollowsIn(data[..], instrs[i], ivs, ts, te)
    ensures forall x: nat :: x < data.Length && !OfLive(instrs, ivs, x) && !OfPair(instrs, ivs, data.Length, x) ==>
      data[x] == old(data[x])
  {
    var n := data.Length;
    ghost var held := PatchAuipcPairs(data, instrs, ivs, ts, te);
    var patch: Patcher := (ins: Instr) => B.PatchBytes(ins, ivs, ts, te);
    PatchOver(data, instrs, held, ivs, patch);
    ghost var d := data[..];
    forall i: nat, k: nat | Paired(instrs, ivs, n, i, k)
      ensures PairIn(d, instrs[i], instrs[k], ivs, ts, te)
      ensures StayingPair(instrs[i], instrs[k], ivs, ts, te) ==> PairFollowsIn(d, instrs[i], instrs[k], ivs, ts, te)
    {
      PairInFile(d, instrs, held, ivs, ts, te, patch, i, k);
      if StayingPair(instrs[i], instrs[k], ivs, ts, te) { PairFollowed(d, instrs[i], instrs[k], ivs, ts, te); }
    }
    forall i: nat, k: nat, m: nat | Paired(instrs, ivs, n, i, k) && LaterUser(instrs, i, k, m) && InFile(instrs[m], n)
      ensures LaterIn(d, instrs[i], instrs[k], instrs[m], ivs, ts, te)
    {
      LaterInFile(d, instrs, held, ivs, ts, te, patch, i, k, m);
    }
    forall i: nat | i < |instrs| && B.Staying(instrs[i], n, ivs, ts, te)
      ensures B.FollowsIn(d, instrs[i], ivs, ts, te)
    {
      BranchHeld(d, instrs, held, ivs, ts, te, patch, i);
    }
  }

  /** `m` also uses the register of the AUIPC `i`, after its completion `k`. */
  predicate LaterUser(instrs: seq<Instr>, i: nat, k: nat, m: nat) {
    && i < k < m < |instrs| && Uses(instrs[m], Rd(instrs[i]))
    && forall j: nat :: i < j < m ==> !Overwrites(instrs[j], Rd(instrs[i]))
  }

  /** It completes no other AUIPC, so neither pass changes it. */
  lemma LaterApart(instrs: seq<Instr>, ivs: Intervals, n: nat, i: nat, k: nat, m: nat, i2: nat, k2: nat)
    requires Paired(instrs, ivs, n, i, k) && LaterUser(instrs, i, k, m) && Paired(instrs, ivs, n, i2, k2)
    ensures m != i2 && m != k2
  {
    hide LeValue, InDead;
  }

  lemma LaterUntouched(instrs: seq<Instr>, ivs: Intervals, n: nat, i: nat, k: nat, m: nat)
    requires Paired(instrs, ivs, n, i, k) && LaterUser(instrs, i, k, m)
    ensures !Touched(instrs, ivs, n, |instrs|, m)
  {
    hide Paired, LaterUser;
    forall i2: nat, k2: nat | Paired(instrs, ivs, n, i2, k2) ensures m != i2 && m != k2 {
      LaterApart(instrs, ivs, n, i, k, m, i2, k2);
    }
  }

  /** The addresses of both uses are addresses, and the first stays in reach. */
  ghost predicate BothReach(a: Instr, p: Instr, u: Instr, ivs: Intervals, ts: nat, te: nat) {
    var off := P.Offset(WordOf(a), WordOf(p));
    && 0 <= a.addr + off < M64 && 0 <= a.addr + P.Offset(WordOf(a), WordOf(u))
    && P.InReach(NewDisp(off, a.addr, a.addr + off, ivs, ts, te))
  }

  /** The later use `u` keeps its word, and designates where its target went exactly
      when that moves with the upper part. */
  ghost predicate LaterIn(d: seq<byte>, a: Instr, p: Instr, u: Instr, ivs: Intervals, ts: nat, te: nat)
    requires a.foff + 4 <= |d| && u.foff + 4 <= |d|
  {
    && B.WordAt(d, u.foff, 4) == WordOf(u)
    && (BothReach(a, p, u, ivs, ts, te) ==>
          (Moved(a.addr, ivs, ts, te) + P.Offset(B.WordAt(d, a.foff, 4), B.WordAt(d, u.foff, 4))
           == Moved(a.addr + P.Offset(WordOf(a), WordOf(u)), ivs, ts, te)
           <==> P.MovesWithUpper(WordOf(a), WordOf(p), WordOf(u), a.addr, ivs, ts, te)))
  }

  lemma LaterInFile(d: seq<byte>, instrs: seq<Instr>, held: seq<seq<byte>>, ivs: Intervals, ts: nat, te: nat,
                    patch: Patcher, i: nat, k: nat, m: nat)
    requires PairsDone(instrs, held, ivs, ts, te, |d|, |instrs|) && Paired(instrs, ivs, |d|, i, k) && LaterUser(instrs, i, k, m)
    requires InFile(instrs[m], |d|) && patch(instrs[m]) == B.PatchBytes(instrs[m], ivs, ts, te)
    requires Held(d, instrs, Outcomes(instrs, held, ivs, patch, |instrs|))
    requires PairIn(d, instrs[i], instrs[k], ivs, ts, te)
    ensures LaterIn(d, instrs[i], instrs[k], instrs[m], ivs, ts, te)
  {
    hide P.PatchPair, P.Offset, P.MovesWithUpper, B.PatchBytes, LeValue, Touched, Completes, InDead, PairHeld, Overwrites,
         LaterIn, PairIn;
    LaterUntouched(instrs, ivs, |d|, i, k, m);
    Completion(instrs, i, k, Rd(instrs[i]));
    NoBranch(instrs[m], Rd(instrs[i]), ivs, ts, te);
    var out := Outcomes(instrs, held, ivs, patch, |instrs|);
    assert out[m] == instrs[m].raw && HoldsIn(d, instrs[m], out[m]);
    LaterFollows(d, instrs[i], instrs[k], instrs[m], ivs, ts, te);
  }

  lemma LaterFollows(d: seq<byte>, a: Instr, p: Instr, u: Instr, ivs: Intervals, ts: nat, te: nat)
    requires a.foff + 4 <= |d| && p.foff + 4 <= |d| && u.foff + 4 <= |d|
    requires PairIn(d, a, p, ivs, ts, te) && B.WordAt(d, u.foff, 4) == WordOf(u)
    ensures LaterIn(d, a, p, u, ivs, ts, te)
  {
    hide P.PatchPair, P.Offset, P.MovesWithUpper, LeValue, Shift, PageShrink;
    if BothReach(a, p, u, ivs, ts, te) { P.SecondUserExact(WordOf(a), WordOf(p), WordOf(u), a.addr, ivs, ts, te); }
  }

  /** The second pass leaves the halves of pairs alone. */
  lemma NoBranch(ins: Instr, rd: nat, ivs: Intervals, ts: nat, te: nat)
    requires IsAuipc(ins) || Uses(ins, rd)
    ensures B.PatchBytes(ins, ivs, ts, te) == ins.raw
  {
    hide LeValue;
    assert B.FormOf(WordOf(ins), 4) == B.Other;
    LeBack(ins.raw);
  }

  lemma PairInFile(d: seq<byte>, instrs: seq<Instr>, held: seq<seq<byte>>, ivs: Intervals, ts: nat, te: nat,
                   patch: Patcher, i: nat, k: nat)
    requires PairsDone(instrs, held, ivs, ts, te, |d|, |instrs|) && Paired(instrs, ivs, |d|, i, k)
    requires patch(instrs[i]) == B.PatchBytes(instrs[i], ivs, ts, te)
    requires patch(instrs[k]) == B.PatchBytes(instrs[k], ivs, ts, te)
    requires Held(d, instrs, Outcomes(instrs, held, ivs, patch, |instrs|))
    ensures PairIn(d, instrs[i], instrs[k], ivs, ts, te)
  {
    hide P.PatchPair, B.PatchBytes, LeValue, Touched, Completes, InDead;
    var rd := Rd(instrs[i]);
    assert Uses(instrs[k], rd) by { Completion(instrs, i, k, rd); }
    NoBranch(instrs[i], rd, ivs, ts, te);
    NoBranch(instrs[k], rd, ivs, ts, te);
    var out := Outcomes(instrs, held, ivs, patch, |instrs|);
    assert out[i] == held[i] && out[k] == held[k];
    assert HoldsIn(d, instrs[i], out[i]) && HoldsIn(d, instrs[k], out[k]);
    assert PairHeld(instrs[i], held[i], instrs[k], held[k], ivs, ts, te);
  }

  lemma Completion(instrs: seq<Instr>, i: nat, k: nat, rd: nat)
    requires Completes(instrs, i, k, rd)
    ensures k < |instrs| && Uses(instrs[k], rd)
  {
  }

  lemma PairFollowed(d: seq<byte>, a: Instr, p: Instr, ivs: Intervals, ts: nat, te: nat)
    requires a.foff + 4 <= |d| && p.foff + 4 <= |d| && PairIn(d, a, p, ivs, ts, te) && StayingPair(a, p, ivs, ts, te)
    ensures PairFollowsIn(d, a, p, ivs, ts, te)
  {
    hide P.PatchPair, P.Offset, LeValue;
    P.PairFollows(WordOf(a), WordOf(p), a.addr, ivs, ts, te);
  }

  /** A branch is no half of a pair. */
  lemma BranchUntouched(instrs: seq<Instr>, ivs: Intervals, n: nat, i: nat)
    requires i < |instrs| && |instrs[i].raw| in {2, 4} && B.FormOf(WordOf(instrs[i]), |instrs[i].raw|) != B.Other
    ensures !Touched(instrs, ivs, n, |instrs|, i)
  {
    hide LeValue;
  }

  lemma BranchHeld(d: seq<byte>, instrs: seq<Instr>, held: seq<seq<byte>>, ivs: Intervals, ts: nat, te: nat,
                   patch: Patcher, i: nat)
    requires PairsDone(instrs, held, ivs, ts, te, |d|, |instrs|) && i < |instrs|
    requires B.Staying(instrs[i], |d|, ivs, ts, te) && patch(instrs[i]) == B.PatchBytes(instrs[i], ivs, ts, te)
    requires Held(d, instrs, Outcomes(instrs, held, ivs, patch, |instrs|))
    ensures B.FollowsIn(d, instrs[i], ivs, ts, te)
  {
    hide B.Follows, B.PatchBytes, LeValue, B.Offset, B.FormOf, PairHeld;
    BranchUntouched(instrs, ivs, |d|, i);
    var out := Outcomes(instrs, held, ivs, patch, |instrs|);
    assert HoldsIn(d, instrs[i], out[i]);
    B.LiveStart(WordOf(instrs[i]), |instrs[i].raw|, instrs[i].addr, ivs, ts, te);
    B.BranchInFile(d, instrs[i], ivs, ts, te, patch);
  }
}
