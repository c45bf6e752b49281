/**
 Finding jump-table dispatches in x86 code (src/arch/x86_patch.rs:179-438): the
 straight-line dispatch pattern, the predecessor index of a code run, and the
 backward walk that asks whether one LEA is the base on every path.

 What the instruction decoder says of an instruction (registers written, the
 registers of an ADD, a LEA, a JMP) is taken as given, in `Ins`.
 */
module JumpTables {
  import opened Wrappers

  datatype Flow = Normal | Call | Jump | CondJump | Return | Halt | IndirectJump | IndirectCall

  /** One decoded instruction. */
  datatype Ins = Ins(addr: nat, len: nat, flow: Flow, target: Option<nat>, pcRel: Option<nat>, isCall: bool, endbr: bool,
                     padding: bool, leaReg: Option<nat>, writes: set<nat>, add: Option<(nat, nat)>,
                     jmpReg: Option<nat>, movslq: Option<(nat, nat)>)

  type Run = seq<Ins>

  const MAX_DISPATCH_GAP: nat := 8
  const MAX_WALK: nat := 8192
  const CALLER_SAVED: set<nat> := {0, 1, 2, 6, 7, 8, 9, 10, 11}

  predicate FallsThrough(f: Flow) { f !in {Return, Jump, IndirectJump, Halt} }

  // ---- RunCfg ------------------------------------------------------------------------

  /** Direct branches by target address, and addresses entered from elsewhere. */
  datatype RunCfg = RunCfg(preds: map<nat, seq<nat>>, entries: set<nat>)

  predicate BranchesTo(ins: Ins, t: nat) { (ins.flow == Jump || ins.flow == CondJump) && ins.target == Some(t) }

  /** The instruction makes `t` an entry: a call target or an address taken inside `[lo, hi)`. */
  predicate Enters(ins: Ins, lo: nat, hi: nat, t: nat) {
    (ins.flow == Call && ins.target == Some(t)) || (ins.pcRel == Some(t) && lo <= t < hi)
  }

  function RunLo(run: Run): nat { if run == [] then 0 else run[0].addr }

  function RunHi(run: Run): nat { if run == [] then 0 else run[|run| - 1].addr + run[|run| - 1].len }

  function At(m: map<nat, seq<nat>>, a: nat): seq<nat> { if a in m then m[a] else [] }

  /** `ks` are the branches to `t` among the first `n` instructions. */
  predicate ListsBranches(run: Run, ks: seq<nat>, t: nat, n: nat)
    requires n <= |run|
  {
    (forall i: nat :: i < |ks| ==> ks[i] < n && BranchesTo(run[ks[i]], t)) && (forall k: nat :: k < n && BranchesTo(run[k], t) ==> k in ks)
  }

  ghost predicate PredsIndexed(run: Run, preds: map<nat, seq<nat>>, n: nat) {
    n <= |run| && forall t: nat :: ListsBranches(run, At(preds, t), t, n)
  }

  ghost predicate EntriesIndexed(run: Run, entries: set<nat>, n: nat) {
    n <= |run| && forall t: nat :: t in entries <==> exists k: nat :: k < n && Enters(run[k], RunLo(run), RunHi(run), t)
  }

  /** The index covers exactly the first `n` instructions. */
  ghost predicate Indexes(run: Run, cfg: RunCfg, n: nat) {
    PredsIndexed(run, cfg.preds, n) && EntriesIndexed(run, cfg.entries, n)
  }

  lemma BranchNext(run: Run, ks: seq<nat>, t: nat, n: nat)
    requires n < |run| && ListsBranches(run, ks, t, n)
    ensures ListsBranches(run, if BranchesTo(run[n], t) then ks + [n] else ks, t, n + 1)
  {
  }

  lemma PredsNext(run: Run, preds: map<nat, seq<nat>>, n: nat)
    requires PredsIndexed(run, preds, n) && n < |run|
    ensures PredsIndexed(run, if (run[n].flow == Jump || run[n].flow == CondJump) && run[n].target.Some?
                              then preds[run[n].target.value := At(preds, run[n].target.value) + [n]] else preds, n + 1)
  {
    hide ListsBranches;
    var ins := run[n];
    var preds' := if (ins.flow == Jump || ins.flow == CondJump) && ins.target.Some?
                  then preds[ins.target.value := At(preds, ins.target.value) + [n]] else preds;
    forall t: nat
      ensures ListsBranches(run, At(preds', t), t, n + 1)
    {
      assert ListsBranches(run, At(preds, t), t, n);
      BranchNext(run, At(preds, t), t, n);
      assert At(preds', t) == if BranchesTo(ins, t) then At(preds, t) + [n] else At(preds, t);
    }
  }

  lemma EntriesNext(run: Run, entries: set<nat>, n: nat, more: set<nat>)
    requires EntriesIndexed(run, entries, n) && n < |run|
    requires forall t: nat :: t in more <==> Enters(run[n], RunLo(run), RunHi(run), t)
    ensures EntriesIndexed(run, entries + more, n + 1)
  {
    hide Enters, RunLo, RunHi;
    forall t: nat
      ensures t in entries + more <==> exists k: nat :: k < n + 1 && Enters(run[k], RunLo(run), RunHi(run), t)
    {
      if t in more { assert Enters(run[n], RunLo(run), RunHi(run), t); }
    }
  }

  /** The addresses that instruction `ins` makes entries. */
  function EntriesOf(ins: Ins, lo: nat, hi: nat): (r: set<nat>)
    ensures forall t: nat :: t in r <==> Enters(ins, lo, hi, t)
  {
    (if ins.flow == Call && ins.target.Some? then {ins.target.value} else {})
    + (if ins.pcRel.Some? && lo <= ins.pcRel.value < hi then {ins.pcRel.value} else {})
  }

  lemma NothingIndexed(run: Run)
    ensures PredsIndexed(run, map[], 0) && EntriesIndexed(run, {}, 0)
  {
  }

  /** `RunCfg::new`. */
  method NewRunCfg(run: Run) returns (cfg: RunCfg)
    ensures Indexes(run, cfg, |run|)
  {
    var lo, hi := RunLo(run), RunHi(run);
    var preds: map<nat, seq<nat>>, entries: set<nat> := map[], {};
    NothingIndexed(run);
    for k := 0 to |run|
      invariant PredsIndexed(run, preds, k) && EntriesIndexed(run, entries, k)
    {
      hide PredsIndexed, EntriesIndexed;
      var ins := run[k];
      ghost var was := entries;
      PredsNext(run, preds, k);
      if (ins.flow == Jump || ins.flow == CondJump) && ins.target.Some? {
        preds := preds[ins.target.value := At(preds, ins.target.value) + [k]];
      } else if ins.flow == Call && ins.target.Some? {
        entries := entries + {ins.target.value};
      }
      if ins.pcRel.Some? && lo <= ins.pcRel.value < hi {
        entries := entries + {ins.pcRel.value};
      }
      EntriesNext(run, was, k, EntriesOf(ins, lo, hi));
      assert entries == was + EntriesOf(ins, lo, hi);
    }
    cfg := RunCfg(preds, entries);
  }

  // ---- Predecessors ------------------------------------------------------------------

  /** Case edges: by target address, the dispatch jumps that reach it. */
  type Edges = map<nat, seq<nat>>

  /** `run[j]` is entered from outside the modelled flow. */
  ghost predicate Outside(run: Run, j: nat)
    requires j < |run|
  {
    || j == 0 || run[j].endbr
    || exists k: nat :: k < |run| && Enters(run[k], RunLo(run), RunHi(run), run[j].addr)
  }

  /** Control can pass from `run[k]` to `run[j]` along a modelled edge. */
  predicate Step(run: Run, edges: Option<Edges>, k: nat, j: nat) {
    && k < |run| && j < |run|
    && (BranchesTo(run[k], run[j].addr)
        || (k + 1 == j && FallsThrough(run[k].flow))
        || (edges.Some? && k in At(edges.value, run[j].addr)))
  }

  function Predecessors(run: Run, cfg: RunCfg, edges: Option<Edges>, j: nat): Option<seq<nat>>
    requires j < |run|
  {
    var addr := run[j].addr;
    if j == 0 || addr in cfg.entries || run[j].endbr then None
    else
      var preds := At(cfg.preds, addr) + (if FallsThrough(run[j - 1].flow) then [j - 1] else []);
      if edges.None? then Some(preds)
      else
        var all := preds + At(edges.value, addr);
        if all == [] && !run[j].padding then None else Some(all)
  }

  /** Nothing is known to lead to `run[j]`, and it is not mere padding. */
  ghost predicate Unexplained(run: Run, edges: Option<Edges>, j: nat)
    requires j < |run|
  {
    edges.Some? && !run[j].padding && forall k: nat :: !Step(run, edges, k, j)
  }

  /** Case edges name instructions of the run. */
  predicate EdgesIn(run: Run, edges: Option<Edges>) {
    edges.Some? ==> forall t, k :: t in edges.value && k in edges.value[t] ==> k < |run|
  }

  /** The index yields exactly the modelled edges, or tells that control may come from elsewhere. */
  lemma PredecessorsExact(run: Run, cfg: RunCfg, edges: Option<Edges>, j: nat)
    requires Indexes(run, cfg, |run|) && EdgesIn(run, edges) && j < |run|
    ensures Predecessors(run, cfg, edges, j).None? <==> Outside(run, j) || Unexplained(run, edges, j)
    ensures Predecessors(run, cfg, edges, j).Some? ==>
      forall k: nat :: k in Predecessors(run, cfg, edges, j).value <==> Step(run, edges, k, j)
  {
    if j > 0 {
      var preds := At(cfg.preds, run[j].addr) + (if FallsThrough(run[j - 1].flow) then [j - 1] else []);
      var all := preds + (if edges.Some? then At(edges.value, run[j].addr) else []);
      assert ListsBranches(run, At(cfg.preds, run[j].addr), run[j].addr, |run|);
      forall k: nat
        ensures k in all <==> Step(run, edges, k, j)
      {
        assert k in all <==> k in preds || (edges.Some? && k in At(edges.value, run[j].addr));
        assert k in preds <==> k in At(cfg.preds, run[j].addr) || (k == j - 1 && FallsThrough(run[k].flow));
      }
      if all != [] { assert all[0] in all; }
    }
  }

  // ---- Reaching definitions ------------------------------------------------------------

  datatype RegDef = Kept | Lea(base: nat) | Clobbered

  function DefOf(ins: Ins, reg: nat): RegDef {
    if ins.leaReg == Some(reg) then
      if ins.pcRel.Some? then Lea(ins.pcRel.value) else Clobbered
    else if (ins.isCall && reg in CALLER_SAVED) || reg in ins.writes then Clobbered
    else Kept
  }

  /** A path along modelled edges. */
  ghost predicate Path(run: Run, edges: Option<Edges>, path: seq<nat>) {
    && path != [] && (forall i: nat :: i < |path| ==> path[i] < |run|)
    && forall i: nat :: i + 1 < |path| ==> Step(run, edges, path[i], path[i + 1])
  }

  /** Every instruction of the path before its end keeps `reg`. */
  predicate KeptAlong(run: Run, path: seq<nat>, reg: nat) {
    forall i: nat :: i + 1 < |path| ==> path[i] < |run| && DefOf(run[path[i]], reg) == Kept
  }

  /** `run[j]` leads to `load` without the register being written on the way. */
  ghost predicate Seen(run: Run, edges: Option<Edges>, reg: nat, load: nat, j: nat) {
    exists path: seq<nat> :: SeenBy(run, edges, reg, load, j, path)
  }

  ghost predicate SeenBy(run: Run, edges: Option<Edges>, reg: nat, load: nat, j: nat, path: seq<nat>) {
    Path(run, edges, path) && KeptAlong(run, path, reg) && path[0] == j && path[|path| - 1] == load
  }

  /** The instructions the walk has to visit. */
  ghost function Region(run: Run, edges: Option<Edges>, reg: nat, load: nat): set<nat> {
    set j: nat | j < |run| && Seen(run, edges, reg, load, j)
  }

  lemma SeenStart(run: Run, edges: Option<Edges>, reg: nat, load: nat)
    requires load < |run|
    ensures Seen(run, edges, reg, load, load)
  {
    assert SeenBy(run, edges, reg, load, load, [load]);
  }

  lemma SeenBack(run: Run, edges: Option<Edges>, reg: nat, load: nat, p: nat, j: nat)
    requires Seen(run, edges, reg, load, j) && Step(run, edges, p, j) && DefOf(run[p], reg) == Kept
    ensures Seen(run, edges, reg, load, p)
  {
    var path :| SeenBy(run, edges, reg, load, j, path);
    var longer := [p] + path;
    forall i: nat | i + 1 < |longer|
      ensures Step(run, edges, longer[i], longer[i + 1]) && DefOf(run[longer[i]], reg) == Kept
    {
      if i > 0 { assert longer[i] == path[i - 1] && longer[i + 1] == path[i - 1 + 1]; }
    }
    assert SeenBy(run, edges, reg, load, p, longer);
  }

  /** Around `run[j]` every way in is known and brings `base` or keeps the register. */
  ghost predicate Sound(run: Run, edges: Option<Edges>, reg: nat, base: nat, j: nat) {
    && j < |run| && !Outside(run, j) && !Unexplained(run, edges, j)
    && forall p: nat :: Step(run, edges, p, j) ==> DefOf(run[p], reg) in {Kept, Lea(base)}
  }

  /** Some way into `run[j]` loads `base`. */
  ghost predicate Loads(run: Run, edges: Option<Edges>, reg: nat, base: nat, j: nat) {
    exists p: nat :: Step(run, edges, p, j) && DefOf(run[p], reg) == Lea(base)
  }

  /** What the walk decides: `base` is the one definition that reaches the load. */
  ghost predicate Reaches(run: Run, edges: Option<Edges>, reg: nat, load: nat, base: nat) {
    var region := Region(run, edges, reg, load);
    && |region| <= 8192
    && (forall j :: j in region ==> Sound(run, edges, reg, base, j))
    && exists j :: j in region && Loads(run, edges, reg, base, j)
  }

  // ---- The walk ------------------------------------------------------------------------

  /** What one visited instruction still owes: kept predecessors are visited or queued. */
  predicate Settled(run: Run, reg: nat, base: Option<nat>, seen: set<nat>, todo: seq<nat>, ps: seq<nat>) {
    forall p :: p in ps && p < |run| ==> SettledAt(run, reg, base, seen, todo, p)
  }

  predicate SettledAt(run: Run, reg: nat, base: Option<nat>, seen: set<nat>, todo: seq<nat>, p: nat)
    requires p < |run|
  {
    match DefOf(run[p], reg)
    case Kept => p in seen || p in todo
    case Lea(t) => base == Some(t)
    case Clobbered => false
  }

  ghost predicate Walked(run: Run, cfg: RunCfg, edges: Option<Edges>, reg: nat, load: nat, base: Option<nat>,
                         seen: set<nat>, todo: seq<nat>) {
    && Frontier(run, edges, reg, load, base, seen, todo)
    && (load in seen || load in todo)
    && forall j :: j in seen ==> SettledIns(run, cfg, edges, reg, base, seen, todo, j)
  }

  /** Everything visited or queued is in the region, and the base was loaded there. */
  ghost predicate Frontier(run: Run, edges: Option<Edges>, reg: nat, load: nat, base: Option<nat>,
                           seen: set<nat>, todo: seq<nat>) {
    && (forall j :: j in seen || j in todo ==> j in Region(run, edges, reg, load))
    && (base.Some? ==> exists j :: j in Region(run, edges, reg, load) && Loads(run, edges, reg, base.value, j))
  }

  predicate SettledIns(run: Run, cfg: RunCfg, edges: Option<Edges>, reg: nat, base: Option<nat>,
                       seen: set<nat>, todo: seq<nat>, j: nat) {
    && j < |run| && Predecessors(run, cfg, edges, j).Some?
    && Settled(run, reg, base, seen, todo, Predecessors(run, cfg, edges, j).value)
  }

  lemma RegionIn(run: Run, edges: Option<Edges>, reg: nat, load: nat, s: set<nat>)
    requires forall j :: j in s ==> j in Region(run, edges, reg, load)
    ensures |s| <= |Region(run, edges, reg, load)|
  {
    var r := Region(run, edges, reg, load);
    assert s <= r;
    CardinalMonotone(s, r);
  }

  lemma {:induction false} CardinalMonotone(a: set<nat>, b: set<nat>)
    requires a <= b
    ensures |a| <= |b|
    decreases |a|
  {
    if a != {} {
      var x :| x in a;
      CardinalMonotone(a - {x}, b - {x});
    }
  }

  /** Visiting `j`: its predecessor `p` brings a definition. */
  lemma LeaFound(run: Run, edges: Option<Edges>, reg: nat, load: nat, j: nat, p: nat)
    requires j in Region(run, edges, reg, load) && Step(run, edges, p, j) && DefOf(run[p], reg).Lea?
    ensures Loads(run, edges, reg, DefOf(run[p], reg).base, j)
    ensures forall b: nat :: Reaches(run, edges, reg, load, b) ==> b == DefOf(run[p], reg).base
  {
    forall b: nat | Reaches(run, edges, reg, load, b)
      ensures b == DefOf(run[p], reg).base
    {
      assert Sound(run, edges, reg, b, j);
    }
  }

  lemma NeverClobbered(run: Run, edges: Option<Edges>, reg: nat, load: nat, j: nat, p: nat)
    requires j in Region(run, edges, reg, load) && Step(run, edges, p, j) && DefOf(run[p], reg).Clobbered?
    ensures forall b: nat :: !Reaches(run, edges, reg, load, b)
  {
    forall b: nat
      ensures !Reaches(run, edges, reg, load, b)
    {
      if Reaches(run, edges, reg, load, b) {
        assert false;
      }
    }
  }

  lemma NeverOpen(run: Run, cfg: RunCfg, edges: Option<Edges>, reg: nat, load: nat, j: nat)
    requires Indexes(run, cfg, |run|) && EdgesIn(run, edges) && j in Region(run, edges, reg, load) && Predecessors(run, cfg, edges, j).None?
    ensures forall b: nat :: !Reaches(run, edges, reg, load, b)
  {
    PredecessorsExact(run, cfg, edges, j);
    forall b: nat
      ensures !Reaches(run, edges, reg, load, b)
    {
      if Reaches(run, edges, reg, load, b) {
        assert false;
      }
    }
  }

  /** A finished walk has visited the whole region. */
  lemma WalkCovers(run: Run, cfg: RunCfg, edges: Option<Edges>, reg: nat, load: nat, base: Option<nat>, seen: set<nat>, j: nat,
                   path: seq<nat>)
    requires Indexes(run, cfg, |run|) && EdgesIn(run, edges) && Walked(run, cfg, edges, reg, load, base, seen, [])
    requires SeenBy(run, edges, reg, load, j, path)
    ensures j in seen
    decreases |path|
  {
    if |path| > 1 {
      var rest := path[1..];
      forall i: nat | i + 1 < |rest|
        ensures Step(run, edges, rest[i], rest[i + 1]) && DefOf(run[rest[i]], reg) == Kept
      {
        assert rest[i] == path[i + 1] && rest[i + 1] == path[i + 1 + 1];
      }
      assert SeenBy(run, edges, reg, load, path[1], rest);
      WalkCovers(run, cfg, edges, reg, load, base, seen, path[1], rest);
      PredecessorsExact(run, cfg, edges, path[1]);
      assert Step(run, edges, path[0], path[0 + 1]);
      assert SettledAt(run, reg, base, seen, [], path[0]);
    }
  }

  /** With everything visited, the base found is the one that reaches. */
  lemma WalkDecides(run: Run, cfg: RunCfg, edges: Option<Edges>, reg: nat, load: nat, base: Option<nat>, seen: set<nat>)
    requires Indexes(run, cfg, |run|) && EdgesIn(run, edges) && Walked(run, cfg, edges, reg, load, base, seen, []) && |seen| <= MAX_WALK
    ensures forall b: nat :: base == Some(b) <==> Reaches(run, edges, reg, load, b)
  {
    var region := Region(run, edges, reg, load);
    forall j | j in region
      ensures j in seen
    {
      var path :| SeenBy(run, edges, reg, load, j, path);
      WalkCovers(run, cfg, edges, reg, load, base, seen, j, path);
    }
    assert seen == region;
    forall j | j in region
      ensures base.Some? ==> Sound(run, edges, reg, base.value, j)
      ensures forall b: nat :: Loads(run, edges, reg, b, j) ==> base == Some(b)
    {
      PredecessorsExact(run, cfg, edges, j);
      assert SettledIns(run, cfg, edges, reg, base, seen, [], j);
    }
  }

  /** Visiting only adds to what is settled. */
  lemma StaysSettled(run: Run, cfg: RunCfg, edges: Option<Edges>, reg: nat, base: Option<nat>, seen: set<nat>, todo: seq<nat>,
                     base': Option<nat>, seen': set<nat>, todo': seq<nat>, k: nat)
    requires SettledIns(run, cfg, edges, reg, base, seen, todo, k)
    requires (base.Some? ==> base' == base) && seen <= seen' && forall p :: p in seen || p in todo ==> p in seen' || p in todo'
    ensures SettledIns(run, cfg, edges, reg, base', seen', todo', k)
  {
    hide Predecessors, DefOf;
    var ps := Predecessors(run, cfg, edges, k).value;
    forall p | p in ps && p < |run|
      ensures SettledAt(run, reg, base', seen', todo', p)
    {
      assert SettledAt(run, reg, base, seen, todo, p);
    }
  }

  /** The inner loop: the definitions the predecessors `ps` of `j` bring. */
  method TakeDefs(run: Run, cfg: RunCfg, edges: Option<Edges>, reg: nat, load: nat, j: nat, ps: seq<nat>,
                  base0: Option<nat>, seen: set<nat>, todo0: seq<nat>)
    returns (ok: bool, base: Option<nat>, todo: seq<nat>)
    requires Frontier(run, edges, reg, load, base0, seen, todo0) && j in Region(run, edges, reg, load)
    requires forall i: nat :: i < |ps| ==> Step(run, edges, ps[i], j)
    ensures !ok ==> forall b: nat :: !Reaches(run, edges, reg, load, b)
    ensures ok ==> Frontier(run, edges, reg, load, base, seen, todo) && Settled(run, reg, base, seen, todo, ps)
    ensures ok ==> todo0 <= todo && (base0.Some? ==> base == base0)
  {
    hide Region, Reaches, Loads, DefOf, Step;
    base, todo := base0, todo0;
    for i := 0 to |ps|
      invariant Frontier(run, edges, reg, load, base, seen, todo)
      invariant Settled(run, reg, base, seen, todo, ps[..i])
      invariant todo0 <= todo && (base0.Some? ==> base == base0)
    {
      var p := ps[i];
      assert Step(run, edges, p, j);
      StepIn(run, edges, p, j);
      assert ps[..i + 1] == ps[..i] + [p];
      match DefOf(run[p], reg) {
        case Kept =>
          InRegion(run, edges, reg, load, p, j);
          todo := todo + [p];
        case Lea(t) =>
          LeaFound(run, edges, reg, load, j, p);
          if base.None? || base == Some(t) {
            base := Some(t);
          } else {
            OtherLea(run, edges, reg, load, base.value, t);
            return false, base, todo;
          }
        case Clobbered =>
          NeverClobbered(run, edges, reg, load, j, p);
          return false, base, todo;
      }
    }
    assert ps[..|ps|] == ps;
    ok := true;
  }

  lemma StepIn(run: Run, edges: Option<Edges>, p: nat, j: nat)
    requires Step(run, edges, p, j)
    ensures p < |run| && j < |run|
  {
  }

  lemma InRegion(run: Run, edges: Option<Edges>, reg: nat, load: nat, p: nat, j: nat)
    requires j in Region(run, edges, reg, load) && Step(run, edges, p, j) && DefOf(run[p], reg) == Kept
    ensures p in Region(run, edges, reg, load)
  {
    SeenBack(run, edges, reg, load, p, j);
  }

  /** Two bases cannot both reach. */
  lemma OtherLea(run: Run, edges: Option<Edges>, reg: nat, load: nat, a: nat, t: nat)
    requires exists j :: j in Region(run, edges, reg, load) && Loads(run, edges, reg, a, j)
    requires a != t && forall b: nat :: Reaches(run, edges, reg, load, b) ==> b == t
    ensures forall b: nat :: !Reaches(run, edges, reg, load, b)
  {
    var j :| j in Region(run, edges, reg, load) && Loads(run, edges, reg, a, j);
    var p: nat :| Step(run, edges, p, j) && DefOf(run[p], reg) == Lea(a);
    LeaFound(run, edges, reg, load, j, p);
  }

  ghost function IndicesTo(n: nat): (r: set<nat>)
    ensures forall j: nat :: j in r <==> j < n
  {
    if n == 0 then {} else IndicesTo(n - 1) + {n - 1}
  }

  ghost function Indices(run: Run): set<nat> { IndicesTo(|run|) }

  lemma InIndices(run: Run, edges: Option<Edges>, reg: nat, load: nat, j: nat)
    requires j in Region(run, edges, reg, load)
    ensures j in Indices(run) && j < |run|
  {
  }

  lemma WalkStarts(run: Run, cfg: RunCfg, edges: Option<Edges>, reg: nat, load: nat)
    requires load < |run|
    ensures Walked(run, cfg, edges, reg, load, None, {}, [load])
  {
    SeenStart(run, edges, reg, load);
  }

  /** Taking an instruction already visited off the queue. */
  lemma WalkSkips(run: Run, cfg: RunCfg, edges: Option<Edges>, reg: nat, load: nat, base: Option<nat>, seen: set<nat>,
                  todo: seq<nat>)
    requires Walked(run, cfg, edges, reg, load, base, seen, todo) && todo != [] && todo[|todo| - 1] in seen
    ensures Walked(run, cfg, edges, reg, load, base, seen, todo[..|todo| - 1])
  {
    hide Region, Loads, Predecessors, DefOf, SettledIns;
    var rest := todo[..|todo| - 1];
    assert todo == rest + [todo[|todo| - 1]];
    forall k | k in seen
      ensures SettledIns(run, cfg, edges, reg, base, seen, rest, k)
    {
      StaysSettled(run, cfg, edges, reg, base, seen, todo, base, seen, rest, k);
    }
  }

  /** Moving the end of the queue to the visited instructions. */
  lemma FrontierPops(run: Run, edges: Option<Edges>, reg: nat, load: nat, base: Option<nat>, seen: set<nat>, todo: seq<nat>)
    requires Frontier(run, edges, reg, load, base, seen, todo) && todo != []
    ensures Frontier(run, edges, reg, load, base, seen + {todo[|todo| - 1]}, todo[..|todo| - 1])
    ensures todo[|todo| - 1] in Region(run, edges, reg, load)
  {
    hide Region, Loads;
    assert todo[|todo| - 1] in todo;
  }

  /** One visit keeps the walk's invariant. */
  lemma WalkVisits(run: Run, cfg: RunCfg, edges: Option<Edges>, reg: nat, load: nat, base: Option<nat>, seen: set<nat>,
                   todo: seq<nat>, base': Option<nat>, todo': seq<nat>)
    requires Walked(run, cfg, edges, reg, load, base, seen, todo) && todo != []
    requires var j := todo[|todo| - 1];
      && Frontier(run, edges, reg, load, base', seen + {j}, todo') && todo[..|todo| - 1] <= todo'
      && (base.Some? ==> base' == base) && SettledIns(run, cfg, edges, reg, base', seen + {j}, todo', j)
    ensures Walked(run, cfg, edges, reg, load, base', seen + {todo[|todo| - 1]}, todo')
  {
    hide Region, Loads, Predecessors, DefOf, SettledIns, Frontier;
    var j, rest := todo[|todo| - 1], todo[..|todo| - 1];
    assert todo == rest + [j];
    forall p | p in seen || p in todo
      ensures p in seen + {j} || p in todo'
    {
      if p in rest { assert p in todo'; }
    }
    forall k | k in seen
      ensures SettledIns(run, cfg, edges, reg, base', seen + {j}, todo', k)
    {
      StaysSettled(run, cfg, edges, reg, base, seen, todo, base', seen + {j}, todo', k);
    }
  }

  lemma TooMany(run: Run, edges: Option<Edges>, reg: nat, load: nat, base: Option<nat>, seen: set<nat>, todo: seq<nat>)
    requires Frontier(run, edges, reg, load, base, seen, todo) && |seen| > MAX_WALK
    ensures forall b: nat :: !Reaches(run, edges, reg, load, b)
  {
    RegionIn(run, edges, reg, load, seen);
  }

  /** `reaching_lea`: exactly the base that reaches the load, if one does. */
  method ReachingLea(run: Run, cfg: RunCfg, edges: Option<Edges>, load: nat, reg: nat) returns (r: Option<nat>)
    requires Indexes(run, cfg, |run|) && EdgesIn(run, edges) && load < |run|
    ensures forall b: nat :: r == Some(b) <==> Reaches(run, edges, reg, load, b)
  {
    hide Region, Reaches, Loads, Predecessors, SettledIns, Indexes, EdgesIn, Frontier;
    var base: Option<nat> := None;
    var seen: set<nat> := {};
    var todo := [load];
    WalkStarts(run, cfg, edges, reg, load);
    while todo != []
      invariant Walked(run, cfg, edges, reg, load, base, seen, todo)
      invariant |seen| <= MAX_WALK
      decreases Indices(run) - seen, |todo|
    {
      ghost var was := todo;
      var j := todo[|todo| - 1];
      todo := todo[..|todo| - 1];
      if j in seen {
        WalkSkips(run, cfg, edges, reg, load, base, seen, was);
        continue;
      }
      FrontierPops(run, edges, reg, load, base, seen, was);
      InIndices(run, edges, reg, load, j);
      ghost var seen0, base0 := seen, base;
      seen := seen + {j};
      if |seen| > MAX_WALK {
        TooMany(run, edges, reg, load, base, seen, todo);
        return None;
      }
      var ps := Predecessors(run, cfg, edges, j);
      if ps.None? {
        NeverOpen(run, cfg, edges, reg, load, j);
        return None;
      }
      PredecessorsExact(run, cfg, edges, j);
      var ok: bool;
      ok, base, todo := TakeDefs(run, cfg, edges, reg, load, j, ps.value, base, seen, todo);
      if !ok {
        return None;
      }
      SettlesOne(run, cfg, edges, reg, base, seen, todo, j);
      WalkVisits(run, cfg, edges, reg, load, base0, seen0, was, base, todo);
    }
    WalkDecides(run, cfg, edges, reg, load, base, seen);
    r := base;
  }

  lemma SettlesOne(run: Run, cfg: RunCfg, edges: Option<Edges>, reg: nat, base: Option<nat>, seen: set<nat>, todo: seq<nat>, j: nat)
    requires j < |run| && Predecessors(run, cfg, edges, j).Some?
    requires Settled(run, reg, base, seen, todo, Predecessors(run, cfg, edges, j).value)
    ensures SettledIns(run, cfg, edges, reg, base, seen, todo, j)
  {
  }

  // ---- What a reaching base means --------------------------------------------------------

  /** What executing `ins` may leave in a register that held `v`.  A call may leave anything
      in RAX, RCX, RDX, RSI, RDI and R8 to R11. */
  predicate MayLeave(ins: Ins, reg: nat, v: nat, w: nat) {
    if ins.leaReg == Some(reg) then ins.pcRel == None || ins.pcRel == Some(w)
    else w == v || reg in ins.writes || (ins.isCall && (reg <= 2 || 6 <= reg <= 11))
  }

  /** Where control can go from `run[k]`: on, to the branch target, or to a case of its table. */
  predicate Moves(run: Run, edges: Option<Edges>, k: nat, j: nat) {
    && k < |run| && j < |run|
    && match run[k].flow
       case Return => false
       case Halt => false
       case Jump => run[k].target == Some(run[j].addr)
       case CondJump => j == k + 1 || run[k].target == Some(run[j].addr)
       case IndirectJump => edges.Some? && k in At(edges.value, run[j].addr)
       case _ => j == k + 1
  }

  /** `run[j]` begins the run, is marked by `endbr64`, is called, or has its address taken. */
  ghost predicate EntryPoint(run: Run, j: nat)
    requires j < |run|
  {
    var lo, hi := run[0].addr, run[|run| - 1].addr + run[|run| - 1].len;
    || j == 0 || run[j].endbr
    || exists k: nat :: k < |run| && ((run[k].pcRel == Some(run[j].addr) && lo <= run[j].addr < hi)
                                      || (run[k].flow == Call && run[k].target == Some(run[j].addr)))
  }

  /** Case edges leave dispatch jumps. */
  predicate FromDispatches(run: Run, edges: Option<Edges>) {
    edges.Some? ==> forall t, k :: t in edges.value && k in edges.value[t] && k < |run| ==> run[k].flow == IndirectJump
  }

  /** The edges followed backwards are the ways control can go. */
  lemma StepExact(run: Run, edges: Option<Edges>, k: nat, j: nat)
    requires FromDispatches(run, edges)
    ensures Step(run, edges, k, j) <==> Moves(run, edges, k, j)
  {
    if k < |run| && j < |run| && edges.Some? && k in At(edges.value, run[j].addr) {
      assert k in edges.value[run[j].addr];
    }
  }

  lemma EntryIsOutside(run: Run, j: nat)
    requires j < |run|
    ensures EntryPoint(run, j) <==> Outside(run, j)
  {
    var t := run[j].addr;
    if EntryPoint(run, j) && j != 0 && !run[j].endbr {
      var k: nat :| k < |run| && ((run[k].pcRel == Some(t) && RunLo(run) <= t < RunHi(run))
                                  || (run[k].flow == Call && run[k].target == Some(t)));
      assert Enters(run[k], RunLo(run), RunHi(run), t);
    }
  }

  /** The classification says all about what an instruction leaves in the register. */
  lemma DefOfExact(ins: Ins, reg: nat, v: nat, w: nat)
    ensures After(DefOf(ins, reg), v, w) <==> MayLeave(ins, reg, v, w)
  {
  }

  /** `vals[i]` is what the register holds before `path[i]`: any run along the path. */
  ghost predicate HoldsAlong(run: Run, path: seq<nat>, reg: nat, vals: seq<nat>) {
    && |vals| == |path|
    && forall i: nat :: i + 1 < |path| && path[i] < |run| ==> MayLeave(run[path[i]], reg, vals[i], vals[i + 1])
  }

  /** Control follows the path. */
  ghost predicate Follows(run: Run, edges: Option<Edges>, path: seq<nat>) {
    && path != [] && (forall i: nat :: i < |path| ==> path[i] < |run|)
    && forall i: nat :: i + 1 < |path| ==> Moves(run, edges, path[i], path[i + 1])
  }

  lemma FollowsPath(run: Run, edges: Option<Edges>, path: seq<nat>)
    requires Follows(run, edges, path) && FromDispatches(run, edges)
    ensures Path(run, edges, path)
  {
    hide Step, Moves, FromDispatches;
    forall i: nat | i + 1 < |path|
      ensures Step(run, edges, path[i], path[i + 1])
    {
      StepExact(run, edges, path[i], path[i + 1]);
    }
  }

  /** A definition lets the register go from `v` to `w`. */
  predicate After(d: RegDef, v: nat, w: nat) {
    match d
    case Kept => w == v
    case Lea(t) => w == t
    case Clobbered => true
  }

  /** The register still holds at the end what it held before step `i`. */
  ghost predicate KeptFrom(run: Run, path: seq<nat>, reg: nat, i: nat) {
    forall k: nat :: i <= k && k + 1 < |path| ==> path[k] < |run| && DefOf(run[path[k]], reg) == Kept
  }

  lemma {:induction false} KeptValue(run: Run, path: seq<nat>, reg: nat, vals: seq<nat>, i: nat)
    requires HoldsAlong(run, path, reg, vals) && KeptFrom(run, path, reg, i) && i < |path|
    ensures vals[|path| - 1] == vals[i]
    decreases |path| - i
  {
    if i + 1 < |path| {
      DefOfExact(run[path[i]], reg, vals[i], vals[i + 1]);
      KeptValue(run, path, reg, vals, i + 1);
    }
  }

  /** From step `i` backwards: a path from outside meets the LEA before it can leave. */
  lemma {:induction false} MeetsLea(run: Run, edges: Option<Edges>, reg: nat, load: nat, base: nat, path: seq<nat>,
                                    vals: seq<nat>, i: nat)
    requires Reaches(run, edges, reg, load, base) && Path(run, edges, path) && HoldsAlong(run, path, reg, vals)
    requires Outside(run, path[0]) && path[|path| - 1] == load && i < |path| && KeptFrom(run, path, reg, i)
    ensures vals[|path| - 1] == base
    decreases i
  {
    hide Reaches, Outside, DefOf, Step, MayLeave;
    var tail := path[i..];
    forall k: nat | k + 1 < |tail|
      ensures Step(run, edges, tail[k], tail[k + 1]) && DefOf(run[tail[k]], reg) == Kept
    {
      assert tail[k] == path[i + k] && tail[k + 1] == path[i + k + 1];
    }
    assert SeenBy(run, edges, reg, load, path[i], tail);
    SoundAt(run, edges, reg, load, base, path[i], tail);
    if i > 0 {
      var p := path[i - 1];
      assert Step(run, edges, path[i - 1], path[i - 1 + 1]);
      if DefOf(run[p], reg) == Kept {
        MeetsLea(run, edges, reg, load, base, path, vals, i - 1);
      } else {
        assert MayLeave(run[path[i - 1]], reg, vals[i - 1], vals[i - 1 + 1]);
        DefOfExact(run[p], reg, vals[i - 1], vals[i]);
        KeptValue(run, path, reg, vals, i);
      }
    }
  }

  lemma SoundAt(run: Run, edges: Option<Edges>, reg: nat, load: nat, base: nat, j: nat, path: seq<nat>)
    requires Reaches(run, edges, reg, load, base) && SeenBy(run, edges, reg, load, j, path)
    ensures j < |run| && !Outside(run, j)
    ensures forall p: nat :: Step(run, edges, p, j) ==> DefOf(run[p], reg) in {Kept, Lea(base)}
  {
    assert j in Region(run, edges, reg, load);
    assert Sound(run, edges, reg, base, j);
  }

  /**
   On every run from an instruction entered from outside to the dispatch load, the
   register holds the table base when the load executes.
   */
  lemma BaseHolds(run: Run, edges: Option<Edges>, reg: nat, load: nat, base: nat, path: seq<nat>, vals: seq<nat>)
    requires Reaches(run, edges, reg, load, base) && Follows(run, edges, path) && HoldsAlong(run, path, reg, vals)
    requires FromDispatches(run, edges)
    requires EntryPoint(run, path[0]) && path[|path| - 1] == load
    ensures vals[|path| - 1] == base
  {
    hide Reaches, HoldsAlong, EntryPoint, Outside, FromDispatches, Moves;
    FollowsPath(run, edges, path);
    EntryIsOutside(run, path[0]);
    MeetsLea(run, edges, reg, load, base, path, vals, |path| - 1);
  }

  // ---- The dispatch pattern ----------------------------------------------------------------

  /** The indices of the MOVSXD and of the JMP, and the base register. */
  datatype Dispatch = Dispatch(load: nat, jmp: nat, baseReg: nat)

  /** The straight line from `j` on: `sum` is the register holding entry plus base, once added. */
  function Scan(run: Run, j: nat, end: nat, sum: Option<nat>, entry: nat, base: nat): (r: Option<nat>)
    requires j <= end <= |run|
    ensures r.Some? ==> j <= r.value < end && run[r.value].flow == IndirectJump && run[r.value].jmpReg.Some?
    decreases end - j
  {
    if j == end then None
    else
      var ins := run[j];
      if ins.flow == IndirectJump then
        if sum.Some? && ins.jmpReg == sum then Some(j) else None
      else if ins.flow != Normal then None
      else if sum.None? && ins.add == Some((entry, base)) then Scan(run, j + 1, end, Some(entry), entry, base)
      else if sum.None? && ins.add == Some((base, entry)) then Scan(run, j + 1, end, Some(base), entry, base)
      else if sum.None? && (entry in ins.writes || base in ins.writes) then None
      else if sum.Some? && sum.value in ins.writes then None
      else Scan(run, j + 1, end, sum, entry, base)
  }

  function GapEnd(run: Run, i: nat): nat {
    if i + 1 + MAX_DISPATCH_GAP < |run| then i + 1 + MAX_DISPATCH_GAP else |run|
  }

  function DispatchAt(run: Run, i: nat): (r: Option<Dispatch>)
    requires i < |run|
    ensures r.Some? ==> run[i].movslq.Some? && r.value.load == i < r.value.jmp < |run| && r.value.jmp <= i + MAX_DISPATCH_GAP
  {
    if run[i].movslq.None? then None
    else
      var (base, entry) := run[i].movslq.value;
      if base == entry then None
      else
        var jmp := Scan(run, i + 1, GapEnd(run, i), None, entry, base);
        if jmp.None? then None else Some(Dispatch(i, jmp.value, base))
  }

  /** `match_dispatch`. */
  method MatchDispatch(run: Run, i: nat) returns (r: Option<Dispatch>)
    requires i < |run|
    ensures r == DispatchAt(run, i)
  {
    if run[i].movslq.None? {
      return None;
    }
    var (base, entry) := run[i].movslq.value;
    if base == entry {
      return None;
    }
    var sum: Option<nat> := None;
    var end := GapEnd(run, i);
    var j := i + 1;
    while j < end
      invariant i + 1 <= j <= end
      invariant Scan(run, i + 1, end, None, entry, base) == Scan(run, j, end, sum, entry, base)
    {
      var ins := run[j];
      if ins.flow == IndirectJump {
        if sum.Some? && ins.jmpReg == sum {
          return Some(Dispatch(i, j, base));
        }
        return None;
      }
      if ins.flow != Normal {
        return None;
      }
      match sum {
        case None =>
          if ins.add == Some((entry, base)) {
            sum := Some(entry);
          } else if ins.add == Some((base, entry)) {
            sum := Some(base);
          } else if entry in ins.writes || base in ins.writes {
            return None;
          }
        case Some(s) =>
          if s in ins.writes {
            return None;
          }
      }
      j := j + 1;
    }
    r := None;
  }

  /** No instruction in `[j, x)` leaves the straight line. */
  predicate Straight(run: Run, j: nat, x: nat) {
    x <= |run| && forall k: nat :: j <= k < x ==> run[k].flow == Normal
  }

  predicate NotWritten(run: Run, j: nat, x: nat, reg: nat) {
    x <= |run| && forall k: nat :: j <= k < x ==> reg !in run[k].writes
  }

  predicate Sums(ins: Ins, a: nat, b: nat) { ins.add == Some((a, b)) || ins.add == Some((b, a)) }

  predicate NoSum(run: Run, j: nat, x: nat, a: nat, b: nat) {
    x <= |run| && forall k: nat :: j <= k < x ==> !Sums(run[k], a, b)
  }

  /** From `j` on, nothing leaves the straight line or writes `sum` until a jump to it at `x`. */
  predicate JumpsThrough(run: Run, j: nat, x: nat, sum: nat) {
    && j <= x < |run| && Straight(run, j, x) && NotWritten(run, j, x, sum)
    && run[x].flow == IndirectJump && run[x].jmpReg == Some(sum)
  }

  /** From `j` on, entry and base are kept until the first ADD of the two at `m`, whose
      destination is kept until the jump to it at `x`. */
  predicate Dispatches(run: Run, j: nat, m: nat, x: nat, entry: nat, base: nat) {
    && j <= m < x < |run| && Straight(run, j, m + 1) && NoSum(run, j, m, entry, base)
    && NotWritten(run, j, m, entry) && NotWritten(run, j, m, base)
    && Sums(run[m], entry, base) && JumpsThrough(run, m + 1, x, run[m].add.value.0)
  }

  lemma {:induction false} SummedExact(run: Run, j: nat, end: nat, sum: nat, entry: nat, base: nat, x: nat)
    requires j <= end <= |run|
    ensures Scan(run, j, end, Some(sum), entry, base) == Some(x) <==> x < end && JumpsThrough(run, j, x, sum)
    decreases end - j
  {
    if j < end {
      SummedExact(run, j + 1, end, sum, entry, base, x);
      if j < x < end && JumpsThrough(run, j + 1, x, sum) && run[j].flow == Normal && sum !in run[j].writes {
        assert JumpsThrough(run, j, x, sum);
      }
    }
  }

  ghost predicate Dispatched(run: Run, j: nat, x: nat, entry: nat, base: nat) {
    exists m: nat :: Dispatches(run, j, m, x, entry, base)
  }

  lemma {:induction false} ScanExact(run: Run, j: nat, end: nat, entry: nat, base: nat, x: nat)
    requires j <= end <= |run| && entry != base
    ensures Scan(run, j, end, None, entry, base) == Some(x) <==> x < end && Dispatched(run, j, x, entry, base)
    decreases end - j
  {
    hide JumpsThrough;
    if j < end {
      if Sums(run[j], entry, base) {
        SummedExact(run, j + 1, end, run[j].add.value.0, entry, base, x);
        ScanSummed(run, j, end, entry, base);
        SumHere(run, j, x, entry, base);
      } else {
        ScanExact(run, j + 1, end, entry, base, x);
        SumLater(run, j, x, entry, base);
        ScanPast(run, j, end, entry, base);
      }
    }
  }

  lemma ScanSummed(run: Run, j: nat, end: nat, entry: nat, base: nat)
    requires j < end <= |run| && Sums(run[j], entry, base)
    ensures Scan(run, j, end, None, entry, base)
         == if run[j].flow == Normal then Scan(run, j + 1, end, Some(run[j].add.value.0), entry, base) else None
  {
  }

  lemma ScanPast(run: Run, j: nat, end: nat, entry: nat, base: nat)
    requires j < end <= |run| && !Sums(run[j], entry, base)
    ensures Scan(run, j, end, None, entry, base)
         == if run[j].flow == Normal && entry !in run[j].writes && base !in run[j].writes
            then Scan(run, j + 1, end, None, entry, base) else None
  {
  }

  lemma SumHere(run: Run, j: nat, x: nat, entry: nat, base: nat)
    requires j < |run| && Sums(run[j], entry, base)
    ensures Dispatched(run, j, x, entry, base)
       <==> run[j].flow == Normal && JumpsThrough(run, j + 1, x, run[j].add.value.0)
  {
    hide JumpsThrough;
    if run[j].flow == Normal && JumpsThrough(run, j + 1, x, run[j].add.value.0) {
      JumpLies(run, j + 1, x, run[j].add.value.0);
      assert Dispatches(run, j, j, x, entry, base);
    }
    forall m: nat | Dispatches(run, j, m, x, entry, base)
      ensures m == j
    {
    }
  }

  lemma JumpLies(run: Run, j: nat, x: nat, sum: nat)
    requires JumpsThrough(run, j, x, sum)
    ensures j <= x < |run|
  {
  }

  lemma SumLater(run: Run, j: nat, x: nat, entry: nat, base: nat)
    requires j < |run| && !Sums(run[j], entry, base)
    ensures Dispatched(run, j, x, entry, base)
       <==> run[j].flow == Normal && entry !in run[j].writes && base !in run[j].writes && Dispatched(run, j + 1, x, entry, base)
  {
    hide JumpsThrough, Sums, Dispatches;
    forall m: nat | Dispatches(run, j, m, x, entry, base)
      ensures Dispatched(run, j + 1, x, entry, base) && run[j].flow == Normal && entry !in run[j].writes && base !in run[j].writes
    {
      PastMeans(run, j, m, x, entry, base);
      assert Dispatches(run, j + 1, m, x, entry, base);
    }
    if run[j].flow == Normal && entry !in run[j].writes && base !in run[j].writes && Dispatched(run, j + 1, x, entry, base) {
      var m: nat :| Dispatches(run, j + 1, m, x, entry, base);
      BeforeMeans(run, j, m, x, entry, base);
      assert Dispatched(run, j, x, entry, base);
    }
  }

  lemma PastMeans(run: Run, j: nat, m: nat, x: nat, entry: nat, base: nat)
    requires j < |run| && !Sums(run[j], entry, base) && Dispatches(run, j, m, x, entry, base)
    ensures Dispatches(run, j + 1, m, x, entry, base)
    ensures run[j].flow == Normal && entry !in run[j].writes && base !in run[j].writes
  {
    hide JumpsThrough, Sums;
    assert m != j;
  }

  lemma BeforeMeans(run: Run, j: nat, m: nat, x: nat, entry: nat, base: nat)
    requires j < |run| && !Sums(run[j], entry, base) && Dispatches(run, j + 1, m, x, entry, base)
    requires run[j].flow == Normal && entry !in run[j].writes && base !in run[j].writes
    ensures Dispatches(run, j, m, x, entry, base)
  {
    hide JumpsThrough, Sums;
  }

  /** A dispatch is found exactly where the pattern lies within eight instructions of the load. */
  lemma DispatchExact(run: Run, i: nat, d: Dispatch)
    requires i < |run|
    ensures DispatchAt(run, i) == Some(d)
       <==> d.load == i && run[i].movslq.Some?
            && var (base, entry) := run[i].movslq.value;
               base != entry && d.baseReg == base && d.jmp <= i + 8 && Dispatched(run, i + 1, d.jmp, entry, base)
  {
    hide Dispatched, Scan;
    if run[i].movslq.Some? {
      var (base, entry) := run[i].movslq.value;
      if base != entry {
        ScanExact(run, i + 1, GapEnd(run, i), entry, base, d.jmp);
        if Dispatched(run, i + 1, d.jmp, entry, base) { DispatchLies(run, i + 1, d.jmp, entry, base); }
      }
    }
  }

  lemma DispatchLies(run: Run, j: nat, x: nat, entry: nat, base: nat)
    requires Dispatched(run, j, x, entry, base)
    ensures j < x < |run|
  {
  }

  type Regs = nat -> nat

  /** What executing `ins` may do to the registers: an ADD adds, others write only what they write. */
  ghost predicate Effect(ins: Ins, r: Regs, r': Regs) {
    && (forall g: nat :: g !in ins.writes && !(ins.add.Some? && ins.add.value.0 == g) ==> r'(g) == r(g))
    && (ins.add.Some? ==> r'(ins.add.value.0) == (r(ins.add.value.0) + r(ins.add.value.1)) % 0x1_0000_0000_0000_0000)
    && (ins.add.Some? ==> ins.add.value.0 in ins.writes && forall g: nat :: g in ins.writes ==> g == ins.add.value.0)
  }

  /** Registers before each of the instructions from `j`, executed in a straight line. */
  ghost predicate Executes(run: Run, j: nat, st: seq<Regs>) {
    && st != [] && j + |st| - 1 <= |run|
    && forall k: nat :: k + 1 < |st| ==> Effect(run[j + k], st[k], st[k + 1])
  }

  lemma {:induction false} ScanSums(run: Run, j: nat, end: nat, sum: Option<nat>, entry: nat, base: nat, st: seq<Regs>, v: nat)
    requires j <= end <= |run| && Scan(run, j, end, sum, entry, base).Some? && entry != base
    requires Executes(run, j, st) && |st| == Scan(run, j, end, sum, entry, base).value - j + 1
    requires if sum.Some? then st[0](sum.value) == v else v == (st[0](entry) + st[0](base)) % 0x1_0000_0000_0000_0000
    ensures st[|st| - 1](run[Scan(run, j, end, sum, entry, base).value].jmpReg.value) == v
    decreases end - j
  {
    var ins := run[j];
    if ins.flow != IndirectJump {
      var next := if sum.None? && ins.add == Some((entry, base)) then Some(entry)
                  else if sum.None? && ins.add == Some((base, entry)) then Some(base) else sum;
      assert Scan(run, j, end, sum, entry, base) == Scan(run, j + 1, end, next, entry, base);
      assert Effect(run[j + 0], st[0], st[0 + 1]);
      var rest := st[1..];
      forall k: nat | k + 1 < |rest|
        ensures Effect(run[j + 1 + k], rest[k], rest[k + 1])
      {
        assert rest[k] == st[k + 1] && rest[k + 1] == st[k + 1 + 1];
        assert Effect(run[j + (k + 1)], st[k + 1], st[k + 1 + 1]);
      }
      ScanSums(run, j + 1, end, next, entry, base, rest, v);
    }
  }

  /** A matched dispatch jumps to base plus loaded entry, whatever runs in between. */
  lemma DispatchJumps(run: Run, i: nat, st: seq<Regs>)
    requires i < |run| && DispatchAt(run, i).Some?
    requires Executes(run, i + 1, st) && |st| == DispatchAt(run, i).value.jmp - i
    ensures
      var (base, entry) := run[i].movslq.value;
      var jmp := DispatchAt(run, i).value.jmp;
      run[jmp].jmpReg.Some? && st[|st| - 1](run[jmp].jmpReg.value) == (st[0](entry) + st[0](base)) % 0x1_0000_0000_0000_0000
  {
    var (base, entry) := run[i].movslq.value;
    ScanSums(run, i + 1, GapEnd(run, i), None, entry, base, st, (st[0](entry) + st[0](base)) % 0x1_0000_0000_0000_0000);
  }
}
