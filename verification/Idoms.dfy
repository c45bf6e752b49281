/**
 The iterative immediate-dominator computation (src/analysis/dominance.rs:82-159).

 The array `idom` is read as a forest: `Anc(idom, rpo, x, b)` says that `x` is
 met on the way up from `b`.  The proof keeps three facts: every dominator of
 a block is one of its ancestors (`DomSub`), every tree edge is backed by a
 path through later blocks (`TreeOk`), and within one pass a block only moves
 to an ancestor of its old parent (`Moved`), from which the sum of the parents'
 numbers falls and the loop stops.
 */
module Idoms {
  import opened Wrappers
  import opened Dominance

  // ---- Block numbers (dominance.rs:82-93) -----------------------------------

  ghost predicate RpoOk(order: seq<nat>, n: nat, rpo: seq<nat>)
  {
    && |rpo| == n
    && (forall i: nat :: i < |order| && order[i] < n ==> rpo[order[i]] == i)
    && (forall v: nat :: v < n && v !in order ==> rpo[v] == n)
  }

  method BuildRpoNumbers(order: seq<nat>, n: nat) returns (nums: array<nat>)
    requires forall i: nat, j: nat :: i < j < |order| ==> order[i] != order[j]
    ensures fresh(nums) && RpoOk(order, n, nums[..])
  {
    nums := new nat[n](i => n);
    for i := 0 to |order|
      invariant nums.Length == n
      invariant forall k: nat :: k < i && order[k] < n ==> nums[order[k]] == k
      invariant forall v: nat :: v < n && v !in order[..i] ==> nums[v] == n
    {
      assert order[..i + 1] == order[..i] + [order[i]];
      if order[i] < n {
        nums[order[i]] := i;
      }
    }
    assert order[..|order|] == order;
  }

  // ---- The forest ------------------------------------------------------------

  /** A numbered graph: what the loop reads and never changes. */
  datatype Cfg = Cfg(g: Graph, n: nat, entry: nat, order: seq<nat>, rpo: seq<nat>)

  ghost predicate CfgOk(c: Cfg)
  {
    && c.n <= |c.g| && c.entry < c.n
    && OrderOk(c.g, c.n, c.entry, c.order)
    && RpoOk(c.order, c.n, c.rpo)
  }

  ghost predicate Reach(c: Cfg, b: nat) { b < c.n && Reachable(c.g, c.n, c.entry, b) }

  ghost predicate Arc(c: Cfg, p: nat, b: nat) { Edge(c.g, c.n, p, b) }

  /** The numbering facts the proof uses. */
  ghost predicate Numbered(c: Cfg)
  {
    && |c.rpo| == c.n && c.entry < c.n && c.rpo[c.entry] == 0
    && Reach(c, c.entry)
    && (forall u: nat, v: nat :: Reach(c, u) && Reach(c, v) && c.rpo[u] == c.rpo[v] ==> u == v)
    && (forall b: nat :: Reach(c, b) && b != c.entry ==> HasEarlierPred(c, b))
  }

  ghost predicate HasEarlierPred(c: Cfg, b: nat)
    requires b < |c.rpo| && |c.rpo| == c.n
  {
    exists p: nat :: Reach(c, p) && Arc(c, p, b) && c.rpo[p] < c.rpo[b]
  }

  lemma ReachIffInOrder(c: Cfg, v: nat)
    requires CfgOk(c)
    ensures Reach(c, v) <==> v in c.order
  {
    if v in c.order {
      var p :| PathTo(c.g, c.n, c.entry, p, v);
      if |p| > 1 { assert Edge(c.g, c.n, p[|p| - 2], p[|p| - 1]); }
    }
  }

  lemma NumberedHolds(c: Cfg)
    requires CfgOk(c)
    ensures Numbered(c)
  {
    ReachIffInOrder(c, c.entry);
    forall u: nat, v: nat | Reach(c, u) && Reach(c, v) && c.rpo[u] == c.rpo[v] ensures u == v {
      ReachIffInOrder(c, u); ReachIffInOrder(c, v);
    }
    forall b: nat | Reach(c, b) && b != c.entry ensures HasEarlierPred(c, b) {
      ReachIffInOrder(c, b);
      var i: nat :| i < |c.order| && c.order[i] == b;
      assert EarlierPred(c.g, c.n, c.order, i);
      var j: nat :| j < i && Edge(c.g, c.n, c.order[j], c.order[i]);
      ReachIffInOrder(c, c.order[j]);
      assert Reach(c, c.order[j]) && Arc(c, c.order[j], b) && c.rpo[c.order[j]] < c.rpo[b];
    }
  }

  /** The parent of `b`, when the array names one with a smaller number. */
  predicate HasParent(c: Cfg, idom: Idoms, b: nat)
  {
    && b < |idom| && b < |c.rpo| && idom[b].Some?
    && idom[b].value < |c.rpo| && c.rpo[idom[b].value] < c.rpo[b]
  }

  /** `x` is `b` or met on the way up from `b`. */
  predicate Anc(c: Cfg, idom: Idoms, x: nat, b: nat)
    decreases if b < |c.rpo| then c.rpo[b] else 0
  {
    x == b || (HasParent(c, idom, b) && Anc(c, idom, x, idom[b].value))
  }

  /** A walk from `d` to `b` through blocks numbered no lower than `d`. */
  ghost predicate Link(c: Cfg, d: nat, b: nat)
  {
    exists q :: LinkVia(c, d, b, q)
  }

  ghost predicate LinkVia(c: Cfg, d: nat, b: nat, q: seq<nat>)
  {
    && d < |c.rpo| && |c.rpo| == c.n
    && PathTo(c.g, c.n, d, q, b)
    && forall v :: v in q ==> v < c.n && c.rpo[v] >= c.rpo[d]
  }

  ghost predicate TreeOk(c: Cfg, idom: Idoms)
  {
    && |idom| == c.n && |c.rpo| == c.n && c.entry < c.n
    && idom[c.entry] == Some(c.entry)
    && (forall b: nat {:trigger NodeOk(c, idom, b)} :: b < c.n && idom[b].Some? ==> NodeOk(c, idom, b))
  }

  ghost predicate NodeOk(c: Cfg, idom: Idoms, b: nat)
    requires |idom| == c.n && |c.rpo| == c.n && b < c.n && idom[b].Some?
  {
    var d := idom[b].value;
    d < c.n && idom[d].Some? && (b != c.entry ==> c.rpo[d] < c.rpo[b])
  }

  /** Blocks with a parent are reachable, and each tree edge stands for a walk. */
  ghost predicate Backed(c: Cfg, idom: Idoms)
    requires |idom| == c.n
  {
    forall b: nat :: b < c.n && idom[b].Some? ==>
      Reach(c, b) && (b != c.entry ==> Link(c, idom[b].value, b))
  }

  lemma {:induction false} AncTrans(c: Cfg, idom: Idoms, x: nat, y: nat, b: nat)
    requires Anc(c, idom, x, y) && Anc(c, idom, y, b)
    ensures Anc(c, idom, x, b)
    decreases if b < |c.rpo| then c.rpo[b] else 0
  {
    if y != b { AncTrans(c, idom, x, y, idom[b].value); }
  }

  lemma {:induction false} AncLower(c: Cfg, idom: Idoms, x: nat, b: nat)
    requires TreeOk(c, idom) && b < c.n && idom[b].Some? && Anc(c, idom, x, b)
    ensures x < c.n && idom[x].Some?
    ensures x == b || c.rpo[x] < c.rpo[b]
    decreases c.rpo[b]
  {
    if x != b {
      assert NodeOk(c, idom, b);
      AncLower(c, idom, x, idom[b].value);
    }
  }

  /** Changing the parent of `b` leaves the way up from lower-numbered blocks. */
  lemma {:induction false} AncLocal(c: Cfg, old_: Idoms, new_: Idoms, x: nat, u: nat)
    requires |old_| == |new_| == |c.rpo| && u < |c.rpo|
    requires forall v: nat :: v < |c.rpo| && c.rpo[v] <= c.rpo[u] ==> old_[v] == new_[v]
    ensures Anc(c, old_, x, u) <==> Anc(c, new_, x, u)
    decreases c.rpo[u]
  {
    if x != u && HasParent(c, old_, u) { AncLocal(c, old_, new_, x, old_[u].value); }
  }

  // ---- Moves to an ancestor ----------------------------------------------------

  /** Every block with a parent in `old_` has in `new_` a parent at or above it. */
  ghost predicate Moved(c: Cfg, old_: Idoms, new_: Idoms)
    requires |old_| == |new_|
  {
    forall y: nat :: y < |old_| && old_[y].Some? ==>
      new_[y].Some? && Anc(c, new_, new_[y].value, old_[y].value)
  }

  lemma {:induction false} MovedShrinks(c: Cfg, old_: Idoms, new_: Idoms, x: nat, u: nat)
    requires TreeOk(c, old_) && TreeOk(c, new_) && Moved(c, old_, new_)
    requires u < c.n && old_[u].Some? && Anc(c, new_, x, u)
    ensures Anc(c, old_, x, u)
    decreases c.rpo[u]
  {
    if x != u {
      assert NodeOk(c, new_, u) && NodeOk(c, old_, u);
      AncTrans(c, new_, x, new_[u].value, old_[u].value);
      MovedShrinks(c, old_, new_, x, old_[u].value);
    }
  }

  /** An ancestor kept by `u` and formerly above `v` is still above `v`. */
  lemma {:induction false} MovedKeeps(c: Cfg, old_: Idoms, new_: Idoms, x: nat, v: nat, u: nat)
    requires TreeOk(c, old_) && TreeOk(c, new_) && Moved(c, old_, new_)
    requires u < c.n && old_[u].Some?
    requires Anc(c, old_, v, u) && Anc(c, new_, x, u) && Anc(c, old_, x, v)
    ensures Anc(c, new_, x, v)
    decreases c.rpo[u]
  {
    if v != u {
      AncLower(c, old_, v, u);
      AncLower(c, old_, x, v);
      assert NodeOk(c, new_, u) && NodeOk(c, old_, u);
      AncTrans(c, new_, x, new_[u].value, old_[u].value);
      MovedKeeps(c, old_, new_, x, v, old_[u].value);
    }
  }

  // ---- The meet of the predecessors ----------------------------------------------

  /** `x` is an ancestor of every predecessor of `b` that has a parent. */
  ghost predicate Common(c: Cfg, idom: Idoms, b: nat, x: nat)
    requires |idom| == c.n
  {
    forall p: nat :: Arc(c, p, b) && idom[p].Some? ==> Anc(c, idom, x, p)
  }

  /** `d` is the nearest common ancestor of those predecessors. */
  ghost predicate IsMeet(c: Cfg, idom: Idoms, b: nat, d: nat)
    requires |idom| == c.n
  {
    && d < c.n && idom[d].Some?
    && (forall x: nat :: Anc(c, idom, x, d) <==> Common(c, idom, b, x))
  }

  /** `b`'s parent is no higher than the meet of its predecessors. */
  ghost predicate NoHigher(c: Cfg, idom: Idoms, b: nat)
    requires |idom| == c.n == |c.rpo| && b < c.n && idom[b].Some?
  {
    forall x: nat :: Common(c, idom, b, x) ==> Anc(c, idom, x, idom[b].value)
  }

  /** `b`'s parent is above the earlier predecessors of `b`. */
  ghost predicate AbovePreds(c: Cfg, idom: Idoms, b: nat)
    requires |idom| == c.n == |c.rpo| && b < c.n && idom[b].Some?
  {
    forall p: nat :: Arc(c, p, b) && idom[p].Some? && c.rpo[p] < c.rpo[b] ==> Anc(c, idom, idom[b].value, p)
  }

  ghost predicate Settled(c: Cfg, idom: Idoms, b: nat)
    requires |idom| == c.n == |c.rpo| && b < c.n && idom[b].Some?
  {
    NoHigher(c, idom, b) && AbovePreds(c, idom, b)
  }

  ghost predicate DomSub(c: Cfg, idom: Idoms)
    requires |idom| == c.n
  {
    forall x: nat, b: nat :: b < c.n && idom[b].Some? && Dominates(c.g, c.n, c.entry, x, b)
      ==> Anc(c, idom, x, b)
  }

  // ---- One step of the loop ---------------------------------------------------------

  lemma PathConcat(g: Graph, n: nat, a: nat, p: seq<nat>, m: nat, q: seq<nat>, b: nat)
    requires PathTo(g, n, a, p, m) && PathTo(g, n, m, q, b)
    ensures PathTo(g, n, a, p + q[1..], b)
    ensures forall v :: v in p + q[1..] <==> v in p || v in q
  {
    var r := p + q[1..];
    forall i | 0 < i < |r| ensures Edge(g, n, r[i - 1], r[i]) {
      if i < |p| {
        assert r[i - 1] == p[i - 1] && r[i] == p[i];
      } else {
        assert r[i] == q[i - |p| + 1];
        assert r[i - 1] == q[i - |p|];
      }
    }
    assert q == [m] + q[1..];
  }

  lemma LinkTrans(c: Cfg, x: nat, d: nat, b: nat)
    requires Link(c, x, d) && Link(c, d, b) && x < |c.rpo| && d < |c.rpo| && c.rpo[x] <= c.rpo[d]
    ensures Link(c, x, b)
  {
    var q1 :| LinkVia(c, x, d, q1);
    var q2 :| LinkVia(c, d, b, q2);
    PathConcat(c.g, c.n, x, q1, d, q2, b);
    assert LinkVia(c, x, b, q1 + q2[1..]);
  }

  lemma LinkExtend(c: Cfg, d: nat, p: nat, b: nat)
    requires Link(c, d, p) && Arc(c, p, b) && b < |c.rpo| && d < |c.rpo| && c.rpo[d] <= c.rpo[b]
    ensures Link(c, d, b)
  {
    var q :| LinkVia(c, d, p, q);
    PathExtend(c.g, c.n, d, q, p, b);
    assert LinkVia(c, d, b, q + [b]);
  }

  lemma {:induction false} AncLink(c: Cfg, idom: Idoms, x: nat, b: nat)
    requires TreeOk(c, idom) && Backed(c, idom) && b < c.n && idom[b].Some? && Anc(c, idom, x, b)
    ensures Link(c, x, b)
    decreases c.rpo[b]
  {
    if x == b {
      assert LinkVia(c, b, b, [b]);
    } else {
      var d := idom[b].value;
      assert NodeOk(c, idom, b);
      AncLink(c, idom, x, d);
      AncLower(c, idom, x, d);
      LinkTrans(c, x, d, b);
    }
  }

  /** A dominator numbered no higher than `b`'s parent dominates the parent. */
  lemma DominatesUp(c: Cfg, x: nat, d: nat, b: nat)
    requires |c.rpo| == c.n && x < c.n && d < c.n
    requires Link(c, d, b) && Dominates(c.g, c.n, c.entry, x, b)
    requires x == d || c.rpo[x] < c.rpo[d]
    ensures Dominates(c.g, c.n, c.entry, x, d)
  {
    var q :| LinkVia(c, d, b, q);
    forall p | PathTo(c.g, c.n, c.entry, p, d) ensures x in p {
      PathConcat(c.g, c.n, c.entry, p, d, q, b);
      assert x in p + q[1..];
    }
  }

  /** Every dominator of `b` is an ancestor of the meet of its predecessors. */
  lemma DomSubMeet(c: Cfg, idom: Idoms, b: nat, d: nat, x: nat)
    requires |idom| == c.n && DomSub(c, idom) && IsMeet(c, idom, b, d)
    requires x != b && Dominates(c.g, c.n, c.entry, x, b)
    ensures Anc(c, idom, x, d)
  {
    forall p: nat | Arc(c, p, b) && idom[p].Some? ensures Anc(c, idom, x, p) {
      DominatesPred(c.g, c.n, c.entry, x, p, b);
    }
    assert Common(c, idom, b, x);
  }

  lemma DomSubBase(c: Cfg, idom: Idoms, new_: Idoms, b: nat, d: nat, x: nat)
    requires b < c.n == |idom| && new_ == idom[b := Some(d)]
    requires TreeOk(c, new_) && DomSub(c, idom) && b != c.entry && IsMeet(c, idom, b, d)
    requires Dominates(c.g, c.n, c.entry, x, b)
    ensures Anc(c, new_, x, b)
  {
    if x != b {
      assert NodeOk(c, new_, b);
      DomSubMeet(c, idom, b, d, x);
      AncLocal(c, idom, new_, x, d);
    }
  }

  /** A dominator of `u` other than `u` dominates the parent of `u`. */
  lemma DomSubUp(c: Cfg, idom: Idoms, x: nat, u: nat)
    requires TreeOk(c, idom) && Backed(c, idom) && DomSub(c, idom)
    requires u < c.n && idom[u].Some? && x != u && Dominates(c.g, c.n, c.entry, x, u)
    ensures HasParent(c, idom, u) && Dominates(c.g, c.n, c.entry, x, idom[u].value)
  {
    assert Anc(c, idom, x, u) && NodeOk(c, idom, u);
    AncLower(c, idom, x, idom[u].value);
    DominatesUp(c, x, idom[u].value, u);
  }

  lemma {:induction false} DomSubStep(c: Cfg, idom: Idoms, new_: Idoms, b: nat, d: nat, x: nat, u: nat)
    requires b < c.n == |idom| && new_ == idom[b := Some(d)]
    requires TreeOk(c, idom) && Backed(c, idom) && TreeOk(c, new_) && DomSub(c, idom)
    requires b != c.entry && IsMeet(c, idom, b, d)
    requires u < c.n && new_[u].Some? && Dominates(c.g, c.n, c.entry, x, u)
    ensures Anc(c, new_, x, u)
    decreases c.rpo[u]
  {
    if u == b {
      DomSubBase(c, idom, new_, b, d, x);
    } else if x != u {
      DomSubUp(c, idom, x, u);
      assert NodeOk(c, idom, u) && NodeOk(c, new_, u);
      DomSubStep(c, idom, new_, b, d, x, idom[u].value);
    }
  }

  lemma DomSubKept(c: Cfg, idom: Idoms, new_: Idoms, b: nat, d: nat)
    requires b < c.n == |idom| && new_ == idom[b := Some(d)]
    requires TreeOk(c, idom) && Backed(c, idom) && TreeOk(c, new_) && DomSub(c, idom)
    requires b != c.entry && IsMeet(c, idom, b, d)
    ensures DomSub(c, new_)
  {
    forall x: nat, u: nat | u < c.n && new_[u].Some? && Dominates(c.g, c.n, c.entry, x, u)
      ensures Anc(c, new_, x, u)
    {
      DomSubStep(c, idom, new_, b, d, x, u);
    }
  }

  /** Every block numbered below `b` already has a parent. */
  ghost predicate EarlierDone(c: Cfg, idom: Idoms, b: nat)
    requires |idom| == c.n == |c.rpo| && b < c.n
  {
    forall v: nat :: Reach(c, v) && c.rpo[v] < c.rpo[b] ==> idom[v].Some?
  }

  /** An earlier predecessor, and the meet at or above it. */
  lemma MeetBelowPred(c: Cfg, idom: Idoms, b: nat, d: nat) returns (p: nat)
    requires Numbered(c) && TreeOk(c, idom) && Reach(c, b) && b != c.entry
    requires IsMeet(c, idom, b, d) && EarlierDone(c, idom, b)
    ensures Reach(c, p) && Arc(c, p, b) && c.rpo[p] < c.rpo[b] && idom[p].Some?
    ensures Anc(c, idom, d, p) && Common(c, idom, b, d)
  {
    assert HasEarlierPred(c, b);
    p :| Reach(c, p) && Arc(c, p, b) && c.rpo[p] < c.rpo[b];
    assert Anc(c, idom, d, d);
    assert Common(c, idom, b, d);
  }

  /** The chosen parent is numbered lower and linked to `b`. */
  lemma MeetIsEarlier(c: Cfg, idom: Idoms, b: nat, d: nat)
    requires Numbered(c) && TreeOk(c, idom) && Backed(c, idom) && Reach(c, b) && b != c.entry
    requires IsMeet(c, idom, b, d) && EarlierDone(c, idom, b)
    ensures c.rpo[d] < c.rpo[b] && Link(c, d, b)
  {
    var p := MeetBelowPred(c, idom, b, d);
    AncLower(c, idom, d, p);
    AncLink(c, idom, d, p);
    LinkExtend(c, d, p, b);
  }

  lemma TreeKept(c: Cfg, idom: Idoms, new_: Idoms, b: nat, d: nat)
    requires TreeOk(c, idom) && Backed(c, idom) && Reach(c, b) && b != c.entry
    requires d < c.n && idom[d].Some? && c.rpo[d] < c.rpo[b] && Link(c, d, b)
    requires new_ == idom[b := Some(d)]
    ensures TreeOk(c, new_) && Backed(c, new_)
  {
    forall v: nat | v < c.n && new_[v].Some? ensures NodeOk(c, new_, v) {
      if v != b { assert NodeOk(c, idom, v); }
    }
  }

  lemma CommonShrinks(c: Cfg, start: Idoms, idom: Idoms, b: nat, x: nat)
    requires TreeOk(c, start) && TreeOk(c, idom) && Moved(c, start, idom)
    requires Common(c, idom, b, x)
    ensures Common(c, start, b, x)
  {
    forall p: nat | Arc(c, p, b) && start[p].Some? ensures Anc(c, start, x, p) {
      MovedShrinks(c, start, idom, x, p);
    }
  }

  /** The chosen parent lies at or above the parent `b` had at the pass start. */
  lemma MeetMovesUp(c: Cfg, start: Idoms, idom: Idoms, b: nat, d: nat)
    requires Numbered(c) && TreeOk(c, start) && TreeOk(c, idom) && Moved(c, start, idom)
    requires Reach(c, b) && b != c.entry && IsMeet(c, idom, b, d)
    requires start[b].Some? && Settled(c, start, b)
    requires EarlierDone(c, start, b)
    ensures Anc(c, idom, d, start[b].value)
  {
    assert EarlierDone(c, idom, b);
    var p := MeetBelowPred(c, idom, b, d);
    CommonShrinks(c, start, idom, b, d);
    MovedKeeps(c, start, idom, d, start[b].value, p);
  }

  lemma SettledNew(c: Cfg, idom: Idoms, new_: Idoms, b: nat, d: nat)
    requires TreeOk(c, idom) && TreeOk(c, new_) && Moved(c, idom, new_)
    requires Reach(c, b) && b != c.entry && IsMeet(c, idom, b, d)
    requires new_ == idom[b := Some(d)] && c.rpo[d] < c.rpo[b]
    ensures Settled(c, new_, b)
  {
    forall x: nat | Common(c, new_, b, x) ensures Anc(c, new_, x, d) {
      CommonShrinks(c, idom, new_, b, x);
      AncLocal(c, idom, new_, x, d);
    }
    assert Common(c, idom, b, d) by { assert Anc(c, idom, d, d); }
    forall p: nat | Arc(c, p, b) && new_[p].Some? && c.rpo[p] < c.rpo[b] ensures Anc(c, new_, d, p) {
      AncLocal(c, idom, new_, d, p);
    }
  }

  /** A settled block stays settled when a later-numbered block moves. */
  lemma SettledKept(c: Cfg, idom: Idoms, new_: Idoms, b: nat, d: nat, u: nat)
    requires TreeOk(c, idom) && TreeOk(c, new_) && Moved(c, idom, new_)
    requires b < c.n && new_ == idom[b := Some(d)]
    requires u < c.n && u != c.entry && idom[u].Some? && Settled(c, idom, u) && c.rpo[u] < c.rpo[b]
    ensures Settled(c, new_, u)
  {
    NoHigherKept(c, idom, new_, b, d, u);
    AbovePredsKept(c, idom, new_, b, d, u);
  }

  lemma NoHigherKept(c: Cfg, idom: Idoms, new_: Idoms, b: nat, d: nat, u: nat)
    requires TreeOk(c, idom) && TreeOk(c, new_) && Moved(c, idom, new_)
    requires b < c.n && new_ == idom[b := Some(d)]
    requires u < c.n && u != c.entry && idom[u].Some? && NoHigher(c, idom, u) && c.rpo[u] < c.rpo[b]
    ensures NoHigher(c, new_, u)
  {
    var e := idom[u].value;
    assert NodeOk(c, idom, u);
    forall x: nat | Common(c, new_, u, x) ensures Anc(c, new_, x, e) {
      CommonShrinks(c, idom, new_, u, x);
      AncLocal(c, idom, new_, x, e);
    }
  }

  lemma AbovePredsKept(c: Cfg, idom: Idoms, new_: Idoms, b: nat, d: nat, u: nat)
    requires |idom| == |c.rpo| == c.n && b < c.n && new_ == idom[b := Some(d)]
    requires u < c.n && idom[u].Some? && AbovePreds(c, idom, u) && c.rpo[u] < c.rpo[b]
    ensures AbovePreds(c, new_, u)
  {
    var e := idom[u].value;
    forall p: nat | Arc(c, p, u) && new_[p].Some? && c.rpo[p] < c.rpo[u] ensures Anc(c, new_, e, p) {
      AncLocal(c, idom, new_, e, p);
    }
  }

  // ---- Common ancestor of two blocks (dominance.rs:144-159) --------------------------

  /** Blocks with a parent have different numbers, the entry the lowest. */
  ghost predicate Distinct(c: Cfg, idom: Idoms)
    requires |idom| == c.n == |c.rpo| && c.entry < c.n
  {
    && c.rpo[c.entry] == 0
    && forall u: nat, v: nat :: u < c.n && v < c.n && idom[u].Some? && idom[v].Some? && c.rpo[u] == c.rpo[v] ==> u == v
  }

  lemma DistinctHolds(c: Cfg, idom: Idoms)
    requires Numbered(c) && |idom| == c.n && Backed(c, idom)
    ensures Distinct(c, idom)
  {
  }

  /** Both cursors climb until they meet at the nearest common ancestor. */
  method Intersect(a0: nat, b0: nat, idom: array<Option<nat>>, rpoNum: array<nat>, ghost c: Cfg) returns (a: nat)
    requires rpoNum[..] == c.rpo && TreeOk(c, idom[..]) && Distinct(c, idom[..])
    requires a0 < c.n && b0 < c.n && idom[a0].Some? && idom[b0].Some?
    ensures a < c.n && idom[a].Some?
    ensures NearestCommon(c, idom[..], a, a0, b0)
  {
    a := a0;
    var b: nat := b0;
    ghost var t := idom[..];
    while a != b
      invariant a < c.n && b < c.n && t[a].Some? && t[b].Some?
      invariant SameCommon(c, t, a0, b0, a, b)
      decreases c.rpo[a] + c.rpo[b]
    {
      assert c.rpo[a] != c.rpo[b];
      ghost var sum := c.rpo[a] + c.rpo[b];
      while rpoNum[a] > rpoNum[b]
        invariant a < c.n && t[a].Some? && SameCommon(c, t, a0, b0, a, b)
        invariant c.rpo[a] + c.rpo[b] <= sum
        invariant c.rpo[a] <= c.rpo[b] ==> c.rpo[a] + c.rpo[b] < sum || c.rpo[a] < c.rpo[b]
        decreases c.rpo[a]
      {
        Climb(c, t, a0, b0, a, b);
        a := idom[a].value;
      }
      while rpoNum[b] > rpoNum[a]
        invariant b < c.n && t[b].Some? && SameCommon(c, t, a0, b0, a, b)
        invariant c.rpo[a] + c.rpo[b] <= sum
        invariant c.rpo[b] <= c.rpo[a] ==> c.rpo[a] + c.rpo[b] < sum
        decreases c.rpo[b]
      {
        ClimbSecond(c, t, a0, b0, a, b);
        b := idom[b].value;
      }
    }
  }

  ghost predicate SameCommon(c: Cfg, t: Idoms, a0: nat, b0: nat, a: nat, b: nat)
  {
    forall x: nat :: Anc(c, t, x, a0) && Anc(c, t, x, b0) <==> Anc(c, t, x, a) && Anc(c, t, x, b)
  }

  lemma Climb(c: Cfg, t: Idoms, a0: nat, b0: nat, a: nat, b: nat)
    requires TreeOk(c, t) && a < c.n && b < c.n && t[a].Some? && t[b].Some?
    requires c.rpo[a] > c.rpo[b] && c.rpo[c.entry] == 0 && SameCommon(c, t, a0, b0, a, b)
    ensures HasParent(c, t, a) && t[t[a].value].Some? && SameCommon(c, t, a0, b0, t[a].value, b)
  {
    assert NodeOk(c, t, a);
    if Anc(c, t, a, b) { AncLower(c, t, a, b); }
    forall x: nat ensures Anc(c, t, x, a) && Anc(c, t, x, b) <==> Anc(c, t, x, t[a].value) && Anc(c, t, x, b) {
    }
  }

  lemma ClimbSecond(c: Cfg, t: Idoms, a0: nat, b0: nat, a: nat, b: nat)
    requires TreeOk(c, t) && a < c.n && b < c.n && t[a].Some? && t[b].Some?
    requires c.rpo[b] > c.rpo[a] && c.rpo[c.entry] == 0 && SameCommon(c, t, a0, b0, a, b)
    ensures HasParent(c, t, b) && t[t[b].value].Some? && SameCommon(c, t, a0, b0, a, t[b].value)
  {
    assert SameCommon(c, t, a0, b0, b, a);
    Climb(c, t, a0, b0, b, a);
  }

  // ---- New parent of one block (dominance.rs:122-141) ----------------------------------

  ghost predicate PredsOk(c: Cfg, preds: Graph)
  {
    |preds| == c.n && forall u: nat, v: nat :: u < c.n && v < c.n ==> (u in preds[v] <==> Arc(c, u, v))
  }

  /** `x` is an ancestor of the listed predecessors that have a parent. */
  ghost predicate CommonOf(c: Cfg, idom: Idoms, ps: seq<nat>, x: nat)
    requires |idom| == c.n
  {
    forall i: nat :: i < |ps| && ps[i] < c.n && idom[ps[i]].Some? ==> Anc(c, idom, x, ps[i])
  }

  lemma CommonOfPreds(c: Cfg, idom: Idoms, preds: Graph, b: nat)
    requires |idom| == c.n && PredsOk(c, preds) && b < c.n
    ensures forall x: nat :: CommonOf(c, idom, preds[b], x) <==> Common(c, idom, b, x)
  {
    forall x: nat | CommonOf(c, idom, preds[b], x) ensures Common(c, idom, b, x) {
      forall p: nat | Arc(c, p, b) && idom[p].Some? ensures Anc(c, idom, x, p) {
        assert p in preds[b];
      }
    }
  }

  method FindNewIdom(b: nat, preds: Graph, idom: array<Option<nat>>, rpoNum: array<nat>, n: nat, ghost c: Cfg)
    returns (result: Option<nat>)
    requires n == c.n && rpoNum[..] == c.rpo && TreeOk(c, idom[..]) && Distinct(c, idom[..])
    requires PredsOk(c, preds) && b < n
    ensures result.Some? ==> IsMeet(c, idom[..], b, result.value)
    ensures result.None? ==> forall p: nat :: Arc(c, p, b) ==> idom[p].None?
  {
    hide MeetOf, IsMeet, NearestCommon;
    result := None;
    ghost var t := idom[..];
    NoMeet(c, t);
    for i := 0 to |preds[b]|
      invariant result.Some? ==> result.value < n && t[result.value].Some?
      invariant MeetOf(c, t, preds[b][..i], result)
    {
      var p := preds[b][i];
      assert preds[b][..i + 1] == preds[b][..i] + [p];
      ghost var before := result;
      if p < n && idom[p].Some? {
        if result.None? {
          result := Some(p);
        } else {
          var r := Intersect(result.value, p, idom, rpoNum, c);
          assert NearestCommon(c, t, r, result.value, p);
          result := Some(r);
        }
      }
      MeetOfStep(c, t, preds[b][..i], p, before, result);
    }
    assert preds[b][..|preds[b]|] == preds[b];
    MeetOfAll(c, t, preds, b, result);
  }

  /** `r` is the nearest common ancestor of the listed blocks with a parent. */
  ghost predicate MeetOf(c: Cfg, idom: Idoms, ps: seq<nat>, r: Option<nat>)
    requires |idom| == c.n
  {
    match r
    case None => forall i: nat :: i < |ps| && ps[i] < c.n ==> idom[ps[i]].None?
    case Some(d) => d < c.n && idom[d].Some? && forall x: nat :: Anc(c, idom, x, d) <==> CommonOf(c, idom, ps, x)
  }

  /** The ancestors of `r` are the common ancestors of `a` and `b`. */
  ghost predicate NearestCommon(c: Cfg, idom: Idoms, r: nat, a: nat, b: nat)
    requires |idom| == c.n && r < c.n && a < c.n && b < c.n
  {
    forall x: nat :: Anc(c, idom, x, r) <==> Anc(c, idom, x, a) && Anc(c, idom, x, b)
  }

  lemma CommonOfStep(c: Cfg, idom: Idoms, ps: seq<nat>, p: nat, x: nat)
    requires |idom| == c.n
    ensures CommonOf(c, idom, ps + [p], x)
       <==> CommonOf(c, idom, ps, x) && (p < c.n && idom[p].Some? ==> Anc(c, idom, x, p))
  {
    var qs := ps + [p];
    assert qs[|ps|] == p && forall i: nat :: i < |ps| ==> qs[i] == ps[i];
  }

  lemma NoMeet(c: Cfg, idom: Idoms)
    requires |idom| == c.n
    ensures MeetOf(c, idom, [], None)
  {
  }

  lemma MeetOfStep(c: Cfg, idom: Idoms, ps: seq<nat>, p: nat, r: Option<nat>, r': Option<nat>)
    requires |idom| == c.n && MeetOf(c, idom, ps, r)
    requires p < c.n && idom[p].Some? && r.None? ==> r' == Some(p)
    requires p < c.n && idom[p].Some? && r.Some? ==>
      && r'.Some? && r'.value < c.n && idom[r'.value].Some?
      && NearestCommon(c, idom, r'.value, r.value, p)
    requires p >= c.n || idom[p].None? ==> r' == r
    ensures MeetOf(c, idom, ps + [p], r')
  {
    forall x: nat ensures CommonOf(c, idom, ps + [p], x)
        <==> CommonOf(c, idom, ps, x) && (p < c.n && idom[p].Some? ==> Anc(c, idom, x, p)) {
      CommonOfStep(c, idom, ps, p, x);
    }
  }

  lemma MeetOfAll(c: Cfg, idom: Idoms, preds: Graph, b: nat, r: Option<nat>)
    requires |idom| == c.n && PredsOk(c, preds) && b < c.n && MeetOf(c, idom, preds[b], r)
    ensures r.Some? ==> IsMeet(c, idom, b, r.value)
    ensures r.None? ==> forall p: nat :: Arc(c, p, b) ==> idom[p].None?
  {
    CommonOfPreds(c, idom, preds, b);
    if r.None? {
      forall p: nat | Arc(c, p, b) ensures idom[p].None? { assert p in preds[b]; }
    }
  }

  // ---- The fixpoint loop (dominance.rs:95-119) -------------------------------------------

  /** Only the entry has a parent, or every reachable block has one. */
  ghost predicate FirstOrFull(c: Cfg, start: Idoms)
    requires |start| == c.n
  {
    || (forall v: nat :: v < c.n && v != c.entry ==> start[v].None?)
    || (forall v: nat :: Reach(c, v) ==> start[v].Some?)
  }

  ghost predicate Sound(c: Cfg, idom: Idoms)
  {
    TreeOk(c, idom) && Backed(c, idom) && DomSub(c, idom)
  }

  /** Every non-entry block numbered below `i` has a settled parent. */
  ghost predicate SettledBelow(c: Cfg, idom: Idoms, i: nat)
    requires |idom| == c.n == |c.rpo|
  {
    && (forall u: nat :: Reach(c, u) && c.rpo[u] < i ==> idom[u].Some?)
    && (forall u: nat {:trigger Settled(c, idom, u)} ::
          Reach(c, u) && u != c.entry && c.rpo[u] < i && idom[u].Some? ==> Settled(c, idom, u))
  }

  /** What holds at the start of a pass. */
  ghost predicate PassStart(c: Cfg, start: Idoms)
  {
    && Sound(c, start) && FirstOrFull(c, start)
    && (forall u: nat {:trigger Settled(c, start, u)} ::
          u < c.n && u != c.entry && start[u].Some? ==> Settled(c, start, u))
  }

  /** What holds in a pass that began with `start`, before block number `i`. */
  ghost predicate PassAt(c: Cfg, start: Idoms, idom: Idoms, i: nat)
  {
    && PassStart(c, start) && Sound(c, idom) && Moved(c, start, idom)
    && SettledBelow(c, idom, i)
    && (forall u: nat :: u < c.n && c.rpo[u] >= i ==> idom[u] == start[u])
  }

  lemma StepMoved(c: Cfg, start: Idoms, idom: Idoms, new_: Idoms, b: nat, d: nat)
    requires Numbered(c) && Reach(c, b) && b != c.entry
    requires PassAt(c, start, idom, c.rpo[b]) && IsMeet(c, idom, b, d) && c.rpo[d] < c.rpo[b]
    requires new_ == idom[b := Some(d)]
    ensures Moved(c, start, new_)
    ensures start[b].Some? ==> Anc(c, idom, d, start[b].value)
  {
    if start[b].Some? {
      assert EarlierDone(c, start, b);
      MeetMovesUp(c, start, idom, b, d);
    }
    forall y: nat | y < c.n && start[y].Some? ensures new_[y].Some? && Anc(c, new_, new_[y].value, start[y].value) {
      assert NodeOk(c, start, y);
      MovedOne(c, start, idom, new_, b, y);
    }
  }

  lemma MovedOne(c: Cfg, start: Idoms, idom: Idoms, new_: Idoms, b: nat, y: nat)
    requires |start| == |idom| == c.n == |c.rpo| && b < c.n && y < c.n && start[y].Some? && idom[y].Some?
    requires start[y].value < c.n && (y != b ==> Anc(c, idom, idom[y].value, start[y].value))
    requires c.rpo[start[y].value] < c.rpo[y] || y == c.entry == start[y].value
    requires c.entry < c.n && c.rpo[c.entry] < c.rpo[b] && (c.rpo[y] > c.rpo[b] ==> idom[y] == start[y])
    requires forall u: nat :: u < c.n && c.rpo[u] == c.rpo[b] && start[u].Some? ==> u == b
    requires |new_| == c.n && new_[b].Some? && new_ == idom[b := new_[b]]
    requires y == b ==> Anc(c, idom, new_[b].value, start[b].value)
    ensures new_[y].Some? && Anc(c, new_, new_[y].value, start[y].value)
  {
    if c.rpo[y] <= c.rpo[b] {
      AncLocal(c, idom, new_, new_[y].value, start[y].value);
    }
  }

  lemma StepMovedOnce(c: Cfg, start: Idoms, idom: Idoms, new_: Idoms, b: nat, d: nat)
    requires TreeOk(c, idom) && b < c.n && b != c.entry && d < c.n && c.rpo[d] < c.rpo[b]
    requires new_ == idom[b := Some(d)]
    requires idom[b].Some? ==> Anc(c, idom, d, idom[b].value)
    ensures Moved(c, idom, new_)
  {
    if idom[b].Some? {
      assert NodeOk(c, idom, b);
      AncLocal(c, idom, new_, d, idom[b].value);
    }
  }

  /** One step of a pass: block `b`, next in the order, takes the meet `d`. */
  lemma PassStep(c: Cfg, start: Idoms, idom: Idoms, new_: Idoms, b: nat, d: nat)
    requires Numbered(c) && Reach(c, b) && b != c.entry
    requires PassAt(c, start, idom, c.rpo[b]) && IsMeet(c, idom, b, d)
    requires new_ == idom[b := Some(d)]
    ensures PassAt(c, start, new_, c.rpo[b] + 1)
    ensures start[b].Some? && d != start[b].value ==> c.rpo[d] < c.rpo[start[b].value]
  {
    MeetIsEarlier(c, idom, b, d);
    StepMoved(c, start, idom, new_, b, d);
    if start[b].Some? {
      assert NodeOk(c, start, b);
      AncLower(c, idom, d, start[b].value);
    }
    StepMovedOnce(c, start, idom, new_, b, d);
    TreeKept(c, idom, new_, b, d);
    DomSubKept(c, idom, new_, b, d);
    SettledNew(c, idom, new_, b, d);
    forall u: nat | Reach(c, u) && u != c.entry && c.rpo[u] < c.rpo[b] + 1 ensures Settled(c, new_, u) {
      if u != b {
        assert Settled(c, idom, u);
        SettledKept(c, idom, new_, b, d, u);
      }
    }
  }

  /** Sum of the parents' numbers: what falls from pass to pass. */
  function Height(rpo: seq<nat>, idom: Idoms): nat
    requires |rpo| >= |idom|
    decreases |idom|
  {
    if idom == [] then 0
    else
      var k := |idom| - 1;
      Height(rpo, idom[..k]) + (if idom[k].Some? then NumberOf(rpo, idom[k].value) else 0)
  }

  function NumberOf(rpo: seq<nat>, d: nat): nat { if d < |rpo| then rpo[d] else 0 }

  lemma {:induction false} HeightUpdate(rpo: seq<nat>, idom: Idoms, b: nat, d: nat)
    requires |rpo| >= |idom| && b < |idom| && idom[b].Some?
    ensures Height(rpo, idom[b := Some(d)]) == Height(rpo, idom) - NumberOf(rpo, idom[b].value) + NumberOf(rpo, d)
    decreases |idom|
  {
    var k := |idom| - 1;
    if b < k {
      HeightUpdate(rpo, idom[..k], b, d);
      assert idom[b := Some(d)][..k] == idom[..k][b := Some(d)];
    } else {
      assert idom[b := Some(d)][..k] == idom[..k];
    }
  }

  /** The parents are the meets of the final array itself. */
  ghost predicate Fixed(c: Cfg, idom: Idoms)
    requires |idom| == c.n
  {
    forall b: nat {:trigger Reach(c, b)} :: Reach(c, b) && b != c.entry ==>
      idom[b].Some? && IsMeet(c, idom, b, idom[b].value)
  }

  /** At a fixpoint every ancestor of a block is one of its dominators. */
  lemma {:induction false} AncOnPath(c: Cfg, idom: Idoms, x: nat, b: nat, p: seq<nat>)
    requires TreeOk(c, idom) && Fixed(c, idom) && |c.rpo| == c.n
    requires PathTo(c.g, c.n, c.entry, p, b) && Anc(c, idom, x, b) && b < c.n
    ensures x in p
    decreases |p|
  {
    if x != b {
      assert Reach(c, b) && b != c.entry && |p| > 1;
      var q := p[..|p| - 1];
      var u := q[|q| - 1];
      assert PathTo(c.g, c.n, c.entry, q, u) && Arc(c, u, b);
      assert Reach(c, u);
      assert Common(c, idom, b, x);
      AncOnPath(c, idom, x, u, q);
    }
  }

  lemma AncDominates(c: Cfg, idom: Idoms, x: nat, b: nat)
    requires TreeOk(c, idom) && Fixed(c, idom) && |c.rpo| == c.n
    requires Anc(c, idom, x, b) && b < c.n
    ensures Dominates(c.g, c.n, c.entry, x, b)
  {
    forall p | PathTo(c.g, c.n, c.entry, p, b) ensures x in p { AncOnPath(c, idom, x, b, p); }
  }

  /** The result: the immediate dominator of every reachable block but the
      entry, the entry for itself, nothing for the unreachable blocks. */
  ghost predicate ExactIdoms(c: Cfg, idom: Idoms)
  {
    && |idom| == c.n && c.entry < c.n && idom[c.entry] == Some(c.entry)
    && (forall b: nat :: b < c.n && !Reach(c, b) ==> idom[b] == None)
    && (forall b: nat :: Reach(c, b) && b != c.entry ==>
          idom[b].Some? && IsIdom(c.g, c.n, c.entry, idom[b].value, b))
  }

  lemma FixedIsExact(c: Cfg, idom: Idoms)
    requires Numbered(c) && Sound(c, idom) && Fixed(c, idom)
    ensures ExactIdoms(c, idom)
  {
    forall b: nat | Reach(c, b) && b != c.entry
      ensures idom[b].Some? && IsIdom(c.g, c.n, c.entry, idom[b].value, b)
    {
      ParentIsIdom(c, idom, b);
    }
  }

  lemma ParentIsIdom(c: Cfg, idom: Idoms, b: nat)
    requires Numbered(c) && Sound(c, idom) && Fixed(c, idom) && Reach(c, b) && b != c.entry
    ensures idom[b].Some? && IsIdom(c.g, c.n, c.entry, idom[b].value, b)
  {
    assert NodeOk(c, idom, b);
    var d := idom[b].value;
    assert Anc(c, idom, d, d);
    AncDominates(c, idom, d, b);
    forall x: nat | x != b && Dominates(c.g, c.n, c.entry, x, b) ensures Dominates(c.g, c.n, c.entry, x, d) {
      assert Anc(c, idom, x, b);
      AncDominates(c, idom, x, d);
    }
  }

  /** A block has at most one immediate dominator. */
  lemma IdomUnique(c: Cfg, d: nat, e: nat, b: nat)
    requires IsIdom(c.g, c.n, c.entry, d, b) && IsIdom(c.g, c.n, c.entry, e, b)
    ensures d == e
  {
    // Each dominates the other: take a shortest path to one of them.
    var p :| PathTo(c.g, c.n, c.entry, p, d);
    ShortestMeets(c, d, e, p);
  }

  lemma {:induction false} ShortestMeets(c: Cfg, d: nat, e: nat, p: seq<nat>)
    requires Dominates(c.g, c.n, c.entry, d, e) && Dominates(c.g, c.n, c.entry, e, d)
    requires PathTo(c.g, c.n, c.entry, p, d)
    ensures d == e
    decreases |p|
  {
    if d != e {
      var i :| 0 <= i < |p| && p[i] == e;
      assert PathTo(c.g, c.n, c.entry, p[..i + 1], e);
      ShortestMeets(c, e, d, p[..i + 1]);
    }
  }

  lemma InitialForest(c: Cfg, idom: Idoms)
    requires Numbered(c) && |idom| == c.n && idom[c.entry] == Some(c.entry)
    requires forall v: nat :: v < c.n && v != c.entry ==> idom[v].None?
    ensures PassStart(c, idom)
  {
    assert TreeOk(c, idom);
    forall x: nat, b: nat | b < c.n && idom[b].Some? && Dominates(c.g, c.n, c.entry, x, b)
      ensures Anc(c, idom, x, b)
    {
      assert PathTo(c.g, c.n, c.entry, [c.entry], c.entry);
    }
  }

  lemma PassBegins(c: Cfg, idom: Idoms)
    requires Numbered(c) && PassStart(c, idom)
    ensures PassAt(c, idom, idom, 1)
  {
    forall u: nat | Reach(c, u) && c.rpo[u] < 1 ensures u == c.entry { assert Reach(c, c.entry); }
  }

  lemma PassEnds(c: Cfg, start: Idoms, idom: Idoms)
    requires CfgOk(c) && Numbered(c) && PassAt(c, start, idom, |c.order|)
    ensures PassStart(c, idom) && forall v: nat :: Reach(c, v) ==> idom[v].Some?
  {
    forall u: nat | Reach(c, u) ensures c.rpo[u] < |c.order| { ReachIffInOrder(c, u); }
    forall u: nat | u < c.n && u != c.entry && idom[u].Some? ensures Settled(c, idom, u) {
      assert Reach(c, u);
    }
  }

  ghost predicate StayedAt(c: Cfg, start: Idoms, j: nat)
    requires j < |c.order| && |start| == c.n
  {
    var b := c.order[j];
    b < c.n && start[b].Some? && IsMeet(c, start, b, start[b].value)
  }

  lemma AllFixed(c: Cfg, idom: Idoms)
    requires CfgOk(c) && |idom| == c.n
    requires forall j: nat :: 0 < j < |c.order| ==> StayedAt(c, idom, j)
    ensures Fixed(c, idom)
  {
    forall b: nat | Reach(c, b) && b != c.entry ensures idom[b].Some? && IsMeet(c, idom, b, idom[b].value) {
      ReachIffInOrder(c, b);
      var j: nat :| j < |c.order| && c.order[j] == b;
      assert StayedAt(c, idom, j);
    }
  }

  ghost predicate AllHaveParents(c: Cfg, idom: Idoms)
    requires |idom| == c.n
  {
    forall v: nat :: Reach(c, v) ==> idom[v].Some?
  }

  /** The loop's progress: `changed` records whether anything moved, and in a
      pass that began with every parent known a move lowers the height. */
  ghost predicate Progress(c: Cfg, start: Idoms, idom: Idoms, i: nat, changed: bool, full: bool)
    requires i <= |c.order| && |start| == |idom| == c.n == |c.rpo|
  {
    && (!changed ==> idom == start && forall j: nat :: 0 < j < i ==> StayedAt(c, start, j))
    && (full ==> Height(c.rpo, idom) <= Height(c.rpo, start))
    && (full && changed ==> Height(c.rpo, idom) < Height(c.rpo, start))
  }

  ghost predicate LoopAt(c: Cfg, start: Idoms, idom: Idoms, i: nat, changed: bool, full: bool)
  {
    && i <= |c.order| && |c.rpo| == c.n && PassAt(c, start, idom, i)
    && (full ==> AllHaveParents(c, start))
    && Progress(c, start, idom, i, changed, full)
  }

  /** `d` is the parent `b` had at the pass start, or a lower-numbered block. */
  ghost predicate NotLower(c: Cfg, start: Idoms, b: nat, d: nat)
    requires |start| == c.n == |c.rpo| && b < c.n && d < c.n
  {
    && start[b].Some? && start[b].value < c.n
    && (d == start[b].value || c.rpo[d] < c.rpo[start[b].value])
  }

  lemma ProgressStep(c: Cfg, start: Idoms, idom: Idoms, i: nat, d: nat, changed: bool, full: bool)
    requires i < |c.order| && |start| == |idom| == c.n == |c.rpo| && c.order[i] < c.n && d < c.n
    requires Progress(c, start, idom, i, changed, full)
    requires idom[c.order[i]] == start[c.order[i]] && (full ==> NotLower(c, start, c.order[i], d))
    requires IsMeet(c, idom, c.order[i], d)
    ensures Progress(c, start, idom[c.order[i] := Some(d)], i + 1, changed || idom[c.order[i]] != Some(d), full)
  {
    var b := c.order[i];
    if full { HeightUpdate(c.rpo, idom, b, d); }
    if !changed && idom[b] == Some(d) {
      assert idom[b := Some(d)] == idom;
      assert StayedAt(c, start, i);
    }
  }

  lemma LoopStep(c: Cfg, start: Idoms, idom: Idoms, i: nat, d: nat, changed: bool, full: bool)
    requires CfgOk(c) && Numbered(c) && 0 < i < |c.order| && LoopAt(c, start, idom, i, changed, full)
    requires c.order[i] < c.n && IsMeet(c, idom, c.order[i], d)
    ensures LoopAt(c, start, idom[c.order[i] := Some(d)], i + 1, changed || idom[c.order[i]] != Some(d), full)
  {
    OrderStep(c, start, idom, idom[c.order[i] := Some(d)], i, d);
    ProgressStep(c, start, idom, i, d, changed, full);
  }

  lemma OrderStep(c: Cfg, start: Idoms, idom: Idoms, new_: Idoms, i: nat, d: nat)
    requires CfgOk(c) && Numbered(c) && 0 < i < |c.order| && PassAt(c, start, idom, i)
    requires c.order[i] < c.n && IsMeet(c, idom, c.order[i], d)
    requires new_ == idom[c.order[i] := Some(d)]
    ensures PassAt(c, start, new_, i + 1)
    ensures idom[c.order[i]] == start[c.order[i]]
    ensures AllHaveParents(c, start) ==> NotLower(c, start, c.order[i], d)
  {
    var b := c.order[i];
    ReachIffInOrder(c, b);
    PassStep(c, start, idom, new_, b, d);
    if AllHaveParents(c, start) { assert NodeOk(c, start, b); }
  }

  lemma NewIdomExists(c: Cfg, start: Idoms, idom: Idoms, i: nat, changed: bool, full: bool)
    requires CfgOk(c) && Numbered(c) && 0 < i < |c.order| && LoopAt(c, start, idom, i, changed, full)
    ensures c.order[i] < c.n
    ensures exists p: nat :: Arc(c, p, c.order[i]) && idom[p].Some?
  {
    var b := c.order[i];
    ReachIffInOrder(c, b);
    assert HasEarlierPred(c, b);
    var p: nat :| Reach(c, p) && Arc(c, p, b) && c.rpo[p] < c.rpo[b];
  }

  lemma LoopEnds(c: Cfg, start: Idoms, idom: Idoms, changed: bool, full: bool)
    requires CfgOk(c) && Numbered(c) && LoopAt(c, start, idom, |c.order|, changed, full)
    ensures PassStart(c, idom) && AllHaveParents(c, idom) && (!changed ==> Fixed(c, idom))
  {
    PassEnds(c, start, idom);
    if !changed { AllFixed(c, idom); }
  }

  /** Processing the whole order once.  `changed` says whether anything moved. */
  method OnePass(preds: Graph, order: seq<nat>, rpoNum: array<nat>, n: nat, idom: array<Option<nat>>,
                 ghost c: Cfg, ghost full: bool) returns (changed: bool)
    requires CfgOk(c) && PredsOk(c, preds) && rpoNum[..] == c.rpo
    requires order == c.order && n == c.n && idom.Length == n
    requires PassStart(c, idom[..]) && (full ==> AllHaveParents(c, idom[..]))
    modifies idom
    ensures PassStart(c, idom[..]) && AllHaveParents(c, idom[..])
    ensures !changed ==> Fixed(c, idom[..])
    ensures full ==> Height(c.rpo, idom[..]) <= Height(c.rpo, old(idom[..]))
    ensures full && changed ==> Height(c.rpo, idom[..]) < Height(c.rpo, old(idom[..]))
  {
    changed := false;
    ghost var start := idom[..];
    NumberedHolds(c);
    PassBegins(c, start);
    var i := 1;
    while i < |order|
      invariant 1 <= i && LoopAt(c, start, idom[..], i, changed, full)
    {
      var b := order[i];
      ghost var cur := idom[..];
      NewIdomExists(c, start, cur, i, changed, full);
      DistinctHolds(c, cur);
      var newIdom := FindNewIdom(b, preds, idom, rpoNum, n, c);
      LoopStep(c, start, cur, i, newIdom.value, changed, full);
      if idom[b] != newIdom {
        idom[b] := newIdom;
        changed := true;
      }
      assert idom[..] == cur[b := newIdom];
      i := i + 1;
    }
    LoopEnds(c, start, idom[..], changed, full);
  }

  method ComputeIdoms(preds: Graph, order: seq<nat>, rpoNum: array<nat>, entry: nat, n: nat, ghost c: Cfg)
    returns (idom: array<Option<nat>>)
    requires CfgOk(c) && PredsOk(c, preds) && rpoNum[..] == c.rpo
    requires order == c.order && n == c.n && entry == c.entry
    ensures ExactIdoms(c, idom[..])
  {
    NumberedHolds(c);
    idom := new Option<nat>[n](i => None);
    idom[entry] := Some(entry);
    InitialForest(c, idom[..]);
    var changed := true;
    ghost var full := false;
    while changed
      invariant PassStart(c, idom[..])
      invariant full ==> AllHaveParents(c, idom[..])
      invariant !changed ==> Fixed(c, idom[..])
      decreases if full then 0 else 1, Height(c.rpo, idom[..]), if changed then 1 else 0
    {
      changed := OnePass(preds, order, rpoNum, n, idom, c, full);
      full := true;
    }
    FixedIsExact(c, idom[..]);
  }

  /** `compute_dom_tree` without the frontiers: exact immediate dominators. */
  method ComputeDomTree(succs: Graph, entry: nat, n: nat) returns (idom: array<Option<nat>>)
    requires n <= |succs| && entry < n
    ensures idom.Length == n && idom[entry] == Some(entry)
    ensures forall b: nat :: b < n && !Reachable(succs, n, entry, b) ==> idom[b] == None
    ensures forall b: nat :: b < n && b != entry && Reachable(succs, n, entry, b) ==>
      idom[b].Some? && IsIdom(succs, n, entry, idom[b].value, b)
  {
    var preds := BuildPredecessors(succs, n);
    var order := ComputeRpo(succs, entry, n);
    var rpoNum := BuildRpoNumbers(order, n);
    ghost var c := Cfg(succs, n, entry, order, rpoNum[..]);
    idom := ComputeIdoms(preds, order, rpoNum, entry, n, c);
    assert forall b: nat :: b < n ==> (Reach(c, b) <==> Reachable(succs, n, entry, b));
  }
}
