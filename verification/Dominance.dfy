/**
 Dominator tree of a control-flow graph (src/analysis/dominance.rs).

 The graph is given by successor lists; blocks are `0 .. n` and a successor
 outside that range is no edge.  `Dominates` is the path definition: every
 path from the entry to `b` passes through `d`.  The theorem is that the
 iterative algorithm of Cooper, Harvey and Kennedy, as the source runs it,
 stops with exactly the immediate dominators of the reachable blocks.
 */
module Dominance {
  import opened Wrappers

  type Graph = seq<seq<nat>>
  type Idoms = seq<Option<nat>>

  // ---- Paths and dominance ---------------------------------------------

  predicate Edge(g: Graph, n: nat, u: nat, v: nat)
  {
    u < n && v < n && n <= |g| && v in g[u]
  }

  ghost predicate Walk(g: Graph, n: nat, p: seq<nat>)
  {
    |p| > 0 && p[0] < n && forall i :: 0 < i < |p| ==> Edge(g, n, p[i - 1], p[i])
  }

  ghost predicate PathTo(g: Graph, n: nat, entry: nat, p: seq<nat>, b: nat)
  {
    Walk(g, n, p) && p[0] == entry && p[|p| - 1] == b
  }

  ghost predicate Reachable(g: Graph, n: nat, entry: nat, b: nat)
  {
    exists p :: PathTo(g, n, entry, p, b)
  }

  ghost predicate Dominates(g: Graph, n: nat, entry: nat, d: nat, b: nat)
  {
    forall p :: PathTo(g, n, entry, p, b) ==> d in p
  }

  ghost predicate IsIdom(g: Graph, n: nat, entry: nat, d: nat, b: nat)
  {
    && d != b
    && Reachable(g, n, entry, d)
    && Dominates(g, n, entry, d, b)
    && (forall x :: x != b && Dominates(g, n, entry, x, b) ==> Dominates(g, n, entry, x, d))
  }

  lemma PathExtend(g: Graph, n: nat, entry: nat, p: seq<nat>, u: nat, v: nat)
    requires PathTo(g, n, entry, p, u) && Edge(g, n, u, v)
    ensures PathTo(g, n, entry, p + [v], v)
  {
    var q := p + [v];
    forall i | 0 < i < |q| ensures Edge(g, n, q[i - 1], q[i]) {
      if i < |p| { assert q[i - 1] == p[i - 1] && q[i] == p[i]; }
    }
  }

  lemma ReachableStep(g: Graph, n: nat, entry: nat, u: nat, v: nat)
    requires Reachable(g, n, entry, u) && Edge(g, n, u, v)
    ensures Reachable(g, n, entry, v)
  {
    var p :| PathTo(g, n, entry, p, u);
    PathExtend(g, n, entry, p, u, v);
  }

  lemma ReachableEntry(g: Graph, n: nat, entry: nat)
    requires entry < n
    ensures Reachable(g, n, entry, entry)
  {
    assert PathTo(g, n, entry, [entry], entry);
  }

  /** Dominance passes from a block to its predecessors. */
  lemma DominatesPred(g: Graph, n: nat, entry: nat, x: nat, p: nat, b: nat)
    requires Dominates(g, n, entry, x, b) && x != b && Edge(g, n, p, b)
    ensures Dominates(g, n, entry, x, p)
  {
    forall q | PathTo(g, n, entry, q, p) ensures x in q {
      PathExtend(g, n, entry, q, p, b);
    }
  }

  // ---- Predecessors (dominance.rs:34-48) ----------------------------------

  method BuildPredecessors(succs: Graph, n: nat) returns (preds: Graph)
    ensures |preds| == n
    ensures forall u: nat, v: nat {:trigger u in preds[v]} :: v < n ==> (u in preds[v] <==> u < |succs| && v in succs[u])
    ensures n <= |succs| ==> forall u: nat, v: nat :: u < n && v < n ==> (u in preds[v] <==> Edge(succs, n, u, v))
  {
    preds := seq(n, i => []);
    var b := 0;
    while b < |succs|
      invariant b <= |succs| && |preds| == n
      invariant forall u: nat, v: nat {:trigger u in preds[v]} :: v < n ==> (u in preds[v] <==> u < b && v in succs[u])
    {
      var j := 0;
      while j < |succs[b]|
        invariant j <= |succs[b]| && |preds| == n
        invariant forall u: nat, v: nat {:trigger u in preds[v]} :: v < n ==>
          (u in preds[v] <==> (u < b && v in succs[u]) || (u == b && v in succs[b][..j]))
      {
        var s := succs[b][j];
        assert succs[b][..j + 1] == succs[b][..j] + [s];
        assert forall v: nat :: v in succs[b][..j + 1] <==> v in succs[b][..j] || v == s;
        if s < n {
          ghost var was := preds;
          preds := preds[s := preds[s] + [b]];
          assert forall u: nat, v: nat :: v < n ==> (u in preds[v] <==> u in was[v] || (v == s && u == b));
        }
        j := j + 1;
      }
      assert succs[b][..j] == succs[b];
      b := b + 1;
    }
  }

  // ---- Reverse post-order (dominance.rs:51-79) ------------------------------

  /** The depth-first search: explicit stack of (block, already opened), the
      blocks visited, and the blocks finished so far. */
  datatype Dfs = Dfs(stack: seq<(nat, bool)>, visited: set<nat>, post: seq<nat>)

  /** Block `v` is open: its second stack entry waits below. */
  predicate Open(s: Dfs, k: nat) { k < |s.stack| && s.stack[k].1 }

  /** Some block that reaches `v` in one step finishes after position `i`. */
  ghost predicate FinishesLater(g: Graph, n: nat, s: Dfs, i: nat, v: nat)
  {
    || (exists k: nat :: Open(s, k) && Edge(g, n, s.stack[k].0, v))
    || (exists j: nat :: i < j < |s.post| && Edge(g, n, s.post[j], v))
  }

  ghost predicate OpenedBelow(g: Graph, n: nat, s: Dfs, k: nat)
    requires k < |s.stack|
  {
    exists j: nat :: j < k && Open(s, j) && Edge(g, n, s.stack[j].0, s.stack[k].0)
  }

  ghost predicate PendingAbove(s: Dfs, k: nat, v: nat)
  {
    v in s.visited || exists m: nat :: k < m < |s.stack| && s.stack[m] == (v, false)
  }

  ghost predicate StackOk(g: Graph, n: nat, entry: nat, s: Dfs)
  {
    && (forall k: nat :: k < |s.stack| ==> s.stack[k].0 < n && Reachable(g, n, entry, s.stack[k].0))
    && (forall k: nat :: Open(s, k) ==> s.stack[k].0 in s.visited && s.stack[k].0 !in s.post)
    && (forall j: nat, k: nat :: j < k && Open(s, j) && Open(s, k) ==> s.stack[j].0 != s.stack[k].0)
    && (forall k: nat :: 0 < k < |s.stack| ==> OpenedBelow(g, n, s, k))
    && (|s.stack| > 0 ==> s.stack[0].0 == entry)
    && (entry in s.visited || (|s.stack| > 0 && s.stack[0] == (entry, false)))
  }

  ghost predicate PostOk(g: Graph, n: nat, entry: nat, s: Dfs)
  {
    && (forall i: nat :: i < |s.post| ==> s.post[i] in s.visited)
    && (forall i: nat, j: nat :: i < j < |s.post| ==> s.post[i] != s.post[j])
    && (forall i: nat :: i < |s.post| && s.post[i] != entry ==> FinishesLater(g, n, s, i, s.post[i]))
    && (forall u, v: nat :: u in s.post && Edge(g, n, u, v) ==> v in s.visited)
  }

  ghost predicate VisitedOk(g: Graph, n: nat, entry: nat, s: Dfs)
  {
    && (forall v :: v in s.visited ==> v < n && Reachable(g, n, entry, v))
    && (forall v :: v in s.visited ==> v in s.post || exists k: nat :: Open(s, k) && s.stack[k].0 == v)
    && (forall k: nat, v: nat :: Open(s, k) && Edge(g, n, s.stack[k].0, v) ==> PendingAbove(s, k, v))
  }

  ghost predicate DfsInv(g: Graph, n: nat, entry: nat, s: Dfs)
  {
    StackOk(g, n, entry, s) && PostOk(g, n, entry, s) && VisitedOk(g, n, entry, s)
  }

  /** The pushes of one opening: unvisited successors, last successor first. */
  function Pushes(n: nat, ss: seq<nat>, visited: set<nat>): (r: seq<(nat, bool)>)
    ensures forall e :: e in r <==> !e.1 && e.0 < n && e.0 in ss && e.0 !in visited
  {
    if ss == [] then []
    else
      var k := |ss| - 1;
      assert ss == ss[..k] + [ss[k]];
      (if ss[k] < n && ss[k] !in visited then [(ss[k], false)] else []) + Pushes(n, ss[..k], visited)
  }

  function Popped(s: Dfs): Dfs requires |s.stack| > 0 { s.(stack := s.stack[..|s.stack| - 1]) }
  function Finished(s: Dfs): Dfs requires |s.stack| > 0
  {
    Popped(s).(post := s.post + [s.stack[|s.stack| - 1].0])
  }
  function Opened(g: Graph, n: nat, s: Dfs): Dfs
    requires |s.stack| > 0 && s.stack[|s.stack| - 1].0 < |g|
  {
    var v := s.stack[|s.stack| - 1].0;
    Dfs(Popped(s).stack + [(v, true)] + Pushes(n, g[v], s.visited + {v}), s.visited + {v}, s.post)
  }

  lemma PopStack(g: Graph, n: nat, entry: nat, s: Dfs)
    requires StackOk(g, n, entry, s) && |s.stack| > 0
    requires s.stack[|s.stack| - 1].0 in s.visited
    ensures StackOk(g, n, entry, Popped(s))
  {
    var t := Popped(s);
    forall k: nat | 0 < k < |t.stack| ensures OpenedBelow(g, n, t, k) {
      assert OpenedBelow(g, n, s, k);
      var j: nat :| j < k && Open(s, j) && Edge(g, n, s.stack[j].0, s.stack[k].0);
      assert Open(t, j);
    }
    forall k: nat | Open(t, k) ensures t.stack[k].0 in t.visited && t.stack[k].0 !in t.post { assert Open(s, k); }
    forall j: nat, k: nat | j < k && Open(t, j) && Open(t, k) ensures t.stack[j].0 != t.stack[k].0 {
      assert Open(s, j) && Open(s, k);
    }
  }

  lemma PopPost(g: Graph, n: nat, entry: nat, s: Dfs)
    requires PostOk(g, n, entry, s) && |s.stack| > 0 && !s.stack[|s.stack| - 1].1
    ensures PostOk(g, n, entry, Popped(s))
  {
    var t := Popped(s);
    forall i: nat | i < |t.post| && t.post[i] != entry ensures FinishesLater(g, n, t, i, t.post[i]) {
      assert FinishesLater(g, n, s, i, s.post[i]);
      if k: nat :| Open(s, k) && Edge(g, n, s.stack[k].0, s.post[i]) { assert Open(t, k); }
    }
  }

  lemma PopVisited(g: Graph, n: nat, entry: nat, s: Dfs)
    requires VisitedOk(g, n, entry, s) && |s.stack| > 0
    requires !s.stack[|s.stack| - 1].1 && s.stack[|s.stack| - 1].0 in s.visited
    ensures VisitedOk(g, n, entry, Popped(s))
  {
    var t := Popped(s);
    forall v | v in t.visited && v !in t.post ensures exists k: nat :: Open(t, k) && t.stack[k].0 == v {
      var k: nat :| Open(s, k) && s.stack[k].0 == v;
      assert Open(t, k);
    }
    forall k: nat, v: nat | Open(t, k) && Edge(g, n, t.stack[k].0, v) ensures PendingAbove(t, k, v) {
      assert Open(s, k) && PendingAbove(s, k, v);
    }
  }

  lemma FinishStack(g: Graph, n: nat, entry: nat, s: Dfs)
    requires StackOk(g, n, entry, s) && |s.stack| > 0 && s.stack[|s.stack| - 1].1
    ensures StackOk(g, n, entry, Finished(s))
  {
    var top := |s.stack| - 1;
    assert Open(s, top);
    PopStack(g, n, entry, s);
    var p, t := Popped(s), Finished(s);
    forall k: nat | 0 < k < |t.stack| ensures OpenedBelow(g, n, t, k) {
      assert OpenedBelow(g, n, p, k);
      var j: nat :| j < k && Open(p, j) && Edge(g, n, p.stack[j].0, p.stack[k].0);
      assert Open(t, j);
    }
    forall k: nat | Open(t, k) ensures t.stack[k].0 in t.visited && t.stack[k].0 !in t.post {
      assert Open(s, k) && k < top;
    }
    forall j: nat, k: nat | j < k && Open(t, j) && Open(t, k) ensures t.stack[j].0 != t.stack[k].0 {
      assert Open(s, j) && Open(s, k);
    }
  }

  lemma FinishPost(g: Graph, n: nat, entry: nat, s: Dfs)
    requires DfsInv(g, n, entry, s) && |s.stack| > 0 && s.stack[|s.stack| - 1].1
    ensures PostOk(g, n, entry, Finished(s))
  {
    var t := Finished(s);
    var top := |s.stack| - 1;
    var w := s.stack[top].0;
    assert Open(s, top);
    forall i: nat | i < |t.post| && t.post[i] != entry ensures FinishesLater(g, n, t, i, t.post[i]) {
      if i < |s.post| {
        FinishLaterStep(g, n, entry, s, i);
      } else {
        assert OpenedBelow(g, n, s, top);
        var j: nat :| j < top && Open(s, j) && Edge(g, n, s.stack[j].0, w);
        assert Open(t, j);
      }
    }
    forall v: nat | Edge(g, n, w, v) ensures v in t.visited { assert PendingAbove(s, top, v); }
  }

  lemma FinishLaterStep(g: Graph, n: nat, entry: nat, s: Dfs, i: nat)
    requires |s.stack| > 0 && i < |s.post| && FinishesLater(g, n, s, i, s.post[i])
    ensures FinishesLater(g, n, Finished(s), i, s.post[i])
  {
    var t, top := Finished(s), |s.stack| - 1;
    if k: nat :| Open(s, k) && Edge(g, n, s.stack[k].0, s.post[i]) {
      if k == top { assert t.post[|s.post|] == s.stack[top].0; } else { assert Open(t, k); }
    } else {
      var j: nat :| i < j < |s.post| && Edge(g, n, s.post[j], s.post[i]);
      assert t.post[j] == s.post[j];
    }
  }

  lemma FinishVisited(g: Graph, n: nat, entry: nat, s: Dfs)
    requires VisitedOk(g, n, entry, s) && |s.stack| > 0 && s.stack[|s.stack| - 1].1
    ensures VisitedOk(g, n, entry, Finished(s))
  {
    var t := Finished(s);
    forall v | v in t.visited && v !in t.post ensures exists k: nat :: Open(t, k) && t.stack[k].0 == v {
      assert v !in s.post by { assert forall x :: x in s.post ==> x in t.post; }
      var k: nat :| Open(s, k) && s.stack[k].0 == v;
      assert t.post[|s.post|] == s.stack[|s.stack| - 1].0;
      assert Open(t, k);
    }
    forall k: nat, v: nat | Open(t, k) && Edge(g, n, t.stack[k].0, v) ensures PendingAbove(t, k, v) {
      assert Open(s, k) && PendingAbove(s, k, v);
      if v !in s.visited {
        var m: nat :| k < m < |s.stack| && s.stack[m] == (v, false);
        assert t.stack[k] == s.stack[k];
      }
    }
  }

  /** `t` is `s` with its top `w` opened and successors of `w` pushed. */
  predicate OpensTo(g: Graph, n: nat, s: Dfs, t: Dfs, w: nat) {
    var top := |s.stack| - 1;
    && 0 <= top < |t.stack| && s.stack[top] == (w, false) && t.stack[top] == (w, true)
    && (forall k: nat :: k < top ==> t.stack[k] == s.stack[k])
    && (forall k: nat :: top < k < |t.stack| ==> !t.stack[k].1 && Edge(g, n, w, t.stack[k].0))
    && t.visited == s.visited + {w} && t.post == s.post
  }

  lemma OpenedLayout(g: Graph, n: nat, s: Dfs)
    requires n <= |g| && |s.stack| > 0 && !s.stack[|s.stack| - 1].1 && s.stack[|s.stack| - 1].0 < n
    ensures OpensTo(g, n, s, Opened(g, n, s), s.stack[|s.stack| - 1].0)
  {
    var t, top := Opened(g, n, s), |s.stack| - 1;
    var w := s.stack[top].0;
    var ps := Pushes(n, g[w], s.visited + {w});
    assert forall k: nat :: top < k < |t.stack| ==> t.stack[k] == ps[k - top - 1] && t.stack[k] in ps;
  }

  lemma OpenStack(g: Graph, n: nat, entry: nat, s: Dfs)
    requires n <= |g| && DfsInv(g, n, entry, s) && |s.stack| > 0
    requires !s.stack[|s.stack| - 1].1 && s.stack[|s.stack| - 1].0 !in s.visited
    ensures StackOk(g, n, entry, Opened(g, n, s))
  {
    hide Opened, OpensTo, OpenedBelow, VisitedOk, Edge;
    var t, w := Opened(g, n, s), s.stack[|s.stack| - 1].0;
    OpenedLayout(g, n, s);
    OpenedBounds(g, n, entry, s, t, w);
    OpenedParents(g, n, entry, s, t, w);
    OpenedOpens(g, n, entry, s, t, w);
  }

  lemma OpenedBounds(g: Graph, n: nat, entry: nat, s: Dfs, t: Dfs, w: nat)
    requires StackOk(g, n, entry, s) && OpensTo(g, n, s, t, w)
    ensures forall k: nat :: k < |t.stack| ==> t.stack[k].0 < n && Reachable(g, n, entry, t.stack[k].0)
    ensures |t.stack| > 0 && t.stack[0].0 == entry && (entry in t.visited || t.stack[0] == (entry, false))
  {
    var top := |s.stack| - 1;
    forall k: nat | k < |t.stack| ensures t.stack[k].0 < n && Reachable(g, n, entry, t.stack[k].0) {
      if k > top { ReachableStep(g, n, entry, w, t.stack[k].0); }
    }
  }

  lemma OpenedParents(g: Graph, n: nat, entry: nat, s: Dfs, t: Dfs, w: nat)
    requires StackOk(g, n, entry, s) && OpensTo(g, n, s, t, w)
    ensures forall k: nat :: 0 < k < |t.stack| ==> OpenedBelow(g, n, t, k)
  {
    hide Edge;
    var top := |s.stack| - 1;
    assert Open(t, top);
    forall k: nat | 0 < k < |t.stack| ensures OpenedBelow(g, n, t, k) {
      if k <= top {
        assert OpenedBelow(g, n, s, k);
        var j: nat :| j < k && Open(s, j) && Edge(g, n, s.stack[j].0, s.stack[k].0);
        assert Open(t, j);
      }
    }
  }

  lemma OpenedOpens(g: Graph, n: nat, entry: nat, s: Dfs, t: Dfs, w: nat)
    requires StackOk(g, n, entry, s) && OpensTo(g, n, s, t, w) && w !in s.visited && w !in s.post
    ensures forall k: nat :: Open(t, k) ==> t.stack[k].0 in t.visited && t.stack[k].0 !in t.post
    ensures forall j: nat, k: nat :: j < k && Open(t, j) && Open(t, k) ==> t.stack[j].0 != t.stack[k].0
  {
    hide Edge, OpenedBelow;
    var top := |s.stack| - 1;
    assert forall k: nat :: Open(t, k) ==> k == top || (k < top && Open(s, k) && t.stack[k] == s.stack[k]);
  }

  lemma OpenPost(g: Graph, n: nat, entry: nat, s: Dfs)
    requires n <= |g| && PostOk(g, n, entry, s) && |s.stack| > 0
    requires !s.stack[|s.stack| - 1].1 && s.stack[|s.stack| - 1].0 < n
    ensures PostOk(g, n, entry, Opened(g, n, s))
  {
    var t := Opened(g, n, s);
    forall i: nat | i < |t.post| && t.post[i] != entry ensures FinishesLater(g, n, t, i, t.post[i]) {
      assert FinishesLater(g, n, s, i, s.post[i]);
      if k: nat :| Open(s, k) && Edge(g, n, s.stack[k].0, s.post[i]) { assert Open(t, k); }
    }
  }

  lemma OpenVisited(g: Graph, n: nat, entry: nat, s: Dfs)
    requires n <= |g| && VisitedOk(g, n, entry, s) && |s.stack| > 0
    requires !s.stack[|s.stack| - 1].1 && s.stack[|s.stack| - 1].0 < n
    requires Reachable(g, n, entry, s.stack[|s.stack| - 1].0)
    ensures VisitedOk(g, n, entry, Opened(g, n, s))
  {
    hide OpensTo;
    var t, top := Opened(g, n, s), |s.stack| - 1;
    var w := s.stack[top].0;
    var ps := Pushes(n, g[w], s.visited + {w});
    assert forall k: nat :: k < top ==> t.stack[k] == s.stack[k];
    assert forall k: nat :: top < k < |t.stack| ==> t.stack[k] == ps[k - top - 1] && t.stack[k] in ps;
    assert Open(t, top);
    forall v | v in t.visited && v !in t.post ensures exists k: nat :: Open(t, k) && t.stack[k].0 == v {
      if v != w {
        var k: nat :| Open(s, k) && s.stack[k].0 == v;
        assert Open(t, k);
      }
    }
    forall k: nat, v: nat | Open(t, k) && Edge(g, n, t.stack[k].0, v) ensures PendingAbove(t, k, v) {
      if k < top {
        assert Open(s, k) && PendingAbove(s, k, v);
      } else if v !in t.visited {
        assert (v, false) in ps;
        var m: nat :| m < |ps| && ps[m] == (v, false);
        assert t.stack[top + 1 + m] == (v, false);
      }
    }
  }

  lemma InitialSearch(g: Graph, n: nat, entry: nat)
    requires entry < n
    ensures DfsInv(g, n, entry, Dfs([(entry, false)], {}, []))
  {
    ReachableEntry(g, n, entry);
  }

  lemma StackInside(g: Graph, n: nat, entry: nat, s: Dfs)
    requires DfsInv(g, n, entry, s)
    ensures forall k: nat :: k < |s.stack| ==> s.stack[k].0 < n
  {
  }

  lemma FinishKeeps(g: Graph, n: nat, entry: nat, s: Dfs)
    requires DfsInv(g, n, entry, s) && |s.stack| > 0 && s.stack[|s.stack| - 1].1
    ensures DfsInv(g, n, entry, Finished(s))
  {
    FinishStack(g, n, entry, s); FinishPost(g, n, entry, s); FinishVisited(g, n, entry, s);
  }

  lemma PopKeeps(g: Graph, n: nat, entry: nat, s: Dfs)
    requires DfsInv(g, n, entry, s) && |s.stack| > 0
    requires !s.stack[|s.stack| - 1].1 && s.stack[|s.stack| - 1].0 in s.visited
    ensures DfsInv(g, n, entry, Popped(s))
  {
    PopStack(g, n, entry, s); PopPost(g, n, entry, s); PopVisited(g, n, entry, s);
  }

  lemma OpenKeeps(g: Graph, n: nat, entry: nat, s: Dfs)
    requires n <= |g| && DfsInv(g, n, entry, s) && |s.stack| > 0
    requires !s.stack[|s.stack| - 1].1 && s.stack[|s.stack| - 1].0 !in s.visited
    ensures DfsInv(g, n, entry, Opened(g, n, s))
  {
    OpenStack(g, n, entry, s); OpenPost(g, n, entry, s); OpenVisited(g, n, entry, s);
  }

  /** What the rest of the algorithm needs of the block order: the reachable
      blocks, each once, the entry first, and before every other block one of
      its predecessors. */
  ghost predicate OrderOk(g: Graph, n: nat, entry: nat, order: seq<nat>)
  {
    && |order| > 0 && order[0] == entry
    && (forall v: nat :: v in order <==> Reachable(g, n, entry, v))
    && (forall i: nat, j: nat :: i < j < |order| ==> order[i] != order[j])
    && (forall i: nat :: 0 < i < |order| ==> EarlierPred(g, n, order, i))
  }

  ghost predicate EarlierPred(g: Graph, n: nat, order: seq<nat>, i: nat)
    requires i < |order|
  {
    exists j: nat :: j < i && Edge(g, n, order[j], order[i])
  }

  function Reversed(s: seq<nat>): (r: seq<nat>)
    ensures |r| == |s| && forall i :: 0 <= i < |s| ==> r[i] == s[|s| - 1 - i]
  {
    seq(|s|, i requires 0 <= i < |s| => s[|s| - 1 - i])
  }

  lemma ReversedElements(s: seq<nat>)
    ensures forall v: nat :: v in Reversed(s) <==> v in s
  {
    var r := Reversed(s);
    forall v: nat | v in s ensures v in r {
      var i :| 0 <= i < |s| && s[i] == v;
      assert r[|s| - 1 - i] == v;
    }
  }

  lemma LastFinished(g: Graph, n: nat, entry: nat, s: Dfs)
    requires PostOk(g, n, entry, s) && s.stack == [] && |s.post| > 0
    ensures s.post[|s.post| - 1] == entry
  {
    var last := |s.post| - 1;
    if s.post[last] != entry {
      assert FinishesLater(g, n, s, last, s.post[last]);
      assert forall k: nat :: !Open(s, k);
    }
  }

  lemma EarlierPredFound(g: Graph, n: nat, entry: nat, s: Dfs, i: nat)
    requires PostOk(g, n, entry, s) && s.stack == [] && 0 < i < |s.post|
    ensures EarlierPred(g, n, Reversed(s.post), i)
  {
    hide Edge, EarlierPred, FinishesLater, PostOk, Reversed;
    LastFinished(g, n, entry, s);
    var k := |s.post| - 1 - i;
    LaterFound(g, n, entry, s, k);
    var j: nat :| k < j < |s.post| && Edge(g, n, s.post[j], s.post[k]);
    EarlierReversed(g, n, s.post, k, j);
  }

  lemma EarlierReversed(g: Graph, n: nat, post: seq<nat>, k: nat, j: nat)
    requires k < j < |post| && Edge(g, n, post[j], post[k])
    ensures EarlierPred(g, n, Reversed(post), |post| - 1 - k)
  {
    hide Edge;
    var order, last := Reversed(post), |post| - 1;
    assert order[last - j] == post[j] && order[last - k] == post[k];
    assert Edge(g, n, order[last - j], order[last - k]);
  }

  lemma LaterFound(g: Graph, n: nat, entry: nat, s: Dfs, k: nat)
    requires PostOk(g, n, entry, s) && s.stack == [] && k < |s.post| - 1 && s.post[|s.post| - 1] == entry
    ensures exists j: nat :: k < j < |s.post| && Edge(g, n, s.post[j], s.post[k])
  {
    hide Edge;
    assert s.post[k] != s.post[|s.post| - 1];
    assert FinishesLater(g, n, s, k, s.post[k]);
    assert forall x: nat :: !Open(s, x);
  }

  /** A finished search has found the reachable blocks, in reverse post-order. */
  lemma FinishedSearch(g: Graph, n: nat, entry: nat, s: Dfs)
    requires entry < n && DfsInv(g, n, entry, s) && s.stack == []
    ensures OrderOk(g, n, entry, Reversed(s.post))
  {
    var order := Reversed(s.post);
    ReversedElements(s.post);
    assert entry in s.post by { assert forall k: nat :: !Open(s, k); }
    LastFinished(g, n, entry, s);
    forall v: nat | Reachable(g, n, entry, v) ensures v in s.post {
      var p :| PathTo(g, n, entry, p, v);
      PathInPost(g, n, entry, s, p, v);
    }
    forall i: nat | 0 < i < |order| ensures EarlierPred(g, n, order, i) {
      EarlierPredFound(g, n, entry, s, i);
    }
  }

  lemma {:induction false} PathInPost(g: Graph, n: nat, entry: nat, s: Dfs, p: seq<nat>, v: nat)
    requires entry in s.post && s.stack == [] && PathTo(g, n, entry, p, v)
    requires PostOk(g, n, entry, s) && VisitedOk(g, n, entry, s)
    ensures v in s.post
    decreases |p|
  {
    if |p| > 1 {
      var q := p[..|p| - 1];
      PathInPost(g, n, entry, s, q, q[|q| - 1]);
      assert Edge(g, n, p[|p| - 2], p[|p| - 1]);
      assert v in s.visited;
      assert forall k: nat :: !Open(s, k);
    }
  }

  /** The blocks `0 .. n`. */
  function Blocks(n: nat): (r: set<nat>)
    ensures forall x: nat :: x in r <==> x < n
  {
    if n == 0 then {} else Blocks(n - 1) + {n - 1}
  }

  lemma PushesStep(n: nat, ss: seq<nat>, visited: set<nat>, k: nat)
    requires k < |ss|
    ensures Pushes(n, ss[..k + 1], visited)
         == (if ss[k] < n && ss[k] !in visited then [(ss[k], false)] else []) + Pushes(n, ss[..k], visited)
  {
    assert ss[..k + 1][..k] == ss[..k];
  }

  /** The inner loop of the search: push the unvisited successors in reverse. */
  method PushUnvisited(stack: seq<(nat, bool)>, ss: seq<nat>, n: nat, visited: array<bool>, ghost seen: set<nat>)
    returns (r: seq<(nat, bool)>)
    requires visited.Length == n && forall x: nat :: x < n ==> (visited[x] <==> x in seen)
    ensures r == stack + Pushes(n, ss, seen)
  {
    r := stack;
    var k: nat := |ss|;
    ghost var all, rest := Pushes(n, ss, seen), Pushes(n, ss, seen);
    assert ss[..k] == ss;
    while k > 0
      invariant k <= |ss| && rest == Pushes(n, ss[..k], seen)
      invariant r + rest == stack + all
    {
      k := k - 1;
      PushesStep(n, ss, seen, k);
      rest := Pushes(n, ss[..k], seen);
      if ss[k] < n && !visited[ss[k]] {
        assert r + ([(ss[k], false)] + rest) == (r + [(ss[k], false)]) + rest;
        r := r + [(ss[k], false)];
      } else {
        assert [] + rest == rest;
      }
    }
  }

  method ComputeRpo(succs: Graph, entry: nat, n: nat) returns (order: seq<nat>)
    requires n <= |succs|
    ensures entry < n ==> OrderOk(succs, n, entry, order)
    ensures entry >= n ==> order == []
  {
    hide DfsInv, OrderOk;
    var visited := new bool[n](i => false);
    var postOrder: seq<nat> := [];
    var stack: seq<(nat, bool)> := [(entry, false)];
    ghost var s := Dfs(stack, {}, []);
    if entry < n { InitialSearch(succs, n, entry); }
    while stack != []
      invariant s.stack == stack && s.post == postOrder
      invariant forall x: nat :: x < n ==> (visited[x] <==> x in s.visited)
      invariant entry < n ==> DfsInv(succs, n, entry, s)
      invariant entry >= n ==> postOrder == [] && (stack == [] || stack == [(entry, false)])
      decreases Blocks(n) - s.visited, |stack|
    {
      var (node, processed) := stack[|stack| - 1];
      stack := stack[..|stack| - 1];
      if node >= n {
        if entry < n { StackInside(succs, n, entry, s); }
        s := Popped(s);
      } else if processed {
        FinishKeeps(succs, n, entry, s);
        s := Finished(s);
        postOrder := postOrder + [node];
      } else if visited[node] {
        PopKeeps(succs, n, entry, s);
        s := Popped(s);
      } else {
        OpenKeeps(succs, n, entry, s);
        s := Opened(succs, n, s);
        visited[node] := true;
        stack := stack + [(node, true)];
        stack := PushUnvisited(stack, succs[node], n, visited, s.visited);
      }
    }
    if entry < n { FinishedSearch(succs, n, entry, s); }
    order := Reversed(postOrder);
  }
}
