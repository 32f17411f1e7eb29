/** Dependency graphs, their cycles, and the rounds in which Kahn's method clears them. */
module Digraph {

  /** Each node with the nodes it depends on. */
  type Graph = map<string, set<string>>

  ghost predicate Closed(g: Graph) {
    forall n :: n in g ==> g[n] <= g.Keys
  }

  ghost predicate Edge(g: Graph, n: string, d: string) {
    n in g && d in g[n]
  }

  /** Each element of p depends on the next. */
  ghost predicate Walk(g: Graph, p: seq<string>) {
    forall i, j :: 0 <= i && j == i + 1 && j < |p| ==> Edge(g, p[i], p[j])
  }

  ghost predicate HasCycle(g: Graph) {
    exists p :: |p| >= 2 && Walk(g, p) && p[0] == p[|p| - 1]
  }

  // ---------- rounds ----------

  /** The nodes cleared in the first k rounds. */
  ghost function Done(g: Graph, k: nat): set<string>
    decreases k, 0
  {
    if k == 0 then {} else Done(g, k - 1) + Round(g, k - 1)
  }

  /** The nodes cleared in round k: not yet cleared, and depending on cleared nodes only. */
  ghost function Round(g: Graph, k: nat): set<string>
    decreases k, 1
  {
    set n | n in g && n !in Done(g, k) && g[n] <= Done(g, k)
  }

  lemma {:induction false} DoneInGraph(g: Graph, k: nat)
    ensures Done(g, k) <= g.Keys
  {
    if k > 0 { DoneInGraph(g, k - 1); }
  }

  lemma {:induction false} DoneMonotone(g: Graph, j: nat, k: nat)
    requires j <= k
    ensures Done(g, j) <= Done(g, k)
    decreases k
  {
    if j < k { DoneMonotone(g, j, k - 1); }
  }

  lemma {:induction false} DoneDependencies(g: Graph, n: string, k: nat)
    requires n in Done(g, k)
    ensures k > 0 && n in g && g[n] <= Done(g, k - 1)
  {
    if n !in Round(g, k - 1) {
      DoneDependencies(g, n, k - 1);
      DoneMonotone(g, k - 2, k - 1);
    }
  }

  ghost predicate InEarlierRound(g: Graph, n: string, k: nat) {
    exists j: nat :: j < k && n in Round(g, j)
  }

  /** A node's round is one more than the greatest round of its dependencies. */
  lemma RoundIsLevel(g: Graph, n: string, k: nat)
    requires n in Round(g, k)
    ensures forall d :: d in g[n] ==> InEarlierRound(g, d, k)
    ensures if k == 0 then g[n] == {} else exists d :: d in g[n] && d in Round(g, k - 1)
  {
    forall d | d in g[n] ensures InEarlierRound(g, d, k) {
      var j := DoneInSomeRound(g, d, k);
    }
    if k > 0 {
      assert n !in Done(g, k - 1) && n !in Round(g, k - 1);
      var d :| d in g[n] && d !in Done(g, k - 1);
    }
  }

  lemma {:induction false} DoneInSomeRound(g: Graph, n: string, k: nat) returns (j: nat)
    requires n in Done(g, k)
    ensures j < k && n in Round(g, j)
  {
    if n in Round(g, k - 1) {
      j := k - 1;
    } else {
      j := DoneInSomeRound(g, n, k - 1);
    }
  }

  lemma RoundsDisjoint(g: Graph, i: nat, j: nat)
    requires i < j
    ensures Round(g, i) !! Round(g, j)
  {
    DoneMonotone(g, i + 1, j);
  }

  // ---------- clearing and cycles ----------

  /** No node on a cycle is ever cleared. */
  lemma {:induction false} CycleNeverDone(g: Graph, p: seq<string>, k: nat)
    requires |p| >= 2 && Walk(g, p) && p[0] == p[|p| - 1]
    ensures p[0] !in Done(g, k)
  {
    if p[0] in Done(g, k) {
      WalkBackwards(g, p, k, |p| - 1);
      CycleNeverDone(g, p, k - (|p| - 1));
    }
  }

  lemma {:induction false} WalkBackwards(g: Graph, p: seq<string>, k: nat, i: nat)
    requires Walk(g, p) && i < |p| && p[0] in Done(g, k)
    ensures i <= k && p[i] in Done(g, k - i)
  {
    if i > 0 {
      WalkBackwards(g, p, k, i - 1);
      DoneDependencies(g, p[i - 1], k - (i - 1));
    }
  }

  lemma AllDoneNoCycle(g: Graph, k: nat)
    requires Done(g, k) == g.Keys
    ensures !HasCycle(g)
  {
    if HasCycle(g) {
      var p :| |p| >= 2 && Walk(g, p) && p[0] == p[|p| - 1];
      assert Edge(g, p[0], p[1]);
      CycleNeverDone(g, p, k);
    }
  }

  ghost predicate DependsOn(g: Graph, n: string, s: set<string>) {
    n in g && exists d :: d in g[n] && d in s
  }

  lemma Outside(a: set<string>, b: set<string>) returns (x: string)
    requires b <= a && a != b
    ensures x in a && x !in b
  {
    assert !(a <= b);
    x :| x in a && x !in b;
  }

  /** If a round clears nothing before everything is cleared, there is a cycle. */
  lemma StuckHasCycle(g: Graph, k: nat)
    requires Closed(g) && Round(g, k) == {} && Done(g, k) != g.Keys
    ensures HasCycle(g)
  {
    DoneInGraph(g, k);
    var start := Outside(g.Keys, Done(g, k));
    var left := g.Keys - Done(g, k);
    forall n | n in left ensures DependsOn(g, n, left) {
      assert n !in Round(g, k);
      var d :| d in g[n] && d !in Done(g, k);
    }
    var p := LongWalk(g, left, start, |left| + 1);
    var i, j := Pigeonhole(p, left);
    CycleInWalk(g, p, i, j);
  }

  lemma CycleInWalk(g: Graph, p: seq<string>, i: nat, j: nat)
    requires Walk(g, p) && i < j < |p| && p[i] == p[j]
    ensures HasCycle(g)
  {
    var c := p[i..j + 1];
    forall m, n | 0 <= m && n == m + 1 && n < |c| ensures Edge(g, c[m], c[n]) {
      assert c[m] == p[i + m] && c[n] == p[i + n];
    }
    assert c[0] == c[|c| - 1] && Walk(g, c);
  }

  lemma {:induction false} LongWalk(g: Graph, s: set<string>, n: string, len: nat) returns (p: seq<string>)
    requires s <= g.Keys && n in s && len > 0
    requires forall x {:trigger DependsOn(g, x, s)} :: x in s ==> DependsOn(g, x, s)
    ensures |p| == len && p[0] == n && Walk(g, p) && forall i :: 0 <= i < |p| ==> p[i] in s
    decreases len
  {
    if len == 1 {
      p := [n];
    } else {
      assert DependsOn(g, n, s);
      var d :| d in g[n] && d in s;
      var q := LongWalk(g, s, d, len - 1);
      p := [n] + q;
    }
  }

  /** More positions than values: two positions hold the same value. */
  lemma {:induction false} Pigeonhole(p: seq<string>, s: set<string>) returns (i: nat, j: nat)
    requires |p| > |s| && forall k :: 0 <= k < |p| ==> p[k] in s
    ensures i < j < |p| && p[i] == p[j]
  {
    var last := p[|p| - 1];
    if k :| 0 <= k < |p| - 1 && p[k] == last {
      i, j := k, |p| - 1;
    } else {
      i, j := Pigeonhole(p[..|p| - 1], s - {last});
    }
  }
}
