/** The order in which the images of a repository are pushed: every tagged image and every
    ancestor, in rounds, parents before their children. */
module PushOrder {
  import opened Text
  import opened ImageGraph
  import opened DependencyOrder
  import Digraph

  datatype ImgData = ImgData(id: Id, tag: string)

  ghost function Ancestors(g: Graph, x: Id): set<Id> {
    set a | a in g && Under(g, a, x)
  }

  /** The images a repository needs: the tagged ones and their ancestors. */
  ghost predicate Needed(g: Graph, repo: map<string, Id>, a: Id) {
    exists tag :: tag in repo && Under(g, a, repo[tag])
  }

  function Deps(g: Graph, x: Id): set<Id> {
    if x in g && g[x] in g then {g[x]} else {}
  }

  lemma AncestorsOfParent(g: Graph, x: Id)
    requires Acyclic(g) && x in g
    ensures x in Ancestors(g, x)
    ensures g[x] !in g ==> forall a :: a in Ancestors(g, x) <==> a == x
    ensures g[x] in g ==> x !in Ancestors(g, g[x])
    ensures g[x] in g ==> forall a :: a in Ancestors(g, x) <==> a == x || a in Ancestors(g, g[x])
    ensures g[x] in g ==> |Ancestors(g, g[x])| < |Ancestors(g, x)|
  {
    UnderSelf(g, x);
    forall a ensures Under(g, a, x) <==> a == x || Under(g, a, g[x]) { UnderParent(g, a, x); }
    if g[x] in g {
      if Under(g, x, g[x]) {
        UnderSelf(g, g[x]);
        UnderAntisymmetric(g, x, g[x]);
        SelfParent(g, x);
      }
      Shrinks(Ancestors(g, g[x]), Ancestors(g, x), x);
    } else {
      forall a | Under(g, a, g[x]) ensures false { UnderExists(g, a, g[x]); }
    }
  }

  /** The dependency graph mirrors the parent links, except possibly at the images in open. */
  ghost predicate Mirrors(g: Graph, nodes: Digraph.Graph, open: set<Id>) {
    && nodes.Keys <= g.Keys
    && (forall x :: x in nodes ==> nodes[x] <= Deps(g, x) * nodes.Keys)
    && (forall x :: x in nodes && x !in open ==> nodes[x] == Deps(g, x))
  }

  lemma {:induction false} WalkIsAncestry(g: Graph, nodes: Digraph.Graph, p: seq<Id>, i: nat)
    requires Mirrors(g, nodes, {}) && Digraph.Walk(nodes, p) && |p| >= 2 && i < |p|
    ensures Up(g, p[0], i) == Some(p[i])
  {
    if i == 0 {
      assert Digraph.Edge(nodes, p[0], p[1]);
    } else {
      WalkIsAncestry(g, nodes, p, i - 1);
      assert Digraph.Edge(nodes, p[i - 1], p[i]);
      UpAdd(g, p[0], i - 1, p[i - 1], 1);
      assert Up(g, p[i - 1], 1) == Up(g, p[i], 0);
    }
  }

  lemma MirrorIsAcyclic(g: Graph, nodes: Digraph.Graph)
    requires Acyclic(g) && Mirrors(g, nodes, {})
    ensures Digraph.Closed(nodes) && !Digraph.HasCycle(nodes)
  {
    if Digraph.HasCycle(nodes) {
      var p :| |p| >= 2 && Digraph.Walk(nodes, p) && p[0] == p[|p| - 1];
      WalkIsAncestry(g, nodes, p, |p| - 1);
    }
  }

  lemma MirrorNode(g: Graph, nodes: Digraph.Graph, x: Id)
    requires Mirrors(g, nodes, {}) && x in g
    ensures Mirrors(g, if x in nodes then nodes else nodes[x := {}], {x})
  {
  }

  lemma MirrorLink(g: Graph, nodes: Digraph.Graph, x: Id)
    requires Mirrors(g, nodes, {x}) && x in nodes && g[x] in g && g[x] != x
    ensures var more := if g[x] in nodes then nodes else nodes[g[x] := {}];
      Mirrors(g, more[x := more[x] + {g[x]}], {g[x]})
  {
  }

  /** The handler's second half: look the parent up, and depend on it. */
  method LinkParent(g: Graph, current: Id, dep: DependencyGraph) returns (more: bool)
    requires Acyclic(g) && Mirrors(g, dep.nodes, {current}) && current in dep.nodes
    modifies dep
    ensures more <==> g[current] in g
    ensures !more ==> dep.nodes == old(dep.nodes) && Mirrors(g, dep.nodes, {})
    ensures more ==> dep.nodes.Keys == old(dep.nodes.Keys) + {g[current]} && Mirrors(g, dep.nodes, {g[current]})
  {
    hide Under, Acyclic, Up;
    var parent := g[current];
    if parent !in g {
      return false;
    }
    SelfParent(g, current);
    MirrorLink(g, dep.nodes, current);
    hide Mirrors;
    dep.NewNode(parent);
    var _ := dep.AddDependency(current, parent);
    return true;
  }

  lemma Shrinks(a: set<Id>, b: set<Id>, x: Id)
    requires b == a + {x} && x !in a
    ensures |a| < |b|
  {
  }

  /** Image.WalkHistory with getImageList's handler: add each ancestor and its parent link. */
  method WalkHistory(g: Graph, start: Id, tag: string, dep: DependencyGraph, imgs: map<Id, ImgData>)
    returns (out: map<Id, ImgData>)
    requires Acyclic(g) && start in g && Mirrors(g, dep.nodes, {}) && imgs.Keys == dep.nodes.Keys
    modifies dep
    ensures Mirrors(g, dep.nodes, {})
    ensures forall x :: x in dep.nodes <==> x in old(dep.nodes) || x in Ancestors(g, start)
    ensures forall x :: x in out <==> x in dep.nodes
    ensures forall x :: x in out ==> out[x] == if x in Ancestors(g, start) then ImgData(x, tag) else imgs[x]
  {
    hide *;
    MirrorNode(g, dep.nodes, start);
    dep.NewNode(start);
    out := imgs;
    var current := start;
    ghost var visited: set<Id> := {};
    while true
      invariant current in g && current in dep.nodes && current !in visited
      invariant forall a :: a in Ancestors(g, start) <==> a in visited || a in Ancestors(g, current)
      invariant forall a :: a in visited ==> a !in Ancestors(g, current)
      invariant Mirrors(g, dep.nodes, {current})
      invariant forall x :: x in dep.nodes <==> x in old(dep.nodes) || x in visited || x == current
      invariant forall x :: x in out <==> x in imgs || x in visited
      invariant forall x :: x in out ==> out[x] == if x in visited then ImgData(x, tag) else imgs[x]
      decreases |Ancestors(g, current)|
    {
      AncestorsOfParent(g, current);
      out := out[current := ImgData(current, tag)];
      var more := LinkParent(g, current, dep);
      if !more {
        return;
      }
      visited := visited + {current};
      AncestorsOfParent(g, g[current]);
      current := g[current];
    }
  }

  function Ids(round: seq<ImgData>): seq<Id> {
    seq(|round|, i requires 0 <= i < |round| => round[i].id)
  }

  /** Every needed image once, each in a later round than its parent. */
  ghost predicate PushList(g: Graph, repo: map<string, Id>, rounds: seq<seq<ImgData>>) {
    && (forall k, i, j :: 0 <= k < |rounds| && 0 <= i < j < |rounds[k]| ==> rounds[k][i].id != rounds[k][j].id)
    && (forall k, x :: 0 <= k < |rounds| && x in rounds[k] ==>
          x.tag in repo && Under(g, x.id, repo[x.tag]))
    && (forall x :: Needed(g, repo, x) ==> InOneRound(g, rounds, x))
  }

  ghost predicate InRound(rounds: seq<seq<ImgData>>, k: nat, x: Id) {
    k < |rounds| && x in Ids(rounds[k])
  }

  ghost predicate InOneRound(g: Graph, rounds: seq<seq<ImgData>>, x: Id) {
    exists k: nat :: InRound(rounds, k, x)
      && (forall j: nat :: InRound(rounds, j, x) ==> j == k)
      && (x in g && g[x] in g ==> exists j: nat :: j < k && InRound(rounds, j, g[x]))
  }

  /** Every image of the repository with its parents, for the graph that orders them. */
  method CollectImages(g: Graph, repo: map<string, Id>, dep: DependencyGraph) returns (ok: bool, imgs: map<Id, ImgData>)
    requires Acyclic(g) && dep.nodes == map[]
    modifies dep
    ensures ok <==> forall tag :: tag in repo ==> repo[tag] in g
    ensures ok ==> Mirrors(g, dep.nodes, {}) && imgs.Keys == dep.nodes.Keys
    ensures ok ==> forall x :: x in imgs ==> imgs[x].id == x && imgs[x].tag in repo && Under(g, x, repo[imgs[x].tag])
    ensures ok ==> forall tag, a :: tag in repo && Under(g, a, repo[tag]) ==> a in imgs
  {
    imgs := map[];
    var todo := repo.Keys;
    while todo != {}
      invariant todo <= repo.Keys
      invariant forall tag :: tag in repo && tag !in todo ==> repo[tag] in g
      invariant Mirrors(g, dep.nodes, {}) && imgs.Keys == dep.nodes.Keys
      invariant forall x :: x in imgs ==> imgs[x].id == x && imgs[x].tag in repo && Under(g, x, repo[imgs[x].tag])
      invariant forall tag, a :: tag in repo && tag !in todo && Under(g, a, repo[tag]) ==> a in imgs
      decreases todo
    {
      var tag :| tag in todo;
      if repo[tag] !in g {
        return false, imgs;
      }
      imgs := WalkHistory(g, repo[tag], tag, dep, imgs);
      forall a | Under(g, a, repo[tag]) ensures a in imgs { UnderExists(g, a, repo[tag]); }
      todo := todo - {tag};
    }
    return true, imgs;
  }

  /** Server.getImageList: fails exactly if a tag refers to a missing image. */
  method GetImageList(g: Graph, repo: map<string, Id>) returns (r: Option<seq<seq<ImgData>>>)
    requires Acyclic(g)
    ensures r.Some? <==> forall tag :: tag in repo ==> repo[tag] in g
    ensures r.Some? ==> PushList(g, repo, r.value)
  {
    var dep := new DependencyGraph();
    var ok, imgs := CollectImages(g, repo, dep);
    if !ok {
      return None;
    }
    MirrorIsAcyclic(g, dep.nodes);
    var rounds := dep.GenerateTraversalMap();
    var result: seq<seq<ImgData>> := [];
    TraversalIds(dep.nodes, rounds.value);
    hide Mirrors, Under, PushList, Acyclic;
    for k := 0 to |rounds.value|
      invariant |result| == k
      invariant forall j :: 0 <= j < k ==> result[j] == Look(imgs, rounds.value[j])
    {
      result := result + [Look(imgs, rounds.value[k])];
    }
    RoundsArePushList(g, repo, dep.nodes, imgs, rounds.value, result);
    return Some(result);
  }

  function Look(imgs: map<Id, ImgData>, round: seq<Id>): seq<ImgData>
    requires forall x :: x in round ==> x in imgs
  {
    seq(|round|, i requires 0 <= i < |round| => imgs[round[i]])
  }

  lemma TraversalIds(nodes: Digraph.Graph, rounds: seq<seq<Id>>)
    requires IsTraversal(nodes, rounds)
    ensures forall k, x :: 0 <= k < |rounds| && x in rounds[k] ==> x in nodes
  {
  }

  lemma RoundsArePushList(g: Graph, repo: map<string, Id>, nodes: Digraph.Graph, imgs: map<Id, ImgData>,
                          rounds: seq<seq<Id>>, result: seq<seq<ImgData>>)
    requires Mirrors(g, nodes, {}) && IsTraversal(nodes, rounds) && imgs.Keys == nodes.Keys
    requires forall x :: x in imgs ==> imgs[x].id == x && imgs[x].tag in repo && Under(g, x, repo[imgs[x].tag])
    requires forall tag, a :: tag in repo && Under(g, a, repo[tag]) ==> a in imgs
    requires |result| == |rounds|
    requires forall k, x :: 0 <= k < |rounds| && x in rounds[k] ==> x in nodes
    requires forall k :: 0 <= k < |rounds| ==> result[k] == Look(imgs, rounds[k])
    ensures PushList(g, repo, result)
  {
    forall k | 0 <= k < |rounds| ensures Ids(result[k]) == rounds[k] {
      forall i | 0 <= i < |rounds[k]| ensures Ids(result[k])[i] == rounds[k][i] { assert rounds[k][i] in rounds[k]; }
    }
    forall k, x | 0 <= k < |result| && x in result[k] ensures x.tag in repo && Under(g, x.id, repo[x.tag]) {
      var i :| 0 <= i < |result[k]| && result[k][i] == x;
      assert rounds[k][i] in rounds[k];
    }
    forall k, i, j | 0 <= k < |result| && 0 <= i < j < |result[k]| ensures result[k][i].id != result[k][j].id {
      assert Ids(result[k])[i] != Ids(result[k])[j];
    }
    forall x | Needed(g, repo, x) ensures InOneRound(g, result, x) {
      var tag :| tag in repo && Under(g, x, repo[tag]);
      PlacedOnce(g, nodes, rounds, result, x);
    }
  }

  lemma PlacedOnce(g: Graph, nodes: Digraph.Graph, rounds: seq<seq<Id>>, result: seq<seq<ImgData>>, x: Id)
    requires Mirrors(g, nodes, {}) && IsTraversal(nodes, rounds) && x in nodes
    requires |result| == |rounds| && forall k :: 0 <= k < |rounds| ==> Ids(result[k]) == rounds[k]
    ensures InOneRound(g, result, x)
  {
    var k := TraversalPartitions(nodes, rounds, x);
    assert InRound(result, k, x);
    forall j: nat | InRound(result, j, x) ensures j == k { }
    if g[x] in g {
      assert g[x] in nodes[x];
      var j := TraversalPartitions(nodes, rounds, g[x]);
      assert InRound(result, j, g[x]);
    }
  }
}
