/** The layered topological sort that fixes the order in which images are pushed, and the
    sort that fixes the order in which linked containers are started. */
module DependencyOrder {
  import opened Text
  import opened Digraph

  /** r lists exactly the elements of s, each once. */
  ghost predicate ListsOnce(r: seq<string>, s: set<string>) {
    (forall x :: x in r <==> x in s) && forall i, j :: 0 <= i < j < |r| ==> r[i] != r[j]
  }

  lemma ListsNone()
    ensures ListsOnce([], {})
  {
  }

  lemma ListsOneMore(r: seq<string>, s: set<string>, x: string)
    requires ListsOnce(r, s) && x !in s
    ensures ListsOnce(r + [x], s + {x})
  {
    assert forall y :: y in r + [x] <==> y in r || y == x;
  }

  lemma SubsetSize<T>(a: set<T>, b: set<T>)
    requires a <= b
    ensures |a| <= |b| && (|a| == |b| ==> a == b)
  {
    var rest := b - a;
    assert b == a + rest;
  }

  // ---------- DependencyGraph ----------

  class DependencyGraph {
    var nodes: Graph

    constructor ()
      ensures nodes == map[]
    {
      nodes := map[];
    }

    method NewNode(id: string)
      modifies this
      ensures nodes == if id in old(nodes) then old(nodes) else old(nodes)[id := {}]
      ensures Closed(old(nodes)) ==> Closed(nodes)
    {
      if id !in nodes {
        nodes := nodes[id := {}];
      }
    }

    /** Refuses unknown nodes and a node that would depend on itself. */
    method AddDependency(node: string, to: string) returns (ok: bool)
      modifies this
      ensures ok <==> node in old(nodes) && to in old(nodes) && node != to
      ensures nodes == if ok then old(nodes)[node := old(nodes)[node] + {to}] else old(nodes)
      ensures Closed(old(nodes)) ==> Closed(nodes)
    {
      if node !in nodes || to !in nodes || node == to {
        return false;
      }
      nodes := nodes[node := nodes[node] + {to}];
      return true;
    }

    /** Succeeds exactly on an acyclic graph; round k lists the nodes of level k. */
    method GenerateTraversalMap() returns (r: Option<seq<seq<string>>>)
      requires Closed(nodes)
      ensures r.Some? <==> !HasCycle(nodes)
      ensures r.Some? ==> IsTraversal(nodes, r.value)
    {
      hide Done, Round, HasCycle, Closed, ListsOnce;
      var result: seq<seq<string>> := [];
      NothingDone(nodes);
      var processed: set<string> := {};
      while |processed| < |nodes|
        invariant processed == Done(nodes, |result|) && processed <= nodes.Keys
        invariant forall k :: 0 <= k < |result| ==> ListsOnce(result[k], Round(nodes, k))
        decreases |nodes| - |processed|
      {
        ghost var k := |result|;
        var available := Available(processed, k);
        NextRound(nodes, processed, available, k);
        if available == [] {
          return None;
        }
        processed := processed + set n | n in available;
        result := result + [available];
      }
      SubsetSize(processed, nodes.Keys);
      AllDoneNoCycle(nodes, |result|);
      return Some(result);
    }

    /** One pass over the nodes, collecting those whose dependencies are all processed. */
    method Available(processed: set<string>, ghost k: nat) returns (tmp: seq<string>)
      requires processed == Done(nodes, k)
      ensures ListsOnce(tmp, Round(nodes, k))
    {
      ghost var target := Round(nodes, k);
      assert forall n :: n in target <==> n in nodes && n !in processed && nodes[n] <= processed;
      hide *;
      tmp := [];
      ListsNone();
      var todo := nodes.Keys;
      assert target - todo == {};
      while todo != {}
        invariant todo <= nodes.Keys
        invariant ListsOnce(tmp, target - todo)
        decreases todo
      {
        var n :| n in todo;
        var deps := nodes[n];
        if |deps| > |processed| {
          if deps <= processed { SubsetSize(deps, processed); }
          assert n !in target;
        } else if n !in processed {
          var ok := true;
          if |deps| != 0 {
            ok := AllIn(deps, processed);
          }
          if ok {
            ListsOneMore(tmp, target - todo, n);
            tmp := tmp + [n];
          }
          assert ok <==> n in target;
        }
        assert target - (todo - {n}) == (target - todo) + (if n in target then {n} else {});
        todo := todo - {n};
      }
      assert target - todo == target;
    }
  }

  lemma NothingDone(g: Graph)
    ensures Done(g, 0) == {}
  {
  }

  lemma SetOf(r: seq<string>, s: set<string>)
    requires ListsOnce(r, s)
    ensures (set n | n in r) == s
    ensures r == [] ==> s == {}
    ensures r != [] ==> r[0] in s
  {
    assert forall x :: x in s ==> x in r;
  }

  lemma DoneNext(g: Graph, k: nat)
    ensures Done(g, k + 1) == Done(g, k) + Round(g, k)
  {
  }

  lemma RoundIsNew(g: Graph, n: string, k: nat)
    requires n in Round(g, k)
    ensures n !in Done(g, k)
  {
  }

  /** A round that clears something makes progress; one that clears nothing means a cycle. */
  lemma NextRound(g: Graph, processed: set<string>, available: seq<string>, k: nat)
    requires Closed(g) && processed == Done(g, k) && |processed| < |g| && ListsOnce(available, Round(g, k))
    ensures available == [] ==> HasCycle(g)
    ensures processed + (set n | n in available) == Done(g, k + 1) <= g.Keys
    ensures available != [] ==> |processed| < |Done(g, k + 1)| <= |g|
  {
    hide *;
    SetOf(available, Round(g, k));
    DoneNext(g, k);
    DoneInGraph(g, k + 1);
    SubsetSize(Done(g, k + 1), g.Keys);
    if available == [] {
      StuckHasCycle(g, k);
    } else {
      RoundIsNew(g, available[0], k);
      SubsetSize(processed + {available[0]}, Done(g, k + 1));
    }
  }

  method AllIn(deps: set<string>, processed: set<string>) returns (ok: bool)
    ensures ok <==> deps <= processed
  {
    var rest := deps;
    while rest != {}
      invariant rest <= deps && deps - rest <= processed
      decreases rest
    {
      var d :| d in rest;
      if d !in processed {
        return false;
      }
      rest := rest - {d};
    }
    return true;
  }

  /** Every node is in exactly one round, one more than the greatest round of its
      dependencies, or the first if it has none. */
  ghost predicate IsTraversal(g: Graph, rounds: seq<seq<string>>) {
    && (forall k :: 0 <= k < |rounds| ==> ListsOnce(rounds[k], Round(g, k)))
    && Done(g, |rounds|) == g.Keys
  }

  lemma TraversalPartitions(g: Graph, rounds: seq<seq<string>>, n: string) returns (k: nat)
    requires IsTraversal(g, rounds) && n in g
    ensures k < |rounds| && n in rounds[k]
    ensures forall j :: 0 <= j < |rounds| && j != k ==> n !in rounds[j]
    ensures k == 0 <==> g[n] == {}
    ensures forall d, j :: d in g[n] && 0 <= j < |rounds| && d in rounds[j] ==> j < k
    ensures k > 0 ==> exists d :: d in g[n] && d in rounds[k - 1]
  {
    k := DoneInSomeRound(g, n, |rounds|);
    RoundIsLevel(g, n, k);
    forall i, j | 0 <= i < j < |rounds| ensures Round(g, i) !! Round(g, j) { RoundsDisjoint(g, i, j); }
    forall d, j | d in g[n] && 0 <= j < |rounds| && d in rounds[j] ensures j < k {
      assert InEarlierRound(g, d, k);
      var i: nat :| i < k && d in Round(g, i);
      assert d in Round(g, j);
    }
  }

  // ---------- linked containers ----------

  datatype Resolution = Resolved(order: seq<string>) | UnknownLink | Circular

  /** order lists every key once, each after everything it links to. */
  ghost predicate StartOrder(links: Graph, order: seq<string>) {
    && ListsOnce(order, links.Keys)
    && LinksFirst(links, order)
  }

  ghost predicate LinksFirst(links: Graph, order: seq<string>) {
    forall i, d :: 0 <= i < |order| && order[i] in links && d in links[order[i]] ==> d in order[..i]
  }

  lemma LinksFirstMore(links: Graph, order: seq<string>, x: string)
    requires LinksFirst(links, order) && x in links && forall d :: d in links[x] ==> d in order
    ensures LinksFirst(links, order + [x])
  {
    forall i, d | 0 <= i < |order| + 1 && (order + [x])[i] in links && d in links[(order + [x])[i]]
      ensures d in (order + [x])[..i]
    {
      assert (order + [x])[..i] == order[..i];
      if i == |order| { assert order[..i] == order; }
    }
  }

  /** _resolve: start in rounds whatever links to started containers only.  A link to an
      unknown container is reported in the first round, a circle when a round starts nothing. */
  method Resolve(links: Graph) returns (r: Resolution)
    ensures r == UnknownLink <==> !Closed(links)
    ensures r == Circular <==> Closed(links) && HasCycle(links)
    ensures r.Resolved? ==> StartOrder(links, r.order)
  {
    hide *;
    var result: seq<string> := [];
    var resolved: set<string> := {};
    ghost var k := 0;
    NothingDone(links);
    ListsNone();
    NoLinks(links);
    while resolved != links.Keys
      invariant resolved == Done(links, k) && resolved <= links.Keys
      invariant ListsOnce(result, resolved) && LinksFirst(links, result)
      invariant k > 0 ==> Closed(links)
      decreases |links| - |resolved|
    {
      var unknown, now := ResolveRound(links, resolved, k);
      if unknown {
        return UnknownLink;
      }
      NextRound(links, resolved, now, k) by { SubsetSize(resolved, links.Keys); }
      if now == [] {
        return Circular;
      }
      AppendRound(links, result, now, k);
      result := result + now;
      resolved := resolved + set n | n in now;
      k := k + 1;
    }
    AllDoneNoCycle(links, k);
    EmptyIsClosed(links, k);
    StartOrderDone(links, result);
    return Resolved(result);
  }

  lemma NoLinks(links: Graph)
    ensures LinksFirst(links, [])
  {
  }

  lemma EmptyIsClosed(links: Graph, k: nat)
    requires Done(links, k) == links.Keys && (k > 0 ==> Closed(links))
    ensures Closed(links)
  {
  }

  lemma StartOrderDone(links: Graph, order: seq<string>)
    requires ListsOnce(order, links.Keys) && LinksFirst(links, order)
    ensures StartOrder(links, order)
  {
  }

  lemma {:induction false} AppendSome(links: Graph, result: seq<string>, now: seq<string>, done: set<string>)
    requires ListsOnce(result, done) && LinksFirst(links, result)
    requires forall n :: n in now ==> n in links && links[n] <= done
    ensures LinksFirst(links, result + now)
  {
    if now == [] {
      assert result + now == result;
    } else {
      var init, x := now[..|now| - 1], now[|now| - 1];
      AppendSome(links, result, init, done);
      LinksFirstMore(links, result + init, x);
      assert result + now == result + init + [x];
    }
  }

  lemma AppendRound(links: Graph, result: seq<string>, now: seq<string>, k: nat)
    requires ListsOnce(result, Done(links, k)) && LinksFirst(links, result) && ListsOnce(now, Round(links, k))
    ensures LinksFirst(links, result + now)
    ensures ListsOnce(result + now, Done(links, k) + (set n | n in now))
  {
    forall n | n in now ensures n in links && links[n] <= Done(links, k) && n !in result { }
    AppendSome(links, result, now, Done(links, k));
    SetOf(now, Round(links, k));
    assert forall x :: x in result + now <==> x in result || x in now;
    forall i, j | 0 <= i < j < |result + now| ensures (result + now)[i] != (result + now)[j] {
      if i < |result| <= j { assert now[j - |result|] in now && result[i] in result; }
    }
  }

  /** One round over the containers not yet started, in any order. */
  method ResolveRound(links: Graph, resolved: set<string>, ghost k: nat) returns (unknown: bool, now: seq<string>)
    requires resolved == Done(links, k) && (k > 0 ==> Closed(links))
    ensures unknown <==> !Closed(links)
    ensures !unknown ==> ListsOnce(now, Round(links, k))
  {
    ghost var target := Round(links, k);
    assert forall n :: n in target <==> n in links && n !in resolved && links[n] <= resolved;
    assert k == 0 ==> resolved == {};
    now := [];
    var d := links.Keys - resolved;
    var rest := d;
    assert target - rest == {};
    while rest != {}
      invariant rest <= d
      invariant ListsOnce(now, target - rest)
      invariant forall n :: n in d - rest ==> links[n] <= links.Keys
      decreases rest
    {
      var name :| name in rest;
      if links[name] == {} || links[name] <= resolved {
        ListsOneMore(now, target - rest, name);
        now := now + [name];
      }
      assert target - (rest - {name}) == (target - rest) + (if name in target then {name} else {});
      if links[name] - links.Keys != {} {
        return true, [];
      }
      assert forall x :: x in links[name] ==> x in links || x in links[name] - links.Keys;
      rest := rest - {name};
    }
    assert target - rest == target;
    unknown := false;
  }
}
