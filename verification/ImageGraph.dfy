/** The image store as a forest: every image names its parent, "" for none. */
module ImageGraph {
  import opened Text

  type Id = string

  /** Images by id, each with the id of its parent. */
  type Graph = map<Id, Id>

  /** The n-th ancestor of x, walking as WalkHistory does. */
  function Up(g: Graph, x: Id, n: nat): Option<Id>
    decreases n
  {
    if x !in g then None
    else if n == 0 then Some(x)
    else Up(g, g[x], n - 1)
  }

  /** x is id or a descendant of it. */
  ghost predicate Under(g: Graph, id: Id, x: Id) {
    exists n: nat :: Up(g, x, n) == Some(id)
  }

  ghost predicate Acyclic(g: Graph) {
    forall x: Id, n: nat :: n > 0 ==> Up(g, x, n) != Some(x)
  }

  /** The empty id stands for "no parent", and a parent that is named exists. */
  ghost predicate NoDangling(g: Graph) {
    "" !in g && forall x :: x in g ==> g[x] == "" || g[x] in g
  }

  // ---------- ancestry ----------

  lemma {:induction false} UpAdd(g: Graph, x: Id, n: nat, y: Id, m: nat)
    requires Up(g, x, n) == Some(y)
    ensures Up(g, x, n + m) == Up(g, y, m)
    decreases n
  {
    if n > 0 { UpAdd(g, g[x], n - 1, y, m); }
  }

  lemma {:induction false} UpExists(g: Graph, x: Id, n: nat)
    ensures Up(g, x, n).Some? ==> x in g && Up(g, x, n).value in g
    decreases n
  {
    if x in g && n > 0 { UpExists(g, g[x], n - 1); }
  }

  lemma UnderExists(g: Graph, id: Id, x: Id)
    requires Under(g, id, x)
    ensures id in g && x in g
  {
    var n: nat :| Up(g, x, n) == Some(id);
    UpExists(g, x, n);
  }

  lemma UnderSelf(g: Graph, x: Id)
    requires x in g
    ensures Under(g, x, x)
  {
    assert Up(g, x, 0) == Some(x);
  }

  lemma UnderTrans(g: Graph, a: Id, b: Id, c: Id)
    requires Under(g, a, b) && Under(g, b, c)
    ensures Under(g, a, c)
  {
    var n: nat :| Up(g, b, n) == Some(a);
    var m: nat :| Up(g, c, m) == Some(b);
    UpAdd(g, c, m, b, n);
  }

  /** From below: the first step up. */
  lemma UnderParent(g: Graph, id: Id, x: Id)
    requires x in g
    ensures Under(g, id, x) <==> x == id || Under(g, id, g[x])
  {
    if Under(g, id, x) {
      var n: nat :| Up(g, x, n) == Some(id);
      if n > 0 { assert Up(g, g[x], n - 1) == Some(id); }
    }
    if x == id { UnderSelf(g, x); }
    if Under(g, id, g[x]) {
      var n: nat :| Up(g, g[x], n) == Some(id);
      assert Up(g, x, n + 1) == Some(id);
    }
  }

  /** Two ancestors of one image are comparable. */
  lemma UnderChain(g: Graph, a: Id, b: Id, x: Id)
    requires Under(g, a, x) && Under(g, b, x)
    ensures Under(g, a, b) || Under(g, b, a)
  {
    var n: nat :| Up(g, x, n) == Some(a);
    var m: nat :| Up(g, x, m) == Some(b);
    if n <= m { UpAdd(g, x, n, a, m - n); } else { UpAdd(g, x, m, b, n - m); }
  }

  lemma UnderAntisymmetric(g: Graph, a: Id, b: Id)
    requires Acyclic(g) && Under(g, a, b) && Under(g, b, a)
    ensures a == b
  {
    var n: nat :| Up(g, b, n) == Some(a);
    var m: nat :| Up(g, a, m) == Some(b);
    UpAdd(g, b, n, a, m);
  }

  /** From above: a proper descendant is under one of the children. */
  lemma {:induction false} UnderChild(g: Graph, id: Id, x: Id, n: nat) returns (c: Id)
    requires Up(g, x, n) == Some(id) && n > 0
    ensures c in g && g[c] == id && Under(g, c, x)
    decreases n
  {
    if n == 1 {
      c := x;
      UnderSelf(g, x);
    } else {
      c := UnderChild(g, id, g[x], n - 1);
      UnderParent(g, c, x);
    }
  }

  ghost function Subtree(g: Graph, id: Id): set<Id> {
    set x | x in g && Under(g, id, x)
  }

  lemma ChildrenApart(g: Graph, id: Id, c: Id, d: Id, x: Id)
    requires Acyclic(g) && id in g && c in g && d in g && g[c] == id && g[d] == id
    requires Under(g, c, x) && Under(g, d, x)
    ensures c == d
  {
    UnderChain(g, c, d, x);
    UnderParent(g, c, d);
    UnderParent(g, d, c);
    UnderSelf(g, c);
    UnderSelf(g, d);
    UnderParent(g, id, c);
    UnderParent(g, id, d);
    UnderSelf(g, id);
    if Under(g, c, id) { UnderAntisymmetric(g, c, id); UnderParent(g, id, c); SelfParent(g, id); }
    if Under(g, d, id) { UnderAntisymmetric(g, d, id); SelfParent(g, id); }
  }

  lemma SelfParent(g: Graph, id: Id)
    requires Acyclic(g) && id in g
    ensures g[id] != id
  {
    assert Up(g, id, 1) == Up(g, g[id], 0) != Some(id);
  }

  // ---------- removing images ----------

  /** With an image, all its children are removed. */
  ghost predicate DownClosed(g: Graph, gone: set<Id>) {
    forall x :: x in g && g[x] in gone && g[x] in g ==> x in gone
  }

  lemma {:induction false} UpAfter(g: Graph, gone: set<Id>, x: Id, n: nat)
    requires DownClosed(g, gone) && x !in gone
    ensures Up(g - gone, x, n) == Up(g, x, n)
    decreases n
  {
    if x in g && n > 0 {
      if g[x] in g {
        UpAfter(g, gone, g[x], n - 1);
      }
    }
  }

  /** The ancestry of what remains is as it was. */
  lemma UnderAfter(g: Graph, gone: set<Id>, id: Id, x: Id)
    requires DownClosed(g, gone) && x !in gone
    ensures Under(g - gone, id, x) <==> Under(g, id, x)
  {
    if Under(g, id, x) {
      var n: nat :| Up(g, x, n) == Some(id);
      UpAfter(g, gone, x, n);
    }
    if Under(g - gone, id, x) {
      var n: nat :| Up(g - gone, x, n) == Some(id);
      UpAfter(g, gone, x, n);
    }
  }

  lemma AcyclicAfter(g: Graph, gone: set<Id>)
    requires Acyclic(g) && DownClosed(g, gone)
    ensures Acyclic(g - gone)
  {
    forall x: Id, n: nat | n > 0 ensures Up(g - gone, x, n) != Some(x) {
      if x in gone { assert x !in g - gone; } else { UpAfter(g, gone, x, n); }
    }
  }

  lemma NoDanglingAfter(g: Graph, gone: set<Id>)
    requires NoDangling(g) && DownClosed(g, gone)
    ensures NoDangling(g - gone)
  {
  }

  /** Registering an image keeps the store a forest exactly if its parent is there. */
  lemma RegisterKeepsForest(g: Graph, id: Id, parent: Id)
    requires Acyclic(g) && NoDangling(g) && id !in g && id != ""
    ensures Acyclic(g[id := parent]) && NoDangling(g[id := parent]) <==> parent == "" || parent in g
  {
    var h := g[id := parent];
    if parent == "" || parent in g {
      forall x: Id, n: nat | n > 0 ensures Up(h, x, n) != Some(x) {
        if x == id {
          if n > 1 {
            UpBelow(g, id, parent, parent, n - 1);
            UpExists(g, parent, n - 1);
          } else {
            assert Up(h, parent, 0) == None || parent in g;
          }
        } else {
          UpBelow(g, id, parent, x, n);
        }
      }
    } else if parent == id {
      var one: nat := 1;
      assert Up(h, id, one) == Up(h, parent, 0) == Some(id);
    } else {
      assert id in h && h[id] == parent;
    }
  }

  lemma {:induction false} UpBelow(g: Graph, id: Id, parent: Id, x: Id, n: nat)
    requires NoDangling(g) && id !in g && id != "" && x != id
    ensures Up(g[id := parent], x, n) == Up(g, x, n)
    decreases n
  {
    if x in g && n > 0 { UpBelow(g, id, parent, g[x], n - 1); }
  }

  // ---------- what pruning removes ----------

  ghost predicate TagFree(g: Graph, tagged: set<Id>, id: Id) {
    forall t :: t in tagged ==> !Under(g, id, t)
  }

  /** No tagged image lies on the path from id down to x, or under x. */
  ghost predicate Doomed(g: Graph, tagged: set<Id>, id: Id, x: Id) {
    Under(g, id, x) && forall t :: t in tagged && Under(g, id, t) ==> !Under(g, t, x) && !Under(g, x, t)
  }

  ghost function DoomedSet(g: Graph, tagged: set<Id>, id: Id): set<Id> {
    set x | x in g && Doomed(g, tagged, id, x)
  }

  lemma DoomedDownClosed(g: Graph, tagged: set<Id>, id: Id)
    ensures DownClosed(g, DoomedSet(g, tagged, id))
  {
    forall c | c in g && g[c] in DoomedSet(g, tagged, id) && g[c] in g ensures c in DoomedSet(g, tagged, id) {
      var x := g[c];
      UnderParent(g, id, c);
      UnderParent(g, x, c);
      UnderSelf(g, x);
      forall t | t in tagged && Under(g, id, t) ensures !Under(g, t, c) && !Under(g, c, t) {
        UnderParent(g, t, c);
        if Under(g, c, t) { UnderTrans(g, x, c, t); }
      }
    }
  }

  /** A tagged image protects its whole subtree from a deletion that starts at it. */
  lemma DoomedTagged(g: Graph, tagged: set<Id>, id: Id)
    requires id in g && id in tagged
    ensures DoomedSet(g, tagged, id) == {} && !TagFree(g, tagged, id)
  {
    UnderSelf(g, id);
  }

  lemma DoomedTagFree(g: Graph, tagged: set<Id>, id: Id)
    requires TagFree(g, tagged, id)
    ensures DoomedSet(g, tagged, id) == Subtree(g, id)
  {
  }

  /** Below an untagged image, what is doomed from a child is doomed from the image too. */
  lemma DoomedFromChild(g: Graph, tagged: set<Id>, id: Id, c: Id, x: Id)
    requires Acyclic(g) && id in g && id !in tagged && c in g && g[c] == id && Under(g, c, x)
    ensures Doomed(g, tagged, c, x) <==> Doomed(g, tagged, id, x)
  {
    UnderSelf(g, id);
    UnderParent(g, id, c);
    UnderTrans(g, id, c, x);
    forall t | t in tagged
      ensures Under(g, c, t) ==> Under(g, id, t)
      ensures Under(g, id, t) && (Under(g, t, x) || Under(g, x, t)) ==> Under(g, c, t)
    {
      if Under(g, c, t) { UnderTrans(g, id, c, t); }
      if Under(g, x, t) { UnderTrans(g, c, x, t); }
      if Under(g, id, t) && Under(g, t, x) {
        UnderChain(g, c, t, x);
        if Under(g, t, c) {
          UnderParent(g, t, c);
          if t == c { UnderSelf(g, c); } else { UnderAntisymmetric(g, t, id); }
        }
      }
    }
  }

  lemma DoomedRoot(g: Graph, tagged: set<Id>, id: Id)
    requires id in g
    ensures Doomed(g, tagged, id, id) <==> TagFree(g, tagged, id)
  {
    UnderSelf(g, id);
  }

  /** A removal that leaves the subtree of id alone does not change what is doomed there. */
  lemma DoomedAfter(g: Graph, tagged: set<Id>, gone: set<Id>, id: Id)
    requires DownClosed(g, gone) && gone !! Subtree(g, id) && id in g
    ensures DoomedSet(g - gone, tagged, id) == DoomedSet(g, tagged, id)
    ensures TagFree(g - gone, tagged, id) <==> TagFree(g, tagged, id)
    ensures Subtree(g - gone, id) == Subtree(g, id)
  {
    forall x ensures Under(g - gone, id, x) <==> Under(g, id, x) { SubtreeAfter(g, gone, id, x); }
    forall x, y | y !in gone ensures Under(g - gone, x, y) <==> Under(g, x, y) { UnderAfter(g, gone, x, y); }
    forall x | Under(g, id, x) ensures Doomed(g - gone, tagged, id, x) <==> Doomed(g, tagged, id, x) {
      UnderExists(g, id, x);
      forall t | t in tagged && Under(g, id, t) ensures t !in gone { UnderExists(g, id, t); }
    }
  }

  lemma SubtreeAfter(g: Graph, gone: set<Id>, id: Id, x: Id)
    requires DownClosed(g, gone) && gone !! Subtree(g, id)
    ensures Under(g - gone, id, x) <==> Under(g, id, x)
  {
    if x in gone {
      if Under(g - gone, id, x) { UnderExists(g - gone, id, x); }
      if Under(g, id, x) { UnderExists(g, id, x); }
    } else {
      UnderAfter(g, gone, id, x);
    }
  }
}
