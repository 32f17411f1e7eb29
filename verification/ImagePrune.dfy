/** Deleting an image: untag it, then prune it, its untagged descendants and, as far up as
    nothing tagged is met, its ancestors with their untagged descendants. */
module ImagePrune {
  import opened Text
  import opened ImageGraph

  /** Repositories: for each name, its tags and the image each refers to. */
  type Repos = map<string, map<string, Id>>

  function TagAt(repos: Repos, repo: string, tag: string): Option<Id> {
    if repo in repos && tag in repos[repo] then Some(repos[repo][tag]) else None
  }

  ghost function Tagged(repos: Repos): set<Id> {
    set r, t | r in repos && t in repos[r] :: repos[r][t]
  }

  /** Every tag resolves, every named parent exists, and no image is its own ancestor. */
  ghost predicate WellFormed(g: Graph, repos: Repos) {
    Acyclic(g) && NoDangling(g) && Tagged(repos) <= g.Keys
  }

  // ---------- children ----------

  ghost predicate Distinct(s: seq<Id>) {
    forall i, j :: 0 <= i < j < |s| ==> s[i] != s[j]
  }

  ghost predicate Child(g: Graph, p: Id, c: Id) {
    c in g && p in g && g[c] == p
  }

  /** cs lists the children of p, each once. */
  ghost predicate Enumerates(g: Graph, p: Id, cs: seq<Id>) {
    Distinct(cs) && forall c :: c in cs <==> Child(g, p, c)
  }

  ghost function DoomedUnder(g: Graph, tagged: set<Id>, cs: seq<Id>): set<Id> {
    if cs == [] then {} else DoomedUnder(g, tagged, cs[..|cs| - 1]) + DoomedSet(g, tagged, cs[|cs| - 1])
  }

  lemma {:induction false} InDoomedUnder(g: Graph, tagged: set<Id>, cs: seq<Id>, x: Id)
    ensures x in DoomedUnder(g, tagged, cs) <==> exists i :: 0 <= i < |cs| && x in DoomedSet(g, tagged, cs[i])
  {
    if cs != [] { InDoomedUnder(g, tagged, cs[..|cs| - 1], x); }
  }

  lemma {:induction false} DoomedUnderDownClosed(g: Graph, tagged: set<Id>, cs: seq<Id>)
    ensures DownClosed(g, DoomedUnder(g, tagged, cs))
  {
    if cs != [] {
      DoomedUnderDownClosed(g, tagged, cs[..|cs| - 1]);
      DoomedDownClosed(g, tagged, cs[|cs| - 1]);
    }
  }

  lemma TagFreeByChildren(g: Graph, tagged: set<Id>, id: Id, cs: seq<Id>)
    requires Acyclic(g) && id in g && Enumerates(g, id, cs)
    ensures TagFree(g, tagged, id) <==> id !in tagged && forall i :: 0 <= i < |cs| ==> TagFree(g, tagged, cs[i])
  {
    UnderSelf(g, id);
    forall t | t in tagged && Under(g, id, t) && t != id
      ensures exists i :: 0 <= i < |cs| && !TagFree(g, tagged, cs[i])
    {
      var n: nat :| Up(g, t, n) == Some(id);
      var c := UnderChild(g, id, t, n);
      assert c in cs && Under(g, c, t);
    }
    forall i, t | 0 <= i < |cs| && Under(g, cs[i], t) ensures Under(g, id, t) {
      assert cs[i] in cs;
      UnderParent(g, id, cs[i]);
      UnderTrans(g, id, cs[i], t);
    }
  }

  /** What is doomed from an untagged image: what is doomed from its children, and the image
      itself if nothing tagged is below it. */
  lemma DoomedByChildren(g: Graph, tagged: set<Id>, id: Id, cs: seq<Id>)
    requires Acyclic(g) && id in g && id !in tagged && Enumerates(g, id, cs)
    ensures DoomedSet(g, tagged, id) == DoomedUnder(g, tagged, cs) + (if TagFree(g, tagged, id) then {id} else {})
  {
    DoomedRoot(g, tagged, id);
    forall x | x != id ensures x in DoomedSet(g, tagged, id) <==> x in DoomedUnder(g, tagged, cs) {
      InDoomedUnder(g, tagged, cs, x);
      if x in DoomedSet(g, tagged, id) {
        var n: nat :| Up(g, x, n) == Some(id);
        var c := UnderChild(g, id, x, n);
        DoomedFromChild(g, tagged, id, c, x);
        assert c in cs;
      }
      forall i | 0 <= i < |cs| && x in DoomedSet(g, tagged, cs[i]) ensures x in DoomedSet(g, tagged, id) {
        assert cs[i] in cs;
        DoomedFromChild(g, tagged, id, cs[i], x);
      }
    }
    forall i | 0 <= i < |cs| ensures id !in DoomedSet(g, tagged, cs[i]) {
      assert cs[i] in cs;
      NotUnderChild(g, id, cs[i]);
    }
    InDoomedUnder(g, tagged, cs, id);
  }

  lemma NotUnderChild(g: Graph, id: Id, c: Id)
    requires Acyclic(g) && id in g && c in g && g[c] == id
    ensures !Under(g, c, id) && Under(g, id, c)
  {
    UnderSelf(g, id);
    UnderParent(g, id, c);
    if Under(g, c, id) {
      UnderAntisymmetric(g, c, id);
      SelfParent(g, id);
    }
  }

  lemma SubtreeShrinks(g: Graph, gone: set<Id>, id: Id, c: Id)
    requires Acyclic(g) && id in g && c in g && g[c] == id && DownClosed(g, gone) && gone !! Subtree(g, c)
    ensures |Subtree(g - gone, c)| < |Subtree(g, id)|
  {
    NotUnderChild(g, id, c);
    UnderSelf(g, id);
    forall x | x in Subtree(g - gone, c) ensures x in Subtree(g, id) - {id} {
      SubtreeAfter(g, gone, c, x);
      UnderExists(g, c, x);
      UnderTrans(g, id, c, x);
    }
    Smaller(Subtree(g - gone, c), Subtree(g, id), id);
  }

  lemma Smaller<T>(a: set<T>, b: set<T>, x: T)
    requires a <= b - {x} && x in b
    ensures |a| < |b|
  {
    var rest := b - {x} - a;
    assert b == a + rest + {x};
  }

  /** What the earlier siblings lost is no part of c's subtree. */
  lemma SiblingsApart(g: Graph, tagged: set<Id>, id: Id, cs: seq<Id>, k: nat)
    requires Acyclic(g) && id in g && Enumerates(g, id, cs) && k < |cs|
    ensures DoomedUnder(g, tagged, cs[..k]) !! Subtree(g, cs[k])
  {
    forall x | x in DoomedUnder(g, tagged, cs[..k]) && x in Subtree(g, cs[k]) ensures false {
      InDoomedUnder(g, tagged, cs[..k], x);
      var i :| 0 <= i < k && x in DoomedSet(g, tagged, cs[..k][i]);
      assert cs[i] in cs && cs[k] in cs;
      ChildrenApart(g, id, cs[i], cs[k], x);
    }
  }

  // ---------- the list of deleted images ----------

  /** r lists exactly the images in s, each once, and no image before one of its descendants. */
  ghost predicate Lists(g: Graph, r: seq<Id>, s: set<Id>) {
    && (forall x :: x in r <==> x in s)
    && (forall i, j :: 0 <= i < j < |r| ==> r[i] != r[j] && !Under(g, r[i], r[j]))
  }

  lemma ListsConcat(g: Graph, a: seq<Id>, s: set<Id>, b: seq<Id>, t: set<Id>)
    requires Lists(g, a, s) && Lists(g, b, t)
    requires forall x, y :: x in s && y in t ==> x != y && !Under(g, x, y)
    ensures Lists(g, a + b, s + t)
  {
    forall i, j | 0 <= i < j < |a + b| ensures (a + b)[i] != (a + b)[j] && !Under(g, (a + b)[i], (a + b)[j]) {
      if i < |a| <= j {
        assert a[i] in s && b[j - |a|] in t;
      }
    }
  }

  lemma ListsBefore(g: Graph, gone: set<Id>, r: seq<Id>, s: set<Id>)
    requires DownClosed(g, gone) && Lists(g - gone, r, s) && s !! gone
    ensures Lists(g, r, s)
  {
    forall i, j | 0 <= i < j < |r| ensures !Under(g, r[i], r[j]) {
      assert r[j] in s;
      UnderAfter(g, gone, r[i], r[j]);
    }
  }

  // ---------- how far up pruning goes ----------

  /** Pruning that starts at img reaches its ancestor a: nothing tagged is under any image on
      the way. */
  ghost predicate Reached(g: Graph, tagged: set<Id>, img: Id, a: Id) {
    Under(g, a, img) && forall b :: Under(g, b, img) && Under(g, a, b) && b != a ==> TagFree(g, tagged, b)
  }

  /** What deleting img removes: whatever is doomed from an ancestor that is reached. */
  ghost function PrunedSet(g: Graph, tagged: set<Id>, img: Id): set<Id> {
    set x | x in g && exists a :: Reached(g, tagged, img, a) && Doomed(g, tagged, a, x)
  }

  lemma PrunedDownClosed(g: Graph, tagged: set<Id>, img: Id)
    ensures DownClosed(g, PrunedSet(g, tagged, img))
    ensures PrunedSet(g, tagged, img) !! tagged
  {
    forall c | c in g && g[c] in PrunedSet(g, tagged, img) && g[c] in g ensures c in PrunedSet(g, tagged, img) {
      var a :| Reached(g, tagged, img, a) && Doomed(g, tagged, a, g[c]);
      DoomedDownClosed(g, tagged, a);
      assert c in DoomedSet(g, tagged, a);
    }
    forall x | x in PrunedSet(g, tagged, img) ensures x !in tagged {
      UnderSelf(g, x);
    }
  }

  lemma SubtreeDownClosed(g: Graph, id: Id)
    ensures DownClosed(g, Subtree(g, id))
  {
    forall x | x in g && g[x] in Subtree(g, id) && g[x] in g ensures x in Subtree(g, id) {
      UnderParent(g, id, x);
    }
  }

  /** If something tagged is under img, pruning stops there. */
  lemma PrunedStops(g: Graph, tagged: set<Id>, img: Id)
    requires Acyclic(g) && img in g && (!TagFree(g, tagged, img) || g[img] !in g)
    ensures PrunedSet(g, tagged, img) == DoomedSet(g, tagged, img)
  {
    UnderSelf(g, img);
    forall b | Under(g, b, img) && Under(g, img, b) ensures b == img { UnderAntisymmetric(g, b, img); }
    assert Reached(g, tagged, img, img);
    forall a | Reached(g, tagged, img, a) ensures a == img {
      UnderParent(g, a, img);
      if a != img && g[img] !in g { UnderExists(g, a, g[img]); }
    }
  }

  /** Otherwise it goes on from the parent, in what is left of the graph. */
  lemma PrunedGoesOn(g: Graph, tagged: set<Id>, img: Id)
    requires Acyclic(g) && img in g && TagFree(g, tagged, img) && g[img] in g
    ensures g[img] !in Subtree(g, img)
    ensures PrunedSet(g, tagged, img) == Subtree(g, img) + PrunedSet(g - Subtree(g, img), tagged, g[img])
  {
    var s, p := Subtree(g, img), g[img];
    var h := g - s;
    SubtreeDownClosed(g, img);
    NotUnderChild(g, p, img);
    UnderSelf(g, img);
    forall b | Under(g, b, img) && Under(g, img, b) ensures b == img { UnderAntisymmetric(g, b, img); }
    assert Reached(g, tagged, img, img);
    DoomedTagFree(g, tagged, img);
    assert forall x :: x in s ==> Doomed(g, tagged, img, x) by { assert DoomedSet(g, tagged, img) == s; }
    forall a | a != img ensures Reached(g, tagged, img, a) <==> Reached(h, tagged, p, a) {
      ReachedFromParent(g, tagged, img, a);
    }
    forall a, x | x in h && Under(g, a, p) ensures Doomed(g, tagged, a, x) <==> Doomed(h, tagged, a, x) {
      DoomedWithout(g, tagged, img, a, x);
    }
    forall x | x in h ensures x in PrunedSet(g, tagged, img) <==> x in PrunedSet(h, tagged, p) {
      if x in PrunedSet(g, tagged, img) {
        var a :| Reached(g, tagged, img, a) && Doomed(g, tagged, a, x);
        UnderParent(g, a, img);
        assert Reached(h, tagged, p, a) && Doomed(h, tagged, a, x);
      }
      if x in PrunedSet(h, tagged, p) {
        var a :| Reached(h, tagged, p, a) && Doomed(h, tagged, a, x);
        UnderAfter(g, s, a, p);
        assert a != img by { if a == img { UnderExists(h, a, p); } }
        assert Reached(g, tagged, img, a) && Doomed(g, tagged, a, x);
      }
    }
  }

  lemma ReachedFromParent(g: Graph, tagged: set<Id>, img: Id, a: Id)
    requires Acyclic(g) && img in g && TagFree(g, tagged, img) && g[img] in g && a != img
    ensures Reached(g, tagged, img, a) <==> Reached(g - Subtree(g, img), tagged, g[img], a)
  {
    var s, p := Subtree(g, img), g[img];
    var h := g - s;
    SubtreeDownClosed(g, img);
    NotUnderChild(g, p, img);
    UnderParent(g, a, img);
    UnderAfter(g, s, a, p);
    forall b | b != img ensures Under(g, b, img) <==> Under(h, b, p) {
      UnderParent(g, b, img);
      UnderAfter(g, s, b, p);
    }
    forall b | Under(h, b, p)
      ensures b != img && b !in s
      ensures Under(g, a, b) <==> Under(h, a, b)
      ensures TagFree(g, tagged, b) <==> TagFree(h, tagged, b)
    {
      UnderExists(h, b, p);
      UnderSelf(g, img);
      UnderAfter(g, s, a, b);
      TagFreeWithout(g, tagged, img, b);
    }
  }

  lemma TagFreeWithout(g: Graph, tagged: set<Id>, img: Id, b: Id)
    requires TagFree(g, tagged, img)
    ensures TagFree(g, tagged, b) <==> TagFree(g - Subtree(g, img), tagged, b)
  {
    SubtreeDownClosed(g, img);
    forall t | t in tagged ensures Under(g, b, t) <==> Under(g - Subtree(g, img), b, t) {
      UnderAfter(g, Subtree(g, img), b, t);
    }
  }

  lemma DoomedWithout(g: Graph, tagged: set<Id>, img: Id, a: Id, x: Id)
    requires TagFree(g, tagged, img) && x in g && x !in Subtree(g, img)
    ensures Doomed(g, tagged, a, x) <==> Doomed(g - Subtree(g, img), tagged, a, x)
  {
    var s := Subtree(g, img);
    SubtreeDownClosed(g, img);
    UnderAfter(g, s, a, x);
    forall t | t in tagged
      ensures Under(g, a, t) <==> Under(g - s, a, t)
      ensures Under(g, x, t) <==> Under(g - s, x, t)
      ensures Under(g, t, x) <==> Under(g - s, t, x)
    {
      UnderAfter(g, s, a, t);
      UnderAfter(g, s, x, t);
      UnderAfter(g, s, t, x);
    }
  }

  // ---------- how the climb ends ----------

  datatype DeleteError = Done | Referenced | NoSuchImage | NoSuchTag

  /** Something tagged is under the image or one of its ancestors. */
  ghost predicate TaggedAbove(g: Graph, tagged: set<Id>, img: Id) {
    exists a :: a in g && Under(g, a, img) && !TagFree(g, tagged, a)
  }

  /** The topmost ancestor names a parent that is not in the store. */
  ghost predicate BrokenAbove(g: Graph, img: Id) {
    exists a :: a in g && Under(g, a, img) && g[a] !in g && g[a] != ""
  }

  /** Deleting upwards ends with a reference, at a missing parent, or at the top. */
  ghost function ClimbError(g: Graph, tagged: set<Id>, img: Id): DeleteError {
    if TaggedAbove(g, tagged, img) then Referenced else if BrokenAbove(g, img) then NoSuchImage else Done
  }

  lemma ClimbStops(g: Graph, tagged: set<Id>, img: Id)
    requires img in g
    ensures !TagFree(g, tagged, img) ==> ClimbError(g, tagged, img) == Referenced
    ensures TagFree(g, tagged, img) && g[img] !in g ==>
      ClimbError(g, tagged, img) == if g[img] == "" then Done else NoSuchImage
  {
    UnderSelf(g, img);
    forall a ensures Under(g, a, img) <==> a == img || Under(g, a, g[img]) { UnderParent(g, a, img); }
    if g[img] !in g {
      forall a ensures !Under(g, a, g[img]) { if Under(g, a, g[img]) { UnderExists(g, a, g[img]); } }
    }
  }

  lemma ClimbGoesOn(g: Graph, tagged: set<Id>, img: Id)
    requires Acyclic(g) && img in g && TagFree(g, tagged, img) && g[img] in g
    ensures ClimbError(g, tagged, img) == ClimbError(g - Subtree(g, img), tagged, g[img])
  {
    var h, p := g - Subtree(g, img), g[img];
    SubtreeDownClosed(g, img);
    PrunedGoesOn(g, tagged, img);
    forall a ensures Under(g, a, img) <==> a == img || Under(g, a, p) { UnderParent(g, a, img); }
    forall a ensures Under(h, a, p) <==> Under(g, a, p) { UnderAfter(g, Subtree(g, img), a, p); }
    forall a ensures TagFree(g, tagged, a) <==> TagFree(h, tagged, a) { TagFreeWithout(g, tagged, img, a); }
    forall a | Under(h, a, p) ensures a in h { UnderExists(h, a, p); }
    assert forall a :: a in h ==> (g[a] in g <==> h[a] in h);
    UnderSelf(g, p);
  }

  lemma NothingBroken(g: Graph, tagged: set<Id>, img: Id)
    requires NoDangling(g)
    ensures ClimbError(g, tagged, img) != NoSuchImage
  {
  }

  /** What is left keeps its tags, its parents and its whole ancestry. */
  lemma PruningIsSafe(g: Graph, repos: Repos, img: Id)
    requires WellFormed(g, repos)
    ensures WellFormed(g - PrunedSet(g, Tagged(repos), img), repos)
    ensures forall x, n: nat :: x in g && x !in PrunedSet(g, Tagged(repos), img) ==>
      Up(g - PrunedSet(g, Tagged(repos), img), x, n) == Up(g, x, n)
  {
    var gone := PrunedSet(g, Tagged(repos), img);
    PrunedDownClosed(g, Tagged(repos), img);
    AcyclicAfter(g, gone);
    NoDanglingAfter(g, gone);
    forall x, n: nat | x in g && x !in gone ensures Up(g - gone, x, n) == Up(g, x, n) { UpAfter(g, gone, x, n); }
  }

  // ---------- the steps of the recursive deletion ----------

  lemma SiblingLists(g: Graph, tagged: set<Id>, id: Id, cs: seq<Id>, k: nat)
    requires Acyclic(g) && id in g && Enumerates(g, id, cs) && k < |cs|
    ensures forall x, y :: x in DoomedUnder(g, tagged, cs[..k]) && y in DoomedSet(g, tagged, cs[k]) ==>
      x != y && !Under(g, x, y)
  {
    forall x, y | x in DoomedUnder(g, tagged, cs[..k]) && y in DoomedSet(g, tagged, cs[k])
      ensures x != y && !Under(g, x, y)
    {
      InDoomedUnder(g, tagged, cs[..k], x);
      var i :| 0 <= i < k && x in DoomedSet(g, tagged, cs[..k][i]);
      assert cs[i] in cs && cs[k] in cs && cs[i] != cs[k];
      if x == y || Under(g, x, y) {
        if x != y { UnderTrans(g, cs[i], x, y); }
        ChildrenApart(g, id, cs[i], cs[k], y);
      }
    }
  }

  lemma NothingYet(g: Graph, tagged: set<Id>)
    ensures DoomedUnder(g, tagged, []) == {} && Lists(g, [], {})
  {
  }

  lemma HasChild(g: Graph, p: Id, cs: seq<Id>)
    requires Enumerates(g, p, cs) && cs != []
    ensures exists c :: c in g && g[c] == p
  {
    assert cs[0] in cs;
  }

  /** Everything the k-th recursive call relies on, and what it adds. */
  lemma ChildStep(g: Graph, tagged: set<Id>, id: Id, cs: seq<Id>, k: nat)
    requires Acyclic(g) && id in g && Enumerates(g, id, cs) && k < |cs|
    ensures var gone, c := DoomedUnder(g, tagged, cs[..k]), cs[k];
      && Acyclic(g - gone) && c in g - gone && |Subtree(g - gone, c)| < |Subtree(g, id)|
      && DoomedSet(g - gone, tagged, c) == DoomedSet(g, tagged, c)
      && (TagFree(g - gone, tagged, c) <==> TagFree(g, tagged, c))
      && DoomedUnder(g, tagged, cs[..k + 1]) == gone + DoomedSet(g, tagged, c)
  {
    var gone, c := DoomedUnder(g, tagged, cs[..k]), cs[k];
    assert c in cs;
    DoomedUnderDownClosed(g, tagged, cs[..k]);
    SiblingsApart(g, tagged, id, cs, k);
    UnderSelf(g, c);
    SubtreeShrinks(g, gone, id, c);
    AcyclicAfter(g, gone);
    DoomedAfter(g, tagged, gone, c);
    assert cs[..k + 1][..k] == cs[..k];
  }

  lemma ListStep(g: Graph, tagged: set<Id>, id: Id, cs: seq<Id>, k: nat, removed: seq<Id>, more: seq<Id>)
    requires Acyclic(g) && id in g && Enumerates(g, id, cs) && k < |cs|
    requires Lists(g, removed, DoomedUnder(g, tagged, cs[..k]))
    requires Lists(g - DoomedUnder(g, tagged, cs[..k]), more, DoomedSet(g, tagged, cs[k]))
    ensures Lists(g, removed + more, DoomedUnder(g, tagged, cs[..k]) + DoomedSet(g, tagged, cs[k]))
  {
    hide Under, Acyclic, Doomed, DoomedUnder, Lists;
    var gone := DoomedUnder(g, tagged, cs[..k]);
    DoomedUnderDownClosed(g, tagged, cs[..k]);
    SiblingLists(g, tagged, id, cs, k);
    assert DoomedSet(g, tagged, cs[k]) !! gone;
    ListsBefore(g, gone, more, DoomedSet(g, tagged, cs[k]));
    ListsConcat(g, removed, gone, more, DoomedSet(g, tagged, cs[k]));
  }

  /** After the loop over the children. */
  lemma LastStep(g: Graph, tagged: set<Id>, id: Id, cs: seq<Id>, removed: seq<Id>)
    requires Acyclic(g) && id in g && id !in tagged && Enumerates(g, id, cs)
    requires Lists(g, removed, DoomedUnder(g, tagged, cs))
    ensures if TagFree(g, tagged, id)
      then DoomedSet(g, tagged, id) == DoomedUnder(g, tagged, cs) + {id}
        && Lists(g, removed + [id], DoomedSet(g, tagged, id))
      else DoomedSet(g, tagged, id) == DoomedUnder(g, tagged, cs)
  {
    DoomedByChildren(g, tagged, id, cs);
    ParentLast(g, tagged, id, cs);
    ListsConcat(g, removed, DoomedUnder(g, tagged, cs), [id], {id});
  }

  lemma UpwardsStep(g: Graph, tagged: set<Id>, img: Id, removed: seq<Id>, more: seq<Id>)
    requires Acyclic(g) && img in g && TagFree(g, tagged, img) && g[img] in g - Subtree(g, img)
    requires Lists(g, removed, Subtree(g, img))
    requires Lists(g - Subtree(g, img), more, PrunedSet(g - Subtree(g, img), tagged, g[img]))
    ensures Lists(g, removed + more, PrunedSet(g, tagged, img))
  {
    hide Under, Acyclic, TagFree, Doomed, Reached, Lists;
    var up := PrunedSet(g - Subtree(g, img), tagged, g[img]);
    PrunedGoesOn(g, tagged, img);
    SubtreeDownClosed(g, img);
    SubtreeBefore(g, tagged, img);
    ListsBefore(g, Subtree(g, img), more, up);
    ListsConcat(g, removed, Subtree(g, img), more, up);
  }

  lemma NoChildrenLeft(g: Graph, tagged: set<Id>, id: Id, cs: seq<Id>)
    requires Acyclic(g) && id in g && Enumerates(g, id, cs)
    requires forall i :: 0 <= i < |cs| ==> TagFree(g, tagged, cs[i])
    ensures forall c :: c in g - DoomedUnder(g, tagged, cs) ==> g[c] != id
  {
    forall c | c in g && g[c] == id ensures c in DoomedUnder(g, tagged, cs) {
      assert c in cs;
      var i :| 0 <= i < |cs| && cs[i] == c;
      DoomedRoot(g, tagged, c);
      InDoomedUnder(g, tagged, cs, c);
    }
  }

  lemma ParentLast(g: Graph, tagged: set<Id>, id: Id, cs: seq<Id>)
    requires Acyclic(g) && id in g && Enumerates(g, id, cs)
    ensures forall x :: x in DoomedUnder(g, tagged, cs) ==> x != id && !Under(g, x, id)
  {
    forall x | x in DoomedUnder(g, tagged, cs) ensures x != id && !Under(g, x, id) {
      InDoomedUnder(g, tagged, cs, x);
      var i :| 0 <= i < |cs| && x in DoomedSet(g, tagged, cs[i]);
      assert cs[i] in cs;
      NotUnderChild(g, id, cs[i]);
      if Under(g, x, id) { UnderTrans(g, cs[i], x, id); }
    }
  }

  lemma SubtreeBefore(g: Graph, tagged: set<Id>, img: Id)
    requires Acyclic(g) && img in g
    ensures forall x, y :: x in Subtree(g, img) && y in PrunedSet(g - Subtree(g, img), tagged, g[img]) ==>
      x != y && !Under(g, x, y)
  {
    forall x, y | x in Subtree(g, img) && y in PrunedSet(g - Subtree(g, img), tagged, g[img])
      ensures x != y && !Under(g, x, y)
    {
      if Under(g, x, y) { UnderTrans(g, img, x, y); }
    }
  }

  /** The tags after deleting one tag of a repository, or all of them. */
  ghost predicate Untagged(before: Repos, after: Repos, repo: string, tag: string) {
    forall r, t :: TagAt(after, r, t) == if r == repo && (tag == "" || t == tag) then None else TagAt(before, r, t)
  }

  lemma UntaggedSubset(before: Repos, after: Repos, repo: string, tag: string)
    requires Untagged(before, after, repo, tag)
    ensures Tagged(after) <= Tagged(before)
  {
    forall r, t | r in after && t in after[r] ensures after[r][t] in Tagged(before) {
      assert TagAt(after, r, t) == TagAt(before, r, t);
    }
  }

  // ---------- the server ----------

  class Server {
    var images: Graph
    var repos: Repos

    constructor ()
      ensures images == map[] && repos == map[]
    {
      images, repos := map[], map[];
    }

    /** Graph.ByParent: the children of each image that has any, in no particular order. */
    method ByParent() returns (t: map<Id, seq<Id>>)
      ensures forall p :: p in t ==> Enumerates(images, p, t[p]) && t[p] != []
      ensures forall p :: p !in t ==> Enumerates(images, p, [])
    {
      t := map[];
      var todo := images.Keys;
      while todo != {}
        invariant todo <= images.Keys
        invariant forall p :: p in t ==> t[p] != [] && Distinct(t[p])
        invariant forall p, c :: p in t && c in t[p] ==> Child(images, p, c) && c !in todo
        invariant forall p, c :: Child(images, p, c) && c !in todo ==> p in t && c in t[p]
        decreases todo
      {
        var x :| x in todo;
        var p := images[x];
        if p in images {
          var siblings := if p in t then t[p] else [];
          assert forall c :: c in siblings + [x] <==> c in siblings || c == x;
          t := t[p := siblings + [x]];
        }
        todo := todo - {x};
      }
    }

    /** Graph.Heads: the images that are no image's parent. */
    method Heads() returns (heads: set<Id>)
      ensures forall h :: h in heads <==> h in images && forall c :: c in images ==> images[c] != h
    {
      var byParent := ByParent();
      heads := set h | h in images && h !in byParent;
      forall h | h in images ensures h in byParent <==> exists c :: c in images && images[c] == h {
        if h in byParent {
          assert byParent[h][0] in byParent[h];
        } else {
          assert forall c :: c in images && images[c] == h ==> Child(images, h, c);
          assert Enumerates(images, h, []);
        }
      }
    }

    /** TagStore.Delete: one tag, or the whole repository if the tag is empty; an unknown
        repository is no error. */
    method Untag(repo: string, tag: string) returns (deleted: bool, err: DeleteError)
      modifies this`repos
      ensures err == if tag != "" && repo in old(repos) && tag !in old(repos)[repo] then NoSuchTag else Done
      ensures deleted <==> err == Done && repo in old(repos)
      ensures err == NoSuchTag ==> repos == old(repos)
      ensures err == Done ==> Untagged(old(repos), repos, repo, tag)
    {
      if repo !in repos {
        return false, Done;
      }
      if tag == "" {
        repos := repos - {repo};
      } else if tag in repos[repo] {
        var rest := repos[repo] - {tag};
        assert rest == map[] ==> forall t :: t in repos[repo] ==> t == tag by {
          if rest == map[] { forall t | t in repos[repo] ensures t == tag { assert t !in rest; } }
        }
        repos := if rest == map[] then repos - {repo} else repos[repo := rest];
      } else {
        return false, NoSuchTag;
      }
      return true, Done;
    }

    method DeleteImageAndChildren(id: Id) returns (err: DeleteError, removed: seq<Id>)
      requires Acyclic(images) && id in images
      modifies this`images
      ensures images == old(images) - DoomedSet(old(images), Tagged(repos), id)
      ensures err == if TagFree(old(images), Tagged(repos), id) then Done else Referenced
      ensures Lists(old(images), removed, DoomedSet(old(images), Tagged(repos), id))
      decreases |Subtree(images, id)|
    {
      hide TagFree, Acyclic, Under, DoomedSet, Subtree, Lists, Enumerates, DoomedUnder;
      ghost var g, tagged := images, Tagged(repos);
      removed := [];
      NothingYet(g, tagged);
      if exists r, t :: r in repos && t in repos[r] && repos[r][t] == id {
        DoomedTagged(g, tagged, id);
        return Referenced, [];
      }
      assert id !in tagged;
      var referenced := false;
      var byParent := ByParent();
      var children := if id in byParent then byParent[id] else [];
      assert Enumerates(g, id, children);
      assert children[..0] == [];
      for k := 0 to |children|
        invariant images == g - DoomedUnder(g, tagged, children[..k])
        invariant !referenced <==> forall i :: 0 <= i < k ==> TagFree(g, tagged, children[i])
        invariant Lists(g, removed, DoomedUnder(g, tagged, children[..k]))
      {
        ChildStep(g, tagged, id, children, k);
        var e, more := DeleteImageAndChildren(children[k]);
        if e == Referenced {
          referenced := true;
        }
        ListStep(g, tagged, id, children, k, removed, more);
        removed := removed + more;
      }
      assert children[..|children|] == children;
      TagFreeByChildren(g, tagged, id, children);
      LastStep(g, tagged, id, children, removed);
      if referenced {
        return Referenced, removed;
      }
      byParent := ByParent();
      NoChildrenLeft(g, tagged, id, children);
      assert id !in byParent by {
        if id in byParent { HasChild(images, id, byParent[id]); }
      }
      if id !in byParent {
        images := images - {id};
        removed := removed + [id];
      }
      err := Done;
    }

    /** The parent of a deleted image, its untagged subtree, and so on upwards. */
    method DeleteImageParents(parent: Id) returns (err: DeleteError, removed: seq<Id>)
      requires Acyclic(images) && "" !in images
      modifies this`images
      ensures parent in old(images) ==>
        && images == old(images) - PrunedSet(old(images), Tagged(repos), parent)
        && Lists(old(images), removed, PrunedSet(old(images), Tagged(repos), parent))
      ensures parent !in old(images) ==> images == old(images) && removed == []
      ensures parent !in old(images) ==> err == if parent == "" then Done else NoSuchImage
      ensures parent in old(images) ==> err == ClimbError(old(images), Tagged(repos), parent)
      decreases |images|, 1
    {
      if parent == "" {
        return Done, [];
      }
      if parent !in images {
        return NoSuchImage, [];
      }
      err, removed := DeleteUpwards(parent);
    }

    /** An image with its subtree, then its ancestors: an error exactly if something tagged is under one
        of them, or the topmost one names a missing parent. */
    method DeleteUpwards(img: Id) returns (err: DeleteError, removed: seq<Id>)
      requires Acyclic(images) && "" !in images && img in images
      modifies this`images
      ensures images == old(images) - PrunedSet(old(images), Tagged(repos), img)
      ensures Lists(old(images), removed, PrunedSet(old(images), Tagged(repos), img))
      ensures err == ClimbError(old(images), Tagged(repos), img)
      decreases |images|, 0
    {
      hide ClimbError, TagFree, Acyclic, Under, DownClosed, DoomedSet, Reached, PrunedSet;
      ghost var g, tagged := images, Tagged(repos);
      var parent := images[img];
      err, removed := DeleteImageAndChildren(img);
      ClimbStops(g, tagged, img);
      if err == Referenced {
        PrunedStops(g, tagged, img);
        return;
      }
      DoomedTagFree(g, tagged, img);
      SubtreeDownClosed(g, img);
      AcyclicAfter(g, Subtree(g, img));
      UnderSelf(g, img);
      Fewer(g, Subtree(g, img), img);
      ghost var h := images;
      var more;
      err, more := DeleteImageParents(parent);
      if parent in g {
        PrunedGoesOn(g, tagged, img);
        ClimbGoesOn(g, tagged, img);
        UpwardsStep(g, tagged, img, removed, more);
      } else {
        PrunedStops(g, tagged, img);
      }
      removed := removed + more;
    }

    /** deleteImage from the untag step on: an unknown tag changes nothing; an image that
        still has tags is kept; otherwise the image is pruned.  Meeting a reference is no error. */
    method DeleteImage(img: Id, repo: string, tag: string) returns (err: DeleteError, untagged: bool, removed: seq<Id>)
      requires Acyclic(images) && "" !in images && img in images
      modifies this
      ensures err == NoSuchTag <==> tag != "" && repo in old(repos) && tag !in old(repos)[repo]
      ensures err == NoSuchTag ==> images == old(images) && repos == old(repos) && removed == []
      ensures err != NoSuchTag ==> Untagged(old(repos), repos, repo, tag) && (untagged <==> repo in old(repos))
      ensures err != NoSuchTag && img in Tagged(repos) ==> images == old(images) && removed == [] && err == Done
      ensures err != NoSuchTag && img !in Tagged(repos) ==>
        && images == old(images) - PrunedSet(old(images), Tagged(repos), img)
        && Lists(old(images), removed, PrunedSet(old(images), Tagged(repos), img))
      ensures err != NoSuchTag && img !in Tagged(repos) ==>
        (err == NoSuchImage <==> ClimbError(old(images), Tagged(repos), img) == NoSuchImage)
      ensures err != Referenced
      ensures WellFormed(old(images), old(repos)) ==> WellFormed(images, repos) && (err == Done || err == NoSuchTag)
    {
      ghost var g := images;
      untagged, err := Untag(repo, tag);
      removed := [];
      if err == NoSuchTag {
        return;
      }
      UntaggedSubset(old(repos), repos, repo, tag);
      if !exists r, t :: r in repos && t in repos[r] && repos[r][t] == img {
        err, removed := DeleteUpwards(img);
        if NoDangling(g) && Tagged(repos) <= g.Keys {
          NothingBroken(g, Tagged(repos), img);
          PruningIsSafe(g, repos, img);
        }
      }
      if err == Referenced {
        err := Done;
      }
    }

    /** Graph.Register: the parent is not looked at. */
    method Register(id: Id, parent: Id) returns (ok: bool)
      modifies this`images
      ensures ok <==> id != "" && ':' !in id && id !in old(images)
      ensures images == if ok then old(images)[id := parent] else old(images)
      ensures ok && WellFormed(old(images), repos) ==>
        (WellFormed(images, repos) <==> parent == "" || parent in old(images))
    {
      if id == "" || ':' in id || id in images {
        return false;
      }
      if Acyclic(images) && NoDangling(images) { RegisterKeepsForest(images, id, parent); }
      images := images[id := parent];
      return true;
    }

    /** TagStore.Set: tags only an image that is in the store. */
    method SetTag(repo: string, tag: string, img: Id) returns (ok: bool)
      modifies this`repos
      ensures ok <==> img in images && repo != "" && '/' !in tag && ':' !in tag
      ensures !ok ==> repos == old(repos)
      ensures var t := if tag == "" then "latest" else tag;
        ok ==> forall r, u :: TagAt(repos, r, u) == if r == repo && u == t then Some(img) else TagAt(old(repos), r, u)
      ensures WellFormed(images, old(repos)) ==> WellFormed(images, repos)
    {
      if img !in images || repo == "" || '/' in tag || ':' in tag {
        return false;
      }
      var t := if tag == "" then "latest" else tag;
      var r := if repo in repos then repos[repo] else map[];
      repos := repos[repo := r[t := img]];
      forall x | x in Tagged(repos) ensures x == img || x in Tagged(old(repos)) {
        var q, u :| q in repos && u in repos[q] && repos[q][u] == x;
        if x != img { assert TagAt(repos, q, u) == TagAt(old(repos), q, u); }
      }
      return true;
    }
  }

  lemma Fewer(g: Graph, gone: set<Id>, x: Id)
    requires x in g && x in gone
    ensures |g - gone| < |g|
  {
    assert (g - gone).Keys == g.Keys - gone;
    Smaller(g.Keys - gone, g.Keys, x);
  }
}
