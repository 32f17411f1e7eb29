/** Looking ids up by a unique prefix, in one string of space-separated ids.  The suffix array
    is its contract: all positions of a pattern. */
module TruncIndex {
  import opened Text

  type Tokens = seq<string>

  /** The bytes that hold the tokens: each between spaces.  A deleted id leaves an empty token. */
  function Render(ts: Tokens): (b: string)
    ensures b != "" && b[0] == ' '
  {
    if ts == [] then " " else " " + ts[0] + Render(ts[1..])
  }

  /** Where the space in front of token k is. */
  function Offset(ts: Tokens, k: nat): nat
    requires k < |ts|
  {
    if k == 0 then 0 else 1 + |ts[0]| + Offset(ts[1..], k - 1)
  }

  ghost predicate SpaceFree(ts: Tokens) {
    forall k :: 0 <= k < |ts| ==> ' ' !in ts[k]
  }

  predicate OccursAt(b: string, pattern: string, i: nat) {
    i + |pattern| <= |b| && b[i..i + |pattern|] == pattern
  }

  /** suffixarray.Index.Lookup with no limit. */
  function Occurrences(b: string, pattern: string): set<nat> {
    set i: nat | i <= |b| && OccursAt(b, pattern, i)
  }

  // ---------- where a prefix occurs ----------

  /** A space-free s is a prefix of t followed by a space exactly if it is a prefix of t. */
  lemma PrefixBeforeSpace(t: string, rest: string, s: string)
    requires ' ' !in s && rest != "" && rest[0] == ' '
    ensures s <= t + rest <==> s <= t
  {
    assert (t + rest)[|t|] == ' ';
    assert s <= t + rest ==> |s| <= |t|;
    assert |s| <= |t| ==> (t + rest)[..|s|] == t[..|s|];
  }

  lemma OccursHead(ts: Tokens, s: string, i: nat)
    requires ts != [] && SpaceFree(ts) && ' ' !in s && i <= |ts[0]|
    ensures OccursAt(Render(ts), " " + s, i) <==> i == 0 && s <= ts[0]
  {
    var b, rest := Render(ts), Render(ts[1..]);
    assert b == " " + (ts[0] + rest);
    assert forall j :: 0 < j <= |ts[0]| ==> b[j] == ts[0][j - 1];
    assert OccursAt(b, " " + s, i) ==> b[i] == b[i..i + 1 + |s|][0];
    if i == 0 {
      PrefixBeforeSpace(ts[0], rest, s);
      if OccursAt(b, " " + s, 0) {
        assert b[0..1 + |s|][1..] == s && b[0..1 + |s|][1..] == b[1..][..|s|];
      }
      if s <= ts[0] + rest { assert b[0..1 + |s|] == " " + s; }
    }
  }

  lemma OccursShift(head: string, rest: string, pattern: string, i: nat)
    requires i >= |head|
    ensures OccursAt(head + rest, pattern, i) <==> OccursAt(rest, pattern, i - |head|)
  {
    if i + |pattern| <= |head + rest| {
      assert (head + rest)[i..i + |pattern|] == rest[i - |head|..i - |head| + |pattern|];
    }
  }

  lemma OccursTail(ts: Tokens, pattern: string, i: nat)
    requires ts != [] && i > |ts[0]|
    ensures OccursAt(Render(ts), pattern, i) <==> OccursAt(Render(ts[1..]), pattern, i - 1 - |ts[0]|)
  {
    OccursShift(" " + ts[0], Render(ts[1..]), pattern, i);
  }

  /** " s" occurs exactly in front of the tokens that have prefix s. */
  lemma {:induction false} OccursAtTokens(ts: Tokens, s: string, i: nat)
    requires SpaceFree(ts) && ' ' !in s && s != ""
    ensures OccursAt(Render(ts), " " + s, i) <==> exists k :: 0 <= k < |ts| && i == Offset(ts, k) && s <= ts[k]
  {
    if ts != [] {
      if i <= |ts[0]| {
        OccursHead(ts, s, i);
        if i == 0 && s <= ts[0] { assert i == Offset(ts, 0); }
      } else {
        var d := i - 1 - |ts[0]|;
        OccursTail(ts, " " + s, i);
        OccursAtTokens(ts[1..], s, d);
        if k :| 0 <= k < |ts[1..]| && d == Offset(ts[1..], k) && s <= ts[1..][k] {
          assert i == Offset(ts, k + 1) && s <= ts[k + 1];
        }
        if k :| 0 <= k < |ts| && i == Offset(ts, k) && s <= ts[k] {
          assert d == Offset(ts[1..], k - 1) && s <= ts[1..][k - 1];
        }
      }
    }
  }

  lemma {:induction false} OffsetIncreases(ts: Tokens, j: nat, k: nat)
    requires j < k < |ts|
    ensures Offset(ts, j) < Offset(ts, k)
  {
    if j > 0 { OffsetIncreases(ts[1..], j - 1, k - 1); }
  }

  /** The token behind its offset, and the space that ends it. */
  lemma {:induction false} TokenAt(ts: Tokens, k: nat)
    requires k < |ts|
    ensures var b, before := Render(ts), Offset(ts, k) + 1;
      before + |ts[k]| < |b| && b[before..before + |ts[k]|] == ts[k] && b[before + |ts[k]|] == ' '
  {
    var head, rest := " " + ts[0], Render(ts[1..]);
    if k == 0 {
      assert (head + rest)[1..1 + |ts[0]|] == ts[0];
    } else {
      TokenAt(ts[1..], k - 1);
      SliceBehind(head, rest, Offset(ts[1..], k - 1) + 1, |ts[k]|);
    }
  }

  lemma SliceBehind(head: string, rest: string, from: nat, count: nat)
    requires from + count < |rest|
    ensures (head + rest)[|head| + from..|head| + from + count] == rest[from..from + count]
    ensures (head + rest)[|head| + from + count] == rest[from + count]
  {
  }

  lemma TokenEnds(ts: Tokens, k: nat)
    requires k < |ts| && SpaceFree(ts)
    ensures Offset(ts, k) + 1 <= |Render(ts)| && Find(Render(ts)[Offset(ts, k) + 1..], ' ') == |ts[k]|
  {
    hide Render, Offset;
    TokenAt(ts, k);
    var before := Offset(ts, k) + 1;
    TokenThenSpace(Render(ts), before, ts[k]);
  }

  lemma TokenThenSpace(b: string, before: nat, t: string)
    requires before + |t| < |b| && b[before..before + |t|] == t && b[before + |t|] == ' ' && ' ' !in t
    ensures Find(b[before..], ' ') == |t|
  {
    var rest := b[before + |t| + 1..];
    assert b[before..] == t + [' '] + rest;
    FindAfter(t, ' ', rest);
  }

  // ---------- what Add and Delete do to the bytes ----------

  lemma {:induction false} RenderAppend(ts: Tokens, id: string)
    ensures Render(ts + [id]) == Render(ts) + id + " "
  {
    if ts == [] {
      assert ts + [id] == [id] && [id][1..] == [];
    } else {
      RenderAppend(ts[1..], id);
      assert (ts + [id])[1..] == ts[1..] + [id] && (ts + [id])[0] == ts[0];
      Associate(" " + ts[0], Render(ts[1..]), id);
      Associate(" " + ts[0], Render(ts[1..]) + id, " ");
    }
  }

  lemma {:induction false} RenderDelete(ts: Tokens, k: nat)
    requires k < |ts|
    ensures var b, before := Render(ts), Offset(ts, k) + 1;
      before + |ts[k]| <= |b| && Render(ts[k := ""]) == b[..before] + b[before + |ts[k]|..]
  {
    TokenAt(ts, k);
    var head, rest := " " + ts[0], Render(ts[1..]);
    if k == 0 {
      assert ts[0 := ""][1..] == ts[1..];
      CutMiddle(" ", ts[0], rest);
    } else {
      RenderDelete(ts[1..], k - 1);
      assert ts[k := ""][1..] == ts[1..][k - 1 := ""];
      CutBehind(head, rest, Offset(ts[1..], k - 1) + 1, |ts[k]|);
    }
  }

  lemma CutMiddle(a: string, b: string, c: string)
    ensures (a + b + c)[..|a|] + (a + b + c)[|a| + |b|..] == a + c
  {
  }

  lemma CutBehind(head: string, rest: string, from: nat, count: nat)
    requires from + count <= |rest|
    ensures (head + rest)[..|head| + from] + (head + rest)[|head| + from + count..]
         == head + (rest[..from] + rest[from + count..])
  {
  }

  // ---------- the index ----------

  /** id is the only one of ids that has prefix s. */
  ghost predicate OnlyMatch(ids: set<string>, s: string, id: string) {
    id in ids && s <= id && forall o :: o in ids && s <= o ==> o == id
  }

  /** With ids of one length, as image ids are, looking up a full id is looking up a set. */
  lemma FullIds(ids: set<string>, s: string)
    requires forall i :: i in ids ==> |i| == |s|
    ensures s in ids <==> OnlyMatch(ids, s, s)
    ensures forall id :: OnlyMatch(ids, s, id) ==> id == s
  {
    assert forall i :: i in ids && s <= i ==> i == s;
  }

  /** The tokens that are not empty are the ids, each once. */
  ghost predicate Holds(tokens: Tokens, ids: set<string>) {
    && SpaceFree(tokens)
    && (forall j, k :: 0 <= j < k < |tokens| && tokens[j] != "" ==> tokens[j] != tokens[k])
    && (forall id :: id in ids && id != "" ==> id in tokens)
    && (forall k :: 0 <= k < |tokens| && tokens[k] != "" ==> tokens[k] in ids)
    && ("" in ids ==> tokens != [])
  }

  /** One occurrence of " s", in front of token k: that token is the only match. */
  lemma OneOccurrence(tokens: Tokens, ids: set<string>, s: string, k: nat)
    requires Holds(tokens, ids) && s != "" && ' ' !in s && k < |tokens| && s <= tokens[k]
    requires Occurrences(Render(tokens), " " + s) == {Offset(tokens, k)}
    ensures OnlyMatch(ids, s, tokens[k])
  {
    hide Render, Offset, OccursAt, Occurrences;
    forall o | o in ids && s <= o ensures o == tokens[k] {
      var j :| 0 <= j < |tokens| && tokens[j] == o;
      InOccurrences(tokens, s, j);
      if j < k { OffsetIncreases(tokens, j, k); } else if k < j { OffsetIncreases(tokens, k, j); }
    }
  }

  lemma InOccurrences(tokens: Tokens, s: string, k: nat)
    requires SpaceFree(tokens) && s != "" && ' ' !in s && k < |tokens| && s <= tokens[k]
    ensures Offset(tokens, k) in Occurrences(Render(tokens), " " + s)
  {
    OccursAtTokens(tokens, s, Offset(tokens, k));
  }

  /** A position of " s" is in front of a token with prefix s. */
  lemma OccurrenceToken(tokens: Tokens, s: string, i: nat) returns (k: nat)
    requires SpaceFree(tokens) && s != "" && ' ' !in s && i in Occurrences(Render(tokens), " " + s)
    ensures k < |tokens| && i == Offset(tokens, k) && s <= tokens[k]
  {
    OccursAtTokens(tokens, s, i);
    k :| 0 <= k < |tokens| && i == Offset(tokens, k) && s <= tokens[k];
  }

  lemma OnlyMatchOccursOnce(tokens: Tokens, ids: set<string>, s: string, id: string)
    requires Holds(tokens, ids) && s != "" && ' ' !in s && OnlyMatch(ids, s, id)
    ensures |Occurrences(Render(tokens), " " + s)| == 1
  {
    var k :| 0 <= k < |tokens| && tokens[k] == id;
    InOccurrences(tokens, s, k);
    forall i | i in Occurrences(Render(tokens), " " + s) ensures i == Offset(tokens, k) {
      var j := OccurrenceToken(tokens, s, i);
      assert tokens[j] == id;
      assert j == k;
    }
    assert Occurrences(Render(tokens), " " + s) == {Offset(tokens, k)};
  }

  /** From behind the space at i to the next space, or to nowhere if there is none. */
  function BoundsAt(b: string, i: nat): (int, int)
    requires i < |b|
  {
    var space := Find(b[i + 1..], ' ');
    (i + 1, i + 1 + if space < |b[i + 1..]| then space else -1)
  }

  /** The one occurrence of " s" is in front of the only match, which ends at the next space. */
  lemma TheToken(tokens: Tokens, ids: set<string>, s: string, i: nat) returns (k: nat)
    requires Holds(tokens, ids) && s != "" && ' ' !in s
    requires i in Occurrences(Render(tokens), " " + s) && |Occurrences(Render(tokens), " " + s)| == 1
    ensures k < |tokens| && i == Offset(tokens, k) && OnlyMatch(ids, s, tokens[k])
    ensures i < |Render(tokens)| && BoundsAt(Render(tokens), i) == (i + 1, i + 1 + |tokens[k]|)
  {
    k := OccurrenceToken(tokens, s, i);
    Singleton(Occurrences(Render(tokens), " " + s), i);
    hide Render, Offset, Occurrences;
    OneOccurrence(tokens, ids, s, k);
    TokenEnds(tokens, k);
    TokenAt(tokens, k);
    hide Find;
  }

  lemma Singleton(s: set<nat>, x: nat)
    requires |s| == 1 && x in s
    ensures s == {x}
  {
    assert |s - {x}| == 0;
  }

  /** The empty id has as many occurrences as there are spaces. */
  lemma EmptyOccursOften(tokens: Tokens)
    requires tokens != []
    ensures |Occurrences(Render(tokens), " ")| > 1
  {
    var b, o := Render(tokens), Occurrences(Render(tokens), " ");
    TokenAt(tokens, 0);
    var end := 1 + |tokens[0]|;
    assert b[0..1] == " " && b[end..end + 1] == " ";
    assert 0 in o && end in o;
    if |o| == 1 { Singleton(o, 0); }
  }

  /** The occurrences of a single space: one in the bytes of an index without ids. */
  lemma EmptyQuery(tokens: Tokens)
    ensures " " + "" == " "
    ensures if tokens == [] then Occurrences(Render(tokens), " ") == {0} && BoundsAt(Render(tokens), 0) == (1, 0)
      else |Occurrences(Render(tokens), " ")| > 1
  {
    if tokens != [] { EmptyOccursOften(tokens); }
  }

  lemma InBytes(b: string, pattern: string, i: nat)
    requires i in Occurrences(b, pattern)
    ensures i + |pattern| <= |b| && b[i..i + |pattern|] == pattern
  {
  }

  /** The bounds are those of a part of the bytes. */
  predicate Cuts(b: string, bounds: (int, int), part: string) {
    0 <= bounds.0 <= bounds.1 <= |b| && b[bounds.0..bounds.1] == part
  }

  lemma SpacedQuery(b: string, s: string, i: nat)
    requires ' ' in s && i + |" " + s| <= |b| && b[i..i + |" " + s|] == " " + s
    ensures Cuts(b, BoundsAt(b, i), s[..Find(s, ' ')])
  {
    hide Find;
    Behind(b, " ", s, i);
    var t := b[i + 1..];
    assert t == s + t[|s|..];
    FindWithin(s, t[|s|..], ' ');
    assert t[..Find(s, ' ')] == s[..Find(s, ' ')];
  }

  lemma Behind(b: string, first: string, s: string, i: nat)
    requires i + |first + s| <= |b| && b[i..i + |first + s|] == first + s
    ensures s <= b[i + |first|..]
  {
    assert b[i..i + |first + s|][|first|..] == b[i + |first|..][..|s|];
    assert (first + s)[|first|..] == s;
  }

  lemma FindWithin(s: string, rest: string, c: char)
    requires c in s
    ensures Find(s + rest, c) == Find(s, c) < |s|
  {
    FindUnique(s + rest, c, Find(s, c));
  }

  class TruncIndex {
    var ids: set<string>
    var bytes: string
    ghost var tokens: Tokens

    ghost predicate Valid()
      reads this
    {
      bytes == Render(tokens) && Holds(tokens, ids)
    }

    constructor ()
      ensures Valid() && ids == {}
    {
      ids, bytes, tokens := {}, " ", [];
    }

    method Add(id: string) returns (ok: bool)
      requires Valid()
      modifies this
      ensures Valid()
      ensures ok <==> ' ' !in id && id !in old(ids)
      ensures ids == if ok then old(ids) + {id} else old(ids)
    {
      if ' ' in id || id in ids {
        return false;
      }
      RenderAppend(tokens, id);
      ids := ids + {id};
      bytes := bytes + id + " ";
      tokens := tokens + [id];
      return true;
    }

    /** Positions around what follows the one occurrence of " s", up to the next space: for a query
        without a space, the one id with prefix s. */
    method Lookup(s: string) returns (r: Option<(int, int)>, ghost k: nat)
      requires Valid()
      ensures s == "" ==> r == if tokens == [] then Some((1, 0)) else None
      ensures s != "" && ' ' !in s ==> (r.Some? <==> exists id :: OnlyMatch(ids, s, id))
      ensures s != "" && ' ' !in s && r.Some? ==> k < |tokens| && OnlyMatch(ids, s, tokens[k])
      ensures s != "" && ' ' !in s && r.Some? ==>
        r.value == (Offset(tokens, k) + 1, Offset(tokens, k) + 1 + |tokens[k]|)
      ensures ' ' in s ==> (r.Some? <==> |Occurrences(bytes, " " + s)| == 1)
      ensures ' ' in s && r.Some? ==> Cuts(bytes, r.value, s[..Find(s, ' ')])
    {
      k := 0;
      var offsets := Occurrences(bytes, " " + s);
      assert bytes == Render(tokens) && Holds(tokens, ids);
      hide *;
      if s == "" {
        EmptyQuery(tokens);
      }
      if |offsets| != 1 {
        if s != "" && ' ' !in s {
          if id :| OnlyMatch(ids, s, id) { OnlyMatchOccursOnce(tokens, ids, s, id); }
        }
        return None, k;
      }
      var i :| i in offsets;
      InBytes(bytes, " " + s, i);
      if ' ' in s {
        SpacedQuery(bytes, s, i);
      } else if s != "" {
        k := TheToken(tokens, ids, s, i);
      }
      r := Some(BoundsAt(bytes, i));
    }

    /** The only id with prefix s.  A query with a space gives its first word, if it occurs once behind
        a space; the empty query panics on an index without ids, and finds nothing on any other. */
    method Get(s: string) returns (r: Option<string>, panics: bool)
      requires Valid()
      ensures panics <==> s == "" && tokens == []
      ensures s == "" ==> r == None
      ensures s != "" && ' ' !in s ==> forall id :: r == Some(id) <==> OnlyMatch(ids, s, id)
      ensures ' ' in s ==> r == if |Occurrences(bytes, " " + s)| == 1 then Some(s[..Find(s, ' ')]) else None
    {
      var found, k := Lookup(s);
      hide Render, Offset, Occurrences, Holds;
      if found.None? {
        return None, false;
      }
      if found.value.0 > found.value.1 {
        return None, true;
      }
      if s != "" && ' ' !in s { TokenAt(tokens, k); }
      return Some(bytes[found.value.0..found.value.1]), false;
    }

    /** Removes id if it is there and no other id extends it. */
    method Delete(id: string) returns (ok: bool)
      requires Valid()
      modifies this
      ensures Valid()
      ensures ok <==> id != "" && OnlyMatch(old(ids), id, id)
      ensures ids == if ok then old(ids) - {id} else old(ids)
    {
      if id !in ids {
        return false;
      }
      assert ' ' !in id by {
        if id != "" { var j :| 0 <= j < |tokens| && tokens[j] == id; }
      }
      var found, k := Lookup(id);
      if found.None? {
        return false;
      }
      assert id != "" by { assert "" in ids ==> tokens != []; }
      RenderDelete(tokens, k);
      HoldsDelete(tokens, ids, k);
      ids := ids - {id};
      bytes := bytes[..found.value.0] + bytes[found.value.1..];
      tokens := tokens[k := ""];
      return true;
    }
  }

  lemma HoldsDelete(tokens: Tokens, ids: set<string>, k: nat)
    requires Holds(tokens, ids) && k < |tokens| && tokens[k] != ""
    ensures Holds(tokens[k := ""], ids - {tokens[k]})
  {
    forall id | id in ids - {tokens[k]} && id != "" ensures id in tokens[k := ""] {
      var j :| 0 <= j < |tokens| && tokens[j] == id;
      assert tokens[k := ""][j] == id;
    }
  }
}
