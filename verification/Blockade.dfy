/** The operations that put a partition in force, read it back, and clear it. */
module Blockade {
  import opened Text
  import opened PacketFilter
  import opened Partition

  // ---------- insertion at the head ----------

  lemma {:induction false} DropsLast(cs: seq<Container>, c: Container)
    ensures Drops(cs + [c]) == (if c.ip.Some? then [DropTo(c.ip.value)] else []) + Drops(cs)
  {
    if cs == [] {
      assert cs + [c] == [c] && [c][1..] == [];
    } else {
      assert (cs + [c])[0] == cs[0] && (cs + [c])[1..] == cs[1..] + [c];
      DropsLast(cs[1..], c);
    }
  }

  lemma {:induction false} JumpsLast(cs: seq<Container>, c: Container, chain: string)
    ensures Jumps(cs + [c], chain) == (if c.ip.Some? then [JumpFrom(c.ip.value, chain)] else []) + Jumps(cs, chain)
  {
    if cs == [] {
      assert cs + [c] == [c] && [c][1..] == [];
    } else {
      assert (cs + [c])[0] == cs[0] && (cs + [c])[1..] == cs[1..] + [c];
      JumpsLast(cs[1..], c, chain);
    }
  }

  /** Nothing but FORWARD jumps to a chain of the blockade. */
  ghost predicate Clearable(t: Tables, id: string) {
    forall b, c :: b in t.chains && Mine(id, c) ==> !JumpsTo(t.chains[b], c)
  }

  lemma ClearedIsForeign(t: Tables, id: string)
    requires Clearable(t, id)
    ensures Foreign(Cleared(t, id), id)
  {
    var mine := (r: Rule) => RuleMine(id, r);
    KeepKeeps(t.forward, mine);
    var u := Cleared(t, id);
    forall c, i | Mine(id, c) && 0 <= i < |u.forward| ensures u.forward[i].target != Jump(c) {
      assert !mine(u.forward[i]);
    }
  }

  lemma {:induction false} KeepKeeps(a: seq<Rule>, remove: Rule -> bool)
    ensures forall i :: 0 <= i < |Keep(a, remove)| ==> !remove(Keep(a, remove)[i])
  {
    if a != [] { KeepKeeps(a[1..], remove); }
  }

  /** A partition in force can be cleared. */
  lemma PartitionedIsClearable(base: Tables, id: string, ps: seq<seq<Container>>)
    requires Foreign(base, id)
    ensures Clearable(Partitioned(base, id, ps), id)
  {
    hide ChainName, Mine, DropsOthers, ChainsBuilt;
    var t := Partitioned(base, id, ps);
    forall b, c | b in t.chains && Mine(id, c) ensures !JumpsTo(t.chains[b], c) {
      assert !Referenced(base, c);
      if |ps| > 1 {
        ChainsKept(base.chains, id, ps, |ps|, b);
        if b !in base.chains {
          var k: nat :| 1 <= k <= |ps| && b == ChainName(id, k);
          ChainsOwn(base.chains, id, ps, |ps|, k);
          DropsOthersMatch(ps, k - 1, |ps|, Packet("", "", 0));
        }
      }
    }
  }

  /** The k-th partition can be compiled: its containers have addresses and its chain is new. */
  ghost predicate Ready(chains: map<string, seq<Rule>>, id: string, ps: seq<seq<Container>>, k: nat) {
    1 <= k <= |ps| && HaveIps(ps[k - 1]) && ChainName(id, k) !in chains
  }

  ghost predicate AllReady(chains: map<string, seq<Rule>>, id: string, ps: seq<seq<Container>>, n: nat) {
    forall k: nat :: 1 <= k <= n ==> Ready(chains, id, ps, k)
  }

  lemma NextReady(chains: map<string, seq<Rule>>, id: string, ps: seq<seq<Container>>, k: nat)
    requires 1 <= k <= |ps| && AllReady(chains, id, ps, k - 1)
    ensures Ready(chains, id, ps, k) ==> AllReady(chains, id, ps, k)
    ensures !Ready(chains, id, ps, k) ==> !AllReady(chains, id, ps, |ps|)
  {
  }

  /** The chains compiled before the k-th have other names. */
  lemma ReadyIff(chains: map<string, seq<Rule>>, id: string, ps: seq<seq<Container>>, k: nat)
    requires 1 <= k <= |ps|
    ensures Ready(chains, id, ps, k)
       <==> ChainName(id, k) !in ChainsBuilt(chains, id, ps, k - 1) && HaveIps(ps[k - 1])
  {
    FreshName(chains, id, ps, k);
  }

  lemma AllReadyIff(chains: map<string, seq<Rule>>, id: string, ps: seq<seq<Container>>)
    requires forall k: nat :: ChainName(id, k) !in chains
    ensures AllReady(chains, id, ps, |ps|) <==> forall i :: 0 <= i < |ps| ==> HaveIps(ps[i])
  {
    if AllReady(chains, id, ps, |ps|) {
      forall i | 0 <= i < |ps| ensures HaveIps(ps[i]) { assert Ready(chains, id, ps, i + 1); }
    }
  }

  /** A chain that is not the blockade's jumps to one that is. */
  ghost predicate Needs(chains: map<string, seq<Rule>>, id: string, b: string, c: string) {
    b in chains && c in chains && !Mine(id, b) && Mine(id, c) && JumpsTo(chains[b], c)
  }

  ghost predicate NotNeeded(chains: map<string, seq<Rule>>, id: string) {
    forall b, c :: !Needs(chains, id, b, c)
  }

  class BlockadeNetwork {
    const ipt: Iptables

    constructor (ipt: Iptables)
      ensures this.ipt == ipt
    {
      this.ipt := ipt;
    }

    /** iptables_delete_blockade_chains: succeeds if nothing jumps to a chain of the blockade, and
        never removes a chain that another one needs. */
    method DeleteBlockadeChains(id: string) returns (ok: bool)
      modifies ipt
      ensures ok ==> ipt.tables == old(ipt.tables).(chains := ForeignChains(old(ipt.tables.chains), id))
      ensures ok ==> NotNeeded(old(ipt.tables.chains), id)
      ensures (forall c :: Mine(id, c) ==> !Referenced(old(ipt.tables), c)) ==> ok
    {
      hide Mine;
      ghost var before := ipt.tables;
      var todo := ipt.tables.chains.Keys;
      while todo != {}
        invariant todo <= before.chains.Keys
        invariant ipt.tables.forward == before.forward
        invariant forall c :: c in ipt.tables.chains <==> c in before.chains && (c in todo || !Mine(id, c))
        invariant forall c :: c in ipt.tables.chains ==> ipt.tables.chains[c] == before.chains[c]
        invariant forall b, c :: Needs(before.chains, id, b, c) ==> c in todo
        decreases todo
      {
        var c :| c in todo;
        if Mine(id, c) {
          ipt.Flush(c);
          ghost var flushed := ipt.tables;
          if Referenced(ipt.tables, c) { StillReferenced(before, ipt.tables, c); }
          var deleted := ipt.DeleteChain(c);
          if !deleted {
            return false;
          }
          forall b ensures !Needs(before.chains, id, b, c) {
            assert b in flushed.chains ==> !JumpsTo(flushed.chains[b], c);
          }
        }
        todo := todo - {c};
      }
      return true;
    }

    /** clear_iptables: first the jumps, so that the chains can go. */
    method Clear(id: string) returns (ok: bool)
      modifies ipt
      ensures ok ==> ipt.tables == Cleared(old(ipt.tables), id) && NotNeeded(old(ipt.tables.chains), id)
      ensures Clearable(old(ipt.tables), id) ==> ok
    {
      ghost var before := ipt.tables;
      ipt.DeleteForwardRules((r: Rule) => RuleMine(id, r));
      if Clearable(before, id) { JumpsGone(before, id); }
      hide Keep, RuleMine, ForeignChains, NotNeeded, Clearable;
      ok := DeleteBlockadeChains(id);
    }

    /** The drops of one chain for one other partition. */
    method InsertDrops(chain: string, other: seq<Container>)
      requires chain in ipt.tables.chains
      modifies ipt
      ensures chain in ipt.tables.chains && ipt.tables.forward == old(ipt.tables.forward)
      ensures ipt.tables.chains == old(ipt.tables.chains)[chain := Drops(other) + old(ipt.tables.chains)[chain]]
    {
      hide Drops;
      ghost var before := ipt.tables.chains;
      NoDrops(before[chain]);
      for i := 0 to |other|
        invariant chain in ipt.tables.chains && ipt.tables.forward == old(ipt.tables.forward)
        invariant ipt.tables.chains == before[chain := ipt.tables.chains[chain]]
        invariant ipt.tables.chains[chain] == Drops(other[..i]) + before[chain]
      {
        assert other[..i + 1] == other[..i] + [other[i]];
        DropsLast(other[..i], other[i]);
        if other[i].ip.Some? {
          Associate([DropTo(other[i].ip.value)], Drops(other[..i]), before[chain]);
          ipt.Insert(chain, DropTo(other[i].ip.value));
        } else {
          assert [] + Drops(other[..i]) == Drops(other[..i]);
        }
      }
      assert other[..|other|] == other;
    }

    /** The jumps from one partition; fails on a container without an address. */
    method InsertJumps(chain: string, own: seq<Container>) returns (ok: bool)
      modifies ipt
      ensures ok <==> HaveIps(own)
      ensures ipt.tables.chains == old(ipt.tables.chains)
      ensures ok ==> ipt.tables.forward == Jumps(own, chain) + old(ipt.tables.forward)
    {
      hide Jumps;
      ghost var before := ipt.tables;
      NoJumps(chain, before.forward);
      for i := 0 to |own|
        invariant forall j :: 0 <= j < i ==> own[j].ip.Some?
        invariant ipt.tables == before.(forward := Jumps(own[..i], chain) + before.forward)
      {
        if own[i].ip.None? {
          return false;
        }
        assert own[..i + 1] == own[..i] + [own[i]];
        JumpsLast(own[..i], own[i], chain);
        Associate([JumpFrom(own[i].ip.value, chain)], Jumps(own[..i], chain), before.forward);
        ipt.InsertForward(JumpFrom(own[i].ip.value, chain));
      }
      assert own[..|own|] == own;
      return true;
    }

    /** One pass of partition_containers' outer loop. */
    method PartitionOne(id: string, ps: seq<seq<Container>>, index: nat) returns (ok: bool)
      requires 1 <= index <= |ps|
      modifies ipt
      ensures ok <==> ChainName(id, index) !in old(ipt.tables.chains) && HaveIps(ps[index - 1])
      ensures ok ==> ipt.tables.forward == Jumps(ps[index - 1], ChainName(id, index)) + old(ipt.tables.forward)
      ensures ok ==>
        ipt.tables.chains == old(ipt.tables.chains)[ChainName(id, index) := DropsOthers(ps, index - 1, |ps|)]
    {
      hide Jumps, ChainName, HaveIps, Drops;
      ghost var before := ipt.tables;
      var chain := ChainName(id, index);
      ok := ipt.NewChain(chain);
      if !ok {
        return;
      }
      for j := 0 to |ps|
        invariant chain in ipt.tables.chains && ipt.tables.forward == before.forward
        invariant ipt.tables.chains == before.chains[chain := DropsOthers(ps, index - 1, j)]
      {
        if j != index - 1 {
          InsertDrops(chain, ps[j]);
        } else {
          assert [] + DropsOthers(ps, index - 1, j) == DropsOthers(ps, index - 1, j);
        }
      }
      ok := InsertJumps(chain, ps[index - 1]);
    }

    /** partition_containers: fails on a container without an address, and on a chain that is
        already there. */
    method PartitionContainers(id: string, ps: seq<seq<Container>>) returns (ok: bool)
      modifies ipt
      ensures ok ==> ipt.tables == Partitioned(old(ipt.tables), id, ps)
      ensures ok <==> |ps| <= 1 || AllReady(old(ipt.tables.chains), id, ps, |ps|)
    {
      if |ps| <= 1 {
        return true;
      }
      ghost var base := ipt.tables;
      BuiltNothing(base, id, ps);
      PartitionedIs(base, id, ps);
      assert AllReady(base.chains, id, ps, 0);
      hide *;
      for index := 1 to |ps| + 1
        invariant ipt.tables == Built(base, id, ps, index - 1)
        invariant AllReady(base.chains, id, ps, index - 1)
      {
        NextReady(base.chains, id, ps, index);
        BuiltNext(base, id, ps, index);
        ReadyIff(base.chains, id, ps, index);
        ok := PartitionOne(id, ps, index);
        if !ok {
          return;
        }
      }
      return true;
    }

    /** BlockadeNetwork.partition_containers: whatever partition was in force, the result is
        that of the new one on the tables without any. */
    method Repartition(id: string, ps: seq<seq<Container>>) returns (ok: bool)
      modifies ipt
      ensures ok ==> ipt.tables == Partitioned(Cleared(old(ipt.tables), id), id, ps)
      ensures ok ==> |ps| <= 1 || forall i :: 0 <= i < |ps| ==> HaveIps(ps[i])
      ensures Clearable(old(ipt.tables), id) && (|ps| <= 1 || forall i :: 0 <= i < |ps| ==> HaveIps(ps[i])) ==> ok
      ensures Clearable(old(ipt.tables), id) && ok ==> Clearable(ipt.tables, id)
    {
      ghost var before := ipt.tables;
      ok := Clear(id);
      if !ok {
        return;
      }
      forall k: nat ensures ChainName(id, k) !in ipt.tables.chains { NameMine(id, k); }
      ok := PartitionContainers(id, ps);
      AllReadyIff(Cleared(before, id).chains, id, ps);
      if ok && Clearable(before, id) {
        ClearedIsForeign(before, id);
        PartitionedIsClearable(Cleared(before, id), id, ps);
      }
    }

    /** iptables_get_source_chains: for each source address the index of its chain. */
    method GetSourceChains(id: string) returns (result: map<Ip, int>)
      ensures result == SourceChains(id, ipt.tables.forward)
    {
      var lines := ipt.tables.forward;
      result := map[];
      for i := 0 to |lines|
        invariant result == SourceChains(id, lines[..i])
      {
        assert lines[..i + 1][..i] == lines[..i];
        var index := ParseIndex(id, TargetName(lines[i].target));
        if index.Some? {
          result := result[SourceText(lines[i]) := index.value];
        }
      }
      assert lines[..|lines|] == lines;
    }
  }

  lemma BuiltNothing(base: Tables, id: string, ps: seq<seq<Container>>)
    ensures Built(base, id, ps, 0) == base
  {
    assert [] + base.forward == base.forward;
  }

  lemma PartitionedIs(base: Tables, id: string, ps: seq<seq<Container>>)
    requires |ps| > 1
    ensures Partitioned(base, id, ps) == Built(base, id, ps, |ps|)
  {
  }

  lemma BuiltNext(base: Tables, id: string, ps: seq<seq<Container>>, k: nat)
    requires 1 <= k <= |ps|
    ensures Built(base, id, ps, k - 1).chains == ChainsBuilt(base.chains, id, ps, k - 1)
    ensures Built(base, id, ps, k) == Tables(
      Jumps(ps[k - 1], ChainName(id, k)) + Built(base, id, ps, k - 1).forward,
      Built(base, id, ps, k - 1).chains[ChainName(id, k) := DropsOthers(ps, k - 1, |ps|)])
  {
    hide Jumps, ChainName, DropsOthers;
    Associate(Jumps(ps[k - 1], ChainName(id, k)), JumpsAll(id, ps, k - 1), base.forward);
  }

  lemma NoDrops(rules: seq<Rule>)
    ensures Drops([]) + rules == rules
  {
  }

  lemma NoJumps(chain: string, rules: seq<Rule>)
    ensures Jumps([], chain) + rules == rules
  {
  }

  lemma StillReferenced(before: Tables, now: Tables, c: string)
    requires Referenced(now, c) && now.forward == before.forward
    requires forall b :: b in now.chains ==>
      b in before.chains && (now.chains[b] == before.chains[b] || now.chains[b] == [])
    ensures Referenced(before, c)
  {
  }

  lemma JumpsGone(t: Tables, id: string)
    requires Clearable(t, id)
    ensures forall c :: Mine(id, c) ==> !Referenced(t.(forward := Keep(t.forward, (r: Rule) => RuleMine(id, r))), c)
  {
    var mine := (r: Rule) => RuleMine(id, r);
    KeepKeeps(t.forward, mine);
    var rest := Keep(t.forward, mine);
    forall c, i | Mine(id, c) && 0 <= i < |rest| ensures rest[i].target != Jump(c) {
      assert !mine(rest[i]);
    }
  }

  lemma FreshName(base: map<string, seq<Rule>>, id: string, ps: seq<seq<Container>>, index: nat)
    requires 1 <= index <= |ps|
    ensures ChainName(id, index) in ChainsBuilt(base, id, ps, index - 1) <==> ChainName(id, index) in base
  {
    OnlyEarlierNames(base, id, ps, index - 1, index);
  }

  lemma {:induction false} OnlyEarlierNames(base: map<string, seq<Rule>>, id: string, ps: seq<seq<Container>>,
                                            n: nat, index: nat)
    requires n < index <= |ps|
    ensures ChainName(id, index) in ChainsBuilt(base, id, ps, n) <==> ChainName(id, index) in base
  {
    hide ChainName, DropsOthers;
    if n > 0 {
      OnlyEarlierNames(base, id, ps, n - 1, index);
      if ChainName(id, index) == ChainName(id, n) { NamesDiffer(id, index, n); }
    }
  }

  // ---------- reading a partition back ----------

  const ANYWHERE := "0.0.0.0/0"

  function SourceText(r: Rule): Ip {
    if r.src.Some? then r.src.value else ANYWHERE
  }

  /** Later lines override earlier ones. */
  function SourceChains(id: string, rules: seq<Rule>): map<Ip, int> {
    if rules == [] then map[]
    else
      var before, last := SourceChains(id, rules[..|rules| - 1]), rules[|rules| - 1];
      var index := ParseIndex(id, TargetName(last.target));
      if index.Some? then before[SourceText(last) := index.value] else before
  }

  ghost predicate Lists(id: string, r: Rule, ip: Ip, index: int) {
    SourceText(r) == ip && ParseIndex(id, TargetName(r.target)) == Some(index)
  }

  lemma {:induction false} SourceChainFrom(id: string, rules: seq<Rule>, ip: Ip) returns (i: nat)
    requires ip in SourceChains(id, rules)
    ensures i < |rules| && Lists(id, rules[i], ip, SourceChains(id, rules)[ip])
  {
    hide ParseIndex, TargetName, SourceText;
    var n := |rules| - 1;
    if Lists(id, rules[n], ip, SourceChains(id, rules)[ip]) {
      i := n;
    } else {
      i := SourceChainFrom(id, rules[..n], ip);
    }
  }

  lemma {:induction false} SourceChainHas(id: string, rules: seq<Rule>, i: nat, ip: Ip, index: int)
    requires i < |rules| && Lists(id, rules[i], ip, index)
    ensures ip in SourceChains(id, rules)
  {
    hide ParseIndex, TargetName, SourceText;
    var n := |rules| - 1;
    if i < n { SourceChainHas(id, rules[..n], i, ip, index); }
  }

  /** No address in two partitions. */
  ghost predicate DistinctIps(ps: seq<seq<Container>>) {
    forall i, j, ip :: 0 <= i < |ps| && 0 <= j < |ps| && HasIp(ps[i], ip) && HasIp(ps[j], ip) ==> i == j
  }

  /** Each container's address is mapped to the number of its partition, and nothing else is. */
  lemma SourceChainsOfPartition(base: Tables, id: string, ps: seq<seq<Container>>, ip: Ip, k: int)
    requires Foreign(base, id) && |ps| > 1 && DistinctIps(ps)
    ensures var m := SourceChains(id, Partitioned(base, id, ps).forward);
      ip in m && m[ip] == k <==> 1 <= k <= |ps| && HasIp(ps[k - 1], ip)
  {
    hide *;
    var rules := JumpsAll(id, ps, |ps|) + base.forward;
    var m := SourceChains(id, rules);
    assert Partitioned(base, id, ps).forward == rules by { ForwardOf(base, id, ps); }
    if ip in m {
      var i := SourceChainFrom(id, rules, ip);
      ListedJump(base, id, ps, rules[i], ip, m[ip]);
    }
    if 1 <= k <= |ps| && HasIp(ps[k - 1], ip) {
      JumpListed(base, id, ps, ip, k);
      SameGroup(ps, ip, m[ip] - 1, k - 1);
    }
  }

  lemma ForwardOf(base: Tables, id: string, ps: seq<seq<Container>>)
    requires |ps| > 1
    ensures Partitioned(base, id, ps).forward == JumpsAll(id, ps, |ps|) + base.forward
  {
  }

  lemma SameGroup(ps: seq<seq<Container>>, ip: Ip, i: nat, j: nat)
    requires DistinctIps(ps) && i < |ps| && j < |ps| && HasIp(ps[i], ip) && HasIp(ps[j], ip)
    ensures i == j
  {
  }

  lemma JumpListed(base: Tables, id: string, ps: seq<seq<Container>>, ip: Ip, k: nat)
    requires 1 <= k <= |ps| && HasIp(ps[k - 1], ip)
    ensures ip in SourceChains(id, JumpsAll(id, ps, |ps|) + base.forward)
  {
    hide ChainName, ParseIndex, SourceChains, JumpsAll;
    var jumps, r := JumpsAll(id, ps, |ps|), JumpFrom(ip, ChainName(id, k));
    ParseChainName(id, id, k);
    assert JumpOf(id, ps, k, r);
    JumpsAllAre(id, ps, |ps|, r);
    var i :| 0 <= i < |jumps| && jumps[i] == r;
    assert Lists(id, (jumps + base.forward)[i], ip, k);
    SourceChainHas(id, jumps + base.forward, i, ip, k);
  }

  lemma ListedJump(base: Tables, id: string, ps: seq<seq<Container>>, r: Rule, ip: Ip, index: int)
    requires Foreign(base, id) && r in JumpsAll(id, ps, |ps|) + base.forward && Lists(id, r, ip, index)
    ensures 1 <= index <= |ps| && HasIp(ps[index - 1], ip)
  {
    hide ChainName, ParseIndex, JumpsAll, Referenced;
    forall i | 0 <= i < |base.forward| ensures base.forward[i] != r {
      assert !RuleMine(id, base.forward[i]);
    }
    JumpsAllAre(id, ps, |ps|, r);
    var n: nat :| n <= |ps| && JumpOf(id, ps, n, r);
    ParseChainName(id, id, n);
  }

  // ---------- from names to partitions ----------

  datatype Expansion = Expanded(groups: seq<set<string>>) | UnknownNames | Overlapping

  ghost function Union(ps: seq<set<string>>): set<string> {
    if ps == [] then {} else Union(ps[..|ps| - 1]) + ps[|ps| - 1]
  }

  ghost predicate Disjoint(ps: seq<set<string>>) {
    forall i, j :: 0 <= i < j < |ps| ==> ps[i] !! ps[j]
  }

  ghost predicate KnownUpTo(names: set<string>, ps: seq<set<string>>, n: nat) {
    forall i :: 0 <= i < |ps| && i < n ==> ps[i] <= names
  }

  lemma NextKnown(names: set<string>, ps: seq<set<string>>, n: nat, unknown: set<string>)
    requires n < |ps| && (unknown == {} <==> KnownUpTo(names, ps, n))
    ensures unknown + (ps[n] - names) == {} <==> KnownUpTo(names, ps, n + 1)
  {
    NoDifference(ps[n], names);
    NoUnion(unknown, ps[n] - names);
  }

  /** None of the first n is touched by a later one. */
  ghost predicate ApartUpTo(ps: seq<set<string>>, n: nat) {
    forall i, j :: 0 <= i < j < |ps| && i < n ==> ps[i] !! ps[j]
  }

  ghost predicate ApartFrom(ps: seq<set<string>>, n: nat, k: nat)
    requires n < |ps|
  {
    forall j :: n < j < |ps| && j < k ==> ps[n] !! ps[j]
  }

  lemma NextApart(ps: seq<set<string>>, n: nat)
    requires n < |ps|
    ensures ApartUpTo(ps, n + 1) <==> ApartUpTo(ps, n) && ApartFrom(ps, n, |ps|)
    ensures ApartFrom(ps, n, n + 1)
  {
    if ApartUpTo(ps, n) && ApartFrom(ps, n, |ps|) {
      forall i, j | 0 <= i < j < |ps| && i < n + 1 ensures ps[i] !! ps[j] { }
    }
  }

  lemma NextOverlap(ps: seq<set<string>>, n: nat, k: nat, overlap: set<string>)
    requires n < k < |ps|
    ensures overlap + ps[n] * ps[k] == {} <==> overlap == {} && ps[n] !! ps[k]
    ensures ApartFrom(ps, n, k + 1) <==> ApartFrom(ps, n, k) && ps[n] !! ps[k]
  {
    NoUnion(overlap, ps[n] * ps[k]);
    NoOverlap(ps[n], ps[k]);
  }

  lemma NextUnion(ps: seq<set<string>>, n: nat)
    requires n < |ps|
    ensures Union(ps[..n + 1]) == Union(ps[..n]) + ps[n]
  {
    assert ps[..n + 1][..n] == ps[..n];
  }

  lemma UnionWith(ps: seq<set<string>>, rest: set<string>)
    ensures Union(ps + [rest]) == Union(ps) + rest
  {
    assert (ps + [rest])[..|ps|] == ps;
  }

  lemma DisjointWith(ps: seq<set<string>>, rest: set<string>)
    requires Disjoint(ps) && Union(ps) !! rest
    ensures Disjoint(ps + [rest])
  {
    forall i | 0 <= i < |ps| ensures ps[i] !! rest { InUnion(ps, i); }
  }

  lemma NothingYet(names: set<string>, ps: seq<set<string>>)
    ensures KnownUpTo(names, ps, 0) && ApartUpTo(ps, 0) && Union(ps[..0]) == {}
  {
  }

  lemma Validated(names: set<string>, ps: seq<set<string>>)
    ensures KnownUpTo(names, ps, |ps|) <==> forall p :: p in ps ==> p <= names
    ensures ApartUpTo(ps, |ps|) <==> Disjoint(ps)
  {
  }

  lemma Leftover(names: set<string>, ps: seq<set<string>>)
    requires KnownUpTo(names, ps, |ps|) && Disjoint(ps)
    ensures var rest := names - Union(ps);
      if rest == {} then Union(ps) == names
      else Union(ps) != names && Union(ps + [rest]) == names && Disjoint(ps + [rest])
  {
    var union, rest := Union(ps), names - Union(ps);
    UnionKnown(ps, names);
    UnionWith(ps, rest);
    DisjointWith(ps, rest);
    hide Union, Disjoint, KnownUpTo;
    assert union + rest == names;
    if rest == {} { NoDifference(names, union); } else { assert union != names; }
  }

  /** expand_partitions: names nobody mentions form one more partition. */
  method ExpandPartitions(names: set<string>, partitions: seq<set<string>>) returns (r: Expansion)
    ensures r == UnknownNames <==> exists p :: p in partitions && !(p <= names)
    ensures r == Overlapping <==> (forall p :: p in partitions ==> p <= names) && !Disjoint(partitions)
    ensures r.Expanded? ==> Disjoint(r.groups) && Union(r.groups) == names
    ensures r.Expanded? ==>
      r.groups == if Union(partitions) == names then partitions else partitions + [names - Union(partitions)]
  {
    var unknown, overlap, union := {}, {}, {};
    NothingYet(names, partitions);
    Validated(names, partitions);
    hide Union, Disjoint, KnownUpTo, ApartUpTo, ApartFrom;
    for index := 0 to |partitions|
      invariant unknown == {} <==> KnownUpTo(names, partitions, index)
      invariant overlap == {} <==> ApartUpTo(partitions, index)
      invariant union == Union(partitions[..index])
    {
      var partition := partitions[index];
      NextKnown(names, partitions, index, unknown);
      NextUnion(partitions, index);
      NextApart(partitions, index);
      unknown := unknown + (partition - names);
      union := union + partition;
      ghost var before := overlap;
      for k := index + 1 to |partitions|
        invariant overlap == {} <==> before == {} && ApartFrom(partitions, index, k)
      {
        NextOverlap(partitions, index, k, overlap);
        overlap := overlap + partition * partitions[k];
      }
    }
    assert partitions[..|partitions|] == partitions;
    if unknown != {} {
      return UnknownNames;
    }
    if overlap != {} {
      return Overlapping;
    }
    Leftover(names, partitions);
    var leftover := names - union;
    return Expanded(if leftover != {} then partitions + [leftover] else partitions);
  }

  lemma NoDifference(a: set<string>, b: set<string>)
    ensures a - b == {} <==> a <= b
  {
    forall x | x in a ensures x in a - b || x in b { }
  }

  lemma NoOverlap(a: set<string>, b: set<string>)
    ensures a * b == {} <==> a !! b
  {
    forall x | x in a && x in b ensures x in a * b { }
  }

  lemma NoUnion(a: set<string>, b: set<string>)
    ensures a + b == {} <==> a == {} && b == {}
  {
    assert a <= a + b && b <= a + b;
  }

  lemma {:induction false} UnionKnown(ps: seq<set<string>>, names: set<string>)
    requires forall i :: 0 <= i < |ps| ==> ps[i] <= names
    ensures Union(ps) <= names
  {
    if ps != [] { UnionKnown(ps[..|ps| - 1], names); }
  }

  lemma {:induction false} InUnion(ps: seq<set<string>>, i: nat)
    requires i < |ps|
    ensures ps[i] <= Union(ps)
  {
    if i < |ps| - 1 { InUnion(ps[..|ps| - 1], i); }
  }

  lemma {:induction false} SomewhereInUnion(ps: seq<set<string>>, x: string) returns (i: nat)
    requires x in Union(ps)
    ensures i < |ps| && x in ps[i]
  {
    if x in ps[|ps| - 1] { i := |ps| - 1; } else { i := SomewhereInUnion(ps[..|ps| - 1], x); }
  }

  ghost predicate SameGroupName(groups: seq<set<string>>, a: string, b: string) {
    exists i :: 0 <= i < |groups| && a in groups[i] && b in groups[i]
  }

  /** The containers of a group, in some order. */
  ghost predicate ListsGroup(running: map<string, Container>, group: set<string>, cs: seq<Container>) {
    forall c :: c in cs <==> exists n :: n in group && n in running && running[n] == c
  }

  method ListGroup(running: map<string, Container>, group: set<string>) returns (cs: seq<Container>)
    requires group <= running.Keys
    ensures ListsGroup(running, group, cs)
  {
    cs := [];
    var todo := group;
    while todo != {}
      invariant todo <= group && ListsGroup(running, group - todo, cs)
      decreases todo
    {
      var n :| n in todo;
      ghost var done := group - todo;
      assert forall c :: c in cs + [running[n]] <==> c in cs || c == running[n];
      cs := cs + [running[n]];
      todo := todo - {n};
      assert forall m :: m in group - todo <==> m in done || m == n;
    }
    assert group - todo == group;
  }

  /** No two running containers have one address. */
  ghost predicate OwnAddresses(running: map<string, Container>) {
    forall m, n :: m in running && n in running && running[m].ip.Some? && running[m].ip == running[n].ip ==> m == n
  }

  /** The packet goes from one running container to another, and no group has both. */
  ghost predicate Apart(running: map<string, Container>, groups: seq<set<string>>, p: Packet) {
    exists a, b :: Between(running, p, a, b) && !SameGroupName(groups, a, b)
  }

  ghost predicate Between(running: map<string, Container>, p: Packet, a: string, b: string) {
    a in running && b in running && running[a].ip == Some(p.src) && running[b].ip == Some(p.dst)
  }

  /** Two running containers are separated exactly if no group has both. */
  lemma SeparatedByGroups(running: map<string, Container>, groups: seq<set<string>>, ps: seq<seq<Container>>,
                          a: string, b: string, p: Packet)
    requires OwnAddresses(running) && Disjoint(groups) && Union(groups) == running.Keys && |ps| == |groups|
    requires forall i :: 0 <= i < |groups| ==> ListsGroup(running, groups[i], ps[i])
    requires Between(running, p, a, b)
    ensures Separated(ps, p) <==> !SameGroupName(groups, a, b)
  {
    var i := SomewhereInUnion(groups, a);
    var j := SomewhereInUnion(groups, b);
    GroupHasIp(running, groups, ps, a, p.src, i);
    GroupHasIp(running, groups, ps, b, p.dst, j);
    if i != j { assert ElsewhereIp(ps, i, |ps|, p.dst); }
  }

  /** So the partitions separate exactly the packets between running containers of different groups. */
  lemma SeparatedIffApart(running: map<string, Container>, groups: seq<set<string>>, ps: seq<seq<Container>>, p: Packet)
    requires OwnAddresses(running) && Disjoint(groups) && Union(groups) == running.Keys && |ps| == |groups|
    requires forall i :: 0 <= i < |groups| ==> ListsGroup(running, groups[i], ps[i])
    ensures Separated(ps, p) <==> Apart(running, groups, p)
  {
    if Separated(ps, p) {
      var i :| 0 <= i < |ps| && HasIp(ps[i], p.src) && ElsewhereIp(ps, i, |ps|, p.dst);
      var j :| 0 <= j < |ps| && j != i && HasIp(ps[j], p.dst);
      var a := NameOf(running, groups[i], ps[i], p.src);
      var b := NameOf(running, groups[j], ps[j], p.dst);
      assert Between(running, p, a, b);
      SeparatedByGroups(running, groups, ps, a, b, p);
    }
    if Apart(running, groups, p) {
      var a, b :| Between(running, p, a, b) && !SameGroupName(groups, a, b);
      SeparatedByGroups(running, groups, ps, a, b, p);
    }
  }

  lemma NameOf(running: map<string, Container>, group: set<string>, cs: seq<Container>, ip: Ip) returns (n: string)
    requires ListsGroup(running, group, cs) && HasIp(cs, ip)
    ensures n in group && n in running && running[n].ip == Some(ip)
  {
    var m :| 0 <= m < |cs| && cs[m].ip == Some(ip);
    assert cs[m] in cs;
    n :| n in group && n in running && running[n] == cs[m];
  }

  /** The address of a container is listed for its own group only. */
  lemma GroupHasIp(running: map<string, Container>, groups: seq<set<string>>, ps: seq<seq<Container>>,
                   n: string, ip: Ip, i: nat)
    requires OwnAddresses(running) && Disjoint(groups) && |ps| == |groups| && i < |groups|
    requires forall k :: 0 <= k < |groups| ==> ListsGroup(running, groups[k], ps[k])
    requires n in running && n in groups[i] && running[n].ip == Some(ip)
    ensures forall k :: 0 <= k < |ps| ==> (HasIp(ps[k], ip) <==> k == i)
    ensures forall k :: 0 <= k < |ps| ==> (n in groups[k] <==> k == i)
  {
    forall k | 0 <= k < |ps|
      ensures n in groups[k] <==> k == i
      ensures HasIp(ps[k], ip) <==> k == i
    {
      if HasIp(ps[k], ip) {
        var m :| 0 <= m < |ps[k]| && ps[k][m].ip == Some(ip);
        assert ps[k][m] in ps[k];
        var other :| other in groups[k] && other in running && running[other] == ps[k][m];
        assert other == n;
      }
      if k == i { assert running[n] in ps[i]; }
    }
  }

  class Blockade {
    const net: BlockadeNetwork
    const id: string

    constructor (net: BlockadeNetwork, id: string)
      ensures this.net == net && this.id == id
    {
      this.net, this.id := net, id;
    }

    /** Blockade.partition: afterwards a packet is dropped if it goes from one running container to
        another and no expanded partition has both, and any other packet fares as in the cleared
        tables.  It fails on a container without an address, unless there is one partition only. */
    method Partition(running: map<string, Container>, partitions: seq<set<string>>) returns (r: Expansion, ok: bool)
      requires OwnAddresses(running)
      modifies net.ipt
      ensures !r.Expanded? ==> !ok && net.ipt.tables == old(net.ipt.tables)
      ensures r.Expanded? ==> Disjoint(r.groups) && Union(r.groups) == running.Keys && partitions <= r.groups
      ensures Clearable(old(net.ipt.tables), id) && r.Expanded? ==> (ok <==> |r.groups| <= 1 || AllHaveIps(running))
      ensures Clearable(old(net.ipt.tables), id) && ok ==>
        KeepsApart(old(net.ipt.tables), net.ipt.tables, id, running, r.groups) && Clearable(net.ipt.tables, id)
    {
      hide ListsGroup, HaveIps, OwnAddresses, Disjoint, Union, Clearable, KeepsApart, Partitioned, Cleared;
      r := ExpandPartitions(running.Keys, partitions);
      ok := false;
      if !r.Expanded? {
        return;
      }
      var ps: seq<seq<Container>> := [];
      for i := 0 to |r.groups|
        invariant |ps| == i && net.ipt.tables == old(net.ipt.tables)
        invariant forall k :: 0 <= k < i ==> ListsGroup(running, r.groups[k], ps[k])
      {
        InUnion(r.groups, i);
        var cs := ListGroup(running, r.groups[i]);
        ps := ps + [cs];
      }
      GroupsHaveIps(running, r.groups, ps);
      ok := net.Repartition(id, ps);
      if Clearable(old(net.ipt.tables), id) { CompiledKeepsApart(old(net.ipt.tables), id, running, r.groups, ps); }
    }

    /** Blockade.join */
    method Join() returns (ok: bool)
      modifies net.ipt
      ensures ok ==> net.ipt.tables == Cleared(old(net.ipt.tables), id)
      ensures Clearable(old(net.ipt.tables), id) ==> ok
    {
      ok := net.Clear(id);
    }
  }

  ghost predicate AllHaveIps(running: map<string, Container>) {
    forall n :: n in running ==> running[n].ip.Some?
  }

  lemma GroupsHaveIps(running: map<string, Container>, groups: seq<set<string>>, ps: seq<seq<Container>>)
    requires Union(groups) == running.Keys && |ps| == |groups|
    requires forall i :: 0 <= i < |groups| ==> ListsGroup(running, groups[i], ps[i])
    ensures (forall i :: 0 <= i < |ps| ==> HaveIps(ps[i])) <==> AllHaveIps(running)
  {
    if AllHaveIps(running) {
      forall i, j | 0 <= i < |ps| && 0 <= j < |ps[i]| ensures ps[i][j].ip.Some? { assert ps[i][j] in ps[i]; }
    }
    if forall i :: 0 <= i < |ps| ==> HaveIps(ps[i]) {
      forall n | n in running ensures running[n].ip.Some? {
        var i := SomewhereInUnion(groups, n);
        assert running[n] in ps[i];
      }
    }
  }

  ghost predicate KeepsApart(before: Tables, after: Tables, id: string,
                             running: map<string, Container>, groups: seq<set<string>>) {
    forall p: Packet, depth: nat :: depth > 0 ==>
      Eval(after, after.forward, p, depth)
      == if Apart(running, groups, p) then Drop else Eval(Cleared(before, id), Cleared(before, id).forward, p, depth)
  }

  lemma CompiledKeepsApart(before: Tables, id: string,
                           running: map<string, Container>, groups: seq<set<string>>, ps: seq<seq<Container>>)
    requires Clearable(before, id) && OwnAddresses(running) && Disjoint(groups) && Union(groups) == running.Keys
    requires |ps| == |groups| && forall i :: 0 <= i < |groups| ==> ListsGroup(running, groups[i], ps[i])
    ensures KeepsApart(before, Partitioned(Cleared(before, id), id, ps), id, running, groups)
  {
    hide Separated, Apart, OwnAddresses, Union, ListsGroup, Cleared, Eval, Foreign;
    var base := Cleared(before, id);
    var after := Partitioned(base, id, ps);
    ClearedIsForeign(before, id);
    forall p: Packet, depth: nat | depth > 0
      ensures Eval(after, after.forward, p, depth)
           == if Apart(running, groups, p) then Drop else Eval(base, base.forward, p, depth)
    {
      if |ps| > 1 {
        PartitionSeparates(base, id, ps, p, depth);
        SeparatedIffApart(running, groups, ps, p);
      } else {
        NothingApart(running, groups, p);
      }
    }
  }

  lemma NothingApart(running: map<string, Container>, groups: seq<set<string>>, p: Packet)
    requires Union(groups) == running.Keys && |groups| <= 1
    ensures !Apart(running, groups, p)
  {
    if a, b :| Between(running, p, a, b) && !SameGroupName(groups, a, b) { OneGroup(running, groups, a, b); }
  }

  lemma OneGroup(running: map<string, Container>, groups: seq<set<string>>, a: string, b: string)
    requires Union(groups) == running.Keys && |groups| <= 1 && a in running && b in running
    ensures SameGroupName(groups, a, b)
  {
    var i := SomewhereInUnion(groups, a);
    var j := SomewhereInUnion(groups, b);
  }
}
