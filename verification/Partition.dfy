/** Compiling a partition of containers into filter chains, and taking it back. */
module Partition {
  import opened Text
  import opened PacketFilter

  datatype Container = Container(name: string, ip: Option<Ip>)

  // ---------- chain names ----------

  function ChainName(id: string, index: nat): string {
    id + "-p" + Format(index)
  }

  /** parse_partition_index; None stands for its ValueError. */
  function ParseIndex(id: string, chain: string): Option<int> {
    if id + "-p" <= chain then ParseInt(chain[|id| + 2..]) else None
  }

  predicate Mine(id: string, chain: string) {
    ParseIndex(id, chain).Some?
  }

  /** A chain name is read back by its own blockade, with its index, and by no other. */
  lemma ParseChainName(id: string, other: string, index: nat)
    ensures ParseIndex(id, ChainName(other, index)) == if id == other then Some(index) else None
  {
    var chain, n := ChainName(other, index), Format(index);
    assert chain == other + ("-p" + n);
    if id == other {
      OwnChainName(id, index);
    } else {
      hide ParseInt, Format, ChainName;
      if |id| == |other| {
        assert chain[..|other|] == other && (id + "-p")[..|id|] == id;
        PrefixOfPrefix(id + "-p", chain, |id|);
      } else if |id| > |other| {
        TailHasNoDash(other, n);
        assert (id + "-p")[|id|] == '-';
      } else {
        assert chain[|other| + 1] == 'p';
        NoIntBehind(chain, |id| + 2, |other| + 1);
      }
    }
  }

  lemma OwnChainName(id: string, index: nat)
    ensures ParseIndex(id, ChainName(id, index)) == Some(index)
  {
    var chain, n := ChainName(id, index), Format(index);
    assert chain == id + "-p" + n;
    NumberOfFormat(index);
    assert id + "-p" <= chain && chain[|id| + 2..] == n;
    assert IsDigit(n[0]);
  }

  lemma PrefixOfPrefix(a: string, b: string, n: nat)
    requires n <= |a| && n <= |b|
    ensures a <= b ==> a[..n] == b[..n]
  {
  }

  lemma TailHasNoDash(other: string, n: string)
    requires forall i :: 0 <= i < |n| ==> IsDigit(n[i])
    ensures forall j :: |other| < j < |other + ("-p" + n)| ==> (other + ("-p" + n))[j] != '-'
  {
    var chain := other + ("-p" + n);
    assert forall j :: |other| + 1 < j < |chain| ==> chain[j] == n[j - |other| - 2];
  }

  lemma NoIntBehind(s: string, from: nat, i: nat)
    requires from <= i < |s| && s[i] == 'p'
    ensures ParseInt(s[from..]) == None
  {
    var t := s[from..];
    var digits := if t[0] == '-' || t[0] == '+' then t[1..] else t;
    assert t[i - from] == 'p' && !IsDigit('p');
    var k := |digits| - |t| + i - from;
    assert digits[k] == 'p' && !AllDigits(digits);
  }

  function TargetName(t: Target): string {
    match t
    case DROP => "DROP"
    case ACCEPT => "ACCEPT"
    case RETURN => "RETURN"
    case Jump(c) => c
    case Other(n) => n
  }

  /** The predicate of iptables_delete_blockade_rules. */
  predicate RuleMine(id: string, r: Rule) {
    Mine(id, TargetName(r.target))
  }

  // ---------- the tables of a partition ----------

  function DropTo(ip: Ip): Rule {
    Rule(None, Some(ip), None, DROP)
  }

  function JumpFrom(ip: Ip, chain: string): Rule {
    Rule(Some(ip), None, None, Jump(chain))
  }

  /** What inserting a drop for each container in turn puts in front of a chain. */
  function Drops(cs: seq<Container>): seq<Rule> {
    if cs == [] then []
    else Drops(cs[1..]) + (if cs[0].ip.Some? then [DropTo(cs[0].ip.value)] else [])
  }

  /** The drops for the first n partitions but the i-th. */
  function DropsOthers(ps: seq<seq<Container>>, i: nat, n: nat): seq<Rule>
    requires n <= |ps|
  {
    if n == 0 then []
    else (if n - 1 == i then [] else Drops(ps[n - 1])) + DropsOthers(ps, i, n - 1)
  }

  ghost predicate HaveIps(cs: seq<Container>) {
    forall i :: 0 <= i < |cs| ==> cs[i].ip.Some?
  }

  /** Jumps for the containers that have an address, in the order of the chain. */
  function Jumps(cs: seq<Container>, chain: string): seq<Rule> {
    if cs == [] then []
    else Jumps(cs[1..], chain) + (if cs[0].ip.Some? then [JumpFrom(cs[0].ip.value, chain)] else [])
  }

  /** The jumps into the chains of the first n partitions, numbered from 1. */
  function JumpsAll(id: string, ps: seq<seq<Container>>, n: nat): seq<Rule>
    requires n <= |ps|
  {
    if n == 0 then [] else Jumps(ps[n - 1], ChainName(id, n)) + JumpsAll(id, ps, n - 1)
  }

  /** The chains after the first n partitions have been compiled. */
  function ChainsBuilt(base: map<string, seq<Rule>>, id: string, ps: seq<seq<Container>>, n: nat)
    : map<string, seq<Rule>>
    requires n <= |ps|
  {
    if n == 0 then base else ChainsBuilt(base, id, ps, n - 1)[ChainName(id, n) := DropsOthers(ps, n - 1, |ps|)]
  }

  function Built(base: Tables, id: string, ps: seq<seq<Container>>, n: nat): Tables
    requires n <= |ps|
  {
    Tables(JumpsAll(id, ps, n) + base.forward, ChainsBuilt(base.chains, id, ps, n))
  }

  /** One or no partition: nothing to keep apart. */
  function Partitioned(base: Tables, id: string, ps: seq<seq<Container>>): Tables {
    if |ps| <= 1 then base else Built(base, id, ps, |ps|)
  }

  /** Nothing of blockade id is in the tables. */
  ghost predicate Foreign(t: Tables, id: string) {
    && (forall i :: 0 <= i < |t.forward| ==> !RuleMine(id, t.forward[i]))
    && (forall c :: c in t.chains ==> !Mine(id, c))
    && (forall c :: Mine(id, c) ==> !Referenced(t, c))
  }

  ghost predicate BuiltName(id: string, n: nat, c: string) {
    exists k: nat :: 1 <= k <= n && c == ChainName(id, k)
  }

  lemma NameMine(id: string, k: nat)
    ensures Mine(id, ChainName(id, k))
  {
    ParseChainName(id, id, k);
  }

  lemma BuiltNameMine(id: string, n: nat, c: string)
    requires BuiltName(id, n, c)
    ensures Mine(id, c)
  {
    var k: nat :| 1 <= k <= n && c == ChainName(id, k);
    NameMine(id, k);
  }

  lemma NamesDiffer(id: string, j: nat, k: nat)
    requires ChainName(id, j) == ChainName(id, k)
    ensures j == k
  {
    ParseChainName(id, id, j);
    ParseChainName(id, id, k);
  }

  /** The old chains stay as they are, and the new ones are the partitions'. */
  lemma {:induction false} ChainsKept(base: map<string, seq<Rule>>, id: string, ps: seq<seq<Container>>,
                                      n: nat, c: string)
    requires n <= |ps| && forall b :: b in base ==> !Mine(id, b)
    ensures c in base ==> c in ChainsBuilt(base, id, ps, n) && ChainsBuilt(base, id, ps, n)[c] == base[c]
    ensures c in ChainsBuilt(base, id, ps, n) && c !in base ==> BuiltName(id, n, c)
  {
    hide ChainName, Mine, DropsOthers;
    if n > 0 {
      ChainsKept(base, id, ps, n - 1, c);
      NameMine(id, n);
      assert c == ChainName(id, n) || BuiltName(id, n - 1, c) ==> BuiltName(id, n, c);
    }
  }

  /** The chain of each partition drops what goes to any other. */
  lemma {:induction false} ChainsOwn(base: map<string, seq<Rule>>, id: string, ps: seq<seq<Container>>, n: nat, k: nat)
    requires 1 <= k <= n <= |ps|
    ensures ChainName(id, k) in ChainsBuilt(base, id, ps, n)
    ensures ChainsBuilt(base, id, ps, n)[ChainName(id, k)] == DropsOthers(ps, k - 1, |ps|)
  {
    hide ChainName, DropsOthers;
    if k < n {
      ChainsOwn(base, id, ps, n - 1, k);
      if ChainName(id, k) == ChainName(id, n) { NamesDiffer(id, k, n); }
    }
  }

  // ---------- what the rules are ----------

  ghost predicate HasIp(cs: seq<Container>, ip: Ip) {
    exists i :: 0 <= i < |cs| && cs[i].ip == Some(ip)
  }

  /** ip belongs to one of the first n partitions other than the i-th. */
  ghost predicate ElsewhereIp(ps: seq<seq<Container>>, i: nat, n: nat, ip: Ip) {
    exists j :: 0 <= j < n && j < |ps| && j != i && HasIp(ps[j], ip)
  }

  lemma {:induction false} DropsMatch(cs: seq<Container>, p: Packet)
    ensures AllDrop(Drops(cs)) && (SomeMatch(Drops(cs), p) <==> HasIp(cs, p.dst))
  {
    if cs != [] {
      var rest, last := Drops(cs[1..]), if cs[0].ip.Some? then [DropTo(cs[0].ip.value)] else [];
      DropsMatch(cs[1..], p);
      MatchConcat(rest, last, p);
      HasIpFirst(cs, p.dst);
      if last != [] { assert Matches(last[0], p) <==> cs[0].ip == Some(p.dst); }
    }
  }

  lemma HasIpFirst(cs: seq<Container>, ip: Ip)
    requires cs != []
    ensures HasIp(cs, ip) <==> cs[0].ip == Some(ip) || HasIp(cs[1..], ip)
  {
    if HasIp(cs[1..], ip) {
      var i :| 0 <= i < |cs[1..]| && cs[1..][i].ip == Some(ip);
      assert cs[i + 1].ip == Some(ip);
    }
    if i :| 0 < i < |cs| && cs[i].ip == Some(ip) { assert cs[1..][i - 1].ip == Some(ip); }
  }

  lemma MatchConcat(a: seq<Rule>, b: seq<Rule>, p: Packet)
    ensures SomeMatch(a + b, p) <==> SomeMatch(a, p) || SomeMatch(b, p)
    ensures AllDrop(a) && AllDrop(b) ==> AllDrop(a + b)
  {
    if SomeMatch(a, p) {
      var i :| 0 <= i < |a| && Matches(a[i], p);
      assert Matches((a + b)[i], p);
    }
    if SomeMatch(b, p) {
      var i :| 0 <= i < |b| && Matches(b[i], p);
      assert Matches((a + b)[|a| + i], p);
    }
  }

  lemma {:induction false} DropsOthersMatch(ps: seq<seq<Container>>, i: nat, n: nat, p: Packet)
    requires n <= |ps|
    ensures AllDrop(DropsOthers(ps, i, n)) && (SomeMatch(DropsOthers(ps, i, n), p) <==> ElsewhereIp(ps, i, n, p.dst))
  {
    if n > 0 {
      DropsOthersMatch(ps, i, n - 1, p);
      DropsMatch(ps[n - 1], p);
      MatchConcat(if n - 1 == i then [] else Drops(ps[n - 1]), DropsOthers(ps, i, n - 1), p);
      assert ElsewhereIp(ps, i, n, p.dst)
        <==> (n - 1 != i && HasIp(ps[n - 1], p.dst)) || ElsewhereIp(ps, i, n - 1, p.dst);
    }
  }

  /** The rules that Jumps makes. */
  lemma {:induction false} JumpsAre(cs: seq<Container>, chain: string, r: Rule)
    ensures r in Jumps(cs, chain) <==> r.src.Some? && r == JumpFrom(r.src.value, chain) && HasIp(cs, r.src.value)
  {
    if cs != [] {
      JumpsAre(cs[1..], chain, r);
      if r.src.Some? { HasIpFirst(cs, r.src.value); }
    }
  }

  ghost predicate JumpOf(id: string, ps: seq<seq<Container>>, k: nat, r: Rule) {
    1 <= k <= |ps| && r.src.Some? && r == JumpFrom(r.src.value, ChainName(id, k)) && HasIp(ps[k - 1], r.src.value)
  }

  lemma {:induction false} JumpsAllAre(id: string, ps: seq<seq<Container>>, n: nat, r: Rule)
    requires n <= |ps|
    ensures r in JumpsAll(id, ps, n) <==> exists k: nat :: k <= n && JumpOf(id, ps, k, r)
  {
    hide ChainName;
    if n > 0 {
      JumpsAllAre(id, ps, n - 1, r);
      JumpsAre(ps[n - 1], ChainName(id, n), r);
      assert r in Jumps(ps[n - 1], ChainName(id, n)) <==> JumpOf(id, ps, n, r);
    }
  }

  // ---------- meaning ----------

  /** The packet goes from a container of one partition to one of another. */
  ghost predicate Separated(ps: seq<seq<Container>>, p: Packet) {
    exists i :: 0 <= i < |ps| && HasIp(ps[i], p.src) && ElsewhereIp(ps, i, |ps|, p.dst)
  }

  lemma JumpToDrops(base: Tables, id: string, ps: seq<seq<Container>>, k: nat, r: Rule, p: Packet)
    requires JumpOf(id, ps, k, r)
    ensures var t := Built(base, id, ps, |ps|);
      JumpsToDrops(t, r) && (JumpDrops(t, r, p) <==> r.src.value == p.src && ElsewhereIp(ps, k - 1, |ps|, p.dst))
  {
    hide ChainName, DropsOthers;
    ChainsOwn(base.chains, id, ps, |ps|, k);
    DropsOthersMatch(ps, k - 1, |ps|, p);
  }

  /** Whatever the tables held before: a packet is dropped if it goes from one partition to
      another, and otherwise fares exactly as before. */
  lemma PartitionSeparates(base: Tables, id: string, ps: seq<seq<Container>>, p: Packet, depth: nat)
    requires Foreign(base, id) && |ps| > 1 && depth > 0
    ensures var t := Partitioned(base, id, ps);
      Eval(t, t.forward, p, depth) == if Separated(ps, p) then Drop else Eval(base, base.forward, p, depth)
  {
    var t, jumps := Built(base, id, ps, |ps|), JumpsAll(id, ps, |ps|);
    forall i | 0 <= i < |jumps| ensures JumpsToDrops(t, jumps[i]) && (JumpDrops(t, jumps[i], p) ==> Separated(ps, p)) {
      JumpsAllAre(id, ps, |ps|, jumps[i]);
      var k: nat :| k <= |ps| && JumpOf(id, ps, k, jumps[i]);
      JumpToDrops(base, id, ps, k, jumps[i], p);
    }
    if i :| 0 <= i < |ps| && HasIp(ps[i], p.src) && ElsewhereIp(ps, i, |ps|, p.dst) {
      var r := JumpFrom(p.src, ChainName(id, i + 1));
      assert JumpOf(id, ps, i + 1, r);
      JumpsAllAre(id, ps, |ps|, r);
      JumpToDrops(base, id, ps, i + 1, r, p);
      var j :| 0 <= j < |jumps| && jumps[j] == r;
    }
    EvalJumps(t, jumps, base.forward, p, depth);
    NewChainsUnreferenced(base, id, ps);
    EvalIgnoresUnreferenced(base, t, base.forward, p, depth);
  }

  lemma NewChainsUnreferenced(base: Tables, id: string, ps: seq<seq<Container>>)
    requires Foreign(base, id)
    ensures forall c :: c in base.chains ==>
      c in Built(base, id, ps, |ps|).chains && Built(base, id, ps, |ps|).chains[c] == base.chains[c]
    ensures forall c :: c in Built(base, id, ps, |ps|).chains && c !in base.chains ==>
      !Referenced(base, c) && !JumpsTo(base.forward, c)
  {
    hide DropsOthers, ChainsBuilt, BuiltName, Mine;
    forall c
      ensures c in base.chains ==>
        c in Built(base, id, ps, |ps|).chains && Built(base, id, ps, |ps|).chains[c] == base.chains[c]
      ensures c in Built(base, id, ps, |ps|).chains && c !in base.chains ==> Mine(id, c)
    {
      ChainsKept(base.chains, id, ps, |ps|, c);
      if BuiltName(id, |ps|, c) { BuiltNameMine(id, |ps|, c); }
    }
  }

  // ---------- clearing ----------

  function ForeignChains(chains: map<string, seq<Rule>>, id: string): map<string, seq<Rule>> {
    map c | c in chains && !Mine(id, c) :: chains[c]
  }

  /** FORWARD without the blockade's rules, and no chain of the blockade. */
  function Cleared(t: Tables, id: string): Tables {
    Tables(Keep(t.forward, (r: Rule) => RuleMine(id, r)), ForeignChains(t.chains, id))
  }

  lemma {:induction false} KeepConcat(a: seq<Rule>, b: seq<Rule>, remove: Rule -> bool)
    ensures Keep(a + b, remove) == Keep(a, remove) + Keep(b, remove)
  {
    if a == [] {
      assert a + b == b;
    } else {
      assert (a + b)[1..] == a[1..] + b;
      KeepConcat(a[1..], b, remove);
    }
  }

  lemma {:induction false} KeepAll(a: seq<Rule>, remove: Rule -> bool)
    requires forall i :: 0 <= i < |a| ==> !remove(a[i])
    ensures Keep(a, remove) == a
  {
    if a != [] { KeepAll(a[1..], remove); }
  }

  lemma {:induction false} KeepNone(a: seq<Rule>, remove: Rule -> bool)
    requires forall i :: 0 <= i < |a| ==> remove(a[i])
    ensures Keep(a, remove) == []
  {
    if a != [] { KeepNone(a[1..], remove); }
  }

  /** Clearing takes a partition back, whatever it was. */
  lemma ClearUndoes(base: Tables, id: string, ps: seq<seq<Container>>)
    requires Foreign(base, id)
    ensures Cleared(Partitioned(base, id, ps), id) == base
  {
    hide ChainsBuilt, Referenced, ChainName, Mine, Keep;
    var mine := (r: Rule) => RuleMine(id, r);
    KeepAll(base.forward, mine);
    assert Cleared(base, id) == base;
    if |ps| > 1 {
      var jumps := JumpsAll(id, ps, |ps|);
      forall i | 0 <= i < |jumps| ensures mine(jumps[i]) {
        JumpsAllAre(id, ps, |ps|, jumps[i]);
        var k: nat :| k <= |ps| && JumpOf(id, ps, k, jumps[i]);
        NameMine(id, k);
      }
      KeepNone(jumps, mine);
      KeepConcat(jumps, base.forward, mine);
      assert [] + base.forward == base.forward;
      ChainsCleared(base, id, ps);
    }
  }

  lemma ChainsCleared(base: Tables, id: string, ps: seq<seq<Container>>)
    requires Foreign(base, id)
    ensures var chains := ChainsBuilt(base.chains, id, ps, |ps|);
      (map c | c in chains && !Mine(id, c) :: chains[c]) == base.chains
  {
    hide ChainsBuilt, BuiltName, Mine, RuleMine, Referenced;
    var chains := ChainsBuilt(base.chains, id, ps, |ps|);
    forall c
      ensures c in chains && !Mine(id, c) <==> c in base.chains
      ensures c in base.chains ==> c in chains && chains[c] == base.chains[c]
    {
      ChainsKept(base.chains, id, ps, |ps|, c);
      if BuiltName(id, |ps|, c) { BuiltNameMine(id, |ps|, c); }
    }
  }
}
