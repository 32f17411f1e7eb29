/** The filter tables that the partition compiler writes, the commands it uses on them, and what
    a packet meets in them. */
module PacketFilter {
  import opened Text

  type Ip = string

  datatype Target = DROP | ACCEPT | RETURN | Jump(chain: string) | Other(name: string)

  /** A rule's match (None: anything; flows stands for whatever else it looks at) and target. */
  datatype Rule = Rule(src: Option<Ip>, dst: Option<Ip>, flows: Option<set<nat>>, target: Target)

  /** The built-in FORWARD chain, and all other chains by name. */
  datatype Tables = Tables(forward: seq<Rule>, chains: map<string, seq<Rule>>)

  datatype Packet = Packet(src: Ip, dst: Ip, flow: nat)

  datatype Verdict = Accept | Drop | Through

  predicate Matches(r: Rule, p: Packet) {
    && (r.src.Some? ==> r.src.value == p.src)
    && (r.dst.Some? ==> r.dst.value == p.dst)
    && (r.flows.Some? ==> p.flow in r.flows.value)
  }

  /** Rules in order; a jump whose chain lets the packet through goes on behind it.  depth
      bounds the nesting of jumps; other targets, like LOG, decide nothing. */
  function Eval(t: Tables, rules: seq<Rule>, p: Packet, depth: nat): Verdict
    decreases depth, |rules|
  {
    if rules == [] then Through
    else if !Matches(rules[0], p) then Eval(t, rules[1..], p, depth)
    else
      match rules[0].target
      case DROP => Drop
      case ACCEPT => Accept
      case RETURN => Through
      case Jump(c) =>
        if c in t.chains && depth > 0 then
          var v := Eval(t, t.chains[c], p, depth - 1);
          if v == Through then Eval(t, rules[1..], p, depth) else v
        else Eval(t, rules[1..], p, depth)
      case Other(_) => Eval(t, rules[1..], p, depth)
  }

  ghost predicate JumpsTo(rules: seq<Rule>, chain: string) {
    exists i :: 0 <= i < |rules| && rules[i].target == Jump(chain)
  }

  ghost predicate Referenced(t: Tables, chain: string) {
    JumpsTo(t.forward, chain) || exists c :: c in t.chains && JumpsTo(t.chains[c], chain)
  }

  /** Chains that nothing jumps to do not matter. */
  lemma {:induction false} EvalIgnoresUnreferenced(t: Tables, u: Tables, rules: seq<Rule>, p: Packet, depth: nat)
    requires forall c :: c in t.chains ==> c in u.chains && u.chains[c] == t.chains[c]
    requires forall c :: c in u.chains && c !in t.chains ==> !Referenced(t, c) && !JumpsTo(rules, c)
    ensures Eval(u, rules, p, depth) == Eval(t, rules, p, depth)
    decreases depth, |rules|
  {
    if rules != [] {
      forall c | JumpsTo(rules[1..], c) ensures JumpsTo(rules, c) {
        var i :| 0 <= i < |rules[1..]| && rules[1..][i].target == Jump(c);
        assert rules[i + 1].target == Jump(c);
      }
      EvalIgnoresUnreferenced(t, u, rules[1..], p, depth);
      if rules[0].target.Jump? {
        var c := rules[0].target.chain;
        assert JumpsTo(rules, c);
        if c in t.chains && depth > 0 { EvalIgnoresUnreferenced(t, u, t.chains[c], p, depth - 1); }
      }
    }
  }

  /** A list of plain drops. */
  ghost predicate AllDrop(rules: seq<Rule>) {
    forall i :: 0 <= i < |rules| ==> rules[i].target == DROP
  }

  ghost predicate SomeMatch(rules: seq<Rule>, p: Packet) {
    exists i :: 0 <= i < |rules| && Matches(rules[i], p)
  }

  lemma {:induction false} EvalDrops(t: Tables, rules: seq<Rule>, p: Packet, depth: nat)
    requires AllDrop(rules)
    ensures Eval(t, rules, p, depth) == if SomeMatch(rules, p) then Drop else Through
  {
    if rules != [] {
      EvalDrops(t, rules[1..], p, depth);
      if SomeMatch(rules[1..], p) {
        var i :| 0 <= i < |rules[1..]| && Matches(rules[1..][i], p);
        assert Matches(rules[i + 1], p);
      }
      if i :| 0 < i < |rules| && Matches(rules[i], p) { assert Matches(rules[1..][i - 1], p); }
    }
  }

  /** A jump into a chain of drops that drops p. */
  ghost predicate JumpDrops(t: Tables, r: Rule, p: Packet) {
    Matches(r, p) && r.target.Jump? && r.target.chain in t.chains && SomeMatch(t.chains[r.target.chain], p)
  }

  ghost predicate JumpsToDrops(t: Tables, r: Rule) {
    r.target.Jump? && r.target.chain in t.chains && AllDrop(t.chains[r.target.chain])
  }

  /** Such jumps in front of other rules drop the packet, or leave it to those rules. */
  lemma {:induction false} EvalJumps(t: Tables, jumps: seq<Rule>, rules: seq<Rule>, p: Packet, depth: nat)
    requires depth > 0 && forall i :: 0 <= i < |jumps| ==> JumpsToDrops(t, jumps[i])
    ensures Eval(t, jumps + rules, p, depth)
         == if exists i :: 0 <= i < |jumps| && JumpDrops(t, jumps[i], p) then Drop else Eval(t, rules, p, depth)
  {
    if jumps == [] {
      assert jumps + rules == rules;
    } else {
      var first, rest := jumps[0], jumps[1..];
      assert (jumps + rules)[0] == first && (jumps + rules)[1..] == rest + rules;
      assert JumpsToDrops(t, first);
      EvalDrops(t, t.chains[first.target.chain], p, depth - 1);
      EvalJumps(t, rest, rules, p, depth);
      if i :| 0 <= i < |rest| && JumpDrops(t, rest[i], p) { assert JumpDrops(t, jumps[i + 1], p); }
      if i :| 0 < i < |jumps| && JumpDrops(t, jumps[i], p) { assert JumpDrops(t, rest[i - 1], p); }
    }
  }

  // ---------- commands ----------

  function Keep(rules: seq<Rule>, remove: Rule -> bool): seq<Rule> {
    if rules == [] then []
    else (if remove(rules[0]) then [] else [rules[0]]) + Keep(rules[1..], remove)
  }

  class Iptables {
    var tables: Tables

    constructor (tables: Tables)
      ensures this.tables == tables
    {
      this.tables := tables;
    }

    /** -N: fails if the chain exists. */
    method NewChain(chain: string) returns (ok: bool)
      modifies this
      ensures ok <==> chain !in old(tables).chains
      ensures tables == if ok then old(tables).(chains := old(tables).chains[chain := []]) else old(tables)
    {
      if chain in tables.chains {
        return false;
      }
      tables := tables.(chains := tables.chains[chain := []]);
      return true;
    }

    /** -I: the new rule becomes the first. */
    method Insert(chain: string, r: Rule)
      requires chain in tables.chains
      modifies this
      ensures tables == old(tables).(chains := old(tables).chains[chain := [r] + old(tables).chains[chain]])
    {
      tables := tables.(chains := tables.chains[chain := [r] + tables.chains[chain]]);
    }

    method InsertForward(r: Rule)
      modifies this
      ensures tables == old(tables).(forward := [r] + old(tables).forward)
    {
      tables := tables.(forward := [r] + tables.forward);
    }

    /** -D by position, counting from 1. */
    method DeleteForwardAt(index: nat)
      requires 1 <= index <= |tables.forward|
      modifies this
      ensures tables == old(tables).(forward := old(tables).forward[..index - 1] + old(tables).forward[index..])
    {
      tables := tables.(forward := tables.forward[..index - 1] + tables.forward[index..]);
    }

    /** -F */
    method Flush(chain: string)
      requires chain in tables.chains
      modifies this
      ensures tables == old(tables).(chains := old(tables).chains[chain := []])
    {
      tables := tables.(chains := tables.chains[chain := []]);
    }

    /** -X: fails on a chain that has rules, or that a rule still jumps to. */
    method DeleteChain(chain: string) returns (ok: bool)
      requires chain in tables.chains
      modifies this
      ensures ok <==> old(tables).chains[chain] == [] && !Referenced(old(tables), chain)
      ensures tables == if ok then old(tables).(chains := old(tables).chains - {chain}) else old(tables)
    {
      if tables.chains[chain] != []
        || (exists r :: r in tables.forward && r.target == Jump(chain))
        || (exists c :: c in tables.chains && exists r :: r in tables.chains[c] && r.target == Jump(chain))
      {
        return false;
      }
      tables := tables.(chains := tables.chains - {chain});
      return true;
    }

    /** iptables_delete_rules on FORWARD: positions from the last to the first, so that those
        still to be looked at do not move. */
    method DeleteForwardRules(remove: Rule -> bool)
      modifies this
      ensures tables == old(tables).(forward := Keep(old(tables).forward, remove))
    {
      var lines := tables.forward;
      assert lines[|lines|..] == [] && lines[..|lines|] + [] == lines;
      for index := |lines| downto 0
        invariant tables == old(tables).(forward := lines[..index] + Keep(lines[index..], remove))
      {
        ghost var kept := Keep(lines[index + 1..], remove);
        KeepOne(lines, index, remove);
        hide Keep;
        assert lines[..index + 1] == lines[..index] + [lines[index]];
        CutOut(lines[..index], lines[index], kept);
        if remove(lines[index]) {
          DeleteForwardAt(index + 1);
        }
      }
      assert lines[0..] == lines;
    }
  }

  lemma CutOut(before: seq<Rule>, r: Rule, after: seq<Rule>)
    ensures var all := before + [r] + after;
      && all[..|before|] + all[|before| + 1..] == before + after
      && all == before + ([r] + after) && before + ([] + after) == before + after
  {
  }

  lemma KeepOne(lines: seq<Rule>, i: nat, remove: Rule -> bool)
    requires i < |lines|
    ensures Keep(lines[i..], remove) == (if remove(lines[i]) then [] else [lines[i]]) + Keep(lines[i + 1..], remove)
  {
    assert lines[i..][1..] == lines[i + 1..];
  }
}
