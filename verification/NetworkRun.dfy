/** Runs of the network manager: any interleaving of ghost reservations, of the allocator
    goroutine's first scan, and of concurrent Allocate and Release calls.  Allocate is two
    steps, because another call may be served between its two receives. */
module NetworkRun {
  import opened Text
  import opened Cidr
  import opened IpAllocator

  /** live: the address of each interface; waiting: calls between their two receives;
      scanned: the goroutine has an offer; started: some call has reached the goroutine. */
  datatype Host = Host(alloc: Alloc, scanned: bool, started: bool, live: map<nat, int32>, waiting: set<nat>)

  datatype Event =
    | FirstScan
    | Ghost(id: nat, ip: int32)
    | Receive(id: nat)
    | ReceiveAgain(id: nat)
    | Release(id: nat)

  function Init(): Host {
    Host(Alloc(1, {}, 0, false), false, false, map[], {})
  }

  /** The address Allocate refuses once, "to avoid duplicate IP". */
  function Guarded(r: Range): int {
    r.ipNum + 1
  }

  predicate Enabled(r: Range, s: Host, e: Event) {
    match e
    case FirstScan => !s.scanned
    case Ghost(id, ip) => !s.started && id !in s.live && r.Candidate(ip) && ip !in s.live.Values
    case Receive(id) => s.scanned && id !in s.live && id !in s.waiting
    case ReceiveAgain(id) => s.scanned && id !in s.live && id in s.waiting
    case Release(id) => s.scanned && id in s.live && r.Candidate(s.live[id])
  }

  function Step(r: Range, s: Host, e: Event): Host
    requires ValidPos(r, s.alloc) && Enabled(r, s, e)
  {
    match e
    case FirstScan => s.(alloc := Scan(r, s.alloc), scanned := true)
    case Ghost(id, ip) => s.(alloc := s.alloc.(used := s.alloc.used + {ip as int}), live := s.live[id := ip])
    case Receive(id) =>
      var t := s.(alloc := Take(r, s.alloc), started := true);
      if s.alloc.inUse then t
      else if s.alloc.newNum == Guarded(r) then t.(waiting := s.waiting + {id})
      else t.(live := s.live[id := s.alloc.newNum])
    case ReceiveAgain(id) =>
      var t := s.(alloc := Take(r, s.alloc), started := true, waiting := s.waiting - {id});
      if s.alloc.inUse then t else t.(live := s.live[id := s.alloc.newNum])
    case Release(id) =>
      s.(alloc := Put(r, s.alloc, s.live[id]), started := true, live := s.live - {id})
  }

  ghost predicate Distinct(live: map<nat, int32>) {
    forall i, j :: i in live && j in live && live[i] == live[j] ==> i == j
  }

  /** No address is lost: one in use belongs to a live interface, or is the guarded one or
      the bridge's own. */
  ghost predicate Accounted(r: Range, s: Host) {
    forall n :: n in s.alloc.used ==> n in s.live.Values || n == Guarded(r) || n == r.ownIP
  }

  ghost predicate Safe(r: Range, s: Host) {
    && ValidPos(r, s.alloc)
    && Distinct(s.live)
    && Accounted(r, s)
    && (forall i :: i in s.live ==> r.Candidate(s.live[i]) && (s.live[i] as int) in s.alloc.used)
    && (s.started ==> s.scanned && Fresh(r, s.alloc))
    && (!s.started ==> s.waiting == {} && forall n :: n in s.alloc.used ==> n in s.live.Values)
    && (s.scanned && !s.alloc.inUse ==> r.Usable(s.alloc.newNum))
    && (s.scanned && s.alloc.inUse ==> s.alloc.newNum == r.ownIP || s.alloc.newNum in s.alloc.used)
  }

  /** A call receives an offer made before a ghost reserved that very address, and the
      address is not the one Allocate guards against. */
  predicate StaleReceive(r: Range, s: Host, e: Event) {
    e.Receive? && !s.alloc.inUse && s.alloc.newNum in s.alloc.used && s.alloc.newNum != Guarded(r)
  }

  lemma ReceiveKeepsSafe(r: Range, s: Host, e: Event)
    requires Safe(r, s) && Enabled(r, s, e) && !StaleReceive(r, s, e) && (e.Receive? || e.ReceiveAgain?)
    ensures Safe(r, Step(r, s, e))
  {
    hide Scan, Take, FirstFree, AllTaken;
    TakeStaysFresh(r, s.alloc);
    ValuesGrow(s.live, e.id, s.alloc.newNum);
  }

  lemma StepKeepsSafe(r: Range, s: Host, e: Event)
    requires Safe(r, s) && Enabled(r, s, e) && !StaleReceive(r, s, e)
    ensures Safe(r, Step(r, s, e))
  {
    hide Scan, Take, Put, FirstFree, AllTaken;
    match e
    case FirstScan => ScanFinds(r, s.alloc);
    case Ghost(id, ip) =>
      ValuesGrow(s.live, id, ip);
    case Receive(id) => ReceiveKeepsSafe(r, s, e);
    case ReceiveAgain(id) => ReceiveKeepsSafe(r, s, e);
    case Release(id) =>
      PutStaysFresh(r, s.alloc, s.live[id]);
      ValuesShrink(s.live, id);
  }

  lemma ValuesGrow(m: map<nat, int32>, k: nat, v: int32)
    requires k !in m
    ensures v in m[k := v].Values
    ensures forall n :: n in m.Values ==> n in m[k := v].Values
  {
    assert m[k := v][k] == v;
    forall n | n in m.Values ensures n in m[k := v].Values {
      var i :| i in m && m[i] == n;
      assert m[k := v][i] == n;
    }
  }

  lemma ValuesShrink(m: map<nat, int32>, k: nat)
    requires k in m
    ensures forall n :: n in m.Values && n != m[k] ==> n in (m - {k}).Values
  {
    forall n | n in m.Values && n != m[k] ensures n in (m - {k}).Values {
      var i :| i in m && m[i] == n;
      assert (m - {k})[i] == n;
    }
  }

  /** A stale receive hands a ghost's address to a second interface. */
  lemma StaleReceiveDuplicates(r: Range, s: Host, e: Event)
    requires Safe(r, s) && Enabled(r, s, e) && StaleReceive(r, s, e)
    ensures !s.started && !Distinct(Step(r, s, e).live)
  {
    var g :| g in s.live && s.live[g] == s.alloc.newNum;
    assert Step(r, s, e).live[g] == Step(r, s, e).live[e.id];
  }

  // ---------- whole runs ----------

  ghost predicate Runnable(r: Range, s: Host, es: seq<Event>)
    decreases |es|
  {
    ValidPos(r, s.alloc) && (es == [] || (Enabled(r, s, es[0]) && Runnable(r, Step(r, s, es[0]), es[1..])))
  }

  /** In every state of the run no two live interfaces share an address. */
  ghost predicate AlwaysDistinct(r: Range, s: Host, es: seq<Event>)
    requires Runnable(r, s, es)
    decreases |es|
  {
    Distinct(s.live) && (es == [] || AlwaysDistinct(r, Step(r, s, es[0]), es[1..]))
  }

  ghost predicate NeverStale(r: Range, s: Host, es: seq<Event>)
    requires Runnable(r, s, es)
    decreases |es|
  {
    es == [] || (!StaleReceive(r, s, es[0]) && NeverStale(r, Step(r, s, es[0]), es[1..]))
  }

  ghost function Final(r: Range, s: Host, es: seq<Event>): Host
    requires Runnable(r, s, es)
    decreases |es|
  {
    if es == [] then s else Final(r, Step(r, s, es[0]), es[1..])
  }

  lemma {:induction false} DistinctIffNeverStaleFrom(r: Range, s: Host, es: seq<Event>)
    requires Safe(r, s) && Runnable(r, s, es)
    ensures AlwaysDistinct(r, s, es) <==> NeverStale(r, s, es)
    ensures NeverStale(r, s, es) ==> Safe(r, Final(r, s, es))
    decreases |es|
  {
    if es != [] {
      if StaleReceive(r, s, es[0]) {
        StaleReceiveDuplicates(r, s, es[0]);
      } else {
        StepKeepsSafe(r, s, es[0]);
        DistinctIffNeverStaleFrom(r, Step(r, s, es[0]), es[1..]);
      }
    }
  }

  /** Exactly the runs without a stale receive never give one address to two interfaces;
      and such a run loses no address but possibly the guarded one. */
  lemma DistinctIffNeverStale(r: Range, es: seq<Event>)
    requires r.Valid() && Runnable(r, Init(), es)
    ensures AlwaysDistinct(r, Init(), es) <==> NeverStale(r, Init(), es)
    ensures NeverStale(r, Init(), es) ==> Accounted(r, Final(r, Init(), es))
  {
    DistinctIffNeverStaleFrom(r, Init(), es);
  }

  /** A call of Allocate that nothing interrupts: one receive, and a second one if the call waits. */
  lemma ReceivesAreServed(r: Range, s: Host, id: nat)
    requires Safe(r, s) && Enabled(r, s, Receive(id))
    ensures var t := Step(r, s, Receive(id));
      var u := if id in t.waiting then Step(r, t, ReceiveAgain(id)) else t;
      && u.alloc == Served(r, s.alloc).1 && u.waiting == s.waiting
      && u.live == match Served(r, s.alloc).0 { case None => s.live case Some(ip) => s.live[id := ip] }
  {
    TakeStaysFresh(r, s.alloc);
    hide Take;
  }

  // ---------- when the goroutine is scheduled ----------

  /** The number of ghosts registered before anything else happens. */
  function LeadingGhosts(es: seq<Event>): (n: nat)
    ensures n <= |es| && (n < |es| ==> !es[n].Ghost?)
    ensures forall i :: 0 <= i < n ==> es[i].Ghost?
  {
    if es == [] || !es[0].Ghost? then 0 else 1 + LeadingGhosts(es[1..])
  }

  lemma {:induction false} LeadingGhostsOf(ghosts: seq<Event>, es: seq<Event>)
    requires (forall i :: 0 <= i < |ghosts| ==> ghosts[i].Ghost?) && (es != [] ==> !es[0].Ghost?)
    ensures LeadingGhosts(ghosts + es) == |ghosts|
  {
    if ghosts == [] {
      assert ghosts + es == es;
    } else {
      assert (ghosts + es)[0] == ghosts[0] && (ghosts + es)[1..] == ghosts[1..] + es;
      LeadingGhostsOf(ghosts[1..], es);
    }
  }

  /** The addresses that ghosts reserve. */
  function Reserved(es: seq<Event>): set<int> {
    set e | e in es && e.Ghost? :: e.ip as int
  }

  lemma ReservedFirst(ghosts: seq<Event>)
    requires ghosts != [] && ghosts[0].Ghost?
    ensures Reserved(ghosts) == {ghosts[0].ip as int} + Reserved(ghosts[1..])
  {
    assert ghosts == [ghosts[0]] + ghosts[1..];
  }

  /** The goroutine's first offer, when it searches after these ghosts. */
  function FirstOffer(r: Range, ghosts: seq<Event>): Alloc
    requires r.Valid()
  {
    Scan(r, Init().alloc.(used := Reserved(ghosts)))
  }

  /** The first call receives the first offer, and a ghost registered in between has its address. */
  predicate Overtaken(r: Range, es: seq<Event>)
    requires r.Valid()
  {
    var n := LeadingGhosts(es);
    n < |es| && OfferOvertaken(r, FirstOffer(r, es[..n]), es[n + 1..])
  }

  predicate OfferOvertaken(r: Range, offer: Alloc, es: seq<Event>) {
    var n := LeadingGhosts(es);
    n < |es| && es[n].Receive? && !offer.inUse && offer.newNum != Guarded(r) && offer.newNum in Reserved(es[..n])
  }

  /** Ghosts reserve their addresses, and leave the offer as it is. */
  lemma {:induction false} GhostsRun(r: Range, s: Host, ghosts: seq<Event>, es: seq<Event>) returns (t: Host)
    requires Safe(r, s) && (forall i :: 0 <= i < |ghosts| ==> ghosts[i].Ghost?) && Runnable(r, s, ghosts + es)
    ensures Safe(r, t) && t.scanned == s.scanned && t.started == s.started
    ensures t.alloc == s.alloc.(used := s.alloc.used + Reserved(ghosts))
    ensures Runnable(r, t, es) && (NeverStale(r, s, ghosts + es) <==> NeverStale(r, t, es))
    decreases |ghosts|
  {
    if ghosts == [] {
      assert ghosts + es == es;
      t := s;
      assert s.alloc.used + Reserved(ghosts) == s.alloc.used;
    } else {
      var e := ghosts[0];
      assert (ghosts + es)[0] == e && (ghosts + es)[1..] == ghosts[1..] + es;
      StepKeepsSafe(r, s, e);
      ReservedFirst(ghosts);
      hide Scan, Take, Put, Safe, Reserved;
      t := GhostsRun(r, Step(r, s, e), ghosts[1..], es);
      assert s.alloc.used + {e.ip as int} + Reserved(ghosts[1..]) == s.alloc.used + Reserved(ghosts);
    }
  }

  /** Once a call has been served, no offer is outdated. */
  lemma {:induction false} StartedNeverStale(r: Range, s: Host, es: seq<Event>)
    requires Safe(r, s) && Runnable(r, s, es) && s.started
    ensures NeverStale(r, s, es)
    decreases |es|
  {
    if es != [] {
      if StaleReceive(r, s, es[0]) { StaleReceiveDuplicates(r, s, es[0]); }
      StepKeepsSafe(r, s, es[0]);
      StartedNeverStale(r, Step(r, s, es[0]), es[1..]);
    }
  }

  /** After the first search. */
  lemma NeverStaleAfterScan(r: Range, s: Host, es: seq<Event>)
    requires Safe(r, s) && s.scanned && !s.started && Runnable(r, s, es)
    requires !s.alloc.inUse ==> s.alloc.newNum !in s.alloc.used
    ensures NeverStale(r, s, es) <==> !OfferOvertaken(r, s.alloc, es)
  {
    var n := LeadingGhosts(es);
    assert es == es[..n] + es[n..];
    var t := GhostsRun(r, s, es[..n], es[n..]);
    if n < |es| {
      var e := es[n];
      assert es[n..][0] == e;
      if !StaleReceive(r, t, e) {
        StepKeepsSafe(r, t, e);
        StartedNeverStale(r, Step(r, t, e), es[n..][1..]);
      }
    }
  }

  /** Whether addresses stay distinct depends on the schedule up to the first call only: they do exactly
      if no ghost registered between the goroutine's first search and the first call, that call an
      Allocate, has the address found, other than the guarded one. */
  lemma DistinctIffNotOvertaken(r: Range, es: seq<Event>)
    requires r.Valid() && Runnable(r, Init(), es)
    ensures AlwaysDistinct(r, Init(), es) <==> !Overtaken(r, es)
  {
    DistinctIffNeverStale(r, es);
    var n := LeadingGhosts(es);
    assert es == es[..n] + es[n..];
    var s := GhostsRun(r, Init(), es[..n], es[n..]);
    assert {} + Reserved(es[..n]) == Reserved(es[..n]);
    if n < |es| {
      assert es[n..][0] == es[n] && es[n..][1..] == es[n + 1..];
      ScanFinds(r, s.alloc);
      StepKeepsSafe(r, s, FirstScan);
      NeverStaleAfterScan(r, Step(r, s, FirstScan), es[n + 1..]);
    }
  }

  /** If the goroutine scans before any ghost is registered and the bridge does not hold the
      guarded address, Allocate's workaround is sufficient. */
  lemma PromptScanIsSafe(r: Range, es: seq<Event>)
    requires r.Valid() && r.ownIP != Guarded(r) && Runnable(r, Init(), [FirstScan] + es)
    ensures AlwaysDistinct(r, Init(), [FirstScan] + es)
  {
    assert ([FirstScan] + es)[..0] == [] && Reserved([]) == {};
    FirstTry(r, Init().alloc);
    DistinctIffNotOvertaken(r, [FirstScan] + es);
  }

  ghost predicate NoGhost(es: seq<Event>) {
    forall e :: e in es ==> !e.Ghost?
  }

  /** If every ghost is registered before the first scan, no workaround is needed. */
  lemma LateScanIsSafe(r: Range, ghosts: seq<Event>, es: seq<Event>)
    requires r.Valid() && (forall e :: e in ghosts ==> e.Ghost?) && NoGhost(es)
    requires Runnable(r, Init(), ghosts + es)
    ensures AlwaysDistinct(r, Init(), ghosts + es)
  {
    LeadingGhostsOf(ghosts, es);
    if es != [] {
      var rest := (ghosts + es)[|ghosts| + 1..];
      assert rest == es[1..] && (rest != [] ==> rest[0] in es);
      assert rest[..0] == [] && Reserved([]) == {};
    }
    DistinctIffNotOvertaken(r, ghosts + es);
  }

  lemma {:induction false} NoGhostNeverStale(r: Range, s: Host, es: seq<Event>)
    requires Safe(r, s) && Runnable(r, s, es) && NoGhost(es)
    requires s.scanned ==> Fresh(r, s.alloc)
    ensures NeverStale(r, s, es)
    ensures Safe(r, Final(r, s, es))
    ensures Final(r, s, es).scanned ==> Fresh(r, Final(r, s, es).alloc)
    decreases |es|
  {
    if es != [] {
      var t := Step(r, s, es[0]);
      StepKeepsSafe(r, s, es[0]);
      assert t.scanned ==> Fresh(r, t.alloc) by {
        if es[0].FirstScan? { ScanFinds(r, s.alloc); }
      }
      assert forall e :: e in es[1..] ==> e in es;
      NoGhostNeverStale(r, t, es[1..]);
    }
  }

  /** Without ghosts, an error is offered exactly when every usable address is in use, and a
      clean offer is a usable address that is not. */
  lemma OffersWithoutGhosts(r: Range, es: seq<Event>)
    requires r.Valid() && NoGhost(es) && Runnable(r, Init(), es) && Final(r, Init(), es).scanned
    ensures var a := Final(r, Init(), es).alloc;
      && (a.inUse <==> AllTaken(r, a.used))
      && (!a.inUse ==> r.Usable(a.newNum) && a.newNum !in a.used && a.newNum !in Final(r, Init(), es).live.Values)
      && (a.inUse ==> forall n :: r.Usable(n) && n != Guarded(r) ==> n in Final(r, Init(), es).live.Values)
  {
    NoGhostNeverStale(r, Init(), es);
  }

  // ---------- the workaround is not enough in general ----------

  /** The goroutine scans between two ghosts: it offers the second one's address. */
  function ScanBetweenGhosts(r: Range): seq<Event>
    requires r.Valid()
  {
    [Ghost(0, r.ipNum + 1), FirstScan, Ghost(1, r.ipNum + 2), Receive(2)]
  }

  lemma ScanSkipsFirst(r: Range, a: Alloc)
    requires ValidPos(r, a) && a.pos == 1
    requires r.ownIP == r.ipNum + 1 || r.ipNum + 1 in a.used
    requires r.ownIP != r.ipNum + 2 && r.ipNum + 2 !in a.used
    ensures Scan(r, a).newNum == r.ipNum + 2 && !Scan(r, a).inUse
  {
    assert FirstFree(r, 1, a.used, 0) == FirstFree(r, 1, a.used, 1);
  }

  lemma RunOne(r: Range, s: Host, e: Event, es: seq<Event>)
    requires ValidPos(r, s.alloc) && Enabled(r, s, e) && Runnable(r, Step(r, s, e), es)
    ensures Runnable(r, s, [e] + es)
    ensures AlwaysDistinct(r, s, [e] + es) ==> AlwaysDistinct(r, Step(r, s, e), es)
  {
    assert ([e] + es)[1..] == es;
  }

  lemma ScanBetweenGhostsDuplicates(r: Range)
    requires r.Valid() && r.ownIP != r.ipNum + 1 && r.ownIP != r.ipNum + 2
    ensures Runnable(r, Init(), ScanBetweenGhosts(r))
    ensures !AlwaysDistinct(r, Init(), ScanBetweenGhosts(r))
  {
    hide Scan, Take, Put, FirstFree, AllTaken;
    var e0, e1, e2, e3 := Ghost(0, r.ipNum + 1), FirstScan, Ghost(1, r.ipNum + 2), Receive(2);
    var s1 := Step(r, Init(), e0);
    ScanSkipsFirst(r, s1.alloc);
    StepKeepsSafe(r, Init(), e0);
    var s2 := Step(r, s1, e1);
    StepKeepsSafe(r, s1, e1);
    var s3 := Step(r, s2, e2);
    StepKeepsSafe(r, s2, e2);
    StaleReceiveDuplicates(r, s3, e3);
    TakeStaysFresh(r, s3.alloc);
    RunOne(r, s3, e3, []);
    RunOne(r, s2, e2, [e3]);
    RunOne(r, s1, e1, [e2] + [e3]);
    RunOne(r, Init(), e0, [e1] + ([e2] + [e3]));
    assert ScanBetweenGhosts(r) == [e0] + ([e1] + ([e2] + [e3]));
  }

  /** A bridge on the guarded address: the prompt scan offers the next one, unguarded. */
  function BridgeOnGuarded(r: Range): seq<Event>
    requires r.Valid()
  {
    [FirstScan, Ghost(0, r.ipNum + 2), Receive(1)]
  }

  lemma BridgeOnGuardedDuplicates(r: Range)
    requires r.Valid() && r.ownIP == Guarded(r)
    ensures Runnable(r, Init(), BridgeOnGuarded(r)) && !AlwaysDistinct(r, Init(), BridgeOnGuarded(r))
  {
    var e0, e1, e2 := FirstScan, Ghost(0, r.ipNum + 2), Receive(1);
    ScanSkipsFirst(r, Init().alloc);
    var s1 := Step(r, Init(), e0);
    StepKeepsSafe(r, Init(), e0);
    var s2 := Step(r, s1, e1);
    StepKeepsSafe(r, s1, e1);
    StaleReceiveDuplicates(r, s2, e2);
    TakeStaysFresh(r, s2.alloc);
    RunOne(r, s2, e2, []);
    RunOne(r, s1, e1, [e2]);
    RunOne(r, Init(), e0, [e1] + [e2]);
    assert BridgeOnGuarded(r) == [e0] + ([e1] + [e2]);
  }
}
