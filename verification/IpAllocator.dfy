/** The IP allocator: a goroutine that keeps one candidate address ready and serves, in
    whatever order its select picks them, takers of the candidate and releasers. */
module IpAllocator {
  import opened Text
  import opened Cidr
  import opened Words

  /** What `run` computes once: the network address, the bridge's own address, and the
      number of addresses strictly between network and broadcast. */
  datatype Range = Range(ipNum: int32, ownIP: int32, max: int32) {
    ghost predicate Valid() {
      max >= 2 && ipNum + max < 0x8000_0000
    }

    predicate Candidate(n: int) {
      ipNum < n <= ipNum + max
    }

    /** Usable at all: a candidate other than the bridge's own address. */
    predicate Usable(n: int) {
      Candidate(n) && n != ownIP
    }

    /** The k-th address tried when the scan starts at position pos, wrapping around. */
    function Tried(pos: int, k: nat): int {
      if pos + k <= max then ipNum + pos + k else ipNum + pos + k - max
    }
  }

  /** pos: where the next scan starts; newNum and inUse: the offer, an error if inUse is set. */
  datatype Alloc = Alloc(pos: int32, used: set<int>, newNum: int32, inUse: bool)

  ghost predicate ValidPos(r: Range, a: Alloc) {
    r.Valid() && 1 <= a.pos <= r.max
  }

  /** The first attempt from k on, out of max, that meets a free address; max if none does. */
  function FirstFree(r: Range, pos: int, used: set<int>, k: nat): (f: nat)
    requires r.max >= 2 && k <= r.max
    ensures k <= f <= r.max
    ensures f < r.max ==> r.Tried(pos, f) != r.ownIP && r.Tried(pos, f) !in used
    ensures forall j :: k <= j < f ==> r.Tried(pos, j) == r.ownIP || r.Tried(pos, j) in used
    decreases r.max - k
  {
    if k == r.max || (r.Tried(pos, k) != r.ownIP && r.Tried(pos, k) !in used) then k
    else FirstFree(r, pos, used, k + 1)
  }

  /** One round of the search. */
  function Scan(r: Range, a: Alloc): Alloc
    requires ValidPos(r, a)
  {
    var f := FirstFree(r, a.pos, a.used, 0);
    if f < r.max then Alloc(r.Tried(a.pos, f + 1) - r.ipNum, a.used, r.Tried(a.pos, f), false)
    else Alloc(a.pos, a.used, r.Tried(a.pos, r.max - 1), true)
  }

  /** The offer is received from queueAlloc. */
  function Take(r: Range, a: Alloc): Alloc
    requires ValidPos(r, a)
  {
    Scan(r, a.(used := a.used + {a.newNum as int}))
  }

  /** An address arrives on queueReleased. */
  function Put(r: Range, a: Alloc, released: int32): Alloc
    requires ValidPos(r, a) && r.Candidate(released)
  {
    var pos := if a.inUse then released - r.ipNum else if a.pos == 1 then r.max else a.pos - 1;
    Scan(r, a.(used := a.used - {released as int}, pos := pos))
  }

  // ---------- what one scan finds ----------

  /** Every candidate is tried in a round. */
  lemma TriedCovers(r: Range, pos: int, n: int) returns (k: nat)
    requires r.Valid() && 1 <= pos <= r.max && r.Candidate(n)
    ensures k < r.max && r.Tried(pos, k) == n
  {
    k := if n - r.ipNum >= pos then n - r.ipNum - pos else n - r.ipNum - pos + r.max;
  }

  ghost predicate AllTaken(r: Range, used: set<int>) {
    forall n :: r.Usable(n) ==> n in used
  }

  /** The offer carries an error exactly when every usable address is taken; otherwise it is
      usable, free, and the next scan starts right behind it. */
  lemma ScanFinds(r: Range, a: Alloc)
    requires ValidPos(r, a)
    ensures ValidPos(r, Scan(r, a)) && Scan(r, a).used == a.used
    ensures r.Candidate(Scan(r, a).newNum)
    ensures Scan(r, a).inUse <==> AllTaken(r, a.used)
    ensures !Scan(r, a).inUse ==>
      && r.Usable(Scan(r, a).newNum) && Scan(r, a).newNum !in a.used
      && Scan(r, a).newNum == r.ipNum + (if Scan(r, a).pos == 1 then r.max else Scan(r, a).pos - 1)
    ensures Scan(r, a).inUse ==> Scan(r, a).newNum == r.ownIP || Scan(r, a).newNum in a.used
  {
    var f := FirstFree(r, a.pos, a.used, 0);
    if f == r.max {
      forall n | r.Usable(n) ensures n in a.used {
        var k := TriedCovers(r, a.pos, n);
      }
    }
  }

  // ---------- what takers and releasers see ----------

  /** The address offered is the first usable free one from the position on, going round once. */
  lemma ScanIsFirst(r: Range, a: Alloc)
    requires ValidPos(r, a) && !Scan(r, a).inUse
    ensures exists k: nat :: k < r.max && FirstTaken(r, a, k) && Scan(r, a).newNum == r.Tried(a.pos, k)
  {
    var f := FirstFree(r, a.pos, a.used, 0);
    assert FirstTaken(r, a, f);
  }

  /** The first k addresses tried are the bridge's own or in use. */
  ghost predicate FirstTaken(r: Range, a: Alloc, k: nat) {
    forall j: nat :: j < k ==> r.Tried(a.pos, j) == r.ownIP || r.Tried(a.pos, j) in a.used
  }

  /** The offer agrees with the addresses in use.  Every scan establishes this; a ghost
      container's direct reservation may break it. */
  ghost predicate Fresh(r: Range, a: Alloc) {
    && ValidPos(r, a)
    && r.Candidate(a.newNum)
    && (a.inUse <==> AllTaken(r, a.used))
    && (a.inUse ==> a.newNum == r.ownIP || a.newNum in a.used)
    && (!a.inUse ==>
          && r.Usable(a.newNum) && a.newNum !in a.used
          && a.newNum == r.ipNum + (if a.pos == 1 then r.max else a.pos - 1))
  }

  lemma TakeStaysFresh(r: Range, a: Alloc)
    requires ValidPos(r, a)
    ensures Fresh(r, Take(r, a)) && Take(r, a).used == a.used + {a.newNum as int}
  {
    ScanFinds(r, a.(used := a.used + {a.newNum as int}));
  }

  lemma PutStaysFresh(r: Range, a: Alloc, released: int32)
    requires ValidPos(r, a) && r.Candidate(released)
    ensures Fresh(r, Put(r, a, released)) && Put(r, a, released).used == a.used - {released as int}
  {
    var pos := if a.inUse then released - r.ipNum else if a.pos == 1 then r.max else a.pos - 1;
    ScanFinds(r, a.(used := a.used - {released as int}, pos := pos));
  }

  lemma FirstTry(r: Range, a: Alloc)
    requires ValidPos(r, a) && r.ipNum + a.pos != r.ownIP && r.ipNum + a.pos !in a.used
    ensures Scan(r, a).newNum == r.ipNum + a.pos && !Scan(r, a).inUse
  {
    assert r.Tried(a.pos, 0) == r.ipNum + a.pos;
  }

  /** Allocate's two receives: the offer, or the one behind it if that is the guarded address. */
  function Served(r: Range, a: Alloc): (Option<int32>, Alloc)
    requires ValidPos(r, a)
  {
    TakeStaysFresh(r, a);
    var b := Take(r, a);
    if a.inUse then (None, b)
    else if a.newNum != r.ipNum + 1 then (Some(a.newNum), b)
    else (if b.inUse then None else Some(b.newNum), Take(r, b))
  }

  /** What a call of Allocate gets and leaves behind: an address that is in use from then on, and that
      was free if the offer was not outdated; at most the guarded and the bridge's own address are
      entered besides.  It fails exactly if no usable address but the guarded one was free. */
  lemma ServedIs(r: Range, a: Alloc)
    requires ValidPos(r, a) && r.Candidate(a.newNum)
    ensures var (ip, b) := Served(r, a);
      && Fresh(r, b) && a.used <= b.used && (ip.Some? ==> r.Candidate(ip.value) && (ip.value as int) in b.used)
      && (Fresh(r, a) && ip.Some? ==> r.Usable(ip.value) && (ip.value as int) !in a.used && ip.value != r.ipNum + 1)
      && (Fresh(r, a) && ip == None ==> b.used <= a.used + {r.ipNum + 1, r.ownIP as int})
      && (Fresh(r, a) && ip.Some? ==> b.used <= a.used + {r.ipNum + 1, ip.value as int})
      && (Fresh(r, a) ==> (ip == None <==> AllTaken(r, a.used + {r.ipNum + 1})))
  {
    TakeStaysFresh(r, a);
    TakeStaysFresh(r, Take(r, a));
    hide Take;
  }

  /** A release while a free candidate is on offer does not change the candidate. */
  lemma ReleaseKeepsCandidate(r: Range, a: Alloc, released: int32)
    requires Fresh(r, a) && !a.inUse && r.Candidate(released)
    ensures Put(r, a, released).newNum == a.newNum && !Put(r, a, released).inUse
  {
    var pos := if a.pos == 1 then r.max else a.pos - 1;
    FirstTry(r, a.(used := a.used - {released as int}, pos := pos));
  }

  /** After exhaustion the next address on offer is the one released. */
  lemma ReleaseAfterExhaustion(r: Range, a: Alloc, released: int32)
    requires Fresh(r, a) && a.inUse && r.Usable(released)
    ensures Put(r, a, released).newNum == released && !Put(r, a, released).inUse
  {
    FirstTry(r, a.(used := a.used - {released as int}, pos := released - r.ipNum));
  }

  // ---------- the goroutine ----------

  /** The range `run` derives from the bridge's address and mask. */
  function RangeOf(net: Network): Range
    requires InInt32(AddInt32(IpToInt(Inverted(net.mask)), 1) - 2)
  {
    Range(IpToInt(First(net)), IpToInt(net.ip), AddInt32(IpToInt(Inverted(net.mask)), 1) - 2)
  }

  predicate InInt32(x: int) {
    -0x8000_0000 <= x < 0x8000_0000
  }

  /** For prefixes /2 to /30 the candidates are the addresses strictly between network and
      broadcast, and no position overflows an int32. */
  lemma RangeOfBlock(net: Network, n: nat)
    requires HasPrefix(net, n) && 2 <= n <= 30
    ensures InInt32(AddInt32(IpToInt(Inverted(net.mask)), 1) - 2)
    ensures RangeOf(net).Valid()
    ensures RangeOf(net).ipNum + RangeOf(net).max + 1 == IpToInt(Last(net))
  {
    SizeIsCount(net.mask, n);
    BlockCount(net, n);
    Pow2Monotone(2, 32 - n);
    assert Pow2(2) == 4;
  }

  class IPAllocator {
    const range: Range
    var pos: int32
    var used: set<int>
    var newNum: int32
    var inUse: bool

    ghost function View(): Alloc
      reads this
    {
      Alloc(pos, used, newNum, inUse)
    }

    /** Nothing is on offer before the goroutine has searched once. */
    constructor (network: Network, ghost n: nat)
      requires HasPrefix(network, n) && 2 <= n <= 30
      ensures range.Valid() && range.ipNum + range.max + 1 == IpToInt(Last(network))
      ensures range.ipNum == IpToInt(First(network)) && range.ownIP == IpToInt(network.ip)
      ensures ValidPos(range, View()) && pos == 1 && used == {}
    {
      hide Pow2, PrefixMask, First, Last, Inverted, HasPrefix, Value;
      RangeOfBlock(network, n);
      var firstIP, lastIP := NetworkRange(network);
      var size := NetworkSize(network.mask);
      range := Range(IpToInt(firstIP), IpToInt(network.ip), size - 2);
      pos, used, newNum, inUse := 1, {}, 0, false;
    }

    /** Find the first unused address, giving up after one whole round. */
    method Search()
      requires ValidPos(range, View())
      modifies this
      ensures View() == Scan(range, old(View()))
    {
      ghost var pos0 := pos;
      newNum, inUse := 0, false;
      var attempt: int32 := 0;
      while attempt < range.max
        invariant 0 <= attempt <= range.max
        invariant ValidPos(range, View()) && used == old(used)
        invariant range.ipNum + pos == range.Tried(pos0, attempt)
        invariant FirstFree(range, pos0, used, attempt) == FirstFree(range, pos0, used, 0)
        invariant attempt > 0 ==> newNum == range.Tried(pos0, attempt - 1)
        invariant !inUse ==> attempt == 0 || (attempt == 1 && range.Tried(pos0, 0) == range.ownIP)
        decreases range.max - attempt
      {
        newNum := range.ipNum + pos;
        NextPos(range.max, pos);
        pos := pos % range.max + 1;
        if newNum != range.ownIP {
          inUse := newNum in used;
          if !inUse {
            return;
          }
        }
        attempt := attempt + 1;
      }
    }

    method Acquire() returns (ip: int32, err: bool)
      requires ValidPos(range, View())
      modifies this
      ensures ip == old(newNum) && err == old(inUse)
      ensures View() == Take(range, old(View()))
    {
      ip, err := newNum, inUse;
      used := used + {newNum as int};
      Search();
    }

    method Release(released: int32)
      requires ValidPos(range, View()) && range.Candidate(released)
      modifies this
      ensures View() == Put(range, old(View()), released)
    {
      used := used - {released as int};
      if inUse {
        pos := released - range.ipNum;
      } else if pos == 1 {
        pos := range.max;
      } else {
        pos := pos - 1;
      }
      Search();
    }

    /** A ghost container's address is entered behind the goroutine's back. */
    method Reserve(ip: int32)
      modifies this`used
      ensures View() == old(View()).(used := old(used) + {ip as int})
    {
      used := used + {ip as int};
    }
  }

  /** pos % max + 1 is the successor, wrapping from max to 1. */
  lemma NextPos(max: nat, pos: nat)
    requires 1 <= pos <= max
    ensures pos % max + 1 == if pos == max then 1 else pos + 1
  {
  }
}
