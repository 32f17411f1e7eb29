/** IPv4 blocks as four octets and a mask, and the 32-bit numbers the allocators
    compute with.  Prefix notation is that of section 3.1 of RFC 4632. */
module Cidr {
  import opened Words

  /** Assigning to an int32 is an obligation not to overflow. */
  type int32 = x: int | -0x8000_0000 <= x < 0x8000_0000

  datatype Network = Network(ip: Quad, mask: Quad)

  function Pow2(e: nat): (r: nat)
    ensures r > 0
  {
    if e == 0 then 1 else 2 * Pow2(e - 1)
  }

  // ---------- bitwise operations, bit by bit ----------

  function And(a: nat, b: nat): (r: nat)
    ensures r <= a
  {
    if a == 0 then 0 else 2 * And(a / 2, b / 2) + (if a % 2 == 1 && b % 2 == 1 then 1 else 0)
  }

  function Or(a: nat, b: nat): (r: nat)
    ensures r <= a + b
  {
    if a == 0 && b == 0 then 0 else 2 * Or(a / 2, b / 2) + (if a % 2 == 1 || b % 2 == 1 then 1 else 0)
  }

  lemma {:induction false} OrBound(a: nat, b: nat, w: nat)
    requires a < Pow2(w) && b < Pow2(w)
    ensures Or(a, b) < Pow2(w)
  {
    if w > 0 { OrBound(a / 2, b / 2, w - 1); }
  }

  function Not(a: Octet): Octet {
    255 - a
  }

  function OrOctet(a: Octet, b: Octet): Octet {
    assert Pow2(8) == 256 by { assert Pow2(4) == 16; }
    OrBound(a, b, 8);
    Or(a, b)
  }

  /** `a` with its `j` lowest bits cleared. */
  function Cleared(a: nat, j: nat): nat {
    if j == 0 then a else 2 * Cleared(a / 2, j - 1)
  }

  lemma {:induction false} ClearedBlock(a: nat, b: nat, j: nat)
    ensures Cleared(a, j) == Cleared(b, j) <==> Cleared(b, j) <= a < Cleared(b, j) + Pow2(j)
  {
    if j > 0 { ClearedBlock(a / 2, b / 2, j - 1); }
  }

  lemma {:induction false} AndClears(a: nat, w: nat, j: nat)
    requires j <= w && a < Pow2(w)
    ensures Pow2(j) <= Pow2(w) && And(a, Pow2(w) - Pow2(j)) == Cleared(a, j)
  {
    if j > 0 {
      AndClears(a / 2, w - 1, j - 1);
    } else if w > 0 {
      AndClears(a / 2, w - 1, 0);
    }
  }

  lemma {:induction false} OrFills(a: nat, j: nat)
    ensures Or(a, Pow2(j) - 1) == Cleared(a, j) + Pow2(j) - 1
  {
    if j > 0 {
      var p := Pow2(j - 1);
      assert (2 * p - 1) / 2 == p - 1 && (2 * p - 1) % 2 == 1;
      OrFills(a / 2, j - 1);
    } else if a > 0 {
      OrFills(a / 2, 0);
    }
  }

  lemma {:induction false} ClearedHalf(a: nat, w: nat, j: nat)
    requires j <= w
    ensures Cleared(a, j) < Pow2(w) <==> Cleared(a, j) + Pow2(j) - 1 < Pow2(w)
  {
    if j > 0 { ClearedHalf(a / 2, w - 1, j - 1); }
  }

  // ---------- masks ----------

  lemma Pow2Octet()
    ensures Pow2(7) == 128 && Pow2(8) == 256
  {
    assert Pow2(4) == 16;
  }

  lemma {:induction false} Pow2Monotone(i: nat, j: nat)
    requires i <= j
    ensures Pow2(i) <= Pow2(j)
    decreases j
  {
    if i < j { Pow2Monotone(i, j - 1); }
  }

  /** The octet whose k highest bits are set. */
  function MaskByte(k: nat): Octet
    requires k <= 8
  {
    Pow2Octet();
    Pow2Monotone(8 - k, 8);
    256 - Pow2(8 - k)
  }

  /** How many of the n leading bits fall in octet i. */
  function BitsAt(n: nat, i: nat): (k: nat)
    ensures k <= 8
  {
    if n <= 8 * i then 0 else if n >= 8 * i + 8 then 8 else n - 8 * i
  }

  /** The mask of prefix length n. */
  function PrefixMask(n: nat): Quad
    requires n <= 32
  {
    [MaskByte(BitsAt(n, 0)), MaskByte(BitsAt(n, 1)), MaskByte(BitsAt(n, 2)), MaskByte(BitsAt(n, 3))]
  }

  lemma MaskedOctet(a: Octet, k: nat)
    requires k <= 8
    ensures And(a, MaskByte(k)) == Cleared(a, 8 - k)
    ensures OrOctet(a, Not(MaskByte(k))) == Cleared(a, 8 - k) + Pow2(8 - k) - 1
  {
    hide And, Or, Cleared, Pow2;
    Pow2Octet();
    AndClears(a, 8, 8 - k);
    OrFills(a, 8 - k);
  }

  lemma OctetBlock(a: Octet, b: Octet, k: nat)
    requires k <= 8
    ensures And(b, MaskByte(k)) == And(a, MaskByte(k))
       <==> And(b, MaskByte(k)) <= a <= OrOctet(b, Not(MaskByte(k)))
    ensures OrOctet(b, Not(MaskByte(k))) == And(b, MaskByte(k)) + Pow2(8 - k) - 1
    ensures k > 0 ==> (And(b, MaskByte(k)) < 128 <==> OrOctet(b, Not(MaskByte(k))) < 128)
  {
    hide And, Or, OrOctet, Cleared, Pow2;
    MaskedOctet(a, k);
    MaskedOctet(b, k);
    ClearedBlock(a, b, 8 - k);
    if k > 0 {
      Pow2Octet();
      ClearedHalf(b, 7, 8 - k);
    }
  }

  // ---------- numbers ----------

  /** Go's conversion of an unsigned 32-bit number to int32, and back. */
  function ToInt32(v: nat): int32
    requires v < 0x1_0000_0000
  {
    if v < 0x8000_0000 then v else v - 0x1_0000_0000
  }

  function ToUint32(n: int32): (v: nat)
    ensures v < 0x1_0000_0000
  {
    if n >= 0 then n else n + 0x1_0000_0000
  }

  function IpToInt(ip: Quad): int32 {
    ToInt32(Value(ip))
  }

  function IntToIp(n: int32): Quad {
    BigEndian(ToUint32(n))
  }

  /** The two conversions are mutual inverses, on both halves of the address space. */
  lemma IntIpRoundTrip(n: int32, ip: Quad)
    ensures IpToInt(IntToIp(n)) == n
    ensures IntToIp(IpToInt(ip)) == ip
  {
    BigEndianRoundTrip(ToUint32(n), ip);
  }

  // ---------- blocks ----------

  ghost predicate HasPrefix(net: Network, n: nat) {
    n <= 32 && net.mask == PrefixMask(n)
  }

  ghost predicate Contiguous(net: Network) {
    exists n: nat :: HasPrefix(net, n)
  }

  function First(net: Network): Quad {
    [And(net.ip[0], net.mask[0]), And(net.ip[1], net.mask[1]), And(net.ip[2], net.mask[2]), And(net.ip[3], net.mask[3])]
  }

  function Last(net: Network): Quad {
    seq(4, i requires 0 <= i < 4 => OrOctet(net.ip[i], Not(net.mask[i])))
  }

  /** net.IPNet.Contains: equal under the mask, octet by octet. */
  predicate Contains(net: Network, a: Quad) {
    forall i :: 0 <= i < 4 ==> And(net.ip[i], net.mask[i]) == And(a[i], net.mask[i])
  }

  ghost predicate Between(f: Octet, a: Octet, l: Octet) {
    f <= a <= l
  }

  ghost predicate AllBetween(f: Quad, a: Quad, l: Quad) {
    forall i :: 0 <= i < 4 ==> Between(f[i], a[i], l[i])
  }

  lemma Lexicographic(f: Quad, a: Quad, l: Quad, q: nat)
    requires q < 4 && f[q] <= l[q]
    requires forall i :: 0 <= i < q ==> f[i] == l[i]
    requires forall i :: q < i < 4 ==> f[i] == 0 && l[i] == 255
    ensures AllBetween(f, a, l) <==> Value(f) <= Value(a) <= Value(l)
  {
    assert AllBetween(f, a, l) <==>
      f[0] <= a[0] <= l[0] && f[1] <= a[1] <= l[1] && f[2] <= a[2] <= l[2] && f[3] <= a[3] <= l[3];
    if q == 0 {} else if q == 1 {} else if q == 2 {} else {}
  }

  /** The octet that holds the last bit of the prefix. */
  function Split(n: nat): nat {
    if n <= 8 then 0 else if n <= 16 then 1 else if n <= 24 then 2 else 3
  }

  lemma OctetShape(net: Network, n: nat, a: Quad, i: nat)
    requires HasPrefix(net, n) && i < 4
    ensures And(net.ip[i], net.mask[i]) == And(a[i], net.mask[i]) <==> Between(First(net)[i], a[i], Last(net)[i])
    ensures Last(net)[i] == First(net)[i] + Pow2(8 - BitsAt(n, i)) - 1
    ensures BitsAt(n, i) > 0 ==> (First(net)[i] < 128 <==> Last(net)[i] < 128)
  {
    hide And, OrOctet, Not, Pow2, MaskByte;
    assert net.mask[i] == MaskByte(BitsAt(n, i));
    assert First(net)[i] == And(net.ip[i], net.mask[i]);
    assert Last(net)[i] == OrOctet(net.ip[i], Not(net.mask[i]));
    OctetBlock(a[i], net.ip[i], BitsAt(n, i));
  }

  lemma {:induction false} Pow2Add(i: nat, j: nat)
    ensures Pow2(i + j) == Pow2(i) * Pow2(j)
  {
    if i > 0 { Pow2Add(i - 1, j); }
  }

  function Scale(q: nat): nat {
    if q == 0 then 0x100_0000 else if q == 1 then 0x1_0000 else if q == 2 then 0x100 else 1
  }

  lemma Span(f: Quad, l: Quad, q: nat)
    requires q < 4 && f[q] <= l[q]
    requires forall i :: 0 <= i < q ==> f[i] == l[i]
    requires forall i :: q < i < 4 ==> f[i] == 0 && l[i] == 255
    ensures Value(l) - Value(f) + 1 == (l[q] - f[q] + 1) * Scale(q)
  {
    if q == 0 {} else if q == 1 {} else if q == 2 {} else {}
  }

  lemma SpanPower(n: nat)
    requires n <= 32
    ensures Pow2(32 - n) == Pow2(8 - BitsAt(n, Split(n))) * Scale(Split(n))
  {
    var q := Split(n);
    Pow2Octet();
    Pow2Add(8, 8);
    Pow2Add(8, 16);
    Pow2Add(8 - BitsAt(n, q), 8 * (3 - q));
    assert Scale(q) == Pow2(8 * (3 - q));
  }

  /** How the ends of a block of prefix length n relate, octet by octet. */
  ghost predicate Ends(f: Quad, l: Quad, n: nat) {
    && (forall i :: 0 <= i < 4 ==> l[i] == f[i] + Pow2(8 - BitsAt(n, i)) - 1)
    && (n > 0 ==> (f[0] < 128 <==> l[0] < 128))
  }

  lemma EndsOfBlock(net: Network, n: nat)
    requires HasPrefix(net, n)
    ensures Ends(First(net), Last(net), n)
  {
    forall i | 0 <= i < 4
      ensures Last(net)[i] == First(net)[i] + Pow2(8 - BitsAt(n, i)) - 1
      ensures i == 0 && n > 0 ==> (First(net)[i] < 128 <==> Last(net)[i] < 128)
    {
      OctetShape(net, n, net.ip, i);
    }
  }

  lemma EndsExtremes(f: Quad, l: Quad, n: nat)
    requires Ends(f, l, n)
    ensures f[Split(n)] <= l[Split(n)]
    ensures forall i :: 0 <= i < Split(n) ==> f[i] == l[i]
    ensures forall i :: Split(n) < i < 4 ==> f[i] == 0 && l[i] == 255
  {
    Pow2Octet();
    assert Pow2(0) == 1;
    forall i | 0 <= i < 4
      ensures i < Split(n) ==> f[i] == l[i]
      ensures i > Split(n) ==> f[i] == 0 && l[i] == 255
    {
      assert l[i] == f[i] + Pow2(8 - BitsAt(n, i)) - 1;
    }
  }

  lemma EndsInterval(f: Quad, a: Quad, l: Quad, n: nat)
    requires Ends(f, l, n)
    ensures AllBetween(f, a, l) <==> Value(f) <= Value(a) <= Value(l)
  {
    EndsExtremes(f, l, n);
    Lexicographic(f, a, l, Split(n));
  }

  lemma EndsCount(f: Quad, l: Quad, n: nat)
    requires Ends(f, l, n) && n <= 32
    ensures Value(l) - Value(f) + 1 == Pow2(32 - n)
    ensures n > 0 ==> IpToInt(l) - IpToInt(f) + 1 == Pow2(32 - n)
  {
    EndsExtremes(f, l, n);
    Span(f, l, Split(n));
    SpanPower(n);
  }

  /** The members of a block are the addresses between its first and its last. */
  lemma BlockIsInterval(net: Network, n: nat, a: Quad)
    requires HasPrefix(net, n)
    ensures Contains(net, a) <==> Value(First(net)) <= Value(a) <= Value(Last(net))
  {
    EndsOfBlock(net, n);
    EndsInterval(First(net), a, Last(net), n);
    forall i | 0 <= i < 4
      ensures And(net.ip[i], net.mask[i]) == And(a[i], net.mask[i]) <==> Between(First(net)[i], a[i], Last(net)[i])
    {
      OctetShape(net, n, a, i);
    }
  }

  /** A block of prefix length n has 2^(32-n) addresses, contiguous also as int32. */
  lemma BlockCount(net: Network, n: nat)
    requires HasPrefix(net, n)
    ensures Value(Last(net)) - Value(First(net)) + 1 == Pow2(32 - n)
    ensures n > 0 ==> IpToInt(Last(net)) - IpToInt(First(net)) + 1 == Pow2(32 - n)
  {
    EndsOfBlock(net, n);
    EndsCount(First(net), Last(net), n);
  }

  method NetworkRange(net: Network) returns (firstIP: Quad, lastIP: Quad)
    ensures firstIP == First(net) && lastIP == Last(net)
  {
    firstIP := First(net);
    var last := new Octet[4](_ => 0);
    for i := 0 to 4
      invariant forall j :: 0 <= j < i ==> last[j] == Last(net)[j]
    {
      last[i] := OrOctet(net.ip[i], Not(net.mask[i]));
    }
    lastIP := last[..];
  }

  // ---------- size ----------

  /** Go's int32 addition wraps around. */
  function AddInt32(a: int32, b: int32): int32 {
    ToInt32((ToUint32(a) + ToUint32(b)) % 0x1_0000_0000)
  }

  function Inverted(mask: Quad): Quad {
    seq(4, i requires 0 <= i < 4 => Not(mask[i]))
  }

  method NetworkSize(mask: Quad) returns (size: int32)
    ensures size == AddInt32(IpToInt(Inverted(mask)), 1)
  {
    var m := new Octet[4](_ => 0);
    for i := 0 to 4
      invariant forall j :: 0 <= j < i ==> m[j] == Not(mask[j])
    {
      m[i] := Not(mask[i]);
    }
    assert m[..] == Inverted(mask);
    size := AddInt32(IpToInt(m[..]), 1);
  }

  lemma InvertedCount(mask: Quad, n: nat)
    requires n <= 32 && mask == PrefixMask(n)
    ensures Value(Inverted(mask)) + 1 == Pow2(32 - n)
  {
    hide Pow2, PrefixMask, Inverted;
    var zero: Quad := [0, 0, 0, 0];
    forall i | 0 <= i < 4
      ensures Inverted(mask)[i] == zero[i] + Pow2(8 - BitsAt(n, i)) - 1
      ensures i == 0 && n > 0 ==> Inverted(mask)[i] < 128
    {
      InvertedOctet(mask, n, i);
    }
    EndsCount(zero, Inverted(mask), n);
  }

  lemma InvertedOctet(mask: Quad, n: nat, i: nat)
    requires n <= 32 && mask == PrefixMask(n) && i < 4
    ensures Inverted(mask)[i] == Pow2(8 - BitsAt(n, i)) - 1
    ensures BitsAt(n, i) > 0 ==> Inverted(mask)[i] < 128
  {
    assert mask[i] == MaskByte(BitsAt(n, i));
    Pow2Octet();
    if BitsAt(n, i) > 0 { Pow2Monotone(8 - BitsAt(n, i), 7); }
  }

  lemma AddOne(v: nat)
    requires v < 0x1_0000_0000
    ensures AddInt32(ToInt32(v), 1) == v + 1 <==> v < 0x7fff_ffff
  {
  }

  lemma Pow2Word()
    ensures Pow2(30) == 0x4000_0000 && Pow2(31) == 0x8000_0000 && Pow2(32) == 0x1_0000_0000
  {
    Pow2Octet();
    Pow2Add(8, 8);
    Pow2Add(16, 16);
  }

  /** The wrapped 32-bit count is the number of addresses exactly from /2 on. */
  lemma SizeIsCount(mask: Quad, n: nat)
    requires n <= 32 && mask == PrefixMask(n)
    ensures AddInt32(IpToInt(Inverted(mask)), 1) == Pow2(32 - n) <==> n >= 2
  {
    InvertedCount(mask, n);
    AddOne(Value(Inverted(mask)));
    Pow2Word();
    if n >= 2 { Pow2Monotone(32 - n, 30); } else { Pow2Monotone(31, 32 - n); }
  }

  // ---------- overlap ----------

  /** networkOverlaps: one block contains the first address of the other. */
  predicate NetworkOverlaps(x: Network, y: Network) {
    Contains(y, First(x)) || Contains(x, First(y))
  }

  ghost predicate ShareAddress(x: Network, y: Network) {
    exists a: Quad :: Contains(x, a) && Contains(y, a)
  }

  lemma OverlapIsSharing(x: Network, y: Network)
    requires Contiguous(x) && Contiguous(y)
    ensures NetworkOverlaps(x, y) <==> ShareAddress(x, y)
  {
    var n: nat :| HasPrefix(x, n);
    var m: nat :| HasPrefix(y, m);
    BlockCount(x, n);
    BlockCount(y, m);
    BlockIsInterval(x, n, First(x));
    BlockIsInterval(y, m, First(y));
    BlockIsInterval(x, n, First(y));
    BlockIsInterval(y, m, First(x));
    if ShareAddress(x, y) {
      var a: Quad :| Contains(x, a) && Contains(y, a);
      BlockIsInterval(x, n, a);
      BlockIsInterval(y, m, a);
    }
  }

  // ---------- choosing the bridge network ----------

  /** A line of `ip route`: blank or default, unreadable, or a network (a bare address is a /32). */
  datatype RouteLine = Skipped | Unreadable | Route(net: Network)

  datatype RouteCheck = Clear | Unexpected | AlreadyRouted

  /** Every line is readable and no listed network shares an address with the bridge. */
  ghost predicate Free(bridge: Network, routes: seq<RouteLine>) {
    forall l :: l in routes ==> !l.Unreadable? && !SharesWith(bridge, l)
  }

  ghost predicate SharesWith(bridge: Network, line: RouteLine) {
    line.Route? && ShareAddress(bridge, line.net)
  }

  /** The first line that is unreadable or overlaps the bridge decides. */
  method CheckRouteOverlaps(routes: seq<RouteLine>, bridge: Network) returns (r: RouteCheck)
    requires Contiguous(bridge)
    requires forall l :: l in routes && l.Route? ==> Contiguous(l.net)
    ensures r == Clear <==> Free(bridge, routes)
    ensures r == Unexpected ==> exists i :: 0 <= i < |routes| && routes[i].Unreadable? && Free(bridge, routes[..i])
    ensures r == AlreadyRouted ==>
      exists i :: 0 <= i < |routes| && SharesWith(bridge, routes[i]) && Free(bridge, routes[..i])
  {
    for i := 0 to |routes|
      invariant forall j :: 0 <= j < i ==> !routes[j].Unreadable?
      invariant forall j :: 0 <= j < i ==> !SharesWith(bridge, routes[j])
    {
      assert routes[i] in routes && Free(bridge, routes[..i]);
      match routes[i]
      case Skipped =>
      case Unreadable =>
        return Unexpected;
      case Route(net) =>
        OverlapIsSharing(bridge, net);
        if NetworkOverlaps(bridge, net) {
          return AlreadyRouted;
        }
    }
    return Clear;
  }

  datatype Choice = Chosen(addr: nat) | NoneFree | IpFailed

  /** The first n candidates overlap what `ip route` prints, or it prints what cannot be read. */
  ghost predicate NotFree(addrs: seq<Network>, routes: seq<RouteTable>, n: nat)
    requires n <= |addrs| == |routes|
  {
    forall j :: 0 <= j < n ==> routes[j].Printed? && !Free(addrs[j], routes[j].lines)
  }

  /** The search loop of CreateBridgeIface; `routes[i]` is what `ip route` does when candidate i is
      tried.  The first candidate that is not refused decides. */
  method ChooseBridge(addrs: seq<Network>, routes: seq<RouteTable>) returns (c: Choice)
    requires |addrs| == |routes|
    requires forall a :: a in addrs ==> Contiguous(a)
    requires forall t, l :: t in routes && t.Printed? && l in t.lines && l.Route? ==> Contiguous(l.net)
    ensures c.Chosen? ==> c.addr < |addrs| && routes[c.addr].Printed? && Free(addrs[c.addr], routes[c.addr].lines)
    ensures c.Chosen? ==> NotFree(addrs, routes, c.addr)
    ensures c == IpFailed ==> exists i :: 0 <= i < |routes| && routes[i].Failed? && NotFree(addrs, routes, i)
    ensures c == NoneFree <==> NotFree(addrs, routes, |addrs|)
  {
    hide Free, Contiguous;
    for i := 0 to |addrs|
      invariant NotFree(addrs, routes, i)
    {
      if routes[i].Failed? {
        return IpFailed;
      }
      assert routes[i] in routes && addrs[i] in addrs;
      var r := CheckRouteOverlaps(routes[i].lines, addrs[i]);
      if r == Clear {
        return Chosen(i);
      }
    }
    return NoneFree;
  }

  datatype RouteTable = Failed | Printed(lines: seq<RouteLine>)
}
