/** The tarsum checksum of an archive: streaming (docker) and batch (docker-registry). */
module TarSum {
  import opened Text
  import opened Rearrange

  /** A hash function on strings, the hexadecimal encoding included. */
  type Hash = string -> string

  datatype Header = Header(
    name: string, mode: int, uid: int, gid: int, size: int, mtime: int, typeflag: char,
    linkname: string, uname: string, gname: string, devmajor: int, devminor: int)

  datatype Entry = Entry(header: Header, body: string)

  /** strconv.Itoa. */
  function Itoa(n: int): string {
    if n < 0 then "-" + Format(-n) else Format(n)
  }

  function Fields(h: Header): seq<(string, string)> {
    [("name", h.name), ("mode", Itoa(h.mode)), ("uid", Itoa(h.uid)), ("gid", Itoa(h.gid)),
     ("size", Itoa(h.size)), ("mtime", Itoa(h.mtime)), ("typeflag", [h.typeflag]),
     ("linkname", h.linkname), ("uname", h.uname), ("gname", h.gname),
     ("devmajor", Itoa(h.devmajor)), ("devminor", Itoa(h.devminor))]
  }

  /** Names and values in a row, nothing between them. */
  function Spell(fields: seq<(string, string)>): string {
    if fields == [] then "" else fields[0].0 + fields[0].1 + Spell(fields[1..])
  }

  lemma SpellStep(fs: seq<(string, string)>, i: nat)
    requires i < |fs|
    ensures Spell(fs[..i + 1]) == Spell(fs[..i]) + fs[i].0 + fs[i].1
  {
    assert fs[..i + 1] == fs[..i] + [fs[i]];
    SpellAppend(fs[..i], fs[i]);
    Associate(Spell(fs[..i]), fs[i].0, fs[i].1);
  }

  lemma SpellTwelve(fs: seq<(string, string)>)
    requires |fs| == 12
    ensures Spell(fs) ==
      fs[0].0 + fs[0].1 + fs[1].0 + fs[1].1 + fs[2].0 + fs[2].1 + fs[3].0 + fs[3].1 + fs[4].0 + fs[4].1
      + fs[5].0 + fs[5].1 + fs[6].0 + fs[6].1 + fs[7].0 + fs[7].1 + fs[8].0 + fs[8].1
      + fs[9].0 + fs[9].1 + fs[10].0 + fs[10].1 + fs[11].0 + fs[11].1
  {
    assert fs[..0] == [] && fs[..12] == fs && "" + fs[0].0 == fs[0].0;
    assert Spell([]) == "";
    hide Spell;
    for i := 0 to 12
      invariant forall j :: 0 <= j < i ==> Spell(fs[..j + 1]) == Spell(fs[..j]) + fs[j].0 + fs[j].1
    {
      SpellStep(fs, i);
    }
  }

  /** Twelve names, each in front of its value, numbers in decimal. */
  lemma HeaderSpelled(h: Header)
    ensures Spell(Fields(h)) ==
      "name" + h.name + "mode" + Itoa(h.mode) + "uid" + Itoa(h.uid) + "gid" + Itoa(h.gid) + "size" + Itoa(h.size)
      + "mtime" + Itoa(h.mtime) + "typeflag" + [h.typeflag] + "linkname" + h.linkname + "uname" + h.uname
      + "gname" + h.gname + "devmajor" + Itoa(h.devmajor) + "devminor" + Itoa(h.devminor)
  {
    SpellTwelve(Fields(h));
    hide Spell, Itoa;
  }

  /** A decimal numeral without a plus sign or needless zeros, of the number it stands for. */
  lemma ItoaIs(n: int)
    ensures ParseInt(Itoa(n)) == Some(n) && Itoa(n)[0] != '+'
    ensures n != 0 ==> Itoa(n)[if n < 0 then 1 else 0] != '0'
  {
    var m := if n < 0 then -n else n;
    NumberOfFormat(m);
    FormatStart(m);
    if n < 0 { assert Itoa(n)[1..] == Format(m); }
  }

  /** What is hashed for an entry. */
  function EntryText(e: Entry): string {
    Spell(Fields(e.header)) + e.body
  }

  function EntryTexts(es: seq<Entry>): seq<string> {
    Map(EntryText, es)
  }

  function Concat(ss: seq<string>): string {
    if ss == [] then "" else ss[0] + Concat(ss[1..])
  }

  lemma {:induction false} SpellAppend(fields: seq<(string, string)>, f: (string, string))
    ensures Spell(fields + [f]) == Spell(fields) + (f.0 + f.1)
  {
    if fields == [] {
      assert fields + [f] == [f] && [f][1..] == [];
    } else {
      assert (fields + [f])[1..] == fields[1..] + [f];
      SpellAppend(fields[1..], f);
    }
  }

  lemma {:induction false} ConcatAppend(ss: seq<string>, s: string)
    ensures Concat(ss + [s]) == Concat(ss) + s
  {
    if ss == [] {
      assert ss + [s] == [s] && [s][1..] == [];
    } else {
      assert (ss + [s])[1..] == ss[1..] + [s];
      ConcatAppend(ss[1..], s);
    }
  }

  // ---------- the order of the digests ----------

  /** Byte-wise lexicographic order. */
  predicate Leq(a: string, b: string) {
    a == "" || (b != "" && (a[0] < b[0] || (a[0] == b[0] && Leq(a[1..], b[1..]))))
  }

  lemma {:induction false} LeqTotal(a: string, b: string)
    ensures Leq(a, b) || Leq(b, a)
    ensures Leq(a, b) && Leq(b, a) ==> a == b
  {
    if a != "" && b != "" && a[0] == b[0] {
      LeqTotal(a[1..], b[1..]);
      assert a == [a[0]] + a[1..] && b == [b[0]] + b[1..];
    }
  }

  lemma {:induction false} LeqTransitive(a: string, b: string, c: string)
    requires Leq(a, b) && Leq(b, c)
    ensures Leq(a, c)
  {
    if a != "" && a[0] == b[0] && b[0] == c[0] { LeqTransitive(a[1..], b[1..], c[1..]); }
  }

  lemma LeqIsTotalOrder()
    ensures TotalOrder(Leq)
  {
    forall a, b ensures (Leq(a, b) || Leq(b, a)) && (Leq(a, b) && Leq(b, a) ==> a == b) { LeqTotal(a, b); }
    forall a, b, c | Leq(a, b) && Leq(b, c) ensures Leq(a, c) { LeqTransitive(a, b, c); }
  }

  /** The first position where a and b differ is i, and a has the smaller character there. */
  ghost predicate SmallerAt(a: string, b: string, i: nat) {
    i < |a| && i < |b| && a[..i] == b[..i] && a[i] < b[i]
  }

  /** a is a prefix of b, or smaller at the first position where they differ. */
  ghost predicate NotAfter(a: string, b: string) {
    a <= b || exists i: nat :: SmallerAt(a, b, i)
  }

  lemma {:induction false} LeqIff(a: string, b: string)
    ensures Leq(a, b) <==> NotAfter(a, b)
  {
    if a != "" && b != "" {
      assert a == [a[0]] + a[1..] && b == [b[0]] + b[1..];
      if a[0] == b[0] {
        LeqIff(a[1..], b[1..]);
        assert a <= b <==> a[1..] <= b[1..];
        SmallerBehind(a, b);
      } else {
        assert SmallerAt(a, b, 0) <==> a[0] < b[0];
        if i: nat :| SmallerAt(a, b, i) && i > 0 { SameStart(a, b, i); }
      }
    }
  }

  lemma SameStart(a: string, b: string, i: nat)
    requires SmallerAt(a, b, i) && i > 0
    ensures a[0] == b[0]
  {
    assert a[..i][0] == b[..i][0];
  }

  lemma SmallerBehind(a: string, b: string)
    requires a != "" && b != "" && a[0] == b[0]
    ensures (exists i: nat :: SmallerAt(a, b, i)) <==> exists i: nat :: SmallerAt(a[1..], b[1..], i)
  {
    forall i: nat | 0 < i <= |a| && i <= |b|
      ensures a[..i] == [a[0]] + a[1..][..i - 1] && b[..i] == [b[0]] + b[1..][..i - 1]
    {
    }
    if i: nat :| SmallerAt(a, b, i) {
      assert a[..i][1..] == a[1..][..i - 1] && b[..i][1..] == b[1..][..i - 1];
      assert SmallerAt(a[1..], b[1..], i - 1);
    }
    if i: nat :| SmallerAt(a[1..], b[1..], i) { assert SmallerAt(a, b, i + 1); }
  }

  ghost predicate Ascending(ss: seq<string>) {
    forall i, j :: 0 <= i < j < |ss| ==> NotAfter(ss[i], ss[j])
  }

  lemma AscendingIsSorted(ss: seq<string>)
    ensures Ascending(ss) <==> IsSorted(Leq, ss)
  {
    hide Leq, NotAfter;
    forall i, j | 0 <= i < j < |ss| ensures Leq(ss[i], ss[j]) <==> NotAfter(ss[i], ss[j]) { LeqIff(ss[i], ss[j]); }
  }

  /** Any sorting will do: the library's algorithm is not modelled. */
  method SortStrings(ss: seq<string>) returns (r: seq<string>)
    ensures Ascending(r) && SameElements(r, ss)
    ensures r == Sorted(Leq, ss)
  {
    LeqIsTotalOrder();
    hide Leq;
    SortedSorts(Leq, ss);
    r :| IsSorted(Leq, r) && multiset(r) == multiset(ss);
    SortedUnique(Leq, r, Sorted(Leq, ss));
    AscendingIsSorted(r);
  }

  // ---------- the checksum and what it depends on ----------

  function Checksum(hash: Hash, extra: string, texts: seq<string>): string {
    "tarsum+sha256:" + hash(extra + Concat(Sorted(Leq, Map(hash, texts))))
  }

  /** The digests in ascending order, one behind the other and behind the extra bytes, are what is hashed. */
  lemma ChecksumIs(hash: Hash, extra: string, texts: seq<string>, digests: seq<string>)
    requires Ascending(digests) && SameElements(digests, Map(hash, texts))
    ensures Checksum(hash, extra, texts) == "tarsum+sha256:" + hash(extra + Concat(digests))
  {
    LeqIsTotalOrder();
    AscendingIsSorted(digests);
    hide Leq, Concat;
    SortedSorts(Leq, Map(hash, texts));
    SortedUnique(Leq, digests, Sorted(Leq, Map(hash, texts)));
  }

  /** The order of the entries does not matter, whatever the hash function. */
  lemma OrderIndependent(hash: Hash, extra: string, xs: seq<string>, ys: seq<string>)
    requires SameElements(xs, ys)
    ensures Checksum(hash, extra, xs) == Checksum(hash, extra, ys)
  {
    MapPermutes(hash, xs, ys);
    LeqIsTotalOrder();
    hide Leq;
    SortedSorts(Leq, Map(hash, xs));
    SortedSorts(Leq, Map(hash, ys));
    SortedUnique(Leq, Sorted(Leq, Map(hash, xs)), Sorted(Leq, Map(hash, ys)));
  }

  lemma {:induction false} ConcatInjective(xs: seq<string>, ys: seq<string>, d: nat)
    requires d > 0 && (forall x :: x in xs ==> |x| == d) && (forall y :: y in ys ==> |y| == d)
    requires Concat(xs) == Concat(ys)
    ensures xs == ys
  {
    assert xs != [] ==> |Concat(xs)| >= |xs[0]| && xs[0] in xs;
    assert ys != [] ==> |Concat(ys)| >= |ys[0]| && ys[0] in ys;
    if xs != [] && ys != [] {
      assert xs[0] == Concat(xs)[..d] && ys[0] == Concat(ys)[..d];
      assert Concat(xs[1..]) == Concat(xs)[d..] && Concat(ys[1..]) == Concat(ys)[d..];
      ConcatInjective(xs[1..], ys[1..], d);
      assert xs == [xs[0]] + xs[1..] && ys == [ys[0]] + ys[1..];
    }
  }

  /** Every string that is hashed for a checksum. */
  ghost function Hashed(hash: Hash, extra: string, texts: seq<string>): set<string> {
    (set t | t in texts) + {extra + Concat(Sorted(Leq, Map(hash, texts)))}
  }

  /** Equal checksums mean equal entries, unless two of the strings hashed for them have one digest. */
  lemma SameChecksumSameEntries(hash: Hash, extra: string, xs: seq<string>, ys: seq<string>, d: nat)
    requires d > 0 && (forall t :: t in xs || t in ys ==> |hash(t)| == d)
    requires Checksum(hash, extra, xs) == Checksum(hash, extra, ys)
    ensures SameElements(xs, ys) || Collides(hash, Hashed(hash, extra, xs) + Hashed(hash, extra, ys))
  {
    var s, t := Sorted(Leq, Map(hash, xs)), Sorted(Leq, Map(hash, ys));
    var inputs := Hashed(hash, extra, xs) + Hashed(hash, extra, ys);
    LeqIsTotalOrder();
    SortedSorts(Leq, Map(hash, xs));
    SortedSorts(Leq, Map(hash, ys));
    hide Leq, Sorted, IsSorted, Concat;
    SuffixEqual("tarsum+sha256:", hash(extra + Concat(s)), hash(extra + Concat(t)));
    if !Collides(hash, inputs) {
      assert extra + Concat(s) in inputs && extra + Concat(t) in inputs;
      SuffixEqual(extra, Concat(s), Concat(t));
      DigestLengths(hash, xs, s, d);
      DigestLengths(hash, ys, t, d);
      ConcatInjective(s, t, d);
      MapReflects(hash, xs, ys, inputs);
    }
  }

  lemma SuffixEqual(p: string, a: string, b: string)
    requires p + a == p + b
    ensures a == b
  {
    assert (p + a)[|p|..] == a && (p + b)[|p|..] == b;
  }

  lemma DigestLengths(hash: Hash, xs: seq<string>, s: seq<string>, d: nat)
    requires SameElements(s, Map(hash, xs)) && forall x :: x in xs ==> |hash(x)| == d
    ensures forall x :: x in s ==> |x| == d
  {
    forall x | x in s ensures |x| == d {
      assert x in multiset(s) && x in multiset(Map(hash, xs));
    }
  }

  // ---------- the streaming form ----------

  /** A tar reader on a well-formed archive whose source hands out bytes in pieces of its choosing. */
  class TarReader {
    const entries: seq<Entry>
    var next: nat
    var nb: nat

    ghost predicate Valid()
      reads this
    {
      && (forall i :: 0 <= i < |entries| ==> entries[i].header.size == |entries[i].body|)
      && next <= |entries| && (if next == 0 then nb == 0 else nb <= |entries[next - 1].body|)
    }

    constructor (entries: seq<Entry>)
      requires forall i :: 0 <= i < |entries| ==> entries[i].header.size == |entries[i].body|
      ensures Valid() && this.entries == entries && next == 0
    {
      this.entries, next, nb := entries, 0, 0;
    }

    /** The part of the current entry's body that was read. */
    ghost function Seen(): string
      requires Valid() && next > 0
      reads this
    {
      entries[next - 1].body[..|entries[next - 1].body| - nb]
    }

    method Read(size: nat) returns (data: string, eof: bool)
      requires Valid()
      modifies this`nb
      ensures Valid() && |data| <= size && nb == old(nb) - |data|
      ensures eof <==> old(nb) == 0
      ensures eof ==> data == ""
      ensures !eof && size > 0 ==> data != ""
      ensures next > 0 ==> Seen() == old(Seen()) + data
    {
      if nb == 0 {
        return "", true;
      }
      var body, most := entries[next - 1].body, if size > nb then nb else size;
      var n: nat :| n <= most && (most > 0 ==> n > 0);
      data := body[|body| - nb..|body| - nb + n];
      eof := false;
      nb := nb - n;
    }

    /** Skips what is left of the entry; None at the end of the archive. */
    method Next() returns (h: Option<Header>)
      requires Valid()
      modifies this
      ensures Valid()
      ensures old(next) == |entries| ==> h.None? && next == old(next) && nb == old(nb)
      ensures old(next) < |entries| ==> next == old(next) + 1 && h == Some(entries[old(next)].header) && Seen() == ""
    {
      if next == |entries| {
        return None;
      }
      var e := entries[next];
      next, nb := next + 1, e.header.size;
      return Some(e.header);
    }
  }

  class TarSum {
    const hash: Hash
    const tarR: TarReader
    var started: bool      // the fields below are set up by the first Read
    var h: string          // what the running hash was fed since its last reset
    var sums: seq<string>
    var first: bool
    var finished: bool
    var pending: nat       // compressed bytes waiting in bufGz

    /** The running hash has the current entry's header and the part of its body that was read. */
    ghost predicate InEntry()
      requires tarR.Valid()
      reads this, tarR
    {
      && tarR.next > 0 && h == Spell(Fields(tarR.entries[tarR.next - 1].header)) + tarR.Seen()
      && sums == Map(hash, EntryTexts(tarR.entries[..tarR.next - 1]))
    }

    /** What the fields are before, between and after the entries. */
    ghost predicate Valid()
      reads this, tarR
    {
      && tarR.Valid()
      && (!started ==> !first && !finished && tarR.next == 0 && h == "" && sums == [])
      && (started && first ==> !finished && tarR.next == 0 && h == "" && sums == [])
      && (started && !first && !finished ==> InEntry())
      && (finished ==> started && tarR.next == |tarR.entries| && sums == Map(hash, EntryTexts(tarR.entries)))
    }

    constructor (hash: Hash, tarR: TarReader)
      requires tarR.Valid() && tarR.next == 0
      ensures Valid() && this.hash == hash && this.tarR == tarR && !finished
    {
      this.hash, this.tarR := hash, tarR;
      started, first, finished := false, false, false;
      h, sums, pending := "", [], 0;
    }

    method EncodeHeader(hd: Header)
      modifies this`h
      ensures h == old(h) + Spell(Fields(hd))
    {
      var fields := Fields(hd);
      hide Fields;
      for i := 0 to |fields|
        invariant h == old(h) + Spell(fields[..i])
      {
        h := h + (fields[i].0 + fields[i].1);
        assert fields[..i + 1] == fields[..i] + [fields[i]];
        SpellAppend(fields[..i], fields[i]);
      }
      assert fields[..|fields|] == fields;
    }

    /** gz.Flush and gz.Close always emit something. */
    method Flush()
      modifies this`pending
      ensures pending > old(pending)
    {
      var k: nat :| k > 0;
      pending := pending + k;
    }

    /** Reading the bytes.Buffer bufGz. */
    method ReadGz(size: nat) returns (n: nat, eof: bool)
      modifies this`pending
      ensures n == (if size < old(pending) then size else old(pending)) && pending == old(pending) - n
      ensures eof <==> old(pending) == 0 && size > 0
    {
      n := if size < pending then size else pending;
      eof := pending == 0 && size > 0;
      pending := pending - n;
    }

    /** Every Read into a non-empty buffer brings the end nearer; the end of file comes only after the
        archive is used up. */
    method Read(size: nat) returns (n: nat, eof: bool)
      requires Valid()
      modifies this, tarR
      ensures Valid()
      ensures eof <==> old(finished) && old(pending) == 0 && size > 0
      ensures old(finished) ==> finished && sums == old(sums) && pending == old(pending) - n
      ensures size > 0 && !eof ==> Nearer(old(finished), old(tarR.next), old(tarR.nb), old(pending))
    {
      hide Fields, Spell, EntryTexts, Map;
      if !started {
        started, first := true, true;
      }
      if finished {
        n, eof := ReadGz(size);
        return;
      }
      var end := ReadBody(size);
      if end {
        EndOfEntry();
        var more := NextHeader();
        if !more {
          return 0, false;
        }
        n, eof := ReadGz(size);
        return;
      }
      Flush();
      n, eof := ReadGz(size);
    }

    /** What was read is fed to the hash; at the end of an entry nothing was read. */
    method ReadBody(size: nat) returns (end: bool)
      requires Valid() && started && !finished
      modifies this`h, tarR
      ensures Valid() && tarR.next == old(tarR.next)
      ensures end <==> old(tarR.nb) == 0
      ensures if end || size == 0 then tarR.nb == old(tarR.nb) else tarR.nb < old(tarR.nb)
    {
      hide Fields, Spell, EntryTexts, Map;
      var data, e := tarR.Read(size);
      end := e;
      h := h + data;
      assert !first ==> old(h) + data == Spell(Fields(tarR.entries[tarR.next - 1].header)) + tarR.Seen();
    }

    /** The entry that was read is accounted for. */
    ghost predicate Between()
      requires tarR.Valid()
      reads this, tarR
    {
      h == "" && sums == Map(hash, EntryTexts(tarR.entries[..tarR.next]))
    }

    /** On to the next header, or finish. */
    method NextHeader() returns (more: bool)
      requires tarR.Valid() && Between()
      modifies tarR, this`h, this`finished, this`pending
      ensures tarR.Valid() && pending > old(pending)
      ensures more ==> tarR.next == old(tarR.next) + 1 && InEntry() && finished == old(finished)
      ensures !more ==> tarR.next == |tarR.entries| && finished && sums == Map(hash, EntryTexts(tarR.entries))
    {
      hide Fields, Spell, EntryTexts, EntryText, Map;
      var hd := tarR.Next();
      if hd.None? {
        assert tarR.entries[..|tarR.entries|] == tarR.entries;
        Flush();
        finished := true;
        return false;
      }
      EncodeHeader(hd.value);
      assert "" + Spell(Fields(hd.value)) == Spell(Fields(hd.value)) + tarR.Seen();
      Flush();
      return true;
    }

    /** The end of an entry, or the very beginning. */
    method EndOfEntry()
      requires Valid() && started && !finished && tarR.nb == 0
      modifies this`sums, this`h, this`first
      ensures Between() && !first
    {
      if !first {
        FinishEntry();
      } else {
        first := false;
      }
    }

    /** The digest of the entry just read is added. */
    method FinishEntry()
      requires tarR.Valid() && InEntry() && tarR.nb == 0
      modifies this`sums, this`h
      ensures Between()
    {
      ghost var es, k := tarR.entries, tarR.next;
      assert es[k - 1].body[..|es[k - 1].body| - 0] == es[k - 1].body;
      assert h == EntryText(es[k - 1]);
      assert es[..k] == es[..k - 1] + [es[k - 1]];
      MapAppend(EntryText, es[..k - 1], es[k - 1]);
      MapAppend(hash, EntryTexts(es[..k - 1]), h);
      hide Map, EntryTexts, EntryText;
      sums := sums + [hash(h)];
      h := "";
    }

    /** Work left, in lexicographic order: end of archive, entries, bytes, output. */
    ghost predicate Nearer(wasFinished: bool, next: nat, nb: nat, waiting: nat)
      reads this, tarR
    {
      || (finished && !wasFinished)
      || (finished == wasFinished && tarR.next > next)
      || (finished == wasFinished && tarR.next == next && tarR.nb < nb)
      || (finished == wasFinished && tarR.next == next && tarR.nb == nb && pending < waiting)
    }

    /** A client that reads to the end of file with buffers of any non-empty sizes. */
    method ReadAll()
      requires Valid()
      modifies this, tarR
      ensures Valid() && finished
    {
      var eof := false;
      while !eof
        invariant Valid() && (eof ==> finished)
        decreases !eof, !finished, |tarR.entries| - tarR.next, tarR.nb, pending
      {
        var size: nat :| size > 0;
        var _, e := Read(size);
        eof := e;
      }
    }

    /** For the sums of a whole archive this is the checksum of its entries: chunking, entry order
        and the sorting algorithm leave no trace. */
    method Sum(extra: Option<string>) returns (r: string)
      modifies this`sums
      ensures Ascending(sums) && SameElements(sums, old(sums))
      ensures sums == Sorted(Leq, old(sums))
      ensures r == "tarsum+sha256:" + hash((if extra.Some? then extra.value else "") + Concat(sums))
    {
      var sorted := SortStrings(sums);
      hide *;
      sums := sorted;
      var fed := FeedAll(if extra.Some? then extra.value else "", sums);
      return "tarsum+sha256:" + hash(fed);
    }
  }

  method FeedAll(extra: string, sums: seq<string>) returns (fed: string)
    ensures fed == extra + Concat(sums)
  {
    fed := extra;
    ghost var done := "";
    for i := 0 to |sums|
      invariant done == Concat(sums[..i]) && fed == extra + done
    {
      fed := fed + sums[i];
      assert extra + done + sums[i] == extra + (done + sums[i]);
      ConcatAppend(sums[..i], sums[i]);
      assert sums[..i + 1] == sums[..i] + [sums[i]];
      done := done + sums[i];
    }
    assert sums[..|sums|] == sums;
  }

  /** Read an archive through, then ask for the sum. */
  method StreamingSum(hash: Hash, entries: seq<Entry>, json: string) returns (r: string)
    requires forall i :: 0 <= i < |entries| ==> entries[i].header.size == |entries[i].body|
    ensures r == Checksum(hash, json, EntryTexts(entries))
  {
    var reader := new TarReader(entries);
    var ts := new TarSum(hash, reader);
    ts.ReadAll();
    r := ts.Sum(Some(json));
  }

  // ---------- the batch form ----------

  /** What tarfile's extractfile gives: no file object, a KeyError for a missing link target, or bytes. */
  datatype Contents = NoFile | Missing | File(bytes: string)

  datatype Member = Member(info: Header, isDir: bool, contents: Contents)

  datatype Attribute = Name | Mode | Uid | Gid | Size | Mtime | Type | Linkname | Uname | Gname | Devmajor | Devminor

  const HEADER_FIELDS: seq<Attribute> :=
    [Name, Mode, Uid, Gid, Size, Mtime, Type, Linkname, Uname, Gname, Devmajor, Devminor]

  /** The label and the value that compute_tarsum writes for a field. */
  function Column(m: Member, a: Attribute): (string, string) {
    match a
    case Name => ("name", m.info.name + if m.isDir && !EndsWithSlash(m.info.name) then "/" else "")
    case Mode => ("mode", Itoa(m.info.mode))
    case Uid => ("uid", Itoa(m.info.uid))
    case Gid => ("gid", Itoa(m.info.gid))
    case Size => ("size", Itoa(m.info.size))
    case Mtime => ("mtime", Itoa(m.info.mtime))
    case Type => ("typeflag", [m.info.typeflag])
    case Linkname => ("linkname", m.info.linkname)
    case Uname => ("uname", m.info.uname)
    case Gname => ("gname", m.info.gname)
    case Devmajor => ("devmajor", Itoa(m.info.devmajor))
    case Devminor => ("devminor", Itoa(m.info.devminor))
  }

  predicate EndsWithSlash(s: string) {
    s != "" && s[|s| - 1] == '/'
  }

  /** The header that the streaming form sees for the same entry: directories end in a slash. */
  function Normalised(m: Member): Header {
    m.info.(name := m.info.name + if m.isDir && !EndsWithSlash(m.info.name) then "/" else "")
  }

  /** Only directories are renamed, and only if they do not end in a slash yet. */
  lemma NormalisedName(m: Member)
    ensures m.isDir ==> EndsWithSlash(Normalised(m).name)
    ensures Normalised(m).name == m.info.name || Normalised(m).name == m.info.name + "/"
    ensures !m.isDir || EndsWithSlash(m.info.name) ==> Normalised(m) == m.info
    ensures Normalised(m) == m.info.(name := Normalised(m).name)
  {
    assert m.info.name + "" == m.info.name;
  }

  function MemberBody(m: Member): string {
    if m.info.size > 0 && m.contents.File? then m.contents.bytes else ""
  }

  function MemberText(m: Member): string {
    Spell(Fields(Normalised(m))) + MemberBody(m)
  }

  function MemberTexts(ms: seq<Member>): seq<string> {
    Map(MemberText, ms)
  }

  lemma ColumnIsField(m: Member, i: nat)
    requires i < |HEADER_FIELDS|
    ensures |Fields(Normalised(m))| == |HEADER_FIELDS|
    ensures Column(m, HEADER_FIELDS[i]) == Fields(Normalised(m))[i]
  {
  }

  method MemberHeader(m: Member) returns (header: string)
    ensures header == Spell(Fields(Normalised(m)))
  {
    ghost var fields := Fields(Normalised(m));
    header := "";
    for i := 0 to |HEADER_FIELDS|
      invariant |fields| == |HEADER_FIELDS| && header == Spell(fields[..i])
    {
      var (label_, value) := Column(m, HEADER_FIELDS[i]);
      header := header + (label_ + value);
      ColumnIsField(m, i);
      assert fields[..i + 1] == fields[..i] + [fields[i]];
      SpellAppend(fields[..i], fields[i]);
    }
    assert fields[..|fields|] == fields;
  }

  /** Reading a file in pieces of at most 4096 bytes gives the digest of the whole. */
  method Sha256File(hash: Hash, file: Option<string>, data: string) returns (r: string)
    ensures r == hash(data + if file.Some? then file.value else "")
  {
    var h := data;
    if file.None? {
      return hash(h + "");
    }
    var pos := 0;
    while pos < |file.value|
      invariant pos <= |file.value| && h == data + file.value[..pos]
    {
      var n: nat :| 0 < n <= 4096 && pos + n <= |file.value|;
      h := h + file.value[pos..pos + n];
      assert file.value[..pos + n] == file.value[..pos] + file.value[pos..pos + n];
      pos := pos + n;
    }
    assert file.value[..pos] == file.value;
    return hash(h);
  }

  method MemberDigest(hash: Hash, m: Member) returns (d: string)
    ensures d == hash(MemberText(m))
  {
    var header := MemberHeader(m);
    if m.info.size > 0 && !m.contents.Missing? {
      d := Sha256File(hash, if m.contents.File? then Some(m.contents.bytes) else None, header);
    } else {
      assert header + "" == header;
      d := hash(header);
    }
  }

  method ComputeTarsum(hash: Hash, members: seq<Member>, json: string) returns (r: string)
    ensures r == Checksum(hash, json, MemberTexts(members))
  {
    var hashes: seq<string> := [];
    for i := 0 to |members|
      invariant hashes == Map(hash, MemberTexts(members[..i]))
    {
      var d := MemberDigest(hash, members[i]);
      hashes := hashes + [d];
      assert members[..i + 1] == members[..i] + [members[i]];
      MapAppend(MemberText, members[..i], members[i]);
      MapAppend(hash, MemberTexts(members[..i]), MemberText(members[i]));
    }
    assert members[..|members|] == members;
    hide Map, MemberTexts, Leq, Sorted, Concat;
    var sorted := SortStrings(hashes);
    return "tarsum+sha256:" + hash(json + Concat(sorted));
  }

  // ---------- the two forms agree ----------

  /** For one entry with the same header, both hash the same text exactly if the entry is empty or the
      batch form can extract its bytes. */
  lemma SameTextIff(e: Entry, m: Member)
    requires e.header == Normalised(m) && e.header.size == |e.body|
    ensures EntryText(e) == MemberText(m) <==> e.body == "" || m.contents == File(e.body)
  {
    var t := Spell(Fields(e.header));
    assert (t + e.body)[|t|..] == e.body && (t + MemberBody(m))[|t|..] == MemberBody(m);
  }

  /** The same entries, listed in any order, have one checksum in both programs. */
  lemma StreamingIsBatch(hash: Hash, json: string, es: seq<Entry>, ms: seq<Member>, order: seq<nat>)
    requires |es| == |ms| == |order|
    requires forall i :: 0 <= i < |order| ==> order[i] < |es|
    requires forall i, j :: 0 <= i < j < |order| ==> order[i] != order[j]
    requires forall i :: 0 <= i < |ms| ==> es[order[i]].header == Normalised(ms[i])
    requires forall i :: 0 <= i < |es| ==> es[i].header.size == |es[i].body|
    requires forall i :: 0 <= i < |ms| && es[order[i]].body != "" ==> ms[i].contents == File(es[order[i]].body)
    ensures Checksum(hash, json, EntryTexts(es)) == Checksum(hash, json, MemberTexts(ms))
  {
    var xs, ys := EntryTexts(es), MemberTexts(ms);
    forall i | 0 <= i < |ms| ensures ys[i] == xs[order[i]] { SameTextIff(es[order[i]], ms[i]); }
    OrderedIsSame(xs, ys, order);
    OrderIndependent(hash, json, xs, ys);
  }
}
