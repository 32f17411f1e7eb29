/** Encoding of maps of string lists: netstrings (section 2, Definition, of D. J. Bernstein's
    "Netstrings"), lists of netstrings inside a netstring, and a message header. */
module Netstring {
  import opened Text

  const MAX_INT64 := 0x7fff_ffff_ffff_ffff
  const MAX_UINT64 := 0xffff_ffff_ffff_ffff

  type Obj = map<string, seq<string>>

  /** A value with the number of bytes it took; the function's error; or a run-time panic. */
  datatype Decoded<T> = Ok(value: T, skip: nat) | Bad | Panics

  // ---------- strings ----------

  function EncodeString(s: string): string {
    Format(|s|) + [':'] + (s + [','])
  }

  /** Go's conversion of a uint64 to int, and int addition of one. */
  function ToInt(l: nat): int {
    if l <= MAX_INT64 then l else l - (MAX_UINT64 + 1)
  }

  function PlusOne(n: int): int {
    if n == MAX_INT64 then -MAX_INT64 - 1 else n + 1
  }

  function DecodeString(msg: string): Decoded<string> {
    var colon := Find(msg, ':');
    if colon == |msg| then Bad
    else
      match ParseUint(msg[..colon], MAX_UINT64)
      case Num(l) =>
        var length, rest := ToInt(l), msg[colon + 1..];
        var end := PlusOne(length);
        if |rest| < end then Bad
        else if end < 0 then Panics          // slice bounds
        else if !(0 <= length < end) then Panics  // index
        else if rest[length] != ',' then Bad
        else Ok(rest[..length], colon + 1 + length + 1)
      case _ => Bad
  }

  /** What DecodeString accepts: digits whose value is the length, ':', the string, ','. */
  lemma DecodeStringAccepts(msg: string, s: string, skip: nat)
    ensures DecodeString(msg) == Ok(s, skip) ==> exists d :: Framed(msg, d, s, skip)
    ensures |s| < MAX_INT64 && (exists d :: Framed(msg, d, s, skip)) ==> DecodeString(msg) == Ok(s, skip)
  {
    if DecodeString(msg) == Ok(s, skip) {
      var colon := Find(msg, ':');
      var rest := msg[colon + 1..];
      assert rest[..|s| + 1] == s + [','];
      assert msg[..skip] == msg[..colon] + [':'] + rest[..|s| + 1];
      assert Framed(msg, msg[..colon], s, skip);
    }
    if |s| < MAX_INT64 {
      if d :| Framed(msg, d, s, skip) { DecodeFramed(msg, d, s, skip); }
    }
  }

  ghost predicate Framed(msg: string, d: string, s: string, skip: nat) {
    && d != "" && (forall i :: 0 <= i < |d| ==> IsDigit(d[i])) && Number(d) == |s|
    && skip <= |msg| && msg[..skip] == d + [':'] + (s + [','])
  }

  lemma DecodeFramed(msg: string, d: string, s: string, skip: nat)
    requires Framed(msg, d, s, skip) && |s| < MAX_INT64
    ensures DecodeString(msg) == Ok(s, skip)
  {
    var tail := msg[skip..];
    assert msg == d + [':'] + ((s + [',']) + tail);
    FindAfter(d, ':', (s + [',']) + tail);
    assert msg[..|d|] == d;
    assert msg[|d| + 1..] == (s + [',']) + tail;
    assert ((s + [',']) + tail)[..|s|] == s;
  }

  /** Decoding takes back exactly what encoding wrote, whatever follows. */
  lemma StringRoundTrip(s: string, tail: string)
    requires |s| < MAX_INT64
    ensures DecodeString(EncodeString(s) + tail) == Ok(s, |EncodeString(s)|)
  {
    var msg, skip := EncodeString(s) + tail, |EncodeString(s)|;
    NumberOfFormat(|s|);
    assert msg[..skip] == EncodeString(s);
    DecodeFramed(msg, Format(|s|), s, skip);
  }

  /** Decoding panics exactly on a length field from 2^63 - 1 up that still fits 64 bits. */
  lemma DecodePanicsIff(msg: string)
    ensures DecodeString(msg) == Panics <==>
      Find(msg, ':') < |msg| && ParseUint(msg[..Find(msg, ':')], MAX_UINT64).Num?
      && ParseUint(msg[..Find(msg, ':')], MAX_UINT64).n >= MAX_INT64
  {
  }

  // ---------- lists ----------

  function EncodeStrings(l: seq<string>): string {
    if l == [] then "" else EncodeStrings(l[..|l| - 1]) + EncodeString(l[|l| - 1])
  }

  function EncodeList(l: seq<string>): string {
    EncodeString(EncodeStrings(l))
  }

  /** Decode strings up to the end of the blob. */
  function DecodeStrings(blob: string): Decoded<seq<string>>
    decreases |blob|
  {
    if blob == "" then Ok([], 0)
    else
      match DecodeString(blob)
      case Bad => Bad
      case Panics => Panics
      case Ok(v, skip) =>
        match DecodeStrings(blob[skip..])
        case Bad => Bad
        case Panics => Panics
        case Ok(l, more) => Ok([v] + l, skip + more)
  }

  function DecodeList(msg: string): Decoded<seq<string>> {
    match DecodeString(msg)
    case Bad => Bad
    case Panics => Panics
    case Ok(blob, skip) =>
      match DecodeStrings(blob)
      case Bad => Bad
      case Panics => Panics
      case Ok(l, _) => Ok(l, skip)
  }

  lemma {:induction false} EncodeStringsFirst(l: seq<string>)
    requires l != []
    ensures EncodeStrings(l) == EncodeString(l[0]) + EncodeStrings(l[1..])
  {
    hide EncodeString;
    var init := l[..|l| - 1];
    if |l| == 1 {
      assert init == [] && l[1..] == [];
    } else {
      EncodeStringsFirst(init);
      assert l[1..][..|l| - 2] == init[1..];
      Associate(EncodeString(l[0]), EncodeStrings(init[1..]), EncodeString(l[|l| - 1]));
    }
  }

  lemma {:induction false} StringsRoundTrip(l: seq<string>)
    requires |EncodeStrings(l)| <= MAX_INT64
    ensures DecodeStrings(EncodeStrings(l)) == Ok(l, |EncodeStrings(l)|)
  {
    if l != [] {
      var first, rest := EncodeString(l[0]), EncodeStrings(l[1..]);
      EncodeStringsFirst(l);
      Longer(l[0]);
      hide EncodeString, DecodeString, EncodeStrings;
      StringsRoundTrip(l[1..]);
      StringRoundTrip(l[0], rest);
      OneThenRest(l[0], l[1..], first, rest);
      assert l == [l[0]] + l[1..];
    }
  }

  lemma Longer(s: string)
    ensures |EncodeString(s)| > |s|
  {
  }

  lemma OneThenRest(s: string, l: seq<string>, first: string, rest: string)
    requires first != "" && DecodeString(first + rest) == Ok(s, |first|) && DecodeStrings(rest) == Ok(l, |rest|)
    ensures DecodeStrings(first + rest) == Ok([s] + l, |first| + |rest|)
  {
    hide DecodeString;
    assert (first + rest)[|first|..] == rest;
  }

  lemma ListRoundTrip(l: seq<string>, tail: string)
    requires |EncodeList(l)| <= MAX_INT64
    ensures DecodeList(EncodeList(l) + tail) == Ok(l, |EncodeList(l)|)
  {
    StringsRoundTrip(l);
    StringRoundTrip(EncodeStrings(l), tail);
  }

  /** The blob is the strings' netstrings, one behind the other. */
  ghost predicate Pieces(blob: string, l: seq<string>)
    decreases |l|
  {
    if l == [] then blob == ""
    else exists d, skip: nat :: Framed(blob, d, l[0], skip) && Pieces(blob[skip..], l[1..])
  }

  /** A blob decodes exactly if it is netstrings one behind the other, and to their strings. */
  lemma {:induction false} DecodeStringsAccepts(blob: string, l: seq<string>)
    requires |blob| <= MAX_INT64
    ensures DecodeStrings(blob) == Ok(l, |blob|) <==> Pieces(blob, l)
    ensures DecodeStrings(blob).Ok? ==> DecodeStrings(blob).skip == |blob|
    decreases |blob|
  {
    if blob == "" {
      assert forall d, s, skip: nat :: !Framed("", d, s, skip);
    } else if !DecodeString(blob).Ok? {
      DecodeStringsEnds(blob);
      hide Framed;
      forall e, w, n: nat ensures !Framed(blob, e, w, n) {
        if Framed(blob, e, w, n) { FramedOnce(blob, e, w, n); }
      }
    } else {
      StringSkips(blob);
      var v, skip := DecodeString(blob).value, DecodeString(blob).skip;
      DecodeStringAccepts(blob, v, skip);
      var d :| Framed(blob, d, v, skip);
      hide DecodeString, Framed;
      forall e, w, n: nat | Framed(blob, e, w, n) ensures w == v && n == skip { FramedOnce(blob, e, w, n); }
      DecodeStringsOne(blob);
      var rest := blob[skip..];
      DecodeStringsAccepts(rest, if l == [] then l else l[1..]);
      hide DecodeStrings;
      if l != [] {
        assert Framed(blob, d, v, skip) && l == [l[0]] + l[1..];
        assert Pieces(blob, l) <==> l[0] == v && Pieces(rest, l[1..]);
        var more := DecodeStrings(rest);
        assert more.Ok? ==> ([v] + more.value)[1..] == more.value;
      }
    }
  }

  lemma FramedOnce(blob: string, d: string, s: string, skip: nat)
    requires |blob| <= MAX_INT64 && Framed(blob, d, s, skip)
    ensures DecodeString(blob) == Ok(s, skip)
  {
    assert |blob[..skip]| == |d| + 2 + |s|;
    DecodeFramed(blob, d, s, skip);
  }

  // ---------- header ----------

  /** The header is four bytes, a number and a byte that is not looked at. */
  function DecodeHeader(msg: string): Option<int> {
    if |msg| < 4 then None else ParseInt(msg[..3])
  }

  const HEADER := "000;"

  lemma HeaderRoundTrip(tail: string)
    ensures DecodeHeader(HEADER + tail) == Some(0)
  {
    var msg := HEADER + tail;
    assert msg[..3] == "000";
    assert "000"[..2] == "00" && "00"[..1] == "0" && "0"[..0] == "";
    assert Number("0") == 0 && Number("00") == 0 && Number("000") == 0;
  }

  // ---------- maps ----------

  /** An order in which a map may be iterated. */
  ghost predicate Orders(obj: Obj, order: seq<string>) {
    (forall k :: k in order <==> k in obj) && forall i, j :: 0 <= i < j < |order| ==> order[i] != order[j]
  }

  function EncodeEntries(obj: Obj, order: seq<string>): string
    requires forall k :: k in order ==> k in obj
  {
    if order == [] then ""
    else
      var k := order[|order| - 1];
      assert k in order;
      EncodeEntries(obj, order[..|order| - 1]) + (EncodeString(k) + EncodeList(obj[k]))
  }

  /** Decode entries to the end of the message; a key that comes twice keeps its last list. */
  function DecodeEntries(msg: string, obj: Obj): Decoded<Obj>
    decreases |msg|
  {
    if msg == "" then Ok(obj, 0)
    else
      match DecodeString(msg)
      case Bad => Bad
      case Panics => Panics
      case Ok(k, skip) =>
        match DecodeList(msg[skip..])
        case Bad => Bad
        case Panics => Panics
        case Ok(values, more) => DecodeEntries(msg[skip + more..], obj[k := values])
  }

  lemma DecodeEntry(k: string, l: seq<string>, tail: string, obj: Obj)
    requires |EncodeString(k)| + |EncodeList(l)| <= MAX_INT64
    ensures DecodeEntries(EncodeString(k) + EncodeList(l) + tail, obj) == DecodeEntries(tail, obj[k := l])
  {
    var a, b := EncodeString(k), EncodeList(l);
    var msg := a + b + tail;
    assert msg == a + (b + tail);
    StringRoundTrip(k, b + tail);
    assert msg[|a|..] == b + tail;
    ListRoundTrip(l, tail);
    assert msg[|a| + |b|..] == tail;
  }

  function Picked(obj: Obj, order: seq<string>): Obj
    requires forall k :: k in order ==> k in obj
  {
    map k | k in order :: obj[k]
  }

  /** Decoding entries written in any order gives back their values. */
  lemma {:induction false} EntriesRoundTrip(obj: Obj, order: seq<string>, tail: string, acc: Obj)
    requires forall k :: k in order ==> k in obj
    requires |EncodeEntries(obj, order)| <= MAX_INT64
    ensures DecodeEntries(EncodeEntries(obj, order) + tail, acc)
         == DecodeEntries(tail, acc + Picked(obj, order))
  {
    hide EncodeString, EncodeList, DecodeEntries;
    if order == [] {
      assert EncodeEntries(obj, order) + tail == tail;
      assert acc + Picked(obj, order) == acc;
    } else {
      var init, k := order[..|order| - 1], order[|order| - 1];
      assert k in order && forall i :: i in init ==> i in order;
      var entries, a, b := EncodeEntries(obj, init), EncodeString(k), EncodeList(obj[k]);
      var before := acc + Picked(obj, init);
      EntriesRoundTrip(obj, init, a + b + tail, acc);
      Associate(entries, a + b, tail);
      DecodeEntry(k, obj[k], tail, before);
      OneMoreEntry(obj, order, acc);
    }
  }

  lemma OneMoreEntry(obj: Obj, order: seq<string>, acc: Obj)
    requires order != [] && forall k :: k in order ==> k in obj
    ensures var init, k := order[..|order| - 1], order[|order| - 1];
      (forall i :: i in init ==> i in order) && (acc + Picked(obj, init))[k := obj[k]] == acc + Picked(obj, order)
  {
    var init, k := order[..|order| - 1], order[|order| - 1];
    assert order == init + [k];
    assert forall i :: i in order <==> i in init || i == k;
  }

  function EncodeIn(obj: Obj, order: seq<string>): string
    requires forall k :: k in order ==> k in obj
  {
    HEADER + EncodeEntries(obj, order)
  }

  /** Decode: the header must be a number equal to 0. */
  function DecodeMap(msg: string): Decoded<Obj> {
    if DecodeHeader(msg) != Some(0) then Bad else DecodeEntries(msg[4..], map[])
  }

  /** The number in front must be 0. */
  lemma HeaderRequired(msg: string)
    ensures !DecodeMap(msg).Bad? ==> |msg| >= 4 && ParseInt(msg[..3]) == Some(0)
  {
  }

  lemma DecodeNothing(obj: Obj)
    ensures DecodeEntries("", obj) == Ok(obj, 0)
  {
  }

  /** Every map comes back, in whatever order it was iterated. */
  lemma MapRoundTrip(obj: Obj, order: seq<string>)
    requires Orders(obj, order) && |EncodeIn(obj, order)| <= MAX_INT64
    ensures DecodeMap(EncodeIn(obj, order)) == Ok(obj, 0)
  {
    hide EncodeEntries, DecodeEntries, DecodeHeader;
    var entries := EncodeEntries(obj, order);
    HeaderRoundTrip(entries);
    assert (HEADER + entries)[4..] == entries;
    EntriesRoundTrip(obj, order, "", map[]);
    assert entries + "" == entries;
    assert map[] + (map k | k in order :: obj[k]) == obj;
    DecodeNothing(obj);
  }

  /** A length without needless zeros, a colon, the bytes and a comma. */
  lemma StringEncoded(s: string)
    ensures Framed(EncodeString(s), Format(|s|), s, |EncodeString(s)|) && (|s| > 0 ==> EncodeString(s)[0] != '0')
  {
    NumberOfFormat(|s|);
    FormatStart(|s|);
  }

  /** A list's strings in order, one behind the other, in a string of their own. */
  lemma {:induction false} ListEncoded(a: seq<string>, b: seq<string>)
    ensures EncodeStrings(a + b) == EncodeStrings(a) + EncodeStrings(b)
    ensures a == [] ==> EncodeStrings(a) == ""
    ensures |a| == 1 ==> EncodeStrings(a) == EncodeString(a[0])
    ensures EncodeList(a) == EncodeString(EncodeStrings(a))
  {
    hide EncodeString;
    if b == [] {
      assert a + b == a;
    } else {
      var init := b[..|b| - 1];
      assert (a + b)[..|a + b| - 1] == a + init;
      ListEncoded(a, init);
      Associate(EncodeStrings(a), EncodeStrings(init), EncodeString(b[|b| - 1]));
    }
  }

  /** Two maps with one encoding are the same map. */
  lemma EncodingIsInjective(a: Obj, b: Obj, inA: seq<string>, inB: seq<string>)
    requires Orders(a, inA) && Orders(b, inB) && |EncodeIn(a, inA)| <= MAX_INT64
    requires EncodeIn(a, inA) == EncodeIn(b, inB)
    ensures a == b
  {
    MapRoundTrip(a, inA);
    MapRoundTrip(b, inB);
  }

  // ---------- the loops ----------

  method WriteList(l: seq<string>) returns (s: string)
    ensures s == EncodeList(l)
  {
    var values := "";
    for i := 0 to |l|
      invariant values == EncodeStrings(l[..i])
    {
      values := values + EncodeString(l[i]);
      assert l[..i + 1][..i] == l[..i];
    }
    assert l[..|l|] == l;
    s := EncodeString(values);
  }

  /** Encode: the map is iterated in an order of the runtime's choosing; decoding does not depend on it. */
  method Encode(obj: Obj) returns (msg: string)
    ensures Encodes(msg, obj) && |msg| >= 4 && msg[..4] == "000;"
    ensures |msg| <= MAX_INT64 ==> DecodeMap(msg) == Ok(obj, 0)
  {
    msg := HEADER;
    ghost var order := [];
    var todo := obj.Keys;
    while todo != {}
      invariant todo <= obj.Keys
      invariant forall k :: k in order <==> k in obj && k !in todo
      invariant forall i, j :: 0 <= i < j < |order| ==> order[i] != order[j]
      invariant msg == HEADER + EncodeEntries(obj, order)
      decreases todo
    {
      var k :| k in todo;
      var values := WriteList(obj[k]);
      ghost var next := order + [k];
      assert next[..|order|] == order && forall i :: i in next <==> i in order || i == k;
      Associate(HEADER, EncodeEntries(obj, order), EncodeString(k) + EncodeList(obj[k]));
      msg := msg + (EncodeString(k) + values);
      order := next;
      todo := todo - {k};
    }
    assert Orders(obj, order) && msg == EncodeIn(obj, order);
    hide *;
    if |msg| <= MAX_INT64 { MapRoundTrip(obj, order); }
  }

  lemma DecodeStringsOne(blob: string)
    requires blob != "" && DecodeString(blob).Ok?
    ensures var d, rest := DecodeString(blob), DecodeStrings(blob[DecodeString(blob).skip..]);
      && (DecodeStrings(blob).Bad? <==> rest.Bad?)
      && (DecodeStrings(blob).Panics? <==> rest.Panics?)
      && (rest.Ok? ==> DecodeStrings(blob) == Ok([d.value] + rest.value, d.skip + rest.skip))
  {
  }

  method ReadList(msg: string) returns (r: Decoded<seq<string>>)
    ensures r == DecodeList(msg)
  {
    var first := DecodeString(msg);
    ListIsWhole(msg);
    hide DecodeStrings, DecodeString, DecodeList, Continues;
    if first.Bad? { return Bad; }
    if first.Panics? { return Panics; }
    var blob := first.value;
    var l: seq<string> := [];
    ContinuesStart(DecodeStrings(blob));
    while blob != ""
      invariant Continues(DecodeStrings(first.value), l, DecodeStrings(blob))
      decreases |blob|
    {
      var d := DecodeString(blob);
      DecodeStringsEnds(blob);
      ContinuesEnd(DecodeStrings(first.value), l, DecodeStrings(blob));
      if d.Bad? { return Bad; }
      if d.Panics? { return Panics; }
      StringSkips(blob);
      ContinuesOne(DecodeStrings(first.value), l, blob);
      l := l + [d.value];
      blob := blob[d.skip..];
    }
    ContinuesEnd(DecodeStrings(first.value), l, DecodeStrings(""));
    return Ok(l, first.skip);
  }

  /** The list in a string, with what the string took. */
  function Whole(first: Decoded<string>, l: Decoded<seq<string>>): Decoded<seq<string>>
    requires first.Ok?
  {
    if l.Ok? then Ok(l.value, first.skip) else l
  }

  /** A decoding that has come past l. */
  ghost predicate Continues(whole: Decoded<seq<string>>, l: seq<string>, rest: Decoded<seq<string>>) {
    match whole
    case Bad => rest.Bad?
    case Panics => rest.Panics?
    case Ok(all, _) => rest.Ok? && all == l + rest.value
  }

  lemma ListIsWhole(msg: string)
    ensures match DecodeString(msg)
            case Bad => DecodeList(msg) == Bad
            case Panics => DecodeList(msg) == Panics
            case Ok(blob, _) => DecodeList(msg) == Whole(DecodeString(msg), DecodeStrings(blob))
    ensures DecodeStrings("") == Ok([], 0)
  {
  }

  lemma ContinuesStart(whole: Decoded<seq<string>>)
    ensures Continues(whole, [], whole)
  {
    if whole.Ok? { assert [] + whole.value == whole.value; }
  }

  lemma ContinuesOne(whole: Decoded<seq<string>>, l: seq<string>, blob: string)
    requires blob != "" && DecodeString(blob).Ok? && Continues(whole, l, DecodeStrings(blob))
    ensures Continues(whole, l + [DecodeString(blob).value], DecodeStrings(blob[DecodeString(blob).skip..]))
  {
    DecodeStringsOne(blob);
    var rest := DecodeStrings(blob[DecodeString(blob).skip..]);
    hide DecodeStrings, DecodeString;
    if rest.Ok? { Associate(l, [DecodeString(blob).value], rest.value); }
  }

  lemma ContinuesEnd(whole: Decoded<seq<string>>, l: seq<string>, rest: Decoded<seq<string>>)
    requires Continues(whole, l, rest)
    ensures rest.Bad? ==> whole == Bad
    ensures rest.Panics? ==> whole == Panics
    ensures rest.Ok? && rest.value == [] ==> whole.Ok? && whole.value == l
  {
    if rest.Ok? { assert l + [] == l; }
  }

  lemma StringSkips(msg: string)
    ensures DecodeString(msg).Ok? ==> 0 < DecodeString(msg).skip <= |msg|
  {
  }

  lemma DecodeStringsEnds(blob: string)
    requires blob != ""
    ensures DecodeString(blob).Bad? ==> DecodeStrings(blob).Bad?
    ensures DecodeString(blob).Panics? ==> DecodeStrings(blob).Panics?
  {
  }

  method Decode(msg: string) returns (r: Decoded<Obj>)
    ensures r == DecodeMap(msg)
  {
    if DecodeHeader(msg) != Some(0) {
      return Bad;
    }
    var rest := msg[4..];
    var obj: Obj := map[];
    while rest != ""
      invariant DecodeEntries(rest, obj) == DecodeEntries(msg[4..], map[])
      decreases |rest|
    {
      var k := DecodeString(rest);
      if k.Bad? { return Bad; }
      if k.Panics? { return Panics; }
      var values := ReadList(rest[k.skip..]);
      if values.Bad? { return Bad; }
      if values.Panics? { return Panics; }
      obj := obj[k.value := values.value];
      rest := rest[k.skip + values.skip..];
    }
    return Ok(obj, 0);
  }

  // ---------- messages ----------

  /** m is an encoding of obj, in some order. */
  ghost predicate Encodes(m: string, obj: Obj) {
    exists order :: Orders(obj, order) && m == EncodeIn(obj, order)
  }

  /** An encoding that fits a Go string decodes to what it encodes, and to nothing else. */
  lemma EncodesDecodes(m: string, obj: Obj)
    requires Encodes(m, obj) && |m| <= MAX_INT64
    ensures DecodeMap(m) == Ok(obj, 0)
  {
    var order :| Orders(obj, order) && m == EncodeIn(obj, order);
    MapRoundTrip(obj, order);
  }

  /** Message.Get: the list of a key, nil (an empty list) if there is none or m is no message. */
  method Get(m: string, k: string) returns (v: seq<string>, panics: bool)
    ensures panics <==> DecodeMap(m).Panics?
    ensures !DecodeMap(m).Ok? ==> v == []
    ensures forall obj :: Encodes(m, obj) && |m| <= MAX_INT64 ==> !panics && v == if k in obj then obj[k] else []
  {
    forall obj | Encodes(m, obj) && |m| <= MAX_INT64 ensures DecodeMap(m) == Ok(obj, 0) { EncodesDecodes(m, obj); }
    var d := Decode(m);
    match d
    case Bad => return [], false;
    case Panics => return [], true;
    case Ok(obj, _) => return if k in obj then obj[k] else [], false;
  }

  /** Message.Set and Message.Del panic on what is no message; Message.Add returns it as it is. */
  datatype Update = Set(values: seq<string>) | Add(value: string) | Del

  function Apply(obj: Obj, k: string, u: Update): Obj {
    match u
    case Set(values) => obj[k := values]
    case Add(value) => obj[k := (if k in obj then obj[k] else []) + [value]]
    case Del => obj - {k}
  }

  lemma ApplyLaws(obj: Obj, k: string, u: Update)
    ensures var o := Apply(obj, k, u);
      && (forall j :: j != k ==> (j in o <==> j in obj)) && (forall j :: j != k && j in obj ==> o[j] == obj[j])
      && (k in o <==> !u.Del?) && (u.Set? ==> o[k] == u.values)
      && (u.Add? ==> o[k] == (if k in obj then obj[k] else []) + [u.value])
  {
  }

  method UpdateMessage(m: string, k: string, u: Update) returns (r: Decoded<string>)
    ensures r == Panics <==> DecodeMap(m).Panics? || (DecodeMap(m).Bad? && !u.Add?)
    ensures DecodeMap(m).Bad? && u.Add? ==> r == Ok(m, 0)
    ensures DecodeMap(m).Ok? ==> r.Ok? && Encodes(r.value, Apply(DecodeMap(m).value, k, u))
  {
    var d := Decode(m);
    match d
    case Panics => return Panics;
    case Bad => return if u.Add? then Ok(m, 0) else Panics;
    case Ok(obj, _) =>
      var out := Encode(Apply(obj, k, u));
      return Ok(out, 0);
  }

  /** An update changes its own key as it says and no other, and the result is a message again. */
  lemma UpdateLaws(m: string, obj: Obj, k: string, u: Update, n: string)
    requires Encodes(m, obj) && |m| <= MAX_INT64 && DecodeMap(m).Ok?
    requires Encodes(n, Apply(DecodeMap(m).value, k, u)) && |n| <= MAX_INT64
    ensures DecodeMap(n).Ok?
    ensures forall j :: j != k ==> (j in DecodeMap(n).value <==> j in obj)
    ensures forall j :: j != k && j in obj ==> DecodeMap(n).value[j] == obj[j]
    ensures k in DecodeMap(n).value <==> !u.Del?
    ensures u.Set? ==> DecodeMap(n).value[k] == u.values
    ensures u.Add? ==> DecodeMap(n).value[k] == (if k in obj then obj[k] else []) + [u.value]
  {
    hide *;
    EncodesDecodes(m, obj);
    EncodesDecodes(n, Apply(obj, k, u));
    ApplyLaws(obj, k, u);
  }
}
