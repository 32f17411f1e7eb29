/** Uploading images to the registry: JSON, layer and checksum requests on one store. */
module RegistryUpload {
  import opened Text

  type Id = string
  type Client = nat

  /** What an upload says about its image: the parent (None if absent or falsy) and the text. */
  datatype Json = Json(parent: Option<Id>, text: string)

  /** The store by image, and the checksums each client's session holds. */
  datatype Store = Store(
    json: map<Id, Json>, marks: set<Id>, layers: map<Id, string>, sums: map<Id, string>,
    ancestry: map<Id, seq<Id>>, session: map<Client, seq<string>>)

  /** The body of a JSON request: what does not parse, what is no non-empty object with an id, or a description. */
  datatype Body = Unparsable | NoDescription | Described(id: Id, json: Json)

  datatype Request =
    | PutJson(id: Id, body: Body, checksum: Option<string>, listed: bool)
    | PutLayer(client: Client, id: Id, layer: string, computed: seq<string>)
    | PutChecksum(client: Client, id: Id, checksum: Option<string>)

  datatype Reply = Done | BadRequest | NotFound | Conflict | ServerError

  function Init(): Store {
    Store(map[], {}, map[], map[], map[], map[])
  }

  /** store_checksum wants two parts around a colon. */
  predicate ValidChecksum(c: string) {
    Find(c, ':') < |c| && ':' !in c[Find(c, ':') + 1..]
  }

  /** Exactly one colon. */
  lemma ValidChecksumIff(c: string)
    ensures ValidChecksum(c) <==> exists a, b :: c == a + ":" + b && ':' !in a && ':' !in b
  {
    var i := Find(c, ':');
    if ValidChecksum(c) {
      assert c == c[..i] + ":" + c[i + 1..];
    }
    if a, b :| c == a + ":" + b && ':' !in a && ':' !in b {
      FindAfter(a, ':', b);
      assert c[|a| + 1..] == b;
    }
  }

  /** The parent's ancestry with the image in front; None if the parent has no ancestry. */
  function NewAncestry(s: Store, id: Id, parent: Option<Id>): Option<seq<Id>> {
    if parent.None? then Some([id])
    else if parent.value in s.ancestry then Some([id] + s.ancestry[parent.value])
    else None
  }

  /** The checksum header is stored, or an old checksum dropped, before anything is checked. */
  function WithHeader(s: Store, id: Id, checksum: Option<string>): Store {
    if checksum.Some? then s.(sums := s.sums[id := checksum.value]) else s.(sums := s.sums - {id})
  }

  /** Whether put_image_json gets as far as writing. */
  predicate Accepts(s: Store, id: Id, body: Body, checksum: Option<string>, listed: bool) {
    && body.Described? && (checksum.Some? ==> ValidChecksum(checksum.value))
    && body.id == id && listed
    && (body.json.parent.Some? ==> body.json.parent.value in s.json)
    && !(id in s.json && id !in s.marks)
  }

  function OnPutJson(s: Store, id: Id, body: Body, checksum: Option<string>, listed: bool): (Store, Reply) {
    if body.Unparsable? then (s, ServerError)
    else if body.NoDescription? || (checksum.Some? && !ValidChecksum(checksum.value)) then (s, BadRequest)
    else
      var t := WithHeader(s, id, checksum);
      if body.id != id || !listed then (t, BadRequest)
      else if body.json.parent.Some? && body.json.parent.value !in s.json then (t, BadRequest)
      else if id in s.json && id !in s.marks then (t, Conflict)
      else
        var u := t.(marks := t.marks + {id}, json := t.json[id := body.json]);
        match NewAncestry(s, id, body.json.parent)
        case None => (u, ServerError)
        case Some(a) => (u.(ancestry := u.ancestry[id := a]), Done)
  }

  function OnPutLayer(s: Store, client: Client, id: Id, layer: string, computed: seq<string>): (Store, Reply) {
    if id !in s.json then (s, NotFound)
    else if id in s.layers && id !in s.marks then (s, Conflict)
    else
      var t := s.(layers := s.layers[id := layer]);
      if id !in s.sums then (t.(session := t.session[client := computed]), Done)
      else if s.sums[id] !in computed then (t, BadRequest)
      else (t.(marks := t.marks - {id}), Done)
  }

  function OnPutChecksum(s: Store, client: Client, id: Id, checksum: Option<string>): (Store, Reply) {
    if checksum.None? || client !in s.session || s.session[client] == [] then (s, BadRequest)
    else if id !in s.json then (s, NotFound)
    else if id !in s.marks then (s, Conflict)
    else if !ValidChecksum(checksum.value) then (s, BadRequest)
    else
      var t := s.(sums := s.sums[id := checksum.value]);
      if checksum.value !in s.session[client] then (t, BadRequest)
      else (t.(marks := t.marks - {id}), Done)
  }

  function Serve(s: Store, r: Request): (Store, Reply) {
    match r
    case PutJson(id, body, checksum, listed) => OnPutJson(s, id, body, checksum, listed)
    case PutLayer(client, id, layer, computed) => OnPutLayer(s, client, id, layer, computed)
    case PutChecksum(client, id, checksum) => OnPutChecksum(s, client, id, checksum)
  }

  function ServeAll(s: Store, rs: seq<Request>): Store
    decreases |rs|
  {
    if rs == [] then s else ServeAll(Serve(s, rs[0]).0, rs[1..])
  }

  // ---------- what each request may write ----------

  lemma PutJsonWrites(s: Store, id: Id, body: Body, checksum: Option<string>, listed: bool)
    ensures var (t, r) := OnPutJson(s, id, body, checksum, listed);
      && t.layers == s.layers
      && (!Accepts(s, id, body, checksum, listed) ==> t.json == s.json && t.marks == s.marks)
      && (!Accepts(s, id, body, checksum, listed) ==> t.ancestry == s.ancestry)
      && (!Accepts(s, id, body, checksum, listed) ==> (r == ServerError <==> body.Unparsable?))
  {
    hide ValidChecksum, NewAncestry;
  }

  lemma AcceptedWrites(s: Store, id: Id, body: Body, checksum: Option<string>, listed: bool)
    requires Accepts(s, id, body, checksum, listed)
    ensures var (t, r) := OnPutJson(s, id, body, checksum, listed);
      && t.json == s.json[id := body.json] && t.marks == s.marks + {id}
      && match NewAncestry(s, id, body.json.parent) { case None => r == ServerError && t.ancestry == s.ancestry
                                                      case Some(a) => r == Done && t.ancestry == s.ancestry[id := a] }
  {
    hide ValidChecksum, NewAncestry;
  }

  lemma PutLayerWrites(s: Store, client: Client, id: Id, layer: string, computed: seq<string>)
    ensures var (t, r) := OnPutLayer(s, client, id, layer, computed);
      && t.json == s.json && t.ancestry == s.ancestry && (t.marks == s.marks || t.marks == s.marks - {id})
      && (t.layers == s.layers || (t.layers == s.layers[id := layer] && (id in s.marks || id !in s.layers)))
      && r != ServerError
  {
  }

  lemma PutChecksumWrites(s: Store, client: Client, id: Id, checksum: Option<string>)
    ensures var (t, r) := OnPutChecksum(s, client, id, checksum);
      && t.json == s.json && t.ancestry == s.ancestry && (t.marks == s.marks || t.marks == s.marks - {id})
      && t.layers == s.layers && r != ServerError
  {
    hide ValidChecksum;
  }

  // ---------- which requests touch what ----------

  function SumOf(s: Store, id: Id): Option<string> {
    if id in s.sums then Some(s.sums[id]) else None
  }

  /** A layer whose computed sums have the checksum stored for its unfinished image. */
  predicate MatchingLayer(s: Store, r: Request, id: Id) {
    && r.PutLayer? && r.id == id && id in s.json && id in s.marks
    && SumOf(s, id).Some? && SumOf(s, id).value in r.computed
  }

  /** A checksum of an unfinished image that is among those in the client's session. */
  predicate MatchingChecksum(s: Store, r: Request, id: Id) {
    && r.PutChecksum? && r.id == id && id in s.json && id in s.marks
    && r.checksum.Some? && ValidChecksum(r.checksum.value)
    && r.client in s.session && r.checksum.value in s.session[r.client]
  }

  /** The request finishes an image: its stored or sent checksum is one that was computed. */
  predicate Finishes(s: Store, r: Request, id: Id) {
    MatchingLayer(s, r, id) || MatchingChecksum(s, r, id)
  }

  /** A JSON request that gets as far as its header: it stores that checksum, or drops the old one. */
  predicate SetsChecksum(r: Request, id: Id) {
    && r.PutJson? && r.id == id && r.body.Described?
    && (r.checksum.Some? ==> ValidChecksum(r.checksum.value))
  }

  /** A checksum request for an unfinished image, from a client whose session has sums. */
  predicate StoresChecksum(s: Store, r: Request, id: Id) {
    && r.PutChecksum? && r.id == id && id in s.json && id in s.marks
    && r.checksum.Some? && ValidChecksum(r.checksum.value)
    && r.client in s.session && s.session[r.client] != []
  }

  /** The stored checksum is that of the last such request, whether it was refused or not. */
  lemma SumIs(s: Store, r: Request, id: Id)
    ensures SumOf(Serve(s, r).0, id)
         == if SetsChecksum(r, id) || StoresChecksum(s, r, id) then r.checksum else SumOf(s, id)
  {
    match r
    case PutJson(i, body, checksum, listed) => PutJsonSum(s, i, body, checksum, listed, id);
    case PutLayer(client, i, layer, computed) => hide ValidChecksum;
    case PutChecksum(client, i, checksum) => hide ValidChecksum;
  }

  lemma PutJsonSum(s: Store, i: Id, body: Body, checksum: Option<string>, listed: bool, id: Id)
    ensures SumOf(OnPutJson(s, i, body, checksum, listed).0, id)
         == if SetsChecksum(PutJson(i, body, checksum, listed), id) then checksum else SumOf(s, id)
  {
    hide ValidChecksum, NewAncestry;
  }

  function LayerOf(s: Store, id: Id): Option<string> {
    if id in s.layers then Some(s.layers[id]) else None
  }

  /** A layer for a known image that does not have one or is not finished. */
  predicate StoresLayer(s: Store, r: Request, id: Id) {
    r.PutLayer? && r.id == id && id in s.json && (id in s.layers ==> id in s.marks)
  }

  /** The stored layer is that of the last such request, whether its checksum matched or not. */
  lemma LayerIs(s: Store, r: Request, id: Id)
    ensures LayerOf(Serve(s, r).0, id) == if StoresLayer(s, r, id) then Some(r.layer) else LayerOf(s, id)
  {
    hide ValidChecksum, NewAncestry;
    match r
    case PutJson(i, body, checksum, listed) => PutJsonWrites(s, i, body, checksum, listed);
    case PutLayer(client, i, layer, computed) =>
    case PutChecksum(client, i, checksum) => PutChecksumWrites(s, client, i, checksum);
  }

  /** A client's session has the sums of the last layer it sent for an image without a checksum. */
  lemma SessionIs(s: Store, r: Request)
    ensures Serve(s, r).0.session
         == if r.PutLayer? && StoresLayer(s, r, r.id) && SumOf(s, r.id) == None
            then s.session[r.client := r.computed] else s.session
  {
    hide ValidChecksum, NewAncestry;
  }

  predicate MatchesIfKnown(s: Store, r: Request) {
    r.PutLayer? && StoresLayer(s, r, r.id) && (SumOf(s, r.id).Some? ==> SumOf(s, r.id).value in r.computed)
  }

  /** What succeeds: an accepted description, a matching checksum, and a layer that matches the stored
      checksum if there is one. */
  lemma DoneIff(s: Store, r: Request)
    requires HasAncestry(s)
    ensures Serve(s, r).1 == Done
       <==> Accepted(s, r) || MatchingChecksum(s, r, r.id) || MatchesIfKnown(s, r)
  {
  }

  /** A checksum request that is looked into: with a checksum, and sums in the client's session. */
  predicate Considered(s: Store, r: Request) {
    r.PutChecksum? && r.checksum.Some? && r.client in s.session && s.session[r.client] != []
  }

  /** "Already exists" is for finished images, and "not found" for unknown ones, where the request says
      enough to tell. */
  lemma RefusedAs(s: Store, r: Request)
    requires HasAncestry(s)
    ensures Serve(s, r).1 == NotFound <==> (r.PutLayer? || Considered(s, r)) && r.id !in s.json
    ensures Serve(s, r).1 == Conflict <==> Complete(s, r.id) && Existing(s, r)
  {
    hide ValidChecksum, NewAncestry;
  }

  /** A JSON request in order but for its image, a second layer, or a checksum request that is looked into. */
  predicate Existing(s: Store, r: Request) {
    match r
    case PutJson(id, body, _, listed) =>
      SetsChecksum(r, id) && body.id == id && listed && (body.json.parent.Some? ==> body.json.parent.value in s.json)
    case PutLayer(_, id, _, _) => id in s.layers
    case PutChecksum(_, _, _) => Considered(s, r)
  }

  lemma PutJsonMarks(s: Store, id: Id, body: Body, checksum: Option<string>, listed: bool)
    ensures OnPutJson(s, id, body, checksum, listed).0.marks
         == if Accepts(s, id, body, checksum, listed) then s.marks + {id} else s.marks
  {
    PutJsonWrites(s, id, body, checksum, listed);
    if Accepts(s, id, body, checksum, listed) { AcceptedWrites(s, id, body, checksum, listed); }
  }

  lemma PutLayerMarks(s: Store, client: Client, id: Id, layer: string, computed: seq<string>)
    ensures var t := OnPutLayer(s, client, id, layer, computed).0;
      forall i :: i in t.marks
        <==> i in s.marks && !MatchingLayer(s, PutLayer(client, id, layer, computed), i)
  {
  }

  lemma PutChecksumMarks(s: Store, client: Client, id: Id, checksum: Option<string>)
    ensures var t := OnPutChecksum(s, client, id, checksum).0;
      forall i :: i in t.marks <==> i in s.marks && !MatchingChecksum(s, PutChecksum(client, id, checksum), i)
  {
    hide ValidChecksum;
  }

  /** An image is marked by an accepted upload of its JSON, and the mark goes exactly when a request
      finishes the image. */
  lemma MarkedIff(s: Store, r: Request, id: Id)
    ensures id in Serve(s, r).0.marks
       <==> (Accepted(s, r) && r.id == id) || (id in s.marks && !Finishes(s, r, id))
  {
    hide ValidChecksum, OnPutJson, OnPutLayer, OnPutChecksum, Accepts, SumOf;
    match r
    case PutJson(i, body, checksum, listed) => PutJsonMarks(s, i, body, checksum, listed);
    case PutLayer(client, i, layer, computed) => PutLayerMarks(s, client, i, layer, computed);
    case PutChecksum(client, i, checksum) => PutChecksumMarks(s, client, i, checksum);
  }

  /** Some request of the run finishes the image. */
  ghost predicate FinishedIn(s: Store, rs: seq<Request>, id: Id)
    decreases |rs|
  {
    rs != [] && (Finishes(s, rs[0], id) || FinishedIn(Serve(s, rs[0]).0, rs[1..], id))
  }

  /** An unfinished image is finished somewhere in a run exactly if a request of the run finishes it;
      without one it is still marked at the end. */
  lemma {:induction false} FinishedOnlyBy(s: Store, rs: seq<Request>, id: Id)
    requires id in s.marks
    ensures !FinishedIn(s, rs, id) ==> id in ServeAll(s, rs).marks
    ensures FinishedIn(s, rs, id) <==> exists k :: 0 <= k <= |rs| && id !in ServeAll(s, rs[..k]).marks
    decreases |rs|
  {
    if rs == [] {
      assert forall k :: 0 <= k <= |rs| ==> rs[..k] == [];
    } else {
      var t, rest := Serve(s, rs[0]).0, rs[1..];
      UnmarkedIff(s, rs[0], id);
      hide Serve, Finishes;
      forall k | 0 <= k <= |rs|
        ensures id !in ServeAll(s, rs[..k]).marks <==> k > 0 && id !in ServeAll(t, rest[..k - 1]).marks
      {
        if k > 0 { assert rs[..k][0] == rs[0] && rs[..k][1..] == rest[..k - 1]; } else { assert rs[..k] == []; }
      }
      if id in t.marks {
        FinishedOnlyBy(t, rest, id);
        if FinishedIn(t, rest, id) {
          var k :| 0 <= k <= |rest| && id !in ServeAll(t, rest[..k]).marks;
          assert rest[..(k + 1) - 1] == rest[..k] && id !in ServeAll(s, rs[..k + 1]).marks;
        }
      } else {
        assert rest[..0] == [] && ServeAll(t, []) == t;
        assert id !in ServeAll(s, rs[..1]).marks;
      }
    }
  }

  lemma UnmarkedIff(s: Store, r: Request, id: Id)
    requires id in s.marks
    ensures id !in Serve(s, r).0.marks <==> Finishes(s, r, id)
  {
    MarkedIff(s, r, id);
  }

  // ---------- finished images ----------

  /** What require_completion lets through. */
  predicate Complete(s: Store, id: Id) {
    id in s.json && id !in s.marks
  }

  /** The image is still complete, with the same JSON and ancestry, and the same layer if it had one. */
  predicate Kept(s: Store, t: Store, id: Id)
    requires Complete(s, id)
  {
    && Complete(t, id) && t.json[id] == s.json[id]
    && (id in t.ancestry <==> id in s.ancestry) && (id in s.ancestry ==> t.ancestry[id] == s.ancestry[id])
    && (id in s.layers ==> id in t.layers && t.layers[id] == s.layers[id])
  }

  lemma ServeKeepsComplete(s: Store, r: Request, id: Id)
    requires Complete(s, id)
    ensures Kept(s, Serve(s, r).0, id)
  {
    hide ValidChecksum, NewAncestry, OnPutJson, OnPutLayer, OnPutChecksum;
    match r
    case PutJson(i, body, checksum, listed) =>
      PutJsonWrites(s, i, body, checksum, listed);
      if Accepts(s, i, body, checksum, listed) { AcceptedWrites(s, i, body, checksum, listed); }
    case PutLayer(client, i, layer, computed) =>
      PutLayerWrites(s, client, i, layer, computed);
    case PutChecksum(client, i, checksum) =>
      PutChecksumWrites(s, client, i, checksum);
  }

  /** Once finished, an image stays as it is whatever requests follow. */
  lemma {:induction false} CompleteIsFinal(s: Store, rs: seq<Request>, id: Id)
    requires Complete(s, id)
    ensures Kept(s, ServeAll(s, rs), id)
    decreases |rs|
  {
    if rs != [] {
      ServeKeepsComplete(s, rs[0], id);
      hide Serve;
      CompleteIsFinal(Serve(s, rs[0]).0, rs[1..], id);
    }
  }

  // ---------- the checksums of finished images ----------

  /** The checksum of a finished image is not protected: such a request is refused, and has changed it. */
  lemma RefusedUploadSetsChecksum(s: Store, r: Request, id: Id)
    requires Complete(s, id) && SetsChecksum(r, id)
    ensures Serve(s, r).0 == WithHeader(s, id, r.checksum)
    ensures Serve(s, r).1 == BadRequest || Serve(s, r).1 == Conflict
  {
    hide ValidChecksum;
  }

  /** Nothing else changes it, so it stays the same exactly if there is no such request with another
      checksum, or without one. */
  lemma ChecksumKeptIff(s: Store, r: Request, id: Id)
    requires Complete(s, id)
    ensures SumOf(Serve(s, r).0, id) == SumOf(s, id) <==> !(SetsChecksum(r, id) && r.checksum != SumOf(s, id))
    ensures SetsChecksum(r, id) ==> SumOf(Serve(s, r).0, id) == r.checksum
  {
    SumIs(s, r, id);
  }

  /** The checksum is the same in every state of the run. */
  ghost predicate AlwaysSum(s: Store, rs: seq<Request>, id: Id, sum: Option<string>)
    decreases |rs|
  {
    SumOf(s, id) == sum && (rs == [] || AlwaysSum(Serve(s, rs[0]).0, rs[1..], id, sum))
  }

  /** A finished image keeps its checksum throughout exactly if no JSON request names another. */
  lemma {:induction false} ChecksumAlwaysKeptIff(s: Store, rs: seq<Request>, id: Id)
    requires Complete(s, id)
    ensures AlwaysSum(s, rs, id, SumOf(s, id))
      <==> forall i :: 0 <= i < |rs| ==> !(SetsChecksum(rs[i], id) && rs[i].checksum != SumOf(s, id))
    decreases |rs|
  {
    if rs != [] {
      var t, rest := Serve(s, rs[0]).0, rs[1..];
      ServeKeepsComplete(s, rs[0], id);
      ChecksumKeptIff(s, rs[0], id);
      hide Serve, SumOf, SetsChecksum, Complete;
      if SumOf(t, id) == SumOf(s, id) {
        ChecksumAlwaysKeptIff(t, rest, id);
        assert forall i :: 0 < i < |rs| ==> rs[i] == rest[i - 1];
        assert forall i :: 0 <= i < |rest| ==> rest[i] == rs[i + 1];
      } else {
        assert rest != [] ==> !AlwaysSum(t, rest, id, SumOf(s, id));
      }
    }
  }

  // ---------- the layers of finished images ----------

  /** Every finished image has its layer. */
  ghost predicate HasLayers(s: Store) {
    forall i :: i in s.json && i !in s.marks ==> i in s.layers
  }

  /** A checksum request for an unfinished image without a layer, with a sum from the client's session,
      where it may be that of another image's layer. */
  predicate FinishesLayerless(s: Store, r: Request) {
    r.PutChecksum? && MatchingChecksum(s, r, r.id) && r.id !in s.layers
  }

  /** Only such a request finishes an image without a layer. */
  lemma LayersKeptIff(s: Store, r: Request)
    requires HasLayers(s)
    ensures HasLayers(Serve(s, r).0) <==> !FinishesLayerless(s, r)
  {
    hide ValidChecksum, NewAncestry;
    match r
    case PutJson(i, body, checksum, listed) =>
      PutJsonWrites(s, i, body, checksum, listed);
      if Accepts(s, i, body, checksum, listed) { AcceptedWrites(s, i, body, checksum, listed); }
      hide OnPutJson;
    case PutLayer(client, i, layer, computed) =>
    case PutChecksum(client, i, checksum) =>
      assert Serve(s, r).1.Done? ==> Serve(s, r).0.marks == s.marks - {i};
  }

  ghost predicate AlwaysHasLayers(s: Store, rs: seq<Request>)
    decreases |rs|
  {
    HasLayers(s) && (rs == [] || AlwaysHasLayers(Serve(s, rs[0]).0, rs[1..]))
  }

  ghost predicate NeverFinishesLayerless(s: Store, rs: seq<Request>)
    decreases |rs|
  {
    rs == [] || (!FinishesLayerless(s, rs[0]) && NeverFinishesLayerless(Serve(s, rs[0]).0, rs[1..]))
  }

  /** The same over every sequence of requests. */
  lemma {:induction false} AlwaysHasLayersIff(s: Store, rs: seq<Request>)
    requires HasLayers(s)
    ensures AlwaysHasLayers(s, rs) <==> NeverFinishesLayerless(s, rs)
    decreases |rs|
  {
    if rs != [] {
      LayersKeptIff(s, rs[0]);
      hide Serve, FinishesLayerless, HasLayers;
      var t := Serve(s, rs[0]).0;
      if HasLayers(t) { AlwaysHasLayersIff(t, rs[1..]); }
    }
  }

  /** Such a run: the sums of a's layer finish b. */
  lemma FinishedWithoutLayer(client: Client, a: Json, b: Json, sum: string)
    requires ValidChecksum(sum) && a.parent.None? && b.parent.None?
    ensures var s := ServeAll(Init(), [
      PutJson("a", Described("a", a), None, true), PutLayer(client, "a", "layer", [sum]),
      PutJson("b", Described("b", b), None, true), PutChecksum(client, "b", Some(sum))]);
      Complete(s, "b") && "b" !in s.layers
  {
    hide ValidChecksum;
    var r1, r2 := PutJson("a", Described("a", a), None, true), PutLayer(client, "a", "layer", [sum]);
    var r3, r4 := PutJson("b", Described("b", b), None, true), PutChecksum(client, "b", Some(sum));
    var s1 := Serve(Init(), r1).0;
    var s2 := Serve(s1, r2).0;
    assert s2.session[client] == [sum];
    var s3 := Serve(s2, r3).0;
    assert "b" in s3.json && "b" in s3.marks && "b" !in s3.layers && s3.session == s2.session;
    var s4 := Serve(s3, r4).0;
    assert sum in s3.session[client];
    calc {
      ServeAll(Init(), [r1, r2, r3, r4]);
      { assert [r1, r2, r3, r4][1..] == [r2, r3, r4]; }
      ServeAll(s1, [r2, r3, r4]);
      { assert [r2, r3, r4][1..] == [r3, r4]; }
      ServeAll(s2, [r3, r4]);
      { assert [r3, r4][1..] == [r4]; }
      ServeAll(s3, [r4]);
      { assert [r4][1..] == []; }
      s4;
    }
  }

  // ---------- ancestry ----------

  ghost predicate HasAncestry(s: Store) {
    && (forall i :: i in s.json <==> i in s.ancestry)
    && (forall i :: i in s.json && s.json[i].parent.Some? ==> s.json[i].parent.value in s.json)
    && s.marks <= s.json.Keys
  }

  /** So no upload fails half-way. */
  lemma ServeKeepsAncestry(s: Store, r: Request)
    requires HasAncestry(s)
    ensures HasAncestry(Serve(s, r).0)
    ensures Serve(s, r).1 == ServerError <==> r.PutJson? && r.body.Unparsable?
  {
    hide ValidChecksum, OnPutJson, OnPutLayer, OnPutChecksum;
    match r
    case PutJson(i, body, checksum, listed) =>
      PutJsonWrites(s, i, body, checksum, listed);
      if Accepts(s, i, body, checksum, listed) { AcceptedWrites(s, i, body, checksum, listed); }
    case PutLayer(client, i, layer, computed) =>
      PutLayerWrites(s, client, i, layer, computed);
    case PutChecksum(client, i, checksum) =>
      PutChecksumWrites(s, client, i, checksum);
  }

  function Tail(s: Store, parent: Option<Id>): seq<Id> {
    if parent.Some? && parent.value in s.ancestry then s.ancestry[parent.value] else []
  }

  /** An image's ancestry is the image and its parent's ancestry. */
  ghost predicate AncestryOk(s: Store) {
    HasAncestry(s) && forall i :: i in s.json ==> s.ancestry[i] == [i] + Tail(s, s.json[i].parent)
  }

  /** The upload of a new image, of the same parent as before, or of an image that is nobody's
      parent and not its own. */
  ghost predicate Harmless(s: Store, id: Id, parent: Option<Id>) {
    || id !in s.json
    || parent == s.json[id].parent
    || (parent != Some(id) && forall j :: j in s.json ==> s.json[j].parent != Some(id))
  }

  /** An accepted upload keeps the ancestries right exactly if it is harmless. */
  lemma AncestryKeptIffHarmless(s: Store, id: Id, body: Body, checksum: Option<string>)
    requires AncestryOk(s) && Accepts(s, id, body, checksum, true)
    ensures AncestryOk(Serve(s, PutJson(id, body, checksum, true)).0) <==> Harmless(s, id, body.json.parent)
  {
    var t, p := Serve(s, PutJson(id, body, checksum, true)).0, body.json.parent;
    ServeKeepsAncestry(s, PutJson(id, body, checksum, true));
    AcceptedTail(s, id, body, checksum);
    hide AncestryOk, Serve, Accepts, HasAncestry;
    if Harmless(s, id, p) {
      HarmlessKeeps(s, id, p, t);
    } else {
      HarmfulBreaks(s, id, p, t);
    }
  }

  lemma AcceptedTail(s: Store, id: Id, body: Body, checksum: Option<string>)
    requires HasAncestry(s) && Accepts(s, id, body, checksum, true)
    ensures var t, p := Serve(s, PutJson(id, body, checksum, true)).0, body.json.parent;
      && t.json.Keys == s.json.Keys + {id} && t.json[id].parent == p && (p.Some? ==> p.value in s.json)
      && (forall i :: i in s.json && i != id ==> t.json[i] == s.json[i])
      && t.ancestry == s.ancestry[id := [id] + Tail(s, p)]
  {
    AcceptedWrites(s, id, body, checksum, true);
    assert [id] + [] == [id];
    hide Serve, ValidChecksum, OnPutJson;
  }

  lemma HarmfulBreaks(s: Store, id: Id, p: Option<Id>, t: Store)
    requires AncestryOk(s) && !Harmless(s, id, p) && HasAncestry(t) && (p.Some? ==> p.value in s.json)
    requires t.json.Keys == s.json.Keys + {id} && t.json[id].parent == p
    requires forall i :: i in s.json && i != id ==> t.json[i] == s.json[i]
    requires t.ancestry == s.ancestry[id := [id] + Tail(s, p)]
    ensures !AncestryOk(t)
  {
    if p == Some(id) {
      assert |t.ancestry[id]| == 1 + |s.ancestry[id]|;
      assert t.ancestry[id] != [id] + Tail(t, t.json[id].parent);
    } else {
      var j :| j in s.json && s.json[j].parent == Some(id);
      NotOwnParent(s, id);
      TailsDiffer(s, p, s.json[id].parent);
      ChildLeftBehind(s, id, p, t, j);
    }
  }

  /** The ancestry of another image's child is not written again. */
  lemma ChildLeftBehind(s: Store, id: Id, p: Option<Id>, t: Store, j: Id)
    requires AncestryOk(s) && HasAncestry(t) && id in s.json && j in s.json && s.json[j].parent == Some(id) && j != id
    requires (p.Some? ==> p.value in s.json) && Tail(s, p) != Tail(s, s.json[id].parent)
    requires j in t.json && t.json[j] == s.json[j]
    requires t.ancestry == s.ancestry[id := [id] + Tail(s, p)]
    ensures !AncestryOk(t)
  {
    assert t.ancestry[j] == [j] + s.ancestry[id];
    assert Tail(t, t.json[j].parent) == [id] + Tail(s, p);
    assert s.ancestry[id][1..] == Tail(s, s.json[id].parent) && ([id] + Tail(s, p))[1..] == Tail(s, p);
    assert t.ancestry[j][1..] == s.ancestry[id];
    assert ([j] + Tail(t, t.json[j].parent))[1..] == Tail(t, t.json[j].parent);
  }

  /** A parent's ancestry is the same after a harmless upload. */
  lemma TailKept(s: Store, id: Id, p: Option<Id>, t: Store, q: Option<Id>)
    requires AncestryOk(s) && (q.Some? ==> q.value in s.json && (q.value == id ==> p == s.json[id].parent))
    requires t.ancestry == s.ancestry[id := [id] + Tail(s, p)]
    ensures Tail(t, q) == Tail(s, q)
  {
  }

  lemma HarmlessKeeps(s: Store, id: Id, p: Option<Id>, t: Store)
    requires AncestryOk(s) && Harmless(s, id, p) && HasAncestry(t) && (p.Some? ==> p.value in s.json)
    requires t.json.Keys == s.json.Keys + {id} && t.json[id].parent == p
    requires forall i :: i in s.json && i != id ==> t.json[i] == s.json[i]
    requires t.ancestry == s.ancestry[id := [id] + Tail(s, p)]
    ensures AncestryOk(t)
  {
    forall i | i in t.json ensures t.ancestry[i] == [i] + Tail(t, t.json[i].parent) {
      if i != id {
        TailKept(s, id, p, t, s.json[i].parent);
        assert s.ancestry[i] == [i] + Tail(s, s.json[i].parent);
      } else {
        if id in s.json { NotOwnParent(s, id); }
        hide AncestryOk;
        TailKept(s, id, p, t, p);
      }
    }
  }

  lemma NotOwnParent(s: Store, id: Id)
    requires AncestryOk(s) && id in s.json
    ensures s.json[id].parent != Some(id)
  {
    assert s.ancestry[id] == [id] + Tail(s, s.json[id].parent);
  }

  lemma TailsDiffer(s: Store, p: Option<Id>, q: Option<Id>)
    requires AncestryOk(s) && p != q && (p.Some? ==> p.value in s.json) && (q.Some? ==> q.value in s.json)
    ensures Tail(s, p) != Tail(s, q)
  {
    if p.Some? { assert Tail(s, p)[0] == p.value; }
    if q.Some? { assert Tail(s, q)[0] == q.value; }
  }

  // ---------- whole runs ----------

  /** The request writes an image's JSON. */
  predicate Accepted(s: Store, r: Request) {
    r.PutJson? && Accepts(s, r.id, r.body, r.checksum, r.listed)
  }

  ghost predicate AlwaysHarmless(s: Store, rs: seq<Request>)
    decreases |rs|
  {
    rs == [] || ((Accepted(s, rs[0]) ==> Harmless(s, rs[0].id, rs[0].body.json.parent))
                 && AlwaysHarmless(Serve(s, rs[0]).0, rs[1..]))
  }

  ghost predicate AlwaysOk(s: Store, rs: seq<Request>)
    decreases |rs|
  {
    AncestryOk(s) && (rs == [] || AlwaysOk(Serve(s, rs[0]).0, rs[1..]))
  }

  lemma OtherRequestsKeep(s: Store, r: Request)
    requires AncestryOk(s) && !Accepted(s, r)
    ensures AncestryOk(Serve(s, r).0)
  {
    var t := Serve(s, r).0;
    ServeKeepsAncestry(s, r);
    assert t.json == s.json && t.ancestry == s.ancestry by {
      hide ValidChecksum, NewAncestry, OnPutJson, OnPutLayer, OnPutChecksum;
      match r
      case PutJson(i, body, checksum, listed) => PutJsonWrites(s, i, body, checksum, listed);
      case PutLayer(client, i, layer, computed) => PutLayerWrites(s, client, i, layer, computed);
      case PutChecksum(client, i, checksum) => PutChecksumWrites(s, client, i, checksum);
    }
    hide Serve, ValidChecksum, HasAncestry;
    forall i | i in t.json ensures t.ancestry[i] == [i] + Tail(t, t.json[i].parent) {
      assert s.ancestry[i] == [i] + Tail(s, s.json[i].parent);
    }
  }

  /** The ancestries are right all along exactly if every accepted upload is harmless. */
  lemma {:induction false} AlwaysOkIffHarmless(s: Store, rs: seq<Request>)
    requires AncestryOk(s)
    ensures AlwaysOk(s, rs) <==> AlwaysHarmless(s, rs)
    ensures AlwaysHarmless(s, rs) ==> AncestryOk(ServeAll(s, rs))
    decreases |rs|
  {
    if rs != [] {
      var r := rs[0];
      if Accepted(s, r) {
        AncestryKeptIffHarmless(s, r.id, r.body, r.checksum);
      } else {
        OtherRequestsKeep(s, r);
      }
      var t := Serve(s, r).0;
      if AncestryOk(t) { AlwaysOkIffHarmless(t, rs[1..]); }
    }
  }

  /** Accepted uploads of one image always name one parent. */
  ghost predicate OneParent(s: Store, rs: seq<Request>)
    decreases |rs|
  {
    rs == [] || ((Accepted(s, rs[0]) && rs[0].id in s.json ==> rs[0].body.json.parent == s.json[rs[0].id].parent)
                 && OneParent(Serve(s, rs[0]).0, rs[1..]))
  }

  lemma {:induction false} OneParentIsHarmless(s: Store, rs: seq<Request>)
    requires OneParent(s, rs)
    ensures AlwaysHarmless(s, rs)
    decreases |rs|
  {
    if rs != [] { OneParentIsHarmless(Serve(s, rs[0]).0, rs[1..]); }
  }

  /** Every suffix of an ancestry is an ancestry. */
  lemma {:induction false} AncestrySuffix(s: Store, id: Id, i: nat)
    requires AncestryOk(s) && id in s.json && i < |s.ancestry[id]|
    ensures s.ancestry[id][i] in s.json && s.ancestry[s.ancestry[id][i]] == s.ancestry[id][i..]
  {
    if i > 0 {
      AncestrySuffix(s, id, i - 1);
      var x := s.ancestry[id][i - 1];
      assert s.ancestry[x] == [x] + Tail(s, s.json[x].parent);
      assert s.ancestry[id][i - 1..][1..] == s.ancestry[id][i..];
      assert s.ancestry[s.json[x].parent.value][0] == s.json[x].parent.value;
    }
  }

  /** a starts with id, names nobody twice, goes from child to parent, and ends at an image without a parent. */
  ghost predicate IsPath(s: Store, id: Id, a: seq<Id>) {
    && a != [] && a[0] == id
    && (forall i, j :: 0 <= i < j < |a| ==> a[i] != a[j])
    && (forall i :: 0 <= i < |a| ==> a[i] in s.json)
    && (forall i :: 0 <= i < |a| ==> s.json[a[i]].parent == (if i + 1 < |a| then Some(a[i + 1]) else None))
  }

  /** With one parent per image, an image's ancestry is its path to an image without a parent. */
  lemma AncestryIsThePath(rs: seq<Request>, id: Id)
    requires OneParent(Init(), rs) && id in ServeAll(Init(), rs).json
    ensures var s := ServeAll(Init(), rs); id in s.ancestry && IsPath(s, id, s.ancestry[id])
  {
    OneParentIsHarmless(Init(), rs);
    AlwaysOkIffHarmless(Init(), rs);
    var s := ServeAll(Init(), rs);
    var a := s.ancestry[id];
    forall i | 0 <= i < |a|
      ensures a[i] in s.json && s.ancestry[a[i]] == a[i..]
      ensures s.json[a[i]].parent == if i + 1 < |a| then Some(a[i + 1]) else None
    {
      AncestrySuffix(s, id, i);
      assert a[i..] == [a[i]] + Tail(s, s.json[a[i]].parent);
      if s.json[a[i]].parent.Some? { assert a[i..][1] == s.json[a[i]].parent.value; }
    }
    forall i, j | 0 <= i < j < |a| ensures a[i] != a[j] {
      assert |s.ancestry[a[i]]| == |a| - i && |s.ancestry[a[j]]| == |a| - j;
    }
  }

  // ---------- the service ----------

  class Registry {
    var json: map<Id, Json>
    var marks: set<Id>
    var layers: map<Id, string>
    var sums: map<Id, string>
    var ancestry: map<Id, seq<Id>>
    var session: map<Client, seq<string>>

    ghost function View(): Store
      reads this
    {
      Store(json, marks, layers, sums, ancestry, session)
    }

    constructor ()
      ensures View() == Init()
    {
      json, marks, layers, sums, ancestry, session := map[], {}, map[], map[], map[], map[];
    }

    method StoreChecksum(id: Id, checksum: string) returns (ok: bool)
      modifies this`sums
      ensures ok <==> ValidChecksum(checksum)
      ensures sums == if ok then old(sums)[id := checksum] else old(sums)
    {
      if !ValidChecksum(checksum) {
        return false;
      }
      sums := sums[id := checksum];
      return true;
    }

    method GenerateAncestry(id: Id, parent: Option<Id>) returns (ok: bool)
      modifies this`ancestry
      ensures ok <==> NewAncestry(old(View()), id, parent).Some?
      ensures ancestry == if ok then old(ancestry)[id := NewAncestry(old(View()), id, parent).value] else old(ancestry)
    {
      if parent.None? {
        ancestry := ancestry[id := [id]];
        return true;
      }
      if parent.value !in ancestry {
        return false;
      }
      ancestry := ancestry[id := [id] + ancestry[parent.value]];
      return true;
    }

    method HandlePutJson(id: Id, body: Body, checksum: Option<string>, listed: bool) returns (r: Reply)
      modifies this
      ensures (View(), r) == Serve(old(View()), PutJson(id, body, checksum, listed))
    {
      if body.Unparsable? {
        return ServerError;
      }
      if body.NoDescription? {
        return BadRequest;
      }
      if checksum.Some? {
        var ok := StoreChecksum(id, checksum.value);
        if !ok {
          return BadRequest;
        }
      } else {
        sums := sums - {id};
      }
      if body.id != id || !listed {
        return BadRequest;
      }
      if body.json.parent.Some? && body.json.parent.value !in json {
        return BadRequest;
      }
      if id in json && id !in marks {
        return Conflict;
      }
      marks := marks + {id};
      json := json[id := body.json];
      var ok := GenerateAncestry(id, body.json.parent);
      return if ok then Done else ServerError;
    }

    method HandlePutLayer(client: Client, id: Id, layer: string, computed: seq<string>) returns (r: Reply)
      modifies this
      ensures (View(), r) == Serve(old(View()), PutLayer(client, id, layer, computed))
    {
      if id !in json {
        return NotFound;
      }
      if id in layers && id !in marks {
        return Conflict;
      }
      layers := layers[id := layer];
      if id !in sums {
        session := session[client := computed];
        return Done;
      }
      if sums[id] !in computed {
        return BadRequest;
      }
      marks := marks - {id};
      return Done;
    }

    method HandlePutChecksum(client: Client, id: Id, checksum: Option<string>) returns (r: Reply)
      modifies this
      ensures (View(), r) == Serve(old(View()), PutChecksum(client, id, checksum))
    {
      if checksum.None? || client !in session || session[client] == [] {
        return BadRequest;
      }
      if id !in json {
        return NotFound;
      }
      if id !in marks {
        return Conflict;
      }
      var ok := StoreChecksum(id, checksum.value);
      if !ok {
        return BadRequest;
      }
      if checksum.value !in session[client] {
        return BadRequest;
      }
      marks := marks - {id};
      return Done;
    }
  }
}
