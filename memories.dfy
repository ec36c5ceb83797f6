/** The memory routes: list, read, create, update and delete over the memory
    table, each run on behalf of the requester whose verified session token
    carries `sub` as its subject. */
module Memories {
  import opened Schema

  /** Characters of the body kept in a list excerpt. */
  const ExcerptLength: nat := 115
  /** Marker appended to every excerpt, however short the body. */
  const Ellipsis: string := "..."

  datatype Memory = Memory(
    id: string,
    userId: string,
    text: string,
    mediaUrl: string,
    isPublic: bool,
    createdAt: int)

  /** One entry of the list response; the field name is the route's own. */
  datatype ListItem = ListItem(id: string, mediaUrl: string, except: string)

  /** The fields a create or update request supplies. */
  datatype MemoryInput = MemoryInput(text: string, mediaUrl: string, isPublic: bool)

  /** Why a route did not complete. `Unauthorized` is the handler's own 401
      reply; the other three are thrown (by the schema check or by the
      lookup that throws on a missing row) and leave the handler early. */
  datatype Failure = InvalidId | InvalidBody | NotFound | Unauthorized

  datatype Reply<T> = Ok(value: T) | Fail(failure: Failure)

  /** The table, keyed by memory id. */
  type Rows = map<string, Memory>

  /** What a state-changing route answers, and the table it leaves. */
  datatype Outcome<T> = Outcome(reply: Reply<T>, rows: Rows)

  /** Every row is stored under its own id, and ids are UUIDs. */
  ghost predicate WellKeyed(rows: Rows) {
    forall id :: id in rows ==> IsUuid(id) && rows[id].id == id
  }

  /** The rows owned by `u`: the part of the table a route run by `u` may change. */
  ghost function OwnedBy(rows: Rows, u: string): (r: Rows) {
    map id | id in rows && rows[id].userId == u :: rows[id]
  }

  /** A memory may be shown to `sub` when it is public or `sub` owns it. */
  predicate VisibleTo(m: Memory, sub: string) {
    m.isPublic || m.userId == sub
  }

  // ---------------------------------------------------------------------------
  // Request bodies

  /** The body schema shared by create and update: `text` and `mediaUrl` must
      be strings, `isPublic` is coerced to a boolean and is false when absent. */
  function ParseMemoryBody(body: Json): (r: Reply<MemoryInput>)
    ensures r.Ok? <==> StringField(body, "text").Some? && StringField(body, "mediaUrl").Some?
    ensures r.Fail? ==> r.failure == InvalidBody
    ensures r.Ok? ==>
      && r.value.text == StringField(body, "text").value
      && r.value.mediaUrl == StringField(body, "mediaUrl").value
      && (r.value.isPublic <==> "isPublic" in body.fields && Truthy(body.fields["isPublic"]))
  {
    match (StringField(body, "text"), StringField(body, "mediaUrl"))
    case (Some(text), Some(mediaUrl)) =>
      Ok(MemoryInput(text, mediaUrl, CoercedBool(body, "isPublic")))
    case _ => Fail(InvalidBody)
  }

  // ---------------------------------------------------------------------------
  // List

  function Min(a: int, b: int): (m: int)
    ensures m <= a && m <= b && (m == a || m == b)
  {
    if a <= b then a else b
  }

  /** `text.substring(0, 115).concat("...")`: at most the first 115 characters
      of the body, then the marker, which is appended even to short bodies. */
  function Excerpt(text: string): (e: string)
    ensures |e| == Min(|text|, ExcerptLength) + |Ellipsis|
    ensures e[..|e| - |Ellipsis|] <= text
    ensures e[|e| - |Ellipsis|..] == Ellipsis
    ensures |text| <= ExcerptLength ==> e == text + Ellipsis
  {
    text[..Min(|text|, ExcerptLength)] + Ellipsis
  }

  /** The projection of the listed memories: id, media URL and excerpt, in order. */
  function ListItems(ms: seq<Memory>): (items: seq<ListItem>)
    ensures |items| == |ms|
    ensures forall i :: 0 <= i < |ms| ==>
      && items[i].id == ms[i].id
      && items[i].mediaUrl == ms[i].mediaUrl
      && items[i].except == Excerpt(ms[i].text)
  {
    if ms == [] then []
    else [ListItem(ms[0].id, ms[0].mediaUrl, Excerpt(ms[0].text))] + ListItems(ms[1..])
  }

  ghost predicate AllOwnedRows(rows: Rows, sub: string, ms: seq<Memory>) {
    forall i :: 0 <= i < |ms| ==> ms[i].id in rows && rows[ms[i].id] == ms[i] && ms[i].userId == sub
  }

  ghost predicate DistinctIds(ms: seq<Memory>) {
    forall i, j :: 0 <= i < j < |ms| ==> ms[i].id != ms[j].id
  }

  ghost predicate ByCreationTime(ms: seq<Memory>) {
    forall i, j :: 0 <= i < j < |ms| ==> ms[i].createdAt <= ms[j].createdAt
  }

  /** `ms` is an answer to the list query for `sub`: every row owned by `sub`,
      each once, nothing else, in ascending creation time (rows created at the
      same instant may come in either order). */
  ghost predicate IsListing(rows: Rows, sub: string, ms: seq<Memory>) {
    && AllOwnedRows(rows, sub, ms)
    && (forall id :: id in rows && rows[id].userId == sub ==> rows[id] in ms)
    && DistinctIds(ms)
    && ByCreationTime(ms)
  }

  lemma {:induction false} EarliestExists(rows: Rows, pending: set<string>)
    requires pending != {} && pending <= rows.Keys
    ensures exists id :: id in pending && forall j :: j in pending ==> rows[id].createdAt <= rows[j].createdAt
    decreases pending
  {
    var x :| x in pending;
    if pending == {x} {
      assert forall j :: j in pending ==> j == x;
    } else {
      var rest := pending - {x};
      EarliestExists(rows, rest);
      var y :| y in rest && forall j :: j in rest ==> rows[y].createdAt <= rows[j].createdAt;
      if rows[x].createdAt < rows[y].createdAt {
        assert forall j :: j in pending ==> j == x || j in rest;
      } else {
        assert forall j :: j in pending ==> j == x || j in rest;
      }
    }
  }

  /** The store's `where userId = sub orderBy createdAt asc` query: the owned
      rows are taken out earliest first. */
  method ByCreation(rows: Rows, sub: string) returns (ms: seq<Memory>)
    requires WellKeyed(rows)
    ensures IsListing(rows, sub, ms)
  {
    var pending := set id | id in rows && rows[id].userId == sub;
    ms := [];
    while pending != {}
      invariant pending <= rows.Keys
      invariant forall id :: id in pending ==> rows[id].userId == sub
      invariant AllOwnedRows(rows, sub, ms)
      invariant forall id :: id in rows && rows[id].userId == sub ==> id in pending || rows[id] in ms
      invariant forall i :: 0 <= i < |ms| ==> ms[i].id !in pending
      invariant DistinctIds(ms) && ByCreationTime(ms)
      invariant forall i, id :: 0 <= i < |ms| && id in pending ==> ms[i].createdAt <= rows[id].createdAt
      decreases pending
    {
      EarliestExists(rows, pending);
      var id :| id in pending && forall j :: j in pending ==> rows[id].createdAt <= rows[j].createdAt;
      ms := ms + [rows[id]];
      pending := pending - {id};
    }
  }

  /** Whether `ms` answers the list query for `u` depends only on the rows `u` owns. */
  lemma ListingDependsOnOwnRows(rows: Rows, rows': Rows, u: string, ms: seq<Memory>)
    requires OwnedBy(rows, u) == OwnedBy(rows', u)
    requires IsListing(rows, u, ms)
    ensures IsListing(rows', u, ms)
  {
    forall i | 0 <= i < |ms|
      ensures ms[i].id in rows' && rows'[ms[i].id] == ms[i]
    {
      assert ms[i].id in OwnedBy(rows, u);
    }
    forall id | id in rows' && rows'[id].userId == u
      ensures rows'[id] in ms
    {
      assert id in OwnedBy(rows', u);
    }
  }

  // ---------------------------------------------------------------------------
  // Read

  /** `GET /memories/:id`: the id must be a UUID, the row must exist, and a
      private row is refused to anyone but its owner. */
  function ReadReply(rows: Rows, sub: string, rawId: string): (r: Reply<Memory>)
    ensures r.Ok? <==> IsUuid(rawId) && rawId in rows && VisibleTo(rows[rawId], sub)
    ensures r.Ok? ==> r.value == rows[rawId]
    ensures r == Fail(InvalidId) <==> !IsUuid(rawId)
    ensures r == Fail(NotFound) <==> IsUuid(rawId) && rawId !in rows
    ensures r == Fail(Unauthorized) <==>
      IsUuid(rawId) && rawId in rows && !rows[rawId].isPublic && rows[rawId].userId != sub
  {
    if !IsUuid(rawId) then Fail(InvalidId)
    else if rawId !in rows then Fail(NotFound)
    else if !rows[rawId].isPublic && rows[rawId].userId != sub then Fail(Unauthorized)
    else Ok(rows[rawId])
  }

  // ---------------------------------------------------------------------------
  // Create, update, delete

  /** `POST /memories`: a new row under the fresh id the store generates, owned
      by the requester and stamped with the store's clock. */
  function CreateOutcome(rows: Rows, sub: string, body: Json, freshId: string, now: int): (o: Outcome<Memory>)
    requires WellKeyed(rows)
    requires IsUuid(freshId) && freshId !in rows
    ensures WellKeyed(o.rows)
    ensures o.reply.Fail? <==> ParseMemoryBody(body).Fail?
    ensures o.reply.Fail? ==> o.reply.failure == InvalidBody && o.rows == rows
    ensures o.reply.Ok? ==>
      var input := ParseMemoryBody(body).value;
      && o.reply.value == Memory(freshId, sub, input.text, input.mediaUrl, input.isPublic, now)
      && o.rows.Keys == rows.Keys + {freshId}
      && o.rows[freshId] == o.reply.value
    ensures forall id :: id in rows ==> id in o.rows && o.rows[id] == rows[id]
  {
    match ParseMemoryBody(body)
    case Fail(f) => Outcome(Fail(f), rows)
    case Ok(input) =>
      var m := Memory(freshId, sub, input.text, input.mediaUrl, input.isPublic, now);
      Outcome(Ok(m), rows[freshId := m])
  }

  /** The row after an update: the three supplied fields replaced, id, owner
      and creation time kept. */
  function Replaced(m: Memory, input: MemoryInput): (r: Memory)
    ensures r.id == m.id && r.userId == m.userId && r.createdAt == m.createdAt
    ensures r.text == input.text && r.mediaUrl == input.mediaUrl && r.isPublic == input.isPublic
  {
    m.(text := input.text, mediaUrl := input.mediaUrl, isPublic := input.isPublic)
  }

  /** `PUT /memories/:id`: the id is checked, then the body, then the row is
      looked up, and only its owner may replace its fields. */
  function UpdateOutcome(rows: Rows, sub: string, rawId: string, body: Json): (o: Outcome<Memory>)
    requires WellKeyed(rows)
    ensures WellKeyed(o.rows) && o.rows.Keys == rows.Keys
    ensures o.reply.Fail? ==> o.rows == rows
    ensures o.reply == Fail(InvalidId) <==> !IsUuid(rawId)
    ensures o.reply == Fail(InvalidBody) <==> IsUuid(rawId) && ParseMemoryBody(body).Fail?
    ensures o.reply == Fail(NotFound) <==>
      IsUuid(rawId) && ParseMemoryBody(body).Ok? && rawId !in rows
    ensures o.reply == Fail(Unauthorized) <==>
      IsUuid(rawId) && ParseMemoryBody(body).Ok? && rawId in rows && rows[rawId].userId != sub
    ensures o.reply.Ok? ==>
      var before, input := rows[rawId], ParseMemoryBody(body).value;
      && o.reply.value.id == before.id
      && o.reply.value.userId == before.userId == sub
      && o.reply.value.createdAt == before.createdAt
      && o.reply.value.text == input.text
      && o.reply.value.mediaUrl == input.mediaUrl
      && o.reply.value.isPublic == input.isPublic
      && o.rows[rawId] == o.reply.value
    ensures forall id :: id in rows && id != rawId ==> o.rows[id] == rows[id]
  {
    if !IsUuid(rawId) then Outcome(Fail(InvalidId), rows)
    else
      match ParseMemoryBody(body)
      case Fail(f) => Outcome(Fail(f), rows)
      case Ok(input) =>
        if rawId !in rows then Outcome(Fail(NotFound), rows)
        else if rows[rawId].userId != sub then Outcome(Fail(Unauthorized), rows)
        else
          var m := Replaced(rows[rawId], input);
          Outcome(Ok(m), rows[rawId := m])
  }

  /** `DELETE /memories/:id`: only the owner of an existing row may remove it. */
  function DeleteOutcome(rows: Rows, sub: string, rawId: string): (o: Outcome<()>)
    requires WellKeyed(rows)
    ensures WellKeyed(o.rows)
    ensures o.reply.Fail? ==> o.rows == rows
    ensures o.reply == Fail(InvalidId) <==> !IsUuid(rawId)
    ensures o.reply == Fail(NotFound) <==> IsUuid(rawId) && rawId !in rows
    ensures o.reply == Fail(Unauthorized) <==> IsUuid(rawId) && rawId in rows && rows[rawId].userId != sub
    ensures o.reply.Ok? <==> IsUuid(rawId) && rawId in rows && rows[rawId].userId == sub
    ensures o.reply.Ok? ==> o.rows.Keys == rows.Keys - {rawId}
    ensures forall id :: id in rows && id != rawId ==> id in o.rows && o.rows[id] == rows[id]
  {
    if !IsUuid(rawId) then Outcome(Fail(InvalidId), rows)
    else if rawId !in rows then Outcome(Fail(NotFound), rows)
    else if rows[rawId].userId != sub then Outcome(Fail(Unauthorized), rows)
    else Outcome(Ok(()), rows - {rawId})
  }

  // ---------------------------------------------------------------------------
  // What the routes promise together

  /** Two tables agree on what `u` owns when they hold the same rows owned by `u`. */
  lemma SameOwnedRows(rows: Rows, rows': Rows, u: string)
    requires forall id :: id in rows && rows[id].userId == u ==> id in rows' && rows'[id] == rows[id]
    requires forall id :: id in rows' && rows'[id].userId == u ==> id in rows && rows[id] == rows'[id]
    ensures OwnedBy(rows, u) == OwnedBy(rows', u)
  {
  }

  /** A route run by `sub` never touches a row someone else owns, and never
      gives anyone else a new row: every other user's part of the table is
      the same before and after. */
  lemma OthersRowsUntouched(rows: Rows, sub: string, u: string, rawId: string, body: Json, freshId: string, now: int)
    requires WellKeyed(rows) && u != sub
    requires IsUuid(freshId) && freshId !in rows
    ensures OwnedBy(CreateOutcome(rows, sub, body, freshId, now).rows, u) == OwnedBy(rows, u)
    ensures OwnedBy(UpdateOutcome(rows, sub, rawId, body).rows, u) == OwnedBy(rows, u)
    ensures OwnedBy(DeleteOutcome(rows, sub, rawId).rows, u) == OwnedBy(rows, u)
  {
    SameOwnedRows(CreateOutcome(rows, sub, body, freshId, now).rows, rows, u);
    SameOwnedRows(UpdateOutcome(rows, sub, rawId, body).rows, rows, u);
    SameOwnedRows(DeleteOutcome(rows, sub, rawId).rows, rows, u);
  }

  /** So another user's list answer stays a correct answer after any route `sub` runs. */
  lemma OthersListingUnchanged(rows: Rows, sub: string, u: string, ms: seq<Memory>,
                               rawId: string, body: Json, freshId: string, now: int)
    requires WellKeyed(rows) && u != sub && IsListing(rows, u, ms)
    requires IsUuid(freshId) && freshId !in rows
    ensures IsListing(CreateOutcome(rows, sub, body, freshId, now).rows, u, ms)
    ensures IsListing(UpdateOutcome(rows, sub, rawId, body).rows, u, ms)
    ensures IsListing(DeleteOutcome(rows, sub, rawId).rows, u, ms)
  {
    OthersRowsUntouched(rows, sub, u, rawId, body, freshId, now);
    ListingDependsOnOwnRows(rows, CreateOutcome(rows, sub, body, freshId, now).rows, u, ms);
    ListingDependsOnOwnRows(rows, UpdateOutcome(rows, sub, rawId, body).rows, u, ms);
    ListingDependsOnOwnRows(rows, DeleteOutcome(rows, sub, rawId).rows, u, ms);
  }

  /** Create then read: the owner gets back exactly the created row; when it is
      private, every other user is refused. */
  lemma CreateThenRead(rows: Rows, sub: string, reader: string, body: Json, freshId: string, now: int)
    requires WellKeyed(rows) && IsUuid(freshId) && freshId !in rows
    requires ParseMemoryBody(body).Ok?
    ensures var o := CreateOutcome(rows, sub, body, freshId, now);
      && ReadReply(o.rows, sub, freshId) == o.reply
      && (reader != sub && !ParseMemoryBody(body).value.isPublic ==>
            ReadReply(o.rows, reader, freshId) == Fail(Unauthorized))
  {
  }

  /** An update by the owner is what a later read returns. */
  lemma UpdateThenRead(rows: Rows, sub: string, rawId: string, body: Json)
    requires WellKeyed(rows)
    requires UpdateOutcome(rows, sub, rawId, body).reply.Ok?
    ensures var o := UpdateOutcome(rows, sub, rawId, body);
      ReadReply(o.rows, sub, rawId) == o.reply
  {
  }

  /** After a delete by the owner, the id is gone for every reader. */
  lemma DeleteThenRead(rows: Rows, sub: string, reader: string, rawId: string)
    requires WellKeyed(rows)
    requires IsUuid(rawId) && rawId in rows && rows[rawId].userId == sub
    ensures DeleteOutcome(rows, sub, rawId).reply.Ok?
    ensures ReadReply(DeleteOutcome(rows, sub, rawId).rows, reader, rawId) == Fail(NotFound)
  {
  }

  /** With a clock that never runs backwards, the previous list with the new
      row at the end is a correct answer to the owner's list query after a
      create. Rows whose `createdAt` equals `now` may come in either order. */
  lemma CreateAppendsToListing(rows: Rows, sub: string, ms: seq<Memory>, body: Json, freshId: string, now: int)
    requires WellKeyed(rows) && IsUuid(freshId) && freshId !in rows
    requires IsListing(rows, sub, ms)
    requires forall id :: id in rows ==> rows[id].createdAt <= now
    requires CreateOutcome(rows, sub, body, freshId, now).reply.Ok?
    ensures var o := CreateOutcome(rows, sub, body, freshId, now);
      IsListing(o.rows, sub, ms + [o.reply.value])
  {
    var o := CreateOutcome(rows, sub, body, freshId, now);
    var ms' := ms + [o.reply.value];
    assert forall i :: 0 <= i < |ms| ==> ms'[i] == ms[i];
    forall id | id in o.rows && o.rows[id].userId == sub
      ensures o.rows[id] in ms'
    {
      if id != freshId {
        assert rows[id] in ms;
      }
    }
  }

  // ---------------------------------------------------------------------------
  // The table as the routes change it

  class MemoryTable {
    var rows: Rows

    ghost predicate Valid()
      reads this
    {
      WellKeyed(rows)
    }

    constructor ()
      ensures Valid() && rows == map[]
    {
      rows := map[];
    }

    /** `GET /memories` */
    method List(sub: string) returns (items: seq<ListItem>)
      requires Valid()
      ensures exists ms :: IsListing(rows, sub, ms) && items == ListItems(ms)
    {
      var memories := ByCreation(rows, sub);
      items := ListItems(memories);
    }

    /** `GET /memories/:id` */
    method Read(sub: string, rawId: string) returns (r: Reply<Memory>)
      requires Valid()
      ensures r == ReadReply(rows, sub, rawId)
    {
      if !IsUuid(rawId) {
        return Fail(InvalidId);
      }
      if rawId !in rows {
        return Fail(NotFound);
      }
      var memory := rows[rawId];
      if !memory.isPublic && memory.userId != sub {
        return Fail(Unauthorized);
      }
      return Ok(memory);
    }

    /** `POST /memories`; the store supplies the fresh id and the timestamp. */
    method Create(sub: string, body: Json, freshId: string, now: int) returns (r: Reply<Memory>)
      requires Valid() && IsUuid(freshId) && freshId !in rows
      modifies this
      ensures Valid()
      ensures Outcome(r, rows) == CreateOutcome(old(rows), sub, body, freshId, now)
    {
      var parsed := ParseMemoryBody(body);
      if parsed.Fail? {
        return Fail(parsed.failure);
      }
      var input := parsed.value;
      var memory := Memory(freshId, sub, input.text, input.mediaUrl, input.isPublic, now);
      rows := rows[freshId := memory];
      return Ok(memory);
    }

    /** `PUT /memories/:id` */
    method Update(sub: string, rawId: string, body: Json) returns (r: Reply<Memory>)
      requires Valid()
      modifies this
      ensures Valid()
      ensures Outcome(r, rows) == UpdateOutcome(old(rows), sub, rawId, body)
    {
      if !IsUuid(rawId) {
        return Fail(InvalidId);
      }
      var parsed := ParseMemoryBody(body);
      if parsed.Fail? {
        return Fail(parsed.failure);
      }
      if rawId !in rows {
        return Fail(NotFound);
      }
      var memory := rows[rawId];
      if memory.userId != sub {
        return Fail(Unauthorized);
      }
      memory := Replaced(memory, parsed.value);
      rows := rows[rawId := memory];
      return Ok(memory);
    }

    /** `DELETE /memories/:id` */
    method Delete(sub: string, rawId: string) returns (r: Reply<()>)
      requires Valid()
      modifies this
      ensures Valid()
      ensures Outcome(r, rows) == DeleteOutcome(old(rows), sub, rawId)
    {
      if !IsUuid(rawId) {
        return Fail(InvalidId);
      }
      if rawId !in rows {
        return Fail(NotFound);
      }
      var memory := rows[rawId];
      if memory.userId != sub {
        return Fail(Unauthorized);
      }
      rows := rows - {rawId};
      return Ok(());
    }
  }
}
