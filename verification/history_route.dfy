/**
 * `GET /api/history` and `POST /api/history`. A POST records one draw: inside a
 * single transaction it inserts the history row and marks the won item and the
 * winning participant inactive. The transaction is modelled as three steps run
 * on a copy of the store, published only if all three succeed.
 */
module HistoryRoute {
  import opened Wrappers
  import opened Records
  import Sorting

  /** A JSON id field as the handler sees it, after `parseInt` (identity on well-formed ids). */
  datatype IdField = Absent | Number(n: int)

  /** JavaScript falsiness of an id field: absent, or the number 0. */
  predicate Falsy(f: IdField) {
    f.Absent? || f.n == 0
  }

  /** The JSON body `{ itemId, participantId }`. */
  datatype HistoryPost = HistoryPost(itemId: IdField, participantId: IdField)

  /** Which write of the transaction, if any, the database refuses for reasons outside the model. */
  datatype Fault = NoFault | CreateFails | ItemUpdateFails | ParticipantUpdateFails

  /** A history row together with the item and participant rows it references. */
  datatype Won = Won(entry: Entry, item: Item, participant: Participant)

  /** `tx.history.create({ data, include })`: fails on a dangling reference or an injected fault.
      On success it adds one row under the next id, carrying both ids and the current time, returns
      it joined with the two rows it references, and touches no other table. */
  function CreateEntry(db: Db, itemId: int, participantId: int, now: int, fault: Fault): (r: Option<(Db, Won)>)
    ensures r.Some? <==> fault != CreateFails && itemId in db.items && participantId in db.participants
    ensures r.Some? ==>
              var (db1, won) := r.value;
              && won.entry == Entry(db.nextEntry, itemId, participantId, now)
              && won.item == db.items[itemId] && won.participant == db.participants[participantId]
              && db1.history == db.history[db.nextEntry := won.entry]
              && db1.nextEntry == db.nextEntry + 1
              && db1 == db.(history := db1.history, nextEntry := db1.nextEntry)
  {
    if fault == CreateFails || itemId !in db.items || participantId !in db.participants then
      None
    else
      var e := Entry(db.nextEntry, itemId, participantId, now);
      Some((db.(history := db.history[e.id := e], nextEntry := db.nextEntry + 1),
            Won(e, db.items[itemId], db.participants[participantId])))
  }

  /** `tx.item.update({ where: { id }, data: { isActive: false } })`: fails if there is no such row.
      On success exactly that item's flag is cleared; every other item and every other table stays. */
  function DeactivateItem(db: Db, id: int, fault: Fault): (r: Option<Db>)
    ensures r.Some? <==> fault != ItemUpdateFails && id in db.items
    ensures r.Some? ==>
              && r.value.items.Keys == db.items.Keys
              && r.value.items[id] == db.items[id].(isActive := false)
              && (forall k :: k in db.items && k != id ==> r.value.items[k] == db.items[k])
              && r.value == db.(items := r.value.items)
  {
    if fault == ItemUpdateFails || id !in db.items then None
    else Some(db.(items := db.items[id := db.items[id].(isActive := false)]))
  }

  /** `tx.participant.update({ where: { id }, data: { isActive: false } })`: on success exactly that
      participant's flag is cleared; every other participant and every other table stays. */
  function DeactivateParticipant(db: Db, id: int, fault: Fault): (r: Option<Db>)
    ensures r.Some? <==> fault != ParticipantUpdateFails && id in db.participants
    ensures r.Some? ==>
              && r.value.participants.Keys == db.participants.Keys
              && r.value.participants[id] == db.participants[id].(isActive := false)
              && (forall k :: k in db.participants && k != id ==> r.value.participants[k] == db.participants[k])
              && r.value == db.(participants := r.value.participants)
  {
    if fault == ParticipantUpdateFails || id !in db.participants then None
    else Some(db.(participants := db.participants[id := db.participants[id].(isActive := false)]))
  }

  /** The body of `prisma.$transaction`: the three writes in order, on the transaction's copy. */
  function Transaction(db: Db, itemId: int, participantId: int, now: int, fault: Fault): Option<(Db, Won)> {
    match CreateEntry(db, itemId, participantId, now, fault)
    case None => None
    case Some((db1, won)) =>
      match DeactivateItem(db1, itemId, fault)
      case None => None
      case Some(db2) =>
        match DeactivateParticipant(db2, participantId, fault)
        case None => None
        case Some(db3) => Some((db3, won))
  }

  /** `db'` is `db` with exactly the three writes of one draw: history row `e` added under a fresh
      id, item `e.itemId` and participant `e.participantId` inactive, nothing else changed. */
  ghost predicate Committed(db: Db, db': Db, e: Entry) {
    && e.id == db.nextEntry && e.id !in db.history
    && e.itemId in db.items && e.participantId in db.participants
    && db'.history == db.history[e.id := e]
    && db'.items == db.items[e.itemId := db.items[e.itemId].(isActive := false)]
    && db'.participants == db.participants[e.participantId := db.participants[e.participantId].(isActive := false)]
    && db'.nextEntry == db.nextEntry + 1
    && db'.nextItem == db.nextItem && db'.nextParticipant == db.nextParticipant
  }

  /** `POST /api/history`. A falsy id gives 400. Otherwise the draw is committed as one unit: either
      all three writes become visible and the created row is returned with 201, or (a dangling id or
      any failing write) none does and the reply is 500. */
  function PostHistory(db: Db, post: HistoryPost, now: int, fault: Fault): (r: (Db, Reply<Won>))
    requires Valid(db)
    ensures Valid(r.0)
    ensures Falsy(post.itemId) || Falsy(post.participantId) ==> r.1.Status() == 400 && r.0 == db
    ensures r.1.Status() in {201, 400, 500}
    ensures r.1.Created? <==>
              && !Falsy(post.itemId) && !Falsy(post.participantId)
              && post.itemId.n in db.items && post.participantId.n in db.participants
              && fault == NoFault
    ensures !r.1.Created? ==> r.0 == db
    ensures !Falsy(post.itemId) && !Falsy(post.participantId) && !r.1.Created? ==> r.1.Status() == 500
    ensures r.1.Created? ==>
              var won := r.1.body;
              && won.entry.itemId == post.itemId.n && won.entry.participantId == post.participantId.n
              && won.entry.wonAt == now
              && won.item == db.items[won.entry.itemId] && won.participant == db.participants[won.entry.participantId]
              && Committed(db, r.0, won.entry)
  {
    if Falsy(post.itemId) || Falsy(post.participantId) then
      (db, BadRequest("Item ID and Participant ID are required"))
    else
      match Transaction(db, post.itemId.n, post.participantId.n, now, fault)
      case None => (db, ServerError("Failed to create history"))
      case Some((db', won)) =>
        CommitValid(db, db', won.entry);
        (db', Created(won))
  }

  /** A committed draw keeps the store valid. */
  lemma CommitValid(db: Db, db': Db, e: Entry)
    requires Valid(db) && Committed(db, db', e)
    requires e.id == db.nextEntry
    ensures Valid(db')
  {
  }

  /** After a committed draw the item and the participant are out of every later draw pool. */
  lemma CommitRetiresBoth(db: Db, post: HistoryPost, now: int)
    requires Valid(db)
    requires PostHistory(db, post, now, NoFault).1.Created?
    ensures var db' := PostHistory(db, post, now, NoFault).0;
            && !db'.items[post.itemId.n].isActive
            && !db'.participants[post.participantId.n].isActive
            && |db'.history.Keys| == |db.history.Keys| + 1
  {
    var (db', reply) := PostHistory(db, post, now, NoFault);
    assert db'.history.Keys == db.history.Keys + {reply.body.entry.id};
  }

  /** The handler never looks at `isActive`: posting the same pair again, once both rows are
      retired, commits a second history row for the same prize. Only a request from outside the draw
      pages (a second browser tab, a direct API call) can do this, since the pages reload their pools
      after every draw. */
  lemma RetiredRowsCommitAgain(db: Db, post: HistoryPost, now: int, later: int)
    requires Valid(db)
    requires PostHistory(db, post, now, NoFault).1.Created?
    ensures var (db', first) := PostHistory(db, post, now, NoFault);
            var (db'', second) := PostHistory(db', post, later, NoFault);
            && !db'.items[post.itemId.n].isActive && !db'.participants[post.participantId.n].isActive
            && second.Created?
            && second.body.entry.id != first.body.entry.id
            && second.body.entry.itemId == first.body.entry.itemId
            && first.body.entry.id in db''.history && second.body.entry.id in db''.history
  {
    var (db', first) := PostHistory(db, post, now, NoFault);
    assert post.itemId.n in db'.items && post.participantId.n in db'.participants;
    var (db'', second) := PostHistory(db', post, later, NoFault);
    assert second.body.entry.id == db'.nextEntry;
  }

  /** The listing of one history row: the row joined with the rows it references. */
  function Join(db: Db, e: Entry): Won
    requires e.itemId in db.items && e.participantId in db.participants
  {
    Won(e, db.items[e.itemId], db.participants[e.participantId])
  }

  /** `GET /api/history`: every history row exactly once, joined with its item and participant,
      most recent `wonAt` first. */
  function ListHistory(db: Db): (r: seq<Won>)
    requires Valid(db)
    ensures forall i, j :: 0 <= i < j < |r| ==> r[i].entry.wonAt >= r[j].entry.wonAt
    ensures forall i :: 0 <= i < |r| ==> r[i].entry.id in db.history && r[i] == Join(db, db.history[r[i].entry.id])
    ensures forall k :: k in db.history ==> Join(db, db.history[k]) in r
    ensures forall i, j :: 0 <= i < j < |r| ==> r[i].entry.id != r[j].entry.id
  {
    var rows := EntryRows(db);
    var r := Joins(db, rows);
    JoinedListing(db, rows, r);
    r
  }

  /** Joining keeps the order, the coverage and the distinctness of the rows it joins. */
  lemma JoinedListing(db: Db, rows: seq<Entry>, r: seq<Won>)
    requires forall k :: k in db.history ==> db.history[k].itemId in db.items && db.history[k].participantId in db.participants
    requires forall i, j :: 0 <= i < j < |rows| ==> rows[i].wonAt >= rows[j].wonAt && rows[i].id != rows[j].id
    requires forall i :: 0 <= i < |rows| ==> rows[i].id in db.history && db.history[rows[i].id] == rows[i]
    requires forall k :: k in db.history ==> db.history[k] in rows
    requires |r| == |rows|
    requires forall i :: 0 <= i < |rows| ==> r[i] == Join(db, rows[i]) && r[i].entry == rows[i]
    ensures forall i, j :: 0 <= i < j < |r| ==> r[i].entry.wonAt >= r[j].entry.wonAt && r[i].entry.id != r[j].entry.id
    ensures forall i :: 0 <= i < |r| ==> r[i].entry.id in db.history && r[i] == Join(db, db.history[r[i].entry.id])
    ensures forall k :: k in db.history ==> Join(db, db.history[k]) in r
  {
    forall k | k in db.history ensures Join(db, db.history[k]) in r {
      var i :| 0 <= i < |rows| && rows[i] == db.history[k];
      assert r[i] == Join(db, db.history[k]);
    }
  }

  /** The history rows, most recent `wonAt` first, each exactly once. */
  function EntryRows(db: Db): (rows: seq<Entry>)
    requires Valid(db)
    ensures forall i, j :: 0 <= i < j < |rows| ==> rows[i].wonAt >= rows[j].wonAt && rows[i].id != rows[j].id
    ensures forall i :: 0 <= i < |rows| ==> rows[i].id in db.history && db.history[rows[i].id] == rows[i]
    ensures forall k :: k in db.history ==> db.history[k] in rows
    ensures forall i :: 0 <= i < |rows| ==> rows[i].itemId in db.items && rows[i].participantId in db.participants
  {
    var rows := Sorting.ListDesc(db.history, (e: Entry) => e.id, 1, db.nextEntry, (e: Entry) => e.wonAt);
    forall i, j | 0 <= i < j < |rows| ensures rows[i].wonAt >= rows[j].wonAt {
      assert ((e: Entry) => e.wonAt)(rows[i]) >= ((e: Entry) => e.wonAt)(rows[j]);
    }
    rows
  }

  /** `rows` each joined with the rows they reference. */
  function Joins(db: Db, rows: seq<Entry>): (r: seq<Won>)
    requires forall i :: 0 <= i < |rows| ==> rows[i].itemId in db.items && rows[i].participantId in db.participants
    ensures |r| == |rows|
    ensures forall i :: 0 <= i < |r| ==> r[i] == Join(db, rows[i]) && r[i].entry == rows[i]
  {
    if |rows| == 0 then [] else [Join(db, rows[0])] + Joins(db, rows[1..])
  }
}
