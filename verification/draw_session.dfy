/**
 * A whole draw on the single-wheel page against the store: the page loads its pools from the
 * listings, runs the prize and participant spins, the history handler commits the pairing, and
 * confirming the winner alert reloads the page, which loads its pools again from the store.
 */
module DrawSession {
  import opened Wrappers
  import opened Records
  import opened Requests
  import opened HistoryRoute
  import ItemsRoute
  import ParticipantsRoute
  import HomePage
  import Chance

  type Home = HomePage.Home

  /** `fetchData` against the store: both listings, filtered to active records. */
  function Fetch(h: Home, db: Db, encode: Bytes -> string): (r: Home)
    requires Valid(db)
    ensures HomePage.ActivePools(r)
    ensures FromStore(r, db)
  {
    HomePage.Loaded(h, ItemsRoute.ListItems(db, encode), ParticipantsRoute.ListParticipants(db))
  }

  /** Every record in the pools is a record of `db` that is active there. */
  ghost predicate FromStore(h: Home, db: Db) {
    && (forall i :: 0 <= i < |h.items| ==> h.items[i].id in db.items && db.items[h.items[i].id].isActive)
    && (forall i :: 0 <= i < |h.participants| ==>
          h.participants[i].id in db.participants && db.participants[h.participants[i].id] == h.participants[i]
          && h.participants[i].isActive)
  }

  /** The history handler receiving a request the page sends. */
  function Serve(db: Db, req: Request, now: int, fault: Fault): (r: (Db, Reply<Won>))
    requires Valid(db) && req.body.HistoryBody?
    ensures Valid(r.0)
    ensures !r.1.Created? ==> r.0 == db
  {
    PostHistory(db, HistoryPost(Number(req.body.itemId), Number(req.body.participantId)), now, fault)
  }

  /** The prize spin settled on `i` and confirmed, then the participant spin settled on `j`:
      the handler's last page state, the request it sent, and whether the page reloads. */
  function Draw(h: Home, u1: Chance.Random, u2: Chance.Random, i: int, j: int): (r: (Home, Option<Request>, bool))
    requires h.mode == HomePage.ItemsMode && u1.Valid() && u2.Valid()
    requires 0 <= i < |h.items| && 0 <= j < |h.participants|
    ensures r.1 == Some(Request(Post, Collection(History), HistoryBody(h.items[i].id, h.participants[j].id)))
    ensures r.2
    ensures r.0.items == h.items && r.0.participants == h.participants
    ensures r.0.mode == HomePage.ItemsMode && HomePage.Idle(r.0) && r.0.selected.None?
  {
    HomePage.DrawProtocol(h, u1, u2, i, j, true);
    var h1 := HomePage.HandleSpin(h, u1).0;
    var h2 := HomePage.HandleSpinEnd(h1, i, true).0;
    var h3 := HomePage.HandleSpin(h2, u2).0;
    HomePage.HandleSpinEnd(h3, j, true)
  }

  /** A draw from pools loaded from the store is committed when no write fails: the history gains
      the pairing of the prize and participant the spins settled on, and both become inactive. */
  lemma DrawCommits(db: Db, h: Home, u1: Chance.Random, u2: Chance.Random, i: int, j: int, now: int)
    requires Valid(db) && FromStore(h, db) && h.mode == HomePage.ItemsMode && u1.Valid() && u2.Valid()
    requires 0 <= i < |h.items| && 0 <= j < |h.participants|
    ensures var (db', reply) := Serve(db, Draw(h, u1, u2, i, j).1.value, now, NoFault);
            && reply.Created?
            && reply.body.entry.itemId == h.items[i].id && reply.body.entry.participantId == h.participants[j].id
            && reply.body.entry.id in db'.history
            && !db'.items[h.items[i].id].isActive
            && !db'.participants[h.participants[j].id].isActive
  {
    var req := Draw(h, u1, u2, i, j).1.value;
    CommitsWhenPresent(db, req, now);
  }

  /** A history request naming a stored prize and a stored participant is committed when no write
      fails, whether or not they are still active. */
  lemma CommitsWhenPresent(db: Db, req: Request, now: int)
    requires Valid(db) && req.body.HistoryBody?
    requires req.body.itemId in db.items && req.body.participantId in db.participants
    ensures var (db', reply) := Serve(db, req, now, NoFault);
            && reply.Created?
            && reply.body.entry.itemId == req.body.itemId && reply.body.entry.participantId == req.body.participantId
            && reply.body.entry.id == db.nextEntry && db'.nextEntry == db.nextEntry + 1
            && db'.history == db.history[reply.body.entry.id := reply.body.entry]
            && !db'.items[req.body.itemId].isActive
            && !db'.participants[req.body.participantId].isActive
            && db'.items.Keys == db.items.Keys && db'.participants.Keys == db.participants.Keys
  {
    assert 1 <= req.body.itemId && 1 <= req.body.participantId;
  }

  /** A draw as the page runs it (src/lib/swal.ts lines 80-84): the pairing is served, the winner
      alert's confirm reloads the page, and the fresh page loads its pools from the store as the
      commit left it. */
  function DrawAndReload(db: Db, h: Home, u1: Chance.Random, u2: Chance.Random, i: int, j: int, now: int,
                         fault: Fault, encode: Bytes -> string): (r: (Home, Db, Reply<Won>))
    requires Valid(db) && h.mode == HomePage.ItemsMode && u1.Valid() && u2.Valid()
    requires 0 <= i < |h.items| && 0 <= j < |h.participants|
    ensures Valid(r.1) && FromStore(r.0, r.1) && HomePage.ActivePools(r.0)
    ensures r.0.mode == HomePage.ItemsMode && HomePage.Idle(r.0) && r.0.selected.None?
    ensures !r.2.Created? ==> r.1 == db
  {
    var (_, req, _) := Draw(h, u1, u2, i, j);
    var (db', reply) := Serve(db, req.value, now, fault);
    (Fetch(HomePage.Initial(), db', encode), db', reply)
  }

  /** After the reload the spin button is enabled exactly when the store still holds an active
      prize: the fresh page shows the prize wheel, and its pool is the store's active prizes. */
  lemma ReloadEnabledIff(db: Db, encode: Bytes -> string)
    requires Valid(db)
    ensures HomePage.SpinEnabled(Fetch(HomePage.Initial(), db, encode)) <==>
              exists k :: k in db.items && db.items[k].isActive
  {
    var r := Fetch(HomePage.Initial(), db, encode);
    if |r.items| > 0 {
      assert r.items[0].id in db.items && db.items[r.items[0].id].isActive;
    }
    if exists k :: k in db.items && db.items[k].isActive {
      var k :| k in db.items && db.items[k].isActive;
      ActivePrizeFetched(db, encode, k);
    }
  }

  /** An active stored prize is in the prize pool `fetchData` loads. */
  lemma ActivePrizeFetched(db: Db, encode: Bytes -> string, k: int)
    requires Valid(db) && k in db.items && db.items[k].isActive
    ensures ItemsRoute.View(db.items[k], encode) in Fetch(HomePage.Initial(), db, encode).items
  {
    var listed := ItemsRoute.ListItems(db, encode);
    var v := ItemsRoute.View(db.items[k], encode);
    assert v in listed;
    var x :| 0 <= x < |listed| && listed[x] == v;
    assert listed[x].isActive;
  }

  /** With the pools reloaded after the commit, neither the prize nor the participant just drawn
      is in the pools any more, so neither can be drawn again. */
  lemma ReloadRetiresWinners(db: Db, h: Home, u1: Chance.Random, u2: Chance.Random, i: int, j: int, now: int,
                             encode: Bytes -> string)
    requires Valid(db) && FromStore(h, db) && h.mode == HomePage.ItemsMode && u1.Valid() && u2.Valid()
    requires 0 <= i < |h.items| && 0 <= j < |h.participants|
    ensures var (h', db', reply) := DrawAndReload(db, h, u1, u2, i, j, now, NoFault, encode);
            && reply.Created?
            && (forall x :: 0 <= x < |h'.items| ==> h'.items[x].id != h.items[i].id)
            && (forall y :: 0 <= y < |h'.participants| ==> h'.participants[y].id != h.participants[j].id)
  {
    DrawCommits(db, h, u1, u2, i, j, now);
    var (h', db', reply) := DrawAndReload(db, h, u1, u2, i, j, now, NoFault, encode);
    assert Draw(h, u1, u2, i, j).1.value == Request(Post, Collection(History), HistoryBody(h.items[i].id, h.participants[j].id));
    assert !db'.items[h.items[i].id].isActive && !db'.participants[h.participants[j].id].isActive;
  }
}
