/**
 * The persistent store: three tables (items, participants, history) kept as
 * maps from id to row, with the auto-increment counter of each table, and the
 * reply shape every route handler returns.
 */
module Records {
  import opened Wrappers
  import opened Text

  newtype Byte = x: int | 0 <= x < 256

  /** Binary column contents (`Bytes` in the schema, a `Buffer` in the handlers). */
  type Bytes = seq<Byte>

  /** A prize row. `image` is the stored binary picture, if any. */
  datatype Item = Item(id: int, name: string, color: string, image: Option<Bytes>, isActive: bool, createdAt: int)

  /** A participant row. */
  datatype Participant = Participant(id: int, name: string, isActive: bool, createdAt: int)

  /** A history row: which item went to which participant, and when. */
  datatype Entry = Entry(id: int, itemId: int, participantId: int, wonAt: int)

  /** The whole store. `next*` is the id the next insert into that table receives. */
  datatype Db = Db(
    items: map<int, Item>,
    participants: map<int, Participant>,
    history: map<int, Entry>,
    nextItem: int,
    nextParticipant: int,
    nextEntry: int)

  /** What the database itself maintains: each key is its row's id and was issued by the
      table's counter (ids start at 1), and every history row references existing rows. */
  ghost predicate Valid(db: Db) {
    && db.nextItem >= 1 && db.nextParticipant >= 1 && db.nextEntry >= 1
    && (forall k :: k in db.items ==> db.items[k].id == k && 1 <= k < db.nextItem)
    && (forall k :: k in db.participants ==> db.participants[k].id == k && 1 <= k < db.nextParticipant)
    && (forall k :: k in db.history ==> db.history[k].id == k && 1 <= k < db.nextEntry)
    && (forall k :: k in db.history ==> db.history[k].itemId in db.items && db.history[k].participantId in db.participants)
  }

  /** Inserting an item under the next id keeps the store valid. */
  lemma InsertItemValid(db: Db, it: Item)
    requires Valid(db) && it.id == db.nextItem
    ensures Valid(db.(items := db.items[it.id := it], nextItem := db.nextItem + 1))
  {
  }

  /** Inserting a participant under the next id keeps the store valid. */
  lemma InsertParticipantValid(db: Db, p: Participant)
    requires Valid(db) && p.id == db.nextParticipant
    ensures Valid(db.(participants := db.participants[p.id := p], nextParticipant := db.nextParticipant + 1))
  {
  }

  /** Rewriting an existing item row, keeping the id it holds, keeps a valid store valid. */
  lemma ReplaceItemValid(db: Db, id: int, it: Item)
    requires id in db.items && it.id == db.items[id].id
    ensures Valid(db) ==> Valid(db.(items := db.items[id := it]))
  {
    if Valid(db) {
      assert db.items[id := it].Keys == db.items.Keys;
    }
  }

  /** Rewriting an existing participant row, keeping the id it holds, keeps a valid store valid. */
  lemma ReplaceParticipantValid(db: Db, id: int, p: Participant)
    requires id in db.participants && p.id == db.participants[id].id
    ensures Valid(db) ==> Valid(db.(participants := db.participants[id := p]))
  {
    if Valid(db) {
      assert db.participants[id := p].Keys == db.participants.Keys;
    }
  }

  /** A freshly migrated store. */
  function EmptyDb(): (db: Db)
    ensures Valid(db)
    ensures db.items == map[] && db.participants == map[] && db.history == map[]
  {
    Db(map[], map[], map[], 1, 1, 1)
  }

  /** The response of a route handler: a JSON body with a status code. */
  datatype Reply<+T> = Success(body: T) | Created(body: T) | BadRequest(message: string) | ServerError(message: string) {

    function Status(): int {
      match this
      case Success(_) => 200
      case Created(_) => 201
      case BadRequest(_) => 400
      case ServerError(_) => 500
    }
  }

  /** `!name || name.trim() === ""`: the name check both create handlers apply. */
  predicate NameMissing(name: Option<string>) {
    !Truthy(name) || Trim(name.value) == ""
  }

  /** JavaScript truthiness of an optional string field: absent, `null` and `""` are falsy. */
  predicate Truthy(s: Option<string>) {
    s.Some? && s.value != ""
  }
}
