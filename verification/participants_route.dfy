/** `GET /api/participants` and `POST /api/participants`. */
module ParticipantsRoute {
  import opened Wrappers
  import opened Text
  import opened Records
  import Sorting

  /** `GET /api/participants`: every participant exactly once, newest `createdAt` first. */
  function ListParticipants(db: Db): (r: seq<Participant>)
    requires Valid(db)
    ensures forall i, j :: 0 <= i < j < |r| ==> r[i].createdAt >= r[j].createdAt
    ensures forall i :: 0 <= i < |r| ==> r[i].id in db.participants && db.participants[r[i].id] == r[i]
    ensures forall k :: k in db.participants ==> db.participants[k] in r
    ensures forall i, j :: 0 <= i < j < |r| ==> r[i].id != r[j].id
  {
    var r := Sorting.ListDesc(db.participants, (p: Participant) => p.id, 1, db.nextParticipant,
                              (p: Participant) => p.createdAt);
    forall i, j | 0 <= i < j < |r| ensures r[i].createdAt >= r[j].createdAt {
      assert ((p: Participant) => p.createdAt)(r[i]) >= ((p: Participant) => p.createdAt)(r[j]);
    }
    r
  }

  /** `POST /api/participants` with body `{ name }`. A missing or blank name is refused with 400 and
      nothing is written; otherwise one active row named by the trimmed name is inserted and
      returned with 201. A throwing insert gives 500 and writes nothing. */
  function CreateParticipant(db: Db, name: Option<string>, now: int, insertFails: bool): (r: (Db, Reply<Participant>))
    requires Valid(db)
    ensures Valid(r.0)
    ensures NameMissing(name) ==> r.1.Status() == 400 && r.0 == db
    ensures !NameMissing(name) && !insertFails ==> r.1.Status() == 201
    ensures !NameMissing(name) && insertFails ==> r.1.Status() == 500 && r.0 == db
    ensures r.1.Created? ==>
              var p := r.1.body;
              && p.id !in db.participants && p.name == Trim(name.value) && IsTrimmed(p.name) && p.name != ""
              && p.isActive && p.createdAt == now
              && r.0 == db.(participants := db.participants[p.id := p], nextParticipant := db.nextParticipant + 1)
  {
    if NameMissing(name) then
      (db, BadRequest("Participant name is required"))
    else if insertFails then
      (db, ServerError("Failed to create participant"))
    else
      var p := Participant(db.nextParticipant, Trim(name.value), true, now);
      InsertParticipantValid(db, p);
      (db.(participants := db.participants[p.id := p], nextParticipant := db.nextParticipant + 1), Created(p))
  }
}
