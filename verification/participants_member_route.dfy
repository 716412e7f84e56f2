/**
 * `PUT /api/participants/[id]`: renaming one participant or setting its active flag.
 */
module ParticipantsMemberRoute {
  import opened Wrappers
  import opened Text
  import opened Records

  /** `PUT /api/participants/[id]` with body `{ name?, isActive? }`, a field being `None` when the
      body leaves it out. A row that does not exist makes the update throw: 500, nothing written.
      Otherwise the row takes the trimmed name and the flag where they are given, keeps the id and
      creation time it holds, is returned with 200, and no other row changes. */
  function UpdateParticipant(db: Db, id: int, name: Option<string>, isActive: Option<bool>): (r: (Db, Reply<Participant>))
    ensures Valid(db) ==> Valid(r.0)
    ensures r.1.Success? <==> id in db.participants
    ensures id !in db.participants ==> r.1.Status() == 500 && r.0 == db
    ensures r.1.Success? ==>
              var (before, p) := (db.participants[id], r.1.body);
              && p.id == before.id && p.createdAt == before.createdAt
              && p.name == (if name.Some? then Trim(name.value) else before.name)
              && p.isActive == (if isActive.Some? then isActive.value else before.isActive)
              && r.0.participants == db.participants[id := p]
              && r.0 == db.(participants := r.0.participants)
  {
    if id !in db.participants then
      (db, ServerError("Failed to update participant"))
    else
      var before := db.participants[id];
      var p := before.(name := if name.Some? then Trim(name.value) else before.name,
                       isActive := if isActive.Some? then isActive.value else before.isActive);
      ReplaceParticipantValid(db, id, p);
      (db.(participants := db.participants[id := p]), Success(p))
  }

  /** An update carrying a row's own trimmed name writes the row it already holds. */
  lemma StoredNameRewritten(db: Db, k: int)
    requires k in db.participants && IsTrimmed(db.participants[k].name)
    ensures UpdateParticipant(db, k, Some(db.participants[k].name), None) == (db, Success(db.participants[k]))
  {
    TrimOfTrimmed(db.participants[k].name);
    assert db.participants[k := db.participants[k]] == db.participants;
  }
}
