/**
 * `PUT /api/items/[id]`: updating one prize from a JSON body whose fields are each optional,
 * the picture arriving as a data URL as on creation.
 */
module ItemsMemberRoute {
  import opened Wrappers
  import opened Text
  import opened Records
  import ItemsRoute

  /** The picture an update writes: `None` to keep the stored one, `Some(None)` to clear it,
      `Some(Some(bytes))` to replace it. An absent field keeps it, `null` clears it, a `data:image`
      string is decoded (`Err` when it has no comma, where `Buffer.from(undefined)` throws), and
      any other string keeps it. */
  function ImageUpdate(image: Option<Option<string>>, decode: string -> Bytes): (r: Result<Option<Option<Bytes>>, string>)
    ensures image.None? ==> r == Ok(None)
    ensures image == Some(None) ==> r == Ok(Some(None))
    ensures image.Some? && image.value.Some? && !StartsWith(image.value.value, ItemsRoute.ImageMarker) ==> r == Ok(None)
    ensures image.Some? && image.value.Some? && StartsWith(image.value.value, ItemsRoute.ImageMarker) ==>
              (r.Err? <==> ',' !in image.value.value)
              && (r.Ok? ==> r == Ok(Some(Some(decode(ItemsRoute.SecondSegment(image.value.value).value)))))
  {
    match image
    case None => Ok(None)
    case Some(None) => Ok(Some(None))
    case Some(Some(s)) =>
      if StartsWith(s, ItemsRoute.ImageMarker) then
        match ItemsRoute.SecondSegment(s)
        case Some(payload) => Ok(Some(Some(decode(payload))))
        case None => Err("The first argument must be of type string")
      else
        Ok(None)
  }

  /** `PUT /api/items/[id]` with body `{ name?, color?, image?, isActive? }`, a field being `None`
      when the body leaves it out. A throwing decode, or a row that does not exist, gives 500 and
      writes nothing. Otherwise the row takes the trimmed name, the colour (even an empty one),
      the picture as `ImageUpdate` says and the flag where they are given, keeps the id and
      creation time it holds, is returned with 200, and no other row changes. */
  function UpdateItem(db: Db, id: int, name: Option<string>, color: Option<string>, image: Option<Option<string>>,
                      isActive: Option<bool>, decode: string -> Bytes): (r: (Db, Reply<Item>))
    ensures Valid(db) ==> Valid(r.0)
    ensures r.1.Success? <==> id in db.items && ImageUpdate(image, decode).Ok?
    ensures !r.1.Success? ==> r.1.Status() == 500 && r.0 == db
    ensures r.1.Success? ==>
              var (before, it, pic) := (db.items[id], r.1.body, ImageUpdate(image, decode).value);
              && it.id == before.id && it.createdAt == before.createdAt
              && it.name == (if name.Some? then Trim(name.value) else before.name)
              && it.color == (if color.Some? then color.value else before.color)
              && it.image == (if pic.Some? then pic.value else before.image)
              && it.isActive == (if isActive.Some? then isActive.value else before.isActive)
              && r.0.items == db.items[id := it]
              && r.0 == db.(items := r.0.items)
  {
    match ImageUpdate(image, decode)
    case Err(_) => (db, ServerError("Failed to update item"))
    case Ok(pic) =>
      if id !in db.items then
        (db, ServerError("Failed to update item"))
      else
        var before := db.items[id];
        var it := before.(name := if name.Some? then Trim(name.value) else before.name,
                          color := if color.Some? then color.value else before.color,
                          image := if pic.Some? then pic.value else before.image,
                          isActive := if isActive.Some? then isActive.value else before.isActive);
        ReplaceItemValid(db, id, it);
        (db.(items := db.items[id := it]), Success(it))
  }

  /** An update carrying a row's own trimmed name and colour, and a picture that decodes to its own
      picture, writes the row it already holds. */
  lemma StoredRowRewritten(db: Db, k: int, image: Option<string>, decode: string -> Bytes)
    requires k in db.items && IsTrimmed(db.items[k].name)
    requires ImageUpdate(Some(image), decode) == Ok(Some(db.items[k].image))
    ensures UpdateItem(db, k, Some(db.items[k].name), Some(db.items[k].color), Some(image), None, decode)
              == (db, Success(db.items[k]))
  {
    TrimOfTrimmed(db.items[k].name);
    assert db.items[k := db.items[k]] == db.items;
  }
}
