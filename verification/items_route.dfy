/**
 * `GET /api/items` and `POST /api/items`: listing prizes newest first with their
 * pictures re-encoded as data URLs, and creating a prize from a JSON body whose
 * picture arrives as a data URL (the `data:` scheme of section 3 of RFC 2397).
 * Base64 encoding and decoding are left abstract and passed in as functions.
 */
module ItemsRoute {
  import opened Wrappers
  import opened Text
  import opened Records
  import Sorting

  /** The colour a prize gets when the request carries none. */
  const DefaultColor: string := "#3498db"

  /** A picture is taken from the request only if its string starts with this. */
  const ImageMarker: string := "data:image"

  /** Every listed picture is labelled PNG, whatever it was uploaded as. */
  const ListedImagePrefix: string := "data:image/png;base64,"

  /** A prize as the listing returns it. */
  datatype ItemView = ItemView(id: int, name: string, color: string, image: Option<string>, isActive: bool, createdAt: int)

  /** One row of the listing: the stored picture, if any, becomes a PNG data URL. */
  function View(it: Item, encode: Bytes -> string): ItemView {
    ItemView(
      it.id, it.name, it.color,
      if it.image.Some? then Some(ListedImagePrefix + encode(it.image.value)) else None,
      it.isActive, it.createdAt)
  }

  /** The item rows, newest `createdAt` first, each exactly once. */
  function ItemRows(db: Db): (rows: seq<Item>)
    requires Valid(db)
    ensures Sorting.SortedDesc(rows, (it: Item) => it.createdAt)
    ensures forall i :: 0 <= i < |rows| ==> rows[i].id in db.items && db.items[rows[i].id] == rows[i]
    ensures forall k :: k in db.items ==> db.items[k] in rows
    ensures forall i, j :: 0 <= i < j < |rows| ==> rows[i].id != rows[j].id
  {
    var rows := Sorting.ListDesc(db.items, (it: Item) => it.id, 1, db.nextItem, (it: Item) => it.createdAt);
    assert Sorting.NoDuplicates(rows);
    rows
  }

  /** `GET /api/items`: every prize exactly once, newest `createdAt` first, each as `View` shows it. */
  function ListItems(db: Db, encode: Bytes -> string): (r: seq<ItemView>)
    requires Valid(db)
    ensures forall i, j :: 0 <= i < j < |r| ==> r[i].createdAt >= r[j].createdAt
    ensures forall i :: 0 <= i < |r| ==> r[i].id in db.items && r[i] == View(db.items[r[i].id], encode)
    ensures forall k :: k in db.items ==> View(db.items[k], encode) in r
    ensures forall i, j :: 0 <= i < j < |r| ==> r[i].id != r[j].id
  {
    var rows := ItemRows(db);
    var r := Views(rows, encode);
    ViewsOrdered(rows, r, encode);
    ViewsComplete(db.items, rows, r, encode);
    ViewsFromStore(db.items, rows, r, encode);
    r
  }

  /** Viewing rows keeps their `createdAt` order and their distinct ids. */
  lemma ViewsOrdered(rows: seq<Item>, r: seq<ItemView>, encode: Bytes -> string)
    requires Sorting.SortedDesc(rows, (it: Item) => it.createdAt)
    requires forall i, j :: 0 <= i < j < |rows| ==> rows[i].id != rows[j].id
    requires r == Views(rows, encode)
    ensures forall i, j :: 0 <= i < j < |r| ==> r[i].createdAt >= r[j].createdAt && r[i].id != r[j].id
  {
    forall i, j | 0 <= i < j < |r| ensures r[i].createdAt >= r[j].createdAt && r[i].id != r[j].id {
      assert ((it: Item) => it.createdAt)(rows[i]) >= ((it: Item) => it.createdAt)(rows[j]);
    }
  }

  /** Every viewed row shows a stored row. */
  lemma ViewsFromStore(items: map<int, Item>, rows: seq<Item>, r: seq<ItemView>, encode: Bytes -> string)
    requires forall i :: 0 <= i < |rows| ==> rows[i].id in items && items[rows[i].id] == rows[i]
    requires r == Views(rows, encode)
    ensures forall i :: 0 <= i < |r| ==> r[i].id in items && r[i] == View(items[r[i].id], encode)
  {
  }

  /** Every row that is listed is viewed. */
  lemma ViewsComplete(items: map<int, Item>, rows: seq<Item>, r: seq<ItemView>, encode: Bytes -> string)
    requires forall k :: k in items ==> items[k] in rows
    requires r == Views(rows, encode)
    ensures forall k :: k in items ==> View(items[k], encode) in r
  {
    forall k | k in items ensures View(items[k], encode) in r {
      var i :| 0 <= i < |rows| && rows[i] == items[k];
      assert r[i] == View(items[k], encode);
    }
  }

  /** `rows.map(View)`. */
  function Views(rows: seq<Item>, encode: Bytes -> string): (r: seq<ItemView>)
    ensures |r| == |rows|
    ensures forall i :: 0 <= i < |r| ==> r[i] == View(rows[i], encode)
  {
    if |rows| == 0 then [] else [View(rows[0], encode)] + Views(rows[1..], encode)
  }

  /** A listed picture is present exactly when one is stored, and is always labelled PNG. */
  lemma ListedImagesArePng(db: Db, encode: Bytes -> string, i: int)
    requires Valid(db) && 0 <= i < |ListItems(db, encode)|
    ensures var v := ListItems(db, encode)[i];
            && (v.image.Some? <==> db.items[v.id].image.Some?)
            && (v.image.Some? ==> StartsWith(v.image.value, ListedImagePrefix))
  {
    var v := ListItems(db, encode)[i];
    if v.image.Some? {
      assert v.image.value[..|ListedImagePrefix|] == ListedImagePrefix;
    }
  }

  /** The JSON body of `POST /api/items`; a field that is absent or `null` is `None`. */
  datatype ItemPost = ItemPost(name: Option<string>, color: Option<string>, image: Option<string>)

  /** `s.split(",")[1]`: the text between the first and the second comma, if there is a first comma. */
  function SecondSegment(s: string): (r: Option<string>)
    ensures r.Some? <==> ',' in s
    ensures r.Some? ==> ',' !in r.value && exists i :: SegmentAfterFirstComma(s, i, r.value)
  {
    var parts := Split(s, ',');
    NoCommaOnePiece(s);
    if |parts| >= 2 then
      SecondSegmentFound(s);
      Some(parts[1])
    else
      None
  }

  /** `s[i]` is the first comma of `s`, and `seg` runs from just after it up to the next comma or
      the end of `s`. */
  ghost predicate SegmentAfterFirstComma(s: string, i: int, seg: string) {
    && 0 <= i && i + 1 + |seg| <= |s|
    && s[i] == ',' && ',' !in s[..i]
    && s[i + 1..i + 1 + |seg|] == seg
    && (i + 1 + |seg| == |s| || s[i + 1 + |seg|] == ',')
  }

  /** The second piece of a split sits right after the first comma and ends at the next one. */
  lemma SecondSegmentFound(s: string)
    requires |Split(s, ',')| >= 2
    ensures SegmentAfterFirstComma(s, |Split(s, ',')[0]|, Split(s, ',')[1])
  {
    var parts := Split(s, ',');
    JoinSplit(s, ',');
    var tail := Join(parts[1..], ',');
    assert s == parts[0] + [','] + tail;
    var rest := if |parts| == 2 then "" else [','] + Join(parts[2..], ',');
    assert tail == parts[1] + rest by {
      if |parts| > 2 {
        assert parts[1..][1..] == parts[2..];
      }
    }
    var i := |parts[0]|;
    assert s[..i] == parts[0];
    assert s[i + 1..i + 1 + |parts[1]|] == parts[1];
    if |parts| > 2 {
      assert s[i + 1 + |parts[1]|] == ',';
    }
  }

  /** A string without the separator splits into itself alone; one with it, into more pieces. */
  lemma NoCommaOnePiece(s: string)
    ensures |Split(s, ',')| == 1 <==> ',' !in s
  {
    JoinSplit(s, ',');
    var parts := Split(s, ',');
    if |parts| == 1 {
      assert s == parts[0];
    } else {
      assert s == parts[0] + [','] + Join(parts[1..], ',');
      assert s[|parts[0]|] == ',';
    }
  }

  /** A data URL `<header>,<payload>` hands back exactly its payload. */
  lemma {:induction false} SecondSegmentOfDataUrl(header: string, payload: string)
    requires ',' !in header && ',' !in payload
    ensures SecondSegment(header + "," + payload) == Some(payload)
  {
    SplitJoin([header, payload], ',');
    assert Join([header, payload], ',') == header + "," + payload by {
      assert Join([header, payload][1..], ',') == payload;
    }
  }

  /** The picture the handler stores: `None` unless the string is a `data:image` URL; the decoded
      payload otherwise; `Err` when there is no comma, where `Buffer.from(undefined)` throws. */
  function ImageToStore(image: Option<string>, decode: string -> Bytes): (r: Result<Option<Bytes>, string>)
    ensures r == Ok(None) <==> !(Truthy(image) && StartsWith(image.value, ImageMarker))
    ensures r.Err? <==> Truthy(image) && StartsWith(image.value, ImageMarker) && ',' !in image.value
    ensures r.Ok? && r.value.Some? ==>
              SecondSegment(image.value).Some? && r.value.value == decode(SecondSegment(image.value).value)
  {
    if Truthy(image) && StartsWith(image.value, ImageMarker) then
      match SecondSegment(image.value)
      case Some(payload) => Ok(Some(decode(payload)))
      case None => Err("The first argument must be of type string")
    else
      Ok(None)
  }

  /** `POST /api/items`. A missing or blank name is refused with 400 and nothing is written; otherwise
      one row is inserted, named by the trimmed name, coloured by the given colour or the default,
      holding the decoded picture, active, stamped `now`. A throwing decode or insert gives 500 and
      writes nothing. */
  function CreateItem(db: Db, post: ItemPost, now: int, decode: string -> Bytes, insertFails: bool): (r: (Db, Reply<Item>))
    requires Valid(db)
    ensures Valid(r.0)
    ensures NameMissing(post.name) ==> r.1.Status() == 400 && r.0 == db
    ensures !NameMissing(post.name) && ImageToStore(post.image, decode).Ok? && !insertFails ==> r.1.Status() == 201
    ensures !NameMissing(post.name) && (ImageToStore(post.image, decode).Err? || insertFails) ==> r.1.Status() == 500 && r.0 == db
    ensures r.1.Created? ==>
              var it := r.1.body;
              && it.id !in db.items && it.name == Trim(post.name.value) && IsTrimmed(it.name) && it.name != ""
              && it.color == (if Truthy(post.color) then post.color.value else DefaultColor)
              && it.image == ImageToStore(post.image, decode).value
              && it.isActive && it.createdAt == now
              && r.0 == db.(items := db.items[it.id := it], nextItem := db.nextItem + 1)
  {
    if NameMissing(post.name) then
      (db, BadRequest("Item name is required"))
    else
      match ImageToStore(post.image, decode)
      case Err(_) => (db, ServerError("Failed to create item"))
      case Ok(image) =>
        if insertFails then
          (db, ServerError("Failed to create item"))
        else
          var it := Item(db.nextItem, Trim(post.name.value),
                         if Truthy(post.color) then post.color.value else DefaultColor,
                         image, true, now);
          InsertItemValid(db, it);
          (db.(items := db.items[it.id := it], nextItem := db.nextItem + 1), Created(it))
  }

  /** A picture uploaded as `data:image/<type>;base64,<payload>` is listed back as a PNG data URL
      whose payload is the re-encoding of the decoded bytes: the payload itself whenever encoding
      inverts decoding on it, but the declared type is always replaced by `image/png`. */
  lemma {:induction false} UploadThenList(db: Db, name: string, header: string, payload: string,
                                          now: int, decode: string -> Bytes, encode: Bytes -> string)
    requires Valid(db)
    requires Trim(name) != ""
    requires StartsWith(header, ImageMarker) && ',' !in header && ',' !in payload
    requires encode(decode(payload)) == payload
    ensures var (db', reply) := CreateItem(db, ItemPost(Some(name), None, Some(header + "," + payload)), now, decode, false);
            reply.Created? && View(db'.items[reply.body.id], encode).image == Some(ListedImagePrefix + payload)
  {
    var url := header + "," + payload;
    assert url[..|header|] == header;
    assert StartsWith(url, ImageMarker) by {
      assert url[..|ImageMarker|] == header[..|ImageMarker|];
    }
    SecondSegmentOfDataUrl(header, payload);
    assert ImageToStore(Some(url), decode) == Ok(Some(decode(payload)));
    assert !NameMissing(Some(name));
  }
}
