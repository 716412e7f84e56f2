/**
 * The prize management page: the create/edit dialog with its picture picker and random colour
 * button, the submit that sends the dialog to the API, and the active toggle.
 */
module ItemsPage {
  import opened Wrappers
  import opened Text
  import opened Records
  import opened Requests
  import opened Chance
  import ItemsRoute
  import ItemsMemberRoute

  /** A picked file as the browser describes it: its MIME type and its size in bytes. */
  datatype FileInfo = FileInfo(mimeType: string, size: nat)

  /** The dialog's fields; `image` is a data URL, `file` the picked file it came from. */
  datatype Form = Form(name: string, color: string, image: Option<string>, file: Option<FileInfo>)

  /** The error alerts the dialog can raise. */
  datatype Notice = WrongType | TooLarge | EnterName

  /** The picture types the picker accepts. */
  const ValidTypes: seq<string> := ["image/png", "image/jpeg", "image/jpg", "image/gif"]

  /** The largest picture accepted, in bytes (5 MB). */
  const MaxImageBytes: nat := 5 * 1024 * 1024

  /** The 25 bright colours the random colour button draws from. */
  const Palette: seq<string> := [
    "#FF6B6B", "#4ECDC4", "#45B7D1", "#96CEB4", "#FFEAA7",
    "#DDA0DD", "#98D8C8", "#F7DC6F", "#BB8FCE", "#85C1E9",
    "#F8B500", "#00CED1", "#FF69B4", "#FFD700", "#32CD32",
    "#FF8C00", "#9370DB", "#20B2AA", "#FF1493", "#00BFFF",
    "#FF4500", "#DA70D6", "#48D1CC", "#FF6347", "#7B68EE"
  ]

  /** The empty dialog: no name, the default blue, no picture. */
  const DefaultForm: Form := Form("", ItemsRoute.DefaultColor, None, None)

  /** `handleOpenDialog`: editing an item copies its name, colour and listed picture into the
      dialog; creating starts from the empty dialog. Returns the item being edited and the form. */
  function OpenDialog(item: Option<ItemsRoute.ItemView>): (r: (Option<ItemsRoute.ItemView>, Form))
    ensures r.0 == item
    ensures item.None? ==> r.1 == DefaultForm
    ensures item.Some? ==> r.1.name == item.value.name && r.1.color == item.value.color
                           && r.1.image == item.value.image && r.1.file.None?
  {
    match item
    case None => (None, DefaultForm)
    case Some(it) => (item, Form(it.name, it.color, it.image, None))
  }

  /** `handleImageChange` with the picked file, if any, and the data URL the file reader
      produces for it. No file leaves the form alone silently; a type outside the accepted list
      or a size above 5 MB leaves it alone with an alert; otherwise the picture is replaced. */
  function PickImage(form: Form, file: Option<FileInfo>, dataUrl: string): (r: (Form, Option<Notice>))
    ensures file.None? ==> r == (form, None)
    ensures file.Some? && file.value.mimeType !in ValidTypes ==> r == (form, Some(WrongType))
    ensures file.Some? && file.value.mimeType in ValidTypes && file.value.size > MaxImageBytes ==> r == (form, Some(TooLarge))
    ensures r.1.None? && file.Some? ==>
              r.0 == form.(image := Some(dataUrl), file := file)
              && file.value.mimeType in ValidTypes && file.value.size <= MaxImageBytes
  {
    match file
    case None => (form, None)
    case Some(f) =>
      if f.mimeType !in ValidTypes then (form, Some(WrongType))
      else if f.size > MaxImageBytes then (form, Some(TooLarge))
      else (form.(image := Some(dataUrl), file := file), None)
  }

  /** `handleRemoveImage`: drops the picture and keeps every other field. */
  function RemoveImage(form: Form): (r: Form)
    ensures r.image.None? && r.file.None?
    ensures r.name == form.name && r.color == form.color
  {
    form.(image := None, file := None)
  }

  /** `handleRandomColor`: `colors[Math.floor(Math.random() * colors.length)]` replaces the colour. */
  function RandomColor(form: Form, u: Random): (r: Form)
    requires u.Valid()
    ensures r.color in Palette
    ensures r == form.(color := r.color)
  {
    form.(color := Palette[ScaledIndex(u, |Palette|)])
  }

  /** Every colour of the palette can come up. */
  lemma EveryPaletteColorReachable(form: Form, i: nat)
    requires i < |Palette|
    ensures Random(i, |Palette|).Valid() && RandomColor(form, Random(i, |Palette|)).color == Palette[i]
  {
    EveryIndexReachable(|Palette|, i);
  }

  /** `formData.image || null`: an empty picture string is sent as `null`. */
  function SentImage(image: Option<string>): (r: Option<string>)
    ensures r.Some? <==> image.Some? && image.value != ""
    ensures r.Some? ==> r == image
  {
    if image.Some? && image.value != "" then image else None
  }

  /** `handleSubmit`: a name that is blank after trimming raises an alert and sends nothing;
      otherwise the trimmed name, the colour as chosen and the picture (empty as `null`) are sent,
      by PUT to the edited item or by POST to the collection. */
  function Submit(form: Form, editing: Option<ItemsRoute.ItemView>): (r: Result<Request, Notice>)
    ensures r.Err? <==> AllSpace(form.name)
    ensures r.Err? ==> r.error == EnterName
    ensures r.Ok? ==> r.value.body == ItemBody(Trim(form.name), form.color, SentImage(form.image))
    ensures r.Ok? && editing.Some? ==> r.value.verb == Put && r.value.endpoint == Member(Items, editing.value.id)
    ensures r.Ok? && editing.None? ==> r.value.verb == Post && r.value.endpoint == Collection(Items)
  {
    TrimEmptyIff(form.name);
    var body := ItemBody(Trim(form.name), form.color, SentImage(form.image));
    if Trim(form.name) == "" then
      Err(EnterName)
    else if editing.Some? then
      Ok(Request(Put, Member(Items, editing.value.id), body))
    else
      Ok(Request(Post, Collection(Items), body))
  }

  /** `handleCloseDialog` (also run after a successful save): back to the empty dialog. */
  function CloseDialog(): (r: (Option<ItemsRoute.ItemView>, Form))
    ensures r.0.None? && r.1.name == "" && r.1.image.None? && r.1.file.None? && r.1.color == ItemsRoute.DefaultColor
  {
    (None, DefaultForm)
  }

  /** `handleToggleActive`: a PUT to the item carrying only the negated flag. */
  function Toggle(item: ItemsRoute.ItemView): (r: Request)
    ensures r.verb == Put && r.endpoint == Member(Items, item.id)
    ensures r.body.ActiveBody? && r.body.isActive != item.isActive
  {
    Request(Put, Member(Items, item.id), ActiveBody(!item.isActive))
  }

  /** The item the create handler stores for a body the dialog sends. */
  function Posted(body: Body): ItemsRoute.ItemPost
    requires body.ItemBody?
  {
    ItemsRoute.ItemPost(Some(body.name), Some(body.color), body.image)
  }

  /** A dialog the page lets through is never refused by the create handler for its name: the
      row is created unless the picture is a `data:image` string without a comma, and then holds
      exactly the trimmed name and the chosen colour (the default blue when none was chosen). */
  lemma SubmittedItemAccepted(db: Db, form: Form, now: int, decode: string -> Bytes)
    requires Valid(db) && Submit(form, None).Ok?
    ensures var post := Posted(Submit(form, None).value.body);
            var (db', reply) := ItemsRoute.CreateItem(db, post, now, decode, false);
            && (reply.Created? <==> ItemsRoute.ImageToStore(post.image, decode).Ok?)
            && (reply.Created? ==> reply.body.name == Trim(form.name)
                                   && reply.body.color == (if form.color != "" then form.color else ItemsRoute.DefaultColor))
  {
    var body := Submit(form, None).value.body;
    var post := Posted(body);
    assert post.name == Some(Trim(form.name)) && post.color == Some(form.color);
    TrimIdempotent(form.name);
    TrimEmptyIff(form.name);
    assert !NameMissing(post.name);
    var r := ItemsRoute.CreateItem(db, post, now, decode, false);
    assert r.1.Created? <==> ItemsRoute.ImageToStore(post.image, decode).Ok?;
  }

  /** A picture picked in the dialog reaches the store decoded: the file reader's data URL
      `data:image/...;base64,<payload>` is sent as is and the handler keeps `decode(payload)`. */
  lemma PickedPictureStored(form: Form, file: FileInfo, header: string, payload: string, decode: string -> Bytes)
    requires StartsWith(header, ItemsRoute.ImageMarker) && ',' !in header && ',' !in payload
    requires PickImage(form, Some(file), header + "," + payload).1.None?
    ensures var picked := PickImage(form, Some(file), header + "," + payload).0;
            ItemsRoute.ImageToStore(SentImage(picked.image), decode) == Ok(Some(decode(payload)))
  {
    var url := header + "," + payload;
    assert url[..|header|] == header;
    assert StartsWith(url, ItemsRoute.ImageMarker);
    ItemsRoute.SecondSegmentOfDataUrl(header, payload);
  }

  /** Closing the dialog resets it to what opening it for a new prize shows, so a closed dialog
      cannot be saved. */
  lemma ClosedDialogRefused()
    ensures CloseDialog() == OpenDialog(None)
    ensures var (editing, form) := CloseDialog();
            Submit(form, editing) == Err(EnterName)
  {
  }

  /** A picture removed in the edit dialog is cleared in the store: the dialog sends `null`, and
      the update handler writes the row without a picture, with the trimmed name and the chosen
      colour, its flag untouched. */
  lemma RemovedPictureCleared(db: Db, editing: ItemsRoute.ItemView, form: Form, decode: string -> Bytes)
    requires Valid(db) && editing.id in db.items && !AllSpace(form.name)
    ensures var req := Submit(RemoveImage(form), Some(editing));
            && req.Ok? && req.value.body.image == None
            && var (db1, reply) := ItemsMemberRoute.UpdateItem(db, editing.id, Some(req.value.body.name), Some(req.value.body.color),
                                                         Some(req.value.body.image), None, decode);
               && reply.Success? && reply.body.image == None
               && reply.body.name == Trim(form.name) && reply.body.color == form.color
               && reply.body.isActive == db.items[editing.id].isActive
  {
    var cleared := RemoveImage(form);
    assert cleared.name == form.name && cleared.color == form.color && cleared.image == None;
    var req := Submit(cleared, Some(editing));
    assert req.Ok? && req.value.body == ItemBody(Trim(form.name), form.color, None);
    PictureClearedByUpdate(db, editing.id, Trim(form.name), form.color, decode);
    TrimIdempotent(form.name);
  }

  /** An update carrying `image: null` clears the stored picture and keeps the flag. */
  lemma PictureClearedByUpdate(db: Db, id: int, name: string, color: string, decode: string -> Bytes)
    requires Valid(db) && id in db.items
    ensures var (db1, reply) := ItemsMemberRoute.UpdateItem(db, id, Some(name), Some(color), Some(None), None, decode);
            && reply.Success? && reply.body.image == None
            && reply.body.name == Trim(name) && reply.body.color == color
            && reply.body.isActive == db.items[id].isActive
  {
    assert ItemsMemberRoute.ImageUpdate(Some(None), decode) == Ok(Some(None));
  }

  /** A picture removed in the create dialog is not stored: the new row holds no picture. */
  lemma RemovedPictureNotCreated(db: Db, form: Form, now: int, decode: string -> Bytes)
    requires Valid(db) && !AllSpace(form.name)
    ensures var req := Submit(RemoveImage(form), None);
            && req.Ok?
            && var (db1, reply) := ItemsRoute.CreateItem(db, Posted(req.value.body), now, decode, false);
               reply.Created? && reply.body.image == None
  {
    var body := Submit(RemoveImage(form), None).value.body;
    assert body == ItemBody(Trim(form.name), form.color, None);
    TrimIdempotent(form.name);
    TrimEmptyIff(form.name);
    CreatedWithoutPicture(db, Trim(form.name), form.color, now, decode);
  }

  /** A create request naming a prize and carrying `image: null` stores a row without a picture. */
  lemma CreatedWithoutPicture(db: Db, name: string, color: string, now: int, decode: string -> Bytes)
    requires Valid(db) && !NameMissing(Some(name))
    ensures var (db1, reply) := ItemsRoute.CreateItem(db, ItemsRoute.ItemPost(Some(name), Some(color), None), now, decode, false);
            reply.Created? && reply.body.image == None
  {
    assert ItemsRoute.ImageToStore(None, decode) == Ok(None);
  }

  /** Saving an opened edit dialog unchanged leaves the store as it was, as long as the stored name
      is trimmed and non-empty and the listed picture's payload decodes back to the stored bytes:
      the listing's data URL is sent back and decoded to the same picture. */
  lemma ReopenedItemUnchanged(db: Db, k: int, encode: Bytes -> string, decode: string -> Bytes)
    requires k in db.items && db.items[k].id == k
    requires db.items[k].name != "" && IsTrimmed(db.items[k].name)
    requires db.items[k].image.Some? ==>
               ',' !in encode(db.items[k].image.value) && decode(encode(db.items[k].image.value)) == db.items[k].image.value
    ensures var (editing, form) := OpenDialog(Some(ItemsRoute.View(db.items[k], encode)));
            var req := Submit(form, editing);
            && req.Ok? && req.value.verb == Put && req.value.endpoint == Member(Items, k)
            && ItemsMemberRoute.UpdateItem(db, k, Some(req.value.body.name), Some(req.value.body.color),
                                     Some(req.value.body.image), None, decode) == (db, Success(db.items[k]))
  {
    var it := db.items[k];
    var view := ItemsRoute.View(it, encode);
    assert view.id == k && view.name == it.name && view.color == it.color;
    ReopenedItemResent(view);
    var (editing, form) := OpenDialog(Some(view));
    var body := ItemBody(it.name, it.color, SentImage(view.image));
    assert Submit(form, editing) == Ok(Request(Put, Member(Items, k), body));
    ListedPictureDecodes(it, encode, decode);
    ItemsMemberRoute.StoredRowRewritten(db, k, body.image, decode);
  }

  /** Saving an opened edit dialog unchanged sends the prize's own name, colour and picture. */
  lemma ReopenedItemResent(view: ItemsRoute.ItemView)
    requires view.name != "" && IsTrimmed(view.name)
    ensures var (editing, form) := OpenDialog(Some(view));
            Submit(form, editing) == Ok(Request(Put, Member(Items, view.id), ItemBody(view.name, view.color, SentImage(view.image))))
  {
    TrimmedNotBlank(view.name);
    TrimOfTrimmed(view.name);
  }

  /** The picture a listed prize's dialog sends back is written as the stored picture again. */
  lemma ListedPictureDecodes(it: Item, encode: Bytes -> string, decode: string -> Bytes)
    requires it.image.Some? ==> ',' !in encode(it.image.value) && decode(encode(it.image.value)) == it.image.value
    ensures ItemsMemberRoute.ImageUpdate(Some(SentImage(ItemsRoute.View(it, encode).image)), decode) == Ok(Some(it.image))
  {
    if it.image.Some? {
      var payload := encode(it.image.value);
      var header := "data:image/png;base64";
      assert ItemsRoute.ListedImagePrefix + payload == header + "," + payload;
      assert StartsWith(header + "," + payload, ItemsRoute.ImageMarker);
      ItemsRoute.SecondSegmentOfDataUrl(header, payload);
    }
  }

  /** The toggle flips the stored flag: the update handler, given the toggle's body, writes the
      prize's row with the flag negated and nothing else changed, and toggling again restores the
      store. */
  lemma ToggleFlipsStoredFlag(db: Db, k: int, encode: Bytes -> string, decode: string -> Bytes)
    requires Valid(db) && k in db.items
    ensures var it := db.items[k];
            var req := Toggle(ItemsRoute.View(it, encode));
            var (db1, reply) := ItemsMemberRoute.UpdateItem(db, req.endpoint.id, None, None, None, Some(req.body.isActive), decode);
            && reply.Success? && reply.body == it.(isActive := !it.isActive)
            && db1 == db.(items := db.items[k := reply.body])
            && ItemsMemberRoute.UpdateItem(db1, k, None, None, None,
                                     Some(Toggle(ItemsRoute.View(reply.body, encode)).body.isActive), decode).0 == db
  {
    var it := db.items[k];
    var (db1, reply) := ItemsMemberRoute.UpdateItem(db, k, None, None, None, Some(!it.isActive), decode);
    assert db1.items[k := it] == db.items;
  }
}
