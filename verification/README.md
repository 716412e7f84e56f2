# Prize-draw app: a Dafny model

This project models the core of a small prize-draw web application. The application keeps
three tables:

- **prizes**, called items, each with a name, a colour, an optional picture and an active flag;
- **participants**, each with a name and an active flag;
- **history**, one row per draw linking a prize to its winner.

Three HTTP handlers list and create rows. The history handler commits a draw in one database
transaction: it creates the history row and retires both the prize and the winner.

Two pages run the draw as a state machine:

- the home page has one wheel that switches between prizes and participants;
- the spin page has two wheels that spin one after the other.

Each wheel is a widget that spins towards a random target and reports the index it settled on.

The management pages do the rest of the work:

- validate forms and build request bodies;
- parse a bulk list of participant names;
- filter the history by a search term;
- export the history as CSV.

The model is functional throughout:

- the store is a value `Records.Db` of three maps keyed by id;
- each handler returns the new store with its reply;
- each page handler maps page state and its inputs to the next state and the request it would send.

Everything the application takes from outside becomes a parameter:

- **randomness**: `Math.random()` is a fraction `Chance.Random(num, den)` with `num < den`;
- **the wheel widget**: the settle index, an index into the current pool;
- **the clock**: `now`;
- **base64 coding**: the encode and decode functions;
- **date formatting**: `fmt`;
- **browser dialogs**: the user's choice in an alert;
- **database writes**: a `Fault` value saying which write, if any, the database refuses.

Modules follow the source files:

| module | file | models |
|---|---|---|
| `Records`, `Requests` | — | the store, replies and request bodies shared by the rest |
| `HistoryRoute` | `src/app/api/history/route.ts` | the draw commit and the joined listing |
| `ItemsRoute` | `src/app/api/items/route.ts` | prize creation and the listing with data-URL pictures |
| `ItemsMemberRoute` | `src/app/api/items/[id]/route.ts` | updating one prize: name, colour, picture, active flag |
| `ParticipantsRoute` | `src/app/api/participants/route.ts` | participant creation and listing |
| `ParticipantsMemberRoute` | `src/app/api/participants/[id]/route.ts` | updating one participant: name, active flag |
| `HomePage` | `src/app/page.tsx` | the single-wheel state machine |
| `DualSpinPage` | `src/app/spin/page.tsx` | the two-wheel state machine |
| `DrawSession` | — | a home-page draw served by the history handler, and the reload that follows it |
| `ParticipantsPage` | `src/app/participants/page.tsx` | bulk parsing, submit and toggle |
| `ItemsPage` | `src/app/items/page.tsx` | picture checks, the form, submit and toggle |
| `HistoryPage` | `src/app/history/page.tsx` | search and CSV export |
| `SpinWheel` | `src/components/SpinWheel.tsx` | segment colours, the spin guard, revolutions and the settle callback |

The shared helpers are:

- `Text`:
  - JavaScript `trim`, with ECMAScript's white-space and line-terminator set;
  - `split` and `join` on one character;
  - `includes`;
  - lower-casing;
  - decimal rendering.
- `Seqs`: filtering and subsequences.
- `Sorting`: a descending insertion sort used for `orderBy: desc`.
- `Chance`: `Math.floor(Math.random() * n)`.

The database schema file is not part of this model. The model assumes what the handlers rely on:

- ids come from an autoincrement counter;
- `createdAt` and `wonAt` default to the current time;
- `isActive` defaults to true.

`Records.Valid` states the store invariant:

- every key is its row's id;
- every key is below its counter;
- every history row references an existing prize and participant.

Every handler keeps this invariant.

Some behaviour of the code is easy to miss; the model follows it:

- **Settle index.** The pages use the index the wheel reports and never check that it equals the
  target they chose. The model takes the settle index as its own input, and no contract relates
  it to the target.
- **Reload after a draw.** The winner alert has no cancel button and ignores outside clicks and
  the escape key. Its confirm button reloads the page (`src/lib/swal.ts` lines 80-84). So after
  every posted pairing, both draw pages load their pools from the store again, and the retired
  prize and winner are gone from them. Each spin-end handler returns a flag saying whether it
  reloads. `DrawSession.DrawAndReload` follows a home-page draw with that fresh load.
- **Staged prize reset.** The home page goes on to the winner alert, and so to the reload,
  whether or not the history POST succeeded.
- **Stale flag.** The history handler never checks `isActive`. A request naming an already
  retired prize or participant is committed again. The draw pages cannot send one, because they
  reload first. A second page opened before the commit, or a direct call to the API, can.
- **Dual-wheel commit.** The spin page posts when the participant wheel stops, provided a prize is
  selected. The two spins are strictly sequential: the participant wheel starts only once the
  prize wheel has stopped and its alert is closed.

## Model

| member | source | states |
|---|---|---|
| HistoryRoute.PostHistory | src/app/api/history/route.ts:25-77 | A falsy `itemId` or `participantId` (absent or 0) gives 400 with the store unchanged. A draw is committed (201) exactly when both ids are truthy, both rows exist and no write fails. With both ids truthy, any other outcome is 500 and leaves the store unchanged. On 201 the store differs from the old one by exactly one new history row carrying the two ids and `wonAt = now`, and the prize and participant are inactive; nothing else changes. The store invariant is kept. |
| HistoryRoute.CreateEntry | src/app/api/history/route.ts:43-52 | Creating the history row succeeds iff no fault hits it and both referenced rows exist. The new row takes the next entry id, the two ids and `wonAt = now`, and is returned with the stored prize and participant. Only the history table and its counter change. |
| HistoryRoute.DeactivateItem | src/app/api/history/route.ts:55-58 | Retiring the prize succeeds iff no fault hits it and the prize exists. The prize row then has `isActive` false and every other field as before. No other row or table changes. |
| HistoryRoute.DeactivateParticipant | src/app/api/history/route.ts:61-64 | Retiring the participant succeeds iff no fault hits it and the participant exists. The participant row then has `isActive` false and every other field as before. No other row or table changes. |
| HistoryRoute.CommitValid | src/app/api/history/route.ts:41-67 | A store that differs from a valid one by exactly the three writes of a draw is valid again. |
| HistoryRoute.CommitRetiresBoth | src/app/api/history/route.ts:55-64 | After a successful commit, both the won prize and the winner are inactive, and the history has exactly one more row. |
| HistoryRoute.RetiredRowsCommitAgain | src/app/api/history/route.ts:41-67 | After one commit, the same request is committed again, although its prize and participant are now inactive. Two different history rows then hold the same prize. |
| HistoryRoute.ListHistory | src/app/api/history/route.ts:5-14 | The listing is sorted by `wonAt`, newest first. It holds every history row exactly once, each joined with its own prize and participant, and nothing else. |
| HistoryRoute.EntryRows | src/app/api/history/route.ts:7-13 | The history rows are ordered by `wonAt` descending, with no repeats, and every row is present and comes from the store. |
| HistoryRoute.JoinedListing | src/app/api/history/route.ts:8-11 | Joining each row with its prize and participant keeps the order and the completeness of the rows. |
| ItemsRoute.CreateItem | src/app/api/items/route.ts:30-65 | A missing or blank name gives 400 with the store unchanged. Otherwise 201 creates one prize with a fresh id. Its name is the trimmed input, its colour is the given one if truthy and `#3498db` if not, and its picture is the stored bytes. It is active and created now, and the store is otherwise unchanged. A malformed data URL or a failed insert gives 500 with the store unchanged. |
| ItemsRoute.ImageToStore | src/app/api/items/route.ts:43-47 | No picture is stored iff the image is falsy or does not start with `data:image`. Such an image with no comma fails, because the payload segment is undefined. A stored picture is `decode` applied to the text after the first comma. |
| ItemsRoute.SecondSegment | src/app/api/items/route.ts:45 | `split(",")[1]` exists iff the string has a comma. It is then the text between the first comma and the next comma or the end of the string, and holds no comma. |
| ItemsRoute.SecondSegmentOfDataUrl | src/app/api/items/route.ts:44-46 | For `header,payload` with no comma in either part, the extracted segment is exactly the payload. |
| ItemsRoute.NoCommaOnePiece | src/app/api/items/route.ts:45 | Splitting on `,` gives a single piece iff the string has no comma. |
| ItemsRoute.ListItems | src/app/api/items/route.ts:5-19 | The listing is ordered by `createdAt`, newest first, with no repeated id. It holds every stored prize, and each entry is its stored row with the picture re-encoded. |
| ItemsRoute.ItemRows | src/app/api/items/route.ts:7-9 | The stored prizes are ordered by `createdAt` descending, each exactly once. |
| ItemsRoute.ListedImagesArePng | src/app/api/items/route.ts:14-16 | A listed prize has a picture iff its stored row does. Every listed picture is labelled `data:image/png;base64,`, whatever type was uploaded. |
| ItemsRoute.UploadThenList | src/app/api/items/route.ts:43-57 | A prize uploaded with a `data:image…,payload` URL is created. If the coding pair round-trips, it is listed with the PNG header followed by the same payload. |
| ParticipantsRoute.CreateParticipant | src/app/api/participants/route.ts:21-47 | A missing or blank name gives 400 with the store unchanged. Otherwise 201 creates one active participant with a fresh id, the trimmed name and `createdAt = now`. A failed insert gives 500 with the store unchanged. |
| ParticipantsRoute.ListParticipants | src/app/api/participants/route.ts:5-10 | Participants are listed newest first, with no repeats; every stored participant appears, and only stored ones do. |
| Sorting.SortDesc | src/app/api/participants/route.ts:7-9 | `orderBy: desc` gives a sorted permutation of its input. |
| Sorting.ListDesc | src/app/api/items/route.ts:7-9 | A table listed in descending key order has no repeats, exactly the table's rows, and is sorted. |
| HomePage.Loaded | src/app/page.tsx:42-61 | The fetched lists are filtered to active records, keeping their order. Every active fetched record is kept, nothing else in the page changes, and both pools end up active-only. |
| HomePage.WheelItems | src/app/page.tsx:67-73 | The wheel shows one segment per record of the current pool, labelled with its name. A prize segment carries the prize's colour. A participant segment carries no colour, so the wheel's palette applies. No segment sets a label colour. |
| HomePage.HandleSpin | src/app/page.tsx:75-90 | An empty current pool raises the alert for its mode and changes nothing. Otherwise spinning starts towards a target in `[0, n)` for a pool of `n` records, and nothing else changes. |
| HomePage.HandleSpinEnd | src/app/page.tsx:92-139 | Every spin end is idle: not spinning, target -1, pools unchanged. On the prize wheel, `items[idx]` is staged and the mode moves to participants only if the alert is confirmed; no request is sent and the page does not reload. On the participant wheel with a staged prize, the history POST for the prize and `participants[idx]` is sent and the page reloads, which happens exactly when a POST is sent. With no staged prize, nothing is sent and nothing else changes. |
| HomePage.Restart | src/app/page.tsx:231-237 | Restart returns to the prize wheel with nothing staged and changes nothing else. |
| HomePage.HandlersKeepConsistent | src/app/page.tsx:76-139 | Each handler keeps the page consistent: spinning iff a target is set, the target inside the pool, a staged prize from the pool. Each handler also keeps both pools active-only. Restart keeps consistency when pressed while idle. |
| HomePage.RestartMidSpinKeepsStaleTarget | src/app/page.tsx:234-237 | Restart pressed mid-spin leaves the spin target pointing past the end of the prize pool it switches to. |
| HomePage.DrawProtocol | src/app/page.tsx:76-139 | Spin, confirmed prize, spin, winner sends exactly one POST, for `items[i]` and `participants[j]`. The prize stop neither posts nor reloads; the winner stop reloads the page. |
| HomePage.DeclinedAlertStaysOnPrizes | src/app/page.tsx:97-107 | If the prize alert were declined, the page would stay on the prize wheel, and the next spin would restage a prize and send nothing. The alert offers no way to decline (src/lib/swal.ts:21-38), so the page never takes this branch. |
| DualSpinPage.HandleStartSpin | src/app/spin/page.tsx:84-102 | An empty prize pool, then an empty participant pool, is refused with its alert and no change. Otherwise both selections are cleared and the prize wheel spins towards a target in `[0, n)` for `n` prizes. |
| DualSpinPage.HandleItemSpinEnd | src/app/spin/page.tsx:104-121 | The prize wheel stops and `items[idx]` is selected. The participant wheel starts towards a target in `[0, m)` for `m` participants, and nothing else changes. |
| DualSpinPage.HandleParticipantSpinEnd | src/app/spin/page.tsx:123-149 | The participant wheel stops and `participants[idx]` is selected. A POST is sent iff a prize is selected, and it carries the selected prize and that participant. The page reloads exactly when a prize is selected. |
| DualSpinPage.Loaded | src/app/spin/page.tsx:49-67 | The fetched lists are filtered to active records, keeping their order. Every active fetched record is kept, and nothing else in the page changes. |
| DualSpinPage.CanSpinMatchesStart | src/app/spin/page.tsx:151-152 | The start button is enabled iff neither wheel is spinning and the start handler raises no alert. |
| DualSpinPage.LoadedCanSpin | src/app/spin/page.tsx:151-152 | After a load, with neither wheel spinning, the start button is enabled iff both fetched lists hold an active record. |
| DualSpinPage.DrawProtocol | src/app/spin/page.tsx:84-149 | Start, prize stop and participant stop post exactly the pair `items[i]`, `participants[j]`, and the page reloads. The two wheels never spin at once. |
| DualSpinPage.NoPrizeNoPost | src/app/spin/page.tsx:131 | With no selected prize, a participant stop sends nothing and does not reload. With a non-empty prize pool and the prize wheel at rest, the button is then enabled again. |
| DrawSession.Fetch | src/app/page.tsx:42-61 | A reload from the store yields active-only pools whose records exist and are active in the store. |
| DrawSession.Serve | src/app/api/history/route.ts:25-77 | Serving a page's history request keeps the store valid, and anything but 201 leaves it unchanged. |
| DrawSession.Draw | src/app/page.tsx:76-139 | One complete home-page draw posts `items[i]` with `participants[j]` and reloads the page. |
| DrawSession.DrawCommits | src/app/api/history/route.ts:41-69 | A draw from pools loaded from the store commits. Its history row carries the drawn ids, and both drawn rows are inactive afterwards. |
| DrawSession.CommitsWhenPresent | src/app/api/history/route.ts:41-69 | A request for existing rows commits exactly one new history row with those ids and retires both rows; no row is added or removed. |
| DrawSession.DrawAndReload | src/lib/swal.ts:80-84 | After a draw, the confirm on the winner alert reloads the page, which loads its pools again from the store the commit left. The store is valid and, unless the commit succeeded, unchanged. The page is idle on the prize wheel with nothing staged. Its pools are active-only and backed by the store. |
| DrawSession.ReloadEnabledIff | src/app/page.tsx:42-61 | After the reload, the spin button is enabled iff the store still holds an active prize. |
| DrawSession.ReloadRetiresWinners | src/app/api/history/route.ts:55-64 | After a committed draw and a reload, neither pool contains the drawn prize or winner. |
| ParticipantsPage.ParsedNames | src/app/participants/page.tsx:112-115 | Every parsed name is non-empty, trimmed and a single line. The names are a subsequence of the trimmed lines, so their order is kept. |
| ParticipantsPage.ScanNames | src/app/participants/page.tsx:112-115 | A single pass over the text, one line at a time, yields exactly the split–trim–drop-empty result. |
| ParticipantsPage.ParseBulkJoin | src/app/participants/page.tsx:112-115 | Non-empty, trimmed, single-line names written one per line parse back to the same list. |
| ParticipantsPage.ParseBulkSkipsBlank | src/app/participants/page.tsx:112-115 | An empty or all-space line contributes no name: removing it does not change the result. |
| ParticipantsPage.ParseBulkExample | src/app/participants/page.tsx:112-115 | `"Alice\n\nBob\n  \nCarol"` parses to exactly `["Alice","Bob","Carol"]`. |
| ParticipantsPage.BulkSubmit | src/app/participants/page.tsx:111-132 | No surviving name raises the alert and sends nothing. Otherwise exactly one POST `{name}` is sent per parsed name, in order. |
| ParticipantsPage.BulkNamesAccepted | src/app/participants/page.tsx:124-132 | Each bulk-parsed name is accepted by the create handler and stored unchanged. |
| ParticipantsPage.Submit | src/app/participants/page.tsx:80-96 | A name that is blank after trimming is refused and nothing is sent. Otherwise the trimmed name is sent, by PUT to the edited participant or by POST to the collection. |
| ParticipantsPage.OpenDialog | src/app/participants/page.tsx:63-72 | Opening the dialog for a participant pre-fills its name; opening it for a new one leaves the name empty. |
| ParticipantsPage.ClosedDialogRefused | src/app/participants/page.tsx:63-96 | Closing the dialog resets it to the state that opening it for a new participant gives. Saving it is then refused. |
| ParticipantsPage.ReopenedNameResent | src/app/participants/page.tsx:63-96 | Saving an unchanged dialog for a stored participant PUTs back the name it already has. |
| ParticipantsPage.ReopenedParticipantUnchanged | src/app/participants/page.tsx:63-96 | Saving an opened dialog unchanged leaves the store as it was, provided the stored name is trimmed and non-empty. |
| ParticipantsPage.ToggleFlipsStoredFlag | src/app/participants/page.tsx:145-151 | The toggle's PUT, served by the update handler, succeeds. It negates the stored flag and leaves the rest of the row and every other row unchanged. Toggling the returned row again restores the store. |
| ItemsPage.ReopenedItemUnchanged | src/app/items/page.tsx:77-91 | Saving an opened edit dialog unchanged PUTs to that prize. The update handler then writes back exactly the stored row, provided the stored name is trimmed and non-empty and the listed picture decodes back to the stored bytes. |
| ItemsPage.ReopenedItemResent | src/app/items/page.tsx:77-91 | Saving an opened edit dialog unchanged PUTs the prize's own name, colour and listed picture. |
| ItemsPage.PickImage | src/app/items/page.tsx:93-120 | With no file, nothing changes. A type outside png/jpeg/jpg/gif is refused with the form unchanged. A file over 5·1024·1024 bytes is refused with the form unchanged. Otherwise only the picture and file change. |
| ItemsPage.RemovedPictureCleared | src/app/items/page.tsx:122-128 | After the picture is removed from the edit dialog, the save sends `image: null`. The update handler then stores the row with no picture, the trimmed name and the chosen colour, and leaves its flag alone. |
| ItemsPage.RemovedPictureNotCreated | src/app/items/page.tsx:122-128 | After the picture is removed from the create dialog, the new prize is created without a picture. |
| ItemsPage.RandomColor | src/app/items/page.tsx:130-161 | The new colour is always one of the 25 palette colours, and nothing else changes. |
| ItemsPage.EveryPaletteColorReachable | src/app/items/page.tsx:159 | Every palette colour is chosen by some value of `Math.random()`. |
| ItemsPage.ClosedDialogRefused | src/app/items/page.tsx:163-167 | Closing the dialog resets it to the state that opening it for a new prize gives. Saving it is then refused. |
| ItemsPage.Submit | src/app/items/page.tsx:169-188 | A name that is blank after trimming is refused and nothing is sent. Otherwise the body is the trimmed name, the colour as is and the picture or null, sent by PUT to the edited prize or by POST to the collection. |
| ItemsPage.SentImage | src/app/items/page.tsx:186 | The `image or null` fallback keeps a non-empty picture and sends null otherwise. |
| ItemsPage.SubmittedItemAccepted | src/app/items/page.tsx:169-188 | The create handler accepts a submitted form iff its picture decodes. The stored name is the trimmed form name, and the colour is the form's or the default. |
| ItemsPage.PickedPictureStored | src/app/items/page.tsx:111-119 | A picked `data:image…,payload` picture, once sent, is stored as the decoded payload. |
| ItemsPage.ToggleFlipsStoredFlag | src/app/items/page.tsx:202-208 | The toggle's PUT, served by the update handler, succeeds. It negates the stored flag and leaves the rest of the row and every other row unchanged. Toggling again restores the store. |
| HistoryPage.FilteredHistory | src/app/history/page.tsx:114-118 | A row is kept iff the lower-cased term occurs in the lower-cased prize or winner name. The result is a subsequence of the listing. |
| HistoryPage.EmptySearchKeepsAll | src/app/history/page.tsx:114-118 | The empty search term keeps every row. |
| HistoryPage.SearchIgnoresCase | src/app/history/page.tsx:114-118 | Searching for a term and for its lower-case form give the same rows. |
| HistoryPage.HeaderLine | src/app/history/page.tsx:79-81 | The header line is a single line that splits on `,` into exactly the four column titles. |
| HistoryPage.ExportCsv | src/app/history/page.tsx:73-94 | Export is refused iff no row is shown. Otherwise the file starts with the byte-order mark. |
| HistoryPage.ExportLines | src/app/history/page.tsx:80-91 | When no cell text holds a line break, the file after the byte-order mark splits into the header line followed by exactly one line per shown row, in order, each as the page writes it. |
| HistoryPage.LineCells | src/app/history/page.tsx:82-89 | When no cell text holds a comma, data line `i` as written splits into the rank and the three texts each wrapped in quotes. The rank reads back as `i+1`. Each quoted cell reads back as its text iff the text holds no `"`. |
| HistoryPage.QuotedBreaksOnQuote | src/app/history/page.tsx:85-87 | Any text holding a `"` is written as a cell that does not read back as that text. |
| HistoryPage.QuotedNameExample | src/app/history/page.tsx:85-87 | The name `a"b` is written as `"a"b"`, which does not read as a quoted field at all. |
| HistoryPage.QuotedReadsBack | src/app/history/page.tsx:85-87 | A cell the page writes reads back as its text iff the text holds no `"`. |
| HistoryPage.AsWrittenAgrees | src/app/history/page.tsx:82-89 | With no `"` in any cell, the escaped row is the row the code writes. |
| HistoryPage.QuoteEscapedRoundTrip | src/app/history/page.tsx:85-87 | An escaped quoted cell reads back to its exact contents. |
| HistoryPage.ExportLinesEscaped | src/app/history/page.tsx:80-91 | The escaped export splits into lines the same way, under the same condition. |
| HistoryPage.LineCellsEscaped | src/app/history/page.tsx:82-89 | When no cell text holds a comma, an escaped data line splits into its four cells. Every cell reads back as its exact text, quotes included. |
| SpinWheel.Prepare | src/components/SpinWheel.tsx:47-53 | The segments match the items one to one, with the same labels. A segment's background is the given colour if truthy, and otherwise palette colour `index % 12`. Its label colour is the given one if truthy, and otherwise `#ffffff`. No colour is empty. |
| SpinWheel.PaletteCycles | src/components/SpinWheel.tsx:50-51 | Neighbouring segments without their own colour differ. Segments 12 apart repeat, because the palette is cycled by `index % 12`. |
| SpinWheel.DefaultColorsDistinct | src/components/SpinWheel.tsx:21-34 | The palette holds 12 distinct colours. |
| HomePage.WheelSpinsIffSpinning | src/components/SpinWheel.tsx:116-122 | On a consistent home page, the wheel is asked to spin exactly while the page is spinning: the target is then an index into a non-empty pool, and the idle target -1 never spins. |
| SpinWheel.Revolutions | src/components/SpinWheel.tsx:124 | The revolution count lies in `[5, 7]`. |
| SpinWheel.EveryRevolutionCountReachable | src/components/SpinWheel.tsx:124 | Each of 5, 6 and 7 revolutions is chosen by some value of `Math.random()`. |
| HomePage.SettledSegmentIsStoredPrize | src/components/SpinWheel.tsx:55-67 | The wheel reports its settle index only when a callback is given, and unchanged. The prize the home page stages for that index is the one whose caption and colour that segment shows. |
| Chance.ScaledIndex | src/app/page.tsx:87 | `Math.floor(Math.random() * n)` is an index in `[0, n)` when `n > 0`. |
| Chance.EveryIndexReachable | src/app/spin/page.tsx:99 | Every index of a non-empty pool is a possible target. |
| Text.Trim | src/app/api/participants/route.ts:26 | The trimmed string has no removable character at either end. It is the input with removable runs cut from both ends. |
| Text.TrimIdempotent | src/app/api/items/route.ts:51 | Trimming twice is trimming once. |
| Text.TrimEmptyIff | src/app/items/page.tsx:170 | A string trims to the empty string iff every character is removable. |
| Text.JoinSplit | src/app/history/page.tsx:80-91 | Joining the pieces of a split restores the string. |
| Text.SplitJoin | src/app/history/page.tsx:80-91 | Splitting a join of separator-free pieces gives back the pieces. |
| Text.Contains | src/app/history/page.tsx:116-117 | `includes` holds iff the term occurs at some position. |
| Text.NatToStringValue | src/app/history/page.tsx:84 | The decimal rendering of a rank reads back as the same number. |

The `PUT` handlers for a single row sit in `[id]` directories, whose bracketed paths the table's source column cannot hold, so their members are listed here in the same form:

- `ItemsMemberRoute.ImageUpdate` (src/app/api/items/[id]/route.ts:45-54): An absent picture keeps the stored one and `null` clears it. A `data:image` string replaces it with the decoded text after the first comma, or fails when there is no comma. Any other string keeps it.
- `ItemsMemberRoute.UpdateItem` (src/app/api/items/[id]/route.ts:38-74): The update succeeds (200) iff the row exists and the picture does not fail; otherwise it gives 500 with the store unchanged. On success, each given field replaces the stored one: the name trimmed, the colour as is, the picture as `ImageUpdate` says. Every absent field, the id and the creation time are kept. No other row changes, and a valid store stays valid.
- `ItemsMemberRoute.StoredRowRewritten` (src/app/api/items/[id]/route.ts:38-74): An update carrying a row's own trimmed name, its colour and a picture that decodes to its stored picture replies with that row and leaves the store exactly as it was.
- `ParticipantsMemberRoute.UpdateParticipant` (src/app/api/participants/[id]/route.ts:33-56): The update succeeds (200) iff the row exists; otherwise it gives 500 with the store unchanged. On success, a given name replaces the stored one, trimmed, and a given flag replaces the stored flag. The id, the creation time and every other row are kept, and a valid store stays valid.
- `ParticipantsMemberRoute.StoredNameRewritten` (src/app/api/participants/[id]/route.ts:33-56): An update carrying a row's own trimmed name replies with that row and leaves the store exactly as it was.

## Left out

- Read failures: the GET handlers' 500 replies on a database read error are not modelled; listing always succeeds.
- The `[id]` routes: `GET` and `DELETE` on one row are outside the core. So are the pages' `handleDelete`. The `PUT` handlers are modelled for the string and boolean bodies the pages send. A `null` name, or a body field of another type, is not modelled.
- Transport: HTTP transport, JSON coding and `res.ok` checks are not modelled. A request is a `Requests.Request` value, a reply a `Records.Reply`.
- Follow-up fetches: the re-fetch after a save (`fetchItems`, `fetchParticipants`) is not modelled.
- Bulk partial failures: `Promise.all` failing part-way through a bulk create is not modelled.
- React scheduling: hooks, asynchronous updates, loading and submitting flags, and stale closures between renders are not modelled. Handlers are sequential state transitions. The picture reader's `...formData` snapshot is taken as the current form.
- The wheel widget: its drawing, spin duration, rotation save/restore and confetti are outside the model. The settle index is an input.
- Randomness: `Math.random()` floating point is modelled as an exact fraction in `[0, 1)`.
- Base64: `Buffer` coding is a pair of function parameters. `FileReader` is a data-URL parameter. The Blob, download link and timestamped file name are left out.
- Date formatting: locale formatting (`toLocaleString("th-TH")`) is the parameter `fmt`.
- Alerts: SweetAlert dialogs are `Notice` values and a confirmed/declined flag. The reload that the winner alert's confirm performs is a flag. The navbar, layout, theme and snow effect are presentation only.
- `parseInt`: ids arrive as numbers; `parseInt` on non-numeric strings is not modelled.
- The schema: the database schema file is not part of this model. Defaults are stated above.
- HistoryPage.Matches: lower-cases ASCII letters only. JavaScript `toLowerCase` also folds the rest of Unicode.
- HistoryPage.ExportLines: proved only for rows whose names and dates contain no line break. Section 2 of RFC 4180 allows a line break inside a quoted field, but the model reads the file by plainly splitting on line breaks, so such a cell would look like extra lines.
- HistoryPage.LineCells: proved only for rows whose names and dates contain no comma. A comma inside a quoted field is allowed too, but the model reads a line by plainly splitting on commas.
- HomePage.HandleSpinEnd: the page state it returns is the state the handler sets. When the reload flag is set, the browser discards that state; the page starts again from `HomePage.Initial` and loads its pools afresh. `DrawSession.DrawAndReload` models that fresh load. The navigation itself, and state updates racing it, are not modelled.
- HomePage.DrawProtocol: its final page state is discarded by the reload it reports, as for `HandleSpinEnd`.
- DualSpinPage.HandleParticipantSpinEnd: the page state it returns is discarded when its reload flag is set. The fresh load is `DualSpinPage.Loaded` from a page with nothing selected.
- DualSpinPage.DrawProtocol: its final page state, with both selections shown, is discarded by the reload it reports.
- DrawSession.Draw: its page state is the handler's and is discarded by the reload. `DrawSession.DrawAndReload` gives the page after it.
- Text.Trim: removes the characters listed in `Text.TrimmedChars` (ECMAScript white space and line terminators as of Unicode 15). A JavaScript engine on a later Unicode version could add characters to category Zs.
- Deletion: with deletes left out, a history row never refers to a missing prize or participant, so the listing never has to tolerate a dangling reference.

## Findings

| source | as written | input that shows it | evidently intended | confidence | as-written member | corrected member |
|---|---|---|---|---|---|---|
| src/app/history/page.tsx:85-87 | each cell is wrapped in `"` without doubling embedded quotes | a prize or winner named `a"b` | cells that read back as written, with embedded quotes doubled as section 2 of RFC 4180 requires | not executed | HistoryPage.LineCells | HistoryPage.LineCellsEscaped |

`HistoryPage.ExportCsv` and `HistoryPage.Lines` model the export as the page writes it.
`HistoryPage.QuotedNameExample` gives the concrete input, and `HistoryPage.QuotedBreaksOnQuote`
shows that every text holding a quote is misread. The corrected export is
`HistoryPage.ExportCsvEscaped`, built on `HistoryPage.RenderRow` and `QuoteEscaped`.
`HistoryPage.AsWrittenAgrees` shows it writes exactly what the page writes whenever no cell
holds a quote.
