/**
 * The single-wheel draw page. One wheel shows either the active prizes or the
 * active participants. A prize draw stores the won prize; once the operator
 * confirms, the wheel switches to participants, and the participant draw posts
 * the pairing to the history route and returns to prizes. Handlers are
 * sequential transitions of the page state; the wheel's settle index is an
 * input, and nothing here assumes it equals the requested target.
 */
module HomePage {
  import opened Wrappers
  import opened Records
  import opened Requests
  import ItemsRoute
  import Chance
  import SpinWheel
  import Seqs

  type ItemView = ItemsRoute.ItemView

  datatype Mode = ItemsMode | ParticipantsMode

  /** The page's state hooks. */
  datatype Home = Home(
    items: seq<ItemView>,
    participants: seq<Participant>,
    spinning: bool,
    targetIndex: int,
    mode: Mode,
    selected: Option<ItemView>)

  /** The error alerts the page can raise. */
  datatype Notice = AddItemsFirst | AddParticipantsFirst

  /** The state on first render. */
  function Initial(): Home {
    Home([], [], false, -1, ItemsMode, None)
  }

  /** The spin flag and the target agree: a target is set exactly while spinning. */
  ghost predicate Idle(h: Home) {
    !h.spinning && h.targetIndex == -1
  }

  /** Both pools hold active records only. */
  ghost predicate ActivePools(h: Home) {
    && (forall i :: 0 <= i < |h.items| ==> h.items[i].isActive)
    && (forall i :: 0 <= i < |h.participants| ==> h.participants[i].isActive)
  }

  /** `fetchData`'s update: the fetched lists filtered to active records, order kept. */
  function Loaded(h: Home, itemsData: seq<ItemView>, participantsData: seq<Participant>): (r: Home)
    ensures ActivePools(r)
    ensures Seqs.IsSubsequence(r.items, itemsData) && Seqs.IsSubsequence(r.participants, participantsData)
    ensures forall i :: 0 <= i < |r.items| ==> r.items[i] in itemsData
    ensures forall i :: 0 <= i < |r.participants| ==> r.participants[i] in participantsData
    ensures forall i :: 0 <= i < |itemsData| && itemsData[i].isActive ==> itemsData[i] in r.items
    ensures forall i :: 0 <= i < |participantsData| && participantsData[i].isActive ==> participantsData[i] in r.participants
    ensures r.(items := h.items, participants := h.participants) == h
  {
    h.(items := Seqs.Filter(itemsData, (it: ItemView) => it.isActive),
       participants := Seqs.Filter(participantsData, (p: Participant) => p.isActive))
  }

  /** The length of the pool the wheel currently shows. */
  function PoolSize(h: Home): nat {
    if h.mode == ItemsMode then |h.items| else |h.participants|
  }

  /** `currentWheelItems`: prizes with their colours, or participants with the palette. */
  function WheelItems(h: Home): (w: seq<SpinWheel.WheelItem>)
    ensures |w| == PoolSize(h)
    ensures h.mode == ItemsMode ==> forall i :: 0 <= i < |w| ==> w[i].caption == h.items[i].name
    ensures h.mode == ParticipantsMode ==> forall i :: 0 <= i < |w| ==> w[i].caption == h.participants[i].name
    ensures h.mode == ItemsMode ==> forall i :: 0 <= i < |w| ==> w[i].backgroundColor == Some(h.items[i].color)
    ensures h.mode == ParticipantsMode ==> forall i :: 0 <= i < |w| ==> w[i].backgroundColor.None?
    ensures forall i :: 0 <= i < |w| ==> w[i].labelColor.None?
  {
    if h.mode == ItemsMode then
      seq(|h.items|, i requires 0 <= i < |h.items| => SpinWheel.WheelItem(h.items[i].name, Some(h.items[i].color), None))
    else
      seq(|h.participants|, i requires 0 <= i < |h.participants| => SpinWheel.WheelItem(h.participants[i].name, None, None))
  }

  /** The spin button is enabled only when idle with a non-empty pool. */
  predicate SpinEnabled(h: Home) {
    !h.spinning && PoolSize(h) > 0
  }

  /** `handleSpin` with `u` as the value of `Math.random()`. An empty pool raises the alert for the
      current mode and changes nothing; otherwise a target inside the pool is set and spinning starts. */
  function HandleSpin(h: Home, u: Chance.Random): (r: (Home, Option<Notice>))
    requires u.Valid()
    ensures PoolSize(h) == 0 ==> r.0 == h && r.1 == Some(if h.mode == ItemsMode then AddItemsFirst else AddParticipantsFirst)
    ensures PoolSize(h) > 0 ==> r.1 == None && r.0.spinning && 0 <= r.0.targetIndex < PoolSize(h)
    ensures PoolSize(h) > 0 ==> r.0 == h.(spinning := true, targetIndex := r.0.targetIndex)
  {
    if PoolSize(h) == 0 then
      (h, Some(if h.mode == ItemsMode then AddItemsFirst else AddParticipantsFirst))
    else
      (h.(targetIndex := Chance.ScaledIndex(u, PoolSize(h)), spinning := true), None)
  }

  /** `handleSpinEnd(idx)`, `idx` being whatever index the wheel settled on, and `confirmed` the
      operator's answer to the prize alert. The spin state is always cleared. In prize mode the prize
      at `idx` is stored, and the mode turns to participants only if confirmed. In participant mode
      with a stored prize, the pairing is posted, the winner alert is awaited, and the page returns
      to prize mode with nothing stored; the POST's outcome is not an input because the handler
      ignores it (a throw is only logged). The winner alert can only be left through its confirm
      button, which reloads the page, so the third component says whether the page reloads: when
      it does, the state in the first component is discarded and the page starts again from
      `Initial` and loads its pools afresh. In participant mode without a stored prize nothing else
      happens. */
  function HandleSpinEnd(h: Home, idx: int, confirmed: bool): (r: (Home, Option<Request>, bool))
    requires 0 <= idx < PoolSize(h)
    ensures Idle(r.0)
    ensures r.0.items == h.items && r.0.participants == h.participants
    ensures r.2 <==> h.mode == ParticipantsMode && h.selected.Some?
    ensures r.2 <==> r.1.Some?
    ensures h.mode == ItemsMode ==>
              && r.0.selected == Some(h.items[idx]) && r.1 == None
              && r.0.mode == (if confirmed then ParticipantsMode else ItemsMode)
    ensures h.mode == ParticipantsMode && h.selected.Some? ==>
              && r.1 == Some(Request(Post, Collection(History), HistoryBody(h.selected.value.id, h.participants[idx].id)))
              && r.0.selected == None && r.0.mode == ItemsMode
    ensures h.mode == ParticipantsMode && h.selected.None? ==> r.1 == None && r.0 == h.(spinning := false, targetIndex := -1)
  {
    var cleared := h.(spinning := false, targetIndex := -1);
    if h.mode == ItemsMode then
      (cleared.(selected := Some(h.items[idx]), mode := if confirmed then ParticipantsMode else ItemsMode), None, false)
    else
      var winner := h.participants[idx];
      if h.selected.Some? then
        (cleared.(selected := None, mode := ItemsMode),
         Some(Request(Post, Collection(History), HistoryBody(h.selected.value.id, winner.id))), true)
      else
        (cleared, None, false)
  }

  /** The restart button: back to prize mode with nothing stored; nothing else changes. */
  function Restart(h: Home): (r: Home)
    ensures r.mode == ItemsMode && r.selected == None
    ensures r.(mode := h.mode, selected := h.selected) == h
  {
    h.(mode := ItemsMode, selected := None)
  }

  /** A pool-consistency invariant: the target is set exactly while spinning and then lies inside
      the pool on show, and the stored prize (if any) came from the prize pool. */
  ghost predicate Consistent(h: Home) {
    && (h.spinning <==> h.targetIndex >= 0)
    && (h.spinning ==> h.targetIndex < PoolSize(h))
    && h.targetIndex >= -1
    && (h.selected.Some? ==> h.selected.value in h.items)
  }

  /** On a consistent page the wheel is asked to spin exactly while the page is spinning: the
      target is then a real index into a non-empty pool, and an idle target of -1 never spins. */
  lemma WheelSpinsIffSpinning(h: Home)
    requires Consistent(h)
    ensures SpinWheel.SpinIssued(h.spinning, WheelItems(h), h.targetIndex) <==> h.spinning
  {
  }

  /** Every handler keeps the page consistent; restart does so when pressed while idle. */
  lemma HandlersKeepConsistent(h: Home, u: Chance.Random, idx: int, confirmed: bool)
    requires Consistent(h) && u.Valid()
    ensures Consistent(HandleSpin(h, u).0)
    ensures 0 <= idx < PoolSize(h) ==> Consistent(HandleSpinEnd(h, idx, confirmed).0)
    ensures !h.spinning ==> Consistent(Restart(h))
    ensures ActivePools(h) ==> ActivePools(HandleSpin(h, u).0) && ActivePools(Restart(h))
    ensures ActivePools(h) && 0 <= idx < PoolSize(h) ==> ActivePools(HandleSpinEnd(h, idx, confirmed).0)
  {
  }

  /** The restart button stays enabled during a participant spin; pressing it then leaves a target
      chosen for the participant pool in place while the wheel shows prizes. */
  lemma RestartMidSpinKeepsStaleTarget(it: ItemView, p1: Participant, p2: Participant)
    ensures var h := Home([it], [p1, p2], true, 1, ParticipantsMode, Some(it));
            Consistent(h) && !Consistent(Restart(h))
  {
  }

  /** The full single-wheel protocol: a prize draw settled on `i`, confirmed, then a participant
      draw settled on `j`, posts exactly `items[i]` with `participants[j]` and reloads the page.
      The prize draw alone neither posts nor reloads; the handler's own final state (idle, prize
      mode, nothing stored, pools as they were) is the one the reload then discards. */
  lemma DrawProtocol(h: Home, u1: Chance.Random, u2: Chance.Random, i: int, j: int, confirmedAgain: bool)
    requires h.mode == ItemsMode && u1.Valid() && u2.Valid()
    requires 0 <= i < |h.items| && 0 <= j < |h.participants|
    ensures var h1 := HandleSpin(h, u1).0;
            var h2 := HandleSpinEnd(h1, i, true).0;
            var h3 := HandleSpin(h2, u2).0;
            var (h4, post, reload) := HandleSpinEnd(h3, j, confirmedAgain);
            && h2.mode == ParticipantsMode && h2.selected == Some(h.items[i])
            && !HandleSpinEnd(h1, i, true).2 && reload
            && post == Some(Request(Post, Collection(History), HistoryBody(h.items[i].id, h.participants[j].id)))
            && Idle(h4) && h4.mode == ItemsMode && h4.selected == None
            && h4.items == h.items && h4.participants == h.participants
  {
    var h1 := HandleSpin(h, u1).0;
    var h2 := HandleSpinEnd(h1, i, true).0;
    assert h2.mode == ParticipantsMode && h2.selected == Some(h.items[i]);
    var h3 := HandleSpin(h2, u2).0;
    assert h3.mode == ParticipantsMode && h3.selected == h2.selected && h3.participants == h.participants;
  }

  /** The wheel and the page agree on the winner: the index the wheel reports on settling is the
      segment whose caption and colour the operator sees, and the prize the handler stores for it
      is the prize that segment was drawn for. */
  lemma SettledSegmentIsStoredPrize(h: Home, idx: int, confirmed: bool)
    requires h.mode == ItemsMode && 0 <= idx < |h.items|
    ensures var reported := SpinWheel.OnRest(true, idx);
            var segments := SpinWheel.Prepare(WheelItems(h));
            && reported == Some(idx) && SpinWheel.OnRest(false, idx) == None
            && HandleSpinEnd(h, reported.value, confirmed).0.selected == Some(h.items[idx])
            && segments[reported.value].caption == HandleSpinEnd(h, reported.value, confirmed).0.selected.value.name
            && (h.items[idx].color != "" ==> segments[reported.value].backgroundColor == h.items[idx].color)
  {
  }

  /** The handler's behaviour on a declined prize alert: the prize stays stored on the prize wheel
      and the next prize draw replaces it without posting. The prize alert offers no cancel button
      and ignores outside clicks and the escape key (src/lib/swal.ts lines 21-38), so the page
      itself never reaches this path; it records what the handler would do if it did. */
  lemma DeclinedAlertStaysOnPrizes(h: Home, i: int, k: int)
    requires h.mode == ItemsMode && 0 <= i < |h.items| && 0 <= k < |h.items|
    ensures var h1 := HandleSpinEnd(h, i, false).0;
            && h1.mode == ItemsMode && h1.selected == Some(h.items[i])
            && HandleSpinEnd(h1, k, true).1 == None
            && HandleSpinEnd(h1, k, true).0.selected == Some(h.items[k])
  {
  }
}
