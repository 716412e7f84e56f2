/**
 * The two-wheel draw page. One button starts the prize wheel; when it settles,
 * the won prize is stored and the participant wheel starts at once; when that
 * settles, the winner is stored and, if a prize is stored, the pairing is
 * posted. Settle indices are inputs, not assumed equal to the targets.
 */
module DualSpinPage {
  import opened Wrappers
  import opened Records
  import opened Requests
  import ItemsRoute
  import Chance
  import Seqs

  type ItemView = ItemsRoute.ItemView

  /** The page's state hooks. */
  datatype Dual = Dual(
    items: seq<ItemView>,
    participants: seq<Participant>,
    itemSpinning: bool,
    participantSpinning: bool,
    itemTarget: int,
    participantTarget: int,
    selectedItem: Option<ItemView>,
    selectedParticipant: Option<Participant>)

  datatype Notice = AddItemsFirst | AddParticipantsFirst

  function Initial(): Dual {
    Dual([], [], false, false, -1, -1, None, None)
  }

  /** `fetchData`'s update: the fetched lists filtered to active records, order kept. */
  function Loaded(d: Dual, itemsData: seq<ItemView>, participantsData: seq<Participant>): (r: Dual)
    ensures forall i :: 0 <= i < |r.items| ==> r.items[i].isActive && r.items[i] in itemsData
    ensures forall i :: 0 <= i < |r.participants| ==> r.participants[i].isActive && r.participants[i] in participantsData
    ensures forall i :: 0 <= i < |itemsData| && itemsData[i].isActive ==> itemsData[i] in r.items
    ensures forall i :: 0 <= i < |participantsData| && participantsData[i].isActive ==> participantsData[i] in r.participants
    ensures r.(items := d.items, participants := d.participants) == d
  {
    d.(items := Seqs.Filter(itemsData, (it: ItemView) => it.isActive),
       participants := Seqs.Filter(participantsData, (p: Participant) => p.isActive))
  }

  /** `canSpin`, which enables the start button. */
  predicate CanSpin(d: Dual) {
    |d.items| > 0 && |d.participants| > 0 && !(d.itemSpinning || d.participantSpinning)
  }

  /** `handleStartSpin` with `u` as the value of `Math.random()`. An empty prize pool, then an empty
      participant pool, is refused with its alert and no change; otherwise both selections are
      cleared and the prize wheel spins towards an index inside the prize pool. */
  function HandleStartSpin(d: Dual, u: Chance.Random): (r: (Dual, Option<Notice>))
    requires u.Valid()
    ensures |d.items| == 0 ==> r == (d, Some(AddItemsFirst))
    ensures |d.items| > 0 && |d.participants| == 0 ==> r == (d, Some(AddParticipantsFirst))
    ensures |d.items| > 0 && |d.participants| > 0 ==>
              && r.1 == None && r.0.itemSpinning && 0 <= r.0.itemTarget < |d.items|
              && r.0.selectedItem == None && r.0.selectedParticipant == None
              && r.0 == d.(itemSpinning := true, itemTarget := r.0.itemTarget, selectedItem := None, selectedParticipant := None)
  {
    if |d.items| == 0 then
      (d, Some(AddItemsFirst))
    else if |d.participants| == 0 then
      (d, Some(AddParticipantsFirst))
    else
      (d.(selectedItem := None, selectedParticipant := None,
          itemTarget := Chance.ScaledIndex(u, |d.items|), itemSpinning := true), None)
  }

  /** `handleItemSpinEnd(idx)` with `u` as the second value of `Math.random()`: the prize spin state
      is cleared, the prize at `idx` is stored, and the participant wheel starts towards an index
      inside the participant pool (index 0 if that pool is empty). */
  function HandleItemSpinEnd(d: Dual, idx: int, u: Chance.Random): (r: Dual)
    requires 0 <= idx < |d.items| && u.Valid()
    ensures !r.itemSpinning && r.itemTarget == -1
    ensures r.selectedItem == Some(d.items[idx])
    ensures r.participantSpinning
    ensures |d.participants| > 0 ==> 0 <= r.participantTarget < |d.participants|
    ensures |d.participants| == 0 ==> r.participantTarget == 0
    ensures r.(itemSpinning := d.itemSpinning, itemTarget := d.itemTarget, selectedItem := d.selectedItem,
               participantSpinning := d.participantSpinning, participantTarget := d.participantTarget) == d
  {
    d.(itemSpinning := false, itemTarget := -1, selectedItem := Some(d.items[idx]),
       participantTarget := Chance.ScaledIndex(u, |d.participants|), participantSpinning := true)
  }

  /** `handleParticipantSpinEnd(idx)`: the participant spin state is cleared and the participant at
      `idx` is stored; if a prize is stored the pairing is posted (its outcome is ignored: a throw is
      only logged) and the winner alert is awaited. That alert can only be left through its confirm
      button, which reloads the page, so the third component says whether the page reloads; when
      it does, the state in the first component is discarded and the page loads its pools afresh.
      Nothing else changes. */
  function HandleParticipantSpinEnd(d: Dual, idx: int): (r: (Dual, Option<Request>, bool))
    requires 0 <= idx < |d.participants|
    ensures !r.0.participantSpinning && r.0.participantTarget == -1
    ensures r.0.selectedParticipant == Some(d.participants[idx])
    ensures r.1.Some? <==> d.selectedItem.Some?
    ensures r.2 <==> d.selectedItem.Some?
    ensures d.selectedItem.Some? ==>
              r.1 == Some(Request(Post, Collection(History), HistoryBody(d.selectedItem.value.id, d.participants[idx].id)))
    ensures r.0.(participantSpinning := d.participantSpinning, participantTarget := d.participantTarget,
                 selectedParticipant := d.selectedParticipant) == d
  {
    var winner := d.participants[idx];
    var r := d.(participantSpinning := false, participantTarget := -1, selectedParticipant := Some(winner));
    if d.selectedItem.Some? then
      (r, Some(Request(Post, Collection(History), HistoryBody(d.selectedItem.value.id, winner.id))), true)
    else
      (r, None, false)
  }

  /** The start button's condition and the start handler agree: `canSpin` holds exactly when
      neither wheel is spinning and the handler raises no alert. */
  lemma CanSpinMatchesStart(d: Dual, u: Chance.Random)
    requires u.Valid()
    ensures CanSpin(d) <==> !d.itemSpinning && !d.participantSpinning && HandleStartSpin(d, u).1.None?
  {
  }

  /** After a load, the start button is enabled exactly when both listings hold an active record. */
  lemma LoadedCanSpin(d: Dual, itemsData: seq<ItemView>, participantsData: seq<Participant>)
    requires !d.itemSpinning && !d.participantSpinning
    ensures CanSpin(Loaded(d, itemsData, participantsData)) <==>
              && (exists i :: 0 <= i < |itemsData| && itemsData[i].isActive)
              && (exists i :: 0 <= i < |participantsData| && participantsData[i].isActive)
  {
    var r := Loaded(d, itemsData, participantsData);
    if |r.items| > 0 {
      assert r.items[0] in itemsData;
      var i :| 0 <= i < |itemsData| && itemsData[i] == r.items[0];
      assert itemsData[i].isActive;
    }
    if |r.participants| > 0 {
      assert r.participants[0] in participantsData;
      var i :| 0 <= i < |participantsData| && participantsData[i] == r.participants[0];
      assert participantsData[i].isActive;
    }
  }

  /** The full two-wheel protocol from an enabled button: the prize wheel settles on `i`, the
      participant wheel on `j`; exactly one POST pairs `items[i]` with `participants[j]`, the two
      wheels never spin at the same time, and the page reloads. The handler's own final state
      (both selections shown, idle, button enabled) is the one the reload then discards. */
  lemma DrawProtocol(d: Dual, u1: Chance.Random, u2: Chance.Random, i: int, j: int)
    requires CanSpin(d) && u1.Valid() && u2.Valid()
    requires 0 <= i < |d.items| && 0 <= j < |d.participants|
    ensures var d1 := HandleStartSpin(d, u1).0;
            var d2 := HandleItemSpinEnd(d1, i, u2);
            var (d3, post, reload) := HandleParticipantSpinEnd(d2, j);
            && d1.itemSpinning && !d1.participantSpinning
            && !d2.itemSpinning && d2.participantSpinning
            && !d3.itemSpinning && !d3.participantSpinning && CanSpin(d3)
            && post == Some(Request(Post, Collection(History), HistoryBody(d.items[i].id, d.participants[j].id)))
            && reload
            && d3.selectedItem == Some(d.items[i]) && d3.selectedParticipant == Some(d.participants[j])
  {
    var d1 := HandleStartSpin(d, u1).0;
    assert d1.items == d.items && d1.participants == d.participants && !d1.participantSpinning;
    var d2 := HandleItemSpinEnd(d1, i, u2);
    assert d2.items == d.items && d2.participants == d.participants;
  }

  /** A participant wheel that settles with no prize stored posts nothing and does not reload, and
      the page stays idle with the winner shown. */
  lemma NoPrizeNoPost(d: Dual, idx: int)
    requires 0 <= idx < |d.participants| && d.selectedItem.None?
    ensures var (d1, post, reload) := HandleParticipantSpinEnd(d, idx);
            && post == None && !reload
            && (!d.itemSpinning ==> !d1.itemSpinning && !d1.participantSpinning)
            && (|d.items| > 0 && !d.itemSpinning ==> CanSpin(d1))
  {
  }
}
