/**
 * The wheel component: how it turns the caller's entries into coloured
 * segments, when it asks the animation library to spin, how many turns it asks
 * for, and what it reports when the wheel comes to rest. The animation itself
 * is outside the model; the index it settles on is an input.
 */
module SpinWheel {
  import opened Wrappers
  import opened Records
  import Chance

  /** An entry as a page passes it; `caption` is the component's `label` field. */
  datatype WheelItem = WheelItem(caption: string, backgroundColor: Option<string>, labelColor: Option<string>)

  /** A segment as the wheel draws it. */
  datatype Segment = Segment(caption: string, backgroundColor: string, labelColor: string)

  /** The palette for entries without a colour, used cyclically. */
  const DefaultColors: seq<string> := [
    "#FF6B6B", "#4ECDC4", "#45B7D1", "#96CEB4", "#FFEAA7", "#DDA0DD",
    "#98D8C8", "#F7DC6F", "#BB8FCE", "#85C1E9", "#F8B500", "#00CED1"]

  const DefaultLabelColor: string := "#ffffff"

  /** `preparedItems`: one segment per entry, in order, with the entry's colours where they are
      truthy and the palette (by position, modulo its length) or white where they are not. */
  function Prepare(items: seq<WheelItem>): (r: seq<Segment>)
    ensures |r| == |items|
    ensures forall i :: 0 <= i < |r| ==> r[i].caption == items[i].caption
    ensures forall i :: 0 <= i < |r| ==> r[i].backgroundColor != "" && r[i].labelColor != ""
    ensures forall i :: 0 <= i < |r| && !Truthy(items[i].backgroundColor) ==> r[i].backgroundColor in DefaultColors
    ensures forall i :: 0 <= i < |r| && !Truthy(items[i].backgroundColor) ==> r[i].backgroundColor == DefaultColors[i % 12]
    ensures forall i :: 0 <= i < |r| && !Truthy(items[i].labelColor) ==> r[i].labelColor == "#ffffff"
    ensures forall i :: 0 <= i < |r| && Truthy(items[i].backgroundColor) ==> r[i].backgroundColor == items[i].backgroundColor.value
    ensures forall i :: 0 <= i < |r| && Truthy(items[i].labelColor) ==> r[i].labelColor == items[i].labelColor.value
  {
    seq(|items|, i requires 0 <= i < |items| =>
      Segment(
        items[i].caption,
        if Truthy(items[i].backgroundColor) then items[i].backgroundColor.value else DefaultColors[i % |DefaultColors|],
        if Truthy(items[i].labelColor) then items[i].labelColor.value else DefaultLabelColor))
  }

  /** The palette holds twelve distinct colours. */
  lemma DefaultColorsDistinct()
    ensures |DefaultColors| == 12
    ensures forall i, j :: 0 <= i < j < |DefaultColors| ==> DefaultColors[i] != DefaultColors[j]
  {
  }

  /** Two neighbouring entries without colours are drawn in different colours, and entries twelve
      apart without colours are drawn in the same one. */
  lemma {:induction false} PaletteCycles(items: seq<WheelItem>, i: int)
    requires 0 <= i && i + 1 < |items|
    requires !Truthy(items[i].backgroundColor) && !Truthy(items[i + 1].backgroundColor)
    ensures Prepare(items)[i].backgroundColor != Prepare(items)[i + 1].backgroundColor
    ensures i + 12 < |items| && !Truthy(items[i + 12].backgroundColor) ==>
              Prepare(items)[i].backgroundColor == Prepare(items)[i + 12].backgroundColor
  {
    DefaultColorsDistinct();
    var r := Prepare(items);
    assert r[i].backgroundColor == DefaultColors[i % 12];
    assert r[i + 1].backgroundColor == DefaultColors[(i + 1) % 12];
    assert i % 12 != (i + 1) % 12;
    if i + 12 < |items| && !Truthy(items[i + 12].backgroundColor) {
      assert (i + 12) % 12 == i % 12;
    }
  }

  /** A wheel is constructed only when there is at least one segment. */
  predicate HasWheel(items: seq<WheelItem>) {
    |Prepare(items)| > 0
  }

  /** The spin effect calls `spinToItem` only when a spin is requested, a wheel exists and the
      target is a real index; a target of -1 means idle. */
  predicate SpinIssued(spinning: bool, items: seq<WheelItem>, targetIndex: int) {
    spinning && HasWheel(items) && targetIndex >= 0
  }

  /** `5 + Math.floor(Math.random() * 3)`: the number of full turns requested. */
  function Revolutions(u: Chance.Random): (n: int)
    requires u.Valid()
    ensures 5 <= n <= 7
  {
    5 + Chance.ScaledIndex(u, 3)
  }

  /** Every turn count from 5 to 7 can be requested. */
  lemma EveryRevolutionCountReachable(n: int)
    requires 5 <= n <= 7
    ensures exists u: Chance.Random :: u.Valid() && Revolutions(u) == n
  {
    Chance.EveryIndexReachable(3, n - 5);
    assert Revolutions(Chance.Random(n - 5, 3)) == n;
  }

  /** `wheel.onRest`: the settled index is passed to the page's callback, if there is one, untouched. */
  function OnRest(onSpinEnd: bool, currentIndex: int): (reported: Option<int>)
    ensures reported.Some? <==> onSpinEnd
    ensures reported.Some? ==> reported.value == currentIndex
  {
    if onSpinEnd then Some(currentIndex) else None
  }
}
