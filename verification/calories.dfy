/**
 * The tabbed calorie tables (src/questions-1317782): one button and one
 * table per entry of `buttons`; clicking a button makes it the active one,
 * and the table with that id is the one shown.
 */
module Calories {
  import opened Wrappers

  /** A rendered table: its id and whether it is the shown one. */
  datatype Table = Table(id: string, isActive: bool)

  /** `buttons?.[0]`: the first button, or undefined when there are no buttons. */
  function FirstButton(buttons: Option<seq<string>>): (r: Option<string>)
    ensures r.Some? <==> buttons.Some? && |buttons.value| > 0
    ensures r.Some? ==> r.value == buttons.value[0] && r.value in buttons.value
  {
    if buttons.Some? && |buttons.value| > 0 then Some(buttons.value[0]) else None
  }

  /** The ids `Btns` renders a button for; nothing when `items` is absent. */
  function RenderedButtons(items: Option<seq<string>>): (r: seq<string>)
    ensures items.None? ==> r == []
    ensures items.Some? ==> r == items.value
  {
    if items.None? then [] else items.value
  }

  /** `buttons?.map((id) => <Table id={id} isActive={id === activeButton} />)`. */
  function Tables(buttons: Option<seq<string>>, activeButton: Option<string>): (r: seq<Table>)
    ensures buttons.None? ==> r == []
    ensures buttons.Some? ==> |r| == |buttons.value|
    ensures buttons.Some? ==> forall i :: 0 <= i < |r| ==>
              r[i].id == buttons.value[i] && (r[i].isActive <==> activeButton == Some(buttons.value[i]))
  {
    if buttons.None? then [] else TablesOf(buttons.value, activeButton)
  }

  function TablesOf(ids: seq<string>, activeButton: Option<string>): (r: seq<Table>)
    ensures |r| == |ids|
    ensures forall i :: 0 <= i < |r| ==> r[i].id == ids[i] && (r[i].isActive <==> activeButton == Some(ids[i]))
  {
    if ids == [] then [] else [Table(ids[0], activeButton == Some(ids[0]))] + TablesOf(ids[1..], activeButton)
  }

  /** With distinct ids at most one table is active, and exactly one when the active button is one of them. */
  lemma OneActiveTable(ids: seq<string>, activeButton: Option<string>)
    requires NoDuplicates(ids)
    ensures var r := Tables(Some(ids), activeButton);
      && (forall i, j :: 0 <= i < |r| && 0 <= j < |r| && r[i].isActive && r[j].isActive ==> i == j)
      && (activeButton.Some? && activeButton.value in ids ==> exists i :: 0 <= i < |r| && r[i].isActive)
  {
    var r := Tables(Some(ids), activeButton);
    if activeButton.Some? && activeButton.value in ids {
      var k :| 0 <= k < |ids| && ids[k] == activeButton.value;
      assert r[k].isActive;
    }
  }

  /** `useDataCalories`: the buttons and the `activeButton` state. */
  class DataCalories {
    var buttons: Option<seq<string>>
    var activeButton: Option<string>

    /** The active button is one of the buttons, or undefined when there are none. */
    ghost predicate Valid()
      reads this
    {
      match activeButton
      case None => buttons.None? || buttons.value == []
      case Some(b) => b in RenderedButtons(buttons)
    }

    /** The initial state: the first button is active. */
    constructor (buttons: Option<seq<string>>)
      ensures Valid()
      ensures this.buttons == buttons && activeButton == FirstButton(buttons)
    {
      this.buttons := buttons;
      activeButton := FirstButton(buttons);
    }

    /** `handleClick(buttonType)`: a click on the active button changes nothing, any other click activates it. */
    method HandleClick(buttonType: string)
      modifies this
      ensures buttons == old(buttons)
      ensures old(activeButton) == Some(buttonType) ==> activeButton == old(activeButton)
      ensures old(activeButton) != Some(buttonType) ==> activeButton == Some(buttonType)
      ensures old(Valid()) && buttonType in RenderedButtons(buttons) ==> Valid()
    {
      if Some(buttonType) == activeButton {
        return;
      }
      activeButton := Some(buttonType);
    }

    /**
     * A re-render with a new `buttons` prop: `useState` ignores its argument
     * after the first render, so `activeButton` keeps its old value. The
     * active button stays among the buttons only if the new list still holds
     * it. Otherwise no table is active.
     */
    method ReceiveButtons(newButtons: Option<seq<string>>)
      modifies this
      ensures buttons == newButtons && activeButton == old(activeButton)
      ensures old(activeButton).Some? && old(activeButton).value in RenderedButtons(newButtons) ==> Valid()
      ensures old(activeButton).Some? && old(activeButton).value !in RenderedButtons(newButtons) ==>
                forall t :: t in RenderedTables() ==> !t.isActive
    {
      buttons := newButtons;
    }

    /** The tables as rendered for the current state. */
    function RenderedTables(): (r: seq<Table>)
      reads this
      ensures |r| == |RenderedButtons(buttons)|
      ensures forall i :: 0 <= i < |r| ==> (r[i].isActive <==> activeButton == Some(r[i].id))
    {
      Tables(buttons, activeButton)
    }
  }
}
