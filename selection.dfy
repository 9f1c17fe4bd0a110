/** The row check boxes: `handleClick` toggles one id in the `selected`
    list, and `handleSelectAllClick` sets it to every id or to none. */
module Selection {
  import opened ClientRecords

  /** `s.indexOf(x)`: the first index holding `x`, or -1. */
  function IndexOf(s: seq<int>, x: int): (r: int)
    ensures r == -1 <==> x !in s
    ensures r != -1 ==> 0 <= r < |s| && s[r] == x && x !in s[..r]
  {
    if s == [] then -1
    else if s[0] == x then 0
    else
      var k := IndexOf(s[1..], x);
      if k == -1 then -1
      else
        assert s[..k + 1] == [s[0]] + s[1..][..k];
        k + 1
  }

  /** `handleClick(event, id)`: the branches of the source, on the index of
      `id` in `selected`. */
  function Toggle(selected: seq<int>, id: int): (r: seq<int>)
    ensures id !in selected ==> r == selected + [id]
    ensures id in selected ==>
      (|r| == |selected| - 1 && r == selected[..IndexOf(selected, id)] + selected[IndexOf(selected, id) + 1..])
  {
    var selectedIndex := IndexOf(selected, id);
    if selectedIndex == -1 then selected + [id]
    else if selectedIndex == 0 then selected[1..]
    else if selectedIndex == |selected| - 1 then selected[..|selected| - 1]
    else selected[..selectedIndex] + selected[selectedIndex + 1..]
  }

  /** On a list without repeats, a click flips the membership of `id`,
      leaves every other id's membership alone, and keeps the list free of
      repeats. */
  lemma ToggleFlipsMembership(selected: seq<int>, id: int)
    requires Distinct(selected)
    ensures Distinct(Toggle(selected, id))
    ensures id in Toggle(selected, id) <==> id !in selected
    ensures forall x :: x != id ==> (x in Toggle(selected, id) <==> x in selected)
  {
    var r := Toggle(selected, id);
    if id in selected {
      var i := IndexOf(selected, id);
      assert selected == selected[..i] + [id] + selected[i + 1..];
      forall x | x != id ensures x in r <==> x in selected { }
      forall a, b | 0 <= a < b < |r| ensures r[a] != r[b] {
        var a' := if a < i then a else a + 1;
        var b' := if b < i then b else b + 1;
        assert r[a] == selected[a'] && r[b] == selected[b'];
      }
    }
  }

  /** Clicking an unselected row twice restores the original list. */
  lemma ToggleTwiceRestores(selected: seq<int>, id: int)
    requires id !in selected
    ensures Toggle(Toggle(selected, id), id) == selected
  {
    var once := selected + [id];
    assert IndexOf(once, id) == |selected| by {
      assert once[..|selected|] == selected;
    }
    assert once[..|selected|] == selected;
  }

  /** On a selection without repeats, clicking a selected row twice moves
      its id to the end and keeps the others in order. */
  lemma ToggleTwiceMovesToEnd(selected: seq<int>, id: int)
    requires Distinct(selected) && id in selected
    ensures Toggle(Toggle(selected, id), id) ==
      selected[..IndexOf(selected, id)] + selected[IndexOf(selected, id) + 1..] + [id]
  {
    ToggleFlipsMembership(selected, id);
  }

  /** `checked` of the header check box: every displayed row is selected,
      judged by count. */
  predicate HeaderChecked(numSelected: nat, rowCount: nat)
    ensures HeaderChecked(numSelected, rowCount) ==> numSelected > 0
  {
    rowCount > 0 && numSelected == rowCount
  }

  /** `handleSelectAllClick`: the ids of `finalItems` in order when the box
      becomes checked, no id when it becomes unchecked. */
  function SelectAll(checked: bool, finalItems: seq<Client>): (r: seq<int>)
    ensures checked ==> |r| == |finalItems| && forall k :: 0 <= k < |r| ==> r[k] == finalItems[k].clientId
    ensures !checked ==> r == []
  {
    if checked then Ids(finalItems) else []
  }

  /** A click on the header box flips its `checked` state: on a fully
      selected table it clears the selection; otherwise it selects every
      row, after which the box reads as checked, and a second click clears it. */
  lemma SelectAllClickToggles(selected: seq<int>, finalItems: seq<Client>)
    ensures HeaderChecked(|selected|, |finalItems|) ==>
      SelectAll(!HeaderChecked(|selected|, |finalItems|), finalItems) == []
    ensures !HeaderChecked(|selected|, |finalItems|) ==>
      SelectAll(!HeaderChecked(|selected|, |finalItems|), finalItems) == Ids(finalItems)
    ensures finalItems != [] ==>
      var once := SelectAll(!HeaderChecked(|selected|, |finalItems|), finalItems);
      once == [] || (HeaderChecked(|once|, |finalItems|) &&
        SelectAll(!HeaderChecked(|once|, |finalItems|), finalItems) == [])
  {
  }
}
