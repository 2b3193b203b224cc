/** The row-selection table: for each supplier, the identifiers of the
    product rows the user has selected, in the order they were selected.
    A click on a row toggles that row; a click that lands on an input or
    text area inside the row changes nothing. */
module Selection {
  import opened Lists

  /** Supplier identifier to the selected product identifiers. */
  type Selected = map<string, seq<string>>

  /** The selection of one supplier; a supplier with no entry has none. */
  function Get(sel: Selected, supplierId: string): seq<string> {
    if supplierId in sel then sel[supplierId] else []
  }

  /** The test `id !== productId` of the filter in the click handler. */
  function Other(productId: string): string -> bool {
    q => q != productId
  }

  /** `ids` without any occurrence of `productId`, the others in order. */
  function RemoveAll(ids: seq<string>, productId: string): (r: seq<string>)
    ensures productId !in r
    ensures forall q :: q in ids && q != productId ==> multiset(r)[q] == multiset(ids)[q]
    ensures forall q :: q in r ==> q in ids
  {
    FilterMultiplicity(ids, Other(productId));
    Filter(ids, Other(productId))
  }

  /** One click on row `productId`: an unselected row is appended at the end,
      a selected one is removed. */
  function Toggle(ids: seq<string>, productId: string): (r: seq<string>)
    ensures productId in r <==> productId !in ids
    ensures forall q :: q != productId ==> multiset(r)[q] == multiset(ids)[q]
    ensures productId !in ids ==> r == ids + [productId]
  {
    if productId !in ids then ids + [productId] else RemoveAll(ids, productId)
  }

  /** The whole table after a click on row (`supplierId`, `productId`).
      `onField` says that the click landed on an input or text area. */
  function Click(sel: Selected, onField: bool, supplierId: string, productId: string): (r: Selected)
    ensures onField ==> r == sel
    ensures !onField ==> supplierId in r && r[supplierId] == Toggle(Get(sel, supplierId), productId)
    ensures r.Keys == if onField then sel.Keys else sel.Keys + {supplierId}
    ensures forall k :: k in sel && k != supplierId ==> r[k] == sel[k]
  {
    if onField then sel else sel[supplierId := Toggle(Get(sel, supplierId), productId)]
  }

  /** Deselecting a row that was selected once removes exactly that entry and
      keeps the rows before and after it in their order. */
  lemma ToggleOffUnique(before: seq<string>, productId: string, after: seq<string>)
    requires productId !in before && productId !in after
    ensures Toggle(before + [productId] + after, productId) == before + after
  {
    var ids := before + [productId] + after;
    assert productId in ids;
    assert Toggle(ids, productId) == Filter(ids, Other(productId));
    FilterDropsOne(before, productId, after, Other(productId));
  }

  /** Two clicks on an unselected row give back the original selection. */
  lemma ToggleTwice(ids: seq<string>, productId: string)
    requires productId !in ids
    ensures Toggle(Toggle(ids, productId), productId) == ids
  {
    ToggleOffUnique(ids, productId, []);
    assert ids + [productId] + [] == ids + [productId];
    assert ids + [] == ids;
  }

  /** Two clicks on a selected row keep it selected but move it to the end. */
  lemma ToggleTwiceSelected(ids: seq<string>, productId: string)
    requires productId in ids
    ensures Toggle(Toggle(ids, productId), productId) == RemoveAll(ids, productId) + [productId]
  {
  }

  /** Toggling never lets a row be selected twice. */
  lemma ToggleKeepsNoDup(ids: seq<string>, productId: string)
    requires NoDup(ids)
    ensures NoDup(Toggle(ids, productId))
  {
    if productId in ids {
      FilterNoDup(ids, Other(productId));
    } else {
      var r := ids + [productId];
      forall i, j | 0 <= i < j < |r| ensures r[i] != r[j] {
        if j == |ids| {
          assert r[i] == ids[i];
        }
      }
    }
  }

  /** Two clicks outside an input on the same unselected row leave the
      supplier's selection as it was (an absent entry becomes the empty one)
      and every other supplier's untouched. */
  lemma ClickTwice(sel: Selected, supplierId: string, productId: string)
    requires productId !in Get(sel, supplierId)
    ensures Click(Click(sel, false, supplierId, productId), false, supplierId, productId)
            == sel[supplierId := Get(sel, supplierId)]
  {
    ToggleTwice(Get(sel, supplierId), productId);
  }
}
