/** The history files as values: one JSON object per resolution, mapping an
    item id to its window oldest-first. Saving builds those objects from the
    store; loading rebuilds the store from them, cutting every window to its
    resolution's capacity. The file system and the JSON text are not
    modelled. */
module Persistence {
  import opened Policy
  import opened Windows
  import opened History

  /** The content of one history file. */
  type HistoryFile = map<ItemId, Window>

  /** The content of the history files; a resolution without a key has no file. */
  type Image = map<Resolution, HistoryFile>

  /** Some window among `slots` is non-empty. */
  predicate HasData(slots: Slots)
  {
    exists r :: r in slots && |slots[r]| > 0
  }

  /** The object written for resolution `r`: the items that have a non-empty
      window there, each with that window. */
  function SaveFile(store: Store, r: Resolution): (file: HistoryFile)
    ensures forall i :: i in file <==> |SlotOf(store, i, r)| > 0
    ensures forall i :: i in file ==> file[i] == SlotOf(store, i, r)
  {
    map i | i in store && r in store[i] && |store[i][r]| > 0 :: store[i][r]
  }

  /** What a save writes: one file per resolution of the policy. */
  function SaveImage(store: Store): (img: Image)
    ensures forall r :: r in img
    ensures forall r :: img[r] == SaveFile(store, r)
  {
    OrderIsComplete();
    map r | r in Order :: SaveFile(store, r)
  }

  /** The items named in any of the files. */
  function Listed(img: Image): set<ItemId>
  {
    set r, i | r in img && i in img[r] :: i
  }

  /** The slots a load gives `i`: one per file naming it, holding the newest
      `Capacity` points of the stored list. */
  function LoadSlots(img: Image, i: ItemId): (slots: Slots)
    ensures SlotsWellFormed(slots)
    ensures forall r :: r in slots <==> r in img && i in img[r]
  {
    map r | r in img && i in img[r] :: LoadFrom(img[r][i], Capacity(r))
  }

  /** What a load rebuilds, starting from an empty store: every item named in
      some file, with the slots the files give it. Each resolution writes only
      its own slot, so the order in which the files are read does not matter. */
  function LoadImage(img: Image): (store: Store)
    ensures WellFormed(store)
    ensures forall i :: i in store <==> exists r :: r in img && i in img[r]
    ensures forall i :: i in store ==> store[i] == LoadSlots(img, i)
  {
    assert forall i :: i in Listed(img) <==> exists r :: r in img && i in img[r];
    map i | i in Listed(img) :: LoadSlots(img, i)
  }

  /** A loaded window is the newest `Capacity` points of the stored list, in
      the stored order, and the whole list when it fits. */
  lemma LoadKeepsNewest(img: Image, r: Resolution, i: ItemId)
    requires r in img && i in img[r]
    ensures var w := LoadImage(img)[i][r];
      && |w| == Min(|img[r][i]|, Capacity(r))
      && w == img[r][i][|img[r][i]| - |w|..]
      && (|img[r][i]| <= Capacity(r) ==> w == img[r][i])
  {
    assert i in Listed(img);
  }

  /** One item's slots without the empty windows. */
  function PruneSlots(slots: Slots): (pruned: Slots)
    ensures forall r :: r in pruned <==> r in slots && |slots[r]| > 0
    ensures forall r :: r in pruned ==> pruned[r] == slots[r]
  {
    map r | r in slots && |slots[r]| > 0 :: slots[r]
  }

  /** The store without empty windows and without items left with no data:
      what survives a save. */
  function Prune(store: Store): (pruned: Store)
    ensures forall i :: i in pruned <==> i in store && HasData(store[i])
    ensures forall i :: i in pruned ==> pruned[i] == PruneSlots(store[i])
  {
    map i | i in store && HasData(store[i]) :: PruneSlots(store[i])
  }

  /** Every item has data and no window is empty. */
  predicate Dense(store: Store)
  {
    forall i :: i in store ==> HasData(store[i]) && forall r :: r in store[i] ==> |store[i][r]| > 0
  }

  /** The slots saved for one item load back as that item's non-empty windows. */
  lemma SaveLoadSlots(store: Store, i: ItemId)
    requires WellFormed(store)
    requires i in store
    ensures LoadSlots(SaveImage(store), i) == PruneSlots(store[i])
  {
    var img := SaveImage(store);
    var back := LoadSlots(img, i);
    var pruned := PruneSlots(store[i]);
    forall r ensures r in back <==> r in pruned {
      assert i in img[r] <==> |SlotOf(store, i, r)| > 0;
    }
    forall r | r in back ensures back[r] == pruned[r] {
      assert img[r][i] == store[i][r];
    }
  }

  /** Saving and loading back gives the store without its empty windows and
      data-less items. */
  lemma SaveLoadRoundTrip(store: Store)
    requires WellFormed(store)
    ensures LoadImage(SaveImage(store)) == Prune(store)
  {
    var back := LoadImage(SaveImage(store));
    var pruned := Prune(store);
    forall i ensures i in back <==> i in pruned {
      SaveLoadItems(store, i);
    }
    forall i | i in back ensures back[i] == pruned[i] {
      SaveLoadSlots(store, i);
    }
    assert back.Keys == pruned.Keys;
  }

  /** An item comes back from a save exactly when it had some data. */
  lemma SaveLoadItems(store: Store, i: ItemId)
    requires WellFormed(store)
    ensures i in LoadImage(SaveImage(store)) <==> i in Prune(store)
  {
    var img := SaveImage(store);
    if i in store && HasData(store[i]) {
      var r :| r in store[i] && |store[i][r]| > 0;
      assert i in img[r];
    }
    if i in LoadImage(img) {
      var r :| r in img && i in img[r];
      assert |SlotOf(store, i, r)| > 0;
    }
  }

  /** Slots without empty windows are their own pruning. */
  lemma PruneSlotsDense(slots: Slots)
    requires forall r :: r in slots ==> |slots[r]| > 0
    ensures PruneSlots(slots) == slots
  {
    assert forall r :: r in PruneSlots(slots) <==> r in slots;
  }

  /** On a dense store, pruning changes nothing: save and load is the identity. */
  lemma DenseSurvivesSave(store: Store)
    requires WellFormed(store)
    requires Dense(store)
    ensures LoadImage(SaveImage(store)) == store
  {
    SaveLoadRoundTrip(store);
    PruneDense(store);
  }

  /** A dense store is its own pruning. */
  lemma PruneDense(store: Store)
    requires Dense(store)
    ensures Prune(store) == store
  {
    var pruned := Prune(store);
    assert forall i :: i in pruned <==> i in store;
    forall i | i in store ensures pruned[i] == store[i] {
      PruneSlotsDense(store[i]);
    }
  }

  /** A store loaded from files whose lists are all non-empty is dense; in
      particular every store loaded from what a save wrote. */
  lemma LoadedIsDense(img: Image)
    requires forall r, i :: r in img && i in img[r] ==> |img[r][i]| > 0
    ensures Dense(LoadImage(img))
  {
    var store := LoadImage(img);
    forall i | i in store ensures HasData(store[i]) && forall r :: r in store[i] ==> |store[i][r]| > 0 {
      var r :| r in img && i in img[r];
      assert r in store[i];
    }
  }

  /** A window of the admitted item is non-empty after the admission when
      it was admitted to or was non-empty before. */
  lemma AdmitWindowDense(store: Store, item: ItemId, name: string, price: int, now: nat, r: Resolution)
    requires WellFormed(store)
    requires item in store
    ensures var slots := Admit(store, item, name, price, now).store[item];
      && (r in slots && r !in store[item] ==> |slots[r]| > 0)
      && (r in store[item] ==> r in slots && (|store[item][r]| > 0 ==> |slots[r]| > 0))
  {
    var a := Admit(store, item, name, price, now);
    if r in a.admitted {
      AdmitAppendsPoint(store, item, name, price, now);
      AppendEvictsOldest(SlotOf(store, item, r), PricePoint(now, price, name), Capacity(r));
    } else {
      AdmitKeepsClosedSlots(store, item, name, price, now);
    }
  }

  /** The slots of an admitted item stay dense. */
  lemma AdmitKeepsItemDense(store: Store, item: ItemId, name: string, price: int, now: nat)
    requires WellFormed(store)
    requires Dense(store)
    ensures var slots := Admit(store, item, name, price, now).store[item];
      HasData(slots) && forall r :: r in slots ==> |slots[r]| > 0
  {
    var after := Admit(store, item, name, price, now).store[item];
    if item !in store {
      FirstAdmissionWindow(store, item, name, price, now, Hourly);
      forall r | r in after ensures |after[r]| > 0 {
        FirstAdmissionWindow(store, item, name, price, now, r);
      }
    } else {
      forall r | r in after ensures |after[r]| > 0 {
        AdmitWindowDense(store, item, name, price, now, r);
      }
      var r0 :| r0 in store[item] && |store[item][r0]| > 0;
      AdmitWindowDense(store, item, name, price, now, r0);
    }
  }

  /** Admitting a point keeps a store dense: admitted windows gain the point,
      the others are untouched, and a new item gets all three windows. */
  lemma AdmitKeepsDense(store: Store, item: ItemId, name: string, price: int, now: nat)
    requires WellFormed(store)
    requires Dense(store)
    ensures Dense(Admit(store, item, name, price, now).store)
  {
    var a := Admit(store, item, name, price, now);
    AdmitKeepsItemDense(store, item, name, price, now);
    forall i | i in a.store && i != item
      ensures HasData(a.store[i]) && forall r :: r in a.store[i] ==> |a.store[i][r]| > 0
    {
      assert a.store[i] == store[i];
    }
  }
}
