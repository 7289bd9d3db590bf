/** The data of a price chart for one item at one resolution
    (`generate_chart_data`): one label and one price per stored point,
    oldest first. Label formatting is a parameter; styling is not modelled. */
module Charts {
  import opened Wrappers
  import opened Policy
  import opened Windows
  import opened History

  /** The label list and the price list of a chart. */
  datatype Chart = Chart(labels: seq<string>, data: seq<int>)

  /** The prices of a window, oldest first. */
  function Prices(w: Window): (ps: seq<int>)
    ensures |ps| == |w|
    ensures forall k :: 0 <= k < |w| ==> ps[k] == w[k].price
  {
    seq(|w|, k requires 0 <= k < |w| => w[k].price)
  }

  /** The chart of the window at (item, res): none when the item, its slot
      or the window's points are missing, otherwise a label per point made by
      `format` from the resolution and the point's time, and the point's
      price, in stored order. */
  function ChartData(store: Store, item: ItemId, res: Resolution, format: (Resolution, nat) -> string): (c: Option<Chart>)
    ensures c.None? <==> |SlotOf(store, item, res)| == 0
    ensures c.Some? ==>
      var w := SlotOf(store, item, res);
      && |c.value.labels| == |c.value.data| == |w|
      && (forall k :: 0 <= k < |w| ==> c.value.data[k] == w[k].price)
      && (forall k :: 0 <= k < |w| ==> c.value.labels[k] == format(res, w[k].timestamp))
  {
    if item !in store then None
    else if res !in store[item] then None
    else
      var history := store[item][res];
      if |history| == 0 then None
      else Some(Chart(seq(|history|, k requires 0 <= k < |history| => format(res, history[k].timestamp)), Prices(history)))
  }

  /** The prices of a window after an append: the old prices, the oldest
      dropped when the window was full, then the new price. */
  lemma PricesAfterAppend(w: Window, p: PricePoint, cap: nat)
    requires 0 < cap && |w| <= cap
    ensures Prices(Append(w, p, cap)) == (if |w| < cap then Prices(w) else Prices(w)[1..]) + [p.price]
  {
    AppendEvictsOldest(w, p, cap);
    var before := Prices(w);
    var expected := (if |w| < cap then before else before[1..]) + [p.price];
    var after := Prices(Append(w, p, cap));
    assert |after| == |expected|;
    forall k | 0 <= k < |expected| ensures after[k] == expected[k] {
    }
  }

  /** The prices of a chart are the prices of its window. */
  lemma ChartDataIsPrices(store: Store, item: ItemId, res: Resolution, format: (Resolution, nat) -> string)
    requires ChartData(store, item, res, format).Some?
    ensures ChartData(store, item, res, format).value.data == Prices(SlotOf(store, item, res))
  {
    var c := ChartData(store, item, res, format).value;
    assert |c.data| == |Prices(SlotOf(store, item, res))|;
  }

  /** After an admission, the chart of an admitted resolution ends with the
      new price, after the previous chart's prices with the oldest dropped
      when the window was full. */
  lemma ChartAfterAdmit(store: Store, item: ItemId, name: string, price: int, now: nat, res: Resolution,
                        format: (Resolution, nat) -> string)
    requires WellFormed(store)
    requires res in Admit(store, item, name, price, now).admitted
    ensures var before := Prices(SlotOf(store, item, res));
      var c := ChartData(Admit(store, item, name, price, now).store, item, res, format);
      && c.Some?
      && c.value.data == (if |before| < Capacity(res) then before else before[1..]) + [price]
  {
    var a := Admit(store, item, name, price, now);
    var w := SlotOf(store, item, res);
    var pt := PricePoint(now, price, name);
    AdmitAppendsPoint(store, item, name, price, now);
    assert SlotOf(a.store, item, res) == Append(w, pt, Capacity(res));
    AppendEvictsOldest(w, pt, Capacity(res));
    PricesAfterAppend(w, pt, Capacity(res));
    ChartDataIsPrices(a.store, item, res, format);
  }

  /** The chart of a window holding one point. */
  lemma ChartOfOnePoint(store: Store, item: ItemId, res: Resolution, pt: PricePoint, format: (Resolution, nat) -> string)
    requires SlotOf(store, item, res) == [pt]
    ensures ChartData(store, item, res, format) == Some(Chart([format(res, pt.timestamp)], [pt.price]))
  {
    var c := ChartData(store, item, res, format).value;
    assert c.labels == [format(res, pt.timestamp)] && c.data == [pt.price];
  }

  /** A never-seen item, once admitted, has at every resolution the chart of
      its one point. */
  lemma ChartOfNewItem(store: Store, item: ItemId, name: string, price: int, now: nat, res: Resolution,
                       format: (Resolution, nat) -> string)
    requires WellFormed(store)
    requires item !in store
    ensures ChartData(Admit(store, item, name, price, now).store, item, res, format) == Some(Chart([format(res, now)], [price]))
  {
    FirstAdmissionWindow(store, item, name, price, now, res);
    ChartOfOnePoint(Admit(store, item, name, price, now).store, item, res, PricePoint(now, price, name), format);
  }
}
