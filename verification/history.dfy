/** The history store: for every item, one window per resolution, together
    with the admission gate that rate-limits each resolution and the
    admission step that appends a snapshot price to every open resolution. */
module History {
  import opened Wrappers
  import opened Policy
  import opened Windows

  type ItemId = string

  /** The windows of one item, keyed by resolution; a slot exists only once a
      point has been admitted there (or loaded for it). */
  type Slots = map<Resolution, Window>

  type Store = map<ItemId, Slots>

  /** The window at (item, res), with a missing item or slot read as empty. */
  function SlotOf(store: Store, item: ItemId, res: Resolution): Window
  {
    if item in store && res in store[item] then store[item][res] else []
  }

  /** Every window of one item respects its resolution's capacity. */
  predicate SlotsWellFormed(slots: Slots)
  {
    forall r :: r in slots ==> |slots[r]| <= Capacity(r)
  }

  /** Every window of the store respects its resolution's capacity. */
  predicate WellFormed(store: Store)
  {
    forall i :: i in store ==> SlotsWellFormed(store[i])
  }

  /** The window of `res` among one item's slots, a missing slot read as empty. */
  function SlotIn(slots: Slots, res: Resolution): Window
  {
    if res in slots then slots[res] else []
  }

  /** The gate as a condition on the window alone: empty, or its newest point
      at least one admission period before `now`. */
  predicate GateOpen(w: Window, res: Resolution, now: nat)
  {
    var newest := Latest(w);
    newest.None? || now - newest.value.timestamp >= Interval(res)
  }

  /** The admission gate of one (item, resolution) slot at time `now`
      (`should_update_interval`): open when the item or its slot is missing,
      when the window is empty, or when at least one admission period has
      passed since the newest point. A newest point stamped after `now`
      keeps the gate shut. */
  predicate ShouldAdmit(store: Store, item: ItemId, res: Resolution, now: nat)
    ensures ShouldAdmit(store, item, res, now) <==> GateOpen(SlotOf(store, item, res), res, now)
  {
    if item !in store then true
    else if res !in store[item] then true
    else if |store[item][res]| == 0 then true
    else
      var newest := Latest(store[item][res]).value;
      now - newest.timestamp >= Interval(res)
  }

  /** No resolution of `item` would accept a point at `now`. */
  predicate Settled(store: Store, item: ItemId, now: nat)
  {
    forall r :: !ShouldAdmit(store, item, r, now)
  }

  /** Whether an item is settled depends on that item's slots alone. */
  lemma SettledReadsOnlyItem(s1: Store, s2: Store, item: ItemId, now: nat)
    requires item in s1 && item in s2 && s1[item] == s2[item]
    requires Settled(s1, item, now)
    ensures Settled(s2, item, now)
  {
    forall r ensures !ShouldAdmit(s2, item, r, now) {
      assert !ShouldAdmit(s1, item, r, now);
      assert SlotOf(s1, item, r) == SlotOf(s2, item, r);
    }
  }

  /** One item's slots during an admission, and the resolutions admitted so far. */
  datatype SlotsAdmission = SlotsAdmission(slots: Slots, admitted: seq<Resolution>)

  /** One iteration of the admission loop: if the gate of `r` is open, append
      `p` to its window (creating the window when missing) and record `r`. */
  function AdmitOne(acc: SlotsAdmission, r: Resolution, p: PricePoint): (next: SlotsAdmission)
    requires SlotsWellFormed(acc.slots)
    ensures SlotsWellFormed(next.slots)
  {
    if GateOpen(SlotIn(acc.slots, r), r, p.timestamp) then
      SlotsAdmission(acc.slots[r := Append(SlotIn(acc.slots, r), p, Capacity(r))], acc.admitted + [r])
    else
      acc
  }

  /** The admission loop over the resolutions `rs`, in order. */
  function AdmitSlots(acc: SlotsAdmission, p: PricePoint, rs: seq<Resolution>): (a: SlotsAdmission)
    requires SlotsWellFormed(acc.slots)
    ensures SlotsWellFormed(a.slots)
    decreases |rs|
  {
    if |rs| == 0 then acc else AdmitSlots(AdmitOne(acc, rs[0], p), p, rs[1..])
  }

  /** One step leaves every slot other than its own as it was. */
  lemma AdmitOneTouchesOnly(acc: SlotsAdmission, r: Resolution, p: PricePoint, x: Resolution)
    requires SlotsWellFormed(acc.slots)
    requires x != r
    ensures var next := AdmitOne(acc, r, p);
      && (x in next.slots <==> x in acc.slots)
      && (x in acc.slots ==> next.slots[x] == acc.slots[x])
      && SlotIn(next.slots, x) == SlotIn(acc.slots, x)
  {
  }

  /** Slots the loop does not admit keep their presence and contents: a slot
      is touched only by the iteration for its own resolution, and only when
      that resolution's gate is open. */
  lemma {:induction false} AdmitSlotsKeepsClosed(acc: SlotsAdmission, p: PricePoint, rs: seq<Resolution>, x: Resolution)
    requires SlotsWellFormed(acc.slots)
    requires !(x in rs && GateOpen(SlotIn(acc.slots, x), x, p.timestamp))
    ensures var a := AdmitSlots(acc, p, rs);
      (x in a.slots <==> x in acc.slots) && (x in acc.slots ==> a.slots[x] == acc.slots[x])
    decreases |rs|
  {
    if |rs| > 0 {
      var next := AdmitOne(acc, rs[0], p);
      if x == rs[0] {
        assert next == acc;
      } else {
        AdmitOneTouchesOnly(acc, rs[0], p, x);
      }
      assert x !in rs[1..] || !GateOpen(SlotIn(next.slots, x), x, p.timestamp);
      AdmitSlotsKeepsClosed(next, p, rs[1..], x);
    }
  }

  /** A resolution visited with its gate open ends with `p` appended to its
      old window; the policy order visits it once, so no later iteration
      undoes that. */
  lemma {:induction false} AdmitSlotsAppends(acc: SlotsAdmission, p: PricePoint, rs: seq<Resolution>, x: Resolution)
    requires SlotsWellFormed(acc.slots)
    requires InPolicyOrder(rs)
    requires x in rs && GateOpen(SlotIn(acc.slots, x), x, p.timestamp)
    ensures var a := AdmitSlots(acc, p, rs);
      x in a.slots && a.slots[x] == Append(SlotIn(acc.slots, x), p, Capacity(x))
    decreases |rs|
  {
    var next := AdmitOne(acc, rs[0], p);
    TailRanksAbove(rs);
    if x == rs[0] {
      assert x !in rs[1..];
      AdmitSlotsKeepsClosed(next, p, rs[1..], x);
    } else {
      AdmitOneTouchesOnly(acc, rs[0], p, x);
      assert x in rs[1..];
      AdmitSlotsAppends(next, p, rs[1..], x);
    }
  }

  /** Exactly the visited resolutions whose gate was open are added to the
      admitted list, and the list stays in policy order. */
  lemma {:induction false} AdmitSlotsAdmitsOpenGates(acc: SlotsAdmission, p: PricePoint, rs: seq<Resolution>)
    requires SlotsWellFormed(acc.slots)
    requires InPolicyOrder(acc.admitted + rs)
    ensures InPolicyOrder(AdmitSlots(acc, p, rs).admitted)
    ensures forall x :: x in AdmitSlots(acc, p, rs).admitted <==>
      x in acc.admitted || (x in rs && GateOpen(SlotIn(acc.slots, x), x, p.timestamp))
    decreases |rs|
  {
    if |rs| == 0 {
      assert acc.admitted + rs == acc.admitted;
    } else {
      var r := rs[0];
      var next := AdmitOne(acc, r, p);
      var open := GateOpen(SlotIn(acc.slots, r), r, p.timestamp);
      assert acc.admitted + rs == acc.admitted + [r] + rs[1..];
      if open {
        assert next.admitted + rs[1..] == acc.admitted + rs;
      } else {
        DropInPolicyOrder(acc.admitted, r, rs[1..]);
      }
      AdmitSlotsAdmitsOpenGates(next, p, rs[1..]);
      var a := AdmitSlots(next, p, rs[1..]);
      forall x ensures x in a.admitted <==>
        x in acc.admitted || (x in rs && GateOpen(SlotIn(acc.slots, x), x, p.timestamp))
      {
        assert x in rs <==> x == r || x in rs[1..] by {
          assert rs == [r] + rs[1..];
        }
        assert x in next.admitted <==> x in acc.admitted || (x == r && open) by {
          AdmitOneRecords(acc, r, p);
          assert x in acc.admitted + [r] <==> x in acc.admitted || x == r;
        }
        if x != r {
          AdmitOneTouchesOnly(acc, r, p, x);
        }
      }
    }
  }

  /** One step records its own resolution exactly when that gate is open. */
  lemma AdmitOneRecords(acc: SlotsAdmission, r: Resolution, p: PricePoint)
    requires SlotsWellFormed(acc.slots)
    ensures AdmitOne(acc, r, p).admitted ==
      if GateOpen(SlotIn(acc.slots, r), r, p.timestamp) then acc.admitted + [r] else acc.admitted
  {
  }

  /** The store after an admission, and the resolutions admitted, in policy order. */
  datatype Admission = Admission(store: Store, admitted: seq<Resolution>)

  /** Admission of one snapshot price (`update_price_history`): the item is
      created if new and only its windows may change; every other item is
      left as it was. */
  function Admit(store: Store, item: ItemId, name: string, price: int, now: nat): (a: Admission)
    requires WellFormed(store)
    ensures WellFormed(a.store)
    ensures a.store.Keys == store.Keys + {item}
    ensures forall other :: other in store && other != item ==> a.store[other] == store[other]
  {
    var slots := if item in store then store[item] else map[];
    var a := AdmitSlots(SlotsAdmission(slots, []), PricePoint(now, price, name), Order);
    ReplaceSlots(store, item, a.slots);
    Admission(store[item := a.slots], a.admitted)
  }

  /** Replacing one item's slots by well-formed ones keeps the store
      well-formed and every other item as it was. */
  lemma ReplaceSlots(store: Store, item: ItemId, slots: Slots)
    requires WellFormed(store)
    requires SlotsWellFormed(slots)
    ensures WellFormed(store[item := slots])
    ensures store[item := slots].Keys == store.Keys + {item}
    ensures forall other :: other in store && other != item ==> store[item := slots][other] == store[other]
  {
  }

  /** The gate decides admission: a resolution is admitted exactly when its
      gate is open at `now`, and the admitted resolutions are listed in
      policy order. */
  lemma AdmitFollowsGates(store: Store, item: ItemId, name: string, price: int, now: nat)
    requires WellFormed(store)
    ensures InPolicyOrder(Admit(store, item, name, price, now).admitted)
    ensures forall r :: r in Admit(store, item, name, price, now).admitted <==> ShouldAdmit(store, item, r, now)
  {
    var slots := if item in store then store[item] else map[];
    OrderIsComplete();
    assert [] + Order == Order;
    assert forall r :: SlotIn(slots, r) == SlotOf(store, item, r);
    AdmitSlotsAdmitsOpenGates(SlotsAdmission(slots, []), PricePoint(now, price, name), Order);
  }

  /** Every admitted resolution receives the same point {now, price, name}
      at its newest end, after the window's older contents. */
  lemma AdmitAppendsPoint(store: Store, item: ItemId, name: string, price: int, now: nat)
    requires WellFormed(store)
    ensures var a := Admit(store, item, name, price, now);
      forall r :: r in a.admitted ==>
        r in a.store[item] && a.store[item][r] == Append(SlotOf(store, item, r), PricePoint(now, price, name), Capacity(r))
  {
    var slots := if item in store then store[item] else map[];
    var pt := PricePoint(now, price, name);
    AdmitFollowsGates(store, item, name, price, now);
    OrderIsComplete();
    forall r | ShouldAdmit(store, item, r, now)
      ensures var a := AdmitSlots(SlotsAdmission(slots, []), pt, Order);
        r in a.slots && a.slots[r] == Append(SlotIn(slots, r), pt, Capacity(r))
    {
      assert SlotIn(slots, r) == SlotOf(store, item, r);
      AdmitSlotsAppends(SlotsAdmission(slots, []), pt, Order, r);
    }
  }

  /** An admitted window below capacity loses nothing: it is the old window
      followed by the new point. */
  lemma AdmitGrowsWindow(store: Store, item: ItemId, name: string, price: int, now: nat, r: Resolution)
    requires WellFormed(store)
    requires r in Admit(store, item, name, price, now).admitted
    requires |SlotOf(store, item, r)| < Capacity(r)
    ensures var slots := Admit(store, item, name, price, now).store[item];
      r in slots && slots[r] == SlotOf(store, item, r) + [PricePoint(now, price, name)]
  {
    AdmitAppendsPoint(store, item, name, price, now);
    AppendEvictsOldest(SlotOf(store, item, r), PricePoint(now, price, name), Capacity(r));
  }

  /** Every resolution that is not admitted keeps its slot's presence and
      contents; since a new item has every gate open, only an existing item
      can have such resolutions. */
  lemma AdmitKeepsClosedSlots(store: Store, item: ItemId, name: string, price: int, now: nat)
    requires WellFormed(store)
    ensures var a := Admit(store, item, name, price, now);
      forall r :: r !in a.admitted ==>
        item in store && (r in a.store[item] <==> r in store[item]) && (r in store[item] ==> a.store[item][r] == store[item][r])
  {
    var slots := if item in store then store[item] else map[];
    var pt := PricePoint(now, price, name);
    AdmitFollowsGates(store, item, name, price, now);
    OrderIsComplete();
    forall r | !ShouldAdmit(store, item, r, now)
      ensures var a := AdmitSlots(SlotsAdmission(slots, []), pt, Order);
        item in store && (r in a.slots <==> r in slots) && (r in slots ==> a.slots[r] == slots[r])
    {
      assert SlotIn(slots, r) == SlotOf(store, item, r);
      AdmitSlotsKeepsClosed(SlotsAdmission(slots, []), pt, Order, r);
    }
  }

  /** An admission that admits nothing changes nothing: the item's entry is
      created only together with its first points. */
  lemma NoAdmissionNoChange(store: Store, item: ItemId, name: string, price: int, now: nat)
    requires WellFormed(store)
    requires Admit(store, item, name, price, now).admitted == []
    ensures Admit(store, item, name, price, now).store == store
  {
    var a := Admit(store, item, name, price, now);
    AdmitKeepsClosedSlots(store, item, name, price, now);
    assert Hourly !in a.admitted;
    var before, after := store[item], a.store[item];
    assert forall r :: r in after <==> r in before;
    assert forall r :: r in after ==> after[r] == before[r];
    assert after == before;
    assert a.store == store[item := after];
  }

  /** After an admission at `now`, no gate of the item is open at `now`: every
      admitted window ends with a point stamped `now`, and every period is
      positive; the other windows were closed already and did not change. */
  lemma AdmitSettles(store: Store, item: ItemId, name: string, price: int, now: nat)
    requires WellFormed(store)
    ensures Settled(Admit(store, item, name, price, now).store, item, now)
  {
    var a := Admit(store, item, name, price, now);
    var pt := PricePoint(now, price, name);
    AdmitFollowsGates(store, item, name, price, now);
    AdmitAppendsPoint(store, item, name, price, now);
    AdmitKeepsClosedSlots(store, item, name, price, now);
    forall r ensures !ShouldAdmit(a.store, item, r, now) {
      if r in a.admitted {
        AppendEvictsOldest(SlotOf(store, item, r), pt, Capacity(r));
      } else {
        assert SlotOf(a.store, item, r) == SlotOf(store, item, r);
      }
    }
  }

  /** An item whose gates are all closed at `now` is left exactly as it is. */
  lemma SettledAdmitIsNoOp(store: Store, item: ItemId, name: string, price: int, now: nat)
    requires WellFormed(store)
    requires Settled(store, item, now)
    ensures Admit(store, item, name, price, now) == Admission(store, [])
  {
    var a := Admit(store, item, name, price, now);
    AdmitFollowsGates(store, item, name, price, now);
    PolicyOrderIsCanonical(a.admitted, []);
    NoAdmissionNoChange(store, item, name, price, now);
  }

  /** Idempotence at a fixed clock: admitting the item again at the same
      `now`, whatever the name and price, admits nothing and leaves the
      store as the first admission left it. */
  lemma AdmitIdempotent(store: Store, item: ItemId, name: string, price: int,
                        name': string, price': int, now: nat)
    requires WellFormed(store)
    ensures var first := Admit(store, item, name, price, now);
      Admit(first.store, item, name', price', now) == Admission(first.store, [])
  {
    AdmitSettles(store, item, name, price, now);
    SettledAdmitIsNoOp(Admit(store, item, name, price, now).store, item, name', price', now);
  }

  /** Slots that hold the same windows at all three resolutions are equal. */
  lemma SameThreeSlots(a: Slots, h: Window, hd: Window, d: Window)
    requires Hourly in a && a[Hourly] == h
    requires HalfDaily in a && a[HalfDaily] == hd
    requires Daily in a && a[Daily] == d
    ensures a == map[Hourly := h, HalfDaily := hd, Daily := d]
  {
    var b := map[Hourly := h, HalfDaily := hd, Daily := d];
    forall r ensures (r in a <==> r in b) && (r in a ==> a[r] == b[r]) {
      match r
      case Hourly =>
      case HalfDaily =>
      case Daily =>
    }
  }

  /** A never-seen item has every gate open, so it is admitted at every
      resolution, in policy order. */
  lemma FirstAdmissionAdmitsAll(store: Store, item: ItemId, name: string, price: int, now: nat)
    requires WellFormed(store)
    requires item !in store
    ensures Admit(store, item, name, price, now).admitted == Order
  {
    var a := Admit(store, item, name, price, now);
    OrderIsComplete();
    AdmitFollowsGates(store, item, name, price, now);
    PolicyOrderIsCanonical(a.admitted, Order);
  }

  /** Each window of a newly admitted item holds exactly the new point. */
  lemma FirstAdmissionWindow(store: Store, item: ItemId, name: string, price: int, now: nat, r: Resolution)
    requires WellFormed(store)
    requires item !in store
    ensures var slots := Admit(store, item, name, price, now).store[item];
      r in slots && slots[r] == [PricePoint(now, price, name)]
  {
    var pt := PricePoint(now, price, name);
    FirstAdmissionAdmitsAll(store, item, name, price, now);
    OrderIsComplete();
    AdmitAppendsPoint(store, item, name, price, now);
    AppendEvictsOldest([], pt, Capacity(r));
  }

  /** A never-seen item is admitted at every resolution, in policy order, and
      each of its three windows then holds exactly the one new point. */
  lemma FirstAdmission(store: Store, item: ItemId, name: string, price: int, now: nat)
    requires WellFormed(store)
    requires item !in store
    ensures var a := Admit(store, item, name, price, now);
      var pt := PricePoint(now, price, name);
      && a.admitted == Order
      && a.store[item] == map[Hourly := [pt], HalfDaily := [pt], Daily := [pt]]
  {
    FirstAdmissionAdmitsAll(store, item, name, price, now);
    FirstAdmissionWindow(store, item, name, price, now, Hourly);
    FirstAdmissionWindow(store, item, name, price, now, HalfDaily);
    FirstAdmissionWindow(store, item, name, price, now, Daily);
    var pt := PricePoint(now, price, name);
    SameThreeSlots(Admit(store, item, name, price, now).store[item], [pt], [pt], [pt]);
  }

  /** The gate is monotone in time: once open at `now`, it stays open at any
      later time while the window is unchanged. */
  lemma GateStaysOpen(store: Store, item: ItemId, res: Resolution, now: nat, later: nat)
    requires ShouldAdmit(store, item, res, now)
    requires now <= later
    ensures ShouldAdmit(store, item, res, later)
  {
  }
}
