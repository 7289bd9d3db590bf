/** Ingestion of a price snapshot (the in-memory part of
    `update_from_current_prices`): every entry is validated, its price text
    cleaned and parsed, and a valid entry is admitted into the store at `now`;
    the run counts the entries that admitted at least one resolution and
    writes the history files only when that count is positive. */
module Ingestion {
  import opened Wrappers
  import opened Policy
  import opened Windows
  import opened History
  import opened PriceText
  import opened Persistence

  /** A JSON value read for a key of an entry: missing or null, a string, or
      an integer. */
  datatype Field = Absent | Text(text: string) | Number(value: int)

  /** Python truthiness of a field: a non-empty string or a non-zero number. */
  predicate Truthy(f: Field)
  {
    match f
    case Absent => false
    case Text(s) => |s| > 0
    case Number(n) => n != 0
  }

  /** `str()` of a present field. */
  function Render(f: Field): string
    requires f != Absent
  {
    match f
    case Text(s) => s
    case Number(n) => IntText(n)
  }

  /** One value of the snapshot object: something that is not a (non-empty)
      object, or an object with its `item_name` and `item_price` fields. */
  datatype Entry = NotRecord | Record(name: Option<string>, price: Field)

  /** The snapshot object, in the order its keys are iterated. */
  type Snapshot = seq<(ItemId, Entry)>

  /** A valid entry: its non-empty name and its positive price. */
  datatype Accepted = Accepted(name: string, price: nat)

  /** The three independent reasons an entry is skipped. */
  predicate NotAnObject(e: Entry)
  {
    e.NotRecord?
  }

  predicate FalsyField(e: Entry)
  {
    e.Record? && (e.name.None? || |e.name.value| == 0 || !Truthy(e.price))
  }

  predicate UnreadablePrice(e: Entry)
  {
    && e.Record? && e.name.Some? && |e.name.value| > 0 && Truthy(e.price)
    && match ReadPrice(Render(e.price))
       case None => true
       case Some(v) => v <= 0
  }

  /** Validation and price reading of one entry: the name and the parsed
      price when the entry passes every check. */
  function Accept(e: Entry): (r: Option<Accepted>)
    ensures r.None? <==> NotAnObject(e) || FalsyField(e) || UnreadablePrice(e)
    ensures r.Some? ==>
      && e.Record? && e.name == Some(r.value.name) && |r.value.name| > 0
      && r.value.price > 0 && ReadPrice(Render(e.price)) == Some(r.value.price as int)
  {
    match e
    case NotRecord => None
    case Record(name, price) =>
      if name.None? || |name.value| == 0 || !Truthy(price) then None
      else
        match ReadPrice(Render(price))
        case None => None
        case Some(v) => if v > 0 then Some(Accepted(name.value, v)) else None
  }

  /** A price given as a JSON number is accepted exactly when it is positive,
      and then as itself. */
  lemma AcceptNumber(name: string, n: int)
    requires |name| > 0
    ensures Accept(Record(Some(name), Number(n))) == if n > 0 then Some(Accepted(name, n)) else None
  {
    ReadPriceOfNumber(n);
  }

  /** A price text of zero parses but is skipped: the price must be above zero. */
  lemma RejectZeroText(name: string)
    requires |name| > 0
    ensures Accept(Record(Some(name), Text("0"))) == None
  {
    ReadZeroExample();
  }

  /** A negative price text parses but is skipped as well. */
  lemma RejectNegativeText(name: string)
    requires |name| > 0
    ensures Accept(Record(Some(name), Text("-5"))) == None
  {
    ReadNegativeExample();
  }

  /** A price text "h,ddd NESO" is accepted as the number hddd when that is
      positive. */
  lemma AcceptThousands(name: string, h: string, d: string)
    requires |name| > 0
    requires |h| == 1 && |d| == 3
    requires IsDigit(h[0]) && IsDigit(d[0]) && IsDigit(d[1]) && IsDigit(d[2])
    requires DigitValue(h[0]) > 0
    ensures Accept(Record(Some(name), Text(h + "," + d + " NESO"))) ==
      Some(Accepted(name, 1000 * DigitValue(h[0]) + 100 * DigitValue(d[0]) + 10 * DigitValue(d[1]) + DigitValue(d[2])))
  {
    var text := h + "," + d + " NESO";
    var v := 1000 * DigitValue(h[0]) + 100 * DigitValue(d[0]) + 10 * DigitValue(d[1]) + DigitValue(d[2]);
    ReadThousandsValue(h, d);
    AcceptText(name, text, v);
  }

  /** A named entry whose price text reads as a positive number is accepted
      with that number. */
  lemma AcceptText(name: string, text: string, v: int)
    requires |name| > 0 && |text| > 0
    requires ReadPrice(text) == Some(v) && v > 0
    ensures Accept(Record(Some(name), Text(text))) == Some(Accepted(name, v))
  {
    assert Truthy(Text(text)) && Render(Text(text)) == text;
  }

  /** The state of a run: the store and the number of entries counted so far. */
  datatype Run = Run(store: Store, updated: nat)

  /** One entry of the run: a valid entry is admitted and counted when it
      admitted at least one resolution; any other entry changes nothing. */
  function Step(run: Run, id: ItemId, e: Entry, now: nat): (next: Run)
    requires WellFormed(run.store)
    ensures WellFormed(next.store)
    ensures Accept(e).None? ==> next == run
    ensures next.store.Keys == run.store.Keys + (if Accept(e).Some? then {id} else {})
    ensures forall other :: other in run.store && other != id ==> next.store[other] == run.store[other]
    ensures run.updated <= next.updated <= run.updated + 1
  {
    match Accept(e)
    case None => run
    case Some(a) =>
      var adm := Admit(run.store, id, a.name, a.price, now);
      Run(adm.store, if |adm.admitted| > 0 then run.updated + 1 else run.updated)
  }

  /** An entry is counted exactly when it is valid and some gate of its item
      is open: `update_price_history` then returns a non-empty list. */
  lemma StepCounts(run: Run, id: ItemId, e: Entry, now: nat)
    requires WellFormed(run.store)
    ensures Step(run, id, e, now).updated == run.updated + 1 <==>
      Accept(e).Some? && !Settled(run.store, id, now)
  {
    match Accept(e)
    case None =>
    case Some(a) =>
      var adm := Admit(run.store, id, a.name, a.price, now);
      AdmitFollowsGates(run.store, id, a.name, a.price, now);
      if !Settled(run.store, id, now) {
        var r :| ShouldAdmit(run.store, id, r, now);
        assert r in adm.admitted;
      }
      if |adm.admitted| > 0 {
        assert adm.admitted[0] in adm.admitted;
      }
  }

  /** The entries of a snapshot taken in order. */
  function Process(run: Run, snap: Snapshot, now: nat): (r: Run)
    requires WellFormed(run.store)
    ensures WellFormed(r.store)
    decreases |snap|
  {
    if |snap| == 0 then run
    else Process(Step(run, snap[0].0, snap[0].1, now), snap[1..], now)
  }

  /** The result of an ingestion: the new store, the count it returns, and
      the history files it writes, if any. */
  datatype Outcome = Outcome(store: Store, updated: nat, written: Option<Image>)

  /** `update_from_current_prices` on a snapshot already read: the files are
      written, with the whole store, exactly when some entry was counted. */
  function Ingest(store: Store, snap: Snapshot, now: nat): (o: Outcome)
    requires WellFormed(store)
    ensures WellFormed(o.store)
    ensures o.written.Some? <==> o.updated > 0
    ensures o.written.Some? ==> o.written.value == SaveImage(o.store)
  {
    var run := Process(Run(store, 0), snap, now);
    Outcome(run.store, run.updated, if run.updated > 0 then Some(SaveImage(run.store)) else None)
  }

  /** The entries that pass validation, in order. */
  function Valid(snap: Snapshot): (v: Snapshot)
    ensures |v| <= |snap|
    ensures forall k :: 0 <= k < |v| ==> Accept(v[k].1).Some?
  {
    if |snap| == 0 then []
    else if Accept(snap[0].1).Some? then [snap[0]] + Valid(snap[1..])
    else Valid(snap[1..])
  }

  /** The ids of the entries that pass validation. */
  function AcceptedIds(snap: Snapshot): set<ItemId>
  {
    if |snap| == 0 then {}
    else (if Accept(snap[0].1).Some? then {snap[0].0} else {}) + AcceptedIds(snap[1..])
  }

  /** Skipped entries leave both the store and the count as they were: only
      the valid entries matter. */
  lemma {:induction false} ProcessSkipsInvalid(run: Run, snap: Snapshot, now: nat)
    requires WellFormed(run.store)
    ensures Process(run, snap, now) == Process(run, Valid(snap), now)
    decreases |snap|
  {
    if |snap| > 0 {
      var next := Step(run, snap[0].0, snap[0].1, now);
      ProcessSkipsInvalid(next, snap[1..], now);
      if Accept(snap[0].1).Some? {
        var v := [snap[0]] + Valid(snap[1..]);
        assert v[0] == snap[0] && v[1..] == Valid(snap[1..]);
      } else {
        ProcessSkipsInvalid(run, snap[1..], now);
      }
    }
  }

  /** The count grows by at most one per valid entry. */
  lemma {:induction false} ProcessCountBound(run: Run, snap: Snapshot, now: nat)
    requires WellFormed(run.store)
    ensures run.updated <= Process(run, snap, now).updated <= run.updated + |Valid(snap)|
    decreases |snap|
  {
    if |snap| > 0 {
      ProcessCountBound(Step(run, snap[0].0, snap[0].1, now), snap[1..], now);
    }
  }

  /** The run creates exactly the items of its valid entries. */
  lemma {:induction false} ProcessKeys(run: Run, snap: Snapshot, now: nat)
    requires WellFormed(run.store)
    ensures Process(run, snap, now).store.Keys == run.store.Keys + AcceptedIds(snap)
    decreases |snap|
  {
    if |snap| > 0 {
      ProcessKeys(Step(run, snap[0].0, snap[0].1, now), snap[1..], now);
    }
  }

  /** An item no valid entry names is left exactly as it was. */
  lemma {:induction false} ProcessKeepsOthers(run: Run, snap: Snapshot, now: nat, item: ItemId)
    requires WellFormed(run.store)
    requires item in run.store && item !in AcceptedIds(snap)
    ensures var r := Process(run, snap, now);
      item in r.store && r.store[item] == run.store[item]
    decreases |snap|
  {
    if |snap| > 0 {
      ProcessKeepsOthers(Step(run, snap[0].0, snap[0].1, now), snap[1..], now, item);
    }
  }

  /** A run in which no entry is counted leaves the store unchanged: an entry
      that admits nothing changes nothing. */
  lemma {:induction false} ProcessNoCountNoChange(run: Run, snap: Snapshot, now: nat)
    requires WellFormed(run.store)
    requires Process(run, snap, now).updated == run.updated
    ensures Process(run, snap, now).store == run.store
    decreases |snap|
  {
    if |snap| > 0 {
      var next := Step(run, snap[0].0, snap[0].1, now);
      ProcessCountBound(next, snap[1..], now);
      assert next.updated == run.updated;
      ProcessNoCountNoChange(next, snap[1..], now);
      match Accept(snap[0].1)
      case None =>
      case Some(a) =>
        NoAdmissionNoChange(run.store, snap[0].0, a.name, a.price, now);
    }
  }

  /** One entry keeps a settled item settled: its own entry admits nothing,
      and another item's entry does not touch it. */
  lemma StepKeepsSettled(run: Run, id: ItemId, e: Entry, now: nat, item: ItemId)
    requires WellFormed(run.store)
    requires Settled(run.store, item, now)
    ensures Settled(Step(run, id, e, now).store, item, now)
  {
    var next := Step(run, id, e, now);
    assert !ShouldAdmit(run.store, item, Hourly, now);
    if Accept(e).Some? {
      var a := Accept(e).value;
      if id == item {
        SettledAdmitIsNoOp(run.store, item, a.name, a.price, now);
      } else {
        SettledReadsOnlyItem(run.store, next.store, item, now);
      }
    }
  }

  /** Once an item is settled at `now`, the rest of the run keeps it settled. */
  lemma {:induction false} ProcessKeepsSettled(run: Run, snap: Snapshot, now: nat, item: ItemId)
    requires WellFormed(run.store)
    requires Settled(run.store, item, now)
    ensures Settled(Process(run, snap, now).store, item, now)
    decreases |snap|
  {
    if |snap| > 0 {
      var next := Step(run, snap[0].0, snap[0].1, now);
      StepKeepsSettled(run, snap[0].0, snap[0].1, now, item);
      ProcessKeepsSettled(next, snap[1..], now, item);
    }
  }

  /** After a run at `now`, every item a valid entry named is settled: no
      resolution of it would accept another point at `now`. */
  lemma {:induction false} ProcessSettles(run: Run, snap: Snapshot, now: nat)
    requires WellFormed(run.store)
    ensures forall i :: i in AcceptedIds(snap) ==> Settled(Process(run, snap, now).store, i, now)
    decreases |snap|
  {
    if |snap| > 0 {
      var next := Step(run, snap[0].0, snap[0].1, now);
      ProcessSettles(next, snap[1..], now);
      match Accept(snap[0].1)
      case None =>
      case Some(a) =>
        AdmitSettles(run.store, snap[0].0, a.name, a.price, now);
        ProcessKeepsSettled(next, snap[1..], now, snap[0].0);
    }
  }

  /** A run whose every named item is already settled changes nothing and
      counts nothing. */
  lemma {:induction false} ProcessSettledIsNoOp(run: Run, snap: Snapshot, now: nat)
    requires WellFormed(run.store)
    requires forall i :: i in AcceptedIds(snap) ==> Settled(run.store, i, now)
    ensures Process(run, snap, now) == run
    decreases |snap|
  {
    if |snap| > 0 {
      if Accept(snap[0].1).Some? {
        var a := Accept(snap[0].1).value;
        SettledAdmitIsNoOp(run.store, snap[0].0, a.name, a.price, now);
      }
      ProcessSettledIsNoOp(run, snap[1..], now);
    }
  }

  /** Ingesting the same snapshot twice at the same `now`: the second run
      counts nothing, changes nothing and writes nothing. */
  lemma IngestIdempotent(store: Store, snap: Snapshot, now: nat)
    requires WellFormed(store)
    ensures var first := Ingest(store, snap, now);
      Ingest(first.store, snap, now) == Outcome(first.store, 0, None)
  {
    var first := Ingest(store, snap, now);
    ProcessSettles(Run(store, 0), snap, now);
    ProcessSettledIsNoOp(Run(first.store, 0), snap, now);
  }

  /** What an ingestion does to the store: it creates exactly the items of
      the valid entries, leaves every other item as it was, counts at most
      one per valid entry, and leaves the store unchanged when it counts
      nothing. */
  lemma IngestEffect(store: Store, snap: Snapshot, now: nat)
    requires WellFormed(store)
    ensures var o := Ingest(store, snap, now);
      && o.store.Keys == store.Keys + AcceptedIds(snap)
      && (forall i :: i in store && i !in AcceptedIds(snap) ==> o.store[i] == store[i])
      && o.updated <= |Valid(snap)|
      && (o.updated == 0 ==> o.store == store)
  {
    var run := Run(store, 0);
    ProcessKeys(run, snap, now);
    ProcessCountBound(run, snap, now);
    forall i | i in store && i !in AcceptedIds(snap) ensures Process(run, snap, now).store[i] == store[i] {
      ProcessKeepsOthers(run, snap, now, i);
    }
    if Process(run, snap, now).updated == 0 {
      ProcessNoCountNoChange(run, snap, now);
    }
  }

  /** Ingesting only skipped entries, or the snapshot with them removed, gives
      the same outcome. */
  lemma IngestIgnoresInvalid(store: Store, snap: Snapshot, now: nat)
    requires WellFormed(store)
    ensures Ingest(store, snap, now) == Ingest(store, Valid(snap), now)
  {
    ProcessSkipsInvalid(Run(store, 0), snap, now);
  }

  /** Valid entries for distinct items the store has never seen are each
      counted. */
  lemma {:induction false} ProcessFreshItems(run: Run, snap: Snapshot, now: nat)
    requires WellFormed(run.store)
    requires forall k :: 0 <= k < |snap| ==> Accept(snap[k].1).Some? && snap[k].0 !in run.store
    requires forall j, k :: 0 <= j < k < |snap| ==> snap[j].0 != snap[k].0
    ensures Process(run, snap, now).updated == run.updated + |snap|
    decreases |snap|
  {
    if |snap| > 0 {
      var a := Accept(snap[0].1).value;
      FirstAdmission(run.store, snap[0].0, a.name, a.price, now);
      var next := Step(run, snap[0].0, snap[0].1, now);
      assert next.updated == run.updated + 1;
      forall k | 0 <= k < |snap[1..]| ensures Accept(snap[1..][k].1).Some? && snap[1..][k].0 !in next.store {
        assert snap[1..][k] == snap[k + 1];
      }
      ProcessFreshItems(next, snap[1..], now);
    }
  }

  /** A run keeps a dense store dense. */
  lemma {:induction false} ProcessKeepsDense(run: Run, snap: Snapshot, now: nat)
    requires WellFormed(run.store)
    requires Dense(run.store)
    ensures Dense(Process(run, snap, now).store)
    decreases |snap|
  {
    if |snap| > 0 {
      if Accept(snap[0].1).Some? {
        var a := Accept(snap[0].1).value;
        AdmitKeepsDense(run.store, snap[0].0, a.name, a.price, now);
      }
      ProcessKeepsDense(Step(run, snap[0].0, snap[0].1, now), snap[1..], now);
    }
  }

  /** A tracker whose store was loaded from history files writes files that
      load back as exactly the store it ends with. */
  lemma WrittenFilesReload(img: Image, snap: Snapshot, now: nat)
    requires forall r, i :: r in img && i in img[r] ==> |img[r][i]| > 0
    ensures var o := Ingest(LoadImage(img), snap, now);
      o.written.Some? ==> LoadImage(o.written.value) == o.store
  {
    var store := LoadImage(img);
    LoadedIsDense(img);
    ProcessKeepsDense(Run(store, 0), snap, now);
    DenseSurvivesSave(Ingest(store, snap, now).store);
  }

  /** A one-entry snapshot is one step of the run. */
  lemma ProcessOne(run: Run, id: ItemId, e: Entry, now: nat)
    requires WellFormed(run.store)
    ensures Process(run, [(id, e)], now) == Step(run, id, e, now)
  {
    assert [(id, e)][1..] == [];
  }

  /** Ingesting a one-entry snapshot whose entry is accepted is one admission,
      counted when some window was admitted to. */
  lemma IngestOne(store: Store, id: ItemId, e: Entry, name: string, price: nat, now: nat)
    requires WellFormed(store)
    requires Accept(e) == Some(Accepted(name, price))
    ensures var o := Ingest(store, [(id, e)], now);
      var a := Admit(store, id, name, price, now);
      && o.store == a.store
      && o.updated == (if |a.admitted| > 0 then 1 else 0)
  {
    ProcessOne(Run(store, 0), id, e, now);
  }

  /** An example snapshot entry: a potion priced "1,000 NESO". */
  function Potion(): Entry
  {
    Record(Some("Red Potion"), Text("1,000 NESO"))
  }

  lemma PotionIsAccepted()
    ensures Accept(Potion()) == Some(Accepted("Red Potion", 1000))
  {
    ReadThousandsExample();
  }

  /** A store holding one item whose three windows each hold the one point `pt`. */
  function Seeded(item: ItemId, pt: PricePoint): Store
  {
    map[item := map[Hourly := [pt], HalfDaily := [pt], Daily := [pt]]]
  }

  /** The first ingestion of the potion at `t0` counts it and gives each
      resolution the one point priced 1000. */
  lemma PotionFirstRun(t0: nat)
    ensures var o := Ingest(map[], [("itemA", Potion())], t0);
      o.updated == 1 && o.store == Seeded("itemA", PricePoint(t0, 1000, "Red Potion"))
  {
    PotionIsAccepted();
    ProcessOne(Run(map[], 0), "itemA", Potion(), t0);
    FirstAdmission(map[], "itemA", "Red Potion", 1000, t0);
  }

  lemma SeededSlot(item: ItemId, pt: PricePoint, r: Resolution)
    ensures SlotOf(Seeded(item, pt), item, r) == [pt]
  {
    match r
    case Hourly =>
    case HalfDaily =>
    case Daily =>
  }

  /** Within an hour of its only point, no gate of a seeded item is open. */
  lemma SeededSettled(item: ItemId, pt: PricePoint, now: nat)
    requires pt.timestamp <= now < pt.timestamp + Hour
    ensures Settled(Seeded(item, pt), item, now)
  {
    forall r ensures !ShouldAdmit(Seeded(item, pt), item, r, now) {
      SeededSlot(item, pt, r);
    }
  }

  /** Half an hour after the first run every gate of the potion is still
      closed: nothing is counted and nothing changes. */
  lemma PotionAfterHalfAnHour(t0: nat)
    ensures var s := Seeded("itemA", PricePoint(t0, 1000, "Red Potion"));
      Ingest(s, [("itemA", Potion())], t0 + 1800) == Outcome(s, 0, None)
  {
    var s := Seeded("itemA", PricePoint(t0, 1000, "Red Potion"));
    PotionIsAccepted();
    SeededSettled("itemA", PricePoint(t0, 1000, "Red Potion"), t0 + 1800);
    ProcessOne(Run(s, 0), "itemA", Potion(), t0 + 1800);
    SettledAdmitIsNoOp(s, "itemA", "Red Potion", 1000, t0 + 1800);
  }

  /** Between one and twelve hours after the only point of a seeded item,
      admission opens the hourly gate alone ... */
  lemma SeededHourLaterAdmits(item: ItemId, pt: PricePoint, name: string, price: int, now: nat)
    requires pt.timestamp + Hour <= now < pt.timestamp + 12 * Hour
    ensures Admit(Seeded(item, pt), item, name, price, now).admitted == [Hourly]
  {
    var s := Seeded(item, pt);
    var a := Admit(s, item, name, price, now);
    AdmitFollowsGates(s, item, name, price, now);
    SeededSlot(item, pt, Hourly);
    SeededSlot(item, pt, HalfDaily);
    SeededSlot(item, pt, Daily);
    assert ShouldAdmit(s, item, Hourly, now);
    assert !ShouldAdmit(s, item, HalfDaily, now);
    assert !ShouldAdmit(s, item, Daily, now);
    PolicyOrderIsCanonical(a.admitted, [Hourly]);
  }

  /** ... and then the hourly window gains the new point ... */
  lemma SeededHourLaterHourly(item: ItemId, pt: PricePoint, name: string, price: int, now: nat)
    requires pt.timestamp + Hour <= now < pt.timestamp + 12 * Hour
    ensures var slots := Admit(Seeded(item, pt), item, name, price, now).store[item];
      Hourly in slots && slots[Hourly] == [pt, PricePoint(now, price, name)]
  {
    var s := Seeded(item, pt);
    SeededHourLaterAdmits(item, pt, name, price, now);
    SeededSlot(item, pt, Hourly);
    AdmitGrowsWindow(s, item, name, price, now, Hourly);
    assert [pt] + [PricePoint(now, price, name)] == [pt, PricePoint(now, price, name)];
  }

  /** ... while the other two keep their single point. */
  lemma SeededHourLaterOthers(item: ItemId, pt: PricePoint, name: string, price: int, now: nat, r: Resolution)
    requires pt.timestamp + Hour <= now < pt.timestamp + 12 * Hour
    requires r != Hourly
    ensures var slots := Admit(Seeded(item, pt), item, name, price, now).store[item];
      r in slots && slots[r] == [pt]
  {
    var s := Seeded(item, pt);
    var a := Admit(s, item, name, price, now);
    SeededHourLaterAdmits(item, pt, name, price, now);
    assert r !in a.admitted;
    SeededSlot(item, pt, r);
    assert r in s[item] && s[item][r] == [pt];
    AdmitKeepsClosedSlots(s, item, name, price, now);
    assert a.store[item][r] == s[item][r];
  }

  /** Between one and twelve hours after the only point of a seeded item,
      admission adds the point to the hourly window alone. */
  lemma SeededHourLater(item: ItemId, pt: PricePoint, name: string, price: int, now: nat)
    requires pt.timestamp + Hour <= now < pt.timestamp + 12 * Hour
    ensures var a := Admit(Seeded(item, pt), item, name, price, now);
      && a.admitted == [Hourly]
      && a.store[item] == map[Hourly := [pt, PricePoint(now, price, name)], HalfDaily := [pt], Daily := [pt]]
  {
    SeededHourLaterAdmits(item, pt, name, price, now);
    SeededHourLaterSlots(item, pt, name, price, now);
  }

  /** The three windows of the seeded item after that admission. */
  lemma SeededHourLaterSlots(item: ItemId, pt: PricePoint, name: string, price: int, now: nat)
    requires pt.timestamp + Hour <= now < pt.timestamp + 12 * Hour
    ensures Admit(Seeded(item, pt), item, name, price, now).store[item] ==
      map[Hourly := [pt, PricePoint(now, price, name)], HalfDaily := [pt], Daily := [pt]]
  {
    var slots := Admit(Seeded(item, pt), item, name, price, now).store[item];
    SeededHourLaterHourly(item, pt, name, price, now);
    SeededHourLaterOthers(item, pt, name, price, now, HalfDaily);
    SeededHourLaterOthers(item, pt, name, price, now, Daily);
    SameThreeSlots(slots, [pt, PricePoint(now, price, name)], [pt], [pt]);
  }

  /** An hour and five minutes after the first run only the hourly gate has
      opened: the potion is counted and only its hourly window grows, to two
      points. */
  lemma PotionAfterAnHour(t0: nat)
    ensures var pt := PricePoint(t0, 1000, "Red Potion");
      var o := Ingest(Seeded("itemA", pt), [("itemA", Potion())], t0 + 3900);
      && o.updated == 1
      && o.store["itemA"] == map[Hourly := [pt, PricePoint(t0 + 3900, 1000, "Red Potion")], HalfDaily := [pt], Daily := [pt]]
  {
    var pt := PricePoint(t0, 1000, "Red Potion");
    PotionIsAccepted();
    IngestOne(Seeded("itemA", pt), "itemA", Potion(), "Red Potion", 1000, t0 + 3900);
    SeededHourLater("itemA", pt, "Red Potion", 1000, t0 + 3900);
  }
}
