/** The summary of the store (`get_statistics`): the number of items and, per
    resolution, how many items have points there, how many points are stored
    there in all, and the resolution's capacity. */
module Statistics {
  import opened Policy
  import opened Windows
  import opened History

  /** The items among `keys` with at least one point at `res`. */
  ghost function WithData(store: Store, res: Resolution, keys: set<ItemId>): set<ItemId>
  {
    set i | i in keys && |SlotOf(store, i, res)| > 0
  }

  /** The number of points stored at `res` for the items of `keys`. */
  ghost function PointsIn(store: Store, res: Resolution, keys: set<ItemId>): nat
    decreases keys
  {
    if keys == {} then 0
    else
      var i :| i in keys;
      |SlotOf(store, i, res)| + PointsIn(store, res, keys - {i})
  }

  /** The sum does not depend on the order in which the items are visited:
      any item can be taken out first. */
  lemma {:induction false} PointsInRemove(store: Store, res: Resolution, keys: set<ItemId>, i: ItemId)
    requires i in keys
    ensures PointsIn(store, res, keys) == |SlotOf(store, i, res)| + PointsIn(store, res, keys - {i})
    decreases keys
  {
    var j :| j in keys && PointsIn(store, res, keys) == |SlotOf(store, j, res)| + PointsIn(store, res, keys - {j});
    if j != i {
      PointsInRemove(store, res, keys - {j}, i);
      PointsInRemove(store, res, keys - {i}, j);
      assert keys - {j} - {i} == keys - {i} - {j};
    }
  }

  /** Taking one item out of the count of items with data. */
  lemma WithDataRemove(store: Store, res: Resolution, keys: set<ItemId>, i: ItemId)
    requires i in keys
    ensures |WithData(store, res, keys)| ==
      (if |SlotOf(store, i, res)| > 0 then 1 else 0) + |WithData(store, res, keys - {i})|
  {
    if |SlotOf(store, i, res)| > 0 {
      assert WithData(store, res, keys) == WithData(store, res, keys - {i}) + {i};
    } else {
      assert WithData(store, res, keys) == WithData(store, res, keys - {i});
    }
  }

  /** The figures of one resolution. */
  datatype ResolutionStats = ResolutionStats(itemsWithData: nat, totalDataPoints: nat, maxPoints: nat)

  /** The two sums of one resolution, computed item by item. */
  method Summarize(store: Store, res: Resolution) returns (items: nat, points: nat)
    ensures items == |WithData(store, res, store.Keys)|
    ensures points == PointsIn(store, res, store.Keys)
  {
    items, points := 0, 0;
    var todo := store.Keys;
    while todo != {}
      invariant todo <= store.Keys
      invariant items + |WithData(store, res, todo)| == |WithData(store, res, store.Keys)|
      invariant points + PointsIn(store, res, todo) == PointsIn(store, res, store.Keys)
      decreases todo
    {
      var i :| i in todo;
      WithDataRemove(store, res, todo, i);
      PointsInRemove(store, res, todo, i);
      var n := if res in store[i] then |store[i][res]| else 0;
      if n > 0 {
        items := items + 1;
      }
      points := points + n;
      todo := todo - {i};
    }
  }

  /** The figures of `res` as defined over the whole store. */
  ghost function Expected(store: Store, res: Resolution): ResolutionStats
  {
    ResolutionStats(|WithData(store, res, store.Keys)|, PointsIn(store, res, store.Keys), Capacity(res))
  }

  /** The whole summary. */
  datatype Stats = Stats(totalItems: nat, intervals: map<Resolution, ResolutionStats>)

  /** `get_statistics`: the item count, and for every resolution of the
      policy its two sums and its capacity. */
  method GetStatistics(store: Store) returns (s: Stats)
    ensures s.totalItems == |store|
    ensures forall r :: r in s.intervals
    ensures forall r :: s.intervals[r] == Expected(store, r)
  {
    var intervals: map<Resolution, ResolutionStats> := map[];
    var k := 0;
    while k < |Order|
      invariant 0 <= k <= |Order|
      invariant forall r :: r in intervals <==> r in Order[..k]
      invariant forall r :: r in intervals ==> intervals[r] == Expected(store, r)
    {
      var r := Order[k];
      var items, points := Summarize(store, r);
      intervals := intervals[r := ResolutionStats(items, points, Capacity(r))];
      k := k + 1;
    }
    OrderIsComplete();
    assert Order[..k] == Order;
    s := Stats(|store|, intervals);
  }

  /** Items with data are among the items. */
  lemma ItemsWithDataBound(store: Store, res: Resolution)
    ensures |WithData(store, res, store.Keys)| <= |store|
  {
    assert WithData(store, res, store.Keys) <= store.Keys;
    SubsetCardinality(WithData(store, res, store.Keys), store.Keys);
  }

  lemma {:induction false} SubsetCardinality<T>(a: set<T>, b: set<T>)
    requires a <= b
    ensures |a| <= |b|
    decreases b
  {
    if b != {} {
      var x :| x in b;
      SubsetCardinality(a - {x}, b - {x});
    }
  }

  /** Every item with data holds at least one point, and on a well-formed
      store at most the resolution's capacity: the point total lies between
      the number of items with data and that number times the capacity. */
  lemma {:induction false} PointsBounds(store: Store, res: Resolution, keys: set<ItemId>)
    requires WellFormed(store)
    ensures |WithData(store, res, keys)| <= PointsIn(store, res, keys) <= |WithData(store, res, keys)| * Capacity(res)
    decreases keys
  {
    if keys == {} {
      assert WithData(store, res, keys) == {};
    } else {
      var i :| i in keys;
      PointsInRemove(store, res, keys, i);
      WithDataRemove(store, res, keys, i);
      PointsBounds(store, res, keys - {i});
    }
  }
}
