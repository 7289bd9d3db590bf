/** A window: the bounded, oldest-first history of one item at one
    resolution. The tracker keeps it in a deque with a maximum length, so
    filling or appending past capacity silently drops the oldest points. */
module Windows {
  import opened Wrappers

  /** One recorded price: when (seconds), how much, and the item's display name. */
  datatype PricePoint = PricePoint(timestamp: nat, price: int, itemName: string)

  /** Oldest-first sequence of points. */
  type Window = seq<PricePoint>

  function Min(a: nat, b: nat): nat
  {
    if a <= b then a else b
  }

  /** A bounded deque rebuilt from a stored sequence: it keeps the most
      recent `cap` entries, in their original order. */
  function LoadFrom<T>(s: seq<T>, cap: nat): (r: seq<T>)
    ensures |r| == Min(|s|, cap)
    ensures r == s[|s| - |r|..]
    ensures |s| <= cap ==> r == s
  {
    if |s| <= cap then s else s[|s| - cap..]
  }

  /** Appending to a bounded deque: the deque never grows past `cap`. */
  function Append<T>(w: seq<T>, p: T, cap: nat): (r: seq<T>)
    requires |w| <= cap
    ensures |r| <= cap
  {
    LoadFrom(w + [p], cap)
  }

  /** FIFO eviction on one append: the new point becomes the newest entry;
      below capacity nothing is lost, at capacity exactly the oldest point
      is evicted and the rest keep their order. */
  lemma AppendEvictsOldest<T>(w: seq<T>, p: T, cap: nat)
    requires |w| <= cap
    ensures cap > 0 ==> |Append(w, p, cap)| > 0 && Append(w, p, cap)[|Append(w, p, cap)| - 1] == p
    ensures |w| < cap ==> Append(w, p, cap) == w + [p]
    ensures 0 < cap == |w| ==> Append(w, p, cap) == w[1..] + [p]
    ensures cap == 0 ==> Append(w, p, cap) == []
  {
  }

  /** The most recently appended point, if any. */
  function Latest(w: Window): Option<PricePoint>
  {
    if |w| == 0 then None else Some(w[|w| - 1])
  }

  /** The point just appended is the newest one the window reports. */
  lemma AppendedIsLatest(w: Window, p: PricePoint, cap: nat)
    requires 0 < cap && |w| <= cap
    ensures Latest(Append(w, p, cap)) == Some(p)
  {
    AppendEvictsOldest(w, p, cap);
  }

  /** The window after a run of appends, one point at a time. */
  function AppendAll<T>(w: seq<T>, ps: seq<T>, cap: nat): (r: seq<T>)
    requires |w| <= cap
    ensures |r| <= cap
    decreases |ps|
  {
    if |ps| == 0 then w else AppendAll(Append(w, ps[0], cap), ps[1..], cap)
  }

  /** Truncating twice is truncating once: dropping the oldest entries before
      adding newer ones does not change which entries survive. */
  lemma LoadFromAbsorbs<T>(s: seq<T>, t: seq<T>, cap: nat)
    ensures LoadFrom(LoadFrom(s, cap) + t, cap) == LoadFrom(s + t, cap)
  {
    var r := LoadFrom(s, cap);
    var k := |s| - |r|;
    assert s + t == s[..k] + (r + t);
  }

  /** FIFO over any run of appends: however many points arrive, the window
      holds exactly the newest `cap` of the old contents followed by them, in
      arrival order; nothing but the oldest points is ever evicted. */
  lemma {:induction false} AppendAllKeepsNewest<T>(w: seq<T>, ps: seq<T>, cap: nat)
    requires |w| <= cap
    ensures AppendAll(w, ps, cap) == LoadFrom(w + ps, cap)
    decreases |ps|
  {
    if |ps| == 0 {
      assert w + ps == w;
    } else {
      var w' := Append(w, ps[0], cap);
      calc {
        AppendAll(w, ps, cap);
        AppendAll(w', ps[1..], cap);
        { AppendAllKeepsNewest(w', ps[1..], cap); }
        LoadFrom(w' + ps[1..], cap);
        LoadFrom(LoadFrom(w + [ps[0]], cap) + ps[1..], cap);
        { LoadFromAbsorbs(w + [ps[0]], ps[1..], cap); }
        LoadFrom((w + [ps[0]]) + ps[1..], cap);
        { assert (w + [ps[0]]) + ps[1..] == w + ps; }
        LoadFrom(w + ps, cap);
      }
    }
  }
}
