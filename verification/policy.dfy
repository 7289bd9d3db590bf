/** The resolution table: how often each resolution accepts a new point and
    how many points it retains. The table is a process-wide constant. */
module Policy {

  datatype Resolution = Hourly | HalfDaily | Daily

  /** The fixed order in which resolutions are visited (`1hour`, `12hour`, `1day`). */
  const Order: seq<Resolution> := [Hourly, HalfDaily, Daily]

  const Hour: nat := 3600
  const Day: nat := 24 * Hour

  /** Admission period of a resolution, in seconds. */
  function Interval(r: Resolution): (secs: nat)
    ensures secs > 0
    ensures secs % Hour == 0
  {
    match r
    case Hourly => Hour
    case HalfDaily => 12 * Hour
    case Daily => Day
  }

  /** Number of points a window at this resolution retains. */
  function Capacity(r: Resolution): (n: nat)
    ensures n > 0
  {
    match r
    case Hourly => 168
    case HalfDaily => 60
    case Daily => 365
  }

  /** Position of a resolution in `Order`. */
  function Rank(r: Resolution): (k: nat)
    ensures k < |Order| && Order[k] == r
  {
    match r
    case Hourly => 0
    case HalfDaily => 1
    case Daily => 2
  }

  /** The resolutions of `rs` appear strictly in policy order (hence each at most once). */
  predicate InPolicyOrder(rs: seq<Resolution>)
  {
    forall i, j :: 0 <= i < j < |rs| ==> Rank(rs[i]) < Rank(rs[j])
  }

  /** `Order` lists every resolution, each once, in policy order. */
  lemma OrderIsComplete()
    ensures InPolicyOrder(Order)
    ensures forall r: Resolution :: r in Order
  {
    forall r: Resolution ensures r in Order {
      assert Order[Rank(r)] == r;
    }
  }

  /** The tail of a sequence in policy order is in policy order, and ranks
      strictly above its head. */
  lemma TailRanksAbove(rs: seq<Resolution>)
    requires InPolicyOrder(rs) && |rs| > 0
    ensures InPolicyOrder(rs[1..])
    ensures forall x :: x in rs[1..] ==> Rank(rs[0]) < Rank(x)
  {
    forall x | x in rs[1..] ensures Rank(rs[0]) < Rank(x) {
      var j :| 0 <= j < |rs[1..]| && rs[1..][j] == x;
      assert rs[j + 1] == x;
    }
  }

  /** Prefixing a resolution ranked below every member keeps policy order. */
  lemma ConsInPolicyOrder(r: Resolution, xs: seq<Resolution>)
    requires InPolicyOrder(xs)
    requires forall x :: x in xs ==> Rank(r) < Rank(x)
    ensures InPolicyOrder([r] + xs)
  {
    var ys := [r] + xs;
    forall i, j | 0 <= i < j < |ys| ensures Rank(ys[i]) < Rank(ys[j]) {
      assert ys[j] == xs[j - 1];
      if i > 0 {
        assert ys[i] == xs[i - 1];
      } else {
        assert xs[j - 1] in xs;
      }
    }
  }

  /** Dropping one resolution from a sequence in policy order keeps policy order. */
  lemma DropInPolicyOrder(xs: seq<Resolution>, y: Resolution, zs: seq<Resolution>)
    requires InPolicyOrder(xs + [y] + zs)
    ensures InPolicyOrder(xs + zs)
  {
    var full := xs + [y] + zs;
    var short := xs + zs;
    forall i, j | 0 <= i < j < |short| ensures Rank(short[i]) < Rank(short[j]) {
      var i' := if i < |xs| then i else i + 1;
      var j' := if j < |xs| then j else j + 1;
      assert short[i] == full[i'];
      assert short[j] == full[j'];
    }
  }

  /** The head of a sequence in policy order has the least rank of its members. */
  lemma HeadHasLeastRank(xs: seq<Resolution>)
    requires InPolicyOrder(xs) && |xs| > 0
    ensures forall r :: r in xs ==> Rank(xs[0]) <= Rank(r)
  {
  }

  /** Two sequences in policy order with the same members are equal: the
      policy order fixes how a set of resolutions is listed. */
  lemma {:induction false} PolicyOrderIsCanonical(xs: seq<Resolution>, ys: seq<Resolution>)
    requires InPolicyOrder(xs) && InPolicyOrder(ys)
    requires forall r :: r in xs <==> r in ys
    ensures xs == ys
    decreases |xs|
  {
    assert |xs| > 0 ==> xs[0] in xs;
    assert |ys| > 0 ==> ys[0] in ys;
    if |xs| > 0 {
      assert xs[0] == ys[0] by {
        HeadHasLeastRank(xs);
        HeadHasLeastRank(ys);
        assert Rank(xs[0]) == Rank(ys[0]);
      }
      forall r ensures r in xs[1..] <==> r in ys[1..] {
        if r in xs[1..] {
          TailMember(xs, ys, r);
        }
        if r in ys[1..] {
          TailMember(ys, xs, r);
        }
      }
      PolicyOrderIsCanonical(xs[1..], ys[1..]);
      assert xs == [xs[0]] + xs[1..];
      assert ys == [ys[0]] + ys[1..];
    }
  }

  /** With equal heads and equal members, a member of one tail is a member of
      the other: it ranks above the common head, so it is not that head. */
  lemma TailMember(xs: seq<Resolution>, ys: seq<Resolution>, r: Resolution)
    requires InPolicyOrder(xs) && |xs| > 0 && |ys| > 0 && xs[0] == ys[0]
    requires forall x :: x in xs <==> x in ys
    requires r in xs[1..]
    ensures r in ys[1..]
  {
    var i :| 1 <= i < |xs| && xs[i] == r;
    assert Rank(xs[0]) < Rank(xs[i]);
    assert r in ys;
    var j :| 0 <= j < |ys| && ys[j] == r;
    assert ys[1..][j - 1] == r;
  }

  /** The retention horizon each resolution's capacity was chosen for:
      one week of hourly points, thirty days of half-daily points, a year of
      daily points. */
  lemma RetentionHorizons()
    ensures Capacity(Hourly) * Interval(Hourly) == 7 * Day
    ensures Capacity(HalfDaily) * Interval(HalfDaily) == 30 * Day
    ensures Capacity(Daily) * Interval(Daily) == 365 * Day
  {
  }
}
