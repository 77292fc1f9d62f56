/** The checkpoint table and the schedule resolver that brackets a query time. */
module Schedule {

  /** A time of day as whole seconds since midnight. */
  type TimeOfDay = t: int | 0 <= t < 86400

  /** A colour with one real-valued scalar per channel. */
  datatype Rgb = Rgb(red: real, green: real, blue: real)

  datatype Checkpoint = Checkpoint(time: TimeOfDay, color: Rgb)

  datatype Option<T> = None | Some(value: T)

  /** The two checkpoints a query time falls between. */
  datatype Bracket = Bracket(from: Checkpoint, to: Checkpoint)

  const Black := Rgb(0.0, 0.0, 0.0)

  /** The resolver's starting "from": black at 00:00:00. */
  const Midnight := Checkpoint(0, Black)

  /** The seconds since midnight of the clock reading h:m:s. */
  function Clock(h: nat, m: nat, s: nat): (t: TimeOfDay)
    requires h < 24 && m < 60 && s < 60
    ensures t / 3600 == h && t % 3600 / 60 == m && t % 60 == s
  {
    var ms := m * 60 + s;
    DivModUnique(ms, 60, m, s);
    var t := h * 3600 + ms;
    DivModUnique(t, 3600, h, ms);
    t
  }

  /** The quotient and remainder of Euclidean division are the only such pair. */
  lemma DivModUnique(n: int, d: int, q: int, r: int)
    requires 0 < d && 0 <= r < d && n == q * d + r
    ensures n / d == q && n % d == r
  {
    var q', r' := n / d, n % d;
    assert (q' - q) * d == r - r' by {
      assert q' * d + r' == q * d + r;
    }
    if q < q' {
      MulAtLeast(q' - q, d);
    } else if q' < q {
      MulAtLeast(q - q', d);
    }
  }

  lemma MulAtLeast(a: int, d: int)
    requires 1 <= a && 0 < d
    ensures d <= a * d
  {
    assert a * d == (a - 1) * d + d;
  }

  /** Comparing times of day, hour first, then minute, then second, is comparing their
      seconds since midnight. */
  lemma ClockOrder(h1: nat, m1: nat, s1: nat, h2: nat, m2: nat, s2: nat)
    requires h1 < 24 && m1 < 60 && s1 < 60
    requires h2 < 24 && m2 < 60 && s2 < 60
    ensures Clock(h1, m1, s1) < Clock(h2, m2, s2) <==>
            h1 < h2 || (h1 == h2 && (m1 < m2 || (m1 == m2 && s1 < s2)))
  {
    var t1, t2 := Clock(h1, m1, s1), Clock(h2, m2, s2);
    if h1 < h2 {
      assert t1 < (h1 + 1) * 3600 <= h2 * 3600 <= t2;
    } else if h2 < h1 {
      assert t2 < (h2 + 1) * 3600 <= h1 * 3600 <= t1;
    }
  }

  /** Checkpoint times strictly increase along the table, as in the evening table `Colors`. */
  ghost predicate StrictlyIncreasing(table: seq<Checkpoint>)
  {
    forall i, j :: 0 <= i < j < |table| ==> table[i].time < table[j].time
  }

  ghost predicate InByteRange(c: Rgb)
  {
    0.0 <= c.red <= 255.0 && 0.0 <= c.green <= 255.0 && 0.0 <= c.blue <= 255.0
  }

  /** The evening schedule: off, sky blue, yellow, burnt orange, red, dark red, off. */
  const Colors: seq<Checkpoint> := [
    Checkpoint(Clock(20, 0, 0), Black),
    Checkpoint(Clock(20, 30, 0), Rgb(102.0, 255.0, 255.0)),
    Checkpoint(Clock(21, 0, 0), Rgb(250.0, 200.0, 0.0)),
    Checkpoint(Clock(22, 0, 0), Rgb(255.0, 30.0, 0.0)),
    Checkpoint(Clock(22, 30, 0), Rgb(255.0, 0.0, 0.0)),
    Checkpoint(Clock(23, 30, 0), Rgb(135.0, 0.0, 0.0)),
    Checkpoint(Clock(23, 59, 59), Black)
  ]

  /** The table is ordered, its channels are bytes, and it ends at 23:59:59. */
  lemma ColorsWellFormed()
    ensures StrictlyIncreasing(Colors)
    ensures forall i :: 0 <= i < |Colors| ==> InByteRange(Colors[i].color)
    ensures |Colors| == 7 && Colors[0].time == 72000 && Colors[6].time == 86399
  {
  }

  /** The index of the first checkpoint strictly later than `q`, if there is one. */
  function FirstLater(table: seq<Checkpoint>, q: TimeOfDay): (k: Option<nat>)
    ensures k.Some? ==> k.value < |table| && q < table[k.value].time
    ensures k.Some? ==> forall j :: 0 <= j < k.value ==> table[j].time <= q
    ensures k.None? ==> forall j :: 0 <= j < |table| ==> table[j].time <= q
  {
    if table == [] then None
    else if q < table[0].time then Some(0)
    else match FirstLater(table[1..], q)
      case None => None
      case Some(k) => Some(k + 1)
  }

  /** The checkpoint the scan holds as "from" when it reaches index k. */
  function Before(table: seq<Checkpoint>, k: nat): Checkpoint
    requires k <= |table|
  {
    if k == 0 then Midnight else table[k - 1]
  }

  /** The resolver's meaning: "to" is the first checkpoint strictly later than the
      query and "from" the one just before it, or black at midnight when "to" is the
      first checkpoint. With no later checkpoint there is no bracket. */
  function Resolve(table: seq<Checkpoint>, q: TimeOfDay): (r: Option<Bracket>)
    ensures r.Some? ==> r.value.from.time <= q < r.value.to.time
    ensures r.None? <==> forall j :: 0 <= j < |table| ==> table[j].time <= q
  {
    match FirstLater(table, q)
    case None => None
    case Some(k) => Some(Bracket(Before(table, k), table[k]))
  }

  /** Any table: the bracket is fixed by the first checkpoint later than the query. */
  lemma ResolveFirstLater(table: seq<Checkpoint>, q: TimeOfDay, k: nat)
    requires k < |table| && q < table[k].time
    requires forall j :: 0 <= j < k ==> table[j].time <= q
    ensures Resolve(table, q) == Some(Bracket(Before(table, k), table[k]))
  {
  }

  /** An ordered table: a query between two neighbouring checkpoints (or before the
      first one) resolves to exactly those two (or to midnight and the first one). */
  lemma ResolveBrackets(table: seq<Checkpoint>, q: TimeOfDay, k: nat)
    requires StrictlyIncreasing(table)
    requires k < |table| && Before(table, k).time <= q < table[k].time
    ensures Resolve(table, q) == Some(Bracket(Before(table, k), table[k]))
  {
    forall j | 0 <= j < k ensures table[j].time <= q {
      if j < k - 1 {
        assert table[j].time < table[k - 1].time;
      }
    }
    ResolveFirstLater(table, q, k);
  }

  /** An ordered table: "from" is the last checkpoint not later than the query, or
      black at midnight when every checkpoint is later. */
  lemma ResolveFromIsLastNotLater(table: seq<Checkpoint>, q: TimeOfDay)
    requires StrictlyIncreasing(table)
    requires Resolve(table, q).Some?
    ensures var from := Resolve(table, q).value.from;
      (from == Midnight && forall j :: 0 <= j < |table| ==> q < table[j].time) ||
      (exists i :: 0 <= i < |table| && table[i] == from && table[i].time <= q &&
         forall j :: i < j < |table| ==> q < table[j].time)
  {
    var k := FirstLater(table, q).value;
    forall j | k < j < |table| ensures q < table[j].time {
      assert table[k].time < table[j].time;
    }
    if k == 0 {
      assert forall j :: 0 <= j < |table| ==> q < table[j].time by {
        forall j | 0 <= j < |table| ensures q < table[j].time {
          if 0 < j {
            assert table[0].time < table[j].time;
          }
        }
      }
    } else {
      assert table[k - 1].time <= q;
    }
  }

  /** A query exactly at a checkpoint's time makes that checkpoint "from", since the
      comparison is strict; at the last checkpoint there is no "to". */
  lemma ResolveAtCheckpoint(table: seq<Checkpoint>, i: nat)
    requires StrictlyIncreasing(table) && i < |table|
    ensures i + 1 < |table| ==>
      Resolve(table, table[i].time) == Some(Bracket(table[i], table[i + 1]))
    ensures i + 1 == |table| ==> Resolve(table, table[i].time) == None
  {
    if i + 1 < |table| {
      ResolveBrackets(table, table[i].time, i + 1);
    } else {
      forall j | 0 <= j < |table| ensures table[j].time <= table[i].time {
        if j < i {
          assert table[j].time < table[i].time;
        }
      }
    }
  }

  /** An ordered non-empty table: resolution fails exactly when the query is at or
      after the last checkpoint. */
  lemma ResolveFailsIff(table: seq<Checkpoint>, q: TimeOfDay)
    requires StrictlyIncreasing(table) && |table| > 0
    ensures Resolve(table, q).None? <==> table[|table| - 1].time <= q
  {
    var last := |table| - 1;
    if table[last].time <= q {
      forall j | 0 <= j < |table| ensures table[j].time <= q {
        if j < last {
          assert table[j].time < table[last].time;
        }
      }
    }
  }

  /** The resolver loop: scan in order, keep each checkpoint not later than the query
      as "from", and stop at the first later one, which becomes "to". When the scan
      runs off the end "to" was never assigned and the result is None. */
  method ResolveScan(table: seq<Checkpoint>, q: TimeOfDay) returns (r: Option<Bracket>)
    ensures r == Resolve(table, q)
  {
    var from := Midnight;
    for i := 0 to |table|
      invariant forall j :: 0 <= j < i ==> table[j].time <= q
      invariant from == Before(table, i)
    {
      var key := table[i];
      if key.time > q {
        ResolveFirstLater(table, q, i);
        return Some(Bracket(from, key));
      }
      from := key;
    }
    return None;
  }
}
