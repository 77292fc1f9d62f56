/** The colour shown at a time of day: resolve the bracketing checkpoints, measure the
    transition in seconds, and fade each channel. */
module Nightfall {
  import opened Interpolate
  import opened Schedule

  /** A resolved fade: its endpoints, its length and how far into it the query is,
      both in seconds. */
  datatype Transition = Transition(from: Rgb, to: Rgb, duration: real, progress: real)

  /** The transition arithmetic: duration and progress are differences of times on
      the same day, taken from the "from" checkpoint. The query is inside its bracket,
      so the duration is positive and the progress lies in 0..duration; the division
      in the channel interpolator is therefore never by zero. */
  function Transit(table: seq<Checkpoint>, q: TimeOfDay): (t: Option<Transition>)
    ensures t.None? <==> Resolve(table, q).None?
    ensures t.Some? ==> 0.0 <= t.value.progress < t.value.duration
    ensures t.Some? ==> t.value.from == Resolve(table, q).value.from.color
    ensures t.Some? ==> t.value.to == Resolve(table, q).value.to.color
  {
    match Resolve(table, q)
    case None => None
    case Some(b) =>
      Some(Transition(b.from.color, b.to.color,
                      (b.to.time - b.from.time) as real, (q - b.from.time) as real))
  }

  /** The channel interpolator applied to red, green and blue in turn. */
  function Blend(from: Rgb, to: Rgb, duration: real, progress: real): (c: Rgb)
    requires duration != 0.0
    ensures progress == 0.0 ==> c == from
    ensures progress == duration ==> c == to
    ensures from == to ==> c == from
  {
    Rgb(StepColor(from.red, to.red, duration, progress),
        StepColor(from.green, to.green, duration, progress),
        StepColor(from.blue, to.blue, duration, progress))
  }

  /** The colour for query time `q`, or None when no checkpoint is later than `q`
      (the "to" end of the transition is then never assigned). */
  function Shade(table: seq<Checkpoint>, q: TimeOfDay): (c: Option<Rgb>)
    ensures c.None? <==> forall j :: 0 <= j < |table| ==> table[j].time <= q
  {
    match Transit(table, q)
    case None => None
    case Some(t) => Some(Blend(t.from, t.to, t.duration, t.progress))
  }

  /** Channel by channel, `c` lies between `a` and `b`. */
  ghost predicate Between(c: Rgb, a: Rgb, b: Rgb)
  {
    Min(a.red, b.red) <= c.red <= Max(a.red, b.red) &&
    Min(a.green, b.green) <= c.green <= Max(a.green, b.green) &&
    Min(a.blue, b.blue) <= c.blue <= Max(a.blue, b.blue)
  }

  /** Channel by channel, going from `c1` to `c2` moves in the direction from `a` to `b`. */
  ghost predicate Toward(c1: Rgb, c2: Rgb, a: Rgb, b: Rgb)
  {
    (a.red <= b.red ==> c1.red <= c2.red) && (b.red <= a.red ==> c2.red <= c1.red) &&
    (a.green <= b.green ==> c1.green <= c2.green) && (b.green <= a.green ==> c2.green <= c1.green) &&
    (a.blue <= b.blue ==> c1.blue <= c2.blue) && (b.blue <= a.blue ==> c2.blue <= c1.blue)
  }

  /** Any table: the colour shown lies between the colours of the two bracketing
      checkpoints. */
  lemma ShadeBetween(table: seq<Checkpoint>, q: TimeOfDay)
    ensures Shade(table, q).Some? ==>
      Between(Shade(table, q).value, Resolve(table, q).value.from.color, Resolve(table, q).value.to.color)
  {
    if Shade(table, q).None? {
      return;
    }
    var t := Transit(table, q).value;
    StepColorBetween(t.from.red, t.to.red, t.duration, t.progress);
    StepColorBetween(t.from.green, t.to.green, t.duration, t.progress);
    StepColorBetween(t.from.blue, t.to.blue, t.duration, t.progress);
  }

  /** Checkpoint colours that are bytes give byte colours at every time. */
  lemma ShadeInByteRange(table: seq<Checkpoint>, q: TimeOfDay)
    requires forall i :: 0 <= i < |table| ==> InByteRange(table[i].color)
    ensures Shade(table, q).Some? ==> InByteRange(Shade(table, q).value)
  {
    if Shade(table, q).None? {
      return;
    }
    var b := Resolve(table, q).value;
    assert InByteRange(b.from.color) by {
      var k := FirstLater(table, q).value;
      if 0 < k {
        assert b.from == table[k - 1];
      }
    }
    assert InByteRange(b.to.color) by {
      assert b.to == table[FirstLater(table, q).value];
    }
    var t := Transit(table, q).value;
    StepColorInRange(t.from.red, t.to.red, t.duration, t.progress, 0.0, 255.0);
    StepColorInRange(t.from.green, t.to.green, t.duration, t.progress, 0.0, 255.0);
    StepColorInRange(t.from.blue, t.to.blue, t.duration, t.progress, 0.0, 255.0);
  }

  /** Two queries in the same bracket: the later one is further along the fade. */
  lemma ShadeMonotone(table: seq<Checkpoint>, q1: TimeOfDay, q2: TimeOfDay)
    requires q1 <= q2 && Resolve(table, q1).Some? && Resolve(table, q1) == Resolve(table, q2)
    ensures Toward(Shade(table, q1).value, Shade(table, q2).value,
                   Resolve(table, q1).value.from.color, Resolve(table, q1).value.to.color)
  {
    var t1, t2 := Transit(table, q1).value, Transit(table, q2).value;
    assert t1.duration == t2.duration && t1.progress <= t2.progress;
    StepColorMonotone(t1.from.red, t1.to.red, t1.duration, t1.progress, t2.progress);
    StepColorMonotone(t1.from.green, t1.to.green, t1.duration, t1.progress, t2.progress);
    StepColorMonotone(t1.from.blue, t1.to.blue, t1.duration, t1.progress, t2.progress);
  }

  /** An ordered table: at a checkpoint's own time the progress is zero and the colour
      is exactly that checkpoint's; at the last checkpoint there is no colour. */
  lemma ShadeAtCheckpoint(table: seq<Checkpoint>, i: nat)
    requires StrictlyIncreasing(table) && i < |table|
    ensures i + 1 < |table| ==> Shade(table, table[i].time) == Some(table[i].color)
    ensures i + 1 == |table| ==> Shade(table, table[i].time) == None
  {
    ResolveAtCheckpoint(table, i);
  }

  /** An ordered non-empty table: there is no colour exactly when the query is at or
      after the last checkpoint. */
  lemma ShadeFailsIff(table: seq<Checkpoint>, q: TimeOfDay)
    requires StrictlyIncreasing(table) && |table| > 0
    ensures Shade(table, q).None? <==> table[|table| - 1].time <= q
  {
    ResolveFailsIff(table, q);
  }

  /** The evening schedule: halfway between 20:00 (off) and 20:30 (sky blue) the
      colour is halfway from black to (102, 255, 255). */
  lemma ColorsQuarterPastEight()
    ensures Shade(Colors, Clock(20, 15, 0)) == Some(Rgb(51.0, 127.5, 127.5))
  {
    ColorsWellFormed();
    ResolveBrackets(Colors, Clock(20, 15, 0), 1);
  }

  /** The evening schedule: before 20:00 the fade runs from black at midnight to
      black at 20:00, so the light is off. */
  lemma ColorsOffBeforeEight(q: TimeOfDay)
    requires q < Clock(20, 0, 0)
    ensures Shade(Colors, q) == Some(Black)
  {
    ColorsWellFormed();
    ResolveBrackets(Colors, q, 0);
  }

  /** The evening schedule: from 23:59:59 on there is no later checkpoint and no colour. */
  lemma ColorsNoneFromLastSecond(q: TimeOfDay)
    requires Clock(23, 59, 59) <= q
    ensures Shade(Colors, q) == None
  {
    ColorsWellFormed();
    ShadeFailsIff(Colors, q);
  }

  /** The evening schedule: whenever there is a colour, every channel is a byte. */
  lemma ColorsInByteRange(q: TimeOfDay)
    requires q < Clock(23, 59, 59)
    ensures Shade(Colors, q).Some? && InByteRange(Shade(Colors, q).value)
  {
    ColorsWellFormed();
    ShadeFailsIff(Colors, q);
    ShadeInByteRange(Colors, q);
  }
}
