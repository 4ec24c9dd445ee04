/** Integer-minute time arithmetic shared by the whole scheduling core.

    An instant is a number of minutes since an epoch in the salon's local
    time. Its calendar day is `t / 1440` and its wall-clock `HH:mm` is
    `t % 1440` (Dafny's division is floor division for a positive divisor,
    which is what a calendar wants for instants before the epoch too).
 */
module TimeGrid {

  const MinutesPerDay: int := 1440

  /** Granularity of the slot grid and of every booking tick list. */
  const SlotMinutes: int := 30

  /** The `yyyy-MM-dd` label of an instant, as a day number. */
  function DayOf(t: int): int {
    t / MinutesPerDay
  }

  /** The `HH:mm` label of an instant, as minutes after midnight. */
  function TimeOf(t: int): (r: int)
    ensures 0 <= r < MinutesPerDay
  {
    t % MinutesPerDay
  }

  /** The instant at wall-clock time `tod` on day `day`. */
  function At(day: int, tod: int): int {
    day * MinutesPerDay + tod
  }

  /** Splitting an instant into day and time of day loses nothing. */
  lemma SplitJoin(t: int)
    ensures At(DayOf(t), TimeOf(t)) == t
  {
  }

  /** Joining a day and an in-range time of day is undone by splitting. */
  lemma JoinSplit(day: int, tod: int)
    requires 0 <= tod < MinutesPerDay
    ensures DayOf(At(day, tod)) == day && TimeOf(At(day, tod)) == tod
  {
    var t := At(day, tod);
    assert t == day * MinutesPerDay + tod;
  }

  /** The values of a loop `for (c = cursor; c < end; c += step)`. */
  function Steps(cursor: int, end: int, step: int): (r: seq<int>)
    requires step > 0
    decreases end - cursor
    ensures forall i :: 0 <= i < |r| ==> r[i] == cursor + step * i
    ensures forall i :: 0 <= i < |r| ==> r[i] < end
    ensures cursor + step * |r| >= end
    ensures |r| == 0 <==> cursor >= end
  {
    if cursor < end then
      var rest := Steps(cursor + step, end, step);
      assert cursor + step + step * |rest| == cursor + step * (|rest| + 1);
      assert forall i :: 1 <= i <= |rest| ==> cursor + step + step * (i - 1) == cursor + step * i;
      [cursor] + rest
    else
      []
  }

  lemma MulMonotone(step: int, a: int, b: int)
    requires step > 0 && a <= b
    ensures step * a <= step * b
  {
    assert step * b - step * a == step * (b - a);
  }

  lemma MulStrictlyMonotone(step: int, a: int, b: int)
    requires step > 0 && a < b
    ensures step * a < step * b
  {
    MulMonotone(step, a + 1, b);
    assert step * (a + 1) == step * a + step;
  }

  /** A whole number of steps leaves no remainder. */
  lemma DivModOfMultiple(step: int, i: int)
    requires step > 0
    ensures (step * i) % step == 0 && (step * i) / step == i
  {
    var q := step * i;
    var d := q / step;
    var m := q % step;
    assert q == step * d + m;
    assert step * (i - d) == m;
    if i - d >= 1 {
      MulMonotone(step, 1, i - d);
    } else if i - d <= -1 {
      MulMonotone(step, i - d, -1);
    }
  }

  /** A non-negative multiple of `step` is `step` times its quotient. */
  lemma MultipleQuotient(d: int, step: int)
    requires step > 0 && d >= 0 && d % step == 0
    ensures d / step >= 0 && d == step * (d / step)
  {
  }

  /** A product with a positive factor is strictly ordered as the other
      factors are. */
  lemma MulCancelLess(step: int, a: int, b: int)
    requires step > 0 && step * a < step * b
    ensures a < b
  {
    if b <= a {
      MulMonotone(step, b, a);
    }
  }

  /** Every whole number of steps that stays before `end` is visited. */
  lemma StepsIndex(cursor: int, end: int, step: int, k: int)
    requires step > 0 && k >= 0 && cursor + step * k < end
    ensures k < |Steps(cursor, end, step)|
    ensures Steps(cursor, end, step)[k] == cursor + step * k
  {
    var n := |Steps(cursor, end, step)|;
    assert step * k < step * n;
    MulCancelLess(step, k, n);
  }

  /** Every visited value lies in `[cursor, end)` a whole number of steps
      after `cursor`. */
  lemma StepsOnGrid(cursor: int, end: int, step: int, i: int)
    requires step > 0 && 0 <= i < |Steps(cursor, end, step)|
    ensures var x := Steps(cursor, end, step)[i];
      cursor <= x < end && (x - cursor) % step == 0
  {
    DivModOfMultiple(step, i);
    MulMonotone(step, 0, i);
  }

  /** A value is visited by the loop exactly when it lies in `[cursor, end)`
      and is a whole number of steps after `cursor`. */
  lemma StepsMembership(cursor: int, end: int, step: int, x: int)
    requires step > 0
    ensures x in Steps(cursor, end, step)
        <==> cursor <= x < end && (x - cursor) % step == 0
  {
    var r := Steps(cursor, end, step);
    if x in r {
      var i :| 0 <= i < |r| && r[i] == x;
      StepsOnGrid(cursor, end, step, i);
    }
    if cursor <= x < end && (x - cursor) % step == 0 {
      var k := (x - cursor) / step;
      MultipleQuotient(x - cursor, step);
      StepsIndex(cursor, end, step, k);
    }
  }

  /** Visited values are strictly ascending. */
  lemma StepsAscending(cursor: int, end: int, step: int, i: int, j: int)
    requires step > 0
    requires 0 <= i < j < |Steps(cursor, end, step)|
    ensures Steps(cursor, end, step)[i] < Steps(cursor, end, step)[j]
  {
    MulMonotone(step, i + 1, j);
  }

  /** The cursor values of the booking loop `while (cursor < end) { push;
      cursor += 30 }`: every 30 minutes from `cursor` while before `end`. */
  function Ticks(cursor: int, end: int): (r: seq<int>)
    ensures |r| == if cursor < end then (end - cursor + SlotMinutes - 1) / SlotMinutes else 0
    ensures forall i :: 0 <= i < |r| ==> r[i] == cursor + SlotMinutes * i
  {
    var r := Steps(cursor, end, SlotMinutes);
    assert |r| > 0 ==> r[|r| - 1] < end;
    r
  }

  /** An instant is a tick of `[cursor, end)` exactly when it lies in the
      window and is a whole number of slot lengths after `cursor`. */
  lemma TicksMembership(cursor: int, end: int, x: int)
    ensures x in Ticks(cursor, end)
        <==> cursor <= x < end && (x - cursor) % SlotMinutes == 0
  {
    StepsMembership(cursor, end, SlotMinutes, x);
  }

  /** Ticks are strictly ascending, hence the tick list has no repeats. */
  lemma TicksAscending(cursor: int, end: int)
    ensures forall i, j :: 0 <= i < j < |Ticks(cursor, end)| ==> Ticks(cursor, end)[i] < Ticks(cursor, end)[j]
  {
  }

  /** The `HH:mm` labels of the ticks of a booking of `duration` minutes
      starting at `start` (the `bookedTimes` / `timesToFree` lists). */
  function TickTimes(start: int, duration: int): (r: seq<int>)
    ensures |r| == |Ticks(start, start + duration)|
    ensures forall i :: 0 <= i < |r| ==> r[i] == TimeOf(start + SlotMinutes * i)
  {
    var ts := Ticks(start, start + duration);
    seq(|ts|, i requires 0 <= i < |ts| => TimeOf(ts[i]))
  }

  /** The tick list has `ceil(duration / 30)` entries for a positive
      duration and none otherwise. */
  lemma TickCount(start: int, duration: int)
    ensures duration > 0 ==> |TickTimes(start, duration)| * SlotMinutes >= duration
    ensures duration > 0 ==> (|TickTimes(start, duration)| - 1) * SlotMinutes < duration
    ensures duration <= 0 ==> TickTimes(start, duration) == []
  {
  }

  /** A wall-clock time is in the tick list exactly when some tick of the
      booking window carries that `HH:mm` label. */
  lemma TickTimesMembership(start: int, duration: int, tod: int)
    ensures tod in TickTimes(start, duration)
        <==> exists k :: 0 <= k && SlotMinutes * k < duration && TimeOf(start + SlotMinutes * k) == tod
  {
    var r := TickTimes(start, duration);
    if tod in r {
      var i :| 0 <= i < |r| && r[i] == tod;
      assert SlotMinutes * i < duration;
    }
    if exists k :: 0 <= k && SlotMinutes * k < duration && TimeOf(start + SlotMinutes * k) == tod {
      var k :| 0 <= k && SlotMinutes * k < duration && TimeOf(start + SlotMinutes * k) == tod;
      TicksMembership(start, start + duration, start + SlotMinutes * k);
      assert k < |r| by {
        assert (duration + SlotMinutes - 1) / SlotMinutes >= k + 1;
      }
      assert r[k] == tod;
    }
  }
}
