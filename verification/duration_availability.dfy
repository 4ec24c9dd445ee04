/** The duration-stepped availability calculator: for each of the seven
    days from today, candidate start times from 10:00 stepping by the
    service's duration while before 18:00, minus the times at which an
    appointment of the employee (of any status) starts that day. */
module DurationAvailability {
  import opened Domain
  import opened TimeGrid
  import opened ServiceCatalogue

  const StartHour: int := 10
  const EndHour: int := 18
  const DaysAhead: int := 7

  const OpenMinute: int := StartHour * 60
  const CloseMinute: int := EndHour * 60

  /** `Service.findById`: the catalogue entry with that id, if any. */
  function FindById(cat: Catalogue, id: ServiceId): (r: Option<Service>)
    ensures r.Some? ==> r.value in cat && r.value.id == id
    ensures r.None? ==> forall s :: s in cat ==> s.id != id
  {
    if cat == [] then None
    else if cat[0].id == id then Some(cat[0])
    else FindById(cat[1..], id)
  }

  /** The appointments of `emp` starting within that day's opening hours,
      whatever their status. */
  predicate StartsThatDay(a: Appointment, emp: UserId, day: int) {
    a.employeeId == emp && At(day, OpenMinute) <= a.date < At(day, CloseMinute)
  }

  /** `takenSlots`: the `HH:mm` of each such appointment. */
  function TakenTimes(appts: seq<Appointment>, emp: UserId, day: int): (r: seq<int>)
    ensures forall t :: t in r <==> exists i :: 0 <= i < |appts| && StartsThatDay(appts[i], emp, day) && TimeOf(appts[i].date) == t
    decreases |appts|
  {
    if appts == [] then []
    else
      var last := appts[|appts| - 1];
      var prev := TakenTimes(appts[..|appts| - 1], emp, day);
      assert forall i :: 0 <= i < |appts| - 1 ==> appts[..|appts| - 1][i] == appts[i];
      prev + (if StartsThatDay(last, emp, day) then [TimeOf(last.date)] else [])
  }

  predicate Ascending(s: seq<int>) {
    forall i, j :: 0 <= i < j < |s| ==> s[i] < s[j]
  }

  function NotTaken(taken: seq<int>): int -> bool {
    t => t !in taken
  }

  /** The `HH:mm` labels of the day's loop `slot = 10:00; slot < 18:00;
      slot += duration`. */
  function CandidateTimes(day: int, duration: int): (r: seq<int>)
    requires duration > 0
    ensures forall i :: 0 <= i < |r| ==> r[i] == OpenMinute + duration * i
    ensures forall i :: 0 <= i < |r| ==> r[i] < CloseMinute
    ensures OpenMinute + duration * |r| >= CloseMinute
    ensures Ascending(r)
  {
    var ts := Steps(At(day, OpenMinute), At(day, CloseMinute), duration);
    var r := seq(|ts|, i requires 0 <= i < |ts| => TimeOf(ts[i]));
    assert forall i :: 0 <= i < |r| ==> r[i] == OpenMinute + duration * i by {
      forall i | 0 <= i < |r| ensures r[i] == OpenMinute + duration * i {
        CandidateLabel(day, duration, ts[i], i);
      }
    }
    assert Ascending(r) by {
      forall i, j | 0 <= i < j < |r| ensures r[i] < r[j] {
        MulStrictlyMonotone(duration, i, j);
      }
    }
    r
  }

  lemma CandidateLabel(day: int, duration: int, x: int, i: int)
    requires duration > 0 && i >= 0
    requires x == At(day, OpenMinute) + duration * i && x < At(day, CloseMinute)
    ensures TimeOf(x) == OpenMinute + duration * i
  {
    MulMonotone(duration, 0, i);
    assert x == At(day, OpenMinute + duration * i);
    JoinSplit(day, OpenMinute + duration * i);
  }

  /** The candidate list of one day. */
  function DaySlots(appts: seq<Appointment>, emp: UserId, day: int, duration: int): seq<int>
    requires duration > 0
  {
    Where(CandidateTimes(day, duration), NotTaken(TakenTimes(appts, emp, day)))
  }

  /** Every candidate lies in opening hours on the duration grid. */
  lemma DaySlotsOnGrid(appts: seq<Appointment>, emp: UserId, day: int, duration: int, t: int)
    requires duration > 0
    requires t in DaySlots(appts, emp, day, duration)
    ensures OpenMinute <= t < CloseMinute && (t - OpenMinute) % duration == 0
  {
    var c := CandidateTimes(day, duration);
    assert t in c;
    var i :| 0 <= i < |c| && c[i] == t;
    CandidateOnGrid(duration, i, t);
  }

  /** The `i`-th candidate lies on the duration grid from opening time. */
  lemma CandidateOnGrid(duration: int, i: int, t: int)
    requires duration > 0 && i >= 0 && t == OpenMinute + duration * i
    ensures OpenMinute <= t && (t - OpenMinute) % duration == 0
  {
    DivModOfMultiple(duration, i);
    MulMonotone(duration, 0, i);
  }

  /** A grid time is offered exactly when no appointment of the employee,
      of any status, starts at that very minute of that day. */
  lemma DaySlotsExclusion(appts: seq<Appointment>, emp: UserId, day: int, duration: int, t: int)
    requires duration > 0
    requires OpenMinute <= t < CloseMinute && (t - OpenMinute) % duration == 0
    ensures t in DaySlots(appts, emp, day, duration)
        <==> !exists i :: 0 <= i < |appts| && appts[i].employeeId == emp && appts[i].date == At(day, t)
  {
    var c := CandidateTimes(day, duration);
    var k := (t - OpenMinute) / duration;
    assert t - OpenMinute == duration * k + (t - OpenMinute) % duration;
    StepsMembership(At(day, OpenMinute), At(day, CloseMinute), duration, At(day, t));
    var ts := Steps(At(day, OpenMinute), At(day, CloseMinute), duration);
    var m :| 0 <= m < |ts| && ts[m] == At(day, t);
    JoinSplit(day, t);
    assert c[m] == t;
    forall i | 0 <= i < |appts| && StartsThatDay(appts[i], emp, day)
      ensures TimeOf(appts[i].date) == t <==> appts[i].date == At(day, t)
    {
      SplitJoin(appts[i].date);
      assert DayOf(appts[i].date) == day;
    }
  }

  /** Each day's candidates are strictly ascending. */
  lemma DaySlotsAscending(appts: seq<Appointment>, emp: UserId, day: int, duration: int)
    requires duration > 0
    ensures Ascending(DaySlots(appts, emp, day, duration))
  {
    WhereKeepsOrder(CandidateTimes(day, duration), NotTaken(TakenTimes(appts, emp, day)), (a: int, b: int) => a < b);
  }

  /** The response body: days with at least one candidate, ascending, and
      each such day's candidates. */
  datatype Week = Week(dates: seq<int>, slots: map<int, seq<int>>)

  /** The day loop over the first `n` days from `today`, for any per-day
      candidate list `offer`: a day is answered when its list is non-empty. */
  function Days(offer: int -> seq<int>, today: int, n: nat): (r: Week)
    ensures forall d :: d in r.slots <==> today <= d < today + n && offer(d) != []
    ensures forall d :: d in r.slots ==> r.slots[d] == offer(d)
    ensures forall d :: d in r.dates <==> d in r.slots
    ensures forall i, j :: 0 <= i < j < |r.dates| ==> r.dates[i] < r.dates[j]
    ensures forall i :: 0 <= i < |r.dates| ==> r.dates[i] < today + n
  {
    if n == 0 then Week([], map[])
    else
      var prev := Days(offer, today, n - 1);
      var day := today + n - 1;
      var c := offer(day);
      if c == [] then prev
      else
        var dates := prev.dates + [day];
        assert forall i :: 0 <= i < |prev.dates| ==> dates[i] == prev.dates[i];
        Week(dates, prev.slots[day := c])
  }

  datatype CalcReply =
    | Answer(code: int, week: Option<Week>)
    | Hangs   // a non-positive duration never ends the candidate loop

  /** The GET handler. */
  function Calculate(appts: seq<Appointment>, cat: Catalogue, emp: Option<UserId>,
                     serviceId: Option<ServiceId>, today: int): (r: CalcReply)
    ensures r.Answer? ==> r.code in {200, 400, 404}
    ensures (emp.None? || serviceId.None?) <==> r == Answer(400, None)
    ensures r == Answer(404, None) <==>
      emp.Some? && serviceId.Some? && forall s :: s in cat ==> s.id != serviceId.value
    ensures r.Hangs? <==>
      emp.Some? && serviceId.Some? && FindById(cat, serviceId.value).Some?
      && FindById(cat, serviceId.value).value.duration <= 0
    ensures r.Answer? && r.code == 200 ==>
      var duration := FindById(cat, serviceId.value).value.duration;
      && r.week.Some? && duration > 0
      && (forall d :: d in r.week.value.dates <==> today <= d < today + DaysAhead && DaySlots(appts, emp.value, d, duration) != [])
      && (forall d :: d in r.week.value.slots <==> d in r.week.value.dates)
      && (forall d :: d in r.week.value.slots ==> r.week.value.slots[d] == DaySlots(appts, emp.value, d, duration))
      && (forall i, j :: 0 <= i < j < |r.week.value.dates| ==> r.week.value.dates[i] < r.week.value.dates[j])
  {
    if emp.None? || serviceId.None? then Answer(400, None)
    else
      var service := FindById(cat, serviceId.value);
      if service.None? then Answer(404, None)
      else if service.value.duration <= 0 then Hangs
      else
        var duration := service.value.duration;
        Answer(200, Some(Days(d => DaySlots(appts, emp.value, d, duration), today, DaysAhead)))
  }
}
