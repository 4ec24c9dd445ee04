/** The slot routes: role-gated, idempotent generation of the fixed
    half-hour grid for the coming week, and the listing of an employee's
    free slots grouped by date. */
module SlotRoutes {
  import opened Domain
  import opened TimeGrid
  import opened SlotStore

  const StartHour: int := 10
  const EndHour: int := 18
  const DaysAhead: int := 7

  /** Number of grid times per day: 10:00, 10:30, ..., 17:30. */
  const SlotsPerDay: int := 16

  /** The `HH:mm` times of one generated day: every 30 minutes from 10:00
      while before 18:00. */
  function DayTimes(): (r: seq<int>)
    ensures |r| == SlotsPerDay
    ensures forall j :: 0 <= j < |r| ==> r[j] == StartHour * 60 + SlotMinutes * j
  {
    Ticks(StartHour * 60, EndHour * 60)
  }

  /** The (date, time) pairs generation visits, day by day and within a
      day by time. */
  function Grid(today: int): (r: seq<(int, int)>)
    ensures |r| == DaysAhead * SlotsPerDay
  {
    seq(DaysAhead * SlotsPerDay, k requires 0 <= k < DaysAhead * SlotsPerDay =>
      (today + k / SlotsPerDay, StartHour * 60 + SlotMinutes * (k % SlotsPerDay)))
  }

  lemma GridIndex(today: int, i: int, j: int)
    requires 0 <= i < DaysAhead && 0 <= j < SlotsPerDay
    ensures 0 <= i * SlotsPerDay + j < |Grid(today)|
    ensures Grid(today)[i * SlotsPerDay + j] == (today + i, DayTimes()[j])
  {
    var k := i * SlotsPerDay + j;
    assert k / SlotsPerDay == i && k % SlotsPerDay == j;
  }

  /** The generated grid is exactly the seven days from `today` crossed
      with the half-hour times from 10:00 up to and including 17:30. */
  lemma GridMembership(today: int, day: int, time: int)
    ensures (day, time) in Grid(today)
        <==> today <= day < today + DaysAhead
             && StartHour * 60 <= time < EndHour * 60
             && (time - StartHour * 60) % SlotMinutes == 0
  {
    var g := Grid(today);
    if today <= day < today + DaysAhead && StartHour * 60 <= time < EndHour * 60
       && (time - StartHour * 60) % SlotMinutes == 0 {
      var j := (time - StartHour * 60) / SlotMinutes;
      GridIndex(today, day - today, j);
    }
  }

  /** `findOne` then `create` for one grid cell: a new free slot only when
      no row exists for that (employee, date, time). */
  function InsertIfMissing(slots: seq<Slot>, emp: UserId, cell: (int, int)): seq<Slot> {
    if HasSlot(slots, emp, cell.0, cell.1) then slots
    else slots + [Slot(emp, cell.0, cell.1, false)]
  }

  /** Check-then-create over a list of cells, in order. */
  function InsertAll(slots: seq<Slot>, emp: UserId, cells: seq<(int, int)>): seq<Slot>
    decreases |cells|
  {
    if cells == [] then slots
    else InsertIfMissing(InsertAll(slots, emp, cells[..|cells| - 1]), emp, cells[|cells| - 1])
  }

  /** What check-then-create guarantees: existing rows are kept as they
      are, in place; every new row is a free slot of `emp` at one of the
      cells; and afterwards every cell has a row. */
  lemma {:induction false} InsertAllEffect(slots: seq<Slot>, emp: UserId, cells: seq<(int, int)>)
    ensures |InsertAll(slots, emp, cells)| >= |slots|
    ensures InsertAll(slots, emp, cells)[..|slots|] == slots
    ensures forall i :: |slots| <= i < |InsertAll(slots, emp, cells)| ==>
      var s := InsertAll(slots, emp, cells)[i];
      s.employeeId == emp && !s.isBooked && (s.date, s.time) in cells
    ensures forall c :: c in cells ==> HasSlot(InsertAll(slots, emp, cells), emp, c.0, c.1)
    decreases |cells|
  {
    if cells != [] {
      var init := cells[..|cells| - 1];
      var last := cells[|cells| - 1];
      InsertAllEffect(slots, emp, init);
      var mid := InsertAll(slots, emp, init);
      var r := InsertIfMissing(mid, emp, last);
      assert r[..|mid|] == mid;
      assert r[..|slots|] == mid[..|slots|];
      forall c | c in cells ensures HasSlot(r, emp, c.0, c.1) {
        if c in init {
          var i :| 0 <= i < |mid| && Key(mid[i]) == (emp, c.0, c.1);
          assert r[i] == mid[i];
        } else {
          assert c == last;
          if !HasSlot(mid, emp, c.0, c.1) {
            assert Key(r[|mid|]) == (emp, c.0, c.1);
          }
        }
      }
    }
  }

  /** Check-then-create adds no duplicate to a duplicate-free store. */
  lemma {:induction false} InsertAllKeepsNoDuplicates(slots: seq<Slot>, emp: UserId, cells: seq<(int, int)>)
    requires NoDuplicates(slots)
    ensures NoDuplicates(InsertAll(slots, emp, cells))
    decreases |cells|
  {
    if cells != [] {
      var init := cells[..|cells| - 1];
      var last := cells[|cells| - 1];
      InsertAllKeepsNoDuplicates(slots, emp, init);
      var mid := InsertAll(slots, emp, init);
      if !HasSlot(mid, emp, last.0, last.1) {
        var r := mid + [Slot(emp, last.0, last.1, false)];
        forall i, j | 0 <= i < j < |r| ensures Key(r[i]) != Key(r[j]) {
          if j == |mid| {
            assert r[i] == mid[i];
          } else {
            assert r[i] == mid[i] && r[j] == mid[j];
          }
        }
      }
    }
  }

  /** When every cell already has a row, check-then-create writes nothing. */
  lemma {:induction false} InsertAllNoop(slots: seq<Slot>, emp: UserId, cells: seq<(int, int)>)
    requires forall c :: c in cells ==> HasSlot(slots, emp, c.0, c.1)
    ensures InsertAll(slots, emp, cells) == slots
    decreases |cells|
  {
    if cells != [] {
      var init := cells[..|cells| - 1];
      InsertAllNoop(slots, emp, init);
      assert cells[|cells| - 1] in cells;
    }
  }

  /** The generation loop of the `/generate` handler: for each of the seven
      days from `today` and each grid time, create the slot if no row
      exists yet. */
  method GenerateSlots(slots: seq<Slot>, emp: UserId, today: int) returns (r: seq<Slot>)
    ensures r == InsertAll(slots, emp, Grid(today))
  {
    r := slots;
    var i := 0;
    while i < DaysAhead
      invariant 0 <= i <= DaysAhead
      invariant r == InsertAll(slots, emp, Grid(today)[..i * SlotsPerDay])
    {
      var day := today + i;
      var time := At(day, StartHour * 60);
      var endTime := At(day, EndHour * 60);
      var j := 0;
      while time < endTime
        invariant 0 <= j <= SlotsPerDay
        invariant time == At(day, StartHour * 60 + SlotMinutes * j)
        invariant r == InsertAll(slots, emp, Grid(today)[..i * SlotsPerDay + j])
        decreases endTime - time
      {
        var timeStr := TimeOf(time);
        JoinSplit(day, StartHour * 60 + SlotMinutes * j);
        GridIndex(today, i, j);
        var cells := Grid(today)[..i * SlotsPerDay + j + 1];
        assert cells[..|cells| - 1] == Grid(today)[..i * SlotsPerDay + j];
        if !HasSlot(r, emp, day, timeStr) {
          r := r + [Slot(emp, day, timeStr, false)];
        }
        time := time + SlotMinutes;
        j := j + 1;
      }
      i := i + 1;
    }
    assert Grid(today)[..DaysAhead * SlotsPerDay] == Grid(today);
  }

  /** The `/generate` handler: 403 with no write unless the principal holds
      the `employee` or `admin` role; otherwise the grid is generated. */
  method Generate(slots: seq<Slot>, principal: Principal, emp: UserId, today: int)
    returns (code: int, r: seq<Slot>)
    ensures !HasRole(principal.roles, "employee") && !HasRole(principal.roles, "admin")
      ==> code == 403 && r == slots
    ensures HasRole(principal.roles, "employee") || HasRole(principal.roles, "admin")
      ==> code == 200 && r == InsertAll(slots, emp, Grid(today))
  {
    if !HasRole(principal.roles, "employee") && !HasRole(principal.roles, "admin") {
      return 403, slots;
    }
    r := GenerateSlots(slots, emp, today);
    code := 200;
  }

  /** After generation every cell of the week's grid has a slot for the
      employee, every pre-existing row is kept as it was, and every added row
      is a free slot of that employee inside the grid. */
  lemma GenerationEffect(slots: seq<Slot>, emp: UserId, today: int)
    ensures |InsertAll(slots, emp, Grid(today))| >= |slots|
    ensures var r := InsertAll(slots, emp, Grid(today));
      && r[..|slots|] == slots
      && (forall d, t :: today <= d < today + DaysAhead && t in DayTimes() ==> HasSlot(r, emp, d, t))
      && (forall i :: |slots| <= i < |r| ==>
            r[i].employeeId == emp && !r[i].isBooked
            && today <= r[i].date < today + DaysAhead && r[i].time in DayTimes())
  {
    var r := InsertAll(slots, emp, Grid(today));
    InsertAllEffect(slots, emp, Grid(today));
    forall d, t | today <= d < today + DaysAhead && t in DayTimes() ensures HasSlot(r, emp, d, t) {
      var j :| 0 <= j < |DayTimes()| && DayTimes()[j] == t;
      GridIndex(today, d - today, j);
      assert (d, t) in Grid(today);
    }
    forall i | |slots| <= i < |r|
      ensures today <= r[i].date < today + DaysAhead && r[i].time in DayTimes()
    {
      GridMembership(today, r[i].date, r[i].time);
      var j := (r[i].time - StartHour * 60) / SlotMinutes;
      assert DayTimes()[j] == r[i].time;
    }
  }

  /** Rerunning generation for the same employee and week writes nothing. */
  lemma GenerationIdempotent(slots: seq<Slot>, emp: UserId, today: int)
    ensures var once := InsertAll(slots, emp, Grid(today));
      InsertAll(once, emp, Grid(today)) == once
  {
    var once := InsertAll(slots, emp, Grid(today));
    InsertAllEffect(slots, emp, Grid(today));
    InsertAllNoop(once, emp, Grid(today));
  }

  /** Generation keeps (employee, date, time) unique. */
  lemma GenerationKeepsNoDuplicates(slots: seq<Slot>, emp: UserId, today: int)
    requires NoDuplicates(slots)
    ensures NoDuplicates(InsertAll(slots, emp, Grid(today)))
  {
    InsertAllKeepsNoDuplicates(slots, emp, Grid(today));
  }

  // ---- GET /availability ----

  /** The rows `Slot.find({ employeeId, isBooked: false })` matches. */
  function FreeOf(emp: UserId): Slot -> bool {
    (s: Slot) => s.employeeId == emp && !s.isBooked
  }

  /** `Slot.find({ employeeId, isBooked: false })`: the employee's free rows;
      `FreeSlotsInStoreOrder` shows they come in store order, each row once. */
  function FreeSlotsOf(slots: seq<Slot>, emp: UserId): (r: seq<Slot>)
    ensures forall s :: s in r <==> s in slots && s.employeeId == emp && !s.isBooked
    decreases |slots|
  {
    if slots == [] then []
    else
      var init := slots[..|slots| - 1];
      var last := slots[|slots| - 1];
      assert slots == init + [last];
      FreeSlotsOf(init, emp) + (if FreeOf(emp)(last) then [last] else [])
  }

  /** The listing is the strictly ascending run of positions of the
      employee's free rows, read off `slots`: no row is reordered, dropped
      or repeated. */
  lemma {:induction false} FreeSlotsInStoreOrder(slots: seq<Slot>, emp: UserId)
    ensures |FreeSlotsOf(slots, emp)| == |Positions(slots, FreeOf(emp))|
    ensures forall k :: 0 <= k < |FreeSlotsOf(slots, emp)| ==>
      FreeSlotsOf(slots, emp)[k] == slots[Positions(slots, FreeOf(emp))[k]]
    decreases |slots|
  {
    if slots != [] {
      var init := slots[..|slots| - 1];
      FreeSlotsInStoreOrder(init, emp);
      WhereStep(slots, FreeOf(emp), FreeSlotsOf(init, emp), FreeSlotsOf(slots, emp));
    }
  }

  /** The times of the listed slots on date `d`, in listing order. */
  function TimesOn(free: seq<Slot>, d: int): seq<int>
    decreases |free|
  {
    if free == [] then []
    else
      var last := free[|free| - 1];
      TimesOn(free[..|free| - 1], d) + (if last.date == d then [last.time] else [])
  }

  lemma {:induction false} TimesOnMembership(free: seq<Slot>, d: int, t: int)
    ensures t in TimesOn(free, d) <==> exists i :: 0 <= i < |free| && free[i].date == d && free[i].time == t
    decreases |free|
  {
    if free != [] {
      var init := free[..|free| - 1];
      TimesOnMembership(init, d, t);
      if exists i :: 0 <= i < |free| && free[i].date == d && free[i].time == t {
        var i :| 0 <= i < |free| && free[i].date == d && free[i].time == t;
        if i < |init| {
          assert init[i] == free[i];
        }
      }
    }
  }

  lemma TimesOnAbsent(free: seq<Slot>, d: int)
    requires !Occurs(free, d)
    ensures TimesOn(free, d) == []
  {
    if TimesOn(free, d) != [] {
      TimesOnMembership(free, d, TimesOn(free, d)[0]);
    }
  }

  /** The response body: dates in first-seen order and times per date. */
  datatype Grouping = Grouping(dates: seq<int>, grouped: map<int, seq<int>>)

  /** Some listed slot carries date `d`. */
  predicate Occurs(free: seq<Slot>, d: int) {
    exists i :: 0 <= i < |free| && free[i].date == d
  }

  /** The `forEach` that pushes each slot's time under its date and adds the
      date to an insertion-ordered set. */
  function Group(free: seq<Slot>): (r: Grouping)
    decreases |free|
    ensures forall d :: d in r.grouped <==> Occurs(free, d)
    ensures forall d :: d in r.grouped ==> r.grouped[d] == TimesOn(free, d)
    ensures Distinct(r.dates)
    ensures forall d :: d in r.dates <==> d in r.grouped
  {
    if free == [] then Grouping([], map[])
    else
      var init := free[..|free| - 1];
      var last := free[|free| - 1];
      var prev := Group(init);
      assert forall i :: 0 <= i < |init| ==> init[i] == free[i];
      assert forall d :: Occurs(free, d) <==> Occurs(init, d) || d == last.date;
      assert !Occurs(init, last.date) ==> TimesOn(init, last.date) == [] by {
        if !Occurs(init, last.date) {
          TimesOnAbsent(init, last.date);
        }
      }
      if last.date in prev.grouped then
        Grouping(prev.dates, prev.grouped[last.date := prev.grouped[last.date] + [last.time]])
      else
        Grouping(prev.dates + [last.date], prev.grouped[last.date := [last.time]])
  }

  /** `dates[i]` is seen before `dates[j]`: every listed slot on `dates[j]`
      is preceded by one on `dates[i]`. */
  predicate SeenBefore(free: seq<Slot>, a: int, b: int) {
    forall q :: 0 <= q < |free| && free[q].date == b ==> exists p :: 0 <= p < q && free[p].date == a
  }

  /** Appending one slot keeps `a` seen before `b` when `a` already occurs
      and `b` was either seen after it or not seen at all. */
  lemma SeenBeforeSnoc(init: seq<Slot>, last: Slot, a: int, b: int)
    requires Occurs(init, a)
    requires SeenBefore(init, a, b) || !Occurs(init, b)
    ensures SeenBefore(init + [last], a, b)
  {
    var free := init + [last];
    var p :| 0 <= p < |init| && init[p].date == a;
    forall q | 0 <= q < |free| && free[q].date == b
      ensures exists p' :: 0 <= p' < q && free[p'].date == a
    {
      if q < |init| {
        assert free[q] == init[q];
        var p' :| 0 <= p' < q && init[p'].date == a;
        assert free[p'] == init[p'];
      } else {
        assert free[p] == init[p];
      }
    }
  }

  /** `availableDates` lists the dates in the order they are first seen. */
  lemma {:induction false} GroupDatesFirstSeenOrder(free: seq<Slot>)
    ensures forall i, j :: (0 <= i < j < |Group(free).dates|
      ==> SeenBefore(free, Group(free).dates[i], Group(free).dates[j]))
    decreases |free|
  {
    if free != [] {
      var init := free[..|free| - 1];
      var last := free[|free| - 1];
      var prev := Group(init);
      var r := Group(free);
      GroupDatesFirstSeenOrder(init);
      assert free == init + [last];
      forall i, j | 0 <= i < j < |r.dates| ensures SeenBefore(free, r.dates[i], r.dates[j]) {
        assert r.dates[i] == prev.dates[i];
        assert prev.dates[i] in prev.dates;
        if j < |prev.dates| {
          assert r.dates[j] == prev.dates[j];
        }
        SeenBeforeSnoc(init, last, r.dates[i], r.dates[j]);
      }
    }
  }

  datatype AvailabilityReply = AvailabilityReply(code: int, body: Option<Grouping>)

  /** The `/availability` handler: 400 without an employee id, otherwise the
      employee's free slots grouped by date. */
  function Availability(slots: seq<Slot>, emp: Option<UserId>): (r: AvailabilityReply)
    ensures emp.None? <==> r.code == 400
    ensures r.code == 400 <==> r.body.None?
    ensures emp.Some? ==> r.code == 200
    ensures emp.Some? ==> r.body == Some(Group(FreeSlotsOf(slots, emp.value)))
  {
    if emp.None? then AvailabilityReply(400, None)
    else AvailabilityReply(200, Some(Group(FreeSlotsOf(slots, emp.value))))
  }

  /** A time is listed under date `d` exactly when the employee has a
      non-booked slot at (d, time); booked slots never appear. */
  lemma AvailabilityListsFreeSlots(slots: seq<Slot>, emp: UserId, d: int, t: int)
    ensures var g := Availability(slots, Some(emp)).body.value;
      (d in g.grouped && t in g.grouped[d]) <==> Slot(emp, d, t, false) in slots
  {
    var free := FreeSlotsOf(slots, emp);
    var g := Group(free);
    assert Availability(slots, Some(emp)).body.value == g;
    TimesOnMembership(free, d, t);
    if d in g.grouped && t in g.grouped[d] {
      var i :| 0 <= i < |free| && free[i].date == d && free[i].time == t;
      assert free[i] in free;
      assert free[i] == Slot(emp, d, t, false);
    }
    if Slot(emp, d, t, false) in slots {
      assert Slot(emp, d, t, false) in free;
      var i :| 0 <= i < |free| && free[i] == Slot(emp, d, t, false);
      assert Occurs(free, d);
    }
  }
}
