/** The decision logic of the employee calendar pages: which appointments
    become events, the interval each event and each slot covers, which free
    slots are shown next to the events, the client label of an event, the
    per-employee colour, and the guard on slot generation. The events of the
    single-employee dashboard and of the all-employees schedule are built
    the same way; the schedule merely fetches every employee's records. */
module Calendar {
  import opened Domain
  import opened TimeGrid

  /** Only `active` and `completed` appointments become events. */
  predicate Shown(a: Appointment) {
    a.status == Active || a.status == Completed
  }

  /** The status filter, in fetch order. */
  function ShownAppointments(appts: seq<Appointment>): (r: seq<Appointment>)
    ensures forall a :: a in r <==> a in appts && Shown(a)
    ensures forall a :: multiset(r)[a] == if Shown(a) then multiset(appts)[a] else 0
  {
    WhereCount(appts, Shown);
    Where(appts, Shown)
  }

  /** A half-open interval of instants in minutes. The pages compute in
      milliseconds, a uniform factor of 60000 that no comparison below
      depends on. */
  datatype Interval = Interval(start: int, end: int)

  /** An event spans its start plus its total duration. */
  function EventInterval(a: Appointment): Interval
  {
    Interval(a.date, a.date + a.totalDuration)
  }

  /** A slot spans thirty minutes from its date at its time. */
  function SlotInterval(s: Slot): Interval
  {
    Interval(At(s.date, s.time), At(s.date, s.time) + SlotMinutes)
  }

  /** The overlap test `slotStart < e && slotEnd > s`. */
  predicate Intersects(slot: Interval, occupied: Interval) {
    slot.start < occupied.end && slot.end > occupied.start
  }

  /** A slot meets an event exactly when the slot starts less than thirty
      minutes before the event starts and before the event ends: the
      overlap test read off the slot's start alone. */
  lemma SlotMeetsEvent(s: Slot, a: Appointment)
    ensures Intersects(SlotInterval(s), EventInterval(a))
        <==> a.date - SlotMinutes < At(s.date, s.time) < a.date + a.totalDuration
  {
  }

  /** `occupiedRanges`: the intervals of the shown events. */
  function OccupiedRanges(appts: seq<Appointment>): (r: seq<Interval>)
    ensures forall iv :: iv in r <==> exists a :: a in appts && Shown(a) && iv == EventInterval(a)
  {
    var shown := ShownAppointments(appts);
    var r := seq(|shown|, i requires 0 <= i < |shown| => EventInterval(shown[i]));
    RangesOf(appts, shown, r);
    r
  }

  lemma RangesOf(appts: seq<Appointment>, shown: seq<Appointment>, r: seq<Interval>)
    requires forall a :: a in shown <==> a in appts && Shown(a)
    requires |r| == |shown| && forall i :: 0 <= i < |shown| ==> r[i] == EventInterval(shown[i])
    ensures forall iv :: iv in r <==> exists a :: a in appts && Shown(a) && iv == EventInterval(a)
  {
    forall iv ensures iv in r <==> exists a :: a in appts && Shown(a) && iv == EventInterval(a) {
      if iv in r {
        var i :| 0 <= i < |r| && r[i] == iv;
        assert shown[i] in shown;
      }
      if exists a :: a in appts && Shown(a) && iv == EventInterval(a) {
        var a :| a in appts && Shown(a) && iv == EventInterval(a);
        var i :| 0 <= i < |shown| && shown[i] == a;
        assert r[i] == iv;
      }
    }
  }

  predicate Free(s: Slot, ranges: seq<Interval>) {
    forall k :: 0 <= k < |ranges| ==> !Intersects(SlotInterval(s), ranges[k])
  }

  /** The slot meets no shown appointment's interval. */
  predicate Clear(s: Slot, appts: seq<Appointment>) {
    forall a :: a in appts && Shown(a) ==> !Intersects(SlotInterval(s), EventInterval(a))
  }

  function FreeAmong(ranges: seq<Interval>): Slot -> bool {
    (s: Slot) => Free(s, ranges)
  }

  /** The slot filter of `fetchEvents`: a fetched slot is shown exactly when
      its interval meets no shown appointment's interval. Employee ids play
      no part, so in the all-employees view any employee's appointment hides
      any employee's slot. */
  function VisibleSlots(appts: seq<Appointment>, slots: seq<Slot>): (r: seq<Slot>)
    ensures forall s :: s in r <==>
      s in slots && forall a :: a in appts && Shown(a) ==> !Intersects(SlotInterval(s), EventInterval(a))
    ensures forall s :: multiset(r)[s] == if Clear(s, appts) then multiset(slots)[s] else 0
  {
    var ranges := OccupiedRanges(appts);
    var r := Where(slots, FreeAmong(ranges));
    WhereCount(slots, FreeAmong(ranges));
    assert forall s :: Free(s, ranges) <==> forall a :: a in appts && Shown(a) ==> !Intersects(SlotInterval(s), EventInterval(a)) by {
      forall s ensures Free(s, ranges) <==> forall a :: a in appts && Shown(a) ==> !Intersects(SlotInterval(s), EventInterval(a)) {
        if Free(s, ranges) {
          forall a | a in appts && Shown(a) ensures !Intersects(SlotInterval(s), EventInterval(a)) {
            assert EventInterval(a) in ranges;
            var k :| 0 <= k < |ranges| && ranges[k] == EventInterval(a);
          }
        }
      }
    }
    r
  }

  /** One employee's appointment 10:00-11:00 hides another employee's
      10:30 slot; a cancelled appointment hides nothing. */
  lemma CrossEmployeeHiding()
    ensures var busy := Appointment(None, 1, [], 60, 0, At(0, 600), Active);
      var other := Slot(2, 0, 630, false);
      && VisibleSlots([busy], [other]) == []
      && VisibleSlots([busy.(status := Cancelled)], [other]) == [other]
  {
    var busy := Appointment(None, 1, [], 60, 0, At(0, 600), Active);
    var other := Slot(2, 0, 630, false);
    assert Intersects(SlotInterval(other), EventInterval(busy));
    HiddenByShown(busy, other);
    assert !Shown(busy.(status := Cancelled));
    ShownWhenNothingShown([busy.(status := Cancelled)], other);
  }

  /** A slot meeting a shown appointment is not visible next to it. */
  lemma HiddenByShown(a: Appointment, s: Slot)
    requires Shown(a) && Intersects(SlotInterval(s), EventInterval(a))
    ensures VisibleSlots([a], [s]) == []
  {
    var v := VisibleSlots([a], [s]);
    assert s !in v;
    assert multiset(v) == multiset{} by {
      assert multiset(v) <= multiset([s]) && multiset(v)[s] == 0;
    }
  }

  /** With no shown appointment a single slot is visible. */
  lemma ShownWhenNothingShown(appts: seq<Appointment>, s: Slot)
    requires forall a :: a in appts ==> !Shown(a)
    ensures VisibleSlots(appts, [s]) == [s]
  {
    var w := VisibleSlots(appts, [s]);
    assert s in w;
    SingletonSub(w, s);
  }

  lemma SingletonSub(w: seq<Slot>, s: Slot)
    requires multiset(w) <= multiset([s]) && s in w
    ensures w == [s]
  {
    assert multiset(w) == multiset([s]);
    assert w[0] in multiset(w);
  }

  /** Placeholder shown when a client has no name. */
  const UnknownClient: string := "Неизвестно"

  /** JavaScript truthiness of an optional string. */
  predicate Truthy(s: Option<string>) {
    s.Some? && s.value != ""
  }

  /** `externalName || clientId?.fullName || placeholder`. */
  function ClientLabel(externalName: Option<string>, clientFullName: Option<string>): (r: string)
    ensures r != ""
    ensures Truthy(externalName) ==> r == externalName.value
    ensures !Truthy(externalName) && Truthy(clientFullName) ==> r == clientFullName.value
    ensures !Truthy(externalName) && !Truthy(clientFullName) ==> r == UnknownClient
  {
    if Truthy(externalName) then externalName.value
    else if Truthy(clientFullName) then clientFullName.value
    else UnknownClient
  }

  const Colors: seq<string> := ["#10B981", "#3B82F6", "#F59E0B", "#8B5CF6", "#EC4899", "#F43F5E"]

  /** `findIndex`: the first position of `id`, or -1. */
  function FindIndex(ids: seq<UserId>, id: UserId): (r: int)
    ensures -1 <= r < |ids|
    ensures r == -1 <==> id !in ids
    ensures r >= 0 ==> ids[r] == id && forall j :: 0 <= j < r ==> ids[j] != id
    decreases |ids|
  {
    if ids == [] then -1
    else if ids[|ids| - 1] == id && id !in ids[..|ids| - 1] then |ids| - 1
    else
      var r := FindIndex(ids[..|ids| - 1], id);
      assert forall j :: 0 <= j < |ids| - 1 ==> ids[..|ids| - 1][j] == ids[j];
      r
  }

  /** JavaScript's `%`, which truncates toward zero: `-1 % 6 == -1`. */
  function JsRem(a: int, b: int): (r: int)
    requires b > 0
    ensures -b < r < b
    ensures a >= 0 ==> r >= 0
    ensures a < 0 ==> r <= 0
    ensures (a - r) % b == 0
  {
    var m := if a >= 0 then a else -a;
    var q := m / b;
    assert m - m % b == b * q;
    var r := if a >= 0 then m % b else -(m % b);
    assert a - r == b * (if a >= 0 then q else -q);
    DivModOfMultiple(b, if a >= 0 then q else -q);
    r
  }

  /** `COLORS[index % COLORS.length]`: an employee not in the list gets
      index -1, hence `COLORS[-1]`, which is undefined. */
  function ColorOf(employees: seq<UserId>, id: UserId): (r: Option<string>)
    ensures r.Some? <==> id in employees
    ensures r.Some? ==> r.value == Colors[FindIndex(employees, id) % |Colors|]
  {
    var k := JsRem(FindIndex(employees, id), |Colors|);
    if 0 <= k < |Colors| then Some(Colors[k]) else None
  }

  /** Employees six places apart in a duplicate-free list share a colour. */
  lemma ColorRepeatsEverySix(employees: seq<UserId>, i: nat)
    requires i + |Colors| < |employees|
    requires forall p, q :: 0 <= p < q < |employees| ==> employees[p] != employees[q]
    ensures ColorOf(employees, employees[i]) == ColorOf(employees, employees[i + |Colors|])
  {
    var a := FindIndex(employees, employees[i]);
    var b := FindIndex(employees, employees[i + |Colors|]);
    assert a == i;
    assert b == i + |Colors|;
  }

  /** The body the schedule posts to `/slots/generate`: the selected
      employee and the selection's start date, start time and end time as
      labels. */
  datatype GenerateRequest = GenerateRequest(employeeId: string, date: int, startTime: int, endTime: int)

  /** The schedule's selection handler: no request without a selected
      employee; otherwise a request for that employee whose labels name the
      selected instants again. */
  function GenerationRequest(selectedEmployeeId: string, start: int, end: int): (r: Option<GenerateRequest>)
    ensures r.None? <==> selectedEmployeeId == ""
    ensures r.Some? ==> r.value.employeeId == selectedEmployeeId
    ensures r.Some? ==> At(r.value.date, r.value.startTime) == start
    ensures r.Some? && DayOf(end) == DayOf(start) ==> At(r.value.date, r.value.endTime) == end
  {
    SplitJoin(start);
    SplitJoin(end);
    if selectedEmployeeId == "" then None
    else Some(GenerateRequest(selectedEmployeeId, DayOf(start), TimeOf(start), TimeOf(end)))
  }
}
