/** The appointment service: booking with a service snapshot and the
    start-inside-window conflict check, listing with lazy completion,
    update without re-checks, cancellation, and the availability probe. */
module Ledger {
  import opened Domain
  import opened TimeGrid
  import opened SlotStore
  import opened ServiceCatalogue

  // ---- conflict check ----

  /** The conflict query: an appointment of the same employee, not
      cancelled, whose START lies in `[start, start + duration)`. */
  predicate StartsWithin(a: Appointment, emp: UserId, start: int, duration: int) {
    a.employeeId == emp && a.status != Cancelled && start <= a.date < start + duration
  }

  predicate HasConflict(appts: seq<Appointment>, emp: UserId, start: int, duration: int) {
    exists i :: 0 <= i < |appts| && StartsWithin(appts[i], emp, start, duration)
  }

  /** `Appointment.findOne(query)` scanning from index `from`: the first
      matching appointment, if any. */
  function FindConflictFrom(appts: seq<Appointment>, emp: UserId, start: int, duration: int, from: nat): (r: Option<nat>)
    decreases |appts| - from
    ensures r.Some? ==> from <= r.value < |appts| && StartsWithin(appts[r.value], emp, start, duration)
    ensures r.Some? ==> forall j :: from <= j < r.value ==> !StartsWithin(appts[j], emp, start, duration)
    ensures r.None? ==> forall j :: from <= j < |appts| ==> !StartsWithin(appts[j], emp, start, duration)
  {
    if from >= |appts| then None
    else if StartsWithin(appts[from], emp, start, duration) then Some(from)
    else FindConflictFrom(appts, emp, start, duration, from + 1)
  }

  /** `isSlotAvailable`: true exactly when the booking conflict check would
      find nothing. */
  function IsSlotAvailable(appts: seq<Appointment>, emp: UserId, start: int, duration: int): (r: bool)
    ensures r <==> !HasConflict(appts, emp, start, duration)
  {
    FindConflictFrom(appts, emp, start, duration, 0).None?
  }

  /** The textbook interval test the check does NOT implement. */
  predicate Overlaps(a: Appointment, start: int, duration: int) {
    a.date < start + duration && a.End() > start
  }

  /** For an appointment of positive length, the check fires exactly on
      the overlapping appointments that start no earlier than the new one. */
  lemma ConflictIsOverlapOfLaterStarts(a: Appointment, emp: UserId, start: int, duration: int)
    requires a.totalDuration > 0
    ensures StartsWithin(a, emp, start, duration)
        <==> a.employeeId == emp && a.status != Cancelled && Overlaps(a, start, duration) && a.date >= start
  {
  }

  /** An earlier appointment running into the new booking goes unnoticed:
      10:00-11:00 booked, a 10:30 booking of 30 minutes passes the check. */
  lemma EarlierOverlapNotDetected()
    ensures var busy := Appointment(None, 1, [], 60, 0, 600, Active);
      !HasConflict([busy], 1, 630, 30) && Overlaps(busy, 630, 30)
  {
  }

  // ---- createAppointment ----

  /** The appointment a successful booking writes. */
  function NewAppointment(client: Option<UserId>, emp: UserId, snapshot: seq<ServiceEntry>, date: int): Appointment {
    Appointment(client, emp, snapshot, TotalDuration(snapshot), TotalPrice(snapshot), date, Active)
  }

  /** The slot rows a booking or cancellation of `a` flips. */
  predicate Covers(s: Slot, a: Appointment) {
    Selected(s, a.employeeId, DayOf(a.date), TickTimes(a.date, a.totalDuration))
  }

  /** `createAppointment`: validate the list, snapshot the services, reject
      on conflict, append the appointment and mark its ticks booked on the
      start's date. */
  function CreateAppointment(st: Store, cat: Catalogue, client: Option<UserId>, emp: UserId,
                             ids: Option<seq<ServiceId>>, date: int): (r: Result<Store>)
    ensures (ids.None? || ids.value == []) <==> r == Err(NoServices)
    ensures r == Err(ServiceNotFound) <==> ids.Some? && ids.value != [] && Resolve(cat, ids.value).None?
    ensures r == Err(SlotTaken) <==>
      ids.Some? && ids.value != [] && Resolve(cat, ids.value).Some?
      && HasConflict(st.appts, emp, date, TotalDuration(Resolve(cat, ids.value).value))
    ensures r.Ok? <==>
      ids.Some? && ids.value != [] && Resolve(cat, ids.value).Some?
      && !HasConflict(st.appts, emp, date, TotalDuration(Resolve(cat, ids.value).value))
    ensures r.Ok? ==> |r.value.appts| == |st.appts| + 1
    ensures r.Ok? ==>
      var snap := Resolve(cat, ids.value).value;
      var a := r.value.appts[|st.appts|];
      && r.value.appts[..|st.appts|] == st.appts
      && a.clientId == client && a.employeeId == emp && a.date == date && a.status == Active
      && a.services == snap
      && a.totalDuration == TotalDuration(snap) && a.totalPrice == TotalPrice(snap)
    ensures r.Ok? ==>
      var a := r.value.appts[|st.appts|];
      && |r.value.slots| == |st.slots|
      && (forall i :: 0 <= i < |st.slots| ==> Key(r.value.slots[i]) == Key(st.slots[i]))
      && (forall i :: 0 <= i < |st.slots| && Covers(st.slots[i], a) ==> r.value.slots[i].isBooked)
      && (forall i :: 0 <= i < |st.slots| && !Covers(st.slots[i], a) ==> r.value.slots[i] == st.slots[i])
  {
    if ids.None? || ids.value == [] then Err(NoServices)
    else
      var resolved := Resolve(cat, ids.value);
      if resolved.None? then Err(ServiceNotFound)
      else
        var a := NewAppointment(client, emp, resolved.value, date);
        if !IsSlotAvailable(st.appts, emp, date, a.totalDuration) then Err(SlotTaken)
        else
          Ok(Store(Mark(st.slots, emp, DayOf(date), TickTimes(date, a.totalDuration), true), st.appts + [a]))
  }

  // ---- getAppointments ----

  /** The optional `clientId` / `employeeId` query filter. */
  datatype Filter = Filter(clientId: Option<UserId>, employeeId: Option<UserId>)

  predicate MatchesFilter(a: Appointment, f: Filter) {
    && (f.clientId.Some? ==> a.clientId == Some(f.clientId.value))
    && (f.employeeId.Some? ==> a.employeeId == f.employeeId.value)
  }

  /** Active and already over: `end < now`, strictly. */
  predicate Overdue(a: Appointment, now: int) {
    a.status == Active && a.End() < now
  }

  function AutoComplete(a: Appointment, f: Filter, now: int): Appointment {
    if MatchesFilter(a, f) && Overdue(a, now) then a.(status := Completed) else a
  }

  function Admits(f: Filter): Appointment -> bool {
    (a: Appointment) => MatchesFilter(a, f)
  }

  datatype Listing = Listing(st: Store, list: seq<Appointment>)

  /** `getAppointments`: the matching appointments, after every matching one
      that is active and over has been moved to `completed` and saved. */
  function GetAppointments(st: Store, f: Filter, now: int): (r: Listing)
    ensures r.st.slots == st.slots && |r.st.appts| == |st.appts|
    ensures forall i :: 0 <= i < |st.appts| ==>
      r.st.appts[i] == st.appts[i].(status := r.st.appts[i].status)
    ensures forall i :: 0 <= i < |st.appts| ==>
      (r.st.appts[i].status != st.appts[i].status <==> MatchesFilter(st.appts[i], f) && Overdue(st.appts[i], now))
    ensures forall i :: 0 <= i < |st.appts| && r.st.appts[i].status != st.appts[i].status ==>
      r.st.appts[i].status == Completed
    ensures forall a :: a in r.list <==> a in r.st.appts && MatchesFilter(a, f)
    ensures forall a :: a in r.list ==> !Overdue(a, now)
    ensures |r.list| == |Positions(r.st.appts, Admits(f))|
    ensures forall k :: 0 <= k < |r.list| ==> r.list[k] == r.st.appts[Positions(r.st.appts, Admits(f))[k]]
  {
    var appts := seq(|st.appts|, i requires 0 <= i < |st.appts| => AutoComplete(st.appts[i], f, now));
    Listing(Store(st.slots, appts), Where(appts, Admits(f)))
  }

  /** Listing twice at the same instant writes nothing the second time. */
  lemma GetAppointmentsIdempotent(st: Store, f: Filter, now: int)
    ensures var once := GetAppointments(st, f, now);
      GetAppointments(once.st, f, now) == once
  {
    var once := GetAppointments(st, f, now);
    var twice := GetAppointments(once.st, f, now);
    assert twice.st.appts == once.st.appts;
  }

  /** An appointment ending exactly now is still active after listing. */
  lemma EndingNowStaysActive(st: Store, f: Filter, now: int, i: nat)
    requires i < |st.appts| && st.appts[i].status == Active && st.appts[i].End() == now
    ensures GetAppointments(st, f, now).st.appts[i].status == Active
  {
  }

  // ---- updateAppointment ----

  /** The request body of an update: an optional new start, an optional
      service array, and a `status` field the service ignores. */
  datatype UpdateBody = UpdateBody(date: Option<int>, services: Option<seq<ServiceId>>, status: Option<Status>)

  /** The updated record (`None` when no appointment has that id) and the
      store after the write. */
  datatype Updated = Updated(record: Option<Appointment>, st: Store)

  function ApplyUpdate(a: Appointment, body: UpdateBody, snap: Option<seq<ServiceEntry>>): Appointment {
    var dated := if body.date.Some? then a.(date := body.date.value) else a;
    if snap.Some? then
      dated.(services := snap.value, totalDuration := TotalDuration(snap.value), totalPrice := TotalPrice(snap.value))
    else dated
  }

  /** `updateAppointment`: resolve a given service array first (throwing
      when some id does not resolve), then `findByIdAndUpdate`. Neither the
      conflict check nor the slots are touched, and `status` is ignored. */
  function UpdateAppointment(st: Store, cat: Catalogue, id: nat, body: UpdateBody): (r: Result<Updated>)
    ensures r.Err? <==> body.services.Some? && Resolve(cat, body.services.value).None?
    ensures r.Err? ==> r.error == ServiceNotFound
    ensures r.Ok? ==> r.value.st.slots == st.slots && |r.value.st.appts| == |st.appts|
    ensures r.Ok? ==> (r.value.record.None? <==> id >= |st.appts|)
    ensures r.Ok? && id >= |st.appts| ==> r.value.st == st
    ensures r.Ok? && id < |st.appts| ==>
      var old_ := st.appts[id];
      var new_ := r.value.st.appts[id];
      && r.value.record == Some(new_)
      && (forall j :: 0 <= j < |st.appts| && j != id ==> r.value.st.appts[j] == st.appts[j])
      && new_.status == old_.status && new_.clientId == old_.clientId && new_.employeeId == old_.employeeId
      && new_.date == (if body.date.Some? then body.date.value else old_.date)
      && (body.services.None? ==>
            new_.services == old_.services && new_.totalDuration == old_.totalDuration
            && new_.totalPrice == old_.totalPrice)
      && (body.services.Some? ==>
            new_.services == Resolve(cat, body.services.value).value
            && new_.totalDuration == TotalDuration(new_.services)
            && new_.totalPrice == TotalPrice(new_.services))
  {
    var snap := if body.services.Some? then Resolve(cat, body.services.value) else None;
    if body.services.Some? && snap.None? then Err(ServiceNotFound)
    else if id >= |st.appts| then Ok(Updated(None, st))
    else
      var a := ApplyUpdate(st.appts[id], body, snap);
      Ok(Updated(Some(a), Store(st.slots, st.appts[id := a])))
  }

  /** The `status` field of an update body has no effect. */
  lemma UpdateIgnoresStatus(st: Store, cat: Catalogue, id: nat, body: UpdateBody, status: Option<Status>)
    ensures UpdateAppointment(st, cat, id, body) == UpdateAppointment(st, cat, id, body.(status := status))
  {
  }

  /** An empty service array resolves to no services and zero totals. */
  lemma UpdateWithEmptyServices(st: Store, cat: Catalogue, id: nat, date: Option<int>, status: Option<Status>)
    requires id < |st.appts|
    ensures var r := UpdateAppointment(st, cat, id, UpdateBody(date, Some([]), status));
      r.Ok? && r.value.record.Some?
      && r.value.record.value.services == []
      && r.value.record.value.totalDuration == 0 && r.value.record.value.totalPrice == 0
  {
    FindNothing(cat);
  }

  lemma {:induction false} FindNothing(cat: Catalogue)
    ensures Find(cat, []) == []
    decreases |cat|
  {
    if cat != [] {
      FindNothing(cat[1..]);
    }
  }

  // ---- cancelAppointment ----

  /** `cancelAppointment`: fail on an unknown id; otherwise free the
      appointment's ticks on its start date and set it `cancelled`. */
  function CancelAppointment(st: Store, id: nat): (r: Result<Store>)
    ensures r.Err? <==> id >= |st.appts|
    ensures r.Err? ==> r.error == NotFound
    ensures r.Ok? ==>
      && |r.value.appts| == |st.appts|
      && r.value.appts[id] == st.appts[id].(status := Cancelled)
      && (forall j :: 0 <= j < |st.appts| && j != id ==> r.value.appts[j] == st.appts[j])
    ensures r.Ok? ==>
      && |r.value.slots| == |st.slots|
      && (forall i :: 0 <= i < |st.slots| ==> Key(r.value.slots[i]) == Key(st.slots[i]))
      && (forall i :: 0 <= i < |st.slots| && Covers(st.slots[i], st.appts[id]) ==> !r.value.slots[i].isBooked)
      && (forall i :: 0 <= i < |st.slots| && !Covers(st.slots[i], st.appts[id]) ==> r.value.slots[i] == st.slots[i])
  {
    if id >= |st.appts| then Err(NotFound)
    else
      var a := st.appts[id];
      var slots := Mark(st.slots, a.employeeId, DayOf(a.date), TickTimes(a.date, a.totalDuration), false);
      Ok(Store(slots, st.appts[id := a.(status := Cancelled)]))
  }

  /** Cancelling twice is cancelling once. */
  lemma CancelIdempotent(st: Store, id: nat)
    requires id < |st.appts|
    ensures CancelAppointment(CancelAppointment(st, id).value, id) == CancelAppointment(st, id)
  {
    var a := st.appts[id];
    var once := CancelAppointment(st, id).value;
    assert once.appts[id].date == a.date && once.appts[id].totalDuration == a.totalDuration;
    MarkIdempotent(st.slots, a.employeeId, DayOf(a.date), TickTimes(a.date, a.totalDuration), false);
    assert once.appts[id := once.appts[id].(status := Cancelled)] == once.appts;
  }

  /** Booking and then cancelling the new appointment frees exactly the
      slots the booking flipped and leaves every other slot as it was
      before the booking; the appointment stays on record as cancelled. */
  lemma BookThenCancel(st: Store, cat: Catalogue, client: Option<UserId>, emp: UserId,
                       ids: Option<seq<ServiceId>>, date: int)
    requires CreateAppointment(st, cat, client, emp, ids, date).Ok?
    ensures var booked := CreateAppointment(st, cat, client, emp, ids, date).value;
      var a := booked.appts[|st.appts|];
      var after := CancelAppointment(booked, |st.appts|).value;
      && after.slots == Mark(st.slots, emp, DayOf(date), TickTimes(date, a.totalDuration), false)
      && after.appts[|st.appts|].status == Cancelled
      && after.appts[..|st.appts|] == st.appts
  {
    var booked := CreateAppointment(st, cat, client, emp, ids, date).value;
    var a := booked.appts[|st.appts|];
    MarkLastWins(st.slots, emp, DayOf(date), TickTimes(date, a.totalDuration), true, false);
    var after := CancelAppointment(booked, |st.appts|).value;
    assert after.appts[..|st.appts|] == booked.appts[..|st.appts|];
  }

  /** Booking, listing, updating and cancelling keep slot keys unique. */
  lemma OperationsKeepNoDuplicates(st: Store, cat: Catalogue, client: Option<UserId>, emp: UserId,
                                   ids: Option<seq<ServiceId>>, date: int, f: Filter, now: int,
                                   id: nat, body: UpdateBody)
    requires NoDuplicates(st.slots)
    ensures var r := CreateAppointment(st, cat, client, emp, ids, date); r.Ok? ==> NoDuplicates(r.value.slots)
    ensures NoDuplicates(GetAppointments(st, f, now).st.slots)
    ensures var r := UpdateAppointment(st, cat, id, body); r.Ok? ==> NoDuplicates(r.value.st.slots)
    ensures var r := CancelAppointment(st, id); r.Ok? ==> NoDuplicates(r.value.slots)
  {
  }
}
