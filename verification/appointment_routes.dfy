/** The appointment routes: the POST handler that validates, books through
    the service and marks the ticks booked a second time; the PUT handler
    that maps a missing record to 404; and the DELETE handler that frees
    the ticks with a duration fallback before cancelling. */
module AppointmentRoutes {
  import opened Domain
  import opened TimeGrid
  import opened SlotStore
  import opened ServiceCatalogue
  import opened Ledger

  /** The POST body. `clientId` may be sent but is never read. */
  datatype PostBody = PostBody(employeeId: UserId, services: Option<seq<ServiceId>>, date: int, clientId: Option<UserId>)

  /** The POST handler. The client is the principal's `_id` claim. */
  function PostAppointment(st: Store, cat: Catalogue, principal: Principal, body: PostBody): (r: Handled)
    ensures r.reply.code in {201, 400, 500}
    ensures r.reply.code == 400 <==>
      body.services.None? || body.services.value == [] || Resolve(cat, body.services.value).None?
    ensures r.reply.code == 400 && (body.services.None? || body.services.value == []) ==> r.reply.error == Some(NoServices)
    ensures r.reply.code == 400 && !(body.services.None? || body.services.value == []) ==> r.reply.error == Some(ServiceNotFound)
    ensures r.reply.code != 201 ==> r.st == st
    ensures r.reply.code == 500 <==>
      body.services.Some? && body.services.value != [] && Resolve(cat, body.services.value).Some?
      && HasConflict(st.appts, body.employeeId, body.date, TotalDuration(Resolve(cat, body.services.value).value))
    ensures r.reply.code == 500 ==> r.reply.error == Some(SlotTaken)
    ensures r.reply.code == 201 ==>
      CreateAppointment(st, cat, principal.underscoreId, body.employeeId, body.services, body.date)
        == Ok(r.st)
  {
    if body.services.None? || body.services.value == [] then
      Handled(Reply(400, Some(NoServices)), st)
    else
      var found := Find(cat, body.services.value);
      if |found| != |body.services.value| then
        Handled(Reply(400, Some(ServiceNotFound)), st)
      else
        var totalDuration := TotalDuration(Snapshots(found));
        var bookedTimes := TickTimes(body.date, totalDuration);
        match CreateAppointment(st, cat, principal.underscoreId, body.employeeId, body.services, body.date)
        case Err(e) => Handled(Reply(500, Some(e)), st)
        case Ok(booked) =>
          var slots := Mark(booked.slots, body.employeeId, DayOf(body.date), bookedTimes, true);
          MarkIdempotent(st.slots, body.employeeId, DayOf(body.date), bookedTimes, true);
          Handled(Reply(201, None), Store(slots, booked.appts))
  }

  /** Whatever `clientId` the body carries, the booking is the same. */
  lemma PostIgnoresBodyClientId(st: Store, cat: Catalogue, principal: Principal, body: PostBody, other: Option<UserId>)
    ensures PostAppointment(st, cat, principal, body) == PostAppointment(st, cat, principal, body.(clientId := other))
  {
  }

  /** A token issued by the login path carries `id` but no `_id`, so an
      appointment booked with it records no client. */
  lemma LoginTokenBooksWithoutClient(st: Store, cat: Catalogue, principal: Principal, body: PostBody)
    requires principal.underscoreId.None? && principal.id.Some?
    requires PostAppointment(st, cat, principal, body).reply.code == 201
    ensures var r := PostAppointment(st, cat, principal, body).st;
      |r.appts| == |st.appts| + 1 && r.appts[|st.appts|].clientId.None?
  {
  }

  /** The PUT handler: 500 when the service throws, 404 when no record
      was found, 200 otherwise. */
  function PutAppointment(st: Store, cat: Catalogue, id: nat, body: UpdateBody): (r: Handled)
    ensures r.reply.code in {200, 404, 500}
    ensures r.reply.code == 500 <==> body.services.Some? && Resolve(cat, body.services.value).None?
    ensures r.reply.code == 404 <==> r.reply.code != 500 && id >= |st.appts|
    ensures r.reply.code != 200 ==> r.st == st
    ensures r.st.slots == st.slots
    ensures r.reply.code == 200 ==>
      && id < |st.appts|
      && UpdateAppointment(st, cat, id, body).Ok?
      && UpdateAppointment(st, cat, id, body).value.st == r.st
  {
    match UpdateAppointment(st, cat, id, body)
    case Err(e) => Handled(Reply(500, Some(e)), st)
    case Ok(Updated(None, _)) => Handled(Reply(404, Some(NotFound)), st)
    case Ok(Updated(Some(_), st')) => Handled(Reply(200, None), st')
  }

  /** PUT re-runs no conflict check: moving an appointment to the start of
      another active appointment of the same employee is answered 200, and
      afterwards the two start together. */
  lemma PutSkipsConflictCheck(st: Store, cat: Catalogue, id: nat, other: nat)
    requires id < |st.appts| && other < |st.appts| && id != other
    ensures var r := PutAppointment(st, cat, id, UpdateBody(Some(st.appts[other].date), None, None));
      && r.reply.code == 200
      && r.st.appts[id].date == r.st.appts[other].date
      && r.st.appts[other] == st.appts[other]
      && r.st.appts[id].employeeId == st.appts[id].employeeId
  {
  }

  /** The duration the DELETE handler frees: `totalDuration`, or the sum of
      the snapshot durations when that is 0 (falsy). */
  function FreeingDuration(a: Appointment): (d: int)
    ensures a.totalDuration != 0 ==> d == a.totalDuration
    ensures a.totalDuration == 0 ==> d == TotalDuration(a.services)
    ensures a.totalDuration == TotalDuration(a.services) ==> d == a.totalDuration
    ensures d == 0 <==> a.totalDuration == 0 && TotalDuration(a.services) == 0
  {
    if a.totalDuration != 0 then a.totalDuration else TotalDuration(a.services)
  }

  /** The DELETE handler: 404 for an unknown id; otherwise free the ticks
      of the fallback duration, then run the cancellation service. */
  function DeleteAppointment(st: Store, id: nat): (r: Handled)
    ensures r.reply.code == 404 <==> id >= |st.appts|
    ensures r.reply.code == 404 ==> r.st == st && r.reply.error == Some(NotFound)
    ensures id < |st.appts| ==> r.reply.code == 200 && r.reply.error.None?
    ensures id < |st.appts| ==>
      var a := st.appts[id];
      && |r.st.appts| == |st.appts|
      && r.st.appts[id] == a.(status := Cancelled)
      && (forall j :: 0 <= j < |st.appts| && j != id ==> r.st.appts[j] == st.appts[j])
      && |r.st.slots| == |st.slots|
      && (forall i :: 0 <= i < |st.slots| ==> Key(r.st.slots[i]) == Key(st.slots[i]))
      && (forall i :: 0 <= i < |st.slots|
            && Selected(st.slots[i], a.employeeId, DayOf(a.date), TickTimes(a.date, FreeingDuration(a)))
            ==> !r.st.slots[i].isBooked)
      && (forall i :: 0 <= i < |st.slots| && Covers(st.slots[i], a) ==> !r.st.slots[i].isBooked)
      && (forall i :: 0 <= i < |st.slots|
            && !Selected(st.slots[i], a.employeeId, DayOf(a.date), TickTimes(a.date, FreeingDuration(a)))
            && !Covers(st.slots[i], a)
            ==> r.st.slots[i] == st.slots[i])
  {
    if id >= |st.appts| then Handled(Reply(404, Some(NotFound)), st)
    else
      var a := st.appts[id];
      var slots := Mark(st.slots, a.employeeId, DayOf(a.date), TickTimes(a.date, FreeingDuration(a)), false);
      match CancelAppointment(Store(slots, st.appts), id)
      case Ok(st') => Handled(Reply(200, None), st')
      case Err(e) => Handled(Reply(500, Some(e)), st)
  }

  /** With a recorded total duration, the handler's own freeing repeats the
      service's, so the route ends where the service alone would. */
  lemma DeleteMatchesServiceCancel(st: Store, id: nat)
    requires id < |st.appts| && st.appts[id].totalDuration != 0
    ensures DeleteAppointment(st, id).st == CancelAppointment(st, id).value
  {
    var a := st.appts[id];
    MarkIdempotent(st.slots, a.employeeId, DayOf(a.date), TickTimes(a.date, a.totalDuration), false);
  }

  /** Deleting twice leaves the same store as deleting once. */
  lemma DeleteIdempotent(st: Store, id: nat)
    requires id < |st.appts|
    ensures DeleteAppointment(DeleteAppointment(st, id).st, id).st == DeleteAppointment(st, id).st
  {
    var a := st.appts[id];
    var once := DeleteAppointment(st, id).st;
    var twice := DeleteAppointment(once, id).st;
    assert once.appts[id] == a.(status := Cancelled);
    assert FreeingDuration(once.appts[id]) == FreeingDuration(a);
    forall i | 0 <= i < |st.slots| ensures twice.slots[i] == once.slots[i] {
    }
    assert twice.appts == once.appts;
  }
}
