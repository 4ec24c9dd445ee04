/** The persisted shapes of the scheduling core: services, the service
    snapshots embedded in an appointment, appointments, half-hour slots,
    and the store holding slots and appointments. */
module Domain {

  type UserId = nat
  type ServiceId = nat

  datatype Option<T> = None | Some(value: T)

  /** Appointment status: `active` (the default on creation), `cancelled`
      or `completed`. */
  datatype Status = Active | Cancelled | Completed

  /** A catalogue service: duration in minutes and price. */
  datatype Service = Service(id: ServiceId, duration: int, price: int)

  /** A service as frozen into an appointment at booking time. */
  datatype ServiceEntry = ServiceEntry(serviceId: ServiceId, duration: int, price: int)

  /** An appointment as the booking service writes it. `clientId` is `None`
      when the authenticated principal carries no `_id` claim; `date` is the
      start instant in minutes. */
  datatype Appointment = Appointment(
    clientId: Option<UserId>,
    employeeId: UserId,
    services: seq<ServiceEntry>,
    totalDuration: int,
    totalPrice: int,
    date: int,
    status: Status)
  {
    /** The instant the appointment is over. */
    function End(): int {
      date + totalDuration
    }
  }

  /** One half-hour unit of an employee's calendar: `date` is a day number
      and `time` the `HH:mm` label as minutes after midnight. */
  datatype Slot = Slot(employeeId: UserId, date: int, time: int, isBooked: bool)

  /** The reservation state. An appointment's id is its index in `appts`:
      appointments are appended on creation and never removed. */
  datatype Store = Store(slots: seq<Slot>, appts: seq<Appointment>)

  /** The errors the booking, update and cancellation paths throw. */
  datatype Error =
    | NoServices        // empty or non-array service list
    | ServiceNotFound   // some requested id did not resolve
    | SlotTaken         // the conflict check found an appointment
    | NotFound          // no appointment with that id

  datatype Result<T> = Ok(value: T) | Err(error: Error)

  /** The authenticated principal as the auth middleware decodes it from a
      token: the `_id` claim (absent on the tokens the login path issues,
      which carry `id`) and the roles claim, absent or a list. */
  datatype Principal = Principal(underscoreId: Option<UserId>, id: Option<UserId>, roles: Option<seq<string>>)

  /** A route's HTTP status code and the error it reports, if any. */
  datatype Reply = Reply(code: int, error: Option<Error>)

  /** A handled request: the reply and the store after it. */
  datatype Handled = Handled(reply: Reply, st: Store)

  /** `roles || []` followed by `includes`. */
  predicate HasRole(roles: Option<seq<string>>, role: string) {
    roles.Some? && role in roles.value
  }

  predicate Distinct<T(==)>(s: seq<T>) {
    forall i, j :: 0 <= i < j < |s| ==> s[i] != s[j]
  }

  function ToSet<T>(s: seq<T>): set<T> {
    set x | x in s
  }

  /** The positions of `s` whose element satisfies `p`, in ascending order;
      `PositionsComplete` shows that none is missing. */
  function Positions<T>(s: seq<T>, p: T -> bool): (r: seq<nat>)
    ensures forall k :: 0 <= k < |r| ==> r[k] < |s| && p(s[r[k]])
    ensures forall k, l :: 0 <= k < l < |r| ==> r[k] < r[l]
    decreases |s|
  {
    if s == [] then []
    else
      var init := s[..|s| - 1];
      var prev := Positions(init, p);
      forall k | 0 <= k < |prev| ensures prev[k] < |init| && init[prev[k]] == s[prev[k]] {}
      prev + (if p(s[|s| - 1]) then [|s| - 1] else [])
  }

  /** Every position whose element satisfies `p` is listed. */
  lemma {:induction false} PositionsComplete<T>(s: seq<T>, p: T -> bool, i: nat)
    requires i < |s| && p(s[i])
    ensures i in Positions(s, p)
    decreases |s|
  {
    var init := s[..|s| - 1];
    if i < |s| - 1 {
      assert init[i] == s[i];
      PositionsComplete(init, p, i);
    }
  }

  /** A query or `Array.prototype.filter`: the elements of `s` satisfying
      `p`, each taken once from its own position, in their order in `s`. */
  function Where<T(==,!new)>(s: seq<T>, p: T -> bool): (r: seq<T>)
    ensures |r| == |Positions(s, p)|
    ensures forall k :: 0 <= k < |r| ==> r[k] == s[Positions(s, p)[k]]
    ensures forall x :: x in r <==> x in s && p(x)
    ensures multiset(r) <= multiset(s)
    decreases |s|
  {
    if s == [] then []
    else
      var init := s[..|s| - 1];
      var last := s[|s| - 1];
      var prev := Where(init, p);
      var r := prev + (if p(last) then [last] else []);
      assert s == init + [last];
      WhereStep(s, p, prev, r);
      PickedMembership(s, p, r);
      r
  }

  /** A filter keeps every copy of a satisfying element and no copy of any
      other: the exact multiplicities of `Array.prototype.filter`. */
  lemma {:induction false} WhereCount<T(!new)>(s: seq<T>, p: T -> bool)
    ensures forall x :: multiset(Where(s, p))[x] == if p(x) then multiset(s)[x] else 0
    decreases |s|
  {
    if s != [] {
      var init := s[..|s| - 1];
      var last := s[|s| - 1];
      WhereCount(init, p);
      assert s == init + [last];
      var kept := if p(last) then [last] else [];
      assert Where(s, p) == Where(init, p) + kept;
      assert multiset(Where(s, p)) == multiset(Where(init, p)) + multiset(kept);
      assert multiset(s) == multiset(init) + multiset([last]);
    }
  }

  /** Extending the filter of all but the last element by the last one, if
      kept, picks along the positions of the whole sequence. */
  lemma WhereStep<T>(s: seq<T>, p: T -> bool, prev: seq<T>, r: seq<T>)
    requires s != []
    requires |prev| == |Positions(s[..|s| - 1], p)|
    requires forall k :: 0 <= k < |prev| ==> prev[k] == s[..|s| - 1][Positions(s[..|s| - 1], p)[k]]
    requires r == prev + (if p(s[|s| - 1]) then [s[|s| - 1]] else [])
    ensures |r| == |Positions(s, p)|
    ensures forall k :: 0 <= k < |r| ==> r[k] == s[Positions(s, p)[k]]
  {
    var init := s[..|s| - 1];
    var pos := Positions(init, p);
    assert Positions(s, p) == pos + (if p(s[|s| - 1]) then [|s| - 1] else []);
    forall k | 0 <= k < |r| ensures r[k] == s[Positions(s, p)[k]] {
      if k < |prev| {
        assert r[k] == init[pos[k]] == s[pos[k]];
      }
    }
  }

  /** What is picked along the positions is exactly what satisfies `p`. */
  lemma PickedMembership<T>(s: seq<T>, p: T -> bool, r: seq<T>)
    requires |r| == |Positions(s, p)|
    requires forall k :: 0 <= k < |r| ==> r[k] == s[Positions(s, p)[k]]
    ensures forall x :: x in r <==> x in s && p(x)
  {
    var pos := Positions(s, p);
    forall x ensures x in r <==> x in s && p(x) {
      if x in r {
        var k :| 0 <= k < |r| && r[k] == x;
      }
      if x in s && p(x) {
        var i :| 0 <= i < |s| && s[i] == x;
        PositionsComplete(s, p, i);
        var k :| 0 <= k < |pos| && pos[k] == i;
        assert r[k] == x;
      }
    }
  }

  /** Any order between elements that holds along `s` holds along what a
      filter keeps of it. */
  lemma WhereKeepsOrder<T(!new)>(s: seq<T>, p: T -> bool, before: (T, T) -> bool)
    requires forall i, j :: 0 <= i < j < |s| ==> before(s[i], s[j])
    ensures forall i, j :: 0 <= i < j < |Where(s, p)| ==> before(Where(s, p)[i], Where(s, p)[j])
  {
    var r := Where(s, p);
    var pos := Positions(s, p);
    forall i, j | 0 <= i < j < |r| ensures before(r[i], r[j]) {
      assert r[i] == s[pos[i]] && r[j] == s[pos[j]];
    }
  }

}
