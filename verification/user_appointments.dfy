/** The client's "my appointments" page: the fetched records sorted by
    start, split into the upcoming list (ascending) and the history list
    (descending), and the rule for when a card offers cancellation. The
    page's clock is the parameter `now`. */
module UserAppointments {
  import opened Domain

  /** `a` may stand before `b`: by ascending start, or by descending start
      when `descending` holds. */
  predicate InOrder(a: Appointment, b: Appointment, descending: bool) {
    if descending then a.date >= b.date else a.date <= b.date
  }

  predicate Sorted(s: seq<Appointment>, descending: bool) {
    forall i, j :: 0 <= i < j < |s| ==> InOrder(s[i], s[j], descending)
  }

  /** A head that may precede every element of a sorted tail keeps the
      list sorted. */
  lemma ConsSorted(h: Appointment, tail: seq<Appointment>, descending: bool)
    requires Sorted(tail, descending)
    requires forall k :: 0 <= k < |tail| ==> InOrder(h, tail[k], descending)
    ensures Sorted([h] + tail, descending)
  {
    var r := [h] + tail;
    forall i, j | 0 <= i < j < |r| ensures InOrder(r[i], r[j], descending) {
      assert r[j] == tail[j - 1];
      if i > 0 {
        assert r[i] == tail[i - 1];
      }
    }
  }

  /** Everything drawn from a sorted list's tail, or equal to an element
      its head may precede, may follow the head. */
  lemma HeadPrecedes(s: seq<Appointment>, x: Appointment, rest: seq<Appointment>, descending: bool)
    requires s != [] && Sorted(s, descending) && InOrder(s[0], x, descending)
    requires multiset(rest) == multiset(s[1..]) + multiset{x}
    ensures forall k :: 0 <= k < |rest| ==> InOrder(s[0], rest[k], descending)
  {
    forall k | 0 <= k < |rest| ensures InOrder(s[0], rest[k], descending) {
      assert rest[k] in multiset(rest);
      if rest[k] != x {
        assert rest[k] in multiset(s[1..]);
        var j :| 0 <= j < |s[1..]| && s[1..][j] == rest[k];
        assert s[j + 1] == rest[k];
      }
    }
  }

  /** Insert after every element `x` may not precede, so equal starts keep
      their arrival order. */
  function Insert(x: Appointment, s: seq<Appointment>, descending: bool): (r: seq<Appointment>)
    requires Sorted(s, descending)
    ensures multiset(r) == multiset(s) + multiset{x}
    ensures Sorted(r, descending)
    decreases |s|
  {
    if s == [] then [x]
    else if !InOrder(s[0], x, descending) then
      assert forall j :: 0 <= j < |s| ==> InOrder(x, s[j], descending);
      ConsSorted(x, s, descending);
      [x] + s
    else
      assert Sorted(s[1..], descending);
      var rest := Insert(x, s[1..], descending);
      assert s == [s[0]] + s[1..];
      HeadPrecedes(s, x, rest, descending);
      ConsSorted(s[0], rest, descending);
      [s[0]] + rest
  }

  /** The stable sort of `Array.prototype.sort` with a start-time
      comparator: a permutation of its input, ordered by start. */
  function SortByDate(s: seq<Appointment>, descending: bool): (r: seq<Appointment>)
    ensures multiset(r) == multiset(s)
    ensures Sorted(r, descending)
    decreases |s|
  {
    if s == [] then []
    else
      assert s == s[..|s| - 1] + [s[|s| - 1]];
      Insert(s[|s| - 1], SortByDate(s[..|s| - 1], descending), descending)
  }

  /** Upcoming: active and starting now or later. */
  predicate Upcoming(a: Appointment, now: int) {
    a.status == Active && a.date >= now
  }

  /** History: no longer active, or active but already over. */
  predicate InHistory(a: Appointment, now: int) {
    a.status != Active || a.End() < now
  }

  datatype Views = Views(upcoming: seq<Appointment>, history: seq<Appointment>)

  /** The page's two lists built from the fetched records. */
  function BuildViews(fetched: seq<Appointment>, now: int): (r: Views)
    ensures Sorted(r.upcoming, false) && Sorted(r.history, true)
    ensures forall a :: a in r.upcoming <==> a in fetched && Upcoming(a, now)
    ensures forall a :: a in r.history <==> a in fetched && InHistory(a, now)
    ensures forall a :: multiset(r.upcoming)[a] == if Upcoming(a, now) then multiset(fetched)[a] else 0
    ensures forall a :: multiset(r.history)[a] == if InHistory(a, now) then multiset(fetched)[a] else 0
  {
    var sorted := SortByDate(fetched, false);
    SameMembers(sorted, fetched);
    var upcoming := Where(sorted, UpcomingAt(now));
    WhereKeepsOrder(sorted, UpcomingAt(now), (a, b) => InOrder(a, b, false));
    WhereCount(sorted, UpcomingAt(now));
    var past := Where(sorted, HistoryAt(now));
    WhereCount(sorted, HistoryAt(now));
    var history := SortByDate(past, true);
    SameMembers(history, past);
    Views(upcoming, history)
  }

  function UpcomingAt(now: int): Appointment -> bool {
    (a: Appointment) => Upcoming(a, now)
  }

  function HistoryAt(now: int): Appointment -> bool {
    (a: Appointment) => InHistory(a, now)
  }

  /** A permutation has the same members. */
  lemma SameMembers(a: seq<Appointment>, b: seq<Appointment>)
    requires multiset(a) == multiset(b)
    ensures forall x :: x in a <==> x in b
  {
    forall x ensures x in a <==> x in b {
      assert x in a <==> x in multiset(a);
      assert x in b <==> x in multiset(b);
    }
  }

  /** A record is on neither list exactly when it is active, has started
      and has not yet ended: an appointment in progress disappears from
      the page until its end passes. */
  lemma OnNeitherListIffInProgress(a: Appointment, now: int)
    ensures !Upcoming(a, now) && !InHistory(a, now)
        <==> a.status == Active && a.date < now <= a.End()
  {
  }

  /** With a non-negative duration no record is on both lists. */
  lemma ListsDisjoint(a: Appointment, now: int)
    requires a.totalDuration >= 0
    ensures !(Upcoming(a, now) && InHistory(a, now))
  {
  }

  /** A card offers cancellation when it was given the cancel handler
      (only upcoming cards are) and the record is active and not yet over. */
  predicate CancelOffered(a: Appointment, now: int, onUpcomingList: bool) {
    onUpcomingList && a.status == Active && a.End() > now
  }

  /** Every upcoming record with a positive duration can be cancelled;
      no record on the history list could be, even if its card were given
      the handler; a zero-length booking starting this very instant is
      upcoming yet cannot. */
  lemma CancelRule(a: Appointment, now: int)
    ensures Upcoming(a, now) && a.totalDuration > 0 ==> CancelOffered(a, now, true)
    ensures InHistory(a, now) ==> !CancelOffered(a, now, true)
    ensures a.status == Active && a.date == now && a.totalDuration == 0
        ==> Upcoming(a, now) && !CancelOffered(a, now, true)
  {
  }
}
