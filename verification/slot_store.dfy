/** The slot collection as the booking and cancellation paths touch it:
    bulk flips of the booked flag selected by employee, date and a list of
    `HH:mm` times, and the uniqueness of (employee, date, time). */
module SlotStore {
  import opened Domain

  /** The identity of a slot row. */
  function Key(s: Slot): (UserId, int, int) {
    (s.employeeId, s.date, s.time)
  }

  /** At most one slot row per (employee, date, time). */
  predicate NoDuplicates(slots: seq<Slot>) {
    forall i, j :: 0 <= i < j < |slots| ==> Key(slots[i]) != Key(slots[j])
  }

  /** Whether some row exists for (employee, date, time), booked or not. */
  predicate HasSlot(slots: seq<Slot>, emp: UserId, day: int, time: int) {
    exists i :: 0 <= i < |slots| && Key(slots[i]) == (emp, day, time)
  }

  /** The filter of `Slot.updateMany({ employeeId, date, time: { $in } })`. */
  predicate Selected(s: Slot, emp: UserId, day: int, times: seq<int>) {
    s.employeeId == emp && s.date == day && s.time in times
  }

  /** `Slot.updateMany(filter, { isBooked })`: every selected row gets the
      flag, every other row is left alone, rows are never added, removed or
      re-keyed, and selecting nothing is a no-op. */
  function Mark(slots: seq<Slot>, emp: UserId, day: int, times: seq<int>, booked: bool): (r: seq<Slot>)
    ensures |r| == |slots|
    ensures forall i :: 0 <= i < |r| ==> Key(r[i]) == Key(slots[i])
    ensures forall i :: 0 <= i < |r| && Selected(slots[i], emp, day, times) ==> r[i].isBooked == booked
    ensures forall i :: 0 <= i < |r| && !Selected(slots[i], emp, day, times) ==> r[i] == slots[i]
  {
    seq(|slots|, i requires 0 <= i < |slots| =>
      if Selected(slots[i], emp, day, times) then slots[i].(isBooked := booked) else slots[i])
  }

  /** Repeating a bulk flip changes nothing more. */
  lemma MarkIdempotent(slots: seq<Slot>, emp: UserId, day: int, times: seq<int>, booked: bool)
    ensures Mark(Mark(slots, emp, day, times, booked), emp, day, times, booked)
         == Mark(slots, emp, day, times, booked)
  {
    var once := Mark(slots, emp, day, times, booked);
    var twice := Mark(once, emp, day, times, booked);
    forall i | 0 <= i < |slots| ensures twice[i] == once[i] {
      assert Selected(once[i], emp, day, times) == Selected(slots[i], emp, day, times);
    }
  }

  /** Of two bulk flips with the same selection, only the last one shows. */
  lemma MarkLastWins(slots: seq<Slot>, emp: UserId, day: int, times: seq<int>, first: bool, second: bool)
    ensures Mark(Mark(slots, emp, day, times, first), emp, day, times, second)
         == Mark(slots, emp, day, times, second)
  {
    var once := Mark(slots, emp, day, times, first);
    var twice := Mark(once, emp, day, times, second);
    var direct := Mark(slots, emp, day, times, second);
    forall i | 0 <= i < |slots| ensures twice[i] == direct[i] {
      assert Selected(once[i], emp, day, times) == Selected(slots[i], emp, day, times);
    }
  }

  /** A bulk flip cannot create a duplicate (employee, date, time). */
  lemma MarkKeepsNoDuplicates(slots: seq<Slot>, emp: UserId, day: int, times: seq<int>, booked: bool)
    requires NoDuplicates(slots)
    ensures NoDuplicates(Mark(slots, emp, day, times, booked))
  {
  }
}
