/**
 * `AppointmentController`: `index` lists the requester's active appointments
 * a page at a time; `delete` cancels one appointment (store is omitted: it
 * only forwards to the booking service, which is not part of this model).
 */
module AppointmentController {
  import opened Wrappers
  import opened Time
  import opened Appointments
  import opened Cancellation

  // ---------------------------------------------------------------------
  // index: where { user_id, canceled_at: null }, order by date, limit/offset

  const PageSize: int := 20

  /** Why a listing request fails. */
  datatype ListError =
    | NegativeOffset   // page < 1 makes OFFSET negative, which the database rejects

  /** The `where` clause: the requester's rows that are not canceled. */
  predicate Listed(a: Appointment, userId: int) {
    a.userId == userId && a.canceledAt.None?
  }

  /** The rows that pass the `where` clause, in table order. */
  function ActiveOf(rows: seq<Appointment>, userId: int): (r: seq<Appointment>)
    ensures |r| <= |rows|
    ensures forall a :: a in r <==> a in rows && Listed(a, userId)
    ensures multiset(r) <= multiset(rows)
  {
    if rows == [] then []
    else
      var rest := ActiveOf(rows[1..], userId);
      assert rows == [rows[0]] + rows[1..];
      if Listed(rows[0], userId) then [rows[0]] + rest else rest
  }

  /** Ascending by `date`. */
  ghost predicate SortedByDate(xs: seq<Appointment>) {
    forall i, j :: 0 <= i < j < |xs| ==> xs[i].date <= xs[j].date
  }

  /** Puts `x` into a date-sorted sequence, before every row with the same date. */
  function InsertByDate(x: Appointment, xs: seq<Appointment>): (r: seq<Appointment>)
    requires SortedByDate(xs)
    ensures SortedByDate(r)
    ensures multiset(r) == multiset(xs) + multiset{x}
    ensures forall y :: y in r <==> y in xs || y == x
  {
    if xs == [] || x.date <= xs[0].date then [x] + xs
    else
      var rest := InsertByDate(x, xs[1..]);
      assert xs == [xs[0]] + xs[1..];
      HeadBelowRest(x, xs, rest);
      ConsSorted(xs[0], rest);
      assert multiset([xs[0]] + rest) == multiset{xs[0]} + multiset(rest);
      [xs[0]] + rest
  }

  /** What follows the head of a sorted sequence, with `x` inserted, is no earlier than the head. */
  lemma HeadBelowRest(x: Appointment, xs: seq<Appointment>, rest: seq<Appointment>)
    requires SortedByDate(xs) && xs != [] && xs[0].date <= x.date
    requires forall y :: y in rest ==> y in xs[1..] || y == x
    ensures forall i :: 0 <= i < |rest| ==> xs[0].date <= rest[i].date
  {
    forall i | 0 <= i < |rest| ensures xs[0].date <= rest[i].date {
      assert rest[i] in rest;
      if rest[i] != x {
        var j :| 0 <= j < |xs[1..]| && xs[1..][j] == rest[i];
        assert xs[1..][j] == xs[j + 1];
      }
    }
  }

  /** A row no later than every row of a date-ordered list can be put in front of it. */
  lemma ConsSorted(h: Appointment, rest: seq<Appointment>)
    requires SortedByDate(rest)
    requires forall i :: 0 <= i < |rest| ==> h.date <= rest[i].date
    ensures SortedByDate([h] + rest)
  {
    var r := [h] + rest;
    forall i, j | 0 <= i < j < |r| ensures r[i].date <= r[j].date {
      assert r[j] == rest[j - 1];
      if i > 0 { assert r[i] == rest[i - 1]; }
    }
  }

  /** `order: ['date']`, as a stable insertion sort. */
  function SortByDate(xs: seq<Appointment>): (r: seq<Appointment>)
    ensures SortedByDate(r)
    ensures multiset(r) == multiset(xs)
  {
    if xs == [] then []
    else
      assert xs == [xs[0]] + xs[1..];
      InsertByDate(xs[0], SortByDate(xs[1..]))
  }

  /** Where page `page` starts: `(page - 1) * 20`. */
  function Offset(page: int): int {
    (page - 1) * PageSize
  }

  /** `limit: 20, offset: (page - 1) * 20` applied to an ordered result. */
  function Paginate(xs: seq<Appointment>, page: int): (r: Result<seq<Appointment>, ListError>)
    ensures r.Failure? <==> page < 1
    ensures r.Success? ==> |r.value| <= PageSize
    ensures r.Success? ==> 0 <= Offset(page) && (r.value == [] || Offset(page) + |r.value| <= |xs|)
    ensures r.Success? ==> |r.value| == PageSize || Offset(page) + |r.value| >= |xs|
    ensures r.Success? ==> forall k :: 0 <= k < |r.value| ==> r.value[k] == xs[Offset(page) + k]
  {
    if page < 1 then Failure(NegativeOffset)
    else if Offset(page) >= |xs| then Success([])
    else if Offset(page) + PageSize >= |xs| then Success(xs[Offset(page)..])
    else Success(xs[Offset(page)..Offset(page) + PageSize])
  }

  /** The slice of positions `lo .. hi` of `xs`, cut off at its end. */
  function Window(xs: seq<Appointment>, lo: nat, hi: nat): seq<Appointment> {
    if lo >= |xs| then [] else if hi >= |xs| then xs[lo..] else if hi <= lo then [] else xs[lo..hi]
  }

  /** `AppointmentController.index`: `page` defaults to 1 when absent. */
  function Index(rows: seq<Appointment>, userId: int, page: Option<int>): (r: Result<seq<Appointment>, ListError>)
    ensures r.Failure? <==> page.Some? && page.value < 1
    ensures r.Success? ==> |r.value| <= PageSize
  {
    Paginate(SortByDate(ActiveOf(rows, userId)), page.GetOr(1))
  }

  /** A page holds only rows of the list it was cut from. */
  lemma PageWithinList(xs: seq<Appointment>, page: int)
    ensures Paginate(xs, page).Success? ==> forall a :: a in Paginate(xs, page).value ==> a in xs
  {
    var r := Paginate(xs, page);
    if r.Success? {
      forall a | a in r.value ensures a in xs {
        var k :| 0 <= k < |r.value| && r.value[k] == a;
        assert a == xs[Offset(page) + k];
      }
    }
  }

  /** Every listed appointment belongs to the requester and is not canceled. */
  lemma ListedAreOwnedAndActive(rows: seq<Appointment>, userId: int, page: Option<int>)
    ensures Index(rows, userId, page).Success? ==>
      forall a :: a in Index(rows, userId, page).value ==> a in rows && a.userId == userId && a.canceledAt == None
  {
    var active := ActiveOf(rows, userId);
    var sorted := SortByDate(active);
    assert forall a :: a in sorted ==> a in active by {
      forall a | a in sorted ensures a in active {
        assert a in multiset(sorted);
      }
    }
    PageWithinList(sorted, page.GetOr(1));
  }

  /** A page of a date-ordered list is date-ordered. */
  lemma PageOfSortedIsSorted(xs: seq<Appointment>, page: int)
    requires SortedByDate(xs) && page >= 1
    ensures SortedByDate(Paginate(xs, page).value)
  {
    var p := Paginate(xs, page).value;
    forall i, j | 0 <= i < j < |p| ensures p[i].date <= p[j].date {
      assert p[i] == xs[Offset(page) + i] && p[j] == xs[Offset(page) + j];
    }
  }

  /** A page is in ascending date order. */
  lemma PageSorted(rows: seq<Appointment>, userId: int, page: Option<int>)
    requires Index(rows, userId, page).Success?
    ensures SortedByDate(Index(rows, userId, page).value)
  {
    var sorted := SortByDate(ActiveOf(rows, userId));
    PageOfSortedIsSorted(sorted, page.GetOr(1));
  }

  /** Without a page the first page is listed, and it starts at the first row: nothing is skipped. */
  lemma DefaultPageIsFirst(rows: seq<Appointment>, userId: int)
    ensures Index(rows, userId, None) == Index(rows, userId, Some(1))
    ensures var sorted := SortByDate(ActiveOf(rows, userId));
      Index(rows, userId, None) == Success(Window(sorted, 0, PageSize))
  {
  }

  /** Every position `k` from `20(p-1)` to `20p - 1` of the ordered list, up to its end, is on page `p`, at place `k - 20(p-1)`. */
  lemma {:induction false} PageIsWindow(xs: seq<Appointment>, page: int)
    requires page >= 1
    ensures Paginate(xs, page).Success?
    ensures forall k :: Offset(page) <= k < Offset(page) + PageSize && k < |xs| ==>
      k - Offset(page) < |Paginate(xs, page).value| && Paginate(xs, page).value[k - Offset(page)] == xs[k]
  {
    var p := Paginate(xs, page).value;
    forall k | Offset(page) <= k < Offset(page) + PageSize && k < |xs|
      ensures k - Offset(page) < |p| && p[k - Offset(page)] == xs[k]
    {
      assert |p| == PageSize || Offset(page) + |p| >= |xs|;
    }
  }

  /** Consecutive pages are contiguous and do not overlap: together they are one window of 40 positions. */
  lemma {:induction false} ConsecutivePages(xs: seq<Appointment>, page: int)
    requires page >= 1
    ensures Paginate(xs, page).value + Paginate(xs, page + 1).value
         == Window(xs, Offset(page), Offset(page) + 2 * PageSize)
  {
    var o := Offset(page);
    assert Offset(page + 1) == o + PageSize;
    if o + PageSize < |xs| {
      if o + 2 * PageSize < |xs| {
        assert xs[o..o + PageSize] + xs[o + PageSize..o + 2 * PageSize] == xs[o..o + 2 * PageSize];
      } else {
        assert xs[o..o + PageSize] + xs[o + PageSize..] == xs[o..];
      }
    }
  }

  /** Position k of a list is on page k / 20 + 1, at place k % 20. */
  lemma {:induction false} PositionOnPage(xs: seq<Appointment>, k: int)
    requires 0 <= k < |xs|
    ensures var page := k / PageSize + 1;
      Paginate(xs, page).Success? && |Paginate(xs, page).value| > k % PageSize
      && Paginate(xs, page).value[k % PageSize] == xs[k]
  {
    var q, r := k / PageSize, k % PageSize;
    assert k == q * PageSize + r && 0 <= r < PageSize;
    assert Offset(q + 1) == q * PageSize;
    PageIsWindow(xs, q + 1);
  }

  /** Every active appointment of the requester appears on some page. */
  lemma EveryActiveAppointmentListed(rows: seq<Appointment>, userId: int, a: Appointment)
    requires a in rows && Listed(a, userId)
    ensures exists page :: page >= 1 && Index(rows, userId, Some(page)).Success?
                           && a in Index(rows, userId, Some(page)).value
  {
    var sorted := SortByDate(ActiveOf(rows, userId));
    assert a in multiset(ActiveOf(rows, userId));
    assert a in sorted;
    var k :| 0 <= k < |sorted| && sorted[k] == a;
    PositionOnPage(sorted, k);
    var page := k / PageSize + 1;
    assert Index(rows, userId, Some(page)) == Paginate(sorted, page);
    assert Paginate(sorted, page).value[k % PageSize] == a;
  }

  // ---------------------------------------------------------------------
  // delete

  /** The answer `delete` sends. */
  datatype Response =
    | Json(appointment: Appointment)
    | Status(code: int, error: string)
    | Unhandled   // `findByPk` gave null and reading `user_id` from it throws

  const NotOwnerMessage: string := "You don't have permission to cancel this appointment."
  const TooLateMessage: string := "You can only cancel appointments 2 hours advance"

  /** How `delete` reports each outcome of the cancellation policy. */
  function Respond(outcome: Result<Appointment, Cancellation.Denial>): (r: Response)
    ensures outcome.Success? <==> r.Json?
    ensures outcome.Success? ==> r == Json(outcome.value)
    ensures outcome == Failure(Cancellation.NotOwner) ==> r == Status(401, NotOwnerMessage)
    ensures outcome == Failure(Cancellation.TooLate) ==> r == Status(401, TooLateMessage)
    ensures outcome == Failure(Cancellation.MissingRecord) ==> r == Unhandled
  {
    match outcome
    case Success(a) => Json(a)
    case Failure(NotOwner) => Status(401, NotOwnerMessage)
    case Failure(TooLate) => Status(401, TooLateMessage)
    case Failure(MissingRecord) => Unhandled
  }

  /**
   * `AppointmentController.delete`: look the appointment up, check the
   * owner, check the two-hour deadline, stamp `canceled_at`, save, then
   * queue one CancellationMail job. The table and the job log end up as
   * `Cancellation.Cancel` says.
   */
  method Delete(store: AppointmentStore, id: int, userId: int, now: int) returns (r: Response)
    requires store.Valid()
    modifies store
    ensures store.Valid()
    ensures var e := Cancellation.Cancel(old(store.rows), id, userId, now);
      r == Respond(e.outcome) && store.rows == e.rows && store.jobs == old(store.jobs) + e.queued
  {
    var found := store.FindByPk(id);
    if found.None? {
      return Unhandled;
    }
    var appointment := found.value;

    if appointment.userId != userId {
      return Status(401, NotOwnerMessage);
    }

    var dateWithSub := SubHours(appointment.date, 2);
    if IsBefore(dateWithSub, now) {
      return Status(401, TooLateMessage);
    }

    appointment := appointment.(canceledAt := Some(now));
    store.Save(appointment);
    store.Enqueue(Job(CancellationMailKey, appointment));
    return Json(appointment);
  }
}
