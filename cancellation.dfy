/**
 * The cancellation policy shared by `AppointmentController.delete` and
 * `CancelAppointmentService.run`: the requester must own the appointment,
 * and the appointment's time minus two hours must not be strictly before
 * now. The specification function `Cancel` gives the whole effect of one
 * cancellation request on the table and on the job queue; both imperative
 * versions are proved to have exactly this effect.
 */
module Cancellation {
  import opened Wrappers
  import opened Time
  import opened Appointments

  /** Why a cancellation request is refused. */
  datatype Denial =
    | MissingRecord   // no row with that key: the source dereferences null here
    | NotOwner
    | TooLate

  /** The latest instant at which the appointment may still be canceled. */
  function Deadline(a: Appointment): int {
    SubHours(a.date, 2)
  }

  /** The two checks, ownership first: `None` means the request may proceed. */
  function Check(a: Appointment, requester: int, now: int): (r: Option<Denial>)
    ensures r != Some(MissingRecord)
    ensures a.userId != requester ==> r == Some(NotOwner)
    ensures a.userId == requester && a.date - 2 * HOUR < now ==> r == Some(TooLate)
    ensures r == None <==> a.userId == requester && now <= a.date - 2 * HOUR
  {
    if a.userId != requester then Some(NotOwner)
    else if IsBefore(Deadline(a), now) then Some(TooLate)
    else None
  }

  /** The outcome of one request: what it answers, the table afterwards, and the jobs it queued. */
  datatype Effect = Effect(outcome: Result<Appointment, Denial>, rows: seq<Appointment>, queued: seq<Job>)

  /** The effect of asking to cancel appointment `id` on behalf of `requester` at time `now`. */
  function Cancel(rows: seq<Appointment>, id: int, requester: int, now: int): (e: Effect)
    ensures e.outcome == Failure(MissingRecord) <==> Lookup(rows, id).None?
    ensures e.outcome.Success? <==>
      Lookup(rows, id).Some? && Lookup(rows, id).value.userId == requester &&
      now <= Lookup(rows, id).value.date - 2 * HOUR
    ensures e.outcome.Failure? ==> e.rows == rows && e.queued == []
    ensures e.outcome.Success? ==>
      Lookup(rows, id).Some? &&
      e.outcome.value == Lookup(rows, id).value.(canceledAt := Some(now)) &&
      e.rows == Replace(rows, e.outcome.value) &&
      e.queued == [Job(CancellationMailKey, e.outcome.value)]
  {
    match Lookup(rows, id)
    case None => Effect(Failure(MissingRecord), rows, [])
    case Some(a) =>
      match Check(a, requester, now)
      case Some(denial) => Effect(Failure(denial), rows, [])
      case None =>
        var canceled := a.(canceledAt := Some(now));
        Effect(Success(canceled), Replace(rows, canceled), [Job(CancellationMailKey, canceled)])
  }

  /** A requester who does not own the appointment is refused at any time, and nothing changes. */
  lemma NonOwnerRefused(rows: seq<Appointment>, id: int, requester: int, now: int)
    requires Lookup(rows, id).Some? && Lookup(rows, id).value.userId != requester
    ensures Cancel(rows, id, requester, now) == Effect(Failure(NotOwner), rows, [])
  {
  }

  /** An owner asking when `date - 2h` is strictly before now is refused, and nothing changes. */
  lemma LateRequestRefused(rows: seq<Appointment>, id: int, requester: int, now: int)
    requires Lookup(rows, id).Some?
    requires Lookup(rows, id).value.userId == requester
    requires Lookup(rows, id).value.date - 2 * HOUR < now
    ensures Cancel(rows, id, requester, now) == Effect(Failure(TooLate), rows, [])
  {
  }

  /** An owner asking exactly two hours ahead is accepted: the comparison is strict. */
  lemma BoundaryAccepted(rows: seq<Appointment>, id: int, requester: int)
    requires Lookup(rows, id).Some? && Lookup(rows, id).value.userId == requester
    ensures Cancel(rows, id, requester, Lookup(rows, id).value.date - 2 * HOUR).outcome.Success?
  {
  }

  /** An owner asking at any time up to two hours ahead is accepted (for instance two hours and one minute ahead). */
  lemma TimelyOwnerAccepted(rows: seq<Appointment>, id: int, requester: int, now: int)
    requires Lookup(rows, id).Some? && Lookup(rows, id).value.userId == requester
    requires now <= Lookup(rows, id).value.date - 2 * HOUR
    ensures Cancel(rows, id, requester, now).outcome == Success(Lookup(rows, id).value.(canceledAt := Some(now)))
  {
  }

  /**
   * A successful cancellation stamps `canceledAt` with now and changes no
   * other field of the appointment; after it the table holds the stamped
   * record under the same key, every other key finds what it found before,
   * and exactly one CancellationMail job carrying the stamped record is queued.
   */
  lemma {:induction false} SuccessfulCancellation(rows: seq<Appointment>, id: int, requester: int, now: int, other: int)
    requires Cancel(rows, id, requester, now).outcome.Success?
    ensures var e := Cancel(rows, id, requester, now);
      var before := Lookup(rows, id).value;
      var after := e.outcome.value;
      after.id == id && after.userId == before.userId == requester &&
      after.providerId == before.providerId && after.date == before.date &&
      after.canceledAt == Some(now) &&
      Lookup(e.rows, id) == Some(after) &&
      (other != id ==> Lookup(e.rows, other) == Lookup(rows, other)) &&
      |e.rows| == |rows| &&
      e.queued == [Job(CancellationMailKey, after)]
  {
    var after := Cancel(rows, id, requester, now).outcome.value;
    LookupAfterReplace(rows, after, id);
    LookupAfterReplace(rows, after, other);
  }

  /**
   * There is no guard against canceling twice: an appointment that is
   * already canceled, asked for again in time by its owner, gets its
   * `canceledAt` overwritten and another job is queued.
   */
  lemma RecancelOverwrites(rows: seq<Appointment>, id: int, now: int)
    requires Lookup(rows, id).Some? && Lookup(rows, id).value.canceledAt.Some?
    requires now <= Lookup(rows, id).value.date - 2 * HOUR
    ensures var e := Cancel(rows, id, Lookup(rows, id).value.userId, now);
      e.outcome.Success? && e.outcome.value.canceledAt == Some(now) && |e.queued| == 1
  {
  }

  /** Cancellation keeps primary keys unique. */
  lemma CancelKeepsDistinct(rows: seq<Appointment>, id: int, requester: int, now: int)
    requires DistinctIds(rows)
    ensures DistinctIds(Cancel(rows, id, requester, now).rows)
  {
    var e := Cancel(rows, id, requester, now);
    if e.outcome.Success? {
      ReplaceKeepsDistinct(rows, e.outcome.value);
    }
  }
}
