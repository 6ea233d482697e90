/**
 * `CancelAppointmentService.run`: the same policy as
 * `AppointmentController.delete`, reporting refusals by throwing instead of
 * answering with a status code.
 */
module CancelAppointmentService {
  import opened Wrappers
  import opened Time
  import opened Appointments
  import opened Cancellation

  /** What `run` throws. */
  datatype Thrown =
    | Error(message: string)   // `throw new Error(message)`
    | NullDereference          // `findByPk` gave null and reading `user_id` from it throws

  const NotOwnerMessage: string := "You don't have permission to cancel this appointment."
  const TooLateMessage: string := "You can only cancel appointments 2 hours advance"

  /** How `run` reports each outcome of the cancellation policy. */
  function Outcome(outcome: Result<Appointment, Denial>): (r: Result<Appointment, Thrown>)
    ensures outcome.Success? <==> r.Success?
    ensures outcome.Success? ==> r.value == outcome.value
    ensures outcome == Failure(NotOwner) ==> r == Failure(Error(NotOwnerMessage))
    ensures outcome == Failure(TooLate) ==> r == Failure(Error(TooLateMessage))
    ensures outcome == Failure(MissingRecord) ==> r == Failure(NullDereference)
  {
    match outcome
    case Success(a) => Success(a)
    case Failure(NotOwner) => Failure(Error(NotOwnerMessage))
    case Failure(TooLate) => Failure(Error(TooLateMessage))
    case Failure(MissingRecord) => Failure(NullDereference)
  }

  /**
   * `run({ provider_id, user_id })`. Despite its name, `providerId` is the
   * key of the APPOINTMENT to cancel: it is what `findByPk` is given.
   * On success the stamped appointment is saved, one CancellationMail job
   * is queued, and the same appointment is returned.
   */
  method Run(store: AppointmentStore, providerId: int, userId: int, now: int) returns (r: Result<Appointment, Thrown>)
    requires store.Valid()
    modifies store
    ensures store.Valid()
    ensures var e := Cancel(old(store.rows), providerId, userId, now);
      r == Outcome(e.outcome) && store.rows == e.rows && store.jobs == old(store.jobs) + e.queued
  {
    var found := store.FindByPk(providerId);
    if found.None? {
      return Failure(NullDereference);
    }
    var appointment := found.value;

    if appointment.userId != userId {
      return Failure(Error(NotOwnerMessage));
    }

    var dateWithSub := SubHours(appointment.date, 2);
    if IsBefore(dateWithSub, now) {
      return Failure(Error(TooLateMessage));
    }

    appointment := appointment.(canceledAt := Some(now));
    store.Save(appointment);
    store.Enqueue(Job(CancellationMailKey, appointment));
    return Success(appointment);
  }
}
