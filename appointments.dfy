/**
 * The appointment record, the queue job that a cancellation produces, and the
 * in-memory store that stands for the `appointments` table.
 */
module Appointments {
  import opened Wrappers

  /** One row of the `appointments` table; `canceledAt == None` means active. */
  datatype Appointment = Appointment(
    id: int,
    userId: int,
    providerId: int,
    date: int,
    canceledAt: Option<int>)

  /** The key under which the cancellation e-mail job is queued. */
  const CancellationMailKey: string := "CancellationMail"

  /** A queued job: its key and the appointment it was queued with. */
  datatype Job = Job(key: string, appointment: Appointment)

  /** Primary keys are unique. */
  ghost predicate DistinctIds(rows: seq<Appointment>) {
    forall i, j :: 0 <= i < j < |rows| ==> rows[i].id != rows[j].id
  }

  /** `findByPk`: the row with the given primary key, if there is one. */
  function Lookup(rows: seq<Appointment>, id: int): (r: Option<Appointment>)
    ensures r.Some? ==> r.value in rows && r.value.id == id
    ensures r.None? <==> forall a :: a in rows ==> a.id != id
  {
    if rows == [] then None
    else if rows[0].id == id then Some(rows[0])
    else Lookup(rows[1..], id)
  }

  /** With unique keys, the row found by key is the only row carrying that key. */
  lemma {:induction false} LookupUnique(rows: seq<Appointment>, a: Appointment)
    requires DistinctIds(rows) && a in rows
    ensures Lookup(rows, a.id) == Some(a)
  {
    if rows[0] != a {
      assert a in rows[1..];
      assert DistinctIds(rows[1..]) by {
        forall i, j | 0 <= i < j < |rows[1..]| ensures rows[1..][i].id != rows[1..][j].id {
          assert rows[1..][i] == rows[i + 1] && rows[1..][j] == rows[j + 1];
        }
      }
      LookupUnique(rows[1..], a);
      var k :| 0 <= k < |rows| && rows[k] == a;
      assert rows[0].id != a.id;
    }
  }

  /** `save()`: the row whose key is `a.id` becomes `a`; every other row stays. */
  function Replace(rows: seq<Appointment>, a: Appointment): (r: seq<Appointment>)
    ensures |r| == |rows|
    ensures forall k :: 0 <= k < |rows| ==> r[k] == (if rows[k].id == a.id then a else rows[k])
  {
    if rows == [] then []
    else [if rows[0].id == a.id then a else rows[0]] + Replace(rows[1..], a)
  }

  /** After saving `a`, looking up its key finds `a`, and every other key finds what it found before. */
  lemma {:induction false} LookupAfterReplace(rows: seq<Appointment>, a: Appointment, id: int)
    requires Lookup(rows, a.id).Some?
    ensures Lookup(Replace(rows, a), id) == if id == a.id then Some(a) else Lookup(rows, id)
  {
    var r := Replace(rows, a);
    assert r[0] == if rows[0].id == a.id then a else rows[0];
    if rows[0].id != a.id {
      assert r[1..] == Replace(rows[1..], a);
      LookupAfterReplace(rows[1..], a, id);
    } else if id != a.id {
      assert r[1..] == Replace(rows[1..], a);
      LookupOtherAfterReplace(rows[1..], a, id);
    }
  }

  /** Saving a row whose key another row lacks leaves that other row's lookup alone. */
  lemma {:induction false} LookupOtherAfterReplace(rows: seq<Appointment>, a: Appointment, id: int)
    requires id != a.id
    ensures Lookup(Replace(rows, a), id) == Lookup(rows, id)
  {
    if rows != [] {
      var r := Replace(rows, a);
      assert r[1..] == Replace(rows[1..], a);
      LookupOtherAfterReplace(rows[1..], a, id);
    }
  }

  /** Saving a row with the same key as a stored row keeps the keys unique. */
  lemma ReplaceKeepsDistinct(rows: seq<Appointment>, a: Appointment)
    requires DistinctIds(rows)
    ensures DistinctIds(Replace(rows, a))
  {
    var r := Replace(rows, a);
    forall i, j | 0 <= i < j < |r| ensures r[i].id != r[j].id {
      assert r[i].id == rows[i].id && r[j].id == rows[j].id;
    }
  }

  /**
   * The appointment table together with the log of jobs handed to the queue.
   * The job log is ghost: the queue is outside the model and only what was
   * added to it is recorded.
   */
  class AppointmentStore {
    var rows: seq<Appointment>
    ghost var jobs: seq<Job>

    ghost predicate Valid()
      reads this
    {
      DistinctIds(rows)
    }

    constructor (initial: seq<Appointment>)
      requires DistinctIds(initial)
      ensures Valid() && rows == initial && jobs == []
    {
      rows := initial;
      jobs := [];
    }

    /** `Appointment.findByPk(id)`. */
    function FindByPk(id: int): Option<Appointment>
      reads this
    {
      Lookup(rows, id)
    }

    /** `appointment.save()` for a row that was loaded from this table. */
    method Save(a: Appointment)
      requires Valid() && Lookup(rows, a.id).Some?
      modifies this`rows
      ensures Valid() && rows == Replace(old(rows), a)
    {
      ReplaceKeepsDistinct(rows, a);
      rows := Replace(rows, a);
    }

    /** `Queue.add(key, { appointment })`: the job joins the end of the log. */
    method Enqueue(job: Job)
      requires Valid()
      modifies this`jobs
      ensures Valid() && jobs == old(jobs) + [job]
    {
      jobs := jobs + [job];
    }
  }
}
