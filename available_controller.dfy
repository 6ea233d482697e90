/**
 * `AvailableController.index`: the availability of a provider's sixteen
 * hourly slots (08:00 to 23:00) on one day. A slot is available when its
 * time is still ahead and none of the provider's active appointments that
 * day shows the slot's `HH:mm` label.
 */
module AvailableController {
  import opened Wrappers
  import opened Time
  import opened Appointments

  /** The fixed grid of slot labels. */
  const Schedule: seq<string> := [
    "08:00", "09:00", "10:00", "11:00", "12:00", "13:00", "14:00", "15:00",
    "16:00", "17:00", "18:00", "19:00", "20:00", "21:00", "22:00", "23:00"
  ]

  /** One entry of the answer. `value` is the slot's timestamp (its ISO rendering is not modelled). */
  datatype Slot = Slot(time: string, value: int, available: bool)

  /** Why the request fails. */
  datatype AvailabilityError = InvalidDate

  // ---------------------------------------------------------------------
  // "HH:mm" labels

  predicate IsDigit(c: char) { '0' <= c <= '9' }

  function DigitValue(c: char): (n: int)
    requires IsDigit(c)
    ensures 0 <= n < 10
  {
    c as int - '0' as int
  }

  function Digit(n: int): (c: char)
    requires 0 <= n < 10
    ensures IsDigit(c) && DigitValue(c) == n
  {
    ('0' as int + n) as char
  }

  /** A two-digit, zero-padded decimal numeral. */
  predicate IsNumeral(s: string) { |s| == 2 && IsDigit(s[0]) && IsDigit(s[1]) }

  /** `Number(s)` for a two-digit numeral, as `setHours` and `setMinutes` coerce it. */
  function NumeralValue(s: string): (n: int)
    requires IsNumeral(s)
    ensures 0 <= n < 100
  {
    DigitValue(s[0]) * 10 + DigitValue(s[1])
  }

  /** Zero-padded two-digit rendering, as in the `HH` and `mm` of a format. */
  function TwoDigits(n: int): (s: string)
    requires 0 <= n < 100
    ensures IsNumeral(s) && NumeralValue(s) == n
  {
    [Digit(n / 10), Digit(n % 10)]
  }

  /** A numeral and its value determine each other. */
  lemma NumeralRoundTrip(s: string)
    requires IsNumeral(s)
    ensures TwoDigits(NumeralValue(s)) == s
  {
    var n := NumeralValue(s);
    assert n / 10 == DigitValue(s[0]) && n % 10 == DigitValue(s[1]);
    assert Digit(DigitValue(s[0])) == s[0];
    assert Digit(DigitValue(s[1])) == s[1];
  }

  /** The shape `HH:mm`. */
  predicate IsLabel(s: string) {
    |s| == 5 && IsNumeral(s[..2]) && s[2] == ':' && IsNumeral(s[3..])
  }

  /** `time.split(':')`, first part, as a number. */
  function LabelHour(s: string): int
    requires IsLabel(s)
  {
    NumeralValue(s[..2])
  }

  /** `time.split(':')`, second part, as a number. */
  function LabelMinute(s: string): int
    requires IsLabel(s)
  {
    NumeralValue(s[3..])
  }

  /** `format(t, 'HH:mm')`. */
  function FormatHHmm(t: int): (s: string)
    ensures IsLabel(s) && LabelHour(s) == HourOf(t) && LabelMinute(s) == MinuteOf(t)
  {
    Decompose(t);
    var s := TwoDigits(HourOf(t)) + ":" + TwoDigits(MinuteOf(t));
    assert s[..2] == TwoDigits(HourOf(t)) && s[3..] == TwoDigits(MinuteOf(t));
    s
  }

  /** A timestamp formats to a label exactly when its hour and minute are the label's. */
  lemma {:induction false} FormatMatchesLabel(t: int, hhmm: string)
    requires IsLabel(hhmm)
    ensures FormatHHmm(t) == hhmm <==> HourOf(t) == LabelHour(hhmm) && MinuteOf(t) == LabelMinute(hhmm)
  {
    var s := FormatHHmm(t);
    if HourOf(t) == LabelHour(hhmm) && MinuteOf(t) == LabelMinute(hhmm) {
      NumeralRoundTrip(hhmm[..2]);
      NumeralRoundTrip(hhmm[3..]);
      NumeralRoundTrip(s[..2]);
      NumeralRoundTrip(s[3..]);
      assert s == s[..2] + [s[2]] + s[3..];
      assert hhmm == hhmm[..2] + [hhmm[2]] + hhmm[3..];
    }
  }

  /** Every grid entry is a label whose hour is 8 plus its position and whose minute is 0. */
  lemma ScheduleIsHourlyGrid()
    ensures |Schedule| == 16
    ensures forall i :: 0 <= i < 16 ==>
      IsLabel(Schedule[i]) && LabelHour(Schedule[i]) == 8 + i && LabelMinute(Schedule[i]) == 0
  {
    forall i | 0 <= i < 16
      ensures IsLabel(Schedule[i]) && LabelHour(Schedule[i]) == 8 + i && LabelMinute(Schedule[i]) == 0
    {
      assert Schedule[i] == TwoDigits(8 + i) + ":" + TwoDigits(0);
      var s := Schedule[i];
      assert s[..2] == TwoDigits(8 + i) && s[3..] == TwoDigits(0);
    }
  }

  // ---------------------------------------------------------------------
  // the query and the slot grid

  /** The `where` clause: this provider, not canceled, between `startOfDay` and `endOfDay` of the search date. */
  predicate Considered(a: Appointment, providerId: int, searchDate: int) {
    a.providerId == providerId && a.canceledAt.None?
    && StartOfDay(searchDate) <= a.date <= EndOfDay(searchDate)
  }

  /** The rows the query fetches, in table order. */
  function DayAppointments(rows: seq<Appointment>, providerId: int, searchDate: int): (r: seq<Appointment>)
    ensures forall a :: a in r <==> a in rows && Considered(a, providerId, searchDate)
  {
    if rows == [] then []
    else
      var rest := DayAppointments(rows[1..], providerId, searchDate);
      assert rows == [rows[0]] + rows[1..];
      if Considered(rows[0], providerId, searchDate) then [rows[0]] + rest else rest
  }

  /** `appointments.find(a => format(a.date, 'HH:mm') === label)`: the first fetched row showing the label. */
  function FindByLabel(appointments: seq<Appointment>, hhmm: string): (r: Option<Appointment>)
    ensures r.Some? ==> r.value in appointments && FormatHHmm(r.value.date) == hhmm
    ensures r.None? <==> forall a :: a in appointments ==> FormatHHmm(a.date) != hhmm
  {
    if appointments == [] then None
    else if FormatHHmm(appointments[0].date) == hhmm then Some(appointments[0])
    else FindByLabel(appointments[1..], hhmm)
  }

  /** `setSeconds(setMinutes(setHours(searchDate, hour), minute), 0)`. */
  function SlotValue(searchDate: int, hhmm: string): int
    requires IsLabel(hhmm)
  {
    SetSeconds(SetMinutes(SetHours(searchDate, LabelHour(hhmm)), LabelMinute(hhmm)), 0)
  }

  /** The timestamp of grid slot `i` on the search date's day. */
  function GridSlotValue(searchDate: int, i: int): int
    requires 0 <= i < 16
  {
    ScheduleIsHourlyGrid();
    SlotValue(searchDate, Schedule[i])
  }

  /** The entry for one label. */
  function MakeSlot(appointments: seq<Appointment>, searchDate: int, now: int, hhmm: string): Slot
    requires IsLabel(hhmm)
  {
    var value := SlotValue(searchDate, hhmm);
    Slot(hhmm, value, IsAfter(value, now) && FindByLabel(appointments, hhmm).None?)
  }

  /**
   * `AvailableController.index`. `date` is the query parameter, already
   * read as a number; `None` stands for a parameter that is absent or empty.
   */
  function Index(rows: seq<Appointment>, providerId: int, date: Option<int>, now: int)
    : (r: Result<seq<Slot>, AvailabilityError>)
    ensures date.None? <==> r == Failure(InvalidDate)
    ensures r.Success? ==> |r.value| == |Schedule| == 16
    ensures r.Success? ==> forall i :: 0 <= i < 16 ==> r.value[i].time == Schedule[i]
  {
    ScheduleIsHourlyGrid();
    if date.None? then Failure(InvalidDate)
    else
      var searchDate := date.value;
      var appointments := DayAppointments(rows, providerId, searchDate);
      Success(seq(|Schedule|, i requires 0 <= i < |Schedule| => MakeSlot(appointments, searchDate, now, Schedule[i])))
  }

  /**
   * Slot `i` lies on the search date's day at hour `8 + i`, minute 0 and
   * second 0, keeping the search date's milliseconds; its `HH:mm` is its label.
   */
  lemma {:induction false} SlotOnSearchDay(rows: seq<Appointment>, providerId: int, searchDate: int, now: int, i: int)
    requires 0 <= i < 16
    ensures var v := Index(rows, providerId, Some(searchDate), now).value[i].value;
      DayOf(v) == DayOf(searchDate) && HourOf(v) == 8 + i && MinuteOf(v) == 0 && SecondOf(v) == 0
      && MillisecondOf(v) == MillisecondOf(searchDate)
      && StartOfDay(searchDate) <= v <= EndOfDay(searchDate)
      && FormatHHmm(v) == Schedule[i]
  {
    ScheduleIsHourlyGrid();
    var v := Index(rows, providerId, Some(searchDate), now).value[i].value;
    assert v == SlotValue(searchDate, Schedule[i]);
    WithinDay(searchDate, v);
    FormatMatchesLabel(v, Schedule[i]);
  }

  /**
   * A slot is available exactly when its time is strictly after now and no
   * appointment of this provider that is active and on the search date's day
   * shows the slot's label. Nothing else matters.
   */
  lemma {:induction false} AvailableIff(rows: seq<Appointment>, providerId: int, searchDate: int, now: int, i: int)
    requires 0 <= i < 16
    ensures var s := Index(rows, providerId, Some(searchDate), now).value[i];
      s.available <==>
        s.value > now &&
        forall a :: a in rows && Considered(a, providerId, searchDate) ==> FormatHHmm(a.date) != Schedule[i]
  {
    ScheduleIsHourlyGrid();
  }

  /** A slot whose time is not strictly after now is unavailable, whatever is booked. */
  lemma PastSlotUnavailable(rows: seq<Appointment>, providerId: int, searchDate: int, now: int, i: int)
    requires 0 <= i < 16
    requires Index(rows, providerId, Some(searchDate), now).value[i].value <= now
    ensures !Index(rows, providerId, Some(searchDate), now).value[i].available
  {
    AvailableIff(rows, providerId, searchDate, now, i);
  }

  /**
   * A slot is unavailable when a fetched appointment shows its label; in
   * particular when one is booked at exactly the slot's timestamp.
   */
  lemma {:induction false} BookedSlotUnavailable(rows: seq<Appointment>, providerId: int, searchDate: int, now: int, i: int, a: Appointment)
    requires 0 <= i < 16
    requires a in rows && a.providerId == providerId && a.canceledAt.None?
    requires a.date == GridSlotValue(searchDate, i)
    ensures !Index(rows, providerId, Some(searchDate), now).value[i].available
  {
    SlotOnSearchDay(rows, providerId, searchDate, now, i);
    AvailableIff(rows, providerId, searchDate, now, i);
  }

  /**
   * A fetched appointment blocks slot `i` exactly when it falls in the
   * first minute of hour `8 + i` of the search date's day: labels compare
   * hour and minute only.
   */
  lemma {:induction false} BlockingMeansSameMinute(providerId: int, searchDate: int, i: int, a: Appointment)
    requires 0 <= i < 16 && Considered(a, providerId, searchDate)
    ensures FormatHHmm(a.date) == Schedule[i] <==>
      DayOf(a.date) == DayOf(searchDate) && HourOf(a.date) == 8 + i && MinuteOf(a.date) == 0
  {
    ScheduleIsHourlyGrid();
    WithinDay(searchDate, a.date);
    FormatMatchesLabel(a.date, Schedule[i]);
  }

  /**
   * Only the considered rows matter: two tables with the same considered
   * rows give the same answer, so canceled rows, other providers' rows and
   * rows on other days never block a slot.
   */
  lemma {:induction false} OnlyConsideredRowsMatter(rows: seq<Appointment>, rows': seq<Appointment>, providerId: int, searchDate: int, now: int)
    requires forall a :: Considered(a, providerId, searchDate) ==> (a in rows <==> a in rows')
    ensures Index(rows, providerId, Some(searchDate), now) == Index(rows', providerId, Some(searchDate), now)
  {
    var r := Index(rows, providerId, Some(searchDate), now).value;
    var r' := Index(rows', providerId, Some(searchDate), now).value;
    forall i | 0 <= i < 16 ensures r[i] == r'[i] {
      AvailableIff(rows, providerId, searchDate, now, i);
      AvailableIff(rows', providerId, searchDate, now, i);
    }
    assert r == r';
  }
}
