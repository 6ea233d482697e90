/**
 * Calendar arithmetic on integer timestamps.
 *
 * A timestamp is a number of milliseconds in the server's local time, whose
 * offset from UTC is taken to be fixed (no daylight-saving changes). Day,
 * hour, minute and second are the floor-division components of that number,
 * which is how a JavaScript `Date` splits its time value.
 */
module Time {

  const SECOND: int := 1000
  const MINUTE: int := 60 * SECOND
  const HOUR: int := 60 * MINUTE
  const DAY: int := 24 * HOUR

  function DayOf(t: int): int { t / DAY }
  function HourOf(t: int): int { (t % DAY) / HOUR }
  function MinuteOf(t: int): int { (t % HOUR) / MINUTE }
  function SecondOf(t: int): int { (t % MINUTE) / SECOND }
  function MillisecondOf(t: int): int { t % SECOND }

  /** The timestamp with the given calendar components. */
  function Compose(d: int, h: int, m: int, s: int, ms: int): int {
    d * DAY + h * HOUR + m * MINUTE + s * SECOND + ms
  }

  /** The components of a timestamp are in range and put it back together. */
  predicate InRange(h: int, m: int, s: int, ms: int) {
    0 <= h < 24 && 0 <= m < 60 && 0 <= s < 60 && 0 <= ms < SECOND
  }

  /** A nonzero multiple of a positive number is at least that number in size. */
  lemma MultipleSize(k: int, n: int)
    requires 0 < n
    ensures k >= 1 ==> k * n >= n
    ensures k <= -1 ==> k * n <= -n
  {
    if k >= 1 {
      assert k * n == (k - 1) * n + n;
    } else if k <= -1 {
      assert k * n == (k + 1) * n - n;
    }
  }

  /** Division by a positive number has exactly one quotient and remainder. */
  lemma DivModUnique(t: int, q: int, r: int, n: int)
    requires 0 < n && t == q * n + r && 0 <= r < n
    ensures t / n == q && t % n == r
  {
    var q', r' := t / n, t % n;
    assert t == q' * n + r' && 0 <= r' < n;
    var k := q - q';
    assert k * n == q * n - q' * n;
    MultipleSize(k, n);
  }

  /** Reading the components back from a composed timestamp gives them back. */
  lemma {:induction false} ComponentsOf(d: int, h: int, m: int, s: int, ms: int)
    requires InRange(h, m, s, ms)
    ensures var t := Compose(d, h, m, s, ms);
      DayOf(t) == d && HourOf(t) == h && MinuteOf(t) == m && SecondOf(t) == s && MillisecondOf(t) == ms
  {
    var t := Compose(d, h, m, s, ms);
    var inDay := h * HOUR + m * MINUTE + s * SECOND + ms;
    var inHour := m * MINUTE + s * SECOND + ms;
    var inMinute := s * SECOND + ms;
    DivModUnique(t, d, inDay, DAY);
    DivModUnique(inDay, h, inHour, HOUR);
    DivModUnique(t, d * 24 + h, inHour, HOUR);
    DivModUnique(inHour, m, inMinute, MINUTE);
    DivModUnique(t, (d * 24 + h) * 60 + m, inMinute, MINUTE);
    DivModUnique(inMinute, s, ms, SECOND);
    DivModUnique(t, ((d * 24 + h) * 60 + m) * 60 + s, ms, SECOND);
  }

  /** Every timestamp is the composition of its own components. */
  lemma {:induction false} Decompose(t: int)
    ensures InRange(HourOf(t), MinuteOf(t), SecondOf(t), MillisecondOf(t))
    ensures t == Compose(DayOf(t), HourOf(t), MinuteOf(t), SecondOf(t), MillisecondOf(t))
  {
    var d, inDay := t / DAY, t % DAY;
    var h, r1 := inDay / HOUR, inDay % HOUR;
    var m, r2 := r1 / MINUTE, r1 % MINUTE;
    var s, ms := r2 / SECOND, r2 % SECOND;
    assert t == d * DAY + inDay;
    assert inDay == h * HOUR + r1;
    assert r1 == m * MINUTE + r2;
    assert r2 == s * SECOND + ms;
    assert 0 <= h < 24 && 0 <= m < 60 && 0 <= s < 60;
    ComponentsOf(d, h, m, s, ms);
  }

  // date-fns operations used by the controllers

  /** `startOfDay`: midnight of the timestamp's day. */
  function StartOfDay(t: int): (r: int)
    ensures r <= t < r + DAY
    ensures DayOf(r) == DayOf(t) && HourOf(r) == 0 && MinuteOf(r) == 0
    ensures SecondOf(r) == 0 && MillisecondOf(r) == 0
  {
    Decompose(t);
    ComponentsOf(DayOf(t), 0, 0, 0, 0);
    DayOf(t) * DAY
  }

  /** `endOfDay`: the last millisecond (23:59:59.999) of the timestamp's day. */
  function EndOfDay(t: int): (r: int)
    ensures DayOf(r) == DayOf(t) && DayOf(r + 1) == DayOf(t) + 1
  {
    Decompose(t);
    ComponentsOf(DayOf(t), 23, 59, 59, 999);
    ComponentsOf(DayOf(t) + 1, 0, 0, 0, 0);
    StartOfDay(t) + DAY - 1
  }

  /** A timestamp lies between `startOfDay(t)` and `endOfDay(t)` exactly when it is on t's day. */
  lemma {:induction false} WithinDay(t: int, u: int)
    ensures StartOfDay(t) <= u <= EndOfDay(t) <==> DayOf(u) == DayOf(t)
  {
    Decompose(u);
    var d := DayOf(u);
    var rest := u - d * DAY;
    assert 0 <= rest < DAY;
    if d < DayOf(t) {
      assert d * DAY + DAY <= DayOf(t) * DAY;
    } else if d > DayOf(t) {
      assert DayOf(t) * DAY + DAY <= d * DAY;
    }
  }

  /** `setHours`: the same day, minutes, seconds and milliseconds with the hour replaced; out-of-range hours carry over, as with `Date.prototype.setHours`. */
  function SetHours(t: int, h: int): (r: int)
    ensures 0 <= h < 24 ==>
      DayOf(r) == DayOf(t) && HourOf(r) == h && MinuteOf(r) == MinuteOf(t)
      && SecondOf(r) == SecondOf(t) && MillisecondOf(r) == MillisecondOf(t)
  {
    Decompose(t);
    var r := t + (h - HourOf(t)) * HOUR;
    assert r == Compose(DayOf(t), h, MinuteOf(t), SecondOf(t), MillisecondOf(t));
    if 0 <= h < 24 then ComponentsOf(DayOf(t), h, MinuteOf(t), SecondOf(t), MillisecondOf(t)); r else r
  }

  /** `setMinutes`: the minute replaced, everything else kept. */
  function SetMinutes(t: int, m: int): (r: int)
    ensures 0 <= m < 60 ==>
      DayOf(r) == DayOf(t) && HourOf(r) == HourOf(t) && MinuteOf(r) == m
      && SecondOf(r) == SecondOf(t) && MillisecondOf(r) == MillisecondOf(t)
  {
    Decompose(t);
    var r := t + (m - MinuteOf(t)) * MINUTE;
    assert r == Compose(DayOf(t), HourOf(t), m, SecondOf(t), MillisecondOf(t));
    if 0 <= m < 60 then ComponentsOf(DayOf(t), HourOf(t), m, SecondOf(t), MillisecondOf(t)); r else r
  }

  /** `setSeconds`: the second replaced, everything else kept (milliseconds included). */
  function SetSeconds(t: int, s: int): (r: int)
    ensures 0 <= s < 60 ==>
      DayOf(r) == DayOf(t) && HourOf(r) == HourOf(t) && MinuteOf(r) == MinuteOf(t)
      && SecondOf(r) == s && MillisecondOf(r) == MillisecondOf(t)
  {
    Decompose(t);
    var r := t + (s - SecondOf(t)) * SECOND;
    assert r == Compose(DayOf(t), HourOf(t), MinuteOf(t), s, MillisecondOf(t));
    if 0 <= s < 60 then ComponentsOf(DayOf(t), HourOf(t), MinuteOf(t), s, MillisecondOf(t)); r else r
  }

  /** `subHours`. */
  function SubHours(t: int, n: int): int { t - n * HOUR }

  /** `isBefore(a, b)`: strictly earlier. */
  predicate IsBefore(a: int, b: int) { a < b }

  /** `isAfter(a, b)`: strictly later. */
  predicate IsAfter(a: int, b: int) { a > b }
}
