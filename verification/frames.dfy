/**
 * The outbound command frames of src/beurer/transport/usb_hid.py. Each builder
 * produces the Python list of ints the driver puts on its transmit queue:
 * an opcode, its parameters, then zero padding up to one 64-byte HID report.
 */
module Frames {

  const FrameSize: nat := 64

  /** A list of ints as the driver builds it (not yet checked to be bytes). */
  type Frame = seq<int>

  function Zeros(n: nat): (z: seq<int>)
    ensures |z| == n
    ensures forall i :: 0 <= i < n ==> z[i] == 0
  {
    seq(n, _ => 0)
  }

  /** `f` is one full report that carries `prefix` and zeros after it. By
      `FrameOfUnique` this fixes every entry, so a builder whose contract
      says `FrameOf(f, prefix)` has its whole report stated. */
  predicate FrameOf(f: Frame, prefix: seq<int>)
  {
    && |f| == FrameSize
    && |prefix| <= FrameSize
    && f[..|prefix|] == prefix
    && forall i :: |prefix| <= i < FrameSize ==> f[i] == 0
  }

  /** Every entry of the list fits in a byte, so `hid.write` can send it. */
  predicate AllBytes(f: Frame)
  {
    forall i :: 0 <= i < |f| ==> 0 <= f[i] < 256
  }

  /** A report is determined by its prefix: two frames with the same prefix
      and zero padding are the same list. */
  lemma FrameOfUnique(f: Frame, g: Frame, prefix: seq<int>)
    requires FrameOf(f, prefix) && FrameOf(g, prefix)
    ensures f == g
  {
    assert forall i :: 0 <= i < |prefix| ==> f[i] == f[..|prefix|][i] && g[i] == g[..|prefix|][i];
  }

  /** `get_model`: ask for the model string. */
  function GetModelFrame(): (f: Frame)
    ensures FrameOf(f, [0x81, 0x01])
    ensures AllBytes(f)
  {
    [0x81] + [0x01] + Zeros(62)
  }

  /** `get_user`: ask for the stored user name. */
  function GetUserFrame(): (f: Frame)
    ensures FrameOf(f, [0x8e, 0x03, 0x11])
    ensures AllBytes(f)
  {
    [0x8e] + [0x03] + [0x11] + Zeros(61)
  }

  /** The keepalive report the receive loop enqueues. */
  function KeepaliveFrame(): (f: Frame)
    ensures FrameOf(f, [0x9a, 0x1a])
    ensures AllBytes(f)
  {
    [0x9a] + [0x1a] + Zeros(62)
  }

  /** `configure`: three reports, always enqueued together and in this order. */
  function ConfigureFrames(): (fs: seq<Frame>)
    ensures |fs| == 3
    ensures FrameOf(fs[0], [0x80])
    ensures FrameOf(fs[1], [0x9b, 0x01, 0x1c])
    ensures FrameOf(fs[2], [0x9b, 0x00, 0x1b])
    ensures forall k :: 0 <= k < 3 ==> AllBytes(fs[k])
  {
    [[0x80] + Zeros(63),
     [0x9b] + [0x01] + [0x1c] + Zeros(61),
     [0x9b] + [0x00] + [0x1b] + Zeros(61)]
  }

  /** The fields of a Python `datetime` that `set_time` reads. */
  datatype DateTime = DateTime(year: int, month: int, day: int, hour: int,
                               minute: int, second: int)

  predicate IsLeapYear(y: int)
  {
    y % 4 == 0 && (y % 100 != 0 || y % 400 == 0)
  }

  function DaysInMonth(y: int, m: int): int
  {
    if m == 2 then (if IsLeapYear(y) then 29 else 28)
    else if m == 4 || m == 6 || m == 9 || m == 11 then 30
    else 31
  }

  /** The ranges the `datetime` constructor enforces. */
  predicate ValidDateTime(dt: DateTime)
  {
    && 1 <= dt.year <= 9999
    && 1 <= dt.month <= 12
    && 1 <= dt.day <= DaysInMonth(dt.year, dt.month)
    && 0 <= dt.hour < 24
    && 0 <= dt.minute < 60
    && 0 <= dt.second < 60
  }

  /** Days in the months of year `y` before month `m`. */
  function DaysBeforeMonth(y: int, m: int): int
    requires 1 <= m <= 13
    decreases m
  {
    if m == 1 then 0 else DaysBeforeMonth(y, m - 1) + DaysInMonth(y, m - 1)
  }

  /** The proleptic Gregorian ordinal of a date, 0001-01-01 being day 1. */
  function Ordinal(dt: DateTime): int
    requires ValidDateTime(dt)
  {
    var y := dt.year - 1;
    y * 365 + y / 4 - y / 100 + y / 400 + DaysBeforeMonth(dt.year, dt.month) + dt.day
  }

  /** `datetime.weekday()`: Monday is 0 and Sunday is 6. */
  function Weekday(dt: DateTime): (w: int)
    requires ValidDateTime(dt)
    ensures 0 <= w < 7
  {
    (Ordinal(dt) + 6) % 7
  }

  /** The calendar day after `dt`, at the same time of day. */
  function NextDay(dt: DateTime): DateTime
    requires ValidDateTime(dt)
  {
    if dt.day < DaysInMonth(dt.year, dt.month) then dt.(day := dt.day + 1)
    else if dt.month < 12 then dt.(month := dt.month + 1, day := 1)
    else dt.(year := dt.year + 1, month := 1, day := 1)
  }

  /** Every leap year adds one day to the ordinal count of the next year. */
  lemma LeapDays(y: int)
    requires y >= 1
    ensures (y / 4 - y / 100 + y / 400) - ((y - 1) / 4 - (y - 1) / 100 + (y - 1) / 400)
            == if IsLeapYear(y) then 1 else 0
  {
    QuarterStep(y);
    CenturyStep(y);
    QuadCenturyStep(y);
    var a, b, c := y / 4 - (y - 1) / 4, y / 100 - (y - 1) / 100, y / 400 - (y - 1) / 400;
    if y % 400 == 0 {
      assert y % 100 == 0 && y % 4 == 0;
      assert a == 1 && b == 1 && c == 1;
    } else if y % 100 == 0 {
      assert y % 4 == 0;
      assert a == 1 && b == 1 && c == 0;
    } else if y % 4 == 0 {
      assert a == 1 && b == 0 && c == 0;
    } else {
      assert a == 0 && b == 0 && c == 0;
    }
  }

  lemma QuarterStep(y: int)
    requires y >= 1
    ensures y / 4 == (y - 1) / 4 + (if y % 4 == 0 then 1 else 0)
  {
  }

  lemma CenturyStep(y: int)
    requires y >= 1
    ensures y / 100 == (y - 1) / 100 + (if y % 100 == 0 then 1 else 0)
  {
  }

  lemma QuadCenturyStep(y: int)
    requires y >= 1
    ensures y / 400 == (y - 1) / 400 + (if y % 400 == 0 then 1 else 0)
  {
  }

  /** A year has 366 days if it is a leap year and 365 otherwise. */
  lemma DaysInYear(y: int)
    ensures DaysBeforeMonth(y, 13) == if IsLeapYear(y) then 366 else 365
  {
  }

  /** The ordinal counts days: the next day's ordinal is one more, and the
      next day is a valid date up to the last day of 9999. */
  lemma NextDayOrdinal(dt: DateTime)
    requires ValidDateTime(dt)
    requires !(dt.year == 9999 && dt.month == 12 && dt.day == 31)
    ensures ValidDateTime(NextDay(dt))
    ensures Ordinal(NextDay(dt)) == Ordinal(dt) + 1
  {
    if dt.day == DaysInMonth(dt.year, dt.month) && dt.month == 12 {
      LeapDays(dt.year);
      DaysInYear(dt.year);
    }
  }

  /** Python's calendar starts on a Monday: 0001-01-01 is weekday 0. */
  lemma WeekdayOfFirstDay()
    ensures Weekday(DateTime(1, 1, 1, 0, 0, 0)) == 0
  {
  }

  /** Weekdays advance by one, Sunday (6) wrapping to Monday (0), from
      each day to the next. */
  lemma WeekdayNextDay(dt: DateTime)
    requires ValidDateTime(dt)
    requires !(dt.year == 9999 && dt.month == 12 && dt.day == 31)
    ensures ValidDateTime(NextDay(dt))
    ensures Weekday(NextDay(dt)) == (Weekday(dt) + 1) % 7
  {
    NextDayOrdinal(dt);
  }

  /** `set_time`: opcode 0x83, the date and time fields with the year counted
      from 2000, the weekday, a constant 0x04, then zero padding. Only years
      2000..2255 give a list whose entries are all bytes. */
  function SetTimeFrame(dt: DateTime): (f: Frame)
    requires ValidDateTime(dt)
    ensures FrameOf(f, [0x83, dt.year - 2000, dt.month, dt.day, dt.hour,
                        dt.minute, dt.second, Weekday(dt), 0x04])
    ensures AllBytes(f) <==> 2000 <= dt.year <= 2255
  {
    var head := [0x83] + [dt.year - 2000] + [dt.month] + [dt.day] + [dt.hour]
                + [dt.minute] + [dt.second] + [Weekday(dt)] + [0x04];
    var f := head + Zeros(FrameSize - |head|);
    assert f[1] == dt.year - 2000;
    f
  }
}
