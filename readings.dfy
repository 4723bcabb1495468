/**
 * Readings of the SCADA_Data feed, already decoded, the bucket keys the three
 * summaries group them by, and the order in which a group-by lists those keys.
 */
module Readings {

  /** A calendar date, the value of `Timestamp.date()`. */
  datatype Date = Date(year: int, month: int, day: int)

  type HourOfDay = h: int | 0 <= h < 24
  type MinuteOfHour = m: int | 0 <= m < 60
  type SecondOfMinute = s: int | 0 <= s < 60

  /** A parsed SETTLEMENTDATE: a date and a time of day. */
  datatype Timestamp = Timestamp(date: Date, hour: HourOfDay, minute: MinuteOfHour, second: SecondOfMinute)

  /** One row of SCADA_Data with the columns the summaries use: ID, SETTLEMENTDATE, DUID, SCADAVALUE. */
  datatype Reading = Reading(id: int, settlementDate: Timestamp, duid: string, scadaValue: real)

  /** The three summary tables. */
  datatype Kind = Daily | ByDevice | Hourly

  /** A bucket key: the DATE column, the DUID column or the Hour column. */
  datatype Key = DayKey(date: Date) | DeviceKey(duid: string) | HourKey(hour: HourOfDay)

  /** The DATE column: the date part of SETTLEMENTDATE, the time of day dropped. */
  function DateOf(r: Reading): Date
  {
    r.settlementDate.date
  }

  /** The Hour column: the hour of SETTLEMENTDATE, whatever its date. */
  function HourOf(r: Reading): HourOfDay
  {
    r.settlementDate.hour
  }

  function KindOf(k: Key): Kind
  {
    match k
    case DayKey(_) => Daily
    case DeviceKey(_) => ByDevice
    case HourKey(_) => Hourly
  }

  /** The key a reading is grouped by in the table of the given kind. */
  function KeyOf(kind: Kind, r: Reading): (k: Key)
    ensures KindOf(k) == kind
  {
    match kind
    case Daily => DayKey(DateOf(r))
    case ByDevice => DeviceKey(r.duid)
    case Hourly => HourKey(HourOf(r))
  }

  /** Chronological order of dates. */
  predicate DateLess(a: Date, b: Date)
  {
    a.year < b.year || (a.year == b.year && (a.month < b.month || (a.month == b.month && a.day < b.day)))
  }

  /** Lexicographic order of strings by code point, the order of Python's `<` on `str`. */
  predicate StringLess(a: string, b: string)
  {
    if a == [] then b != []
    else if b == [] then false
    else if a[0] != b[0] then a[0] < b[0]
    else StringLess(a[1..], b[1..])
  }

  function KindRank(k: Kind): int
  {
    match k
    case Daily => 0
    case ByDevice => 1
    case Hourly => 2
  }

  /**
   * The order in which a group-by lists its keys: dates chronologically,
   * device ids lexicographically, hours numerically. Keys of different
   * kinds never meet in one table; they are ordered by kind only so that
   * the order is total.
   */
  predicate KeyLess(a: Key, b: Key)
  {
    if KindOf(a) != KindOf(b) then KindRank(KindOf(a)) < KindRank(KindOf(b))
    else match a
      case DayKey(d) => DateLess(d, b.date)
      case DeviceKey(s) => StringLess(s, b.duid)
      case HourKey(h) => h < b.hour
  }

  lemma {:induction false} StringLessIrreflexive(a: string)
    ensures !StringLess(a, a)
  {
    if a != [] {
      StringLessIrreflexive(a[1..]);
    }
  }

  lemma {:induction false} StringLessTransitive(a: string, b: string, c: string)
    requires StringLess(a, b) && StringLess(b, c)
    ensures StringLess(a, c)
  {
    if a != [] && a[0] == b[0] && b[0] == c[0] {
      StringLessTransitive(a[1..], b[1..], c[1..]);
    }
  }

  lemma {:induction false} StringLessTotal(a: string, b: string)
    requires a != b
    ensures StringLess(a, b) || StringLess(b, a)
  {
    if a != [] && b != [] && a[0] == b[0] {
      assert a == [a[0]] + a[1..] && b == [b[0]] + b[1..];
      StringLessTotal(a[1..], b[1..]);
    }
  }

  /** No key comes before itself. */
  lemma KeyLessIrreflexive(a: Key)
    ensures !KeyLess(a, a)
  {
    if a.DeviceKey? {
      StringLessIrreflexive(a.duid);
    }
  }

  lemma KeyLessTransitive(a: Key, b: Key, c: Key)
    requires KeyLess(a, b) && KeyLess(b, c)
    ensures KeyLess(a, c)
  {
    if a.DeviceKey? && b.DeviceKey? && c.DeviceKey? {
      StringLessTransitive(a.duid, b.duid, c.duid);
    }
  }

  /** Any two different keys are ordered one way or the other, so a group-by's key order is defined. */
  lemma KeyLessTotal(a: Key, b: Key)
    requires a != b
    ensures KeyLess(a, b) || KeyLess(b, a)
  {
    if a.DeviceKey? && b.DeviceKey? {
      StringLessTotal(a.duid, b.duid);
    }
  }

  lemma KeyLessAsymmetric(a: Key, b: Key)
    requires KeyLess(a, b)
    ensures !KeyLess(b, a)
  {
    if KeyLess(b, a) {
      KeyLessTransitive(a, b, a);
      KeyLessIrreflexive(a);
    }
  }
}
