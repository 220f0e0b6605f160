/** The daily reset of src/utils/resetUtils.ts: a reset is due once a stored marker exists, the
    calendar date in Kyiv differs from it, and the Kyiv hour is 7 or later. The clock is taken as
    the string `toLocaleString` formats (for example "10/14/2026, 07:30"); storage is the
    `lastResetDate` marker. */
module ResetUtils {
  import opened Wrappers

  /** What `parseInt` yields: a number, or NaN. */
  datatype Hours = NaN | Hours(value: int)

  datatype KyivTime = KyivTime(hours: Hours, date: string)

  // ---------------------------------------------------------------------------
  // String splitting

  /** `sep` occurs in `s` starting at index `j`. */
  predicate OccursAt(s: string, sep: string, j: int)
  {
    0 <= j && j + |sep| <= |s| && s[j..j + |sep|] == sep
  }

  /** The first occurrence of `sep` in `s` at or after `from`. */
  function IndexOf(s: string, sep: string, from: nat): (r: Option<nat>)
    requires from <= |s|
    ensures r.Some? ==> from <= r.value && OccursAt(s, sep, r.value)
    ensures forall j :: from <= j && (r.None? || j < r.value) ==> !OccursAt(s, sep, j)
    decreases |s| - from
  {
    if from + |sep| > |s| then None
    else if s[from..from + |sep|] == sep then Some(from)
    else IndexOf(s, sep, from + 1)
  }

  /** The first piece of `s.split(sep)`: everything before the first `sep`, or all of `s`. */
  function Before(s: string, sep: string): (p: string)
    requires |sep| > 0
    ensures |p| <= |s| && p == s[..|p|]
    ensures IndexOf(s, sep, 0).None? ==> p == s
    ensures IndexOf(s, sep, 0).Some? ==> |p| == IndexOf(s, sep, 0).value
  {
    match IndexOf(s, sep, 0)
    case Some(k) => s[..k]
    case None => s
  }

  /** When `a` does not contain the first character of `sep`, the first `sep` in `a + sep + b`
      is the one right after `a`. */
  lemma FirstOccurrence(a: string, sep: string, b: string)
    requires |sep| > 0 && sep[0] !in a
    ensures IndexOf(a + sep + b, sep, 0) == Some(|a|)
  {
    var s := a + sep + b;
    assert s[|a|..|a| + |sep|] == sep;
    assert OccursAt(s, sep, |a|);
    forall j | 0 <= j < |a|
      ensures !OccursAt(s, sep, j)
    {
      assert s[j] == a[j];
    }
  }

  /** A string without the first character of `sep` has no `sep` in it. */
  lemma NoOccurrence(s: string, sep: string)
    requires |sep| > 0 && sep[0] !in s
    ensures IndexOf(s, sep, 0).None?
  {
  }

  // ---------------------------------------------------------------------------
  // parseInt

  predicate IsDigit(c: char)
  {
    '0' <= c <= '9'
  }

  predicate AllDigits(s: string)
  {
    forall i :: 0 <= i < |s| ==> IsDigit(s[i])
  }

  /** The longest prefix of `s` made of decimal digits. */
  function DigitPrefix(s: string): (p: string)
    ensures |p| <= |s| && p == s[..|p|]
    ensures AllDigits(p)
    ensures |p| < |s| ==> !IsDigit(s[|p|])
  {
    if s == [] || !IsDigit(s[0]) then [] else [s[0]] + DigitPrefix(s[1..])
  }

  function DigitValue(c: char): nat
    requires IsDigit(c)
  {
    (c as int) - ('0' as int)
  }

  /** The value of a string of decimal digits, read from the left. */
  function DigitsValue(d: string): nat
    requires AllDigits(d)
  {
    if d == [] then 0 else 10 * DigitsValue(d[..|d| - 1]) + DigitValue(d[|d| - 1])
  }

  /** `parseInt(s, 10)` on the formatter's output: the value of the leading digits, or NaN exactly
      when `s` does not start with a digit. */
  function ParseInt(s: string): (h: Hours)
    ensures h.NaN? <==> s == [] || !IsDigit(s[0])
  {
    var d := DigitPrefix(s);
    if d == [] then NaN else Hours(DigitsValue(d))
  }

  function DigitChar(d: nat): (c: char)
    requires d < 10
    ensures IsDigit(c) && DigitValue(c) == d
  {
    (('0' as int) + d) as char
  }

  /** A number below 100 written with two digits, as the `'2-digit'` format writes hours and minutes. */
  function TwoDigits(n: nat): (s: string)
    requires n < 100
    ensures |s| == 2 && AllDigits(s)
  {
    [DigitChar(n / 10), DigitChar(n % 10)]
  }

  /** Parsing a two-digit field gives back its number. */
  lemma ParseTwoDigits(n: nat)
    requires n < 100
    ensures ParseInt(TwoDigits(n)) == Hours(n)
  {
    var s := TwoDigits(n);
    assert DigitPrefix(s) == s;
    assert s[..1] == [s[0]];
    assert DigitsValue(s[..1]) == DigitValue(s[0]);
  }

  // ---------------------------------------------------------------------------
  // getKyivTime, shouldReset

  /** `getKyivTime` on an already formatted string: the date is the text before the first ", ",
      the hour the number before the first ":" of the next piece. Without a ", " the code reads a
      property of `undefined` and throws; that is `None`. */
  function GetKyivTime(formatted: string): Option<KyivTime>
  {
    match IndexOf(formatted, ", ", 0)
    case None => None
    case Some(k) =>
      var timePart := Before(formatted[k + 2..], ", ");
      var hour := Before(timePart, ":");
      Some(KyivTime(ParseInt(hour), formatted[..k]))
  }

  /** The formatter's output for a date (which has no comma), an hour and a minute. */
  function Formatted(date: string, hour: nat, minute: nat): string
    requires hour < 100 && minute < 100
  {
    date + ", " + (TwoDigits(hour) + ":" + TwoDigits(minute))
  }

  /** Reading back a formatted clock gives its date and its hour. */
  lemma GetKyivTimeOfFormatted(date: string, hour: nat, minute: nat)
    requires ',' !in date && hour < 100 && minute < 100
    ensures GetKyivTime(Formatted(date, hour, minute)) == Some(KyivTime(Hours(hour), date))
  {
    var rest := TwoDigits(hour) + ":" + TwoDigits(minute);
    var s := Formatted(date, hour, minute);
    FirstOccurrence(date, ", ", rest);
    assert s[|date| + 2..] == rest;
    assert s[..|date|] == date;
    assert ',' !in rest by {
      forall i | 0 <= i < |rest| ensures rest[i] != ',' {
        if i < 2 { assert rest[i] == TwoDigits(hour)[i]; }
        else if i > 2 { assert rest[i] == TwoDigits(minute)[i - 3]; }
      }
    }
    NoOccurrence(rest, ", ");
    assert ':' !in TwoDigits(hour) by {
      forall i | 0 <= i < 2 ensures TwoDigits(hour)[i] != ':' {
        assert IsDigit(TwoDigits(hour)[i]);
      }
    }
    FirstOccurrence(TwoDigits(hour), ":", TwoDigits(minute));
    assert Before(rest, ":") == TwoDigits(hour);
    ParseTwoDigits(hour);
  }

  /** The result of `localStorage.getItem('lastResetDate')`: it threw, or it gave a value or null. */
  datatype StorageRead = ReadFailed | Item(value: Option<string>)

  /** JavaScript's `hours >= n`, which is false for NaN. */
  predicate AtLeast(h: Hours, n: int)
  {
    h.Hours? && h.value >= n
  }

  /** `shouldReset`. A failed read, a missing or empty marker, or a clock that cannot be split all
      give false. */
  predicate ShouldReset(lastReset: StorageRead, clock: string)
  {
    match lastReset
    case ReadFailed => false
    case Item(None) => false
    case Item(Some(marker)) =>
      if marker == "" then false
      else match GetKyivTime(clock)
        case None => false
        case Some(kyiv) => kyiv.date != marker && AtLeast(kyiv.hours, 7)
  }

  /** Without a marker there is never a reset; any failure means no reset. */
  lemma NoMarkerNoReset(clock: string, read: StorageRead)
    ensures !ShouldReset(Item(None), clock) && !ShouldReset(Item(Some("")), clock)
    ensures !ShouldReset(ReadFailed, clock)
    ensures GetKyivTime(clock).None? ==> !ShouldReset(read, clock)
  {
  }

  /** On the marker's own date there is no reset, at any hour. */
  lemma SameDayNoReset(marker: string, clock: string)
    requires GetKyivTime(clock).Some? && GetKyivTime(clock).value.date == marker
    ensures !ShouldReset(Item(Some(marker)), clock)
  {
  }

  /** On a date other than the marker's a reset is due exactly from 7 o'clock on. */
  lemma NewDayResetsFromSeven(marker: string, date: string, hour: nat, minute: nat)
    requires marker != "" && date != marker
    requires ',' !in date && hour < 100 && minute < 100
    ensures ShouldReset(Item(Some(marker)), Formatted(date, hour, minute)) <==> hour >= 7
  {
    GetKyivTimeOfFormatted(date, hour, minute);
  }

  /** The `lastResetDate` storage key. */
  class ResetStore {
    var lastResetDate: Option<string>

    constructor (lastResetDate: Option<string>)
      ensures this.lastResetDate == lastResetDate
    {
      this.lastResetDate := lastResetDate;
    }

    /** `shouldReset()` with the marker read from this store. */
    predicate ShouldResetAt(clock: string)
      reads this
    {
      ShouldReset(Item(lastResetDate), clock)
    }

    /** A store without a marker never reports a reset, whatever the clock. Since `markResetDone`
        is only called after a reset was reported, such a store never gets a marker either. */
    lemma FreshStoreNeverResets(clock: string)
      requires lastResetDate.None?
      ensures !ShouldResetAt(clock)
    {
    }

    /** `markResetDone`: stores today's Kyiv date; when the clock cannot be split the code throws
        before writing, and the marker is kept. */
    method MarkResetDone(clock: string)
      modifies this
      ensures lastResetDate == match GetKyivTime(clock) {
        case Some(kyiv) => Some(kyiv.date)
        case None => old(lastResetDate)
      }
      ensures GetKyivTime(clock).Some? ==>
        forall later :: GetKyivTime(later).Some? && GetKyivTime(later).value.date == GetKyivTime(clock).value.date
          ==> !ShouldResetAt(later)
    {
      match GetKyivTime(clock)
      case Some(kyiv) => lastResetDate := Some(kyiv.date);
      case None =>
    }
  }
}
