/** The fixed week and day of the dashboard's timetable: the weekday columns,
    the hour rows, how an hour is read out of a `start_time` text
    (`parseInt(start_time.split(':')[0])`) and how a row label is written
    (`${h}:00`). */
module Calendar {
  import opened Records

  const Weekdays: seq<string> := ["Monday", "Tuesday", "Wednesday", "Thursday", "Friday"]
  const FirstHour: nat := 7
  const LastHour: nat := 18

  predicate IsDigit(ch: char) {
    '0' <= ch <= '9'
  }

  predicate AllDigits(s: string) {
    forall i :: 0 <= i < |s| ==> IsDigit(s[i])
  }

  /** The text before the first ':', or all of `s` when it has none:
      the first piece of `s.split(':')`. */
  function BeforeColon(s: string): (r: string)
    ensures r <= s
    ensures ':' !in r
    ensures |r| < |s| ==> s[|r|] == ':'
  {
    if s == [] || s[0] == ':' then [] else [s[0]] + BeforeColon(s[1..])
  }

  /** The longest run of decimal digits at the start of `s`. */
  function LeadingDigits(s: string): (r: string)
    ensures r <= s
    ensures AllDigits(r)
    ensures |r| < |s| ==> !IsDigit(s[|r|])
  {
    if s == [] || !IsDigit(s[0]) then [] else [s[0]] + LeadingDigits(s[1..])
  }

  function DigitValue(ch: char): nat
    requires IsDigit(ch)
  {
    ch as int - '0' as int
  }

  function DigitChar(d: nat): char
    requires d < 10
  {
    ('0' as int + d) as char
  }

  /** The value of a string of decimal digits, most significant first. */
  function DecimalValue(ds: string): nat
    requires AllDigits(ds)
  {
    if ds == [] then 0 else 10 * DecimalValue(ds[..|ds| - 1]) + DigitValue(ds[|ds| - 1])
  }

  /** The hour the timetable reads from a `start_time`: the value of the digits
      that open the text before the first ':'. `None` stands for `NaN`, which
      `parseInt` yields when no digit opens the text, and which equals no hour. */
  function StartHour(startTime: string): (r: Option<nat>)
    ensures r.None? <==> (startTime == [] || !IsDigit(startTime[0]))
  {
    var ds := LeadingDigits(BeforeColon(startTime));
    if ds == [] then None else Some(DecimalValue(ds))
  }

  /** `${n}` for a non-negative integer: its decimal digits, without leading zeros. */
  function DecimalText(n: nat): (r: string)
    ensures |r| >= 1 && AllDigits(r)
    ensures |r| > 1 ==> r[0] != '0'
  {
    if n < 10 then [DigitChar(n)] else DecimalText(n / 10) + [DigitChar(n % 10)]
  }

  /** Reading back what `DecimalText` writes gives the number again. */
  lemma {:induction false} DecimalRoundTrip(n: nat)
    ensures DecimalValue(DecimalText(n)) == n
  {
    var r := DecimalText(n);
    if n >= 10 {
      DecimalRoundTrip(n / 10);
      assert r[..|r| - 1] == DecimalText(n / 10);
    }
  }

  /** Digits pass through `BeforeColon` untouched. */
  lemma {:induction false} BeforeColonKeepsDigits(ds: string, rest: string)
    requires AllDigits(ds)
    ensures BeforeColon(ds + rest) == ds + BeforeColon(rest)
  {
    if ds != [] {
      assert (ds + rest)[0] == ds[0] && IsDigit(ds[0]);
      assert (ds + rest)[1..] == ds[1..] + rest;
      BeforeColonKeepsDigits(ds[1..], rest);
      assert ds == [ds[0]] + ds[1..];
    } else {
      assert ds + rest == rest;
    }
  }

  /** `LeadingDigits` stops at the first non-digit after a digit run. */
  lemma {:induction false} LeadingDigitsStops(ds: string, rest: string)
    requires AllDigits(ds) && (rest == [] || !IsDigit(rest[0]))
    ensures LeadingDigits(ds + rest) == ds
  {
    if ds != [] {
      assert (ds + rest)[1..] == ds[1..] + rest;
      LeadingDigitsStops(ds[1..], rest);
    } else {
      assert ds + rest == rest;
    }
  }

  /** A start time that opens with the digits `ds`, followed by the end of the
      text or by anything that is not a digit ("9", "9h30", "9.5:00", "09:00"),
      is read as the value of those digits. */
  lemma StartHourOfDigits(ds: string, rest: string)
    requires ds != [] && AllDigits(ds)
    requires rest == [] || !IsDigit(rest[0])
    ensures StartHour(ds + rest) == Some(DecimalValue(ds))
  {
    BeforeColonKeepsDigits(ds, rest);
    var b := BeforeColon(rest);
    assert b == [] || b[0] == rest[0];
    LeadingDigitsStops(ds, b);
  }

  /** The label of the row for hour `h`: the hour followed by ":00". Read as a
      `start_time`, the label gives back its own hour. */
  function HourLabel(h: nat): (r: string)
    ensures |r| >= 4 && r[..|r| - 3] == DecimalText(h) && r[|r| - 3..] == ":00"
    ensures StartHour(r) == Some(h)
  {
    var r := DecimalText(h) + ":00";
    StartHourOfDigits(DecimalText(h), ":00");
    DecimalRoundTrip(h);
    r
  }
}
