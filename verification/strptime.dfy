/** `datetime.strptime` and `strftime` for the formats the FRATL parser uses,
    following CPython's `_strptime`: each directive becomes a regular
    expression (`%H` is `2[0-3]|[0-1]\d|\d`, `%I` is `1[0-2]|0[1-9]|[1-9]`,
    `%M` is `[0-5]\d|\d`, `%p` is `am|pm` in the C locale, all
    case-insensitive), the whole format is matched at the start of the
    string, and no match, or text left over after it, raises ValueError
    (`None` here). Only the time of day is kept. */
module Strptime {
  import opened Text

  datatype TimeOfDay = TimeOfDay(hour: nat, minute: nat)

  predicate Valid(t: TimeOfDay) { t.hour < 24 && t.minute < 60 }

  /** `%M` at p with nothing after it: the two-digit alternative first. */
  function MinuteEnd(ts: string, p: nat): Option<nat>
  {
    if p + 2 <= |ts| && '0' <= ts[p] <= '5' && IsDigit(ts[p + 1]) then Some(p + 2)
    else if p < |ts| && IsDigit(ts[p]) then Some(p + 1)
    else None
  }

  /** `%p` at q. */
  predicate AmPmAt(ts: string, q: nat)
  {
    q + 2 <= |ts| && (Lower(ts[q]) == 'a' || Lower(ts[q]) == 'p') && Lower(ts[q + 1]) == 'm'
  }

  /** `%M%p` at p, backtracking into `%M` when `%p` does not follow. */
  function MinuteAmPmEnd(ts: string, p: nat): Option<nat>
  {
    if p + 2 <= |ts| && '0' <= ts[p] <= '5' && IsDigit(ts[p + 1]) && AmPmAt(ts, p + 2) then Some(p + 4)
    else if p < |ts| && IsDigit(ts[p]) && AmPmAt(ts, p + 1) then Some(p + 3)
    else None
  }

  /** After an hour field of n characters: `:` then `%M` (and `%p` for the
      twelve-hour format); the end of the match. */
  function ColonThen(ts: string, n: nat, twelve: bool): Option<nat>
  {
    if n < |ts| && ts[n] == ':' then
      if twelve then MinuteAmPmEnd(ts, n + 1) else MinuteEnd(ts, n + 1)
    else None
  }

  /** Length of the `%H` field in the first match of `%H:%M`, or 0 if none. */
  function HourField24(ts: string): nat
  {
    if |ts| >= 2 && ts[0] == '2' && '0' <= ts[1] <= '3' && ColonThen(ts, 2, false).Some? then 2
    else if |ts| >= 2 && (ts[0] == '0' || ts[0] == '1') && IsDigit(ts[1]) && ColonThen(ts, 2, false).Some? then 2
    else if |ts| >= 1 && IsDigit(ts[0]) && ColonThen(ts, 1, false).Some? then 1
    else 0
  }

  /** Length of the `%I` field in the first match of `%I:%M%p`, or 0 if none. */
  function HourField12(ts: string): nat
  {
    if |ts| >= 2 && ts[0] == '1' && '0' <= ts[1] <= '2' && ColonThen(ts, 2, true).Some? then 2
    else if |ts| >= 2 && ts[0] == '0' && '1' <= ts[1] <= '9' && ColonThen(ts, 2, true).Some? then 2
    else if |ts| >= 1 && '1' <= ts[0] <= '9' && ColonThen(ts, 1, true).Some? then 1
    else 0
  }

  /** `datetime.strptime(ts, "%H:%M")` */
  function Strptime24(ts: string): (r: Option<TimeOfDay>)
    ensures r.Some? ==> Valid(r.value)
  {
    var n := HourField24(ts);
    if n == 0 then None
    else
      var e := ColonThen(ts, n, false).value;
      if e != |ts| then None
      else Some(TimeOfDay(Decimal(ts[..n]), Decimal(ts[n + 1..e])))
  }

  /** CPython's `%p` rule: am keeps the hour but 12 becomes 0; pm adds 12
      to every hour but 12. */
  function ApplyAmPm(hour: nat, pm: bool): nat
  {
    if !pm then (if hour == 12 then 0 else hour)
    else if hour != 12 then hour + 12 else hour
  }

  /** `datetime.strptime(ts, "%I:%M%p")` */
  function Strptime12(ts: string): (r: Option<TimeOfDay>)
    ensures r.Some? ==> Valid(r.value)
  {
    var n := HourField12(ts);
    if n == 0 then None
    else
      var e := ColonThen(ts, n, true).value;
      if e != |ts| then None
      else Some(TimeOfDay(ApplyAmPm(Decimal(ts[..n]), Lower(ts[e - 2]) == 'p'), Decimal(ts[n + 1..e - 2])))
  }

  /** Two-digit zero-padded decimal, as `%H` and `%M` print. */
  function TwoDigits(n: nat): (r: string)
    requires n < 100
    ensures |r| == 2 && IsDigit(r[0]) && IsDigit(r[1]) && Decimal(r) == n
  {
    [('0' as int + n / 10) as char, ('0' as int + n % 10) as char]
  }

  /** `t.strftime("%H:%M")` */
  function Strftime(t: TimeOfDay): (r: string)
    requires Valid(t)
    ensures |r| == 5 && r[2] == ':'
  {
    TwoDigits(t.hour) + ":" + TwoDigits(t.minute)
  }

  /** Printing a time and reading it back with the same format gives the time back. */
  lemma StrftimeRoundTrip(t: TimeOfDay)
    requires Valid(t)
    ensures Strptime24(Strftime(t)) == Some(t)
  {
    var ts := Strftime(t);
    assert ts[..2] == TwoDigits(t.hour);
    assert ts[3..5] == TwoDigits(t.minute);
  }

  /** A valid `%I` field: `1`-`9`, `01`-`09` or `10`-`12`. */
  predicate Hour12Field(hh: string)
  {
    (|hh| == 1 && '1' <= hh[0] <= '9') ||
    (|hh| == 2 && ((hh[0] == '0' && '1' <= hh[1] <= '9') || (hh[0] == '1' && '0' <= hh[1] <= '2')))
  }

  /** A valid `%H` field: one digit, or two digits `00`-`23`. */
  predicate Hour24Field(hh: string)
  {
    (|hh| == 1 && IsDigit(hh[0])) ||
    (|hh| == 2 && (((hh[0] == '0' || hh[0] == '1') && IsDigit(hh[1])) || (hh[0] == '2' && '0' <= hh[1] <= '3')))
  }

  predicate MinuteField(mm: string)
  {
    |mm| == 2 && '0' <= mm[0] <= '5' && IsDigit(mm[1])
  }

  /** `hh:mm` followed by am or pm parses to the hour the `%p` rule gives. */
  lemma Strptime12Reads(hh: string, mm: string, pm: bool)
    requires Hour12Field(hh) && MinuteField(mm)
    ensures DigitField(hh) && DigitField(mm)
    ensures Strptime12(hh + ":" + mm + (if pm then "pm" else "am")) == Some(TimeOfDay(ApplyAmPm(Decimal(hh), pm), Decimal(mm)))
  {
    var ts := hh + ":" + mm + (if pm then "pm" else "am");
    var n := |hh|;
    assert ts[..n] == hh;
    assert ts[n + 1..|ts| - 2] == mm;
    assert ts[|ts| - 2] == (if pm then 'p' else 'a');
    assert ColonThen(ts, n, true) == Some(|ts|);
    assert HourField12(ts) == n;
  }

  /** `hh:mm` parses with `%H:%M` to exactly that hour and minute. */
  lemma Strptime24Reads(hh: string, mm: string)
    requires Hour24Field(hh) && MinuteField(mm)
    ensures DigitField(hh) && DigitField(mm)
    ensures Strptime24(hh + ":" + mm) == Some(TimeOfDay(Decimal(hh), Decimal(mm)))
  {
    var ts := hh + ":" + mm;
    var n := |hh|;
    assert ts[..n] == hh;
    assert ts[n + 1..|ts|] == mm;
    assert MinuteEnd(ts, n + 1) == Some(|ts|);
    assert ColonThen(ts, n, false) == Some(|ts|);
    assert ts[0] == hh[0];
    assert n == 2 ==> ts[1] == hh[1];
    assert n == 1 ==> ts[1] == ':';
    assert HourField24(ts) == n;
  }

  /** Without a `:` in second or third place neither format matches at all. */
  lemma StrptimeNeedsEarlyColon(ts: string)
    requires |ts| >= 3 && ts[1] != ':' && ts[2] != ':'
    ensures Strptime12(ts).None? && Strptime24(ts).None?
  {
  }

  /** A seconds field is text left over after `%M` (and before `%p`): both
      formats raise. */
  lemma StrptimeRejectsSeconds(hh: string, mm: string, ss: string, mer: string)
    requires DigitField(hh) && MinuteField(mm) && MinuteField(ss)
    requires mer == "am" || mer == "pm" || mer == ""
    ensures mer != "" ==> Strptime12(hh + ":" + mm + ":" + ss + mer).None?
    ensures mer == "" ==> Strptime24(hh + ":" + mm + ":" + ss).None?
  {
    var ts := hh + ":" + mm + ":" + ss + mer;
    var n := |hh|;
    assert ts[n] == ':' && ts[n + 3] == ':';
    assert IsDigit(ts[n + 1]) && IsDigit(ts[n + 2]);
  }
}
