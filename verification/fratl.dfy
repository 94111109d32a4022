/** `parse_for_fratl`: find the first time expression in a post, normalise
    it, read it as a clock time, and shift it by the first zone the post
    names. The result keeps only the time of day, in minutes after midnight,
    since callers only ever print it with `%H:%M`. */
module Fratl {
  import opened Text
  import opened TimePattern
  import opened ZonePattern
  import opened Strptime

  const MinutesPerDay: nat := 1440

  /** What the parser yields: no time (`None`), a time of day, or the
      ValueError that `strptime` raises out of the parser. */
  datatype Outcome = NoTime | Parsed(minutes: nat) | StrptimeError

  // ---------------------------------------------------------------------
  // Normalisation of the matched text.

  /** `.lower().replace(" ", "").replace(".", ":")` */
  function Canonical(t: string): string
  {
    ReplaceAll(ReplaceAll(LowerStr(t), ' ', ""), '.', ":")
  }

  /** Without any `:`, a three-digit time gains a leading `0` and a `:` goes
      after the first two characters. */
  function InsertColon(ts: string): string
  {
    if Find(ts, ":") == -1 then
      var padded := if CountDigits(ts) == 3 then "0" + ts else ts;
      Take(padded, 2) + ":" + Drop(padded, 2)
    else ts
  }

  function Normalise(t: string): string
  {
    InsertColon(Canonical(t))
  }

  predicate HasMeridiem(ts: string)
  {
    Last(ts, 2) == "am" || Last(ts, 2) == "pm"
  }

  /** Without am/pm, an hour written `12` is read as just after midnight and
      one written `11` as eleven at night. */
  function ShiftHour(ts: string): string
  {
    if Take(ts, 2) == "12" then ReplaceFirst(ts, "12", "00")
    else if Take(ts, 2) == "11" then ReplaceFirst(ts, "11", "23")
    else ts
  }

  /** The guard against reading a distance such as `29km` as a time. */
  predicate IsDistance(ts: string)
  {
    Last(ts, 2) == "km"
  }

  function FromStrptime(r: Option<TimeOfDay>): (o: Outcome)
  {
    match r
    case None => StrptimeError
    case Some(t) => Parsed(t.hour * 60 + t.minute)
  }

  /** The clock time of a matched time expression, before any zone offset. */
  function ReadClock(t: string): (r: Outcome)
    ensures r.Parsed? ==> r.minutes < MinutesPerDay
  {
    var ts := Normalise(t);
    if HasMeridiem(ts) then FromStrptime(Strptime12(ts)) else ReadWithoutMeridiem(ts)
  }

  /** The branch without am/pm: shift the hour, guard against distances,
      and read with `%H:%M`. */
  function ReadWithoutMeridiem(ts: string): (r: Outcome)
    ensures r.Parsed? ==> r.minutes < MinutesPerDay
  {
    var shifted := ShiftHour(ts);
    if IsDistance(shifted) then NoTime
    else FromStrptime(Strptime24(shifted))
  }

  /** `parse_for_fratl(text)`, as the time of day it returns. */
  function ParseForFratl(text: string): (r: Outcome)
    ensures r.Parsed? ==> r.minutes < MinutesPerDay
    ensures Search(text).None? ==> r == NoTime
  {
    match Search(text)
    case None => NoTime
    case Some(m) =>
      match ReadClock(text[m.start..m.end])
      case Parsed(c) => Parsed(ApplyZone(text, c))
      case other => other
  }

  /** The offset of the first zone the text names, modulo a day. */
  function ApplyZone(text: string, c: nat): (r: nat)
    requires c < MinutesPerDay
    ensures r < MinutesPerDay
  {
    match ZoneSearch(text)
    case None => c
    case Some(z) => (c + OffsetMinutes(z.token)) % MinutesPerDay
  }

  // ---------------------------------------------------------------------
  // Reading a clock: the independent rules the normaliser implements.

  /** The twelve-hour convention: 12 am is midnight, 12 pm is noon, and
      every other pm hour is twelve hours later. */
  function Clock12To24(hour: nat, pm: bool): nat
  {
    hour % 12 + (if pm then 12 else 0)
  }

  /** Without am/pm, hour 12 is read as just after midnight and hour 11 as
      eleven at night; every other hour is taken as written. */
  function NightShift(hour: nat): nat
  {
    if hour == 12 then 0 else if hour == 11 then 23 else hour
  }

  predicate IsPm(c: char) { Lower(c) == 'p' }

  /** CPython's `%p` handling agrees with the twelve-hour convention on the
      hours `%I` accepts. */
  lemma ApplyAmPmIsClock12(hour: nat, pm: bool)
    requires 1 <= hour <= 12
    ensures ApplyAmPm(hour, pm) == Clock12To24(hour, pm) < 24
  {
  }

  /** The clock time a twelve-hour match denotes: its hour under the
      twelve-hour convention, and its minute. */
  function TwelveHourClock(s: string, i: nat, j: nat, h: nat, sep: nat, sec: nat, sp: nat): (c: nat)
    requires TwelveHourParts(s, i, j, h, sep, sec, sp)
    ensures c < MinutesPerDay
  {
    Clock12To24(Decimal(s[i..i + h]), IsPm(s[j - 2])) * 60 + Decimal(s[i + h + sep..i + h + sep + 2])
  }

  /** The clock time a twenty-four-hour match denotes: its hour, with 12
      and 11 moved to the night, and its minute. */
  function TwentyFourHourClock(s: string, i: nat, j: nat, h: nat, sep: nat, sec: nat): (c: nat)
    requires TwentyFourHourParts(s, i, j, h, sep, sec)
    ensures c < MinutesPerDay
  {
    NightShift(Decimal(s[i..i + h])) * 60 + Decimal(s[i + h + sep..i + h + sep + 2])
  }

  // ---------------------------------------------------------------------
  // Normalisation, piece by piece.

  lemma CanonicalAppend(a: string, b: string)
    ensures Canonical(a + b) == Canonical(a) + Canonical(b)
  {
    assert LowerStr(a + b) == LowerStr(a) + LowerStr(b);
    ReplaceAllAppend(LowerStr(a), LowerStr(b), ' ', "");
    ReplaceAllAppend(ReplaceAll(LowerStr(a), ' ', ""), ReplaceAll(LowerStr(b), ' ', ""), '.', ":");
  }

  /** Without spaces, normalisation rewrites each character in place: `.`
      becomes `:` and letters are lower-cased. */
  lemma CanonicalInPlace(x: string)
    requires forall k :: 0 <= k < |x| ==> x[k] != ' '
    ensures |Canonical(x)| == |x|
    ensures forall k :: 0 <= k < |x| ==> Canonical(x)[k] == (if x[k] == '.' then ':' else Lower(x[k]))
  {
    ReplaceAllAbsent(LowerStr(x), ' ', "");
    ReplaceAllByChar(LowerStr(x), '.', ':');
  }

  /** The digits and separators of a matched clock, normalised: both
      separators become `:` and the digits stay. */
  lemma CanonicalClockField(s: string, i: nat, h: nat, sep: nat, sec: nat)
    requires 1 <= h <= 2 && i + h + sep + 2 + sec <= |s|
    requires forall k :: i <= k < i + h ==> IsDigit(s[k])
    requires OptSepAt(s, i + h, sep) && MinuteAt(s, i + h + sep) && OptSecondsAt(s, i + h + sep + 2, sec)
    ensures Canonical(s[i..i + h + sep + 2 + sec]) ==
              s[i..i + h] + (if sep == 1 then ":" else "") + s[i + h + sep..i + h + sep + 2]
              + (if sec == 3 then ":" + s[i + h + sep + 3..i + h + sep + 5] else "")
  {
    var e := i + h + sep + 2 + sec;
    var hh := s[i..i + h];
    var p := s[i + h..i + h + sep];
    var mm := s[i + h + sep..i + h + sep + 2];
    var q := s[i + h + sep + 2..e];
    SliceSplit(s, i, i + h, i + h + sep, i + h + sep + 2, e);
    CanonicalAppend(hh + p + mm, q);
    CanonicalAppend(hh + p, mm);
    CanonicalAppend(hh, p);
    CanonicalDigits(hh);
    CanonicalDigits(mm);
    CanonicalSeparator(p);
    if sec == 3 {
      assert q[1..] == s[i + h + sep + 3..i + h + sep + 5];
      CanonicalSeconds(q);
    } else {
      assert q == [];
    }
  }

  /** Digits are left as they are. */
  lemma CanonicalDigits(d: string)
    requires forall k :: 0 <= k < |d| ==> IsDigit(d[k])
    ensures Canonical(d) == d
  {
    CanonicalInPlace(d);
  }

  /** An optional separator, `:` or `.`, becomes an optional `:`. */
  lemma CanonicalSeparator(p: string)
    requires |p| <= 1 && forall k :: 0 <= k < |p| ==> IsSep(p[k])
    ensures Canonical(p) == if |p| == 1 then ":" else ""
  {
    CanonicalInPlace(p);
  }

  /** A seconds field: its separator becomes `:` and its digits stay. */
  lemma CanonicalSeconds(q: string)
    requires |q| == 3 && IsSep(q[0]) && IsDigit(q[1]) && IsDigit(q[2])
    ensures Canonical(q) == ":" + q[1..]
  {
    assert q == q[..1] + q[1..];
    CanonicalAppend(q[..1], q[1..]);
    CanonicalSeparator(q[..1]);
    CanonicalDigits(q[1..]);
  }

  /** Padding and colon insertion on a normalised clock without seconds: a
      missing separator is inserted after the hour, and a one-digit hour
      without a separator gains a leading zero. */
  lemma InsertColonField(hh: string, sep: bool, mm: string, tail: string)
    requires DigitField(hh) && |mm| == 2 && DigitField(mm)
    requires forall k :: 0 <= k < |tail| ==> !IsDigit(tail[k]) && tail[k] != ':'
    ensures InsertColon(hh + (if sep then ":" else "") + mm + tail) ==
              (if !sep && |hh| == 1 then "0" + hh else hh) + ":" + mm + tail
  {
    if sep {
      var ts := hh + ":" + mm + tail;
      assert ts[|hh|] == ':';
      InsertColonKeeps(ts, |hh|);
    } else {
      assert hh + "" + mm + tail == hh + mm + tail;
      InsertColonBare(hh, mm, tail);
    }
  }

  /** Without a separator the digits are counted: three get a leading
      zero, and the `:` goes after the first two characters. */
  lemma InsertColonBare(hh: string, mm: string, tail: string)
    requires DigitField(hh) && |mm| == 2 && DigitField(mm)
    requires forall k :: 0 <= k < |tail| ==> !IsDigit(tail[k]) && tail[k] != ':'
    ensures InsertColon(hh + mm + tail) == (if |hh| == 1 then "0" + hh else hh) + ":" + mm + tail
  {
    var ts := hh + mm + tail;
    BareHasNoColon(hh, mm, tail);
    BareDigits(hh, mm, tail);
    if |hh| == 1 {
      var padded := "0" + ts;
      assert Take(padded, 2) == "0" + hh;
      assert Drop(padded, 2) == mm + tail;
    } else {
      assert Take(ts, 2) == hh;
      assert Drop(ts, 2) == mm + tail;
    }
  }

  lemma BareHasNoColon(hh: string, mm: string, tail: string)
    requires DigitField(hh) && |mm| == 2 && DigitField(mm)
    requires forall k :: 0 <= k < |tail| ==> tail[k] != ':'
    ensures Find(hh + mm + tail, ":") == -1
  {
    var ts := hh + mm + tail;
    forall k | 0 <= k < |ts|
      ensures ts[k] != ':'
    {
      if k >= |hh| + 2 {
        assert ts[k] == tail[k - |hh| - 2];
      }
    }
    FindCharAbsent(ts, ':');
  }

  lemma BareDigits(hh: string, mm: string, tail: string)
    requires DigitField(hh) && |mm| == 2 && DigitField(mm)
    requires forall k :: 0 <= k < |tail| ==> !IsDigit(tail[k])
    ensures CountDigits(hh + mm + tail) == |hh| + 2
  {
    CountDigitsAppend(hh, mm);
    CountDigitsAppend(hh + mm, tail);
    CountDigitsSpec(hh);
    CountDigitsSpec(mm);
    CountDigitsSpec(tail);
  }

  /** A normalised clock that still holds a `:` is left as it is. */
  lemma InsertColonKeeps(ts: string, k: nat)
    requires k < |ts| && ts[k] == ':'
    ensures InsertColon(ts) == ts
  {
    FindCharAbsent(ts, ':');
  }

  /** Only an hour field `12` or `11` at the very front is rewritten. */
  lemma ShiftHourSpec(ts: string)
    ensures Take(ts, 2) == "12" ==> ShiftHour(ts) == "00" + ts[2..]
    ensures Take(ts, 2) == "11" ==> ShiftHour(ts) == "23" + ts[2..]
    ensures Take(ts, 2) != "12" && Take(ts, 2) != "11" ==> ShiftHour(ts) == ts
  {
    if Take(ts, 2) == "12" {
      ReplaceFirstAtStart(ts, "12", "00");
    } else if Take(ts, 2) == "11" {
      ReplaceFirstAtStart(ts, "11", "23");
    }
  }

  // ---------------------------------------------------------------------
  // What strptime makes of a normalised clock.

  /** Hour, `:`, minute and am/pm: read under the `%p` rule. */
  lemma ReadTwelveHourFields(t: string, hh: string, mm: string, c: char)
    requires Hour12Field(hh) && MinuteField(mm)
    requires Normalise(t) == hh + ":" + mm + MeridiemText(c)
    ensures ReadClock(t) == Parsed(ApplyAmPm(Decimal(hh), IsPm(c)) * 60 + Decimal(mm))
  {
    assert Last(hh + ":" + mm + MeridiemText(c), 2) == MeridiemText(c);
    Strptime12Reads(hh, mm, IsPm(c));
  }

  /** With seconds, the twelve-hour format leaves text unconsumed. */
  lemma ReadTwelveHourSeconds(t: string, hh: string, sep: bool, mm: string, ss: string, lm: string)
    requires DigitField(hh) && MinuteField(mm) && MinuteField(ss) && (lm == "am" || lm == "pm")
    requires Normalise(t) == hh + (if sep then ":" else "") + mm + ":" + ss + lm
    ensures ReadClock(t) == StrptimeError
  {
    var ts := Normalise(t);
    assert Last(ts, 2) == lm;
    if sep {
      StrptimeRejectsSeconds(hh, mm, ss, lm);
    } else {
      StrptimeNeedsEarlyColon(ts);
    }
  }

  /** The hour as the substitution leaves it: `12` becomes `00` and `11`
      becomes `23`. */
  function NightText(hh: string): string
  {
    if hh == "12" then "00" else if hh == "11" then "23" else hh
  }

  /** The substituted hour text denotes the hour moved to the night. */
  lemma NightTextValue(hh: string)
    requires Hour24Field(hh)
    ensures Hour24Field(NightText(hh)) && Decimal(NightText(hh)) == NightShift(Decimal(hh))
  {
  }

  /** The hour substitution on a normalised clock without am/pm. */
  lemma ShiftHourField(hh: string, mm: string)
    requires Hour24Field(hh) && MinuteField(mm)
    ensures ShiftHour(hh + ":" + mm) == NightText(hh) + ":" + mm
  {
    var ts := hh + ":" + mm;
    ShiftHourSpec(ts);
    if |hh| == 2 {
      assert Take(ts, 2) == hh;
      assert ts[2..] == ":" + mm;
    } else {
      assert Take(ts, 2)[1] == ':';
    }
  }

  /** Hour, `:` and minute without am/pm: the hour is moved to the night
      when it is written `12` or `11`. */
  lemma ReadWithoutMeridiemFields(hh: string, mm: string)
    requires Hour24Field(hh) && MinuteField(mm)
    ensures ReadWithoutMeridiem(hh + ":" + mm) == Parsed(NightShift(Decimal(hh)) * 60 + Decimal(mm))
  {
    ShiftHourField(hh, mm);
    NightTextValue(hh);
    assert Last(NightText(hh) + ":" + mm, 2)[1] == mm[1];
    Strptime24Reads(NightText(hh), mm);
  }

  lemma ReadTwentyFourHourFields(t: string, hh: string, mm: string)
    requires Hour24Field(hh) && MinuteField(mm)
    requires Normalise(t) == hh + ":" + mm
    ensures ReadClock(t) == Parsed(NightShift(Decimal(hh)) * 60 + Decimal(mm))
  {
    assert Last(hh + ":" + mm, 2)[1] == mm[1];
    ReadWithoutMeridiemFields(hh, mm);
  }

  /** The hour substitution rewrites at most the first two characters, and
      leaves digits there digits. */
  lemma ShiftHourShape(ts: string)
    requires |ts| >= 3
    ensures |ShiftHour(ts)| == |ts| && ShiftHour(ts)[2..] == ts[2..]
    ensures IsDigit(ts[0]) && IsDigit(ts[1]) ==> IsDigit(ShiftHour(ts)[0]) && IsDigit(ShiftHour(ts)[1])
    ensures !IsDigit(ts[1]) ==> ShiftHour(ts) == ts
  {
    ShiftHourSpec(ts);
    if Take(ts, 2) == "12" || Take(ts, 2) == "11" {
      assert ts[1] == Take(ts, 2)[1];
    }
  }

  /** Seconds after a two-digit hour and a `:`: `%H:%M` leaves them over. */
  lemma SecondsAfterTwoDigitHour(shifted: string, mm: string, ss: string)
    requires |shifted| == 8 && IsDigit(shifted[0]) && IsDigit(shifted[1])
    requires MinuteField(mm) && MinuteField(ss) && shifted[2..] == ":" + mm + ":" + ss
    ensures Strptime24(shifted).None?
  {
    assert shifted == shifted[..2] + ":" + mm + ":" + ss;
    StrptimeRejectsSeconds(shifted[..2], mm, ss, "");
  }

  /** With seconds, the twenty-four-hour format leaves text unconsumed,
      whatever the hour shift did to the front. */
  lemma ReadWithoutMeridiemSeconds(hh: string, sep: bool, mm: string, ss: string)
    requires DigitField(hh) && MinuteField(mm) && MinuteField(ss)
    ensures ReadWithoutMeridiem(hh + (if sep then ":" else "") + mm + ":" + ss) == StrptimeError
  {
    SecondsNotDistance(hh, sep, mm, ss);
    SecondsRejected(hh, sep, mm, ss);
  }

  /** A clock with seconds ends in a digit, so the `km` guard lets it pass. */
  lemma SecondsNotDistance(hh: string, sep: bool, mm: string, ss: string)
    requires DigitField(hh) && MinuteField(mm) && MinuteField(ss)
    ensures !IsDistance(ShiftHour(hh + (if sep then ":" else "") + mm + ":" + ss))
  {
    var ts := hh + (if sep then ":" else "") + mm + ":" + ss;
    ShiftHourShape(ts);
    assert ShiftHour(ts)[|ts| - 1] == ts[|ts| - 1] == ss[1];
  }

  /** `%H:%M` rejects a clock with seconds, whatever the hour shift did. */
  lemma SecondsRejected(hh: string, sep: bool, mm: string, ss: string)
    requires DigitField(hh) && MinuteField(mm) && MinuteField(ss)
    ensures Strptime24(ShiftHour(hh + (if sep then ":" else "") + mm + ":" + ss)).None?
  {
    var ts := hh + (if sep then ":" else "") + mm + ":" + ss;
    var shifted := ShiftHour(ts);
    ShiftHourShape(ts);
    if sep && |hh| == 2 {
      assert ts[2..] == ":" + mm + ":" + ss;
      SecondsAfterTwoDigitHour(shifted, mm, ss);
    } else if sep {
      assert ts == hh + ":" + mm + ":" + ss && ts[1] == ':';
      StrptimeRejectsSeconds(hh, mm, ss, "");
    } else {
      assert IsDigit(ts[1]) && IsDigit(ts[2]) && shifted[2] == ts[2];
      StrptimeNeedsEarlyColon(shifted);
    }
  }

  lemma ReadTwentyFourHourSeconds(t: string, hh: string, sep: bool, mm: string, ss: string)
    requires DigitField(hh) && MinuteField(mm) && MinuteField(ss)
    requires Normalise(t) == hh + (if sep then ":" else "") + mm + ":" + ss
    ensures ReadClock(t) == StrptimeError
  {
    assert Last(Normalise(t), 2)[1] == ss[1];
    ReadWithoutMeridiemSeconds(hh, sep, mm, ss);
  }

  // ---------------------------------------------------------------------
  // What the normaliser makes of a matched clock.

  /** The hour as the normaliser leaves it: a one-digit hour written
      without a separator gains a leading zero. */
  function HourText(hh: string, separated: bool): string
  {
    if !separated && |hh| == 1 then "0" + hh else hh
  }

  function MeridiemText(c: char): string
  {
    if IsPm(c) then "pm" else "am"
  }

  /** Padding keeps a `%I` hour an `%I` hour of the same value. */
  lemma HourText12(hh: string, separated: bool)
    requires Hour12Field(hh)
    ensures Hour12Field(HourText(hh, separated)) && Decimal(HourText(hh, separated)) == Decimal(hh)
    ensures 1 <= Decimal(hh) <= 12
  {
  }

  /** Padding keeps a `%H` hour an `%H` hour of the same value. */
  lemma HourText24(hh: string, separated: bool)
    requires Hour24Field(hh)
    ensures Hour24Field(HourText(hh, separated)) && Decimal(HourText(hh, separated)) == Decimal(hh)
  {
  }

  /** A normalised twelve-hour clock reads under the twelve-hour convention. */
  lemma ReadTwelveHourClock(t: string, hh: string, separated: bool, mm: string, c: char)
    requires Hour12Field(hh) && MinuteField(mm)
    requires Normalise(t) == HourText(hh, separated) + ":" + mm + MeridiemText(c)
    ensures ReadClock(t) == Parsed(Clock12To24(Decimal(hh), IsPm(c)) * 60 + Decimal(mm))
  {
    var ht := HourText(hh, separated);
    assert Hour12Field(ht) && Decimal(ht) == Decimal(hh) && 1 <= Decimal(hh) <= 12 by {
      HourText12(hh, separated);
    }
    assert ReadClock(t) == Parsed(ApplyAmPm(Decimal(ht), IsPm(c)) * 60 + Decimal(mm)) by {
      ReadTwelveHourFields(t, ht, mm, c);
    }
    ApplyAmPmIsClock12(Decimal(ht), IsPm(c));
  }

  /** A normalised twenty-four-hour clock reads with 12 and 11 moved to the night. */
  lemma ReadTwentyFourHourClock(t: string, hh: string, separated: bool, mm: string)
    requires Hour24Field(hh) && MinuteField(mm)
    requires Normalise(t) == HourText(hh, separated) + ":" + mm
    ensures ReadClock(t) == Parsed(NightShift(Decimal(hh)) * 60 + Decimal(mm))
  {
    HourText24(hh, separated);
    ReadTwentyFourHourFields(t, HourText(hh, separated), mm);
  }

  /** A twelve-hour match, lower-cased and stripped of its space, with
      both separators as `:`. */
  lemma CanonicalTwelveHour(s: string, i: nat, j: nat, h: nat, sep: nat, sec: nat, sp: nat)
    requires TwelveHourParts(s, i, j, h, sep, sec, sp)
    ensures Canonical(s[i..j]) ==
              s[i..i + h] + (if sep == 1 then ":" else "") + s[i + h + sep..i + h + sep + 2]
              + (if sec == 3 then ":" + s[i + h + sep + 3..i + h + sep + 5] else "")
              + MeridiemText(s[j - 2])
  {
    var e := i + h + sep + 2 + sec;
    var gap := s[e..j - 2];
    var mer := s[j - 2..j];
    SliceSplit3(s, i, e, j - 2, j);
    CanonicalAppend(s[i..e] + gap, mer);
    CanonicalAppend(s[i..e], gap);
    CanonicalClockField(s, i, h, sep, sec);
    CanonicalGap(gap);
    assert mer[0] == s[j - 2] && mer[1] == s[j - 1];
    CanonicalMeridiem(mer);
  }

  /** The optional space before am/pm disappears. */
  lemma CanonicalGap(gap: string)
    requires gap == [] || gap == " "
    ensures Canonical(gap) == []
  {
    if gap == " " {
      assert LowerStr(gap) == " ";
      assert " "[1..] == [];
      assert ReplaceAll(" ", ' ', "") == [];
    } else {
      assert LowerStr(gap) == [];
    }
  }

  /** am/pm in any case normalises to its lower-case spelling. */
  lemma CanonicalMeridiem(mer: string)
    requires |mer| == 2 && IsMeridiemLetter(mer[0]) && (mer[1] == 'm' || mer[1] == 'M')
    ensures Canonical(mer) == MeridiemText(mer[0])
  {
    CanonicalInPlace(mer);
    assert |Canonical(mer)| == 2;
  }

  /** A twelve-hour match without seconds normalises to `hh:mm` and its
      lower-case meridiem, padded when it had no separator. */
  lemma NormaliseTwelveHour(s: string, i: nat, j: nat, h: nat, sep: nat, sp: nat)
    requires TwelveHourParts(s, i, j, h, sep, 0, sp)
    ensures Normalise(s[i..j]) ==
              HourText(s[i..i + h], sep == 1) + ":" + s[i + h + sep..i + h + sep + 2] + MeridiemText(s[j - 2])
  {
    var hh := s[i..i + h];
    var mm := s[i + h + sep..i + h + sep + 2];
    var lm := MeridiemText(s[j - 2]);
    assert Canonical(s[i..j]) == hh + (if sep == 1 then ":" else "") + mm + lm by {
      CanonicalTwelveHour(s, i, j, h, sep, 0, sp);
    }
    assert forall k :: 0 <= k < |lm| ==> !IsDigit(lm[k]) && lm[k] != ':';
    InsertColonField(hh, sep == 1, mm, lm);
  }

  /** A twenty-four-hour match without seconds normalises to `hh:mm`,
      padded when it had no separator. */
  lemma NormaliseTwentyFourHour(s: string, i: nat, j: nat, h: nat, sep: nat)
    requires TwentyFourHourParts(s, i, j, h, sep, 0)
    ensures Normalise(s[i..j]) == HourText(s[i..i + h], sep == 1) + ":" + s[i + h + sep..i + h + sep + 2]
  {
    var hh := s[i..i + h];
    var mm := s[i + h + sep..i + h + sep + 2];
    assert Canonical(s[i..j]) == hh + (if sep == 1 then ":" else "") + mm + "" by {
      assert 1 <= h <= 2 && forall k :: i <= k < i + h ==> IsDigit(s[k]);
      CanonicalClockField(s, i, h, sep, 0);
    }
    assert DigitField(hh) && |mm| == 2 && DigitField(mm);
    InsertColonField(hh, sep == 1, mm, "");
  }

  /** A seconds field keeps its `:`, so nothing is inserted. */
  lemma NormaliseTwelveHourSeconds(s: string, i: nat, j: nat, h: nat, sep: nat, sp: nat)
    requires TwelveHourParts(s, i, j, h, sep, 3, sp)
    ensures Normalise(s[i..j]) ==
              s[i..i + h] + (if sep == 1 then ":" else "") + s[i + h + sep..i + h + sep + 2]
              + ":" + s[i + h + sep + 3..i + h + sep + 5] + MeridiemText(s[j - 2])
  {
    CanonicalTwelveHour(s, i, j, h, sep, 3, sp);
    InsertColonKeeps(Canonical(s[i..j]), h + sep + 2);
  }

  lemma NormaliseTwentyFourHourSeconds(s: string, i: nat, j: nat, h: nat, sep: nat)
    requires TwentyFourHourParts(s, i, j, h, sep, 3)
    ensures Normalise(s[i..j]) ==
              s[i..i + h] + (if sep == 1 then ":" else "") + s[i + h + sep..i + h + sep + 2]
              + ":" + s[i + h + sep + 3..i + h + sep + 5]
  {
    CanonicalClockField(s, i, h, sep, 3);
    InsertColonKeeps(Canonical(s[i..j]), h + sep + 2);
  }

  /** The digits of a twelve-hour match without separators are those of
      its hour and its minute. */
  lemma TwelveHourDigits(s: string, i: nat, j: nat, h: nat, sp: nat)
    requires TwelveHourParts(s, i, j, h, 0, 0, sp)
    ensures CountDigits(s[i..j]) == h + 2
  {
    var hh := s[i..i + h];
    var mm := s[i + h..i + h + 2];
    var rest := s[i + h + 2..j];
    assert s[i..j] == hh + mm + rest;
    CountDigitsAppend(hh, mm);
    CountDigitsAppend(hh + mm, rest);
    assert forall k :: 0 <= k < |rest| ==> !IsDigit(rest[k]);
    CountDigitsSpec(hh);
    CountDigitsSpec(mm);
    CountDigitsSpec(rest);
  }

  /** A twelve-hour match without any separator holds three or four
      digits; with three, a `0` goes in front, and the `:` goes after the
      first two digits. */
  lemma SeparatorFreeTwelveHour(s: string, i: nat, j: nat, h: nat, sep: nat, sec: nat, sp: nat)
    requires TwelveHourParts(s, i, j, h, sep, sec, sp)
    requires forall k :: i <= k < j ==> !IsSep(s[k])
    ensures sep == 0 && sec == 0
    ensures 3 <= CountDigits(s[i..j]) <= 4
    ensures Normalise(s[i..j]) ==
              (if CountDigits(s[i..j]) == 3 then "0" + s[i..i + h] else s[i..i + h]) + ":" + s[i + h..i + h + 2]
              + MeridiemText(s[j - 2])
  {
    assert sep == 0 && sec == 0 by {
      assert !IsSep(s[i + h]) && !IsSep(s[i + h + sep + 2]);
    }
    TwelveHourDigits(s, i, j, h, sp);
    NormaliseTwelveHour(s, i, j, h, 0, sp);
  }

  /** The same for a twenty-four-hour match. */
  lemma SeparatorFreeTwentyFourHour(s: string, i: nat, j: nat, h: nat, sep: nat, sec: nat)
    requires TwentyFourHourParts(s, i, j, h, sep, sec)
    requires forall k :: i <= k < j ==> !IsSep(s[k])
    ensures sep == 0 && sec == 0
    ensures 3 <= CountDigits(s[i..j]) <= 4
    ensures Normalise(s[i..j]) == (if CountDigits(s[i..j]) == 3 then "0" + s[i..i + h] else s[i..i + h]) + ":" + s[i + h..j]
  {
    assert sep == 0 && sec == 0;
    TwentyFourHourDigits(s, i, j, h);
    NormaliseTwentyFourHour(s, i, j, h, 0);
  }

  /** A twenty-four-hour match without separators is all digits. */
  lemma TwentyFourHourDigits(s: string, i: nat, j: nat, h: nat)
    requires TwentyFourHourParts(s, i, j, h, 0, 0)
    ensures CountDigits(s[i..j]) == h + 2
  {
    assert forall k :: 0 <= k < j - i ==> IsDigit(s[i..j][k]);
    CountDigitsSpec(s[i..j]);
  }

  // ---------------------------------------------------------------------
  // What the whole of `ReadClock` makes of a matched clock.

  /** The hours the twelve-hour alternative admits are 1 to 12, written as
      `%I` accepts them. */
  lemma Hour12Value(s: string, i: nat, h: nat)
    requires Hour12At(s, i, h)
    ensures 1 <= h <= 2 && Hour12Field(s[i..i + h]) && 1 <= Decimal(s[i..i + h]) <= 12
  {
  }

  /** The hours the twenty-four-hour alternative admits are 0 to 23, written
      as `%H` accepts them. */
  lemma Hour24Value(s: string, i: nat, h: nat)
    requires Hour24At(s, i, h)
    ensures 1 <= h <= 2 && Hour24Field(s[i..i + h]) && Decimal(s[i..i + h]) < 24
  {
  }

  /** A minute the pattern admits is 00 to 59, written as `%M` accepts it. */
  lemma MinuteValue(s: string, p: nat)
    requires MinuteAt(s, p)
    ensures MinuteField(s[p..p + 2]) && Decimal(s[p..p + 2]) < 60
  {
  }

  lemma TwelveHourReadingPlain(s: string, i: nat, j: nat, h: nat, sep: nat, sp: nat)
    requires TwelveHourParts(s, i, j, h, sep, 0, sp)
    ensures Hour12Field(s[i..i + h]) && MinuteField(s[i + h + sep..i + h + sep + 2])
    ensures ReadClock(s[i..j]) ==
              Parsed(Clock12To24(Decimal(s[i..i + h]), IsPm(s[j - 2])) * 60 + Decimal(s[i + h + sep..i + h + sep + 2]))
  {
    var hh := s[i..i + h];
    var mm := s[i + h + sep..i + h + sep + 2];
    assert Hour12Field(hh) && MinuteField(mm) by {
      Hour12Value(s, i, h);
      MinuteValue(s, i + h + sep);
    }
    assert Normalise(s[i..j]) == HourText(hh, sep == 1) + ":" + mm + MeridiemText(s[j - 2]) by {
      NormaliseTwelveHour(s, i, j, h, sep, sp);
    }
    ReadTwelveHourClock(s[i..j], hh, sep == 1, mm, s[j - 2]);
  }

  lemma TwelveHourReadingSeconds(s: string, i: nat, j: nat, h: nat, sep: nat, sp: nat)
    requires TwelveHourParts(s, i, j, h, sep, 3, sp)
    ensures ReadClock(s[i..j]) == StrptimeError
  {
    Hour12Value(s, i, h);
    MinuteValue(s, i + h + sep);
    MinuteValue(s, i + h + sep + 3);
    NormaliseTwelveHourSeconds(s, i, j, h, sep, sp);
    ReadTwelveHourSeconds(s[i..j], s[i..i + h], sep == 1, s[i + h + sep..i + h + sep + 2],
                          s[i + h + sep + 3..i + h + sep + 5], MeridiemText(s[j - 2]));
  }

  /** Unfolds `TwelveHourClock` and records that its fields are a `%I` hour
      and a `%M` minute. */
  lemma UnfoldTwelveHourClock(s: string, i: nat, j: nat, h: nat, sep: nat, sec: nat, sp: nat)
    requires TwelveHourParts(s, i, j, h, sep, sec, sp)
    ensures Hour12Field(s[i..i + h]) && MinuteField(s[i + h + sep..i + h + sep + 2])
    ensures TwelveHourClock(s, i, j, h, sep, sec, sp) ==
              Clock12To24(Decimal(s[i..i + h]), IsPm(s[j - 2])) * 60 + Decimal(s[i + h + sep..i + h + sep + 2])
  {
  }

  /** A twelve-hour match reads as the clock time it denotes, unless it
      carries seconds, which strptime rejects. */
  lemma TwelveHourReading(s: string, i: nat, j: nat, h: nat, sep: nat, sec: nat, sp: nat)
    requires TwelveHourParts(s, i, j, h, sep, sec, sp)
    ensures ReadClock(s[i..j]) == if sec == 3 then StrptimeError else Parsed(TwelveHourClock(s, i, j, h, sep, sec, sp))
  {
    if sec == 0 {
      TwelveHourReadingPlain(s, i, j, h, sep, sp);
      UnfoldTwelveHourClock(s, i, j, h, sep, sec, sp);
    } else {
      TwelveHourReadingSeconds(s, i, j, h, sep, sp);
    }
  }

  lemma TwentyFourHourReadingPlain(s: string, i: nat, j: nat, h: nat, sep: nat)
    requires TwentyFourHourParts(s, i, j, h, sep, 0)
    ensures Hour24Field(s[i..i + h]) && MinuteField(s[i + h + sep..i + h + sep + 2])
    ensures ReadClock(s[i..j]) == Parsed(NightShift(Decimal(s[i..i + h])) * 60 + Decimal(s[i + h + sep..i + h + sep + 2]))
  {
    var hh := s[i..i + h];
    var mm := s[i + h + sep..i + h + sep + 2];
    assert Hour24Field(hh) && MinuteField(mm) by {
      Hour24Value(s, i, h);
      MinuteValue(s, i + h + sep);
    }
    assert Normalise(s[i..j]) == HourText(hh, sep == 1) + ":" + mm by {
      NormaliseTwentyFourHour(s, i, j, h, sep);
    }
    ReadTwentyFourHourClock(s[i..j], hh, sep == 1, mm);
  }

  lemma TwentyFourHourReadingSeconds(s: string, i: nat, j: nat, h: nat, sep: nat)
    requires TwentyFourHourParts(s, i, j, h, sep, 3)
    ensures ReadClock(s[i..j]) == StrptimeError
  {
    Hour24Value(s, i, h);
    MinuteValue(s, i + h + sep);
    MinuteValue(s, i + h + sep + 3);
    NormaliseTwentyFourHourSeconds(s, i, j, h, sep);
    ReadTwentyFourHourSeconds(s[i..j], s[i..i + h], sep == 1, s[i + h + sep..i + h + sep + 2],
                              s[i + h + sep + 3..i + h + sep + 5]);
  }

  /** Unfolds `TwentyFourHourClock` and records that its fields are a `%H`
      hour and a `%M` minute. */
  lemma UnfoldTwentyFourHourClock(s: string, i: nat, j: nat, h: nat, sep: nat, sec: nat)
    requires TwentyFourHourParts(s, i, j, h, sep, sec)
    ensures Hour24Field(s[i..i + h]) && MinuteField(s[i + h + sep..i + h + sep + 2])
    ensures TwentyFourHourClock(s, i, j, h, sep, sec) ==
              NightShift(Decimal(s[i..i + h])) * 60 + Decimal(s[i + h + sep..i + h + sep + 2])
  {
  }

  /** A twenty-four-hour match reads as the clock time it denotes, unless
      it carries seconds. */
  lemma TwentyFourHourReading(s: string, i: nat, j: nat, h: nat, sep: nat, sec: nat)
    requires TwentyFourHourParts(s, i, j, h, sep, sec)
    ensures ReadClock(s[i..j]) == if sec == 3 then StrptimeError else Parsed(TwentyFourHourClock(s, i, j, h, sep, sec))
  {
    if sec == 0 {
      TwentyFourHourReadingPlain(s, i, j, h, sep);
      UnfoldTwentyFourHourClock(s, i, j, h, sep, sec);
    } else {
      TwentyFourHourReadingSeconds(s, i, j, h, sep);
    }
  }

  /** The hour of the day a twelve-hour match denotes, and its minute. */
  lemma TwelveHourClockFields(s: string, i: nat, j: nat, h: nat, sep: nat, sec: nat, sp: nat)
    requires TwelveHourParts(s, i, j, h, sep, sec, sp)
    ensures TwelveHourClock(s, i, j, h, sep, sec, sp) / 60 == Clock12To24(Decimal(s[i..i + h]), IsPm(s[j - 2]))
    ensures TwelveHourClock(s, i, j, h, sep, sec, sp) % 60 == Decimal(s[i + h + sep..i + h + sep + 2])
    ensures (TwelveHourClock(s, i, j, h, sep, sec, sp) / 60 >= 12) == IsPm(s[j - 2])
  {
    MinuteValue(s, i + h + sep);
    HourOfDay(Clock12To24(Decimal(s[i..i + h]), IsPm(s[j - 2])), Decimal(s[i + h + sep..i + h + sep + 2]));
  }

  /** The hour of the day a twenty-four-hour match denotes is never 11 or
      12, and its minute is the one written. */
  lemma TwentyFourHourClockFields(s: string, i: nat, j: nat, h: nat, sep: nat, sec: nat)
    requires TwentyFourHourParts(s, i, j, h, sep, sec)
    ensures TwentyFourHourClock(s, i, j, h, sep, sec) / 60 == NightShift(Decimal(s[i..i + h]))
    ensures TwentyFourHourClock(s, i, j, h, sep, sec) % 60 == Decimal(s[i + h + sep..i + h + sep + 2])
    ensures TwentyFourHourClock(s, i, j, h, sep, sec) / 60 != 11 && TwentyFourHourClock(s, i, j, h, sep, sec) / 60 != 12
  {
    MinuteValue(s, i + h + sep);
    HourOfDay(NightShift(Decimal(s[i..i + h])), Decimal(s[i + h + sep..i + h + sep + 2]));
  }

  lemma HourOfDay(hour: nat, minute: nat)
    requires minute < 60
    ensures (hour * 60 + minute) / 60 == hour && (hour * 60 + minute) % 60 == minute
  {
  }

  // ---------------------------------------------------------------------
  // The zone offset.

  /** No zone token occurs anywhere in the text. */
  ghost predicate NoZone(text: string)
  {
    forall k: nat, w :: !ZoneOccursAt(text, k, w)
  }

  /** w is the zone token that occurs first in the text. */
  ghost predicate FirstZone(text: string, w: string)
  {
    exists k: nat :: ZoneOccursAt(text, k, w) && forall k': nat, w' :: k' < k ==> !ZoneOccursAt(text, k', w')
  }

  /** r is the clock time c brought to the target zone: unchanged when the
      text names no zone, otherwise moved by the table's offset for the
      first zone it names, modulo a day. */
  ghost predicate ZoneAdjusted(text: string, c: nat, r: nat)
  {
    && (NoZone(text) ==> r == c)
    && (forall w :: FirstZone(text, w) ==> w in OffsetTable && r == (c + OffsetTable[w]) % MinutesPerDay)
  }

  lemma ApplyZoneSpec(text: string, c: nat)
    requires c < MinutesPerDay
    ensures ZoneAdjusted(text, c, ApplyZone(text, c))
  {
    ZoneSearchSpec(text);
    forall w | FirstZone(text, w)
      ensures w in OffsetTable && ApplyZone(text, c) == (c + OffsetTable[w]) % MinutesPerDay
    {
      var k: nat :| ZoneOccursAt(text, k, w) && forall k': nat, w' :: k' < k ==> !ZoneOccursAt(text, k', w');
      var z := ZoneSearch(text).value;
      assert z.start == k;
      ZoneTokenUnique(text, k, w, z.token);
      OffsetMatchesTable(w);
    }
  }

  // ---------------------------------------------------------------------
  // parse_for_fratl, end to end.

  /** parse_for_fratl in terms of the match `re.search` returns: its
      reading, brought to the target zone when it is a clock time. */
  lemma ParseOfMatch(text: string, m: Match)
    requires Search(text) == Some(m)
    ensures ReadClock(text[m.start..m.end]).Parsed? ==>
              ParseForFratl(text) == Parsed(ApplyZone(text, ReadClock(text[m.start..m.end]).minutes))
    ensures !ReadClock(text[m.start..m.end]).Parsed? ==> ParseForFratl(text) == ReadClock(text[m.start..m.end])
  {
  }

  /** The same for a match known to read as the clock time c. */
  lemma ParseOfClock(text: string, m: Match, c: nat)
    requires Search(text) == Some(m) && ReadClock(text[m.start..m.end]) == Parsed(c)
    ensures ParseForFratl(text) == Parsed(ApplyZone(text, c))
  {
    ParseOfMatch(text, m);
  }

  /** The same as ParseTwelveHour, from the match `re.search` returns. */
  lemma ParseTwelveHourFound(text: string, i: nat, j: nat, h: nat, sep: nat, sec: nat, sp: nat)
    requires Search(text) == Some(Match(i, j, TwelveHour))
    requires TwelveHourParts(text, i, j, h, sep, sec, sp)
    ensures sec == 3 ==> ParseForFratl(text) == StrptimeError
    ensures sec == 0 ==> ParseForFratl(text) == Parsed(ApplyZone(text, TwelveHourClock(text, i, j, h, sep, sec, sp)))
  {
    TwelveHourReading(text, i, j, h, sep, sec, sp);
    if sec == 3 {
      ParseOfMatch(text, Match(i, j, TwelveHour));
    } else {
      ParseOfClock(text, Match(i, j, TwelveHour), TwelveHourClock(text, i, j, h, sep, sec, sp));
    }
  }

  /** When the first time in the text is a twelve-hour clock, the result is
      that clock under the twelve-hour convention, moved by the first zone;
      a seconds field raises instead. */
  lemma ParseTwelveHour(text: string, i: nat, j: nat, h: nat, sep: nat, sec: nat, sp: nat)
    requires IsLeftmostFirst(text, 0, Match(i, j, TwelveHour))
    requires TwelveHourParts(text, i, j, h, sep, sec, sp)
    ensures sec == 3 ==> ParseForFratl(text) == StrptimeError
    ensures sec == 0 ==> ParseForFratl(text) == Parsed(ApplyZone(text, TwelveHourClock(text, i, j, h, sep, sec, sp)))
  {
    assert Search(text) == Some(Match(i, j, TwelveHour)) by {
      SearchCharacterised(text, Match(i, j, TwelveHour));
    }
    ParseTwelveHourFound(text, i, j, h, sep, sec, sp);
  }

  /** The same as ParseTwentyFourHour, from the match `re.search` returns. */
  lemma ParseTwentyFourHourFound(text: string, i: nat, j: nat, h: nat, sep: nat, sec: nat)
    requires Search(text) == Some(Match(i, j, TwentyFourHour))
    requires TwentyFourHourParts(text, i, j, h, sep, sec)
    ensures sec == 3 ==> ParseForFratl(text) == StrptimeError
    ensures sec == 0 ==> ParseForFratl(text) == Parsed(ApplyZone(text, TwentyFourHourClock(text, i, j, h, sep, sec)))
  {
    TwentyFourHourReading(text, i, j, h, sep, sec);
    if sec == 3 {
      ParseOfMatch(text, Match(i, j, TwentyFourHour));
    } else {
      ParseOfClock(text, Match(i, j, TwentyFourHour), TwentyFourHourClock(text, i, j, h, sep, sec));
    }
  }

  /** When the first time in the text is a twenty-four-hour clock, the
      result is that clock with 12 and 11 moved to the night, moved by the
      first zone; a seconds field raises instead. */
  lemma ParseTwentyFourHour(text: string, i: nat, j: nat, h: nat, sep: nat, sec: nat)
    requires IsLeftmostFirst(text, 0, Match(i, j, TwentyFourHour))
    requires TwentyFourHourParts(text, i, j, h, sep, sec)
    ensures sec == 3 ==> ParseForFratl(text) == StrptimeError
    ensures sec == 0 ==> ParseForFratl(text) == Parsed(ApplyZone(text, TwentyFourHourClock(text, i, j, h, sep, sec)))
  {
    assert Search(text) == Some(Match(i, j, TwentyFourHour)) by {
      SearchCharacterised(text, Match(i, j, TwentyFourHour));
    }
    ParseTwentyFourHourFound(text, i, j, h, sep, sec);
  }

  /** The match carries a seconds field. */
  ghost predicate CarriesSeconds(s: string, m: Match)
  {
    if m.clock == TwelveHour then exists h: nat, sep: nat, sp: nat :: TwelveHourParts(s, m.start, m.end, h, sep, 3, sp)
    else exists h: nat, sep: nat :: TwentyFourHourParts(s, m.start, m.end, h, sep, 3)
  }

  /** A found time is never dropped: the `km` guard cannot fire, because
      the branch it guards only ever sees digits and `:`. */
  lemma FoundTimeIsRead(s: string, m: Match)
    requires IsLeftmostFirst(s, 0, m)
    ensures ReadClock(s[m.start..m.end]) != NoTime
    ensures ReadClock(s[m.start..m.end]) == StrptimeError <==> CarriesSeconds(s, m)
  {
    if m.clock == TwelveHour {
      var h: nat, sep: nat, sec: nat, sp: nat :| TwelveHourParts(s, m.start, m.end, h, sep, sec, sp);
      TwelveHourReading(s, m.start, m.end, h, sep, sec, sp);
      if CarriesSeconds(s, m) {
        var h': nat, sep': nat, sp': nat :| TwelveHourParts(s, m.start, m.end, h', sep', 3, sp');
        TwelveHourReading(s, m.start, m.end, h', sep', 3, sp');
      }
    } else {
      var h: nat, sep: nat, sec: nat :| TwentyFourHourParts(s, m.start, m.end, h, sep, sec);
      TwentyFourHourReading(s, m.start, m.end, h, sep, sec);
      if CarriesSeconds(s, m) {
        var h': nat, sep': nat :| TwentyFourHourParts(s, m.start, m.end, h', sep', 3);
        TwentyFourHourReading(s, m.start, m.end, h', sep', 3);
      }
    }
  }

  /** The three outcomes: no time exactly when nothing in the text matches
      the time pattern, an error exactly when the first match carries
      seconds, and a time of day otherwise. */
  lemma ParseOutcomes(text: string)
    ensures ParseForFratl(text) == NoTime <==> forall k :: !MatchStartsAt(text, k)
    ensures ParseForFratl(text) == StrptimeError <==> Search(text).Some? && CarriesSeconds(text, Search(text).value)
  {
    SearchSpec(text);
    if Search(text).Some? {
      FoundTimeIsRead(text, Search(text).value);
    }
  }

  /** Without am/pm the hour read is never 11 or 12: those are the hours
      the substitution moves away. */
  lemma WithoutMeridiemNeverElevenOrTwelve(s: string, i: nat, j: nat)
    requires TwentyFourHourSpan(s, i, j)
    requires ReadClock(s[i..j]).Parsed?
    ensures ReadClock(s[i..j]).minutes / 60 != 11 && ReadClock(s[i..j]).minutes / 60 != 12
  {
    var h: nat, sep: nat, sec: nat :| TwentyFourHourParts(s, i, j, h, sep, sec);
    TwentyFourHourReading(s, i, j, h, sep, sec);
    TwentyFourHourClockFields(s, i, j, h, sep, sec);
  }

  /** `%H:%M` printing yields a text whose first time is the whole of it,
      written as two-digit hour, `:`, two-digit minute. */
  lemma PrintedTimeMatch(t: TimeOfDay)
    requires Valid(t)
    ensures Search(Strftime(t)) == Some(Match(0, 5, TwentyFourHour))
    ensures TwentyFourHourParts(Strftime(t), 0, 5, 2, 1, 0)
    ensures TwentyFourHourClock(Strftime(t), 0, 5, 2, 1, 0) == NightShift(t.hour) * 60 + t.minute
  {
    var s := Strftime(t);
    assert s[0..2] == TwoDigits(t.hour) && s[3..5] == TwoDigits(t.minute);
    assert IsLeftmostFirst(s, 0, Match(0, 5, TwentyFourHour)) by {
      assert forall k :: 0 <= k < |s| ==> IsDigit(s[k]) || s[k] == ':';
      NoMeridiemNoTwelveHour(s);
      assert TwentyFourHourParts(s, 0, 5, 2, 1, 0);
      forall j: nat | TwentyFourHourSpan(s, 0, j)
        ensures j <= 5
      {
        SpanBounds(s, 0, j);
      }
    }
    SearchCharacterised(s, Match(0, 5, TwentyFourHour));
  }

  /** A printed time names no zone. */
  lemma PrintedTimeNoZone(t: TimeOfDay)
    requires Valid(t)
    ensures ZoneSearch(Strftime(t)) == None
  {
    var s := Strftime(t);
    assert forall k :: 0 <= k < |s| ==> IsDigit(s[k]) || s[k] == ':';
    NoLettersNoZone(s);
    ZoneSearchSpec(s);
  }

  /** A time printed with `%H:%M` and parsed again comes back, except that
      11 and 12 o'clock are moved to the night. */
  lemma PrintedTimeReadBack(t: TimeOfDay)
    requires Valid(t)
    ensures ParseForFratl(Strftime(t)) == Parsed(NightShift(t.hour) * 60 + t.minute)
    ensures ParseForFratl(Strftime(t)) == Parsed(t.hour * 60 + t.minute) <==> t.hour != 11 && t.hour != 12
  {
    var s := Strftime(t);
    PrintedTimeMatch(t);
    PrintedTimeNoZone(t);
    ParseTwentyFourHourFound(s, 0, 5, 2, 1, 0);
    HourOfDay(NightShift(t.hour), t.minute);
    HourOfDay(t.hour, t.minute);
  }
}
