# parse_for_fratl, modelled in Dafny

`parse_for_fratl` (fratl.py:98-135) reads a "first rider across the line"
guess out of an informal social-media post and returns it as a time of day
in Australian Eastern Standard Time. It works in three steps:

- **Search.** `re.search` finds the first time expression. The pattern has
  a twelve-hour alternative with am/pm, tried first, and a twenty-four-hour
  alternative.
- **Normalise and read.** The match is normalised: lower-cased, spaces
  removed, `.` turned into `:`, a missing `:` inserted and a three-digit
  time padded. It is then read with `strptime`:
  - with am/pm, as `%I:%M%p`;
  - otherwise, with hour 12 moved to 00 and hour 11 to 23, as `%H:%M`,
    unless it ends in `km`.
- **Shift by zone.** The first zone the post names (`aest`, `awst`,
  `acst`, `wa`, `#wa`, any case) shifts the result:
  - two hours for AWST and WA;
  - half an hour for ACST;
  - nothing for AEST.

The model has one module per concern:

- `Text`: the `str` operations the parser uses.
- `TimePattern`: the time pattern.
  - the language of each alternative, stated declaratively;
  - a matcher that follows the backtracking engine's order;
  - the proof that `re.search` returns exactly the leftmost-first match.
- `ZonePattern`: the zone pattern, its search and the offset table.
- `Strptime`: CPython's `%H:%M` and `%I:%M%p` parsing, and `%H:%M`
  printing.
- `Fratl`: the normaliser, the clock reading and the parser end to end.
  - The normaliser's effect is proved against two independent rules:
    - the twelve-hour convention (`Clock12To24`);
    - the night-shift rule for times without am/pm (`NightShift`).
- `Fixtures`: the self-test's sample posts (fratl.py:143-194) and a few
  small examples.
  - `PostN` is the sample on line N of fratl.py, cut down to an excerpt;
    the excerpt of post 157 joins the post's opening `100km` to its time.
  - Each sample post and each example that yields a time has lemmas for
    its match, its zone, its clock, its offset and its final result. The
    two examples with seconds (`ExampleSeconds`, `ExampleSecondsPm`) have
    one lemma each, stating that the parser raises.

Results are minutes after midnight. `NoTime` stands for the `None` the
parser returns. `StrptimeError` stands for the `ValueError` that escapes
from it.

Some consequences of the code that a reader might not expect:

- **Errors.** `strptime`'s `ValueError` is not caught. Every match with a
  seconds field raises (`ParseOutcomes`, `ExampleSecondsRaise`).
- **The `km` guard.** It can never fire on a matched time, because the
  branch it guards only ever sees digits and `:` (`FoundTimeIsRead`).
- **"1:58 am acst".** The sample expects 02:28, which is 01:58 plus ACST's
  half hour (`Post191Parsed`).
- **Three failing samples.** The samples on lines 157, 161 and 183 do not
  give the time the self-test expects. An earlier number in each post
  (`100`, `2020`, `2020`) matches first (`Post157Parsed`, `Post161Parsed`,
  `Post183Parsed`).

## Model

| member | source | states |
|---|---|---|
| TimePattern.Search | fratl.py:107 | `re.search(time_regexpr, text)`: any match it returns lies inside the text; `SearchCharacterised` states which match it is |
| ZonePattern.ZoneSearch | fratl.py:127 | `re.search(zone_regexpr, text, re.IGNORECASE)` with the group lower-cased; `ZoneSearchSpec` states which zone it finds |
| ZonePattern.OffsetMinutes | fratl.py:130-133 | the offset branches: awst, wa and #wa add 120 minutes, acst 30, anything else 0; `OffsetMatchesTable` relates them to the table |
| Strptime.Strptime24 | fratl.py:125 | `datetime.strptime(ts, "%H:%M")`: any time it yields is a valid time of day; `Strptime24Reads` and `StrptimeRejectsSeconds` state what it accepts |
| Strptime.Strptime12 | fratl.py:118 | `datetime.strptime(ts, "%I:%M%p")`: any time it yields is a valid time of day; `Strptime12Reads` and `StrptimeRejectsSeconds` state what it accepts |
| Strptime.Strftime | fratl.py:198 | `strftime("%H:%M")`: five characters with `:` in the middle; `StrftimeRoundTrip` states that it parses back |
| Fratl.Canonical | fratl.py:110 | `.lower().replace(" ", "").replace(".", ":")`; `CanonicalAppend`, `CanonicalClockField` and `CanonicalTwelveHour` state its effect on a match |
| Fratl.InsertColon | fratl.py:111-116 | the padding and colon insertion; `InsertColonField` states its effect on a normalised clock |
| Fratl.ShiftHour | fratl.py:120-123 | the `12` → `00` and `11` → `23` substitution; `ShiftHourSpec` states its effect |
| Fratl.ReadClock | fratl.py:110-125 | the normaliser and the two `strptime` branches: any time read is within one day; `TwelveHourReading` and `TwentyFourHourReading` state what it reads |
| Fratl.ApplyZone | fratl.py:127-133 | the zone shift: the result is within one day; `ApplyZoneSpec` states the offset applied |
| TimePattern.SearchSkips | fratl.py:107 | the search passes over every start where neither alternative matches |
| ZonePattern.ZoneSearchSkips | fratl.py:127 | the zone search passes over every position where no zone token starts |
| Text.FindFirst | fratl.py:113 | `find` returns -1 exactly when the substring occurs nowhere, and otherwise its first occurrence |
| Text.FindCharAbsent | fratl.py:113 | `find(":") == -1` exactly when no character is `:` |
| Text.ReplaceFirstAtStart | fratl.py:120-123 | `replace(pat, rep, 1)` on a string that starts with `pat` rewrites exactly that prefix |
| Text.CountDigitsSpec | fratl.py:111 | the digit count is the length exactly when all characters are digits, and 0 exactly when none are |
| Text.CountDigitsAppend | fratl.py:111 | the digit count of a concatenation is the sum of the counts |
| Text.LowerStrIdempotent | fratl.py:110 | lower-casing twice is lower-casing once |
| Text.ReplaceAllAppend | fratl.py:110 | `replace` of a character distributes over concatenation |
| Text.ReplaceAllByChar | fratl.py:110 | replacing a character by a character rewrites each position in place and keeps the length |
| Text.Last | fratl.py:117 | `s[-n:]` for n ≥ 1 (the parser uses n = 2) has length min(n, len(s)) and is a suffix of s |
| TimePattern.SearchCharacterised | fratl.py:104-107 | `re.search` returns m exactly when m is the leftmost-first match: no earlier start matches, the am/pm alternative wins where it matches, and the twenty-four-hour match is the longest |
| TimePattern.SearchSpec | fratl.py:104-107 | the search finds nothing exactly when no substring matches the pattern |
| TimePattern.LeftmostFirstUnique | fratl.py:107 | the leftmost-first match is determined by the text |
| TimePattern.TwelveHourSound | fratl.py:104 | whatever the twelve-hour matcher returns is in the twelve-hour language |
| TimePattern.TwelveHourComplete | fratl.py:104 | the twelve-hour matcher finds every match of its language |
| TimePattern.TwelveHourEndUnique | fratl.py:104 | a twelve-hour match at a start has only one possible end |
| TimePattern.TwentyFourHourSound | fratl.py:104 | whatever the twenty-four-hour matcher returns is in its language |
| TimePattern.TwentyFourHourLongest | fratl.py:104 | the engine's backtracking order picks the longest twenty-four-hour match |
| TimePattern.NoMeridiemNoTwelveHour | fratl.py:104 | text without am/pm letters holds no twelve-hour match |
| ZonePattern.ZoneAtSpec | fratl.py:105 | the alternatives at a position find exactly the zone token that occurs there with the required word boundaries |
| ZonePattern.ZoneTokenUnique | fratl.py:105 | at most one zone token occurs at a position, so alternative order never matters |
| ZonePattern.ZoneSearchSpec | fratl.py:127 | the case-insensitive zone search finds nothing exactly when no zone occurs, and otherwise the leftmost zone |
| ZonePattern.NoLettersNoZone | fratl.py:105 | text without letters names no zone |
| ZonePattern.OffsetMatchesTable | fratl.py:130-133 | the offset branches agree with the table awst/wa/#wa 120, acst 30, aest 0 minutes |
| Strptime.Strptime12Reads | fratl.py:118 | `hh:mm` and am/pm parse with `%I:%M%p` to the hour the `%p` rule gives |
| Strptime.Strptime24Reads | fratl.py:125 | `hh:mm` parses with `%H:%M` to exactly that hour and minute |
| Strptime.StrptimeRejectsSeconds | fratl.py:117-125 | a seconds field is left over, so both formats raise |
| Strptime.StrptimeNeedsEarlyColon | fratl.py:117-125 | without `:` in second or third place neither format parses |
| Strptime.StrftimeRoundTrip | fratl.py:198 | a time printed with `%H:%M` parses back to itself |
| Fratl.ApplyAmPmIsClock12 | fratl.py:118 | CPython's am/pm rule agrees with the twelve-hour convention on hours 1 to 12 |
| Fratl.CanonicalAppend | fratl.py:110 | normalisation distributes over concatenation |
| Fratl.CanonicalClockField | fratl.py:110 | the digits and separators of a matched clock normalise to the digits with `:` separators |
| Fratl.CanonicalTwelveHour | fratl.py:110 | a twelve-hour match normalises to its digits, `:` separators and lower-case am/pm, without the space |
| Fratl.InsertColonField | fratl.py:111-116 | without a separator a `:` goes after the hour, and a one-digit hour gains a leading 0 |
| Fratl.ShiftHourSpec | fratl.py:120-123 | a leading `12` becomes `00`, a leading `11` becomes `23`, and anything else is unchanged |
| Fratl.NightTextValue | fratl.py:120-123 | the substituted hour is still a `%H` hour and has the night-shifted value |
| Fratl.ReadWithoutMeridiemFields | fratl.py:119-125 | `hh:mm` without am/pm reads as the night-shifted hour and the minute |
| Fratl.ReadWithoutMeridiemSeconds | fratl.py:119-125 | with seconds the branch without am/pm raises, whatever the hour shift did |
| Fratl.NormaliseTwelveHour | fratl.py:110-116 | a twelve-hour match without seconds normalises to padded hour, `:`, minute and lower-case am/pm |
| Fratl.NormaliseTwentyFourHour | fratl.py:110-116 | a twenty-four-hour match without seconds normalises to padded hour, `:` and minute |
| Fratl.NormaliseTwelveHourSeconds | fratl.py:110-116 | a twelve-hour match with seconds keeps its `:` before the seconds, so nothing is padded or inserted; only the separators become `:` and am/pm is lower-cased |
| Fratl.NormaliseTwentyFourHourSeconds | fratl.py:110-116 | a twenty-four-hour match with seconds keeps its `:` before the seconds, so nothing is padded or inserted; only the separators become `:` |
| Fratl.SeparatorFreeTwentyFourHour | fratl.py:111-116 | a match without separators has 3 or 4 digits and is padded exactly when it has 3 |
| Fratl.TwelveHourReading | fratl.py:110-118 | a twelve-hour match reads as its clock under the twelve-hour convention, or raises when it has seconds |
| Fratl.TwentyFourHourReading | fratl.py:110-125 | a twenty-four-hour match reads as its night-shifted clock, or raises when it has seconds |
| Fratl.TwelveHourClockFields | fratl.py:117-118 | the twelve-hour reading's hour is the converted hour, its minute the written minute, and it is pm exactly when the hour is 12 or later |
| Fratl.TwentyFourHourClockFields | fratl.py:119-125 | the twenty-four-hour reading's hour is night-shifted and never 11 or 12 |
| Fratl.FoundTimeIsRead | fratl.py:124-125 | a matched time is never dropped by the `km` guard, and raises exactly when it has seconds |
| Fratl.WithoutMeridiemNeverElevenOrTwelve | fratl.py:120-123 | without am/pm the hour read is never 11 or 12 |
| Fratl.ApplyZoneSpec | fratl.py:127-133 | the clock is unchanged without a zone, and otherwise moved by the first zone's offset modulo a day |
| Fratl.ParseForFratl | fratl.py:98-135 | a post without a time gives `None`, and any time given is within one day |
| Fratl.ParseOutcomes | fratl.py:98-135 | `None` exactly when nothing matches the pattern, `ValueError` exactly when the first match has seconds, a time otherwise |
| Fratl.ParseTwelveHour | fratl.py:98-135 | when the first time is a twelve-hour clock, the result is that clock moved by the first zone |
| Fratl.ParseTwentyFourHour | fratl.py:98-135 | when the first time is a twenty-four-hour clock, the result is that clock, night-shifted, moved by the first zone |
| Fratl.PrintedTimeReadBack | fratl.py:119-125 | a time printed with `%H:%M` parses back to itself exactly when its hour is not 11 or 12 |
| Fixtures.Post144Parsed | fratl.py:144 | `135am AEST` gives 01:35 |
| Fixtures.Post145Parsed | fratl.py:145 | `1259` gives 00:59 |
| Fixtures.Post146Parsed | fratl.py:146 | `12:24` gives 00:24 |
| Fixtures.Post147Parsed | fratl.py:147 | `1.00` gives 01:00 |
| Fixtures.Post149Parsed | fratl.py:149 | `2100 AEST` gives 21:00 |
| Fixtures.Post153Parsed | fratl.py:153 | `11:39 AWST` gives 01:39 |
| Fixtures.Post157Parsed | fratl.py:157 | the post gives 01:00 from `100km`, not the expected 01:38 |
| Fixtures.Post161Parsed | fratl.py:161 | the post gives 20:20 from `#TdF2020`, not the expected 02:22 |
| Fixtures.Post164Parsed | fratl.py:164 | `1222` gives 00:22 |
| Fixtures.Post165Parsed | fratl.py:165 | `11.33pm #WA` gives 01:33 |
| Fixtures.Post167Parsed | fratl.py:167 | `0145 AEST` gives 01:45 |
| Fixtures.Post170Parsed | fratl.py:170 | `12:22` gives 00:22 |
| Fixtures.Post172Parsed | fratl.py:172 | `02:28EST` gives 02:28 |
| Fixtures.Post175Parsed | fratl.py:175 | `1.48 AEST` gives 01:48 |
| Fixtures.Post176Parsed | fratl.py:176 | `1.44am` gives 01:44 |
| Fixtures.Post178Parsed | fratl.py:178 | `2.03am` gives 02:03 |
| Fixtures.Post181Parsed | fratl.py:181 | `2:04 AEST` gives 02:04 |
| Fixtures.Post183Parsed | fratl.py:183 | the post gives 20:20 from `2020-covid`, not the expected 01:57 |
| Fixtures.Post187Parsed | fratl.py:187 | `1.37am awst` gives 03:37 |
| Fixtures.Post191Parsed | fratl.py:191 | `1:58 am acst` gives 02:28 |
| Fixtures.ExampleNoonHourParsed | fratl.py:120-121 | `1234` gives 00:34 |
| Fixtures.ExampleThreeDigitsParsed | fratl.py:113-116 | `159` is padded to `01:59` |
| Fixtures.ExampleNoHour24Parsed | fratl.py:104 | in `2400` the match is `240`, read as 02:40 |
| Fixtures.ExampleIowaParsed | fratl.py:105 | `wa` matches inside `Iowa` and adds two hours |
| Fixtures.ExampleNoonPmParsed | fratl.py:118 | `12.05pm` gives 12:05 |
| Fixtures.ExampleMidnightAmParsed | fratl.py:118 | `12:05 AM` gives 00:05 |
| Fixtures.ExampleSecondsRaise | fratl.py:125 | `1:23:45` raises `ValueError` |
| Fixtures.ExampleSecondsPmRaise | fratl.py:118 | `1.23.45pm` raises `ValueError` |

## Left out

- The rest of fratl.py is not part of this model. It covers loading the Twitter credentials and searching Twitter for posts (lines 19-95) and the self-test's print loop (196-202). It also covers, in lines 205-369, the Twitter authentication (`auth`), the matplotlib plot (`plot_fratl`), reading the CSV of past results (`read_dataframe`), the Google Sheets upload (`save_gsheet`) and the argparse entry point. All of these are I/O.
- The date. `strptime` yields 1 January 1900 and `timedelta` can roll it over, but callers only print `%H:%M`. So the result is the time of day, in minutes modulo 1440.
- Word characters and case folding are ASCII only, for `\w`, `\b`, `\B`, `re.IGNORECASE` and `str.lower`. Python's Unicode rules differ on non-ASCII text. For example, under `re.IGNORECASE` the character `ſ` (U+017F) matches `s`, so `awſt` would match `awst\b`, but `.lower()` keeps `ſ` and the offset branches then add nothing.
- `%p` is taken in the C locale (`am`/`pm`). Other locales are not modelled.
- `strptime` is modelled only for the two formats the parser uses, and only the hour and minute it yields. `Decimal` covers fields of one or two digits, which is all these formats admit.
- The callers of the parser are not modelled. That includes the bare `except` and the stale `fratl` variable around the call (fratl.py:59-63).
- The sample posts are cut down to excerpts. Each excerpt keeps the post's first time expression. It also keeps the first zone, except for post 183: the excerpt stops before `AEST`, which adds nothing, so the result is the same. Mis-decoded characters are kept as code points.
- Fratl.ParseTwelveHour: states the result through `ApplyZone`, whose own contract (`Fratl.ApplyZoneSpec`) gives the offset, rather than repeating the offset in the lemma.
- Fratl.ParseTwentyFourHour: the same, through `ApplyZone`.
