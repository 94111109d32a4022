/** The time pattern of `parse_for_fratl` and Python's `re.search` over it.

    The pattern has two alternatives, tried in this order at every start
    position, and the leftmost start at which either succeeds wins:

      twelve-hour:      ([0]?[1-9]|1[0-2]) (:|\.)? [0-5][0-9] ((:|\.)[0-5][0-9])? ( )? (AM|am|aM|Am|PM|pm|pM|Pm)
      twenty-four-hour: (1[0-9]|2[0-3]|[0]?[0-9]) (:|\.)? [0-5][0-9] ((:|\.)[0-5][0-9])?

    The language of each alternative is stated declaratively (the `…Parts`
    and `…Span` predicates); the matcher functions transcribe the order in
    which the backtracking engine tries the sub-alternatives, and the lemmas
    show the two agree. */
module TimePattern {
  import opened Text

  predicate IsSep(c: char) { c == ':' || c == '.' }

  predicate IsNonZeroDigit(c: char) { '1' <= c <= '9' }

  predicate IsMeridiemLetter(c: char) { c == 'a' || c == 'A' || c == 'p' || c == 'P' }

  // ---------------------------------------------------------------------
  // Tokens: each says that the characters of s from p on spell one token.

  /** `[0]?[1-9]|1[0-2]` spelled by the n characters at p */
  predicate Hour12At(s: string, p: nat, n: nat)
  {
    p + n <= |s| &&
    ((n == 1 && IsNonZeroDigit(s[p])) ||
     (n == 2 && s[p] == '0' && IsNonZeroDigit(s[p + 1])) ||
     (n == 2 && s[p] == '1' && '0' <= s[p + 1] <= '2'))
  }

  /** `1[0-9]|2[0-3]|[0]?[0-9]` spelled by the n characters at p */
  predicate Hour24At(s: string, p: nat, n: nat)
  {
    p + n <= |s| &&
    ((n == 1 && IsDigit(s[p])) ||
     (n == 2 && (s[p] == '0' || s[p] == '1') && IsDigit(s[p + 1])) ||
     (n == 2 && s[p] == '2' && '0' <= s[p + 1] <= '3'))
  }

  /** `(:|\.)?` spelled by the n characters at p */
  predicate OptSepAt(s: string, p: nat, n: nat)
  {
    p + n <= |s| && (n == 0 || (n == 1 && IsSep(s[p])))
  }

  /** `[0-5][0-9]` at p */
  predicate MinuteAt(s: string, p: nat)
  {
    p + 2 <= |s| && '0' <= s[p] <= '5' && IsDigit(s[p + 1])
  }

  /** `((:|\.)[0-5][0-9])?` spelled by the n characters at p */
  predicate OptSecondsAt(s: string, p: nat, n: nat)
  {
    (n == 0 && p <= |s|) || (n == 3 && p + 3 <= |s| && IsSep(s[p]) && MinuteAt(s, p + 1))
  }

  /** `( )?` spelled by the n characters at p */
  predicate OptSpaceAt(s: string, p: nat, n: nat)
  {
    p + n <= |s| && (n == 0 || (n == 1 && s[p] == ' '))
  }

  /** `(AM|am|aM|Am|PM|pm|pM|Pm)` at p */
  predicate MeridiemAt(s: string, p: nat)
  {
    p + 2 <= |s| && IsMeridiemLetter(s[p]) && (s[p + 1] == 'm' || s[p + 1] == 'M')
  }

  // ---------------------------------------------------------------------
  // The two languages.

  /** s[i..j] is spelled by the twelve-hour alternative, with an hour of h
      characters, a separator of sep, seconds of sec and a space of sp. */
  predicate TwelveHourParts(s: string, i: nat, j: nat, h: nat, sep: nat, sec: nat, sp: nat)
  {
    i + h + sep + 2 + sec + sp + 2 == j <= |s| &&
    Hour12At(s, i, h) &&
    OptSepAt(s, i + h, sep) &&
    MinuteAt(s, i + h + sep) &&
    OptSecondsAt(s, i + h + sep + 2, sec) &&
    OptSpaceAt(s, i + h + sep + 2 + sec, sp) &&
    MeridiemAt(s, j - 2)
  }

  /** s[i..j] is spelled by the twenty-four-hour alternative. */
  predicate TwentyFourHourParts(s: string, i: nat, j: nat, h: nat, sep: nat, sec: nat)
  {
    i + h + sep + 2 + sec == j <= |s| &&
    Hour24At(s, i, h) &&
    OptSepAt(s, i + h, sep) &&
    MinuteAt(s, i + h + sep) &&
    OptSecondsAt(s, i + h + sep + 2, sec)
  }

  ghost predicate TwelveHourSpan(s: string, i: nat, j: nat)
  {
    exists h: nat, sep: nat, sec: nat, sp: nat :: TwelveHourParts(s, i, j, h, sep, sec, sp)
  }

  ghost predicate TwentyFourHourSpan(s: string, i: nat, j: nat)
  {
    exists h: nat, sep: nat, sec: nat :: TwentyFourHourParts(s, i, j, h, sep, sec)
  }

  /** Some substring starting at k is in the language of the whole pattern. */
  ghost predicate MatchStartsAt(s: string, k: nat)
  {
    exists j: nat :: TwelveHourSpan(s, k, j) || TwentyFourHourSpan(s, k, j)
  }

  // ---------------------------------------------------------------------
  // The matcher, in the engine's backtracking order. Each function returns
  // the end of the first successful path, or None.

  /** `( )?(AM|…)` from p; the space is tried before its absence. */
  function MeridiemEnd(s: string, p: nat): (r: Option<nat>)
    ensures r.Some? ==> p < r.value <= |s|
  {
    if p < |s| && s[p] == ' ' && MeridiemAt(s, p + 1) then Some(p + 3)
    else if MeridiemAt(s, p) then Some(p + 2)
    else None
  }

  /** `[0-5][0-9]((:|\.)[0-5][0-9])?( )?(AM|…)` from p; seconds are tried first. */
  function TwelveHourTail(s: string, p: nat): (r: Option<nat>)
    ensures r.Some? ==> p < r.value <= |s|
  {
    if !MinuteAt(s, p) then None
    else if OptSecondsAt(s, p + 2, 3) && MeridiemEnd(s, p + 5).Some? then MeridiemEnd(s, p + 5)
    else MeridiemEnd(s, p + 2)
  }

  /** `(:|\.)?` and the rest of the twelve-hour alternative, from p. */
  function AfterHour12(s: string, p: nat): (r: Option<nat>)
    ensures r.Some? ==> p < r.value <= |s|
  {
    if p < |s| && IsSep(s[p]) && TwelveHourTail(s, p + 1).Some? then TwelveHourTail(s, p + 1)
    else TwelveHourTail(s, p)
  }

  /** The twelve-hour alternative at i: `[0]?[1-9]` with the optional `0`
      taken, then without it, then `1[0-2]`. */
  function MatchTwelveHourAt(s: string, i: nat): (r: Option<nat>)
    ensures r.Some? ==> i < r.value <= |s|
  {
    if i + 1 < |s| && s[i] == '0' && IsNonZeroDigit(s[i + 1]) && AfterHour12(s, i + 2).Some? then
      AfterHour12(s, i + 2)
    else if i < |s| && IsNonZeroDigit(s[i]) && AfterHour12(s, i + 1).Some? then
      AfterHour12(s, i + 1)
    else if i + 1 < |s| && s[i] == '1' && '0' <= s[i + 1] <= '2' then
      AfterHour12(s, i + 2)
    else
      None
  }

  /** `[0-5][0-9]((:|\.)[0-5][0-9])?` from p; the pattern ends here, so the
      greedy seconds group is kept whenever it matches. */
  function TwentyFourHourTail(s: string, p: nat): (r: Option<nat>)
    ensures r.Some? ==> p < r.value <= |s|
  {
    if !MinuteAt(s, p) then None
    else if OptSecondsAt(s, p + 2, 3) then Some(p + 5)
    else Some(p + 2)
  }

  function AfterHour24(s: string, p: nat): (r: Option<nat>)
    ensures r.Some? ==> p < r.value <= |s|
  {
    if p < |s| && IsSep(s[p]) && TwentyFourHourTail(s, p + 1).Some? then TwentyFourHourTail(s, p + 1)
    else TwentyFourHourTail(s, p)
  }

  /** The twenty-four-hour alternative at i: `1[0-9]`, `2[0-3]`, `[0]?[0-9]`
      with the `0` taken, then a single digit. */
  function MatchTwentyFourHourAt(s: string, i: nat): (r: Option<nat>)
    ensures r.Some? ==> i < r.value <= |s|
  {
    if i + 1 < |s| && s[i] == '1' && IsDigit(s[i + 1]) && AfterHour24(s, i + 2).Some? then
      AfterHour24(s, i + 2)
    else if i + 1 < |s| && s[i] == '2' && '0' <= s[i + 1] <= '3' && AfterHour24(s, i + 2).Some? then
      AfterHour24(s, i + 2)
    else if i + 1 < |s| && s[i] == '0' && IsDigit(s[i + 1]) && AfterHour24(s, i + 2).Some? then
      AfterHour24(s, i + 2)
    else if i < |s| && IsDigit(s[i]) then
      AfterHour24(s, i + 1)
    else
      None
  }

  datatype Clock = TwelveHour | TwentyFourHour

  /** `re.search(time_regexpr, text)`: where the match lies and which alternative made it. */
  datatype Match = Match(start: nat, end: nat, clock: Clock)

  function SearchFrom(s: string, i: nat): (r: Option<Match>)
    requires i <= |s|
    ensures r.Some? ==> i <= r.value.start < r.value.end <= |s|
    decreases |s| - i
  {
    if i == |s| then None
    else match MatchTwelveHourAt(s, i)
      case Some(e) => Some(Match(i, e, TwelveHour))
      case None =>
        match MatchTwentyFourHourAt(s, i)
        case Some(e) => Some(Match(i, e, TwentyFourHour))
        case None => SearchFrom(s, i + 1)
  }

  /** The search passes over a stretch where neither alternative matches. */
  lemma {:induction false} SearchSkips(s: string, i: nat, k: nat)
    requires i <= k <= |s|
    requires forall p :: i <= p < k ==> MatchTwelveHourAt(s, p).None? && MatchTwentyFourHourAt(s, p).None?
    ensures SearchFrom(s, i) == SearchFrom(s, k)
    decreases k - i
  {
    if i < k {
      SearchSkips(s, i + 1, k);
    }
  }

  function Search(s: string): (r: Option<Match>)
    ensures r.Some? ==> r.value.start < r.value.end <= |s|
  {
    SearchFrom(s, 0)
  }

  // ---------------------------------------------------------------------
  // The twelve-hour matcher finds exactly the twelve-hour language.

  lemma MeridiemEndSound(s: string, p: nat) returns (sp: nat)
    requires MeridiemEnd(s, p).Some?
    ensures OptSpaceAt(s, p, sp) && MeridiemAt(s, p + sp) && MeridiemEnd(s, p).value == p + sp + 2
  {
    if p < |s| && s[p] == ' ' && MeridiemAt(s, p + 1) { sp := 1; } else { sp := 0; }
  }

  lemma TwelveHourTailSound(s: string, q: nat) returns (sec: nat, sp: nat)
    requires TwelveHourTail(s, q).Some?
    ensures MinuteAt(s, q) && OptSecondsAt(s, q + 2, sec) && OptSpaceAt(s, q + 2 + sec, sp)
    ensures MeridiemAt(s, q + 2 + sec + sp) && TwelveHourTail(s, q).value == q + 2 + sec + sp + 2
  {
    if OptSecondsAt(s, q + 2, 3) && MeridiemEnd(s, q + 5).Some? {
      sec := 3;
      sp := MeridiemEndSound(s, q + 5);
    } else {
      sec := 0;
      sp := MeridiemEndSound(s, q + 2);
    }
  }

  lemma AfterHour12Sound(s: string, p: nat) returns (sep: nat, sec: nat, sp: nat)
    requires AfterHour12(s, p).Some?
    ensures OptSepAt(s, p, sep) && MinuteAt(s, p + sep) && OptSecondsAt(s, p + sep + 2, sec)
    ensures OptSpaceAt(s, p + sep + 2 + sec, sp) && MeridiemAt(s, p + sep + 2 + sec + sp)
    ensures AfterHour12(s, p).value == p + sep + 2 + sec + sp + 2
  {
    if p < |s| && IsSep(s[p]) && TwelveHourTail(s, p + 1).Some? {
      sep := 1;
      sec, sp := TwelveHourTailSound(s, p + 1);
    } else {
      sep := 0;
      sec, sp := TwelveHourTailSound(s, p);
    }
  }

  /** Whatever the twelve-hour matcher returns is in the twelve-hour language. */
  lemma TwelveHourSound(s: string, i: nat)
    requires MatchTwelveHourAt(s, i).Some?
    ensures i < MatchTwelveHourAt(s, i).value <= |s|
    ensures TwelveHourSpan(s, i, MatchTwelveHourAt(s, i).value)
  {
    var j := MatchTwelveHourAt(s, i).value;
    var h: nat;
    if i + 1 < |s| && s[i] == '0' && IsNonZeroDigit(s[i + 1]) && AfterHour12(s, i + 2).Some? {
      h := 2;
    } else if i < |s| && IsNonZeroDigit(s[i]) && AfterHour12(s, i + 1).Some? {
      h := 1;
    } else {
      h := 2;
    }
    var sep, sec, sp := AfterHour12Sound(s, i + h);
    assert TwelveHourParts(s, i, j, h, sep, sec, sp);
  }

  /** Before its meridiem (and optional space) a twelve-hour match holds
      only digits, separators and the space, none of them a meridiem letter. */
  lemma TwelveHourBody(s: string, i: nat, j: nat, h: nat, sep: nat, sec: nat, sp: nat, q: nat)
    requires TwelveHourParts(s, i, j, h, sep, sec, sp)
    requires i <= q < j - 2
    ensures !IsMeridiemLetter(s[q])
  {
  }

  /** At a given start, the twelve-hour language has at most one match: the
      meridiem letters fix its end. */
  lemma TwelveHourEndUnique(s: string, i: nat, j1: nat, j2: nat)
    requires TwelveHourSpan(s, i, j1) && TwelveHourSpan(s, i, j2)
    ensures j1 == j2
  {
    var h1: nat, sep1: nat, sec1: nat, sp1: nat :| TwelveHourParts(s, i, j1, h1, sep1, sec1, sp1);
    var h2: nat, sep2: nat, sec2: nat, sp2: nat :| TwelveHourParts(s, i, j2, h2, sep2, sec2, sp2);
    if j1 < j2 {
      TwelveHourBody(s, i, j2, h2, sep2, sec2, sp2, j1 - 2);
      assert false;
    } else if j2 < j1 {
      TwelveHourBody(s, i, j1, h1, sep1, sec1, sp1, j2 - 2);
      assert false;
    }
  }

  lemma AfterHour12Finds(s: string, p: nat, sep: nat, sec: nat, sp: nat)
    requires OptSepAt(s, p, sep) && MinuteAt(s, p + sep) && OptSecondsAt(s, p + sep + 2, sec)
    requires OptSpaceAt(s, p + sep + 2 + sec, sp) && MeridiemAt(s, p + sep + 2 + sec + sp)
    ensures AfterHour12(s, p).Some?
  {
    var q := p + sep;
    assert MeridiemEnd(s, q + 2 + sec).Some?;
    assert TwelveHourTail(s, q).Some?;
  }

  /** The twelve-hour matcher misses no match of its language. */
  lemma TwelveHourComplete(s: string, i: nat, j: nat)
    requires TwelveHourSpan(s, i, j)
    ensures MatchTwelveHourAt(s, i) == Some(j)
  {
    var h: nat, sep: nat, sec: nat, sp: nat :| TwelveHourParts(s, i, j, h, sep, sec, sp);
    AfterHour12Finds(s, i + h, sep, sec, sp);
    assert MatchTwelveHourAt(s, i).Some?;
    TwelveHourSound(s, i);
    TwelveHourEndUnique(s, i, j, MatchTwelveHourAt(s, i).value);
  }

  // ---------------------------------------------------------------------
  // The twenty-four-hour matcher returns the longest match of its language.

  lemma TwentyFourHourTailSound(s: string, q: nat) returns (sec: nat)
    requires TwentyFourHourTail(s, q).Some?
    ensures MinuteAt(s, q) && OptSecondsAt(s, q + 2, sec)
    ensures TwentyFourHourTail(s, q).value == q + 2 + sec
  {
    sec := if OptSecondsAt(s, q + 2, 3) then 3 else 0;
  }

  lemma AfterHour24Sound(s: string, p: nat) returns (sep: nat, sec: nat)
    requires AfterHour24(s, p).Some?
    ensures OptSepAt(s, p, sep) && MinuteAt(s, p + sep) && OptSecondsAt(s, p + sep + 2, sec)
    ensures AfterHour24(s, p).value == p + sep + 2 + sec
  {
    if p < |s| && IsSep(s[p]) && TwentyFourHourTail(s, p + 1).Some? {
      sep := 1;
      sec := TwentyFourHourTailSound(s, p + 1);
    } else {
      sep := 0;
      sec := TwentyFourHourTailSound(s, p);
    }
  }

  /** Whatever the twenty-four-hour matcher returns is in its language. */
  lemma TwentyFourHourSound(s: string, i: nat)
    requires MatchTwentyFourHourAt(s, i).Some?
    ensures i < MatchTwentyFourHourAt(s, i).value <= |s|
    ensures TwentyFourHourSpan(s, i, MatchTwentyFourHourAt(s, i).value)
  {
    var j := MatchTwentyFourHourAt(s, i).value;
    var h: nat := if i + 1 < |s| && IsDigit(s[i + 1]) && AfterHour24(s, i + 2).Some? && Hour24At(s, i, 2) then 2 else 1;
    var sep, sec := AfterHour24Sound(s, i + h);
    assert TwentyFourHourParts(s, i, j, h, sep, sec);
  }

  /** From the end of the hour, the matcher reaches at least as far as any
      separator, minute and seconds that are there. */
  lemma AfterHour24Reaches(s: string, p: nat, sep: nat, sec: nat)
    requires OptSepAt(s, p, sep) && MinuteAt(s, p + sep) && OptSecondsAt(s, p + sep + 2, sec)
    ensures AfterHour24(s, p).Some? && p + sep + 2 + sec <= AfterHour24(s, p).value
  {
  }

  /** Every match of the twenty-four-hour language at i ends no later than
      the matcher's; the engine's backtracking order picks the longest one. */
  lemma TwentyFourHourLongest(s: string, i: nat, j: nat)
    requires TwentyFourHourSpan(s, i, j)
    ensures MatchTwentyFourHourAt(s, i).Some? && j <= MatchTwentyFourHourAt(s, i).value
  {
    var h: nat, sep: nat, sec: nat :| TwentyFourHourParts(s, i, j, h, sep, sec);
    AfterHour24Reaches(s, i + h, sep, sec);
  }

  // ---------------------------------------------------------------------
  // re.search: leftmost start, twelve-hour alternative first.

  lemma SpanBounds(s: string, k: nat, j: nat)
    requires TwelveHourSpan(s, k, j) || TwentyFourHourSpan(s, k, j)
    ensures k < j <= |s|
  {
  }

  /** The whole pattern matches nothing at i when neither alternative's matcher does. */
  lemma NoMatchAt(s: string, i: nat)
    requires MatchTwelveHourAt(s, i).None? && MatchTwentyFourHourAt(s, i).None?
    ensures !MatchStartsAt(s, i)
  {
    if MatchStartsAt(s, i) {
      var j: nat :| TwelveHourSpan(s, i, j) || TwentyFourHourSpan(s, i, j);
      if TwelveHourSpan(s, i, j) {
        TwelveHourComplete(s, i, j);
      } else {
        TwentyFourHourLongest(s, i, j);
      }
    }
  }

  /** m is the match `re.search` must return when it scans from `from`: no
      earlier start matches; at m's start the twelve-hour alternative wins
      whenever it matches; the twenty-four-hour match is the longest one. */
  ghost predicate IsLeftmostFirst(s: string, from: nat, m: Match)
  {
    && from <= m.start < m.end <= |s|
    && (forall k :: from <= k < m.start ==> !MatchStartsAt(s, k))
    && (m.clock == TwelveHour ==> TwelveHourSpan(s, m.start, m.end))
    && (m.clock == TwentyFourHour ==>
          && TwentyFourHourSpan(s, m.start, m.end)
          && (forall j: nat :: !TwelveHourSpan(s, m.start, j))
          && (forall j: nat :: TwentyFourHourSpan(s, m.start, j) ==> j <= m.end))
  }

  lemma {:induction false} SearchFromSpec(s: string, i: nat)
    requires i <= |s|
    ensures SearchFrom(s, i).None? ==> forall k :: i <= k ==> !MatchStartsAt(s, k)
    ensures SearchFrom(s, i).Some? ==> IsLeftmostFirst(s, i, SearchFrom(s, i).value)
    decreases |s| - i
  {
    if i == |s| {
      forall k | i <= k
        ensures !MatchStartsAt(s, k)
      {
        if MatchStartsAt(s, k) {
          var j: nat :| TwelveHourSpan(s, k, j) || TwentyFourHourSpan(s, k, j);
          SpanBounds(s, k, j);
        }
      }
    } else if MatchTwelveHourAt(s, i).Some? {
      TwelveHourSound(s, i);
    } else {
      forall j: nat | TwelveHourSpan(s, i, j)
        ensures false
      {
        TwelveHourComplete(s, i, j);
      }
      if MatchTwentyFourHourAt(s, i).Some? {
        TwentyFourHourSound(s, i);
        forall j: nat | TwentyFourHourSpan(s, i, j)
          ensures j <= MatchTwentyFourHourAt(s, i).value
        {
          TwentyFourHourLongest(s, i, j);
        }
      } else {
        NoMatchAt(s, i);
        SearchFromSpec(s, i + 1);
      }
    }
  }

  /** `re.search` over the time pattern: None exactly when no substring of s
      matches, and otherwise the leftmost-first match. */
  lemma SearchSpec(s: string)
    ensures Search(s).None? <==> forall k :: !MatchStartsAt(s, k)
    ensures Search(s).Some? ==> IsLeftmostFirst(s, 0, Search(s).value)
  {
    SearchFromSpec(s, 0);
    if Search(s).Some? {
      var m := Search(s).value;
      assert TwelveHourSpan(s, m.start, m.end) || TwentyFourHourSpan(s, m.start, m.end);
      assert MatchStartsAt(s, m.start);
    }
  }

  /** The leftmost-first match is determined by the text: the declarative
      description leaves no choice. */
  lemma LeftmostFirstUnique(s: string, m1: Match, m2: Match)
    requires IsLeftmostFirst(s, 0, m1) && IsLeftmostFirst(s, 0, m2)
    ensures m1 == m2
  {
    assert MatchStartsAt(s, m1.start);
    assert MatchStartsAt(s, m2.start);
    assert m1.start == m2.start;
    if m1.clock == TwelveHour && m2.clock == TwelveHour {
      TwelveHourEndUnique(s, m1.start, m1.end, m2.end);
    }
  }

  /** `re.search` returns m exactly when m is the leftmost-first match. */
  lemma SearchCharacterised(s: string, m: Match)
    ensures Search(s) == Some(m) <==> IsLeftmostFirst(s, 0, m)
  {
    SearchSpec(s);
    if IsLeftmostFirst(s, 0, m) {
      assert MatchStartsAt(s, m.start) by {
        assert TwelveHourSpan(s, m.start, m.end) || TwentyFourHourSpan(s, m.start, m.end);
      }
      LeftmostFirstUnique(s, m, Search(s).value);
    }
  }

  /** Every twelve-hour match ends in am or pm. */
  lemma TwelveHourMeridiem(s: string, i: nat, j: nat)
    ensures TwelveHourSpan(s, i, j) ==> 2 <= j <= |s| && IsMeridiemLetter(s[j - 2])
  {
    if TwelveHourSpan(s, i, j) {
      var h: nat, sep: nat, sec: nat, sp: nat :| TwelveHourParts(s, i, j, h, sep, sec, sp);
    }
  }

  /** Text without am/pm letters holds no twelve-hour match. */
  lemma NoMeridiemNoTwelveHour(s: string)
    requires forall k :: 0 <= k < |s| ==> !IsMeridiemLetter(s[k])
    ensures forall i: nat, j: nat :: !TwelveHourSpan(s, i, j)
  {
    forall i: nat, j: nat
      ensures !TwelveHourSpan(s, i, j)
    {
      TwelveHourMeridiem(s, i, j);
    }
  }
}
