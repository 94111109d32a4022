/** The sample posts the parser's self-test checks, each cut down to an
    excerpt that holds its first time expression and, except for post 183,
    its first zone; `PostN` is the sample on line N of fratl.py. A few small
    examples of single rules follow. For each: where the search finds the
    time and which alternative matches, the zone found, the clock read,
    the offset, and the final time of day in minutes after midnight. Three
    posts (157, 161, 183) come out differently from the time the self-test
    expects, because an earlier number in the post matches first.

    Each search is stated by passing over the positions before its result
    (`SearchSkips`, `ZoneSearchSkips`) and then naming what matches there. */
module Fixtures {
  import opened Text
  import opened TimePattern
  import opened ZonePattern
  import opened Strptime
  import opened Fratl

  /** Sample post 144, excerpt. An unseparated three-digit time with am, in AEST. */
  const Post144 := "of 135am AEST and"

  lemma Post144Search()
    ensures Search(Post144) == Some(Match(3, 8, TwelveHour))
  {
    SearchSkips(Post144, 0, 3);
    assert MatchTwelveHourAt(Post144, 3) == Some(8);
  }

  lemma Post144Zone()
    ensures ZoneSearch(Post144) == Some(ZoneMatch(9, "aest"))
  {
    ZoneSearchSkips(Post144, 0, 9);
    assert ZoneAt(Post144, 9) == Some("aest");
  }

  lemma Post144Fields()
    ensures TwelveHourParts(Post144, 3, 8, 1, 0, 0, 0)
    ensures Clock12To24(Decimal(Post144[3..4]), IsPm(Post144[6])) * 60 + Decimal(Post144[4..6]) == 95
  {
    assert Post144[3..4] == "1" && Post144[4..6] == "35";
  }

  lemma Post144Clock()
    ensures ReadClock(Post144[3..8]) == Parsed(95)
  {
    Post144Fields();
    TwelveHourReads(Post144, 3, 8, 1, 0, 0, 95);
  }

  lemma Post144Offset()
    ensures ApplyZone(Post144, 95) == 95
  {
    Post144Zone();
  }

  lemma Post144Parsed()
    ensures ParseForFratl(Post144) == Parsed(1 * 60 + 35)
  {
    Post144Search();
    Post144Clock();
    Post144Offset();
    ParseOfMatch(Post144, Match(3, 8, TwelveHour));
  }

  /** Sample post 145, excerpt. Four digits with hour 12 and no am/pm: just after midnight. */
  const Post145 := "1259 #FRATL"

  lemma Post145Search()
    ensures Search(Post145) == Some(Match(0, 4, TwentyFourHour))
  {
    assert MatchTwelveHourAt(Post145, 0).None?;
    assert MatchTwentyFourHourAt(Post145, 0) == Some(4);
  }

  lemma Post145Zone()
    ensures ZoneSearch(Post145) == None
  {
    ZoneSearchSkips(Post145, 0, 11);
  }

  lemma Post145Fields()
    ensures TwentyFourHourParts(Post145, 0, 4, 2, 0, 0)
    ensures NightShift(Decimal(Post145[0..2])) * 60 + Decimal(Post145[2..4]) == 59
  {
    assert Post145[0..2] == "12" && Post145[2..4] == "59";
  }

  lemma Post145Clock()
    ensures ReadClock(Post145[0..4]) == Parsed(59)
  {
    Post145Fields();
    TwentyFourHourReads(Post145, 0, 4, 2, 0, 59);
  }

  lemma Post145Offset()
    ensures ApplyZone(Post145, 59) == 59
  {
    Post145Zone();
  }

  lemma Post145Parsed()
    ensures ParseForFratl(Post145) == Parsed(0 * 60 + 59)
  {
    Post145Search();
    Post145Clock();
    Post145Offset();
    ParseOfMatch(Post145, Match(0, 4, TwentyFourHour));
  }

  /** Sample post 146, excerpt. Hour 12 without am/pm, with a colon. */
  const Post146 := "#fratl 12:24"

  lemma Post146Search()
    ensures Search(Post146) == Some(Match(7, 12, TwentyFourHour))
  {
    SearchSkips(Post146, 0, 7);
    assert MatchTwelveHourAt(Post146, 7).None?;
    assert MatchTwentyFourHourAt(Post146, 7) == Some(12);
  }

  lemma Post146Zone()
    ensures ZoneSearch(Post146) == None
  {
    ZoneSearchSkips(Post146, 0, 12);
  }

  lemma Post146Fields()
    ensures TwentyFourHourParts(Post146, 7, 12, 2, 1, 0)
    ensures NightShift(Decimal(Post146[7..9])) * 60 + Decimal(Post146[10..12]) == 24
  {
    assert Post146[7..9] == "12" && Post146[10..12] == "24";
  }

  lemma Post146Clock()
    ensures ReadClock(Post146[7..12]) == Parsed(24)
  {
    Post146Fields();
    TwentyFourHourReads(Post146, 7, 12, 2, 1, 24);
  }

  lemma Post146Offset()
    ensures ApplyZone(Post146, 24) == 24
  {
    Post146Zone();
  }

  lemma Post146Parsed()
    ensures ParseForFratl(Post146) == Parsed(0 * 60 + 24)
  {
    Post146Search();
    Post146Clock();
    Post146Offset();
    ParseOfMatch(Post146, Match(7, 12, TwentyFourHour));
  }

  /** Sample post 147, excerpt. A dot as separator. */
  const Post147 := "1.00 for"

  lemma Post147Search()
    ensures Search(Post147) == Some(Match(0, 4, TwentyFourHour))
  {
    assert MatchTwelveHourAt(Post147, 0).None?;
    assert MatchTwentyFourHourAt(Post147, 0) == Some(4);
  }

  lemma Post147Zone()
    ensures ZoneSearch(Post147) == None
  {
    ZoneSearchSkips(Post147, 0, 8);
  }

  lemma Post147Fields()
    ensures TwentyFourHourParts(Post147, 0, 4, 1, 1, 0)
    ensures NightShift(Decimal(Post147[0..1])) * 60 + Decimal(Post147[2..4]) == 60
  {
    assert Post147[0..1] == "1" && Post147[2..4] == "00";
  }

  lemma Post147Clock()
    ensures ReadClock(Post147[0..4]) == Parsed(60)
  {
    Post147Fields();
    TwentyFourHourReads(Post147, 0, 4, 1, 1, 60);
  }

  lemma Post147Offset()
    ensures ApplyZone(Post147, 60) == 60
  {
    Post147Zone();
  }

  lemma Post147Parsed()
    ensures ParseForFratl(Post147) == Parsed(1 * 60 + 0)
  {
    Post147Search();
    Post147Clock();
    Post147Offset();
    ParseOfMatch(Post147, Match(0, 4, TwentyFourHour));
  }

  /** Sample post 149, excerpt. A 24-hour time written as four digits; AEST adds nothing. */
  const Post149 := "at 2100 AEST on"

  lemma Post149Search()
    ensures Search(Post149) == Some(Match(3, 7, TwentyFourHour))
  {
    SearchSkips(Post149, 0, 3);
    assert MatchTwelveHourAt(Post149, 3).None?;
    assert MatchTwentyFourHourAt(Post149, 3) == Some(7);
  }

  lemma Post149Zone()
    ensures ZoneSearch(Post149) == Some(ZoneMatch(8, "aest"))
  {
    ZoneSearchSkips(Post149, 0, 8);
    assert ZoneAt(Post149, 8) == Some("aest");
  }

  lemma Post149Fields()
    ensures TwentyFourHourParts(Post149, 3, 7, 2, 0, 0)
    ensures NightShift(Decimal(Post149[3..5])) * 60 + Decimal(Post149[5..7]) == 1260
  {
    assert Post149[3..5] == "21" && Post149[5..7] == "00";
  }

  lemma Post149Clock()
    ensures ReadClock(Post149[3..7]) == Parsed(1260)
  {
    Post149Fields();
    TwentyFourHourReads(Post149, 3, 7, 2, 0, 1260);
  }

  lemma Post149Offset()
    ensures ApplyZone(Post149, 1260) == 1260
  {
    Post149Zone();
  }

  lemma Post149Parsed()
    ensures ParseForFratl(Post149) == Parsed(21 * 60 + 0)
  {
    Post149Search();
    Post149Clock();
    Post149Offset();
    ParseOfMatch(Post149, Match(3, 7, TwentyFourHour));
  }

  /** Sample post 153, excerpt. Hour 11 without am/pm is read as 23:39; AWST adds two hours and wraps past midnight. */
  const Post153 := "11:39 AWST"

  lemma Post153Search()
    ensures Search(Post153) == Some(Match(0, 5, TwentyFourHour))
  {
    assert MatchTwelveHourAt(Post153, 0).None?;
    assert MatchTwentyFourHourAt(Post153, 0) == Some(5);
  }

  lemma Post153Zone()
    ensures ZoneSearch(Post153) == Some(ZoneMatch(6, "awst"))
  {
    ZoneSearchSkips(Post153, 0, 6);
    assert ZoneAt(Post153, 6) == Some("awst");
  }

  lemma Post153Fields()
    ensures TwentyFourHourParts(Post153, 0, 5, 2, 1, 0)
    ensures NightShift(Decimal(Post153[0..2])) * 60 + Decimal(Post153[3..5]) == 1419
  {
    assert Post153[0..2] == "11" && Post153[3..5] == "39";
  }

  lemma Post153Clock()
    ensures ReadClock(Post153[0..5]) == Parsed(1419)
  {
    Post153Fields();
    TwentyFourHourReads(Post153, 0, 5, 2, 1, 1419);
  }

  lemma Post153Offset()
    ensures ApplyZone(Post153, 1419) == 99
  {
    Post153Zone();
  }

  lemma Post153Parsed()
    ensures ParseForFratl(Post153) == Parsed(1 * 60 + 39)
  {
    Post153Search();
    Post153Clock();
    Post153Offset();
    ParseOfMatch(Post153, Match(0, 5, TwentyFourHour));
  }

  /** Sample post 157, excerpt. Unlike the other excerpts it joins two
      separate pieces of the post: its opening `100km` and the time `1:38`
      from later on; the post names no zone. The search finds `100` of
      `100km` first and reads it as 01:00; the post meant 01:38. */
  const Post157 := "100km 1:38"

  lemma Post157Search()
    ensures Search(Post157) == Some(Match(0, 3, TwentyFourHour))
  {
    assert MatchTwelveHourAt(Post157, 0).None?;
    assert MatchTwentyFourHourAt(Post157, 0) == Some(3);
  }

  lemma Post157Zone()
    ensures ZoneSearch(Post157) == None
  {
    ZoneSearchSkips(Post157, 0, 10);
  }

  lemma Post157Fields()
    ensures TwentyFourHourParts(Post157, 0, 3, 1, 0, 0)
    ensures NightShift(Decimal(Post157[0..1])) * 60 + Decimal(Post157[1..3]) == 60
  {
    assert Post157[0..1] == "1" && Post157[1..3] == "00";
  }

  lemma Post157Clock()
    ensures ReadClock(Post157[0..3]) == Parsed(60)
  {
    Post157Fields();
    TwentyFourHourReads(Post157, 0, 3, 1, 0, 60);
  }

  lemma Post157Offset()
    ensures ApplyZone(Post157, 60) == 60
  {
    Post157Zone();
  }

  lemma Post157Parsed()
    ensures ParseForFratl(Post157) == Parsed(1 * 60 + 0)
  {
    Post157Search();
    Post157Clock();
    Post157Offset();
    ParseOfMatch(Post157, Match(0, 3, TwentyFourHour));
  }

  /** Sample post 161, excerpt. The search finds `2020` of `#TdF2020` first and reads it as 20:20; the post meant 02:22. */
  const Post161 := "2020 with a 2.22"

  lemma Post161Search()
    ensures Search(Post161) == Some(Match(0, 4, TwentyFourHour))
  {
    assert MatchTwelveHourAt(Post161, 0).None?;
    assert MatchTwentyFourHourAt(Post161, 0) == Some(4);
  }

  lemma Post161Zone()
    ensures ZoneSearch(Post161) == None
  {
    ZoneSearchSkips(Post161, 0, 16);
  }

  lemma Post161Fields()
    ensures TwentyFourHourParts(Post161, 0, 4, 2, 0, 0)
    ensures NightShift(Decimal(Post161[0..2])) * 60 + Decimal(Post161[2..4]) == 1220
  {
    assert Post161[0..2] == "20" && Post161[2..4] == "20";
  }

  lemma Post161Clock()
    ensures ReadClock(Post161[0..4]) == Parsed(1220)
  {
    Post161Fields();
    TwentyFourHourReads(Post161, 0, 4, 2, 0, 1220);
  }

  lemma Post161Offset()
    ensures ApplyZone(Post161, 1220) == 1220
  {
    Post161Zone();
  }

  lemma Post161Parsed()
    ensures ParseForFratl(Post161) == Parsed(20 * 60 + 20)
  {
    Post161Search();
    Post161Clock();
    Post161Offset();
    ParseOfMatch(Post161, Match(0, 4, TwentyFourHour));
  }

  /** Sample post 164, excerpt. Four digits with hour 12: just after midnight. */
  const Post164 := "of 1222 pls"

  lemma Post164Search()
    ensures Search(Post164) == Some(Match(3, 7, TwentyFourHour))
  {
    SearchSkips(Post164, 0, 3);
    assert MatchTwelveHourAt(Post164, 3).None?;
    assert MatchTwentyFourHourAt(Post164, 3) == Some(7);
  }

  lemma Post164Zone()
    ensures ZoneSearch(Post164) == None
  {
    ZoneSearchSkips(Post164, 0, 11);
  }

  lemma Post164Fields()
    ensures TwentyFourHourParts(Post164, 3, 7, 2, 0, 0)
    ensures NightShift(Decimal(Post164[3..5])) * 60 + Decimal(Post164[5..7]) == 22
  {
    assert Post164[3..5] == "12" && Post164[5..7] == "22";
  }

  lemma Post164Clock()
    ensures ReadClock(Post164[3..7]) == Parsed(22)
  {
    Post164Fields();
    TwentyFourHourReads(Post164, 3, 7, 2, 0, 22);
  }

  lemma Post164Offset()
    ensures ApplyZone(Post164, 22) == 22
  {
    Post164Zone();
  }

  lemma Post164Parsed()
    ensures ParseForFratl(Post164) == Parsed(0 * 60 + 22)
  {
    Post164Search();
    Post164Clock();
    Post164Offset();
    ParseOfMatch(Post164, Match(3, 7, TwentyFourHour));
  }

  /** Sample post 165, excerpt. pm makes 11.33 into 23:33; `#WA` adds two hours and wraps. */
  const Post165 := "11.33pm #WA"

  lemma Post165Search()
    ensures Search(Post165) == Some(Match(0, 7, TwelveHour))
  {
    assert MatchTwelveHourAt(Post165, 0) == Some(7);
  }

  lemma Post165Zone()
    ensures ZoneSearch(Post165) == Some(ZoneMatch(8, "#wa"))
  {
    ZoneSearchSkips(Post165, 0, 8);
    assert ZoneAt(Post165, 8) == Some("#wa");
  }

  lemma Post165Fields()
    ensures TwelveHourParts(Post165, 0, 7, 2, 1, 0, 0)
    ensures Clock12To24(Decimal(Post165[0..2]), IsPm(Post165[5])) * 60 + Decimal(Post165[3..5]) == 1413
  {
    assert Post165[0..2] == "11" && Post165[3..5] == "33";
  }

  lemma Post165Clock()
    ensures ReadClock(Post165[0..7]) == Parsed(1413)
  {
    Post165Fields();
    TwelveHourReads(Post165, 0, 7, 2, 1, 0, 1413);
  }

  lemma Post165Offset()
    ensures ApplyZone(Post165, 1413) == 93
  {
    Post165Zone();
  }

  lemma Post165Parsed()
    ensures ParseForFratl(Post165) == Parsed(1 * 60 + 33)
  {
    Post165Search();
    Post165Clock();
    Post165Offset();
    ParseOfMatch(Post165, Match(0, 7, TwelveHour));
  }

  /** Sample post 167, excerpt. A leading zero. */
  const Post167 := "of 0145 AEST pls"

  lemma Post167Search()
    ensures Search(Post167) == Some(Match(3, 7, TwentyFourHour))
  {
    SearchSkips(Post167, 0, 3);
    assert MatchTwelveHourAt(Post167, 3).None?;
    assert MatchTwentyFourHourAt(Post167, 3) == Some(7);
  }

  lemma Post167Zone()
    ensures ZoneSearch(Post167) == Some(ZoneMatch(8, "aest"))
  {
    ZoneSearchSkips(Post167, 0, 8);
    assert ZoneAt(Post167, 8) == Some("aest");
  }

  lemma Post167Fields()
    ensures TwentyFourHourParts(Post167, 3, 7, 2, 0, 0)
    ensures NightShift(Decimal(Post167[3..5])) * 60 + Decimal(Post167[5..7]) == 105
  {
    assert Post167[3..5] == "01" && Post167[5..7] == "45";
  }

  lemma Post167Clock()
    ensures ReadClock(Post167[3..7]) == Parsed(105)
  {
    Post167Fields();
    TwentyFourHourReads(Post167, 3, 7, 2, 0, 105);
  }

  lemma Post167Offset()
    ensures ApplyZone(Post167, 105) == 105
  {
    Post167Zone();
  }

  lemma Post167Parsed()
    ensures ParseForFratl(Post167) == Parsed(1 * 60 + 45)
  {
    Post167Search();
    Post167Clock();
    Post167Offset();
    ParseOfMatch(Post167, Match(3, 7, TwentyFourHour));
  }

  /** Sample post 170, excerpt. Hour 12 with a colon. */
  const Post170 := "#FRATL 12:22"

  lemma Post170Search()
    ensures Search(Post170) == Some(Match(7, 12, TwentyFourHour))
  {
    SearchSkips(Post170, 0, 7);
    assert MatchTwelveHourAt(Post170, 7).None?;
    assert MatchTwentyFourHourAt(Post170, 7) == Some(12);
  }

  lemma Post170Zone()
    ensures ZoneSearch(Post170) == None
  {
    ZoneSearchSkips(Post170, 0, 12);
  }

  lemma Post170Fields()
    ensures TwentyFourHourParts(Post170, 7, 12, 2, 1, 0)
    ensures NightShift(Decimal(Post170[7..9])) * 60 + Decimal(Post170[10..12]) == 22
  {
    assert Post170[7..9] == "12" && Post170[10..12] == "22";
  }

  lemma Post170Clock()
    ensures ReadClock(Post170[7..12]) == Parsed(22)
  {
    Post170Fields();
    TwentyFourHourReads(Post170, 7, 12, 2, 1, 22);
  }

  lemma Post170Offset()
    ensures ApplyZone(Post170, 22) == 22
  {
    Post170Zone();
  }

  lemma Post170Parsed()
    ensures ParseForFratl(Post170) == Parsed(0 * 60 + 22)
  {
    Post170Search();
    Post170Clock();
    Post170Offset();
    ParseOfMatch(Post170, Match(7, 12, TwentyFourHour));
  }

  /** Sample post 172, excerpt. `EST` is not among the zones, so no offset applies. */
  const Post172 := "2 is 02:28EST"

  lemma Post172Search()
    ensures Search(Post172) == Some(Match(5, 10, TwentyFourHour))
  {
    SearchSkips(Post172, 0, 5);
    assert MatchTwelveHourAt(Post172, 5).None?;
    assert MatchTwentyFourHourAt(Post172, 5) == Some(10);
  }

  lemma Post172Zone()
    ensures ZoneSearch(Post172) == None
  {
    ZoneSearchSkips(Post172, 0, 13);
  }

  lemma Post172Fields()
    ensures TwentyFourHourParts(Post172, 5, 10, 2, 1, 0)
    ensures NightShift(Decimal(Post172[5..7])) * 60 + Decimal(Post172[8..10]) == 148
  {
    assert Post172[5..7] == "02" && Post172[8..10] == "28";
  }

  lemma Post172Clock()
    ensures ReadClock(Post172[5..10]) == Parsed(148)
  {
    Post172Fields();
    TwentyFourHourReads(Post172, 5, 10, 2, 1, 148);
  }

  lemma Post172Offset()
    ensures ApplyZone(Post172, 148) == 148
  {
    Post172Zone();
  }

  lemma Post172Parsed()
    ensures ParseForFratl(Post172) == Parsed(2 * 60 + 28)
  {
    Post172Search();
    Post172Clock();
    Post172Offset();
    ParseOfMatch(Post172, Match(5, 10, TwentyFourHour));
  }

  /** Sample post 175, excerpt. Mis-decoded emoji before the time; a dot separator; AEST. */
  const Post175 := "\U{F0}\U{178}\U{161}\U{A8}  1.48 AEST"

  lemma Post175Search()
    ensures Search(Post175) == Some(Match(6, 10, TwentyFourHour))
  {
    SearchSkips(Post175, 0, 6);
    assert MatchTwelveHourAt(Post175, 6).None?;
    assert MatchTwentyFourHourAt(Post175, 6) == Some(10);
  }

  lemma Post175Zone()
    ensures ZoneSearch(Post175) == Some(ZoneMatch(11, "aest"))
  {
    ZoneSearchSkips(Post175, 0, 11);
    assert ZoneAt(Post175, 11) == Some("aest");
  }

  lemma Post175Fields()
    ensures TwentyFourHourParts(Post175, 6, 10, 1, 1, 0)
    ensures NightShift(Decimal(Post175[6..7])) * 60 + Decimal(Post175[8..10]) == 108
  {
    assert Post175[6..7] == "1" && Post175[8..10] == "48";
  }

  lemma Post175Clock()
    ensures ReadClock(Post175[6..10]) == Parsed(108)
  {
    Post175Fields();
    TwentyFourHourReads(Post175, 6, 10, 1, 1, 108);
  }

  lemma Post175Offset()
    ensures ApplyZone(Post175, 108) == 108
  {
    Post175Zone();
  }

  lemma Post175Parsed()
    ensures ParseForFratl(Post175) == Parsed(1 * 60 + 48)
  {
    Post175Search();
    Post175Clock();
    Post175Offset();
    ParseOfMatch(Post175, Match(6, 10, TwentyFourHour));
  }

  /** Sample post 176, excerpt. am with a one-digit hour. */
  const Post176 := "1.44am #FRATL"

  lemma Post176Search()
    ensures Search(Post176) == Some(Match(0, 6, TwelveHour))
  {
    assert MatchTwelveHourAt(Post176, 0) == Some(6);
  }

  lemma Post176Zone()
    ensures ZoneSearch(Post176) == None
  {
    ZoneSearchSkips(Post176, 0, 13);
  }

  lemma Post176Fields()
    ensures TwelveHourParts(Post176, 0, 6, 1, 1, 0, 0)
    ensures Clock12To24(Decimal(Post176[0..1]), IsPm(Post176[4])) * 60 + Decimal(Post176[2..4]) == 104
  {
    assert Post176[0..1] == "1" && Post176[2..4] == "44";
  }

  lemma Post176Clock()
    ensures ReadClock(Post176[0..6]) == Parsed(104)
  {
    Post176Fields();
    TwelveHourReads(Post176, 0, 6, 1, 1, 0, 104);
  }

  lemma Post176Offset()
    ensures ApplyZone(Post176, 104) == 104
  {
    Post176Zone();
  }

  lemma Post176Parsed()
    ensures ParseForFratl(Post176) == Parsed(1 * 60 + 44)
  {
    Post176Search();
    Post176Clock();
    Post176Offset();
    ParseOfMatch(Post176, Match(0, 6, TwelveHour));
  }

  /** Sample post 178, excerpt. am with a dot separator. */
  const Post178 := "in 2.03am for"

  lemma Post178Search()
    ensures Search(Post178) == Some(Match(3, 9, TwelveHour))
  {
    SearchSkips(Post178, 0, 3);
    assert MatchTwelveHourAt(Post178, 3) == Some(9);
  }

  lemma Post178Zone()
    ensures ZoneSearch(Post178) == None
  {
    ZoneSearchSkips(Post178, 0, 13);
  }

  lemma Post178Fields()
    ensures TwelveHourParts(Post178, 3, 9, 1, 1, 0, 0)
    ensures Clock12To24(Decimal(Post178[3..4]), IsPm(Post178[7])) * 60 + Decimal(Post178[5..7]) == 123
  {
    assert Post178[3..4] == "2" && Post178[5..7] == "03";
  }

  lemma Post178Clock()
    ensures ReadClock(Post178[3..9]) == Parsed(123)
  {
    Post178Fields();
    TwelveHourReads(Post178, 3, 9, 1, 1, 0, 123);
  }

  lemma Post178Offset()
    ensures ApplyZone(Post178, 123) == 123
  {
    Post178Zone();
  }

  lemma Post178Parsed()
    ensures ParseForFratl(Post178) == Parsed(2 * 60 + 3)
  {
    Post178Search();
    Post178Clock();
    Post178Offset();
    ParseOfMatch(Post178, Match(3, 9, TwelveHour));
  }

  /** Sample post 181, excerpt. A colon separator; AEST. */
  const Post181 := "#fratl 2:04 AEST"

  lemma Post181Search()
    ensures Search(Post181) == Some(Match(7, 11, TwentyFourHour))
  {
    SearchSkips(Post181, 0, 7);
    assert MatchTwelveHourAt(Post181, 7).None?;
    assert MatchTwentyFourHourAt(Post181, 7) == Some(11);
  }

  lemma Post181Zone()
    ensures ZoneSearch(Post181) == Some(ZoneMatch(12, "aest"))
  {
    ZoneSearchSkips(Post181, 0, 12);
    assert ZoneAt(Post181, 12) == Some("aest");
  }

  lemma Post181Fields()
    ensures TwentyFourHourParts(Post181, 7, 11, 1, 1, 0)
    ensures NightShift(Decimal(Post181[7..8])) * 60 + Decimal(Post181[9..11]) == 124
  {
    assert Post181[7..8] == "2" && Post181[9..11] == "04";
  }

  lemma Post181Clock()
    ensures ReadClock(Post181[7..11]) == Parsed(124)
  {
    Post181Fields();
    TwentyFourHourReads(Post181, 7, 11, 1, 1, 124);
  }

  lemma Post181Offset()
    ensures ApplyZone(Post181, 124) == 124
  {
    Post181Zone();
  }

  lemma Post181Parsed()
    ensures ParseForFratl(Post181) == Parsed(2 * 60 + 4)
  {
    Post181Search();
    Post181Clock();
    Post181Offset();
    ParseOfMatch(Post181, Match(7, 11, TwentyFourHour));
  }

  /** Sample post 183, excerpt. The search finds `2020` of `2020-covid-season-2` first and reads it as 20:20; the post meant 01:57 AEST, which comes later and is never reached. The excerpt stops before that `AEST`, the post's first zone, so it names no zone; as AEST adds nothing, the result is that of the whole post. */
  const Post183 := "2020-covid"

  lemma Post183Search()
    ensures Search(Post183) == Some(Match(0, 4, TwentyFourHour))
  {
    assert MatchTwelveHourAt(Post183, 0).None?;
    assert MatchTwentyFourHourAt(Post183, 0) == Some(4);
  }

  lemma Post183Zone()
    ensures ZoneSearch(Post183) == None
  {
    ZoneSearchSkips(Post183, 0, 10);
  }

  lemma Post183Fields()
    ensures TwentyFourHourParts(Post183, 0, 4, 2, 0, 0)
    ensures NightShift(Decimal(Post183[0..2])) * 60 + Decimal(Post183[2..4]) == 1220
  {
    assert Post183[0..2] == "20" && Post183[2..4] == "20";
  }

  lemma Post183Clock()
    ensures ReadClock(Post183[0..4]) == Parsed(1220)
  {
    Post183Fields();
    TwentyFourHourReads(Post183, 0, 4, 2, 0, 1220);
  }

  lemma Post183Offset()
    ensures ApplyZone(Post183, 1220) == 1220
  {
    Post183Zone();
  }

  lemma Post183Parsed()
    ensures ParseForFratl(Post183) == Parsed(20 * 60 + 20)
  {
    Post183Search();
    Post183Clock();
    Post183Offset();
    ParseOfMatch(Post183, Match(0, 4, TwentyFourHour));
  }

  /** Sample post 187, excerpt. am in AWST: two hours later. */
  const Post187 := "1.37am awst"

  lemma Post187Search()
    ensures Search(Post187) == Some(Match(0, 6, TwelveHour))
  {
    assert MatchTwelveHourAt(Post187, 0) == Some(6);
  }

  lemma Post187Zone()
    ensures ZoneSearch(Post187) == Some(ZoneMatch(7, "awst"))
  {
    ZoneSearchSkips(Post187, 0, 7);
    assert ZoneAt(Post187, 7) == Some("awst");
  }

  lemma Post187Fields()
    ensures TwelveHourParts(Post187, 0, 6, 1, 1, 0, 0)
    ensures Clock12To24(Decimal(Post187[0..1]), IsPm(Post187[4])) * 60 + Decimal(Post187[2..4]) == 97
  {
    assert Post187[0..1] == "1" && Post187[2..4] == "37";
  }

  lemma Post187Clock()
    ensures ReadClock(Post187[0..6]) == Parsed(97)
  {
    Post187Fields();
    TwelveHourReads(Post187, 0, 6, 1, 1, 0, 97);
  }

  lemma Post187Offset()
    ensures ApplyZone(Post187, 97) == 217
  {
    Post187Zone();
  }

  lemma Post187Parsed()
    ensures ParseForFratl(Post187) == Parsed(3 * 60 + 37)
  {
    Post187Search();
    Post187Clock();
    Post187Offset();
    ParseOfMatch(Post187, Match(0, 6, TwelveHour));
  }

  /** Sample post 191, excerpt. A space before am; ACST adds half an hour. */
  const Post191 := "1:58 am acst"

  lemma Post191Search()
    ensures Search(Post191) == Some(Match(0, 7, TwelveHour))
  {
    assert MatchTwelveHourAt(Post191, 0) == Some(7);
  }

  lemma Post191Zone()
    ensures ZoneSearch(Post191) == Some(ZoneMatch(8, "acst"))
  {
    ZoneSearchSkips(Post191, 0, 8);
    assert ZoneAt(Post191, 8) == Some("acst");
  }

  lemma Post191Fields()
    ensures TwelveHourParts(Post191, 0, 7, 1, 1, 0, 1)
    ensures Clock12To24(Decimal(Post191[0..1]), IsPm(Post191[5])) * 60 + Decimal(Post191[2..4]) == 118
  {
    assert Post191[0..1] == "1" && Post191[2..4] == "58";
  }

  lemma Post191Clock()
    ensures ReadClock(Post191[0..7]) == Parsed(118)
  {
    Post191Fields();
    TwelveHourReads(Post191, 0, 7, 1, 1, 1, 118);
  }

  lemma Post191Offset()
    ensures ApplyZone(Post191, 118) == 148
  {
    Post191Zone();
  }

  lemma Post191Parsed()
    ensures ParseForFratl(Post191) == Parsed(2 * 60 + 28)
  {
    Post191Search();
    Post191Clock();
    Post191Offset();
    ParseOfMatch(Post191, Match(0, 7, TwelveHour));
  }

  /** Hour 12 without am/pm is read as 00. */
  const ExampleNoonHour := "1234"

  lemma ExampleNoonHourSearch()
    ensures Search(ExampleNoonHour) == Some(Match(0, 4, TwentyFourHour))
  {
    assert MatchTwelveHourAt(ExampleNoonHour, 0).None?;
    assert MatchTwentyFourHourAt(ExampleNoonHour, 0) == Some(4);
  }

  lemma ExampleNoonHourZone()
    ensures ZoneSearch(ExampleNoonHour) == None
  {
    ZoneSearchSkips(ExampleNoonHour, 0, 4);
  }

  lemma ExampleNoonHourFields()
    ensures TwentyFourHourParts(ExampleNoonHour, 0, 4, 2, 0, 0)
    ensures NightShift(Decimal(ExampleNoonHour[0..2])) * 60 + Decimal(ExampleNoonHour[2..4]) == 34
  {
    assert ExampleNoonHour[0..2] == "12" && ExampleNoonHour[2..4] == "34";
  }

  lemma ExampleNoonHourClock()
    ensures ReadClock(ExampleNoonHour[0..4]) == Parsed(34)
  {
    ExampleNoonHourFields();
    TwentyFourHourReads(ExampleNoonHour, 0, 4, 2, 0, 34);
  }

  lemma ExampleNoonHourOffset()
    ensures ApplyZone(ExampleNoonHour, 34) == 34
  {
    ExampleNoonHourZone();
  }

  lemma ExampleNoonHourParsed()
    ensures ParseForFratl(ExampleNoonHour) == Parsed(0 * 60 + 34)
  {
    ExampleNoonHourSearch();
    ExampleNoonHourClock();
    ExampleNoonHourOffset();
    ParseOfMatch(ExampleNoonHour, Match(0, 4, TwentyFourHour));
  }

  /** Three digits gain a leading zero before the colon goes in. */
  const ExampleThreeDigits := "159"

  lemma ExampleThreeDigitsSearch()
    ensures Search(ExampleThreeDigits) == Some(Match(0, 3, TwentyFourHour))
  {
    assert MatchTwelveHourAt(ExampleThreeDigits, 0).None?;
    assert MatchTwentyFourHourAt(ExampleThreeDigits, 0) == Some(3);
  }

  lemma ExampleThreeDigitsZone()
    ensures ZoneSearch(ExampleThreeDigits) == None
  {
    ZoneSearchSkips(ExampleThreeDigits, 0, 3);
  }

  lemma ExampleThreeDigitsFields()
    ensures TwentyFourHourParts(ExampleThreeDigits, 0, 3, 1, 0, 0)
    ensures NightShift(Decimal(ExampleThreeDigits[0..1])) * 60 + Decimal(ExampleThreeDigits[1..3]) == 119
  {
    assert ExampleThreeDigits[0..1] == "1" && ExampleThreeDigits[1..3] == "59";
  }

  lemma ExampleThreeDigitsClock()
    ensures ReadClock(ExampleThreeDigits[0..3]) == Parsed(119)
  {
    ExampleThreeDigitsFields();
    TwentyFourHourReads(ExampleThreeDigits, 0, 3, 1, 0, 119);
  }

  lemma ExampleThreeDigitsOffset()
    ensures ApplyZone(ExampleThreeDigits, 119) == 119
  {
    ExampleThreeDigitsZone();
  }

  lemma ExampleThreeDigitsParsed()
    ensures ParseForFratl(ExampleThreeDigits) == Parsed(1 * 60 + 59)
  {
    ExampleThreeDigitsSearch();
    ExampleThreeDigitsClock();
    ExampleThreeDigitsOffset();
    ParseOfMatch(ExampleThreeDigits, Match(0, 3, TwentyFourHour));
  }

  /** `24` is no hour, so the match is `240`, read as 02:40. */
  const ExampleNoHour24 := "2400"

  lemma ExampleNoHour24Search()
    ensures Search(ExampleNoHour24) == Some(Match(0, 3, TwentyFourHour))
  {
    assert MatchTwelveHourAt(ExampleNoHour24, 0).None?;
    assert MatchTwentyFourHourAt(ExampleNoHour24, 0) == Some(3);
  }

  lemma ExampleNoHour24Zone()
    ensures ZoneSearch(ExampleNoHour24) == None
  {
    ZoneSearchSkips(ExampleNoHour24, 0, 4);
  }

  lemma ExampleNoHour24Fields()
    ensures TwentyFourHourParts(ExampleNoHour24, 0, 3, 1, 0, 0)
    ensures NightShift(Decimal(ExampleNoHour24[0..1])) * 60 + Decimal(ExampleNoHour24[1..3]) == 160
  {
    assert ExampleNoHour24[0..1] == "2" && ExampleNoHour24[1..3] == "40";
  }

  lemma ExampleNoHour24Clock()
    ensures ReadClock(ExampleNoHour24[0..3]) == Parsed(160)
  {
    ExampleNoHour24Fields();
    TwentyFourHourReads(ExampleNoHour24, 0, 3, 1, 0, 160);
  }

  lemma ExampleNoHour24Offset()
    ensures ApplyZone(ExampleNoHour24, 160) == 160
  {
    ExampleNoHour24Zone();
  }

  lemma ExampleNoHour24Parsed()
    ensures ParseForFratl(ExampleNoHour24) == Parsed(2 * 60 + 40)
  {
    ExampleNoHour24Search();
    ExampleNoHour24Clock();
    ExampleNoHour24Offset();
    ParseOfMatch(ExampleNoHour24, Match(0, 3, TwentyFourHour));
  }

  /** `wa` needs a boundary only after it, so it matches inside `Iowa`. */
  const ExampleIowa := "9.15 Iowa"

  lemma ExampleIowaSearch()
    ensures Search(ExampleIowa) == Some(Match(0, 4, TwentyFourHour))
  {
    assert MatchTwelveHourAt(ExampleIowa, 0).None?;
    assert MatchTwentyFourHourAt(ExampleIowa, 0) == Some(4);
  }

  lemma ExampleIowaZone()
    ensures ZoneSearch(ExampleIowa) == Some(ZoneMatch(7, "wa"))
  {
    ZoneSearchSkips(ExampleIowa, 0, 7);
    assert ZoneAt(ExampleIowa, 7) == Some("wa");
  }

  lemma ExampleIowaFields()
    ensures TwentyFourHourParts(ExampleIowa, 0, 4, 1, 1, 0)
    ensures NightShift(Decimal(ExampleIowa[0..1])) * 60 + Decimal(ExampleIowa[2..4]) == 555
  {
    assert ExampleIowa[0..1] == "9" && ExampleIowa[2..4] == "15";
  }

  lemma ExampleIowaClock()
    ensures ReadClock(ExampleIowa[0..4]) == Parsed(555)
  {
    ExampleIowaFields();
    TwentyFourHourReads(ExampleIowa, 0, 4, 1, 1, 555);
  }

  lemma ExampleIowaOffset()
    ensures ApplyZone(ExampleIowa, 555) == 675
  {
    ExampleIowaZone();
  }

  lemma ExampleIowaParsed()
    ensures ParseForFratl(ExampleIowa) == Parsed(11 * 60 + 15)
  {
    ExampleIowaSearch();
    ExampleIowaClock();
    ExampleIowaOffset();
    ParseOfMatch(ExampleIowa, Match(0, 4, TwentyFourHour));
  }

  /** 12 pm is noon. */
  const ExampleNoonPm := "12.05pm"

  lemma ExampleNoonPmSearch()
    ensures Search(ExampleNoonPm) == Some(Match(0, 7, TwelveHour))
  {
    assert MatchTwelveHourAt(ExampleNoonPm, 0) == Some(7);
  }

  lemma ExampleNoonPmZone()
    ensures ZoneSearch(ExampleNoonPm) == None
  {
    ZoneSearchSkips(ExampleNoonPm, 0, 7);
  }

  lemma ExampleNoonPmFields()
    ensures TwelveHourParts(ExampleNoonPm, 0, 7, 2, 1, 0, 0)
    ensures Clock12To24(Decimal(ExampleNoonPm[0..2]), IsPm(ExampleNoonPm[5])) * 60 + Decimal(ExampleNoonPm[3..5]) == 725
  {
    assert ExampleNoonPm[0..2] == "12" && ExampleNoonPm[3..5] == "05";
  }

  lemma ExampleNoonPmClock()
    ensures ReadClock(ExampleNoonPm[0..7]) == Parsed(725)
  {
    ExampleNoonPmFields();
    TwelveHourReads(ExampleNoonPm, 0, 7, 2, 1, 0, 725);
  }

  lemma ExampleNoonPmOffset()
    ensures ApplyZone(ExampleNoonPm, 725) == 725
  {
    ExampleNoonPmZone();
  }

  lemma ExampleNoonPmParsed()
    ensures ParseForFratl(ExampleNoonPm) == Parsed(12 * 60 + 5)
  {
    ExampleNoonPmSearch();
    ExampleNoonPmClock();
    ExampleNoonPmOffset();
    ParseOfMatch(ExampleNoonPm, Match(0, 7, TwelveHour));
  }

  /** 12 am is midnight; upper-case AM and the space are accepted. */
  const ExampleMidnightAm := "12:05 AM"

  lemma ExampleMidnightAmSearch()
    ensures Search(ExampleMidnightAm) == Some(Match(0, 8, TwelveHour))
  {
    assert MatchTwelveHourAt(ExampleMidnightAm, 0) == Some(8);
  }

  lemma ExampleMidnightAmZone()
    ensures ZoneSearch(ExampleMidnightAm) == None
  {
    ZoneSearchSkips(ExampleMidnightAm, 0, 8);
  }

  lemma ExampleMidnightAmFields()
    ensures TwelveHourParts(ExampleMidnightAm, 0, 8, 2, 1, 0, 1)
    ensures Clock12To24(Decimal(ExampleMidnightAm[0..2]), IsPm(ExampleMidnightAm[6])) * 60 + Decimal(ExampleMidnightAm[3..5]) == 5
  {
    assert ExampleMidnightAm[0..2] == "12" && ExampleMidnightAm[3..5] == "05";
  }

  lemma ExampleMidnightAmClock()
    ensures ReadClock(ExampleMidnightAm[0..8]) == Parsed(5)
  {
    ExampleMidnightAmFields();
    TwelveHourReads(ExampleMidnightAm, 0, 8, 2, 1, 1, 5);
  }

  lemma ExampleMidnightAmOffset()
    ensures ApplyZone(ExampleMidnightAm, 5) == 5
  {
    ExampleMidnightAmZone();
  }

  lemma ExampleMidnightAmParsed()
    ensures ParseForFratl(ExampleMidnightAm) == Parsed(0 * 60 + 5)
  {
    ExampleMidnightAmSearch();
    ExampleMidnightAmClock();
    ExampleMidnightAmOffset();
    ParseOfMatch(ExampleMidnightAm, Match(0, 8, TwelveHour));
  }


  /** A seconds field matches the pattern but not `%H:%M`: the parser raises. */
  const ExampleSeconds := "at 1:23:45 AEST"

  lemma ExampleSecondsRaise()
    ensures ParseForFratl(ExampleSeconds) == StrptimeError
  {
    assert SearchFrom(ExampleSeconds, 3) == Some(Match(3, 10, TwentyFourHour)) by {
      assert MatchTwelveHourAt(ExampleSeconds, 3).None?;
      assert MatchTwentyFourHourAt(ExampleSeconds, 3) == Some(10);
    }
    assert TwentyFourHourParts(ExampleSeconds, 3, 10, 1, 1, 3);
    ParseTwentyFourHourFound(ExampleSeconds, 3, 10, 1, 1, 3);
  }

  /** The same with pm: the seconds are left over before `%p`. */
  const ExampleSecondsPm := "1.23.45pm"

  lemma ExampleSecondsPmRaise()
    ensures ParseForFratl(ExampleSecondsPm) == StrptimeError
  {
    assert MatchTwelveHourAt(ExampleSecondsPm, 0) == Some(9);
    assert TwelveHourParts(ExampleSecondsPm, 0, 9, 1, 1, 3, 0);
    ParseTwelveHourFound(ExampleSecondsPm, 0, 9, 1, 1, 3, 0);
  }


  /** A twelve-hour match whose fields are known to denote c reads as c. */
  lemma TwelveHourReads(s: string, i: nat, j: nat, h: nat, sep: nat, sp: nat, c: nat)
    requires TwelveHourParts(s, i, j, h, sep, 0, sp)
    requires Hour12Field(s[i..i + h]) && MinuteField(s[i + h + sep..i + h + sep + 2])
    requires Clock12To24(Decimal(s[i..i + h]), IsPm(s[j - 2])) * 60 + Decimal(s[i + h + sep..i + h + sep + 2]) == c
    ensures ReadClock(s[i..j]) == Parsed(c)
  {
    TwelveHourReadingPlain(s, i, j, h, sep, sp);
  }

  /** A twenty-four-hour match whose fields are known to denote c reads as c. */
  lemma TwentyFourHourReads(s: string, i: nat, j: nat, h: nat, sep: nat, c: nat)
    requires TwentyFourHourParts(s, i, j, h, sep, 0)
    requires Hour24Field(s[i..i + h]) && MinuteField(s[i + h + sep..i + h + sep + 2])
    requires NightShift(Decimal(s[i..i + h])) * 60 + Decimal(s[i + h + sep..i + h + sep + 2]) == c
    ensures ReadClock(s[i..j]) == Parsed(c)
  {
    TwentyFourHourReadingPlain(s, i, j, h, sep);
  }

}
