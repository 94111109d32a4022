/** The zone pattern `(aest\b|awst\b|acst\b|wa\b|\B#wa\b)` searched with
    `re.IGNORECASE`, and the offset each matched zone adds. Word characters
    and case folding are ASCII-only here. */
module ZonePattern {
  import opened Text

  /** The lower-cased spellings the pattern can match. */
  const ZoneTokens: set<string> := {"aest", "awst", "acst", "wa", "#wa"}

  /** The characters of s from p on spell w, ignoring ASCII case. */
  predicate SpellsAt(s: string, p: nat, w: string)
  {
    p + |w| <= |s| && forall k :: 0 <= k < |w| ==> Lower(s[p + k]) == w[k]
  }

  /** `\b` at p: a word character on exactly one side; outside the text
      counts as a non-word character. */
  predicate WordBoundaryAt(s: string, p: nat)
  {
    (0 < p <= |s| && IsWordChar(s[p - 1])) != (p < |s| && IsWordChar(s[p]))
  }

  /** `\B` at p; Python's engine never finds it in the empty string. */
  predicate NonBoundaryAt(s: string, p: nat)
  {
    |s| > 0 && !WordBoundaryAt(s, p)
  }

  /** Declaratively: the zone token w occurs at p as the pattern requires:
      a boundary after it and, for `#wa`, none before it. */
  predicate ZoneOccursAt(s: string, p: nat, w: string)
  {
    && w in ZoneTokens
    && SpellsAt(s, p, w)
    && WordBoundaryAt(s, p + |w|)
    && (w == "#wa" ==> NonBoundaryAt(s, p))
  }

  /** The lower-cased character at p, or a space past the end of the text
      (no token contains a space). */
  function LowerAt(s: string, p: nat): char
  {
    if p < |s| then Lower(s[p]) else ' '
  }

  /** The token w, two to four characters long, read character by character
      from p, ignoring ASCII case. */
  predicate ReadsAt(s: string, p: nat, w: string)
    requires 2 <= |w| <= 4
  {
    && LowerAt(s, p) == w[0] && LowerAt(s, p + 1) == w[1]
    && (|w| >= 3 ==> LowerAt(s, p + 2) == w[2])
    && (|w| == 4 ==> LowerAt(s, p + 3) == w[3])
  }

  /** The pattern's alternatives tried in order at p, grouped by the first
      character each needs; the result is `zone.group().lower()`. */
  function ZoneAt(s: string, p: nat): Option<string>
  {
    var c := LowerAt(s, p);
    if c == 'a' then
      if ReadsAt(s, p, "aest") && WordBoundaryAt(s, p + 4) then Some("aest")
      else if ReadsAt(s, p, "awst") && WordBoundaryAt(s, p + 4) then Some("awst")
      else if ReadsAt(s, p, "acst") && WordBoundaryAt(s, p + 4) then Some("acst")
      else None
    else if c == 'w' then
      if ReadsAt(s, p, "wa") && WordBoundaryAt(s, p + 2) then Some("wa") else None
    else if c == '#' then
      if NonBoundaryAt(s, p) && ReadsAt(s, p, "#wa") && WordBoundaryAt(s, p + 3) then Some("#wa") else None
    else None
  }

  /** Spelling a token is reading its characters, lower-cased, one by one. */
  lemma SpellsAtChars(s: string, p: nat, w: string)
    requires w in ZoneTokens
    ensures SpellsAt(s, p, w) <==> ReadsAt(s, p, w)
  {
    assert 2 <= |w| <= 4 && w[|w| - 1] != ' ';
    if ReadsAt(s, p, w) {
      assert LowerAt(s, p + |w| - 1) == w[|w| - 1];
      forall k | 0 <= k < |w|
        ensures Lower(s[p + k]) == w[k]
      {
        assert LowerAt(s, p + k) == w[k];
      }
    }
  }

  /** At most one zone token occurs at any position, so the order of the
      alternatives never decides the outcome. */
  lemma ZoneTokenUnique(s: string, p: nat, w1: string, w2: string)
    requires ZoneOccursAt(s, p, w1) && ZoneOccursAt(s, p, w2)
    ensures w1 == w2
  {
    assert Lower(s[p]) == w1[0] == w2[0];
    if w1[0] == 'a' {
      assert Lower(s[p + 1]) == w1[1] == w2[1];
    }
  }

  /** The alternatives at p find exactly the zone token that occurs there. */
  lemma ZoneAtSpec(s: string, p: nat)
    ensures ZoneAt(s, p).Some? ==> ZoneOccursAt(s, p, ZoneAt(s, p).value)
    ensures ZoneAt(s, p).None? ==> forall w :: !ZoneOccursAt(s, p, w)
  {
    SpellsAtChars(s, p, "aest");
    SpellsAtChars(s, p, "awst");
    SpellsAtChars(s, p, "acst");
    SpellsAtChars(s, p, "wa");
    SpellsAtChars(s, p, "#wa");
  }

  datatype ZoneMatch = ZoneMatch(start: nat, token: string)

  function ZoneSearchFrom(s: string, i: nat): Option<ZoneMatch>
    requires i <= |s|
    decreases |s| - i
  {
    if i == |s| then None
    else match ZoneAt(s, i)
      case Some(w) => Some(ZoneMatch(i, w))
      case None => ZoneSearchFrom(s, i + 1)
  }

  /** The search passes over a stretch where no zone token starts. */
  lemma {:induction false} ZoneSearchSkips(s: string, i: nat, k: nat)
    requires i <= k <= |s|
    requires forall p :: i <= p < k ==> ZoneAt(s, p).None?
    ensures ZoneSearchFrom(s, i) == ZoneSearchFrom(s, k)
    decreases k - i
  {
    if i < k {
      ZoneSearchSkips(s, i + 1, k);
    }
  }

  /** `re.search(zone_regexpr, text, re.IGNORECASE)`, lower-cased. */
  function ZoneSearch(s: string): Option<ZoneMatch>
  {
    ZoneSearchFrom(s, 0)
  }

  /** The leftmost zone token wins. */
  lemma {:induction false} ZoneSearchFromSpec(s: string, i: nat)
    requires i <= |s|
    ensures ZoneSearchFrom(s, i).None? ==> forall k: nat, w :: i <= k ==> !ZoneOccursAt(s, k, w)
    ensures ZoneSearchFrom(s, i).Some? ==>
              var z := ZoneSearchFrom(s, i).value;
              && i <= z.start
              && ZoneOccursAt(s, z.start, z.token)
              && forall k: nat, w :: i <= k < z.start ==> !ZoneOccursAt(s, k, w)
    decreases |s| - i
  {
    if i < |s| {
      ZoneAtSpec(s, i);
      if ZoneAt(s, i).None? {
        ZoneSearchFromSpec(s, i + 1);
      }
    } else {
      forall k, w | i <= k
        ensures !ZoneOccursAt(s, k, w)
      {
        assert w in ZoneTokens ==> |w| > 0;
      }
    }
  }

  lemma ZoneSearchSpec(s: string)
    ensures ZoneSearch(s).None? <==> forall k: nat, w :: !ZoneOccursAt(s, k, w)
    ensures ZoneSearch(s).Some? ==>
              var z := ZoneSearch(s).value;
              && ZoneOccursAt(s, z.start, z.token)
              && forall k: nat, w :: k < z.start ==> !ZoneOccursAt(s, k, w)
  {
    ZoneSearchFromSpec(s, 0);
  }

  /** Every zone token ends in a letter, so text without letters names no zone. */
  lemma ZoneEndsInLetter(s: string, p: nat, w: string)
    requires ZoneOccursAt(s, p, w)
    ensures IsUpper(s[p + |w| - 1]) || IsLower(s[p + |w| - 1])
  {
    assert Lower(s[p + |w| - 1]) == w[|w| - 1];
  }

  /** Minutes added for a matched zone: `awst`, `wa` and
      `#wa` two hours, `acst` half an hour, anything else nothing. */
  function OffsetMinutes(token: string): int
  {
    if token == "awst" || token == "wa" || token == "#wa" then 120
    else if token == "acst" then 30
    else 0
  }

  /** The offsets as a table: minutes that bring a time in each zone to the target clock. */
  const OffsetTable: map<string, nat> :=
    map["aest" := 0, "awst" := 120, "acst" := 30, "wa" := 120, "#wa" := 120]

  /** The branching in the source agrees with the table on every zone the
      pattern can match. */
  lemma OffsetMatchesTable(w: string)
    requires w in ZoneTokens
    ensures w in OffsetTable && OffsetMinutes(w) == OffsetTable[w]
  {
  }

  /** Text without letters names no zone. */
  lemma NoLettersNoZone(s: string)
    requires forall k :: 0 <= k < |s| ==> !IsUpper(s[k]) && !IsLower(s[k])
    ensures forall k: nat, w :: !ZoneOccursAt(s, k, w)
  {
    forall k: nat, w
      ensures !ZoneOccursAt(s, k, w)
    {
      if ZoneOccursAt(s, k, w) {
        ZoneEndsInLetter(s, k, w);
      }
    }
  }
}
