/** Strings as Python's `str` methods see them, restricted to what the FRATL
    parser uses: ASCII character classes, `lower`, `replace`, `find`, slicing
    with clamped bounds, digit counting and `int()` of a decimal field. */
module Text {

  datatype Option<+T> = None | Some(value: T)

  predicate IsDigit(c: char) { '0' <= c <= '9' }

  predicate IsUpper(c: char) { 'A' <= c <= 'Z' }

  predicate IsLower(c: char) { 'a' <= c <= 'z' }

  /** `\w` in the ASCII approximation used throughout: letters, digits, `_`. */
  predicate IsWordChar(c: char) { IsDigit(c) || IsUpper(c) || IsLower(c) || c == '_' }

  /** ASCII `str.lower` of one character. */
  function Lower(c: char): (r: char)
    ensures IsUpper(c) ==> IsLower(r) && r as int - 'a' as int == c as int - 'A' as int
    ensures !IsUpper(c) ==> r == c
  {
    if IsUpper(c) then (c as int - 'A' as int + 'a' as int) as char else c
  }

  /** `s.lower()` */
  function LowerStr(s: string): (r: string)
    ensures |r| == |s|
  {
    seq(|s|, k requires 0 <= k < |s| => Lower(s[k]))
  }

  /** Upper-case letters become lower-case ones and every other character,
      digits, separators and spaces among them, stays. */
  lemma LowerStrKeeps(s: string)
    ensures forall k :: 0 <= k < |s| ==> if IsUpper(s[k]) then IsLower(LowerStr(s)[k]) else LowerStr(s)[k] == s[k]
  {
  }

  /** Lower-casing twice is lower-casing once. */
  lemma LowerStrIdempotent(s: string)
    ensures LowerStr(LowerStr(s)) == LowerStr(s)
  {
    var r := LowerStr(s);
    assert forall k :: 0 <= k < |r| ==> !IsUpper(r[k]);
  }

  /** `s.replace(c, rep)` for a one-character `c`: every occurrence of `c`
      is replaced, left to right. */
  function ReplaceAll(s: string, c: char, rep: string): string
  {
    if s == [] then []
    else (if s[0] == c then rep else [s[0]]) + ReplaceAll(s[1..], c, rep)
  }

  lemma {:induction false} ReplaceAllAppend(a: string, b: string, c: char, rep: string)
    ensures ReplaceAll(a + b, c, rep) == ReplaceAll(a, c, rep) + ReplaceAll(b, c, rep)
  {
    if a == [] {
      assert a + b == b;
    } else {
      assert (a + b)[1..] == a[1..] + b;
      ReplaceAllAppend(a[1..], b, c, rep);
    }
  }

  /** Replacing a character by another character rewrites the string in place. */
  lemma {:induction false} ReplaceAllByChar(s: string, c: char, d: char)
    ensures |ReplaceAll(s, c, [d])| == |s|
    ensures forall k :: 0 <= k < |s| ==> ReplaceAll(s, c, [d])[k] == (if s[k] == c then d else s[k])
  {
    if s != [] {
      ReplaceAllByChar(s[1..], c, d);
    }
  }

  /** A character that does not occur is not replaced. */
  lemma {:induction false} ReplaceAllAbsent(s: string, c: char, rep: string)
    requires forall k :: 0 <= k < |s| ==> s[k] != c
    ensures ReplaceAll(s, c, rep) == s
  {
    if s != [] {
      ReplaceAllAbsent(s[1..], c, rep);
    }
  }

  /** `sub` occurs in `s` starting at index `k`. */
  predicate OccursAt(s: string, sub: string, k: int)
  {
    0 <= k && k + |sub| <= |s| && s[k..k + |sub|] == sub
  }

  /** `s.find(sub)`: the first index where `sub` occurs, or -1. */
  function Find(s: string, sub: string): (r: int)
    ensures r == -1 || OccursAt(s, sub, r)
  {
    FindFrom(s, sub, 0)
  }

  function FindFrom(s: string, sub: string, from: nat): (r: int)
    ensures r == -1 || (from <= r && OccursAt(s, sub, r))
    decreases |s| - from
  {
    if from + |sub| > |s| then -1
    else if s[from..from + |sub|] == sub then from
    else FindFrom(s, sub, from + 1)
  }

  /** The search from `from` misses no earlier occurrence. */
  lemma {:induction false} FindFromFirst(s: string, sub: string, from: nat)
    ensures FindFrom(s, sub, from) == -1 ==> forall k :: from <= k <= |s| - |sub| ==> !OccursAt(s, sub, k)
    ensures FindFrom(s, sub, from) >= 0 ==> forall k :: from <= k < FindFrom(s, sub, from) ==> !OccursAt(s, sub, k)
    decreases |s| - from
  {
    if from + |sub| <= |s| && s[from..from + |sub|] != sub {
      FindFromFirst(s, sub, from + 1);
    }
  }

  /** `find` returns the first occurrence, and -1 only when there is none. */
  lemma FindFirst(s: string, sub: string)
    ensures Find(s, sub) == -1 <==> forall k :: 0 <= k <= |s| - |sub| ==> !OccursAt(s, sub, k)
    ensures Find(s, sub) >= 0 ==> forall k :: 0 <= k < Find(s, sub) ==> !OccursAt(s, sub, k)
  {
    FindFromFirst(s, sub, 0);
    if Find(s, sub) >= 0 {
      assert OccursAt(s, sub, Find(s, sub));
    }
  }

  /** `s.find(c)` for a single character is -1 exactly when c does not occur. */
  lemma FindCharAbsent(s: string, c: char)
    ensures Find(s, [c]) == -1 <==> forall k :: 0 <= k < |s| ==> s[k] != c
  {
    FindFirst(s, [c]);
    if Find(s, [c]) == -1 {
      forall k | 0 <= k < |s|
        ensures s[k] != c
      {
        if s[k] == c {
          assert s[k..k + 1] == [c];
          assert OccursAt(s, [c], k);
        }
      }
    } else {
      var r := Find(s, [c]);
      assert s[r..r + 1] == [c];
      assert s[r] == c;
    }
  }

  /** `s.replace(pat, rep, 1)`: only the first occurrence is replaced. */
  function ReplaceFirst(s: string, pat: string, rep: string): (r: string)
  {
    var k := Find(s, pat);
    if k == -1 then s else s[..k] + rep + s[k + |pat|..]
  }

  /** When `s` starts with `pat`, the first replacement rewrites that prefix. */
  lemma ReplaceFirstAtStart(s: string, pat: string, rep: string)
    requires |pat| <= |s| && s[..|pat|] == pat
    ensures ReplaceFirst(s, pat, rep) == rep + s[|pat|..]
  {
    FindFirst(s, pat);
    assert OccursAt(s, pat, 0);
  }

  /** A slice is the concatenation of the slices that partition it. */
  lemma SliceSplit3(s: string, a: nat, b: nat, c: nat, d: nat)
    requires a <= b <= c <= d <= |s|
    ensures s[a..d] == s[a..b] + s[b..c] + s[c..d]
  {
    assert s[a..d] == s[a..c] + s[c..d];
    assert s[a..c] == s[a..b] + s[b..c];
  }


  lemma SliceSplit(s: string, a: nat, b: nat, c: nat, d: nat, e: nat)
    requires a <= b <= c <= d <= e <= |s|
    ensures s[a..e] == s[a..b] + s[b..c] + s[c..d] + s[d..e]
  {
    assert s[a..e] == s[a..d] + s[d..e];
    assert s[a..d] == s[a..c] + s[c..d];
    assert s[a..c] == s[a..b] + s[b..c];
  }

  /** `s[:n]` */
  function Take(s: string, n: nat): (r: string)
    ensures |r| == if n <= |s| then n else |s|
    ensures r <= s
  {
    if n <= |s| then s[..n] else s
  }

  /** `s[n:]` */
  function Drop(s: string, n: nat): (r: string)
    ensures Take(s, n) + r == s
  {
    if n <= |s| then s[n..] else []
  }

  /** `s[-n:]` for n >= 1 (`s[-0:]` would be the whole of s). */
  function Last(s: string, n: nat): (r: string)
    requires 0 < n
    ensures |r| == if n <= |s| then n else |s|
    ensures s == Take(s, |s| - |r|) + r
  {
    if n <= |s| then s[|s| - n..] else s
  }

  /** `sum(c.isdigit() for c in s)` with ASCII digits. */
  function CountDigits(s: string): (r: nat)
    ensures r <= |s|
  {
    if s == [] then 0
    else (if IsDigit(s[0]) then 1 else 0) + CountDigits(s[1..])
  }

  /** All characters are digits exactly when all are counted, and none is
      exactly when none are. */
  lemma {:induction false} CountDigitsSpec(s: string)
    ensures CountDigits(s) == |s| <==> forall k :: 0 <= k < |s| ==> IsDigit(s[k])
    ensures CountDigits(s) == 0 <==> forall k :: 0 <= k < |s| ==> !IsDigit(s[k])
  {
    if s != [] {
      CountDigitsSpec(s[1..]);
      assert forall k :: 1 <= k < |s| ==> s[k] == s[1..][k - 1];
    }
  }

  lemma {:induction false} CountDigitsAppend(a: string, b: string)
    ensures CountDigits(a + b) == CountDigits(a) + CountDigits(b)
  {
    if a == [] {
      assert a + b == b;
    } else {
      assert (a + b)[1..] == a[1..] + b;
      CountDigitsAppend(a[1..], b);
    }
  }

  function DigitValue(c: char): nat
    requires IsDigit(c)
  {
    c as int - '0' as int
  }

  /** One or two ASCII digits: the only fields `int()` is applied to. */
  predicate DigitField(s: string)
  {
    (|s| == 1 || |s| == 2) && IsDigit(s[0]) && IsDigit(s[|s| - 1])
  }

  /** `int(s)` for a field of one or two ASCII digits, the only field
      widths the clock formats admit. */
  function Decimal(s: string): (r: nat)
    requires DigitField(s)
    ensures r < 100 && (|s| == 1 ==> r < 10)
  {
    if |s| == 1 then DigitValue(s[0]) else 10 * DigitValue(s[0]) + DigitValue(s[1])
  }
}
