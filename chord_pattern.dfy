/**
 * The chord pattern of app.py, `\b([A-G][#b]?(m|maj|7|9|sus\d|dim|aug|add\d)?)\b`,
 * matched at one position the way Python's backtracking engine does it.
 *
 * `ChordShape`, `Boundary` and `IsMatch` say declaratively which substrings the
 * pattern accepts; `MatchAt` is the engine's choice among them.  The lemmas show
 * that `MatchAt` finds a match exactly when one exists and, for Python's
 * character classes, that it picks the longest one.
 */
module ChordPattern {
  import opened Wrappers
  import opened CharClasses

  predicate IsRootLetter(c: char) { 'A' <= c <= 'G' }

  predicate IsAccidental(c: char) { c == '#' || c == 'b' }

  /** One alternative of the group `(m|maj|7|9|sus\d|dim|aug|add\d)`. */
  predicate IsQuality(cc: Classes, q: string) {
    || q == "m" || q == "maj" || q == "7" || q == "9" || q == "dim" || q == "aug"
    || (|q| == 4 && (q[..3] == "sus" || q[..3] == "add") && cc.digit(q[3]))
  }

  /** `[A-G][#b]?(m|maj|7|9|sus\d|dim|aug|add\d)?`: a root, at most one accidental, at most one quality. */
  predicate ChordShape(cc: Classes, t: string) {
    && |t| >= 1
    && IsRootLetter(t[0])
    && (|| |t| == 1
        || IsQuality(cc, t[1..])
        || (IsAccidental(t[1]) && (|t| == 2 || IsQuality(cc, t[2..]))))
  }

  predicate WordBefore(cc: Classes, s: string, i: nat) { 0 < i <= |s| && cc.word(s[i - 1]) }

  predicate WordAt(cc: Classes, s: string, i: nat) { i < |s| && cc.word(s[i]) }

  /** `\b` at position `i`: exactly one of the characters around `i` is a word character. */
  predicate Boundary(cc: Classes, s: string, i: nat) { WordBefore(cc, s, i) != WordAt(cc, s, i) }

  /** The pattern accepts the `n` characters of `s` that start at `i`. */
  predicate IsMatch(cc: Classes, s: string, i: nat, n: nat) {
    && i + n <= |s|
    && Boundary(cc, s, i)
    && Boundary(cc, s, i + n)
    && ChordShape(cc, s[i..i + n])
  }

  /** The character at `j` is `c`. */
  predicate At(s: string, j: nat, c: char) { j < |s| && s[j] == c }

  predicate DigitAt(cc: Classes, s: string, j: nat) { j < |s| && cc.digit(s[j]) }

  /**
   * Where the `k`-th way of matching the optional group at `j` ends, in
   * Python's order: the eight alternatives left to right (0 to 7), then the
   * group skipped (8).
   */
  function AltEnd(cc: Classes, s: string, j: nat, k: nat): (e: Option<nat>)
    requires j <= |s|
    ensures e.Some? ==> j <= e.value <= |s|
    ensures k == 8 <==> e == Some(j)
  {
    if k == 0 then
      if At(s, j, 'm') then Some(j + 1) else None
    else if k == 1 then
      if At(s, j, 'm') && At(s, j + 1, 'a') && At(s, j + 2, 'j') then Some(j + 3) else None
    else if k == 2 then
      if At(s, j, '7') then Some(j + 1) else None
    else if k == 3 then
      if At(s, j, '9') then Some(j + 1) else None
    else if k == 4 then
      if At(s, j, 's') && At(s, j + 1, 'u') && At(s, j + 2, 's') && DigitAt(cc, s, j + 3) then Some(j + 4) else None
    else if k == 5 then
      if At(s, j, 'd') && At(s, j + 1, 'i') && At(s, j + 2, 'm') then Some(j + 3) else None
    else if k == 6 then
      if At(s, j, 'a') && At(s, j + 1, 'u') && At(s, j + 2, 'g') then Some(j + 3) else None
    else if k == 7 then
      if At(s, j, 'a') && At(s, j + 1, 'd') && At(s, j + 2, 'd') && DigitAt(cc, s, j + 3) then Some(j + 4) else None
    else if k == 8 then Some(j)
    else None
  }

  /** The `k`-th way succeeds: its end is followed by the closing `\b`. */
  predicate ValidAlt(cc: Classes, s: string, j: nat, k: nat)
    requires j <= |s|
  {
    AltEnd(cc, s, j, k).Some? && Boundary(cc, s, AltEnd(cc, s, j, k).value)
  }

  /** The first of ways `k`, `k + 1`, ..., 8 that is followed by `\b`: Python's backtracking over the group. */
  function SuffixFrom(cc: Classes, s: string, j: nat, k: nat): (e: Option<nat>)
    requires j <= |s|
    ensures e.Some? ==> j <= e.value <= |s| && Boundary(cc, s, e.value)
    decreases 9 - k
  {
    if k >= 9 then None
    else if ValidAlt(cc, s, j, k) then AltEnd(cc, s, j, k)
    else SuffixFrom(cc, s, j, k + 1)
  }

  /** Each of the first eight ways matches one alternative of the group. */
  lemma AltEndQuality(cc: Classes, s: string, j: nat, k: nat)
    requires j <= |s| && AltEnd(cc, s, j, k).Some? && k != 8
    ensures j < AltEnd(cc, s, j, k).value && IsQuality(cc, s[j..AltEnd(cc, s, j, k).value])
  {
    var q := s[j..AltEnd(cc, s, j, k).value];
    if k == 1 { assert q == "maj"; }
    else if k == 4 { assert q[..3] == "sus"; }
    else if k == 5 { assert q == "dim"; }
    else if k == 6 { assert q == "aug"; }
    else if k == 7 { assert q[..3] == "add"; }
    else if k == 0 { assert q == "m"; }
    else if k == 2 { assert q == "7"; }
    else if k == 3 { assert q == "9"; }
  }

  /** What the group matches is an alternative of it, or nothing. */
  lemma {:induction false} SuffixFromQuality(cc: Classes, s: string, j: nat, k: nat)
    requires j <= |s|
    ensures var e := SuffixFrom(cc, s, j, k); e.Some? && e.value != j ==> IsQuality(cc, s[j..e.value])
    decreases 9 - k
  {
    if k < 9 {
      if ValidAlt(cc, s, j, k) {
        if k != 8 { AltEndQuality(cc, s, j, k); }
      } else {
        SuffixFromQuality(cc, s, j, k + 1);
      }
    }
  }

  /**
   * The length of the match Python's engine finds at `i`, if any: the opening
   * `\b`, a root letter, then the accidental taken (greedy) if present, and
   * only if no way of finishing the match after it exists, the accidental
   * left out.
   */
  function MatchAt(cc: Classes, s: string, i: nat): (r: Option<nat>)
    requires i <= |s|
    ensures r.Some? ==> 1 <= r.value && i + r.value <= |s|
  {
    if i < |s| && Boundary(cc, s, i) && IsRootLetter(s[i]) then
      var viaAccidental := if i + 1 < |s| && IsAccidental(s[i + 1]) then SuffixFrom(cc, s, i + 2, 0) else None;
      var e := if viaAccidental.Some? then viaAccidental else SuffixFrom(cc, s, i + 1, 0);
      if e.Some? then Some(e.value - i) else None
    else None
  }

  /** A root and an accidental at `i`, then a quality or nothing up to `e` followed by `\b`, is a match. */
  lemma ShapeWithAccidental(cc: Classes, s: string, i: nat, e: nat)
    requires i + 2 <= e <= |s| && Boundary(cc, s, i) && Boundary(cc, s, e)
    requires IsRootLetter(s[i]) && IsAccidental(s[i + 1]) && (e == i + 2 || IsQuality(cc, s[i + 2..e]))
    ensures IsMatch(cc, s, i, e - i)
  {
    var t := s[i..e];
    assert t[0] == s[i] && t[1] == s[i + 1] && t[2..] == s[i + 2..e];
  }

  /** A root at `i`, then a quality or nothing up to `e` followed by `\b`, is a match. */
  lemma ShapeWithoutAccidental(cc: Classes, s: string, i: nat, e: nat)
    requires i + 1 <= e <= |s| && Boundary(cc, s, i) && Boundary(cc, s, e)
    requires IsRootLetter(s[i]) && (e == i + 1 || IsQuality(cc, s[i + 1..e]))
    ensures IsMatch(cc, s, i, e - i)
  {
    var t := s[i..e];
    assert t[0] == s[i] && t[1..] == s[i + 1..e];
  }

  /** The matcher is sound: what it finds, the pattern accepts. */
  lemma MatchAtSound(cc: Classes, s: string, i: nat)
    requires i <= |s|
    ensures MatchAt(cc, s, i).Some? ==> IsMatch(cc, s, i, MatchAt(cc, s, i).value)
  {
    if MatchAt(cc, s, i).Some? {
      var viaAccidental := if i + 1 < |s| && IsAccidental(s[i + 1]) then SuffixFrom(cc, s, i + 2, 0) else None;
      if viaAccidental.Some? {
        SuffixFromQuality(cc, s, i + 2, 0);
        ShapeWithAccidental(cc, s, i, viaAccidental.value);
      } else {
        var e := SuffixFrom(cc, s, i + 1, 0);
        assert MatchAt(cc, s, i) == Some(e.value - i);
        SuffixFromQuality(cc, s, i + 1, 0);
        ShapeWithoutAccidental(cc, s, i, e.value);
      }
    }
  }

  /** Which way of matching the group accounts for the quality (or the empty group) `s[j..e]`. */
  lemma AlternativeOf(cc: Classes, s: string, j: nat, e: nat) returns (k: nat)
    requires j <= e <= |s|
    requires e == j || IsQuality(cc, s[j..e])
    ensures k < 9 && AltEnd(cc, s, j, k) == Some(e)
  {
    var q := s[j..e];
    if e == j { k := 8; }
    else if q == "m" { k := 0; }
    else if q == "maj" { k := 1; }
    else if q == "7" { k := 2; }
    else if q == "9" { k := 3; }
    else if q == "dim" { k := 5; }
    else if q == "aug" { k := 6; }
    else {
      assert |q| == 4 && q[..3] == s[j..j + 3] && q[3] == s[j + 3];
      k := if q[..3] == "sus" then 4 else 7;
    }
  }

  lemma {:induction false} SuffixFromFinds(cc: Classes, s: string, j: nat, k: nat, k1: nat)
    requires j <= |s| && k <= k1 < 9 && ValidAlt(cc, s, j, k1)
    ensures SuffixFrom(cc, s, j, k).Some?
    decreases k1 - k
  {
    if k < k1 && !ValidAlt(cc, s, j, k) {
      SuffixFromFinds(cc, s, j, k + 1, k1);
    }
  }

  /** The matcher misses nothing: if the pattern accepts some substring at `i`, `MatchAt` finds a match there. */
  lemma MatchAtComplete(cc: Classes, s: string, i: nat, n: nat)
    requires IsMatch(cc, s, i, n)
    ensures MatchAt(cc, s, i).Some?
  {
    var t := s[i..i + n];
    if |t| == 1 || IsQuality(cc, t[1..]) {
      assert t[1..] == s[i + 1..i + n];
      var k := AlternativeOf(cc, s, i + 1, i + n);
      SuffixFromFinds(cc, s, i + 1, 0, k);
    } else {
      assert t[2..] == s[i + 2..i + n];
      var k := AlternativeOf(cc, s, i + 2, i + n);
      SuffixFromFinds(cc, s, i + 2, 0, k);
    }
  }

  /** With Python's classes, only `m` and `maj` can both start at `j`, and then `m` is not followed by `\b`. */
  lemma AlternativesExclusive(cc: Classes, s: string, j: nat, k1: nat, k2: nat)
    requires AsciiAgrees(cc)
    requires j <= |s| && k1 < k2 < 8 && AltEnd(cc, s, j, k2).Some?
    ensures !ValidAlt(cc, s, j, k1)
  {
    if k1 == 0 && k2 == 1 {
      assert cc.word(s[j]) && cc.word(s[j + 1]);
    }
  }

  lemma {:induction false} SuffixFromLongest(cc: Classes, s: string, j: nat, k: nat, k1: nat)
    requires AsciiAgrees(cc)
    requires j <= |s| && k <= k1 < 9 && ValidAlt(cc, s, j, k1)
    ensures SuffixFrom(cc, s, j, k).Some?
    ensures AltEnd(cc, s, j, k1).value <= SuffixFrom(cc, s, j, k).value
    decreases k1 - k
  {
    if ValidAlt(cc, s, j, k) {
      if k < k1 < 8 {
        AlternativesExclusive(cc, s, j, k, k1);
      }
    } else {
      SuffixFromLongest(cc, s, j, k + 1, k1);
    }
  }

  /** No quality starts with an accidental. */
  lemma QualityNotAccidental(cc: Classes, s: string, j: nat, e: nat)
    requires j < e <= |s| && IsQuality(cc, s[j..e])
    ensures !IsAccidental(s[j])
  {
    assert s[j..e][0] == s[j];
    if e - j == 4 { assert s[j..e][..3][0] == s[j]; }
  }

  lemma LongestWithAccidental(cc: Classes, s: string, i: nat, n: nat)
    requires AsciiAgrees(cc)
    requires 2 <= n && i + n <= |s| && Boundary(cc, s, i) && IsRootLetter(s[i]) && IsAccidental(s[i + 1])
    requires (n == 2 || IsQuality(cc, s[i + 2..i + n])) && Boundary(cc, s, i + n)
    ensures MatchAt(cc, s, i).Some? && n <= MatchAt(cc, s, i).value
  {
    var k := AlternativeOf(cc, s, i + 2, i + n);
    SuffixFromLongest(cc, s, i + 2, 0, k);
  }

  lemma LongestWithoutAccidental(cc: Classes, s: string, i: nat, n: nat)
    requires AsciiAgrees(cc)
    requires 1 <= n && i + n <= |s| && Boundary(cc, s, i) && IsRootLetter(s[i])
    requires (n == 1 || IsQuality(cc, s[i + 1..i + n])) && Boundary(cc, s, i + n)
    ensures MatchAt(cc, s, i).Some? && n <= MatchAt(cc, s, i).value
  {
    if n > 1 {
      QualityNotAccidental(cc, s, i + 1, i + n);
    }
    var k := AlternativeOf(cc, s, i + 1, i + n);
    SuffixFromLongest(cc, s, i + 1, 0, k);
  }

  /**
   * With Python's classes, the engine's backtracking order picks the longest
   * substring the pattern accepts at `i`.
   */
  lemma MatchAtLongest(cc: Classes, s: string, i: nat, n: nat)
    requires AsciiAgrees(cc)
    requires IsMatch(cc, s, i, n)
    ensures MatchAt(cc, s, i).Some? && n <= MatchAt(cc, s, i).value
  {
    var t := s[i..i + n];
    assert t[0] == s[i];
    if |t| >= 2 && IsAccidental(t[1]) && (|t| == 2 || IsQuality(cc, t[2..])) {
      assert t[1] == s[i + 1] && t[2..] == s[i + 2..i + n];
      LongestWithAccidental(cc, s, i, n);
    } else {
      assert t[1..] == s[i + 1..i + n];
      LongestWithoutAccidental(cc, s, i, n);
    }
  }
}
