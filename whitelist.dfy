/**
 * The "clean strange characters" button of app.py: `re.sub` with the class
 * `[^a-zA-Z0-9#b7m\sáéíóúÁÉÍÓÚñÑ+]` and an empty replacement, which deletes
 * every character outside the class.
 */
module Whitelist {
  import opened Wrappers
  import opened CharClasses
  import opened Substitution

  /** The accented vowels and `ñ` the class lists besides ASCII. */
  const SpanishLetters: string := "áéíóúÁÉÍÓÚñÑ"

  /** Membership in `[a-zA-Z0-9#b7m\sáéíóúÁÉÍÓÚñÑ+]`, member by member as the class lists them. */
  predicate Allowed(cc: Classes, c: char) {
    || 'a' <= c <= 'z'
    || 'A' <= c <= 'Z'
    || '0' <= c <= '9'
    || c == '#' || c == 'b' || c == '7' || c == 'm'
    || cc.space(c)
    || c in SpanishLetters
    || c == '+'
  }

  /** The negated class as a matcher: one character long wherever that character is not allowed. */
  function StrangeMatcher(cc: Classes): (m: Matcher)
    ensures forall s :: Advances(m, s)
  {
    (t: string, p: nat) => if p < |t| && !Allowed(cc, t[p]) then Some(1) else None
  }

  /** The empty replacement. */
  function Drop(t: string): string { [] }

  /** `re.sub(r'[^a-zA-Z0-9#b7m\sáéíóúÁÉÍÓÚñÑ+]', '', letra_raw)`. */
  function Clean(cc: Classes, s: string): string {
    Render(Scan(StrangeMatcher(cc), s), Drop)
  }

  /** The reference definition: the allowed characters of `s`, in order. */
  function Filter(cc: Classes, s: string): (r: string)
    ensures |r| <= |s|
    ensures forall i :: 0 <= i < |r| ==> Allowed(cc, r[i])
    decreases |s|
  {
    if s == [] then [] else (if Allowed(cc, s[0]) then [s[0]] else []) + Filter(cc, s[1..])
  }

  lemma FilterCons(cc: Classes, c: char, s: string)
    ensures Filter(cc, [c] + s) == (if Allowed(cc, c) then [c] else []) + Filter(cc, s)
  {
    assert ([c] + s)[1..] == s;
  }

  lemma {:induction false} CleanFromIsFilter(cc: Classes, s: string, i: nat)
    requires i <= |s|
    ensures Render(ScanFrom(StrangeMatcher(cc), s, i), Drop) == Filter(cc, s[i..])
    decreases |s| - i
  {
    if i < |s| {
      var m := StrangeMatcher(cc);
      assert s[i..] == [s[i]] + s[i + 1..];
      FilterCons(cc, s[i], s[i + 1..]);
      CleanFromIsFilter(cc, s, i + 1);
      if Allowed(cc, s[i]) {
        ScanFromNoMatch(m, s, i);
        RenderCons(Copied(i, s[i]), ScanFrom(m, s, i + 1), Drop);
      } else {
        ScanFromMatch(m, s, i, 1);
        RenderCons(Wrapped(i, s[i..i + 1]), ScanFrom(m, s, i + 1), Drop);
      }
    }
  }

  /** The substitution deletes exactly the characters outside the class and keeps the others in order. */
  lemma CleanIsFilter(cc: Classes, s: string)
    ensures Clean(cc, s) == Filter(cc, s)
  {
    CleanFromIsFilter(cc, s, 0);
  }

  /** Every character of the cleaned text is in the class. */
  lemma CleanAllowed(cc: Classes, s: string)
    ensures forall i :: 0 <= i < |Clean(cc, s)| ==> Allowed(cc, Clean(cc, s)[i])
  {
    CleanIsFilter(cc, s);
  }

  /** Each allowed character occurs as often as in the input, each other character not at all. */
  lemma {:induction false} FilterCounts(cc: Classes, s: string, c: char)
    ensures multiset(Filter(cc, s))[c] == if Allowed(cc, c) then multiset(s)[c] else 0
    decreases |s|
  {
    if s != [] {
      FilterCounts(cc, s[1..], c);
      assert s == [s[0]] + s[1..];
    }
  }

  /** `a` is a subsequence of `b`: `a` is `b` with some characters deleted, the rest in order. */
  predicate IsSubsequence(a: string, b: string)
    decreases |b|
  {
    if b == [] then a == []
    else (a != [] && a[0] == b[0] && IsSubsequence(a[1..], b[1..])) || IsSubsequence(a, b[1..])
  }

  /** The cleaned text is the input with characters deleted, the remaining ones in their original order. */
  lemma {:induction false} FilterIsSubsequence(cc: Classes, s: string)
    ensures IsSubsequence(Filter(cc, s), s)
    decreases |s|
  {
    if s != [] {
      FilterIsSubsequence(cc, s[1..]);
      var r := Filter(cc, s[1..]);
      if Allowed(cc, s[0]) {
        assert ([s[0]] + r)[1..] == r;
      } else {
        assert Filter(cc, s) == r;
      }
    }
  }

  lemma {:induction false} SubsequenceCounts(a: string, b: string, x: char)
    requires IsSubsequence(a, b)
    ensures multiset(a)[x] <= multiset(b)[x]
    decreases |b|
  {
    if b != [] {
      assert b == [b[0]] + b[1..];
      if a != [] && a[0] == b[0] && IsSubsequence(a[1..], b[1..]) {
        SubsequenceCounts(a[1..], b[1..], x);
        assert a == [a[0]] + a[1..];
      } else {
        SubsequenceCounts(a, b[1..], x);
      }
    }
  }

  /**
   * The three properties pin the cleaned text down: a subsequence of the input
   * that holds only allowed characters and every allowed character of the
   * input as often as the input does is the cleaned text.
   */
  lemma {:induction false} FilterCharacterized(cc: Classes, s: string, r: string)
    requires IsSubsequence(r, s)
    requires forall i :: 0 <= i < |r| ==> Allowed(cc, r[i])
    requires forall x :: Allowed(cc, x) ==> multiset(r)[x] == multiset(s)[x]
    ensures r == Filter(cc, s)
    decreases |s|
  {
    if s != [] {
      var c, t := s[0], s[1..];
      assert s == [c] + t;
      if r != [] && r[0] == c && IsSubsequence(r[1..], t) {
        assert r == [c] + r[1..];
        forall x | Allowed(cc, x) ensures multiset(r[1..])[x] == multiset(t)[x] {
        }
        forall i | 0 <= i < |r[1..]| ensures Allowed(cc, r[1..][i]) {
          assert r[1..][i] == r[i + 1];
        }
        FilterCharacterized(cc, t, r[1..]);
      } else if Allowed(cc, c) {
        assert multiset(r)[c] == multiset(s)[c];
        SubsequenceCounts(r, t, c);
        assert false;
      } else {
        forall x | Allowed(cc, x) ensures multiset(r)[x] == multiset(t)[x] {
        }
        FilterCharacterized(cc, t, r);
      }
    }
  }

  /** The filter leaves a text unchanged exactly when every character of it is allowed. */
  lemma {:induction false} FilterUnchangedIff(cc: Classes, s: string)
    ensures Filter(cc, s) == s <==> forall i :: 0 <= i < |s| ==> Allowed(cc, s[i])
    decreases |s|
  {
    if s != [] {
      FilterUnchangedIff(cc, s[1..]);
      if Allowed(cc, s[0]) {
        assert forall i :: 1 <= i < |s| ==> s[1..][i - 1] == s[i];
      } else {
        assert |Filter(cc, s)| < |s|;
      }
    }
  }

  /** Cleaning twice is cleaning once. */
  lemma CleanIdempotent(cc: Classes, s: string)
    ensures Clean(cc, Clean(cc, s)) == Clean(cc, s)
  {
    CleanIsFilter(cc, s);
    CleanIsFilter(cc, Clean(cc, s));
    FilterUnchangedIff(cc, Filter(cc, s));
  }

  /** Cleaning works character by character, so it distributes over concatenation. */
  lemma {:induction false} FilterAppend(cc: Classes, a: string, b: string)
    ensures Filter(cc, a + b) == Filter(cc, a) + Filter(cc, b)
    decreases |a|
  {
    if a == [] {
      assert a + b == b;
    } else {
      FilterAppend(cc, a[1..], b);
      assert (a + b)[0] == a[0] && (a + b)[1..] == a[1..] + b;
      var h := if Allowed(cc, a[0]) then [a[0]] else [];
      assert Filter(cc, a + b) == h + (Filter(cc, a[1..]) + Filter(cc, b));
      assert h + (Filter(cc, a[1..]) + Filter(cc, b)) == (h + Filter(cc, a[1..])) + Filter(cc, b);
    }
  }

  /** A text of allowed characters only comes back as it is. */
  lemma AllAllowedUnchanged(cc: Classes, s: string)
    requires forall i :: 0 <= i < |s| ==> Allowed(cc, s[i])
    ensures Filter(cc, s) == s
  {
    FilterUnchangedIff(cc, s);
  }

  /** A text without any allowed character is cleaned away entirely. */
  lemma {:induction false} NoneAllowedErased(cc: Classes, s: string)
    requires forall i :: 0 <= i < |s| ==> !Allowed(cc, s[i])
    ensures Filter(cc, s) == []
    decreases |s|
  {
    if s != [] {
      assert forall i :: 0 <= i < |s[1..]| ==> s[1..][i] == s[i + 1];
      NoneAllowedErased(cc, s[1..]);
    }
  }

  /** Cleaning keeps the allowed pieces of a text and erases the others. */
  lemma CleanPieces(cc: Classes, a: string, b: string, c: string, d: string)
    requires Filter(cc, a) == a && Filter(cc, b) == [] && Filter(cc, c) == c && Filter(cc, d) == []
    ensures Clean(cc, a + b + c + d) == a + c
  {
    FilterAppend(cc, a + b + c, d);
    FilterAppend(cc, a + b, c);
    FilterAppend(cc, a, b);
    CleanIsFilter(cc, a + b + c + d);
  }

  /** The pieces of the editor's placeholder lyric, cleaned one by one. */
  lemma PlaceholderHeadKept(cc: Classes)
    ensures Filter(cc, "Tú") == "Tú"
  {
    assert 'ú' in SpanishLetters;
    AllAllowedUnchanged(cc, "Tú");
  }

  lemma PlaceholderWordsKept(cc: Classes)
    requires AsciiAgrees(cc)
    ensures Filter(cc, " has venido a la orilla") == " has venido a la orilla"
  {
    AllAllowedUnchanged(cc, " has venido a la orilla");
  }

  lemma PunctuationErased(cc: Classes)
    requires AsciiAgrees(cc)
    ensures Filter(cc, ",") == [] && Filter(cc, "...") == []
  {
    NoneAllowedErased(cc, ",");
    NoneAllowedErased(cc, "...");
  }

  /**
   * The editor's placeholder lyric `Tú, has venido a la orilla...` loses its
   * comma and its dots, and keeps the accented `ú`.
   */
  lemma CleanPlaceholder(cc: Classes)
    requires AsciiAgrees(cc)
    ensures Clean(cc, "Tú" + "," + " has venido a la orilla" + "...") == "Tú" + " has venido a la orilla"
  {
    PlaceholderHeadKept(cc);
    PlaceholderWordsKept(cc);
    PunctuationErased(cc);
    CleanPieces(cc, "Tú", ",", " has venido a la orilla", "...");
  }
}
