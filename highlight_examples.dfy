/**
 * The chord highlighter's pass on concrete inputs, proved under Python's
 * character classes: which chord spellings of a song sheet get coloured, and
 * which do not.
 */
module HighlightExamples {
  import opened Wrappers
  import opened CharClasses
  import opened ChordPattern
  import opened Substitution
  import opened Highlighter

  /** A chord is a root, an optional accidental and a quality of at most four characters. */
  lemma ChordShapeShort(cc: Classes, t: string)
    requires ChordShape(cc, t)
    ensures |t| <= 6
  {
  }

  /** Where the pattern accepts nothing, the pass copies the character and moves on. */
  lemma CopiedAt(cc: Classes, s: string, i: nat)
    requires i < |s|
    requires forall n: nat :: !IsMatch(cc, s, i, n)
    ensures ScanFrom(ChordMatcher(cc), s, i) == [Copied(i, s[i])] + ScanFrom(ChordMatcher(cc), s, i + 1)
  {
    MatchAtSound(cc, s, i);
    ChordMatcherIsMatchAt(cc, s, i);
    ScanFromNoMatch(ChordMatcher(cc), s, i);
  }

  /** The engine takes the longest match. */
  lemma LongestIsMatchAt(cc: Classes, s: string, i: nat, n: nat)
    requires AsciiAgrees(cc)
    requires IsMatch(cc, s, i, n)
    requires forall n': nat :: n < n' ==> !IsMatch(cc, s, i, n')
    ensures MatchAt(cc, s, i) == Some(n)
  {
    MatchAtLongest(cc, s, i, n);
    MatchAtSound(cc, s, i);
  }

  /** Where `n` is the longest match, the pass wraps those `n` characters and resumes after them. */
  lemma WrappedAt(cc: Classes, s: string, i: nat, n: nat)
    requires AsciiAgrees(cc)
    requires IsMatch(cc, s, i, n)
    requires forall n': nat :: n < n' ==> !IsMatch(cc, s, i, n')
    ensures ScanFrom(ChordMatcher(cc), s, i) == [Wrapped(i, s[i..i + n])] + ScanFrom(ChordMatcher(cc), s, i + n)
  {
    LongestIsMatchAt(cc, s, i, n);
    ChordMatcherIsMatchAt(cc, s, i);
    ScanFromMatch(ChordMatcher(cc), s, i, n);
  }

  /** No match starts at a character that is not a chord letter. */
  lemma NoMatchOffRoot(cc: Classes, s: string, i: nat)
    requires i < |s| && !IsRootLetter(s[i])
    ensures forall n: nat :: !IsMatch(cc, s, i, n)
  {
  }

  /** In `C#m7` the longest match at the start is `C#`. */
  lemma SharpBeforeQualityMatch(cc: Classes, s: string)
    requires AsciiAgrees(cc) && s == "C#m7"
    ensures IsMatch(cc, s, 0, 2)
    ensures forall n: nat :: 2 < n ==> !IsMatch(cc, s, 0, n)
  {
    assert s[0..2] == "C#";
    forall n: nat | 2 < n ensures !IsMatch(cc, s, 0, n) {
      if n == 3 {
        assert cc.word(s[2]) && cc.word(s[3]);
      } else if n == 4 {
        assert s[0..4][2..] == "m7";
      }
    }
  }

  /** The pass over `C#m7` wraps `C#` and copies `m` and `7`. */
  lemma SharpBeforeQualityChords(cc: Classes, s: string)
    requires AsciiAgrees(cc) && s == "C#m7"
    ensures Chords(cc, s) == [Wrapped(0, "C#"), Copied(2, 'm'), Copied(3, '7')]
  {
    var m := ChordMatcher(cc);
    SharpBeforeQualityMatch(cc, s);
    WrappedAt(cc, s, 0, 2);
    NoMatchOffRoot(cc, s, 2);
    CopiedAt(cc, s, 2);
    NoMatchOffRoot(cc, s, 3);
    CopiedAt(cc, s, 3);
    assert ScanFrom(m, s, 4) == [];
    assert s[0..2] == "C#";
  }

  /** `C#m7`: the sharp ends the match, because `\b` sits between `#` and `m`; `m7` stays plain. */
  lemma SharpBeforeQuality(cc: Classes, color: string)
    requires AsciiAgrees(cc)
    ensures Highlight(cc, "C#m7", color) == SpanOpen(color) + "C#" + SpanClose + "m7"
  {
    SharpBeforeQualityChords(cc, "C#m7");
    var repl := SpanReplacement(color);
    RenderCons(Copied(3, '7'), [], repl);
    RenderCons(Copied(2, 'm'), [Copied(3, '7')], repl);
    RenderCons(Wrapped(0, "C#"), [Copied(2, 'm'), Copied(3, '7')], repl);
  }

  /** A line of Latin chord names is not highlighted at all. */
  lemma LatinLineUnchanged(cc: Classes, color: string)
    requires AsciiAgrees(cc)
    ensures Highlight(cc, "Do Re Mi Fa Sol La Si", color) == "Do Re Mi Fa Sol La Si"
  {
    var s := "Do Re Mi Fa Sol La Si";
    forall i: nat, n: nat ensures !IsMatch(cc, s, i, n) {
      if i == 0 {
        LatinNameNoMatch(cc, s, 0, "Do");
      } else if i == 9 {
        assert s[9..11] == "Fa";
        LatinNameNoMatch(cc, s, 9, "Fa");
      } else if i < |s| {
        NoMatchOffRoot(cc, s, i);
      }
    }
    NoMatchUnchanged(cc, s, color);
  }

  /** No match starts at `Am7` or `Cmaj7` in `Am7 Cmaj7`: neither `m7` nor `maj7` is a quality of the pattern. */
  lemma ExtendedChordsNoMatch(cc: Classes, i: nat, n: nat)
    requires AsciiAgrees(cc)
    ensures !IsMatch(cc, "Am7 Cmaj7", i, n)
  {
    var s := "Am7 Cmaj7";
    if i == 0 && 1 <= n <= 6 {
      assert cc.word(s[1]) && cc.word(s[2]);
      if n >= 3 {
        var q := s[0..n][1..];
        assert q == s[1..n];
        assert q[0] == s[1] && q[1] == s[2];
      }
    } else if i == 4 && 1 <= n <= 5 {
      assert cc.word(s[5]) && cc.word(s[6]) && cc.word(s[7]) && cc.word(s[8]);
      if n == 3 {
        assert s[4..7][1..] == "ma";
      } else if n == 5 {
        var q := s[4..9][1..];
        assert q == "maj7" && q[..3] == "maj";
      }
    } else if i < |s| && !IsRootLetter(s[i]) {
      NoMatchOffRoot(cc, s, i);
    } else if i < |s| && n > 6 {
      if IsMatch(cc, s, i, n) {
        ChordShapeShort(cc, s[i..i + n]);
      }
    }
  }

  /** `Am7 Cmaj7` is not highlighted: the pattern has no `m7` or `maj7` quality and `\b` rejects the prefixes. */
  lemma ExtendedChordsUnchanged(cc: Classes, color: string)
    requires AsciiAgrees(cc)
    ensures Highlight(cc, "Am7 Cmaj7", color) == "Am7 Cmaj7"
  {
    forall i: nat, n: nat ensures !IsMatch(cc, "Am7 Cmaj7", i, n) {
      ExtendedChordsNoMatch(cc, i, n);
    }
    NoMatchUnchanged(cc, "Am7 Cmaj7", color);
  }

  /** In `C# ` the longest match at the start is `C`: after `#` a space is no word boundary. */
  lemma SharpAloneMatch(cc: Classes, s: string)
    requires AsciiAgrees(cc) && s == "C# "
    ensures IsMatch(cc, s, 0, 1)
    ensures forall n: nat :: 1 < n ==> !IsMatch(cc, s, 0, n)
  {
    assert s[0..1] == "C";
    forall n: nat | 1 < n ensures !IsMatch(cc, s, 0, n) {
      if n == 3 {
        assert s[0..3][1..] == "# " && s[0..3][2..] == " ";
      }
    }
  }

  /** The pass over `C# ` wraps `C` and copies `#` and the space. */
  lemma SharpAloneChords(cc: Classes, s: string)
    requires AsciiAgrees(cc) && s == "C# "
    ensures Chords(cc, s) == [Wrapped(0, "C"), Copied(1, '#'), Copied(2, ' ')]
  {
    var m := ChordMatcher(cc);
    SharpAloneMatch(cc, s);
    WrappedAt(cc, s, 0, 1);
    NoMatchOffRoot(cc, s, 1);
    CopiedAt(cc, s, 1);
    NoMatchOffRoot(cc, s, 2);
    CopiedAt(cc, s, 2);
    assert ScanFrom(m, s, 3) == [];
    assert s[0..1] == "C";
  }

  /** `C# ` (a sharp chord before a space, as on a chord line) colours only the letter: the `#` stays outside the span. */
  lemma SharpAlone(cc: Classes, color: string)
    requires AsciiAgrees(cc)
    ensures Highlight(cc, "C# ", color) == SpanOpen(color) + "C" + SpanClose + "# "
  {
    SharpAloneChords(cc, "C# ");
    var repl := SpanReplacement(color);
    RenderCons(Copied(2, ' '), [], repl);
    RenderCons(Copied(1, '#'), [Copied(2, ' ')], repl);
    RenderCons(Wrapped(0, "C"), [Copied(1, '#'), Copied(2, ' ')], repl);
  }

  /** In `Faug Fa` the longest match at the start is `Faug`. */
  lemma FaugMatch(cc: Classes, s: string)
    requires AsciiAgrees(cc) && s == "Faug Fa"
    ensures IsMatch(cc, s, 0, 4)
    ensures forall n: nat :: 4 < n ==> !IsMatch(cc, s, 0, n)
  {
    assert s[0..4] == "Faug" && s[0..4][1..] == "aug";
    forall n: nat | 4 < n ensures !IsMatch(cc, s, 0, n) {
      if n == 5 {
        assert s[0..5][1..][..3] == "aug";
      }
    }
  }

  /** No match starts at the closing `Fa` of `Faug Fa`. */
  lemma FaNoMatchAtEnd(cc: Classes, s: string)
    requires AsciiAgrees(cc) && s == "Faug Fa"
    ensures forall n: nat :: !IsMatch(cc, s, 5, n)
  {
    assert s[5..7] == "Fa";
    LatinNameNoMatch(cc, s, 5, "Fa");
  }

  /** After `Faug` the pass copies ` Fa` character by character. */
  lemma FaugTail(cc: Classes, s: string)
    requires AsciiAgrees(cc) && s == "Faug Fa"
    ensures ScanFrom(ChordMatcher(cc), s, 4) == [Copied(4, ' '), Copied(5, 'F'), Copied(6, 'a')]
  {
    FaNoMatchAtEnd(cc, s);
    NoMatchOffRoot(cc, s, 4);
    CopiedAt(cc, s, 4);
    CopiedAt(cc, s, 5);
    NoMatchOffRoot(cc, s, 6);
    CopiedAt(cc, s, 6);
    assert ScanFrom(ChordMatcher(cc), s, 7) == [];
  }

  /** The pass over `Faug Fa` wraps `Faug` and copies the rest. */
  lemma FaugChords(cc: Classes, s: string)
    requires AsciiAgrees(cc) && s == "Faug Fa"
    ensures Chords(cc, s) == [Wrapped(0, "Faug")] + [Copied(4, ' '), Copied(5, 'F'), Copied(6, 'a')]
  {
    assert s[0..4] == "Faug";
    FaugMatch(cc, s);
    WrappedAt(cc, s, 0, 4);
    FaugTail(cc, s);
  }

  /** `Fa` as a word is left alone, but a word made of `F` and a quality is a chord: `Faug Fa` colours `Faug`. */
  lemma FaugButNotFa(cc: Classes, color: string)
    requires AsciiAgrees(cc)
    ensures Highlight(cc, "Faug Fa", color) == SpanOpen(color) + "Faug" + SpanClose + " Fa"
  {
    FaugChords(cc, "Faug Fa");
    var repl := SpanReplacement(color);
    RenderCons(Copied(6, 'a'), [], repl);
    RenderCons(Copied(5, 'F'), [Copied(6, 'a')], repl);
    RenderCons(Copied(4, ' '), [Copied(5, 'F'), Copied(6, 'a')], repl);
    RenderCons(Wrapped(0, "Faug"), [Copied(4, ' '), Copied(5, 'F'), Copied(6, 'a')], repl);
  }

  /** A word that merely starts with a chord letter is not a chord: `Dios te salve` is not highlighted. */
  lemma WordWithChordLetterUnchanged(cc: Classes, color: string)
    requires AsciiAgrees(cc)
    ensures Highlight(cc, "Dios te salve", color) == "Dios te salve"
  {
    var s := "Dios te salve";
    forall i: nat, n: nat ensures !IsMatch(cc, s, i, n) {
      if i == 0 {
        NoMatchBeforeOtherLowercase(cc, s, 0);
      } else if i < |s| {
        NoMatchOffRoot(cc, s, i);
      }
    }
    NoMatchUnchanged(cc, s, color);
  }

  /** A lyric without capital letters passes through unchanged: matching is case-sensitive. */
  lemma LowercaseLyricUnchanged(cc: Classes, s: string, color: string)
    requires s == "a la orilla"
    ensures Highlight(cc, s, color) == s
  {
    NoRootLetterUnchanged(cc, s, color);
  }

  /** The pass over `C#m` wraps the whole text. */
  lemma SharpMinorChords(cc: Classes, s: string)
    requires AsciiAgrees(cc) && s == "C#m"
    ensures Chords(cc, s) == [Wrapped(0, "C#m")]
  {
    assert s[0..3] == s && s[2..] == "m";
    WrappedAt(cc, s, 0, 3);
    assert ScanFrom(ChordMatcher(cc), s, 3) == [];
  }

  /** `C#m` is coloured whole, sharp included: after `m` the end of the text is a word boundary. */
  lemma SharpMinorWhole(cc: Classes, color: string)
    requires AsciiAgrees(cc)
    ensures Highlight(cc, "C#m", color) == SpanOpen(color) + "C#m" + SpanClose
  {
    SharpMinorChords(cc, "C#m");
    RenderCons(Wrapped(0, "C#m"), [], SpanReplacement(color));
  }
}
