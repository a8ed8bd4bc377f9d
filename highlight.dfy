/**
 * The chord highlighter of app.py: `re.sub(patron, template, text)` with the
 * chord pattern of `ChordPattern` and a template that wraps group 1 (the
 * whole match) in a coloured, bold `<span>`.  The editor's preview and the
 * stage view apply the same substitution.
 */
module Highlighter {
  import opened Wrappers
  import opened CharClasses
  import opened ChordPattern
  import opened Substitution

  /** The chord pattern as a matcher for the substitution pass. */
  function ChordMatcher(cc: Classes): (m: Matcher)
    ensures forall s :: Advances(m, s)
  {
    (t: string, p: nat) => if p <= |t| then MatchAt(cc, t, p) else None
  }

  lemma ChordMatcherIsMatchAt(cc: Classes, s: string, p: nat)
    requires p <= |s|
    ensures ChordMatcher(cc)(s, p) == MatchAt(cc, s, p)
  {
  }

  /** The opening marker of the replacement template; the colour is passed through uninterpreted. */
  function SpanOpen(color: string): string {
    "<span style=\"color:" + color + "; font-weight:bold;\">"
  }

  const SpanClose: string := "</span>"

  /** The replacement template with `\1` standing for the whole match. */
  function SpanReplacement(color: string): string -> string {
    t => SpanOpen(color) + t + SpanClose
  }

  /** The segments of the pass of the chord pattern over `s`. */
  function Chords(cc: Classes, s: string): seq<Segment> {
    Scan(ChordMatcher(cc), s)
  }

  /** `re.sub(patron, '<span style="color:{color}; font-weight:bold;">\\1</span>', text)`. */
  function Highlight(cc: Classes, text: string, color: string): string {
    Render(Chords(cc, text), SpanReplacement(color))
  }

  /** The editor's preview (`preview_coloreada`), shown only once something has been typed. */
  function PreviewMarkup(cc: Classes, letraRaw: string, cChord: string): Option<string> {
    if letraRaw == [] then None else Some(Highlight(cc, letraRaw, cChord))
  }

  /** The stage view of a stored song (`texto_final`). */
  function LiveMarkup(cc: Classes, letra: string, cChord: string): string {
    Highlight(cc, letra, cChord)
  }

  /** A song saved from the editor is shown on stage exactly as it was previewed. */
  lemma PreviewIsLive(cc: Classes, letraRaw: string, cChord: string)
    ensures PreviewMarkup(cc, letraRaw, cChord).Some? <==> letraRaw != []
    ensures letraRaw != [] ==> PreviewMarkup(cc, letraRaw, cChord) == Some(LiveMarkup(cc, letraRaw, cChord))
  {
  }

  // ---------------------------------------------------------------------------
  // Highlighting only adds markup

  /** The pass with each match put back as it was gives back the input: highlighting only inserts markers. */
  lemma HighlightOnlyAddsMarkup(cc: Classes, s: string)
    ensures Render(Chords(cc, s), Keep) == s
  {
    RenderKeepIsIdentity(ChordMatcher(cc), s, 0);
  }

  /** The output is the input plus one opening and one closing marker per wrapped match. */
  lemma HighlightLength(cc: Classes, s: string, color: string)
    ensures |Highlight(cc, s, color)| == |s| + CountWrapped(Chords(cc, s)) * (|SpanOpen(color)| + |SpanClose|)
  {
    var d := |SpanOpen(color)| + |SpanClose|;
    forall t ensures |SpanReplacement(color)(t)| == |t| + d {
    }
    RenderLength(Chords(cc, s), SpanReplacement(color), d);
    HighlightOnlyAddsMarkup(cc, s);
  }

  /** Every wrapped match makes the output at least one character longer than the input. */
  lemma HighlightGrows(cc: Classes, s: string, color: string)
    ensures |Highlight(cc, s, color)| >= |s| + CountWrapped(Chords(cc, s))
  {
    forall t ensures |SpanReplacement(color)(t)| > |t| {
    }
    RenderGrows(Chords(cc, s), SpanReplacement(color));
    HighlightOnlyAddsMarkup(cc, s);
  }

  // ---------------------------------------------------------------------------
  // What gets wrapped, and what does not

  /** A wrapped segment of the pass covers a match of the pattern. */
  lemma WrappedIsMatch(cc: Classes, s: string, g: Segment)
    requires g.Wrapped? && Faithful(ChordMatcher(cc), s, g)
    ensures g.at + |g.chord| <= |s| && s[g.at..g.at + |g.chord|] == g.chord
    ensures IsMatch(cc, s, g.at, |g.chord|) && ChordShape(cc, g.chord)
  {
    MatchAtSound(cc, s, g.at);
  }

  /** A copied segment of the pass sits where the pattern matches nothing. */
  lemma CopiedIsNoMatch(cc: Classes, s: string, g: Segment, n: nat)
    requires g.Copied? && Faithful(ChordMatcher(cc), s, g)
    ensures !IsMatch(cc, s, g.at, n)
  {
    if IsMatch(cc, s, g.at, n) {
      MatchAtComplete(cc, s, g.at, n);
    }
  }

  /** Every wrapped span is the input text at its position, has the pattern's shape and both `\b` anchors. */
  lemma WrappedAreMatches(cc: Classes, s: string)
    ensures forall k :: 0 <= k < |Chords(cc, s)| && Chords(cc, s)[k].Wrapped? ==>
      var g := Chords(cc, s)[k];
      && g.at + |g.chord| <= |s|
      && s[g.at..g.at + |g.chord|] == g.chord
      && IsMatch(cc, s, g.at, |g.chord|)
      && ChordShape(cc, g.chord)
  {
    var segs := Chords(cc, s);
    ScanFromFaithful(ChordMatcher(cc), s, 0);
    forall k | 0 <= k < |segs| && segs[k].Wrapped?
      ensures segs[k].at + |segs[k].chord| <= |s| && s[segs[k].at..segs[k].at + |segs[k].chord|] == segs[k].chord
      ensures IsMatch(cc, s, segs[k].at, |segs[k].chord|) && ChordShape(cc, segs[k].chord)
    {
      WrappedIsMatch(cc, s, segs[k]);
    }
  }

  /** A character is copied through only where the pattern accepts nothing. */
  lemma CopiedHaveNoMatch(cc: Classes, s: string)
    ensures forall k, n: nat :: 0 <= k < |Chords(cc, s)| && Chords(cc, s)[k].Copied? ==>
      !IsMatch(cc, s, Chords(cc, s)[k].at, n)
  {
    var segs := Chords(cc, s);
    ScanFromFaithful(ChordMatcher(cc), s, 0);
    forall k, n: nat | 0 <= k < |segs| && segs[k].Copied?
      ensures !IsMatch(cc, s, segs[k].at, n)
    {
      CopiedIsNoMatch(cc, s, segs[k], n);
    }
  }

  /** A wrapped segment is at least as long as any match at its position. */
  lemma WrappedIsLongest(cc: Classes, s: string, g: Segment, n: nat)
    requires AsciiAgrees(cc)
    requires g.Wrapped? && Faithful(ChordMatcher(cc), s, g) && IsMatch(cc, s, g.at, n)
    ensures n <= |g.chord|
  {
    MatchAtLongest(cc, s, g.at, n);
  }

  /** With Python's classes, every wrapped span is the longest substring the pattern accepts at its position. */
  lemma WrappedAreLongest(cc: Classes, s: string)
    requires AsciiAgrees(cc)
    ensures forall k, n: nat :: 0 <= k < |Chords(cc, s)| && Chords(cc, s)[k].Wrapped? && IsMatch(cc, s, Chords(cc, s)[k].at, n) ==>
      n <= |Chords(cc, s)[k].chord|
  {
    var segs := Chords(cc, s);
    ScanFromFaithful(ChordMatcher(cc), s, 0);
    forall k, n: nat | 0 <= k < |segs| && segs[k].Wrapped? && IsMatch(cc, s, segs[k].at, n)
      ensures n <= |segs[k].chord|
    {
      WrappedIsLongest(cc, s, segs[k], n);
    }
  }

  /** The last character of a chord is a word character, unless the chord is a root with `#` and nothing after. */
  lemma ChordEndsInWordChar(cc: Classes, t: string)
    requires PythonClasses(cc)
    requires ChordShape(cc, t)
    ensures cc.word(t[|t| - 1]) || (|t| == 2 && t[1] == '#')
  {
    var q := if |t| > 2 && IsAccidental(t[1]) && IsQuality(cc, t[2..]) then t[2..]
             else if |t| > 1 && IsQuality(cc, t[1..]) then t[1..] else [];
    if q != [] {
      assert q[|q| - 1] == t[|t| - 1];
      if |q| == 4 { assert cc.digit(q[3]); }
    }
  }

  /**
   * A span `t` at `i` starts at the start of the text or after a non-word
   * character, and ends at the end of the text or before a non-word character,
   * or is a root followed by `#` alone.
   */
  predicate Anchored(cc: Classes, s: string, i: nat, t: string) {
    && i + |t| <= |s|
    && (i == 0 || !cc.word(s[i - 1]))
    && (i + |t| == |s| || !cc.word(s[i + |t|]) || (|t| == 2 && t[1] == '#'))
  }

  /** With Python's classes every match is anchored. */
  lemma MatchAnchored(cc: Classes, s: string, i: nat, t: string)
    requires PythonClasses(cc)
    requires IsMatch(cc, s, i, |t|) && s[i..i + |t|] == t
    ensures Anchored(cc, s, i, t)
  {
    assert t[0] == s[i];
    ChordEndsInWordChar(cc, t);
    assert t[|t| - 1] == s[i + |t| - 1];
  }

  /** A wrapped segment is anchored. */
  lemma WrappedIsAnchored(cc: Classes, s: string, g: Segment)
    requires PythonClasses(cc)
    requires g.Wrapped? && Faithful(ChordMatcher(cc), s, g)
    ensures Anchored(cc, s, g.at, g.chord)
  {
    WrappedIsMatch(cc, s, g);
    MatchAnchored(cc, s, g.at, g.chord);
  }

  /**
   * With Python's classes every wrapped span is anchored: `\b` also accepts a
   * root followed by `#` alone before a word character, so `C#m7` wraps only `C#`.
   */
  lemma WrappedAreAnchored(cc: Classes, s: string)
    requires PythonClasses(cc)
    ensures forall k :: 0 <= k < |Chords(cc, s)| && Chords(cc, s)[k].Wrapped? ==>
      Anchored(cc, s, Chords(cc, s)[k].at, Chords(cc, s)[k].chord)
  {
    var segs := Chords(cc, s);
    ScanFromFaithful(ChordMatcher(cc), s, 0);
    forall k | 0 <= k < |segs| && segs[k].Wrapped?
      ensures Anchored(cc, s, segs[k].at, segs[k].chord)
    {
      WrappedIsAnchored(cc, s, segs[k]);
    }
  }

  // ---------------------------------------------------------------------------
  // When the text comes back unchanged

  /** A pass without any match copies every character. */
  lemma NoMatchUnchanged(cc: Classes, s: string, color: string)
    requires forall i: nat, n: nat :: !IsMatch(cc, s, i, n)
    ensures CountWrapped(Chords(cc, s)) == 0
    ensures Highlight(cc, s, color) == s
  {
    var m := ChordMatcher(cc);
    forall p: nat | p < |s| ensures m(s, p).None? {
      MatchAtSound(cc, s, p);
    }
    NoMatchAllCopied(m, s, 0, SpanReplacement(color));
  }

  /** A match anywhere in the text is wrapped by the pass. */
  lemma MatchIsWrapped(cc: Classes, s: string, i: nat, n: nat)
    requires IsMatch(cc, s, i, n)
    ensures CountWrapped(Chords(cc, s)) > 0
  {
    if CountWrapped(Chords(cc, s)) == 0 {
      NoWrappedNoMatch(ChordMatcher(cc), s, 0);
      ChordMatcherIsMatchAt(cc, s, i);
      MatchAtComplete(cc, s, i, n);
      assert false;
    }
  }

  /** The highlighter leaves a text unchanged exactly when the pattern matches nowhere in it. */
  lemma UnchangedIffNoMatch(cc: Classes, s: string, color: string)
    ensures Highlight(cc, s, color) == s <==> forall i: nat, n: nat :: !IsMatch(cc, s, i, n)
  {
    if forall i: nat, n: nat :: !IsMatch(cc, s, i, n) {
      NoMatchUnchanged(cc, s, color);
    } else {
      var i: nat, n: nat :| IsMatch(cc, s, i, n);
      MatchIsWrapped(cc, s, i, n);
      HighlightGrows(cc, s, color);
    }
  }

  /** A text with no capital `A` to `G` comes back unchanged. */
  lemma NoRootLetterUnchanged(cc: Classes, s: string, color: string)
    requires forall i :: 0 <= i < |s| ==> !IsRootLetter(s[i])
    ensures Highlight(cc, s, color) == s
  {
    NoMatchUnchanged(cc, s, color);
  }

  // ---------------------------------------------------------------------------
  // Words that are not chords

  /**
   * With Python's classes, no match starts at a chord letter followed by a
   * lower-case letter that is neither an accidental nor the start of a quality
   * (`Do`, `Dios`, `Gloria`, `Como`).
   */
  lemma NoMatchBeforeOtherLowercase(cc: Classes, s: string, i: nat)
    requires AsciiAgrees(cc)
    requires i + 1 < |s| && 'a' <= s[i + 1] <= 'z' && s[i + 1] !in "abdms"
    ensures forall n: nat :: !IsMatch(cc, s, i, n)
  {
    forall n: nat ensures !IsMatch(cc, s, i, n) {
      assert cc.word(s[i + 1]);
      if 2 <= n && i + n <= |s| {
        assert s[i..i + n][1] == s[i + 1];
      }
    }
  }

  /** `Fa` followed by the end of the text or a non-word character starts no match. */
  lemma FaNoMatch(cc: Classes, s: string, i: nat, n: nat)
    requires AsciiAgrees(cc)
    requires i + 2 <= |s| && s[i] == 'F' && s[i + 1] == 'a'
    requires i + 2 == |s| || !cc.word(s[i + 2])
    ensures !IsMatch(cc, s, i, n)
  {
    assert cc.word(s[i + 1]);
    if n == 2 {
      assert s[i..i + 2] == "Fa";
    } else if 3 <= n && i + n <= |s| {
      var q := s[i..i + n][1..];
      assert q[0] == 'a' && q[1] == s[i + 2];
    }
  }

  /** The Latin note names. */
  const LatinNames: seq<string> := ["Do", "Re", "Mi", "Fa", "Sol", "La", "Si"]

  /**
   * With Python's classes, no match starts at a Latin note name that is followed
   * by the end of the text or a non-word character.  (`Fa` followed by `ug`
   * or `dd9` is the chord `Faug` or `Fadd9`.)
   */
  lemma LatinNameNoMatch(cc: Classes, s: string, i: nat, name: string)
    requires AsciiAgrees(cc)
    requires name in LatinNames
    requires i + |name| <= |s| && s[i..i + |name|] == name
    requires i + |name| == |s| || !cc.word(s[i + |name|])
    ensures forall n: nat :: !IsMatch(cc, s, i, n)
  {
    assert s[i] == name[0];
    if name == "Do" {
      assert s[i + 1] == 'o';
      NoMatchBeforeOtherLowercase(cc, s, i);
    } else if name == "Fa" {
      assert s[i + 1] == 'a';
      forall n: nat ensures !IsMatch(cc, s, i, n) {
        FaNoMatch(cc, s, i, n);
      }
    }
  }
}
