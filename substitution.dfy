/**
 * Python's `re.sub(pattern, repl, string)` for a pattern that never matches
 * the empty string, with the pattern given as a matcher: the length of the
 * match the engine finds at a position, if any.
 *
 * `re.sub` scans left to right.  At each position it either finds a match,
 * emits the replacement and resumes right after the match, or copies one
 * character and moves on.  `ScanFrom` records that walk as segments and
 * `Render` produces the output string from them.
 */
module Substitution {
  import opened Wrappers

  /** The length of the match found in a string at a position. */
  type Matcher = (string, nat) -> Option<nat>

  /** Every match the matcher reports in `s` is non-empty and lies inside `s`. */
  predicate Advances(m: Matcher, s: string) {
    forall p: nat :: p <= |s| && m(s, p).Some? ==> 1 <= m(s, p).value && p + m(s, p).value <= |s|
  }

  /** A character copied through unchanged, or a match handed to the replacement; `at` is where it starts. */
  datatype Segment = Copied(at: nat, c: char) | Wrapped(at: nat, chord: string)

  /** The input characters a segment stands for. */
  function Text(g: Segment): string {
    match g
    case Copied(_, c) => [c]
    case Wrapped(_, t) => t
  }

  /** The segments cover `from..to` of the input left to right, each starting where the previous one ends. */
  predicate Tiles(segs: seq<Segment>, from: nat, to: nat)
    decreases |segs|
  {
    if segs == [] then from == to
    else segs[0].at == from && Tiles(segs[1..], from + |Text(segs[0])|, to)
  }

  /** What `re.sub` does at `g.at`: copy a character where no match starts, or take exactly the match found. */
  predicate Faithful(m: Matcher, s: string, g: Segment) {
    match g
    case Copied(at, c) => at < |s| && s[at] == c && m(s, at).None?
    case Wrapped(at, t) => at + |t| <= |s| && m(s, at) == Some(|t|) && s[at..at + |t|] == t
  }

  /** The pass from position `i` on. */
  function ScanFrom(m: Matcher, s: string, i: nat): seq<Segment>
    requires Advances(m, s) && i <= |s|
    decreases |s| - i
  {
    if i == |s| then []
    else
      match m(s, i)
      case Some(n) => [Wrapped(i, s[i..i + n])] + ScanFrom(m, s, i + n)
      case None => [Copied(i, s[i])] + ScanFrom(m, s, i + 1)
  }

  function Scan(m: Matcher, s: string): seq<Segment>
    requires Advances(m, s)
  {
    ScanFrom(m, s, 0)
  }

  /** The output for one segment. */
  function Piece(g: Segment, repl: string -> string): string {
    match g
    case Copied(_, c) => [c]
    case Wrapped(_, t) => repl(t)
  }

  /** Each copied character as itself, each match as its replacement. */
  function Render(segs: seq<Segment>, repl: string -> string): string
    decreases |segs|
  {
    if segs == [] then [] else Piece(segs[0], repl) + Render(segs[1..], repl)
  }

  /** The replacement that re-emits the match unchanged. */
  function Keep(t: string): string { t }

  function CountWrapped(segs: seq<Segment>): nat
    decreases |segs|
  {
    if segs == [] then 0 else (if segs[0].Wrapped? then 1 else 0) + CountWrapped(segs[1..])
  }

  /** Where the matcher reports `n` characters, the pass takes them and resumes after them. */
  lemma ScanFromMatch(m: Matcher, s: string, i: nat, n: nat)
    requires Advances(m, s) && i < |s| && m(s, i) == Some(n)
    ensures i + n <= |s|
    ensures ScanFrom(m, s, i) == [Wrapped(i, s[i..i + n])] + ScanFrom(m, s, i + n)
  {
  }

  /** Where the matcher reports nothing, the pass copies one character. */
  lemma ScanFromNoMatch(m: Matcher, s: string, i: nat)
    requires Advances(m, s) && i < |s| && m(s, i).None?
    ensures ScanFrom(m, s, i) == [Copied(i, s[i])] + ScanFrom(m, s, i + 1)
  {
  }

  /** Every segment of the pass is what `re.sub` does at its position. */
  lemma {:induction false} ScanFromFaithful(m: Matcher, s: string, i: nat)
    requires Advances(m, s) && i <= |s|
    ensures forall k :: 0 <= k < |ScanFrom(m, s, i)| ==> Faithful(m, s, ScanFrom(m, s, i)[k])
    decreases |s| - i
  {
    if i < |s| {
      var j := if m(s, i).Some? then i + m(s, i).value else i + 1;
      var g := if m(s, i).Some? then Wrapped(i, s[i..j]) else Copied(i, s[i]);
      if m(s, i).Some? {
        ScanFromMatch(m, s, i, m(s, i).value);
      } else {
        ScanFromNoMatch(m, s, i);
      }
      ScanFromFaithful(m, s, j);
      var rest := ScanFrom(m, s, j);
      assert Faithful(m, s, g);
      forall k | 0 <= k < |[g] + rest| ensures Faithful(m, s, ([g] + rest)[k]) {
        if k > 0 {
          assert ([g] + rest)[k] == rest[k - 1];
        }
      }
    }
  }

  /** The segments of the pass cover the input from `i` to its end without gaps or overlaps. */
  lemma {:induction false} ScanFromTiles(m: Matcher, s: string, i: nat)
    requires Advances(m, s) && i <= |s|
    ensures Tiles(ScanFrom(m, s, i), i, |s|)
    decreases |s| - i
  {
    if i < |s| {
      var g, j := ScanFromStep(m, s, i);
      ScanFromTiles(m, s, j);
      assert ([g] + ScanFrom(m, s, j))[1..] == ScanFrom(m, s, j);
    }
  }

  /** The pass from `i` is one step followed by the pass from where the step ends. */
  lemma ScanFromStep(m: Matcher, s: string, i: nat) returns (g: Segment, j: nat)
    requires Advances(m, s) && i < |s|
    ensures i < j <= |s| && s[i..j] == Text(g) && g.at == i && Faithful(m, s, g)
    ensures ScanFrom(m, s, i) == [g] + ScanFrom(m, s, j)
  {
    match m(s, i)
    case Some(n) =>
      ScanFromMatch(m, s, i, n);
      j, g := i + n, Wrapped(i, s[i..i + n]);
    case None =>
      ScanFromNoMatch(m, s, i);
      j, g := i + 1, Copied(i, s[i]);
      assert s[i..j] == [s[i]];
  }

  lemma RenderCons(g: Segment, rest: seq<Segment>, repl: string -> string)
    ensures Render([g] + rest, repl) == Piece(g, repl) + Render(rest, repl)
  {
    assert ([g] + rest)[1..] == rest;
  }

  lemma CountCons(g: Segment, rest: seq<Segment>)
    ensures CountWrapped([g] + rest) == (if g.Wrapped? then 1 else 0) + CountWrapped(rest)
  {
    assert ([g] + rest)[1..] == rest;
  }

  /** With every match re-emitted unchanged, the pass gives back the input. */
  lemma {:induction false} RenderKeepIsIdentity(m: Matcher, s: string, i: nat)
    requires Advances(m, s) && i <= |s|
    ensures Render(ScanFrom(m, s, i), Keep) == s[i..]
    decreases |s| - i
  {
    if i < |s| {
      var g, j := ScanFromStep(m, s, i);
      RenderCons(g, ScanFrom(m, s, j), Keep);
      RenderKeepIsIdentity(m, s, j);
      assert Piece(g, Keep) == Text(g);
      assert s[i..] == s[i..j] + s[j..];
    }
  }

  /** A replacement that adds `d` characters to every match adds `d` per match to the output. */
  lemma {:induction false} RenderLength(segs: seq<Segment>, repl: string -> string, d: nat)
    requires forall t :: |repl(t)| == |t| + d
    ensures |Render(segs, repl)| == |Render(segs, Keep)| + CountWrapped(segs) * d
    decreases |segs|
  {
    if segs != [] {
      var w := if segs[0].Wrapped? then 1 else 0;
      var c := CountWrapped(segs[1..]);
      RenderLength(segs[1..], repl, d);
      assert |Piece(segs[0], repl)| == |Piece(segs[0], Keep)| + w * d;
      assert (w + c) * d == w * d + c * d;
    }
  }

  /** A replacement that lengthens every match lengthens the output by at least one character per match. */
  lemma {:induction false} RenderGrows(segs: seq<Segment>, repl: string -> string)
    requires forall t :: |repl(t)| > |t|
    ensures |Render(segs, repl)| >= |Render(segs, Keep)| + CountWrapped(segs)
    decreases |segs|
  {
    if segs != [] {
      RenderGrows(segs[1..], repl);
      assert |Piece(segs[0], repl)| >= |Piece(segs[0], Keep)| + (if segs[0].Wrapped? then 1 else 0);
    }
  }

  /** A pass with no match copies every character: `re.sub` returns its input unchanged. */
  lemma {:induction false} NoMatchAllCopied(m: Matcher, s: string, i: nat, repl: string -> string)
    requires Advances(m, s) && i <= |s|
    requires forall p: nat :: i <= p < |s| ==> m(s, p).None?
    ensures CountWrapped(ScanFrom(m, s, i)) == 0
    ensures Render(ScanFrom(m, s, i), repl) == s[i..]
    decreases |s| - i
  {
    if i < |s| {
      var g := Copied(i, s[i]);
      ScanFromNoMatch(m, s, i);
      RenderCons(g, ScanFrom(m, s, i + 1), repl);
      CountCons(g, ScanFrom(m, s, i + 1));
      NoMatchAllCopied(m, s, i + 1, repl);
      assert s[i..] == [s[i]] + s[i + 1..];
    }
  }

  /** Conversely, a pass with no wrapped segment found no match at any position. */
  lemma {:induction false} NoWrappedNoMatch(m: Matcher, s: string, i: nat)
    requires Advances(m, s) && i <= |s|
    requires CountWrapped(ScanFrom(m, s, i)) == 0
    ensures forall p: nat :: i <= p < |s| ==> m(s, p).None?
    decreases |s| - i
  {
    if i < |s| {
      var g, j := ScanFromStep(m, s, i);
      CountCons(g, ScanFrom(m, s, j));
      assert g.Copied?;
      NoWrappedNoMatch(m, s, i + 1);
    }
  }
}
