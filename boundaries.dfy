/** Step 5 of both resume cleaners: the three substitutions
      re.sub(r"([a-z])([A-Z])", r"\1 \2", text)
      re.sub(r"(\d)([A-Za-z])", r"\1 \2", text)
      re.sub(r"([.,;:])([A-Za-z])", r"\1 \2", text)
    Each matches two characters, leftmost first and without overlap, and puts
    one space between them. */
module Boundaries {
  import opened Chars
  import opened TextSpaces

  /** Which of the three adjacencies a substitution breaks up. */
  datatype Gap = LowerUpper | DigitLetter | PunctLetter

  predicate Hit(g: Gap, a: char, b: char) {
    match g
    case LowerUpper => IsLower(a) && IsUpper(b)
    case DigitLetter => IsDigit(a) && IsLetter(b)
    case PunctLetter => IsPunct(a) && IsLetter(b)
  }

  /** No two adjacent characters of `s` form the adjacency `g`. */
  predicate NoHit(g: Gap, s: string) {
    forall i :: 0 <= i < |s| - 1 ==> !Hit(g, s[i], s[i + 1])
  }

  /** `re.sub(<pattern of g>, r"\1 \2", s)` */
  function SplitGaps(g: Gap, s: string): (r: string)
    ensures |s| <= |r|
  {
    if |s| >= 2 && Hit(g, s[0], s[1]) then [s[0], ' ', s[1]] + SplitGaps(g, s[2..])
    else if s == [] then []
    else [s[0]] + SplitGaps(g, s[1..])
  }

  /** Neither character of an adjacency is whitespace, and the second
      character of one never starts another of the same kind. */
  lemma HitShape(g: Gap, a: char, b: char)
    requires Hit(g, a, b)
    ensures !IsWs(a) && !IsWs(b) && a != ' ' && b != ' '
    ensures forall c :: !Hit(g, b, c)
  {
  }

  lemma NoHitCons(g: Gap, a: char, r: string)
    requires NoHit(g, r) && (r == [] || !Hit(g, a, r[0]))
    ensures NoHit(g, [a] + r)
  {
    forall i | 0 <= i < |[a] + r| - 1 ensures !Hit(g, ([a] + r)[i], ([a] + r)[i + 1]) {
      if i > 0 {
        assert ([a] + r)[i] == r[i - 1] && ([a] + r)[i + 1] == r[i];
      }
    }
  }

  lemma NoHitTail(g: Gap, s: string, n: nat)
    requires NoHit(g, s) && n <= |s|
    ensures NoHit(g, s[n..])
  {
    forall i | 0 <= i < |s[n..]| - 1 ensures !Hit(g, s[n..][i], s[n..][i + 1]) {
      assert s[n..][i] == s[n + i] && s[n..][i + 1] == s[n + i + 1];
    }
  }

  /** Adjacencies of a slice are adjacencies of the whole. */
  lemma NoHitSlice(g: Gap, s: string, a: nat, b: nat)
    requires NoHit(g, s) && a <= b <= |s|
    ensures NoHit(g, s[a..b])
  {
    forall i | 0 <= i < |s[a..b]| - 1 ensures !Hit(g, s[a..b][i], s[a..b][i + 1]) {
      assert s[a..b][i] == s[a + i] && s[a..b][i + 1] == s[a + i + 1];
    }
  }

  /** The substitution keeps the first and the last character. */
  lemma {:induction false} SplitEnds(g: Gap, s: string)
    ensures (SplitGaps(g, s) == []) == (s == [])
    ensures s != [] ==> SplitGaps(g, s)[0] == s[0]
    ensures s != [] ==> SplitGaps(g, s)[|SplitGaps(g, s)| - 1] == s[|s| - 1]
  {
    if |s| >= 2 && Hit(g, s[0], s[1]) {
      var rest := SplitGaps(g, s[2..]);
      assert SplitGaps(g, s) == [s[0], ' ', s[1]] + rest;
      SplitEnds(g, s[2..]);
      EndsAfter([s[0], ' ', s[1]], s[2..], rest);
      SliceEnds(s, 2);
    } else if s != [] {
      var rest := SplitGaps(g, s[1..]);
      assert SplitGaps(g, s) == [s[0]] + rest;
      SplitEnds(g, s[1..]);
      EndsAfter([s[0]], s[1..], rest);
      SliceEnds(s, 1);
    }
  }

  /** A non-empty front followed by a text with the same ends as `t`. */
  lemma EndsAfter(x: string, t: string, r: string)
    requires x != [] && (r == []) == (t == [])
    requires t != [] ==> r[|r| - 1] == t[|t| - 1]
    ensures (x + r)[0] == x[0]
    ensures (x + r)[|x + r| - 1] == if t == [] then x[|x| - 1] else t[|t| - 1]
  {
  }

  lemma SliceEnds(s: string, n: nat)
    requires 0 < n <= |s|
    ensures s[n..] != [] ==> s[n..][|s[n..]| - 1] == s[|s| - 1]
    ensures s[n..] == [] ==> s[n - 1] == s[|s| - 1]
  {
  }

  lemma RemoveSpacesGap(a: char, b: char)
    ensures RemoveSpaces([a, ' ', b]) == RemoveSpaces([a, b])
  {
    assert [a, ' ', b][1..] == [' ', b];
    assert [' ', b][1..] == [b];
    assert [a, b][1..] == [b];
  }

  /** The substitution only inserts spaces. */
  lemma {:induction false} SplitKeeps(g: Gap, s: string)
    ensures RemoveSpaces(SplitGaps(g, s)) == RemoveSpaces(s)
  {
    if |s| >= 2 && Hit(g, s[0], s[1]) {
      var rest := SplitGaps(g, s[2..]);
      calc {
        RemoveSpaces([s[0], ' ', s[1]] + rest);
        == { RemoveSpacesConcat([s[0], ' ', s[1]], rest); }
        RemoveSpaces([s[0], ' ', s[1]]) + RemoveSpaces(rest);
        == { RemoveSpacesGap(s[0], s[1]); SplitKeeps(g, s[2..]); }
        RemoveSpaces([s[0], s[1]]) + RemoveSpaces(s[2..]);
        == { RemoveSpacesConcat([s[0], s[1]], s[2..]); assert s == [s[0], s[1]] + s[2..]; }
        RemoveSpaces(s);
      }
    } else if s != [] {
      SplitKeeps(g, s[1..]);
      RemoveSpacesConcat([s[0]], SplitGaps(g, s[1..]));
      assert s == [s[0]] + s[1..];
      RemoveSpacesConcat([s[0]], s[1..]);
    }
  }

  /** After the substitution the adjacency `g` occurs nowhere. */
  lemma {:induction false} SplitRemovesHits(g: Gap, s: string)
    ensures NoHit(g, SplitGaps(g, s))
  {
    if |s| >= 2 && Hit(g, s[0], s[1]) {
      var rest := SplitGaps(g, s[2..]);
      SplitRemovesHits(g, s[2..]);
      SplitEnds(g, s[2..]);
      HitShape(g, s[0], s[1]);
      NoHitCons(g, s[1], rest);
      NoHitCons(g, ' ', [s[1]] + rest);
      NoHitCons(g, s[0], [' '] + ([s[1]] + rest));
      assert [s[0], ' ', s[1]] + rest == [s[0]] + ([' '] + ([s[1]] + rest));
    } else if s != [] {
      SplitRemovesHits(g, s[1..]);
      SplitEnds(g, s[1..]);
      NoHitCons(g, s[0], SplitGaps(g, s[1..]));
    }
  }

  /** The substitution creates no adjacency of another kind: the space it
      inserts takes part in none. */
  lemma {:induction false} SplitKeepsNoHit(g: Gap, h: Gap, s: string)
    requires NoHit(h, s)
    ensures NoHit(h, SplitGaps(g, s))
  {
    if |s| >= 2 && Hit(g, s[0], s[1]) {
      var rest := SplitGaps(g, s[2..]);
      NoHitTail(h, s, 2);
      SplitKeepsNoHit(g, h, s[2..]);
      SplitEnds(g, s[2..]);
      NoHitCons(h, s[1], rest);
      NoHitCons(h, ' ', [s[1]] + rest);
      NoHitCons(h, s[0], [' '] + ([s[1]] + rest));
      assert [s[0], ' ', s[1]] + rest == [s[0]] + ([' '] + ([s[1]] + rest));
    } else if s != [] {
      NoHitTail(h, s, 1);
      SplitKeepsNoHit(g, h, s[1..]);
      SplitEnds(g, s[1..]);
      NoHitCons(h, s[0], SplitGaps(g, s[1..]));
    }
  }

  /** A space is only ever inserted between two characters that are not
      whitespace, so single spacing and the plain-space-only property survive. */
  lemma {:induction false} SplitSpacing(g: Gap, s: string)
    ensures OnlySpaces(s) ==> OnlySpaces(SplitGaps(g, s))
    ensures NoDoubleSpace(s) ==> NoDoubleSpace(SplitGaps(g, s))
  {
    if |s| >= 2 && Hit(g, s[0], s[1]) {
      var rest := SplitGaps(g, s[2..]);
      SliceSpacing(s, 2, |s|);
      assert s[2..|s|] == s[2..];
      SplitSpacing(g, s[2..]);
      HitShape(g, s[0], s[1]);
      assert [s[0], ' ', s[1]] + rest == [s[0]] + ([' '] + ([s[1]] + rest));
      if OnlySpaces(s) {
        OnlySpacesCons(s[1], rest);
        OnlySpacesCons(' ', [s[1]] + rest);
        OnlySpacesCons(s[0], [' '] + ([s[1]] + rest));
      }
      if NoDoubleSpace(s) {
        NoDoubleCons(s[1], rest);
        NoDoubleCons(' ', [s[1]] + rest);
        NoDoubleCons(s[0], [' '] + ([s[1]] + rest));
      }
    } else if s != [] {
      var rest := SplitGaps(g, s[1..]);
      SliceSpacing(s, 1, |s|);
      assert s[1..|s|] == s[1..];
      SplitSpacing(g, s[1..]);
      SplitEnds(g, s[1..]);
      if OnlySpaces(s) {
        OnlySpacesCons(s[0], rest);
      }
      if NoDoubleSpace(s) {
        NoDoubleCons(s[0], rest);
      }
    }
  }

  /** Everything step 5 guarantees, for the three substitutions in order. */
  function SplitAll(s: string): string {
    SplitGaps(PunctLetter, SplitGaps(DigitLetter, SplitGaps(LowerUpper, s)))
  }

  lemma SplitAllSpec(s: string)
    ensures RemoveSpaces(SplitAll(s)) == RemoveSpaces(s)
    ensures NoHit(LowerUpper, SplitAll(s)) && NoHit(DigitLetter, SplitAll(s)) && NoHit(PunctLetter, SplitAll(s))
    ensures WellSpaced(s) ==> WellSpaced(SplitAll(s))
    ensures OnlySpaces(s) ==> OnlySpaces(SplitAll(s))
  {
    var a := SplitGaps(LowerUpper, s);
    var b := SplitGaps(DigitLetter, a);
    var c := SplitGaps(PunctLetter, b);
    SplitStep(LowerUpper, s);
    SplitStep(DigitLetter, a);
    SplitStep(PunctLetter, b);
    SplitKeepsNoHit(DigitLetter, LowerUpper, a);
    SplitKeepsNoHit(PunctLetter, LowerUpper, b);
    SplitKeepsNoHit(PunctLetter, DigitLetter, b);
  }

  /** What one substitution keeps and what it removes. */
  lemma SplitStep(g: Gap, s: string)
    ensures RemoveSpaces(SplitGaps(g, s)) == RemoveSpaces(s)
    ensures NoHit(g, SplitGaps(g, s))
    ensures WellSpaced(s) ==> WellSpaced(SplitGaps(g, s))
    ensures OnlySpaces(s) ==> OnlySpaces(SplitGaps(g, s))
  {
    SplitKeeps(g, s);
    SplitRemovesHits(g, s);
    SplitSpacing(g, s);
    SplitEnds(g, s);
  }

  /** A substitution adds at most one space for every two characters. */
  lemma {:induction false} SplitGapsBound(g: Gap, s: string)
    ensures 2 * |SplitGaps(g, s)| <= 3 * |s|
  {
    if |s| >= 2 && Hit(g, s[0], s[1]) {
      SplitGapsBound(g, s[2..]);
    } else if s != [] {
      SplitGapsBound(g, s[1..]);
    }
  }

  /** The substitution described one adjacency at a time: a space goes between
      every two neighbouring characters that form the adjacency `g`, and
      nowhere else. */
  function SpaceEachHit(g: Gap, s: string): string
    decreases |s|
  {
    if |s| <= 1 then s
    else [s[0]] + (if Hit(g, s[0], s[1]) then " " else "") + SpaceEachHit(g, s[1..])
  }

  /** The leftmost, non-overlapping scan of `re.sub` puts a space into every
      adjacency `g` of the text and nowhere else: two adjacencies of one kind
      never share a character, so no hit is skipped. */
  lemma {:induction false} SplitGapsSpec(g: Gap, s: string)
    ensures SplitGaps(g, s) == SpaceEachHit(g, s)
    decreases |s|
  {
    if |s| >= 2 && Hit(g, s[0], s[1]) {
      SplitGapsSpec(g, s[2..]);
      SplitGapsHit(g, s);
    } else if |s| >= 2 {
      SplitGapsSpec(g, s[1..]);
    }
  }

  /** A hit at the front: both scans put one space between its characters,
      and the second character starts no hit of its own. */
  lemma SplitGapsHit(g: Gap, s: string)
    requires |s| >= 2 && Hit(g, s[0], s[1])
    requires SplitGaps(g, s[2..]) == SpaceEachHit(g, s[2..])
    ensures SplitGaps(g, s) == SpaceEachHit(g, s)
  {
    HitShape(g, s[0], s[1]);
    var rest := SpaceEachHit(g, s[2..]);
    var tail := SpaceEachHit(g, s[1..]);
    TailTail(s);
    if |s| > 2 {
      assert tail == [s[1]] + "" + rest;
    } else {
      assert tail == [s[1]] + rest;
    }
    Glue(s[0], s[1], rest);
  }

  lemma Glue(a: char, c: char, r: string)
    ensures [a] + " " + ([c] + r) == [a, ' ', c] + r
    ensures [c] + "" + r == [c] + r
  {
  }

  lemma TailTail(s: string)
    requires |s| >= 2
    ensures s[1..][1..] == s[2..] && s[1..][0] == s[1] && (|s| == 2 ==> s[1..] == [s[1]] && s[2..] == [])
  {
  }

  /** Text without the adjacency is left as it is. */
  lemma {:induction false} SplitNoHit(g: Gap, s: string)
    requires NoHit(g, s)
    ensures SplitGaps(g, s) == s
  {
    if s != [] {
      NoHitTail(g, s, 1);
      SplitNoHit(g, s[1..]);
    }
  }

  /** Step 5 leaves text without any of the three adjacencies alone. */
  lemma SplitAllKeeps(s: string)
    requires NoHit(LowerUpper, s) && NoHit(DigitLetter, s) && NoHit(PunctLetter, s)
    ensures SplitAll(s) == s
  {
    SplitNoHit(LowerUpper, s);
    SplitNoHit(DigitLetter, s);
    SplitNoHit(PunctLetter, s);
  }
}
