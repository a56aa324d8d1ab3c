/** Steps 2 and 3 of both resume cleaners: the substitutions
      re.sub(r"(?:\b[A-Z]\s){2,}[A-Z]\b", <drop the spaces>, text)
      re.sub(r"(?:\b[A-Za-z]\s){2,}[A-Za-z]\b", join_word, text)
    written out as a left-to-right scan with Python's `re.sub` semantics:
    leftmost match first, matches never overlap, `{2,}` is greedy and gives
    back one repetition when the final `[X]\b` fails. */
module LetterRuns {
  import opened Chars
  import opened Optional
  import opened TextSpaces

  /** Capitals: step 2, class `[A-Z]`, always joined.
      Words: step 3, class `[A-Za-z]`, joined unless the run starts with "I ". */
  datatype Mode = Capitals | Words

  predicate InClass(m: Mode, c: char) {
    match m
    case Capitals => IsUpper(c)
    case Words => IsLetter(c)
  }

  /** `\b` just before a word character at `p`. */
  predicate BoundaryBefore(s: string, p: nat)
    requires p <= |s|
  {
    p == 0 || !IsWord(s[p - 1])
  }

  /** `\b` just after a word character at `e - 1`. */
  predicate BoundaryAfter(s: string, e: nat)
    requires e <= |s|
  {
    e == |s| || !IsWord(s[e])
  }

  /** One repetition `[X]\s` of the group starts at `q`. */
  predicate PairAt(m: Mode, s: string, q: nat) {
    q + 1 < |s| && InClass(m, s[q]) && IsWs(s[q + 1])
  }

  /** `s[q..e]` has the shape  X (\s X)*  with every X in the class. */
  predicate IsRun(m: Mode, s: string, q: nat, e: nat)
    decreases |s| - q
  {
    q < e <= |s| && InClass(m, s[q]) &&
    (e == q + 1 || (e >= q + 3 && IsWs(s[q + 1]) && IsRun(m, s, q + 2, e)))
  }

  /** The pattern `(?:\b[X]\s){2,}[X]\b` matches exactly `s[p..e]`:
      at least two repetitions, then a final letter, with word boundaries
      on both sides. */
  predicate IsRunMatch(m: Mode, s: string, p: nat, e: nat) {
    p + 5 <= e <= |s| && BoundaryBefore(s, p) && IsRun(m, s, p, e) && BoundaryAfter(s, e)
  }

  /** How many repetitions `[X]\s` follow one another from `q`. */
  function Pairs(m: Mode, s: string, q: nat): nat
    decreases |s| - q
  {
    if PairAt(m, s, q) then 1 + Pairs(m, s, q + 2) else 0
  }

  /** The end of the match the regex engine reports at `p`, if any: the greedy
      loop takes every repetition it can, then backs off one repetition when the
      final `[X]\b` does not hold. */
  function MatchEnd(m: Mode, s: string, p: nat): (r: Option<nat>)
    requires p < |s|
    ensures r.Some? ==> p + 5 <= r.value <= |s|
  {
    if !BoundaryBefore(s, p) then None
    else
      var k := Pairs(m, s, p);
      PairsBound(m, s, p);
      var last := p + 2 * k;
      if k >= 2 && last < |s| && InClass(m, s[last]) && BoundaryAfter(s, last + 1) then Some(last + 1)
      else if k >= 3 then Some(last - 1)
      else None
  }

  lemma {:induction false} PairsBound(m: Mode, s: string, q: nat)
    ensures q + 2 * Pairs(m, s, q) <= |s| || Pairs(m, s, q) == 0
    ensures Pairs(m, s, q) > 0 ==> q + 2 * Pairs(m, s, q) <= |s|
    decreases |s| - q
  {
    if PairAt(m, s, q) {
      PairsBound(m, s, q + 2);
    }
  }

  /** A run can use no more repetitions than there are. */
  lemma {:induction false} RunWithinPairs(m: Mode, s: string, q: nat, e: nat)
    requires IsRun(m, s, q, e)
    ensures e <= q + 2 * Pairs(m, s, q) + 1
    decreases |s| - q
  {
    if e != q + 1 {
      RunWithinPairs(m, s, q + 2, e);
    }
  }

  /** Cutting the repetitions after the `j`-th leaves a run, as long as a class
      character stands at `q + 2j`. */
  lemma {:induction false} RunOfPairs(m: Mode, s: string, q: nat, j: nat)
    requires j <= Pairs(m, s, q)
    requires q + 2 * j < |s| && InClass(m, s[q + 2 * j])
    ensures IsRun(m, s, q, q + 2 * j + 1)
    decreases j
  {
    if j > 0 {
      RunOfPairs(m, s, q + 2, j - 1);
    }
  }

  /** Every repetition before the last one counted starts with a class character. */
  lemma {:induction false} PairsClass(m: Mode, s: string, q: nat, j: nat)
    requires j < Pairs(m, s, q)
    ensures q + 2 * j + 1 < |s| && InClass(m, s[q + 2 * j]) && IsWs(s[q + 2 * j + 1])
    decreases j
  {
    if j > 0 {
      PairsClass(m, s, q + 2, j - 1);
    }
  }

  /** `MatchEnd` is exactly the regex: it reports a match iff the pattern can
      match at `p`, and then the longest one, which is the one the greedy
      repetition finds first. */
  lemma MatchEndSpec(m: Mode, s: string, p: nat)
    requires p < |s|
    ensures MatchEnd(m, s, p).Some? ==> IsRunMatch(m, s, p, MatchEnd(m, s, p).value)
    ensures MatchEnd(m, s, p).Some? ==> forall e: nat :: IsRunMatch(m, s, p, e) ==> e <= MatchEnd(m, s, p).value
    ensures MatchEnd(m, s, p).None? ==> forall e: nat :: !IsRunMatch(m, s, p, e)
  {
    var k := Pairs(m, s, p);
    var last := p + 2 * k;
    PairsBound(m, s, p);
    forall e: nat | IsRunMatch(m, s, p, e)
      ensures MatchEnd(m, s, p).Some? && e <= MatchEnd(m, s, p).value
    {
      RunWithinPairs(m, s, p, e);
      RunLast(m, s, p, e);
      if e != last + 1 {
        assert e <= last - 1;
        assert k >= 3;
      }
    }
    if BoundaryBefore(s, p) {
      if k >= 2 && last < |s| && InClass(m, s[last]) && BoundaryAfter(s, last + 1) {
        RunOfPairs(m, s, p, k);
      } else if k >= 3 {
        PairsClass(m, s, p, k - 1);
        RunOfPairs(m, s, p, k - 1);
      }
    }
  }

  /** The last character of a run is in the class, and a run has odd length. */
  lemma {:induction false} RunLast(m: Mode, s: string, q: nat, e: nat)
    requires IsRun(m, s, q, e)
    ensures InClass(m, s[e - 1])
    ensures (e - q) % 2 == 1
    decreases |s| - q
  {
    if e != q + 1 {
      RunLast(m, s, q + 2, e);
    }
  }

  /** `s.startswith("I ")` */
  predicate StartsWithPronoun(s: string) {
    |s| >= 2 && s[0] == 'I' && s[1] == ' '
  }

  /** What replaces a match: step 2 drops the spaces; step 3's `join_word`
      returns the match unchanged when it starts with "I ". */
  function Replacement(m: Mode, matched: string): (r: string)
    ensures RemoveSpaces(r) == RemoveSpaces(matched) && |r| <= |matched|
    ensures m == Words && StartsWithPronoun(matched) ==> r == matched
    ensures m == Capitals || !StartsWithPronoun(matched) ==> ' ' !in r
  {
    RemoveSpacesNone(RemoveSpaces(matched));
    match m
    case Capitals => RemoveSpaces(matched)
    case Words =>
      if StartsWithPronoun(matched) then matched
      else RemoveSpaces(matched)
  }

  /** `re.sub` from position `p` onwards. */
  function JoinFrom(m: Mode, s: string, p: nat): (r: string)
    requires p <= |s|
    ensures |r| <= |s| - p
    decreases |s| - p
  {
    if p == |s| then []
    else
      match MatchEnd(m, s, p)
      case Some(e) => Replacement(m, s[p..e]) + JoinFrom(m, s, e)
      case None => [s[p]] + JoinFrom(m, s, p + 1)
  }

  /** Step 2 (`Capitals`) or step 3 (`Words`) applied to the whole text. */
  function JoinRuns(m: Mode, s: string): string {
    JoinFrom(m, s, 0)
  }

  /** `r` is `s` with some spaces deleted, each of them standing between two
      letters of `s`. */
  ghost predicate SpacesDropped(s: string, r: string)
    decreases |s|
  {
    if s == [] then r == []
    else
      r != [] && r[0] == s[0] &&
      (SpacesDropped(s[1..], r[1..]) ||
       (|s| >= 3 && IsLetter(s[0]) && s[1] == ' ' && IsLetter(s[2]) && SpacesDropped(s[2..], r[1..])))
  }

  lemma {:induction false} DroppedRefl(s: string)
    ensures SpacesDropped(s, s)
  {
    if s != [] {
      DroppedRefl(s[1..]);
    }
  }

  lemma {:induction false} DroppedConcat(a: string, ra: string, b: string, rb: string)
    requires SpacesDropped(a, ra) && SpacesDropped(b, rb)
    ensures SpacesDropped(a + b, ra + rb)
    decreases |a|
  {
    if a == [] {
      assert a + b == b && ra + rb == rb;
    } else {
      assert (a + b)[0] == a[0] && (ra + rb)[0] == ra[0];
      assert (ra + rb)[1..] == ra[1..] + rb;
      if SpacesDropped(a[1..], ra[1..]) {
        DroppedConcat(a[1..], ra[1..], b, rb);
        assert (a + b)[1..] == a[1..] + b;
      } else {
        DroppedConcat(a[2..], ra[1..], b, rb);
        assert (a + b)[2..] == a[2..] + b;
        assert (a + b)[1] == ' ' && (a + b)[2] == a[2];
      }
    }
  }

  /** Dropping the spaces of a run deletes only spaces between two letters. */
  lemma {:induction false} RunDropped(m: Mode, s: string, q: nat, e: nat)
    requires IsRun(m, s, q, e)
    ensures SpacesDropped(s[q..e], RemoveSpaces(s[q..e]))
    decreases |s| - q
  {
    var seg := s[q..e];
    if e == q + 1 {
      assert seg == [s[q]];
      assert seg[1..] == [];
    } else {
      RunDropped(m, s, q + 2, e);
      var rest := s[q + 2..e];
      assert seg == [s[q], s[q + 1]] + rest;
      RemoveSpacesConcat([s[q], s[q + 1]], rest);
      DroppedPair(s[q], s[q + 1], rest, RemoveSpaces(rest));
    }
  }

  /** A letter and one whitespace character before a letter: dropping the
      character when it is a space deletes a space between two letters. */
  lemma DroppedPair(a: char, b: char, rest: string, rr: string)
    requires IsLetter(a) && rest != [] && IsLetter(rest[0])
    requires SpacesDropped(rest, rr)
    ensures SpacesDropped([a, b] + rest, RemoveSpaces([a, b]) + rr)
  {
    var seg := [a, b] + rest;
    assert seg[1..] == [b] + rest;
    assert seg[2..] == rest;
    assert [a, b][1..] == [b];
    if b == ' ' {
      assert RemoveSpaces([a, b]) + rr == [a] + rr;
      assert ([a] + rr)[1..] == rr;
    } else {
      assert RemoveSpaces([b]) == [b];
      var r := [a, b] + rr;
      assert RemoveSpaces([a, b]) + rr == r;
      assert r[1..] == [b] + rr && r[1..][1..] == rr;
      assert seg[1..][1..] == rest;
      assert SpacesDropped(seg[1..], r[1..]);
    }
  }

  lemma ReplacementDropped(m: Mode, s: string, p: nat, e: nat)
    requires IsRun(m, s, p, e)
    ensures SpacesDropped(s[p..e], Replacement(m, s[p..e]))
  {
    RunDropped(m, s, p, e);
    DroppedRefl(s[p..e]);
  }

  /** The match `MatchEnd` reports is a run. */
  lemma MatchEndIsRun(m: Mode, s: string, p: nat)
    requires p < |s| && MatchEnd(m, s, p).Some?
    ensures IsRun(m, s, p, MatchEnd(m, s, p).value)
  {
    MatchEndSpec(m, s, p);
  }

  /** Where the pattern cannot match, `MatchEnd` reports nothing. */
  lemma MatchEndNone(m: Mode, s: string, p: nat)
    requires p < |s| && forall e: nat :: !IsRunMatch(m, s, p, e)
    ensures MatchEnd(m, s, p).None?
  {
    MatchEndSpec(m, s, p);
  }

  /** Where the pattern matches, `MatchEnd` reports the longest match. */
  lemma MatchEndLongest(m: Mode, s: string, p: nat, e: nat)
    requires IsRunMatch(m, s, p, e)
    requires forall e': nat :: IsRunMatch(m, s, p, e') ==> e' <= e
    ensures MatchEnd(m, s, p) == Some(e)
  {
    MatchEndSpec(m, s, p);
  }

  /** Steps 2 and 3 only delete spaces, and only spaces between two letters. */
  lemma {:induction false} JoinDropped(m: Mode, s: string, p: nat)
    requires p <= |s|
    ensures SpacesDropped(s[p..], JoinFrom(m, s, p))
    decreases |s| - p
  {
    if p < |s| {
      var me := MatchEnd(m, s, p);
      if me.Some? {
        MatchEndIsRun(m, s, p);
        JoinDropped(m, s, me.value);
        JoinDroppedMatch(m, s, p, me.value);
      } else {
        JoinDropped(m, s, p + 1);
        JoinDroppedCopy(m, s, p);
      }
    }
  }

  /** A step of `JoinDropped` where a run matches at `p` and ends at `e`. */
  lemma JoinDroppedMatch(m: Mode, s: string, p: nat, e: nat)
    requires p < |s| && MatchEnd(m, s, p) == Some(e) && IsRun(m, s, p, e)
    requires SpacesDropped(s[e..], JoinFrom(m, s, e))
    ensures SpacesDropped(s[p..], JoinFrom(m, s, p))
  {
    ReplacementDropped(m, s, p, e);
    SliceSplit(s, p, e);
    DroppedConcat(s[p..e], Replacement(m, s[p..e]), s[e..], JoinFrom(m, s, e));
  }

  /** A step of `JoinDropped` where nothing matches at `p`. */
  lemma JoinDroppedCopy(m: Mode, s: string, p: nat)
    requires p < |s| && MatchEnd(m, s, p).None?
    requires SpacesDropped(s[p + 1..], JoinFrom(m, s, p + 1))
    ensures SpacesDropped(s[p..], JoinFrom(m, s, p))
  {
    assert SpacesDropped([s[p]], [s[p]]);
    SuffixCons(s, p);
    DroppedConcat([s[p]], [s[p]], s[p + 1..], JoinFrom(m, s, p + 1));
  }

  lemma SliceSplit(s: string, p: nat, e: nat)
    requires p <= e <= |s|
    ensures s[p..] == s[p..e] + s[e..]
  {
  }

  lemma {:induction false} DroppedKeeps(s: string, r: string)
    requires SpacesDropped(s, r)
    ensures RemoveSpaces(r) == RemoveSpaces(s)
    ensures |r| <= |s|
    decreases |s|
  {
    if s != [] {
      if SpacesDropped(s[1..], r[1..]) {
        DroppedKeeps(s[1..], r[1..]);
      } else {
        DroppedKeeps(s[2..], r[1..]);
        assert s[1..][1..] == s[2..];
        assert RemoveSpaces(s[1..]) == RemoveSpaces(s[2..]);
      }
    }
  }

  lemma {:induction false} DroppedEnds(s: string, r: string)
    requires SpacesDropped(s, r)
    ensures (r == []) == (s == [])
    ensures s != [] ==> r[0] == s[0] && r[|r| - 1] == s[|s| - 1]
    decreases |s|
  {
    if s != [] {
      if SpacesDropped(s[1..], r[1..]) {
        DroppedEnds(s[1..], r[1..]);
      } else {
        DroppedEnds(s[2..], r[1..]);
      }
    }
  }

  lemma {:induction false} DroppedSpacing(s: string, r: string)
    requires SpacesDropped(s, r)
    ensures OnlySpaces(s) ==> OnlySpaces(r)
    ensures NoDoubleSpace(s) ==> NoDoubleSpace(r)
    decreases |s|
  {
    if s != [] {
      var tail := if SpacesDropped(s[1..], r[1..]) then s[1..] else s[2..];
      assert SpacesDropped(tail, r[1..]);
      assert r == [s[0]] + r[1..];
      DroppedSpacing(tail, r[1..]);
      DroppedEnds(tail, r[1..]);
      SliceSpacing(s, |s| - |tail|, |s|);
      assert tail == s[|s| - |tail|..];
      if OnlySpaces(s) {
        OnlySpacesCons(s[0], r[1..]);
      }
      if NoDoubleSpace(s) {
        NoDoubleCons(s[0], r[1..]);
      }
    }
  }

  /** Deleting spaces from single-spaced text keeps it single-spaced, and the
      characters other than spaces stay the same and in the same order. */
  lemma JoinRunsSpec(m: Mode, s: string)
    ensures SpacesDropped(s, JoinRuns(m, s))
    ensures RemoveSpaces(JoinRuns(m, s)) == RemoveSpaces(s)
    ensures |JoinRuns(m, s)| <= |s|
    ensures WellSpaced(s) ==> WellSpaced(JoinRuns(m, s))
  {
    JoinDropped(m, s, 0);
    assert s[0..] == s;
    DroppedKeeps(s, JoinRuns(m, s));
    DroppedEnds(s, JoinRuns(m, s));
    DroppedSpacing(s, JoinRuns(m, s));
  }

  /** Where the pattern matches nowhere, the step changes nothing. */
  lemma {:induction false} JoinWithoutRuns(m: Mode, s: string, p: nat)
    requires p <= |s|
    requires forall q, e :: p <= q ==> !IsRunMatch(m, s, q, e)
    ensures JoinFrom(m, s, p) == s[p..]
    decreases |s| - p
  {
    if p < |s| {
      JoinWithoutRuns(m, s, p + 1);
      JoinUnmatchedCopies(m, s, p);
    }
  }

  lemma JoinUnmatchedCopies(m: Mode, s: string, p: nat)
    requires p < |s| && JoinFrom(m, s, p + 1) == s[p + 1..]
    requires forall q, e :: p <= q ==> !IsRunMatch(m, s, q, e)
    ensures JoinFrom(m, s, p) == s[p..]
  {
    assert forall e: nat :: !IsRunMatch(m, s, p, e);
    JoinUnmatched(m, s, p);
    SuffixCons(s, p);
  }

  /** Where the pattern matches at `p`, its longest match is replaced: the
      spaces of the run are dropped, unless step 3 meets a run that starts
      with "I ", which it copies. The scan then goes on after the match. */
  lemma JoinMatched(m: Mode, s: string, p: nat, e: nat)
    requires IsRunMatch(m, s, p, e)
    requires forall e': nat :: IsRunMatch(m, s, p, e') ==> e' <= e
    ensures m == Words && StartsWithPronoun(s[p..e]) ==> JoinFrom(m, s, p) == s[p..e] + JoinFrom(m, s, e)
    ensures m == Capitals || !StartsWithPronoun(s[p..e]) ==> JoinFrom(m, s, p) == RemoveSpaces(s[p..e]) + JoinFrom(m, s, e)
  {
    MatchEndLongest(m, s, p, e);
  }

  /** Where the pattern cannot match at `p`, the character there is copied. */
  lemma JoinUnmatched(m: Mode, s: string, p: nat)
    requires p < |s|
    requires forall e: nat :: !IsRunMatch(m, s, p, e)
    ensures JoinFrom(m, s, p) == [s[p]] + JoinFrom(m, s, p + 1)
  {
    MatchEndNone(m, s, p);
  }

  /** In a letter-spaced word, `2 * j` starts as many repetitions as letters follow. */
  lemma {:induction false} PairsSpaced(m: Mode, w: string, j: nat)
    requires j < |w| && forall i :: 0 <= i < |w| ==> InClass(m, w[i])
    ensures Pairs(m, LetterSpaced(w), 2 * j) == |w| - 1 - j
    decreases |w| - j
  {
    LetterSpacedAt(w);
    if j < |w| - 1 {
      PairsSpaced(m, w, j + 1);
    }
  }

  /** Three or more letters of the class, joined by single spaces, come back
      joined: step 2 turns "S U M M A R Y" into "SUMMARY", and step 3 turns
      "P y t h o n" into "Python", unless the run starts with "I ". */
  lemma JoinLetterSpaced(m: Mode, w: string)
    requires |w| >= 3 && forall i :: 0 <= i < |w| ==> InClass(m, w[i])
    requires m == Words ==> w[0] != 'I'
    ensures JoinRuns(m, LetterSpaced(w)) == w
  {
    var s := LetterSpaced(w);
    var n := |s|;
    MatchEndSpaced(m, w);
    assert JoinFrom(m, s, n) == [];
    assert JoinFrom(m, s, 0) == Replacement(m, s[0..n]) + JoinFrom(m, s, n);
    assert s[0..n] == s;
    assert s[0] == w[0] && s[1] == ' ' by {
      LetterSpacedAt(w);
    }
    assert Replacement(m, s) == RemoveSpaces(s);
    NoSpaceInClass(m, w);
    LetterSpacedRemoveSpaces(w);
  }

  lemma NoSpaceInClass(m: Mode, w: string)
    requires forall i :: 0 <= i < |w| ==> InClass(m, w[i])
    ensures forall i :: 0 <= i < |w| ==> w[i] != ' '
  {
  }

  /** The whole letter-spaced word is one match. */
  lemma MatchEndSpaced(m: Mode, w: string)
    requires |w| >= 3 && forall i :: 0 <= i < |w| ==> InClass(m, w[i])
    ensures MatchEnd(m, LetterSpaced(w), 0) == Some(|LetterSpaced(w)|)
  {
    var s := LetterSpaced(w);
    PairsSpaced(m, w, 0);
    var k := Pairs(m, s, 0);
    assert k == |w| - 1;
    LetterSpacedAt(w);
    assert s[2 * k] == w[|w| - 1];
    assert InClass(m, s[2 * k]);
    assert 2 * k + 1 == |s|;
  }

  /** The pattern needs whitespace inside a match, so text without whitespace
      has no match. */
  lemma NoRunsWithoutWs(m: Mode, s: string)
    requires forall i :: 0 <= i < |s| ==> !IsWs(s[i])
    ensures forall q: nat, e: nat :: !IsRunMatch(m, s, q, e)
  {
  }

  /** Step 3 leaves a run that starts with "I " as it is. */
  lemma KeepsPronounRun(s: string, p: nat)
    requires p < |s| && MatchEnd(Words, s, p).Some?
    requires s[p] == 'I' && s[p + 1] == ' '
    ensures JoinFrom(Words, s, p) == s[p..MatchEnd(Words, s, p).value] + JoinFrom(Words, s, MatchEnd(Words, s, p).value)
  {
  }

  /** Steps 1 to 3 as both cleaners run them: collapse whitespace, join
      spaced capitals, join spaced letters. */
  function JoinSteps(s: string): string {
    JoinRuns(Words, JoinRuns(Capitals, Normalize(s)))
  }

  /** After step 3 the text is still single-spaced and holds exactly the
      non-whitespace characters of the input, in order. */
  lemma JoinStepsSpec(s: string)
    ensures WellSpaced(JoinSteps(s))
    ensures RemoveSpaces(JoinSteps(s)) == RemoveWs(s)
  {
    var t1 := Normalize(s);
    NormalizeSpec(s);
    JoinRunsSpec(Capitals, t1);
    JoinRunsSpec(Words, JoinRuns(Capitals, t1));
  }

  /** Steps 1 to 3 leave single-spaced text without any letter run alone. */
  lemma JoinStepsKeeps(s: string)
    requires WellSpaced(s)
    requires forall q: nat, e: nat :: !IsRunMatch(Capitals, s, q, e) && !IsRunMatch(Words, s, q, e)
    ensures JoinSteps(s) == s
  {
    NormalizeWellSpaced(s);
    JoinWithoutRuns(Capitals, s, 0);
    JoinWithoutRuns(Words, s, 0);
    assert s[0..] == s;
  }

  /** Steps 1 to 3 turn a letter-spaced heading in capitals, such as
      "S U M M A R Y", into the heading. */
  lemma JoinStepsSpacedCapitals(w: string)
    requires |w| >= 3 && forall i :: 0 <= i < |w| ==> IsUpper(w[i])
    ensures JoinSteps(LetterSpaced(w)) == w
  {
    var s := LetterSpaced(w);
    SpacedNormalized(w);
    JoinLetterSpaced(Capitals, w);
    assert forall i :: 0 <= i < |w| ==> !IsWs(w[i]);
    JoinNoWs(Words, w);
    calc {
      JoinSteps(s);
      JoinRuns(Words, JoinRuns(Capitals, Normalize(s)));
      JoinRuns(Words, JoinRuns(Capitals, s));
      JoinRuns(Words, w);
      w;
    }
  }

  /** Steps 1 to 3 turn a letter-spaced word whose letters after the first are
      lowercase, such as "P y t h o n", into the word, unless it starts with
      "I ". */
  lemma JoinStepsSpacedWord(w: string)
    requires |w| >= 3 && IsLetter(w[0]) && w[0] != 'I'
    requires forall i :: 1 <= i < |w| ==> IsLower(w[i])
    ensures JoinSteps(LetterSpaced(w)) == w
  {
    var s := LetterSpaced(w);
    CapitalisedLetters(w);
    SpacedNormalized(w);
    JoinSpacedLowercase(w);
    JoinLetterSpaced(Words, w);
    calc {
      JoinSteps(s);
      JoinRuns(Words, JoinRuns(Capitals, Normalize(s)));
      JoinRuns(Words, JoinRuns(Capitals, s));
      JoinRuns(Words, s);
      w;
    }
  }

  lemma CapitalisedLetters(w: string)
    requires |w| >= 1 && IsLetter(w[0])
    requires forall i :: 1 <= i < |w| ==> IsLower(w[i])
    ensures forall i :: 0 <= i < |w| ==> IsLetter(w[i]) && InClass(Words, w[i])
  {
    forall i | 0 <= i < |w| ensures IsLetter(w[i]) {
      if i > 0 {
        assert IsLower(w[i]);
      }
    }
  }

  /** Step 1 keeps a letter-spaced word of letters as it is. */
  lemma SpacedNormalized(w: string)
    requires forall i :: 0 <= i < |w| ==> IsLetter(w[i])
    ensures Normalize(LetterSpaced(w)) == LetterSpaced(w)
  {
    assert forall i :: 0 <= i < |w| ==> !IsWs(w[i]);
    LetterSpacedWellSpaced(w);
    NormalizeWellSpaced(LetterSpaced(w));
  }

  /** Steps 2 and 3 keep text without whitespace as it is. */
  lemma JoinNoWs(m: Mode, w: string)
    requires forall i :: 0 <= i < |w| ==> !IsWs(w[i])
    ensures JoinRuns(m, w) == w
  {
    NoRunsWithoutWs(m, w);
    JoinWithoutRuns(m, w, 0);
    assert w[0..] == w;
  }

  /** Step 2 keeps a letter-spaced word whose letters after the first are
      lowercase as it is: it holds no two capitals a space apart. */
  lemma JoinSpacedLowercase(w: string)
    requires |w| >= 1 && forall i :: 1 <= i < |w| ==> IsLower(w[i])
    ensures JoinRuns(Capitals, LetterSpaced(w)) == LetterSpaced(w)
  {
    var s := LetterSpaced(w);
    forall q: nat, e: nat ensures !IsRunMatch(Capitals, s, q, e) {
      if IsRunMatch(Capitals, s, q, e) {
        assert IsRun(Capitals, s, q + 2, e);
        SpacedNotUpper(w, q + 2);
        assert false;
      }
    }
    JoinWithoutRuns(Capitals, s, 0);
    assert s[0..] == s;
  }

  /** Past its first letter, a letter-spaced word of lowercase letters holds
      no capital. */
  lemma SpacedNotUpper(w: string, j: nat)
    requires forall i :: 1 <= i < |w| ==> IsLower(w[i])
    requires 2 <= j < |LetterSpaced(w)|
    ensures !IsUpper(LetterSpaced(w)[j])
  {
    LetterSpacedAt(w);
    var i := j / 2;
    if j % 2 == 0 {
      assert LetterSpaced(w)[2 * i] == w[i];
    } else {
      assert LetterSpaced(w)[2 * i + 1] == ' ';
    }
  }
}
