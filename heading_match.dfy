/** `make_heading_regex` of the query script and the way Python's `re` runs the
    pattern it builds. A heading becomes one pattern piece per character: a
    space becomes `\s+`, any other character `c` becomes `re.escape(c)` followed
    by `\s*`, and the whole pattern is compiled with `re.IGNORECASE`.

    The pattern is modelled as a list of pieces, matched twice over: by the
    relation `Matches` (which texts the pattern describes) and by `FirstMatch`
    (which end the backtracking engine reports: each `\s*` and `\s+` first takes
    as much whitespace as it can and gives it back one character at a time). */
module HeadingMatch {
  import opened Chars
  import opened Optional
  import opened TextSpaces

  /** One piece of a heading pattern. */
  datatype Piece =
    | Spaces                      // `\s+`
    | CharThenSpaces(c: char)     // `re.escape(c) + r"\s*"`

  /** The piece one heading character becomes. */
  function PieceFor(ch: char): Piece {
    if ch == ' ' then Spaces else CharThenSpaces(ch)
  }

  /** The pieces of the whole heading, in order. */
  function Pieces(h: string): seq<Piece> {
    seq(|h|, i requires 0 <= i < |h| => PieceFor(h[i]))
  }

  /** `make_heading_regex(h)`: the `parts` list built one character at a time. */
  method MakeHeadingPattern(h: string) returns (parts: seq<Piece>)
    ensures |parts| == |h|
    ensures forall i :: 0 <= i < |h| ==> (parts[i] == Spaces <==> h[i] == ' ')
    ensures forall i :: 0 <= i < |h| && h[i] != ' ' ==> parts[i] == CharThenSpaces(h[i])
    ensures parts == Pieces(h)
  {
    parts := [];
    for i := 0 to |h|
      invariant |parts| == i
      invariant forall k :: 0 <= k < i ==> parts[k] == PieceFor(h[k])
    {
      if h[i] == ' ' {
        parts := parts + [Spaces];
      } else {
        parts := parts + [CharThenSpaces(h[i])];
      }
    }
  }

  /** `re.escape(c)` under `re.IGNORECASE` matches `x`. */
  predicate CharMatches(x: char, c: char) {
    SameIgnoringCase(x, c)
  }

  /** The pattern `ps` matches exactly `t[j..e]`. */
  predicate Matches(ps: seq<Piece>, t: string, j: nat, e: nat)
    decreases |ps|
  {
    j <= e <= |t| &&
    if ps == [] then e == j
    else match ps[0]
      case Spaces =>
        exists k: nat :: j < k <= e && AllWs(t[j..k]) && Matches(ps[1..], t, k, e)
      case CharThenSpaces(c) =>
        j < e && CharMatches(t[j], c) &&
        exists k: nat :: j + 1 <= k <= e && AllWs(t[j + 1..k]) && Matches(ps[1..], t, k, e)
  }

  /** The end the engine reports for `ps` at `t[j..]`, if it matches there. */
  function FirstMatch(ps: seq<Piece>, t: string, j: nat): (r: Option<nat>)
    requires j <= |t|
    ensures r.Some? ==> j <= r.value <= |t|
    decreases |ps|, 0, 0
  {
    if ps == [] then Some(j)
    else match ps[0]
      case Spaces =>
        var m := SkipWs(t, j);
        if m > j then Backtrack(ps[1..], t, j + 1, m) else None
      case CharThenSpaces(c) =>
        if j < |t| && CharMatches(t[j], c) then Backtrack(ps[1..], t, j + 1, SkipWs(t, j + 1))
        else None
  }

  /** Try the rest of the pattern after `k` whitespace characters, then after
      one fewer, down to `lo`: the greedy quantifier giving characters back. */
  function Backtrack(ps: seq<Piece>, t: string, lo: nat, k: nat): (r: Option<nat>)
    requires lo <= k <= |t|
    ensures r.Some? ==> lo <= r.value <= |t|
    decreases |ps|, 1, k - lo
  {
    var r := FirstMatch(ps, t, k);
    if r.Some? then r else if k == lo then None else Backtrack(ps, t, lo, k - 1)
  }

  /** Whatever `Backtrack` reports comes from one of the positions it tried. */
  lemma {:induction false} BacktrackFrom(ps: seq<Piece>, t: string, lo: nat, k: nat)
    requires lo <= k <= |t| && Backtrack(ps, t, lo, k).Some?
    ensures exists m: nat :: lo <= m <= k && FirstMatch(ps, t, m) == Backtrack(ps, t, lo, k)
    decreases k - lo
  {
    if FirstMatch(ps, t, k).None? {
      BacktrackFrom(ps, t, lo, k - 1);
    }
  }

  /** `Backtrack` succeeds as soon as one tried position succeeds. */
  lemma {:induction false} BacktrackFinds(ps: seq<Piece>, t: string, lo: nat, k: nat, m: nat)
    requires lo <= m <= k <= |t| && FirstMatch(ps, t, m).Some?
    ensures Backtrack(ps, t, lo, k).Some?
    decreases k - lo
  {
    if FirstMatch(ps, t, k).None? {
      BacktrackFinds(ps, t, lo, k - 1, m);
    }
  }

  /** Soundness: the engine only reports ends of real matches. */
  lemma {:induction false} FirstMatchSound(ps: seq<Piece>, t: string, j: nat)
    requires j <= |t| && FirstMatch(ps, t, j).Some?
    ensures Matches(ps, t, j, FirstMatch(ps, t, j).value)
    decreases |ps|
  {
    var e := FirstMatch(ps, t, j).value;
    if ps != [] {
      match ps[0]
      case Spaces =>
        var m := SkipWs(t, j);
        assert Backtrack(ps[1..], t, j + 1, m) == Some(e);
        BacktrackFrom(ps[1..], t, j + 1, m);
        var k: nat :| j + 1 <= k <= m && FirstMatch(ps[1..], t, k) == Some(e);
        FirstMatchSound(ps[1..], t, k);
        WsBeforeSkip(t, j, k);
        MatchesSpaces(ps, t, j, k, e);
      case CharThenSpaces(c) =>
        var m := SkipWs(t, j + 1);
        assert CharMatches(t[j], c) && Backtrack(ps[1..], t, j + 1, m) == Some(e);
        BacktrackFrom(ps[1..], t, j + 1, m);
        var k: nat :| j + 1 <= k <= m && FirstMatch(ps[1..], t, k) == Some(e);
        FirstMatchSound(ps[1..], t, k);
        WsBeforeSkip(t, j + 1, k);
        MatchesChar(ps, t, j, k, e);
    }
  }

  /** Everything `SkipWs` steps over is whitespace. */
  lemma WsBeforeSkip(t: string, j: nat, k: nat)
    requires j <= |t| && j <= k <= SkipWs(t, j)
    ensures AllWs(t[j..k])
  {
  }

  /** A `\s+` piece followed by the rest of the pattern. */
  lemma MatchesSpaces(ps: seq<Piece>, t: string, j: nat, k: nat, e: nat)
    requires ps != [] && ps[0] == Spaces
    requires j < k <= e <= |t| && AllWs(t[j..k]) && Matches(ps[1..], t, k, e)
    ensures Matches(ps, t, j, e)
  {
  }

  /** A character piece followed by the rest of the pattern. */
  lemma MatchesChar(ps: seq<Piece>, t: string, j: nat, k: nat, e: nat)
    requires ps != [] && ps[0].CharThenSpaces?
    requires j + 1 <= k <= e <= |t| && CharMatches(t[j], ps[0].c)
    requires AllWs(t[j + 1..k]) && Matches(ps[1..], t, k, e)
    ensures Matches(ps, t, j, e)
  {
  }

  /** Completeness: wherever the pattern matches, the engine reports a match. */
  lemma {:induction false} FirstMatchComplete(ps: seq<Piece>, t: string, j: nat, e: nat)
    requires Matches(ps, t, j, e)
    ensures FirstMatch(ps, t, j).Some?
    decreases |ps|
  {
    if ps != [] {
      match ps[0]
      case Spaces =>
        var k: nat :| j < k <= e && AllWs(t[j..k]) && Matches(ps[1..], t, k, e);
        FirstMatchComplete(ps[1..], t, k, e);
        WsBelowSkip(t, j, k);
        BacktrackFinds(ps[1..], t, j + 1, SkipWs(t, j), k);
      case CharThenSpaces(c) =>
        var k: nat :| j + 1 <= k <= e && AllWs(t[j + 1..k]) && Matches(ps[1..], t, k, e);
        FirstMatchComplete(ps[1..], t, k, e);
        WsBelowSkip(t, j + 1, k);
        BacktrackFinds(ps[1..], t, j + 1, SkipWs(t, j + 1), k);
    }
  }

  /** A whitespace run starting at `j` ends no later than `SkipWs(t, j)`. */
  lemma WsBelowSkip(t: string, j: nat, k: nat)
    requires j <= k <= |t| && AllWs(t[j..k])
    ensures k <= SkipWs(t, j)
  {
  }

  /** `pattern.search(t, pos=from)`: the leftmost position at or after `from`
      where the pattern matches, with the end the engine reports there. */
  function Search(ps: seq<Piece>, t: string, from: nat): (r: Option<(nat, nat)>)
    requires from <= |t|
    ensures r.Some? ==> from <= r.value.0 <= r.value.1 <= |t|
    ensures r.Some? ==> FirstMatch(ps, t, r.value.0) == Some(r.value.1)
    ensures r.Some? ==> forall k :: from <= k < r.value.0 ==> FirstMatch(ps, t, k).None?
    ensures r.None? ==> forall k :: from <= k <= |t| ==> FirstMatch(ps, t, k).None?
    decreases |t| - from
  {
    match FirstMatch(ps, t, from)
    case Some(e) => Some((from, e))
    case None => if from == |t| then None else Search(ps, t, from + 1)
  }

  /** The search succeeds exactly when the pattern describes some part of the
      text that starts at or after `from`, and then its start is the leftmost
      such start. */
  lemma SearchSpec(ps: seq<Piece>, t: string, from: nat)
    requires from <= |t|
    ensures Search(ps, t, from).Some? <==> exists k: nat, e: nat :: from <= k && Matches(ps, t, k, e)
    ensures Search(ps, t, from).Some? ==>
      var k := Search(ps, t, from).value.0;
      Matches(ps, t, k, Search(ps, t, from).value.1) &&
      forall k': nat, e: nat :: from <= k' < k ==> !Matches(ps, t, k', e)
  {
    var r := Search(ps, t, from);
    if r.Some? {
      FirstMatchSound(ps, t, r.value.0);
      assert from <= r.value.0 && Matches(ps, t, r.value.0, r.value.1);
      forall k': nat, e: nat | from <= k' < r.value.0 ensures !Matches(ps, t, k', e) {
        if Matches(ps, t, k', e) {
          FirstMatchComplete(ps, t, k', e);
        }
      }
    } else {
      forall k: nat, e: nat | from <= k ensures !Matches(ps, t, k, e) {
        if Matches(ps, t, k, e) {
          FirstMatchComplete(ps, t, k, e);
        }
      }
    }
  }

  /** Every pattern matches the heading it was built from. */
  lemma {:induction false} MatchesOwnText(h: string, t: string, j: nat)
    requires j + |h| <= |t| && t[j..j + |h|] == h
    ensures Matches(Pieces(h), t, j, j + |h|)
    decreases |h|
  {
    if h != [] {
      var rest := h[1..];
      assert t[j + 1..j + 1 + |rest|] == rest;
      MatchesOwnText(rest, t, j + 1);
      assert Pieces(h)[1..] == Pieces(rest);
      assert t[j] == h[0];
      if h[0] == ' ' {
        assert IsWs(t[j]);
        assert AllWs(t[j..j + 1]);
      } else {
        assert AllWs(t[j + 1..j + 1]);
      }
    }
  }

  /** A heading with no space matches its letter-spaced form. */
  lemma {:induction false} MatchesLetterSpaced(h: string, t: string, j: nat)
    requires ' ' !in h
    requires j + |LetterSpaced(h)| <= |t| && t[j..j + |LetterSpaced(h)|] == LetterSpaced(h)
    ensures Matches(Pieces(h), t, j, j + |LetterSpaced(h)|)
    decreases |h|
  {
    var n := |LetterSpaced(h)|;
    if |h| == 1 {
      assert h[0] in h;
      assert LetterSpaced(h) == h;
      assert t[j] == h[0];
      assert Matches([], t, j + 1, j + 1);
      assert Pieces(h)[1..] == [];
      assert AllWs(t[j + 1..j + 1]);
    } else if |h| > 1 {
      var rest := h[1..];
      assert h[0] in h;
      assert LetterSpaced(h)[2..] == LetterSpaced(rest);
      assert t[j + 2..j + 2 + |LetterSpaced(rest)|] == LetterSpaced(rest);
      assert forall c :: c in rest ==> c in h;
      MatchesLetterSpaced(rest, t, j + 2);
      assert Pieces(h)[1..] == Pieces(rest);
      assert t[j] == h[0] && t[j + 1] == ' ';
      assert AllWs(t[j + 1..j + 2]);
    }
  }

  /** The pattern ignores case: texts equal up to case match at the same
      places. */
  lemma {:induction false} MatchesIgnoresCase(ps: seq<Piece>, t: string, u: string, j: nat, e: nat)
    requires Lower(t) == Lower(u) && Matches(ps, t, j, e)
    ensures Matches(ps, u, j, e)
    decreases |ps|
  {
    assert |t| == |u|;
    if ps != [] {
      match ps[0]
      case Spaces =>
        var k: nat :| j < k <= e && AllWs(t[j..k]) && Matches(ps[1..], t, k, e);
        MatchesIgnoresCase(ps[1..], t, u, k, e);
        WsIgnoresCase(t, u, j, k);
      case CharThenSpaces(c) =>
        var k: nat :| j + 1 <= k <= e && AllWs(t[j + 1..k]) && Matches(ps[1..], t, k, e);
        MatchesIgnoresCase(ps[1..], t, u, k, e);
        WsIgnoresCase(t, u, j + 1, k);
        assert ToLower(t[j]) == ToLower(u[j]);
    }
  }

  lemma WsIgnoresCase(t: string, u: string, a: nat, b: nat)
    requires Lower(t) == Lower(u) && a <= b <= |t| && AllWs(t[a..b])
    ensures AllWs(u[a..b])
  {
    forall i | a <= i < b ensures IsWs(u[i]) {
      assert t[a..b][i - a] == t[i];
      assert ToLower(t[i]) == ToLower(u[i]);
    }
  }

  /** The engine finds a heading in a text wherever the text holds the heading
      itself, and the search stops at the first such place at the latest. */
  lemma SearchFindsHeading(h: string, t: string, from: nat, j: nat)
    requires from <= j && j + |h| <= |t| && Lower(t[j..j + |h|]) == Lower(h)
    ensures Search(Pieces(h), t, from).Some?
    ensures Search(Pieces(h), t, from).value.0 <= j
  {
    var u := t[..j] + h + t[j + |h|..];
    SpliceSlice(h, t, j);
    MatchesOwnText(h, u, j);
    LowerSplice(h, t, j);
    MatchesIgnoresCase(Pieces(h), u, t, j, j + |h|);
    FirstMatchComplete(Pieces(h), t, j, j + |h|);
  }

  lemma SpliceSlice(h: string, t: string, j: nat)
    requires j + |h| <= |t|
    ensures |t[..j] + h + t[j + |h|..]| == |t|
    ensures (t[..j] + h + t[j + |h|..])[j..j + |h|] == h
  {
  }

  /** Putting `h` in place of text equal to it up to case changes nothing
      up to case. */
  lemma LowerSplice(h: string, t: string, j: nat)
    requires j + |h| <= |t| && Lower(t[j..j + |h|]) == Lower(h)
    ensures Lower(t[..j] + h + t[j + |h|..]) == Lower(t)
  {
    var u := t[..j] + h + t[j + |h|..];
    forall i | 0 <= i < |t| ensures Lower(u)[i] == Lower(t)[i] {
      if j <= i < j + |h| {
        assert u[i] == h[i - j];
        assert t[j..j + |h|][i - j] == t[i];
        assert Lower(t[j..j + |h|])[i - j] == Lower(h)[i - j];
      } else {
        assert u[i] == t[i];
      }
    }
  }
}
