/** Whitespace handling shared by both resume cleaners and by the section
    extractor: `re.sub(r"\s+", " ", text)`, `str.strip()`, and the predicates
    that say what "cleanly spaced" text is. */
module TextSpaces {
  import opened Chars
  import opened Optional

  /** `text or ""`: a missing text counts as empty. */
  function OrEmpty(text: Option<string>): string {
    match text
    case None => ""
    case Some(s) => s
  }

  /** `s` with every whitespace character removed: the text a reader sees. */
  function RemoveWs(s: string): string {
    if s == [] then [] else (if IsWs(s[0]) then [] else [s[0]]) + RemoveWs(s[1..])
  }

  /** `s` with every ' ' removed, which is what `str.replace(" ", "")` leaves. */
  function RemoveSpaces(s: string): (r: string)
    ensures |r| <= |s| && ' ' !in r
  {
    if s == [] then [] else (if s[0] == ' ' then [] else [s[0]]) + RemoveSpaces(s[1..])
  }

  lemma RemoveSpacesCons(c: char, s: string)
    ensures RemoveSpaces([c] + s) == (if c == ' ' then [] else [c]) + RemoveSpaces(s)
  {
    assert ([c] + s)[1..] == s;
  }

  /** Removing spaces from text that has none changes nothing. */
  lemma {:induction false} RemoveSpacesNone(s: string)
    requires ' ' !in s
    ensures RemoveSpaces(s) == s
  {
    if s != [] {
      assert s == [s[0]] + s[1..];
      RemoveSpacesNone(s[1..]);
    }
  }

  /** A suffix is its first character followed by the next suffix. */
  lemma SuffixCons(s: string, p: nat)
    requires p < |s|
    ensures s[p..] == [s[p]] + s[p + 1..]
  {
  }

  lemma {:induction false} RemoveWsConcat(a: string, b: string)
    ensures RemoveWs(a + b) == RemoveWs(a) + RemoveWs(b)
  {
    if a == [] {
      assert a + b == b;
    } else {
      assert (a + b)[1..] == a[1..] + b;
      RemoveWsConcat(a[1..], b);
    }
  }

  lemma {:induction false} RemoveSpacesConcat(a: string, b: string)
    ensures RemoveSpaces(a + b) == RemoveSpaces(a) + RemoveSpaces(b)
  {
    if a == [] {
      assert a + b == b;
    } else {
      var c, a1 := a[0], a[1..];
      var x := if c == ' ' then [] else [c];
      ConsConcat(a, b);
      RemoveSpacesConcat(a1, b);
      calc {
        RemoveSpaces(a + b);
        RemoveSpaces([c] + (a1 + b));
        { RemoveSpacesCons(c, a1 + b); }
        x + RemoveSpaces(a1 + b);
        x + (RemoveSpaces(a1) + RemoveSpaces(b));
        { AppendAssoc(x, RemoveSpaces(a1), RemoveSpaces(b)); }
        (x + RemoveSpaces(a1)) + RemoveSpaces(b);
        { RemoveSpacesCons(c, a1); }
        RemoveSpaces(a) + RemoveSpaces(b);
      }
    }
  }

  lemma AppendAssoc(x: string, y: string, z: string)
    ensures x + (y + z) == (x + y) + z
  {
  }

  lemma ConsConcat(a: string, b: string)
    requires a != []
    ensures a == [a[0]] + a[1..] && a + b == [a[0]] + (a[1..] + b)
  {
  }

  /** `k` occurs in `s` at position `i`. */
  predicate OccursAt(s: string, k: string, i: nat) {
    i + |k| <= |s| && s[i..i + |k|] == k
  }

  predicate AllWs(s: string) {
    forall i :: 0 <= i < |s| ==> IsWs(s[i])
  }

  lemma {:induction false} RemoveWsAllWs(s: string)
    requires AllWs(s)
    ensures RemoveWs(s) == []
  {
    if s != [] {
      RemoveWsAllWs(s[1..]);
    }
  }

  /** The only whitespace character left in `s` is the plain space. */
  predicate OnlySpaces(s: string) {
    forall i :: 0 <= i < |s| && IsWs(s[i]) ==> s[i] == ' '
  }

  /** No two spaces in a row. */
  predicate NoDoubleSpace(s: string) {
    forall i :: 0 <= i < |s| - 1 ==> s[i] != ' ' || s[i + 1] != ' '
  }

  /** No leading and no trailing whitespace. */
  predicate Trimmed(s: string) {
    s == [] || (!IsWs(s[0]) && !IsWs(s[|s| - 1]))
  }

  /** Single-spaced text: what `re.sub(r"\s+", " ", s).strip()` produces. */
  predicate WellSpaced(s: string) {
    OnlySpaces(s) && NoDoubleSpace(s) && Trimmed(s)
  }

  lemma {:induction false} OnlySpacesRemove(s: string)
    requires OnlySpaces(s)
    ensures RemoveSpaces(s) == RemoveWs(s)
  {
    if s != [] {
      assert OnlySpaces(s[1..]) by {
        forall i | 0 <= i < |s[1..]| && IsWs(s[1..][i]) ensures s[1..][i] == ' ' {
          assert s[1..][i] == s[i + 1];
        }
      }
      OnlySpacesRemove(s[1..]);
    }
  }

  lemma OnlySpacesCons(c: char, r: string)
    requires OnlySpaces(r) && (IsWs(c) ==> c == ' ')
    ensures OnlySpaces([c] + r)
  {
    forall i | 0 <= i < |[c] + r| && IsWs(([c] + r)[i]) ensures ([c] + r)[i] == ' ' {
      if i > 0 {
        assert ([c] + r)[i] == r[i - 1];
      }
    }
  }

  lemma OnlySpacesConcat(a: string, b: string)
    requires OnlySpaces(a) && OnlySpaces(b)
    ensures OnlySpaces(a + b)
  {
    forall i | 0 <= i < |a + b| && IsWs((a + b)[i]) ensures (a + b)[i] == ' ' {
      if i >= |a| {
        assert (a + b)[i] == b[i - |a|];
      }
    }
  }

  lemma OnlySpacesTail(s: string, n: nat)
    requires OnlySpaces(s) && n <= |s|
    ensures OnlySpaces(s[n..])
  {
    forall i | 0 <= i < |s[n..]| && IsWs(s[n..][i]) ensures s[n..][i] == ' ' {
      assert s[n..][i] == s[n + i];
    }
  }

  lemma NoDoubleCons(c: char, r: string)
    requires NoDoubleSpace(r) && (c != ' ' || r == [] || r[0] != ' ')
    ensures NoDoubleSpace([c] + r)
  {
    forall i | 0 <= i < |[c] + r| - 1 ensures ([c] + r)[i] != ' ' || ([c] + r)[i + 1] != ' ' {
      if i > 0 {
        assert ([c] + r)[i] == r[i - 1] && ([c] + r)[i + 1] == r[i];
      }
    }
  }

  lemma SliceSpacing(s: string, a: nat, b: nat)
    requires a <= b <= |s|
    ensures OnlySpaces(s) ==> OnlySpaces(s[a..b])
    ensures NoDoubleSpace(s) ==> NoDoubleSpace(s[a..b])
  {
    if NoDoubleSpace(s) {
      forall i | 0 <= i < |s[a..b]| - 1 ensures s[a..b][i] != ' ' || s[a..b][i + 1] != ' ' {
        assert s[a..b][i] == s[a + i] && s[a..b][i + 1] == s[a + i + 1];
      }
    }
  }

  /** Index of the first non-whitespace character at or after `i`, or |s|. */
  function SkipWs(s: string, i: nat): (r: nat)
    requires i <= |s|
    ensures i <= r <= |s|
    ensures forall k :: i <= k < r ==> IsWs(s[k])
    ensures r < |s| ==> !IsWs(s[r])
    decreases |s| - i
  {
    if i < |s| && IsWs(s[i]) then SkipWs(s, i + 1) else i
  }

  /** End of `s[lo..j]` once its trailing whitespace is cut off. */
  function TrimEnd(s: string, lo: nat, j: nat): (r: nat)
    requires lo <= j <= |s|
    ensures lo <= r <= j
    ensures forall k :: r <= k < j ==> IsWs(s[k])
    ensures r > lo ==> !IsWs(s[r - 1])
    decreases j
  {
    if j > lo && IsWs(s[j - 1]) then TrimEnd(s, lo, j - 1) else j
  }

  /** `str.strip()`: cut the leading and the trailing whitespace. */
  function Strip(s: string): (r: string)
    ensures Trimmed(r)
    ensures |r| <= |s|
    ensures RemoveWs(r) == RemoveWs(s)
  {
    var a := SkipWs(s, 0);
    var b := TrimEnd(s, a, |s|);
    TrimKeeps(s, a, b);
    s[a..b]
  }

  lemma TrimKeeps(s: string, a: nat, b: nat)
    requires a <= b <= |s|
    requires AllWs(s[..a]) && AllWs(s[b..])
    ensures RemoveWs(s[a..b]) == RemoveWs(s)
  {
    var mid := s[a..b];
    SliceThree(s, a, b);
    RemoveWsAllWs(s[..a]);
    RemoveWsAllWs(s[b..]);
    RemoveWsConcat(s[..a] + mid, s[b..]);
    RemoveWsConcat(s[..a], mid);
  }

  lemma SliceThree(s: string, a: nat, b: nat)
    requires a <= b <= |s|
    ensures s == s[..a] + s[a..b] + s[b..]
  {
  }

  /** What `Strip` returns is a slice of its argument. */
  lemma StripSlice(s: string) returns (a: nat, b: nat)
    ensures a <= b <= |s| && Strip(s) == s[a..b]
    ensures AllWs(s[..a]) && AllWs(s[b..])
  {
    a := SkipWs(s, 0);
    b := TrimEnd(s, a, |s|);
  }

  /** Stripping text that is already trimmed changes nothing. */
  lemma StripTrimmed(s: string)
    requires Trimmed(s)
    ensures Strip(s) == s
  {
    var a := SkipWs(s, 0);
    assert a == 0;
    var b := TrimEnd(s, a, |s|);
    assert b == |s|;
  }

  /** `re.sub(r"\s+", " ", s[i..])`: every maximal whitespace run becomes one space. */
  function CollapseFrom(s: string, i: nat): (r: string)
    requires i <= |s|
    ensures |r| <= |s| - i
    decreases |s| - i
  {
    if i == |s| then []
    else if IsWs(s[i]) then [' '] + CollapseFrom(s, SkipWs(s, i))
    else [s[i]] + CollapseFrom(s, i + 1)
  }

  /** `re.sub(r"\s+", " ", s)` */
  function CollapseWs(s: string): string {
    CollapseFrom(s, 0)
  }

  /** `re.sub(r"\s+", " ", s).strip()` */
  function Normalize(s: string): (r: string)
    ensures |r| <= |s|
  {
    Strip(CollapseWs(s))
  }

  lemma {:induction false} CollapseSpacing(s: string, i: nat)
    requires i <= |s|
    ensures var r := CollapseFrom(s, i);
      && OnlySpaces(r) && NoDoubleSpace(r)
      && (r == [] <==> i == |s|)
      && (i < |s| ==> (r[0] == ' ' <==> IsWs(s[i])))
    decreases |s| - i
  {
    if i < |s| {
      if IsWs(s[i]) {
        var j := SkipWs(s, i);
        CollapseSpacing(s, j);
        OnlySpacesCons(' ', CollapseFrom(s, j));
        NoDoubleCons(' ', CollapseFrom(s, j));
      } else {
        CollapseSpacing(s, i + 1);
        OnlySpacesCons(s[i], CollapseFrom(s, i + 1));
        NoDoubleCons(s[i], CollapseFrom(s, i + 1));
      }
    }
  }

  lemma {:induction false} CollapseKeeps(s: string, i: nat)
    requires i <= |s|
    ensures RemoveWs(CollapseFrom(s, i)) == RemoveWs(s[i..])
    decreases |s| - i
  {
    if i < |s| {
      if IsWs(s[i]) {
        var j := SkipWs(s, i);
        CollapseKeeps(s, j);
        assert s[i..] == s[i..j] + s[j..];
        assert AllWs(s[i..j]);
        RemoveWsAllWs(s[i..j]);
        RemoveWsConcat(s[i..j], s[j..]);
        RemoveWsConcat([' '], CollapseFrom(s, j));
      } else {
        CollapseKeeps(s, i + 1);
        assert s[i..][1..] == s[i + 1..];
        RemoveWsConcat([s[i]], CollapseFrom(s, i + 1));
      }
    }
  }

  /** Collapsing and stripping leaves single-spaced text and keeps every
      non-whitespace character in order. */
  lemma NormalizeSpec(s: string)
    ensures WellSpaced(Normalize(s))
    ensures RemoveWs(Normalize(s)) == RemoveWs(s)
    ensures RemoveSpaces(Normalize(s)) == RemoveWs(s)
  {
    var c := CollapseWs(s);
    CollapseSpacing(s, 0);
    CollapseKeeps(s, 0);
    assert s[0..] == s;
    var a, b := StripSlice(c);
    SliceSpacing(c, a, b);
    OnlySpacesRemove(Normalize(s));
  }

  /** A non-empty stretch of non-whitespace characters. */
  predicate IsToken(w: string) {
    w != [] && forall k :: 0 <= k < |w| ==> !IsWs(w[k])
  }

  /** `s.split()`: the maximal runs of non-whitespace characters, in order. */
  function SplitWords(s: string): (r: seq<string>)
    ensures s != [] && !IsWs(s[0]) ==> r != []
    decreases |s|
  {
    if s == [] then []
    else if IsWs(s[0]) then SplitWords(s[1..])
    else
      var rest := SplitWords(s[1..]);
      if |s| > 1 && !IsWs(s[1]) then [[s[0]] + rest[0]] + rest[1..]
      else [[s[0]]] + rest
  }

  /** `" ".join(ws)` */
  function JoinWords(ws: seq<string>): string
    decreases |ws|
  {
    if ws == [] then [] else if |ws| == 1 then ws[0] else ws[0] + " " + JoinWords(ws[1..])
  }

  /** The words glued together: `"".join(ws)`. */
  function Concat(ws: seq<string>): string
    decreases |ws|
  {
    if ws == [] then [] else ws[0] + Concat(ws[1..])
  }

  /** The words of a text are non-empty and hold no whitespace; the first
      one starts with the text's first character when that is not
      whitespace. */
  lemma {:induction false} WordsShape(s: string)
    ensures forall i :: 0 <= i < |SplitWords(s)| ==> IsToken(SplitWords(s)[i])
    ensures s != [] && !IsWs(s[0]) ==> SplitWords(s)[0][0] == s[0]
    decreases |s|
  {
    if s != [] {
      WordsShape(s[1..]);
      var rest := SplitWords(s[1..]);
      if !IsWs(s[0]) && |s| > 1 && !IsWs(s[1]) {
        var ws := [[s[0]] + rest[0]] + rest[1..];
        forall i | 0 <= i < |ws| ensures IsToken(ws[i]) {
          if i > 0 {
            assert ws[i] == rest[i];
          }
        }
      } else if !IsWs(s[0]) {
        var ws := [[s[0]]] + rest;
        forall i | 0 <= i < |ws| ensures IsToken(ws[i]) {
          if i > 0 {
            assert ws[i] == rest[i - 1];
          }
        }
      }
    }
  }

  /** Glued together, the words of a text are the text without its
      whitespace. */
  lemma {:induction false} WordsConcat(s: string)
    ensures Concat(SplitWords(s)) == RemoveWs(s)
    decreases |s|
  {
    if s != [] {
      WordsConcat(s[1..]);
      var rest := SplitWords(s[1..]);
      if !IsWs(s[0]) && |s| > 1 && !IsWs(s[1]) {
        var ws := [[s[0]] + rest[0]] + rest[1..];
        assert ws[1..] == rest[1..];
        assert Concat(rest) == rest[0] + Concat(rest[1..]);
        assert Concat(ws) == [s[0]] + rest[0] + Concat(rest[1..]);
      } else if !IsWs(s[0]) {
        var ws := [[s[0]]] + rest;
        assert ws[1..] == rest;
      }
    }
  }

  /** Whitespace in front of a text does not change its words. */
  lemma {:induction false} WordsSkipWs(s: string, i: nat, j: nat)
    requires i <= j <= |s|
    requires forall k :: i <= k < j ==> IsWs(s[k])
    ensures SplitWords(s[i..]) == SplitWords(s[j..])
    decreases j - i
  {
    if i < j {
      assert s[i..][1..] == s[i + 1..];
      WordsSkipWs(s, i + 1, j);
    }
  }

  /** Nor does whitespace after it. */
  lemma {:induction false} WordsTrailingWs(x: string, y: string)
    requires AllWs(y)
    ensures SplitWords(x + y) == SplitWords(x)
    decreases |x|
  {
    if x == [] {
      assert x + y == y[0..];
      WordsSkipWs(y, 0, |y|);
    } else {
      assert (x + y)[1..] == x[1..] + y;
      WordsTrailingWs(x[1..], y);
    }
  }

  /** `re.sub(r"\s+", " ", s)` keeps the words of `s`. */
  lemma {:induction false} WordsCollapse(s: string, i: nat)
    requires i <= |s|
    ensures SplitWords(CollapseFrom(s, i)) == SplitWords(s[i..])
    decreases |s| - i
  {
    if i < |s| {
      var c := CollapseFrom(s, i);
      if IsWs(s[i]) {
        var j := SkipWs(s, i);
        WordsCollapse(s, j);
        WordsSkipWs(s, i, j);
        assert c[1..] == CollapseFrom(s, j);
      } else {
        var x := CollapseFrom(s, i + 1);
        CollapseSpacing(s, i + 1);
        WordsCollapse(s, i + 1);
        assert c[1..] == x;
        assert s[i..][1..] == s[i + 1..];
        assert |c| > 1 <==> |s[i..]| > 1;
        if |c| > 1 {
          assert IsWs(c[1]) <==> IsWs(s[i..][1]);
        }
      }
    }
  }

  /** `strip` keeps the words of a text. */
  lemma WordsStrip(t: string)
    ensures SplitWords(Strip(t)) == SplitWords(t)
  {
    var a, b := StripSlice(t);
    assert forall k :: 0 <= k < a ==> IsWs(t[k]) by {
      forall k | 0 <= k < a ensures IsWs(t[k]) {
        assert t[..a][k] == t[k];
      }
    }
    calc {
      SplitWords(Strip(t));
      SplitWords(t[a..b]);
      { assert t[a..] == t[a..b] + t[b..];
        WordsTrailingWs(t[a..b], t[b..]); }
      SplitWords(t[a..]);
      { WordsSkipWs(t, 0, a); }
      SplitWords(t[0..]);
      { assert t[0..] == t; }
      SplitWords(t);
    }
  }

  /** Single-spaced text is its words joined by single spaces. */
  lemma {:induction false} JoinSplitWords(t: string)
    requires WellSpaced(t)
    ensures JoinWords(SplitWords(t)) == t
    decreases |t|
  {
    if t != [] {
      var c := t[0];
      var x := t[1..];
      if x == [] {
        assert SplitWords(t) == [[c]];
      } else if !IsWs(x[0]) {
        WellSpacedSuffix(t, 1);
        JoinSplitWords(x);
        var rest := SplitWords(x);
        assert SplitWords(t) == [[c] + rest[0]] + rest[1..];
        JoinWordsGlue(c, rest);
        assert t == [c] + x;
      } else {
        assert t[1] == ' ' && |t| > 2 && !IsWs(t[2]);
        var y := t[2..];
        WellSpacedSuffix(t, 2);
        JoinSplitWords(y);
        assert x[1..] == y;
        assert SplitWords(x) == SplitWords(y);
        assert SplitWords(t) == [[c]] + SplitWords(y);
        JoinWordsCons(c, SplitWords(y));
        assert t == [c] + " " + y;
      }
    }
  }

  /** A suffix of single-spaced text that starts at a non-whitespace character
      is single-spaced. */
  lemma WellSpacedSuffix(t: string, n: nat)
    requires WellSpaced(t) && n < |t| && !IsWs(t[n])
    ensures WellSpaced(t[n..])
  {
    OnlySpacesTail(t, n);
    SliceSpacing(t, n, |t|);
    assert t[n..|t|] == t[n..];
  }

  /** A character glued to the first word. */
  lemma JoinWordsGlue(c: char, ws: seq<string>)
    requires ws != []
    ensures JoinWords([[c] + ws[0]] + ws[1..]) == [c] + JoinWords(ws)
  {
    var vs := [[c] + ws[0]] + ws[1..];
    assert vs[1..] == ws[1..];
  }

  /** A one-character word in front of the others. */
  lemma JoinWordsCons(c: char, ws: seq<string>)
    requires ws != []
    ensures JoinWords([[c]] + ws) == [c] + " " + JoinWords(ws)
  {
    assert ([[c]] + ws)[1..] == ws;
  }

  /** `re.sub(r"\s+", " ", s).strip()` is `" ".join(s.split())`: the text keeps
      its words, and every whitespace run between two of them becomes one
      space. */
  lemma NormalizeJoinsWords(s: string)
    ensures SplitWords(Normalize(s)) == SplitWords(s)
    ensures Normalize(s) == JoinWords(SplitWords(s))
  {
    WordsCollapse(s, 0);
    assert s[0..] == s;
    WordsStrip(CollapseWs(s));
    NormalizeSpec(s);
    JoinSplitWords(Normalize(s));
  }

  /** Collapsing and stripping single-spaced text changes nothing. */
  lemma NormalizeWellSpaced(s: string)
    requires WellSpaced(s)
    ensures Normalize(s) == s
  {
    NormalizeJoinsWords(s);
    JoinSplitWords(s);
  }

  /** `h` with each character followed by a space, except the last: the
      letter-spaced way a PDF extraction often renders a heading. */
  function LetterSpaced(h: string): (r: string)
    ensures h != [] ==> |r| == 2 * |h| - 1
  {
    if |h| <= 1 then h else [h[0], ' '] + LetterSpaced(h[1..])
  }

  /** The characters of `h` stand at the even positions of its letter-spaced
      form, and spaces at the odd ones. */
  lemma {:induction false} LetterSpacedAt(h: string)
    ensures forall i :: 0 <= i < |h| ==> LetterSpaced(h)[2 * i] == h[i]
    ensures forall i :: 0 <= i < |h| - 1 ==> LetterSpaced(h)[2 * i + 1] == ' '
  {
    if |h| > 1 {
      LetterSpacedAt(h[1..]);
      var r := LetterSpaced(h);
      assert r[2..] == LetterSpaced(h[1..]);
      forall i | 1 <= i < |h| ensures r[2 * i] == h[i] {
        assert r[2 * i] == LetterSpaced(h[1..])[2 * (i - 1)];
      }
      forall i | 1 <= i < |h| - 1 ensures r[2 * i + 1] == ' ' {
        assert r[2 * i + 1] == LetterSpaced(h[1..])[2 * (i - 1) + 1];
      }
    }
  }

  /** Letter-spacing a word without whitespace gives single-spaced text. */
  lemma {:induction false} LetterSpacedWellSpaced(h: string)
    requires forall i :: 0 <= i < |h| ==> !IsWs(h[i])
    ensures WellSpaced(LetterSpaced(h))
  {
    if |h| > 1 {
      LetterSpacedWellSpaced(h[1..]);
      var rest := LetterSpaced(h[1..]);
      var tail := [' '] + rest;
      assert LetterSpaced(h) == [h[0]] + tail;
      assert rest[0] == h[1];
      NoDoubleCons(' ', rest);
      NoDoubleCons(h[0], tail);
      OnlySpacesCons(' ', rest);
      OnlySpacesCons(h[0], tail);
    }
  }

  /** Removing the spaces of a letter-spaced word without spaces gives the word
      back. */
  lemma {:induction false} LetterSpacedRemoveSpaces(h: string)
    requires ' ' !in h
    ensures RemoveSpaces(LetterSpaced(h)) == h
  {
    if |h| > 1 {
      assert h == [h[0]] + h[1..];
      LetterSpacedRemoveSpaces(h[1..]);
      var rest := LetterSpaced(h[1..]);
      RemoveSpacesConcat([h[0], ' '], rest);
      assert [h[0], ' '][1..] == [' '];
      assert RemoveSpaces([h[0], ' ']) == [h[0]];
      assert h == [h[0]] + h[1..];
    } else {
      RemoveSpacesNone(h);
    }
  }
}
