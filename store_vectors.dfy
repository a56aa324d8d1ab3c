/** `clean_text` of the ingestion script: the same substitutions as the PDF
    preview cleaner, plus step 4, a loop of `str.replace` calls that splits
    headings the PDF extraction glued to the following word. */
module StoreVectors {
  import opened Chars
  import opened Optional
  import opened TextSpaces
  import opened LetterRuns
  import opened Boundaries

  /** The `fixes` dictionary, in its insertion (and so iteration) order. */
  const Fixes: seq<(string, string)> := [
    ("SUMMARY", "SUMMARY "),
    ("EDUCATION", "EDUCATION "),
    ("SKILLS", "SKILLS "),
    ("CERTIFICATES", "CERTIFICATES "),
    ("PROJECTS", "PROJECTS "),
    ("WORKEXPERIENCE", "WORK EXPERIENCE "),
    ("TECHNICALCONTENTWRITER", "TECHNICAL CONTENT WRITER ")
  ]

  /** `"".join(v + c for c in s) + v`, which is what `s.replace("", v)` yields. */
  function Interleave(s: string, v: string): string {
    if s == [] then v else v + [s[0]] + Interleave(s[1..], v)
  }

  /** `s.replace(k, v)`: every occurrence of `k`, leftmost first and without
      overlap, is replaced by `v`. */
  function ReplaceAll(s: string, k: string, v: string): (r: string)
    ensures k != [] && |k| <= |v| ==> |s| <= |r|
    decreases |s|
  {
    if k == [] then Interleave(s, v)
    else if OccursAt(s, k, 0) then v + ReplaceAll(s[|k|..], k, v)
    else if s == [] then []
    else [s[0]] + ReplaceAll(s[1..], k, v)
  }

  /** A replacement that only inserts spaces: `v` is `k` with spaces added. */
  predicate InsertsSpaces(k: string, v: string) {
    RemoveSpaces(v) == RemoveSpaces(k) && OnlySpaces(v)
  }

  lemma {:induction false} InterleaveKeeps(s: string, v: string)
    requires RemoveSpaces(v) == []
    ensures RemoveSpaces(Interleave(s, v)) == RemoveSpaces(s)
  {
    if s != [] {
      var c, rest := s[0], Interleave(s[1..], v);
      InterleaveKeeps(s[1..], v);
      ConsConcat(s, []);
      calc {
        RemoveSpaces(Interleave(s, v));
        RemoveSpaces(v + [c] + rest);
        { RemoveSpacesConcat(v + [c], rest); RemoveSpacesConcat(v, [c]); }
        RemoveSpaces([c]) + RemoveSpaces(rest);
        { RemoveSpacesConcat([c], s[1..]); }
        RemoveSpaces(s);
      }
    }
  }

  lemma {:induction false} InterleaveOnlySpaces(s: string, v: string)
    requires OnlySpaces(s) && OnlySpaces(v)
    ensures OnlySpaces(Interleave(s, v))
  {
    if s != [] {
      OnlySpacesTail(s, 1);
      InterleaveOnlySpaces(s[1..], v);
      OnlySpacesConcat(v, [s[0]] + Interleave(s[1..], v));
      OnlySpacesCons(s[0], Interleave(s[1..], v));
      assert v + [s[0]] + Interleave(s[1..], v) == v + ([s[0]] + Interleave(s[1..], v));
    }
  }

  /** A replacement that only inserts spaces removes no other character and
      reorders nothing. */
  lemma ReplaceKeeps(s: string, k: string, v: string)
    ensures InsertsSpaces(k, v) ==> RemoveSpaces(ReplaceAll(s, k, v)) == RemoveSpaces(s)
    ensures InsertsSpaces(k, v) && OnlySpaces(s) ==> OnlySpaces(ReplaceAll(s, k, v))
  {
    if InsertsSpaces(k, v) {
      ReplaceKeepsChars(s, k, v);
      if OnlySpaces(s) {
        ReplaceKeepsSpacing(s, k, v);
      }
    }
  }

  lemma {:induction false} ReplaceKeepsChars(s: string, k: string, v: string)
    requires RemoveSpaces(v) == RemoveSpaces(k)
    ensures RemoveSpaces(ReplaceAll(s, k, v)) == RemoveSpaces(s)
    decreases |s|
  {
    if k == [] {
      assert RemoveSpaces(v) == [];
      InterleaveKeeps(s, v);
    } else if OccursAt(s, k, 0) {
      var rest := s[|k|..];
      OccursSplit(s, k);
      var r := ReplaceAll(rest, k, v);
      assert ReplaceAll(s, k, v) == v + r;
      ReplaceKeepsChars(rest, k, v);
      calc {
        RemoveSpaces(v + r);
        { RemoveSpacesConcat(v, r); }
        RemoveSpaces(v) + RemoveSpaces(r);
        RemoveSpaces(k) + RemoveSpaces(rest);
        { RemoveSpacesConcat(k, rest); }
        RemoveSpaces(s);
      }
    } else if s != [] {
      var r := ReplaceAll(s[1..], k, v);
      assert ReplaceAll(s, k, v) == [s[0]] + r;
      ReplaceKeepsChars(s[1..], k, v);
      ConsConcat(s, []);
      RemoveSpacesCons(s[0], r);
      RemoveSpacesCons(s[0], s[1..]);
    }
  }

  lemma OccursSplit(s: string, k: string)
    requires OccursAt(s, k, 0)
    ensures s == k + s[|k|..]
  {
    assert s[0..|k|] == k;
  }

  lemma {:induction false} ReplaceKeepsSpacing(s: string, k: string, v: string)
    requires OnlySpaces(v) && OnlySpaces(s)
    ensures OnlySpaces(ReplaceAll(s, k, v))
    decreases |s|
  {
    if k == [] {
      InterleaveOnlySpaces(s, v);
    } else if OccursAt(s, k, 0) {
      var rest := s[|k|..];
      OnlySpacesTail(s, |k|);
      ReplaceKeepsSpacing(rest, k, v);
      OnlySpacesConcat(v, ReplaceAll(rest, k, v));
    } else if s != [] {
      OnlySpacesTail(s, 1);
      ReplaceKeepsSpacing(s[1..], k, v);
      OnlySpacesCons(s[0], ReplaceAll(s[1..], k, v));
    }
  }

  lemma OccursShift(s: string, k: string, i: nat)
    requires s != []
    ensures OccursAt(s[1..], k, i) <==> OccursAt(s, k, i + 1)
  {
    if i + |k| <= |s[1..]| {
      assert s[1..][i..i + |k|] == s[i + 1..i + 1 + |k|];
    }
  }

  /** Where `k` does not occur, the replacement changes nothing. */
  lemma {:induction false} ReplaceAbsent(s: string, k: string, v: string)
    requires k != []
    requires forall i: nat :: !OccursAt(s, k, i)
    ensures ReplaceAll(s, k, v) == s
    decreases |s|
  {
    if s != [] {
      assert !OccursAt(s, k, 0);
      forall i: nat ensures !OccursAt(s[1..], k, i) {
        OccursShift(s, k, i);
      }
      ReplaceAbsent(s[1..], k, v);
    }
  }

  /** The leftmost occurrence of `k` is the one replaced: text before it is
      copied, the occurrence becomes `v`, and the rest is processed alike. */
  lemma {:induction false} ReplaceLeftmost(a: string, b: string, k: string, v: string)
    requires k != []
    requires forall i: nat :: i < |a| ==> !OccursAt(a + k + b, k, i)
    ensures ReplaceAll(a + k + b, k, v) == a + v + ReplaceAll(b, k, v)
    decreases |a|
  {
    if a == [] {
      ReplaceAllHit(a, k, b, v);
    } else {
      NoEarlierOccurrence(a, b, k);
      ReplaceLeftmost(a[1..], b, k, v);
      ReplaceLeftmostStep(a, b, k, v);
    }
  }

  /** One step of the scan before the leftmost occurrence: the first
      character is copied. */
  lemma ReplaceLeftmostStep(a: string, b: string, k: string, v: string)
    requires k != [] && a != [] && !OccursAt(a + k + b, k, 0)
    requires ReplaceAll(a[1..] + k + b, k, v) == a[1..] + v + ReplaceAll(b, k, v)
    ensures ReplaceAll(a + k + b, k, v) == a + v + ReplaceAll(b, k, v)
  {
    var c, a1, rest := a[0], a[1..], ReplaceAll(b, k, v);
    Regroup(a, c, a1, k, b, v, rest);
    ReplaceAllCopy(a + k + b, a1 + k + b, k, v, c, a1 + v + rest);
  }

  /** The sequence facts the step needs, kept apart from `ReplaceAll`. */
  lemma Regroup(a: string, c: char, a1: string, k: string, b: string, v: string, r: string)
    requires a != [] && c == a[0] && a1 == a[1..]
    ensures (a + k + b)[0] == c && (a + k + b)[1..] == a1 + k + b
    ensures [c] + (a1 + v + r) == a + v + r
  {
    assert a == [c] + a1;
  }

  /** No occurrence before `k` in `a + k + b` stays true once `a` loses its
      first character. */
  lemma NoEarlierOccurrence(a: string, b: string, k: string)
    requires a != []
    requires forall i: nat :: i < |a| ==> !OccursAt(a + k + b, k, i)
    ensures !OccursAt(a + k + b, k, 0)
    ensures forall i: nat :: i < |a[1..]| ==> !OccursAt(a[1..] + k + b, k, i)
  {
    var s := a + k + b;
    assert s[1..] == a[1..] + k + b;
    forall i: nat | i < |a[1..]| ensures !OccursAt(a[1..] + k + b, k, i) {
      OccursShift(s, k, i);
    }
  }

  /** Where `k` starts the text, it is replaced by `v`. */
  lemma ReplaceAllHit(a: string, k: string, b: string, v: string)
    requires k != [] && a == []
    ensures ReplaceAll(a + k + b, k, v) == a + v + ReplaceAll(b, k, v)
  {
    HitParts(a, k, b, v, ReplaceAll(b, k, v));
    ReplaceAllFront(a + k + b, k, v, b);
  }

  /** The sequence facts `ReplaceAllHit` needs, kept apart from `ReplaceAll`. */
  lemma HitParts(a: string, k: string, b: string, v: string, r: string)
    requires a == []
    ensures OccursAt(a + k + b, k, 0) && (a + k + b)[|k|..] == b && a + v + r == v + r
  {
    assert a + k + b == k + b;
  }

  /** Where `k` starts `s`, it is replaced and the scan goes on after it. */
  lemma ReplaceAllFront(s: string, k: string, v: string, b: string)
    requires k != [] && OccursAt(s, k, 0) && s[|k|..] == b
    ensures ReplaceAll(s, k, v) == v + ReplaceAll(b, k, v)
  {
  }

  /** Where `k` does not start `s`, the first character of `s` is copied in
      front of the replacement of the rest. */
  lemma ReplaceAllCopy(s: string, s1: string, k: string, v: string, c: char, r: string)
    requires k != [] && s != [] && !OccursAt(s, k, 0)
    requires s[0] == c && s[1..] == s1 && ReplaceAll(s1, k, v) == r
    ensures ReplaceAll(s, k, v) == [c] + r
  {
  }

  /** Every entry of `fixes` only inserts spaces. */
  predicate AllInsertSpaces(fixes: seq<(string, string)>) {
    forall i :: 0 <= i < |fixes| ==> InsertsSpaces(fixes[i].0, fixes[i].1)
  }

  /** The `for k, v in fixes.items(): text = text.replace(k, v)` loop, as a fold
      over the entries of `fixes`; when every entry only inserts spaces, so
      does the whole loop. */
  function ApplyFixes(fixes: seq<(string, string)>, s: string): (r: string)
    ensures AllInsertSpaces(fixes) ==> RemoveSpaces(r) == RemoveSpaces(s)
    ensures AllInsertSpaces(fixes) && OnlySpaces(s) ==> OnlySpaces(r)
    decreases |fixes|
  {
    if fixes == [] then s
    else
      var init := fixes[..|fixes| - 1];
      assert AllInsertSpaces(fixes) ==> AllInsertSpaces(init) by {
        assert forall i :: 0 <= i < |init| ==> init[i] == fixes[i];
      }
      var prev := ApplyFixes(init, s);
      var (k, v) := fixes[|fixes| - 1];
      ReplaceKeeps(prev, k, v);
      ReplaceAll(prev, k, v)
  }

  /** One more turn of the loop replaces the next key. */
  lemma ApplyFixesStep(fixes: seq<(string, string)>, i: nat, s: string)
    requires i < |fixes|
    ensures ApplyFixes(fixes[..i + 1], s) == ReplaceAll(ApplyFixes(fixes[..i], s), fixes[i].0, fixes[i].1)
  {
    assert fixes[..i + 1][..i] == fixes[..i];
  }

  /** Where no key of `fixes` occurs, the loop changes nothing. */
  lemma {:induction false} ApplyFixesAbsent(fixes: seq<(string, string)>, s: string)
    requires forall i :: 0 <= i < |fixes| ==> fixes[i].0 != []
    requires forall i, j: nat :: 0 <= i < |fixes| ==> !OccursAt(s, fixes[i].0, j)
    ensures ApplyFixes(fixes, s) == s
    decreases |fixes|
  {
    if fixes != [] {
      var init := fixes[..|fixes| - 1];
      assert forall i :: 0 <= i < |init| ==> init[i] == fixes[i];
      ApplyFixesAbsent(init, s);
      var (k, v) := fixes[|fixes| - 1];
      ReplaceAbsent(s, k, v);
    }
  }

  lemma {:induction false} CapitalsKept(k: string)
    requires InCapitals(k)
    ensures RemoveSpaces(k) == k && OnlySpaces(k)
  {
    if k != [] {
      CapitalsKept(k[1..]);
      OnlySpacesCons(k[0], k[1..]);
      assert k == [k[0]] + k[1..];
    }
  }

  /** A word in capitals followed by one space only inserts a space. */
  lemma AppendSpaceInsertsSpaces(k: string)
    requires InCapitals(k)
    ensures InsertsSpaces(k, k + " ")
  {
    CapitalsKept(k);
    RemoveSpacesConcat(k, " ");
    OnlySpacesConcat(k, " ");
  }

  lemma InsertsSpacesConcat(k1: string, v1: string, k2: string, v2: string)
    requires InsertsSpaces(k1, v1) && InsertsSpaces(k2, v2)
    ensures InsertsSpaces(k1 + k2, v1 + v2)
  {
    RemoveSpacesConcat(k1, k2);
    RemoveSpacesConcat(v1, v2);
    OnlySpacesConcat(v1, v2);
  }

  predicate InCapitals(w: string) {
    forall i :: 0 <= i < |w| ==> IsUpper(w[i])
  }

  /** A fix for a heading of one word: the word, then a space. */
  lemma OneWordFix(k: string, v: string, w: string)
    requires k == w && v == w + " " && InCapitals(w)
    ensures InsertsSpaces(k, v)
  {
    AppendSpaceInsertsSpaces(w);
  }

  /** A fix for a heading of two words: each word followed by a space. */
  lemma TwoWordFix(k: string, v: string, w1: string, w2: string)
    requires k == w1 + w2 && v == w1 + " " + w2 + " "
    requires InCapitals(w1) && InCapitals(w2)
    ensures InsertsSpaces(k, v)
  {
    AppendSpaceInsertsSpaces(w1);
    AppendSpaceInsertsSpaces(w2);
    InsertsSpacesConcat(w1, w1 + " ", w2, w2 + " ");
    assert v == (w1 + " ") + (w2 + " ");
  }

  /** A fix for a heading of three words: each word followed by a space. */
  lemma ThreeWordFix(k: string, v: string, w1: string, w2: string, w3: string)
    requires k == w1 + w2 + w3 && v == w1 + " " + w2 + " " + w3 + " "
    requires InCapitals(w1) && InCapitals(w2) && InCapitals(w3)
    ensures InsertsSpaces(k, v)
  {
    TwoWordFix(w1 + w2, w1 + " " + w2 + " ", w1, w2);
    AppendSpaceInsertsSpaces(w3);
    InsertsSpacesConcat(w1 + w2, w1 + " " + w2 + " ", w3, w3 + " ");
    assert v == (w1 + " " + w2 + " ") + (w3 + " ");
  }

  lemma SummaryFix() ensures InsertsSpaces(Fixes[0].0, Fixes[0].1)
  { OneWordFix(Fixes[0].0, Fixes[0].1, "SUMMARY"); }
  lemma EducationFix() ensures InsertsSpaces(Fixes[1].0, Fixes[1].1)
  { OneWordFix(Fixes[1].0, Fixes[1].1, "EDUCATION"); }
  lemma SkillsFix() ensures InsertsSpaces(Fixes[2].0, Fixes[2].1)
  { OneWordFix(Fixes[2].0, Fixes[2].1, "SKILLS"); }
  lemma CertificatesFix() ensures InsertsSpaces(Fixes[3].0, Fixes[3].1)
  { OneWordFix(Fixes[3].0, Fixes[3].1, "CERTIFICATES"); }
  lemma ProjectsFix() ensures InsertsSpaces(Fixes[4].0, Fixes[4].1)
  { OneWordFix(Fixes[4].0, Fixes[4].1, "PROJECTS"); }
  lemma WorkExperienceFix() ensures InsertsSpaces(Fixes[5].0, Fixes[5].1)
  { TwoWordFix(Fixes[5].0, Fixes[5].1, "WORK", "EXPERIENCE"); }
  lemma TechnicalContentWriterFix() ensures InsertsSpaces(Fixes[6].0, Fixes[6].1)
  { ThreeWordFix(Fixes[6].0, Fixes[6].1, "TECHNICAL", "CONTENT", "WRITER"); }

  /** The first seven entries of `fixes` each insert spaces. */
  predicate SevenInsertSpaces(fixes: seq<(string, string)>)
    requires |fixes| >= 7
  {
    InsertsSpaces(fixes[0].0, fixes[0].1) && InsertsSpaces(fixes[1].0, fixes[1].1) &&
    InsertsSpaces(fixes[2].0, fixes[2].1) && InsertsSpaces(fixes[3].0, fixes[3].1) &&
    InsertsSpaces(fixes[4].0, fixes[4].1) && InsertsSpaces(fixes[5].0, fixes[5].1) &&
    InsertsSpaces(fixes[6].0, fixes[6].1)
  }

  lemma AllInsertSpacesSeven(fixes: seq<(string, string)>)
    requires |fixes| == 7 && SevenInsertSpaces(fixes)
    ensures AllInsertSpaces(fixes)
  {
  }

  /** Every entry of `fixes` only inserts spaces into its key. */
  lemma FixesInsertSpaces()
    ensures AllInsertSpaces(Fixes)
  {
    FixEntriesInsertSpaces();
    AllInsertSpacesSeven(Fixes);
  }

  lemma FixEntriesInsertSpaces()
    ensures |Fixes| == 7 && SevenInsertSpaces(Fixes)
  {
    SummaryFix(); EducationFix(); SkillsFix(); CertificatesFix(); ProjectsFix();
    WorkExperienceFix(); TechnicalContentWriterFix();
  }

  /** A fix appends its space even when a space already follows: the first
      fix turns "SUMMARY x" into "SUMMARY  x", with two spaces in a row. */
  lemma FixMayDoubleSpace(k: string, v: string, rest: string)
    requires k == "SUMMARY" && v == k + " " && rest == " x"
    ensures ReplaceAll(k + rest, k, v) == v + rest
    ensures !NoDoubleSpace(ReplaceAll(k + rest, k, v))
  {
    ReplaceLeftmost([], rest, k, v);
    assert [] + k + rest == k + rest;
    ReplaceAbsent(rest, k, v);
    var r := v + rest;
    assert r[|k|] == ' ' && r[|k| + 1] == ' ';
  }

  /** No key of `fixes` is empty. */
  lemma FixKeysNonEmpty()
    ensures forall i :: 0 <= i < |Fixes| ==> Fixes[i].0 != []
  {
    forall i | 0 <= i < |Fixes| ensures Fixes[i].0 != [] {
      assert |Fixes[i].0| >= 6;
    }
  }

  /** Stripping text whose only whitespace is ' ' removes only spaces and
      creates no adjacency. */
  lemma StripKeeps(t: string)
    requires OnlySpaces(t)
    ensures OnlySpaces(Strip(t)) && RemoveSpaces(Strip(t)) == RemoveSpaces(t)
    ensures forall g :: NoHit(g, t) ==> NoHit(g, Strip(t))
  {
    var a, b := StripSlice(t);
    SliceSpacing(t, a, b);
    forall g | NoHit(g, t) ensures NoHit(g, Strip(t)) {
      NoHitSlice(g, t, a, b);
    }
    TrimKeeps(t, a, b);
    OnlySpacesRemove(t);
    OnlySpacesRemove(t[a..b]);
  }

  /** `clean_text(text)`, as one expression: steps 1-3, the `fixes`
      replacements in dictionary order, step 5 and `strip`. Without its
      spaces the result is the input without its whitespace; its only
      whitespace is ' ', none at either end; and no aB, digit-letter or
      punctuation-letter adjacency is left. Two spaces in a row are
      possible. */
  function CleanSpec(text: Option<string>): (r: string)
    ensures RemoveSpaces(r) == RemoveWs(OrEmpty(text))
    ensures OnlySpaces(r) && Trimmed(r)
    ensures NoHit(LowerUpper, r) && NoHit(DigitLetter, r) && NoHit(PunctLetter, r)
  {
    var joined := JoinSteps(OrEmpty(text));
    JoinStepsSpec(OrEmpty(text));
    FixesInsertSpaces();
    var fixed := ApplyFixes(Fixes, joined);
    SplitAllSpec(fixed);
    StripKeeps(SplitAll(fixed));
    Strip(SplitAll(fixed))
  }

  /** `clean_text(text)`, step by step: the loop over `fixes` computes the
      fold of `CleanSpec`. */
  method CleanText(text: Option<string>) returns (r: string)
    ensures r == CleanSpec(text)
  {
    var t := OrEmpty(text);
    t := JoinSteps(t);
    ghost var joined := t;
    for i := 0 to |Fixes|
      invariant t == ApplyFixes(Fixes[..i], joined)
    {
      var (k, v) := Fixes[i];
      ApplyFixesStep(Fixes, i, joined);
      t := ReplaceAll(t, k, v);
    }
    assert Fixes[..|Fixes|] == Fixes;
    t := SplitAll(t);
    r := Strip(t);
  }

  /** Text that is already clean and holds no key of `fixes` comes back
      unchanged. */
  lemma CleanSpecKeepsCleanText(t: string)
    requires WellSpaced(t)
    requires forall q: nat, e: nat :: !IsRunMatch(Capitals, t, q, e) && !IsRunMatch(Words, t, q, e)
    requires forall i, j: nat :: 0 <= i < |Fixes| ==> !OccursAt(t, Fixes[i].0, j)
    requires NoHit(LowerUpper, t) && NoHit(DigitLetter, t) && NoHit(PunctLetter, t)
    ensures CleanSpec(Some(t)) == t
  {
    JoinStepsKeeps(t);
    FixKeysNonEmpty();
    ApplyFixesAbsent(Fixes, t);
    SplitAllKeeps(t);
    StripTrimmed(t);
  }
}
