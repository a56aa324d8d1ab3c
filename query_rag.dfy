/** The section lookup of the query script: `detect_section` picks a resume
    section from the words of a question, and `extract_section` cuts that
    section out of the stored resume text. */
module QueryRag {
  import opened Chars
  import opened Optional
  import opened TextSpaces
  import opened HeadingMatch

  /** `HEADINGS` */
  const Headings: seq<string> := [
    "SUMMARY",
    "WORK EXPERIENCE",
    "EDUCATION",
    "SKILLS",
    "CERTIFICATES",
    "PROJECTS"
  ]

  /** `EXTRA_STOPS`: text that also ends a section (contact details and the
      job title, written plainly and letter-spaced). */
  const ExtraStops: seq<string> := [
    "+92", "@GMAIL", "LINKEDIN", "GITHUB",
    "TECHNICAL CONTENT WRITER", "T E C H N I C A L C O N T E N T W R I T E R",
    "SEO"
  ]

  /** `w in s` for strings: `w` occurs somewhere in `s`. */
  predicate Contains(s: string, w: string) {
    exists i: nat :: i <= |s| && OccursAt(s, w, i)
  }

  /** The keyword rules of `detect_section`, in the order it tries them:
      the keywords of a rule and the heading it answers. */
  const Rules: seq<(seq<string>, string)> := [
    (["summary"], "SUMMARY"),
    (["education"], "EDUCATION"),
    (["skill"], "SKILLS"),
    (["certificate", "certification"], "CERTIFICATES"),
    (["project"], "PROJECTS"),
    (["work", "experience"], "WORK EXPERIENCE")
  ]

  /** Some keyword of rule `i` occurs in `q`. */
  predicate RuleHits(q: string, i: nat)
    requires i < |Rules|
  {
    exists w :: w in Rules[i].0 && Contains(q, w)
  }

  /** The if-chain of `detect_section`, on the lowered and stripped query. */
  function Classify(q: string): (r: Option<string>)
    ensures r.Some? ==> r.value in Headings
  {
    if Contains(q, "summary") then Some("SUMMARY")
    else if Contains(q, "education") then Some("EDUCATION")
    else if Contains(q, "skill") then Some("SKILLS")
    else if Contains(q, "certificate") || Contains(q, "certification") then Some("CERTIFICATES")
    else if Contains(q, "project") then Some("PROJECTS")
    else if Contains(q, "work") || Contains(q, "experience") then Some("WORK EXPERIENCE")
    else None
  }

  /** `detect_section(query)` */
  function DetectSection(query: string): (r: Option<string>)
    ensures r.Some? ==> r.value in Headings
  {
    Classify(Strip(Lower(query)))
  }

  /** The answer is the heading of the first rule with a keyword in the
      lowered, stripped query; there is none exactly when no rule hits. */
  lemma DetectSectionFirstRule(query: string)
    ensures var q := Strip(Lower(query));
      (DetectSection(query).None? <==> forall i :: 0 <= i < |Rules| ==> !RuleHits(q, i))
      && (DetectSection(query).Some? ==>
            exists i :: 0 <= i < |Rules| && RuleHits(q, i) && Rules[i].1 == DetectSection(query).value
              && forall j :: 0 <= j < i ==> !RuleHits(q, j))
  {
    ClassifyFirstRule(Strip(Lower(query)));
  }

  /** The if-chain answers with the heading of the first rule that hits. */
  lemma ClassifyFirstRule(q: string)
    ensures Classify(q).None? <==> forall i :: 0 <= i < |Rules| ==> !RuleHits(q, i)
    ensures Classify(q).Some? ==>
      exists i :: 0 <= i < |Rules| && RuleHits(q, i) && Rules[i].1 == Classify(q).value
        && forall j :: 0 <= j < i ==> !RuleHits(q, j)
  {
    RuleHitsIff(q);
    if Contains(q, "summary") {
      assert RuleHits(q, 0);
    } else if Contains(q, "education") {
      assert RuleHits(q, 1);
    } else if Contains(q, "skill") {
      assert RuleHits(q, 2);
    } else if Contains(q, "certificate") || Contains(q, "certification") {
      assert RuleHits(q, 3);
    } else if Contains(q, "project") {
      assert RuleHits(q, 4);
    } else if Contains(q, "work") || Contains(q, "experience") {
      assert RuleHits(q, 5);
    }
  }

  lemma RuleHitsIff(q: string)
    ensures RuleHits(q, 0) <==> Contains(q, "summary")
    ensures RuleHits(q, 1) <==> Contains(q, "education")
    ensures RuleHits(q, 2) <==> Contains(q, "skill")
    ensures RuleHits(q, 3) <==> Contains(q, "certificate") || Contains(q, "certification")
    ensures RuleHits(q, 4) <==> Contains(q, "project")
    ensures RuleHits(q, 5) <==> Contains(q, "work") || Contains(q, "experience")
  {
    assert Rules[0].0 == ["summary"];
    assert Rules[1].0 == ["education"];
    assert Rules[2].0 == ["skill"];
    assert Rules[3].0 == ["certificate", "certification"];
    assert Rules[4].0 == ["project"];
    assert Rules[5].0 == ["work", "experience"];
  }

  /** Lowering keeps every whitespace character where it is, so it commutes
      with stripping. */
  lemma {:induction false} SkipWsLower(s: string, i: nat)
    requires i <= |s|
    ensures SkipWs(Lower(s), i) == SkipWs(s, i)
    decreases |s| - i
  {
    if i < |s| {
      assert Lower(s)[i] == ToLower(s[i]);
      if IsWs(s[i]) {
        SkipWsLower(s, i + 1);
      }
    }
  }

  lemma {:induction false} TrimEndLower(s: string, lo: nat, j: nat)
    requires lo <= j <= |s|
    ensures TrimEnd(Lower(s), lo, j) == TrimEnd(s, lo, j)
    decreases j
  {
    if j > lo {
      assert Lower(s)[j - 1] == ToLower(s[j - 1]);
      if IsWs(s[j - 1]) {
        TrimEndLower(s, lo, j - 1);
      }
    }
  }

  lemma StripLower(s: string)
    ensures Strip(Lower(s)) == Lower(Strip(s))
  {
    var a := SkipWs(s, 0);
    SkipWsLower(s, 0);
    var b := TrimEnd(s, a, |s|);
    TrimEndLower(s, a, |s|);
    assert Strip(Lower(s)) == Lower(s)[a..b];
    LowerSlice(s, a, b);
  }

  lemma LowerSlice(s: string, a: nat, b: nat)
    requires a <= b <= |s|
    ensures Lower(s)[a..b] == Lower(s[a..b])
  {
  }

  /** `detect_section` ignores case: queries that differ only in case get the
      same section. */
  lemma DetectSectionIgnoresCase(q1: string, q2: string)
    requires Lower(q1) == Lower(q2)
    ensures DetectSection(q1) == DetectSection(q2)
  {
    assert DetectSection(q1) == Classify(Strip(Lower(q1)));
  }

  /** Where the stop candidate `s` starts in `t` at or after `from`, unless
      it is the section itself (`s.upper() == section.upper()`). */
  function StopStart(s: string, section: string, t: string, from: nat): (r: Option<nat>)
    requires from <= |t|
    ensures r.Some? ==> Upper(s) != Upper(section) && from <= r.value <= |t|
    ensures r.Some? ==> FirstMatch(Pieces(s), t, r.value).Some?
    ensures r.Some? ==> forall k :: from <= k < r.value ==> FirstMatch(Pieces(s), t, k).None?
    ensures r.None? ==> Upper(s) == Upper(section) || forall k :: from <= k <= |t| ==> FirstMatch(Pieces(s), t, k).None?
  {
    if Upper(s) == Upper(section) then None
    else match Search(Pieces(s), t, from)
      case None => None
      case Some(m) => Some(m.0)
  }

  /** `m.start() if end is None else min(end, m.start())`, with no match
      leaving `end` alone. */
  function Earlier(a: Option<nat>, b: Option<nat>): Option<nat> {
    match (a, b)
    case (None, _) => b
    case (_, None) => a
    case (Some(x), Some(y)) => Some(if y < x then y else x)
  }

  /** The running minimum of `end` over a sequence of match starts. */
  function Earliest(xs: seq<Option<nat>>): Option<nat>
    decreases |xs|
  {
    if xs == [] then None else Earlier(Earliest(xs[..|xs| - 1]), xs[|xs| - 1])
  }

  /** The running minimum is the smallest start there is, and `None` only when
      there is no start at all. */
  lemma {:induction false} EarliestSpec(xs: seq<Option<nat>>)
    ensures Earliest(xs).None? <==> forall i :: 0 <= i < |xs| ==> xs[i].None?
    ensures Earliest(xs).Some? ==> exists i :: 0 <= i < |xs| && xs[i] == Earliest(xs)
    ensures Earliest(xs).Some? ==> forall i :: 0 <= i < |xs| && xs[i].Some? ==> Earliest(xs).value <= xs[i].value
    decreases |xs|
  {
    if xs != [] {
      var init := xs[..|xs| - 1];
      EarliestSpec(init);
      assert forall i :: 0 <= i < |init| ==> init[i] == xs[i];
      if Earliest(init).None? && xs[|xs| - 1].Some? {
        assert xs[|xs| - 1] == Earliest(xs);
      }
    }
  }

  /** The start of every candidate in `stops`, in order. */
  function StopStarts(stops: seq<string>, section: string, t: string, from: nat): (r: seq<Option<nat>>)
    requires from <= |t|
    ensures |r| == |stops|
    ensures forall i :: 0 <= i < |stops| ==> r[i] == StopStart(stops[i], section, t, from)
  {
    seq(|stops|, i requires 0 <= i < |stops| => StopStart(stops[i], section, t, from))
  }

  /** The value of `end` after the loop has visited the candidates `stops`. */
  function NearestStop(stops: seq<string>, section: string, t: string, from: nat): (r: Option<nat>)
    requires from <= |t|
    ensures r.Some? ==> from <= r.value <= |t|
  {
    var xs := StopStarts(stops, section, t, from);
    EarliestSpec(xs);
    Earliest(xs)
  }

  /** Visiting one more candidate takes the earlier of `end` and its start. */
  lemma NearestStopStep(stops: seq<string>, i: nat, section: string, t: string, from: nat)
    requires i < |stops| && from <= |t|
    ensures NearestStop(stops[..i + 1], section, t, from) ==
      Earlier(NearestStop(stops[..i], section, t, from), StopStart(stops[i], section, t, from))
  {
    var xs := StopStarts(stops[..i + 1], section, t, from);
    assert xs[..i] == StopStarts(stops[..i], section, t, from);
  }

  /** `end` is the smallest start of any other candidate, and there is none
      exactly when no other candidate occurs after the heading. */
  lemma NearestStopSpec(stops: seq<string>, section: string, t: string, from: nat)
    requires from <= |t|
    ensures NearestStop(stops, section, t, from).None? <==>
      forall i :: 0 <= i < |stops| ==> StopStart(stops[i], section, t, from).None?
    ensures NearestStop(stops, section, t, from).Some? ==>
      exists i :: 0 <= i < |stops| && StopStart(stops[i], section, t, from) == NearestStop(stops, section, t, from)
    ensures NearestStop(stops, section, t, from).Some? ==>
      forall i :: 0 <= i < |stops| && StopStart(stops[i], section, t, from).Some? ==>
        NearestStop(stops, section, t, from).value <= StopStart(stops[i], section, t, from).value
  {
    EarliestSpec(StopStarts(stops, section, t, from));
  }

  /** `full_text[start:end] if end else full_text[start:]`: an `end` of 0
      counts as no end at all. */
  function CutAt(end: Option<nat>, n: nat): nat {
    if end.Some? && end.value != 0 then end.value else n
  }

  /** `extract_section(full_text, section)`, as one expression. */
  function SectionBlock(t: string, section: string): (r: string)
    ensures |r| <= |t|
  {
    match Search(Pieces(section), t, 0)
    case None => ""
    case Some(m) =>
      var cut := CutAt(NearestStop(Headings + ExtraStops, section, t, m.1), |t|);
      Normalize(Strip(t[m.0..cut]))
  }

  /** Without a heading match the block is empty; otherwise it is the stretch
      from the heading to the nearest other stop (or to the end of the
      text), holds the same characters besides whitespace, and is
      single-spaced and no longer than the text. */
  lemma SectionBlockSpec(t: string, section: string)
    ensures Search(Pieces(section), t, 0).None? ==> SectionBlock(t, section) == ""
    ensures WellSpaced(SectionBlock(t, section))
    ensures Search(Pieces(section), t, 0).Some? ==>
      var m := Search(Pieces(section), t, 0).value;
      var end := NearestStop(Headings + ExtraStops, section, t, m.1);
      var cut := CutAt(end, |t|);
      m.0 <= cut <= |t| &&
      (end.None? ==> cut == |t|) &&
      (end.Some? && end.value != 0 ==> cut == end.value) &&
      RemoveWs(SectionBlock(t, section)) == RemoveWs(t[m.0..cut])
  {
    match Search(Pieces(section), t, 0)
    case None =>
    case Some(m) =>
      CutBlock(t, m.0, m.1, NearestStop(Headings + ExtraStops, section, t, m.1));
  }

  /** The block cut from `a` at an `end` found after `from`. */
  lemma CutBlock(t: string, a: nat, from: nat, end: Option<nat>)
    requires a <= from <= |t| && (end.Some? ==> from <= end.value <= |t|)
    ensures var cut := CutAt(end, |t|);
      a <= cut <= |t| &&
      WellSpaced(Normalize(Strip(t[a..cut]))) &&
      RemoveWs(Normalize(Strip(t[a..cut]))) == RemoveWs(t[a..cut])
  {
    NormalizeSpec(Strip(t[a..CutAt(end, |t|)]));
  }

  /** The loop of `extract_section` over the stop candidates: each one other
      than the section itself is searched for after the heading, and `end`
      keeps the smallest start found. */
  method NearestStopLoop(stops: seq<string>, section: string, t: string, from: nat) returns (end: Option<nat>)
    requires from <= |t|
    ensures end == NearestStop(stops, section, t, from)
  {
    end := None;
    for i := 0 to |stops|
      invariant end == NearestStop(stops[..i], section, t, from)
      invariant end.Some? ==> from <= end.value <= |t|
    {
      NearestStopStep(stops, i, section, t, from);
      if Upper(stops[i]) != Upper(section) {
        var stopRe := MakeHeadingPattern(stops[i]);
        var m := Search(stopRe, t, from);
        if m.Some? {
          end := if end.None? then Some(m.value.0) else Some(if m.value.0 < end.value then m.value.0 else end.value);
        }
      }
    }
    assert stops[..|stops|] == stops;
  }

  /** `extract_section(full_text, section)`: find the heading, then run
      through the stop candidates keeping the smallest start found after
      it, then cut, strip and collapse whitespace. */
  method ExtractSection(fullText: string, section: string) returns (block: string)
    ensures block == SectionBlock(fullText, section)
  {
    var startRe := MakeHeadingPattern(section);
    var startM := Search(startRe, fullText, 0);
    if startM.None? {
      return "";
    }
    var (st, en) := startM.value;
    var end := NearestStopLoop(Headings + ExtraStops, section, fullText, en);
    var cut := CutAt(end, |fullText|);
    block := Strip(fullText[st..cut]);
    block := Normalize(block);
  }
}
