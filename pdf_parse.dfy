/** `clean_text` of the PDF preview script: a fixed chain of substitutions
    that re-spaces the text of a resume page. */
module PdfParse {
  import opened Chars
  import opened Optional
  import opened TextSpaces
  import opened LetterRuns
  import opened Boundaries

  /** `clean_text(text)`: steps 1-3 (collapse whitespace, join spaced
      capitals, join spaced letters), then step 5 (a space at aB, 2x and .x
      boundaries), then strip. The result is single-spaced (its only
      whitespace is ' ', never two in a row, none at either end); with its
      spaces removed it is the input without its whitespace, so no other
      character is changed, dropped or reordered; and it never has a
      lowercase letter right before an uppercase one, a digit right before a
      letter, or one of . , ; : right before a letter. */
  function CleanText(text: Option<string>): (r: string)
    ensures WellSpaced(r)
    ensures RemoveSpaces(r) == RemoveWs(OrEmpty(text))
    ensures NoHit(LowerUpper, r) && NoHit(DigitLetter, r) && NoHit(PunctLetter, r)
  {
    var t3 := JoinSteps(OrEmpty(text));
    JoinStepsSpec(OrEmpty(text));
    SplitAllSpec(t3);
    StripTrimmed(SplitAll(t3));
    Strip(SplitAll(t3))
  }

  /** None and the empty string both clean to "". */
  lemma CleanTextEmpty()
    ensures CleanText(None) == ""
    ensures CleanText(Some("")) == ""
  {
    assert RemoveWs("") == "";
  }

  /** The result is empty exactly when the input holds nothing but whitespace. */
  lemma CleanTextEmptyIff(text: Option<string>)
    ensures CleanText(text) == "" <==> RemoveWs(OrEmpty(text)) == ""
  {
    var r := CleanText(text);
    if r != "" {
      assert !IsWs(r[0]);
      assert RemoveSpaces(r) != "";
    }
  }

  /** Text that is already clean comes back unchanged: single-spaced, with no
      letter run for steps 2 and 3 to join and no adjacency for step 5 to
      split. */
  lemma CleanTextKeepsCleanText(t: string)
    requires WellSpaced(t)
    requires forall q: nat, e: nat :: !IsRunMatch(Capitals, t, q, e) && !IsRunMatch(Words, t, q, e)
    requires NoHit(LowerUpper, t) && NoHit(DigitLetter, t) && NoHit(PunctLetter, t)
    ensures CleanText(Some(t)) == t
  {
    JoinStepsKeeps(t);
    SplitAllKeeps(t);
    StripTrimmed(t);
  }

  /** A letter-spaced heading in capitals, such as "S U M M A R Y", is
      cleaned to the heading, "SUMMARY". */
  lemma CleanTextSpacedCapitals(w: string)
    requires |w| >= 3 && forall i :: 0 <= i < |w| ==> IsUpper(w[i])
    ensures CleanText(Some(LetterSpaced(w))) == w
  {
    JoinStepsSpacedCapitals(w);
    CleanAfterJoin(LetterSpaced(w), w);
  }

  /** A letter-spaced word, such as "P y t h o n", is cleaned to the word,
      "Python", unless it starts with "I ". */
  lemma CleanTextSpacedWord(w: string)
    requires |w| >= 3 && IsLetter(w[0]) && w[0] != 'I'
    requires forall i :: 1 <= i < |w| ==> IsLower(w[i])
    ensures CleanText(Some(LetterSpaced(w))) == w
  {
    JoinStepsSpacedWord(w);
    CapitalisedNoHit(w);
    CleanAfterJoin(LetterSpaced(w), w);
  }

  /** Once steps 1 to 3 yield a word of letters with no aB adjacency, step 5
      and the final strip keep it. */
  lemma CleanAfterJoin(t: string, w: string)
    requires JoinSteps(t) == w && w != []
    requires forall i :: 0 <= i < |w| ==> IsLetter(w[i])
    requires NoHit(LowerUpper, w)
    ensures CleanText(Some(t)) == w
  {
    LettersNoHit(w);
    SplitAllKeeps(w);
    assert Trimmed(w) by {
      assert IsLetter(w[0]) && IsLetter(w[|w| - 1]);
    }
    StripTrimmed(w);
    calc {
      CleanText(Some(t));
      Strip(SplitAll(JoinSteps(t)));
      Strip(SplitAll(w));
      Strip(w);
      w;
    }
  }

  /** Letters alone hold no 2x and no .x adjacency. */
  lemma LettersNoHit(w: string)
    requires forall i :: 0 <= i < |w| ==> IsLetter(w[i])
    ensures NoHit(DigitLetter, w) && NoHit(PunctLetter, w)
  {
    forall i | 0 <= i < |w| - 1
      ensures !Hit(DigitLetter, w[i], w[i + 1]) && !Hit(PunctLetter, w[i], w[i + 1])
    {
      assert IsLetter(w[i]);
    }
  }

  /** A word whose letters after the first are lowercase has no aB adjacency. */
  lemma CapitalisedNoHit(w: string)
    requires |w| >= 1 && IsLetter(w[0])
    requires forall i :: 1 <= i < |w| ==> IsLower(w[i])
    ensures forall i :: 0 <= i < |w| ==> IsLetter(w[i])
    ensures NoHit(LowerUpper, w)
  {
    forall i | 0 <= i < |w| - 1 ensures !Hit(LowerUpper, w[i], w[i + 1]) {
      assert IsLower(w[i + 1]);
    }
  }
}
