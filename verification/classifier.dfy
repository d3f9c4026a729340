/** `process_response_with_adk`: the reply interpreter. At the consent step it
    sorts the normalised reply into `yes`, `no` or `invalid` by keyword
    search; at every other step it passes the normalised reply through. */
module Classifier {
  import opened Text
  import opened Records

  /** Affirmative keywords, searched first. */
  const Positive: seq<string> := ["yes", "y", "sure", "ok", "okay", "yep", "yeah"]

  /** Negative keywords, searched only when no affirmative one matched. */
  const Negative: seq<string> := ["no", "n", "nope", "nah", "not interested"]

  /** Python's `any(word in text for word in words)`. */
  predicate AnyIn(words: seq<string>, text: string)
    decreases |words|
  {
    |words| > 0 && (Contains(text, words[0]) || AnyIn(words[1..], text))
  }

  function ProcessResponse(response: string, step: Step): (r: string)
    ensures step == Consent ==> r == "yes" || r == "no" || r == "invalid"
    ensures step != Consent ==> IsLower(r) && Trimmed(r)
    ensures step != Consent ==> exists a :: Window(Lower(response), a, r)
  {
    var text := Normalize(response);
    if step == Consent then
      if AnyIn(Positive, text) then "yes"
      else if AnyIn(Negative, text) then "no"
      else "invalid"
    else
      text
  }

  /** The affirmative list collapses to three keywords: "yes", "yep" and
      "yeah" all contain the single letter "y", and "okay" contains "ok". */
  lemma PositiveKeywords(text: string)
    ensures AnyIn(Positive, text) <==> 'y' in text || Contains(text, "ok") || Contains(text, "sure")
  {
    assert AnyIn(Positive, text) <==>
      Contains(text, "yes") || Contains(text, "y") || Contains(text, "sure") || Contains(text, "ok")
      || Contains(text, "okay") || Contains(text, "yep") || Contains(text, "yeah")
    by {
      assert Positive[1..] == ["y", "sure", "ok", "okay", "yep", "yeah"];
      assert Positive[1..][1..] == ["sure", "ok", "okay", "yep", "yeah"];
      assert Positive[1..][1..][1..] == ["ok", "okay", "yep", "yeah"];
      assert Positive[1..][1..][1..][1..] == ["okay", "yep", "yeah"];
      assert Positive[1..][1..][1..][1..][1..] == ["yep", "yeah"];
      assert Positive[1..][1..][1..][1..][1..][1..] == ["yeah"];
      assert Positive[1..][1..][1..][1..][1..][1..][1..] == [];
    }
    if Contains(text, "yes") { ContainsPrefix(text, "yes", "y"); }
    if Contains(text, "yep") { ContainsPrefix(text, "yep", "y"); }
    if Contains(text, "yeah") { ContainsPrefix(text, "yeah", "y"); }
    if Contains(text, "okay") { ContainsPrefix(text, "okay", "ok"); }
    ContainsLetter(text, 'y');
  }

  /** Every negative keyword starts with "n", so the negative list matches
      exactly the texts containing the letter "n". */
  lemma NegativeKeywords(text: string)
    ensures AnyIn(Negative, text) <==> 'n' in text
  {
    assert AnyIn(Negative, text) <==>
      Contains(text, "no") || Contains(text, "n") || Contains(text, "nope") || Contains(text, "nah")
      || Contains(text, "not interested")
    by {
      assert Negative[1..] == ["n", "nope", "nah", "not interested"];
      assert Negative[1..][1..] == ["nope", "nah", "not interested"];
      assert Negative[1..][1..][1..] == ["nah", "not interested"];
      assert Negative[1..][1..][1..][1..] == ["not interested"];
      assert Negative[1..][1..][1..][1..][1..] == [];
    }
    if Contains(text, "no") { ContainsPrefix(text, "no", "n"); }
    if Contains(text, "nope") { ContainsPrefix(text, "nope", "n"); }
    if Contains(text, "nah") { ContainsPrefix(text, "nah", "n"); }
    if Contains(text, "not interested") { ContainsPrefix(text, "not interested", "n"); }
    ContainsLetter(text, 'n');
  }

  /** The consent classification stated letter by letter: affirmative wins
      whenever the normalised reply contains "y", "ok" or "sure", whatever
      negative words it also holds; otherwise any "n" makes it negative;
      otherwise (the empty reply included) it is invalid. */
  lemma ConsentClassification(response: string)
    ensures var text := Normalize(response);
      ProcessResponse(response, Consent) ==
        if 'y' in text || Contains(text, "ok") || Contains(text, "sure") then "yes"
        else if 'n' in text then "no"
        else "invalid"
  {
    PositiveKeywords(Normalize(response));
    NegativeKeywords(Normalize(response));
  }

  /** Outside the consent step the reply is passed through normalised. */
  lemma AnswerIsNormalized(response: string, step: Step)
    requires step != Consent
    ensures ProcessResponse(response, step) == Normalize(response)
  {
    var r := ProcessResponse(response, step);
    var a :| Window(Lower(response), a, r);
    StripIsTheTrimmedWindow(Lower(response), a, r);
  }

  /** The opener "start" carries none of the keyword letters, so at the
      consent step it classifies as `invalid`; the classifier can never
      return "start" there. */
  lemma StartIsInvalid()
    ensures ProcessResponse("start", Consent) == "invalid"
  {
    var text := Normalize("start");
    assert text == "start" by { NormalizeOfNormal("start"); }
    assert !Contains(text, "ok") by { ContainedLetters("start", "ok", 0); }
    assert !Contains(text, "sure") by { ContainedLetters("start", "sure", 1); }
    ConsentClassification("start");
  }

  /** A reply holding both an affirmative and a negative keyword is
      affirmative. */
  lemma MixedReplyIsYes()
    ensures ProcessResponse("Yeah, not interested", Consent) == "yes"
  {
    ConsentClassification("Yeah, not interested");
    assert 'y' in Normalize("Yeah, not interested") by {
      var r := Normalize("Yeah, not interested");
      var a :| Window(Lower("Yeah, not interested"), a, r);
      assert Lower("Yeah, not interested")[0] == 'y';
    }
  }

  /** The plain answers of the simulated leads classify as themselves. The
      reply is a parameter pinned by a `requires`, not a literal in the
      goal, so the verifier does not unfold the text functions on it
      without bound. */
  lemma YesIsYes(reply: string)
    requires reply == "yes"
    ensures ProcessResponse(reply, Consent) == "yes"
  {
    NormalizeOfNormal(reply);
    ConsentClassification(reply);
  }

  lemma NoIsNo(reply: string)
    requires reply == "no"
    ensures ProcessResponse(reply, Consent) == "no"
  {
    NormalizeOfNormal(reply);
    ContainedLetters(reply, "ok", 1);
    ContainedLetters(reply, "sure", 0);
    ConsentClassification(reply);
  }
}
