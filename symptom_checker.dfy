/**
 The keyword symptom checker: a free-text description of symptoms is
 lower-cased and searched for three keywords, and one of three fixed advice
 messages is returned.
 */
module SymptomChecker {
  import opened Text

  const FluMessage := "Possible condition: Flu or COVID-19. Please consult a healthcare professional."
  const MigraineMessage := "Possible condition: Migraine or tension headache."
  const UndeterminedMessage := "Unable to determine condition. Please provide more details or consult a doctor."

  /** Classifies a symptom description. Fever together with cough is checked
      first, headache second; anything else is undetermined. Keywords match
      anywhere in the text, whatever the case of its letters. */
  function AnalyzeSymptoms(symptoms: string): (r: string)
    ensures r == FluMessage || r == MigraineMessage || r == UndeterminedMessage
    ensures r == FluMessage <==> Mentions(symptoms, "fever") && Mentions(symptoms, "cough")
    ensures r == MigraineMessage <==>
              Mentions(symptoms, "headache") && !(Mentions(symptoms, "fever") && Mentions(symptoms, "cough"))
    ensures r == UndeterminedMessage <==>
              !Mentions(symptoms, "headache") && !(Mentions(symptoms, "fever") && Mentions(symptoms, "cough"))
  {
    var lowered := ToLower(symptoms);
    ContainsLoweredIffMentions(symptoms, "fever");
    ContainsLoweredIffMentions(symptoms, "cough");
    ContainsLoweredIffMentions(symptoms, "headache");
    if Contains(lowered, "fever") && Contains(lowered, "cough") then FluMessage
    else if Contains(lowered, "headache") then MigraineMessage
    else UndeterminedMessage
  }

  /** Two descriptions that agree letter for letter once lower-cased get the
      same answer. */
  lemma CaseInsensitive(s: string, t: string)
    requires |s| == |t|
    requires forall i :: 0 <= i < |s| ==> LowerChar(s[i]) == LowerChar(t[i])
    ensures AnalyzeSymptoms(s) == AnalyzeSymptoms(t)
  {
    assert ToLower(s) == ToLower(t);
  }

  /** Lower-casing the description first does not change the answer. */
  lemma AnalyzeLowered(s: string)
    ensures AnalyzeSymptoms(ToLower(s)) == AnalyzeSymptoms(s)
  {
    ToLowerIdempotent(s);
  }

  /** Fever and cough take precedence over headache. */
  lemma FluBeatsHeadache(s: string)
    requires Mentions(s, "fever") && Mentions(s, "cough") && Mentions(s, "headache")
    ensures AnalyzeSymptoms(s) == FluMessage
  {
  }

  /** Describing more symptoms never loses a fever-and-cough answer. */
  lemma FluSurvivesMoreText(s: string, t: string)
    requires AnalyzeSymptoms(s) == FluMessage
    ensures AnalyzeSymptoms(s + t) == FluMessage && AnalyzeSymptoms(t + s) == FluMessage
  {
    MentionsExtend(s, t, "fever");
    MentionsExtend(s, t, "cough");
  }

  /** Describing more symptoms never turns a determined answer into an
      undetermined one. */
  lemma DeterminedSurvivesMoreText(s: string, t: string)
    requires AnalyzeSymptoms(s) != UndeterminedMessage
    ensures AnalyzeSymptoms(s + t) != UndeterminedMessage && AnalyzeSymptoms(t + s) != UndeterminedMessage
  {
    if Mentions(s, "headache") {
      MentionsExtend(s, t, "headache");
    } else {
      MentionsExtend(s, t, "fever");
      MentionsExtend(s, t, "cough");
    }
  }

  /** Fever alone is not enough to reach a diagnosis. */
  lemma FeverAloneUndetermined()
    ensures AnalyzeSymptoms("fever") == UndeterminedMessage
  {
    var s := "fever";
    if Mentions(s, "cough") {
      MentionsFirstLetter(s, "cough");
      assert false;
    }
    if Mentions(s, "headache") {
      assert false;
    }
  }

  /** Matching is by substring: "headaches" counts as a headache. */
  lemma HeadachesIsMigraine()
    ensures AnalyzeSymptoms("headaches") == MigraineMessage
  {
    var s := "headaches";
    assert MatchesAt(s, "headache", 0);
    if Mentions(s, "fever") {
      MentionsFirstLetter(s, "fever");
      assert false;
    }
  }

  /** The mentions used by ShoutedInflectedSymptomsAreFlu, proved separately
      so that its proof need not unfold AnalyzeSymptoms on a literal. */
  lemma ShoutedSampleMentions()
    ensures Mentions("COUGHING and FEVERISH", "cough") && Mentions("COUGHING and FEVERISH", "fever")
  {
    assert MatchesAt("COUGHING and FEVERISH", "cough", 0);
    assert MatchesAt("COUGHING and FEVERISH", "fever", 13);
  }

  /** Matching ignores case and word boundaries. */
  lemma ShoutedInflectedSymptomsAreFlu()
    ensures AnalyzeSymptoms("COUGHING and FEVERISH") == FluMessage
  {
    ShoutedSampleMentions();
  }

  /** The mentions used by NegatedFeverStillMatches, proved separately for
      the same reason. */
  lemma NegatedSampleMentions()
    ensures Mentions("cough but no fever", "cough") && Mentions("cough but no fever", "fever")
  {
    assert MatchesAt("cough but no fever", "cough", 0);
    assert MatchesAt("cough but no fever", "fever", 13);
  }

  /** A negated symptom still matches: the checker does not read "no". */
  lemma NegatedFeverStillMatches()
    ensures AnalyzeSymptoms("cough but no fever") == FluMessage
  {
    NegatedSampleMentions();
  }
}
