/**
 * The lexical fact filters of the memory layer: the correction detector,
 * the temporary-emotion filter with its critical-fact override, the fact
 * validator and the priority assignment.  All of them are substring tests
 * against fixed word lists.
 */
module Lexicon {
  import opened Wrappers
  import opened Text

  /** Markers of a user correcting earlier information (app.py:102-106). */
  const CorrectionKeywords: seq<string> := [
    "actually", "no", "correction", "i meant", "i mean",
    "not", "wrong", "mistake", "changed my mind",
    "instead", "rather", "moved to", "now i"
  ]

  /** Phrases of a passing mood that are not worth storing (app.py:113-117). */
  const TemporaryEmotions: seq<string> := [
    "i'm happy", "i'm sad", "i'm angry", "i'm frustrated",
    "i'm tired", "i'm excited", "i hate mondays",
    "i'm annoyed", "i'm bored", "feeling"
  ]

  /** Terms that make a statement worth storing however it is phrased (app.py:120-123). */
  const CriticalTerms: seq<string> := [
    "allergic", "allergy", "medical", "condition",
    "disease", "medication", "emergency"
  ]

  /** Markers of an opinion rather than a fact (app.py:179). */
  const OpinionKeywords: seq<string> := ["think", "feel", "believe", "opinion", "maybe", "probably"]

  /** The two confidence levels worth storing (app.py:171). */
  const AcceptedConfidences: seq<string> := ["HIGH", "MEDIUM"]

  datatype Priority = Critical | Important | Normal

  /** Relationship patterns tried first (app.py:140-146). */
  const CriticalPatterns: seq<(string, Priority)> := [
    ("HAS_NAME", Critical),
    ("HAS_PASSWORD", Critical),
    ("ALLERGIC_TO", Critical),
    ("HAS_MEDICAL", Critical),
    ("EMERGENCY_CONTACT", Critical)
  ]

  /** Relationship patterns tried second (app.py:149-155). */
  const ImportantPatterns: seq<(string, Priority)> := [
    ("LIVES_IN", Important),
    ("WORKS_AS", Important),
    ("WORKS_AT", Important),
    ("STUDIED_AT", Important),
    ("FAMILY_MEMBER", Important)
  ]

  // ---------------------------------------------------------------------
  // detect_correction_keywords
  // ---------------------------------------------------------------------

  /** Does the user message read as a correction of something said before? */
  predicate DetectCorrection(message: string)
    ensures DetectCorrection(message) <==>
              exists k :: 0 <= k < |CorrectionKeywords| && Contains(Lower(message), CorrectionKeywords[k])
  {
    AnyIn(Lower(message), CorrectionKeywords)
  }

  /** The lexicon is redundant: "not" and "now i" already contain "no", and
      "i meant" contains "i mean", so ten markers decide the same thing. */
  const EssentialCorrectionKeywords: seq<string> := [
    "actually", "no", "correction", "i mean", "wrong", "mistake",
    "changed my mind", "instead", "rather", "moved to"
  ]

  /** For each marker, the position of an essential marker that is a prefix of it. */
  const EssentialFor: seq<nat> := [0, 1, 2, 3, 3, 1, 4, 5, 6, 7, 8, 9, 1]

  /** For each essential marker, its position in the full list. */
  const FullFor: seq<nat> := [0, 1, 2, 4, 6, 7, 8, 9, 10, 11]

  lemma EssentialCover()
    ensures |EssentialFor| == |CorrectionKeywords| && |FullFor| == |EssentialCorrectionKeywords|
    ensures forall k :: 0 <= k < |CorrectionKeywords| ==>
              EssentialFor[k] < |EssentialCorrectionKeywords|
              && IsPrefix(EssentialCorrectionKeywords[EssentialFor[k]], CorrectionKeywords[k])
    ensures forall j :: 0 <= j < |EssentialCorrectionKeywords| ==>
              FullFor[j] < |CorrectionKeywords| && CorrectionKeywords[FullFor[j]] == EssentialCorrectionKeywords[j]
  {
  }

  lemma CorrectionLexiconReduces(message: string)
    ensures DetectCorrection(message) <==> AnyIn(Lower(message), EssentialCorrectionKeywords)
  {
    var m := Lower(message);
    EssentialCover();
    if DetectCorrection(message) {
      var k :| 0 <= k < |CorrectionKeywords| && Contains(m, CorrectionKeywords[k]);
      var e := EssentialCorrectionKeywords[EssentialFor[k]];
      var w := CorrectionKeywords[k];
      assert w == e + w[|e|..];
      ContainsPrefixOf(m, e, w[|e|..]);
    }
    if AnyIn(m, EssentialCorrectionKeywords) {
      var j :| 0 <= j < |EssentialCorrectionKeywords| && Contains(m, EssentialCorrectionKeywords[j]);
      assert Contains(m, CorrectionKeywords[FullFor[j]]);
    }
  }

  // ---------------------------------------------------------------------
  // filter_emotional_statements
  // ---------------------------------------------------------------------

  /** True when the text is a passing emotion that must not be stored: some
      emotion phrase occurs in it and no critical term does (a critical term
      always wins). */
  predicate FilterEmotional(text: string)
    ensures FilterEmotional(text) <==>
              (forall k :: 0 <= k < |CriticalTerms| ==> !Contains(Lower(text), CriticalTerms[k]))
              && (exists k :: 0 <= k < |TemporaryEmotions| && Contains(Lower(text), TemporaryEmotions[k]))
  {
    var lowered := Lower(text);
    if AnyIn(lowered, CriticalTerms) then false
    else if AnyIn(lowered, TemporaryEmotions) then true
    else false
  }

  // ---------------------------------------------------------------------
  // validate_fact
  // ---------------------------------------------------------------------

  /** The sentence the emotion filter inspects: the triple joined by spaces. */
  function TripleText(entity1: string, relationship: string, entity2: string): string {
    entity1 + " " + relationship + " " + entity2
  }

  /** Is the candidate triple a real fact worth storing?  Exactly "HIGH" or
      "MEDIUM" confidence, not a passing emotion, and no opinion marker in the
      object (the opinion check ignores the critical terms). */
  predicate Validate(entity1: string, relationship: string, entity2: string, confidence: string)
    ensures Validate(entity1, relationship, entity2, confidence) <==>
              (confidence == "HIGH" || confidence == "MEDIUM")
              && !FilterEmotional(TripleText(entity1, relationship, entity2))
              && forall k :: 0 <= k < |OpinionKeywords| ==> !Contains(Lower(entity2), OpinionKeywords[k])
  {
    if confidence !in AcceptedConfidences then false
    else if FilterEmotional(TripleText(entity1, relationship, entity2)) then false
    else if AnyIn(Lower(entity2), OpinionKeywords) then false
    else true
  }

  /** Anything but exactly "HIGH" or "MEDIUM" is refused, whatever the triple. */
  lemma ConfidenceGate(entity1: string, relationship: string, entity2: string, confidence: string)
    requires confidence != "HIGH" && confidence != "MEDIUM"
    ensures !Validate(entity1, relationship, entity2, confidence)
  {
  }

  /** A critical term overrides the emotion filter: with an accepted
      confidence and no opinion marker in the object, the fact is kept even
      when it is phrased as a feeling. */
  lemma CriticalOverridesEmotion(entity1: string, relationship: string, entity2: string, confidence: string, k: nat)
    requires confidence == "HIGH" || confidence == "MEDIUM"
    requires k < |CriticalTerms| && Contains(Lower(TripleText(entity1, relationship, entity2)), CriticalTerms[k])
    requires !AnyIn(Lower(entity2), OpinionKeywords)
    ensures Validate(entity1, relationship, entity2, confidence)
  {
  }

  /** The critical terms do not protect an opinion: an object containing
      "probably" is refused even for a medical relationship. */
  lemma OpinionNotOverridden(entity1: string, relationship: string, entity2: string, confidence: string)
    requires Contains(Lower(entity2), "probably")
    ensures !Validate(entity1, relationship, entity2, confidence)
  {
    assert OpinionKeywords[5] == "probably";
  }

  // ---------------------------------------------------------------------
  // prioritize_fact
  // ---------------------------------------------------------------------

  /** The priority of the first pattern contained in `key`, trying the patterns in order. */
  function FirstPattern(key: string, patterns: seq<(string, Priority)>): (r: Option<Priority>)
    ensures r.None? <==> forall k :: 0 <= k < |patterns| ==> !Contains(key, patterns[k].0)
    ensures r.Some? ==> exists k :: 0 <= k < |patterns| && Contains(key, patterns[k].0)
                                    && r.value == patterns[k].1
                                    && forall j :: 0 <= j < k ==> !Contains(key, patterns[j].0)
  {
    if patterns == [] then None
    else if Contains(key, patterns[0].0) then Some(patterns[0].1)
    else
      var r := FirstPattern(key, patterns[1..]);
      assert forall k :: 0 < k < |patterns| ==> patterns[k] == patterns[1..][k - 1];
      assert r.Some? ==> exists k :: 0 <= k < |patterns[1..]| && Contains(key, patterns[1..][k].0)
                                    && r.value == patterns[1..][k].1
                                    && forall j :: 0 <= j < k ==> !Contains(key, patterns[1..][j].0);
      assert r.Some? ==> exists k :: 1 <= k < |patterns| && Contains(key, patterns[k].0)
                                    && r.value == patterns[k].1
                                    && forall j :: 0 <= j < k ==> !Contains(key, patterns[j].0);
      r
  }

  /** Every critical pattern carries `Critical`, every important one `Important`. */
  lemma PatternTiers()
    ensures forall k :: 0 <= k < |CriticalPatterns| ==> CriticalPatterns[k].1 == Critical
    ensures forall k :: 0 <= k < |ImportantPatterns| ==> ImportantPatterns[k].1 == Important
  {
  }

  /** The priority tier of a fact.  Only the upper-cased relationship counts:
      `Critical` iff a critical pattern occurs in it, otherwise `Important` iff
      an important pattern does, otherwise `Normal`. */
  function Prioritize(entity1: string, relationship: string, entity2: string): (r: Priority)
    ensures r == Critical <==> exists k :: 0 <= k < |CriticalPatterns| && Contains(Upper(relationship), CriticalPatterns[k].0)
    ensures r == Important <==>
              (forall k :: 0 <= k < |CriticalPatterns| ==> !Contains(Upper(relationship), CriticalPatterns[k].0))
              && exists k :: 0 <= k < |ImportantPatterns| && Contains(Upper(relationship), ImportantPatterns[k].0)
  {
    PatternTiers();
    var key := Upper(relationship);
    match FirstPattern(key, CriticalPatterns)
    case Some(p) => p
    case None =>
      match FirstPattern(key, ImportantPatterns)
      case Some(p) => p
      case None => Normal
  }

  /** A relationship matching both lists is critical. */
  lemma CriticalBeforeImportant(relationship: string, i: nat, j: nat)
    requires i < |CriticalPatterns| && Contains(Upper(relationship), CriticalPatterns[i].0)
    requires j < |ImportantPatterns| && Contains(Upper(relationship), ImportantPatterns[j].0)
    ensures forall e1, e2 :: Prioritize(e1, relationship, e2) == Critical
  {
  }

  // ---------------------------------------------------------------------
  // Worked cases
  // ---------------------------------------------------------------------

  /** "Actually, call me Alexander" is read as a correction. */
  lemma ActuallyIsCorrection()
    ensures DetectCorrection("Actually, call me Alexander")
  {
    var m := Lower("Actually, call me Alexander");
    assert m[..8] == "actually";
    assert Contains(m, CorrectionKeywords[0]);
  }

  /** The marker "no" is matched inside other words, so "I know Bob" also
      counts as a correction. */
  lemma KnowIsCorrection()
    ensures DetectCorrection("I know Bob")
  {
    var m := Lower("I know Bob");
    assert m[3..5] == "no";
    assert OccursAt(m, CorrectionKeywords[1], 3);
    ContainsIff(m, CorrectionKeywords[1]);
  }

  /** A name is a critical fact, whatever the relationship's case. */
  lemma NameIsCritical(entity1: string, entity2: string)
    ensures Prioritize(entity1, "has_name", entity2) == Critical
  {
    var r := Upper("has_name");
    assert r[..8] == "HAS_NAME";
    assert Contains(r, CriticalPatterns[0].0);
  }
}
