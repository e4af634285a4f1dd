/**
 The unit-test scenarios of the chatbot, stated as facts about the model.

 Each scenario is proved in three steps, so that no single proof has to
 evaluate the whole matcher on literals: the query and the stored questions
 are normalised on their own (character by character), the scan is run on the
 normalised strings, and `ResponseByNormalized` joins the two.
 */
module Scenarios {
  import opened Text
  import opened Scan
  import opened Nlp

  /** The three-entry knowledge base the tests share. */
  const SampleKb: KnowledgeBase := [
    QAEntry("What is a cold?", "A cold is a common illness."),
    QAEntry("How to treat fever?", "Rest and fluids."),
    QAEntry("Any advice on headache?", "Pain relievers and rest.")
  ]

  /** Its stored questions, normalised. */
  const SampleQuestions: seq<string> := ["what is a cold", "how to treat fever", "any advice on headache"]

  // ---------------------------------------------------------------------
  // Normalising literals

  /** `t` is `s` lowercased, character by character. */
  predicate LowersTo(s: string, t: string) {
    |s| == |t| && forall i :: 0 <= i < |s| ==> LowerChar(s[i]) == t[i]
  }

  /** A query whose lowercase form has no whitespace at either end normalises
      to that lowercase form. */
  lemma QueryIs(q: string, l: string)
    requires LowersTo(q, l) && l != []
    requires !IsSpace(l[0]) && !IsSpace(l[|l| - 1])
    ensures NormalizeQuery(q) == l
  {
    LowerAt(q);
    assert Lower(q) == l;
    StripUnique(l, Whitespace, 0, l);
  }

  /** A question whose lowercase form is `r` followed by the punctuation `p`,
      with no whitespace at either end, normalises to `r`; `r` itself may end
      in whitespace. */
  lemma QuestionIs(q: string, r: string, p: string)
    requires LowersTo(q, r + p) && r != []
    requires !IsSpace(r[0]) && !Strips(Punctuation, r[|r| - 1])
    requires forall i :: 0 <= i < |p| ==> Strips(Punctuation, p[i])
    requires p != [] && !IsSpace(p[|p| - 1])
    ensures NormalizeQuestion(q) == r
  {
    var l := r + p;
    assert l[|l| - 1] == p[|p| - 1];
    QueryIs(q, l);
    assert l[..|r|] == r;
    StripRightUnique(l, Punctuation, r);
  }

  /** Lowercasing goes piece by piece. */
  lemma LowersToAppend(s1: string, s2: string, t1: string, t2: string)
    requires LowersTo(s1, t1) && LowersTo(s2, t2)
    ensures LowersTo(s1 + s2, t1 + t2)
  {
    assert forall i :: |s1| <= i < |s1 + s2| ==> (s1 + s2)[i] == s2[i - |s1|];
  }

  lemma ColdLowers()
    ensures LowersTo("What is a cold?", "what is a cold" + "?")
  {
  }

  lemma FeverLowers()
    ensures LowersTo("How to treat fever?", "how to treat fever" + "?")
  {
  }

  lemma HeadacheLowers()
    ensures LowersTo("Any advice on headache?", "any advice on headache" + "?")
  {
  }

  lemma ColdQuestion()
    ensures NormalizeQuestion("What is a cold?") == "what is a cold"
  {
    ColdLowers();
    QuestionIs("What is a cold?", "what is a cold", "?");
  }

  lemma FeverQuestion()
    ensures NormalizeQuestion("How to treat fever?") == "how to treat fever"
  {
    FeverLowers();
    QuestionIs("How to treat fever?", "how to treat fever", "?");
  }

  lemma HeadacheQuestion()
    ensures NormalizeQuestion("Any advice on headache?") == "any advice on headache"
  {
    HeadacheLowers();
    QuestionIs("Any advice on headache?", "any advice on headache", "?");
  }

  /** A knowledge base whose questions normalise as the sample's do. */
  ghost predicate LikeSample(kb: KnowledgeBase) {
    && |kb| == |SampleQuestions|
    && forall j :: 0 <= j < |kb| ==> NormalizeQuestion(kb[j].question) == SampleQuestions[j]
  }

  lemma SampleKbNormalized()
    ensures LikeSample(SampleKb)
  {
    forall j | 0 <= j < |SampleKb|
      ensures NormalizeQuestion(SampleKb[j].question) == SampleQuestions[j]
    {
      if j == 0 {
        ColdQuestion();
      } else if j == 1 {
        FeverQuestion();
      } else {
        HeadacheQuestion();
      }
    }
  }

  // ---------------------------------------------------------------------
  // Scanning the normalised questions

  /** The normalised queries of the tests that reach the scan. */
  const Exact: string := "what is a cold?"
  const Partial: string := "cold"
  const LongAdvice: string := "could you give me " + "any advice on headache please?"
  const Unknown: string := "what is the " + "meaning of life?"
  const Advice: string := "advice on headache"

  /** The scan over the sample questions stops at `k`. */
  lemma ScanStopsAt(nquery: string, k: nat)
    requires k < |SampleQuestions| && TextMatches(nquery, SampleQuestions[k])
    requires forall j :: 0 <= j < k ==> !TextMatches(nquery, SampleQuestions[j])
    ensures FirstFrom(SampleQuestions, TextRule(nquery), 0) == Some(k)
  {
    FirstFromUnique(SampleQuestions, TextRule(nquery), k);
  }

  /** Neither of two strings, each holding a character the other lacks,
      contains the other. */
  lemma Misses(nquery: string, nquestion: string, c: char, d: char)
    requires c in nquestion && c !in nquery
    requires d in nquery && d !in nquestion
    ensures !TextMatches(nquery, nquestion)
  {
    MissingCharNotContained(nquery, nquestion, c);
    MissingCharNotContained(nquestion, nquery, d);
  }

  lemma ScanExact()
    ensures FirstFrom(SampleQuestions, TextRule(Exact), 0) == Some(0)
  {
    assert OccursAt(Exact, SampleQuestions[0], 0);
    ScanStopsAt(Exact, 0);
  }

  lemma ScanPartial()
    ensures FirstFrom(SampleQuestions, TextRule(Partial), 0) == Some(0)
  {
    assert OccursAt(SampleQuestions[0], Partial, 10);
    ScanStopsAt(Partial, 0);
  }

  lemma LongAdviceMisses()
    ensures !TextMatches(LongAdvice, SampleQuestions[0])
    ensures !TextMatches(LongAdvice, SampleQuestions[1])
  {
    Misses(LongAdvice, SampleQuestions[0], 'w', 'v');
    Misses(LongAdvice, SampleQuestions[1], 'w', 'c');
  }

  lemma LongAdviceHits()
    ensures TextMatches(LongAdvice, SampleQuestions[2])
  {
    assert LongAdvice[18..40] == SampleQuestions[2];
    assert OccursAt(LongAdvice, SampleQuestions[2], 18);
  }

  lemma ScanLongAdvice()
    ensures FirstFrom(SampleQuestions, TextRule(LongAdvice), 0) == Some(2)
  {
    LongAdviceMisses();
    LongAdviceHits();
    forall j | 0 <= j < 2
      ensures !TextMatches(LongAdvice, SampleQuestions[j])
    {
      if j == 0 {} else {}
    }
    ScanStopsAt(LongAdvice, 2);
  }

  lemma UnknownMisses()
    ensures !TextMatches(Unknown, SampleQuestions[0])
    ensures !TextMatches(Unknown, SampleQuestions[1])
    ensures !TextMatches(Unknown, SampleQuestions[2])
  {
    Misses(Unknown, SampleQuestions[0], 'c', 'm');
    Misses(Unknown, SampleQuestions[1], 'v', 'm');
    Misses(Unknown, SampleQuestions[2], 'v', 'm');
  }

  lemma ScanUnknown()
    ensures FirstFrom(SampleQuestions, TextRule(Unknown), 0) == None
  {
    UnknownMisses();
    forall j | 0 <= j < |SampleQuestions|
      ensures !TextRule(Unknown)(SampleQuestions[j])
    {
      if j == 0 {} else if j == 1 {} else {}
    }
  }

  lemma AdviceMisses()
    ensures !TextMatches(Advice, SampleQuestions[0])
    ensures !TextMatches(Advice, SampleQuestions[1])
  {
    Misses(Advice, SampleQuestions[0], 'w', 'v');
    Misses(Advice, SampleQuestions[1], 'w', 'd');
  }

  lemma AdviceHits()
    ensures TextMatches(Advice, SampleQuestions[2])
  {
    assert OccursAt(SampleQuestions[2], Advice, 4);
  }

  lemma ScanAdvice()
    ensures FirstFrom(SampleQuestions, TextRule(Advice), 0) == Some(2)
  {
    AdviceMisses();
    AdviceHits();
    forall j | 0 <= j < 2
      ensures !TextMatches(Advice, SampleQuestions[j])
    {
      if j == 0 {} else {}
    }
    ScanStopsAt(Advice, 2);
  }

  // ---------------------------------------------------------------------
  // The scenarios, for every knowledge base shaped like the sample

  /** The query found in the scan is answered by the entry at that index. */
  lemma AnsweredBy(query: string, kb: KnowledgeBase, k: nat)
    requires LikeSample(kb) && NormalizeQuery(query) != []
    requires FirstFrom(SampleQuestions, TextRule(NormalizeQuery(query)), 0) == Some(k)
    ensures k < |kb| && GetResponse(query, kb) == kb[k].answer
  {
    ResponseByNormalized(query, kb, SampleQuestions);
  }

  lemma ExactMatchIn(query: string, kb: KnowledgeBase)
    requires LikeSample(kb) && NormalizeQuery(query) == Exact
    ensures GetResponse(query, kb) == kb[0].answer
  {
    ScanExact();
    AnsweredBy(query, kb, 0);
  }

  lemma QueryInQuestionIn(query: string, kb: KnowledgeBase)
    requires LikeSample(kb) && NormalizeQuery(query) == Partial
    ensures GetResponse(query, kb) == kb[0].answer
  {
    ScanPartial();
    AnsweredBy(query, kb, 0);
  }

  lemma QuestionInQueryIn(query: string, kb: KnowledgeBase)
    requires LikeSample(kb) && NormalizeQuery(query) == LongAdvice
    ensures GetResponse(query, kb) == kb[2].answer
  {
    ScanLongAdvice();
    AnsweredBy(query, kb, 2);
  }

  lemma UnknownQuestionIn(query: string, kb: KnowledgeBase)
    requires LikeSample(kb) && NormalizeQuery(query) == Unknown
    ensures GetResponse(query, kb) == DefaultAnswer
  {
    ScanUnknown();
    ResponseByNormalized(query, kb, SampleQuestions);
  }

  lemma PunctuationInQuestionIn(query: string, kb: KnowledgeBase)
    requires LikeSample(kb) && NormalizeQuery(query) == Advice
    ensures GetResponse(query, kb) == kb[2].answer
  {
    ScanAdvice();
    AnsweredBy(query, kb, 2);
  }

  // ---------------------------------------------------------------------
  // The scenarios on the sample itself

  /** A stored question asked word for word gets its answer. */
  lemma KnownQuestionExactMatch()
    ensures GetResponse("What is a cold?", SampleKb) == "A cold is a common illness."
  {
    QueryIs("What is a cold?", Exact);
    SampleKbNormalized();
    ExactMatchIn("What is a cold?", SampleKb);
  }

  /** The same question in another case gets the same answer. */
  lemma KnownQuestionCaseInsensitive()
    ensures GetResponse("what IS a CoLd?", SampleKb) == "A cold is a common illness."
  {
    QueryIs("what IS a CoLd?", Exact);
    SampleKbNormalized();
    ExactMatchIn("what IS a CoLd?", SampleKb);
  }

  /** A query contained in a stored question gets its answer. */
  lemma PartialMatchQueryInQuestion()
    ensures GetResponse("cold", SampleKb) == "A cold is a common illness."
  {
    QueryIs("cold", Partial);
    SampleKbNormalized();
    QueryInQuestionIn("cold", SampleKb);
  }

  /** A stored question, its `?` dropped, inside a longer query gets its
      answer; the two earlier entries do not match. */
  lemma PartialMatchQuestionInQuery()
    ensures GetResponse("Could you give me " + "any advice on headache please?", SampleKb)
            == "Pain relievers and rest."
  {
    var q1, q2 := "Could you give me ", "any advice on headache please?";
    LowersToAppend(q1, q2, "could you give me ", q2);
    QueryIs(q1 + q2, LongAdvice);
    SampleKbNormalized();
    QuestionInQueryIn(q1 + q2, SampleKb);
  }

  /** A question unrelated to every entry gets the default sentence. */
  lemma UnknownQuestion()
    ensures GetResponse("What is the " + "meaning of life?", SampleKb) == DefaultAnswer
  {
    var q1, q2 := "What is the ", "meaning of life?";
    LowersToAppend(q1, q2, "what is the ", q2);
    QueryIs(q1 + q2, Unknown);
    SampleKbNormalized();
    UnknownQuestionIn(q1 + q2, SampleKb);
  }

  /** The empty and all-space queries, and an empty knowledge base. */
  lemma DefaultCases()
    ensures GetResponse("", SampleKb) == DefaultAnswer
    ensures GetResponse("   ", SampleKb) == DefaultAnswer
    ensures GetResponse("Any question", []) == DefaultAnswer
  {
    BlankQueryGetsDefault("", SampleKb);
    BlankQueryGetsDefault("   ", SampleKb);
  }

  /** A query without the stored question's trailing `?` still finds it,
      since the `?` is dropped on the question side. */
  lemma QuestionWithPunctuationInKb()
    ensures GetResponse("advice on headache", SampleKb) == "Pain relievers and rest."
  {
    QueryIs(Advice, Advice);
    SampleKbNormalized();
    PunctuationInQuestionIn(Advice, SampleKb);
  }

  /** Whitespace is trimmed before punctuation, so a space in front of a
      trailing `?` survives normalisation. */
  lemma SpaceBeforePunctuationSurvives()
    ensures NormalizeQuestion("Cold ?") == "cold "
  {
    QuestionIs("Cold ?", "cold ", "?");
  }
}
