/**
 The answer matcher of the health chatbot (`get_response`): normalise the
 query and each stored question, then return the answer of the first entry
 whose question contains, or is contained in, the query, or a fixed default
 sentence when nothing matches.
 */
module Nlp {
  import opened Text
  import opened Scan

  /** One stored fact, exactly as loaded: neither field is normalised. */
  datatype QAEntry = QAEntry(question: string, answer: string)

  /** The stored facts, in file order. */
  type KnowledgeBase = seq<QAEntry>

  /** The answer given when the query is blank or nothing matches. */
  const DefaultAnswer: string := "I'm sorry, I don't have an answer to that question right now."

  /** The characters stripped from the end of a stored question. */
  const Punctuation: StripChars := Chars({'?', '.', '!'})

  /** `user_query.lower().strip()`. */
  function NormalizeQuery(query: string): string {
    Strip(Lower(query), Whitespace)
  }

  /** `question.lower().strip().rstrip('?.!')`. */
  function NormalizeQuestion(question: string): string {
    StripRight(NormalizeQuery(question), Punctuation)
  }

  /** A normalised query has no uppercase letter and no whitespace at either
      end, and it is empty exactly when the raw query is blank (empty or all
      whitespace). */
  lemma NormalizeQuerySpec(query: string)
    ensures var r := NormalizeQuery(query);
      && (forall k :: 0 <= k < |r| ==> !IsUpper(r[k]))
      && (r == [] || (!IsSpace(r[0]) && !IsSpace(r[|r| - 1])))
    ensures NormalizeQuery(query) == [] <==> forall k :: 0 <= k < |query| ==> IsSpace(query[k])
  {
    var l := Lower(query);
    LowerAt(query);
    LowerKeepsSpace(query);
    StripSpec(l, Whitespace);
    var r := NormalizeQuery(query);
    var i :| StrippedAt(l, Whitespace, i, r);
    assert forall k :: 0 <= k < |r| ==> r[k] == l[i + k];
  }

  /** Whitespace is trimmed before the punctuation, so a normalised question
      is a prefix of the same text normalised as a query, with only `?`, `.`
      and `!` cut off its end: a space in front of that punctuation stays. */
  lemma NormalizeQuestionSpec(question: string)
    ensures StrippedAt(NormalizeQuery(question), Punctuation, 0, NormalizeQuestion(question))
    ensures var r := NormalizeQuestion(question);
      r == [] || !Strips(Punctuation, r[|r| - 1])
  {
    StripRightSpec(NormalizeQuery(question), Punctuation);
  }

  /** Whether a normalised question answers a normalised query: the question
      is not empty, and one of the two contains the other. */
  predicate TextMatches(nquery: string, nquestion: string) {
    nquestion != [] && (SubstringOf(nquery, nquestion) || SubstringOf(nquestion, nquery))
  }

  /** Whether an entry answers an already normalised query. */
  predicate Matches(nquery: string, e: QAEntry) {
    TextMatches(nquery, NormalizeQuestion(e.question))
  }

  /** Entry `i` is the first entry of `kb` that matches `nquery`. */
  ghost predicate IsFirstMatch(nquery: string, kb: KnowledgeBase, i: int) {
    && 0 <= i < |kb|
    && Matches(nquery, kb[i])
    && forall j :: 0 <= j < i ==> !Matches(nquery, kb[j])
  }

  /** No entry of `kb` matches `nquery`. */
  ghost predicate NoMatch(nquery: string, kb: KnowledgeBase) {
    forall j :: 0 <= j < |kb| ==> !Matches(nquery, kb[j])
  }

  /** The match rule for one normalised query, as a condition on entries. */
  function MatchRule(nquery: string): QAEntry -> bool {
    e => Matches(nquery, e)
  }

  /** The match rule on normalised questions. */
  function TextRule(nquery: string): string -> bool {
    nquestion => TextMatches(nquery, nquestion)
  }

  /** `get_response(user_query, knowledge_base)`. */
  function GetResponse(query: string, kb: KnowledgeBase): (r: string)
    ensures r == DefaultAnswer || exists i :: 0 <= i < |kb| && r == kb[i].answer
    ensures NormalizeQuery(query) == [] ==> r == DefaultAnswer
    ensures NoMatch(NormalizeQuery(query), kb) ==> r == DefaultAnswer
  {
    var nquery := NormalizeQuery(query);
    if nquery == [] then DefaultAnswer
    else match FirstFrom(kb, MatchRule(nquery), 0)
      case Some(i) => kb[i].answer
      case None => DefaultAnswer
  }

  /** A non-blank query gets the answer of its first matching entry. */
  lemma FirstMatchAnswers(query: string, kb: KnowledgeBase, i: nat)
    requires NormalizeQuery(query) != []
    requires IsFirstMatch(NormalizeQuery(query), kb, i)
    ensures GetResponse(query, kb) == kb[i].answer
  {
    var p := MatchRule(NormalizeQuery(query));
    assert forall j :: 0 <= j <= i ==> (p(kb[j]) <==> Matches(NormalizeQuery(query), kb[j]));
    FirstFromUnique(kb, p, i);
  }

  /** The matching rule in terms of substrings: an entry matches exactly when
      its normalised question is non-empty and either string contains the
      other. */
  lemma MatchesIff(nquery: string, e: QAEntry)
    ensures Matches(nquery, e) <==>
      var nquestion := NormalizeQuestion(e.question);
      nquestion != [] && (Contains(nquestion, nquery) || Contains(nquery, nquestion))
  {
  }

  /** A blank query (empty or all whitespace) gets the default sentence
      whatever the knowledge base holds. */
  lemma BlankQueryGetsDefault(query: string, kb: KnowledgeBase)
    requires forall k :: 0 <= k < |query| ==> IsSpace(query[k])
    ensures GetResponse(query, kb) == DefaultAnswer
  {
    NormalizeQuerySpec(query);
  }

  /** An empty knowledge base always gives the default sentence. */
  lemma EmptyKnowledgeBaseGetsDefault(query: string)
    ensures GetResponse(query, []) == DefaultAnswer
  {
  }

  /** A question that normalises to empty never matches, although the empty
      string is contained in every query. */
  lemma BlankQuestionNeverMatches(nquery: string, e: QAEntry)
    requires NormalizeQuestion(e.question) == []
    ensures Contains(nquery, NormalizeQuestion(e.question))
    ensures !Matches(nquery, e)
  {
    ContainsEmptyAndSelf(nquery);
  }

  /** The query being a substring of the normalised question is enough. */
  lemma QueryInQuestionMatches(nquery: string, e: QAEntry)
    requires nquery != []
    requires Contains(NormalizeQuestion(e.question), nquery)
    ensures Matches(nquery, e)
  {
    var i :| OccursAt(NormalizeQuestion(e.question), nquery, i);
  }

  /** The normalised question, trailing punctuation removed on its side only,
      being a substring of the query is enough. */
  lemma QuestionInQueryMatches(nquery: string, e: QAEntry)
    requires NormalizeQuestion(e.question) != []
    requires Contains(nquery, NormalizeQuestion(e.question))
    ensures Matches(nquery, e)
  {
  }

  /** First match wins: once some entry matches a non-blank query, the
      response is the answer of the earliest matching entry, at or before it. */
  lemma FirstMatchWins(query: string, kb: KnowledgeBase, i: nat)
    requires NormalizeQuery(query) != []
    requires i < |kb| && Matches(NormalizeQuery(query), kb[i])
    ensures exists k :: 0 <= k <= i && IsFirstMatch(NormalizeQuery(query), kb, k)
                        && GetResponse(query, kb) == kb[k].answer
  {
    var nquery := NormalizeQuery(query);
    var p := MatchRule(nquery);
    var m := FirstFrom(kb, p, 0);
    assert p(kb[i]);
    var k := m.value;
    assert k <= i;
    assert IsFirstMatch(nquery, kb, k);
    FirstMatchAnswers(query, kb, k);
  }

  /** Later entries never override an earlier match: appending entries to a
      knowledge base that already answers the query changes nothing. */
  lemma AppendKeepsAnswer(query: string, kb: KnowledgeBase, more: KnowledgeBase)
    requires !NoMatch(NormalizeQuery(query), kb)
    ensures GetResponse(query, kb + more) == GetResponse(query, kb)
  {
    var nquery := NormalizeQuery(query);
    if nquery != [] {
      var i :| 0 <= i < |kb| && Matches(nquery, kb[i]);
      assert MatchRule(nquery)(kb[i]);
      FirstFromAppend(kb, more, MatchRule(nquery));
    }
  }

  /** Inserting an entry whose question normalises to empty anywhere in the
      knowledge base never changes the response. */
  lemma InsertBlankQuestionKeepsAnswer(query: string, kb: KnowledgeBase, at: nat, e: QAEntry)
    requires at <= |kb|
    requires NormalizeQuestion(e.question) == []
    ensures GetResponse(query, kb[..at] + [e] + kb[at..]) == GetResponse(query, kb)
  {
    var nquery := NormalizeQuery(query);
    var kb' := kb[..at] + [e] + kb[at..];
    if nquery != [] {
      var p := MatchRule(nquery);
      assert !p(e);
      FirstFromInsert(kb, at, e, p, kb');
      if FirstFrom(kb, p, 0).Some? {
        var k := FirstFrom(kb, p, 0).value;
        assert kb'[if k < at then k else k + 1] == kb[k];
      }
    }
  }

  /** A query that repeats a stored question word for word is answered, by
      that entry or an earlier one, unless the question normalises to empty. */
  lemma StoredQuestionIsAnswered(kb: KnowledgeBase, i: nat)
    requires i < |kb|
    requires NormalizeQuestion(kb[i].question) != []
    ensures exists k :: 0 <= k <= i && GetResponse(kb[i].question, kb) == kb[k].answer
  {
    var q := kb[i].question;
    NormalizeQuestionSpec(q);
    ContainsPrefix(NormalizeQuery(q), |NormalizeQuestion(q)|);
    assert Matches(NormalizeQuery(q), kb[i]);
    FirstMatchWins(q, kb, i);
  }

  /** Case does not matter on the query side: two queries that lowercase to
      the same string get the same response. */
  lemma QueryCaseInsensitive(q1: string, q2: string, kb: KnowledgeBase)
    requires Lower(q1) == Lower(q2)
    ensures GetResponse(q1, kb) == GetResponse(q2, kb)
  {
  }

  /** In particular a query, its lowercase and its uppercase forms all get the
      same response. */
  lemma LowerUpperQuerySameResponse(query: string, kb: KnowledgeBase)
    ensures GetResponse(Lower(query), kb) == GetResponse(query, kb)
    ensures GetResponse(Upper(query), kb) == GetResponse(query, kb)
  {
    LowerOfCase(query);
    QueryCaseInsensitive(Lower(query), query, kb);
    QueryCaseInsensitive(Upper(query), query, kb);
  }

  /** Two knowledge bases whose entries have, position by position, the same
      normalised question and the same answer give every query the same
      response. */
  lemma SameQuestionsSameResponse(query: string, kb: KnowledgeBase, kb': KnowledgeBase)
    requires |kb| == |kb'|
    requires forall j :: 0 <= j < |kb| ==>
      NormalizeQuestion(kb[j].question) == NormalizeQuestion(kb'[j].question) && kb[j].answer == kb'[j].answer
    ensures GetResponse(query, kb) == GetResponse(query, kb')
  {
    var nquery := NormalizeQuery(query);
    if nquery != [] {
      FirstFromAgree(kb, MatchRule(nquery), kb', MatchRule(nquery), 0);
    }
  }

  /** Case does not matter on the question side either: stored questions
      that lowercase alike, with the same answers, give the same response. */
  lemma QuestionCaseInsensitive(query: string, kb: KnowledgeBase, kb': KnowledgeBase)
    requires |kb| == |kb'|
    requires forall j :: 0 <= j < |kb| ==>
      Lower(kb[j].question) == Lower(kb'[j].question) && kb[j].answer == kb'[j].answer
    ensures GetResponse(query, kb) == GetResponse(query, kb')
  {
    SameQuestionsSameResponse(query, kb, kb');
  }

  /** Text that starts and ends outside whitespace and has no uppercase
      letter, typed right after a query that does not end in whitespace,
      survives normalisation unchanged at the end of the normalised query. */
  lemma NormalizeQueryAppend(query: string, p: string)
    requires p != [] && !IsSpace(p[0]) && !IsSpace(p[|p| - 1])
    requires forall k :: 0 <= k < |p| ==> !IsUpper(p[k])
    requires query == [] || !IsSpace(query[|query| - 1])
    ensures NormalizeQuery(query + p) == NormalizeQuery(query) + p
  {
    var l := Lower(query);
    LowerAppend(query, p);
    LowerNoUpper(p);
    if query != [] {
      LowerKeepsSpace(query);
      assert !IsSpace(l[|l| - 1]);
    }
    StripAppend(l, p, Whitespace);
  }

  /** Extra `?`, `.` or `!` typed after a stored question do not change its
      normalised form, provided the question does not end in whitespace
      (`"cold ?"` keeps its space, where `"cold"` has none). */
  lemma TrailingPunctuationKeepsQuestion(question: string, p: string)
    requires p != [] && forall k :: 0 <= k < |p| ==> Strips(Punctuation, p[k])
    requires question == [] || !IsSpace(question[|question| - 1])
    ensures NormalizeQuestion(question + p) == NormalizeQuestion(question)
  {
    assert Strips(Punctuation, p[0]) && Strips(Punctuation, p[|p| - 1]);
    NormalizeQueryAppend(question, p);
    StripRightAppend(NormalizeQuery(question), p, Punctuation);
  }

  /** The response depends on the stored questions only through their
      normalised forms: scanning those with the same rule picks the same
      entry. */
  lemma ResponseByNormalized(query: string, kb: KnowledgeBase, qs: seq<string>)
    requires |qs| == |kb|
    requires forall j :: 0 <= j < |kb| ==> qs[j] == NormalizeQuestion(kb[j].question)
    ensures NormalizeQuery(query) != [] ==>
      GetResponse(query, kb) ==
        match FirstFrom(qs, TextRule(NormalizeQuery(query)), 0)
        case Some(i) => kb[i].answer
        case None => DefaultAnswer
  {
    var nquery := NormalizeQuery(query);
    FirstFromAgree(kb, MatchRule(nquery), qs, TextRule(nquery), 0);
  }
}
