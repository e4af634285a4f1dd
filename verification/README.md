# Health chatbot matcher, modelled in Dafny

The health chatbot answers a free-text question from a small knowledge base
of question/answer pairs. Its only logic is `get_response`. The function
works in four steps:

1. It lowercases and trims the query. A blank query gets a fixed default
   sentence.
2. It normalises each stored question. The question is lowercased and
   trimmed, then any run of trailing `?`, `.` and `!` is removed. A question
   that ends up empty is skipped.
3. It returns, verbatim, the answer of the first entry whose normalised
   question contains the normalised query, or is contained in it.
4. If no entry matches, it returns the default sentence.

The model has three modules, plus one module of worked examples:

- `Text` (`text.dfy`) models the string primitives:
  - Python's `str.lower()`, on ASCII letters;
  - `str.strip()` and `str.rstrip(chars)`, through one character-set
    parameter. `Whitespace` is exactly the set `str.isspace()` accepts;
  - `t in s` on strings, against the reference predicate `Contains`.
- `Scan` (`scan.dfy`) models the `for` loop that returns at the first
  element satisfying a condition.
- `Nlp` (`nlp.dfy`) models the knowledge-base entry, the two
  normalisations, the match rule and `GetResponse`, with the lemmas about
  them.
- `Scenarios` (`scenarios.dfy`) states the unit tests of `get_response` as
  lemmas about the model. Each test is stated twice:
  - for every knowledge base whose questions normalise like the test's
    sample (the `...In` lemmas);
  - for the sample itself.

Python's `str` values are modelled as `seq<char>`. A knowledge base is a
`seq<QAEntry>` in file order.

## Model

| member | source | states |
|---|---|---|
| Nlp.GetResponse | health_chatbot_project/chatbot/nlp.py:3-29 | The response is either the default sentence or the answer of some entry, unchanged. A query that normalises to empty gets the default. So does any query that no entry matches. |
| Nlp.FirstMatchAnswers | health_chatbot_project/chatbot/nlp.py:18-27 | A non-blank query whose first matching entry is entry `i` gets exactly `kb[i].answer`. |
| Nlp.FirstMatchWins | health_chatbot_project/chatbot/nlp.py:18-27 | If entry `i` matches a non-blank query, then some `k <= i` is the first matching entry and the response is `kb[k].answer`. |
| Nlp.AppendKeepsAnswer | health_chatbot_project/chatbot/nlp.py:18-27 | Once some entry of `kb` matches, appending more entries never changes the response. Later entries never override an earlier match. |
| Nlp.BlankQueryGetsDefault | health_chatbot_project/chatbot/nlp.py:14-16 | A query made only of whitespace, including the empty query, gets the default sentence whatever the knowledge base holds. |
| Nlp.EmptyKnowledgeBaseGetsDefault | health_chatbot_project/chatbot/nlp.py:18-29 | Every query gets the default sentence from an empty knowledge base. |
| Nlp.NormalizeQuerySpec | health_chatbot_project/chatbot/nlp.py:14-15 | The normalised query has no uppercase letter and no whitespace at either end. It is empty exactly when every character of the raw query is whitespace. |
| Nlp.NormalizeQuestionSpec | health_chatbot_project/chatbot/nlp.py:21 | The normalised question is a prefix of the question normalised as a query. Only `?`, `.` and `!` follow it, and it does not itself end in one of them. Whitespace is trimmed first, so a space before the punctuation stays. |
| Nlp.MatchesIff | health_chatbot_project/chatbot/nlp.py:21-26 | An entry matches exactly when its normalised question is non-empty and one of the two normalised strings contains the other. |
| Nlp.BlankQuestionNeverMatches | health_chatbot_project/chatbot/nlp.py:21-24 | An entry whose question normalises to empty never matches, although the empty string is contained in every query. |
| Nlp.QueryInQuestionMatches | health_chatbot_project/chatbot/nlp.py:26 | A non-empty normalised query contained in an entry's normalised question makes that entry match. |
| Nlp.QuestionInQueryMatches | health_chatbot_project/chatbot/nlp.py:21-26 | A non-empty normalised question contained in the normalised query makes the entry match. The question has its trailing punctuation removed; the query does not. |
| Nlp.InsertBlankQuestionKeepsAnswer | health_chatbot_project/chatbot/nlp.py:21-24 | Inserting an entry whose question normalises to empty, at any position, never changes any response. |
| Nlp.StoredQuestionIsAnswered | health_chatbot_project/chatbot/nlp.py:14-27 | Asking a stored question verbatim gets the answer of that entry or of an earlier one, unless the question normalises to empty. |
| Nlp.QueryCaseInsensitive | health_chatbot_project/chatbot/nlp.py:14 | Two queries with the same lowercase form get the same response. |
| Nlp.LowerUpperQuerySameResponse | health_chatbot_project/chatbot/nlp.py:14 | A query, its lowercase form and its uppercase form all get the same response. |
| Nlp.SameQuestionsSameResponse | health_chatbot_project/chatbot/nlp.py:18-27 | Two knowledge bases give every query the same response when their entries have, position by position, the same normalised question and the same answer. |
| Nlp.QuestionCaseInsensitive | health_chatbot_project/chatbot/nlp.py:21 | Stored questions are lowercased too. Changing the case of any stored question, with its answer kept, never changes a response. |
| Nlp.NormalizeQueryAppend | health_chatbot_project/chatbot/nlp.py:14 | Text without uppercase letters and without whitespace at its ends, typed after a query that does not end in whitespace, stays at the end of the normalised query. |
| Nlp.TrailingPunctuationKeepsQuestion | health_chatbot_project/chatbot/nlp.py:21 | Adding `?`, `.` or `!` after a stored question that does not end in whitespace leaves its normalised form unchanged. |
| Nlp.ResponseByNormalized | health_chatbot_project/chatbot/nlp.py:18-27 | The response depends on the stored questions only through their normalised forms. Scanning those forms with the match rule picks the same entry. |
| Text.LowerChar | health_chatbot_project/chatbot/nlp.py:14 | A lowercased character is never an uppercase letter. Non-letters are unchanged, and an uppercase letter moves by the fixed ASCII offset. |
| Text.LowerAt | health_chatbot_project/chatbot/nlp.py:14 | `lower()` changes each character on its own and keeps the length. |
| Text.LowerOfCase | health_chatbot_project/chatbot/nlp.py:14 | Lowercasing is idempotent and erases an earlier uppercasing. |
| Text.LowerKeepsSpace | health_chatbot_project/chatbot/nlp.py:14 | Lowercasing neither creates nor removes whitespace, so lowering before trimming trims the same characters. |
| Text.SubstringOf | health_chatbot_project/chatbot/nlp.py:26 | Python's `t in s` holds exactly when `t` occurs in `s` at some offset, according to the reference predicate `Contains`. |
| Text.ContainsEmptyAndSelf | health_chatbot_project/chatbot/nlp.py:23-26 | The empty string occurs in every string, which is why empty questions must be skipped. Every string occurs in itself. |
| Text.LeadingCountSpec | health_chatbot_project/chatbot/nlp.py:14 | The characters `strip` drops at the front form the longest leading run from the strip set. |
| Text.TrailingCountSpec | health_chatbot_project/chatbot/nlp.py:21 | The characters `rstrip` drops form the longest trailing run from the strip set. |
| Text.StripSpec | health_chatbot_project/chatbot/nlp.py:14 | `strip()` keeps a slice of the input with only strip-set characters around it, and the slice neither starts nor ends with one. The result is empty exactly when every input character is in the set. |
| Text.StripUnique | health_chatbot_project/chatbot/nlp.py:14 | Any slice with that shape is the result of `strip()`. |
| Text.StripRightSpec | health_chatbot_project/chatbot/nlp.py:21 | `rstrip(chars)` keeps a prefix of the input followed only by characters from `chars`, and the prefix does not end in one. |
| Text.StripRightUnique | health_chatbot_project/chatbot/nlp.py:21 | Any prefix with that shape is the result of `rstrip(chars)`. |
| Text.StripRightAppend | health_chatbot_project/chatbot/nlp.py:21 | `rstrip(chars)` drops any run of characters from `chars` appended to a string. The result equals `rstrip` of the string alone. |
| Text.StripAppend | health_chatbot_project/chatbot/nlp.py:14 | Text that starts and ends outside the strip set, appended to a string that does not end in the set, is kept whole at the end of the `strip()` result. |
| Scan.FirstFrom | health_chatbot_project/chatbot/nlp.py:18-27 | The loop returns at the lowest index whose element satisfies the condition. It finds nothing exactly when no element satisfies it. |
| Scan.FirstFromUnique | health_chatbot_project/chatbot/nlp.py:18-27 | Any index that satisfies the condition, with none before it, is the index the loop returns. |
| Scan.FirstFromAppend | health_chatbot_project/chatbot/nlp.py:18-27 | Elements appended after a satisfying one are never reached. |
| Scan.FirstFromInsert | health_chatbot_project/chatbot/nlp.py:18-27 | Inserting an element that fails the condition only shifts the index found, when that index lies past the insertion point. |
| Scan.FirstFromAgree | health_chatbot_project/chatbot/nlp.py:18-27 | Two loops whose conditions agree position by position return the same index. |
| Scenarios.SampleKbNormalized | health_chatbot_project/tests/test_chatbot.py:27-31 | The sample's stored questions normalise to "what is a cold", "how to treat fever" and "any advice on headache", each losing its `?`. |
| Scenarios.ExactMatchIn | health_chatbot_project/tests/test_chatbot.py:54-57 | A query normalising to "what is a cold?" gets the first entry's answer from any knowledge base normalised like the sample. |
| Scenarios.KnownQuestionExactMatch | health_chatbot_project/tests/test_chatbot.py:54-57 | "What is a cold?" gets "A cold is a common illness." from the sample. |
| Scenarios.KnownQuestionCaseInsensitive | health_chatbot_project/tests/test_chatbot.py:59-62 | "what IS a CoLd?" gets the same answer. |
| Scenarios.QueryInQuestionIn | health_chatbot_project/tests/test_chatbot.py:64-68 | A query normalising to "cold" gets the first entry's answer from any knowledge base normalised like the sample. |
| Scenarios.PartialMatchQueryInQuestion | health_chatbot_project/tests/test_chatbot.py:64-68 | "cold" gets "A cold is a common illness." from the sample. |
| Scenarios.QuestionInQueryIn | health_chatbot_project/tests/test_chatbot.py:70-76 | A query normalising to "could you give me any advice on headache please?" skips the first two entries and gets the third entry's answer. |
| Scenarios.PartialMatchQuestionInQuery | health_chatbot_project/tests/test_chatbot.py:70-76 | "Could you give me any advice on headache please?" gets "Pain relievers and rest." from the sample. |
| Scenarios.UnknownQuestionIn | health_chatbot_project/tests/test_chatbot.py:78-81 | A query normalising to "what is the meaning of life?" matches no entry and gets the default sentence. |
| Scenarios.UnknownQuestion | health_chatbot_project/tests/test_chatbot.py:78-81 | "What is the meaning of life?" gets the default sentence from the sample. |
| Scenarios.DefaultCases | health_chatbot_project/tests/test_chatbot.py:83-96 | The empty query and the all-space query get the default sentence from the sample. The query "Any question" gets it from an empty knowledge base. |
| Scenarios.PunctuationInQuestionIn | health_chatbot_project/tests/test_chatbot.py:98-103 | A query normalising to "advice on headache" gets the third entry's answer. It matches because the stored question's `?` is dropped. |
| Scenarios.QuestionWithPunctuationInKb | health_chatbot_project/tests/test_chatbot.py:98-103 | "advice on headache" gets "Pain relievers and rest." from the sample. |
| Scenarios.SpaceBeforePunctuationSurvives | health_chatbot_project/chatbot/nlp.py:21 | "Cold ?" normalises to "cold ", with its inner space kept. Whitespace is trimmed before the punctuation and not again after it. |

## Left out

- Loading the knowledge base (`knowledge_base.py`) is left out. It consists of file opening, UTF-8 decoding, CSV parsing by the `csv` library, re-raising `FileNotFoundError`, and printing other errors while returning an empty list. All of this is I/O. The model takes its result as a `seq<QAEntry>` in file order.
- The interactive loop (`main.py`) is left out: `input`, `print`, the `exit`/`quit` words and `sys.exit`. It is console glue around `get_response`.
- The `__main__` demonstration blocks of `nlp.py` and `knowledge_base.py` are left out. They only print sample calls.
- A missing `"Question"` or `"Answer"` key, which raises `KeyError` in Python, cannot occur in the model: both are fields of `QAEntry`.
- Text.Lower: lowercases only the ASCII letters `A`-`Z`. Python's `str.lower()` also lowercases other Unicode letters, and some of them change length. Text.Upper has the same restriction. The case-invariance lemmas therefore hold for the ASCII model only; in Python, `"ß".upper()` is `"SS"`, so uppercasing is not always invisible to the matcher.
- Python strings may hold lone surrogate code points; Dafny's `char` cannot. The model covers strings without them.
