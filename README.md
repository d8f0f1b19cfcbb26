# AI-Powered Tools dashboard — a Dafny model of its text-processing core

The dashboard is a single Streamlit script, `all.py`. Around its user interface and
network code it performs four small, deterministic transformations, and this project
models each one and proves what it promises:

- **Notebook reviewer** (`review_notebook`). The exported Python source of an uploaded
  notebook is checked against three fixed rules: `"print "`, `"except:"` and `"# TODO"`.
  One more rule reports each `def .*\(.*\):` match longer than 50 characters. A placeholder
  is returned when nothing fires, and a single error message when the notebook could not
  be read. Modules `NotebookReview` and `DefPattern`. `DefPattern` gives the leftmost,
  longest, non-overlapping match set of the regular expression without a regex engine.
- **Question generator** (`generate_questions`). The text is split at runs of `.`, `!`
  and `?`. Each piece is stripped and the empty ones are dropped. Each remaining sentence
  gets one templated question: a "what did" question for a pronoun opening, a "why"
  question when `is`/`are`/`was`/`were` occurs, or a fallback "context" question. At most
  20 questions are kept, and a placeholder replaces an empty list. Module `QuestionGenerator`.
- **Submission statistics** (inside `get_leetcode_stats`). The accepted-submission counts
  are turned into a map from difficulty to count, without the overall `"All"` row. The
  total solved is the sum of that map's values. Module `SubmissionStats`.
- **Profile ID check** (inside `main`). An empty entry is refused. Otherwise the stripped
  entry must match `^[\w-]+$`, and the stripped entry is the ID that is looked up.
  Module `ProfileId`.

Module `Text` holds the Python string operations these rely on: `strip`, `lower`, `in`,
`startswith`, slicing, `split(sep)[0]` and `split()[0]`.

The two loops of the script, in `review_notebook` and in `generate_questions`, are
methods with `for` loops. Each is proved equal to a specification function, and the
promised properties are lemmas about those functions. The statistics step and the ID
check are expressions in the source, so they are functions here.

## Model

| member | source | states |
|---|---|---|
| NotebookReview.ReviewNotebook | all.py:61-81 | the loop that appends suggestions returns exactly `Review(x)`: the three fixed rules, then one suggestion per long match in match order, the placeholder when the list is empty, and the error message for a failed extraction |
| NotebookReview.ReviewFailSoft | all.py:52-81 | the review is never empty; a failed extraction yields exactly one message, `"Error reviewing notebook: "` followed by the failure's description |
| NotebookReview.PlaceholderIffNothingFires | all.py:63-79 | the result is exactly the placeholder when and only when none of the three substrings occurs and no matched definition is longer than 50 characters |
| NotebookReview.FixedRulesFireOnce | all.py:63-70 | each fixed suggestion occurs exactly once in the result when its substring occurs, however many times, and not at all otherwise |
| NotebookReview.ReviewOrder | all.py:63-77 | suggestions come in the order print, except, TODO, then long definitions; a fixed-rule suggestion is strictly before every later one, so none repeats |
| NotebookReview.LongDefAdvicesExact | all.py:74-77 | the long-definition rule gives exactly one suggestion per match longer than 50, duplicates included; the k-th one quotes the k-th long match |
| NotebookReview.LongDefAdvicesEmpty | all.py:75-76 | the long-definition rule adds nothing if and only if every match has at most 50 characters |
| NotebookReview.LongDefAdvicesAppend | all.py:75-77 | the rule works match by match: two runs of matches give the suggestions of the first followed by those of the second |
| NotebookReview.LongDefAdviceOne | all.py:76-77 | one match longer than 50 adds exactly its own suggestion; a shorter one adds nothing |
| NotebookReview.LongDefAdvice | all.py:77 | a long-definition suggestion starts with `"Long function definition found: "` followed by the first 30 characters of the definition |
| NotebookReview.LongDefAdvicesShape | all.py:77 | every long-definition suggestion starts with its fixed prefix |
| NotebookReview.LongDefAdviceDistinct | all.py:77-79 | a long-definition suggestion is neither a fixed-rule message nor the placeholder |
| NotebookReview.FixedMessagesDistinct | all.py:63-79 | the three fixed messages and the placeholder are pairwise different |
| NotebookReview.LongIndices | all.py:74-76 | the indices of the matches longer than 50: in range, long, strictly increasing and complete |
| NotebookReview.ShortSourceNoLongDefs | all.py:74-76 | source text of at most 50 characters never gets a long-definition suggestion |
| NotebookReview.EmptySourceLooksGood | all.py:79 | empty source text gets the placeholder |
| NotebookReview.PrintOnlyExample | all.py:61-79 | the source `"def f(a):\n    print 'x'\n"` gets exactly the print suggestion |
| NotebookReview.AbsentChar | all.py:63-70 | a substring holding a character the code lacks does not occur in it, so its rule does not fire |
| DefPattern.MatchEnd | all.py:74 | the match found at a position, if any, is the longest full match of `def .*\(.*\):` starting there; when none is found, no match starts there |
| DefPattern.ScanIsFindAll | all.py:74 | the scan reports longest matches in increasing order without overlap, and every position where a match starts lies inside a reported match |
| DefPattern.MatchShape | all.py:74 | a match starts with `"def "`, holds a `(` after it, ends with `"):"`, holds no line feed and occurs in the code |
| DefPattern.DefShape | all.py:74 | every string `findall` returns is the text of a reported longest match and has the shape above |
| QuestionGenerator.GenerateQuestions | all.py:83-100 | the loop over the split text returns exactly `Questions(text)` |
| QuestionGenerator.QuestionPerSentence | all.py:84-100 | one question per non-empty stripped piece, in order, the first 20 kept; the placeholder exactly when there is none, so always 1 to 20 questions |
| QuestionGenerator.SplitOnRuns | all.py:84 | splitting always yields at least one piece |
| QuestionGenerator.SplitPartsHaveNoDelimiter | all.py:84 | no piece of the split holds `.`, `!` or `?` |
| QuestionGenerator.SplitKeepsText | all.py:84 | the pieces, put back together, are the text with every delimiter removed |
| QuestionGenerator.RunsDoNotMatter | all.py:84-90 | splitting at runs and splitting at every single delimiter give the same sentences |
| QuestionGenerator.SentencesOfJoin | all.py:84-90 | the sentences of two texts joined by a delimiter are those of the first followed by those of the second |
| QuestionGenerator.SentencesAppend | all.py:87-90 | sentences are collected piece by piece, left to right |
| QuestionGenerator.PronounQuestion | all.py:93-94 | a sentence opening with `"He "`, `"She "`, `"It "`, `"They "`, `"We "` or `"I "` yields `"What did "` + that pronoun lower-cased + `" do?"` |
| QuestionGenerator.WhyQuestion | all.py:95-96 | otherwise, if a copula occurs in the lower-cased sentence, the question is `"Why "` + the lower-cased sentence up to its first `" is "` + `"?"`, or the whole lower-cased sentence when it holds no `" is "` |
| QuestionGenerator.ContextQuestion | all.py:97-98 | otherwise the question quotes the first 30 characters of the sentence, or all of a shorter one |
| QuestionGenerator.QuestionIsNotPlaceholder | all.py:93-100 | no generated question equals the placeholder, so the placeholder marks an empty result only |
| QuestionGenerator.TemplateOrder | all.py:93-98 | the template of a question can be read off its opening, and each template is chosen exactly when the earlier rules do not apply and its own does |
| SubmissionStats.DifficultyStats | all.py:140 | `"All"` is never a key, and the keys are exactly the other reported difficulties |
| SubmissionStats.LastEntryWins | all.py:140 | a difficulty reported more than once keeps the count of its last entry |
| SubmissionStats.TotalIsSumOfStats | all.py:140-141 | the total counted over the entries equals the sum of the values of the statistics map |
| SubmissionStats.DistinctTotal | all.py:140-141 | when every difficulty is reported once, the total is the sum of every count except the `"All"` one |
| SubmissionStats.MapSumRemove | all.py:141 | the sum of a map's values does not depend on the order the keys are taken in |
| ProfileId.MatchIdPattern | all.py:186 | the greedy match of `^[\w-]+$` agrees with the pattern's meaning: a non-empty run of `[\w-]` followed by the end, or by a final line feed |
| ProfileId.MatchStripped | all.py:186 | on stripped text the pattern accepts exactly the non-empty strings of letters, digits, `_` and `-` |
| ProfileId.PatternAllowsFinalNewline | all.py:186 | the pattern by itself lets a final line feed through; stripping first is what removes it |
| ProfileId.CheckProfileId | all.py:184-191 | the entry is missing exactly when it is empty as typed; it is accepted exactly when the stripped entry is non-empty and all `[\w-]`, and then the stripped entry is the ID; a whitespace-only entry is invalid |
| ProfileId.EntryMessage | all.py:184-187 | for the entry as typed: `"Please enter a valid ID."` exactly when it is empty; the "Invalid ID" message exactly when it is non-empty and its stripped text is not a non-empty run of `[\w-]`, so a whitespace-only entry included; no error exactly when the stripped entry is accepted |
| ProfileId.AcceptedIdRevalidates | all.py:186-191 | an accepted ID is itself accepted, unchanged, when checked again |
| ProfileId.SurroundingSpaceIgnored | all.py:186 | whitespace around an entry that holds something else does not change the verdict |
| Text.StripTrims | all.py:88 | `strip` removes whitespace only, from both ends, and its result neither starts nor ends with whitespace |
| Text.StripIdempotent | all.py:88 | stripping twice is stripping once |
| Text.BeforeFirst | all.py:96 | `split(' is ')[0]` is the text before the first `" is "`: a prefix holding none and with none starting inside it, followed by `" is "` exactly when the text holds one, and the whole text when it holds none |
| Text.Lower | all.py:94-96 | `lower()` keeps the length, turns each `A`-`Z` into the matching `a`-`z` and leaves every other character as it is, so no ASCII capital remains |
| Text.FirstWord | all.py:94 | `split()[0]` is the first maximal whitespace-free run: only whitespace comes before it and whitespace or the end after it; it is empty exactly when the text is all whitespace |
| Text.FirstWordOf | all.py:94 | the first word of a text that starts with a word and a space is that word |
| Text.Prefix | all.py:98 | `s[:n]` is the first `n` elements, or all of a shorter sequence |

## Left out

- The Streamlit interface: page setup, CSS, file uploader, slider, buttons, metrics, the
  pie chart and the `questions[:num_questions]` display slice. These only render results.
- Reading, parsing and exporting the notebook (`nbformat.reads`, `PythonExporter`) are
  foreign libraries. The model takes their outcome as a parameter: the exported source
  text, or the description of the exception (`str(e)`, treated as opaque text).
- The network request, the status-code branch and JSON decoding in `get_leetcode_stats`.
  The model starts from the already-decoded list of (difficulty, count) entries. The
  missing-key path that returns `None, None, None`, the ranking and its `#{rank:,}`
  formatting are not modelled. Nor is the later `if stats:` test, which is interface code.
- The unused imports (selenium, BeautifulSoup, webdriver_manager, time, json) are not modelled.
- Unicode: `strip`/`isspace`, `lower` and `\w` are modelled on ASCII only. Whitespace is
  tab, line feed, vertical tab, form feed, carriage return, 0x1C to 0x1F and space. `lower`
  maps `A`-`Z`, and `\w` is `[A-Za-z0-9_]`. Python applies the Unicode tables.
- Text.FirstWord: Python's `s.split()[0]` raises on a string without a word. The model
  returns the empty string there. The question generator never reaches that case, because
  it only asks for the first word of a non-empty stripped sentence that opens with a pronoun.
- SubmissionStats.MapSum is a ghost function, since the order in which Python visits a
  dictionary's values is not part of the model. The executable total is
  `SubmissionStats.TotalSolved`, proved equal to it.
- Counts are unbounded integers. Python integers do not overflow, so nothing is lost.
