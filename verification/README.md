# Google Doc quiz: question parser and quiz session

A Dafny model of the two pieces of logic in `main.py`, a small Flask app that runs a
multiple-choice quiz from a Google Doc:

- **The question parser** (`parse_questions`). The text after the first `---START`
  marker is stripped and cut into blocks at every blank line (`"\n\n"`). Each block is
  stripped and cut into lines. A block with fewer than six lines, or whose sixth line does
  not start with `Correct: `, is skipped. Any other block becomes one record:
  - the prompt is line 0, stripped and cut after its first `:`;
  - the four options are lines 1-4, each cut after its first `)` and stripped, or kept raw
    when the line has no `)`;
  - the correct label is the text between the first and any second `Correct: ` of line 5,
    stripped.

  `parse_questions` is modelled twice. `QuestionParser.Parse` is a function that states the
  result. `QuestionParser.ParseQuestions` is a method, proved equal to it, that locates the
  marker and hands the blocks to `QuestionParser.CollectQuestions`, which holds the source's
  `for`/`continue` loop.
- **The quiz session** spread over the `home`, `question`, `summary` and `review` handlers.
  - `Quiz.Session` is a class whose fields are the Flask session entries: `questions`,
    `answers` (step to label), `current` and `incorrect`.
  - Each handler is a method that updates those fields and returns where the handler
    redirects.
  - The scoring loop of `summary` is the method `Quiz.Score`. It is proved against the
    recursive functions `CorrectCount` and `Misses`, whose properties are lemmas.

The Python string built-ins the parser relies on are modelled in `Strings`, each specified
by what it computes:
- `strip` uses Python's `isspace` character set;
- `find` returns the first occurrence or -1;
- `split(sep)` is a left-to-right cut without overlap;
- `split(sep, 1)` and `startswith` are modelled too.

The modules are:
- `wrappers.dfy`: `Option`;
- `strings.dfy`: the string built-ins;
- `sequences.dfy`: the "keep the present results in order" shape of the parser loop;
- `parser.dfy`: `parse_questions`, its properties, and a writer for the document format
  used for round trips;
- `quiz.dfy`: scoring and the session.

This revision of `main.py` has no timer, no shuffling, no numbered blocks without blank
lines and no `Answer:`/`Description:` lines; none is modelled.

## Model

| member | source | states |
|---|---|---|
| Strings.Strip | main.py:40 | `str.strip()`: the result has no whitespace at either end, is a slice of the input, and only whitespace was removed on each side |
| Strings.StripIs | main.py:44 | the strip of a text is determined by its shape: whitespace, then a stripped middle, then whitespace, strips to that middle |
| Strings.StripIdempotent | main.py:44 | stripping an already stripped text changes nothing |
| Strings.Find | main.py:37 | `str.find`: -1 exactly when the pattern does not occur, otherwise the index of its first occurrence |
| Strings.Split | main.py:42 | `str.split(sep)`: at least one piece, and joining the pieces with `sep` gives the input back |
| Strings.SplitPieces | main.py:42 | no piece of a split holds the separator, and each cut is at the leftmost remaining separator |
| Strings.SplitJoin | main.py:44 | splitting is the inverse of joining pieces shaped like a split's pieces |
| Strings.SplitOnce | main.py:53 | `str.split(sep, 1)`: one piece exactly when `sep` is absent, otherwise the text before and after its first occurrence |
| Strings.AfterFirst | main.py:54 | `s.split(c, 1)[1]`: the input is the prefix, then `c`, then the result, and `c` does not occur in the prefix |
| Strings.AfterFirstSplitOnce | main.py:53-54 | `s.split(c, 1)` for a `c` in `s` is exactly the text before the first `c` and `AfterFirst(s, c)`, so `AfterFirst` is its second piece |
| Strings.AfterFirstIs | main.py:54 | conversely, any decomposition `pre + c + r` with no `c` in `pre` gives `r` |
| QuestionParser.PromptText | main.py:53 | the prompt is always stripped |
| QuestionParser.PromptTextIs | main.py:53 | when the stripped line is `pre:rest` with no `:` in `pre`, the prompt is `rest` stripped |
| QuestionParser.PromptTextWithoutColon | main.py:47 | a line with no `:` gives the stripped line as its prompt |
| QuestionParser.OptionText | main.py:54 | a line with no `)` is kept raw; otherwise the option is stripped |
| QuestionParser.OptionTextIs | main.py:54 | a line `pre)rest` with no `)` in `pre` gives `rest` stripped |
| QuestionParser.CorrectLabel | main.py:52 | the label is stripped |
| QuestionParser.CorrectLabelOfLine | main.py:52 | a `Correct: ` line with no second `Correct: ` yields the rest of the line, stripped |
| QuestionParser.CorrectLabelStopsAtSecondPrefix | main.py:52 | a second `Correct: ` cuts the label off: only the text between the two occurrences is kept |
| QuestionParser.ParseQuestions | main.py:34-60 | the method (marker search, slice and strip, then the block loop of `CollectQuestions`) returns exactly `Parse(text)` |
| QuestionParser.CollectQuestions | main.py:41-59 | the block loop with its two `continue`s returns the records of the well-formed blocks, in block order |
| QuestionParser.NoMarkerNoQuestions | main.py:35-39 | absent text, empty text, or text without `---START` gives no questions |
| QuestionParser.MarkerDoesNotOverlap | main.py:37 | two occurrences of `---START` are at least its length apart |
| QuestionParser.FirstMarkerAfter | main.py:37 | with no marker in `prefix`, `find` locates the marker right after `prefix` |
| QuestionParser.ParsesTextAfterMarker | main.py:37-40 | only the text after the first marker is parsed |
| QuestionParser.PrefixIrrelevant | main.py:37-40 | changing the text before the first marker leaves the result unchanged |
| QuestionParser.MalformedBlockSkipped | main.py:45-51 | a block with fewer than six lines, or a sixth line not starting with `Correct: `, yields nothing, and the blocks around it parse as if it were absent |
| QuestionParser.WellFormedBlockKept | main.py:55-59 | a well-formed block contributes exactly its record, between the records of its neighbours |
| QuestionParser.SourceBlocks | main.py:42-59 | every record comes from its own block, at strictly increasing block positions, so there are at most as many records as blocks; every well-formed block is used |
| QuestionParser.LinesAfterSixthIgnored | main.py:47-49 | lines after the sixth never change a block's record |
| QuestionParser.ParsedRecordShape | main.py:47-54 | every record has exactly four options, option `i` extracted from line `i + 1`, the prompt from line 0 and the label from line 5; prompt and label are stripped, and each option is stripped or, for a line with no `)`, is the raw line |
| QuestionParser.ExtractRendered | main.py:47-58 | the six lines `tag: prompt`, `A) …` to `D) …`, `Correct: label` give back the prompt, the four options and the label |
| QuestionParser.RenderedBlockLines | main.py:44 | a written block is already stripped, splits back into its six lines, and holds no blank line |
| QuestionParser.ParseRenderedBlock | main.py:44-59 | reading a written block gives back the record; any non-empty label is accepted, not only A-D |
| QuestionParser.RenderedBodyBlocks | main.py:40-42 | the text after the marker of a written document cuts back into the written blocks |
| QuestionParser.ParseRenderedDocument | main.py:34-60 | parsing a written document (any preamble without a marker, the marker, then the blocks separated by blank lines) gives back exactly the records written, in order |
| Quiz.Percent | main.py:127 | 0 for an empty quiz, otherwise the `p` with `p * total == correct * 100`; between 0 and 100 |
| Quiz.CorrectCount | main.py:113-116 | the number of scoring steps never exceeds the number of steps |
| Quiz.TallyAddsUp | main.py:111-126 | every step is either counted correct or listed for review |
| Quiz.WrongCountIsReviewLength | main.py:125-126 | the summary's wrong count is the length of the review list |
| Quiz.MissesIncreasing | main.py:113-124 | review entries have strictly increasing 1-based step numbers |
| Quiz.MissesAreWrongSteps | main.py:113-124 | each review entry is the record, label and shown answer of a step whose answer is not the correct label |
| Quiz.WrongStepsAreMissed | main.py:113-124 | every step whose answer is not the correct label has a review entry |
| Quiz.UnansweredStepMissed | main.py:114-123 | a step with no recorded answer is reviewed, shown as `No answer` |
| Quiz.CompletedQuizShowsAnswers | main.py:114-123 | when every step has a recorded answer, each review entry shows the answer given |
| Quiz.AllCorrect | main.py:111-127 | all answers correct gives a count equal to the number of steps, an empty review list and a score of 100 |
| Quiz.Score | main.py:111-124 | the scoring loop returns exactly `CorrectCount` and `Misses` of all the steps |
| Quiz.Session.Start | main.py:64-73 | a non-empty parse starts a quiz at step 0 with no answers; an empty parse leaves the quiz as it was; the cached review list is kept either way |
| Quiz.Session.Show | main.py:84-91 | with no quiz, redirect home; with the cursor past the end, redirect to the summary; otherwise ask step `current + 1` |
| Quiz.Session.Submit | main.py:84-97 | a non-empty answer to an open step is recorded for that step and the cursor advances by exactly one; an empty answer or a finished quiz changes nothing; the invariant (cursor within the questions, answer keys exactly the steps before it) is kept |
| Quiz.Session.Summarize | main.py:107-128 | with no quiz, redirect home; otherwise the count, wrong count and percentage of all the steps, with the review list cached in the session |
| Quiz.Session.Review | main.py:135-137 | the cached review list, or None (redirect to the summary) when no summary has been computed; its step numbers increase |

## Left out

- `get_document_text` and the Google Docs service setup (main.py:11-32) are remote I/O. The
  document text is a parameter `Option<string>`, where None stands for a failed fetch.
- Flask routing, redirects and all HTML building are left out. This covers the question
  page's labelled radio buttons, the summary page and the review page with its colour
  choice. Handlers return a `Route` or `Page` instead of a response.
- The session store is not modelled. Flask serialises the session as JSON, which turns the
  integer keys of `answers` into strings, so `answers.get(i)` would then find nothing.
  `answers` is a `map<int, string>`, as the code evidently intends.
- `Quiz.Percent` is a real number. The `{percent:.2f}` float formatting (main.py:129) is not
  modelled.
- `app.run`, the port and the secret key (main.py:7-8, 149-151) are left out.
- `session.get('current', 0)`: the model sets `current` whenever it sets `questions`, so the
  default is never used.
- Negative `current` (Python's negative indexing) cannot arise: `Valid` keeps
  `0 <= current`.
- `QuestionParser.PromptText`, `QuestionParser.OptionText`, `QuestionParser.CorrectLabel`:
  their own contracts state only that the result is stripped. The exact values are stated by
  `PromptTextIs`, `PromptTextWithoutColon`, `OptionTextIs`, `CorrectLabelOfLine` and
  `CorrectLabelStopsAtSecondPrefix`.
