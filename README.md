# Job-description analyser, modelled in Dafny

The interview-simulator application reads a job description. Its analyser
(`job_description_parser.py`) does two things with it:

- `parse_job_description` splits the text into lines. It lower-cases each
  line and tests it for the substring `"requirement"`. Only a line that fails
  that test is then tested for `"responsibility"`. The stripped original line
  is appended to the `requirements` or `responsibilities` list of a
  two-key dictionary. Lines that pass neither test are dropped.
- `extract_keywords` splits the text on runs of whitespace. It keeps each
  word longer than three characters, with the length taken before
  lower-casing. It adds the lower-cased word to a set and returns the set as
  a list.

The project has two modules:

- `Text` (`text.dfy`) defines the Python string operations the analyser
  uses. These are `str.isspace`, `lower`, the `in` substring test, `strip`,
  `splitlines` and `split()`. Each comes with properties that fix its
  result on every input: `ToLower` character by character, `Contains` and
  `Strip` by characterisations, `SplitLines` and `SplitWs` by how they cut
  at one line break or one whitespace character. Round trips and
  idempotence are proved on top of these.
- `JobDescriptionParser` (`job_description_parser.dfy`) models both loops as
  methods with invariants. Each method is proved equal to a specification
  function: `Parse` for the line loop, `Keywords` for the word loop. Lemmas
  about those functions state the analyser's behaviour. They cover which
  line goes where, order preservation, requirement precedence, counts,
  the empty input, a worked three-line example, and keyword soundness, completeness and idempotence.

The returned dictionary is the datatype `ParsedJob`. Its two fields are the
dictionary's two keys, so "exactly the keys `requirements` and
`responsibilities`" holds by construction. `list(keywords)` has no defined
order. `ExtractKeywords` therefore returns a sequence built by arbitrary
choice from the set. Its contract says only that each keyword appears once
and that the elements are exactly the keyword set.

Two facts about the code are easy to misread:

- `parse_job_description` returns only the two lists. It builds no keyword
  set; keywords come only from the separate `extract_keywords`.
- The lists do not hold lines as read. The code appends `line.strip()`, so
  leading and trailing whitespace is gone from every entry.

## Model

| member | source | states |
|---|---|---|
| `Text.IsSpace` | job_description_parser.py:23 | a definition, not a contract: Python's `str.isspace` set, listed code point by code point; it is what `strip` (line 13) and `split()` remove, and `TrimStart`, `TrimEnd`, `Strip`, `SplitWs` and `SplitWsAppend` state their behaviour in terms of it |
| `Text.IsLineBreak` | job_description_parser.py:10 | a definition: the characters at which `splitlines` ends a line; `SplitLines`, `SplitLinesAfterLine` and `SplitLinesAfterCrLf` state the splitting in terms of it |
| `Text.ToLower` | job_description_parser.py:12 | a definition: `lower()` applied character by character, changing only `A`–`Z`; its behaviour is stated by `ToLowerProperties` |
| `Text.Contains` | job_description_parser.py:12 | the `in` test holds exactly when the word occurs at some position of the lower-cased line |
| `Text.LoweredOccursAt` | job_description_parser.py:12 | a slice of the line that lower-cases to a word puts that word in the lower-cased line at the same place |
| `Text.MissingCharNotContained` | job_description_parser.py:12-14 | a word holding a character the line lacks is never found in it |
| `Text.ToLowerProperties` | job_description_parser.py:12 | lower-casing keeps the length, maps each `A`–`Z` to the matching `a`–`z` and leaves every other character unchanged; it leaves no upper-case letter, is idempotent and keeps whitespace-free words whitespace-free |
| `Text.TrimStart` | job_description_parser.py:13 | the result is a suffix of the input, what was removed is all whitespace, and the result does not start with whitespace |
| `Text.TrimEnd` | job_description_parser.py:13 | the result is a prefix of the input, what was removed is all whitespace, and the result does not end with whitespace |
| `Text.Strip` | job_description_parser.py:13 | the stripped line is a slice of the line with only whitespace on either side, and it neither starts nor ends with whitespace |
| `Text.StripPadded` | job_description_parser.py:13 | stripping any whitespace padding off a string that does not start or end with whitespace gives that string back |
| `Text.StripIdempotent` | job_description_parser.py:13 | stripping a stripped line changes nothing |
| `Text.SplitLines` | job_description_parser.py:10 | no line contains a line break, and a non-empty text has at least one line |
| `Text.SplitLinesAfterLine` | job_description_parser.py:10 | a line followed by any line break, other than a `\r` that starts `\r\n`, is the first line of the text, and the rest is split on its own |
| `Text.SplitLinesAfterCrLf` | job_description_parser.py:10 | a line followed by `\r\n` is the first line of the text: the pair is one break, not two |
| `Text.SplitLinesOfJoin` | job_description_parser.py:10 | splitting newline-terminated lines gives the same lines back |
| `Text.JoinOfSplitLines` | job_description_parser.py:10 | joining the lines of a newline-only text gives the text back, with a final newline added if it had none |
| `Text.SplitWs` | job_description_parser.py:23 | every word is non-empty and free of whitespace |
| `Text.SplitWsAppend` | job_description_parser.py:23 | the words of two texts joined by any whitespace character are the words of the first followed by those of the second |
| `Text.SplitWsWord` | job_description_parser.py:23 | a text without whitespace is one word, or no word when empty |
| `Text.SplitWsOfJoin` | job_description_parser.py:23 | splitting whitespace-free words joined by spaces gives the same words back |
| `JobDescriptionParser.Classify` | job_description_parser.py:12-15 | a definition: the `if`/`elif` on the lower-cased line, with the requirement test first; stated by `LineRouting`, `ParseRequirements`, `ParseResponsibilities` and `PluralHeadings` |
| `JobDescriptionParser.Collected` | job_description_parser.py:11-15 | a definition: the list the loop has built for one kind after a run of lines; stated by `CollectedIsOrderedFilter`, `CollectedMembership`, `CollectedAppend` and `CollectedPartition` |
| `JobDescriptionParser.Parse` | job_description_parser.py:4-17 | a definition: the two-key dictionary the function returns, one list per key; stated by `ParseRequirements`, `ParseResponsibilities`, `ParseLength`, `ParseNoMatch`, `ParseEmpty` and `WorkedExample`, and `ParseJobDescription` is proved equal to it |
| `JobDescriptionParser.ParseJobDescription` | job_description_parser.py:1-17 | the append loop over the lines returns exactly the specification `Parse` of the text |
| `JobDescriptionParser.MatchIndices` | job_description_parser.py:11-15 | the indices of the lines of one kind, strictly increasing, covering every line of that kind and no other |
| `JobDescriptionParser.CollectedIsOrderedFilter` | job_description_parser.py:10-15 | entry j of a list is the stripped j-th line of its kind in input order, and the list is as long as the number of such lines |
| `JobDescriptionParser.CollectedMembership` | job_description_parser.py:11-15 | a string is in a list exactly when it is the stripped form of an input line of that kind |
| `JobDescriptionParser.CollectedContains` | job_description_parser.py:11-15 | the same membership stated over the lines themselves: a string is in a list exactly when some line of that kind strips to it |
| `JobDescriptionParser.CollectedAppend` | job_description_parser.py:11-15 | the lists built from two runs of lines are the lists of the first run followed by those of the second |
| `JobDescriptionParser.CollectedPartition` | job_description_parser.py:11-15 | every line goes to exactly one of requirement, responsibility or neither |
| `JobDescriptionParser.ParseRequirements` | job_description_parser.py:10-13 | the requirement list holds exactly the stripped lines whose lower-cased form contains "requirement" |
| `JobDescriptionParser.ParseResponsibilities` | job_description_parser.py:10-15 | the responsibility list holds exactly the stripped lines containing "responsibility" but not "requirement" |
| `JobDescriptionParser.LineRouting` | job_description_parser.py:12-15 | line i feeds the requirement list exactly when it contains "requirement"; it feeds the responsibility list exactly when it contains "responsibility" and not "requirement", so a line with both words goes to requirements only |
| `JobDescriptionParser.ParseLength` | job_description_parser.py:11-15 | the two lists together are as long as the number of requirement lines plus the number of responsibility lines, which is the number of lines minus those that pass neither test |
| `JobDescriptionParser.ParseNoMatch` | job_description_parser.py:4-17 | a text with no matching line gives two empty lists |
| `JobDescriptionParser.ParseEmpty` | job_description_parser.py:4-10 | the empty text gives two empty lists |
| `JobDescriptionParser.PluralHeadings` | job_description_parser.py:12-15 | a "Requirements" heading is a requirement line; a "Responsibilities" heading matches neither test |
| `JobDescriptionParser.WorkedExample` | job_description_parser.py:4-17 | the three lines "Must have 5 years requirement: Python", "Responsibility: lead team" and "Other line" give exactly one requirement (the first line) and one responsibility (the second) |
| `JobDescriptionParser.ParseOfThree` | job_description_parser.py:10-15 | any three newline-separated lines, one of each kind, with the first two already stripped, give the first as the only requirement and the second as the only responsibility |
| `JobDescriptionParser.KeywordSet` | job_description_parser.py:22-26 | a definition: the set the loop has built after a run of words; stated by `KeywordSetMembership` and `KeywordSetAppend` |
| `JobDescriptionParser.Keywords` | job_description_parser.py:23-26 | a definition: the keyword set of a text's whitespace-separated words; stated by `KeywordsOfText`, `KeywordShape`, `KeywordsAppend` and `KeywordsIdempotent`, and `ExtractKeywords` lists exactly it |
| `JobDescriptionParser.ExtractKeywords` | job_description_parser.py:19-28 | the returned list has no duplicates, and its elements are exactly the keyword set of the text |
| `JobDescriptionParser.KeywordSetMembership` | job_description_parser.py:24-26 | a string is in the set built from a word list exactly when some word longer than 3 characters lower-cases to it |
| `JobDescriptionParser.KeywordsOfText` | job_description_parser.py:23-26 | soundness and completeness: a keyword of the text is the lower-cased form of one of its words longer than 3 characters, and every such form is a keyword |
| `JobDescriptionParser.KeywordShape` | job_description_parser.py:25-26 | every keyword is longer than 3 characters, already lower case and free of whitespace |
| `JobDescriptionParser.KeywordSetAppend` | job_description_parser.py:22-26 | the set built from two word lists is the union of their sets |
| `JobDescriptionParser.KeywordsAppend` | job_description_parser.py:23-26 | two texts joined by any whitespace character, such as the newline between two lines of a description, have the union of their keywords |
| `JobDescriptionParser.KeywordsIdempotent` | job_description_parser.py:22-28 | `text + " " + text` has the same keywords as `text` |

## Left out

- `Text.ToLower` is ASCII-only: only `A`–`Z` are lower-cased. Python's `str.lower` applies full Unicode case mapping, which can also change a string's length. Only two non-ASCII characters lower-case to something containing ASCII: the Kelvin sign U+212A becomes `k`, and U+0130 becomes `i` followed by U+0307. Neither `k` nor `i` + U+0307 can complete "requirement" or "responsibility", so every line is classified as Python classifies it. The difference is in text only: a keyword holding a non-ASCII upper-case letter keeps that letter in the model.
- `Text.IsSpace` and `Text.IsLineBreak` list Python's whitespace and line-boundary characters explicitly. Python's own tables are the reference; a character missing from these lists would be treated differently.
- Python strings may hold lone surrogate code points. Dafny's `char` cannot, so such input is not modelled.
- `ExtractKeywords` does not fix the order of the returned list, because `list(set)` has no order the program relies on. Only its elements and their uniqueness are stated.
- Flask routes, PDF text extraction, the text-generation calls, audio transcription and the identity-provider calls are in `app.py`, `app2.py`, `audio.py` and `firebase_config/firebase.py`. These are not part of this model: they are I/O, network and foreign-library calls with no logic of the analyser's own.
