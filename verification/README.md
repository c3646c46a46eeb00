# whotalksthemost — a Dafny model of the text logic

`whotalksthemost.py` scrapes a screenplay from the Internet Movie Script
Database and plots how many speeches each character has. This project
models the parts of it that are pure text and sequence manipulation, and
proves what they do:

- **the title normaliser** `ScriptSpider.process_title`. It turns a movie
  name typed in lower case into the slug used in the script's URL: it
  applies `capwords`, moves a leading "The" to the end (deleting every
  other "The " on the way, see below), and turns spaces into hyphens (`title.dfy`, module `Title`);
- **the line classifier** `ScriptSpider.is_character`. It decides whether a
  bold line of the script is a character cue rather than a scene heading,
  a transition, a page number or other text (`classifier.dfy`, module
  `Classifier`);
- **the name extractor** `ScriptSpider.process_character`. It deletes the
  parentheticals such as "(V.O.)" from a cue, strips it, and drops it when
  it is too long to be a name (`extractor.dfy`, module `Extractor`);
- **the tally** built by the loop in `parse_script`, and the post-processing
  in `main`: names with fewer than eight cues are dropped, and the rest are
  sorted by count, most cues first (`tally.dfy`, module `Tally`).

`text.dfy` (module `Text`) models the Python `str` operations these rely
on: `isspace`, `isdigit`, `strip`, `split()`, `''.join`, `capitalize`,
`startswith`, the `in` substring test and `replace`. Character classes are
the ASCII part of Python's definitions. Whitespace is tab, line feed,
vertical tab, form feed, carriage return, the separators 0x1C-0x1F, and
space.

The bold text nodes of a script are given as a `seq<string>`. The global
dictionary `characters` becomes a value: a sequence of `Entry(name,
count)` in insertion order, which is the order a Python dictionary keeps.
Python's `sorted(..., reverse=True)` is stable, so names with equal counts
keep that order. The model's sort is specified the same way: it keeps the
run of entries with each count in its original order.

Two behaviours of the code worth noting. The model follows the code in
both:

- `process_title` calls `movie.replace('The ', '')`. This deletes every
  "The ", not only the leading one (see Findings).
- The parse loop counts a name only under `if character:`. So the empty
  string that `process_character` returns for over-long cues is never a
  key of the dictionary.

## Model

| member | source | states |
|---|---|---|
| Text.Strip | whotalksthemost.py:92 | `strip()` gives the slice of the input between its leading and trailing whitespace. The result is empty exactly when the input is all whitespace. |
| Text.Split | whotalksthemost.py:75 | `split()` gives non-empty pieces without whitespace. There are none exactly when the line is all whitespace, and the first starts with the line's first non-whitespace character. |
| Text.ConcatSplit | whotalksthemost.py:75 | `''.join(line.split())` is the line with every whitespace character deleted. |
| Text.SplitJoin | whotalksthemost.py:32 | Splitting words joined by single spaces gives the words back. `capwords` relies on this. |
| Text.JoinSpacing | whotalksthemost.py:32 | Words joined by single spaces neither start nor end with whitespace and never hold two whitespace characters in a row. |
| Text.ConcatSplitFirst | whotalksthemost.py:75 | `''.join(line.split())` is empty exactly when the line is all whitespace. Otherwise its first character is the line's first non-whitespace character. |
| Text.Capitalize | whotalksthemost.py:32 | `capitalize()` keeps the length, upper-cases the first character and lower-cases every other one. |
| Title.Capwords | whotalksthemost.py:32 | The words of `capwords(s)` are the capitalised words of `s`. Its only whitespace is single spaces between words, none at either end. |
| Title.Hyphenate | whotalksthemost.py:37-38 | The hyphenated text has the same length, with each space replaced by a hyphen and every other character kept. |
| Title.HyphenateIsReplace | whotalksthemost.py:38 | The hyphenation step is `replace(' ', '-')`. |
| Title.ProcessTitle | whotalksthemost.py:30-38 | The slug holds no whitespace. When the capwords result starts with "The ", the slug is the capitalised words, less every "The" that another word follows, joined by spaces, followed by ", The", all hyphenated. It therefore ends in ",-The". Otherwise it is the capwords result with spaces hyphenated. |
| Title.DropArticles | whotalksthemost.py:36 | The words left after deleting every "The" that another word follows. The last word stays, no word before it is "The", no word is made up, every word other than "The" occurs as often as before, and the words left keep their order. |
| Title.DeleteArticleWords | whotalksthemost.py:36 | For capitalised words joined by single spaces, `replace('The ', '')` deletes exactly the words "The" that another word follows. |
| Title.CapwordsArticlesDeleted | whotalksthemost.py:32-36 | For any title, deleting every "The " from its capwords form leaves its capitalised words, less every "The" that another word follows, joined by spaces. |
| Title.TitleExamples | whotalksthemost.py:33-38 | "the dark knight rises" becomes "Dark-Knight-Rises,-The", and "inception" becomes "Inception". |
| Title.InnerArticleDropped | whotalksthemost.py:36 | As written, "the lord of the rings" becomes "Lord-Of-Rings,-The". Moving only the leading article gives "Lord-Of-The-Rings,-The". |
| Title.ProcessTitleIntended | whotalksthemost.py:33-36 | The normaliser as its comment describes it. The slug holds no whitespace. When the capwords result starts with "The ", the slug is the remaining capitalised words joined by hyphens, followed by ",-The". Otherwise it is the capwords result with spaces hyphenated, as in the code. |
| Title.IntendedMovesLeadingArticle | whotalksthemost.py:33-34 | For any non-blank title whose capwords form does not already start with "The ", the corrected slug of "the " + title is the title's slug followed by ",-The". |
| Title.AsWrittenMatchesIntended | whotalksthemost.py:35-36 | The code and the corrected normaliser agree exactly when no further "The " follows the leading one. |
| Classifier.ContainsAny | whotalksthemost.py:64-68 | A chain of `p in line` tests is true exactly when some listed substring occurs in the line. |
| Classifier.IsCharacter | whotalksthemost.py:62-86 | A line is a cue exactly when all of these hold: it contains none of the thirteen rejected substrings; it is not all whitespace; its last non-whitespace character is not '.'; its first non-whitespace character is neither a digit nor '('. |
| Classifier.RejectedPhraseRejects | whotalksthemost.py:63-85 | Any one rejected substring on its own rejects the line. |
| Classifier.BlankOrSentenceRejected | whotalksthemost.py:70-79 | A blank line is rejected: indexing `[-1]` into its empty `strip()` raises `IndexError`. So is a line ending in a full stop. |
| Classifier.NumberOrParenthesisRejected | whotalksthemost.py:74-77 | A line whose first non-whitespace character is a digit or '(' is rejected. |
| Classifier.ClassifierExamples | whotalksthemost.py:63-65 | "JACK" is a cue. "INT. HOUSE - DAY" is not. |
| Extractor.RemoveParentheticals | whotalksthemost.py:90 | Deleting `\([^)]*\)` matches leaves no match and never lengthens the text. Text without '(' is unchanged. |
| Extractor.ParentheticalDeleted | whotalksthemost.py:89-90 | A parenthetical after text without '(' is removed, and the text in front of it is kept. |
| Extractor.PrefixKept | whotalksthemost.py:90 | Text in front of the first '(' is kept as it is. |
| Extractor.CleanTextUnchanged | whotalksthemost.py:90 | Text with no parenthetical is left alone. |
| Extractor.RemoveParentheticalsIdempotent | whotalksthemost.py:90 | Removing parentheticals twice is the same as removing them once. |
| Extractor.ProcessCharacter | whotalksthemost.py:88-96 | The name is shorter than 16 characters, trimmed, and free of parentheticals. It is empty exactly when the cleaned cue is empty or at least 16 long. Otherwise it is the cleaned cue. |
| Extractor.ProcessCharacterIdempotent | whotalksthemost.py:88-96 | Extracting from an extracted name gives the same name. |
| Extractor.ExtractorExample | whotalksthemost.py:89-92 | "JOHN (V.O.)" gives "JOHN". |
| Tally.Increment | whotalksthemost.py:57-60 | `characters[n] += 1`, with the `KeyError` fallback, raises the count of `n` by one and changes no other count. |
| Tally.IncrementNames | whotalksthemost.py:57-60 | A new name is appended to the insertion order. A known name keeps its place. |
| Tally.IncrementTotal | whotalksthemost.py:57-60 | Each increment adds one to the sum of counts. |
| Tally.IncrementWellFormed | whotalksthemost.py:56-60 | Incrementing a non-empty name keeps the names distinct and non-empty, and every count at least one. |
| Tally.Tabulate | whotalksthemost.py:57-60 | Incrementing names one by one counts each name's occurrences. Names come in order of first appearance, and the counts sum to the number of names. |
| Tally.CueCountIsOccurrences | whotalksthemost.py:53-56 | Counting cue lines that extract to a non-empty name equals counting that name among the counted names. The empty name is never counted. |
| Tally.TallyOf | whotalksthemost.py:52-60 | After the loop, the dictionary's keys are non-empty and distinct, in first-seen order. Each key's count is the number of cue lines extracting to it. The total is the number of counted lines. |
| Tally.CountLine | whotalksthemost.py:54-60 | One line raises the count of its extracted name by one when it is a cue with a non-empty name, and changes no count otherwise. It keeps the dictionary well-formed. |
| Tally.ParseScript | whotalksthemost.py:52-60 | The loop as a method computes that dictionary. |
| Tally.EntryIffCount | whotalksthemost.py:57-60 | In such a dictionary, an entry is present exactly when looking its name up gives its count. |
| Tally.DropRare | whotalksthemost.py:121-123 | Exactly the entries with at least `min` cues stay, with their counts. |
| Tally.DropRareRuns | whotalksthemost.py:121-123 | Deleting keeps the order among entries with equal counts. |
| Tally.DropRareWellFormed | whotalksthemost.py:121-123 | Deleting keeps the dictionary well-formed. |
| Tally.Insert | whotalksthemost.py:125 | Inserting puts the new entry ahead of every entry with its count and leaves the other runs unchanged. |
| Tally.InsertPermutes | whotalksthemost.py:125 | Inserting adds the entry and nothing else. |
| Tally.InsertDescending | whotalksthemost.py:125 | Inserting into a descending sequence keeps it descending. |
| Tally.SortDescending | whotalksthemost.py:125 | The sort returns a permutation with non-increasing counts. Entries with equal counts stay in their original order. |
| Tally.StableSortUnique | whotalksthemost.py:125 | Any descending sequence with the same runs of equal counts is the sort's result. So the contract determines the output. |
| Tally.Report | whotalksthemost.py:119-125 | What `main` plots holds exactly the names with at least eight cues, each with its exact count. The counts go down from left to right. Ties are in first-seen order. |
| Tally.RepeatedLineReport | whotalksthemost.py:119-123 | A script that repeats one cue `k` times reports it with count `k` exactly when `k` is at least eight. |
| Tally.ThresholdExample | whotalksthemost.py:120-123 | Seven "JACK" lines report nothing. Eight report ("JACK", 8). |
| Tally.SortExample | whotalksthemost.py:124-125 | Counts 10, 30, 20, 10 sort to 30, 20, 10, 10. The first 10 stays ahead of the second. |

## Left out

- The Scrapy plumbing is left out: the spider class, the request, the
  crawler process, the XPath query for `<pre>//b/text()`, and the
  "Script not found" message with its `failed` flag
  (whotalksthemost.py:17-28, 40-51, 109-116). These are network and HTML
  library calls. The model starts from the extracted bold lines as a
  sequence of strings. With no lines, `main` returns before plotting. The
  model's report is empty in that case.
- The script URL built from the slug in `__init__` (whotalksthemost.py:25)
  is left out. It is string formatting around `process_title`, which is
  modelled.
- The `input` prompts in `main` (whotalksthemost.py:103-106) are left out.
  They are terminal I/O.
- The bar chart is left out (whotalksthemost.py:127-140). This covers the
  colours `min(600, x) / 600`, the colour map, the tick labels and the
  window title. It is plotting and floating point. `Tally.Report` gives
  the bars it draws, in order.
- The module-level globals `characters` and `failed` are not modelled as
  state. The dictionary is returned as a value.
- Python's Unicode definitions of whitespace, digits and letter case are
  not modelled. The model uses their ASCII part, so a title or cue with
  non-ASCII letters or Unicode spaces is outside it.
- Text.ReplaceAll: `str.replace` is modelled as a function. Its properties
  are proved in the lemmas used by the title normaliser
  (`ReplaceChars`, `ReplaceAbsent`, `ReplaceCharPointwise`) rather than in
  its own contract.

## Findings

| source | as written | input that shows it | evidently intended | confidence | as-written member | corrected member |
|---|---|---|---|---|---|---|
| whotalksthemost.py:35-36 | `movie.replace('The ', '') + ', The'` deletes every "The " in the capitalised title, not only the leading one. | "the lord of the rings" gives "Lord-Of-Rings,-The". | The comment "Move 'The' to end of string" asks for only the leading article to move, giving "Lord-Of-The-Rings,-The". | not executed | Title.ProcessTitle, shown by Title.InnerArticleDropped | Title.ProcessTitleIntended, with Title.IntendedMovesLeadingArticle |

Nothing else in the model consumes the slug. `Title.AsWrittenMatchesIntended`
states exactly which titles the two versions agree on.
