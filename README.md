# Legal clause classifier — Dafny model

This project models the rule-based clause classifier of the Legal Contract
Parser, `extract_obligations_and_rights` in `nlp/app.py`. The classifier
takes the sentences of a legal text. It tests each sentence against two fixed
tables of cue phrases: obligation cues ("must", "shall", "agrees to", "pay",
...) and rights cues ("may", "can", "is entitled to", "warranty", ...). The
match is case-insensitive and anchored at word boundaries. Each sentence then
adds entries to two lists, `obligations` and `rights`:

- **both tables match:** one fragment goes to each list. A fragment runs from
  that table's leftmost match up to the next period, trimmed of whitespace;
- **only obligations match:** the trimmed sentence goes to `obligations`;
- **only rights match:** the trimmed sentence goes to `rights`. If the
  lower-cased sentence contains "warranty", the fixed text "Implicit
  obligation to repair or replace the phone under warranty terms." also goes
  to `obligations`;
- **neither matches:** nothing is added.

The project has four modules:

- `text.dfy` (`Text`): the Python string operations the classifier uses, on
  ASCII text: `str.lower()`, `str.strip()` (ASCII whitespace as
  `str.isspace()` defines it, so 0x1C-0x1F included), `str.split(sep)`, `sep.join`,
  and the substring test `w in s`.
- `cues.dfy` (`Cues`): the two cue tables and the matcher. Each regular
  expression is written out as the literal phrases it admits, so
  `pay(?:s|ed)?` becomes "pays", "payed" and "pay". Table order is kept. The
  matcher models `re.search` over the alternation of `\bphrase\b` patterns:
  its result is the leftmost offset at which any phrase of the table
  occurs. `\b` is modelled exactly: there is a boundary at an offset when
  exactly one of the characters on either side is a word character.
- `classifier.dfy` (`Classifier`): the fragment cut, one sentence's
  contribution `SentenceContribution`, the specification `Classify` of a
  sequence of sentences under a per-sentence rule, and the method
  `ExtractObligationsAndRights`. The method is the source's loop: it
  appends to two lists and is proved equal to `Classify` under
  `SentenceContribution`.
- `scenarios.dfy` (`Scenarios`): two sentences worked through the rule.
  "You may pay." has cues of both tables and yields the obligation "pay"
  and the right "may pay". "Warranty applies." has only a rights cue and
  yields itself as a right plus the implicit warranty obligation.

Each table is compiled into one alternation. `re.search` returns the
leftmost offset at which any alternative matches, whatever the order of
the table. `SearchSamePhrases` proves that the order does not matter.

## Model

| member | source | states |
|---|---|---|
| `Text.LowerChar` | nlp/app.py:63-64 | case folding leaves no upper-case letter, keeps word and whitespace characters in their class, and maps only '.' to '.' |
| `Text.LowerFolds` | nlp/app.py:92 | `sentence.lower()` keeps the length, leaves no upper-case letter, and changes nothing but upper-case letters |
| `Text.Strip` | nlp/app.py:86 | the stripped sentence is a slice of the sentence that neither starts nor ends with whitespace, and only whitespace was removed |
| `Text.StripUnique` | nlp/app.py:78 | that characterisation of stripping determines the result uniquely |
| `Text.StripIdempotent` | nlp/app.py:82 | stripping an already stripped string changes nothing |
| `Text.StripClean` | nlp/app.py:86 | a string that neither starts nor ends with whitespace is left unchanged by stripping |
| `Text.Split` | nlp/app.py:77 | `split(".")` returns at least one piece; no piece contains the separator; the first piece is a prefix of the string, followed by the separator or by the end of the string |
| `Text.JoinSplit` | nlp/app.py:81 | joining the pieces of a split with the separator gives back the original string |
| `Text.SplitHeadAt` | nlp/app.py:77 | the first piece of `split(".")` is the text before the first period |
| `Text.ContainsLower` | nlp/app.py:92 | `"warranty" in sentence.lower()` holds exactly when some window of the sentence equals "warranty" up to case |
| `Cues.SearchFrom` | nlp/app.py:68-69 | scanning from an offset returns the first offset, from there on, at which some phrase of the table occurs, or None when there is none up to the end |
| `Cues.Search` | nlp/app.py:63-69 | the search finds a match exactly when some phrase of the table occurs word-bounded and case-insensitively in the sentence, and it reports the leftmost such offset |
| `Cues.SearchIsMinimum` | nlp/app.py:73-77 | any occurrence of any single phrase lies at or after the reported start |
| `Cues.SearchSamePhrases` | nlp/app.py:63-64 | two tables with the same phrases, in any order and with any repetition, report the same match start |
| `Cues.SearchWithoutDuplicate` | nlp/app.py:16-46 | dropping an entry that repeats another entry of the table does not change the result |
| `Cues.RedundantObligationEntries` | nlp/app.py:16-46 | the second "pay" entry (line 42) and the second "needs to" (line 34) are redundant: removing either leaves the obligation match unchanged |
| `Cues.SearchIgnoresCase` | nlp/app.py:63-64 | lower-casing the sentence first changes neither whether a table matches nor where |
| `Cues.OccursAtIgnoresCase` | nlp/app.py:63-64 | whether a `\bphrase\b` pattern matches at an offset does not change when the sentence is lower-cased first |
| `Cues.OnlyAtWordStart` | nlp/app.py:16-60 | a `\bphrase\b` pattern of a well-formed phrase matches only where a word starts |
| `Cues.MismatchAt` | nlp/app.py:63-64 | a pattern does not match at an offset where one of its characters differs from the sentence's, up to case |
| `Cues.ObligationDuplicates` | nlp/app.py:20-42 | the obligation table has 40 phrases; "pay" (line 42) repeats a phrase of the pattern on line 26, and "needs to" from the pattern on line 34 repeats line 21 |
| `Cues.PhraseTablesWellFormed` | nlp/app.py:16-60 | every phrase of both tables is non-empty, starts and ends with a word character, and holds no period |
| `Classifier.Fragment` | nlp/app.py:77-82 | a fragment holds no period and is a piece of the sentence at or after the offset it was cut at |
| `Classifier.FragmentAtCue` | nlp/app.py:77-82 | a fragment cut at a cue holds no period, is a substring of its sentence, and begins with the text of the phrase occurrence it was cut at |
| `Classifier.SentenceContribution` | nlp/app.py:72-93 | a sentence adds at most one entry to each list |
| `Classifier.SentenceContributionCases` | nlp/app.py:72-93 | the four branches: no cue adds nothing; obligation cues only add the stripped sentence to `obligations`; rights cues only add the stripped sentence to `rights` and the implicit warranty obligation exactly when the lower-cased sentence contains "warranty"; both add one fragment per list, each cut at its own table's leftmost match |
| `Classifier.BothCuesFragments` | nlp/app.py:72-82 | when both tables match, each list gains one fragment; each fragment holds no period, is a substring of the sentence, and begins with a cue of its own table at that table's leftmost match |
| `Classifier.WarrantyWordImpliesObligation` | nlp/app.py:89-93 | a sentence with the word "warranty" and no obligation cue yields the stripped sentence as a right and the implicit warranty obligation |
| `Classifier.ClassifyLength` | nlp/app.py:12-95 | the classifier's lists hold at most one entry per sentence each, so an empty sentence sequence gives two empty lists |
| `Classifier.ClassifyAppend` | nlp/app.py:67-93 | classifying `a + b` gives the results of `a` followed, list by list, by those of `b`, so sentence order is kept |
| `Classifier.ClassifySnoc` | nlp/app.py:67-93 | one more sentence appends exactly that sentence's contribution to the lists |
| `Classifier.ClassifyStep` | nlp/app.py:67-93 | after the first `n` sentences, appending the contribution of sentence `n` gives the lists of the first `n + 1` |
| `Classifier.NoCuesNoResults` | nlp/app.py:67-93 | sentences without any cue of either table produce two empty lists |
| `Classifier.AppendSentence` | nlp/app.py:68-93 | one pass of the loop body appends that sentence's contribution to the two lists and nothing else |
| `Classifier.ExtractObligationsAndRights` | nlp/app.py:9-95 | the loop that appends to `obligations` and `rights` returns exactly the lists of `Classify` under `SentenceContribution` for its sentences |
| `Scenarios.PayMatch` | nlp/app.py:63-68 | in "You may pay." the obligation search first matches at "pay", offset 8 |
| `Scenarios.MayMatch` | nlp/app.py:63-69 | in "You may pay." the rights search first matches at "may", offset 4 |
| `Scenarios.PayFragment` | nlp/app.py:77-78 | the obligation fragment of "You may pay." cut at offset 8 is "pay" |
| `Scenarios.MayPayFragment` | nlp/app.py:81-82 | the rights fragment of "You may pay." cut at offset 4 is "may pay" |
| `Scenarios.BothCuesContribution` | nlp/app.py:72-82 | "You may pay." adds the obligation "pay" and the right "may pay" |
| `Scenarios.NoObligationCueInWarrantyOnly` | nlp/app.py:16-46 | no obligation pattern matches anywhere in "Warranty applies." |
| `Scenarios.WarrantyWordAtStart` | nlp/app.py:59 | the pattern `\bwarranty\b` matches "Warranty applies." at offset 0, ignoring case |
| `Scenarios.WarrantyOnlyContribution` | nlp/app.py:89-93 | "Warranty applies." adds itself as a right and the implicit warranty obligation |

## Left out

- Sentence splitting (`sent_tokenize`, nlp/app.py:10) is NLTK's trained Punkt tokenizer, foreign code. The classifier takes the sentence sequence as a parameter.
- Downloading the Punkt resource (nlp/app.py:7) is network and file I/O. It is not modelled.
- The Streamlit page (nlp/app.py:97-126) is presentation and input handling. This covers the title, the text area, the button, rendering the lists and the message for empty input. It is not modelled.
- Python's general regular-expression engine is not modelled. Only the fixed patterns are, written out as literal phrases with `\b` on both sides. The second pair of `search` calls (nlp/app.py:73-74) returns the same matches as the first (nlp/app.py:68-69), so the model computes each match once.
- Unicode is not modelled. `re.IGNORECASE`, `\w`, `str.lower()` and `str.strip()` are restricted to ASCII. Non-ASCII letters, case mappings such as the Kelvin sign matching "k", and non-ASCII whitespace are not covered.
- In-place `list.append` is modelled as reassigning a sequence variable. The lists are local to the call, so no aliasing is lost.
