# LawMate text pipeline, modelled in Dafny

LawMate reads a contract and turns its text into clauses, then tags each clause with
risk keywords. This project models the string and list code at the centre of that
pipeline and proves properties of it:

- **Clause splitting** (`split_into_clauses`).
  - Normalise line breaks and blanks.
  - Build a lower-cased copy with abbreviations masked.
  - Find headings in the copy with a hand-coded scanner for `HEADING_RE`.
  - Cut the original text into heading and body parts.
  - Merge short headings with the part after them.
  - Cut long sections into sentences, following `SPLIT_SENT_RE`.
  - Restore the placeholders and drop repeated clauses.
- **Risk matching** (`detect_risk_in_clause`, `analyze_clauses_for_risk`). The lower-cased clause is searched for each keyword of a severity → keywords table. The table is an ordered list of `(severity, keywords)` pairs, in the dictionary's iteration order.
- **Chunking** (`_chunk_text`): sliding character windows, each one stripped.
- **Cleaning** (`clean_text`):
  - collapse whitespace;
  - blank out runs of non-ASCII characters;
  - strip the ends.

Modules:

- `Strings` (`strings.dfy`): the Python string built-ins the code relies on. These are whitespace as `str.isspace` and `\s` see it, `strip`, ASCII `lower`, `w in s`, `replace`, `len(s.split())`, and `re.sub` of a character class run.
- `HeadingPattern` (`heading_pattern.dfy`): `HEADING_RE` as two scanners. They follow the order in which Python's backtracking matcher tries the alternatives. The module also holds `finditer`, written for any matcher.
- `SentencePattern` (`sentence_pattern.dfy`): `SPLIT_SENT_RE.split`.
- `ClauseSplitter` (`clause_splitter.dfy`): each loop of `split_into_clauses` is a method proved equal to a function. The lemmas are stated about those functions.
- `RiskRules` (`risk_rules.dfy`) and `RiskDetector` (`risk_detector.dfy`).
- `Chunker` (`chunker.dfy`) and `CleanText` (`clean_text.dfy`).

Quirks of the code that the model keeps:

- Abbreviations are masked in the lower-cased copy, so the keys `Mr.`, `Mrs.` and `Dr.` never match.
- `pvt. ltd.` and `etc.` get longer placeholders, so heading positions found in the copy drift from the text they are used to slice. Python's slices clamp at the end of the text, and so does `PySlice`.
- Clauses are cut from the unmasked text, so `restore` changes only a clause that already contained a placeholder.

"Content" below means the non-whitespace characters of a string, in order (`NonSpace`).

A text such as `"Dr. Smith agreed to the terms. This is a short clause."` gives one clause. It is a single section under 200 characters, and such a section is never cut (`SectionShape`).

## Model

| member | source | states |
|---|---|---|
| Strings.Strip | backend/nlp/clause_splitter.py:20 | `str.strip()`: the result has no whitespace at either end and is no longer than the input |
| Strings.StripIsSlice | backend/parser/clean_text.py:10 | the stripped string is a slice of the input, and every character outside that slice is whitespace |
| Strings.NonSpaceStrip | backend/nlp/clause_splitter.py:42 | stripping keeps the whole content of a string |
| Strings.StripEmptyIffAllSpace | backend/nlp/clause_splitter.py:70 | a string strips to empty exactly when all of it is whitespace |
| Strings.ReplaceRuns | backend/parser/clean_text.py:7 | replacing each run of a class by one character gives a string that is empty iff the input is; each character is the replacement or a non-class character of the input; the first character is kept or replaced |
| Strings.ReplaceRunsNoAdjacent | backend/parser/clean_text.py:7 | after collapsing runs of a class into a class character, no two class characters are adjacent |
| Strings.ReplaceRunsFixed | backend/parser/clean_text.py:9 | collapsing runs leaves a string alone when its class characters are already lone replacements |
| Strings.Lower | backend/nlp/clause_splitter.py:32 | defines `str.lower()`: each ASCII upper-case letter becomes its lower-case letter, every other character stays |
| Strings.Contains | backend/nlp/risk_rules.py:21 | defines `w in s` as a scan of `s`; `ContainsIff` ties it to an occurrence at an index |
| Strings.WordCount | backend/nlp/clause_splitter.py:58 | defines `len(p.split())`: runs of non-whitespace are counted one each |
| Strings.WordCountIsStarts | backend/nlp/clause_splitter.py:58 | `len(s.split())` is the number of positions holding a non-whitespace character at the start of `s` or after whitespace |
| Strings.Words | backend/nlp/clause_splitter.py:58 | defines `s.split()`: the maximal runs of non-whitespace, in order; each word is non-empty and holds no whitespace |
| Strings.WordCountIsWords | backend/nlp/clause_splitter.py:58 | `len(s.split())` is the length of the word list `s.split()` |
| Strings.CollapseSpacesIsJoin | backend/parser/clean_text.py:7-10 | collapsing whitespace runs into one space and stripping gives `" ".join(s.split())` |
| Strings.CollapseWords | backend/parser/clean_text.py:7 | on a string that does not start with whitespace, collapsing whitespace runs gives its words joined by single spaces, plus one space if it ends in whitespace |
| Strings.ReplaceRunsWithout | backend/parser/clean_text.py:7 | collapsing the runs of a class into a replacement keeps, in order, every character outside any wider class that holds the run class and the replacement |
| Strings.ContainsIff | backend/nlp/risk_rules.py:21 | `w in s` holds exactly when `w` occurs at some index of `s` |
| Strings.Replace | backend/nlp/clause_splitter.py:34 | defines `s.replace(pat, sub)`: the occurrences of `pat` found left to right, without overlap, become `sub` |
| Strings.ReplaceAbsent | backend/nlp/clause_splitter.py:34 | `replace` of a key that does not occur changes nothing |
| Strings.ReplaceLength | backend/nlp/clause_splitter.py:34 | `replace` by a value at least as long as the key never shortens the string |
| CleanText.CleanText | backend/parser/clean_text.py:3-11 | empty input gives `""`; the result is all ASCII and has no whitespace at either end; its only whitespace character is `' '` |
| CleanText.CleanKeepsAsciiText | backend/parser/clean_text.py:3-11 | the result holds exactly the characters of the input that are neither whitespace nor non-ASCII, in order |
| CleanText.AsciiCleanKeepsText | backend/parser/clean_text.py:7-10 | on ASCII input, cleaning changes whitespace only: the non-whitespace characters come through in order |
| CleanText.AsciiCleanIsJoinWords | backend/parser/clean_text.py:3-11 | on ASCII input, `clean_text(raw)` is `" ".join(raw.split())`: the words of the input, in order, joined by single spaces |
| CleanText.AsciiCleanHasNoDoubleSpace | backend/parser/clean_text.py:7-10 | on ASCII input the result never has two whitespace characters side by side |
| CleanText.AsciiCleanIdempotent | backend/parser/clean_text.py:7-10 | on ASCII input, cleaning a cleaned text changes nothing |
| Chunker.ChunkText | backend/analysis/summarizer.py:7-24 | the loop gives `WindowCount` chunks; chunk `j` is the stripped text of window `j`, which starts at `j * (chunk_size - overlap)` inside the text and ends at `min(start + chunk_size, L)`; the loop terminates when `overlap < chunk_size` |
| Chunker.StartOfClosed | backend/analysis/summarizer.py:21-23 | each pass moves the start forward by `chunk_size - overlap`, so window `j` starts `j * (chunk_size - overlap)` after the first |
| Chunker.ChunkAt | backend/analysis/summarizer.py:18-19 | a chunk is at most `chunk_size` characters long |
| Chunker.CountFrom | backend/analysis/summarizer.py:17-23 | the loop makes at least one step exactly when `start < L` |
| Chunker.WindowsInText | backend/analysis/summarizer.py:12-20 | there is a chunk iff the text is non-empty, and every window starts inside the text |
| Chunker.CountFromShape | backend/analysis/summarizer.py:17-23 | every window starts inside the text; every window but the last ends before the end of the text; with `overlap >= 0` the last one reaches the end |
| Chunker.WindowsTile | backend/analysis/summarizer.py:21-23 | every window but the last is `chunk_size` wide and shares exactly `overlap` characters with the next; with `overlap >= 0` the last window ends at `L` |
| Chunker.WindowsCover | backend/analysis/summarizer.py:17-23 | with `0 <= overlap < chunk_size` every index of the text lies in some window |
| HeadingPattern.TitledAt | backend/nlp/clause_splitter.py:6 | the `section`/`article` alternative, when it matches, ends after its start and within the text |
| HeadingPattern.DottedEnd | backend/nlp/clause_splitter.py:7 | `\d+(?:\.\d+)*` ends within the text, at or after where it began |
| HeadingPattern.NumberTail | backend/nlp/clause_splitter.py:7 | `\s*[A-Z]?\s*[\-\.\)]?\s+` with backtracking: when it matches, it consumes at least one character and ends within the text |
| HeadingPattern.NumberedAt | backend/nlp/clause_splitter.py:7 | the numbered alternative, when it matches, ends after its start and within the text |
| HeadingPattern.MatchAt | backend/nlp/clause_splitter.py:5-9 | a heading match starts at index 0 or at a `'\n'`, inside the text, and ends after its start and within the text |
| HeadingPattern.TitledStartsWithLetter | backend/nlp/clause_splitter.py:6 | a `section`/`article` heading has a letter after its leading whitespace |
| HeadingPattern.NumberedStartsWithDigit | backend/nlp/clause_splitter.py:7 | a numbered heading has a digit after its leading whitespace |
| HeadingPattern.AlternativesExclusive | backend/nlp/clause_splitter.py:5-9 | the two alternatives never both match at the same position |
| HeadingPattern.FindFrom | backend/nlp/clause_splitter.py:39 | `finditer` yields spans that are non-empty, in order, non-overlapping and within the text, each a match of the pattern |
| HeadingPattern.FindFromComplete | backend/nlp/clause_splitter.py:39 | `finditer` misses nothing: no position outside the reported spans starts a match |
| HeadingPattern.Headings | backend/nlp/clause_splitter.py:39 | defines `HEADING_RE.finditer(lower_text)` as spans, by `FindFrom` over `MatchAt` |
| HeadingPattern.HeadingsSound | backend/nlp/clause_splitter.py:39 | the headings of a text are ordered, non-overlapping, in bounds and matches, and no other position starts a match |
| SentencePattern.SplitFrom | backend/nlp/clause_splitter.py:76 | defines `re.split` by `SPLIT_SENT_RE`: a fragment ends at each cut, and the next starts after the whole whitespace run |
| SentencePattern.SplitSentences | backend/nlp/clause_splitter.py:76 | defines `SPLIT_SENT_RE.split(sec_clean)` as the split from index 0 |
| SentencePattern.SplitFromKeepsText | backend/nlp/clause_splitter.py:76 | the fragments of `re.split`, joined, hold the content of the text |
| SentencePattern.SplitFromShape | backend/nlp/clause_splitter.py:11 | a text that begins and ends with non-whitespace splits into non-empty, stripped fragments without an inner cut; every fragment but the last ends in `.`, `?` or `!` |
| SentencePattern.SplitSentencesSound | backend/nlp/clause_splitter.py:76 | a stripped non-empty section splits into sentences, the sentences together hold its content, and they are its pieces between cuts (`CutInto`) |
| SentencePattern.SplitFromCuts | backend/nlp/clause_splitter.py:11 | from a start at the beginning or after whitespace, the fragments of `re.split` and the dropped runs alternate to rebuild the text; each run is a whole whitespace run after `.`, `?` or `!`, and no fragment holds such a cut |
| SentencePattern.SplitSentencesCuts | backend/nlp/clause_splitter.py:11 | `SPLIT_SENT_RE.split(s)` cuts `s` at every whitespace run after `.`, `?` or `!` and nowhere else (`CutInto`) |
| SentencePattern.CutIntoUnique | backend/nlp/clause_splitter.py:11 | a text is cut at its cuts in one way only: two cuttings have the same fragments and the same runs |
| SentencePattern.SplitSentencesIff | backend/nlp/clause_splitter.py:11 | a list is `SPLIT_SENT_RE.split(s)` if and only if it cuts `s` at its cuts |
| SentencePattern.NoCutKeepsWhole | backend/nlp/clause_splitter.py:11 | a text with no whitespace after `.`, `?` or `!` comes back as one fragment |
| ClauseSplitter.NormalizeNewlines | backend/nlp/clause_splitter.py:19 | the result has no `'\r'` and is no longer than the input |
| ClauseSplitter.NormalizeNewlinesKeepsText | backend/nlp/clause_splitter.py:19 | rewriting line breaks keeps the content |
| ClauseSplitter.NormalizeNewlinesIsReplace | backend/nlp/clause_splitter.py:19 | rewriting line breaks is `s.replace("\r\n", "\n").replace("\r", "\n")`: every other character, `'\n'` included, stays where it was |
| ClauseSplitter.BlanksKeepOthers | backend/nlp/clause_splitter.py:20 | collapsing runs of spaces and tabs keeps every other character, line breaks included, in order |
| ClauseSplitter.Normalize | backend/nlp/clause_splitter.py:19-20 | defines the normalised text: line breaks rewritten, runs of spaces and tabs made one space, then stripped |
| ClauseSplitter.NormalizeSound | backend/nlp/clause_splitter.py:19-20 | the normalised text has no `'\r'`, no tab and no whitespace at either end, and it keeps the content of the input |
| ClauseSplitter.MaskAbbreviations | backend/nlp/clause_splitter.py:32-34 | the loop applies the seven `protected` replacements to `text.lower()` in dictionary order |
| ClauseSplitter.Masked | backend/nlp/clause_splitter.py:32-34 | defines the masked copy: the seven replacements folded over `text.lower()` in dictionary order |
| ClauseSplitter.MaskedFacts | backend/nlp/clause_splitter.py:23-34 | only the first four entries take effect (the keys `Mr.`, `Mrs.` and `Dr.` never match the lower-cased copy); the copy has no upper-case letter and is at least as long as the text |
| ClauseSplitter.Restore | backend/nlp/clause_splitter.py:82-89 | defines `restore(s)`: the seven placeholder replacements chained in order |
| ClauseSplitter.RestoreFacts | backend/nlp/clause_splitter.py:82-89 | `restore` leaves a clause without `__` unchanged and keeps a non-empty clause non-empty |
| ClauseSplitter.RestoredWithoutPlaceholders | backend/nlp/clause_splitter.py:82-94 | when no clause contains `__`, restoring every clause changes none |
| ClauseSplitter.PySlice | backend/nlp/clause_splitter.py:42-48 | Python's clamped slice: an in-range slice as in Dafny; `s[a..]` when only the end bound passes the length; empty when the bounds cross or the start is at or past the length |
| ClauseSplitter.SplitAtHeadings | backend/nlp/clause_splitter.py:37-48 | for each match in order: the gap before it only if `start > last_index`, then the heading; then the tail only if `last_index < len(text)`; all sliced from `text` and stripped |
| ClauseSplitter.PlacedOrdered | backend/nlp/clause_splitter.py:39-45 | the spans `finditer` yields are in order and do not overlap |
| ClauseSplitter.HeadingSplitKeepsText | backend/nlp/clause_splitter.py:37-48 | the parts, joined, hold exactly the content of the text, even where spans from the longer masked copy run past the text |
| ClauseSplitter.MergeHeadings | backend/nlp/clause_splitter.py:51-63 | the `while` loop computes the greedy merge: part `i` is joined with part `i+1` iff it has at most 8 words and the next more than 2 |
| ClauseSplitter.MergeFrom | backend/nlp/clause_splitter.py:53-63 | defines the merge pass from part `i`: a stripped part with at most 8 words is joined with a next part of more than 2 words, otherwise kept alone |
| ClauseSplitter.MergeLength | backend/nlp/clause_splitter.py:53-63 | the merged list is no longer than the parts and at least half as long |
| ClauseSplitter.JoinKeepsText | backend/nlp/clause_splitter.py:59 | `(p + " " + next).strip()` holds the content of `p` followed by that of `next` |
| ClauseSplitter.MergeKeepsText | backend/nlp/clause_splitter.py:53-63 | each part is used exactly once, left to right: the merged sections hold the content of the parts |
| ClauseSplitter.MergeWithoutJoins | backend/nlp/clause_splitter.py:54-63 | where no part joins the next, the merge only strips each part |
| ClauseSplitter.MergeJoinShortens | backend/nlp/clause_splitter.py:56-61 | a join makes the merged list shorter than the parts |
| ClauseSplitter.SplitLongSections | backend/nlp/clause_splitter.py:67-79 | the nested loops give, section by section, the candidate clauses of each merged section |
| ClauseSplitter.SectionClauses | backend/nlp/clause_splitter.py:69-79 | defines a section's candidates: none if it strips to empty, itself stripped if under 200 characters, else its non-empty stripped sentences |
| ClauseSplitter.SectionShape | backend/nlp/clause_splitter.py:69-79 | an empty section gives nothing; one under 200 characters gives exactly its stripped self; a longer one gives its sentences, cut at every whitespace run after `.`, `?` or `!` and nowhere else (`CutInto`), the punctuation staying on the left |
| ClauseSplitter.SectionKeepsText | backend/nlp/clause_splitter.py:68-79 | the candidates of a section hold its content |
| ClauseSplitter.CandidatesKeepText | backend/nlp/clause_splitter.py:67-79 | the candidates of all sections hold the content of all sections |
| ClauseSplitter.CandidatesClean | backend/nlp/clause_splitter.py:69-79 | every candidate clause is stripped and non-empty |
| ClauseSplitter.RestoreAndDedup | backend/nlp/clause_splitter.py:91-98 | the output loop with its `seen` set gives `restore` of each clause with repeats dropped |
| ClauseSplitter.Dedup | backend/nlp/clause_splitter.py:91-98 | defines the de-duplication: each clause is kept unless an equal one was kept before |
| ClauseSplitter.DedupFacts | backend/nlp/clause_splitter.py:91-98 | de-duplication leaves no two equal clauses and keeps every distinct clause |
| ClauseSplitter.DedupOrder | backend/nlp/clause_splitter.py:91-98 | the kept clauses appear in the order of their first occurrences |
| ClauseSplitter.DedupOfDistinct | backend/nlp/clause_splitter.py:91-98 | a list without repeats comes through unchanged |
| ClauseSplitter.SplitIntoClauses | backend/nlp/clause_splitter.py:13-98 | the output is the candidate clauses, restored and de-duplicated; empty input gives `[]`; no two output clauses are equal and none is empty |
| ClauseSplitter.OutputClean | backend/nlp/clause_splitter.py:69-98 | every output clause is non-empty and no two are equal |
| ClauseSplitter.CandidatesKeepAllText | backend/nlp/clause_splitter.py:19-79 | before `restore`, the candidate clauses together hold exactly the non-whitespace characters of the input, in order: no non-whitespace character is lost or added |
| RiskRules.DetectRisk | backend/nlp/risk_rules.py:13-23 | an empty table yields no matches |
| RiskRules.DetectRiskInClause | backend/nlp/risk_rules.py:13-23 | the nested loops compute the matches of the lower-cased clause against the table |
| RiskRules.WordMatchesIff | backend/nlp/risk_rules.py:20-22 | within one severity, a match is exactly a keyword of its list that occurs in the lower-cased clause |
| RiskRules.TableMatchesIff | backend/nlp/risk_rules.py:19-22 | a match is exactly a table entry whose keyword occurs in the lower-cased clause |
| RiskRules.DetectRiskIff | backend/nlp/risk_rules.py:17-22 | soundness and completeness: `(severity, w)` is a match iff it is a table entry and `w` occurs in `clause.lower()` |
| RiskRules.UpperKeywordNeverMatches | backend/nlp/risk_rules.py:17-21 | a keyword containing an upper-case letter never matches, since only the clause is lower-cased |
| RiskRules.DetectRiskInTableOrder | backend/nlp/risk_rules.py:19-22 | the matches are the hits among all entries, listed by severity and then keyword position, so they come in table order with one match per occurring entry |
| RiskRules.AppendKeywordCount | backend/nlp/risk_rules.py:19-22 | appending a keyword to one severity adds one match exactly when it occurs |
| RiskRules.AppendKeywordKeepsMatches | backend/nlp/risk_rules.py:18-23 | appending a keyword never removes a match, and adds one exactly when the keyword occurs |
| RiskDetector.AnalyzeClausesForRisk | backend/analysis/risk_detector.py:5-16 | one record per clause in order: `index == i`, `clause == clauses[i]`, `matches` is the clause's own matches, and `is_risky` iff there is a match |
| RiskDetector.RiskyIff | backend/analysis/risk_detector.py:13 | a clause is risky exactly when some keyword of the table occurs in its lower-cased text |

## Left out

- Reading the keyword table from JSON (backend/nlp/risk_rules.py:7-10) and the module-level load (backend/analysis/risk_detector.py:3) are file I/O. The table is a parameter of `DetectRiskInClause` and `AnalyzeClausesForRisk`.
- The records built by `analyze_clauses_for_risk` and `detect_risk_in_clause` are dictionaries in Python. Here they are the datatypes `ClauseRisk` and `Match`.
- `summarize_document` and the language-model client are model and network calls. The search ranking is floating-point numerics. These are not part of this model, and neither are the file readers, the configuration or the user interface.
- The module-level `print` at backend/parser/clean_text.py:13 is a side effect, not logic.
- Case mapping and character classes are ASCII only: `str.lower()`, `\w`, `\d` and `[A-Z]` under `IGNORECASE`. Python also acts on non-ASCII letters and digits, for example `'K'` (KELVIN SIGN) matches `k` case-insensitively. Whitespace is Python's full `str.isspace` set.
- Chunker.ChunkText: requires `0 < chunk_size` and `overlap < chunk_size`, which the only call (backend/analysis/summarizer.py:45, with 3000 and 200) meets. Empty text gives `[]` for any arguments (backend/analysis/summarizer.py:12-13). On non-empty text Python's loop also ends in cases outside this. With `overlap < chunk_size` and `chunk_size <= 0`, each pass still moves `start` forward by `chunk_size - overlap`, and each piece is `text[start:start + chunk_size].strip()`, where a negative end counts from the end of the text. For 8 characters, `chunk_size` -2 and `overlap` -5 give `["abcdef", "", ""]`; `chunk_size == 0` gives `ceil(len(text) / -overlap)` empty strings. With `overlap >= chunk_size` the loop ends only when `len(text) <= chunk_size`, and the result is `[text.strip()]`; on a longer text `start` stays at 0 and the loop does not terminate. A negative overlap with `chunk_size > 0` is allowed: it leaves gaps, and then `WindowsCover` and the last-window part of `WindowsTile` do not apply.
- General regular expressions are not modelled. Only `HEADING_RE` and `SPLIT_SENT_RE` are hand-coded.
- CleanText.CleanText: the exact result, `" ".join(raw.split())`, is stated for ASCII input only (`AsciiCleanIsJoinWords`). On other input a blanked non-ASCII run can sit beside a space, and only the kept characters are stated (`CleanKeepsAsciiText`).
- ClauseSplitter.RestoreFacts: covers what `restore` does to a clause without `__`, not its full effect on a clause that already held a placeholder string.
