# Reference checker and evaluation diagnostic, modelled in Dafny

This project models two small tools from a retrieval-evaluation repository.

- **The pre-publication reference checker** (`check_philips_references.py`) walks
  the repository and selects text files by extension. It skips any file on a path
  with an excluded directory component, and any file whose name is on a deny list.
  For every line of every selected file, it records one match for each of five
  word-boundary patterns the line contains. It then reports how many files it
  scanned and how many matches it found. Its exit status is 1 when any match was
  found and 0 otherwise.
- **The evaluation diagnostic** (`diagnostic_evaluation_bug.py`) compares the
  ranked id lists that two retrieval methods give for the first query of a judged
  test set. For every query it builds each method's relevance vector from the
  judged grades, and accumulates six lists in lockstep. It feeds each method's
  three lists to the metric aggregator and compares the two NDCG@10 scores. When
  they disagree, it dumps the first five queries' vectors side by side.

The model has three modules:

- `Sequences` (`sequences.dfy`): counting the elements that pass a test, and the
  index of an element.
- `ReferenceScanner` (`scanner.dfy`): the checker's constants, path selection,
  word-boundary search, `str.strip`, the per-file scan (a method with two nested
  loops) and the tree scan (a method with one loop).
- `EvaluationDiagnostic` (`diagnostic.dfy`): the grade map, relevance vectors,
  relevant counts, the accumulation loop, the one-query comparison, the detail
  dump and the whole run.

Conventions:

- A path is its sequence of components. Its text is the components joined with
  `/`.
- A file's contents are its sequence of lines, as Python's line iterator yields
  them, each line with its terminator.
- The directory walk is a sequence of entries. Each entry is a path, whether it is
  a regular file, and its lines.
- The retrieval methods are functions from query text to an id list.
- The aggregator is a function from the three accumulated lists to a score.
- The tolerance test `abs(a - b) < 0.001` is a predicate on two scores.

Each method with a loop is proved against a specification function, and the
lemmas state the properties of that function.

## Model

The constants are declared as in the source and are not table rows. `SensitiveWords` and `SensitivePatterns` are the five patterns (check_philips_references.py:11-17). `IncludeExtensions` (:20), `ExcludeDirs` (:21) and `ExcludeFiles` (:22) are the selection lists. `DumpLimit` is 5, the `[:5]` slice of the dump (diagnostic_evaluation_bug.py:123). The lemmas in the first rows state what the lists hold.

| member | source | states |
|---|---|---|
| ReferenceScanner.PatternsAreAnchoredWords | check_philips_references.py:11-17 | there are five patterns; each is a literal word between two `\b` anchors; each word is non-empty and begins and ends with a word character; no pattern is repeated |
| ReferenceScanner.ExtensionsAreSuffixes | check_philips_references.py:20 | each of the seven included extensions is a `.` followed by at least one character, with no `/` |
| ReferenceScanner.ExcludedDirsAreComponents | check_philips_references.py:21 | each of the six excluded directory names is a non-empty single path component |
| ReferenceScanner.DenyListedNamesHaveIncludedExtensions | check_philips_references.py:20-22 | the two deny-listed names end in `.py` and `.md`, both included extensions, so the deny list is what keeps them out |
| ReferenceScanner.Name | check_philips_references.py:36 | definition: `file_path.name`, the last path component (empty for an empty path) |
| ReferenceScanner.Text | check_philips_references.py:27 | `str(file_path)`, used by the extension test and (at line 51) by each record: the components joined with `/`; the text always ends with the file name, and a one-component path is its own text |
| ReferenceScanner.EndsWith | check_philips_references.py:27 | definition: `str.endswith`, true when the suffix is no longer than the text and its last `len(suffix)` characters equal the suffix |
| ReferenceScanner.AnyEndsWith | check_philips_references.py:27 | true exactly when the text ends with one of the listed extensions |
| ReferenceScanner.AnyExcludedIn | check_philips_references.py:31-32 | true exactly when some path component equals one of the excluded directory names |
| ReferenceScanner.ShouldCheckFile | check_philips_references.py:24-39 | a file is selected exactly when it meets three conditions: its full path text ends with an included extension, no component of the path is an excluded directory name, and its base name is not on the file deny list |
| ReferenceScanner.JoinEndsWith | check_philips_references.py:27 | when neither the last component nor the suffix holds a `/`, the joined path ends with the suffix exactly when the last component does |
| ReferenceScanner.ExtensionDecidedByName | check_philips_references.py:27 | the extension test on the whole path text agrees with the same test on the file's base name |
| ReferenceScanner.ContainingExcludedNameIsScanned | check_philips_references.py:31-32 | `myenv/app.py` is selected: exclusion compares whole components, so `env` inside `myenv` does not exclude |
| ReferenceScanner.ExtendingExcludedNameIsScanned | check_philips_references.py:31-32 | `venv2/notes.md` is selected: a component that only starts with `venv` does not exclude |
| ReferenceScanner.ExactExcludedComponentIsSkipped | check_philips_references.py:31-33 | `env/app.py` is rejected |
| ReferenceScanner.NestedExcludedComponentIsSkipped | check_philips_references.py:31-33 | an excluded component deeper in the path (`src/__pycache__/app.py`) also rejects the file |
| ReferenceScanner.DenyListedNameIsSkipped | check_philips_references.py:36-37 | a file named `SPOTLIGHT_PROJECT_DOCUMENTATION.md` is rejected even though its extension is included |
| ReferenceScanner.WrongExtensionIsSkipped | check_philips_references.py:27-28 | `src/app.pyc` is rejected: `.py` must end the path text |
| ReferenceScanner.AncestorComponentExcludes | check_philips_references.py:31-33 | components come from the whole path the walk yields, so an excluded name among the root's own ancestors rejects every file below it |
| ReferenceScanner.SearchFromFinds | check_philips_references.py:49 | the search from position `i` succeeds exactly when the word occurs at some position `j >= i`, with a word boundary on each side |
| ReferenceScanner.SearchFinds | check_philips_references.py:49 | `re.search(r'\bW\b', line)` succeeds exactly when the word occurs somewhere in the line with a non-word character or the line's edge on both sides |
| ReferenceScanner.IsWordChar | check_philips_references.py:49 | definition: the characters `\w` matches, taken as ASCII letters, digits and `_` |
| ReferenceScanner.OccursAt | check_philips_references.py:49 | definition: one match of `\bword\b` starting at position `i`; the word is at `i`, and the characters just before and just after it are not word characters (or are the line's ends) |
| ReferenceScanner.SearchFrom | check_philips_references.py:49 | tries each start position from `i` on; a success implies the word fits in the rest of the line (its full meaning is stated by `SearchFromFinds`) |
| ReferenceScanner.Search | check_philips_references.py:49 | `re.search` for one pattern; a success implies the word fits in the line (its full meaning is stated by `SearchFinds`) |
| ReferenceScanner.SuffixedWordMisses | check_philips_references.py:49 | `philipsy` matches none of the five patterns |
| ReferenceScanner.InfixWordMisses | check_philips_references.py:49 | `miscslassified` matches none of the five patterns |
| ReferenceScanner.EmbeddedWordExamples | check_philips_references.py:48-55 | the lines `philipsy` and `miscslassified` yield no record for any of the five patterns |
| ReferenceScanner.PunctuatedWordHits | check_philips_references.py:49-53 | `(Philips)` matches `\bPhilips\b`, and stripping leaves it unchanged |
| ReferenceScanner.PunctuatedWordMisses | check_philips_references.py:49 | `(Philips)` matches none of the other four patterns |
| ReferenceScanner.PunctuatedWordExample | check_philips_references.py:48-55 | the line `(Philips)` yields exactly one record, for `\bPhilips\b`, with the line as its content |
| ReferenceScanner.TrailingWordExample | check_philips_references.py:48-55 | the line `csl.` yields exactly one record, for `\bcsl\b`, with the line as its content |
| ReferenceScanner.CaseSpecificExamples | check_philips_references.py:12-16 | the patterns are case-sensitive: `PhiLips` and `Csl` match none of the five |
| ReferenceScanner.IsSpace | check_philips_references.py:53 | definition: the characters for which `str.isspace` holds, which are the ones `str.strip()` removes: space, `\t` to `\r`, `\x1c` to `\x1f`, `\x85`, `\xa0`, and the Unicode space and separator characters |
| ReferenceScanner.LeadingSpace | check_philips_references.py:53 | counts the leading whitespace characters: every one of them is whitespace, and the next character is not |
| ReferenceScanner.TrailingSpace | check_philips_references.py:53 | the same for the trailing whitespace characters |
| ReferenceScanner.StripTrims | check_philips_references.py:53 | `line.strip()` is a contiguous slice of the line; it has no whitespace at either end; everything cut off before and after it is whitespace |
| ReferenceScanner.Strip | check_philips_references.py:53 | `line.strip()`: never longer than the line (the exact slice is stated by `StripTrims`) |
| ReferenceScanner.StripIdempotent | check_philips_references.py:53 | stripping twice gives the same result as stripping once |
| ReferenceScanner.PatternIndex | check_philips_references.py:48 | the position of a pattern in the pattern list, at most five |
| ReferenceScanner.PatternIndexOf | check_philips_references.py:48 | the position of the `q`-th pattern is `q` |
| ReferenceScanner.ScanFile | check_philips_references.py:41-59 | the matches are exactly the specification sequence: one record per line and matching pattern, in line order and then pattern order |
| ReferenceScanner.LineMatches | check_philips_references.py:48-55 | the records one line produces from the first `k` patterns (their number, soundness, order and completeness are stated by the `LineMatches…` lemmas) |
| ReferenceScanner.FileMatches | check_philips_references.py:47-55 | the records of the first `n` lines (the specification `ScanFile` is proved against; `FileMatchesSoundAndOrdered` and `FileMatchesComplete` state its content) |
| ReferenceScanner.LineMatchesNone | check_philips_references.py:48-55 | a line on which no pattern matches yields no record |
| ReferenceScanner.LineMatchesOnly | check_philips_references.py:48-55 | a line on which exactly one pattern matches yields exactly that pattern's record, holding the stripped line |
| ReferenceScanner.LineMatchesShape | check_philips_references.py:48-55 | one line yields at most one record per pattern tried, and all of them carry that line's number |
| ReferenceScanner.RecordIsHit | check_philips_references.py:49-55 | the record appended for a matching pattern names the file, the 1-based line, the stripped line and that pattern |
| ReferenceScanner.LineMatchesSound | check_philips_references.py:49-55 | every record of a line names the file and the 1-based line number, holds the stripped line, and names a pattern whose word the line contains |
| ReferenceScanner.LineMatchesOrdered | check_philips_references.py:48 | one line's records appear in pattern order |
| ReferenceScanner.LineMatchesComplete | check_philips_references.py:48-55 | each pattern the line contains produces a record |
| ReferenceScanner.AllHitsAppend | check_philips_references.py:50 | appending two sequences of valid records gives a sequence of valid records |
| ReferenceScanner.SortedAppend | check_philips_references.py:47-48 | appending records of later lines keeps the order by line and pattern |
| ReferenceScanner.FileMatchesSoundAndOrdered | check_philips_references.py:47-55 | every record of a file is a real hit on a line that exists, and the records are strictly ordered by line, then by pattern |
| ReferenceScanner.FileMatchesComplete | check_philips_references.py:47-55 | each (line, pattern) hit appears among the file's records |
| ReferenceScanner.NoRepeatedPair | check_philips_references.py:47-55 | no two records of a file have the same line and pattern |
| ReferenceScanner.AtMostFivePerLine | check_philips_references.py:48 | a line has at most five records, and a line past the end has none |
| ReferenceScanner.Selected | check_philips_references.py:74 | an entry is scanned when it is a regular file and passes `ShouldCheckFile` |
| ReferenceScanner.AllMatches | check_philips_references.py:73-77 | the concatenation, in walk order, of the scanned entries' records (the specification `ScanTree` is proved against) |
| ReferenceScanner.ScanTree | check_philips_references.py:68-101 | the files-scanned count is the number of selected entries; the match list concatenates the selected files' records in walk order; the exit status is 1 when the list is non-empty and 0 otherwise, which is also 1 exactly when some selected file has a hit |
| ReferenceScanner.EntryMatches | check_philips_references.py:74-77 | definition: a rejected entry adds no records; a selected one adds the records of scanning its lines under its path text |
| ReferenceScanner.FileMatchesNonEmptyIff | check_philips_references.py:47-55 | a file produces some record exactly when some line of it contains some pattern |
| ReferenceScanner.EntryMatchesNonEmptyIff | check_philips_references.py:74-77 | an entry contributes records exactly when it is a selected file with a hit |
| Sequences.ExistsInSnoc | check_philips_references.py:73-77 | an element of a walk extended by one entry passes a test exactly when one in the prefix or the new entry does, as a hit in any scanned file makes the walk report |
| ReferenceScanner.StatusIffSomeHit | check_philips_references.py:83-101 | the match list is non-empty, so the status is 1, exactly when some selected file contains a pattern |
| ReferenceScanner.RejectedFileNotRead | check_philips_references.py:74 | the contents of an entry that is not selected do not affect the result |
| Sequences.CountIf | check_philips_references.py:75 | a counter bumped once per passing element, as at line 75 and in `sum(1 for rel … if rel > 0)` at diagnostic_evaluation_bug.py:87; never more than the length |
| Sequences.CountIfIsCardinality | check_philips_references.py:75 | a count bumped once per passing element equals the number of positions that pass |
| Sequences.CountIfAppend | check_philips_references.py:47-55 | counting over a concatenation adds the two counts, as when the records of one line are appended to those of earlier lines |
| Sequences.IndexOf | check_philips_references.py:48 | the first index of an element, or the length when the element is absent; every earlier element differs |
| EvaluationDiagnostic.ZipPrefix | diagnostic_evaluation_bug.py:86 | the dict built from the first `n` zipped pairs, later pairs overwriting earlier ones (its keys and values are stated by `ZipPrefixLastWins`) |
| EvaluationDiagnostic.GradeMap | diagnostic_evaluation_bug.py:86 | the dict comprehension over `zip(document_ids, relevances)` (stated by `GradeMapFromZip`) |
| EvaluationDiagnostic.ZipPrefixLastWins | diagnostic_evaluation_bug.py:86 | the map built from the first `n` pairs has exactly those ids as keys, and each id maps to the grade of its last occurrence |
| EvaluationDiagnostic.GradeMapFromZip | diagnostic_evaluation_bug.py:86 | the dict comprehension over `zip` keeps only pairs up to the shorter list's length, and a repeated id keeps its last grade |
| EvaluationDiagnostic.RelevanceVector | diagnostic_evaluation_bug.py:94 | `[grades.get(doc_id, 0) for doc_id in ids]`: one entry per retrieved id |
| EvaluationDiagnostic.QueryRelevances | diagnostic_evaluation_bug.py:94 | one query's relevance vector, one entry per retrieved id (each entry's value is stated by `RelevanceIsJudgedGrade`) |
| EvaluationDiagnostic.RelevanceIsJudgedGrade | diagnostic_evaluation_bug.py:94 | the relevance vector has one entry per retrieved id; the entry is the id's last judged grade, or 0 when the id is not judged |
| EvaluationDiagnostic.TotalRelevant | diagnostic_evaluation_bug.py:87 | the relevant count of a query, never more than its number of grades |
| EvaluationDiagnostic.TotalRelevantCountsPositive | diagnostic_evaluation_bug.py:87 | the relevant count is the number of strictly positive grades, and at most the number of grades |
| EvaluationDiagnostic.RelevanceLists | diagnostic_evaluation_bug.py:94-95 | one method's list of relevance vectors: one per query, in test-set order, entry `i` being query `i`'s vector for that method's retrieval |
| EvaluationDiagnostic.TotalsList | diagnostic_evaluation_bug.py:87-96 | the relevant counts, one per query in test-set order |
| EvaluationDiagnostic.GroundTruthList | diagnostic_evaluation_bug.py:90-97 | the judged grades, one list per query in test-set order |
| EvaluationDiagnostic.MethodScore | diagnostic_evaluation_bug.py:108-109 | `aggregate_metrics` applied to one method's vector list, the relevant counts and the ground-truth grades |
| EvaluationDiagnostic.SameRetrievalsSameScore | diagnostic_evaluation_bug.py:85-109 | methods that retrieve the same ids for every query have the same vector lists and the same aggregate score, whatever the aggregator |
| EvaluationDiagnostic.Accumulate | diagnostic_evaluation_bug.py:78-105 | the six lists have one entry per query, in test-set order; entry `i` holds each method's relevance vector for query `i`, its relevant count and its ground-truth grades; the two methods' counts and ground truths are equal; the two vectors are equal whenever both methods retrieved the same ids; the lists are exactly `RelevanceLists` for each retrieval, `TotalsList` and `GroundTruthList` |
| EvaluationDiagnostic.Elements | diagnostic_evaluation_bug.py:72-73 | definition: `set(ids)`, the ids a list holds, ignoring order and repeats |
| EvaluationDiagnostic.Compare | diagnostic_evaluation_bug.py:68-73 | the lists are reported identical exactly when they are equal; otherwise the report lists, on each side, exactly the ids found by that method alone |
| EvaluationDiagnostic.CompareSides | diagnostic_evaluation_bug.py:72-73 | no id is on both sides; both sides are empty exactly when the two lists hold the same ids |
| EvaluationDiagnostic.ReorderedListsExample | diagnostic_evaluation_bug.py:68-73 | `[1, 2]` and `[2, 1]` are reported different, with nothing listed on either side |
| EvaluationDiagnostic.DetailDump | diagnostic_evaluation_bug.py:123-128 | entries for the first `min(5, n)` queries, numbered from 1; each entry holds the query, both vectors, and a DIFFERENT flag that is set exactly when the vectors differ |
| EvaluationDiagnostic.Diagnose | diagnostic_evaluation_bug.py:43-128 | an empty test set ends the run without a report; otherwise the report holds the first query and its comparison; `scoresMatch` is the tolerance test applied to the aggregator's score of the baseline lists and of the cross-encoder lists; the dump is empty when the scores match; when they do not, the dump holds `min(5, n)` entries, entry `i` numbered `i + 1` and holding query `i`, its baseline vector, its cross-encoder vector, and a flag set exactly when the two differ; if the two methods retrieve the same ids for every query and the tolerance is reflexive, the report says identical and the scores match |

## Left out

- Directory walking (`Path.rglob`), `is_file`, file opening and UTF-8 decoding with `errors='ignore'` are not modelled. The walk is a sequence of entries given as input, in the order `rglob` would produce.
- Printing is not modelled, on both tools. The header and banner lines, each match's report lines, and the diagnostic's progress output are left out. What would be printed is returned as values instead: counts, the match list, the comparison and the dump.
- ScanFile: the `except Exception` branch is not modelled. A file that fails to read part-way would keep the records taken before the failure, and only the error message is printed. The model reads every selected file in full.
- ReferenceScanner.SearchFinds: `\b` is modelled with ASCII word characters (letters, digits, `_`). Python's default Unicode `\w` also counts non-ASCII letters and digits; this matters only when such a character borders a sensitive word.
- ReferenceScanner.ShouldCheckFile: the text of an absolute path has a leading `/`, and a Windows path uses `\`. The model joins components with `/` and has no root anchor. This does not change suffix tests on a non-empty base name.
- ReferenceScanner.ScanFile: each record's `file` is the joined component text, without a root anchor. The checker records `str(file_path)`, which starts with `/` when the script's directory is absolute. The model's file text therefore lacks that leading `/` (or, on Windows, the drive and `\` separators).
- The hybrid searches (`search_hybrid`, `retrieve_candidates_hybrid`), the cross-encoder system, its loader, the BM25/semantic weights and `top_k=10` are outside this model. The two retrievals are function parameters returning an id list.
- Retrieval scores are printed and never used, so they are not modelled.
- The test-set loader and the CSV files, and the pandas data frames, are outside this model. The test set is a sequence of (query, judgments) pairs in the dict's insertion order.
- EvaluationDiagnostic.Diagnose: the first query's retrievals are computed again inside the loop. The model treats each retrieval as a deterministic function, so both calls give the same ids.
- EvaluationDiagnostic.Diagnose: `aggregate_metrics` and its NDCG@10 arithmetic in floating point are not modelled. The aggregator is a function parameter. The `abs(a - b) < 0.001` test is a predicate parameter. The "same ids ⇒ scores match" property assumes that predicate is reflexive, which floating-point NaN would break.
- EvaluationDiagnostic.Diagnose: `aggregate_metrics` is taken to be deterministic and to leave its arguments unchanged. In the source, the ground-truth lists appended to both methods' lists (bound at diagnostic_evaluation_bug.py:90, appended at :97 and :105) are the test set's own list objects. The relevance vectors passed to the aggregator (:108-109) are the same objects the dump prints (:125-127). If the aggregator mutated any of them in place, the dump and the second call would see the change; the model, built on values, does not capture that.
- EvaluationDiagnostic.RelevanceVector: its own contract states only the length. Its content is stated by EvaluationDiagnostic.RelevanceIsJudgedGrade.
- EvaluationDiagnostic.Diagnose: an empty test set makes `list(test_set.keys())[0]` raise IndexError. The model returns the `NoFirstQuery` outcome in its place; the traceback is not modelled.
