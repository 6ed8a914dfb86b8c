# Drug mention pipeline: extractor, graph queries and validators

This project models the decision logic of a small data pipeline that links
drugs to the scientific publications and clinical trials that mention them.
It has three parts:

- **The mention extractor** (`find_drug_mentions`) reads a publication table
  and a drug vocabulary.
  - It first checks that the title column, `journal`, `id` and `date` are present.
  - It fills the null cells of the title, journal and id columns with `""`, in place.
  - It then emits one mention for every pair of a non-skipped row and a
    vocabulary entry whose upper-case name occurs in the upper-cased title.
- **The two ad-hoc queries** run over the resulting mention graph.
  - One finds the journal that mentions the most distinct drugs. A tie goes
    to the journal seen first.
  - The other finds the drugs that share, with a target drug, a journal that
    mentions both only through PubMed publications.
- **Three string utilities**: the ATC code validator, the NCT number
  validator, and the cleaner that deletes `\xYY` escape sequences.

Files:

- `wrappers.dfy` holds `Option`.
- `text.dfy` (module `Text`) holds Python's `upper()`, `lower()` and
  `capitalize()`, over ASCII, and the substring test `u in t`.
- `utils.dfy` (module `Utils`) holds the validators and the cleaner.
- `drug_mention_finder.dfy` (module `MentionFinder`) holds the extractor.
  - The table is a class with `columns` and `rows` fields.
  - The null fill is a method that reassigns `rows`.
  - The scan is a nested loop proved equal to a left-recursive specification.
- `adhoc_analysis.dfy` (module `AdhocAnalysis`) holds both queries.
  - Each query is a method whose loops fill maps and sets.
  - Each is proved against a definition over the graph.
  - The graph is an immutable sequence, so neither query can change it.

Python's dictionary insertion order matters for the tie-break. The first query
therefore keeps an explicit sequence of journals in order of first appearance.
The truthiness tests `if journal and drug` become `Present`: the field exists
and is non-empty.

## Model

| member | source | states |
|---|---|---|
| Text.Upper | src/data_transformation/drug_mention_finder.py:42 | `upper()` keeps the length and maps each position to its capital |
| Text.Capitalize | src/analysis/adhoc_analysis.py:138 | `capitalize()` upper-cases the first character, lower-cases the rest and keeps the length |
| Text.UpperIdempotent | src/analysis/adhoc_analysis.py:86 | upper-casing twice is upper-casing once, so drug keys are their own upper case |
| Text.UpperOfCapitalize | src/analysis/adhoc_analysis.py:138 | upper-casing a capitalized name gives back the upper-case key |
| Text.CapitalizeInjectiveOnKeys | src/analysis/adhoc_analysis.py:114-138 | two upper-case keys give the same capitalized output iff they are equal, so the output set loses no drug |
| Text.Contains | src/data_transformation/drug_mention_finder.py:54 | `u in t` holds iff `u` occurs in `t` at some index (a literal substring, no word boundary) |
| Utils.FullMatchPointwise | src/utils/utils.py:34 | a full match of a single-character-class pattern means equal length and every character in its class |
| Utils.AtcLevelsUnrolled | src/utils/utils.py:32 | the alternation of the five ATC levels matches iff one of the five patterns matches |
| Utils.IsAtcCodeMultiLevel | src/utils/utils.py:4-37 | `is_atccode_multi_level`: `re.fullmatch` of the five-level alternation, with `None` standing for a non-string input (which is rejected); its meaning is stated by the lemmas below |
| Utils.AtcCodeShape | src/utils/utils.py:23-37 | a string is accepted iff it is L, LNN, LNNL, LNNLL or LNNLLNN, written position by position |
| Utils.AtcCodeLengthAndLead | src/utils/utils.py:9-14 | every accepted code has length 1, 3, 4, 5 or 7 and starts with an upper-case letter |
| Utils.AtcCodeHierarchy | src/utils/utils.py:9-14 | the prefix of an accepted code at a level boundary (length 1, 3, 4 or 5) is itself accepted |
| Utils.AtcCodeAcceptedShortCases | tests/test_utils.py:6-26 | the valid first-, second- and third-level codes of the unit tests are accepted |
| Utils.AtcCodeAcceptedLongCases | tests/test_utils.py:6-26 | the valid fourth- and fifth-level codes of the unit tests are accepted |
| Utils.AtcCodeRejectedCases | tests/test_utils.py:29-58 | the invalid codes of the unit tests are rejected, and so is a non-string (`None`) |
| Utils.IsNctNumber | src/utils/utils.py:40-61 | `is_nct_number`: `re.fullmatch` of `NCT` followed by eight digits, with `None` standing for a non-string input (which is rejected); its meaning is stated by the lemmas below |
| Utils.NctNumberShape | src/utils/utils.py:52-61 | an id is accepted iff it has length 11, starts with `NCT` and ends with digits only |
| Utils.NctNumberAccepted | src/utils/utils.py:43-44 | the documented example `NCT12345678` is accepted |
| Utils.NctNumberRejected | src/utils/utils.py:52-61 | too short, too long, lower-case, non-digit and non-string ids are rejected |
| Utils.CleanSkippedHexSequences | src/utils/utils.py:64-84 | `clean_skipped_hex_sequences`: the single left-to-right `re.sub` scan that deletes each `\xHH` match and resumes after it; the result is never longer than the input |
| Utils.CleanIsSubsequence | src/utils/utils.py:80-84 | the cleaned string is obtained from the input by deleting characters only |
| Utils.CleanLength | src/utils/utils.py:80-83 | each deletion removes exactly four characters: cleaned length plus four per removed escape is the input length |
| Utils.CleanFirstMatch | src/utils/utils.py:80-83 | the leftmost match is the one deleted: the text before it is kept, its four characters (backslash, `x`, two hex digits) are dropped, and the scan resumes right after it |
| Utils.NoRemovalUnchanged | src/utils/utils.py:83 | when the scan removes nothing, the string is returned unchanged |
| Utils.RemovalIffEscape | src/utils/utils.py:80-83 | the scan removes something iff the input contains an escape somewhere |
| Utils.CleanUnchangedIff | src/utils/utils.py:80-84 | the cleaner leaves a string unchanged iff it contains no `\xYY` escape |
| Utils.CleanWithoutBackslash | src/utils/utils.py:80-84 | a string without a backslash is returned unchanged |
| Utils.CleanNotIdempotent | src/utils/utils.py:80-83 | matches are taken left to right without overlap, so `\x\x4142` cleans to `\x42`, which cleans to the empty string |
| MentionFinder.FilledColumn | src/data_transformation/drug_mention_finder.py:36-38 | `fillna("")` on one column: nulls become `""`, non-null cells and every other column are kept, and no row gains or loses a column |
| MentionFinder.NullsFilled | src/data_transformation/drug_mention_finder.py:36-38 | after the three fills the title, journal and id columns hold no null, and every other cell (the date included) is unchanged |
| MentionFinder.PublicationTable.FillNa | src/data_transformation/drug_mention_finder.py:36 | the table's rows become the filled rows, its columns are kept, and every row still has exactly the table's columns |
| MentionFinder.MatchingEntries | src/data_transformation/drug_mention_finder.py:53-54 | the indices of matching entries, strictly increasing, and an index is present iff the row is not skipped and its entry's name occurs in the upper-cased title |
| MentionFinder.PublicationMentionsExact | src/data_transformation/drug_mention_finder.py:41-64 | a skipped row (empty title or null date) yields no mention; otherwise one mention per matching entry, in vocabulary order, with the entry's listed name and the row's journal, date, id and original-case title |
| MentionFinder.EmptyNameMatchesEveryTitle | src/data_transformation/drug_mention_finder.py:54 | an entry whose upper-case name is empty matches every title |
| MentionFinder.PublicationMembership | src/data_transformation/drug_mention_finder.py:49-64 | a mention comes out of a row iff some vocabulary entry matches the non-skipped row and produces it |
| MentionFinder.TableMentionsAppend | src/data_transformation/drug_mention_finder.py:41 | mentions come out in row order: the scan of two row blocks is the first block's mentions followed by the second's |
| MentionFinder.TableMentionsMembership | src/data_transformation/drug_mention_finder.py:41-64 | a mention is emitted iff some non-skipped row and some matching vocabulary entry produce it |
| MentionFinder.ExtractedMentions | src/data_transformation/drug_mention_finder.py:19-65 | what the extractor returns: `[]` when a required column is missing, otherwise the scan of the rows as read through the title column for the source type; the lemmas above state its meaning |
| MentionFinder.Vocabulary | src/main.py:103-107 | the vocabulary pairs each distinct non-null drug name with its upper case, and lists exactly the non-null names |
| MentionFinder.VocabularyFirstAppearance | src/main.py:103-107 | the vocabulary keeps the order of first appearance of `unique()`: an earlier entry's name appears in the input before any appearance of a later entry's name |
| MentionFinder.DistinctDrugsPerPublication | src/data_transformation/drug_mention_finder.py:53-63 | with distinct vocabulary names a row never mentions the same drug twice |
| MentionFinder.FindDrugMentions | src/data_transformation/drug_mention_finder.py:4-65 | the result is the specified mention list of the original table; a missing required column gives `[]` and leaves the table untouched; otherwise the table ends with its three columns null-filled |
| MentionFinder.ScanRows | src/data_transformation/drug_mention_finder.py:41-64 | the nested row by vocabulary loop builds exactly the specified mention list |
| MentionFinder.FilledReadsAlike | src/data_transformation/drug_mention_finder.py:36-46 | reading a row after the null fill gives the same title, journal, id and date as reading it before |
| AdhocAnalysis.JournalOrder | src/analysis/adhoc_analysis.py:48-54 | the journal table's keys, in insertion order, have no repeats |
| AdhocAnalysis.JournalOrderBefore | src/analysis/adhoc_analysis.py:50-54 | a journal earlier in the key order has a counted mention that precedes every counted mention of a later one |
| AdhocAnalysis.SeenBeforeAsymmetric | src/analysis/adhoc_analysis.py:50-54 | two journals cannot each be seen before the other |
| AdhocAnalysis.JournalOrderFirstAppearance | src/analysis/adhoc_analysis.py:50-54 | of two listed journals, one comes first in the key order iff it is seen first in the graph, the order the tie-break at lines 62-66 relies on |
| AdhocAnalysis.JournalOrderSpec | src/analysis/adhoc_analysis.py:50-54 | a journal is a key iff some mention has a non-empty journal and drug naming it |
| AdhocAnalysis.DrugsInSpec | src/analysis/adhoc_analysis.py:50-54 | a drug is in a journal's set iff some mention with both fields pairs them |
| AdhocAnalysis.JournalHasDrug | src/analysis/adhoc_analysis.py:53-54 | every journal in the table has at least one drug |
| AdhocAnalysis.MostDiverse | src/analysis/adhoc_analysis.py:59-68 | the leader the source returns: a listed journal whose distinct-drug count no journal exceeds and that every journal seen before it falls strictly short of |
| AdhocAnalysis.LeaderUnique | src/analysis/adhoc_analysis.py:62-66 | the first-seen tie-break makes the leading journal and its count unique |
| AdhocAnalysis.CollectJournalDrugs | src/analysis/adhoc_analysis.py:48-54 | the first loop builds a map whose keys are the journals in first-appearance order, each mapped to its set of distinct drugs |
| AdhocAnalysis.FirstLargest | src/analysis/adhoc_analysis.py:59-66 | the running maximum returns a journal whose count no journal exceeds and that every earlier journal falls strictly short of |
| AdhocAnalysis.FindJournalWithMostDifferentDrugs | src/analysis/adhoc_analysis.py:35-68 | `(None, 0)` iff no mention has both a journal and a drug; otherwise the first-seen journal with the most distinct drugs, with that count (at least 1) |
| AdhocAnalysis.FirstOfTwoLeads | src/analysis/adhoc_analysis.py:59-66 | with exactly two journals, the one seen first leads whenever the other has no more distinct drugs, a tie included |
| AdhocAnalysis.TieGraphTable | src/analysis/adhoc_analysis.py:48-54 | for a two-mention graph the table lists J1 then J2, each with its one drug |
| AdhocAnalysis.FirstSeenWinsTie | src/analysis/adhoc_analysis.py:62-66 | of two journals tied at one drug each (`TieGraph`), the first seen leads |
| AdhocAnalysis.SecondSeenLosesTie | src/analysis/adhoc_analysis.py:62-66 | in that tie the journal seen second does not lead |
| AdhocAnalysis.JournalTableIgnoresIncomplete | src/analysis/adhoc_analysis.py:53 | a mention missing its journal or drug, at any position in the graph, changes neither the journal order nor any journal's drug set |
| AdhocAnalysis.SourcesSpec | src/analysis/adhoc_analysis.py:93-98 | a source type is recorded for a drug key and a journal iff some complete mention with that upper-cased drug carries it |
| AdhocAnalysis.BuildIndexAt | src/analysis/adhoc_analysis.py:89-98 | the nested drug to journal to sources table has exactly the drug keys, and for each drug exactly the journals and sources observed |
| AdhocAnalysis.Related | src/analysis/adhoc_analysis.py:71-140 | the related-drugs result defined over the graph: empty for an empty target, otherwise the capitalized drug keys other than the target's that share with it a journal PubMed-only for both |
| AdhocAnalysis.CollectPubmedOnly | src/analysis/adhoc_analysis.py:101-105 | step 2 collects exactly the journals whose sources contain `pubmed` and not `clinical_trial` |
| AdhocAnalysis.CollectShared | src/analysis/adhoc_analysis.py:122-132 | step 3's inner loop collects exactly the target journals that are PubMed-only for the other drug too |
| AdhocAnalysis.RelatedViaIndex | src/analysis/adhoc_analysis.py:100-140 | the computation over the nested table agrees with the definition over the graph |
| AdhocAnalysis.FindRelatedDrugsByPubmedJournals | src/analysis/adhoc_analysis.py:71-140 | the result is exactly the capitalized drug keys, other than the target's, that share with the target a journal that is PubMed-only for both, or empty for an empty graph or target |
| AdhocAnalysis.DrugKeysAreUpper | src/analysis/adhoc_analysis.py:98 | every drug key is its own upper case |
| AdhocAnalysis.RelatedMembership | src/analysis/adhoc_analysis.py:114-138 | for an upper-case key, its capitalized form is in the result iff the target is non-empty and the key is another drug sharing a journal that is PubMed-only for both |
| AdhocAnalysis.TargetNotRelated | src/analysis/adhoc_analysis.py:114-118 | the target itself is never in the result |
| AdhocAnalysis.NoPubmedOnlyJournalNoRelated | src/analysis/adhoc_analysis.py:107-109 | a target with no PubMed-only journal has no related drugs |
| AdhocAnalysis.RelatedCaseInsensitive | src/analysis/adhoc_analysis.py:86 | targets that agree in upper case have the same related drugs |
| AdhocAnalysis.IndexSkipsIncomplete | src/analysis/adhoc_analysis.py:97 | a mention missing its drug, journal or source type, at any position, changes neither the drug keys nor any source set |
| AdhocAnalysis.RelatedIgnoresIncomplete | src/analysis/adhoc_analysis.py:97 | a mention missing its drug, journal or source type, at any position in the graph, does not change the result |
| AdhocAnalysis.RelatedExample | src/analysis/adhoc_analysis.py:71-140 | in `RelatedGraph`, B and X are in J1 through PubMed and Y is in J1 through a clinical trial; target `b` is related to exactly `{"X"}` |

## Left out

- `load_graph_data` and the `__main__` demo of `src/analysis/adhoc_analysis.py` are left out: they do file I/O, JSON decoding and printing. A graph that failed to load is handled by the caller, so the queries take a sequence.
- The JSON write and re-read of the mention graph is left out (I/O). The queries take the graph as a sequence of mentions whose fields may be missing.
- `src/data_ingestion/reader.py` is not part of this model (pandas CSV and JSON loading).
- `src/main.py` orchestration is not part of this model. Two of its pieces of logic are modelled:
  - the vocabulary it builds is `MentionFinder.Vocabulary`;
  - its final filter drops mentions whose date is `None`. In this model a mention's date is always a string, because a row with a null date is skipped, so the filter removes nothing.
- `src/data_cleansing/date_parser.py` is not part of this model (library date parsing). A row's date arrives as a string or null.
- `tests/sql/sales_categorisation_test.py` is not part of this model (SQL run through sqlite, unrelated to the mention logic).
- Text.Upper: only ASCII letters change case. Python's `str.upper()`, `lower()` and `capitalize()` follow full Unicode rules, and some of those rules change the length of a string.
- Utils.IsAtcCodeMultiLevel: `\d` is modelled as the ASCII digits `0`-`9`. Python's `\d` on `str` also accepts other Unicode decimal digits. The same holds for `Utils.IsNctNumber`.
- Non-string inputs to the validators (numbers, lists, dictionaries) are all modelled as `None`.
- In the table, a null cell is `None`. pandas' distinction between `NaN` and `None`, and its dtype coercion, are left out. A NaN date would pass the source's `date is None` test; this model has no such value.
- `str(...)` of non-string cells is left out: a table cell is either text or null.
- The warning `print`s and their messages are left out.
- The queries never mutate their input. This holds in the model because the graph is an immutable sequence value, so no separate lemma states it.
