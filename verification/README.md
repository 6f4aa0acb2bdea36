# Relationship inference of the persistent CSV relationship analyser

This project models the core of `PersistentRelationshipAnalyzer` in
`csv_analyser.py`, which looks at a directory of CSV files and guesses which
columns of different files refer to the same thing. The model covers five
parts of it:

- **Change gate** (`ChangeGate`). A cached report is reused only when the
  stored file-name → content-hash map matches the current one.
- **Column profiling** (`Profile`). Each column of each readable file gets a
  profile:
  - its dtype tag;
  - the first 20 distinct non-null values, in the order they are first met;
  - the uniqueness ratio: distinct non-null values over the column length;
  - the null count.
  A column of length zero makes the uniqueness ratio divide by zero. The
  surrounding `try` then ends that file: the columns already stored stay and
  the rest are skipped.
- **Matcher** (`Matcher`). Every pair of profiled (file, column) entries is
  taken in `itertools.combinations` order and passed through three gates:
  - the two entries must come from different files;
  - they must have the same dtype;
  - the pair must be accepted: name similarity at least 60, or sample overlap
    at least 0.1.
  Each accepted pair becomes a scored record with confidence
  `(nameSim*0.4 + overlap*100*0.6)/100`. The new records are added to the
  ones already held, and the whole list is stably sorted by descending
  confidence (`Sorting`).
- **Queries** (`Queries`). Two queries read the list: the strong
  relationships (confidence at least 0.7), and the columns related to one
  (file, column), returned as triples sorted by confidence.
- **Full analysis** (`Analyzer`). This chains hashing, profiling and matching
  on a fresh analyser.

Some source details need a modelling choice:

- Ratios are `real`.
- Cell values are the text `str(x)` would give.
- The fuzzy scorer `fuzz.token_sort_ratio` is a function-valued parameter.
  Nothing is known about it except an explicitly named assumption
  (`Matcher.ScoreInRange`): its score lies in 0..100.
- Files are a sequence in listing order. Each file's columns are a sequence
  in header order. The profile map's insertion order is the listing order,
  because files are profiled in the order of the hash map, which is filled
  in listing order.

Notes on the source:

- Uniqueness divides by the column length with no guard
  (`csv_analyser.py:77`). A file whose columns have no rows therefore gets no
  profiles at all.
- The profile keeps a null count (`csv_analyser.py:78`).
- The related-columns query returns (file, column, confidence) triples
  (`csv_analyser.py:158`, `csv_analyser.py:160`).

## Model

| member | source | states |
|---|---|---|
| ChangeGate.HasFilesChanged | csv_analyser.py:34-47 | Reports a change exactly when the cached and current hash maps differ. Equivalently: the file-name sets differ, or some cached file's current `get` result is not its cached hash. |
| Profile.Distinct | csv_analyser.py:76 | The distinct values of `dropna().unique()`: no duplicates, and a value is listed exactly when some non-null cell holds it. |
| Profile.DistinctInEncounterOrder | csv_analyser.py:76 | `unique()` keeps first-occurrence order: a value listed earlier was first met in an earlier cell. |
| Profile.DistinctCountsPresentValues | csv_analyser.py:76-77 | The number of listed distinct values equals the number of distinct non-null values that `nunique` counts. |
| Profile.Samples | csv_analyser.py:76 | The sample is the first min(20, #distinct) distinct values, a prefix of the encounter-ordered list, duplicate-free, and drawn from the column. |
| Profile.NullCount | csv_analyser.py:78 | The null count equals the number of missing cells, and is at most the column length. |
| Profile.Uniqueness | csv_analyser.py:77 | For a non-empty column the ratio is in [0, 1]. It is 0 exactly when no value is present, and 1 exactly when every cell holds a different value. |
| Profile.UniquenessScales | csv_analyser.py:77 | Uniqueness times the column length gives back the number of distinct non-null values. |
| Profile.ProfileColumn | csv_analyser.py:73-79 | A column has no profile exactly when it has length zero, which is where the division raises. Otherwise the profile keeps the header and dtype, and holds the sample, the ratio in [0, 1] and the missing-cell count. |
| Profile.ProfileColumns | csv_analyser.py:69-81 | A file's stored profiles are exactly those of its leading profilable columns: the first column that raises ends the file. |
| Profile.ProfileColumnsAllOrNothing | csv_analyser.py:69-81 | For a rectangular frame, a file with rows gets every column profiled and a header-only file gets none. |
| Profile.AnalyzeFile | csv_analyser.py:67-81 | An unreadable file, where the `except` branch is taken, contributes no profiles. A readable file contributes the profiles of its leading columns, each its column's profile, up to the first column that cannot be profiled. |
| Profile.AnalyzeAll | csv_analyser.py:83-88 | Every file that yields at least one profile has an entry with exactly those profiles. A file yielding none has no entry. No file appears twice. The entries keep the listing order of the files, as a subsequence of one entry per file. |
| Matcher.AllColumns | csv_analyser.py:94-97 | The listing has one entry per column. File t's entries, in header order, form the block that starts after the columns of the files before t. |
| Matcher.AllColumnsMembers | csv_analyser.py:94-97 | An entry (file, column profile) is listed exactly when that profile belongs to that file. |
| Matcher.NameSimilarity | csv_analyser.py:109 | The score is taken on the lower-cased names. Under the score-range assumption it lies in 0..100. |
| Matcher.NameSimilarityIgnoresCase | csv_analyser.py:109 | Lower-casing the names beforehand does not change the score, so names that differ only in letter case score alike. |
| Matcher.Accepted | csv_analyser.py:117 | A pair passes when its name score reaches the name threshold or its overlap reaches the overlap threshold. Either gate alone suffices, and a pair failing both is rejected. |
| Matcher.AcceptedMonotone | csv_analyser.py:117 | Raising the name score or the overlap never turns an accepted pair away. |
| Matcher.OverlapRatio | csv_analyser.py:111-115 | The overlap is in [0, 1]. It is 0 exactly when the sample sets are disjoint, which includes either set being empty. It is 1 exactly when both sets are non-empty and one contains the other. |
| Matcher.OverlapRatioScales | csv_analyser.py:111-115 | When both sample sets are non-empty, the ratio times the smaller set's size is the number of shared values, so the ratio is the shared count over the smaller set's size. |
| Matcher.OverlapRatioSymmetric | csv_analyser.py:111-115 | The overlap does not depend on which column is listed first. |
| Matcher.Confidence | csv_analyser.py:118 | For a score in 0..100 and an overlap in [0, 1], confidence is in [0, 1]. With no overlap it is 0.4 of the name score's share; with a zero name score it is 0.6 of the overlap. |
| Matcher.Candidate | csv_analyser.py:99-131 | A pair yields a record exactly when the files differ, the dtypes agree and the name-or-overlap gate passes. The record names the first entry on side 1 and carries the shared dtype, the scores and both uniqueness ratios. |
| Matcher.DefaultNameOnlyMatch | csv_analyser.py:92-118 | With the default thresholds 60 and 0.1, a cross-file same-dtype pair with disjoint samples is kept exactly when its names score at least 60. A score of 100 then gives confidence 0.4. |
| Matcher.AcceptedPairs | csv_analyser.py:99-117 | The position pairs i < j of the listing that pass all three gates, in `itertools.combinations` order (by i, then by j). Each is listed once, every accepted pair is included, and the list is strictly increasing in that order. |
| Matcher.Discover | csv_analyser.py:99-131 | The k-th discovered record is the record of the k-th accepted pair, so records come in combinations order. A record is discovered exactly when it is the accepted record of some pair at positions i < j of the listing. |
| Matcher.DiscoveredRecordsWellFormed | csv_analyser.py:99-131 | Every discovered record joins two different files with equal dtypes, passed the acceptance gate, and has an overlap in [0, 1]. Under the score-range assumption its confidence is in [0, 1]. |
| Matcher.DiscoverNoDup | csv_analyser.py:99-131 | When (file, column) keys are distinct, no record is discovered twice: two different pairs differ in a position, and a record carries the keys of both of its positions. |
| Matcher.AllColumnsDistinctKeys | csv_analyser.py:94-97 | Profiles with distinct file names, and distinct column names within each file, give a listing with each (file, column) key once. |
| Matcher.FindAllRelationships | csv_analyser.py:92-133 | Hashes and profiles are untouched. The new list is sorted by descending confidence and is a permutation of the held records plus the discovered ones. |
| Matcher.FindAllRelationshipsStable | csv_analyser.py:133 | Records with equal confidence keep their held-then-discovered order. |
| Matcher.FindAllRelationshipsOnce | csv_analyser.py:94-131 | Over well-formed profiles, each accepted pair contributes its record once. |
| Sorting.SortDesc | csv_analyser.py:133 | The result is sorted by non-increasing key and is a permutation of the input. |
| Sorting.SortDescStable | csv_analyser.py:133 | For every key value, the elements with that key appear in input order. |
| Queries.StrongRelationships | csv_analyser.py:149-151 | Keeps exactly the records at or above the threshold, with their multiplicities, as a subsequence of the list. |
| Queries.StrongRelationshipsIsPrefix | csv_analyser.py:133-151 | On a list sorted by descending confidence, the strong records are a prefix and every later record is below the threshold. |
| Queries.DefaultStrongScores | csv_analyser.py:118-151 | A name score of at most 100 and an overlap of at most 1 whose confidence reaches the default strong threshold 0.7 need overlap at least 0.5 and name score at least 25. |
| Queries.DefaultStrongNeedsOverlap | csv_analyser.py:149-151 | A discovered relationship whose confidence reaches the default threshold 0.7 has overlap at least 0.5 and name score at least 25, given a name score of at most 100. |
| Queries.Opposite | csv_analyser.py:157-160 | The answer for one relationship carries that relationship's confidence. |
| Queries.OppositeEndpoints | csv_analyser.py:157-160 | For a relationship that touches (file, column), the queried endpoint and the answer are exactly the relationship's two endpoints. This fixes the answer, also when both sides name the queried column, where the side-1 test wins. |
| Queries.TouchingIndices | csv_analyser.py:156-160 | The positions the loop answers for: strictly increasing, each a touching relationship, and every touching relationship's position included. |
| Queries.CollectRelated | csv_analyser.py:155-160 | The k-th answer is the other endpoint of the k-th touching relationship, in list order. Each answer occurs exactly as often as there are touching relationships yielding it, and the count equals the number of touching relationships. |
| Queries.RelatedColumns | csv_analyser.py:153-161 | The answers are sorted by descending confidence. Each answer occurs exactly as often as there are relationships touching (file, column) that yield it, so there is one triple per touching relationship. |
| Queries.RelatedColumnsStable | csv_analyser.py:161 | Answers with equal confidence keep the order of the relationships they come from. |
| Queries.RelatedColumnsSideIndependent | csv_analyser.py:157-160 | Swapping the stored sides of every relationship does not change the answer. |
| Queries.RelatedColumnsAreElsewhere | csv_analyser.py:156-160 | If no relationship joins a file to itself, every related column lies in another file. |
| Analyzer.AnalyzeAllFiles | csv_analyser.py:83-90 | A fresh analysis of exactly the hashed files stores the current hashes and profiles exactly the files that yield profiles, in listing order. Its relationship list is sorted by descending confidence and is a permutation of the discovered records. |
| Analyzer.AnalyzeAllWellFormed | csv_analyser.py:73-88 | With distinct file names and distinct headers, the stored profiles name each file once and each column of a file once. |
| Analyzer.FreshAnalysisSound | csv_analyser.py:83-133 | After a fresh analysis no record is listed twice. Every record joins two different hashed files and passed the acceptance gate. |

## Left out

- MD5 hashing and directory listing (`csv_analyser.py:17-32`) are I/O: the current hashes are a parameter of the change gate and of the full analysis.
- CSV reading is I/O and is not modelled: the 1000-row cap, dtype inference and the frame itself. A readable file is a given sequence of columns; an unreadable file is `None`.
- Exceptions are not modelled, apart from two that change the result: the zero-length-column division (no profile for that column) and an unreadable file (no profiles).
- Cell values are modelled as their text. `unique()`/`nunique()` compare raw values while the overlap compares `str` forms; values that differ raw but print the same are not distinguished.
- `str.lower()` is modelled on ASCII letters only; Unicode case mapping is left out.
- `fuzz.token_sort_ratio` is a parameter, and its 0..100 range is the assumption `Matcher.ScoreInRange`, not a proved fact.
- Float arithmetic and rounding are replaced by exact reals.
- Not modelled: loading the cached report in `load_or_analyze` (`csv_analyser.py:49-65`), JSON writing, the timestamp and printing in `save_report` (`csv_analyser.py:135-147`). Only the change gate's decision is modelled.
- Analyzer.AnalyzeAllFiles: models one full analysis on a new analyser, whose profile map and relationship list start empty. Repeated runs on one instance, which merge into the old profile map and append to the old list, are covered only by `Matcher.FindAllRelationships`, which takes an arbitrary held list.
- Profile.Uniqueness: its contract gives the range and the two extreme values. The exact value is stated in `Profile.UniquenessScales`, to keep nonlinear real arithmetic out of the function's contract.
- Matcher.OverlapRatio: likewise, its contract gives the range and the extremes, and the exact value is stated in `Matcher.OverlapRatioScales`.
- Matcher.Confidence: its range bound holds only for name scores in 0..100, hence the score-range assumption.
- Matcher.DiscoverNoDup and Matcher.FindAllRelationshipsOnce require distinct (file, column) keys. The source gets these from the keys of its nested profile dictionary; the model states them as preconditions.
