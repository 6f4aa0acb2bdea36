/**
 The per-column profile the analyser builds for every column of every file it
 reads, and the per-file and per-directory loops around it.

 A sampled column is a sequence of cells, each either missing (None) or the
 text of its value (Some). Its profile records the column's dtype tag, the
 first 20 distinct present values in the order they are met, the ratio of
 distinct present values to the column's length, and the number of missing
 cells. A column of length zero cannot be profiled (the uniqueness ratio
 divides by the length); the file's remaining columns are then abandoned.
 */
module Profile {
  import opened Common

  /** The dtype tag the CSV reader inferred for a column ("int64", "object", ...); opaque here. */
  type DType = string

  /** One sampled column: its header, its dtype tag and its cells in row order. */
  datatype ColumnData = ColumnData(name: string, dtype: DType, cells: seq<Option<string>>)

  /** The fingerprint kept for one column. */
  datatype ColumnProfile = ColumnProfile(
    name: string,
    dtype: DType,
    samples: seq<string>,
    uniqueness: real,
    nullCount: nat)

  /** The profiles of one file's columns, in column order. */
  datatype TableProfile = TableProfile(file: string, columns: seq<ColumnProfile>)

  /** How many distinct values a profile keeps as its sample. */
  const SampleLimit: nat := 20

  /** The set of values present in a column. */
  function PresentValues(cells: seq<Option<string>>): set<string> {
    set c | c in cells && c.Some? :: c.value
  }

  /**
   The distinct present values of a column in first-occurrence order
   (what `dropna().unique()` yields).
   */
  function Distinct(cells: seq<Option<string>>): (d: seq<string>)
    ensures NoDup(d)
    ensures forall v :: v in d <==> Some(v) in cells
    ensures |d| <= |cells|
  {
    if |cells| == 0 then []
    else
      var prefix := cells[..|cells| - 1];
      var seen := Distinct(prefix);
      assert cells == prefix + [cells[|cells| - 1]];
      match cells[|cells| - 1]
      case None => seen
      case Some(v) => if v in seen then seen else seen + [v]
  }

  /** Some cell holding `a` comes before every cell holding `b`. */
  ghost predicate FirstSeenBefore(cells: seq<Option<string>>, a: string, b: string) {
    exists k :: 0 <= k < |cells| && cells[k] == Some(a) && Some(b) !in cells[..k]
  }

  lemma FirstSeenBeforeExtends(cells: seq<Option<string>>, n: nat, a: string, b: string)
    requires n <= |cells|
    requires FirstSeenBefore(cells[..n], a, b)
    ensures FirstSeenBefore(cells, a, b)
  {
    var k :| 0 <= k < n && cells[..n][k] == Some(a) && Some(b) !in cells[..n][..k];
    assert cells[..n][..k] == cells[..k];
  }

  /** `Distinct` lists values in the order of their first appearance in the column. */
  lemma {:induction false} DistinctInEncounterOrder(cells: seq<Option<string>>)
    ensures forall i, j :: 0 <= i < j < |Distinct(cells)|
              ==> FirstSeenBefore(cells, Distinct(cells)[i], Distinct(cells)[j])
  {
    if |cells| > 0 {
      var n := |cells| - 1;
      var prefix := cells[..n];
      var seen := Distinct(prefix);
      var d := Distinct(cells);
      DistinctInEncounterOrder(prefix);
      assert cells == prefix + [cells[n]];
      forall i, j | 0 <= i < j < |d|
        ensures FirstSeenBefore(cells, d[i], d[j])
      {
        if j < |seen| {
          assert d[i] == seen[i] && d[j] == seen[j];
          FirstSeenBeforeExtends(cells, n, d[i], d[j]);
        } else {
          var v := cells[n].value;
          assert d == seen + [v] && v !in seen;
          assert d[i] == seen[i] && d[j] == v;
          assert Some(seen[i]) in prefix;
          var k :| 0 <= k < n && prefix[k] == Some(seen[i]);
          assert Some(v) !in prefix;
          assert cells[..k] == prefix[..k];
          assert cells[k] == Some(d[i]) && Some(d[j]) !in cells[..k];
        }
      }
    }
  }

  /** The number of distinct present values equals the length of `Distinct`. */
  lemma DistinctCountsPresentValues(cells: seq<Option<string>>)
    ensures |PresentValues(cells)| == |Distinct(cells)|
  {
    var d := Distinct(cells);
    assert PresentValues(cells) == Elems(d) by {
      forall v | v in PresentValues(cells) ensures v in Elems(d) {
        var c :| c in cells && c.Some? && c.value == v;
        assert Some(v) == c;
      }
    }
    NoDupCard(d);
  }

  lemma PresentValuesBound(cells: seq<Option<string>>)
    ensures |PresentValues(cells)| <= |cells|
  {
    DistinctCountsPresentValues(cells);
  }

  /** The sample kept in a profile: at most the first 20 distinct present values. */
  function Samples(cells: seq<Option<string>>): (s: seq<string>)
    ensures |s| <= SampleLimit
    ensures |s| == if |Distinct(cells)| < SampleLimit then |Distinct(cells)| else SampleLimit
    ensures s == Distinct(cells)[..|s|]
    ensures NoDup(s)
    ensures forall v :: v in s ==> Some(v) in cells
  {
    var d := Distinct(cells);
    if |d| <= SampleLimit then d else d[..SampleLimit]
  }

  /** Number of missing cells, counted left to right. */
  function NullCount(cells: seq<Option<string>>): (n: nat)
    ensures n == multiset(cells)[None]
    ensures n <= |cells|
  {
    if |cells| == 0 then 0
    else
      assert cells == [cells[0]] + cells[1..];
      (if cells[0].None? then 1 else 0) + NullCount(cells[1..])
  }

  /** Distinct present values per cell (`nunique() / len(column)`). */
  function Uniqueness(cells: seq<Option<string>>): (u: real)
    requires |cells| > 0
    ensures 0.0 <= u <= 1.0
    ensures u == 0.0 <==> PresentValues(cells) == {}
    ensures u == 1.0 <==> |PresentValues(cells)| == |cells|
  {
    PresentValuesBound(cells);
    RatioInUnit(|PresentValues(cells)|, |cells|);
    RatioExtremes(|PresentValues(cells)|, |cells|);
    |PresentValues(cells)| as real / |cells| as real
  }

  /** Uniqueness times the column length is the number of distinct present values. */
  lemma UniquenessScales(cells: seq<Option<string>>)
    requires |cells| > 0
    ensures Uniqueness(cells) * (|cells| as real) == |PresentValues(cells)| as real
  {
    PresentValuesBound(cells);
    RatioInUnit(|PresentValues(cells)|, |cells|);
  }

  /**
   The profile of one column, or None where the source raises
   ZeroDivisionError: a column of length zero.
   */
  function ProfileColumn(col: ColumnData): (r: Option<ColumnProfile>)
    ensures r.None? <==> |col.cells| == 0
    ensures r.Some? ==> r.value.name == col.name && r.value.dtype == col.dtype
    ensures r.Some? ==> r.value.samples == Samples(col.cells)
    ensures r.Some? ==> r.value.uniqueness == Uniqueness(col.cells) && 0.0 <= r.value.uniqueness <= 1.0
    ensures r.Some? ==> r.value.nullCount == multiset(col.cells)[None]
  {
    if |col.cells| == 0 then None
    else
      Some(ColumnProfile(col.name, col.dtype, Samples(col.cells),
                         Uniqueness(col.cells), NullCount(col.cells)))
  }

  /**
   The profiles one file contributes: columns are profiled in order and the
   first column that cannot be profiled ends the file, the columns before it
   having been recorded already.
   */
  function ProfileColumns(cols: seq<ColumnData>): (r: seq<ColumnProfile>)
    ensures |r| <= |cols|
    ensures forall k :: 0 <= k < |r| ==> ProfileColumn(cols[k]) == Some(r[k])
    ensures |r| < |cols| ==> ProfileColumn(cols[|r|]).None?
  {
    var n := ProfiledPrefix(cols);
    seq(n, k requires 0 <= k < n => ProfileColumn(cols[k]).value)
  }

  /** How many leading columns can be profiled before the first one of length zero. */
  function ProfiledPrefix(cols: seq<ColumnData>): (n: nat)
    ensures n <= |cols|
    ensures forall k :: 0 <= k < n ==> |cols[k].cells| > 0
    ensures n < |cols| ==> |cols[n].cells| == 0
  {
    if |cols| == 0 || |cols[0].cells| == 0 then 0
    else
      var rest := ProfiledPrefix(cols[1..]);
      assert forall k :: 0 < k <= rest ==> cols[k] == cols[1..][k - 1];
      1 + rest
  }

  /** All columns of a frame read by the CSV reader have the same length. */
  ghost predicate Rectangular(cols: seq<ColumnData>, rows: nat) {
    forall k :: 0 <= k < |cols| ==> |cols[k].cells| == rows
  }

  /** For a real frame the file is profiled completely or not at all. */
  lemma {:induction false} ProfileColumnsAllOrNothing(cols: seq<ColumnData>, rows: nat)
    requires Rectangular(cols, rows)
    ensures rows > 0 ==> |ProfileColumns(cols)| == |cols|
    ensures rows == 0 ==> ProfileColumns(cols) == []
  {
    if |cols| > 0 {
      assert Rectangular(cols[1..], rows);
      ProfileColumnsAllOrNothing(cols[1..], rows);
    }
  }

  /** A file as handed to the profiler: its name and its frame, or None when it could not be read. */
  datatype SourceFile = SourceFile(name: string, frame: Option<seq<ColumnData>>)

  /**
   The profiles a file contributes: an unreadable file contributes none, a
   readable one the profiles of its columns up to the first that raises.
   */
  function AnalyzeFile(f: SourceFile): (r: seq<ColumnProfile>)
    ensures f.frame.None? ==> r == []
    ensures f.frame.Some? ==> |r| <= |f.frame.value|
    ensures f.frame.Some? ==> forall k :: 0 <= k < |r| ==> ProfileColumn(f.frame.value[k]) == Some(r[k])
    ensures f.frame.Some? && |r| < |f.frame.value| ==> ProfileColumn(f.frame.value[|r|]).None?
  {
    match f.frame
    case None => []
    case Some(cols) => ProfileColumns(cols)
  }

  /** Distinct file names, as in a directory listing. */
  ghost predicate DistinctNames(files: seq<SourceFile>) {
    forall i, j :: 0 <= i < j < |files| ==> files[i].name != files[j].name
  }

  /** What analysing each file yields, one entry per file and in listing order. */
  function Attempts(files: seq<SourceFile>): (r: seq<TableProfile>)
    ensures |r| == |files|
    ensures forall k :: 0 <= k < |files| ==> r[k].file == files[k].name && r[k].columns == AnalyzeFile(files[k])
  {
    seq(|files|, k requires 0 <= k < |files| => TableProfile(files[k].name, AnalyzeFile(files[k])))
  }

  /** No file name occurs twice. */
  ghost predicate DistinctFiles(ts: seq<TableProfile>) {
    forall i, j :: 0 <= i < j < |ts| ==> ts[i].file != ts[j].file
  }

  lemma FilesAfterHead(ts: seq<TableProfile>)
    requires |ts| > 0 && DistinctFiles(ts)
    ensures DistinctFiles(ts[1..])
    ensures forall t :: t in ts[1..] ==> t.file != ts[0].file
  {
    forall t | t in ts[1..] ensures t.file != ts[0].file {
      var q :| 0 <= q < |ts[1..]| && ts[1..][q] == t;
      assert ts[q + 1] == t;
    }
  }

  /** Keeps the entries that received at least one column, in order. */
  function KeepProfiled(attempts: seq<TableProfile>): (r: seq<TableProfile>)
    requires DistinctFiles(attempts)
    ensures |r| <= |attempts|
    ensures forall t :: t in r <==> t in attempts && |t.columns| > 0
    ensures DistinctFiles(r)
    ensures IsSubsequence(r, attempts)
  {
    if |attempts| == 0 then []
    else
      var head, tail := attempts[0], attempts[1..];
      FilesAfterHead(attempts);
      var rest := KeepProfiled(tail);
      KeepStep(head, tail, rest);
      assert attempts == [head] + tail;
      if |head.columns| == 0 then rest else [head] + rest
  }

  /** One step of the filter: the head entry is kept exactly when it received a column. */
  lemma KeepStep(head: TableProfile, tail: seq<TableProfile>, rest: seq<TableProfile>)
    requires forall t :: t in tail ==> t.file != head.file
    requires forall t :: t in rest <==> t in tail && |t.columns| > 0
    requires |rest| <= |tail| && DistinctFiles(rest) && IsSubsequence(rest, tail)
    ensures var r := if |head.columns| == 0 then rest else [head] + rest;
            && |r| <= |[head] + tail|
            && (forall t :: t in r <==> t in [head] + tail && |t.columns| > 0)
            && DistinctFiles(r)
            && IsSubsequence(r, [head] + tail)
  {
    var all := [head] + tail;
    assert all[1..] == tail;
    assert forall t :: t in all <==> t == head || t in tail;
    if |head.columns| == 0 {
      assert |rest| > 0 ==> rest[0] in rest && rest[0] != head;
      SubsequenceSkip(rest, all);
    } else {
      var r := [head] + rest;
      assert forall j :: 0 < j < |r| ==> r[j] == rest[j - 1] && r[j] in rest;
      SubsequenceKeep(head, rest, tail);
    }
  }

  /**
   Profiles every file in listing order. A file that yields no profile gets
   no entry at all, as its entry is only created by its first stored column.
   */
  function AnalyzeAll(files: seq<SourceFile>): (r: seq<TableProfile>)
    requires DistinctNames(files)
    ensures |r| <= |files|
    ensures forall t :: t in r <==> t in Attempts(files) && |t.columns| > 0
    ensures forall k :: 0 <= k < |files| && |AnalyzeFile(files[k])| > 0
              ==> TableProfile(files[k].name, AnalyzeFile(files[k])) in r
    ensures forall i, j :: 0 <= i < j < |r| ==> r[i].file != r[j].file
    ensures IsSubsequence(r, Attempts(files))
  {
    var attempts := Attempts(files);
    assert forall k :: 0 <= k < |files| ==> attempts[k] == TableProfile(files[k].name, AnalyzeFile(files[k]));
    assert DistinctFiles(attempts);
    KeepProfiled(attempts)
  }
}
