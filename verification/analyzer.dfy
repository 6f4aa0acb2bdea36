/**
 A fresh analysis of a directory: record the current content hashes, profile
 every listed file, then discover and rank the relationships between the
 profiled columns. This composes the profiler and the matcher as the
 analyser's full-analysis entry point does on a new analyser instance.
 */
module Analyzer {
  import opened Common
  import opened Sorting
  import opened Profile
  import opened Matcher
  import ChangeGate

  /**
   The files handed to the profiler are exactly the hashed files: the
   analyser profiles the keys of its fresh hash map, which come from the
   same directory listing.
   */
  ghost predicate ListedFiles(current: ChangeGate.Hashes, files: seq<SourceFile>) {
    forall n :: n in current <==> exists k :: 0 <= k < |files| && files[k].name == n
  }

  /** Every readable file has pairwise different column headers, as a CSV reader's frame does. */
  ghost predicate UniqueHeaders(files: seq<SourceFile>) {
    forall f, i, j :: f in files && f.frame.Some? && 0 <= i < j < |f.frame.value|
      ==> f.frame.value[i].name != f.frame.value[j].name
  }

  /**
   The state after a full analysis on an analyser that held nothing yet:
   the current hashes, the profiles of the listed files, and every
   discovered relationship in descending confidence order.
   */
  function AnalyzeAllFiles(current: ChangeGate.Hashes, files: seq<SourceFile>, m: Matching): (r: Analysis)
    requires DistinctNames(files) && ListedFiles(current, files)
    ensures r.fileHashes == current
    ensures forall t :: t in r.profiles <==> t in Attempts(files) && |t.columns| > 0
    ensures IsSubsequence(r.profiles, Attempts(files))
    ensures SortedDesc(r.relationships, Conf)
    ensures multiset(r.relationships) == multiset(Discover(m, AllColumns(r.profiles)))
    ensures forall x :: x in r.relationships <==> x in Discover(m, AllColumns(r.profiles))
  {
    var tables := AnalyzeAll(files);
    var found := Discover(m, AllColumns(tables));
    var r := FindAllRelationships(Analysis(current, tables, []), m);
    assert r.profiles == tables;
    assert multiset(r.relationships) == multiset(found) by {
      assert [] + found == found;
    }
    SameElems(r.relationships, found);
    r
  }

  /** Profiling keeps column headers, so distinct headers stay distinct. */
  lemma ProfileColumnsKeepNames(cols: seq<ColumnData>)
    requires forall i, j :: 0 <= i < j < |cols| ==> cols[i].name != cols[j].name
    ensures forall i, j :: 0 <= i < j < |ProfileColumns(cols)|
              ==> ProfileColumns(cols)[i].name != ProfileColumns(cols)[j].name
  {
    var r := ProfileColumns(cols);
    forall i, j | 0 <= i < j < |r| ensures r[i].name != r[j].name {
      assert ProfileColumn(cols[i]) == Some(r[i]) && ProfileColumn(cols[j]) == Some(r[j]);
    }
  }

  /** The profiles of a directory name every file once and every column of a file once. */
  lemma AnalyzeAllWellFormed(files: seq<SourceFile>)
    requires DistinctNames(files) && UniqueHeaders(files)
    ensures WellFormedTables(AnalyzeAll(files))
    ensures forall t :: t in AnalyzeAll(files) ==> exists k :: 0 <= k < |files| && t.file == files[k].name
  {
    var tables := AnalyzeAll(files);
    var attempts := Attempts(files);
    forall t | t in tables
      ensures exists k :: 0 <= k < |files| && t.file == files[k].name
      ensures forall i, j :: 0 <= i < j < |t.columns| ==> t.columns[i].name != t.columns[j].name
    {
      var k :| 0 <= k < |attempts| && attempts[k] == t;
      var f := files[k];
      assert f in files;
      match f.frame
      case None =>
      case Some(cols) =>
        ProfileColumnsKeepNames(cols);
    }
  }

  /**
   A fresh analysis lists each relationship once, and each one joins two
   different hashed files and has passed the acceptance gate.
   */
  lemma FreshAnalysisSound(current: ChangeGate.Hashes, files: seq<SourceFile>, m: Matching)
    requires DistinctNames(files) && UniqueHeaders(files) && ListedFiles(current, files)
    ensures NoDup(AnalyzeAllFiles(current, files, m).relationships)
    ensures forall x :: x in AnalyzeAllFiles(current, files, m).relationships ==>
              && x.table1 != x.table2
              && x.table1 in current && x.table2 in current
              && Accepted(m, x.nameSimilarity, x.valueOverlap)
  {
    var tables := AnalyzeAll(files);
    var entries := AllColumns(tables);
    var r := AnalyzeAllFiles(current, files, m);
    AnalyzeAllWellFormed(files);
    FindAllRelationshipsOnce(Analysis(current, tables, []), m);
    assert [] + Discover(m, entries) == Discover(m, entries);
    NoDupPermutation(r.relationships, Discover(m, entries));
    DiscoveredFilesHashed(current, files, m);
  }

  /** Every record of a fresh analysis joins two different hashed files and passed the gate. */
  lemma DiscoveredFilesHashed(current: ChangeGate.Hashes, files: seq<SourceFile>, m: Matching)
    requires DistinctNames(files) && UniqueHeaders(files) && ListedFiles(current, files)
    ensures forall x :: x in Discover(m, AllColumns(AnalyzeAll(files))) ==>
              && x.table1 != x.table2
              && x.table1 in current && x.table2 in current
              && Accepted(m, x.nameSimilarity, x.valueOverlap)
  {
    var tables := AnalyzeAll(files);
    var entries := AllColumns(tables);
    AnalyzeAllWellFormed(files);
    forall x | x in Discover(m, entries)
      ensures x.table1 != x.table2 && x.table1 in current && x.table2 in current
      ensures Accepted(m, x.nameSimilarity, x.valueOverlap)
    {
      DiscoveredRecordsWellFormed(m, entries, x);
      var i, j :| 0 <= i < j < |entries| && RecordOf(x, m, entries[i], entries[j])
                  && entries[i].profile.dtype == entries[j].profile.dtype;
      EntryFileHashed(current, files, tables, entries[i]);
      EntryFileHashed(current, files, tables, entries[j]);
    }
  }

  /** A listed entry belongs to a profiled file, and so to a hashed one. */
  lemma EntryFileHashed(current: ChangeGate.Hashes, files: seq<SourceFile>, tables: seq<TableProfile>, e: Entry)
    requires ListedFiles(current, files)
    requires forall t :: t in tables ==> exists k :: 0 <= k < |files| && t.file == files[k].name
    requires e in AllColumns(tables)
    ensures e.file in current
  {
    AllColumnsMembers(tables);
    var t :| t in tables && e.file == t.file && e.profile in t.columns;
    var k :| 0 <= k < |files| && t.file == files[k].name;
  }
}
