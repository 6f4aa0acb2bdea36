/**
 The relationship matcher: every pair of profiled columns, taken in listing
 order, goes through a file gate, a dtype gate and an acceptance gate (name
 similarity or sample overlap), and each accepted pair becomes a scored
 relationship record. The records are then stably sorted by descending
 confidence together with any records already held.
 */
module Matcher {
  import opened Common
  import opened Profile
  import opened Sorting

  /** One (file, column) entry in the listing that the matcher pairs up. */
  datatype Entry = Entry(file: string, profile: ColumnProfile)

  /** A relationship record, with the fields the source stores for it. */
  datatype Relationship = Relationship(
    table1: string,
    column1: string,
    table2: string,
    column2: string,
    confidence: real,
    nameSimilarity: int,
    valueOverlap: real,
    dtype: DType,
    table1Uniqueness: real,
    table2Uniqueness: real)

  /** The sort key of relationships. */
  function Conf(r: Relationship): real {
    r.confidence
  }

  /**
   The matcher's parameters. `tokenSortRatio` stands for the foreign
   fuzzy-matching call applied to two lower-cased column names; nothing is
   known about it except what `ScoreInRange` assumes.
   */
  datatype Matching = Matching(
    tokenSortRatio: (string, string) -> int,
    minNameSimilarity: int,
    minValueOverlap: real)

  const DefaultMinNameSimilarity: int := 60
  const DefaultMinValueOverlap: real := 0.1

  /**
   ASSUMPTION, not proved: the fuzzy name score lies in 0..100. It is the
   documented range of the foreign scorer and is taken as a precondition
   wherever a bound on confidence is claimed.
   */
  ghost predicate ScoreInRange(m: Matching) {
    forall a, b :: 0 <= m.tokenSortRatio(a, b) <= 100
  }

  /** The number of columns of a sequence of files. */
  function ColumnCount(tables: seq<TableProfile>): nat {
    if |tables| == 0 then 0 else |tables[0].columns| + ColumnCount(tables[1..])
  }

  /**
   The listing of all (file, column) entries: files in order, each file's
   columns in order. File t's entries form the block that starts after the
   columns of the files before t, so the listing is fixed block by block.
   */
  function AllColumns(tables: seq<TableProfile>): (r: seq<Entry>)
    ensures |r| == ColumnCount(tables)
    ensures forall t :: 0 <= t < |tables| ==>
              && ColumnCount(tables[..t]) + |tables[t].columns| <= |r|
              && r[ColumnCount(tables[..t])..ColumnCount(tables[..t]) + |tables[t].columns|]
                 == TableEntries(tables[t])
  {
    if |tables| == 0 then []
    else
      var own := TableEntries(tables[0]);
      var rest := AllColumns(tables[1..]);
      ListingShift(tables, tables[1..], own, rest);
      own + rest
  }

  /** An entry is listed exactly when its profile belongs to its file. */
  lemma {:induction false} AllColumnsMembers(tables: seq<TableProfile>)
    ensures forall e :: e in AllColumns(tables) <==>
              exists t :: t in tables && e.file == t.file && e.profile in t.columns
  {
    if |tables| > 0 {
      AllColumnsMembers(tables[1..]);
      ListingMembers(tables, tables[1..], TableEntries(tables[0]), AllColumns(tables[1..]));
    }
  }

  /** The first file's entries followed by the other files' entries list every file's entries. */
  lemma ListingMembers(tables: seq<TableProfile>, later: seq<TableProfile>, own: seq<Entry>, rest: seq<Entry>)
    requires |tables| > 0 && later == tables[1..]
    requires forall e :: e in own <==> e.file == tables[0].file && e.profile in tables[0].columns
    requires forall e :: e in rest <==> exists t :: t in later && e.file == t.file && e.profile in t.columns
    ensures forall e :: e in own + rest <==> exists t :: t in tables && e.file == t.file && e.profile in t.columns
  {
    assert forall t :: t in tables <==> t == tables[0] || t in later by {
      assert tables == [tables[0]] + later;
    }
  }

  /** The first file's entries followed by the block listing of the other files is a block listing. */
  lemma ListingShift(tables: seq<TableProfile>, later: seq<TableProfile>, own: seq<Entry>, rest: seq<Entry>)
    requires |tables| > 0 && later == tables[1..] && own == TableEntries(tables[0])
    requires forall t :: 0 <= t < |later| ==>
               && ColumnCount(later[..t]) + |later[t].columns| <= |rest|
               && rest[ColumnCount(later[..t])..ColumnCount(later[..t]) + |later[t].columns|]
                  == TableEntries(later[t])
    ensures forall t :: 0 <= t < |tables| ==>
              && ColumnCount(tables[..t]) + |tables[t].columns| <= |own + rest|
              && (own + rest)[ColumnCount(tables[..t])..ColumnCount(tables[..t]) + |tables[t].columns|]
                 == TableEntries(tables[t])
  {
    forall t | 0 <= t < |tables|
      ensures && ColumnCount(tables[..t]) + |tables[t].columns| <= |own + rest|
              && (own + rest)[ColumnCount(tables[..t])..ColumnCount(tables[..t]) + |tables[t].columns|]
                 == TableEntries(tables[t])
    {
      if t == 0 {
        assert tables[..t] == [];
        assert (own + rest)[..|own|] == own;
      } else {
        assert tables[..t][0] == tables[0] && tables[..t][1..] == later[..t - 1];
        assert later[t - 1] == tables[t];
        var lo, len := ColumnCount(later[..t - 1]), |tables[t].columns|;
        assert ColumnCount(tables[..t]) == |own| + lo;
        assert lo + len <= |rest| && rest[lo..lo + len] == TableEntries(tables[t]);
        assert (own + rest)[|own| + lo..|own| + lo + len] == rest[lo..lo + len];
      }
    }
  }

  /** The entries of one file, in column order. */
  function TableEntries(t: TableProfile): (r: seq<Entry>)
    ensures |r| == |t.columns|
    ensures forall k :: 0 <= k < |r| ==> r[k] == Entry(t.file, t.columns[k])
    ensures forall e :: e in r <==> e.file == t.file && e.profile in t.columns
  {
    var r := seq(|t.columns|, i requires 0 <= i < |t.columns| => Entry(t.file, t.columns[i]));
    assert forall e :: e in r <==> e.file == t.file && e.profile in t.columns by {
      forall e: Entry | e.file == t.file && e.profile in t.columns ensures e in r {
        var i :| 0 <= i < |t.columns| && t.columns[i] == e.profile;
        assert r[i] == e;
      }
    }
    r
  }

  /** Name similarity of two column names, compared lower-cased. */
  function NameSimilarity(m: Matching, name1: string, name2: string): (r: int)
    ensures ScoreInRange(m) ==> 0 <= r <= 100
  {
    m.tokenSortRatio(Lower(name1), Lower(name2))
  }

  /** Case alone never changes the score: lower-casing the names first gives the same score. */
  lemma NameSimilarityIgnoresCase(m: Matching, name1: string, name2: string)
    ensures NameSimilarity(m, Lower(name1), Lower(name2)) == NameSimilarity(m, name1, name2)
  {
    LowerIdempotent(name1);
    LowerIdempotent(name2);
  }

  /** Smallest set cardinality of two. */
  function MinCard<T>(a: set<T>, b: set<T>): nat {
    if |a| <= |b| then |a| else |b|
  }

  lemma SubsetCard<T>(a: set<T>, b: set<T>)
    requires a <= b
    ensures |a| <= |b|
    ensures |a| == |b| ==> a == b
  {
    if a != b {
      var x :| x in b && x !in a;
      assert a <= b - {x};
      SubsetCard(a, b - {x});
    }
  }

  lemma DisjointIffNoShared<T>(a: set<T>, b: set<T>)
    ensures a !! b <==> |a * b| == 0
  {
    if |a * b| != 0 {
      var x :| x in a * b;
      assert x in a && x in b;
    } else {
      assert a * b == {};
      forall x | x in a ensures x !in b {
        assert x !in a * b;
      }
    }
  }

  /** The shared part fills the smaller set exactly when one set contains the other. */
  lemma FullOverlap<T>(a: set<T>, b: set<T>)
    ensures |a * b| == MinCard(a, b) <==> (a <= b || b <= a)
  {
    SubsetCard(a * b, a);
    SubsetCard(a * b, b);
    if a <= b {
      assert a * b == a;
      SubsetCard(a, b);
    } else if b <= a {
      assert a * b == b;
      SubsetCard(b, a);
    }
  }

  /**
   Share of the smaller sample set that the two sample sets have in common;
   zero when either sample is empty.
   */
  function OverlapRatio(s1: seq<string>, s2: seq<string>): (r: real)
    ensures 0.0 <= r <= 1.0
    ensures r == 0.0 <==> Elems(s1) !! Elems(s2)
    ensures r == 1.0 <==> Elems(s1) != {} && Elems(s2) != {}
                          && (Elems(s1) <= Elems(s2) || Elems(s2) <= Elems(s1))
  {
    var a := Elems(s1);
    var b := Elems(s2);
    var shared := a * b;
    var m := MinCard(a, b);
    SubsetCard(shared, a);
    SubsetCard(shared, b);
    if m > 0 then
      DisjointIffNoShared(a, b);
      FullOverlap(a, b);
      RatioInUnit(|shared|, m);
      RatioExtremes(|shared|, m);
      |shared| as real / m as real
    else
      assert a == {} || b == {};
      0.0
  }

  /**
   With both samples non-empty, the overlap ratio times the smaller sample
   set's size is the number of shared sample values.
   */
  lemma OverlapRatioScales(s1: seq<string>, s2: seq<string>)
    requires Elems(s1) != {} && Elems(s2) != {}
    ensures MinCard(Elems(s1), Elems(s2)) > 0
    ensures OverlapRatio(s1, s2) * (MinCard(Elems(s1), Elems(s2)) as real)
         == |Elems(s1) * Elems(s2)| as real
  {
    var a := Elems(s1);
    var b := Elems(s2);
    SubsetCard(a * b, a);
    SubsetCard(a * b, b);
    RatioInUnit(|a * b|, MinCard(a, b));
  }

  /** The overlap ratio does not depend on which side is listed first. */
  lemma OverlapRatioSymmetric(s1: seq<string>, s2: seq<string>)
    ensures OverlapRatio(s1, s2) == OverlapRatio(s2, s1)
  {
    assert Elems(s1) * Elems(s2) == Elems(s2) * Elems(s1);
  }

  /**
   Weighted blend of name similarity (a 0..100 score, weight 0.4) and
   overlap ratio (a 0..1 share, weight 0.6), scaled back to [0, 1].
   */
  function Confidence(nameSim: int, overlap: real): (r: real)
    ensures 0 <= nameSim <= 100 && 0.0 <= overlap <= 1.0 ==> 0.0 <= r <= 1.0
    ensures overlap == 0.0 ==> r * 250.0 == nameSim as real
    ensures nameSim == 0 ==> r == 0.6 * overlap
    ensures nameSim == 100 && overlap == 0.0 ==> r == 0.4
  {
    (nameSim as real * 0.4 + overlap * 100.0 * 0.6) / 100.0
  }

  /** The acceptance gate: a similar enough name or a large enough shared sample; either alone suffices. */
  predicate Accepted(m: Matching, nameSim: int, overlap: real): (b: bool)
    ensures nameSim >= m.minNameSimilarity ==> b
    ensures overlap >= m.minValueOverlap ==> b
    ensures b ==> nameSim >= m.minNameSimilarity || overlap >= m.minValueOverlap
  {
    nameSim >= m.minNameSimilarity || overlap >= m.minValueOverlap
  }

  /** A higher name score or a larger overlap never turns an accepted pair away. */
  lemma AcceptedMonotone(m: Matching, nameSim: int, overlap: real, nameSim': int, overlap': real)
    requires nameSim <= nameSim' && overlap <= overlap'
    requires Accepted(m, nameSim, overlap)
    ensures Accepted(m, nameSim', overlap')
  {
  }

  /** `r` is the record of the pair (e1, e2), with e1 on side 1. */
  ghost predicate RecordOf(r: Relationship, m: Matching, e1: Entry, e2: Entry) {
    && r.table1 == e1.file && r.column1 == e1.profile.name
    && r.table2 == e2.file && r.column2 == e2.profile.name
    && r.dtype == e1.profile.dtype && r.dtype == e2.profile.dtype
    && r.nameSimilarity == NameSimilarity(m, e1.profile.name, e2.profile.name)
    && r.valueOverlap == OverlapRatio(e1.profile.samples, e2.profile.samples)
    && r.confidence == Confidence(r.nameSimilarity, r.valueOverlap)
    && r.table1Uniqueness == e1.profile.uniqueness
    && r.table2Uniqueness == e2.profile.uniqueness
  }

  /** The outcome for one pair: a record when all three gates pass, nothing otherwise. */
  function Candidate(m: Matching, e1: Entry, e2: Entry): (r: Option<Relationship>)
    ensures r.Some? <==>
              && e1.file != e2.file
              && e1.profile.dtype == e2.profile.dtype
              && Accepted(m, NameSimilarity(m, e1.profile.name, e2.profile.name),
                          OverlapRatio(e1.profile.samples, e2.profile.samples))
    ensures r.Some? ==> RecordOf(r.value, m, e1, e2)
  {
    if e1.file == e2.file then None
    else if e1.profile.dtype != e2.profile.dtype then None
    else
      var nameSim := NameSimilarity(m, e1.profile.name, e2.profile.name);
      var overlap := OverlapRatio(e1.profile.samples, e2.profile.samples);
      if Accepted(m, nameSim, overlap) then
        Some(Relationship(
          e1.file, e1.profile.name, e2.file, e2.profile.name,
          Confidence(nameSim, overlap), nameSim, overlap, e1.profile.dtype,
          e1.profile.uniqueness, e2.profile.uniqueness))
      else None
  }

  /** Combinations order on position pairs: by the first position, then by the second. */
  predicate PairBefore(p: (int, int), q: (int, int)) {
    p.0 < q.0 || (p.0 == q.0 && p.1 < q.1)
  }

  /** Positions p.0 < p.1 of the listing whose entries pass all three gates. */
  ghost predicate AcceptedPair(m: Matching, entries: seq<Entry>, p: (int, int)) {
    0 <= p.0 < p.1 < |entries| && Candidate(m, entries[p.0], entries[p.1]).Some?
  }

  /** The pair at positions p.0 < p.1 of the listing yields the record `x`. */
  ghost predicate PairYields(m: Matching, entries: seq<Entry>, p: (int, int), x: Relationship) {
    0 <= p.0 < p.1 < |entries| && Candidate(m, entries[p.0], entries[p.1]) == Some(x)
  }

  /** The accepted pairs (i, b) with j <= b, in increasing b. */
  function RowPairs(m: Matching, entries: seq<Entry>, i: nat, j: nat): (ps: seq<(int, int)>)
    requires i < j <= |entries|
    ensures forall k :: 0 <= k < |ps| ==> ps[k].0 == i && j <= ps[k].1 && AcceptedPair(m, entries, ps[k])
    ensures forall k, l :: 0 <= k < l < |ps| ==> ps[k].1 < ps[l].1
    ensures forall b :: j <= b < |entries| && Candidate(m, entries[i], entries[b]).Some? ==> (i, b) in ps
    decreases |entries| - j
  {
    if j == |entries| then []
    else
      var rest := RowPairs(m, entries, i, j + 1);
      if Candidate(m, entries[i], entries[j]).Some? then
        RowKeep(m, entries, i, j, rest);
        RowKeepComplete(m, entries, i, j, rest);
        [(i, j)] + rest
      else
        assert forall b :: j <= b < |entries| && Candidate(m, entries[i], entries[b]).Some? ==> j + 1 <= b;
        rest
  }

  /** An accepted pair (i, j) in front of the row's accepted pairs after j gives the row from j. */
  lemma RowKeep(m: Matching, entries: seq<Entry>, i: nat, j: nat, rest: seq<(int, int)>)
    requires i < j < |entries| && Candidate(m, entries[i], entries[j]).Some?
    requires forall k :: 0 <= k < |rest| ==> rest[k].0 == i && j + 1 <= rest[k].1 && AcceptedPair(m, entries, rest[k])
    requires forall k, l :: 0 <= k < l < |rest| ==> rest[k].1 < rest[l].1
    ensures forall k :: 0 <= k < |[(i, j)] + rest| ==>
              && ([(i, j)] + rest)[k].0 == i && j <= ([(i, j)] + rest)[k].1
              && AcceptedPair(m, entries, ([(i, j)] + rest)[k])
    ensures forall k, l :: 0 <= k < l < |[(i, j)] + rest| ==> ([(i, j)] + rest)[k].1 < ([(i, j)] + rest)[l].1
  {
    var ps := [(i, j)] + rest;
    assert AcceptedPair(m, entries, (i, j));
    forall k | 0 <= k < |ps| ensures ps[k].0 == i && j <= ps[k].1 && AcceptedPair(m, entries, ps[k]) {
      if k > 0 {
        assert ps[k] == rest[k - 1];
      }
    }
    forall k, l | 0 <= k < l < |ps| ensures ps[k].1 < ps[l].1 {
      assert ps[l] == rest[l - 1];
      if k > 0 {
        assert ps[k] == rest[k - 1];
      }
    }
  }

  /** Every accepted partner from j on is in the row once (i, j) is put in front of the partners after j. */
  lemma RowKeepComplete(m: Matching, entries: seq<Entry>, i: nat, j: nat, rest: seq<(int, int)>)
    requires i < j < |entries|
    requires forall b :: j + 1 <= b < |entries| && Candidate(m, entries[i], entries[b]).Some? ==> (i, b) in rest
    ensures forall b :: j <= b < |entries| && Candidate(m, entries[i], entries[b]).Some? ==> (i, b) in [(i, j)] + rest
  {
  }

  /** The accepted pairs whose first position is at least i, in combinations order. */
  function PairsFrom(m: Matching, entries: seq<Entry>, i: nat): (ps: seq<(int, int)>)
    requires i <= |entries|
    ensures forall k :: 0 <= k < |ps| ==> i <= ps[k].0 && AcceptedPair(m, entries, ps[k])
    ensures forall k, l :: 0 <= k < l < |ps| ==> PairBefore(ps[k], ps[l])
    ensures forall a, b :: i <= a < b < |entries| && Candidate(m, entries[a], entries[b]).Some? ==> (a, b) in ps
    decreases |entries| - i
  {
    if i == |entries| then []
    else
      var row := RowPairs(m, entries, i, i + 1);
      var rest := PairsFrom(m, entries, i + 1);
      PairsAppend(row, rest, i);
      row + rest
  }

  /** A row of first position i followed by pairs whose first position is later stays in combinations order. */
  lemma PairsAppend(row: seq<(int, int)>, rest: seq<(int, int)>, i: int)
    requires forall k :: 0 <= k < |row| ==> row[k].0 == i
    requires forall k, l :: 0 <= k < l < |row| ==> row[k].1 < row[l].1
    requires forall k :: 0 <= k < |rest| ==> i < rest[k].0
    requires forall k, l :: 0 <= k < l < |rest| ==> PairBefore(rest[k], rest[l])
    ensures forall k, l :: 0 <= k < l < |row + rest| ==> PairBefore((row + rest)[k], (row + rest)[l])
  {
    var s := row + rest;
    forall k, l | 0 <= k < l < |s| ensures PairBefore(s[k], s[l]) {
      if l < |row| {
        assert s[k] == row[k] && s[l] == row[l];
      } else if k < |row| {
        assert s[k] == row[k] && s[l] == rest[l - |row|];
      } else {
        assert s[k] == rest[k - |row|] && s[l] == rest[l - |row|];
      }
    }
  }

  /**
   Every accepted pair of positions i < j of the listing, in the order
   `itertools.combinations` yields the pairs: by i, then by j. The three
   clauses fix the sequence: it is the accepted pairs, each once, sorted.
   */
  function AcceptedPairs(m: Matching, entries: seq<Entry>): (ps: seq<(int, int)>)
    ensures forall k :: 0 <= k < |ps| ==> AcceptedPair(m, entries, ps[k])
    ensures forall k, l :: 0 <= k < l < |ps| ==> PairBefore(ps[k], ps[l])
    ensures forall a, b :: 0 <= a < b < |entries| && Candidate(m, entries[a], entries[b]).Some? ==> (a, b) in ps
  {
    PairsFrom(m, entries, 0)
  }

  /** The records of the pairs (i, b) with j <= b, in increasing b: the inner loop over partners. */
  function RowRecords(m: Matching, entries: seq<Entry>, i: nat, j: nat): (r: seq<Relationship>)
    requires i < j <= |entries|
    ensures |r| == |RowPairs(m, entries, i, j)|
    ensures forall k :: 0 <= k < |r| ==> PairYields(m, entries, RowPairs(m, entries, i, j)[k], r[k])
    decreases |entries| - j
  {
    if j == |entries| then []
    else
      var rest := RowRecords(m, entries, i, j + 1);
      match Candidate(m, entries[i], entries[j])
      case None => rest
      case Some(x) =>
        assert PairYields(m, entries, (i, j), x);
        YieldsAppend(m, entries, [x], [(i, j)], rest, RowPairs(m, entries, i, j + 1));
        [x] + rest
  }

  /** The records of the pairs whose first position is at least i, in combinations order. */
  function DiscoverFrom(m: Matching, entries: seq<Entry>, i: nat): (r: seq<Relationship>)
    requires i <= |entries|
    ensures |r| == |PairsFrom(m, entries, i)|
    ensures forall k :: 0 <= k < |r| ==> PairYields(m, entries, PairsFrom(m, entries, i)[k], r[k])
    decreases |entries| - i
  {
    if i == |entries| then []
    else
      var row := RowRecords(m, entries, i, i + 1);
      var rest := DiscoverFrom(m, entries, i + 1);
      YieldsAppend(m, entries, row, RowPairs(m, entries, i, i + 1), rest, PairsFrom(m, entries, i + 1));
      row + rest
  }

  /** Records matched position by position to pairs stay matched after appending. */
  lemma YieldsAppend(m: Matching, entries: seq<Entry>, r1: seq<Relationship>, p1: seq<(int, int)>,
                     r2: seq<Relationship>, p2: seq<(int, int)>)
    requires |r1| == |p1| && |r2| == |p2|
    requires forall k :: 0 <= k < |r1| ==> PairYields(m, entries, p1[k], r1[k])
    requires forall k :: 0 <= k < |r2| ==> PairYields(m, entries, p2[k], r2[k])
    ensures forall k :: 0 <= k < |r1 + r2| ==> PairYields(m, entries, (p1 + p2)[k], (r1 + r2)[k])
  {
    forall k | 0 <= k < |r1 + r2| ensures PairYields(m, entries, (p1 + p2)[k], (r1 + r2)[k]) {
      if k < |r1| {
        assert (p1 + p2)[k] == p1[k] && (r1 + r2)[k] == r1[k];
      } else {
        assert (p1 + p2)[k] == p2[k - |r1|] && (r1 + r2)[k] == r2[k - |r1|];
      }
    }
  }

  /**
   The records of all pairs (E[i], E[j]) with i < j that pass the gates, in
   the order `itertools.combinations` yields the pairs: the k-th record is
   the one of the k-th accepted pair.
   */
  function Discover(m: Matching, entries: seq<Entry>): (r: seq<Relationship>)
    ensures |r| == |AcceptedPairs(m, entries)|
    ensures forall k :: 0 <= k < |r| ==> PairYields(m, entries, AcceptedPairs(m, entries)[k], r[k])
    ensures forall x :: x in r <==>
              exists i, j :: 0 <= i < j < |entries| && Candidate(m, entries[i], entries[j]) == Some(x)
  {
    var r := DiscoverFrom(m, entries, 0);
    DiscoverMembers(m, entries, AcceptedPairs(m, entries), r);
    r
  }

  /** Records matched to a complete list of accepted pairs are exactly the accepted records. */
  lemma DiscoverMembers(m: Matching, entries: seq<Entry>, ps: seq<(int, int)>, r: seq<Relationship>)
    requires |r| == |ps|
    requires forall a, b :: 0 <= a < b < |entries| && Candidate(m, entries[a], entries[b]).Some? ==> (a, b) in ps
    requires forall k :: 0 <= k < |r| ==> PairYields(m, entries, ps[k], r[k])
    ensures forall x :: x in r <==>
              exists i, j :: 0 <= i < j < |entries| && Candidate(m, entries[i], entries[j]) == Some(x)
  {
    forall x | x in r
      ensures exists i, j :: 0 <= i < j < |entries| && Candidate(m, entries[i], entries[j]) == Some(x)
    {
      var k :| 0 <= k < |r| && r[k] == x;
      assert PairYields(m, entries, ps[k], x);
    }
    forall x, i, j | 0 <= i < j < |entries| && Candidate(m, entries[i], entries[j]) == Some(x)
      ensures x in r
    {
      var k :| 0 <= k < |ps| && ps[k] == (i, j);
      assert PairYields(m, entries, ps[k], r[k]);
    }
  }

  /**
   Every discovered record joins two different files, carries the dtype
   both of its columns share, and has passed the acceptance gate; its
   overlap lies in [0, 1] and, under the score-range assumption, so does
   its confidence.
   */
  lemma DiscoveredRecordsWellFormed(m: Matching, entries: seq<Entry>, x: Relationship)
    requires x in Discover(m, entries)
    ensures x.table1 != x.table2
    ensures exists i, j :: 0 <= i < j < |entries| && RecordOf(x, m, entries[i], entries[j])
                           && entries[i].profile.dtype == entries[j].profile.dtype
    ensures Accepted(m, x.nameSimilarity, x.valueOverlap)
    ensures 0.0 <= x.valueOverlap <= 1.0
    ensures ScoreInRange(m) ==> 0.0 <= x.confidence <= 1.0
  {
    var i, j :| 0 <= i < j < |entries| && Candidate(m, entries[i], entries[j]) == Some(x);
    assert RecordOf(x, m, entries[i], entries[j]);
  }

  /** The (file, column) key of an entry. */
  function Key(e: Entry): (string, string) {
    (e.file, e.profile.name)
  }

  /** No two entries name the same column of the same file. */
  ghost predicate DistinctKeys(entries: seq<Entry>) {
    forall i, j :: 0 <= i < j < |entries| ==> Key(entries[i]) != Key(entries[j])
  }

  /**
   With distinct keys no record is discovered twice: two different position
   pairs differ in one position, and the record carries both positions' keys.
   */
  lemma DiscoverNoDup(m: Matching, entries: seq<Entry>)
    requires DistinctKeys(entries)
    ensures NoDup(Discover(m, entries))
  {
    var r := Discover(m, entries);
    var ps := AcceptedPairs(m, entries);
    forall k, l | 0 <= k < l < |r| ensures r[k] != r[l] {
      var p, q := ps[k], ps[l];
      assert PairBefore(p, q);
      assert PairYields(m, entries, p, r[k]) && PairYields(m, entries, q, r[l]);
      assert RecordOf(r[k], m, entries[p.0], entries[p.1]);
      assert RecordOf(r[l], m, entries[q.0], entries[q.1]);
      if p.0 < q.0 {
        assert Key(entries[p.0]) != Key(entries[q.0]);
      } else {
        assert Key(entries[p.1]) != Key(entries[q.1]);
      }
    }
  }

  /**
   With the default thresholds, a cross-file, same-dtype pair whose samples
   share nothing is kept exactly when its lower-cased names score at least
   60; a perfect name score then gives confidence 0.4.
   */
  lemma DefaultNameOnlyMatch(tokenSortRatio: (string, string) -> int, e1: Entry, e2: Entry)
    requires e1.file != e2.file && e1.profile.dtype == e2.profile.dtype
    requires Elems(e1.profile.samples) !! Elems(e2.profile.samples)
    ensures var m := Matching(tokenSortRatio, DefaultMinNameSimilarity, DefaultMinValueOverlap);
            Candidate(m, e1, e2).Some?
            <==> tokenSortRatio(Lower(e1.profile.name), Lower(e2.profile.name)) >= DefaultMinNameSimilarity
    ensures var m := Matching(tokenSortRatio, DefaultMinNameSimilarity, DefaultMinValueOverlap);
            tokenSortRatio(Lower(e1.profile.name), Lower(e2.profile.name)) == 100
            ==> Candidate(m, e1, e2).Some? && Candidate(m, e1, e2).value.confidence == 0.4
  {
    assert OverlapRatio(e1.profile.samples, e2.profile.samples) == 0.0;
  }

  /** The analyser's state: cached hashes, column profiles, relationship list. */
  datatype Analysis = Analysis(
    fileHashes: map<string, string>,
    profiles: seq<TableProfile>,
    relationships: seq<Relationship>)

  /**
   Appends the records of every accepted pair to the relationships already
   held, then stably sorts the whole list by descending confidence. The
   hashes and profiles are left as they are.
   */
  function FindAllRelationships(a: Analysis, m: Matching): (r: Analysis)
    ensures r.fileHashes == a.fileHashes && r.profiles == a.profiles
    ensures SortedDesc(r.relationships, Conf)
    ensures multiset(r.relationships)
         == multiset(a.relationships) + multiset(Discover(m, AllColumns(a.profiles)))
  {
    var found := Discover(m, AllColumns(a.profiles));
    Analysis(a.fileHashes, a.profiles, SortDesc(a.relationships + found, Conf))
  }

  /**
   Ties keep discovery order: for each confidence value, the records that
   carry it appear in the held-then-discovered order.
   */
  lemma FindAllRelationshipsStable(a: Analysis, m: Matching, c: real)
    ensures KeyClass(FindAllRelationships(a, m).relationships, Conf, c)
         == KeyClass(a.relationships + Discover(m, AllColumns(a.profiles)), Conf, c)
  {
    SortDescStable(a.relationships + Discover(m, AllColumns(a.profiles)), Conf, c);
  }

  /** Distinct file names, and distinct column names within each file. */
  ghost predicate WellFormedTables(tables: seq<TableProfile>) {
    && (forall i, j :: 0 <= i < j < |tables| ==> tables[i].file != tables[j].file)
    && (forall t, i, j :: t in tables && 0 <= i < j < |t.columns| ==> t.columns[i].name != t.columns[j].name)
  }

  lemma DistinctKeysAppend(a: seq<Entry>, b: seq<Entry>)
    requires DistinctKeys(a) && DistinctKeys(b)
    requires forall x, y :: x in a && y in b ==> Key(x) != Key(y)
    ensures DistinctKeys(a + b)
  {
    forall i, j | 0 <= i < j < |a + b| ensures Key((a + b)[i]) != Key((a + b)[j]) {
      if j < |a| {
        assert (a + b)[i] == a[i] && (a + b)[j] == a[j];
      } else if i < |a| {
        assert (a + b)[i] == a[i] && (a + b)[j] == b[j - |a|];
        assert a[i] in a && b[j - |a|] in b;
      } else {
        assert (a + b)[i] == b[i - |a|] && (a + b)[j] == b[j - |a|];
      }
    }
  }

  /** A well-formed profile set lists every (file, column) key once. */
  lemma {:induction false} AllColumnsDistinctKeys(tables: seq<TableProfile>)
    requires WellFormedTables(tables)
    ensures DistinctKeys(AllColumns(tables))
  {
    if |tables| > 0 {
      var t := tables[0];
      var own := TableEntries(t);
      var rest := AllColumns(tables[1..]);
      assert WellFormedTables(tables[1..]);
      AllColumnsDistinctKeys(tables[1..]);
      AllColumnsMembers(tables[1..]);
      assert DistinctKeys(own) by {
        assert t in tables;
      }
      forall x, y | x in own && y in rest ensures Key(x) != Key(y) {
        var t' :| t' in tables[1..] && y.file == t'.file && y.profile in t'.columns;
        var q :| 0 <= q < |tables[1..]| && tables[1..][q] == t';
        assert tables[q + 1] == t';
      }
      DistinctKeysAppend(own, rest);
    }
  }

  /**
   Over the profiles of a well-formed analysis, each accepted pair of
   entries contributes its record exactly once to the sorted list.
   */
  lemma FindAllRelationshipsOnce(a: Analysis, m: Matching)
    requires WellFormedTables(a.profiles)
    ensures NoDup(Discover(m, AllColumns(a.profiles)))
  {
    AllColumnsDistinctKeys(a.profiles);
    DiscoverNoDup(m, AllColumns(a.profiles));
  }
}
