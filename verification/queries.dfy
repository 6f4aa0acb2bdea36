/**
 The two read-only queries over the analyser's relationship list: the
 relationships above a confidence threshold, and the columns related to one
 given (file, column) endpoint.
 */
module Queries {
  import opened Common
  import opened Sorting
  import opened Matcher

  /** Default threshold of the strong-relationship query. */
  const DefaultMinConfidence: real := 0.7

  /** The relationships whose confidence reaches the threshold, in list order. */
  function StrongRelationships(rels: seq<Relationship>, minConfidence: real): (r: seq<Relationship>)
    ensures forall x :: x in r ==> x.confidence >= minConfidence
    ensures forall x :: multiset(r)[x] == if x.confidence >= minConfidence then multiset(rels)[x] else 0
    ensures IsSubsequence(r, rels)
  {
    if |rels| == 0 then []
    else
      var tail := StrongRelationships(rels[1..], minConfidence);
      assert multiset(rels) == multiset{rels[0]} + multiset(rels[1..]) by {
        assert rels == [rels[0]] + rels[1..];
      }
      if rels[0].confidence >= minConfidence then
        assert IsSubsequence([rels[0]] + tail, rels) by {
          assert ([rels[0]] + tail)[1..] == tail;
        }
        [rels[0]] + tail
      else
        assert IsSubsequence(tail, rels) by {
          assert |tail| > 0 ==> tail[0] in tail && tail[0] != rels[0];
        }
        tail
  }

  /**
   On a list sorted by descending confidence, as the matcher leaves it, the
   strong relationships are exactly a prefix, and everything after that
   prefix falls below the threshold.
   */
  lemma {:induction false} StrongRelationshipsIsPrefix(rels: seq<Relationship>, minConfidence: real)
    requires SortedDesc(rels, Conf)
    ensures |StrongRelationships(rels, minConfidence)| <= |rels|
    ensures StrongRelationships(rels, minConfidence) == rels[..|StrongRelationships(rels, minConfidence)|]
    ensures forall i :: |StrongRelationships(rels, minConfidence)| <= i < |rels|
              ==> rels[i].confidence < minConfidence
  {
    if |rels| > 0 {
      if rels[0].confidence >= minConfidence {
        var tail := StrongRelationships(rels[1..], minConfidence);
        assert SortedDesc(rels[1..], Conf);
        StrongRelationshipsIsPrefix(rels[1..], minConfidence);
        StrongKeepsHead(rels, minConfidence);
        PrefixStep(rels, tail, minConfidence);
      } else {
        forall i | 0 <= i < |rels| ensures rels[i].confidence < minConfidence {
          assert Conf(rels[0]) >= Conf(rels[i]);
        }
        StrongOfWeakIsEmpty(rels, minConfidence);
      }
    }
  }

  /** A strong head stays in front of the strong records of the tail. */
  lemma StrongKeepsHead(rels: seq<Relationship>, minConfidence: real)
    requires |rels| > 0 && rels[0].confidence >= minConfidence
    ensures StrongRelationships(rels, minConfidence) == [rels[0]] + StrongRelationships(rels[1..], minConfidence)
  {
  }

  /** A prefix of the tail, followed only by weak records, extends to a prefix of the whole list. */
  lemma PrefixStep(rels: seq<Relationship>, tail: seq<Relationship>, minConfidence: real)
    requires |rels| > 0 && |tail| <= |rels| - 1 && tail == rels[1..][..|tail|]
    requires forall i :: |tail| <= i < |rels| - 1 ==> rels[1..][i].confidence < minConfidence
    ensures [rels[0]] + tail == rels[..|tail| + 1]
    ensures forall i :: |tail| + 1 <= i < |rels| ==> rels[i].confidence < minConfidence
  {
    assert rels[..|tail| + 1] == [rels[0]] + rels[1..][..|tail|];
    forall i | |tail| + 1 <= i < |rels| ensures rels[i].confidence < minConfidence {
      assert rels[i] == rels[1..][i - 1];
    }
  }

  lemma {:induction false} StrongOfWeakIsEmpty(rels: seq<Relationship>, minConfidence: real)
    requires forall i :: 0 <= i < |rels| ==> rels[i].confidence < minConfidence
    ensures StrongRelationships(rels, minConfidence) == []
  {
    if |rels| > 0 {
      StrongOfWeakIsEmpty(rels[1..], minConfidence);
    }
  }

  /**
   Scores that reach the default strong threshold 0.7 through the confidence
   blend need at least half of the smaller sample shared and a name score of
   at least 25, when the name score is at most 100 and the overlap at most 1:
   a name match alone never suffices.
   */
  lemma DefaultStrongScores(nameSim: int, overlap: real)
    requires nameSim <= 100 && overlap <= 1.0
    requires Confidence(nameSim, overlap) >= DefaultMinConfidence
    ensures overlap >= 0.5
    ensures nameSim >= 25
  {
  }

  /** The same bound for every discovered relationship that the default strong query keeps. */
  lemma DefaultStrongNeedsOverlap(m: Matching, entries: seq<Entry>, x: Relationship)
    requires x in Discover(m, entries)
    requires x.nameSimilarity <= 100 && x.confidence >= DefaultMinConfidence
    ensures x.valueOverlap >= 0.5
    ensures x.nameSimilarity >= 25
  {
    DiscoveredRecordsWellFormed(m, entries, x);
    var i, j :| 0 <= i < j < |entries| && RecordOf(x, m, entries[i], entries[j])
                && entries[i].profile.dtype == entries[j].profile.dtype;
    DefaultStrongScores(x.nameSimilarity, x.valueOverlap);
  }

  /** One answer of the related-columns query: the other endpoint and the confidence. */
  datatype RelatedColumn = RelatedColumn(table: string, column: string, confidence: real)

  function RelatedConf(x: RelatedColumn): real {
    x.confidence
  }

  /** The relationship has (table, column) as one of its two endpoints. */
  predicate Touches(r: Relationship, table: string, column: string) {
    (r.table1 == table && r.column1 == column) || (r.table2 == table && r.column2 == column)
  }

  /** The endpoint of `r` across from (table, column), with `r`'s confidence; side 1 is matched first. */
  function Opposite(r: Relationship, table: string, column: string): (o: RelatedColumn)
    ensures o.confidence == r.confidence
  {
    if r.table1 == table && r.column1 == column then RelatedColumn(r.table2, r.column2, r.confidence)
    else RelatedColumn(r.table1, r.column1, r.confidence)
  }

  /**
   For a touching relationship the queried endpoint and the answer are
   exactly the relationship's two endpoints. This fixes the answer, also when
   both sides name the queried column.
   */
  lemma OppositeEndpoints(r: Relationship, table: string, column: string)
    requires Touches(r, table, column)
    ensures var o := Opposite(r, table, column);
            multiset{(table, column), (o.table, o.column)} == multiset{(r.table1, r.column1), (r.table2, r.column2)}
  {
  }

  /** Positions of the relationships that touch (table, column). */
  ghost function TouchingPositions(rels: seq<Relationship>, table: string, column: string): set<int> {
    set i | 0 <= i < |rels| && Touches(rels[i], table, column)
  }

  /**
   The positions of the relationships that touch (table, column), in
   increasing order: exactly the touching positions, each listed once.
   */
  function TouchingIndices(rels: seq<Relationship>, table: string, column: string): (idx: seq<int>)
    ensures forall k :: 0 <= k < |idx| ==> 0 <= idx[k] < |rels| && Touches(rels[idx[k]], table, column)
    ensures forall k, l :: 0 <= k < l < |idx| ==> idx[k] < idx[l]
    ensures forall i :: 0 <= i < |rels| && Touches(rels[i], table, column) ==> i in idx
  {
    if |rels| == 0 then []
    else
      var n := |rels| - 1;
      var prefix := rels[..n];
      var prev := TouchingIndices(prefix, table, column);
      assert forall i :: 0 <= i < n ==> prefix[i] == rels[i];
      if Touches(rels[n], table, column) then prev + [n] else prev
  }

  /** The positions whose touching relationship yields the answer `y`. */
  ghost function Witnesses(rels: seq<Relationship>, table: string, column: string, y: RelatedColumn): set<int> {
    set i | 0 <= i < |rels| && Touches(rels[i], table, column) && Opposite(rels[i], table, column) == y
  }

  /**
   One opposite endpoint per touching relationship, in list order: the k-th
   answer comes from the k-th touching position, and each answer occurs as
   often as there are touching relationships yielding it.
   */
  function CollectRelated(rels: seq<Relationship>, table: string, column: string): (r: seq<RelatedColumn>)
    ensures |r| == |TouchingPositions(rels, table, column)|
    ensures |r| == |TouchingIndices(rels, table, column)|
    ensures forall k :: 0 <= k < |r| ==> r[k] == Opposite(rels[TouchingIndices(rels, table, column)[k]], table, column)
    ensures forall y :: multiset(r)[y] == |Witnesses(rels, table, column, y)|
    ensures forall i :: 0 <= i < |rels| && Touches(rels[i], table, column)
              ==> Opposite(rels[i], table, column) in r
    ensures forall y :: y in r ==>
              exists i :: 0 <= i < |rels| && Touches(rels[i], table, column) && y == Opposite(rels[i], table, column)
  {
    if |rels| == 0 then []
    else
      var n := |rels| - 1;
      var prefix := rels[..n];
      var prev := CollectRelated(prefix, table, column);
      TouchingPositionsSnoc(rels, table, column);
      var r := if Touches(rels[n], table, column) then prev + [Opposite(rels[n], table, column)] else prev;
      CollectRelatedSound(rels, prefix, table, column, prev, r);
      CollectRelatedComplete(rels, prefix, table, column, prev, r);
      CollectRelatedOrderStep(rels, prefix, table, column, prev, r);
      CollectRelatedCountStep(rels, prefix, table, column, prev, r);
      r
  }

  /** Appending one relationship appends its answer, if any, at the next touching position. */
  lemma CollectRelatedOrderStep(rels: seq<Relationship>, prefix: seq<Relationship>, table: string, column: string,
                                prev: seq<RelatedColumn>, r: seq<RelatedColumn>)
    requires |rels| > 0 && prefix == rels[..|rels| - 1]
    requires |prev| == |TouchingIndices(prefix, table, column)|
    requires forall k :: 0 <= k < |prev|
               ==> prev[k] == Opposite(prefix[TouchingIndices(prefix, table, column)[k]], table, column)
    requires r == if Touches(rels[|rels| - 1], table, column)
                  then prev + [Opposite(rels[|rels| - 1], table, column)] else prev
    ensures |r| == |TouchingIndices(rels, table, column)|
    ensures forall k :: 0 <= k < |r| ==> r[k] == Opposite(rels[TouchingIndices(rels, table, column)[k]], table, column)
  {
    var n := |rels| - 1;
    var before := TouchingIndices(prefix, table, column);
    var idx := TouchingIndices(rels, table, column);
    TouchingIndicesSnoc(rels, table, column);
    forall k | 0 <= k < |r| ensures r[k] == Opposite(rels[idx[k]], table, column) {
      if k < |prev| {
        var j := before[k];
        assert idx[k] == j && r[k] == prev[k];
        assert prev[k] == Opposite(prefix[j], table, column);
        assert 0 <= j < n && prefix[j] == rels[j];
      } else {
        assert r[k] == Opposite(rels[n], table, column) && idx[k] == n;
      }
    }
  }

  lemma TouchingIndicesSnoc(rels: seq<Relationship>, table: string, column: string)
    requires |rels| > 0
    ensures TouchingIndices(rels, table, column)
         == if Touches(rels[|rels| - 1], table, column)
            then TouchingIndices(rels[..|rels| - 1], table, column) + [|rels| - 1]
            else TouchingIndices(rels[..|rels| - 1], table, column)
  {
  }

  /** Appending one relationship adds one occurrence of its answer, if any, and nothing else. */
  lemma CollectRelatedCountStep(rels: seq<Relationship>, prefix: seq<Relationship>, table: string, column: string,
                                prev: seq<RelatedColumn>, r: seq<RelatedColumn>)
    requires |rels| > 0 && prefix == rels[..|rels| - 1]
    requires forall y :: multiset(prev)[y] == |Witnesses(prefix, table, column, y)|
    requires r == if Touches(rels[|rels| - 1], table, column)
                  then prev + [Opposite(rels[|rels| - 1], table, column)] else prev
    ensures forall y :: multiset(r)[y] == |Witnesses(rels, table, column, y)|
  {
    var n := |rels| - 1;
    var x := rels[n];
    forall y ensures multiset(r)[y] == |Witnesses(rels, table, column, y)| {
      WitnessesSnoc(rels, table, column, y);
      if Touches(x, table, column) {
        assert multiset(r) == multiset(prev) + multiset{Opposite(x, table, column)};
      }
    }
  }

  lemma WitnessesSnoc(rels: seq<Relationship>, table: string, column: string, y: RelatedColumn)
    requires |rels| > 0
    ensures |Witnesses(rels, table, column, y)|
         == |Witnesses(rels[..|rels| - 1], table, column, y)|
            + (if Touches(rels[|rels| - 1], table, column) && Opposite(rels[|rels| - 1], table, column) == y then 1 else 0)
  {
    var n := |rels| - 1;
    var before := Witnesses(rels[..n], table, column, y);
    WitnessesSnocSet(rels, table, column, y);
    assert n !in before;
  }

  /** The witnesses of a list are those of its prefix plus, possibly, its last position. */
  lemma WitnessesSnocSet(rels: seq<Relationship>, table: string, column: string, y: RelatedColumn)
    requires |rels| > 0
    ensures Witnesses(rels, table, column, y)
         == Witnesses(rels[..|rels| - 1], table, column, y)
            + (if Touches(rels[|rels| - 1], table, column) && Opposite(rels[|rels| - 1], table, column) == y
               then {|rels| - 1} else {})
  {
    var n := |rels| - 1;
    var prefix := rels[..n];
    forall i | 0 <= i < n ensures prefix[i] == rels[i] {
    }
  }

  /** Every answer after one more relationship is the opposite endpoint of a touching relationship. */
  lemma CollectRelatedSound(rels: seq<Relationship>, prefix: seq<Relationship>, table: string, column: string,
                            prev: seq<RelatedColumn>, r: seq<RelatedColumn>)
    requires |rels| > 0 && prefix == rels[..|rels| - 1]
    requires forall y :: y in prev ==>
               exists i :: 0 <= i < |prefix| && Touches(prefix[i], table, column) && y == Opposite(prefix[i], table, column)
    requires r == if Touches(rels[|rels| - 1], table, column)
                  then prev + [Opposite(rels[|rels| - 1], table, column)] else prev
    ensures forall y :: y in r ==>
              exists i :: 0 <= i < |rels| && Touches(rels[i], table, column) && y == Opposite(rels[i], table, column)
  {
    var n := |rels| - 1;
    forall y | y in r
      ensures exists i :: 0 <= i < |rels| && Touches(rels[i], table, column) && y == Opposite(rels[i], table, column)
    {
      if y in prev {
        var i :| 0 <= i < |prefix| && Touches(prefix[i], table, column) && y == Opposite(prefix[i], table, column);
        assert prefix[i] == rels[i];
      } else {
        assert Touches(rels[n], table, column) && y == Opposite(rels[n], table, column);
      }
    }
  }

  /** After one more relationship, every touching relationship has its opposite endpoint listed. */
  lemma CollectRelatedComplete(rels: seq<Relationship>, prefix: seq<Relationship>, table: string, column: string,
                               prev: seq<RelatedColumn>, r: seq<RelatedColumn>)
    requires |rels| > 0 && prefix == rels[..|rels| - 1]
    requires forall i :: 0 <= i < |prefix| && Touches(prefix[i], table, column)
               ==> Opposite(prefix[i], table, column) in prev
    requires r == if Touches(rels[|rels| - 1], table, column)
                  then prev + [Opposite(rels[|rels| - 1], table, column)] else prev
    ensures forall i :: 0 <= i < |rels| && Touches(rels[i], table, column) ==> Opposite(rels[i], table, column) in r
  {
    var n := |rels| - 1;
    forall i | 0 <= i < |rels| && Touches(rels[i], table, column) ensures Opposite(rels[i], table, column) in r {
      if i < n {
        assert prefix[i] == rels[i];
      }
    }
  }

  lemma TouchingPositionsSnoc(rels: seq<Relationship>, table: string, column: string)
    requires |rels| > 0
    ensures |TouchingPositions(rels, table, column)|
         == |TouchingPositions(rels[..|rels| - 1], table, column)|
            + (if Touches(rels[|rels| - 1], table, column) then 1 else 0)
  {
    var n := |rels| - 1;
    var prefix := rels[..n];
    var before := TouchingPositions(prefix, table, column);
    assert forall i :: 0 <= i < n ==> prefix[i] == rels[i];
    if Touches(rels[n], table, column) {
      assert TouchingPositions(rels, table, column) == before + {n};
    } else {
      assert TouchingPositions(rels, table, column) == before;
    }
  }

  /**
   The columns related to (table, column): one triple per relationship that
   has it as an endpoint, naming the other endpoint, sorted by descending
   confidence with ties in list order.
   */
  function RelatedColumns(rels: seq<Relationship>, table: string, column: string): (r: seq<RelatedColumn>)
    ensures SortedDesc(r, RelatedConf)
    ensures |r| == |TouchingPositions(rels, table, column)|
    ensures forall y :: multiset(r)[y] == |Witnesses(rels, table, column, y)|
    ensures forall i :: 0 <= i < |rels| && Touches(rels[i], table, column)
              ==> Opposite(rels[i], table, column) in r
    ensures forall y :: y in r ==>
              exists i :: 0 <= i < |rels| && Touches(rels[i], table, column) && y == Opposite(rels[i], table, column)
  {
    var found := CollectRelated(rels, table, column);
    var r := SortDesc(found, RelatedConf);
    assert forall y :: y in r <==> y in found by {
      forall y ensures y in r <==> y in found {
        assert y in r <==> y in multiset(r);
        assert y in found <==> y in multiset(found);
      }
    }
    r
  }

  /** Ties in the related-columns answer keep the order of the relationship list. */
  lemma RelatedColumnsStable(rels: seq<Relationship>, table: string, column: string, c: real)
    ensures KeyClass(RelatedColumns(rels, table, column), RelatedConf, c)
         == KeyClass(CollectRelated(rels, table, column), RelatedConf, c)
  {
    SortDescStable(CollectRelated(rels, table, column), RelatedConf, c);
  }

  /** The same relationship stored with its two sides exchanged. */
  function Swap(r: Relationship): Relationship {
    r.(table1 := r.table2, column1 := r.column2, table2 := r.table1, column2 := r.column1,
       table1Uniqueness := r.table2Uniqueness, table2Uniqueness := r.table1Uniqueness)
  }

  function SwapAll(rels: seq<Relationship>): (r: seq<Relationship>)
    ensures |r| == |rels|
    ensures forall i :: 0 <= i < |rels| ==> r[i] == Swap(rels[i])
  {
    seq(|rels|, i requires 0 <= i < |rels| => Swap(rels[i]))
  }

  /**
   Which side of a relationship an endpoint is stored on does not change the
   related-columns answer.
   */
  lemma {:induction false} RelatedColumnsSideIndependent(rels: seq<Relationship>, table: string, column: string)
    ensures RelatedColumns(SwapAll(rels), table, column) == RelatedColumns(rels, table, column)
  {
    CollectRelatedSideIndependent(rels, table, column);
  }

  lemma {:induction false} CollectRelatedSideIndependent(rels: seq<Relationship>, table: string, column: string)
    ensures CollectRelated(SwapAll(rels), table, column) == CollectRelated(rels, table, column)
  {
    if |rels| > 0 {
      var n := |rels| - 1;
      assert SwapAll(rels)[..n] == SwapAll(rels[..n]);
      CollectRelatedSideIndependent(rels[..n], table, column);
      var x := rels[n];
      assert SwapAll(rels)[n] == Swap(x);
      assert Touches(Swap(x), table, column) == Touches(x, table, column);
      assert Touches(x, table, column) ==> Opposite(Swap(x), table, column) == Opposite(x, table, column);
    }
  }

  /**
   Over relationships that never join a file to itself, as the matcher
   emits them, every related column lies in another file.
   */
  lemma RelatedColumnsAreElsewhere(rels: seq<Relationship>, table: string, column: string)
    requires forall x :: x in rels ==> x.table1 != x.table2
    ensures forall y :: y in RelatedColumns(rels, table, column) ==> y.table != table
  {
    var answers := RelatedColumns(rels, table, column);
    forall y | y in answers ensures y.table != table {
      var i :| 0 <= i < |rels| && Touches(rels[i], table, column) && y == Opposite(rels[i], table, column);
      OppositeIsElsewhere(rels[i], table, column);
    }
  }

  /** The far endpoint of a relationship between two files is never in the near endpoint's file. */
  lemma OppositeIsElsewhere(x: Relationship, table: string, column: string)
    requires Touches(x, table, column) && x.table1 != x.table2
    ensures Opposite(x, table, column).table != table
  {
  }
}
