/**
 Property records and the category filter behind the listing tabs.

 A record keeps what the filter and the card links look at (its identifier
 and its category, the `type` column) plus the remaining columns as an
 opaque map of display text. The filter keeps the records whose category,
 lower-cased, equals the lower-cased tab, in their original order; the
 sentinel tab "All Properties", compared exactly, keeps every record.
 */
module Catalog {
  import Ascii

  /** One row of the `properties` table. `kind` is the row's `type` column. */
  datatype Property = Property(id: int, kind: string, details: map<string, string>)

  /** The tab that shows every loaded record. */
  const AllTab: string := "All Properties"

  /** Whether record `p` belongs to the category named by `tab`, ignoring case. */
  predicate Matches(p: Property, tab: string) {
    Ascii.SameIgnoringCase(p.kind, tab)
  }

  /** The records of `ps` that match `tab`, in their order in `ps`. */
  function KeepMatching(ps: seq<Property>, tab: string): (r: seq<Property>)
    ensures |r| <= |ps|
    ensures forall k :: 0 <= k < |r| ==> Matches(r[k], tab)
    decreases |ps|
  {
    if |ps| == 0 then []
    else
      var last := ps[|ps| - 1];
      KeepMatching(ps[..|ps| - 1], tab) + (if Matches(last, tab) then [last] else [])
  }

  /** The records shown under `tab`: all of them for the sentinel, only matching ones otherwise. */
  function Visible(ps: seq<Property>, tab: string): (r: seq<Property>)
    ensures |r| <= |ps|
    ensures tab == AllTab ==> r == ps
    ensures tab != AllTab ==> forall k :: 0 <= k < |r| ==> Matches(r[k], tab)
  {
    if tab == AllTab then ps else KeepMatching(ps, tab)
  }

  // ---------------------------------------------------------------------
  // An independent description of "the records of ps picked out by a predicate":
  // positions of ps, strictly increasing, that the result reads in order.

  /** `idx` lists strictly increasing positions of `ps` whose records, in order, are `r`. */
  ghost predicate Embedding<T>(r: seq<T>, ps: seq<T>, idx: seq<int>) {
    && |idx| == |r|
    && (forall k :: 0 <= k < |idx| ==> 0 <= idx[k] < |ps| && r[k] == ps[idx[k]])
    && (forall k, l :: 0 <= k < l < |idx| ==> idx[k] < idx[l])
  }

  /** `r` is `ps` with some records dropped and the rest kept in order. */
  ghost predicate IsSubsequence<T>(r: seq<T>, ps: seq<T>) {
    exists idx :: Embedding(r, ps, idx)
  }

  /** `idx` holds exactly the positions of `ps` whose record matches `tab`. */
  ghost predicate ExactlyMatching(ps: seq<Property>, tab: string, idx: seq<int>) {
    forall i :: 0 <= i < |ps| ==> (Matches(ps[i], tab) <==> i in idx)
  }

  /** `r` consists of exactly the records of `ps` matching `tab`, in their original order. */
  ghost predicate IsFilterOf(r: seq<Property>, ps: seq<Property>, tab: string) {
    exists idx :: Embedding(r, ps, idx) && ExactlyMatching(ps, tab, idx)
  }

  /** The positions `KeepMatching` reads from. */
  function MatchIndices(ps: seq<Property>, tab: string): (idx: seq<int>)
    ensures forall k :: 0 <= k < |idx| ==> 0 <= idx[k] < |ps|
    decreases |ps|
  {
    if |ps| == 0 then []
    else
      var n := |ps| - 1;
      MatchIndices(ps[..n], tab) + (if Matches(ps[n], tab) then [n] else [])
  }

  /** `KeepMatching` meets the description: it reads exactly the matching positions, in order. */
  lemma {:induction false} KeepMatchingEmbedding(ps: seq<Property>, tab: string)
    ensures Embedding(KeepMatching(ps, tab), ps, MatchIndices(ps, tab))
    ensures ExactlyMatching(ps, tab, MatchIndices(ps, tab))
    decreases |ps|
  {
    if |ps| > 0 {
      var n := |ps| - 1;
      var pre := ps[..n];
      KeepMatchingEmbedding(pre, tab);
      var r0, i0 := KeepMatching(pre, tab), MatchIndices(pre, tab);
      var r, idx := KeepMatching(ps, tab), MatchIndices(ps, tab);
      assert r == r0 + (if Matches(ps[n], tab) then [ps[n]] else []);
      assert idx == i0 + (if Matches(ps[n], tab) then [n] else []);
      forall k | 0 <= k < |idx|
        ensures 0 <= idx[k] < |ps| && r[k] == ps[idx[k]]
      {
        if k < |i0| {
          assert idx[k] == i0[k] && r[k] == r0[k];
          assert pre[i0[k]] == ps[i0[k]];
        }
      }
      forall i | 0 <= i < |ps|
        ensures Matches(ps[i], tab) <==> i in idx
      {
        if i < n {
          assert pre[i] == ps[i];
          assert i in idx <==> i in i0;
        }
      }
    }
  }

  /** `KeepMatching(ps, tab)` satisfies the filter description. */
  lemma KeepMatchingIsFilter(ps: seq<Property>, tab: string)
    ensures IsFilterOf(KeepMatching(ps, tab), ps, tab)
  {
    KeepMatchingEmbedding(ps, tab);
  }

  /** Dropping the last position of `ps`, when the embedding ends there, drops the last record of `r`. */
  lemma EmbeddingDropLast<T>(r: seq<T>, ps: seq<T>, idx: seq<int>)
    requires Embedding(r, ps, idx)
    requires |idx| > 0 && idx[|idx| - 1] == |ps| - 1
    ensures Embedding(r[..|r| - 1], ps[..|ps| - 1], idx[..|idx| - 1])
    ensures r == r[..|r| - 1] + [ps[|ps| - 1]]
  {
    var m := |idx| - 1;
    forall k | 0 <= k < m
      ensures idx[k] < |ps| - 1
    {
      assert idx[k] < idx[m];
    }
  }

  /** An embedding that avoids the last position of `ps` is an embedding into the rest. */
  lemma EmbeddingAvoidsLast<T>(r: seq<T>, ps: seq<T>, idx: seq<int>)
    requires Embedding(r, ps, idx)
    requires |ps| > 0 && |ps| - 1 !in idx
    ensures Embedding(r, ps[..|ps| - 1], idx)
  {
    forall k | 0 <= k < |idx|
      ensures idx[k] < |ps| - 1
    {
      assert idx[k] != |ps| - 1;
    }
  }

  /** The matching positions of a prefix of `ps` are the matching positions of `ps` below its length. */
  lemma ExactlyMatchingPrefix(ps: seq<Property>, tab: string, idx: seq<int>)
    requires |ps| > 0 && ExactlyMatching(ps, tab, idx)
    ensures ExactlyMatching(ps[..|ps| - 1], tab, idx)
  {
    var pre := ps[..|ps| - 1];
    forall i | 0 <= i < |pre|
      ensures Matches(pre[i], tab) <==> i in idx
    {
      assert pre[i] == ps[i];
    }
  }

  /** Removing the last listed position, when it is the last position of `ps`, keeps the description of the rest. */
  lemma ExactlyMatchingDropLast(ps: seq<Property>, tab: string, idx: seq<int>)
    requires |ps| > 0 && ExactlyMatching(ps[..|ps| - 1], tab, idx)
    requires |idx| > 0 && idx[|idx| - 1] == |ps| - 1
    ensures ExactlyMatching(ps[..|ps| - 1], tab, idx[..|idx| - 1])
  {
    var pre, m := ps[..|ps| - 1], |idx| - 1;
    forall i | 0 <= i < |pre|
      ensures i in idx <==> i in idx[..m]
    {
      if i in idx {
        var k :| 0 <= k < |idx| && idx[k] == i;
        assert k != m && idx[..m][k] == i;
      }
    }
  }

  /** The filter description admits one sequence only: the result of `KeepMatching`. */
  lemma {:induction false} FilterDescriptionUnique(r: seq<Property>, ps: seq<Property>, tab: string, idx: seq<int>)
    requires Embedding(r, ps, idx)
    requires ExactlyMatching(ps, tab, idx)
    ensures r == KeepMatching(ps, tab)
    decreases |ps|
  {
    if |ps| == 0 {
      assert |idx| == 0;
    } else {
      var n := |ps| - 1;
      ExactlyMatchingPrefix(ps, tab, idx);
      if Matches(ps[n], tab) {
        assert n in idx;
        var j :| 0 <= j < |idx| && idx[j] == n;
        assert idx[j] <= idx[|idx| - 1] < |ps|;
        EmbeddingDropLast(r, ps, idx);
        ExactlyMatchingDropLast(ps, tab, idx);
        FilterDescriptionUnique(r[..|r| - 1], ps[..n], tab, idx[..|idx| - 1]);
      } else {
        assert n !in idx;
        EmbeddingAvoidsLast(r, ps, idx);
        FilterDescriptionUnique(r, ps[..n], tab, idx);
      }
    }
  }

  /** A sequence is the tab's filter result exactly when it meets the filter description. */
  lemma KeepMatchingCharacterised(r: seq<Property>, ps: seq<Property>, tab: string)
    ensures r == KeepMatching(ps, tab) <==> IsFilterOf(r, ps, tab)
  {
    KeepMatchingIsFilter(ps, tab);
    if IsFilterOf(r, ps, tab) {
      var idx :| Embedding(r, ps, idx) && ExactlyMatching(ps, tab, idx);
      FilterDescriptionUnique(r, ps, tab, idx);
    }
  }

  /** Filtering a filtered list by the same tab changes nothing. */
  lemma {:induction false} KeepMatchingIdempotent(ps: seq<Property>, tab: string)
    ensures KeepMatching(KeepMatching(ps, tab), tab) == KeepMatching(ps, tab)
    decreases |ps|
  {
    if |ps| > 0 {
      var n := |ps| - 1;
      var r0 := KeepMatching(ps[..n], tab);
      KeepMatchingIdempotent(ps[..n], tab);
      if Matches(ps[n], tab) {
        var r := r0 + [ps[n]];
        assert r[..|r| - 1] == r0 && r[|r| - 1] == ps[n];
        assert KeepMatching(r, tab) == KeepMatching(r0, tab) + [ps[n]];
      } else {
        assert KeepMatching(ps, tab) == r0;
      }
    }
  }

  /** Tabs that are equal up to case select the same records. */
  lemma {:induction false} KeepMatchingIgnoresCase(ps: seq<Property>, t1: string, t2: string)
    requires Ascii.SameIgnoringCase(t1, t2)
    ensures KeepMatching(ps, t1) == KeepMatching(ps, t2)
    decreases |ps|
  {
    if |ps| > 0 {
      KeepMatchingIgnoresCase(ps[..|ps| - 1], t1, t2);
      assert Matches(ps[|ps| - 1], t1) == Matches(ps[|ps| - 1], t2);
    }
  }

  /** The filter reads only the lower-cased tab: filtering by it or by its lower-cased form is the same. */
  lemma KeepMatchingByLoweredTab(ps: seq<Property>, tab: string)
    ensures KeepMatching(ps, Ascii.Lower(tab)) == KeepMatching(ps, tab)
  {
    Ascii.LowerSameIgnoringCase(tab);
    KeepMatchingIgnoresCase(ps, tab, Ascii.Lower(tab));
  }

  // ---------------------------------------------------------------------
  // The tab's visible list.

  /** Under the sentinel tab every record is visible, unchanged and in order. */
  lemma VisibleAll(ps: seq<Property>)
    ensures Visible(ps, AllTab) == ps
  {
  }

  /** Under any other tab the visible list is exactly the matching records, in order. */
  lemma VisibleOtherTab(ps: seq<Property>, tab: string, r: seq<Property>)
    requires tab != AllTab
    ensures r == Visible(ps, tab) <==> IsFilterOf(r, ps, tab)
  {
    KeepMatchingCharacterised(r, ps, tab);
  }

  /** The visible list is always a subsequence of the loaded list, and never longer. */
  lemma VisibleSubsequence(ps: seq<Property>, tab: string)
    ensures IsSubsequence(Visible(ps, tab), ps)
    ensures |Visible(ps, tab)| <= |ps|
  {
    if tab == AllTab {
      var idx := seq(|ps|, i requires 0 <= i < |ps| => i);
      assert Embedding(ps, ps, idx);
    } else {
      KeepMatchingEmbedding(ps, tab);
    }
  }

  /** Applying a tab to the list it already produced gives that list again. */
  lemma VisibleIdempotent(ps: seq<Property>, tab: string)
    ensures Visible(Visible(ps, tab), tab) == Visible(ps, tab)
  {
    if tab != AllTab {
      KeepMatchingIdempotent(ps, tab);
    }
  }

  /**
   The sentinel is compared exactly: a tab that differs from it only in case
   goes through the category filter, so it can hide records the sentinel shows.
   */
  lemma SentinelIsCaseSensitive()
    ensures "all properties" != AllTab
    ensures Ascii.SameIgnoringCase("all properties", AllTab)
    ensures var villa := Property(1, "Villa", map[]);
            Visible([villa], "all properties") == [] && Visible([villa], AllTab) == [villa]
  {
    var villa := Property(1, "Villa", map[]);
    assert "all properties"[0] != AllTab[0];
    assert Ascii.Lower("Villa")[0] == 'v';
    assert !Matches(villa, "all properties");
    assert [villa][..0] == [];
  }
}
