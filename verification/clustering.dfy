/** `find_best_distances` of scanner.py: sort the readings, split them
    into clusters wherever two neighbours are more than `tolerance` apart,
    and report the mean of the first longest cluster. */
module Clustering {
  import opened Sorting

  /** The default `tolerance` of `fill_distance_matrix` and
      `find_best_distances`. */
  const DefaultTolerance: real := 0.1

  function Abs(x: real): real {
    if x < 0.0 then -x else x
  }

  function Last<T>(s: seq<T>): T
    requires |s| > 0
  {
    s[|s| - 1]
  }

  function Flatten(cs: seq<seq<real>>): seq<real> {
    if |cs| == 0 then [] else Flatten(cs[..|cs| - 1]) + Last(cs)
  }

  /** The single clustering pass: each reading joins the current cluster
      when it is within `tol` of that cluster's last reading and starts a
      new cluster otherwise. No reading is lost or reordered, and the
      last cluster ends with the last reading. */
  function Clusters(s: seq<real>, tol: real): (cs: seq<seq<real>>)
    requires |s| > 0
    ensures |cs| > 0
    ensures forall i :: 0 <= i < |cs| ==> |cs[i]| > 0
    ensures Flatten(cs) == s
    ensures Last(Last(cs)) == Last(s)
    decreases |s|
  {
    if |s| == 1 then
      assert Flatten([[s[0]]]) == Flatten([]) + [s[0]];
      [[s[0]]]
    else
      var prev := Clusters(s[..|s| - 1], tol);
      var x := Last(s);
      var init := prev[..|prev| - 1];
      assert prev == init + [Last(prev)];
      assert Flatten(prev) == Flatten(init) + Last(prev);
      assert s == s[..|s| - 1] + [x];
      if Abs(x - Last(Last(prev))) <= tol then
        var cs := init + [Last(prev) + [x]];
        assert cs[..|cs| - 1] == init;
        cs
      else
        var cs := prev + [[x]];
        assert cs[..|cs| - 1] == prev;
        cs
  }

  /** Neighbours `c[j - 1]` and `c[j]` are at most `tol` apart. */
  predicate CloseAt(c: seq<real>, j: nat, tol: real)
    requires 0 < j < |c|
  {
    Abs(c[j] - c[j - 1]) <= tol
  }

  /** Cluster `cs[i]` starts more than `tol` away from where `cs[i - 1]` ends. */
  predicate BreakAt(cs: seq<seq<real>>, i: nat, tol: real)
    requires 0 < i < |cs| && |cs[i]| > 0 && |cs[i - 1]| > 0
  {
    Abs(cs[i][0] - Last(cs[i - 1])) > tol
  }

  ghost predicate Tight(c: seq<real>, tol: real) {
    |c| > 0 && forall j :: 0 < j < |c| ==> CloseAt(c, j, tol)
  }

  /** The independent description of a clustering of `s`: the clusters
      concatenate to `s`, none is empty, neighbours inside a cluster are
      at most `tol` apart, and each cluster starts more than `tol` away
      from the end of the one before it. */
  ghost predicate IsClustering(cs: seq<seq<real>>, s: seq<real>, tol: real) {
    && Flatten(cs) == s
    && (forall i :: 0 <= i < |cs| ==> Tight(cs[i], tol))
    && (forall i :: 0 < i < |cs| ==> BreakAt(cs, i, tol))
  }

  lemma TightExtend(c: seq<real>, x: real, tol: real)
    requires Tight(c, tol) && Abs(x - Last(c)) <= tol
    ensures Tight(c + [x], tol)
  {
    var c' := c + [x];
    forall j | 0 < j < |c'| ensures CloseAt(c', j, tol) {
      if j < |c| {
        assert CloseAt(c, j, tol);
      }
    }
  }

  lemma TightShrink(c: seq<real>, tol: real)
    requires Tight(c, tol) && |c| > 1
    ensures Tight(c[..|c| - 1], tol)
    ensures CloseAt(c, |c| - 1, tol)
  {
    var c' := c[..|c| - 1];
    forall j | 0 < j < |c'| ensures CloseAt(c', j, tol) {
      assert CloseAt(c, j, tol);
    }
  }

  /** The single clustering pass produces a clustering in the sense of IsClustering. */
  lemma {:induction false} ClustersSplitAtGaps(s: seq<real>, tol: real)
    requires |s| > 0
    ensures IsClustering(Clusters(s, tol), s, tol)
    decreases |s|
  {
    var cs := Clusters(s, tol);
    if |s| == 1 {
      assert cs == [[s[0]]];
      assert Tight(cs[0], tol);
    } else {
      var prev := Clusters(s[..|s| - 1], tol);
      ClustersSplitAtGaps(s[..|s| - 1], tol);
      var x := Last(s);
      var init := prev[..|prev| - 1];
      if Abs(x - Last(Last(prev))) <= tol {
        assert cs == init + [Last(prev) + [x]];
        assert Tight(Last(prev), tol);
        TightExtend(Last(prev), x, tol);
        forall i | 0 <= i < |cs| ensures Tight(cs[i], tol) {
          if i < |cs| - 1 {
            assert cs[i] == prev[i];
          }
        }
        forall i | 0 < i < |cs| ensures BreakAt(cs, i, tol) {
          assert BreakAt(prev, i, tol);
          assert cs[i - 1] == prev[i - 1];
          assert cs[i][0] == prev[i][0];
        }
      } else {
        assert cs == prev + [[x]];
        forall i | 0 <= i < |cs| ensures Tight(cs[i], tol) {
          if i < |cs| - 1 {
            assert cs[i] == prev[i];
          } else {
            assert cs[i] == [x];
          }
        }
        forall i | 0 < i < |cs| ensures BreakAt(cs, i, tol) {
          assert cs[i - 1] == prev[i - 1];
          if i < |cs| - 1 {
            assert BreakAt(prev, i, tol);
            assert cs[i] == prev[i];
          }
        }
      }
    }
  }

  lemma FlattenSnoc(init: seq<seq<real>>, l: seq<real>)
    ensures Flatten(init + [l]) == Flatten(init) + l
  {
    assert (init + [l])[..|init|] == init;
  }

  /** Removing the last reading of a clustering whose last cluster has
      more than one reading. */
  lemma DropFromLastCluster(cs: seq<seq<real>>, s: seq<real>, tol: real)
    requires |s| > 1 && IsClustering(cs, s, tol) && |cs| > 0 && |Last(cs)| > 1
    ensures IsClustering(cs[..|cs| - 1] + [Last(cs)[..|Last(cs)| - 1]], s[..|s| - 1], tol)
    ensures Abs(Last(s) - s[|s| - 2]) <= tol
  {
    var init := cs[..|cs| - 1];
    var l := Last(cs);
    assert cs == init + [l];
    FlattenSnoc(init, l);
    var l' := l[..|l| - 1];
    var cs' := init + [l'];
    FlattenSnoc(init, l');
    assert l == l' + [Last(l)];
    assert s[..|s| - 1] == Flatten(init) + l';
    assert s[|s| - 2] == l[|l| - 2];
    assert Tight(l, tol);
    TightShrink(l, tol);
    forall i | 0 <= i < |cs'| ensures Tight(cs'[i], tol) {
      if i < |cs'| - 1 {
        assert cs'[i] == cs[i];
      }
    }
    forall i | 0 < i < |cs'| ensures BreakAt(cs', i, tol) {
      assert BreakAt(cs, i, tol);
      assert cs'[i - 1] == cs[i - 1];
      assert cs'[i][0] == cs[i][0];
    }
  }

  /** Removing the last reading of a clustering whose last cluster is that
      reading alone. */
  lemma DropLastCluster(cs: seq<seq<real>>, s: seq<real>, tol: real)
    requires |s| > 1 && IsClustering(cs, s, tol) && |cs| > 0 && |Last(cs)| == 1
    ensures |cs| > 1 && IsClustering(cs[..|cs| - 1], s[..|s| - 1], tol)
    ensures Abs(Last(s) - s[|s| - 2]) > tol
  {
    var init := cs[..|cs| - 1];
    var l := Last(cs);
    assert cs == init + [l];
    FlattenSnoc(init, l);
    assert |init| > 0;
    assert init == init[..|init| - 1] + [Last(init)];
    FlattenSnoc(init[..|init| - 1], Last(init));
    assert s[..|s| - 1] == Flatten(init);
    assert Tight(Last(init), tol);
    assert s[|s| - 2] == Last(Last(init));
    assert BreakAt(cs, |cs| - 1, tol);
    forall i | 0 <= i < |init| ensures Tight(init[i], tol) {
      assert init[i] == cs[i];
    }
    forall i | 0 < i < |init| ensures BreakAt(init, i, tol) {
      assert BreakAt(cs, i, tol);
      assert init[i] == cs[i] && init[i - 1] == cs[i - 1];
    }
  }

  lemma NonEmptyClustering(cs: seq<seq<real>>, s: seq<real>, tol: real)
    requires |s| > 0 && IsClustering(cs, s, tol)
    ensures |cs| > 0 && |Last(cs)| > 0 && Last(Last(cs)) == Last(s)
  {
    assert |cs| > 0;
    var init := cs[..|cs| - 1];
    assert cs == init + [Last(cs)];
    FlattenSnoc(init, Last(cs));
    assert Tight(Last(cs), tol);
  }

  lemma ClusteringOfOne(cs: seq<seq<real>>, s: seq<real>, tol: real)
    requires |s| == 1 && IsClustering(cs, s, tol)
    ensures cs == [s]
  {
    NonEmptyClustering(cs, s, tol);
    var init := cs[..|cs| - 1];
    var l := Last(cs);
    assert cs == init + [l];
    FlattenSnoc(init, l);
    assert init == [];
    assert Flatten(init) == [];
    assert l == Flatten(init) + l == s;
  }

  /** The step of the clustering pass that appends a close reading to the current cluster. */
  lemma JoinStep(cs: seq<seq<real>>, s: seq<real>, tol: real)
    requires |s| > 1 && |cs| > 0 && |Last(cs)| > 1 && Last(Last(cs)) == Last(s)
    requires cs[..|cs| - 1] + [Last(cs)[..|Last(cs)| - 1]] == Clusters(s[..|s| - 1], tol)
    requires Abs(Last(s) - s[|s| - 2]) <= tol
    ensures cs == Clusters(s, tol)
  {
    var prev := Clusters(s[..|s| - 1], tol);
    var l := Last(cs);
    assert Last(Last(prev)) == s[|s| - 2];
    assert prev[..|prev| - 1] == cs[..|cs| - 1];
    assert l == l[..|l| - 1] + [Last(s)];
    assert cs == cs[..|cs| - 1] + [l];
  }

  /** The step of the clustering pass that opens a new cluster after a gap. */
  lemma BreakStep(cs: seq<seq<real>>, s: seq<real>, tol: real)
    requires |s| > 1 && |cs| > 1 && Last(cs) == [Last(s)]
    requires cs[..|cs| - 1] == Clusters(s[..|s| - 1], tol)
    requires Abs(Last(s) - s[|s| - 2]) > tol
    ensures cs == Clusters(s, tol)
  {
    var prev := Clusters(s[..|s| - 1], tol);
    assert Last(Last(prev)) == s[|s| - 2];
    assert cs == prev + [[Last(s)]];
  }

  /** There is only one clustering of `s` for a given tolerance: the one
      clustering pass builds. */
  lemma {:induction false} ClusteringUnique(cs: seq<seq<real>>, s: seq<real>, tol: real)
    requires |s| > 0 && IsClustering(cs, s, tol)
    ensures cs == Clusters(s, tol)
    decreases |s|
  {
    NonEmptyClustering(cs, s, tol);
    if |s| == 1 {
      ClusteringOfOne(cs, s, tol);
      assert s == [s[0]];
    } else if |Last(cs)| > 1 {
      DropFromLastCluster(cs, s, tol);
      ClusteringUnique(cs[..|cs| - 1] + [Last(cs)[..|Last(cs)| - 1]], s[..|s| - 1], tol);
      JoinStep(cs, s, tol);
    } else {
      DropLastCluster(cs, s, tol);
      ClusteringUnique(cs[..|cs| - 1], s[..|s| - 1], tol);
      assert Last(cs) == [Last(s)];
      BreakStep(cs, s, tol);
    }
  }

  /** `max(clusters, key=len)`: the index of a longest cluster, the first
      one when several are equally long. */
  function FirstLongest(cs: seq<seq<real>>): (k: nat)
    requires |cs| > 0
    ensures k < |cs|
    ensures forall j :: 0 <= j < |cs| ==> |cs[j]| <= |cs[k]|
    ensures forall j :: 0 <= j < k ==> |cs[j]| < |cs[k]|
  {
    if |cs| == 1 then 0
    else
      var k := FirstLongest(cs[..|cs| - 1]);
      if |Last(cs)| > |cs[k]| then |cs| - 1 else k
  }

  function Sum(s: seq<real>): real {
    if |s| == 0 then 0.0 else Sum(s[..|s| - 1]) + Last(s)
  }

  function Mean(s: seq<real>): real
    requires |s| > 0
  {
    Sum(s) / (|s| as real)
  }

  lemma {:induction false} SumAbove(s: seq<real>, m: real)
    requires forall i :: 0 <= i < |s| ==> s[i] > m
    ensures |s| > 0 ==> Sum(s) > (|s| as real) * m
    decreases |s|
  {
    if |s| > 0 {
      SumAbove(s[..|s| - 1], m);
    }
  }

  lemma {:induction false} SumBelow(s: seq<real>, m: real)
    requires forall i :: 0 <= i < |s| ==> s[i] < m
    ensures |s| > 0 ==> Sum(s) < (|s| as real) * m
    decreases |s|
  {
    if |s| > 0 {
      SumBelow(s[..|s| - 1], m);
    }
  }

  /** The mean of a cluster lies between its smallest and largest reading. */
  lemma MeanWithinReadings(s: seq<real>)
    requires |s| > 0
    ensures exists i :: 0 <= i < |s| && s[i] <= Mean(s)
    ensures exists j :: 0 <= j < |s| && Mean(s) <= s[j]
  {
    var n := |s| as real;
    assert n * Mean(s) == Sum(s);
    if forall i :: 0 <= i < |s| ==> s[i] > Mean(s) {
      SumAbove(s, Mean(s));
      assert false;
    }
    if forall j :: 0 <= j < |s| ==> s[j] < Mean(s) {
      SumBelow(s, Mean(s));
      assert false;
    }
  }

  lemma {:induction false} ClusterReadingInFlatten(cs: seq<seq<real>>, k: nat, j: nat)
    requires k < |cs| && j < |cs[k]|
    ensures cs[k][j] in Flatten(cs)
    decreases |cs|
  {
    if k < |cs| - 1 {
      ClusterReadingInFlatten(cs[..|cs| - 1], k, j);
    } else {
      assert Flatten(cs) == Flatten(cs[..|cs| - 1]) + cs[k];
      assert Flatten(cs)[|Flatten(cs[..|cs| - 1])| + j] == cs[k][j];
    }
  }

  /** Clustering, then picking the first longest cluster, on sorted readings. */
  function BestCluster(sorted: seq<real>, tol: real): (c: seq<real>)
    requires |sorted| > 0
    ensures |c| > 0
  {
    var cs := Clusters(sorted, tol);
    cs[FirstLongest(cs)]
  }

  /** `find_best_distances(readings, tolerance)` without the final
      rounding: 0 for no readings, otherwise the mean of the first longest
      cluster of the sorted readings, a value between the smallest and the
      largest reading. */
  function FindBestDistance(readings: seq<real>, tol: real): (r: real)
    ensures |readings| == 0 ==> r == 0.0
    ensures |readings| > 0 ==> exists i :: 0 <= i < |readings| && readings[i] <= r
    ensures |readings| > 0 ==> exists j :: 0 <= j < |readings| && r <= readings[j]
  {
    if |readings| == 0 then 0.0
    else
      var sorted := Sort(readings);
      assert |sorted| == |multiset(sorted)| == |readings|;
      var c := BestCluster(sorted, tol);
      var cs := Clusters(sorted, tol);
      var k := FirstLongest(cs);
      assert c == cs[k];
      MeanWithinReadings(c);
      var i :| 0 <= i < |c| && c[i] <= Mean(c);
      var j :| 0 <= j < |c| && Mean(c) <= c[j];
      ClusterReadingInFlatten(cs, k, i);
      ClusterReadingInFlatten(cs, k, j);
      assert c[i] in multiset(readings) && c[j] in multiset(readings);
      Mean(c)
  }

  /** The reduction depends only on the multiset of readings, not on
      their order. */
  lemma BestDistanceOrderFree(a: seq<real>, b: seq<real>, tol: real)
    requires multiset(a) == multiset(b)
    ensures FindBestDistance(a, tol) == FindBestDistance(b, tol)
  {
    SortedPermutationUnique(Sort(a), Sort(b));
    assert |a| == |multiset(a)| == |b|;
  }

  /** Readings of the pair (m, n) and of (n, m) may be joined either way
      round. */
  lemma BestDistanceDirectionFree(x: seq<real>, y: seq<real>, tol: real)
    ensures FindBestDistance(x + y, tol) == FindBestDistance(y + x, tol)
  {
    BestDistanceOrderFree(x + y, y + x, tol);
  }
}
