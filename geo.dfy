/**
 * The proximity queries of both dispatchers (`$geoNear` + `$limit` in the document store,
 * `GEORADIUS ... WITHDIST COUNT 5 ASC` in the key-value store). The distance arithmetic is the
 * database's; here it is an input `ranked`: every indexed courier with its distance, closest first.
 */
module Geo {
  import opened Common

  /** One row of a proximity query: a courier and its distance (metres) from the origin. */
  datatype Hit = Hit(courierId: string, distance: int)

  /** Both dispatchers ask for the 5 nearest couriers. */
  const MaxCandidates: nat := 5

  function Ids(hits: seq<Hit>): (ids: seq<string>)
    ensures |ids| == |hits|
    ensures forall i :: 0 <= i < |hits| ==> ids[i] == hits[i].courierId
  {
    seq(|hits|, i requires 0 <= i < |hits| => hits[i].courierId)
  }

  lemma IdsSnoc(hits: seq<Hit>, i: nat)
    requires i < |hits|
    ensures Ids(hits[..i + 1]) == Ids(hits[..i]) + [hits[i].courierId]
  {
  }

  predicate Ascending(hits: seq<Hit>)
  {
    forall i, j :: 0 <= i < j < |hits| ==> hits[i].distance <= hits[j].distance
  }

  /** `ranked` lists exactly the couriers of `indexed`, each once, by ascending distance. */
  ghost predicate IsRanking(indexed: set<string>, ranked: seq<Hit>)
  {
    && Distinct(Ids(ranked))
    && Ascending(ranked)
    && (forall i :: 0 <= i < |ranked| ==> ranked[i].courierId in indexed)
    && (forall c :: c in indexed ==> c in Ids(ranked))
  }

  /** The query result: the hits that pass `eligible`, closest first, at most `k` of them. */
  function Nearest(ranked: seq<Hit>, eligible: Hit -> bool, k: nat): seq<Hit>
  {
    Take(Filter(ranked, eligible), k)
  }

  lemma {:induction false} FilterKeepsOrder(s: seq<Hit>, eligible: Hit -> bool)
    requires Ascending(s) && Distinct(Ids(s))
    ensures Ascending(Filter(s, eligible)) && Distinct(Ids(Filter(s, eligible)))
  {
    if s != [] {
      var init, last := s[..|s| - 1], s[|s| - 1];
      assert Ids(init) == Ids(s)[..|s| - 1];
      FilterKeepsOrder(init, eligible);
      var f := Filter(init, eligible);
      forall x | x in f ensures x.distance <= last.distance && x.courierId != last.courierId {
        var i :| 0 <= i < |init| && init[i] == x;
        assert Ids(s)[i] != Ids(s)[|s| - 1];
      }
      if eligible(last) {
        var r := f + [last];
        forall i, j | 0 <= i < j < |r| ensures r[i].distance <= r[j].distance {
          if j == |r| - 1 { assert r[i] in f; }
        }
        forall i, j | 0 <= i < j < |r| ensures Ids(r)[i] != Ids(r)[j] {
          if j == |r| - 1 { assert r[i] in f; } else { assert Ids(f)[i] != Ids(f)[j]; }
        }
      }
    }
  }

  /** Properties promised by a "k nearest" query over a ranking: at most k results, all
      eligible, closest first, no courier twice, and every eligible hit left out is at least
      as far as every hit returned (and only left out because k were found already). */
  lemma NearestSpec(ranked: seq<Hit>, eligible: Hit -> bool, k: nat)
    requires Ascending(ranked) && Distinct(Ids(ranked))
    ensures var r := Nearest(ranked, eligible, k);
      && |r| <= k
      && (forall i :: 0 <= i < |r| ==> eligible(r[i]) && r[i] in ranked)
      && Ascending(r) && Distinct(Ids(r))
      && (forall h :: h in ranked && eligible(h) && h !in r ==>
            |r| == k && forall i :: 0 <= i < |r| ==> r[i].distance <= h.distance)
  {
    var f := Filter(ranked, eligible);
    var r := Nearest(ranked, eligible, k);
    FilterKeepsOrder(ranked, eligible);
    assert Ids(r) == Ids(f)[..|r|];
    forall i | 0 <= i < |r| ensures eligible(r[i]) && r[i] in ranked {
      assert r[i] in f;
    }
    forall h | h in ranked && eligible(h) && h !in r
      ensures |r| == k && forall i :: 0 <= i < |r| ==> r[i].distance <= h.distance
    {
      var n :| 0 <= n < |ranked| && ranked[n] == h;
      assert h in f;
      var m :| 0 <= m < |f| && f[m] == h;
      assert m >= |r|;
    }
  }
}
