/**
 * The single-linkage engine of algorithms/synteny.py: matches are points
 * `(x, y)` (positions in the query and subject gene orders); synteny_scan
 * sorts them, links every point to the earlier points whose x-gap and y-gap
 * are within `xdist` and `ydist`, and keeps the linked groups whose score
 * reaches `N`.
 */
module Synteny {
  import opened Util
  import opened Grouper
  import opened Bed

  /** A match between position `x` of one order and position `y` of the other. */
  datatype Point = Point(x: int, y: int)

  /** Python's order on the tuple `(x, y)`. */
  predicate PointLe(p: Point, q: Point)
  {
    p.x < q.x || (p.x == q.x && p.y <= q.y)
  }

  lemma PointLeTotalOrder()
    ensures TotalOrder(PointLe)
  {
  }

  function Abs(v: int): nat
  {
    if v < 0 then -v else v
  }

  /** Both gaps within bounds: what synteny_scan checks before a join. */
  predicate Near(p: Point, q: Point, xdist: int, ydist: int)
  {
    Abs(p.x - q.x) <= xdist && Abs(p.y - q.y) <= ydist
  }

  function Members(cluster: seq<Point>): set<Point>
  {
    set p | p in cluster
  }

  // ---------------------------------------------------------------------
  // Cluster score (`_score`)
  // ---------------------------------------------------------------------

  function XSet(members: set<Point>): set<int>
  {
    set p | p in members :: p.x
  }

  function YSet(members: set<Point>): set<int>
  {
    set p | p in members :: p.y
  }

  /** The number of distinct x values or distinct y values, whichever is smaller. */
  function ScoreOf(members: set<Point>): nat
  {
    if |XSet(members)| < |YSet(members)| then |XSet(members)| else |YSet(members)|
  }

  /** `_score(cluster)` */
  function Score(cluster: seq<Point>): nat
  {
    ScoreOf(Members(cluster))
  }

  lemma {:induction false} XSetSize(s: set<Point>)
    ensures |XSet(s)| <= |s|
    decreases |s|
  {
    if s != {} {
      var e :| e in s;
      XSetSize(s - {e});
      assert XSet(s) == XSet(s - {e}) + {e.x};
    }
  }

  lemma {:induction false} YSetSize(s: set<Point>)
    ensures |YSet(s)| <= |s|
    decreases |s|
  {
    if s != {} {
      var e :| e in s;
      YSetSize(s - {e});
      assert YSet(s) == YSet(s - {e}) + {e.y};
    }
  }

  /**
   * A score counts non-redundant matches: at least one for a non-empty
   * cluster, never more than its distinct members, and a cluster on a
   * single x (or a single y) scores one.
   */
  lemma ScoreBounds(cluster: seq<Point>)
    requires |cluster| > 0
    ensures 1 <= Score(cluster) <= |Members(cluster)|
    ensures (forall p :: p in cluster ==> p.x == cluster[0].x) ==> Score(cluster) == 1
  {
    var m := Members(cluster);
    XSetSize(m);
    YSetSize(m);
    assert cluster[0].x in XSet(m) && cluster[0].y in YSet(m);
    if forall p :: p in cluster ==> p.x == cluster[0].x {
      assert XSet(m) == {cluster[0].x};
    }
  }

  // ---------------------------------------------------------------------
  // Single linkage, stated on the points
  // ---------------------------------------------------------------------

  /** A walk through input points whose every step is within both bounds. */
  ghost predicate IsChain(path: seq<Point>, pts: seq<Point>, xdist: int, ydist: int)
  {
    && |path| > 0
    && (forall k :: 0 <= k < |path| ==> path[k] in pts)
    && (forall k :: 0 <= k < |path| - 1 ==> Near(path[k], path[k + 1], xdist, ydist))
  }

  ghost predicate Linked(pts: seq<Point>, xdist: int, ydist: int, a: Point, b: Point)
  {
    exists path :: IsChain(path, pts, xdist, ydist) && path[0] == a && path[|path| - 1] == b
  }

  lemma LinkedRefl(pts: seq<Point>, xdist: int, ydist: int, a: Point)
    requires a in pts
    ensures Linked(pts, xdist, ydist, a, a)
  {
    assert IsChain([a], pts, xdist, ydist);
  }

  lemma LinkedStep(pts: seq<Point>, xdist: int, ydist: int, a: Point, b: Point)
    requires a in pts && b in pts && Near(a, b, xdist, ydist)
    ensures Linked(pts, xdist, ydist, a, b)
  {
    assert IsChain([a, b], pts, xdist, ydist);
  }

  lemma LinkedTrans(pts: seq<Point>, xdist: int, ydist: int, a: Point, b: Point, c: Point)
    requires Linked(pts, xdist, ydist, a, b) && Linked(pts, xdist, ydist, b, c)
    ensures Linked(pts, xdist, ydist, a, c)
  {
    var p :| IsChain(p, pts, xdist, ydist) && p[0] == a && p[|p| - 1] == b;
    var q :| IsChain(q, pts, xdist, ydist) && q[0] == b && q[|q| - 1] == c;
    var r := p + q[1..];
    assert IsChain(r, pts, xdist, ydist) by {
      forall k | 0 <= k < |r| - 1 ensures Near(r[k], r[k + 1], xdist, ydist) {
        if k < |p| - 1 {
        } else if k == |p| - 1 {
          assert r[k] == q[0] && r[k + 1] == q[1];
        } else {
          assert r[k] == q[k - |p| + 1] && r[k + 1] == q[k - |p| + 2];
        }
      }
    }
    assert r[|r| - 1] == c;
  }

  /**
   * The point takes part in some join: another input point is within both
   * bounds, or the same point occurs twice and the bounds admit a zero gap.
   */
  ghost predicate HasPartner(pts: seq<Point>, p: Point, xdist: int, ydist: int)
  {
    && p in pts
    && (|| (exists q :: q in pts && q != p && Near(p, q, xdist, ydist))
        || (multiset(pts)[p] >= 2 && Near(p, p, xdist, ydist)))
  }

  /** No input point within both bounds of a member lies outside the group. */
  ghost predicate Closed(g: set<Point>, pts: seq<Point>, xdist: int, ydist: int)
  {
    forall p, q {:trigger Near(p, q, xdist, ydist)} :: p in g && q in pts && Near(p, q, xdist, ydist) ==> q in g
  }

  /**
   * `groups` is the single-linkage partition of the joined points: disjoint,
   * covering exactly the points with a partner, closed under the bounds, and
   * every two members of a group linked by a chain of joins.
   */
  ghost predicate IsLinkageGroups(pts: seq<Point>, xdist: int, ydist: int, groups: set<set<Point>>)
  {
    && (forall g :: g in groups ==> g != {})
    && (forall g, h :: g in groups && h in groups && g != h ==> g !! h)
    && (forall g, p {:trigger HasPartner(pts, p, xdist, ydist), g in groups} :: g in groups && p in g ==> HasPartner(pts, p, xdist, ydist))
    && (forall p :: HasPartner(pts, p, xdist, ydist) ==> exists g :: g in groups && p in g)
    && (forall g :: g in groups ==> Closed(g, pts, xdist, ydist) && AllLinked(g, pts, xdist, ydist))
  }

  /** Every two members of `g` are linked by a chain. */
  ghost predicate AllLinked(g: set<Point>, pts: seq<Point>, xdist: int, ydist: int)
  {
    forall a, b {:trigger Linked(pts, xdist, ydist, a, b)} :: a in g && b in g ==> Linked(pts, xdist, ydist, a, b)
  }

  /**
   * `clusters` lists, once each and sorted, exactly the groups whose score
   * reaches `n`.
   */
  ghost predicate IsSelection(groups: set<set<Point>>, n: int, clusters: seq<seq<Point>>)
  {
    && (forall k :: 0 <= k < |clusters| ==>
          && Members(clusters[k]) in groups
          && StrictlySortedBy(clusters[k], PointLe)
          && Score(clusters[k]) >= n)
    && (forall k, l :: 0 <= k < l < |clusters| ==> Members(clusters[k]) != Members(clusters[l]))
    && (forall g :: g in groups && ScoreOf(g) >= n ==>
          exists k :: 0 <= k < |clusters| && Members(clusters[k]) == g)
  }

  // ---------------------------------------------------------------------
  // The scan
  // ---------------------------------------------------------------------

  /** What the grouping holds at every step of the scan. */
  ghost predicate Sound(m: map<Point, set<Point>>, pts: seq<Point>, xdist: int, ydist: int)
  {
    Partition(m) && Partnered(m, pts, xdist, ydist) && GroupsLinked(m, pts, xdist, ydist)
  }

  /** Only points with a partner have been joined. */
  ghost predicate Partnered(m: map<Point, set<Point>>, pts: seq<Point>, xdist: int, ydist: int)
  {
    forall x {:trigger HasPartner(pts, x, xdist, ydist)} :: x in m ==> HasPartner(pts, x, xdist, ydist)
  }

  /** Every two points of a group are linked by a chain. */
  ghost predicate GroupsLinked(m: map<Point, set<Point>>, pts: seq<Point>, xdist: int, ydist: int)
  {
    forall x, y :: x in m && y in m[x] ==> Linked(pts, xdist, ydist, x, y)
  }

  lemma TwoIndicesCount(s: seq<Point>, a: int, b: int)
    requires 0 <= a < b < |s| && s[a] == s[b]
    ensures multiset(s)[s[a]] >= 2
  {
    assert s == s[..a] + [s[a]] + s[a + 1..];
    assert s[a + 1..] == s[a + 1..b] + [s[b]] + s[b + 1..];
    assert multiset(s[a + 1..])[s[a]] >= 1;
  }

  lemma CountTwoIndices(s: seq<Point>, a: int)
    requires 0 <= a < |s| && multiset(s)[s[a]] >= 2
    ensures exists b :: 0 <= b < |s| && b != a && s[b] == s[a]
  {
    assert s == s[..a] + [s[a]] + s[a + 1..];
    assert multiset(s[..a] + s[a + 1..])[s[a]] >= 1;
    var b :| 0 <= b < |s[..a] + s[a + 1..]| && (s[..a] + s[a + 1..])[b] == s[a];
    if b < a {
      assert s[b] == s[a];
    } else {
      assert s[b + 1] == s[a];
    }
  }

  /** Two positions of the sorted points that get joined both have a partner. */
  lemma PartnersAt(s: seq<Point>, pts: seq<Point>, a: int, b: int, xdist: int, ydist: int)
    requires multiset(s) == multiset(pts)
    requires 0 <= b < a < |s| && Near(s[a], s[b], xdist, ydist)
    ensures s[a] in pts && s[b] in pts
    ensures HasPartner(pts, s[a], xdist, ydist) && HasPartner(pts, s[b], xdist, ydist)
  {
    assert s[a] in multiset(s) && s[b] in multiset(s);
    if s[a] == s[b] {
      TwoIndicesCount(s, b, a);
    }
  }

  /** A point with a partner sits at some position joined to another one. */
  lemma PartnerIndices(s: seq<Point>, pts: seq<Point>, p: Point, xdist: int, ydist: int)
    requires multiset(s) == multiset(pts)
    requires HasPartner(pts, p, xdist, ydist)
    ensures exists a, b :: 0 <= a < |s| && 0 <= b < |s| && a != b && s[a] == p && Near(p, s[b], xdist, ydist)
  {
    if q :| q in pts && q != p && Near(p, q, xdist, ydist) {
      assert p in multiset(s) && q in multiset(s);
      var a :| 0 <= a < |s| && s[a] == p;
      var b :| 0 <= b < |s| && s[b] == q;
      assert a != b;
    } else {
      assert p in multiset(s);
      var a :| 0 <= a < |s| && s[a] == p;
      CountTwoIndices(s, a);
    }
  }

  /** A member of the group `join` starts from for `a` is linked to `a` both ways. */
  lemma InGroupLinked(m: map<Point, set<Point>>, pts: seq<Point>, a: Point, z: Point, xdist: int, ydist: int)
    requires Partition(m) && GroupsLinked(m, pts, xdist, ydist)
    requires a in pts && z in GroupOf(m, a)
    ensures Linked(pts, xdist, ydist, z, a) && Linked(pts, xdist, ydist, a, z)
  {
    if a in m {
      assert m[z] == m[a];
    } else {
      LinkedRefl(pts, xdist, ydist, a);
    }
  }

  lemma JoinLinked(m: map<Point, set<Point>>, pts: seq<Point>, a: Point, b: Point, xdist: int, ydist: int)
    requires Partition(m) && GroupsLinked(m, pts, xdist, ydist)
    requires a in pts && b in pts && Near(a, b, xdist, ydist)
    ensures GroupsLinked(Joined(m, a, b), pts, xdist, ydist)
  {
    JoinedSpec(m, a, b);
    var r := Joined(m, a, b);
    var ga, gb := GroupOf(m, a), GroupOf(m, b);
    LinkedStep(pts, xdist, ydist, a, b);
    LinkedStep(pts, xdist, ydist, b, a);
    forall x, y | x in r && y in r[x] ensures Linked(pts, xdist, ydist, x, y) {
      if x in ga + gb {
        assert y in ga + gb;
        var ex := if x in ga then a else b;
        var ey := if y in ga then a else b;
        InGroupLinked(m, pts, ex, x, xdist, ydist);
        InGroupLinked(m, pts, ey, y, xdist, ydist);
        LinkedTrans(pts, xdist, ydist, x, ex, ey);
        LinkedTrans(pts, xdist, ydist, x, ey, y);
      } else {
        assert r[x] == m[x];
      }
    }
  }

  lemma JoinSound(m: map<Point, set<Point>>, pts: seq<Point>, a: Point, b: Point, xdist: int, ydist: int)
    requires Sound(m, pts, xdist, ydist)
    requires Near(a, b, xdist, ydist)
    requires HasPartner(pts, a, xdist, ydist) && HasPartner(pts, b, xdist, ydist)
    ensures Sound(Joined(m, a, b), pts, xdist, ydist)
  {
    JoinedSpec(m, a, b);
    JoinLinked(m, pts, a, b, xdist, ydist);
    JoinPartnered(m, pts, a, b, xdist, ydist);
  }

  lemma JoinPartnered(m: map<Point, set<Point>>, pts: seq<Point>, a: Point, b: Point, xdist: int, ydist: int)
    requires Partnered(m, pts, xdist, ydist)
    requires HasPartner(pts, a, xdist, ydist) && HasPartner(pts, b, xdist, ydist)
    ensures Partnered(Joined(m, a, b), pts, xdist, ydist)
  {
    assert Joined(m, a, b).Keys == m.Keys + {a, b};
  }

  /**
   * One pass of the backward scan from position `i` of the sorted points:
   * stops at the first earlier point more than `xdist` away in x, skips those
   * more than `ydist` away in y, and joins the rest to `s[i]`.
   */
  method ScanBack(g: Grouper<Point>, ghost pts: seq<Point>, s: seq<Point>, i: nat, xdist: int, ydist: int)
    requires multiset(s) == multiset(pts) && SortedBy(s, PointLe) && i < |s|
    requires g.Valid() && Sound(g.mapping, pts, xdist, ydist)
    modifies g
    ensures g.Valid() && Sound(g.mapping, pts, xdist, ydist)
    ensures Coarser(old(g.mapping), g.mapping)
    ensures forall b :: 0 <= b < i && Near(s[i], s[b], xdist, ydist) ==> Together(g.mapping, s[i], s[b])
  {
    var j := i;
    while j > 0
      invariant 0 <= j <= i
      invariant g.Valid() && Sound(g.mapping, pts, xdist, ydist)
      invariant Coarser(old(g.mapping), g.mapping)
      invariant forall b :: j <= b < i && Near(s[i], s[b], xdist, ydist) ==> Together(g.mapping, s[i], s[b])
    {
      j := j - 1;
      var delX := s[i].x - s[j].x;
      if delX > xdist {
        forall b | 0 <= b < j ensures !Near(s[i], s[b], xdist, ydist) {
          assert PointLe(s[b], s[j]);
        }
        break;
      }
      var delY := s[i].y - s[j].y;
      if Abs(delY) > ydist {
        continue;
      }
      assert PointLe(s[j], s[i]);
      ghost var m0 := g.mapping;
      PartnersAt(s, pts, i, j, xdist, ydist);
      JoinSound(m0, pts, s[i], s[j], xdist, ydist);
      g.Join(s[i], s[j]);
    }
  }

  /** Two positions the scan compared and found near are in one group. */
  lemma NearTogether(m: map<Point, set<Point>>, s: seq<Point>, a: int, b: int, xdist: int, ydist: int)
    requires Partition(m)
    requires forall a, b :: 0 <= b < a < |s| && Near(s[a], s[b], xdist, ydist) ==> Together(m, s[a], s[b])
    requires 0 <= a < |s| && 0 <= b < |s| && a != b && Near(s[a], s[b], xdist, ydist)
    ensures s[a] in m && s[b] in m && m[s[a]] == m[s[b]]
  {
    if b < a {
      assert Together(m, s[a], s[b]);
    } else {
      assert Near(s[b], s[a], xdist, ydist);
      assert Together(m, s[b], s[a]);
    }
  }

  /**
   * After the scan, groups handed out as the Grouper hands them out (each key's
   * group, non-empty and disjoint) are the single-linkage partition.
   */
  lemma ScanComplete(m: map<Point, set<Point>>, groups: set<set<Point>>, pts: seq<Point>, s: seq<Point>, xdist: int, ydist: int)
    requires multiset(s) == multiset(pts)
    requires Sound(m, pts, xdist, ydist)
    requires forall a, b :: 0 <= b < a < |s| && Near(s[a], s[b], xdist, ydist) ==> Together(m, s[a], s[b])
    requires forall g :: g in groups ==> g != {}
    requires forall g, h :: g in groups && h in groups && g != h ==> g !! h
    requires forall x :: x in m ==> m[x] in groups
    requires forall g, x :: g in groups && x in g ==> x in m && m[x] == g
    ensures IsLinkageGroups(pts, xdist, ydist, groups)
  {
    forall p | HasPartner(pts, p, xdist, ydist) ensures exists g :: g in groups && p in g {
      PartnerIndices(s, pts, p, xdist, ydist);
      var a, b :| 0 <= a < |s| && 0 <= b < |s| && a != b && s[a] == p && Near(p, s[b], xdist, ydist);
      NearTogether(m, s, a, b, xdist, ydist);
      assert m[p] in groups && p in m[p];
    }
    forall g | g in groups ensures AllLinked(g, pts, xdist, ydist) {
      forall a, b | a in g && b in g ensures Linked(pts, xdist, ydist, a, b) {
        assert m[a] == g;
      }
    }
    forall g | g in groups ensures Closed(g, pts, xdist, ydist) {
      forall p, q | p in g && q in pts && Near(p, q, xdist, ydist) ensures q in g {
        if q != p {
          assert p in multiset(s) by {
            assert p in m;
          }
          assert q in multiset(s);
          var a :| 0 <= a < |s| && s[a] == p;
          var b :| 0 <= b < |s| && s[b] == q;
          NearTogether(m, s, a, b, xdist, ydist);
        }
      }
    }
  }

  /** Strips the points of `s` that are not in `h`, keeping order. */
  function Keep(s: seq<Point>, h: set<Point>): (r: seq<Point>)
    ensures forall p :: p in r <==> p in s && p in h
  {
    if |s| == 0 then []
    else if s[0] in h then [s[0]] + Keep(s[1..], h)
    else Keep(s[1..], h)
  }

  /** `sorted(group)`, for a group drawn from the points. */
  function SortedCluster(s: seq<Point>, h: set<Point>): (c: seq<Point>)
    requires forall p :: p in h ==> p in s
    ensures Members(c) == h
    ensures StrictlySortedBy(c, PointLe)
  {
    PointLeTotalOrder();
    SortedSetSpec(Keep(s, h), PointLe);
    var c := SortedSet(Keep(s, h), PointLe);
    assert forall p :: p in Members(c) <==> p in h;
    c
  }

  /**
   * `[f(g) for g in gs if keep(g)]` over a set taken in some order: `src`
   * lists the kept elements once each, and `out` their images.
   */
  method SelectFrom<G(==), C>(gs: set<G>, f: G --> C, keep: G -> bool) returns (out: seq<C>, ghost src: seq<G>)
    requires forall g :: g in gs ==> f.requires(g)
    ensures |src| == |out|
    ensures forall k :: 0 <= k < |src| ==> src[k] in gs && keep(src[k]) && out[k] == f(src[k])
    ensures forall k, l :: 0 <= k < l < |src| ==> src[k] != src[l]
    ensures forall g :: g in gs && keep(g) ==> g in src
  {
    out, src := [], [];
    var remaining := gs;
    while remaining != {}
      invariant remaining <= gs && |src| == |out|
      invariant forall k :: 0 <= k < |src| ==> src[k] in gs && src[k] !in remaining && keep(src[k]) && out[k] == f(src[k])
      invariant forall k, l :: 0 <= k < l < |src| ==> src[k] != src[l]
      invariant forall g :: g in gs && g !in remaining && keep(g) ==> g in src
      decreases remaining
    {
      var g :| g in remaining;
      if keep(g) {
        out, src := out + [f(g)], src + [g];
      }
      remaining := remaining - {g};
    }
  }

  /**
   * The final comprehension of synteny_scan: each group of the grouping,
   * sorted, kept when its score reaches `n`. The Grouper hands out its groups
   * in no particular order, so any order is taken here.
   */
  method SelectClusters(s: seq<Point>, groups: set<set<Point>>, n: int) returns (clusters: seq<seq<Point>>)
    requires forall h, p :: h in groups && p in h ==> p in s
    ensures IsSelection(groups, n, clusters)
  {
    ghost var src;
    clusters, src := SelectFrom(groups, h requires forall p :: p in h ==> p in s => SortedCluster(s, h), h => ScoreOf(h) >= n);
    forall k | 0 <= k < |clusters|
      ensures Members(clusters[k]) == src[k] && StrictlySortedBy(clusters[k], PointLe) && Score(clusters[k]) >= n
    {
      assert clusters[k] == SortedCluster(s, src[k]);
    }
    forall g | g in groups && ScoreOf(g) >= n
      ensures exists k :: 0 <= k < |clusters| && Members(clusters[k]) == g
    {
      var k :| 0 <= k < |src| && src[k] == g;
      assert Members(clusters[k]) == g;
    }
  }

  /**
   * `synteny_scan(points, xdist, ydist, N)`: single-linkage clusters of the
   * points under the two gap bounds, each sorted, scoring at least `n`.
   */
  method SyntenyScan(points: seq<Point>, xdist: int, ydist: int, n: int)
    returns (clusters: seq<seq<Point>>, ghost groups: set<set<Point>>)
    ensures IsLinkageGroups(points, xdist, ydist, groups)
    ensures IsSelection(groups, n, clusters)
  {
    PointLeTotalOrder();
    var s := SortBy(points, PointLe);
    SortBySorted(points, PointLe);
    var g := new Grouper<Point>();
    var i := 0;
    while i < |s|
      invariant 0 <= i <= |s|
      invariant g.Valid() && Sound(g.mapping, points, xdist, ydist)
      invariant forall a, b :: 0 <= b < a < i && Near(s[a], s[b], xdist, ydist) ==> Together(g.mapping, s[a], s[b])
    {
      ScanBack(g, points, s, i, xdist, ydist);
      i := i + 1;
    }
    var gs := g.Groups();
    ScanComplete(g.mapping, gs, points, s, xdist, ydist);
    groups := gs;
    forall h, p | h in gs && p in h ensures p in s {
      assert p in multiset(points);
    }
    clusters := SelectClusters(s, gs, n);
  }

  /**
   * What synteny_scan's result gives its callers: clusters are pairwise
   * disjoint, any input point within both bounds of a member is in the same
   * cluster, and any two members are joined by a chain of near points.
   */
  lemma ScanClusters(points: seq<Point>, xdist: int, ydist: int, n: int, clusters: seq<seq<Point>>, groups: set<set<Point>>)
    requires IsLinkageGroups(points, xdist, ydist, groups) && IsSelection(groups, n, clusters)
    ensures forall k, l :: 0 <= k < l < |clusters| ==> Members(clusters[k]) !! Members(clusters[l])
    ensures forall k, p, q :: 0 <= k < |clusters| && p in clusters[k] && q in points && Near(p, q, xdist, ydist) ==>
      q in clusters[k]
    ensures forall k, p, q :: 0 <= k < |clusters| && p in clusters[k] && q in clusters[k] ==>
      Linked(points, xdist, ydist, p, q)
  {
    forall k, l | 0 <= k < l < |clusters| ensures Members(clusters[k]) !! Members(clusters[l]) {
      assert Members(clusters[k]) in groups && Members(clusters[l]) in groups;
    }
    forall k, p, q | 0 <= k < |clusters| && p in clusters[k] && q in points && Near(p, q, xdist, ydist)
      ensures q in clusters[k]
    {
      var c := Members(clusters[k]);
      assert c in groups && p in c;
      assert Closed(c, points, xdist, ydist);
    }
    forall k, p, q | 0 <= k < |clusters| && p in clusters[k] && q in clusters[k]
      ensures Linked(points, xdist, ydist, p, q)
    {
      var c := Members(clusters[k]);
      assert c in groups && p in c && q in c;
      assert AllLinked(c, points, xdist, ydist);
    }
  }

  // ---------------------------------------------------------------------
  // The result does not depend on how the scan went
  // ---------------------------------------------------------------------

  lemma {:induction false} ChainStaysIn(path: seq<Point>, pts: seq<Point>, g: set<Point>, xdist: int, ydist: int)
    requires IsChain(path, pts, xdist, ydist) && path[0] in g && Closed(g, pts, xdist, ydist)
    ensures path[|path| - 1] in g
    decreases |path|
  {
    if |path| > 1 {
      assert Near(path[0], path[1], xdist, ydist);
      assert IsChain(path[1..], pts, xdist, ydist);
      ChainStaysIn(path[1..], pts, g, xdist, ydist);
    }
  }

  /** A group and a closed set meeting in one point: the group lies inside the set. */
  lemma LinkedInside(pts: seq<Point>, xdist: int, ydist: int, g: set<Point>, h: set<Point>, p: Point)
    requires AllLinked(g, pts, xdist, ydist)
    requires Closed(h, pts, xdist, ydist) && p in g && p in h
    ensures g <= h
  {
    forall q | q in g ensures q in h {
      assert Linked(pts, xdist, ydist, p, q);
      var path :| IsChain(path, pts, xdist, ydist) && path[0] == p && path[|path| - 1] == q;
      ChainStaysIn(path, pts, h, xdist, ydist);
    }
  }

  /** A closed linked group meeting a partition of closed linked groups is one of them. */
  lemma GroupShared(pts: seq<Point>, xdist: int, ydist: int, g: set<Point>, groups: set<set<Point>>, p: Point)
    requires p in g && Closed(g, pts, xdist, ydist) && AllLinked(g, pts, xdist, ydist)
    requires exists h :: h in groups && p in h
    requires forall h :: h in groups ==> Closed(h, pts, xdist, ydist) && AllLinked(h, pts, xdist, ydist)
    ensures g in groups
  {
    var h :| h in groups && p in h;
    LinkedInside(pts, xdist, ydist, g, h, p);
    LinkedInside(pts, xdist, ydist, h, g, p);
    assert g == h;
  }

  lemma GroupsIncluded(pts: seq<Point>, xdist: int, ydist: int, g1: set<set<Point>>, g2: set<set<Point>>)
    requires forall g, p :: g in g1 && p in g ==> HasPartner(pts, p, xdist, ydist)
    requires forall g :: g in g1 ==> g != {} && Closed(g, pts, xdist, ydist) && AllLinked(g, pts, xdist, ydist)
    requires forall p :: HasPartner(pts, p, xdist, ydist) ==> exists h :: h in g2 && p in h
    requires forall h :: h in g2 ==> Closed(h, pts, xdist, ydist) && AllLinked(h, pts, xdist, ydist)
    ensures g1 <= g2
  {
    forall g | g in g1 ensures g in g2 {
      var p :| p in g;
      GroupShared(pts, xdist, ydist, g, g2, p);
    }
  }

  /** There is only one single-linkage partition of a set of points. */
  lemma LinkageGroupsUnique(pts: seq<Point>, xdist: int, ydist: int, g1: set<set<Point>>, g2: set<set<Point>>)
    requires IsLinkageGroups(pts, xdist, ydist, g1) && IsLinkageGroups(pts, xdist, ydist, g2)
    ensures g1 == g2
  {
    GroupsIncluded(pts, xdist, ydist, g1, g2);
    GroupsIncluded(pts, xdist, ydist, g2, g1);
  }

  /**
   * synteny_scan is determined up to the order of its clusters: two results
   * that meet its contract hold the same clusters.
   */
  lemma ScanResultUnique(pts: seq<Point>, xdist: int, ydist: int, n: int,
                         c1: seq<seq<Point>>, g1: set<set<Point>>, c2: seq<seq<Point>>, g2: set<set<Point>>)
    requires IsLinkageGroups(pts, xdist, ydist, g1) && IsSelection(g1, n, c1)
    requires IsLinkageGroups(pts, xdist, ydist, g2) && IsSelection(g2, n, c2)
    ensures forall c :: c in c1 <==> c in c2
  {
    LinkageGroupsUnique(pts, xdist, ydist, g1, g2);
    PointLeTotalOrder();
    forall c | c in c1 ensures c in c2 {
      SameCluster(g1, n, c1, c2, c);
    }
    forall c | c in c2 ensures c in c1 {
      SameCluster(g1, n, c2, c1, c);
    }
  }

  lemma SameCluster(groups: set<set<Point>>, n: int, c1: seq<seq<Point>>, c2: seq<seq<Point>>, c: seq<Point>)
    requires IsSelection(groups, n, c1) && IsSelection(groups, n, c2) && c in c1
    ensures c in c2
  {
    PointLeTotalOrder();
    var k :| 0 <= k < |c1| && c1[k] == c;
    var l :| 0 <= l < |c2| && Members(c2[l]) == Members(c);
    assert forall x :: x in c <==> x in Members(c);
    assert forall x :: x in c2[l] <==> x in Members(c2[l]);
    StrictlySortedUnique(c, c2[l], PointLe);
  }

  // ---------------------------------------------------------------------
  // Reading matches: read_blast and read_anchors
  // ---------------------------------------------------------------------

  /** One BLAST row: the two gene names and the remaining columns. */
  datatype BlastRow = BlastRow(query: string, subject: string, columns: seq<string>)

  /**
   * A kept row with the fields read_blast sets: the chromosome names and the
   * gene positions, swapped in a self comparison; the row itself is unchanged.
   */
  datatype Hit = Hit(row: BlastRow, qseqid: string, sseqid: string, qi: int, si: int)

  predicate Mapped(r: BlastRow, qorder: map<string, Indexed>, sorder: map<string, Indexed>)
  {
    r.query in qorder && r.subject in sorder
  }

  /** The fields read_blast sets on a mapped row. */
  function Convert(r: BlastRow, qorder: map<string, Indexed>, sorder: map<string, Indexed>, isSelf: bool): (h: Hit)
    requires Mapped(r, qorder, sorder)
    ensures h.row == r
    ensures isSelf ==> h.qi <= h.si
    ensures {h.qi, h.si} == {qorder[r.query].index, sorder[r.subject].index}
    ensures (h.qi, h.qseqid) == (qorder[r.query].index, qorder[r.query].line.seqid)
      || (h.qi, h.qseqid) == (sorder[r.subject].index, sorder[r.subject].line.seqid)
  {
    var q, s := qorder[r.query], sorder[r.subject];
    if isSelf && q.index > s.index then Hit(r, s.line.seqid, q.line.seqid, s.index, q.index)
    else Hit(r, q.line.seqid, s.line.seqid, q.index, s.index)
  }

  /** The `(query, subject)` keys of the mapped rows. */
  function SeenKeys(rows: seq<BlastRow>, qorder: map<string, Indexed>, sorder: map<string, Indexed>): set<(string, string)>
  {
    set r | r in rows && Mapped(r, qorder, sorder) :: (r.query, r.subject)
  }

  /** What read_blast returns for the rows read so far. */
  function FilterBlast(rows: seq<BlastRow>, qorder: map<string, Indexed>, sorder: map<string, Indexed>, isSelf: bool): seq<Hit>
  {
    if |rows| == 0 then []
    else
      var init, r := rows[..|rows| - 1], rows[|rows| - 1];
      var kept := FilterBlast(init, qorder, sorder, isSelf);
      if Mapped(r, qorder, sorder) && (r.query, r.subject) !in SeenKeys(init, qorder, sorder)
      then kept + [Convert(r, qorder, sorder, isSelf)]
      else kept
  }

  function RowsOf(hits: seq<Hit>): seq<BlastRow>
  {
    seq(|hits|, k requires 0 <= k < |hits| => hits[k].row)
  }

  lemma SeenKeysSnoc(init: seq<BlastRow>, r: BlastRow, qorder: map<string, Indexed>, sorder: map<string, Indexed>)
    ensures SeenKeys(init + [r], qorder, sorder) ==
      SeenKeys(init, qorder, sorder) + (if Mapped(r, qorder, sorder) then {(r.query, r.subject)} else {})
  {
  }

  /** read_blast keeps rows in input order. */
  lemma {:induction false} FilterBlastOrder(rows: seq<BlastRow>, qorder: map<string, Indexed>, sorder: map<string, Indexed>, isSelf: bool)
    ensures IsSubseq(RowsOf(FilterBlast(rows, qorder, sorder, isSelf)), rows)
    decreases |rows|
  {
    if |rows| > 0 {
      var init, r := rows[..|rows| - 1], rows[|rows| - 1];
      FilterBlastOrder(init, qorder, sorder, isSelf);
      var kept := FilterBlast(init, qorder, sorder, isSelf);
      var out := FilterBlast(rows, qorder, sorder, isSelf);
      assert rows == init + [r];
      if Mapped(r, qorder, sorder) && (r.query, r.subject) !in SeenKeys(init, qorder, sorder) {
        assert RowsOf(out) == RowsOf(kept) + [r];
        IsSubseqAppend(RowsOf(kept), init, r);
      } else {
        IsSubseqExtend(RowsOf(kept), init, r);
      }
    }
  }

  /** Every hit is a mapped row of `rows` with the fields read_blast sets. */
  ghost predicate HitsFrom(out: seq<Hit>, rows: seq<BlastRow>, qorder: map<string, Indexed>, sorder: map<string, Indexed>, isSelf: bool)
  {
    forall k :: 0 <= k < |out| ==>
      out[k].row in rows && Mapped(out[k].row, qorder, sorder) && out[k] == Convert(out[k].row, qorder, sorder, isSelf)
  }

  lemma {:induction false} FilterBlastSound(rows: seq<BlastRow>, qorder: map<string, Indexed>, sorder: map<string, Indexed>, isSelf: bool)
    ensures HitsFrom(FilterBlast(rows, qorder, sorder, isSelf), rows, qorder, sorder, isSelf)
    decreases |rows|
  {
    if |rows| > 0 {
      var init, r := rows[..|rows| - 1], rows[|rows| - 1];
      FilterBlastSound(init, qorder, sorder, isSelf);
      var kept := FilterBlast(init, qorder, sorder, isSelf);
      var out := FilterBlast(rows, qorder, sorder, isSelf);
      assert HitsFrom(kept, init, qorder, sorder, isSelf);
      assert rows == init + [r];
      forall k | 0 <= k < |kept| ensures kept[k].row in rows {
        assert kept[k].row in init;
      }
      if Mapped(r, qorder, sorder) && (r.query, r.subject) !in SeenKeys(init, qorder, sorder) {
        assert out == kept + [Convert(r, qorder, sorder, isSelf)];
      } else {
        assert out == kept;
      }
    }
  }

  function KeyOf(h: Hit): (string, string)
  {
    (h.row.query, h.row.subject)
  }

  /** No two hits share a `(query, subject)` pair. */
  ghost predicate KeysDistinct(out: seq<Hit>)
  {
    forall k, l :: 0 <= k < l < |out| ==> KeyOf(out[k]) != KeyOf(out[l])
  }

  /** The hits' pairs are exactly `keys`. */
  ghost predicate KeysAre(out: seq<Hit>, keys: set<(string, string)>)
  {
    forall key :: key in keys <==> exists k :: 0 <= k < |out| && KeyOf(out[k]) == key
  }

  lemma KeysSnoc(kept: seq<Hit>, h: Hit, seen: set<(string, string)>)
    requires KeysDistinct(kept) && KeysAre(kept, seen) && KeyOf(h) !in seen
    ensures KeysDistinct(kept + [h]) && KeysAre(kept + [h], seen + {KeyOf(h)})
  {
    var out := kept + [h];
    assert out[|kept|] == h;
    forall k | 0 <= k < |kept| ensures KeyOf(kept[k]) in seen {
    }
    forall key ensures key in seen + {KeyOf(h)} <==> exists k :: 0 <= k < |out| && KeyOf(out[k]) == key {
      if key in seen {
        var k :| 0 <= k < |kept| && KeyOf(kept[k]) == key;
        assert out[k] == kept[k];
      }
    }
  }

  /** Exactly one row is kept for every `(query, subject)` pair of mapped rows. */
  lemma {:induction false} FilterBlastKeys(rows: seq<BlastRow>, qorder: map<string, Indexed>, sorder: map<string, Indexed>, isSelf: bool)
    ensures KeysDistinct(FilterBlast(rows, qorder, sorder, isSelf))
    ensures KeysAre(FilterBlast(rows, qorder, sorder, isSelf), SeenKeys(rows, qorder, sorder))
    decreases |rows|
  {
    if |rows| > 0 {
      var init, r := rows[..|rows| - 1], rows[|rows| - 1];
      FilterBlastKeys(init, qorder, sorder, isSelf);
      var kept := FilterBlast(init, qorder, sorder, isSelf);
      var out := FilterBlast(rows, qorder, sorder, isSelf);
      var seen := SeenKeys(init, qorder, sorder);
      assert KeysDistinct(kept) && KeysAre(kept, seen);
      assert rows == init + [r];
      SeenKeysSnoc(init, r, qorder, sorder);
      if Mapped(r, qorder, sorder) && (r.query, r.subject) !in seen {
        var h := Convert(r, qorder, sorder, isSelf);
        assert out == kept + [h];
        assert KeyOf(h) == (r.query, r.subject);
        KeysSnoc(kept, h, seen);
      } else {
        assert out == kept;
      }
    }
  }

  /**
   * `read_blast(rows, qorder, sorder, is_self)`: drops rows naming a gene
   * missing from either order, keeps only the first row of each
   * `(query, subject)` pair, and in a self comparison puts the smaller
   * position first.
   */
  method ReadBlast(rows: seq<BlastRow>, qorder: map<string, Indexed>, sorder: map<string, Indexed>, isSelf: bool)
    returns (hits: seq<Hit>)
    ensures hits == FilterBlast(rows, qorder, sorder, isSelf)
    ensures IsSubseq(RowsOf(hits), rows)
    ensures forall k :: 0 <= k < |hits| ==> Mapped(hits[k].row, qorder, sorder)
    ensures isSelf ==> forall k :: 0 <= k < |hits| ==> hits[k].qi <= hits[k].si
    ensures forall k, l :: 0 <= k < l < |hits| ==> KeyOf(hits[k]) != KeyOf(hits[l])
    ensures forall r :: r in rows && Mapped(r, qorder, sorder) ==>
      exists k :: 0 <= k < |hits| && KeyOf(hits[k]) == (r.query, r.subject)
  {
    hits := [];
    var seen: set<(string, string)> := {};
    var i := 0;
    while i < |rows|
      invariant 0 <= i <= |rows|
      invariant seen == SeenKeys(rows[..i], qorder, sorder)
      invariant hits == FilterBlast(rows[..i], qorder, sorder, isSelf)
    {
      var r := rows[i];
      assert rows[..i + 1][..i] == rows[..i];
      assert rows[..i + 1] == rows[..i] + [r];
      SeenKeysSnoc(rows[..i], r, qorder, sorder);
      i := i + 1;
      if r.query !in qorder || r.subject !in sorder {
        continue;
      }
      var key := (r.query, r.subject);
      if key in seen {
        continue;
      }
      seen := seen + {key};
      hits := hits + [Convert(r, qorder, sorder, isSelf)];
    }
    assert rows[..i] == rows;
    FilterBlastOrder(rows, qorder, sorder, isSelf);
    FilterBlastSound(rows, qorder, sorder, isSelf);
    FilterBlastKeys(rows, qorder, sorder, isSelf);
    assert HitsFrom(hits, rows, qorder, sorder, isSelf);
    assert KeysAre(hits, SeenKeys(rows, qorder, sorder));
    forall r | r in rows && Mapped(r, qorder, sorder)
      ensures exists k :: 0 <= k < |hits| && KeyOf(hits[k]) == (r.query, r.subject)
    {
      assert (r.query, r.subject) in SeenKeys(rows, qorder, sorder);
    }
  }

  // ---------------------------------------------------------------------
  // Grouping by chromosome pair: group_hits, read_anchors, batch_scan
  // ---------------------------------------------------------------------

  function PairOf(h: Hit): (string, string)
  {
    (h.qseqid, h.sseqid)
  }

  function PointOf(h: Hit): Point
  {
    Point(h.qi, h.si)
  }

  /** Each hit as its chromosome pair and its point. */
  function HitPairs(hits: seq<Hit>): (r: seq<((string, string), Point)>)
    ensures |r| == |hits|
    ensures forall i :: 0 <= i < |r| ==> r[i] == (PairOf(hits[i]), PointOf(hits[i]))
  {
    seq(|hits|, i requires 0 <= i < |hits| => (PairOf(hits[i]), PointOf(hits[i])))
  }

  /**
   * `group_hits(blasts)`: the points of the hits, listed under their
   * chromosome pair in input order.
   */
  method GroupHits(hits: seq<Hit>) returns (byPair: map<(string, string), seq<Point>>)
    ensures GroupsOf(byPair, HitPairs(hits))
    ensures forall key :: key in byPair <==> exists h :: h in hits && PairOf(h) == key
  {
    byPair := GroupPairs(HitPairs(hits));
    forall key | key in byPair ensures exists h :: h in hits && PairOf(h) == key {
      var v := byPair[key][0];
      assert v in Collect(HitPairs(hits), key);
      var j :| 0 <= j < |hits| && HitPairs(hits)[j].0 == key && HitPairs(hits)[j].1 == v;
      assert hits[j] in hits;
    }
    forall h | h in hits ensures PairOf(h) in byPair {
      var j :| 0 <= j < |hits| && hits[j] == h;
      assert HitPairs(hits)[j].0 == PairOf(h);
    }
  }

  /** Python's order on `(qseqid, sseqid)` tuples. */
  predicate PairLe(a: (string, string), b: (string, string))
  {
    StrLt(a.0, b.0) || (a.0 == b.0 && StrLe(a.1, b.1))
  }

  lemma PairLeTotalOrder()
    ensures TotalOrder(PairLe)
  {
    StrLeTotalOrder();
    forall a: (string, string), b: (string, string) ensures PairLe(a, b) || PairLe(b, a) {
      StrLtTrichotomy(a.0, b.0);
    }
    forall a: (string, string), b: (string, string), c: (string, string) | PairLe(a, b) && PairLe(b, c)
      ensures PairLe(a, c)
    {
      if StrLt(a.0, b.0) && StrLt(b.0, c.0) {
        StrLtTransitive(a.0, b.0, c.0);
      }
    }
    forall a: (string, string), b: (string, string) | PairLe(a, b) && PairLe(b, a) ensures a == b {
      StrLtTrichotomy(a.0, b.0);
    }
  }

  /** `sorted(chr_pair_points.keys())` */
  function BatchKeys(hits: seq<Hit>): (keys: seq<(string, string)>)
    ensures StrictlySortedBy(keys, PairLe)
    ensures forall key :: key in keys <==> exists h :: h in hits && PairOf(h) == key
  {
    var pairs := seq(|hits|, i requires 0 <= i < |hits| => PairOf(hits[i]));
    PairLeTotalOrder();
    SortedSetSpec(pairs, PairLe);
    assert forall key :: key in pairs <==> exists h :: h in hits && PairOf(h) == key by {
      forall key ensures key in pairs <==> exists h :: h in hits && PairOf(h) == key {
        if key in pairs {
          var i :| 0 <= i < |pairs| && pairs[i] == key;
          assert hits[i] in hits;
        }
        if h :| h in hits && PairOf(h) == key {
          var i :| 0 <= i < |hits| && hits[i] == h;
          assert pairs[i] == key;
        }
      }
    }
    SortedSet(pairs, PairLe)
  }

  function Concat<T>(parts: seq<seq<T>>): seq<T>
  {
    if |parts| == 0 then [] else Concat(parts[..|parts| - 1]) + parts[|parts| - 1]
  }

  /** `clusters` is a result of synteny_scan on `pts` whose linkage groups are `groups`. */
  ghost predicate ScanOf(clusters: seq<seq<Point>>, groups: set<set<Point>>, pts: seq<Point>, xdist: int, ydist: int, n: int)
  {
    IsLinkageGroups(pts, xdist, ydist, groups) && IsSelection(groups, n, clusters)
  }

  /** Each `parts[j]` is a scan result on `inputs[j]` (stated part by part). */
  ghost predicate AllScanned(parts: seq<seq<seq<Point>>>, groups: seq<set<set<Point>>>, inputs: seq<seq<Point>>,
                             xdist: int, ydist: int, n: int)
    decreases |parts|
  {
    |parts| == |groups| == |inputs| &&
    (|parts| == 0 ||
     var last := |parts| - 1;
     AllScanned(parts[..last], groups[..last], inputs[..last], xdist, ydist, n) &&
     ScanOf(parts[last], groups[last], inputs[last], xdist, ydist, n))
  }

  lemma AllScannedSnoc(parts: seq<seq<seq<Point>>>, groups: seq<set<set<Point>>>, inputs: seq<seq<Point>>,
                        found: seq<seq<Point>>, linkage: set<set<Point>>, pts: seq<Point>,
                        xdist: int, ydist: int, n: int)
    requires AllScanned(parts, groups, inputs, xdist, ydist, n)
    requires ScanOf(found, linkage, pts, xdist, ydist, n)
    ensures AllScanned(parts + [found], groups + [linkage], inputs + [pts], xdist, ydist, n)
  {
    assert (parts + [found])[..|parts|] == parts;
    assert (groups + [linkage])[..|groups|] == groups;
    assert (inputs + [pts])[..|inputs|] == inputs;
  }

  lemma {:induction false} AllScannedAt(parts: seq<seq<seq<Point>>>, groups: seq<set<set<Point>>>, inputs: seq<seq<Point>>,
                                        xdist: int, ydist: int, n: int)
    requires AllScanned(parts, groups, inputs, xdist, ydist, n)
    ensures |parts| == |groups| == |inputs|
    ensures forall k :: 0 <= k < |parts| ==> ScanOf(parts[k], groups[k], inputs[k], xdist, ydist, n)
    decreases |parts|
  {
    if |parts| > 0 {
      var last := |parts| - 1;
      AllScannedAt(parts[..last], groups[..last], inputs[..last], xdist, ydist, n);
      forall k | 0 <= k < last
        ensures ScanOf(parts[k], groups[k], inputs[k], xdist, ydist, n)
      {
        assert parts[..last][k] == parts[k] && groups[..last][k] == groups[k] && inputs[..last][k] == inputs[k];
      }
    }
  }

  /**
   * `batch_scan(points, xdist, ydist, N)`: synteny_scan on the points of each
   * chromosome pair, pairs taken in sorted order, results concatenated.
   * `inputs[k]` is the point list of the `k`-th pair, `parts[k]` what the scan
   * of it returned and `groups[k]` its linkage groups.
   */
  method BatchScan(hits: seq<Hit>, xdist: int, ydist: int, n: int)
    returns (clusters: seq<seq<Point>>, ghost inputs: seq<seq<Point>>,
             ghost parts: seq<seq<seq<Point>>>, ghost groups: seq<set<set<Point>>>)
    ensures |inputs| == |parts| == |groups| == |BatchKeys(hits)|
    ensures forall k :: 0 <= k < |inputs| ==> inputs[k] == Collect(HitPairs(hits), BatchKeys(hits)[k])
    ensures forall k :: 0 <= k < |parts| ==> ScanOf(parts[k], groups[k], inputs[k], xdist, ydist, n)
    ensures clusters == Concat(parts)
  {
    var byPair := GroupHits(hits);
    var keys := BatchKeys(hits);
    forall k | 0 <= k < |keys| ensures keys[k] in byPair {
      assert keys[k] in keys;
    }
    clusters, inputs, parts, groups := ScanKeys(byPair, keys, xdist, ydist, n);
    AllScannedAt(parts, groups, inputs, xdist, ydist, n);
  }

  /** The loop of batch_scan: the scan of `byPair[keys[k]]` for each `k` in turn, concatenated. */
  method ScanKeys(byPair: map<(string, string), seq<Point>>, keys: seq<(string, string)>, xdist: int, ydist: int, n: int)
    returns (clusters: seq<seq<Point>>, ghost inputs: seq<seq<Point>>,
             ghost parts: seq<seq<seq<Point>>>, ghost groups: seq<set<set<Point>>>)
    requires forall k :: 0 <= k < |keys| ==> keys[k] in byPair
    ensures |inputs| == |keys| && forall k :: 0 <= k < |keys| ==> inputs[k] == byPair[keys[k]]
    ensures AllScanned(parts, groups, inputs, xdist, ydist, n)
    ensures clusters == Concat(parts)
  {
    clusters, inputs, parts, groups := [], [], [], [];
    var k := 0;
    while k < |keys|
      invariant 0 <= k <= |keys| && |inputs| == k
      invariant forall j :: 0 <= j < k ==> inputs[j] == byPair[keys[j]]
      invariant AllScanned(parts, groups, inputs, xdist, ydist, n)
      invariant clusters == Concat(parts)
    {
      var pts := byPair[keys[k]];
      var found;
      ghost var linkage;
      found, linkage := SyntenyScan(pts, xdist, ydist, n);
      AllScannedSnoc(parts, groups, inputs, found, linkage, pts, xdist, ydist, n);
      assert Concat(parts + [found]) == Concat(parts) + found by {
        assert (parts + [found])[..|parts|] == parts;
      }
      clusters := clusters + found;
      inputs := inputs + [pts];
      parts := parts + [found];
      groups := groups + [linkage];
      k := k + 1;
    }
  }

  // ---------------------------------------------------------------------
  // read_anchors
  // ---------------------------------------------------------------------

  /** What one line of an anchors file contributes. */
  datatype AnchorRow = Bad | Skip | Anchor(pair: (string, string), p: Point)

  /**
   * A comment line (`#` first) or a pair with an unmapped gene is skipped;
   * an empty line (`row[0]`) or a line that is not exactly two words
   * (`a, b = row.split()`) raises.
   */
  function ReadAnchorRow(row: string, qorder: map<string, Indexed>, sorder: map<string, Indexed>): (r: AnchorRow)
    ensures r.Bad? <==> |row| == 0 || (row[0] != '#' && |Words(row)| != 2)
    ensures r.Anchor? <==>
      |row| > 0 && row[0] != '#' && |Words(row)| == 2 && Words(row)[0] in qorder && Words(row)[1] in sorder
    ensures r.Anchor? ==>
      var q, s := qorder[Words(row)[0]], sorder[Words(row)[1]];
      r.pair == (q.line.seqid, s.line.seqid) && r.p == Point(q.index, s.index)
  {
    if |row| == 0 then Bad
    else if row[0] == '#' then Skip
    else
      var w := Words(row);
      if |w| != 2 then Bad
      else if w[0] !in qorder || w[1] !in sorder then Skip
      else
        var q, s := qorder[w[0]], sorder[w[1]];
        Anchor((q.line.seqid, s.line.seqid), Point(q.index, s.index))
  }

  /** The anchors the parsed lines give, in line order, or None when some line raised. */
  function AnchorsOf(parsed: seq<AnchorRow>): Option<seq<((string, string), Point)>>
  {
    if |parsed| == 0 then Some([])
    else
      var n := |parsed| - 1;
      match AnchorsOf(parsed[..n])
      case None => None
      case Some(prev) =>
        match parsed[n]
        case Bad => None
        case Skip => Some(prev)
        case Anchor(pair, p) => Some(prev + [(pair, p)])
  }

  lemma {:induction false} AnchorsOfFails(parsed: seq<AnchorRow>)
    ensures AnchorsOf(parsed).None? <==> exists i :: 0 <= i < |parsed| && parsed[i].Bad?
    decreases |parsed|
  {
    if |parsed| > 0 {
      var n := |parsed| - 1;
      var init := parsed[..n];
      AnchorsOfFails(init);
      if AnchorsOf(init).None? {
        var i :| 0 <= i < n && init[i].Bad?;
        assert parsed[i].Bad?;
      } else if !parsed[n].Bad? {
        forall i | 0 <= i < |parsed| ensures !parsed[i].Bad? {
          if i < n {
            assert init[i] == parsed[i];
          }
        }
      }
    }
  }

  lemma {:induction false} AnchorsOfSpec(parsed: seq<AnchorRow>)
    requires AnchorsOf(parsed).Some?
    ensures forall a :: a in AnchorsOf(parsed).value <==> exists i :: 0 <= i < |parsed| && parsed[i] == Anchor(a.0, a.1)
    ensures |AnchorsOf(parsed).value| <= |parsed|
    decreases |parsed|
  {
    if |parsed| > 0 {
      var n := |parsed| - 1;
      var init := parsed[..n];
      AnchorsOfSpec(init);
      var prev := AnchorsOf(init).value;
      var all := AnchorsOf(parsed).value;
      forall a ensures a in all <==> exists i :: 0 <= i < |parsed| && parsed[i] == Anchor(a.0, a.1) {
        if a in all && a in prev {
          var i :| 0 <= i < n && init[i] == Anchor(a.0, a.1);
          assert parsed[i] == Anchor(a.0, a.1);
        }
        if i :| 0 <= i < |parsed| && parsed[i] == Anchor(a.0, a.1) {
          if i < n {
            assert init[i] == Anchor(a.0, a.1);
          }
        }
      }
    }
  }

  /** Each line of `rows` parsed on its own. */
  function AnchorReads(rows: seq<string>, qorder: map<string, Indexed>, sorder: map<string, Indexed>): (r: seq<AnchorRow>)
    ensures |r| == |rows| && forall i :: 0 <= i < |rows| ==> r[i] == ReadAnchorRow(rows[i], qorder, sorder)
  {
    seq(|rows|, i requires 0 <= i < |rows| => ReadAnchorRow(rows[i], qorder, sorder))
  }

  /** The anchors of `rows` in file order, or None when some line raises. */
  function AnchorPairs(rows: seq<string>, qorder: map<string, Indexed>, sorder: map<string, Indexed>)
    : Option<seq<((string, string), Point)>>
  {
    AnchorsOf(AnchorReads(rows, qorder, sorder))
  }

  /** Reading fails exactly when some line raises. */
  lemma AnchorPairsFails(rows: seq<string>, qorder: map<string, Indexed>, sorder: map<string, Indexed>)
    ensures AnchorPairs(rows, qorder, sorder).None? <==>
      exists i :: 0 <= i < |rows| && ReadAnchorRow(rows[i], qorder, sorder).Bad?
  {
    AnchorsOfFails(AnchorReads(rows, qorder, sorder));
  }

  /** On success, the anchors are exactly the anchors the lines give, in line order. */
  lemma AnchorPairsSpec(rows: seq<string>, qorder: map<string, Indexed>, sorder: map<string, Indexed>)
    requires AnchorPairs(rows, qorder, sorder).Some?
    ensures forall a :: a in AnchorPairs(rows, qorder, sorder).value <==>
      exists i :: 0 <= i < |rows| && ReadAnchorRow(rows[i], qorder, sorder) == Anchor(a.0, a.1)
    ensures |AnchorPairs(rows, qorder, sorder).value| <= |rows|
  {
    AnchorsOfSpec(AnchorReads(rows, qorder, sorder));
  }

  /**
   * `read_anchors(anchor_file, qorder, sorder)`: the anchor points listed
   * under their chromosome pair in file order, or None when a line raises.
   */
  method ReadAnchors(rows: seq<string>, qorder: map<string, Indexed>, sorder: map<string, Indexed>)
    returns (r: Option<map<(string, string), seq<Point>>>)
    ensures r.Some? <==> AnchorPairs(rows, qorder, sorder).Some?
    ensures r.Some? ==> GroupsOf(r.value, AnchorPairs(rows, qorder, sorder).value)
  {
    var all: map<(string, string), seq<Point>> := map[];
    ghost var pairs: seq<((string, string), Point)> := [];
    ghost var parsed := AnchorReads(rows, qorder, sorder);
    var i := 0;
    while i < |rows|
      invariant 0 <= i <= |rows|
      invariant AnchorsOf(parsed[..i]) == Some(pairs)
      invariant GroupsOf(all, pairs)
    {
      assert parsed[..i + 1][..i] == parsed[..i];
      var line := ReadAnchorRow(rows[i], qorder, sorder);
      if line.Bad? {
        AnchorsOfFails(parsed);
        return None;
      }
      if line.Anchor? {
        AppendToGroups(all, pairs, line.pair, line.p);
        all := AppendTo(all, line.pair, line.p);
        pairs := pairs + [(line.pair, line.p)];
      }
      i := i + 1;
    }
    assert parsed[..i] == parsed;
    r := Some(all);
  }

  // ---------------------------------------------------------------------
  // synteny_liftover
  // ---------------------------------------------------------------------

  /** Some anchor lies at L1 distance below `dist` from the first two columns of `row`. */
  predicate NearAnchor(row: seq<int>, anchors: seq<Point>, dist: int)
    requires |row| >= 2
  {
    exists a :: a in anchors && Abs(row[0] - a.x) + Abs(row[1] - a.y) < dist
  }

  /**
   * `synteny_liftover(points, anchors, dist)`: the rows, whole and in input
   * order, whose first two columns have an anchor within `dist`.
   */
  function Liftover(rows: seq<seq<int>>, anchors: seq<Point>, dist: int): (r: seq<seq<int>>)
    requires forall k :: 0 <= k < |rows| ==> |rows[k]| >= 2
    ensures IsSubseq(r, rows)
    ensures forall row :: row in r <==> row in rows && NearAnchor(row, anchors, dist)
    decreases |rows|
  {
    if |rows| == 0 then []
    else
      var n := |rows| - 1;
      var prev := Liftover(rows[..n], anchors, dist);
      assert rows == rows[..n] + [rows[n]];
      if NearAnchor(rows[n], anchors, dist) then
        IsSubseqAppend(prev, rows[..n], rows[n]);
        prev + [rows[n]]
      else
        IsSubseqExtend(prev, rows[..n], rows[n]);
        prev
  }

  // ---------------------------------------------------------------------
  // get_blocks
  // ---------------------------------------------------------------------

  /** The point of one feature: its gene's order index against its midpoint (floor division). */
  function FeaturePoint(b: BedLine, order: map<string, Indexed>): Option<Point>
  {
    var accn := BeforeLast(b.accn, '.');
    if accn in order then Some(Point(order[accn].index, (b.start + b.end) / 2)) else None
  }

  /** The points get_blocks collects, in feature order. */
  function BlockPoints(bs: seq<BedLine>, order: map<string, Indexed>): seq<Point>
  {
    if |bs| == 0 then []
    else
      var n := |bs| - 1;
      var prev := BlockPoints(bs[..n], order);
      match FeaturePoint(bs[n], order)
      case None => prev
      case Some(p) => prev + [p]
  }

  /** Features whose accession (version suffix dropped) is unknown contribute nothing; every other one its point. */
  lemma {:induction false} BlockPointsSpec(bs: seq<BedLine>, order: map<string, Indexed>)
    ensures |BlockPoints(bs, order)| <= |bs|
    ensures forall p :: p in BlockPoints(bs, order) <==>
      exists k :: 0 <= k < |bs| && FeaturePoint(bs[k], order) == Some(p)
    decreases |bs|
  {
    if |bs| > 0 {
      var n := |bs| - 1;
      BlockPointsSpec(bs[..n], order);
      assert forall k :: 0 <= k < n ==> bs[..n][k] == bs[k];
      var prev := BlockPoints(bs[..n], order);
      forall p ensures p in BlockPoints(bs, order) <==> exists k :: 0 <= k < |bs| && FeaturePoint(bs[k], order) == Some(p) {
        if p in prev {
          var k :| 0 <= k < n && FeaturePoint(bs[..n][k], order) == Some(p);
          assert FeaturePoint(bs[k], order) == Some(p);
        }
        if k :| 0 <= k < |bs| && FeaturePoint(bs[k], order) == Some(p) {
          if k < n {
            assert FeaturePoint(bs[..n][k], order) == Some(p);
          }
        }
      }
    }
  }

  /**
   * `get_blocks(scaffold, bs, order, xdist, ydist, N)`: synteny_scan on the
   * points of the features (`scaffold` only names them and is not used).
   */
  method GetBlocks(bs: seq<BedLine>, order: map<string, Indexed>, xdist: int, ydist: int, n: int)
    returns (blocks: seq<seq<Point>>, ghost groups: set<set<Point>>)
    ensures ScanOf(blocks, groups, BlockPoints(bs, order), xdist, ydist, n)
  {
    var points: seq<Point> := [];
    var i := 0;
    while i < |bs|
      invariant 0 <= i <= |bs|
      invariant points == BlockPoints(bs[..i], order)
    {
      assert bs[..i + 1][..i] == bs[..i];
      var accn := BeforeLast(bs[i].accn, '.');
      if accn in order {
        var x := order[accn].index;
        var y := (bs[i].start + bs[i].end) / 2;
        points := points + [Point(x, y)];
      }
      i := i + 1;
    }
    assert bs[..i] == bs;
    blocks, groups := SyntenyScan(points, xdist, ydist, n);
  }
}
