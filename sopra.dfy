/**
 * The mate-pair linking rules of assembly/sopra.py: a ContigLink between
 * two mapped mates is brought to the "innie" strand layout, rejected when
 * the hangs beyond the two mates exceed the cutoff, and otherwise given an
 * orientation (from the "-" suffix of the contig names) and a gap distance;
 * links are bundled per contig pair by majority orientation; a solved
 * component is laid out on integer coordinates.
 *
 * The mates carry a strand, which the bed record of formats/bed.py does not:
 * they get their own record here. `reverse_complement` (jcvi.formats.bed,
 * not part of this model) is a parameter `rc` with nothing known about it.
 */
module Sopra {
  import opened Util

  /** A mapped mate read: sequence name, 1-based start, end, strand. */
  datatype Mate = Mate(seqid: string, start: int, end: int, strand: string)

  /** The end of a run of ContigLink.flip_innie: an exception, a rejected link, or a link. */
  datatype Outcome = Failed | Rejected | Linked

  /**
   * `get_orientation(aseqid, bseqid)`: "-" for a name ending in "-", "+"
   * otherwise, for each name; an empty name has no `[-1]` (None).
   */
  function GetOrientation(aseqid: string, bseqid: string): (r: Option<string>)
    ensures r.Some? <==> |aseqid| > 0 && |bseqid| > 0
    ensures r.Some? ==> r.value in {"++", "--", "+-", "-+"}
    ensures r.Some? ==> |r.value| == 2
    ensures r.Some? ==> (r.value[0] == '-' <==> aseqid[|aseqid| - 1] == '-')
    ensures r.Some? ==> (r.value[1] == '-' <==> bseqid[|bseqid| - 1] == '-')
  {
    if |aseqid| == 0 || |bseqid| == 0 then None
    else
      var ta := if aseqid[|aseqid| - 1] == '-' then '-' else '+';
      var tb := if bseqid[|bseqid| - 1] == '-' then '-' else '+';
      Some([ta, tb])
  }

  /**
   * The gap implied by the mates for each orientation, from the mates'
   * 0-based starts `pa`, `pb` and ends `ea`, `eb`.
   */
  function Distance(pair: string, insert: int, pa: int, pb: int, ea: int, eb: int): int
  {
    if pair == "++" then insert + pa - eb
    else if pair == "--" then insert - ea + pb
    else if pair == "+-" then insert + pa + pb
    else insert - ea - eb
  }

  /** The two records after the first flip, and the local roles they play next. */
  datatype Stage = Stage(x: Mate, y: Mate, swapped: bool, pa: int, pb: int, ea: int, eb: int)
  {
    /** The local `a` after the swap. */
    function A(): Mate { if swapped then y else x }
    /** The local `b` after the swap. */
    function B(): Mate { if swapped then x else y }
  }

  /**
   * The first half of flip_innie: mates on one strand get one of them
   * reverse-complemented (`b` on "++", `a` on "--"); then, if `b` is on "+",
   * the locals and their coordinates swap. `x` and `y` are the records
   * `self.a` and `self.b`, changed in place.
   */
  function FirstFlip(a: Mate, b: Mate, rc: Mate -> Mate): (s: Stage)
    ensures s.swapped ==> s.pa == b.start - 1 && s.pb == a.start - 1 && s.ea == b.end && s.eb == a.end
    ensures !s.swapped ==> s.pa == a.start - 1 && s.pb == b.start - 1 && s.ea == a.end && s.eb == b.end
  {
    var x := if a.strand == b.strand && b.strand != "+" then rc(a) else a;
    var y := if a.strand == b.strand && b.strand == "+" then rc(b) else b;
    if y.strand == "+" then Stage(x, y, true, b.start - 1, a.start - 1, b.end, a.end)
    else Stage(x, y, false, a.start - 1, b.start - 1, a.end, b.end)
  }

  /** `reverse_complement` turns the strand of these records, as flip_innie expects. */
  predicate TurnsStrand(rc: Mate -> Mate, m: Mate)
  {
    (m.strand == "+" ==> rc(m).strand == "-") && (m.strand == "-" ==> rc(m).strand == "+")
  }

  /**
   * The assertion after the flips holds: when both strands are "+" or "-"
   * and `rc` turns the strand, the local `a` is on "+" and `b` on "-".
   */
  lemma InnieAfterFlip(a: Mate, b: Mate, rc: Mate -> Mate)
    requires a.strand in {"+", "-"} && b.strand in {"+", "-"}
    requires TurnsStrand(rc, a) && TurnsStrand(rc, b)
    ensures FirstFlip(a, b, rc).A().strand == "+" && FirstFlip(a, b, rc).B().strand == "-"
  {
  }

  /** What flip_innie leaves behind: the outcome, `self.a`, `self.b`, and the distance and orientation it set. */
  datatype FlipResult = FlipResult(outcome: Outcome, a: Mate, b: Mate, distance: Option<int>, orientation: Option<string>)

  /** The hang of `a` beyond its mate (contig size from `sizes`) plus that of `b`; None when the size is unknown. */
  function Hangs(a: Mate, b: Mate, sizes: map<string, int>): Option<int>
  {
    var aseqid := RStripChar(a.seqid, '-');
    if aseqid in sizes then Some(sizes[aseqid] - a.start + 1 + b.end) else None
  }

  /** flip_innie on the pair `(a, b)`, with the link's `insert` and `cutoff`. */
  function Flipped(a: Mate, b: Mate, insert: int, cutoff: int, sizes: map<string, int>, rc: Mate -> Mate): FlipResult
  {
    var s := FirstFlip(a, b, rc);
    var la, lb := s.A(), s.B();
    if !(la.strand == "+" && lb.strand == "-") then FlipResult(Failed, s.x, s.y, None, None)
    else match Hangs(la, lb, sizes)
      case None => FlipResult(Failed, s.x, s.y, None, None)
      case Some(hangs) =>
        if hangs > cutoff then FlipResult(Rejected, s.x, s.y, None, None)
        else match GetOrientation(la.seqid, lb.seqid)
          case None => FlipResult(Failed, s.x, s.y, None, None)
          case Some(pair) =>
            var d := Distance(pair, insert, s.pa, s.pb, s.ea, s.eb);
            var swap := StrLt(lb.seqid, la.seqid);
            var fa, fb := if swap then rc(lb) else la, if swap then rc(la) else lb;
            match GetOrientation(fa.seqid, fb.seqid)
            case None => FlipResult(Failed, fa, fb, Some(d), None)
            case Some(o) => FlipResult(Linked, fa, fb, Some(d), Some(o))
  }

  /** A link is rejected exactly when the flips succeed, the contig size is known and the hangs exceed the cutoff. */
  lemma FlipRejects(a: Mate, b: Mate, insert: int, cutoff: int, sizes: map<string, int>, rc: Mate -> Mate)
    ensures Flipped(a, b, insert, cutoff, sizes, rc).outcome == Rejected <==>
      var s := FirstFlip(a, b, rc);
      && s.A().strand == "+" && s.B().strand == "-"
      && Hangs(s.A(), s.B(), sizes).Some? && Hangs(s.A(), s.B(), sizes).value > cutoff
  {
  }

  /**
   * A kept link has the hangs within the cutoff, an orientation that is one
   * of the four, and the distance of the orientation read from the names.
   */
  lemma FlipLinked(a: Mate, b: Mate, insert: int, cutoff: int, sizes: map<string, int>, rc: Mate -> Mate)
    requires Flipped(a, b, insert, cutoff, sizes, rc).outcome == Linked
    ensures var s := FirstFlip(a, b, rc);
      var r := Flipped(a, b, insert, cutoff, sizes, rc);
      && Hangs(s.A(), s.B(), sizes).Some? && Hangs(s.A(), s.B(), sizes).value <= cutoff
      && GetOrientation(s.A().seqid, s.B().seqid).Some?
      && r.distance == Some(Distance(GetOrientation(s.A().seqid, s.B().seqid).value, insert, s.pa, s.pb, s.ea, s.eb))
      && r.orientation.Some? && r.orientation.value in {"++", "--", "+-", "-+"}
      && r.orientation == GetOrientation(r.a.seqid, r.b.seqid)
  {
  }

  /** On an innie pair ("+-") no flip happens and the distance is `insert + Pa + Pb`. */
  lemma InnieDistance(a: Mate, b: Mate, insert: int, cutoff: int, sizes: map<string, int>, rc: Mate -> Mate)
    requires a.strand == "+" && b.strand == "-"
    requires Flipped(a, b, insert, cutoff, sizes, rc).outcome == Linked
    requires GetOrientation(a.seqid, b.seqid) == Some("+-")
    ensures Flipped(a, b, insert, cutoff, sizes, rc).distance == Some(insert + (a.start - 1) + (b.start - 1))
  {
  }

  /**
   * The steps of flip_innie on the pair `(a, b)`: what it leaves in
   * `self.a` and `self.b` and what it sets.
   */
  method FlipPair(a: Mate, b: Mate, insert: int, cutoff: int, sizes: map<string, int>, rc: Mate -> Mate)
    returns (r: FlipResult)
    ensures r == Flipped(a, b, insert, cutoff, sizes, rc)
  {
    var x, y := a, b;
    var pa, pb := x.start - 1, y.start - 1;
    var ea, eb := x.end, y.end;
    if x.strand == y.strand {
      if y.strand == "+" {
        y := rc(y);
      } else {
        x := rc(x);
      }
    }
    var la, lb := x, y;
    if lb.strand == "+" {
      la, lb := lb, la;
      pa, pb := pb, pa;
      ea, eb := eb, ea;
    }
    ghost var s := FirstFlip(a, b, rc);
    assert s.x == x && s.y == y && s.A() == la && s.B() == lb;
    assert s.pa == pa && s.pb == pb && s.ea == ea && s.eb == eb;
    if !(la.strand == "+" && lb.strand == "-") {
      return FlipResult(Failed, x, y, None, None);
    }
    var aseqid := RStripChar(la.seqid, '-');
    if aseqid !in sizes {
      return FlipResult(Failed, x, y, None, None);
    }
    var ahang := sizes[aseqid] - la.start + 1;
    var bhang := lb.end;
    if ahang + bhang > cutoff {
      return FlipResult(Rejected, x, y, None, None);
    }
    var pair := GetOrientation(la.seqid, lb.seqid);
    if pair.None? {
      return FlipResult(Failed, x, y, None, None);
    }
    var d := Distance(pair.value, insert, pa, pb, ea, eb);
    if StrLt(lb.seqid, la.seqid) {
      la, lb := rc(lb), rc(la);
    }
    var o := GetOrientation(la.seqid, lb.seqid);
    if o.None? {
      return FlipResult(Failed, la, lb, Some(d), None);
    }
    return FlipResult(Linked, la, lb, Some(d), o);
  }

  /** A link between two mapped mates (`ContigLink`). */
  class ContigLink {
    var a: Mate
    var b: Mate
    const insert: int
    const cutoff: int
    var distance: Option<int>
    var orientation: Option<string>

    ghost predicate Valid()
      reads this
    {
      insert > 0 && cutoff > insert
    }

    /** `ContigLink(a, b, insert, cutoff)`: the insert must be positive and below the cutoff. */
    constructor (a: Mate, b: Mate, insert: int, cutoff: int)
      requires insert > 0 && cutoff > insert
      ensures Valid()
      ensures this.a == a && this.b == b && this.insert == insert && this.cutoff == cutoff
      ensures distance.None? && orientation.None?
    {
      this.a, this.b := a, b;
      this.insert, this.cutoff := insert, cutoff;
      distance, orientation := None, None;
    }

    /**
     * `flip_innie(sizes)`: brings the pair to "+-", rejects it when the hangs
     * exceed the cutoff, else sets distance and orientation with the pair
     * in canonical name order. The records are changed in place, so even
     * a rejected or failed run may leave `a` or `b` reverse-complemented.
     */
    method FlipInnie(sizes: map<string, int>, rc: Mate -> Mate) returns (outcome: Outcome)
      modifies this
      ensures var r := Flipped(old(a), old(b), insert, cutoff, sizes, rc);
        && outcome == r.outcome && a == r.a && b == r.b
        && distance == (if r.distance.Some? then r.distance else old(distance))
        && orientation == (if r.orientation.Some? then r.orientation else old(orientation))
    {
      var r := FlipPair(a, b, insert, cutoff, sizes, rc);
      a, b := r.a, r.b;
      if r.distance.Some? {
        distance := r.distance;
      }
      if r.orientation.Some? {
        orientation := r.orientation;
      }
      outcome := r.outcome;
    }

    /** `str(link)`: the names without trailing "-", orientation, insert and distance, tab-separated. */
    function Str(): (r: Option<string>)
      reads this
      ensures r.Some? <==> distance.Some? && orientation.Some?
    {
      if distance.None? || orientation.None? then None
      else Some(Join(LinkFields(a.seqid, b.seqid, orientation.value, insert, distance.value), '\t'))
    }
  }

  /**
   * `ContigLink(a, b, insert, cutoff)` called with any values: the two
   * assertions of the constructor raise (None) unless the insert is positive
   * and below the cutoff.
   */
  method NewContigLink(a: Mate, b: Mate, insert: int, cutoff: int) returns (link: Option<ContigLink>)
    ensures link.Some? <==> insert > 0 && cutoff > insert
    ensures link.Some? ==>
      && fresh(link.value) && link.value.Valid()
      && link.value.a == a && link.value.b == b
      && link.value.insert == insert && link.value.cutoff == cutoff
      && link.value.distance.None? && link.value.orientation.None?
  {
    if insert <= 0 || cutoff <= insert {
      return None;
    }
    var c := new ContigLink(a, b, insert, cutoff);
    link := Some(c);
  }

  function LinkFields(aseqid: string, bseqid: string, orientation: string, insert: int, distance: int): seq<string>
  {
    [RStripChar(aseqid, '-'), RStripChar(bseqid, '-'), orientation, IntToString(insert), IntToString(distance)]
  }

  /** Reading a printed link back by tabs gives the names (suffix dropped), orientation, insert and distance. */
  lemma LinkRoundTrip(aseqid: string, bseqid: string, orientation: string, insert: int, distance: int)
    requires NoChar(aseqid, '\t') && NoChar(bseqid, '\t') && NoChar(orientation, '\t')
    ensures var f := Split(Join(LinkFields(aseqid, bseqid, orientation, insert, distance), '\t'), '\t');
      && |f| == 5
      && f[0] == RStripChar(aseqid, '-') && f[1] == RStripChar(bseqid, '-') && f[2] == orientation
      && ParseInt(f[3]) == Some(insert) && ParseInt(f[4]) == Some(distance)
  {
    var fields := LinkFields(aseqid, bseqid, orientation, insert, distance);
    forall i | 0 <= i < 5 ensures NoChar(fields[i], '\t') {
      if i == 3 || i == 4 {
        var s := if i == 3 then IntToString(insert) else IntToString(distance);
        assert forall k :: 0 <= k < |s| ==> s[k] == '-' || IsDigit(s[k]);
      }
    }
    SplitJoin(fields, '\t');
    ParseIntToString(insert);
    ParseIntToString(distance);
  }

  // ---------------------------------------------------------------------
  // bundle
  // ---------------------------------------------------------------------

  /** A line of a links file: mate name, the two contigs, orientation, insert and distance. */
  datatype LinkLine = LinkLine(mate: string, aseqid: string, bseqid: string, orientation: string, insert: int, distance: int)

  /** `LinkLine(row)`: the first six words; fewer words or a non-integer insert or distance raise (None). */
  function ParseLinkLine(row: string): (r: Option<LinkLine>)
    ensures r.Some? <==> |Words(row)| >= 6 && ParseInt(Words(row)[4]).Some? && ParseInt(Words(row)[5]).Some?
    ensures r.Some? ==> var w := Words(row);
      r.value == LinkLine(w[0], w[1], w[2], w[3], ParseInt(w[4]).value, ParseInt(w[5]).value)
  {
    var w := Words(row);
    if |w| < 6 then None
    else match (ParseInt(w[4]), ParseInt(w[5]))
      case (Some(i), Some(d)) => Some(LinkLine(w[0], w[1], w[2], w[3], i, d))
      case _ => None
  }

  /** Each link as its contig pair with its orientation and distance. */
  function LinkPairs(lines: seq<LinkLine>): (r: seq<((string, string), (string, int))>)
    ensures |r| == |lines|
    ensures forall i :: 0 <= i < |r| ==> r[i] == ((lines[i].aseqid, lines[i].bseqid), (lines[i].orientation, lines[i].distance))
  {
    seq(|lines|, i requires 0 <= i < |lines| => ((lines[i].aseqid, lines[i].bseqid), (lines[i].orientation, lines[i].distance)))
  }

  /** `o` is an orientation observed most often (ties: any of the most frequent). */
  ghost predicate IsMajority(obs: seq<(string, int)>, o: string)
  {
    (exists k :: 0 <= k < |obs| && obs[k].0 == o) && forall o' :: |Collect(obs, o')| <= |Collect(obs, o)|
  }

  /**
   * `max(m.items(), key=lambda x: len(x[1]))` over the observations of one
   * pair grouped by orientation: a most frequent orientation and its
   * distances in input order. Which of several equally frequent ones comes
   * first depends on dictionary order and is left open.
   */
  method Majority(obs: seq<(string, int)>) returns (o: string, ds: seq<int>)
    requires |obs| > 0
    ensures IsMajority(obs, o)
    ensures ds == Collect(obs, o)
  {
    var m := GroupPairs(obs);
    assert obs[0].0 in m;
    o := obs[0].0;
    var todo := m.Keys - {o};
    while todo != {}
      invariant o in m && todo <= m.Keys
      invariant forall k :: k in m && k !in todo ==> |m[k]| <= |m[o]|
      decreases |todo|
    {
      var k :| k in todo;
      if |m[k]| > |m[o]| {
        o := k;
      }
      todo := todo - {k};
    }
    ds := m[o];
    assert m[o] != [] && ds[0] in ds;
    forall o' ensures |Collect(obs, o')| <= |Collect(obs, o)| {
      if o' !in m {
        assert forall k :: 0 <= k < |obs| ==> obs[k].0 != o';
      }
    }
  }

  /** An edge of the bundle: how many mates, their orientation and their distances (whose median the source prints). */
  datatype Bundled = Bundled(mates: nat, orientation: string, distances: seq<int>)

  /** The observations of one contig pair, in input order. */
  function Observations(lines: seq<LinkLine>, pair: (string, string)): seq<(string, int)>
  {
    Collect(LinkPairs(lines), pair)
  }

  /** What bundle keeps for a pair: a majority orientation, its distances, and at least `minLinks` of them. */
  ghost predicate BundledFrom(obs: seq<(string, int)>, e: Bundled, minLinks: int)
  {
    IsMajority(obs, e.orientation) && e.distances == Collect(obs, e.orientation) &&
    e.mates == |e.distances| && e.mates >= minLinks
  }

  lemma MajorityCount(obs: seq<(string, int)>, o: string, minLinks: int)
    requires IsMajority(obs, o)
    ensures |Collect(obs, o)| >= minLinks <==> exists o' :: |Collect(obs, o')| >= minLinks
  {
  }

  /** Some link joins the contig pair. */
  ghost predicate Occurs(lines: seq<LinkLine>, pair: (string, string))
  {
    exists i :: 0 <= i < |lines| && (lines[i].aseqid, lines[i].bseqid) == pair
  }

  /** Some orientation of the pair is seen at least `minLinks` times. */
  ghost predicate Frequent(lines: seq<LinkLine>, pair: (string, string), minLinks: int)
  {
    exists o :: |Collect(Observations(lines, pair), o)| >= minLinks
  }

  /** The grouped links have exactly the joined contig pairs as keys. */
  lemma GraphKeys(lines: seq<LinkLine>, graph: map<(string, string), seq<(string, int)>>)
    requires GroupsOf(graph, LinkPairs(lines))
    ensures forall pair :: pair in graph <==> Occurs(lines, pair)
  {
    var pairs := LinkPairs(lines);
    forall pair ensures pair in graph <==> Occurs(lines, pair) {
      if pair in graph {
        assert graph[pair] == Collect(pairs, pair) && graph[pair] != [];
        var ob := graph[pair][0];
        assert ob in Collect(pairs, pair);
        var k :| 0 <= k < |pairs| && pairs[k].0 == pair && pairs[k].1 == ob;
        assert (lines[k].aseqid, lines[k].bseqid) == pair;
      }
      if Occurs(lines, pair) {
        var k :| 0 <= k < |lines| && (lines[k].aseqid, lines[k].bseqid) == pair;
        assert pairs[k].0 == pair;
      }
    }
  }

  /** The first loop of `bundle`: the links' observations grouped by contig pair, in input order. */
  method GroupLinks(lines: seq<LinkLine>) returns (graph: map<(string, string), seq<(string, int)>>)
    ensures GroupsOf(graph, LinkPairs(lines))
    ensures forall pair :: pair in graph <==> Occurs(lines, pair)
  {
    graph := GroupPairs(LinkPairs(lines));
    GraphKeys(lines, graph);
  }

  /** The second loop of `bundle`: each pair's majority orientation, kept when it has `minLinks` mates. */
  method BundleGraph(lines: seq<LinkLine>, graph: map<(string, string), seq<(string, int)>>, minLinks: int)
    returns (edges: map<(string, string), Bundled>)
    requires forall pair :: pair in graph ==> graph[pair] == Observations(lines, pair) && graph[pair] != []
    ensures forall pair :: pair in edges ==> BundledFrom(Observations(lines, pair), edges[pair], minLinks)
    ensures forall pair :: pair in edges <==> pair in graph && Frequent(lines, pair, minLinks)
  {
    edges := map[];
    var todo := graph.Keys;
    while todo != {}
      invariant todo <= graph.Keys
      invariant forall pair :: pair in edges ==> pair in graph && pair !in todo
      invariant forall pair :: pair in edges ==> BundledFrom(Observations(lines, pair), edges[pair], minLinks)
      invariant forall pair :: pair in graph && pair !in todo ==> (pair in edges <==> Frequent(lines, pair, minLinks))
      decreases |todo|
    {
      var pair :| pair in todo;
      var obs := graph[pair];
      assert obs == Observations(lines, pair);
      var o, ds := Majority(obs);
      MajorityCount(obs, o, minLinks);
      if |ds| >= minLinks {
        edges := edges[pair := Bundled(|ds|, o, ds)];
      }
      todo := todo - {pair};
    }
  }

  /**
   * `bundle`: per contig pair, the most frequent orientation and its
   * distances; a pair whose count is below `minLinks` (`--links`) is dropped.
   */
  method Bundle(lines: seq<LinkLine>, minLinks: int) returns (edges: map<(string, string), Bundled>)
    ensures forall pair :: pair in edges ==> BundledFrom(Observations(lines, pair), edges[pair], minLinks)
    ensures forall pair :: pair in edges <==> Occurs(lines, pair) && Frequent(lines, pair, minLinks)
  {
    var graph := GroupLinks(lines);
    edges := BundleGraph(lines, graph, minLinks);
  }

  // ---------------------------------------------------------------------
  // solve_component and get_bname
  // ---------------------------------------------------------------------

  /** An edge of a connected component: two contigs with the link's orientation and distance. */
  datatype GraphEdge = GraphEdge(a: string, b: string, orientation: string, distance: int)

  predicate Distinct(nodes: seq<string>)
  {
    forall i, j :: 0 <= i < j < |nodes| ==> nodes[i] != nodes[j]
  }

  /** `inodes[x]`: the position of `x` among the (distinct) nodes. */
  function IndexOf(nodes: seq<string>, x: string): (i: nat)
    requires x in nodes
    ensures i < |nodes| && nodes[i] == x
  {
    if nodes[0] == x then 0 else 1 + IndexOf(nodes[1..], x)
  }

  /** The endpoints of an edge as node indices, low one first. */
  function Ends(nodes: seq<string>, e: GraphEdge): (r: (nat, nat))
    requires e.a in nodes && e.b in nodes
    ensures r.0 <= r.1 < |nodes|
    ensures (nodes[r.0], nodes[r.1]) == (e.a, e.b) || (nodes[r.0], nodes[r.1]) == (e.b, e.a)
  {
    var i, j := IndexOf(nodes, e.a), IndexOf(nodes, e.b);
    if i > j then (j, i) else (i, j)
  }

  /** A sign edge of `ledges`: endpoints and '+' when the orientation's two characters agree. */
  function SignEdge(nodes: seq<string>, e: GraphEdge): (r: Option<(nat, nat, char)>)
    requires e.a in nodes && e.b in nodes
    ensures r.Some? <==> |e.orientation| >= 2
    ensures r.Some? ==> (r.value.0, r.value.1) == Ends(nodes, e)
    ensures r.Some? ==> (r.value.2 == '+' <==> e.orientation[0] == e.orientation[1]) && r.value.2 in {'+', '-'}
  {
    if |e.orientation| < 2 then None
    else
      var (i, j) := Ends(nodes, e);
      Some((i, j, if e.orientation[0] == e.orientation[1] then '+' else '-'))
  }

  /** Both endpoints of every edge are nodes of the component. */
  predicate EdgesIn(nodes: seq<string>, edges: seq<GraphEdge>)
  {
    forall k :: 0 <= k < |edges| ==> edges[k].a in nodes && edges[k].b in nodes
  }

  /** The first loop of solve_component: `ledges`, or None when an orientation is too short to index. */
  method SignEdges(nodes: seq<string>, edges: seq<GraphEdge>) returns (ledges: Option<seq<(nat, nat, char)>>)
    requires Distinct(nodes) && EdgesIn(nodes, edges)
    ensures ledges.Some? <==> forall k :: 0 <= k < |edges| ==> |edges[k].orientation| >= 2
    ensures ledges.Some? ==> |ledges.value| == |edges|
    ensures ledges.Some? ==> forall k :: 0 <= k < |edges| ==> Some(ledges.value[k]) == SignEdge(nodes, edges[k])
  {
    var out: seq<(nat, nat, char)> := [];
    var k := 0;
    while k < |edges|
      invariant 0 <= k <= |edges| && |out| == k
      invariant forall j :: 0 <= j < k ==> |edges[j].orientation| >= 2 && Some(out[j]) == SignEdge(nodes, edges[j])
    {
      var e := edges[k];
      if |e.orientation| < 2 {
        return None;
      }
      var i, j := IndexOf(nodes, e.a), IndexOf(nodes, e.b);
      if i > j {
        i, j := j, i;
      }
      out := out + [(i, j, if e.orientation[0] == e.orientation[1] then '+' else '-')];
      k := k + 1;
    }
    ledges := Some(out);
  }

  /** What the second loop does with one edge. */
  datatype Placed = Missing | Skipped | Kept(a: nat, b: nat, distance: int)

  /**
   * A distance edge of `dedges`: the strands of the solved signs make a
   * pair; an edge whose orientation is the flipped pair keeps its distance
   * negated, one equal to the pair keeps it, any other is skipped. An
   * orientation missing from `flips` (`orientationflips`, not part of this
   * model) raises.
   */
  function DistanceEdge(nodes: seq<string>, e: GraphEdge, signs: seq<int>, flips: map<string, string>): (r: Placed)
    requires e.a in nodes && e.b in nodes && |signs| == |nodes|
    ensures r.Missing? <==> e.orientation !in flips
    ensures r.Kept? ==> (r.a, r.b) == Ends(nodes, e) && (r.distance == e.distance || r.distance == -e.distance)
  {
    var (i, j) := Ends(nodes, e);
    var pair := [if signs[i] > 0 then '+' else '-', if signs[j] > 0 then '+' else '-'];
    if e.orientation !in flips then Missing
    else if flips[e.orientation] == pair then Kept(i, j, -e.distance)
    else if e.orientation != pair then Skipped
    else Kept(i, j, e.distance)
  }

  /** How each edge is placed, in order. */
  function EdgePlacements(nodes: seq<string>, edges: seq<GraphEdge>, signs: seq<int>, flips: map<string, string>): (r: seq<Placed>)
    requires EdgesIn(nodes, edges) && |signs| == |nodes|
    ensures |r| == |edges| && forall k :: 0 <= k < |edges| ==> r[k] == DistanceEdge(nodes, edges[k], signs, flips)
  {
    seq(|edges|, k requires 0 <= k < |edges| => DistanceEdge(nodes, edges[k], signs, flips))
  }

  /** The distance edges of the kept placements, in order. */
  function KeptOf(ps: seq<Placed>): (r: seq<(nat, nat, int)>)
    ensures |r| <= |ps|
  {
    if |ps| == 0 then []
    else
      var n := |ps| - 1;
      KeptOf(ps[..n]) + if ps[n].Kept? then [(ps[n].a, ps[n].b, ps[n].distance)] else []
  }

  lemma KeptOfSnoc(ps: seq<Placed>, k: nat)
    requires k < |ps|
    ensures KeptOf(ps[..k + 1]) == KeptOf(ps[..k]) + if ps[k].Kept? then [(ps[k].a, ps[k].b, ps[k].distance)] else []
  {
    assert ps[..k + 1][..k] == ps[..k];
  }

  /** A distance edge is kept exactly when some placement keeps it. */
  lemma {:induction false} KeptOfMembers(ps: seq<Placed>)
    ensures forall t :: t in KeptOf(ps) <==> exists k :: 0 <= k < |ps| && ps[k] == Kept(t.0, t.1, t.2)
    decreases |ps|
  {
    if |ps| > 0 {
      var n := |ps| - 1;
      KeptOfMembers(ps[..n]);
      assert forall k :: 0 <= k < n ==> ps[..n][k] == ps[k];
    }
  }

  /** The `dedges` of the edges, in order: the kept ones only. */
  function KeptEdges(nodes: seq<string>, edges: seq<GraphEdge>, signs: seq<int>, flips: map<string, string>): (r: seq<(nat, nat, int)>)
    requires EdgesIn(nodes, edges) && |signs| == |nodes|
  {
    KeptOf(EdgePlacements(nodes, edges, signs, flips))
  }

  /** A distance edge is kept exactly when some edge places to it, whatever its sign; the endpoints are ordered. */
  lemma KeptEdgesSpec(nodes: seq<string>, edges: seq<GraphEdge>, signs: seq<int>, flips: map<string, string>)
    requires EdgesIn(nodes, edges) && |signs| == |nodes|
    ensures forall t :: t in KeptEdges(nodes, edges, signs, flips) <==>
      exists k :: 0 <= k < |edges| && DistanceEdge(nodes, edges[k], signs, flips) == Kept(t.0, t.1, t.2)
    ensures forall t :: t in KeptEdges(nodes, edges, signs, flips) ==> t.0 <= t.1 < |nodes|
  {
    var ps := EdgePlacements(nodes, edges, signs, flips);
    KeptOfMembers(ps);
    forall t | t in KeptOf(ps)
      ensures t.0 <= t.1 < |nodes|
    {
      var k :| 0 <= k < |ps| && ps[k] == Kept(t.0, t.1, t.2);
      assert (t.0, t.1) == Ends(nodes, edges[k]);
    }
  }

  /**
   * The second loop of solve_component, given the solved `signs`: the kept
   * distance edges in order, or None when an orientation is not in `flips`.
   */
  method DistanceEdges(nodes: seq<string>, edges: seq<GraphEdge>, signs: seq<int>, flips: map<string, string>)
    returns (dedges: Option<seq<(nat, nat, int)>>)
    requires EdgesIn(nodes, edges) && |signs| == |nodes|
    ensures dedges.Some? <==> forall k :: 0 <= k < |edges| ==> edges[k].orientation in flips
    ensures dedges.Some? ==> dedges.value == KeptEdges(nodes, edges, signs, flips)
  {
    ghost var ps := EdgePlacements(nodes, edges, signs, flips);
    var out: seq<(nat, nat, int)> := [];
    var k := 0;
    while k < |edges|
      invariant 0 <= k <= |edges|
      invariant forall j :: 0 <= j < k ==> edges[j].orientation in flips
      invariant out == KeptOf(ps[..k])
    {
      var placed := PlaceEdge(nodes, edges[k], signs, flips);
      assert ps[k] == placed;
      if placed.Missing? {
        return None;
      }
      KeptOfSnoc(ps, k);
      if placed.Kept? {
        out := out + [(placed.a, placed.b, placed.distance)];
      }
      k := k + 1;
    }
    assert ps[..k] == ps;
    dedges := Some(out);
  }

  /** The body of the second loop for one edge. */
  method PlaceEdge(nodes: seq<string>, e: GraphEdge, signs: seq<int>, flips: map<string, string>) returns (placed: Placed)
    requires e.a in nodes && e.b in nodes && |signs| == |nodes|
    ensures placed == DistanceEdge(nodes, e, signs, flips)
  {
    var i, j := IndexOf(nodes, e.a), IndexOf(nodes, e.b);
    if i > j {
      i, j := j, i;
    }
    var pair := [if signs[i] > 0 then '+' else '-', if signs[j] > 0 then '+' else '-'];
    if e.orientation !in flips {
      return Missing;
    }
    if flips[e.orientation] == pair {
      placed := Kept(i, j, -e.distance);
    } else if e.orientation == pair {
      placed := Kept(i, j, e.distance);
    } else {
      placed := Skipped;
    }
  }

  /** The positions of a node on the scaffold and its strand. */
  datatype Place = Place(node: string, start: int, end: int, orientation: char)

  /** A node placed from its sign and solved position: a negative sign ends at the position, a positive one starts there. */
  function PlaceNode(node: string, sign: int, position: int, size: int): (p: Place)
    ensures p.end - p.start == size && p.node == node
    ensures sign < 0 ==> p.end == position && p.orientation == '-'
    ensures sign >= 0 ==> p.start == position && p.orientation == '+'
  {
    if sign < 0 then Place(node, position - size, position, '-') else Place(node, position, position + size, '+')
  }

  predicate StartLe(p: Place, q: Place)
  {
    p.start <= q.start
  }

  lemma StartLeTotalPreorder()
    ensures TotalPreorder(StartLe)
  {
  }

  function Min3(a: nat, b: nat, c: nat): (m: nat)
    ensures m <= a && m <= b && m <= c && (m == a || m == b || m == c)
  {
    if a <= b && a <= c then a else if b <= c then b else c
  }

  /** `zip(nodes, signs, positions)` placed with their sizes. */
  function Placements(nodes: seq<string>, signs: seq<int>, positions: seq<int>, sizes: map<string, int>): (r: seq<Place>)
    requires forall i :: 0 <= i < Min3(|nodes|, |signs|, |positions|) ==> nodes[i] in sizes
    ensures |r| == Min3(|nodes|, |signs|, |positions|)
    ensures forall i :: 0 <= i < |r| ==> r[i] == PlaceNode(nodes[i], signs[i], positions[i], sizes[nodes[i]])
  {
    var n := Min3(|nodes|, |signs|, |positions|);
    seq(n, i requires 0 <= i < n => PlaceNode(nodes[i], signs[i], positions[i], sizes[nodes[i]]))
  }

  /**
   * The layout at the end of solve_component: every node placed, the list
   * sorted by start (stably). A node without a size raises, and so does an
   * empty list (`min` of nothing). The offset the source subtracts is only
   * applied to loop variables, so the returned places are not shifted.
   */
  method Layout(nodes: seq<string>, signs: seq<int>, positions: seq<int>, sizes: map<string, int>)
    returns (bed: Option<seq<Place>>)
    ensures bed.Some? <==>
      && Min3(|nodes|, |signs|, |positions|) > 0
      && forall i :: 0 <= i < Min3(|nodes|, |signs|, |positions|) ==> nodes[i] in sizes
    ensures bed.Some? ==>
      && bed.value == SortBy(Placements(nodes, signs, positions, sizes), StartLe)
      && SortedBy(bed.value, StartLe)
      && multiset(bed.value) == multiset(Placements(nodes, signs, positions, sizes))
      && (forall x :: Ties(bed.value, x, StartLe) == Ties(Placements(nodes, signs, positions, sizes), x, StartLe))
      && forall p :: p in bed.value ==> p.node in sizes && p.end - p.start == sizes[p.node]
  {
    var placed := PlaceAll(nodes, signs, positions, sizes);
    if placed.None? || |placed.value| == 0 {
      return None;
    }
    var out := placed.value;
    StartLeTotalPreorder();
    SortBySorted(out, StartLe);
    var sorted := SortBy(out, StartLe);
    forall x ensures Ties(sorted, x, StartLe) == Ties(out, x, StartLe) {
      SortByStable(out, x, StartLe);
    }
    forall p | p in sorted
      ensures p.node in sizes && p.end - p.start == sizes[p.node]
    {
      assert p in multiset(out);
      var j :| 0 <= j < |out| && out[j] == p;
    }
    bed := Some(sorted);
  }

  /** The loop over `zip(nodes, signs, positions)`: each node placed, or None at a node of unknown size. */
  method PlaceAll(nodes: seq<string>, signs: seq<int>, positions: seq<int>, sizes: map<string, int>)
    returns (placed: Option<seq<Place>>)
    ensures placed.Some? <==> forall i :: 0 <= i < Min3(|nodes|, |signs|, |positions|) ==> nodes[i] in sizes
    ensures placed.Some? ==> placed.value == Placements(nodes, signs, positions, sizes)
  {
    var n := Min3(|nodes|, |signs|, |positions|);
    var out: seq<Place> := [];
    var i := 0;
    while i < n
      invariant 0 <= i <= n && |out| == i
      invariant forall j :: 0 <= j < i ==> nodes[j] in sizes && out[j] == PlaceNode(nodes[j], signs[j], positions[j], sizes[nodes[j]])
    {
      if nodes[i] !in sizes {
        return None;
      }
      out := out + [PlaceNode(nodes[i], signs[i], positions[i], sizes[nodes[i]])];
      i := i + 1;
    }
    placed := Some(out);
  }

  /**
   * `get_bname(sname, prefix)`: with `--prefix`, `sname.rsplit("_", 1)[0]`
   * (the name before its last "_", or the whole name without one); else "chr0".
   */
  function GetBName(sname: string, prefix: bool): (r: string)
    ensures prefix ==> |r| <= |sname| && r == sname[..|r|]
    ensures prefix && NoChar(sname, '_') ==> r == sname
    ensures prefix && !NoChar(sname, '_') ==>
      |r| < |sname| && sname[|r|] == '_' && NoChar(sname[|r| + 1..], '_')
    ensures !prefix ==> r == "chr0"
  {
    if prefix then
      var r := BeforeLast(sname, '_');
      BeforeLastSpec(sname, '_');
      r
    else "chr0"
  }
}
