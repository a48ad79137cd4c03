/**
 * The `mcscan` action of algorithms/synteny.py: each synteny block becomes a
 * range over the reference gene order, chains of ranges are pulled out of the
 * pool one pass at a time (at most `--iter` passes), and every reference gene
 * gets one column per chain naming its partner gene in that chain.
 *
 * `range_chain` (jcvi.utils.range) is not part of this model: it is a
 * parameter, and all that is used of it is that on a non-empty pool it
 * returns a non-empty selection of the pool's ranges.
 */
module McScan {
  import opened Util
  import opened Bed

  /** `Range("0", start, end, score=len(q), id=i)` with the order indices unpacked. */
  datatype Range = Range(seqid: string, start: nat, end: nat, score: nat, id: nat)

  function Firsts(block: seq<(string, string)>): (r: seq<string>)
    ensures |r| == |block| && forall k :: 0 <= k < |r| ==> r[k] == block[k].0
  {
    seq(|block|, k requires 0 <= k < |block| => block[k].0)
  }

  function Swapped(block: seq<(string, string)>): (r: seq<(string, string)>)
    ensures |r| == |block| && forall k :: 0 <= k < |r| ==> r[k] == (block[k].1, block[k].0)
  {
    seq(|block|, k requires 0 <= k < |block| => (block[k].1, block[k].0))
  }

  /** The block turned so that its first column holds reference genes (when its first gene is not one, the columns swap). */
  function Oriented(block: seq<(string, string)>, order: map<string, Indexed>): seq<(string, string)>
  {
    if |block| > 0 && block[0].0 !in order then Swapped(block) else block
  }

  /** `dict(zip(q, s))`: a repeated key keeps its last partner. */
  function PairsMap(block: seq<(string, string)>): map<string, string>
  {
    if |block| == 0 then map[]
    else
      var n := |block| - 1;
      PairsMap(block[..n])[block[n].0 := block[n].1]
  }

  /** `block[k]` is `(a, b)` and no later pair starts with `a`. */
  predicate LastPairAt(block: seq<(string, string)>, k: int, a: string, b: string)
    requires 0 <= k < |block|
  {
    block[k] == (a, b) && forall j :: k < j < |block| ==> block[j].0 != a
  }

  /** The keys are the first genes of the pairs, and each maps to the partner of its last pair. */
  lemma PairsMapSpec(block: seq<(string, string)>)
    ensures forall a :: a in PairsMap(block) <==> exists k :: 0 <= k < |block| && block[k].0 == a
    ensures forall a :: a in PairsMap(block) ==>
      exists k :: 0 <= k < |block| && LastPairAt(block, k, a, PairsMap(block)[a])
  {
    PairsMapKeys(block);
    PairsMapLast(block);
  }

  lemma {:induction false} PairsMapKeys(block: seq<(string, string)>)
    ensures forall a :: a in PairsMap(block) <==> exists k :: 0 <= k < |block| && block[k].0 == a
    decreases |block|
  {
    if |block| > 0 {
      var n := |block| - 1;
      var init := block[..n];
      PairsMapKeys(init);
      forall a
        ensures a in PairsMap(block) <==> exists k :: 0 <= k < |block| && block[k].0 == a
      {
        if a in PairsMap(init) {
          var k :| 0 <= k < n && init[k].0 == a;
          assert block[k].0 == a;
        }
        if k :| 0 <= k < |block| && block[k].0 == a {
          if k < n {
            assert init[k].0 == a;
          }
        }
      }
    }
  }

  lemma {:induction false} PairsMapLast(block: seq<(string, string)>)
    ensures forall a :: a in PairsMap(block) ==>
      exists k :: 0 <= k < |block| && LastPairAt(block, k, a, PairsMap(block)[a])
    decreases |block|
  {
    if |block| > 0 {
      var n := |block| - 1;
      var init := block[..n];
      PairsMapLast(init);
      var m := PairsMap(block);
      forall a | a in m
        ensures exists k :: 0 <= k < |block| && LastPairAt(block, k, a, m[a])
      {
        if a == block[n].0 {
          assert LastPairAt(block, n, a, m[a]);
        } else {
          var k :| 0 <= k < n && LastPairAt(init, k, a, PairsMap(init)[a]);
          assert forall j :: k < j < n ==> block[j] == init[j];
          assert LastPairAt(block, k, a, m[a]);
        }
      }
    }
  }

  predicate AllKnown(names: seq<string>, order: map<string, Indexed>)
  {
    forall k :: 0 <= k < |names| ==> names[k] in order
  }

  /** The least order index of the names. */
  function MinIndex(names: seq<string>, order: map<string, Indexed>): (m: nat)
    requires |names| > 0 && AllKnown(names, order)
    ensures exists k :: 0 <= k < |names| && order[names[k]].index == m
    ensures forall k :: 0 <= k < |names| ==> m <= order[names[k]].index
  {
    if |names| == 1 then order[names[0]].index
    else
      var rest := MinIndex(names[1..], order);
      assert forall k :: 1 <= k < |names| ==> names[1..][k - 1] == names[k];
      if order[names[0]].index <= rest then order[names[0]].index else rest
  }

  /** The greatest order index of the names. */
  function MaxIndex(names: seq<string>, order: map<string, Indexed>): (m: nat)
    requires |names| > 0 && AllKnown(names, order)
    ensures exists k :: 0 <= k < |names| && order[names[k]].index == m
    ensures forall k :: 0 <= k < |names| ==> order[names[k]].index <= m
  {
    if |names| == 1 then order[names[0]].index
    else
      var rest := MaxIndex(names[1..], order);
      assert forall k :: 1 <= k < |names| ==> names[1..][k - 1] == names[k];
      if order[names[0]].index >= rest then order[names[0]].index else rest
  }

  /**
   * Block `i` as a range and its gene pairs. An empty block cannot be
   * unpacked into two columns, and a reference-side gene missing from the
   * order is a KeyError: both give None.
   */
  function BlockRange(block: seq<(string, string)>, order: map<string, Indexed>, i: nat)
    : (r: Option<(Range, map<string, string>)>)
    ensures r.Some? <==> |block| > 0 && AllKnown(Firsts(Oriented(block, order)), order)
    ensures r.Some? ==>
      var q := Firsts(Oriented(block, order));
      var rg := r.value.0;
      && rg.id == i && rg.score == |block| && rg.start <= rg.end
      && (forall k :: 0 <= k < |q| ==> rg.start <= order[q[k]].index <= rg.end)
      && (exists k :: 0 <= k < |q| && order[q[k]].index == rg.start)
      && (exists k :: 0 <= k < |q| && order[q[k]].index == rg.end)
      && r.value.1 == PairsMap(Oriented(block, order))
  {
    if |block| == 0 then None
    else
      var b := Oriented(block, order);
      var q := Firsts(b);
      if AllKnown(q, order) then
        var lo, hi := MinIndex(q, order), MaxIndex(q, order);
        Some((Range("0", lo, hi, |block|, i), PairsMap(b)))
      else None
  }

  /**
   * The first loop of mcscan: block `i` becomes the range with id `i` and
   * `block_pairs[i]`; the first block that raises ends the run (None).
   */
  method BuildRanges(blocks: seq<seq<(string, string)>>, order: map<string, Indexed>)
    returns (r: Option<(seq<Range>, map<nat, map<string, string>>)>)
    ensures r.Some? <==> forall i :: 0 <= i < |blocks| ==> BlockRange(blocks[i], order, i).Some?
    ensures r.Some? ==>
      && |r.value.0| == |blocks|
      && (forall i: nat :: i in r.value.1 <==> i < |blocks|)
      && forall i :: 0 <= i < |blocks| ==> BlockRange(blocks[i], order, i) == Some((r.value.0[i], r.value.1[i]))
  {
    var ranges: seq<Range> := [];
    var blockPairs: map<nat, map<string, string>> := map[];
    var i := 0;
    while i < |blocks|
      invariant 0 <= i <= |blocks| && |ranges| == i
      invariant forall j: nat :: j in blockPairs ==> j < i
      invariant forall j :: 0 <= j < i ==> j in blockPairs && BlockRange(blocks[j], order, j) == Some((ranges[j], blockPairs[j]))
    {
      var got := BlockRange(blocks[i], order, i);
      if got.None? {
        return None;
      }
      ranges := ranges + [got.value.0];
      blockPairs := blockPairs[i := got.value.1];
      i := i + 1;
    }
    forall j: nat ensures j in blockPairs <==> j < |blocks| {
      if j < |blocks| {
        assert j in blockPairs;
      }
    }
    r := Some((ranges, blockPairs));
  }

  // ---------------------------------------------------------------------
  // Chaining
  // ---------------------------------------------------------------------

  /** What `range_chain` is assumed to do: pick a non-empty selection from a non-empty pool. */
  ghost predicate Chooses(chain: seq<Range> -> seq<Range>)
  {
    forall pool: seq<Range> {:trigger chain(pool)} :: |pool| > 0 ==>
      |chain(pool)| > 0 && forall x :: x in chain(pool) ==> x in pool
  }

  function Ids(track: seq<Range>): (r: set<nat>)
    ensures forall x :: x in track ==> x.id in r
    ensures forall id :: id in r ==> exists x :: x in track && x.id == id
  {
    set x | x in track :: x.id
  }

  /** `[x for x in ranges if x.id not in selected]` */
  function Without(ranges: seq<Range>, selected: set<nat>): (r: seq<Range>)
    ensures |r| <= |ranges|
    ensures forall x :: x in r <==> x in ranges && x.id !in selected
    ensures IsSubseq(r, ranges)
    decreases |ranges|
  {
    if |ranges| == 0 then []
    else
      var n := |ranges| - 1;
      var prev := Without(ranges[..n], selected);
      assert ranges == ranges[..n] + [ranges[n]];
      if ranges[n].id !in selected then
        IsSubseqAppend(prev, ranges[..n], ranges[n]);
        prev + [ranges[n]]
      else
        IsSubseqExtend(prev, ranges[..n], ranges[n]);
        prev
  }

  /** A pass that selects something from the pool shrinks it. */
  lemma WithoutShrinks(ranges: seq<Range>, track: seq<Range>)
    requires |track| > 0 && forall x :: x in track ==> x in ranges
    ensures |Without(ranges, Ids(track))| < |ranges|
  {
    var r := Without(ranges, Ids(track));
    var x := track[0];
    assert x in ranges && x !in r;
    if |r| == |ranges| {
      SubseqSameLength(r, ranges);
    }
  }

  lemma {:induction false} SubseqSameLength<T>(a: seq<T>, b: seq<T>)
    requires IsSubseq(a, b) && |a| == |b|
    ensures a == b
    decreases |b|
  {
    if |a| > 0 {
      if a[0] == b[0] {
        SubseqSameLength(a[1..], b[1..]);
        assert a == [a[0]] + a[1..];
      } else {
        SubseqShorter(a, b[1..]);
      }
    }
  }

  lemma {:induction false} SubseqShorter<T>(a: seq<T>, b: seq<T>)
    requires IsSubseq(a, b)
    ensures |a| <= |b|
    decreases |b|
  {
    if |a| > 0 && |b| > 0 {
      if a[0] == b[0] {
        SubseqShorter(a[1..], b[1..]);
      } else {
        SubseqShorter(a, b[1..]);
      }
    }
  }

  /** Track `k` was chosen from `pools[k]`, and the next pool is what it left. */
  ghost predicate Passes(pools: seq<seq<Range>>, tracks: seq<seq<Range>>, chain: seq<Range> -> seq<Range>)
  {
    && |pools| == |tracks| + 1
    && forall k {:trigger tracks[k]} :: 0 <= k < |tracks| ==>
         |pools[k]| > 0 && tracks[k] == chain(pools[k]) && pools[k + 1] == Without(pools[k], Ids(tracks[k]))
  }

  /** One more pass: the chain of the last pool becomes a track and what it leaves the next pool. */
  lemma PassesSnoc(pools: seq<seq<Range>>, tracks: seq<seq<Range>>, chain: seq<Range> -> seq<Range>)
    requires Passes(pools, tracks, chain) && |pools[|tracks|]| > 0
    ensures var pool := pools[|tracks|];
      Passes(pools + [Without(pool, Ids(chain(pool)))], tracks + [chain(pool)], chain)
  {
    var pool := pools[|tracks|];
    var pools', tracks' := pools + [Without(pool, Ids(chain(pool)))], tracks + [chain(pool)];
    forall k | 0 <= k < |tracks'|
      ensures |pools'[k]| > 0 && tracks'[k] == chain(pools'[k]) && pools'[k + 1] == Without(pools'[k], Ids(tracks'[k]))
    {
      if k < |tracks| {
        assert tracks'[k] == tracks[k] && pools'[k] == pools[k] && pools'[k + 1] == pools[k + 1];
      }
    }
  }

  /** Every range in a later pool was in every earlier one, and no earlier track holds its id. */
  lemma {:induction false} PoolsShrink(pools: seq<seq<Range>>, tracks: seq<seq<Range>>, chain: seq<Range> -> seq<Range>, k: nat, l: nat)
    requires Passes(pools, tracks, chain) && k <= l < |pools|
    ensures forall x :: x in pools[l] ==> x in pools[k]
    ensures forall x, j :: x in pools[l] && k <= j < l ==> x.id !in Ids(tracks[j])
    decreases l - k
  {
    if k < l {
      PoolsShrink(pools, tracks, chain, k + 1, l);
      assert pools[k + 1] == Without(pools[k], Ids(tracks[k]));
    }
  }

  /** A range that no track took stays in every pool. */
  lemma {:induction false} PoolsKeep(pools: seq<seq<Range>>, tracks: seq<seq<Range>>, chain: seq<Range> -> seq<Range>, x: Range, l: nat)
    requires Passes(pools, tracks, chain) && l < |pools|
    requires x in pools[0] && forall k :: 0 <= k < |tracks| ==> x.id !in Ids(tracks[k])
    ensures x in pools[l]
  {
    if l > 0 {
      PoolsKeep(pools, tracks, chain, x, l - 1);
      assert pools[l] == Without(pools[l - 1], Ids(tracks[l - 1]));
    }
  }

  /** What the passes give: non-empty tracks drawn from the first pool, no id in two tracks, and the last pool is what no track took. */
  lemma PassesFacts(pools: seq<seq<Range>>, tracks: seq<seq<Range>>, chain: seq<Range> -> seq<Range>)
    requires Chooses(chain) && Passes(pools, tracks, chain)
    ensures forall k :: 0 <= k < |tracks| ==> |tracks[k]| > 0 && forall x :: x in tracks[k] ==> x in pools[0]
    ensures forall k, l, x, y :: 0 <= k < l < |tracks| && x in tracks[k] && y in tracks[l] ==> x.id != y.id
    ensures forall x :: x in pools[|tracks|] <==> x in pools[0] && forall k :: 0 <= k < |tracks| ==> x.id !in Ids(tracks[k])
  {
    forall k | 0 <= k < |tracks| ensures |tracks[k]| > 0 && forall x :: x in tracks[k] ==> x in pools[0] {
      PoolsShrink(pools, tracks, chain, 0, k);
      assert tracks[k] == chain(pools[k]);
    }
    forall k, l, x, y | 0 <= k < l < |tracks| && x in tracks[k] && y in tracks[l] ensures x.id != y.id {
      PoolsShrink(pools, tracks, chain, k, l);
      assert tracks[l] == chain(pools[l]);
      assert y in pools[l];
    }
    PoolsShrink(pools, tracks, chain, 0, |tracks|);
    forall x | x in pools[0] && forall k :: 0 <= k < |tracks| ==> x.id !in Ids(tracks[k])
      ensures x in pools[|tracks|]
    {
      PoolsKeep(pools, tracks, chain, x, |tracks|);
    }
  }

  /**
   * The chaining loop: while ranges remain and fewer than `maxIter` passes
   * ran, take a chain from the pool as the next track and drop its ids from
   * the pool.
   */
  method Chain(ranges: seq<Range>, maxIter: int, chain: seq<Range> -> seq<Range>)
    returns (tracks: seq<seq<Range>>, rest: seq<Range>, ghost pools: seq<seq<Range>>)
    requires Chooses(chain)
    ensures Passes(pools, tracks, chain) && pools[0] == ranges && rest == pools[|tracks|]
    ensures rest == [] || |tracks| >= maxIter
    ensures |tracks| <= |ranges| && (maxIter >= 0 ==> |tracks| <= maxIter)
    ensures forall k :: 0 <= k < |tracks| ==> |tracks[k]| > 0 && forall x :: x in tracks[k] ==> x in ranges
    ensures forall k, l, x, y :: 0 <= k < l < |tracks| && x in tracks[k] && y in tracks[l] ==> x.id != y.id
    ensures forall x :: x in rest <==> x in ranges && forall k :: 0 <= k < |tracks| ==> x.id !in Ids(tracks[k])
  {
    tracks, rest, pools := [], ranges, [ranges];
    var iteration := 0;
    while |rest| > 0
      invariant iteration == |tracks| && Passes(pools, tracks, chain) && pools[0] == ranges
      invariant rest == pools[|tracks|]
      invariant |tracks| + |rest| <= |ranges| && (maxIter >= 0 ==> |tracks| <= maxIter)
      decreases |rest|
    {
      if iteration >= maxIter {
        break;
      }
      var selected := chain(rest);
      WithoutShrinks(rest, selected);
      PassesSnoc(pools, tracks, chain);
      var next := Without(rest, Ids(selected));
      tracks := tracks + [selected];
      pools := pools + [next];
      rest := next;
      iteration := iteration + 1;
    }
    PassesFacts(pools, tracks, chain);
  }

  // ---------------------------------------------------------------------
  // Columns
  // ---------------------------------------------------------------------

  /** `pairs.get(id, ".")` */
  function Get(pairs: map<string, string>, id: string): string
  {
    if id in pairs then pairs[id] else "."
  }

  /**
   * The column of gene `id` for one track: the partner from the first block
   * of the track that has one other than ".", else ".".
   */
  function Atom(tids: seq<nat>, blockPairs: map<nat, map<string, string>>, id: string): (r: string)
    requires |tids| > 0 && forall k :: 0 <= k < |tids| ==> tids[k] in blockPairs
    ensures r != "." <==> exists k :: 0 <= k < |tids| && Get(blockPairs[tids[k]], id) != "."
    ensures r != "." ==>
      exists k :: 0 <= k < |tids| && r == Get(blockPairs[tids[k]], id) && forall j :: 0 <= j < k ==> Get(blockPairs[tids[j]], id) == "."
  {
    var a := Get(blockPairs[tids[0]], id);
    if a != "." || |tids| == 1 then a
    else
      var r := Atom(tids[1..], blockPairs, id);
      assert forall k :: 1 <= k < |tids| ==> tids[1..][k - 1] == tids[k];
      r
  }

  function TrackIds(track: seq<Range>): (r: seq<nat>)
    ensures |r| == |track| && forall k :: 0 <= k < |r| ==> r[k] == track[k].id
  {
    seq(|track|, k requires 0 <= k < |track| => track[k].id)
  }

  /** Every track is non-empty and all its ids name blocks. */
  predicate Covered(tracks: seq<seq<Range>>, blockPairs: map<nat, map<string, string>>)
  {
    forall k :: 0 <= k < |tracks| ==> |tracks[k]| > 0 && forall x :: x in tracks[k] ==> x.id in blockPairs
  }

  /** The atoms of gene `id`, one per track; in ascii mode a partner prints as "x". */
  function Atoms(tracks: seq<seq<Range>>, blockPairs: map<nat, map<string, string>>, id: string, ascii: bool)
    : (r: seq<string>)
    requires Covered(tracks, blockPairs)
    ensures |r| == |tracks|
    ensures forall k :: 0 <= k < |r| ==>
      (r[k] == "." <==> forall x :: x in tracks[k] ==> Get(blockPairs[x.id], id) == ".")
    ensures ascii ==> forall k :: 0 <= k < |r| ==> r[k] == "x" || r[k] == "."
  {
    seq(|tracks|, k requires 0 <= k < |tracks| =>
      var tids := TrackIds(tracks[k]);
      assert forall j :: 0 <= j < |tids| ==> tracks[k][j] in tracks[k];
      var a := Atom(tids, blockPairs, id);
      if ascii && a != "." then "x" else a)
  }

  /** One output line: the gene, a tab, then the atoms (tab-separated, or run together in ascii mode). */
  function Row(b: BedLine, tracks: seq<seq<Range>>, blockPairs: map<nat, map<string, string>>, ascii: bool): string
    requires Covered(tracks, blockPairs)
  {
    b.accn + "\t" + JoinWith(Atoms(tracks, blockPairs, b.accn, ascii), if ascii then "" else "\t")
  }

  lemma {:induction false} JoinSingles(atoms: seq<string>)
    requires forall k :: 0 <= k < |atoms| ==> |atoms[k]| == 1
    ensures |JoinWith(atoms, "")| == |atoms|
    ensures forall k :: 0 <= k < |atoms| ==> JoinWith(atoms, "")[k] == atoms[k][0]
    decreases |atoms|
  {
    if |atoms| > 1 {
      JoinSingles(atoms[1..]);
      assert forall k :: 1 <= k < |atoms| ==> atoms[1..][k - 1] == atoms[k];
    }
  }

  /** In ascii mode a line is the gene, a tab, and one mark per track: 'x' where the track pairs the gene. */
  lemma AsciiRow(b: BedLine, tracks: seq<seq<Range>>, blockPairs: map<nat, map<string, string>>)
    requires Covered(tracks, blockPairs)
    ensures var row := Row(b, tracks, blockPairs, true);
      && |row| == |b.accn| + 1 + |tracks|
      && row[..|b.accn| + 1] == b.accn + "\t"
      && forall k :: 0 <= k < |tracks| ==>
           (row[|b.accn| + 1 + k] == 'x' <==> exists x :: x in tracks[k] && Get(blockPairs[x.id], b.accn) != ".")
  {
    var atoms := Atoms(tracks, blockPairs, b.accn, true);
    JoinSingles(atoms);
    var row := Row(b, tracks, blockPairs, true);
    assert row == b.accn + "\t" + JoinWith(atoms, "");
    forall k | 0 <= k < |tracks|
      ensures row[|b.accn| + 1 + k] == 'x' <==> exists x :: x in tracks[k] && Get(blockPairs[x.id], b.accn) != "."
    {
      assert row[|b.accn| + 1 + k] == atoms[k][0];
    }
  }

  /** Ranges built from the blocks name their own blocks, so any tracks drawn from them are covered. */
  lemma TracksCovered(ranges: seq<Range>, blockPairs: map<nat, map<string, string>>, tracks: seq<seq<Range>>)
    requires forall i :: 0 <= i < |ranges| ==> ranges[i].id == i && i in blockPairs
    requires forall k :: 0 <= k < |tracks| ==> |tracks[k]| > 0 && forall x :: x in tracks[k] ==> x in ranges
    ensures Covered(tracks, blockPairs)
  {
  }

  /**
   * `mcscan`: the rows it prints, one per reference gene in bed order, or
   * None when a block raises.
   */
  method McScanRows(bed: seq<BedLine>, blocks: seq<seq<(string, string)>>, maxIter: int,
                    chain: seq<Range> -> seq<Range>, ascii: bool)
    returns (rows: Option<seq<string>>, tracks: seq<seq<Range>>, blockPairs: map<nat, map<string, string>>)
    requires Chooses(chain)
    ensures rows.Some? <==> forall i :: 0 <= i < |blocks| ==> BlockRange(blocks[i], Order(bed), i).Some?
    ensures rows.Some? ==>
      && Covered(tracks, blockPairs)
      && |rows.value| == |bed|
      && (forall k :: 0 <= k < |bed| ==> rows.value[k] == Row(bed[k], tracks, blockPairs, ascii))
      && (forall k :: 0 <= k < |tracks| ==> forall x :: x in tracks[k] ==> x.id < |blocks|)
      && (forall k, l, x, y :: 0 <= k < l < |tracks| && x in tracks[k] && y in tracks[l] ==> x.id != y.id)
      && |tracks| <= |blocks|
  {
    var order := Order(bed);
    var built := BuildRanges(blocks, order);
    if built.None? {
      return None, [], map[];
    }
    var ranges := built.value.0;
    blockPairs := built.value.1;
    forall i | 0 <= i < |ranges| ensures ranges[i].id == i && i in blockPairs {
      assert BlockRange(blocks[i], order, i) == Some((ranges[i], blockPairs[i]));
    }
    var rest;
    ghost var pools;
    tracks, rest, pools := Chain(ranges, maxIter, chain);
    TracksCovered(ranges, blockPairs, tracks);
    var out: seq<string> := [];
    var k := 0;
    while k < |bed|
      invariant 0 <= k <= |bed| && |out| == k
      invariant forall j :: 0 <= j < k ==> out[j] == Row(bed[j], tracks, blockPairs, ascii)
    {
      out := out + [Row(bed[k], tracks, blockPairs, ascii)];
      k := k + 1;
    }
    rows := Some(out);
  }
}
