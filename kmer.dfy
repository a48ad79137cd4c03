/**
 * The histogram reading of assembly/kmer.py (`kmer histogram`): the guess
 * between the SOAP and the meryl layout, the decoding of each row into
 * (K, count), the k-mer total, the table `hist` in which a later row for
 * the same K overwrites an earlier one, the rise/drop walk that picks the
 * k-mer coverage, and the part of the table that is plotted (K up to 100).
 *
 * A file is its list of lines. The genome-size estimate is floating point
 * and the plot itself is drawing; neither is part of this model, except
 * that the division by the coverage and the unpacking of the plotted
 * series raise on a zero coverage and an empty series.
 */
module Kmer {
  import opened Util

  // ---------------------------------------------------------------------
  // Format and rows
  // ---------------------------------------------------------------------

  /** A row of exactly one field. */
  predicate OneField(row: string)
  {
    |Words(row)| == 1
  }

  /** The file is taken as SOAP output when some row has exactly one field. */
  predicate IsSoap(rows: seq<string>)
  {
    exists i :: 0 <= i < |rows| && OneField(rows[i])
  }

  /** The first pass over the file, stopping at the first one-field row. */
  method GuessFormat(rows: seq<string>) returns (soap: bool)
    ensures soap <==> IsSoap(rows)
  {
    soap := AnyOf(rows, OneField);
  }

  /**
   * Row `rowno` as (K, count): in SOAP layout K is the row number plus one
   * and the count is the whole row; otherwise K and the count are the first
   * two fields and any further fields are ignored. `None` where `int`
   * raises or the row has fewer than two fields to unpack.
   */
  function DecodeRow(soap: bool, rowno: nat, row: string): Option<(int, int)>
  {
    if soap then
      match ParseInt(row)
      case None => None
      case Some(c) => Some((rowno + 1, c))
    else
      var w := Words(row);
      if |w| < 2 then None
      else
        match (ParseInt(w[0]), ParseInt(w[1]))
        case (Some(k), Some(c)) => Some((k, c))
        case _ => None
  }

  /** A SOAP row written as the bare count reads back as that count at K = row number + 1. */
  lemma SoapRowRoundTrip(rowno: nat, c: int)
    ensures DecodeRow(true, rowno, IntToString(c)) == Some((rowno + 1, c))
  {
    ParseIntToString(c);
  }

  lemma IntWordPlain(i: int)
    ensures |IntToString(i)| > 0 && NoSpace(IntToString(i))
  {
    var s := IntToString(i);
    forall k | 0 <= k < |s| ensures !IsSpace(s[k]) {
      assert s[k] == '-' || IsDigit(s[k]);
    }
  }

  /** A meryl row whose first two fields are printed integers decodes to them. */
  lemma MerylRow(rowno: nat, row: string, k: int, c: int, extra: seq<string>)
    requires Words(row) == [IntToString(k), IntToString(c)] + extra
    ensures DecodeRow(false, rowno, row) == Some((k, c))
  {
    ParseIntToString(k);
    ParseIntToString(c);
  }

  /** A meryl row "K count ..." reads back as (K, count), whatever columns follow. */
  lemma MerylRowRoundTrip(rowno: nat, k: int, c: int, extra: seq<string>)
    requires PlainWords(extra)
    ensures DecodeRow(false, rowno, JoinWith([IntToString(k), IntToString(c)] + extra, " ")) == Some((k, c))
  {
    var ws := [IntToString(k), IntToString(c)] + extra;
    IntWordPlain(k);
    IntWordPlain(c);
    assert PlainWords(ws) by {
      forall i | 0 <= i < |ws| ensures |ws[i]| > 0 && NoSpace(ws[i]) {
        if i >= 2 { assert ws[i] == extra[i - 2]; }
      }
    }
    WordsJoin(ws);
    MerylRow(rowno, JoinWith(ws, " "), k, c, extra);
  }

  /** Every row decoded by `f` in order, or `None` at the first row that does not decode. */
  function DecodeWith(f: (nat, string) -> Option<(int, int)>, rows: seq<string>): Option<seq<(int, int)>>
    decreases |rows|
  {
    if rows == [] then Some([])
    else
      var n := |rows| - 1;
      match DecodeWith(f, rows[..n])
      case None => None
      case Some(ps) =>
        match f(n, rows[n])
        case None => None
        case Some(p) => Some(ps + [p])
  }

  /** Decoding succeeds exactly when every row decodes, and then row i gives pair i. */
  lemma {:induction false} DecodeWithSpec(f: (nat, string) -> Option<(int, int)>, rows: seq<string>)
    ensures DecodeWith(f, rows).Some? <==> forall i :: 0 <= i < |rows| ==> f(i, rows[i]).Some?
    ensures DecodeWith(f, rows).Some? ==>
      |DecodeWith(f, rows).value| == |rows|
      && forall i :: 0 <= i < |rows| ==> DecodeWith(f, rows).value[i] == f(i, rows[i]).value
    decreases |rows|
  {
    if rows != [] {
      var n := |rows| - 1;
      var init := rows[..n];
      DecodeWithSpec(f, init);
      assert forall i :: 0 <= i < n ==> init[i] == rows[i];
    }
  }

  /** The row decoder of a layout. */
  function Decoder(soap: bool): (nat, string) -> Option<(int, int)>
  {
    (i: nat, row: string) => DecodeRow(soap, i, row)
  }

  /** The rows of a file in the given layout. */
  function Decode(soap: bool, rows: seq<string>): Option<seq<(int, int)>>
  {
    DecodeWith(Decoder(soap), rows)
  }

  lemma DecodeSpec(soap: bool, rows: seq<string>)
    ensures Decode(soap, rows).Some? <==> forall i :: 0 <= i < |rows| ==> DecodeRow(soap, i, rows[i]).Some?
    ensures Decode(soap, rows).Some? ==>
      |Decode(soap, rows).value| == |rows|
      && forall i :: 0 <= i < |rows| ==> Decode(soap, rows).value[i] == DecodeRow(soap, i, rows[i]).value
  {
    DecodeWithSpec(Decoder(soap), rows);
  }

  /** The layout the file is read in and its decoded rows. */
  function Read(rows: seq<string>): Option<seq<(int, int)>>
  {
    Decode(IsSoap(rows), rows)
  }

  /** In SOAP layout the K of row i is i + 1, so the Ks run 1, 2, ..., |rows|. */
  lemma SoapKs(rows: seq<string>)
    requires IsSoap(rows) && Read(rows).Some?
    ensures |Read(rows).value| == |rows|
    ensures forall i :: 0 <= i < |rows| ==> Read(rows).value[i].0 == i + 1
  {
    DecodeSpec(true, rows);
  }

  // ---------------------------------------------------------------------
  // Total and table
  // ---------------------------------------------------------------------

  /** `totalKmers`: the sum of K * count over all rows. */
  function Total(ps: seq<(int, int)>): int
    decreases |ps|
  {
    if ps == [] then 0
    else
      var n := |ps| - 1;
      Total(ps[..n]) + ps[n].0 * ps[n].1
  }

  /** The total adds up over any split of the rows, so it counts every row, overwritten or not. */
  lemma {:induction false} TotalAppend(a: seq<(int, int)>, b: seq<(int, int)>)
    ensures Total(a + b) == Total(a) + Total(b)
    decreases |b|
  {
    if b != [] {
      var n := |b| - 1;
      TotalAppend(a, b[..n]);
      assert (a + b)[..|a + b| - 1] == a + b[..n];
      assert (a + b)[|a + b| - 1] == b[n];
    } else {
      assert a + b == a;
    }
  }

  /** `hist[K] = counts` for each row in turn. */
  function Hist(ps: seq<(int, int)>): map<int, int>
    decreases |ps|
  {
    if ps == [] then map[]
    else
      var n := |ps| - 1;
      Hist(ps[..n])[ps[n].0 := ps[n].1]
  }

  /** Row i is the last row with its K. */
  predicate LastWith(ps: seq<(int, int)>, i: int)
    requires 0 <= i < |ps|
  {
    forall j :: i < j < |ps| ==> ps[j].0 != ps[i].0
  }

  /** The table holds the Ks of the rows, each with the count of the last row for it. */
  lemma {:induction false} HistSpec(ps: seq<(int, int)>)
    ensures forall k :: k in Hist(ps) <==> exists i :: 0 <= i < |ps| && ps[i].0 == k
    ensures forall i :: 0 <= i < |ps| && LastWith(ps, i) ==> Hist(ps)[ps[i].0] == ps[i].1
    decreases |ps|
  {
    if ps != [] {
      var n := |ps| - 1;
      var init := ps[..n];
      HistSpec(init);
      assert forall i :: 0 <= i < n ==> init[i] == ps[i];
      forall k ensures k in Hist(ps) <==> exists i :: 0 <= i < |ps| && ps[i].0 == k {
        if k in Hist(init) {
          var i :| 0 <= i < n && init[i].0 == k;
          assert ps[i].0 == k;
        }
        if k != ps[n].0 && exists i :: 0 <= i < |ps| && ps[i].0 == k {
          var i :| 0 <= i < |ps| && ps[i].0 == k;
          assert i < n && init[i].0 == k;
        }
      }
      forall i | 0 <= i < |ps| && LastWith(ps, i) ensures Hist(ps)[ps[i].0] == ps[i].1 {
        if i < n {
          assert ps[n].0 != ps[i].0;
          assert LastWith(init, i);
        }
      }
    }
  }

  /** The SOAP table has no overwrites: K = i + 1 maps to the count of row i. */
  lemma SoapHist(rows: seq<string>)
    requires IsSoap(rows) && Read(rows).Some?
    ensures |Read(rows).value| == |rows|
    ensures forall k :: k in Hist(Read(rows).value) <==> 1 <= k <= |rows|
    ensures forall i :: 0 <= i < |rows| ==> Hist(Read(rows).value)[i + 1] == Read(rows).value[i].1
  {
    var ps := Read(rows).value;
    SoapKs(rows);
    DecodeSpec(true, rows);
    HistSpec(ps);
    forall k ensures k in Hist(ps) <==> 1 <= k <= |rows| {
      if 1 <= k <= |rows| { assert ps[k - 1].0 == k; }
    }
    forall i | 0 <= i < |rows| ensures Hist(ps)[i + 1] == ps[i].1 {
      assert LastWith(ps, i);
    }
  }

  /** The Ks of the rows in order; as a set, the keys of `hist`. */
  function Ks(ps: seq<(int, int)>): (ks: seq<int>)
    ensures |ks| == |ps| && forall i :: 0 <= i < |ps| ==> ks[i] == ps[i].0
  {
    seq(|ps|, i requires 0 <= i < |ps| => ps[i].0)
  }

  /** What the second pass leaves: the table, the total and the Ks it has seen. */
  datatype Counted = Counted(hist: map<int, int>, total: int, ks: seq<int>)

  /**
   * The second pass over the file: decode each row with `decode`, add
   * K * count to the total and store the count under K.
   */
  method Tally(decode: (nat, string) -> Option<(int, int)>, rows: seq<string>) returns (r: Option<Counted>)
    ensures r.None? <==> DecodeWith(decode, rows).None?
    ensures r.Some? ==>
      var ps := DecodeWith(decode, rows).value;
      r.value == Counted(Hist(ps), Total(ps), Ks(ps))
  {
    var hist: map<int, int> := map[];
    var total := 0;
    var ks: seq<int> := [];
    ghost var ps: seq<(int, int)> := [];
    DecodeWithSpec(decode, rows);
    for rowno := 0 to |rows|
      invariant |ps| == rowno
      invariant forall i :: 0 <= i < rowno ==> decode(i, rows[i]) == Some(ps[i])
      invariant hist == Hist(ps) && total == Total(ps) && ks == Ks(ps)
    {
      var p := decode(rowno, rows[rowno]);
      if p.None? {
        return None;
      }
      var (k, counts) := p.value;
      total := total + k * counts;
      hist := hist[k := counts];
      ks := ks + [k];
      assert (ps + [p.value])[..rowno] == ps;
      ps := ps + [p.value];
    }
    assert ps == DecodeWith(decode, rows).value;
    r := Some(Counted(hist, total, ks));
  }

  /** The second pass in the layout the first pass chose. */
  method ReadRows(rows: seq<string>, soap: bool) returns (r: Option<Counted>)
    ensures r.None? <==> Decode(soap, rows).None?
    ensures r.Some? ==>
      var ps := Decode(soap, rows).value;
      r.value == Counted(Hist(ps), Total(ps), Ks(ps))
  {
    r := Tally(Decoder(soap), rows);
  }

  // ---------------------------------------------------------------------
  // sorted(hist.items())
  // ---------------------------------------------------------------------

  /** Python's order on (K, count) tuples. */
  predicate ItemLe(p: (int, int), q: (int, int))
  {
    p.0 < q.0 || (p.0 == q.0 && p.1 <= q.1)
  }

  lemma ItemLeTotalOrder()
    ensures TotalOrder(ItemLe)
  {
  }

  /** `items` is the sorted item list of `hist`. */
  ghost predicate IsItems(items: seq<(int, int)>, hist: map<int, int>)
  {
    && StrictlySortedBy(items, ItemLe)
    && forall x :: x in items <==> x.0 in hist && hist[x.0] == x.1
  }

  /** A table has one sorted item list. */
  lemma ItemsUnique(a: seq<(int, int)>, b: seq<(int, int)>, hist: map<int, int>)
    requires IsItems(a, hist) && IsItems(b, hist)
    ensures a == b
  {
    ItemLeTotalOrder();
    StrictlySortedUnique(a, b, ItemLe);
  }

  predicate IntLe(a: int, b: int)
  {
    a <= b
  }

  lemma IntLeTotalOrder()
    ensures TotalOrder(IntLe)
  {
  }

  lemma KeysIn(sk: seq<int>, keys: seq<int>, hist: map<int, int>)
    requires forall x :: x in sk <==> x in keys
    requires forall k :: k in keys <==> k in hist
    ensures forall i :: 0 <= i < |sk| ==> sk[i] in hist
  {
    forall i | 0 <= i < |sk| ensures sk[i] in hist {
      var x := sk[i];
      assert x in sk;
      assert x in keys;
    }
  }

  /** `sorted(hist.items())`, given a list that holds every key of `hist`. */
  function SortedItems(hist: map<int, int>, keys: seq<int>): (items: seq<(int, int)>)
    requires forall k :: k in keys <==> k in hist
    ensures IsItems(items, hist)
  {
    IntLeTotalOrder();
    SortedSetSpec(keys, IntLe);
    var sk := SortedSet(keys, IntLe);
    KeysIn(sk, keys, hist);
    var items := seq(|sk|, i requires 0 <= i < |sk| => (sk[i], hist[sk[i]]));
    assert StrictlySortedBy(items, ItemLe) by {
      forall i, j | 0 <= i < j < |items| ensures ItemLe(items[i], items[j]) && items[i] != items[j] {
        assert IntLe(sk[i], sk[j]) && sk[i] != sk[j];
      }
    }
    assert forall x :: x in items <==> x.0 in hist && hist[x.0] == x.1 by {
      forall x ensures x in items <==> x.0 in hist && hist[x.0] == x.1 {
        if x.0 in hist && hist[x.0] == x.1 {
          var i :| 0 <= i < |sk| && sk[i] == x.0;
          assert items[i] == x;
        }
      }
    }
    items
  }

  /** Distinct keys of a table are two distinct items. */
  lemma TwoItems(items: seq<(int, int)>, hist: map<int, int>)
    requires IsItems(items, hist)
    ensures |items| >= 2 <==> exists k1, k2 :: k1 in hist && k2 in hist && k1 != k2
  {
    if |items| >= 2 {
      assert items[0] in items && items[1] in items;
      assert items[0].0 != items[1].0;
    }
    if exists k1, k2 :: k1 in hist && k2 in hist && k1 != k2 {
      var k1, k2 :| k1 in hist && k2 in hist && k1 != k2;
      assert (k1, hist[k1]) in items && (k2, hist[k2]) in items;
      var i :| 0 <= i < |items| && items[i] == (k1, hist[k1]);
      var j :| 0 <= j < |items| && items[j] == (k2, hist[k2]);
      assert i != j;
    }
  }

  // ---------------------------------------------------------------------
  // The rise/drop walk
  // ---------------------------------------------------------------------

  datatype Status = Rise | Drop

  /** The history that ends the walk. */
  const PeakHistory: seq<Status> := [Drop, Rise, Drop]

  /** The count does not fall from item j to item j + 1. */
  predicate Rises(items: seq<(int, int)>, j: int)
  {
    0 <= j && j + 1 < |items| && items[j].1 <= items[j + 1].1
  }

  /** The status of the pair (items[j], items[j + 1]). */
  function StatusAt(items: seq<(int, int)>, j: nat): Status
    requires j + 1 < |items|
  {
    if items[j].1 <= items[j + 1].1 then Rise else Drop
  }

  /** `history` after one more pair: a status is recorded only when it differs from the last. */
  function Record(history: seq<Status>, s: Status): seq<Status>
    requires |history| > 0
  {
    if history[|history| - 1] != s then history + [s] else history
  }

  /** The index of the pair at which the walk breaks, going on from pair j with `history`. */
  function StopFrom(items: seq<(int, int)>, j: nat, history: seq<Status>): (r: Option<nat>)
    requires |history| > 0
    ensures r.Some? ==> j <= r.value && r.value + 1 < |items|
    decreases |items| - j
  {
    if j + 1 >= |items| then None
    else
      var h := Record(history, StatusAt(items, j));
      if h == PeakHistory then Some(j) else StopFrom(items, j + 1, h)
  }

  /** Where the walk from the first pair, with history `["drop"]`, breaks. */
  function Stop(items: seq<(int, int)>): (r: Option<nat>)
    ensures r.Some? ==> r.value + 1 < |items|
  {
    StopFrom(items, 0, [Drop])
  }

  /** `Ka` after the walk: at the break, or the first item of the last pair; `None` when there is no pair. */
  function Coverage(items: seq<(int, int)>): Option<int>
  {
    if |items| < 2 then None
    else
      match Stop(items)
      case Some(j) => Some(items[j].0)
      case None => Some(items[|items| - 2].0)
  }

  /** The walk over consecutive pairs with its status history. */
  method Walk(items: seq<(int, int)>) returns (coverage: Option<int>)
    ensures coverage == Coverage(items)
  {
    if |items| < 2 {
      return None;
    }
    var history := [Drop];
    var j := 0;
    while j + 1 < |items|
      invariant 0 <= j <= |items| - 1
      invariant history == [Drop] || history == [Drop, Rise]
      invariant Stop(items) == StopFrom(items, j, history)
      decreases |items| - j
    {
      var status := if items[j].1 <= items[j + 1].1 then Rise else Drop;
      if history[|history| - 1] != status {
        history := history + [status];
      }
      if history == [Drop, Rise, Drop] {
        return Some(items[j].0);
      }
      j := j + 1;
    }
    return Some(items[|items| - 2].0);
  }

  /** Some pair before j rises. */
  predicate RiseBefore(items: seq<(int, int)>, j: int)
  {
    exists i :: 0 <= i < j && Rises(items, i)
  }

  /** Pair j drops after an earlier pair rose: the count peaks inside items[..j + 1]. */
  predicate IsPeakAt(items: seq<(int, int)>, j: int)
  {
    0 <= j && j + 1 < |items| && items[j].1 > items[j + 1].1 && RiseBefore(items, j)
  }

  /** The history the walk has built before pair j when no peak came earlier. */
  function HistoryBefore(items: seq<(int, int)>, j: int): seq<Status>
  {
    if RiseBefore(items, j) then [Drop, Rise] else [Drop]
  }

  lemma {:induction false} StopFromPeak(items: seq<(int, int)>, j: nat)
    requires forall i :: 0 <= i < j ==> !IsPeakAt(items, i)
    ensures var s := StopFrom(items, j, HistoryBefore(items, j));
      && (s.Some? ==> j <= s.value && IsPeakAt(items, s.value) && forall i :: 0 <= i < s.value ==> !IsPeakAt(items, i))
      && (s.None? ==> forall i :: 0 <= i < |items| ==> !IsPeakAt(items, i))
    decreases |items| - j
  {
    var h := HistoryBefore(items, j);
    if j + 1 < |items| {
      var h' := Record(h, StatusAt(items, j));
      if h' != PeakHistory {
        assert !IsPeakAt(items, j);
        assert h' == HistoryBefore(items, j + 1) by {
          if Rises(items, j) { assert RiseBefore(items, j + 1); }
          else if RiseBefore(items, j + 1) {
            var i :| 0 <= i < j + 1 && Rises(items, i);
            assert RiseBefore(items, j);
          }
        }
        StopFromPeak(items, j + 1);
      }
    } else {
      forall i | 0 <= i < |items| ensures !IsPeakAt(items, i) {
        if j <= i { assert i + 1 >= |items|; }
      }
    }
  }

  /**
   * The walk breaks at the first pair that drops after some earlier pair
   * rose, and runs to the end exactly when no pair does.
   */
  lemma StopIsFirstPeak(items: seq<(int, int)>)
    ensures Stop(items).Some? ==>
      IsPeakAt(items, Stop(items).value) && forall i :: 0 <= i < Stop(items).value ==> !IsPeakAt(items, i)
    ensures Stop(items).None? ==> forall i :: 0 <= i < |items| ==> !IsPeakAt(items, i)
  {
    assert HistoryBefore(items, 0) == [Drop];
    StopFromPeak(items, 0);
  }

  /** The coverage at a break is a local maximum of the counts: it rose into it and drops after it. */
  lemma FirstPeakRises(items: seq<(int, int)>, p: int)
    requires IsPeakAt(items, p)
    requires forall i :: 0 <= i < p ==> !IsPeakAt(items, i)
    ensures 0 < p && Rises(items, p - 1)
  {
    var i :| 0 <= i < p && Rises(items, i);
    if i < p - 1 {
      assert RiseBefore(items, p - 1);
      assert !IsPeakAt(items, p - 1);
    }
  }

  lemma CoverageIsLocalMax(items: seq<(int, int)>, p: nat)
    requires Stop(items) == Some(p)
    ensures 0 < p && p + 1 < |items|
    ensures items[p - 1].1 <= items[p].1 && items[p].1 > items[p + 1].1
    ensures Coverage(items) == Some(items[p].0)
  {
    StopIsFirstPeak(items);
    FirstPeakRises(items, p);
  }

  // ---------------------------------------------------------------------
  // Plot and report
  // ---------------------------------------------------------------------

  /** Only K up to this value is plotted. */
  const PlotMax := 100

  /** The items with K <= 100, in order. */
  function Plotted(items: seq<(int, int)>): seq<(int, int)>
    decreases |items|
  {
    if items == [] then []
    else
      var rest := Plotted(items[1..]);
      if items[0].0 <= PlotMax then [items[0]] + rest else rest
  }

  lemma {:induction false} PlottedSpec(items: seq<(int, int)>)
    requires StrictlySortedBy(items, ItemLe)
    ensures forall x :: x in Plotted(items) <==> x in items && x.0 <= PlotMax
    ensures StrictlySortedBy(Plotted(items), ItemLe)
    decreases |items|
  {
    if items != [] {
      var tail := items[1..];
      StrictlySortedTail(items, ItemLe);
      PlottedSpec(tail);
      assert forall x :: x in items <==> x == items[0] || x in tail by {
        assert items == [items[0]] + tail;
      }
      if items[0].0 <= PlotMax {
        forall y | y in Plotted(tail)
          ensures ItemLe(items[0], y) && items[0] != y
        {
          var k :| 0 <= k < |tail| && tail[k] == y;
          assert items[k + 1] == y;
        }
        StrictlySortedCons(items[0], Plotted(tail), ItemLe);
      }
    }
  }

  /** The part of a table that is plotted. */
  function Cut(hist: map<int, int>): map<int, int>
  {
    map k | k in hist && k <= PlotMax :: hist[k]
  }

  /** The plotted series is the sorted item list of the table cut to K <= 100. */
  lemma PlottedIsCut(items: seq<(int, int)>, hist: map<int, int>)
    requires IsItems(items, hist)
    ensures IsItems(Plotted(items), Cut(hist))
  {
    PlottedSpec(items);
  }

  /** The Ks seen are the keys of the table. */
  lemma KsKeys(ps: seq<(int, int)>)
    ensures forall k :: k in Ks(ps) <==> k in Hist(ps)
  {
    HistSpec(ps);
    forall k ensures k in Ks(ps) <==> k in Hist(ps) {
      if k in Hist(ps) {
        var i :| 0 <= i < |ps| && ps[i].0 == k;
        assert Ks(ps)[i] == k;
      }
    }
  }

  /** `sorted(hist.items())` for the table built from `ps`. */
  function TableItems(ps: seq<(int, int)>): (items: seq<(int, int)>)
    ensures IsItems(items, Hist(ps))
  {
    KsKeys(ps);
    SortedItems(Hist(ps), Ks(ps))
  }

  /** What the command prints and plots: the total, the coverage and the series. */
  datatype Report = Report(total: int, coverage: int, plotted: seq<(int, int)>)

  /**
   * What the command makes of the decoded rows. It raises (`None`) when
   * the table has fewer than two entries (`Ka` is never bound), when the
   * coverage is 0 (the genome size divides by it) and when no K is at most
   * 100 (the empty series cannot be unpacked).
   */
  function ReportOf(ps: seq<(int, int)>): Option<Report>
  {
    var items := TableItems(ps);
    match Coverage(items)
    case None => None
    case Some(ka) =>
      var plotted := Plotted(items);
      if ka == 0 || plotted == [] then None
      else Some(Report(Total(ps), ka, plotted))
  }

  /** The whole command; it also raises when a row does not decode. */
  function HistogramOf(rows: seq<string>): Option<Report>
  {
    match Read(rows)
    case None => None
    case Some(ps) => ReportOf(ps)
  }

  /** There is a coverage exactly when there is a pair, and it is the K of an item. */
  lemma CoverageDefined(items: seq<(int, int)>)
    ensures Coverage(items).Some? <==> |items| >= 2
    ensures Coverage(items).Some? ==> exists i :: 0 <= i < |items| && items[i].0 == Coverage(items).value
  {
    if |items| >= 2 {
      match Stop(items)
      case Some(j) =>
        assert items[j].0 == Coverage(items).value;
      case None =>
        assert items[|items| - 2].0 == Coverage(items).value;
    }
  }

  /** The series is empty exactly when no K of the table is at most 100. */
  lemma PlottedNonEmpty(items: seq<(int, int)>, hist: map<int, int>)
    requires IsItems(items, hist)
    ensures Plotted(items) != [] <==> exists k :: k in hist && k <= PlotMax
  {
    PlottedIsCut(items, hist);
    var plotted := Plotted(items);
    if exists k :: k in hist && k <= PlotMax {
      var k :| k in hist && k <= PlotMax;
      assert k in Cut(hist);
      assert (k, hist[k]) in plotted;
    }
    if plotted != [] {
      assert plotted[0] in plotted;
      assert plotted[0].0 in Cut(hist);
    }
  }

  /** When the command does not raise, and what it then reports. */
  lemma ReportSpec(ps: seq<(int, int)>)
    ensures ReportOf(ps).Some? <==>
      && (exists k1, k2 :: k1 in Hist(ps) && k2 in Hist(ps) && k1 != k2)
      && Coverage(TableItems(ps)) != Some(0)
      && exists k :: k in Hist(ps) && k <= PlotMax
    ensures ReportOf(ps).Some? ==>
      && ReportOf(ps).value.total == Total(ps)
      && ReportOf(ps).value.coverage in Hist(ps)
      && IsItems(ReportOf(ps).value.plotted, Cut(Hist(ps)))
  {
    var hist := Hist(ps);
    var items := TableItems(ps);
    TwoItems(items, hist);
    PlottedIsCut(items, hist);
    PlottedNonEmpty(items, hist);
    CoverageDefined(items);
    match Coverage(items)
    case None =>
      assert ReportOf(ps).None?;
    case Some(ka) =>
      var i :| 0 <= i < |items| && items[i].0 == ka;
      assert items[i] in items;
      var plotted := Plotted(items);
      assert ReportOf(ps) == if ka == 0 || plotted == [] then None else Some(Report(Total(ps), ka, plotted));
      assert |items| >= 2;
      assert (exists k1, k2 :: k1 in Hist(ps) && k2 in Hist(ps) && k1 != k2);
      assert (exists k :: k in Hist(ps) && k <= PlotMax) <==> plotted != [];
  }

  /** `histogram`: both passes over the file, the walk and the cut for the plot. */
  method Histogram(rows: seq<string>) returns (r: Option<Report>)
    ensures r == HistogramOf(rows)
  {
    var soap := GuessFormat(rows);
    var read := ReadRows(rows, soap);
    if read.None? {
      return None;
    }
    var Counted(hist, total, ks) := read.value;
    ghost var ps := Read(rows).value;
    KsKeys(ps);
    var items := SortedItems(hist, ks);
    var coverage := Walk(items);
    if coverage.None? {
      return None;
    }
    var plotted := Plotted(items);
    if coverage.value == 0 || plotted == [] {
      return None;
    }
    r := Some(Report(total, coverage.value, plotted));
  }
}
