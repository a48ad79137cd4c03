/**
 * The in-memory record logic of formats/fastq.py: quality offsets and the
 * reading of a four-line record, reverse complement of a light record,
 * barcode deconvolution, offset guessing, pairing of adjacent reads and the
 * split of appended reads.
 *
 * The source is Python 2: a record's text is a byte string, so a quality
 * character is a code in [0, 256) and `chr` refuses anything outside it.
 * A quality string is kept here as its list of codes (`quality`).
 * Reverse complement of a DNA string (jcvi.formats.fasta) is not part of
 * this model and is a parameter `rc`.
 */
module Fastq {
  import opened Util

  /** `qual_offset(x)`: 33 for "sanger", 64 for any other encoding name. */
  function QualOffset(x: string): (r: int)
    ensures r == 33 <==> x == "sanger"
    ensures r == 64 <==> x != "sanger"
  {
    if x == "sanger" then 33 else 64
  }

  // ---------------------------------------------------------------------
  // FastqRecord
  // ---------------------------------------------------------------------

  /** A record as read: name, sequence, quality codes and the id its key gives. */
  datatype FastqRecord = FastqRecord(name: string, sequence: string, quality: seq<int>, id: string)

  /** What reading the next four lines gives: the end of the stream, an error, or a record. */
  datatype Read = End | Failed | Record(rec: FastqRecord)

  /** The character codes of a string. */
  function Codes(s: string): (r: seq<int>)
    ensures |r| == |s| && forall i :: 0 <= i < |s| ==> r[i] == s[i] as int
  {
    seq(|s|, i requires 0 <= i < |s| => s[i] as int)
  }

  /** `chr(ord(x) + offset)` for each code; Python 2's `chr` raises outside [0, 256). */
  function Shift(codes: seq<int>, offset: int): (r: Option<seq<int>>)
    ensures r.Some? <==> offset == 0 || forall i :: 0 <= i < |codes| ==> 0 <= codes[i] + offset < 256
    ensures r.Some? ==> |r.value| == |codes| && forall i :: 0 <= i < |codes| ==> r.value[i] == codes[i] + offset
  {
    if offset == 0 || |codes| == 0 then Some(codes)
    else
      var n := |codes| - 1;
      var prev := Shift(codes[..n], offset);
      assert forall i :: 0 <= i < n ==> codes[..n][i] == codes[i];
      if prev.None? || !(0 <= codes[n] + offset < 256) then None
      else Some(prev.value + [codes[n] + offset])
  }

  /** Shifting byte codes by an offset and back by its negation restores them (what `convert` relies on). */
  lemma ShiftBack(codes: seq<int>, offset: int)
    requires forall i :: 0 <= i < |codes| ==> 0 <= codes[i] < 256
    requires Shift(codes, offset).Some?
    ensures Shift(Shift(codes, offset).value, -offset) == Some(codes)
  {
    var s := Shift(codes, offset).value;
    if offset != 0 {
      assert Shift(s, -offset).value == codes;
    }
  }

  /** `FastqRecord(fh, offset, key)` on the next four lines `l1`..`l4` (an exhausted file reads as ""). */
  function ReadRecord(l1: string, l2: string, l3: string, l4: string, offset: int, key: Option<string -> string>): Read
  {
    var words := Words(l1);
    if words == [] then End
    else
      var name := words[0];
      var sequence := RStrip(l2);
      match Shift(Codes(RStrip(l4)), offset)
      case None => Failed
      case Some(quality) =>
        if |sequence| != |quality| then Failed
        else Record(FastqRecord(name, sequence, quality, if key.Some? then key.value(name) else name))
  }

  /**
   * A blank first line ends the stream; otherwise the record takes the
   * first word as its name, the stripped second and fourth lines as
   * sequence and quality, shifted by `offset`, and fails when a shifted
   * code is not a byte or the two lengths differ.
   */
  lemma ReadRecordSpec(l1: string, l2: string, l3: string, l4: string, offset: int, key: Option<string -> string>)
    ensures var r := ReadRecord(l1, l2, l3, l4, offset, key);
      && (r.End? <==> Words(l1) == [])
      && (r.Failed? <==> Words(l1) != [] && (Shift(Codes(RStrip(l4)), offset).None? || |RStrip(l4)| != |RStrip(l2)|))
      && (r.Record? ==>
        && r.rec.name == Words(l1)[0]
        && r.rec.sequence == RStrip(l2)
        && Shift(Codes(RStrip(l4)), offset) == Some(r.rec.quality)
        && |r.rec.quality| == |r.rec.sequence|
        && r.rec.id == (if key.Some? then key.value(r.rec.name) else r.rec.name))
  {
  }

  /** Line `i` of a file, "" past its end, as `readline` returns. */
  function Line(lines: seq<string>, i: nat): string
  {
    if i < |lines| then lines[i] else ""
  }

  /** Record number `k` of a file read as `iter_fastq(filename)` does (offset 0, no key). */
  function RecordAt(lines: seq<string>, k: nat): (r: Read)
    ensures r.Record? ==> 4 * k < |lines|
  {
    assert Words("") == [];
    ReadRecord(Line(lines, 4 * k), Line(lines, 4 * k + 1), Line(lines, 4 * k + 2), Line(lines, 4 * k + 3), 0, None)
  }

  // ---------------------------------------------------------------------
  // guessoffset
  // ---------------------------------------------------------------------

  /** `len([x for x in quality if x < 59])` */
  function Low(quality: seq<int>): (n: nat)
    ensures n <= |quality|
  {
    if |quality| == 0 then 0 else Low(quality[1..]) + (if quality[0] < 59 then 1 else 0)
  }

  /** `len([x for x in quality if x > 74])` */
  function High(quality: seq<int>): (n: nat)
    ensures n <= |quality|
  {
    if |quality| == 0 then 0 else High(quality[1..]) + (if quality[0] > 74 then 1 else 0)
  }

  /** Codes in (74, ...) and in (..., 59) never overlap: together they are at most all of them. */
  lemma {:induction false} HighLowBound(quality: seq<int>)
    ensures High(quality) + Low(quality) <= |quality|
    ensures -|quality| <= High(quality) - Low(quality) <= |quality|
    decreases |quality|
  {
    if |quality| > 0 {
      HighLowBound(quality[1..]);
    }
  }

  function Diff(quality: seq<int>): int
  {
    High(quality) - Low(quality)
  }

  /** `records` reads nothing past record `n`. */
  ghost predicate Bounded(records: nat -> Read, n: nat)
  {
    forall k: nat :: records(k).Record? ==> k < n
  }

  /** The successive reads of `iter_fastq` on a file: none is a record past the file's end. */
  function Records(lines: seq<string>): (r: nat -> Read)
    ensures Bounded(r, |lines|)
  {
    (k: nat) => RecordAt(lines, k)
  }

  /**
   * The offset `guessoffset` settles on from record `k` on: a record of
   * length 0 is false in `while rec`, so it ends the loop like the end of
   * the file, with the default 64; a malformed record raises (None).
   */
  function Guess(records: nat -> Read, n: nat, k: nat): (r: Option<int>)
    requires Bounded(records, n)
    ensures r.Some? ==> r.value == 33 || r.value == 64
    decreases n - k
  {
    match records(k)
    case End => Some(64)
    case Failed => None
    case Record(rec) =>
      if |rec.sequence| == 0 then Some(64)
      else if Diff(rec.quality) > 10 then Some(64)
      else if Diff(rec.quality) < -10 then Some(33)
      else Guess(records, n, k + 1)
  }

  /** Record `k` is read, is not empty and has clearly more low than high codes. */
  predicate SangerAt(records: nat -> Read, k: nat)
  {
    records(k).Record? && |records(k).rec.sequence| > 0 && Diff(records(k).rec.quality) < -10
  }

  /** Record `k` is read, is not empty and decides nothing. */
  predicate UndecidedAt(records: nat -> Read, k: nat)
  {
    records(k).Record? && |records(k).rec.sequence| > 0 && -10 <= Diff(records(k).rec.quality) <= 10
  }

  /** One record's effect on the guess. */
  lemma GuessStep(records: nat -> Read, n: nat, k: nat)
    requires Bounded(records, n)
    ensures UndecidedAt(records, k) ==> Guess(records, n, k) == Guess(records, n, k + 1)
    ensures SangerAt(records, k) ==> Guess(records, n, k) == Some(33)
    ensures !UndecidedAt(records, k) && !SangerAt(records, k) ==> Guess(records, n, k) != Some(33)
  {
  }

  /** Undecided records up to a Sanger-looking one make the guess 33. */
  lemma {:induction false} SangerFound(records: nat -> Read, n: nat, k0: nat, k: nat)
    requires Bounded(records, n)
    requires k0 <= k && SangerAt(records, k)
    requires forall j :: k0 <= j < k ==> UndecidedAt(records, j)
    ensures Guess(records, n, k0) == Some(33)
    decreases k - k0
  {
    GuessStep(records, n, k0);
    if k0 < k {
      SangerFound(records, n, k0 + 1, k);
    }
  }

  /** A guess of 33 comes from a Sanger-looking record after undecided ones. */
  lemma {:induction false} SangerWitness(records: nat -> Read, n: nat, k0: nat) returns (k: nat)
    requires Bounded(records, n)
    requires Guess(records, n, k0) == Some(33)
    ensures k0 <= k && SangerAt(records, k)
    ensures forall j :: k0 <= j < k ==> UndecidedAt(records, j)
    decreases n - k0
  {
    GuessStep(records, n, k0);
    if UndecidedAt(records, k0) {
      k := SangerWitness(records, n, k0 + 1);
    } else {
      k := k0;
    }
  }

  /** The guess is 33 exactly when a Sanger-looking record comes after only undecided ones. */
  lemma GuessSanger(records: nat -> Read, n: nat, k0: nat)
    requires Bounded(records, n)
    ensures Guess(records, n, k0) == Some(33) <==>
      exists k :: k0 <= k && SangerAt(records, k) && forall j :: k0 <= j < k ==> UndecidedAt(records, j)
  {
    if Guess(records, n, k0) == Some(33) {
      var k := SangerWitness(records, n, k0);
    }
    if exists k :: k0 <= k && SangerAt(records, k) && forall j :: k0 <= j < k ==> UndecidedAt(records, j) {
      var k :| k0 <= k && SangerAt(records, k) && forall j :: k0 <= j < k ==> UndecidedAt(records, j);
      SangerFound(records, n, k0, k);
    }
  }

  /** `guessoffset`: reads records until one decides the encoding; 64 when none does. */
  method GuessOffset(lines: seq<string>) returns (r: Option<int>)
    ensures r == Guess(Records(lines), |lines|, 0)
  {
    ghost var records := Records(lines);
    var k: nat := 0;
    var rec := RecordAt(lines, k);
    var offset := 64;
    while rec.Record? && |rec.rec.sequence| > 0
      invariant rec == records(k)
      invariant offset == 64
      invariant Guess(records, |lines|, k) == Guess(records, |lines|, 0)
      decreases |lines| - k
    {
      var quality := rec.rec.quality;
      var lowcounts: int := Low(quality);
      var highcounts: int := High(quality);
      var diff := highcounts - lowcounts;
      GuessStep(records, |lines|, k);
      if diff > 10 {
        break;
      } else if diff < -10 {
        offset := 33;
        break;
      }
      k := k + 1;
      rec := RecordAt(lines, k);
    }
    if rec.Failed? {
      return None;
    }
    return Some(offset);
  }

  // ---------------------------------------------------------------------
  // FastqLite, splitread
  // ---------------------------------------------------------------------

  /** The four printed lines of a record. */
  function RecordText(name: string, sequence: string, qual: string): string
  {
    Join([name, sequence, "+", qual], '\n')
  }

  /** A printed record splits back, line by line, into its fields. */
  lemma RecordTextLines(name: string, sequence: string, qual: string)
    ensures NoChar(name, '\n') && NoChar(sequence, '\n') && NoChar(qual, '\n') ==>
      Split(RecordText(name, sequence, qual), '\n') == [name, sequence, "+", qual]
  {
    if NoChar(name, '\n') && NoChar(sequence, '\n') && NoChar(qual, '\n') {
      SplitJoin([name, sequence, "+", qual], '\n');
    }
  }

  /** A record held as its three text fields (`FastqLite`). */
  class FastqLite {
    var name: string
    var sequence: string
    var qual: string

    constructor (name: string, sequence: string, qual: string)
      ensures this.name == name && this.sequence == sequence && this.qual == qual
    {
      this.name, this.sequence, this.qual := name, sequence, qual;
    }

    /** `str(rec)` */
    function Str(): (r: string)
      reads this
      ensures NoChar(name, '\n') && NoChar(sequence, '\n') && NoChar(qual, '\n') ==>
        Split(r, '\n') == [name, sequence, "+", qual]
    {
      RecordTextLines(name, sequence, qual);
      RecordText(name, sequence, qual)
    }

    /** `rc()`: the sequence reverse-complemented, the quality reversed, in place. */
    method Rc(rc: string -> string)
      modifies this
      ensures name == old(name) && sequence == rc(old(sequence)) && qual == Reverse(old(qual))
    {
      sequence := rc(sequence);
      qual := Reverse(qual);
    }
  }

  /**
   * One read of `splitread`: the first `n` bases (Python slicing, so `n`
   * may be negative or beyond the end) go to read 1, the rest to read 2,
   * which is reverse-complemented with `--rc`.
   */
  method SplitRead(name: string, sequence: string, qual: string, n: int, rcFlag: bool, rc: string -> string)
    returns (rec1: FastqLite, rec2: FastqLite)
    ensures fresh(rec1) && fresh(rec2)
    ensures rec1.name == "@" + name && rec2.name == "@" + name
    ensures rec1.sequence == Head(sequence, n) && rec1.qual == Head(qual, n)
    ensures rec2.sequence == (if rcFlag then rc(Tail(sequence, n)) else Tail(sequence, n))
    ensures !rcFlag ==> rec1.sequence + rec2.sequence == sequence
    ensures rec1.qual + (if rcFlag then Reverse(rec2.qual) else rec2.qual) == qual
  {
    rec1 := new FastqLite("@" + name, Head(sequence, n), Head(qual, n));
    rec2 := new FastqLite("@" + name, Tail(sequence, n), Tail(qual, n));
    if rcFlag {
      rec2.Rc(rc);
      ReverseInvolution(Tail(qual, n));
    }
  }

  // ---------------------------------------------------------------------
  // deconvolute, split_barcode
  // ---------------------------------------------------------------------

  /** A line of the barcode file: an id and a barcode sequence. */
  datatype Barcode = Barcode(id: string, sequence: string)

  /** `BarcodeLine._make(x.split())`: exactly two words, anything else raises. */
  function ParseBarcode(line: string): (r: Option<Barcode>)
    ensures r.Some? <==> |Words(line)| == 2
    ensures r.Some? ==> r.value == Barcode(Words(line)[0], Words(line)[1])
  {
    var w := Words(line);
    if |w| == 2 then Some(Barcode(w[0], w[1])) else None
  }

  /** `s` shares the prefix `bc` and goes further: reads of `s` must not go to `bc`. */
  predicate Extends(bc: Barcode, s: Barcode)
  {
    bc.id != s.id && IsPrefix(bc.sequence, s.sequence) && |s.sequence| > |bc.sequence|
  }

  /** The exclude list of `bc`: the barcodes extending it, in file order. */
  function Excluded(barcodes: seq<Barcode>, bc: Barcode): seq<Barcode>
  {
    if |barcodes| == 0 then []
    else
      var n := |barcodes| - 1;
      var prev := Excluded(barcodes[..n], bc);
      if Extends(bc, barcodes[n]) then prev + [barcodes[n]] else prev
  }

  /** The exclude list holds exactly the barcodes extending `bc`, in their order in the file. */
  lemma {:induction false} ExcludedSpec(barcodes: seq<Barcode>, bc: Barcode)
    ensures forall s :: s in Excluded(barcodes, bc) <==> s in barcodes && Extends(bc, s)
    ensures IsSubseq(Excluded(barcodes, bc), barcodes)
    decreases |barcodes|
  {
    if |barcodes| > 0 {
      var n := |barcodes| - 1;
      var prev := Excluded(barcodes[..n], bc);
      ExcludedSpec(barcodes[..n], bc);
      assert barcodes == barcodes[..n] + [barcodes[n]];
      if Extends(bc, barcodes[n]) {
        IsSubseqAppend(prev, barcodes[..n], barcodes[n]);
      } else {
        IsSubseqExtend(prev, barcodes[..n], barcodes[n]);
      }
    }
  }

  /** No barcode of another id has the sequence of `bc`. */
  predicate DistinctFrom(barcodes: seq<Barcode>, bc: Barcode)
  {
    forall s :: s in barcodes && s.id != bc.id ==> s.sequence != bc.sequence
  }

  /** Barcodes under different ids have different sequences (the sanity assertion). */
  predicate DistinctBarcodes(barcodes: seq<Barcode>)
  {
    forall bc :: bc in barcodes ==> DistinctFrom(barcodes, bc)
  }

  /** The exclude lists of `deconvolute`, one per barcode; a repeated sequence under two ids raises. */
  method ExcludeLists(barcodes: seq<Barcode>) returns (r: Option<seq<seq<Barcode>>>)
    ensures r.Some? <==> DistinctBarcodes(barcodes)
    ensures r.Some? ==> |r.value| == |barcodes|
    ensures r.Some? ==> forall i :: 0 <= i < |barcodes| ==> r.value[i] == Excluded(barcodes, barcodes[i])
  {
    var lists: seq<seq<Barcode>> := [];
    var i := 0;
    while i < |barcodes|
      invariant 0 <= i <= |barcodes| && |lists| == i
      invariant forall a :: 0 <= a < i ==> lists[a] == Excluded(barcodes, barcodes[a])
      invariant forall a :: 0 <= a < i ==> DistinctFrom(barcodes, barcodes[a])
    {
      var bc := barcodes[i];
      var exclude: seq<Barcode> := [];
      var j := 0;
      while j < |barcodes|
        invariant 0 <= j <= |barcodes|
        invariant exclude == Excluded(barcodes[..j], bc)
        invariant DistinctFrom(barcodes[..j], bc)
      {
        var s := barcodes[j];
        assert barcodes[..j + 1] == barcodes[..j] + [s];
        if bc.id == s.id {
          j := j + 1;
          continue;
        }
        if bc.sequence == s.sequence {
          assert bc in barcodes && !DistinctFrom(barcodes, bc);
          return None;
        }
        if IsPrefix(bc.sequence, s.sequence) && |s.sequence| > |bc.sequence| {
          exclude := exclude + [s];
        }
        j := j + 1;
      }
      assert barcodes[..j] == barcodes;
      lists := lists + [exclude];
      i := i + 1;
    }
    r := Some(lists);
  }

  /** A read as `FastqGeneralIterator` gives it: title, sequence, quality. */
  datatype FastqRead = FastqRead(title: string, sequence: string, qual: string)

  /** `split_barcode` writes a read for `bc` when its first bases are the barcode and no excluded barcode starts it. */
  predicate Keeps(bc: Barcode, exclude: seq<Barcode>, sequence: string)
  {
    Head(sequence, |bc.sequence|) == bc.sequence && forall x :: x in exclude ==> !IsPrefix(x.sequence, sequence)
  }

  /** The read with the barcode cut off both sequence and quality. */
  function Trimmed(read: FastqRead, trim: nat): FastqRead
  {
    FastqRead(read.title, Tail(read.sequence, trim), Tail(read.qual, trim))
  }

  /** The reads written to the barcode's file, in input order. */
  function SplitBarcode(bc: Barcode, exclude: seq<Barcode>, input: seq<FastqRead>): (r: seq<FastqRead>)
    ensures |r| <= |input|
    ensures forall out :: out in r <==> exists i :: 0 <= i < |input| && Keeps(bc, exclude, input[i].sequence) && out == Trimmed(input[i], |bc.sequence|)
  {
    if |input| == 0 then []
    else
      var n := |input| - 1;
      var prev := SplitBarcode(bc, exclude, input[..n]);
      assert forall i :: 0 <= i < n ==> input[..n][i] == input[i];
      if Keeps(bc, exclude, input[n].sequence) then prev + [Trimmed(input[n], |bc.sequence|)] else prev
  }

  /** Every read with the barcode's length cut off. */
  function TrimmedAll(input: seq<FastqRead>, trim: nat): (r: seq<FastqRead>)
    ensures |r| == |input| && forall i :: 0 <= i < |input| ==> r[i] == Trimmed(input[i], trim)
  {
    seq(|input|, i requires 0 <= i < |input| => Trimmed(input[i], trim))
  }

  /** The reads are written in input order: the output is a subsequence of the trimmed input. */
  lemma {:induction false} SplitBarcodeInOrder(bc: Barcode, exclude: seq<Barcode>, input: seq<FastqRead>)
    ensures IsSubseq(SplitBarcode(bc, exclude, input), TrimmedAll(input, |bc.sequence|))
    decreases |input|
  {
    if |input| > 0 {
      var n := |input| - 1;
      var t := |bc.sequence|;
      var prev := SplitBarcode(bc, exclude, input[..n]);
      SplitBarcodeInOrder(bc, exclude, input[..n]);
      assert TrimmedAll(input, t) == TrimmedAll(input[..n], t) + [Trimmed(input[n], t)];
      if Keeps(bc, exclude, input[n].sequence) {
        IsSubseqAppend(prev, TrimmedAll(input[..n], t), Trimmed(input[n], t));
      } else {
        IsSubseqExtend(prev, TrimmedAll(input[..n], t), Trimmed(input[n], t));
      }
    }
  }

  /** A kept read starts with the barcode and the written sequence is what follows it. */
  lemma KeepsPrefix(bc: Barcode, exclude: seq<Barcode>, read: FastqRead)
    requires Keeps(bc, exclude, read.sequence)
    ensures IsPrefix(bc.sequence, read.sequence)
    ensures bc.sequence + Trimmed(read, |bc.sequence|).sequence == read.sequence
  {
  }

  /**
   * A read kept for `bc` is started by no longer barcode of another id:
   * every other barcode that starts it is shorter than `bc`.
   */
  lemma KeptByLongest(barcodes: seq<Barcode>, bc: Barcode, other: Barcode, sequence: string)
    requires DistinctBarcodes(barcodes) && bc in barcodes && other in barcodes && other.id != bc.id
    requires Keeps(bc, Excluded(barcodes, bc), sequence) && IsPrefix(other.sequence, sequence)
    ensures |other.sequence| < |bc.sequence|
  {
    ExcludedSpec(barcodes, bc);
    assert other !in Excluded(barcodes, bc);
    assert other.sequence != bc.sequence;
  }

  /**
   * With the exclude lists `deconvolute` computes, no read is written for
   * two barcodes of different ids: the shorter of two barcodes that both
   * start the read is excluded by the longer.
   */
  lemma DeconvoluteUnambiguous(barcodes: seq<Barcode>, i: nat, j: nat, sequence: string)
    requires DistinctBarcodes(barcodes)
    requires i < |barcodes| && j < |barcodes| && barcodes[i].id != barcodes[j].id
    ensures !(Keeps(barcodes[i], Excluded(barcodes, barcodes[i]), sequence) && Keeps(barcodes[j], Excluded(barcodes, barcodes[j]), sequence))
  {
    var bi, bj := barcodes[i], barcodes[j];
    if Keeps(bi, Excluded(barcodes, bi), sequence) && Keeps(bj, Excluded(barcodes, bj), sequence) {
      KeptByLongest(barcodes, bi, bj, sequence);
      KeptByLongest(barcodes, bj, bi, sequence);
    }
  }

  // ---------------------------------------------------------------------
  // pairinplace
  // ---------------------------------------------------------------------

  /** Each pair is two adjacent records with the same id, pairs in file order without overlap. */
  predicate PairsWell(ids: seq<string>, pairs: seq<(nat, nat)>)
  {
    && (forall m :: 0 <= m < |pairs| ==> pairs[m].1 == pairs[m].0 + 1 < |ids| && ids[pairs[m].0] == ids[pairs[m].1])
    && (forall m, m' :: 0 <= m < m' < |pairs| ==> pairs[m].1 < pairs[m'].0)
  }

  /** Each fragment is the last record or one whose successor has another id, in file order. */
  predicate FragsWell(ids: seq<string>, frags: seq<nat>)
  {
    && (forall m :: 0 <= m < |frags| ==> frags[m] < |ids| && (frags[m] == |ids| - 1 || ids[frags[m]] != ids[frags[m] + 1]))
    && (forall m, m' :: 0 <= m < m' < |frags| ==> frags[m] < frags[m'])
  }

  predicate Paired(pairs: seq<(nat, nat)>, i: nat)
  {
    exists m :: 0 <= m < |pairs| && (pairs[m].0 == i || pairs[m].1 == i)
  }

  lemma PairedSnoc(pairs: seq<(nat, nat)>, p: (nat, nat))
    ensures forall i :: Paired(pairs + [p], i) <==> Paired(pairs, i) || p.0 == i || p.1 == i
  {
    var ps := pairs + [p];
    forall i | Paired(ps, i) ensures Paired(pairs, i) || p.0 == i || p.1 == i {
      var m :| 0 <= m < |ps| && (ps[m].0 == i || ps[m].1 == i);
      if m < |pairs| {
        assert pairs[m] == ps[m];
      }
    }
    forall i | Paired(pairs, i) ensures Paired(ps, i) {
      var m :| 0 <= m < |pairs| && (pairs[m].0 == i || pairs[m].1 == i);
      assert ps[m] == pairs[m];
    }
    assert ps[|pairs|] == p;
  }

  /** Records `0..w` are each written to exactly one file and nothing beyond them is written. */
  predicate WrittenOnce(pairs: seq<(nat, nat)>, frags: seq<nat>, w: nat)
  {
    && (forall i: nat :: i < w ==> Paired(pairs, i) != (i in frags))
    && (forall m :: 0 <= m < |pairs| ==> pairs[m].1 < w)
    && (forall m :: 0 <= m < |frags| ==> frags[m] < w)
  }

  /** The state of `pairinplace` once the records before `w` are written. */
  predicate PairingState(ids: seq<string>, pairs: seq<(nat, nat)>, frags: seq<nat>, w: nat)
  {
    PairsWell(ids, pairs) && FragsWell(ids, frags) && WrittenOnce(pairs, frags, w)
  }

  /** Writing records `k` and `k + 1` (same id) as a pair. */
  lemma PairStep(ids: seq<string>, pairs: seq<(nat, nat)>, frags: seq<nat>, k: nat)
    requires PairingState(ids, pairs, frags, k)
    requires k + 1 < |ids| && ids[k] == ids[k + 1]
    ensures PairingState(ids, pairs + [(k, k + 1)], frags, k + 2)
  {
    PairedSnoc(pairs, (k, k + 1));
    var ps := pairs + [(k, k + 1)];
    assert forall m :: 0 <= m < |pairs| ==> ps[m] == pairs[m];
  }

  /** Writing record `k` as a fragment: it is the last, or its successor has another id. */
  lemma FragStep(ids: seq<string>, pairs: seq<(nat, nat)>, frags: seq<nat>, k: nat)
    requires PairingState(ids, pairs, frags, k)
    requires k < |ids| && (k == |ids| - 1 || ids[k] != ids[k + 1])
    ensures PairingState(ids, pairs, frags + [k], k + 1)
  {
    var fs := frags + [k];
    assert forall m :: 0 <= m < |frags| ==> fs[m] == frags[m];
    assert forall i :: i in fs <==> i in frags || i == k;
  }

  /**
   * `pairinplace` on the ids of the records in file order: adjacent records
   * with the same id go to the pairs file as a unit (given by their
   * positions), every other record to the frags file. An empty file leaves
   * `a` unbound at the last step and raises (None).
   */
  method PairInPlace(ids: seq<string>) returns (r: Option<(seq<(nat, nat)>, seq<nat>)>)
    ensures r.None? <==> |ids| == 0
    ensures r.Some? ==> PairsWell(ids, r.value.0) && FragsWell(ids, r.value.1)
    ensures r.Some? ==> WrittenOnce(r.value.0, r.value.1, |ids|)
  {
    if |ids| == 0 {
      return None;
    }
    var pairs: seq<(nat, nat)> := [];
    var frags: seq<nat> := [];
    var skipflag := false;
    var k := 0;
    while k < |ids| - 1
      invariant 0 <= k <= |ids| - 1
      invariant skipflag ==> |pairs| > 0 && pairs[|pairs| - 1].1 == k
      invariant PairingState(ids, pairs, frags, if skipflag then k + 1 else k)
    {
      if skipflag {
        skipflag := false;
      } else if ids[k] == ids[k + 1] {
        PairStep(ids, pairs, frags, k);
        pairs := pairs + [(k, k + 1)];
        skipflag := true;
      } else {
        FragStep(ids, pairs, frags, k);
        frags := frags + [k];
      }
      k := k + 1;
    }
    if !skipflag {
      FragStep(ids, pairs, frags, k);
      frags := frags + [k];
    }
    return Some((pairs, frags));
  }
}
