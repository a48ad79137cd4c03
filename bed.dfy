/**
 * formats/bed.py: one BED line is `seqid start end accn [more columns]`,
 * tab separated, with a 0-based start on disk and a 1-based start in memory;
 * a `Bed` is the list of a file's lines, sorted by `(seqid, start, accn)`.
 */
module Bed {
  import opened Util

  /** `BedLine`; `stuff` is `None` when the line has only four columns. */
  datatype BedLine = BedLine(seqid: string, start: int, end: int, accn: string, stuff: Option<seq<string>>)

  /** `BedLine(sline)`: `None` where the Python constructor raises. */
  function ParseLine(sline: string): (r: Option<BedLine>)
    ensures r.Some? ==> NoChar(r.value.seqid, '\t') && NoChar(r.value.accn, '\t')
    ensures r.Some? && r.value.stuff.Some? ==> |r.value.stuff.value| > 0
  {
    ParseArgs(Split(Strip(sline), '\t'))
  }

  /** The constructor once the stripped line is split on tabs into `args`. */
  function ParseArgs(args: seq<string>): (r: Option<BedLine>)
  {
    if |args| < 4 then None
    else
      var start, end := ParseInt(args[1]), ParseInt(args[2]);
      if start.None? || end.None? then None
      else Some(BedLine(args[0], start.value + 1, end.value, args[3], if |args| > 4 then Some(args[4..]) else None))
  }

  /** `str(bedline)` */
  function PrintLine(b: BedLine): string
  {
    var s := Join([b.seqid, IntToString(b.start - 1), IntToString(b.end), b.accn], '\t');
    if b.stuff.Some? && |b.stuff.value| > 0 then s + "\t" + Join(b.stuff.value, '\t') else s
  }

  /** The columns `PrintLine` writes, in order. */
  function Columns(b: BedLine): seq<string>
  {
    [b.seqid, IntToString(b.start - 1), IntToString(b.end), b.accn]
      + (if b.stuff.Some? && |b.stuff.value| > 0 then b.stuff.value else [])
  }

  lemma {:induction false} JoinAppend(a: seq<string>, b: seq<string>, sep: char)
    requires |a| > 0 && |b| > 0
    ensures Join(a + b, sep) == Join(a, sep) + [sep] + Join(b, sep)
    decreases |a|
  {
    if |a| > 1 {
      JoinAppend(a[1..], b, sep);
      assert (a + b)[1..] == a[1..] + b;
    } else {
      assert (a + b)[1..] == b;
    }
  }

  lemma PrintColumns(b: BedLine)
    ensures PrintLine(b) == Join(Columns(b), '\t')
  {
    var head := [b.seqid, IntToString(b.start - 1), IntToString(b.end), b.accn];
    if b.stuff.Some? && |b.stuff.value| > 0 {
      JoinAppend(head, b.stuff.value, '\t');
    } else {
      assert Columns(b) == head;
    }
  }

  lemma JoinFirst(fields: seq<string>, sep: char)
    requires |fields| > 0 && |fields[0]| > 0
    ensures |Join(fields, sep)| > 0 && Join(fields, sep)[0] == fields[0][0]
  {
  }

  lemma {:induction false} JoinLast(fields: seq<string>, sep: char)
    requires |fields| > 0 && |fields[|fields| - 1]| > 0
    ensures |Join(fields, sep)| > 0
    ensures Join(fields, sep)[|Join(fields, sep)| - 1] == fields[|fields| - 1][|fields[|fields| - 1]| - 1]
    decreases |fields|
  {
    if |fields| > 1 {
      JoinLast(fields[1..], sep);
    }
  }

  /**
   * A line that prints and reads back unchanged: no tab inside a text column,
   * no whitespace at either end of the printed line, and `stuff` present only
   * when non-empty.
   */
  predicate Printable(b: BedLine)
  {
    && NoChar(b.seqid, '\t') && NoChar(b.accn, '\t')
    && |b.seqid| > 0 && !IsSpace(b.seqid[0])
    && (b.stuff.Some? ==> |b.stuff.value| > 0 && forall i :: 0 <= i < |b.stuff.value| ==> NoChar(b.stuff.value[i], '\t'))
    && var last := if b.stuff.Some? then b.stuff.value[|b.stuff.value| - 1] else b.accn;
       |last| > 0 && !IsSpace(last[|last| - 1])
  }

  /** A printable line splits back into the columns it was printed from. */
  lemma SplitPrinted(b: BedLine)
    requires Printable(b)
    ensures Split(Strip(PrintLine(b)), '\t') == Columns(b)
  {
    var cols := Columns(b);
    PrintColumns(b);
    JoinFirst(cols, '\t');
    JoinLast(cols, '\t');
    StripNoSpaceEnds(PrintLine(b));
    forall i | 0 <= i < |cols| ensures NoChar(cols[i], '\t') {
      if i == 1 {
        assert cols[i] == IntToString(b.start - 1);
      } else if i == 2 {
        assert cols[i] == IntToString(b.end);
      } else if i > 3 {
        assert cols[i] == b.stuff.value[i - 4];
      }
    }
    SplitJoin(cols, '\t');
  }

  lemma ParseColumns(b: BedLine, s: string)
    requires b.stuff.Some? ==> |b.stuff.value| > 0
    requires Split(Strip(s), '\t') == Columns(b)
    ensures ParseLine(s) == Some(b)
  {
    ArgsColumns(b);
  }

  /** The columns of a line are read back as that line. */
  lemma ArgsColumns(b: BedLine)
    requires b.stuff.Some? ==> |b.stuff.value| > 0
    ensures ParseArgs(Columns(b)) == Some(b)
  {
    var rest := if b.stuff.Some? && |b.stuff.value| > 0 then b.stuff.value else [];
    ParseIntToString(b.start - 1);
    ParseIntToString(b.end);
    ArgsOf(b.seqid, IntToString(b.start - 1), IntToString(b.end), b.accn, rest, b.start - 1, b.end);
  }

  /** Four leading columns with integer start and end, then the rest as `stuff` when there is any. */
  lemma ArgsOf(seqid: string, start: string, end: string, accn: string, rest: seq<string>, x: int, y: int)
    requires ParseInt(start) == Some(x) && ParseInt(end) == Some(y)
    ensures ParseArgs([seqid, start, end, accn] + rest) ==
      Some(BedLine(seqid, x + 1, y, accn, if |rest| > 0 then Some(rest) else None))
  {
    var args := [seqid, start, end, accn] + rest;
    assert args[1] == start && args[2] == end;
    assert args[4..] == rest;
  }

  /** Reading a printed line gives the line back: the start is shifted down and up again. */
  lemma ParsePrint(b: BedLine)
    requires Printable(b)
    ensures ParseLine(PrintLine(b)) == Some(b)
  {
    SplitPrinted(b);
    ParseColumns(b, PrintLine(b));
  }

  /**
   * Printing a parsed line gives the stripped input back when both integer
   * columns were written the way `str` writes integers.
   */
  lemma PrintParse(sline: string)
    requires ParseLine(sline).Some?
    requires var args := Split(Strip(sline), '\t');
      args[1] == IntToString(ParseInt(args[1]).value) && args[2] == IntToString(ParseInt(args[2]).value)
    ensures PrintLine(ParseLine(sline).value) == Strip(sline)
  {
    var args := Split(Strip(sline), '\t');
    var b := ParseLine(sline).value;
    PrintColumns(b);
    ColumnsArgs(args);
    JoinSplit(Strip(sline), '\t');
  }

  /** Columns read in with integers written as `str` writes them are printed back unchanged. */
  lemma ColumnsArgs(args: seq<string>)
    requires ParseArgs(args).Some?
    requires args[1] == IntToString(ParseInt(args[1]).value) && args[2] == IntToString(ParseInt(args[2]).value)
    ensures Columns(ParseArgs(args).value) == args
  {
    if |args| == 4 {
      assert args == args[..4];
    } else {
      assert args == args[..4] + args[4..];
    }
  }

  /** The default sort key `(seqid, start, accn)`, compared as Python compares tuples. */
  predicate KeyLe(a: BedLine, b: BedLine)
  {
    || StrLt(a.seqid, b.seqid)
    || (a.seqid == b.seqid && a.start < b.start)
    || (a.seqid == b.seqid && a.start == b.start && StrLe(a.accn, b.accn))
  }

  lemma KeyLeTotalPreorder()
    ensures TotalPreorder(KeyLe)
  {
    StrLeTotalOrder();
    forall a, b ensures KeyLe(a, b) || KeyLe(b, a) {
      StrLtTrichotomy(a.seqid, b.seqid);
    }
    forall a, b, c | KeyLe(a, b) && KeyLe(b, c) ensures KeyLe(a, c) {
      if StrLt(a.seqid, b.seqid) && StrLt(b.seqid, c.seqid) {
        StrLtTransitive(a.seqid, b.seqid, c.seqid);
      }
    }
  }

  /**
   * The records of a file's lines, in file order: lines starting with `#`
   * are skipped, an empty line or one `BedLine` rejects makes it `None`.
   */
  function ParseLines(lines: seq<string>): Option<seq<BedLine>>
  {
    if |lines| == 0 then Some([])
    else
      var last := lines[|lines| - 1];
      match ParseLines(lines[..|lines| - 1])
      case None => None
      case Some(rs) =>
        if |last| == 0 then None
        else if last[0] == '#' then Some(rs)
        else match ParseLine(last)
          case None => None
          case Some(b) => Some(rs + [b])
  }

  lemma {:induction false} ParseLinesFails(lines: seq<string>, i: nat)
    requires i <= |lines| && ParseLines(lines[..i]) == None
    ensures ParseLines(lines) == None
    decreases |lines| - i
  {
    if i < |lines| {
      assert lines[..i + 1][..i] == lines[..i];
      ParseLinesFails(lines, i + 1);
    } else {
      assert lines[..i] == lines;
    }
  }

  /** Every record is a parsed non-comment line. */
  lemma {:induction false} ParseLinesSound(lines: seq<string>)
    requires ParseLines(lines).Some?
    ensures forall b :: b in ParseLines(lines).value ==>
      exists l :: l in lines && |l| > 0 && l[0] != '#' && ParseLine(l) == Some(b)
  {
    if |lines| > 0 {
      var init := lines[..|lines| - 1];
      var last := lines[|lines| - 1];
      ParseLinesSound(init);
      var v, vi := ParseLines(lines).value, ParseLines(init).value;
      forall b | b in v ensures exists l :: l in lines && |l| > 0 && l[0] != '#' && ParseLine(l) == Some(b) {
        if b in vi {
          var l :| l in init && |l| > 0 && l[0] != '#' && ParseLine(l) == Some(b);
          assert l in lines;
        } else {
          assert last in lines;
        }
      }
    }
  }

  /** Every line is non-empty and is a comment or has its record. */
  lemma {:induction false} ParseLinesComplete(lines: seq<string>)
    requires ParseLines(lines).Some?
    ensures forall l :: l in lines ==>
      |l| > 0 && (l[0] == '#' || (ParseLine(l).Some? && ParseLine(l).value in ParseLines(lines).value))
  {
    if |lines| > 0 {
      var init := lines[..|lines| - 1];
      var last := lines[|lines| - 1];
      ParseLinesComplete(init);
      var v, vi := ParseLines(lines).value, ParseLines(init).value;
      assert |last| > 0;
      if last[0] != '#' {
        assert v == vi + [ParseLine(last).value];
      } else {
        assert v == vi;
      }
      forall l | l in lines
        ensures |l| > 0 && (l[0] == '#' || (ParseLine(l).Some? && ParseLine(l).value in v))
      {
        var i :| 0 <= i < |lines| && lines[i] == l;
        if i < |init| {
          assert init[i] == l;
        }
      }
    }
  }

  /** A `Bed`: the records of one file, kept sorted. */
  class Bed {
    var records: seq<BedLine>

    /** `Bed()` with no file name. */
    constructor Empty()
      ensures records == []
    {
      records := [];
    }

    /**
     * `Bed(filename)` on the file's lines: the non-comment lines parsed and
     * appended one by one, then sorted in place by the default key.
     */
    static method Read(lines: seq<string>) returns (r: Option<Bed>)
      ensures r.Some? <==> ParseLines(lines).Some?
      ensures r.Some? ==> fresh(r.value)
      ensures r.Some? ==> r.value.records == SortBy(ParseLines(lines).value, KeyLe)
      ensures r.Some? ==> SortedBy(r.value.records, KeyLe)
      ensures r.Some? ==> multiset(r.value.records) == multiset(ParseLines(lines).value)
      ensures r.Some? ==> forall x :: Ties(r.value.records, x, KeyLe) == Ties(ParseLines(lines).value, x, KeyLe)
    {
      var bed := new Bed.Empty();
      var i := 0;
      while i < |lines|
        invariant 0 <= i <= |lines|
        invariant ParseLines(lines[..i]) == Some(bed.records)
      {
        var line := lines[i];
        assert lines[..i + 1][..i] == lines[..i];
        if |line| == 0 {
          ParseLinesFails(lines, i + 1);
          return None;
        }
        if line[0] != '#' {
          var b := ParseLine(line);
          if b.None? {
            ParseLinesFails(lines, i + 1);
            return None;
          }
          bed.records := bed.records + [b.value];
        }
        i := i + 1;
      }
      assert lines[..i] == lines;
      KeyLeTotalPreorder();
      SortBySorted(bed.records, KeyLe);
      forall x ensures Ties(SortBy(bed.records, KeyLe), x, KeyLe) == Ties(bed.records, x, KeyLe) {
        SortByStable(bed.records, x, KeyLe);
      }
      bed.records := SortBy(bed.records, KeyLe);
      r := Some(bed);
    }
  }

  /** `seqids`: the distinct sequence names, sorted. */
  function Seqids(records: seq<BedLine>): (r: seq<string>)
    ensures StrictlySortedBy(r, StrLe)
    ensures forall x :: x in r <==> exists b :: b in records && b.seqid == x
  {
    var names := seq(|records|, i requires 0 <= i < |records| => records[i].seqid);
    StrLeTotalOrder();
    SortedSetSpec(names, StrLe);
    assert forall i :: 0 <= i < |records| ==> names[i] == records[i].seqid;
    assert forall x :: x in names <==> exists b :: b in records && b.seqid == x by {
      forall x ensures x in names <==> exists b :: b in records && b.seqid == x {
        if x in names {
          var i :| 0 <= i < |names| && names[i] == x;
          assert records[i] in records;
        }
        if b :| b in records && b.seqid == x {
          var i :| 0 <= i < |records| && records[i] == b;
          assert names[i] == x;
        }
      }
    }
    SortedSet(names, StrLe)
  }

  /** One value of `order`: the position of a record and the record. */
  datatype Indexed = Indexed(index: nat, line: BedLine)

  /** `order`: each accession to its position, built in list order. */
  function Order(records: seq<BedLine>): map<string, Indexed>
  {
    if |records| == 0 then map[]
    else
      var n := |records| - 1;
      Order(records[..n])[records[n].accn := Indexed(n, records[n])]
  }

  /** Every accession is a key, and a repeated accession keeps its last position. */
  lemma {:induction false} OrderSpec(records: seq<BedLine>)
    ensures forall a :: a in Order(records) <==> exists i :: 0 <= i < |records| && records[i].accn == a
    ensures forall a :: a in Order(records) ==>
      && Order(records)[a].index < |records|
      && records[Order(records)[a].index] == Order(records)[a].line
      && Order(records)[a].line.accn == a
      && forall j :: Order(records)[a].index < j < |records| ==> records[j].accn != a
  {
    if |records| > 0 {
      var n := |records| - 1;
      var init := records[..n];
      OrderSpec(init);
      var r, prev := Order(records), Order(init);
      assert forall i :: 0 <= i < n ==> init[i] == records[i];
      forall a ensures a in r <==> exists i :: 0 <= i < |records| && records[i].accn == a {
        if a in prev {
          var i :| 0 <= i < n && init[i].accn == a;
          assert records[i].accn == a;
        }
        if i :| 0 <= i < |records| && records[i].accn == a {
          if i < n {
            assert init[i].accn == a;
          }
        }
      }
    }
  }

  /** `simple_bed`: each record's sequence name with its position. */
  function SimpleBed(records: seq<BedLine>): (r: seq<(string, nat)>)
    ensures |r| == |records|
    ensures forall i :: 0 <= i < |r| ==> r[i] == (records[i].seqid, i)
  {
    seq(|records|, i requires 0 <= i < |records| => (records[i].seqid, i))
  }

  /**
   * `simple_bed` and `order` agree: the entry at an accession's order
   * position names that accession's sequence.
   */
  lemma SimpleBedOrder(records: seq<BedLine>)
    ensures forall a :: a in Order(records) ==>
      && Order(records)[a].index < |SimpleBed(records)|
      && SimpleBed(records)[Order(records)[a].index] == (Order(records)[a].line.seqid, Order(records)[a].index)
  {
    OrderSpec(records);
  }

  /** `sub_bed(seqid)`: the records on one sequence, in stored order. */
  function SubBed(records: seq<BedLine>, seqid: string): (r: seq<BedLine>)
    ensures forall b :: b in r <==> b in records && b.seqid == seqid
    ensures IsSubseq(r, records)
  {
    if |records| == 0 then []
    else if records[0].seqid == seqid then [records[0]] + SubBed(records[1..], seqid)
    else SubBed(records[1..], seqid)
  }
}
