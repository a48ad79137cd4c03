// GenBank submission template (sbt): author names turned into name blocks.

module Sbt {
  import opened Util

  // ---------------------------------------------------------------------
  // get_name_parts
  // ---------------------------------------------------------------------

  predicate EndsWithDot(w: string)
  {
    |w| > 0 && w[|w| - 1] == '.'
  }

  /** The tokens ending in `.`, in order. */
  function Dotted(ws: seq<string>): (r: seq<string>)
    ensures |r| <= |ws|
    ensures forall i :: 0 <= i < |r| ==> r[i] in ws && EndsWithDot(r[i])
  {
    if |ws| == 0 then []
    else (if EndsWithDot(ws[0]) then [ws[0]] else []) + Dotted(ws[1..])
  }

  /** The tokens not ending in `.`, in order. */
  function Undotted(ws: seq<string>): (r: seq<string>)
    ensures |r| <= |ws|
    ensures forall i :: 0 <= i < |r| ==> r[i] in ws && !EndsWithDot(r[i])
  {
    if |ws| == 0 then []
    else (if EndsWithDot(ws[0]) then [] else [ws[0]]) + Undotted(ws[1..])
  }

  /** `"".join(ws)` */
  function Concat(ws: seq<string>): (r: string)
    ensures |ws| > 0 ==> r == ws[0] + Concat(ws[1..])
  {
    if |ws| == 0 then "" else ws[0] + Concat(ws[1..])
  }

  /**
   * Splits an author name into (last, first, initials). `None` where the
   * original raises: a blank name, or a first token ending in `.` with
   * fewer than two undotted tokens after it.
   */
  function GetNameParts(au: string): Option<(string, string, string)>
  {
    NameParts(Words(au))
  }

  /** `get_name_parts` once the name is cut into its whitespace-separated tokens. */
  function NameParts(parts: seq<string>): Option<(string, string, string)>
    requires forall k :: 0 <= k < |parts| ==> |parts[k]| > 0
  {
    if |parts| == 0 then None
    else
      var first := parts[0];
      var middle := Concat(Dotted(parts));
      var last := JoinWith(Undotted(parts[1..]), " ");
      if EndsWithDot(first) then
        var both := SplitFirstWord(last);
        if |both| != 2 then None
        else Some((both[1], first, [first[0], '.'] + both[0] + "."))
      else Some((last, first, [first[0], '.'] + middle))
  }

  lemma UndottedPlain(ws: seq<string>)
    requires PlainWords(ws)
    ensures PlainWords(Undotted(ws))
  {
    var u := Undotted(ws);
    forall i | 0 <= i < |u|
      ensures |u[i]| > 0 && NoSpace(u[i])
    {
      var k :| 0 <= k < |ws| && ws[k] == u[i];
    }
  }

  lemma TokensPlain(au: string)
    requires |Words(au)| > 0
    ensures PlainWords(Undotted(Words(au)[1..]))
  {
    WordsPlain(au);
    PlainTail(Words(au));
    UndottedPlain(Words(au)[1..]);
  }

  /** The name-parts doctest. */
  lemma ExampleWords()
    ensures Words("Fares Z. Najar") == ["Fares", "Z.", "Najar"]
  {
    var ws := ["Fares", "Z.", "Najar"];
    assert PlainWords(ws);
    assert JoinWith(ws[2..], " ") == "Najar";
    assert JoinWith(ws[1..], " ") == "Z. Najar";
    assert JoinWith(ws, " ") == "Fares Z. Najar";
    WordsJoin(ws);
  }

  lemma ExampleParts()
    ensures NameParts(["Fares", "Z.", "Najar"]) == Some(("Najar", "Fares", "F.Z."))
  {
    var ws := ["Fares", "Z.", "Najar"];
    assert ws[1..] == ["Z.", "Najar"] && ws[2..] == ["Najar"];
    assert Undotted(ws[1..]) == ["Najar"];
    assert Dotted(ws) == ["Z."];
    assert Concat(["Z."]) == "Z.";
    assert JoinWith(["Najar"], " ") == "Najar";
    assert !EndsWithDot(ws[0]);
    assert ['F', '.'] + "Z." == "F.Z.";
  }

  lemma NamePartsExample()
    ensures GetNameParts("Fares Z. Najar") == Some(("Najar", "Fares", "F.Z."))
  {
    ExampleWords();
    ExampleParts();
  }

  /**
   * An ordinary first name: `last` splits back into exactly the undotted
   * tokens after the first, and the initials are the first letter, a dot
   * and all the dotted tokens run together.
   */
  lemma NamePartsPlain(au: string)
    requires |Words(au)| > 0 && !EndsWithDot(Words(au)[0])
    ensures GetNameParts(au).Some?
    ensures Words(GetNameParts(au).value.0) == Undotted(Words(au)[1..])
    ensures GetNameParts(au).value.2 == [Words(au)[0][0], '.'] + Concat(Dotted(Words(au)))
  {
    TokensPlain(au);
    WordsJoin(Undotted(Words(au)[1..]));
  }

  /**
   * A first name ending in `.`: the first undotted token is the full
   * middle name, the rest is the surname, and the initials end in a dot.
   */
  lemma NamePartsFullMiddle(au: string)
    requires |Words(au)| > 0 && EndsWithDot(Words(au)[0])
    ensures GetNameParts(au).Some? <==> |Undotted(Words(au)[1..])| >= 2
    ensures GetNameParts(au).Some? ==>
      var u := Undotted(Words(au)[1..]);
      var first := Words(au)[0];
      GetNameParts(au).value == (JoinWith(u[1..], " "), first, [first[0], '.'] + u[0] + ".")
  {
    var ws := Words(au);
    var u := Undotted(ws[1..]);
    TokensPlain(au);
    SplitFirstWordJoin(u);
    var both := SplitFirstWord(JoinWith(u, " "));
    assert |u| >= 2 ==> both == [u[0], JoinWith(u[1..], " ")];
    assert |u| < 2 ==> |both| != 2;
  }

  /** Exactly the names the original can split. */
  lemma NamePartsDefined(au: string)
    ensures GetNameParts(au).Some? <==>
      |Words(au)| > 0 && (EndsWithDot(Words(au)[0]) ==> |Undotted(Words(au)[1..])| >= 2)
  {
    if |Words(au)| > 0 {
      if EndsWithDot(Words(au)[0]) {
        NamePartsFullMiddle(au);
      } else {
        NamePartsPlain(au);
      }
    }
  }

  // ---------------------------------------------------------------------
  // The name block
  // ---------------------------------------------------------------------

  function TemplateLines(last: string, first: string, initials: string, suffix: string): seq<string>
  {
    [ "        {",
      "          name name {",
      "            last \"" + last + "\",",
      "            first \"" + first + "\",",
      "            initials \"" + initials + "\",",
      "            suffix \"" + suffix + "\"",
      "          }",
      "        }" ]
  }

  /** The `NameTemplate` text filled in. */
  function NameTemplate(last: string, first: string, initials: string, suffix: string): string
  {
    Join(TemplateLines(last, first, initials, suffix), '\n')
  }

  lemma NoCharConcat(a: string, b: string, c: char)
    requires NoChar(a, c) && NoChar(b, c)
    ensures NoChar(a + b, c)
  {
    assert forall k :: |a| <= k < |a + b| ==> (a + b)[k] == b[k - |a|];
  }

  /** A block whose fields hold no line break reads back line by line, each field on its own line. */
  lemma NameTemplateLines(last: string, first: string, initials: string, suffix: string)
    requires NoChar(last, '\n') && NoChar(first, '\n') && NoChar(initials, '\n') && NoChar(suffix, '\n')
    ensures Split(NameTemplate(last, first, initials, suffix), '\n') == TemplateLines(last, first, initials, suffix)
  {
    var lines := TemplateLines(last, first, initials, suffix);
    NoCharConcat("            last \"", last, '\n');
    NoCharConcat("            last \"" + last, "\",", '\n');
    NoCharConcat("            first \"", first, '\n');
    NoCharConcat("            first \"" + first, "\",", '\n');
    NoCharConcat("            initials \"", initials, '\n');
    NoCharConcat("            initials \"" + initials, "\",", '\n');
    NoCharConcat("            suffix \"", suffix, '\n');
    NoCharConcat("            suffix \"" + suffix, "\"", '\n');
    assert forall i :: 0 <= i < |lines| ==> NoChar(lines[i], '\n');
    SplitJoin(lines, '\n');
  }

  // ---------------------------------------------------------------------
  // parse_names: the bracketed-sections format
  // ---------------------------------------------------------------------

  /** `string.translate(s, None, string.digits)`: every digit removed. */
  function DeleteDigits(s: string): (r: string)
    ensures |r| <= |s|
    ensures forall k :: 0 <= k < |r| ==> !IsDigit(r[k])
  {
    if |s| == 0 then ""
    else (if IsDigit(s[0]) then "" else [s[0]]) + DeleteDigits(s[1..])
  }

  lemma {:induction false} DeleteDigitsSubseq(s: string)
    ensures IsSubseq(DeleteDigits(s), s)
    ensures (forall k :: 0 <= k < |s| ==> !IsDigit(s[k])) ==> DeleteDigits(s) == s
    decreases |s|
  {
    if |s| > 0 {
      DeleteDigitsSubseq(s[1..]);
      var r := DeleteDigits(s[1..]);
      if !IsDigit(s[0]) {
        assert ([s[0]] + r)[1..] == r;
      } else {
        assert DeleteDigits(s) == r;
        assert |r| > 0 ==> r[0] != s[0];
      }
    }
  }

  /** One comma-separated piece: stripped, and kept with its digits deleted unless blank. */
  function CleanedPiece(piece: string): seq<string>
  {
    var au := Strip(piece);
    if au == "" then [] else [DeleteDigits(au)]
  }

  /** The cleaned authors of comma-separated pieces: stripped, blanks dropped, digits deleted. */
  function AuthorsFrom(pieces: seq<string>): (r: seq<string>)
    ensures |r| <= |pieces|
  {
    if |pieces| == 0 then []
    else AuthorsFrom(pieces[..|pieces| - 1]) + CleanedPiece(pieces[|pieces| - 1])
  }

  /** The authors of one section: its lines joined by spaces, split on commas. */
  function AuthorsOf(lines: seq<string>): seq<string>
  {
    AuthorsFrom(Split(JoinWith(lines, " "), ','))
  }

  lemma {:induction false} AuthorsFromSpec(pieces: seq<string>)
    ensures forall a :: a in AuthorsFrom(pieces) <==>
      exists p :: p in pieces && Strip(p) != "" && a == DeleteDigits(Strip(p))
    decreases |pieces|
  {
    if |pieces| > 0 {
      var init := pieces[..|pieces| - 1];
      AuthorsFromSpec(init);
      assert pieces == init + [pieces[|pieces| - 1]];
    }
  }

  lemma StripChars(s: string)
    ensures forall k :: 0 <= k < |Strip(s)| ==> Strip(s)[k] in s
  {
    var l := LStrip(s);
    assert forall k :: 0 <= k < |Strip(s)| ==> Strip(s)[k] == l[k];
    assert forall k :: 0 <= k < |l| ==> l[k] == s[|s| - |l| + k];
  }

  lemma DeleteDigitsChars(s: string)
    ensures forall k :: 0 <= k < |DeleteDigits(s)| ==> DeleteDigits(s)[k] in s
  {
    DeleteDigitsSubseq(s);
    IsSubseqElems(DeleteDigits(s), s);
  }

  lemma {:induction false} IsSubseqElems(a: string, b: string)
    requires IsSubseq(a, b)
    ensures forall k :: 0 <= k < |a| ==> a[k] in b
    decreases |b|
  {
    if |a| > 0 && |b| > 0 {
      if a[0] == b[0] {
        IsSubseqElems(a[1..], b[1..]);
        assert forall k :: 1 <= k < |a| ==> a[k] == a[1..][k - 1];
      } else {
        IsSubseqElems(a, b[1..]);
      }
    }
  }

  /**
   * Every author is the non-blank, stripped text between two commas with
   * its digits deleted, so no author holds a comma or a digit.
   */
  lemma AuthorsOfSpec(lines: seq<string>)
    ensures forall a :: a in AuthorsOf(lines) <==>
      exists p :: p in Split(JoinWith(lines, " "), ',') && Strip(p) != "" && a == DeleteDigits(Strip(p))
    ensures forall a :: a in AuthorsOf(lines) ==> NoChar(a, ',') && forall k :: 0 <= k < |a| ==> !IsDigit(a[k])
  {
    var pieces := Split(JoinWith(lines, " "), ',');
    AuthorsFromSpec(pieces);
    AuthorsFromNoComma(pieces);
  }

  /** Authors cut from comma-free pieces hold no comma. */
  lemma AuthorsFromNoComma(pieces: seq<string>)
    requires forall p :: p in pieces ==> NoChar(p, ',')
    ensures forall a :: a in AuthorsFrom(pieces) ==> NoChar(a, ',')
  {
    AuthorsFromSpec(pieces);
    forall a | a in AuthorsFrom(pieces)
      ensures NoChar(a, ',')
    {
      var p :| p in pieces && Strip(p) != "" && a == DeleteDigits(Strip(p));
      StripChars(p);
      DeleteDigitsChars(Strip(p));
      forall k | 0 <= k < |a|
        ensures a[k] != ','
      {
        assert a[k] in Strip(p);
        var m :| 0 <= m < |Strip(p)| && Strip(p)[m] == a[k];
        assert Strip(p)[m] in p;
      }
    }
  }

  /** The name block of one author, if the name splits. */
  function NameBlock(au: string): (r: Option<string>)
    ensures r.Some? <==> GetNameParts(au).Some?
  {
    match GetNameParts(au)
    case None => None
    case Some((last, first, initials)) => Some(NameTemplate(last, first, initials, ""))
  }

  /** The name blocks of a list of authors; `None` once one name does not split. */
  function Blocks(authors: seq<string>): Option<seq<string>>
  {
    MapAll(NameBlock, authors)
  }

  /** One block per author, in order, and none at all once a name does not split. */
  lemma BlocksSpec(authors: seq<string>)
    ensures Blocks(authors).Some? <==> forall k :: 0 <= k < |authors| ==> GetNameParts(authors[k]).Some?
    ensures Blocks(authors).Some? ==> |Blocks(authors).value| == |authors|
    ensures Blocks(authors).Some? ==>
      forall k :: 0 <= k < |authors| ==> Blocks(authors).value[k] == NameBlock(authors[k]).value
  {
    MapAllSpec(NameBlock, authors);
  }

  /** The text that one list of authors contributes: its name blocks joined by `",\n"`. */
  function BigBlock(authors: seq<string>): Option<string>
  {
    match Blocks(authors)
    case None => None
    case Some(bs) => Some(JoinWith(bs, ",\n"))
  }

  /** The cleaned authors of one section, collected piece by piece. */
  method SectionAuthors(lines: seq<string>) returns (authors: seq<string>)
    ensures authors == AuthorsOf(lines)
  {
    var pieces := Split(JoinWith(lines, " "), ',');
    authors := CleanPieces(pieces);
  }

  lemma AuthorsFromSnoc(pieces: seq<string>, j: nat)
    requires j < |pieces|
    ensures AuthorsFrom(pieces[..j + 1]) == AuthorsFrom(pieces[..j]) + CleanedPiece(pieces[j])
  {
    var ps := pieces[..j + 1];
    assert ps[..|ps| - 1] == pieces[..j] && ps[|ps| - 1] == pieces[j];
  }

  /** Each comma-separated piece stripped, and kept with its digits deleted unless blank. */
  method CleanPieces(pieces: seq<string>) returns (authors: seq<string>)
    ensures authors == AuthorsFrom(pieces)
  {
    authors := [];
    var j := 0;
    while j < |pieces|
      invariant 0 <= j <= |pieces|
      invariant authors == AuthorsFrom(pieces[..j])
    {
      AuthorsFromSnoc(pieces, j);
      authors := authors + CleanedPiece(pieces[j]);
      j := j + 1;
    }
    assert pieces[..|pieces|] == pieces;
  }

  /** The name blocks of one list of authors, computed one by one and joined. */
  method SectionText(authors: seq<string>) returns (r: Option<string>)
    ensures r == BigBlock(authors)
  {
    var blocks := CollectAll(NameBlock, authors);
    if blocks.None? {
      return None;
    }
    r := Some(JoinWith(blocks.value, ",\n"));
  }

  /** The first pass of `parse_names`: the cleaned authors of every section. */
  method AllAuthors(sections: seq<seq<string>>) returns (all: seq<seq<string>>)
    ensures all == MapSeq(AuthorsOf, sections)
  {
    all := [];
    var i := 0;
    while i < |sections|
      invariant 0 <= i <= |sections| && all == MapSeq(AuthorsOf, sections[..i])
    {
      var authors := SectionAuthors(sections[i]);
      MapSeqSnoc(AuthorsOf, sections, i);
      all := all + [authors];
      i := i + 1;
    }
    assert sections[..i] == sections;
  }

  /** The second pass of `parse_names`: one text per list of authors, `None` once a name does not split. */
  method AllTexts(all: seq<seq<string>>) returns (r: Option<seq<string>>)
    ensures r.Some? <==> forall i :: 0 <= i < |all| ==> BigBlock(all[i]).Some?
    ensures r.Some? ==> |r.value| == |all|
    ensures r.Some? ==> forall i :: 0 <= i < |all| ==> r.value[i] == BigBlock(all[i]).value
  {
    var out: seq<string> := [];
    var i := 0;
    while i < |all|
      invariant 0 <= i <= |all| && |out| == i
      invariant forall k :: 0 <= k < i ==> BigBlock(all[k]) == Some(out[k])
    {
      var text := SectionText(all[i]);
      if text.None? {
        return None;
      }
      out := out + [text.value];
      i := i + 1;
    }
    r := Some(out);
  }

  /**
   * `parse_names` on the sections of the file, each given as its lines
   * (the section reader is not part of this model). `None` where a name
   * does not split, as the original raises there.
   */
  method ParseNames(sections: seq<seq<string>>) returns (r: Option<seq<string>>)
    ensures r.Some? <==> forall i :: 0 <= i < |sections| ==> BigBlock(AuthorsOf(sections[i])).Some?
    ensures r.Some? ==> |r.value| == |sections|
    ensures r.Some? ==> forall i :: 0 <= i < |sections| ==> r.value[i] == BigBlock(AuthorsOf(sections[i])).value
  {
    var all := AllAuthors(sections);
    r := AllTexts(all);
  }

  // ---------------------------------------------------------------------
  // names: the tab-separated table format
  // ---------------------------------------------------------------------

  /** A middle initial made to end in exactly one `.`; a blank one stays empty. */
  function NormMiddle(m: string): (r: string)
    ensures r == "" <==> Strip(m) == ""
  {
    var t := Strip(m);
    if t == "" then "" else RStripChar(t, '.') + "."
  }

  /** A non-blank middle initial ends in one `.` and not two. */
  lemma NormMiddleDot(m: string)
    requires Strip(m) != ""
    ensures |NormMiddle(m)| > 0 && NormMiddle(m)[|NormMiddle(m)| - 1] == '.'
    ensures |NormMiddle(m)| >= 2 ==> NormMiddle(m)[|NormMiddle(m)| - 2] != '.'
  {
  }

  /** Normalising twice changes nothing more. */
  lemma NormMiddleIdempotent(m: string)
    ensures NormMiddle(NormMiddle(m)) == NormMiddle(m)
  {
    var t := Strip(m);
    if t != "" {
      var x := RStripChar(t, '.');
      var r := x + ".";
      var l := LStrip(m);
      assert |x| > 0 ==> x[0] == t[0] && t[0] == l[0];
      StripNoSpaceEnds(r);
      assert r[..|r| - 1] == x;
    }
  }

  /** `x.upper() == 'Y'` */
  predicate IsYes(x: string)
  {
    x == "Y" || x == "y"
  }

  /** A table row the original can read: three name columns and a non-empty first name. */
  predicate ValidRow(row: seq<string>)
  {
    |row| >= 3 && |row[0]| > 0
  }

  function RowBlock(row: seq<string>): string
    requires ValidRow(row)
  {
    NameTemplate(row[2], row[0], [row[0][0], '.'] + NormMiddle(row[1]), "")
  }

  /** How many lists `zip(*bools)` yields: the fewest extra columns of any row. */
  function Width(rows: seq<seq<string>>): (r: nat)
    requires forall k :: 0 <= k < |rows| ==> |rows[k]| >= 3
    ensures forall k :: 0 <= k < |rows| ==> r <= |rows[k]| - 3
  {
    if |rows| == 0 then 0
    else if |rows| == 1 then |rows[0]| - 3
    else
      var w := Width(rows[1..]);
      if |rows[0]| - 3 < w then |rows[0]| - 3 else w
  }

  /** Every row has at least `Width` extra columns, and some row exactly that many. */
  lemma {:induction false} WidthSpec(rows: seq<seq<string>>)
    requires forall k :: 0 <= k < |rows| ==> |rows[k]| >= 3
    ensures |rows| > 0 ==> exists k :: 0 <= k < |rows| && Width(rows) == |rows[k]| - 3
    decreases |rows|
  {
    if |rows| == 1 {
      assert Width(rows) == |rows[0]| - 3;
    } else if |rows| > 1 {
      var tail := rows[1..];
      assert forall k :: 0 <= k < |tail| ==> |tail[k]| >= 3 by {
        assert forall k :: 0 <= k < |tail| ==> tail[k] == rows[k + 1];
      }
      WidthSpec(tail);
      var k :| 0 <= k < |tail| && Width(tail) == |tail[k]| - 3;
      assert tail[k] == rows[k + 1];
      if |rows[0]| - 3 < Width(tail) {
        assert Width(rows) == |rows[0]| - 3;
      } else {
        assert Width(rows) == |rows[k + 1]| - 3;
      }
    }
  }

  predicate ValidTable(rows: seq<seq<string>>)
  {
    forall k :: 0 <= k < |rows| ==> ValidRow(rows[k])
  }

  /** The blocks whose flag is set, in their order: `[b for b, ss in zip(blocks, sbools) if ss]`. */
  function Picked(blocks: seq<string>, flags: seq<bool>): (r: seq<string>)
    requires |flags| == |blocks|
    ensures |r| <= |blocks|
  {
    if |blocks| == 0 then []
    else
      var n := |blocks| - 1;
      Picked(blocks[..n], flags[..n]) + (if flags[n] then [blocks[n]] else [])
  }

  /** A block is picked exactly when it sits at a position whose flag is set. */
  lemma {:induction false} PickedMembers(blocks: seq<string>, flags: seq<bool>)
    requires |flags| == |blocks|
    ensures forall b :: b in Picked(blocks, flags) <==> exists k :: 0 <= k < |blocks| && flags[k] && blocks[k] == b
    decreases |blocks|
  {
    if |blocks| > 0 {
      var n := |blocks| - 1;
      var bs, fs := blocks[..n], flags[..n];
      PickedMembers(bs, fs);
      forall b
        ensures b in Picked(blocks, flags) <==> exists k :: 0 <= k < |blocks| && flags[k] && blocks[k] == b
      {
        if b in Picked(bs, fs) {
          var k :| 0 <= k < |bs| && fs[k] && bs[k] == b;
          assert blocks[k] == b && flags[k];
        }
        if exists k :: 0 <= k < |blocks| && flags[k] && blocks[k] == b {
          var k :| 0 <= k < |blocks| && flags[k] && blocks[k] == b;
          if k < n {
            assert bs[k] == b && fs[k];
          }
        }
      }
    }
  }

  /** The picked blocks keep their order: they form a subsequence of all the blocks. */
  lemma {:induction false} PickedInOrder(blocks: seq<string>, flags: seq<bool>)
    requires |flags| == |blocks|
    ensures IsSubseq(Picked(blocks, flags), blocks)
    decreases |blocks|
  {
    if |blocks| > 0 {
      var n := |blocks| - 1;
      var bs, fs := blocks[..n], flags[..n];
      PickedInOrder(bs, fs);
      assert blocks == bs + [blocks[n]];
      if flags[n] {
        IsSubseqAppend(Picked(bs, fs), bs, blocks[n]);
      } else {
        IsSubseqExtend(Picked(bs, fs), bs, blocks[n]);
        assert Picked(bs, fs) + [] == Picked(bs, fs);
      }
    }
  }

  /** The name block of every row. */
  function RowBlocks(rows: seq<seq<string>>): (r: seq<string>)
    requires ValidTable(rows)
  {
    MapSeq(RowBlock, rows)
  }

  /** The yes/no flags of every row. */
  function TableFlags(rows: seq<seq<string>>): (r: seq<seq<bool>>)
    requires forall k :: 0 <= k < |rows| ==> |rows[k]| >= 3
  {
    MapSeq(YesFlags, rows)
  }

  /** List `i` of `zip(*bools)`: flag `i` of every row. */
  function Zipped(bools: seq<seq<bool>>, i: nat): (r: seq<bool>)
    requires forall k :: 0 <= k < |bools| ==> i < |bools[k]|
    ensures |r| == |bools| && forall k :: 0 <= k < |bools| ==> r[k] == bools[k][i]
  {
    seq(|bools|, k requires 0 <= k < |bools| => bools[k][i])
  }

  /** The name blocks of the rows whose extra column `i` says yes, in row order. */
  function Selected(rows: seq<seq<string>>, i: nat): (r: seq<string>)
    requires ValidTable(rows) && forall k :: 0 <= k < |rows| ==> 3 + i < |rows[k]|
  {
    Picked(RowBlocks(rows), Zipped(TableFlags(rows), i))
  }

  /** Whether row `k` says yes in extra column `i`, and its block is `b`. */
  predicate PicksBlock(rows: seq<seq<string>>, i: nat, k: int, b: string)
    requires ValidTable(rows) && forall k :: 0 <= k < |rows| ==> 3 + i < |rows[k]|
  {
    0 <= k < |rows| && IsYes(rows[k][3 + i]) && b == RowBlock(rows[k])
  }

  /** List `i` holds a row's block exactly when the row says yes in extra column `i`. */
  lemma SelectedMembers(rows: seq<seq<string>>, i: nat)
    requires ValidTable(rows) && forall k :: 0 <= k < |rows| ==> 3 + i < |rows[k]|
    ensures forall b :: b in Selected(rows, i) <==> exists k :: PicksBlock(rows, i, k, b)
  {
    var blocks, flags := RowBlocks(rows), Zipped(TableFlags(rows), i);
    PickedMembers(blocks, flags);
    forall k | 0 <= k < |rows|
      ensures flags[k] == IsYes(rows[k][3 + i]) && blocks[k] == RowBlock(rows[k])
    {
      RowAt(rows, i, k);
    }
    forall b
      ensures b in Selected(rows, i) <==> exists k :: PicksBlock(rows, i, k, b)
    {
      if b in Selected(rows, i) {
        var k :| 0 <= k < |blocks| && flags[k] && blocks[k] == b;
        assert PicksBlock(rows, i, k, b);
      }
    }
  }

  /** Row `k`'s entries in the blocks and in flag list `i`. */
  lemma RowAt(rows: seq<seq<string>>, i: nat, k: nat)
    requires ValidTable(rows) && forall k :: 0 <= k < |rows| ==> 3 + i < |rows[k]|
    requires k < |rows|
    ensures Zipped(TableFlags(rows), i)[k] == IsYes(rows[k][3 + i])
    ensures RowBlocks(rows)[k] == RowBlock(rows[k])
  {
    assert TableFlags(rows)[k] == YesFlags(rows[k]);
  }

  /** List `i` keeps the blocks in row order: it is a subsequence of all the blocks. */
  lemma SelectedInOrder(rows: seq<seq<string>>, i: nat)
    requires ValidTable(rows) && forall k :: 0 <= k < |rows| ==> 3 + i < |rows[k]|
    ensures IsSubseq(Selected(rows, i), RowBlocks(rows))
  {
    PickedInOrder(RowBlocks(rows), Zipped(TableFlags(rows), i));
  }

  /** Which extra columns of a row say yes. */
  function YesFlags(row: seq<string>): (r: seq<bool>)
    requires |row| >= 3
    ensures |r| == |row| - 3 && forall c :: 0 <= c < |r| ==> r[c] == IsYes(row[3 + c])
  {
    seq(|row| - 3, c requires 0 <= c < |row| - 3 => IsYes(row[3 + c]))
  }

  /** `[(x.upper() == 'Y') for x in extras]` of one row. */
  method RowFlags(row: seq<string>) returns (flags: seq<bool>)
    requires |row| >= 3
    ensures flags == YesFlags(row)
  {
    var extras := row[3..];
    flags := [];
    var c := 0;
    while c < |extras|
      invariant 0 <= c <= |extras| && |flags| == c
      invariant forall d :: 0 <= d < c ==> flags[d] == IsYes(row[3 + d])
    {
      flags := flags + [IsYes(extras[c])];
      c := c + 1;
    }
  }

  /**
   * The row loop of `names`: the block and the yes/no flags of every row,
   * or `false` at the first row the original cannot read.
   */
  method ReadRows(rows: seq<seq<string>>) returns (ok: bool, blocks: seq<string>, bools: seq<seq<bool>>)
    ensures ok <==> ValidTable(rows)
    ensures ok ==> blocks == RowBlocks(rows) && bools == TableFlags(rows)
  {
    blocks, bools := [], [];
    var j := 0;
    while j < |rows|
      invariant 0 <= j <= |rows| && ValidTable(rows[..j])
      invariant blocks == RowBlocks(rows[..j]) && bools == TableFlags(rows[..j])
    {
      var row := rows[j];
      if |row| < 3 || |row[0]| == 0 {
        assert !ValidRow(rows[j]);
        return false, [], [];
      }
      var flags := RowFlags(row);
      assert forall k :: 0 <= k <= j ==> ValidRow(rows[k]) by {
        assert forall k :: 0 <= k < j ==> rows[..j][k] == rows[k];
      }
      MapSeqSnoc(RowBlock, rows, j);
      MapSeqSnoc(YesFlags, rows, j);
      blocks := blocks + [RowBlock(row)];
      bools := bools + [flags];
      j := j + 1;
    }
    assert rows[..j] == rows;
    ok := true;
  }

  /** `len(zip(*bools))`: the fewest flags of any row. */
  method ZipWidth(rows: seq<seq<string>>, bools: seq<seq<bool>>) returns (width: nat)
    requires forall k :: 0 <= k < |rows| ==> |rows[k]| >= 3
    requires bools == TableFlags(rows)
    ensures width == Width(rows)
  {
    width := 0;
    if |bools| > 0 {
      width := |bools[0]|;
      assert rows[..1] == [rows[0]];
      var j := 1;
      while j < |bools|
        invariant 1 <= j <= |bools|
        invariant width == Width(rows[..j])
      {
        WidthStep(rows, j);
        if |bools[j]| < width {
          width := |bools[j]|;
        }
        j := j + 1;
      }
      assert rows[..|rows|] == rows;
    }
  }

  /** One list of `zip(*bools)` applied to the blocks: the blocks whose flag `i` is set, in order. */
  method SelectColumn(blocks: seq<string>, bools: seq<seq<bool>>, i: nat) returns (selected: seq<string>)
    requires |bools| == |blocks| && forall k :: 0 <= k < |bools| ==> i < |bools[k]|
    ensures selected == Picked(blocks, Zipped(bools, i))
  {
    ghost var flags := Zipped(bools, i);
    selected := [];
    var j := 0;
    while j < |blocks|
      invariant 0 <= j <= |blocks|
      invariant selected == Picked(blocks[..j], flags[..j])
    {
      assert blocks[..j + 1][..j] == blocks[..j] && flags[..j + 1][..j] == flags[..j];
      if bools[j][i] {
        selected := selected + [blocks[j]];
      }
      j := j + 1;
    }
    assert blocks[..|blocks|] == blocks && flags[..|flags|] == flags;
  }

  /**
   * `names` on the tab-separated table: `None` where the original fails
   * (a header of three columns or fewer, a row without three name columns
   * or with an empty first name); otherwise one text per extra column
   * that every row has.
   */
  method Names(header: seq<string>, rows: seq<seq<string>>) returns (r: Option<seq<string>>)
    ensures r.Some? <==> |header| > 3 && ValidTable(rows)
    ensures r.Some? ==> |r.value| == Width(rows)
    ensures r.Some? ==> forall i :: 0 <= i < |r.value| ==> r.value[i] == JoinWith(Selected(rows, i), ",\n")
  {
    if |header| <= 3 {
      return None;
    }
    var ok, blocks, bools := ReadRows(rows);
    if !ok {
      return None;
    }
    var width := ZipWidth(rows, bools);
    var out := JoinColumns(blocks, bools, width);
    r := Some(out);
  }

  /** The output loop of `names`: list `i` of `zip(*bools)` picks the blocks that are joined into text `i`. */
  method JoinColumns(blocks: seq<string>, bools: seq<seq<bool>>, width: nat) returns (out: seq<string>)
    requires |bools| == |blocks| && forall k :: 0 <= k < |bools| ==> width <= |bools[k]|
    ensures |out| == width
    ensures forall i :: 0 <= i < width ==> out[i] == JoinWith(Picked(blocks, Zipped(bools, i)), ",\n")
  {
    out := [];
    var i := 0;
    while i < width
      invariant 0 <= i <= width && |out| == i
      invariant forall k :: 0 <= k < i ==> out[k] == JoinWith(Picked(blocks, Zipped(bools, k)), ",\n")
    {
      var selected := SelectColumn(blocks, bools, i);
      out := out + [JoinWith(selected, ",\n")];
      i := i + 1;
    }
  }

  /** Taking one more row into the minimum. */
  lemma {:induction false} WidthStep(rows: seq<seq<string>>, j: nat)
    requires 1 <= j < |rows| && forall k :: 0 <= k < |rows| ==> |rows[k]| >= 3
    ensures Width(rows[..j + 1]) == if |rows[j]| - 3 < Width(rows[..j]) then |rows[j]| - 3 else Width(rows[..j])
    decreases j
  {
    var p := rows[..j + 1];
    assert p[1..] == rows[1..][..j];
    if j > 1 {
      WidthStep(rows[1..], j - 1);
      assert rows[1..][..j - 1] == rows[..j][1..];
      assert rows[1..][j - 1] == rows[j];
      assert rows[..j][1..][..j - 1] == rows[1..][..j - 1];
    } else {
      assert rows[1..][..j] == [rows[1]];
    }
  }

  // ---------------------------------------------------------------------
  // make_template
  // ---------------------------------------------------------------------

  /** The template key of list position `i`. */
  function Key(i: int): string
  {
    "N" + IntToString(i)
  }

  lemma KeyInjective(i: int, j: int)
    requires Key(i) == Key(j)
    ensures i == j
  {
    assert IntToString(i) == Key(i)[1..];
    assert IntToString(j) == Key(j)[1..];
    IntToStringInjective(i, j);
  }

  /** The substitution mapping: list `i` under key `N{i}`. */
  function TemplateKeys(out: seq<string>): (r: map<string, string>)
    ensures forall i :: 0 <= i < |out| ==> Key(i) in r && r[Key(i)] == out[i]
  {
    forall i, j | 0 <= i < |out| && 0 <= j < |out| && Key(i) == Key(j)
      ensures i == j
    {
      KeyInjective(i, j);
    }
    map i | 0 <= i < |out| :: Key(i) := out[i]
  }

  /** Every key of the mapping is `N` and the position of a list. */
  lemma TemplateKeysOnly(out: seq<string>, key: string)
    ensures key in TemplateKeys(out) <==> exists i :: 0 <= i < |out| && key == Key(i)
  {
  }
}
