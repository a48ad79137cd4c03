/**
 * Small building blocks shared by the models: an Option type, the pieces of
 * Python's `str` behaviour the code relies on (strip, split, join, int(),
 * str(), slicing, comparison) and a stable insertion sort with duplicate
 * removal, which stand for Python's `sorted`/`list.sort`/`set`.
 */
module Util {

  datatype Option<T> = None | Some(value: T)

  // ---------------------------------------------------------------------
  // Orders
  // ---------------------------------------------------------------------

  /** `le` compares every two elements and is transitive, as a sort key does. */
  ghost predicate TotalPreorder<T(!new)>(le: (T, T) -> bool)
  {
    && (forall a, b :: le(a, b) || le(b, a))
    && (forall a, b, c :: le(a, b) && le(b, c) ==> le(a, c))
  }

  /** `le` is a total order: a total preorder that is also antisymmetric. */
  ghost predicate TotalOrder<T(!new)>(le: (T, T) -> bool)
  {
    && TotalPreorder(le)
    && (forall a, b :: le(a, b) && le(b, a) ==> a == b)
  }

  predicate SortedBy<T>(s: seq<T>, le: (T, T) -> bool)
  {
    forall i, j :: 0 <= i < j < |s| ==> le(s[i], s[j])
  }

  /** Sorted and without repeated elements. */
  predicate StrictlySortedBy<T(==)>(s: seq<T>, le: (T, T) -> bool)
  {
    forall i, j :: 0 <= i < j < |s| ==> le(s[i], s[j]) && s[i] != s[j]
  }

  /** A scan that stops at the first element satisfying `p`: whether there is one. */
  method AnyOf<T>(xs: seq<T>, p: T -> bool) returns (found: bool)
    ensures found <==> exists i :: 0 <= i < |xs| && p(xs[i])
  {
    var i := 0;
    while i < |xs|
      invariant 0 <= i <= |xs|
      invariant forall j :: 0 <= j < i ==> !p(xs[j])
    {
      if p(xs[i]) {
        return true;
      }
      i := i + 1;
    }
    return false;
  }

  /** Dropping the head keeps a list strictly sorted. */
  lemma StrictlySortedTail<T>(s: seq<T>, le: (T, T) -> bool)
    requires |s| > 0 && StrictlySortedBy(s, le)
    ensures StrictlySortedBy(s[1..], le)
  {
    var t := s[1..];
    forall i, j | 0 <= i < j < |t|
      ensures le(t[i], t[j]) && t[i] != t[j]
    {
      assert t[i] == s[i + 1] && t[j] == s[j + 1];
    }
  }

  /** An element strictly before every element of a strictly sorted list can go in front of it. */
  lemma StrictlySortedCons<T>(x: T, s: seq<T>, le: (T, T) -> bool)
    requires StrictlySortedBy(s, le) && forall y :: y in s ==> le(x, y) && x != y
    ensures StrictlySortedBy([x] + s, le)
  {
    var r := [x] + s;
    forall i, j | 0 <= i < j < |r|
      ensures le(r[i], r[j]) && r[i] != r[j]
    {
      assert r[j] == s[j - 1];
      if i > 0 {
        assert r[i] == s[i - 1];
      }
    }
  }

  /** Python's string comparison: lexicographic on character codes. */
  predicate StrLt(a: string, b: string)
    decreases |a|
  {
    if |a| == 0 then |b| > 0
    else if |b| == 0 then false
    else if a[0] != b[0] then a[0] < b[0]
    else StrLt(a[1..], b[1..])
  }

  predicate StrLe(a: string, b: string)
  {
    a == b || StrLt(a, b)
  }

  lemma {:induction false} StrLtIrreflexive(a: string)
    ensures !StrLt(a, a)
    decreases |a|
  {
    if |a| > 0 { StrLtIrreflexive(a[1..]); }
  }

  lemma {:induction false} StrLtTransitive(a: string, b: string, c: string)
    requires StrLt(a, b) && StrLt(b, c)
    ensures StrLt(a, c)
    decreases |a|
  {
    if |a| > 0 && |b| > 0 && |c| > 0 && a[0] == b[0] && b[0] == c[0] {
      StrLtTransitive(a[1..], b[1..], c[1..]);
    }
  }

  lemma {:induction false} StrLtTrichotomy(a: string, b: string)
    ensures a == b || StrLt(a, b) || StrLt(b, a)
    ensures !(StrLt(a, b) && StrLt(b, a))
    decreases |a|
  {
    if |a| > 0 && |b| > 0 && a[0] == b[0] {
      StrLtTrichotomy(a[1..], b[1..]);
      if a[1..] == b[1..] {
        assert a == [a[0]] + a[1..] && b == [b[0]] + b[1..];
      }
    }
  }

  lemma StrLeTotalOrder()
    ensures TotalOrder(StrLe)
  {
    forall a, b ensures StrLe(a, b) || StrLe(b, a) { StrLtTrichotomy(a, b); }
    forall a, b, c | StrLe(a, b) && StrLe(b, c) ensures StrLe(a, c) {
      if a != b && b != c { StrLtTransitive(a, b, c); }
    }
    forall a, b | StrLe(a, b) && StrLe(b, a) ensures a == b { StrLtTrichotomy(a, b); }
  }

  // ---------------------------------------------------------------------
  // Sorting (stable insertion sort) and removal of adjacent duplicates
  // ---------------------------------------------------------------------

  function Insert<T>(x: T, s: seq<T>, le: (T, T) -> bool): (r: seq<T>)
    ensures multiset(r) == multiset(s) + multiset{x}
    ensures |r| == |s| + 1
  {
    if |s| == 0 then [x]
    else if le(x, s[0]) then [x] + s
    else
      assert s == [s[0]] + s[1..];
      [s[0]] + Insert(x, s[1..], le)
  }

  /** Stable sort: among elements that compare equal, input order is kept. */
  function SortBy<T>(s: seq<T>, le: (T, T) -> bool): (r: seq<T>)
    ensures multiset(r) == multiset(s)
    ensures |r| == |s|
  {
    if |s| == 0 then []
    else
      assert s == [s[0]] + s[1..];
      Insert(s[0], SortBy(s[1..], le), le)
  }

  lemma {:induction false} InsertSorted<T(!new)>(x: T, s: seq<T>, le: (T, T) -> bool)
    requires TotalPreorder(le)
    requires SortedBy(s, le)
    ensures SortedBy(Insert(x, s, le), le)
    decreases |s|
  {
    if |s| > 0 && !le(x, s[0]) {
      InsertSorted(x, s[1..], le);
      var r := Insert(x, s[1..], le);
      assert multiset(r) == multiset(s[1..]) + multiset{x};
      forall k | 0 <= k < |r| ensures le(s[0], r[k]) {
        assert r[k] in multiset(r);
        if r[k] == x {
        } else {
          assert r[k] in multiset(s[1..]);
          var m :| 0 <= m < |s[1..]| && s[1..][m] == r[k];
          assert s[m + 1] == r[k];
        }
      }
    }
  }

  lemma {:induction false} SortBySorted<T(!new)>(s: seq<T>, le: (T, T) -> bool)
    requires TotalPreorder(le)
    ensures SortedBy(SortBy(s, le), le)
    decreases |s|
  {
    if |s| > 0 {
      SortBySorted(s[1..], le);
      InsertSorted(s[0], SortBy(s[1..], le), le);
    }
  }

  /** The elements of `s` that compare equal to `x` under `le`, in order. */
  function Ties<T>(s: seq<T>, x: T, le: (T, T) -> bool): seq<T>
  {
    if |s| == 0 then []
    else (if le(x, s[0]) && le(s[0], x) then [s[0]] else []) + Ties(s[1..], x, le)
  }

  lemma TiesCons<T>(y: T, s: seq<T>, x: T, le: (T, T) -> bool)
    ensures Ties([y] + s, x, le) == (if le(x, y) && le(y, x) then [y] else []) + Ties(s, x, le)
  {
    assert ([y] + s)[1..] == s;
  }

  lemma {:induction false} InsertTies<T(!new)>(y: T, s: seq<T>, x: T, le: (T, T) -> bool)
    requires TotalPreorder(le)
    ensures Ties(Insert(y, s, le), x, le) == Ties([y] + s, x, le)
    decreases |s|
  {
    if |s| > 0 && !le(y, s[0]) {
      InsertTies(y, s[1..], x, le);
      TiesCons(s[0], Insert(y, s[1..], le), x, le);
      TiesCons(y, s[1..], x, le);
      TiesCons(y, s, x, le);
      assert s == [s[0]] + s[1..];
      TiesCons(s[0], s[1..], x, le);
    }
  }

  /** `SortBy` is stable: the elements equal to any `x` keep their input order. */
  lemma {:induction false} SortByStable<T(!new)>(s: seq<T>, x: T, le: (T, T) -> bool)
    requires TotalPreorder(le)
    ensures Ties(SortBy(s, le), x, le) == Ties(s, x, le)
    decreases |s|
  {
    if |s| > 0 {
      SortByStable(s[1..], x, le);
      InsertTies(s[0], SortBy(s[1..], le), x, le);
      TiesCons(s[0], SortBy(s[1..], le), x, le);
      assert s == [s[0]] + s[1..];
      TiesCons(s[0], s[1..], x, le);
    }
  }

  /** Drops every element equal to its successor. */
  function Dedup<T(==)>(s: seq<T>): (r: seq<T>)
    ensures forall i :: 0 <= i < |r| ==> r[i] in s
    ensures forall i :: 0 <= i < |s| ==> s[i] in r
    ensures |r| <= |s|
  {
    if |s| <= 1 then s
    else if s[0] == s[1] then Dedup(s[1..])
    else [s[0]] + Dedup(s[1..])
  }

  lemma {:induction false} DedupStrictlySorted<T(!new)>(s: seq<T>, le: (T, T) -> bool)
    requires TotalOrder(le)
    requires SortedBy(s, le)
    ensures StrictlySortedBy(Dedup(s), le)
    decreases |s|
  {
    if |s| > 1 {
      DedupStrictlySorted(s[1..], le);
      var d := Dedup(s[1..]);
      if s[0] != s[1] {
        forall y | y in d ensures le(s[0], y) && s[0] != y {
          var k :| 0 <= k < |d| && d[k] == y;
          assert y in s[1..];
          var m :| 0 <= m < |s[1..]| && s[1..][m] == y;
          assert s[m + 1] == y;
          assert le(s[0], y);
          if m > 0 {
            assert le(s[1], y);
          }
        }
        StrictlySortedCons(s[0], d, le);
        assert Dedup(s) == [s[0]] + d;
      }
    }
  }

  /** `sorted(set(s))`: the distinct elements of `s` in increasing order. */
  function SortedSet<T(==)>(s: seq<T>, le: (T, T) -> bool): seq<T>
  {
    Dedup(SortBy(s, le))
  }

  lemma SortedSetSpec<T(!new)>(s: seq<T>, le: (T, T) -> bool)
    requires TotalOrder(le)
    ensures StrictlySortedBy(SortedSet(s, le), le)
    ensures forall x :: x in SortedSet(s, le) <==> x in s
  {
    SortBySorted(s, le);
    DedupStrictlySorted(SortBy(s, le), le);
    forall x ensures x in SortBy(s, le) <==> x in s {
      assert x in s <==> x in multiset(s);
    }
  }

  /** Two strictly sorted sequences with the same elements are equal. */
  lemma {:induction false} StrictlySortedUnique<T(!new)>(a: seq<T>, b: seq<T>, le: (T, T) -> bool)
    requires TotalOrder(le)
    requires StrictlySortedBy(a, le) && StrictlySortedBy(b, le)
    requires forall x :: x in a <==> x in b
    ensures a == b
    decreases |a|
  {
    if |a| > 0 { assert a[0] in b; }
    if |b| > 0 { assert b[0] in a; }
    if |a| > 0 && |b| > 0 {
      var i :| 0 <= i < |b| && b[i] == a[0];
      var j :| 0 <= j < |a| && a[j] == b[0];
      assert a[0] == b[0];
      forall x ensures x in a[1..] <==> x in b[1..] {
        if x in a[1..] {
          var k :| 0 <= k < |a[1..]| && a[1..][k] == x;
          assert a[k + 1] != a[0];
          assert x in a;
          assert x in b;
          var k' :| 0 <= k' < |b| && b[k'] == x;
          assert k' != 0;
          assert b[1..][k' - 1] == x;
        }
        if x in b[1..] {
          var k :| 0 <= k < |b[1..]| && b[1..][k] == x;
          assert b[k + 1] != b[0];
          assert x in b;
          assert x in a;
          var k' :| 0 <= k' < |a| && a[k'] == x;
          assert k' != 0;
          assert a[1..][k' - 1] == x;
        }
      }
      StrictlySortedUnique(a[1..], b[1..], le);
      assert a == [a[0]] + a[1..] && b == [b[0]] + b[1..];
    }
  }

  // ---------------------------------------------------------------------
  // Characters, strip, split and join
  // ---------------------------------------------------------------------

  /** Python's `str.isspace` on one byte. */
  predicate IsSpace(c: char)
  {
    c == ' ' || c == '\t' || c == '\n' || c == '\r' || c == '\U{000B}' || c == '\U{000C}'
  }

  predicate IsDigit(c: char)
  {
    '0' <= c <= '9'
  }

  predicate AllDigits(s: string)
  {
    forall i :: 0 <= i < |s| ==> IsDigit(s[i])
  }

  function LStrip(s: string): (r: string)
    ensures |r| <= |s| && r == s[|s| - |r|..]
    ensures |r| > 0 ==> !IsSpace(r[0])
  {
    if |s| > 0 && IsSpace(s[0]) then LStrip(s[1..]) else s
  }

  function RStrip(s: string): (r: string)
    ensures |r| <= |s| && r == s[..|r|]
    ensures |r| > 0 ==> !IsSpace(r[|r| - 1])
  {
    if |s| > 0 && IsSpace(s[|s| - 1]) then RStrip(s[..|s| - 1]) else s
  }

  /** Python's `str.strip()`. */
  function Strip(s: string): string
  {
    RStrip(LStrip(s))
  }

  /** Python's `s.rstrip(c)` for a one-character argument. */
  function RStripChar(s: string, c: char): (r: string)
    ensures |r| <= |s| && r == s[..|r|]
    ensures |r| > 0 ==> r[|r| - 1] != c
    ensures forall i :: |r| <= i < |s| ==> s[i] == c
  {
    if |s| > 0 && s[|s| - 1] == c then RStripChar(s[..|s| - 1], c) else s
  }

  lemma StripNoSpaceEnds(s: string)
    requires |s| > 0 ==> !IsSpace(s[0]) && !IsSpace(s[|s| - 1])
    ensures Strip(s) == s
  {
  }

  /** Python's `s.split(sep)` for a one-character separator: never empty. */
  function Split(s: string, sep: char): (r: seq<string>)
    ensures |r| >= 1
    ensures forall i, k :: 0 <= i < |r| && 0 <= k < |r[i]| ==> r[i][k] != sep
  {
    if |s| == 0 then [""]
    else if s[0] == sep then [""] + Split(s[1..], sep)
    else
      var rest := Split(s[1..], sep);
      [[s[0]] + rest[0]] + rest[1..]
  }

  /** Python's `sep.join(fields)` for a one-character separator. */
  function Join(fields: seq<string>, sep: char): string
  {
    if |fields| == 0 then ""
    else if |fields| == 1 then fields[0]
    else fields[0] + [sep] + Join(fields[1..], sep)
  }

  /** Python's `sep.join(fields)` for any separator string. */
  function JoinWith(fields: seq<string>, sep: string): string
  {
    if |fields| == 0 then ""
    else if |fields| == 1 then fields[0]
    else fields[0] + sep + JoinWith(fields[1..], sep)
  }

  predicate NoChar(s: string, c: char)
  {
    forall k :: 0 <= k < |s| ==> s[k] != c
  }

  lemma {:induction false} JoinSplit(s: string, sep: char)
    ensures Join(Split(s, sep), sep) == s
    decreases |s|
  {
    if |s| > 0 {
      JoinSplit(s[1..], sep);
      var rest := Split(s[1..], sep);
      if s[0] == sep {
        assert s == [sep] + s[1..];
      } else if |rest| == 1 {
        assert s == [s[0]] + s[1..];
      } else {
        assert rest == [rest[0]] + rest[1..];
        assert Join(rest, sep) == rest[0] + [sep] + Join(rest[1..], sep);
        assert s == [s[0]] + s[1..];
      }
    }
  }

  lemma {:induction false} SplitField(f: string, sep: char)
    requires NoChar(f, sep)
    ensures Split(f, sep) == [f]
    decreases |f|
  {
    if |f| > 0 {
      SplitField(f[1..], sep);
      assert f == [f[0]] + f[1..];
    }
  }

  lemma {:induction false} SplitPrefix(f: string, sep: char, t: string)
    requires NoChar(f, sep)
    ensures Split(f + [sep] + t, sep) == [f] + Split(t, sep)
    decreases |f|
  {
    var s := f + [sep] + t;
    if |f| == 0 {
      assert s == [sep] + t;
      assert s[1..] == t;
    } else {
      assert s[1..] == f[1..] + [sep] + t;
      SplitPrefix(f[1..], sep, t);
      assert f == [f[0]] + f[1..];
    }
  }

  lemma {:induction false} SplitJoin(fields: seq<string>, sep: char)
    requires |fields| >= 1
    requires forall i :: 0 <= i < |fields| ==> NoChar(fields[i], sep)
    ensures Split(Join(fields, sep), sep) == fields
    decreases |fields|
  {
    if |fields| == 1 {
      SplitField(fields[0], sep);
    } else {
      SplitJoin(fields[1..], sep);
      SplitPrefix(fields[0], sep, Join(fields[1..], sep));
      assert fields == [fields[0]] + fields[1..];
    }
  }

  /** The longest prefix of `s` without whitespace. */
  function TakeWord(s: string): (w: string)
    ensures |w| <= |s| && w == s[..|w|]
    ensures NoSpace(w)
    ensures |w| < |s| ==> IsSpace(s[|w|])
  {
    if |s| == 0 || IsSpace(s[0]) then "" else [s[0]] + TakeWord(s[1..])
  }

  /** Python's `s.split()`: the maximal runs of non-whitespace, in order. */
  function Words(s: string): (r: seq<string>)
    ensures forall i :: 0 <= i < |r| ==> |r[i]| > 0
    decreases |s|
  {
    var t := LStrip(s);
    if |t| == 0 then []
    else
      var w := TakeWord(t);
      [w] + Words(t[|w|..])
  }

  lemma {:induction false} WordsPlain(s: string)
    ensures PlainWords(Words(s))
    decreases |s|
  {
    var t := LStrip(s);
    if |t| > 0 {
      var w := TakeWord(t);
      WordsPlain(t[|w|..]);
      PlainCons(w, Words(t[|w|..]));
    }
  }

  lemma PlainCons(w: string, rest: seq<string>)
    requires |w| > 0 && NoSpace(w) && PlainWords(rest)
    ensures PlainWords([w] + rest)
  {
    assert forall i :: 1 <= i < |rest| + 1 ==> ([w] + rest)[i] == rest[i - 1];
  }

  predicate NoSpace(w: string)
  {
    forall k :: 0 <= k < |w| ==> !IsSpace(w[k])
  }

  /** Words that are non-empty and hold no whitespace. */
  predicate PlainWords(ws: seq<string>)
  {
    forall i :: 0 <= i < |ws| ==> |ws[i]| > 0 && NoSpace(ws[i])
  }

  lemma {:induction false} TakeWordUpTo(w: string, t: string)
    requires NoSpace(w) && (|t| == 0 || IsSpace(t[0]))
    ensures TakeWord(w + t) == w
    decreases |w|
  {
    if |w| > 0 {
      TakeWordUpTo(w[1..], t);
      assert (w + t)[1..] == w[1..] + t;
    } else {
      assert w + t == t;
    }
  }

  lemma LStripSpace(t: string)
    ensures LStrip(" " + t) == LStrip(t)
  {
    assert (" " + t)[1..] == t;
  }

  /** A word followed by whitespace or nothing is the first of the words. */
  lemma WordsCons(w: string, t: string)
    requires |w| > 0 && NoSpace(w) && (|t| == 0 || IsSpace(t[0]))
    ensures Words(w + t) == [w] + Words(t)
  {
    TakeWordUpTo(w, t);
    assert (w + t)[|w|..] == t;
  }

  lemma WordsSpace(t: string)
    ensures Words(" " + t) == Words(t)
  {
    LStripSpace(t);
  }

  lemma JoinWithCons(ws: seq<string>, sep: string)
    requires |ws| > 1
    ensures JoinWith(ws, sep) == ws[0] + (sep + JoinWith(ws[1..], sep))
  {
  }

  lemma PlainTail(ws: seq<string>)
    requires PlainWords(ws) && |ws| > 0
    ensures PlainWords(ws[1..])
  {
    assert forall i :: 0 <= i < |ws| - 1 ==> ws[1..][i] == ws[i + 1];
  }

  /** Words joined by spaces start with the first letter of the first word. */
  lemma JoinStart(ws: seq<string>)
    requires |ws| > 0 && |ws[0]| > 0
    ensures |JoinWith(ws, " ")| > 0 && JoinWith(ws, " ")[0] == ws[0][0]
  {
    if |ws| > 1 {
      JoinWithCons(ws, " ");
    }
  }

  lemma WordsJoinStep(ws: seq<string>, rest: string)
    requires |ws| > 0 && |ws[0]| > 0 && NoSpace(ws[0]) && Words(rest) == ws[1..]
    ensures Words(ws[0] + (" " + rest)) == ws
  {
    var t := " " + rest;
    assert Words(ws[0] + t) == [ws[0]] + Words(t) by {
      assert t[0] == ' ';
      WordsCons(ws[0], t);
    }
    assert Words(t) == ws[1..] by {
      WordsSpace(rest);
    }
    assert ws == [ws[0]] + ws[1..];
  }

  lemma WordsOne(w: string)
    requires |w| > 0 && NoSpace(w)
    ensures Words(w) == [w]
  {
    WordsCons(w, "");
    assert w + "" == w;
  }

  /** Splitting words joined by single spaces gives them back. */
  lemma {:induction false} WordsJoin(ws: seq<string>)
    requires PlainWords(ws)
    ensures Words(JoinWith(ws, " ")) == ws
    decreases |ws|
  {
    if |ws| == 1 {
      WordsOne(ws[0]);
    } else if |ws| > 1 {
      JoinWithCons(ws, " ");
      PlainTail(ws);
      WordsJoin(ws[1..]);
      WordsJoinStep(ws, JoinWith(ws[1..], " "));
    }
  }

  lemma SplitFirstStep(w: string, rest: string)
    requires |w| > 0 && NoSpace(w) && |rest| > 0 && !IsSpace(rest[0])
    ensures SplitFirstWord(w + (" " + rest)) == [w, rest]
  {
    var s := w + (" " + rest);
    TakeWordUpTo(w, " " + rest);
    assert s[|w|..] == " " + rest;
    LStripSpace(rest);
  }

  /** `s.split(None, 1)` of words joined by spaces: the first word and the join of the others. */
  lemma SplitFirstWordJoin(ws: seq<string>)
    requires PlainWords(ws)
    ensures |ws| >= 2 ==> SplitFirstWord(JoinWith(ws, " ")) == [ws[0], JoinWith(ws[1..], " ")]
    ensures |ws| < 2 ==> SplitFirstWord(JoinWith(ws, " ")) == ws
  {
    if |ws| == 1 {
      TakeWordUpTo(ws[0], "");
      assert ws[0] + "" == ws[0];
    } else if |ws| >= 2 {
      JoinWithCons(ws, " ");
      PlainTail(ws);
      JoinStart(ws[1..]);
      SplitFirstStep(ws[0], JoinWith(ws[1..], " "));
    }
  }

  /** Python's `s.split(None, 1)`. */
  function SplitFirstWord(s: string): (r: seq<string>)
    ensures |r| <= 2
  {
    var t := LStrip(s);
    if |t| == 0 then []
    else
      var w := TakeWord(t);
      var rest := LStrip(t[|w|..]);
      if |rest| == 0 then [w] else [w, rest]
  }

  /** `s.rsplit(c, 1)[0]`: everything before the last `c`, or all of `s`. */
  function BeforeLast(s: string, c: char): (r: string)
    ensures |r| <= |s| && r == s[..|r|]
  {
    if |s| == 0 then ""
    else if s[|s| - 1] == c then s[..|s| - 1]
    else
      var r := BeforeLast(s[..|s| - 1], c);
      if |r| == |s| - 1 then s else r
  }

  /**
   * What `rsplit(c, 1)[0]` gives: all of `s` when it has no `c`, and otherwise
   * the text up to a `c` after which no `c` follows.
   */
  lemma {:induction false} BeforeLastSpec(s: string, c: char)
    ensures NoChar(s, c) ==> BeforeLast(s, c) == s
    ensures !NoChar(s, c) ==>
      var r := BeforeLast(s, c);
      |r| < |s| && s[|r|] == c && NoChar(s[|r| + 1..], c)
    decreases |s|
  {
    if |s| > 0 && s[|s| - 1] != c {
      var t := s[..|s| - 1];
      BeforeLastSpec(t, c);
      var r := BeforeLast(s, c);
      if !NoChar(s, c) {
        var k :| 0 <= k < |s| && s[k] == c;
        assert t[k] == c;
        assert s[|r| + 1..] == t[|r| + 1..] + [s[|s| - 1]];
      }
    }
  }

  /** `[f(x) for x in xs]`. */
  function MapSeq<A, B>(f: A --> B, xs: seq<A>): (r: seq<B>)
    requires forall k :: 0 <= k < |xs| ==> f.requires(xs[k])
    ensures |r| == |xs| && forall k :: 0 <= k < |xs| ==> r[k] == f(xs[k])
  {
    seq(|xs|, k requires 0 <= k < |xs| => f(xs[k]))
  }

  /** Mapping one more element appends its image. */
  lemma MapSeqSnoc<A, B>(f: A --> B, xs: seq<A>, j: nat)
    requires j < |xs| && forall k :: 0 <= k <= j ==> f.requires(xs[k])
    ensures MapSeq(f, xs[..j + 1]) == MapSeq(f, xs[..j]) + [f(xs[j])]
  {
  }

  /** `a` is `b` with some elements left out, the rest in the same order. */
  predicate IsSubseq<T(==)>(a: seq<T>, b: seq<T>)
    decreases |b|
  {
    if |a| == 0 then true
    else if |b| == 0 then false
    else if a[0] == b[0] then IsSubseq(a[1..], b[1..])
    else IsSubseq(a, b[1..])
  }

  lemma {:induction false} IsSubseqExtend<T>(a: seq<T>, b: seq<T>, x: T)
    requires IsSubseq(a, b)
    ensures IsSubseq(a, b + [x])
    decreases |b|
  {
    if |a| > 0 && |b| > 0 {
      assert (b + [x])[1..] == b[1..] + [x];
      if a[0] == b[0] {
        IsSubseqExtend(a[1..], b[1..], x);
      } else {
        IsSubseqExtend(a, b[1..], x);
      }
    }
  }

  lemma {:induction false} IsSubseqAppend<T>(a: seq<T>, b: seq<T>, x: T)
    requires IsSubseq(a, b)
    ensures IsSubseq(a + [x], b + [x])
    decreases |b|
  {
    if |b| == 0 {
      assert a + [x] == [x] && b + [x] == [x];
      assert IsSubseq([x][1..], [x][1..]);
    } else {
      assert (b + [x])[1..] == b[1..] + [x];
      if |a| > 0 && a[0] == b[0] {
        IsSubseqAppend(a[1..], b[1..], x);
        assert (a + [x])[1..] == a[1..] + [x];
      } else if |a| > 0 {
        IsSubseqAppend(a, b[1..], x);
      } else if b[0] != x {
        IsSubseqAppend(a, b[1..], x);
      }
    }
  }

  /** `s.startswith(p)` */
  predicate IsPrefix(p: string, s: string)
  {
    |p| <= |s| && s[..|p|] == p
  }

  function Reverse<T>(s: seq<T>): (r: seq<T>)
    ensures |r| == |s|
  {
    if |s| == 0 then [] else Reverse(s[1..]) + [s[0]]
  }

  lemma {:induction false} ReverseAt<T>(s: seq<T>, k: int)
    requires 0 <= k < |s|
    ensures Reverse(s)[k] == s[|s| - 1 - k]
    decreases |s|
  {
    if k < |s| - 1 { ReverseAt(s[1..], k); }
  }

  lemma ReverseInvolution<T>(s: seq<T>)
    ensures Reverse(Reverse(s)) == s
  {
    forall k | 0 <= k < |s| ensures Reverse(Reverse(s))[k] == s[k] {
      ReverseAt(Reverse(s), k);
      ReverseAt(s, |s| - 1 - k);
    }
  }

  // ---------------------------------------------------------------------
  // Python slicing with a possibly negative bound
  // ---------------------------------------------------------------------

  /** Where Python puts the bound `n` of `s[:n]` and `s[n:]`. */
  function SliceIndex(n: int, len: nat): (k: nat)
    ensures k <= len
  {
    if n < 0 then (if len + n < 0 then 0 else len + n)
    else if n > len then len else n
  }

  /** `s[:n]` */
  function Head<T>(s: seq<T>, n: int): seq<T>
  {
    s[..SliceIndex(n, |s|)]
  }

  /** `s[n:]` */
  function Tail<T>(s: seq<T>, n: int): seq<T>
  {
    s[SliceIndex(n, |s|)..]
  }

  // ---------------------------------------------------------------------
  // Decimal integers: Python's str(int) and int(str)
  // ---------------------------------------------------------------------

  function DigitChar(d: nat): char
    requires d < 10
  {
    (48 + d) as char
  }

  function DigitValue(c: char): nat
    requires IsDigit(c)
  {
    c as int - 48
  }

  function NatToString(n: nat): (r: string)
    ensures |r| > 0 && AllDigits(r)
  {
    if n < 10 then [DigitChar(n)] else NatToString(n / 10) + [DigitChar(n % 10)]
  }

  /** `str(i)` */
  function IntToString(i: int): (r: string)
    ensures |r| > 0 && !IsSpace(r[0]) && !IsSpace(r[|r| - 1])
    ensures forall k :: 0 <= k < |r| ==> r[k] == '-' || IsDigit(r[k])
  {
    if i < 0 then "-" + NatToString(-i) else NatToString(i)
  }

  function DigitsValue(s: string): nat
    requires AllDigits(s)
  {
    if |s| == 0 then 0 else DigitsValue(s[..|s| - 1]) * 10 + DigitValue(s[|s| - 1])
  }

  /** `int(s)` in base 10: surrounding whitespace, an optional sign, digits. */
  function ParseInt(s: string): Option<int>
  {
    var t := Strip(s);
    if |t| > 1 && (t[0] == '-' || t[0] == '+') && AllDigits(t[1..]) then
      var v: int := DigitsValue(t[1..]);
      Some(if t[0] == '-' then -v else v)
    else if |t| > 0 && AllDigits(t) then Some(DigitsValue(t))
    else None
  }

  lemma {:induction false} DigitsOfNat(n: nat)
    ensures DigitsValue(NatToString(n)) == n
    decreases n
  {
    if n >= 10 {
      DigitsOfNat(n / 10);
      var s := NatToString(n);
      assert s[..|s| - 1] == NatToString(n / 10);
    }
  }

  /** Reading back what `str` printed gives the number again. */
  lemma ParseIntToString(i: int)
    ensures ParseInt(IntToString(i)) == Some(i)
  {
    var s := IntToString(i);
    StripNoSpaceEnds(s);
    if i < 0 {
      DigitsOfNat(-i);
      assert s[1..] == NatToString(-i);
    } else {
      DigitsOfNat(i);
    }
  }

  lemma IntToStringInjective(i: int, j: int)
    requires IntToString(i) == IntToString(j)
    ensures i == j
  {
    ParseIntToString(i);
    ParseIntToString(j);
  }

  // ---------------------------------------------------------------------
  // defaultdict(list)
  // ---------------------------------------------------------------------

  /** The values listed under `key`, in order. */
  function Collect<K(==, !new), V(==, !new)>(pairs: seq<(K, V)>, key: K): (r: seq<V>)
    ensures |r| <= |pairs|
    ensures forall v :: v in r <==> exists i :: 0 <= i < |pairs| && pairs[i].0 == key && pairs[i].1 == v
    ensures (forall i :: 0 <= i < |pairs| ==> pairs[i].0 != key) ==> r == []
  {
    if |pairs| == 0 then []
    else
      var n := |pairs| - 1;
      var prev := Collect(pairs[..n], key);
      assert forall i :: 0 <= i < n ==> pairs[..n][i] == pairs[i];
      if pairs[n].0 == key then prev + [pairs[n].1] else prev
  }

  /** `d[key].append(v)` on a `defaultdict(list)`. */
  function AppendTo<K(==), V>(m: map<K, seq<V>>, key: K, v: V): map<K, seq<V>>
  {
    m[key := (if key in m then m[key] else []) + [v]]
  }

  /** `m` is the `defaultdict(list)` that appending `pairs` in order builds. */
  ghost predicate GroupsOf<K(!new), V(!new)>(m: map<K, seq<V>>, pairs: seq<(K, V)>)
  {
    && (forall key :: key in m ==> m[key] == Collect(pairs, key) && m[key] != [])
    && (forall i :: 0 <= i < |pairs| ==> pairs[i].0 in m)
  }

  lemma AppendToGroups<K(!new), V(!new)>(m: map<K, seq<V>>, pairs: seq<(K, V)>, key: K, v: V)
    requires GroupsOf(m, pairs)
    ensures GroupsOf(AppendTo(m, key, v), pairs + [(key, v)])
  {
    var ps := pairs + [(key, v)];
    assert ps[..|pairs|] == pairs;
    var m' := AppendTo(m, key, v);
    forall k | k in m' ensures m'[k] == Collect(ps, k) {
      if k != key {
        assert k in m;
      }
    }
  }

  /** `for k, v in pairs: d[k].append(v)` on an empty `defaultdict(list)`. */
  method GroupPairs<K(==, !new), V(==, !new)>(pairs: seq<(K, V)>) returns (m: map<K, seq<V>>)
    ensures GroupsOf(m, pairs)
  {
    m := map[];
    var i := 0;
    while i < |pairs|
      invariant 0 <= i <= |pairs|
      invariant GroupsOf(m, pairs[..i])
    {
      assert pairs[..i + 1] == pairs[..i] + [pairs[i]];
      AppendToGroups(m, pairs[..i], pairs[i].0, pairs[i].1);
      m := AppendTo(m, pairs[i].0, pairs[i].1);
      i := i + 1;
    }
    assert pairs[..i] == pairs;
  }

  // ---------------------------------------------------------------------
  // Mapping a partial function over a list
  // ---------------------------------------------------------------------

  /** `[f(x) for x in xs]` where `f` may fail: `None` as soon as one call does. */
  function MapAll<A, B>(f: A -> Option<B>, xs: seq<A>): Option<seq<B>>
  {
    if |xs| == 0 then Some([])
    else
      match MapAll(f, xs[..|xs| - 1])
      case None => None
      case Some(bs) =>
        match f(xs[|xs| - 1])
        case None => None
        case Some(b) => Some(bs + [b])
  }

  /** One result per element, in order, and none at all once a call fails. */
  lemma {:induction false} MapAllSpec<A, B>(f: A -> Option<B>, xs: seq<A>)
    ensures MapAll(f, xs).Some? <==> forall k :: 0 <= k < |xs| ==> f(xs[k]).Some?
    ensures MapAll(f, xs).Some? ==>
      |MapAll(f, xs).value| == |xs| && forall k :: 0 <= k < |xs| ==> MapAll(f, xs).value[k] == f(xs[k]).value
    decreases |xs|
  {
    if |xs| > 0 {
      var n := |xs| - 1;
      var init := xs[..n];
      MapAllSpec(f, init);
      if MapAll(f, init).None? {
        var k :| 0 <= k < n && f(init[k]).None?;
        assert init[k] == xs[k];
      } else if f(xs[n]).Some? {
        var r := MapAll(f, init).value + [f(xs[n]).value];
        forall k | 0 <= k < |xs|
          ensures f(xs[k]).Some? && r[k] == f(xs[k]).value
        {
          if k < n {
            assert init[k] == xs[k];
          }
        }
      }
    }
  }

  /** The loop that computes `MapAll`: `f` on each element in turn, giving up at the first `None`. */
  method CollectAll<A, B>(f: A -> Option<B>, xs: seq<A>) returns (r: Option<seq<B>>)
    ensures r == MapAll(f, xs)
  {
    var out: seq<B> := [];
    var j := 0;
    while j < |xs|
      invariant 0 <= j <= |xs| && MapAll(f, xs[..j]) == Some(out)
    {
      assert xs[..j + 1][..j] == xs[..j];
      var b := f(xs[j]);
      if b.None? {
        MapAllSpec(f, xs);
        return None;
      }
      out := out + [b.value];
      j := j + 1;
    }
    assert xs[..j] == xs;
    r := Some(out);
  }
}
