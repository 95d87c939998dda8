/**
 * Text operations the pipeline relies on: Rust's `str::starts_with`,
 * the byte-wise order of `String` (`Ord`, used by `sort` and `<`),
 * `slice::sort` on strings, `join`, `split(' ').next()` and the line
 * splitting of `BufRead::lines`.
 */
module Strings {

  predicate StartsWith(s: string, prefix: string) {
    |prefix| <= |s| && s[..|prefix|] == prefix
  }

  /**
   * Lexicographic order on strings. Rust compares the UTF-8 bytes; for valid
   * UTF-8 that is the same as comparing code points, which is what `<` on
   * `char` does here.
   */
  predicate LexLess(a: string, b: string) {
    if |a| == 0 then |b| > 0
    else if |b| == 0 then false
    else if a[0] != b[0] then a[0] < b[0]
    else LexLess(a[1..], b[1..])
  }

  lemma {:induction false} LexLessIrreflexive(a: string)
    ensures !LexLess(a, a)
  {
    if |a| > 0 {
      LexLessIrreflexive(a[1..]);
    }
  }

  lemma {:induction false} LexLessTransitive(a: string, b: string, c: string)
    requires LexLess(a, b) && LexLess(b, c)
    ensures LexLess(a, c)
  {
    if |a| > 0 && a[0] == b[0] && b[0] == c[0] {
      LexLessTransitive(a[1..], b[1..], c[1..]);
    }
  }

  /** Two different strings are ordered one way or the other. */
  lemma {:induction false} LexLessTotal(a: string, b: string)
    requires a != b
    ensures LexLess(a, b) || LexLess(b, a)
  {
    if |a| > 0 && |b| > 0 && a[0] == b[0] {
      assert a == [a[0]] + a[1..] && b == [b[0]] + b[1..];
      LexLessTotal(a[1..], b[1..]);
    }
  }

  lemma LexLessAsymmetric(a: string, b: string)
    requires LexLess(a, b)
    ensures !LexLess(b, a)
  {
    if LexLess(b, a) {
      LexLessTransitive(a, b, a);
      LexLessIrreflexive(a);
    }
  }

  /** Sorted in ascending order (equal neighbours allowed). */
  ghost predicate SortedStrings(s: seq<string>) {
    forall i, j :: 0 <= i < j < |s| ==> !LexLess(s[j], s[i])
  }

  function InsertString(x: string, s: seq<string>): (r: seq<string>)
    ensures multiset(r) == multiset(s) + multiset{x}
  {
    if s == [] then [x]
    else if LexLess(x, s[0]) then [x] + s
    else
      assert s == [s[0]] + s[1..];
      [s[0]] + InsertString(x, s[1..])
  }

  /**
   * The `slice::sort` of a sequence of strings. This is kept apart from
   * `Sorting.SortByKey`: strings are compared whole under a total order, so
   * the sorted result is unique (`SortedUnique`) and stability plays no
   * part, while `sort_by_key` compares integer keys of elements that may
   * differ under an equal key.
   */
  function SortStrings(s: seq<string>): (r: seq<string>)
    ensures multiset(r) == multiset(s)
    decreases |s|
  {
    if s == [] then []
    else
      assert s == s[..|s| - 1] + [s[|s| - 1]];
      InsertString(s[|s| - 1], SortStrings(s[..|s| - 1]))
  }

  lemma {:induction false} InsertStringSorted(x: string, s: seq<string>)
    requires SortedStrings(s)
    ensures SortedStrings(InsertString(x, s))
  {
    var r := InsertString(x, s);
    if s == [] {
    } else if LexLess(x, s[0]) {
      forall j | 0 < j < |r| ensures !LexLess(r[j], r[0]) {
        assert r[j] == s[j - 1];
        if LexLess(s[j - 1], x) {
          LexLessTransitive(s[j - 1], x, s[0]);
          if j - 1 == 0 { LexLessIrreflexive(s[0]); }
        }
      }
    } else {
      InsertStringSorted(x, s[1..]);
      var t := InsertString(x, s[1..]);
      assert r == [s[0]] + t;
      forall j | 0 <= j < |t| ensures !LexLess(t[j], s[0]) {
        assert t[j] in multiset(s[1..]) + multiset{x};
        if t[j] in multiset(s[1..]) {
          var m :| 0 <= m < |s[1..]| && s[1..][m] == t[j];
          assert s[1..][m] == s[m + 1];
        }
      }
    }
  }

  /** `SortStrings` sorts. */
  lemma {:induction false} SortStringsSorted(s: seq<string>)
    ensures SortedStrings(SortStrings(s))
    decreases |s|
  {
    if s != [] {
      SortStringsSorted(s[..|s| - 1]);
      InsertStringSorted(s[|s| - 1], SortStrings(s[..|s| - 1]));
    }
  }

  /** The first element of a sorted sequence is not above any element of it. */
  lemma SortedHeadLeast(s: seq<string>, x: string)
    requires SortedStrings(s) && s != [] && x in multiset(s)
    ensures !LexLess(x, s[0])
  {
    var i :| 0 <= i < |s| && s[i] == x;
    if i == 0 { LexLessIrreflexive(x); }
  }

  /** Two sorted sequences with the same elements start with the same one. */
  lemma SortedSameHead(a: seq<string>, b: seq<string>)
    requires SortedStrings(a) && SortedStrings(b) && multiset(a) == multiset(b) && a != []
    ensures b != [] && a[0] == b[0]
  {
    assert a[0] in multiset(b);
    SortedHeadLeast(a, b[0]);
    SortedHeadLeast(b, a[0]);
    if a[0] != b[0] {
      LexLessTotal(a[0], b[0]);
    }
  }

  /** Dropping the head of a sorted sequence keeps it sorted and removes one occurrence of the head. */
  lemma SortedTail(a: seq<string>)
    requires SortedStrings(a) && a != []
    ensures SortedStrings(a[1..])
    ensures multiset(a[1..]) == multiset(a) - multiset{a[0]}
  {
    assert a == [a[0]] + a[1..];
    forall i, j | 0 <= i < j < |a[1..]| ensures !LexLess(a[1..][j], a[1..][i]) {
      assert a[1..][i] == a[i + 1] && a[1..][j] == a[j + 1];
    }
  }

  /** There is only one sorted arrangement of a multiset of strings. */
  lemma {:induction false} SortedUnique(a: seq<string>, b: seq<string>)
    requires SortedStrings(a) && SortedStrings(b) && multiset(a) == multiset(b)
    ensures a == b
    decreases |a|
  {
    if a != [] {
      SortedSameHead(a, b);
      SortedTail(a);
      SortedTail(b);
      SortedUnique(a[1..], b[1..]);
      assert a == [a[0]] + a[1..] && b == [b[0]] + b[1..];
    }
  }

  /** Sorting depends only on the multiset of its input. */
  lemma SortStringsCanonical(a: seq<string>, b: seq<string>)
    requires multiset(a) == multiset(b)
    ensures SortStrings(a) == SortStrings(b)
  {
    SortStringsSorted(a);
    SortStringsSorted(b);
    SortedUnique(SortStrings(a), SortStrings(b));
  }

  /** `slice::join`: the elements with `sep` between consecutive ones. */
  function Join(s: seq<string>, sep: string): string {
    if |s| == 0 then ""
    else if |s| == 1 then s[0]
    else s[0] + sep + Join(s[1..], sep)
  }

  /** `line.split(' ').next()`, which never returns `None`: the text before the first space. */
  function FirstToken(line: string): (d: string)
    ensures StartsWith(line, d) && ' ' !in d
    ensures |d| < |line| ==> line[|d|] == ' '
  {
    if line == [] || line[0] == ' ' then []
    else [line[0]] + FirstToken(line[1..])
  }

  /** One carriage return before the newline is dropped with it. */
  function DropCr(line: string): string {
    if |line| > 0 && line[|line| - 1] == '\r' then line[..|line| - 1] else line
  }

  /**
   * The lines of `t` when `cur` has already been read of the current one:
   * each newline ends a line, without its carriage return; a last piece not
   * followed by a newline is a line of its own, kept as it is.
   */
  function LinesFrom(t: string, cur: string): seq<string>
    decreases |t|
  {
    if t == [] then (if cur == [] then [] else [cur])
    else if t[0] == '\n' then [DropCr(cur)] + LinesFrom(t[1..], [])
    else LinesFrom(t[1..], cur + [t[0]])
  }

  /** `BufRead::lines`. */
  function ReadLines(t: string): seq<string> {
    LinesFrom(t, [])
  }

  /** A text that is empty or ends with a newline: lines appended to it are read back as such. */
  predicate EndsLine(t: string) {
    t == [] || t[|t| - 1] == '\n'
  }

  /** A line that reads back as itself once a newline is put after it. */
  predicate PlainLine(line: string) {
    '\n' !in line && (|line| == 0 || line[|line| - 1] != '\r')
  }

  /** A text that ends with a newline is read the same whatever follows it. */
  lemma {:induction false} LinesFromConcat(a: string, b: string, cur: string)
    requires a != [] && EndsLine(a)
    ensures LinesFrom(a + b, cur) == LinesFrom(a, cur) + ReadLines(b)
    decreases |a|
  {
    var rest := a[1..];
    assert (a + b)[0] == a[0] && (a + b)[1..] == rest + b;
    if rest == [] {
      assert a[0] == '\n';
      assert rest + b == b;
    } else {
      assert EndsLine(rest);
      if a[0] == '\n' {
        LinesFromConcat(rest, b, []);
      } else {
        LinesFromConcat(rest, b, cur + [a[0]]);
      }
    }
  }

  /** A line without newlines, then a newline, completes the current line. */
  lemma {:induction false} LinesFromOneLine(line: string, cur: string)
    requires '\n' !in line
    ensures LinesFrom(line + "\n", cur) == [DropCr(cur + line)]
    decreases |line|
  {
    var u := line + "\n";
    if line == [] {
      assert u == "\n" && u[1..] == [];
      assert cur + line == cur;
    } else {
      assert u[0] == line[0] && u[1..] == line[1..] + "\n";
      assert '\n' !in line[1..];
      LinesFromOneLine(line[1..], cur + [line[0]]);
      assert cur + [line[0]] + line[1..] == cur + line;
    }
  }

  /** Appending a plain line and a newline adds exactly that line to what is read back. */
  lemma ReadLinesAppend(t: string, line: string)
    requires EndsLine(t) && PlainLine(line)
    ensures EndsLine(t + line + "\n")
    ensures ReadLines(t + line + "\n") == ReadLines(t) + [line]
  {
    var u := line + "\n";
    assert t + line + "\n" == t + u;
    LinesFromOneLine(line, []);
    assert [] + line == line;
    if t == [] {
      assert t + u == u;
    } else {
      LinesFromConcat(t, u, []);
    }
  }
}
