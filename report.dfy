/**
 * Finalisation of one group's log (the body of `sort_txts`): the lines are
 * sorted; in compare-percent mode (and not show-name mode) the first token
 * of each line is a digest id, and every unordered pair of distinct ids gets
 * one comparison line built from their two stored files; the file is then
 * rewritten as the sorted lines, a newline, and the sorted comparison lines.
 */
module Report {
  import opened Wrappers
  import opened Strings
  import opened Naming
  import opened Sorting

  /** The ids the comparison runs over: none unless comparing in digest mode. */
  function DigestSet(lines: seq<string>, flags: Flags): set<string> {
    if flags.comparePercent && !flags.showName then set l | l in lines :: FirstToken(l) else {}
  }

  /** A pair of ids in ascending order (`if d1 < d2 { (d1, d2) } else { (d2, d1) }`). */
  function Ordered(a: string, b: string): (r: (string, string))
    ensures r == (a, b) || r == (b, a)
    ensures a != b ==> LexLess(r.0, r.1)
  {
    if LexLess(a, b) then (a, b)
    else
      assert a != b ==> LexLess(b, a) by {
        if a != b { LexLessTotal(a, b); }
      }
      (b, a)
  }

  /** Every unordered pair of distinct ids, as (smaller, larger). */
  function PairSet(digests: set<string>): set<(string, string)> {
    set a, b | a in digests && b in digests && LexLess(a, b) :: (a, b)
  }

  ghost function PairsFrom(xs: set<string>, ys: set<string>): set<(string, string)> {
    set x, y | x in xs && y in ys && x != y :: Ordered(x, y)
  }

  /** The digest set of the (sorted) lines, collected by the source's loop. */
  method CollectDigests(lines: seq<string>, flags: Flags) returns (digests: set<string>)
    ensures digests == DigestSet(lines, flags)
    ensures !(flags.comparePercent && !flags.showName) ==> digests == {}
    ensures forall d :: d in digests ==> exists i :: 0 <= i < |lines| && FirstToken(lines[i]) == d
  {
    digests := {};
    if flags.comparePercent && !flags.showName {
      var i := 0;
      while i < |lines|
        invariant 0 <= i <= |lines|
        invariant forall d :: d in digests <==> exists j :: 0 <= j < i && FirstToken(lines[j]) == d
      {
        digests := digests + {FirstToken(lines[i])};
        i := i + 1;
      }
      assert digests == DigestSet(lines, flags) by {
        forall d | d in DigestSet(lines, flags) ensures d in digests {
          var l :| l in lines && FirstToken(l) == d;
          var j :| 0 <= j < |lines| && lines[j] == l;
        }
      }
    }
  }

  lemma PairsFromAll(ds: set<string>)
    ensures PairsFrom(ds, ds) == PairSet(ds)
  {
    forall pr | pr in PairSet(ds) ensures pr in PairsFrom(ds, ds) {
      LexLessIrreflexive(pr.0);
      assert Ordered(pr.0, pr.1) == pr;
    }
    forall pr | pr in PairsFrom(ds, ds) ensures pr in PairSet(ds) {
      var x, y :| x in ds && y in ds && x != y && pr == Ordered(x, y);
    }
  }

  /** The nested loops over the digest set that fill the pair set. */
  method EnumeratePairs(digests: set<string>) returns (pairs: set<(string, string)>)
    ensures forall a, b :: (a, b) in pairs <==> a in digests && b in digests && LexLess(a, b)
    ensures forall a, b :: (a, b) in pairs ==> (b, a) !in pairs
  {
    pairs := {};
    var outer := digests;
    while outer != {}
      invariant outer <= digests
      invariant pairs == PairsFrom(digests - outer, digests)
      decreases outer
    {
      var d1 :| d1 in outer;
      var inner := digests;
      while inner != {}
        invariant inner <= digests
        invariant pairs == PairsFrom(digests - outer, digests) + PairsFrom({d1}, digests - inner)
        decreases inner
      {
        var d2 :| d2 in inner;
        if d1 != d2 {
          pairs := pairs + {Ordered(d1, d2)};
        }
        assert PairsFrom({d1}, digests - (inner - {d2}))
            == PairsFrom({d1}, digests - inner) + (if d1 != d2 then {Ordered(d1, d2)} else {});
        inner := inner - {d2};
      }
      assert PairsFrom(digests - (outer - {d1}), digests)
          == PairsFrom(digests - outer, digests) + PairsFrom({d1}, digests);
      outer := outer - {d1};
    }
    assert digests - outer == digests;
    PairsFromAll(digests);
    forall a, b | (a, b) in pairs ensures (b, a) !in pairs {
      LexLessAsymmetric(a, b);
    }
  }

  /** The stored structural text of an id in group `g` (empty when missing). */
  function Payload(files: map<Path, string>, g: string, d: string): string {
    if (g, YamlName(d)) in files then files[(g, YamlName(d))] else ""
  }

  /** `format!("{ratio:5.1}% {d1} {d2}")`, the ratio being outside the model. */
  function CompareLine(fx: Foreign, files: map<Path, string>, g: string, pr: (string, string)): string {
    fx.ratioText(Payload(files, g, pr.0), Payload(files, g, pr.1)) + "% " + pr.0 + " " + pr.1
  }

  function CompareLineOf(fx: Foreign, files: map<Path, string>, g: string): ((string, string)) -> string {
    pr => CompareLine(fx, files, g, pr)
  }

  ghost predicate PayloadsPresent(files: map<Path, string>, g: string, pairs: set<(string, string)>) {
    forall pr :: pr in pairs ==> (g, YamlName(pr.0)) in files && (g, YamlName(pr.1)) in files
  }

  ghost predicate Distinct<T>(s: seq<T>) {
    forall i, j :: 0 <= i < j < |s| ==> s[i] != s[j]
  }

  /** Some listing of a finite set, each element once. */
  ghost function Enumeration(s: set<(string, string)>): (r: seq<(string, string)>)
    ensures Distinct(r) && forall x :: x in r <==> x in s
    decreases |s|
  {
    if s == {} then []
    else
      var x :| x in s;
      [x] + Enumeration(s - {x})
  }

  lemma {:induction false} DistinctCount<T>(s: seq<T>, x: T)
    requires Distinct(s)
    ensures multiset(s)[x] == if x in s then 1 else 0
  {
    if s != [] {
      assert s == [s[0]] + s[1..];
      assert Distinct(s[1..]) by {
        forall i, j | 0 <= i < j < |s[1..]| ensures s[1..][i] != s[1..][j] {
          assert s[1..][i] == s[i + 1] && s[1..][j] == s[j + 1];
        }
      }
      DistinctCount(s[1..], x);
      if x == s[0] {
        assert x !in s[1..] by {
          forall i | 0 <= i < |s[1..]| ensures s[1..][i] != x { assert s[1..][i] == s[i + 1]; }
        }
      }
    }
  }

  /** Two listings of the same elements, each without repetition, are permutations of each other. */
  lemma DistinctPermutation<T>(a: seq<T>, b: seq<T>)
    requires Distinct(a) && Distinct(b) && forall x :: x in a <==> x in b
    ensures multiset(a) == multiset(b)
  {
    forall x ensures multiset(a)[x] == multiset(b)[x] {
      DistinctCount(a, x);
      DistinctCount(b, x);
    }
  }

  /**
   * What finalisation writes for a group whose log holds `text`: the sorted
   * lines joined by newlines, a newline, and the sorted comparison lines of
   * all pairs joined by newlines.
   */
  ghost function ExpectedReport(text: string, g: string, files: map<Path, string>, flags: Flags, fx: Foreign): string {
    var lines := SortStrings(ReadLines(text));
    var pairs := PairSet(DigestSet(lines, flags));
    var compares := SortStrings(MapSeq(CompareLineOf(fx, files, g), Enumeration(pairs)));
    Join(lines, "\n") + "\n" + Join(compares, "\n")
  }

  /** The pairs whose files the report reads. */
  ghost function ReportPairs(text: string, flags: Flags): set<(string, string)> {
    PairSet(DigestSet(SortStrings(ReadLines(text)), flags))
  }

  /**
   * The loop over the pair set: one comparison line per pair, read from the
   * pair's two stored files; it stops at the first file that is missing.
   */
  method CompareAll(g: string, pairs: set<(string, string)>, files: map<Path, string>, fx: Foreign)
    returns (res: Result<seq<string>, Path>)
    ensures res.Success? <==> PayloadsPresent(files, g, pairs)
    ensures res.Success? ==> multiset(res.value) == multiset(MapSeq(CompareLineOf(fx, files, g), Enumeration(pairs)))
    ensures res.Failure? ==> res.error.0 == g && res.error !in files
  {
    var compares: seq<string> := [];
    ghost var order: seq<(string, string)> := [];
    var todo := pairs;
    while todo != {}
      invariant todo <= pairs
      invariant Distinct(order)
      invariant forall pr :: pr in order <==> pr in pairs && pr !in todo
      invariant PayloadsPresent(files, g, pairs - todo)
      invariant compares == MapSeq(CompareLineOf(fx, files, g), order)
      decreases todo
    {
      var pr :| pr in todo;
      var p1, p2 := (g, YamlName(pr.0)), (g, YamlName(pr.1));
      if p1 !in files {
        return Failure(p1);
      }
      if p2 !in files {
        return Failure(p2);
      }
      var line := fx.ratioText(files[p1], files[p2]) + "% " + pr.0 + " " + pr.1;
      assert line == CompareLineOf(fx, files, g)(pr);
      MapSeqAppend(CompareLineOf(fx, files, g), order, [pr]);
      compares := compares + [line];
      order := order + [pr];
      todo := todo - {pr};
    }
    assert pairs - todo == pairs;
    DistinctPermutation(order, Enumeration(pairs));
    MapSeqPermutation(CompareLineOf(fx, files, g), order, Enumeration(pairs));
    res := Success(compares);
  }

  /**
   * The report of group `g`, whose log holds `text`, read against the stored
   * files. It fails, naming a missing file, exactly when a pair's file is
   * missing (the source's `unwrap` panics there).
   */
  method GroupReport(g: string, text: string, files: map<Path, string>, flags: Flags, fx: Foreign)
    returns (res: Result<string, Path>)
    ensures res.Success? <==> PayloadsPresent(files, g, ReportPairs(text, flags))
    ensures res.Success? ==> res.value == ExpectedReport(text, g, files, flags, fx)
    ensures res.Failure? ==> res.error.0 == g && res.error !in files
  {
    var lines := SortStrings(ReadLines(text));
    var digests := CollectDigests(lines, flags);
    var pairs := EnumeratePairs(digests);
    assert pairs == PairSet(digests) by {
      forall pr ensures pr in pairs <==> pr in PairSet(digests) {
        assert pr == (pr.0, pr.1);
      }
    }
    var compared := CompareAll(g, pairs, files, fx);
    if compared.Failure? {
      return Failure(compared.error);
    }
    var compares := SortStrings(compared.value);
    SortStringsCanonical(compared.value, MapSeq(CompareLineOf(fx, files, g), Enumeration(pairs)));
    res := Success(Join(lines, "\n") + "\n" + Join(compares, "\n"));
  }
}
