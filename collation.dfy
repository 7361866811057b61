/** Numeric-aware ordering of rotated segment names `<base>.<suffix>` and the
    descending sort rotateBySize applies to the directory listing.  The
    order compares the leading digit run of the suffix as a number first, so
    `<base>.10` comes after `<base>.9`; names whose suffix does not start with
    a digit come after all numbered ones; remaining ties are broken by the
    rest of the suffix and finally by the whole name, which makes the order a
    strict total order on distinct names. */
module Collation {
  import opened Strings

  /** The part of a name after `<base>.`; names without that prefix are kept whole. */
  function Suffix(base: string, name: string): string
  {
    if StartsWith(name, base + ".") then name[|base| + 1..] else name
  }

  predicate Numbered(s: string) { DigitRun(s) > 0 }

  function Lead(s: string): nat { DigitsValue(s[..DigitRun(s)]) }

  function Tail(s: string): string { s[DigitRun(s)..] }

  /** a collates strictly before b. */
  predicate Before(base: string, a: string, b: string)
  {
    var x, y := Suffix(base, a), Suffix(base, b);
    (Numbered(x) && !Numbered(y))
    || (Numbered(x) == Numbered(y)
        && (Lead(x) < Lead(y)
            || (Lead(x) == Lead(y)
                && (StrLess(Tail(x), Tail(y)) || (Tail(x) == Tail(y) && StrLess(a, b))))))
  }

  lemma BeforeIrreflexive(base: string, a: string)
    ensures !Before(base, a, a)
  {
    var x := Suffix(base, a);
    StrLessIrreflexive(Tail(x));
    StrLessIrreflexive(a);
  }

  lemma BeforeTransitive(base: string, a: string, b: string, c: string)
    requires Before(base, a, b) && Before(base, b, c)
    ensures Before(base, a, c)
  {
    var x, y, z := Suffix(base, a), Suffix(base, b), Suffix(base, c);
    if Numbered(x) == Numbered(y) == Numbered(z) && Lead(x) == Lead(y) == Lead(z) {
      if StrLess(Tail(x), Tail(y)) && StrLess(Tail(y), Tail(z)) {
        StrLessTransitive(Tail(x), Tail(y), Tail(z));
      } else if Tail(x) == Tail(y) == Tail(z) {
        StrLessTransitive(a, b, c);
      }
    }
  }

  lemma BeforeTotal(base: string, a: string, b: string)
    requires a != b
    ensures Before(base, a, b) || Before(base, b, a)
  {
    var x, y := Suffix(base, a), Suffix(base, b);
    StrLessTotal(Tail(x), Tail(y));
    StrLessTotal(a, b);
  }

  lemma BeforeAsymmetric(base: string, a: string, b: string)
    requires Before(base, a, b)
    ensures !Before(base, b, a)
  {
    if Before(base, b, a) {
      BeforeTransitive(base, a, b, a);
      BeforeIrreflexive(base, a);
    }
  }

  predicate Distinct(s: seq<string>) { forall i, j :: 0 <= i < j < |s| ==> s[i] != s[j] }

  /** Highest first: every later element collates before every earlier one. */
  predicate Descending(base: string, s: seq<string>)
  {
    forall i, j :: 0 <= i < j < |s| ==> Before(base, s[j], s[i])
  }

  function Insert(base: string, x: string, s: seq<string>): (r: seq<string>)
    ensures multiset(r) == multiset(s) + multiset{x}
  {
    if s == [] then [x]
    else if Before(base, s[0], x) then [x] + s
    else
      assert s == [s[0]] + s[1..];
      [s[0]] + Insert(base, x, s[1..])
  }

  /** std::sort of the listing with `collator.compare(file1, file2) > 0`. */
  function SortDesc(base: string, l: seq<string>): (r: seq<string>)
  {
    if l == [] then [] else Insert(base, l[0], SortDesc(base, l[1..]))
  }

  lemma {:induction false} SortDescPermutation(base: string, l: seq<string>)
    ensures multiset(SortDesc(base, l)) == multiset(l)
  {
    if l != [] {
      SortDescPermutation(base, l[1..]);
      assert l == [l[0]] + l[1..];
    }
  }

  lemma {:induction false} InsertDescending(base: string, x: string, s: seq<string>)
    requires Descending(base, s) && x !in s
    ensures Descending(base, Insert(base, x, s))
  {
    if s == [] {
    } else if Before(base, s[0], x) {
      var r := [x] + s;
      forall i, j | 0 <= i < j < |r| ensures Before(base, r[j], r[i]) {
        if i == 0 && j > 1 { BeforeTransitive(base, s[j - 1], s[0], x); }
      }
    } else {
      BeforeTotal(base, s[0], x);
      InsertDescending(base, x, s[1..]);
      var t := Insert(base, x, s[1..]);
      var r := [s[0]] + t;
      forall j | 0 < j < |r| ensures Before(base, r[j], s[0]) {
        assert r[j] in multiset(t);
        assert r[j] == x || r[j] in multiset(s[1..]);
        if r[j] != x {
          var k :| 0 <= k < |s[1..]| && s[1..][k] == r[j];
          assert s[k + 1] == r[j];
        }
      }
    }
  }

  /** Sorting a listing without repeated names gives a strictly descending sequence. */
  lemma {:induction false} SortDescSorted(base: string, l: seq<string>)
    requires Distinct(l)
    ensures Descending(base, SortDesc(base, l))
  {
    if l != [] {
      SortDescSorted(base, l[1..]);
      SortDescPermutation(base, l[1..]);
      assert l[0] !in multiset(l[1..]);
      InsertDescending(base, l[0], SortDesc(base, l[1..]));
    }
  }

  lemma DescendingHeadIsMax(base: string, a: seq<string>, x: string)
    requires Descending(base, a) && |a| > 0 && x in a && x != a[0]
    ensures Before(base, x, a[0])
  {
    var k :| 0 <= k < |a| && a[k] == x;
  }

  lemma SameMembersBothEmpty(a: seq<string>, b: seq<string>)
    requires forall x :: x in a <==> x in b
    ensures a == [] <==> b == []
  {
    if a != [] { assert a[0] in b; }
    if b != [] { assert b[0] in a; }
  }

  /** Two strictly descending sequences with the same elements are equal. */
  lemma {:induction false} DescendingUnique(base: string, a: seq<string>, b: seq<string>)
    requires Descending(base, a) && Descending(base, b)
    requires forall x :: x in a <==> x in b
    ensures a == b
    decreases |a|
  {
    SameMembersBothEmpty(a, b);
    if a != [] {
      if a[0] != b[0] {
        DescendingHeadIsMax(base, a, b[0]);
        DescendingHeadIsMax(base, b, a[0]);
        BeforeAsymmetric(base, b[0], a[0]);
      }
      forall x ensures x in a[1..] <==> x in b[1..] {
        if x in a[1..] {
          var k :| 1 <= k < |a| && a[k] == x;
          assert Before(base, a[k], a[0]);
          BeforeIrreflexive(base, a[0]);
          assert x in b && x != b[0];
        }
        if x in b[1..] {
          var k :| 1 <= k < |b| && b[k] == x;
          assert Before(base, b[k], b[0]);
          BeforeIrreflexive(base, b[0]);
          assert x in a && x != a[0];
        }
      }
      DescendingUnique(base, a[1..], b[1..]);
      assert a == [a[0]] + a[1..] && b == [b[0]] + b[1..];
    }
  }

  /** The sorted order is a function of the set of names alone: the order in
      which the directory happens to list them does not matter. */
  lemma SortDescMembers(base: string, l: seq<string>)
    ensures forall x :: x in SortDesc(base, l) <==> x in l
  {
    SortDescPermutation(base, l);
    forall x ensures x in SortDesc(base, l) <==> x in l {
      assert x in SortDesc(base, l) <==> x in multiset(SortDesc(base, l));
      assert x in l <==> x in multiset(l);
    }
  }

  lemma SortDescListingIndependent(base: string, l1: seq<string>, l2: seq<string>)
    requires Distinct(l1) && Distinct(l2)
    requires forall x :: x in l1 <==> x in l2
    ensures SortDesc(base, l1) == SortDesc(base, l2)
  {
    SortDescSorted(base, l1);
    SortDescSorted(base, l2);
    SortDescMembers(base, l1);
    SortDescMembers(base, l2);
    DescendingUnique(base, SortDesc(base, l1), SortDesc(base, l2));
  }

  /** Name of the n-th size-rotated segment, with the gzip suffix when compressed. */
  function Segment(base: string, n: nat, gz: bool): string
  {
    base + "." + NatToString(n) + (if gz then ".gz" else "")
  }

  lemma SegmentSuffix(base: string, n: nat, gz: bool)
    ensures Numbered(Suffix(base, Segment(base, n, gz)))
    ensures Lead(Suffix(base, Segment(base, n, gz))) == n
    ensures Tail(Suffix(base, Segment(base, n, gz))) == (if gz then ".gz" else "")
  {
    var name := Segment(base, n, gz);
    var g := if gz then ".gz" else "";
    assert name == (base + ".") + (NatToString(n) + g);
    assert StartsWith(name, base + ".");
    var x := Suffix(base, name);
    assert x == NatToString(n) + g;
    NatToStringDigits(n);
    DigitRunOfDigitsThen(NatToString(n), g);
    assert x[..DigitRun(x)] == NatToString(n);
    ParseNatToString(n);
  }

  lemma SegmentShape(base: string, n: nat, gz: bool)
    ensures StartsWith(Segment(base, n, gz), base + ".")
    ensures Segment(base, n, false) + ".gz" == Segment(base, n, true)
    ensures |Segment(base, n, gz)| > |base| + 1
    ensures IsDigit(Segment(base, n, false)[|Segment(base, n, false)| - 1])
  {
    var name := Segment(base, n, gz);
    assert name == (base + ".") + (NatToString(n) + (if gz then ".gz" else ""));
    NatToStringDigits(n);
    var p := Segment(base, n, false);
    assert p == base + "." + NatToString(n);
    assert p[|p| - 1] == NatToString(n)[|NatToString(n)| - 1];
  }

  /** Numbered segments collate by their number: `<base>.9` before `<base>.10`. */
  lemma SegmentBefore(base: string, n: nat, g: bool, m: nat, h: bool)
    requires n < m
    ensures Before(base, Segment(base, n, g), Segment(base, m, h))
  {
    SegmentSuffix(base, n, g);
    SegmentSuffix(base, m, h);
  }

  lemma SegmentInjective(base: string, n: nat, g: bool, m: nat, h: bool)
    requires Segment(base, n, g) == Segment(base, m, h)
    ensures n == m && g == h
  {
    SegmentSuffix(base, n, g);
    SegmentSuffix(base, m, h);
  }

  /** The contiguous history `<base>.k`, ..., `<base>.1`, highest first; index i
      carries the gzip suffix exactly when i is in gz. */
  function Contiguous(base: string, k: nat, gz: set<nat>): (r: seq<string>)
    ensures |r| == k
    ensures forall j :: 0 <= j < k ==> r[j] == Segment(base, k - j, k - j in gz)
  {
    if k == 0 then [] else [Segment(base, k, k in gz)] + Contiguous(base, k - 1, gz)
  }

  lemma ContiguousDescending(base: string, k: nat, gz: set<nat>)
    ensures Descending(base, Contiguous(base, k, gz))
  {
    var r := Contiguous(base, k, gz);
    forall i, j | 0 <= i < j < |r| ensures Before(base, r[j], r[i]) {
      SegmentBefore(base, k - j, k - j in gz, k - i, k - i in gz);
    }
  }

  /** Sorting any listing of a contiguous history yields `<base>.k` first and
      `<base>.1` last, with `<base>.10` in its numeric place. */
  lemma SortContiguous(base: string, k: nat, gz: set<nat>, listing: seq<string>)
    requires Distinct(listing)
    requires forall x :: x in listing <==> x in Contiguous(base, k, gz)
    ensures SortDesc(base, listing) == Contiguous(base, k, gz)
  {
    SortDescSorted(base, listing);
    SortDescMembers(base, listing);
    ContiguousDescending(base, k, gz);
    DescendingUnique(base, SortDesc(base, listing), Contiguous(base, k, gz));
  }
}
