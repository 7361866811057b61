/** What size rotation does to a contiguous history: with `<base>.1` ...
    `<base>.k` (some of them gzipped) next to the active file `<base>`, one
    rotation moves every `<base>.i` to `<base>.(i+1)`, compressing it when
    compression is on, and retires the active file as `<base>.1`, losing and
    overwriting nothing.  The proof follows the renumbering walk from the
    highest segment down, with the directory split at each step into the
    untouched entries, the segments still to move and the segments moved. */
module RotationProofs {
  import opened Strings
  import opened FileSystem
  import opened Collation
  import opened Writer

  /** The number a segment name carries. */
  function Idx(base: string, name: string): nat { Lead(Suffix(base, name)) }

  /** The name of old segment i in the contiguous history. */
  function Old(base: string, gz: set<nat>, i: nat): string { Segment(base, i, i in gz) }

  /** Where old segment i ends up. */
  function Shifted(base: string, gz: set<nat>, comp: bool, i: nat): string
  {
    Segment(base, i + 1, i in gz || comp)
  }

  /** What old segment i holds after the move: the same file, compressed
      when it was not yet and compression is on. */
  function ShiftedEntry(fs0: Files, base: string, gz: set<nat>, comp: bool, i: nat): File
  {
    var f := if Old(base, gz, i) in fs0 then fs0[Old(base, gz, i)] else File("", 0, false);
    if comp && i !in gz then f.(gzipped := true) else f
  }

  predicate History(fs: Files, base: string, k: nat, gz: set<nat>)
  {
    Matching(fs, base) == set x | x in Contiguous(base, k, gz)
  }

  function Untouched(fs0: Files, base: string): Files
  {
    map n | n in fs0 && !StartsWith(n, base + ".") :: fs0[n]
  }

  function Pending(fs0: Files, base: string, j: nat): Files
  {
    map n | n in fs0 && StartsWith(n, base + ".") && Idx(base, n) <= j :: fs0[n]
  }

  function Done(fs0: Files, base: string, k: nat, gz: set<nat>, comp: bool, j: nat): Files
    decreases k - j
  {
    if j >= k then map[]
    else Done(fs0, base, k, gz, comp, j + 1)[Shifted(base, gz, comp, j + 1) := ShiftedEntry(fs0, base, gz, comp, j + 1)]
  }

  /** The directory after the walk has moved segments k down to j+1. */
  function Midway(fs0: Files, base: string, k: nat, gz: set<nat>, comp: bool, j: nat): Files
  {
    Untouched(fs0, base) + Pending(fs0, base, j) + Done(fs0, base, k, gz, comp, j)
  }

  lemma SegmentGz(base: string, n: nat, g: bool)
    ensures HasGzSuffix(Segment(base, n, g)) == g
    ensures Idx(base, Segment(base, n, g)) == n
    ensures StartsWith(Segment(base, n, g), base + ".")
  {
    SegmentShape(base, n, false);
    SegmentShape(base, n, g);
    SegmentSuffix(base, n, g);
    var p := Segment(base, n, false);
    if g {
      assert Segment(base, n, g)[|Segment(base, n, g)| - 3..] == ".gz";
    } else {
      assert p[|p| - 1] != 'z';
    }
  }

  /** In a contiguous history every matching entry is the segment its number names. */
  lemma MatchingIsSegment(fs: Files, base: string, k: nat, gz: set<nat>, n: string)
    requires History(fs, base, k, gz)
    requires n in fs && StartsWith(n, base + ".")
    ensures 1 <= Idx(base, n) <= k && n == Old(base, gz, Idx(base, n))
  {
    assert n in Matching(fs, base);
    var c := Contiguous(base, k, gz);
    var p :| 0 <= p < |c| && c[p] == n;
    SegmentGz(base, k - p, k - p in gz);
  }

  lemma SegmentPresent(fs: Files, base: string, k: nat, gz: set<nat>, i: nat)
    requires History(fs, base, k, gz)
    requires 1 <= i <= k
    ensures Old(base, gz, i) in fs
  {
    var c := Contiguous(base, k, gz);
    assert c[k - i] == Old(base, gz, i);
    assert Old(base, gz, i) in Matching(fs, base);
  }

  /** The moved segments are named by their new numbers, j+2 to k+1. */
  lemma {:induction false} DoneKeys(fs0: Files, base: string, k: nat, gz: set<nat>, comp: bool, j: nat)
    requires j <= k
    ensures forall n :: n in Done(fs0, base, k, gz, comp, j) ==>
              StartsWith(n, base + ".") && j + 2 <= Idx(base, n) <= k + 1
              && n == Shifted(base, gz, comp, Idx(base, n) - 1)
    decreases k - j
  {
    if j < k {
      DoneKeys(fs0, base, k, gz, comp, j + 1);
      var d1 := Done(fs0, base, k, gz, comp, j + 1);
      var t := Shifted(base, gz, comp, j + 1);
      var d := d1[t := ShiftedEntry(fs0, base, gz, comp, j + 1)];
      assert Done(fs0, base, k, gz, comp, j) == d;
      forall n | n in d
        ensures StartsWith(n, base + ".") && j + 2 <= Idx(base, n) <= k + 1
                && n == Shifted(base, gz, comp, Idx(base, n) - 1)
      {
        if n == t {
          SegmentGz(base, j + 2, (j + 1) in gz || comp);
        } else {
          assert n in d1;
        }
      }
    }
  }

  lemma ShiftedDistinct(base: string, gz: set<nat>, comp: bool, a: nat, b: nat)
    requires a != b
    ensures Shifted(base, gz, comp, a) != Shifted(base, gz, comp, b)
  {
    SegmentGz(base, a + 1, a in gz || comp);
    SegmentGz(base, b + 1, b in gz || comp);
  }

  /** Every old segment above j holds its file under its shifted name. */
  lemma {:induction false} DoneValues(fs0: Files, base: string, k: nat, gz: set<nat>, comp: bool, j: nat)
    requires j <= k
    ensures forall i :: j < i <= k ==>
              Shifted(base, gz, comp, i) in Done(fs0, base, k, gz, comp, j)
              && Done(fs0, base, k, gz, comp, j)[Shifted(base, gz, comp, i)] == ShiftedEntry(fs0, base, gz, comp, i)
    decreases k - j
  {
    if j < k {
      DoneValues(fs0, base, k, gz, comp, j + 1);
      var d1 := Done(fs0, base, k, gz, comp, j + 1);
      var t := Shifted(base, gz, comp, j + 1);
      var d := d1[t := ShiftedEntry(fs0, base, gz, comp, j + 1)];
      assert Done(fs0, base, k, gz, comp, j) == d;
      forall i | j < i <= k
        ensures Shifted(base, gz, comp, i) in d && d[Shifted(base, gz, comp, i)] == ShiftedEntry(fs0, base, gz, comp, i)
      {
        if i > j + 1 {
          ShiftedDistinct(base, gz, comp, i, j + 1);
        }
      }
    }
  }

  lemma DoneFacts(fs0: Files, base: string, k: nat, gz: set<nat>, comp: bool, j: nat)
    requires j <= k
    ensures forall n :: n in Done(fs0, base, k, gz, comp, j) ==>
              StartsWith(n, base + ".") && j + 2 <= Idx(base, n) <= k + 1
              && n == Shifted(base, gz, comp, Idx(base, n) - 1)
    ensures forall i :: j < i <= k ==>
              Shifted(base, gz, comp, i) in Done(fs0, base, k, gz, comp, j)
              && Done(fs0, base, k, gz, comp, j)[Shifted(base, gz, comp, i)] == ShiftedEntry(fs0, base, gz, comp, i)
  {
    DoneKeys(fs0, base, k, gz, comp, j);
    DoneValues(fs0, base, k, gz, comp, j);
  }

  /** Before the walk the split is the directory itself. */
  lemma MidwayStart(fs0: Files, base: string, k: nat, gz: set<nat>, comp: bool)
    requires History(fs0, base, k, gz)
    ensures Midway(fs0, base, k, gz, comp, k) == fs0
  {
    var m := Midway(fs0, base, k, gz, comp, k);
    forall n | n in fs0 && StartsWith(n, base + ".") ensures n in Pending(fs0, base, k) {
      MatchingIsSegment(fs0, base, k, gz, n);
    }
    assert m.Keys == fs0.Keys;
  }

  /** After the walk nothing is pending any more. */
  lemma MidwayEnd(fs0: Files, base: string, k: nat, gz: set<nat>, comp: bool)
    requires History(fs0, base, k, gz)
    ensures Midway(fs0, base, k, gz, comp, 0) == Untouched(fs0, base) + Done(fs0, base, k, gz, comp, 0)
  {
    forall n | n in fs0 && StartsWith(n, base + ".") ensures n !in Pending(fs0, base, 0) {
      MatchingIsSegment(fs0, base, k, gz, n);
    }
    assert Pending(fs0, base, 0) == map[];
  }

  /** A rename onto a free name, optionally followed by gzip of the new
      name, as a single update of the directory. */
  lemma MoveAndCompress(cur: Files, file: string, target: string, compress: bool, t: string, e: File)
    requires file in cur && target !in cur
    requires compress ==> !HasGzSuffix(target) && t == target + ".gz" && t !in cur && e == cur[file].(gzipped := true)
    requires !compress ==> t == target && e == cur[file]
    ensures (var moved := Renamed(cur, file, target); if compress then Compressed(moved, target) else moved)
            == (cur - {file})[t := e]
  {
    var moved := Renamed(cur, file, target);
    assert moved == (cur - {file})[target := cur[file]];
    if compress {
      assert t !in moved;
      assert Compressed(moved, target) == (moved - {target})[t := e];
    }
  }

  lemma MergeRemoveUpdate(u: Files, p: Files, d: Files, f: string, t: string, e: File)
    requires f !in u && f !in d
    ensures (u + p + d - {f})[t := e] == u + (p - {f}) + d[t := e]
  {
  }

  lemma PendingStep(fs0: Files, base: string, k: nat, gz: set<nat>, j: nat)
    requires History(fs0, base, k, gz)
    requires 1 <= j <= k
    ensures Pending(fs0, base, j) - {Old(base, gz, j)} == Pending(fs0, base, j - 1)
  {
    SegmentGz(base, j, j in gz);
    forall n | n in fs0 && StartsWith(n, base + ".") && Idx(base, n) == j
      ensures n == Old(base, gz, j)
    {
      MatchingIsSegment(fs0, base, k, gz, n);
    }
  }

  /** Taking segment j out of the pending part and adding its shifted copy
      to the moved part is the split at j-1. */
  lemma StepSplit(fs0: Files, base: string, k: nat, gz: set<nat>, comp: bool, j: nat)
    requires History(fs0, base, k, gz)
    requires 1 <= j <= k
    ensures (Midway(fs0, base, k, gz, comp, j) - {Old(base, gz, j)})[Shifted(base, gz, comp, j) := ShiftedEntry(fs0, base, gz, comp, j)]
            == Midway(fs0, base, k, gz, comp, j - 1)
  {
    var file := Old(base, gz, j);
    var t := Shifted(base, gz, comp, j);
    var e := ShiftedEntry(fs0, base, gz, comp, j);
    SegmentGz(base, j, j in gz);
    DoneFacts(fs0, base, k, gz, comp, j);
    var u, p, d := Untouched(fs0, base), Pending(fs0, base, j), Done(fs0, base, k, gz, comp, j);
    assert file !in u && file !in d;
    MergeRemoveUpdate(u, p, d, file, t, e);
    PendingStep(fs0, base, k, gz, j);
    assert Done(fs0, base, k, gz, comp, j - 1) == d[t := e];
  }

  /** Segment number j+1 is free at the split at j. */
  lemma FreeSlot(fs0: Files, base: string, k: nat, gz: set<nat>, comp: bool, j: nat, n: string)
    requires j <= k
    requires StartsWith(n, base + ".") && Idx(base, n) == j + 1
    ensures n !in Midway(fs0, base, k, gz, comp, j)
  {
    DoneFacts(fs0, base, k, gz, comp, j);
    assert n !in Untouched(fs0, base);
    assert n !in Pending(fs0, base, j);
    assert n !in Done(fs0, base, k, gz, comp, j);
  }

  /** Segment j is still in place at the split at j. */
  lemma PendingSlot(fs0: Files, base: string, k: nat, gz: set<nat>, comp: bool, j: nat)
    requires History(fs0, base, k, gz)
    requires 1 <= j <= k
    ensures Old(base, gz, j) in fs0 && Old(base, gz, j) in Midway(fs0, base, k, gz, comp, j)
    ensures Midway(fs0, base, k, gz, comp, j)[Old(base, gz, j)] == fs0[Old(base, gz, j)]
  {
    SegmentGz(base, j, j in gz);
    SegmentPresent(fs0, base, k, gz, j);
    DoneFacts(fs0, base, k, gz, comp, j);
    assert Old(base, gz, j) in Pending(fs0, base, j);
    assert Old(base, gz, j) !in Done(fs0, base, k, gz, comp, j);
  }

  /** One step of the walk: moving segment j to j+1 (and compressing it)
      takes the split at j to the split at j-1. */
  lemma RenumberStep(fs0: Files, base: string, k: nat, gz: set<nat>, comp: bool, j: nat)
    requires History(fs0, base, k, gz)
    requires 1 <= j <= k
    ensures var cur := Midway(fs0, base, k, gz, comp, j);
            var file := Old(base, gz, j);
            var target := Segment(base, j + 1, IsGzip(file));
            var moved := Renamed(cur, file, target);
            (if !IsGzip(file) && comp then Compressed(moved, target) else moved)
              == Midway(fs0, base, k, gz, comp, j - 1)
  {
    var cur := Midway(fs0, base, k, gz, comp, j);
    var file := Old(base, gz, j);
    var g := j in gz;
    SegmentGz(base, j, g);
    var target := Segment(base, j + 1, g);
    SegmentGz(base, j + 1, g);
    PendingSlot(fs0, base, k, gz, comp, j);
    FreeSlot(fs0, base, k, gz, comp, j, target);
    var t := Shifted(base, gz, comp, j);
    if !g && comp {
      SegmentShape(base, j + 1, false);
      SegmentGz(base, j + 1, true);
      FreeSlot(fs0, base, k, gz, comp, j, t);
    }
    assert ShiftedEntry(fs0, base, gz, comp, j) == if !g && comp then cur[file].(gzipped := true) else cur[file];
    MoveAndCompress(cur, file, target, !g && comp, t, ShiftedEntry(fs0, base, gz, comp, j));
    StepSplit(fs0, base, k, gz, comp, j);
  }

  lemma {:induction false} RenumberContiguous(fs0: Files, base: string, k: nat, gz: set<nat>, comp: bool, j: nat)
    requires History(fs0, base, k, gz)
    requires j <= k < 65535
    ensures Renumbered(Midway(fs0, base, k, gz, comp, j), base, comp, Contiguous(base, j, gz), j + 1)
            == Midway(fs0, base, k, gz, comp, 0)
    decreases j
  {
    if j > 0 {
      var c := Contiguous(base, j, gz);
      assert c[0] == Old(base, gz, j);
      assert c[1..] == Contiguous(base, j - 1, gz);
      assert Decrement(j + 1) == j;
      RenumberStep(fs0, base, k, gz, comp, j);
      RenumberContiguous(fs0, base, k, gz, comp, j - 1);
    }
  }

  lemma SameSetSameMembers(a: seq<string>, b: seq<string>)
    requires (set x | x in a) == (set x | x in b)
    ensures forall z :: z in a <==> z in b
  {
    var sa, sb := set x | x in a, set x | x in b;
    forall z ensures z in a <==> z in b {
      if z in a { assert z in sa; assert z in sb; }
      if z in b { assert z in sb; assert z in sa; }
    }
  }

  lemma SameMultisetSameLength(a: seq<string>, b: seq<string>)
    requires multiset(a) == multiset(b)
    ensures |a| == |b|
  {
    assert |multiset(a)| == |a| && |multiset(b)| == |b|;
  }

  /** A listing of a contiguous history sorts to it. */
  lemma ListingSorted(fs: Files, base: string, k: nat, gz: set<nat>, listing: seq<string>)
    requires History(fs, base, k, gz) && Lists(listing, fs, base)
    ensures SortDesc(base, listing) == Contiguous(base, k, gz)
  {
    SameSetSameMembers(listing, Contiguous(base, k, gz));
    SortContiguous(base, k, gz, listing);
  }

  /** A listing of a contiguous history has k entries. */
  lemma ListingLength(fs: Files, base: string, k: nat, gz: set<nat>, listing: seq<string>)
    requires History(fs, base, k, gz) && Lists(listing, fs, base)
    ensures |listing| == k
  {
    ListingSorted(fs, base, k, gz, listing);
    SortDescPermutation(base, listing);
    SameMultisetSameLength(listing, SortDesc(base, listing));
  }

  /** The walk starts at k+1, one past the number of listed segments. */
  lemma WalkStart(fs0: Files, base: string, k: nat, gz: set<nat>, comp: bool, listing: seq<string>, sorted: seq<string>)
    requires k < 65535 && |listing| == k
    ensures Renumbered(fs0, base, comp, sorted, (|listing| + 1) % 65536) == Renumbered(fs0, base, comp, sorted, k + 1)
  {
  }

  /** The walk visits the history highest first. */
  lemma WalkOrder(fs0: Files, base: string, k: nat, gz: set<nat>, comp: bool, listing: seq<string>)
    requires k < 65535
    requires History(fs0, base, k, gz) && Lists(listing, fs0, base)
    ensures Renumbered(fs0, base, comp, SortDesc(base, listing), k + 1)
            == Renumbered(Midway(fs0, base, k, gz, comp, k), base, comp, Contiguous(base, k, gz), k + 1)
  {
    ListingSorted(fs0, base, k, gz, listing);
    MidwayStart(fs0, base, k, gz, comp);
  }

  /** The renumbering walk leaves the untouched entries and the moved segments. */
  lemma WalkResult(fs0: Files, base: string, k: nat, gz: set<nat>, comp: bool, listing: seq<string>)
    requires k < 65535
    requires History(fs0, base, k, gz) && Lists(listing, fs0, base)
    ensures Renumbered(fs0, base, comp, SortDesc(base, listing), (|listing| + 1) % 65536)
            == Untouched(fs0, base) + Done(fs0, base, k, gz, comp, 0)
  {
    ListingLength(fs0, base, k, gz, listing);
    WalkStart(fs0, base, k, gz, comp, listing, SortDesc(base, listing));
    WalkOrder(fs0, base, k, gz, comp, listing);
    RenumberContiguous(fs0, base, k, gz, comp, k);
    MidwayEnd(fs0, base, k, gz, comp);
  }

  /** The facts SizeRotationShift states, about a directory r. */
  predicate ShiftedHistory(fs0: Files, base: string, k: nat, gz: set<nat>, comp: bool, r: Files)
    requires base in fs0
  {
    && base !in r
    && Segment(base, 1, comp) in r
    && r[Segment(base, 1, comp)] == (if comp then fs0[base].(gzipped := true) else fs0[base])
    && (forall i :: 1 <= i <= k ==>
          Shifted(base, gz, comp, i) in r && r[Shifted(base, gz, comp, i)] == ShiftedEntry(fs0, base, gz, comp, i))
    && (forall n :: n in fs0 && n != base && !StartsWith(n, base + ".") ==> n in r && r[n] == fs0[n])
    && (forall n :: n in r && StartsWith(n, base + ".") ==>
          n == Segment(base, 1, comp) || (2 <= Idx(base, n) <= k + 1 && n == Shifted(base, gz, comp, Idx(base, n) - 1)))
    && (forall n :: n in r && !StartsWith(n, base + ".") ==> n in fs0 && n != base)
  }

  /** The directory once the active file has become segment 1. */
  function Retired(fs0: Files, base: string, k: nat, gz: set<nat>, comp: bool): Files
    requires base in fs0
  {
    (Untouched(fs0, base) + Done(fs0, base, k, gz, comp, 0) - {base})
      [Segment(base, 1, comp) := if comp then fs0[base].(gzipped := true) else fs0[base]]
  }

  lemma RetiredMovedAt(fs0: Files, base: string, k: nat, gz: set<nat>, comp: bool, i: nat)
    requires base in fs0 && 1 <= i <= k
    ensures var r := Retired(fs0, base, k, gz, comp);
      Shifted(base, gz, comp, i) in r && r[Shifted(base, gz, comp, i)] == ShiftedEntry(fs0, base, gz, comp, i)
  {
    var t := Shifted(base, gz, comp, i);
    DoneValues(fs0, base, k, gz, comp, 0);
    var d := Done(fs0, base, k, gz, comp, 0);
    assert t in d && d[t] == ShiftedEntry(fs0, base, gz, comp, i);
    SegmentGz(base, i + 1, i in gz || comp);
    SegmentGz(base, 1, comp);
    assert t != Segment(base, 1, comp);
    SegmentShape(base, i + 1, i in gz || comp);
    assert t != base;
    var m := Untouched(fs0, base) + d - {base};
    assert t in m && m[t] == d[t];
  }

  lemma RetiredMoved(fs0: Files, base: string, k: nat, gz: set<nat>, comp: bool)
    requires base in fs0
    ensures var r := Retired(fs0, base, k, gz, comp);
      forall i :: 1 <= i <= k ==>
        Shifted(base, gz, comp, i) in r && r[Shifted(base, gz, comp, i)] == ShiftedEntry(fs0, base, gz, comp, i)
  {
    forall i | 1 <= i <= k
      ensures var r := Retired(fs0, base, k, gz, comp);
        Shifted(base, gz, comp, i) in r && r[Shifted(base, gz, comp, i)] == ShiftedEntry(fs0, base, gz, comp, i)
    {
      RetiredMovedAt(fs0, base, k, gz, comp, i);
    }
  }

  lemma RetiredKept(fs0: Files, base: string, k: nat, gz: set<nat>, comp: bool)
    requires base in fs0
    ensures var r := Retired(fs0, base, k, gz, comp);
      forall n :: n in fs0 && n != base && !StartsWith(n, base + ".") ==> n in r && r[n] == fs0[n]
  {
    DoneFacts(fs0, base, k, gz, comp, 0);
    SegmentGz(base, 1, comp);
  }

  lemma RetiredOnly(fs0: Files, base: string, k: nat, gz: set<nat>, comp: bool)
    requires base in fs0
    ensures var r := Retired(fs0, base, k, gz, comp);
      && (forall n :: n in r && StartsWith(n, base + ".") ==>
            n == Segment(base, 1, comp) || (2 <= Idx(base, n) <= k + 1 && n == Shifted(base, gz, comp, Idx(base, n) - 1)))
      && (forall n :: n in r && !StartsWith(n, base + ".") ==> n in fs0 && n != base)
  {
    DoneFacts(fs0, base, k, gz, comp, 0);
    SegmentGz(base, 1, comp);
  }

  lemma RetiredShape(fs0: Files, base: string, k: nat, gz: set<nat>, comp: bool)
    requires base in fs0
    ensures ShiftedHistory(fs0, base, k, gz, comp, Retired(fs0, base, k, gz, comp))
  {
    assert !StartsWith(base, base + ".");
    SegmentGz(base, 1, comp);
    RetiredMoved(fs0, base, k, gz, comp);
    RetiredKept(fs0, base, k, gz, comp);
    RetiredOnly(fs0, base, k, gz, comp);
  }

  /** The last rename of rotateBySize, applied to the walk's result. */
  lemma RetireActive(fs0: Files, base: string, k: nat, gz: set<nat>, comp: bool, shifted: Files)
    requires base in fs0
    requires shifted == Untouched(fs0, base) + Done(fs0, base, k, gz, comp, 0)
    ensures var first := Segment(base, 1, false);
            var moved := Renamed(shifted, base, first);
            ShiftedHistory(fs0, base, k, gz, comp, if comp then Compressed(moved, first) else moved)
  {
    DoneFacts(fs0, base, k, gz, comp, 0);
    var first := Segment(base, 1, false);
    SegmentGz(base, 1, false);
    SegmentGz(base, 1, true);
    SegmentShape(base, 1, false);
    assert !StartsWith(base, base + ".");
    assert base in Untouched(fs0, base);
    assert first !in Untouched(fs0, base);
    assert first !in shifted;
    var e := if comp then fs0[base].(gzipped := true) else fs0[base];
    MoveAndCompress(shifted, base, first, comp, Segment(base, 1, comp), e);
    RetiredShape(fs0, base, k, gz, comp);
  }

  /** One size rotation of a contiguous history of k segments: segment i
      becomes segment i+1 (gzipped when compression is on), the active file
      becomes segment 1, other entries stay, and nothing else appears. */
  lemma SizeRotationShift(fs0: Files, base: string, k: nat, gz: set<nat>, comp: bool, listing: seq<string>)
    requires base in fs0 && k < 65535
    requires History(fs0, base, k, gz) && Lists(listing, fs0, base)
    ensures ShiftedHistory(fs0, base, k, gz, comp, SizeRotation(fs0, base, comp, listing))
  {
    WalkResult(fs0, base, k, gz, comp, listing);
    RetireActive(fs0, base, k, gz, comp, Renumbered(fs0, base, comp, SortDesc(base, listing), (|listing| + 1) % 65536));
  }

  function UpTo(n: nat): (r: set<nat>)
    ensures forall i :: i in r <==> 1 <= i <= n
  {
    if n == 0 then {} else UpTo(n - 1) + {n}
  }

  /** The gzip flags after one rotation: all set with compression on,
      otherwise the old flags moved up by one. */
  function ShiftedFlags(gz: set<nat>, comp: bool, k: nat): set<nat>
  {
    if comp then UpTo(k + 1) else set i | i in gz && 1 <= i :: i + 1
  }

  lemma ShiftedFlagsAt(gz: set<nat>, comp: bool, k: nat, m: nat)
    requires 1 <= m <= k + 1
    ensures m in ShiftedFlags(gz, comp, k) <==> (comp || (m >= 2 && (m - 1) in gz))
  {
    if !comp && m >= 2 && (m - 1) in gz {
      var i: nat := m - 1;
      assert i in gz && 1 <= i;
    }
  }

  lemma ShiftedMatchingInHistory(fs0: Files, base: string, k: nat, gz: set<nat>, comp: bool, r: Files, n: string)
    requires base in fs0 && ShiftedHistory(fs0, base, k, gz, comp, r)
    requires n in r && StartsWith(n, base + ".")
    ensures n in Contiguous(base, k + 1, ShiftedFlags(gz, comp, k))
  {
    var c := Contiguous(base, k + 1, ShiftedFlags(gz, comp, k));
    ShiftedFlagsAt(gz, comp, k, 1);
    if n == Segment(base, 1, comp) {
      assert c[k] == n;
    } else {
      var m := Idx(base, n);
      ShiftedFlagsAt(gz, comp, k, m);
      assert c[k + 1 - m] == n;
    }
  }

  lemma HistoryInShiftedMatching(base: string, k: nat, gz: set<nat>, comp: bool, r: Files, p: nat)
    requires Segment(base, 1, comp) in r
    requires forall i :: 1 <= i <= k ==> Shifted(base, gz, comp, i) in r
    requires p <= k
    ensures var n := Contiguous(base, k + 1, ShiftedFlags(gz, comp, k))[p];
            n in r && StartsWith(n, base + ".")
  {
    var flags := ShiftedFlags(gz, comp, k);
    var n := Contiguous(base, k + 1, flags)[p];
    var m := k + 1 - p;
    assert n == Segment(base, m, m in flags);
    ShiftedFlagsAt(gz, comp, k, m);
    SegmentGz(base, m, m in flags);
    if m >= 2 {
      var i := m - 1;
      assert 1 <= i <= k;
      assert n == Shifted(base, gz, comp, i);
      assert Shifted(base, gz, comp, i) in r;
    } else {
      assert n == Segment(base, 1, comp);
    }
  }

  /** A directory shaped as SizeRotationShift states holds a contiguous
      history of k+1 segments. */
  lemma ShiftedIsHistory(fs0: Files, base: string, k: nat, gz: set<nat>, comp: bool, r: Files)
    requires base in fs0 && ShiftedHistory(fs0, base, k, gz, comp, r)
    ensures History(r, base, k + 1, ShiftedFlags(gz, comp, k))
  {
    var c := Contiguous(base, k + 1, ShiftedFlags(gz, comp, k));
    var want := set x | x in c;
    forall n | n in Matching(r, base) ensures n in want {
      ShiftedMatchingInHistory(fs0, base, k, gz, comp, r, n);
    }
    forall n | n in want ensures n in Matching(r, base) {
      var p :| 0 <= p < |c| && c[p] == n;
      HistoryInShiftedMatching(base, k, gz, comp, r, p);
    }
  }

  /** Size rotation keeps the history contiguous: afterwards the matching
      entries are exactly `<base>.1` ... `<base>.(k+1)`. */
  lemma SizeRotationKeepsHistory(fs0: Files, base: string, k: nat, gz: set<nat>, comp: bool, listing: seq<string>)
    requires base in fs0 && k < 65535
    requires History(fs0, base, k, gz) && Lists(listing, fs0, base)
    ensures History(SizeRotation(fs0, base, comp, listing), base, k + 1, ShiftedFlags(gz, comp, k))
  {
    SizeRotationShift(fs0, base, k, gz, comp, listing);
    ShiftedIsHistory(fs0, base, k, gz, comp, SizeRotation(fs0, base, comp, listing));
  }
}
