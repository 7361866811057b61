/** What day rotation does to the directory, file by file: when none of the
    dated names it creates is taken, the active file `<base>` turns into
    `<date>-<baseName>.log` (gzipped when compression is on), every segment
    `<base>.*` turns into `<its date>-<its name>` (gzipped when compression
    is on and its name does not end in ".gz"), and every other entry stays
    as it was.  The proof follows the segment walk one rename at a time. */
module DayRotationProofs {
  import opened Strings
  import opened FileSystem
  import opened Collation
  import opened Calendar
  import opened Writer
  import opened RotationProofs
  import opened WriterProperties

  /** The walk compresses a segment after its rename. */
  predicate Zipped(comp: bool, x: string) { !IsGzip(x) && comp }

  /** Where segment x ends up. */
  function FinalName(fs: Files, comp: bool, x: string): string
  {
    if Zipped(comp, x) then DatedSegment(fs, x) + ".gz" else DatedSegment(fs, x)
  }

  /** What segment x holds after the walk. */
  function FinalEntry(fs: Files, comp: bool, x: string): File
    requires x in fs
  {
    if Zipped(comp, x) then fs[x].(gzipped := true) else fs[x]
  }

  /** The names the walk creates for segment x. */
  function DatedNames(fs: Files, comp: bool, x: string): set<string>
  {
    {DatedSegment(fs, x)} + (if Zipped(comp, x) then {DatedSegment(fs, x) + ".gz"} else {})
  }

  /** The final names of the segments in `order`. */
  function FinalNames(fs: Files, comp: bool, order: seq<string>): set<string>
  {
    set x | x in order && x in fs :: FinalName(fs, comp, x)
  }

  /** Every segment of the walk is present once, and the names it creates are
      free and belong to it alone. */
  predicate WalkFresh(fs: Files, comp: bool, order: seq<string>)
  {
    && Distinct(order)
    && (forall x :: x in order ==> x in fs && DatedNames(fs, comp, x) !! fs.Keys)
    && (forall x, y :: x in order && y in order && x != y ==> DatedNames(fs, comp, x) !! DatedNames(fs, comp, y))
  }

  /** One rename of the walk, with the compression that follows it. */
  function DatedStep(fs: Files, comp: bool, file: string): Files
  {
    var target := DatedSegment(fs, file);
    var moved := Renamed(fs, file, target);
    if Zipped(comp, file) then Compressed(moved, target) else moved
  }

  lemma WalkUnfold(fs: Files, comp: bool, order: seq<string>)
    requires order != []
    ensures SegmentsDated(fs, comp, order) == SegmentsDated(DatedStep(fs, comp, order[0]), comp, order[1..])
  {
  }

  /** A name glued after a '-' keeps its ending, so it gains no gzip
      suffix. */
  lemma GluedNotGz(p: string, x: string)
    requires |p| > 0 && p[|p| - 1] == '-' && !EndsWith(x, ".gz")
    ensures !EndsWith(p + x, ".gz")
  {
    var t := p + x;
    if |x| >= 3 {
      assert t[|t| - 3..] == x[|x| - 3..];
    } else if |t| >= 3 {
      assert t[|t| - 3..][2 - |x|] == t[|p| - 1];
    }
  }

  lemma DatedNameNotGz(fs: Files, x: string)
    requires !IsGzip(x)
    ensures !HasGzSuffix(DatedSegment(fs, x))
  {
    var p := (if x in fs then IsoDate(fs[x].day) else "") + "-";
    assert DatedSegment(fs, x) == p + x;
    GluedNotGz(p, x);
  }

  /** A step whose created names are free removes the segment and adds its
      final name, and nothing else. */
  lemma StepShape(fs: Files, comp: bool, x: string)
    requires x in fs && DatedNames(fs, comp, x) !! fs.Keys
    ensures DatedStep(fs, comp, x) == (fs - {x})[FinalName(fs, comp, x) := FinalEntry(fs, comp, x)]
  {
    var target := DatedSegment(fs, x);
    assert target in DatedNames(fs, comp, x);
    if Zipped(comp, x) {
      DatedNameNotGz(fs, x);
      assert target + ".gz" in DatedNames(fs, comp, x);
    }
    MoveAndCompress(fs, x, target, Zipped(comp, x), FinalName(fs, comp, x), FinalEntry(fs, comp, x));
  }

  /** The tail of a list without repeats has none, and lacks the head. */
  lemma DistinctTail(order: seq<string>)
    requires Distinct(order) && order != []
    ensures Distinct(order[1..]) && order[0] !in order[1..]
    ensures forall y :: y in order[1..] ==> y in order && y != order[0]
  {
    var rest := order[1..];
    forall i, j | 0 <= i < j < |rest| ensures rest[i] != rest[j] {
      assert rest[i] == order[i + 1] && rest[j] == order[j + 1];
    }
    forall y | y in rest ensures y in order && y != order[0] {
      var k :| 0 <= k < |rest| && rest[k] == y;
      assert order[k + 1] == y;
    }
  }

  /** A step leaves every other present entry, and the names it would
      create, as they were. */
  lemma StepKeepsOther(fs: Files, comp: bool, x: string, next: Files, y: string)
    requires x in fs && DatedNames(fs, comp, x) !! fs.Keys
    requires next == (fs - {x})[FinalName(fs, comp, x) := FinalEntry(fs, comp, x)]
    requires y in fs && y != x
    ensures y in next && next[y] == fs[y]
    ensures DatedNames(next, comp, y) == DatedNames(fs, comp, y)
  {
    assert FinalName(fs, comp, x) in DatedNames(fs, comp, x);
    assert y != FinalName(fs, comp, x);
  }

  lemma StepKeys(fs: Files, comp: bool, x: string, next: Files)
    requires x in fs
    requires next == (fs - {x})[FinalName(fs, comp, x) := FinalEntry(fs, comp, x)]
    ensures next.Keys == fs.Keys - {x} + {FinalName(fs, comp, x)}
  {
  }

  /** After one step the rest of the walk is still fresh, over unchanged
      segments. */
  lemma WalkFreshRest(fs: Files, comp: bool, order: seq<string>)
    requires WalkFresh(fs, comp, order) && order != []
    ensures var next := DatedStep(fs, comp, order[0]);
            && WalkFresh(next, comp, order[1..])
            && forall y :: y in order[1..] ==> y in next && next[y] == fs[y]
  {
    var x := order[0];
    assert x in order;
    StepShape(fs, comp, x);
    var next := DatedStep(fs, comp, x);
    var rest := order[1..];
    DistinctTail(order);
    StepKeys(fs, comp, x, next);
    forall y | y in rest
      ensures y in next && next[y] == fs[y] && DatedNames(next, comp, y) == DatedNames(fs, comp, y)
      ensures DatedNames(next, comp, y) !! next.Keys
    {
      StepKeepsOther(fs, comp, x, next, y);
    }
    forall y, z | y in rest && z in rest && y != z
      ensures DatedNames(next, comp, y) !! DatedNames(next, comp, z)
    {
      assert DatedNames(fs, comp, y) !! DatedNames(fs, comp, z);
    }
  }

  /** A segment that was not taken in this step keeps what it had. */
  lemma FinalNamesAfterStep(fs: Files, comp: bool, order: seq<string>)
    requires WalkFresh(fs, comp, order) && order != []
    ensures FinalNames(DatedStep(fs, comp, order[0]), comp, order[1..]) <= FinalNames(fs, comp, order)
  {
    WalkFreshRest(fs, comp, order);
    var next := DatedStep(fs, comp, order[0]);
    forall n | n in FinalNames(next, comp, order[1..]) ensures n in FinalNames(fs, comp, order) {
      var y :| y in order[1..] && y in next && n == FinalName(next, comp, y);
      assert y in order;
      assert next[y] == fs[y];
      assert n == FinalName(fs, comp, y);
    }
  }

  /** Every segment of `order` has left its name for its final name, with
      its final entry. */
  predicate Moved(fs: Files, comp: bool, order: seq<string>, r: Files)
  {
    forall x :: x in order && x in fs ==>
      x !in r && FinalName(fs, comp, x) in r && r[FinalName(fs, comp, x)] == FinalEntry(fs, comp, x)
  }

  /** Every entry outside `order` is where it was, as it was. */
  predicate Kept(fs: Files, order: seq<string>, r: Files)
  {
    forall n :: n in fs && n !in order ==> n in r && r[n] == fs[n]
  }

  /** Every name of r is an untouched entry or the final name of a segment. */
  predicate NoOther(fs: Files, comp: bool, order: seq<string>, r: Files)
  {
    forall n :: n in r ==> (n in fs && n !in order) || n in FinalNames(fs, comp, order)
  }

  /** The head of the walk has gone to its final name, and nothing later
      brings its old name back. */
  lemma MovedHead(fs: Files, comp: bool, order: seq<string>, r: Files)
    requires WalkFresh(fs, comp, order) && order != []
    requires var next := DatedStep(fs, comp, order[0]);
             Kept(next, order[1..], r) && NoOther(next, comp, order[1..], r)
    ensures var x := order[0];
            x !in r && FinalName(fs, comp, x) in r && r[FinalName(fs, comp, x)] == FinalEntry(fs, comp, x)
  {
    var x := order[0];
    assert x in order;
    StepShape(fs, comp, x);
    WalkFreshRest(fs, comp, order);
    var next := DatedStep(fs, comp, x);
    var fx := FinalName(fs, comp, x);
    assert fx in DatedNames(fs, comp, x);
    assert fx !in order[1..] by {
      forall y | y in order[1..] ensures y != fx { assert y in order; }
    }
    assert x !in FinalNames(next, comp, order[1..]) by {
      forall y | y in order[1..] && y in next ensures FinalName(next, comp, y) != x {
        assert y in order && next[y] == fs[y];
        assert FinalName(fs, comp, y) in DatedNames(fs, comp, y);
      }
    }
  }

  lemma MovedStep(fs: Files, comp: bool, order: seq<string>, r: Files)
    requires WalkFresh(fs, comp, order) && order != []
    requires var next := DatedStep(fs, comp, order[0]);
             Moved(next, comp, order[1..], r) && Kept(next, order[1..], r) && NoOther(next, comp, order[1..], r)
    ensures Moved(fs, comp, order, r)
  {
    MovedHead(fs, comp, order, r);
    WalkFreshRest(fs, comp, order);
    var next := DatedStep(fs, comp, order[0]);
    forall y | y in order && y in fs && y != order[0]
      ensures y !in r && FinalName(fs, comp, y) in r && r[FinalName(fs, comp, y)] == FinalEntry(fs, comp, y)
    {
      var k :| 0 <= k < |order| && order[k] == y;
      assert order[1..][k - 1] == y;
      assert next[y] == fs[y];
    }
  }

  lemma KeptStep(fs: Files, comp: bool, order: seq<string>, r: Files)
    requires WalkFresh(fs, comp, order) && order != []
    requires Kept(DatedStep(fs, comp, order[0]), order[1..], r)
    ensures Kept(fs, order, r)
  {
    var x := order[0];
    assert x in order;
    StepShape(fs, comp, x);
    DistinctTail(order);
    assert FinalName(fs, comp, x) in DatedNames(fs, comp, x);
    forall n | n in fs && n !in order ensures n in r && r[n] == fs[n]
    {
      assert n !in order[1..];
    }
  }

  lemma NoOtherStep(fs: Files, comp: bool, order: seq<string>, r: Files)
    requires WalkFresh(fs, comp, order) && order != []
    requires NoOther(DatedStep(fs, comp, order[0]), comp, order[1..], r)
    ensures NoOther(fs, comp, order, r)
  {
    var x := order[0];
    assert x in order;
    StepShape(fs, comp, x);
    FinalNamesAfterStep(fs, comp, order);
    DistinctTail(order);
    var next := DatedStep(fs, comp, x);
    var fx := FinalName(fs, comp, x);
    assert fx in FinalNames(fs, comp, order);
    forall n | n in r ensures (n in fs && n !in order) || n in FinalNames(fs, comp, order)
    {
      if n in next && n !in order[1..] && n != fx {
        assert n in fs && n != x;
      }
    }
  }

  /** The whole walk: every segment moves to its final name with its entry,
      every other entry stays, and no other name appears. */
  lemma {:induction false} SegmentsDatedShape(fs: Files, comp: bool, order: seq<string>)
    requires WalkFresh(fs, comp, order)
    ensures var r := SegmentsDated(fs, comp, order);
            Moved(fs, comp, order, r) && Kept(fs, order, r) && NoOther(fs, comp, order, r)
    decreases |order|
  {
    if order != [] {
      var next := DatedStep(fs, comp, order[0]);
      WalkUnfold(fs, comp, order);
      WalkFreshRest(fs, comp, order);
      SegmentsDatedShape(next, comp, order[1..]);
      var r := SegmentsDated(fs, comp, order);
      MovedStep(fs, comp, order, r);
      KeptStep(fs, comp, order, r);
      NoOtherStep(fs, comp, order, r);
    }
  }

  // ---------------------------------------------------------------------
  // The whole day rotation

  /** The names the active file may take: its dated name, and that name with
      ".gz" when compression is on. */
  function ActiveNames(base: string, day: nat, comp: bool): set<string>
  {
    var da := DatedActive(base, day);
    {da} + (if comp then {da + ".gz"} else {})
  }

  /** Where the dated segments go. */
  function SegmentNames(fs: Files, comp: bool, base: string): set<string>
  {
    set x | x in Matching(fs, base) :: FinalName(fs, comp, x)
  }

  /** None of the names a due day rotation creates is taken, and no two
      files of the rotation are given the same one. */
  predicate DayNamesFresh(fs: Files, base: string, comp: bool)
    requires base in fs
  {
    var active := ActiveNames(base, fs[base].day, comp);
    && active !! fs.Keys
    && (forall x :: x in Matching(fs, base) ==> DatedNames(fs, comp, x) !! fs.Keys + active)
    && (forall x, y :: x in Matching(fs, base) && y in Matching(fs, base) && x != y ==>
          DatedNames(fs, comp, x) !! DatedNames(fs, comp, y))
  }

  /** `<date>-<baseName>.log` ends in ".log". */
  lemma DatedActiveNotGz(base: string, day: nat)
    ensures !HasGzSuffix(DatedActive(base, day))
  {
    var t := DatedActive(base, day);
    assert t[|t| - 3..] == "log";
  }

  /** A name that starts with the date text, a '-' and the base name does
      not match the filter `<base>.*`: its first '.' comes later than in
      `<base>.`. */
  lemma DatedNotSegment(base: string, day: nat, t: string)
    requires StartsWith(t, IsoDate(day) + "-" + BaseName(base))
    ensures !StartsWith(t, base + ".")
  {
    var b := BaseName(base);
    var head := IsoDate(day) + "-" + b;
    IsoDateNoDot(day);
    assert '.' !in head;
    assert t[|b|] == head[|b|];
    assert (base + ".")[|b|] == '.';
  }

  lemma DatedActiveNotSegment(base: string, day: nat)
    ensures !StartsWith(DatedActive(base, day), base + ".")
    ensures !StartsWith(DatedActive(base, day) + ".gz", base + ".")
  {
    DatedNotSegment(base, day, DatedActive(base, day));
    DatedNotSegment(base, day, DatedActive(base, day) + ".gz");
  }

  /** The first rename of a due rotation moves the active file alone, and
      leaves the segments as they were. */
  lemma RetiredShape(fs: Files, base: string)
    requires base in fs && DatedActive(base, fs[base].day) !in fs
    ensures var da := DatedActive(base, fs[base].day);
            var retired := ActiveRetired(fs, base);
            && retired == (fs - {base})[da := fs[base]]
            && Matching(retired, base) == Matching(fs, base)
            && base !in Matching(fs, base) && da !in Matching(fs, base)
            && forall x :: x in Matching(fs, base) ==> x in retired && retired[x] == fs[x]
  {
    var da := DatedActive(base, fs[base].day);
    DatedActiveNotSegment(base, fs[base].day);
    var retired := ActiveRetired(fs, base);
    assert retired == (fs - {base})[da := fs[base]];
    assert !StartsWith(base, base + ".");
    assert retired.Keys == fs.Keys - {base} + {da};
  }

  /** Over the retired directory the walk is fresh, and each segment's names
      and entry are those of the original directory. */
  lemma RetiredWalkFresh(fs: Files, base: string, comp: bool, listing: seq<string>)
    requires base in fs && DayNamesFresh(fs, base, comp)
    requires Lists(listing, ActiveRetired(fs, base), base)
    ensures var retired := ActiveRetired(fs, base);
            && WalkFresh(retired, comp, listing)
            && (forall x :: x in listing <==> x in Matching(fs, base))
            && forall x :: x in Matching(fs, base) ==>
                 && DatedNames(retired, comp, x) == DatedNames(fs, comp, x)
                 && FinalName(retired, comp, x) == FinalName(fs, comp, x)
                 && FinalEntry(retired, comp, x) == FinalEntry(fs, comp, x)
  {
    var da := DatedActive(base, fs[base].day);
    assert da in ActiveNames(base, fs[base].day, comp);
    RetiredShape(fs, base);
    var retired := ActiveRetired(fs, base);
    assert retired.Keys == fs.Keys - {base} + {da};
    forall x ensures x in listing <==> x in Matching(fs, base) {
      assert x in listing <==> x in (set y | y in listing);
    }
    forall x | x in listing ensures x in retired && DatedNames(retired, comp, x) !! retired.Keys {
      assert x in Matching(fs, base);
    }
  }

  /** The walk's outcome over the retired directory, as SegmentsDatedShape
      gives it. */
  predicate WalkDone(fs: Files, base: string, comp: bool, listing: seq<string>, dated: Files)
    requires base in fs
  {
    var retired := ActiveRetired(fs, base);
    Moved(retired, comp, listing, dated) && Kept(retired, listing, dated) && NoOther(retired, comp, listing, dated)
  }

  /** The conditions under which the walk of a due rotation is fresh. */
  predicate DueFresh(fs: Files, base: string, comp: bool, listing: seq<string>)
  {
    base in fs && DayNamesFresh(fs, base, comp) && Lists(listing, ActiveRetired(fs, base), base)
  }

  lemma DatedActivePart(fs: Files, base: string, comp: bool, listing: seq<string>, dated: Files)
    requires DueFresh(fs, base, comp, listing) && WalkDone(fs, base, comp, listing, dated)
    ensures var da := DatedActive(base, fs[base].day);
            base !in dated && da in dated && dated[da] == fs[base] && (comp ==> da + ".gz" !in dated)
  {
    var da := DatedActive(base, fs[base].day);
    var retired := ActiveRetired(fs, base);
    RetiredShape(fs, base);
    RetiredWalkFresh(fs, base, comp, listing);
    assert da in ActiveNames(base, fs[base].day, comp);
    DatedActiveIsNew(base, fs[base].day);
    forall x | x in listing && x in retired
      ensures FinalName(retired, comp, x) != base && (comp ==> FinalName(retired, comp, x) != da + ".gz")
    {
      assert x in Matching(fs, base);
      assert FinalName(fs, comp, x) in DatedNames(fs, comp, x);
      if comp {
        assert da + ".gz" in ActiveNames(base, fs[base].day, comp);
      }
    }
    assert base !in FinalNames(retired, comp, listing);
    assert comp ==> da + ".gz" !in FinalNames(retired, comp, listing);
  }

  lemma DatedSegmentsPart(fs: Files, base: string, comp: bool, listing: seq<string>, dated: Files)
    requires DueFresh(fs, base, comp, listing) && WalkDone(fs, base, comp, listing, dated)
    ensures forall x :: x in Matching(fs, base) ==>
              x !in dated && FinalName(fs, comp, x) in dated && dated[FinalName(fs, comp, x)] == FinalEntry(fs, comp, x)
  {
    RetiredShape(fs, base);
    RetiredWalkFresh(fs, base, comp, listing);
  }

  lemma DatedOthersPart(fs: Files, base: string, comp: bool, listing: seq<string>, dated: Files)
    requires DueFresh(fs, base, comp, listing) && WalkDone(fs, base, comp, listing, dated)
    ensures forall n :: n in fs && n != base && n !in Matching(fs, base) ==> n in dated && dated[n] == fs[n]
  {
    var da := DatedActive(base, fs[base].day);
    RetiredShape(fs, base);
    RetiredWalkFresh(fs, base, comp, listing);
    assert da in ActiveNames(base, fs[base].day, comp);
  }

  lemma DatedNoOtherPart(fs: Files, base: string, comp: bool, listing: seq<string>, dated: Files)
    requires DueFresh(fs, base, comp, listing) && WalkDone(fs, base, comp, listing, dated)
    ensures forall n :: n in dated ==>
              n == DatedActive(base, fs[base].day) || (n in fs && n != base && n !in Matching(fs, base))
              || n in SegmentNames(fs, comp, base)
  {
    var retired := ActiveRetired(fs, base);
    RetiredShape(fs, base);
    RetiredWalkFresh(fs, base, comp, listing);
    forall n | n in dated
      ensures n == DatedActive(base, fs[base].day) || (n in fs && n != base && n !in Matching(fs, base))
              || n in SegmentNames(fs, comp, base)
    {
      if n in FinalNames(retired, comp, listing) {
        var x :| x in listing && x in retired && n == FinalName(retired, comp, x);
        assert x in Matching(fs, base);
      }
    }
  }

  /** What the walk leaves behind in a due rotation. */
  lemma DatedShape(fs: Files, base: string, comp: bool, listing: seq<string>)
    requires DueFresh(fs, base, comp, listing)
    ensures var da := DatedActive(base, fs[base].day);
            var dated := SegmentsDated(ActiveRetired(fs, base), comp, listing);
            && base !in dated && da in dated && dated[da] == fs[base] && (comp ==> da + ".gz" !in dated)
            && (forall x :: x in Matching(fs, base) ==>
                  x !in dated && FinalName(fs, comp, x) in dated && dated[FinalName(fs, comp, x)] == FinalEntry(fs, comp, x))
            && (forall n :: n in fs && n != base && n !in Matching(fs, base) ==> n in dated && dated[n] == fs[n])
            && (forall n :: n in dated ==> n == da || (n in fs && n != base && n !in Matching(fs, base)) || n in SegmentNames(fs, comp, base))
  {
    RetiredWalkFresh(fs, base, comp, listing);
    SegmentsDatedShape(ActiveRetired(fs, base), comp, listing);
    var dated := SegmentsDated(ActiveRetired(fs, base), comp, listing);
    DatedActivePart(fs, base, comp, listing, dated);
    DatedSegmentsPart(fs, base, comp, listing, dated);
    DatedOthersPart(fs, base, comp, listing, dated);
    DatedNoOtherPart(fs, base, comp, listing, dated);
  }

  /** Day rotation file by file: the active file becomes
      `<date>-<baseName>.log`, compressed when compression is on; every
      segment `<base>.*` becomes `<its date>-<its name>`, compressed when
      compression is on and its name is not gzipped; every other entry stays;
      no other name appears.  When no rotation is due nothing changes. */
  lemma DayRotationShape(fs: Files, base: string, comp: bool, today: nat, listing: seq<string>)
    requires DayRotationDue(fs, base, today) ==>
             DayNamesFresh(fs, base, comp) && Lists(listing, ActiveRetired(fs, base), base)
    ensures !DayRotationDue(fs, base, today) ==> DayRotation(fs, base, comp, today, listing) == fs
    ensures DayRotationDue(fs, base, today) ==>
            var r := DayRotation(fs, base, comp, today, listing);
            var da := DatedActive(base, fs[base].day);
            var fa := if comp then da + ".gz" else da;
            && base !in r && (comp ==> da !in r)
            && fa in r && r[fa] == (if comp then fs[base].(gzipped := true) else fs[base])
            && (forall x :: x in Matching(fs, base) ==>
                  x !in r && FinalName(fs, comp, x) in r && r[FinalName(fs, comp, x)] == FinalEntry(fs, comp, x))
            && (forall n :: n in fs && n != base && n !in Matching(fs, base) ==> n in r && r[n] == fs[n])
            && (forall n :: n in r ==> n == fa || (n in fs && n != base && n !in Matching(fs, base)) || n in SegmentNames(fs, comp, base))
  {
    if DayRotationDue(fs, base, today) {
      var da := DatedActive(base, fs[base].day);
      DatedShape(fs, base, comp, listing);
      DatedActiveNotGz(base, fs[base].day);
      if comp {
        var dated := SegmentsDated(ActiveRetired(fs, base), comp, listing);
        var r := DayRotation(fs, base, comp, today, listing);
        assert r == (dated - {da})[da + ".gz" := fs[base].(gzipped := true)];
        forall x | x in Matching(fs, base) ensures FinalName(fs, comp, x) != da + ".gz" && FinalName(fs, comp, x) != da {
          assert FinalName(fs, comp, x) in DatedNames(fs, comp, x);
          assert da in ActiveNames(base, fs[base].day, comp);
          assert da + ".gz" in ActiveNames(base, fs[base].day, comp);
        }
      }
    }
  }

  // ---------------------------------------------------------------------
  // A dated name that is already taken

  /** When `<date>-<baseName>.log` already exists, the first rename of a due
      rotation fails and the active file stays, yet the compression step
      still gzips the file that held the dated name.  The next check on the
      same day is therefore due again and retires the active file under the
      name that has just been freed: day rotation is not idempotent here. */
  lemma StaleDatedActive(fs: Files, base: string, today: nat)
    requires DayRotationDue(fs, base, today)
    requires DatedActive(base, fs[base].day) in fs && DatedActive(base, fs[base].day) + ".gz" !in fs
    requires Matching(fs, base) == {}
    ensures Lists([], ActiveRetired(fs, base), base)
    ensures var da := DatedActive(base, fs[base].day);
            var once := DayRotation(fs, base, true, today, []);
            && once == (fs - {da})[da + ".gz" := fs[da].(gzipped := true)]
            && DayRotationDue(once, base, today) && once[base] == fs[base]
            && Lists([], ActiveRetired(once, base), base)
            && var twice := DayRotation(once, base, true, today, []);
               base !in twice && twice != once
  {
    var da := DatedActive(base, fs[base].day);
    DatedActiveIsNew(base, fs[base].day);
    DatedActiveNotGz(base, fs[base].day);
    DatedActiveNotSegment(base, fs[base].day);
    assert ActiveRetired(fs, base) == fs;
    var once := DayRotation(fs, base, true, today, []);
    assert once == (fs - {da})[da + ".gz" := fs[da].(gzipped := true)];
    var retired := ActiveRetired(once, base);
    assert retired == (once - {base})[da := fs[base]];
    assert Matching(retired, base) == {} by {
      forall k | k in retired ensures !StartsWith(k, base + ".") {
        if k != da && k != da + ".gz" {
          assert k !in Matching(fs, base);
        }
      }
    }
    assert DayRotation(once, base, true, today, []) == retired;
  }

  /** A directory that shows it: `x.log` written on day 3 next to a stale
      `1970-01-04-x.log` from the same day, checked on day 5 with
      compression on. */
  lemma StaleDatedActiveExample()
    ensures var fs := map["x.log" := File("a", 3, false), DatedActive("x.log", 3) := File("b", 3, false)];
            var once := DayRotation(fs, "x.log", true, 5, []);
            Lists([], ActiveRetired(fs, "x.log"), "x.log") && DayRotation(once, "x.log", true, 5, []) != once
  {
    var fs := map["x.log" := File("a", 3, false), DatedActive("x.log", 3) := File("b", 3, false)];
    DatedActiveIsNew("x.log", 3);
    DatedActiveNotSegment("x.log", 3);
    assert fs["x.log"].day == 3;
    assert Matching(fs, "x.log") == {} by {
      forall k | k in fs ensures !StartsWith(k, "x.log.") {
        if k != "x.log" {
          assert k == DatedActive("x.log", 3);
        }
      }
    }
    StaleDatedActive(fs, "x.log", 5);
  }
}
