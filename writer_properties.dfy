/** Properties of the writer that relate several calls: the pending buffer
    loses nothing across drains, the written text reads back as the batch,
    rotations never lose a file's payload, day rotation settles within a
    day, the timer interval is the distance to 23:59:59, and two
    end-to-end scenarios. */
module WriterProperties {
  import opened Strings
  import opened FileSystem
  import opened Collation
  import opened Calendar
  import opened Writer
  import opened RotationProofs

  // ---------------------------------------------------------------------
  // The pending buffer across enqueues and drains

  /** A call on the buffer: enqueue appends, the swap at the head of a
      writer pass drains. */
  datatype QueueEvent = Push(message: string) | Swap

  datatype QueueState = QueueState(pending: seq<string>, drained: seq<seq<string>>)

  /** The buffer after a sequence of calls, as Enqueue and Drain leave it. */
  function Replay(events: seq<QueueEvent>): QueueState
  {
    if events == [] then QueueState([], [])
    else
      var s := Replay(events[..|events| - 1]);
      match events[|events| - 1]
      case Push(m) => s.(pending := s.pending + [m])
      case Swap => QueueState([], s.drained + [s.pending])
  }

  function Pushed(events: seq<QueueEvent>): seq<string>
  {
    if events == [] then []
    else
      var p := Pushed(events[..|events| - 1]);
      match events[|events| - 1]
      case Push(m) => p + [m]
      case Swap => p
  }

  function Flatten(batches: seq<seq<string>>): seq<string>
  {
    if batches == [] then [] else Flatten(batches[..|batches| - 1]) + batches[|batches| - 1]
  }

  /** The drained batches in drain order, followed by what is still
      pending, are exactly the enqueued messages in enqueue order. */
  lemma {:induction false} ReplayNoLoss(events: seq<QueueEvent>)
    ensures Flatten(Replay(events).drained) + Replay(events).pending == Pushed(events)
  {
    if events != [] {
      var init := events[..|events| - 1];
      ReplayNoLoss(init);
      var s := Replay(init);
      match events[|events| - 1]
      case Push(m) =>
        assert Flatten(s.drained) + (s.pending + [m]) == Flatten(s.drained) + s.pending + [m];
      case Swap =>
        var d := s.drained + [s.pending];
        assert d[..|d| - 1] == s.drained;
        assert Flatten(d) + [] == Flatten(s.drained) + s.pending;
    }
  }

  // ---------------------------------------------------------------------
  // The written text reads back as the batch

  /** Index just after the last '\n' of s, or 0 without one. */
  function LastLineStart(s: string): (k: nat)
    ensures k <= |s|
    ensures s != [] && s[|s| - 1] != '\n' ==> k < |s|
  {
    if s == [] then 0 else if s[|s| - 1] == '\n' then |s| else LastLineStart(s[..|s| - 1])
  }

  /** Splits a file's text at each '\n'; a final line without '\n' is kept. */
  function SplitLines(s: string): seq<string>
    decreases |s|
  {
    if s == [] then []
    else if s[|s| - 1] == '\n' then
      var body := s[..|s| - 1];
      var k := LastLineStart(body);
      SplitLines(body[..k]) + [body[k..]]
    else
      var k := LastLineStart(s);
      SplitLines(s[..k]) + [s[k..]]
  }

  lemma {:induction false} LastLineStartAfter(x: string, m: string)
    requires '\n' !in m
    requires x == [] || x[|x| - 1] == '\n'
    ensures LastLineStart(x + m) == |x|
    decreases |m|
  {
    if m == [] {
      assert x + m == x;
    } else {
      var s := x + m;
      assert s[|s| - 1] == m[|m| - 1];
      assert s[..|s| - 1] == x + m[..|m| - 1];
      LastLineStartAfter(x, m[..|m| - 1]);
    }
  }

  predicate SingleLines(batch: seq<string>)
  {
    forall i :: 0 <= i < |batch| ==> '\n' !in batch[i]
  }

  /** One more line after text that ends at a line break splits off as it was. */
  lemma SplitLinesStep(x: string, m: string)
    requires '\n' !in m
    requires x == [] || x[|x| - 1] == '\n'
    ensures SplitLines(x + m + "\n") == SplitLines(x) + [m]
  {
    var s := x + m + "\n";
    assert s[|s| - 1] == '\n';
    var body := s[..|s| - 1];
    assert body == x + m;
    LastLineStartAfter(x, m);
    assert body[..|x|] == x && body[|x|..] == m;
  }

  lemma LinesEndInBreak(batch: seq<string>)
    ensures Lines(batch) == [] || Lines(batch)[|Lines(batch)| - 1] == '\n'
  {
  }

  /** Messages without line breaks are read back from the written text
      exactly, one per line, in order. */
  lemma {:induction false} LinesRoundTrip(batch: seq<string>)
    requires SingleLines(batch)
    ensures SplitLines(Lines(batch)) == batch
    decreases |batch|
  {
    if batch != [] {
      var init := batch[..|batch| - 1];
      var m := batch[|batch| - 1];
      assert SingleLines(init) by {
        forall i | 0 <= i < |init| ensures '\n' !in init[i] { assert init[i] == batch[i]; }
      }
      LinesRoundTrip(init);
      LinesEndInBreak(init);
      assert Lines(batch) == Lines(init) + m + "\n";
      SplitLinesStep(Lines(init), m);
      assert batch == init + [m];
    }
  }

  /** Writing two batches one after the other writes their concatenation. */
  lemma {:induction false} LinesAppend(a: seq<string>, b: seq<string>)
    ensures Lines(a + b) == Lines(a) + Lines(b)
    decreases |b|
  {
    if b == [] {
      assert a + b == a;
    } else {
      var c := a + b;
      var init := b[..|b| - 1];
      var m := b[|b| - 1];
      assert c[..|c| - 1] == a + init;
      assert c[|c| - 1] == m;
      LinesAppend(a, init);
      var x, y := Lines(a), Lines(init);
      assert Lines(c) == x + y + m + "\n";
      assert Lines(b) == y + m + "\n";
      assert x + y + m + "\n" == x + (y + m + "\n");
    }
  }

  // ---------------------------------------------------------------------
  // Rotations keep every payload

  lemma {:induction false} RenumberedPayloads(fs: Files, base: string, comp: bool, sorted: seq<string>, rotate: nat)
    requires rotate < 65536
    ensures Payloads(Renumbered(fs, base, comp, sorted, rotate)) == Payloads(fs)
    ensures |Renumbered(fs, base, comp, sorted, rotate)| == |fs|
    decreases |sorted|
  {
    if sorted != [] {
      var file := sorted[0];
      var target := Segment(base, rotate, IsGzip(file));
      var moved := Renamed(fs, file, target);
      RenamedPayloads(fs, file, target);
      CompressedPayloads(moved, target);
      var next := if !IsGzip(file) && comp then Compressed(moved, target) else moved;
      RenumberedPayloads(next, base, comp, sorted[1..], Decrement(rotate));
    }
  }

  /** Size rotation only renames and compresses: the multiset of (content, day)
      payloads and the number of files are unchanged. */
  lemma SizeRotationPayloads(fs: Files, base: string, comp: bool, listing: seq<string>)
    ensures Payloads(SizeRotation(fs, base, comp, listing)) == Payloads(fs)
    ensures |SizeRotation(fs, base, comp, listing)| == |fs|
  {
    var shifted := Renumbered(fs, base, comp, SortDesc(base, listing), (|listing| + 1) % 65536);
    RenumberedPayloads(fs, base, comp, SortDesc(base, listing), (|listing| + 1) % 65536);
    var first := Segment(base, 1, false);
    RenamedPayloads(shifted, base, first);
    CompressedPayloads(Renamed(shifted, base, first), first);
  }

  lemma {:induction false} SegmentsDatedPayloads(fs: Files, comp: bool, order: seq<string>)
    ensures Payloads(SegmentsDated(fs, comp, order)) == Payloads(fs)
    ensures |SegmentsDated(fs, comp, order)| == |fs|
    decreases |order|
  {
    if order != [] {
      var file := order[0];
      var target := DatedSegment(fs, file);
      var moved := Renamed(fs, file, target);
      RenamedPayloads(fs, file, target);
      CompressedPayloads(moved, target);
      var next := if !IsGzip(file) && comp then Compressed(moved, target) else moved;
      SegmentsDatedPayloads(next, comp, order[1..]);
    }
  }

  /** Day rotation only renames and compresses, too. */
  lemma DayRotationPayloads(fs: Files, base: string, comp: bool, today: nat, listing: seq<string>)
    ensures Payloads(DayRotation(fs, base, comp, today, listing)) == Payloads(fs)
    ensures |DayRotation(fs, base, comp, today, listing)| == |fs|
  {
    if DayRotationDue(fs, base, today) {
      var target := DatedActive(base, fs[base].day);
      RenamedPayloads(fs, base, target);
      var dated := SegmentsDated(ActiveRetired(fs, base), comp, listing);
      SegmentsDatedPayloads(ActiveRetired(fs, base), comp, listing);
      CompressedPayloads(dated, target);
    }
  }

  // ---------------------------------------------------------------------
  // Day rotation settles within a day

  /** The dated name of the active file, with or without ".gz", is never the
      active file's own name: before its first '.', the active name would
      have to agree with a date text, a '-' and a prefix of its own base
      name, none of which holds a '.'. */
  lemma DatedActiveIsNew(base: string, day: nat)
    ensures DatedActive(base, day) != base
    ensures DatedActive(base, day) + ".gz" != base
  {
    DatedNotBase(base, day, DatedActive(base, day));
    DatedNotBase(base, day, DatedActive(base, day) + ".gz");
  }

  lemma DatedNotBase(base: string, day: nat, t: string)
    requires StartsWith(t, IsoDate(day) + "-" + BaseName(base))
    ensures t != base
  {
    var b := BaseName(base);
    var head := IsoDate(day) + "-" + b;
    IsoDateNoDot(day);
    assert '.' !in head;
    assert t[|b|] == head[|b|];
    assert t[|b|] != '.';
  }

  /** The segment walk never brings back a name shorter than every segment. */
  /** One rename of the walk creates only a name longer than the file's. */
  lemma DatedStepKeepsAbsent(fs: Files, comp: bool, file: string, name: string)
    requires name !in fs && |file| >= |name|
    ensures var target := DatedSegment(fs, file);
            var moved := Renamed(fs, file, target);
            name !in (if !IsGzip(file) && comp then Compressed(moved, target) else moved)
  {
    var target := DatedSegment(fs, file);
    assert |target| > |name|;
    var moved := Renamed(fs, file, target);
    assert name !in moved;
  }

  lemma {:induction false} SegmentsDatedKeepsAbsent(fs: Files, comp: bool, order: seq<string>, name: string)
    requires name !in fs
    requires forall x :: x in order ==> |x| >= |name|
    ensures name !in SegmentsDated(fs, comp, order)
    decreases |order|
  {
    if order != [] {
      var file := order[0];
      assert file in order;
      var target := DatedSegment(fs, file);
      var moved := Renamed(fs, file, target);
      var next := if !IsGzip(file) && comp then Compressed(moved, target) else moved;
      DatedStepKeepsAbsent(fs, comp, file, name);
      forall x | x in order[1..] ensures |x| >= |name| { assert x in order; }
      SegmentsDatedKeepsAbsent(next, comp, order[1..], name);
    }
  }

  /** When a due day rotation can retire the active file, it does, and the
      check is not due again on the same day. */
  lemma DayRotationSettles(fs: Files, base: string, comp: bool, today: nat, listing: seq<string>)
    requires DayRotationDue(fs, base, today) ==>
             DatedActive(base, fs[base].day) !in fs && Lists(listing, ActiveRetired(fs, base), base)
    ensures DayRotationDue(fs, base, today) ==> base !in DayRotation(fs, base, comp, today, listing)
    ensures !DayRotationDue(DayRotation(fs, base, comp, today, listing), base, today)
  {
    if DayRotationDue(fs, base, today) {
      var target := DatedActive(base, fs[base].day);
      DatedActiveIsNew(base, fs[base].day);
      var retired := ActiveRetired(fs, base);
      assert base !in retired;
      var listed := set y | y in listing;
      forall x | x in listing ensures |x| >= |base| {
        assert x in listed;
        assert x in Matching(retired, base);
      }
      SegmentsDatedKeepsAbsent(retired, comp, listing, base);
    }
  }

  /** Running the day-rotation check a second time on the same day renames
      nothing. */
  lemma DayRotationIdempotent(fs: Files, base: string, comp: bool, today: nat, l1: seq<string>, l2: seq<string>)
    requires DayRotationDue(fs, base, today) ==>
             DatedActive(base, fs[base].day) !in fs && Lists(l1, ActiveRetired(fs, base), base)
    ensures var once := DayRotation(fs, base, comp, today, l1);
            DayRotation(once, base, comp, today, l2) == once
  {
    DayRotationSettles(fs, base, comp, today, l1);
  }

  // ---------------------------------------------------------------------
  // The timer interval

  /** The seconds comparison of rotateByDay always picks the non-negative
      difference, so the stored interval is the distance between now and
      23:59:59 of today (modulo 2^32); within today it is below one day. */
  lemma IntervalIsDistance(today: nat, nowMs: nat)
    ensures var m := Midnight(today);
            IntervalMs(today, nowMs) == (if m >= nowMs then m - nowMs else nowMs - m) % 0x1_0000_0000
    ensures today * MsPerDay <= nowMs < (today + 1) * MsPerDay ==>
            var m := Midnight(today);
            IntervalMs(today, nowMs) == (if m >= nowMs then m - nowMs else nowMs - m)
            && IntervalMs(today, nowMs) < MsPerDay
  {
    var m := Midnight(today);
    var q := today * 86400 + 86399;
    assert m == 1000 * q;
    assert m / 1000 == q;
    var s := nowMs / 1000;
    assert nowMs == 1000 * s + nowMs % 1000;
    if q > s {
      assert nowMs < m;
    } else {
      assert nowMs >= m;
    }
  }

  // ---------------------------------------------------------------------
  // Scenarios

  lemma PlainSegmentName(base: string, n: nat)
    ensures Segment(base, n, false) == base + ("." + NatToString(n))
  {
  }

  /** One segment of a rotated history, taken out of SizeRotationShift. */
  lemma ShiftedSegment(fs0: Files, base: string, k: nat, gz: set<nat>, comp: bool, listing: seq<string>, i: nat)
    requires base in fs0 && k < 65535 && 1 <= i <= k
    requires History(fs0, base, k, gz) && Lists(listing, fs0, base)
    ensures var r := SizeRotation(fs0, base, comp, listing);
            Old(base, gz, i) in fs0
            && Shifted(base, gz, comp, i) in r && r[Shifted(base, gz, comp, i)] == ShiftedEntry(fs0, base, gz, comp, i)
  {
    SizeRotationShift(fs0, base, k, gz, comp, listing);
    SegmentPresent(fs0, base, k, gz, i);
  }

  /** Twelve uncompressed segments and compression off: `<base>.10` becomes
      `<base>.11` and `<base>.12` becomes `<base>.13`, in numeric order. */
  lemma TwelveSegments(fs0: Files, base: string, listing: seq<string>)
    requires base in fs0
    requires History(fs0, base, 12, {}) && Lists(listing, fs0, base)
    ensures var r := SizeRotation(fs0, base, false, listing);
      && base + ".10" in fs0 && base + ".11" in r && r[base + ".11"] == fs0[base + ".10"]
      && base + ".12" in fs0 && base + ".13" in r && r[base + ".13"] == fs0[base + ".12"]
  {
    ShiftedSegment(fs0, base, 12, {}, false, listing, 10);
    ShiftedSegment(fs0, base, 12, {}, false, listing, 12);
    assert NatToString(10) == "10" && NatToString(11) == "11";
    assert NatToString(12) == "12" && NatToString(13) == "13";
    PlainSegmentName(base, 10);
    PlainSegmentName(base, 11);
    PlainSegmentName(base, 12);
    PlainSegmentName(base, 13);
    assert "." + "10" == ".10" && "." + "11" == ".11" && "." + "12" == ".12" && "." + "13" == ".13";
  }

  /** Threshold one million bytes, compression and day rotation off, two
      flushes where the first reaches the threshold and the second does
      not: `<base>.1` holds the first batch and the active file only the
      second. */
  lemma TwoFlushCycles(fs0: Files, base: string, b1: seq<string>, b2: seq<string>, day1: nat, day2: nat)
    requires Matching(fs0, base) == {}
    requires SizeRotationDue(1, |Lines(b1)|) && !SizeRotationDue(1, |Lines(b2)|)
    ensures SizeRotationDue(1, Size(Appended(fs0, base, Lines(b1), day1)[base]))
    ensures var w1 := Appended(fs0, base, Lines(b1), day1);
            var base0 := if base in fs0 then fs0[base].content else "";
            var r1 := SizeRotation(w1, base, false, []);
            var w2 := Appended(r1, base, Lines(b2), day2);
            && base + ".1" in w2 && w2[base + ".1"].content == base0 + Lines(b1)
            && w2[base].content == Lines(b2)
            && !SizeRotationDue(1, Size(w2[base]))
  {
    var w1 := Appended(fs0, base, Lines(b1), day1);
    assert !StartsWith(base, base + ".");
    assert Matching(w1, base) == {};
    assert History(w1, base, 0, {});
    assert Lists([], w1, base);
    SizeRotationShift(w1, base, 0, {}, false, []);
    assert NatToString(1) == "1";
    PlainSegmentName(base, 1);
    assert "." + "1" == ".1";
  }

  /** An active file last written yesterday, no segments, compression off:
      the check renames it to `<yesterday>-<baseName>.log`, and the next
      write starts a fresh active file. */
  lemma YesterdayRetired(fs: Files, base: string, today: nat, text: string)
    requires base in fs && fs[base].day + 1 == today
    requires DatedActive(base, fs[base].day) !in fs
    requires Matching(ActiveRetired(fs, base), base) == {}
    ensures var r := DayRotation(fs, base, false, today, []);
            var dated := IsoDate(today - 1) + "-" + BaseName(base) + ".log";
            && base !in r && dated in r && r[dated] == fs[base]
            && Appended(r, base, text, today)[base] == File(text, today, false)
  {
    DatedActiveIsNew(base, fs[base].day);
  }
}
