/** The writer and rotation engine: the pending-message buffer, one pass of
    the writer loop, size rotation with renumbering and day rotation with
    dated names.  The clock, the outcome of opening the active file and the
    directory listing are parameters; the log directory is a Disk. */
module Writer {
  import opened Strings
  import opened FileSystem
  import opened Collation
  import opened Calendar

  /** QFileInfo::fileName: the part of a path after its last '/'. */
  function FileName(path: string): (r: string)
    ensures |r| <= |path| && '/' !in r
  {
    if path == [] || path[|path| - 1] == '/' then []
    else FileName(path[..|path| - 1]) + [path[|path| - 1]]
  }

  /** The file name is the tail of the path after its last '/'. */
  lemma {:induction false} FileNameIsLastPart(path: string)
    ensures EndsWith(path, FileName(path))
    ensures |FileName(path)| < |path| ==> path[|path| - |FileName(path)| - 1] == '/'
  {
    if path != [] && path[|path| - 1] != '/' {
      var init := path[..|path| - 1];
      FileNameIsLastPart(init);
      var q := FileName(init);
      var r := FileName(path);
      assert r == q + [path[|path| - 1]];
      var j := |init| - |q|;
      assert init[j..] == q;
      assert path == init + [path[|path| - 1]];
      assert path[j..] == init[j..] + [path[|path| - 1]];
      assert |path| - |r| == j;
    }
  }

  /** QFileInfo::baseName: a file name up to its first '.'. */
  function BaseName(name: string): (r: string)
    ensures |r| <= |name| && r == name[..|r|] && '.' !in r
    ensures |r| < |name| ==> name[|r|] == '.'
  {
    if name == [] || name[0] == '.' then []
    else [name[0]] + BaseName(name[1..])
  }

  /** The directory entries matching the name filter `<base>.*`, read as a
      case-sensitive prefix test. */
  function Matching(fs: Files, base: string): set<string>
  {
    set k | k in fs && StartsWith(k, base + ".")
  }

  /** The listing handed to a rotation names every matching entry exactly once. */
  predicate Lists(listing: seq<string>, fs: Files, base: string)
  {
    Distinct(listing) && (set x | x in listing) == Matching(fs, base)
  }

  /** isGzip: a name with the gzip suffix is taken to be compressed. */
  function IsGzip(name: string): bool { HasGzSuffix(name) }

  /** What one drain writes: each message followed by '\n', in order. */
  function Lines(batch: seq<string>): string
  {
    if batch == [] then "" else Lines(batch[..|batch| - 1]) + batch[|batch| - 1] + "\n"
  }

  lemma AppendAfterOpen(fs: Files, name: string, text: string, today: nat)
    ensures Appended(Opened(fs, name, today), name, text, today) == Appended(fs, name, text, today)
  {
    if name !in fs {
      assert Opened(fs, name, today)[name].content == "";
      assert "" + text == text;
    }
  }

  lemma AppendTwice(fs: Files, name: string, a: string, b: string, today: nat)
    ensures Appended(Appended(fs, name, a, today), name, b, today) == Appended(fs, name, a + b, today)
  {
    if name in fs {
      assert fs[name].content + a + b == fs[name].content + (a + b);
    } else {
      assert "" + a + b == a + b;
    }
  }

  /** The file after the open and the first i writes of a batch. */
  function WrittenSoFar(fs: Files, name: string, batch: seq<string>, i: nat, today: nat): Files
    requires i <= |batch|
  {
    if i == 0 then Opened(fs, name, today) else Appended(fs, name, Lines(batch[..i]), today)
  }

  lemma WrittenStep(fs: Files, name: string, batch: seq<string>, i: nat, today: nat)
    requires i < |batch|
    ensures Appended(WrittenSoFar(fs, name, batch, i, today), name, batch[i] + "\n", today)
            == WrittenSoFar(fs, name, batch, i + 1, today)
  {
    assert batch[..i + 1][..i] == batch[..i];
    assert Lines(batch[..i + 1]) == Lines(batch[..i]) + batch[i] + "\n";
    assert Lines(batch[..i]) + batch[i] + "\n" == Lines(batch[..i]) + (batch[i] + "\n");
    if i == 0 {
      assert batch[..1][..0] == [];
      assert Lines(batch[..1]) == "" + batch[0] + "\n";
      assert "" + batch[0] + "\n" == batch[0] + "\n";
      AppendAfterOpen(fs, name, batch[i] + "\n", today);
    } else {
      AppendTwice(fs, name, Lines(batch[..i]), batch[i] + "\n", today);
    }
  }

  /** The size test of the writer loop: the threshold is in units of
      1,000,000 bytes and 0 (or less) switches size rotation off. */
  predicate SizeRotationDue(maxFileSize: int, size: nat)
  {
    maxFileSize > 0 && size >= maxFileSize * 1000000
  }

  /** `rotate--` on a quint16. */
  function Decrement(rotate: nat): (r: nat)
    requires rotate < 65536
    ensures r < 65536
    ensures r == if rotate == 0 then 65535 else rotate - 1
  {
    (rotate + 65535) % 65536
  }

  /** The renumbering walk of rotateBySize over the sorted listing, the
      counter starting at `rotate`. */
  function Renumbered(fs: Files, base: string, comp: bool, sorted: seq<string>, rotate: nat): Files
    requires rotate < 65536
    decreases |sorted|
  {
    if sorted == [] then fs
    else
      var file := sorted[0];
      var compressed := IsGzip(file);
      var target := Segment(base, rotate, compressed);
      var moved := Renamed(fs, file, target);
      var fs' := if !compressed && comp then Compressed(moved, target) else moved;
      Renumbered(fs', base, comp, sorted[1..], Decrement(rotate))
  }

  /** rotateBySize as a function of the directory and its listing. */
  function SizeRotation(fs: Files, base: string, comp: bool, listing: seq<string>): Files
  {
    var shifted := Renumbered(fs, base, comp, SortDesc(base, listing), (|listing| + 1) % 65536);
    var first := Segment(base, 1, false);
    var moved := Renamed(shifted, base, first);
    if comp then Compressed(moved, first) else moved
  }

  /** `<date>-<baseName>.log`, the dated name of the active file. */
  function DatedActive(base: string, day: nat): string
  {
    IsoDate(day) + "-" + BaseName(base) + ".log"
  }

  /** `<date>-<fileName>`, the dated name of a segment; a file that has
      gone has no valid date, which Qt renders as the empty string. */
  function DatedSegment(fs: Files, file: string): string
  {
    (if file in fs then IsoDate(fs[file].day) else "") + "-" + file
  }

  predicate DayRotationDue(fs: Files, base: string, today: nat)
  {
    base in fs && fs[base].day != today
  }

  /** The active file after the first rename of a due day rotation. */
  function ActiveRetired(fs: Files, base: string): Files
    requires base in fs
  {
    Renamed(fs, base, DatedActive(base, fs[base].day))
  }

  /** The QDirIterator walk of rotateByDay over the segments, in listing order. */
  function SegmentsDated(fs: Files, comp: bool, order: seq<string>): Files
    decreases |order|
  {
    if order == [] then fs
    else
      var file := order[0];
      var target := DatedSegment(fs, file);
      var moved := Renamed(fs, file, target);
      var fs' := if !IsGzip(file) && comp then Compressed(moved, target) else moved;
      SegmentsDated(fs', comp, order[1..])
  }

  /** rotateByDay's renames and compressions as a function of the directory. */
  function DayRotation(fs: Files, base: string, comp: bool, today: nat, listing: seq<string>): Files
  {
    if !DayRotationDue(fs, base, today) then fs
    else
      var target := DatedActive(base, fs[base].day);
      var dated := SegmentsDated(ActiveRetired(fs, base), comp, listing);
      if !IsGzip(target) && comp then Compressed(dated, target) else dated
  }

  /** 23:59:59 of day `today`, in milliseconds since the epoch. */
  function Midnight(today: nat): nat { today * MsPerDay + 86399000 }

  /** The value stored in m_intervalRotateByDay: the distance between now and
      23:59:59 of today, decided by comparing whole seconds as toTime_t
      does, stored into a 32-bit unsigned field. */
  function IntervalMs(today: nat, nowMs: nat): nat
  {
    var midnight := Midnight(today);
    var diff := if midnight / 1000 > nowMs / 1000 then midnight - nowMs else nowMs - midnight;
    diff % 0x1_0000_0000
  }

  datatype Outcome = Idle | Written | RotatedBySize | Fatal

  class LoggerWriter {
    var filename: string
    var maxFileSize: int
    var compression: bool
    var rotateByDay: bool
    var messages: seq<string>
    var intervalRotateByDay: nat

    /** The default-constructed writer: no file, size rotation off. */
    constructor ()
      ensures filename == "" && maxFileSize == 0 && !compression && !rotateByDay
      ensures messages == [] && intervalRotateByDay == 0
    {
      filename, maxFileSize, compression, rotateByDay := "", 0, false, false;
      messages, intervalRotateByDay := [], 0;
    }

    method SetFilename(f: string)
      modifies this`filename
      ensures filename == f
    {
      filename := f;
    }

    method SetMaxFileSize(size: int)
      modifies this`maxFileSize
      ensures maxFileSize == size
    {
      maxFileSize := size;
    }

    method SetCompression(c: bool)
      modifies this`compression
      ensures compression == c
    {
      compression := c;
    }

    method SetRotateByDay(r: bool)
      modifies this`rotateByDay
      ensures rotateByDay == r
    {
      rotateByDay := r;
    }

    /** The active file's name inside the log directory. */
    function Active(): string
      reads this
    {
      FileName(filename)
    }

    method Enqueue(message: string)
      modifies this`messages
      ensures messages == old(messages) + [message]
    {
      messages := messages + [message];
    }

    /** The swap with an empty buffer at the head of each pass of run. */
    method Drain() returns (batch: seq<string>)
      modifies this`messages
      ensures batch == old(messages) && messages == []
    {
      batch, messages := messages, [];
    }

    method Write(disk: Disk, message: string, today: nat)
      modifies disk
      ensures disk.files == Appended(old(disk.files), Active(), message + "\n", today)
    {
      disk.Append(Active(), message + "\n", today);
    }

    /** One pass of the writer loop after its sleep.  An empty drain touches
        nothing; a failed open is fatal and writes nothing; otherwise the
        whole batch is appended and the size threshold decides rotation. */
    method RunOnce(disk: Disk, today: nat, openOk: bool, listing: seq<string>) returns (outcome: Outcome)
      requires Lists(listing, disk.files, Active())
      modifies this`messages, disk
      ensures messages == []
      ensures old(messages) == [] ==> outcome == Idle && disk.files == old(disk.files)
      ensures old(messages) != [] && !openOk ==> outcome == Fatal && disk.files == old(disk.files)
      ensures old(messages) != [] && openOk ==>
        var written := Appended(old(disk.files), Active(), Lines(old(messages)), today);
        if SizeRotationDue(maxFileSize, Size(written[Active()])) then
          outcome == RotatedBySize && disk.files == SizeRotation(written, Active(), compression, listing)
        else
          outcome == Written && disk.files == written
    {
      var batch := Drain();
      if batch == [] {
        return Idle;
      }
      if !openOk {
        return Fatal;
      }
      var name := Active();
      ghost var before := disk.files;
      WriteBatch(disk, batch, today);
      if SizeRotationDue(maxFileSize, disk.SizeOf(name)) {
        assert Matching(disk.files, name) == Matching(before, name) by {
          assert !StartsWith(name, name + ".");
        }
        RotateBySize(disk, listing);
        outcome := RotatedBySize;
      } else {
        outcome := Written;
      }
    }

    /** Open for append, write every message of the batch, close. */
    method WriteBatch(disk: Disk, batch: seq<string>, today: nat)
      requires batch != []
      modifies disk
      ensures disk.files == Appended(old(disk.files), Active(), Lines(batch), today)
    {
      var name := Active();
      disk.Open(name, today);
      ghost var f0 := old(disk.files);
      assert disk.files == WrittenSoFar(f0, name, batch, 0, today);
      var i := 0;
      while i < |batch|
        invariant 0 <= i <= |batch|
        invariant disk.files == WrittenSoFar(f0, name, batch, i, today)
      {
        WrittenStep(f0, name, batch, i, today);
        Write(disk, batch[i], today);
        i := i + 1;
      }
      assert batch[..|batch|] == batch;
    }

    method RotateBySize(disk: Disk, listing: seq<string>)
      requires Lists(listing, disk.files, Active())
      modifies disk
      ensures disk.files == SizeRotation(old(disk.files), Active(), compression, listing)
    {
      var base := Active();
      var rotated := SortDesc(base, listing);
      var rotate: nat := (|listing| + 1) % 65536;
      ghost var start := rotate;
      for i := 0 to |rotated|
        invariant rotate < 65536
        invariant Renumbered(disk.files, base, compression, rotated[i..], rotate)
                  == Renumbered(old(disk.files), base, compression, rotated, start)
      {
        var file := rotated[i];
        var compressed := IsGzip(file);
        var newName := Segment(base, rotate, compressed);
        rotate := Decrement(rotate);
        var _ := disk.Rename(file, newName);
        if !compressed && compression {
          disk.Gzip(newName);
        }
        assert rotated[i..][1..] == rotated[i + 1..];
      }
      var newName := Segment(base, 1, false);
      var _ := disk.Rename(base, newName);
      if compression {
        disk.Gzip(newName);
      }
    }

    method RotateByDay(disk: Disk, today: nat, nowMs: nat, listing: seq<string>)
      requires DayRotationDue(disk.files, Active(), today) ==>
               Lists(listing, ActiveRetired(disk.files, Active()), Active())
      modifies this`intervalRotateByDay, disk
      ensures disk.files == DayRotation(old(disk.files), Active(), compression, today, listing)
      ensures intervalRotateByDay == IntervalMs(today, nowMs)
    {
      var base := Active();
      if base in disk.files && disk.files[base].day != today {
        var target := DatedActive(base, disk.files[base].day);
        var _ := disk.Rename(base, target);
        DateSegments(disk, listing);
        if !IsGzip(target) && compression {
          disk.Gzip(target);
        }
      }
      var midnight := Midnight(today);
      var diff := if midnight / 1000 > nowMs / 1000 then midnight - nowMs else nowMs - midnight;
      intervalRotateByDay := diff % 0x1_0000_0000;
    }

    /** The QDirIterator loop of rotateByDay. */
    method DateSegments(disk: Disk, listing: seq<string>)
      modifies disk
      ensures disk.files == SegmentsDated(old(disk.files), compression, listing)
    {
      ghost var f0 := old(disk.files);
      var i := 0;
      while i < |listing|
        invariant 0 <= i <= |listing|
        invariant SegmentsDated(disk.files, compression, listing[i..]) == SegmentsDated(f0, compression, listing)
      {
        var file := listing[i];
        var newName := DatedSegment(disk.files, file);
        var _ := disk.Rename(file, newName);
        if !IsGzip(file) && compression {
          disk.Gzip(newName);
        }
        assert listing[i..][1..] == listing[i + 1..];
        i := i + 1;
      }
    }

    /** configure: the directory check is fatal when the directory cannot be
        created; with day rotation on, the initial day-rotation check runs. */
    method Configure(disk: Disk, dirOk: bool, today: nat, nowMs: nat, listing: seq<string>) returns (ok: bool)
      requires DayRotationDue(disk.files, Active(), today) ==>
               Lists(listing, ActiveRetired(disk.files, Active()), Active())
      modifies this`intervalRotateByDay, disk
      ensures ok == dirOk
      ensures !(dirOk && rotateByDay) ==>
                disk.files == old(disk.files) && intervalRotateByDay == old(intervalRotateByDay)
      ensures dirOk && rotateByDay ==>
                disk.files == DayRotation(old(disk.files), Active(), compression, today, listing)
                && intervalRotateByDay == IntervalMs(today, nowMs)
    {
      if !dirOk {
        return false;
      }
      if rotateByDay {
        RotateByDay(disk, today, nowMs, listing);
      }
      return true;
    }
  }
}
