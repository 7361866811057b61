/** The log directory as the writer sees it: file names mapped to files,
    with the three operations the writer performs on it (QFile::rename,
    `gzip -9 <name>` and an append through QTextStream). */
module FileSystem {
  import opened Strings

  /** A regular file: its text, its last-modified day (day number since
      1970-01-01) and whether its bytes are gzip output.  Compression keeps
      the text as the payload and sets the flag. */
  datatype File = File(content: string, day: nat, gzipped: bool)

  type Files = map<string, File>

  function Size(f: File): nat { |f.content| }

  /** QFile::rename: fails, changing nothing, when the source is missing or
      the destination already exists (QFile never overwrites). */
  function Renamed(fs: Files, from: string, to: string): (r: Files)
    ensures from in fs && to !in fs ==> from !in r && to in r && r[to] == fs[from]
    ensures !(from in fs && to !in fs) ==> r == fs
    ensures forall k :: k != from && k != to ==> (k in r <==> k in fs) && (k in r ==> r[k] == fs[k])
  {
    if from in fs && to !in fs then (fs - {from})[to := fs[from]] else fs
  }

  /** Renaming back restores the directory whenever the first rename either
      succeeded or had nothing to move. */
  lemma RenameInverse(fs: Files, a: string, b: string)
    requires a in fs || b !in fs
    ensures Renamed(Renamed(fs, a, b), b, a) == fs
  {
    if a in fs && b !in fs {
      var r := Renamed(fs, a, b);
      assert Renamed(r, b, a) == (r - {b})[a := r[b]];
    }
  }

  predicate HasGzSuffix(name: string) { EndsWith(name, ".gz") }

  /** `gzip -9 name`: replaces name by name.gz holding the same payload, with
      the same modification day.  gzip refuses, leaving everything as it
      was, when name is missing, already ends in ".gz", or name.gz exists. */
  function Compressed(fs: Files, name: string): (r: Files)
  {
    if name in fs && !HasGzSuffix(name) && name + ".gz" !in fs
    then (fs - {name})[name + ".gz" := fs[name].(gzipped := true)]
    else fs
  }

  /** Compressing a ".gz" name is a no-op, and compressing twice is the same
      as compressing once. */
  lemma CompressIdempotent(fs: Files, name: string)
    ensures HasGzSuffix(name) ==> Compressed(fs, name) == fs
    ensures Compressed(Compressed(fs, name), name) == Compressed(fs, name)
  {
  }

  /** What `gzip -d name.gz` would give back: decompression undoes a
      compression of an uncompressed file. */
  function Decompressed(fs: Files, gzName: string): (r: Files)
  {
    if HasGzSuffix(gzName) && gzName in fs && gzName[..|gzName| - 3] !in fs
    then (fs - {gzName})[gzName[..|gzName| - 3] := fs[gzName].(gzipped := false)]
    else fs
  }

  lemma DecompressUndoesCompress(fs: Files, name: string)
    requires name in fs && !fs[name].gzipped && !HasGzSuffix(name) && name + ".gz" !in fs
    ensures Decompressed(Compressed(fs, name), name + ".gz") == fs
  {
    var g := name + ".gz";
    assert HasGzSuffix(g) by { assert g[|g| - 3..] == ".gz"; }
    assert g[..|g| - 3] == name;
    var c := Compressed(fs, name);
    assert Decompressed(c, g) == (c - {g})[name := c[g].(gzipped := false)];
  }

  /** OpenMode Append leaves an existing file alone and creates a missing
      one empty, stamped today. */
  function Opened(fs: Files, name: string, today: nat): (r: Files)
  {
    if name in fs then fs else fs[name := File("", today, false)]
  }

  /** Opening for append creates a missing file; writing stamps today. */
  function Appended(fs: Files, name: string, text: string, today: nat): (r: Files)
    ensures name in r && r[name].day == today
    ensures r[name].content == (if name in fs then fs[name].content else "") + text
    ensures forall k :: k != name ==> (k in r <==> k in fs) && (k in r ==> r[k] == fs[k])
  {
    if name in fs then fs[name := fs[name].(content := fs[name].content + text, day := today)]
    else fs[name := File(text, today, false)]
  }

  /** What rotation must never lose: the text and day of every file. */
  datatype Payload = Payload(content: string, day: nat)

  function PayloadOf(f: File): Payload { Payload(f.content, f.day) }

  /** The payloads of a directory, one occurrence per file. */
  ghost function Payloads(fs: Files): multiset<Payload>
    decreases |fs|
  {
    if |fs| == 0 then multiset{}
    else
      var k :| k in fs;
      multiset{PayloadOf(fs[k])} + Payloads(fs - {k})
  }

  lemma PayloadsUnfold(fs: Files) returns (j: string)
    requires |fs| > 0
    ensures j in fs && Payloads(fs) == multiset{PayloadOf(fs[j])} + Payloads(fs - {j})
  {
    j :| j in fs && Payloads(fs) == multiset{PayloadOf(fs[j])} + Payloads(fs - {j});
  }

  lemma RemoveCommutes(fs: Files, j: string, k: string)
    ensures fs - {j} - {k} == fs - {k} - {j}
  {
    assert (fs - {j} - {k}).Keys == fs.Keys - {j, k} == (fs - {k} - {j}).Keys;
  }

  lemma MultisetSwap(x: Payload, y: Payload, m: multiset<Payload>)
    ensures multiset{x} + (multiset{y} + m) == multiset{y} + (multiset{x} + m)
  {
  }

  /** Payloads may be counted starting from any file. */
  lemma {:induction false} PayloadsPick(fs: Files, k: string)
    requires k in fs
    ensures Payloads(fs) == multiset{PayloadOf(fs[k])} + Payloads(fs - {k})
    decreases |fs|
  {
    var j := PayloadsUnfold(fs);
    if j != k {
      var a := fs - {j};
      var b := fs - {k};
      assert |a| < |fs| && |b| < |fs|;
      PayloadsPick(a, k);
      PayloadsPick(b, j);
      RemoveCommutes(fs, j, k);
      MultisetSwap(PayloadOf(fs[j]), PayloadOf(fs[k]), Payloads(a - {k}));
    }
  }

  /** Moving the entry at `from` to the free name `to`, and back out. */
  lemma MovedRemoved(fs: Files, from: string, to: string, f: File)
    requires from in fs && to !in fs
    ensures (fs - {from})[to := f] - {to} == fs - {from}
    ensures ((fs - {from})[to := f]).Keys == fs.Keys - {from} + {to}
  {
  }

  /** A successful rename moves one payload from one name to another. */
  lemma RenamedPayloads(fs: Files, from: string, to: string)
    ensures Payloads(Renamed(fs, from, to)) == Payloads(fs)
    ensures |Renamed(fs, from, to)| == |fs|
  {
    if from in fs && to !in fs {
      var r := Renamed(fs, from, to);
      MovedRemoved(fs, from, to, fs[from]);
      PayloadsPick(r, to);
      PayloadsPick(fs, from);
    }
  }

  /** gzip keeps the payload of the file it replaces. */
  lemma CompressedPayloads(fs: Files, name: string)
    ensures Payloads(Compressed(fs, name)) == Payloads(fs)
    ensures |Compressed(fs, name)| == |fs|
  {
    var g := name + ".gz";
    if name in fs && !HasGzSuffix(name) && g !in fs {
      var r := Compressed(fs, name);
      MovedRemoved(fs, name, g, fs[name].(gzipped := true));
      PayloadsPick(r, g);
      PayloadsPick(fs, name);
    }
  }

  /** The on-disk state the writer works on.  Every method is one system
      call's worth of change, stated by the functions above. */
  class Disk {
    var files: Files

    constructor (files: Files)
      ensures this.files == files
    {
      this.files := files;
    }

    method Rename(from: string, to: string) returns (ok: bool)
      modifies this
      ensures ok == (from in old(files) && to !in old(files))
      ensures files == Renamed(old(files), from, to)
    {
      ok := from in files && to !in files;
      files := Renamed(files, from, to);
    }

    method Gzip(name: string)
      modifies this
      ensures files == Compressed(old(files), name)
    {
      files := Compressed(files, name);
    }

    /** Open for append, creating a missing file empty. */
    method Open(name: string, today: nat)
      modifies this
      ensures files == Opened(old(files), name, today)
    {
      if name !in files {
        files := files[name := File("", today, false)];
      }
    }

    method Append(name: string, text: string, today: nat)
      modifies this
      ensures files == Appended(old(files), name, text, today)
    {
      files := Appended(files, name, text, today);
    }

    /** QFile::size of a closed file: 0 when it does not exist. */
    function SizeOf(name: string): nat
      reads this
    {
      if name in files then Size(files[name]) else 0
    }
  }
}
