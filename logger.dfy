/** QtRaskLogger, the facade installed as Qt's message handler: it maps a
    message type to a label and a level bit, lays the line out, and forwards
    it to the writer when the configured level mask has that bit. */
module Logger {
  import opened Strings
  import opened FileSystem
  import opened Json
  import opened Config
  import opened Writer

  /** QtRaskLogger::Level. The flag values 0x1, 0x2, 0x4 and 0x8 only
      serve to combine levels into a QFlags set, modelled as a set<Level>. */
  datatype Level = Info | Debug | Error | Warning

  const AllLevels: set<Level> := {Info, Debug, Error, Warning}

  lemma AllLevelsComplete()
    ensures forall l: Level :: l in AllLevels
  {
    forall l: Level ensures l in AllLevels {
      match l
      case Info => case Debug => case Error => case Warning =>
    }
  }

  /** The name that switches a level on in the configuration. */
  function LevelName(l: Level): string
  {
    match l
    case Info => "Info"
    case Debug => "Debug"
    case Error => "Error"
    case Warning => "Warning"
  }

  lemma NamesDistinct()
    ensures "Debug" != "Info" && "Debug" != "Error" && "Debug" != "Warning"
    ensures "Info" != "Error" && "Info" != "Warning" && "Error" != "Warning"
  {
    assert "Debug"[0] != "Error"[0];
  }

  /** The levels one entry of the level list switches on. */
  function NameLevels(s: string): (r: set<Level>)
    ensures forall l :: l in r <==> s == LevelName(l)
  {
    NamesDistinct();
    if s == "Debug" then {Debug}
    else if s == "Info" then {Info}
    else if s == "Error" then {Error}
    else if s == "Warning" then {Warning}
    else {}
  }

  function Names(items: seq<JsonValue>): (r: seq<string>)
    ensures |r| == |items|
    ensures forall i :: 0 <= i < |items| ==> r[i] == ToStr(items[i])
  {
    if items == [] then [] else Names(items[..|items| - 1]) + [ToStr(items[|items| - 1])]
  }

  /** The flags the level list gives, entry by entry. */
  function LevelsOf(items: seq<JsonValue>): set<Level>
  {
    if items == [] then {} else LevelsOf(items[..|items| - 1]) + NameLevels(ToStr(items[|items| - 1]))
  }

  /** A level is enabled exactly when its name appears in the list. */
  lemma {:induction false} LevelsOfNames(items: seq<JsonValue>, l: Level)
    ensures l in LevelsOf(items) <==> LevelName(l) in Names(items)
  {
    if items != [] {
      var init := items[..|items| - 1];
      var last := ToStr(items[|items| - 1]);
      LevelsOfNames(init, l);
      assert Names(items) == Names(init) + [last];
    }
  }

  lemma LevelsOfStep(items: seq<JsonValue>, i: nat)
    requires i < |items|
    ensures LevelsOf(items[..i + 1]) == LevelsOf(items[..i]) + NameLevels(ToStr(items[i]))
  {
    assert items[..i + 1][..i] == items[..i];
  }

  /** The fallback of the constructor: no recognised level means all four. */
  function Effective(m: set<Level>): (r: set<Level>)
    ensures r != {}
    ensures m == {} ==> forall l: Level :: l in r
    ensures m != {} ==> r == m
  {
    if m == {} then AllLevelsComplete(); AllLevels else m
  }

  /** With the default list only Debug, Info and Error are enabled: "Warn"
      is not the name of the Warning level, and the list is not empty, so
      the all-levels fallback does not apply. */
  lemma DefaultLevelsEnabled()
    ensures Effective(LevelsOf(DefaultLevels)) == {Debug, Info, Error}
    ensures Warning !in Effective(LevelsOf(DefaultLevels))
  {
    var items := DefaultLevels;
    forall l ensures l in LevelsOf(items) <==> l in {Debug, Info, Error} {
      LevelsOfNames(items, l);
      assert Names(items) == ["Debug", "Info", "Error", "Warn"];
      NamesDistinct();
      assert "Warning" != "Warn";
    }
  }

  /** The label and level of logger's switch over the message type. */
  datatype Classified = Classified(typeName: string, level: Level)

  const QtDebugMsg: int := 0
  const QtWarningMsg: int := 1
  const QtCriticalMsg: int := 2
  const QtFatalMsg: int := 3
  const QtInfoMsg: int := 4

  function Classify(msgType: int): (c: Classified)
    ensures c.typeName == LevelName(c.level) || (msgType == QtFatalMsg && c == Classified("Fatal", Error))
    ensures msgType == QtFatalMsg <==> c.typeName == "Fatal"
    ensures msgType == QtWarningMsg ==> c == Classified("Warning", Warning)
    ensures msgType == QtCriticalMsg ==> c == Classified("Error", Error)
    ensures msgType == QtInfoMsg ==> c == Classified("Info", Info)
    ensures msgType !in {QtWarningMsg, QtCriticalMsg, QtFatalMsg, QtInfoMsg} ==> c == Classified("Debug", Debug)
  {
    if msgType == QtDebugMsg then Classified("Debug", Debug)
    else if msgType == QtWarningMsg then Classified("Warning", Warning)
    else if msgType == QtCriticalMsg then Classified("Error", Error)
    else if msgType == QtInfoMsg then Classified("Info", Info)
    else if msgType == QtFatalMsg then Classified("Fatal", Error)
    else Classified("Debug", Debug)
  }

  /** Listing a message's label in the configuration enables exactly that
      message's level; "Fatal" is not a level name and enables nothing,
      fatal messages follow the Error bit. */
  lemma LabelEnablesItsLevel(msgType: int)
    ensures msgType != QtFatalMsg ==> NameLevels(Classify(msgType).typeName) == {Classify(msgType).level}
    ensures NameLevels("Fatal") == {} && Classify(QtFatalMsg).level == Error
  {
  }

  /** A message passes the constructor's level filter exactly when its
      level is named in the configured list, or when the list names no
      level at all. */
  lemma ForwardedIffListed(items: seq<JsonValue>, msgType: int)
    ensures var l := Classify(msgType).level;
      l in Effective(LevelsOf(items)) <==> LevelsOf(items) == {} || LevelName(l) in Names(items)
  {
    LevelsOfNames(items, Classify(msgType).level);
  }

  /** QMessageLogContext: the file and function are null pointers when the
      build does not record them. */
  datatype LogContext = LogContext(file: Option<string>, line: int, func: Option<string>)

  /** The line logger enqueues: `<ts> [<label>] [<file>: <line> - <function>] <msg>`
      when both file and function are known, `<ts> [<label>] <msg>` otherwise. */
  function FormatLine(ts: string, typeName: string, ctx: LogContext, msg: string): (r: string)
    ensures StartsWith(r, ts + " [" + typeName + "] ") && EndsWith(r, msg)
    ensures !(ctx.file.Some? && ctx.func.Some?) <==> |r| == |ts| + |typeName| + 4 + |msg|
  {
    var head := ts + " [" + typeName + "] ";
    if ctx.file.Some? && ctx.func.Some? then
      var line := head + ContextText(ctx.file.value, ctx.line, ctx.func.value) + msg;
      assert line[..|head|] == head;
      assert line[|line| - |msg|..] == msg;
      line
    else
      var line := head + msg;
      assert line[..|head|] == head;
      assert line[|line| - |msg|..] == msg;
      line
  }

  /** The `[<file>: <line> - <function>] ` part of the long layout. */
  function ContextText(file: string, line: int, func: string): string
  {
    "[" + file + ": " + IntToString(line) + " - " + func + "] "
  }

  /** Reads the bracketed type name back from a line, given the timestamp's length. */
  function LabelOf(line: string, tsLength: nat): Option<string>
  {
    if tsLength + 2 <= |line| && line[tsLength..tsLength + 2] == " [" then
      var rest := line[tsLength + 2..];
      var k := Until(rest, ']');
      if k < |rest| then Some(rest[..k]) else None
    else None
  }

  /** Index of the first occurrence of c in s, or |s|. */
  function Until(s: string, c: char): (k: nat)
    ensures k <= |s| && c !in s[..k]
    ensures k < |s| ==> s[k] == c
  {
    if s == [] || s[0] == c then 0
    else
      var k := 1 + Until(s[1..], c);
      assert s[..k] == [s[0]] + s[1..][..k - 1];
      k
  }

  lemma {:induction false} UntilFirst(a: string, b: string, c: char)
    requires c !in a
    ensures Until(a + [c] + b, c) == |a|
    decreases |a|
  {
    if a == [] {
      assert (a + [c] + b)[0] == c;
    } else {
      assert (a + [c] + b)[1..] == a[1..] + [c] + b;
      UntilFirst(a[1..], b, c);
    }
  }

  /** The type name of every laid-out line reads back, whichever layout was used. */
  lemma LabelRoundTrip(ts: string, typeName: string, ctx: LogContext, msg: string)
    requires ']' !in typeName
    ensures LabelOf(FormatLine(ts, typeName, ctx, msg), |ts|) == Some(typeName)
  {
    var line := FormatLine(ts, typeName, ctx, msg);
    var head := ts + " [" + typeName + "] ";
    assert line[..|head|] == head;
    var rest := line[|ts| + 2..];
    var n := |typeName|;
    assert line[|ts|..|ts| + 2] == head[|ts|..|ts| + 2] == " [";
    assert rest[..n + 1] == head[|ts| + 2..|head| - 1] == typeName + [']'];
    var b := rest[n + 1..];
    assert rest == typeName + [']'] + b;
    UntilFirst(typeName, b, ']');
    assert Until(rest, ']') == n && rest[..n] == typeName;
  }

  /** A long-layout line after its `<ts> [<label>] ` head, read back. */
  datatype ContextLine = ContextLine(ctx: LogContext, msg: string)

  /** Reads `[<file>: <line> - <function>] <msg>` back into its parts. */
  function ContextOf(body: string): Option<ContextLine>
  {
    if body == [] || body[0] != '[' then None else FilePart(body[1..])
  }

  /** `<file>: ` up to the first ':'. */
  function FilePart(r: string): Option<ContextLine>
  {
    var a := Until(r, ':');
    if a + 2 <= |r| && r[a..a + 2] == ": " then LinePart(r[..a], r[a + 2..]) else None
  }

  /** `<line> - ` up to the first ' '. */
  function LinePart(file: string, r: string): Option<ContextLine>
  {
    var b := Until(r, ' ');
    if b + 3 <= |r| && r[b..b + 3] == " - " then
      match ParseInt(r[..b])
      case None => None
      case Some(n) => FuncPart(file, n, r[b + 3..])
    else None
  }

  /** `<function>] ` up to the first ']', then the message. */
  function FuncPart(file: string, line: int, r: string): Option<ContextLine>
  {
    var c := Until(r, ']');
    if c + 2 <= |r| && r[c..c + 2] == "] " then
      Some(ContextLine(LogContext(Some(file), line, Some(r[..c])), r[c + 2..]))
    else None
  }

  lemma IntToStringNoSpace(i: int)
    ensures ' ' !in IntToString(i)
  {
    NatToStringDigits(if i < 0 then -i else i);
    if i < 0 {
      var d := NatToString(-i);
      assert IntToString(i) == "-" + d;
      forall k | 0 <= k < |IntToString(i)| ensures IntToString(i)[k] != ' ' {
        if k > 0 { assert IntToString(i)[k] == d[k - 1]; }
      }
    }
  }

  /** Cutting `x + sep + rest` at the first character of sep, which x lacks. */
  lemma CutAt(x: string, sep: string, rest: string)
    requires |sep| > 0 && sep[0] !in x
    ensures var s := x + sep + rest;
            Until(s, sep[0]) == |x| && |x| + |sep| <= |s|
            && s[..|x|] == x && s[|x|..|x| + |sep|] == sep && s[|x| + |sep|..] == rest
  {
    var s := x + sep + rest;
    assert s == x + [sep[0]] + (sep[1..] + rest);
    UntilFirst(x, sep[1..] + rest, sep[0]);
    assert s[..|x|] == x;
    assert s[|x|..|x| + |sep|] == sep;
    assert s[|x| + |sep|..] == rest;
  }

  lemma FuncPartOf(file: string, line: int, func: string, msg: string)
    requires ']' !in func
    ensures FuncPart(file, line, func + "] " + msg) == Some(ContextLine(LogContext(Some(file), line, Some(func)), msg))
  {
    CutAt(func, "] ", msg);
  }

  lemma LinePartOf(file: string, line: int, func: string, msg: string)
    requires ']' !in func
    ensures LinePart(file, IntToString(line) + " - " + (func + "] " + msg))
            == Some(ContextLine(LogContext(Some(file), line, Some(func)), msg))
  {
    IntToStringNoSpace(line);
    CutAt(IntToString(line), " - ", func + "] " + msg);
    ParseIntToString(line);
    FuncPartOf(file, line, func, msg);
  }

  lemma FilePartOf(file: string, line: int, func: string, msg: string)
    requires ':' !in file && ']' !in func
    ensures FilePart(file + ": " + (IntToString(line) + " - " + (func + "] " + msg)))
            == Some(ContextLine(LogContext(Some(file), line, Some(func)), msg))
  {
    CutAt(file, ": ", IntToString(line) + " - " + (func + "] " + msg));
    LinePartOf(file, line, func, msg);
  }

  lemma ContextTextThen(file: string, line: int, func: string, msg: string)
    ensures ContextText(file, line, func) + msg
            == "[" + (file + ": " + (IntToString(line) + " - " + (func + "] " + msg)))
  {
  }

  /** The middle of the long layout reads back: the file, the line number,
      the function and the message, for a file name without ':' and a
      function name without ']'. */
  lemma ContextRoundTrip(ts: string, typeName: string, file: string, line: int, func: string, msg: string)
    requires ':' !in file && ']' !in func
    ensures var ctx := LogContext(Some(file), line, Some(func));
            var r := FormatLine(ts, typeName, ctx, msg);
            |ts| + |typeName| + 4 <= |r|
            && ContextOf(r[|ts| + |typeName| + 4..]) == Some(ContextLine(ctx, msg))
  {
    var ctx := LogContext(Some(file), line, Some(func));
    var head := ts + " [" + typeName + "] ";
    var body := ContextText(file, line, func) + msg;
    assert FormatLine(ts, typeName, ctx, msg) == head + body;
    assert (head + body)[|head|..] == body;
    ContextTextThen(file, line, func, msg);
    var r := file + ": " + (IntToString(line) + " - " + (func + "] " + msg));
    assert body == "[" + r;
    assert body[1..] == r;
    FilePartOf(file, line, func, msg);
  }

  /** True when a configure step that rotates by day can read the right
      listing: the precondition of LoggerWriter.Configure, on the settings. */
  predicate ListingFits(s: Settings, files: Files, today: nat, listing: seq<string>)
  {
    var name := FileName(ToStr(Lookup(s, "filename")));
    DayRotationDue(files, name, today) ==> Lists(listing, ActiveRetired(files, name), name)
  }

  class Logger {
    var level: set<Level>
    var showStd: bool
    var halted: bool
    const config: LoggerConfig
    const writer: LoggerWriter

    /** Loads the configuration, parses the level list, sets the writer up
        and runs its configure step; a log directory that cannot be made
        halts the process. */
    constructor (configFile: string, file: ConfigFile, disk: Disk, dirOk: bool,
                 today: nat, nowMs: nat, listing: seq<string>)
      requires ListingFits(Loaded(configFile, file), disk.files, today, listing)
      modifies disk
      ensures fresh(config) && fresh(writer)
      ensures config.config == Loaded(configFile, file)
      ensures level == Effective(LevelsOf(ToArray(Lookup(config.config, "level"))))
      ensures showStd == ToBool(Lookup(config.config, "showStd"))
      ensures Wired(config.config, writer) && writer.messages == []
      ensures halted == !dirOk
      ensures disk.files == if dirOk && writer.rotateByDay
                            then DayRotation(old(disk.files), writer.Active(), writer.compression, today, listing)
                            else old(disk.files)
    {
      var cfg := new LoggerConfig(configFile, file);
      var s := cfg.config;
      var mask := ParseLevels(ToArray(Lookup(s, "level")));
      var w, ok := SetUpWriter(s, disk, dirOk, today, nowMs, listing);
      config, writer := cfg, w;
      level := Effective(mask);
      showStd := ToBool(Lookup(s, "showStd"));
      halted := !ok;
    }

    /** The writer's settings are the configuration's values converted with
        toString, toInt and toBool. */
    static predicate Wired(s: Settings, w: LoggerWriter)
      reads w
    {
      && w.filename == ToStr(Lookup(s, "filename"))
      && w.maxFileSize == ToInt(Lookup(s, "maxFileSize"))
      && w.compression == ToBool(Lookup(s, "compression"))
      && w.rotateByDay == ToBool(Lookup(s, "rotateByDay"))
    }

    /** The constructor's writer set-up and configure call. */
    static method SetUpWriter(s: Settings, disk: Disk, dirOk: bool, today: nat, nowMs: nat,
                              listing: seq<string>) returns (w: LoggerWriter, ok: bool)
      requires ListingFits(s, disk.files, today, listing)
      modifies disk
      ensures fresh(w) && Wired(s, w) && w.messages == []
      ensures ok == dirOk
      ensures disk.files == if dirOk && w.rotateByDay
                            then DayRotation(old(disk.files), w.Active(), w.compression, today, listing)
                            else old(disk.files)
    {
      w := new LoggerWriter();
      w.SetFilename(ToStr(Lookup(s, "filename")));
      w.SetMaxFileSize(ToInt(Lookup(s, "maxFileSize")));
      w.SetCompression(ToBool(Lookup(s, "compression")));
      w.SetRotateByDay(ToBool(Lookup(s, "rotateByDay")));
      assert w.Active() == FileName(ToStr(Lookup(s, "filename")));
      assert disk.files == old(disk.files);
      assert ListingFits(s, disk.files, today, listing);
      ok := w.Configure(disk, dirOk, today, nowMs, listing);
    }

    /** The constructor's loop over the level list. */
    static method ParseLevels(items: seq<JsonValue>) returns (mask: set<Level>)
      ensures mask == LevelsOf(items)
    {
      mask := {};
      NamesDistinct();
      for i := 0 to |items|
        invariant mask == LevelsOf(items[..i])
      {
        var name := ToStr(items[i]);
        LevelsOfStep(items, i);
        if name == "Debug" {
          mask := mask + {Debug};
        }
        if name == "Info" {
          mask := mask + {Info};
        }
        if name == "Error" {
          mask := mask + {Error};
        }
        if name == "Warning" {
          mask := mask + {Warning};
        }
      }
      assert items[..|items|] == items;
    }

    /** enqueueMessage: the level mask decides whether the writer gets the
        line; the echo to standard output depends on showStd alone. */
    method EnqueueMessage(message: string, t: Level) returns (echo: bool)
      modifies writer`messages
      ensures writer.messages == if t in level then old(writer.messages) + [message] else old(writer.messages)
      ensures echo == showStd
    {
      if t in level {
        writer.Enqueue(message);
      }
      echo := showStd;
    }

    /** The message handler: classify, lay out, hand to the logger. */
    method Log(msgType: int, ctx: LogContext, msg: string, timestamp: string) returns (echo: bool)
      modifies writer`messages
      ensures var c := Classify(msgType);
              writer.messages == if c.level in level
                                 then old(writer.messages) + [FormatLine(timestamp, c.typeName, ctx, msg)]
                                 else old(writer.messages)
      ensures echo == showStd
    {
      var c := Classify(msgType);
      var line := FormatLine(timestamp, c.typeName, ctx, msg);
      echo := EnqueueMessage(line, c.level);
    }
  }
}
