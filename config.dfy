/** QtRaskLoggerConfig: the built-in defaults, overridden key by key from a
    JSON configuration file.  Reading and parsing the file are outside the
    model; what the file turned out to be is given as a ConfigFile. */
module Config {
  import opened Json

  type Settings = map<string, JsonValue>

  /** What opening and parsing the configuration file gave. */
  datatype ConfigFile = Missing | Unreadable | Malformed | Parsed(document: JsonValue)

  const DefaultFilename: string := "/tmp/qtrasklogger.log"

  /** The default level list; "Warn" is not one of the names the logger
      recognises. */
  const DefaultLevels: seq<JsonValue> := [JString("Debug"), JString("Info"), JString("Error"), JString("Warn")]

  function Defaults(): (d: Settings)
    ensures d.Keys == {"filename", "maxFileSize", "compression", "rotateByDay", "level", "showStd"}
  {
    map["filename" := JString(DefaultFilename),
        "maxFileSize" := JNumber(2.0),
        "compression" := JBool(true),
        "rotateByDay" := JBool(true),
        "level" := JArray(DefaultLevels),
        "showStd" := JBool(true)]
  }

  /** `config[key]` on a non-const QJsonObject: a missing key reads as Null. */
  function Lookup(c: Settings, key: string): JsonValue
  {
    if key in c then c[key] else JNull
  }

  /** The settings after the keys in `done` of a file object have been merged. */
  function Partial(c0: Settings, doc: map<string, JsonValue>, done: set<string>): Settings
    requires done <= doc.Keys
  {
    map k | k in c0.Keys + done :: if k in done then Coerce(Lookup(c0, k), doc[k]) else c0[k]
  }

  /** The settings after every key of the file object has been merged. */
  function Merged(c0: Settings, doc: map<string, JsonValue>): (r: Settings)
    ensures r.Keys == c0.Keys + doc.Keys
    ensures forall k :: k in c0 && k !in doc ==> r[k] == c0[k]
    ensures forall k :: k in c0 && k in doc && TypeOf(c0[k]) != Null ==>
              TypeOf(r[k]) == TypeOf(c0[k])
              && (TypeOf(doc[k]) == TypeOf(c0[k]) ==> r[k] == doc[k])
              && (TypeOf(doc[k]) != TypeOf(c0[k]) ==> r[k] == ZeroOf(TypeOf(c0[k])))
    ensures forall k :: k !in c0 && k in doc ==> r[k] == JNumber(0.0)
  {
    Partial(c0, doc, doc.Keys)
  }

  lemma PartialStep(c0: Settings, doc: map<string, JsonValue>, done: set<string>, key: string)
    requires done <= doc.Keys && key in doc && key !in done
    ensures Lookup(Partial(c0, doc, done), key) == Lookup(c0, key)
    ensures Partial(c0, doc, done)[key := Coerce(Lookup(c0, key), doc[key])] == Partial(c0, doc, done + {key})
  {
  }

  lemma PartialNone(c0: Settings, doc: map<string, JsonValue>)
    ensures Partial(c0, doc, {}) == c0
  {
  }

  /** The settings the configuration object ends up with. */
  function Loaded(filename: string, file: ConfigFile): (r: Settings)
    ensures r.Keys >= Defaults().Keys
    ensures forall k :: k in Defaults() ==> TypeOf(r[k]) == TypeOf(Defaults()[k])
    ensures filename == "" || !(file.Parsed? && file.document.JObject?) ==> r == Defaults()
  {
    if filename == "" then Defaults()
    else
      match file
      case Parsed(JObject(doc)) => Merged(Defaults(), doc)
      case _ => Defaults()
  }

  class LoggerConfig {
    var config: Settings
    const filename: string

    /** Starts from the defaults and loads the file when a name is given. */
    constructor (filename: string, file: ConfigFile)
      ensures this.filename == filename
      ensures config == Loaded(filename, file)
    {
      this.filename := filename;
      config := Defaults();
      new;
      if filename != "" {
        LoadJsonFile(file);
      }
    }

    /** loadJsonFile: a missing, unreadable or malformed file, or one whose
        document is not an object, leaves the settings as they are;
        otherwise every key of the document is merged. */
    method LoadJsonFile(file: ConfigFile)
      modifies this`config
      ensures file.Parsed? && file.document.JObject? ==> config == Merged(old(config), file.document.fields)
      ensures !(file.Parsed? && file.document.JObject?) ==> config == old(config)
    {
      if !file.Parsed? || !file.document.JObject? {
        return;
      }
      MergeDocument(file.document.fields);
    }

    /** The loop of loadJsonFile over the keys of the document object; the
        keys are taken in an arbitrary order, which the result does not
        depend on. */
    method MergeDocument(doc: map<string, JsonValue>)
      modifies this`config
      ensures config == Partial(old(config), doc, doc.Keys)
    {
      ghost var c0 := config;
      var pending := doc.Keys;
      ghost var done: set<string> := {};
      PartialNone(c0, doc);
      while pending != {}
        invariant pending !! done && pending + done == doc.Keys
        invariant config == Partial(c0, doc, done)
        decreases |pending|
      {
        var key :| key in pending;
        MergeOne(c0, doc, done, key);
        done := done + {key};
        pending := pending - {key};
      }
      assert done == doc.Keys;
    }

    /** One turn of the merge loop, seen against the partial merge. */
    method MergeOne(ghost c0: Settings, doc: map<string, JsonValue>, ghost done: set<string>, key: string)
      requires done <= doc.Keys && key in doc && key !in done
      requires config == Partial(c0, doc, done)
      modifies this`config
      ensures config == Partial(c0, doc, done + {key})
    {
      PartialStep(c0, doc, done, key);
      MergeKey(key, doc[key]);
    }

    /** The body of the merge loop for one key: the slot's current type
        decides the conversion, and an empty slot becomes 0. */
    method MergeKey(key: string, value: JsonValue)
      modifies this`config
      ensures config == old(config)[key := Coerce(Lookup(old(config), key), value)]
    {
      var slot := Lookup(config, key);
      if TypeOf(slot) == Bool {
        slot := JBool(ToBool(value));
      }
      if TypeOf(slot) == Double {
        slot := JNumber(ToDouble(value));
      }
      if TypeOf(slot) == String {
        slot := JString(ToStr(value));
      }
      if TypeOf(slot) == Array {
        slot := JArray(ToArray(value));
      }
      if TypeOf(slot) == Object {
        slot := JObject(ToObject(value));
      }
      if TypeOf(slot) == Null {
        slot := JNumber(0.0);
      }
      config := config[key := slot];
    }
  }
}
