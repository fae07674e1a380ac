/**
 * The on-disk message cache of sqs_gui/app/storage.py: where it lives, how a
 * message is turned into file text and back, the writer thread that drains
 * the save queue into the work directory, and the tolerant reload.
 *
 * Base85, UTF-8 and JSON/pydantic are library code: they are given as a
 * `Codec` of function values, and what the round trip needs of them is the
 * `Lossless` hypothesis. The work directory is a map from file name to text.
 */
module Storage {
  import opened Wrappers
  import opened Dicts
  import opened Messages
  import opened Receiver

  const APP_NAME := "SqsGui"

  /**
   * `getDataDir`, as the list of path components `os.path.join` puts together:
   * the platform's application-data directory under `home`, then the
   * application's directory, then one directory per queue.
   */
  function DataDir(platform: string, home: string, queueName: string): (r: Result<seq<string>>)
    ensures r.Err? <==> platform != "win32" && platform != "linux" && platform != "darwin"
    ensures r.Err? ==> r.error == ValueError
    ensures r.Ok? ==> |r.value| == 5 && r.value[0] == home && r.value[3] == APP_NAME && r.value[4] == queueName
  {
    if platform == "win32" then Ok([home, "AppData", "Roaming", APP_NAME, queueName])
    else if platform == "linux" then Ok([home, ".local", "share", APP_NAME, queueName])
    else if platform == "darwin" then Ok([home, "Library", "Application Support", APP_NAME, queueName])
    else Err(ValueError)
  }

  /** Two queues, or two platforms, never share a cache directory under one home. */
  lemma DataDirInjective(p1: string, p2: string, home: string, q1: string, q2: string)
    requires DataDir(p1, home, q1).Ok? && DataDir(p2, home, q2).Ok?
    requires DataDir(p1, home, q1) == DataDir(p2, home, q2)
    ensures p1 == p2 && q1 == q2
  {
    var d := DataDir(p1, home, q1).value;
    assert d[1] == DataDir(p2, home, q2).value[1];
  }

  // ---------------------------------------------------------------------
  // The text form of a message
  // ---------------------------------------------------------------------

  /**
   * The library calls the cache relies on: `b85encode(b).decode()`,
   * `b85decode(s)` (None: ValueError), `bytes.decode()` as UTF-8 (None:
   * UnicodeDecodeError), `json.dumps(message.dict())` and
   * `Message.parse_obj(json.loads(s))` (None: the text is not a message).
   */
  datatype Codec = Codec(
    b85encode: seq<byte> -> string,
    b85decode: string -> Option<seq<byte>>,
    utf8Decode: seq<byte> -> Option<string>,
    dump: Message -> string,
    load: string -> Option<Message>)

  /**
   * No attribute value is raw bytes, which the standard library's `json.dumps`
   * refuses. `storage.py` imports `ujson` when it is installed and falls back
   * to `json` otherwise (sqs_gui/app/storage.py:12-15); this is the fallback.
   */
  predicate JsonSafe(m: Message) {
    m.attributes.Some? ==>
      forall i :: 0 <= i < |m.attributes.value| ==>
        var v := m.attributes.value[i].1.binaryValue;
        v.Some? ==> v.value.Text?
  }

  /** Base85 decoding undoes encoding, and loading undoes dumping for what can be dumped. */
  ghost predicate Lossless(c: Codec) {
    && (forall b :: c.b85decode(c.b85encode(b)) == Some(b))
    && (forall m :: JsonSafe(m) ==> c.load(c.dump(m)) == Some(m))
  }

  predicate IsBinary(e: AttrEntry) {
    e.dataType == Some("Binary")
  }

  /** The characters of a byte string, as `b85decode` reads a `bytes` argument. */
  function AsText(b: seq<byte>): string {
    seq(|b|, i requires 0 <= i < |b| => (b[i] as int) as char)
  }

  /**
   * The body of `serialize`'s loop for one attribute dict: `DataType` is read
   * (KeyError when absent); a "Binary" entry's `BinaryValue` must be present
   * (KeyError) and bytes (`b85encode` of a str is a TypeError) and becomes its
   * Base85 text.
   */
  function EncodeEntry(c: Codec, e: AttrEntry): Result<AttrEntry> {
    if e.dataType.None? then Err(KeyError)
    else if !IsBinary(e) then Ok(e)
    else if e.binaryValue.None? then Err(KeyError)
    else match e.binaryValue.value
      case Text(_) => Err(TypeError)
      case Bytes(b) => Ok(e.(binaryValue := Some(Text(c.b85encode(b)))))
  }

  /**
   * The body of `deserialize`'s loop for one attribute dict: a "Binary"
   * entry's value is Base85-decoded (ValueError) and the bytes UTF-8-decoded
   * (UnicodeDecodeError), so it comes back as text.
   */
  function DecodeEntry(c: Codec, e: AttrEntry): Result<AttrEntry> {
    if e.dataType.None? then Err(KeyError)
    else if !IsBinary(e) then Ok(e)
    else if e.binaryValue.None? then Err(KeyError)
    else
      var text := match e.binaryValue.value
        case Text(s) => s
        case Bytes(b) => AsText(b);
      match c.b85decode(text)
      case None => Err(ValueError)
      case Some(raw) =>
        match c.utf8Decode(raw)
        case None => Err(UnicodeDecodeError)
        case Some(s) => Ok(e.(binaryValue := Some(Text(s))))
  }

  /**
   * A loop over a dict's values that rewrites each in turn and stops at the
   * first one that raises: the keys stay, every value is rewritten, and an
   * error is that of the first entry that fails.
   */
  function MapEntries(d: Dict<string, AttrEntry>, f: AttrEntry -> Result<AttrEntry>): (r: Result<Dict<string, AttrEntry>>)
    ensures r.Ok? <==> forall i :: 0 <= i < |d| ==> f(d[i].1).Ok?
    ensures r.Ok? ==> |r.value| == |d| && forall i :: 0 <= i < |d| ==> r.value[i] == (d[i].0, f(d[i].1).value)
    ensures r.Err? ==> exists i :: 0 <= i < |d| && f(d[i].1) == Err(r.error) && forall j :: 0 <= j < i ==> f(d[j].1).Ok?
    decreases |d|
  {
    if d == [] then Ok([])
    else
      var n := |d| - 1;
      match MapEntries(d[..n], f)
      case Err(e) => Err(e)
      case Ok(prefix) =>
        match f(d[n].1)
        case Err(e) => Err(e)
        case Ok(v) => Ok(prefix + [(d[n].0, v)])
  }

  /**
   * The `for data in message.attributes.values()` loop of `serialize` and
   * `deserialize`, rewriting each value in place; it computes `MapEntries`.
   */
  method RewriteValues(d: Dict<string, AttrEntry>, f: AttrEntry -> Result<AttrEntry>) returns (r: Result<Dict<string, AttrEntry>>)
    ensures r == MapEntries(d, f)
  {
    var out := d;
    for i := 0 to |d|
      invariant |out| == |d| && forall j :: i <= j < |d| ==> out[j] == d[j]
      invariant MapEntries(d[..i], f) == Ok(out[..i])
    {
      assert d[..i + 1][..i] == d[..i];
      match f(out[i].1)
      case Err(e) =>
        assert MapEntries(d[..i + 1], f) == Err(e);
        MapEntriesPrefix(d, f, i + 1);
        return Err(e);
      case Ok(v) =>
        ghost var done := out[..i];
        out := out[i := (d[i].0, v)];
        assert out[..i + 1] == done + [(d[i].0, v)];
    }
    assert d[..|d|] == d && out[..|d|] == out;
    r := Ok(out);
  }

  /** An error in a prefix of the dict is the error of the whole loop. */
  lemma {:induction false} MapEntriesPrefix(d: Dict<string, AttrEntry>, f: AttrEntry -> Result<AttrEntry>, k: nat)
    requires k <= |d| && MapEntries(d[..k], f).Err?
    ensures MapEntries(d, f) == MapEntries(d[..k], f)
    decreases |d| - k
  {
    if k < |d| {
      assert d[..k + 1][..k] == d[..k];
      MapEntriesPrefix(d, f, k + 1);
    } else {
      assert d[..k] == d;
    }
  }

  /** The message after `serialize`'s loop: every attribute rewritten by `EncodeEntry`. */
  function Encoded(c: Codec, m: Message): Result<Message> {
    if m.attributes.None? then Ok(m)
    else
      match MapEntries(m.attributes.value, e => EncodeEntry(c, e))
      case Err(e) => Err(e)
      case Ok(d) => Ok(m.(attributes := Some(d)))
  }

  /** `serialize`: the encoded message as JSON text; bytes left anywhere make `json.dumps` raise TypeError. */
  function Serialized(c: Codec, m: Message): Result<string> {
    match Encoded(c, m)
    case Err(e) => Err(e)
    case Ok(m') => if JsonSafe(m') then Ok(c.dump(m')) else Err(TypeError)
  }

  /** `deserialize`: the text parsed as a message, then every attribute rewritten by `DecodeEntry`. */
  function Deserialized(c: Codec, text: string): Result<Message> {
    match c.load(text)
    case None => Err(ValueError)
    case Some(m) =>
      if m.attributes.None? then Ok(m)
      else
        match MapEntries(m.attributes.value, e => DecodeEntry(c, e))
        case Err(e) => Err(e)
        case Ok(d) => Ok(m.(attributes := Some(d)))
  }

  /**
   * An attribute the cache can store: it has a `DataType`; a "Binary" one
   * holds bytes that are UTF-8 text, any other holds no bytes.
   */
  predicate Storable(c: Codec, e: AttrEntry) {
    && e.dataType.Some?
    && (IsBinary(e) ==> e.binaryValue.Some? && e.binaryValue.value.Bytes? && c.utf8Decode(e.binaryValue.value.bytes).Some?)
    && (!IsBinary(e) ==> !(e.binaryValue.Some? && e.binaryValue.value.Bytes?))
  }

  predicate Cacheable(c: Codec, m: Message) {
    m.attributes.Some? ==> forall i :: 0 <= i < |m.attributes.value| ==> Storable(c, m.attributes.value[i].1)
  }

  /** An attribute as the cache gives it back: a binary value turns into its UTF-8 text. */
  function Stored(c: Codec, e: AttrEntry): AttrEntry
    requires Storable(c, e)
  {
    if IsBinary(e) then e.(binaryValue := Some(Text(c.utf8Decode(e.binaryValue.value.bytes).value))) else e
  }

  function StoredMessage(c: Codec, m: Message): Message
    requires Cacheable(c, m)
  {
    if m.attributes.None? then m
    else
      var d := m.attributes.value;
      m.(attributes := Some(seq(|d|, i requires 0 <= i < |d| => (d[i].0, Stored(c, d[i].1)))))
  }

  /** One attribute survives encoding then decoding, as its stored form, and encodes to no bytes. */
  lemma EntryRoundTrip(c: Codec, e: AttrEntry)
    requires Lossless(c) && Storable(c, e)
    ensures EncodeEntry(c, e).Ok?
    ensures var v := EncodeEntry(c, e).value.binaryValue; v.Some? ==> v.value.Text?
    ensures DecodeEntry(c, EncodeEntry(c, e).value) == Ok(Stored(c, e))
  {
    if IsBinary(e) {
      var b := e.binaryValue.value.bytes;
      assert c.b85decode(c.b85encode(b)) == Some(b);
    }
  }

  /**
   * A message the cache can store comes back from its file text as its
   * stored form: same fields, binary attribute values now text.
   */
  lemma SerializeRoundTrip(c: Codec, m: Message)
    requires Lossless(c) && Cacheable(c, m)
    ensures Serialized(c, m).Ok?
    ensures Deserialized(c, Serialized(c, m).value) == Ok(StoredMessage(c, m))
  {
    var m' := Encoded(c, m).value;
    if m.attributes.Some? {
      var d := m.attributes.value;
      var enc := e => EncodeEntry(c, e);
      var dec := e => DecodeEntry(c, e);
      forall i | 0 <= i < |d| ensures enc(d[i].1).Ok? {
        EntryRoundTrip(c, d[i].1);
      }
      var d' := MapEntries(d, enc).value;
      assert m' == m.(attributes := Some(d'));
      forall i | 0 <= i < |d'| ensures dec(d'[i].1) == Ok(Stored(c, d[i].1)) {
        EntryRoundTrip(c, d[i].1);
      }
      assert JsonSafe(m') by {
        forall i | 0 <= i < |d'| ensures var v := d'[i].1.binaryValue; v.Some? ==> v.value.Text? {
          EntryRoundTrip(c, d[i].1);
        }
      }
      assert c.load(c.dump(m')) == Some(m');
      var d'' := MapEntries(d', dec).value;
      assert d'' == StoredMessage(c, m).attributes.value;
    } else {
      assert c.load(c.dump(m)) == Some(m);
    }
  }

  /**
   * `serialize` rewrites the message it is given: once a message with a
   * binary attribute has been serialized, serializing it again raises
   * TypeError, since its value is now Base85 text.
   */
  lemma SerializeTwiceFails(c: Codec, m: Message, k: nat)
    requires Encoded(c, m).Ok? && m.attributes.Some?
    requires k < |m.attributes.value| && IsBinary(m.attributes.value[k].1)
    ensures Serialized(c, Encoded(c, m).value) == Err(TypeError)
  {
    var d := m.attributes.value;
    var enc := e => EncodeEntry(c, e);
    var d' := MapEntries(d, enc).value;
    assert enc(d[k].1).Ok?;
    assert enc(d'[k].1) == Err(TypeError);
    var r := MapEntries(d', enc);
    assert r.Err?;
    var i :| 0 <= i < |d'| && enc(d'[i].1) == Err(r.error) && forall j :: 0 <= j < i ==> enc(d'[j].1).Ok?;
    assert enc(d[i].1).Ok?;
  }

  // ---------------------------------------------------------------------
  // The writer thread and the reload, as functions of the queue and files
  // ---------------------------------------------------------------------

  /** The storage thread: not started, alive (possibly blocked in `get`), or returned. */
  datatype WriterState = NotStarted | Alive | Finished

  /** Where a run of the writer leaves the files and the queue, and whether the thread returned. */
  datatype DrainResult = DrainResult(files: map<string, string>, rest: seq<Option<Message>>, exited: bool)

  /**
   * `_storageThread`, waiting in `get`, run until it returns or waits on the
   * empty queue again. The item it takes ends the thread when it is the end
   * marker or the shutdown flag is set; otherwise the message is written to
   * the file named by its id, which `open(..., "w")` empties before
   * `serialize` runs, so a message that fails to serialize leaves an empty
   * file and ends the thread with the exception.
   */
  function Drain(c: Codec, shutdown: bool, queue: seq<Option<Message>>, files: map<string, string>): (r: DrainResult)
    ensures |r.rest| <= |queue| && r.rest == queue[|queue| - |r.rest|..]
    ensures !r.exited ==> r.rest == []
    ensures (exists i :: 0 <= i < |queue| && queue[i].None?) ==> r.exited
    ensures shutdown && queue != [] ==> r == DrainResult(files, queue[1..], true)
    decreases |queue|
  {
    if queue == [] then DrainResult(files, [], false)
    else if queue[0].None? || shutdown then DrainResult(files, queue[1..], true)
    else
      var m := queue[0].value;
      match Serialized(c, m)
      case Err(_) => DrainResult(files[m.id := ""], queue[1..], true)
      case Ok(text) =>
        assert forall i :: 1 <= i < |queue| ==> queue[i] == queue[1..][i - 1];
        Drain(c, false, queue[1..], files[m.id := text])
  }

  predicate AllSerialize(c: Codec, ms: seq<Message>) {
    forall i :: 0 <= i < |ms| ==> Serialized(c, ms[i]).Ok?
  }

  /** The files after writing `ms` in order, each under its id. */
  function WriteAll(c: Codec, files: map<string, string>, ms: seq<Message>): map<string, string>
    requires AllSerialize(c, ms)
    decreases |ms|
  {
    if ms == [] then files
    else WriteAll(c, files[ms[0].id := Serialized(c, ms[0]).value], ms[1..])
  }

  /**
   * Whatever is queued ahead of the first end marker is written, in order,
   * and the thread returns leaving what follows the marker in the queue.
   */
  lemma {:induction false} DrainUpToMarker(c: Codec, files: map<string, string>, ms: seq<Message>, rest: seq<Option<Message>>)
    requires AllSerialize(c, ms)
    ensures Drain(c, false, Wrap(ms) + [None] + rest, files) == DrainResult(WriteAll(c, files, ms), rest, true)
    decreases |ms|
  {
    var q := Wrap(ms) + [None] + rest;
    if ms == [] {
      assert q == [None] + rest;
    } else {
      assert q[0] == Some(ms[0]);
      assert q[1..] == Wrap(ms[1..]) + [None] + rest;
      DrainUpToMarker(c, files[ms[0].id := Serialized(c, ms[0]).value], ms[1..], rest);
    }
  }

  /**
   * A file written by `WriteAll` is there exactly when it was there before or
   * some message has its name as id; a file no message names keeps its text.
   */
  lemma {:induction false} WriteAllKeys(c: Codec, files: map<string, string>, ms: seq<Message>, id: Id)
    requires AllSerialize(c, ms)
    ensures id in WriteAll(c, files, ms) <==> id in files || id in IdsOf(ms)
    ensures id !in IdsOf(ms) && id in files ==> WriteAll(c, files, ms)[id] == files[id]
    decreases |ms|
  {
    if ms != [] {
      WriteAllKeys(c, files[ms[0].id := Serialized(c, ms[0]).value], ms[1..], id);
      assert ms == [ms[0]] + ms[1..];
      IdsOfConcat([ms[0]], ms[1..]);
      IdsOfSingleton(ms[0]);
    }
  }

  /** The file named by a message's id holds that message's text when no later message has the same id. */
  lemma {:induction false} WriteAllLast(c: Codec, files: map<string, string>, ms: seq<Message>, i: nat)
    requires AllSerialize(c, ms) && i < |ms|
    requires forall j :: i < j < |ms| ==> ms[j].id != ms[i].id
    ensures ms[i].id in WriteAll(c, files, ms)
    ensures WriteAll(c, files, ms)[ms[i].id] == Serialized(c, ms[i]).value
    decreases |ms|
  {
    var f1 := files[ms[0].id := Serialized(c, ms[0]).value];
    var tail := ms[1..];
    assert AllSerialize(c, tail) by {
      forall j | 0 <= j < |tail| ensures Serialized(c, tail[j]).Ok? {
        assert tail[j] == ms[j + 1];
      }
    }
    if i == 0 {
      assert ms[0].id !in IdsOf(tail) by {
        forall j | 0 <= j < |tail| ensures tail[j].id != ms[0].id {
          assert tail[j] == ms[j + 1];
        }
      }
      WriteAllKeys(c, f1, tail, ms[0].id);
    } else {
      assert tail[i - 1] == ms[i];
      assert forall j :: i - 1 < j < |tail| ==> tail[j].id != tail[i - 1].id by {
        forall j | i - 1 < j < |tail| ensures tail[j].id != tail[i - 1].id {
          assert tail[j] == ms[j + 1];
        }
      }
      WriteAllLast(c, f1, tail, i - 1);
    }
  }

  /** `loadMessages`: the messages of the texts that deserialize, in listing order; the others are skipped. */
  function Loaded(c: Codec, texts: seq<string>): (r: seq<Message>)
    ensures |r| <= |texts|
    decreases |texts|
  {
    if texts == [] then []
    else
      var n := |texts| - 1;
      var prefix := Loaded(c, texts[..n]);
      match Deserialized(c, texts[n])
      case Ok(m) => prefix + [m]
      case Err(_) => prefix
  }

  /** When every text deserializes, each yields its message, in order. */
  lemma {:induction false} LoadedAll(c: Codec, texts: seq<string>)
    requires forall i :: 0 <= i < |texts| ==> Deserialized(c, texts[i]).Ok?
    ensures |Loaded(c, texts)| == |texts|
    ensures forall i :: 0 <= i < |texts| ==> Deserialized(c, texts[i]) == Ok(Loaded(c, texts)[i])
    decreases |texts|
  {
    if texts != [] {
      var n := |texts| - 1;
      var prefix := texts[..n];
      assert forall i :: 0 <= i < |prefix| ==> Deserialized(c, prefix[i]).Ok? by {
        forall i | 0 <= i < |prefix| ensures Deserialized(c, prefix[i]).Ok? {
          assert prefix[i] == texts[i];
        }
      }
      LoadedAll(c, prefix);
      assert Loaded(c, texts) == Loaded(c, prefix) + [Deserialized(c, texts[n]).value];
      forall i | 0 <= i < n ensures Deserialized(c, texts[i]) == Ok(Loaded(c, texts)[i]) {
        assert prefix[i] == texts[i];
      }
    }
  }

  /** One text loads as its message when it deserializes, and as nothing otherwise. */
  lemma LoadedOne(c: Codec, text: string)
    ensures Loaded(c, [text]) == if Deserialized(c, text).Ok? then [Deserialized(c, text).value] else []
  {
    assert [text][..0] == [];
  }

  /** Loading two listings one after the other is loading their concatenation. */
  lemma {:induction false} LoadedConcat(c: Codec, a: seq<string>, b: seq<string>)
    ensures Loaded(c, a + b) == Loaded(c, a) + Loaded(c, b)
    decreases |b|
  {
    if b == [] {
      assert a + b == a;
    } else {
      var n := |b| - 1;
      assert (a + b)[..|a + b| - 1] == a + b[..n];
      assert (a + b)[|a + b| - 1] == b[n];
      LoadedConcat(c, a, b[..n]);
    }
  }

  /** A text that fails to deserialize is skipped, and the texts after it still load. */
  lemma LoadedSkipsFailure(c: Codec, a: seq<string>, text: string, b: seq<string>)
    requires Deserialized(c, text).Err?
    ensures Loaded(c, a + [text] + b) == Loaded(c, a) + Loaded(c, b)
  {
    LoadedConcat(c, a + [text], b);
    LoadedConcat(c, a, [text]);
    LoadedOne(c, text);
  }

  /** The files named in a listing, in that order. */
  function Contents(files: map<string, string>, listing: seq<string>): seq<string>
    requires forall i :: 0 <= i < |listing| ==> listing[i] in files
  {
    seq(|listing|, i requires 0 <= i < |listing| => files[listing[i]])
  }

  /**
   * Messages with distinct ids that the cache can store, written and then
   * loaded by their ids, come back in that order in their stored form.
   */
  lemma SaveThenLoad(c: Codec, files: map<string, string>, ms: seq<Message>)
    requires Lossless(c) && UniqueIds(ms)
    requires forall i :: 0 <= i < |ms| ==> Cacheable(c, ms[i])
    ensures AllSerialize(c, ms)
    ensures var written := WriteAll(c, files, ms);
      var listing := seq(|ms|, i requires 0 <= i < |ms| => ms[i].id);
      && (forall i :: 0 <= i < |listing| ==> listing[i] in written)
      && Loaded(c, Contents(written, listing)) == seq(|ms|, i requires 0 <= i < |ms| => StoredMessage(c, ms[i]))
  {
    forall i | 0 <= i < |ms| ensures Serialized(c, ms[i]).Ok? {
      SerializeRoundTrip(c, ms[i]);
    }
    var written := WriteAll(c, files, ms);
    var listing := seq(|ms|, i requires 0 <= i < |ms| => ms[i].id);
    forall i | 0 <= i < |ms|
      ensures listing[i] in written && written[listing[i]] == Serialized(c, ms[i]).value
    {
      assert forall j :: i < j < |ms| ==> ms[j].id != ms[i].id;
      WriteAllLast(c, files, ms, i);
    }
    var texts := Contents(written, listing);
    forall i | 0 <= i < |texts| ensures Deserialized(c, texts[i]) == Ok(StoredMessage(c, ms[i])) {
      SerializeRoundTrip(c, ms[i]);
    }
    LoadedAll(c, texts);
    var loaded := Loaded(c, texts);
    forall i | 0 <= i < |ms| ensures loaded[i] == StoredMessage(c, ms[i]) {
      assert Deserialized(c, texts[i]) == Ok(loaded[i]);
    }
  }

  /** `serialize`: the encoded attributes, then the JSON text. */
  method Serialize(c: Codec, m: Message) returns (r: Result<string>)
    ensures r == Serialized(c, m)
  {
    var encoded := m;
    if m.attributes.Some? {
      var d := RewriteValues(m.attributes.value, e => EncodeEntry(c, e));
      if d.Err? {
        return Err(d.error);
      }
      encoded := m.(attributes := Some(d.value));
    }
    if !JsonSafe(encoded) {
      return Err(TypeError);
    }
    r := Ok(c.dump(encoded));
  }

  /** `deserialize`: the JSON text parsed, then the attributes decoded. */
  method Deserialize(c: Codec, text: string) returns (r: Result<Message>)
    ensures r == Deserialized(c, text)
  {
    var parsed := c.load(text);
    if parsed.None? {
      return Err(ValueError);
    }
    var m := parsed.value;
    if m.attributes.Some? {
      var d := RewriteValues(m.attributes.value, e => DecodeEntry(c, e));
      if d.Err? {
        return Err(d.error);
      }
      m := m.(attributes := Some(d.value));
    }
    r := Ok(m);
  }

  /**
   * The on-disk cache of one queue: messages are queued by the caller and
   * written by the storage thread, one file per message id under `workdir`.
   * The file system is the map `files` from file name to text.
   */
  class MessageDiskStorage {
    const codec: Codec
    const workdir: seq<string>
    var queue: seq<Option<Message>>
    var shutdown: bool
    var writer: WriterState
    var files: map<string, string>

    constructor(codec: Codec, workdir: seq<string>, files: map<string, string>)
      ensures this.codec == codec && this.workdir == workdir && this.files == files
      ensures queue == [] && !shutdown && writer == NotStarted
    {
      this.codec := codec;
      this.workdir := workdir;
      this.files := files;
      queue := [];
      shutdown := false;
      writer := NotStarted;
    }

    /** `__init__`: the data directory of the queue on this platform, or the `ValueError` of `getDataDir`. */
    static method Create(codec: Codec, platform: string, home: string, queueName: string, files: map<string, string>)
      returns (r: Result<MessageDiskStorage>)
      ensures r.Err? <==> DataDir(platform, home, queueName).Err?
      ensures r.Err? ==> r.error == ValueError
      ensures r.Ok? ==> fresh(r.value) && r.value.workdir == DataDir(platform, home, queueName).value
      ensures r.Ok? ==> r.value.codec == codec && r.value.files == files
      ensures r.Ok? ==> r.value.queue == [] && !r.value.shutdown && r.value.writer == NotStarted
    {
      var dir := DataDir(platform, home, queueName);
      if dir.Err? {
        return Err(dir.error);
      }
      var storage := new MessageDiskStorage(codec, dir.value, files);
      r := Ok(storage);
    }

    /** `saveMessage`: the message joins the back of the queue. */
    method SaveMessage(m: Message)
      modifies this
      ensures queue == old(queue) + [Some(m)]
      ensures shutdown == old(shutdown) && writer == old(writer) && files == old(files)
    {
      queue := queue + [Some(m)];
    }

    /** `stopReceivingJobs`: the end marker joins the back of the queue. */
    method StopReceivingJobs()
      modifies this
      ensures queue == old(queue) + [None]
      ensures shutdown == old(shutdown) && writer == old(writer) && files == old(files)
    {
      queue := queue + [None];
    }

    /**
     * `startReceivingJobs`: a thread starts once; a second start raises
     * `RuntimeError`. The new thread returns at once if the shutdown flag is
     * already set, and otherwise waits for the queue.
     */
    method StartReceivingJobs() returns (r: Result<()>)
      modifies this
      ensures r.Err? <==> old(writer) != NotStarted
      ensures r.Err? ==> r.error == RuntimeError && writer == old(writer)
      ensures r.Ok? ==> writer == (if shutdown then Finished else Alive)
      ensures queue == old(queue) && shutdown == old(shutdown) && files == old(files)
    {
      if writer != NotStarted {
        return Err(RuntimeError);
      }
      writer := if shutdown then Finished else Alive;
      r := Ok(());
    }

    /** The storage thread's loop, over the queue and files it is given. */
    static method WriterLoop(c: Codec, shutdown: bool, queue: seq<Option<Message>>, files: map<string, string>)
      returns (files': map<string, string>, rest: seq<Option<Message>>, exited: bool)
      ensures DrainResult(files', rest, exited) == Drain(c, shutdown, queue, files)
    {
      files', rest, exited := files, queue, false;
      while !exited && rest != []
        invariant Drain(c, shutdown, queue, files)
          == if exited then DrainResult(files', rest, true) else Drain(c, shutdown, rest, files')
        decreases |rest|
      {
        var item := rest[0];
        rest := rest[1..];
        if item.None? || shutdown {
          exited := true;
        } else {
          var m := item.value;
          ghost var before := files';
          files' := files'[m.id := ""];
          var text := Serialize(c, m);
          if text.Err? {
            exited := true;
          } else {
            files' := files'[m.id := text.value];
            assert files' == before[m.id := text.value];
          }
        }
      }
    }

    /** The storage thread scheduled: it works through the queue as `Drain` says. */
    method RunWriter()
      requires writer == Alive
      modifies this
      ensures var d := Drain(codec, shutdown, old(queue), old(files));
        files == d.files && queue == d.rest && writer == (if d.exited then Finished else Alive)
      ensures shutdown == old(shutdown)
      ensures !HasUnfinishedJobs()
    {
      var exited;
      files, queue, exited := WriterLoop(codec, shutdown, queue, files);
      if exited {
        writer := Finished;
      }
    }

    /**
     * `hasUnfinishedJobs`: the thread is alive and the queue is not empty.
     * Items left in the queue of a thread never started or already returned
     * are not jobs anyone will do, and do not count.
     */
    function HasUnfinishedJobs(): (r: bool)
      reads this
      ensures r ==> queue != []
      ensures writer != Alive ==> !r
    {
      writer == Alive && queue != []
    }

    /**
     * `waitPendingJobsDone`: queue the end marker and join the thread, which
     * then works through the queue up to the marker at the latest. Joining a
     * thread never started raises `RuntimeError`.
     */
    method WaitPendingJobsDone() returns (r: Result<()>)
      modifies this
      ensures r.Err? <==> old(writer) == NotStarted
      ensures r.Err? ==> r.error == RuntimeError && writer == NotStarted
      ensures r.Err? || old(writer) == Finished ==> queue == old(queue) + [None] && files == old(files)
      ensures r.Ok? ==> writer == Finished && !HasUnfinishedJobs()
      ensures old(writer) == Alive ==>
        var d := Drain(codec, shutdown, old(queue) + [None], old(files));
        files == d.files && queue == d.rest
      ensures shutdown == old(shutdown)
    {
      StopReceivingJobs();
      if writer == NotStarted {
        return Err(RuntimeError);
      }
      if writer == Alive {
        assert queue[|queue| - 1].None?;
        RunWriter();
      }
      r := Ok(());
    }

    /**
     * `abortPendingJobs`: set the shutdown flag, then wait. The thread
     * returns with the first item it takes, so nothing more is written.
     */
    method AbortPendingJobs() returns (r: Result<()>)
      modifies this
      ensures shutdown && files == old(files)
      ensures r.Err? <==> old(writer) == NotStarted
      ensures r.Err? ==> r.error == RuntimeError && writer == NotStarted && queue == old(queue) + [None]
      ensures r.Ok? ==> writer == Finished
      ensures old(writer) == Alive ==> queue == (old(queue) + [None])[1..]
      ensures old(writer) == Finished ==> queue == old(queue) + [None]
    {
      shutdown := true;
      r := WaitPendingJobsDone();
    }

    /**
     * `loadMessages`: every file of the listing read and deserialized; a
     * file that fails to deserialize is reported and skipped.
     */
    method LoadMessages(listing: seq<string>) returns (ms: seq<Message>)
      requires forall i :: 0 <= i < |listing| ==> listing[i] in files
      ensures ms == Loaded(codec, Contents(files, listing))
    {
      ghost var texts := Contents(files, listing);
      ms := [];
      for i := 0 to |listing|
        invariant ms == Loaded(codec, texts[..i])
      {
        assert texts[..i + 1][..i] == texts[..i];
        var m := Deserialize(codec, files[listing[i]]);
        if m.Ok? {
          ms := ms + [m.value];
        }
      }
      assert texts[..|listing|] == texts;
    }
  }
}
