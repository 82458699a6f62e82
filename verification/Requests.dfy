/** A publish request from its body to the file (src/api/publish_event.c:114-161 and 171-257). */
module Requests {
  import opened Machine
  import opened ChunkStore
  import opened Framing
  import opened FrameLaws
  import opened Publishing
  import Cursors
  import Json
  import Upload
  import opened SeedPrefix
  import Wire

  /** The outcomes of the calls that a request makes. */
  datatype Luck = Luck(
    topicCopied: bool, dataCopied: bool, look: bool, lookAgain: bool,
    fault: LoadFault, seedFits: bool, seedOpens: bool, canAlloc: bool,
    headerFits: bool, dataFits: bool, saveOpens: bool)

  const SMOOTH := Luck(true, true, true, true, NoFault, true, true, true, true, true, true)

  /** The request goes into `create_topic` and past its check: neither look saw the file. */
  predicate Creates(present: bool, luck: Luck) {
    !present || (!luck.look && !luck.lookAgain)
  }

  /** What the request writes before its event. */
  function SeedOf(present: bool, name: string, luck: Luck): bytes {
    if Creates(present, luck) && name != "" && luck.seedFits && luck.seedOpens then SEED else []
  }

  /** The handle that a request gets: the loaded file, what a load that could not open it leaves, or a new topic's. */
  function HandleOf(present: bool, content: bytes, name: string, luck: Luck): Option<View> {
    var unused := View([], 0, 0);
    if present && luck.look then
      if luck.canAlloc && SightOf(unused, content, luck.fault) != Unread then Some(Loaded(unused, content, luck.fault))
      else None
    else if Creates(present, luck) && name != "" && luck.seedFits && luck.seedOpens && luck.canAlloc
    then Some(View(SEED, |SEED|, 1024))
    else None
  }

  /** The request gets a handle, and the event finds memory there and reaches the disk. */
  predicate GoesThrough(present: bool, content: bytes, name: string, data: string, luck: Luck) {
    && HandleOf(present, content, name, luck).Some? && Valid(Wire.Ascii(data)) && luck.saveOpens
    && var v := HandleOf(present, content, name, luck).value;
    HasRoom(|v.ram|, v.capacity, [Item(Wire.Ascii(data), luck.headerFits, luck.dataFits)])
  }

  /** `get_or_create_topic`: every request opens its own handle. */
  method GetOrCreateTopic(file: File, name: string, luck: Luck) returns (t: Topic?)
    requires |file.content| < HALF_MOD / 2
    modifies file
    ensures t != null ==> fresh(t) && t.chunk != null && fresh(t.chunk) && t.chunk.Valid() && fresh(t.chunk.data)
    ensures t != null ==> t.chunk.file == file && Synced(t.chunk.Value())
    ensures t != null ==> t.chunk.size <= |file.content| + 2 && file.present
    ensures file.content == old(file.content) + SeedOf(old(file.present), name, luck)
    ensures file.present == (old(file.present) || SeedOf(old(file.present), name, luck) != [])
    ensures t != null <==> HandleOf(old(file.present), old(file.content), name, luck).Some?
    ensures t != null ==> t.chunk.Value() == HandleOf(old(file.present), old(file.content), name, luck).value
  {
    assert file.content + [] == file.content;
    if file.present && luck.look {
      if !luck.canAlloc {
        return null;
      }
      var chunk := new Chunk(file);
      var code := chunk.Load(luck.fault);
      if code != 0 {
        return null;
      }
      t := new Topic(chunk);
    } else {
      t := CreateTopic(file, name == "", luck.lookAgain, luck.seedFits, luck.seedOpens, luck.canAlloc);
    }
  }

  /** `publish_event_string` on a handle with nothing waiting. */
  method PublishString(t: Topic, data: string, luck: Luck) returns (done: bool)
    requires t.chunk != null && t.chunk.Valid() && Synced(t.chunk.Value())
    requires t.chunk.size + HEADER + |data| <= HALF_MOD
    modifies t.chunk, t.chunk.data, t.chunk.file
    ensures done ==> Valid(Wire.Ascii(data))
    ensures done ==> t.chunk.file.content == old(t.chunk.file.content) + Frame(Wire.Ascii(data))
    ensures !done ==> t.chunk.file.content == old(t.chunk.file.content)
    ensures t.chunk.file.present == (old(t.chunk.file.present) || done)
    ensures done <==> Valid(Wire.Ascii(data)) && luck.saveOpens
                      && HasRoom(old(t.chunk.size), old(t.chunk.capacity),
                                 [Item(Wire.Ascii(data), luck.headerFits, luck.dataFits)])
  {
    var item := Item(Wire.Ascii(data), luck.headerFits, luck.dataFits);
    ghost var s := t.Now();
    PublishIsAtomicOnDisk(s, item, luck.saveOpens);
    PublishSucceedsExactly(s, item, luck.saveOpens);
    assert s.file + Pending(s.chunk) == s.file;
    var code := t.Publish(item, luck.saveOpens);
    done := code == 0;
  }

  /** The C string at the start of a body: it ends before the first terminator. */
  function CText(body: string): (text: string)
    ensures '\0' !in text && text <= body
    ensures '\0' in body ==> |text| < |body| && body[|text|] == '\0'
    ensures '\0' !in body ==> text == body
  {
    if body == [] || body[0] == '\0' then [] else [body[0]] + CText(body[1..])
  }

  /** The two fields of a request; `None` answers 400. */
  function Fields(body: string): Option<(string, string)> {
    match (Json.Extract(CText(body), "topic", Json.SPACES), Json.Extract(CText(body), "data", Json.SPACES))
    case (Some(topic), Some(data)) => Some((topic, data))
    case _ => None
  }

  /** What `handle_publish_request` answers; it refuses an empty body without an answer. */
  datatype Answer = NoAnswer | BadRequest | Failed | Published

  /** `handle_publish_request` once the body is complete. `fileOf` is the file that a topic name leads to. */
  method HandlePublish(body: string, files: set<File>, fileOf: string -> File, luck: Luck) returns (answer: Answer)
    requires |body| <= Upload.MAX_BODY
    requires forall name :: fileOf(name) in files
    requires forall f :: f in files ==> |f.content| < HALF_MOD / 2
    modifies files
    ensures answer == NoAnswer <==> body == ""
    ensures answer == BadRequest <==> body != "" && (Fields(body) == None || !luck.topicCopied || !luck.dataCopied)
    ensures answer == NoAnswer || answer == BadRequest ==> forall f :: f in files ==> f.content == old(f.content)
    ensures answer == Failed || answer == Published ==>
              var (topic, data) := Fields(body).value;
              var file := fileOf(topic);
              && (forall f :: f in files && f != file ==> f.content == old(f.content))
              && (answer == Published ==> Valid(Wire.Ascii(data)))
              && file.present == (old(file.present) || SeedOf(old(file.present), topic, luck) != [] || answer == Published)
              && file.content == old(file.content) + SeedOf(old(file.present), topic, luck)
                                 + (if answer == Published then Frame(Wire.Ascii(data)) else [])
              && (answer == Published <==> GoesThrough(old(file.present), old(file.content), topic, data, luck))
  {
    if body == "" {
      return NoAnswer;
    }
    var text := CText(body);
    var topic := Json.ExtractJsonString(text, "topic", Json.SPACES, luck.topicCopied);
    var data := Json.ExtractJsonString(text, "data", Json.SPACES, luck.dataCopied);
    if topic == None || data == None {
      return BadRequest;
    }
    var file := fileOf(topic.value);
    var t := GetOrCreateTopic(file, topic.value, luck);
    assert file.content + [] == file.content;
    if t == null {
      return Failed;
    }
    ExtractIsShort(text, "data");
    var done := PublishString(t, data.value, luck);
    return if done then Published else Failed;
  }

  lemma {:induction false} StrStrIsShort(s: string, needle: string)
    ensures Json.StrStr(s, needle).Some? ==> |Json.StrStr(s, needle).value| <= |s|
  {
    if s != [] && !(needle <= s) {
      StrStrIsShort(s[1..], needle);
    }
  }

  lemma {:induction false} StrChrIsShort(s: string, c: char)
    ensures Json.StrChr(s, c).Some? ==> |Json.StrChr(s, c).value| <= |s|
  {
    if s != [] && s[0] != c {
      StrChrIsShort(s[1..], c);
    }
  }

  lemma {:induction false} SkipIsShort(s: string, spaces: set<char>)
    ensures |Json.SkipSpaces(s, spaces)| <= |s|
  {
    if s != [] && s[0] in spaces {
      SkipIsShort(s[1..], spaces);
    }
  }

  lemma ExtractIsShort(body: string, key: string)
    ensures Json.Extract(body, key, Json.SPACES).Some? ==> |Json.Extract(body, key, Json.SPACES).value| <= |body|
  {
    StrStrIsShort(body, Json.SearchKey(key));
    var keyPos := Json.StrStr(body, Json.SearchKey(key));
    if keyPos.Some? {
      StrChrIsShort(keyPos.value, ':');
      var colon := Json.StrChr(keyPos.value, ':');
      if colon.Some? {
        SkipIsShort(colon.value[1..], Json.SPACES);
      }
    }
  }

  lemma {:induction false} MembersHaveNoTerminator(fs: seq<Json.Field>)
    requires Json.AllProper(fs, Json.SPACES)
    ensures '\0' !in Json.Members(fs)
  {
    if fs != [] {
      assert forall i :: 0 <= i < |fs[1..]| ==> fs[1..][i] == fs[i + 1];
      MembersHaveNoTerminator(fs[1..]);
    }
  }

  /** A request with the two documented members, in either order and with any white space, names exactly its topic
      and its data, as written between their quotes. */
  lemma RequestFieldsAreExact(lead: string, a: Json.Field, b: Json.Field)
    requires Json.Plain(lead) && Json.Proper(a, Json.SPACES) && Json.Proper(b, Json.SPACES)
    requires (a.key == "topic" && b.key == "data") || (a.key == "data" && b.key == "topic")
    ensures Fields(Json.Document(lead, [a, b]))
         == Some(if a.key == "topic" then (a.value, b.value) else (b.value, a.value))
  {
    Json.SpacesAreNotQuotes(Json.SPACES);
    assert |"topic"| != |"data"|;
    MembersHaveNoTerminator([a, b]);
    Json.TwoMembersAreSafe(lead, a, b, Json.SPACES);
  }

  /** The text says that `key` has the string `v`: from the first quoted `key` on, the next colon is followed by it. */
  ghost predicate Says(text: string, key: string, v: string) {
    exists k: nat :: Json.FirstAt(text, Json.SearchKey(key), k) && Json.SpellsMember(text, k, Json.SPACES, v)
  }

  /** Which bodies are taken, for every body at all: exactly those that say both strings before their first terminator;
      every other is answered 400. */
  lemma FieldsExactly(body: string, topic: string, data: string)
    ensures Fields(body) == Some((topic, data)) <==> Says(CText(body), "topic", topic) && Says(CText(body), "data", data)
  {
    Json.SpacesAreNotQuotes(Json.SPACES);
    Json.ExtractExactly(CText(body), "topic", Json.SPACES, topic);
    Json.ExtractExactly(CText(body), "data", Json.SPACES, data);
  }

  /** A request whose first member is `topic` or `data` is answered 400 if that member's value is not a string
      literal, whatever follows. */
  lemma NonStringIsBadRequest(lead: string, key: string, gap: string, rest: string)
    requires Json.Plain(lead) && Json.Plain(gap) && (key == "topic" || key == "data") && '\0' !in rest
    requires forall v :: !Json.SpellsString(rest, Json.SPACES, v)
    ensures Fields(lead + ([Json.QUOTE] + key + [Json.QUOTE] + gap + ([':'] + rest))) == None
  {
    Json.SpacesAreNotQuotes(Json.SPACES);
    var body := lead + ([Json.QUOTE] + key + [Json.QUOTE] + gap + ([':'] + rest));
    assert '\0' !in key;
    assert CText(body) == body;
    var found := Json.Extract(body, key, Json.SPACES);
    if found.Some? {
      Json.FirstMemberExactly(lead, key, gap, rest, Json.SPACES, found.value);
    }
  }

  /** So are a number, a list, a bare word, nothing at all, or a string that is never closed in place of a string, as in
      `{"topic":5,"data":"x"}`. */
  lemma NumberIsBadRequest(lead: string, key: string, gap: string, rest: string)
    requires Json.Plain(lead) && Json.Plain(gap) && (key == "topic" || key == "data") && '\0' !in rest
    requires rest == [] || (rest[0] !in Json.SPACES && (rest[0] != Json.QUOTE || Json.QUOTE !in rest[1..]))
    ensures Fields(lead + ([Json.QUOTE] + key + [Json.QUOTE] + gap + ([':'] + rest))) == None
  {
    Json.SpacesAreNotQuotes(Json.SPACES);
    forall v ensures !Json.SpellsString(rest, Json.SPACES, v) {
      Json.ValueBehindExactly(rest, Json.SPACES, v);
    }
    NonStringIsBadRequest(lead, key, gap, rest);
  }

  /** A request to which nothing happens is published, on a topic that is there or not, when its topic has a name and
      its data fits an event; on a topic that is there it needs memory for the handle and, as the loaded block is
      full, for both parts of the event. */
  lemma SmoothRequestsGoThrough(present: bool, content: bytes, name: string, data: string)
    ensures GoesThrough(present, content, name, data, SMOOTH) <==> (present || name != "") && 1 <= |data| <= 10485760
    ensures forall luck: Luck :: present && luck.look && luck.fault == NoFault && (!luck.headerFits || !luck.canAlloc) ==>
              !GoesThrough(present, content, name, data, luck)
  {
    var item := Item(Wire.Ascii(data), true, true);
    var v := HandleOf(present, content, name, SMOOTH);
    assert |item.data| == |data|;
    if v.Some? {
      RoomIsThere(|v.value.ram|, v.value.capacity, [item]);
    }
  }

  /** What a successful request adds is what readers get: after it, draining a framed topic returns the
      old events and then the data. */
  lemma PublishedDataIsRead(file: bytes, base: nat, es: seq<Event>, data: string, c: Cursors.Cursor)
    requires Framed(file, base, es) && Valid(Wire.Ascii(data)) && c.pointer == base
    requires |file + Frame(Wire.Ascii(data))| < HALF_MOD
    ensures Drain(file + Frame(Wire.Ascii(data)), c) == es + [Wire.Ascii(data)]
  {
    var e: Event := Wire.Ascii(data);
    FramesOne(e);
    FramedGrows(file, base, es, [e]);
    BoundaryEnds(file + Frame(e), base, es + [e]);
    DrainInvertsFrames(file + Frame(e), base, es + [e], 0, c);
    assert (es + [e])[0..] == es + [e];
  }
}
