/** Many clients, one topic file: every publish request and every session owns its own handle, and each chunk
    operation is one atomic step (src/api/publish_event.c:114-161 and 201-256, src/messaging/create_topic.c:77-133,
    src/socket/server_event_handler.c:215-233). */
module Broker {
  import opened Machine
  import opened ChunkStore
  import opened DeltaSave
  import opened Framing
  import opened SeedPrefix
  import Cursors
  import FrameLaws

  /** What a client does with its handle: publish one body, or load the file again and again. */
  datatype Role = Publisher(body: bytes) | Session

  /** Where a client stands between looking for the file and letting its handle go. */
  datatype Phase = Start | Found | Missed | Empty | Seeded | Ready | Headed | Filled | Over

  datatype Client = Client(phase: Phase, chunk: View)

  datatype World = World(file: Option<bytes>, clients: map<nat, Client>)

  datatype Move =
    | Look(id: nat, opens: bool)                        // topic_exists before opening; it may fail to open
    | LookAgain(id: nat, opens: bool)                   // topic_exists inside create_topic
    | Seed(id: nat, canGrow: bool)                      // chunk_append of `{}`
    | SaveSeed(id: nat, canOpen: bool, canAlloc: bool)  // chunk_save_delta, then the Topic record
    | LoadFile(id: nat, fault: LoadFault)               // chunk_load
    | AppendHeader(id: nat, canGrow: bool)              // first chunk_append of publish_event
    | AppendPayload(id: nat, canGrow: bool)             // second chunk_append
    | SaveEvent(id: nat, canOpen: bool)                 // chunk_save_delta, then topic_free
    | Leave(id: nat)                                    // any earlier failure, or a disconnect

  function Content(w: World): bytes {
    match w.file
    case None => []
    case Some(f) => f
  }

  function ClientOf(w: World, id: nat): Client {
    if id in w.clients then w.clients[id] else Client(Start, View([], 0, 0))
  }

  predicate Publishable(r: Role) {
    r.Publisher? && 1 <= |r.body| <= MAX_EVENT
  }

  predicate Enabled(w: World, roles: nat -> Role, m: Move) {
    var phase := ClientOf(w, m.id).phase;
    match m
    case Look(_, _) => phase == Start
    case LookAgain(_, _) => phase == Missed
    case Seed(_, _) => phase == Empty
    case SaveSeed(_, _, _) => phase == Seeded
    case LoadFile(id, _) => phase == Found || (phase == Ready && roles(id) == Session)
    case AppendHeader(id, _) => phase == Ready && roles(id).Publisher?
    case AppendPayload(_, _) => phase == Headed
    case SaveEvent(_, _) => phase == Filled
    case Leave(_) => true
  }

  /** The client after its move. */
  function Moved(w: World, roles: nat -> Role, m: Move): Client {
    var c := ClientOf(w, m.id);
    match m
    case Look(_, opens) => c.(phase := if w.file.Some? && opens then Found else Missed)
    case LookAgain(_, opens) => if w.file.Some? && opens then c.(phase := Over) else Client(Empty, View([], 0, 0))
    case Seed(_, canGrow) =>
      if AppendCode(c.chunk, SEED, canGrow) != 0 then c.(phase := Over)
      else Client(Seeded, Appended(c.chunk, SEED, canGrow))
    case SaveSeed(_, canOpen, canAlloc) =>
      Client(if canOpen && canAlloc then Ready else Over, Saved(c.chunk, canOpen))
    case LoadFile(id, fault) =>
      var failed := SightOf(c.chunk, Content(w), fault) == Unread;
      Client(if failed && roles(id).Publisher? then Over else Ready, Loaded(c.chunk, Content(w), fault))
    case AppendHeader(id, canGrow) =>
      if !Publishable(roles(id)) || AppendCode(c.chunk, EncodeU32(|roles(id).body|), canGrow) != 0
      then c.(phase := Over)
      else Client(Headed, Appended(c.chunk, EncodeU32(|roles(id).body|), canGrow))
    case AppendPayload(id, canGrow) =>
      if !roles(id).Publisher? || AppendCode(c.chunk, roles(id).body, canGrow) != 0 then c.(phase := Over)
      else Client(Filled, Appended(c.chunk, roles(id).body, canGrow))
    case SaveEvent(_, canOpen) => Client(Over, Saved(c.chunk, canOpen))
    case Leave(_) => c.(phase := Over)
  }

  function FileAfter(w: World, m: Move): Option<bytes> {
    match m
    case SaveSeed(id, true, _) => Some(Content(w) + Pending(ClientOf(w, id).chunk))
    case SaveEvent(id, true) => Some(Content(w) + Pending(ClientOf(w, id).chunk))
    case _ => w.file
  }

  function Next(w: World, roles: nat -> Role, m: Move): World {
    World(FileAfter(w, m), w.clients[m.id := Moved(w, roles, m)])
  }

  predicate Runs(w: World, roles: nat -> Role, trace: seq<Move>)
    decreases |trace|
  {
    trace == [] || (Enabled(w, roles, trace[0]) && Runs(Next(w, roles, trace[0]), roles, trace[1..]))
  }

  function Final(w: World, roles: nat -> Role, trace: seq<Move>): World
    decreases |trace|
  {
    if trace == [] then w else Final(Next(w, roles, trace[0]), roles, trace[1..])
  }

  /** The requests whose save succeeded, in the order of their saves: read off the trace alone. */
  function EventOf(roles: nat -> Role, m: Move): seq<Event> {
    if m.SaveEvent? && m.canOpen && Publishable(roles(m.id)) then
      var e: Event := roles(m.id).body;
      [e]
    else []
  }

  function EventsSaved(roles: nat -> Role, trace: seq<Move>): seq<Event> {
    if trace == [] then [] else EventOf(roles, trace[0]) + EventsSaved(roles, trace[1..])
  }

  function SeedsSaved(trace: seq<Move>): nat {
    if trace == [] then 0
    else (if trace[0].SaveSeed? && trace[0].canOpen then 1 else 0) + SeedsSaved(trace[1..])
  }

  /** What a client's handle holds that is not in the file yet. */
  ghost predicate Orderly(r: Role, c: Client) {
    && c.chunk.persisted <= |c.chunk.ram|
    && match c.phase
       case Start | Found | Missed | Empty | Ready => Pending(c.chunk) == []
       case Seeded => Pending(c.chunk) == SEED
       case Headed => Publishable(r) && Pending(c.chunk) == EncodeU32(|r.body|)
       case Filled => Publishable(r) && Pending(c.chunk) == Frame(r.body)
       case Over => true
  }

  /** Nobody has a handle on a file that is not there. */
  predicate BeforeFile(p: Phase) {
    p in {Start, Missed, Empty, Seeded, Over}
  }

  ghost predicate Inv(w: World, roles: nat -> Role) {
    && (forall id: nat :: Orderly(roles(id), ClientOf(w, id)))
    && (w.file == None ==> forall id: nat :: BeforeFile(ClientOf(w, id).phase))
  }

  lemma AppendKeepsClient(w: World, roles: nat -> Role, m: Move)
    requires Inv(w, roles) && Enabled(w, roles, m) && (m.Seed? || m.AppendHeader? || m.AppendPayload?)
    ensures Orderly(roles(m.id), Moved(w, roles, m))
  {
    var c := ClientOf(w, m.id);
    assert Orderly(roles(m.id), c);
    match m
    case Seed(_, canGrow) =>
      if AppendCode(c.chunk, SEED, canGrow) == 0 {
        PendingGrows(c.chunk, SEED, canGrow);
      }
    case AppendHeader(id, canGrow) =>
      if Publishable(roles(id)) && AppendCode(c.chunk, EncodeU32(|roles(id).body|), canGrow) == 0 {
        PendingGrows(c.chunk, EncodeU32(|roles(id).body|), canGrow);
      }
    case AppendPayload(id, canGrow) =>
      if AppendCode(c.chunk, roles(id).body, canGrow) == 0 {
        PendingGrows(c.chunk, roles(id).body, canGrow);
      }
  }

  lemma OtherKeepsClient(w: World, roles: nat -> Role, m: Move)
    requires Inv(w, roles) && Enabled(w, roles, m) && !(m.Seed? || m.AppendHeader? || m.AppendPayload?)
    ensures Orderly(roles(m.id), Moved(w, roles, m))
  {
    assert Orderly(roles(m.id), ClientOf(w, m.id));
  }

  lemma MoveKeepsClient(w: World, roles: nat -> Role, m: Move)
    requires Inv(w, roles) && Enabled(w, roles, m)
    ensures Orderly(roles(m.id), Moved(w, roles, m))
    ensures FileAfter(w, m) == None ==> BeforeFile(Moved(w, roles, m).phase)
  {
    assert w.file == None ==> BeforeFile(ClientOf(w, m.id).phase);
    if m.Seed? || m.AppendHeader? || m.AppendPayload? {
      AppendKeepsClient(w, roles, m);
    } else {
      OtherKeepsClient(w, roles, m);
    }
  }

  lemma MoveKeepsInv(w: World, roles: nat -> Role, m: Move)
    requires Inv(w, roles) && Enabled(w, roles, m)
    ensures Inv(Next(w, roles, m), roles)
  {
    MoveKeepsClient(w, roles, m);
    var n := Next(w, roles, m);
    forall id: nat
      ensures Orderly(roles(id), ClientOf(n, id))
      ensures n.file == None ==> BeforeFile(ClientOf(n, id).phase)
    {
      if id == m.id {
        assert ClientOf(n, id) == Moved(w, roles, m);
      } else {
        assert ClientOf(n, id) == ClientOf(w, id);
        assert Orderly(roles(id), ClientOf(w, id));
        assert n.file == None ==> w.file == None;
      }
    }
  }

  /** One move writes nothing, one seed, or one whole frame. */
  lemma MoveWrites(w: World, roles: nat -> Role, m: Move)
    requires Inv(w, roles) && Enabled(w, roles, m)
    ensures m.SaveSeed? && m.canOpen ==> FileAfter(w, m) == Some(Content(w) + SEED)
    ensures m.SaveEvent? && m.canOpen ==>
              Publishable(roles(m.id)) && w.file.Some? && FileAfter(w, m) == Some(w.file.value + Frame(roles(m.id).body))
    ensures !((m.SaveSeed? || m.SaveEvent?) && m.canOpen) ==> FileAfter(w, m) == w.file
  {
  }

  lemma MoveWritesFrames(w: World, roles: nat -> Role, m: Move)
    requires Inv(w, roles) && Enabled(w, roles, m) && !(m.SaveSeed? && m.canOpen)
    ensures w.file.Some? ==> FileAfter(w, m) == Some(w.file.value + Frames(EventOf(roles, m)))
    ensures w.file == None ==> FileAfter(w, m) == None && EventOf(roles, m) == []
  {
    MoveWrites(w, roles, m);
    if m.SaveEvent? && m.canOpen {
      FramesOne(roles(m.id).body);
    } else if w.file.Some? {
      assert w.file.value + [] == w.file.value;
    }
  }

  /** A run in which no `{}` is saved appends to the file exactly the frames of the successful requests,
      in save order; a run on a missing file appends nothing. */
  lemma {:induction false} RunWritesFrames(w: World, roles: nat -> Role, trace: seq<Move>)
    requires Inv(w, roles) && Runs(w, roles, trace) && SeedsSaved(trace) == 0
    ensures Inv(Final(w, roles, trace), roles)
    ensures w.file.Some? ==> Final(w, roles, trace).file == Some(w.file.value + Frames(EventsSaved(roles, trace)))
    ensures w.file == None ==> Final(w, roles, trace).file == None && EventsSaved(roles, trace) == []
    decreases |trace|
  {
    if trace == [] {
      if w.file.Some? {
        assert w.file.value + [] == w.file.value;
      }
    } else {
      MoveKeepsInv(w, roles, trace[0]);
      MoveWritesFrames(w, roles, trace[0]);
      RunWritesFrames(Next(w, roles, trace[0]), roles, trace[1..]);
      var first, rest := EventOf(roles, trace[0]), EventsSaved(roles, trace[1..]);
      FramesConcat(first, rest);
      if w.file.Some? {
        Assoc(w.file.value, Frames(first), Frames(rest));
      }
    }
  }

  /** What a move writes: one `{}`, one frame, or nothing. */
  function WrittenBy(roles: nat -> Role, m: Move): bytes {
    if m.SaveSeed? && m.canOpen then SEED else Frames(EventOf(roles, m))
  }

  function Written(roles: nat -> Role, trace: seq<Move>): bytes {
    if trace == [] then [] else WrittenBy(roles, trace[0]) + Written(roles, trace[1..])
  }

  /** Over every run at all, the file grows by exactly the seeds and the frames saved, in save order. */
  lemma {:induction false} RunWrites(w: World, roles: nat -> Role, trace: seq<Move>)
    requires Inv(w, roles) && Runs(w, roles, trace)
    ensures Content(Final(w, roles, trace)) == Content(w) + Written(roles, trace)
    ensures |Written(roles, trace)| == 2 * SeedsSaved(trace) + |Frames(EventsSaved(roles, trace))|
    decreases |trace|
  {
    if trace == [] {
      assert Content(w) + [] == Content(w);
    } else {
      var m := trace[0];
      MoveKeepsInv(w, roles, m);
      if m.SaveSeed? && m.canOpen {
        MoveWrites(w, roles, m);
      } else {
        MoveWritesFrames(w, roles, m);
        assert Content(w) + [] == Content(w);
      }
      RunWrites(Next(w, roles, m), roles, trace[1..]);
      FramesConcat(EventOf(roles, m), EventsSaved(roles, trace[1..]));
      Assoc(Content(w), WrittenBy(roles, m), Written(roles, trace[1..]));
    }
  }

  /** On a framed log, whatever happens, the log stays framed with exactly the successful requests if and only if
      no `{}` is saved. */
  lemma LogIsFramedExactly(w: World, roles: nat -> Role, trace: seq<Move>, base: nat, es: seq<Event>)
    requires Inv(w, roles) && Runs(w, roles, trace) && w.file.Some? && Framed(w.file.value, base, es)
    ensures Final(w, roles, trace).file.Some?
    ensures Framed(Content(Final(w, roles, trace)), base, es + EventsSaved(roles, trace)) <==> SeedsSaved(trace) == 0
    ensures SeedsSaved(trace) == 0 ==>
              Content(Final(w, roles, trace)) == w.file.value + Frames(EventsSaved(roles, trace))
  {
    FileStays(w, roles, trace);
    RunWrites(w, roles, trace);
    FramesConcat(es, EventsSaved(roles, trace));
    if SeedsSaved(trace) == 0 {
      RunWritesFrames(w, roles, trace);
      FramedGrows(w.file.value, base, es, EventsSaved(roles, trace));
    }
  }

  /** No client fails to open the file in both of its looks. */
  ghost predicate OneLookOpens(trace: seq<Move>) {
    forall id: nat :: Look(id, false) in trace ==> LookAgain(id, false) !in trace
  }

  /** Nobody is creating the file, and who missed it will see it at the second look. */
  ghost predicate NoCreator(w: World, trace: seq<Move>) {
    forall id: nat ::
      && ClientOf(w, id).phase !in {Empty, Seeded}
      && (ClientOf(w, id).phase == Missed ==> LookAgain(id, false) !in trace)
  }

  lemma MoveStartsNoCreator(w: World, roles: nat -> Role, trace: seq<Move>)
    requires w.file.Some? && trace != [] && NoCreator(w, trace) && OneLookOpens(trace) && Enabled(w, roles, trace[0])
    ensures NoCreator(Next(w, roles, trace[0]), trace[1..]) && OneLookOpens(trace[1..])
    ensures Next(w, roles, trace[0]).file.Some? && !trace[0].SaveSeed?
  {
    var m, n := trace[0], Next(w, roles, trace[0]);
    assert m in trace && (forall x :: x in trace[1..] ==> x in trace);
    assert ClientOf(w, m.id).phase !in {Empty, Seeded};
    forall id: nat
      ensures ClientOf(n, id).phase !in {Empty, Seeded}
      ensures ClientOf(n, id).phase == Missed ==> LookAgain(id, false) !in trace[1..]
    {
      if id != m.id {
        assert ClientOf(n, id) == ClientOf(w, id);
      } else if m.Look? && !m.opens {
        assert m == Look(id, false);
      }
    }
  }

  /** An existing file gets a `{}` only from a client that failed to open it twice. */
  lemma {:induction false} OneLookKeepsSeedsOut(w: World, roles: nat -> Role, trace: seq<Move>)
    requires w.file.Some? && NoCreator(w, trace) && OneLookOpens(trace) && Runs(w, roles, trace)
    ensures SeedsSaved(trace) == 0
    decreases |trace|
  {
    if trace != [] {
      MoveStartsNoCreator(w, roles, trace);
      OneLookKeepsSeedsOut(Next(w, roles, trace[0]), roles, trace[1..]);
    }
  }

  /** The world before anyone came. */
  function Untouched(file: Option<bytes>): World {
    World(file, map[])
  }

  lemma UntouchedIsOrderly(file: Option<bytes>, roles: nat -> Role)
    ensures Inv(Untouched(file), roles) && forall trace :: NoCreator(Untouched(file), trace)
  {
  }

  /** On an existing topic, for every interleaving of any number of publishers and sessions, with looks, loads,
      allocations and opens failing anywhere, the log is the old one followed by the whole frames of exactly the
      requests whose save succeeded, in save order, if and only if no `{}` was saved. None is saved unless
      both looks of one client failed to open the file. */
  lemma ExistingTopicStaysFramed(file: bytes, base: nat, es: seq<Event>, roles: nat -> Role, trace: seq<Move>)
    requires Framed(file, base, es) && Runs(Untouched(Some(file)), roles, trace)
    ensures
      var log := Content(Final(Untouched(Some(file)), roles, trace));
      && (Framed(log, base, es + EventsSaved(roles, trace)) <==> SeedsSaved(trace) == 0)
      && (SeedsSaved(trace) == 0 ==> log == file + Frames(EventsSaved(roles, trace)))
      && (OneLookOpens(trace) ==> SeedsSaved(trace) == 0)
  {
    UntouchedIsOrderly(Some(file), roles);
    LogIsFramedExactly(Untouched(Some(file)), roles, trace, base, es);
    if OneLookOpens(trace) {
      OneLookKeepsSeedsOut(Untouched(Some(file)), roles, trace);
    }
  }

  /** A client that cannot open an existing file takes it for missing. */
  const BLIND: seq<Move> := [Look(0, false), LookAgain(0, false), Seed(0, true), SaveSeed(0, true, true)]

  /** Two looks that fail to open put a `{}` into the middle of a log. */
  lemma FailedLooksSeedTheLog(file: bytes, roles: nat -> Role, trace: seq<Move>)
    requires trace == BLIND
    ensures Runs(Untouched(Some(file)), roles, trace)
    ensures Content(Final(Untouched(Some(file)), roles, trace)) == file + SEED
  {
    var w0 := Untouched(Some(file));
    var w1 := Next(w0, roles, trace[0]);
    var w2 := Next(w1, roles, trace[1]);
    var w3 := Next(w2, roles, trace[2]);
    var w4 := Next(w3, roles, trace[3]);
    assert [] + SEED == SEED && SEED[0..] == SEED;
    assert Enabled(w0, roles, trace[0]) && Enabled(w1, roles, trace[1]);
    assert Enabled(w2, roles, trace[2]) && Enabled(w3, roles, trace[3]);
    assert Content(w4) == file + SEED;
    Unroll(w3, roles, trace[3..]);
    Unroll(w2, roles, trace[2..]);
    Unroll(w1, roles, trace[1..]);
    Unroll(w0, roles, trace);
  }

  lemma Unroll(w: World, roles: nat -> Role, trace: seq<Move>)
    requires trace != [] && Enabled(w, roles, trace[0]) && Runs(Next(w, roles, trace[0]), roles, trace[1..])
    ensures Runs(w, roles, trace) && Final(w, roles, trace) == Final(Next(w, roles, trace[0]), roles, trace[1..])
  {
  }

  /** Whatever the interleaving, if no `{}` was saved, a reader that drains the topic afterwards gets the old events
      and then exactly the successful requests: none lost, none repeated, none out of order. */
  lemma SavedEventsAreReadBack(file: bytes, base: nat, es: seq<Event>, roles: nat -> Role, trace: seq<Move>, c: Cursors.Cursor)
    requires Framed(file, base, es) && Runs(Untouched(Some(file)), roles, trace) && SeedsSaved(trace) == 0
    requires |Content(Final(Untouched(Some(file)), roles, trace))| < HALF_MOD && c.pointer == base
    ensures FrameLaws.Drain(Content(Final(Untouched(Some(file)), roles, trace)), c) == es + EventsSaved(roles, trace)
  {
    ExistingTopicStaysFramed(file, base, es, roles, trace);
    var log, all := Content(Final(Untouched(Some(file)), roles, trace)), es + EventsSaved(roles, trace);
    BoundaryEnds(log, base, all);
    FrameLaws.DrainInvertsFrames(log, base, all, 0, c);
    assert all[0..] == all;
  }

  /** Every `{}` is saved to a file that is still missing: look-then-create was atomic where it mattered. */
  predicate SeedsMeetNoFile(w: World, roles: nat -> Role, trace: seq<Move>)
    decreases |trace|
  {
    trace == [] ||
    (&& (trace[0].SaveSeed? && trace[0].canOpen ==> w.file == None)
     && SeedsMeetNoFile(Next(w, roles, trace[0]), roles, trace[1..]))
  }

  lemma {:induction false} FileStays(w: World, roles: nat -> Role, trace: seq<Move>)
    requires w.file.Some?
    ensures Final(w, roles, trace).file.Some?
    ensures SeedsMeetNoFile(w, roles, trace) <==> SeedsSaved(trace) == 0
    decreases |trace|
  {
    if trace != [] {
      FileStays(Next(w, roles, trace[0]), roles, trace[1..]);
    }
  }

  /** In a run from a missing file, the first thing written is a seed. */
  lemma {:induction false} OneSeedComesFirst(w: World, roles: nat -> Role, trace: seq<Move>)
    requires w.file == None && Inv(w, roles) && Runs(w, roles, trace) && Final(w, roles, trace).file.Some?
    ensures SeedsSaved(trace) > 0
    ensures SeedsMeetNoFile(w, roles, trace) <==> SeedsSaved(trace) == 1
    ensures SeedsSaved(trace) == 1 ==>
              Final(w, roles, trace).file == Some(SEED + Frames(EventsSaved(roles, trace)))
    decreases |trace|
  {
    if trace != [] {
      var m, n := trace[0], Next(w, roles, trace[0]);
      MoveKeepsInv(w, roles, m);
      if m.SaveSeed? && m.canOpen {
        MoveWrites(w, roles, m);
        assert [] + SEED == SEED;
        FileStays(n, roles, trace[1..]);
        if SeedsSaved(trace[1..]) == 0 {
          RunWritesFrames(n, roles, trace[1..]);
        }
        assert [] + EventsSaved(roles, trace[1..]) == EventsSaved(roles, trace[1..]);
      } else {
        MoveWritesFrames(w, roles, m);
        OneSeedComesFirst(n, roles, trace[1..]);
        assert [] + EventsSaved(roles, trace[1..]) == EventsSaved(roles, trace[1..]);
      }
    }
  }

  /** On a topic that the clients themselves create, the log is framed from offset 2 with exactly the successful
      requests if and only if every `{}` was saved to a file that was still missing. */
  lemma NewTopicIsFramedExactly(roles: nat -> Role, trace: seq<Move>)
    requires Runs(Untouched(None), roles, trace) && Final(Untouched(None), roles, trace).file.Some?
    ensures
      var file := Final(Untouched(None), roles, trace).file.value;
      Framed(file, 2, EventsSaved(roles, trace)) <==> SeedsMeetNoFile(Untouched(None), roles, trace)
  {
    UntouchedIsOrderly(None, roles);
    var file := Final(Untouched(None), roles, trace).file.value;
    OneSeedComesFirst(Untouched(None), roles, trace);
    RunWrites(Untouched(None), roles, trace);
    if SeedsSaved(trace) == 1 {
      assert file[2..] == Frames(EventsSaved(roles, trace));
    }
  }

  /** The requests of one client whose save succeeded. */
  function SavesBy(id: nat, trace: seq<Move>): nat {
    if trace == [] then 0
    else (if trace[0].SaveEvent? && trace[0].canOpen && trace[0].id == id then 1 else 0) + SavesBy(id, trace[1..])
  }

  /** A client saves at most one event, and none once it is over. */
  lemma {:induction false} SavesOnce(w: World, roles: nat -> Role, trace: seq<Move>, id: nat)
    requires Runs(w, roles, trace)
    ensures SavesBy(id, trace) <= if ClientOf(w, id).phase == Over then 0 else 1
    decreases |trace|
  {
    if trace != [] {
      var m, n := trace[0], Next(w, roles, trace[0]);
      SavesOnce(n, roles, trace[1..], id);
      assert ClientOf(n, id) == if m.id == id then Moved(w, roles, m) else ClientOf(w, id);
    }
  }

  /** The move by which a publisher gets on when nothing fails. */
  function Onward(w: World, id: nat): Move {
    match ClientOf(w, id).phase
    case Start => Look(id, true)
    case Missed => LookAgain(id, false)
    case Empty => Seed(id, true)
    case Seeded => SaveSeed(id, true, true)
    case Found => LoadFile(id, NoFault)
    case Ready => AppendHeader(id, true)
    case Headed => AppendPayload(id, true)
    case Filled => SaveEvent(id, true)
    case Over => Leave(id)
  }

  /** The moves that are left for it, the `{}` that it saves among them. */
  function StepsLeft(w: World, id: nat): nat {
    match ClientOf(w, id).phase
    case Start => if w.file.Some? then 5 else 7
    case Missed => 6
    case Empty => 5
    case Seeded => 4
    case Found => 4
    case Ready => 3
    case Headed => 2
    case Filled => 1
    case Over => 0
  }

  function SeedsLeft(w: World, id: nat): nat {
    var p := ClientOf(w, id).phase;
    if p in {Missed, Empty, Seeded} || (p == Start && w.file == None) then 1 else 0
  }

  lemma OnwardGoesOn(w: World, roles: nat -> Role, id: nat)
    requires Publishable(roles(id)) && ClientOf(w, id).phase != Over
    ensures
      var m := Onward(w, id);
      var n := Next(w, roles, m);
      && m.id == id && Enabled(w, roles, m)
      && StepsLeft(n, id) == StepsLeft(w, id) - 1
      && SeedsLeft(n, id) == SeedsLeft(w, id) - (if m.SaveSeed? && m.canOpen then 1 else 0)
      && EventOf(roles, m) == (if StepsLeft(w, id) == 1 then [roles(id).body] else [])
      && (m.SaveEvent? && m.canOpen && m.id == id <==> StepsLeft(w, id) == 1)
      && (ClientOf(n, id).phase == Over <==> StepsLeft(w, id) == 1)
  {
    var m := Onward(w, id);
    assert ClientOf(Next(w, roles, m), id) == Moved(w, roles, m);
  }

  /** The rest of a request to which nothing happens any more. */
  lemma {:induction false} RestOfRequest(w: World, roles: nat -> Role, id: nat) returns (rest: seq<Move>)
    requires Publishable(roles(id)) && ClientOf(w, id).phase != Over
    ensures Runs(w, roles, rest) && |rest| == StepsLeft(w, id) && forall m :: m in rest ==> m.id == id
    ensures EventsSaved(roles, rest) == [roles(id).body] && SeedsSaved(rest) == SeedsLeft(w, id)
    ensures SavesBy(id, rest) == 1
    decreases StepsLeft(w, id)
  {
    var m := Onward(w, id);
    var n := Next(w, roles, m);
    OnwardGoesOn(w, roles, id);
    rest := [];
    if StepsLeft(w, id) > 1 {
      rest := RestOfRequest(n, roles, id);
    }
    assert ([m] + rest)[1..] == rest;
    assert EventsSaved(roles, [m] + rest) == EventOf(roles, m) + EventsSaved(roles, rest);
    rest := [m] + rest;
  }

  /** From every reachable state a request that is not over can still complete by at most seven moves of its own, and
      then the file has grown by exactly its frame: the model does not lose it, nor does it need anyone else. */
  lemma RequestCanComplete(w: World, roles: nat -> Role, id: nat) returns (rest: seq<Move>)
    requires Inv(w, roles) && Publishable(roles(id)) && ClientOf(w, id).phase != Over
    ensures Runs(w, roles, rest) && |rest| <= 7 && forall m :: m in rest ==> m.id == id
    ensures SavesBy(id, rest) == 1
    ensures w.file == None ==> Final(w, roles, rest).file == Some(SEED + Frame(roles(id).body))
    ensures w.file.Some? && ClientOf(w, id).phase !in {Missed, Empty, Seeded} ==>
              Final(w, roles, rest).file == Some(w.file.value + Frame(roles(id).body))
  {
    rest := RestOfRequest(w, roles, id);
    FramesOne(roles(id).body);
    if w.file == None {
      assert BeforeFile(ClientOf(w, id).phase);
      RunWritesFile(w, roles, rest);
      OneSeedComesFirst(w, roles, rest);
    } else if SeedsSaved(rest) == 0 {
      RunWritesFrames(w, roles, rest);
    }
  }

  lemma {:induction false} RunWritesFile(w: World, roles: nat -> Role, trace: seq<Move>)
    requires Runs(w, roles, trace) && SeedsSaved(trace) > 0
    ensures Final(w, roles, trace).file.Some?
    decreases |trace|
  {
    var n := Next(w, roles, trace[0]);
    if n.file.Some? {
      FileStays(n, roles, trace[1..]);
    } else {
      RunWritesFile(n, roles, trace[1..]);
    }
  }

  /** The moves after which a client that wants to publish is out: it sees the file that it was about to create, it
      lacks memory, its load or its open fails, its body is refused, or it is done. */
  predicate Ends(w: World, roles: nat -> Role, m: Move) {
    var v := ClientOf(w, m.id).chunk;
    match m
    case Look(_, _) => false
    case LookAgain(_, opens) => w.file.Some? && opens
    case Seed(_, canGrow) => |v.ram| + 2 > v.capacity && !canGrow
    case SaveSeed(_, canOpen, canAlloc) => !canOpen || !canAlloc
    case LoadFile(_, fault) =>
      fault == CannotTell || (fault == NoMemory && |Content(w)| > v.capacity)
      || (fault.ShortRead? && fault.n < |Content(w)|)
    case AppendHeader(id, canGrow) => !Publishable(roles(id)) || (|v.ram| + HEADER > v.capacity && !canGrow)
    case AppendPayload(id, canGrow) => roles(id).Publisher? && |v.ram| + |roles(id).body| > v.capacity && !canGrow
    case SaveEvent(_, _) => true
    case Leave(_) => true
  }

  /** After a move a publisher can still get its event into the file, by some continuation, if and only if the move was
      none of those; then it can never again. */
  lemma CanPublishExactly(w: World, roles: nat -> Role, m: Move)
    requires Inv(w, roles) && Enabled(w, roles, m) && Publishable(roles(m.id))
    ensures (exists rest :: Runs(Next(w, roles, m), roles, rest) && SavesBy(m.id, rest) == 1) <==> !Ends(w, roles, m)
  {
    var n := Next(w, roles, m);
    assert ClientOf(n, m.id) == Moved(w, roles, m);
    EndsIsOver(w, roles, m);
    if Ends(w, roles, m) {
      forall rest | Runs(n, roles, rest) ensures SavesBy(m.id, rest) != 1 {
        SavesOnce(n, roles, rest, m.id);
      }
    } else {
      var rest := RestOfRequest(n, roles, m.id);
    }
  }

  lemma EndsIsOver(w: World, roles: nat -> Role, m: Move)
    requires Inv(w, roles) && Enabled(w, roles, m) && Publishable(roles(m.id))
    ensures Moved(w, roles, m).phase == Over <==> Ends(w, roles, m)
  {
    assert Orderly(roles(m.id), ClientOf(w, m.id));
  }

  /** Two publishers that both find no file: one save of `{}` lands behind the other. */
  const RACE: seq<Move> := [
    Look(0, true), Look(1, true), LookAgain(0, true), LookAgain(1, true), Seed(0, true), Seed(1, true),
    SaveSeed(0, true, true), SaveSeed(1, true, true)
  ]

  /** The world after the first `i` moves of the race. */
  function RaceWorld(i: nat): World {
    var none, seeded, saved := View([], 0, 0), View(SEED, 0, 1024), View(SEED, 2, 1024);
    match i
    case 0 => Untouched(None)
    case 1 => World(None, map[0 := Client(Missed, none)])
    case 2 => World(None, map[0 := Client(Missed, none), 1 := Client(Missed, none)])
    case 3 => World(None, map[0 := Client(Empty, none), 1 := Client(Missed, none)])
    case 4 => World(None, map[0 := Client(Empty, none), 1 := Client(Empty, none)])
    case 5 => World(None, map[0 := Client(Seeded, seeded), 1 := Client(Empty, none)])
    case 6 => World(None, map[0 := Client(Seeded, seeded), 1 := Client(Seeded, seeded)])
    case 7 => World(Some(SEED), map[0 := Client(Ready, saved), 1 := Client(Seeded, seeded)])
    case _ => World(Some(SEED + SEED), map[0 := Client(Ready, saved), 1 := Client(Ready, saved)])
  }

  lemma RaceMove(roles: nat -> Role, i: nat)
    requires i < |RACE|
    ensures Enabled(RaceWorld(i), roles, RACE[i]) && Next(RaceWorld(i), roles, RACE[i]) == RaceWorld(i + 1)
    ensures EventOf(roles, RACE[i]) == []
  {
    assert Doubled(INITIAL_CAPACITY, 2) == 1024;
    assert SEED[0..] == SEED && [] + SEED == SEED;
    assert Moved(RaceWorld(i), roles, RACE[i]) == ClientOf(RaceWorld(i + 1), RACE[i].id);
  }

  lemma {:induction false} RaceRest(roles: nat -> Role, i: nat)
    requires i <= |RACE|
    ensures Runs(RaceWorld(i), roles, RACE[i..]) && Final(RaceWorld(i), roles, RACE[i..]) == RaceWorld(8)
    ensures EventsSaved(roles, RACE[i..]) == []
    decreases |RACE| - i
  {
    if i < |RACE| {
      RaceMove(roles, i);
      RaceRest(roles, i + 1);
      assert RACE[i..][0] == RACE[i] && RACE[i..][1..] == RACE[i + 1..];
    }
  }

  lemma RaceEnds()
    ensures RaceWorld(0) == Untouched(None) && RaceWorld(8).file == Some(SEED + SEED)
    ensures !Framed(SEED + SEED, 2, [])
  {
    assert (SEED + SEED)[2..] == SEED;
  }

  /** The race can happen, and it leaves a log that is not framed from offset 2. */
  lemma CreationRaceHappens(roles: nat -> Role, start: World, trace: seq<Move>)
    requires start == Untouched(None) && trace == RACE
    ensures Runs(start, roles, trace)
    ensures Final(start, roles, trace).file == Some(SEED + SEED)
    ensures !Framed(SEED + SEED, 2, EventsSaved(roles, trace))
  {
    RaceEnds();
    RaceRest(roles, 0);
    assert trace == RACE[0..];
  }
}
