/** A group that consumes and acknowledges through its own session while any number of publishers and sessions
    work on the same topic file (src/socket/server_event_handler.c:91-163). */
module ReaderRuns {
  import opened Machine
  import opened ChunkStore
  import opened Framing
  import opened Cursors
  import opened FrameLaws
  import opened Broker

  /** `CONSUME` loads the file up to three times, so others may write in between: `Check` is
      `group_has_more_data` or the first load of `consume_packet`, `Finish` the rest. */
  datatype Action =
    | Other(move: Move)
    | Check(s: Sight)
    | Finish(s: Sight, canAlloc: bool)
    | Ack(s1: Sight, s2: Sight, size: Option<size_t>)

  /** The group's cursor; whether a check let it go on; the payloads consumed; for each of them how many frames
      had been passed before it; frames passed in all; successful acks. */
  datatype Reader = Reader(cursor: Cursor, armed: bool, taken: seq<bytes>, at: seq<nat>, passed: nat, acks: nat)

  datatype Scene = Scene(world: World, reader: Reader)

  predicate Possible(sc: Scene, roles: nat -> Role, a: Action) {
    match a
    case Other(m) => Enabled(sc.world, roles, m)
    case Check(_) => true
    case Finish(_, _) => sc.reader.armed
    case Ack(_, _, size) => size.Some? ==> HeaderAt(Content(sc.world), sc.reader.cursor.pointer) == size
  }

  function AfterFinish(r: Reader, o: Outcome<Option<Packet>>): Reader {
    match o.result
    case None => r.(cursor := o.cursor, armed := false)
    case Some(p) => Reader(o.cursor, false, r.taken + [p.data], r.at + [r.passed], r.passed + 1, r.acks)
  }

  function AfterAck(r: Reader, o: Outcome<int>): Reader {
    if o.result == 0 then r.(cursor := o.cursor, passed := r.passed + 1, acks := r.acks + 1)
    else r.(cursor := o.cursor)
  }

  function Act(sc: Scene, roles: nat -> Role, a: Action): Scene {
    var file, r := Content(sc.world), sc.reader;
    match a
    case Other(m) => sc.(world := Next(sc.world, roles, m))
    case Check(s) => sc.(reader := r.(armed := MayConsume(file, s, r.cursor)))
    case Finish(s, canAlloc) => sc.(reader := AfterFinish(r, FinishConsume(file, s, r.cursor, canAlloc)))
    case Ack(s1, s2, size) => sc.(reader := AfterAck(r, AckCommand(file, s1, s2, r.cursor, size)))
  }

  predicate Plays(sc: Scene, roles: nat -> Role, acts: seq<Action>)
    decreases |acts|
  {
    acts == [] || (Possible(sc, roles, acts[0]) && Plays(Act(sc, roles, acts[0]), roles, acts[1..]))
  }

  function End(sc: Scene, roles: nat -> Role, acts: seq<Action>): Scene
    decreases |acts|
  {
    if acts == [] then sc else End(Act(sc, roles, acts[0]), roles, acts[1..])
  }

  /** What the other clients do in a run. */
  function MovesOf(acts: seq<Action>): seq<Move> {
    if acts == [] then [] else (if acts[0].Other? then [acts[0].move] else []) + MovesOf(acts[1..])
  }

  function EventsAdded(roles: nat -> Role, acts: seq<Action>): seq<Event> {
    if acts == [] then []
    else (if acts[0].Other? then EventOf(roles, acts[0].move) else []) + EventsAdded(roles, acts[1..])
  }

  /** An action of the broker that puts a `{}` into the file. */
  predicate Seeds(a: Action) {
    a.Other? && a.move.SaveSeed? && a.move.canOpen
  }

  /** The run of the other clients is a run of the broker. */
  lemma {:induction false} PlayIsRun(sc: Scene, roles: nat -> Role, acts: seq<Action>)
    requires Plays(sc, roles, acts)
    ensures Runs(sc.world, roles, MovesOf(acts))
    ensures Final(sc.world, roles, MovesOf(acts)) == End(sc, roles, acts).world
    decreases |acts|
  {
    if acts != [] {
      MovesStep(acts);
      PlayIsRun(Act(sc, roles, acts[0]), roles, acts[1..]);
    }
  }

  lemma MovesStep(acts: seq<Action>)
    requires acts != []
    ensures acts[0].Other? ==> MovesOf(acts) != [] && MovesOf(acts)[0] == acts[0].move && MovesOf(acts)[1..] == MovesOf(acts[1..])
    ensures !acts[0].Other? ==> MovesOf(acts) == MovesOf(acts[1..])
  {
  }

  /** The events and seeds of a run are those of its moves. */
  lemma {:induction false} MovesTell(roles: nat -> Role, acts: seq<Action>)
    ensures EventsSaved(roles, MovesOf(acts)) == EventsAdded(roles, acts)
    ensures acts != [] && SeedsSaved(MovesOf(acts)) == 0 ==> !Seeds(acts[0]) && SeedsSaved(MovesOf(acts[1..])) == 0
    decreases |acts|
  {
    if acts != [] {
      MovesStep(acts);
      MovesTell(roles, acts[1..]);
    }
  }

  /** The cursor is on the boundary behind the frames passed, and what was taken are published events,
      in order and without repetition, none from before `start`. */
  ghost predicate OnTrack(r: Reader, base: nat, es: seq<Event>, start: nat) {
    && start <= r.passed <= |es| && r.cursor.pointer == Boundary(base, es, r.passed)
    && |r.at| == |r.taken|
    && (forall j :: 0 <= j < |r.at| ==> start <= r.at[j] < r.passed && r.taken[j] == es[r.at[j]])
    && (forall j, k :: 0 <= j < k < |r.at| ==> r.at[j] < r.at[k])
    && r.passed == start + |r.taken| + r.acks
  }

  /** The scene: an existing framed topic, and the reader on track. */
  ghost predicate Good(sc: Scene, roles: nat -> Role, base: nat, es: seq<Event>, start: nat) {
    && Inv(sc.world, roles)
    && sc.world.file.Some? && Framed(sc.world.file.value, base, es)
    && OnTrack(sc.reader, base, es, start)
  }

  lemma OthersKeepTrack(r: Reader, log: bytes, base: nat, es: seq<Event>, more: seq<Event>, start: nat)
    requires Framed(log, base, es) && OnTrack(r, base, es, start)
    ensures OnTrack(r, base, es + more, start)
  {
    FramedGrows(log, base, es, more);
  }

  /** At a boundary the socket `ACK` steps over one frame or does nothing, also when it names the next frame's size. */
  lemma AckCommandSteps(file: bytes, base: nat, es: seq<Event>, i: nat, c: Cursor, s1: Sight, s2: Sight, size: Option<size_t>)
    requires At(file, base, es, i, c)
    requires size.Some? ==> HeaderAt(file, c.pointer) == size
    ensures
      var o := AckCommand(file, s1, s2, c, size);
      && (o.result == 0 ==> i < |es| && o.cursor.pointer == Boundary(base, es, i + 1))
      && (o.result != 0 ==> o.cursor == c)
  {
    HeaderAtFrame(file, base, es, i, c);
    BatchAtBoundary(file, base, es, i, c, 1);
    if s2 != Full {
      BatchUnseen(file, s2, c, 1);
    }
    if i == |es| {
      assert Walk(file, c.pointer, 1).frames == 0 by { WalkFrames(file, base, es, i, c, 1); }
    } else if size.Some? {
      SizedAckAgreesExactly(file, base, es, i, c, size.value);
    }
  }

  lemma AckKeepsTrack(sc: Scene, roles: nat -> Role, base: nat, es: seq<Event>, start: nat, a: Action)
    requires Good(sc, roles, base, es, start) && |sc.world.file.value| < HALF_MOD
    requires a.Ack? && Possible(sc, roles, a)
    ensures OnTrack(Act(sc, roles, a).reader, base, es, start)
  {
    AckCommandSteps(sc.world.file.value, base, es, sc.reader.passed, sc.reader.cursor, a.s1, a.s2, a.size);
  }

  lemma FinishKeepsTrack(sc: Scene, roles: nat -> Role, base: nat, es: seq<Event>, start: nat, a: Action)
    requires Good(sc, roles, base, es, start) && |sc.world.file.value| < HALF_MOD
    requires a.Finish?
    ensures OnTrack(Act(sc, roles, a).reader, base, es, start)
  {
    var r := sc.reader;
    FinishAtBoundary(sc.world.file.value, base, es, r.passed, r.cursor, a.s, a.canAlloc);
  }

  /** One action adds the frames it saved, and keeps the reader on track. */
  lemma ActKeepsGood(sc: Scene, roles: nat -> Role, base: nat, es: seq<Event>, start: nat, a: Action)
    requires Good(sc, roles, base, es, start) && Possible(sc, roles, a) && !Seeds(a) && |Content(sc.world)| < HALF_MOD
    ensures Good(Act(sc, roles, a), roles, base, es + EventsAdded(roles, [a]), start)
  {
    var file := sc.world.file.value;
    assert EventsAdded(roles, [a]) == (if a.Other? then EventOf(roles, a.move) else []) + EventsAdded(roles, []);
    match a
    case Other(m) =>
      MoveKeepsInv(sc.world, roles, m);
      MoveWritesFrames(sc.world, roles, m);
      FramedGrows(file, base, es, EventOf(roles, m));
      OthersKeepTrack(sc.reader, file, base, es, EventOf(roles, m), start);
      assert EventOf(roles, m) + [] == EventOf(roles, m);
    case Check(_) =>
      assert es + EventsAdded(roles, [a]) == es;
    case Finish(_, _) =>
      assert es + EventsAdded(roles, [a]) == es;
      FinishKeepsTrack(sc, roles, base, es, start, a);
    case Ack(_, _, _) =>
      assert es + EventsAdded(roles, [a]) == es;
      AckKeepsTrack(sc, roles, base, es, start, a);
  }

  lemma {:induction false} ContentOnlyGrows(sc: Scene, roles: nat -> Role, acts: seq<Action>)
    ensures |Content(sc.world)| <= |Content(End(sc, roles, acts).world)|
    decreases |acts|
  {
    if acts != [] {
      ContentOnlyGrows(Act(sc, roles, acts[0]), roles, acts[1..]);
    }
  }

  /** Over every interleaving in which no `{}` is saved, and by `SceneIsFramedExactly` that is every one in which
      the log stays framed at all: the group stays on a frame boundary; the consumed events are a duplicate-free,
      in-order selection of the published ones; and the frames passed are the consumed ones and, one each, the
      successful acks, so every event skipped is the doing of an ack. */
  lemma {:induction false} ReaderStaysOnTrack(sc: Scene, roles: nat -> Role, base: nat, es: seq<Event>, start: nat,
                                              acts: seq<Action>)
    requires Good(sc, roles, base, es, start) && Plays(sc, roles, acts) && SeedsSaved(MovesOf(acts)) == 0
    requires |Content(End(sc, roles, acts).world)| < HALF_MOD
    ensures Good(End(sc, roles, acts), roles, base, es + EventsAdded(roles, acts), start)
    decreases |acts|
  {
    if acts == [] {
      assert es + EventsAdded(roles, acts) == es;
    } else {
      var next, rest := Act(sc, roles, acts[0]), acts[1..];
      MovesTell(roles, acts);
      ContentOnlyGrows(sc, roles, acts);
      ActKeepsGood(sc, roles, base, es, start, acts[0]);
      ReaderStaysOnTrack(next, roles, base, es + EventsAdded(roles, [acts[0]]), start, rest);
      assert EventsAdded(roles, [acts[0]]) + EventsAdded(roles, rest) == EventsAdded(roles, acts) by {
        var first := if acts[0].Other? then EventOf(roles, acts[0].move) else [];
        assert [acts[0]][1..] == [] && first + [] == first;
      }
      Assoc(es, EventsAdded(roles, [acts[0]]), EventsAdded(roles, rest));
    }
  }

  lemma {:induction false} PackedLow(at: seq<nat>, start: nat, j: nat)
    requires forall i, k :: 0 <= i < k < |at| ==> at[i] < at[k]
    requires forall i :: 0 <= i < |at| ==> start <= at[i]
    requires j < |at|
    ensures start + j <= at[j]
  {
    if j > 0 {
      PackedLow(at, start, j - 1);
    }
  }

  lemma {:induction false} PackedHigh(at: seq<nat>, passed: nat, j: nat)
    requires forall i, k :: 0 <= i < k < |at| ==> at[i] < at[k]
    requires forall i :: 0 <= i < |at| ==> at[i] < passed
    requires j < |at|
    ensures at[j] <= passed - (|at| - j)
    decreases |at| - j
  {
    if j < |at| - 1 {
      PackedHigh(at, passed, j + 1);
    }
  }

  lemma TakenIsSegment(r: Reader, base: nat, es: seq<Event>, start: nat)
    requires OnTrack(r, base, es, start) && r.acks == 0
    ensures r.taken == es[start..r.passed]
  {
    forall j | 0 <= j < |r.taken| ensures r.taken[j] == es[start + j] {
      PackedLow(r.at, start, j);
      PackedHigh(r.at, r.passed, j);
    }
  }

  /** A run without successful acks skips nothing: the group gets every event from its start on. */
  lemma ConsumeOnlySkipsNothing(sc: Scene, roles: nat -> Role, base: nat, es: seq<Event>, start: nat, acts: seq<Action>)
    requires Good(sc, roles, base, es, start) && Plays(sc, roles, acts) && SeedsSaved(MovesOf(acts)) == 0
    requires |Content(End(sc, roles, acts).world)| < HALF_MOD
    requires End(sc, roles, acts).reader.acks == 0
    ensures
      var r := End(sc, roles, acts).reader;
      var all := es + EventsAdded(roles, acts);
      start <= r.passed <= |all| && r.taken == all[start..r.passed]
  {
    ReaderStaysOnTrack(sc, roles, base, es, start, acts);
    TakenIsSegment(End(sc, roles, acts).reader, base, es + EventsAdded(roles, acts), start);
  }

  lemma EndOfTwo(sc: Scene, roles: nat -> Role, a: Action, b: Action)
    ensures End(sc, roles, [a, b]) == Act(Act(sc, roles, a), roles, b)
  {
    assert [a, b][1..] == [b] && [b][1..] == [];
    assert End(Act(sc, roles, a), roles, [b]) == End(Act(Act(sc, roles, a), roles, b), roles, []);
  }

  /** Where there is a next event, `CONSUME` with nothing failing takes it, and it is the only thing it takes. */
  lemma NextEventIsTaken(sc: Scene, roles: nat -> Role, base: nat, es: seq<Event>, start: nat)
    requires Good(sc, roles, base, es, start) && |Content(sc.world)| < HALF_MOD && sc.reader.passed < |es|
    ensures
      var acts := [Check(Full), Finish(Full, true)];
      var r := End(sc, roles, acts).reader;
      && Plays(sc, roles, acts)
      && r.taken == sc.reader.taken + [es[sc.reader.passed]] && r.acks == sc.reader.acks
      && r.passed == sc.reader.passed + 1 && r.cursor.pointer == Boundary(base, es, sc.reader.passed + 1)
  {
    var file, r := sc.world.file.value, sc.reader;
    HeaderAtFrame(file, base, es, r.passed, r.cursor);
    FinishAtBoundary(file, base, es, r.passed, r.cursor, Full, true);
    EndOfTwo(sc, roles, Check(Full), Finish(Full, true));
    assert [Check(Full), Finish(Full, true)][1..] == [Finish(Full, true)] && [Finish(Full, true)][1..] == [];
    assert Plays(Act(sc, roles, Check(Full)), roles, [Finish(Full, true)]);
  }

  /** The session's documented pattern, `CONSUME` and then `ACK`: the ack does not confirm the event just
      consumed but passes over the next one, which the group never receives. */
  lemma AckSkipsTheNextEvent(sc: Scene, roles: nat -> Role, base: nat, es: seq<Event>, start: nat, s1: Sight)
    requires Good(sc, roles, base, es, start) && |Content(sc.world)| < HALF_MOD
    requires sc.reader.armed && sc.reader.passed + 1 < |es|
    ensures
      var r := End(sc, roles, [Finish(Full, true), Ack(s1, Full, None)]).reader;
      && r.taken == sc.reader.taken + [es[sc.reader.passed]]
      && r.passed == sc.reader.passed + 2
      && r.cursor.pointer == Boundary(base, es, sc.reader.passed + 2)
  {
    var mid := Act(sc, roles, Finish(Full, true));
    FinishAtBoundary(sc.world.file.value, base, es, sc.reader.passed, sc.reader.cursor, Full, true);
    AckCommandSteps(sc.world.file.value, base, es, sc.reader.passed + 1, mid.reader.cursor, s1, Full, None);
    BatchAtBoundary(sc.world.file.value, base, es, sc.reader.passed + 1, mid.reader.cursor, 1);
    EndOfTwo(sc, roles, Finish(Full, true), Ack(s1, Full, None));
  }

  /** The log under the reader stays framed if and only if the other clients save no `{}`. */
  lemma SceneIsFramedExactly(sc: Scene, roles: nat -> Role, base: nat, es: seq<Event>, start: nat, acts: seq<Action>)
    requires Good(sc, roles, base, es, start) && Plays(sc, roles, acts)
    ensures Framed(Content(End(sc, roles, acts).world), base, es + EventsAdded(roles, acts))
       <==> SeedsSaved(MovesOf(acts)) == 0
  {
    PlayIsRun(sc, roles, acts);
    MovesTell(roles, acts);
    LogIsFramedExactly(sc.world, roles, MovesOf(acts), base, es);
  }
}
