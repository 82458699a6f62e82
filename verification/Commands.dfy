/** The `CONSUME` and `ACK` commands, and a session that serves them while others write to the topic
    (src/socket/server_event_handler.c:91-163, 295-325). */
module Commands {
  import opened Machine
  import opened ChunkStore
  import opened Framing
  import opened FrameLaws
  import opened Publishing
  import opened Groups
  import opened Wire
  import C = Cursors

  /** The environment of a `CONSUME`: the faults of its loads, memory, and what the network makes of the packet. */
  datatype Env = Env(fault0: LoadFault, fault1: LoadFault, fault2: LoadFault, canAlloc: bool, header: int, pieces: seq<int>)

  /** What a command leaves: the group's handle and cursor, what was said, and the result code. */
  datatype Handled = Handled(chunk: View, cursor: C.Cursor, said: Utterance, code: int)

  /** `handle_consume_command` for a group attached to the session's topic. */
  function ConsumeHandled(file: bytes, v: View, c: C.Cursor, env: Env): Handled {
    var v0 := Loaded(v, file, env.fault0);
    if !C.HasMore(file, SightOf(v, file, env.fault0), c) then Handled(v0, c, Said(NoData), 0)
    else
      var o := C.ConsumeFrom(file, v0, c, env.fault1, env.fault2, env.canAlloc);
      var after := C.ViewAfterConsume(file, v0, c, env.fault1, env.fault2);
      match o.result
      case None => Handled(after, o.cursor, Said(NoPacket), 0)
      case Some(p) =>
        Handled(after, o.cursor, Sent(p.data, env.header, env.pieces), if Whole(p.data, env.header, env.pieces) then 0 else -1)
  }

  /** The handle after an ack by size. */
  function ViewAfterSized(file: bytes, v: View, size: Option<size_t>, fault: LoadFault): View {
    if size.Some? && size.value != 0 then Loaded(v, file, fault) else v
  }

  /** `handle_ack_command`; `size` is the `packet_size` that the command carries, after `atoi` and the cast. */
  function AckHandled(file: bytes, v: View, c: C.Cursor, size: Option<size_t>, fault1: LoadFault, fault2: LoadFault): Handled {
    var v1 := ViewAfterSized(file, v, size, fault1);
    var o := C.AckCommand(file, SightOf(v, file, fault1), SightOf(v1, file, fault2), c, size);
    var bySize := size.Some? && C.AckBySize(file, SightOf(v, file, fault1), c, size.value).result == 0;
    Handled(if bySize then v1 else Loaded(v1, file, fault2), o.cursor,
            Said(if o.result == 0 then Acked else NotAcked), o.result)
  }

  /** The objects behind the group and the topic of a session. */
  ghost function Behind(group: Group?, topic: Topic?): set<object>
    reads if topic == null then {} else {topic.chunk}
    reads if group == null || group.attachedTopic == null then {} else {group.attachedTopic.chunk}
  {
    (if group == null then {} else {group} + Group.Touched(group.attachedTopic)) + Group.Touched(topic)
  }

  ghost predicate AllReady(group: Group?, topic: Topic?)
    reads if topic == null then {} else {topic.chunk}
    reads if group == null || group.attachedTopic == null then {} else {group.attachedTopic.chunk}
  {
    Group.Ready(topic) && (group != null ==> Group.Ready(group.attachedTopic))
  }

  /** `handle_consume_command` */
  method HandleConsume(socket: Socket, group: Group?, topic: Topic?, env: Env) returns (code: int)
    requires AllReady(group, topic)
    modifies socket, Behind(group, topic)
    ensures AllReady(group, topic) && fresh(Behind(group, topic) - old(Behind(group, topic)))
    ensures group == null || topic == null ==> code == -1 && socket.out == old(socket.out) + ReplyBytes(NotReady)
    ensures group != null && topic != null && !group.Serves(topic) ==>
              && code == 0 && group.Place() == old(group.Place())
              && socket.out == old(socket.out) + ReplyBytes(if old(Shows(group, env.fault0)) then NoPacket else NoData)
    ensures group != null && group.Serves(topic) ==>
              var h := ConsumeHandled(topic.chunk.file.content, old(topic.chunk.Value()), old(group.Place()), env);
              && topic.chunk.Value() == h.chunk && group.Place() == h.cursor
              && socket.out == old(socket.out) + Uttered(h.said) && code == h.code
  {
    if group == null || topic == null {
      socket.Reply(NotReady);
      return -1;
    }
    var more := group.HasMore(env.fault0);
    if !more {
      socket.Reply(NoData);
      return 0;
    }
    var packet := group.Consume(topic, env.fault1, env.fault2, env.canAlloc);
    if packet == None {
      socket.Reply(NoPacket);
      return 0;
    }
    code := SendPacket(socket, packet.value.data, env.header, env.pieces);
  }

  /** The data check of a group on its own topic. */
  ghost predicate Shows(group: Group, fault: LoadFault)
    requires Group.Ready(group.attachedTopic)
    reads group
    reads if group.attachedTopic == null then {} else {group.attachedTopic.chunk}
    reads if group.attachedTopic == null || group.attachedTopic.chunk == null then {}
          else {group.attachedTopic.chunk.data, group.attachedTopic.chunk.file}
  {
    && group.Serves(group.attachedTopic)
    && C.HasMore(group.attachedTopic.chunk.file.content, Group.SightIn(group.attachedTopic, fault), group.Place())
  }

  /** The two acks that `handle_ack_command` tries. */
  method AckSizeThenFrame(group: Group, topic: Topic, size: Option<size_t>, fault1: LoadFault, fault2: LoadFault)
    returns (code: int)
    requires Group.Ready(topic)
    modifies group, Group.Touched(topic)
    ensures Group.Ready(topic) && fresh(Group.Touched(topic) - old(Group.Touched(topic)))
    ensures !group.Serves(topic) ==> code == -1 && group.Place() == old(group.Place())
    ensures group.Serves(topic) ==>
              var h := AckHandled(topic.chunk.file.content, old(topic.chunk.Value()), old(group.Place()), size, fault1, fault2);
              topic.chunk.Value() == h.chunk && group.Place() == h.cursor && code == h.code
  {
    ghost var file, v, c := if topic.chunk == null then [] else topic.chunk.file.content,
                            if topic.chunk == null then View([], 0, 0) else topic.chunk.Value(), group.Place();
    if size.Some? {
      code := group.AckBySize(topic, size.value, fault1);
      assert group.Serves(topic) ==> topic.chunk.Value() == ViewAfterSized(file, v, size, fault1);
      if code == 0 {
        return 0;
      }
      assert group.Serves(topic) ==> group.Place() == c;
    }
    code := group.AckBatch(topic, 1, fault2);
  }

  /** `handle_ack_command` */
  method HandleAck(socket: Socket, group: Group?, topic: Topic?, size: Option<size_t>, fault1: LoadFault, fault2: LoadFault)
    returns (code: int)
    requires AllReady(group, topic)
    modifies socket, Behind(group, topic)
    ensures AllReady(group, topic) && fresh(Behind(group, topic) - old(Behind(group, topic)))
    ensures group == null || topic == null ==> code == -1 && socket.out == old(socket.out) + ReplyBytes(NotSet)
    ensures group != null && topic != null && !group.Serves(topic) ==>
              && code == -1 && group.Place() == old(group.Place())
              && socket.out == old(socket.out) + ReplyBytes(NotAcked)
    ensures group != null && group.Serves(topic) ==>
              var h := AckHandled(topic.chunk.file.content, old(topic.chunk.Value()), old(group.Place()), size, fault1, fault2);
              && topic.chunk.Value() == h.chunk && group.Place() == h.cursor
              && socket.out == old(socket.out) + Uttered(h.said) && code == h.code
  {
    if group == null || topic == null {
      socket.Reply(NotSet);
      return -1;
    }
    code := AckSizeThenFrame(group, topic, size, fault1, fault2);
    socket.Reply(if code == 0 then Acked else NotAcked);
  }

  /** What a session meets: its two reading commands, replies to other commands, and bytes that others append to the
      topic file in between. */
  datatype Request =
    | AskConsume(env: Env)
    | AskAck(size: Option<size_t>, fault1: LoadFault, fault2: LoadFault)
    | Told(answer: Answer)
    | Meanwhile(b: bytes)

  datatype Desk = Desk(file: bytes, chunk: View, cursor: C.Cursor, said: seq<Utterance>)

  function Serve(d: Desk, r: Request): Desk {
    match r
    case AskConsume(env) =>
      var h := ConsumeHandled(d.file, d.chunk, d.cursor, env);
      Desk(d.file, h.chunk, h.cursor, d.said + [h.said])
    case AskAck(size, fault1, fault2) =>
      var h := AckHandled(d.file, d.chunk, d.cursor, size, fault1, fault2);
      Desk(d.file, h.chunk, h.cursor, d.said + [h.said])
    case Told(a) => d.(said := d.said + [Said(a)])
    case Meanwhile(b) => d.(file := d.file + b)
  }

  function ServeAll(d: Desk, rs: seq<Request>): Desk
    decreases |rs|
  {
    if rs == [] then d else Serve(ServeAll(d, rs[..|rs| - 1]), rs[|rs| - 1])
  }

  /** The desk is what the objects hold, and its speech is what went out after `before`. */
  ghost predicate Sits(d: Desk, socket: Socket, group: Group, topic: Topic, before: bytes)
    requires topic.chunk != null && topic.chunk.Valid()
    reads socket, group, topic.chunk, topic.chunk.data, topic.chunk.file
  {
    && d.file == topic.chunk.file.content && d.chunk == topic.chunk.Value() && d.cursor == group.Place()
    && socket.out == before + Speech(d.said)
  }

  lemma {:induction false} SpeechGrows(us: seq<Utterance>, u: Utterance, before: bytes)
    ensures before + Speech(us + [u]) == before + Speech(us) + Uttered(u)
    decreases |us|
  {
    if us == [] {
      assert [] + [u] == [u] && [u][1..] == [];
      assert Speech([u]) == Uttered(u) + [];
      assert before + [] == before;
    } else {
      assert (us + [u])[1..] == us[1..] + [u];
      SpeechGrows(us[1..], u, before + Uttered(us[0]));
      Assoc(before, Uttered(us[0]), Speech(us[1..]));
      Assoc(before, Uttered(us[0]), Speech(us[1..] + [u]));
    }
  }

  method TurnConsume(socket: Socket, group: Group, topic: Topic, env: Env, ghost d: Desk, ghost before: bytes)
    requires group.Serves(topic) && topic.chunk.Valid() && Sits(d, socket, group, topic, before)
    modifies socket, group, topic.chunk, topic.chunk.data
    ensures topic.chunk.Valid() && (topic.chunk.data == old(topic.chunk.data) || fresh(topic.chunk.data))
    ensures Sits(Serve(d, AskConsume(env)), socket, group, topic, before)
  {
    SpeechGrows(d.said, ConsumeHandled(d.file, d.chunk, d.cursor, env).said, before);
    var code := HandleConsume(socket, group, topic, env);
  }

  method TurnAck(socket: Socket, group: Group, topic: Topic, size: Option<size_t>, fault1: LoadFault, fault2: LoadFault,
                 ghost d: Desk, ghost before: bytes)
    requires group.Serves(topic) && topic.chunk.Valid() && Sits(d, socket, group, topic, before)
    modifies socket, group, topic.chunk, topic.chunk.data
    ensures topic.chunk.Valid() && (topic.chunk.data == old(topic.chunk.data) || fresh(topic.chunk.data))
    ensures Sits(Serve(d, AskAck(size, fault1, fault2)), socket, group, topic, before)
  {
    SpeechGrows(d.said, AckHandled(d.file, d.chunk, d.cursor, size, fault1, fault2).said, before);
    var code := HandleAck(socket, group, topic, size, fault1, fault2);
  }

  /** One turn of the command loop in `handle_client_session`, for a session whose group serves its topic. */
  method OneTurn(socket: Socket, group: Group, topic: Topic, r: Request, ghost d: Desk, ghost before: bytes)
    requires group.Serves(topic) && topic.chunk.Valid() && Sits(d, socket, group, topic, before)
    modifies socket, group, topic.chunk, topic.chunk.data, topic.chunk.file
    ensures topic.chunk.Valid() && (topic.chunk.data == old(topic.chunk.data) || fresh(topic.chunk.data))
    ensures Sits(Serve(d, r), socket, group, topic, before)
  {
    match r
    case AskConsume(env) =>
      TurnConsume(socket, group, topic, env, d, before);
    case AskAck(size, fault1, fault2) =>
      TurnAck(socket, group, topic, size, fault1, fault2, d, before);
    case Told(a) =>
      SpeechGrows(d.said, Said(a), before);
      socket.Reply(a);
    case Meanwhile(b) =>
      topic.chunk.file.content := topic.chunk.file.content + b;
  }

  /** The command loop: everything that goes out is the speech of the served requests, in order. */
  method ServeSession(socket: Socket, group: Group, topic: Topic, rs: seq<Request>) returns (ghost d: Desk)
    requires group.Serves(topic) && topic.chunk.Valid()
    modifies socket, group, topic.chunk, topic.chunk.data, topic.chunk.file
    ensures topic.chunk.Valid()
    ensures d == ServeAll(Desk(old(topic.chunk.file.content), old(topic.chunk.Value()), old(group.Place()), []), rs)
    ensures Sits(d, socket, group, topic, old(socket.out))
  {
    ghost var start := Desk(topic.chunk.file.content, topic.chunk.Value(), group.Place(), []);
    ghost var before := socket.out;
    d := start;
    assert before + [] == before;
    for i := 0 to |rs|
      invariant topic.chunk.Valid() && (topic.chunk.data == old(topic.chunk.data) || fresh(topic.chunk.data))
      invariant d == ServeAll(start, rs[..i]) && Sits(d, socket, group, topic, before)
    {
      assert rs[..i + 1][..i] == rs[..i];
      OneTurn(socket, group, topic, rs[i], d, before);
      d := Serve(d, rs[i]);
    }
    assert rs[..|rs|] == rs;
  }

  /** The bytes of a whole session are the stream of what it meant to say if and only if the network took every
      packet whole; a cut packet is followed by whatever the session says next. */
  lemma SessionIsStreamExactly(d: Desk, rs: seq<Request>)
    ensures Speech(ServeAll(d, rs).said) == Stream(AllMeant(ServeAll(d, rs).said)) <==> AllComplete(ServeAll(d, rs).said)
  {
    SpeechIsStreamExactly(ServeAll(d, rs).said);
  }

  /** What `CONSUME` says at boundary `i` of a framed log, for every fault: event `i` as the network takes it, and then
      the group stands behind it, exactly when there is such an event, all three loads show the file and
      memory is there. Otherwise it says so and the group stays. */
  lemma ConsumeSaysNextExactly(file: bytes, base: nat, es: seq<Event>, i: nat, v: View, c: C.Cursor, env: Env)
    requires At(file, base, es, i, c)
    ensures
      var v0 := Loaded(v, file, env.fault0);
      var v1 := Loaded(v0, file, env.fault1);
      var more := i < |es| && SightOf(v, file, env.fault0) == Full;
      var h := ConsumeHandled(file, v, c, env);
      if more && SightOf(v0, file, env.fault1) == Full && SightOf(v1, file, env.fault2) == Full && env.canAlloc
      then && h.said == Sent(es[i], env.header, env.pieces) && h.cursor.pointer == Boundary(base, es, i + 1)
           && h.code == if Whole(es[i], env.header, env.pieces) then 0 else -1
      else h.cursor == c && h.code == 0 && h.said == Said(if more then NoPacket else NoData)
  {
    var v0 := Loaded(v, file, env.fault0);
    HeaderAtFrame(file, base, es, i, c);
    ConsumeAtBoundary(file, base, es, i, c, SightOf(v0, file, env.fault1),
                      SightOf(Loaded(v0, file, env.fault1), file, env.fault2), env.canAlloc);
  }

  /** The reply to `ACK` and its code go together, on any file and for every fault; a refusal leaves the group alone. */
  lemma AckSaysWhatItDid(file: bytes, v: View, c: C.Cursor, size: Option<size_t>, fault1: LoadFault, fault2: LoadFault)
    ensures
      var h := AckHandled(file, v, c, size, fault1, fault2);
      && (h.said == Said(Acked) <==> h.code == 0) && (h.said == Said(NotAcked) <==> h.code == -1)
      && (h.code == 0 || h.code == -1)
  {
  }

  /** At boundary `i` of a framed log, `ACK` without a size or with that of the next event passes over event `i` and says
      so exactly when there is one and the load shows the file; otherwise it says that it failed and the
      group stays. */
  lemma AckSaysExactly(file: bytes, base: nat, es: seq<Event>, i: nat, v: View, c: C.Cursor, named: bool,
                       fault1: LoadFault, fault2: LoadFault)
    requires At(file, base, es, i, c) && (named ==> i < |es|)
    ensures
      var size := if named then Some(|es[i]|) else None;
      var sized := named && SightOf(v, file, fault1) == Full;
      var h := AckHandled(file, v, c, size, fault1, fault2);
      if i < |es| && (sized || SightOf(ViewAfterSized(file, v, size, fault1), file, fault2) == Full)
      then h.said == Said(Acked) && h.code == 0 && h.cursor.pointer == Boundary(base, es, i + 1)
      else h.said == Said(NotAcked) && h.code == -1 && h.cursor == c
  {
    var size := if named then Some(|es[i]|) else None;
    var s1, s2 := SightOf(v, file, fault1), SightOf(ViewAfterSized(file, v, size, fault1), file, fault2);
    HeaderAtFrame(file, base, es, i, c);
    BatchAtBoundary(file, base, es, i, c, 1);
    AckSaysWhatItDid(file, v, c, size, fault1, fault2);
    if s2 != Full {
      BatchUnseen(file, s2, c, 1);
    } else if i == |es| {
      WalkFrames(file, base, es, i, c, 1);
    }
    if named {
      SizedAckAgreesExactly(file, base, es, i, c, |es[i]|);
      if s1 != Full {
        assert C.AckBySize(file, s1, c, |es[i]|) == C.Outcome(c, -1);
      }
    }
  }

  /** What a session with nothing failing asks, while others publish in between. */
  datatype Ask = Next(header: int, pieces: seq<int>) | Pass | Hear(answer: Answer) | Publish(more: seq<Event>)

  function RequestOf(a: Ask): Request {
    match a
    case Next(header, pieces) => AskConsume(Env(NoFault, NoFault, NoFault, true, header, pieces))
    case Pass => AskAck(None, NoFault, NoFault)
    case Hear(answer) => Told(answer)
    case Publish(more) => Meanwhile(Frames(more))
  }

  function RequestsOf(asks: seq<Ask>): (rs: seq<Request>)
    ensures |rs| == |asks|
  {
    if asks == [] then [] else RequestsOf(asks[..|asks| - 1]) + [RequestOf(asks[|asks| - 1])]
  }

  /** The service as a queue: events, how many of them the group has behind it, and what it was told. */
  datatype Queue = Queue(events: seq<Event>, passed: nat, said: seq<Utterance>)

  function Answered(q: Queue, a: Ask): Queue {
    match a
    case Next(header, pieces) =>
      if q.passed < |q.events| then Queue(q.events, q.passed + 1, q.said + [Sent(q.events[q.passed], header, pieces)])
      else q.(said := q.said + [Said(NoData)])
    case Pass =>
      if q.passed < |q.events| then q.(passed := q.passed + 1, said := q.said + [Said(Acked)])
      else q.(said := q.said + [Said(NotAcked)])
    case Hear(answer) => q.(said := q.said + [Said(answer)])
    case Publish(more) => q.(events := q.events + more)
  }

  function AllAnswered(q: Queue, asks: seq<Ask>): Queue {
    if asks == [] then q else Answered(AllAnswered(q, asks[..|asks| - 1]), asks[|asks| - 1])
  }

  /** The desk holds the queue: its file is framed with the events, and its cursor is behind those passed. */
  ghost predicate Holds(d: Desk, base: nat, q: Queue) {
    At(d.file, base, q.events, q.passed, d.cursor) && d.said == q.said
  }

  lemma ServeIsAnswer(d: Desk, base: nat, q: Queue, a: Ask)
    requires Holds(d, base, q) && |Serve(d, RequestOf(a)).file| < HALF_MOD
    ensures Holds(Serve(d, RequestOf(a)), base, Answered(q, a))
  {
    match a
    case Next(header, pieces) =>
      ConsumeSaysNextExactly(d.file, base, q.events, q.passed, d.chunk, d.cursor,
                             Env(NoFault, NoFault, NoFault, true, header, pieces));
    case Pass =>
      AckSaysExactly(d.file, base, q.events, q.passed, d.chunk, d.cursor, false, NoFault, NoFault);
    case Hear(_) =>
    case Publish(more) =>
      FramedGrows(d.file, base, q.events, more);
  }

  /** Serving a session refines the queue, for every sequence of commands and publishes in any order: what the client is
      told is the queue's answers, so `CONSUME`s get the events one after the other, each event at most
      once, and only an `ACK` skips one. */
  lemma {:induction false} SessionIsQueue(d: Desk, base: nat, q: Queue, asks: seq<Ask>)
    requires Holds(d, base, q) && |ServeAll(d, RequestsOf(asks)).file| < HALF_MOD
    ensures Holds(ServeAll(d, RequestsOf(asks)), base, AllAnswered(q, asks))
    decreases |asks|
  {
    if asks != [] {
      var front, last := asks[..|asks| - 1], asks[|asks| - 1];
      assert RequestsOf(asks)[..|asks| - 1] == RequestsOf(front);
      SessionIsQueue(d, base, q, front);
      ServeIsAnswer(ServeAll(d, RequestsOf(front)), base, AllAnswered(q, front), last);
    }
  }

  predicate OnlyNext(asks: seq<Ask>) {
    forall k :: 0 <= k < |asks| ==> asks[k].Next?
  }

  /** In particular `n` `CONSUME`s say the next `n` events in order. */
  lemma {:induction false} ConsumesSayEvents(q: Queue, asks: seq<Ask>)
    requires OnlyNext(asks) && q.passed + |asks| <= |q.events|
    ensures
      var end := AllAnswered(q, asks);
      && end.events == q.events && end.passed == q.passed + |asks|
      && |end.said| == |q.said| + |asks| && end.said[..|q.said|] == q.said
      && forall k :: 0 <= k < |asks| ==>
           end.said[|q.said| + k] == Sent(q.events[q.passed + k], asks[k].header, asks[k].pieces)
    decreases |asks|
  {
    if asks != [] {
      ConsumesSayEvents(q, asks[..|asks| - 1]);
    }
  }
}
