/** The delivery loop of a consumer connection (src/socket/consumer_handler.c:70-166). */
module Delivery {
  import opened Machine
  import opened ChunkStore
  import opened Framing
  import opened FrameLaws
  import opened Publishing
  import opened Groups
  import opened Wire
  import C = Cursors
  import SeedPrefix

  const MAX_PACKETS := 100
  const MAX_ERRORS := 3

  /** What `wait_for_ack` finds. */
  datatype Response = Confirmed | Refused | Gone

  /** The environment of one pass of the loop or one command: the fault of each load in turn, whether memory is
      there, what the network makes of the packet, and the consumer's answer. */
  datatype Env = Env(
    fault0: LoadFault, fault1: LoadFault, fault2: LoadFault, canAlloc: bool,
    header: int, pieces: seq<int>, answer: Response, fault3: LoadFault)

  /** One attempt: no packet to send, or a payload, what the network made of it, and whether it was confirmed. */
  datatype Attempt = Nothing | Delivered(payload: Event, header: int, pieces: seq<int>, acked: bool)

  /** The group's handle and cursor after an attempt. */
  datatype Passage = Passage(chunk: View, cursor: C.Cursor, attempt: Attempt)

  /** Sending a consumed packet and waiting for its ack. */
  function Confirm(file: bytes, v: View, c: C.Cursor, p: C.Packet, env: Env): Passage {
    if !Whole(p.data, env.header, env.pieces) || env.answer != Confirmed
    then Passage(v, c, Delivered(p.data, env.header, env.pieces, false))
    else
      var a := C.AckPacket(file, SightOf(v, file, env.fault3), c, p.offset, p.size);
      Passage(Loaded(v, file, env.fault3), a.cursor, Delivered(p.data, env.header, env.pieces, a.result == 0))
  }

  /** `consume_and_send_packet` */
  function Pass(file: bytes, v: View, c: C.Cursor, env: Env): Passage {
    var o := C.ConsumeFrom(file, v, c, env.fault1, env.fault2, env.canAlloc);
    var after := C.ViewAfterConsume(file, v, c, env.fault1, env.fault2);
    match o.result
    case None => Passage(after, o.cursor, Nothing)
    case Some(p) => Confirm(file, after, o.cursor, p, env)
  }

  /** The state of the loop. */
  datatype Tally = Tally(chunk: View, cursor: C.Cursor, sent: nat, errors: nat, attempts: seq<Attempt>, over: bool)

  predicate Going(t: Tally) {
    !t.over && t.sent < MAX_PACKETS && t.errors < MAX_ERRORS
  }

  /** An attempt without a packet counts as a packet sent: its result code is 0. */
  function Succeeds(a: Attempt): bool {
    a == Nothing || a.acked
  }

  function Counted(t: Tally, p: Passage): Tally {
    if Succeeds(p.attempt) then Tally(p.chunk, p.cursor, t.sent + 1, 0, t.attempts + [p.attempt], false)
    else Tally(p.chunk, p.cursor, t.sent, t.errors + 1, t.attempts + [p.attempt], t.errors + 1 >= MAX_ERRORS)
  }

  function OneRound(file: bytes, t: Tally, env: Env): Tally {
    var v := Loaded(t.chunk, file, env.fault0);
    if !C.HasMore(file, SightOf(t.chunk, file, env.fault0), t.cursor) then t.(chunk := v, over := true)
    else Counted(t, Pass(file, v, t.cursor, env))
  }

  /** The loop of `handle_consumer_request` through the environments `rounds`. */
  function Play(file: bytes, t: Tally, rounds: seq<Env>): Tally
    decreases |rounds|
  {
    if rounds == [] || !Going(t) then t else Play(file, OneRound(file, t, rounds[0]), rounds[1..])
  }

  function Begin(v: View, c: C.Cursor): Tally {
    Tally(v, c, 0, 0, [], false)
  }

  function CountAcked(attempts: seq<Attempt>): nat {
    if attempts == [] then 0
    else CountAcked(attempts[..|attempts| - 1])
         + (if attempts[|attempts| - 1].Delivered? && attempts[|attempts| - 1].acked then 1 else 0)
  }

  function CountNothing(attempts: seq<Attempt>): nat {
    if attempts == [] then 0
    else CountNothing(attempts[..|attempts| - 1]) + (if attempts[|attempts| - 1] == Nothing then 1 else 0)
  }

  /** The books of the loop: its counter is acknowledged packets plus attempts that sent nothing, and each
      packet counted cost at most two failures before it. */
  ghost predicate Balanced(t: Tally) {
    && t.sent == CountAcked(t.attempts) + CountNothing(t.attempts)
    && t.sent <= MAX_PACKETS && t.errors <= MAX_ERRORS
    && |t.attempts| <= MAX_ERRORS * t.sent + t.errors
    && (t.sent == MAX_PACKETS ==> t.errors == 0)
  }

  lemma CountedBalances(t: Tally, p: Passage)
    requires Balanced(t) && Going(t)
    ensures Balanced(Counted(t, p))
  {
    assert Counted(t, p).attempts[..|t.attempts|] == t.attempts;
  }

  lemma {:induction false} PlayBalances(file: bytes, t: Tally, rounds: seq<Env>)
    requires Balanced(t)
    ensures Balanced(Play(file, t, rounds))
    decreases |rounds|
  {
    if rounds != [] && Going(t) {
      CountedBalances(t, Pass(file, Loaded(t.chunk, file, rounds[0].fault0), t.cursor, rounds[0]));
      PlayBalances(file, OneRound(file, t, rounds[0]), rounds[1..]);
    }
  }

  /** Whatever happens, the loop ends after at most 300 attempts, and what it returns is the number of acknowledged
      packets exactly when no attempt came back without a packet. */
  lemma LoopIsBounded(file: bytes, v: View, c: C.Cursor, rounds: seq<Env>)
    ensures
      var t := Play(file, Begin(v, c), rounds);
      && |t.attempts| <= 300
      && t.sent <= 100
      && (t.sent == CountAcked(t.attempts) <==> CountNothing(t.attempts) == 0)
  {
    PlayBalances(file, Begin(v, c), rounds);
  }

  predicate Healthy(env: Env) {
    env.fault0 == NoFault && env.fault1 == NoFault && env.fault2 == NoFault && env.fault3 == NoFault && env.canAlloc
  }

  predicate AllHealthy(rounds: seq<Env>) {
    forall k :: 0 <= k < |rounds| ==> Healthy(rounds[k])
  }

  /** The attempts so far are the events from `i` on, one each. */
  ghost predicate InOrder(t: Tally, base: nat, es: seq<Event>, i: nat) {
    && i + |t.attempts| <= |es|
    && t.cursor.pointer == Boundary(base, es, i + |t.attempts|)
    && forall k :: 0 <= k < |t.attempts| ==> t.attempts[k].Delivered? && t.attempts[k].payload == es[i + k]
  }

  /** The network takes the event whole and the consumer confirms it. */
  predicate Accepted(e: Event, env: Env) {
    Whole(e, env.header, env.pieces) && env.answer == Confirmed
  }

  /** A pass at boundary `k`, for every fault: event `k` goes out as the network takes it and the cursor ends at boundary
      `k + 1`, exactly when both loads show the file and memory is there; it counts as acknowledged when the
      consumer accepts it and the third load shows the file too. Otherwise nothing happens. */
  lemma PassAtBoundary(file: bytes, base: nat, es: seq<Event>, k: nat, v: View, c: C.Cursor, env: Env)
    requires At(file, base, es, k, c) && k < |es|
    ensures
      var v1 := Loaded(v, file, env.fault1);
      var v2 := Loaded(v1, file, env.fault2);
      var p := Pass(file, v, c, env);
      if SightOf(v, file, env.fault1) == Full && SightOf(v1, file, env.fault2) == Full && env.canAlloc
      then && p.cursor.pointer == Boundary(base, es, k + 1)
           && p.attempt == Delivered(es[k], env.header, env.pieces,
                                     Accepted(es[k], env) && SightOf(v2, file, env.fault3) == Full)
      else p.attempt == Nothing && p.cursor == c
  {
    var v1 := Loaded(v, file, env.fault1);
    ConsumeAtBoundary(file, base, es, k, c, SightOf(v, file, env.fault1), SightOf(v1, file, env.fault2), env.canAlloc);
    BoundaryStep(base, es, k);
    BoundaryOrder(base, es, k + 1, |es|);
    BoundaryEnds(file, base, es);
  }

  /** A round on a framed log with healthy loads: no event is left, or the next one is attempted. */
  ghost predicate Made(t: Tally, n: Tally, base: nat, es: seq<Event>, k: nat, env: Env)
    requires k <= |es|
  {
    if k == |es| then n == t.(chunk := n.chunk, over := true)
    else
      && n.attempts == t.attempts + [Delivered(es[k], env.header, env.pieces, Accepted(es[k], env))]
      && n.cursor.pointer == Boundary(base, es, k + 1)
      && if Accepted(es[k], env) then n.sent == t.sent + 1 && n.errors == 0 && !n.over
         else n.sent == t.sent && n.errors == t.errors + 1 && (n.over <==> n.errors >= 3)
  }

  lemma RoundAtBoundary(file: bytes, base: nat, es: seq<Event>, k: nat, t: Tally, env: Env)
    requires At(file, base, es, k, t.cursor) && Healthy(env)
    ensures Made(t, OneRound(file, t, env), base, es, k, env)
  {
    HasMoreForetellsConsume(file, base, es, k, t.cursor);
    if k < |es| {
      PassAtBoundary(file, base, es, k, Loaded(t.chunk, file, env.fault0), t.cursor, env);
    }
  }

  /** A round whose first load does not show the file ends the loop, however much there is to deliver. */
  lemma UnseenRoundEnds(file: bytes, base: nat, es: seq<Event>, k: nat, t: Tally, env: Env)
    requires At(file, base, es, k, t.cursor) && SightOf(t.chunk, file, env.fault0) != Full
    ensures
      var n := OneRound(file, t, env);
      n.over && n.cursor == t.cursor && n.sent == t.sent && n.errors == t.errors && n.attempts == t.attempts
  {
  }

  lemma MadeInOrder(t: Tally, n: Tally, base: nat, es: seq<Event>, i: nat, env: Env)
    requires InOrder(t, base, es, i) && Made(t, n, base, es, i + |t.attempts|, env)
    ensures InOrder(n, base, es, i)
  {
  }

  /** One more round of the loop. */
  lemma OneMore(file: bytes, base: nat, es: seq<Event>, i: nat, t: Tally, rounds: seq<Env>) returns (n: Tally)
    requires Framed(file, base, es) && |file| < HALF_MOD && AllHealthy(rounds) && InOrder(t, base, es, i)
    requires rounds != [] && Going(t)
    ensures AllHealthy(rounds[1..]) && Play(file, t, rounds) == Play(file, n, rounds[1..])
    ensures Made(t, n, base, es, i + |t.attempts|, rounds[0]) && InOrder(n, base, es, i)
  {
    assert forall k :: 0 <= k < |rounds[1..]| ==> rounds[1..][k] == rounds[k + 1];
    n := OneRound(file, t, rounds[0]);
    RoundAtBoundary(file, base, es, i + |t.attempts|, t, rounds[0]);
    MadeInOrder(t, n, base, es, i, rounds[0]);
  }

  /** On a framed log with healthy loads and memory, every event is attempted at most once and in order, the pointer
      moves over exactly the attempted frames whether they were acknowledged or not, and the loop
      returns the number of acknowledged ones. */
  lemma DeliversInOrder(file: bytes, base: nat, es: seq<Event>, i: nat, t: Tally, rounds: seq<Env>)
    requires Framed(file, base, es) && |file| < HALF_MOD && AllHealthy(rounds)
    requires InOrder(t, base, es, i) && Balanced(t)
    ensures InOrder(Play(file, t, rounds), base, es, i)
    ensures Play(file, t, rounds).sent == CountAcked(Play(file, t, rounds).attempts)
  {
    PlaysInOrder(file, base, es, i, t, rounds);
    PlayBalances(file, t, rounds);
    NoNothing(Play(file, t, rounds).attempts);
  }

  lemma {:induction false} PlaysInOrder(file: bytes, base: nat, es: seq<Event>, i: nat, t: Tally, rounds: seq<Env>)
    requires Framed(file, base, es) && |file| < HALF_MOD && AllHealthy(rounds) && InOrder(t, base, es, i)
    ensures InOrder(Play(file, t, rounds), base, es, i)
    decreases |rounds|
  {
    if rounds != [] && Going(t) {
      var n := OneMore(file, base, es, i, t, rounds);
      PlaysInOrder(file, base, es, i, n, rounds[1..]);
    }
  }

  lemma {:induction false} NoNothing(attempts: seq<Attempt>)
    requires forall k :: 0 <= k < |attempts| ==> attempts[k].Delivered?
    ensures CountNothing(attempts) == 0
  {
    if attempts != [] {
      NoNothing(attempts[..|attempts| - 1]);
    }
  }

  /** The network takes every event whole and the consumer confirms it. */
  ghost predicate Cooperative(rounds: seq<Env>, es: seq<Event>) {
    forall k, e :: 0 <= k < |rounds| && e in es ==> Accepted(e, rounds[k])
  }

  lemma {:induction false} DeliversOn(file: bytes, base: nat, es: seq<Event>, i: nat, t: Tally, rounds: seq<Env>)
    requires Framed(file, base, es) && |file| < HALF_MOD && AllHealthy(rounds) && Cooperative(rounds, es)
    requires InOrder(t, base, es, i) && t.errors == 0 && !t.over && t.sent == |t.attempts| <= MAX_PACKETS
    requires |rounds| >= Min(MAX_PACKETS, |es| - i) - t.sent
    ensures Play(file, t, rounds).sent == Min(MAX_PACKETS, |es| - i)
    decreases |rounds|
  {
    if rounds != [] && Going(t) {
      var n := OneMore(file, base, es, i, t, rounds);
      assert forall k :: 0 <= k < |rounds[1..]| ==> rounds[1..][k] == rounds[k + 1];
      if i + |t.attempts| == |es| {
        assert Play(file, n, rounds[1..]) == n;
      } else {
        assert es[i + |t.attempts|] in es;
        DeliversOn(file, base, es, i, n, rounds[1..]);
      }
    }
  }

  /** And it does deliver: with healthy loads, a network that takes everything and a consumer that confirms
      everything, the loop returns min(100, events left). */
  lemma DeliversAll(file: bytes, base: nat, es: seq<Event>, i: nat, v: View, c: C.Cursor, rounds: seq<Env>)
    requires At(file, base, es, i, c) && AllHealthy(rounds) && Cooperative(rounds, es)
    requires |rounds| >= Min(100, |es| - i)
    ensures Play(file, Begin(v, c), rounds).sent == Min(100, |es| - i)
  {
    DeliversOn(file, base, es, i, Begin(v, c), rounds);
  }

  /** The last three attempts were not acknowledged. */
  predicate ThreeRefused(attempts: seq<Attempt>) {
    |attempts| >= 3 && forall k :: |attempts| - 3 <= k < |attempts| ==> attempts[k].Delivered? && !attempts[k].acked
  }

  /** Budget or patience is used up. */
  predicate Spent(attempts: seq<Attempt>) {
    CountAcked(attempts) == 100 || ThreeRefused(attempts)
  }

  ghost predicate NeverSpentBefore(attempts: seq<Attempt>) {
    forall n :: 0 <= n < |attempts| ==> !Spent(attempts[..n])
  }

  /** The counters tell what happened: `sent` acknowledged packets, and `errors` refusals since the last of them. */
  ghost predicate Tells(attempts: seq<Attempt>, sent: nat, errors: nat) {
    && (forall k :: 0 <= k < |attempts| ==> attempts[k].Delivered?)
    && sent == CountAcked(attempts) <= 100 && errors <= 3 && errors <= |attempts|
    && (forall k :: |attempts| - errors <= k < |attempts| ==> !attempts[k].acked)
    && (|attempts| > errors ==> attempts[|attempts| - errors - 1].acked)
    && NeverSpentBefore(attempts)
  }

  lemma SpentIsTold(attempts: seq<Attempt>, sent: nat, errors: nat)
    requires Tells(attempts, sent, errors)
    ensures Spent(attempts) <==> sent == 100 || errors == 3
  {
    if errors < 3 && errors < |attempts| {
      assert attempts[|attempts| - errors - 1].acked;
    }
  }

  lemma TellsNext(attempts: seq<Attempt>, sent: nat, errors: nat, a: Attempt)
    requires Tells(attempts, sent, errors) && sent < 100 && errors < 3 && a.Delivered?
    ensures if a.acked then Tells(attempts + [a], sent + 1, 0) else Tells(attempts + [a], sent, errors + 1)
  {
    SpentIsTold(attempts, sent, errors);
    var all := attempts + [a];
    assert all[..|attempts|] == attempts && all[|attempts|] == a;
    forall n | 0 <= n < |all| ensures !Spent(all[..n]) {
      assert all[..n] == if n < |attempts| then attempts[..n] else attempts;
    }
  }

  ghost predicate Told(t: Tally, base: nat, es: seq<Event>, i: nat) {
    && InOrder(t, base, es, i) && Tells(t.attempts, t.sent, t.errors)
    && (t.over ==> i + |t.attempts| == |es| || t.errors == 3)
  }

  lemma MadeIsTold(t: Tally, n: Tally, base: nat, es: seq<Event>, i: nat, env: Env)
    requires Told(t, base, es, i) && Going(t) && Made(t, n, base, es, i + |t.attempts|, env) && InOrder(n, base, es, i)
    ensures Told(n, base, es, i)
  {
    var k := i + |t.attempts|;
    if k < |es| {
      TellsNext(t.attempts, t.sent, t.errors, Delivered(es[k], env.header, env.pieces, Accepted(es[k], env)));
    }
  }

  /** Attempt `k` is acknowledged exactly when its environment lets it be. */
  ghost predicate Judged(attempts: seq<Attempt>, from: nat, es: seq<Event>, i: nat, rounds: seq<Env>) {
    && from <= |attempts| <= from + |rounds| && i + |attempts| <= |es|
    && forall k :: from <= k < |attempts| ==>
         attempts[k] == Delivered(es[i + k], rounds[k - from].header, rounds[k - from].pieces, Accepted(es[i + k], rounds[k - from]))
  }

  lemma JudgedStep(before: seq<Attempt>, end: seq<Attempt>, es: seq<Event>, i: nat, rounds: seq<Env>)
    requires rounds != [] && before <= end && Judged(end, |before| + 1, es, i, rounds[1..])
    requires i + |before| < |es|
    requires end[|before|] == Delivered(es[i + |before|], rounds[0].header, rounds[0].pieces, Accepted(es[i + |before|], rounds[0]))
    ensures Judged(end, |before|, es, i, rounds)
  {
    assert forall k :: 0 <= k < |rounds[1..]| ==> rounds[1..][k] == rounds[k + 1];
  }

  lemma {:induction false} LoopIsTold(file: bytes, base: nat, es: seq<Event>, i: nat, t: Tally, rounds: seq<Env>)
    requires Framed(file, base, es) && |file| < HALF_MOD && AllHealthy(rounds) && Told(t, base, es, i)
    ensures Told(Play(file, t, rounds), base, es, i)
    decreases |rounds|
  {
    if rounds != [] && Going(t) {
      var n := OneMore(file, base, es, i, t, rounds);
      MadeIsTold(t, n, base, es, i, rounds[0]);
      LoopIsTold(file, base, es, i, n, rounds[1..]);
    }
  }

  lemma {:induction false} LoopGoesOn(file: bytes, base: nat, es: seq<Event>, i: nat, t: Tally, rounds: seq<Env>)
    requires Framed(file, base, es) && |file| < HALF_MOD && AllHealthy(rounds) && InOrder(t, base, es, i)
    ensures Going(Play(file, t, rounds)) ==> |Play(file, t, rounds).attempts| == |t.attempts| + |rounds|
    decreases |rounds|
  {
    if rounds != [] && Going(t) {
      var n := OneMore(file, base, es, i, t, rounds);
      LoopGoesOn(file, base, es, i, n, rounds[1..]);
    }
  }

  lemma JudgedStart(attempts: seq<Attempt>, es: seq<Event>, i: nat, rounds: seq<Env>)
    requires i + |attempts| <= |es|
    ensures Judged(attempts, |attempts|, es, i, rounds)
  {
  }

  lemma JudgedOn(t: Tally, n: Tally, end: seq<Attempt>, base: nat, es: seq<Event>, i: nat, rounds: seq<Env>)
    requires rounds != [] && i + |t.attempts| < |es| && Made(t, n, base, es, i + |t.attempts|, rounds[0])
    requires n.attempts <= end && Judged(end, |n.attempts|, es, i, rounds[1..])
    ensures t.attempts <= end && Judged(end, |t.attempts|, es, i, rounds)
  {
    assert end[|t.attempts|] == n.attempts[|t.attempts|];
    JudgedStep(t.attempts, end, es, i, rounds);
  }

  lemma {:induction false} LoopIsJudged(file: bytes, base: nat, es: seq<Event>, i: nat, t: Tally, rounds: seq<Env>)
    requires Framed(file, base, es) && |file| < HALF_MOD && AllHealthy(rounds) && InOrder(t, base, es, i)
    ensures t.attempts <= Play(file, t, rounds).attempts
    ensures Judged(Play(file, t, rounds).attempts, |t.attempts|, es, i, rounds)
    decreases |rounds|
  {
    JudgedStart(t.attempts, es, i, rounds);
    if rounds != [] && Going(t) {
      var n := OneMore(file, base, es, i, t, rounds);
      var end := Play(file, n, rounds[1..]);
      if i + |t.attempts| < |es| {
        LoopIsJudged(file, base, es, i, n, rounds[1..]);
        JudgedOn(t, n, end.attempts, base, es, i, rounds);
      } else {
        assert end == n;
      }
    }
  }

  /** Where the loop ends, exactly, on a framed log with healthy loads: it attempts the events from `i` on, one in each
      environment, and stops at the first moment when 100 packets are acknowledged, or three attempts in
      a row were not, or no event is left. It returns the number of acknowledged packets. */
  lemma LoopStopsExactly(file: bytes, base: nat, es: seq<Event>, i: nat, v: View, c: C.Cursor, rounds: seq<Env>)
    requires At(file, base, es, i, c) && AllHealthy(rounds)
    ensures
      var end := Play(file, Begin(v, c), rounds);
      && Judged(end.attempts, 0, es, i, rounds)
      && NeverSpentBefore(end.attempts)
      && (|end.attempts| < |rounds| ==> Spent(end.attempts) || i + |end.attempts| == |es|)
      && end.sent == CountAcked(end.attempts)
      && end.cursor.pointer == Boundary(base, es, i + |end.attempts|)
  {
    LoopIsTold(file, base, es, i, Begin(v, c), rounds);
    LoopIsJudged(file, base, es, i, Begin(v, c), rounds);
    LoopGoesOn(file, base, es, i, Begin(v, c), rounds);
    var end := Play(file, Begin(v, c), rounds);
    SpentIsTold(end.attempts, end.sent, end.errors);
  }

  /** Data is there, but no packet can be read at the cursor. */
  predicate Stuck(file: bytes, c: C.Cursor) {
    C.HasMore(file, Full, c) && C.Consume(file, Full, Full, c, true) == C.Outcome(c, None)
  }

  lemma {:induction false} StuckLoopCountsOn(file: bytes, t: Tally, rounds: seq<Env>)
    requires Stuck(file, t.cursor) && !t.over && t.errors == 0 && t.sent <= MAX_PACKETS
    requires AllHealthy(rounds) && |rounds| >= MAX_PACKETS - t.sent && CountAcked(t.attempts) == 0
    ensures
      var end := Play(file, t, rounds);
      end.sent == MAX_PACKETS && end.cursor == t.cursor && CountAcked(end.attempts) == 0
    decreases |rounds|
  {
    if rounds != [] && Going(t) {
      var n := OneRound(file, t, rounds[0]);
      assert n.attempts == t.attempts + [Nothing] && n.attempts[..|t.attempts|] == t.attempts;
      assert forall k :: 0 <= k < |rounds[1..]| ==> rounds[1..][k] == rounds[k + 1];
      StuckLoopCountsOn(file, n, rounds[1..]);
    }
  }

  /** From a cursor where data is left but no packet can be read, such as offset 0 of a created topic, the loop
      reports 100 packets sent while it sends none and stays where it is. */
  lemma StuckLoopReportsHundred(file: bytes, v: View, c: C.Cursor, rounds: seq<Env>)
    requires Stuck(file, c) && |rounds| >= 100 && AllHealthy(rounds)
    ensures
      var end := Play(file, Begin(v, c), rounds);
      end.sent == 100 && end.cursor == c && CountAcked(end.attempts) == 0
  {
    StuckLoopCountsOn(file, Begin(v, c), rounds);
  }

  /** So a new group on a created topic whose first event has 160 or more bytes modulo 65536 is told of 100 packets,
      gets none, and never moves, however much is published later. */
  lemma NewGroupStarves(es: seq<Event>, v: View, rounds: seq<Env>)
    requires es != [] && |es[0]| % 65536 >= 160 && |SeedPrefix.Seeded([], es)| < HALF_MOD
    requires |rounds| >= 100 && AllHealthy(rounds)
    ensures
      var end := Play(SeedPrefix.Seeded([], es), Begin(v, C.Cursor(0, 0)), rounds);
      end.sent == 100 && end.cursor == C.Cursor(0, 0) && CountAcked(end.attempts) == 0
  {
    assert es + [] == es;
    SeedPrefix.StuckForever([], es, [], 0);
    StuckLoopReportsHundred(SeedPrefix.Seeded([], es), v, C.Cursor(0, 0), rounds);
  }

  /** What an attempt says on the socket. */
  function SaidBy(a: Attempt): seq<Utterance> {
    match a
    case Nothing => []
    case Delivered(p, header, pieces, _) => [Sent(p, header, pieces)]
  }

  function SaidIn(attempts: seq<Attempt>): seq<Utterance> {
    if attempts == [] then [] else SaidIn(attempts[..|attempts| - 1]) + SaidBy(attempts[|attempts| - 1])
  }

  /** The part of `consume_and_send_packet` behind a successful consume. */
  method SendAndConfirm(socket: Socket, group: Group, topic: Topic, packet: C.Packet, env: Env) returns (code: int)
    requires topic == group.attachedTopic && topic.chunk != null && topic.chunk.Valid()
    modifies socket, group, topic.chunk, topic.chunk.data
    ensures topic.chunk.Valid() && (topic.chunk.data == old(topic.chunk.data) || fresh(topic.chunk.data))
    ensures socket.out == old(socket.out) + SentBytes(packet.data, env.header, env.pieces)
    ensures
      var p := Confirm(topic.chunk.file.content, old(topic.chunk.Value()), old(group.Place()), packet, env);
      && topic.chunk.Value() == p.chunk && group.Place() == p.cursor
      && code == if Succeeds(p.attempt) then 0 else -1
  {
    code := SendPacket(socket, packet.data, env.header, env.pieces);
    if code == 0 {
      if env.answer != Confirmed {
        return -1;
      }
      code := group.AckPacket(packet, env.fault3);
    }
  }

  /** `consume_and_send_packet`: 0 also when there was no packet. */
  method ConsumeAndSend(socket: Socket, group: Group, topic: Topic, env: Env) returns (code: int, ghost p: Passage)
    requires topic == group.attachedTopic && topic.chunk != null && topic.chunk.Valid()
    modifies socket, group, topic.chunk, topic.chunk.data
    ensures topic.chunk.Valid() && (topic.chunk.data == old(topic.chunk.data) || fresh(topic.chunk.data))
    ensures p == Pass(topic.chunk.file.content, old(topic.chunk.Value()), old(group.Place()), env)
    ensures topic.chunk.Value() == p.chunk && group.Place() == p.cursor
    ensures code == if Succeeds(p.attempt) then 0 else -1
    ensures socket.out == old(socket.out) + Speech(SaidBy(p.attempt))
  {
    p := Pass(topic.chunk.file.content, topic.chunk.Value(), group.Place(), env);
    var packet := group.Consume(topic, env.fault1, env.fault2, env.canAlloc);
    if packet == None {
      return 0, p;
    }
    code := SendAndConfirm(socket, group, topic, packet.value, env);
    SpeechOfOne(Sent(packet.value.data, env.header, env.pieces));
  }

  lemma SpeechOfOne(u: Utterance)
    ensures Speech([u]) == Uttered(u)
  {
    assert [u][1..] == [];
  }

  lemma {:induction false} SpeechConcat(us: seq<Utterance>, vs: seq<Utterance>)
    ensures Speech(us + vs) == Speech(us) + Speech(vs)
  {
    if us == [] {
      assert us + vs == vs;
    } else {
      assert (us + vs)[1..] == us[1..] + vs;
      SpeechConcat(us[1..], vs);
      Assoc(Uttered(us[0]), Speech(us[1..]), Speech(vs));
    }
  }

  /** How the counters change in a pass. */
  ghost predicate Follows(t: Tally, n: Tally, more: bool, result: int) {
    if !more then n == t.(chunk := n.chunk, over := true)
    else if result == 0 then n.sent == t.sent + 1 && n.errors == 0 && !n.over
    else n.sent == t.sent && n.errors == t.errors + 1 && n.over == (n.errors >= MAX_ERRORS)
  }

  /** The handle and the cursor are where the tally says. */
  ghost predicate Matches(t: Tally, group: Group, topic: Topic)
    requires topic.chunk != null && topic.chunk.Valid()
    reads group, topic.chunk, topic.chunk.data
  {
    t.chunk == topic.chunk.Value() && t.cursor == group.Place()
  }

  lemma CountedSays(t: Tally, p: Passage, before: bytes, out: bytes)
    requires out == before + Speech(SaidIn(t.attempts)) + Speech(SaidBy(p.attempt))
    ensures out == before + Speech(SaidIn(Counted(t, p).attempts))
  {
    assert Counted(t, p).attempts[..|t.attempts|] == t.attempts;
    SpeechConcat(SaidIn(t.attempts), SaidBy(p.attempt));
    Assoc(before, Speech(SaidIn(t.attempts)), Speech(SaidBy(p.attempt)));
  }

  lemma RoundWithData(file: bytes, t: Tally, env: Env, p: Passage)
    requires C.HasMore(file, SightOf(t.chunk, file, env.fault0), t.cursor)
    requires p == Pass(file, Loaded(t.chunk, file, env.fault0), t.cursor, env)
    ensures OneRound(file, t, env) == Counted(t, p)
    ensures Follows(t, Counted(t, p), true, if Succeeds(p.attempt) then 0 else -1)
  {
  }

  /** A pass that found data. */
  method PassWithData(socket: Socket, group: Group, topic: Topic, env: Env, ghost t: Tally, ghost before: bytes)
    returns (result: int, ghost n: Tally)
    requires topic == group.attachedTopic && topic.chunk != null && topic.chunk.Valid()
    requires C.HasMore(topic.chunk.file.content, SightOf(t.chunk, topic.chunk.file.content, env.fault0), t.cursor)
    requires topic.chunk.Value() == Loaded(t.chunk, topic.chunk.file.content, env.fault0) && t.cursor == group.Place()
    requires socket.out == before + Speech(SaidIn(t.attempts))
    modifies socket, group, topic.chunk, topic.chunk.data
    ensures topic.chunk.Valid() && (topic.chunk.data == old(topic.chunk.data) || fresh(topic.chunk.data))
    ensures n == OneRound(topic.chunk.file.content, t, env)
    ensures Matches(n, group, topic) && socket.out == before + Speech(SaidIn(n.attempts))
    ensures Follows(t, n, true, result)
  {
    ghost var p;
    result, p := ConsumeAndSend(socket, group, topic, env);
    RoundWithData(topic.chunk.file.content, t, env, p);
    CountedSays(t, p, before, socket.out);
    n := Counted(t, p);
  }

  /** One pass of the loop: the check for data and, if there is some, `consume_and_send_packet`. */
  method OnePass(socket: Socket, group: Group, topic: Topic, env: Env, ghost t: Tally, ghost before: bytes)
    returns (more: bool, result: int, ghost n: Tally)
    requires topic == group.attachedTopic && topic.chunk != null && topic.chunk.Valid()
    requires Going(t) && Matches(t, group, topic) && socket.out == before + Speech(SaidIn(t.attempts))
    modifies socket, group, topic.chunk, topic.chunk.data
    ensures topic.chunk.Valid() && (topic.chunk.data == old(topic.chunk.data) || fresh(topic.chunk.data))
    ensures n == OneRound(topic.chunk.file.content, t, env)
    ensures Matches(n, group, topic) && socket.out == before + Speech(SaidIn(n.attempts))
    ensures Follows(t, n, more, result)
  {
    more := group.HasMore(env.fault0);
    result := 0;
    if more {
      result, n := PassWithData(socket, group, topic, env, t, before);
    } else {
      n := t.(chunk := topic.chunk.Value(), over := true);
    }
  }

  lemma {:induction false} PlayOn(file: bytes, t: Tally, rounds: seq<Env>, last: Env)
    requires Going(Play(file, t, rounds))
    ensures Play(file, t, rounds + [last]) == OneRound(file, Play(file, t, rounds), last)
    decreases |rounds|
  {
    if rounds == [] {
      assert (rounds + [last])[1..] == [];
      assert Play(file, OneRound(file, t, last), []) == OneRound(file, t, last);
    } else {
      assert (rounds + [last])[1..] == rounds[1..] + [last];
      PlayOn(file, OneRound(file, t, rounds[0]), rounds[1..], last);
    }
  }

  /** `rounds` are the environments of the passes so far. */
  ghost predicate FirstOf(rounds: seq<Env>, envs: nat -> Env) {
    forall k :: 0 <= k < |rounds| ==> rounds[k] == envs(k)
  }

  lemma Noted(file: bytes, start: Tally, played: seq<Env>, t: Tally, n: Tally, envs: nat -> Env, pass: nat)
    returns (rounds: seq<Env>)
    requires t == Play(file, start, played) && Going(t) && n == OneRound(file, t, envs(pass))
    requires |played| == pass && FirstOf(played, envs)
    ensures |rounds| == pass + 1 && FirstOf(rounds, envs) && n == Play(file, start, rounds)
  {
    PlayOn(file, start, played, envs(pass));
    rounds := played + [envs(pass)];
  }

  /** One pass, noted behind those already played. */
  method PassAndNote(socket: Socket, group: Group, topic: Topic, envs: nat -> Env, pass: nat,
                     ghost start: Tally, ghost t: Tally, ghost played: seq<Env>, ghost before: bytes)
    returns (more: bool, result: int, ghost rounds: seq<Env>, ghost n: Tally)
    requires topic == group.attachedTopic && topic.chunk != null && topic.chunk.Valid()
    requires t == Play(topic.chunk.file.content, start, played) && Going(t) && Matches(t, group, topic)
    requires socket.out == before + Speech(SaidIn(t.attempts)) && |played| == pass && FirstOf(played, envs)
    modifies socket, group, topic.chunk, topic.chunk.data
    ensures topic.chunk.Valid() && (topic.chunk.data == old(topic.chunk.data) || fresh(topic.chunk.data))
    ensures |rounds| == pass + 1 && FirstOf(rounds, envs)
    ensures n == Play(topic.chunk.file.content, start, rounds) && Matches(n, group, topic)
    ensures socket.out == before + Speech(SaidIn(n.attempts))
    ensures Follows(t, n, more, result)
  {
    ghost var file := topic.chunk.file.content;
    more, result, n := OnePass(socket, group, topic, envs(pass), t, before);
    rounds := Noted(file, start, played, t, n, envs, pass);
  }

  /** The loop of `handle_consumer_request`. */
  method DeliveryLoop(socket: Socket, group: Group, topic: Topic, envs: nat -> Env)
    returns (sent: nat, ghost rounds: seq<Env>, ghost t: Tally)
    requires topic == group.attachedTopic && topic.chunk != null && topic.chunk.Valid()
    modifies socket, group, topic.chunk, topic.chunk.data
    ensures topic.chunk.Valid() && FirstOf(rounds, envs)
    ensures t == Play(topic.chunk.file.content, Begin(old(topic.chunk.Value()), old(group.Place())), rounds)
    ensures socket.out == old(socket.out) + Speech(SaidIn(t.attempts))
    ensures Matches(t, group, topic) && sent == t.sent && !Going(t)
  {
    sent, rounds, t := 0, [], Begin(topic.chunk.Value(), group.Place());
    ghost var start, before := t, socket.out;
    var errorCount, pass := 0, 0;
    while sent < MAX_PACKETS && errorCount < MAX_ERRORS
      invariant topic.chunk.Valid() && (topic.chunk.data == old(topic.chunk.data) || fresh(topic.chunk.data))
      invariant t == Play(topic.chunk.file.content, start, rounds) && !t.over
      invariant Matches(t, group, topic) && sent == t.sent && errorCount == t.errors
      invariant |rounds| == pass && FirstOf(rounds, envs)
      invariant socket.out == before + Speech(SaidIn(t.attempts))
      decreases MAX_PACKETS - sent, MAX_ERRORS - errorCount
    {
      var more, result;
      more, result, rounds, t := PassAndNote(socket, group, topic, envs, pass, start, t, rounds, before);
      pass := pass + 1;
      if !more {
        break;
      }
      if result == 0 {
        sent, errorCount := sent + 1, 0;
      } else {
        errorCount := errorCount + 1;
        if errorCount >= MAX_ERRORS {
          break;
        }
      }
    }
  }

  /** `handle_consumer_request`: plays its environments until data, budget or patience is used up. */
  method HandleConsumerRequest(socket: Socket, group: Group, topic: Topic?, envs: nat -> Env)
    returns (code: int, ghost rounds: seq<Env>)
    requires Group.Ready(topic)
    modifies socket, group, Group.Touched(topic)
    ensures topic == null || topic != group.attachedTopic ==> code == -1
    ensures topic != null && topic == group.attachedTopic && topic.chunk == null ==> code == 0
    ensures !group.Serves(topic) ==> unchanged(socket) && unchanged(group)
    ensures group.Serves(topic) ==>
              && topic.chunk.Valid() && FirstOf(rounds, envs)
              && var end := Play(topic.chunk.file.content, Begin(old(topic.chunk.Value()), old(group.Place())), rounds);
              && socket.out == old(socket.out) + Speech(SaidIn(end.attempts))
              && Matches(end, group, topic) && code == end.sent && !Going(end)
  {
    rounds := [];
    if topic == null || group.attachedTopic != topic {
      return -1, rounds;
    }
    if topic.chunk == null {
      return 0, rounds;
    }
    ghost var t;
    code, rounds, t := DeliveryLoop(socket, group, topic, envs);
  }

  lemma {:induction false} CompleteAttempts(attempts: seq<Attempt>)
    ensures AllComplete(SaidIn(attempts)) <==> forall k :: 0 <= k < |attempts| ==> AllComplete(SaidBy(attempts[k]))
  {
    if attempts != [] {
      var n := |attempts| - 1;
      CompleteAttempts(attempts[..n]);
      CompleteConcat(SaidIn(attempts[..n]), SaidBy(attempts[n]));
      assert forall k :: 0 <= k < n ==> attempts[..n][k] == attempts[k];
    }
  }

  lemma CompleteConcat(us: seq<Utterance>, vs: seq<Utterance>)
    ensures AllComplete(us + vs) <==> AllComplete(us) && AllComplete(vs)
  {
    assert forall k :: 0 <= k < |us| ==> (us + vs)[k] == us[k];
    assert forall k :: 0 <= k < |vs| ==> (us + vs)[|us| + k] == vs[k];
  }

  /** Attempt `k` is made in environment `k`. */
  ghost predicate MadeIn(attempts: seq<Attempt>, from: nat, rounds: seq<Env>) {
    && from <= |attempts| <= from + |rounds|
    && forall k :: from <= k < |attempts| && attempts[k].Delivered? ==>
         attempts[k].header == rounds[k - from].header && attempts[k].pieces == rounds[k - from].pieces
  }

  lemma {:induction false} AttemptsFollowRounds(file: bytes, t: Tally, rounds: seq<Env>)
    ensures t.attempts <= Play(file, t, rounds).attempts
    ensures MadeIn(Play(file, t, rounds).attempts, |t.attempts|, rounds)
    decreases |rounds|
  {
    if rounds != [] && Going(t) {
      var n, rest := OneRound(file, t, rounds[0]), rounds[1..];
      RoundAttempts(file, t, rounds[0]);
      AttemptsFollowRounds(file, n, rest);
      MadeInStep(t.attempts, n.attempts, Play(file, n, rest).attempts, rounds);
    }
  }

  lemma MadeInStep(before: seq<Attempt>, now: seq<Attempt>, end: seq<Attempt>, rounds: seq<Env>)
    requires rounds != [] && before <= now <= end && MadeIn(end, |now|, rounds[1..])
    requires |now| == |before| + 1 && now[|before|].Delivered? ==>
               now[|before|].header == rounds[0].header && now[|before|].pieces == rounds[0].pieces
    requires |now| == |before| || |now| == |before| + 1
    requires |now| == |before| ==> end == now
    ensures before <= end && MadeIn(end, |before|, rounds)
  {
    assert forall k :: 0 <= k < |rounds[1..]| ==> rounds[1..][k] == rounds[k + 1];
  }

  lemma RoundAttempts(file: bytes, t: Tally, env: Env)
    ensures
      var n := OneRound(file, t, env);
      && t.attempts <= n.attempts
      && if |n.attempts| == |t.attempts| then n.over && n.attempts == t.attempts
         else |n.attempts| == |t.attempts| + 1
              && (n.attempts[|t.attempts|].Delivered? ==>
                    n.attempts[|t.attempts|].header == env.header && n.attempts[|t.attempts|].pieces == env.pieces)
  {
  }

  lemma CompleteExactly(attempts: seq<Attempt>, rounds: seq<Env>)
    requires MadeIn(attempts, 0, rounds)
    ensures AllComplete(SaidIn(attempts))
       <==> forall k :: 0 <= k < |attempts| && attempts[k].Delivered? ==>
              Whole(attempts[k].payload, rounds[k].header, rounds[k].pieces)
  {
    CompleteAttempts(attempts);
    forall k | 0 <= k < |attempts|
      ensures AllComplete(SaidBy(attempts[k])) <==>
                (attempts[k].Delivered? ==> Whole(attempts[k].payload, rounds[k].header, rounds[k].pieces))
    {
      if attempts[k].Delivered? {
        assert SaidBy(attempts[k])[0] == Sent(attempts[k].payload, rounds[k].header, rounds[k].pieces);
      }
    }
  }

  /** The bytes of a delivery are the stream of its packets if and only if the network took every one of them whole.
      Otherwise the loop goes on writing behind the cut packet, which then swallows what follows. */
  lemma DeliveryIsStreamExactly(file: bytes, v: View, c: C.Cursor, rounds: seq<Env>)
    ensures
      var attempts := Play(file, Begin(v, c), rounds).attempts;
      && |attempts| <= |rounds|
      && (Speech(SaidIn(attempts)) == Stream(AllMeant(SaidIn(attempts))) <==>
            forall k :: 0 <= k < |attempts| && attempts[k].Delivered? ==>
              Whole(attempts[k].payload, rounds[k].header, rounds[k].pieces))
  {
    var attempts := Play(file, Begin(v, c), rounds).attempts;
    AttemptsFollowRounds(file, Begin(v, c), rounds);
    SpeechIsStreamExactly(SaidIn(attempts));
    CompleteExactly(attempts, rounds);
  }
}
