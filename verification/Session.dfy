/** The session state machine: which topic and group the commands of one client set, free and use
    (src/socket/server_event_handler.c:165-250). Topics are named by the serial number of their allocation. */
module Session {
  import opened Machine

  /** A group carries its id and the topic it is attached to. */
  datatype GroupRef = GroupRef(id: string, topic: nat)

  datatype State = State(
    group: Option<GroupRef>, topic: Option<nat>, groupId: Option<string>, topicName: Option<string>,
    freed: set<nat>, serial: nat)

  const FRESH := State(None, None, None, None, {}, 0)

  /** Commands, each with the outcomes of the calls it makes: string copies, `topic_exists`, the allocation of the
      topic record or the success of `create_topic`, the allocation of the group. */
  datatype Command =
    | Consume
    | Ack
    | SetGroup(id: string, idCopied: bool, groupMade: bool)
    | SetTopic(name: string, nameCopied: bool, found: bool, topicMade: bool, groupMade: bool)

  /** `create_group` */
  function Made(id: Option<string>, topic: nat, made: bool): Option<GroupRef> {
    if id.Some? && id.value != "" && made then Some(GroupRef(id.value, topic)) else None
  }

  function Do(s: State, cmd: Command): State {
    match cmd
    case Consume => s
    case Ack => s
    case SetGroup(id, idCopied, groupMade) =>
      var newId := if idCopied then Some(id) else None;
      s.(groupId := newId,
         group := if s.topic.Some? then Made(newId, s.topic.value, groupMade) else s.group)
    case SetTopic(name, nameCopied, found, topicMade, groupMade) =>
      var opens := nameCopied && found;
      var topic := if topicMade && (opens || (nameCopied && name != "")) then Some(s.serial) else None;
      State(if topic.Some? && s.groupId.Some? then Made(s.groupId, topic.value, groupMade) else s.group,
            topic, s.groupId, if nameCopied then Some(name) else None,
            if opens && s.topic.Some? then s.freed + {s.topic.value} else s.freed, s.serial + 1)
  }

  function DoAll(s: State, cmds: seq<Command>): State
    decreases |cmds|
  {
    if cmds == [] then s else DoAll(Do(s, cmds[0]), cmds[1..])
  }

  /** The topics that `CONSUME` and `ACK` dereference: the session's and its group's. */
  function Used(s: State, cmd: Command): set<nat> {
    if (cmd.Consume? || cmd.Ack?) && s.group.Some? && s.topic.Some? then {s.group.value.topic, s.topic.value} else {}
  }

  /** Topics are numbered in order of allocation; freed ones existed. */
  ghost predicate Numbered(s: State) {
    && (s.topic.Some? ==> s.topic.value < s.serial && s.topic.value !in s.freed)
    && (s.group.Some? ==> s.group.value.topic < s.serial)
    && (forall t :: t in s.freed ==> t < s.serial)
  }

  /** When topic and group are both set, the group is attached to that topic and has the session's group id. */
  ghost predicate Current(s: State) {
    s.topic.Some? && s.group.Some? ==>
      s.group.value.topic == s.topic.value && s.groupId == Some(s.group.value.id)
  }

  /** A left-over group without a topic is harmless only while there is a group id to replace it by. */
  ghost predicate Sound(s: State) {
    Numbered(s) && Current(s) && (s.topic == None && s.group.Some? ==> s.groupId.Some?)
  }

  /** The one command that breaks the session: the copy of a group id fails while an old group is left over. */
  predicate LosesId(s: State, cmd: Command) {
    cmd.SetGroup? && !cmd.idCopied && s.topic == None && s.group.Some?
  }

  /** Each command keeps the session sound, except exactly that one. */
  lemma SoundExactly(s: State, cmd: Command)
    requires Sound(s)
    ensures Sound(Do(s, cmd)) <==> !LosesId(s, cmd)
  {
  }

  /** Every copy of a group id succeeds. */
  predicate CopiesWork(cmds: seq<Command>) {
    forall i :: 0 <= i < |cmds| ==> cmds[i].SetGroup? ==> cmds[i].idCopied
  }

  /** No command of the run is the one that breaks the session, in the state it meets. */
  predicate NeverLosesId(s: State, cmds: seq<Command>)
    decreases |cmds|
  {
    cmds == [] || (!LosesId(s, cmds[0]) && NeverLosesId(Do(s, cmds[0]), cmds[1..]))
  }

  /** The session is sound now and after each command of the run. */
  ghost predicate AlwaysSound(s: State, cmds: seq<Command>)
    decreases |cmds|
  {
    Sound(s) && (cmds == [] || AlwaysSound(Do(s, cmds[0]), cmds[1..]))
  }

  /** Over every run, the session is sound throughout if and only if that command never comes. */
  lemma {:induction false} SoundOverRunsExactly(s: State, cmds: seq<Command>)
    requires Sound(s)
    ensures AlwaysSound(s, cmds) <==> NeverLosesId(s, cmds)
    ensures NeverLosesId(s, cmds) ==> Sound(DoAll(s, cmds))
    decreases |cmds|
  {
    if cmds != [] {
      SoundExactly(s, cmds[0]);
      if !LosesId(s, cmds[0]) {
        SoundOverRunsExactly(Do(s, cmds[0]), cmds[1..]);
      }
    }
  }

  /** Working copies are enough. */
  lemma {:induction false} CopiesAreEnough(s: State, cmds: seq<Command>)
    requires CopiesWork(cmds)
    ensures NeverLosesId(s, cmds)
    decreases |cmds|
  {
    if cmds != [] {
      assert cmds[0].SetGroup? ==> cmds[0].idCopied;
      assert forall i :: 0 <= i < |cmds[1..]| ==> cmds[1..][i] == cmds[i + 1];
      CopiesAreEnough(Do(s, cmds[0]), cmds[1..]);
    }
  }

  /** A session that never loses its group id never uses a freed topic: after any commands, `CONSUME` and `ACK` touch
      only the live topic, and the group is current. */
  lemma NoFreedTopicIsUsed(cmds: seq<Command>, next: Command)
    requires NeverLosesId(FRESH, cmds)
    ensures
      var s := DoAll(FRESH, cmds);
      && Current(s)
      && Used(s, next) !! s.freed
      && (Used(s, next) != {} ==> Used(s, next) == {s.topic.value})
  {
    SoundOverRunsExactly(FRESH, cmds);
  }

  /** A topic is freed at most once: what a command frees was live before. */
  lemma NoTopicIsFreedTwice(s: State, cmd: Command)
    requires Numbered(s)
    ensures s.freed <= Do(s, cmd).freed
    ensures Do(s, cmd).freed - s.freed <= (if s.topic.Some? then {s.topic.value} else {})
    ensures s.topic.Some? ==> s.topic.value !in s.freed
  {
  }

  /** Soundness is the weakest condition that keeps sessions current: exactly from the sound states
      does every run with working copies stay current. */
  lemma SoundIsWeakest(s: State)
    requires Numbered(s) && Current(s)
    ensures Sound(s) <==> forall cmds :: CopiesWork(cmds) ==> Current(DoAll(s, cmds))
  {
    if Sound(s) {
      forall cmds | CopiesWork(cmds) ensures Current(DoAll(s, cmds)) {
        CopiesAreEnough(s, cmds);
        SoundOverRunsExactly(s, cmds);
      }
    } else {
      var rescue := [SetTopic("t", true, true, true, true)];
      assert rescue[1..] == [] && DoAll(s, rescue) == DoAll(Do(s, rescue[0]), []);
      assert CopiesWork(rescue) && !Current(DoAll(s, rescue));
    }
  }

  /** A run that ends in the use of a freed topic: a topic record cannot be allocated, then a group id cannot be
      copied, then a topic is set. */
  lemma FailedCopyLeadsToFreedTopic()
    ensures
      var s1 := Do(FRESH, SetTopic("a", true, true, true, true));
      var s2 := Do(s1, SetGroup("g", true, true));
      var s3 := Do(s2, SetTopic("b", true, true, false, true));
      var s4 := Do(s3, SetGroup("h", false, true));
      var s5 := Do(s4, SetTopic("c", true, true, true, true));
      LosesId(s3, SetGroup("h", false, true)) && !(Used(s5, Consume) !! s5.freed)
  {
  }

  /** When nothing fails, `SET_TOPIC` and `SET_GROUP` commute, from every state, on a topic that is there and on one that
      the session has to create; `CONSUME` then works on the new topic, through a group attached to it. */
  lemma TopicAndGroupCommute(s: State, name: string, id: string, found: bool)
    requires found || name != ""
    ensures
      var t, g := SetTopic(name, true, found, true, true), SetGroup(id, true, true);
      && DoAll(s, [t, g]) == DoAll(s, [g, t])
      && DoAll(s, [t, g]).topic == Some(s.serial)
      && DoAll(s, [t, g]).group == (if id == "" then None else Some(GroupRef(id, s.serial)))
      && (id != "" ==> Used(DoAll(s, [t, g]), Consume) == {s.serial})
  {
    var t, g := SetTopic(name, true, found, true, true), SetGroup(id, true, true);
    assert [t, g][1..] == [g] && [g, t][1..] == [t] && [t][1..] == [] && [g][1..] == [];
    assert DoAll(s, [t, g]) == DoAll(Do(s, t), [g]) == DoAll(Do(Do(s, t), g), []);
    assert DoAll(s, [g, t]) == DoAll(Do(s, g), [t]) == DoAll(Do(Do(s, g), t), []);
  }

  /** `SET_TOPIC` gives the session a topic exactly when the name was copied, the record was made, and the topic was there
      or has a name; the old one is freed exactly when the new one was found, and otherwise it is never freed. */
  lemma {:induction false} OldTopicIsFreedExactly(s: State, cmd: Command, later: seq<Command>)
    requires Numbered(s) && cmd.SetTopic?
    ensures Do(s, cmd).topic.Some? <==> cmd.nameCopied && cmd.topicMade && (cmd.found || cmd.name != "")
    ensures s.topic.Some? ==>
              (s.topic.value in DoAll(Do(s, cmd), later).freed <==> cmd.nameCopied && cmd.found)
  {
    var n := Do(s, cmd);
    if s.topic.Some? {
      FreedOnce(n, later, s.topic.value);
    }
  }

  /** A topic that the session no longer has is freed by no later command. */
  lemma {:induction false} FreedOnce(s: State, cmds: seq<Command>, t: nat)
    requires t < s.serial && s.topic != Some(t)
    ensures t in DoAll(s, cmds).freed <==> t in s.freed
    decreases |cmds|
  {
    if cmds != [] {
      FreedOnce(Do(s, cmds[0]), cmds[1..], t);
    }
  }

  class ClientSession {
    var group: Option<GroupRef>
    var topic: Option<nat>
    var groupId: Option<string>
    var topicName: Option<string>
    ghost var freed: set<nat>
    var serial: nat

    ghost function Value(): State
      reads this
    {
      State(group, topic, groupId, topicName, freed, serial)
    }

    /** `calloc` in `handle_client_session` */
    constructor ()
      ensures Value() == FRESH
    {
      group, topic, groupId, topicName, freed, serial := None, None, None, None, {}, 0;
    }

    /** `SET_GROUP` */
    method SetGroup(id: string, idCopied: bool, groupMade: bool)
      modifies this
      ensures Value() == Do(old(Value()), Command.SetGroup(id, idCopied, groupMade))
    {
      groupId := if idCopied then Some(id) else None;
      if topic.Some? {
        CreateGroup(groupMade);
      }
    }

    /** `SET_TOPIC`: only a topic whose file exists replaces and frees the old one; `create_topic` overwrites it. */
    method SetTopic(name: string, nameCopied: bool, found: bool, topicMade: bool, groupMade: bool)
      modifies this
      ensures Value() == Do(old(Value()), Command.SetTopic(name, nameCopied, found, topicMade, groupMade))
    {
      topicName := if nameCopied then Some(name) else None;
      if topicName.Some? && found {
        if topic.Some? {
          freed := freed + {topic.value};
        }
        topic := if topicMade then Some(serial) else None;
      } else {
        topic := if topicName.Some? && name != "" && topicMade then Some(serial) else None;
      }
      serial := serial + 1;
      if topic.Some? && groupId.Some? {
        CreateGroup(groupMade);
      }
    }

    /** Frees the old group record and calls `create_group`. */
    method CreateGroup(groupMade: bool)
      requires topic.Some?
      modifies this`group
      ensures group == Made(groupId, topic.value, groupMade)
    {
      group := None;
      if groupId.Some? && groupId.value != "" && groupMade {
        group := Some(GroupRef(groupId.value, topic.value));
      }
    }
  }
}
