/** Runs of load, append and save on one handle over one file: when delta writes keep file and RAM in step. */
module DeltaSave {
  import opened Machine
  import opened ChunkStore

  datatype Op = Load(fault: LoadFault) | Append(b: bytes, canGrow: bool) | Save(canOpen: bool)

  datatype State = State(chunk: View, file: bytes)

  function Step(s: State, op: Op): State {
    match op
    case Load(fault) => s.(chunk := Loaded(s.chunk, s.file, fault))
    case Append(b, canGrow) => s.(chunk := Appended(s.chunk, b, canGrow))
    case Save(canOpen) => State(Saved(s.chunk, canOpen), FileAfterSave(s.chunk, s.file, canOpen))
  }

  function Run(s: State, ops: seq<Op>): State
    decreases |ops|
  {
    if ops == [] then s else Run(Step(s, ops[0]), ops[1..])
  }

  /** The saved part of the RAM is the file. */
  ghost predicate Mirrors(s: State) {
    s.chunk.persisted <= |s.chunk.ram| && s.chunk.ram[..s.chunk.persisted] == s.file
  }

  /** Either the RAM mirrors the file, or bytes of the file are missing from it. */
  ghost predicate MirrorsOrBlind(s: State) {
    s.chunk.persisted <= |s.chunk.ram| && (Mirrors(s) || s.chunk.persisted < |s.file|)
  }

  /** Whether the handle is in step after one more operation: only loads change the answer. */
  predicate StillInStep(s: State, op: Op, inStep: bool) {
    match op
    case Load(fault) =>
      (match SightOf(s.chunk, s.file, fault)
       case Full => true
       case Blind => s.file == []
       case Unread => inStep)
    case _ => inStep
  }

  predicate InStep(s: State, ops: seq<Op>, inStep: bool)
    decreases |ops|
  {
    if ops == [] then inStep else InStep(Step(s, ops[0]), ops[1..], StillInStep(s, ops[0], inStep))
  }

  lemma StepMirrors(s: State, op: Op)
    requires MirrorsOrBlind(s)
    ensures MirrorsOrBlind(Step(s, op))
    ensures Mirrors(Step(s, op)) <==> StillInStep(s, op, Mirrors(s))
  {
  }

  /** Over every run, RAM and file stay in step except after a load that could not open a non-empty file;
      a later complete load restores them. */
  lemma {:induction false} RunMirrorsExactly(s: State, ops: seq<Op>)
    requires MirrorsOrBlind(s)
    ensures MirrorsOrBlind(Run(s, ops))
    ensures Mirrors(Run(s, ops)) <==> InStep(s, ops, Mirrors(s))
    decreases |ops|
  {
    if ops != [] {
      StepMirrors(s, ops[0]);
      RunMirrorsExactly(Step(s, ops[0]), ops[1..]);
    }
  }

  /** A load that cannot open the file reports success, and the mirror is gone. */
  lemma UnopenedLoadBreaksMirror()
    ensures
      var s := State(View([7], 1, 1), [7]);
      && Mirrors(s)
      && SightOf(s.chunk, s.file, CannotOpen) != Unread
      && !Mirrors(Run(s, [Load(CannotOpen)]))
  {
  }

  /** On a mirrored handle a delta write leaves the file that rewriting it whole would leave. */
  lemma DeltaWriteIsWholeWrite(s: State)
    requires Mirrors(s)
    ensures Step(s, Save(true)).file == s.chunk.ram
    ensures Step(s, Save(false)).file == s.file
  {
  }

  ghost predicate LoadFree(ops: seq<Op>) {
    forall i :: 0 <= i < |ops| ==> !ops[i].Load?
  }

  /** The run without its saves. */
  function WithoutSaves(ops: seq<Op>): seq<Op> {
    if ops == [] then []
    else (if ops[0].Save? then [] else [ops[0]]) + WithoutSaves(ops[1..])
  }

  /** The same RAM and capacity, and the same file once the pending bytes are counted in. */
  ghost predicate SameOnceSaved(s: State, t: State) {
    && s.chunk.ram == t.chunk.ram && s.chunk.capacity == t.chunk.capacity
    && s.chunk.persisted <= |s.chunk.ram| && t.chunk.persisted <= |t.chunk.ram|
    && s.file + Pending(s.chunk) == t.file + Pending(t.chunk)
  }

  lemma PendingGrows(v: View, b: bytes, canGrow: bool)
    requires v.persisted <= |v.ram| && AppendCode(v, b, canGrow) == 0
    ensures Pending(Appended(v, b, canGrow)) == Pending(v) + b
  {
  }

  lemma AppendKeepsSameOnceSaved(s: State, t: State, b: bytes, canGrow: bool)
    requires SameOnceSaved(s, t)
    ensures SameOnceSaved(Step(s, Append(b, canGrow)), Step(t, Append(b, canGrow)))
  {
    if AppendCode(s.chunk, b, canGrow) == 0 {
      PendingGrows(s.chunk, b, canGrow);
      PendingGrows(t.chunk, b, canGrow);
      Assoc(s.file, Pending(s.chunk), b);
      Assoc(t.file, Pending(t.chunk), b);
    }
  }

  lemma {:induction false} SavesAreInvisible(s: State, t: State, ops: seq<Op>)
    requires LoadFree(ops) && SameOnceSaved(s, t)
    ensures SameOnceSaved(Run(s, ops), Run(t, WithoutSaves(ops)))
    decreases |ops|
  {
    if ops != [] {
      var rest := WithoutSaves(ops[1..]);
      assert forall i :: 0 <= i < |ops[1..]| ==> ops[1..][i] == ops[i + 1];
      match ops[0]
      case Save(canOpen) =>
        assert [] + rest == rest;
        SavesAreInvisible(Step(s, ops[0]), t, ops[1..]);
      case Append(b, canGrow) =>
        assert ([ops[0]] + rest)[1..] == rest;
        AppendKeepsSameOnceSaved(s, t, b, canGrow);
        SavesAreInvisible(Step(s, ops[0]), Step(t, ops[0]), ops[1..]);
    }
  }

  /** Saves inserted anywhere in a load-free run, whether they fail or not, do not change the file
      that the final save produces. */
  lemma ExtraSavesChangeNothing(s: State, ops: seq<Op>)
    requires LoadFree(ops) && s.chunk.persisted <= |s.chunk.ram|
    ensures Step(Run(s, ops), Save(true)).file == Step(Run(s, WithoutSaves(ops)), Save(true)).file
  {
    SavesAreInvisible(s, s, ops);
  }

  /** A short read leaves a mixture: the bytes read over the front of what was there, and the old sizes. */
  lemma ShortReadMixes(v: View, file: bytes, n: nat)
    requires n < |file|
    ensures
      var l := Loaded(v, file, ShortRead(n));
      && |l.ram| == |v.ram| && l.persisted == v.persisted
      && forall k :: 0 <= k < |v.ram| ==> l.ram[k] == if k < n then file[k] else v.ram[k]
  {
  }

  /** Over every run the block never shrinks, so a file that once fitted can be loaded again without memory. */
  lemma {:induction false} BlockNeverShrinks(s: State, ops: seq<Op>)
    ensures Run(s, ops).chunk.capacity >= s.chunk.capacity
    ensures |s.file| <= s.chunk.capacity ==> SightOf(Run(s, ops).chunk, s.file, NoMemory) == Full
    decreases |ops|
  {
    if ops != [] {
      BlockNeverShrinks(Step(s, ops[0]), ops[1..]);
    }
  }
}
