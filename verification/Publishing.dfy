/** Publishing through one handle: single events, batches, and what a failure leaves behind
    (src/messaging/publish_event.c). */
module Publishing {
  import opened Machine
  import opened ChunkStore
  import opened DeltaSave
  import opened Framing
  import opened Cursors
  import FrameLaws

  /** One entry of a batch. A NULL pointer counts as empty data: the code treats both as invalid. */
  datatype Item = Item(data: bytes, headerFits: bool, dataFits: bool)

  predicate Valid(data: bytes) {
    1 <= |data| <= MAX_EVENT
  }

  /** Both appends of one event; `ok` is false when one of them failed. */
  datatype Appending = Appending(chunk: View, ok: bool)

  function EventAppended(v: View, i: Item): Appending {
    if !Valid(i.data) || AppendCode(v, EncodeU32(|i.data|), i.headerFits) != 0 then Appending(v, false)
    else
      var w := Appended(v, EncodeU32(|i.data|), i.headerFits);
      if AppendCode(w, i.data, i.dataFits) != 0 then Appending(w, false)
      else Appending(Appended(w, i.data, i.dataFits), true)
  }

  function EventsAppended(v: View, items: seq<Item>): Appending
    decreases |items|
  {
    if items == [] then Appending(v, true)
    else
      var a := EventAppended(v, items[0]);
      if a.ok then EventsAppended(a.chunk, items[1..]) else a
  }

  datatype Publication = Publication(state: State, code: int)

  function SaveAfter(a: Appending, file: bytes, canOpen: bool): Publication {
    if !a.ok then Publication(State(a.chunk, file), -1)
    else Publication(Step(State(a.chunk, file), Save(canOpen)), SaveCode(a.chunk, canOpen))
  }

  /** `publish_event` */
  function PublishResult(s: State, i: Item, canOpen: bool): Publication {
    if |i.data| > MAX_EVENT then Publication(s, -2)
    else SaveAfter(EventAppended(s.chunk, i), s.file, canOpen)
  }

  /** `publish_event_batch` */
  function BatchResult(s: State, items: seq<Item>, canOpen: bool): Publication {
    if items == [] then Publication(s, -1) else SaveAfter(EventsAppended(s.chunk, items), s.file, canOpen)
  }

  function Bulk(items: seq<Item>): nat {
    if items == [] then 0 else HEADER + |items[0].data| + Bulk(items[1..])
  }

  class Topic {
    const chunk: Chunk?

    constructor (chunk: Chunk?)
      ensures this.chunk == chunk
    {
      this.chunk := chunk;
    }

    ghost predicate Ready()
      reads chunk
    {
      chunk != null ==> chunk.Valid()
    }

    ghost function Reach(): set<object>
      reads chunk
    {
      var c: Chunk? := chunk;
      if c == null then {} else {c as object, c.data}
    }

    ghost function Now(): State
      requires chunk != null && chunk.Valid()
      reads chunk, if chunk == null then {} else {chunk.data, chunk.file}
    {
      State(chunk.Value(), chunk.file.content)
    }

    /** The two appends that `publish_event` and the batch loop share. */
    method AppendEvent(i: Item) returns (ok: bool)
      requires chunk != null && chunk.Valid() && chunk.size + HEADER + |i.data| <= HALF_MOD
      requires Valid(i.data)
      modifies chunk, chunk.data
      ensures chunk.Valid() && (chunk.data == old(chunk.data) || fresh(chunk.data))
      ensures Appending(chunk.Value(), ok) == EventAppended(old(chunk.Value()), i)
      ensures ok ==> chunk.size == old(chunk.size) + HEADER + |i.data|
    {
      var code := chunk.Append(EncodeU32(|i.data|), i.headerFits);
      if code != 0 {
        return false;
      }
      code := chunk.Append(i.data, i.dataFits);
      return code == 0;
    }

    /** `publish_event` */
    method Publish(i: Item, canOpen: bool) returns (code: int)
      requires Ready() && (chunk != null ==> chunk.size + HEADER + |i.data| <= HALF_MOD)
      modifies Reach(), if chunk == null then {} else {chunk.file}
      ensures Ready()
      ensures chunk == null ==> code == if |i.data| > MAX_EVENT then -2 else -1
      ensures chunk != null ==> Publication(Now(), code) == PublishResult(old(Now()), i, canOpen)
      ensures chunk != null && chunk.file.content == old(chunk.file.content) ==> chunk.file.present == old(chunk.file.present)
      ensures chunk != null && chunk.file.content != old(chunk.file.content) ==> chunk.file.present
    {
      if |i.data| == 0 {
        return -1;
      }
      if |i.data| > MAX_EVENT {
        return -2;
      }
      if chunk == null {
        return -1;
      }
      var ok := AppendEvent(i);
      if !ok {
        return -1;
      }
      code := chunk.SaveDelta(canOpen);
    }

    /** `publish_event_batch` */
    method PublishBatch(items: seq<Item>, canOpen: bool) returns (code: int)
      requires Ready() && (chunk != null ==> chunk.size + Bulk(items) <= HALF_MOD)
      modifies Reach(), if chunk == null then {} else {chunk.file}
      ensures Ready()
      ensures chunk == null ==> code == -1
      ensures chunk != null ==> Publication(Now(), code) == BatchResult(old(Now()), items, canOpen)
      ensures chunk != null && chunk.file.content == old(chunk.file.content) ==> chunk.file.present == old(chunk.file.present)
      ensures chunk != null && chunk.file.content != old(chunk.file.content) ==> chunk.file.present
    {
      if |items| == 0 || chunk == null {
        return -1;
      }
      ghost var start := chunk.Value();
      for i := 0 to |items|
        invariant chunk.Valid() && (chunk.data == old(chunk.data) || fresh(chunk.data))
        invariant chunk.file.content == old(chunk.file.content) && chunk.file.present == old(chunk.file.present)
        invariant chunk.size + Bulk(items[i..]) <= HALF_MOD
        invariant EventsAppended(start, items) == EventsAppended(chunk.Value(), items[i..])
      {
        assert items[i..][0] == items[i] && items[i..][1..] == items[i + 1..];
        if !Valid(items[i].data) {
          return -1;
        }
        var ok := AppendEvent(items[i]);
        if !ok {
          return -1;
        }
      }
      code := chunk.SaveDelta(canOpen);
    }

    /** `flush_topic` */
    method Flush(canOpen: bool) returns (code: int)
      requires Ready()
      modifies Reach(), if chunk == null then {} else {chunk.file}
      ensures Ready()
      ensures chunk == null ==> code == -1
      ensures chunk != null ==> Now() == Step(old(Now()), Save(canOpen)) && code == SaveCode(old(Now()).chunk, canOpen)
      ensures chunk != null && chunk.file.content == old(chunk.file.content) ==> chunk.file.present == old(chunk.file.present)
      ensures chunk != null && chunk.file.content != old(chunk.file.content) ==> chunk.file.present
    {
      if chunk == null {
        return -1;
      }
      code := chunk.SaveDelta(canOpen);
    }

    /** `get_topic_size`: 0 also when the load fails. */
    method Size(fault: LoadFault) returns (n: nat)
      requires Ready()
      modifies Reach()
      ensures Ready()
      ensures chunk == null ==> n == 0
      ensures chunk != null ==> Now() == Step(old(Now()), Load(fault))
      ensures chunk != null ==> n == |See(chunk.file.content, SightOf(old(chunk.Value()), chunk.file.content, fault))|
    {
      if chunk == null {
        return 0;
      }
      var code := chunk.Load(fault);
      if code != 0 {
        return 0;
      }
      return chunk.size;
    }
  }

  /** `create_topic`: makes the file with the two bytes `{}`. `topic_exists` takes a file that it cannot open
      (`looks` is false) for missing, and then the bytes go behind what is there. */
  method CreateTopic(file: File, nameIsEmpty: bool, looks: bool, canGrow: bool, canOpen: bool, canAlloc: bool)
    returns (t: Topic?)
    modifies file
    ensures t != null <==> !nameIsEmpty && !(old(file.present) && looks) && canGrow && canOpen && canAlloc
    ensures t != null ==> fresh(t) && t.chunk != null && fresh(t.chunk) && t.chunk.Valid() && t.chunk.file == file
    ensures t != null ==> fresh(t.chunk.data)
    ensures t != null ==> t.chunk.Value() == View([0x7B, 0x7D], 2, 1024)
    ensures
      var seeds := !nameIsEmpty && !(old(file.present) && looks) && canGrow && canOpen;
      && file.content == old(file.content) + (if seeds then [0x7B, 0x7D] else [])
      && file.present == (old(file.present) || seeds)
  {
    if nameIsEmpty || (file.present && looks) {
      return null;
    }
    var chunk := new Chunk(file);
    var code := chunk.Append([0x7B, 0x7D], canGrow);
    if code != 0 {
      return null;
    }
    code := chunk.SaveDelta(canOpen);
    if code != 0 || !canAlloc {
      return null;
    }
    t := new Topic(chunk);
  }

  /** Nothing is waiting to be saved. */
  ghost predicate Synced(v: View) {
    v.persisted == |v.ram|
  }

  function Payloads(items: seq<Item>): seq<Event>
    requires forall i :: 0 <= i < |items| ==> Valid(items[i].data)
  {
    if items == [] then []
    else
      assert Valid(items[0].data);
      var first: Event := items[0].data;
      [first] + Payloads(items[1..])
  }

  /** One event: what the two appends leave waiting, by where they stopped. */
  lemma AppendEventPends(v: View, i: Item)
    requires v.persisted <= |v.ram|
    ensures
      var a := EventAppended(v, i);
      && a.chunk.persisted == v.persisted <= |a.chunk.ram|
      && (a.ok ==> Valid(i.data) && Pending(a.chunk) == Pending(v) + Frame(i.data))
      && (a.ok || Pending(a.chunk) == Pending(v)
               || (Valid(i.data) && Pending(a.chunk) == Pending(v) + EncodeU32(|i.data|)))
  {
  }

  /** A publish that returns 0 has put exactly what was waiting plus one whole frame into the file;
      a publish that returns anything else has left the file alone. */
  lemma PublishIsAtomicOnDisk(s: State, i: Item, canOpen: bool)
    requires s.chunk.persisted <= |s.chunk.ram|
    ensures
      var p := PublishResult(s, i, canOpen);
      && (p.code == 0 ==> Valid(i.data) && p.state.file == s.file + Pending(s.chunk) + Frame(i.data))
      && (p.code == 0 ==> Synced(p.state.chunk))
      && (p.code != 0 ==> p.state.file == s.file)
      && p.state.chunk.persisted <= |p.state.chunk.ram|
  {
    AppendEventPends(s.chunk, i);
    var a := EventAppended(s.chunk, i);
    if a.ok {
      assert |Pending(a.chunk)| > 0;
      Assoc(s.file, Pending(s.chunk), Frame(i.data));
    }
  }

  lemma {:induction false} AppendEventsPend(v: View, items: seq<Item>)
    requires v.persisted <= |v.ram|
    requires EventsAppended(v, items).ok
    ensures forall i :: 0 <= i < |items| ==> Valid(items[i].data)
    ensures
      var a := EventsAppended(v, items);
      && a.chunk.persisted == v.persisted <= |a.chunk.ram|
      && Pending(a.chunk) == Pending(v) + Frames(Payloads(items))
    decreases |items|
  {
    if items != [] {
      var a := EventAppended(v, items[0]);
      AppendEventPends(v, items[0]);
      AppendEventsPend(a.chunk, items[1..]);
      AllButFirst(items);
      Assoc(Pending(v), Frame(items[0].data), Frames(Payloads(items[1..])));
    }
  }

  /** Memory for `n` more bytes: the block holds them, or a larger one can be had. */
  predicate Fits(size: nat, capacity: nat, n: nat, canGrow: bool) {
    size + n <= capacity || canGrow
  }

  /** Memory for the headers and the payloads of the items, one after the other, behind `size` bytes. */
  predicate HasRoom(size: nat, capacity: nat, items: seq<Item>)
    decreases |items|
  {
    items == [] ||
    (&& Fits(size, capacity, HEADER, items[0].headerFits)
     && Fits(size + HEADER, GrownCapacity(capacity, size + HEADER), |items[0].data|, items[0].dataFits)
     && HasRoom(size + HEADER + |items[0].data|, CapacityAfter(size, capacity, items[0]), items[1..]))
  }

  function CapacityAfter(size: nat, capacity: nat, i: Item): nat {
    GrownCapacity(GrownCapacity(capacity, size + HEADER), size + HEADER + |i.data|)
  }

  function CapacityAfterAll(size: nat, capacity: nat, items: seq<Item>): nat
    decreases |items|
  {
    if items == [] then capacity
    else CapacityAfterAll(size + HEADER + |items[0].data|, CapacityAfter(size, capacity, items[0]), items[1..])
  }

  ghost predicate AllItemsValid(items: seq<Item>) {
    forall i :: 0 <= i < |items| ==> Valid(items[i].data)
  }

  /** With memory at hand there is room for everything; in a block that is large enough no memory is needed. */
  lemma {:induction false} RoomIsThere(size: nat, capacity: nat, items: seq<Item>)
    requires (forall i :: 0 <= i < |items| ==> items[i].headerFits && items[i].dataFits) || size + Bulk(items) <= capacity
    ensures HasRoom(size, capacity, items)
    decreases |items|
  {
    if items != [] {
      assert forall i :: 0 <= i < |items[1..]| ==> items[1..][i] == items[i + 1];
      RoomIsThere(size + HEADER + |items[0].data|, CapacityAfter(size, capacity, items[0]), items[1..]);
    }
  }

  lemma EventAppendsExactly(v: View, i: Item)
    ensures
      var a := EventAppended(v, i);
      && (a.ok <==> Valid(i.data) && HasRoom(|v.ram|, v.capacity, [i]))
      && (a.ok ==> a.chunk == View(v.ram + Frame(i.data), v.persisted, CapacityAfter(|v.ram|, v.capacity, i)))
  {
    assert [i][1..] == [];
    if EventAppended(v, i).ok {
      Assoc(v.ram, EncodeU32(|i.data|), i.data);
    }
  }

  lemma RoomStep(size: nat, capacity: nat, items: seq<Item>)
    requires items != []
    ensures HasRoom(size, capacity, items)
       <==> HasRoom(size, capacity, [items[0]])
            && HasRoom(size + HEADER + |items[0].data|, CapacityAfter(size, capacity, items[0]), items[1..])
    ensures AllItemsValid(items) <==> Valid(items[0].data) && AllItemsValid(items[1..])
  {
    assert [items[0]][1..] == [];
    assert forall i :: 1 <= i < |items| ==> items[i] == items[1..][i - 1];
  }

  lemma FirstItem(v: View, items: seq<Item>) returns (a: Appending)
    requires items != []
    ensures EventsAppended(v, items) == if a.ok then EventsAppended(a.chunk, items[1..]) else a
    ensures AllItemsValid(items) && HasRoom(|v.ram|, v.capacity, items)
       <==> a.ok && AllItemsValid(items[1..]) && HasRoom(|a.chunk.ram|, a.chunk.capacity, items[1..])
    ensures a.ok ==> |a.chunk.ram| == |v.ram| + HEADER + |items[0].data|
    ensures a.ok ==> CapacityAfterAll(|v.ram|, v.capacity, items)
                     == CapacityAfterAll(|a.chunk.ram|, a.chunk.capacity, items[1..])
  {
    RoomStep(|v.ram|, v.capacity, items);
    EventAppendsExactly(v, items[0]);
    a := EventAppended(v, items[0]);
  }

  lemma {:induction false} EventsAppendExactly(v: View, items: seq<Item>)
    ensures
      var a := EventsAppended(v, items);
      && (a.ok <==> AllItemsValid(items) && HasRoom(|v.ram|, v.capacity, items))
      && (a.ok ==> |a.chunk.ram| == |v.ram| + Bulk(items))
      && (a.ok ==> a.chunk.capacity == CapacityAfterAll(|v.ram|, v.capacity, items))
    decreases |items|
  {
    if items != [] {
      var a := FirstItem(v, items);
      if a.ok {
        EventsAppendExactly(a.chunk, items[1..]);
      }
    }
  }

  /** When a publish succeeds, for all inputs; -2 is kept for events over 10 MiB. */
  lemma PublishSucceedsExactly(s: State, i: Item, canOpen: bool)
    requires s.chunk.persisted <= |s.chunk.ram|
    ensures
      var code := PublishResult(s, i, canOpen).code;
      && (code == 0 <==> 1 <= |i.data| <= 10485760 && HasRoom(|s.chunk.ram|, s.chunk.capacity, [i]) && canOpen)
      && (code == -2 <==> |i.data| > 10485760) && code in {0, -1, -2}
  {
    EventAppendsExactly(s.chunk, i);
  }

  /** When a batch succeeds, for all inputs: it has an item, every item is valid, there is memory for all of them, and
      the file opens. */
  lemma BatchSucceedsExactly(s: State, items: seq<Item>, canOpen: bool)
    requires s.chunk.persisted <= |s.chunk.ram|
    ensures
      var code := BatchResult(s, items, canOpen).code;
      && (code == 0 <==> items != [] && AllItemsValid(items) && HasRoom(|s.chunk.ram|, s.chunk.capacity, items) && canOpen)
      && code in {0, -1}
  {
    EventsAppendExactly(s.chunk, items);
    if EventsAppended(s.chunk, items).ok {
      AppendEventsPend(s.chunk, items);
      if items != [] {
        assert |Frames(Payloads(items))| > 0;
      }
    }
  }

  /** A batch that returns 0 has appended its frames in order, behind anything that was waiting. */
  lemma BatchIsAtomicOnDisk(s: State, items: seq<Item>, canOpen: bool)
    requires s.chunk.persisted <= |s.chunk.ram|
    ensures
      var p := BatchResult(s, items, canOpen);
      && (p.code == 0 ==> forall i :: 0 <= i < |items| ==> Valid(items[i].data))
      && (p.code == 0 ==> p.state.file == s.file + Pending(s.chunk) + Frames(Payloads(items)))
      && (p.code == 0 ==> Synced(p.state.chunk))
      && (p.code != 0 ==> p.state.file == s.file)
  {
    if BatchResult(s, items, canOpen).code == 0 {
      var a := EventsAppended(s.chunk, items);
      AppendEventsPend(s.chunk, items);
      Assoc(s.file, Pending(s.chunk), Frames(Payloads(items)));
    }
  }

  /** Publishing the items one after the other; stops at the first failure. */
  function PublishEach(s: State, items: seq<Item>): Publication
    decreases |items|
  {
    if items == [] then Publication(s, 0)
    else
      var p := PublishResult(s, items[0], true);
      if p.code != 0 then p else PublishEach(p.state, items[1..])
  }

  lemma SyncedPublish(s: State, i: Item)
    requires Synced(s.chunk) && PublishResult(s, i, true).code == 0
    ensures Valid(i.data) && PublishResult(s, i, true).state.file == s.file + Frame(i.data)
    ensures Synced(PublishResult(s, i, true).state.chunk)
  {
  }

  lemma AllButFirst(items: seq<Item>)
    requires items != [] && Valid(items[0].data)
    requires forall i :: 0 <= i < |items[1..]| ==> Valid(items[1..][i].data)
    ensures forall i :: 0 <= i < |items| ==> Valid(items[i].data)
  {
    forall i | 0 <= i < |items| ensures Valid(items[i].data) {
      if i > 0 {
        assert items[i] == items[1..][i - 1];
      }
    }
  }

  lemma {:induction false} EachWritesFrames(s: State, items: seq<Item>)
    requires Synced(s.chunk) && PublishEach(s, items).code == 0
    ensures forall i :: 0 <= i < |items| ==> Valid(items[i].data)
    ensures PublishEach(s, items).state.file == s.file + Frames(Payloads(items))
    decreases |items|
  {
    if items != [] {
      var p := PublishResult(s, items[0], true);
      SyncedPublish(s, items[0]);
      EachWritesFrames(p.state, items[1..]);
      AllButFirst(items);
      Assoc(s.file, Frame(items[0].data), Frames(Payloads(items[1..])));
    }
  }

  lemma {:induction false} SinglesFollowBatch(s: State, v: View, items: seq<Item>)
    requires Synced(s.chunk) && v.ram == s.chunk.ram && v.capacity == s.chunk.capacity
    ensures PublishEach(s, items).code == 0 <==> EventsAppended(v, items).ok
    ensures
      var each, all := PublishEach(s, items), EventsAppended(v, items);
      all.ok ==> Synced(each.state.chunk) && each.state.chunk.ram == all.chunk.ram
                 && each.state.chunk.capacity == all.chunk.capacity
    decreases |items|
  {
    if items != [] {
      PublishSucceedsExactly(s, items[0], true);
      EventAppendsExactly(s.chunk, items[0]);
      EventAppendsExactly(v, items[0]);
      if EventAppended(v, items[0]).ok {
        SinglesFollowBatch(PublishResult(s, items[0], true).state, EventAppended(v, items[0]).chunk, items[1..]);
      }
    }
  }

  /** From a handle with nothing waiting, a batch succeeds exactly when single publishes of its items all do, and then
      it leaves the same RAM, block and file. */
  lemma BatchEqualsSingles(s: State, items: seq<Item>)
    requires Synced(s.chunk) && items != []
    ensures BatchResult(s, items, true).code == 0 <==> PublishEach(s, items).code == 0
    ensures BatchResult(s, items, true).code == 0 ==> BatchResult(s, items, true) == PublishEach(s, items)
  {
    SinglesFollowBatch(s, s.chunk, items);
    BatchSucceedsExactly(s, items, true);
    EventsAppendExactly(s.chunk, items);
    if BatchResult(s, items, true).code == 0 {
      BatchIsAtomicOnDisk(s, items, true);
      EachWritesFrames(s, items);
      assert s.file + Pending(s.chunk) == s.file;
    }
  }

  /** A save reports 0 exactly when nothing is left waiting, also when there was nothing and the file cannot be opened. */
  lemma SaveCodeTellsExactly(v: View, canOpen: bool)
    requires v.persisted <= |v.ram|
    ensures SaveCode(v, canOpen) == 0 <==> Pending(Saved(v, canOpen)) == []
    ensures SaveCode(v, canOpen) in {0, -1}
    ensures SaveCode(v, canOpen) != 0 ==> Saved(v, canOpen) == v && Pending(v) != []
  {
  }

  /** A flush behind a successful publish has nothing to do and cannot fail; behind a publish whose save could not open
      the file it brings the event to the disk. */
  lemma FlushCompletesPublish(s: State, i: Item, canOpen: bool, flushOpens: bool)
    requires Synced(s.chunk) && Valid(i.data) && HasRoom(|s.chunk.ram|, s.chunk.capacity, [i])
    ensures
      var p := PublishResult(s, i, canOpen);
      var flushed := Step(p.state, Save(flushOpens));
      && (p.code == 0 ==> flushed == p.state && SaveCode(p.state.chunk, flushOpens) == 0)
      && (p.code != 0 ==> (SaveCode(p.state.chunk, flushOpens) == 0 <==> flushOpens))
      && flushed.file == s.file + (if canOpen || flushOpens then Frame(i.data) else [])
  {
    PublishSucceedsExactly(s, i, canOpen);
    PublishIsAtomicOnDisk(s, i, canOpen);
    EventAppendsExactly(s.chunk, i);
    AppendEventPends(s.chunk, i);
    var p := PublishResult(s, i, canOpen);
    SaveCodeTellsExactly(p.state.chunk, flushOpens);
    assert Pending(s.chunk) == [] && [] + Frame(i.data) == Frame(i.data);
    assert s.file + [] == s.file;
  }

  lemma {:induction false} AppendEventsStopsAt(v: View, items: seq<Item>, k: nat)
    requires k < |items| && !Valid(items[k].data) && EventsAppended(v, items[..k]).ok
    ensures EventsAppended(v, items) == Appending(EventsAppended(v, items[..k]).chunk, false)
    decreases k
  {
    if k > 0 {
      assert items[..k][0] == items[0] && items[..k][1..] == items[1..][..k - 1];
      AppendEventsStopsAt(EventAppended(v, items[0]).chunk, items[1..], k - 1);
    }
  }

  /** A batch whose item `k` is invalid writes nothing, but the `k` earlier frames wait in RAM: the next
      publish writes them ahead of its own frame, and a load discards them. */
  lemma InvalidItemLeavesFramesWaiting(s: State, items: seq<Item>, k: nat, canOpen: bool, next: Item, fault: LoadFault)
    requires Synced(s.chunk) && k < |items| && !Valid(items[k].data) && EventsAppended(s.chunk, items[..k]).ok
    ensures forall i :: 0 <= i < k ==> Valid(items[..k][i].data)
    ensures
      var p := BatchResult(s, items, canOpen);
      var q := PublishResult(p.state, next, true);
      var l := Step(p.state, Load(fault));
      && p.code == -1 && p.state.file == s.file
      && Pending(p.state.chunk) == Frames(Payloads(items[..k]))
      && (q.code == 0 ==> q.state.file == s.file + Frames(Payloads(items[..k])) + Frame(next.data))
      && (SightOf(p.state.chunk, s.file, fault) != Unread ==> Pending(l.chunk) == [] && l.file == s.file)
  {
    AppendEventsPend(s.chunk, items[..k]);
    AppendEventsStopsAt(s.chunk, items, k);
    var p := BatchResult(s, items, canOpen);
    assert Pending(s.chunk) + Frames(Payloads(items[..k])) == Frames(Payloads(items[..k]));
    PublishIsAtomicOnDisk(p.state, next, true);
  }

  /** The first publish failed: what is waiting is nothing, a bare header or a whole frame. */
  lemma WaitingAfterFailure(s: State, e: Item, eOpen: bool)
    requires Synced(s.chunk) && PublishResult(s, e, eOpen).code != 0
    ensures
      var waiting := Pending(PublishResult(s, e, eOpen).state.chunk);
      if !Valid(e.data) || AppendCode(s.chunk, EncodeU32(|e.data|), e.headerFits) != 0 then waiting == []
      else if !EventAppended(s.chunk, e).ok then waiting == EncodeU32(|e.data|)
      else waiting == Frame(e.data)
  {
  }

  /** A log that grew by `waiting` and the frames of `last` holds the frames of `some` exactly when the lengths fit:
      the bytes then decide, here for the cases that a failed publish leaves. */
  lemma GrownLog(log: bytes, base: nat, es: seq<Event>, waiting: bytes, some: seq<Event>, last: Event)
    requires Framed(log, base, es)
    requires waiting == Frames(some) || |waiting| != |Frames(some)|
    ensures Framed(log + waiting + Frame(last), base, es + (some + [last])) <==> waiting == Frames(some)
  {
    FramesConcat(some, [last]);
    FramesOne(last);
    FramedGrows(log, base, es, some + [last]);
    FramesConcat(es, some + [last]);
    Assoc(log, waiting, Frame(last));
  }

  /** A handle that is used again after a failed publish. The later event lands right behind the earlier
      ones exactly when the failure came before the length header was appended; and the failed event turns
      up after all exactly when only its save failed. In the remaining case, a payload that did not fit,
      a stray header makes the log wrong either way. */
  lemma ReuseAfterFailure(s: State, base: nat, es: seq<Event>, e: Item, eOpen: bool, f: Item)
    requires Synced(s.chunk) && Framed(s.file, base, es)
    requires PublishResult(s, e, eOpen).code != 0
    requires PublishResult(PublishResult(s, e, eOpen).state, f, true).code == 0
    ensures Valid(f.data)
    ensures
      var file := PublishResult(PublishResult(s, e, eOpen).state, f, true).state.file;
      && (Framed(file, base, es + [f.data]) <==>
            !Valid(e.data) || AppendCode(s.chunk, EncodeU32(|e.data|), e.headerFits) != 0)
      && (Valid(e.data) ==> (Framed(file, base, es + [e.data, f.data]) <==> EventAppended(s.chunk, e).ok))
  {
    var p := PublishResult(s, e, eOpen);
    PublishIsAtomicOnDisk(s, e, eOpen);
    PublishIsAtomicOnDisk(p.state, f, true);
    WaitingAfterFailure(s, e, eOpen);
    var waiting := Pending(p.state.chunk);
    GrownLog(s.file, base, es, waiting, [], f.data);
    assert [] + [f.data] == [f.data];
    if Valid(e.data) {
      FramesOne(e.data);
      GrownLog(s.file, base, es, waiting, [e.data], f.data);
      assert [e.data] + [f.data] == [e.data, f.data];
    }
  }

  /** A publisher's calls on one handle. */
  datatype Call = Single(item: Item) | Many(items: seq<Item>)

  function Do(s: State, call: Call): Publication {
    match call
    case Single(i) => PublishResult(s, i, true)
    case Many(items) => BatchResult(s, items, true)
  }

  /** All calls returned 0. */
  predicate AllSucceed(s: State, calls: seq<Call>)
    decreases |calls|
  {
    calls == [] || (Do(s, calls[0]).code == 0 && AllSucceed(Do(s, calls[0]).state, calls[1..]))
  }

  function After(s: State, calls: seq<Call>): State
    decreases |calls|
  {
    if calls == [] then s else After(Do(s, calls[0]).state, calls[1..])
  }

  predicate AllValid(calls: seq<Call>) {
    forall i :: 0 <= i < |calls| ==>
      match calls[i]
      case Single(it) => Valid(it.data)
      case Many(items) => forall j :: 0 <= j < |items| ==> Valid(items[j].data)
  }

  /** Everything the calls hand over, in order. */
  function Published(calls: seq<Call>): seq<Event>
    requires AllValid(calls)
  {
    if calls == [] then []
    else (match calls[0] case Single(i) => [i.data] case Many(items) => Payloads(items)) + Published(calls[1..])
  }

  lemma {:induction false} CallsExtendLog(s: State, base: nat, es: seq<Event>, calls: seq<Call>)
    requires Synced(s.chunk) && Framed(s.file, base, es) && AllSucceed(s, calls)
    ensures AllValid(calls)
    ensures Framed(After(s, calls).file, base, es + Published(calls))
    decreases |calls|
  {
    if calls == [] {
      assert es + Published(calls) == es;
    } else {
      var next := Do(s, calls[0]).state;
      assert s.file + Pending(s.chunk) == s.file;
      var some: seq<Event>;
      match calls[0] {
        case Single(i) =>
          PublishIsAtomicOnDisk(s, i, true);
          some := [i.data];
          FramesOne(i.data);
        case Many(items) =>
          BatchIsAtomicOnDisk(s, items, true);
          some := Payloads(items);
      }
      FramedGrows(s.file, base, es, some);
      CallsExtendLog(next, base, es + some, calls[1..]);
      assert AllValid(calls) by {
        forall i | 1 <= i < |calls| ensures calls[i] == calls[1..][i - 1] {
        }
      }
      Assoc(es, some, Published(calls[1..]));
    }
  }

  function ItemsIn(call: Call): seq<Item> {
    match call
    case Single(i) => [i]
    case Many(items) => items
  }

  /** The items of all calls, one after the other. */
  function ItemsOf(calls: seq<Call>): seq<Item> {
    if calls == [] then [] else ItemsIn(calls[0]) + ItemsOf(calls[1..])
  }

  predicate NoEmptyBatch(calls: seq<Call>) {
    forall i :: 0 <= i < |calls| ==> calls[i] != Many([])
  }

  lemma {:induction false} RoomConcat(size: nat, capacity: nat, a: seq<Item>, b: seq<Item>)
    ensures HasRoom(size, capacity, a + b)
       <==> HasRoom(size, capacity, a) && HasRoom(size + Bulk(a), CapacityAfterAll(size, capacity, a), b)
    decreases |a|
  {
    if a == [] {
      assert a + b == b;
    } else {
      assert (a + b)[0] == a[0] && (a + b)[1..] == a[1..] + b;
      RoomConcat(size + HEADER + |a[0].data|, CapacityAfter(size, capacity, a[0]), a[1..], b);
    }
  }

  lemma ValidConcat(a: seq<Item>, b: seq<Item>)
    ensures AllItemsValid(a + b) <==> AllItemsValid(a) && AllItemsValid(b)
  {
    assert forall i :: 0 <= i < |a| ==> (a + b)[i] == a[i];
    assert forall i :: 0 <= i < |b| ==> (a + b)[|a| + i] == b[i];
  }

  lemma CallSucceedsExactly(s: State, call: Call)
    requires Synced(s.chunk)
    ensures
      var items := ItemsIn(call);
      var p := Do(s, call);
      && (p.code == 0 <==> items != [] && AllItemsValid(items) && HasRoom(|s.chunk.ram|, s.chunk.capacity, items))
      && (p.code == 0 ==> Synced(p.state.chunk) && |p.state.chunk.ram| == |s.chunk.ram| + Bulk(items)
                          && p.state.chunk.capacity == CapacityAfterAll(|s.chunk.ram|, s.chunk.capacity, items))
  {
    match call
    case Single(i) =>
      assert [i][1..] == [];
      PublishSucceedsExactly(s, i, true);
      EventAppendsExactly(s.chunk, i);
    case Many(items) =>
      BatchSucceedsExactly(s, items, true);
      EventsAppendExactly(s.chunk, items);
      if Do(s, call).code == 0 {
        BatchIsAtomicOnDisk(s, items, true);
      }
  }

  /** What a run needs: no empty batch, only valid items, and memory for them one after the other. */
  ghost predicate CanSucceed(size: nat, capacity: nat, calls: seq<Call>) {
    NoEmptyBatch(calls) && AllItemsValid(ItemsOf(calls)) && HasRoom(size, capacity, ItemsOf(calls))
  }

  lemma NoEmptyBatchStep(calls: seq<Call>)
    requires calls != []
    ensures NoEmptyBatch(calls) <==> ItemsIn(calls[0]) != [] && NoEmptyBatch(calls[1..])
  {
    assert forall i :: 1 <= i < |calls| ==> calls[i] == calls[1..][i - 1];
  }

  lemma CanSucceedStep(size: nat, capacity: nat, calls: seq<Call>)
    requires calls != []
    ensures
      var first := ItemsIn(calls[0]);
      CanSucceed(size, capacity, calls)
      <==> first != [] && AllItemsValid(first) && HasRoom(size, capacity, first)
           && CanSucceed(size + Bulk(first), CapacityAfterAll(size, capacity, first), calls[1..])
  {
    var first, rest := ItemsIn(calls[0]), ItemsOf(calls[1..]);
    NoEmptyBatchStep(calls);
    ValidConcat(first, rest);
    RoomConcat(size, capacity, first, rest);
  }

  lemma FirstCall(s: State, calls: seq<Call>) returns (ok: bool, next: State)
    requires Synced(s.chunk) && calls != []
    ensures AllSucceed(s, calls) <==> ok && AllSucceed(next, calls[1..])
    ensures CanSucceed(|s.chunk.ram|, s.chunk.capacity, calls)
       <==> ok && CanSucceed(|next.chunk.ram|, next.chunk.capacity, calls[1..])
    ensures ok ==> Synced(next.chunk)
  {
    CallSucceedsExactly(s, calls[0]);
    CanSucceedStep(|s.chunk.ram|, s.chunk.capacity, calls);
    ok, next := Do(s, calls[0]).code == 0, Do(s, calls[0]).state;
  }

  /** When a run of calls succeeds throughout, for all runs. */
  lemma {:induction false} AllSucceedExactly(s: State, calls: seq<Call>)
    requires Synced(s.chunk)
    ensures AllSucceed(s, calls) <==> CanSucceed(|s.chunk.ram|, s.chunk.capacity, calls)
    decreases |calls|
  {
    if calls != [] {
      var ok, next := FirstCall(s, calls);
      if ok {
        AllSucceedExactly(next, calls[1..]);
      }
    }
  }

  /** Round trip: publishes and batches of valid items with memory at hand all succeed, and draining from the base
      boundary through any handle then returns exactly the old events followed by the published ones, and
      then NULL. */
  lemma RoundTrip(s: State, base: nat, es: seq<Event>, calls: seq<Call>, c: Cursor)
    requires Synced(s.chunk) && Framed(s.file, base, es)
    requires CanSucceed(|s.chunk.ram|, s.chunk.capacity, calls)
    requires |After(s, calls).file| < HALF_MOD && c.pointer == base
    ensures AllSucceed(s, calls) && AllValid(calls)
    ensures FrameLaws.Drain(After(s, calls).file, c) == es + Published(calls)
  {
    AllSucceedExactly(s, calls);
    CallsExtendLog(s, base, es, calls);
    var all := es + Published(calls);
    BoundaryEnds(After(s, calls).file, base, all);
    FrameLaws.DrainInvertsFrames(After(s, calls).file, base, all, 0, c);
    assert all[0..] == all;
  }
}
