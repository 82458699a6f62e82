/** The table of groups: an array that grows and shifts in place (src/messaging/manage_groups.c:8-24, 66-134). */
module GroupTable {
  import opened Machine
  import opened Groups
  import opened Growth

  const INITIAL_GROUPS := 16

  ghost predicate DistinctIds(gs: seq<Group>) {
    forall i, j :: 0 <= i < j < |gs| ==> gs[i].groupId != gs[j].groupId
  }

  /** The position of an id in the table, or its length. */
  function IndexOf(gs: seq<Group>, id: string): (k: nat)
    ensures k <= |gs|
    ensures k < |gs| ==> gs[k].groupId == id
    ensures forall i :: 0 <= i < k ==> gs[i].groupId != id
  {
    if gs == [] then 0 else if gs[0].groupId == id then 0 else 1 + IndexOf(gs[1..], id)
  }

  /** `add_group` on the list of groups: refused (-2) when the id is there, -1 when memory is short. */
  function AddCode(gs: seq<Group>, capacity: nat, g: Group, canGrow: bool): int {
    if IndexOf(gs, g.groupId) < |gs| then -2
    else if |gs| >= capacity && !canGrow then -1
    else 0
  }

  function Added(gs: seq<Group>, capacity: nat, g: Group, canGrow: bool): seq<Group> {
    if AddCode(gs, capacity, g, canGrow) == 0 then gs + [g] else gs
  }

  function CapacityAfterAdd(gs: seq<Group>, capacity: nat, g: Group, canGrow: bool): nat {
    if AddCode(gs, capacity, g, canGrow) == 0 && |gs| >= capacity then 2 * capacity else capacity
  }

  /** `remove_group` on the list of groups. */
  function Removed(gs: seq<Group>, id: string): seq<Group> {
    var k := IndexOf(gs, id);
    if k < |gs| then gs[..k] + gs[k + 1..] else gs
  }

  class GroupManager {
    var groups: array<Group?>
    var count: nat
    var capacity: nat

    ghost predicate Valid()
      reads this, groups
    {
      && count <= capacity == groups.Length && capacity >= INITIAL_GROUPS
      && forall i :: 0 <= i < count ==> groups[i] != null
    }

    ghost function Listed(): (gs: seq<Group>)
      reads this, groups
      requires Valid()
      ensures |gs| == count && forall i :: 0 <= i < count ==> gs[i] == groups[i]
    {
      seq(count, i requires 0 <= i < count && Valid() reads this, groups => var g: Group := groups[i]; g)
    }

    /** `group_manager_init` */
    constructor ()
      ensures Valid() && fresh(groups) && Listed() == [] && capacity == 16
    {
      groups := new Group?[INITIAL_GROUPS](_ => null);
      count, capacity := 0, INITIAL_GROUPS;
    }

    /** The search that `find_group` and `remove_group` make. */
    method Search(id: string) returns (k: nat)
      requires Valid()
      ensures k == IndexOf(Listed(), id)
    {
      k := 0;
      while k < count && groups[k].groupId != id
        invariant k <= count
        invariant forall i :: 0 <= i < k ==> groups[i].groupId != id
      {
        k := k + 1;
      }
    }

    /** `find_group` */
    method Find(id: string) returns (g: Group?)
      requires Valid()
      ensures g == null <==> forall x :: x in Listed() ==> x.groupId != id
      ensures g != null ==> g in Listed() && g.groupId == id
    {
      var k := Search(id);
      if k < count {
        assert Listed()[k] == groups[k];
        return groups[k];
      }
      assert forall i :: 0 <= i < count ==> Listed()[i].groupId != id;
      return null;
    }

    /** `add_group`; a full table is moved to a block of twice the size. */
    method Add(g: Group, canGrow: bool) returns (code: int)
      requires Valid()
      modifies this, groups
      ensures Valid() && (groups == old(groups) || fresh(groups))
      ensures Listed() == Added(old(Listed()), old(capacity), g, canGrow)
      ensures capacity == CapacityAfterAdd(old(Listed()), old(capacity), g, canGrow)
      ensures code == AddCode(old(Listed()), old(capacity), g, canGrow)
    {
      var k := Search(g.groupId);
      if k < count {
        return -2;
      }
      if count >= capacity {
        if !canGrow {
          return -1;
        }
        Grow();
      }
      groups[count] := g;
      count := count + 1;
      return 0;
    }

    /** `realloc` to twice the size. */
    method Grow()
      requires Valid()
      modifies this`groups, this`capacity
      ensures Valid() && fresh(groups) && capacity == 2 * old(capacity)
      ensures Listed() == old(Listed())
    {
      var block := new Group?[2 * capacity](_ => null);
      forall i | 0 <= i < count {
        block[i] := groups[i];
      }
      groups, capacity := block, 2 * capacity;
    }

    /** `remove_group`: the later groups move down by one place. */
    method Remove(id: string) returns (code: int)
      requires Valid()
      modifies this`count, groups
      ensures Valid()
      ensures Listed() == Removed(old(Listed()), id)
      ensures code == if Listed() == old(Listed()) then -1 else 0
    {
      var k := Search(id);
      if k >= count {
        return -1;
      }
      ShiftDown(groups, k, count);
      count := count - 1;
      groups[count] := null;
      return 0;
    }
  }

  /** The inner loop of `remove_group`. */
  method ShiftDown(groups: array<Group?>, k: nat, count: nat)
    requires k < count <= groups.Length
    modifies groups
    ensures forall i :: 0 <= i < k ==> groups[i] == old(groups[i])
    ensures forall i :: k <= i < count - 1 ==> groups[i] == old(groups[i + 1])
  {
    var j := k;
    while j < count - 1
      invariant k <= j <= count - 1
      invariant forall i :: 0 <= i < k || j <= i < count ==> groups[i] == old(groups[i])
      invariant forall i :: k <= i < j ==> groups[i] == old(groups[i + 1])
    {
      groups[j] := groups[j + 1];
      j := j + 1;
    }
  }

  datatype Op = Add(g: Group, canGrow: bool) | Remove(id: string)

  datatype Table = Table(groups: seq<Group>, capacity: nat)

  function Do(t: Table, op: Op): Table {
    match op
    case Add(g, canGrow) => Table(Added(t.groups, t.capacity, g, canGrow), CapacityAfterAdd(t.groups, t.capacity, g, canGrow))
    case Remove(id) => t.(groups := Removed(t.groups, id))
  }

  function DoAll(t: Table, ops: seq<Op>): Table
    decreases |ops|
  {
    if ops == [] then t else DoAll(Do(t, ops[0]), ops[1..])
  }

  /** The table as a map from ids to groups. */
  function AsMap(gs: seq<Group>): map<string, Group> {
    if gs == [] then map[] else AsMap(gs[1..])[gs[0].groupId := gs[0]]
  }

  lemma {:induction false} MapLooksUp(gs: seq<Group>, id: string)
    ensures id in AsMap(gs) <==> IndexOf(gs, id) < |gs|
    ensures id in AsMap(gs) ==> AsMap(gs)[id] == gs[IndexOf(gs, id)]
  {
    if gs != [] {
      MapLooksUp(gs[1..], id);
    }
  }

  /** What an operation means for the map: adding never replaces, removing removes one key. */
  function MapAfter(m: map<string, Group>, t: Table, op: Op): map<string, Group> {
    match op
    case Add(g, canGrow) =>
      if g.groupId in m || (|t.groups| >= t.capacity && !canGrow) then m else m[g.groupId := g]
    case Remove(id) => m - {id}
  }

  lemma AddRefinesMap(t: Table, g: Group, canGrow: bool)
    requires DistinctIds(t.groups)
    ensures DistinctIds(Do(t, Add(g, canGrow)).groups)
    ensures AsMap(Do(t, Add(g, canGrow)).groups) == MapAfter(AsMap(t.groups), t, Add(g, canGrow))
  {
    MapLooksUp(t.groups, g.groupId);
    if AddCode(t.groups, t.capacity, g, canGrow) == 0 {
      MapOfAppended(t.groups, g);
    }
  }

  lemma {:induction false} MapOfAppended(gs: seq<Group>, g: Group)
    requires IndexOf(gs, g.groupId) == |gs|
    ensures AsMap(gs + [g]) == AsMap(gs)[g.groupId := g]
  {
    if gs != [] {
      assert (gs + [g])[1..] == gs[1..] + [g];
      MapOfAppended(gs[1..], g);
    } else {
      assert [] + [g] == [g];
    }
  }

  /** The groups with another id, in their order. */
  function Without(gs: seq<Group>, id: string): seq<Group> {
    if gs == [] then []
    else (if gs[0].groupId == id then [] else [gs[0]]) + Without(gs[1..], id)
  }

  lemma {:induction false} WithoutStranger(gs: seq<Group>, id: string)
    requires IndexOf(gs, id) == |gs|
    ensures Without(gs, id) == gs
  {
    if gs != [] {
      WithoutStranger(gs[1..], id);
    }
  }

  lemma RemoveKeepsIds(gs: seq<Group>, id: string)
    requires DistinctIds(gs)
    ensures DistinctIds(Removed(gs, id))
  {
  }

  /** Removing drops the group with the id and keeps all others in their order. */
  lemma {:induction false} RemoveKeepsOrder(gs: seq<Group>, id: string)
    requires DistinctIds(gs)
    ensures Removed(gs, id) == Without(gs, id)
    decreases |gs|
  {
    if gs != [] {
      var rest := gs[1..];
      if gs[0].groupId == id {
        assert IndexOf(rest, id) == |rest|;
        WithoutStranger(rest, id);
        assert Without(gs, id) == [] + rest && Removed(gs, id) == gs[..0] + rest;
        assert [] + rest == rest && gs[..0] + rest == rest;
      } else {
        RemoveKeepsOrder(rest, id);
        RemoveBehind(gs, id);
      }
    }
  }

  /** What the codes of `add_group` tell: -2 that the id is taken, 0 that the group is now behind all others, and -1 that
      there is no memory for a new one, of which only a full table has need. */
  lemma AddCodesTell(gs: seq<Group>, capacity: nat, g: Group, canGrow: bool)
    requires |gs| <= capacity
    ensures
      var code := AddCode(gs, capacity, g, canGrow);
      && (code == -2 <==> g.groupId in AsMap(gs))
      && (code == 0 <==> Added(gs, capacity, g, canGrow) == gs + [g])
      && (code == -1 <==> g.groupId !in AsMap(gs) && |gs| == capacity && !canGrow)
      && code in {0, -1, -2}
      && (code != 0 ==> Added(gs, capacity, g, canGrow) == gs && CapacityAfterAdd(gs, capacity, g, canGrow) == capacity)
  {
    MapLooksUp(gs, g.groupId);
  }

  /** Sixteen times a power of two. */
  ghost predicate TableSized(capacity: nat) {
    exists k: nat :: capacity == 16 * Pow2(k)
  }

  /** Over every run from an empty table the block has 16 * 2^k places. */
  lemma {:induction false} TableStaysSized(t: Table, ops: seq<Op>)
    requires TableSized(t.capacity)
    ensures TableSized(DoAll(t, ops).capacity)
    decreases |ops|
  {
    if ops != [] {
      var k: nat :| t.capacity == 16 * Pow2(k);
      assert 2 * t.capacity == 16 * Pow2(k + 1);
      assert TableSized(t.capacity) && TableSized(2 * t.capacity);
      TableStaysSized(Do(t, ops[0]), ops[1..]);
    }
  }

  lemma {:induction false} RemoveRefinesMap(gs: seq<Group>, id: string)
    requires DistinctIds(gs)
    ensures AsMap(Removed(gs, id)) == AsMap(gs) - {id}
  {
    if gs != [] {
      var rest := gs[1..];
      if gs[0].groupId == id {
        assert Removed(gs, id) == rest;
        MapLooksUp(rest, id);
        assert IndexOf(rest, id) == |rest|;
      } else {
        RemoveRefinesMap(rest, id);
        RemoveBehind(gs, id);
      }
    }
  }

  lemma RemoveBehind(gs: seq<Group>, id: string)
    requires gs != [] && gs[0].groupId != id
    ensures Removed(gs, id) == [gs[0]] + Removed(gs[1..], id)
  {
    var k := IndexOf(gs[1..], id);
    assert IndexOf(gs, id) == k + 1;
    if k < |gs[1..]| {
      assert gs[..k + 1] == [gs[0]] + gs[1..][..k];
      assert gs[k + 2..] == gs[1..][k + 1..];
    }
  }

  ghost predicate Proper(t: Table) {
    DistinctIds(t.groups) && |t.groups| <= t.capacity && t.capacity >= INITIAL_GROUPS
  }

  function MapRun(m: map<string, Group>, t: Table, ops: seq<Op>): map<string, Group>
    decreases |ops|
  {
    if ops == [] then m else MapRun(MapAfter(m, t, ops[0]), Do(t, ops[0]), ops[1..])
  }

  /** Over every run of additions and removals, ids stay distinct, the table fits its block, and the table is an
      insertion-ordered list of exactly the entries of a map that the same operations maintain. */
  lemma {:induction false} TableRefinesMap(t: Table, ops: seq<Op>)
    requires Proper(t)
    ensures Proper(DoAll(t, ops))
    ensures AsMap(DoAll(t, ops).groups) == MapRun(AsMap(t.groups), t, ops)
    decreases |ops|
  {
    if ops != [] {
      match ops[0] {
        case Add(g, canGrow) => AddRefinesMap(t, g, canGrow);
        case Remove(id) =>
          RemoveKeepsIds(t.groups, id);
          RemoveRefinesMap(t.groups, id);
      }
      TableRefinesMap(Do(t, ops[0]), ops[1..]);
    }
  }
}
