/** The consumer group coordinator (`coordinator.rs`). */
module Groups {
  import opened Bytes
  import opened Names

  datatype Phase = Empty | PreparingRebalance | CompletingRebalance | Stable | Dead

  datatype Code = NoError | InvalidGroupId | IllegalGeneration | UnknownMemberId | GroupIdNotFound | NonEmptyGroup

  datatype Member = Member(client: string, assignment: bytes)

  datatype Group = Group(phase: Phase, generation: i32, leader: Option<string>, protocol: string,
                         members: map<string, Member>, offsets: map<TopicPartition, i64>)

  const NEW_GROUP: Group := Group(Empty, 0, None, "", map[], map[])

  type Registry = map<string, Group>

  function Lookup(groups: Registry, g: string): Group { if g in groups then groups[g] else NEW_GROUP }

  // ---------- what each request does ----------

  /** `{}-{:08}`: the client's id and the counter, zero padded to eight characters. */
  function MemberId(client: string, n: i32): string { client + "-" + Padded(n, 8) }

  function Joined(group: Group, member: string, client: string, protocol: string): Group {
    var first := group.members == map[];
    Group(CompletingRebalance, WrapI32(group.generation + 1), if first then Some(member) else group.leader,
          if first then protocol else group.protocol, group.members[member := Member(client, [])], group.offsets)
  }

  function Assigned(members: map<string, Member>, assignments: map<string, bytes>): map<string, Member> {
    map m | m in members :: if m in assignments then members[m].(assignment := assignments[m]) else members[m]
  }

  function Synced(group: Group, assignments: map<string, bytes>): Group {
    if assignments == map[] then group
    else group.(members := Assigned(group.members, assignments), phase := Stable)
  }

  function Check(groups: Registry, g: string, generation: i32): Code {
    if g !in groups then InvalidGroupId
    else if groups[g].generation != generation then IllegalGeneration
    else NoError
  }

  function HeartbeatAnswer(groups: Registry, g: string, generation: i32, member: string): Code {
    var code := Check(groups, g, generation);
    if code != NoError then code
    else if member !in groups[g].members then UnknownMemberId
    else NoError
  }

  /** `elected` is the member the map's iterator happens to give first. */
  function Left(group: Group, member: string, elected: string): Group {
    var rest := group.members - {member};
    if rest == map[] then group.(members := rest, phase := Empty, leader := None)
    else if group.leader == Some(member) then
      group.(members := rest, leader := Some(elected), phase := PreparingRebalance)
    else group.(members := rest)
  }

  predicate Electable(group: Group, member: string, elected: string) {
    group.members - {member} != map[] ==> elected in group.members - {member}
  }

  predicate Deletable(group: Group) { group.members == map[] || group.phase.Empty? || group.phase.Dead? }

  /** Deleting the listed groups one after the other. */
  function Deleted(groups: Registry, ids: seq<string>): Registry {
    if ids == [] then groups
    else
      var g := ids[0];
      Deleted(if g in groups && Deletable(groups[g]) then groups - {g} else groups, ids[1..])
  }

  function DeleteAnswer(groups: Registry, g: string): Code {
    if g !in groups then GroupIdNotFound else if Deletable(groups[g]) then NoError else NonEmptyGroup
  }

  class GroupCoordinator {
    var groups: Registry
    var nextMember: i32

    constructor ()
      ensures groups == map[] && nextMember == 1
    {
      groups, nextMember := map[], 1;
    }

    method JoinGroup(g: string, member: string, client: string, protocol: string)
      returns (code: Code, generation: i32, id: string, leader: string)
      modifies this
      ensures id == if member == "" then MemberId(client, old(nextMember)) else member
      ensures nextMember == if member == "" then WrapI32(old(nextMember) + 1) else old(nextMember)
      ensures groups == old(groups)[g := Joined(Lookup(old(groups), g), id, client, protocol)]
      ensures code == NoError && generation == groups[g].generation
      ensures leader == if groups[g].leader.Some? then groups[g].leader.value else ""
    {
      var group := if g in groups then groups[g] else NEW_GROUP;
      id := member;
      if member == "" {
        id := MemberId(client, nextMember);
        nextMember := WrapI32(nextMember + 1);
      }
      if group.members == map[] {
        group := group.(leader := Some(id), protocol := protocol);
      }
      group := group.(members := group.members[id := Member(client, [])]);
      group := group.(generation := WrapI32(group.generation + 1), phase := CompletingRebalance);
      groups := groups[g := group];
      return NoError, group.generation, id, if group.leader.Some? then group.leader.value else "";
    }

    method SyncGroup(g: string, generation: i32, member: string, assignments: map<string, bytes>)
      returns (code: Code, assignment: bytes)
      modifies this`groups
      ensures code == Check(old(groups), g, generation)
      ensures code != NoError ==> groups == old(groups) && assignment == []
      ensures code == NoError ==> groups == old(groups)[g := Synced(old(groups)[g], assignments)]
      ensures code == NoError ==>
                assignment == if member in groups[g].members then groups[g].members[member].assignment else []
    {
      if g !in groups { return InvalidGroupId, []; }
      var group := groups[g];
      if group.generation != generation { return IllegalGeneration, []; }
      if assignments != map[] {
        var members := AssignAll(group.members, assignments);
        group := group.(members := members, phase := Stable);
      }
      groups := groups[g := group];
      return NoError, if member in group.members then group.members[member].assignment else [];
    }

    method Heartbeat(g: string, generation: i32, member: string) returns (code: Code)
      ensures code == HeartbeatAnswer(groups, g, generation, member)
    {
      if g !in groups { return InvalidGroupId; }
      if groups[g].generation != generation { return IllegalGeneration; }
      if member !in groups[g].members { return UnknownMemberId; }
      return NoError;
    }

    method LeaveGroup(g: string, member: string) returns (code: Code, ghost elected: string)
      modifies this`groups
      ensures code == if g in old(groups) then NoError else InvalidGroupId
      ensures g !in old(groups) ==> groups == old(groups)
      ensures g in old(groups) ==>
                Electable(old(groups)[g], member, elected) &&
                groups == old(groups)[g := Left(old(groups)[g], member, elected)]
    {
      elected := "";
      if g !in groups { return InvalidGroupId, elected; }
      var group := groups[g];
      group := group.(members := group.members - {member});
      if group.members == map[] {
        group := group.(phase := Empty, leader := None);
      } else {
        var next :| next in group.members;
        elected := next;
        if group.leader == Some(member) {
          group := group.(leader := Some(next), phase := PreparingRebalance);
        }
      }
      groups := groups[g := group];
      return NoError, elected;
    }

    method CommitOffset(g: string, tp: TopicPartition, offset: i64)
      modifies this`groups
      ensures var group := Lookup(old(groups), g);
              groups == old(groups)[g := group.(offsets := group.offsets[tp := offset])]
    {
      var group := if g in groups then groups[g] else NEW_GROUP;
      groups := groups[g := group.(offsets := group.offsets[tp := offset])];
    }

    method DeleteGroups(ids: seq<string>) returns (codes: seq<Code>)
      modifies this`groups
      ensures groups == Deleted(old(groups), ids)
      ensures |codes| == |ids|
      ensures forall i :: 0 <= i < |ids| ==> codes[i] == DeleteAnswer(Deleted(old(groups), ids[..i]), ids[i])
    {
      codes := [];
      assert ids[..0] == [];
      for i := 0 to |ids|
        invariant |codes| == i && groups == Deleted(old(groups), ids[..i])
        invariant forall k :: 0 <= k < i ==> codes[k] == DeleteAnswer(Deleted(old(groups), ids[..k]), ids[k])
      {
        var g := ids[i];
        DeletedAppend(old(groups), ids[..i], g);
        assert ids[..i + 1] == ids[..i] + [g];
        if g !in groups {
          codes := codes + [GroupIdNotFound];
        } else if groups[g].members != map[] && !groups[g].phase.Empty? && !groups[g].phase.Dead? {
          codes := codes + [NonEmptyGroup];
        } else {
          groups := groups - {g};
          codes := codes + [NoError];
        }
      }
      assert ids[..|ids|] == ids;
    }
  }

  method AssignAll(members: map<string, Member>, assignments: map<string, bytes>) returns (r: map<string, Member>)
    ensures r == Assigned(members, assignments)
  {
    r := members;
    var left := assignments.Keys;
    while left != {}
      invariant left <= assignments.Keys && r.Keys == members.Keys
      invariant forall m :: m in members ==> r[m] == if m in assignments && m !in left
                                                     then members[m].(assignment := assignments[m]) else members[m]
      decreases |left|
    {
      var m :| m in left;
      if m in r { r := r[m := r[m].(assignment := assignments[m])]; }
      left := left - {m};
    }
  }

  lemma {:induction false} DeletedAppend(groups: Registry, ids: seq<string>, g: string)
    ensures var before := Deleted(groups, ids);
            Deleted(groups, ids + [g]) == if g in before && Deletable(before[g]) then before - {g} else before
  {
    if ids == [] {
      assert ids + [g] == [g];
      assert [g][1..] == [];
    } else {
      var h := ids[0];
      assert (ids + [g])[1..] == ids[1..] + [g];
      DeletedAppend(if h in groups && Deletable(groups[h]) then groups - {h} else groups, ids[1..], g);
    }
  }

  // ---------- every run ----------

  datatype Request =
    | Join(group: string, member: string, client: string, protocol: string)
    | Sync(group: string, generation: i32, assignments: map<string, bytes>)
    | Leave(group: string, member: string, elected: string)
    | Commit(group: string, tp: TopicPartition, offset: i64)
    | Delete(ids: seq<string>)

  predicate Enabled(groups: Registry, r: Request) {
    r.Leave? && r.group in groups ==> Electable(groups[r.group], r.member, r.elected)
  }

  function Take(groups: Registry, r: Request): Registry {
    match r
    case Join(g, member, client, protocol) => groups[g := Joined(Lookup(groups, g), member, client, protocol)]
    case Sync(g, generation, assignments) =>
      if Check(groups, g, generation) == NoError then groups[g := Synced(groups[g], assignments)] else groups
    case Leave(g, member, elected) => if g in groups then groups[g := Left(groups[g], member, elected)] else groups
    case Commit(g, tp, offset) =>
      groups[g := Lookup(groups, g).(offsets := Lookup(groups, g).offsets[tp := offset])]
    case Delete(ids) => Deleted(groups, ids)
  }

  /** A registry and, for each of its groups, the joins since the group was created. */
  datatype Traced = Traced(groups: Registry, joins: map<string, nat>)

  function Count(t: Traced, r: Request): map<string, nat> {
    if r.Delete? then t.joins
    else
      var before := if r.group in t.groups && r.group in t.joins then t.joins[r.group] else 0;
      t.joins[r.group := if r.Join? then before + 1 else before]
  }

  ghost predicate Reaches(requests: seq<Request>, t: Traced)
    decreases |requests|
  {
    if requests == [] then t == Traced(map[], map[])
    else
      var n := |requests| - 1;
      exists u :: Reaches(requests[..n], u) && Enabled(u.groups, requests[n])
               && t == Traced(Take(u.groups, requests[n]), Count(u, requests[n]))
  }

  /** The leader is a member exactly when there are members; an empty phase means no members. */
  ghost predicate Led(group: Group) {
    && (group.leader.Some? <==> group.members != map[])
    && (group.leader.Some? ==> group.leader.value in group.members)
    && (group.phase.Empty? ==> group.members == map[])
    && !group.phase.Dead?
  }

  ghost predicate Inv(t: Traced) {
    forall g :: g in t.groups ==>
      Led(t.groups[g]) && g in t.joins && t.groups[g].generation == WrapI32(t.joins[g])
  }

  lemma {:induction false} NextWrapped(n: nat)
    ensures WrapI32(WrapI32(n) + 1) == WrapI32(n + 1)
  {
    if n >= 0x1_0000_0000 { NextWrapped(n - 0x1_0000_0000); }
  }

  lemma GroupKeepsLed(group: Group, member: string, client: string, protocol: string, elected: string,
                      assignments: map<string, bytes>)
    requires Led(group)
    ensures Led(Joined(group, member, client, protocol)) && Led(Synced(group, assignments))
    ensures Electable(group, member, elected) ==> Led(Left(group, member, elected))
  {
    hide WrapI32, Assigned;
    assert member in group.members[member := Member(client, [])];
    AssignedKeys(group.members, assignments);
  }

  lemma AssignedKeys(members: map<string, Member>, assignments: map<string, bytes>)
    ensures var r := Assigned(members, assignments);
            r.Keys == members.Keys && (r == map[] <==> members == map[])
  {
    assert Assigned(members, assignments).Keys == members.Keys;
    if members != map[] {
      var m :| m in members;
      assert m in Assigned(members, assignments);
    }
  }

  lemma {:induction false} DeletedKeeps(groups: Registry, ids: seq<string>)
    ensures forall g :: g in Deleted(groups, ids) <==> g in groups && !(g in ids && Deletable(groups[g]))
    ensures forall g :: g in Deleted(groups, ids) ==> Deleted(groups, ids)[g] == groups[g]
  {
    if ids != [] {
      var h := ids[0];
      assert ids == [h] + ids[1..];
      DeletedKeeps(if h in groups && Deletable(groups[h]) then groups - {h} else groups, ids[1..]);
    }
  }

  lemma StepKeepsInv(t: Traced, r: Request)
    requires Inv(t) && Enabled(t.groups, r)
    ensures Inv(Traced(Take(t.groups, r), Count(t, r)))
  {
    hide WrapI32, Led, Joined, Synced, Left, Deleted, Electable;
    if r.Delete? {
      DeletedKeeps(t.groups, r.ids);
    } else {
      var before := Lookup(t.groups, r.group);
      LookupLed(t, r.group);
      var n := if r.group in t.groups && r.group in t.joins then t.joins[r.group] else 0;
      NextWrapped(n);
      OneGroup(before, r, n);
    }
  }

  lemma LookupLed(t: Traced, g: string)
    requires Inv(t)
    ensures Led(Lookup(t.groups, g))
    ensures Lookup(t.groups, g).generation == WrapI32(if g in t.groups then t.joins[g] else 0)
  {
  }

  lemma OneGroup(group: Group, r: Request, n: nat)
    requires Led(group) && group.generation == WrapI32(n) && WrapI32(WrapI32(n) + 1) == WrapI32(n + 1)
    ensures r.Join? ==> var j := Joined(group, r.member, r.client, r.protocol); Led(j) && j.generation == WrapI32(n + 1)
    ensures r.Sync? ==> var j := Synced(group, r.assignments); Led(j) && j.generation == WrapI32(n)
    ensures r.Leave? && Electable(group, r.member, r.elected) ==>
              var j := Left(group, r.member, r.elected); Led(j) && j.generation == WrapI32(n)
    ensures r.Commit? ==> Led(group.(offsets := group.offsets[r.tp := r.offset]))
  {
    hide WrapI32;
    match r
    case Join(_, member, client, protocol) => GroupKeepsLed(group, member, client, protocol, "", map[]);
    case Sync(_, _, assignments) => GroupKeepsLed(group, "", "", "", "", assignments);
    case Leave(_, member, elected) => GroupKeepsLed(group, member, "", "", elected, map[]);
    case Commit(_, _, _) =>
    case Delete(_) =>
  }

  lemma {:induction false} ReachableInv(requests: seq<Request>, t: Traced)
    requires Reaches(requests, t)
    ensures Inv(t)
  {
    hide Take, Count, WrapI32, Enabled;
    if requests != [] {
      var n := |requests| - 1;
      var u :| Reaches(requests[..n], u) && Enabled(u.groups, requests[n])
            && t == Traced(Take(u.groups, requests[n]), Count(u, requests[n]));
      ReachableInv(requests[..n], u);
      StepKeepsInv(u, requests[n]);
    }
  }

  /** In every run the leader is a member exactly when there are members, and the generation counts the joins. */
  lemma LeaderAndGeneration(requests: seq<Request>, t: Traced, g: string)
    requires Reaches(requests, t) && g in t.groups
    ensures t.groups[g].leader.Some? <==> t.groups[g].members != map[]
    ensures t.groups[g].leader.Some? ==> t.groups[g].leader.value in t.groups[g].members
    ensures g in t.joins && t.groups[g].generation == WrapI32(t.joins[g])
  {
    hide WrapI32, Reaches;
    ReachableInv(requests, t);
  }

  /** Deletion removes exactly the requested groups that have no members. */
  lemma DeletesMemberless(requests: seq<Request>, t: Traced, ids: seq<string>)
    requires Reaches(requests, t)
    ensures forall g :: g in Deleted(t.groups, ids) <==> g in t.groups && !(g in ids && t.groups[g].members == map[])
    ensures forall g :: g in Deleted(t.groups, ids) ==> Deleted(t.groups, ids)[g] == t.groups[g]
  {
    hide WrapI32, Reaches, Deleted;
    ReachableInv(requests, t);
    DeletedKeeps(t.groups, ids);
  }

  lemma OneWrap(n: nat)
    requires n < 0x1_0000_0000
    ensures WrapI32(n) == if n < 0x8000_0000 then n else n - 0x1_0000_0000
  {
  }

  lemma {:induction false} WrapTells(n: nat, d: nat)
    requires 0 < d < 0x1_0000_0000
    ensures WrapI32(n + d) != WrapI32(n)
  {
    if n >= 0x1_0000_0000 {
      WrapTells(n - 0x1_0000_0000, d);
    } else {
      var m := if n + d >= 0x1_0000_0000 then n + d - 0x1_0000_0000 else n + d;
      assert WrapI32(n + d) == WrapI32(m);
      OneWrap(m);
      OneWrap(n);
    }
  }

  /**
   * A generation handed out before the last `d` joins of a group is refused for fewer than 2^32 joins:
   * a heartbeat answers an error and a sync changes nothing.
   */
  lemma StaleGenerationIsRefused(requests: seq<Request>, t: Traced, g: string, n: nat, member: string,
                                 assignments: map<string, bytes>)
    requires Reaches(requests, t) && g in t.groups && g in t.joins && n < t.joins[g] < n + 0x1_0000_0000
    ensures HeartbeatAnswer(t.groups, g, WrapI32(n), member) == IllegalGeneration
    ensures Take(t.groups, Sync(g, WrapI32(n), assignments)) == t.groups
  {
    hide WrapI32, Reaches;
    ReachableInv(requests, t);
    WrapTells(n, t.joins[g] - n);
  }

  /**
   * Joins, syncs and leaves keep every group's committed offsets; a commit changes one entry; a delete drops groups
   * whole.
   */
  lemma OffsetsSurvive(groups: Registry, r: Request, g: string)
    requires Enabled(groups, r) && g in Take(groups, r)
    ensures r.Commit? && r.group == g ==> Take(groups, r)[g].offsets == Lookup(groups, g).offsets[r.tp := r.offset]
    ensures !(r.Commit? && r.group == g) ==> Take(groups, r)[g].offsets == Lookup(groups, g).offsets
  {
    hide WrapI32, Deleted;
    if r.Delete? { DeletedKeeps(groups, r.ids); }
  }
}
