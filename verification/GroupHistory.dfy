/** What the group coordinator knows after a run, read off the list of requests, field by field. */
module GroupHistory {
  import opened Bytes
  import opened Names
  import opened Groups

  function Last(rs: seq<Request>): Request requires rs != [] { rs[|rs| - 1] }
  function Before(rs: seq<Request>): (b: seq<Request>)
    requires rs != []
    ensures |b| < |rs|
  {
    rs[..|rs| - 1]
  }

  /** Those who joined and did not leave since. */
  function MembersOf(rs: seq<Request>, g: string): set<string> {
    if rs == [] then {}
    else
      match Last(rs)
      case Join(h, member, _, _) => MembersOf(Before(rs), g) + if h == g then {member} else {}
      case Leave(h, member, _) => MembersOf(Before(rs), g) - if h == g then {member} else {}
      case _ => MembersOf(Before(rs), g)
  }

  /** The last request deleted the group: it was listed and had no members. */
  predicate Drops(rs: seq<Request>, g: string) {
    rs != [] && Last(rs).Delete? && g in Last(rs).ids && MembersOf(Before(rs), g) == {}
  }

  predicate Concerns(rs: seq<Request>, g: string) { rs != [] && !Last(rs).Delete? && Last(rs).group == g }

  /** A join or a commit creates the group. */
  predicate Exists(rs: seq<Request>, g: string) {
    && rs != []
    && !Drops(rs, g)
    && ((Concerns(rs, g) && (Last(rs).Join? || Last(rs).Commit?)) || Exists(Before(rs), g))
  }

  /** The joins since the group was created. */
  function JoinsOf(rs: seq<Request>, g: string): nat {
    if rs == [] || Drops(rs, g) then 0
    else JoinsOf(Before(rs), g) + if Concerns(rs, g) && Last(rs).Join? then 1 else 0
  }

  /** What was committed last for each partition since the group was created. */
  function OffsetsOf(rs: seq<Request>, g: string): map<TopicPartition, i64> {
    if rs == [] || Drops(rs, g) then map[]
    else if Concerns(rs, g) && Last(rs).Commit? then OffsetsOf(Before(rs), g)[Last(rs).tp := Last(rs).offset]
    else OffsetsOf(Before(rs), g)
  }

  /** The last request hands out assignments in the current generation. */
  predicate Assigns(rs: seq<Request>, g: string) {
    && Concerns(rs, g) && Last(rs).Sync? && Last(rs).assignments != map[]
    && Exists(Before(rs), g) && Last(rs).generation == WrapI32(JoinsOf(Before(rs), g))
  }

  /** A member's client id, from its last join, and the assignment it was given since. */
  function MemberOf(rs: seq<Request>, g: string, member: string): Member {
    if rs == [] then Member("", [])
    else
      var was, r := MemberOf(Before(rs), g, member), Last(rs);
      if Concerns(rs, g) && r.Join? && r.member == member then Member(r.client, [])
      else if Assigns(rs, g) && member in MembersOf(Before(rs), g) && member in r.assignments then
        was.(assignment := r.assignments[member])
      else was
  }

  /** The first to join, until it leaves; then whoever is elected among the rest. */
  function LeaderOf(rs: seq<Request>, g: string): Option<string> {
    if rs == [] || Drops(rs, g) then None
    else
      var was, r := LeaderOf(Before(rs), g), Last(rs);
      if Concerns(rs, g) && r.Join? && MembersOf(Before(rs), g) == {} then Some(r.member)
      else if Concerns(rs, g) && r.Leave? && MembersOf(rs, g) == {} then None
      else if Concerns(rs, g) && r.Leave? && was == Some(r.member) then Some(r.elected)
      else was
  }

  /** The protocol of the first to join. */
  function ProtocolOf(rs: seq<Request>, g: string): string {
    if rs == [] || Drops(rs, g) then ""
    else if Concerns(rs, g) && Last(rs).Join? && MembersOf(Before(rs), g) == {} then Last(rs).protocol
    else ProtocolOf(Before(rs), g)
  }

  function PhaseOf(rs: seq<Request>, g: string): Phase {
    if rs == [] || Drops(rs, g) then Empty
    else
      var r := Last(rs);
      if Concerns(rs, g) && r.Join? then CompletingRebalance
      else if Assigns(rs, g) then Stable
      else if Concerns(rs, g) && r.Leave? && Exists(Before(rs), g) && MembersOf(rs, g) == {} then Empty
      else if Concerns(rs, g) && r.Leave? && LeaderOf(Before(rs), g) == Some(r.member) then PreparingRebalance
      else PhaseOf(Before(rs), g)
  }

  // ---------- the registry holds just that ----------

  ghost predicate Tells(rs: seq<Request>, g: string, group: Group) {
    && group.members.Keys == MembersOf(rs, g)
    && (forall m :: m in group.members ==> group.members[m] == MemberOf(rs, g, m))
    && group.generation == WrapI32(JoinsOf(rs, g))
    && group.offsets == OffsetsOf(rs, g)
    && group.leader == LeaderOf(rs, g) && group.protocol == ProtocolOf(rs, g) && group.phase == PhaseOf(rs, g)
  }

  ghost predicate Recorded(rs: seq<Request>, g: string, groups: Registry) {
    (g in groups <==> Exists(rs, g)) && Tells(rs, g, Lookup(groups, g))
  }

  /** A request on another group. */
  lemma Elsewhere(rs: seq<Request>, g: string, groups: Registry)
    requires rs != [] && !Last(rs).Delete? && Last(rs).group != g && Recorded(Before(rs), g, groups)
    ensures Recorded(rs, g, Take(groups, Last(rs)))
  {
    hide WrapI32, Joined, Synced, Left, Check;
  }

  lemma JoinRecords(rs: seq<Request>, g: string, groups: Registry)
    requires rs != [] && Last(rs).Join? && Last(rs).group == g && Recorded(Before(rs), g, groups)
    ensures Recorded(rs, g, Take(groups, Last(rs)))
  {
    hide WrapI32;
    NextWrapped(JoinsOf(Before(rs), g));
  }

  lemma SyncRecords(rs: seq<Request>, g: string, groups: Registry)
    requires rs != [] && Last(rs).Sync? && Last(rs).group == g && Recorded(Before(rs), g, groups)
    ensures Recorded(rs, g, Take(groups, Last(rs)))
  {
    hide WrapI32;
  }

  lemma LeaveRecords(rs: seq<Request>, g: string, groups: Registry)
    requires rs != [] && Last(rs).Leave? && Last(rs).group == g && Recorded(Before(rs), g, groups)
    requires Led(Lookup(groups, g))
    ensures Recorded(rs, g, Take(groups, Last(rs)))
  {
    hide WrapI32;
  }

  lemma CommitRecords(rs: seq<Request>, g: string, groups: Registry)
    requires rs != [] && Last(rs).Commit? && Last(rs).group == g && Recorded(Before(rs), g, groups)
    ensures Recorded(rs, g, Take(groups, Last(rs)))
  {
    hide WrapI32;
  }

  lemma DeleteRecords(rs: seq<Request>, g: string, groups: Registry)
    requires rs != [] && Last(rs).Delete? && Recorded(Before(rs), g, groups) && Led(Lookup(groups, g))
    ensures Recorded(rs, g, Take(groups, Last(rs)))
  {
    hide Deleted;
    DeletedKeeps(groups, Last(rs).ids);
  }

  /**
   * After every run the registry holds a group exactly when it was joined or committed to since it was last deleted,
   * and of it: the members who joined and did not leave, each with its client id and the assignment it was last given,
   * the number of joins as generation, the first of the members or the one elected as leader, the protocol of the
   * first, the last offset committed for every partition, and the phase.
   */
  lemma {:induction false} RunIsRecorded(rs: seq<Request>, t: Traced, g: string)
    requires Reaches(rs, t)
    ensures Recorded(rs, g, t.groups)
  {
    hide Take, Recorded, Enabled, Groups.Count, Led;
    if rs == [] {
      Nothing(g);
    } else {
      var u := LastStep(rs, t);
      var r := Last(rs);
      RunIsRecorded(Before(rs), u, g);
      ReachableInv(Before(rs), u);
      LookupLed(u, g);
      if !r.Delete? && r.group != g { Elsewhere(rs, g, u.groups); }
      else {
        match r
        case Join(_, _, _, _) => JoinRecords(rs, g, u.groups);
        case Sync(_, _, _) => SyncRecords(rs, g, u.groups);
        case Leave(_, _, _) => LeaveRecords(rs, g, u.groups);
        case Commit(_, _, _) => CommitRecords(rs, g, u.groups);
        case Delete(_) => DeleteRecords(rs, g, u.groups);
      }
    }
  }

  lemma LastStep(rs: seq<Request>, t: Traced) returns (u: Traced)
    requires rs != [] && Reaches(rs, t)
    ensures Reaches(Before(rs), u) && t.groups == Take(u.groups, Last(rs))
  {
    hide Take, Enabled, Groups.Count;
    var n := |rs| - 1;
    u :| Reaches(rs[..n], u) && Enabled(u.groups, rs[n]) && t == Traced(Take(u.groups, rs[n]), Groups.Count(u, rs[n]));
  }

  lemma Nothing(g: string)
    ensures Recorded([], g, map[])
  {
  }

  // ---------- and answers from it ----------

  /**
   * A heartbeat is answered without error exactly when the group exists, the generation counts its joins, and the
   * member joined and did not leave since; otherwise by the first of these that fails.
   */
  lemma HeartbeatFromHistory(rs: seq<Request>, t: Traced, g: string, generation: i32, member: string)
    requires Reaches(rs, t)
    ensures HeartbeatAnswer(t.groups, g, generation, member)
         == if !Exists(rs, g) then InvalidGroupId
            else if generation != WrapI32(JoinsOf(rs, g)) then IllegalGeneration
            else if member !in MembersOf(rs, g) then UnknownMemberId
            else NoError
  {
    hide Reaches, WrapI32, Exists, JoinsOf, MembersOf, MemberOf, LeaderOf, ProtocolOf, PhaseOf, OffsetsOf;
    RunIsRecorded(rs, t, g);
  }

  /**
   * Deleting several groups answers each: not found if there is no such group, or no more since it is listed a second
   * time; not empty if it has members; and no error otherwise.
   */
  lemma DeleteFromHistory(rs: seq<Request>, t: Traced, ids: seq<string>, i: nat)
    requires Reaches(rs, t) && i < |ids|
    ensures DeleteAnswer(Deleted(t.groups, ids[..i]), ids[i])
         == if !Exists(rs, ids[i]) then GroupIdNotFound
            else if MembersOf(rs, ids[i]) != {} then NonEmptyGroup
            else if ids[i] in ids[..i] then GroupIdNotFound
            else NoError
  {
    hide Reaches, WrapI32, Exists, JoinsOf, MembersOf, MemberOf, LeaderOf, ProtocolOf, PhaseOf, OffsetsOf, Deleted;
    RunIsRecorded(rs, t, ids[i]);
    ReachableInv(rs, t);
    LookupLed(t, ids[i]);
    DeletedKeeps(t.groups, ids[..i]);
  }

  /**
   * An assignment reaches its member: after a sync in the current generation that lists it, the member's own sync in
   * that generation, which lists none, is answered with it.
   */
  lemma AssignmentReachesMember(rs: seq<Request>, t: Traced, g: string, assignments: map<string, bytes>, member: string)
    requires Reaches(rs, t) && Exists(rs, g) && member in MembersOf(rs, g) && member in assignments
    ensures var generation := WrapI32(JoinsOf(rs, g));
            var after := Take(Take(t.groups, Sync(g, generation, assignments)), Sync(g, generation, map[]));
            g in after && member in after[g].members && after[g].members[member].assignment == assignments[member]
  {
    hide Reaches, WrapI32, Exists, JoinsOf, MembersOf, MemberOf, LeaderOf, ProtocolOf, PhaseOf, OffsetsOf;
    RunIsRecorded(rs, t, g);
  }
}
