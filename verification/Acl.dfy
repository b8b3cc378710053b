/** Access control bindings (`acl.rs`). Enumerations are their wire codes. */
module Acl {
  import opened Bytes

  const UNKNOWN: nat := 0
  const ANY: nat := 1
  const MATCH: nat := 2
  const PREFIXED: nat := 4
  const ALL_OPERATIONS: nat := 2
  const DENY: nat := 2
  const ALLOW: nat := 3

  datatype Binding = Binding(resourceType: nat, name: string, pattern: nat, principal: string, host: string,
                             operation: nat, permission: nat)

  datatype Creation = Creation(resourceType: int, name: string, pattern: int, principal: string, host: string,
                               operation: int, permission: int)

  datatype Filter = Filter(resourceType: int, name: Option<string>, pattern: int, principal: Option<string>,
                           host: Option<string>, operation: int, permission: int)

  datatype Request = Request(principal: string, host: string, resourceType: nat, name: string, operation: nat)

  datatype Settings = Settings(enabled: bool, superUsers: set<string>, allowIfNone: bool)

  /** `from_i8`: a code outside the enumeration is unknown. */
  function FromCode(code: int, last: nat): nat { if 1 <= code <= last then code else UNKNOWN }

  function Normal(principal: string): string { if ':' in principal then principal else "User:" + principal }

  // ---------- authorization ----------

  predicate Covers(b: Binding, r: Request) {
    && b.resourceType == r.resourceType
    && if b.pattern == PREFIXED then b.name <= r.name else b.name == r.name || b.name == "*"
  }

  predicate Applies(b: Binding, r: Request) {
    && Covers(b, r)
    && (b.principal == Normal(r.principal) || b.principal == "User:*" || b.principal == "*")
    && (b.host == r.host || b.host == "*")
    && (b.operation == r.operation || b.operation == ALL_OPERATIONS)
  }

  predicate IsSuper(s: Settings, r: Request) { Normal(r.principal) in s.superUsers || r.principal in s.superUsers }

  /** The rule: some binding allows and none denies; a resource no binding covers follows the setting. */
  predicate Authorized(s: Settings, bs: seq<Binding>, r: Request) {
    || !s.enabled || IsSuper(s, r)
    || if exists b :: b in bs && Covers(b, r) then
         && (exists b :: b in bs && Applies(b, r) && b.permission == ALLOW)
         && !(exists b :: b in bs && Applies(b, r) && b.permission == DENY)
       else s.allowIfNone
  }

  /** The answer depends only on which bindings exist, not on their order or number. */
  lemma OrderDoesNotMatter(s: Settings, bs: seq<Binding>, cs: seq<Binding>, r: Request)
    requires forall b :: b in bs <==> b in cs
    ensures Authorized(s, bs, r) == Authorized(s, cs, r)
  {
    hide Covers, Applies;
    assert (exists b :: b in bs && Covers(b, r)) <==> (exists b :: b in cs && Covers(b, r));
    assert (exists b :: b in bs && Applies(b, r) && b.permission == DENY)
      <==> (exists b :: b in cs && Applies(b, r) && b.permission == DENY);
  }

  // ---------- creation ----------

  function Bound(c: Creation): Binding {
    Binding(FromCode(c.resourceType, 7), c.name, FromCode(c.pattern, 4), Normal(c.principal),
            if c.host == "" then "*" else c.host, FromCode(c.operation, 12), FromCode(c.permission, 3))
  }

  predicate Valid(c: Creation) {
    var b := Bound(c);
    b.resourceType != UNKNOWN && b.pattern != UNKNOWN && b.operation != UNKNOWN && b.permission != UNKNOWN
  }

  function Created(bs: seq<Binding>, cs: seq<Creation>): seq<Binding> {
    if cs == [] then bs
    else
      var rest := Created(bs, cs[..|cs| - 1]);
      var c := cs[|cs| - 1];
      if Valid(c) && Bound(c) !in rest then rest + [Bound(c)] else rest
  }

  // ---------- filters ----------

  predicate NameMatches(f: Filter, b: Binding) {
    f.name.Some? ==>
      var n := f.name.value;
      if f.pattern == ANY || f.pattern == MATCH then b.name == n || b.name <= n || b.name == "*"
      else if f.pattern == PREFIXED then b.name <= n
      else b.name == n
  }

  predicate PrincipalMatches(f: Filter, b: Binding) {
    f.principal.Some? ==>
      var p := f.principal.value;
      p == "*" || b.principal == Normal(p) || b.principal == p
  }

  predicate Matches(f: Filter, b: Binding) {
    && (f.resourceType == ANY || b.resourceType == f.resourceType)
    && NameMatches(f, b)
    && PrincipalMatches(f, b)
    && (f.host.Some? ==> f.host.value == "*" || b.host == f.host.value)
    && (f.operation == ANY || b.operation == f.operation)
    && (f.permission == ANY || b.permission == f.permission)
  }

  /** The bindings that a filter matches, or those it does not, in order. */
  function Select(bs: seq<Binding>, f: Filter, matching: bool): (r: seq<Binding>)
    ensures forall b :: b in r <==> b in bs && Matches(f, b) == matching
  {
    if bs == [] then []
    else
      var last := bs[|bs| - 1];
      assert bs == bs[..|bs| - 1] + [last];
      Select(bs[..|bs| - 1], f, matching) + if Matches(f, last) == matching then [last] else []
  }

  /** What is left after the filters, and what each of them removed. */
  function Remaining(bs: seq<Binding>, fs: seq<Filter>): seq<Binding> {
    if fs == [] then bs else Select(Remaining(bs, fs[..|fs| - 1]), fs[|fs| - 1], false)
  }

  function RemovedBy(bs: seq<Binding>, fs: seq<Filter>, i: nat): seq<Binding>
    requires i < |fs|
  {
    Select(Remaining(bs, fs[..i]), fs[i], true)
  }

  type Resource = (nat, string, nat)

  datatype Description = Description(principal: string, host: string, operation: nat, permission: nat)

  function ResourceOf(b: Binding): Resource { (b.resourceType, b.name, b.pattern) }

  function Describe(b: Binding): Description { Description(b.principal, b.host, b.operation, b.permission) }

  /** The descriptions of the bindings of one resource, in order. */
  function Under(bs: seq<Binding>, resource: Resource): seq<Description> {
    if bs == [] then []
    else
      var last := bs[|bs| - 1];
      Under(bs[..|bs| - 1], resource) + if ResourceOf(last) == resource then [Describe(last)] else []
  }

  class AclAuthorizer {
    const settings: Settings
    var bindings: seq<Binding>

    constructor (enabled: bool, superUsers: set<string>, allowIfNone: bool)
      ensures settings == Settings(enabled, set u | u in superUsers :: Normal(u), allowIfNone) && bindings == []
    {
      settings := Settings(enabled, set u | u in superUsers :: Normal(u), allowIfNone);
      bindings := [];
    }

    method Authorize(r: Request) returns (ok: bool)
      ensures ok == Authorized(settings, bindings, r)
    {
      hide Covers, Applies;
      if !settings.enabled { return true; }
      if Normal(r.principal) in settings.superUsers || r.principal in settings.superUsers { return true; }
      var any := HasRules(bindings, r);
      if !any { return settings.allowIfNone; }
      var allowed := false;
      for i := 0 to |bindings|
        invariant allowed <==> exists b :: b in bindings[..i] && Applies(b, r) && b.permission == ALLOW
        invariant !exists b :: b in bindings[..i] && Applies(b, r) && b.permission == DENY
      {
        var b := bindings[i];
        assert bindings[..i + 1] == bindings[..i] + [b];
        var applies := AppliesStepwise(b, r);
        if !applies { continue; }
        if b.permission == DENY { return false; }
        if b.permission == ALLOW { allowed := true; }
      }
      assert bindings[..|bindings|] == bindings;
      return allowed;
    }

    method CreateAcls(cs: seq<Creation>) returns (ok: seq<bool>)
      modifies this
      ensures bindings == Created(old(bindings), cs)
      ensures |ok| == |cs| && forall i :: 0 <= i < |cs| ==> ok[i] == Valid(cs[i])
    {
      ok := [];
      for i := 0 to |cs|
        invariant bindings == Created(old(bindings), cs[..i])
        invariant |ok| == i && forall k :: 0 <= k < i ==> ok[k] == Valid(cs[k])
      {
        var b := Bound(cs[i]);
        assert cs[..i + 1][..i] == cs[..i];
        if b.resourceType == UNKNOWN || b.pattern == UNKNOWN || b.operation == UNKNOWN || b.permission == UNKNOWN {
          ok := ok + [false];
          continue;
        }
        if b !in bindings { bindings := bindings + [b]; }
        ok := ok + [true];
      }
      assert cs[..|cs|] == cs;
    }

    method DescribeAcls(f: Filter) returns (grouped: map<Resource, seq<Description>>)
      ensures Grouped(grouped, Select(bindings, f, true))
    {
      hide Matches, Select, Grouped, Describe;
      grouped := map[];
      NothingGrouped(f);
      for i := 0 to |bindings|
        invariant Grouped(grouped, Select(bindings[..i], f, true))
      {
        var b := bindings[i];
        SelectNext(bindings, f, true, i);
        var listed := ListsBinding(f, b);
        if !listed { continue; }
        var k := ResourceOf(b);
        GroupedStep(grouped, Select(bindings[..i], f, true), b);
        var before := if k in grouped then grouped[k] else [];
        grouped := grouped[k := before + [Describe(b)]];
      }
      assert bindings[..|bindings|] == bindings;
    }

    method DeleteAcls(fs: seq<Filter>) returns (removed: seq<seq<Binding>>)
      modifies this
      ensures bindings == Remaining(old(bindings), fs)
      ensures |removed| == |fs| && forall i :: 0 <= i < |fs| ==> removed[i] == RemovedBy(old(bindings), fs, i)
    {
      hide Select, Matches;
      removed := [];
      for i := 0 to |fs|
        invariant bindings == Remaining(old(bindings), fs[..i])
        invariant |removed| == i && forall k :: 0 <= k < i ==> removed[k] == RemovedBy(old(bindings), fs, k)
      {
        var kept, gone := Retain(bindings, fs[i]);
        assert fs[..i + 1][..i] == fs[..i];
        bindings := kept;
        removed := removed + [gone];
      }
      assert fs[..|fs|] == fs;
    }
  }

  method HasRules(bs: seq<Binding>, r: Request) returns (any: bool)
    ensures any <==> exists b :: b in bs && Covers(b, r)
  {
    hide Covers;
    for i := 0 to |bs|
      invariant !exists b :: b in bs[..i] && Covers(b, r)
    {
      assert bs[..i + 1] == bs[..i] + [bs[i]];
      if Covers(bs[i], r) { return true; }
    }
    assert bs[..|bs|] == bs;
    return false;
  }

  /** The chain of tests in the loop body. */
  method AppliesStepwise(b: Binding, r: Request) returns (ok: bool)
    ensures ok == Applies(b, r)
  {
    if b.resourceType != r.resourceType { return false; }
    var resource := if b.pattern == PREFIXED then b.name <= r.name else b.name == r.name || b.name == "*";
    if !resource { return false; }
    if b.principal != Normal(r.principal) && b.principal != "User:*" && b.principal != "*" { return false; }
    if b.host != r.host && b.host != "*" { return false; }
    return b.operation == r.operation || b.operation == ALL_OPERATIONS;
  }

  /** The chain of tests that describing runs a binding through, each `continue` a refusal. */
  method ListsBinding(f: Filter, b: Binding) returns (listed: bool)
    ensures listed == Matches(f, b)
  {
    if f.resourceType != ANY && b.resourceType != f.resourceType { return false; }
    if f.name.Some? {
      var name := f.name.value;
      var matchesName :=
        match f.pattern
        case 1 => b.name == name || b.name <= name || b.name == "*"
        case 2 => b.name == name || b.name <= name || b.name == "*"
        case 3 => b.name == name
        case 4 => b.name <= name
        case _ => b.name == name;
      if !matchesName { return false; }
    }
    if f.principal.Some? {
      var principal := f.principal.value;
      var norm := if ':' !in principal && principal != "*" then "User:" + principal else principal;
      if principal != "*" && b.principal != norm && b.principal != principal { return false; }
    }
    if f.host.Some? {
      if f.host.value != "*" && b.host != f.host.value { return false; }
    }
    if f.operation != ANY && b.operation != f.operation { return false; }
    if f.permission != ANY && b.permission != f.permission { return false; }
    return true;
  }

  /** The chain that deleting runs a binding through, written out a second time; `true` keeps the binding. */
  method KeepsBinding(f: Filter, b: Binding) returns (stays: bool)
    ensures stays == !Matches(f, b)
  {
    if f.resourceType != ANY && b.resourceType != f.resourceType { return true; }
    if f.name.Some? {
      var name := f.name.value;
      var matchesName :=
        match f.pattern
        case 1 => b.name == name || b.name <= name || b.name == "*"
        case 2 => b.name == name || b.name <= name || b.name == "*"
        case 3 => b.name == name
        case 4 => b.name <= name
        case _ => b.name == name;
      if !matchesName { return true; }
    }
    if f.principal.Some? {
      var principal := f.principal.value;
      var norm := if ':' !in principal && principal != "*" then "User:" + principal else principal;
      if principal != "*" && b.principal != norm && b.principal != principal { return true; }
    }
    if f.host.Some? {
      if f.host.value != "*" && b.host != f.host.value { return true; }
    }
    if f.operation != ANY && b.operation != f.operation { return true; }
    if f.permission != ANY && b.permission != f.permission { return true; }
    return false;
  }

  /** `retain`. */
  method Retain(bs: seq<Binding>, f: Filter) returns (kept: seq<Binding>, gone: seq<Binding>)
    ensures kept == Select(bs, f, false) && gone == Select(bs, f, true)
  {
    kept, gone := [], [];
    for i := 0 to |bs|
      invariant kept == Select(bs[..i], f, false) && gone == Select(bs[..i], f, true)
    {
      hide Matches, Select;
      SelectNext(bs, f, true, i);
      SelectNext(bs, f, false, i);
      var stays := KeepsBinding(f, bs[i]);
      if stays { kept := kept + [bs[i]]; } else { gone := gone + [bs[i]]; }
    }
    assert bs[..|bs|] == bs;
  }

  lemma SelectNext(bs: seq<Binding>, f: Filter, matching: bool, i: nat)
    requires i < |bs|
    ensures Select(bs[..i + 1], f, matching)
         == if Matches(f, bs[i]) == matching then Select(bs[..i], f, matching) + [bs[i]]
            else Select(bs[..i], f, matching)
  {
    hide Matches;
    assert bs[..i + 1][..i] == bs[..i];
  }

  /** The answer to a describe request: each resource with bindings, and all of its bindings. */
  ghost predicate Grouped(grouped: map<Resource, seq<Description>>, bs: seq<Binding>) {
    && (forall k :: k in grouped <==> exists b :: b in bs && ResourceOf(b) == k)
    && (forall k :: k in grouped ==> grouped[k] == Under(bs, k))
  }

  lemma NothingGrouped(f: Filter)
    ensures Grouped(map[], Select([], f, true))
  {
  }

  lemma GroupedStep(grouped: map<Resource, seq<Description>>, bs: seq<Binding>, b: Binding)
    requires Grouped(grouped, bs)
    ensures var k := ResourceOf(b);
            var before := if k in grouped then grouped[k] else [];
            Grouped(grouped[k := before + [Describe(b)]], bs + [b])
  {
    hide Describe, Under, ResourceOf;
    var k := ResourceOf(b);
    if k !in grouped { UnderNone(bs, k); }
    forall h | h in grouped || h == k
      ensures exists x :: x in bs + [b] && ResourceOf(x) == h
    {
      if h == k {
        assert b in bs + [b];
      } else {
        var x :| x in bs && ResourceOf(x) == h;
        assert x in bs + [b];
      }
    }
    forall h
      ensures Under(bs + [b], h) == if h == k then Under(bs, h) + [Describe(b)] else Under(bs, h)
    {
      UnderNext(bs, b, h);
    }
  }

  lemma UnderNext(bs: seq<Binding>, b: Binding, h: Resource)
    ensures Under(bs + [b], h) == if ResourceOf(b) == h then Under(bs, h) + [Describe(b)] else Under(bs, h)
  {
    hide Describe, ResourceOf;
    assert (bs + [b])[..|bs|] == bs;
  }

  lemma {:induction false} UnderNone(bs: seq<Binding>, k: Resource)
    requires !exists b :: b in bs && ResourceOf(b) == k
    ensures Under(bs, k) == []
  {
    if bs != [] {
      assert bs[|bs| - 1] in bs;
      UnderNone(bs[..|bs| - 1], k);
    }
  }

  // ---------- describing and deleting agree ----------

  lemma {:induction false} UnderCounts(bs: seq<Binding>, b: Binding)
    ensures multiset(Under(bs, ResourceOf(b)))[Describe(b)] == multiset(bs)[b]
  {
    if bs != [] {
      var front, last := bs[..|bs| - 1], bs[|bs| - 1];
      assert bs == front + [last];
      UnderCounts(front, b);
    }
  }

  /**
   * A describe request with a filter lists each binding exactly as often as a delete request with that filter
   * removes it.
   */
  lemma DescribeListsWhatDeleteRemoves(bs: seq<Binding>, f: Filter, grouped: map<Resource, seq<Description>>,
      b: Binding)
    requires Grouped(grouped, Select(bs, f, true))
    ensures (if ResourceOf(b) in grouped then multiset(grouped[ResourceOf(b)])[Describe(b)] else 0)
         == multiset(RemovedBy(bs, [f], 0))[b]
  {
    hide Select, Matches, Under;
    assert [f][..0] == [];
    UnderCounts(Select(bs, f, true), b);
  }

  lemma {:induction false} SelectSplits(bs: seq<Binding>, f: Filter)
    ensures multiset(bs) == multiset(Select(bs, f, true)) + multiset(Select(bs, f, false))
  {
    hide Matches;
    if bs != [] {
      assert bs == bs[..|bs| - 1] + [bs[|bs| - 1]];
      SelectSplits(bs[..|bs| - 1], f);
    }
  }

  /** A filter keeps the order of the bindings. */
  lemma {:induction false} SelectsInOrder(a: seq<Binding>, b: seq<Binding>, f: Filter, matching: bool)
    ensures Select(a + b, f, matching) == Select(a, f, matching) + Select(b, f, matching)
  {
    hide Matches, Select;
    if b == [] {
      assert a + b == a;
      SelectNone(f, matching);
    } else {
      var front, last := b[..|b| - 1], b[|b| - 1];
      SelectsInOrder(a, front, f, matching);
      SelectLast(a + front, last, f, matching);
      SelectLast(front, last, f, matching);
      assert a + b == a + front + [last] && b == front + [last];
    }
  }

  lemma SelectNone(f: Filter, matching: bool)
    ensures Select([], f, matching) == []
  {
  }

  lemma SelectLast(bs: seq<Binding>, b: Binding, f: Filter, matching: bool)
    ensures Select(bs + [b], f, matching)
         == Select(bs, f, matching) + if Matches(f, b) == matching then [b] else []
  {
    hide Matches;
    assert (bs + [b])[..|bs|] == bs;
  }

  /** All that the filters removed. */
  function RemovedInAll(bs: seq<Binding>, fs: seq<Filter>, n: nat): multiset<Binding>
    requires n <= |fs|
  {
    if n == 0 then multiset{} else RemovedInAll(bs, fs, n - 1) + multiset(RemovedBy(bs, fs, n - 1))
  }

  /** Deleting removes and reports: what remains and what was reported make up what was there. */
  lemma {:induction false} DeleteConserves(bs: seq<Binding>, fs: seq<Filter>, n: nat)
    requires n <= |fs|
    ensures multiset(bs) == multiset(Remaining(bs, fs[..n])) + RemovedInAll(bs, fs, n)
  {
    hide Select, Matches;
    if n > 0 {
      DeleteConserves(bs, fs, n - 1);
      assert fs[..n][..n - 1] == fs[..n - 1];
      SelectSplits(Remaining(bs, fs[..n - 1]), fs[n - 1]);
    }
  }

  /** A binding stays exactly when no filter matches it; otherwise the first filter that does reports it. */
  lemma {:induction false} DeletedByFirstMatch(bs: seq<Binding>, fs: seq<Filter>, b: Binding)
    requires b in bs
    ensures b in Remaining(bs, fs) <==> forall f :: f in fs ==> !Matches(f, b)
    ensures forall i :: 0 <= i < |fs| ==>
              (b in RemovedBy(bs, fs, i) <==> Matches(fs[i], b) && forall f :: f in fs[..i] ==> !Matches(f, b))
  {
    hide Matches;
    if fs != [] {
      var n := |fs| - 1;
      assert fs == fs[..n] + [fs[n]];
      DeletedByFirstMatch(bs, fs[..n], b);
      forall i | 0 <= i < n
        ensures RemovedBy(bs, fs, i) == RemovedBy(bs, fs[..n], i) && fs[..n][..i] == fs[..i]
      {
        assert fs[..n][..i] == fs[..i] && fs[..n][i] == fs[i];
      }
    }
  }

  /** A filter's pattern type changes how names compare, but is never compared with a binding's. */
  lemma PatternTypeIsNotCompared(f: Filter, b: Binding, pattern: nat)
    ensures Matches(f, b.(pattern := pattern)) == Matches(f, b)
  {
  }

  // ---------- creating ----------

  /** Creation adds exactly the valid bindings that were missing, each once, behind those that were there. */
  lemma {:induction false} CreatesMissingOnce(bs: seq<Binding>, cs: seq<Creation>)
    ensures bs <= Created(bs, cs)
    ensures forall b :: b in Created(bs, cs) <==> b in bs || exists c :: c in cs && Valid(c) && Bound(c) == b
    ensures forall b :: b !in bs ==> multiset(Created(bs, cs))[b] <= 1
    ensures forall b :: b in bs ==> multiset(Created(bs, cs))[b] == multiset(bs)[b]
  {
    hide Valid, Bound;
    if cs != [] {
      var front, last := cs[..|cs| - 1], cs[|cs| - 1];
      assert cs == front + [last];
      CreatesMissingOnce(bs, front);
      forall b | b in Created(bs, cs)
        ensures b in bs || exists c :: c in cs && Valid(c) && Bound(c) == b
      {
        if b in Created(bs, front) && b !in bs {
          var c :| c in front && Valid(c) && Bound(c) == b;
          assert c in cs;
        } else if b !in bs {
          assert last in cs;
        }
      }
    }
  }

  // ---------- what a request meets, field by field ----------

  /** The principal as bindings and super users spell it. */
  ghost predicate Spelled(principal: string, full: string) {
    full == if ':' in principal then principal else "User:" + principal
  }

  ghost predicate Ordinary(s: Settings, principal: string, full: string) {
    s.enabled && Spelled(principal, full) && principal !in s.superUsers && full !in s.superUsers
  }

  /**
   * A binding on the resource exists, but every allow binding differs from the request: in operation and is not for
   * all of them, in host and is not for all, in principal and is no wildcard, in resource type, or in name. Then the
   * request is refused.
   */
  lemma NoFittingAllowRefuses(s: Settings, bs: seq<Binding>, r: Request, full: string, on: Binding, rest: string)
    requires Ordinary(s, r.principal, full)
    requires on in bs && on.resourceType == r.resourceType
    requires if on.pattern == 4 then r.name == on.name + rest else r.name == on.name || on.name == "*"
    requires forall b :: b in bs && b.permission == 3 ==>
               || (b.operation != r.operation && b.operation != 2)
               || (b.host != r.host && b.host != "*")
               || (b.principal != full && b.principal != "User:*" && b.principal != "*")
               || b.resourceType != r.resourceType
               || (if b.pattern == 4 then |b.name| > |r.name| || r.name[..|b.name|] != b.name
                   else b.name != r.name && b.name != "*")
    ensures !Authorized(s, bs, r)
  {
    assert Covers(on, r);
    forall b | b in bs && b.permission == ALLOW
      ensures !Applies(b, r)
    {
      Prefix(b.name, r.name);
    }
  }

  lemma Prefix(a: string, b: string)
    ensures a <= b <==> |a| <= |b| && b[..|a|] == a
  {
  }

  /**
   * An allow binding grants what it names. Prefixed, every name that starts with its own; with another pattern its own
   * name, and every name if its own is `*`; for its principal, or everyone; from its host, or any; for its operation,
   * or all. It does so whatever else is bound, as long as nothing is denied.
   */
  lemma AllowGrants(s: Settings, bs: seq<Binding>, b: Binding, r: Request, full: string, rest: string)
    requires b in bs && b.permission == 3 && forall d :: d in bs ==> d.permission != 2
    requires Spelled(r.principal, full) && (b.principal == full || b.principal == "User:*" || b.principal == "*")
    requires b.host == r.host || b.host == "*"
    requires b.operation == r.operation || b.operation == 2
    requires b.resourceType == r.resourceType
    requires if b.pattern == 4 then r.name == b.name + rest else r.name == b.name || b.name == "*"
    ensures Authorized(s, bs, r)
  {
    assert Applies(b, r);
  }

  /** A deny binding that names the request refuses it, whatever else is bound and wherever it stands. */
  lemma DenyRefuses(s: Settings, bs: seq<Binding>, b: Binding, r: Request, full: string, rest: string)
    requires b in bs && b.permission == 2 && Ordinary(s, r.principal, full)
    requires b.principal == full || b.principal == "User:*" || b.principal == "*"
    requires b.host == r.host || b.host == "*"
    requires b.operation == r.operation || b.operation == 2
    requires b.resourceType == r.resourceType
    requires if b.pattern == 4 then r.name == b.name + rest else r.name == b.name || b.name == "*"
    ensures !Authorized(s, bs, r)
  {
    assert Covers(b, r) && Applies(b, r);
  }

  /**
   * A deny binding for another operation, host or principal, another resource type or another name does not matter:
   * adding it changes no answer on a resource that has a binding already.
   */
  lemma OtherDenyIsIgnored(s: Settings, bs: seq<Binding>, d: Binding, r: Request, full: string, on: Binding,
                           rest: string)
    requires Spelled(r.principal, full)
    requires on in bs && on.resourceType == r.resourceType
    requires if on.pattern == 4 then r.name == on.name + rest else r.name == on.name || on.name == "*"
    requires || (d.operation != r.operation && d.operation != 2)
             || (d.host != r.host && d.host != "*")
             || (d.principal != full && d.principal != "User:*" && d.principal != "*")
             || d.resourceType != r.resourceType
             || (if d.pattern == 4 then |d.name| > |r.name| || r.name[..|d.name|] != d.name
                 else d.name != r.name && d.name != "*")
    ensures Authorized(s, bs + [d], r) == Authorized(s, bs, r)
  {
    assert Covers(on, r) && on in bs + [d];
    Prefix(d.name, r.name);
    assert !Applies(d, r);
    hide Applies, Covers;
    assert forall b :: b in bs ==> b in bs + [d];
    assert forall b :: b in bs + [d] && Applies(b, r) ==> b in bs;
  }

  /** Without a binding of that resource type whose name fits, the setting answers. */
  lemma NoBindingFollowsSetting(s: Settings, bs: seq<Binding>, r: Request, full: string)
    requires Ordinary(s, r.principal, full)
    requires forall b :: b in bs && b.resourceType == r.resourceType ==>
               if b.pattern == 4 then |b.name| > |r.name| || r.name[..|b.name|] != b.name
               else b.name != r.name && b.name != "*"
    ensures Authorized(s, bs, r) == s.allowIfNone
  {
    forall b | b in bs
      ensures !Covers(b, r)
    {
      Prefix(b.name, r.name);
    }
  }

  /** A disabled authorizer lets everything pass, and an enabled one its super users, however they are spelled. */
  lemma UncheckedPasses(s: Settings, bs: seq<Binding>, r: Request, full: string)
    requires !s.enabled || r.principal in s.superUsers || (Spelled(r.principal, full) && full in s.superUsers)
    ensures Authorized(s, bs, r)
  {
    hide Applies, Covers;
  }

  // ---------- what a creation makes ----------

  /**
   * A creation is refused exactly when a code is out of range, and then binds nothing. Otherwise it binds what it says,
   * a principal without a colon being a user and an empty host any host.
   */
  lemma CreatesWhatItSays(bs: seq<Binding>, c: Creation, full: string)
    requires Spelled(c.principal, full)
    ensures Valid(c) <==>
              1 <= c.resourceType <= 7 && 1 <= c.pattern <= 4 && 1 <= c.operation <= 12 && 1 <= c.permission <= 3
    ensures !Valid(c) ==> Created(bs, [c]) == bs
    ensures Valid(c) ==>
              var b := Binding(c.resourceType, c.name, c.pattern, full, if c.host == "" then "*" else c.host,
                               c.operation, c.permission);
              Created(bs, [c]) == if b in bs then bs else bs + [b]
  {
    assert [c][..0] == [] && Created(bs, []) == bs;
  }

  /** Creating an allow binding lets its principal pass from then on, as long as nothing is denied. */
  lemma CreatedAllowGrants(s: Settings, bs: seq<Binding>, c: Creation, r: Request, rest: string)
    requires Valid(c) && c.permission == 3 && forall d :: d in bs ==> d.permission != 2
    requires c.principal == r.principal && c.resourceType == r.resourceType && c.operation == r.operation
    requires c.host == r.host || c.host == "" || c.host == "*"
    requires if c.pattern == 4 then r.name == c.name + rest else r.name == c.name
    ensures Authorized(s, Created(bs, [c]), r)
  {
    hide Authorized, Created, Valid;
    var full := if ':' in c.principal then c.principal else "User:" + c.principal;
    CreatesWhatItSays(bs, c, full);
    var b := Binding(c.resourceType, c.name, c.pattern, full, if c.host == "" then "*" else c.host, c.operation, 3);
    AllowGrants(s, Created(bs, [c]), b, r, full, rest);
  }

  // ---------- what a filter matches ----------

  const NO_FILTER: Filter := Filter(1, None, 1, None, None, 1, 1)

  /** A filter matches what each of its fields alone matches. */
  lemma MatchesFieldByField(f: Filter, b: Binding)
    ensures Matches(f, b) <==>
              && Matches(NO_FILTER.(resourceType := f.resourceType), b)
              && Matches(NO_FILTER.(name := f.name, pattern := f.pattern), b)
              && Matches(NO_FILTER.(principal := f.principal), b)
              && Matches(NO_FILTER.(host := f.host), b)
              && Matches(NO_FILTER.(operation := f.operation), b)
              && Matches(NO_FILTER.(permission := f.permission), b)
  {
  }

  /** Alone, a code other than 1 (any) matches itself, and a host itself or, being `*`, everything. */
  lemma CodeFilters(b: Binding, code: int, host: string)
    ensures Matches(NO_FILTER, b)
    ensures Matches(NO_FILTER.(resourceType := code), b) <==> code == 1 || code == b.resourceType
    ensures Matches(NO_FILTER.(operation := code), b) <==> code == 1 || code == b.operation
    ensures Matches(NO_FILTER.(permission := code), b) <==> code == 1 || code == b.permission
    ensures Matches(NO_FILTER.(host := Some(host)), b) <==> host == "*" || host == b.host
  {
  }

  /** Alone, a principal matches as written and as a user, and `*` everyone. */
  lemma PrincipalFilter(b: Binding, principal: string, full: string)
    requires Spelled(principal, full)
    ensures Matches(NO_FILTER.(principal := Some(principal)), b) <==>
              principal == "*" || b.principal == principal || b.principal == full
  {
  }

  /**
   * Alone, a name matches: with pattern 1 or 2 (any, match) the bindings whose name it starts with, and those on `*`;
   * with 4 (prefixed) the bindings whose name it starts with; with every other pattern its own.
   */
  lemma NameFilter(b: Binding, name: string, pattern: int)
    ensures Matches(NO_FILTER.(name := Some(name), pattern := pattern), b) <==>
              if pattern == 1 || pattern == 2 then
                b.name == "*" || (|b.name| <= |name| && name[..|b.name|] == b.name)
              else if pattern == 4 then |b.name| <= |name| && name[..|b.name|] == b.name
              else b.name == name
  {
    Prefix(b.name, name);
  }
}
