/**
 Role-based authorization: the catalog's grants and memberships
 (crates/nodus_catalog/src/memory_catalog.rs) and the decision over them
 (crates/nodus_authz/src/lib.rs).
 */
module Authz {
  import opened Wrappers
  import opened Roles
  import Words

  type DatabaseId = nat
  type GrantId = nat
  type RoleId = nat

  datatype Resource = Database(id: nat) | Schema(id: nat) | Table(id: nat) | Column(id: nat) | System

  datatype Action =
    | Connect | Usage | Select | Insert | Update | Delete
    | CreateDatabase | CreateSchema | CreateTable | ManageGrants
    | ViewSessions | ManageSessions | ReadAudit | ManageBackups
    | ManageUpgrades | ManageShards | ManageNode | ManageCluster

  function ToPrivilege(a: Action): string {
    match a
    case Connect => "CONNECT"
    case Usage => "USAGE"
    case Select => "SELECT"
    case Insert => "INSERT"
    case Update => "UPDATE"
    case Delete => "DELETE"
    case CreateDatabase => "CREATE"
    case CreateSchema => "CREATE"
    case CreateTable => "CREATE"
    case ManageGrants => "GRANT"
    case ViewSessions => "VIEW_SESSIONS"
    case ManageSessions => "MANAGE_SESSIONS"
    case ReadAudit => "READ_AUDIT"
    case ManageBackups => "MANAGE_BACKUPS"
    case ManageUpgrades => "MANAGE_UPGRADES"
    case ManageShards => "MANAGE_SHARDS"
    case ManageNode => "MANAGE_NODE"
    case ManageCluster => "MANAGE_CLUSTER"
  }

  /** A grant; only those in the public state count. */
  datatype Grant = Grant(id: GrantId, principal: PrincipalId, resource: Resource, privilege: string, public: bool)

  /** What a decision reads: `principals` gives the database a principal is scoped to, if any. */
  datatype Catalog = Catalog(
    memberships: seq<Edge>, grants: seq<Grant>, principals: map<PrincipalId, Option<DatabaseId>>,
    public: Option<PrincipalId>, owners: map<Resource, PrincipalId>)

  datatype Request = Request(
    principal: PrincipalId, activeRoles: seq<RoleId>, action: Action, resource: Resource, database: Option<DatabaseId>)

  datatype Reason = ImplicitDeny | GrantedByRole(role: RoleId, grant: GrantId) | GrantedToPrincipal(to: GrantId) | Superuser | Owner

  datatype Decision = Decision(allowed: bool, reason: Reason)

  predicate Same(a: string, b: string) {
    Words.Lower(a) == Words.Lower(b)
  }

  // ------------------------------------------------------------- what is promised

  /** Unscoped, or scoped to the request's database. */
  predicate InScope(c: Catalog, r: Request, q: PrincipalId) {
    q in c.principals && (c.principals[q].None? || c.principals[q] == r.database)
  }

  /** The request acts as `q`: a principal it reaches, or PUBLIC, in scope. */
  ghost predicate ActsAs(c: Catalog, r: Request, q: PrincipalId) {
    InScope(c, r, q) && (Reaches(c.memberships, r.principal, q) || c.public == Some(q))
  }

  /** An ALL grant on the system. */
  predicate SystemAll(g: Grant) {
    g.public && g.resource == System && Same(g.privilege, "ALL")
  }

  /** A grant of what the request asks for. */
  predicate Answers(g: Grant, r: Request) {
    && g.public && g.resource == r.resource
    && (Same(g.privilege, ToPrivilege(r.action)) || (Same(g.privilege, "ALL") && r.action != ManageGrants))
  }

  predicate Owns(c: Catalog, r: Request, q: PrincipalId) {
    (r.resource.Table? || r.resource.Schema? || r.resource.Database?) && r.resource in c.owners && c.owners[r.resource] == q
  }

  ghost predicate HoldsSystemAll(c: Catalog, r: Request) {
    exists g :: g in c.grants && SystemAll(g) && ActsAs(c, r, g.principal)
  }

  ghost predicate ActsAsOwner(c: Catalog, r: Request) {
    exists q :: ActsAs(c, r, q) && Owns(c, r, q)
  }

  ghost predicate HoldsGrant(c: Catalog, r: Request) {
    exists g :: g in c.grants && Answers(g, r) && ActsAs(c, r, g.principal)
  }

  /** Some principal the request acts as is a superuser, the owner, or a matching grantee. */
  ghost predicate Allowed(c: Catalog, r: Request) {
    HoldsSystemAll(c, r) || ActsAsOwner(c, r) || HoldsGrant(c, r)
  }

  // ---------------------------------------------------------------- the decision

  /** `principals_in_scope`. */
  method Scoped(c: Catalog, r: Request, effective: seq<PrincipalId>) returns (scoped: seq<PrincipalId>)
    ensures forall q :: q in scoped <==> q in effective && InScope(c, r, q)
  {
    scoped := [];
    for i := 0 to |effective|
      invariant forall q :: q in scoped <==> q in effective[..i] && InScope(c, r, q)
    {
      assert effective[..i + 1] == effective[..i] + [effective[i]];
      if InScope(c, r, effective[i]) { scoped := scoped + [effective[i]]; }
    }
    assert effective[..|effective|] == effective;
  }

  /** The principals the request acts as. */
  method Acting(c: Catalog, r: Request) returns (effective: seq<PrincipalId>)
    ensures forall q :: q in effective <==> ActsAs(c, r, q)
  {
    hide InScope, Reaches;
    var all := EffectivePrincipals(c.memberships, r.principal);
    if c.public.Some? && c.public.value !in all { all := all + [c.public.value]; }
    effective := Scoped(c, r, all);
  }

  predicate MatchAt(c: Catalog, r: Request, effective: seq<PrincipalId>, i: nat)
    requires i < |c.grants|
  {
    Answers(c.grants[i], r) && c.grants[i].principal in effective
  }

  /** The first grant that answers the request. */
  method FindMatchingGrant(c: Catalog, r: Request, effective: seq<PrincipalId>) returns (found: Option<Grant>, at: nat)
    ensures at <= |c.grants| && forall j :: 0 <= j < at ==> !MatchAt(c, r, effective, j)
    ensures if at < |c.grants| then MatchAt(c, r, effective, at) && found == Some(c.grants[at]) else found == None
  {
    hide Answers;
    for i := 0 to |c.grants|
      invariant forall j :: 0 <= j < i ==> !MatchAt(c, r, effective, j)
    {
      if MatchAt(c, r, effective, i) { return Some(c.grants[i]), i; }
    }
    found, at := None, |c.grants|;
  }

  method IsSuperuser(c: Catalog, effective: seq<PrincipalId>) returns (yes: bool)
    ensures yes <==> exists g :: g in c.grants && SystemAll(g) && g.principal in effective
  {
    hide SystemAll;
    for i := 0 to |c.grants|
      invariant forall j :: 0 <= j < i ==> !(SystemAll(c.grants[j]) && c.grants[j].principal in effective)
    {
      if SystemAll(c.grants[i]) && c.grants[i].principal in effective { return true; }
    }
    yes := false;
  }

  /** The grant answers the request for a principal it acts as. */
  ghost predicate Serves(c: Catalog, r: Request, g: Grant) {
    Answers(g, r) && ActsAs(c, r, g.principal)
  }

  /** The reason reports the grant at `i`, the first that serves the request. */
  ghost predicate Reports(c: Catalog, r: Request, i: nat, reason: Reason) {
    && i < |c.grants| && Serves(c, r, c.grants[i]) && (forall j :: 0 <= j < i ==> !Serves(c, r, c.grants[j]))
    && var g := c.grants[i];
       match reason
       case GrantedToPrincipal(id) => id == g.id && (g.principal == r.principal || r.activeRoles == [])
       case GrantedByRole(role, id) => id == g.id && g.principal != r.principal && r.activeRoles != [] && role == r.activeRoles[0]
       case _ => false
  }

  /** `authorize`: allowed exactly when the request acts as a superuser, the owner or a grantee. */
  method Authorize(c: Catalog, r: Request) returns (d: Decision)
    ensures d.allowed <==> Allowed(c, r)
    ensures d.reason == Superuser <==> HoldsSystemAll(c, r)
    ensures d.reason == Owner <==> !HoldsSystemAll(c, r) && ActsAsOwner(c, r)
    ensures d.reason == ImplicitDeny <==> !Allowed(c, r)
    ensures d.reason.GrantedToPrincipal? || d.reason.GrantedByRole? ==> exists i :: Reports(c, r, i, d.reason)
  {
    hide ActsAs, Answers, SystemAll;
    var effective := Acting(c, r);
    var matched, at := FindMatchingGrant(c, r, effective);
    assert matched.None? <==> !HoldsGrant(c, r) by { MatchesServe(c, r, effective, at); }
    var superuser := IsSuperuser(c, effective);
    if superuser { return Decision(true, Superuser); }
    var known := r.resource.Table? || r.resource.Schema? || r.resource.Database?;
    if known && r.resource in c.owners && c.owners[r.resource] in effective {
      assert Owns(c, r, c.owners[r.resource]);
      return Decision(true, Owner);
    }
    if matched.None? { return Decision(false, ImplicitDeny); }
    var g := matched.value;
    var reason :=
      if g.principal == r.principal || r.activeRoles == [] then GrantedToPrincipal(g.id) else GrantedByRole(r.activeRoles[0], g.id);
    MatchesServe(c, r, effective, at);
    assert Reports(c, r, at, reason);
    d := Decision(true, reason);
  }

  // With the principals it acts as, the matching grants are those that serve the request.
  lemma MatchesServe(c: Catalog, r: Request, effective: seq<PrincipalId>, at: nat)
    requires forall q :: q in effective <==> ActsAs(c, r, q)
    requires at <= |c.grants| && (at < |c.grants| ==> MatchAt(c, r, effective, at))
    requires forall j :: 0 <= j < at ==> !MatchAt(c, r, effective, j)
    ensures at < |c.grants| ==> Serves(c, r, c.grants[at])
    ensures forall j :: 0 <= j < at ==> !Serves(c, r, c.grants[j])
    ensures HoldsGrant(c, r) <==> at < |c.grants|
  {
    hide ActsAs, Answers;
    forall j | 0 <= j < at ensures !Serves(c, r, c.grants[j]) { assert !MatchAt(c, r, effective, j); }
    if at < |c.grants| { assert c.grants[at] in c.grants; }
    if HoldsGrant(c, r) {
      var g :| g in c.grants && Answers(g, r) && ActsAs(c, r, g.principal);
      var j :| 0 <= j < |c.grants| && c.grants[j] == g;
      assert MatchAt(c, r, effective, j);
    }
  }

  // ------------------------------------------------------------------ its theorems

  /** More grants, more memberships and more principals allow more. */
  lemma AllowedMonotone(c: Catalog, d: Catalog, r: Request)
    requires forall q :: q in c.principals ==> q in d.principals && d.principals[q] == c.principals[q]
    requires c.public == d.public && c.owners == d.owners
    requires forall a, b :: MemberOf(c.memberships, a, b) ==> MemberOf(d.memberships, a, b)
    requires forall g :: g in c.grants ==> g in d.grants
    requires Allowed(c, r)
    ensures Allowed(d, r)
  {
    hide Reaches, SystemAll, Answers;
    forall q | ActsAs(c, r, q) ensures ActsAs(d, r, q) {
      if Reaches(c.memberships, r.principal, q) { ReachesMore(c.memberships, d.memberships, r.principal, q); }
    }
  }

  /** Grants to principals scoped to another database make no difference. */
  lemma OtherDatabasesIrrelevant(c: Catalog, d: Catalog, r: Request)
    requires d == c.(grants := d.grants)
    requires forall g: Grant :: InScope(c, r, g.principal) ==> (g in c.grants <==> g in d.grants)
    ensures Allowed(c, r) <==> Allowed(d, r)
  {
    hide Reaches, SystemAll, Answers;
    assert forall q :: ActsAs(c, r, q) <==> ActsAs(d, r, q);
  }

  // -------------------------------------------------------------------- the catalog

  class MemoryCatalog {
    var memberships: seq<Edge>
    var grants: seq<Grant>
    var principals: map<PrincipalId, Option<DatabaseId>>
    var public: Option<PrincipalId>
    var owners: map<Resource, PrincipalId>

    function View(): Catalog
      reads this
    {
      Catalog(memberships, grants, principals, public, owners)
    }

    constructor (public: Option<PrincipalId>)
      ensures View() == Catalog([], [], if public.Some? then map[public.value := None] else map[], public, map[])
    {
      memberships, grants, owners := [], [], map[];
      principals := if public.Some? then map[public.value := None] else map[];
      this.public := public;
    }

    /** `grant_privilege`: nothing that was allowed is lost. */
    method GrantPrivilege(id: GrantId, principal: PrincipalId, resource: Resource, privilege: string)
      modifies this
      ensures View() == old(View()).(grants := old(grants) + [Grant(id, principal, resource, privilege, true)])
      ensures forall r :: Allowed(old(View()), r) ==> Allowed(View(), r)
    {
      grants := grants + [Grant(id, principal, resource, privilege, true)];
      forall r | Allowed(old(View()), r) ensures Allowed(View(), r) {
        AllowedMonotone(old(View()), View(), r);
      }
    }

    /** `revoke_privilege`: nothing becomes allowed. */
    method RevokePrivilege(principal: PrincipalId, resource: Resource, privilege: string)
      modifies this
      ensures View() == old(View()).(grants := grants)
      ensures forall g :: g in grants <==> g in old(grants) && !Revokes(g, principal, resource, privilege)
      ensures forall r :: Allowed(View(), r) ==> Allowed(old(View()), r)
    {
      var kept := [];
      for i := 0 to |grants|
        invariant grants == old(grants) && View() == old(View())
        invariant forall g :: g in kept <==> g in grants[..i] && !Revokes(g, principal, resource, privilege)
      {
        assert grants[..i + 1] == grants[..i] + [grants[i]];
        if !Revokes(grants[i], principal, resource, privilege) { kept := kept + [grants[i]]; }
      }
      assert grants[..|grants|] == grants;
      grants := kept;
      forall r | Allowed(View(), r) ensures Allowed(old(View()), r) {
        AllowedMonotone(View(), old(View()), r);
      }
    }

    /** `add_role_member`: a new edge, or the pair's first edge updated; nothing that was allowed is lost. */
    method AddRoleMember(role: PrincipalId, member: PrincipalId, admin: bool, grantor: Option<PrincipalId>)
      modifies this
      ensures View() == old(View()).(memberships := memberships)
      ensures !MemberOf(old(memberships), member, role) ==> memberships == old(memberships) + [Edge(role, member, admin, grantor)]
      ensures MemberOf(old(memberships), member, role) ==>
                exists i :: FirstEdge(old(memberships), role, member, i)
                            && memberships == old(memberships)[i := Edge(role, member, admin, if grantor.Some? then grantor else old(memberships)[i].grantor)]
      ensures forall a, b :: MemberOf(memberships, a, b) <==> MemberOf(old(memberships), a, b) || (a == member && b == role)
      ensures forall r :: Allowed(old(View()), r) ==> Allowed(View(), r)
    {
      var i := 0;
      while i < |memberships| && !(memberships[i].role == role && memberships[i].member == member)
        invariant i <= |memberships| && View() == old(View())
        invariant forall j :: 0 <= j < i ==> !(memberships[j].role == role && memberships[j].member == member)
      {
        i := i + 1;
      }
      var edge := Edge(role, member, admin, if i == |memberships| || grantor.Some? then grantor else memberships[i].grantor);
      if i < |memberships| {
        assert FirstEdge(memberships, role, member, i);
        memberships := memberships[i := edge];
      } else {
        memberships := memberships + [edge];
      }
      EdgeStored(old(memberships), memberships, i, edge);
      forall r | Allowed(old(View()), r) ensures Allowed(View(), r) {
        AllowedMonotone(old(View()), View(), r);
      }
    }

    /** `remove_role_member`: nothing becomes allowed. */
    method RemoveRoleMember(role: PrincipalId, member: PrincipalId)
      modifies this
      ensures View() == old(View()).(memberships := memberships)
      ensures forall a, b :: MemberOf(memberships, a, b) <==> MemberOf(old(memberships), a, b) && !(a == member && b == role)
      ensures forall r :: Allowed(View(), r) ==> Allowed(old(View()), r)
    {
      var kept := [];
      for i := 0 to |memberships|
        invariant memberships == old(memberships) && View() == old(View())
        invariant forall e :: e in kept <==> e in memberships[..i] && !(e.role == role && e.member == member)
      {
        assert memberships[..i + 1] == memberships[..i] + [memberships[i]];
        if !(memberships[i].role == role && memberships[i].member == member) { kept := kept + [memberships[i]]; }
      }
      assert memberships[..|memberships|] == memberships;
      memberships := kept;
      EdgeRemoved(old(memberships), kept, role, member);
      forall r | Allowed(View(), r) ensures Allowed(old(View()), r) {
        AllowedMonotone(View(), old(View()), r);
      }
    }

    /** `drop_principal`: whoever acted as it acts as it no more, and nothing becomes allowed. */
    method DropPrincipal(id: PrincipalId)
      modifies this
      ensures View() == old(View()).(memberships := memberships, principals := old(principals) - {id})
      ensures forall a, b :: MemberOf(memberships, a, b) <==> MemberOf(old(memberships), a, b) && a != id && b != id
      ensures forall r :: !ActsAs(View(), r, id)
      ensures forall r: Request, q: PrincipalId :: r.principal == id && ActsAs(View(), r, q) ==> public == Some(q)
      ensures forall r :: Allowed(View(), r) ==> Allowed(old(View()), r)
    {
      principals := principals - {id};
      var kept := [];
      for i := 0 to |memberships|
        invariant memberships == old(memberships) && View() == old(View()).(principals := principals)
        invariant forall e :: e in kept <==> e in memberships[..i] && e.role != id && e.member != id
      {
        assert memberships[..i + 1] == memberships[..i] + [memberships[i]];
        if memberships[i].role != id && memberships[i].member != id { kept := kept + [memberships[i]]; }
      }
      assert memberships[..|memberships|] == memberships;
      memberships := kept;
      EdgesKept(old(memberships), kept, id);
      forall r: Request, q: PrincipalId | r.principal == id && ActsAs(View(), r, q) ensures public == Some(q) {
        if Reaches(memberships, id, q) { Isolated(memberships, id, q); }
      }
      forall r | Allowed(View(), r) ensures Allowed(old(View()), r) {
        AllowedMonotone(View(), old(View()), r);
      }
    }
  }

  ghost predicate FirstEdge(edges: seq<Edge>, role: PrincipalId, member: PrincipalId, i: int) {
    && 0 <= i < |edges| && edges[i].role == role && edges[i].member == member
    && forall j :: 0 <= j < i ==> !(edges[j].role == role && edges[j].member == member)
  }

  predicate Revokes(g: Grant, principal: PrincipalId, resource: Resource, privilege: string) {
    g.principal == principal && g.resource == resource && Same(g.privilege, privilege)
  }

  lemma EdgeStored(before: seq<Edge>, after: seq<Edge>, i: nat, e: Edge)
    requires i <= |before|
    requires if i < |before| then before[i].role == e.role && before[i].member == e.member && after == before[i := e] else after == before + [e]
    ensures forall a, b :: MemberOf(after, a, b) <==> MemberOf(before, a, b) || (a == e.member && b == e.role)
  {
    forall a, b ensures MemberOf(after, a, b) <==> MemberOf(before, a, b) || (a == e.member && b == e.role) {
      if MemberOf(before, a, b) {
        var j :| 0 <= j < |before| && before[j].member == a && before[j].role == b;
        assert after[j].member == a && after[j].role == b;
      }
      if a == e.member && b == e.role { assert after[i].member == a && after[i].role == b; }
      if MemberOf(after, a, b) {
        var j :| 0 <= j < |after| && after[j].member == a && after[j].role == b;
        assert j == i || before[j] == after[j];
      }
    }
  }

  lemma EdgesKept(before: seq<Edge>, after: seq<Edge>, id: PrincipalId)
    requires forall e :: e in after <==> e in before && e.role != id && e.member != id
    ensures forall a, b :: MemberOf(after, a, b) <==> MemberOf(before, a, b) && a != id && b != id
  {
    forall a, b ensures MemberOf(after, a, b) <==> MemberOf(before, a, b) && a != id && b != id {
      if MemberOf(after, a, b) {
        var j :| 0 <= j < |after| && after[j].member == a && after[j].role == b;
        assert after[j] in before;
      }
      if MemberOf(before, a, b) && a != id && b != id {
        var j :| 0 <= j < |before| && before[j].member == a && before[j].role == b;
        assert before[j] in after;
      }
    }
  }

  lemma EdgeRemoved(before: seq<Edge>, after: seq<Edge>, role: PrincipalId, member: PrincipalId)
    requires forall e :: e in after <==> e in before && !(e.role == role && e.member == member)
    ensures forall a, b :: MemberOf(after, a, b) <==> MemberOf(before, a, b) && !(a == member && b == role)
  {
    forall a, b ensures MemberOf(after, a, b) <==> MemberOf(before, a, b) && !(a == member && b == role) {
      if MemberOf(after, a, b) {
        var j :| 0 <= j < |after| && after[j].member == a && after[j].role == b;
        assert after[j] in before;
      }
      if MemberOf(before, a, b) && !(a == member && b == role) {
        var j :| 0 <= j < |before| && before[j].member == a && before[j].role == b;
        assert before[j] in after;
      }
    }
  }

  // A principal in no membership reaches only itself.
  lemma Isolated(edges: seq<Edge>, p: PrincipalId, q: PrincipalId)
    requires forall b :: !MemberOf(edges, p, b)
    requires Reaches(edges, p, q)
    ensures q == p
  {
    ClosedHoldsReachable(edges, [p], p, q);
  }
}
