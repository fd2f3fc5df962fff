/**
 The principals a principal acts as (crates/nodus_catalog/src/memory_catalog.rs,
 `get_effective_principals`): itself and every role it is a member of, directly or through
 other roles. Memberships may form cycles.
 */
module Roles {
  import opened Wrappers

  type PrincipalId = nat

  datatype Edge = Edge(role: PrincipalId, member: PrincipalId, admin: bool, grantor: Option<PrincipalId>)

  /** `member` was made a member of `role`. */
  predicate MemberOf(edges: seq<Edge>, member: PrincipalId, role: PrincipalId) {
    exists i :: 0 <= i < |edges| && edges[i].member == member && edges[i].role == role
  }

  /** Each principal on the path is a member of the next. */
  ghost predicate Path(edges: seq<Edge>, path: seq<PrincipalId>) {
    path != [] && forall i :: 0 <= i < |path| - 1 ==> MemberOf(edges, path[i], path[i + 1])
  }

  ghost predicate Connects(edges: seq<Edge>, path: seq<PrincipalId>, p: PrincipalId, q: PrincipalId) {
    Path(edges, path) && path[0] == p && path[|path| - 1] == q
  }

  ghost predicate Reaches(edges: seq<Edge>, p: PrincipalId, q: PrincipalId) {
    exists path :: Connects(edges, path, p, q)
  }

  lemma ReachesSelf(edges: seq<Edge>, p: PrincipalId)
    ensures Reaches(edges, p, p)
  {
    assert Connects(edges, [p], p, p);
  }

  lemma ReachesNext(edges: seq<Edge>, p: PrincipalId, q: PrincipalId, r: PrincipalId)
    requires Reaches(edges, p, q) && MemberOf(edges, q, r)
    ensures Reaches(edges, p, r)
  {
    var path :| Connects(edges, path, p, q);
    var longer := path + [r];
    forall i | 0 <= i < |longer| - 1 ensures MemberOf(edges, longer[i], longer[i + 1]) {
      if i < |path| - 1 { assert longer[i] == path[i] && longer[i + 1] == path[i + 1]; }
    }
    assert Connects(edges, longer, p, r);
  }

  /** With every principal, every role it is a member of. */
  ghost predicate Closed(edges: seq<Edge>, s: seq<PrincipalId>) {
    forall q, r :: q in s && MemberOf(edges, q, r) ==> r in s
  }

  lemma {:induction false} ClosedHoldsPaths(edges: seq<Edge>, s: seq<PrincipalId>, path: seq<PrincipalId>)
    requires Closed(edges, s) && Path(edges, path) && path[0] in s
    ensures path[|path| - 1] in s
  {
    if |path| > 1 {
      var n := |path| - 1;
      var init := path[..n];
      forall i | 0 <= i < |init| - 1 ensures MemberOf(edges, init[i], init[i + 1]) {
        assert MemberOf(edges, path[i], path[i + 1]);
      }
      ClosedHoldsPaths(edges, s, init);
      assert MemberOf(edges, path[n - 1], path[n]);
    }
  }

  lemma ClosedHoldsReachable(edges: seq<Edge>, s: seq<PrincipalId>, p: PrincipalId, q: PrincipalId)
    requires Closed(edges, s) && p in s && Reaches(edges, p, q)
    ensures q in s
  {
    var path :| Connects(edges, path, p, q);
    ClosedHoldsPaths(edges, s, path);
  }

  ghost predicate Distinct(s: seq<PrincipalId>) {
    forall i, j :: 0 <= i < j < |s| ==> s[i] != s[j]
  }

  /** Everything the closure of `p` can hold. */
  ghost function Universe(edges: seq<Edge>, p: PrincipalId): set<PrincipalId> {
    {p} + set i | 0 <= i < |edges| :: edges[i].role
  }

  /** The principals found so far whose roles are still to be looked up. */
  ghost predicate Progress(edges: seq<Edge>, p: PrincipalId, result: seq<PrincipalId>, frontier: seq<PrincipalId>) {
    && p in result && Distinct(result) && Distinct(frontier)
    && (forall q :: q in result ==> Reaches(edges, p, q) && q in Universe(edges, p))
    && (forall q :: q in frontier ==> q in result)
    && forall q, r :: q in result && q !in frontier && MemberOf(edges, q, r) ==> r in result
  }

  /** Its roles have been looked up among the first `k` edges. */
  ghost predicate Scanned(edges: seq<Edge>, k: nat, current: PrincipalId, result: seq<PrincipalId>) {
    forall i :: 0 <= i < k <= |edges| && edges[i].member == current ==> edges[i].role in result
  }

  lemma SetSize(edges: seq<Edge>, p: PrincipalId, result: seq<PrincipalId>, r: PrincipalId)
    requires r in Universe(edges, p) && r !in result
    ensures |Universe(edges, p) - set x | x in result + [r]| < |Universe(edges, p) - set x | x in result|
  {
    var u := Universe(edges, p);
    var a, b := set x | x in result, set x | x in result + [r];
    assert b == a + {r};
    assert u - b == (u - a) - {r};
  }

  ghost function Remaining(edges: seq<Edge>, p: PrincipalId, result: seq<PrincipalId>): nat {
    |Universe(edges, p) - set x | x in result|
  }

  /** One popped principal's roles are added to the result and to the frontier. */
  method Expand(edges: seq<Edge>, ghost p: PrincipalId, current: PrincipalId, result0: seq<PrincipalId>, frontier0: seq<PrincipalId>)
    returns (result: seq<PrincipalId>, frontier: seq<PrincipalId>)
    requires Progress(edges, p, result0, frontier0 + [current])
    ensures Progress(edges, p, result, frontier)
    ensures Remaining(edges, p, result) < Remaining(edges, p, result0) || (result == result0 && frontier == frontier0)
  {
    hide Pending, Remaining, Progress;
    result, frontier := result0, frontier0;
    PopKeeps(edges, p, result0, frontier0, current);
    for k := 0 to |edges|
      invariant Pending(edges, p, result, frontier, current) && Scanned(edges, k, current, result)
      invariant Remaining(edges, p, result) < Remaining(edges, p, result0) || (result == result0 && frontier == frontier0)
    {
      var role := edges[k].role;
      if edges[k].member == current && role !in result {
        RoleFound(edges, p, result, frontier, current, k);
        result, frontier := result + [role], frontier + [role];
      }
    }
    DoneScanning(edges, p, result, frontier, current);
  }

  /** As `Progress`, but the popped principal's roles are still being added. */
  ghost predicate Pending(edges: seq<Edge>, p: PrincipalId, result: seq<PrincipalId>, frontier: seq<PrincipalId>, current: PrincipalId) {
    && p in result && current in result && Distinct(result) && Distinct(frontier) && current !in frontier
    && (forall q :: q in result ==> Reaches(edges, p, q) && q in Universe(edges, p))
    && (forall q :: q in frontier ==> q in result)
    && forall q, r :: q in result && q !in frontier && q != current && MemberOf(edges, q, r) ==> r in result
  }

  lemma PopKeeps(edges: seq<Edge>, p: PrincipalId, result: seq<PrincipalId>, frontier: seq<PrincipalId>, current: PrincipalId)
    requires Progress(edges, p, result, frontier + [current])
    ensures Pending(edges, p, result, frontier, current)
  {
    var all := frontier + [current];
    assert all[|frontier|] == current;
    forall i | 0 <= i < |frontier| ensures frontier[i] != current && frontier[i] in result {
      assert all[i] == frontier[i] && all[i] in all;
    }
    assert forall i, j :: 0 <= i < j < |frontier| ==> all[i] != all[j] && all[i] == frontier[i] && all[j] == frontier[j];
    assert forall q :: q in all <==> q in frontier || q == current;
  }

  lemma InUniverse(edges: seq<Edge>, p: PrincipalId, k: nat)
    requires k < |edges|
    ensures edges[k].role in Universe(edges, p)
  {
  }

  lemma DistinctSnoc(s: seq<PrincipalId>, x: PrincipalId)
    requires Distinct(s) && x !in s
    ensures Distinct(s + [x])
  {
  }

  lemma RoleFound(edges: seq<Edge>, p: PrincipalId, result: seq<PrincipalId>, frontier: seq<PrincipalId>, current: PrincipalId, k: nat)
    requires Pending(edges, p, result, frontier, current) && k < |edges|
    requires edges[k].member == current && edges[k].role !in result
    ensures Pending(edges, p, result + [edges[k].role], frontier + [edges[k].role], current)
    ensures Remaining(edges, p, result + [edges[k].role]) < Remaining(edges, p, result)
  {
    hide Reaches, Universe, Distinct;
    var role := edges[k].role;
    assert MemberOf(edges, current, role);
    ReachesNext(edges, p, current, role);
    assert role in Universe(edges, p) by { InUniverse(edges, p, k); }
    SetSize(edges, p, result, role);
    DistinctSnoc(result, role);
    DistinctSnoc(frontier, role);
    assert forall q :: q in result + [role] <==> q in result || q == role;
    assert forall q :: q in frontier + [role] <==> q in frontier || q == role;
  }

  lemma DoneScanning(edges: seq<Edge>, p: PrincipalId, result: seq<PrincipalId>, frontier: seq<PrincipalId>, current: PrincipalId)
    requires Pending(edges, p, result, frontier, current) && Scanned(edges, |edges|, current, result)
    ensures Progress(edges, p, result, frontier)
  {
    hide Reaches;
    forall r | MemberOf(edges, current, r) ensures r in result {
      var i :| 0 <= i < |edges| && edges[i].member == current && edges[i].role == r;
    }
  }

  /**
   `get_effective_principals`: exactly the reachable principals, each once, whatever cycles
   the memberships form.
   */
  method EffectivePrincipals(edges: seq<Edge>, p: PrincipalId) returns (result: seq<PrincipalId>)
    ensures Distinct(result)
    ensures forall q :: q in result <==> Reaches(edges, p, q)
  {
    result := [p];
    var frontier := [p];
    ReachesSelf(edges, p);
    while frontier != []
      invariant Progress(edges, p, result, frontier)
      decreases Remaining(edges, p, result), |frontier|
    {
      hide Progress, Remaining;
      var current := frontier[|frontier| - 1];
      assert frontier == frontier[..|frontier| - 1] + [current];
      result, frontier := Expand(edges, p, current, result, frontier[..|frontier| - 1]);
    }
    forall q | Reaches(edges, p, q) ensures q in result {
      ClosedHoldsReachable(edges, result, p, q);
    }
  }

  /** More memberships reach more. */
  lemma ReachesMore(edges: seq<Edge>, more: seq<Edge>, p: PrincipalId, q: PrincipalId)
    requires forall a, b :: MemberOf(edges, a, b) ==> MemberOf(more, a, b)
    requires Reaches(edges, p, q)
    ensures Reaches(more, p, q)
  {
    var path :| Connects(edges, path, p, q);
    assert Connects(more, path, p, q);
  }
}
