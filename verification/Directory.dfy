/** The tenancy directory (tenancy/pkg/directory): four maps, a reverse index, and the review that joins them. */
module Directory {
  import opened Text
  import opened Sorting

  datatype ObjectKey = ObjectKey(cluster: string, name: string)

  datatype Tenant = Tenant(displayName: string, workspaceCluster: string)

  datatype Project = Project(tenant: string, displayName: string, workspaceCluster: string)

  datatype Subject = Subject(kind: string, name: string)

  datatype Membership = Membership(subject: Subject, role: string, tenant: string, project: string)

  datatype ProjectClaim = ProjectClaim(name: string, displayName: string, cluster: string, endpoint: string,
                                       roles: seq<string>)

  datatype TenantClaim = TenantClaim(name: string, displayName: string, cluster: string, endpoint: string,
                                     roles: seq<string>, projects: seq<ProjectClaim>)

  type Tenants = map<ObjectKey, Tenant>
  type Projects = map<ObjectKey, Project>
  type Memberships = map<ObjectKey, Membership>
  type Index = map<string, ObjectKey>

  function ByProjectName(p: ProjectClaim): Key { (p.name, "") }

  function ByNameAndCluster(t: TenantClaim): Key { (t.name, t.cluster) }

  /** An identity and the way to address a cluster. */
  datatype Caller = Caller(user: string, groups: seq<string>, endpointFor: string -> string)

  predicate Matches(c: Caller, s: Subject) {
    (s.kind == "User" && s.name == c.user) || (s.kind == "Group" && s.name in c.groups)
  }

  /** The grant `k` gives the caller a role in workspace `ws`, on project `p` or tenant-wide when `p` is empty. */
  ghost predicate Gives(ms: Memberships, c: Caller, k: ObjectKey, ws: string, p: string, role: string) {
    k in ms && k.cluster == ws && Matches(c, ms[k].subject) && ms[k].project == p && ms[k].role == role
  }

  ghost predicate HasRole(ms: Memberships, c: Caller, ws: string, p: string, role: string) {
    exists k :: Gives(ms, c, k, ws, p, role)
  }

  /** Some grant in the workspace matches the caller. */
  ghost predicate Belongs(ms: Memberships, c: Caller, ws: string) {
    exists p, role :: HasRole(ms, c, ws, p, role)
  }

  function EndpointOf(c: Caller, cluster: string): string {
    if cluster == "" then "" else c.endpointFor(cluster)
  }

  /** Tenant-wide roles and the project's own, sorted. */
  ghost predicate IsProjectClaim(ms: Memberships, ps: Projects, c: Caller, ws: string, claim: ProjectClaim) {
    var k := ObjectKey(ws, claim.name);
    && k in ps && claim.roles != []
    && claim.displayName == ps[k].displayName && claim.cluster == ps[k].workspaceCluster
    && claim.endpoint == (if ps[k].workspaceCluster == "" then "" else c.endpointFor(ps[k].workspaceCluster))
    && StrictlySorted(claim.roles, ByString)
    && forall r :: r in claim.roles <==> HasRole(ms, c, ws, "", r) || HasRole(ms, c, ws, claim.name, r)
  }

  ghost predicate HasProjectRole(ms: Memberships, c: Caller, ws: string, p: string) {
    exists r :: HasRole(ms, c, ws, "", r) || HasRole(ms, c, ws, p, r)
  }

  ghost predicate Claims(projects: seq<ProjectClaim>, p: string) {
    exists claim <- projects :: claim.name == p
  }

  ghost predicate IsTenantClaim(d: State, c: Caller, claim: TenantClaim) {
    var ws := claim.cluster;
    && ws in d.byWorkspace && d.byWorkspace[ws] in d.tenants && Belongs(d.memberships, c, ws)
    && claim.name == d.byWorkspace[ws].name && claim.displayName == d.tenants[d.byWorkspace[ws]].displayName
    && claim.endpoint == (if ws == "" then "" else c.endpointFor(ws))
    && StrictlySorted(claim.roles, ByString)
    && (forall r :: r in claim.roles <==> HasRole(d.memberships, c, ws, "", r))
    && StrictlySorted(claim.projects, ByProjectName)
    && (forall i, j | 0 <= i < j < |claim.projects| :: Less(claim.projects[i].name, claim.projects[j].name))
    && (forall pc <- claim.projects :: IsProjectClaim(d.memberships, d.projects, c, ws, pc))
    && (forall p :: Claims(claim.projects, p) <==>
          ObjectKey(ws, p) in d.projects && HasProjectRole(d.memberships, c, ws, p))
  }

  ghost predicate Lists(claims: seq<TenantClaim>, ws: string) {
    exists claim <- claims :: claim.cluster == ws
  }

  /** The answer, declaratively: one claim for each recorded tenant workspace the caller belongs to, in order. */
  ghost predicate IsReview(d: State, c: Caller, claims: seq<TenantClaim>) {
    && StrictlySorted(claims, ByNameAndCluster)
    && (forall i, j | 0 <= i < j < |claims| ::
          Less(claims[i].name, claims[j].name)
          || (claims[i].name == claims[j].name && Less(claims[i].cluster, claims[j].cluster)))
    && (forall claim <- claims :: IsTenantClaim(d, c, claim))
    && (forall ws :: Lists(claims, ws) <==> ws in d.byWorkspace && Belongs(d.memberships, c, ws))
  }

  datatype State = State(tenants: Tenants, projects: Projects, memberships: Memberships, byWorkspace: Index)

  /** Every indexed workspace leads to the tenant that records it. */
  ghost predicate IndexSound(ts: Tenants, ix: Index) {
    forall ws <- ix :: ws != "" && ix[ws] in ts && ts[ix[ws]].workspaceCluster == ws
  }

  /** Every recorded workspace is indexed. */
  ghost predicate IndexComplete(ts: Tenants, ix: Index) {
    forall k <- ts :: ts[k].workspaceCluster != "" ==>
      ts[k].workspaceCluster in ix && ix[ts[k].workspaceCluster] == k
  }

  ghost predicate NoSharedWorkspace(ts: Tenants) {
    forall j, k | j in ts && k in ts && j != k ::
      ts[j].workspaceCluster != "" ==> ts[j].workspaceCluster != ts[k].workspaceCluster
  }

  /** Role lists, project claims and reviews are determined: no iteration order can show. */
  lemma ProjectClaimDetermined(ms: Memberships, ps: Projects, c: Caller, ws: string, a: ProjectClaim, b: ProjectClaim)
    requires IsProjectClaim(ms, ps, c, ws, a) && IsProjectClaim(ms, ps, c, ws, b) && a.name == b.name
    ensures a == b
  {
    StrictlySortedUnique(a.roles, b.roles, ByString);
  }

  lemma TenantClaimDetermined(d: State, c: Caller, a: TenantClaim, b: TenantClaim)
    requires IsTenantClaim(d, c, a) && IsTenantClaim(d, c, b) && a.cluster == b.cluster
    ensures a == b
  {
    StrictlySortedUnique(a.roles, b.roles, ByString);
    forall pc
      ensures pc in a.projects <==> pc in b.projects
    {
      SameProject(d, c, a, b, pc);
      SameProject(d, c, b, a, pc);
    }
    StrictlySortedUnique(a.projects, b.projects, ByProjectName);
  }

  lemma SameProject(d: State, c: Caller, a: TenantClaim, b: TenantClaim, pc: ProjectClaim)
    requires IsTenantClaim(d, c, a) && IsTenantClaim(d, c, b) && a.cluster == b.cluster
    ensures pc in a.projects ==> pc in b.projects
  {
    if pc in a.projects {
      assert Claims(a.projects, pc.name);
      assert Claims(b.projects, pc.name);
      var other :| other in b.projects && other.name == pc.name;
      ProjectClaimDetermined(d.memberships, d.projects, c, a.cluster, pc, other);
    }
  }

  /** There is one right answer: any two reviews of the same state are the same list. */
  lemma ReviewDetermined(d: State, c: Caller, a: seq<TenantClaim>, b: seq<TenantClaim>)
    requires IsReview(d, c, a) && IsReview(d, c, b)
    ensures a == b
  {
    forall claim
      ensures claim in a <==> claim in b
    {
      SameClaim(d, c, a, b, claim);
      SameClaim(d, c, b, a, claim);
    }
    StrictlySortedUnique(a, b, ByNameAndCluster);
  }

  lemma SameClaim(d: State, c: Caller, a: seq<TenantClaim>, b: seq<TenantClaim>, claim: TenantClaim)
    requires IsReview(d, c, a) && IsReview(d, c, b)
    ensures claim in a ==> claim in b
  {
    if claim in a {
      assert Lists(a, claim.cluster);
      assert Lists(b, claim.cluster);
      var other :| other in b && other.cluster == claim.cluster;
      TenantClaimDetermined(d, c, claim, other);
    }
  }

  function RolesAt(m: map<string, set<string>>, k: string): set<string> {
    if k in m then m[k] else {}
  }

  datatype NamedMembership = NamedMembership(name: string, membership: Membership)

  function ByMembershipName(n: NamedMembership): Key { (n.name, "") }

  type Scoped = map<string, map<string, set<string>>>

  function ScopedAt(m: Scoped, ws: string): map<string, set<string>> {
    if ws in m then m[ws] else map[]
  }

  ghost predicate WideCollected(ms: Memberships, c: Caller, wide: map<string, set<string>>) {
    forall ws, r :: r in RolesAt(wide, ws) <==> HasRole(ms, c, ws, "", r)
  }

  ghost predicate ScopedCollected(ms: Memberships, c: Caller, scoped: Scoped) {
    forall ws, p, r :: r in RolesAt(ScopedAt(scoped, ws), p) <==> p != "" && HasRole(ms, c, ws, p, r)
  }

  /** What the first loop has collected from some of the memberships. */
  ghost predicate Collected(ms: Memberships, c: Caller, wide: map<string, set<string>>, scoped: Scoped) {
    && WideCollected(ms, c, wide)
    && ScopedCollected(ms, c, scoped)
    && (forall ws <- wide :: wide[ws] != {})
    && NoEmptyScope(scoped)
  }

  lemma HasRoleGrows(ms: Memberships, c: Caller, k: ObjectKey, m: Membership, ws: string, p: string, r: string)
    requires k !in ms
    ensures HasRole(ms[k := m], c, ws, p, r) <==>
      HasRole(ms, c, ws, p, r) || (k.cluster == ws && Matches(c, m.subject) && m.project == p && m.role == r)
  {
    if HasRole(ms, c, ws, p, r) {
      var j :| Gives(ms, c, j, ws, p, r);
      assert Gives(ms[k := m], c, j, ws, p, r);
    }
    if k.cluster == ws && Matches(c, m.subject) && m.project == p && m.role == r {
      assert Gives(ms[k := m], c, k, ws, p, r);
    }
    if HasRole(ms[k := m], c, ws, p, r) {
      var j :| Gives(ms[k := m], c, j, ws, p, r);
      assert j != k ==> Gives(ms, c, j, ws, p, r);
    }
  }

  function AddWide(wide: map<string, set<string>>, ws: string, role: string): (r: map<string, set<string>>)
    ensures forall w, x :: x in RolesAt(r, w) <==> x in RolesAt(wide, w) || (w == ws && x == role)
    ensures (forall w <- wide :: wide[w] != {}) ==> forall w <- r :: r[w] != {}
  {
    wide[ws := RolesAt(wide, ws) + {role}]
  }

  ghost predicate NoEmptyScope(scoped: Scoped) {
    forall ws <- scoped :: exists p :: RolesAt(scoped[ws], p) != {}
  }

  function AddScoped(scoped: Scoped, ws: string, p: string, role: string): (r: Scoped)
    ensures forall w, q, x :: x in RolesAt(ScopedAt(r, w), q) <==>
      x in RolesAt(ScopedAt(scoped, w), q) || (w == ws && q == p && x == role)
    ensures NoEmptyScope(scoped) ==> NoEmptyScope(r)
  {
    var r := scoped[ws := AddWide(ScopedAt(scoped, ws), p, role)];
    assert role in RolesAt(r[ws], p);
    assert RolesAt(r[ws], p) != {};
    r
  }

  /** One grant more. */
  method AddGrant(ghost done: Memberships, c: Caller, k: ObjectKey, m: Membership,
                  wide: map<string, set<string>>, scoped: Scoped)
    returns (wide': map<string, set<string>>, scoped': Scoped)
    requires k !in done && Collected(done, c, wide, scoped)
    ensures Collected(done[k := m], c, wide', scoped')
  {
    wide', scoped' := wide, scoped;
    if Matches(c, m.subject) {
      if m.project == "" {
        wide' := AddWide(wide, k.cluster, m.role);
      } else {
        scoped' := AddScoped(scoped, k.cluster, m.project, m.role);
      }
    }
    WideGrows(done, c, k, m, wide, wide');
    ScopedGrows(done, c, k, m, scoped, scoped');
  }

  lemma WideGrows(ms: Memberships, c: Caller, k: ObjectKey, m: Membership,
                  wide: map<string, set<string>>, wide': map<string, set<string>>)
    requires k !in ms && WideCollected(ms, c, wide)
    requires forall ws, r :: r in RolesAt(wide', ws) <==>
      r in RolesAt(wide, ws) || (k.cluster == ws && Matches(c, m.subject) && m.project == "" && m.role == r)
    ensures WideCollected(ms[k := m], c, wide')
  {
    forall ws, r
      ensures r in RolesAt(wide', ws) <==> HasRole(ms[k := m], c, ws, "", r)
    {
      HasRoleGrows(ms, c, k, m, ws, "", r);
    }
  }

  lemma ScopedGrows(ms: Memberships, c: Caller, k: ObjectKey, m: Membership, scoped: Scoped, scoped': Scoped)
    requires k !in ms && ScopedCollected(ms, c, scoped)
    requires forall ws, p, r :: r in RolesAt(ScopedAt(scoped', ws), p) <==>
      r in RolesAt(ScopedAt(scoped, ws), p)
      || (k.cluster == ws && Matches(c, m.subject) && m.project != "" && m.project == p && m.role == r)
    ensures ScopedCollected(ms[k := m], c, scoped')
  {
    forall ws, p, r
      ensures r in RolesAt(ScopedAt(scoped', ws), p) <==> p != "" && HasRole(ms[k := m], c, ws, p, r)
    {
      HasRoleGrows(ms, c, k, m, ws, p, r);
    }
  }

  /** The workspaces collected are those the caller belongs to. */
  lemma CollectedBelongs(ms: Memberships, c: Caller, wide: map<string, set<string>>, scoped: Scoped, ws: string)
    requires Collected(ms, c, wide, scoped)
    ensures Belongs(ms, c, ws) <==> ws in wide || ws in scoped
  {
    if ws in wide {
      var r :| r in wide[ws];
      assert r in RolesAt(wide, ws);
    }
    if ws in scoped {
      var p :| RolesAt(scoped[ws], p) != {};
      var r :| r in RolesAt(scoped[ws], p);
      assert r in RolesAt(ScopedAt(scoped, ws), p);
    }
    if Belongs(ms, c, ws) {
      var p, r :| HasRole(ms, c, ws, p, r);
      assert r in RolesAt(wide, ws) || r in RolesAt(ScopedAt(scoped, ws), p);
    }
  }

  /** The claims listed so far, for the workspaces already looked at. */
  ghost predicate Partial(d: State, c: Caller, list: seq<TenantClaim>, done: set<string>) {
    && DistinctKeys(list, ByNameAndCluster)
    && (forall claim <- list :: IsTenantClaim(d, c, claim) && claim.cluster in done)
    && (forall ws <- done :: ws in d.byWorkspace ==> Lists(list, ws))
  }

  lemma PartialAppend(d: State, c: Caller, list: seq<TenantClaim>, done: set<string>, claim: TenantClaim)
    requires Partial(d, c, list, done) && IsTenantClaim(d, c, claim) && claim.cluster !in done
    ensures Partial(d, c, list + [claim], done + {claim.cluster})
  {
    var longer := list + [claim];
    forall i, j | 0 <= i < j < |longer|
      ensures ByNameAndCluster(longer[i]) != ByNameAndCluster(longer[j])
    {
      assert longer[i] == list[i] && list[i] in list;
    }
    assert longer[|list|] == claim;
    assert forall ws :: Lists(list, ws) ==> Lists(longer, ws);
  }

  /** The index after tenant `k` is recorded as `t`. */
  function Reindexed(ts: Tenants, ix: Index, k: ObjectKey, t: Tenant): Index {
    var kept := if k in ts && ts[k].workspaceCluster != t.workspaceCluster then ix - {ts[k].workspaceCluster} else ix;
    if t.workspaceCluster != "" then kept[t.workspaceCluster := k] else kept
  }

  /** What the informers tell the directory. */
  datatype Event =
    | TenantUpserted(key: ObjectKey, tenant: Tenant)
    | TenantRemoved(key: ObjectKey)
    | ProjectUpserted(key: ObjectKey, project: Project)
    | ProjectRemoved(key: ObjectKey)
    | MembershipUpserted(key: ObjectKey, membership: Membership)
    | MembershipRemoved(key: ObjectKey)
    | ClusterForgotten(cluster: string)

  function Outside<T>(m: map<ObjectKey, T>, cluster: string): map<ObjectKey, T> {
    map k | k in m && k.cluster != cluster :: m[k]
  }

  /** The workspaces some tenants are recorded with. */
  function WorkspacesOf(ts: Tenants, keys: set<ObjectKey>): set<string> {
    set k | k in keys && k in ts :: ts[k].workspaceCluster
  }

  function InCluster(ts: Tenants, cluster: string): set<ObjectKey> {
    set k | k in ts && k.cluster == cluster
  }

  /** The directory after an event; a tenant that goes takes the index entry of its workspace along. */
  function Applied(d: State, e: Event): State {
    match e
    case TenantUpserted(k, t) =>
      d.(tenants := d.tenants[k := t], byWorkspace := Reindexed(d.tenants, d.byWorkspace, k, t))
    case TenantRemoved(k) =>
      d.(tenants := d.tenants - {k}, byWorkspace := d.byWorkspace - WorkspacesOf(d.tenants, {k}))
    case ProjectUpserted(k, p) => d.(projects := d.projects[k := p])
    case ProjectRemoved(k) => d.(projects := d.projects - {k})
    case MembershipUpserted(k, m) => d.(memberships := d.memberships[k := m])
    case MembershipRemoved(k) => d.(memberships := d.memberships - {k})
    case ClusterForgotten(c) =>
      State(Outside(d.tenants, c), Outside(d.projects, c), Outside(d.memberships, c),
            d.byWorkspace - WorkspacesOf(d.tenants, InCluster(d.tenants, c)))
  }

  function After(script: seq<Event>): State {
    if script == [] then State(map[], map[], map[], map[])
    else Applied(After(script[..|script| - 1]), script[|script| - 1])
  }

  predicate TouchesTenant(e: Event, k: ObjectKey) {
    (e.TenantUpserted? && e.key == k) || e == TenantRemoved(k) || e == ClusterForgotten(k.cluster)
  }

  predicate TouchesProject(e: Event, k: ObjectKey) {
    (e.ProjectUpserted? && e.key == k) || e == ProjectRemoved(k) || e == ClusterForgotten(k.cluster)
  }

  predicate TouchesMembership(e: Event, k: ObjectKey) {
    (e.MembershipUpserted? && e.key == k) || e == MembershipRemoved(k) || e == ClusterForgotten(k.cluster)
  }

  /** The last event about the tenant recorded it as `t`; so for the other two kinds. */
  ghost predicate RecordedTenant(script: seq<Event>, k: ObjectKey, t: Tenant) {
    exists i :: 0 <= i < |script| && script[i] == TenantUpserted(k, t)
      && forall j | i < j < |script| :: !TouchesTenant(script[j], k)
  }

  ghost predicate RecordedProject(script: seq<Event>, k: ObjectKey, p: Project) {
    exists i :: 0 <= i < |script| && script[i] == ProjectUpserted(k, p)
      && forall j | i < j < |script| :: !TouchesProject(script[j], k)
  }

  ghost predicate RecordedMembership(script: seq<Event>, k: ObjectKey, m: Membership) {
    exists i :: 0 <= i < |script| && script[i] == MembershipUpserted(k, m)
      && forall j | i < j < |script| :: !TouchesMembership(script[j], k)
  }

  lemma RecordedStep(script: seq<Event>, e: Event, k: ObjectKey)
    ensures forall t :: RecordedTenant(script + [e], k, t) <==>
      e == TenantUpserted(k, t) || (!TouchesTenant(e, k) && RecordedTenant(script, k, t))
    ensures forall p :: RecordedProject(script + [e], k, p) <==>
      e == ProjectUpserted(k, p) || (!TouchesProject(e, k) && RecordedProject(script, k, p))
    ensures forall m :: RecordedMembership(script + [e], k, m) <==>
      e == MembershipUpserted(k, m) || (!TouchesMembership(e, k) && RecordedMembership(script, k, m))
  {
    var longer := script + [e];
    assert longer[|script|] == e && forall i | 0 <= i < |script| :: longer[i] == script[i];
    forall t ensures RecordedTenant(longer, k, t) <==>
      e == TenantUpserted(k, t) || (!TouchesTenant(e, k) && RecordedTenant(script, k, t)) {}
    forall p ensures RecordedProject(longer, k, p) <==>
      e == ProjectUpserted(k, p) || (!TouchesProject(e, k) && RecordedProject(script, k, p)) {}
    forall m ensures RecordedMembership(longer, k, m) <==>
      e == MembershipUpserted(k, m) || (!TouchesMembership(e, k) && RecordedMembership(script, k, m)) {}
  }

  /** What the directory holds of an object is what the last event about it left. */
  lemma {:induction false} AfterIsLast(script: seq<Event>, k: ObjectKey)
    ensures var d := After(script);
      && (forall t :: k in d.tenants && d.tenants[k] == t <==> RecordedTenant(script, k, t))
      && (forall p :: k in d.projects && d.projects[k] == p <==> RecordedProject(script, k, p))
      && (forall m :: k in d.memberships && d.memberships[k] == m <==> RecordedMembership(script, k, m))
  {
    if script != [] {
      var before, e := script[..|script| - 1], script[|script| - 1];
      AfterIsLast(before, k);
      RecordedStep(before, e, k);
      assert script == before + [e];
    }
  }

  lemma ReindexedSound(ts: Tenants, ix: Index, k: ObjectKey, t: Tenant)
    requires IndexSound(ts, ix)
    ensures IndexSound(ts[k := t], Reindexed(ts, ix, k, t))
  {
    var ix' := Reindexed(ts, ix, k, t);
    forall ws | ws in ix'
      ensures ws != "" && ix'[ws] in ts[k := t] && ts[k := t][ix'[ws]].workspaceCluster == ws
    {
      assert ws != t.workspaceCluster || ws == "" ==> ws in ix && ix'[ws] == ix[ws];
    }
  }

  /** Recording a tenant keeps a complete index complete exactly when no two tenants share a workspace then. */
  lemma ReindexedComplete(ts: Tenants, ix: Index, k: ObjectKey, t: Tenant)
    requires IndexComplete(ts, ix)
    ensures IndexComplete(ts[k := t], Reindexed(ts, ix, k, t)) <==> NoSharedWorkspace(ts[k := t])
  {
    var ts', ix' := ts[k := t], Reindexed(ts, ix, k, t);
    if NoSharedWorkspace(ts') {
      forall j | j in ts && j != k && ts[j].workspaceCluster != ""
        ensures ts[j].workspaceCluster in ix' && ix'[ts[j].workspaceCluster] == j
      {
        assert j in ts' && k in ts' && ts'[j] == ts[j];
      }
    }
  }

  /** Removing tenants, and with them their workspaces' entries, keeps the index sound, and complete if it was. */
  lemma RemovalKeepsIndex(ts: Tenants, ix: Index, ts': Tenants, gone: set<ObjectKey>)
    requires IndexSound(ts, ix)
    requires forall k :: k in ts' <==> k in ts && k !in gone
    requires forall k <- ts' :: ts'[k] == ts[k]
    ensures IndexSound(ts', ix - WorkspacesOf(ts, gone))
    ensures IndexComplete(ts, ix) ==> IndexComplete(ts', ix - WorkspacesOf(ts, gone))
  {
    if IndexComplete(ts, ix) {
      forall k | k in ts' && ts[k].workspaceCluster != ""
        ensures ts[k].workspaceCluster !in WorkspacesOf(ts, gone)
      {}
    }
  }

  /** Some tenants gone, one at a time. */
  function Without(d: State, gone: set<ObjectKey>): State {
    d.(tenants := d.tenants - gone, byWorkspace := d.byWorkspace - WorkspacesOf(d.tenants, gone))
  }

  lemma WithoutOneMore(d: State, gone: set<ObjectKey>, k: ObjectKey)
    requires k in d.tenants && k !in gone
    ensures Applied(Without(d, gone), TenantRemoved(k)) == Without(d, gone + {k})
  {
    var some := Without(d, gone);
    assert WorkspacesOf(some.tenants, {k}) == {d.tenants[k].workspaceCluster};
    assert WorkspacesOf(d.tenants, gone + {k}) == WorkspacesOf(d.tenants, gone) + {d.tenants[k].workspaceCluster};
    assert some.tenants - {k} == d.tenants - (gone + {k});
  }

  /** Entries are true after any event, and complete after it exactly when no workspace is shared then. */
  lemma AppliedIndex(d: State, e: Event)
    requires IndexSound(d.tenants, d.byWorkspace)
    ensures IndexSound(Applied(d, e).tenants, Applied(d, e).byWorkspace)
    ensures IndexComplete(d.tenants, d.byWorkspace) ==>
      (IndexComplete(Applied(d, e).tenants, Applied(d, e).byWorkspace) <==> NoSharedWorkspace(Applied(d, e).tenants))
  {
    match e {
      case TenantUpserted(k, t) =>
        ReindexedSound(d.tenants, d.byWorkspace, k, t);
        if IndexComplete(d.tenants, d.byWorkspace) {
          ReindexedComplete(d.tenants, d.byWorkspace, k, t);
        }
      case TenantRemoved(k) =>
        RemovalKeepsIndex(d.tenants, d.byWorkspace, d.tenants - {k}, {k});
      case ClusterForgotten(c) =>
        RemovalKeepsIndex(d.tenants, d.byWorkspace, Outside(d.tenants, c), InCluster(d.tenants, c));
      case _ =>
    }
    CompleteMeansUnshared(Applied(d, e).tenants, Applied(d, e).byWorkspace);
  }

  lemma CompleteMeansUnshared(ts: Tenants, ix: Index)
    ensures IndexComplete(ts, ix) ==> NoSharedWorkspace(ts)
  {}

  ghost predicate NeverShared(script: seq<Event>) {
    forall n | 0 <= n <= |script| :: NoSharedWorkspace(After(script[..n]).tenants)
  }

  ghost predicate AlwaysComplete(script: seq<Event>) {
    forall n | 0 <= n <= |script| :: IndexComplete(After(script[..n]).tenants, After(script[..n]).byWorkspace)
  }

  /** The reverse index is complete all along a history exactly when no two tenants ever share a workspace. */
  lemma {:induction false} CompleteExactly(script: seq<Event>)
    ensures IndexSound(After(script).tenants, After(script).byWorkspace)
    ensures AlwaysComplete(script) <==> NeverShared(script)
  {
    if script != [] {
      var before := script[..|script| - 1];
      CompleteExactly(before);
      assert forall n | 0 <= n <= |before| :: before[..n] == script[..n];
      assert script[..|script|] == script;
      AppliedIndex(After(before), script[|script| - 1]);
      PrefixFacts(script);
    } else {
      assert script[..0] == [];
    }
  }

  lemma PrefixFacts(script: seq<Event>)
    requires script != []
    ensures var before := script[..|script| - 1];
      && (NeverShared(script) <==> NeverShared(before) && NoSharedWorkspace(After(script).tenants))
      && (AlwaysComplete(script) <==>
            AlwaysComplete(before) && IndexComplete(After(script).tenants, After(script).byWorkspace))
      && (AlwaysComplete(before) ==> IndexComplete(After(before).tenants, After(before).byWorkspace))
  {
    var before := script[..|script| - 1];
    assert before[..|before|] == before && script[..|script|] == script;
    assert forall n | 0 <= n < |script| :: before[..n] == script[..n];
  }

  /** The claim on a recorded tenant. */
  ghost predicate ClaimedFor(claims: seq<TenantClaim>, k: ObjectKey, ws: string) {
    exists claim <- claims :: claim.cluster == ws && claim.name == k.name
  }

  /** With a complete index a recorded tenant is claimed exactly when a matching grant lives in its workspace. */
  lemma RecordedIsClaimed(d: State, c: Caller, claims: seq<TenantClaim>, k: ObjectKey)
    requires IsReview(d, c, claims) && IndexComplete(d.tenants, d.byWorkspace)
    requires k in d.tenants && d.tenants[k].workspaceCluster != ""
    ensures var ws := d.tenants[k].workspaceCluster;
      && (ClaimedFor(claims, k, ws) <==> Belongs(d.memberships, c, ws))
      && (Lists(claims, ws) ==> ClaimedFor(claims, k, ws))
  {
    var ws := d.tenants[k].workspaceCluster;
    assert Lists(claims, ws) <==> Belongs(d.memberships, c, ws);
    if claim :| claim in claims && claim.cluster == ws {
      assert IsTenantClaim(d, c, claim);
      assert ClaimedFor(claims, k, ws);
    }
  }

  class Directory {
    var tenants: Tenants
    var projects: Projects
    var memberships: Memberships
    var byWorkspace: Index

    ghost predicate Valid()
      reads this
    {
      IndexSound(tenants, byWorkspace)
    }

    ghost function View(): State
      reads this
    {
      State(tenants, projects, memberships, byWorkspace)
    }

    constructor ()
      ensures Valid() && View() == State(map[], map[], map[], map[]) && IndexComplete(tenants, byWorkspace)
    {
      tenants, projects, memberships, byWorkspace := map[], map[], map[], map[];
    }

    method UpsertTenant(k: ObjectKey, t: Tenant)
      requires Valid()
      modifies this
      ensures Valid() && View() == Applied(old(View()), TenantUpserted(k, t))
    {
      if k in tenants && tenants[k].workspaceCluster != "" && tenants[k].workspaceCluster != t.workspaceCluster {
        byWorkspace := byWorkspace - {tenants[k].workspaceCluster};
      }
      tenants := tenants[k := t];
      if t.workspaceCluster != "" {
        byWorkspace := byWorkspace[t.workspaceCluster := k];
      }
      assert "" !in old(byWorkspace);
      assert byWorkspace == Reindexed(old(tenants), old(byWorkspace), k, t);
      ReindexedSound(old(tenants), old(byWorkspace), k, t);
    }

    method RemoveTenant(k: ObjectKey)
      requires Valid()
      modifies this`tenants, this`byWorkspace
      ensures Valid() && View() == Applied(old(View()), TenantRemoved(k))
    {
      ghost var before := View();
      if k in tenants && tenants[k].workspaceCluster != "" {
        byWorkspace := byWorkspace - {tenants[k].workspaceCluster};
      }
      tenants := tenants - {k};
      assert "" !in before.byWorkspace;
      assert k in before.tenants ==> WorkspacesOf(before.tenants, {k}) == {before.tenants[k].workspaceCluster};
      assert k !in before.tenants ==> WorkspacesOf(before.tenants, {k}) == {};
      assert byWorkspace == before.byWorkspace - WorkspacesOf(before.tenants, {k});
      AppliedIndex(before, TenantRemoved(k));
    }

    method UpsertProject(k: ObjectKey, p: Project)
      modifies this`projects
      ensures View() == Applied(old(View()), ProjectUpserted(k, p))
    {
      projects := projects[k := p];
    }

    method RemoveProject(k: ObjectKey)
      modifies this`projects
      ensures View() == Applied(old(View()), ProjectRemoved(k))
    {
      projects := projects - {k};
    }

    method UpsertMembership(k: ObjectKey, m: Membership)
      modifies this`memberships
      ensures View() == Applied(old(View()), MembershipUpserted(k, m))
    {
      memberships := memberships[k := m];
    }

    method RemoveMembership(k: ObjectKey)
      modifies this`memberships
      ensures View() == Applied(old(View()), MembershipRemoved(k))
    {
      memberships := memberships - {k};
    }

    method ForgetCluster(cluster: string)
      requires Valid()
      modifies this
      ensures Valid() && View() == Applied(old(View()), ClusterForgotten(cluster))
    {
      ghost var before := View();
      var rest := tenants.Keys;
      assert InCluster(before.tenants, cluster) - rest == {};
      assert Without(before, {}) == before;
      while rest != {}
        invariant rest <= before.tenants.Keys && Valid()
        invariant View() == Without(before, InCluster(before.tenants, cluster) - rest)
      {
        var k :| k in rest;
        ghost var gone := InCluster(before.tenants, cluster) - rest;
        rest := rest - {k};
        if k.cluster == cluster {
          WithoutOneMore(before, gone, k);
          RemoveTenant(k);
          assert InCluster(before.tenants, cluster) - rest == gone + {k};
        } else {
          assert InCluster(before.tenants, cluster) - rest == gone;
        }
      }
      assert InCluster(before.tenants, cluster) - {} == InCluster(before.tenants, cluster);
      assert tenants == Outside(before.tenants, cluster);
      projects := map k | k in projects && k.cluster != cluster :: projects[k];
      memberships := map k | k in memberships && k.cluster != cluster :: memberships[k];
    }

    /** The grants of one tenant workspace: each once, by name; none for the empty cluster. */
    method MembershipsIn(cluster: string) returns (out: seq<NamedMembership>)
      ensures forall i, j | 0 <= i < j < |out| :: Less(out[i].name, out[j].name)
      ensures forall n: NamedMembership :: n in out <==>
        cluster != "" && ObjectKey(cluster, n.name) in memberships
        && memberships[ObjectKey(cluster, n.name)] == n.membership
    {
      if cluster == "" {
        return [];
      }
      var list: seq<NamedMembership> := [];
      var rest := memberships.Keys;
      while rest != {}
        invariant rest <= memberships.Keys
        invariant DistinctKeys(list, ByMembershipName)
        invariant forall n: NamedMembership :: n in list <==>
          ObjectKey(cluster, n.name) in memberships && ObjectKey(cluster, n.name) !in rest
          && memberships[ObjectKey(cluster, n.name)] == n.membership
      {
        var k :| k in rest;
        rest := rest - {k};
        if k.cluster == cluster {
          assert k == ObjectKey(cluster, k.name);
          assert forall i | 0 <= i < |list| :: list[i] in list;
          list := list + [NamedMembership(k.name, memberships[k])];
        }
      }
      out := SortByKey(list, ByMembershipName);
      SortedDistinct(list, out, ByMembershipName);
      LessTotal("", "");
    }

    /** The first loop of ReviewFor. */
    method Collect(c: Caller) returns (wide: map<string, set<string>>, scoped: Scoped)
      ensures Collected(memberships, c, wide, scoped)
    {
      wide, scoped := map[], map[];
      var rest := memberships.Keys;
      assert memberships - rest == map[];
      while rest != {}
        invariant rest <= memberships.Keys
        invariant Collected(memberships - rest, c, wide, scoped)
      {
        var k :| k in rest;
        ghost var done := memberships - rest;
        wide, scoped := AddGrant(done, c, k, memberships[k], wide, scoped);
        rest := rest - {k};
        assert memberships - rest == done[k := memberships[k]];
      }
      assert memberships - {} == memberships;
    }

    method ProjectClaims(c: Caller, ws: string, wide: set<string>, scoped: map<string, set<string>>)
      returns (out: seq<ProjectClaim>)
      requires forall r :: r in wide <==> HasRole(memberships, c, ws, "", r)
      requires forall p, r :: r in RolesAt(scoped, p) <==> p != "" && HasRole(memberships, c, ws, p, r)
      ensures StrictlySorted(out, ByProjectName)
      ensures forall i, j | 0 <= i < j < |out| :: Less(out[i].name, out[j].name)
      ensures forall pc <- out :: IsProjectClaim(memberships, projects, c, ws, pc)
      ensures forall p :: Claims(out, p) <==> ObjectKey(ws, p) in projects && HasProjectRole(memberships, c, ws, p)
    {
      var list: seq<ProjectClaim> := [];
      var rest := projects.Keys;
      while rest != {}
        invariant rest <= projects.Keys
        invariant DistinctKeys(list, ByProjectName)
        invariant forall pc <- list ::
          IsProjectClaim(memberships, projects, c, ws, pc) && ObjectKey(ws, pc.name) !in rest
        invariant forall p ::
          ObjectKey(ws, p) in projects && ObjectKey(ws, p) !in rest && HasProjectRole(memberships, c, ws, p) ==>
          Claims(list, p)
      {
        var k :| k in rest;
        rest := rest - {k};
        if k.cluster == ws {
          var roles := SortedListOf(wide + RolesAt(scoped, k.name));
          assert forall r :: r in roles <==>
            HasRole(memberships, c, ws, "", r) || HasRole(memberships, c, ws, k.name, r);
          if roles != [] {
            var pc := ProjectClaim(k.name, projects[k].displayName, projects[k].workspaceCluster,
                                   EndpointOf(c, projects[k].workspaceCluster), roles);
            ghost var before := list;
            list := list + [pc];
            assert list[|before|] == pc;
            assert forall p :: Claims(before, p) ==> Claims(list, p);
          } else {
            assert !HasProjectRole(memberships, c, ws, k.name);
          }
        }
      }
      out := SortByKey(list, ByProjectName);
      SortedDistinct(list, out, ByProjectName);
      LessTotal("", "");
      forall p
        ensures Claims(out, p) <==> ObjectKey(ws, p) in projects && HasProjectRole(memberships, c, ws, p)
      {
        if Claims(out, p) {
          var pc :| pc in out && pc.name == p;
          assert pc.roles[0] in pc.roles;
        }
      }
    }

    method ClaimFor(c: Caller, ws: string, wide: map<string, set<string>>, scoped: Scoped) returns (claim: TenantClaim)
      requires Valid() && ws in byWorkspace && Belongs(memberships, c, ws) && Collected(memberships, c, wide, scoped)
      ensures claim.cluster == ws && IsTenantClaim(View(), c, claim)
    {
      var key := byWorkspace[ws];
      var tenant := tenants[key];
      var roles := SortedListOf(RolesAt(wide, ws));
      var ps := ProjectClaims(c, ws, RolesAt(wide, ws), ScopedAt(scoped, ws));
      claim := TenantClaim(key.name, tenant.displayName, tenant.workspaceCluster,
                           EndpointOf(c, tenant.workspaceCluster), roles, ps);
    }

    method ReviewFor(c: Caller) returns (claims: seq<TenantClaim>)
      requires Valid()
      ensures IsReview(View(), c, claims)
    {
      var wide, scoped := Collect(c);
      var seen := wide.Keys + scoped.Keys;
      var list: seq<TenantClaim> := [];
      var rest := seen;
      while rest != {}
        invariant rest <= seen
        invariant Partial(View(), c, list, seen - rest)
      {
        var ws :| ws in rest;
        CollectedBelongs(memberships, c, wide, scoped, ws);
        assert seen - (rest - {ws}) == (seen - rest) + {ws};
        if ws in byWorkspace {
          var claim := ClaimFor(c, ws, wide, scoped);
          PartialAppend(View(), c, list, seen - rest, claim);
          list := list + [claim];
        }
        rest := rest - {ws};
      }
      forall ws | ws in byWorkspace && Belongs(memberships, c, ws)
        ensures Lists(list, ws)
      {
        CollectedBelongs(memberships, c, wide, scoped, ws);
        assert ws in seen - rest;
      }
      claims := SortClaims(c, list);
    }

    method SortClaims(c: Caller, list: seq<TenantClaim>) returns (claims: seq<TenantClaim>)
      requires DistinctKeys(list, ByNameAndCluster)
      requires forall claim <- list :: IsTenantClaim(View(), c, claim)
      requires forall ws :: ws in byWorkspace && Belongs(memberships, c, ws) ==> Lists(list, ws)
      ensures IsReview(View(), c, claims)
    {
      claims := SortByKey(list, ByNameAndCluster);
      SortedDistinct(list, claims, ByNameAndCluster);
      forall ws
        ensures Lists(claims, ws) <==> ws in byWorkspace && Belongs(memberships, c, ws)
      {
        if ws in byWorkspace && Belongs(memberships, c, ws) {
          assert Lists(list, ws);
        }
      }
    }
  }

  /** After any history each index entry names a tenant recorded with that workspace. */
  method Replay(script: seq<Event>) returns (d: Directory)
    ensures d.Valid() && d.View() == After(script)
  {
    d := new Directory();
    for n := 0 to |script|
      invariant fresh(d) && d.Valid() && d.View() == After(script[..n])
    {
      assert script[..n + 1][..n] == script[..n] && script[..n + 1][n] == script[n];
      match script[n]
      case TenantUpserted(k, t) => d.UpsertTenant(k, t);
      case TenantRemoved(k) => d.RemoveTenant(k);
      case ProjectUpserted(k, p) => d.UpsertProject(k, p);
      case ProjectRemoved(k) => d.RemoveProject(k);
      case MembershipUpserted(k, m) => d.UpsertMembership(k, m);
      case MembershipRemoved(k) => d.RemoveMembership(k);
      case ClusterForgotten(c) => d.ForgetCluster(c);
    }
    assert script[..|script|] == script;
  }

  /** The last event about some grant in the workspace recorded it, for the user or one of the groups. */
  ghost predicate GrantedIn(script: seq<Event>, c: Caller, ws: string) {
    exists name, m :: RecordedMembership(script, ObjectKey(ws, name), m)
      && ((m.subject.kind == "User" && m.subject.name == c.user)
          || (m.subject.kind == "Group" && m.subject.name in c.groups))
  }

  lemma BelongsIsGranted(script: seq<Event>, c: Caller, ws: string)
    ensures Belongs(After(script).memberships, c, ws) <==> GrantedIn(script, c, ws)
  {
    var ms := After(script).memberships;
    if p, role :| HasRole(ms, c, ws, p, role) {
      var k :| Gives(ms, c, k, ws, p, role);
      AfterIsLast(script, k);
      assert k == ObjectKey(ws, k.name) && RecordedMembership(script, ObjectKey(ws, k.name), ms[k]);
    }
    if GrantedIn(script, c, ws) {
      var name, m :|
        RecordedMembership(script, ObjectKey(ws, name), m)
        && ((m.subject.kind == "User" && m.subject.name == c.user)
            || (m.subject.kind == "Group" && m.subject.name in c.groups));
      AfterIsLast(script, ObjectKey(ws, name));
      assert Gives(ms, c, ObjectKey(ws, name), ws, m.project, m.role);
      assert HasRole(ms, c, ws, m.project, m.role);
    }
  }

  /**
   * After any history in which no two tenants ever shared a workspace, the review claims a tenant as its last
   * event recorded it exactly when the last event about some grant in its workspace left one for the caller.
   */
  method ReviewAfter(script: seq<Event>, c: Caller) returns (claims: seq<TenantClaim>)
    ensures IsReview(After(script), c, claims)
    ensures NeverShared(script) ==>
      forall k, t | RecordedTenant(script, k, t) && t.workspaceCluster != "" ::
        ClaimedFor(claims, k, t.workspaceCluster) <==> GrantedIn(script, c, t.workspaceCluster)
  {
    var d := Replay(script);
    claims := d.ReviewFor(c);
    CompleteExactly(script);
    assert script[..|script|] == script;
    if NeverShared(script) {
      forall k, t | RecordedTenant(script, k, t) && t.workspaceCluster != ""
        ensures ClaimedFor(claims, k, t.workspaceCluster) <==> GrantedIn(script, c, t.workspaceCluster)
      {
        AfterIsLast(script, k);
        RecordedIsClaimed(After(script), c, claims, k);
        BelongsIsGranted(script, c, t.workspaceCluster);
      }
    }
  }
}
