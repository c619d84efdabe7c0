/** Whole lives of a project and a membership in one tenant's store, with nothing going wrong. */
module Lifecycle {
  import opened Options
  import opened Tenancy
  import opened Revocation
  import opened RevocationRuns

  /** A project that was never seen to. */
  ghost predicate Untouched(s: State, p: string) {
    && p in s.projects && s.projects[p] == Project(ProjectStatus(Unset, None), false, false)
    && forall m :: !Bound(s.workspaces, p, m)
  }

  /** The first pass creates the workspace; the next finds it ready and applies what covers the project. */
  lemma FirstPass(s: State, p: string, writes: nat, ok: bool, s': State)
    requires Untouched(s, p) && p !in s.workspaces && writes >= 2
    requires Effect(s, ProjectPass(p, ReadyNow, true, writes), ok, s')
    ensures p in s'.projects && s'.projects[p].finalizer && !s'.projects[p].deleting && p in s'.workspaces
    ensures forall m :: !Bound(s'.workspaces, p, m)
  {
    forall m
      ensures !Bound(s'.workspaces, p, m)
    {
      assert !Applies(s, p, ReadyNow, writes);
      BoundAsBefore(s, ProjectPass(p, ReadyNow, true, writes), ok, s', m);
    }
  }

  lemma NextPass(s: State, p: string, writes: nat, ok: bool, s': State)
    requires p in s.projects && s.projects[p].finalizer && !s.projects[p].deleting && p in s.workspaces
    requires AllAcceptable(s.memberships, p) && 2 + 3 * |s.memberships| <= writes
    requires forall m :: !Bound(s.workspaces, p, m)
    requires Effect(s, ProjectPass(p, ReadyNow, true, writes), ok, s')
    ensures ReadyIn(s'.projects, p) && s'.projects[p].status.cluster == Some(Home(p))
    ensures forall m | LiveCovering(s.memberships, m, p) :: BoundAs(s'.workspaces, p, m, s.memberships[m].spec)
    ensures forall m | Bound(s'.workspaces, p, m) :: LiveCovering(s.memberships, m, p)
  {}

  /** A new project comes up in two passes, with every live covering membership bound in it. */
  method ProjectComesUp(tenant: Tenant, p: string, writes: nat)
    requires WellFormed(tenant.View()) && p !in tenant.projects && p !in tenant.workspaces
    requires AllAcceptable(tenant.memberships, p) && 2 + 3 * |tenant.memberships| <= writes
    modifies tenant
    ensures WellFormed(tenant.View()) && tenant.memberships == old(tenant.memberships)
    ensures ReadyIn(tenant.projects, p) && tenant.projects[p].status.cluster == Some(Home(p))
    ensures forall m | LiveCovering(tenant.memberships, m, p) ::
      BoundAs(tenant.workspaces, p, m, tenant.memberships[m].spec)
    ensures forall m | Bound(tenant.workspaces, p, m) :: LiveCovering(tenant.memberships, m, p)
    ensures tenant.projects - {p} == old(tenant.projects) && tenant.workspaces - {p} == old(tenant.workspaces)
  {
    assert old(tenant.projects) - {p} == old(tenant.projects) && old(tenant.workspaces) - {p} == old(tenant.workspaces);
    var _ := tenant.Happen(CreateProject(p));
    assert tenant.projects - {p} == old(tenant.projects);
    ghost var created := tenant.View();
    var first := tenant.Happen(ProjectPass(p, ReadyNow, true, writes));
    FirstPass(created, p, writes, first, tenant.View());
    ghost var there := tenant.View();
    var next := tenant.Happen(ProjectPass(p, ReadyNow, true, writes));
    NextPass(there, p, writes, next, tenant.View());
  }

  /** A new membership gets bound in every ready project it covers by its first pass. */
  method GrantComesUp(tenant: Tenant, m: string, spec: MembershipSpec, p: string, writes: nat)
    requires WellFormed(tenant.View()) && m !in tenant.memberships && Acceptable(spec)
    requires ReadyIn(tenant.projects, p) && (spec.project == "" || spec.project == p)
    requires tenant.projects.Keys <= tenant.workspaces.Keys && 1 + 3 * |tenant.projects| <= writes
    modifies tenant
    ensures WellFormed(tenant.View()) && tenant.projects == old(tenant.projects)
    ensures tenant.workspaces.Keys == old(tenant.workspaces.Keys)
    ensures m in tenant.memberships && tenant.memberships[m] == Membership(spec, true, false)
    ensures forall q | ReadyIn(tenant.projects, q) && (spec.project == "" || spec.project == q) ::
      BoundAs(tenant.workspaces, q, m, spec)
  {
    var _ := tenant.Happen(CreateMembership(m, spec));
    ghost var before := tenant.View();
    SubsetSmaller(Looked(before, m, true), before.projects.Keys);
    assert p in Looked(before, m, true);
    var _ := tenant.Happen(MembershipPass(m, true, writes));
    assert forall q | ReadyIn(tenant.projects, q) && Covers(spec, q) :: q in Looked(before, m, true);
  }

  /** Deleted, it goes in one pass and leaves nothing bound, if its bindings were in ready projects it covers. */
  method GrantGoes(tenant: Tenant, m: string, writes: nat)
    requires WellFormed(tenant.View()) && Settled(tenant.View()) && m in tenant.memberships
    requires tenant.memberships[m].finalizer
    requires tenant.projects.Keys <= tenant.workspaces.Keys && |tenant.projects| < writes
    modifies tenant
    ensures WellFormed(tenant.View()) && Settled(tenant.View()) && m !in tenant.memberships
    ensures forall q :: !Bound(tenant.workspaces, q, m)
    ensures tenant.projects == old(tenant.projects) && tenant.workspaces.Keys == old(tenant.workspaces.Keys)
  {
    var _ := tenant.Happen(DeleteMembership(m));
    ghost var before := tenant.View();
    SubsetSmaller(Looked(before, m, true), before.projects.Keys);
    var ok := tenant.Happen(MembershipPass(m, true, writes));
    RevocationExactly(before, m, true, writes, tenant.View());
  }

  /** A deleted project that names its workspace marks it, waits until the server removed it, and goes. */
  method ProjectGoes(tenant: Tenant, p: string, provisioning: Provisioning, writes: nat)
    requires WellFormed(tenant.View()) && p in tenant.projects && p in tenant.workspaces && writes > 0
    requires WorkspaceNamed(tenant.projects[p].status)
    modifies tenant
    ensures WellFormed(tenant.View()) && p !in tenant.projects && p !in tenant.workspaces
    ensures tenant.memberships == old(tenant.memberships)
  {
    var _ := tenant.Happen(DeleteProject(p));
    var early := tenant.Happen(ProjectPass(p, provisioning, true, writes));
    assert !early && p in tenant.workspaces;
    var _ := tenant.Happen(WorkspaceGone(p));
    var _ := tenant.Happen(ProjectPass(p, provisioning, true, writes));
  }
}
