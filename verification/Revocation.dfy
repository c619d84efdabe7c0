/**
 * Whole reconcile passes over one tenant's store: finalizers, deletions and revocation. No two passes
 * interleave, but any pass may die: only its first `writes` writes reach the store.
 */
module Revocation {
  import opened Options
  import opened Tenancy

  datatype Membership = Membership(spec: MembershipSpec, finalizer: bool, deleting: bool)

  datatype Project = Project(status: ProjectStatus, finalizer: bool, deleting: bool)

  /** A provisioned workspace: the roles in it, and the membership bindings by membership name. */
  datatype Workspace = Workspace(roles: map<string, Rules>, bindings: map<string, Binding>, deleting: bool)

  datatype Provisioning = Failing | Unready | ReadyNow

  /**
   * `listed` says whether a membership pass could read its targets, `stored` whether a project pass's status
   * write was stored or met the conflict that is swallowed.
   */
  datatype Event =
    | CreateMembership(name: string, spec: MembershipSpec)
    | EditMembership(name: string, spec: MembershipSpec)
    | DeleteMembership(name: string)
    | CreateProject(name: string)
    | DeleteProject(name: string)
    | WorkspaceGone(name: string)
    | MembershipPass(name: string, listed: bool, writes: nat)
    | ProjectPass(name: string, provisioning: Provisioning, stored: bool, writes: nat)

  /** status.workspace is set by every status but the error one. */
  predicate WorkspaceNamed(s: ProjectStatus) {
    s.phase == Pending || s.phase == Ready
  }

  type Projects = map<string, Project>
  type Memberships = map<string, Membership>
  type Workspaces = map<string, Workspace>

  predicate Bound(workspaces: Workspaces, p: string, m: string) {
    p in workspaces && m in workspaces[p].bindings
  }

  ghost predicate BoundSomewhere(workspaces: Workspaces, m: string) {
    exists p :: Bound(workspaces, p, m)
  }

  /** Every binding belongs to an existing membership that covers the project. */
  ghost predicate Owned(memberships: Memberships, workspaces: Workspaces) {
    forall p, m | Bound(workspaces, p, m) :: m in memberships && Covers(memberships[m].spec, p)
  }

  predicate ReadyIn(projects: Projects, p: string) {
    p in projects && IsReady(projects[p].status)
  }

  /** Every binding is in the workspace of a ready project. */
  ghost predicate InReady(projects: Projects, workspaces: Workspaces) {
    forall p, m | Bound(workspaces, p, m) :: ReadyIn(projects, p)
  }

  /** One tenant's store. */
  datatype State = State(projects: Projects, memberships: Memberships, workspaces: Workspaces)

  /** Finalizers are set before anything depends on them. */
  ghost predicate WellFormed(s: State) {
    && (forall m <- s.memberships :: s.memberships[m].deleting ==> s.memberships[m].finalizer)
    && (forall p <- s.projects ::
          s.projects[p].deleting || WorkspaceNamed(s.projects[p].status) ==> s.projects[p].finalizer)
  }

  /** Every materialized binding belongs to an existing membership covering the ready project that holds it. */
  ghost predicate Settled(s: State) {
    Owned(s.memberships, s.workspaces) && InReady(s.projects, s.workspaces)
  }

  predicate RoleRight(ws: Workspace, role: string) {
    KnownRole(role) && role in ws.roles && ws.roles[role] == Rules(role)
  }

  /** Bound with the desired content, to a role with the desired rules. */
  predicate BoundAs(workspaces: Workspaces, p: string, m: string, spec: MembershipSpec) {
    && Bound(workspaces, p, m) && IsFor(workspaces[p].bindings[m], spec)
    && RoleRight(workspaces[p], spec.role)
  }

  /** Only bindings of one membership may differ, and a role that was right is right. */
  ghost predicate OthersKept(before: Workspaces, after: Workspaces, name: string) {
    && after.Keys == before.Keys
    && (forall p <- before :: after[p].deleting == before[p].deleting)
    && (forall p <- before :: after[p].bindings - {name} == before[p].bindings - {name})
    && (forall p, role | p in before && RoleRight(before[p], role) :: RoleRight(after[p], role))
  }

  /** Nothing changes but in these workspaces. */
  ghost predicate OnlyIn(before: Workspaces, after: Workspaces, where: set<string>) {
    forall p | p in before && p !in where :: p in after && after[p] == before[p]
  }

  /** The binding of `m` in `p`, or that there is none, is as it was. */
  predicate BindingKept(before: Workspaces, after: Workspaces, p: string, m: string) {
    && p in before && p in after && (m in after[p].bindings <==> m in before[p].bindings)
    && (m in before[p].bindings ==> after[p].bindings[m] == before[p].bindings[m])
  }

  predicate LiveCovering(memberships: Memberships, m: string, p: string) {
    m in memberships && !memberships[m].deleting && Covers(memberships[m].spec, p)
  }

  ghost predicate AllAcceptable(memberships: Memberships, p: string) {
    forall m | LiveCovering(memberships, m, p) :: Acceptable(memberships[m].spec)
  }

  function RoleWrites(ws: Workspace, role: string): nat {
    if RoleRight(ws, role) then 0 else 1
  }

  /** What it takes to make `m` be bound as desired: nothing, a create, or a delete and a create. */
  function BindingWrites(ws: Workspace, m: string, desired: Binding): nat {
    if m !in ws.bindings then 1 else if ws.bindings[m] == desired then 0 else 2
  }

  lemma OthersKeptOn(a: Workspaces, b: Workspaces, c: Workspaces, name: string)
    requires OthersKept(a, b, name) && OthersKept(b, c, name)
    ensures OthersKept(a, c, name)
  {}

  lemma OnlyThere(before: Workspaces, after: Workspaces, p: string)
    requires after - {p} == before - {p}
    ensures OnlyIn(before, after, {p})
  {
    forall q | q in before && q != p
      ensures q in after && after[q] == before[q]
    {
      assert q in before - {p} && (after - {p})[q] == (before - {p})[q];
    }
  }

  lemma RoleStep(ws: Workspaces, ws': Workspaces, p: string, role: string, m: string)
    requires p in ws && KnownRole(role)
    requires ws' == ws[p := ws[p].(roles := ws[p].roles[role := Rules(role)])]
    ensures OthersKept(ws, ws', m) && ws' - {p} == ws - {p} && RoleRight(ws'[p], role)
    ensures forall q, n :: Bound(ws', q, n) <==> Bound(ws, q, n)
  {}

  lemma BindingStep(ws: Workspaces, ws': Workspaces, p: string, m: string)
    requires p in ws && p in ws' && ws' == ws[p := ws[p].(bindings := ws'[p].bindings)]
    requires ws'[p].bindings - {m} == ws[p].bindings - {m}
    ensures OthersKept(ws, ws', m) && ws' - {p} == ws - {p}
    ensures forall q, n | !(q == p && n == m) :: Bound(ws', q, n) <==> Bound(ws, q, n)
  {
    forall n | n != m
      ensures n in ws'[p].bindings <==> n in ws[p].bindings
    {
      assert n in ws'[p].bindings - {m} <==> n in ws[p].bindings - {m};
    }
  }

  /** Where a membership pass looks: the ready projects it covers, or nowhere when it could not read them. */
  function Looked(s: State, name: string, listed: bool): set<string>
    requires name in s.memberships
  {
    if listed then
      set p | p in s.projects && IsReady(s.projects[p].status) && Covers(s.memberships[name].spec, p)
    else
      {}
  }

  /** A revocation completes when every workspace it looks at is there and all its writes happen. */
  predicate Completes(s: State, name: string, listed: bool, writes: nat)
    requires name in s.memberships
  {
    Looked(s, name, listed) <= s.workspaces.Keys && |Looked(s, name, listed)| < writes
  }

  /** What a pass for a deleted membership does: it unbinds where it looks, and lets the membership go at the end. */
  ghost predicate RevokeEffect(s: State, name: string, listed: bool, writes: nat, ok: bool, s': State)
    requires name in s.memberships
  {
    && (ok <==> Completes(s, name, listed, writes))
    && s'.memberships == (if ok then s.memberships - {name} else s.memberships)
    && (forall p, m | Bound(s'.workspaces, p, m) :: Bound(s.workspaces, p, m))
    && (forall p | Bound(s.workspaces, p, name) && !Bound(s'.workspaces, p, name) :: p in Looked(s, name, listed))
    && (ok ==> forall p <- Looked(s, name, listed) :: !Bound(s'.workspaces, p, name))
  }

  /** What a pass for any other membership does: it sets the finalizer and binds where it looks. */
  ghost predicate GrantEffect(s: State, name: string, listed: bool, writes: nat, ok: bool, s': State)
    requires name in s.memberships
  {
    var membership, looked := s.memberships[name], Looked(s, name, listed);
    && s'.memberships == s.memberships[name := membership.(finalizer := membership.finalizer || writes > 0)]
    && (forall p, m | Bound(s'.workspaces, p, m) :: Bound(s.workspaces, p, m) || (p in looked && m == name))
    && (ok ==> looked != {} && s'.memberships[name].finalizer
               && forall p <- looked :: BoundAs(s'.workspaces, p, name, membership.spec))
    // with the workspaces there, an acceptable wish and enough writes, nothing stops it
    && (looked != {} && looked <= s.workspaces.Keys && 1 + 3 * |looked| <= writes ==>
          (Acceptable(membership.spec) ==> ok))
  }

  ghost predicate MembershipEffect(s: State, name: string, listed: bool, writes: nat, ok: bool, s': State) {
    && s'.projects == s.projects && OthersKept(s.workspaces, s'.workspaces, name)
    && (if name !in s.memberships then ok && s' == s
        else
          && OnlyIn(s.workspaces, s'.workspaces, Looked(s, name, listed))
          && (if s.memberships[name].deleting then RevokeEffect(s, name, listed, writes, ok, s')
              else GrantEffect(s, name, listed, writes, ok, s')))
  }

  /** A project pass gets to its status write: past the finalizer and past creating the workspace. */
  predicate StatusReached(project: Project, there: bool, provisioning: Provisioning, writes: nat) {
    (if project.finalizer then 0 else 1) + (if there || provisioning == Failing then 0 else 1) < writes
  }

  /** The status for what was found of the workspace. */
  function StatusFor(name: string, found: Provisioning): ProjectStatus {
    match found
    case Failing => ProjectStatus(Error, None)
    case Unready => ProjectStatus(Pending, None)
    case ReadyNow => ProjectStatus(Ready, Some(Home(name)))
  }

  /** A project after a pass: with the finalizer, and the status its workspace calls for if that gets stored. */
  function ProjectAfter(s: State, name: string, provisioning: Provisioning, stored: bool, writes: nat): Project
    requires name in s.projects
  {
    var project := s.projects[name];
    var found := if name in s.workspaces || provisioning == Failing then provisioning else Unready;
    Project(if stored && StatusReached(project, name in s.workspaces, provisioning, writes) then StatusFor(name, found)
            else project.status, project.finalizer || writes > 0, project.deleting)
  }

  /** Its workspace is there after a pass: it was, or the pass got to creating it. */
  predicate ThereAfter(s: State, name: string, provisioning: Provisioning, writes: nat)
    requires name in s.projects
  {
    name in s.workspaces || (provisioning != Failing && (if s.projects[name].finalizer then 0 else 1) < writes)
  }

  /** The pass gets as far as applying memberships. */
  predicate Applies(s: State, name: string, provisioning: Provisioning, writes: nat)
    requires name in s.projects
  {
    name in s.workspaces && provisioning == ReadyNow && StatusReached(s.projects[name], true, provisioning, writes)
  }

  /**
   * What a pass for a project that is not deleted does: readiness goes as its workspace was found, and every live
   * covering membership gets bound there, unless the pass dies; nothing else gets bound.
   */
  ghost predicate ProvisionEffect(s: State, name: string, provisioning: Provisioning, stored: bool, writes: nat,
                                  ok: bool, s': State)
    requires name in s.projects
  {
    && name in s'.projects && s'.projects[name] == ProjectAfter(s, name, provisioning, stored, writes)
    && (name in s'.workspaces <==> ThereAfter(s, name, provisioning, writes))
    && (name in s'.workspaces ==> s'.workspaces[name].deleting == (name in s.workspaces && s.workspaces[name].deleting))
    && (ok ==> Applies(s, name, provisioning, writes)
               && forall m | LiveCovering(s.memberships, m, name) ::
                    BoundAs(s'.workspaces, name, m, s.memberships[m].spec))
    && (forall m | Bound(s'.workspaces, name, m) && !Bound(s.workspaces, name, m) ::
          LiveCovering(s.memberships, m, name) && Applies(s, name, provisioning, writes))
    && (name in s.workspaces ==>
          forall m | !LiveCovering(s.memberships, m, name) || !Applies(s, name, provisioning, writes) ::
            BindingKept(s.workspaces, s'.workspaces, name, m))
    // what is as desired stays, and with the workspace ready, acceptable wishes and enough writes nothing stops it
    && (forall m | m in s.memberships && BoundAs(s.workspaces, name, m, s.memberships[m].spec) ::
          BoundAs(s'.workspaces, name, m, s.memberships[m].spec))
    && (name in s.workspaces && provisioning == ReadyNow && 2 + 3 * |s.memberships| <= writes ==>
          (AllAcceptable(s.memberships, name) ==> ok))
  }

  /** The status names a workspace that is there, so a deleted project waits for it. */
  predicate Waits(s: State, name: string)
    requires name in s.projects
  {
    WorkspaceNamed(s.projects[name].status) && name in s.workspaces
  }

  /**
   * What a pass for a deleted project does: it marks the workspace, or lets the project go when there is nothing
   * left to wait for; a workspace the status stopped naming stays behind.
   */
  ghost predicate DeletionEffect(s: State, name: string, writes: nat, ok: bool, s': State)
    requires name in s.projects
  {
    && (ok <==> !Waits(s, name) && writes > 0)
    && s'.projects == (if ok then s.projects - {name} else s.projects)
    && s'.workspaces == (if Waits(s, name) && writes > 0 then Marked(s.workspaces, name) else s.workspaces)
  }

  function Marked(ws: Workspaces, name: string): Workspaces {
    if name in ws then ws[name := ws[name].(deleting := true)] else ws
  }

  ghost predicate ProjectEffect(s: State, name: string, provisioning: Provisioning, stored: bool, writes: nat,
                                ok: bool, s': State) {
    && s'.memberships == s.memberships
    && s'.projects - {name} == s.projects - {name} && s'.workspaces - {name} == s.workspaces - {name}
    && (if name !in s.projects then ok && s' == s
        else if s.projects[name].deleting then DeletionEffect(s, name, writes, ok, s')
        else ProvisionEffect(s, name, provisioning, stored, writes, ok, s'))
  }

  /** What users and the API server do between passes: a deletion waits for the finalizer, if there is one. */
  function Changed(s: State, e: Event): State {
    match e
    case CreateMembership(name, spec) =>
      if name in s.memberships then s else s.(memberships := s.memberships[name := Membership(spec, false, false)])
    case EditMembership(name, spec) =>
      if name !in s.memberships then s
      else s.(memberships := s.memberships[name := s.memberships[name].(spec := spec)])
    case DeleteMembership(name) =>
      if name !in s.memberships then s
      else if !s.memberships[name].finalizer then s.(memberships := s.memberships - {name})
      else s.(memberships := s.memberships[name := s.memberships[name].(deleting := true)])
    case CreateProject(name) =>
      if name in s.projects then s
      else s.(projects := s.projects[name := Project(ProjectStatus(Unset, None), false, false)])
    case DeleteProject(name) =>
      if name !in s.projects then s
      else if !s.projects[name].finalizer then s.(projects := s.projects - {name})
      else s.(projects := s.projects[name := s.projects[name].(deleting := true)])
    case WorkspaceGone(name) =>
      if name in s.workspaces && s.workspaces[name].deleting then s.(workspaces := s.workspaces - {name}) else s
    case _ => s
  }

  /** What an event may leave of a store; `ok` is what a pass reports. */
  ghost predicate Effect(s: State, e: Event, ok: bool, s': State) {
    WellFormed(s') &&
    match e
    case MembershipPass(name, listed, writes) => MembershipEffect(s, name, listed, writes, ok, s')
    case ProjectPass(name, provisioning, stored, writes) =>
      ProjectEffect(s, name, provisioning, stored, writes, ok, s')
    case _ => ok && s' == Changed(s, e)
  }

  lemma OtherBindingKept(before: Workspaces, after: Workspaces, p: string, n: string, m: string)
    requires OthersKept(before, after, m) && n != m && p in before
    ensures BindingKept(before, after, p, n)
  {
    assert n in before[p].bindings - {m} <==> n in after[p].bindings - {m};
    assert n in before[p].bindings ==> (before[p].bindings - {m})[n] == (after[p].bindings - {m})[n];
  }

  lemma BoundAsKept(before: Workspaces, after: Workspaces, p: string, n: string, spec: MembershipSpec, m: string)
    requires OthersKept(before, after, m) && n != m && BoundAs(before, p, n, spec)
    ensures BoundAs(after, p, n, spec)
  {
    assert n in before[p].bindings - {m} && (before[p].bindings - {m})[n] == (after[p].bindings - {m})[n];
  }

  /** In workspace `p` live covering memberships may have been bound; what was as desired is, the rest is as it was. */
  ghost predicate OnlyApplied(memberships: Memberships, start: Workspaces, ws: Workspaces, p: string) {
    && (forall m | Bound(ws, p, m) && !Bound(start, p, m) :: LiveCovering(memberships, m, p))
    && (p in ws ==> forall m | !LiveCovering(memberships, m, p) :: BindingKept(start, ws, p, m))
    && (forall m | m in memberships && BoundAs(start, p, m, memberships[m].spec) ::
          BoundAs(ws, p, m, memberships[m].spec))
  }

  /** One live covering membership more. */
  lemma AppliedOne(memberships: Memberships, start: Workspaces, before: Workspaces, after: Workspaces,
                   p: string, m: string)
    requires OnlyApplied(memberships, start, before, p) && LiveCovering(memberships, m, p)
    requires OthersKept(before, after, m) && (p in before ==> p in start)
    requires forall q, n | Bound(after, q, n) :: Bound(before, q, n) || (q == p && n == m)
    requires BoundAs(before, p, m, memberships[m].spec) ==> BoundAs(after, p, m, memberships[m].spec)
    ensures OnlyApplied(memberships, start, after, p)
    ensures forall n, spec | n != m && BoundAs(before, p, n, spec) :: BoundAs(after, p, n, spec)
  {
    forall n | !LiveCovering(memberships, n, p) && p in after
      ensures BindingKept(start, after, p, n)
    {
      assert BindingKept(start, before, p, n);
      OtherBindingKept(before, after, p, n, m);
    }
    forall n, spec | n != m && BoundAs(before, p, n, spec)
      ensures BoundAs(after, p, n, spec)
    {
      BoundAsKept(before, after, p, n, spec, m);
    }
  }

  class Tenant {
    var projects: Projects
    var memberships: Memberships
    var workspaces: Workspaces

    function View(): State
      reads this
    {
      State(projects, memberships, workspaces)
    }

    constructor ()
      ensures View() == State(map[], map[], map[])
    {
      projects, memberships, workspaces := map[], map[], map[];
    }

    /** targetClusters; None stands for its errors, a failed read among them, and for pending alike. */
    method TargetClusters(spec: MembershipSpec, listed: bool) returns (targets: Option<set<string>>)
      ensures targets.Some? ==> listed && targets.value != {}
      ensures listed ==>
        forall p :: targets.Some? && p in targets.value <==>
          && p in projects && projects[p].status.phase == Ready && projects[p].status.cluster.Some?
          && (spec.project == "" || spec.project == p)
    {
      if !listed {
        return None;
      }
      if spec.project != "" {
        if !ReadyIn(projects, spec.project) {
          return None;
        }
        return Some({spec.project});
      }
      var ready := set p | p in projects && IsReady(projects[p].status);
      targets := if ready == {} then None else Some(ready);
      assert forall p :: p in ready <==> ReadyIn(projects, p) && Covers(spec, p);
    }

    /** The role half of applyRBAC: rules that drifted are put right. */
    method ApplyRole(p: string, role: string, writes: nat) returns (ok: bool, left: nat)
      modifies this`workspaces
      ensures ok <==> (
          p in old(workspaces) && KnownRole(role) && RoleWrites(old(workspaces)[p], role) <= writes)
      ensures ok ==> (
          var before := old(workspaces)[p];
          && left == writes - RoleWrites(before, role)
          && workspaces == old(workspaces)[p := before.(roles := before.roles[role := Rules(role)])])
      ensures !ok ==> workspaces == old(workspaces)
    {
      left := writes;
      if p !in workspaces || DesiredRules(role) == None {
        return false, left;
      }
      ghost var before := workspaces[p].roles;
      if !RoleRight(workspaces[p], role) {
        if left == 0 {
          return false, left;
        }
        left := left - 1;
        var roles := workspaces[p].roles[role := DesiredRules(role).value];
        workspaces := workspaces[p := workspaces[p].(roles := roles)];
      } else {
        assert before == before[role := DesiredRules(role).value];
      }
      return true, left;
    }

    /** The binding half: a binding with other content is replaced. */
    method ApplyBinding(p: string, m: string, spec: MembershipSpec, writes: nat) returns (ok: bool, left: nat)
      modifies this`workspaces
      ensures ok <==> (
          p in old(workspaces) && Acceptable(spec)
          && BindingWrites(old(workspaces)[p], m, Binding(spec.role, spec.subject)) <= writes)
      ensures ok ==> (
          var before := old(workspaces)[p];
          && workspaces ==
            old(workspaces)[p := before.(bindings := before.bindings[m := Binding(spec.role, spec.subject)])]
          && left == writes - BindingWrites(before, m, Binding(spec.role, spec.subject)))
      // between its two writes a replaced binding is gone
      ensures !ok ==> (
          workspaces == old(workspaces)
          || (p in old(workspaces)
              && workspaces ==
                old(workspaces)[p := old(workspaces)[p].(bindings := old(workspaces)[p].bindings - {m})]))
    {
      left := writes;
      if p !in workspaces || DesiredBinding(spec) == None {
        return false, left;
      }
      var desired := DesiredBinding(spec).value;
      ghost var before := workspaces[p].bindings;
      if m in workspaces[p].bindings {
        if workspaces[p].bindings[m] == desired {
          assert before == before[m := desired];
          return true, left;
        }
        if left == 0 {
          return false, left;
        }
        left := left - 1;
        workspaces := workspaces[p := workspaces[p].(bindings := workspaces[p].bindings - {m})];
      }
      if left == 0 {
        assert before - {m} == workspaces[p].bindings;
        return false, left;
      }
      left := left - 1;
      workspaces := workspaces[p := workspaces[p].(bindings := workspaces[p].bindings[m := desired])];
      assert (before - {m})[m := desired] == before[m := desired];
      assert workspaces == old(workspaces)[p := old(workspaces)[p].(bindings := before[m := desired])];
      return true, left;
    }

    /** applyRBAC in one workspace: first the role, then the binding. */
    method ApplyRbac(p: string, m: string, spec: MembershipSpec, writes: nat) returns (ok: bool, left: nat)
      modifies this`workspaces
      ensures ok ==> BoundAs(workspaces, p, m, spec) && left + 3 >= writes
      ensures ok ==> (
          && p in workspaces && m in workspaces[p].bindings && spec.role in workspaces[p].roles
          && workspaces[p].bindings[m].roleRef == spec.role && workspaces[p].bindings[m].subject == spec.subject
          && workspaces[p].roles[spec.role] == Rules(spec.role))
      // whatever the writes: it refuses unknown roles, other kinds of subject and subjects without a name
      ensures p in old(workspaces) && writes >= 3 ==> (
          ok <==> spec.role in {"view", "edit", "admin"} && spec.subject.kind in {"User", "Group"}
                  && spec.subject.name != "")
      ensures ok ==> Acceptable(spec)
      ensures OthersKept(old(workspaces), workspaces, m)
      ensures workspaces - {p} == old(workspaces) - {p}
      ensures forall q, n | Bound(workspaces, q, n) :: Bound(old(workspaces), q, n) || (q == p && n == m)
      // what was as desired stays so, even when the pass dies
      ensures forall s | s == spec && BoundAs(old(workspaces), p, m, s) :: BoundAs(workspaces, p, m, s)
    {
      ok, left := ApplyRole(p, spec.role, writes);
      if ok {
        ghost var between := workspaces;
        RoleStep(old(workspaces), between, p, spec.role, m);
        ok, left := ApplyBinding(p, m, spec, left);
        if p in between {
          BindingStep(between, workspaces, p, m);
        }
        OthersKeptOn(old(workspaces), between, workspaces, m);
      }
    }

    method RevokeIn(targets: set<string>, name: string, writes: nat) returns (ok: bool, left: nat)
      modifies this`workspaces
      ensures OthersKept(old(workspaces), workspaces, name) && OnlyIn(old(workspaces), workspaces, targets)
      ensures ok ==> forall p <- targets :: !Bound(workspaces, p, name)
      ensures forall p, m | Bound(workspaces, p, m) :: Bound(old(workspaces), p, m)
      ensures forall p | Bound(old(workspaces), p, name) && !Bound(workspaces, p, name) :: p in targets
      ensures ok <==> targets <= old(workspaces).Keys && |targets| <= writes
      ensures ok ==> left == writes - |targets|
    {
      var rest := targets;
      left := writes;
      while rest != {}
        invariant rest <= targets && left - |rest| == writes - |targets|
        invariant targets - rest <= workspaces.Keys == old(workspaces).Keys
        invariant OthersKept(old(workspaces), workspaces, name) && OnlyIn(old(workspaces), workspaces, targets)
        invariant forall p :: Bound(workspaces, p, name) <==>
          Bound(old(workspaces), p, name) && (p in targets ==> p in rest)
        invariant forall p, m | Bound(workspaces, p, m) :: Bound(old(workspaces), p, m)
      {
        var p :| p in rest;
        if p !in workspaces || left == 0 {
          return false, left;
        }
        rest, left := rest - {p}, left - 1;
        ghost var before := workspaces;
        Unbind(p, name);
        OthersKeptOn(old(workspaces), before, workspaces, name);
      }
      return true, left;
    }

    method Unbind(p: string, name: string)
      requires p in workspaces
      modifies this`workspaces
      ensures OthersKept(old(workspaces), workspaces, name) && OnlyIn(old(workspaces), workspaces, {p})
      ensures forall q, m :: Bound(workspaces, q, m) <==> Bound(old(workspaces), q, m) && !(q == p && m == name)
    {
      workspaces := workspaces[p := workspaces[p].(bindings := workspaces[p].bindings - {name})];
    }

    method GrantIn(targets: set<string>, name: string, spec: MembershipSpec, writes: nat) returns (ok: bool)
      modifies this`workspaces
      ensures OthersKept(old(workspaces), workspaces, name) && OnlyIn(old(workspaces), workspaces, targets)
      ensures forall p, m | Bound(workspaces, p, m) :: Bound(old(workspaces), p, m) || (p in targets && m == name)
      ensures ok ==> forall p <- targets :: BoundAs(workspaces, p, name, spec)
      ensures Acceptable(spec) && targets <= old(workspaces).Keys && 3 * |targets| <= writes ==> ok
    {
      var rest, left: nat := targets, writes;
      ok := true;
      while rest != {}
        invariant ok && rest <= targets && left - 3 * |rest| >= writes - 3 * |targets|
        invariant OthersKept(old(workspaces), workspaces, name) && OnlyIn(old(workspaces), workspaces, targets)
        invariant forall p, m | Bound(workspaces, p, m) :: Bound(old(workspaces), p, m) || (p in targets && m == name)
        invariant forall p | p in targets && p !in rest :: BoundAs(workspaces, p, name, spec)
      {
        var p :| p in rest;
        rest := rest - {p};
        ghost var before := workspaces;
        ok, left := ApplyRbac(p, name, spec, left);
        OthersKeptOn(old(workspaces), before, workspaces, name);
        OnlyThere(before, workspaces, p);
        if !ok {
          return;
        }
      }
    }

    method ReconcileMembership(name: string, listed: bool, writes: nat) returns (ok: bool)
      requires WellFormed(View())
      modifies this
      ensures WellFormed(View()) && MembershipEffect(old(View()), name, listed, writes, ok, View())
    {
      if name !in memberships {
        return true;
      }
      var targets := TargetClusters(memberships[name].spec, listed);
      ghost var looked := Looked(View(), name, listed);
      assert looked == if targets.Some? then targets.value else {};
      if memberships[name].deleting {
        ok := Revoke(name, targets, writes);
      } else {
        ok := Grant(name, targets, writes);
      }
    }

    /** The deleting half of a pass: clean the targets if there are any, then let the membership go. */
    method Revoke(name: string, targets: Option<set<string>>, writes: nat) returns (ok: bool)
      requires WellFormed(View()) && name in memberships && memberships[name].deleting
      modifies this`workspaces, this`memberships
      ensures WellFormed(View()) && OthersKept(old(workspaces), workspaces, name)
      ensures OnlyIn(old(workspaces), workspaces, if targets.Some? then targets.value else {})
      ensures memberships == if ok then old(memberships) - {name} else old(memberships)
      ensures forall p, m | Bound(workspaces, p, m) :: Bound(old(workspaces), p, m)
      ensures forall p | Bound(old(workspaces), p, name) && !Bound(workspaces, p, name) ::
        targets.Some? && p in targets.value
      ensures ok && targets.Some? ==> forall p <- targets.value :: !Bound(workspaces, p, name)
      ensures targets == None ==> (ok <==> writes > 0)
      ensures targets.Some? ==> (ok <==> targets.value <= old(workspaces).Keys && |targets.value| < writes)
    {
      var left := writes;
      ok := true;
      if targets.Some? {
        ok, left := RevokeIn(targets.value, name, left);
      }
      if !ok || left == 0 {
        return false;
      }
      memberships := memberships - {name};
    }

    /** The other half: set the finalizer, then grant in the targets if there are any. */
    method Grant(name: string, targets: Option<set<string>>, writes: nat) returns (ok: bool)
      requires WellFormed(View()) && name in memberships && !memberships[name].deleting
      modifies this`workspaces, this`memberships
      ensures WellFormed(View()) && OthersKept(old(workspaces), workspaces, name)
      ensures OnlyIn(old(workspaces), workspaces, if targets.Some? then targets.value else {})
      ensures var membership := old(memberships)[name];
        memberships == old(memberships)[name := membership.(finalizer := membership.finalizer || writes > 0)]
      ensures forall p, m | Bound(workspaces, p, m) ::
        Bound(old(workspaces), p, m) || (targets.Some? && p in targets.value && m == name)
      ensures ok ==> targets.Some? && memberships[name].finalizer
      ensures ok ==> forall p <- targets.value :: BoundAs(workspaces, p, name, memberships[name].spec)
      ensures targets.Some? && targets.value <= old(workspaces).Keys && 1 + 3 * |targets.value| <= writes ==>
        (Acceptable(memberships[name].spec) ==> ok)
    {
      var membership, left := memberships[name], writes;
      if !membership.finalizer {
        if left == 0 {
          return false;
        }
        left := left - 1;
        memberships := memberships[name := membership.(finalizer := true)];
      }
      if targets == None {
        return false;
      }
      ok := GrantIn(targets.value, name, membership.spec, left);
    }

    /**
     * Whether nothing is left to wait for, as far as the project knows: a workspace may still be there exactly
     * when the status stopped naming it, and in a settled store nothing is bound in that one.
     */
    method DeleteWorkspace(name: string, writes: nat) returns (gone: bool)
      requires name in projects
      modifies this`workspaces
      ensures gone <==> !Waits(old(View()), name)
      ensures workspaces == if !gone && writes > 0 then Marked(old(workspaces), name) else old(workspaces)
      ensures gone && name in workspaces ==> !WorkspaceNamed(projects[name].status)
      ensures gone && Settled(old(View())) ==> forall m :: !Bound(workspaces, name, m)
      ensures !gone && writes > 0 ==> name in workspaces && workspaces[name].deleting
    {
      gone := !(WorkspaceNamed(projects[name].status) && name in workspaces);
      if !gone && writes > 0 {
        workspaces := workspaces[name := workspaces[name].(deleting := true)];
      }
    }

    /** A new workspace is not ready yet; a create that does not happen is an error. */
    method EnsureWorkspace(name: string, provisioning: Provisioning, writes: nat)
      returns (found: Provisioning, left: nat)
      modifies this`workspaces
      ensures workspaces - {name} == old(workspaces) - {name}
      ensures forall p, m :: Bound(workspaces, p, m) <==> Bound(old(workspaces), p, m)
      ensures name in old(workspaces) ==> found == provisioning && left == writes && workspaces == old(workspaces)
      ensures name !in old(workspaces) ==> found != ReadyNow && (name in workspaces <==> found == Unready)
      ensures name !in old(workspaces) && name in workspaces ==> workspaces[name] == Workspace(map[], map[], false)
      ensures name !in old(workspaces) ==>
        left == (if provisioning == Failing || writes == 0 then writes else writes - 1)
        && (found == Unready <==> provisioning != Failing && writes > 0)
    {
      found, left := provisioning, writes;
      if name !in workspaces && provisioning != Failing {
        if left == 0 {
          return Failing, left;
        }
        workspaces := workspaces[name := Workspace(map[], map[], false)];
        found, left := Unready, left - 1;
      }
    }

    /** `provisioning` is what ensureWorkspace finds. */
    method ReconcileProject(name: string, provisioning: Provisioning, stored: bool, writes: nat) returns (ok: bool)
      requires WellFormed(View())
      modifies this
      ensures WellFormed(View()) && ProjectEffect(old(View()), name, provisioning, stored, writes, ok, View())
    {
      if name !in projects {
        return true;
      }
      if projects[name].deleting {
        ok := DeleteWorkspace(name, writes);
        ok := ok && writes > 0;
        if ok {
          projects := projects - {name};
        }
      } else {
        ok := Provision(name, provisioning, stored, writes);
      }
    }

    /** The half of a pass for a project that is not being deleted. */
    method Provision(name: string, provisioning: Provisioning, stored: bool, writes: nat) returns (ok: bool)
      requires WellFormed(View()) && name in projects && !projects[name].deleting
      modifies this`projects, this`workspaces
      ensures WellFormed(View())
      ensures projects - {name} == old(projects) - {name} && workspaces - {name} == old(workspaces) - {name}
      ensures ProvisionEffect(old(View()), name, provisioning, stored, writes, ok, View())
    {
      var go, left := Prepare(name, provisioning, stored, writes);
      ok := go;
      if go {
        ok := ApplyMembershipsTo(name, left);
      }
    }

    /** Up to the status write: whether the workspace is ready to be granted in, and how many writes are left then. */
    method Prepare(name: string, provisioning: Provisioning, stored: bool, writes: nat) returns (go: bool, left: nat)
      requires WellFormed(View()) && name in projects && !projects[name].deleting
      modifies this`projects, this`workspaces
      ensures WellFormed(View()) && name in projects
      ensures projects[name] == ProjectAfter(old(View()), name, provisioning, stored, writes)
      ensures projects - {name} == old(projects) - {name} && workspaces - {name} == old(workspaces) - {name}
      ensures name in workspaces <==> ThereAfter(old(View()), name, provisioning, writes)
      ensures name in workspaces && name !in old(workspaces) ==> workspaces[name] == Workspace(map[], map[], false)
      ensures go <==> Applies(old(View()), name, provisioning, writes)
      ensures go ==> left + 2 >= writes
      ensures name in old(workspaces) ==> workspaces == old(workspaces)
      ensures forall m :: Bound(workspaces, name, m) <==> Bound(old(workspaces), name, m)
    {
      left := writes;
      if !projects[name].finalizer {
        if left == 0 {
          return false, left;
        }
        left := left - 1;
        projects := projects[name := projects[name].(finalizer := true)];
      }
      var found;
      found, left := EnsureWorkspace(name, provisioning, left);
      go := found == ReadyNow && left > 0;
      if left > 0 {
        StoreStatus(name, found, stored);
        left := left - 1;
      }
    }

    /** updateProjectStatus: a conflict stores nothing, and the pass does not notice. */
    method StoreStatus(name: string, found: Provisioning, stored: bool)
      requires WellFormed(View()) && name in projects && projects[name].finalizer
      modifies this`projects
      ensures WellFormed(View()) && name in projects
      ensures stored ==> projects == old(projects)[name := old(projects)[name].(status := StatusFor(name, found))]
      ensures stored ==> (IsReady(projects[name].status) <==> found == ReadyNow)
      ensures stored ==> (WorkspaceNamed(projects[name].status) <==> found != Failing)
      // the targets of memberships are read off this: a ready project names its own workspace
      ensures stored && found == ReadyNow ==> projects[name].status.cluster == Some(Home(name))
      ensures !stored ==> projects == old(projects)
    {
      if stored {
        projects := projects[name := projects[name].(status := StatusFor(name, found))];
      }
    }

    method ApplyMembershipsTo(name: string, writes: nat) returns (ok: bool)
      modifies this`workspaces
      ensures workspaces - {name} == old(workspaces) - {name} && workspaces.Keys == old(workspaces).Keys
      ensures forall p <- workspaces :: workspaces[p].deleting == old(workspaces)[p].deleting
      ensures forall m | Bound(workspaces, name, m) && !Bound(old(workspaces), name, m) ::
        LiveCovering(memberships, m, name)
      ensures name in workspaces ==>
        forall m | !LiveCovering(memberships, m, name) :: BindingKept(old(workspaces), workspaces, name, m)
      ensures forall m | m in memberships && BoundAs(old(workspaces), name, m, memberships[m].spec) ::
        BoundAs(workspaces, name, m, memberships[m].spec)
      ensures ok ==> forall m | LiveCovering(memberships, m, name) ::
        BoundAs(workspaces, name, m, memberships[m].spec)
      ensures name in old(workspaces) && AllAcceptable(memberships, name) && 3 * |memberships| <= writes ==> ok
    {
      var rest, left: nat := memberships.Keys, writes;
      while rest != {}
        invariant rest <= memberships.Keys && left - 3 * |rest| >= writes - 3 * |memberships|
        invariant workspaces.Keys == old(workspaces).Keys
        invariant forall p <- workspaces :: workspaces[p].deleting == old(workspaces)[p].deleting
        invariant workspaces - {name} == old(workspaces) - {name}
        invariant OnlyApplied(memberships, old(workspaces), workspaces, name)
        invariant forall m | LiveCovering(memberships, m, name) && m !in rest ::
          BoundAs(workspaces, name, m, memberships[m].spec)
      {
        var m :| m in rest;
        rest := rest - {m};
        if !memberships[m].deleting && Covers(memberships[m].spec, name) {
          ghost var before := workspaces;
          ok, left := ApplyRbac(name, m, memberships[m].spec, left);
          AppliedOne(memberships, old(workspaces), before, workspaces, name, m);
          if !ok {
            return;
          }
        }
      }
      return true;
    }

    method ChangedByOthers(e: Event)
      requires WellFormed(View()) && !e.MembershipPass? && !e.ProjectPass?
      modifies this
      ensures WellFormed(View()) && View() == Changed(old(View()), e)
    {
      match e {
        case CreateMembership(name, spec) =>
          if name !in memberships {
            memberships := memberships[name := Membership(spec, false, false)];
          }
        case EditMembership(name, spec) =>
          if name in memberships {
            memberships := memberships[name := memberships[name].(spec := spec)];
          }
        case DeleteMembership(name) =>
          if name in memberships {
            memberships :=
              if memberships[name].finalizer then memberships[name := memberships[name].(deleting := true)]
              else memberships - {name};
          }
        case CreateProject(name) =>
          if name !in projects {
            projects := projects[name := Project(ProjectStatus(Unset, None), false, false)];
          }
        case DeleteProject(name) =>
          if name in projects {
            projects :=
              if projects[name].finalizer then projects[name := projects[name].(deleting := true)]
              else projects - {name};
          }
        case WorkspaceGone(name) =>
          if name in workspaces && workspaces[name].deleting {
            workspaces := workspaces - {name};
          }
        case _ =>
      }
    }

    method Happen(e: Event) returns (ok: bool)
      requires WellFormed(View())
      modifies this
      ensures Effect(old(View()), e, ok, View())
    {
      match e
      case MembershipPass(name, listed, writes) => ok := ReconcileMembership(name, listed, writes);
      case ProjectPass(name, provisioning, stored, writes) =>
        ok := ReconcileProject(name, provisioning, stored, writes);
      case _ => ChangedByOthers(e); ok := true;
    }
  }
}
