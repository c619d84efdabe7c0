/**
 * The two reconcilers that push the same grants from opposite sides, one client call at a time:
 * a membership lists projects, a project lists memberships, and any number of passes interleave.
 */
module FanOut {
  import opened Options
  import opened Tenancy

  /** One applyRBAC call: a membership, as the caller read it, into one project workspace. */
  datatype Job = Job(cluster: Cluster, name: string, spec: MembershipSpec)

  /** The client call applyRBAC makes next. */
  datatype Stage = GetRole | CreateRole | UpdateRole | GetBinding | CreateBinding | DeleteBinding | RecreateBinding

  datatype Actor = M(membership: string) | P(project: string)

  datatype Pass =
    | Idle
    | Failed
    | Got                                  // the object was read
    | Ensured(ready: bool)                 // a project's workspace was looked at
    | Published                            // a project's ready status was written
    | Namespaced
    | Granting(todo: seq<Job>, at: Stage)  // past the list; todo[0] is being applied
    | Ended                                // the pass ended Ready

  datatype World = World(
    projects: map<string, ProjectStatus>,
    memberships: map<string, MembershipSpec>,
    roles: map<(Cluster, string), Rules>,
    bindings: map<(Cluster, string), Binding>,
    passes: map<Actor, Pass>)
  {
    function PassOf(a: Actor): Pass {
      if a in passes then passes[a] else Idle
    }

    function With(a: Actor, p: Pass): World {
      this.(passes := passes[a := p])
    }
  }

  datatype Action =
    | CreateMembership(name: string, spec: MembershipSpec)
    | CreateProject(name: string)
    | Start(a: Actor)
    | Abort(a: Actor)                                // any client call fails, or the process restarts
    | ListProjects(name: string, jobs: seq<Job>)
    | EnsureWorkspace(name: string, ready: bool)
    | EnsureFails(name: string, stored: bool)
    | WriteStatus(name: string, stored: bool)        // a conflict is swallowed: nothing is stored
    | MakeNamespace(name: string)
    | ListMemberships(name: string, jobs: seq<Job>)
    | Grant(a: Actor)
    | Finish(a: Actor)

  /** targetClusters: one job for each ready project the membership covers, in any order. */
  ghost predicate JobsOfMembership(w: World, name: string, jobs: seq<Job>) {
    && name in w.memberships
    && (forall job <- jobs :: job.name == name && job.spec == w.memberships[name] && job.cluster.project in w.projects)
    && (forall p <- w.projects :: Job(Home(p), name, w.memberships[name]) in jobs <==>
          IsReady(w.projects[p]) && Covers(w.memberships[name], p))
  }

  /** applyMembershipsTo: one job for each membership that covers the project. */
  ghost predicate JobsOfProject(w: World, name: string, jobs: seq<Job>) {
    && (forall job <- jobs :: job.name in w.memberships && job.cluster == Home(name))
    && (forall m <- w.memberships, spec :: Job(Home(name), m, spec) in jobs <==>
          spec == w.memberships[m] && Covers(spec, name))
  }

  ghost predicate Enabled(w: World, act: Action) {
    match act
    case CreateMembership(name, _) => name !in w.memberships
    case CreateProject(name) => name !in w.projects
    case Start(a) =>
      (if a.M? then a.membership in w.memberships else a.project in w.projects)
      && (w.PassOf(a).Idle? || w.PassOf(a).Failed? || w.PassOf(a).Ended?)
    case Abort(a) => !w.PassOf(a).Idle? && !w.PassOf(a).Ended?
    case ListProjects(name, jobs) => w.PassOf(M(name)).Got? && JobsOfMembership(w, name, jobs)
    case EnsureWorkspace(name, _) => w.PassOf(P(name)).Got?
    case EnsureFails(name, _) => w.PassOf(P(name)).Got?
    case WriteStatus(name, _) => w.PassOf(P(name)).Ensured?
    case MakeNamespace(name) => w.PassOf(P(name)).Published?
    case ListMemberships(name, jobs) => w.PassOf(P(name)).Namespaced? && JobsOfProject(w, name, jobs)
    case Grant(a) => w.PassOf(a).Granting? && w.PassOf(a).todo != []
    case Finish(a) => w.PassOf(a).Granting? && w.PassOf(a).todo == []
  }

  function Step(w: World, act: Action): World {
    match act
    case CreateMembership(name, spec) => w.(memberships := w.memberships[name := spec])
    case CreateProject(name) => w.(projects := w.projects[name := ProjectStatus(Unset, None)])
    case Start(a) => w.With(a, Got)
    case Abort(a) => w.With(a, Failed)
    case ListProjects(name, jobs) =>
      // no ready target: the grant is pending, or names a project that is not there
      w.With(M(name), if jobs == [] then Failed else Granting(jobs, GetRole))
    case EnsureWorkspace(name, ready) => w.With(P(name), Ensured(ready))
    case EnsureFails(name, stored) =>
      (if stored then w.(projects := w.projects[name := ProjectStatus(Error, None)]) else w).With(P(name), Failed)
    case WriteStatus(name, stored) =>
      var pass := w.PassOf(P(name));
      var ready := pass.Ensured? && pass.ready;
      var status := ProjectStatus(if ready then Ready else Pending, Some(Home(name)));
      (if stored then w.(projects := w.projects[name := status]) else w)
        .With(P(name), if ready then Published else Failed)
    case MakeNamespace(name) => w.With(P(name), Namespaced)
    case ListMemberships(name, jobs) => w.With(P(name), Granting(jobs, GetRole))
    case Grant(a) =>
      var pass := w.PassOf(a);
      if pass.Granting? && pass.todo != [] then GrantCall(w, a, pass.todo, pass.at) else w
    case Finish(a) => w.With(a, Ended)
  }

  /** What one client call of applyRBAC leaves of the roles and bindings, and where the pass goes on. */
  datatype Outcome = Outcome(roles: map<(Cluster, string), Rules>, bindings: map<(Cluster, string), Binding>,
                             next: Pass)

  function GrantCall(w: World, a: Actor, todo: seq<Job>, at: Stage): World
    requires todo != []
  {
    var o := Call(w.roles, w.bindings, todo, at);
    w.(roles := o.roles, bindings := o.bindings).With(a, o.next)
  }

  /** The client call at stage `at`, for the first job. */
  function Call(roles: map<(Cluster, string), Rules>, bindings: map<(Cluster, string), Binding>, todo: seq<Job>,
                at: Stage)
    : (o: Outcome)
    requires todo != []
    ensures o.next.Failed? || (o.next.Granting? && (o.next.todo == todo || o.next.todo == todo[1..]))
    // a job is finished only over its binding, and a call takes nothing away but the binding it replaces
    ensures o.next.Granting? && o.next.todo == todo[1..] ==>
      at in {GetBinding, CreateBinding, RecreateBinding} && (todo[0].cluster, todo[0].name) in o.bindings
      && Acceptable(todo[0].spec)
    ensures o.bindings == bindings || o.bindings == bindings - {(todo[0].cluster, todo[0].name)}
      || (Acceptable(todo[0].spec)
          && o.bindings == bindings[
               (todo[0].cluster, todo[0].name) := Binding(todo[0].spec.role, todo[0].spec.subject)])
    ensures o.bindings.Keys < bindings.Keys ==> at == DeleteBinding && o.next == Granting(todo, RecreateBinding)
    ensures o.roles == roles
      || (KnownRole(todo[0].spec.role)
          && o.roles == roles[(todo[0].cluster, todo[0].spec.role) := Rules(todo[0].spec.role)])
  {
    var job := todo[0];
    var role, key := (job.cluster, job.spec.role), (job.cluster, job.name);
    var rules, binding := DesiredRules(job.spec.role), DesiredBinding(job.spec);
    if rules == None || (binding == None && at == GetBinding) then Outcome(roles, bindings, Failed)
    else match at
      case GetRole =>
        Outcome(roles, bindings, Granting(todo, if role !in roles then CreateRole
                                                else if roles[role] != rules.value then UpdateRole
                                                else GetBinding))
      case CreateRole =>
        Outcome(if role in roles then roles else roles[role := rules.value], bindings, Granting(todo, GetBinding))
      case UpdateRole => Outcome(roles[role := rules.value], bindings, Granting(todo, GetBinding))
      case GetBinding =>
        Outcome(roles, bindings, if key !in bindings then Granting(todo, CreateBinding)
                                 else if bindings[key] == binding.value then Granting(todo[1..], GetRole)
                                 else Granting(todo, DeleteBinding))
      case CreateBinding =>
        if binding == None then Outcome(roles, bindings, Failed)
        else Outcome(roles, if key in bindings then bindings else bindings[key := binding.value],
                     Granting(todo[1..], GetRole))
      case DeleteBinding => Outcome(roles, bindings - {key}, Granting(todo, RecreateBinding))
      case RecreateBinding =>
        if key in bindings || binding == None then Outcome(roles, bindings, Failed)
        else Outcome(roles, bindings[key := binding.value], Granting(todo[1..], GetRole))
  }

  /** The membership's binding and its role are in the project's workspace, with the desired content. */
  ghost predicate Granted(w: World, m: string, p: string) {
    && m in w.memberships && (Home(p), m) in w.bindings && IsFor(w.bindings[(Home(p), m)], w.memberships[m])
    && RoleRight(w, Home(p), w.memberships[m].role)
  }

  ghost predicate RoleRight(w: World, c: Cluster, role: string) {
    RightIn(w.roles, c, role)
  }

  predicate RightIn(roles: map<(Cluster, string), Rules>, c: Cluster, role: string) {
    KnownRole(role) && (c, role) in roles && roles[(c, role)] == Rules(role)
  }

  /** The pass holds a job for this grant that it has not finished. */
  ghost predicate Holds(w: World, a: Actor, m: string, p: string) {
    && w.PassOf(a).Granting? && m in w.memberships
    && Job(Home(p), m, w.memberships[m]) in w.PassOf(a).todo
  }

  predicate PastList(pass: Pass) {
    pass.Granting? || pass.Ended?
  }

  /** Jobs carry current specs and stay inside their own pass's row or column. */
  ghost predicate JobsFit(w: World, a: Actor) {
    && (PastList(w.PassOf(a)) && a.M? ==> a.membership in w.memberships)
    && (w.PassOf(a).Granting? ==> forall job <- w.PassOf(a).todo ::
          && job.name in w.memberships && job.spec == w.memberships[job.name]
          && (if a.M? then job.name == a.membership else job.cluster == Home(a.project)))
  }

  /** What applyRBAC already established for the job it is at. */
  ghost predicate StageFits(w: World, a: Actor) {
    FitsIn(w.roles, w.bindings, w.PassOf(a))
  }

  ghost predicate FitsIn(roles: map<(Cluster, string), Rules>, bindings: map<(Cluster, string), Binding>, pass: Pass) {
    pass.Granting? && pass.todo != [] ==>
      var job := pass.todo[0];
      && (pass.at == CreateRole && (job.cluster, job.spec.role) in roles ==> RightIn(roles, job.cluster, job.spec.role))
      && (!pass.at.GetRole? && !pass.at.CreateRole? && !pass.at.UpdateRole? ==>
            RightIn(roles, job.cluster, job.spec.role))
      && (pass.at == CreateBinding && (job.cluster, job.name) in bindings ==>
            IsFor(bindings[(job.cluster, job.name)], job.spec))
  }

  /** Between two passes that both got past their lists, nothing can fall through. */
  ghost predicate Covered(w: World, m: string, p: string) {
    PastList(w.PassOf(M(m))) && PastList(w.PassOf(P(p))) && m in w.memberships && p in w.projects
    && IsReady(w.projects[p]) && Covers(w.memberships[m], p)
    ==> Granted(w, m, p) || Holds(w, M(m), m, p) || Holds(w, P(p), m, p)
  }

  ghost predicate Inv(w: World) {
    && (forall a :: JobsFit(w, a) && StageFits(w, a))
    && (forall m, p :: Covered(w, m, p))
  }

  ghost predicate Run(w: World, acts: seq<Action>)
    decreases |acts|
  {
    acts == [] || (Enabled(w, acts[0]) && Run(Step(w, acts[0]), acts[1..]))
  }

  ghost function Last(w: World, acts: seq<Action>): World
    decreases |acts|
  {
    if acts == [] then w else Last(Step(w, acts[0]), acts[1..])
  }

  /** What no step but a call of applyRBAC touches, and what only grows. */
  ghost predicate QuietFrame(w: World, w': World) {
    && w'.roles == w.roles && w'.bindings == w.bindings
    && forall m <- w.memberships :: m in w'.memberships && w'.memberships[m] == w.memberships[m]
  }

  lemma QuietHasFrame(w: World, act: Action)
    requires Enabled(w, act) && !act.Grant?
    ensures QuietFrame(w, Step(w, act))
  {}

  lemma FitsQuiet(w: World, w': World, a: Actor)
    requires JobsFit(w, a) && StageFits(w, a) && QuietFrame(w, w') && w'.PassOf(a) == w.PassOf(a)
    ensures JobsFit(w', a) && StageFits(w', a)
  {}

  /** The pass a step moves on is early, freshly past its list, or at its end. */
  lemma MovedFits(w: World, act: Action, a: Actor)
    requires JobsFit(w, a) && Enabled(w, act) && !act.Grant? && Step(w, act).PassOf(a) != w.PassOf(a)
    ensures JobsFit(Step(w, act), a) && StageFits(Step(w, act), a)
  {}

  lemma FitsKept(w: World, act: Action, a: Actor)
    requires Inv(w) && Enabled(w, act) && !act.Grant?
    ensures JobsFit(Step(w, act), a) && StageFits(Step(w, act), a)
  {
    assert JobsFit(w, a) && StageFits(w, a);
    if Step(w, act).PassOf(a) == w.PassOf(a) {
      QuietHasFrame(w, act);
      FitsQuiet(w, Step(w, act), a);
    } else {
      MovedFits(w, act, a);
    }
  }

  lemma CoveredQuiet(w: World, w': World, m: string, p: string)
    requires Covered(w, m, p) && QuietFrame(w, w') && (m in w'.memberships ==> m in w.memberships)
    requires p in w'.projects && IsReady(w'.projects[p]) ==> p in w.projects && IsReady(w.projects[p])
    requires PastList(w'.PassOf(M(m))) ==> PastList(w.PassOf(M(m))) && KeepsJobs(w, w', M(m))
    requires PastList(w'.PassOf(P(p))) ==> PastList(w.PassOf(P(p))) && KeepsJobs(w, w', P(p))
    ensures Covered(w', m, p)
  {}

  /** The pass is where it was, or ended with nothing left to do. */
  ghost predicate KeepsJobs(w: World, w': World, a: Actor) {
    w'.PassOf(a) == w.PassOf(a) || (w.PassOf(a).Granting? && w.PassOf(a).todo == [])
  }

  /** Only a list takes a pass past its list, and only a stored status makes a project ready. */
  lemma QuietStep(w: World, act: Action, a: Actor)
    requires Enabled(w, act) && !act.Grant? && !act.ListProjects? && !act.ListMemberships?
    ensures PastList(Step(w, act).PassOf(a)) ==> PastList(w.PassOf(a)) && KeepsJobs(w, Step(w, act), a)
  {}

  lemma ReadyStep(w: World, act: Action, p: string)
    requires Enabled(w, act) && PastList(w.PassOf(P(p)))
    requires p in Step(w, act).projects && IsReady(Step(w, act).projects[p])
    ensures (p in w.projects && IsReady(w.projects[p])) || !PastList(Step(w, act).PassOf(P(p)))
  {}

  /** At its list a pass takes on every grant that is to be made; so does the other one, or it was there before. */
  lemma ListedCovers(w: World, act: Action, m: string, p: string)
    requires Covered(w, m, p) && JobsFit(w, M(m)) && Enabled(w, act)
    requires act.ListProjects? || act.ListMemberships?
    ensures Covered(Step(w, act), m, p)
  {
    match act
    case ListProjects(name, jobs) =>
    case ListMemberships(name, jobs) =>
  }

  lemma CoveredKept(w: World, act: Action, m: string, p: string)
    requires Inv(w) && Enabled(w, act) && !act.Grant?
    ensures Covered(Step(w, act), m, p)
  {
    var w' := Step(w, act);
    assert Covered(w, m, p) && JobsFit(w, M(m));
    if act.ListProjects? || act.ListMemberships? {
      ListedCovers(w, act, m, p);
    } else {
      QuietStep(w, act, M(m));
      QuietStep(w, act, P(p));
      if PastList(w'.PassOf(M(m))) && PastList(w'.PassOf(P(p))) && p in w'.projects && IsReady(w'.projects[p]) {
        QuietHasFrame(w, act);
        ReadyStep(w, act, p);
        CoveredQuiet(w, w', m, p);
      }
    }
  }

  /** A role once right stays right: every writer writes the same rules. */
  lemma RoleStaysRight(w: World, act: Action, c: Cluster, role: string)
    requires Enabled(w, act) && RoleRight(w, c, role)
    ensures RoleRight(Step(w, act), c, role)
  {}

  /** What one applyRBAC call of `a` may do to the rest of the world. */
  ghost predicate GrantFrame(w: World, w': World, a: Actor) {
    PassFrame(w, w', a) && RoleFrame(w, w') && BindingFrame(w, w')
  }

  ghost predicate PassFrame(w: World, w': World, a: Actor) {
    && w'.memberships == w.memberships && w'.projects == w.projects
    && (forall b | b != a :: w'.PassOf(b) == w.PassOf(b))
    && (PastList(w'.PassOf(a)) ==> w'.PassOf(a).Granting? && w.PassOf(a).Granting?)
  }

  ghost predicate RoleFrame(w: World, w': World) {
    && (forall c, role | RoleRight(w, c, role) :: RoleRight(w', c, role))
    && (forall c, role | (c, role) in w'.roles && (c, role) !in w.roles :: RoleRight(w', c, role))
  }

  ghost predicate BindingFrame(w: World, w': World) {
    forall c, n | (c, n) in w'.bindings ::
      ((c, n) in w.bindings && w'.bindings[(c, n)] == w.bindings[(c, n)])
      || (n in w.memberships && IsFor(w'.bindings[(c, n)], w.memberships[n]))
  }

  lemma GrantPassFrame(w: World, act: Action)
    requires Enabled(w, act) && act.Grant?
    ensures PassFrame(w, Step(w, act), act.a)
  {}

  lemma GrantRoleFrame(w: World, act: Action)
    requires Enabled(w, act) && act.Grant?
    ensures RoleFrame(w, Step(w, act))
  {
    forall c, role | RoleRight(w, c, role)
      ensures RoleRight(Step(w, act), c, role)
    {
      RoleStaysRight(w, act, c, role);
    }
  }

  lemma GrantBindingFrame(w: World, act: Action)
    requires Enabled(w, act) && act.Grant? && JobsFit(w, act.a)
    ensures BindingFrame(w, Step(w, act))
  {
    assert w.PassOf(act.a).todo[0] in w.PassOf(act.a).todo;
  }

  lemma GrantHasFrame(w: World, act: Action)
    requires Inv(w) && Enabled(w, act) && act.Grant?
    ensures GrantFrame(w, Step(w, act), act.a)
  {
    assert JobsFit(w, act.a);
    GrantPassFrame(w, act);
    GrantRoleFrame(w, act);
    GrantBindingFrame(w, act);
  }

  lemma FitsFrame(w: World, w': World, a: Actor, b: Actor)
    requires JobsFit(w, b) && StageFits(w, b) && GrantFrame(w, w', a) && a != b
    ensures JobsFit(w', b) && StageFits(w', b)
  {
    var pass := w.PassOf(b);
    if pass.Granting? && pass.todo != [] {
      var job := pass.todo[0];
      assert job in pass.todo;
      assert RoleRight(w, job.cluster, job.spec.role) ==> RoleRight(w', job.cluster, job.spec.role);
      assert (job.cluster, job.spec.role) in w'.roles ==>
        (job.cluster, job.spec.role) in w.roles || RoleRight(w', job.cluster, job.spec.role);
    }
  }

  lemma GrantFitsJobs(w: World, act: Action)
    requires Enabled(w, act) && act.Grant? && JobsFit(w, act.a)
    ensures JobsFit(Step(w, act), act.a)
  {
    var todo := w.PassOf(act.a).todo;
    assert forall job <- todo[1..] :: job in todo;
  }

  lemma CallFitsStage(roles: map<(Cluster, string), Rules>, bindings: map<(Cluster, string), Binding>, todo: seq<Job>,
                      at: Stage)
    requires todo != [] && FitsIn(roles, bindings, Granting(todo, at))
    ensures var o := Call(roles, bindings, todo, at);
      FitsIn(o.roles, o.bindings, o.next)
  {}

  lemma GrantFitsStage(w: World, act: Action)
    requires Enabled(w, act) && act.Grant? && StageFits(w, act.a)
    ensures StageFits(Step(w, act), act.a)
  {
    var pass := w.PassOf(act.a);
    assert pass == Granting(pass.todo, pass.at);
    CallFitsStage(w.roles, w.bindings, pass.todo, pass.at);
    assert Step(w, act) == GrantCall(w, act.a, pass.todo, pass.at);
  }

  /** Only a pass that still holds the job can take its binding away. */
  lemma GrantKeepsOrHolds(w: World, act: Action, m: string, p: string)
    requires Inv(w) && Enabled(w, act) && act.Grant? && Granted(w, m, p)
    ensures Granted(Step(w, act), m, p) || Holds(Step(w, act), M(m), m, p) || Holds(Step(w, act), P(p), m, p)
  {
    assert JobsFit(w, act.a);
    var todo := w.PassOf(act.a).todo;
    assert todo[0] in todo;
    RoleStaysRight(w, act, Home(p), w.memberships[m].role);
  }

  lemma GrantKeepsLaterJobs(w: World, act: Action, job: Job)
    requires Enabled(w, act) && act.Grant? && job in w.PassOf(act.a).todo && job != w.PassOf(act.a).todo[0]
    ensures var pass := Step(w, act).PassOf(act.a);
      pass.Failed? || (pass.Granting? && job in pass.todo)
  {
    assert job in w.PassOf(act.a).todo[1..];
  }

  lemma GrantFinishesFirst(w: World, act: Action, m: string, p: string)
    requires Enabled(w, act) && act.Grant? && StageFits(w, act.a)
    requires m in w.memberships && w.PassOf(act.a).todo[0] == Job(Home(p), m, w.memberships[m])
    ensures var w' := Step(w, act);
      w'.PassOf(act.a).Failed? || Granted(w', m, p) || Holds(w', act.a, m, p)
  {
    var role := w.memberships[m].role;
    if RoleRight(w, Home(p), role) {
      RoleStaysRight(w, act, Home(p), role);
    }
  }

  /** A job leaves a running pass only once its grant is there. */
  lemma GrantFinishesJob(w: World, act: Action, m: string, p: string)
    requires Inv(w) && Enabled(w, act) && act.Grant? && Holds(w, act.a, m, p)
    ensures var w' := Step(w, act);
      w'.PassOf(act.a).Failed? || Granted(w', m, p) || Holds(w', act.a, m, p)
  {
    assert JobsFit(w, act.a) && StageFits(w, act.a);
    var job := Job(Home(p), m, w.memberships[m]);
    if job == w.PassOf(act.a).todo[0] {
      GrantFinishesFirst(w, act, m, p);
    } else {
      GrantKeepsLaterJobs(w, act, job);
    }
  }

  lemma CoveredFrame(w: World, w': World, a: Actor, m: string, p: string)
    requires Covered(w, m, p) && GrantFrame(w, w', a)
    requires Granted(w, m, p) ==> Granted(w', m, p) || Holds(w', M(m), m, p) || Holds(w', P(p), m, p)
    requires Holds(w, a, m, p) ==> w'.PassOf(a).Failed? || Granted(w', m, p) || Holds(w', a, m, p)
    ensures Covered(w', m, p)
  {}

  lemma GrantCovered(w: World, act: Action, m: string, p: string)
    requires Inv(w) && Enabled(w, act) && act.Grant?
    ensures Covered(Step(w, act), m, p)
  {
    var w' := Step(w, act);
    GrantHasFrame(w, act);
    if Granted(w, m, p) {
      GrantKeepsOrHolds(w, act, m, p);
    }
    if Holds(w, act.a, m, p) {
      GrantFinishesJob(w, act, m, p);
    }
    CoveredFrame(w, w', act.a, m, p);
  }

  lemma StepKeepsInv(w: World, act: Action)
    requires Inv(w) && Enabled(w, act)
    ensures Inv(Step(w, act))
  {
    forall a
      ensures JobsFit(Step(w, act), a) && StageFits(Step(w, act), a)
    {
      if !act.Grant? {
        FitsKept(w, act, a);
      } else if a == act.a {
        assert JobsFit(w, a) && StageFits(w, a);
        GrantFitsJobs(w, act);
        GrantFitsStage(w, act);
      } else {
        GrantHasFrame(w, act);
        FitsFrame(w, Step(w, act), act.a, a);
      }
    }
    forall m, p
      ensures Covered(Step(w, act), m, p)
    {
      if act.Grant? { GrantCovered(w, act, m, p); } else { CoveredKept(w, act, m, p); }
    }
  }

  lemma {:induction false} RunKeepsInv(w: World, acts: seq<Action>)
    requires Inv(w) && Run(w, acts)
    ensures Inv(Last(w, acts))
    decreases |acts|
  {
    if acts != [] {
      StepKeepsInv(w, acts[0]);
      RunKeepsInv(Step(w, acts[0]), acts[1..]);
    }
  }

  /**
   * No grant is lost: start from any store with no pass running, stale and drifted objects included,
   * and interleave the passes in any way. Whenever a membership's latest pass ended Ready, a project's
   * latest pass ended ready and its ready status is stored, the grant the membership covers the project
   * with is in that project's workspace: its subject bound to its role, with the rules of that role.
   */
  lemma NoLostGrant(w: World, acts: seq<Action>, m: string, p: string)
    requires w.passes == map[] && Run(w, acts)
    requires var v := Last(w, acts);
      && v.PassOf(M(m)).Ended? && v.PassOf(P(p)).Ended?
      && m in v.memberships && p in v.projects && IsReady(v.projects[p])
      && (v.memberships[m].project == "" || v.memberships[m].project == p)
    ensures Granted(Last(w, acts), m, p)
    ensures var v := Last(w, acts);
      var spec := v.memberships[m];
      && (Home(p), m) in v.bindings
      && v.bindings[(Home(p), m)].roleRef == spec.role && v.bindings[(Home(p), m)].subject == spec.subject
      && (Home(p), spec.role) in v.roles && v.roles[(Home(p), spec.role)] == Rules(spec.role)
      && spec.role in {"view", "edit", "admin"} && spec.subject.kind in {"User", "Group"} && spec.subject.name != ""
  {
    RunKeepsInv(w, acts);
    assert Covered(Last(w, acts), m, p);
  }

  lemma {:induction false} RunThenRun(w: World, a: seq<Action>, b: seq<Action>)
    requires Run(w, a) && Run(Last(w, a), b)
    ensures Run(w, a + b) && Last(w, a + b) == Last(Last(w, a), b)
    decreases |a|
  {
    if a == [] {
      assert a + b == b;
    } else {
      RunThenRun(Step(w, a[0]), a[1..], b);
      assert (a + b)[1..] == a[1..] + b;
    }
  }

  lemma One(w: World, a: Action)
    requires Enabled(w, a)
    ensures Run(w, [a]) && Last(w, [a]) == Step(w, a)
  {
    var v := Step(w, a);
    assert [a][1..] == [];
    assert Run(v, []) && Last(v, []) == v;
  }

  lemma Two(w: World, a: Action, b: Action)
    requires Enabled(w, a) && Enabled(Step(w, a), b)
    ensures Run(w, [a, b]) && Last(w, [a, b]) == Step(Step(w, a), b)
  {
    One(w, a);
    One(Step(w, a), b);
    RunThenRun(w, [a], [b]);
    assert [a] + [b] == [a, b];
  }

  lemma WithTwice(w: World, a: Actor, p: Pass, q: Pass)
    ensures w.With(a, p).With(a, q) == w.With(a, q)
  {
    assert w.passes[a := p][a := q] == w.passes[a := q];
  }
}
