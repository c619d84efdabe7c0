/** What the interleaved passes write at all: right bindings for covered projects, right roles, true statuses. */
module GrantScope {
  import opened Options
  import opened Tenancy
  import opened FanOut

  /** Every job is for a project its membership covers. */
  ghost predicate JobsCovered(w: World, a: Actor) {
    w.PassOf(a).Granting? ==> forall job <- w.PassOf(a).todo ::
      && job.name in w.memberships && job.spec == w.memberships[job.name]
      && (job.spec.project == "" || job.spec.project == job.cluster.project)
  }

  /** The binding is an old one, or gives a covering membership's subject its role. */
  ghost predicate BindingInScope(start: World, w: World, k: (Cluster, string)) {
    k in w.bindings ==>
      (k in start.bindings && w.bindings[k] == start.bindings[k])
      || (k.1 in w.memberships
          && var spec := w.memberships[k.1];
             && (spec.project == "" || spec.project == k.0.project)
             && w.bindings[k] == Binding(spec.role, spec.subject) && Acceptable(spec))
  }

  /** The role is an old one, or has the rules of its name. */
  ghost predicate RoleInScope(start: World, w: World, k: (Cluster, string)) {
    k in w.roles ==> (k in start.roles && w.roles[k] == start.roles[k]) || RoleRight(w, k.0, k.1)
  }

  ghost predicate InScope(start: World, w: World) {
    && (forall a :: JobsCovered(w, a))
    && (forall k :: BindingInScope(start, w, k) && RoleInScope(start, w, k))
  }

  /** A membership pass goes on to exactly the ready projects it covers, and fails when there is none. */
  lemma ListedExactly(w: World, m: string, jobs: seq<Job>)
    requires Enabled(w, ListProjects(m, jobs))
    ensures forall p, spec :: Job(Home(p), m, spec) in jobs <==>
      && p in w.projects && w.projects[p].phase == Ready && w.projects[p].cluster.Some?
      && spec == w.memberships[m] && (spec.project == "" || spec.project == p)
    ensures var pass := Step(w, ListProjects(m, jobs)).PassOf(M(m));
      && (pass.Failed? <==> forall p :: Job(Home(p), m, w.memberships[m]) !in jobs)
      && (!pass.Failed? ==> pass == Granting(jobs, GetRole))
  {
    if jobs != [] {
      var job := jobs[0];
      assert job == Job(Home(job.cluster.project), m, w.memberships[m]);
    }
  }

  lemma StepKeepsCovered(w: World, act: Action, a: Actor)
    requires Enabled(w, act) && JobsCovered(w, a)
    ensures JobsCovered(Step(w, act), a)
  {
    if act.Grant? && act.a == a {
      assert forall job <- w.PassOf(a).todo[1..] :: job in w.PassOf(a).todo;
    } else if act.ListProjects? {
      forall job | job in act.jobs
        ensures Covers(job.spec, job.cluster.project)
      {
        assert job == Job(Home(job.cluster.project), act.name, w.memberships[act.name]);
      }
    } else if act.ListMemberships? {
      forall job | job in act.jobs
        ensures job.spec == w.memberships[job.name] && Covers(job.spec, act.name)
      {
        assert job == Job(Home(act.name), job.name, job.spec);
      }
    }
  }

  lemma StepKeepsScope(start: World, w: World, act: Action)
    requires InScope(start, w) && Enabled(w, act)
    ensures InScope(start, Step(w, act))
  {
    forall a
      ensures JobsCovered(Step(w, act), a)
    {
      assert JobsCovered(w, a);
      StepKeepsCovered(w, act, a);
    }
    forall k
      ensures BindingInScope(start, Step(w, act), k) && RoleInScope(start, Step(w, act), k)
    {
      assert BindingInScope(start, w, k) && RoleInScope(start, w, k);
      if act.Grant? {
        assert JobsCovered(w, act.a) && w.PassOf(act.a).todo[0] in w.PassOf(act.a).todo;
      }
    }
  }

  lemma {:induction false} RunKeepsScope(start: World, w: World, acts: seq<Action>)
    requires InScope(start, w) && Run(w, acts)
    ensures InScope(start, Last(w, acts))
    decreases |acts|
  {
    if acts != [] {
      StepKeepsScope(start, w, acts[0]);
      RunKeepsScope(start, Step(w, acts[0]), acts[1..]);
    }
  }

  /**
   * Whatever the interleaving, every binding a run adds or changes binds the subject of a membership that covers
   * the project to the role of that membership, and every role it adds or changes gets the rules of its name.
   */
  lemma RunBindsCovered(w: World, acts: seq<Action>, p: string, m: string)
    requires w.passes == map[] && Run(w, acts)
    ensures var v, k := Last(w, acts), (Home(p), m);
      k in v.bindings && !(k in w.bindings && w.bindings[k] == v.bindings[k]) ==>
        && m in v.memberships && (v.memberships[m].project == "" || v.memberships[m].project == p)
        && v.bindings[k] == Binding(v.memberships[m].role, v.memberships[m].subject)
    ensures forall role ::
      var v, k := Last(w, acts), (Home(p), role);
      k in v.roles && !(k in w.roles && w.roles[k] == v.roles[k]) ==>
        v.roles[k] == Rules(role) && role in {"view", "edit", "admin"}
  {
    RunKeepsScope(w, w, acts);
    assert BindingInScope(w, Last(w, acts), (Home(p), m));
    assert forall role :: RoleInScope(w, Last(w, acts), (Home(p), role));
  }

  /** A project becomes ready only by the status write of a pass that saw its workspace ready. */
  lemma StatusChanges(w: World, act: Action, p: string)
    requires Enabled(w, act) && p in w.projects
    ensures p in Step(w, act).projects
    ensures var before, after := w.projects[p], Step(w, act).projects[p];
      && (after.phase == Ready && after != before ==> act == WriteStatus(p, true) && w.PassOf(P(p)) == Ensured(true))
      && (act == WriteStatus(p, true) ==> after.cluster == Some(Home(p)))
      && (act == WriteStatus(p, true) ==> (after.phase == Ready <==> w.PassOf(P(p)) == Ensured(true)))
      && (act == EnsureFails(p, true) ==> after.phase == Error && after.cluster == None)
      && (after != before ==> act == WriteStatus(p, true) || act == EnsureFails(p, true))
  {}

  /** Every ready project's status names its own workspace's cluster, which is where targetClusters sends grants. */
  ghost predicate ReadyNamesHome(w: World) {
    forall p <- w.projects :: IsReady(w.projects[p]) ==> w.projects[p].cluster == Some(Home(p))
  }

  lemma StepNamesHome(w: World, act: Action)
    requires Enabled(w, act) && ReadyNamesHome(w)
    ensures ReadyNamesHome(Step(w, act))
  {
    forall p | p in Step(w, act).projects && IsReady(Step(w, act).projects[p])
      ensures Step(w, act).projects[p].cluster == Some(Home(p))
    {
      if p in w.projects {
        StatusChanges(w, act, p);
      }
    }
  }

  lemma StepReadies(w: World, act: Action, p: string)
    requires Enabled(w, act)
    requires p in Step(w, act).projects && Step(w, act).projects[p].phase == Ready
    ensures (p in w.projects && w.projects[p].phase == Ready) || w.PassOf(P(p)) == Ensured(true)
  {
    if p in w.projects {
      StatusChanges(w, act, p);
    }
  }

  /** Only a look that finds the workspace ready takes a project's pass to where it will store that. */
  lemma StepEnsures(w: World, act: Action, p: string)
    requires Enabled(w, act) && Step(w, act).PassOf(P(p)) == Ensured(true)
    ensures w.PassOf(P(p)) == Ensured(true) || act == EnsureWorkspace(p, true)
  {}

  /** The pass of a project is past its status write. */
  predicate PastStatus(pass: Pass) {
    pass.Published? || pass.Namespaced? || PastList(pass)
  }

  lemma StepPublishes(w: World, act: Action, p: string)
    requires Enabled(w, act) && PastStatus(Step(w, act).PassOf(P(p)))
    ensures PastStatus(w.PassOf(P(p))) || w.PassOf(P(p)) == Ensured(true)
  {}

  /** A project pass grants only in a workspace it saw ready: otherwise it stops at its status write. */
  lemma {:induction false} RunPublishes(w: World, acts: seq<Action>, p: string)
    requires Run(w, acts) && PastStatus(Last(w, acts).PassOf(P(p)))
    ensures PastStatus(w.PassOf(P(p))) || w.PassOf(P(p)) == Ensured(true) || EnsureWorkspace(p, true) in acts
    decreases |acts|
  {
    if acts != [] {
      var v := Step(w, acts[0]);
      RunPublishes(v, acts[1..], p);
      if EnsureWorkspace(p, true) !in acts[1..] {
        if v.PassOf(P(p)) == Ensured(true) {
          StepEnsures(w, acts[0], p);
        } else {
          StepPublishes(w, acts[0], p);
        }
      }
    }
  }

  lemma {:induction false} RunNamesHome(w: World, acts: seq<Action>)
    requires Run(w, acts) && ReadyNamesHome(w)
    ensures ReadyNamesHome(Last(w, acts))
    decreases |acts|
  {
    if acts != [] {
      StepNamesHome(w, acts[0]);
      RunNamesHome(Step(w, acts[0]), acts[1..]);
    }
  }

  /** A project that ends up ready was so at the start, or some pass of it saw its workspace ready. */
  lemma {:induction false} RunReadies(w: World, acts: seq<Action>, p: string)
    requires Run(w, acts) && p in Last(w, acts).projects && Last(w, acts).projects[p].phase == Ready
    ensures (p in w.projects && w.projects[p].phase == Ready)
      || w.PassOf(P(p)) == Ensured(true) || EnsureWorkspace(p, true) in acts
    decreases |acts|
  {
    if acts != [] {
      var v := Step(w, acts[0]);
      RunReadies(v, acts[1..], p);
      if EnsureWorkspace(p, true) !in acts[1..] {
        if v.PassOf(P(p)) == Ensured(true) {
          StepEnsures(w, acts[0], p);
        } else {
          StepReadies(w, acts[0], p);
        }
      }
    }
  }
}
