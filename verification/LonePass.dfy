/** What a pass lists, and does when left alone for a while: it gets its jobs done, one call of applyRBAC at a time. */
module LonePass {
  import opened Options
  import opened Tenancy
  import opened FanOut

  function KeyOf(job: Job): (Cluster, string) {
    (job.cluster, job.name)
  }

  /** The pass deleted a binding to replace it, and another pass wrote that binding first. */
  predicate Overtaken(w: World, a: Actor) {
    var pass := w.PassOf(a);
    pass.Granting? && pass.todo != [] && pass.at == RecreateBinding && KeyOf(pass.todo[0]) in w.bindings
  }

  /** A membership there will be listed with one job for each of some projects. */
  lemma {:induction false} JobsFor(m: string, spec: MembershipSpec, projects: set<string>) returns (jobs: seq<Job>)
    ensures forall p :: Job(Home(p), m, spec) in jobs <==> p in projects
    ensures forall job <- jobs :: job.name == m && job.spec == spec && job.cluster.project in projects
    decreases projects
  {
    jobs := [];
    if projects != {} {
      var p :| p in projects;
      var rest := JobsFor(m, spec, projects - {p});
      jobs := [Job(Home(p), m, spec)] + rest;
    }
  }

  /** A project will list one job for each covering membership. */
  lemma {:induction false} JobsIn(p: string, memberships: map<string, MembershipSpec>, names: set<string>)
    returns (jobs: seq<Job>)
    requires names <= memberships.Keys
    ensures forall m, spec :: Job(Home(p), m, spec) in jobs <==> m in names && spec == memberships[m]
    ensures forall job <- jobs :: job.name in names && job.cluster == Home(p)
    decreases names
  {
    jobs := [];
    if names != {} {
      var m :| m in names;
      var rest := JobsIn(p, memberships, names - {m});
      jobs := [Job(Home(p), m, memberships[m])] + rest;
    }
  }

  lemma ListedBy(w: World, p: string) returns (jobs: seq<Job>)
    ensures JobsOfProject(w, p, jobs)
    ensures forall job <- jobs ::
      job.cluster == Home(p) && job.name in w.memberships && job.spec == w.memberships[job.name] && Covers(job.spec, p)
    ensures forall m <- w.memberships | Covers(w.memberships[m], p) :: Job(Home(p), m, w.memberships[m]) in jobs
  {
    jobs := JobsIn(p, w.memberships, set m | m in w.memberships && Covers(w.memberships[m], p));
    forall job | job in jobs
      ensures job.spec == w.memberships[job.name]
    {
      assert Job(Home(p), job.name, job.spec) in jobs;
    }
  }

  function AfterPublishing(w: World, p: string, stored: bool): World {
    if stored then w.(projects := w.projects[p := ProjectStatus(Ready, Some(Home(p)))]) else w
  }

  /** A project's first pass up to its list, its ready status stored or not. */
  lemma ProjectPublishes(w: World, p: string, stored: bool) returns (acts: seq<Action>)
    requires w.passes == map[] && p in w.projects
    ensures Run(w, acts) && Last(w, acts) == AfterPublishing(w, p, stored).With(P(p), Namespaced)
  {
    var ready := AfterPublishing(w, p, stored);
    WithTwice(w, P(p), Got, Ensured(true));
    Two(w, Start(P(p)), EnsureWorkspace(p, true));
    WithTwice(ready, P(p), Ensured(true), Published);
    WithTwice(ready, P(p), Published, Namespaced);
    Two(w.With(P(p), Ensured(true)), WriteStatus(p, stored), MakeNamespace(p));
    var a, b := [Start(P(p)), EnsureWorkspace(p, true)], [WriteStatus(p, stored), MakeNamespace(p)];
    RunThenRun(w, a, b);
    acts := a + b;
  }

  lemma ProjectLists(w: World, p: string, stored: bool) returns (acts: seq<Action>, jobs: seq<Job>)
    requires w.passes == map[] && p in w.projects
    ensures Run(w, acts) && Last(w, acts) == AfterPublishing(w, p, stored).With(P(p), Granting(jobs, GetRole))
    ensures forall job <- jobs ::
      job.cluster == Home(p) && job.name in w.memberships && job.spec == w.memberships[job.name] && Covers(job.spec, p)
    ensures forall m <- w.memberships | Covers(w.memberships[m], p) :: Job(Home(p), m, w.memberships[m]) in jobs
  {
    acts := ProjectPublishes(w, p, stored);
    var v := Last(w, acts);
    jobs := ListedBy(v, p);
    One(v, ListMemberships(p, jobs));
    WithTwice(AfterPublishing(w, p, stored), P(p), Namespaced, Granting(jobs, GetRole));
    RunThenRun(w, acts, [ListMemberships(p, jobs)]);
    acts := acts + [ListMemberships(p, jobs)];
  }

  /** How many client calls the first job may still take. */
  function CallsLeft(at: Stage): nat {
    match at
    case GetRole => 4
    case CreateRole => 3
    case UpdateRole => 3
    case GetBinding => 2
    case DeleteBinding => 1
    case _ => 0
  }

  predicate OnlyGrants(acts: seq<Action>, a: Actor) {
    forall act <- acts :: act == Grant(a)
  }

  /** Specs and statuses are as they were, and so are bindings under keys other than `key`. */
  ghost predicate Undisturbed(w: World, w': World, key: (Cluster, string)) {
    && w'.memberships == w.memberships && w'.projects == w.projects
    && forall k | k != key :: k in w'.bindings <==> k in w.bindings
  }

  lemma CallProgress(roles: map<(Cluster, string), Rules>, bindings: map<(Cluster, string), Binding>, todo: seq<Job>,
                     at: Stage)
    requires todo != [] && Acceptable(todo[0].spec) && !(at == RecreateBinding && KeyOf(todo[0]) in bindings)
    ensures var o, key := Call(roles, bindings, todo, at), KeyOf(todo[0]);
      && o.next.Granting?
      && (forall k | k != key :: k in o.bindings <==> k in bindings)
      && if o.next.todo == todo && o.next.at != GetRole
         then CallsLeft(o.next.at) < CallsLeft(at) && !(o.next.at == RecreateBinding && key in o.bindings)
         else o.next == Granting(todo[1..], GetRole) && key in o.bindings
  {}

  /** One call brings an acceptable first job on, or finishes it. */
  lemma CallMovesOn(w: World, a: Actor)
    requires w.PassOf(a).Granting? && w.PassOf(a).todo != [] && Acceptable(w.PassOf(a).todo[0].spec) && !Overtaken(w, a)
    ensures var v, key := Step(w, Grant(a)), KeyOf(w.PassOf(a).todo[0]);
      && v.PassOf(a).Granting? && Undisturbed(w, v, key)
      && if v.PassOf(a).todo == w.PassOf(a).todo && v.PassOf(a).at != GetRole
         then CallsLeft(v.PassOf(a).at) < CallsLeft(w.PassOf(a).at) && !Overtaken(v, a)
         else v.PassOf(a) == Granting(w.PassOf(a).todo[1..], GetRole) && key in v.bindings
  {
    var pass := w.PassOf(a);
    CallProgress(w.roles, w.bindings, pass.todo, pass.at);
    var o := Call(w.roles, w.bindings, pass.todo, pass.at);
    assert Step(w, Grant(a)) == w.(roles := o.roles, bindings := o.bindings).With(a, o.next);
  }

  /** Left alone, a pass gets its first job done. */
  lemma {:induction false} FinishesJob(w: World, a: Actor) returns (acts: seq<Action>)
    requires w.PassOf(a).Granting? && w.PassOf(a).todo != [] && Acceptable(w.PassOf(a).todo[0].spec) && !Overtaken(w, a)
    ensures Run(w, acts) && OnlyGrants(acts, a)
    ensures Last(w, acts).PassOf(a) == Granting(w.PassOf(a).todo[1..], GetRole)
    ensures KeyOf(w.PassOf(a).todo[0]) in Last(w, acts).bindings
    ensures Undisturbed(w, Last(w, acts), KeyOf(w.PassOf(a).todo[0]))
    decreases CallsLeft(w.PassOf(a).at)
  {
    var v := Step(w, Grant(a));
    CallMovesOn(w, a);
    One(w, Grant(a));
    acts := [Grant(a)];
    if v.PassOf(a).todo == w.PassOf(a).todo && v.PassOf(a).at != GetRole {
      var more := FinishesJob(v, a);
      RunThenRun(w, acts, more);
      acts := acts + more;
    }
  }

  /** A role it does not know, another kind of subject or one without a name: applyRBAC fails and binds nothing. */
  lemma {:induction false} RefusesJob(w: World, a: Actor) returns (acts: seq<Action>)
    requires w.PassOf(a).Granting? && w.PassOf(a).todo != []
    requires w.PassOf(a).at in {GetRole, CreateRole, UpdateRole, GetBinding}
    requires var spec := w.PassOf(a).todo[0].spec;
      spec.role !in {"view", "edit", "admin"} || spec.subject.kind !in {"User", "Group"} || spec.subject.name == ""
    ensures Run(w, acts) && OnlyGrants(acts, a)
    ensures Last(w, acts).PassOf(a).Failed? && Last(w, acts).bindings == w.bindings
    decreases CallsLeft(w.PassOf(a).at)
  {
    var v := Step(w, Grant(a));
    One(w, Grant(a));
    acts := [Grant(a)];
    if !v.PassOf(a).Failed? {
      var more := RefusesJob(v, a);
      RunThenRun(w, acts, more);
      acts := acts + more;
    }
  }

  /** Left alone, a pass gets all its jobs done, and no other key is bound for it. */
  lemma {:induction false} FinishesAll(w: World, a: Actor, key: (Cluster, string)) returns (acts: seq<Action>)
    requires w.PassOf(a).Granting? && !Overtaken(w, a)
    requires forall job <- w.PassOf(a).todo :: Acceptable(job.spec) && KeyOf(job) != key
    ensures Run(w, acts) && OnlyGrants(acts, a)
    ensures Last(w, acts).PassOf(a).Granting? && Last(w, acts).PassOf(a).todo == []
    ensures Last(w, acts).memberships == w.memberships && Last(w, acts).projects == w.projects
    ensures key in Last(w, acts).bindings <==> key in w.bindings
    decreases |w.PassOf(a).todo|
  {
    var todo := w.PassOf(a).todo;
    if todo == [] {
      acts := [];
    } else {
      acts := FinishesJob(w, a);
      var v := Last(w, acts);
      assert forall job <- todo[1..] :: job in todo;
      assert todo[0] in todo;
      var more := FinishesAll(v, a, key);
      RunThenRun(w, acts, more);
      acts := acts + more;
    }
  }

  predicate OwnCalls(acts: seq<Action>, a: Actor) {
    forall act <- acts :: act == Grant(a) || act == Finish(a)
  }

  /** Left alone past its list, a pass comes to its end. */
  lemma EndsPass(w: World, a: Actor, key: (Cluster, string)) returns (acts: seq<Action>)
    requires w.PassOf(a).Granting? && !Overtaken(w, a)
    requires forall job <- w.PassOf(a).todo :: Acceptable(job.spec) && KeyOf(job) != key
    ensures Run(w, acts) && OwnCalls(acts, a) && Last(w, acts).PassOf(a).Ended?
    ensures Last(w, acts).memberships == w.memberships && Last(w, acts).projects == w.projects
    ensures key in Last(w, acts).bindings <==> key in w.bindings
  {
    var grants := FinishesAll(w, a, key);
    One(Last(w, grants), Finish(a));
    RunThenRun(w, grants, [Finish(a)]);
    acts := grants + [Finish(a)];
  }
}
