/**
 * Why the stored ready status decides: updateProjectStatus swallows a write conflict and the pass goes on, so a
 * project's pass can end while its status is not ready, and a membership created then does not find the project.
 */
module MissedGrant {
  import opened Options
  import opened Tenancy
  import opened FanOut
  import opened LonePass

  function ActorOf(act: Action): Option<Actor> {
    match act
    case CreateMembership(_, _) => None
    case CreateProject(_) => None
    case Start(a) => Some(a)
    case Abort(a) => Some(a)
    case ListProjects(name, _) => Some(M(name))
    case EnsureWorkspace(name, _) => Some(P(name))
    case EnsureFails(name, _) => Some(P(name))
    case WriteStatus(name, _) => Some(P(name))
    case MakeNamespace(name) => Some(P(name))
    case ListMemberships(name, _) => Some(P(name))
    case Grant(a) => Some(a)
    case Finish(a) => Some(a)
  }

  /** No step of the run belongs to the actor. */
  predicate Without(acts: seq<Action>, a: Actor) {
    forall act <- acts :: ActorOf(act) != Some(a)
  }

  /** The actor may start a pass. */
  predicate AtRest(w: World, a: Actor) {
    w.PassOf(a).Idle? || w.PassOf(a).Failed? || w.PassOf(a).Ended?
  }

  /** A membership created now lists the ready projects it covers. */
  lemma CreatedAndListed(w: World, m: string, spec: MembershipSpec, q: string)
    returns (acts: seq<Action>, jobs: seq<Job>)
    requires m !in w.memberships && AtRest(w, M(m))
    requires q in w.projects && IsReady(w.projects[q]) && Covers(spec, q)
    ensures acts == [CreateMembership(m, spec), Start(M(m))] + [ListProjects(m, jobs)] && Run(w, acts)
    ensures Last(w, acts) == w.(memberships := w.memberships[m := spec]).With(M(m), Granting(jobs, GetRole))
    ensures forall job <- jobs ::
      job.name == m && job.spec == spec && job.cluster.project in w.projects && IsReady(w.projects[job.cluster.project])
  {
    var targets := set p | p in w.projects && IsReady(w.projects[p]) && Covers(spec, p);
    jobs := JobsFor(m, spec, targets);
    assert Job(Home(q), m, spec) in jobs;
    var w0 := w.(memberships := w.memberships[m := spec]);
    Two(w, CreateMembership(m, spec), Start(M(m)));
    assert JobsOfMembership(w0.With(M(m), Got), m, jobs);
    WithTwice(w0, M(m), Got, Granting(jobs, GetRole));
    One(w0.With(M(m), Got), ListProjects(m, jobs));
    RunThenRun(w, [CreateMembership(m, spec), Start(M(m))], [ListProjects(m, jobs)]);
    acts := [CreateMembership(m, spec), Start(M(m))] + [ListProjects(m, jobs)];
  }

  /**
   * Whatever else runs: while the stored status of `p` is not ready, a membership created now can end its pass
   * Ready, for the sake of some ready project, without reaching `p`.
   */
  lemma MissesUnready(w: World, m: string, spec: MembershipSpec, p: string, q: string) returns (acts: seq<Action>)
    requires p in w.projects && !IsReady(w.projects[p]) && (Home(p), m) !in w.bindings
    requires m !in w.memberships && AtRest(w, M(m)) && Acceptable(spec)
    requires q in w.projects && IsReady(w.projects[q]) && Covers(spec, q)
    ensures Run(w, acts) && Without(acts, P(p))
    ensures Last(w, acts).memberships == w.memberships[m := spec] && Last(w, acts).PassOf(M(m)).Ended?
    ensures (Home(p), m) !in Last(w, acts).bindings
  {
    var jobs;
    acts, jobs := CreatedAndListed(w, m, spec, q);
    var v := Last(w, acts);
    forall job | job in jobs
      ensures Acceptable(job.spec) && KeyOf(job) != (Home(p), m)
    {}
    var rest := EndsPass(v, M(m), (Home(p), m));
    RunThenRun(w, acts, rest);
    acts := acts + rest;
  }

  lemma StepKeepsStatus(w: World, act: Action, p: string)
    requires Enabled(w, act) && ActorOf(act) != Some(P(p)) && p in w.projects
    ensures p in Step(w, act).projects && Step(w, act).projects[p] == w.projects[p]
    ensures Step(w, act).PassOf(P(p)) == w.PassOf(P(p))
  {}

  lemma {:induction false} RunKeepsStatus(w: World, acts: seq<Action>, p: string)
    requires Run(w, acts) && Without(acts, P(p)) && p in w.projects
    ensures p in Last(w, acts).projects && Last(w, acts).projects[p] == w.projects[p]
    ensures Last(w, acts).PassOf(P(p)) == w.PassOf(P(p))
    decreases |acts|
  {
    if acts != [] {
      assert acts[0] in acts;
      assert forall act <- acts[1..] :: act in acts;
      StepKeepsStatus(w, acts[0], p);
      RunKeepsStatus(Step(w, acts[0]), acts[1..], p);
    }
  }

  /** However the others go on while the project rests, once a new membership's pass ends Ready its grant is there. */
  ghost predicate ReachesNewMembership(w: World, m: string, spec: MembershipSpec, p: string) {
    forall acts | Run(w, acts) && Without(acts, P(p)) && EndsReadyWith(Last(w, acts), m, spec) ::
      Granted(Last(w, acts), m, p)
  }

  ghost predicate EndsReadyWith(w: World, m: string, spec: MembershipSpec) {
    m in w.memberships && w.memberships[m] == spec && w.PassOf(M(m)).Ended?
  }

  /**
   * A project whose latest pass has ended is reached by every covering membership to come exactly when its
   * stored status is ready, provided some ready project lets such a membership end Ready at all.
   */
  lemma StatusDecides(w: World, m: string, spec: MembershipSpec, p: string, q: string)
    requires Inv(w) && w.PassOf(P(p)).Ended? && p in w.projects && Covers(spec, p)
    requires m !in w.memberships && AtRest(w, M(m)) && Acceptable(spec) && (Home(p), m) !in w.bindings
    requires q in w.projects && IsReady(w.projects[q]) && Covers(spec, q)
    ensures IsReady(w.projects[p]) <==> ReachesNewMembership(w, m, spec, p)
  {
    if IsReady(w.projects[p]) {
      forall acts | Run(w, acts) && Without(acts, P(p)) && EndsReadyWith(Last(w, acts), m, spec)
        ensures Granted(Last(w, acts), m, p)
      {
        RunKeepsInv(w, acts);
        RunKeepsStatus(w, acts, p);
        assert Covered(Last(w, acts), m, p);
      }
    } else {
      var acts := MissesUnready(w, m, spec, p, q);
      assert Without(acts, P(p)) && EndsReadyWith(Last(w, acts), m, spec);
      assert !Granted(Last(w, acts), m, p);
    }
  }

  /** Whatever the store: a project pass whose ready status is not stored goes on to its end all the same. */
  lemma EndsUnready(w: World, p: string, key: (Cluster, string)) returns (acts: seq<Action>)
    requires w.passes == map[] && p in w.projects && key.1 !in w.memberships
    requires forall m <- w.memberships | Covers(w.memberships[m], p) :: Acceptable(w.memberships[m])
    ensures Run(w, acts) && Last(w, acts).PassOf(P(p)).Ended?
    ensures Last(w, acts).projects == w.projects && Last(w, acts).memberships == w.memberships
    ensures Last(w, acts).passes.Keys <= {P(p)} && (key in Last(w, acts).bindings <==> key in w.bindings)
  {
    var jobs;
    acts, jobs := ProjectLists(w, p, false);
    var v := Last(w, acts);
    var rest := EndsPass(v, P(p), key);
    OthersRest(v, rest, P(p));
    RunThenRun(w, acts, rest);
    acts := acts + rest;
  }

  lemma {:induction false} OthersRest(w: World, acts: seq<Action>, a: Actor)
    requires Run(w, acts) && OwnCalls(acts, a) && w.passes.Keys <= {a}
    ensures Last(w, acts).passes.Keys <= {a}
    decreases |acts|
  {
    if acts != [] {
      assert acts[0] in acts;
      assert forall act <- acts[1..] :: act in acts;
      OthersRest(Step(w, acts[0]), acts[1..], a);
    }
  }

  /**
   * So from any store with no pass running, a project not yet ready, another ready, and acceptable memberships:
   * both passes can end, and a new membership covering both misses the project.
   */
  lemma SwallowedConflictLosesGrant(w: World, m: string, spec: MembershipSpec, p: string, q: string)
    returns (acts: seq<Action>)
    requires w.passes == map[] && p in w.projects && !IsReady(w.projects[p]) && (Home(p), m) !in w.bindings
    requires forall n <- w.memberships | Covers(w.memberships[n], p) :: Acceptable(w.memberships[n])
    requires m !in w.memberships && Acceptable(spec) && Covers(spec, p)
    requires q in w.projects && IsReady(w.projects[q]) && Covers(spec, q)
    ensures Run(w, acts)
    ensures var v := Last(w, acts);
      && v.PassOf(M(m)).Ended? && v.PassOf(P(p)).Ended?
      && m in v.memberships && v.memberships[m] == spec && (Home(p), m) !in v.bindings
  {
    var first := EndsUnready(w, p, (Home(p), m));
    var v := Last(w, first);
    var second := MissesUnready(v, m, spec, p, q);
    RunKeepsStatus(v, second, p);
    RunThenRun(w, first, second);
    acts := first + second;
  }
}
