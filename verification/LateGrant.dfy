/**
 * Revocation while other passes run: a pass that listed memberships before one was revoked still holds its
 * job. A revoked membership stays revoked in every continuation exactly when no pass will get to such a job.
 */
module LateGrant {
  import opened Options
  import opened Tenancy
  import opened FanOut
  import opened LonePass

  /** Job `i` of the pass is for `m`, no job up to it makes the pass fail, and the pass was not overtaken. */
  predicate LiveJob(w: World, a: Actor, m: string, i: nat) {
    var pass := w.PassOf(a);
    && pass.Granting? && i < |pass.todo| && pass.todo[i].name == m && !Overtaken(w, a)
    && forall j | 0 <= j <= i :: Acceptable(pass.todo[j].spec)
  }

  ghost predicate HasLiveJob(w: World, m: string) {
    exists a, i :: LiveJob(w, a, m, i)
  }

  ghost predicate Unbound(w: World, m: string) {
    forall c :: (c, m) !in w.bindings
  }

  /** What a completed revocation leaves. */
  ghost predicate Revoked(w: World, m: string) {
    m !in w.memberships && Unbound(w, m)
  }

  /** Nobody creates a membership of that name again. */
  predicate NotRecreated(acts: seq<Action>, m: string) {
    forall act <- acts :: !(act.CreateMembership? && act.name == m)
  }

  type Specs = map<string, MembershipSpec>

  /** Only the passes of a job's membership and of its project hold it, with the membership's one spec. */
  ghost predicate JobsKnown(w: World, specs: Specs, a: Actor) {
    w.PassOf(a).Granting? ==> forall job <- w.PassOf(a).todo ::
      && (a == M(job.name) || a == P(job.cluster.project))
      && job.name in specs && job.spec == specs[job.name]
  }

  ghost predicate Deletes(w: World, a: Actor, key: (Cluster, string)) {
    var pass := w.PassOf(a);
    pass.Granting? && pass.todo != [] && pass.at == DeleteBinding && KeyOf(pass.todo[0]) == key
  }

  /** The binding is as desired, and nobody is about to delete it. */
  ghost predicate AsDesired(w: World, specs: Specs, key: (Cluster, string)) {
    && key.1 in specs && key in w.bindings && IsFor(w.bindings[key], specs[key.1])
    && forall b :: !Deletes(w, b, key)
  }

  /** A pass was overtaken only by the other one with the same wish. */
  ghost predicate OvertakenWell(w: World, specs: Specs, a: Actor) {
    Overtaken(w, a) ==> AsDesired(w, specs, KeyOf(w.PassOf(a).todo[0]))
  }

  /** What holds of jobs and replacements in every reachable world; `specs` may know revoked memberships too. */
  ghost predicate Orderly(w: World, specs: Specs) {
    && (forall m <- w.memberships :: m in specs && specs[m] == w.memberships[m])
    && forall a :: JobsKnown(w, specs, a) && OvertakenWell(w, specs, a)
  }

  ghost predicate FirstKey(w: World, a: Actor, key: (Cluster, string)) {
    w.PassOf(a).Granting? && w.PassOf(a).todo != [] && KeyOf(w.PassOf(a).todo[0]) == key
  }

  /** Two passes at most hold jobs under one key. */
  lemma TwoHolders(w: World, specs: Specs, a: Actor, b: Actor, c: Actor, key: (Cluster, string))
    requires Orderly(w, specs) && FirstKey(w, a, key) && FirstKey(w, b, key) && FirstKey(w, c, key)
    ensures a == b || b == c || a == c
  {
    assert JobsKnown(w, specs, a) && JobsKnown(w, specs, b) && JobsKnown(w, specs, c);
    assert w.PassOf(a).todo[0] in w.PassOf(a).todo && w.PassOf(b).todo[0] in w.PassOf(b).todo;
    assert w.PassOf(c).todo[0] in w.PassOf(c).todo;
  }

  /** Only a call for the key itself can bind it, with its own desired content, and then goes on to the next job. */
  lemma BoundByItsJob(w: World, act: Action, key: (Cluster, string))
    requires Enabled(w, act) && key !in w.bindings && key in Step(w, act).bindings
    ensures act.Grant? && FirstKey(w, act.a, key)
    ensures IsFor(Step(w, act).bindings[key], w.PassOf(act.a).todo[0].spec)
    ensures Step(w, act).PassOf(act.a).Granting? ==> Step(w, act).PassOf(act.a).at == GetRole
    ensures forall b | b != act.a :: Step(w, act).PassOf(b) == w.PassOf(b)
  {}

  /** A call leaves a binding it does not want to delete; and wants to delete it only if it is not as it desires. */
  lemma CallLeavesBinding(w: World, a: Actor, key: (Cluster, string))
    requires Enabled(w, Grant(a)) && key in w.bindings && !Deletes(w, a, key)
    requires FirstKey(w, a, key) ==> IsFor(w.bindings[key], w.PassOf(a).todo[0].spec)
    ensures key in Step(w, Grant(a)).bindings && Step(w, Grant(a)).bindings[key] == w.bindings[key]
    ensures !Deletes(Step(w, Grant(a)), a, key)
    ensures forall b | b != a :: Step(w, Grant(a)).PassOf(b) == w.PassOf(b)
  {}

  lemma QuietStepLeaves(w: World, act: Action, key: (Cluster, string), b: Actor)
    requires Enabled(w, act) && !act.Grant? && !Deletes(w, b, key)
    ensures !Deletes(Step(w, act), b, key)
  {}

  /** A binding as desired is never changed, and nobody sets out to delete it. */
  lemma DesiredStays(w: World, act: Action, specs: Specs, key: (Cluster, string))
    requires Orderly(w, specs) && Enabled(w, act) && AsDesired(w, specs, key)
    ensures AsDesired(Step(w, act), specs, key)
  {
    var w' := Step(w, act);
    if act.Grant? {
      assert !Deletes(w, act.a, key) && JobsKnown(w, specs, act.a);
      assert w.PassOf(act.a).todo[0] in w.PassOf(act.a).todo;
      CallLeavesBinding(w, act.a, key);
    }
    assert !act.Grant? ==> w'.bindings == w.bindings;
    forall b
      ensures !Deletes(w', b, key)
    {
      assert !Deletes(w, b, key);
      if !act.Grant? {
        QuietStepLeaves(w, act, key, b);
      }
    }
  }

  lemma StepKeepsJobs(w: World, act: Action, specs: Specs, a: Actor)
    requires Orderly(w, specs) && Enabled(w, act)
    ensures JobsKnown(Step(w, act), specs, a)
  {
    assert JobsKnown(w, specs, a);
    if act.Grant? && act.a == a {
      assert forall job <- w.PassOf(a).todo[1..] :: job in w.PassOf(a).todo;
    }
  }

  lemma StepKeepsOvertaken(w: World, act: Action, specs: Specs, a: Actor)
    requires Orderly(w, specs) && Enabled(w, act)
    ensures OvertakenWell(Step(w, act), specs, a)
  {
    var w' := Step(w, act);
    if Overtaken(w', a) {
      var key := KeyOf(w'.PassOf(a).todo[0]);
      assert OvertakenWell(w, specs, a);
      if Overtaken(w, a) {
        DesiredStays(w, act, specs, key);
      } else {
        NewlyOvertaken(w, act, specs, a, key);
      }
    }
  }

  lemma NewlyOvertaken(w: World, act: Action, specs: Specs, a: Actor, key: (Cluster, string))
    requires Orderly(w, specs) && Enabled(w, act) && !Overtaken(w, a)
    requires Overtaken(Step(w, act), a) && KeyOf(Step(w, act).PassOf(a).todo[0]) == key
    ensures AsDesired(Step(w, act), specs, key)
  {
    var w' := Step(w, act);
    assert key !in w.bindings;
    BoundByItsJob(w, act, key);
    var b := act.a;
    assert JobsKnown(w, specs, b) && w.PassOf(b).todo[0] in w.PassOf(b).todo;
    forall c
      ensures !Deletes(w', c, key)
    {
      if c != a && c != b && Deletes(w', c, key) {
        TwoHolders(w, specs, a, b, c, key);
      }
    }
  }

  /** `specs` with what the step creates. */
  function SpecsAfter(specs: Specs, act: Action): Specs {
    if act.CreateMembership? then specs[act.name := act.spec] else specs
  }

  lemma StepKeepsOrderly(w: World, act: Action, specs: Specs)
    requires Orderly(w, specs) && Enabled(w, act) && (act.CreateMembership? ==> act.name !in specs)
    ensures Orderly(Step(w, act), SpecsAfter(specs, act))
  {
    var w' := Step(w, act);
    forall a
      ensures JobsKnown(w', SpecsAfter(specs, act), a) && OvertakenWell(w', SpecsAfter(specs, act), a)
    {
      StepKeepsJobs(w, act, specs, a);
      StepKeepsOvertaken(w, act, specs, a);
    }
  }

  /** From a store with no pass running, every world is orderly. */
  lemma {:induction false} RunKeepsOrderly(w: World, acts: seq<Action>)
    requires Run(w, acts) && Orderly(w, w.memberships)
    ensures Orderly(Last(w, acts), Last(w, acts).memberships)
    decreases |acts|
  {
    if acts != [] {
      StepKeepsOrderly(w, acts[0], w.memberships);
      assert SpecsAfter(w.memberships, acts[0]) == Step(w, acts[0]).memberships;
      RunKeepsOrderly(Step(w, acts[0]), acts[1..]);
    }
  }

  /** What a revocation leaves of a world: the membership gone and its bindings with it. */
  function WithoutMembership(w: World, m: string): World {
    w.(memberships := w.memberships - {m}, bindings := map k | k in w.bindings && k.1 != m :: w.bindings[k])
  }

  lemma RevocationIsOrderly(w: World, m: string)
    requires Orderly(w, w.memberships) && m in w.memberships
    ensures Revoked(WithoutMembership(w, m), m) && Orderly(WithoutMembership(w, m), w.memberships)
    ensures w.memberships == WithoutMembership(w, m).memberships[m := w.memberships[m]]
  {
    var v := WithoutMembership(w, m);
    forall a
      ensures JobsKnown(v, w.memberships, a) && OvertakenWell(v, w.memberships, a)
    {
      assert JobsKnown(w, w.memberships, a) && OvertakenWell(w, w.memberships, a);
      if Overtaken(v, a) {
        var key := KeyOf(v.PassOf(a).todo[0]);
        assert AsDesired(w, w.memberships, key);
        assert forall b :: Deletes(v, b, key) == Deletes(w, b, key);
      }
    }
  }

  /** A live job after a step was live before it. */
  lemma LiveJobsAreOld(w: World, act: Action, specs: Specs, a: Actor, m: string, i: nat)
    requires Orderly(w, specs) && Enabled(w, act) && Revoked(w, m) && LiveJob(Step(w, act), a, m, i)
    ensures HasLiveJob(w, m)
  {
    if act.Grant? && act.a == a {
      OwnLiveJobIsOld(w, a, m, i);
    } else {
      OthersLiveJobIsOld(w, act, a, m, i);
      assert OvertakenWell(w, specs, a);
      if Overtaken(w, a) {
        DesiredStays(w, act, specs, KeyOf(w.PassOf(a).todo[0]));
      }
      assert LiveJob(w, a, m, i);
    }
  }

  lemma OwnLiveJobIsOld(w: World, a: Actor, m: string, i: nat)
    requires Enabled(w, Grant(a)) && LiveJob(Step(w, Grant(a)), a, m, i)
    ensures HasLiveJob(w, m)
  {
    var before, todo := w.PassOf(a).todo, Step(w, Grant(a)).PassOf(a).todo;
    if todo == before {
      assert LiveJob(w, a, m, i);
    } else {
      assert todo == before[1..] && Acceptable(before[0].spec);
      assert forall j | 0 < j <= i + 1 :: before[j] == todo[j - 1];
      assert LiveJob(w, a, m, i + 1);
    }
  }

  /** Nobody lists a membership that is not there. */
  lemma OthersLiveJobIsOld(w: World, act: Action, a: Actor, m: string, i: nat)
    requires Enabled(w, act) && act != Grant(a) && m !in w.memberships && LiveJob(Step(w, act), a, m, i)
    ensures w.PassOf(a) == Step(w, act).PassOf(a)
  {
    var todo := Step(w, act).PassOf(a).todo;
    assert todo[i] in todo;
  }

  lemma StepStaysRevoked(w: World, act: Action, specs: Specs, m: string)
    requires Orderly(w, specs) && Enabled(w, act) && Revoked(w, m) && !HasLiveJob(w, m)
    requires !(act.CreateMembership? && act.name == m)
    ensures Revoked(Step(w, act), m) && !HasLiveJob(Step(w, act), m)
  {
    if a, i :| LiveJob(Step(w, act), a, m, i) {
      LiveJobsAreOld(w, act, specs, a, m, i);
    }
    if act.Grant? {
      assert !LiveJob(w, act.a, m, 0);
    }
  }

  lemma StepKeepsRevocation(w: World, act: Action, m: string, spec: MembershipSpec)
    requires Orderly(w, w.memberships[m := spec]) && Enabled(w, act) && Revoked(w, m) && !HasLiveJob(w, m)
    requires !(act.CreateMembership? && act.name == m)
    ensures Orderly(Step(w, act), Step(w, act).memberships[m := spec])
    ensures Revoked(Step(w, act), m) && !HasLiveJob(Step(w, act), m)
  {
    var specs := w.memberships[m := spec];
    StepStaysRevoked(w, act, specs, m);
    StepKeepsOrderly(w, act, specs);
    assert SpecsAfter(specs, act) == Step(w, act).memberships[m := spec];
  }

  lemma {:induction false} StaysRevoked(w: World, acts: seq<Action>, m: string, spec: MembershipSpec)
    requires Orderly(w, w.memberships[m := spec])
    requires Run(w, acts) && Revoked(w, m) && !HasLiveJob(w, m) && NotRecreated(acts, m)
    ensures Revoked(Last(w, acts), m)
    decreases |acts|
  {
    if acts != [] {
      assert acts[0] in acts;
      assert forall act <- acts[1..] :: act in acts;
      StepKeepsRevocation(w, acts[0], m, spec);
      StaysRevoked(Step(w, acts[0]), acts[1..], m, spec);
    }
  }

  /** Left alone, a pass gets to a live job and binds the membership it is for. */
  lemma {:induction false} BindsLate(w: World, a: Actor, m: string, i: nat) returns (acts: seq<Action>)
    requires LiveJob(w, a, m, i)
    ensures Run(w, acts) && OnlyGrants(acts, a) && !Unbound(Last(w, acts), m)
    decreases i
  {
    var todo := w.PassOf(a).todo;
    acts := FinishesJob(w, a);
    if i == 0 {
      assert (todo[0].cluster, m) in Last(w, acts).bindings;
    } else {
      assert LiveJob(Last(w, acts), a, m, i - 1);
      var more := BindsLate(Last(w, acts), a, m, i - 1);
      RunThenRun(w, acts, more);
      acts := acts + more;
    }
  }

  /** Whatever the running passes do next, the membership stays revoked. */
  ghost predicate RevokedForGood(w: World, m: string) {
    forall acts | Run(w, acts) && NotRecreated(acts, m) :: Unbound(Last(w, acts), m)
  }

  /** A revocation lasts exactly when no running pass will still get to a job for the membership. */
  lemma RevocationLasts(w: World, m: string, spec: MembershipSpec)
    requires Revoked(w, m) && Orderly(w, w.memberships[m := spec])
    ensures RevokedForGood(w, m) <==> !HasLiveJob(w, m)
  {
    if HasLiveJob(w, m) {
      var a, i :| LiveJob(w, a, m, i);
      var acts := BindsLate(w, a, m, i);
      assert NotRecreated(acts, m);
    } else {
      forall acts | Run(w, acts) && NotRecreated(acts, m)
        ensures Unbound(Last(w, acts), m)
      {
        StaysRevoked(w, acts, m, spec);
      }
    }
  }

  /**
   * So in every world reached from a store with no pass running, revoking a membership then lasts exactly when
   * no running pass has a live job for it.
   */
  lemma ReachedRevocationLasts(w: World, acts: seq<Action>, m: string)
    requires w.passes == map[] && Run(w, acts) && m in Last(w, acts).memberships
    ensures var v, left := Last(w, acts), WithoutMembership(Last(w, acts), m);
      && left.memberships == v.memberships - {m} && left.projects == v.projects && left.passes == v.passes
      && left.roles == v.roles
      && forall k :: (k in left.bindings <==> k in v.bindings && k.1 != m)
                     && (k in left.bindings ==> left.bindings[k] == v.bindings[k])
    ensures var left := WithoutMembership(Last(w, acts), m);
      Revoked(left, m) && (RevokedForGood(left, m) <==> !HasLiveJob(left, m))
  {
    RunKeepsOrderly(w, acts);
    var v := Last(w, acts);
    RevocationIsOrderly(v, m);
    RevocationLasts(WithoutMembership(v, m), m, v.memberships[m]);
  }

  /**
   * It happens, whatever the store: a project pass lists the membership, which is then revoked before the pass
   * binds anything.
   */
  lemma ListedThenRevoked(w: World, m: string, p: string) returns (acts: seq<Action>)
    requires w.passes == map[] && p in w.projects && m in w.memberships && Covers(w.memberships[m], p)
    requires forall n <- w.memberships | Covers(w.memberships[n], p) :: Acceptable(w.memberships[n])
    ensures Run(w, acts)
    ensures var left := WithoutMembership(Last(w, acts), m);
      Revoked(left, m) && HasLiveJob(left, m) && !RevokedForGood(left, m)
  {
    var jobs;
    acts, jobs := ProjectLists(w, p, true);
    var i :| 0 <= i < |jobs| && jobs[i] == Job(Home(p), m, w.memberships[m]);
    forall j | 0 <= j <= i
      ensures Acceptable(jobs[j].spec)
    {
      assert jobs[j] in jobs;
    }
    assert LiveJob(WithoutMembership(Last(w, acts), m), P(p), m, i);
    ReachedRevocationLasts(w, acts, m);
  }
}
