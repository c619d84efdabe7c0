/**
 * Histories of one tenant's store: events and whole passes in any order, each pass dying after any number of
 * writes. What keeps every binding accounted for, and every way one gets lost sight of.
 */
module RevocationRuns {
  import opened Options
  import opened Tenancy
  import opened Revocation

  ghost predicate OwnedIn(s: State) {
    Owned(s.memberships, s.workspaces)
  }

  ghost predicate ReadyWhereBound(s: State) {
    InReady(s.projects, s.workspaces)
  }

  predicate NothingBound(s: State, p: string) {
    p in s.workspaces ==> s.workspaces[p].bindings == map[]
  }

  /** Each store comes of the one before by what the event does. */
  ghost predicate IsHistory(script: seq<Event>, oks: seq<bool>, trace: seq<State>) {
    && |oks| == |script| && |trace| == |script| + 1
    && forall i | 0 <= i < |script| :: Effect(trace[i], script[i], oks[i], trace[i + 1])
  }

  /** Exactly when an event leaves every binding to an existing membership that covers its project. */
  predicate KeepsOwned(s: State, e: Event) {
    match e
    case EditMembership(name, spec) =>
      name in s.memberships ==> forall p <- s.workspaces :: Bound(s.workspaces, p, name) ==> Covers(spec, p)
    case DeleteMembership(name) =>
      name in s.memberships && !s.memberships[name].finalizer ==>
        forall p <- s.workspaces :: !Bound(s.workspaces, p, name)
    case MembershipPass(name, listed, writes) =>
      name in s.memberships && s.memberships[name].deleting && Completes(s, name, listed, writes) ==>
        forall p <- s.workspaces :: Bound(s.workspaces, p, name) ==> p in Looked(s, name, listed)
    case _ => true
  }

  /** What it takes of a project pass to leave bindings in ready projects only; nothing else can change that. */
  predicate KeepsReady(s: State, e: Event, s': State) {
    e.ProjectPass? && e.name in s.projects && !s.projects[e.name].deleting ==>
      if e.stored then
        e.provisioning != ReadyNow && ReadyIn(s.projects, e.name) && e.writes > 0 ==> NothingBound(s, e.name)
      else
        ReadyIn(s.projects, e.name) || NothingBound(s', e.name)
  }

  lemma Unlost(s: State, s': State, name: string, p: string, m: string)
    requires OthersKept(s.workspaces, s'.workspaces, name) && m != name
    ensures Bound(s.workspaces, p, m) <==> Bound(s'.workspaces, p, m)
  {
    assert p in s.workspaces ==>
      (m in s.workspaces[p].bindings - {name} <==> m in s'.workspaces[p].bindings - {name});
  }

  /** A project pass binds only live covering memberships, and only in its own project. */
  lemma NewlyBound(s: State, name: string, provisioning: Provisioning, stored: bool, writes: nat,
                   ok: bool, s': State, p: string, m: string)
    requires ProjectEffect(s, name, provisioning, stored, writes, ok, s')
    ensures Bound(s'.workspaces, p, m) && !Bound(s.workspaces, p, m) ==> p == name && LiveCovering(s.memberships, m, p)
  {
    ElsewhereSame(s, s', name, p);
    MarkedBinds(s.workspaces, name, p, m);
  }

  lemma MarkedBinds(ws: Workspaces, name: string, p: string, m: string)
    ensures Bound(Marked(ws, name), p, m) <==> Bound(ws, p, m)
  {}

  /** Whatever project pass runs, from any owned store: it binds only live covering memberships. */
  lemma ProjectPassKeepsOwned(s: State, name: string, provisioning: Provisioning, stored: bool, writes: nat,
                              ok: bool, s': State)
    requires OwnedIn(s) && ProjectEffect(s, name, provisioning, stored, writes, ok, s')
    ensures OwnedIn(s')
  {
    assert s'.memberships == s.memberships;
    forall p, m | Bound(s'.workspaces, p, m)
      ensures m in s'.memberships && Covers(s'.memberships[m].spec, p)
    {
      NewlyBound(s, name, provisioning, stored, writes, ok, s', p, m);
    }
  }

  lemma ElsewhereSame(s: State, s': State, name: string, p: string)
    requires s'.projects - {name} == s.projects - {name} && s'.workspaces - {name} == s.workspaces - {name}
    ensures p != name ==> (p in s.workspaces <==> p in s'.workspaces) && (p in s.projects <==> p in s'.projects)
    ensures p != name && p in s.workspaces ==> s'.workspaces[p] == s.workspaces[p]
    ensures p != name && p in s.projects ==> s'.projects[p] == s.projects[p]
  {
    if p != name {
      assert p in s.workspaces <==> p in s.workspaces - {name};
      assert p in s'.workspaces <==> p in s'.workspaces - {name};
      assert p in s.projects <==> p in s.projects - {name};
      assert p in s'.projects <==> p in s'.projects - {name};
      assert p in s.workspaces ==> (s.workspaces - {name})[p] == (s'.workspaces - {name})[p];
      assert p in s.projects ==> (s.projects - {name})[p] == (s'.projects - {name})[p];
    }
  }

  /**
   * A membership pass, from any owned store, leaves a binding without its membership exactly when it completes a
   * revocation and something was bound where it did not look.
   */
  lemma MembershipPassOwned(s: State, name: string, listed: bool, writes: nat, ok: bool, s': State)
    requires OwnedIn(s) && MembershipEffect(s, name, listed, writes, ok, s')
    ensures OwnedIn(s') <==> KeepsOwned(s, MembershipPass(name, listed, writes))
  {
    if name in s.memberships && s.memberships[name].deleting {
      RevokeOwned(s, name, listed, writes, ok, s');
    } else if name in s.memberships {
      assert forall p <- Looked(s, name, listed) :: Covers(s.memberships[name].spec, p);
    }
  }

  lemma RevokeOwned(s: State, name: string, listed: bool, writes: nat, ok: bool, s': State)
    requires OwnedIn(s) && name in s.memberships && RevokeEffect(s, name, listed, writes, ok, s')
    ensures OwnedIn(s') <==>
      (ok ==> forall p <- s.workspaces :: Bound(s.workspaces, p, name) ==> p in Looked(s, name, listed))
  {
    if ok {
      assert name !in s'.memberships;
      if p :| p in s.workspaces && Bound(s.workspaces, p, name) && p !in Looked(s, name, listed) {
        assert Bound(s'.workspaces, p, name);
      }
      if forall p <- s.workspaces :: Bound(s.workspaces, p, name) ==> p in Looked(s, name, listed) {
        forall p, m | Bound(s'.workspaces, p, m)
          ensures m in s'.memberships && Covers(s'.memberships[m].spec, p)
        {
          assert Bound(s.workspaces, p, m);
        }
      }
    }
  }

  lemma ChangeOwned(s: State, e: Event)
    requires OwnedIn(s) && !e.MembershipPass? && !e.ProjectPass?
    ensures OwnedIn(Changed(s, e)) <==> KeepsOwned(s, e)
  {
    var s' := Changed(s, e);
    if KeepsOwned(s, e) {
      forall p, m | Bound(s'.workspaces, p, m)
        ensures m in s'.memberships && Covers(s'.memberships[m].spec, p)
      {
        assert Bound(s.workspaces, p, m);
      }
    } else {
      var p :| p in s.workspaces && Bound(s.workspaces, p, e.name)
        && (e.EditMembership? ==> !Covers(e.spec, p));
      assert Bound(s'.workspaces, p, e.name);
    }
  }

  lemma StepOwned(s: State, e: Event, ok: bool, s': State)
    requires OwnedIn(s) && Effect(s, e, ok, s')
    ensures OwnedIn(s') <==> KeepsOwned(s, e)
  {
    match e
    case MembershipPass(name, listed, writes) => MembershipPassOwned(s, name, listed, writes, ok, s');
    case ProjectPass(name, provisioning, stored, writes) =>
      ProjectPassKeepsOwned(s, name, provisioning, stored, writes, ok, s');
    case _ => ChangeOwned(s, e);
  }

  /** A project pass, from a store where bindings are in ready projects, keeps them there exactly when it should. */
  lemma ProjectPassReady(s: State, e: Event, ok: bool, s': State)
    requires WellFormed(s) && ReadyWhereBound(s) && e.ProjectPass? && Effect(s, e, ok, s')
    ensures ReadyWhereBound(s') <==> KeepsReady(s, e, s')
  {
    var name := e.name;
    forall p, m | p != name && Bound(s'.workspaces, p, m)
      ensures ReadyIn(s'.projects, p)
    {
      ElsewhereSame(s, s', name, p);
      assert Bound(s.workspaces, p, m);
    }
    BoundHere(s, name);
    BoundHere(s', name);
    if name in s.projects && !s.projects[name].deleting {
      ProvisionReady(s, e, ok, s');
    }
  }

  lemma BoundHere(s: State, p: string)
    ensures NothingBound(s, p) <==> forall m :: !Bound(s.workspaces, p, m)
  {
    if !NothingBound(s, p) {
      var m :| m in s.workspaces[p].bindings;
      assert Bound(s.workspaces, p, m);
    }
  }

  /** A pass that does not get to applying memberships leaves every binding there as it was. */
  lemma BoundAsBefore(s: State, e: Event, ok: bool, s': State, m: string)
    requires e.ProjectPass? && e.name in s.projects && !Applies(s, e.name, e.provisioning, e.writes)
    requires ProvisionEffect(s, e.name, e.provisioning, e.stored, e.writes, ok, s')
    ensures Bound(s'.workspaces, e.name, m) <==> Bound(s.workspaces, e.name, m)
  {
    assert e.name in s.workspaces ==> BindingKept(s.workspaces, s'.workspaces, e.name, m);
  }

  lemma ProvisionReady(s: State, e: Event, ok: bool, s': State)
    requires WellFormed(s) && ReadyWhereBound(s) && e.ProjectPass? && e.name in s.projects
    requires !s.projects[e.name].deleting
    requires ProvisionEffect(s, e.name, e.provisioning, e.stored, e.writes, ok, s')
    ensures ReadyIn(s'.projects, e.name) || NothingBound(s', e.name) <==> KeepsReady(s, e, s')
  {
    BoundHere(s, e.name);
    BoundHere(s', e.name);
    if !Applies(s, e.name, e.provisioning, e.writes) {
      forall m
        ensures Bound(s'.workspaces, e.name, m) <==> Bound(s.workspaces, e.name, m)
      {
        BoundAsBefore(s, e, ok, s', m);
      }
    }
  }

  lemma MembershipPassReady(s: State, e: Event, ok: bool, s': State)
    requires ReadyWhereBound(s) && e.MembershipPass? && Effect(s, e, ok, s')
    ensures ReadyWhereBound(s')
  {
    forall p, m | Bound(s'.workspaces, p, m)
      ensures ReadyIn(s'.projects, p)
    {
      if m != e.name {
        Unlost(s, s', e.name, p, m);
      }
    }
  }

  lemma ChangeReady(s: State, e: Event)
    requires WellFormed(s) && ReadyWhereBound(s) && !e.MembershipPass? && !e.ProjectPass?
    ensures ReadyWhereBound(Changed(s, e))
  {
    forall p, m | Bound(Changed(s, e).workspaces, p, m)
      ensures ReadyIn(Changed(s, e).projects, p)
    {
      assert Bound(s.workspaces, p, m);
    }
  }

  lemma StepReady(s: State, e: Event, ok: bool, s': State)
    requires WellFormed(s) && ReadyWhereBound(s) && Effect(s, e, ok, s')
    ensures ReadyWhereBound(s') <==> KeepsReady(s, e, s')
  {
    match e
    case MembershipPass(_, _, _) => MembershipPassReady(s, e, ok, s');
    case ProjectPass(_, _, _, _) => ProjectPassReady(s, e, ok, s');
    case _ => ChangeReady(s, e);
  }

  /**
   * In every history from an owned store: every binding belongs to an existing membership that covers its
   * project, all along, exactly when every event keeps it so. No project pass of any kind can break it.
   */
  lemma OwnedAllAlong(script: seq<Event>, oks: seq<bool>, trace: seq<State>)
    requires IsHistory(script, oks, trace) && OwnedIn(trace[0])
    ensures (forall i | 0 <= i <= |script| :: OwnedIn(trace[i])) <==>
      (forall i | 0 <= i < |script| :: KeepsOwned(trace[i], script[i]))
  {
    if forall i | 0 <= i <= |script| :: OwnedIn(trace[i]) {
      forall i | 0 <= i < |script|
        ensures KeepsOwned(trace[i], script[i])
      {
        StepOwned(trace[i], script[i], oks[i], trace[i + 1]);
      }
    }
    if forall i | 0 <= i < |script| :: KeepsOwned(trace[i], script[i]) {
      for n := 0 to |script|
        invariant forall i | 0 <= i <= n :: OwnedIn(trace[i])
      {
        StepOwned(trace[n], script[n], oks[n], trace[n + 1]);
      }
    }
  }

  lemma WellFormedAt(script: seq<Event>, oks: seq<bool>, trace: seq<State>, i: nat)
    requires IsHistory(script, oks, trace) && WellFormed(trace[0]) && i <= |script|
    ensures WellFormed(trace[i])
  {
    if i > 0 {
      var j := i - 1;
      assert Effect(trace[j], script[j], oks[j], trace[j + 1]);
    }
  }

  lemma ReadyAt(script: seq<Event>, oks: seq<bool>, trace: seq<State>, i: nat)
    requires IsHistory(script, oks, trace) && WellFormed(trace[0]) && i < |script| && ReadyWhereBound(trace[i])
    ensures ReadyWhereBound(trace[i + 1]) <==> KeepsReady(trace[i], script[i], trace[i + 1])
  {
    WellFormedAt(script, oks, trace, i);
    StepReady(trace[i], script[i], oks[i], trace[i + 1]);
  }

  /** The same for bindings being in ready projects: only project passes matter for it. */
  lemma ReadyAllAlong(script: seq<Event>, oks: seq<bool>, trace: seq<State>)
    requires IsHistory(script, oks, trace) && WellFormed(trace[0]) && ReadyWhereBound(trace[0])
    ensures (forall i | 0 <= i <= |script| :: ReadyWhereBound(trace[i])) <==>
      (forall i | 0 <= i < |script| :: KeepsReady(trace[i], script[i], trace[i + 1]))
  {
    if forall i | 0 <= i <= |script| :: ReadyWhereBound(trace[i]) {
      forall i | 0 <= i < |script|
        ensures KeepsReady(trace[i], script[i], trace[i + 1])
      {
        ReadyAt(script, oks, trace, i);
      }
    }
    if forall i | 0 <= i < |script| :: KeepsReady(trace[i], script[i], trace[i + 1]) {
      for n := 0 to |script|
        invariant forall i | 0 <= i <= n :: ReadyWhereBound(trace[i])
      {
        ReadyAt(script, oks, trace, n);
      }
    }
  }

  /** So every binding is accounted for, all along, exactly when every event keeps both. */
  lemma SettledAllAlong(script: seq<Event>, oks: seq<bool>, trace: seq<State>)
    requires IsHistory(script, oks, trace) && WellFormed(trace[0]) && Settled(trace[0])
    ensures (forall i | 0 <= i <= |script| :: Settled(trace[i])) <==>
      (forall i | 0 <= i < |script| ::
         KeepsOwned(trace[i], script[i]) && KeepsReady(trace[i], script[i], trace[i + 1]))
  {
    OwnedAllAlong(script, oks, trace);
    ReadyAllAlong(script, oks, trace);
    forall i | 0 <= i <= |script|
      ensures Settled(trace[i]) <==> OwnedIn(trace[i]) && ReadyWhereBound(trace[i])
    {}
  }

  /** From an empty store the passes and changes make a history, and these results hold of it. */
  method Operate(script: seq<Event>) returns (tenant: Tenant, oks: seq<bool>, ghost trace: seq<State>)
    ensures IsHistory(script, oks, trace) && trace[0] == State(map[], map[], map[])
    ensures tenant.View() == trace[|script|]
    ensures (forall i | 0 <= i <= |script| :: OwnedIn(trace[i])) <==>
      (forall i | 0 <= i < |script| :: KeepsOwned(trace[i], script[i]))
    ensures (forall i | 0 <= i <= |script| :: Settled(trace[i])) <==>
      (forall i | 0 <= i < |script| ::
         KeepsOwned(trace[i], script[i]) && KeepsReady(trace[i], script[i], trace[i + 1]))
  {
    tenant := new Tenant();
    oks, trace := [], [tenant.View()];
    for n := 0 to |script|
      invariant fresh(tenant) && |oks| == n && |trace| == n + 1
      invariant trace[0] == State(map[], map[], map[]) && tenant.View() == trace[n] && WellFormed(trace[n])
      invariant forall i | 0 <= i < n :: Effect(trace[i], script[i], oks[i], trace[i + 1])
    {
      var ok := tenant.Happen(script[n]);
      oks, trace := oks + [ok], trace + [tenant.View()];
    }
    OwnedAllAlong(script, oks, trace);
    SettledAllAlong(script, oks, trace);
  }

  /**
   * A pass whose ready status met the swallowed conflict, run to its end: it leaves a binding in a project that is
   * not ready exactly when the project was not and a live membership covers it.
   */
  lemma SwallowedExactly(s: State, name: string, provisioning: Provisioning, writes: nat, s': State)
    requires WellFormed(s) && ReadyWhereBound(s) && name in s.projects && !s.projects[name].deleting
    requires Effect(s, ProjectPass(name, provisioning, false, writes), true, s')
    ensures ReadyWhereBound(s') <==>
      ReadyIn(s.projects, name) || forall m :: !LiveCovering(s.memberships, m, name)
  {
    StepReady(s, ProjectPass(name, provisioning, false, writes), true, s');
    BoundHere(s, name);
    BoundHere(s', name);
    if m :| LiveCovering(s.memberships, m, name) {
      assert BoundAs(s'.workspaces, name, m, s.memberships[m].spec);
    }
  }

  /** A later pass that finds the workspace ready, and stores that, accounts for what was left there. */
  lemma ReadyAgain(s: State, name: string, writes: nat, ok: bool, s': State)
    requires OwnedIn(s) && name in s.projects && !s.projects[name].deleting
    requires forall p, m | p != name && Bound(s.workspaces, p, m) :: ReadyIn(s.projects, p)
    requires Applies(s, name, ReadyNow, writes) && Effect(s, ProjectPass(name, ReadyNow, true, writes), ok, s')
    ensures Settled(s')
  {
    ProjectPassKeepsOwned(s, name, ReadyNow, true, writes, ok, s');
    forall p, m | Bound(s'.workspaces, p, m)
      ensures ReadyIn(s'.projects, p)
    {
      if p != name {
        ElsewhereSame(s, s', name, p);
        assert Bound(s.workspaces, p, m);
      }
    }
  }

  /** From a settled store a completed revocation leaves none exactly when it had its list or there were none. */
  lemma RevocationExactly(s: State, name: string, listed: bool, writes: nat, s': State)
    requires Settled(s) && name in s.memberships && s.memberships[name].deleting
    requires Effect(s, MembershipPass(name, listed, writes), true, s')
    ensures name !in s'.memberships
    ensures !BoundSomewhere(s'.workspaces, name) <==> listed || !BoundSomewhere(s.workspaces, name)
    ensures Settled(s') <==> !BoundSomewhere(s'.workspaces, name)
  {
    if listed {
      forall p
        ensures !Bound(s'.workspaces, p, name)
      {
        assert Bound(s.workspaces, p, name) ==> p in Looked(s, name, true);
      }
    } else if p :| Bound(s.workspaces, p, name) {
      assert Bound(s'.workspaces, p, name);
    }
    forall p, m | Bound(s'.workspaces, p, m) && m != name
      ensures m in s'.memberships && Covers(s'.memberships[m].spec, p) && ReadyIn(s'.projects, p)
    {
      assert Bound(s.workspaces, p, m);
    }
  }

  /** A deleted project that goes leaves its workspace behind exactly when the status had stopped naming it. */
  lemma LeftBehind(s: State, name: string, provisioning: Provisioning, stored: bool, writes: nat, s': State)
    requires name in s.projects && s.projects[name].deleting
    requires Effect(s, ProjectPass(name, provisioning, stored, writes), true, s')
    ensures name !in s'.projects
    ensures name in s'.workspaces <==> name in s.workspaces && !WorkspaceNamed(s.projects[name].status)
  {}

  /** Every ready project's status names its own workspace, from where membership passes take their targets. */
  ghost predicate NamesHome(s: State) {
    forall p | ReadyIn(s.projects, p) :: s.projects[p].status.cluster == Some(Home(p))
  }

  lemma StepNamesHome(s: State, e: Event, ok: bool, s': State)
    requires NamesHome(s) && Effect(s, e, ok, s')
    ensures NamesHome(s')
  {
    forall p | ReadyIn(s'.projects, p)
      ensures s'.projects[p].status.cluster == Some(Home(p))
    {
      if e.ProjectPass? {
        ElsewhereSame(s, s', e.name, p);
      }
      assert p in s.projects && s'.projects[p].status == s.projects[p].status ==> ReadyIn(s.projects, p);
    }
  }

  /** So it is all along every history from such a store. */
  lemma HomeAllAlong(script: seq<Event>, oks: seq<bool>, trace: seq<State>)
    requires IsHistory(script, oks, trace) && NamesHome(trace[0])
    ensures forall i | 0 <= i <= |script| :: NamesHome(trace[i])
  {
    for n := 0 to |script|
      invariant forall i | 0 <= i <= n :: NamesHome(trace[i])
    {
      StepNamesHome(trace[n], script[n], oks[n], trace[n + 1]);
    }
  }

  /** A leaking run, from any store: the membership is deleted, and its pass cannot read the targets. */
  method RevokedWithoutList(tenant: Tenant, name: string, writes: nat) returns (ok: bool)
    requires WellFormed(tenant.View()) && writes > 0 && name in tenant.memberships
    requires tenant.memberships[name].finalizer && BoundSomewhere(tenant.workspaces, name)
    modifies tenant
    ensures ok && name !in tenant.memberships && BoundSomewhere(tenant.workspaces, name) && !OwnedIn(tenant.View())
  {
    ghost var p :| Bound(tenant.workspaces, p, name);
    var _ := tenant.Happen(DeleteMembership(name));
    ok := tenant.Happen(MembershipPass(name, false, writes));
    assert Bound(tenant.workspaces, p, name);
  }

  /** Another: one failed look at its workspace turns a ready project to Error, and a revocation passes it by. */
  method RevokedWhileNotReady(tenant: Tenant, name: string, p: string, writes: nat) returns (ok: bool)
    requires WellFormed(tenant.View()) && name in tenant.memberships && tenant.memberships[name].finalizer
    requires Bound(tenant.workspaces, p, name) && ReadyIn(tenant.projects, p) && !tenant.projects[p].deleting
    requires writes > 0
    modifies tenant
    ensures ok ==> name !in tenant.memberships && Bound(tenant.workspaces, p, name) && !OwnedIn(tenant.View())
    ensures tenant.projects.Keys <= tenant.workspaces.Keys && |tenant.projects| < writes ==> ok
  {
    ghost var first := tenant.View();
    var failed := tenant.Happen(ProjectPass(p, Failing, true, writes));
    BoundAsBefore(first, ProjectPass(p, Failing, true, writes), failed, tenant.View(), name);
    var _ := tenant.Happen(DeleteMembership(name));
    ghost var before := tenant.View();
    ok := tenant.Happen(MembershipPass(name, true, writes));
    SubsetSmaller(Looked(before, name, true), before.projects.Keys);
  }

  lemma {:induction false} SubsetSmaller<T>(a: set<T>, b: set<T>)
    requires a <= b
    ensures |a| <= |b|
  {
    if a != {} {
      var x :| x in a;
      SubsetSmaller(a - {x}, b - {x});
    }
  }

  /** And another: a project pass binds a membership that has no finalizer yet, and deleting it then is at once. */
  method DeletedWhenPulled(tenant: Tenant, name: string, spec: MembershipSpec, p: string, writes: nat)
    requires WellFormed(tenant.View()) && name !in tenant.memberships
    requires p in tenant.projects && !tenant.projects[p].deleting && p in tenant.workspaces
    requires Covers(spec, p) && Acceptable(spec) && AllAcceptable(tenant.memberships, p)
    requires 2 + 3 * (|tenant.memberships| + 1) <= writes
    modifies tenant
    ensures name !in tenant.memberships && Bound(tenant.workspaces, p, name) && !OwnedIn(tenant.View())
  {
    var _ := tenant.Happen(CreateMembership(name, spec));
    ghost var before := tenant.View();
    var ok := tenant.Happen(ProjectPass(p, ReadyNow, true, writes));
    assert LiveCovering(before.memberships, name, p);
    var _ := tenant.Happen(DeleteMembership(name));
  }

  /** The event is a pass of a live covered project that came to its end, and so made every grant there. */
  predicate Pulls(s: State, e: Event, ok: bool, spec: MembershipSpec) {
    e.ProjectPass? && ok && e.name in s.projects && !s.projects[e.name].deleting && Covers(spec, e.name)
  }

  /** A membership created, any project passes, and the membership deleted before its own pass ran. */
  ghost predicate NeverReconciled(script: seq<Event>, name: string, spec: MembershipSpec) {
    && |script| >= 2 && script[0] == CreateMembership(name, spec) && script[|script| - 1] == DeleteMembership(name)
    && forall i | 0 < i < |script| - 1 :: script[i].ProjectPass?
  }

  /** How such a membership stands after `n` events. */
  ghost predicate Unreconciled(script: seq<Event>, oks: seq<bool>, trace: seq<State>, n: nat,
                               name: string, spec: MembershipSpec)
    requires 0 < n < |trace| && |trace| == |script| + 1 == |oks| + 1
  {
    && OwnedIn(trace[n]) && name in trace[n].memberships
    && trace[n].memberships[name] == Membership(spec, false, false)
    && (forall i | 0 < i < n && Pulls(trace[i], script[i], oks[i], spec) ::
          BoundAs(trace[n].workspaces, script[i].name, name, spec))
    && ((forall i | 0 < i < n :: Covers(spec, script[i].name) && script[i].ProjectPass? ==> script[i].writes == 0) ==>
          !BoundSomewhere(trace[n].workspaces, name))
  }

  lemma PassUnreconciled(script: seq<Event>, oks: seq<bool>, trace: seq<State>, n: nat,
                         name: string, spec: MembershipSpec)
    requires IsHistory(script, oks, trace) && 0 < n < |script| && script[n].ProjectPass?
    requires Unreconciled(script, oks, trace, n, name, spec)
    ensures Unreconciled(script, oks, trace, n + 1, name, spec)
  {
    var s, e, s' := trace[n], script[n], trace[n + 1];
    assert Effect(s, e, oks[n], s');
    StepOwned(s, e, oks[n], s');
    forall p
      ensures BoundAs(s.workspaces, p, name, spec) ==> BoundAs(s'.workspaces, p, name, spec)
      ensures Bound(s'.workspaces, p, name) ==>
        Bound(s.workspaces, p, name) || (p == e.name && Covers(spec, p) && e.writes > 0)
    {
      ElsewhereSame(s, s', e.name, p);
    }
    assert Pulls(s, e, oks[n], spec) ==> LiveCovering(s.memberships, name, e.name);
  }

  /**
   * A membership deleted before its own pass set the finalizer goes at once. Whatever project passes ran since it
   * was created, each to its end or without a write, every binding still has its membership afterwards exactly
   * when none of those for a live covered project came to its end.
   */
  lemma DeletedBeforeFinalizer(script: seq<Event>, oks: seq<bool>, trace: seq<State>,
                               name: string, spec: MembershipSpec)
    requires IsHistory(script, oks, trace) && NeverReconciled(script, name, spec)
    requires OwnedIn(trace[0]) && name !in trace[0].memberships
    ensures name !in trace[|script|].memberships
    ensures (exists i :: 0 < i < |script| - 1 && Pulls(trace[i], script[i], oks[i], spec)) ==> !OwnedIn(trace[|script|])
    ensures (forall i | 0 < i < |script| - 1 && Covers(spec, script[i].name) ::
               Pulls(trace[i], script[i], oks[i], spec) || script[i].writes == 0) ==>
      (OwnedIn(trace[|script|]) <==> forall i | 0 < i < |script| - 1 :: !Pulls(trace[i], script[i], oks[i], spec))
  {
    assert Effect(trace[0], script[0], oks[0], trace[0 + 1]);
    StepOwned(trace[0], script[0], oks[0], trace[1]);
    assert forall p :: !Bound(trace[1].workspaces, p, name);
    var last := |script| - 1;
    for n := 1 to last
      invariant Unreconciled(script, oks, trace, n, name, spec)
    {
      PassUnreconciled(script, oks, trace, n, name, spec);
    }
    assert Effect(trace[last], script[last], oks[last], trace[last + 1]);
    StepOwned(trace[last], script[last], oks[last], trace[last + 1]);
    if i :| 0 < i < last && Pulls(trace[i], script[i], oks[i], spec) {
      assert Bound(trace[last].workspaces, script[i].name, name);
    }
  }
}
