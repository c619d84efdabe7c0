/** Any number of concurrent requests against the definition cache, one critical section at a time. */
module CacheRuns {
  import opened Revisions
  import opened DefinitionCache

  datatype Request =
    | Resolved(key: Key, want: Resolution)
    | Missed(key: Key, want: Resolution)
    | InFlight(key: Key, want: Resolution, built: DefinitionSet)
    | Replied(key: Key, want: Resolution, reply: DefinitionSet)
    | Refused

  datatype World = World(cached: Cache, configured: bool, nextId: nat, torn: multiset<nat>, requests: map<nat, Request>)

  /** The configured entries of each export, and the snapshots of it that informers may show. */
  datatype Setting = Setting(entriesOf: Key -> seq<Entry>, snapshots: Key -> iset<Snapshot>)

  ghost predicate Sensible(c: Setting) {
    && (forall k, a | a in c.snapshots(k) :: Clean(a))
    && (forall k, a, b | a in c.snapshots(k) && b in c.snapshots(k) :: Coherent(a, b))
    && (forall k, a | a in c.snapshots(k) && ResolveAll(a, c.entriesOf(k)).Ok? ::
          DistinctGvrs(ResolveAll(a, c.entriesOf(k)).value.specs))
  }

  datatype Action =
    | Configure
    | Resolve(id: nat, key: Key, snap: Snapshot)
    | Look(id: nat)
    | Build(id: nat, failAt: nat)
    | Commit(id: nat)

  ghost predicate Enabled(c: Setting, w: World, act: Action) {
    match act
    case Configure => true
    case Resolve(id, key, snap) =>
      id !in w.requests && snap in c.snapshots(key) && ResolveAll(snap, c.entriesOf(key)).Ok?
    case Look(id) => id in w.requests && w.requests[id].Resolved?
    case Build(id, _) => id in w.requests && w.requests[id].Missed?
    case Commit(id) => id in w.requests && w.requests[id].InFlight?
  }

  ghost function Step(c: Setting, w: World, act: Action): World
    requires Enabled(c, w, act)
  {
    match act
    case Configure => w.(configured := true)
    case Resolve(id, key, snap) =>
      w.(requests := w.requests[id := Resolved(key, ResolveAll(snap, c.entriesOf(key)).value)])
    case Look(id) =>
      var r := w.requests[id];
      w.(requests := w.requests[id :=
        if r.key in w.cached && w.cached[r.key].revision == r.want.revision
        then Replied(r.key, r.want, w.cached[r.key].set_)
        else if !w.configured then Refused
        else Missed(r.key, r.want)])
    case Build(id, failAt) =>
      var r := w.requests[id];
      var n := |r.want.specs|;
      if failAt < n then
        w.(nextId := w.nextId + failAt, torn := w.torn + multiset(Built(r.want.specs, failAt, w.nextId).Values),
           requests := w.requests[id := Refused])
      else
        w.(nextId := w.nextId + n,
           requests := w.requests[id :=
             InFlight(r.key, r.want, DefinitionSet(Built(r.want.specs, n, w.nextId), r.want))])
    case Commit(id) =>
      var r := w.requests[id];
      var done := Committed(w.cached, r.key, r.want.revision, r.built);
      w.(cached := done.0, torn := w.torn + multiset(done.2),
         requests := w.requests[id := Replied(r.key, r.want, done.1)])
  }

  /** Where a definition can be. */
  datatype Place = TornDown | CachedAt(key: Key) | HeldBy(id: nat)

  ghost predicate At(w: World, d: nat, p: Place) {
    match p
    case TornDown => w.torn[d] > 0
    case CachedAt(k) => k in w.cached && d in w.cached[k].set_.defs.Values
    case HeldBy(id) => id in w.requests && w.requests[id].InFlight? && d in w.requests[id].built.defs.Values
  }

  ghost predicate Somewhere(w: World, d: nat) {
    exists p :: At(w, d, p)
  }

  /** Every definition ever built is in exactly one place, and torn down at most once. */
  ghost predicate Conserved(w: World) {
    && (forall d: nat | d < w.nextId :: Somewhere(w, d))
    && (forall d: nat, p | At(w, d, p) :: d < w.nextId)
    && (forall d: nat, p, q | At(w, d, p) && At(w, d, q) :: p == q)
    && (forall d: nat :: w.torn[d] <= 1)
  }

  ghost predicate FromSnapshot(c: Setting, k: Key, want: Resolution) {
    exists snap :: snap in c.snapshots(k) && ResolveAll(snap, c.entriesOf(k)) == Ok(want)
  }

  ghost predicate Sourced(c: Setting, w: World) {
    && (forall k <- w.cached ::
          && w.cached[k].revision == w.cached[k].set_.builtFrom.revision
          && FromSnapshot(c, k, w.cached[k].set_.builtFrom)
          && Injective(w.cached[k].set_.defs) && KeyedByResolution(w.cached[k].set_))
    && (forall id <- w.requests :: RequestSourced(c, w.requests[id]))
  }

  ghost predicate RequestSourced(c: Setting, r: Request) {
    && (!r.Refused? ==> FromSnapshot(c, r.key, r.want))
    && (r.InFlight? ==> r.built.builtFrom == r.want && Injective(r.built.defs) && KeyedByResolution(r.built))
    && (r.Replied? ==> r.reply.builtFrom == r.want && KeyedByResolution(r.reply))
  }

  ghost predicate Inv(c: Setting, w: World) {
    Conserved(w) && Sourced(c, w)
  }

  /** A cached set under the same revision was built from the same resolution. */
  lemma HitIsFresh(c: Setting, k: Key, a: Resolution, b: Resolution)
    requires Sensible(c) && FromSnapshot(c, k, a) && FromSnapshot(c, k, b) && a.revision == b.revision
    ensures a == b
  {
    var s :| s in c.snapshots(k) && ResolveAll(s, c.entriesOf(k)) == Ok(a);
    var t :| t in c.snapshots(k) && ResolveAll(t, c.entriesOf(k)) == Ok(b);
    RevisionSound(s, t, c.entriesOf(k));
  }

  lemma RequestChanges(c: Setting, w: World, w': World, id: nat)
    requires Sourced(c, w) && id in w'.requests && RequestSourced(c, w'.requests[id])
    requires w'.cached == w.cached && w'.requests - {id} == w.requests - {id}
    ensures Sourced(c, w')
  {
    forall i | i in w'.requests && i != id
      ensures RequestSourced(c, w'.requests[i])
    {
      assert i in w.requests - {id} && (w.requests - {id})[i] == (w'.requests - {id})[i];
    }
  }

  lemma CommitKeepsSourced(c: Setting, w: World, id: nat)
    requires Sensible(c) && Sourced(c, w) && Enabled(c, w, Commit(id))
    ensures Sourced(c, Step(c, w, Commit(id)))
  {
    var r := w.requests[id];
    var w' := Step(c, w, Commit(id));
    if r.key in w.cached && w.cached[r.key].revision == r.want.revision {
      HitIsFresh(c, r.key, w.cached[r.key].set_.builtFrom, r.want);
    }
    RequestChanges(c, w, w.(requests := w'.requests), id);
  }

  lemma ResolveKeepsSourced(c: Setting, w: World, id: nat, key: Key, snap: Snapshot)
    requires Sourced(c, w) && Enabled(c, w, Resolve(id, key, snap))
    ensures Sourced(c, Step(c, w, Resolve(id, key, snap)))
  {
    assert FromSnapshot(c, key, ResolveAll(snap, c.entriesOf(key)).value);
    RequestChanges(c, w, Step(c, w, Resolve(id, key, snap)), id);
  }

  lemma LookKeepsSourced(c: Setting, w: World, id: nat)
    requires Sensible(c) && Sourced(c, w) && Enabled(c, w, Look(id))
    ensures Sourced(c, Step(c, w, Look(id)))
  {
    var r := w.requests[id];
    assert RequestSourced(c, r);
    if r.key in w.cached && w.cached[r.key].revision == r.want.revision {
      HitIsFresh(c, r.key, w.cached[r.key].set_.builtFrom, r.want);
    }
    RequestChanges(c, w, Step(c, w, Look(id)), id);
  }

  lemma BuiltSourced(c: Setting, r: Request, base: nat)
    requires RequestSourced(c, r) && r.Missed?
    ensures RequestSourced(c, InFlight(r.key, r.want, DefinitionSet(Built(r.want.specs, |r.want.specs|, base), r.want)))
  {
    BuiltFacts(r.want.specs, |r.want.specs|, base);
    BuiltKeyed(r.want, base);
  }

  lemma BuildKeepsSourced(c: Setting, w: World, id: nat, failAt: nat)
    requires Sourced(c, w) && Enabled(c, w, Build(id, failAt))
    ensures Sourced(c, Step(c, w, Build(id, failAt)))
  {
    BuiltSourced(c, w.requests[id], w.nextId);
    RequestChanges(c, w, Step(c, w, Build(id, failAt)), id);
  }

  lemma StepKeepsSourced(c: Setting, w: World, act: Action)
    requires Sensible(c) && Sourced(c, w) && Enabled(c, w, act) && !act.Commit?
    ensures Sourced(c, Step(c, w, act))
  {
    match act
    case Configure =>
    case Resolve(id, key, snap) => ResolveKeepsSourced(c, w, id, key, snap);
    case Look(id) => LookKeepsSourced(c, w, id);
    case Build(id, failAt) => BuildKeepsSourced(c, w, id, failAt);
  }

  /** New definitions that all go to one place. */
  lemma Added(w: World, w': World, added: set<nat>, place: Place)
    requires Conserved(w) && w.nextId <= w'.nextId
    requires forall d: nat :: d in added <==> w.nextId <= d < w'.nextId
    requires forall d: nat, p :: At(w', d, p) <==> At(w, d, p) || (d in added && p == place)
    requires forall d: nat :: w'.torn[d] <= w.torn[d] + (if d in added then 1 else 0)
    ensures Conserved(w')
  {
    forall d: nat | d < w'.nextId
      ensures Somewhere(w', d)
    {
      if d < w.nextId {
        assert Somewhere(w, d);
        var p :| At(w, d, p);
        assert At(w', d, p);
      } else {
        assert At(w', d, place);
      }
    }
    forall d: nat
      ensures w'.torn[d] <= 1
    {
      assert At(w, d, TornDown) ==> d < w.nextId;
    }
  }

  /** What a build, failed or not, leaves of the places. */
  lemma BuildPlaces(c: Setting, w: World, id: nat, failAt: nat, d: nat, p: Place)
    requires Enabled(c, w, Build(id, failAt)) && w.torn[d] <= 1
    ensures var specs := w.requests[id].want.specs;
      var failed := failAt < |specs|;
      var added := Built(specs, if failed then failAt else |specs|, w.nextId).Values;
      && (At(Step(c, w, Build(id, failAt)), d, p) <==>
            At(w, d, p) || (d in added && p == if failed then TornDown else HeldBy(id)))
      && Step(c, w, Build(id, failAt)).torn[d] <= w.torn[d] + (if d in added then 1 else 0)
  {
    match p
    case TornDown =>
    case CachedAt(k) =>
    case HeldBy(i) =>
  }

  lemma BuildKeepsConserved(c: Setting, w: World, id: nat, failAt: nat)
    requires Sensible(c) && Inv(c, w) && Enabled(c, w, Build(id, failAt))
    ensures Conserved(Step(c, w, Build(id, failAt)))
  {
    var w' := Step(c, w, Build(id, failAt));
    var specs := w.requests[id].want.specs;
    var n := if failAt < |specs| then failAt else |specs|;
    var added := Built(specs, n, w.nextId).Values;
    AllBuilt(c, w, id, n);
    var place := if failAt < |specs| then TornDown else HeldBy(id);
    forall d: nat, p
      ensures At(w', d, p) <==> At(w, d, p) || (d in added && p == place)
    {
      BuildPlaces(c, w, id, failAt, d, p);
    }
    forall d: nat
      ensures w'.torn[d] <= w.torn[d] + (if d in added then 1 else 0)
    {
      BuildPlaces(c, w, id, failAt, d, TornDown);
    }
    Added(w, w', added, place);
  }

  /** The GVRs of a request are distinct, so its build holds every definition it made. */
  lemma AllBuilt(c: Setting, w: World, id: nat, n: nat)
    requires Sensible(c) && Sourced(c, w) && id in w.requests && w.requests[id].Missed?
    requires n <= |w.requests[id].want.specs|
    ensures forall d: nat :: d in Built(w.requests[id].want.specs, n, w.nextId).Values <==> w.nextId <= d < w.nextId + n
  {
    var r := w.requests[id];
    assert RequestSourced(c, r);
    assert DistinctGvrs(r.want.specs[..n]) by {
      var s :| s in c.snapshots(r.key) && ResolveAll(s, c.entriesOf(r.key)) == Ok(r.want);
      assert DistinctGvrs(r.want.specs);
    }
    BuiltHoldsAll(r.want.specs, n, w.nextId);
    BuiltFacts(r.want.specs, n, w.nextId);
  }

  /** What was held goes to `to`; what was cached under a replaced key is torn down. */
  lemma Moved(w: World, w': World, from: Place, to: Place, replaced: set<nat>)
    requires Conserved(w) && w'.nextId == w.nextId
    requires forall d: nat, p :: At(w', d, p) <==>
      if At(w, d, from) then p == to else if d in replaced then p == TornDown else At(w, d, p)
    requires forall d: nat :: w'.torn[d] <= 1
    requires forall d: nat :: d in replaced ==> Somewhere(w, d)
    ensures Conserved(w')
  {
    forall d: nat | d < w'.nextId
      ensures Somewhere(w', d)
    {
      assert Somewhere(w, d);
      var p :| At(w, d, p);
      assert At(w', d, to) || At(w', d, TornDown) || At(w', d, p);
    }
    forall d: nat, p | At(w', d, p)
      ensures d < w'.nextId
    {
      if d in replaced {
        assert Somewhere(w, d);
      }
    }
  }

  predicate Hit(w: World, r: Request)
    requires r.InFlight?
  {
    r.key in w.cached && w.cached[r.key].revision == r.want.revision
  }

  /** What the second look of a request throws out of the cache. */
  function Replaced(w: World, r: Request): set<nat>
    requires r.InFlight?
  {
    if !Hit(w, r) && r.key in w.cached then w.cached[r.key].set_.defs.Values else {}
  }

  /** Where the second look puts what the request built. */
  function Destination(w: World, r: Request): Place
    requires r.InFlight?
  {
    if Hit(w, r) then TornDown else CachedAt(r.key)
  }

  lemma CommitTears(c: Setting, w: World, id: nat)
    requires Enabled(c, w, Commit(id))
    ensures var r := w.requests[id];
      Step(c, w, Commit(id)).torn == w.torn + multiset(if Hit(w, r) then r.built.defs.Values else Replaced(w, r))
  {}

  lemma CommitTearsOnce(c: Setting, w: World, id: nat, d: nat)
    requires Conserved(w) && Enabled(c, w, Commit(id))
    ensures Step(c, w, Commit(id)).torn[d] <= 1
    ensures Step(c, w, Commit(id)).torn[d] > 0 <==>
      || w.torn[d] > 0 || d in Replaced(w, w.requests[id])
      || (Hit(w, w.requests[id]) && d in w.requests[id].built.defs.Values)
  {
    var r := w.requests[id];
    CommitTears(c, w, id);
    assert At(w, d, TornDown) <==> w.torn[d] > 0;
    assert d in r.built.defs.Values ==> At(w, d, HeldBy(id));
    assert d in Replaced(w, r) ==> At(w, d, CachedAt(r.key));
  }

  /** What a commit leaves of the cache and the requests. */
  ghost predicate CommitWrote(w: World, w': World, id: nat)
    requires id in w.requests && w.requests[id].InFlight?
  {
    var r := w.requests[id];
    && w'.cached == (if Hit(w, r) then w.cached else w.cached[r.key := CacheEntry(r.want.revision, r.built)])
    && id in w'.requests && w'.requests[id].Replied? && w'.requests == w.requests[id := w'.requests[id]]
  }

  lemma CommitMoves(w: World, w': World, id: nat, d: nat, p: Place)
    requires Conserved(w) && id in w.requests && w.requests[id].InFlight? && CommitWrote(w, w', id)
    requires var r := w.requests[id];
      w'.torn[d] > 0 <==> w.torn[d] > 0 || d in Replaced(w, r) || (Hit(w, r) && d in r.built.defs.Values)
    ensures var r := w.requests[id];
      At(w', d, p) <==>
        if At(w, d, HeldBy(id)) then p == Destination(w, r)
        else if d in Replaced(w, r) then p == TornDown
        else At(w, d, p)
  {
    var r := w.requests[id];
    assert At(w, d, HeldBy(id)) <==> d in r.built.defs.Values;
    assert d in Replaced(w, r) ==> At(w, d, CachedAt(r.key));
    assert At(w, d, HeldBy(id)) && At(w, d, p) ==> p == HeldBy(id);
    assert At(w, d, CachedAt(r.key)) && At(w, d, p) ==> p == CachedAt(r.key);
    match p
    case TornDown =>
    case CachedAt(k) =>
    case HeldBy(i) =>
  }

  lemma CommitKeepsConserved(c: Setting, w: World, id: nat)
    requires Conserved(w) && Enabled(c, w, Commit(id))
    ensures Conserved(Step(c, w, Commit(id)))
  {
    var w' := Step(c, w, Commit(id));
    var r := w.requests[id];
    forall d: nat
      ensures w'.torn[d] <= 1
    {
      CommitTearsOnce(c, w, id, d);
    }
    forall d: nat, p
      ensures At(w', d, p) <==>
        if At(w, d, HeldBy(id)) then p == Destination(w, r)
        else if d in Replaced(w, r) then p == TornDown
        else At(w, d, p)
    {
      CommitTearsOnce(c, w, id, d);
      CommitMoves(w, w', id, d, p);
    }
    assert forall d: nat :: d in Replaced(w, r) ==> At(w, d, CachedAt(r.key));
    Moved(w, w', HeldBy(id), Destination(w, r), Replaced(w, r));
  }

  lemma StepKeepsInv(c: Setting, w: World, act: Action)
    requires Sensible(c) && Inv(c, w) && Enabled(c, w, act)
    ensures Inv(c, Step(c, w, act))
  {
    if act.Commit? {
      CommitKeepsSourced(c, w, act.id);
      CommitKeepsConserved(c, w, act.id);
      return;
    }
    StepKeepsSourced(c, w, act);
    if act.Build? {
      BuildKeepsConserved(c, w, act.id, act.failAt);
    } else {
      assert forall d: nat, p :: At(Step(c, w, act), d, p) <==> At(w, d, p);
      Added(w, Step(c, w, act), {}, TornDown);
    }
  }

  /** The set a request hands back: it is what the cache holds, and none of its definitions is torn down. */
  ghost predicate Live(w: World, key: Key, reply: DefinitionSet) {
    && key in w.cached && w.cached[key].set_ == reply
    && forall d <- reply.defs.Values :: w.torn[d] == 0
  }

  /** A cached set has no definition torn down. */
  lemma CachedIsLive(w: World, key: Key)
    requires Conserved(w) && key in w.cached
    ensures Live(w, key, w.cached[key].set_)
  {
    forall d | d in w.cached[key].set_.defs.Values
      ensures w.torn[d] == 0
    {
      assert At(w, d, CachedAt(key));
      assert w.torn[d] > 0 ==> At(w, d, TornDown);
    }
  }

  /** At the step in which a request replies, what it hands back is live. */
  lemma RepliesAreLive(c: Setting, w: World, act: Action, id: nat)
    requires Sensible(c) && Inv(c, w) && Enabled(c, w, act)
    requires act == Look(id) || act == Commit(id)
    ensures var w' := Step(c, w, act);
      w'.requests[id].Replied? ==> Live(w', w'.requests[id].key, w'.requests[id].reply)
  {
    StepKeepsInv(c, w, act);
    var w' := Step(c, w, act);
    if w'.requests[id].Replied? {
      CachedIsLive(w', w.requests[id].key);
    }
  }

  ghost predicate Run(c: Setting, w: World, acts: seq<Action>, v: World)
    decreases |acts|
  {
    if acts == [] then v == w else Enabled(c, w, acts[0]) && Run(c, Step(c, w, acts[0]), acts[1..], v)
  }

  function Fresh(): World { World(map[], false, 0, multiset{}, map[]) }

  /**
   * In every interleaving: each definition ever built is in flight, cached or torn down, never in two of
   * them and never torn down twice; and each reply is a set built from exactly what its request resolved,
   * so a cache hit serves what a fresh build would.
   */
  lemma {:induction false} EveryRunConserves(c: Setting, w: World, acts: seq<Action>, v: World)
    requires Sensible(c) && Inv(c, w) && Run(c, w, acts, v)
    ensures Inv(c, v) && Conserved(v)
    ensures forall id | id in v.requests && v.requests[id].Replied? ::
      v.requests[id].reply.builtFrom == v.requests[id].want
    decreases |acts|
  {
    if acts != [] {
      StepKeepsInv(c, w, acts[0]);
      EveryRunConserves(c, Step(c, w, acts[0]), acts[1..], v);
    }
  }

  lemma FreshIsFine(c: Setting)
    ensures Inv(c, Fresh())
  {}

  /** The snapshot's export leads some entry to a schema with that served version. */
  ghost predicate ServesGvr(snap: Snapshot, entries: seq<Entry>, g: Gvr) {
    exists at, spec ::
      SpecAt(snap, entries, at, spec) && g == Gvr(spec.schema.group, spec.version, spec.schema.plural)
  }

  /** The reply holds exactly what some snapshot of its export, with what the request resolved, says is served. */
  ghost predicate RightReply(c: Setting, key: Key, want: Resolution, reply: DefinitionSet) {
    exists snap :: snap in c.snapshots(key) && ResolveAll(snap, c.entriesOf(key)) == Ok(want)
      && forall g :: g in reply.defs <==> ServesGvr(snap, c.entriesOf(key), g)
  }

  lemma SourcedIsRight(c: Setting, r: Request)
    requires RequestSourced(c, r) && r.Replied?
    ensures RightReply(c, r.key, r.want, r.reply)
  {
    var snap :| snap in c.snapshots(r.key) && ResolveAll(snap, c.entriesOf(r.key)) == Ok(r.want);
    ServedExactly(snap, c.entriesOf(r.key));
    forall g
      ensures g in r.reply.defs <==> ServesGvr(snap, c.entriesOf(r.key), g)
    {
      if g in r.reply.defs {
        var spec :| spec in r.want.specs && g == Gvr(spec.schema.group, spec.version, spec.schema.plural);
        var at :| SpecAt(snap, c.entriesOf(r.key), at, spec);
      }
    }
  }

  /**
   * A process starts with an empty cache. In whatever run follows everything is conserved, every reply was
   * built from what its request resolved and holds exactly what is served then; and if the next step replies,
   * what it hands back is live.
   */
  lemma EveryRunFromStart(c: Setting, acts: seq<Action>, v: World, act: Action, id: nat)
    requires Sensible(c) && Run(c, Fresh(), acts, v)
    ensures Conserved(v)
    ensures forall i | i in v.requests && v.requests[i].Replied? ::
      && v.requests[i].reply.builtFrom == v.requests[i].want
      && RightReply(c, v.requests[i].key, v.requests[i].want, v.requests[i].reply)
    ensures Enabled(c, v, act) && (act == Look(id) || act == Commit(id)) ==>
      var v' := Step(c, v, act);
      v'.requests[id].Replied? ==> Live(v', v'.requests[id].key, v'.requests[id].reply)
  {
    FreshIsFine(c);
    EveryRunConserves(c, Fresh(), acts, v);
    forall i | i in v.requests && v.requests[i].Replied?
      ensures RightReply(c, v.requests[i].key, v.requests[i].want, v.requests[i].reply)
    {
      SourcedIsRight(c, v.requests[i]);
    }
    if Enabled(c, v, act) && (act == Look(id) || act == Commit(id)) {
      RepliesAreLive(c, v, act, id);
    }
  }
}
