/** When a request against the definition cache is answered, and when it is refused, over runs. */
module CacheAnswers {
  import opened Revisions
  import opened DefinitionCache
  import opened CacheRuns

  /** The cache holds the request's export under the revision it resolved. */
  predicate Cached(w: World, r: Request)
    requires !r.Refused?
  {
    r.key in w.cached && w.cached[r.key].revision == r.want.revision
  }

  /** The step turns the request away: a first look before the server is configured, or a failing build. */
  ghost predicate RefusedBy(c: Setting, w: World, act: Action, id: nat) {
    && id in w.requests
    && ((act == Look(id) && w.requests[id].Resolved? && !Cached(w, w.requests[id]) && !w.configured)
        || (act.Build? && act.id == id && w.requests[id].Missed? && act.failAt < |w.requests[id].want.specs|))
  }

  ghost predicate RefusedAlong(c: Setting, w: World, acts: seq<Action>, id: nat)
    decreases |acts|
  {
    acts != [] && Enabled(c, w, acts[0])
    && (RefusedBy(c, w, acts[0], id) || RefusedAlong(c, Step(c, w, acts[0]), acts[1..], id))
  }

  predicate RefusedIn(w: World, id: nat) {
    id in w.requests && w.requests[id].Refused?
  }

  lemma StepRefuses(c: Setting, w: World, act: Action, id: nat)
    requires Enabled(c, w, act)
    ensures RefusedIn(Step(c, w, act), id) <==> RefusedIn(w, id) || RefusedBy(c, w, act, id)
  {}

  /** A request is refused exactly when some step of the run had one of those two causes. */
  lemma {:induction false} RefusedExactly(c: Setting, w: World, acts: seq<Action>, v: World, id: nat)
    requires Run(c, w, acts, v)
    ensures RefusedIn(v, id) <==> RefusedIn(w, id) || RefusedAlong(c, w, acts, id)
    decreases |acts|
  {
    if acts != [] {
      StepRefuses(c, w, acts[0], id);
      RefusedExactly(c, Step(c, w, acts[0]), acts[1..], v, id);
    }
  }

  /** The server is configured exactly once SetServerConfig ran. */
  lemma {:induction false} ConfiguredExactly(c: Setting, w: World, acts: seq<Action>, v: World)
    requires Run(c, w, acts, v)
    ensures v.configured <==> w.configured || Configure in acts
    decreases |acts|
  {
    if acts != [] {
      assert forall act :: act in acts <==> act == acts[0] || act in acts[1..];
      ConfiguredExactly(c, Step(c, w, acts[0]), acts[1..], v);
    }
  }

  /**
   * At its first look, after whatever run, a request is answered with the cached set exactly when the cache holds
   * its export under the revision it resolved; it is refused exactly when not and nobody configured the server yet.
   */
  lemma LookDecides(c: Setting, acts: seq<Action>, v: World, id: nat)
    requires Run(c, Fresh(), acts, v) && id in v.requests && v.requests[id].Resolved?
    ensures var r, r' := v.requests[id], Step(c, v, Look(id)).requests[id];
      && (r'.Replied? <==> r.key in v.cached && v.cached[r.key].revision == r.want.revision)
      && (r'.Replied? ==> r' == Replied(r.key, r.want, v.cached[r.key].set_))
      && (r'.Refused? <==>
            !(r.key in v.cached && v.cached[r.key].revision == r.want.revision) && Configure !in acts)
  {
    ConfiguredExactly(c, Fresh(), acts, v);
  }

  /** A step of this request alone, and no failing build. */
  predicate OwnStep(act: Action, id: nat, want: Resolution) {
    act == Look(id) || act == Commit(id) || (act.Build? && act.id == id && act.failAt >= |want.specs|)
  }

  lemma OneStep(c: Setting, w: World, act: Action, acts: seq<Action>, v: World)
    requires Enabled(c, w, act) && Run(c, Step(c, w, act), acts, v)
    ensures Run(c, w, [act] + acts, v)
  {
    assert ([act] + acts)[1..] == acts;
  }

  /** A request that missed builds, commits, and is answered. */
  lemma AnsweredAfterMiss(c: Setting, w: World, id: nat) returns (more: seq<Action>, v: World)
    requires Sensible(c) && Inv(c, w) && id in w.requests && w.requests[id].Missed?
    ensures Run(c, w, more, v) && forall act <- more :: OwnStep(act, id, w.requests[id].want)
    ensures Answered(v, id, w.requests[id].key, w.requests[id].want)
  {
    var build := Build(id, |w.requests[id].want.specs|);
    var built := Step(c, w, build);
    StepKeepsInv(c, w, build);
    RepliesAreLive(c, built, Commit(id), id);
    v := Step(c, built, Commit(id));
    OneStep(c, built, Commit(id), [], v);
    OneStep(c, w, build, [Commit(id)] + [], v);
    more := [build] + ([Commit(id)] + []);
  }

  /** The request has a reply, and the reply is live. */
  ghost predicate Answered(w: World, id: nat, key: Key, want: Resolution) {
    && id in w.requests && w.requests[id].Replied? && w.requests[id].key == key && w.requests[id].want == want
    && Live(w, key, w.requests[id].reply)
  }

  /**
   * Once the server is configured, a request that resolved and is then left alone, with a build that does not fail,
   * is answered: with a live set that holds exactly what is served.
   */
  lemma AnsweredAlone(c: Setting, acts: seq<Action>, v: World, id: nat) returns (more: seq<Action>, v': World)
    requires Sensible(c) && Run(c, Fresh(), acts, v) && Configure in acts
    requires id in v.requests && v.requests[id].Resolved?
    ensures Run(c, v, more, v') && forall act <- more :: OwnStep(act, id, v.requests[id].want)
    ensures Answered(v', id, v.requests[id].key, v.requests[id].want)
    ensures RightReply(c, v'.requests[id].key, v'.requests[id].want, v'.requests[id].reply)
  {
    FreshIsFine(c);
    EveryRunConserves(c, Fresh(), acts, v);
    more, v' := AnsweredFrom(c, acts, v, id);
    EveryRunConserves(c, v, more, v');
    SourcedIsRight(c, v'.requests[id]);
  }

  lemma AnsweredFrom(c: Setting, acts: seq<Action>, v: World, id: nat) returns (more: seq<Action>, v': World)
    requires Sensible(c) && Inv(c, v) && Run(c, Fresh(), acts, v) && Configure in acts
    requires id in v.requests && v.requests[id].Resolved?
    ensures Run(c, v, more, v') && forall act <- more :: OwnStep(act, id, v.requests[id].want)
    ensures Answered(v', id, v.requests[id].key, v.requests[id].want)
  {
    LookDecides(c, acts, v, id);
    StepKeepsInv(c, v, Look(id));
    var looked := Step(c, v, Look(id));
    var rest: seq<Action>;
    if looked.requests[id].Replied? {
      RepliesAreLive(c, v, Look(id), id);
      rest, v' := [], looked;
    } else {
      rest, v' := AnsweredAfterMiss(c, looked, id);
    }
    OneStep(c, v, Look(id), rest, v');
    more := [Look(id)] + rest;
  }
}
