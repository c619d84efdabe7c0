/**
 * Claiming a workspace name under a parent (tenancy/pkg/operator/workspaces.go): owners try their own
 * candidates in order against one shared set of names, each client call a separate step.
 */
module Workspaces {
  import opened Options

  datatype Workspace = Workspace(owner: string, deleting: bool)

  type Store = map<string, Workspace>

  /** Each owner's candidates, for as long as nobody edits its display name. */
  type Candidates = string -> seq<string>

  datatype Pass =
    | Idle
    | Looking(i: nat)        // about to Get candidate i
    | Creating(i: nat)       // candidate i was not found
    | Claimed(name: string)  // the pass returned this name
    | Exhausted

  datatype World = World(store: Store, passes: map<string, Pass>) {
    function PassOf(o: string): Pass {
      if o in passes then passes[o] else Idle
    }

    function With(o: string, p: Pass): World {
      this.(passes := passes[o := p])
    }
  }

  datatype Action =
    | Start(owner: string)
    | Abort(owner: string)
    | Get(owner: string)
    | Create(owner: string, replyLost: bool)  // the write happens, the caller sees an error
    | Occupy(name: string, owner: string)     // someone outside the protocol takes a free name
    | Delete(owner: string, name: string)     // deleteWorkspace: mark one's own workspace

  ghost predicate Enabled(c: Candidates, w: World, act: Action) {
    match act
    case Start(o) => !w.PassOf(o).Looking? && !w.PassOf(o).Creating?
    case Abort(o) => true
    case Get(o) => w.PassOf(o).Looking?
    case Create(o, _) => w.PassOf(o).Creating? && w.PassOf(o).i < |c(o)|
    case Occupy(n, o) => n !in w.store && n !in c(o)
    case Delete(o, n) => n in w.store && w.store[n].owner == o
  }

  function Step(c: Candidates, w: World, act: Action): World {
    match act
    case Start(o) => w.With(o, Looking(0))
    case Abort(o) => w.With(o, Idle)
    case Get(o) =>
      var pass := w.PassOf(o);
      if !pass.Looking? then w
      else if pass.i >= |c(o)| then w.With(o, Exhausted)
      else
        var name := c(o)[pass.i];
        w.With(o, if name !in w.store then Creating(pass.i)
                  else if w.store[name].owner == o then Claimed(name)
                  else Looking(pass.i + 1))
    case Create(o, replyLost) =>
      var pass := w.PassOf(o);
      if !pass.Creating? || pass.i >= |c(o)| then w
      else
        var name := c(o)[pass.i];
        if name in w.store then w.With(o, Looking(pass.i + 1))
        else w.(store := w.store[name := Workspace(o, false)]).With(o, if replyLost then Idle else Claimed(name))
    case Occupy(n, o) => w.(store := w.store[n := Workspace(o, false)])
    case Delete(o, n) => if n in w.store then w.(store := w.store[n := w.store[n].(deleting := true)]) else w
  }

  /** The first `i` candidates are all held by other owners. */
  ghost predicate HeldByOthers(names: seq<string>, s: Store, o: string, i: nat) {
    i <= |names| && forall j | 0 <= j < i :: names[j] in s && s[names[j]].owner != o
  }

  ghost predicate Owns(c: Candidates, s: Store, o: string, name: string) {
    name in s && s[name].owner == o && name in c(o)
  }

  /** An owner's workspace sits at the first candidate not held by others. */
  ghost predicate AtFirstChoice(names: seq<string>, s: Store, o: string, name: string) {
    exists i :: 0 <= i < |names| && names[i] == name && HeldByOthers(names, s, o, i)
  }

  ghost predicate PassFits(c: Candidates, w: World, o: string) {
    match w.PassOf(o)
    case Idle => true
    case Looking(i) => HeldByOthers(c(o), w.store, o, i)
    case Creating(i) =>
      HeldByOthers(c(o), w.store, o, i) && i < |c(o)| && (c(o)[i] in w.store ==> w.store[c(o)[i]].owner != o)
    case Claimed(name) => Owns(c, w.store, o, name)
    case Exhausted => HeldByOthers(c(o), w.store, o, |c(o)|)
  }

  ghost predicate Inv(c: Candidates, w: World) {
    && (forall o, name | Owns(c, w.store, o, name) :: AtFirstChoice(c(o), w.store, o, name))
    && (forall o <- w.passes :: PassFits(c, w, o))
  }

  /** What no step ever undoes: a workspace stays, and stays its owner's. */
  ghost predicate Kept(s: Store, s': Store) {
    forall name <- s :: name in s' && s'[name].owner == s[name].owner
  }

  lemma StepKeepsStore(c: Candidates, w: World, act: Action)
    requires Enabled(c, w, act)
    ensures Kept(w.store, Step(c, w, act).store)
  {}

  lemma HeldStays(names: seq<string>, s: Store, s': Store, o: string, i: nat)
    requires HeldByOthers(names, s, o, i) && Kept(s, s')
    ensures HeldByOthers(names, s', o, i)
  {}

  lemma StepKeepsChoice(c: Candidates, w: World, act: Action, o: string, name: string)
    requires Inv(c, w) && Enabled(c, w, act) && Owns(c, Step(c, w, act).store, o, name)
    ensures AtFirstChoice(c(o), Step(c, w, act).store, o, name)
  {
    var s' := Step(c, w, act).store;
    StepKeepsStore(c, w, act);
    if Owns(c, w.store, o, name) {
      var i :| 0 <= i < |c(o)| && c(o)[i] == name && HeldByOthers(c(o), w.store, o, i);
      HeldStays(c(o), w.store, s', o, i);
    } else {
      assert act.Create? && act.owner == o;
      assert PassFits(c, w, o);
      HeldStays(c(o), w.store, s', o, w.PassOf(o).i);
    }
  }

  lemma StepKeepsPass(c: Candidates, w: World, act: Action, o: string)
    requires Inv(c, w) && Enabled(c, w, act) && o in Step(c, w, act).passes
    ensures PassFits(c, Step(c, w, act), o)
  {
    assert o in w.passes ==> PassFits(c, w, o);
  }

  lemma StepKeeps(c: Candidates, w: World, act: Action)
    requires Inv(c, w) && Enabled(c, w, act)
    ensures Inv(c, Step(c, w, act)) && Kept(w.store, Step(c, w, act).store)
  {
    StepKeepsStore(c, w, act);
    forall o, name | Owns(c, Step(c, w, act).store, o, name)
      ensures AtFirstChoice(c(o), Step(c, w, act).store, o, name)
    {
      StepKeepsChoice(c, w, act, o, name);
    }
    forall o | o in Step(c, w, act).passes
      ensures PassFits(c, Step(c, w, act), o)
    {
      StepKeepsPass(c, w, act, o);
    }
  }

  ghost predicate Run(c: Candidates, w: World, acts: seq<Action>)
    decreases |acts|
  {
    acts == [] || (Enabled(c, w, acts[0]) && Run(c, Step(c, w, acts[0]), acts[1..]))
  }

  ghost function Last(c: Candidates, w: World, acts: seq<Action>): World
    decreases |acts|
  {
    if acts == [] then w else Last(c, Step(c, w, acts[0]), acts[1..])
  }

  /** No step of anyone relabels or loses a workspace. */
  lemma {:induction false} RunKeeps(c: Candidates, w: World, acts: seq<Action>)
    requires Inv(c, w) && Run(c, w, acts)
    ensures Inv(c, Last(c, w, acts)) && Kept(w.store, Last(c, w, acts).store)
    decreases |acts|
  {
    if acts != [] {
      StepKeeps(c, w, acts[0]);
      RunKeeps(c, Step(c, w, acts[0]), acts[1..]);
    }
  }

  lemma AtMostOne(c: Candidates, w: World, o: string, a: string, b: string)
    requires Inv(c, w) && Owns(c, w.store, o, a) && Owns(c, w.store, o, b)
    ensures a == b
  {
    var i :| 0 <= i < |c(o)| && c(o)[i] == a && HeldByOthers(c(o), w.store, o, i);
    var j :| 0 <= j < |c(o)| && c(o)[j] == b && HeldByOthers(c(o), w.store, o, j);
  }

  /** In every interleaving, at most one of an owner's candidate names is its own workspace. */
  lemma OneWorkspacePerOwner(c: Candidates, w: World, acts: seq<Action>, o: string, a: string, b: string)
    requires Inv(c, w) && Run(c, w, acts)
    requires Owns(c, Last(c, w, acts).store, o, a) && Owns(c, Last(c, w, acts).store, o, b)
    ensures a == b
  {
    RunKeeps(c, w, acts);
    AtMostOne(c, Last(c, w, acts), o, a, b);
  }

  /** Every later pass of the same owner returns the workspace an earlier pass returned. */
  lemma PassesAgree(c: Candidates, w: World, acts: seq<Action>, o: string)
    requires Inv(c, w) && Run(c, w, acts)
    requires w.PassOf(o).Claimed? && Last(c, w, acts).PassOf(o).Claimed?
    ensures Last(c, w, acts).PassOf(o) == w.PassOf(o)
  {
    RunKeeps(c, w, acts);
    assert PassFits(c, w, o) && PassFits(c, Last(c, w, acts), o);
    AtMostOne(c, Last(c, w, acts), o, w.PassOf(o).name, Last(c, w, acts).PassOf(o).name);
  }

  /** An empty parent, or one holding only other people's workspaces, is a fine start. */
  lemma FreshStart(c: Candidates, s: Store)
    requires forall o, name :: !Owns(c, s, o, name)
    ensures Inv(c, World(s, map[]))
  {}

  /** So from such a parent no interleaving gives an owner two workspaces, nor two passes of one owner two names. */
  lemma OneWorkspaceFromStart(c: Candidates, s: Store, acts: seq<Action>, more: seq<Action>, o: string)
    requires forall p, name :: !Owns(c, s, p, name)
    requires Run(c, World(s, map[]), acts) && Run(c, Last(c, World(s, map[]), acts), more)
    ensures var w, v := Last(c, World(s, map[]), acts), Last(c, Last(c, World(s, map[]), acts), more);
      && (forall a, b | Owns(c, w.store, o, a) && Owns(c, w.store, o, b) :: a == b)
      && (w.PassOf(o).Claimed? && v.PassOf(o).Claimed? ==> v.PassOf(o) == w.PassOf(o))
  {
    FreshStart(c, s);
    var w := Last(c, World(s, map[]), acts);
    RunKeeps(c, World(s, map[]), acts);
    forall a, b | Owns(c, w.store, o, a) && Owns(c, w.store, o, b)
      ensures a == b
    {
      OneWorkspacePerOwner(c, World(s, map[]), acts, o, a, b);
    }
    if w.PassOf(o).Claimed? && Last(c, w, more).PassOf(o).Claimed? {
      PassesAgree(c, w, more, o);
    }
  }

  predicate OwnSteps(acts: seq<Action>, o: string) {
    forall act <- acts :: act == Get(o) || act == Create(o, false)
  }

  /** What a whole pass does to a store: nothing, or it makes the first candidate nobody else holds the owner's. */
  ghost predicate PassEnds(names: seq<string>, s: Store, o: string, pass: Pass, s': Store) {
    if HeldByOthers(names, s, o, |names|) then pass == Exhausted && s' == s
    else
      && pass.Claimed? && AtFirstChoice(names, s, o, pass.name)
      && s' == (if pass.name in s then s else s[pass.name := Workspace(o, false)])
      && s'[pass.name].owner == o
  }

  lemma StepThen(c: Candidates, w: World, act: Action, acts: seq<Action>)
    requires Enabled(c, w, act) && Run(c, Step(c, w, act), acts)
    ensures Run(c, w, [act] + acts) && Last(c, w, [act] + acts) == Last(c, Step(c, w, act), acts)
  {
    assert ([act] + acts)[1..] == acts;
  }

  /** Left alone, a pass comes to its end: at the first candidate that is its own or free. */
  lemma {:induction false} LonePass(c: Candidates, w: World, o: string, i: nat) returns (acts: seq<Action>)
    requires w.PassOf(o) == Looking(i) && HeldByOthers(c(o), w.store, o, i)
    ensures Run(c, w, acts) && OwnSteps(acts, o)
    ensures PassEnds(c(o), w.store, o, Last(c, w, acts).PassOf(o), Last(c, w, acts).store)
    decreases |c(o)| - i
  {
    var looked := Step(c, w, Get(o));
    var rest: seq<Action> := [];
    if i < |c(o)| && c(o)[i] !in w.store {
      rest := [Create(o, false)] + [];
      StepThen(c, looked, Create(o, false), []);
    } else if i < |c(o)| && w.store[c(o)[i]].owner != o {
      rest := LonePass(c, looked, o, i + 1);
    }
    StepThen(c, w, Get(o), rest);
    acts := [Get(o)] + rest;
  }

  /** A workspace its owner deletes is marked, and stays until the server removes it. */
  lemma DeleteMarks(c: Candidates, w: World, o: string, n: string)
    requires Enabled(c, w, Delete(o, n))
    ensures Step(c, w, Delete(o, n)).store == w.store[n := Workspace(o, true)]
    ensures Step(c, w, Delete(o, n)).passes == w.passes
  {}

  /**
   * Removal breaks it: once another owner's workspace at an earlier candidate is gone, the next pass
   * creates a second workspace there.
   */
  lemma RemovalAllowsSecond() returns (c: Candidates, s: Store, taken: string, o: string, acts: seq<Action>)
    ensures Inv(c, World(s, map[]))
    ensures taken in s && s[taken].owner != o
    ensures Run(c, World(s - {taken}, map[]), acts)
    ensures Owns(c, Last(c, World(s - {taken}, map[]), acts).store, o, "acme")
    ensures Owns(c, Last(c, World(s - {taken}, map[]), acts).store, o, "acme-1")
  {
    o, taken := "us", "acme";
    var ours, theirs := ["acme", "acme-1"], ["acme", "acme-2"];
    c := x => if x == "us" then ours else theirs;
    s := map["acme" := Workspace("them", false), "acme-1" := Workspace("us", false)];
    assert HeldByOthers(c("them"), s, "them", 0) && c("them")[0] == "acme";
    assert HeldByOthers(c("us"), s, "us", 1) && c("us")[1] == "acme-1";
    assert forall p, name | Owns(c, s, p, name) :: (p == "us" && name == "acme-1") || (p == "them" && name == "acme");
    var w := World(s - {taken}, map[]);
    acts := [Start(o), Get(o), Create(o, false)];
    var w1, w2 := Step(c, w, acts[0]), Step(c, Step(c, w, acts[0]), acts[1]);
    var w3 := Step(c, w2, acts[2]);
    assert acts[1..] == [Get(o), Create(o, false)] && acts[1..][1..] == [Create(o, false)] && acts[1..][1..][1..] == [];
    assert Run(c, w3, []) && Last(c, w3, []) == w3;
    assert Run(c, w2, acts[1..][1..]) && Last(c, w2, acts[1..][1..]) == w3;
    assert Run(c, w1, acts[1..]) && Last(c, w1, acts[1..]) == w3;
    assert Last(c, w, acts) == w3;
    assert "acme" in ours && "acme-1" in ours by { assert ours[0] == "acme" && ours[1] == "acme-1"; }
    assert Owns(c, w3.store, o, "acme") && Owns(c, w3.store, o, "acme-1");
  }

  /** The owner has a workspace of that name; no workspace has the empty name. */
  predicate HoldsName(s: Store, name: string, owner: string) {
    name != "" && name in s && s[name].owner == owner
  }

  class Parent {
    var store: Store

    constructor (store: Store)
      ensures this.store == store
    {
      this.store := store;
    }

    /** One whole ensureWorkspace pass. */
    method EnsureWorkspace(owner: string, candidates: seq<string>) returns (name: Option<string>)
      modifies this
      ensures name == None <==> HeldByOthers(candidates, old(store), owner, |candidates|)
      ensures name == None ==> store == old(store)
      ensures name.Some? ==>
        && AtFirstChoice(candidates, old(store), owner, name.value)
        && store == (if name.value in old(store) then old(store) else old(store)[name.value := Workspace(owner, false)])
        && store[name.value].owner == owner
      // the owner's workspace, made from these candidates or from others, is adopted exactly from the first free place
      ensures forall held | held in old(store) && old(store)[held].owner == owner ::
        name == Some(held) <==> AtFirstChoice(candidates, old(store), owner, held)
    {
      for i := 0 to |candidates|
        invariant store == old(store)
        invariant HeldByOthers(candidates, store, owner, i)
      {
        if candidates[i] !in store {
          store := store[candidates[i] := Workspace(owner, false)];
          return Some(candidates[i]);
        }
        if store[candidates[i]].owner == owner {
          return Some(candidates[i]);
        }
      }
      return None;
    }

    /** One pass: nothing appears or goes, and only the owner's own workspace of that name is marked. */
    method DeleteWorkspace(name: string, owner: string) returns (done: bool)
      modifies this
      ensures done <==> !HoldsName(store, name, owner)
      ensures !done ==> store == old(store)[name := Workspace(owner, true)]
      ensures store.Keys == old(store).Keys
      ensures forall n | n in store && !(n == name && store[n].owner == owner) :: store[n] == old(store)[n]
      ensures forall n <- store :: store[n].owner == old(store)[n].owner
    {
      if name == "" || name !in store || store[name].owner != owner {
        return true;
      }
      if !store[name].deleting {
        store := store[name := store[name].(deleting := true)];
      }
      return false;
    }
  }

  /** A whole ensureWorkspace is a pass of the state machine left alone. */
  method EnsureIsLonePass(parent: Parent, c: Candidates, owner: string)
    returns (name: Option<string>, ghost acts: seq<Action>)
    modifies parent
    ensures Run(c, World(old(parent.store), map[owner := Looking(0)]), acts) && OwnSteps(acts, owner)
    ensures var v := Last(c, World(old(parent.store), map[owner := Looking(0)]), acts);
      parent.store == v.store && v.PassOf(owner) == if name.Some? then Claimed(name.value) else Exhausted
  {
    acts := LonePass(c, World(parent.store, map[owner := Looking(0)]), owner, 0);
    name := parent.EnsureWorkspace(owner, c(owner));
  }

  /** What may happen to a workspace between two passes that delete it. */
  datatype Between = Quiet | RemovedByServer | Taken(claimant: string)

  /**
   * Repeated passes, as the finalizer asks for them, while the server removes what is marked and others may
   * claim the freed name: they report done never before the server has removed the owner's workspace, and at
   * once after that, whoever holds the name then; no other name and no other owner's workspace is touched.
   */
  method TearDown(parent: Parent, name: string, owner: string, rounds: seq<Between>) returns (done: bool)
    modifies parent
    ensures done <==> !HoldsName(parent.store, name, owner)
    ensures HoldsName(old(parent.store), name, owner) && done ==> RemovedByServer in rounds
    ensures Taken(owner) !in rounds && RemovedByServer in rounds ==> done
    ensures parent.store - {name} == old(parent.store) - {name}
    ensures name in old(parent.store) && old(parent.store)[name].owner != owner ==>
      done && parent.store == old(parent.store)
  {
    done := parent.DeleteWorkspace(name, owner);
    for i := 0 to |rounds|
      invariant done <==> !HoldsName(parent.store, name, owner)
      invariant !done ==> parent.store[name].deleting
      invariant HoldsName(old(parent.store), name, owner) && done ==> RemovedByServer in rounds[..i]
      invariant Taken(owner) !in rounds && RemovedByServer in rounds[..i] ==> done
      invariant parent.store - {name} == old(parent.store) - {name}
      invariant name in old(parent.store) && old(parent.store)[name].owner != owner ==>
        done && parent.store == old(parent.store)
    {
      assert rounds[..i + 1] == rounds[..i] + [rounds[i]];
      if rounds[i].RemovedByServer? && !done {
        parent.store := parent.store - {name};
      } else if rounds[i].Taken? && name !in parent.store {
        parent.store := parent.store[name := Workspace(rounds[i].claimant, false)];
      }
      done := parent.DeleteWorkspace(name, owner);
    }
    assert rounds[..|rounds|] == rounds;
  }

  /** A second pass adopts what the first one created, and writes nothing. */
  method EnsureTwice(parent: Parent, owner: string, candidates: seq<string>)
    returns (first: Option<string>, second: Option<string>)
    modifies parent
    ensures first == second
    ensures first == None ==> parent.store == old(parent.store)
    ensures first.Some? ==>
      && AtFirstChoice(candidates, old(parent.store), owner, first.value)
      && parent.store == (if first.value in old(parent.store) then old(parent.store)
                          else old(parent.store)[first.value := Workspace(owner, false)])
  {
    first := parent.EnsureWorkspace(owner, candidates);
    second := parent.EnsureWorkspace(owner, candidates);
  }
}
