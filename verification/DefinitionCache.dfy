/**
 * The API-definition cache (getter.go): requests resolve, look, build outside the lock and commit with a
 * second look. Definitions are resources: each must end in exactly one place and be torn down at most once.
 */
module DefinitionCache {
  import opened Revisions

  type Key = string

  datatype Gvr = Gvr(group: string, version: string, resource: string)

  /** A built set: its definitions by number, and the resolution it was built from. */
  datatype DefinitionSet = DefinitionSet(defs: map<Gvr, nat>, builtFrom: Resolution)

  datatype CacheEntry = CacheEntry(revision: string, set_: DefinitionSet)

  type Cache = map<Key, CacheEntry>

  function GvrOf(s: Served): Gvr {
    Gvr(s.schema.group, s.version, s.schema.plural)
  }

  predicate DistinctGvrs(specs: seq<Served>) {
    forall i, j | 0 <= i < j < |specs| :: GvrOf(specs[i]) != GvrOf(specs[j])
  }

  ghost predicate Injective(defs: map<Gvr, nat>) {
    forall g, h | g in defs && h in defs && g != h :: defs[g] != defs[h]
  }

  /** The definitions of the first `n` specs, numbered from `base`; a repeated GVR overwrites. */
  function Built(specs: seq<Served>, n: nat, base: nat): map<Gvr, nat>
    requires n <= |specs|
  {
    if n == 0 then map[] else Built(specs, n - 1, base)[GvrOf(specs[n - 1]) := base + n - 1]
  }

  lemma {:induction false} BuiltNumbers(specs: seq<Served>, n: nat, base: nat)
    requires n <= |specs|
    ensures Injective(Built(specs, n, base))
    ensures forall g <- Built(specs, n, base) :: base <= Built(specs, n, base)[g] < base + n
  {
    if n > 0 {
      BuiltNumbers(specs, n - 1, base);
    }
  }

  lemma {:induction false} BuiltKeys(specs: seq<Served>, n: nat, base: nat, g: Gvr)
    requires n <= |specs|
    ensures g in Built(specs, n, base) <==> exists i :: 0 <= i < n && g == GvrOf(specs[i])
  {
    if n > 0 {
      BuiltKeys(specs, n - 1, base, g);
    }
  }

  lemma BuiltFacts(specs: seq<Served>, n: nat, base: nat)
    requires n <= |specs|
    ensures Injective(Built(specs, n, base))
    ensures forall id <- Built(specs, n, base).Values :: base <= id < base + n
    ensures forall g :: g in Built(specs, n, base) <==> exists i :: 0 <= i < n && g == GvrOf(specs[i])
  {
    BuiltNumbers(specs, n, base);
    forall g
      ensures g in Built(specs, n, base) <==> exists i :: 0 <= i < n && g == GvrOf(specs[i])
    {
      BuiltKeys(specs, n, base, g);
    }
  }

  /** A set holds exactly the group, version and plural name of each thing it was built from. */
  ghost predicate KeyedByResolution(s: DefinitionSet) {
    forall g :: g in s.defs <==>
      exists spec <- s.builtFrom.specs :: g == Gvr(spec.schema.group, spec.version, spec.schema.plural)
  }

  lemma BuiltKeyed(r: Resolution, base: nat)
    ensures KeyedByResolution(DefinitionSet(Built(r.specs, |r.specs|, base), r))
  {
    BuiltFacts(r.specs, |r.specs|, base);
    forall spec | spec in r.specs
      ensures Gvr(spec.schema.group, spec.version, spec.schema.plural) in Built(r.specs, |r.specs|, base)
    {
      var i :| 0 <= i < |r.specs| && r.specs[i] == spec;
    }
  }

  ghost predicate HoldsAll(specs: seq<Served>, n: nat, base: nat)
    requires n <= |specs|
  {
    forall id: nat | base <= id < base + n :: id in Built(specs, n, base).Values
  }

  lemma RepeatedLosesOne(specs: seq<Served>, n: nat, base: nat)
    requires n < |specs| && GvrOf(specs[n]) in Built(specs, n, base)
    ensures !HoldsAll(specs, n + 1, base)
    ensures !DistinctGvrs(specs[..n + 1])
  {
    BuiltFacts(specs, n, base);
    var before, after, g := Built(specs, n, base), Built(specs, n + 1, base), GvrOf(specs[n]);
    assert before[g] in before.Values;
    forall h | h in after
      ensures after[h] != before[g]
    {
      if h != g {
        assert after[h] == before[h];
      }
    }
    assert before[g] !in after.Values;
    var i :| 0 <= i < n && g == GvrOf(specs[i]);
    assert GvrOf(specs[..n + 1][i]) == GvrOf(specs[..n + 1][n]);
  }

  lemma NewKeepsAll(specs: seq<Served>, n: nat, base: nat)
    requires n < |specs| && GvrOf(specs[n]) !in Built(specs, n, base)
    ensures HoldsAll(specs, n + 1, base) <==> HoldsAll(specs, n, base)
    ensures DistinctGvrs(specs[..n + 1]) <==> DistinctGvrs(specs[..n])
  {
    BuiltFacts(specs, n, base);
    var before, after, g := Built(specs, n, base), Built(specs, n + 1, base), GvrOf(specs[n]);
    assert after[g] == base + n;
    forall id: nat
      ensures id in after.Values <==> id in before.Values || id == base + n
    {
      if id in before.Values {
        var h :| h in before && before[h] == id;
        assert after[h] == id;
      }
    }
    var s, t := specs[..n + 1], specs[..n];
    assert s[..n] == t;
    assert forall i | 0 <= i < n :: s[i] == t[i] && GvrOf(s[i]) != GvrOf(s[n]);
  }

  /** No definition is lost inside a build exactly when the GVRs are distinct. */
  lemma {:induction false} BuiltHoldsAll(specs: seq<Served>, n: nat, base: nat)
    requires n <= |specs|
    ensures DistinctGvrs(specs[..n]) <==> HoldsAll(specs, n, base)
  {
    if n > 0 {
      BuiltHoldsAll(specs, n - 1, base);
      if GvrOf(specs[n - 1]) in Built(specs, n - 1, base) {
        RepeatedLosesOne(specs, n - 1, base);
      } else {
        NewKeepsAll(specs, n - 1, base);
      }
    }
  }

  /** What the second look under the lock does: adopt an equal entry and drop ours, or replace. */
  function Committed(cached: Cache, key: Key, revision: string, built: DefinitionSet): (r: (Cache, DefinitionSet,
                     set<nat>))
  {
    if key in cached && cached[key].revision == revision then
      (cached, cached[key].set_, built.defs.Values)
    else
      (cached[key := CacheEntry(revision, built)], built, if key in cached then cached[key].set_.defs.Values else {})
  }

  ghost predicate CachedAs(cached: Cache, key: Key, snap: Snapshot, entries: seq<Entry>) {
    ResolveAll(snap, entries).Ok? ==> key in cached && cached[key].revision == ResolveAll(snap, entries).value.revision
  }

  class Getter {
    var cached: Cache
    var configured: bool
    var nextId: nat
    /** How often each definition was torn down. */
    var torn: multiset<nat>

    constructor ()
      ensures cached == map[] && !configured && nextId == 0 && torn == multiset{}
    {
      cached, configured, nextId, torn := map[], false, 0, multiset{};
    }

    method TearDown(defs: map<Gvr, nat>)
      requires Injective(defs)
      modifies this`torn
      ensures torn == old(torn) + multiset(defs.Values)
    {
      var rest, done := defs.Keys, {};
      while rest != {}
        invariant rest <= defs.Keys
        invariant done == set g | g in defs && g !in rest :: defs[g]
        invariant torn == old(torn) + multiset(done)
      {
        var g :| g in rest;
        rest := rest - {g};
        assert defs[g] !in done;
        torn := torn + multiset{defs[g]};
        done := done + {defs[g]};
      }
      assert done == defs.Values;
    }

    /** Builds one definition per spec; creating number `failAt` fails, if there is one. */
    method Build(resolution: Resolution, failAt: nat) returns (r: Result<DefinitionSet>)
      modifies this`nextId, this`torn
      ensures r.Ok? <==> failAt >= |resolution.specs|
      ensures r.Ok? ==> r.value == DefinitionSet(Built(resolution.specs, |resolution.specs|, old(nextId)), resolution)
      ensures r.Ok? ==> KeyedByResolution(r.value) && Injective(r.value.defs)
      ensures r.Ok? ==> nextId == old(nextId) + |resolution.specs| && torn == old(torn)
      ensures r.Err? ==> nextId == old(nextId) + failAt
      ensures r.Err? ==> torn == old(torn) + multiset(Built(resolution.specs, failAt, old(nextId)).Values)
    {
      var defs := map[];
      for i := 0 to |resolution.specs|
        invariant i <= failAt && nextId == old(nextId) + i && torn == old(torn)
        invariant defs == Built(resolution.specs, i, old(nextId))
      {
        if i == failAt {
          BuiltFacts(resolution.specs, i, old(nextId));
          TearDown(defs);
          return Err;
        }
        defs := defs[GvrOf(resolution.specs[i]) := nextId];
        nextId := nextId + 1;
      }
      BuiltKeyed(resolution, old(nextId));
      BuiltFacts(resolution.specs, |resolution.specs|, old(nextId));
      return Ok(DefinitionSet(defs, resolution));
    }

    /** Cached sets hold no definition twice. */
    ghost predicate Valid()
      reads this
    {
      forall k <- cached :: Injective(cached[k].set_.defs)
    }

    /**
     * GetAPIDefinitionSet with nobody else around: refused for a schema that cannot be read, before the server is
     * configured or when a definition cannot be built; a set cached under the same revision serves without either.
     */
    method GetAPIDefinitionSet(key: Key, snap: Snapshot, entries: seq<Entry>, failAt: nat)
      returns (r: Result<DefinitionSet>)
      requires Valid()
      modifies this
      ensures Valid() && configured == old(configured)
      ensures r.Err? <==>
        (exists e <- entries :: LeadsTo(snap, e, Broken))
        || (!CachedAs(old(cached), key, snap, entries)
            && (!old(configured) || failAt < |ResolveAll(snap, entries).value.specs|))
      ensures r.Err? ==> cached == old(cached)
      ensures r.Ok? ==> key in cached && cached[key].set_ == r.value
      ensures r.Ok? ==> CachedAs(cached, key, snap, entries) && ResolveAll(snap, entries).Ok?
      ensures r.Ok? && CachedAs(old(cached), key, snap, entries) ==>
        cached == old(cached) && torn == old(torn) && nextId == old(nextId)
      ensures r.Ok? && !CachedAs(old(cached), key, snap, entries) ==>
        && r.value.builtFrom == ResolveAll(snap, entries).value && KeyedByResolution(r.value)
        && torn == old(torn) + multiset(if key in old(cached) then old(cached)[key].set_.defs.Values else {})
    {
      var resolved := Resolve(snap, entries);
      if resolved.Err? {
        return Err;
      }
      if key in cached && cached[key].revision == resolved.value.revision {
        return Ok(cached[key].set_);
      }
      if !configured {
        return Err;
      }
      var built := Build(resolved.value, failAt);
      if built.Err? {
        return Err;
      }
      var reply := Commit(key, resolved.value.revision, built.value);
      return Ok(reply);
    }

    /** The write-locked end of GetAPIDefinitionSet. */
    method Commit(key: Key, revision: string, built: DefinitionSet) returns (reply: DefinitionSet)
      requires Injective(built.defs) && (key in cached ==> Injective(cached[key].set_.defs))
      modifies this`cached, this`torn
      ensures cached == Committed(old(cached), key, revision, built).0
      ensures reply == Committed(old(cached), key, revision, built).1
      ensures torn == old(torn) + multiset(Committed(old(cached), key, revision, built).2)
    {
      if key in cached && cached[key].revision == revision {
        TearDown(built.defs);
        return cached[key].set_;
      }
      if key in cached {
        TearDown(cached[key].set_.defs);
      }
      cached := cached[key := CacheEntry(revision, built)];
      return built;
    }
  }
}
