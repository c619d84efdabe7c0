/** Resolving configured resources to schemas, and the revision string for the result (getter.go, resolve). */
module Revisions {
  import opened Text

  datatype ExportResource = ExportResource(group: string, name: string, schema: string)

  datatype Export = Export(resourceVersion: string, resources: seq<ExportResource>)

  datatype SchemaVersion = SchemaVersion(name: string, served: bool)

  datatype Schema = Schema(resourceVersion: string, group: string, plural: string, versions: seq<SchemaVersion>)

  /** A configured resource and the webhook it is answered by. */
  datatype Entry = Entry(group: string, resource: string, client: string)

  datatype Served = Served(schema: Schema, version: string, entry: Entry)

  /** A schema the lister holds, or fails on; names it does not know are not found. */
  datatype Lookup = Found(schema: Schema) | Broken

  datatype Snapshot = Snapshot(apiExport: Export, schemas: map<string, Lookup>)

  datatype Resolution = Resolution(specs: seq<Served>, revision: string)

  datatype Result<+T> = Ok(value: T) | Err

  /** The schema the export names for an entry, "" when it names none. */
  function SchemaName(resources: seq<ExportResource>, e: Entry): string {
    if resources == [] then ""
    else if resources[0].group == e.group && resources[0].name == e.resource then resources[0].schema
    else SchemaName(resources[1..], e)
  }

  function ServedVersions(s: Schema, versions: seq<SchemaVersion>, e: Entry): seq<Served> {
    if versions == [] then []
    else (if versions[0].served then [Served(s, versions[0].name, e)] else []) + ServedVersions(s, versions[1..], e)
  }

  /** The served resources of some entries, and the revision parts of the schemas found. */
  function ResolveEntries(snap: Snapshot, entries: seq<Entry>): Result<(seq<Served>, seq<string>)> {
    if entries == [] then Ok(([], []))
    else
      var name := SchemaName(snap.apiExport.resources, entries[0]);
      if name == "" || name !in snap.schemas then ResolveEntries(snap, entries[1..])
      else match snap.schemas[name]
        case Broken => Err
        case Found(s) =>
          Prepend(ServedVersions(s, s.versions, entries[0]), [Part(name, s)], ResolveEntries(snap, entries[1..]))
  }

  function Prepend(out: seq<Served>, parts: seq<string>, r: Result<(seq<Served>, seq<string>)>): Result<(seq<Served>,
                   seq<string>)> {
    match r
    case Err => Err
    case Ok(rest) => Ok((out + rest.0, parts + rest.1))
  }

  lemma PrependTwice(a: seq<Served>, b: seq<string>, c: seq<Served>, d: seq<string>, r: Result<(seq<Served>,
                     seq<string>)>)
    ensures Prepend(a, b, Prepend(c, d, r)) == Prepend(a + c, b + d, r)
    ensures Prepend([], [], r) == r
  {
    if r.Ok? {
      assert a + (c + r.value.0) == a + c + r.value.0 && b + (d + r.value.1) == b + d + r.value.1;
      assert [] + r.value.0 == r.value.0 && [] + r.value.1 == r.value.1;
    }
  }

  function Part(name: string, s: Schema): string {
    name + ['='] + s.resourceVersion
  }

  function ResolveAll(snap: Snapshot, entries: seq<Entry>): Result<Resolution> {
    match ResolveEntries(snap, entries)
    case Err => Err
    case Ok(r) => Ok(Resolution(r.0, Join([snap.apiExport.resourceVersion] + r.1, ',')))
  }

  /** The first resource of the export with the entry's group and name. */
  predicate FirstMatch(resources: seq<ExportResource>, e: Entry, k: int) {
    && 0 <= k < |resources| && resources[k].group == e.group && resources[k].name == e.resource
    && forall j | 0 <= j < k :: !(resources[j].group == e.group && resources[j].name == e.resource)
  }

  /** The export names a schema for the entry, and that is what its lister says of it. */
  ghost predicate LeadsTo(snap: Snapshot, e: Entry, found: Lookup) {
    exists k :: FirstMatch(snap.apiExport.resources, e, k)
      && snap.apiExport.resources[k].schema != "" && snap.apiExport.resources[k].schema in snap.schemas
      && snap.schemas[snap.apiExport.resources[k].schema] == found
  }

  /** Entry `at.0` leads to a schema whose version `at.1` is served, which makes `spec`. */
  ghost predicate SpecAt(snap: Snapshot, entries: seq<Entry>, at: (int, int), spec: Served) {
    && 0 <= at.0 < |entries| && spec.entry == entries[at.0] && LeadsTo(snap, entries[at.0], Found(spec.schema))
    && 0 <= at.1 < |spec.schema.versions| && spec.schema.versions[at.1] == SchemaVersion(spec.version, true)
  }

  /** Entry by entry, then version by version. */
  predicate InOrder(places: seq<(int, int)>) {
    forall i, j | 0 <= i < j < |places| ::
      places[i].0 < places[j].0 || (places[i].0 == places[j].0 && places[i].1 < places[j].1)
  }

  ghost predicate SpecsAt(snap: Snapshot, entries: seq<Entry>, specs: seq<Served>, places: seq<(int, int)>) {
    |places| == |specs| && forall i | 0 <= i < |specs| :: SpecAt(snap, entries, places[i], specs[i])
  }

  /** Exactly what is served, in order. */
  ghost predicate ServesInOrder(snap: Snapshot, entries: seq<Entry>, specs: seq<Served>, places: seq<(int, int)>) {
    && InOrder(places) && SpecsAt(snap, entries, specs, places)
    && (forall at, spec | SpecAt(snap, entries, at, spec) :: Has(places, at))
  }

  lemma {:induction false} SchemaNameIsFirst(resources: seq<ExportResource>, e: Entry)
    ensures forall k | FirstMatch(resources, e, k) :: SchemaName(resources, e) == resources[k].schema
    ensures SchemaName(resources, e) != "" ==> exists k :: FirstMatch(resources, e, k)
  {
    if resources != [] && !(resources[0].group == e.group && resources[0].name == e.resource) {
      var rest := resources[1..];
      SchemaNameIsFirst(rest, e);
      forall k
        ensures FirstMatch(resources, e, k) ==> k > 0 && FirstMatch(rest, e, k - 1)
        ensures FirstMatch(rest, e, k - 1) ==> FirstMatch(resources, e, k)
      {
        assert forall j | 0 < j < |resources| :: resources[j] == rest[j - 1];
      }
      if k :| FirstMatch(rest, e, k) {
        assert FirstMatch(resources, e, k + 1);
      }
    } else if resources != [] {
      assert FirstMatch(resources, e, 0);
    }
  }

  /** What the export and its lister say of an entry, in one word. */
  lemma LeadsToName(snap: Snapshot, e: Entry, found: Lookup)
    ensures var name := SchemaName(snap.apiExport.resources, e);
      LeadsTo(snap, e, found) <==> name != "" && name in snap.schemas && snap.schemas[name] == found
  {
    SchemaNameIsFirst(snap.apiExport.resources, e);
  }

  predicate Has<T(==)>(s: seq<T>, x: T) {
    x in s
  }

  ghost predicate PickedAt(s: Schema, versions: seq<SchemaVersion>, e: Entry, spec: Served, i: int) {
    0 <= i < |versions| && versions[i] == SchemaVersion(spec.version, true) && spec.schema == s && spec.entry == e
  }

  /** The positions of exactly the served versions, in order. */
  ghost predicate Picks(s: Schema, versions: seq<SchemaVersion>, e: Entry, out: seq<Served>, idx: seq<int>) {
    && |idx| == |out| && (forall k | 0 <= k < |idx| :: PickedAt(s, versions, e, out[k], idx[k]))
    && (forall i, j | 0 <= i < j < |idx| :: idx[i] < idx[j])
    && (forall i {:trigger Has(idx, i)} | 0 <= i < |versions| && versions[i].served :: Has(idx, i))
  }

  /** The same for the versions after the first. */
  ghost predicate PicksLater(s: Schema, versions: seq<SchemaVersion>, e: Entry, out: seq<Served>, idx: seq<int>) {
    && |idx| == |out| && (forall k | 0 <= k < |idx| :: idx[k] > 0 && PickedAt(s, versions, e, out[k], idx[k]))
    && (forall i, j | 0 <= i < j < |idx| :: idx[i] < idx[j])
    && (forall i {:trigger Has(idx, i)} | 0 < i < |versions| && versions[i].served :: Has(idx, i))
  }

  lemma {:induction false} VersionPlaces(s: Schema, versions: seq<SchemaVersion>, e: Entry) returns (idx: seq<int>)
    ensures Picks(s, versions, e, ServedVersions(s, versions, e), idx)
  {
    idx := [];
    if versions != [] {
      var rest := VersionPlaces(s, versions[1..], e);
      var out := ServedVersions(s, versions[1..], e);
      idx := LaterPlaces(s, versions, e, out, rest);
      if versions[0].served {
        FirstPlace(s, versions, e, out, idx);
        idx := [0] + idx;
      } else {
        assert ServedVersions(s, versions, e) == [] + out == out;
        NoFirstPlace(s, versions, e, out, idx);
      }
    }
  }

  lemma NoFirstPlace(s: Schema, versions: seq<SchemaVersion>, e: Entry, out: seq<Served>, idx: seq<int>)
    requires versions != [] && !versions[0].served && PicksLater(s, versions, e, out, idx)
    ensures Picks(s, versions, e, out, idx)
  {}

  lemma FirstPlace(s: Schema, versions: seq<SchemaVersion>, e: Entry, out: seq<Served>, later: seq<int>)
    requires versions != [] && versions[0].served && PicksLater(s, versions, e, out, later)
    ensures Picks(s, versions, e, [Served(s, versions[0].name, e)] + out, [0] + later)
  {
    var all, idx := [Served(s, versions[0].name, e)] + out, [0] + later;
    forall k | 0 <= k < |idx|
      ensures PickedAt(s, versions, e, all[k], idx[k])
    {
      if k > 0 {
        assert PickedAt(s, versions, e, out[k - 1], later[k - 1]);
      }
    }
    forall i | 0 <= i < |versions| && versions[i].served
      ensures Has(idx, i)
    {
      assert i > 0 ==> Has(later, i);
    }
  }

  lemma LaterPlaces(s: Schema, versions: seq<SchemaVersion>, e: Entry, out: seq<Served>, rest: seq<int>)
    returns (idx: seq<int>)
    requires versions != [] && Picks(s, versions[1..], e, out, rest)
    ensures PicksLater(s, versions, e, out, idx)
  {
    idx := seq(|rest|, i requires 0 <= i < |rest| => rest[i] + 1);
    forall k | 0 <= k < |idx|
      ensures PickedAt(s, versions, e, out[k], idx[k])
    {
      assert PickedAt(s, versions[1..], e, out[k], rest[k]);
    }
    forall i | 0 < i < |versions| && versions[i].served
      ensures Has(idx, i)
    {
      assert Has(rest, i - 1);
      var k :| 0 <= k < |rest| && rest[k] == i - 1;
      assert idx[k] == i;
    }
  }

  lemma SpecAtRest(snap: Snapshot, entries: seq<Entry>, m: int, i: int, spec: Served)
    requires entries != []
    ensures m > 0 ==> (SpecAt(snap, entries, (m, i), spec) <==> SpecAt(snap, entries[1..], (m - 1, i), spec))
  {
    if m > 0 && m < |entries| {
      assert entries[m] == entries[1..][m - 1];
    }
  }

  function Shifted(rest: seq<(int, int)>): seq<(int, int)> {
    seq(|rest|, k requires 0 <= k < |rest| => (rest[k].0 + 1, rest[k].1))
  }

  function OfFirst(idx: seq<int>): seq<(int, int)> {
    seq(|idx|, k requires 0 <= k < |idx| => (0, idx[k]))
  }

  lemma OrderCons(idx: seq<int>, rest: seq<(int, int)>)
    requires InOrder(rest) && (forall i, j | 0 <= i < j < |idx| :: idx[i] < idx[j])
    requires forall k | 0 <= k < |rest| :: rest[k].0 >= 0
    ensures InOrder(OfFirst(idx) + Shifted(rest))
  {}

  lemma SpecsCons(snap: Snapshot, entries: seq<Entry>, out: seq<Served>, idx: seq<int>,
                  specs: seq<Served>, rest: seq<(int, int)>)
    requires entries != [] && SpecsAt(snap, entries[1..], specs, rest) && |idx| == |out|
    requires forall k | 0 <= k < |idx| :: SpecAt(snap, entries, (0, idx[k]), out[k])
    ensures SpecsAt(snap, entries, out + specs, OfFirst(idx) + Shifted(rest))
  {
    var places := OfFirst(idx) + Shifted(rest);
    forall k | 0 <= k < |places|
      ensures SpecAt(snap, entries, places[k], (out + specs)[k])
    {
      if k >= |idx| {
        var at := rest[k - |idx|];
        assert SpecAt(snap, entries[1..], at, specs[k - |idx|]);
        SpecAtRest(snap, entries, at.0 + 1, at.1, specs[k - |idx|]);
      }
    }
  }

  lemma NoneMissing(snap: Snapshot, entries: seq<Entry>, idx: seq<int>, rest: seq<(int, int)>,
                    at: (int, int), spec: Served)
    requires entries != [] && SpecAt(snap, entries, at, spec)
    requires SpecAt(snap, entries, (0, at.1), spec) ==> Has(idx, at.1)
    requires SpecAt(snap, entries[1..], (at.0 - 1, at.1), spec) ==> Has(rest, (at.0 - 1, at.1))
    ensures Has(OfFirst(idx) + Shifted(rest), at)
  {
    var places := OfFirst(idx) + Shifted(rest);
    if at.0 == 0 {
      assert at == (0, at.1);
      var k :| 0 <= k < |idx| && idx[k] == at.1;
      assert places[k] == at;
    } else {
      SpecAtRest(snap, entries, at.0, at.1, spec);
      var k :| 0 <= k < |rest| && rest[k] == (at.0 - 1, at.1);
      assert places[|idx| + k] == at;
    }
  }

  /** The places of the first entry's versions, then those of the rest. */
  lemma PlacesCons(snap: Snapshot, entries: seq<Entry>, out: seq<Served>, idx: seq<int>,
                   specs: seq<Served>, rest: seq<(int, int)>)
    requires entries != [] && ServesInOrder(snap, entries[1..], specs, rest) && |idx| == |out|
    requires forall k | 0 <= k < |idx| :: SpecAt(snap, entries, (0, idx[k]), out[k])
    requires forall i, j | 0 <= i < j < |idx| :: idx[i] < idx[j]
    requires forall i, spec | SpecAt(snap, entries, (0, i), spec) :: Has(idx, i)
    ensures ServesInOrder(snap, entries, out + specs, OfFirst(idx) + Shifted(rest))
  {
    SpecsCons(snap, entries, out, idx, specs, rest);
    forall k | 0 <= k < |rest|
      ensures rest[k].0 >= 0
    {
      assert SpecAt(snap, entries[1..], rest[k], specs[k]);
    }
    OrderCons(idx, rest);
    forall at, spec | SpecAt(snap, entries, at, spec)
      ensures Has(OfFirst(idx) + Shifted(rest), at)
    {
      NoneMissing(snap, entries, idx, rest, at, spec);
    }
  }

  /** resolve fails exactly when an entry leads to a schema the lister fails on; otherwise it finds what is served. */
  lemma {:induction false} ResolvedExactly(snap: Snapshot, entries: seq<Entry>) returns (places: seq<(int, int)>)
    ensures ResolveAll(snap, entries).Err? <==> exists e <- entries :: LeadsTo(snap, e, Broken)
    ensures ResolveAll(snap, entries).Ok? ==>
      ServesInOrder(snap, entries, ResolveAll(snap, entries).value.specs, places)
  {
    places := [];
    if entries != [] {
      var e, rest := entries[0], ResolveEntries(snap, entries[1..]);
      var later := ResolvedExactly(snap, entries[1..]);
      var name := SchemaName(snap.apiExport.resources, e);
      assert forall f :: f in entries <==> f == e || f in entries[1..];
      LeadsToName(snap, e, Broken);
      if rest.Ok? && ResolveEntries(snap, entries).Ok? {
        var out, idx := [], [];
        if name != "" && name in snap.schemas {
          var s := snap.schemas[name].schema;
          out := ServedVersions(s, s.versions, e);
          idx := VersionPlaces(s, s.versions, e);
          LeadsToName(snap, e, Found(s));
          assert forall k | 0 <= k < |idx| :: PickedAt(s, s.versions, e, out[k], idx[k]);
        }
        forall i, spec | SpecAt(snap, entries, (0, i), spec)
          ensures Has(idx, i)
        {
          LeadsToName(snap, e, Found(spec.schema));
        }
        PlacesCons(snap, entries, out, idx, rest.value.0, later);
        places := OfFirst(idx) + Shifted(later);
        assert [] + rest.value.0 == rest.value.0;
      }
    }
  }

  method FindSchemaName(resources: seq<ExportResource>, entry: Entry) returns (name: string)
    ensures name == SchemaName(resources, entry)
  {
    assert resources[0..] == resources;
    for k := 0 to |resources|
      invariant SchemaName(resources, entry) == SchemaName(resources[k..], entry)
    {
      if resources[k].group == entry.group && resources[k].name == entry.resource {
        return resources[k].schema;
      }
      assert resources[k..][1..] == resources[k + 1..];
    }
    return "";
  }

  method AppendServed(out: seq<Served>, sch: Schema, entry: Entry) returns (r: seq<Served>)
    ensures r == out + ServedVersions(sch, sch.versions, entry)
  {
    r := out;
    assert sch.versions[0..] == sch.versions;
    for i := 0 to |sch.versions|
      invariant r + ServedVersions(sch, sch.versions[i..], entry) == out + ServedVersions(sch, sch.versions, entry)
    {
      assert sch.versions[i..][1..] == sch.versions[i + 1..];
      if sch.versions[i].served {
        r := r + [Served(sch, sch.versions[i].name, entry)];
      }
    }
    assert sch.versions[|sch.versions|..] == [];
    assert r + [] == r;
  }

  /** A version is served exactly when it is at some place. */
  lemma ServedExactly(snap: Snapshot, entries: seq<Entry>)
    ensures ResolveAll(snap, entries).Ok? ==>
      forall spec :: spec in ResolveAll(snap, entries).value.specs <==> exists at :: SpecAt(snap, entries, at, spec)
  {
    var places := ResolvedExactly(snap, entries);
    if ResolveAll(snap, entries).Ok? {
      var specs := ResolveAll(snap, entries).value.specs;
      forall spec, at | SpecAt(snap, entries, at, spec)
        ensures spec in specs
      {
        assert Has(places, at);
        var k :| 0 <= k < |places| && places[k] == at;
        assert SpecAt(snap, entries, places[k], specs[k]);
        LeadsToName(snap, spec.entry, Found(spec.schema));
        LeadsToName(snap, spec.entry, Found(specs[k].schema));
        assert spec == specs[k];
      }
      forall spec | spec in specs
        ensures exists at :: SpecAt(snap, entries, at, spec)
      {
        var k :| 0 <= k < |specs| && specs[k] == spec;
        assert SpecAt(snap, entries, places[k], specs[k]);
      }
    }
  }

  /** The loops of resolve, in the order the code runs them. */
  method Resolve(snap: Snapshot, entries: seq<Entry>) returns (r: Result<Resolution>)
    ensures r == ResolveAll(snap, entries)
    ensures r.Err? <==> exists e <- entries :: LeadsTo(snap, e, Broken)
    ensures r.Ok? ==> exists places :: ServesInOrder(snap, entries, r.value.specs, places)
    ensures r.Ok? ==> forall spec :: spec in r.value.specs <==> exists at :: SpecAt(snap, entries, at, spec)
  {
    ghost var places := ResolvedExactly(snap, entries);
    ServedExactly(snap, entries);
    var out, revisions := [], [];
    PrependTwice([], [], [], [], ResolveEntries(snap, entries));
    assert entries[0..] == entries;
    for n := 0 to |entries|
      invariant ResolveEntries(snap, entries) == Prepend(out, revisions, ResolveEntries(snap, entries[n..]))
    {
      assert entries[n..][1..] == entries[n + 1..];
      var schemaName := FindSchemaName(snap.apiExport.resources, entries[n]);
      if schemaName == "" || schemaName !in snap.schemas {
        continue;
      }
      if snap.schemas[schemaName].Broken? {
        return Err;
      }
      var sch := snap.schemas[schemaName].schema;
      PrependTwice(out, revisions, ServedVersions(sch, sch.versions, entries[n]), [Part(schemaName, sch)],
                   ResolveEntries(snap, entries[n + 1..]));
      revisions := revisions + [Part(schemaName, sch)];
      out := AppendServed(out, sch, entries[n]);
    }
    assert entries[|entries|..] == [];
    assert out + [] == out && revisions + [] == revisions;
    return Ok(Resolution(out, Join([snap.apiExport.resourceVersion] + revisions, ',')));
  }

  ghost predicate Clean(snap: Snapshot) {
    && ',' !in snap.apiExport.resourceVersion
    && (forall r <- snap.apiExport.resources :: ',' !in r.schema && '=' !in r.schema)
    && (forall n <- snap.schemas :: snap.schemas[n].Found? ==> ',' !in snap.schemas[n].schema.resourceVersion)
  }

  /** Two snapshots of one export: an equal resource version means equal content. */
  ghost predicate Coherent(a: Snapshot, b: Snapshot) {
    && (a.apiExport.resourceVersion == b.apiExport.resourceVersion ==> a.apiExport == b.apiExport)
    && forall n | n in a.schemas && n in b.schemas && a.schemas[n].Found? && b.schemas[n].Found? ::
      a.schemas[n].schema.resourceVersion == b.schemas[n].schema.resourceVersion ==> a.schemas[n] == b.schemas[n]
  }

  /** `n` is the schema of some entry, and the snapshot has it. */
  ghost predicate Uses(snap: Snapshot, entries: seq<Entry>, n: string) {
    && n != "" && n in snap.schemas && snap.schemas[n].Found?
    && exists e <- entries :: SchemaName(snap.apiExport.resources, e) == n
  }

  lemma {:induction false} SchemaNameClean(resources: seq<ExportResource>, e: Entry)
    requires forall r <- resources :: ',' !in r.schema && '=' !in r.schema
    ensures ',' !in SchemaName(resources, e) && '=' !in SchemaName(resources, e)
  {
    if resources != [] {
      assert resources[0] in resources;
      SchemaNameClean(resources[1..], e);
    }
  }

  /** The parts are exactly name=version of the schemas used. */
  lemma {:induction false} PartsAreUses(snap: Snapshot, entries: seq<Entry>)
    requires ResolveEntries(snap, entries).Ok?
    ensures forall n | Uses(snap, entries, n) ::
      Part(n, snap.schemas[n].schema) in ResolveEntries(snap, entries).value.1
    ensures forall t <- ResolveEntries(snap, entries).value.1 ::
      exists n :: Uses(snap, entries, n) && t == Part(n, snap.schemas[n].schema)
  {
    if entries != [] {
      PartsAreUses(snap, entries[1..]);
      var parts := ResolveEntries(snap, entries).value.1;
      forall n | Uses(snap, entries, n)
        ensures Part(n, snap.schemas[n].schema) in parts
      {
        var e :| e in entries && SchemaName(snap.apiExport.resources, e) == n;
        if e != entries[0] {
          assert e in entries[1..];
          assert Uses(snap, entries[1..], n);
        }
      }
      forall t | t in parts
        ensures exists n :: Uses(snap, entries, n) && t == Part(n, snap.schemas[n].schema)
      {
        if t in ResolveEntries(snap, entries[1..]).value.1 {
          var n :| Uses(snap, entries[1..], n) && t == Part(n, snap.schemas[n].schema);
          assert Uses(snap, entries, n);
        } else {
          assert Uses(snap, entries, SchemaName(snap.apiExport.resources, entries[0]));
        }
      }
    }
  }

  lemma PartsAvoidComma(snap: Snapshot, entries: seq<Entry>)
    requires ResolveEntries(snap, entries).Ok? && Clean(snap)
    ensures forall t <- ResolveEntries(snap, entries).value.1 :: ',' !in t
  {
    PartsAreUses(snap, entries);
    forall t | t in ResolveEntries(snap, entries).value.1
      ensures ',' !in t
    {
      var n :| Uses(snap, entries, n) && t == Part(n, snap.schemas[n].schema);
      var e :| e in entries && SchemaName(snap.apiExport.resources, e) == n;
      SchemaNameClean(snap.apiExport.resources, e);
    }
  }

  /** A part is read back at its first equals sign. */
  lemma PartInjective(m: string, s: Schema, n: string, t: Schema)
    requires '=' !in m && '=' !in n && Part(m, s) == Part(n, t)
    ensures m == n && s.resourceVersion == t.resourceVersion
  {
    IndexOfAppend(m, '=', s.resourceVersion);
    IndexOfAppend(n, '=', t.resourceVersion);
    assert m == Part(m, s)[..|m|] && n == Part(n, t)[..|n|];
    assert Part(m, s)[|m| + 1..] == s.resourceVersion && Part(n, t)[|n| + 1..] == t.resourceVersion;
  }

  lemma UsesTransfer(a: Snapshot, b: Snapshot, entries: seq<Entry>, n: string)
    requires Clean(a) && Clean(b) && Coherent(a, b) && a.apiExport == b.apiExport
    requires ResolveEntries(a, entries).Ok? && ResolveEntries(b, entries).Ok?
    requires ResolveEntries(a, entries).value.1 == ResolveEntries(b, entries).value.1
    requires Uses(a, entries, n)
    ensures Uses(b, entries, n) && b.schemas[n] == a.schemas[n]
  {
    PartsAreUses(a, entries);
    PartsAreUses(b, entries);
    var t := Part(n, a.schemas[n].schema);
    var m :| Uses(b, entries, m) && t == Part(m, b.schemas[m].schema);
    var e :| e in entries && SchemaName(a.apiExport.resources, e) == n;
    var f :| f in entries && SchemaName(b.apiExport.resources, f) == m;
    SchemaNameClean(a.apiExport.resources, e);
    SchemaNameClean(b.apiExport.resources, f);
    PartInjective(n, a.schemas[n].schema, m, b.schemas[m].schema);
  }

  /** The served list depends only on the export and the schemas used. */
  lemma {:induction false} SameUsesSameSpecs(a: Snapshot, b: Snapshot, entries: seq<Entry>)
    requires a.apiExport == b.apiExport && ResolveEntries(a, entries).Ok? && ResolveEntries(b, entries).Ok?
    requires forall n :: Uses(a, entries, n) <==> Uses(b, entries, n)
    requires forall n | Uses(a, entries, n) :: n in b.schemas && a.schemas[n] == b.schemas[n]
    ensures ResolveEntries(a, entries).value.0 == ResolveEntries(b, entries).value.0
  {
    if entries != [] {
      var rest := entries[1..];
      var name := SchemaName(a.apiExport.resources, entries[0]);
      assert Uses(a, entries, name) <==> name != "" && name in a.schemas && a.schemas[name].Found?;
      assert Uses(b, entries, name) <==> name != "" && name in b.schemas && b.schemas[name].Found?;
      forall n
        ensures Uses(a, rest, n) <==> Uses(b, rest, n)
        ensures Uses(a, rest, n) ==> a.schemas[n] == b.schemas[n]
      {
        assert Uses(a, rest, n) ==> Uses(a, entries, n);
        assert Uses(b, rest, n) ==> Uses(b, entries, n);
      }
      SameUsesSameSpecs(a, b, rest);
    }
  }

  /**
   * Equal revision strings mean the same served resources and the same missing schemas, so a cached
   * set is what a fresh build would serve.
   */
  lemma RevisionSound(a: Snapshot, b: Snapshot, entries: seq<Entry>)
    requires Clean(a) && Clean(b) && Coherent(a, b)
    requires ResolveAll(a, entries).Ok? && ResolveAll(b, entries).Ok?
    requires ResolveAll(a, entries).value.revision == ResolveAll(b, entries).value.revision
    ensures ResolveAll(a, entries) == ResolveAll(b, entries)
    ensures forall n :: Uses(a, entries, n) <==> Uses(b, entries, n)
  {
    var pa, pb := ResolveEntries(a, entries).value.1, ResolveEntries(b, entries).value.1;
    PartsAvoidComma(a, entries);
    PartsAvoidComma(b, entries);
    SplitJoin([a.apiExport.resourceVersion] + pa, ',');
    SplitJoin([b.apiExport.resourceVersion] + pb, ',');
    assert ([a.apiExport.resourceVersion] + pa)[1..] == pa && ([b.apiExport.resourceVersion] + pb)[1..] == pb;
    assert a.apiExport.resourceVersion == ([a.apiExport.resourceVersion] + pa)[0];
    assert b.apiExport.resourceVersion == ([b.apiExport.resourceVersion] + pb)[0];
    forall n
      ensures Uses(a, entries, n) <==> Uses(b, entries, n)
      ensures Uses(a, entries, n) ==> a.schemas[n] == b.schemas[n]
    {
      if Uses(a, entries, n) {
        UsesTransfer(a, b, entries, n);
      }
      if Uses(b, entries, n) {
        UsesTransfer(b, a, entries, n);
      }
    }
    SameUsesSameSpecs(a, b, entries);
  }
}
