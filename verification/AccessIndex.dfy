/** The access index over whole event histories: what it holds, what it answers, and that order does not matter. */
module AccessIndex {
  import opened Options
  import opened Text
  import opened Sorting
  import opened AccessGraph
  import opened RbacTranslator

  datatype Event =
    | Applied(key: BindingKey, subjects: seq<RbacSubject>, endpoint: string)
    | Removed(key: BindingKey)
    | Forgot(cluster: Cluster)

  predicate Touches(e: Event, k: BindingKey) {
    match e
    case Applied(key, _, _) => key == k
    case Removed(key) => key == k
    case Forgot(cluster) => k.cluster == cluster
  }

  /** The subjects the last event about `k` leaves it with; None once removed or never seen. */
  ghost function LastSubjects(h: seq<Event>, k: BindingKey): Option<set<Subject>> {
    if h == [] then None
    else
      var e := h[|h| - 1];
      if !Touches(e, k) then LastSubjects(h[..|h| - 1], k)
      else if e.Applied? then Some(set s | s in Translated(e.subjects, k.namespace))
      else None
  }

  /** The index recomputed from scratch out of a set of live bindings. */
  ghost function SubjectsOf(b: Bindings): set<Subject> {
    set k, s | k in b && s in b[k].subjects :: s
  }

  ghost function ClustersOf(b: Bindings, s: Subject): set<Cluster> {
    set k | k in b && s in b[k].subjects :: k.cluster
  }

  ghost function KeysOf(b: Bindings, s: Subject, c: Cluster): set<BindingKey> {
    set k | k in b && k.cluster == c && s in b[k].subjects
  }

  ghost function RefsOf(b: Bindings): Refs {
    map s | s in SubjectsOf(b) :: map c | c in ClustersOf(b, s) :: KeysOf(b, s, c)
  }

  ghost function AccessOf(b: Bindings): Access {
    map s | s in SubjectsOf(b) :: ClustersOf(b, s)
  }

  ghost function EndpointsOf(b: Bindings, endpointOf: Cluster -> string): map<Cluster, string> {
    map c | c in (set k | k in b && b[k].subjects != [] :: k.cluster) :: endpointOf(c)
  }

  ghost predicate EventEndpointsAre(h: seq<Event>, endpointOf: Cluster -> string) {
    forall e <- h :: e.Applied? ==> e.endpoint == endpointOf(e.key.cluster)
  }

  /** A valid translator holds exactly the recomputed index, nested maps and all. */
  lemma ValidIsRecomputed(t: Translator)
    requires t.Valid()
    ensures t.refs == RefsOf(t.bindings)
    ensures t.g.access == AccessOf(t.bindings)
    ensures forall f :: t.g.endpoints.Keys == EndpointsOf(t.bindings, f).Keys
  {
    var b, refs := t.bindings, t.refs;
    forall s, c
      ensures HasCluster(refs, s, c) <==> s in SubjectsOf(b) && c in ClustersOf(b, s)
      ensures HasCluster(refs, s, c) ==> refs[s][c] == KeysOf(b, s, c)
    {
      if HasCluster(refs, s, c) {
        var k :| k in refs[s][c];
        assert HasRef(refs, s, c, k);
      }
      forall k ensures HasRef(refs, s, c, k) <==> k in KeysOf(b, s, c) {}
      if c in ClustersOf(b, s) {
        var k :| k in b && s in b[k].subjects && k.cluster == c;
        assert HasRef(refs, s, c, k);
      }
    }
    forall s
      ensures s in refs <==> s in SubjectsOf(b)
      ensures s in refs ==> refs[s] == RefsOf(b)[s]
    {
      if s in refs {
        var c :| c in refs[s];
        assert HasCluster(refs, s, c);
      }
      if s in SubjectsOf(b) {
        var k :| k in b && s in b[k].subjects;
        assert k.cluster in ClustersOf(b, s);
        assert HasCluster(refs, s, k.cluster);
      }
      if s in refs {
        assert forall c :: c in refs[s] <==> HasCluster(refs, s, c);
      }
    }
    AccessMatches(t);
  }

  lemma AccessMatches(t: Translator)
    requires t.Valid() && t.refs == RefsOf(t.bindings)
    ensures t.g.access == AccessOf(t.bindings)
    ensures forall f :: t.g.endpoints.Keys == EndpointsOf(t.bindings, f).Keys
  {
    var b, access := t.bindings, AccessOf(t.bindings);
    forall s | s in access
      ensures access[s] != {}
    {
      var k :| k in b && s in b[k].subjects;
      assert k.cluster in access[s];
    }
    assert forall s, c :: Reaches(access, s, c) <==> HasCluster(t.refs, s, c);
    AccessDetermined(t.g.access, access);
    forall f: Cluster -> string, c
      ensures c in t.g.endpoints <==> c in EndpointsOf(b, f)
    {
      if c in t.g.endpoints {
        var s :| Reaches(access, s, c);
        var k :| k in b && s in b[k].subjects && k.cluster == c;
        assert b[k].subjects != [];
      }
      if c in EndpointsOf(b, f) {
        var k :| k in b && b[k].subjects != [] && k.cluster == c;
        var s := b[k].subjects[0];
        assert c in ClustersOf(b, s);
        assert Reaches(access, s, c);
      }
    }
  }

  /** The bindings alive after a history. */
  ghost function Live(h: seq<Event>): Bindings {
    if h == [] then map[] else After(Live(h[..|h| - 1]), h[|h| - 1])
  }

  ghost function After(b: Bindings, e: Event): Bindings {
    match e
    case Applied(key, subjects, endpoint) => b[key := BindingState(Translated(subjects, key.namespace), endpoint)]
    case Removed(key) => b - {key}
    case Forgot(cluster) => map k | k in b && k.cluster != cluster :: b[k]
  }

  method Deliver(t: Translator, e: Event)
    requires t.Valid()
    modifies t, t.g
    ensures t.Valid() && t.bindings == After(old(t.bindings), e)
    ensures forall c <- t.g.endpoints ::
      (c in old(t.g.endpoints) && t.g.endpoints[c] == old(t.g.endpoints)[c])
      || (e.Applied? && c == e.key.cluster && t.g.endpoints[c] == e.endpoint)
  {
    match e
    case Applied(key, subjects, endpoint) =>
      t.ApplyRoleBinding(key.namespace, key.name, subjects, key.cluster, endpoint);
    case Removed(key) => t.Remove(key);
    case Forgot(cluster) => t.ForgetCluster(cluster);
  }

  /** A valid translator holding the recomputed index of what a history leaves alive. */
  ghost predicate ReachedBy(t: Translator, h: seq<Event>)
    reads t, t.g
  {
    && t.bindings == Live(h)
    && t.refs == RefsOf(t.bindings)
    && t.g.access == AccessOf(t.bindings)
    && forall f :: EventEndpointsAre(h, f) ==> t.g.endpoints == EndpointsOf(t.bindings, f)
  }

  ghost predicate EndpointsFollow(h: seq<Event>, endpoints: map<Cluster, string>) {
    forall f :: EventEndpointsAre(h, f) ==> forall c <- endpoints :: endpoints[c] == f(c)
  }

  lemma ValidIsReached(t: Translator, h: seq<Event>)
    requires t.Valid() && t.bindings == Live(h) && EndpointsFollow(h, t.g.endpoints)
    ensures ReachedBy(t, h)
  {
    ValidIsRecomputed(t);
  }

  /** Feeds a whole history to a fresh translator, one event at a time, in order. */
  method Replay(h: seq<Event>) returns (t: Translator)
    ensures fresh(t) && t.Valid() && ReachedBy(t, h)
  {
    t := new Translator();
    for n := 0 to |h|
      invariant fresh(t) && fresh(t.g) && t.Valid()
      invariant t.bindings == Live(h[..n])
      invariant EndpointsFollow(h, t.g.endpoints)
    {
      assert h[..n + 1][..n] == h[..n];
      assert h[n] in h;
      Deliver(t, h[n]);
    }
    assert h[..|h|] == h;
    ValidIsReached(t, h);
  }

  /** What is alive is decided by the last event about each binding. */
  lemma {:induction false} LiveIsLast(h: seq<Event>, k: BindingKey)
    ensures LastSubjects(h, k) == LiveSubjects(Live(h), k)
  {
    if h != [] {
      LiveIsLast(h[..|h| - 1], k);
    }
  }

  ghost function LiveSubjects(b: Bindings, k: BindingKey): Option<set<Subject>> {
    if k in b then Some(set s | s in b[k].subjects) else None
  }

  /** The recomputed index depends only on who each live binding names. */
  lemma SameSubjectsSameIndex(a: Bindings, b: Bindings, endpointOf: Cluster -> string)
    requires forall k :: LiveSubjects(a, k) == LiveSubjects(b, k)
    ensures RefsOf(a) == RefsOf(b)
    ensures AccessOf(a) == AccessOf(b)
    ensures EndpointsOf(a, endpointOf) == EndpointsOf(b, endpointOf)
  {
    forall k
      ensures k in a <==> k in b
      ensures k in a ==> forall s :: s in a[k].subjects <==> s in b[k].subjects
      ensures k in a ==> (a[k].subjects != [] <==> b[k].subjects != [])
    {
      assert LiveSubjects(a, k) == LiveSubjects(b, k);
      if k in a {
        var x, y := (set s | s in a[k].subjects), (set s | s in b[k].subjects);
        assert forall s :: s in a[k].subjects <==> s in x;
        assert forall s :: s in b[k].subjects <==> s in y;
        assert a[k].subjects != [] ==> a[k].subjects[0] in y;
        assert b[k].subjects != [] ==> b[k].subjects[0] in x;
      }
    }
    assert SubjectsOf(a) == SubjectsOf(b);
    assert forall s :: ClustersOf(a, s) == ClustersOf(b, s);
    assert forall s, c :: KeysOf(a, s, c) == KeysOf(b, s, c);
    forall s | s in SubjectsOf(a)
      ensures RefsOf(a)[s] == RefsOf(b)[s]
    {}
  }

  /** Two histories that end alike for every binding leave identical indexes. */
  lemma Confluence(h1: seq<Event>, h2: seq<Event>, t1: Translator, t2: Translator, endpointOf: Cluster -> string)
    requires forall k :: LastSubjects(h1, k) == LastSubjects(h2, k)
    requires EventEndpointsAre(h1, endpointOf) && EventEndpointsAre(h2, endpointOf)
    requires ReachedBy(t1, h1) && ReachedBy(t2, h2)
    ensures t1.refs == t2.refs
    ensures t1.g.access == t2.g.access
    ensures t1.g.endpoints == t2.g.endpoints
  {
    forall k
      ensures LiveSubjects(t1.bindings, k) == LiveSubjects(t2.bindings, k)
    {
      LiveIsLast(h1, k);
      LiveIsLast(h2, k);
    }
    SameSubjectsSameIndex(t1.bindings, t2.bindings, endpointOf);
  }

  /** The live binding `k` gives `c` to the user or to one of the groups. */
  ghost predicate GivesTo(b: Bindings, k: BindingKey, c: Cluster, user: string, groups: seq<string>) {
    k in b && k.cluster == c &&
    (User(user) in b[k].subjects || exists group <- groups :: Group(group) in b[k].subjects)
  }

  ghost predicate Given(b: Bindings, c: Cluster, user: string, groups: seq<string>) {
    exists k :: GivesTo(b, k, c, user, groups)
  }

  ghost predicate Lists(out: seq<AccessEndpoint>, c: Cluster) {
    exists e <- out :: e.clusterName == c
  }

  lemma VisibleIsGiven(b: Bindings, user: string, groups: seq<string>, c: Cluster)
    ensures Visible(AccessOf(b), user, groups, c) <==> Given(b, c, user, groups)
  {
    if Reaches(AccessOf(b), User(user), c) {
      var k :| k in b && User(user) in b[k].subjects && k.cluster == c;
      assert GivesTo(b, k, c, user, groups);
    }
    if group :| group in groups && Reaches(AccessOf(b), Group(group), c) {
      var k :| k in b && Group(group) in b[k].subjects && k.cluster == c;
      assert GivesTo(b, k, c, user, groups);
    }
    if k :| GivesTo(b, k, c, user, groups) {
      if User(user) in b[k].subjects {
        assert Reaches(AccessOf(b), User(user), c);
      } else {
        var group :| group in groups && Group(group) in b[k].subjects;
        assert Reaches(AccessOf(b), Group(group), c);
      }
    }
  }

  /** Event `i` is the last one about the binding. */
  predicate LastAbout(h: seq<Event>, k: BindingKey, i: int) {
    0 <= i < |h| && Touches(h[i], k) && forall j | i < j < |h| :: !Touches(h[j], k)
  }

  /** The last event about `k` applied it, naming the user or one of the groups. */
  ghost predicate LeftFor(h: seq<Event>, k: BindingKey, i: int, user: string, groups: seq<string>) {
    && LastAbout(h, k, i) && h[i].Applied?
    && (NamesUser(h[i].subjects, k.namespace, user) || exists group <- groups :: NamesGroup(h[i].subjects, group))
  }

  ghost predicate LeftAt(h: seq<Event>, c: Cluster, user: string, groups: seq<string>) {
    exists k: BindingKey, i :: k.cluster == c && LeftFor(h, k, i, user, groups)
  }

  lemma {:induction false} LastSubjectsAreLast(h: seq<Event>, k: BindingKey)
    ensures LastSubjects(h, k).Some? ==> exists i :: LastAbout(h, k, i) && h[i].Applied?
    ensures forall i | LastAbout(h, k, i) :: (
      LastSubjects(h, k) ==
        if h[i].Applied? then Some(set s | s in Translated(h[i].subjects, k.namespace)) else None)
  {
    if h != [] {
      var front, last := h[..|h| - 1], |h| - 1;
      LastSubjectsAreLast(front, k);
      if Touches(h[last], k) {
        assert LastAbout(h, k, last);
      } else {
        assert forall j | 0 <= j < last :: h[j] == front[j];
        forall i
          ensures LastAbout(h, k, i) <==> LastAbout(front, k, i)
          ensures LastAbout(h, k, i) ==> h[i] == front[i]
        {}
        if i :| LastAbout(front, k, i) && front[i].Applied? {
          assert LastAbout(h, k, i);
        }
      }
    }
  }

  /** A live binding gives the cluster exactly when the last event about some binding there left it for the caller. */
  lemma GivenIsLast(h: seq<Event>, c: Cluster, user: string, groups: seq<string>)
    ensures Given(Live(h), c, user, groups) <==> LeftAt(h, c, user, groups)
  {
    if k :| GivesTo(Live(h), k, c, user, groups) {
      LiveIsLast(h, k);
      LastSubjectsAreLast(h, k);
      var i :| LastAbout(h, k, i) && h[i].Applied?;
      LeftIsGiven(h, k, i, user, groups);
    }
    if k: BindingKey, i :| k.cluster == c && LeftFor(h, k, i, user, groups) {
      LastSubjectsAreLast(h, k);
      LiveIsLast(h, k);
      LeftIsGiven(h, k, i, user, groups);
    }
  }

  lemma LeftIsGiven(h: seq<Event>, k: BindingKey, i: int, user: string, groups: seq<string>)
    requires LastAbout(h, k, i) && h[i].Applied?
    requires LiveSubjects(Live(h), k) == Some(set s | s in Translated(h[i].subjects, k.namespace))
    ensures LeftFor(h, k, i, user, groups) <==> GivesTo(Live(h), k, k.cluster, user, groups)
  {
    var subjects := Translated(h[i].subjects, k.namespace);
    var there, left := (set s | s in Live(h)[k].subjects), (set s | s in subjects);
    assert there == left;
    assert forall s :: (s in Live(h)[k].subjects <==> s in there) && (s in subjects <==> s in left);
    TranslatedNames(h[i].subjects, k.namespace, user);
    forall group
      ensures Group(group) in subjects <==> NamesGroup(h[i].subjects, group)
    {
      TranslatedNames(h[i].subjects, k.namespace, group);
    }
  }

  /**
   * The whole pipeline: after any history of binding events, as the informers deliver them, a caller is answered
   * exactly the clusters where the last event about some binding left it naming the caller.
   */
  method ReviewAfter(h: seq<Event>, user: string, groups: seq<string>) returns (out: seq<AccessEndpoint>)
    ensures forall i, j | 0 <= i < j < |out| :: Less(out[i].clusterName, out[j].clusterName)
    ensures forall c :: Lists(out, c) <==> LeftAt(h, c, user, groups)
    ensures forall f, e | EventEndpointsAre(h, f) && e in out :: e.endpoint == f(e.clusterName)
  {
    var t := Replay(h);
    out := t.g.ClustersFor(user, groups);
    assert forall e <- out :: e.clusterName in t.g.endpoints;
    forall c
      ensures Lists(out, c) <==> LeftAt(h, c, user, groups)
    {
      VisibleIsGiven(Live(h), user, groups, c);
      ListsVisible(t.g, user, groups, out, c);
      GivenIsLast(h, c, user, groups);
    }
  }

  lemma ListsVisible(g: Graph, user: string, groups: seq<string>, out: seq<AccessEndpoint>, c: Cluster)
    requires g.Valid()
    requires forall e :: e in out <==>
      Visible(g.access, user, groups, e.clusterName)
      && e.clusterName in g.endpoints && e.endpoint == g.endpoints[e.clusterName]
    ensures Lists(out, c) <==> Visible(g.access, user, groups, c)
  {
    if Visible(g.access, user, groups, c) {
      var s :| Reaches(g.access, s, c);
      assert AccessEndpoint(c, g.endpoints[c]) in out;
    }
  }
}
