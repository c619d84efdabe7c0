/** Role bindings turned into reference-counted edges of the permission map (access/pkg/rbacprovider). */
module RbacTranslator {
  import opened Options
  import opened AccessGraph

  /** A subject as a role binding names it. */
  datatype RbacSubject = RbacSubject(kind: string, name: string, namespace: string)

  datatype BindingKey = BindingKey(cluster: Cluster, namespace: string, name: string)

  datatype BindingState = BindingState(subjects: seq<Subject>, endpoint: string)

  type Bindings = map<BindingKey, BindingState>

  type Refs = map<Subject, map<Cluster, set<BindingKey>>>

  function TranslateSubject(rs: RbacSubject, defaultNamespace: string): Option<Subject> {
    if rs.kind == "User" then Some(User(rs.name))
    else if rs.kind == "Group" then Some(Group(rs.name))
    else if rs.kind == "ServiceAccount" then
      var namespace := if rs.namespace == "" then defaultNamespace else rs.namespace;
      if namespace == "" then None else Some(User("system:serviceaccount:" + namespace + ":" + rs.name))
    else None
  }

  /** Some subject of the binding is the user: by name, or as the account of a namespace, its own or the default. */
  ghost predicate NamesUser(subjects: seq<RbacSubject>, defaultNamespace: string, name: string) {
    exists rs <- subjects ::
      (rs.kind == "User" && rs.name == name)
      || (rs.kind == "ServiceAccount" && rs.namespace != ""
          && name == "system:serviceaccount:" + rs.namespace + ":" + rs.name)
      || (rs.kind == "ServiceAccount" && rs.namespace == "" && defaultNamespace != ""
          && name == "system:serviceaccount:" + defaultNamespace + ":" + rs.name)
  }

  ghost predicate NamesGroup(subjects: seq<RbacSubject>, name: string) {
    exists rs <- subjects :: rs.kind == "Group" && rs.name == name
  }

  /** translateSubjects: what translates, each once, in the order it comes. */
  function Translated(subjects: seq<RbacSubject>, defaultNamespace: string): seq<Subject> {
    if subjects == [] then []
    else
      var before := Translated(subjects[..|subjects| - 1], defaultNamespace);
      match TranslateSubject(subjects[|subjects| - 1], defaultNamespace)
      case None => before
      case Some(s) => if s in before then before else before + [s]
  }

  lemma {:induction false} TranslatedOnce(subjects: seq<RbacSubject>, defaultNamespace: string)
    ensures var out := Translated(subjects, defaultNamespace);
      && (forall i, j | 0 <= i < j < |out| :: out[i] != out[j])
      && (forall s :: s in out <==> exists rs <- subjects :: TranslateSubject(rs, defaultNamespace) == Some(s))
  {
    if subjects != [] {
      var front := subjects[..|subjects| - 1];
      TranslatedOnce(front, defaultNamespace);
      assert subjects == front + [subjects[|subjects| - 1]];
    }
  }

  /** Users, groups and accounts are told apart, and nothing else is anybody. */
  lemma TranslatedNames(subjects: seq<RbacSubject>, defaultNamespace: string, name: string)
    ensures User(name) in Translated(subjects, defaultNamespace) <==> NamesUser(subjects, defaultNamespace, name)
    ensures Group(name) in Translated(subjects, defaultNamespace) <==> NamesGroup(subjects, name)
  {
    TranslatedOnce(subjects, defaultNamespace);
    if NamesUser(subjects, defaultNamespace, name) {
      var rs :| rs in subjects && (rs.kind == "User" || rs.kind == "ServiceAccount")
        && TranslateSubject(rs, defaultNamespace) == Some(User(name));
    }
    if NamesGroup(subjects, name) {
      var rs :| rs in subjects && rs.kind == "Group" && rs.name == name;
      assert TranslateSubject(rs, defaultNamespace) == Some(Group(name));
    }
  }

  /** Every subject that translates, once. */
  method TranslateSubjects(subjects: seq<RbacSubject>, defaultNamespace: string) returns (out: seq<Subject>)
    ensures out == Translated(subjects, defaultNamespace)
    ensures forall i, j | 0 <= i < j < |out| :: out[i] != out[j]
    ensures forall name :: User(name) in out <==> NamesUser(subjects, defaultNamespace, name)
    ensures forall name :: Group(name) in out <==> NamesGroup(subjects, name)
  {
    out := [];
    for n := 0 to |subjects|
      invariant out == Translated(subjects[..n], defaultNamespace)
    {
      assert subjects[..n + 1][..n] == subjects[..n];
      match TranslateSubject(subjects[n], defaultNamespace)
      case None =>
      case Some(s) =>
        if s !in out {
          out := out + [s];
        }
    }
    assert subjects[..|subjects|] == subjects;
    TranslatedOnce(subjects, defaultNamespace);
    forall name
      ensures User(name) in out <==> NamesUser(subjects, defaultNamespace, name)
      ensures Group(name) in out <==> NamesGroup(subjects, name)
    {
      TranslatedNames(subjects, defaultNamespace, name);
    }
  }

  ghost predicate HasRef(refs: Refs, s: Subject, c: Cluster, k: BindingKey) {
    s in refs && c in refs[s] && k in refs[s][c]
  }

  predicate HasCluster(refs: Refs, s: Subject, c: Cluster) {
    s in refs && c in refs[s]
  }

  ghost predicate NoEmptyMap(refs: Refs) {
    forall s <- refs :: refs[s] != map[] && forall c <- refs[s] :: refs[s][c] != {}
  }

  /** The live binding `k` sits in cluster `c` and names `s`. */
  ghost predicate Contributes(bindings: Bindings, k: BindingKey, s: Subject, c: Cluster) {
    k in bindings && k.cluster == c && s in bindings[k].subjects
  }

  /** Every endpoint is an earlier one, or the given one at the given cluster. */
  ghost predicate EndpointsFrom(before: map<Cluster, string>, c: Cluster, endpoint: string, after: map<Cluster,
                                string>) {
    forall d <- after :: (d in before && after[d] == before[d]) || (d == c && after[d] == endpoint)
  }

  ghost predicate EndpointsKept(before: map<Cluster, string>, after: map<Cluster, string>) {
    forall d <- after :: d in before && after[d] == before[d]
  }

  /** incrementRef on the index: one more reference. */
  function AddRef(refs: Refs, s: Subject, c: Cluster, key: BindingKey): (r: Refs)
    ensures forall s', c', k :: HasRef(r, s', c', k) <==> HasRef(refs, s', c', k) || (s' == s && c' == c && k == key)
    ensures NoEmptyMap(refs) ==> NoEmptyMap(r)
    ensures forall s', c' :: HasCluster(r, s', c') <==> HasCluster(refs, s', c') || (s' == s && c' == c)
  {
    var clusters := if s in refs then refs[s] else map[];
    var keys := if c in clusters then clusters[c] else {};
    refs[s := clusters[c := keys + {key}]]
  }

  /** decrementRef on the index: one reference less, and no empty map left behind. */
  function DropRef(refs: Refs, s: Subject, c: Cluster, key: BindingKey): (r: Refs)
    requires HasCluster(refs, s, c)
    ensures forall s', c', k :: HasRef(r, s', c', k) <==> HasRef(refs, s', c', k) && !(s' == s && c' == c && k == key)
    ensures NoEmptyMap(refs) ==> NoEmptyMap(r)
    ensures forall s', c' :: HasCluster(r, s', c') <==>
      HasCluster(refs, s', c') && !(s' == s && c' == c && refs[s][c] <= {key})
  {
    var left := refs[s][c] - {key};
    var clusters := refs[s] - {c};
    assert forall k :: k in left <==> k in refs[s][c] && k != key;
    assert forall c' :: c' in clusters <==> c' in refs[s] && c' != c;
    if left != {} then refs[s := refs[s][c := left]]
    else if clusters == map[] then refs - {s}
    else refs[s := clusters]
  }

  class Translator {
    const g: Graph
    var refs: Refs
    var bindings: Bindings

    /** The two indexes agree with each other, whatever the recorded bindings say. */
    ghost predicate InSync()
      reads this, g
    {
      && g.Valid()
      && NoEmptyMap(refs)
      && forall s, c :: Reaches(g.access, s, c) <==> HasCluster(refs, s, c)
    }

    /** References are exactly the contributions of the live bindings. */
    ghost predicate Valid()
      reads this, g
    {
      InSync() && forall s, c, k :: HasRef(refs, s, c, k) <==> Contributes(bindings, k, s, c)
    }

    constructor ()
      ensures Valid() && fresh(g) && bindings == map[] && g.endpoints == map[]
    {
      g := new Graph();
      refs, bindings := map[], map[];
    }

    method IncrementRef(s: Subject, c: Cluster, endpoint: string, key: BindingKey)
      requires InSync()
      modifies this`refs, g
      ensures InSync() && refs == AddRef(old(refs), s, c, key)
      ensures EndpointsFrom(old(g.endpoints), c, endpoint, g.endpoints)
    {
      var first := !HasCluster(refs, s, c);
      refs := AddRef(refs, s, c, key);
      if first {
        g.Grant(s, c, endpoint);
      }
    }

    method DecrementRef(s: Subject, c: Cluster, key: BindingKey)
      requires InSync()
      modifies this`refs, g
      ensures InSync() && refs == if HasCluster(old(refs), s, c) then DropRef(old(refs), s, c, key) else old(refs)
      ensures EndpointsKept(old(g.endpoints), g.endpoints)
    {
      if !HasCluster(refs, s, c) {
        return;
      }
      refs := DropRef(refs, s, c, key);
      if !HasCluster(refs, s, c) {
        g.Revoke(s, c);
      }
    }

    /** The first loop of apply: references of subjects the binding no longer names. */
    method DropStale(key: BindingKey, oldSet: set<Subject>, newSet: set<Subject>)
      requires InSync()
      modifies this`refs, g
      ensures InSync() && EndpointsKept(old(g.endpoints), g.endpoints)
      ensures forall s, c, k :: HasRef(refs, s, c, k) <==>
        HasRef(old(refs), s, c, k) && !(k == key && c == key.cluster && s in oldSet - newSet)
    {
      var rest := oldSet;
      while rest != {}
        invariant rest <= oldSet && InSync()
        invariant forall s, c, k :: HasRef(refs, s, c, k) <==>
          HasRef(old(refs), s, c, k) && !(k == key && c == key.cluster && s in oldSet - newSet && s !in rest)
        invariant EndpointsKept(old(g.endpoints), g.endpoints)
      {
        var s :| s in rest;
        rest := rest - {s};
        if s !in newSet {
          DecrementRef(s, key.cluster, key);
        }
      }
    }

    /** The second loop: references of subjects it newly names. */
    method AddFresh(key: BindingKey, oldSet: set<Subject>, newSet: set<Subject>, endpoint: string)
      requires InSync()
      modifies this`refs, g
      ensures InSync() && EndpointsFrom(old(g.endpoints), key.cluster, endpoint, g.endpoints)
      ensures forall s, c, k :: HasRef(refs, s, c, k) <==>
        HasRef(old(refs), s, c, k) || (k == key && c == key.cluster && s in newSet - oldSet)
    {
      var rest := newSet;
      while rest != {}
        invariant rest <= newSet && InSync()
        invariant forall s, c, k :: HasRef(refs, s, c, k) <==>
          HasRef(old(refs), s, c, k) || (k == key && c == key.cluster && s in newSet - oldSet && s !in rest)
        invariant EndpointsFrom(old(g.endpoints), key.cluster, endpoint, g.endpoints)
      {
        var s :| s in rest;
        rest := rest - {s};
        if s !in oldSet {
          IncrementRef(s, key.cluster, endpoint, key);
        }
      }
    }

    method Apply(key: BindingKey, subjects: seq<Subject>, endpoint: string)
      requires Valid()
      modifies this, g
      ensures Valid()
      ensures bindings == old(bindings)[key := BindingState(subjects, endpoint)]
      ensures EndpointsFrom(old(g.endpoints), key.cluster, endpoint, g.endpoints)
    {
      var hasOld := key in bindings;
      var oldState := if hasOld then bindings[key] else BindingState([], "");
      bindings := bindings[key := BindingState(subjects, endpoint)];
      var oldSet := set s | s in oldState.subjects;
      var newSet := set s | s in subjects;
      DropStale(key, oldSet, newSet);
      AddFresh(key, oldSet, newSet, endpoint);
      assert forall s, c, k :: HasRef(refs, s, c, k) <==> Contributes(bindings, k, s, c);
      if hasOld && oldState.endpoint != endpoint {
        g.SetEndpoint(key.cluster, endpoint);
      }
    }

    /** ApplyClusterRoleBinding is the case of the empty namespace. */
    method ApplyRoleBinding(namespace: string, name: string, subjects: seq<RbacSubject>, cluster: Cluster,
                            endpoint: string)
      requires Valid()
      modifies this, g
      ensures Valid()
      ensures var key := BindingKey(cluster, namespace, name);
        && bindings == old(bindings)[key := BindingState(Translated(subjects, namespace), endpoint)]
        && (forall n :: Contributes(bindings, key, User(n), cluster) <==> NamesUser(subjects, namespace, n))
        && (forall n :: Contributes(bindings, key, Group(n), cluster) <==> NamesGroup(subjects, n))
        && (forall s, c | c != cluster :: !Contributes(bindings, key, s, c))
        && forall s, c, k | k != key :: Contributes(bindings, k, s, c) <==> Contributes(old(bindings), k, s, c)
      ensures EndpointsFrom(old(g.endpoints), cluster, endpoint, g.endpoints)
    {
      var translated := TranslateSubjects(subjects, namespace);
      Apply(BindingKey(cluster, namespace, name), translated, endpoint);
    }

    method Remove(key: BindingKey)
      requires Valid()
      modifies this, g
      ensures Valid()
      ensures bindings == old(bindings) - {key}
      ensures EndpointsKept(old(g.endpoints), g.endpoints)
    {
      if key !in bindings {
        return;
      }
      var state := bindings[key];
      bindings := bindings - {key};
      for n := 0 to |state.subjects|
        invariant InSync()
        invariant bindings == old(bindings) - {key}
        invariant forall s, c, k :: HasRef(refs, s, c, k) <==>
          Contributes(old(bindings), k, s, c) && (k == key ==> s !in state.subjects[..n])
        invariant EndpointsKept(old(g.endpoints), g.endpoints)
      {
        assert state.subjects[..n + 1] == state.subjects[..n] + [state.subjects[n]];
        DecrementRef(state.subjects[n], key.cluster, key);
      }
      assert state.subjects[..|state.subjects|] == state.subjects;
    }

    method ForgetCluster(cluster: Cluster)
      requires Valid()
      modifies this, g
      ensures Valid()
      ensures bindings == map k | k in old(bindings) && k.cluster != cluster :: old(bindings)[k]
      ensures EndpointsKept(old(g.endpoints), g.endpoints)
    {
      var rest := bindings.Keys;
      while rest != {}
        invariant rest <= old(bindings).Keys && Valid()
        invariant bindings == map k | k in old(bindings) && (k.cluster != cluster || k in rest) :: old(bindings)[k]
        invariant EndpointsKept(old(g.endpoints), g.endpoints)
      {
        var key :| key in rest;
        rest := rest - {key};
        if key.cluster == cluster {
          Remove(key);
        }
      }
      forall s
        ensures !Reaches(g.access, s, cluster)
      {
        if s in refs && cluster in refs[s] {
          var k :| k in refs[s][cluster];
          assert HasRef(refs, s, cluster, k);
        }
      }
      g.Forget(cluster);
    }
  }
}
