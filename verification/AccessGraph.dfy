/** The permission map shared by the RBAC provider and the review handler (access/pkg/graph). */
module AccessGraph {
  import opened Text
  import opened Sorting

  type Cluster = string

  datatype SubjectKind = UserKind | GroupKind

  datatype Subject = Subject(kind: SubjectKind, name: string)

  function User(name: string): Subject { Subject(UserKind, name) }

  function Group(name: string): Subject { Subject(GroupKind, name) }

  datatype AccessEndpoint = AccessEndpoint(clusterName: Cluster, endpoint: string)

  function ByClusterName(e: AccessEndpoint): Key { (e.clusterName, "") }

  type Access = map<Subject, set<Cluster>>

  ghost predicate Reaches(access: Access, s: Subject, c: Cluster) {
    s in access && c in access[s]
  }

  ghost predicate Reachable(access: Access, c: Cluster) {
    exists s :: Reaches(access, s, c)
  }

  ghost predicate NoEmptyEntry(access: Access) {
    forall s <- access :: access[s] != {}
  }

  /** What a caller sees: its own clusters and those of its groups. */
  ghost predicate Visible(access: Access, user: string, groups: seq<string>, c: Cluster) {
    Reaches(access, User(user), c) || exists group <- groups :: Reaches(access, Group(group), c)
  }

  /** Deletes one edge, and the subject with its last edge. */
  function DropEdge(access: Access, subject: Subject, cluster: Cluster): (r: Access)
    requires subject in access
    ensures forall s, c :: Reaches(r, s, c) <==> Reaches(access, s, c) && !(s == subject && c == cluster)
    ensures NoEmptyEntry(access) ==> NoEmptyEntry(r)
    ensures r.Keys <= access.Keys
  {
    var left := access[subject] - {cluster};
    assert forall c :: c in left <==> c in access[subject] && c != cluster;
    if left == {} then access - {subject} else access[subject := left]
  }

  class Graph {
    var access: Access
    var endpoints: map<Cluster, string>

    /** No subject is kept without a cluster, and exactly the reachable clusters have an endpoint. */
    ghost predicate Valid()
      reads this
    {
      NoEmptyEntry(access) && forall c :: c in endpoints <==> Reachable(access, c)
    }

    constructor ()
      ensures Valid() && access == map[] && endpoints == map[]
    {
      access, endpoints := map[], map[];
    }

    method Grant(subject: Subject, cluster: Cluster, endpoint: string)
      requires Valid()
      modifies this
      ensures Valid()
      ensures forall s, c :: Reaches(access, s, c) <==> Reaches(old(access), s, c) || (s == subject && c == cluster)
      ensures endpoints == old(endpoints)[cluster := endpoint]
    {
      if subject !in access {
        access := access[subject := {}];
      }
      access := access[subject := access[subject] + {cluster}];
      endpoints := endpoints[cluster := endpoint];
      assert forall s, c :: Reaches(access, s, c) <==> Reaches(old(access), s, c) || (s == subject && c == cluster);
      assert Reaches(access, subject, cluster);
    }

    method SetEndpoint(cluster: Cluster, endpoint: string)
      requires Valid()
      modifies this`endpoints
      ensures Valid()
      ensures endpoints == if Reachable(access, cluster) then old(endpoints)[cluster := endpoint] else old(endpoints)
    {
      if cluster in endpoints {
        endpoints := endpoints[cluster := endpoint];
      }
    }

    method Revoke(subject: Subject, cluster: Cluster)
      requires Valid()
      modifies this
      ensures Valid()
      ensures forall s, c :: Reaches(access, s, c) <==> Reaches(old(access), s, c) && !(s == subject && c == cluster)
      ensures endpoints == if Reachable(access, cluster) then old(endpoints) else old(endpoints) - {cluster}
    {
      if subject !in access {
        return;
      }
      access := DropEdge(access, subject, cluster);
      assert forall c | c != cluster :: Reachable(old(access), c) ==> Reachable(access, c) by {
        forall c | c != cluster && Reachable(old(access), c)
          ensures Reachable(access, c)
        {
          var s :| Reaches(old(access), s, c);
          assert Reaches(access, s, c);
        }
      }
      var any := AnyAccess(cluster);
      if !any {
        endpoints := endpoints - {cluster};
      }
    }

    method AnyAccess(cluster: Cluster) returns (any: bool)
      ensures any <==> Reachable(access, cluster)
    {
      var rest := access.Keys;
      while rest != {}
        invariant rest <= access.Keys
        invariant forall s | s in access && s !in rest :: cluster !in access[s]
      {
        var s :| s in rest;
        if cluster in access[s] {
          assert Reaches(access, s, cluster);
          return true;
        }
        rest := rest - {s};
      }
      return false;
    }

    method Forget(cluster: Cluster)
      requires Valid()
      modifies this
      ensures Valid()
      ensures forall s, c :: Reaches(access, s, c) <==> Reaches(old(access), s, c) && c != cluster
      ensures endpoints == old(endpoints) - {cluster}
    {
      var rest := access.Keys;
      while rest != {}
        invariant rest <= access.Keys
        invariant NoEmptyEntry(access)
        invariant forall s, c :: Reaches(access, s, c) <==>
          Reaches(old(access), s, c) && (c != cluster || s in rest)
        invariant endpoints == old(endpoints)
      {
        var s :| s in rest;
        rest := rest - {s};
        if cluster in access[s] {
          access := DropEdge(access, s, cluster);
        }
      }
      endpoints := endpoints - {cluster};
      forall c
        ensures c in endpoints <==> Reachable(access, c)
      {
        if c != cluster && Reachable(old(access), c) {
          var s :| Reaches(old(access), s, c);
          assert Reaches(access, s, c);
        }
      }
    }

    /** The review answer: every visible cluster once, with its endpoint, in name order. */
    method ClustersFor(user: string, groups: seq<string>) returns (out: seq<AccessEndpoint>)
      requires Valid()
      ensures StrictlySorted(out, ByClusterName)
      ensures forall i, j | 0 <= i < j < |out| :: Less(out[i].clusterName, out[j].clusterName)
      ensures forall e :: e in out <==>
        Visible(access, user, groups, e.clusterName)
        && e.clusterName in endpoints && e.endpoint == endpoints[e.clusterName]
    {
      var seen: set<Cluster> := if User(user) in access then access[User(user)] else {};
      for i := 0 to |groups|
        invariant forall c :: c in seen <==> Visible(access, user, groups[..i], c)
      {
        assert groups[..i + 1] == groups[..i] + [groups[i]];
        if Group(groups[i]) in access {
          seen := seen + access[Group(groups[i])];
        }
      }
      assert groups[..|groups|] == groups;
      assert forall c <- seen :: c in endpoints by {
        forall c <- seen
          ensures c in endpoints
        {
          var s :| Reaches(access, s, c);
        }
      }
      var rows: seq<AccessEndpoint> := [];
      var rest := seen;
      while rest != {}
        invariant rest <= seen
        invariant forall e :: e in rows <==>
          e.clusterName in seen - rest && e.clusterName in endpoints && e.endpoint == endpoints[e.clusterName]
        invariant DistinctKeys(rows, ByClusterName)
      {
        var c :| c in rest;
        rest := rest - {c};
        assert forall e <- rows :: e.clusterName != c;
        rows := rows + [AccessEndpoint(c, if c in endpoints then endpoints[c] else "")];
      }
      out := SortByKey(rows, ByClusterName);
      SortedDistinct(rows, out, ByClusterName);
      LessTotal("", "");
    }
  }

  /** Without empty entries the nested map is determined by its edges. */
  lemma AccessDetermined(a: Access, b: Access)
    requires NoEmptyEntry(a) && NoEmptyEntry(b)
    requires forall s, c :: Reaches(a, s, c) <==> Reaches(b, s, c)
    ensures a == b
  {
    forall s
      ensures s in a <==> s in b
      ensures s in a ==> a[s] == b[s]
    {
      if s in a {
        var c :| c in a[s];
        assert Reaches(a, s, c);
      }
      if s in b {
        var c :| c in b[s];
        assert Reaches(b, s, c);
      }
      if s in a && s in b {
        forall c
          ensures c in a[s] <==> c in b[s]
        {
          assert Reaches(a, s, c) <==> Reaches(b, s, c);
        }
      }
    }
  }
}
