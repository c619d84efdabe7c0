/**
 * The bind grant of a published export (marketplace/pkg/operator/publish.go): two objects written in a fixed
 * order by passes that may die between any two writes.
 */
module BindGrant {
  datatype Role = Role(resourceNames: seq<string>, verbs: seq<string>)

  datatype Binding = Binding(roleRef: string, users: seq<string>, groups: seq<string>)

  function RoleName(apiExport: string): string {
    "marketplace:bind:" + apiExport
  }

  function BindingName(apiExport: string): string {
    RoleName(apiExport) + ":consumers"
  }

  lemma NamesInjective(a: string, b: string)
    ensures RoleName(a) == RoleName(b) ==> a == b
    ensures BindingName(a) == BindingName(b) ==> a == b
  {
    var p := "marketplace:bind:";
    assert (p + a)[|p|..] == a && (p + b)[|p|..] == b;
    if BindingName(a) == BindingName(b) {
      assert |RoleName(a)| == |RoleName(b)|;
      assert BindingName(a)[..|RoleName(a)|] == RoleName(a) && BindingName(b)[..|RoleName(b)|] == RoleName(b);
    }
  }

  datatype Pass = Pass(apiExport: string, onCatalog: bool, writesLeft: nat)

  class Workspace {
    var roles: map<string, Role>
    var bindings: map<string, Binding>
    /** How many more writes the running process lives to make. */
    var writesLeft: nat

    /** A consumers binding never stands without its role. */
    ghost predicate Valid()
      reads this
    {
      forall e :: BindingName(e) in bindings ==> RoleName(e) in roles
    }

    ghost predicate BothPresent(apiExport: string)
      reads this
    {
      RoleName(apiExport) in roles && BindingName(apiExport) in bindings
    }

    ghost predicate BothAbsent(apiExport: string)
      reads this
    {
      RoleName(apiExport) !in roles && BindingName(apiExport) !in bindings
    }

    /** Nothing of any other export is touched. */
    twostate predicate OthersKept(apiExport: string)
      reads this
    {
      && roles - {RoleName(apiExport)} == old(roles) - {RoleName(apiExport)}
      && bindings - {BindingName(apiExport)} == old(bindings) - {BindingName(apiExport)}
    }

    constructor ()
      ensures Valid() && roles == map[] && bindings == map[]
    {
      roles, bindings, writesLeft := map[], map[], 0;
    }

    /** Returns false when the process dies on the way. An object already there is left as it is. */
    method EnsureBindGrant(apiExport: string, users: seq<string>, groups: seq<string>) returns (done: bool)
      requires Valid()
      modifies this
      ensures Valid() && OthersKept(apiExport)
      ensures done ==> BothPresent(apiExport)
      ensures old(writesLeft) >= 2 ==> done
      ensures var b := BindingName(apiExport);
        b in bindings ==>
          bindings[b] == (if b in old(bindings) then old(bindings)[b] else Binding(RoleName(apiExport), users, groups))
      ensures var r := RoleName(apiExport);
        r in roles ==> roles[r] == (if r in old(roles) then old(roles)[r] else Role([apiExport], ["bind"]))
    {
      if writesLeft == 0 {
        return false;
      }
      writesLeft := writesLeft - 1;
      if RoleName(apiExport) !in roles {
        roles := roles[RoleName(apiExport) := Role([apiExport], ["bind"])];
      }
      if writesLeft == 0 {
        return false;
      }
      writesLeft := writesLeft - 1;
      if BindingName(apiExport) !in bindings {
        bindings := bindings[BindingName(apiExport) := Binding(RoleName(apiExport), users, groups)];
        forall e
          ensures BindingName(e) in bindings ==> RoleName(e) in roles
        {
          NamesInjective(e, apiExport);
        }
      }
      return true;
    }

    /** One role lookup decides whether there is anything to remove; that is enough. */
    method RemoveBindGrant(apiExport: string) returns (done: bool)
      requires Valid()
      modifies this
      ensures Valid() && OthersKept(apiExport)
      ensures done && apiExport != "" ==> BothAbsent(apiExport)
      ensures apiExport == "" ==> done && roles == old(roles) && bindings == old(bindings)
      ensures old(writesLeft) >= 2 ==> done
    {
      if apiExport == "" {
        return true;
      }
      if RoleName(apiExport) !in roles {
        return true;
      }
      if writesLeft == 0 {
        return false;
      }
      writesLeft := writesLeft - 1;
      bindings := bindings - {BindingName(apiExport)};
      if writesLeft == 0 {
        return false;
      }
      writesLeft := writesLeft - 1;
      roles := roles - {RoleName(apiExport)};
      forall e
        ensures BindingName(e) in bindings ==> RoleName(e) in roles
      {
        NamesInjective(e, apiExport);
      }
      return true;
    }
  }

  /**
   * Any sequence of passes over any exports, each dying at any write: once the latest pass for an export
   * completes, its grant is whole or gone, as the catalog says.
   */
  method Operate(script: seq<Pass>, users: seq<string>, groups: seq<string>) returns (w: Workspace)
    ensures w.Valid()
    ensures forall i | 0 <= i < |script| && script[i].writesLeft >= 2 && script[i].apiExport != ""
      && LatestFor(script, i) ::
      if script[i].onCatalog then w.BothPresent(script[i].apiExport) else w.BothAbsent(script[i].apiExport)
  {
    w := new Workspace();
    ghost var settled: map<string, bool> := map[];
    for n := 0 to |script|
      invariant fresh(w) && w.Valid()
      invariant forall e <- settled :: if settled[e] then w.BothPresent(e) else w.BothAbsent(e)
      invariant forall i | 0 <= i < n && script[i].writesLeft >= 2 && script[i].apiExport != ""
        && LatestFor(script[..n], i) ::
        script[i].apiExport in settled && settled[script[i].apiExport] == script[i].onCatalog
    {
      var p := script[n];
      w.writesLeft := p.writesLeft;
      ghost var roles, bindings := w.roles, w.bindings;
      var done;
      if p.onCatalog {
        done := w.EnsureBindGrant(p.apiExport, users, groups);
      } else {
        done := w.RemoveBindGrant(p.apiExport);
      }
      forall e | e in settled && e != p.apiExport
        ensures if settled[e] then w.BothPresent(e) else w.BothAbsent(e)
      {
        NamesInjective(e, p.apiExport);
        assert RoleName(e) in w.roles <==> RoleName(e) in w.roles - {RoleName(p.apiExport)};
        assert RoleName(e) in roles <==> RoleName(e) in roles - {RoleName(p.apiExport)};
        assert BindingName(e) in w.bindings <==> BindingName(e) in w.bindings - {BindingName(p.apiExport)};
        assert BindingName(e) in bindings <==> BindingName(e) in bindings - {BindingName(p.apiExport)};
      }
      settled := if done && p.apiExport != "" then settled[p.apiExport := p.onCatalog] else settled - {p.apiExport};
      forall i | 0 <= i < n && LatestFor(script[..n + 1], i)
        ensures script[i].apiExport != p.apiExport && LatestFor(script[..n], i)
      {
        assert script[..n + 1][n] == p;
        assert forall j | 0 <= j < n :: script[..n + 1][j] == script[..n][j];
      }
    }
    assert script[..|script|] == script;
  }

  /** No later pass of the script is for the same export. */
  predicate LatestFor(script: seq<Pass>, i: nat) {
    i < |script| && forall j | i < j < |script| :: script[j].apiExport != script[i].apiExport
  }
}
