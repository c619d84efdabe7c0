/** An offering's claim surface and the text its revision is a digest of (marketplace/pkg/offering). */
module Offering {
  import opened Options
  import opened Text
  import opened Sorting

  /** A permission claim as declared; the labels are those of its default selector, if any. */
  datatype Declared = Declared(
    group: string, resource: string, verbs: seq<string>, identityHash: string, labels: map<string, string>)

  datatype Claim = Claim(
    group: string, resource: string, verbs: seq<string>, identityHash: string, labels: map<string, string>)

  function ByResource(c: Claim): Key { (c.group, c.resource) }

  /** `c` is `d` with its verbs in order. */
  ghost predicate Projects(d: Declared, c: Claim) {
    && c.group == d.group && c.resource == d.resource && c.identityHash == d.identityHash && c.labels == d.labels
    && multiset(c.verbs) == multiset(d.verbs) && Sorted(c.verbs, ByString)
  }

  ghost predicate Pairwise(declared: seq<Declared>, list: seq<Claim>) {
    |list| == |declared| && forall j | 0 <= j < |list| :: Projects(declared[j], list[j])
  }

  /** One projection per declared claim, in (group, resource) order; equal keys in any order. */
  ghost predicate AreClaims(declared: seq<Declared>, out: seq<Claim>) {
    Sorted(out, ByResource) && exists list :: Pairwise(declared, list) && multiset(out) == multiset(list)
  }

  method Claims(declared: seq<Declared>) returns (out: seq<Claim>)
    ensures AreClaims(declared, out)
    ensures forall i, j | 0 <= i < j < |out| ::
      !(Less(out[j].group, out[i].group) || (out[j].group == out[i].group && Less(out[j].resource, out[i].resource)))
  {
    var list: seq<Claim> := [];
    for i := 0 to |declared|
      invariant Pairwise(declared[..i], list)
    {
      assert declared[..i + 1] == declared[..i] + [declared[i]];
      var verbs := SortByKey(declared[i].verbs, ByString);
      var d := declared[i];
      list := list + [Claim(d.group, d.resource, verbs, d.identityHash, d.labels)];
    }
    out := SortByKey(list, ByResource);
    assert declared[..|declared|] == declared;
    assert Pairwise(declared, list);
  }

  /** Sorting strings leaves one result: equal keys are equal strings. */
  lemma SortedVerbsUnique(a: seq<string>, b: seq<string>)
    requires multiset(a) == multiset(b) && Sorted(a, ByString) && Sorted(b, ByString)
    ensures a == b
  {
    SortedUnique(a, b, ByString);
  }

  predicate DistinctResources(ds: seq<Declared>) {
    forall i, j | 0 <= i < j < |ds| :: (ds[i].group, ds[i].resource) != (ds[j].group, ds[j].resource)
  }

  predicate SameUpToVerbOrder(d: Declared, e: Declared) {
    && d.group == e.group && d.resource == e.resource && d.identityHash == e.identityHash && d.labels == e.labels
    && multiset(d.verbs) == multiset(e.verbs)
  }

  /** One list is a reordering of the other, verbs reordered inside. */
  ghost predicate Reordered(ds: seq<Declared>, es: seq<Declared>) {
    && |ds| == |es|
    && (forall d <- ds :: exists e <- es :: SameUpToVerbOrder(d, e))
    && (forall e <- es :: exists d <- ds :: SameUpToVerbOrder(d, e))
  }

  /** With distinct resources the result is strictly sorted. */
  lemma ClaimsStrict(ds: seq<Declared>, out: seq<Claim>)
    requires AreClaims(ds, out) && DistinctResources(ds)
    ensures StrictlySorted(out, ByResource)
  {
    var list :| Pairwise(ds, list) && multiset(out) == multiset(list);
    assert DistinctKeys(list, ByResource) by {
      forall i, j | 0 <= i < j < |list|
        ensures ByResource(list[i]) != ByResource(list[j])
      {
        assert Projects(ds[i], list[i]) && Projects(ds[j], list[j]);
      }
    }
    SortedDistinct(list, out, ByResource);
  }

  lemma SourceOf(ds: seq<Declared>, out: seq<Claim>, c: Claim) returns (d: Declared)
    requires AreClaims(ds, out) && c in out
    ensures d in ds && Projects(d, c)
  {
    var list :| Pairwise(ds, list) && multiset(out) == multiset(list);
    assert c in multiset(list);
    var j :| 0 <= j < |list| && list[j] == c;
    d := ds[j];
  }

  lemma ProjectionOf(ds: seq<Declared>, out: seq<Claim>, d: Declared) returns (c: Claim)
    requires AreClaims(ds, out) && d in ds
    ensures c in out && Projects(d, c)
  {
    var list :| Pairwise(ds, list) && multiset(out) == multiset(list);
    var j :| 0 <= j < |ds| && ds[j] == d;
    c := list[j];
    assert c in multiset(list);
  }

  lemma Carried(ds: seq<Declared>, es: seq<Declared>, a: seq<Claim>, b: seq<Claim>, c: Claim)
    requires AreClaims(ds, a) && AreClaims(es, b) && c in a
    requires forall d <- ds :: exists e <- es :: SameUpToVerbOrder(d, e) || SameUpToVerbOrder(e, d)
    ensures c in b
  {
    var d := SourceOf(ds, a, c);
    var e :| e in es && (SameUpToVerbOrder(d, e) || SameUpToVerbOrder(e, d));
    var c' := ProjectionOf(es, b, e);
    SortedVerbsUnique(c.verbs, c'.verbs);
  }

  /** Reordering the claims of an export, or the verbs of a claim, is no change of consent. */
  lemma ClaimsCanonical(ds: seq<Declared>, es: seq<Declared>, a: seq<Claim>, b: seq<Claim>)
    requires DistinctResources(ds) && DistinctResources(es) && Reordered(ds, es)
    requires AreClaims(ds, a) && AreClaims(es, b)
    ensures a == b
  {
    ClaimsStrict(ds, a);
    ClaimsStrict(es, b);
    forall c ensures c in a <==> c in b {
      if c in a {
        Carried(ds, es, a, b, c);
      }
      if c in b {
        Carried(es, ds, b, a, c);
      }
    }
    StrictlySortedUnique(a, b, ByResource);
  }

  /** Declared claims on one resource say the same. */
  ghost predicate Consistent(ds: seq<Declared>) {
    forall i, j | 0 <= i < |ds| && 0 <= j < |ds| && ds[i].group == ds[j].group && ds[i].resource == ds[j].resource ::
      SameUpToVerbOrder(ds[i], ds[j])
  }

  /** Whatever order they are declared in, and whatever order sorting leaves equal keys in, the result is one. */
  ghost predicate OrderFree(ds: seq<Declared>) {
    forall es, a, b | multiset(es) == multiset(ds) && AreClaims(ds, a) && AreClaims(es, b) :: a == b
  }

  lemma {:induction false} PairwiseExists(ds: seq<Declared>) returns (list: seq<Claim>)
    ensures Pairwise(ds, list)
  {
    list := [];
    if ds != [] {
      var rest := PairwiseExists(ds[1..]);
      var verbs := SortExists(ds[0].verbs, ByString);
      list := [Claim(ds[0].group, ds[0].resource, verbs, ds[0].identityHash, ds[0].labels)] + rest;
      forall j | 0 < j < |ds|
        ensures Projects(ds[j], list[j])
      {
        assert Projects(ds[1..][j - 1], rest[j - 1]);
      }
    }
  }

  function Omit<T>(s: seq<T>, i: nat): seq<T>
    requires i < |s|
  {
    s[..i] + s[i + 1..]
  }

  lemma OmitOne<T>(s: seq<T>, i: nat)
    requires i < |s|
    ensures multiset(s) == multiset(Omit(s, i)) + multiset{s[i]}
  {
    assert s == s[..i] + [s[i]] + s[i + 1..];
  }

  /** Two sequences are permutations of each other exactly when they are without one common element. */
  lemma OmitSame<T>(s: seq<T>, t: seq<T>, i: nat, j: nat)
    requires i < |s| && j < |t| && s[i] == t[j]
    ensures multiset(s) == multiset(t) <==> multiset(Omit(s, i)) == multiset(Omit(t, j))
  {
    OmitOne(s, i);
    OmitOne(t, j);
    assert multiset(s) - multiset{s[i]} == multiset(Omit(s, i));
    assert multiset(t) - multiset{s[i]} == multiset(Omit(t, j));
  }

  lemma OmitPair(ds: seq<Declared>, l: seq<Claim>, i: nat)
    requires Pairwise(ds, l) && i < |ds|
    ensures Pairwise(Omit(ds, i), Omit(l, i)) && Projects(ds[i], l[i])
  {
    forall j | 0 <= j < |ds| - 1
      ensures Projects(Omit(ds, i)[j], Omit(l, i)[j])
    {
      var k := if j < i then j else j + 1;
      assert Projects(ds[k], l[k]);
    }
  }

  /** Permuted declarations have permuted projections. */
  lemma {:induction false} PermutedProjections(ds: seq<Declared>, es: seq<Declared>, l: seq<Claim>, m: seq<Claim>)
    requires multiset(ds) == multiset(es) && Pairwise(ds, l) && Pairwise(es, m)
    ensures multiset(l) == multiset(m)
    decreases |ds|
  {
    if ds == [] {
      assert |multiset(ds)| == |multiset(es)|;
    } else {
      assert ds[0] in multiset(es);
      var i :| 0 <= i < |es| && es[i] == ds[0];
      OmitPair(ds, l, 0);
      OmitPair(es, m, i);
      SortedVerbsUnique(l[0].verbs, m[i].verbs);
      OmitSame(ds, es, 0, i);
      OmitSame(l, m, 0, i);
      PermutedProjections(Omit(ds, 0), Omit(es, i), Omit(l, 0), Omit(m, i));
    }
  }

  lemma ConsistentKeysTell(ds: seq<Declared>, l: seq<Claim>)
    requires Consistent(ds) && Pairwise(ds, l)
    ensures KeysTell(l, ByResource)
  {
    forall x, y | x in l && y in l && ByResource(x) == ByResource(y)
      ensures x == y
    {
      var i :| 0 <= i < |l| && l[i] == x;
      var j :| 0 <= j < |l| && l[j] == y;
      assert Projects(ds[i], x) && Projects(ds[j], y) && SameUpToVerbOrder(ds[i], ds[j]);
      SortedVerbsUnique(x.verbs, y.verbs);
    }
  }

  /** Two claims on one resource that differ may come out in either order. */
  lemma InconsistentTwoResults(ds: seq<Declared>, i: nat, j: nat) returns (a: seq<Claim>, b: seq<Claim>)
    requires i < |ds| && j < |ds| && ds[i].group == ds[j].group && ds[i].resource == ds[j].resource
    requires !SameUpToVerbOrder(ds[i], ds[j])
    ensures AreClaims(ds, a) && AreClaims(ds, b) && a != b
  {
    var list := PairwiseExists(ds);
    assert Projects(ds[i], list[i]) && Projects(ds[j], list[j]);
    a := SortExists(list, ByResource);
    assert list[i] in multiset(a) && list[j] in multiset(a);
    var p :| 0 <= p < |a| && a[p] == list[i];
    var q :| 0 <= q < |a| && a[q] == list[j];
    SwapKeepsSorted(a, p, q, ByResource);
    b := a[p := a[q]][q := a[p]];
    assert b[p] == a[q] != a[p];
  }

  /** The projected list does not depend on any order exactly when claims on one resource say the same. */
  lemma OrderFreeExactly(ds: seq<Declared>)
    ensures OrderFree(ds) <==> Consistent(ds)
  {
    if Consistent(ds) {
      forall es, a, b | multiset(es) == multiset(ds) && AreClaims(ds, a) && AreClaims(es, b)
        ensures a == b
      {
        var l :| Pairwise(ds, l) && multiset(a) == multiset(l);
        var m :| Pairwise(es, m) && multiset(b) == multiset(m);
        PermutedProjections(ds, es, l, m);
        ConsistentKeysTell(ds, l);
        assert forall x :: x in a <==> x in multiset(a);
        assert forall x :: x in l <==> x in multiset(l);
        SortedUnique(a, b, ByResource);
      }
    } else {
      var i, j :| 0 <= i < |ds| && 0 <= j < |ds| && ds[i].group == ds[j].group && ds[i].resource == ds[j].resource
        && !SameUpToVerbOrder(ds[i], ds[j]);
      var a, b := InconsistentTwoResults(ds, i, j);
    }
  }

  /** The same when sorting is stable, so that equal keys come out as they were declared. */
  ghost predicate AreStableClaims(declared: seq<Declared>, out: seq<Claim>) {
    exists list :: Pairwise(declared, list) && StableSort(list, out, ByResource)
  }

  /** Whatever order they are declared in, a stable sort has one result. */
  ghost predicate StableOrderFree(ds: seq<Declared>) {
    forall es, a, b | multiset(es) == multiset(ds) && AreStableClaims(ds, a) && AreStableClaims(es, b) :: a == b
  }

  function Swap<T>(s: seq<T>, i: nat, j: nat): seq<T>
    requires i < |s| && j < |s|
  {
    s[i := s[j]][j := s[i]]
  }

  /** Two claims on one resource that differ: declared the other way round, a stable sort gives another list. */
  lemma SwappedDeclaration(ds: seq<Declared>, i: nat, j: nat) returns (a: seq<Claim>, b: seq<Claim>)
    requires i < j < |ds| && ds[i].group == ds[j].group && ds[i].resource == ds[j].resource
    requires !SameUpToVerbOrder(ds[i], ds[j])
    ensures multiset(Swap(ds, i, j)) == multiset(ds)
    ensures AreStableClaims(ds, a) && AreStableClaims(Swap(ds, i, j), b) && a != b
  {
    var list := PairwiseExists(ds);
    var swapped := Swap(list, i, j);
    assert Projects(ds[i], list[i]) && Projects(ds[j], list[j]);
    forall n | 0 <= n < |ds|
      ensures Projects(Swap(ds, i, j)[n], swapped[n])
    {
      assert Projects(ds[n], list[n]);
    }
    a := SortExists(list, ByResource);
    b := SortExists(swapped, ByResource);
    OfKeyAt(list, i, ByResource);
    OfKeyAt(swapped, i, ByResource);
    assert swapped[..i] == list[..i];
    assert list[i] != swapped[i];
  }

  /** With a stable sort too, the declared order shows exactly when two claims on one resource differ. */
  lemma StableOrderFreeExactly(ds: seq<Declared>)
    ensures StableOrderFree(ds) <==> Consistent(ds)
  {
    if Consistent(ds) {
      OrderFreeExactly(ds);
      forall es, a, b | multiset(es) == multiset(ds) && AreStableClaims(ds, a) && AreStableClaims(es, b)
        ensures a == b
      {
        assert AreClaims(ds, a) && AreClaims(es, b);
      }
    } else {
      var i, j :| 0 <= i < |ds| && 0 <= j < |ds| && ds[i].group == ds[j].group && ds[i].resource == ds[j].resource
        && !SameUpToVerbOrder(ds[i], ds[j]);
      var a, b := SwappedDeclaration(ds, if i < j then i else j, if i < j then j else i);
    }
  }

  function HeadText(c: Claim): string {
    c.group + ['/'] + (c.resource + ['#'] + (c.identityHash + [':'] + Join(c.verbs, ',')))
  }

  function LabelParts(labels: map<string, string>, keys: seq<string>): (parts: seq<string>)
    requires forall k <- keys :: k in labels
  {
    if keys == [] then [] else [keys[0] + ['='] + labels[keys[0]]] + LabelParts(labels, keys[1..])
  }

  function ClaimText(c: Claim, keys: seq<string>): string
    requires forall k <- keys :: k in c.labels
  {
    Join([HeadText(c)] + LabelParts(c.labels, keys), '|')
  }

  ghost predicate AreKeyLists(claims: seq<Claim>, keys: seq<seq<string>>) {
    |keys| == |claims| && forall i | 0 <= i < |keys| :: IsSortedListOf(keys[i], claims[i].labels.Keys)
  }

  ghost function TextWith(claims: seq<Claim>, keys: seq<seq<string>>): string
    requires AreKeyLists(claims, keys)
  {
    if claims == [] then "" else ClaimText(claims[0], keys[0]) + [';'] + TextWith(claims[1..], keys[1..])
  }

  /** `text` is what Revision hashes for these claims. */
  ghost predicate IsRevisionText(claims: seq<Claim>, text: string) {
    exists keys :: AreKeyLists(claims, keys) && text == TextWith(claims, keys)
  }

  predicate Avoids(s: string, cs: string) {
    forall c <- cs :: c !in s
  }

  /** No field holds the delimiters that end it, and no verb is empty. */
  ghost predicate Decodable(c: Claim) {
    && Avoids(c.group, "/|;") && Avoids(c.resource, "#|;") && Avoids(c.identityHash, ":|;")
    && (forall v <- c.verbs :: v != "" && Avoids(v, ",|;"))
    && (forall k <- c.labels :: Avoids(k, "=|;") && Avoids(c.labels[k], "|;"))
  }

  /** The part after a delimiter; nothing when there is none. */
  function After(rest: Option<string>): string {
    if rest.Some? then rest.value else ""
  }

  function ParseLabels(parts: seq<string>): map<string, string> {
    if parts == [] then map[] else var (k, v) := Cut(parts[0], '='); map[k := After(v)] + ParseLabels(parts[1..])
  }

  function ParseClaim(text: string): Claim {
    var parts := Split(text, '|');
    var (group, afterGroup) := Cut(parts[0], '/');
    var (resource, afterResource) := Cut(After(afterGroup), '#');
    var (identity, verbs) := Cut(After(afterResource), ':');
    Claim(group, resource, if After(verbs) == "" then [] else Split(After(verbs), ','), identity,
          ParseLabels(parts[1..]))
  }

  function ParseAll(parts: seq<string>): seq<Claim> {
    if |parts| <= 1 then [] else [ParseClaim(parts[0])] + ParseAll(parts[1..])
  }

  /** Reads a claim list back out of the hashed text. */
  function Parse(text: string): seq<Claim> {
    ParseAll(Split(text, ';'))
  }

  lemma {:induction false} LabelsRead(labels: map<string, string>, keys: seq<string>)
    requires forall k <- keys :: k in labels && '=' !in k
    ensures ParseLabels(LabelParts(labels, keys)) == Chosen(labels, keys)
  {
    if keys != [] {
      var part := keys[0] + ['='] + labels[keys[0]];
      LabelsRead(labels, keys[1..]);
      CutAppend(keys[0], '=', labels[keys[0]]);
      ChosenCons(labels, keys);
      assert LabelParts(labels, keys) == [part] + LabelParts(labels, keys[1..]);
      assert ([part] + LabelParts(labels, keys[1..]))[1..] == LabelParts(labels, keys[1..]);
    }
  }

  lemma {:induction false} LabelPartsAvoid(labels: map<string, string>, keys: seq<string>, d: char)
    requires d != '=' && forall k <- keys :: k in labels && d !in k && d !in labels[k]
    ensures forall p <- LabelParts(labels, keys) :: d !in p
  {
    if keys != [] {
      LabelPartsAvoid(labels, keys[1..], d);
    }
  }

  lemma VerbsRead(verbs: seq<string>)
    requires forall v <- verbs :: v != "" && ',' !in v
    ensures (if Join(verbs, ',') == "" then [] else Split(Join(verbs, ','), ',')) == verbs
  {
    if verbs != [] {
      SplitJoin(verbs, ',');
      assert verbs[0] in verbs;
      assert |Join(verbs, ',')| > 0;
    }
  }

  lemma HeadAvoids(c: Claim, d: char)
    requires Decodable(c) && (d == '|' || d == ';')
    ensures d !in HeadText(c)
  {
    assert d in "/|;" && d in "#|;" && d in ":|;" && d in ",|;";
    JoinAvoids(c.verbs, ',', d);
  }

  lemma LabelsAvoid(c: Claim, keys: seq<string>, d: char)
    requires Decodable(c) && IsSortedListOf(keys, c.labels.Keys) && (d == '|' || d == ';')
    ensures forall p <- LabelParts(c.labels, keys) :: d !in p
  {
    assert d in "=|;" && d in "|;";
    LabelPartsAvoid(c.labels, keys, d);
  }

  /** A claim's text splits into its head and its labels, and holds no claim delimiter. */
  lemma ClaimSplits(c: Claim, keys: seq<string>)
    requires Decodable(c) && IsSortedListOf(keys, c.labels.Keys)
    ensures Split(ClaimText(c, keys), '|') == [HeadText(c)] + LabelParts(c.labels, keys)
    ensures ';' !in ClaimText(c, keys)
  {
    var parts := [HeadText(c)] + LabelParts(c.labels, keys);
    HeadAvoids(c, '|');
    HeadAvoids(c, ';');
    LabelsAvoid(c, keys, '|');
    LabelsAvoid(c, keys, ';');
    SplitJoin(parts, '|');
    JoinAvoids(parts, '|', ';');
  }

  lemma ClaimRead(c: Claim, keys: seq<string>)
    requires Decodable(c) && IsSortedListOf(keys, c.labels.Keys)
    ensures ParseClaim(ClaimText(c, keys)) == c
    ensures ';' !in ClaimText(c, keys)
  {
    ClaimSplits(c, keys);
    assert ([HeadText(c)] + LabelParts(c.labels, keys))[1..] == LabelParts(c.labels, keys);
    assert forall k <- keys :: '=' !in k by {
      assert "=|;"[0] == '=';
    }
    LabelsRead(c.labels, keys);
    assert Chosen(c.labels, keys) == c.labels;
    HeadRead(c);
  }

  lemma HeadRead(c: Claim)
    requires Decodable(c)
    ensures var (group, afterGroup) := Cut(HeadText(c), '/');
      var (resource, afterResource) := Cut(After(afterGroup), '#');
      var (identity, verbs) := Cut(After(afterResource), ':');
      (group, resource, identity) == (c.group, c.resource, c.identityHash)
      && (if After(verbs) == "" then [] else Split(After(verbs), ',')) == c.verbs
  {
    assert "/|;"[0] == '/' && "#|;"[0] == '#' && ":|;"[0] == ':' && ",|;"[0] == ',';
    var verbs := Join(c.verbs, ',');
    CutAppend(c.group, '/', c.resource + ['#'] + (c.identityHash + [':'] + verbs));
    CutAppend(c.resource, '#', c.identityHash + [':'] + verbs);
    CutAppend(c.identityHash, ':', verbs);
    VerbsRead(c.verbs);
  }

  lemma ClaimThenRest(c: Claim, keys: seq<string>, rest: string)
    requires Decodable(c) && IsSortedListOf(keys, c.labels.Keys)
    ensures Parse(ClaimText(c, keys) + [';'] + rest) == [c] + Parse(rest)
  {
    ClaimRead(c, keys);
    ParseCons(ClaimText(c, keys), rest);
  }

  lemma TextWithCons(claims: seq<Claim>, keys: seq<seq<string>>)
    requires AreKeyLists(claims, keys) && claims != []
    ensures IsSortedListOf(keys[0], claims[0].labels.Keys) && AreKeyLists(claims[1..], keys[1..])
    ensures TextWith(claims, keys) == ClaimText(claims[0], keys[0]) + [';'] + TextWith(claims[1..], keys[1..])
  {}

  ghost predicate AllDecodable(claims: seq<Claim>) {
    forall i | 0 <= i < |claims| :: Decodable(claims[i])
  }

  /** The hashed text determines the whole claim list. */
  lemma {:induction false} TextReadsBack(claims: seq<Claim>, keys: seq<seq<string>>, text: string)
    requires AreKeyLists(claims, keys) && AllDecodable(claims) && text == TextWith(claims, keys)
    ensures Parse(text) == claims
    decreases |claims|
  {
    if claims == [] {
      SplitWhole("", ';');
    } else {
      TextWithCons(claims, keys);
      var rest := TextWith(claims[1..], keys[1..]);
      TextReadsBack(claims[1..], keys[1..], rest);
      ClaimThenRest(claims[0], keys[0], rest);
      assert claims == [claims[0]] + claims[1..];
    }
  }

  lemma RevisionTextDecodes(claims: seq<Claim>, keys: seq<seq<string>>)
    requires AreKeyLists(claims, keys) && forall c <- claims :: Decodable(c)
    ensures Parse(TextWith(claims, keys)) == claims
  {
    assert forall i | 0 <= i < |claims| :: claims[i] in claims;
    TextReadsBack(claims, keys, TextWith(claims, keys));
  }

  lemma ParseCons(text: string, rest: string)
    requires ';' !in text
    ensures Parse(text + [';'] + rest) == [ParseClaim(text)] + Parse(rest)
  {
    SplitCons(text, ';', rest);
    assert ([text] + Split(rest, ';'))[1..] == Split(rest, ';');
  }

  lemma DifferentClaimsDifferentText(a: seq<Claim>, b: seq<Claim>, text: string)
    requires (forall c <- a :: Decodable(c)) && (forall c <- b :: Decodable(c))
    requires IsRevisionText(a, text) && IsRevisionText(b, text)
    ensures a == b
  {
    var ka :| AreKeyLists(a, ka) && text == TextWith(a, ka);
    var kb :| AreKeyLists(b, kb) && text == TextWith(b, kb);
    RevisionTextDecodes(a, ka);
    RevisionTextDecodes(b, kb);
  }

  /** The same claims have one text: label map order does not show. */
  lemma RevisionTextUnique(claims: seq<Claim>, s: string, t: string)
    requires IsRevisionText(claims, s) && IsRevisionText(claims, t)
    ensures s == t
  {
    var ks :| AreKeyLists(claims, ks) && s == TextWith(claims, ks);
    var kt :| AreKeyLists(claims, kt) && t == TextWith(claims, kt);
    forall i | 0 <= i < |ks|
      ensures ks[i] == kt[i]
    {
      StrictlySortedUnique(ks[i], kt[i], ByString);
    }
    assert ks == kt;
  }

  /** Revision: "" for no claims, otherwise a digest of the text. */
  ghost predicate IsRevision(digest: string -> string, claims: seq<Claim>, revision: string) {
    if claims == [] then revision == "" else exists text :: IsRevisionText(claims, text) && revision == digest(text)
  }

  ghost predicate IsClaimText(c: Claim, text: string) {
    exists keys :: IsSortedListOf(keys, c.labels.Keys) && text == ClaimText(c, keys)
  }

  method WriteClaim(c: Claim) returns (text: string)
    ensures IsClaimText(c, text)
  {
    text := HeadText(c);
    var sorted := SortedListOf(c.labels.Keys);
    for i := 0 to |sorted|
      invariant text == Join([HeadText(c)] + LabelParts(c.labels, sorted[..i]), '|')
    {
      var part := sorted[i] + ['='] + c.labels[sorted[i]];
      text := text + ['|'] + part;
      assert sorted[..i + 1] == sorted[..i] + [sorted[i]];
      LabelPartsSnoc(c.labels, sorted[..i], sorted[i]);
      JoinSnoc([HeadText(c)] + LabelParts(c.labels, sorted[..i]), part, '|');
      assert [HeadText(c)] + LabelParts(c.labels, sorted[..i]) + [part]
          == [HeadText(c)] + LabelParts(c.labels, sorted[..i + 1]);
    }
    assert sorted[..|sorted|] == sorted;
  }

  lemma {:induction false} LabelPartsSnoc(labels: map<string, string>, keys: seq<string>, k: string)
    requires k in labels && forall k <- keys :: k in labels
    ensures LabelParts(labels, keys + [k]) == LabelParts(labels, keys) + [k + ['='] + labels[k]]
  {
    if keys != [] {
      LabelPartsSnoc(labels, keys[1..], k);
      assert (keys + [k])[1..] == keys[1..] + [k];
    }
  }

  lemma KeyListsSnoc(claims: seq<Claim>, keys: seq<seq<string>>, c: Claim, ks: seq<string>)
    requires AreKeyLists(claims, keys) && IsSortedListOf(ks, c.labels.Keys)
    ensures AreKeyLists(claims + [c], keys + [ks])
  {}

  lemma {:induction false} TextSnoc(claims: seq<Claim>, keys: seq<seq<string>>, c: Claim, ks: seq<string>)
    requires AreKeyLists(claims, keys) && AreKeyLists(claims + [c], keys + [ks])
    requires IsSortedListOf(ks, c.labels.Keys)
    ensures TextWith(claims + [c], keys + [ks]) == TextWith(claims, keys) + (ClaimText(c, ks) + [';'])
  {
    if claims == [] {
      assert claims + [c] == [c] && keys + [ks] == [ks];
    } else {
      var rest, restKeys := claims[1..], keys[1..];
      assert (claims + [c])[1..] == rest + [c] && (keys + [ks])[1..] == restKeys + [ks];
      KeyListsSnoc(rest, restKeys, c, ks);
      TextSnoc(rest, restKeys, c, ks);
      Assoc(ClaimText(claims[0], keys[0]) + [';'], TextWith(rest, restKeys), ClaimText(c, ks) + [';']);
    }
  }

  lemma TextUpTo(claims: seq<Claim>, i: nat, keys: seq<seq<string>>, ks: seq<string>)
    requires i < |claims| && AreKeyLists(claims[..i], keys) && IsSortedListOf(ks, claims[i].labels.Keys)
    ensures AreKeyLists(claims[..i + 1], keys + [ks])
    ensures TextWith(claims[..i + 1], keys + [ks]) == TextWith(claims[..i], keys) + (ClaimText(claims[i], ks) + [';'])
  {
    KeyListsSnoc(claims[..i], keys, claims[i], ks);
    assert claims[..i + 1] == claims[..i] + [claims[i]];
    TextSnoc(claims[..i], keys, claims[i], ks);
  }

  method Revision(digest: string -> string, claims: seq<Claim>) returns (revision: string)
    ensures IsRevision(digest, claims, revision)
  {
    if claims == [] {
      return "";
    }
    var text := "";
    ghost var keys := [];
    for i := 0 to |claims|
      invariant AreKeyLists(claims[..i], keys) && text == TextWith(claims[..i], keys)
    {
      var t := WriteClaim(claims[i]);
      ghost var ks :| IsSortedListOf(ks, claims[i].labels.Keys) && t == ClaimText(claims[i], ks);
      TextUpTo(claims, i, keys, ks);
      text := text + (t + [';']);
      keys := keys + [ks];
    }
    assert claims[..|claims|] == claims;
    return digest(text);
  }

  /** Two different texts of the two lists have one digest. */
  ghost predicate Collide(digest: string -> string, a: seq<Claim>, b: seq<Claim>) {
    exists s, t :: IsRevisionText(a, s) && IsRevisionText(b, t) && s != t && digest(s) == digest(t)
  }

  /** Revisions agree exactly when the claim lists do, or the digests of these two texts happen to collide. */
  lemma RevisionIdentifies(digest: string -> string, a: seq<Claim>, b: seq<Claim>, ra: string, rb: string)
    requires forall s :: digest(s) != ""
    requires (forall c <- a :: Decodable(c)) && (forall c <- b :: Decodable(c))
    requires IsRevision(digest, a, ra) && IsRevision(digest, b, rb)
    ensures ra == rb <==> a == b || (a != [] && b != [] && Collide(digest, a, b))
  {
    if a != [] && b != [] {
      var s :| IsRevisionText(a, s) && ra == digest(s);
      var t :| IsRevisionText(b, t) && rb == digest(t);
      if s == t {
        DifferentClaimsDifferentText(a, b, s);
      }
      if a == b {
        RevisionTextUnique(a, s, t);
      }
      if s', t' :| IsRevisionText(a, s') && IsRevisionText(b, t') && s' != t' && digest(s') == digest(t') {
        RevisionTextUnique(a, s, s');
        RevisionTextUnique(b, t, t');
      }
    }
  }

  /** Reordering what an export declares leaves its revision alone. */
  lemma ReorderingKeepsRevision(digest: string -> string, ds: seq<Declared>, es: seq<Declared>,
                                a: seq<Claim>, b: seq<Claim>, ra: string, rb: string)
    requires DistinctResources(ds) && DistinctResources(es) && Reordered(ds, es)
    ensures AreClaims(ds, a) && AreClaims(es, b) && IsRevision(digest, a, ra) && IsRevision(digest, b, rb) ==> ra == rb
  {
    if AreClaims(ds, a) && AreClaims(es, b) && IsRevision(digest, a, ra) && IsRevision(digest, b, rb) {
      ClaimsCanonical(ds, es, a, b);
      RevisionUnique(digest, a, ra, rb);
    }
  }

  lemma RevisionUnique(digest: string -> string, claims: seq<Claim>, a: string, b: string)
    requires IsRevision(digest, claims, a) && IsRevision(digest, claims, b)
    ensures a == b
  {
    if claims != [] {
      var s :| IsRevisionText(claims, s) && a == digest(s);
      var t :| IsRevisionText(claims, t) && b == digest(t);
      RevisionTextUnique(claims, s, t);
    }
  }

  lemma {:induction false} KeyListsExist(claims: seq<Claim>) returns (keys: seq<seq<string>>)
    ensures AreKeyLists(claims, keys)
  {
    keys := [];
    if claims != [] {
      var first := SortedListExists(claims[0].labels.Keys);
      var rest := KeyListsExist(claims[1..]);
      keys := [first] + rest;
      assert forall i | 0 < i < |keys| :: keys[i] == rest[i - 1] && claims[i] == claims[1..][i - 1];
    }
  }

  /** A declared claim whose fields avoid the delimiters. */
  ghost predicate DecodableDeclared(d: Declared) {
    Decodable(Claim(d.group, d.resource, d.verbs, d.identityHash, d.labels))
  }

  lemma ClaimsDecodable(ds: seq<Declared>, a: seq<Claim>)
    requires AreClaims(ds, a) && forall d <- ds :: DecodableDeclared(d)
    ensures forall c <- a :: Decodable(c)
  {
    forall c | c in a
      ensures Decodable(c)
    {
      var d := SourceOf(ds, a, c);
      assert forall v :: v in c.verbs <==> v in multiset(c.verbs);
      assert forall v :: v in d.verbs <==> v in multiset(d.verbs);
    }
  }

  /** Whatever order the claims are declared and sorted in, the text that is hashed is one. */
  ghost predicate TextOrderFree(ds: seq<Declared>) {
    forall es, a, b, s, t | multiset(es) == multiset(ds) && AreClaims(ds, a) && AreClaims(es, b)
      && IsRevisionText(a, s) && IsRevisionText(b, t) :: s == t
  }

  /** The hashed text does not depend on any order exactly when claims on one resource say the same. */
  lemma TextOrderFreeExactly(ds: seq<Declared>)
    requires forall d <- ds :: DecodableDeclared(d)
    ensures TextOrderFree(ds) <==> Consistent(ds)
  {
    OrderFreeExactly(ds);
    if OrderFree(ds) {
      forall es, a, b, s, t | multiset(es) == multiset(ds) && AreClaims(ds, a) && AreClaims(es, b)
        && IsRevisionText(a, s) && IsRevisionText(b, t)
        ensures s == t
      {
        RevisionTextUnique(a, s, t);
      }
    } else {
      var i, j :| 0 <= i < |ds| && 0 <= j < |ds| && ds[i].group == ds[j].group && ds[i].resource == ds[j].resource
        && !SameUpToVerbOrder(ds[i], ds[j]);
      var a, b := InconsistentTwoResults(ds, i, j);
      var ka := KeyListsExist(a);
      var kb := KeyListsExist(b);
      ClaimsDecodable(ds, a);
      ClaimsDecodable(ds, b);
      assert IsRevisionText(a, TextWith(a, ka)) && IsRevisionText(b, TextWith(b, kb));
      if TextWith(a, ka) == TextWith(b, kb) {
        DifferentClaimsDifferentText(a, b, TextWith(a, ka));
      }
    }
  }
}
