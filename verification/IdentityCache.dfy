/** The per-identity answer cache of the access client (mcp/internal/access/client.go). */
module IdentityCache {
  import opened Options
  import opened Text
  import opened Sorting

  datatype User = User(name: string, groups: seq<string>, extra: map<string, seq<string>>)

  datatype Workspace = Workspace(name: string, endpoint: string)

  /** What the access virtual workspace answered when asked as `who`. */
  datatype Review = Review(who: User, workspaces: seq<Workspace>)

  datatype Entry = Entry(review: Review, expires: int)

  const GROUP_MARK := 0 as char
  const KEY_MARK := 1 as char
  const VALUE_MARK := 2 as char

  function ExtraBlocks(extra: map<string, seq<string>>, keys: seq<string>): seq<string>
    requires forall k <- keys :: k in extra
  {
    if keys == [] then [] else [Join([keys[0]] + extra[keys[0]], VALUE_MARK)] + ExtraBlocks(extra, keys[1..])
  }

  function KeyWith(u: User, keys: seq<string>): string
    requires forall k <- keys :: k in u.extra
  {
    Join([Join([u.name] + u.groups, GROUP_MARK)] + ExtraBlocks(u.extra, keys), KEY_MARK)
  }

  /** `key` is what cacheKey writes for the user. */
  ghost predicate IsCacheKey(u: User, key: string) {
    exists keys :: IsSortedListOf(keys, u.extra.Keys) && key == KeyWith(u, keys)
  }

  /** No field holds a mark that would end it: the marks that count differ for the head and for the extra map. */
  ghost predicate PlainUser(u: User) {
    && GROUP_MARK !in u.name && KEY_MARK !in u.name
    && (forall g <- u.groups :: GROUP_MARK !in g && KEY_MARK !in g)
    && forall k <- u.extra :: PlainExtra(k, u.extra[k])
  }

  predicate PlainExtra(k: string, values: seq<string>) {
    KEY_MARK !in k && VALUE_MARK !in k && forall v <- values :: KEY_MARK !in v && VALUE_MARK !in v
  }

  function ReadExtra(blocks: seq<string>): map<string, seq<string>> {
    if blocks == [] then map[]
    else
      var parts := Split(blocks[0], VALUE_MARK);
      map[parts[0] := parts[1..]] + ReadExtra(blocks[1..])
  }

  /** Reads the user back out of a cache key. */
  function ReadKey(key: string): User {
    var blocks := Split(key, KEY_MARK);
    var head := Split(blocks[0], GROUP_MARK);
    User(head[0], head[1..], ReadExtra(blocks[1..]))
  }

  lemma BlockReads(k: string, values: seq<string>)
    requires PlainExtra(k, values)
    ensures Split(Join([k] + values, VALUE_MARK), VALUE_MARK) == [k] + values
    ensures KEY_MARK !in Join([k] + values, VALUE_MARK)
  {
    SplitJoin([k] + values, VALUE_MARK);
    JoinAvoids([k] + values, VALUE_MARK, KEY_MARK);
  }

  lemma {:induction false} ExtraReads(extra: map<string, seq<string>>, keys: seq<string>)
    requires forall k <- keys :: k in extra && PlainExtra(k, extra[k])
    ensures ReadExtra(ExtraBlocks(extra, keys)) == Chosen(extra, keys)
    ensures forall b <- ExtraBlocks(extra, keys) :: KEY_MARK !in b
  {
    if keys != [] {
      var k, rest := keys[0], keys[1..];
      var block := Join([k] + extra[k], VALUE_MARK);
      ExtraReads(extra, rest);
      BlockReads(k, extra[k]);
      assert ([k] + extra[k])[1..] == extra[k];
      assert ExtraBlocks(extra, keys) == [block] + ExtraBlocks(extra, rest);
      assert ([block] + ExtraBlocks(extra, rest))[1..] == ExtraBlocks(extra, rest);
      ChosenCons(extra, keys);
    }
  }

  lemma HeadReads(u: User)
    requires PlainUser(u)
    ensures Split(Join([u.name] + u.groups, GROUP_MARK), GROUP_MARK) == [u.name] + u.groups
    ensures KEY_MARK !in Join([u.name] + u.groups, GROUP_MARK)
  {
    var head := [u.name] + u.groups;
    JoinAvoids(head, GROUP_MARK, KEY_MARK);
    SplitJoin(head, GROUP_MARK);
  }

  lemma KeyReads(u: User, keys: seq<string>)
    requires PlainUser(u) && IsSortedListOf(keys, u.extra.Keys)
    ensures ReadKey(KeyWith(u, keys)) == u
  {
    var head, extra := Join([u.name] + u.groups, GROUP_MARK), ExtraBlocks(u.extra, keys);
    HeadReads(u);
    ExtraReads(u.extra, keys);
    SplitJoin([head] + extra, KEY_MARK);
    assert ([head] + extra)[1..] == extra && ([u.name] + u.groups)[1..] == u.groups;
    assert Chosen(u.extra, keys) == u.extra;
  }

  /** Different identities never share a cache key. */
  lemma CacheKeyInjective(u: User, v: User, key: string)
    requires PlainUser(u) && PlainUser(v) && IsCacheKey(u, key) && IsCacheKey(v, key)
    ensures u == v
  {
    var ku :| IsSortedListOf(ku, u.extra.Keys) && key == KeyWith(u, ku);
    var kv :| IsSortedListOf(kv, v.extra.Keys) && key == KeyWith(v, kv);
    KeyReads(u, ku);
    KeyReads(v, kv);
  }

  /** One identity has one key, whatever order its extra map is walked in. */
  lemma CacheKeyUnique(u: User, a: string, b: string)
    requires IsCacheKey(u, a) && IsCacheKey(u, b)
    ensures a == b
  {
    var ka :| IsSortedListOf(ka, u.extra.Keys) && a == KeyWith(u, ka);
    var kb :| IsSortedListOf(kb, u.extra.Keys) && b == KeyWith(u, kb);
    StrictlySortedUnique(ka, kb, ByString);
  }

  ghost predicate SameKey(u: User, v: User, key: string) {
    u != v && IsCacheKey(u, key) && IsCacheKey(v, key)
  }

  lemma JoinTwo(x: string, y: string, c: char)
    ensures Join([x] + [y], c) == x + [c] + y
  {
    assert ([x] + [y])[1..] == [y];
  }

  lemma KeyWithoutExtra(name: string, groups: seq<string>)
    ensures IsCacheKey(User(name, groups, map[]), Join([name] + groups, GROUP_MARK))
  {
    var u := User(name, groups, map[]);
    assert IsSortedListOf([], u.extra.Keys);
    assert KeyWith(u, []) == Join([Join([name] + groups, GROUP_MARK)] + [], KEY_MARK);
  }

  lemma KeyOfOneExtra(name: string, k: string, values: seq<string>)
    ensures IsCacheKey(User(name, [], map[k := values]), name + [KEY_MARK] + Join([k] + values, VALUE_MARK))
  {
    var u := User(name, [], map[k := values]);
    var block := Join([k] + values, VALUE_MARK);
    assert IsSortedListOf([k], u.extra.Keys);
    assert [name] + [] == [name] && [block] + [] == [block];
    assert ExtraBlocks(u.extra, [k]) == [block] + ExtraBlocks(u.extra, [k][1..]) == [block];
    JoinTwo(name, block, KEY_MARK);
    assert KeyWith(u, [k]) == name + [KEY_MARK] + block;
  }

  /** Each mark is needed where it is excluded: whatever the rest, one gives two identities one key. */
  lemma GroupMarkCollides(a: string, b: string)
    ensures SameKey(User(a + [GROUP_MARK] + b, [], map[]), User(a, [b], map[]), a + [GROUP_MARK] + b)
  {
    assert [a + [GROUP_MARK] + b] + [] == [a + [GROUP_MARK] + b];
    KeyWithoutExtra(a + [GROUP_MARK] + b, []);
    KeyWithoutExtra(a, [b]);
    JoinTwo(a, b, GROUP_MARK);
  }

  lemma KeyMarkCollides(a: string, b: string)
    ensures SameKey(User(a + [KEY_MARK] + b, [], map[]), User(a, [], map[b := []]), a + [KEY_MARK] + b)
  {
    assert [a + [KEY_MARK] + b] + [] == [a + [KEY_MARK] + b] && [b] + [] == [b];
    KeyWithoutExtra(a + [KEY_MARK] + b, []);
    KeyOfOneExtra(a, b, []);
    assert b in User(a, [], map[b := []]).extra;
  }

  lemma ValueMarkCollides(a: string, b: string, c: string)
    ensures SameKey(User(a, [], map[b + [VALUE_MARK] + c := []]), User(a, [], map[b := [c]]),
                    a + [KEY_MARK] + (b + [VALUE_MARK] + c))
  {
    assert [b + [VALUE_MARK] + c] + [] == [b + [VALUE_MARK] + c];
    KeyOfOneExtra(a, b + [VALUE_MARK] + c, []);
    KeyOfOneExtra(a, b, [c]);
    JoinTwo(b, c, VALUE_MARK);
    var one, other := User(a, [], map[b + [VALUE_MARK] + c := []]), User(a, [], map[b := [c]]);
    assert |b + [VALUE_MARK] + c| > |b| && b !in one.extra && b in other.extra;
  }

  /** One of the inner loops of cacheKey: a part, then each of the others behind a mark. */
  method WriteMarked(first: string, others: seq<string>, mark: char) returns (text: string)
    ensures text == Join([first] + others, mark)
  {
    text := first;
    for i := 0 to |others|
      invariant text == Join([first] + others[..i], mark)
    {
      JoinSnoc([first] + others[..i], others[i], mark);
      assert [first] + others[..i] + [others[i]] == [first] + others[..i + 1];
      text := text + [mark] + others[i];
    }
    assert others[..|others|] == others;
  }

  method CacheKey(u: User) returns (key: string)
    ensures IsCacheKey(u, key)
  {
    key := WriteMarked(u.name, u.groups, GROUP_MARK);
    ghost var head := key;
    var extraKeys := SortedListOf(u.extra.Keys);
    for i := 0 to |extraKeys|
      invariant key == Join([head] + ExtraBlocks(u.extra, extraKeys[..i]), KEY_MARK)
    {
      var k := extraKeys[i];
      var block := WriteMarked(k, u.extra[k], VALUE_MARK);
      BlocksSnoc(u.extra, extraKeys[..i], k);
      assert extraKeys[..i + 1] == extraKeys[..i] + [k];
      JoinSnoc([head] + ExtraBlocks(u.extra, extraKeys[..i]), block, KEY_MARK);
      assert [head] + ExtraBlocks(u.extra, extraKeys[..i]) + [block]
          == [head] + ExtraBlocks(u.extra, extraKeys[..i + 1]);
      key := key + [KEY_MARK] + block;
    }
    assert extraKeys[..|extraKeys|] == extraKeys;
  }

  lemma {:induction false} BlocksSnoc(extra: map<string, seq<string>>, keys: seq<string>, k: string)
    requires k in extra && forall k <- keys :: k in extra
    ensures ExtraBlocks(extra, keys + [k]) == ExtraBlocks(extra, keys) + [Join([k] + extra[k], VALUE_MARK)]
  {
    if keys != [] {
      BlocksSnoc(extra, keys[1..], k);
      assert (keys + [k])[1..] == keys[1..] + [k];
    }
  }

  /** The entries not yet past their expiry. */
  function Swept(cache: map<string, Entry>, now: int): map<string, Entry> {
    map k | k in cache && now <= cache[k].expires :: cache[k]
  }

  /** Every entry sits under the key of the identity it was reviewed for. */
  ghost predicate OwnKeys(cache: map<string, Entry>) {
    forall key <- cache :: IsCacheKey(cache[key].review.who, key)
  }

  class Client {
    const ttl: nat
    var cache: map<string, Entry>

    ghost predicate Valid()
      reads this
    {
      OwnKeys(cache)
    }

    constructor (ttl: nat)
      ensures Valid() && this.ttl == ttl && cache == map[]
    {
      this.ttl := ttl;
      cache := map[];
    }

    /** The first critical section of Workspaces. */
    method Look(u: User, now: int) returns (hit: Option<Entry>)
      requires Valid() && PlainUser(u) && forall key <- cache :: PlainUser(cache[key].review.who)
      ensures hit.Some? ==> hit.value in cache.Values && hit.value.review.who == u && now < hit.value.expires
      ensures hit == None ==> forall key | key in cache && cache[key].review.who == u :: now >= cache[key].expires
    {
      var key := CacheKey(u);
      if key in cache {
        CacheKeyInjective(u, cache[key].review.who, key);
      }
      if key in cache && now < cache[key].expires {
        return Some(cache[key]);
      }
      forall other | other in cache && cache[other].review.who == u
        ensures now >= cache[other].expires
      {
        CacheKeyUnique(u, key, other);
      }
      return None;
    }

    /** The second critical section: sweep what has expired, then remember a fresh review. */
    method Remember(review: Review, now: int) returns (ghost key: string)
      requires Valid()
      modifies this
      ensures Valid()
      ensures IsCacheKey(review.who, key) && cache == Swept(old(cache), now)[key := Entry(review, now + ttl)]
    {
      var own := CacheKey(review.who);
      key := own;
      Sweep(now);
      cache := cache[own := Entry(review, now + ttl)];
    }

    method Sweep(now: int)
      modifies this
      ensures cache == Swept(old(cache), now)
    {
      var rest := cache.Keys;
      while rest != {}
        invariant rest <= old(cache).Keys
        invariant forall k :: k in cache <==> k in old(cache) && (now <= old(cache)[k].expires || k in rest)
        invariant forall k <- cache :: cache[k] == old(cache)[k]
      {
        var k :| k in rest;
        rest := rest - {k};
        if now > cache[k].expires {
          cache := cache - {k};
        }
      }
    }

    method Invalidate(u: User)
      requires Valid()
      modifies this
      ensures Valid() && cache.Keys <= old(cache).Keys && forall k <- cache :: cache[k] == old(cache)[k]
      ensures forall key <- cache :: cache[key].review.who != u
      ensures PlainUser(u) && (forall k <- old(cache) :: PlainUser(old(cache)[k].review.who)) ==>
        forall k | k in old(cache) && old(cache)[k].review.who != u :: k in cache
    {
      var key := CacheKey(u);
      forall other | other in cache && cache[other].review.who == u
        ensures other == key
      {
        CacheKeyUnique(u, key, other);
      }
      if PlainUser(u) && key in cache && PlainUser(cache[key].review.who) {
        CacheKeyInjective(u, cache[key].review.who, key);
      }
      cache := cache - {key};
    }
  }

  /** The critical sections of any number of requests, in the order they take the lock. */
  datatype Event =
    | Looked(u: User, at: int)
    | Reviewed(review: Review, at: int)
    | Invalidated(u: User)

  /** The entry a review stores. */
  function EntryOf(script: seq<Event>, ttl: nat, i: nat): Entry
    requires i < |script| && script[i].Reviewed?
  {
    Entry(script[i].review, script[i].at + ttl)
  }

  /** What the event leaves of an entry: a newer review of the identity replaces it, and any review sweeps. */
  predicate Leaves(e: Event, entry: Entry) {
    match e
    case Looked(_, _) => true
    case Reviewed(review, at) => review.who != entry.review.who && at <= entry.expires
    case Invalidated(u) => u != entry.review.who
  }

  /** Event `i` stored a review, and every event since left it, up to the first `n`. */
  predicate Kept(script: seq<Event>, ttl: nat, i: nat, n: nat) {
    && i < n <= |script| && script[i].Reviewed?
    && forall j | i < j < n :: Leaves(script[j], EntryOf(script, ttl, i))
  }

  lemma KeptSteps(script: seq<Event>, ttl: nat, i: nat, n: nat)
    requires n < |script|
    ensures Kept(script, ttl, i, n + 1) <==>
      (i == n && script[n].Reviewed?) || (Kept(script, ttl, i, n) && Leaves(script[n], EntryOf(script, ttl, i)))
  {}

  /** The cache holds exactly the entries stored and kept so far. */
  ghost predicate HoldsKept(script: seq<Event>, ttl: nat, n: nat, cache: map<string, Entry>) {
    && (forall key {:trigger FromKept(script, ttl, n, cache[key])} | key in cache ::
          FromKept(script, ttl, n, cache[key]))
    && (forall i {:trigger Holds(cache, EntryOf(script, ttl, i))} | Kept(script, ttl, i, n) ::
          Holds(cache, EntryOf(script, ttl, i)))
  }

  ghost predicate FromKept(script: seq<Event>, ttl: nat, n: nat, entry: Entry) {
    exists i :: Kept(script, ttl, i, n) && entry == EntryOf(script, ttl, i)
  }

  ghost predicate Holds(cache: map<string, Entry>, entry: Entry) {
    exists key :: key in cache && cache[key] == entry
  }

  /** The review of event `i` answers the lookup of event `n`. */
  predicate Answers(script: seq<Event>, ttl: nat, i: nat, n: nat) {
    && n < |script| && script[n].Looked? && Kept(script, ttl, i, n)
    && script[i].review.who == script[n].u && script[n].at < script[i].at + ttl
  }

  /** A lookup is answered exactly when some kept review of that identity is not yet at its expiry, and with one. */
  ghost predicate RightAnswer(script: seq<Event>, ttl: nat, n: nat, answer: Option<Entry>) {
    && (answer.Some? <==> exists i :: Answers(script, ttl, i, n))
    && (answer.Some? ==> exists i :: Answers(script, ttl, i, n) && answer.value == EntryOf(script, ttl, i))
  }

  /**
   * In every interleaving a lookup is answered from the cache exactly when a review made for that very identity was
   * stored earlier in the run, less than a lifetime before, and neither replaced, swept nor invalidated since; and
   * the answer is such a review.
   */
  method Serve(ttl: nat, script: seq<Event>) returns (served: seq<Option<Entry>>)
    requires forall e <- script :: PlainEvent(e)
    ensures |served| == |script|
    ensures forall n | 0 <= n < |script| :: RightAnswer(script, ttl, n, served[n])
  {
    var client := new Client(ttl);
    served := [];
    for n := 0 to |script|
      invariant fresh(client) && client.ttl == ttl && UpTo(client, script, n)
      invariant |served| == n && forall k | 0 <= k < n :: RightAnswer(script, ttl, k, served[k])
    {
      assert PlainEvent(script[n]);
      var answer := Handle(client, script, n);
      served := served + [answer];
    }
  }

  ghost predicate PlainEvent(e: Event) {
    if e.Reviewed? then PlainUser(e.review.who) else PlainUser(e.u)
  }

  ghost predicate AllPlain(cache: map<string, Entry>) {
    forall key <- cache :: PlainUser(cache[key].review.who)
  }

  /** The client holds exactly what is kept after `n` events. */
  ghost predicate UpTo(client: Client, script: seq<Event>, n: nat)
    reads client
  {
    client.Valid() && HoldsKept(script, client.ttl, n, client.cache) && AllPlain(client.cache)
  }

  /** One critical section: it answers a lookup as it should, and the cache goes on holding exactly what is kept. */
  method Handle(client: Client, script: seq<Event>, n: nat) returns (answer: Option<Entry>)
    requires n < |script| && PlainEvent(script[n]) && UpTo(client, script, n)
    modifies client
    ensures UpTo(client, script, n + 1) && RightAnswer(script, client.ttl, n, answer)
  {
    answer := None;
    if script[n].Looked? {
      answer := client.Look(script[n].u, script[n].at);
      LookedRight(script, client.ttl, n, client.cache, answer);
      LeftAlone(script, client.ttl, n, client.cache, client.cache);
    } else if script[n].Reviewed? {
      HandleReview(client, script, n);
    } else {
      HandleInvalidation(client, script, n);
    }
  }

  method HandleReview(client: Client, script: seq<Event>, n: nat)
    requires n < |script| && script[n].Reviewed? && PlainEvent(script[n]) && UpTo(client, script, n)
    modifies client
    ensures UpTo(client, script, n + 1)
  {
    ghost var before := client.cache;
    ghost var key := client.Remember(script[n].review, script[n].at);
    OwnKey(script[n].review.who, before, key);
    SweptAndReplaced(script, client.ttl, n, before, key, client.cache);
    Remembered(script, client.ttl, n, before, key, client.cache);
  }

  method HandleInvalidation(client: Client, script: seq<Event>, n: nat)
    requires n < |script| && script[n].Invalidated? && PlainEvent(script[n]) && UpTo(client, script, n)
    modifies client
    ensures UpTo(client, script, n + 1)
  {
    ghost var before := client.cache;
    client.Invalidate(script[n].u);
    LeftAlone(script, client.ttl, n, before, client.cache);
  }

  lemma LookedRight(script: seq<Event>, ttl: nat, n: nat, cache: map<string, Entry>, hit: Option<Entry>)
    requires n < |script| && script[n].Looked? && HoldsKept(script, ttl, n, cache)
    requires hit.Some? ==>
      hit.value in cache.Values && hit.value.review.who == script[n].u && script[n].at < hit.value.expires
    requires hit == None ==>
      forall key | key in cache && cache[key].review.who == script[n].u :: script[n].at >= cache[key].expires
    ensures RightAnswer(script, ttl, n, hit)
  {
    if hit.Some? {
      var key :| key in cache && cache[key] == hit.value;
      assert FromKept(script, ttl, n, cache[key]);
      var i :| Kept(script, ttl, i, n) && hit.value == EntryOf(script, ttl, i);
      assert Answers(script, ttl, i, n);
    }
    forall i | Answers(script, ttl, i, n)
      ensures hit.Some?
    {
      assert Holds(cache, EntryOf(script, ttl, i));
    }
  }

  /** An event that stores nothing, and takes away exactly what it does not leave. */
  lemma LeftAlone(script: seq<Event>, ttl: nat, n: nat, cache: map<string, Entry>, cache': map<string, Entry>)
    requires n < |script| && !script[n].Reviewed? && HoldsKept(script, ttl, n, cache)
    requires forall key <- cache' :: key in cache && cache'[key] == cache[key] && Leaves(script[n], cache[key])
    requires forall key | key in cache && Leaves(script[n], cache[key]) :: key in cache'
    ensures HoldsKept(script, ttl, n + 1, cache')
  {
    forall key | key in cache'
      ensures FromKept(script, ttl, n + 1, cache'[key])
    {
      assert FromKept(script, ttl, n, cache[key]);
      StaysFromKept(script, ttl, n, cache[key]);
    }
    forall i | Kept(script, ttl, i, n + 1)
      ensures Holds(cache', EntryOf(script, ttl, i))
    {
      KeptSteps(script, ttl, i, n);
      assert Holds(cache, EntryOf(script, ttl, i));
      var key :| key in cache && cache[key] == EntryOf(script, ttl, i);
      assert key in cache' && cache'[key] == cache[key];
    }
  }

  /** What remembering a review leaves: what it does not replace or sweep, and itself. */
  ghost predicate Replaced(script: seq<Event>, ttl: nat, n: nat, cache: map<string, Entry>, key: string,
                           cache': map<string, Entry>)
    requires n < |script| && script[n].Reviewed?
  {
    && key in cache' && cache'[key] == EntryOf(script, ttl, n)
    && (forall other | other in cache' && other != key ::
          other in cache && cache'[other] == cache[other] && Leaves(script[n], cache[other]))
    && (forall other | other in cache && Leaves(script[n], cache[other]) ::
          other in cache' && cache'[other] == cache[other])
  }

  /** Among plain identities one key is one identity. */
  lemma OwnKey(u: User, cache: map<string, Entry>, key: string)
    requires PlainUser(u) && AllPlain(cache) && OwnKeys(cache) && IsCacheKey(u, key)
    ensures forall other <- cache :: cache[other].review.who == u <==> other == key
  {
    forall other | other in cache
      ensures cache[other].review.who == u <==> other == key
    {
      OtherKey(u, cache[other].review.who, key, other);
    }
  }

  /** A review sweeps, and takes the place of an older one of the same identity only. */
  lemma SweptAndReplaced(script: seq<Event>, ttl: nat, n: nat, cache: map<string, Entry>, key: string,
                         cache': map<string, Entry>)
    requires n < |script| && script[n].Reviewed?
    requires forall other <- cache :: cache[other].review.who == script[n].review.who <==> other == key
    requires cache' == Swept(cache, script[n].at)[key := EntryOf(script, ttl, n)]
    ensures Replaced(script, ttl, n, cache, key, cache')
  {}

  lemma Remembered(script: seq<Event>, ttl: nat, n: nat, cache: map<string, Entry>, key: string,
                   cache': map<string, Entry>)
    requires n < |script| && script[n].Reviewed? && HoldsKept(script, ttl, n, cache)
    requires Replaced(script, ttl, n, cache, key, cache')
    ensures HoldsKept(script, ttl, n + 1, cache')
  {
    forall other | other in cache'
      ensures FromKept(script, ttl, n + 1, cache'[other])
    {
      if other == key {
        KeptSteps(script, ttl, n, n);
      } else {
        assert FromKept(script, ttl, n, cache[other]);
        StaysFromKept(script, ttl, n, cache[other]);
      }
    }
    forall i | Kept(script, ttl, i, n + 1)
      ensures Holds(cache', EntryOf(script, ttl, i))
    {
      KeptSteps(script, ttl, i, n);
      if i == n {
        assert cache'[key] == EntryOf(script, ttl, n);
      } else {
        assert Holds(cache, EntryOf(script, ttl, i));
        var other :| other in cache && cache[other] == EntryOf(script, ttl, i);
        assert other in cache' && cache'[other] == cache[other];
      }
    }
  }

  lemma StaysFromKept(script: seq<Event>, ttl: nat, n: nat, entry: Entry)
    requires n < |script| && FromKept(script, ttl, n, entry) && Leaves(script[n], entry)
    ensures FromKept(script, ttl, n + 1, entry)
  {
    var i :| Kept(script, ttl, i, n) && entry == EntryOf(script, ttl, i);
    KeptSteps(script, ttl, i, n);
  }

  /** Plain identities are the same exactly when their keys are. */
  lemma OtherKey(u: User, v: User, a: string, b: string)
    requires PlainUser(u) && PlainUser(v) && IsCacheKey(u, a) && IsCacheKey(v, b)
    ensures u == v <==> a == b
  {
    if u == v {
      CacheKeyUnique(u, a, b);
    }
    if a == b {
      CacheKeyInjective(u, v, a);
    }
  }
}
