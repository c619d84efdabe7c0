/** Display names turned into workspace names (tenancy/pkg/naming). */
module Naming {
  import opened Text

  const MAX_NAME_LENGTH := 54
  const SUFFIX_LENGTH := 8

  predicate Alnum(c: char) {
    'a' <= c <= 'z' || '0' <= c <= '9'
  }

  predicate LabelChar(c: char) {
    Alnum(c) || c == '-'
  }

  /** What lowercasing does to label characters; on others it is any character map. */
  ghost predicate LowersLabels(lower: char -> char) {
    forall c | LabelChar(c) :: lower(c) == c
  }

  function Lowered(lower: char -> char, s: string): string {
    seq(|s|, i requires 0 <= i < |s| => lower(s[i]))
  }

  /** truncate: at most `n` characters, without a trailing dash. */
  function Truncate(s: string, n: nat): string {
    TrimRight(if |s| > n then s[..n] else s, '-')
  }

  predicate Word(w: string) {
    w != "" && forall c <- w :: Alnum(c)
  }

  /** The maximal runs of label letters and digits. */
  function Words(s: string): (ws: seq<string>)
    ensures |s| > 0 && Alnum(s[0]) ==> |ws| > 0
    ensures forall w <- ws :: Word(w)
  {
    if s == "" then []
    else if !Alnum(s[0]) then Words(s[1..])
    else
      var ws := Words(s[1..]);
      if |s| > 1 && Alnum(s[1]) then
        assert Word(ws[0]) && Word([s[0]] + ws[0]);
        [[s[0]] + ws[0]] + ws[1..]
      else [[s[0]]] + ws
  }

  /** Slugify, declaratively: the words joined by single dashes, cut to length. */
  function Slug(lower: char -> char, s: string): string {
    Truncate(Join(Words(Lowered(lower, s)), '-'), MAX_NAME_LENGTH)
  }

  /** What the loop of Slugify still has to write from state (b, pending) over the rest. */
  function Finished(b: string, pending: bool, rest: string): string {
    var ws := Words(rest);
    if ws == [] then b
    else if b == "" then Join(ws, '-')
    else if pending || !Alnum(rest[0]) then b + "-" + Join(ws, '-')
    else b + Join(ws, '-')
  }

  lemma JoinHead(c: char, ws: seq<string>)
    requires |ws| > 0
    ensures Join([[c] + ws[0]] + ws[1..], '-') == [c] + Join(ws, '-')
  {
    var longer := [[c] + ws[0]] + ws[1..];
    assert longer[0] == [c] + ws[0] && longer[1..] == ws[1..];
    if |ws| > 1 {
      Assoc([c], ws[0], ['-'] + Join(ws[1..], '-'));
      Assoc([c] + ws[0], ['-'], Join(ws[1..], '-'));
      Assoc(ws[0], ['-'], Join(ws[1..], '-'));
    }
  }

  /** What a letter or digit `c` adds in front of what the rest will write. */
  lemma HeadJoins(c: char, rest: string)
    requires Alnum(c)
    ensures var ws := Words(rest);
      Join(Words([c] + rest), '-') ==
        if ws == [] then [c] else if Alnum(rest[0]) then [c] + Join(ws, '-') else [c] + "-" + Join(ws, '-')
  {
    var ws := Words(rest);
    assert ([c] + rest)[1..] == rest;
    if |rest| > 0 && Alnum(rest[0]) {
      JoinHead(c, ws);
    } else if ws != [] {
      assert ([[c]] + ws)[1..] == ws;
    }
  }

  /** A letter or digit to come is written after the dash that was pending. */
  lemma FinishedBeforeAlnum(b: string, pending: bool, c: char, rest: string)
    requires Alnum(c)
    ensures Finished(b, pending, [c] + rest) ==
      (b + (if pending && |b| > 0 then "-" else "")) + Join(Words([c] + rest), '-')
  {}

  lemma StepSkips(b: string, pending: bool, c: char, rest: string)
    requires !Alnum(c)
    ensures Finished(b, true, rest) == Finished(b, pending, [c] + rest)
  {
    assert ([c] + rest)[1..] == rest;
  }

  lemma StepWrites(b: string, pending: bool, c: char, rest: string)
    requires Alnum(c)
    ensures var written := b + (if pending && |b| > 0 then "-" else "");
      Finished(written + [c], false, rest) == Finished(b, pending, [c] + rest)
  {
    FinishedBeforeAlnum(b, pending, c, rest);
    HeadJoins(c, rest);
    var written, tail := b + (if pending && |b| > 0 then "-" else ""), Join(Words(rest), '-');
    if Words(rest) != [] {
      if Alnum(rest[0]) {
        Assoc(written, [c], tail);
      } else {
        Assoc(written, [c] + "-", tail);
        Assoc(written, [c], "-");
      }
    }
  }

  lemma StepAt(b: string, pending: bool, s: string, i: nat)
    requires i < |s|
    ensures !Alnum(s[i]) ==> Finished(b, true, s[i + 1..]) == Finished(b, pending, s[i..])
    ensures Alnum(s[i]) ==>
      Finished((if pending && |b| > 0 then b + "-" else b) + [s[i]], false, s[i + 1..]) == Finished(b, pending, s[i..])
  {
    assert s[i..] == [s[i]] + s[i + 1..];
    if Alnum(s[i]) {
      StepWrites(b, pending, s[i], s[i + 1..]);
      assert b + "" == b;
    } else {
      StepSkips(b, pending, s[i], s[i + 1..]);
    }
  }

  method Slugify(lower: char -> char, displayName: string) returns (r: string)
    ensures r == Slug(lower, displayName)
  {
    var s := Lowered(lower, displayName);
    var b, dashPending := "", false;
    assert s[0..] == s;
    for i := 0 to |s|
      invariant Finished(b, dashPending, s[i..]) == Join(Words(s), '-')
    {
      StepAt(b, dashPending, s, i);
      if Alnum(s[i]) {
        if dashPending && |b| > 0 {
          b := b + "-";
        }
        dashPending := false;
        b := b + [s[i]];
      } else {
        dashPending := true;
      }
    }
    assert s[|s|..] == "";
    return Truncate(b, MAX_NAME_LENGTH);
  }

  /** Label characters without leading or doubled dashes. */
  ghost predicate Dashed(s: string) {
    && (forall c <- s :: LabelChar(c))
    && (s != "" ==> s[0] != '-')
    && (forall i | 0 <= i < |s| - 1 :: !(s[i] == '-' && s[i + 1] == '-'))
  }

  /** ... and without a trailing one. */
  ghost predicate SlugShaped(s: string) {
    Dashed(s) && (s != "" ==> s[|s| - 1] != '-')
  }

  lemma {:induction false} JoinedShape(ws: seq<string>)
    requires forall w <- ws :: Word(w)
    ensures SlugShaped(Join(ws, '-'))
    ensures ws != [] ==> Join(ws, '-') != ""
  {
    if |ws| == 1 {
      assert Word(ws[0]);
      assert forall i | 0 <= i < |ws[0]| :: ws[0][i] in ws[0];
    } else if |ws| > 1 {
      JoinedShape(ws[1..]);
      var head, tail := ws[0], Join(ws[1..], '-');
      assert Word(head);
      var s := head + ['-'] + tail;
      forall i | 0 <= i < |s|
        ensures LabelChar(s[i])
        ensures i < |head| ==> Alnum(s[i])
      {
        assert i < |head| ==> s[i] == head[i] && head[i] in head;
        assert i > |head| ==> s[i] == tail[i - |head| - 1] && tail[i - |head| - 1] in tail;
      }
      forall i | 0 <= i < |s| - 1
        ensures !(s[i] == '-' && s[i + 1] == '-')
      {
        assert i > |head| ==> s[i] == tail[i - |head| - 1] && s[i + 1] == tail[i - |head|];
      }
    }
  }

  lemma {:induction false} TrimShape(s: string)
    requires Dashed(s)
    ensures SlugShaped(TrimRight(s, '-')) && TrimRight(s, '-') <= s
    ensures SlugShaped(s) ==> TrimRight(s, '-') == s
    ensures s != "" ==> TrimRight(s, '-') != ""
    decreases |s|
  {
    if |s| > 0 && s[|s| - 1] == '-' {
      var t := s[..|s| - 1];
      assert forall c <- t :: c in s;
      TrimShape(t);
    }
  }

  lemma TruncateShape(s: string, n: nat)
    requires SlugShaped(s)
    ensures SlugShaped(Truncate(s, n)) && |Truncate(s, n)| <= n && Truncate(s, n) <= s
    ensures |s| <= n ==> Truncate(s, n) == s
    ensures s != "" && n > 0 ==> Truncate(s, n) != ""
  {
    var t := if |s| > n then s[..n] else s;
    assert forall c <- t :: c in s;
    TrimShape(t);
  }

  /** Every slug is empty or a clean label of at most 54 characters. */
  lemma SlugIsLabel(lower: char -> char, s: string)
    ensures SlugShaped(Slug(lower, s)) && |Slug(lower, s)| <= MAX_NAME_LENGTH
  {
    JoinedShape(Words(Lowered(lower, s)));
    TruncateShape(Join(Words(Lowered(lower, s)), '-'), MAX_NAME_LENGTH);
  }

  lemma {:induction false} WordsOfShaped(s: string)
    requires SlugShaped(s)
    ensures Join(Words(s), '-') == s
    decreases |s|
  {
    if s != "" {
      assert s[0] in s;
      var rest := s[1..];
      assert forall c <- rest :: c in s;
      if |s| == 1 {
        assert Words(rest) == [];
      } else if Alnum(s[1]) {
        WordsOfShaped(rest);
        JoinHead(s[0], Words(rest));
      } else {
        assert s[1] in s && s[1] == '-';
        var tail := s[2..];
        assert |s| > 2 && s[2] in s && rest[1..] == tail;
        assert forall c <- tail :: c in s;
        WordsOfShaped(tail);
        assert ([[s[0]]] + Words(tail))[1..] == Words(tail);
        assert s == [s[0]] + ['-'] + tail;
      }
    }
  }

  /** The names Slugify leaves alone are exactly the ones it can produce; so it is idempotent. */
  lemma SlugFixedPoints(lower: char -> char, s: string)
    requires LowersLabels(lower)
    ensures Slug(lower, s) == s <==> SlugShaped(s) && |s| <= MAX_NAME_LENGTH
    ensures Slug(lower, Slug(lower, s)) == Slug(lower, s)
  {
    SlugIsLabel(lower, s);
    if SlugShaped(s) && |s| <= MAX_NAME_LENGTH {
      ShapedKept(lower, s);
    }
    ShapedKept(lower, Slug(lower, s));
  }

  lemma ShapedKept(lower: char -> char, s: string)
    requires LowersLabels(lower) && SlugShaped(s) && |s| <= MAX_NAME_LENGTH
    ensures Slug(lower, s) == s
  {
    assert Lowered(lower, s) == s by {
      assert forall i | 0 <= i < |s| :: s[i] in s;
    }
    WordsOfShaped(s);
    TruncateShape(s, MAX_NAME_LENGTH);
  }

  /** The letters and digits of a string in order, each with whether another follows it directly. */
  function Letters(s: string): seq<(char, bool)> {
    if s == "" then []
    else if 'a' <= s[0] <= 'z' || '0' <= s[0] <= '9' then
      [(s[0], |s| > 1 && ('a' <= s[1] <= 'z' || '0' <= s[1] <= '9'))] + Letters(s[1..])
    else Letters(s[1..])
  }

  lemma LettersCons(c: char, s: string)
    ensures Letters([c] + s) == (if Alnum(c) then [(c, s != "" && Alnum(s[0]))] else []) + Letters(s)
  {
    assert ([c] + s)[1..] == s;
  }

  /** Joining the words keeps every letter and digit, and which of them stand together. */
  lemma {:induction false} JoinedLetters(s: string)
    ensures Letters(Join(Words(s), '-')) == Letters(s)
    ensures s != "" && Alnum(s[0]) ==> Join(Words(s), '-') != "" && Join(Words(s), '-')[0] == s[0]
    decreases |s|
  {
    if s != "" {
      var rest := s[1..];
      JoinedLetters(rest);
      assert s == [s[0]] + rest;
      LettersCons(s[0], rest);
      if Alnum(s[0]) {
        HeadJoins(s[0], rest);
        var tail := Join(Words(rest), '-');
        LettersCons(s[0], tail);
        LettersCons('-', tail);
        LettersCons(s[0], "-" + tail);
        assert [s[0]] + "-" + tail == [s[0]] + ("-" + tail) && ['-'] + tail == "-" + tail;
        assert Words(rest) == [] ==> tail == "" && [s[0]] + tail == [s[0]];
      }
    }
  }

  /** A string of that shape is determined by its letters and where they stand together. */
  lemma {:induction false} LettersDetermine(a: string, b: string)
    requires SlugShaped(a) && SlugShaped(b) && Letters(a) == Letters(b)
    ensures a == b
    decreases |a|
  {
    ShapedHead(a);
    ShapedHead(b);
    if a != "" && b != "" {
      LettersCons(a[0], a[1..]);
      LettersCons(b[0], b[1..]);
      assert a == [a[0]] + a[1..] && b == [b[0]] + b[1..];
      assert Letters(a)[0] == (a[0], |a| > 1 && Alnum(a[1])) && Letters(b)[0] == (b[0], |b| > 1 && Alnum(b[1]));
      assert Letters(a)[1..] == Letters(a[1..]) && Letters(b)[1..] == Letters(b[1..]);
      ShapedTail(a);
      ShapedTail(b);
      LettersDetermine(TailOf(a), TailOf(b));
    }
  }

  /** What follows the first character and the dash behind it. */
  function TailOf(s: string): string
    requires s != ""
  {
    if |s| > 1 && s[1] == '-' then s[2..] else s[1..]
  }

  lemma ShapedHead(s: string)
    requires SlugShaped(s)
    ensures s != "" ==> Alnum(s[0]) && Letters(s) != []
  {
    if s != "" {
      assert s[0] in s;
    }
  }

  lemma ShapedTail(s: string)
    requires SlugShaped(s) && s != ""
    ensures SlugShaped(TailOf(s)) && Letters(TailOf(s)) == Letters(s[1..])
    ensures s == [s[0]] + (if |s| > 1 && !Alnum(s[1]) then "-" else "") + TailOf(s)
    ensures TailOf(s) == "" ==> |s| == 1
  {
    var tail := TailOf(s);
    assert forall c <- tail :: c in s;
    if |s| > 1 {
      assert s[1] in s;
      LettersCons(s[1], s[2..]);
      assert s[1..] == [s[1]] + s[2..];
    }
  }

  /**
   * What a slug says of its display name, `low` being the name in lower case: `full` is the one string of label
   * characters with single inner dashes that has the letters and digits of `low` in order, together where they
   * stand together; the slug is all of it, or its first 54 characters without a trailing dash.
   */
  lemma SlugSpells(lower: char -> char, displayName: string, low: string) returns (full: string)
    requires |low| == |displayName| && forall i | 0 <= i < |low| :: low[i] == lower(displayName[i])
    ensures SlugShaped(full) && Letters(full) == Letters(low)
    ensures forall other | SlugShaped(other) && Letters(other) == Letters(low) :: other == full
    ensures |full| <= 54 ==> Slug(lower, displayName) == full
    ensures |full| > 54 ==> Slug(lower, displayName) == if full[53] == '-' then full[..53] else full[..54]
  {
    assert low == Lowered(lower, displayName);
    full := Join(Words(low), '-');
    JoinedShape(Words(low));
    JoinedLetters(low);
    TruncateShape(full, MAX_NAME_LENGTH);
    forall other | SlugShaped(other) && Letters(other) == Letters(low)
      ensures other == full
    {
      LettersDetermine(other, full);
    }
    if |full| > 54 {
      CutTrims(full);
    }
  }

  lemma CutTrims(full: string)
    requires SlugShaped(full) && |full| > 54
    ensures TrimRight(full[..54], '-') == if full[53] == '-' then full[..53] else full[..54]
  {
    if full[53] == '-' {
      assert full[..54][..53] == full[..53] && full[..53][52] == full[52] != '-';
    }
  }

  datatype Strategy = SlugStrategy | UidStrategy

  /** `suffix` is the start of the hexadecimal digest of the object's UID. */
  function Propose(strategy: Strategy, lower: char -> char, displayName: string, suffix: string): (names: seq<string>)
    ensures |names| > 0
  {
    match strategy
    case UidStrategy => ["ws-" + suffix]
    case SlugStrategy =>
      var slug := Slug(lower, displayName);
      if slug == "" then ["ws-" + suffix]
      else [slug, Truncate(slug, MAX_NAME_LENGTH - 1 - SUFFIX_LENGTH) + "-" + suffix]
  }

  predicate HexSuffix(s: string) {
    |s| == 8 && forall c <- s :: '0' <= c <= '9' || 'a' <= c <= 'f'
  }

  /** A DNS label: section 2.3.4 of RFC 1035 for the length, section 2.1 of RFC 1123 for the first character. */
  ghost predicate DnsLabel(s: string) {
    && 1 <= |s| <= 63 && (forall c <- s :: LabelChar(c))
    && Alnum(s[0]) && Alnum(s[|s| - 1])
  }

  lemma EveryCandidateIsLabel(strategy: Strategy, lower: char -> char, displayName: string, suffix: string)
    requires HexSuffix(suffix)
    ensures forall name <- Propose(strategy, lower, displayName, suffix) :: DnsLabel(name) && |name| <= MAX_NAME_LENGTH
  {
    var slug := Slug(lower, displayName);
    SlugIsLabel(lower, displayName);
    assert forall i | 0 <= i < |suffix| :: suffix[i] in suffix;
    assert slug != "" ==> slug[0] in slug && slug[|slug| - 1] in slug;
    TruncateShape(slug, MAX_NAME_LENGTH - 1 - SUFFIX_LENGTH);
    var head := Truncate(slug, MAX_NAME_LENGTH - 1 - SUFFIX_LENGTH);
    assert head != "" ==> head[0] in head;
    SuffixedIsLabel("ws", suffix);
    assert "ws" + "-" + suffix == "ws-" + suffix;
    if slug != "" {
      SuffixedIsLabel(head, suffix);
    }
  }

  lemma SuffixedIsLabel(head: string, suffix: string)
    requires HexSuffix(suffix) && head != "" && Alnum(head[0]) && (forall c <- head :: LabelChar(c))
    requires |head| <= MAX_NAME_LENGTH - 1 - SUFFIX_LENGTH
    ensures DnsLabel(head + "-" + suffix) && |head + "-" + suffix| <= MAX_NAME_LENGTH
  {
    var name := head + "-" + suffix;
    assert forall i | 0 <= i < |suffix| :: suffix[i] in suffix;
    assert forall c <- name :: c in head || c == '-' || c in suffix;
    assert name[|name| - 1] == suffix[|suffix| - 1];
  }

  /** Last candidates of objects with different suffixes differ, whatever the names and strategies. */
  lemma LastCandidatesDiffer(s: Strategy, t: Strategy, lower: char -> char, a: string, b: string,
                             suffixA: string, suffixB: string)
    requires HexSuffix(suffixA) && HexSuffix(suffixB) && suffixA != suffixB
    ensures var x, y := Propose(s, lower, a, suffixA), Propose(t, lower, b, suffixB);
      x[|x| - 1] != y[|y| - 1]
  {
    var x, y := Propose(s, lower, a, suffixA), Propose(t, lower, b, suffixB);
    var p, q := x[|x| - 1], y[|y| - 1];
    assert p[|p| - SUFFIX_LENGTH..] == suffixA;
    assert q[|q| - SUFFIX_LENGTH..] == suffixB;
  }

  /** Some object with this UID suffix has `name` as its last candidate. */
  ghost predicate SomeLastCandidate(lower: char -> char, name: string, suffix: string) {
    exists strategy, displayName :: IsLastCandidate(strategy, lower, displayName, suffix, name)
  }

  predicate IsLastCandidate(strategy: Strategy, lower: char -> char, displayName: string, suffix: string,
                            name: string) {
    var names := Propose(strategy, lower, displayName, suffix);
    names[|names| - 1] == name
  }

  /**
   * Only last candidates are kept apart: a plain slug, the first candidate of its display name, is the last
   * candidate of another object exactly when it ends in a dash and that object's suffix.
   */
  lemma SlugMeetsLastCandidate(lower: char -> char, displayName: string, suffix: string)
    requires LowersLabels(lower) && HexSuffix(suffix)
    ensures SomeLastCandidate(lower, Slug(lower, displayName), suffix) <==>
      HasSuffix(Slug(lower, displayName), "-" + suffix)
  {
    var slug := Slug(lower, displayName);
    if strategy, other :| IsLastCandidate(strategy, lower, other, suffix, slug) {
      LastCandidateEnds(strategy, lower, other, suffix);
    }
    if HasSuffix(slug, "-" + suffix) {
      SlugIsLabel(lower, displayName);
      var head := slug[..|slug| - 1 - SUFFIX_LENGTH];
      assert slug == head + ("-" + suffix);
      assert slug[|head|] == '-';
      HeadProposes(lower, head, suffix);
      assert IsLastCandidate(SlugStrategy, lower, head, suffix, slug);
    }
  }

  lemma LastCandidateEnds(strategy: Strategy, lower: char -> char, displayName: string, suffix: string)
    requires HexSuffix(suffix)
    ensures var names := Propose(strategy, lower, displayName, suffix);
      HasSuffix(names[|names| - 1], "-" + suffix)
  {
    var slug := Slug(lower, displayName);
    var head := if strategy == UidStrategy || slug == "" then "ws"
                else Truncate(slug, MAX_NAME_LENGTH - 1 - SUFFIX_LENGTH);
    Assoc(head, "-", suffix);
    assert "ws" + ("-" + suffix) == "ws-" + suffix;
    assert (head + ("-" + suffix))[|head|..] == "-" + suffix;
  }

  /** A clean head that leaves room for a suffix is proposed with it. */
  lemma HeadProposes(lower: char -> char, head: string, suffix: string)
    requires LowersLabels(lower) && HexSuffix(suffix)
    requires SlugShaped(head + ("-" + suffix)) && |head + ("-" + suffix)| <= MAX_NAME_LENGTH
    ensures Propose(SlugStrategy, lower, head, suffix) == [head, head + ("-" + suffix)]
  {
    var whole := head + ("-" + suffix);
    assert whole[|head|] == '-';
    assert head != "" by {
      assert whole[0] != '-';
    }
    assert forall i | 0 <= i < |head| :: head[i] == whole[i];
    assert forall c <- head :: c in whole;
    assert SlugShaped(head);
    ShapedKept(lower, head);
    TruncateShape(head, MAX_NAME_LENGTH - 1 - SUFFIX_LENGTH);
    Assoc(head, "-", suffix);
  }

  /** `hash` is the start of the digest of the subject's kind and name. */
  function MembershipName(lower: char -> char, subject: string, hash: string, tenant: string, project: string): string {
    Slug(lower, subject) + "-" + hash + "-" + Slug(lower, tenant)
    + (if project == "" then "" else "-" + Slug(lower, project))
  }

  /** An object name: label characters, a letter or digit at both ends. */
  ghost predicate ObjectName(s: string) {
    s != "" && (forall c <- s :: LabelChar(c)) && Alnum(s[0]) && Alnum(s[|s| - 1])
  }

  function Middle(hash: string, more: string): string {
    "-" + hash + "-" + more
  }

  lemma TenantWideName(a: string, hash: string, t: string)
    ensures a + "-" + hash + "-" + t + "" == a + Middle(hash, "") + t
  {
    assert "-" + hash + "-" + "" == "-" + hash + "-";
    assert a + "-" + hash + "-" == a + ("-" + hash + "-");
    assert a + "-" + hash + "-" + t + "" == a + "-" + hash + "-" + t;
  }

  lemma ProjectName(a: string, hash: string, t: string, p: string)
    ensures a + "-" + hash + "-" + t + ("-" + p) == a + Middle(hash, t + "-") + p
  {
    var front := "-" + hash + "-";
    assert a + "-" + hash + "-" == a + front;
    Assoc(a + front + t, "-", p);
    Assoc(a + front, t, "-");
    Assoc(a, front, t + "-");
  }

  lemma MiddleIsLabel(hash: string, more: string)
    requires (forall c <- hash :: Alnum(c)) && (forall c <- more :: LabelChar(c))
    requires more != "" ==> more[|more| - 1] == '-'
    ensures var middle := Middle(hash, more);
      middle[0] == '-' && middle[|middle| - 1] == '-' && forall c <- middle :: LabelChar(c)
  {
    assert forall c <- Middle(hash, more) :: c == '-' || c in hash || c in more;
  }

  /** A grant's name is a valid object name exactly when its two ends survive slugification. */
  lemma MembershipNameValid(lower: char -> char, subject: string, hash: string, tenant: string, project: string)
    requires hash != "" && forall c <- hash :: Alnum(c)
    ensures ObjectName(MembershipName(lower, subject, hash, tenant, project)) <==>
      Slug(lower, subject) != "" && Slug(lower, if project == "" then tenant else project) != ""
  {
    var a, t, p := Slug(lower, subject), Slug(lower, tenant), Slug(lower, project);
    SlugIsLabel(lower, subject);
    SlugIsLabel(lower, tenant);
    SlugIsLabel(lower, project);
    if project == "" {
      TenantWideName(a, hash, t);
      MiddleIsLabel(hash, "");
      EndsDecide(a, Middle(hash, ""), t);
    } else {
      ProjectName(a, hash, t, p);
      MiddleIsLabel(hash, t + "-");
      EndsDecide(a, Middle(hash, t + "-"), p);
    }
  }

  /** With all else equal, names of grants are told apart by each part that differs as a slug. */
  lemma MembershipNameTells(lower: char -> char, a: string, b: string, hashA: string, hashB: string,
                            tenantA: string, tenantB: string, projectA: string, projectB: string)
    requires |hashA| == |hashB|
    ensures var name := MembershipName(lower, a, hashA, tenantA, projectA);
      && (name == MembershipName(lower, b, hashB, tenantA, projectA) <==>
            Slug(lower, a) == Slug(lower, b) && hashA == hashB)
      && (name == MembershipName(lower, a, hashA, tenantB, projectA) <==> Slug(lower, tenantA) == Slug(lower, tenantB))
      && (name == MembershipName(lower, a, hashA, tenantA, projectB) <==>
            (projectA == "" <==> projectB == "") && (projectA != "" ==> Slug(lower, projectA) == Slug(lower, projectB)))
  {
    var x, y := Slug(lower, a), Slug(lower, b);
    var t := Slug(lower, tenantA);
    SameEnds(x, y, hashA, hashB, t, t, ProjectPart(lower, projectA), ProjectPart(lower, projectA));
    SameEnds(x, x, hashA, hashA, t, Slug(lower, tenantB), ProjectPart(lower, projectA), ProjectPart(lower, projectA));
    SameEnds(x, x, hashA, hashA, t, t, ProjectPart(lower, projectA), ProjectPart(lower, projectB));
    var p, q := ProjectPart(lower, projectA), ProjectPart(lower, projectB);
    if projectA != "" && projectB != "" {
      assert p[1..] == Slug(lower, projectA) && q[1..] == Slug(lower, projectB);
    }
  }

  function ProjectPart(lower: char -> char, project: string): string {
    if project == "" then "" else "-" + Slug(lower, project)
  }

  lemma SameEnds(x: string, y: string, hx: string, hy: string, t: string, u: string, p: string, q: string)
    requires |hx| == |hy|
    ensures t == u && p == q ==> (x + "-" + hx + "-" + t + p == y + "-" + hy + "-" + u + q <==> x == y && hx == hy)
    ensures x == y && hx == hy && p == q ==> (x + "-" + hx + "-" + t + p == y + "-" + hy + "-" + u + q <==> t == u)
    ensures x == y && hx == hy && t == u ==> (x + "-" + hx + "-" + t + p == y + "-" + hy + "-" + u + q <==> p == q)
  {
    var m, n := x + "-" + hx + "-" + t + p, y + "-" + hy + "-" + u + q;
    assert m[..|x|] == x && n[..|y|] == y;
    assert m[|x| + 1..|x| + 1 + |hx|] == hx && n[|y| + 1..|y| + 1 + |hy|] == hy;
    assert m[|x| + 2 + |hx|..][..|t|] == t && n[|y| + 2 + |hy|..][..|u|] == u;
    assert m[|x| + 2 + |hx| + |t|..] == p && n[|y| + 2 + |hy| + |u|..] == q;
  }

  lemma EndsDecide(a: string, middle: string, z: string)
    requires SlugShaped(a) && SlugShaped(z)
    requires middle != "" && middle[0] == '-' && middle[|middle| - 1] == '-' && forall c <- middle :: LabelChar(c)
    ensures ObjectName(a + middle + z) <==> a != "" && z != ""
  {
    var name := a + middle + z;
    assert forall c <- name :: c in a || c in middle || c in z;
    assert name[0] == (if a == "" then '-' else a[0]);
    assert name[|name| - 1] == (if z == "" then '-' else z[|z| - 1]);
    assert a != "" ==> a[0] in a;
    assert z != "" ==> z[|z| - 1] in z;
  }
}
