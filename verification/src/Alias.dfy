/** The alias table (boa-0.94.13/src/alias.c): a hash of the first path component picks a chain,
    and the chain is searched for the first alias that is a path prefix of the URI.
 */
module Aliases {
  import opened Text

  const HASHTABLE_SIZE: nat := 17

  datatype Alias = Alias(fake: string, target: string, kind: int)

  // ---- The hash

  /** `(unsigned int) c` for a plain `char`, which is signed. */
  function Signed(c: char): (u: nat)
    ensures c as int < 128 ==> u == c as int
    ensures 128 <= c as int < 256 ==> u + 256 == c as int + 0x1_0000_0000
    ensures u < 0x1_0000_0000
  {
    var n := c as int % 256;
    if n < 128 then n else n + 0x1_0000_0000 - 256
  }

  /** The sum that the loop adds up: the bytes before the next slash or the end. */
  function Sum(s: string, hash: nat): nat {
    if s == "" || s[0] == '/' || s[0] == NUL then hash else Sum(s[1..], (hash + s[0] as int) % 0x1_0000_0000)
  }

  /** `get_alias_hash_value`, for a string that is not empty. */
  function Hash(s: string): (h: nat)
    requires s != ""
    ensures h < HASHTABLE_SIZE
  {
    Sum(s[1..], Signed(s[0])) % 17
  }

  method GetHashValue(file: string) returns (h: nat)
    requires file != ""
    ensures h == Hash(file)
  {
    var hash: nat := Signed(file[0]);
    var index := 1;
    while index < |file| && file[index] != NUL && file[index] != '/'
      invariant 1 <= index <= |file|
      invariant Sum(file[1..], Signed(file[0])) == Sum(file[index..], hash)
    {
      hash := (hash + file[index] as int) % 0x1_0000_0000;
      index := index + 1;
    }
    h := hash % 17;
  }

  // ---- What is looked for

  /** The alias is a path prefix of the URI. */
  predicate Matches(a: Alias, uri: string) {
    && 0 < |a.fake| <= |uri| && a.fake <= uri
    && (a.fake[|a.fake| - 1] == '/' || |a.fake| == |uri| || uri[|a.fake|] == '/')
  }

  /** A text cut at its slashes. */
  function Components(s: string): (c: seq<string>)
    ensures c != [] && forall i | 0 <= i < |c| :: '/' !in c[i]
  {
    if s == "" then [""]
    else
      var c := Components(s[1..]);
      if s[0] == '/' then [""] + c else [[s[0]] + c[0]] + c[1..]
  }

  predicate EndsInSlash(s: string) {
    s != "" && s[|s| - 1] == '/'
  }

  /** The components of the name are the first ones of the URI; a name that ends in a slash has an
      empty last one, in whose place the URI may have any. */
  predicate PathPrefix(name: string, uri: string) {
    var c, d := Components(name), Components(uri);
    if EndsInSlash(name) then |c| <= |d| && c[..|c| - 1] == d[..|c| - 1] else c <= d
  }

  /** That is what the test on characters comes to. */
  lemma {:induction false} MatchesComponents(name: string, uri: string)
    ensures
      PathPrefix(name, uri) <==>
        name <= uri && (EndsInSlash(name) || |name| == |uri| || uri[|name|] == '/')
  {
    if name == "" {
      if uri != "" {
        assert Components(uri)[0] == "" <==> uri[0] == '/';
      }
    } else if uri != "" && name[0] == uri[0] {
      MatchesComponents(name[1..], uri[1..]);
      assert name <= uri <==> name[1..] <= uri[1..];
      SameFirst(name, uri);
    } else {
      assert !(name <= uri);
      OtherFirst(name, uri);
    }
  }

  lemma OtherFirst(name: string, uri: string)
    requires name != "" && (uri == "" || name[0] != uri[0])
    ensures !PathPrefix(name, uri)
  {
    var c, d := Components(name), Components(uri);
    if name == "/" {
      assert c == ["", ""];
      if uri != "" {
        assert d[0] != "";
      }
    } else if uri == "" || uri[0] == '/' {
      assert d[0] == "" && (name[0] != '/' ==> c[0] != "");
      if EndsInSlash(name) {
        LastIsEmpty(name);
      }
    } else if name[0] != '/' {
      assert c[0][0] == name[0] && d[0][0] == uri[0];
      if EndsInSlash(name) {
        LastIsEmpty(name);
      }
    } else {
      assert c[0] == "" && d[0] != "";
      if EndsInSlash(name) {
        LastIsEmpty(name);
      }
    }
  }

  /** A name that ends in a slash has an empty last component after another one. */
  lemma {:induction false} LastIsEmpty(s: string)
    requires EndsInSlash(s)
    ensures |Components(s)| >= 2 && Components(s)[|Components(s)| - 1] == ""
  {
    if |s| > 1 {
      LastIsEmpty(s[1..]);
    }
  }

  lemma SameFirst(name: string, uri: string)
    requires name != "" && uri != "" && name[0] == uri[0]
    ensures
      PathPrefix(name, uri) <==>
        if name == "/" then true else PathPrefix(name[1..], uri[1..])
  {
    var c, d := Components(name), Components(uri);
    var c', d' := Components(name[1..]), Components(uri[1..]);
    if name == "/" {
      assert c == ["", ""] && d == [""] + d';
    } else {
      assert EndsInSlash(name) <==> EndsInSlash(name[1..]);
      if EndsInSlash(name) {
        LastIsEmpty(name[1..]);
      }
      if name[0] == '/' {
        FirstsAlike([""] + c', [""] + d', c', d', |c'| - if EndsInSlash(name) then 1 else 0);
      } else {
        GrownAlike(name[0], c', d', |c'| - if EndsInSlash(name) then 1 else 0);
      }
    }
  }

  lemma FirstsAlike(c: seq<string>, d: seq<string>, c': seq<string>, d': seq<string>, n: nat)
    requires n <= |c'| && c == [""] + c' && d == [""] + d'
    ensures (|c| <= |d| && c[..n + 1] == d[..n + 1]) <==> (|c'| <= |d'| && c'[..n] == d'[..n])
    ensures c <= d <==> c' <= d'
  {
    if |c| <= |d| {
      assert c[..n + 1] == [""] + c'[..n] && d[..n + 1] == [""] + d'[..n];
      assert c[..n + 1] == d[..n + 1] ==> c'[..n] == c[..n + 1][1..] == d[..n + 1][1..] == d'[..n];
      assert c == d[..|c|] ==> c' == c[1..] == d[..|c|][1..] == d'[..|c'|];
    }
  }

  lemma GrownAlike(x: char, c': seq<string>, d': seq<string>, n: nat)
    requires c' != [] && d' != [] && 0 < n <= |c'|
    ensures
      var c, d := [[x] + c'[0]] + c'[1..], [[x] + d'[0]] + d'[1..];
      && ((|c| <= |d| && c[..n] == d[..n]) <==> (|c'| <= |d'| && c'[..n] == d'[..n]))
      && (c <= d <==> c' <= d')
  {
    var c, d := [[x] + c'[0]] + c'[1..], [[x] + d'[0]] + d'[1..];
    assert c[0] == d[0] <==> c'[0] == d'[0] by {
      assert c[0][1..] == c'[0] && d[0][1..] == d'[0];
    }
    assert forall i | 0 < i < |c'| :: c[i] == c'[i];
    assert forall i | 0 < i < |d'| :: d[i] == d'[i];
    if |c'| <= |d'| {
      SameSlices(c, d, c', d', n);
      SameSlices(c, d, c', d', |c|);
    }
  }

  lemma SameSlices(c: seq<string>, d: seq<string>, c': seq<string>, d': seq<string>, n: nat)
    requires n <= |c| == |c'| <= |d| == |d'| && forall i | 0 <= i < |c| :: c[i] == d[i] <==> c'[i] == d'[i]
    ensures c[..n] == d[..n] <==> c'[..n] == d'[..n]
  {
    if c[..n] == d[..n] {
      assert forall i | 0 <= i < n :: c[i] == c[..n][i] == d[..n][i] == d[i];
    }
    if c'[..n] == d'[..n] {
      assert forall i | 0 <= i < n :: c'[i] == c'[..n][i] == d'[..n][i] == d'[i];
    }
  }

  /** The simple scan: the first that matches. */
  function FirstMatch(s: seq<Alias>, uri: string): (r: Option<Alias>)
    ensures r.Some? ==> r.value in s && Matches(r.value, uri)
    ensures r.None? ==> forall a | a in s :: !Matches(a, uri)
  {
    if s == [] then None else if Matches(s[0], uri) then Some(s[0]) else FirstMatch(s[1..], uri)
  }

  lemma {:induction false} FirstMatchSnoc(s: seq<Alias>, a: Alias, uri: string)
    ensures FirstMatch(s + [a], uri) ==
            if FirstMatch(s, uri).Some? then FirstMatch(s, uri) else if Matches(a, uri) then Some(a) else None
  {
    if s == [] {
      assert s + [a] == [a];
    } else {
      FirstMatchSnoc(s[1..], a, uri);
      assert (s + [a])[1..] == s[1..] + [a];
    }
  }

  lemma {:induction false} SumOfPrefix(s: string, t: string, hash: nat)
    requires s <= t && ('/' in s || NUL in s || |s| == |t| || t[|s|] == '/')
    ensures Sum(s, hash) == Sum(t, hash)
  {
    if s != "" && s[0] != '/' && s[0] != NUL {
      SumOfPrefix(s[1..], t[1..], (hash + s[0] as int) % 0x1_0000_0000);
    }
  }

  /** An alias that matches is in the bucket of the URI, unless it is "/". */
  lemma MatchSharesBucket(a: Alias, uri: string)
    requires Matches(a, uri) && a.fake != "/"
    ensures Hash(a.fake) == Hash(uri)
  {
    var n := |a.fake|;
    assert a.fake[n - 1] == '/' ==> n == 1 || a.fake[1..][n - 2] == '/';
    assert n < |uri| ==> uri[1..][n - 1] == uri[n];
    assert n == 1 && a.fake[0] == '/' ==> a.fake == "/";
    SumOfPrefix(a.fake[1..], uri[1..], Signed(uri[0]));
  }

  function Total(s: string): nat {
    if s == "" then 0 else s[0] as int + Total(s[1..])
  }

  lemma {:induction false} SumIsTotal(s: string, hash: nat)
    requires NUL !in s
    ensures Sum(s, hash) % 0x1_0000_0000 == (hash + Total(Components(s)[0])) % 0x1_0000_0000
  {
    if s != "" && s[0] != '/' {
      var c := Components(s[1..])[0];
      SumIsTotal(s[1..], (hash + s[0] as int) % 0x1_0000_0000);
      assert Components(s)[0] == [s[0]] + c && ([s[0]] + c)[1..] == c;
      hide Sum, Components;
      AddModulo(hash + s[0] as int, Total(c));
    }
  }

  lemma AddModulo(a: nat, b: nat)
    ensures (a % 0x1_0000_0000 + b) % 0x1_0000_0000 == (a + b) % 0x1_0000_0000
  {}

  /** The hash is made of the first byte, as a signed one, and the others of its component. */
  lemma HashOfComponent(s: string)
    requires s != "" && NUL !in s
    ensures
      var first := if s[0] as int % 256 < 128 then s[0] as int % 256 else s[0] as int % 256 - 256;
      Hash(s) == (first + Total(Components(s[1..])[0])) % 0x1_0000_0000 % 17
  {
    hide Sum, Total, Components, Signed;
    SumIsTotal(s[1..], Signed(s[0]));
    SumIsSmall(s[1..], Signed(s[0]));
    SignedModulo(s[0], Total(Components(s[1..])[0]));
  }

  lemma SignedModulo(c: char, n: nat)
    ensures
      var first := if c as int % 256 < 128 then c as int % 256 else c as int % 256 - 256;
      (Signed(c) + n) % 0x1_0000_0000 == (first + n) % 0x1_0000_0000
  {}

  lemma {:induction false} SumIsSmall(s: string, hash: nat)
    requires hash < 0x1_0000_0000
    ensures Sum(s, hash) < 0x1_0000_0000
  {
    if s != "" && s[0] != '/' && s[0] != NUL {
      SumIsSmall(s[1..], (hash + s[0] as int) % 0x1_0000_0000);
    }
  }

  // ---- What the chains hold

  /** Adding to a chain; the last element is not compared. */
  function Insert(chain: seq<Alias>, a: Alias): seq<Alias> {
    if exists i | 0 <= i < |chain| - 1 :: chain[i].fake == a.fake then chain else chain + [a]
  }

  /** The chain of bucket `b` after the aliases `added`. */
  function Chain(added: seq<Alias>, b: nat): seq<Alias>
    requires forall a | a in added :: a.fake != ""
  {
    if added == [] then []
    else
      var last := added[|added| - 1];
      var chain := Chain(added[..|added| - 1], b);
      if Hash(last.fake) == b then Insert(chain, last) else chain
  }

  /** The simple scan over the aliases of a bucket. */
  function InBucket(added: seq<Alias>, b: nat): (s: seq<Alias>)
    requires forall a | a in added :: a.fake != ""
    ensures forall a | a in s :: a in added && Hash(a.fake) == b
  {
    if added == [] then []
    else
      var last := added[|added| - 1];
      InBucket(added[..|added| - 1], b) + if Hash(last.fake) == b then [last] else []
  }

  /** What the duplicate check leaves out is never the first match. */
  lemma InsertFinds(chain: seq<Alias>, a: Alias, uri: string)
    ensures FirstMatch(Insert(chain, a), uri) == FirstMatch(chain + [a], uri)
  {
    FirstMatchSnoc(chain, a, uri);
    if i :| 0 <= i < |chain| - 1 && chain[i].fake == a.fake {
      assert chain[i] in chain && (Matches(a, uri) <==> Matches(chain[i], uri));
    }
  }

  lemma {:induction false} ChainFinds(added: seq<Alias>, b: nat, uri: string)
    requires forall a | a in added :: a.fake != ""
    ensures FirstMatch(Chain(added, b), uri) == FirstMatch(InBucket(added, b), uri)
  {
    if added != [] {
      var before, last := added[..|added| - 1], added[|added| - 1];
      ChainFinds(before, b, uri);
      if Hash(last.fake) == b {
        InsertFinds(Chain(before, b), last, uri);
        FirstMatchSnoc(Chain(before, b), last, uri);
        FirstMatchSnoc(InBucket(before, b), last, uri);
      } else {
        assert InBucket(before, b) + [] == InBucket(before, b);
      }
    }
  }

  /** The alias that the simple scan finds is out of reach of the table. */
  predicate RootMissed(added: seq<Alias>, uri: string)
    requires uri != ""
  {
    match FirstMatch(added, uri)
    case Some(a) => a.fake == "/" && Hash(a.fake) != Hash(uri)
    case None => false
  }

  /** The bucket has the first match of all, except "/" when it is elsewhere. */
  lemma {:induction false} BucketFinds(added: seq<Alias>, uri: string)
    requires uri != "" && forall a | a in added :: a.fake != ""
    requires !RootMissed(added, uri)
    ensures FirstMatch(InBucket(added, Hash(uri)), uri) == FirstMatch(added, uri)
  {
    var b := Hash(uri);
    if added != [] {
      var before, last := added[..|added| - 1], added[|added| - 1];
      assert added == before + [last];
      FirstMatchSnoc(before, last, uri);
      assert !RootMissed(before, uri);
      BucketFinds(before, uri);
      FirstMatchSnoc(InBucket(before, b), last, uri);
      assert InBucket(before, b) + [] == InBucket(before, b);
      if Matches(last, uri) && last.fake != "/" {
        MatchSharesBucket(last, uri);
      }
      hide Matches, Hash;
    }
  }

  /** The table's answer is that of the simple scan over all aliases in the order in which they
      were added, except exactly when the scan finds "/" and the URI has another hash. */
  lemma TableAgreesWithScan(added: seq<Alias>, uri: string)
    requires uri != "" && forall a | a in added :: a.fake != ""
    ensures FirstMatch(Chain(added, Hash(uri)), uri) == FirstMatch(added, uri) <==> !RootMissed(added, uri)
  {
    ChainFinds(added, Hash(uri), uri);
    if !RootMissed(added, uri) {
      BucketFinds(added, uri);
    }
  }

  /** Without an alias "/" there is no exception. */
  lemma NoRootNoMiss(added: seq<Alias>, uri: string)
    requires uri != "" && forall a | a in added :: a.fake != "" && a.fake != "/"
    ensures FirstMatch(Chain(added, Hash(uri)), uri) == FirstMatch(added, uri)
  {
    TableAgreesWithScan(added, uri);
  }

  /** An alias for "/" is not found for "/a". */
  lemma RootMissedSometimes(a: Alias)
    requires a.fake == "/"
    ensures Matches(a, "/a") && FirstMatch([a], "/a") == Some(a) && FirstMatch(Chain([a], Hash("/a")), "/a") == None
  {
    var uri := "/a";
    assert Signed('/') == 47;
    assert Hash(uri) == 8 by {
      assert uri[1..] == "a" && "a"[1..] == "";
      assert Sum("a", 47) == Sum("", 47 + 97);
    }
    assert Hash(a.fake) == 13 by {
      assert a.fake[1..] == "";
    }
    TableAgreesWithScan([a], uri);
    assert Chain([a][..0], 8) == [];
  }

  // ---- The answer, without the table

  /** The alias is a path prefix of the URI; "/" is out of reach of a URI with another hash. */
  predicate Reachable(a: Alias, uri: string)
    requires uri != ""
  {
    PathPrefix(a.fake, uri) && (a.fake == "/" ==> Hash("/") == Hash(uri))
  }

  /** The first one added, if there is any. */
  ghost predicate FirstReachable(added: seq<Alias>, uri: string, found: Option<Alias>)
    requires uri != ""
  {
    match found
    case None => forall i | 0 <= i < |added| :: !Reachable(added[i], uri)
    case Some(a) =>
      exists k | 0 <= k < |added| ::
        added[k] == a && Reachable(a, uri) && forall i | 0 <= i < k :: !Reachable(added[i], uri)
  }

  lemma ReachableIsMatch(a: Alias, uri: string)
    requires uri != "" && a.fake != ""
    ensures Reachable(a, uri) <==> Matches(a, uri) && Hash(a.fake) == Hash(uri)
  {
    MatchesComponents(a.fake, uri);
    if Matches(a, uri) && a.fake != "/" {
      MatchSharesBucket(a, uri);
    }
  }

  lemma {:induction false} BucketFindsReachable(added: seq<Alias>, uri: string)
    requires uri != "" && forall a | a in added :: a.fake != ""
    ensures FirstReachable(added, uri, FirstMatch(InBucket(added, Hash(uri)), uri))
  {
    hide Hash, PathPrefix, Reachable;
    var b := Hash(uri);
    if added != [] {
      var before, last := added[..|added| - 1], added[|added| - 1];
      BucketFindsReachable(before, uri);
      ReachableIsMatch(last, uri);
      FirstMatchSnoc(InBucket(before, b), last, uri);
      assert InBucket(before, b) + [] == InBucket(before, b);
      OneMore(before, last, uri, FirstMatch(InBucket(before, b), uri));
      assert added == before + [last];
    }
  }

  lemma OneMore(before: seq<Alias>, last: Alias, uri: string, found: Option<Alias>)
    requires uri != "" && FirstReachable(before, uri, found)
    ensures
      FirstReachable(before + [last], uri,
        if found.Some? then found else if Reachable(last, uri) then Some(last) else None)
  {
    hide Reachable;
    var added := before + [last];
    if found.Some? {
      var k :| 0 <= k < |before| && before[k] == found.value && Reachable(found.value, uri)
        && forall i | 0 <= i < k :: !Reachable(before[i], uri);
      assert added[k] == found.value;
    } else if Reachable(last, uri) {
      assert added[|before|] == last;
    }
  }

  // ---- The table

  lemma {:induction false} FirstMatchAt(s: seq<Alias>, k: nat, uri: string)
    requires k <= |s| && forall i | 0 <= i < k :: !Matches(s[i], uri)
    ensures k < |s| && Matches(s[k], uri) ==> FirstMatch(s, uri) == Some(s[k])
    ensures k == |s| ==> FirstMatch(s, uri) == None
  {
    if k > 0 {
      FirstMatchAt(s[1..], k - 1, uri);
    }
  }

  class Node {
    const alias: Alias
    var next: Node?

    constructor (a: Alias)
      ensures alias == a && next == null
    {
      alias := a;
      next := null;
    }
  }

  function Values(s: seq<Node>): (r: seq<Alias>)
    ensures |r| == |s| && forall i | 0 <= i < |s| :: r[i] == s[i].alias
  {
    seq(|s|, i requires 0 <= i < |s| => s[i].alias)
  }

  /** The chains hold what the calls of `add_alias` amount to. */
  ghost predicate Represents(chains: seq<seq<Node>>, added: seq<Alias>) {
    && |chains| == HASHTABLE_SIZE && (forall a | a in added :: a.fake != "")
    && forall b: nat | b < HASHTABLE_SIZE :: Values(chains[b]) == Chain(added, b)
  }

  /** The name is on the chain, before its last node. */
  ghost predicate Twice(s: seq<Node>, name: string) {
    exists i | 0 <= i < |s| - 1 :: s[i].alias.fake == name
  }

  /** One more call. */
  lemma Grown(chains: seq<seq<Node>>, added: seq<Alias>, a: Alias)
    requires Represents(chains, added) && a.fake != ""
    ensures
      Twice(chains[Hash(a.fake)], a.fake) ==> Represents(chains, added + [a])
  {}

  lemma GrownBy(chains: seq<seq<Node>>, added: seq<Alias>, a: Alias, n: Node)
    requires Represents(chains, added) && a.fake != "" && n.alias == a && !Twice(chains[Hash(a.fake)], a.fake)
    ensures Represents(chains[Hash(a.fake) := chains[Hash(a.fake)] + [n]], added + [a])
  {}

  class Table {
    const buckets: array<Node?>
    const normalizePath: string -> string
    ghost var nodes: set<Node>
    ghost var chains: seq<seq<Node>>
    ghost var added: seq<Alias>       // the calls of `add_alias` that returned, in order

    /** A chain, from its head. */
    static ghost predicate Linked(head: Node?, s: seq<Node>, nodes: set<Node>)
      reads nodes
    {
      && (forall n | n in s :: n in nodes)
      && (if s == [] then head == null else head == s[0] && s[|s| - 1].next == null)
      && (forall i, j | 0 <= i && j == i + 1 && j < |s| :: s[i].next == s[j])
      && (forall i, j | 0 <= i < j < |s| :: s[i] != s[j])
    }

    ghost predicate Chained(b: nat)
      reads this`nodes, this`chains, buckets, nodes
    {
      && b < HASHTABLE_SIZE == buckets.Length == |chains|
      && Linked(buckets[b], chains[b], nodes)
      && (forall n | n in chains[b] :: n.alias.fake != "" && Hash(n.alias.fake) == b)
    }

    ghost predicate AllChained()
      reads this`nodes, this`chains, buckets, nodes
    {
      buckets.Length == HASHTABLE_SIZE == |chains| && forall b: nat | b < HASHTABLE_SIZE :: Chained(b)
    }

    ghost predicate Valid()
      reads this, buckets, nodes
    {
      AllChained() && Represents(chains, added)
    }

    constructor (normalizePath: string -> string)
      ensures Valid() && added == [] && this.normalizePath == normalizePath && fresh(buckets) && fresh(nodes)
    {
      buckets := new Node?[HASHTABLE_SIZE](_ => null);
      this.normalizePath := normalizePath;
      nodes, chains, added := {}, seq(HASHTABLE_SIZE, _ => []), [];
    }

    /** The file that an alias stands for; a leading "./" is taken relative to the working
        directory. */
    function Target(realname: string): (r: string)
      ensures "./" <= realname ==> r == normalizePath(realname[2..])
      ensures !("./" <= realname) ==> r == realname
    {
      if 2 <= |realname| && realname[0] == '.' && realname[1] == '/' then normalizePath(realname[2..]) else realname
    }

    /** The walk to the end of a chain, comparing all but the last. */
    method Walk(hash: nat, fakename: string) returns (last: Node?, twice: bool)
      requires hash < HASHTABLE_SIZE && AllChained()
      ensures
        var s := chains[hash];
        && (twice <==> Twice(s, fakename))
        && (!twice ==> last == if s == [] then null else s[|s| - 1])
    {
      last, twice := buckets[hash], false;
      ghost var s := chains[hash];
      ghost var k := 0;
      assert Chained(hash);
      hide Hash;
      if last != null {
        while last.next != null
          invariant k < |s| && last == s[k] && last.next == if k + 1 < |s| then s[k + 1] else null
          invariant forall i | 0 <= i < k :: s[i].alias.fake != fakename
          decreases |s| - k
        {
          if fakename == last.alias.fake {
            return last, true;
          }
          last := last.next;
          k := k + 1;
        }
      }
    }

    /** A node is on the chain of its name's hash only. */
    lemma NotElsewhere(hash: nat, n: Node)
      requires AllChained() && hash < HASHTABLE_SIZE && n in chains[hash]
      ensures forall b: nat | b < HASHTABLE_SIZE && b != hash :: n !in chains[b]
    {
      assert Chained(hash);
      forall b: nat | b < HASHTABLE_SIZE && n in chains[b]
        ensures b == hash
      {
        assert Chained(b);
      }
    }

    /** A new node at the end of a chain. */
    method Append(hash: nat, last: Node?, a: Alias)
      requires AllChained() && a.fake != "" && hash == Hash(a.fake)
      requires last == if chains[hash] == [] then null else chains[hash][|chains[hash]| - 1]
      modifies this`nodes, this`chains, buckets, nodes
      ensures AllChained() && fresh(nodes - old(nodes))
      ensures exists n: Node :: n.alias == a && chains == old(chains)[hash := old(chains)[hash] + [n]]
    {
      assert Chained(hash) && (last != null ==> last in chains[hash]);
      assert forall b: nat | b < HASHTABLE_SIZE :: Chained(b);
      if last != null {
        NotElsewhere(hash, last);
      }
      hide Hash, Values;
      var node := new Node(a);
      if last != null {
        last.next := node;
      } else {
        buckets[hash] := node;
      }
      nodes := nodes + {node};
      chains := chains[hash := chains[hash] + [node]];
      forall b: nat | b < HASHTABLE_SIZE
        ensures Chained(b)
      {
        assert old(Chained(b));
      }
    }

    /** `add_alias`; the server stops when a name is empty. */
    method AddAlias(fakename: string, realname: string, kind: int) returns (died: bool)
      requires Valid()
      modifies this, buckets, nodes
      ensures Valid() && fresh(nodes - old(nodes))
      ensures died <==> fakename == "" || realname == ""
      ensures added == if died then old(added) else old(added) + [Alias(fakename, Target(realname), kind)]
    {
      hide Hash, Represents, Chained, Linked, Chain, Values, FirstMatch, Twice;
      if fakename == "" || realname == "" {
        return true;
      }
      died := false;
      var hash := GetHashValue(fakename);
      var last, twice := Walk(hash, fakename);
      var a := Alias(fakename, Target(realname), kind);
      Grown(chains, added, a);
      if !twice {
        ghost var was := chains;
        Append(hash, last, a);
        ghost var n: Node :| n.alias == a && chains == was[hash := was[hash] + [n]];
        GrownBy(was, added, a, n);
      }
      added := added + [a];
    }

    /** The walk along a chain until an alias matches. */
    method Search(hash: nat, uri: string) returns (r: Node?)
      requires hash < HASHTABLE_SIZE && AllChained() && uri != ""
      ensures (if r == null then None else Some(r.alias)) == FirstMatch(Values(chains[hash]), uri)
    {
      r := buckets[hash];
      ghost var s := chains[hash];
      ghost var k := 0;
      assert Chained(hash);
      hide Hash;
      while r != null
        invariant k <= |s| && r == (if k < |s| then s[k] else null)
        invariant forall i | 0 <= i < k :: !Matches(Values(s)[i], uri)
        decreases |s| - k
      {
        assert r.next == if k + 1 < |s| then s[k + 1] else null;
        hide Linked;
        var fake := r.alias.fake;
        if |fake| <= |uri| && uri[..|fake|] == fake &&
           (fake[|fake| - 1] == '/' || |fake| == |uri| || uri[|fake|] == '/') {
          FirstMatchAt(Values(s), k, uri);
          return;
        }
        r := r.next;
        k := k + 1;
      }
      FirstMatchAt(Values(s), k, uri);
    }

    /** `find_alias`. */
    method FindAlias(uri: string) returns (r: Node?)
      requires Valid() && uri != "" && NUL !in uri
      ensures
        var found := if r == null then None else Some(r.alias);
        && found == FirstMatch(Chain(added, Hash(uri)), uri)
        && (found == FirstMatch(added, uri) <==> !RootMissed(added, uri))
        && FirstReachable(added, uri, found)
    {
      TableAgreesWithScan(added, uri);
      ChainFinds(added, Hash(uri), uri);
      BucketFindsReachable(added, uri);
      var hash := GetHashValue(uri);
      hide Hash, Chain, FirstMatch, AllChained, RootMissed, Matches, FirstReachable;
      r := Search(hash, uri);
    }
  }
}
