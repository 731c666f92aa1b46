/** The search for the first boundary of a multipart body, `"--" + B`, in which the first
    character recurs (web/cgic/cgic.c): which occurrence it finds when the hyphens of the
    boundary come first, what is enough for any other boundary, and how it goes wrong.
 */
module FirstBoundary {
  import opened Text
  import opened Streams
  import opened Boundary

  /** What a search leaves of the stream. */
  function Stream(o: Outcome): Option<(string, string)> {
    if o.Hit? then Some((o.ring, o.file)) else None
  }

  /** The search without what it emits. */
  function Seek(w: string, ring: string, file: string, b: nat): Option<(string, string)>
    requires b < |w|
    decreases |ring| + |file| + b, |w| - b
  {
    if ring + file == [] then None
    else
      var d := Next(ring, file);
      var (ring', file') := Drop(ring, file);
      if d == w[b] then
        if b + 1 == |w| then Some((ring', file')) else Seek(w, ring', file', b + 1)
      else if b > 0 then
        Seek(w, ring' + w[1..b] + [d], file', 0)
      else
        Seek(w, ring', file', 0)
  }

  lemma {:induction false} ScanSeeks(w: string, ring: string, file: string, b: nat, out: string)
    requires b < |w|
    ensures Stream(Scan(w, ring, file, b, out)) == Seek(w, ring, file, b)
    decreases |ring| + |file| + b, |w| - b
  {
    if ring + file != [] {
      var d := Next(ring, file);
      var (ring', file') := Drop(ring, file);
      if d == w[b] {
        if b + 1 < |w| {
          ScanSeeks(w, ring', file', b + 1, out);
        }
      } else if b > 0 {
        ScanSeeks(w, ring' + w[1..b] + [d], file', 0, out + [w[0]]);
      } else {
        ScanSeeks(w, ring', file', 0, out + [d]);
      }
    }
  }

  // ---- Boundaries whose hyphens come first

  function Lead(w: string): (n: nat)
    ensures n <= |w| && (n < |w| ==> w[n] != '-')
    ensures forall i | 0 <= i < n :: w[i] == '-'
  {
    if w == "" || w[0] != '-' then 0
    else
      var n := Lead(w[1..]);
      assert forall i | 0 < i <= n :: w[i] == w[1..][i - 1];
      n + 1
  }

  /** Two hyphens or more, and no other. */
  predicate HyphensFirst(w: string) {
    Lead(w) >= 2 && forall i | Lead(w) <= i < |w| :: w[i] != '-'
  }

  function Hyphens(n: nat): (s: string)
    ensures |s| == n && forall i | 0 <= i < n :: s[i] == '-'
  {
    seq(n, _ => '-')
  }

  lemma HyphensCons(k: nat, rest: string)
    requires k > 0
    ensures
      var s := Hyphens(k) + rest;
      s[0] == '-' && s[1..] == Hyphens(k - 1) + rest
  {}

  /** Hyphens from the ring are matched like any others. */
  lemma {:induction false} RingHyphens(w: string, k: nat, rest: string, file: string, b: nat)
    requires b + k <= Lead(w) && b + k < |w|
    ensures Seek(w, Hyphens(k) + rest, file, b) == Seek(w, rest, file, b + k)
    decreases k
  {
    if k == 0 {
      assert Hyphens(0) + rest == rest;
    } else {
      HyphensCons(k, rest);
      RingHyphens(w, k - 1, rest, file, b + 1);
    }
  }

  lemma {:induction false} FileMatches(w: string, m: nat, file: string, b: nat)
    requires b <= m < |w| && w[b..m] <= file
    ensures Seek(w, "", file, b) == Seek(w, "", file[m - b..], m)
    decreases m - b
  {
    if b == m {
      assert file[0..] == file;
    } else {
      assert file[0] == w[b..m][0] && w[b + 1..m] == w[b..m][1..];
      assert file[1..][m - b - 1..] == file[m - b..];
      FileMatches(w, m, file[1..], b + 1);
    }
  }

  /** Text without a hyphen that is put back in front goes by. */
  lemma {:induction false} RingGoesBy(w: string, text: string, rest: string, file: string)
    requires w != "" && w[0] == '-' && '-' !in text
    ensures Seek(w, text + rest, file, 0) == Seek(w, rest, file, 0)
  {
    if text == "" {
      assert text + rest == rest;
    } else {
      assert text[0] in text;
      assert (text + rest)[1..] == text[1..] + rest;
      RingGoesBy(w, text[1..], rest, file);
    }
  }

  /** Too few hyphens and then something else, all in the ring, leave nothing. */
  lemma {:induction false} RingCrumbles(w: string, k: nat, c: char, file: string)
    requires k < Lead(w) && k < |w| && c != '-'
    ensures Seek(w, Hyphens(k) + [c], file, 0) == Seek(w, "", file, 0)
  {
    if k == 0 {
      RingGoesBy(w, [c], "", file);
      assert Hyphens(0) + [c] == [c] + "";
    } else {
      RingHyphens(w, k, [c], file, 0);
      assert "" + w[1..k] + [c] == Hyphens(k - 1) + [c];
      assert Seek(w, [c], file, k) == Seek(w, "" + w[1..k] + [c], file, 0);
      RingCrumbles(w, k - 1, c, file);
    }
  }

  lemma FileHyphens(w: string, k: nat, rest: string)
    requires k <= Lead(w) && k < |w|
    ensures Seek(w, "", Hyphens(k) + rest, 0) == Seek(w, "", rest, k)
  {
    assert w[0..k] == Hyphens(k) && Hyphens(k) <= Hyphens(k) + rest;
    assert (Hyphens(k) + rest)[k..] == rest;
    FileMatches(w, k, Hyphens(k) + rest, 0);
  }

  lemma LastInRing(w: string, d: char, file: string, b: nat)
    requires b < |w|
    ensures Seek(w, [d], file, b) == Seek(w, "", [d] + file, b)
  {
    assert [d][1..] == "" && ([d] + file)[1..] == file;
  }

  /** Where a give-back is as good as starting over one character later. */
  lemma GivenBackInOrder(w: string, k: nat, d: char, file: string)
    requires k < Lead(w) && k < |w|
    ensures Seek(w, Hyphens(k) + [d], file, 0) == Seek(w, "", Hyphens(k) + ([d] + file), 0)
  {
    hide *;
    RingHyphens(w, k, [d], file, 0);
    LastInRing(w, d, file, k);
    FileHyphens(w, k, [d] + file);
  }

  // ---- One round of the search, on the plain text

  /** How far `w` and `s` agree. */
  function Common(w: string, s: string): (m: nat)
    ensures m <= |w| && m <= |s| && w[..m] == s[..m]
    ensures m < |w| && m < |s| ==> w[m] != s[m]
  {
    if w == "" || s == "" || w[0] != s[0] then 0
    else
      var m := Common(w[1..], s[1..]);
      assert w[..m + 1] == [w[0]] + w[1..][..m] && s[..m + 1] == [s[0]] + s[1..][..m];
      m + 1
  }

  lemma {:induction false} CommonIs(w: string, s: string, m: nat)
    requires m <= |w| && m <= |s| && w[..m] == s[..m]
    ensures m <= Common(w, s)
  {
    if m > 0 {
      assert w[..m][0] == s[..m][0] && w[1..][..m - 1] == w[..m][1..] == s[..m][1..] == s[1..][..m - 1];
      CommonIs(w[1..], s[1..], m - 1);
    }
  }

  /** The text ends in the middle of the boundary. */
  lemma RunsOut(w: string, s: string)
    requires Common(w, s) == |s| < |w|
    ensures Seek(w, "", s, 0) == None
  {
    assert w[0..|s|] == w[..|s|] == s[..|s|] == s;
    FileMatches(w, |s|, s, 0);
  }

  /** What the text is made of when a match fails after `m` characters. */
  lemma FailedMatch(w: string, s: string, m: nat)
    requires Common(w, s) == m && 0 < m < |w| && m < |s|
    ensures s[m] != w[m] && w[0..m] == w[..m] && w[..m] <= s && s[m..] == [s[m]] + s[m + 1..]
    ensures s[1..] == w[1..m] + ([s[m]] + s[m + 1..])
  {
    hide Common;
    assert s == s[..m] + s[m..] && w[1..m] == w[..m][1..];
  }

  lemma GiveBackAll(w: string, m: nat, d: char, file: string)
    requires 0 < m < |w| && d != w[m]
    ensures Seek(w, "", [d] + file, m) == Seek(w, w[1..m] + [d], file, 0)
  {
    assert ([d] + file)[1..] == file && "" + w[1..m] == w[1..m];
  }

  /** After a failed match. */
  lemma Fails(w: string, s: string, m: nat)
    requires Common(w, s) == m && 0 < m < |w| && m < |s|
    ensures Seek(w, "", s, 0) == Seek(w, w[1..m] + [s[m]], s[m + 1..], 0)
  {
    hide Common, Seek;
    FailedMatch(w, s, m);
    FileMatches(w, m, s, 0);
    GiveBackAll(w, m, s[m], s[m + 1..]);
  }

  /** A match that fails within the hyphens. */
  lemma FailsEarly(w: string, s: string)
    requires w != "" && s != "" && Common(w, s) < |s| && Common(w, s) < |w| && Common(w, s) <= Lead(w)
    ensures Seek(w, "", s, 0) == Seek(w, "", s[1..], 0)
  {
    var m := Common(w, s);
    if m > 0 {
      hide Common, Seek, Lead;
      Fails(w, s, m);
      FailedMatch(w, s, m);
      assert w[1..m] == Hyphens(m - 1);
      GivenBackInOrder(w, m - 1, s[m], s[m + 1..]);
    }
  }

  /** A match that fails behind the hyphens: what is given back overtakes the rest, and the
      character after the match is gone as well. */
  lemma FailsLate(w: string, s: string)
    requires HyphensFirst(w) && Lead(w) < Common(w, s) < |w| && Common(w, s) < |s|
    ensures Seek(w, "", s, 0) == Seek(w, "", s[Common(w, s) + 1..], 0)
  {
    hide *;
    NoHyphenAfter(w, Common(w, s));
    Fails(w, s, Common(w, s));
    GivenBackLate(w, Common(w, s), s[Common(w, s)], s[Common(w, s) + 1..]);
  }

  lemma GivenBackLate(w: string, m: nat, d: char, file: string)
    requires HyphensFirst(w) && Lead(w) < m < |w|
    ensures Seek(w, w[1..m] + [d], file, 0) == Seek(w, "", file, 0)
  {
    hide *;
    NoHyphenAfter(w, m);
    var n, ring := Lead(w), [w[Lead(w)]] + w[Lead(w) + 1..m] + [d];
    HyphensThenText(w, m, d);
    RingHyphens(w, n - 1, ring, file, 0);
    Overtaken(w, w[n + 1..m], d, file);
  }

  lemma NoHyphenAfter(w: string, m: nat)
    requires HyphensFirst(w) && Lead(w) < m <= |w|
    ensures Lead(w) >= 2 && '-' !in w[Lead(w) + 1..m]
  {}

  lemma HyphensThenText(w: string, m: nat, d: char)
    requires 0 < Lead(w) < m <= |w|
    ensures var n := Lead(w); w[1..m] + [d] == Hyphens(n - 1) + ([w[n]] + w[n + 1..m] + [d])
  {
    hide Lead;
    var n := Lead(w);
    var text := [w[n]] + w[n + 1..m];
    assert w[1..n] == Hyphens(n - 1);
    FirstApart(w, n, m);
    JoinedSlices(w, 1, n, m);
    Regrouped(Hyphens(n - 1), text, [d]);
  }

  lemma FirstApart(s: string, i: nat, k: nat)
    requires i < k <= |s|
    ensures s[i..k] == [s[i]] + s[i + 1..k]
  {
    JoinedSlices(s, i, i + 1, k);
  }

  lemma JoinedSlices(s: string, i: nat, j: nat, k: nat)
    requires i <= j <= k <= |s|
    ensures s[i..k] == s[i..j] + s[j..k]
  {}

  lemma Regrouped(a: string, b: string, c: string)
    ensures a + b + c == a + (b + c)
  {}

  lemma Overtaken(w: string, text: string, d: char, file: string)
    requires HyphensFirst(w) && Lead(w) < |w| && '-' !in text
    ensures
      var n := Lead(w);
      Seek(w, [w[n]] + text + [d], file, n - 1) == Seek(w, "", file, 0)
  {
    var n := Lead(w);
    var ring := [w[n]] + text + [d];
    var back := Hyphens(n - 2) + [w[n]];
    assert ring[1..] == text + [d] && w[1..n - 1] == Hyphens(n - 2);
    assert ring[1..] + w[1..n - 1] + [w[n]] == text + ([d] + back);
    assert Seek(w, ring, file, n - 1) == Seek(w, text + ([d] + back), file, 0);
    RingGoesBy(w, text, [d] + back, file);
    if d == '-' {
      assert [d] + back == Hyphens(n - 1) + [w[n]];
      RingCrumbles(w, n - 1, w[n], file);
    } else {
      RingGoesBy(w, [d], back, file);
      RingCrumbles(w, n - 2, w[n], file);
    }
  }

  // ---- Which occurrences it passes over

  /** The length of the stretch without a hyphen that ends before `p`. */
  function Trail(s: string, p: nat): (j: nat)
    requires p <= |s|
    ensures j <= p && (j < p ==> s[p - j - 1] == '-')
    ensures forall i | p - j <= i < p :: s[i] != '-'
  {
    if p == 0 || s[p - 1] == '-' then 0 else 1 + Trail(s, p - 1)
  }

  lemma {:induction false} TrailIs(s: string, p: nat, j: nat)
    requires j < p <= |s| && s[p - j - 1] == '-' && forall i | p - j <= i < p :: s[i] != '-'
    ensures Trail(s, p) == j
    decreases j
  {
    if j > 0 {
      TrailIs(s, p - 1, j - 1);
    }
  }

  /** The hyphen at `p` is taken for the end of a failed match: before it stands the beginning of
      the boundary, some of what follows its hyphens included, and that beginning was noticed. */
  predicate Swallowed(w: string, s: string, p: nat)
    requires p <= |s|
    decreases p
  {
    EndsBeginning(w, s, p) && !Swallowed(w, s, p - Lead(w) - Trail(s, p))
  }

  predicate EndsBeginning(w: string, s: string, p: nat)
    requires p <= |s|
  {
    && p < |s| && s[p] == '-'
    && var n, j := Lead(w), Trail(s, p);
       1 <= j && n + j < |w| && n + j <= p && s[p - n - j..p] == w[..n + j]
  }

  predicate OccursAt(w: string, s: string, k: nat) {
    k <= |s| && w <= s[k..]
  }

  predicate Noticed(w: string, s: string, k: nat) {
    OccursAt(w, s, k) && !Swallowed(w, s, k)
  }

  /** A round of the search that fails gets past `c` characters: the first, or a failed match
      behind the hyphens and one more. */
  ghost predicate RoundEnds(w: string, s: string, c: nat) {
    && HyphensFirst(w)
    && var m := Common(w, s);
       m < |w| && m < |s| && c == if m > Lead(w) then m + 1 else 1
  }

  /** Dropping those changes nothing for later positions. */
  lemma {:induction false} SwallowedFrom(w: string, s: string, c: nat, p: nat)
    requires RoundEnds(w, s, c) && c <= p <= |s|
    ensures Swallowed(w, s, p) == Swallowed(w, s[c..], p - c)
    decreases p
  {
    hide Common, Trail, Lead, HyphensFirst, EndsBeginning, RoundEnds;
    RoundPositive(w, s, c);
    BeginningFrom(w, s, c, p);
    if EndsBeginning(w, s, p) {
      BeginningBounds(w, s, p);
      var q := p - Lead(w) - Trail(s, p);
      if q >= c {
        TrailFrom(s, c, p);
        SwallowedFrom(w, s, c, q);
      } else {
        StartsInside(w, s, c, q, Trail(s, p));
      }
    }
  }

  lemma RoundPositive(w: string, s: string, c: nat)
    requires RoundEnds(w, s, c)
    ensures Lead(w) >= 2 && 0 < c <= |s|
  {}

  lemma BeginningBounds(w: string, s: string, p: nat)
    requires p <= |s| && EndsBeginning(w, s, p)
    ensures
      var n, j := Lead(w), Trail(s, p);
      1 <= j && n + j < |w| && n + j <= p < |s| && s[p - n - j..p] == w[..n + j]
  {}

  lemma BeginningFrom(w: string, s: string, c: nat, p: nat)
    requires Lead(w) > 0 && c <= p <= |s|
    ensures EndsBeginning(w, s[c..], p - c) <==> EndsBeginning(w, s, p) && c <= p - Lead(w) - Trail(s, p)
  {
    var n, j, t := Lead(w), Trail(s, p), s[c..];
    TrailFrom(s, c, p);
    hide Trail, Lead;
    if n + j <= p - c {
      assert t[p - c - n - j..p - c] == s[p - n - j..p];
    }
  }

  lemma {:induction false} TrailFrom(s: string, c: nat, p: nat)
    requires c <= p <= |s|
    ensures Trail(s[c..], p - c) == Min(Trail(s, p), p - c)
    decreases p
  {
    if p > c && s[p - 1] != '-' {
      TrailFrom(s, c, p - 1);
    }
  }

  /** A beginning of the boundary that starts in what a round got past starts at its last
      character, which was swallowed. */
  lemma StartsInside(w: string, s: string, c: nat, q: nat, j: nat)
    requires RoundEnds(w, s, c) && 1 <= j && Lead(w) + j < |w| && q < c <= q + Lead(w) + j <= |s|
    requires s[q..q + Lead(w) + j] == w[..Lead(w) + j]
    ensures Swallowed(w, s, q)
  {
    hide Swallowed, Lead;
    var n, m := Lead(w), Common(w, s);
    if q != 0 && q >= m {
      SwallowedAt(w, s);
    } else if q == 0 {
      NotLonger(w, s, n + j);
    } else {
      NoneInside(w, s, m, q, n + j);
    }
  }

  lemma NotLonger(w: string, s: string, k: nat)
    requires Common(w, s) < k <= |w| && k <= |s|
    ensures s[0..k] != w[..k]
  {
    hide Common;
    assert s[0..k] == s[..k];
    if s[..k] == w[..k] {
      CommonIs(w, s, k);
    }
  }

  /** Not enough hyphens start inside a match. */
  lemma NoneInside(w: string, s: string, m: nat, q: nat, k: nat)
    requires HyphensFirst(w) && Lead(w) < m <= |w| && m <= |s| && w[..m] == s[..m] && 0 < q < m
    requires Lead(w) <= k <= |w| && q + k <= |s|
    ensures s[q..q + k] != w[..k]
  {
    var n := Lead(w);
    var i := Max(q, n);
    assert s[i] == s[..m][i] == w[..m][i] == w[i] && w[i] != '-';
    assert s[q..q + k][i - q] == s[i];
    assert w[..k][i - q] == '-';
  }

  /** The hyphen that ends a failed match. */
  lemma SwallowedAt(w: string, s: string)
    requires HyphensFirst(w)
    requires var m := Common(w, s); Lead(w) < m < |w| && m < |s| && s[m] == '-'
    ensures Swallowed(w, s, Common(w, s))
  {
    var n, m := Lead(w), Common(w, s);
    assert forall i | 0 <= i < m :: s[i] == s[..m][i] == w[..m][i] == w[i];
    TrailIs(s, m, m - n);
    assert s[0..m] == w[..m];
    assert !Swallowed(w, s, 0);
  }

  // ---- Exactly the first noticed occurrence is found

  /** What a round gets past is no occurrence that could be noticed. */
  lemma RoundMissesNothing(w: string, s: string, c: nat, k: nat)
    requires RoundEnds(w, s, c) && k < c
    ensures !Noticed(w, s, k)
  {
    hide Swallowed, Lead;
    var m := Common(w, s);
    if k + |w| > |s| {
    } else if k == 0 {
      NotLonger(w, s, |w|);
      assert w[..|w|] == w && s[0..][..|w|] == s[0..|w|];
    } else if k < m {
      NoneInside(w, s, m, k, |w|);
      assert w[..|w|] == w && s[k..][..|w|] == s[k..k + |w|];
    } else if OccursAt(w, s, k) {
      assert s[k] == s[k..][..|w|][0];
      SwallowedAt(w, s);
    }
  }

  lemma NoticedFrom(w: string, s: string, c: nat, k: nat)
    requires RoundEnds(w, s, c) && c <= k <= |s|
    ensures Noticed(w, s, k) == Noticed(w, s[c..], k - c)
  {
    hide Swallowed, RoundEnds;
    RoundPositive(w, s, c);
    SwallowedFrom(w, s, c, k);
    assert s[c..][k - c..] == s[k..];
  }

  lemma FoundHere(w: string, s: string)
    requires HyphensFirst(w) && Common(w, s) == |w|
    ensures FirstNoticed(w, s, Some(0)) && Seek(w, "", s, 0) == Rest(w, s, Some(0))
  {
    var m := |w| - 1;
    assert s[0..] == s && s[..|w|] == w;
    assert w[0..m] == s[..m] && w[m] == s[..|w|][m] == s[m];
    FileMatches(w, m, s, 0);
    assert s[m..][0] == s[m] && s[m..][1..] == s[|w|..];
  }

  /** The first noticed occurrence after a round is the first of all. */
  lemma Shift(w: string, s: string, c: nat, later: Option<nat>)
    requires RoundEnds(w, s, c)
    requires FirstNoticed(w, s[c..], later) && (later.Some? ==> later.value + |w| <= |s| - c)
    ensures FirstNoticed(w, s, if later.Some? then Some(later.value + c) else None)
  {
    hide Noticed, RoundEnds;
    RoundPositive(w, s, c);
    forall i: nat | i <= |s|
      ensures Noticed(w, s, i) == (c <= i && Noticed(w, s[c..], i - c))
    {
      if i < c {
        RoundMissesNothing(w, s, c, i);
      } else {
        NoticedFrom(w, s, c, i);
      }
    }
    Shifted(w, s, s[c..], c, later);
  }

  lemma Shifted(w: string, s: string, t: string, c: nat, later: Option<nat>)
    requires |s| == c + |t| && FirstNoticed(w, t, later)
    requires forall i: nat | i <= |s| :: Noticed(w, s, i) == (c <= i && Noticed(w, t, i - c))
    requires later.Some? ==> later.value <= |t|
    ensures FirstNoticed(w, s, if later.Some? then Some(later.value + c) else None)
  {
    hide Noticed;
    if later.Some? {
      assert Noticed(w, s, later.value + c) == Noticed(w, t, later.value);
    }
  }

  ghost predicate FirstNoticed(w: string, s: string, found: Option<nat>) {
    match found
    case None => forall i: nat | i <= |s| :: !Noticed(w, s, i)
    case Some(k) => Noticed(w, s, k) && forall i: nat | i < k :: !Noticed(w, s, i)
  }

  /** What the search does then. */
  function Rest(w: string, s: string, found: Option<nat>): Option<(string, string)>
    requires found.Some? ==> found.value + |w| <= |s|
  {
    if found.Some? then Some(("", s[found.value + |w|..])) else None
  }

  /** For every text: the search stops after the first occurrence that is noticed, with nothing
      in the ring, and fails if there is none. */
  lemma {:induction false} FindsFirstNoticed(w: string, s: string) returns (found: Option<nat>)
    requires HyphensFirst(w)
    ensures FirstNoticed(w, s, found)
    ensures found.Some? ==> found.value + |w| <= |s|
    ensures Seek(w, "", s, 0) == Rest(w, s, found)
    decreases |s|
  {
    hide *;
    if Common(w, s) == |w| {
      FoundHere(w, s);
      found := Some(0);
    } else if Common(w, s) == |s| {
      RunsOut(w, s);
      NoRoom(w, s);
      found := None;
    } else {
      var c := if Common(w, s) > Lead(w) then Common(w, s) + 1 else 1;
      Round(w, s, c);
      var later := FindsFirstNoticed(w, s[c..]);
      found := if later.Some? then Some(later.value + c) else None;
      Shift(w, s, c, later);
      RestShift(w, s, c, later);
    }
  }

  lemma NoRoom(w: string, s: string)
    requires |s| < |w|
    ensures FirstNoticed(w, s, None) && Rest(w, s, None) == None
  {}

  lemma Round(w: string, s: string, c: nat)
    requires HyphensFirst(w) && Common(w, s) < |w| && Common(w, s) < |s|
    requires c == if Common(w, s) > Lead(w) then Common(w, s) + 1 else 1
    ensures c <= |s| && RoundEnds(w, s, c) && Seek(w, "", s, 0) == Seek(w, "", s[c..], 0)
  {
    hide Seek;
    if Common(w, s) > Lead(w) {
      FailsLate(w, s);
    } else {
      FailsEarly(w, s);
    }
  }

  lemma RestShift(w: string, s: string, c: nat, later: Option<nat>)
    requires c <= |s| && (later.Some? ==> later.value + |w| <= |s| - c)
    ensures
      var found := if later.Some? then Some(later.value + c) else None;
      Rest(w, s[c..], later) == Rest(w, s, found)
  {
    if later.Some? {
      assert s[c..][later.value + |w|..] == s[later.value + c + |w|..];
    }
  }

  /** The first occurrence is found exactly if its first hyphen is not swallowed. */
  lemma FoundIffNotSwallowed(w: string, s: string, k: nat, out: string)
    requires HyphensFirst(w) && First(w, s) == Some(k)
    ensures
      var r := Scan(w, "", s, 0, out);
      (r.Hit? && r.ring == "" && r.file == s[k + |w|..]) <==> !Swallowed(w, s, k)
  {
    hide Scan, Seek, Swallowed, OccursAt, FirstNoticed, First;
    ScanSeeks(w, "", s, 0, out);
    OccursFirst(w, s, k);
    var found := FindsFirstNoticed(w, s);
    FirstOrSwallowed(w, s, k, found);
  }

  lemma FirstOrSwallowed(w: string, s: string, k: nat, found: Option<nat>)
    requires k <= |s| && OccursAt(w, s, k) && forall i: nat | i < k :: !OccursAt(w, s, i)
    requires FirstNoticed(w, s, found)
    ensures found == Some(k) <==> !Swallowed(w, s, k)
  {
    hide OccursAt, Swallowed;
    if !Swallowed(w, s, k) {
      assert Noticed(w, s, k);
    }
  }

  lemma OccursFirst(w: string, s: string, k: nat)
    requires First(w, s) == Some(k)
    ensures OccursAt(w, s, k) && k + |w| <= |s| && forall i: nat | i < k :: !OccursAt(w, s, i)
  {
    assert s[k..][..|w|] <= s[k..];
  }

  /** Where there is no boundary, none is found. */
  lemma NoneFound(w: string, s: string, out: string)
    requires HyphensFirst(w) && First(w, s) == None
    ensures Scan(w, "", s, 0, out) == Missing
  {
    ScanSeeks(w, "", s, 0, out);
    var found := FindsFirstNoticed(w, s);
    if found.Some? {
      FirstComplete(w, s, found.value);
    }
  }

  /** A boundary at the start of a line is never swallowed: there is no line feed in it. */
  lemma LineStartNoticed(w: string, s: string, k: nat)
    requires HyphensFirst(w) && LF !in w && k <= |s| && (k == 0 || s[k - 1] == LF)
    ensures !Swallowed(w, s, k)
  {
    assert forall i | 0 <= i < |w| :: w[i] != LF;
    if EndsBeginning(w, s, k) {
      BeginningEnds(w, s, k);
    }
  }

  /** So a first occurrence at the start of a line is always found. */
  lemma LineStartFound(w: string, s: string, k: nat, out: string)
    requires HyphensFirst(w) && LF !in w && First(w, s) == Some(k) && (k == 0 || s[k - 1] == LF)
    ensures var r := Scan(w, "", s, 0, out); r.Hit? && r.ring == "" && r.file == s[k + |w|..]
  {
    hide *;
    FirstInside(w, s, k);
    LineStartNoticed(w, s, k);
    FoundIffNotSwallowed(w, s, k, out);
  }

  lemma FirstInside(w: string, s: string, k: nat)
    requires First(w, s) == Some(k)
    ensures k + |w| <= |s|
  {}

  lemma BeginningEnds(w: string, s: string, p: nat)
    requires p <= |s| && EndsBeginning(w, s, p)
    ensures 0 < p && s[p - 1] == w[Lead(w) + Trail(s, p) - 1]
  {
    var n, j := Lead(w), Trail(s, p);
    assert s[p - n - j..p][n + j - 1] == w[..n + j][n + j - 1];
  }

  // ---- Any boundary

  /** No two hyphens in a row, and none at the end. */
  predicate NoDoubleHyphen(s: string) {
    First("--", s) == None && (s == "" || s[|s| - 1] != '-')
  }

  /** Every boundary that starts with two hyphens is found after such a preamble. */
  lemma {:induction false} FoundAfterSingleHyphens(w: string, preamble: string, rest: string, out: string)
    requires |w| >= 2 && w[0] == w[1] == '-' && NoDoubleHyphen(preamble)
    ensures Scan(w, "", preamble + (w + rest), 0, out) == Hit(out + preamble, "", rest)
    decreases |preamble|
  {
    var s := preamble + (w + rest);
    if preamble == "" {
      ScanPreamble(w, "", rest, out);
    } else {
      assert s[0] == preamble[0] && s[1..] == preamble[1..] + (w + rest);
      var e := out + [preamble[0]];
      assert e + preamble[1..] == out + preamble;
      FoundAfterSingleHyphens(w, preamble[1..], rest, e);
      if preamble[0] == '-' {
        var d := preamble[1];
        assert s[1] == d && s[1..][1..] == s[2..];
        assert Scan(w, "", s, 0, out) == Scan(w, "", s[1..], 1, out);
        assert "" + w[1..1] + [d] == [d] && out + [w[0]] == e;
        assert Scan(w, "", s[1..], 1, out) == Scan(w, [d], s[2..], 0, e);
        assert [d][1..] == "" && s[1..][0] == d;
        assert Scan(w, [d], s[2..], 0, e) == Scan(w, "", s[2..], 0, e + [d]);
        assert Scan(w, "", s[1..], 0, e) == Scan(w, "", s[2..], 0, e + [d]);
      } else {
        assert Scan(w, "", s, 0, out) == Scan(w, "", s[1..], 0, e);
      }
    }
  }

  lemma {:induction false} MatchesFrom(w: string, m: nat, file: string, b: nat, out: string)
    requires b <= m < |w| && w[b..m] <= file
    ensures Scan(w, "", file, b, out) == Scan(w, "", file[m - b..], m, out)
    decreases m - b
  {
    if b == m {
      assert file[0..] == file;
    } else {
      assert file[0] == w[b..m][0] && w[b + 1..m] == w[b..m][1..];
      assert file[1..][m - b - 1..] == file[m - b..];
      MatchesFrom(w, m, file[1..], b + 1, out);
    }
  }

  /** With the hyphens first it takes a beginning of the boundary right before it. */
  lemma CanBeSwallowed()
    ensures First("--ab", "--a--ab") == Some(3) && Swallowed("--ab", "--a--ab", 3)
    ensures Scan("--ab", "", "--a--ab", 0, "") == Missing
  {
    hide Scan, Swallowed, First, OccursAt, HyphensFirst, Lead;
    LeadOfTwo();
    OnlyAtThree();
    HyphenTaken();
    OnlyOneSwallowed("--ab", "--a--ab", 3, "");
  }

  lemma OnlyOneSwallowed(w: string, s: string, k: nat, out: string)
    requires HyphensFirst(w) && k <= |s| && Swallowed(w, s, k)
    requires forall i: nat | i <= |s| && i != k :: !OccursAt(w, s, i)
    ensures Scan(w, "", s, 0, out) == Missing
  {
    hide Scan, Seek, Swallowed;
    ScanSeeks(w, "", s, 0, out);
    var found := FindsFirstNoticed(w, s);
  }

  lemma OnlyAtThree()
    ensures First("--ab", "--a--ab") == Some(3)
    ensures forall i: nat | i <= 7 && i != 3 :: !OccursAt("--ab", "--a--ab", i)
  {
    var w, s := "--ab", "--a--ab";
    assert w <= s[3..] && s[0..][3] != w[3] && s[1..][1] != w[1] && s[2..][0] != w[0];
    forall i: nat | i <= 7 && i != 3
      ensures !OccursAt(w, s, i)
    {
      assert i > 3 || i == 0 || i == 1 || i == 2;
    }
    FirstUnique(w, s, 3);
  }

  lemma HyphenTaken()
    ensures Swallowed("--ab", "--a--ab", 3)
  {
    var w, s := "--ab", "--a--ab";
    LeadOfTwo();
    TrailIs(s, 3, 1);
    assert s[0..3] == w[..3];
    assert !Swallowed(w, s, 0);
  }

  lemma LeadOfTwo()
    ensures HyphensFirst("--ab") && Lead("--ab") == 2
  {
    assert "--ab"[1..] == "-ab" && "-ab"[1..] == "ab";
  }

  /** With a hyphen further on, a match that fails at that hyphen's neighbour turns into another
      that never was in the text. */
  lemma Overtakes(file: string)
    ensures Scan("--a-b", "", "--a--" + file, 0, "") == Scan("--a-b", "", file, 3, "--")
  {
    var w, s := "--a-b", "--a--" + file;
    assert "--a--" == "--a-" + "-" && s == "--a-" + ("-" + file) && s[4..] == "-" + file && w[0..4] == "--a-";
    hide Scan;
    MatchesFrom(w, 4, s, 0, "");
    assert w[1..4] + ['-'] == "-a--" && "" + [w[0]] == "-" && ['-'] + file == "-" + file;
    GivesBack(w, '-', file, 4, "-a--", "");
    TakesTurns(file);
  }

  /** A failed match on the file. */
  lemma GivesBack(w: string, d: char, file: string, b: nat, back: string, out: string)
    requires 0 < b < |w| && d != w[b] && w[1..b] + [d] == back
    ensures Scan(w, "", [d] + file, b, out) == Scan(w, back, file, 0, out + [w[0]])
  {
    assert ([d] + file)[1..] == file && "" + w[1..b] == w[1..b];
  }

  lemma TakesTurns(file: string)
    ensures Scan("--a-b", "-a--", file, 0, "-") == Scan("--a-b", "", file, 3, "--")
  {
    var w := "--a-b";
    assert "-a--"[1..] == "a--" && "a--"[1..] + w[1..1] + ['a'] == "--a" && "-" + [w[0]] == "--";
    assert Scan(w, "-a--", file, 0, "-") == Scan(w, "a--", file, 1, "-") == Scan(w, "--a", file, 0, "--");
    assert "--a"[1..] == "-a" && "-a"[1..] == "a" && "a"[1..] == "";
    assert Scan(w, "--a", file, 0, "--") == Scan(w, "-a", file, 1, "--") == Scan(w, "a", file, 2, "--");
  }

  /** So a boundary may be found where there is none, and the one right behind goes unread. */
  lemma FoundWhereNoneIs(rest: string)
    ensures First("--a-b", "--a---b") == None
    ensures Scan("--a-b", "", "--a---b" + rest, 0, "") == Hit("--", "", rest)
  {
    hide First;
    NoneThere();
    var w, file := "--a-b", "-b" + rest;
    Overtakes(file);
    assert "--a---b" == "--a--" + "-b" && "--a---b" + rest == "--a--" + file;
    assert w[3..] == "-b" && "-b" <= file && file[2..] == rest;
    ScanPrefix(w, file, 3, "--");
  }

  lemma NoneThere()
    ensures First("--a-b", "--a---b") == None
  {
    var w, t := "--a-b", "--a---b";
    assert t[4] != w[4] && t[1..][2] != w[2] && t[2..][0] != w[0];
    assert |t[1..]| == 6 && |t[2..]| == 5 && |t[3..]| == 4;
    assert t[1..][1..] == t[2..] && t[2..][1..] == t[3..];
  }

  /** And a boundary that is there may be missed. */
  lemma CanBeMissed()
    ensures First("--a-b", "--a--a-b") == Some(3)
    ensures Scan("--a-b", "", "--a--a-b", 0, "") == Missing
  {
    ThereAtThree();
    hide First;
    Overtakes("a-b");
    assert "--a--" + "a-b" == "--a--a-b";
    NeverCompleted();
  }

  lemma ThereAtThree()
    ensures First("--a-b", "--a--a-b") == Some(3)
  {
    var w, s := "--a-b", "--a--a-b";
    assert w <= s[3..] && s[4] != w[4] && s[1..][2] != w[2] && s[2..][0] != w[0];
    FirstUnique(w, s, 3);
  }

  lemma NeverCompleted()
    ensures Scan("--a-b", "", "a-b", 3, "--") == Missing
  {
    var w := "--a-b";
    assert "a" + "-b" == "a-b" && w[1..3] + ['a'] == "-aa" && "--" + [w[0]] == "---";
    GivesBack(w, 'a', "-b", 3, "-aa", "--");
    assert "-aa"[1..] == "aa" && "aa"[1..] == "a" && "a" + w[1..1] + ['a'] == "aa" && "a"[1..] == "";
    assert Scan(w, "-aa", "-b", 0, "---") == Scan(w, "aa", "-b", 1, "---");
    assert Scan(w, "aa", "-b", 1, "---") == Scan(w, "aa", "-b", 0, "----");
    assert Scan(w, "aa", "-b", 0, "----") == Scan(w, "a", "-b", 0, "----a");
    assert Scan(w, "a", "-b", 0, "----a") == Scan(w, "", "-b", 0, "----aa");
    TooShortToFind();
  }

  lemma TooShortToFind()
    ensures Scan("--a-b", "", "-b", 0, "----aa") == Missing
  {
    var w := "--a-b";
    assert "-b"[1..] == "b" && "b"[1..] == "" && "" + w[1..1] + ['b'] == "b";
  }

  /** What is enough to find the first boundary where it was put. */
  predicate Harmless(w: string, preamble: string, input: string) {
    || NoDoubleHyphen(preamble)
    || (HyphensFirst(w) && First(w, input) == Some(|preamble|) && !Swallowed(w, input, |preamble|))
  }

  /** A preamble of whole lines in which the boundary does not occur is harmless. */
  lemma LinesAreHarmless(w: string, preamble: string, rest: string)
    requires HyphensFirst(w) && LF !in w && (preamble == "" || preamble[|preamble| - 1] == LF)
    requires First(w, preamble) == None
    ensures Harmless(w, preamble, preamble + (w + rest))
  {
    hide Swallowed;
    var s := preamble + (w + rest);
    assert s[|preamble|..] == w + rest;
    forall i: nat | i < |preamble|
      ensures !(w <= s[i..])
    {
      NotAcrossLines(w, preamble, rest, i);
    }
    FirstUnique(w, s, |preamble|);
    LineStartNoticed(w, s, |preamble|);
  }

  /** An occurrence that starts in the preamble ends in it, or has a line feed in it. */
  lemma NotAcrossLines(w: string, preamble: string, rest: string, i: nat)
    requires LF !in w && i < |preamble| && preamble[|preamble| - 1] == LF && First(w, preamble) == None
    ensures !(w <= (preamble + (w + rest))[i..])
  {
    var s := preamble + (w + rest);
    if i + |w| <= |preamble| {
      assert s[i..][..|w|] == preamble[i..][..|w|];
      if w <= preamble[i..] {
        FirstComplete(w, preamble, i);
      }
    } else {
      assert s[i..][|preamble| - 1 - i] == LF;
    }
  }
}
