/** `afterNextBoundary` of web/cgic/cgic.c: an online search for a boundary that gives back a
    false match through the ring.
 */
module Boundary {
  import opened Text
  import opened Streams

  /** What a search leaves: the bytes it emitted, and the stream as ring and file. */
  datatype Outcome = Missing | Hit(out: string, ring: string, file: string)

  /** The search loop as a machine. `b` characters of the boundary `w` are matched. */
  function Scan(w: string, ring: string, file: string, b: nat, out: string): (r: Outcome)
    requires b < |w|
    decreases |ring| + |file| + b, |w| - b
  {
    if ring + file == [] then Missing
    else
      var d := Next(ring, file);
      var (ring', file') := Drop(ring, file);
      if d == w[b] then
        if b + 1 == |w| then Hit(out, ring', file') else Scan(w, ring', file', b + 1, out)
      else if b > 0 then
        Scan(w, ring' + w[1..b] + [d], file', 0, out + [w[0]])
      else
        Scan(w, ring', file', 0, out + [d])
  }

  /** What is given back is shorter than the boundary, so the last character of a match comes from
      the file: a search that starts with an empty ring ends with one. */
  lemma {:induction false} RingEmptyAtHit(w: string, ring: string, file: string, b: nat, out: string)
    requires b < |w| && (ring == "" || |ring| + b < |w|)
    ensures var r := Scan(w, ring, file, b, out); r.Hit? ==> r.ring == ""
    decreases |ring| + |file| + b, |w| - b
  {
    if ring + file != [] {
      var d := Next(ring, file);
      var (ring', file') := Drop(ring, file);
      if d == w[b] {
        if b + 1 < |w| {
          RingEmptyAtHit(w, ring', file', b + 1, out);
        }
      } else if b > 0 {
        RingEmptyAtHit(w, ring' + w[1..b] + [d], file', 0, out + [w[0]]);
      } else {
        RingEmptyAtHit(w, ring', file', 0, out + [d]);
      }
    }
  }

  /** How often each character occurs in what was emitted, is matched, and is still there. */
  ghost function Tally(out: string, matched: string, ring: string, file: string): multiset<char> {
    multiset(out) + multiset(matched) + multiset(ring) + multiset(file)
  }

  predicate Suffix(s: string, t: string) {
    |s| <= |t| && s == t[|t| - |s|..]
  }

  /** No search loses or invents a byte, in whatever order it emits them: what was there is what
      was emitted, the boundary, and what is left, which is the file from some point on. */
  lemma {:induction false} ScanConserves(w: string, ring: string, file: string, b: nat, out: string)
    requires b < |w|
    ensures
      var r := Scan(w, ring, file, b, out);
      r.Hit? ==>
        && Tally(r.out, w, r.ring, r.file) == Tally(out, w[..b], ring, file)
        && |r.out| + |w| + |r.ring| + |r.file| == |out| + b + |ring| + |file|
        && Suffix(r.file, file)
    decreases |ring| + |file| + b, |w| - b
  {
    hide Tally, Suffix;
    if ring + file != [] {
      var d := Next(ring, file);
      var (ring', file') := Drop(ring, file);
      TallyRead(w, b, ring, file, out);
      if d == w[b] {
        if b + 1 < |w| {
          ScanConserves(w, ring', file', b + 1, out);
        }
      } else if b > 0 {
        ScanConserves(w, ring' + w[1..b] + [d], file', 0, out + [w[0]]);
      } else {
        ScanConserves(w, ring', file', 0, out + [d]);
      }
      var r := Scan(w, ring, file, b, out);
      if r.Hit? {
        SuffixOf(r.file, file', file);
      }
    }
  }

  /** What one round does to it. */
  lemma TallyRead(w: string, b: nat, ring: string, file: string, out: string)
    requires b < |w| && ring + file != []
    ensures
      var d := Next(ring, file);
      var (ring', file') := Drop(ring, file);
      var t := Tally(out, w[..b], ring, file);
      && (d == w[b] ==> Tally(out, w[..b + 1], ring', file') == t)
      && (b > 0 ==> Tally(out + [w[0]], "", ring' + w[1..b] + [d], file') == t)
      && (b == 0 ==> Tally(out + [d], "", ring', file') == t)
      && w[..0] == "" && w[..|w|] == w && Suffix(file', file)
  {
    hide *;
    var d := Next(ring, file);
    var (ring', file') := Drop(ring, file);
    BothEnds(w, b);
    TallyTaken(out, w[..b], ring, file);
    TallyMoved(out, w[..b], d, ring', file');
    if b > 0 {
      TallyBack(out, w[0], w[1..b], d, ring', file');
    }
  }

  lemma BothEnds(w: string, b: nat)
    requires b < |w|
    ensures w[..b + 1] == w[..b] + [w[b]] && (b > 0 ==> w[..b] == [w[0]] + w[1..b])
    ensures w[..0] == "" && w[..|w|] == w
  {}

  /** With `d` counted apart. */
  ghost function TallyWith(d: char, out: string, matched: string, ring: string, file: string): multiset<char> {
    multiset([d]) + Tally(out, matched, ring, file)
  }

  lemma TallyTaken(out: string, matched: string, ring: string, file: string)
    requires ring + file != []
    ensures
      var (ring', file') := Drop(ring, file);
      Tally(out, matched, ring, file) == TallyWith(Next(ring, file), out, matched, ring', file') && Suffix(file', file)
  {
    if ring != [] {
      assert ring == [ring[0]] + ring[1..];
    } else {
      assert file == [file[0]] + file[1..];
    }
  }

  lemma TallyMoved(out: string, matched: string, d: char, ring: string, file: string)
    ensures TallyWith(d, out, matched, ring, file) == Tally(out, matched + [d], ring, file)
    ensures TallyWith(d, out, matched, ring, file) == Tally(out + [d], matched, ring, file)
  {}

  lemma TallyBack(out: string, c: char, matched: string, d: char, ring: string, file: string)
    ensures TallyWith(d, out, [c] + matched, ring, file) == Tally(out + [c], "", ring + matched + [d], file)
  {}

  lemma SuffixOf(r: string, s: string, t: string)
    requires Suffix(s, t)
    ensures Suffix(r, s) ==> Suffix(r, t)
  {}

  /** The two bytes after the boundary are consumed, but given back when they start with `-`. */
  function Finish(s: Outcome): (r: Outcome) {
    if s.Missing? || |s.ring| + |s.file| < 2 then Missing
    else
      var c := Next(s.ring, s.file);
      var (ring, file) := Drop(s.ring, s.file);
      var d := Next(ring, file);
      var (ring', file') := Drop(ring, file);
      Hit(s.out, if c == '-' then ring' + [c, d] else ring', file')
  }

  /** The first character of the boundary does not recur in it. True of `"\r\n--" + B` because
      `B` was cut at white space; false of the `"--" + B` used for the first boundary. */
  predicate Marked(w: string) {
    |w| >= 2 && forall i | 0 < i < |w| :: w[i] != w[0]
  }

  /** The ring never holds anything that a give-back could overtake. */
  ghost predicate Orderly(w: string, ring: string, b: nat)
    requires w != []
  {
    || ((b > 0 ==> ring == []) && forall i | 0 <= i < |ring| - 1 :: ring[i] != w[0])
    || (b == 0 && |ring| <= 2)
    || (b == 1 && |ring| <= 1)
  }

  /** The answer a search of `s` ought to give, when `out` was emitted before it. */
  function Ideal(w: string, s: string, out: string): Outcome {
    match First(w, s)
    case None => Missing
    case Some(k) => Hit(out + s[..k], [], s[k + |w|..])
  }

  /** The search emits exactly what precedes the first occurrence of the boundary, and fails
      only when there is none. */
  lemma {:induction false} ScanFindsFirst(w: string, ring: string, file: string, b: nat, out: string)
    requires Marked(w) && b < |w| && Orderly(w, ring, b)
    ensures Scan(w, ring, file, b, out) == Ideal(w, w[..b] + ring + file, out)
    decreases |ring| + |file| + b, |w| - b
  {
    hide Ideal, Orderly, Marked;
    var s := w[..b] + ring + file;
    if ring + file == [] {
      assert s == w[..b];
      TooShort(w, s, out);
    } else {
      var d := Next(ring, file);
      var (ring', file') := Drop(ring, file);
      Unread(w[..b], ring, file);
      OrderlyNext(w, ring, file, b);
      if d == w[b] {
        assert w[..b + 1] == w[..b] + [d];
        if b + 1 == |w| {
          assert w[..b + 1] == w;
          Landed(w, ring', file', out);
        } else {
          ScanFindsFirst(w, ring', file', b + 1, out);
        }
      } else {
        var ring'' := if b > 0 then ring' + w[1..b] + [d] else ring';
        var e := if b > 0 then w[0] else d;
        ScanFindsFirst(w, ring'', file', 0, out + [e]);
        GiveBack(w, b, d, ring', file');
        Mismatch(w, b, d, ring', file');
        Emitted(w, s, out);
      }
    }
  }

  lemma TooShort(w: string, s: string, out: string)
    requires |s| < |w|
    ensures Ideal(w, s, out) == Missing
  {}

  /** The rest of the ring stays harmless, and is gone when something is given back. */
  lemma OrderlyNext(w: string, ring: string, file: string, b: nat)
    requires Marked(w) && b < |w| && Orderly(w, ring, b) && ring + file != []
    ensures
      var d := Next(ring, file);
      var (ring', file') := Drop(ring, file);
      && (d == w[b] ==> if b + 1 < |w| then Orderly(w, ring', b + 1) else ring' == [])
      && (d != w[b] ==> Orderly(w, if b > 0 then ring' + w[1..b] + [d] else ring', 0))
      && (d != w[b] && b > 0 ==> ring' == [])
  {}

  lemma Mismatch(w: string, b: nat, d: char, ring: string, file: string)
    requires b < |w| && d != w[b]
    ensures
      var s := w[..b] + [d] + ring + file;
      s != [] && !(w <= s) && s[0] == if b > 0 then w[0] else d
  {
    assert (w[..b] + [d] + ring + file)[b] == d;
  }

  lemma Unread(p: string, ring: string, file: string)
    requires ring + file != []
    ensures
      var (ring', file') := Drop(ring, file);
      p + ring + file == p + [Next(ring, file)] + ring' + file'
  {}

  lemma Landed(w: string, ring: string, file: string, out: string)
    requires ring == [] && w != []
    ensures Ideal(w, w + ring + file, out) == Hit(out, ring, file)
  {
    assert w <= w + ring + file;
    assert out + (w + ring + file)[..0] == out;
  }

  lemma GiveBack(w: string, b: nat, d: char, ring: string, file: string)
    requires b < |w| && (b > 0 ==> ring == [])
    ensures
      var ring'' := if b > 0 then ring + w[1..b] + [d] else ring;
      w[..0] + ring'' + file == (w[..b] + [d] + ring + file)[1..]
  {}

  lemma Emitted(w: string, s: string, out: string)
    requires s != [] && w != [] && !(w <= s)
    ensures Ideal(w, s, out) == Ideal(w, s[1..], out + [s[0]])
  {
    if First(w, s[1..]).Some? {
      var k := First(w, s[1..]).value;
      assert (out + [s[0]]) + s[1..][..k] == out + s[..k + 1];
    }
  }

  const MAX_BOUNDARY: nat := 1013

  /** `sizeof(cgiContentTypeData)` leaves at most this much for the boundary parameter. */
  function Delimiter(boundary: string, first: bool): (w: string)
    ensures |w| == |boundary| + if first then 2 else 4
    ensures first ==> w == "--" + boundary
    ensures !first ==> w == "\r\n--" + boundary
  {
    if first then "--" + boundary else "\r\n--" + boundary
  }

  /** `afterNextBoundary`. `store` is false when the caller wants neither a file nor a buffer. */
  method AfterNextBoundary(mpp: MpStream, boundary: string, store: bool, first: bool)
    returns (ok: bool, body: string)
    requires mpp.Valid() && |boundary| <= MAX_BOUNDARY && |mpp.Ring()| <= RING_LIMIT
    modifies mpp, mpp.putback
    ensures mpp.Valid() && |mpp.Ring()| <= RING_LIMIT
    ensures
      var r := Finish(Scan(Delimiter(boundary, first), old(mpp.Ring()), old(mpp.File()), 0, ""));
      if r.Hit? then
        ok && body == (if store then r.out else "") && mpp.Ring() == r.ring && mpp.File() == r.file
      else
        !ok && body == "" && mpp.Rest() == []
  {
    var w := Delimiter(boundary, first);
    ok, body := Search(mpp, w, store);
    if !ok {
      return;
    }
    var got, c, d := mpp.ReadPair();
    if !got {
      return false, "";
    }
    if c == CR && d == LF {
      // the end of the boundary's line
    } else if c == '-' {
      mpp.PutBack([c, d]);
    }
  }

  /** One round. */
  lemma ScanStep(w: string, ring: string, file: string, b: nat, out: string)
    requires b < |w|
    ensures
      var r := Scan(w, ring, file, b, out);
      if ring + file == [] then r == Missing
      else
        var d := Next(ring, file);
        var (ring', file') := Drop(ring, file);
        r == if d == w[b] then if b + 1 == |w| then Hit(out, ring', file') else Scan(w, ring', file', b + 1, out)
             else if b > 0 then Scan(w, ring' + w[1..b] + [d], file', 0, out + [w[0]])
             else Scan(w, ring', file', 0, out + [d])
  {}

  /** Its first loop. */
  method Search(mpp: MpStream, w: string, store: bool) returns (ok: bool, body: string)
    requires mpp.Valid() && 0 < |w| <= RING_LIMIT && |mpp.Ring()| <= RING_LIMIT
    modifies mpp, mpp.putback
    ensures mpp.Valid() && |mpp.Ring()| <= RING_LIMIT
    ensures
      var r := Scan(w, old(mpp.Ring()), old(mpp.File()), 0, "");
      if r.Hit? then
        ok && body == (if store then r.out else "") && mpp.Ring() == r.ring && mpp.File() == r.file
      else
        !ok && body == "" && mpp.Rest() == []
  {
    hide Scan;
    var b := 0;
    body := "";
    ghost var out := "";
    ghost var result := Scan(w, mpp.Ring(), mpp.File(), 0, "");
    while true
      invariant mpp.Valid() && b < |w|
      invariant mpp.Ring() != [] ==> |mpp.Ring()| + b <= RING_LIMIT
      invariant body == if store then out else ""
      invariant result == Scan(w, mpp.Ring(), mpp.File(), b, out)
      decreases |mpp.Ring()| + |mpp.File()| + b, |w| - b
    {
      ScanStep(w, mpp.Ring(), mpp.File(), b, out);
      var got, d := mpp.ReadChar();
      if !got {
        return false, "";
      }
      if d == w[b] {
        b := b + 1;
        if b == |w| {
          return true, body;
        }
      } else if b > 0 {
        out := out + [w[0]];
        body := if store then body + [w[0]] else body;
        mpp.PutBack(w[1..b]);
        mpp.PutBack([d]);
        b := 0;
      } else {
        out := out + [d];
        body := if store then body + [d] else body;
      }
    }
  }

  /** What remains after the boundary `w` that ends a body, or nothing. */
  function Body(s: string, w: string): (r: Option<(string, string)>)
    ensures r.Some? ==> |r.value.1| <= |s|
  {
    match First(w, s)
    case None => None
    case Some(k) =>
      var after := s[k + |w|..];
      if |after| < 2 then None
      else Some((s[..k], Onward(after)))
  }

  /** Past the line end of a boundary, but not past the `--` of the last one. */
  function Onward(after: string): string
    requires |after| >= 2
  {
    if after[0] == '-' then after else after[2..]
  }

  /** With an orderly ring the whole call is the first-occurrence search on the plain stream. */
  lemma BoundaryIsFirst(w: string, ring: string, file: string)
    requires Marked(w) && |ring| <= 2
    ensures
      var r := Finish(Scan(w, ring, file, 0, ""));
      match Body(ring + file, w)
      case None => r == Missing
      case Some((body, next)) => r.Hit? && r.out == body && |r.ring| <= 2 && r.ring + r.file == next
  {
    hide First, Finish, Scan, Onward;
    ScanFindsFirst(w, ring, file, 0, "");
    var s := ring + file;
    assert w[..0] + ring + file == s;
    if First(w, s).Some? {
      var k := First(w, s).value;
      assert "" + s[..k] == s[..k];
      FinishPlain(s[..k], s[k + |w|..]);
    } else {
      FinishMissing();
    }
  }

  lemma FinishMissing()
    ensures Finish(Missing) == Missing
  {}

  lemma FinishPlain(out: string, after: string)
    ensures
      var r := Finish(Hit(out, "", after));
      if |after| < 2 then r == Missing
      else
        && r.Hit? && r.out == out && |r.ring| <= 2
        && r.ring + r.file == Onward(after)
  {
    if |after| >= 2 {
      assert "" + after == after && after[1..][1..] == after[2..];
      assert "" + [after[0], after[1]] + after[2..] == after;
      assert "" + after[2..] == after[2..];
    }
  }

  /** A boundary that starts the stream is always found there, `first` or not. */
  lemma {:induction false} ScanPrefix(w: string, file: string, b: nat, out: string)
    requires b < |w| && w[b..] <= file
    ensures Scan(w, "", file, b, out) == Hit(out, "", file[|w| - b..])
    decreases |w| - b
  {
    assert file[0] == w[b] && "" + file == file;
    if b + 1 < |w| {
      assert w[b + 1..] <= file[1..];
      ScanPrefix(w, file[1..], b + 1, out);
    }
  }

  /** So is one after a preamble without the character that starts the boundary. */
  lemma {:induction false} ScanPreamble(w: string, preamble: string, rest: string, out: string)
    requires w != [] && w[0] !in preamble
    ensures Scan(w, "", preamble + (w + rest), 0, out) == Hit(out + preamble, "", rest)
    decreases |preamble|
  {
    var s := preamble + (w + rest);
    if preamble == "" {
      assert s == w + rest && out + "" == out && w[0..] == w;
      ScanPrefix(w, s, 0, out);
    } else {
      assert "" + s == s && s[0] == preamble[0] && s[1..] == preamble[1..] + (w + rest);
      assert (out + [preamble[0]]) + preamble[1..] == out + preamble;
      ScanPreamble(w, preamble[1..], rest, out + [preamble[0]]);
    }
  }
}
