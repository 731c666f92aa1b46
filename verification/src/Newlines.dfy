/** Reading a form field as text (web/cgic/cgic.c): bursts of carriage returns and line feeds, in
    whatever order, become as many line feeds as the larger number of the two.
 */
module Newlines {
  import opened Text

  datatype FormResult = Success | Truncated | Empty

  predicate IsNewline(c: char) {
    c == CR || c == LF
  }

  function Feeds(n: nat): (s: string)
    ensures |s| == n && forall i | 0 <= i < n :: s[i] == LF
  {
    seq(n, _ => LF)
  }

  /** The line feeds that a burst is worth. */
  function Burst(cr: nat, lf: nat, newlines: bool): (n: nat) {
    if newlines then Max(cr, lf) else 0
  }

  /** The text with its newlines made uniform; `cr` and `lf` count the burst just before it. */
  function Normal(s: string, cr: nat, lf: nat, newlines: bool): string {
    if s == "" then Feeds(Burst(cr, lf, newlines))
    else if s[0] == CR then Normal(s[1..], cr + 1, lf, newlines)
    else if s[0] == LF then Normal(s[1..], cr, lf + 1, newlines)
    else Feeds(Burst(cr, lf, newlines)) + [s[0]] + Normal(s[1..], 0, 0, newlines)
  }

  function Uniform(s: string, newlines: bool): string {
    Normal(s, 0, 0, newlines)
  }

  // ---- What that means

  function Count(s: string, c: char): nat {
    if s == "" then 0 else (if s[0] == c then 1 else 0) + Count(s[1..], c)
  }

  predicate AllNewlines(s: string) {
    forall i | 0 <= i < |s| :: IsNewline(s[i])
  }

  /** A burst of so many carriage returns and line feeds is worth the larger number of the two. */
  predicate Worth(n: nat, cr: nat, lf: nat, newlines: bool) {
    if newlines then cr <= n && lf <= n && (n == cr || n == lf) else n == 0
  }

  /** A whole burst becomes that many line feeds. */
  lemma {:induction false} BurstBecomes(burst: string, rest: string, cr: nat, lf: nat, newlines: bool, n: nat)
    requires AllNewlines(burst) && (rest == "" || !IsNewline(rest[0]))
    requires Worth(n, cr + Count(burst, CR), lf + Count(burst, LF), newlines)
    ensures Normal(burst + rest, cr, lf, newlines) == Feeds(n) + Uniform(rest, newlines)
  {
    if burst == "" {
      assert burst + rest == rest;
      RestBecomes(rest, cr, lf, newlines, n);
    } else {
      assert (burst + rest)[1..] == burst[1..] + rest;
      var cr', lf' := if burst[0] == CR then cr + 1 else cr, if burst[0] == LF then lf + 1 else lf;
      BurstBecomes(burst[1..], rest, cr', lf', newlines, n);
    }
  }

  lemma RestBecomes(rest: string, cr: nat, lf: nat, newlines: bool, n: nat)
    requires (rest == "" || !IsNewline(rest[0])) && Worth(n, cr, lf, newlines)
    ensures Normal(rest, cr, lf, newlines) == Feeds(n) + Uniform(rest, newlines)
  {
    if rest != "" {
      var more := Normal(rest[1..], 0, 0, newlines);
      assert Feeds(n) + (Feeds(0) + [rest[0]] + more) == Feeds(n) + [rest[0]] + more;
    }
  }

  function Visible(s: string): (r: string)
    ensures forall i | 0 <= i < |r| :: !IsNewline(r[i])
  {
    if s == "" then "" else (if IsNewline(s[0]) then "" else [s[0]]) + Visible(s[1..])
  }

  lemma {:induction false} VisibleAppend(s: string, t: string)
    ensures Visible(s + t) == Visible(s) + Visible(t)
  {
    if s == "" {
      assert s + t == t;
    } else {
      assert (s + t)[1..] == s[1..] + t;
      VisibleAppend(s[1..], t);
    }
  }

  lemma {:induction false} FeedsInvisible(n: nat)
    ensures Visible(Feeds(n)) == ""
  {
    if n > 0 {
      assert Feeds(n)[1..] == Feeds(n - 1);
      FeedsInvisible(n - 1);
    }
  }

  /** Nothing but newlines changes, no carriage return is left, and nothing gets longer. */
  lemma {:induction false} NormalKeeps(s: string, cr: nat, lf: nat, newlines: bool)
    ensures Visible(Normal(s, cr, lf, newlines)) == Visible(s)
    ensures |Normal(s, cr, lf, newlines)| <= cr + lf + |s|
    ensures CR !in Normal(s, cr, lf, newlines)
    ensures NUL !in s ==> NUL !in Normal(s, cr, lf, newlines)
    ensures !newlines ==> LF !in Normal(s, cr, lf, newlines)
  {
    hide *;
    if s == "" {
      NormalEnd(cr, lf, newlines);
    } else if s[0] == CR {
      NormalNewline(s, cr, lf, newlines);
      NormalKeeps(s[1..], cr + 1, lf, newlines);
    } else if s[0] == LF {
      NormalNewline(s, cr, lf, newlines);
      NormalKeeps(s[1..], cr, lf + 1, newlines);
    } else {
      NormalKeeps(s[1..], 0, 0, newlines);
      NormalOther(s, cr, lf, newlines);
    }
  }

  lemma NormalEnd(cr: nat, lf: nat, newlines: bool)
    ensures
      var r := Normal("", cr, lf, newlines);
      Visible(r) == Visible("") && |r| <= cr + lf && CR !in r && NUL !in r && (!newlines ==> LF !in r)
  {
    FeedsInvisible(Burst(cr, lf, newlines));
  }

  lemma NormalNewline(s: string, cr: nat, lf: nat, newlines: bool)
    requires s != "" && IsNewline(s[0])
    ensures Visible(s) == Visible(s[1..]) && (NUL !in s ==> NUL !in s[1..])
    ensures s[0] == CR ==> Normal(s, cr, lf, newlines) == Normal(s[1..], cr + 1, lf, newlines)
    ensures s[0] == LF ==> Normal(s, cr, lf, newlines) == Normal(s[1..], cr, lf + 1, newlines)
    ensures s[0] == CR || s[0] == LF
  {}

  /** A character other than a newline, after the line feeds of the burst before it. */
  lemma NormalOther(s: string, cr: nat, lf: nat, newlines: bool)
    requires s != "" && s[0] != CR && s[0] != LF
    ensures
      var r, rest := Normal(s, cr, lf, newlines), Normal(s[1..], 0, 0, newlines);
      && (Visible(rest) == Visible(s[1..]) ==> Visible(r) == Visible(s))
      && |r| <= cr + lf + 1 + |rest| && (CR !in rest ==> CR !in r) && (NUL !in s ==> NUL !in s[1..])
      && (NUL !in rest && NUL !in s ==> NUL !in r) && (!newlines && LF !in rest ==> LF !in r)
  {
    var feeds, rest := Feeds(Burst(cr, lf, newlines)), Normal(s[1..], 0, 0, newlines);
    assert Normal(s, cr, lf, newlines) == feeds + [s[0]] + rest;
    hide Normal;
    FeedsInvisible(|feeds|);
    VisibleAppend(feeds, [s[0]]);
    VisibleAppend(feeds + [s[0]], rest);
    VisibleOne(s);
  }

  lemma VisibleOne(s: string)
    requires s != "" && !IsNewline(s[0])
    ensures Visible([s[0]]) == [s[0]] && Visible(s) == [s[0]] + Visible(s[1..])
  {
    assert [s[0]][1..] == "";
  }

  /** Text without carriage returns is left alone, if newlines are wanted. */
  lemma {:induction false} UniformIsFixed(s: string, lf: nat)
    requires CR !in s
    ensures Normal(s, 0, lf, true) == Feeds(lf) + s
  {
    if s == "" {
    } else if s[0] == LF {
      UniformIsFixed(s[1..], lf + 1);
      hide Feeds;
      FeedsThenFeed(lf, s);
    } else {
      UniformIsFixed(s[1..], 0);
      hide Feeds;
      FeedsThenPlain(lf, s);
    }
  }

  lemma FeedsThenFeed(lf: nat, s: string)
    requires s != "" && s[0] == LF
    ensures Feeds(lf + 1) + s[1..] == Feeds(lf) + s
  {}

  lemma FeedsThenPlain(lf: nat, s: string)
    requires s != ""
    ensures Feeds(lf) + [s[0]] + (Feeds(0) + s[1..]) == Feeds(lf) + s
  {
    assert Feeds(0) + s[1..] == s[1..];
  }

  lemma {:induction false} VisibleIsFixed(s: string)
    requires forall i | 0 <= i < |s| :: !IsNewline(s[i])
    ensures Uniform(s, false) == s
  {
    if s != "" {
      VisibleIsFixed(s[1..]);
      assert s == Feeds(0) + [s[0]] + s[1..];
    }
  }

  /** Doing it twice is doing it once. */
  lemma Idempotent(s: string, newlines: bool)
    ensures Uniform(Uniform(s, newlines), newlines) == Uniform(s, newlines)
  {
    var t := Uniform(s, newlines);
    NormalKeeps(s, 0, 0, newlines);
    if newlines {
      UniformIsFixed(t, 0);
      assert Feeds(0) + t == t;
    } else {
      VisibleIsFixed(t);
    }
  }

  // ---- The program

  /** The loop that adds line feeds while there is room. */
  method AddFeeds(result: array<char>, len0: nat, avail: nat, lfsAdd0: nat) returns (len: nat, truncated: bool)
    requires len0 <= avail < result.Length
    modifies result
    ensures len == Min(len0 + lfsAdd0, avail) && truncated == (len0 + lfsAdd0 > avail)
    ensures result[..len] == old(result[..len0]) + Feeds(len - len0)
    ensures forall i | avail < i < result.Length :: result[i] == old(result[i])
  {
    var lfsAdd := lfsAdd0;
    len, truncated := len0, false;
    while lfsAdd > 0
      invariant lfsAdd >= 0 && len + lfsAdd == len0 + lfsAdd0 && len0 <= len <= avail
      invariant forall i | 0 <= i < len :: result[i] == if i < len0 then old(result[i]) else LF
      invariant forall i | avail < i < result.Length :: result[i] == old(result[i])
    {
      if len >= avail {
        truncated := true;
        break;
      }
      result[len] := LF;
      len, lfsAdd := len + 1, lfsAdd - 1;
    }
  }

  /** `out` has been written, of what `s` will give. */
  ghost predicate Emitted(t: string, out: string, s: string, cr: nat, lf: nat, newlines: bool) {
    t == out + Normal(s, cr, lf, newlines)
  }

  lemma EmittedBurst(t: string, out: string, s: string, cr: nat, lf: nat, newlines: bool)
    requires Emitted(t, out, s, cr, lf, newlines) && (s == "" || !IsNewline(s[0]))
    ensures out + Feeds(Burst(cr, lf, newlines)) <= t
    ensures s == "" ==> t == out + Feeds(Burst(cr, lf, newlines))
    ensures s != "" ==>
      var more := out + Feeds(Burst(cr, lf, newlines)) + [s[0]];
      more <= t && Emitted(t, more, s[1..], 0, 0, newlines)
  {
    if s != "" {
      var feeds, rest := Feeds(Burst(cr, lf, newlines)), Normal(s[1..], 0, 0, newlines);
      assert Normal(s, cr, lf, newlines) == feeds + [s[0]] + rest;
      hide Normal;
      assert out + (feeds + [s[0]] + rest) == out + feeds + [s[0]] + rest;
    }
  }

  lemma EmittedNewline(t: string, out: string, s: string, cr: nat, lf: nat, newlines: bool)
    requires Emitted(t, out, s, cr, lf, newlines) && s != "" && IsNewline(s[0])
    ensures Emitted(t, out, s[1..], if s[0] == CR then cr + 1 else cr, if s[0] == LF then lf + 1 else lf, newlines)
  {}

  /** `cgiFormEntryString` on an entry with this value; `max` is the size of the buffer. */
  method FormEntryString(value: string, result: array<char>, max: nat, newlines: bool) returns (r: FormResult)
    requires NUL !in value && 1 <= max <= result.Length
    modifies result
    ensures
      var t := Uniform(value, newlines);
      var n := Min(|t|, max - 1);
      && result[..n] == t[..n] && result[n] == NUL
      && r == if |t| > max - 1 then Truncated else if t == "" then Empty else Success
    ensures forall i | max <= i < result.Length :: result[i] == old(result[i])
  {
    hide Normal, Emitted, Uniform;
    var len: nat, crCount: nat, lfCount: nat, sp: nat := 0, 0, 0, 0;
    var truncated, avail, more := false, max - 1, true;
    ghost var t := Uniform(value, newlines);
    NothingEmitted(value, newlines);
    assert value[0..] == value && result[..0] == "";
    while more
      invariant sp <= |value| && len <= avail
      invariant if more then !truncated && Emitted(t, result[..len], value[sp..], crCount, lfCount, newlines)
                else result[..len] <= t && (if truncated then len == avail < |t| else len == |t|)
      invariant forall i | max <= i < result.Length :: result[i] == old(result[i])
      decreases more, |value| - sp
    {
      ghost var s := value[sp..];
      var ch := if sp < |value| then value[sp] else NUL;
      assert sp < |value| ==> s[1..] == value[sp + 1..];
      if ch == CR || ch == LF {
        EmittedNewline(t, result[..len], s, crCount, lfCount, newlines);
        if ch == CR {
          crCount := crCount + 1;
        } else {
          lfCount := lfCount + 1;
        }
      } else {
        more, len, truncated := EmitOther(result, len, avail, ch, crCount, lfCount, newlines, t, s);
        crCount, lfCount := 0, 0;
      }
      if more {
        sp := sp + 1;
      }
    }
    result[len] := NUL;
    r := if truncated then Truncated else if len == 0 then Empty else Success;
  }

  lemma NothingEmitted(value: string, newlines: bool)
    ensures Emitted(Uniform(value, newlines), "", value, 0, 0, newlines)
  {
    hide Normal;
    assert "" + Normal(value, 0, 0, newlines) == Normal(value, 0, 0, newlines);
  }

  /** What the loop does at the end of a burst, or of the value. */
  method EmitOther(result: array<char>, len0: nat, avail: nat, ch: char, cr: nat, lf: nat, newlines: bool,
                   ghost t: string, ghost s: string)
    returns (more: bool, len: nat, truncated: bool)
    requires len0 <= avail < result.Length && Emitted(t, result[..len0], s, cr, lf, newlines)
    requires (if s == "" then ch == NUL else ch == s[0] != NUL) && !IsNewline(ch)
    modifies result
    ensures len <= avail && forall i | avail < i < result.Length :: result[i] == old(result[i])
    ensures
      if more then s != "" && !truncated && Emitted(t, result[..len], s[1..], 0, 0, newlines)
      else result[..len] <= t && (if truncated then len == avail < |t| else len == |t|)
  {
    hide Emitted, Feeds;
    EmittedBurst(t, result[..len0], s, cr, lf, newlines);
    var lfsAdd := if newlines then Max(cr, lf) else 0;
    ghost var whole := result[..len0] + Feeds(Burst(cr, lf, newlines));
    len, truncated := AddFeeds(result, len0, avail, lfsAdd);
    FeedsStart(old(result[..len0]), len - len0, lfsAdd);
    if ch == NUL {
      return false, len, truncated;
    }
    if len >= avail {
      return false, len, true;
    }
    assert result[..len] == whole;
    result[len] := ch;
    len := len + 1;
    assert result[..len] == whole + [ch];
    more := true;
  }

  lemma FeedsStart(out: string, m: nat, n: nat)
    requires m <= n
    ensures out + Feeds(m) <= out + Feeds(n) && |out + Feeds(n)| == |out| + n
  {
    assert Feeds(n)[..m] == Feeds(m);
  }

  /** `cgiFormStringSpaceNeeded`. */
  function SpaceNeeded(value: string): (n: nat) {
    |value| + 1
  }

  /** A buffer of that size is always large enough, and no larger than a text may need. */
  lemma SpaceSuffices(value: string, newlines: bool)
    ensures |Uniform(value, newlines)| <= SpaceNeeded(value) - 1
    ensures CR !in value && newlines ==> |Uniform(value, newlines)| == SpaceNeeded(value) - 1
  {
    NormalKeeps(value, 0, 0, newlines);
    if CR !in value {
      UniformIsFixed(value, 0);
      assert Feeds(0) + value == value;
    }
  }
}
