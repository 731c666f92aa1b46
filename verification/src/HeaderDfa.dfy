/** The state machine of `read_header` (boa-0.94.13/src/read.c) as a function of the client's
    bytes alone, and what it finds: the lines of the header and where the header ends.
 */
module HeaderDfa {
  import opened Text

  datatype State = ReadHeader | OneCr | OneLf | TwoCr | BodyRead

  /** What becomes of the request line: refused, answered at once (no HTTP version), or
      followed by header lines. */
  datatype Verdict = Refuse | Simple | Full

  /** `process_logline`, and the part of `process_option_line` that may fail after the colon has
      been found; it may depend on the lines before. */
  datatype Handlers = Handlers(logLine: string -> Verdict, option: (seq<string>, string) -> bool)

  datatype Result = Going | Refused | SimpleEnd | Ended

  /** The fields of the request that the loop works on. */
  datatype Dfa = Dfa(
    state: State,
    pos: nat,              // parse_pos
    lineStart: nat,        // header_line
    headerEnd: nat,        // header_end
    lines: seq<string>,    // the texts handed to the line handlers
    result: Result)

  const START: Dfa := Dfa(ReadHeader, 0, 0, 0, [], Going)

  function Transition(s: State, c: char): State {
    match s
    case ReadHeader => if c == CR then OneCr else if c == LF then OneLf else ReadHeader
    case OneCr => if c == LF then OneLf else if c == CR then OneCr else ReadHeader
    case OneLf => if c == CR then TwoCr else if c == LF then BodyRead else ReadHeader
    case TwoCr => if c == LF then BodyRead else if c == CR then TwoCr else ReadHeader
    case BodyRead => BodyRead
  }

  /** A line handler's answer to a line, after the lines before it. */
  function Judge(h: Handlers, before: seq<string>, line: string): (r: Result)
    ensures r != Ended
  {
    if before == [] then
      match h.logLine(line)
      case Refuse => Refused
      case Simple => SimpleEnd
      case Full => Going
    else if ':' in CString(line) && h.option(before, line) then Going
    else Refused
  }

  /** The first line gets the verdict of its handler; a later one has to have a colon before any
      NUL, and to be accepted. */
  lemma JudgedByText(h: Handlers, before: seq<string>, line: string)
    ensures before == [] ==>
      && (Judge(h, before, line) == Refused <==> h.logLine(line) == Refuse)
      && (Judge(h, before, line) == SimpleEnd <==> h.logLine(line) == Simple)
    ensures before != [] ==>
      && Judge(h, before, line) in {Going, Refused}
      && (Judge(h, before, line) == Going <==>
            (exists i | 0 <= i < |line| :: line[i] == ':' && NUL !in line[..i]) && h.option(before, line))
  {
    ColonBeforeNul(line);
  }

  lemma {:induction false} ColonBeforeNul(line: string)
    ensures ':' in CString(line) <==> exists i | 0 <= i < |line| :: line[i] == ':' && NUL !in line[..i]
  {
    var text := CString(line);
    if ':' in text {
      var i :| 0 <= i < |text| && text[i] == ':';
      assert line[i] == ':' && line[..i] == text[..i];
    }
    if i :| 0 <= i < |line| && line[i] == ':' && NUL !in line[..i] {
      TextReaches(line, i);
      assert text[i] == line[i];
    }
  }

  lemma {:induction false} TextReaches(line: string, i: nat)
    requires i < |line| && line[i] != NUL && NUL !in line[..i]
    ensures i < |CString(line)|
  {
    if i > 0 {
      assert line[0] == line[..i][0] && line[1..][..i - 1] == line[..i][1..];
      TextReaches(line[1..], i - 1);
    }
  }

  /** One round of the loop, at a byte of `c`. */
  function Next(c: string, d: Dfa, h: Handlers): (r: Dfa)
    requires d.pos < |c| && d.lineStart <= d.pos && d.headerEnd <= d.pos
    ensures r.pos == d.pos + 1 && r.lineStart <= r.pos && r.headerEnd <= r.pos
  {
    var s := Transition(d.state, c[d.pos]);
    var end := if d.state == ReadHeader && s != ReadHeader then d.pos else d.headerEnd;
    if s == OneLf then
      var line := if d.lineStart <= end then c[d.lineStart..end] else "";
      Dfa(s, d.pos + 1, d.pos + 1, end, d.lines + [line], Judge(h, d.lines, line))
    else
      Dfa(s, d.pos + 1, d.lineStart, end, d.lines, if s == BodyRead then Ended else Going)
  }

  /** The state after `n` bytes, or where the loop stopped before that. */
  function Feed(c: string, n: nat, h: Handlers): (d: Dfa)
    requires n <= |c|
    ensures d.pos <= n && d.lineStart <= d.pos && d.headerEnd <= d.pos
    ensures if d.result == Going then d.pos == n else 0 < d.pos
  {
    if n == 0 then START
    else
      var d := Feed(c, n - 1, h);
      if d.result != Going then d else Next(c, d, h)
  }

  /** Later bytes do not matter. */
  lemma {:induction false} FeedPrefix(c: string, more: string, n: nat, h: Handlers)
    requires n <= |c|
    ensures Feed(c + more, n, h) == Feed(c, n, h)
  {
    if n > 0 {
      FeedPrefix(c, more, n - 1, h);
      var d := Feed(c, n - 1, h);
      if d.result == Going {
        NextPrefix(c, more, d, h);
        hide Next;
      }
    }
  }

  lemma NextPrefix(c: string, more: string, d: Dfa, h: Handlers)
    requires d.pos < |c| && d.lineStart <= d.pos && d.headerEnd <= d.pos
    ensures Next(c + more, d, h) == Next(c, d, h)
  {
    hide Judge, Transition;
    var end := if d.state == ReadHeader then d.pos else d.headerEnd;
    if d.lineStart <= end {
      assert (c + more)[d.lineStart..end] == c[d.lineStart..end];
    }
    if d.lineStart <= d.headerEnd {
      assert (c + more)[d.lineStart..d.headerEnd] == c[d.lineStart..d.headerEnd];
    }
  }

  /** A final state stays. */
  lemma {:induction false} FeedStays(c: string, m: nat, n: nat, h: Handlers)
    requires m <= n <= |c| && Feed(c, m, h).result != Going
    ensures Feed(c, n, h) == Feed(c, m, h)
  {
    if m < n {
      FeedStays(c, m, n - 1, h);
    }
  }

  // ---- Bytes that arrive in pieces

  /** The machine takes up where it left off, when there are more bytes. */
  function Resume(d: Dfa, c: string, n: nat, h: Handlers): Dfa
    requires n <= |c| && d.lineStart <= d.pos && d.headerEnd <= d.pos
    decreases n - d.pos
  {
    if d.result != Going || d.pos >= n then d else Resume(Next(c, d, h), c, n, h)
  }

  function Joined(chunks: seq<string>): string {
    if chunks == [] then "" else Joined(chunks[..|chunks| - 1]) + chunks[|chunks| - 1]
  }

  /** The state after the chunks have arrived one by one, each parsed before the next. */
  function ByChunks(chunks: seq<string>, h: Handlers): (d: Dfa)
    ensures d == Feed(Joined(chunks), |Joined(chunks)|, h)
  {
    if chunks == [] then START
    else
      var before, last := chunks[..|chunks| - 1], chunks[|chunks| - 1];
      var c := Joined(chunks);
      FeedPrefix(Joined(before), last, |Joined(before)|, h);
      ResumeIsFeed(c, |Joined(before)|, |c|, h);
      Resume(ByChunks(before, h), c, |c|, h)
  }

  lemma {:induction false} ResumeIsFeed(c: string, m: nat, n: nat, h: Handlers)
    requires m <= n <= |c|
    ensures Resume(Feed(c, m, h), c, n, h) == Feed(c, n, h)
    decreases n - m
  {
    hide Next;
    if Feed(c, m, h).result != Going {
      FeedStays(c, m, n, h);
    } else if m < n {
      ResumeIsFeed(c, m + 1, n, h);
    }
  }

  /** How the bytes are split does not matter: the lines, the answers and the end of the header
      are the same. */
  lemma ChunkIndependence(chunks: seq<string>, chunks': seq<string>, h: Handlers)
    requires Joined(chunks) == Joined(chunks')
    ensures ByChunks(chunks, h) == ByChunks(chunks', h)
  {
    hide ByChunks;
  }

  // ---- What the machine computes

  /** A header ends with a line feed, any number of carriage returns, and a line feed. */
  ghost predicate EndsAt(c: string, e: nat) {
    e <= |c| && exists i: nat :: i + 1 < e && LineEnds(c, i, e)
  }

  predicate LineEnds(c: string, i: nat, e: nat)
    requires i + 1 < e <= |c|
  {
    c[i] == LF && c[e - 1] == LF && forall k | i < k < e - 1 :: c[k] == CR
  }

  function TrimCr(s: string): (r: string)
    ensures r <= s && (r == "" || r[|r| - 1] != CR)
    ensures forall k | |r| <= k < |s| :: s[k] == CR
  {
    if s != "" && s[|s| - 1] == CR then TrimCr(s[..|s| - 1]) else s
  }

  /** Trimming is determined by that. */
  lemma {:induction false} TrimIs(s: string, n: nat)
    requires n <= |s| && (n == 0 || s[n - 1] != CR) && forall k | n <= k < |s| :: s[k] == CR
    ensures TrimCr(s) == s[..n]
  {
    if n == |s| {
      assert s[..n] == s;
    } else {
      TrimIs(s[..|s| - 1], n);
      assert s[..|s| - 1][..n] == s[..n];
    }
  }

  /** The complete lines of a text. */
  function Lines(s: string): seq<string>
    decreases |s|
  {
    if s == "" then []
    else if s[|s| - 1] == LF then
      var start := LastLine(s[..|s| - 1]);
      Lines(s[..start]) + [TrimCr(s[start..|s| - 1])]
    else Lines(s[..|s| - 1])
  }

  /** Where the text after the last line feed starts. */
  function LastLine(s: string): (k: nat)
    ensures k <= |s| && LF !in s[k..] && (k == 0 || s[k - 1] == LF)
  {
    if s == "" || s[|s| - 1] == LF then |s|
    else
      var k := LastLine(s[..|s| - 1]);
      assert s[k..] == s[..|s| - 1][k..] + [s[|s| - 1]];
      k
  }

  lemma LastLineIs(s: string, k: nat)
    requires k <= |s| && LF !in s[k..] && (k == 0 || s[k - 1] == LF)
    ensures LastLine(s) == k
  {}

  /** What the state says about the current line, `c[lineStart..pos]`. */
  ghost predicate Tracks(c: string, d: Dfa) {
    && d.pos <= |c| && d.lineStart <= d.pos
    && (d.lineStart == 0 || c[d.lineStart - 1] == LF)
    && LF !in c[d.lineStart..d.pos]
    && d.lines == Lines(c[..d.lineStart])
    && match d.state
       case ReadHeader => d.pos == 0 || (d.pos > d.lineStart && c[d.pos - 1] != CR)
       case OneCr =>
         && d.lineStart <= d.headerEnd < d.pos && (forall k | d.headerEnd <= k < d.pos :: c[k] == CR)
         && (if d.headerEnd == d.lineStart then d.lineStart == 0 else c[d.headerEnd - 1] != CR)
       case OneLf => d.pos == d.lineStart > 0
       case TwoCr => d.pos > d.lineStart > 0 && forall k | d.lineStart <= k < d.pos :: c[k] == CR
       case BodyRead => false
  }

  lemma NextTracks(c: string, d: Dfa, h: Handlers)
    requires Tracks(c, d) && d.pos < |c| && d.headerEnd <= d.pos && d.result == Going
    ensures
      var r := Next(c, d, h);
      if r.result == Ended then EndsAt(c, d.pos + 1) && r.lines == d.lines && r.lineStart == d.lineStart
      else Tracks(c, r) && !EndsAt(c, d.pos + 1)
  {
    hide EndsAt, Lines, Judge;
    if c[d.pos] != LF {
      PlainByte(c, d, h);
    } else if d.state == OneLf || d.state == TwoCr {
      Blank(c, d);
    } else {
      NotBlank(c, d);
      LineHandedOn(c, d);
      assert c[d.pos + 1..d.pos + 1] == "";
    }
  }

  /** A line feed after nothing but carriage returns ends the header. */
  lemma Blank(c: string, d: Dfa)
    requires Tracks(c, d) && d.pos < |c| && c[d.pos] == LF && (d.state == OneLf || d.state == TwoCr)
    ensures EndsAt(c, d.pos + 1)
  {
    hide Lines;
    assert LineEnds(c, d.lineStart - 1, d.pos + 1);
  }

  lemma PlainByte(c: string, d: Dfa, h: Handlers)
    requires Tracks(c, d) && d.pos < |c| && d.headerEnd <= d.pos && d.result == Going && c[d.pos] != LF
    ensures Tracks(c, Next(c, d, h)) && Next(c, d, h).result == Going && !EndsAt(c, d.pos + 1)
  {
    hide EndsAt, Lines, Judge, TrimCr;
    NotAnEnd(c, d.pos + 1);
    OneMoreByte(c, d.lineStart, d.pos);
  }

  lemma NotAnEnd(c: string, e: nat)
    requires 0 < e <= |c| && c[e - 1] != LF
    ensures !EndsAt(c, e)
  {}

  lemma OneMoreByte(c: string, i: nat, j: nat)
    requires i <= j < |c|
    ensures c[i..j + 1] == c[i..j] + [c[j]]
  {}

  /** Where a line feed ends a line that is not blank, the header does not end. */
  lemma NotBlank(c: string, d: Dfa)
    requires Tracks(c, d) && d.pos < |c| && (d.state == ReadHeader || d.state == OneCr)
    ensures !EndsAt(c, d.pos + 1)
  {
    hide Lines;
    var e := d.pos + 1;
    forall i: nat | i + 1 < e
      ensures !LineEnds(c, i, e)
    {
      if i >= d.lineStart {
        assert c[i] == c[d.lineStart..d.pos][i - d.lineStart];
      }
    }
  }

  /** What is handed on is the line without its carriage returns. */
  lemma LineHandedOn(c: string, d: Dfa)
    requires Tracks(c, d) && d.pos < |c| && c[d.pos] == LF && (d.state == ReadHeader || d.state == OneCr)
    ensures
      var end := if d.state == ReadHeader then d.pos else d.headerEnd;
      d.lineStart <= end && Lines(c[..d.pos + 1]) == d.lines + [c[d.lineStart..end]]
  {
    hide Lines, LastLine, TrimCr;
    var end := if d.state == ReadHeader then d.pos else d.headerEnd;
    LinesStep(c, d.lineStart, d.pos);
    Subslice(c, d.lineStart, d.pos, end);
    var text := c[d.lineStart..d.pos];
    assert forall k | end - d.lineStart <= k < |text| :: text[k] == c[d.lineStart + k];
    TrimIs(text, end - d.lineStart);
  }

  lemma Subslice(c: string, i: nat, j: nat, k: nat)
    requires i <= k <= j <= |c|
    ensures c[i..j][..k - i] == c[i..k]
    ensures i < k ==> c[i..j][k - 1 - i] == c[k - 1]
  {}

  lemma LinesStep(c: string, i: nat, j: nat)
    requires i <= j < |c| && c[j] == LF && LF !in c[i..j] && (i == 0 || c[i - 1] == LF)
    ensures Lines(c[..j + 1]) == Lines(c[..i]) + [TrimCr(c[i..j])]
  {
    var s := c[..j + 1];
    assert s[..|s| - 1] == c[..j];
    assert c[..j][i..] == c[i..j];
    LastLineIs(c[..j], i);
    assert s[..i] == c[..i];
    assert s[i..|s| - 1] == c[i..j];
  }

  /** What is known of a state of the loop: the lines handed on are the lines there are, and no
      header end was missed; if the machine says that the header has ended, it has. */
  ghost predicate Sound(c: string, d: Dfa) {
    if d.result == Ended then
      d.lineStart <= d.pos <= |c| && EndsAt(c, d.pos) && d.lines == Lines(c[..d.lineStart]) && NoneBefore(c, d.pos)
    else Tracks(c, d) && NoneBefore(c, d.pos + 1)
  }

  ghost predicate NoneBefore(c: string, n: nat) {
    forall e: nat | e < n :: !EndsAt(c, e)
  }

  lemma NextSound(c: string, d: Dfa, h: Handlers)
    requires Sound(c, d) && d.result == Going && d.pos < |c| && d.headerEnd <= d.pos && d.lineStart <= d.pos
    ensures Sound(c, Next(c, d, h))
  {
    NextTracks(c, d, h);
    var r := Next(c, d, h);
    assert d.lines == Lines(c[..d.lineStart]) && NoneBefore(c, r.pos);
    hide *;
    if r.result != Ended {
      OneMore(c, r.pos);
    }
    SoundIs(c, d, r);
  }

  lemma SoundIs(c: string, d: Dfa, r: Dfa)
    requires r.pos == d.pos + 1 <= |c| && d.lineStart <= d.pos
    requires
      if r.result == Ended then
        && EndsAt(c, r.pos) && r.lines == d.lines == Lines(c[..d.lineStart]) && r.lineStart == d.lineStart
        && NoneBefore(c, r.pos)
      else Tracks(c, r) && NoneBefore(c, r.pos + 1)
    ensures Sound(c, r)
  {}

  lemma OneMore(c: string, n: nat)
    requires NoneBefore(c, n) && !EndsAt(c, n)
    ensures NoneBefore(c, n + 1)
  {}

  lemma {:induction false} FeedTracks(c: string, n: nat, h: Handlers)
    requires n <= |c|
    ensures Sound(c, Feed(c, n, h))
  {
    if n == 0 {
      assert c[..0] == "";
    } else {
      FeedTracks(c, n - 1, h);
      hide Sound, Next;
      var d := Feed(c, n - 1, h);
      if d.result == Going {
        NextSound(c, d, h);
      }
    }
  }

  /** The handlers accept every line, in turn. */
  predicate AllAccepted(h: Handlers, lines: seq<string>) {
    lines == [] ||
    var last := |lines| - 1;
    AllAccepted(h, lines[..last]) && Judge(h, lines[..last], lines[last]) == Going
  }

  /** The answers given so far; the last one stops the machine unless it is to go on. */
  predicate Judged(h: Handlers, d: Dfa) {
    if d.result == Going || d.result == Ended then AllAccepted(h, d.lines)
    else
      var last := |d.lines| - 1;
      last >= 0 && AllAccepted(h, d.lines[..last]) && Judge(h, d.lines[..last], d.lines[last]) == d.result
  }

  lemma NextJudged(c: string, d: Dfa, h: Handlers)
    requires d.pos < |c| && d.lineStart <= d.pos && d.headerEnd <= d.pos && d.result == Going && Judged(h, d)
    ensures Judged(h, Next(c, d, h))
  {
    hide Judge, Transition;
    var r := Next(c, d, h);
    if |d.lines| < |r.lines| {
      assert r.lines[..|d.lines|] == d.lines;
    }
  }

  /** The machine goes on as long as the handlers accept the lines, and stops with the answer to
      the first line that they do not accept. */
  lemma {:induction false} FeedJudged(c: string, n: nat, h: Handlers)
    requires n <= |c|
    ensures Judged(h, Feed(c, n, h))
  {
    hide Judge, Next;
    if n > 0 {
      FeedJudged(c, n - 1, h);
      if Feed(c, n - 1, h).result == Going {
        NextJudged(c, Feed(c, n - 1, h), h);
      }
    }
  }

  /** The header is taken to end at the earliest LF CR* LF, and nowhere else. */
  lemma EndsAtEarliest(c: string, n: nat, h: Handlers, e: nat)
    requires n <= |c| && Feed(c, n, h).result in {Going, Ended}
    ensures (Feed(c, n, h).result == Ended && Feed(c, n, h).pos == e) <==>
            (e <= n && EndsAt(c, e) && forall e' | 0 <= e' < e :: !EndsAt(c, e'))
  {
    FeedTracks(c, n, h);
  }
}
