/** Reading a request from its socket (boa-0.94.13/src/read.c, request.c): the header loop over
    `client_stream`, the carry-over to the next request of the connection, and the relay of a
    POST body into a temporary file.
 */
module ReadRequest {
  import opened Text
  import opened Buffers
  import opened HeaderDfa
  import opened Pipelining

  const CLIENT_STREAM_SIZE: nat := 8192

  datatype Status = Parsing(state: State) | BodyWrite | Dead

  /** What a system call gives; `Bytes("")` is the end of the file. */
  datatype Io = Bytes(s: string) | WouldBlock | Interrupted | Failed

  /** The fields that the header loop works on. `lines` stands for what the line handlers have
      put into the other fields; `req->logline` is set as soon as there is a line. */
  datatype Regs = Regs(
    status: Status, parsePos: nat, streamPos: nat, headerLine: nat, headerEnd: nat, lines: seq<string>)

  const FRESH: Regs := Regs(Parsing(ReadHeader), 0, 0, 0, 0, [])

  // ---- Header lines are rewritten in place

  /** Where the name of a header line ends. */
  function NameEnd(line: string): (k: nat)
    ensures k <= |line| && (k < |line| ==> line[k] == ':' || line[k] == NUL)
    ensures forall i | 0 <= i < k :: line[i] != ':' && line[i] != NUL
  {
    if line == "" || line[0] == ':' || line[0] == NUL then 0
    else
      var k := NameEnd(line[1..]);
      assert forall i | 0 < i <= k :: line[i] == line[1..][i - 1];
      k + 1
  }

  lemma NameEndIs(line: string, k: nat)
    requires k <= |line| && (k < |line| ==> line[k] == ':' || line[k] == NUL)
    requires forall i | 0 <= i < k :: line[i] != ':' && line[i] != NUL
    ensures NameEnd(line) == k
  {}

  predicate HasName(line: string) {
    NameEnd(line) < |line| && line[NameEnd(line)] == ':'
  }

  lemma {:induction false} ColonIsName(line: string)
    ensures HasName(line) <==> ':' in CString(line)
  {
    if line != "" && line[0] != NUL {
      if line[0] == ':' {
        assert CString(line)[0] == ':';
      } else {
        ColonIsName(line[1..]);
        assert forall c | c != line[0] :: c in CString(line) <==> c in CString(line[1..]);
      }
    }
  }

  /** `to_upper` on one character. */
  function HeaderCase(c: char): char {
    if c == '-' then '_' else if 'a' <= c <= 'z' then (c as int - 32) as char else c
  }

  /** Small letters become capitals, hyphens underscores, and all else stays. */
  lemma HeaderCaseIs(c: char)
    ensures forall j | 0 <= j < 26 :: c == SMALL[j] ==> HeaderCase(c) == CAPITALS[j]
    ensures c == '-' ==> HeaderCase(c) == '_'
    ensures c !in SMALL && c != '-' ==> HeaderCase(c) == c
  {
    forall j: nat | j < 26
      ensures CAPITALS[j] == ('A' as int + j) as char && SMALL[j] == ('a' as int + j) as char
    {
      LetterAt(j);
    }
    if 'a' <= c <= 'z' {
      assert SMALL[c as int - 'a' as int] == c;
    }
  }

  function HeaderName(s: string): (r: string)
    ensures |r| == |s| && forall i | 0 <= i < |s| :: r[i] == HeaderCase(s[i])
  {
    seq(|s|, i requires 0 <= i < |s| => HeaderCase(s[i]))
  }

  /** A line after `process_option_line`: the name in the form CGI wants, cut off from its value. */
  function Rewritten(line: string): (r: string)
    ensures |r| == |line|
  {
    if HasName(line) then
      var k := NameEnd(line);
      HeaderName(line[..k]) + [NUL] + line[k + 1..]
    else line
  }

  /** `strchr(line, ':')`, or the NUL before any colon. */
  method FindColon(a: array<char>, from: nat, end: nat) returns (k: nat)
    requires from <= end < a.Length && a[end] == NUL
    ensures from <= k <= end && k - from == NameEnd(a[from..end])
    ensures a[k] == ':' || a[k] == NUL
  {
    k := from;
    while a[k] != NUL && a[k] != ':'
      invariant from <= k <= end
      invariant forall i | from <= i < k :: a[i] != ':' && a[i] != NUL
      decreases end - k
    {
      k := k + 1;
    }
    NameEndIs(a[from..end], k - from);
  }

  /** The C string at `from` ends at `end`. */
  method ToUpper(a: array<char>, from: nat, end: nat)
    requires from <= end < a.Length && a[end] == NUL && NUL !in a[from..end]
    modifies a
    ensures a[from..end] == HeaderName(old(a[from..end]))
    ensures forall i | 0 <= i < a.Length && !(from <= i < end) :: a[i] == old(a[i])
  {
    ghost var name := a[from..end];
    var j := from;
    while a[j] != NUL
      invariant from <= j <= end
      invariant forall i | from <= i < j :: a[i] == HeaderCase(name[i - from])
      invariant forall i | 0 <= i < a.Length && !(from <= i < j) :: a[i] == old(a[i])
      decreases end - j
    {
      a[j] := HeaderCase(a[j]);
      j := j + 1;
    }
  }

  /** `*value++ = '\\0'; to_upper(line);` */
  method CutName(a: array<char>, from: nat, k: nat, end: nat)
    requires from <= k < end < a.Length
    requires k - from == NameEnd(a[from..end]) && HasName(a[from..end])
    modifies a
    ensures a[from..end] == Rewritten(old(a[from..end]))
    ensures forall i | 0 <= i < a.Length && !(from <= i < end) :: a[i] == old(a[i])
  {
    ghost var line := a[from..end];
    SliceParts(line, k - from);
    ghost var out := Rewritten(line);
    hide *;
    assert forall i | from <= i < end :: a[i] == line[i - from];
    a[k] := NUL;
    assert a[from..k] == line[..k - from];
    ToUpper(a, from, k);
    assert forall i | from <= i < k :: a[from..k][i - from] == a[i];
    assert forall i | from <= i < end :: a[i] == out[i - from];
  }

  /** The first part of `process_option_line`: the line that lies at `from..end`. */
  method ProcessOptionLine(a: array<char>, from: nat, end: nat) returns (colon: bool)
    requires from <= end < a.Length && a[end] == NUL
    modifies a
    ensures colon == (':' in CString(old(a[from..end])))
    ensures a[from..end] == Rewritten(old(a[from..end]))
    ensures forall i | 0 <= i < a.Length && !(from <= i < end) :: a[i] == old(a[i])
  {
    ghost var line := a[from..end];
    var k := FindColon(a, from, end);
    colon := a[k] != NUL;
    assert k < end ==> line[k - from] == a[k];
    assert colon == HasName(line);
    ColonIsName(line);
    assert !HasName(line) ==> Rewritten(line) == line;
    hide *;
    if colon {
      CutName(a, from, k, end);
    }
  }

  lemma SliceParts(line: string, k: nat)
    requires k == NameEnd(line)
    ensures NUL !in line[..k]
    ensures HasName(line) ==>
      && k < |line| && Rewritten(line)[k] == NUL
      && (forall i | 0 <= i < k :: Rewritten(line)[i] == HeaderName(line[..k])[i])
      && (forall i | k < i < |line| :: Rewritten(line)[i] == line[i])
    ensures !HasName(line) ==> Rewritten(line) == line
  {
    if HasName(line) {
      assert Rewritten(line) == HeaderName(line[..k]) + [NUL] + line[k + 1..];
      hide *;
      Pieces(line, k, HeaderName(line[..k]));
    }
  }

  lemma Pieces(line: string, k: nat, name: string)
    requires k == |name| < |line|
    ensures
      var r := name + [NUL] + line[k + 1..];
      && |r| == |line| && r[k] == NUL
      && (forall i | 0 <= i < k :: r[i] == name[i]) && (forall i | k < i < |line| :: r[i] == line[i])
  {}

  // ---- The loop over the buffered bytes

  /** The registers are those of the machine, after `g.parsePos` of the bytes `c`. */
  ghost predicate Agrees(g: Regs, d: Dfa) {
    && d.result == Going && g.status == Parsing(d.state) && g.parsePos == d.pos && g.headerLine == d.lineStart
    && g.headerEnd == d.headerEnd && g.lines == d.lines
  }

  /** The current line and what follows it lie in the buffer as they came. */
  ghost predicate Synced(s: seq<char>, g: Regs, c: string, h: Handlers) {
    && |c| == g.streamPos <= |s| && g.headerLine <= g.parsePos <= |c| && Agrees(g, Feed(c, g.parsePos, h))
    && s[g.headerLine..g.streamPos] == c[g.headerLine..]
  }

  /** What is left unparsed lies in the buffer as it came. */
  ghost predicate Unparsed(s: seq<char>, g: Regs, c: string) {
    |c| == g.streamPos <= |s| && g.parsePos <= |c| && s[g.parsePos..g.streamPos] == c[g.parsePos..]
  }

  /** The line at `g.headerLine..g.headerEnd` goes to its handler. */
  method HandOn(a: array<char>, g: Regs, h: Handlers) returns (line: string, result: Result)
    requires g.headerLine <= g.headerEnd < g.parsePos <= a.Length
    modifies a
    ensures line == old(a[g.headerLine..g.headerEnd]) && result == Judge(h, g.lines, line)
    ensures forall i | g.parsePos <= i < a.Length :: a[i] == old(a[i])
  {
    line := a[g.headerLine..g.headerEnd];
    a[g.headerEnd] := NUL;
    assert a[g.headerLine..g.headerEnd] == line;
    if g.lines != [] {
      var colon := ProcessOptionLine(a, g.headerLine, g.headerEnd);
      result := if colon && h.option(g.lines, line) then Going else Refused;
    } else {
      result := match h.logLine(line)
        case Refuse => Refused
        case Simple => SimpleEnd
        case Full => Going;
    }
  }

  /** The `switch`, and the step to the next byte. */
  method Switch(g0: Regs, check: char) returns (g: Regs)
    requires g0.status.Parsing?
    ensures
      var s := Transition(g0.status.state, check);
      g == g0.(status := Parsing(s), parsePos := g0.parsePos + 1,
               headerEnd := if g0.status.state == ReadHeader && s != ReadHeader then g0.parsePos else g0.headerEnd)
  {
    g := g0;
    match g.status.state {
      case ReadHeader =>
        if check == CR {
          g := g.(status := Parsing(OneCr), headerEnd := g.parsePos);
        } else if check == LF {
          g := g.(status := Parsing(OneLf), headerEnd := g.parsePos);
        }
      case OneCr =>
        if check == LF {
          g := g.(status := Parsing(OneLf));
        } else if check != CR {
          g := g.(status := Parsing(ReadHeader));
        }
      case OneLf =>
        g := g.(status := Parsing(if check == CR then TwoCr else if check == LF then BodyRead else ReadHeader));
      case TwoCr =>
        if check == LF {
          g := g.(status := Parsing(BodyRead));
        } else if check != CR {
          g := g.(status := Parsing(ReadHeader));
        }
      case BodyRead =>
    }
    g := g.(parsePos := g.parsePos + 1);
  }

  lemma SlicesAgree(s: seq<char>, c: string, i: nat, j: nat, k: nat)
    requires i <= j <= k <= |c| <= |s| && s[i..|c|] == c[i..]
    ensures s[j..k] == c[j..k] && s[j..|c|] == c[j..] && (j < |c| ==> s[j] == c[j])
  {
    assert forall n | i <= n < |c| :: s[n] == s[i..|c|][n - i] == c[n];
  }

  lemma Untouched(s: seq<char>, t: seq<char>, i: nat, j: nat)
    requires i <= j <= |s| == |t| && forall n | i <= n < j :: t[n] == s[n]
    ensures t[i..j] == s[i..j]
  {}

  /** The end of a line: its bytes go to the handler, and what follows stays. */
  method EndLine(a: array<char>, g: Regs, h: Handlers, ghost c: string) returns (line: string, result: Result)
    requires g.headerLine <= g.headerEnd < g.parsePos && Unparsed(a[..], g, c)
    requires a[..][g.headerLine..g.headerEnd] == c[g.headerLine..g.headerEnd]
    modifies a
    ensures line == c[g.headerLine..g.headerEnd] && result == Judge(h, g.lines, line)
    ensures Unparsed(a[..], g, c) && forall i | g.parsePos <= i < a.Length :: a[i] == old(a[i])
  {
    ghost var s := a[..];
    hide Judge;
    assert s[g.headerLine..g.headerEnd] == a[g.headerLine..g.headerEnd];
    line, result := HandOn(a, g, h);
    Untouched(s, a[..], g.parsePos, g.streamPos);
  }

  /** One round of the loop. */
  method ParseByte(a: array<char>, g0: Regs, h: Handlers, ghost c: string) returns (g: Regs, result: Result)
    requires Synced(a[..], g0, c, h) && g0.parsePos < g0.streamPos
    modifies a
    ensures
      var e := Feed(c, g0.parsePos + 1, h);
      result == e.result && g.parsePos == e.pos == g0.parsePos + 1 && g.lines == e.lines
    ensures if result == Going then Synced(a[..], g, c, h) else Unparsed(a[..], g, c)
    ensures g.streamPos == g0.streamPos
    ensures forall i | g.parsePos <= i < a.Length :: a[i] == old(a[i])
  {
    hide Feed, Judge, Transition, TrimCr, CString, Next;
    ghost var s := a[..];
    NextByte(s, g0, c, h);
    g := Switch(g0, a[g0.parsePos]);
    result := Going;
    Switched(s, g0, g, c, h);
    if g.status == Parsing(OneLf) {
      var line;
      line, result := EndLine(a, g, h, c);
      g := g.(lines := g.lines + [line], headerLine := g.parsePos);
    } else if g.status == Parsing(BodyRead) {
      result := Ended;
    }
  }

  lemma NextByte(s: seq<char>, g0: Regs, c: string, h: Handlers)
    requires Synced(s, g0, c, h) && g0.parsePos < g0.streamPos
    ensures g0.status.Parsing? && g0.parsePos < |c| && g0.parsePos < |s| && s[g0.parsePos] == c[g0.parsePos]
  {
    hide Feed;
    SlicesAgree(s, c, Feed(c, g0.parsePos, h).lineStart, g0.parsePos, g0.parsePos);
  }

  /** What the step does to the registers, as the machine has it. */
  lemma Switched(s: seq<char>, g0: Regs, g: Regs, c: string, h: Handlers)
    requires Synced(s, g0, c, h) && g0.parsePos < g0.streamPos && g0.status.Parsing?
    requires g0.parsePos < |s|
    requires
      var t := Transition(g0.status.state, s[g0.parsePos]);
      g == g0.(status := Parsing(t), parsePos := g0.parsePos + 1,
               headerEnd := if g0.status.state == ReadHeader && t != ReadHeader then g0.parsePos else g0.headerEnd)
    ensures g.parsePos <= |c| && Unparsed(s, g, c)
    ensures
      var e := Feed(c, g.parsePos, h);
      && g.status == Parsing(e.state) && g.headerEnd == e.headerEnd
      && (e.state == OneLf ==>
            && g.headerLine <= g.headerEnd < g.parsePos && s[g.headerLine..g.headerEnd] == c[g.headerLine..g.headerEnd]
            && var line := c[g.headerLine..g.headerEnd];
               e == Dfa(OneLf, g.parsePos, g.parsePos, g.headerEnd, g.lines + [line], Judge(h, g.lines, line)))
      && (e.state != OneLf ==>
            e == Dfa(e.state, g.parsePos, g.headerLine, g.headerEnd, g.lines,
                     if e.state == BodyRead then Ended else Going))
  {
    var d := Feed(c, g0.parsePos, h);
    var e := Next(c, d, h);
    SlicesAgree(s, c, d.lineStart, d.pos, d.pos);
    SlicesAgree(s, c, d.lineStart, d.pos + 1, d.pos + 1);
    WhereLineEnds(c, d, h);
    if e.state == OneLf {
      SlicesAgree(s, c, d.lineStart, d.lineStart, e.headerEnd);
    }
    hide Judge, TrimCr, CString;
  }

  lemma WhereLineEnds(c: string, d: Dfa, h: Handlers)
    requires d.pos < |c| && d == Feed(c, d.pos, h) && d.result == Going
    ensures
      var e := Next(c, d, h);
      e.state == OneLf ==> d.lineStart <= e.headerEnd < e.pos
  {
    FeedTracks(c, d.pos, h);
  }

  /** The loop of `read_header`: until the buffered bytes are used up or the machine stops. */
  method ParseBuffered(a: array<char>, g0: Regs, h: Handlers, ghost c: string) returns (g: Regs, result: Result)
    requires Synced(a[..], g0, c, h)
    modifies a
    ensures
      var d := Feed(c, |c|, h);
      result == d.result && g.parsePos == d.pos && g.lines == d.lines
    ensures if result == Going then Synced(a[..], g, c, h) else Unparsed(a[..], g, c)
    ensures g.streamPos == g0.streamPos
    ensures forall i | g.parsePos <= i < a.Length :: a[i] == old(a[i])
  {
    hide *;
    g, result := g0, Going;
    SyncedSizes(a[..], g, c, h);
    while g.parsePos < g.streamPos
      invariant g.parsePos <= g.streamPos == |c| <= a.Length
      invariant result == Going && Synced(a[..], g, c, h) && g.streamPos == g0.streamPos
      invariant forall i | g.parsePos <= i < a.Length :: a[i] == old(a[i])
    {
      g, result := ParseByte(a, g, h, c);
      if result != Going {
        FeedStays(c, g.parsePos, |c|, h);
        return;
      }
      SyncedSizes(a[..], g, c, h);
    }
    SyncedSizes(a[..], g, c, h);
  }

  lemma SyncedSizes(s: seq<char>, g: Regs, c: string, h: Handlers)
    requires Synced(s, g, c, h)
    ensures g.parsePos <= g.streamPos == |c| <= |s|
    ensures var d := Feed(c, g.parsePos, h); d.result == Going && d.pos == g.parsePos && d.lines == g.lines
  {}

  lemma SyncedMore(s: seq<char>, t: seq<char>, g: Regs, c: string, more: string, h: Handlers)
    requires Synced(s, g, c, h) && |c| + |more| <= |s| == |t|
    requires (forall i | 0 <= i < |c| :: t[i] == s[i]) && t[|c|..|c| + |more|] == more
    ensures Synced(t, g.(streamPos := |c| + |more|), c + more, h)
  {
    FeedPrefix(c, more, g.parsePos, h);
    Glue(s, t, c, more, g.headerLine);
    hide Feed;
  }

  lemma Glue(s: seq<char>, t: seq<char>, c: string, more: string, i: nat)
    requires i <= |c| && |c| + |more| <= |s| == |t| && s[i..|c|] == c[i..]
    requires (forall k | 0 <= k < |c| :: t[k] == s[k]) && t[|c|..|c| + |more|] == more
    ensures t[i..|c| + |more|] == (c + more)[i..]
  {
    Untouched(s, t, i, |c|);
    assert t[i..|c| + |more|] == t[i..|c|] + more;
  }

  lemma CarriedOver(before: seq<Segment>, c: string, h: Handlers)
    requires AllDelimited(before, h)
    ensures
      var d := Feed(c, |c|, h);
      var after := before + [Segment(c[..d.pos], d.result)];
      AllDelimited(after, h) && Flatten(after) + c[d.pos..] == Flatten(before) + c
  {
    FeedCut(c, |c|, h);
    var d := Feed(c, |c|, h);
    var g := Segment(c[..d.pos], d.result);
    assert Delimited(g, h);
    hide *;
    FlattenSnoc(before, g);
    DelimitedSnoc(before, g, h);
    SplitAt(Flatten(before), c, d.pos);
  }

  lemma SplitAt(a: string, c: string, k: nat)
    requires k <= |c|
    ensures a + c[..k] + c[k..] == a + c
  {}

  lemma FlattenSnoc(before: seq<Segment>, g: Segment)
    ensures Flatten(before + [g]) == Flatten(before) + g.text
  {
    assert (before + [g])[..|before|] == before;
  }

  lemma DelimitedSnoc(before: seq<Segment>, g: Segment, h: Handlers)
    requires AllDelimited(before, h) && Delimited(g, h)
    ensures AllDelimited(before + [g], h)
  {
    hide Delimited;
  }

  // ---- The request

  datatype Config = Config(
    handlers: Handlers,
    isPost: seq<string> -> bool,                 // the method, from the lines
    contentLength: seq<string> -> Option<int>,   // `boa_atoi` of the Content-Length, if there is one
    singlePostLimit: int)

  /** The fields that relay a POST body: a piece of `client_stream` or of `buffer`. */
  datatype Body = Body(inBuffer: bool, headerLine: nat, headerEnd: nat, filesize: nat, filepos: nat)

  datatype Written = Wrote(n: nat) | Blocked | Intr | Error

  /** The Content-Length of a POST, if it is acceptable. */
  function PostLength(cfg: Config, lines: seq<string>): (n: Option<nat>)
    ensures n.Some? ==>
      && n.value > 0 && cfg.contentLength(lines) == Some(n.value)
      && (cfg.singlePostLimit == 0 || n.value <= cfg.singlePostLimit)
    ensures n.None? ==>
      forall k | cfg.contentLength(lines) == Some(k) && k > 0 :: cfg.singlePostLimit != 0 && cfg.singlePostLimit < k
  {
    match cfg.contentLength(lines)
    case None => None
    case Some(n) => if n <= 0 || (cfg.singlePostLimit != 0 && n > cfg.singlePostLimit) then None else Some(n)
  }

  /** `held` waits to be written; `file` has been; `all` has come from the client. */
  ghost predicate Relayed(status: Status, b: Body, held: string, all: string, file: string) {
    && status in {BodyWrite, Parsing(BodyRead)}
    && 0 < b.filesize && b.filepos == |file| && b.headerEnd == b.headerLine + |held|
    && b.filepos + |held| <= b.filesize
    && file + held == all[..Min(|all|, b.filesize)]
    && (status == Parsing(BodyRead) ==> b.inBuffer && b.headerEnd == 0 && b.filepos < b.filesize)
  }

  /** What the system offers in one visit: to a read, or to a write. */
  datatype Visit = Visit(read: Io, write: Written)

  predicate Eager(visits: seq<Visit>) {
    forall i | 0 <= i < |visits| ::
      visits[i].read.Bytes? && visits[i].read.s != "" && visits[i].write.Wrote? && visits[i].write.n > 0
  }

  lemma RelayedCounts(status: Status, b: Body, held: string, all: string, file: string)
    requires Relayed(status, b, held, all, file)
    ensures b.filepos == |file| && |file| + |held| <= b.filesize && status in {BodyWrite, Parsing(BodyRead)}
    ensures status == Parsing(BodyRead) ==> |file| < b.filesize
  {}

  lemma PieceWritten(status: Status, b: Body, held: string, all: string, file: string, n: nat)
    requires Relayed(status, b, held, all, file) && n <= |held| && status == BodyWrite
    ensures
      Relayed(status, b.(filepos := b.filepos + n, headerLine := b.headerLine + n), held[n..], all, file + held[..n])
  {
    assert file + held[..n] + held[n..] == file + held;
  }

  lemma PieceRead(b: Body, all: string, file: string, got: string)
    requires Relayed(Parsing(BodyRead), b, "", all, file) && |all| <= b.filesize
    requires |all| + |got| <= b.filesize
    ensures all == file
    ensures Relayed(BodyWrite, b.(headerEnd := |got|), got, all + got, file)
  {
    assert file + "" == file;
  }

  class Request {
    const stream: array<char>
    const buffer: array<char>
    const cfg: Config
    var r: Regs
    var b: Body
    ghost var client: string            // what was read into client_stream
    ghost var before: seq<Segment>      // what earlier records of the connection parsed
    ghost var received: string          // what was read after the header of a POST
    ghost var file: string              // the temporary file

    ghost predicate Arrays() {
      stream.Length == CLIENT_STREAM_SIZE && buffer.Length == BUFFER_SIZE + 1 && stream != buffer
    }

    /** What is not parsed yet is in the buffer, and nothing else was lost. */
    ghost predicate Kept()
      reads this, stream
    {
      && Arrays() && AllDelimited(before, cfg.handlers) && Unparsed(stream[..], r, client)
      && var d := Feed(client, |client|, cfg.handlers);
         r.parsePos == d.pos && r.lines == d.lines
    }

    /** In the middle of the header. */
    ghost predicate InHeader()
      reads this, stream
    {
      Arrays() && AllDelimited(before, cfg.handlers) && Synced(stream[..], r, client, cfg.handlers)
    }

    /** The header loop has stopped. */
    ghost predicate Stopped()
      reads this, stream
    {
      Kept() && Feed(client, |client|, cfg.handlers).result != Going
    }

    /** Every byte that the connection has put into a client_stream. */
    ghost function Connection(): string
      reads this
    {
      Flatten(before) + client
    }

    ghost function Held(): string
      reads this, stream, buffer
      requires Arrays() && b.headerLine <= b.headerEnd <= BUFFER_SIZE
    {
      if b.inBuffer then buffer[b.headerLine..b.headerEnd] else stream[b.headerLine..b.headerEnd]
    }

    /** The body of a POST as it has come so far. */
    ghost function Arrived(): string
      reads this
      requires r.parsePos <= |client|
    {
      client[r.parsePos..] + received
    }

    ghost predicate Relaying()
      reads this, stream, buffer
    {
      && Stopped() && b.headerLine <= b.headerEnd <= BUFFER_SIZE
      && Relayed(r.status, b, Held(), Arrived(), file)
      && (received == "" || |Arrived()| <= b.filesize)
    }

    /** A new connection. */
    constructor (cfg: Config)
      ensures InHeader() && r == FRESH && client == "" && before == [] && this.cfg == cfg
      ensures fresh(stream) && fresh(buffer)
    {
      stream := new char[CLIENT_STREAM_SIZE];
      buffer := new char[BUFFER_SIZE + 1];
      this.cfg := cfg;
      r, b := FRESH, Body(false, 0, 0, 0, 0);
      client, before, received, file := "", [], "", "";
    }

    /** `read_header`: 0 to close, 1 to stay ready, -1 to wait. `accepted` is the answer of
        `process_header_end`, if it gets called. */
    method ReadHeader(io: Io, accepted: bool) returns (rc: int)
      requires InHeader()
      modifies this`r, this`b, this`client, this`file, stream
      ensures
        var d := Feed(old(client), |old(client)|, cfg.handlers);
        match d.result
        case Going =>
          && HeaderRead(old(client), io, rc)
          && if r.status == Dead then Kept() else InHeader()
        case Refused => Stopped() && rc == 0 && client == old(client)
        case SimpleEnd => Stopped() && rc == (if accepted then 1 else 0) && client == old(client)
        case Ended =>
          && Stopped() && client == old(client)
          && if accepted && cfg.isPost(d.lines) then PostStarted(d.lines, rc) else rc == (if accepted then 1 else 0)
      ensures forall i | r.parsePos <= i < |old(client)| :: stream[i] == old(stream[i])
    {
      var g, result := ParseBuffered(stream, r, cfg.handlers, client);
      r := g;
      hide Feed, Synced, Unparsed;
      if result == Going {
        rc := Refill(io);
      } else {
        rc := if result != Refused && accepted then 1 else 0;
        if result == Ended && accepted && cfg.isPost(r.lines) {
          rc := StartPost();
        }
      }
    }

    /** The requests of a connection, as long as none was given up, are the blocks of its bytes,
        whatever the reads were. */
    lemma Pipelined()
      requires (InHeader() || Kept()) && NoneGivenUp(before)
      ensures Blocks(Connection(), cfg.handlers) == before + Blocks(client, cfg.handlers)
    {
      BlocksAfter(before, client, Connection(), cfg.handlers);
    }

    /** What a read for more of the header does. */
    ghost predicate HeaderRead(was: string, io: Io, rc: int)
      reads this
    {
      if |was| >= CLIENT_STREAM_SIZE then client == was && rc == 0 && r.status == Dead
      else
        && r.status != Dead
        && match io
           case Bytes(s) =>
             client == was + s[..Min(|s|, CLIENT_STREAM_SIZE - |was|)] && rc == if s == "" then 0 else 1
           case WouldBlock => client == was && rc == -1
           case Interrupted => client == was && rc == 1
           case Failed => client == was && rc == 0
    }

    ghost predicate PostStarted(lines: seq<string>, rc: int)
      reads this, stream, buffer
    {
      match PostLength(cfg, lines)
      case None => rc == 0
      case Some(n) =>
        rc == 1 && file == "" && (received == "" ==> Relaying() && b.filesize == n)
    }

    method Append(got: string)
      requires InHeader() && r.parsePos == r.streamPos && r.streamPos + |got| <= CLIENT_STREAM_SIZE
      modifies this`r, this`client, stream
      ensures InHeader() && client == old(client) + got && r == old(r).(streamPos := |client|)
      ensures forall i | 0 <= i < |old(client)| :: stream[i] == old(stream[i])
    {
      ghost var s := stream[..];
      SyncedSizes(s, r, client, cfg.handlers);
      hide Feed, AllDelimited, Synced;
      Store(stream, r.streamPos, got);
      assert stream[..][r.streamPos..r.streamPos + |got|] == got;
      SyncedMore(s, stream[..], r, client, got, cfg.handlers);
      client := client + got;
      r := r.(streamPos := r.streamPos + |got|);
    }

    /** The rest of `read_header`, when the buffered bytes are used up. */
    method Refill(io: Io) returns (rc: int)
      requires InHeader() && r.parsePos == r.streamPos
      modifies this`r, this`client, stream
      ensures HeaderRead(old(client), io, rc)
      ensures if r.status == Dead then Kept() else InHeader()
      ensures r.parsePos == old(r.parsePos) && forall i | 0 <= i < |old(client)| :: stream[i] == old(stream[i])
    {
      var bufBytesLeft := CLIENT_STREAM_SIZE - r.streamPos;
      if bufBytesLeft < 1 {
        r := r.(status := Dead);
        return 0;
      }
      match io {
        case Bytes(s) =>
          var got := s[..Min(|s|, bufBytesLeft)];
          Append(got);
          rc := if got == "" then 0 else 1;
        case WouldBlock => rc := -1;
        case Interrupted => rc := 1;
        case Failed => rc := 0;
      }
    }

    /** The end of `read_header` for a POST. */
    method StartPost() returns (rc: int)
      requires Stopped()
      modifies this`r, this`b, this`file
      ensures Stopped() && r == old(r).(status := BodyWrite) && PostStarted(r.lines, rc)
    {
      file := "";
      b := Body(false, r.parsePos, r.streamPos, 0, 0);
      r := r.(status := BodyWrite);
      var n := PostLength(cfg, r.lines);
      if n.None? {
        return 0;
      }
      b := b.(filesize := n.value);
      if b.headerEnd - b.headerLine > b.filesize {
        b := b.(headerEnd := b.headerLine + b.filesize);
      }
      SlicesAgree(stream[..], client, r.parsePos, r.parsePos, b.headerEnd);
      rc := 1;
    }

    /** `write_body`: 0 to close, 1 to stay ready, -1 to wait, or on to the CGI program. */
    method WriteBody(io: Written) returns (rc: int, initCgi: bool)
      requires Relaying() && r.status == BodyWrite
      modifies this`r, this`b, this`file
      ensures Relaying() && client == old(client)
      ensures initCgi <==> old(b.headerEnd == b.headerLine && |file| == b.filesize)
      ensures initCgi ==> b.filesize <= |Arrived()| && file == Arrived()[..b.filesize]
      ensures b.filesize == old(b.filesize)
      ensures
        var held := old(Held());
        if held == "" then rc == 1 && file == old(file) && (!initCgi ==> r.status == Parsing(BodyRead))
        else
          && r == old(r)
          && match io
             case Wrote(n) => rc == 1 && file == old(file) + held[..Min(n, |held|)]
             case Blocked => rc == -1 && file == old(file)
             case Intr => rc == 1 && file == old(file)
             case Error => rc == 0 && file == old(file)
    {
      initCgi := false;
      hide Feed, AllDelimited, Synced;
      ghost var held := Held();
      assert held == "" ==> file + held == file;
      var bytesToWrite := b.headerEnd - b.headerLine;
      if b.filepos + bytesToWrite > b.filesize {
        bytesToWrite := b.filesize - b.filepos;
      }
      if bytesToWrite == 0 {
        b := b.(inBuffer := true, headerLine := 0, headerEnd := 0);
        if b.filepos >= b.filesize {
          return 1, true;
        }
        r := r.(status := Parsing(BodyRead));
        return 1, false;
      }
      match io {
        case Wrote(n) =>
          GoesToFile(Min(n, bytesToWrite));
          rc := 1;
        case Blocked => rc := -1;
        case Intr => rc := 1;
        case Error => rc := 0;
      }
    }

    method GoesToFile(n: nat)
      requires Relaying() && r.status == BodyWrite && n <= |Held()|
      modifies this`b, this`file
      ensures Relaying() && file == old(file) + old(Held())[..n] && b.filesize == old(b.filesize)
    {
      hide Feed, AllDelimited, Unparsed, Synced, Relayed;
      ghost var held := Held();
      PieceWritten(r.status, b, held, Arrived(), file, n);
      RelayedCounts(r.status, b, held, Arrived(), file);
      file := file + held[..n];
      b := b.(filepos := b.filepos + n, headerLine := b.headerLine + n);
      assert Held() == held[n..];
    }

    /** `read_body`: 0 to close, 1 to stay ready, -1 to wait. */
    method ReadBody(io: Io) returns (rc: int)
      requires Relaying() && r.status == Parsing(BodyRead)
      modifies this`r, this`b, this`received, buffer
      ensures Relaying() && client == old(client) && file == old(file) && b.filesize == old(b.filesize)
      ensures
        match io
        case Bytes(s) =>
          var n := Min(|s|, Min(b.filesize - |file|, BUFFER_SIZE));
          && received == old(received) + s[..n] && rc == (if s == "" then 0 else 1)
          && (s != "" ==> r.status == BodyWrite && Held() == s[..n] && n > 0)
        case WouldBlock => received == old(received) && rc == -1 && r == old(r)
        case _ => received == old(received) && rc == 0
    {
      ghost var all := Arrived();
      assert Held() == "" && |all| <= b.filesize by {
        assert file + "" == file;
      }
      PieceRead(b, all, file, "");
      hide Feed, AllDelimited, Unparsed;
      var bytesFree := BUFFER_SIZE - (b.headerEnd - b.headerLine);
      var bytesToRead := b.filesize - b.filepos;
      if bytesToRead > bytesFree {
        bytesToRead := bytesFree;
      }
      match io {
        case Bytes(s) =>
          var got := s[..Min(|s|, bytesToRead)];
          if got == "" {
            return 0;
          }
          Store(buffer, b.headerEnd, got);
          PieceRead(b, all, file, got);
          received := received + got;
          assert Arrived() == all + got;
          b := b.(headerEnd := b.headerEnd + |got|);
          r := r.(status := BodyWrite);
          rc := 1;
        case WouldBlock => rc := -1;
        case Interrupted => rc := 0;
        case Failed => rc := 0;
      }
    }

    /** How many visits the relay takes at most when every read and write gets somewhere: three
        for a byte, and one to start the program. */
    ghost function VisitsLeft(): nat
      reads this, stream, buffer
      requires Relaying()
    {
      3 * (b.filesize - b.filepos) + if r.status != BodyWrite then 1 else if Held() == "" then 2 else 0
    }

    /** A POST body on its way, visit by visit. Whatever the calls answer, the program is only
        started with exactly as many of the client's bytes as it announced; and it is started,
        within the visits left, if no call fails or blocks. */
    method RelayBody(visits: seq<Visit>) returns (started: bool)
      requires Relaying()
      modifies this`r, this`b, this`file, this`received, buffer
      ensures Relaying() && client == old(client) && b.filesize == old(b.filesize)
      ensures started ==> b.filesize <= |Arrived()| && file == Arrived()[..b.filesize]
      ensures Eager(visits) && |visits| >= old(VisitsLeft()) ==> started
    {
      hide Feed, AllDelimited, Unparsed, Relayed;
      var rc, k := 1, 0;
      started := false;
      while k < |visits| && rc != 0 && !started
        invariant Relaying() && client == old(client) && b.filesize == old(b.filesize)
        invariant k <= |visits|
        invariant started ==> b.filesize <= |Arrived()| && file == Arrived()[..b.filesize]
        invariant Eager(visits) ==> rc == 1 && (started || VisitsLeft() + k <= old(VisitsLeft()))
      {
        rc, started := RelayOnce(visits[k]);
        k := k + 1;
      }
      RelayedCounts(r.status, b, Held(), Arrived(), file);
    }

    method RelayOnce(visit: Visit) returns (rc: int, started: bool)
      requires Relaying()
      modifies this`r, this`b, this`file, this`received, buffer
      ensures Relaying() && client == old(client) && b.filesize == old(b.filesize)
      ensures started ==> b.filesize <= |Arrived()| && file == Arrived()[..b.filesize]
      ensures Eager([visit]) ==> rc == 1 && (started || VisitsLeft() < old(VisitsLeft()))
    {
      hide Feed, AllDelimited, Unparsed, Synced, Relayed;
      started := false;
      RelayedCounts(r.status, b, Held(), Arrived(), file);
      assert Eager([visit]) ==> [visit][0].read.Bytes? && [visit][0].write.Wrote?;
      if r.status == BodyWrite {
        rc, started := WriteBody(visit.write);
        RelayedCounts(r.status, b, Held(), Arrived(), file);
      } else {
        rc := ReadBody(visit.read);
        RelayedCounts(r.status, b, Held(), Arrived(), file);
      }
    }

    /** The part of `free_request` that keeps the connection: the next request starts with the
        bytes that this one has not parsed. */
    method Reopen() returns (conn: Request)
      requires Kept()
      ensures fresh(conn) && fresh(conn.stream) && conn.InHeader() && conn.cfg == cfg
      ensures conn.client == client[r.parsePos..] && conn.Connection() == Connection()
      ensures conn.r == FRESH.(streamPos := |conn.client|)
      ensures conn.before == before + [Segment(client[..r.parsePos], Feed(client, |client|, cfg.handlers).result)]
    {
      ghost var rest := client[r.parsePos..];
      ghost var after := before + [Segment(client[..r.parsePos], Feed(client, |client|, cfg.handlers).result)];
      CarriedOver(before, client, cfg.handlers);
      assert stream[r.parsePos..r.streamPos] == rest by {
        assert stream[..][r.parsePos..r.streamPos] == rest;
      }
      hide Feed, AllDelimited, Synced, Flatten, Unparsed;
      conn := new Request(cfg);
      var bytesToMove := r.streamPos - r.parsePos;
      if bytesToMove != 0 {
        conn.Append(stream[r.parsePos..r.streamPos]);
      }
      conn.before := after;
    }

    /** A visit that finds nothing to read. The request needs no further input exactly if the
        header machine stops on the bytes it has. */
    method VisitWithoutInput(accepted: bool) returns (rc: int)
      requires InHeader() && |client| < CLIENT_STREAM_SIZE
      modifies this`r, this`b, this`client, this`file, stream
      ensures rc == -1 <==> Feed(old(client), |old(client)|, cfg.handlers).result == Going
      ensures client == old(client) && if rc == -1 then InHeader() else Stopped()
    {
      hide Feed, AllDelimited, Synced, Unparsed;
      rc := ReadHeader(WouldBlock, accepted);
    }
  }

  /** Two headers in one segment: the first is served, and the record for the second holds all of
      it, complete and unparsed, when `free_request` puts it on the blocked list. */
  method TwoInOneSegment(cfg: Config, first: Segment, second: Segment, accepted: bool) returns (conn: Request)
    requires Delimited(first, cfg.handlers) && first.result != Going
    requires Delimited(second, cfg.handlers) && second.result != Going
    requires |first.text| + |second.text| <= CLIENT_STREAM_SIZE
    ensures conn.InHeader() && conn.cfg == cfg && conn.client == second.text
    ensures conn.r == FRESH.(streamPos := |second.text|)
    ensures Feed(conn.client, |conn.client|, cfg.handlers).result == second.result
  {
    var c := first.text + second.text;
    FirstStops(first, second, cfg.handlers);
    hide Feed, AllDelimited, Synced, Unparsed, Delimited;
    var req := new Request(cfg);
    Nothing(cfg.handlers);
    var _ := req.ReadHeader(Bytes(c), accepted);
    assert req.client == c by {
      assert c[..|c|] == c && "" + c == c;
    }
    var _ := req.ReadHeader(WouldBlock, accepted);
    conn := req.Reopen();
  }

  lemma Nothing(h: Handlers)
    ensures Feed("", 0, h).result == Going
  {}

  lemma FirstStops(first: Segment, second: Segment, h: Handlers)
    requires Delimited(first, h) && first.result != Going && Delimited(second, h)
    ensures
      var c := first.text + second.text;
      var d := Feed(c, |c|, h);
      d.pos == |first.text| && d.result == first.result && c[d.pos..] == second.text
    ensures Feed(second.text, |second.text|, h).result == second.result && first.text != ""
  {
    var c := first.text + second.text;
    FeedPrefix(first.text, second.text, |first.text|, h);
    FeedStays(c, |first.text|, |c|, h);
  }

  /** The shortest such input. */
  lemma ShortHeader(h: Handlers)
    requires h.logLine("x") == Full
    ensures Delimited(Segment("x\n\n", Ended), h)
  {
    var c := "x\n\n";
    assert c[0..1] == "x";
    assert Feed(c, 1, h) == START.(pos := 1);
    assert Feed(c, 2, h) == Dfa(OneLf, 2, 2, 1, ["x"], Going);
    assert Feed(c, 3, h) == Dfa(BodyRead, 3, 2, 1, ["x"], Ended);
  }

  method TwoShortRequests(cfg: Config, accepted: bool) returns (conn: Request)
    requires cfg.handlers.logLine("x") == Full
    ensures conn.InHeader() && conn.client == "x\n\n" && conn.r == FRESH.(streamPos := 3)
    ensures Feed(conn.client, 3, cfg.handlers).result == Ended
  {
    hide Feed, Delimited;
    ShortHeader(cfg.handlers);
    conn := TwoInOneSegment(cfg, Segment("x\n\n", Ended), Segment("x\n\n", Ended), accepted);
  }
}
