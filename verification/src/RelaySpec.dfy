/** The relay of a CGI program's output to the client (boa-0.94.13/src/pipe.c, cgi_header.c,
    the flushing in buffer.c and its place in request.c), as a machine on sequences, and what
    it conserves.
 */
module RelaySpec {
  import opened Text
  import opened Header
  import opened Buffers

  const HALF: nat := 4096

  datatype Status = PipeRead | PipeWrite | Done | Dead
  datatype CgiStatus = Parse | Buffer | Finished

  /** What one system call may answer: some bytes (none at the end of the pipe), how many were
      taken, or an error. */
  datatype ReadResult = Data(bytes: string) | ReadInterrupted | ReadBlocked | ReadFailed
  datatype WriteResult = Wrote(count: nat) | WriteInterrupted | WriteBlocked | WriteFailed
  datatype Io = Io(read: ReadResult, write: WriteResult)

  /** What a request brings along: the response header block of `send_r_request_ok`, the reply
      sent instead of the program's output on an error or a redirection, the bytes buffered
      before the relay started, and whether the program's header is parsed. */
  datatype Config = Config(okHeader: string, reply: string, before: string, parses: bool)

  /** The buffer holds two things: response bytes still to be flushed (`queued`, from
      `buffer_start`) and pipe bytes (`held`, from `header_line`). */
  datatype Relay = Relay(
    status: Status, cgi: CgiStatus,
    start: nat, queued: string,
    line: nat, held: string,
    diverted: bool,      // the reply replaces the program's output
    sent: string,        // what the client has received
    piped: string)       // what the pipe has delivered

  predicate GoodConfig(cfg: Config) {
    |cfg.okHeader| <= HALF && |cfg.reply| <= BUFFER_SIZE && |cfg.before| <= BUFFER_SIZE
  }

  /** `init_cgi`. */
  function Init(cfg: Config): Relay {
    Relay(PipeRead, if cfg.parses then Parse else Buffer, 0, cfg.before,
          if cfg.parses then HALF else 0, "", false, "", "")
  }

  /** `req_flush`: its return value and the new state. */
  function Flush(s: Relay, w: WriteResult): (int, Relay) {
    if s.status == Dead then (-2, s)
    else if s.queued == "" then (0, s.(start := 0))
    else
      match w
      case WriteBlocked => (-1, s)
      case WriteInterrupted => (-2, s.(status := Dead, start := 0, queued := ""))
      case WriteFailed => (-2, s.(status := Dead, start := 0, queued := ""))
      case Wrote(n) =>
        var m := Min(n, |s.queued|);
        var rest := s.queued[m..];
        var start := if rest == "" then 0 else s.start + m;
        (start + |rest|, s.(start := start, queued := rest, sent := s.sent + s.queued[..m]))
  }

  predicate StartsNc(s: string, prefix: string) {
    |prefix| <= |s| && EqNc(s[..|prefix|], prefix)
  }

  predicate HasHeaderEnd(text: string) {
    First("\n\r\n", text).Some? || First("\n\n", text).Some?
  }

  /** A `send_r_` routine in place of the program's output, with the flush that ends it. */
  function Divert(s: Relay, cfg: Config, w: WriteResult): Relay {
    Flush(s.(start := 0, queued := cfg.reply, held := "", diverted := true), w).1
  }

  /** What a program's header calls for. */
  datatype Kind = Unfinished | StatusLine | Redirect | Plain

  function Classify(held: string): (k: Kind)
    ensures k == StatusLine ==> |held| >= 8
  {
    var text := CString(held);
    if !HasHeaderEnd(text) then Unfinished
    else if StartsNc(text, "Status: ") then StatusLine
    else if StartsNc(text, "Location: ") then Redirect
    else Plain
  }

  /** `process_cgi_header`. The error reply leaves the status to the flush; a redirection ends it. */
  function ProcessHeader(s: Relay, cfg: Config, w: WriteResult): (int, Relay) {
    var s1 := if s.cgi != Finished then s.(cgi := Buffer) else s;
    match Classify(s.held)
    case Unfinished => (0, Divert(s1, cfg, w))
    case StatusLine => (1, s1.(line := Max(0, s.line - 1), held := "HTTP/1.0 " + s.held[8..]))
    case Redirect => (1, Divert(s1, cfg, w).(status := Done))
    case Plain =>
      var queued := s.queued + cfg.okHeader + s.held;
      (1, Flush(s1.(queued := queued, line := s.start + |queued|, held := ""), w).1)
  }

  /** `read_from_pipe`. */
  function ReadFromPipe(s: Relay, cfg: Config, io: Io): (int, Relay) {
    var room := BUFFER_SIZE - (s.line + |s.held|);
    if room <= 0 then
      if s.cgi == Parse then ProcessHeader(s.(cgi := Buffer), cfg, io.write) else (1, s.(status := PipeWrite))
    else
      match io.read
      case ReadInterrupted => (1, s)
      case ReadBlocked => (-1, s)
      case ReadFailed => (0, s.(status := Dead))
      case Data(bytes) =>
        if bytes == "" then
          var s1 := s.(status := PipeWrite, cgi := Finished);
          if s.cgi == Parse then ProcessHeader(s1, cfg, io.write) else (1, s1)
        else
          var got := bytes[..Min(|bytes|, room)];
          (1, s.(held := s.held + got, piped := s.piped + got))
  }

  /** `write_from_pipe`. */
  function WriteFromPipe(s: Relay, w: WriteResult): (int, Relay) {
    if s.held == "" then
      if s.cgi == Finished then (0, s) else (1, s.(status := PipeRead, line := 0))
    else
      match w
      case WriteBlocked => (-1, s)
      case WriteInterrupted => (1, s)
      case WriteFailed => (0, s.(status := Dead))
      case Wrote(n) =>
        var m := Min(n, |s.held|);
        (1, s.(line := s.line + m, held := s.held[m..], sent := s.sent + s.held[..m]))
  }

  /** One visit by `process_requests`, with `free_request` deferring while output is queued.
      The flag says that the request is gone. */
  function Step(s: Relay, cfg: Config, io: Io): (Relay, bool) {
    var (retval, s1) := Visit(s, cfg, io);
    if retval != 0 then (s1, false)
    else if s1.queued != "" && s1.status != Dead then (s1.(status := Done), false)
    else (s1, true)
  }

  function Visit(s: Relay, cfg: Config, io: Io): (int, Relay) {
    if s.queued != "" && s.status != Dead && s.status != Done then
      var (r, f) := Flush(s, io.write);
      (if r == -2 then 0 else if r >= 0 then 1 else r, f)
    else
      match s.status
      case PipeRead => ReadFromPipe(s, cfg, io)
      case PipeWrite => WriteFromPipe(s, io.write)
      case Done =>
        var (r, f) := Flush(s, io.write);
        (if r == -2 then 0 else if r > 0 then 1 else r, f)
      case Dead => (0, s.(start := 0, queued := ""))
  }

  function Run(s: Relay, cfg: Config, ios: seq<Io>): (Relay, bool)
    decreases |ios|
  {
    if ios == [] then (s, false)
    else
      var (s1, gone) := Step(s, cfg, ios[0]);
      if gone then (s1, true) else Run(s1, cfg, ios[1..])
  }

  /** What the client ought to see of `piped` once the program's header has been parsed. */
  function Output(cfg: Config, piped: string): string {
    if !cfg.parses then cfg.before + piped
    else if StartsNc(piped, "Status: ") then cfg.before + "HTTP/1.0 " + piped[8..]
    else cfg.before + cfg.okHeader + piped
  }

  /** The two halves fit in the buffer, and never both matter at once. */
  predicate Fits(s: Relay) {
    && s.start + |s.queued| <= BUFFER_SIZE && s.line + |s.held| <= BUFFER_SIZE
    && (s.queued == "" ==> s.start == 0)
    && (s.queued == "" || s.held == "")
  }

  /** The program's header is what comes before the upper half is full, or the pipe at its end. */
  function Head(piped: string): string {
    piped[..Min(|piped|, HALF)]
  }

  /** The server replies itself to a header that does not end, and to a redirection. */
  predicate Diverts(piped: string) {
    Classify(Head(piped)) == Unfinished || Classify(Head(piped)) == Redirect
  }

  /** What the client ought to get, as far as it is decided. */
  function Goal(s: Relay, cfg: Config): string {
    if s.diverted then cfg.before + cfg.reply
    else if s.cgi == Parse then cfg.before
    else Output(cfg, s.piped)
  }

  /** What is still going to be sent. */
  function InHand(s: Relay): string {
    if s.status == Dead then "" else if s.cgi == Parse then s.queued else s.queued + s.held
  }

  /** The program's output, from before its header was processed, is given up. */
  predicate Dropped(s: Relay) {
    s.status == Dead && s.cgi == Parse && s.held != ""
  }

  /** Nothing of it is lost, repeated or out of order. */
  predicate Whole(s: Relay, cfg: Config) {
    s.sent + InHand(s) == Goal(s, cfg) && !Dropped(s)
  }

  predicate Settled(s: Relay) {
    s.status == Dead || (s.status == Done && s.queued == "")
  }

  /** The invariant of every run: also after a failure the client has a beginning of what it
      ought to get. */
  predicate Inv(s: Relay, cfg: Config) {
    Conserved(s, cfg) && (s.diverted ==> s.status == Done || s.status == Dead)
  }

  predicate Conserved(s: Relay, cfg: Config) {
    Phases(s, cfg) && Fits(s) && s.sent <= Goal(s, cfg) && (Whole(s, cfg) || Settled(s))
  }

  predicate Phases(s: Relay, cfg: Config) {
    && (s.cgi == Parse ==> cfg.parses && (s.status == PipeRead || s.status == Dead) && s.line == HALF)
    && (s.cgi == Parse ==> !s.diverted && s.held == s.piped)
    && (s.cgi == Buffer && cfg.parses ==> |s.piped| >= HALF)
    && (s.status == PipeRead && !s.diverted ==> s.cgi != Finished)
    && (s.status == Done ==> s.diverted)
    && (s.diverted ==> s.held == "" && cfg.parses)
    && (cfg.parses && s.cgi != Parse ==> (s.diverted <==> Diverts(s.piped)))
  }

  /** A request that has ended has nothing more to send. */
  predicate Ended(s: Relay, cfg: Config) {
    Conserved(s, cfg) && InHand(s) == "" && (s.status == Dead || s.diverted || s.cgi == Finished)
  }

  // ---- What a failing system call does

  /** A write that ends a flush for good. A signal is enough. */
  predicate Cut(w: WriteResult) {
    w.WriteInterrupted? || w.WriteFailed?
  }

  predicate HeaderDue(s: Relay, io: Io) {
    && s.status == PipeRead && s.queued == "" && s.cgi == Parse
    && (s.line + |s.held| >= BUFFER_SIZE || io.read == Data(""))
  }

  /** What the header's processing flushes. */
  function HeaderQueue(s: Relay, cfg: Config): string {
    match Classify(s.held)
    case Unfinished => cfg.reply
    case StatusLine => ""
    case Redirect => cfg.reply
    case Plain => s.queued + cfg.okHeader + s.held
  }

  predicate ReadFails(s: Relay, io: Io) {
    s.status == PipeRead && s.queued == "" && s.line + |s.held| < BUFFER_SIZE && io.read.ReadFailed?
  }

  /** The visit's system call fails for good. */
  predicate Struck(s: Relay, cfg: Config, io: Io) {
    && s.status != Dead
    && (
      || ReadFails(s, io)
      || (s.queued != "" && Cut(io.write))
      || (HeaderDue(s, io) && HeaderQueue(s, cfg) != "" && Cut(io.write))
      || (s.status == PipeWrite && s.queued == "" && s.held != "" && io.write.WriteFailed?))
  }

  /** It costs the client something, unless it was a read with nothing in hand. */
  predicate Loses(s: Relay, cfg: Config, io: Io) {
    Struck(s, cfg, io) && (ReadFails(s, io) ==> s.held != "")
  }

  /** It kills the request, unless a redirection then sets the status again. */
  predicate Dies(s: Relay, cfg: Config, io: Io) {
    Struck(s, cfg, io) && !(HeaderDue(s, io) && Classify(s.held) == Redirect)
  }

  /** What one visit does to the response, and whether it kills the request. */
  predicate Kept(s: Relay, t: Relay, cfg: Config, io: Io) {
    && (Whole(t, cfg) <==> Whole(s, cfg) && !Loses(s, cfg, io))
    && (t.status == Dead <==> s.status == Dead || Dies(s, cfg, io))
  }

  lemma InitKeeps(cfg: Config)
    requires GoodConfig(cfg) && (cfg.parses ==> cfg.before == "")
    ensures Inv(Init(cfg), cfg) && Whole(Init(cfg), cfg)
  {
    assert "" + cfg.before == cfg.before && cfg.before + "" == cfg.before;
  }

  lemma Moved(sent: string, from: string, m: nat, later: string)
    requires m <= |from|
    ensures (sent + from[..m]) + (from[m..] + later) == sent + (from + later)
    ensures sent + from[..m] <= sent + (from + later)
  {}

  lemma Begins(sent: string, rest: string)
    ensures sent <= sent + rest && (sent == sent + rest <==> rest == "")
  {}

  /** A flush in itself: it sends from the front of the queue, or drops it. */
  lemma FlushMoves(s: Relay, cfg: Config, w: WriteResult)
    requires Fits(s) && s.status != Dead && (s.cgi == Parse ==> !s.diverted)
    requires Whole(s, cfg)
    ensures
      var t := Flush(s, w).1;
      && Fits(t) && t == s.(status := t.status, start := t.start, queued := t.queued, sent := t.sent)
      && (t.status == if s.queued != "" && Cut(w) then Dead else s.status)
      && (s.queued != "" && Cut(w) ==> t.queued == "")
      && t.sent <= Goal(s, cfg)
      && (Whole(t, cfg) <==> !(s.queued != "" && Cut(w)))
  {
    hide Output;
    Begins(s.sent, InHand(s));
    if s.queued != "" {
      match w
      case Wrote(n) =>
        var m := Min(n, |s.queued|);
        Moved(s.sent, s.queued, m, if s.cgi == Parse then "" else s.held);
        NoMore(s.queued); NoMore(s.queued[m..]);
      case _ =>
        NoMore(s.sent);
    }
  }

  lemma NoMore(s: string)
    ensures s + "" == s && "" + s == s
  {}

  lemma FlushKeeps(s: Relay, cfg: Config, w: WriteResult)
    requires Conserved(s, cfg) && s.status != Dead
    ensures
      var t := Flush(s, w).1;
      && Conserved(t, cfg)
      && (Whole(t, cfg) <==> Whole(s, cfg) && !(s.queued != "" && Cut(w)))
      && (t.status == if s.queued != "" && Cut(w) then Dead else s.status)
  {
    hide Output, Diverts;
    if Whole(s, cfg) {
      FlushMoves(s, cfg, w);
    }
  }

  lemma WriteKeeps(s: Relay, cfg: Config, w: WriteResult)
    requires Conserved(s, cfg) && s.status == PipeWrite && s.queued == ""
    ensures
      var t := WriteFromPipe(s, w).1;
      && Conserved(t, cfg)
      && (Whole(t, cfg) <==> !(s.held != "" && w.WriteFailed?))
      && (t.status == Dead <==> s.held != "" && w.WriteFailed?)
  {
    hide Output, Diverts;
    NoMore(s.held);
    NoMore(s.sent);
    Begins(s.sent, s.held);
    if w.Wrote? {
      var m := Min(w.count, |s.held|);
      Moved(s.sent, s.held, m, "");
      NoMore(s.held[m..]);
    }
  }

  /** The `Status: ` line of the text is the one of the data, even when a NUL follows. */
  lemma StartOfText(held: string, prefix: string)
    requires NUL !in prefix
    ensures StartsNc(CString(held), prefix) == StartsNc(held, prefix)
  {
    var text := CString(held);
    if |prefix| <= |text| {
      assert text[..|prefix|] == held[..|prefix|];
    } else if |prefix| <= |held| {
      assert held[..|prefix|][|text|] == NUL && prefix[|text|] != NUL;
      assert !SameNc(NUL, prefix[|text|]);
    }
  }

  /** When the program's header is processed. */
  predicate AtHeader(s: Relay, cfg: Config) {
    && GoodConfig(cfg) && cfg.parses && Fits(s) && s.line == HALF && s.queued == "" && !s.diverted
    && ((s.status == PipeRead && s.cgi == Buffer && |s.held| >= HALF) || (s.status == PipeWrite && s.cgi == Finished))
    && s.sent == cfg.before && s.held == s.piped
  }

  lemma HeaderKeeps(s: Relay, cfg: Config, w: WriteResult)
    requires AtHeader(s, cfg)
    ensures
      var t := ProcessHeader(s, cfg, w).1;
      var cut := HeaderQueue(s, cfg) != "" && Cut(w);
      && Conserved(t, cfg)
      && (Whole(t, cfg) <==> !cut)
      && (t.status == Dead <==> cut && Classify(s.held) != Redirect)
  {
    hide Classify, Output, Flush, Conserved, Whole, ProcessHeader, HeaderQueue, AtHeader, Divert, Diverts;
    AtHeaderHas(s, cfg);
    HeaderCases(s, cfg, w);
    KindOutput(cfg, s.held);
    DivertsByKind(s);
    match Classify(s.held)
    case Unfinished => ReplyKeeps(s, cfg, w);
    case StatusLine => StatusHeader(s, cfg);
    case Redirect => ReplyKeeps(s, cfg, w);
    case Plain => OkHeader(s, cfg, w);
  }

  lemma AtHeaderHas(s: Relay, cfg: Config)
    requires AtHeader(s, cfg)
    ensures cfg.parses && Fits(s) && s.line == HALF && s.held == s.piped && s.cgi != Parse && s.status != Dead
  {}

  lemma HeaderCases(s: Relay, cfg: Config, w: WriteResult)
    requires s.cgi != Parse && s.line == HALF
    ensures
      var (retval, t) := ProcessHeader(s, cfg, w);
      var queue := HeaderQueue(s, cfg);
      match Classify(s.held)
      case Unfinished => retval == 0 && t == Divert(s, cfg, w) && queue == cfg.reply
      case StatusLine =>
        retval == 1 && |s.held| >= 8 && t == s.(line := s.line - 1, held := "HTTP/1.0 " + s.held[8..]) && queue == ""
      case Redirect => retval == 1 && t == Divert(s, cfg, w).(status := Done) && queue == cfg.reply
      case Plain =>
        && retval == 1 && queue == s.queued + cfg.okHeader + s.held
        && t == Flush(s.(queued := queue, line := s.start + |queue|, held := ""), w).1
  {
    hide Classify, Flush;
  }

  lemma DivertsByKind(s: Relay)
    requires Fits(s) && s.line == HALF && s.held == s.piped
    ensures Diverts(s.piped) <==> Classify(s.held) == Unfinished || Classify(s.held) == Redirect
  {
    assert Head(s.piped) == s.held;
  }

  lemma KindOutput(cfg: Config, held: string)
    requires cfg.parses
    ensures Classify(held) == StatusLine ==> Output(cfg, held) == cfg.before + "HTTP/1.0 " + held[8..]
    ensures Classify(held) == Plain ==> Output(cfg, held) == cfg.before + cfg.okHeader + held
  {
    StartOfText(held, "Status: ");
  }

  lemma ReplyKeeps(s: Relay, cfg: Config, w: WriteResult)
    requires AtHeader(s, cfg) && Diverts(s.piped)
    ensures
      var t := Divert(s, cfg, w);
      var cut := cfg.reply != "" && Cut(w);
      && Conserved(t, cfg) && t.diverted && Conserved(t.(status := Done), cfg)
      && (Whole(t, cfg) <==> !cut) && (Whole(t.(status := Done), cfg) <==> !cut)
      && (t.status == Dead <==> cut)
  {
    var u := s.(start := 0, queued := cfg.reply, held := "", diverted := true);
    hide Diverts, Flush, Output;
    NoMore(cfg.reply);
    FlushMoves(u, cfg, w);
    NoMore(Flush(u, w).1.queued);
  }

  lemma StatusHeader(s: Relay, cfg: Config)
    requires AtHeader(s, cfg) && !Diverts(s.piped) && |s.held| >= 8
    requires Output(cfg, s.held) == cfg.before + "HTTP/1.0 " + s.held[8..]
    ensures
      var t := s.(line := s.line - 1, held := "HTTP/1.0 " + s.held[8..]);
      Conserved(t, cfg) && Whole(t, cfg)
  {
    hide Output, Diverts;
    var held := "HTTP/1.0 " + s.held[8..];
    NoMore(held);
    Begins(s.sent, held);
    assert s.sent + held == s.sent + "HTTP/1.0 " + s.held[8..];
  }

  lemma OkHeader(s: Relay, cfg: Config, w: WriteResult)
    requires AtHeader(s, cfg) && !Diverts(s.piped)
    requires Output(cfg, s.held) == cfg.before + cfg.okHeader + s.held
    ensures
      var queued := s.queued + cfg.okHeader + s.held;
      var t := Flush(s.(queued := queued, line := s.start + |queued|, held := ""), w).1;
      && Conserved(t, cfg)
      && (Whole(t, cfg) <==> !(queued != "" && Cut(w)))
      && (t.status == Dead <==> queued != "" && Cut(w))
  {
    hide *;
    var queued := s.queued + cfg.okHeader + s.held;
    var u := s.(queued := queued, line := s.start + |queued|, held := "");
    Merged(s, cfg);
    WholeConserved(u, cfg);
    FlushKeeps(u, cfg, w);
  }

  lemma Merged(s: Relay, cfg: Config)
    requires AtHeader(s, cfg) && !Diverts(s.piped)
    requires Output(cfg, s.held) == cfg.before + cfg.okHeader + s.held
    ensures
      var queued := s.queued + cfg.okHeader + s.held;
      var u := s.(queued := queued, line := s.start + |queued|, held := "");
      Phases(u, cfg) && Fits(u) && u.status != Dead && u.sent + InHand(u) == Goal(u, cfg)
  {
    hide Output, Diverts;
    var queued := s.queued + cfg.okHeader + s.held;
    NoMore(queued);
    NoMore(cfg.okHeader);
    Longer(cfg.before, cfg.okHeader, s.held);
  }

  lemma ReadKeeps(s: Relay, cfg: Config, io: Io)
    requires GoodConfig(cfg) && Inv(s, cfg) && s.status == PipeRead && s.queued == ""
    ensures Conserved(ReadFromPipe(s, cfg, io).1, cfg) && Kept(s, ReadFromPipe(s, cfg, io).1, cfg, io)
  {
    hide Output, Diverts, Classify, Flush;
    var room := BUFFER_SIZE - (s.line + |s.held|);
    if s.cgi == Parse {
      if HeaderDue(s, io) {
        HeaderRead(s, cfg, io);
      } else {
        ParseKeeps(s, cfg, io);
      }
    } else if room > 0 && io.read.Data? && io.read.bytes != "" {
      MoreRead(s, cfg, io.read.bytes[..Min(|io.read.bytes|, room)]);
    } else {
      BufferKeeps(s, cfg, io);
    }
  }

  lemma HeaderRead(s: Relay, cfg: Config, io: Io)
    requires GoodConfig(cfg) && Inv(s, cfg) && HeaderDue(s, io)
    ensures Conserved(ReadFromPipe(s, cfg, io).1, cfg) && Kept(s, ReadFromPipe(s, cfg, io).1, cfg, io)
  {
    hide Output, Diverts, Classify, Flush;
    NoMore(s.sent);
    if s.line + |s.held| >= BUFFER_SIZE {
      HeaderKeeps(s.(cgi := Buffer), cfg, io.write);
      hide Conserved, ProcessHeader;
    } else {
      HeaderKeeps(s.(status := PipeWrite, cgi := Finished), cfg, io.write);
      hide Conserved, ProcessHeader;
    }
  }

  lemma ParseKeeps(s: Relay, cfg: Config, io: Io)
    requires GoodConfig(cfg) && Inv(s, cfg) && s.status == PipeRead && s.queued == "" && s.cgi == Parse
    requires !HeaderDue(s, io)
    ensures Conserved(ReadFromPipe(s, cfg, io).1, cfg) && Kept(s, ReadFromPipe(s, cfg, io).1, cfg, io)
  {
    hide Output, Diverts, Classify;
    NoMore(s.sent);
  }

  lemma BufferKeeps(s: Relay, cfg: Config, io: Io)
    requires GoodConfig(cfg) && Inv(s, cfg) && s.status == PipeRead && s.queued == "" && s.cgi != Parse
    requires s.line + |s.held| < BUFFER_SIZE && io.read.Data? ==> io.read.bytes == ""
    ensures Conserved(ReadFromPipe(s, cfg, io).1, cfg) && Kept(s, ReadFromPipe(s, cfg, io).1, cfg, io)
  {
    hide Output, Diverts, Classify;
    NoMore(s.sent);
    NoMore(s.held);
    Begins(s.sent, s.held);
  }

  lemma MoreRead(s: Relay, cfg: Config, got: string)
    requires Conserved(s, cfg) && s.status == PipeRead && s.cgi != Parse && s.queued == "" && !s.diverted
    requires s.line + |s.held| + |got| <= BUFFER_SIZE
    ensures
      var t := s.(held := s.held + got, piped := s.piped + got);
      Conserved(t, cfg) && Whole(t, cfg)
  {
    hide *;
    PipeConserved(s, cfg);
    MorePhases(s, cfg, got);
    MoreInHand(s, cfg, got);
    Longer(s.sent, InHand(s), got);
    WholeConserved(s.(held := s.held + got, piped := s.piped + got), cfg);
  }

  lemma PipeConserved(s: Relay, cfg: Config)
    requires Conserved(s, cfg) && s.status == PipeRead
    ensures Phases(s, cfg) && Fits(s) && s.sent + InHand(s) == Goal(s, cfg)
  {}

  lemma WholeConserved(s: Relay, cfg: Config)
    requires Phases(s, cfg) && Fits(s) && s.status != Dead && s.sent + InHand(s) == Goal(s, cfg)
    ensures Conserved(s, cfg) && Whole(s, cfg)
  {
    hide Phases, Fits, InHand, Goal;
    Begins(s.sent, InHand(s));
  }

  lemma Longer(a: string, b: string, c: string)
    ensures a + (b + c) == a + b + c
  {}

  lemma MoreInHand(s: Relay, cfg: Config, got: string)
    requires Phases(s, cfg) && s.status == PipeRead && s.cgi != Parse && s.queued == "" && !s.diverted
    ensures
      var t := s.(held := s.held + got, piped := s.piped + got);
      InHand(t) == InHand(s) + got && Goal(t, cfg) == Goal(s, cfg) + got
  {
    OutputGrows(cfg, s.piped, got);
    hide Output, Diverts;
    NoMore(s.held);
    NoMore(s.held + got);
  }

  lemma MorePhases(s: Relay, cfg: Config, got: string)
    requires Phases(s, cfg) && Fits(s) && s.status == PipeRead && s.cgi != Parse && s.queued == "" && !s.diverted
    requires s.line + |s.held| + |got| <= BUFFER_SIZE
    ensures
      var t := s.(held := s.held + got, piped := s.piped + got);
      Phases(t, cfg) && Fits(t)
  {
    OutputGrows(cfg, s.piped, got);
    hide Output, Diverts;
  }

  /** More input does not change how its beginning was understood. */
  lemma OutputGrows(cfg: Config, piped: string, more: string)
    requires cfg.parses ==> |piped| >= HALF
    ensures Output(cfg, piped + more) == Output(cfg, piped) + more
    ensures cfg.parses ==> Diverts(piped + more) == Diverts(piped)
  {
    if cfg.parses {
      assert (piped + more)[..8] == piped[..8] && (piped + more)[8..] == piped[8..] + more;
      assert Head(piped + more) == Head(piped);
    }
  }

  /** Every visit keeps the invariant; it loses something, or kills the request, exactly when
      its system call fails for good. */
  lemma StepKeeps(s: Relay, cfg: Config, io: Io)
    requires GoodConfig(cfg) && Inv(s, cfg)
    ensures
      var (t, gone) := Step(s, cfg, io);
      && (if gone then Ended(t, cfg) else Inv(t, cfg))
      && Kept(s, t, cfg, io)
  {
    hide *;
    VisitKeeps(s, cfg, io);
    Disposed(s, cfg, io);
  }

  lemma Disposed(s: Relay, cfg: Config, io: Io)
    requires
      var (retval, t) := Visit(s, cfg, io);
      && Conserved(t, cfg) && Kept(s, t, cfg, io)
      && (retval != 0 ==> Inv(t, cfg))
      && (retval == 0 ==> t.status == Dead || t.diverted || (t.cgi == Finished && t.queued == t.held == ""))
    ensures
      var (t, gone) := Step(s, cfg, io);
      && (if gone then Ended(t, cfg) else Inv(t, cfg))
      && Kept(s, t, cfg, io)
  {
    hide Visit, Struck, Dies, Loses, Classify, Diverts, Output;
    NoMore(Visit(s, cfg, io).1.queued);
  }

  /** A handler that returns 0 has nothing more to send, has failed, or has diverted. */
  lemma VisitKeeps(s: Relay, cfg: Config, io: Io)
    requires GoodConfig(cfg) && Inv(s, cfg)
    ensures
      var (retval, t) := Visit(s, cfg, io);
      && Conserved(t, cfg) && Kept(s, t, cfg, io)
      && (retval != 0 ==> Inv(t, cfg))
      && (retval == 0 ==> t.status == Dead || t.diverted || (t.cgi == Finished && t.queued == t.held == ""))
  {
    hide Output, Diverts, Classify;
    if s.queued != "" && s.status != Dead && s.status != Done {
      FlushKeeps(s, cfg, io.write);
    } else {
      match s.status
      case PipeRead => ReadKeeps(s, cfg, io); ReadStays(s, cfg, io);
      case PipeWrite => WriteKeeps(s, cfg, io.write);
      case Done => FlushKeeps(s, cfg, io.write);
      case Dead =>
    }
  }

  lemma ReadStays(s: Relay, cfg: Config, io: Io)
    requires !s.diverted && s.queued == ""
    ensures
      var (retval, s1) := ReadFromPipe(s, cfg, io);
      if retval == 0 then s1.status == Dead || s1.diverted else s1.diverted ==> s1.status == Done
  {
    hide Classify;
  }

  // ---- Whole runs

  /** Some visit of the run loses something. */
  predicate LosesSomewhere(s: Relay, cfg: Config, ios: seq<Io>)
    decreases |ios|
  {
    ios != [] &&
    (Loses(s, cfg, ios[0]) ||
     var (t, gone) := Step(s, cfg, ios[0]);
     !gone && LosesSomewhere(t, cfg, ios[1..]))
  }

  /** Some visit of the run kills the request. */
  predicate DiesSomewhere(s: Relay, cfg: Config, ios: seq<Io>)
    decreases |ios|
  {
    ios != [] &&
    (Dies(s, cfg, ios[0]) ||
     var (t, gone) := Step(s, cfg, ios[0]);
     !gone && DiesSomewhere(t, cfg, ios[1..]))
  }

  /** Over any run, under any answers of the system calls: the client has a beginning of what it
      ought to get; what was sent and what is in hand make up all of it unless a system call
      failed where that matters; and the request is dead exactly if such a failure killed it. */
  lemma {:induction false} RunConserves(s: Relay, cfg: Config, ios: seq<Io>)
    requires GoodConfig(cfg) && Inv(s, cfg)
    ensures
      var (t, gone) := Run(s, cfg, ios);
      && (if gone then Ended(t, cfg) else Inv(t, cfg))
      && (Whole(t, cfg) <==> Whole(s, cfg) && !LosesSomewhere(s, cfg, ios))
      && (t.status == Dead <==> s.status == Dead || DiesSomewhere(s, cfg, ios))
    decreases |ios|
  {
    hide Step, Loses, Dies, Whole, Inv, Ended;
    if ios != [] {
      StepKeeps(s, cfg, ios[0]);
      var (t, gone) := Step(s, cfg, ios[0]);
      if !gone {
        RunConserves(t, cfg, ios[1..]);
      }
    }
  }

  /** From the start: the client has a beginning of what it ought to get, and nothing is lost
      exactly if no failure cost anything. A request that has ended has then sent all of it, and
      was not given up with part of the program's header read. The reply takes the output's place
      exactly if the header calls for it. */
  lemma RelayConserves(cfg: Config, ios: seq<Io>)
    requires GoodConfig(cfg) && (cfg.parses ==> cfg.before == "")
    ensures
      var (t, gone) := Run(Init(cfg), cfg, ios);
      && t.sent <= Goal(t, cfg)
      && (Whole(t, cfg) <==> !LosesSomewhere(Init(cfg), cfg, ios))
      && (gone ==>
            && InHand(t) == ""
            && (!LosesSomewhere(Init(cfg), cfg, ios) <==>
                  t.sent == Goal(t, cfg) && !(t.cgi == Parse && t.piped != "")))
      && (gone && t.status != Dead && !t.diverted ==> t.cgi == Finished && t.sent == Output(cfg, t.piped))
      && (t.cgi != Parse ==> (t.diverted <==> cfg.parses && Diverts(t.piped)))
  {
    hide *;
    InitKeeps(cfg);
    RunConserves(Init(cfg), cfg, ios);
    Ends(Run(Init(cfg), cfg, ios).0, cfg);
  }

  /** What the invariant says of a request that goes on, and of one that has ended. */
  lemma Ends(t: Relay, cfg: Config)
    ensures Inv(t, cfg) || Ended(t, cfg) ==>
      t.sent <= Goal(t, cfg) && (t.cgi != Parse ==> (t.diverted <==> cfg.parses && Diverts(t.piped)))
    ensures Ended(t, cfg) ==>
      && InHand(t) == "" && (Whole(t, cfg) <==> t.sent == Goal(t, cfg) && !(t.cgi == Parse && t.piped != ""))
      && (t.status != Dead && !t.diverted ==> t.cgi == Finished)
      && (t.status != Dead && !t.diverted && Whole(t, cfg) ==> t.sent == Output(cfg, t.piped))
      && (t.status == Dead || t.diverted || Whole(t, cfg))
  {
    hide Output, Diverts;
    NoMore(t.sent);
  }

  lemma InvBegins(s: Relay, cfg: Config)
    ensures Inv(s, cfg) || Ended(s, cfg) ==> s.sent <= Goal(s, cfg)
  {}

  /** A read that fails before the header was processed costs all that the program has written. */
  lemma FailedReadLoses(cfg: Config, text: string)
    requires GoodConfig(cfg) && cfg.parses && cfg.before == "" && 0 < |text| < HALF
    ensures
      var io := WriteBlocked;
      var (t, gone) := Run(Init(cfg), cfg, [Io(Data(text), io), Io(ReadFailed, io)]);
      gone && t.piped == text && t.sent == "" && !Whole(t, cfg)
  {
    var ios := [Io(Data(text), WriteBlocked), Io(ReadFailed, WriteBlocked)];
    var s := Step(Init(cfg), cfg, ios[0]).0;
    assert text[..|text|] == text && "" + text == text;
    assert s == Init(cfg).(held := text, piped := text);
    assert ios[1..][0] == ios[1] && ios[1..][1..] == [];
    assert Run(Init(cfg), cfg, ios) == Run(s, cfg, ios[1..]) == (s.(status := Dead), true);
  }

  /** No read fails, no write fails, and no signal comes. */
  predicate Calm(ios: seq<Io>) {
    forall i | 0 <= i < |ios| :: !ios[i].read.ReadFailed? && !Cut(ios[i].write)
  }

  lemma {:induction false} CalmLosesNothing(s: Relay, cfg: Config, ios: seq<Io>)
    requires Calm(ios)
    ensures !LosesSomewhere(s, cfg, ios) && !DiesSomewhere(s, cfg, ios)
    decreases |ios|
  {
    if ios != [] {
      hide Step;
      assert !Struck(s, cfg, ios[0]);
      var (t, gone) := Step(s, cfg, ios[0]);
      CalmLosesNothing(t, cfg, ios[1..]);
    }
  }

  /** One signal while the response is flushed is enough to lose it. */
  lemma SignalLoses()
    ensures
      var cfg := Config("", "", "x", false);
      var (t, gone) := Run(Init(cfg), cfg, [Io(ReadBlocked, WriteInterrupted)]);
      gone && t.status == Dead && t.sent == "" && Goal(t, cfg) == "x"
  {
    var cfg, io := Config("", "", "x", false), Io(ReadBlocked, WriteInterrupted);
    var t := Step(Init(cfg), cfg, io).0;
    assert t.piped == "" && "x" + "" == "x";
  }

  /** A client that always takes something. */
  predicate Eager(ios: seq<Io>) {
    forall i | 0 <= i < |ios| :: ios[i].write.Wrote? && ios[i].write.count > 0
  }

  /** Once the pipe is at its end, an eager client gets everything in as many visits as there
      are bytes left, and one more. */
  lemma {:induction false} Drains(s: Relay, cfg: Config, ios: seq<Io>)
    requires GoodConfig(cfg) && Inv(s, cfg) && s.status == PipeWrite && s.cgi == Finished && !s.diverted
    requires Eager(ios) && |ios| > |s.queued| + |s.held|
    ensures
      var (t, gone) := Run(s, cfg, ios);
      gone && t.sent == Output(cfg, t.piped) && t.piped == s.piped
    decreases |s.queued| + |s.held|
  {
    var io := ios[0];
    StepKeeps(s, cfg, io);
    var (t, gone) := Step(s, cfg, io);
    if s.queued == "" && s.held == "" {
      assert gone;
    } else {
      assert !gone && |t.queued| + |t.held| < |s.queued| + |s.held|;
      Drains(t, cfg, ios[1..]);
    }
  }

  /** A visit answers -1, which makes the server wait, exactly if the system call that it makes
      would block: the write of a flush, the read of the pipe, or the write of what is held. */
  lemma BlocksIff(s: Relay, cfg: Config, io: Io)
    requires Inv(s, cfg)
    ensures Visit(s, cfg, io).0 == -1 <==>
      || (s.queued != "" && s.status != Dead && io.write.WriteBlocked?)
      || (s.queued == "" && s.status == PipeRead && s.line + |s.held| < BUFFER_SIZE && io.read.ReadBlocked?)
      || (s.queued == "" && s.status == PipeWrite && s.held != "" && io.write.WriteBlocked?)
    ensures Visit(s, cfg, io).0 == -1 ==> Visit(s, cfg, io).1 == s
  {
    hide Classify, Output, Diverts, Goal, InHand;
  }

  /** A flush that fails for good ends the request at once. */
  lemma CutEnds(s: Relay, cfg: Config, io: Io)
    requires s.queued != "" && s.status != Dead && Cut(io.write)
    ensures Step(s, cfg, io).1
  {
    hide ReadFromPipe, WriteFromPipe;
  }

  /** The server's own reply reaches a client that always takes something in as many visits as it
      has bytes, and one more. */
  lemma {:induction false} ReplyDrains(s: Relay, cfg: Config, ios: seq<Io>)
    requires s.status == Done && Eager(ios) && |ios| > |s.queued|
    ensures
      var (t, gone) := Run(s, cfg, ios);
      gone && t.sent == s.sent + s.queued
    decreases |s.queued|
  {
    hide ReadFromPipe, WriteFromPipe;
    var io := ios[0];
    var (t, gone) := Step(s, cfg, io);
    if s.queued == "" {
      assert gone && s.sent + "" == s.sent;
    } else {
      var m := Min(io.write.count, |s.queued|);
      assert s.sent + s.queued[..m] + s.queued[m..] == s.sent + s.queued;
      if m == |s.queued| {
        assert gone && s.queued[..m] == s.queued;
      } else {
        assert !gone && t.status == Done && t.queued == s.queued[m..];
        ReplyDrains(t, cfg, ios[1..]);
      }
    }
  }

  /** When everything held has been written, the next read has the whole buffer. */
  lemma BufferFree(s: Relay, cfg: Config, w: WriteResult, io: Io)
    requires s.status == PipeWrite && s.held == "" && s.cgi == Buffer
    requires io.read.Data? && 0 < |io.read.bytes| <= BUFFER_SIZE
    ensures
      var (retval, t) := WriteFromPipe(s, w);
      retval == 1 && t.status == PipeRead && ReadFromPipe(t, cfg, io).1.held == io.read.bytes
  {
    var t := WriteFromPipe(s, w).1;
    assert io.read.bytes[..|io.read.bytes|] == io.read.bytes && "" + io.read.bytes == io.read.bytes;
  }

  // ---- What the client sees, on the text alone

  /** At `i` a line ends and the next is empty, all of it before the first NUL. */
  predicate BlankLineAt(s: string, i: nat) {
    && i + 1 < |s| && s[i] == LF
    && (|| (s[i + 1] == LF && NUL !in s[..i + 2])
        || (i + 2 < |s| && s[i + 1] == CR && s[i + 2] == LF && NUL !in s[..i + 3]))
  }

  predicate HasBlankLine(s: string) {
    exists i: nat | i < |s| :: BlankLineAt(s, i)
  }

  predicate StartsAnyCase(s: string, prefix: string) {
    |prefix| <= |s| && SameAnyCase(s[..|prefix|], prefix)
  }

  /** The response to a program that wrote `out`. */
  function Response(cfg: Config, out: string): string {
    var head := out[..Min(|out|, HALF)];
    if !cfg.parses then cfg.before + out
    else if !HasBlankLine(head) then cfg.reply
    else if StartsAnyCase(head, "Status: ") then "HTTP/1.0 " + out[8..]
    else if StartsAnyCase(head, "Location: ") then cfg.reply
    else cfg.okHeader + out
  }

  lemma StartsNcIsAnyCase(s: string, prefix: string)
    ensures StartsNc(s, prefix) <==> StartsAnyCase(s, prefix)
  {
    hide EqNc, SameAnyCase;
    if |prefix| <= |s| {
      EqNcIsSameAnyCase(s[..|prefix|], prefix);
    }
  }

  /** The text before the first NUL, by positions. */
  lemma {:induction false} BeforeNul(s: string, n: nat)
    requires n <= |s|
    ensures n <= |CString(s)| <==> NUL !in s[..n]
  {
    if n > 0 {
      if s[0] != NUL {
        BeforeNul(s[1..], n - 1);
        assert s[..n] == [s[0]] + s[1..][..n - 1];
      } else {
        assert s[..n][0] == NUL;
      }
    }
  }

  lemma OccursBefore(w: string, s: string, i: nat)
    requires i + |w| <= |CString(s)|
    ensures w <= CString(s)[i..] <==> s[i..i + |w|] == w
  {
    assert CString(s)[i..][..|w|] == s[i..i + |w|];
  }

  /** The search for an empty line finds it in either form. */
  lemma HeaderEndIsBlankLine(s: string)
    ensures HasHeaderEnd(CString(s)) <==> HasBlankLine(s)
  {
    hide CString, First;
    var text := CString(s);
    if First("\n\r\n", text).Some? {
      var i := First("\n\r\n", text).value;
      BlankLineThere(s, i, "\n\r\n");
    }
    if First("\n\n", text).Some? {
      var i := First("\n\n", text).value;
      BlankLineThere(s, i, "\n\n");
    }
    if i: nat :| i < |s| && BlankLineAt(s, i) {
      FoundIfThere(s, i);
    }
  }

  lemma BlankLineThere(s: string, i: nat, w: string)
    requires (w == "\n\r\n" || w == "\n\n") && i + |w| <= |CString(s)| && CString(s)[i..][..|w|] == w
    ensures BlankLineAt(s, i)
  {
    hide CString;
    BeforeNul(s, i + |w|);
    assert CString(s)[i..][..|w|] == s[i..i + |w|];
    assert s[i..i + |w|][0] == s[i] && s[i..i + |w|][1] == s[i + 1];
    assert |w| == 3 ==> s[i..i + |w|][2] == s[i + 2];
  }

  lemma FoundIfThere(s: string, i: nat)
    requires i < |s| && BlankLineAt(s, i)
    ensures HasHeaderEnd(CString(s))
  {
    hide CString, First;
    var w := if s[i + 1] == LF && NUL !in s[..i + 2] then "\n\n" else "\n\r\n";
    BeforeNul(s, i + |w|);
    assert s[i..i + |w|] == w;
    OccursBefore(w, s, i);
    FirstComplete(w, CString(s), i);
  }

  /** The kind of a header, by its text. */
  lemma KindByText(held: string)
    ensures Classify(held) == Unfinished <==> !HasBlankLine(held)
    ensures HasBlankLine(held) ==>
      && (Classify(held) == StatusLine <==> StartsAnyCase(held, "Status: "))
      && (Classify(held) == Redirect <==> !StartsAnyCase(held, "Status: ") && StartsAnyCase(held, "Location: "))
  {
    hide HasHeaderEnd, HasBlankLine, CString, StartsAnyCase, StartsNc;
    HeaderEndIsBlankLine(held);
    StartOfText(held, "Status: ");
    StartOfText(held, "Location: ");
    StartsNcIsAnyCase(held, "Status: ");
    StartsNcIsAnyCase(held, "Location: ");
  }

  /** Every run sends a beginning of the response, once the header has been processed; one without
      failures has sent all of it when it ends. */
  lemma RunResponds(cfg: Config, ios: seq<Io>)
    requires GoodConfig(cfg) && (cfg.parses ==> cfg.before == "")
    ensures
      var (t, gone) := Run(Init(cfg), cfg, ios);
      && (t.cgi != Parse ==> t.sent <= Response(cfg, t.piped))
      && (gone && Calm(ios) ==> t.sent == Response(cfg, t.piped))
  {
    hide *;
    InitKeeps(cfg);
    RelayConserves(cfg, ios);
    RunConserves(Init(cfg), cfg, ios);
    var (t, gone) := Run(Init(cfg), cfg, ios);
    if t.cgi != Parse {
      GoalIsResponse(t, cfg);
    }
    if gone && Calm(ios) {
      CalmLosesNothing(Init(cfg), cfg, ios);
      AliveAtFirst(cfg);
      Processed(t, cfg);
    }
  }

  lemma AliveAtFirst(cfg: Config)
    ensures Init(cfg).status != Dead
  {}

  lemma Processed(t: Relay, cfg: Config)
    requires Ended(t, cfg) && t.status != Dead
    ensures t.cgi != Parse
  {}

  lemma GoalIsResponse(t: Relay, cfg: Config)
    requires (cfg.parses ==> cfg.before == "") && t.cgi != Parse
    requires t.diverted <==> cfg.parses && Diverts(t.piped)
    ensures Goal(t, cfg) == Response(cfg, t.piped)
  {
    hide Classify, HasBlankLine, CString;
    var head := Head(t.piped);
    KindByText(head);
    StartsNcIsAnyCase(t.piped, "Status: ");
    if |head| >= 8 {
      assert head[..8] == t.piped[..8];
    }
    assert "" + cfg.reply == cfg.reply && "" + cfg.okHeader == cfg.okHeader && "" + "HTTP/1.0 " == "HTTP/1.0 ";
    hide StartsNc, StartsAnyCase;
  }

  lemma {:induction false} RunAppend(s: Relay, cfg: Config, a: seq<Io>, b: seq<Io>)
    ensures Run(s, cfg, a + b) == if Run(s, cfg, a).1 then Run(s, cfg, a) else Run(Run(s, cfg, a).0, cfg, b)
    decreases |a|
  {
    hide Step;
    if a == [] {
      assert a + b == b;
    } else {
      assert (a + b)[0] == a[0] && (a + b)[1..] == a[1..] + b;
      if !Step(s, cfg, a[0]).1 {
        RunAppend(Step(s, cfg, a[0]).0, cfg, a[1..], b);
      }
    }
  }

  /** And when the pipe has come to its end with a response to send, a client that always takes
      something gets it: every run that goes on long enough ends. */
  lemma PipeAtEndResponds(cfg: Config, a: seq<Io>, b: seq<Io>)
    requires GoodConfig(cfg) && cfg.parses && cfg.before == "" && Calm(a + b) && Eager(b)
    requires
      var (s, gone) := Run(Init(cfg), cfg, a);
      !gone && s.status == PipeWrite && s.cgi == Finished && |b| > |s.queued| + |s.held|
    ensures
      var (t, gone) := Run(Init(cfg), cfg, a + b);
      gone && t.piped == Run(Init(cfg), cfg, a).0.piped && t.sent == Response(cfg, t.piped)
  {
    hide *;
    InitKeeps(cfg);
    RunConserves(Init(cfg), cfg, a);
    RunAppend(Init(cfg), cfg, a, b);
    NotDiverted(Run(Init(cfg), cfg, a).0, cfg);
    Drains(Run(Init(cfg), cfg, a).0, cfg, b);
    RunResponds(cfg, a + b);
  }

  lemma NotDiverted(s: Relay, cfg: Config)
    requires Inv(s, cfg) && s.status == PipeWrite
    ensures !s.diverted
  {}
}
