/** The relay as Boa does it: one buffer of BUFFER_SIZE bytes and the offsets into it
    (boa-0.94.13/src/pipe.c, cgi_header.c, buffer.c, request.c).
 */
module PipeRelay {
  import opened Text
  import opened Header
  import opened Buffers
  import opened RelaySpec

  datatype Regs = Regs(
    status: Status, cgi: CgiStatus,
    bufferStart: nat, bufferEnd: nat,     // response bytes to flush
    headerLine: nat, headerEnd: nat,      // pipe bytes to write
    filepos: nat)

  /** What happened outside the server. */
  datatype Log = Log(sent: string, piped: string, diverted: bool)

  lemma Split(s: string, from: nat, to: nat, m: nat)
    requires from + m <= to <= |s|
    ensures s[from..to][..m] == s[from..from + m] && s[from..to][m..] == s[from + m..to]
  {}

  class Request {
    const buffer: array<char>
    const cfg: Config
    var r: Regs
    ghost var log: Log

    ghost predicate Layout()
      reads this
    {
      && buffer.Length == BUFFER_SIZE + 1 && GoodConfig(cfg)
      && r.bufferStart <= r.bufferEnd <= BUFFER_SIZE && r.headerLine <= r.headerEnd <= BUFFER_SIZE
    }

    ghost predicate Valid()
      reads this, buffer
    {
      Layout() && Inv(Abs(), cfg)
    }

    /** The machine state that the buffer stands for. */
    ghost function Abs(): Relay
      reads this, buffer
      requires r.bufferStart <= r.bufferEnd <= buffer.Length && r.headerLine <= r.headerEnd <= buffer.Length
    {
      Relay(r.status, r.cgi, r.bufferStart, buffer[r.bufferStart..r.bufferEnd],
            r.headerLine, if log.diverted then "" else buffer[r.headerLine..r.headerEnd],
            log.diverted, log.sent, log.piped)
    }

    /** `init_cgi`, after `before` has been buffered. */
    constructor (cfg: Config)
      requires GoodConfig(cfg) && (cfg.parses ==> cfg.before == "")
      ensures Valid() && Abs() == Init(cfg) && this.cfg == cfg && fresh(buffer)
    {
      this.cfg := cfg;
      buffer := new char[BUFFER_SIZE + 1];
      var line := if cfg.parses then HALF else 0;
      r := Regs(PipeRead, if cfg.parses then Parse else Buffer, 0, |cfg.before|, line, line, 0);
      log := Log("", "", false);
      new;
      Store(buffer, 0, cfg.before);
      InitKeeps(cfg);
    }

    /** `req_flush`. */
    method Flush(w: WriteResult) returns (retval: int)
      requires Layout()
      modifies `r, `log
      ensures Layout() && (retval, Abs()) == old(RelaySpec.Flush(Abs(), w))
    {
      if r.status == Dead {
        return -2;
      }
      var bytesToWrite := r.bufferEnd - r.bufferStart;
      if bytesToWrite > 0 {
        if w.WriteBlocked? {
          return -1;
        }
        if !w.Wrote? {
          r := r.(status := Dead, bufferStart := 0, bufferEnd := 0);
          return -2;
        }
        Written(Min(w.count, bytesToWrite));
      }
      if r.bufferStart == r.bufferEnd {
        assert Abs().queued == "" && buffer[0..0] == "";
        r := r.(bufferStart := 0, bufferEnd := 0);
      }
      retval := r.bufferEnd;
    }

    method Written(written: nat)
      requires Layout() && r.bufferStart + written <= r.bufferEnd
      modifies `r, `log
      ensures Layout() && (r.bufferStart == r.bufferEnd <==> Abs().queued == "")
      ensures
        var s := old(Abs());
        Abs() == s.(start := s.start + written, queued := s.queued[written..], sent := s.sent + s.queued[..written])
    {
      Split(buffer[..], r.bufferStart, r.bufferEnd, written);
      log := log.(sent := log.sent + buffer[r.bufferStart..r.bufferStart + written]);
      r := r.(bufferStart := r.bufferStart + written);
    }

    /** `write_from_pipe`. */
    method WriteFromPipe(w: WriteResult) returns (retval: int)
      requires Layout() && r.status == PipeWrite && r.bufferEnd == 0 && !log.diverted
      modifies `r, `log
      ensures Layout() && (retval, Abs()) == old(RelaySpec.WriteFromPipe(Abs(), w))
    {
      var bytesToWrite := r.headerEnd - r.headerLine;
      if bytesToWrite == 0 {
        if r.cgi == Finished {
          return 0;
        }
        r := r.(status := PipeRead, headerEnd := 0, headerLine := 0);
        return 1;
      }
      match w
      case WriteBlocked => return -1;
      case WriteInterrupted => return 1;
      case WriteFailed =>
        r := r.(status := Dead);
        return 0;
      case Wrote(n) =>
        HeldWritten(Min(n, bytesToWrite));
        retval := 1;
    }

    method HeldWritten(written: nat)
      requires Layout() && r.headerLine + written <= r.headerEnd && !log.diverted
      modifies `r, `log
      ensures Layout()
      ensures
        var s := old(Abs());
        Abs() == s.(line := s.line + written, held := s.held[written..], sent := s.sent + s.held[..written])
    {
      Split(buffer[..], r.headerLine, r.headerEnd, written);
      log := log.(sent := log.sent + buffer[r.headerLine..r.headerLine + written]);
      r := r.(headerLine := r.headerLine + written, filepos := r.filepos + written);
    }

    /** A `send_r_` routine that replaces the program's output, up to its flush. */
    method Reply(w: WriteResult)
      requires Layout() && r.bufferStart == r.bufferEnd == 0
      modifies `r, `log, buffer
      ensures Layout() && Abs() == old(Divert(Abs(), cfg, w))
    {
      hide RelaySpec.Flush;
      Store(buffer, 0, cfg.reply);
      r := r.(bufferEnd := |cfg.reply|);
      log := log.(diverted := true);
      var _ := Flush(w);
    }

    /** `process_cgi_header`. */
    method ProcessCgiHeader(w: WriteResult) returns (retval: int)
      requires Layout() && r.bufferStart == r.bufferEnd == 0 && !log.diverted && r.headerLine == HALF
      requires r.cgi != Parse && buffer[r.headerEnd] == NUL
      modifies `r, `log, buffer
      ensures Layout() && (retval, Abs()) == old(ProcessHeader(Abs(), cfg, w))
    {
      hide Classify, RelaySpec.Flush, ProcessHeader, HeaderQueue, Divert, CString, First;
      HeaderCases(Abs(), cfg, w);
      var kind := Classify(buffer[r.headerLine..r.headerEnd]);  // strstr and strncasecmp
      match kind
      case Unfinished =>
        Reply(w);
        retval := 0;
      case StatusLine =>
        PutStatus();
        retval := 1;
      case Redirect =>
        Reply(w);
        r := r.(status := Done);
        retval := 1;
      case Plain =>
        MergeAndFlush(w);
        retval := 1;
    }

    method MergeAndFlush(w: WriteResult)
      requires Layout() && r.bufferStart == r.bufferEnd == 0 && !log.diverted && r.headerLine == HALF
      modifies `r, `log, buffer
      ensures Layout()
      ensures
        var s := old(Abs());
        var queued := s.queued + cfg.okHeader + s.held;
        Abs() == RelaySpec.Flush(s.(queued := queued, line := s.start + |queued|, held := ""), w).1
    {
      hide RelaySpec.Flush;
      Merge();
      var _ := Flush(w);
    }

    /** `HTTP/1.0 ` takes the place of `Status: `, one byte longer. */
    method PutStatus()
      requires Layout() && r.bufferStart == r.bufferEnd == 0 && !log.diverted && r.headerLine == HALF
      requires r.headerEnd - r.headerLine >= 8
      modifies `r, buffer
      ensures Layout()
      ensures var s := old(Abs()); Abs() == s.(line := s.line - 1, held := "HTTP/1.0 " + s.held[8..])
    {
      ghost var held := buffer[r.headerLine..r.headerEnd];
      r := r.(headerLine := r.headerLine - 1);
      Store(buffer, r.headerLine, "HTTP/1.0 ");
      assert buffer[r.headerLine + 9..r.headerEnd] == held[8..];
      assert buffer[r.headerLine..r.headerEnd] == "HTTP/1.0 " + held[8..];
    }

    /** The response header goes into the lower half, and the program's output is moved down to
        touch it. The `Too much data to move` exit cannot be taken. */
    method Merge()
      requires Layout() && r.bufferStart == r.bufferEnd == 0 && !log.diverted && r.headerLine == HALF
      modifies `r, buffer
      ensures Layout()
      ensures
        var s := old(Abs());
        var queued := s.queued + cfg.okHeader + s.held;
        Abs() == s.(queued := queued, line := s.start + |queued|, held := "")
    {
      ghost var held := buffer[r.headerLine..r.headerEnd];
      Store(buffer, 0, cfg.okHeader);
      assert buffer[r.headerLine..r.headerEnd] == held;
      var dest := |cfg.okHeader|;
      var howmuch := r.headerEnd - r.headerLine;
      if dest + howmuch > BUFFER_SIZE {
        assert false;
      }
      Store(buffer, dest, buffer[r.headerLine..r.headerEnd]);  // memmove
      assert buffer[0..dest] == cfg.okHeader && buffer[dest..dest + howmuch] == held;
      r := r.(bufferEnd := dest + howmuch, headerLine := dest + howmuch, headerEnd := dest + howmuch);
      assert buffer[0..dest + howmuch] == cfg.okHeader + held;
      assert "" + cfg.okHeader == cfg.okHeader;
    }

    /** `read_from_pipe`. */
    method ReadFromPipe(io: Io) returns (retval: int)
      requires Layout() && r.status == PipeRead && r.bufferStart == r.bufferEnd == 0 && !log.diverted
      requires r.cgi == Parse ==> r.headerLine == HALF
      modifies `r, `log, buffer
      ensures Layout() && (retval, Abs()) == old(RelaySpec.ReadFromPipe(Abs(), cfg, io))
    {
      hide ProcessHeader;
      var bytesToRead := BUFFER_SIZE - r.headerEnd;
      if bytesToRead == 0 {
        if r.cgi == Parse {
          r := r.(cgi := Buffer);
          buffer[r.headerEnd] := NUL;
          retval := ProcessCgiHeader(io.write);
          return;
        }
        r := r.(status := PipeWrite);
        return 1;
      }
      match io.read
      case ReadInterrupted => return 1;
      case ReadBlocked => return -1;
      case ReadFailed =>
        r := r.(status := Dead);
        return 0;
      case Data(bytes) =>
        if |bytes| == 0 {
          var parsing := r.cgi == Parse;
          r := r.(status := PipeWrite, cgi := Finished);
          if parsing {
            buffer[r.headerEnd] := NUL;
            retval := ProcessCgiHeader(io.write);
            return;
          }
          return 1;
        }
        TakeIn(bytes[..Min(|bytes|, bytesToRead)]);
        retval := 1;
    }

    /** The bytes go behind those that are held. */
    method TakeIn(got: string)
      requires Layout() && r.bufferStart == r.bufferEnd == 0 && !log.diverted && r.headerEnd + |got| <= BUFFER_SIZE
      modifies `r, `log, buffer
      ensures Layout()
      ensures var s := old(Abs()); Abs() == s.(held := s.held + got, piped := s.piped + got)
    {
      ghost var held := buffer[r.headerLine..r.headerEnd];
      Store(buffer, r.headerEnd, got);
      assert buffer[r.headerLine..r.headerEnd + |got|] == held + got;
      log := log.(piped := log.piped + got);
      r := r.(headerEnd := r.headerEnd + |got|);
    }

    /** The visit by `process_requests`. Output that waits in the buffer is always flushed
        before a handler may reuse the buffer. */
    method Visit(io: Io) returns (gone: bool)
      requires Valid()
      modifies `r, `log, buffer
      ensures Layout() && (Abs(), gone) == old(Step(Abs(), cfg, io))
      ensures if gone then Ended(Abs(), cfg) else Valid()
    {
      StepKeeps(Abs(), cfg, io);
      VisitKeeps(Abs(), cfg, io);
      hide RelaySpec.Visit;
      var retval := Handle(io);
      if retval != 0 {
        return false;
      }
      if r.bufferEnd != 0 && r.status != Dead {
        r := r.(status := Done);
        return false;
      }
      gone := true;
    }

    method Handle(io: Io) returns (retval: int)
      requires Valid()
      modifies `r, `log, buffer
      ensures Layout() && (retval, Abs()) == old(RelaySpec.Visit(Abs(), cfg, io))
    {
      assert (r.bufferEnd != 0) == (Abs().queued != "");
      hide Conserved, RelaySpec.Flush, RelaySpec.ReadFromPipe, RelaySpec.WriteFromPipe;
      if r.bufferEnd != 0 && r.status != Dead && r.status != Done {
        retval := Flush(io.write);
        retval := if retval == -2 then 0 else if retval >= 0 then 1 else retval;
      } else {
        match r.status
        case PipeRead => retval := ReadFromPipe(io);
        case PipeWrite => retval := WriteFromPipe(io.write);
        case Done =>
          retval := Flush(io.write);
          retval := if retval == -2 then 0 else if retval > 0 then 1 else retval;
        case Dead =>
          r := r.(bufferStart := 0, bufferEnd := 0);
          retval := 0;
      }
    }

    /** A whole life: whatever the calls answer, the client has a beginning of what it ought to
        get, all of it if no call failed where that matters; and the request is dead exactly if
        a failure killed it. */
    method Live(ios: seq<Io>) returns (gone: bool)
      requires Valid()
      modifies `r, `log, buffer
      ensures Layout() && (Abs(), gone) == old(Run(Abs(), cfg, ios))
      ensures if gone then Ended(Abs(), cfg) else Valid()
      ensures log.sent <= Goal(Abs(), cfg)
      ensures Whole(Abs(), cfg) <==> old(Whole(Abs(), cfg) && !LosesSomewhere(Abs(), cfg, ios))
      ensures r.status == Dead <==> old(r.status == Dead || DiesSomewhere(Abs(), cfg, ios))
    {
      hide Run, Goal, Whole, LosesSomewhere, DiesSomewhere, Conserved, Step, InHand;
      RunConserves(Abs(), cfg, ios);
      InvBegins(Run(Abs(), cfg, ios).0, cfg);
      gone := Repeat(ios);
    }

    method Repeat(ios: seq<Io>) returns (gone: bool)
      requires Valid()
      modifies `r, `log, buffer
      ensures Layout() && (Abs(), gone) == old(Run(Abs(), cfg, ios))
    {
      hide Step, Inv, Ended;
      gone := false;
      var k := 0;
      while k < |ios| && !gone
        invariant k <= |ios| && Layout() && (gone || Valid())
        invariant old(Run(Abs(), cfg, ios)) == if gone then (Abs(), true) else Run(Abs(), cfg, ios[k..])
      {
        assert ios[k..][0] == ios[k] && ios[k..][1..] == ios[k + 1..];
        gone := Visit(ios[k]);
        k := k + 1;
      }
    }
  }
}
