/** What the telnet daemon's socket-to-pty direction must do (itslib/src/utelnetd.c): hand on
    the bytes without the three-byte IAC commands (RFC 854), and how far its ring does it.
 */
module TelnetSpec {
  import opened Text

  const BUFSIZE: nat := 4000
  const IAC: char := 255 as char

  /** The bytes for the terminal, and an incomplete command at the end. */
  function Strip(s: string): (r: (string, string))
    ensures |r.0| + |r.1| <= |s|
    ensures IAC !in r.0 && |r.1| < 3 && (r.1 != "" ==> r.1[0] == IAC)
  {
    if s == "" then ("", "")
    else if s[0] != IAC then
      var (out, rest) := Strip(s[1..]);
      ([s[0]] + out, rest)
    else if |s| < 3 then ("", s)
    else Strip(s[3..])
  }

  function Out(s: string): string { Strip(s).0 }
  function Left(s: string): string { Strip(s).1 }

  /** Input that arrives in pieces is stripped as if it had come at once. */
  lemma {:induction false} StripAppend(s: string, t: string)
    ensures Out(s + t) == Out(s) + Out(Left(s) + t)
    ensures Left(s + t) == Left(Left(s) + t)
  {
    if s == "" {
      assert s + t == t && "" + t == t && "" + Out(t) == Out(t);
    } else if s[0] != IAC {
      assert (s + t)[1..] == s[1..] + t;
      StripAppend(s[1..], t);
      assert [s[0]] + (Out(s[1..]) + Out(Left(s) + t)) == Out(s) + Out(Left(s) + t);
    } else if |s| >= 3 {
      assert (s + t)[3..] == s[3..] + t && (s + t)[0] == IAC;
      StripAppend(s[3..], t);
    } else {
      assert "" + Out(s + t) == Out(s + t);
    }
  }

  /** Scanning bytes without IAC again changes nothing. */
  lemma {:induction false} StripClean(s: string, t: string)
    requires IAC !in s
    ensures Out(s + t) == s + Out(t) && Left(s + t) == Left(t)
  {
    if s == "" {
      assert s + t == t && s + Out(t) == Out(t);
    } else {
      assert (s + t)[1..] == s[1..] + t && s[0] in s;
      StripClean(s[1..], t);
      assert [s[0]] + (s[1..] + Out(t)) == s + Out(t);
    }
  }

  /** One direction of a session: where its ring is read from, what the ring holds, what has
      come in and what has gone out. */
  datatype Pipe = Pipe(at: nat, held: string, accepted: string, written: string)

  /** The stretch of the ring that one call can see: up to its physical end. */
  function Window(p: Pipe): (n: nat)
    requires p.at <= BUFSIZE
    ensures n <= |p.held|
  {
    Min(BUFSIZE - p.at, |p.held|)
  }

  function Wrap(at: nat): nat {
    if at == BUFSIZE then 0 else at
  }

  /** Socket to pty: strip the window, pack what is left towards its end, write up to `n`. */
  function ToPty(p: Pipe, n: nat): Pipe
    requires p.at < BUFSIZE
  {
    var w := Window(p);
    var (out, rest) := Strip(p.held[..w]);
    var m := Min(n, |out|);
    if p.held == "" then p
    else p.(at := Wrap(p.at + (w - |out| - |rest|) + m),
            held := out[m..] + rest + p.held[w..],
            written := p.written + out[..m])
  }

  /** A read of the socket. One NUL at the end is dropped: it is meant to be the one that follows
      a carriage return, but any is. */
  function WithoutNul(data: string): string {
    if data != "" && data[|data| - 1] == NUL then data[..|data| - 1] else data
  }

  function Room(p: Pipe): nat
    requires p.at < BUFSIZE && |p.held| <= BUFSIZE
  {
    var end := p.at + |p.held|;
    if end < BUFSIZE then BUFSIZE - end else BUFSIZE - |p.held|
  }

  /** What the socket delivers to one read. */
  function Raw(p: Pipe, data: string): string
    requires p.at < BUFSIZE && |p.held| <= BUFSIZE
  {
    data[..Min(|data|, Room(p))]
  }

  function FromSocket(p: Pipe, data: string): Pipe
    requires p.at < BUFSIZE && |p.held| <= BUFSIZE
  {
    var got := WithoutNul(Raw(p, data));
    p.(held := p.held + got, accepted := p.accepted + got)
  }

  /** The end of a round: an empty ring starts again at its beginning. */
  function Rewind(p: Pipe): Pipe {
    if p.held == "" then p.(at := 0) else p
  }

  /** A read has room exactly as long as the ring is not full: up to the physical end, or up to
      what is held. */
  lemma RoomIsFree(p: Pipe)
    requires p.at < BUFSIZE && |p.held| <= BUFSIZE
    ensures Room(p) > 0 <==> |p.held| < BUFSIZE
    ensures
      var fill := (p.at + |p.held|) % BUFSIZE;
      Room(p) == Min(BUFSIZE - fill, BUFSIZE - |p.held|)
  {}

  /** At the end of a round an empty ring is all room; one that is not empty stays. */
  lemma RewindFrees(p: Pipe)
    requires p.at < BUFSIZE
    ensures p.held == "" ==> Rewind(p).held == "" && Room(Rewind(p)) == BUFSIZE
    ensures p.held != "" ==> Rewind(p) == p
  {}

  datatype Event = Write(count: nat) | Read(data: string) | EndOfRound

  predicate Fits(p: Pipe) {
    p.at < BUFSIZE && |p.held| <= BUFSIZE
  }

  function Step(p: Pipe, e: Event): (r: Pipe)
    requires Fits(p)
    ensures Fits(r)
  {
    match e
    case Write(n) => ToPty(p, n)
    case Read(data) => FromSocket(p, data)
    case EndOfRound => Rewind(p)
  }

  function Run(p: Pipe, es: seq<Event>): (r: Pipe)
    requires Fits(p)
    ensures Fits(r)
    decreases |es|
  {
    if es == [] then p else Run(Step(p, es[0]), es[1..])
  }

  /** What is written and what is held account for all that was accepted. */
  predicate Inv(p: Pipe) {
    && Fits(p)
    && Out(p.accepted) == p.written + Out(p.held)
    && Left(p.accepted) == Left(p.held)
  }

  const EMPTY: Pipe := Pipe(0, "", "", "")

  lemma WriteKeeps(p: Pipe, n: nat)
    requires Inv(p)
    ensures Inv(ToPty(p, n))
  {
    var w := Window(p);
    var window, more := p.held[..w], p.held[w..];
    var m := Min(n, |Out(window)|);
    assert p.held == window + more;
    Packed(window, more, m);
    Regroup(p.written, Out(window), m, Out(Left(window) + more));
  }

  lemma Regroup(a: string, b: string, m: nat, c: string)
    requires m <= |b|
    ensures (a + b[..m]) + (b[m..] + c) == a + (b + c)
  {}

  /** Stripping a window and packing what is left loses nothing of the whole. */
  lemma Packed(window: string, more: string, m: nat)
    requires m <= |Out(window)|
    ensures
      var (out, rest) := Strip(window);
      && Out(window + more) == out + Out(rest + more)
      && Out(out[m..] + rest + more) == out[m..] + Out(rest + more)
      && Left(out[m..] + rest + more) == Left(window + more)
  {
    hide Strip;
    var (out, rest) := Strip(window);
    StripAppend(window, more);
    assert out[m..] + rest + more == out[m..] + (rest + more);
    StripClean(out[m..], rest + more);
  }

  lemma ReadKeeps(p: Pipe, data: string)
    requires Inv(p)
    ensures Inv(FromSocket(p, data))
  {
    var got := WithoutNul(Raw(p, data));
    StripAppend(p.accepted, got);
    StripAppend(p.held, got);
    assert p.written + (Out(p.held) + Out(Left(p.held) + got)) == (p.written + Out(p.held)) + Out(Left(p.held) + got);
  }

  lemma {:induction false} RunKeeps(p: Pipe, es: seq<Event>)
    requires Inv(p)
    ensures Inv(Run(p, es))
    decreases |es|
  {
    if es != [] {
      match es[0]
      case Write(n) => WriteKeeps(p, n); RunKeeps(ToPty(p, n), es[1..]);
      case Read(data) => ReadKeeps(p, data); RunKeeps(FromSocket(p, data), es[1..]);
      case EndOfRound => RunKeeps(Rewind(p), es[1..]);
    }
  }

  /** For every chunking, every wrap of the ring and every short write: of what is accepted into
      the ring, the terminal gets a prefix of the stripped bytes, and when the ring is empty all. */
  lemma TerminalSeesAccepted(es: seq<Event>)
    ensures
      var p := Run(EMPTY, es);
      p.written <= Out(p.accepted) && (p.held == "" ==> p.written == Out(p.accepted))
  {
    RunKeeps(EMPTY, es);
    var p := Run(EMPTY, es);
    assert p.written + "" == p.written;
    assert (p.written + Out(p.held))[..|p.written|] == p.written;
  }

  // ---- What the socket delivers, and what is accepted of it

  predicate EndsInNul(s: string) {
    s != "" && s[|s| - 1] == NUL
  }

  /** All that the reads of a run deliver. */
  function Delivered(p: Pipe, es: seq<Event>): string
    requires Fits(p)
    decreases |es|
  {
    if es == [] then ""
    else (if es[0].Read? then Raw(p, es[0].data) else "") + Delivered(Step(p, es[0]), es[1..])
  }

  /** No read ends with a NUL. */
  predicate NoneEndsInNul(p: Pipe, es: seq<Event>)
    requires Fits(p)
    decreases |es|
  {
    es == [] || (!(es[0].Read? && EndsInNul(Raw(p, es[0].data))) && NoneEndsInNul(Step(p, es[0]), es[1..]))
  }

  lemma StepAccepts(p: Pipe, e: Event)
    requires Fits(p)
    ensures
      var raw := if e.Read? then Raw(p, e.data) else "";
      Step(p, e).accepted == p.accepted + if EndsInNul(raw) then raw[..|raw| - 1] else raw
  {
    assert p.accepted + "" == p.accepted;
  }

  /** All that is delivered is accepted exactly if no read ends with a NUL. */
  lemma {:induction false} AcceptedIffNoNul(p: Pipe, es: seq<Event>)
    requires Fits(p)
    ensures |Run(p, es).accepted| <= |p.accepted| + |Delivered(p, es)|
    ensures Run(p, es).accepted == p.accepted + Delivered(p, es) <==> NoneEndsInNul(p, es)
    decreases |es|
  {
    hide Step, Raw, EndsInNul;
    if es == [] {
      assert p.accepted + "" == p.accepted;
    } else {
      var q, raw := Step(p, es[0]), if es[0].Read? then Raw(p, es[0].data) else "";
      AcceptedIffNoNul(q, es[1..]);
      StepAccepts(p, es[0]);
      Tail(p.accepted, raw, Delivered(q, es[1..]));
    }
  }

  lemma Tail(a: string, raw: string, more: string)
    ensures a + (raw + more) == a + raw + more
    ensures EndsInNul(raw) ==> |a + raw[..|raw| - 1]| + |more| < |a + (raw + more)|
  {}

  /** So for every chunking in which no read ends with a NUL, every wrap of the ring and every
      short write: the terminal gets a prefix of what the socket delivered, stripped, and when the
      ring is empty all of it. */
  lemma TerminalSeesStripped(es: seq<Event>)
    requires NoneEndsInNul(EMPTY, es)
    ensures
      var p, came := Run(EMPTY, es), Delivered(EMPTY, es);
      p.written <= Out(came) && (p.held == "" ==> p.written == Out(came))
  {
    TerminalSeesAccepted(es);
    AcceptedIffNoNul(EMPTY, es);
    assert "" + Delivered(EMPTY, es) == Delivered(EMPTY, es);
  }

  /** Dropping a NUL keeps the commands aligned exactly if it is not part of one. */
  lemma DropAligned(s: string)
    ensures Left(s) == Left(s + [NUL]) <==> Left(s) == ""
    ensures Left(s) == "" ==> Out(s + [NUL]) == Out(s) + [NUL]
  {
    StripAppend(s, [NUL]);
    var c := Left(s);
    if c == "" {
      assert c + [NUL] == [NUL] && [NUL][1..] == "" && [NUL] + "" == [NUL];
    } else if |c| == 2 {
      assert (c + [NUL])[3..] == "";
    }
  }

  /** Every NUL that ends a read is data: no command is open before it. `came` was delivered
      before. */
  predicate NulsAreData(p: Pipe, came: string, es: seq<Event>)
    requires Fits(p)
    decreases |es|
  {
    if es == [] then true
    else
      var raw := if es[0].Read? then Raw(p, es[0].data) else "";
      && (EndsInNul(raw) ==> Left(came + raw[..|raw| - 1]) == "")
      && NulsAreData(Step(p, es[0]), came + raw, es[1..])
  }

  function NoNuls(s: string): (r: string) {
    if s == "" then "" else (if s[0] == NUL then "" else [s[0]]) + NoNuls(s[1..])
  }

  lemma {:induction false} NoNulsAppend(s: string, t: string)
    ensures NoNuls(s + t) == NoNuls(s) + NoNuls(t)
  {
    if s == "" {
      assert s + t == t;
    } else {
      assert (s + t)[1..] == s[1..] + t;
      NoNulsAppend(s[1..], t);
    }
  }

  /** What is accepted and what came mean the same, but for NULs, with the same open command. */
  predicate Alike(accepted: string, came: string) {
    NoNuls(Out(accepted)) == NoNuls(Out(came)) && Left(accepted) == Left(came)
  }

  lemma AlikeMore(accepted: string, came: string, more: string)
    requires Alike(accepted, came)
    ensures Alike(accepted + more, came + more)
  {
    hide Strip;
    StripAppend(accepted, more);
    StripAppend(came, more);
    NoNulsAppend(Out(accepted), Out(Left(accepted) + more));
    NoNulsAppend(Out(came), Out(Left(came) + more));
  }

  lemma AlikeWithout(accepted: string, came: string)
    requires Alike(accepted, came) && Left(came) == ""
    ensures Alike(accepted, came + [NUL])
  {
    hide Strip;
    DropAligned(came);
    NoNulsAppend(Out(came), [NUL]);
    assert NoNuls([NUL]) == "" && NoNuls(Out(came)) + "" == NoNuls(Out(came));
  }

  lemma StepAlike(p: Pipe, e: Event, came: string)
    requires Fits(p) && Alike(p.accepted, came)
    requires
      var raw := if e.Read? then Raw(p, e.data) else "";
      EndsInNul(raw) ==> Left(came + raw[..|raw| - 1]) == ""
    ensures Alike(Step(p, e).accepted, came + if e.Read? then Raw(p, e.data) else "")
  {
    hide Alike, Step, Left, Raw;
    var raw := if e.Read? then Raw(p, e.data) else "";
    StepAccepts(p, e);
    if EndsInNul(raw) {
      var front := raw[..|raw| - 1];
      AlikeMore(p.accepted, came, front);
      AlikeWithout(p.accepted + front, came + front);
      assert came + front + [NUL] == came + raw;
    } else {
      AlikeMore(p.accepted, came, raw);
    }
  }

  lemma {:induction false} RunAlike(p: Pipe, came: string, es: seq<Event>)
    requires Fits(p) && Alike(p.accepted, came) && NulsAreData(p, came, es)
    ensures Alike(Run(p, es).accepted, came + Delivered(p, es))
    decreases |es|
  {
    hide Alike, Step, Left, Raw;
    if es == [] {
      assert came + "" == came;
    } else {
      var raw := if es[0].Read? then Raw(p, es[0].data) else "";
      StepAlike(p, es[0], came);
      RunAlike(Step(p, es[0]), came + raw, es[1..]);
      assert came + (raw + Delivered(Step(p, es[0]), es[1..])) == came + raw + Delivered(Step(p, es[0]), es[1..]);
    }
  }

  /** As long as the NULs that end reads are data, the terminal misses nothing but NULs. */
  lemma OnlyNulsMissing(es: seq<Event>)
    requires NulsAreData(EMPTY, "", es)
    ensures
      var p, came := Run(EMPTY, es), Delivered(EMPTY, es);
      && NoNuls(p.written) <= NoNuls(Out(came))
      && (p.held == "" ==> NoNuls(p.written) == NoNuls(Out(came)))
  {
    hide Run, Strip, Delivered, NulsAreData;
    var p, came := Run(EMPTY, es), Delivered(EMPTY, es);
    RunAlike(EMPTY, "", es);
    TerminalSeesAccepted(es);
    assert "" + came == came;
    var more := Out(p.accepted)[|p.written|..];
    assert p.written + more == Out(p.accepted);
    NoNulsAppend(p.written, more);
  }

  /** Otherwise a byte of the text may be lost: a read that ends with the option 0 of a command,
      TRANSMIT-BINARY of RFC 856, makes the next byte the option. */
  lemma OptionDropped(command: char, c: char)
    requires command != NUL && c != NUL && c != IAC
    ensures
      var es := [Read([IAC, command, NUL]), Write(9), Read([c]), Write(9)];
      var p := Run(EMPTY, es);
      p.held == "" && p.written == "" && Out(Delivered(EMPTY, es)) == [c]
  {
    var raw := [IAC, command, NUL];
    var es := [Read(raw), Write(9), Read([c]), Write(9)];
    CommandStays(command);
    CommandTakes(command, c);
    CommandThenByte(command, c);
    FourEvents(raw, [c]);
  }

  lemma FourEvents(first: string, second: string)
    ensures
      var es := [Read(first), Write(9), Read(second), Write(9)];
      var p1 := Step(EMPTY, Read(first));
      var p2 := Step(p1, Write(9));
      var p3 := Step(p2, Read(second));
      && Run(EMPTY, es) == Step(p3, Write(9))
      && Delivered(EMPTY, es) == Raw(EMPTY, first) + Raw(p2, second)
  {
    hide Step, Raw;
    var es := [Read(first), Write(9), Read(second), Write(9)];
    var p1 := Step(EMPTY, Read(first));
    var p2 := Step(p1, Write(9));
    var p3 := Step(p2, Read(second));
    var two, one := [Read(second), Write(9)], [Write(9)];
    assert es[1..] == [Write(9)] + two && es[1..][1..] == two && two[1..] == one && one[1..] == [];
    assert Run(p2, two) == Run(p3, one) == Step(p3, Write(9));
    assert Delivered(p3, one) == "" + Delivered(Step(p3, Write(9)), []) == "";
    assert Delivered(p2, two) == Raw(p2, second) + "" == Raw(p2, second);
    assert Delivered(p1, es[1..]) == "" + Delivered(p2, two) == Raw(p2, second);
  }

  lemma CommandStays(command: char)
    requires command != NUL
    ensures
      var raw := [IAC, command, NUL];
      var p := Pipe(0, [IAC, command], [IAC, command], "");
      Raw(EMPTY, raw) == raw && FromSocket(EMPTY, raw) == p && ToPty(p, 9) == p
  {
    var raw := [IAC, command, NUL];
    var p := Pipe(0, [IAC, command], [IAC, command], "");
    assert raw[..3] == raw && raw[..2] == [IAC, command] && "" + raw[..2] == raw[..2];
    ProgressIffNotHalted(p, 9);
  }

  lemma CommandTakes(command: char, c: char)
    requires c != NUL
    ensures
      var p := Pipe(0, [IAC, command], [IAC, command], "");
      var q := FromSocket(p, [c]);
      Raw(p, [c]) == [c] && ToPty(q, 9).held == "" && ToPty(q, 9).written == ""
  {
    var p := Pipe(0, [IAC, command], [IAC, command], "");
    var all := [IAC, command, c];
    assert [c][..1] == [c] && [IAC, command] + [c] == all;
    assert FromSocket(p, [c]) == Pipe(0, all, all, "");
    assert all[..3] == all && all[3..] == "";
    assert Strip(all) == ("", "");
  }

  lemma CommandThenByte(command: char, c: char)
    requires c != IAC
    ensures Out([IAC, command, NUL] + [c]) == [c]
  {
    var s := [IAC, command, NUL] + [c];
    assert s[3..] == [c] && [c][1..] == "" && [c] + "" == [c];
    assert Strip([c]) == ([c], "") && Strip(s) == Strip(s[3..]);
  }

  // ---- Progress, and where it ends

  /** The window starts with a command that it does not contain whole. */
  predicate Halted(p: Pipe)
    requires Fits(p)
  {
    p.held != "" && p.held[0] == IAC && Window(p) < 3
  }

  /** A write that takes something makes progress exactly when the window is not halted. */
  lemma ProgressIffNotHalted(p: Pipe, n: nat)
    requires Fits(p) && p.held != "" && n > 0
    ensures (ToPty(p, n) == p) <==> Halted(p)
    ensures (|ToPty(p, n).held| < |p.held|) <==> !Halted(p)
  {
    var w := Window(p);
    var window, more := p.held[..w], p.held[w..];
    assert p.held == window + more && window[0] == p.held[0];
    if Halted(p) {
      assert Strip(window) == ("", window);
      assert "" + window + more == p.held && p.written + "" == p.written && ""[..0] == "" && ""[0..] == "";
    } else {
      SomethingGoes(window, n);
    }
  }

  lemma SomethingGoes(window: string, n: nat)
    requires window != "" && n > 0 && !(window[0] == IAC && |window| < 3)
    ensures |Out(window)| - Min(n, |Out(window)|) + |Left(window)| < |window|
  {
    if window[0] != IAC {
      assert Out(window) == [window[0]] + Out(window[1..]);
    }
  }

  /** A command that the physical end of the ring cuts in two is never completed: the window
      does not reach round the end, so more input does not help. */
  predicate Stuck(p: Pipe)
    requires Fits(p)
  {
    p.held != "" && p.held[0] == IAC && BUFSIZE - p.at < 3
  }

  lemma {:induction false} StuckForever(p: Pipe, es: seq<Event>)
    requires Fits(p) && Stuck(p)
    ensures Run(p, es).written == p.written && Stuck(Run(p, es))
    decreases |es|
  {
    if es != [] {
      match es[0]
      case Write(n) =>
        if n > 0 {
          ProgressIffNotHalted(p, n);
        } else {
          assert ToPty(p, 0) == p by { StuckWrite(p); }
        }
        StuckForever(p, es[1..]);
      case Read(data) => StuckForever(FromSocket(p, data), es[1..]);
      case EndOfRound => StuckForever(p, es[1..]);
    }
  }

  lemma StuckWrite(p: Pipe)
    requires Fits(p) && Stuck(p)
    ensures ToPty(p, 0) == p
  {
    var w := Window(p);
    assert p.held == p.held[..w] + p.held[w..] && p.held[..w][0] == p.held[0];
    assert "" + p.held[..w] + p.held[w..] == p.held && p.written + "" == p.written;
  }

  /** It happens: a command that begins in the last two cells stops the session for good,
      whatever the client sends afterwards. */
  lemma StuckIsReachable(es: seq<Event>)
    ensures
      var p := Run(EMPTY, [Read(seq(3998, _ => 'a') + [IAC]), Write(3998)] + es);
      p.written == seq(3998, _ => 'a')
  {
    var letters: string := seq(3998, _ => 'a');
    var input := letters + [IAC];
    LettersRead(letters);
    LettersWritten(letters);
    var p1, p2 := Pipe(0, input, input, ""), Pipe(3998, [IAC], input, letters);
    var all := [Read(input), Write(3998)] + es;
    assert all[1..][0] == Write(3998) && all[1..][1..] == es && all[0] == Read(input);
    assert Run(EMPTY, all) == Run(p1, all[1..]);
    assert Run(p1, all[1..]) == Run(p2, es);
    StuckForever(p2, es);
  }

  lemma LettersRead(letters: string)
    requires |letters| == 3998
    ensures
      var input := letters + [IAC];
      Step(EMPTY, Read(input)) == Pipe(0, input, input, "")
  {
    var input := letters + [IAC];
    NotNul(input);
    assert "" + input == input && input[..|input|] == input;
    hide WithoutNul;
  }

  lemma NotNul(s: string)
    requires s != "" && s[|s| - 1] != NUL
    ensures WithoutNul(s) == s
  {}

  lemma LettersWritten(letters: string)
    requires |letters| == 3998 && IAC !in letters
    ensures
      var input := letters + [IAC];
      Step(Pipe(0, input, input, ""), Write(3998)) == Pipe(3998, [IAC], input, letters)
  {
    LettersStripped(letters);
    hide Strip;
    var input := letters + [IAC];
    assert input[..3999] == input && input[3999..] == "";
    assert letters[..3998] == letters && letters[3998..] == "" && "" + [IAC] + "" == [IAC] && "" + letters == letters;
  }

  lemma LettersStripped(letters: string)
    requires IAC !in letters
    ensures Strip(letters + [IAC]) == (letters, [IAC])
  {
    StripClean(letters, [IAC]);
    assert Out([IAC]) == "" && letters + "" == letters && Left([IAC]) == [IAC];
  }

  /** In every other halt the rest of the command has simply not arrived. */
  lemma OtherwiseWaiting(p: Pipe, data: string)
    requires Fits(p) && Halted(p) && !Stuck(p)
    ensures |p.held| < 3
    ensures |FromSocket(p, data).held| >= 3 ==> !Halted(FromSocket(p, data))
  {}
}
