/** A telnet session's two circular buffers (itslib/src/utelnetd.c). */
module Telnet {
  import opened Text
  import opened TelnetSpec

  /** Where a ring is filled, where it is drained, and how much it holds. */
  datatype Indices = Indices(rd: nat, wr: nat, size: nat)

  predicate InRing(i: Indices) {
    && i.wr < BUFSIZE && i.size <= BUFSIZE
    && i.rd == if i.wr + i.size < BUFSIZE then i.wr + i.size else i.wr + i.size - BUFSIZE
  }

  function Contents(buf: string, i: Indices): (s: string)
    requires |buf| == BUFSIZE && InRing(i)
    ensures |s| == i.size
  {
    if i.wr + i.size <= BUFSIZE then buf[i.wr..i.wr + i.size]
    else buf[i.wr..] + buf[..i.wr + i.size - BUFSIZE]
  }

  /** The window is one stretch of the buffer. */
  lemma WindowIsStretch(buf: string, i: Indices, w: nat)
    requires |buf| == BUFSIZE && InRing(i) && w <= i.size && i.wr + w <= BUFSIZE
    ensures Contents(buf, i)[..w] == buf[i.wr..i.wr + w]
  {}

  /** Draining. */
  lemma Drained(buf: string, i: Indices, m: nat)
    requires |buf| == BUFSIZE && InRing(i) && m <= i.size && i.wr + m <= BUFSIZE
    ensures
      var i' := i.(wr := Wrap(i.wr + m), size := i.size - m);
      InRing(i') && Contents(buf, i') == Contents(buf, i)[m..]
  {}

  /** Filling: `got` was stored at `rd`, and nothing else changed. */
  lemma Filled(buf: string, buf': string, i: Indices, got: string)
    requires |buf| == |buf'| == BUFSIZE && InRing(i)
    requires i.rd + |got| <= BUFSIZE && i.size + |got| <= BUFSIZE
    requires buf'[i.rd..i.rd + |got|] == got
    requires forall k | 0 <= k < BUFSIZE && !(i.rd <= k < i.rd + |got|) :: buf'[k] == buf[k]
    ensures
      var i' := i.(rd := Wrap(i.rd + |got|), size := i.size + |got|);
      InRing(i') && Contents(buf', i') == Contents(buf, i) + got
  {
    if i.wr + i.size < BUFSIZE {
      assert buf'[i.wr..i.rd] == buf[i.wr..i.rd];
      assert buf'[i.wr..i.rd + |got|] == buf[i.wr..i.rd] + got;
    } else {
      assert buf'[i.wr..] == buf[i.wr..] && buf'[..i.rd] == buf[..i.rd];
      assert buf'[..i.rd + |got|] == buf[..i.rd] + got;
      assert buf[i.wr..] + buf[..i.rd] + got == buf[i.wr..] + (buf[..i.rd] + got);
    }
  }

  lemma CellOf(buf: string, i: Indices, k: nat)
    requires |buf| == BUFSIZE && InRing(i) && k < i.size
    ensures Contents(buf, i)[k] == buf[if i.wr + k < BUFSIZE then i.wr + k else i.wr + k - BUFSIZE]
  {}

  /** Changing only the window. */
  lemma Rewritten(buf: string, buf': string, i: Indices, w: nat, s: string)
    requires |buf| == |buf'| == BUFSIZE && InRing(i) && |s| == w <= i.size && i.wr + w <= BUFSIZE
    requires buf'[i.wr..i.wr + w] == s
    requires forall k | 0 <= k < BUFSIZE && !(i.wr <= k < i.wr + w) :: buf'[k] == buf[k]
    ensures Contents(buf', i) == s + Contents(buf, i)[w..]
  {
    var c, c' := Contents(buf, i), Contents(buf', i);
    forall k | w <= k < i.size
      ensures c'[k] == c[k]
    {
      CellOf(buf, i, k);
      CellOf(buf', i, k);
    }
    WindowIsStretch(buf', i, w);
    assert c'[..w] == s && c'[w..] == c[w..];
  }

  /** The state of the packing loop of `remove_iacs` over a window: `t` bytes for the terminal
      are in front, and from `p` on nothing has been looked at. */
  ghost predicate Packing(now: string, window: string, p: nat, t: nat) {
    && t <= p <= |window| == |now|
    && Strip(window) == (now[..t] + Out(window[p..]), Left(window[p..]))
    && now[p..] == window[p..]
  }

  lemma PackingStarts(window: string)
    ensures Packing(window, window, 0, 0)
  {
    assert window[0..] == window && "" + Out(window) == Out(window);
  }

  lemma PackOne(now: string, window: string, p: nat, t: nat)
    requires Packing(now, window, p, t) && p < |now| && now[p] != IAC
    ensures Packing(now[t := now[p]], window, p + 1, t + 1)
  {
    var now' := now[t := now[p]];
    assert now[p] == now[p..][0] == window[p] && window[p..][1..] == window[p + 1..];
    assert now[..t] + ([window[p]] + Out(window[p + 1..])) == now'[..t + 1] + Out(window[p + 1..]);
    assert now'[p + 1..] == now[p..][1..];
  }

  lemma SkipCommand(now: string, window: string, p: nat, t: nat)
    requires Packing(now, window, p, t) && p + 2 < |now| && now[p] == IAC
    ensures Packing(now, window, p + 3, t)
  {
    assert now[p] == now[p..][0] == window[p];
    assert window[p..][3..] == window[p + 3..] && now[p..][3..] == now[p + 3..];
  }

  lemma PackingEnds(now: string, window: string, p: nat, t: nat)
    requires Packing(now, window, p, t) && (p == |now| || (now[p] == IAC && p + 2 >= |now|))
    ensures Strip(window) == (now[..t], now[p..])
  {
    assert p < |now| ==> now[p] == now[p..][0] == window[p];
    assert Strip(window[p..]) == ("", window[p..]);
    assert now[..t] + "" == now[..t];
  }

  /** `remove_iacs` on `len` bytes at `from`: afterwards the bytes for the terminal end where
      the processed part ends, and the unprocessed rest follows. */
  method RemoveIacs(a: array<char>, from: nat, len: nat) returns (processed: nat, toTty: nat)
    requires from + len <= a.Length
    modifies a
    ensures
      var (out, rest) := Strip(old(a[from..from + len]));
      && toTty == |out| && processed == len - |rest| && toTty <= processed
      && a[from + processed - toTty..from + len] == out + rest
    ensures forall k | 0 <= k < a.Length && !(from <= k < from + len) :: a[k] == old(a[k])
  {
    hide Strip;
    var p, t := Compact(a, from, len);
    MoveUp(a, from, t, p, len);
    processed, toTty := p, t;
    Joined(a[..], from + p - t, from + p, from + len);
  }

  lemma Joined(s: string, i: nat, j: nat, k: nat)
    requires i <= j <= k <= |s|
    ensures s[i..k] == s[i..j] + s[j..k]
  {}

  /** Its loop. */
  method Compact(a: array<char>, from: nat, len: nat) returns (p: nat, t: nat)
    requires from + len <= a.Length
    modifies a
    ensures t <= p <= len
    ensures Strip(old(a[from..from + len])) == (a[from..from + len][..t], a[from..from + len][p..])
    ensures forall k | 0 <= k < a.Length && !(from <= k < from + len) :: a[k] == old(a[k])
  {
    ghost var window := a[from..from + len];
    PackingStarts(window);
    hide Packing, Strip;
    p, t := 0, 0;
    while p < len && (a[from + p] != IAC || p + 2 < len)
      invariant t <= p <= len
      invariant Packing(a[from..from + len], window, p, t)
      invariant forall k | 0 <= k < a.Length && !(from <= k < from + len) :: a[k] == old(a[k])
      decreases len - p
    {
      ghost var now := a[from..from + len];
      if a[from + p] != IAC {
        PackOne(now, window, p, t);
        a[from + t] := a[from + p];
        assert a[from..from + len] == now[t := now[p]];
        p, t := p + 1, t + 1;
      } else {
        SkipCommand(now, window, p, t);
        p := p + 3;
      }
    }
    PackingEnds(a[from..from + len], window, p, t);
  }

  /** Its `memmove`: `t` bytes from the front to where they end at `p`. */
  method MoveUp(a: array<char>, from: nat, t: nat, p: nat, len: nat)
    requires t <= p <= len && from + len <= a.Length
    modifies a
    ensures a[from + p - t..from + p] == old(a[from..from + len])[..t]
    ensures a[from + p..from + len] == old(a[from..from + len])[p..]
    ensures forall k | 0 <= k < a.Length && !(from <= k < from + len) :: a[k] == old(a[k])
  {
    ghost var now := a[from..from + len];
    forall k | 0 <= k < t {
      a[from + p - t + k] := a[from + k];
    }
    assert forall k | 0 <= k < t :: a[from + p - t + k] == now[k];
    assert forall k | p <= k < len :: a[from + k] == now[k];
    assert a[from + p..from + len] == now[p..];
  }

  /** What a direction has taken in and given out. */
  datatype Log = Log(accepted: string, written: string)

  /** What is written and what is held is what was accepted. */
  ghost predicate Balanced(log: Log, held: string) {
    log.written + held == log.accepted
  }

  lemma BalancedAfterRead(log: Log, held: string, got: string)
    requires Balanced(log, held)
    ensures Balanced(log.(accepted := log.accepted + got), held + got)
  {
    assert log.written + (held + got) == (log.written + held) + got;
  }

  lemma BalancedAfterWrite(log: Log, held: string, m: nat)
    requires Balanced(log, held) && m <= |held|
    ensures Balanced(log.(written := log.written + held[..m]), held[m..])
  {
    assert (log.written + held[..m]) + held[m..] == log.written + held;
  }

  const DO: char := 253 as char
  const WILL: char := 251 as char
  const ECHO: char := 1 as char
  const SGA: char := 3 as char
  const LFLOW: char := 33 as char

  /** What a session says first. */
  const GREETING: string := [IAC, DO, ECHO, IAC, DO, LFLOW, IAC, WILL, ECHO, IAC, WILL, SGA]

  /** Storing what was read at the place for filling. */
  method Fill(a: array<char>, i: Indices, got: string)
    requires a.Length == BUFSIZE && InRing(i) && i.rd + |got| <= BUFSIZE && i.size + |got| <= BUFSIZE
    modifies a
    ensures
      var i' := i.(rd := Wrap(i.rd + |got|), size := i.size + |got|);
      InRing(i') && Contents(a[..], i') == old(Contents(a[..], i)) + got
  {
    ghost var before := a[..];
    forall k | 0 <= k < |got| {
      a[i.rd + k] := got[k];
    }
    Filled(before, a[..], i, got);
  }

  class Session {
    const buf1: array<char>   // from the socket to the pty
    const buf2: array<char>   // from the pty to the socket
    var i1: Indices
    var i2: Indices
    ghost var log1: Log
    ghost var log2: Log

    ghost predicate Rings()
      reads `i1, `i2
    {
      buf1.Length == buf2.Length == BUFSIZE && buf1 != buf2 && InRing(i1) && InRing(i2)
    }

    /** The direction to the terminal, as the machine of TelnetSpec. */
    ghost function ToTerminal(): (p: Pipe)
      reads `i1, `log1, buf1
      requires buf1.Length == BUFSIZE && InRing(i1)
      ensures Fits(p)
    {
      Pipe(i1.wr, Contents(buf1[..], i1), log1.accepted, log1.written)
    }

    ghost predicate Valid()
      reads this, buf1, buf2
    {
      && Rings()
      && Inv(ToTerminal())
      && Balanced(log2, Contents(buf2[..], i2))
    }

    constructor ()
      ensures Valid() && ToTerminal() == EMPTY && log2 == Log(GREETING, "") && fresh(buf1) && fresh(buf2)
    {
      buf1 := new char[BUFSIZE];
      buf2 := new char[BUFSIZE];
      i1, i2 := Indices(0, 0, 0), Indices(0, 0, 0);
      log1, log2 := Log("", ""), Log("", "");
      new;
      SendIac(DO, ECHO);
      SendIac(DO, LFLOW);
      SendIac(WILL, ECHO);
      SendIac(WILL, SGA);
      assert log2.accepted == GREETING;
    }

    /** `send_iac`; its callers see to it that there is space. */
    method SendIac(command: char, option: char)
      requires Rings() && i2.rd + 3 <= BUFSIZE && i2.size + 3 <= BUFSIZE
      requires Balanced(log2, Contents(buf2[..], i2))
      modifies this`i2, this`log2, buf2
      ensures Rings() && i2.size == old(i2.size) + 3 && i2.rd == Wrap(old(i2.rd) + 3)
      ensures log2 == old(log2).(accepted := old(log2.accepted) + [IAC, command, option])
      ensures Balanced(log2, Contents(buf2[..], i2))
    {
      Fill2([IAC, command, option]);
    }

    method Fill2(got: string)
      requires Rings() && i2.rd + |got| <= BUFSIZE && i2.size + |got| <= BUFSIZE
      requires Balanced(log2, Contents(buf2[..], i2))
      modifies this`i2, this`log2, buf2
      ensures Rings() && i2 == old(i2).(rd := Wrap(old(i2.rd) + |got|), size := old(i2.size) + |got|)
      ensures log2 == old(log2).(accepted := old(log2.accepted) + got)
      ensures Balanced(log2, Contents(buf2[..], i2))
    {
      BalancedAfterRead(log2, Contents(buf2[..], i2), got);
      hide Balanced;
      Fill(buf2, i2, got);
      hide Contents;
      i2 := i2.(rd := Wrap(i2.rd + |got|), size := i2.size + |got|);
      log2 := log2.(accepted := log2.accepted + got);
    }

    /** Write to the pty from buffer 1; `n` is how much the pty would take. */
    method WritePty(n: nat)
      requires Valid() && i1.size > 0
      modifies `i1, `log1, buf1
      ensures Valid() && ToTerminal() == old(ToPty(ToTerminal(), n))
    {
      ghost var p := ToTerminal();
      WriteKeeps(p, n);
      var maxlen := Min(BUFSIZE - i1.wr, i1.size);
      ghost var out, rest := Out(p.held[..maxlen]), Left(p.held[..maxlen]);
      ghost var p' := ToPty(p, n);
      ghost var m := Min(n, |out|);
      assert p' == p.(at := Wrap(p.at + (maxlen - |out| - |rest|) + m), held := out[m..] + rest + p.held[maxlen..],
                      written := p.written + out[..m]);
      hide Inv, ToPty, Balanced;
      var removed, toTty := Clean(maxlen);
      assert buf2[..] == old(buf2[..]);
      var w := Min(n, toTty);
      Take(removed, w, out, rest, p.held[maxlen..]);
    }

    /** What the pty took leaves the ring. */
    method Take(removed: nat, w: nat, ghost out: string, ghost rest: string, ghost more: string)
      requires Rings() && removed + w <= i1.size && i1.wr + removed + w <= BUFSIZE
      requires w <= |out| && Contents(buf1[..], i1)[removed..] == out + rest + more
      modifies `i1, `log1
      ensures Rings() && i1.wr == Wrap(old(i1.wr) + removed + w)
      ensures Contents(buf1[..], i1) == out[w..] + rest + more
      ensures log1 == old(log1).(written := old(log1.written) + out[..w])
    {
      ghost var now := Contents(buf1[..], i1);
      Drained(buf1[..], i1, removed + w);
      Sliced(now, removed, w, out, rest, more);
      hide Contents;
      log1 := log1.(written := log1.written + now[removed..removed + w]);
      i1 := i1.(wr := Wrap(i1.wr + removed + w), size := i1.size - removed - w);
    }

    /** The call of `remove_iacs`, and what it takes off the ring. */
    method Clean(maxlen: nat) returns (removed: nat, toTty: nat)
      requires Rings() && maxlen <= i1.size && i1.wr + maxlen <= BUFSIZE
      modifies buf1
      ensures
        var held := old(Contents(buf1[..], i1));
        var (out, rest) := Strip(held[..maxlen]);
        && toTty == |out| && removed == maxlen - |out| - |rest|
        && Contents(buf1[..], i1)[removed..] == out + rest + held[maxlen..]
    {
      ghost var before, held := buf1[..], Contents(buf1[..], i1);
      WindowIsStretch(before, i1, maxlen);
      var wr := i1.wr;
      var processed;
      processed, toTty := RemoveIacs(buf1, wr, maxlen);
      removed := processed - toTty;
      Rewritten(before, buf1[..], i1, maxlen, buf1[wr..wr + maxlen]);
      assert buf1[wr..wr + maxlen][removed..] == buf1[wr + removed..wr + maxlen];
    }

    /** Read from the socket to buffer 1. */
    method ReadSocket(data: string)
      requires Valid() && i1.size < BUFSIZE
      modifies this`i1, this`log1, buf1
      ensures Valid() && ToTerminal() == old(FromSocket(ToTerminal(), data))
    {
      ghost var p := ToTerminal();
      ReadKeeps(p, data);
      var maxlen := Min(BUFSIZE - i1.rd, BUFSIZE - i1.size);
      var raw := data[..Min(|data|, maxlen)];
      var got := WithoutNul(raw);
      assert Room(p) == maxlen && Raw(p, data) == raw && got <= raw;
      ghost var p' := FromSocket(p, data);
      assert p' == p.(held := p.held + got, accepted := p.accepted + got);
      hide Inv, FromSocket, WithoutNul, Raw, Room, Contents, Balanced;
      Accept(raw, got);
      assert buf2[..] == old(buf2[..]);
    }

    /** What was read joins the ring. */
    method Accept(raw: string, got: string)
      requires Rings() && got <= raw && i1.rd + |raw| <= BUFSIZE && i1.size + |raw| <= BUFSIZE
      modifies this`i1, this`log1, buf1
      ensures Rings()
      ensures var p := old(ToTerminal()); ToTerminal() == p.(held := p.held + got, accepted := p.accepted + got)
    {
      hide Contents;
      FillSome(i1, raw, got);
      i1 := i1.(rd := Wrap(i1.rd + |got|), size := i1.size + |got|);
      log1 := log1.(accepted := log1.accepted + got);
    }

    /** Only `got` of what was read will count. */
    method FillSome(i: Indices, raw: string, got: string)
      requires buf1.Length == BUFSIZE && InRing(i) && got <= raw
      requires i.rd + |raw| <= BUFSIZE && i.size + |raw| <= BUFSIZE
      modifies buf1
      ensures
        var i' := i.(rd := Wrap(i.rd + |got|), size := i.size + |got|);
        InRing(i') && Contents(buf1[..], i') == old(Contents(buf1[..], i)) + got
    {
      Fill(buf1, i, raw);
      LessFilled(buf1[..], i, |raw|, |got|);
    }

    /** Write to the socket from buffer 2. */
    method WriteSocket(n: nat)
      requires Valid() && i2.size > 0
      modifies this`i2, this`log2
      ensures Valid() && log2.accepted == old(log2.accepted)
      ensures log2.written == old(log2.written) +
                old(Contents(buf2[..], i2))[..Min(n, Min(BUFSIZE - old(i2.wr), old(i2.size)))]
    {
      hide Contents, Inv, Balanced, Strip;
      ghost var held := Contents(buf2[..], i2);
      var w := Min(n, Min(BUFSIZE - i2.wr, i2.size));
      WindowIsStretch(buf2[..], i2, w);
      Drained(buf2[..], i2, w);
      BalancedAfterWrite(log2, held, w);
      assert buf2[i2.wr..i2.wr + w] == held[..w];
      log2 := log2.(written := log2.written + buf2[i2.wr..i2.wr + w]);
      i2 := i2.(wr := Wrap(i2.wr + w), size := i2.size - w);
    }

    /** Read from the pty to buffer 2. */
    method ReadPty(data: string)
      requires Valid() && i2.size < BUFSIZE
      modifies this`i2, this`log2, buf2
      ensures Valid() && log2.written == old(log2.written)
      ensures log2.accepted == old(log2.accepted) +
                data[..Min(|data|, Min(BUFSIZE - old(i2.rd), BUFSIZE - old(i2.size)))]
    {
      Fill2(data[..Min(|data|, Min(BUFSIZE - i2.rd, BUFSIZE - i2.size))]);
    }

    /** The end of a round. */
    method EndRound()
      requires Valid()
      modifies this`i1, this`i2
      ensures Valid() && ToTerminal() == old(Rewind(ToTerminal()))
      ensures Contents(buf2[..], i2) == old(Contents(buf2[..], i2))
    {
      if i1.size == 0 {
        i1 := i1.(rd := 0, wr := 0);
      }
      if i2.size == 0 {
        i2 := i2.(rd := 0, wr := 0);
      }
    }
  }

  lemma Sliced(s: string, r: nat, w: nat, out: string, rest: string, more: string)
    requires r <= |s| && s[r..] == out + rest + more && w <= |out|
    ensures s[r..r + w] == out[..w] && s[r + w..] == out[w..] + rest + more
  {
    assert s[r + w..] == s[r..][w..];
  }

  lemma LessFilled(buf: string, i: Indices, n: nat, m: nat)
    requires |buf| == BUFSIZE && InRing(i) && m <= n && i.rd + n <= BUFSIZE && i.size + n <= BUFSIZE
    ensures
      var full := i.(rd := Wrap(i.rd + n), size := i.size + n);
      var less := i.(rd := Wrap(i.rd + m), size := i.size + m);
      InRing(full) && InRing(less) && Contents(buf, less) == Contents(buf, full)[..less.size]
  {}
}
