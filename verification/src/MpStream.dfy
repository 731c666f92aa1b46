/** The virtual datastream of web/cgic/cgic.c: standard input with a 1024-byte ring for
    putting characters back.
 */
module Streams {
  import opened Text

  const PUTBACK_SIZE: nat := 1024

  function Next(ring: string, file: string): char
    requires ring + file != []
  {
    if ring != [] then ring[0] else file[0]
  }

  /** The stream, as ring and file, after one character. */
  function Drop(ring: string, file: string): (string, string)
    requires ring + file != []
  {
    if ring != [] then (ring[1..], file) else (ring, file[1..])
  }

  /** What a read of `len` characters returns and leaves, when the file may give `room` of them. */
  function ReadOf(ring: string, file: string, len: nat, room: nat): (string, string, string) {
    var g := Min(len, |ring|);
    var f := Min(Min(len - g, room), |file|);
    (ring[..g] + file[..f], ring[g..], file[f..])
  }

  /** With room enough it is a read from one plain stream. */
  lemma PlainRead(ring: string, file: string, len: nat, room: nat)
    requires |file| <= room
    ensures
      var (data, ring', file') := ReadOf(ring, file, len, room);
      && data == (ring + file)[..Min(len, |ring + file|)] && data + (ring' + file') == ring + file
      && (|data| < len ==> ring' + file' == "")
  {
    assert |(ring + file)| == |ring| + |file|;
  }

  lemma ReadOne(ring: string, file: string, room: nat)
    requires 0 < room && ring + file != []
    ensures var (ring', file') := Drop(ring, file); ReadOf(ring, file, 1, room) == ([Next(ring, file)], ring', file')
  {
    if ring != [] {
      assert ring[..1] + file[..0] == [ring[0]] && file[0..] == file;
    } else {
      assert ring[..0] + file[..1] == [file[0]] && ring[0..] == ring;
    }
  }

  lemma ReadTwo(ring: string, file: string, room: nat)
    requires |file| <= room && |ring| + |file| >= 2
    ensures
      var (ring1, file1) := Drop(ring, file);
      var (ring2, file2) := Drop(ring1, file1);
      ReadOf(ring, file, 2, room) == ([Next(ring, file), Next(ring1, file1)], ring2, file2)
  {
    if |ring| >= 2 {
      assert ring[..2] + file[..0] == [ring[0], ring[1]] && ring[1..][1..] == ring[2..] && file[0..] == file;
    } else if |ring| == 1 {
      assert ring[..1] + file[..1] == [ring[0], file[0]];
    } else {
      assert ring[..0] + file[..2] == [file[0], file[1]] && file[1..][1..] == file[2..] && ring[0..] == ring;
    }
  }

  lemma ReadParts(fromRing: string, ring: string, fromFile: string, file: string, len: nat, room: nat)
    requires |fromRing| == Min(len, |fromRing| + |ring|)
    requires |fromFile| == Min(Min(len - |fromRing|, room), |fromFile| + |file|)
    ensures ReadOf(fromRing + ring, fromFile + file, len, room) == (fromRing + fromFile, ring, file)
  {}

  /** What lies between two positions of a circular buffer. */
  function Circle(buffer: string, from: nat, to: nat): string
    requires from < |buffer| && to < |buffer|
  {
    if from <= to then buffer[from..to] else buffer[from..] + buffer[..to]
  }

  function Wrapped(k: nat, n: nat): (r: nat)
    requires k <= n && 0 < n
    ensures r < n
  {
    if k == n then 0 else k
  }

  lemma CirclePop(buffer: string, from: nat, to: nat)
    requires from < |buffer| && to < |buffer| && from != to
    ensures Circle(buffer, from, to) == [buffer[from]] + Circle(buffer, Wrapped(from + 1, |buffer|), to)
  {
    if from + 1 == |buffer| {
      assert buffer[from..] == [buffer[from]] && buffer[0..to] == buffer[..to];
    }
  }

  lemma CirclePush(buffer: string, from: nat, to: nat, c: char)
    requires from < |buffer| && to < |buffer| && |Circle(buffer, from, to)| + 1 < |buffer|
    ensures Circle(buffer[to := c], from, Wrapped(to + 1, |buffer|)) == Circle(buffer, from, to) + [c]
  {
    var buffer' := buffer[to := c];
    if to + 1 == |buffer| {
      assert buffer'[from..] == buffer[from..to] + [c];
      assert buffer'[..0] == "" && buffer'[from..] + "" == buffer'[from..];
    } else if from <= to {
      assert buffer'[from..to + 1] == buffer[from..to] + [c];
    } else {
      assert buffer'[from..] == buffer[from..] && buffer'[..to + 1] == buffer[..to] + [c];
    }
  }

  /** How much callers let the ring hold; well below what would make it look empty. */
  const RING_LIMIT: nat := 1020

  lemma Snoc(a: string, s: string, k: nat)
    requires k < |s|
    ensures (a + s[..k]) + [s[k]] == a + s[..k + 1]
  {}

  class MpStream {
    const input: string        // all that cgiIn will ever deliver
    const contentLength: nat
    const putback: array<char>
    var readPos: nat
    var writePos: nat
    var offset: int
    var pos: nat               // how much of cgiIn has been read
    ghost var uncounted: nat   // how much was served wholly from the ring

    ghost predicate Indices()
      reads `readPos, `writePos
    {
      putback.Length == PUTBACK_SIZE && readPos < PUTBACK_SIZE && writePos < PUTBACK_SIZE
    }

    /** Serving a read wholly from the ring leaves `offset` alone, so `offset` lags behind the
        real position by as much. */
    ghost predicate Stream()
      reads this, putback
    {
      Indices() && pos <= |input| && offset + |Ring()| + uncounted == pos
    }

    /** The server supplies at most `contentLength` bytes. */
    ghost predicate Valid()
      reads this, putback
    {
      Stream() && |input| <= contentLength
    }

    /** The characters put back and not yet read again, oldest first. */
    ghost function Ring(): string
      reads `readPos, `writePos, putback
      requires Indices()
    {
      Circle(putback[..], readPos, writePos)
    }

    ghost function File(): string
      reads `pos
      requires pos <= |input|
    {
      input[pos..]
    }

    /** Everything later reads will return. */
    ghost function Rest(): string
      reads this, putback
      requires Valid()
    {
      Ring() + File()
    }

    ghost function Left(): nat
      reads this, putback
      requires Valid()
    {
      |Ring()| + |File()|
    }

    constructor (input: string, contentLength: nat)
      ensures Stream() && Ring() == [] && File() == input && fresh(putback)
      ensures this.input == input && this.contentLength == contentLength && offset == uncounted == 0
    {
      this.input := input;
      this.contentLength := contentLength;
      putback := new char[PUTBACK_SIZE];
      readPos, writePos, offset, pos := 0, 0, 0, 0;
      uncounted := 0;
    }

    /** `mpRead`: the ring first, then the file as far as `offset` says that something is left.
        So a read goes past the declared length exactly if more is asked for than is left of it,
        and something was put back, now or uncounted before. When it does while the ring still
        gives something, `offset` gets past the length too. A return value of at most 0 says
        that nothing came. */
    method Read(len: nat) returns (got: int, data: string)
      requires Stream() && offset <= contentLength
      modifies this
      ensures Stream()
      ensures (data, Ring(), File()) == ReadOf(old(Ring()), old(File()), len, contentLength - old(offset))
      ensures uncounted == old(uncounted) + if OnlyRing(len, |old(Ring())|, old(offset)) then |data| else 0
      ensures pos <= Max(old(pos), contentLength + old(uncounted) + Min(len, |old(Ring())|))
      ensures old(pos) <= contentLength ==>
        var left := contentLength - old(pos);
        pos > contentLength <==>
          len - Min(len, |old(Ring())|) > left && |old(Ring())| + old(uncounted) > 0 && |old(File())| > left
      ensures offset ==
        old(offset) + if OnlyRing(len, |old(Ring())|, old(offset)) then 0 else |data|
      ensures got == |data| || (got < 0 && data == [])
    {
      hide ReadOf;
      ghost var room := contentLength - offset;
      data := FromRing(len);
      ghost var fromRing := data;
      var left := len - |data|;
      if left > contentLength - offset {
        left := contentLength - offset;
      }
      ghost var fromFile := "";
      if left > 0 {
        var more := FromFile(left);
        fromFile := more;
        got := |data| + |more|;
        offset := offset + got;
        data := data + more;
      } else {
        uncounted := uncounted + |data|;
        got := if |data| > 0 || len == 0 then |data| else -1;
      }
      assert data == fromRing + fromFile && old(File()) == fromFile + File();
      ReadParts(fromRing, Ring(), fromFile, File(), len, room);
    }

    /** Nothing is asked of the file. */
    ghost predicate OnlyRing(len: nat, held: nat, offset: int) {
      len <= held || contentLength <= offset
    }

    /** `mpRead` of a single character. */
    method ReadChar() returns (ok: bool, c: char)
      requires Valid()
      modifies this
      ensures Valid() && ok == (old(Rest()) != [])
      ensures !ok ==> Rest() == []
      ensures Left() == if ok then old(Left()) - 1 else old(Left())
      ensures ok ==> [c] + Rest() == old(Rest()) && c == Next(old(Ring()), old(File()))
      ensures ok ==> (Ring(), File()) == Drop(old(Ring()), old(File()))
    {
      hide ReadOf;
      ghost var ring, file, room := Ring(), File(), contentLength - offset;
      PlainRead(ring, file, 1, room);
      var got, d := Read(1);
      ok := got == 1;
      if ok {
        ReadOne(ring, file, room);
      }
      c := if ok then d[0] else NUL;
    }

    /** `mpRead` of two characters, for callers that reject a shorter result. */
    method ReadPair() returns (ok: bool, c: char, d: char)
      requires Valid()
      modifies this
      ensures Valid() && ok == (old(Left()) >= 2)
      ensures !ok ==> Rest() == []
      ensures ok ==>
        && c == Next(old(Ring()), old(File()))
        && var (ring, file) := Drop(old(Ring()), old(File()));
           d == Next(ring, file) && (Ring(), File()) == Drop(ring, file)
    {
      hide ReadOf;
      ghost var ring, file, room := Ring(), File(), contentLength - offset;
      PlainRead(ring, file, 2, room);
      var got, data := Read(2);
      ok := got == 2;
      c, d := NUL, NUL;
      if ok {
        ReadTwo(ring, file, room);
        c, d := data[0], data[1];
      }
    }

    /** `fread` on cgiIn, which blocks until it has `len` characters or the input ends. */
    method FromFile(len: nat) returns (data: string)
      requires pos <= |input|
      modifies `pos
      ensures pos <= |input| && pos == old(pos) + |data|
      ensures |data| == Min(len, |old(File())|) && old(File()) == data + File()
    {
      var n := Min(len, |input| - pos);
      data := input[pos..pos + n];
      pos := pos + n;
    }

    /** The loop of `mpRead` over the ring. */
    method FromRing(len: nat) returns (data: string)
      requires Indices()
      modifies `readPos
      ensures Indices()
      ensures |data| == Min(len, |old(Ring())|) && old(Ring()) == data + Ring()
    {
      var left := len;
      data := [];
      while left > 0 && readPos != writePos
        invariant Indices()
        invariant |data| + left == len
        invariant old(Ring()) == data + Ring()
      {
        ghost var before := Ring();
        var c := Pop();
        assert data + before == (data + [c]) + Ring();
        data := data + [c];
        left := left - 1;
      }
    }

    method Pop() returns (c: char)
      requires Indices() && readPos != writePos
      modifies `readPos
      ensures Indices() && old(Ring()) == [c] + Ring()
    {
      c := putback[readPos];
      CirclePop(putback[..], readPos, writePos);
      readPos := (readPos + 1) % PUTBACK_SIZE;
    }

    /** `mpPutBack` appends at the tail of the ring, so it restores order only when the ring
        is empty. The caller must leave room, or a full ring would read as an empty one. */
    method PutBack(data: string)
      requires Stream() && |Ring()| + |data| < PUTBACK_SIZE
      modifies `writePos, `offset, putback
      ensures Stream()
      ensures Ring() == old(Ring()) + data
    {
      offset := offset - |data|;
      ghost var ring := Ring();
      var k := 0;
      while k < |data|
        invariant k <= |data| && offset == old(offset) - |data| && Indices()
        invariant Ring() == ring + data[..k]
      {
        Push(data[k]);
        Snoc(ring, data, k);
        k := k + 1;
      }
      assert data[..k] == data;
    }

    method Push(c: char)
      requires Indices() && |Ring()| + 1 < PUTBACK_SIZE
      modifies `writePos, putback
      ensures Indices() && Ring() == old(Ring()) + [c]
    {
      CirclePush(putback[..], readPos, writePos, c);
      putback[writePos] := c;
      writePos := (writePos + 1) % PUTBACK_SIZE;
    }
  }

  /** When all that was declared has been read, a character that is put back and read again
      lets the next read go past it. */
  method ReadsPast(mpp: MpStream, c: char) returns (past: string)
    requires mpp.Stream() && mpp.Ring() == "" && mpp.offset == mpp.pos == mpp.contentLength < |mpp.input|
    modifies mpp, mpp.putback
    ensures mpp.Stream() && mpp.pos == mpp.contentLength + 1
    ensures past == [mpp.input[mpp.contentLength]]
  {
    hide ReadOf, Circle, Drop, Next;
    ghost var file := mpp.File();
    PutBackThenRead(c, file);
    mpp.PutBack([c]);
    var _, _ := mpp.Read(1);
    var _, data := mpp.Read(1);
    past := data;
  }

  /** A read that takes one character from the ring and one from the file leaves the counter past
      the declared length; then there is no room that a read could be given. */
  method Overshoots(mpp: MpStream, c: char)
    requires mpp.Stream() && mpp.Ring() == "" && mpp.offset == mpp.pos == mpp.contentLength < |mpp.input|
    modifies mpp, mpp.putback
    ensures mpp.Stream() && mpp.offset == mpp.contentLength + 1
  {
    hide ReadOf, Circle, Drop, Next;
    ghost var file := mpp.File();
    RingAndFile(c, file);
    mpp.PutBack([c]);
    var _, _ := mpp.Read(2);
  }

  lemma RingAndFile(c: char, file: string)
    requires file != ""
    ensures "" + [c] == [c] && ReadOf([c], file, 2, 1) == ([c, file[0]], "", file[1..])
  {
    assert [c][..1] + file[..1] == [c, file[0]] && [c][1..] == "";
  }

  lemma PutBackThenRead(c: char, file: string)
    requires file != ""
    ensures "" + [c] == [c] && ReadOf([c], file, 1, 1) == ([c], "", file)
    ensures ReadOf("", file, 1, 1) == ([file[0]], "", file[1..])
  {
    assert [c][1..] == "";
    ReadOne([c], file, 1);
    ReadOne("", file, 1);
  }

  /** As when one character is declared and two come. */
  method ReadsPastTheEnd(input: string) returns (past: string)
    requires |input| == 2
    ensures past == [input[1]]
  {
    hide ReadOf, Circle, Drop, Next;
    FirstOfTwo(input);
    var mpp := new MpStream(input, 1);
    var _, first := mpp.Read(1);
    past := ReadsPast(mpp, input[0]);
  }

  lemma FirstOfTwo(input: string)
    requires |input| == 2
    ensures ReadOf("", input, 1, 1) == ([input[0]], "", input[1..])
  {
    ReadOne("", input, 1);
  }
}
