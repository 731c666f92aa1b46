/** Saving and restoring a CGI environment (web/cgic/cgic.c), on a file system that may be full.
 */
module Environments {
  import opened Text
  import opened Multipart
  import opened EnvironmentSpec

  /** A file being written, on a disk with so much room for it. */
  class OutFile {
    const room: nat
    var bytes: string
    var deleted: bool
    ghost var wanted: string     // everything that was to be written

    ghost predicate Valid()
      reads this
    {
      bytes == wanted[..Min(|wanted|, room)]
    }

    constructor (room: nat)
      ensures Valid() && this.room == room && wanted == "" && !deleted
    {
      this.room, bytes, deleted, wanted := room, "", false, "";
    }

    /** `fwrite` of single bytes. */
    method Fwrite(s: string) returns (n: nat)
      requires Valid()
      modifies this`bytes, this`wanted
      ensures Valid() && wanted == old(wanted) + s
      ensures n <= |s| && (n == |s| <==> s == "" || |wanted| <= room)
    {
      n := Min(|s|, room - |bytes|);
      bytes := bytes + s[..n];
      wanted := wanted + s;
    }

    /** `cgiWriteInt`: one item of four bytes. */
    method WriteInt(i: int) returns (ok: bool)
      requires Valid() && IsInt(i)
      modifies this`bytes, this`wanted
      ensures Valid() && wanted == old(wanted) + IntBytes(i)
      ensures ok <==> |wanted| <= room
    {
      var n := Fwrite(IntBytes(i));
      ok := n == 4;
    }

    /** `cgiWriteString`; whether the length could be written is not asked. */
    method WriteString(s: string) returns (ok: bool)
      requires Valid() && Writable(s)
      modifies this`bytes, this`wanted
      ensures Valid() && wanted == old(wanted) + StringBytes(s)
      ensures ok <==> CString(s) == "" || |wanted| <= room
    {
      var text := CString(s);
      var _ := WriteInt(|text|);
      var n := Fwrite(text);
      ok := n == |text|;
      assert wanted == old(wanted) + StringBytes(s);
    }

    /** The loop that copies an upload, 1024 bytes at a time. */
    method CopyFile(content: string) returns (ok: bool)
      requires Valid()
      modifies this`bytes, this`wanted
      ensures Valid()
      ensures if ok then wanted == old(wanted) + content else |wanted| > room && wanted <= old(wanted) + content
      ensures ok ==> content == "" || |wanted| <= room
    {
      var pos := 0;
      assert old(wanted) + content[..0] == old(wanted);
      while pos < |content|
        invariant pos <= |content| && Valid() && wanted == old(wanted) + content[..pos]
        invariant pos == 0 || |wanted| <= room
      {
        var got := Min(1024, |content| - pos);
        CopiedPiece(old(wanted), content, pos, got);
        var n := Fwrite(content[pos..pos + got]);
        if n != got {
          return false;
        }
        pos := pos + got;
      }
      assert content[..pos] == content;
      ok := true;
    }
  }

  lemma CopiedPiece(before: string, content: string, pos: nat, got: nat)
    requires pos + got <= |content|
    ensures before + content[..pos] + content[pos..pos + got] == before + content[..pos + got] <= before + content
  {
    assert content[..pos] + content[pos..pos + got] == content[..pos + got];
    assert before + content == before + content[..pos + got] + content[pos + got..];
  }

  /** `after` is still to be written, of all that makes `total`. */
  ghost predicate Ahead(total: string, wanted: string, after: string) {
    total == wanted + after
  }

  lemma AheadStep(total: string, wanted: string, x: string, after: string)
    requires Ahead(total, wanted, x + after)
    ensures Ahead(total, wanted + x, after) && |wanted + x| <= |total|
  {
    assert wanted + (x + after) == wanted + x + after;
  }

  /** The strings, one after the other, until one fails. */
  method WriteStrings(out: OutFile, s: seq<string>, ghost total: string, ghost after: string) returns (ok: bool)
    requires out.Valid() && (forall x | x in s :: Writable(x)) && Ahead(total, out.wanted, StringsBytes(s, after))
    modifies out`bytes, out`wanted
    ensures out.Valid() && if ok then Ahead(total, out.wanted, after) else |total| > out.room
  {
    var k := 0;
    assert s[0..] == s;
    while k < |s|
      invariant k <= |s| && out.Valid() && Ahead(total, out.wanted, StringsBytes(s[k..], after))
    {
      assert s[k..][1..] == s[k + 1..];
      AheadStep(total, out.wanted, StringBytes(s[k]), StringsBytes(s[k + 1..], after));
      hide Ahead, CString, StringBytes;
      ok := out.WriteString(s[k]);
      if !ok {
        return;
      }
      k := k + 1;
    }
    ok := true;
  }

  /** The file of an entry, if one opens: the number 1 and its bytes, or the number 0. */
  method WriteFile(out: OutFile, file: Option<string>, ghost total: string, ghost after: string) returns (ok: bool)
    requires out.Valid() && Ahead(total, out.wanted, FileBytes(file, after))
    modifies out`bytes, out`wanted
    ensures out.Valid()
    ensures if ok then Ahead(total, out.wanted, after) && |out.wanted| <= out.room else |total| > out.room
  {
    if file.Some? {
      AheadStep(total, out.wanted, IntBytes(1), file.value + after);
      ok := out.WriteInt(1);
      if ok {
        AheadStep(total, out.wanted, file.value, after);
        hide Ahead;
        ok := out.CopyFile(file.value);
      }
    } else {
      AheadStep(total, out.wanted, IntBytes(0), after);
      hide Ahead;
      ok := out.WriteInt(0);
    }
  }

  /** One round of the loop of `cgiWriteEnvironment`. */
  method WriteEntry(out: OutFile, e: Entry, file: Option<string>, ghost total: string, ghost after: string)
    returns (ok: bool)
    requires out.Valid() && WritableEntry(e) && Ahead(total, out.wanted, EntryBytes(e, file, after))
    modifies out`bytes, out`wanted
    ensures out.Valid()
    ensures if ok then Ahead(total, out.wanted, after) && |out.wanted| <= out.room else |total| > out.room
  {
    ghost var tail := FileBytes(file, after);
    ghost var strings := [e.value, e.fileName, e.contentType];
    AheadStep(total, out.wanted, StringBytes(e.attr), StringsBytes(strings, IntBytes(e.valueLength) + tail));
    hide Ahead, StringBytes, StringsBytes, FileBytes, IntBytes;
    ok := out.WriteString(e.attr);
    if !ok {
      return;
    }
    ok := WriteStrings(out, [e.value, e.fileName, e.contentType], total, IntBytes(e.valueLength) + tail);
    if !ok {
      return;
    }
    AheadStep(total, out.wanted, IntBytes(e.valueLength), tail);
    ok := out.WriteInt(e.valueLength);
    if !ok {
      return;
    }
    ok := WriteFile(out, file, total, after);
  }

  method WriteEntries(out: OutFile, entries: seq<Entry>, ghost total: string) returns (ok: bool)
    requires out.Valid() && (forall e | e in entries :: WritableEntry(e)) && |out.wanted| <= out.room
    requires Ahead(total, out.wanted, EntriesBytes(entries, entries))
    modifies out`bytes, out`wanted
    ensures out.Valid()
    ensures if ok then Ahead(total, out.wanted, "") && |out.wanted| <= out.room else |total| > out.room
  {
    var k := 0;
    assert entries[0..] == entries;
    hide Ahead;
    while k < |entries|
      invariant k <= |entries| && out.Valid() && |out.wanted| <= out.room
      invariant Ahead(total, out.wanted, EntriesBytes(entries, entries[k..]))
    {
      assert entries[k..][1..] == entries[k + 1..];
      ghost var after := EntriesBytes(entries, entries[k + 1..]);
      ok := WriteEntry(out, entries[k], FileOf(entries, entries[k].attr), total, after);
      if !ok {
        return;
      }
      k := k + 1;
    }
    ok := true;
  }

  /** `cgiWriteEnvironment`: all is written, or nothing is left and the caller is told. */
  method WriteEnvironment(env: Environment, room: nat) returns (out: OutFile, status: ResultType)
    requires WritableEnvironment(env)
    ensures fresh(out)
    ensures status == if |Written(env)| <= room then Good else Io
    ensures if status == Good then out.bytes == Written(env) && !out.deleted else out.deleted
  {
    out := new OutFile(room);
    ghost var total := Written(env);
    var ok := WriteAll(out, env, total);
    if ok {
      status := Good;
    } else {
      out.deleted := true;
      status := Io;
    }
  }

  method WriteAll(out: OutFile, env: Environment, ghost total: string) returns (ok: bool)
    requires out.Valid() && WritableEnvironment(env) && out.wanted == "" && total == Written(env)
    modifies out`bytes, out`wanted
    ensures ok <==> |total| <= out.room
    ensures ok ==> out.bytes == total
  {
    hide Ahead, Written, StringBytes, StringsBytes, EntriesBytes, Listed, IntBytes, CString, Writable, WritableEntry;
    ghost var entries := EntriesBytes(env.entries, env.entries);
    Started(env, entries);
    ok := out.WriteString(VERSION);
    if !ok {
      return;
    }
    ok := WriteStrings(out, Listed(env.vars), total, IntBytes(env.contentLength) + entries);
    if !ok {
      return;
    }
    AheadStep(total, out.wanted, IntBytes(env.contentLength), entries);
    ok := out.WriteInt(env.contentLength);
    if !ok {
      return;
    }
    ok := WriteEntries(out, env.entries, total);
    if ok {
      AheadDone(total, out.wanted);
    }
  }

  lemma Started(env: Environment, entries: string)
    requires WritableEnvironment(env) && entries == EntriesBytes(env.entries, env.entries)
    ensures Writable(VERSION) && CString(VERSION) != ""
    ensures
      var start := "" + StringBytes(VERSION);
      && |start| <= |Written(env)|
      && Ahead(Written(env), start, StringsBytes(Listed(env.vars), IntBytes(env.contentLength) + entries))
  {
    hide StringBytes, StringsBytes, EntriesBytes, Listed, IntBytes, WritableEntry;
    assert "" + StringBytes(VERSION) == StringBytes(VERSION);
  }

  lemma AheadDone(total: string, wanted: string)
    requires Ahead(total, wanted, "")
    ensures total == wanted
  {}

  // ---- Reading

  class InFile {
    const bytes: string
    var pos: nat

    ghost predicate Valid()
      reads this
    {
      pos <= |bytes|
    }

    ghost function Left(): string
      reads this
      requires Valid()
    {
      bytes[pos..]
    }

    constructor (bytes: string)
      ensures Valid() && Left() == bytes
    {
      this.bytes, pos := bytes, 0;
    }

    /** `fread` of single bytes. */
    method Fread(n: nat) returns (got: string)
      requires Valid()
      modifies this
      ensures Valid() && got == old(Left())[..Min(n, old(|Left()|))] && Left() == old(Left())[|got|..]
    {
      got := bytes[pos..pos + Min(n, |bytes| - pos)];
      pos := pos + |got|;
    }

    /** `cgiReadInt`. */
    method GetInt() returns (ok: bool, i: int)
      requires Valid()
      modifies this
      ensures Valid() && ReadInt(old(Left())) == if ok then Got(i, Left()) else Nothing
    {
      var b := Fread(4);
      ok := |b| == 4;
      i := if ok then ToInt(b) else 0;
    }

    /** `cgiReadString`. */
    method GetString() returns (ok: bool, s: string)
      requires Valid()
      modifies this
      ensures Valid() && ReadString(old(Left())) == if ok then Got(s, Left()) else Nothing
    {
      var len;
      s := "";
      ok, len := GetInt();
      if !ok || len < 0 {
        return false, s;
      }
      hide ReadInt, CString;
      var text := Fread(len);
      ok := |text| == len;
      s := CString(text);
    }

    /** Strings, one after the other, until one fails. */
    method GetStrings(n: nat) returns (ok: bool, s: seq<string>)
      requires Valid()
      modifies this
      ensures Valid() && ReadStrings(old(Left()), n) == if ok then Got(s, Left()) else Nothing
    {
      hide Pending, ReadString, ReadStrings;
      s := [];
      ghost var target := ReadStrings(Left(), n);
      Start(target, Left(), n);
      while |s| < n
        invariant Valid() && |s| <= n && Pending(target, s, Left(), n - |s|)
      {
        var x;
        PendingStep(target, s, Left(), n - |s|);
        ok, x := GetString();
        if !ok {
          return;
        }
        s := s + [x];
      }
      PendingStep(target, s, Left(), 0);
      ok := true;
    }

    /** The loop that copies an upload, at most 1024 bytes at a time. */
    method GetUpload(n: int) returns (ok: bool, content: string)
      requires Valid()
      modifies this
      ensures Valid()
      ensures ok <==> n <= old(|Left()|)
      ensures ok ==> content == old(Left())[..Max(n, 0)] && Left() == old(Left())[Max(n, 0)..]
    {
      content := "";
      var len := n;
      ghost var s := Left();
      while len > 0
        invariant Valid() && |content| <= |s| && content == s[..|content|] && Left() == s[|content|..]
        invariant len == n - |content| && |content| <= Max(n, 0)
      {
        var got := Fread(Min(len, 1024));
        if got == "" {
          return false, content;
        }
        assert s[..|content|] + s[|content|..][..|got|] == s[..|content| + |got|];
        content := content + got;
        len := len - |got|;
      }
      ok := true;
    }
  }

  /** `done` has been read, and `n` strings are still to be read from `s`. */
  ghost predicate Pending(target: Got<seq<string>>, done: seq<string>, s: string, n: nat) {
    target == match ReadStrings(s, n)
              case Nothing => Nothing
              case Got(more, rest) => Got(done + more, rest)
  }

  lemma Start(target: Got<seq<string>>, s: string, n: nat)
    requires target == ReadStrings(s, n)
    ensures Pending(target, [], s, n)
  {
    hide ReadStrings;
    if target.Got? {
      assert [] + target.value == target.value;
    }
  }

  lemma PendingStep(target: Got<seq<string>>, done: seq<string>, s: string, n: nat)
    requires Pending(target, done, s, n)
    ensures n == 0 ==> target == Got(done, s)
    ensures n > 0 ==>
      match ReadString(s)
      case Nothing => target == Nothing
      case Got(x, rest) => Pending(target, done + [x], rest, n - 1)
  {
    hide ReadString;
    if n > 0 && ReadString(s).Got? {
      var g := ReadStrings(ReadString(s).rest, n - 1);
      if g.Got? {
        assert done + ([ReadString(s).value] + g.value) == done + [ReadString(s).value] + g.value;
      }
    } else if n == 0 {
      assert done + [] == done;
    }
  }

  datatype Round = End | Fail(status: ResultType) | Next(e: Entry)

  /** One round of the loop of `cgiReadEnvironment`. */
  method GetEntry(file: InFile) returns (r: Round)
    requires file.Valid()
    modifies file
    ensures file.Valid()
    ensures
      match ReadEntry(old(file.Left()))
      case NoMore => r == End
      case Broken(status) => r == Fail(status)
      case One(e, rest) => r == Next(e) && file.Left() == rest
  {
    hide ReadString, ReadStrings, ReadInt;
    var ok, attr := file.GetString();
    if !ok {
      return End;
    }
    var x, length, flag;
    ok, x := file.GetStrings(3);
    if !ok {
      return Fail(Memory);
    }
    ok, length := file.GetInt();
    if !ok {
      return Fail(Memory);
    }
    ok, flag := file.GetInt();
    if !ok {
      return Fail(Memory);
    }
    var e := Entry(attr, x[0], length, x[1], x[2], None);
    if flag != 0 {
      var content;
      ok, content := file.GetUpload(length);
      if !ok {
        return Fail(Io);
      }
      e := e.(upload := Some(content));
    }
    r := Next(e);
  }

  /** `before` has been read, and the rest of the list is still to be read from `s`. */
  ghost predicate PendingEntries(target: (ResultType, seq<Entry>), before: seq<Entry>, s: string) {
    var (status, more) := ReadEntries(s);
    target == (status, before + more)
  }

  lemma PendingEntry(target: (ResultType, seq<Entry>), before: seq<Entry>, s: string)
    requires PendingEntries(target, before, s)
    ensures
      match ReadEntry(s)
      case NoMore => target == (Good, before)
      case Broken(status) => target == (status, before)
      case One(e, rest) => PendingEntries(target, before + [e], rest)
  {
    hide ReadEntry;
    var r := ReadEntry(s);
    if r.One? {
      var more := ReadEntries(r.rest).1;
      assert before + ([r.e] + more) == before + [r.e] + more;
    } else {
      assert before + [] == before;
    }
  }

  method GetEntries(file: InFile) returns (status: ResultType, entries: seq<Entry>)
    requires file.Valid()
    modifies file
    ensures (status, entries) == ReadEntries(old(file.Left()))
  {
    entries := [];
    ghost var target := ReadEntries(file.Left());
    assert PendingEntries(target, [], file.Left()) by {
      assert [] + target.1 == target.1;
    }
    while true
      invariant file.Valid() && PendingEntries(target, entries, file.Left())
      decreases |file.Left()|
    {
      PendingEntry(target, entries, file.Left());
      hide PendingEntries, ReadEntries;
      var r := GetEntry(file);
      match r {
        case End => return Good, entries;
        case Fail(s) => return s, entries;
        case Next(e) => entries := entries + [e];
      }
    }
  }

  /** `cgiReadEnvironment` on a file with these bytes. */
  method ReadEnvironment(bytes: string) returns (r: Restored)
    ensures r == Restore(bytes)
  {
    var file := new InFile(bytes);
    hide ReadString, ReadStrings, ReadInt, ReadEntries, FromList;
    var ok, version := file.GetString();
    if !ok {
      return Failed(Io);
    }
    if version != VERSION {
      return Failed(WrongVersion);
    }
    var vars, contentLength, status, entries;
    ok, vars := file.GetStrings(VARS);
    if !ok {
      return Failed(Io);
    }
    ok, contentLength := file.GetInt();
    if !ok {
      return Failed(Io);
    }
    status, entries := GetEntries(file);
    r := if status == Good then Restored(Environment(FromList(vars), contentLength, entries)) else Failed(status);
  }
}
