/** What `cgiReadEnvironment` (web/cgic/cgic.c) makes of a saved environment that was cut short, at
    any byte, and of one of another version.
 */
module EnvironmentCut {
  import opened Text
  import opened Multipart
  import opened EnvironmentSpec

  lemma CutApart(a: string, b: string, k: nat)
    requires k <= |a| + |b|
    ensures (a + b)[..k] == if k < |a| then a[..k] else a + b[..k - |a|]
  {}

  lemma IntCut(i: int, after: string, k: nat)
    requires IsInt(i) && k <= 4 + |after|
    ensures ReadInt((IntBytes(i) + after)[..k]) == if k < 4 then Nothing else Got(i, after[..k - 4])
  {
    CutApart(IntBytes(i), after, k);
    if k >= 4 {
      IntReadBack(i, after[..k - 4]);
    }
  }

  lemma StringCut(s: string, after: string, k: nat)
    requires Plain(s) && k <= 4 + |s| + |after|
    ensures Writable(s) && |StringBytes(s)| == 4 + |s|
    ensures
      ReadString((StringBytes(s) + after)[..k]) == if k < 4 + |s| then Nothing else Got(s, after[..k - 4 - |s|])
  {
    hide IntBytes, ReadInt, CString;
    PlainIsCString(s);
    StringSize(s);
    CutApart(StringBytes(s), after, k);
    if k >= 4 + |s| {
      StringReadBack(s, after[..k - 4 - |s|]);
    } else {
      assert StringBytes(s) + after == IntBytes(|s|) + (s + after);
      IntCut(|s|, s + after, k);
    }
  }

  lemma {:induction false} StringsCut(s: seq<string>, after: string, k: nat)
    requires (forall x | x in s :: Plain(x)) && k <= Lengths(s) + |after|
    ensures (forall x | x in s :: Writable(x)) && |StringsBytes(s, after)| == Lengths(s) + |after|
    ensures
      ReadStrings(StringsBytes(s, after)[..k], |s|) ==
        if k < Lengths(s) then Nothing else Got(s, after[..k - Lengths(s)])
  {
    hide StringBytes, ReadString, Writable, Plain;
    PlainAreWritable(s);
    StringsSize(s, after);
    if s == [] {
      assert after[..k] == after[..k - Lengths(s)];
    } else {
      var more := StringsBytes(s[1..], after);
      StringsSize(s[1..], after);
      StringCut(s[0], more, k);
      if k >= 4 + |s[0]| {
        StringsCut(s[1..], after, k - 4 - |s[0]|);
        assert s == [s[0]] + s[1..];
      }
    }
  }

  /** An entry that is cut: before the end of its name it is not noticed; then it is an error, and
      another one when only the upload is cut. */
  function CutEntry(e: Entry, after: string, k: nat): EntryRead
    requires k <= Size(e) + |after|
  {
    if k < 4 + |e.attr| then NoMore
    else if k < Size(e) - |UploadBytes(e)| then Broken(Memory)
    else if k < Size(e) then Broken(Io)
    else One(e, after[..k - Size(e)])
  }

  function UploadBytes(e: Entry): (s: string)
    ensures |s| <= Size(e)
  {
    if e.upload.Some? then e.upload.value else ""
  }

  lemma EntryCut(e: Entry, after: string, k: nat)
    requires PlainEntry(e) && k <= Size(e) + |after|
    ensures WritableEntry(e) && |EntryBytes(e, e.upload, after)| == Size(e) + |after|
    ensures ReadEntry(EntryBytes(e, e.upload, after)[..k]) == CutEntry(e, after, k)
  {
    hide StringBytes, StringsBytes, ReadString, ReadBehindName, IntBytes, Plain, Writable, Lengths;
    EntrySize(e, after);
    var strings := [e.value, e.fileName, e.contentType];
    var fields := IntBytes(e.valueLength) + FileBytes(e.upload, after);
    StringsSize(strings, fields);
    StringCut(e.attr, StringsBytes(strings, fields), k);
    if k >= 4 + |e.attr| {
      BehindNameCut(e, after, k - 4 - |e.attr|);
    }
  }

  lemma BehindNameCut(e: Entry, after: string, k: nat)
    requires PlainEntry(e) && 4 + |e.attr| + k <= Size(e) + |after|
    ensures
      var strings := [e.value, e.fileName, e.contentType];
      var fields := IntBytes(e.valueLength) + FileBytes(e.upload, after);
      && (forall x | x in strings :: Writable(x)) && k <= |StringsBytes(strings, fields)|
      && ReadBehindName(e.attr, StringsBytes(strings, fields)[..k]) == CutEntry(e, after, 4 + |e.attr| + k)
  {
    hide StringsBytes, ReadStrings, ReadInt, IntBytes, Plain, Writable, Lengths;
    var strings := [e.value, e.fileName, e.contentType];
    var tail := FileBytes(e.upload, after);
    var fields := IntBytes(e.valueLength) + tail;
    StringsSize(strings, fields);
    StringsCut(strings, fields, k);
    if k >= Lengths(strings) {
      var k2 := k - Lengths(strings);
      IntCut(e.valueLength, tail, k2);
      if k2 >= 4 {
        FlagCut(e, after, k2 - 4);
      }
    }
  }

  /** The end of an entry: whether there is an upload, and the upload. */
  lemma FlagCut(e: Entry, after: string, k: nat)
    requires PlainEntry(e) && k <= 4 + |UploadBytes(e)| + |after|
    ensures
      var bare := e.(upload := None);
      match ReadInt(FileBytes(e.upload, after)[..k])
      case Nothing => k < 4
      case Got(flag, rest) =>
        && k >= 4
        && (if flag == 0 then One(bare, rest) else WithFile(bare, rest)) ==
             if k < 4 + |UploadBytes(e)| then Broken(Io) else One(e, after[..k - 4 - |UploadBytes(e)|])
  {
    hide IntBytes, ReadInt, Plain;
    match e.upload
    case None => IntCut(0, after, k);
    case Some(content) =>
      IntCut(1, content + after, k);
      if k >= 4 {
        CutApart(content, after, k - 4);
      }
  }

  /** What is read of entries that are cut after `k` bytes. */
  function CutEntries(part: seq<Entry>, k: nat): (ResultType, seq<Entry>)
    requires k <= TotalSize(part)
  {
    if part == [] then (Good, [])
    else
      var e := part[0];
      if k < Size(e) then
        (if k < 4 + |e.attr| then Good else if k < Size(e) - |UploadBytes(e)| then Memory else Io, [])
      else
        var (status, more) := CutEntries(part[1..], k - Size(e));
        (status, [e] + more)
  }

  lemma {:induction false} EntriesCut(all: seq<Entry>, part: seq<Entry>, k: nat)
    requires forall e | e in part :: PlainEntry(e) && e.upload == FileOf(all, e.attr)
    requires k <= TotalSize(part)
    ensures forall e | e in part :: WritableEntry(e)
    ensures |EntriesBytes(all, part)| == TotalSize(part)
    ensures ReadEntries(EntriesBytes(all, part)[..k]) == CutEntries(part, k)
    decreases |part|
  {
    hide PlainEntry, WritableEntry, EntryBytes, FileOf, Size, ReadEntry;
    PlainEntriesAreWritable(part);
    EntriesSize(all, part);
    if part == [] {
      NothingRead();
    } else {
      var e, after := part[0], EntriesBytes(all, part[1..]);
      EntriesSize(all, part[1..]);
      EntrySize(e, after);
      EntryCut(e, after, k);
      NameFits(e);
      if k >= Size(e) {
        EntriesCut(all, part[1..], k - Size(e));
      }
    }
  }

  lemma NameFits(e: Entry)
    ensures 4 + |e.attr| <= Size(e) - |UploadBytes(e)|
  {}

  function HeaderSize(env: Environment): nat {
    4 + |VERSION| + Lengths(Listed(env.vars)) + 4
  }

  /** A saved environment whose entries all have the file of the first of their name, cut after `k`
      bytes: before the entries it is refused; behind that, the entries before the cut are restored
      as if nothing were missing when the cut is in the name of the next one, or right before it. */
  lemma CutShort(env: Environment, k: nat)
    requires PlainEnvironment(env) && Unshared(env.entries)
    requires k <= HeaderSize(env) + TotalSize(env.entries)
    ensures WritableEnvironment(env) && |Written(env)| == HeaderSize(env) + TotalSize(env.entries)
    ensures
      Restore(Written(env)[..k]) ==
        if k < HeaderSize(env) then Failed(Io)
        else
          var (status, entries) := CutEntries(env.entries, k - HeaderSize(env));
          if status == Good then Restored(env.(entries := entries)) else Failed(status)
  {
    hide Plain, PlainEntry, Listed, FromList, Writable, WritableEntry, ReadEntries, ReadString, ReadStrings, ReadInt,
         StringsBytes, StringBytes, IntBytes, EntriesBytes, FileOf, CutEntries, Lengths, TotalSize;
    PlainHas(env);
    PlainIsWritable(env);
    var entries := env.entries;
    assert forall e | e in entries :: e.upload == FileOf(entries, e.attr);
    EntriesCut(entries, entries, 0);
    var vars, bytes := Listed(env.vars), EntriesBytes(entries, entries);
    var tail := IntBytes(env.contentLength) + bytes;
    VersionIsPlain();
    FromListed(env.vars);
    StringsSize(vars, tail);
    StringCut(VERSION, StringsBytes(vars, tail), k);
    var k1 := k - 4 - |VERSION|;
    if k1 >= 0 {
      StringsCut(vars, tail, k1);
      var k2 := k1 - Lengths(vars);
      if k2 >= 0 {
        IntCut(env.contentLength, bytes, k2);
        if k2 >= 4 {
          EntriesCut(entries, entries, k2 - 4);
        }
      }
    }
  }

  lemma VersionIsPlain()
    ensures Plain(VERSION) && |VERSION| == 7
  {}

  /** Another version is refused, whatever follows. */
  lemma OtherVersion(version: string, rest: string)
    requires Plain(version) && version != VERSION
    ensures Writable(version) && Restore(StringBytes(version) + rest) == Failed(WrongVersion)
  {
    hide StringBytes, ReadString, Plain, Writable;
    StringReadBack(version, rest);
  }
}
