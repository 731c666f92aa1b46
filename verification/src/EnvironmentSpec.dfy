/** The file format of a saved CGI environment (web/cgic/cgic.c): what is written, what is read
    back, and when the two are the same.
 */
module EnvironmentSpec {
  import opened Text
  import opened Multipart

  const VERSION: string := "CGIC2.0"
  const VARS: nat := 20

  /** The environment variables. */
  datatype Vars = Vars(
    serverSoftware: string, serverName: string, gatewayInterface: string, serverProtocol: string,
    serverPort: string, requestMethod: string, pathInfo: string, pathTranslated: string, scriptName: string,
    queryString: string, remoteHost: string, remoteAddr: string, authType: string, remoteUser: string,
    remoteIdent: string, contentType: string, accept: string, userAgent: string, referrer: string, cookie: string)

  /** In the order in which they are written. */
  function Listed(v: Vars): (s: seq<string>)
    ensures |s| == VARS
  {
    [v.serverSoftware, v.serverName, v.gatewayInterface, v.serverProtocol,
     v.serverPort, v.requestMethod, v.pathInfo, v.pathTranslated, v.scriptName,
     v.queryString, v.remoteHost, v.remoteAddr, v.authType, v.remoteUser,
     v.remoteIdent, v.contentType, v.accept, v.userAgent, v.referrer, v.cookie]
  }

  /** In the order in which they are read. */
  function FromList(s: seq<string>): (v: Vars)
    requires |s| == VARS
    ensures Listed(v) == s
  {
    Vars(s[0], s[1], s[2], s[3], s[4], s[5], s[6], s[7], s[8], s[9],
         s[10], s[11], s[12], s[13], s[14], s[15], s[16], s[17], s[18], s[19])
  }

  datatype Environment = Environment(vars: Vars, contentLength: int, entries: seq<Entry>)

  datatype ResultType = Good | Io | Memory | WrongVersion

  datatype Restored = Restored(env: Environment) | Failed(status: ResultType)

  // ---- Integers: four bytes, least significant first, two's complement

  const LIMIT: int := 0x8000_0000

  predicate IsInt(i: int) {
    -LIMIT <= i < LIMIT
  }

  function IntBytes(i: int): (b: string)
    requires IsInt(i)
    ensures |b| == 4
  {
    var u := if i < 0 then i + 2 * LIMIT else i;
    [(u % 256) as char, (u / 0x100 % 256) as char, (u / 0x1_0000 % 256) as char, (u / 0x100_0000) as char]
  }

  function ToInt(b: string): int
    requires |b| == 4
  {
    var u := b[0] as int + b[1] as int * 0x100 + b[2] as int * 0x1_0000 + b[3] as int * 0x100_0000;
    if u < LIMIT then u else u - 2 * LIMIT
  }

  lemma IntRoundTrip(i: int)
    requires IsInt(i)
    ensures ToInt(IntBytes(i)) == i
  {
    var u := if i < 0 then i + 2 * LIMIT else i;
    assert u / 0x100 / 0x100 == u / 0x1_0000 && u / 0x1_0000 / 0x100 == u / 0x100_0000;
  }

  // ---- Writing

  predicate Writable(s: string) {
    |CString(s)| < LIMIT
  }

  /** `cgiWriteString`. */
  function StringBytes(s: string): string
    requires Writable(s)
  {
    IntBytes(|CString(s)|) + CString(s)
  }

  /** Strings, and what is written after them. */
  function StringsBytes(s: seq<string>, after: string): string
    requires forall x | x in s :: Writable(x)
  {
    if s == [] then after else StringBytes(s[0]) + StringsBytes(s[1..], after)
  }

  /** `cgiFormEntryFindFirst`. */
  function FirstNamed(entries: seq<Entry>, name: string): (r: Option<Entry>)
    ensures r.Some? ==> r.value in entries && r.value.attr == name
  {
    if entries == [] then None
    else if entries[0].attr == name then Some(entries[0])
    else FirstNamed(entries[1..], name)
  }

  /** The content that `cgiFormFileOpen` opens: the file of the first entry of that name. */
  function FileOf(entries: seq<Entry>, name: string): Option<string> {
    match FirstNamed(entries, name)
    case None => None
    case Some(e) => e.upload
  }

  predicate WritableEntry(e: Entry) {
    Writable(e.attr) && Writable(e.value) && Writable(e.fileName) && Writable(e.contentType) && IsInt(e.valueLength)
  }

  /** One entry, with the content of the file that was opened for it, and what is written after. */
  function EntryBytes(e: Entry, file: Option<string>, after: string): string
    requires WritableEntry(e)
  {
    StringBytes(e.attr) +
    StringsBytes([e.value, e.fileName, e.contentType], IntBytes(e.valueLength) + FileBytes(file, after))
  }

  function FileBytes(file: Option<string>, after: string): string {
    match file
    case None => IntBytes(0) + after
    case Some(content) => IntBytes(1) + (content + after)
  }

  /** The entries `part`, out of `all`. */
  function EntriesBytes(all: seq<Entry>, part: seq<Entry>): string
    requires forall e | e in part :: WritableEntry(e)
  {
    if part == [] then "" else EntryBytes(part[0], FileOf(all, part[0].attr), EntriesBytes(all, part[1..]))
  }

  predicate WritableEnvironment(env: Environment) {
    (forall x | x in Listed(env.vars) :: Writable(x)) && IsInt(env.contentLength)
    && forall e | e in env.entries :: WritableEntry(e)
  }

  /** What `cgiWriteEnvironment` writes. */
  function Written(env: Environment): string
    requires WritableEnvironment(env)
  {
    StringBytes(VERSION) +
    StringsBytes(Listed(env.vars), IntBytes(env.contentLength) + EntriesBytes(env.entries, env.entries))
  }

  // ---- Reading

  datatype Got<T> = Nothing | Got(value: T, rest: string)

  function ReadInt(s: string): Got<int> {
    if |s| < 4 then Nothing else Got(ToInt(s[..4]), s[4..])
  }

  /** `cgiReadString`; a negative length is taken to fail. */
  function ReadString(s: string): (g: Got<string>)
    ensures g.Got? ==> |g.rest| < |s|
  {
    match ReadInt(s)
    case Nothing => Nothing
    case Got(len, rest) => if len < 0 || |rest| < len then Nothing else Got(CString(rest[..len]), rest[len..])
  }

  function ReadStrings(s: string, n: nat): (g: Got<seq<string>>)
    ensures g.Got? ==> |g.value| == n && |g.rest| <= |s|
  {
    if n == 0 then Got([], s)
    else
      match ReadString(s)
      case Nothing => Nothing
      case Got(x, rest) =>
        match ReadStrings(rest, n - 1)
        case Nothing => Nothing
        case Got(more, rest') => Got([x] + more, rest')
  }

  datatype EntryRead = NoMore | Broken(status: ResultType) | One(e: Entry, rest: string)

  /** One round of the loop of `cgiReadEnvironment`. */
  function ReadEntry(s: string): (r: EntryRead)
    ensures r.One? ==> |r.rest| < |s|
    ensures r.Broken? ==> r.status != Good
  {
    match ReadString(s)
    case Nothing => NoMore
    case Got(attr, s1) => ReadBehindName(attr, s1)
  }

  function ReadBehindName(attr: string, s: string): (r: EntryRead)
    ensures !r.NoMore? && (r.One? ==> |r.rest| <= |s|) && (r.Broken? ==> r.status != Good)
  {
    match ReadStrings(s, 3)
    case Nothing => Broken(Memory)
    case Got(x, s2) =>
      match ReadInt(s2)
      case Nothing => Broken(Memory)
      case Got(length, s3) =>
        match ReadInt(s3)
        case Nothing => Broken(Memory)
        case Got(flag, s4) =>
          var e := Entry(attr, x[0], length, x[1], x[2], None);
          if flag == 0 then One(e, s4) else WithFile(e, s4)
  }

  /** The file of an entry, whose length is in the entry. */
  function WithFile(e: Entry, s: string): (r: EntryRead)
    ensures r.One? ==> |r.rest| <= |s|
    ensures r.Broken? ==> r.status != Good
  {
    var n := Max(e.valueLength, 0);
    if n <= |s| then One(e.(upload := Some(s[..n])), s[n..]) else Broken(Io)
  }

  function ReadEntries(s: string): (r: (ResultType, seq<Entry>))
    decreases |s|
  {
    match ReadEntry(s)
    case NoMore => (Good, [])
    case Broken(status) => (status, [])
    case One(e, rest) =>
      var (status, more) := ReadEntries(rest);
      (status, [e] + more)
  }

  /** `cgiReadEnvironment` on a file with these bytes. */
  function Restore(s: string): Restored {
    match ReadString(s)
    case Nothing => Failed(Io)
    case Got(version, s1) =>
      if version != VERSION then Failed(WrongVersion)
      else
        match ReadStrings(s1, VARS)
        case Nothing => Failed(Io)
        case Got(vars, s2) =>
          match ReadInt(s2)
          case Nothing => Failed(Io)
          case Got(contentLength, s3) =>
            var (status, entries) := ReadEntries(s3);
            if status == Good then Restored(Environment(FromList(vars), contentLength, entries)) else Failed(status)
  }

  // ---- The round trip

  predicate Plain(s: string) {
    NUL !in s && |s| < LIMIT
  }

  /** An entry as the form parsers make them: C strings, and the length of an upload. */
  predicate PlainEntry(e: Entry) {
    && Plain(e.attr) && Plain(e.value) && Plain(e.fileName) && Plain(e.contentType) && IsInt(e.valueLength)
    && (e.upload.Some? ==> e.valueLength == |e.upload.value|)
  }

  predicate PlainEnvironment(env: Environment) {
    && (forall x | x in Listed(env.vars) :: Plain(x)) && IsInt(env.contentLength)
    && (forall e | e in env.entries :: PlainEntry(e))
  }

  lemma PlainIsCString(s: string)
    requires Plain(s)
    ensures CString(s) == s && Writable(s)
  {
    CStringOfPlain(s, "");
    assert s + "" == s;
  }

  lemma IntReadBack(i: int, rest: string)
    requires IsInt(i)
    ensures ReadInt(IntBytes(i) + rest) == Got(i, rest)
  {
    IntRoundTrip(i);
    hide IntBytes, ToInt;
    assert (IntBytes(i) + rest)[..4] == IntBytes(i) && (IntBytes(i) + rest)[4..] == rest;
  }

  lemma StringReadBack(s: string, rest: string)
    requires Plain(s)
    ensures Writable(s) && ReadString(StringBytes(s) + rest) == Got(s, rest)
  {
    PlainIsCString(s);
    IntReadBack(|s|, s + rest);
    hide IntBytes, ReadInt, CString;
    assert StringBytes(s) + rest == IntBytes(|s|) + (s + rest);
    assert (s + rest)[..|s|] == s && (s + rest)[|s|..] == rest;
  }

  lemma PlainAreWritable(s: seq<string>)
    requires forall x | x in s :: Plain(x)
    ensures forall x | x in s :: Writable(x)
  {
    forall x | x in s
      ensures Writable(x)
    {
      PlainIsCString(x);
    }
  }

  lemma {:induction false} StringsReadBack(s: seq<string>, after: string)
    requires forall x | x in s :: Plain(x)
    ensures (forall x | x in s :: Writable(x)) && ReadStrings(StringsBytes(s, after), |s|) == Got(s, after)
  {
    hide StringBytes, ReadString, Writable, Plain;
    PlainAreWritable(s);
    if s != [] {
      StringsReadBack(s[1..], after);
      StringReadBack(s[0], StringsBytes(s[1..], after));
      assert s == [s[0]] + s[1..];
    }
  }

  /** An entry comes back with the file that was opened for it, as far as its length says. */
  lemma EntryReadBack(e: Entry, file: Option<string>, after: string)
    requires PlainEntry(e)
    ensures WritableEntry(e)
    ensures ReadEntry(EntryBytes(e, file, after)) ==
            var bare := e.(upload := None);
            match file
            case None => One(bare, after)
            case Some(content) => WithFile(bare, content + after)
  {
    var tail := FileBytes(file, after);
    var strings := [e.value, e.fileName, e.contentType];
    StringReadBack(e.attr, StringsBytes(strings, IntBytes(e.valueLength) + tail));
    StringsReadBack(strings, IntBytes(e.valueLength) + tail);
    IntReadBack(e.valueLength, tail);
    match file {
      case None => IntReadBack(0, after);
      case Some(content) => IntReadBack(1, content + after);
    }
    hide ReadString, ReadStrings, ReadInt, StringsBytes, StringBytes, IntBytes, WithFile;
  }

  /** How many entries at the front have the file that is opened for them: that of the first entry
      of their name. */
  function Matching(all: seq<Entry>, part: seq<Entry>): (n: nat)
    ensures n <= |part| && (n < |part| ==> part[n].upload != FileOf(all, part[n].attr))
    ensures forall i | 0 <= i < n :: part[i].upload == FileOf(all, part[i].attr)
  {
    if part == [] || part[0].upload != FileOf(all, part[0].attr) then 0
    else
      var n := Matching(all, part[1..]);
      assert forall i | 0 < i <= n :: part[i] == part[1..][i - 1];
      n + 1
  }

  lemma PlainEntryIsWritable(e: Entry)
    requires PlainEntry(e)
    ensures WritableEntry(e)
  {
    EntryReadBack(e, None, "");
  }

  lemma PlainEntriesAreWritable(entries: seq<Entry>)
    requires forall e | e in entries :: PlainEntry(e)
    ensures forall e | e in entries :: WritableEntry(e)
  {
    forall e | e in entries
      ensures WritableEntry(e)
    {
      PlainEntryIsWritable(e);
    }
  }

  /** An entry comes back as it was if the right file was opened for it. */
  lemma MatchReadBack(e: Entry, after: string)
    requires PlainEntry(e)
    ensures WritableEntry(e) && ReadEntry(EntryBytes(e, e.upload, after)) == One(e, after)
  {
    EntryReadBack(e, e.upload, after);
    hide ReadEntry, EntryBytes, Plain;
    if e.upload.Some? {
      var content := e.upload.value;
      assert (content + after)[..|content|] == content && (content + after)[|content|..] == after;
    }
  }

  /** If another file was opened, it does so exactly if both have one and the bytes that follow
      in the saved file start with the right one. */
  lemma MismatchReadBack(e: Entry, file: Option<string>, after: string)
    requires PlainEntry(e) && file != e.upload
    ensures WritableEntry(e)
    ensures
      var r := ReadEntry(EntryBytes(e, file, after));
      && !r.NoMore?
      && (r.One? && r.e == e <==> e.upload.Some? && file.Some? && e.upload.value <= file.value + after)
      && (r.One? && r.e == e ==> r.rest == (file.value + after)[|e.upload.value|..])
  {
    hide ReadEntry, EntryBytes, Plain, WritableEntry;
    EntryReadBack(e, file, after);
    if e.upload.Some? && file.Some? {
      StartIs(e.upload.value, file.value + after);
    }
  }

  lemma StartIs(upload: string, s: string)
    ensures upload <= s <==> |upload| <= |s| && s[..|upload|] == upload
  {}

  lemma EntriesOf(all: seq<Entry>, part: seq<Entry>)
    requires part != [] && forall e | e in part :: WritableEntry(e)
    ensures forall e | e in part[1..] :: WritableEntry(e)
    ensures
      EntriesBytes(all, part) == EntryBytes(part[0], FileOf(all, part[0].attr), EntriesBytes(all, part[1..]))
  {
    hide WritableEntry, EntryBytes, FileOf;
  }

  lemma OneEntry(e: Entry, s: string, rest: string)
    requires ReadEntry(s) == One(e, rest)
    ensures ReadEntries(s) == var (status, more) := ReadEntries(rest); (status, [e] + more)
  {
    hide ReadEntry;
  }

  /** The matching entries come back; the rest is read as if it came alone. */
  lemma {:induction false} MatchingReadBack(all: seq<Entry>, part: seq<Entry>)
    requires forall e | e in part :: PlainEntry(e)
    ensures forall e | e in part :: WritableEntry(e)
    ensures
      var n := Matching(all, part);
      var (status, more) := ReadEntries(EntriesBytes(all, part[n..]));
      ReadEntries(EntriesBytes(all, part)) == (status, part[..n] + more)
  {
    hide *;
    PlainEntriesAreWritable(part);
    var n := Matching(all, part);
    if n == 0 {
      NoneMatching(part, ReadEntries(EntriesBytes(all, part)).1);
    } else {
      var e, rest := part[0], part[1..];
      FirstMatching(all, part);
      MatchingReadBack(all, rest);
      EntriesOf(all, part);
      MatchReadBack(e, EntriesBytes(all, rest));
      OneEntry(e, EntriesBytes(all, part), EntriesBytes(all, rest));
      FrontApart(part, n, ReadEntries(EntriesBytes(all, part[n..])).1);
    }
  }

  lemma NoneMatching(part: seq<Entry>, more: seq<Entry>)
    ensures part[0..] == part && part[..0] + more == more
  {}

  lemma FirstMatching(all: seq<Entry>, part: seq<Entry>)
    requires Matching(all, part) > 0
    ensures part[0].upload == FileOf(all, part[0].attr) && Matching(all, part[1..]) == Matching(all, part) - 1
  {
    hide FileOf;
  }

  lemma FrontApart(part: seq<Entry>, n: nat, more: seq<Entry>)
    requires 0 < n <= |part|
    ensures part[n..] == part[1..][n - 1..]
    ensures [part[0]] + (part[1..][..n - 1] + more) == part[..n] + more
  {}

  /** What is read for the first entry that does not match: its upload has to be how the opened
      file and the later entries' bytes start, and what is left of those has to read as the later
      entries. */
  predicate Resumes(all: seq<Entry>, i: nat)
    requires i < |all| && forall e | e in all :: WritableEntry(e)
  {
    match (all[i].upload, FileOf(all, all[i].attr))
    case (Some(upload), Some(found)) =>
      var s := found + EntriesBytes(all, all[i + 1..]);
      upload <= s && ReadEntries(s[|upload|..]) == (Good, all[i + 1..])
    case _ => false
  }

  lemma MismatchDecides(all: seq<Entry>, i: nat)
    requires i < |all| && forall e | e in all :: PlainEntry(e)
    requires all[i].upload != FileOf(all, all[i].attr)
    ensures forall e | e in all :: WritableEntry(e)
    ensures ReadEntries(EntriesBytes(all, all[i..])) == (Good, all[i..]) <==> Resumes(all, i)
  {
    hide PlainEntry, WritableEntry, ReadEntry, FileOf, EntryBytes, EntriesBytes;
    PlainEntriesAreWritable(all);
    var e, rest := all[i], all[i + 1..];
    assert all[i..] == [e] + rest && all[i..][1..] == rest;
    EntriesOf(all, all[i..]);
    MismatchReadBack(e, FileOf(all, e.attr), EntriesBytes(all, rest));
  }

  /** Exactly which environments are restored: those in which every entry has the file of the first
      entry of its name, and those in which reading resumes behind the first that has not. */
  lemma RestoredIff(env: Environment)
    requires PlainEnvironment(env)
    ensures WritableEnvironment(env)
    ensures
      var n := Matching(env.entries, env.entries);
      Restore(Written(env)) == Restored(env) <==> n == |env.entries| || Resumes(env.entries, n)
  {
    hide *;
    PlainHas(env);
    EntriesRestored(env.entries);
    PlainIsWritable(env);
    HeaderReadBack(env);
  }

  lemma PlainHas(env: Environment)
    requires PlainEnvironment(env)
    ensures forall e | e in env.entries :: PlainEntry(e) && WritableEntry(e)
  {
    PlainEntriesAreWritable(env.entries);
  }

  lemma EntriesRestored(all: seq<Entry>)
    requires forall e | e in all :: PlainEntry(e)
    ensures forall e | e in all :: WritableEntry(e)
    ensures
      var n := Matching(all, all);
      ReadEntries(EntriesBytes(all, all)) == (Good, all) <==> n == |all| || Resumes(all, n)
  {
    hide PlainEntry, WritableEntry, ReadEntry, FileOf, EntryBytes, ReadEntries, Resumes;
    MatchingReadBack(all, all);
    var n := Matching(all, all);
    if n == |all| {
      NothingRead();
      assert all[n..] == [] && all[..n] + [] == all;
    } else {
      hide EntriesBytes;
      MismatchDecides(all, n);
      SameFront(all, n, ReadEntries(EntriesBytes(all, all[n..])).1);
    }
  }

  lemma NothingRead()
    ensures ReadEntries("") == (Good, [])
  {}

  lemma SameFront(all: seq<Entry>, n: nat, more: seq<Entry>)
    requires n <= |all|
    ensures all[..n] + more == all <==> more == all[n..]
  {
    assert all == all[..n] + all[n..];
    assert (all[..n] + more)[n..] == more;
  }

  /** The first entry that does not match never comes back if there is one file only, or if neither
      file starts with the other; those before it do. */
  lemma FirstLost(env: Environment)
    requires PlainEnvironment(env) && Matching(env.entries, env.entries) < |env.entries|
    requires !OneStartsOther(env.entries, Matching(env.entries, env.entries))
    ensures WritableEnvironment(env)
    ensures
      var n := Matching(env.entries, env.entries);
      match Restore(Written(env))
      case Failed(_) => true
      case Restored(r) =>
        |r.entries| > n && r.entries[..n] == env.entries[..n] && r.entries[n] != env.entries[n]
  {
    hide *;
    PlainHas(env);
    PlainIsWritable(env);
    HeaderReadBack(env);
    EntryLost(env.entries);
  }

  predicate OneStartsOther(all: seq<Entry>, i: nat)
    requires i < |all|
  {
    match (all[i].upload, FileOf(all, all[i].attr))
    case (Some(upload), Some(found)) => upload <= found || found <= upload
    case _ => false
  }

  lemma EntryLost(all: seq<Entry>)
    requires (forall e | e in all :: PlainEntry(e)) && Matching(all, all) < |all|
    requires !OneStartsOther(all, Matching(all, all))
    ensures forall e | e in all :: WritableEntry(e)
    ensures
      var n := Matching(all, all);
      var (status, got) := ReadEntries(EntriesBytes(all, all));
      status != Good || (|got| > n && got[..n] == all[..n] && got[n] != all[n])
  {
    hide *;
    PlainEntriesAreWritable(all);
    MatchingReadBack(all, all);
    var n := Matching(all, all);
    HeadLost(all, n);
    var (status, more) := ReadEntries(EntriesBytes(all, all[n..]));
    if status == Good {
      BehindFront(all, n, more);
    }
  }

  lemma BehindFront(all: seq<Entry>, n: nat, more: seq<Entry>)
    requires n < |all| && more != [] && more[0] != all[n]
    ensures var got := all[..n] + more; |got| > n && got[..n] == all[..n] && got[n] != all[n]
  {}

  lemma HeadLost(all: seq<Entry>, n: nat)
    requires (forall e | e in all :: PlainEntry(e)) && n < |all| && all[n].upload != FileOf(all, all[n].attr)
    requires !OneStartsOther(all, n)
    ensures forall e | e in all :: WritableEntry(e)
    ensures
      var (status, more) := ReadEntries(EntriesBytes(all, all[n..]));
      status != Good || (more != [] && more[0] != all[n])
  {
    hide PlainEntry, WritableEntry, ReadEntry, ReadEntries, FileOf, EntryBytes, EntriesBytes;
    PlainEntriesAreWritable(all);
    var e, rest, file := all[n], all[n + 1..], FileOf(all, all[n].attr);
    assert all[n..][1..] == rest;
    EntriesOf(all, all[n..]);
    MismatchReadBack(e, file, EntriesBytes(all, rest));
    if e.upload.Some? && file.Some? {
      StartsOf(e.upload.value, file.value, EntriesBytes(all, rest));
    }
    NotRead(EntriesBytes(all, all[n..]), e);
  }

  lemma NotRead(s: string, e: Entry)
    requires var r := ReadEntry(s); !r.NoMore? && !(r.One? && r.e == e)
    ensures var (status, more) := ReadEntries(s); status != Good || (more != [] && more[0] != e)
  {
    hide ReadEntry;
  }

  lemma StartsOf(upload: string, found: string, after: string)
    ensures upload <= found + after ==> upload <= found || found <= upload
    ensures upload <= found ==> upload <= found + after
  {}

  lemma PlainIsWritable(env: Environment)
    requires PlainEnvironment(env) && forall e | e in env.entries :: WritableEntry(e)
    ensures WritableEnvironment(env)
  {
    PlainAreWritable(Listed(env.vars));
    hide Listed, Plain, Writable;
  }

  lemma FromListed(v: Vars)
    ensures FromList(Listed(v)) == v
  {}

  /** Everything before the entries comes back. */
  lemma HeaderReadBack(env: Environment)
    requires PlainEnvironment(env) && WritableEnvironment(env)
    ensures
      var (status, entries) := ReadEntries(EntriesBytes(env.entries, env.entries));
      Restore(Written(env)) == if status == Good then Restored(env.(entries := entries)) else Failed(status)
  {
    var vars, bytes := Listed(env.vars), EntriesBytes(env.entries, env.entries);
    var tail := IntBytes(env.contentLength) + bytes;
    FromListed(env.vars);
    assert Plain(VERSION);
    hide Listed, FromList, Plain, PlainEntry, WritableEntry, Writable, ReadString, ReadStrings, ReadInt, ReadEntries,
         StringsBytes, StringBytes, IntBytes, EntriesBytes;
    StringReadBack(VERSION, StringsBytes(vars, tail));
    StringsReadBack(vars, tail);
    IntReadBack(env.contentLength, bytes);
  }

  /** When every file has a name of its own, everything is restored. */
  lemma OwnNamesRestored(env: Environment)
    requires PlainEnvironment(env)
    requires forall i, j | 0 <= i < |env.entries| && 0 <= j < |env.entries| && i != j && env.entries[i].upload.Some? ::
               env.entries[j].attr != env.entries[i].attr
    ensures WritableEnvironment(env) && Restore(Written(env)) == Restored(env)
  {
    hide Restore, Written, PlainEnvironment, WritableEnvironment, Resumes;
    RestoredIff(env);
    var n := Matching(env.entries, env.entries);
    if n < |env.entries| {
      FirstOfName(env.entries, n);
    }
  }

  lemma {:induction false} FirstOfName(entries: seq<Entry>, i: nat)
    requires i < |entries|
    ensures
      var f := FirstNamed(entries, entries[i].attr);
      f.Some? && exists j :: 0 <= j <= i && entries[j] == f.value
  {
    if entries[0].attr != entries[i].attr {
      FirstOfName(entries[1..], i - 1);
      var f := FirstNamed(entries, entries[i].attr);
      var j :| 0 <= j <= i - 1 && entries[1..][j] == f.value;
      assert entries[j + 1] == f.value;
    } else {
      assert entries[0] == FirstNamed(entries, entries[i].attr).value;
    }
  }

  /** Where no file starts with another of its name, only environments are restored in which every
      entry has the file of the first entry of its name. */
  lemma RestoredIffUnshared(env: Environment)
    requires PlainEnvironment(env)
    requires forall i | 0 <= i < |env.entries| && env.entries[i].upload != FileOf(env.entries, env.entries[i].attr) ::
               !OneStartsOther(env.entries, i)
    ensures WritableEnvironment(env)
    ensures Restore(Written(env)) == Restored(env) <==> Unshared(env.entries)
  {
    hide Restore, Written, PlainEnvironment, WritableEnvironment, OneStartsOther, FileOf, Resumes;
    RestoredIff(env);
    if Matching(env.entries, env.entries) < |env.entries| {
      FirstLost(env);
    }
  }

  /** The file of each entry is that of the first entry of its name. */
  predicate Unshared(all: seq<Entry>) {
    forall i | 0 <= i < |all| :: all[i].upload == FileOf(all, all[i].attr)
  }

  /** When the mismatch is in the last entry, it is restored exactly if its upload is how the opened
      file starts, and the rest of that file does not read as one more entry. */
  lemma LastRestoredIff(env: Environment)
    requires PlainEnvironment(env) && Matching(env.entries, env.entries) == |env.entries| - 1
    ensures WritableEnvironment(env)
    ensures
      var all := env.entries;
      var last := all[|all| - 1];
      Restore(Written(env)) == Restored(env) <==>
        match (last.upload, FileOf(all, last.attr))
        case (Some(upload), Some(found)) => upload <= found && ReadEntries(found[|upload|..]) == (Good, [])
        case _ => false
  {
    var all := env.entries;
    RestoredIff(env);
    hide Restore, Written, PlainEnvironment, WritableEnvironment, FileOf, ReadEntries;
    assert all[|all|..] == [];
    assert forall s: string :: s + "" == s;
  }

  // ---- An upload longer than the opened file takes from the entries behind it

  function Lengths(s: seq<string>): nat {
    if s == [] then 0 else 4 + |s[0]| + Lengths(s[1..])
  }

  function Size(e: Entry): nat {
    12 + |e.attr| + Lengths([e.value, e.fileName, e.contentType]) + if e.upload.Some? then |e.upload.value| else 0
  }

  function TotalSize(entries: seq<Entry>): nat {
    if entries == [] then 0 else Size(entries[0]) + TotalSize(entries[1..])
  }

  /** No entries are read from less than their size. */
  lemma {:induction false} EntriesTake(s: string)
    ensures |s| >= TotalSize(ReadEntries(s).1)
    decreases |s|
  {
    hide ReadEntry, Size;
    if ReadEntry(s).One? {
      var e, rest := ReadEntry(s).e, ReadEntry(s).rest;
      EntriesTake(rest);
      EntryTakes(s);
      assert ([e] + ReadEntries(rest).1)[1..] == ReadEntries(rest).1;
    }
  }

  lemma EntryTakes(s: string)
    requires ReadEntry(s).One?
    ensures |s| >= Size(ReadEntry(s).e) + |ReadEntry(s).rest|
  {
    hide ReadStrings, ReadInt, Lengths;
    var g := ReadString(s);
    StringTakes(s);
    StringsTake(g.rest, 3);
    ThreeStrings(ReadStrings(g.rest, 3).value);
    IntTakes(ReadStrings(g.rest, 3).rest);
    IntTakes(ReadInt(ReadStrings(g.rest, 3).rest).rest);
  }

  lemma ThreeStrings(x: seq<string>)
    requires |x| == 3
    ensures x == [x[0], x[1], x[2]]
  {}

  lemma IntTakes(s: string)
    ensures ReadInt(s).Got? ==> |s| == 4 + |ReadInt(s).rest|
  {}

  lemma StringTakes(s: string)
    ensures ReadString(s).Got? ==> |s| >= 4 + |ReadString(s).value| + |ReadString(s).rest|
  {}

  lemma {:induction false} StringsTake(s: string, n: nat)
    ensures ReadStrings(s, n).Got? ==> |s| >= Lengths(ReadStrings(s, n).value) + |ReadStrings(s, n).rest|
    decreases n
  {
    hide ReadString;
    if ReadStrings(s, n).Got? && n > 0 {
      var g := ReadString(s);
      StringTakes(s);
      StringsTake(g.rest, n - 1);
      assert ([g.value] + ReadStrings(g.rest, n - 1).value)[1..] == ReadStrings(g.rest, n - 1).value;
    }
  }

  lemma {:induction false} StringsSize(s: seq<string>, after: string)
    requires forall x | x in s :: Plain(x)
    ensures (forall x | x in s :: Writable(x)) && |StringsBytes(s, after)| == Lengths(s) + |after|
  {
    hide Plain, Writable, StringBytes;
    PlainAreWritable(s);
    if s != [] {
      StringsSize(s[1..], after);
      StringSize(s[0]);
    }
  }

  lemma StringSize(s: string)
    requires Plain(s)
    ensures Writable(s) && |StringBytes(s)| == 4 + |s|
  {
    PlainIsCString(s);
  }

  lemma EntrySize(e: Entry, after: string)
    requires PlainEntry(e)
    ensures WritableEntry(e) && |EntryBytes(e, e.upload, after)| == Size(e) + |after|
  {
    hide Plain, Writable, StringBytes, StringsBytes, Lengths;
    StringSize(e.attr);
    StringsSize([e.value, e.fileName, e.contentType], IntBytes(e.valueLength) + FileBytes(e.upload, after));
    PlainEntryIsWritable(e);
  }

  lemma {:induction false} EntriesSize(all: seq<Entry>, part: seq<Entry>)
    requires forall e | e in part :: PlainEntry(e) && e.upload == FileOf(all, e.attr)
    ensures (forall e | e in part :: WritableEntry(e)) && |EntriesBytes(all, part)| == TotalSize(part)
  {
    hide PlainEntry, WritableEntry, EntryBytes, FileOf, Size;
    PlainEntriesAreWritable(part);
    if part != [] {
      EntriesSize(all, part[1..]);
      EntrySize(part[0], EntriesBytes(all, part[1..]));
    }
  }

  /** If only one entry does not match, and its upload is longer than the file that was opened,
      nothing helps: it would have to take from entries that need every byte. */
  lemma LongerLost(env: Environment, i: nat)
    requires PlainEnvironment(env) && i == Matching(env.entries, env.entries) < |env.entries|
    requires forall e | e in env.entries[i + 1..] :: e.upload == FileOf(env.entries, e.attr)
    requires !NotLonger(env.entries[i].upload, FileOf(env.entries, env.entries[i].attr))
    ensures WritableEnvironment(env) && Restore(Written(env)) != Restored(env)
  {
    hide *;
    RestoredIff(env);
    PlainHas(env);
    NotResumed(env.entries, i);
  }

  /** Both are there, and the upload is no longer than the file. */
  predicate NotLonger(upload: Option<string>, found: Option<string>) {
    upload.Some? && found.Some? && |upload.value| <= |found.value|
  }

  lemma NotResumed(all: seq<Entry>, i: nat)
    requires i < |all| && (forall e | e in all :: PlainEntry(e) && WritableEntry(e))
    requires forall e | e in all[i + 1..] :: e.upload == FileOf(all, e.attr)
    requires !NotLonger(all[i].upload, FileOf(all, all[i].attr))
    ensures !Resumes(all, i)
  {
    hide PlainEntry, WritableEntry, FileOf, ReadEntries, EntriesBytes, TotalSize;
    if all[i].upload.Some? && FileOf(all, all[i].attr).Some? {
      EntriesSize(all, all[i + 1..]);
      NotEnough(all[i].upload.value, FileOf(all, all[i].attr).value, EntriesBytes(all, all[i + 1..]), all[i + 1..]);
    }
  }

  lemma NotEnough(upload: string, found: string, after: string, rest: seq<Entry>)
    requires |upload| > |found| && |after| == TotalSize(rest)
    ensures var s := found + after; upload <= s ==> ReadEntries(s[|upload|..]) != (Good, rest)
  {
    var s := found + after;
    if upload <= s {
      hide ReadEntries;
      EntriesTake(s[|upload|..]);
    }
  }

  // ---- Two entries of one name

  /** A text field after an upload of the same name comes back as an upload. */
  lemma SharedNameNotRestored(env: Environment)
    requires PlainEnvironment(env)
    requires env.entries == [Entry("f", "", 1, "a.txt", "", Some("x")), Entry("f", "v", 1, "", "", None)]
    ensures WritableEnvironment(env) && Restore(Written(env)) != Restored(env)
  {
    TwoEntries(env.entries);
    LongerLost(env, 1);
  }

  /** Of two uploads the second is lost. */
  lemma SecondUploadNotRestored(env: Environment)
    requires PlainEnvironment(env)
    requires env.entries == [Entry("f", "", 1, "a.txt", "", Some("x")), Entry("f", "", 2, "b.txt", "", Some("yz"))]
    ensures WritableEnvironment(env) && Restore(Written(env)) != Restored(env)
  {
    TwoEntries(env.entries);
    LongerLost(env, 1);
  }

  /** Unless it starts the first, and too little of that is left to read on. */
  lemma SecondUploadRestored(env: Environment)
    requires PlainEnvironment(env)
    requires env.entries == [Entry("f", "", 2, "a.txt", "", Some("xy")), Entry("f", "", 1, "b.txt", "", Some("x"))]
    ensures WritableEnvironment(env) && Restore(Written(env)) == Restored(env)
  {
    TwoEntries(env.entries);
    LastRestoredIff(env);
    assert "xy"[1..] == "y";
  }

  lemma TwoEntries(all: seq<Entry>)
    requires |all| == 2 && all[0].attr == all[1].attr && all[0].upload != all[1].upload
    ensures FileOf(all, all[1].attr) == all[0].upload && Matching(all, all) == 1
  {
    assert all[1..] == [all[1]];
  }
}
