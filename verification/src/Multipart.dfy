/** `cgiParsePostMultipartInput` of web/cgic/cgic.c: the list of form entries in a multipart
    body (section 5.1.1 of RFC 2046).
 */
module Multipart {
  import opened Text
  import opened Streams
  import opened Header
  import Params
  import opened Boundary

  /** A `cgiFormEntry`. `upload` is the content of the temporary file, when there is one. */
  datatype Entry = Entry(
    attr: string, value: string, valueLength: int,
    fileName: string, contentType: string, upload: Option<string>)

  datatype Status = Success | IoError | Undefined

  datatype Parsed = Parsed(status: Status, entries: seq<Entry>)

  /** The four buffers that the headers of one part fill. */
  datatype Head = Head(disposition: string, name: string, fileName: string, contentType: string)

  const BLANK: Head := Head("", "", "", "")
  const NAMES: seq<string> := ["name", "filename"]

  /** The headers of one part and the stream after them; `None` when a header is one the source
      does not survive. */
  function ReadHead(s: string, h: Head): (r: Option<(Head, string)>)
    ensures r.Some? ==> |r.value.1| <= |s| && (s != [] ==> |r.value.1| < |s|)
    decreases |s|
  {
    var l := ReadLine(s, "", "", false);
    if !l.ok || s == [] then Some((h, l.rest))
    else
      match WithHeader(h, CString(l.attr), CString(l.value))
      case None => None
      case Some(h') => ReadHead(l.rest, h')
  }

  function WithHeader(h: Head, attr: string, value: string): Option<Head> {
    if EqNc(attr, "Content-Disposition") then
      var f := Params.Decompose(value, NAMES);
      if f.defined then Some(h.(disposition := f.value, name := f.args[0], fileName := f.args[1])) else None
    else if EqNc(attr, "Content-Type") then
      var f := Params.Decompose(value, []);
      if f.defined then Some(h.(contentType := f.value)) else None
    else
      Some(h)
  }

  function MakeEntry(h: Head, body: string): Entry {
    if h.fileName != "" then
      Entry(h.name, "", |body|, h.fileName, h.contentType, Some(body))
    else
      Entry(h.name, body, |body|, h.fileName, h.contentType, None)
  }

  predicate Last(s: string) {
    |s| < 2 || (s[0] == '-' && s[1] == '-')
  }

  /** All parts, on a plain stream that stands after a boundary. */
  function Parts(s: string, w: string, entries: seq<Entry>): Parsed
    decreases |s|
  {
    if Last(s) then Parsed(Success, entries)
    else
      match ReadHead(s, BLANK)
      case None => Parsed(Undefined, entries)
      case Some((h, rest)) =>
        if !EqNc(h.disposition, "form-data") then Parts(rest, w, entries)
        else
          match Body(rest, w)
          case None => Parsed(IoError, entries)
          case Some((body, next)) => Parts(next, w, entries + [MakeEntry(h, body)])
  }

  /** Where the first boundary leaves the stream. */
  function AfterFirst(input: string, boundary: string): Outcome {
    Finish(Scan(Delimiter(boundary, true), "", input, 0, ""))
  }

  /** At most the two characters after the boundary stay in the ring. */
  lemma OrderlyAfterFirst(input: string, boundary: string)
    ensures var r := AfterFirst(input, boundary); r.Hit? ==> |r.ring| <= 2
  {
    hide Scan;
    RingEmptyAtHit(Delimiter(boundary, true), "", input, 0, "");
  }

  /** `cgiParsePostMultipartInput`. */
  method ParsePostMultipartInput(input: string, contentLength: nat, boundary: string)
    returns (status: Status, entries: seq<Entry>)
    requires |input| <= contentLength && |boundary| <= MAX_BOUNDARY
    requires Marked(Delimiter(boundary, false))
    ensures
      var r := AfterFirst(input, boundary);
      Parsed(status, entries) ==
        if r.Missing? then Parsed(Success, []) else Parts(r.ring + r.file, Delimiter(boundary, false), [])
  {
    entries := [];
    if contentLength == 0 {
      return Success, entries;
    }
    var mpp := new MpStream(input, contentLength);
    var ok, _ := AfterNextBoundary(mpp, boundary, false, true);
    if !ok {
      return Success, entries;
    }
    OrderlyAfterFirst(input, boundary);
    status, entries := ReadParts(mpp, boundary);
  }

  /** Its loop over the parts. */
  method ReadParts(mpp: MpStream, boundary: string) returns (status: Status, entries: seq<Entry>)
    requires mpp.Valid() && |mpp.Ring()| <= RING_LIMIT && |boundary| <= MAX_BOUNDARY
    requires Marked(Delimiter(boundary, false))
    modifies mpp, mpp.putback
    ensures |old(mpp.Ring())| <= 2 ==>
      Parsed(status, entries) == Parts(old(mpp.Rest()), Delimiter(boundary, false), [])
  {
    hide Parts, Marked, Delimiter;
    status, entries := Success, [];
    ghost var orderly, all, w := |mpp.Ring()| <= 2, mpp.Rest(), Delimiter(boundary, false);
    var done := false;
    while !done
      invariant mpp.Valid() && |mpp.Ring()| <= RING_LIMIT
      invariant orderly ==> done || |mpp.Ring()| <= 2
      invariant orderly ==>
        Parts(all, w, []) == if done then Parsed(status, entries) else Parts(mpp.Rest(), w, entries)
      decreases !done, mpp.Left()
    {
      done, status, entries := ReadPart(mpp, boundary, entries);
    }
  }

  method ReadPart(mpp: MpStream, boundary: string, entries: seq<Entry>)
    returns (done: bool, status: Status, entries': seq<Entry>)
    requires mpp.Valid() && |mpp.Ring()| <= RING_LIMIT && |boundary| <= MAX_BOUNDARY
    requires Marked(Delimiter(boundary, false))
    modifies mpp, mpp.putback
    ensures mpp.Valid() && |mpp.Ring()| <= RING_LIMIT && (!done ==> mpp.Left() < old(mpp.Left()))
    ensures |old(mpp.Ring())| <= 2 ==>
      && (done || |mpp.Ring()| <= 2)
      && var w := Delimiter(boundary, false);
         Parts(old(mpp.Rest()), w, entries) == if done then Parsed(status, entries') else Parts(mpp.Rest(), w, entries')
  {
    hide Last, ReadHead, Body, Marked, WithHeader, Delimiter, MakeEntry;
    entries' := entries;
    var last := AtEnd(mpp);
    if last {
      return true, Success, entries;
    }
    var defined, head := ReadPartHead(mpp);
    if !defined {
      return true, Undefined, entries;
    }
    if EqNc(head.disposition, "form-data") {
      var found, body := NextBody(mpp, boundary);
      if !found {
        return true, IoError, entries;
      }
      entries' := entries + [MakeEntry(head, body)];
    }
    done, status := false, Success;
  }

  /** The two characters that tell whether another part follows. */
  method AtEnd(mpp: MpStream) returns (last: bool)
    requires mpp.Valid() && |mpp.Ring()| <= RING_LIMIT
    modifies mpp, mpp.putback
    ensures mpp.Valid() && |mpp.Ring()| <= RING_LIMIT
    ensures !last ==> mpp.Left() == old(mpp.Left()) >= 2
    ensures last == Last(old(mpp.Rest()))
    ensures |old(mpp.Ring())| <= 2 && !last ==> |mpp.Ring()| <= 2 && mpp.Rest() == old(mpp.Rest())
  {
    ghost var ring, file := mpp.Ring(), mpp.File();
    var got, c, d := mpp.ReadPair();
    if !got {
      return true;
    }
    if c == '-' && d == '-' {
      return true;
    }
    mpp.PutBack([c, d]);
    if |ring| <= 2 {
      Unread(ring, file);
    }
    last := false;
  }

  lemma Unread(ring: string, file: string)
    requires |ring| <= 2 && |ring| + |file| >= 2
    ensures
      var (ring1, file1) := Drop(ring, file);
      var (ring2, file2) := Drop(ring1, file1);
      var pair := [Next(ring, file), Next(ring1, file1)];
      ring2 + pair == pair && pair + file2 == ring + file
  {}

  /** Its loop over the header lines. */
  method ReadPartHead(mpp: MpStream) returns (defined: bool, head: Head)
    requires mpp.Valid() && |mpp.Ring()| <= RING_LIMIT && mpp.Left() > 0
    modifies mpp, mpp.putback
    ensures mpp.Valid() && |mpp.Ring()| <= RING_LIMIT && mpp.Left() < old(mpp.Left())
    ensures |old(mpp.Ring())| <= 2 ==>
      var r := ReadHead(old(mpp.Rest()), BLANK);
      if defined then r == Some((head, mpp.Rest())) && |mpp.Ring()| <= 1 else r == None
  {
    head := BLANK;
    ghost var all, orderly := mpp.Rest(), |mpp.Ring()| <= 2;
    while true
      invariant mpp.Valid() && |mpp.Ring()| <= RING_LIMIT
      invariant mpp.Left() < old(mpp.Left()) || (head == BLANK && mpp.Left() == old(mpp.Left()) > 0)
      invariant orderly ==> |mpp.Ring()| <= 2 && ReadHead(mpp.Rest(), head) == ReadHead(all, BLANK)
      decreases mpp.Left()
    {
      var more, attr, value := ReadHeaderLine(mpp);
      if !more {
        return true, head;
      }
      defined, head := SetHeader(head, CString(attr), CString(value));
      if !defined {
        return;
      }
    }
  }

  method SetHeader(h: Head, attr: string, value: string) returns (defined: bool, h': Head)
    ensures WithHeader(h, attr, value) == if defined then Some(h') else None
  {
    defined, h' := true, h;
    if EqNc(attr, "Content-Disposition") {
      var f := Params.DecomposeValue(value, NAMES);
      defined := f.defined;
      if defined {
        h' := h.(disposition := f.value, name := f.args[0], fileName := f.args[1]);
      }
    } else if EqNc(attr, "Content-Type") {
      var f := Params.DecomposeValue(value, []);
      defined := f.defined;
      if defined {
        h' := h.(contentType := f.value);
      }
    }
  }

  method NextBody(mpp: MpStream, boundary: string) returns (found: bool, body: string)
    requires mpp.Valid() && |mpp.Ring()| <= RING_LIMIT && |boundary| <= MAX_BOUNDARY
    requires Marked(Delimiter(boundary, false))
    modifies mpp, mpp.putback
    ensures mpp.Valid() && |mpp.Ring()| <= RING_LIMIT && mpp.Left() <= old(mpp.Left())
    ensures |old(mpp.Ring())| <= 2 ==>
      var r := Body(old(mpp.Rest()), Delimiter(boundary, false));
      if found then r == Some((body, mpp.Rest())) && |mpp.Ring()| <= 2 else r == None
  {
    ghost var w, ring, file := Delimiter(boundary, false), mpp.Ring(), mpp.File();
    ScanConserves(w, ring, file, 0, "");
    if |ring| <= 2 {
      BoundaryIsFirst(w, ring, file);
    }
    found, body := AfterNextBoundary(mpp, boundary, true, false);
  }
}
