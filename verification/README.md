# Verified models of the web stack: cgic, Boa and the telnet daemon

The repository is the software of a small device: a web interface of CGI programs written with the
cgic library, served by the HTTP server Boa, and a telnet daemon. Each of the three moves bytes
through hand-written buffers, and this project proves that the bytes arrive.

Each algorithm appears twice. A function or a machine on sequences says what happens, and a method
on arrays, rings, linked records and offsets, in the form of the C code, is proved to do just that.
The properties are then proved about the machine, for every input and every run. System calls are
oracles: a read may deliver any part of what was asked for, block, be interrupted or fail.

| part | files | what is proved |
|---|---|---|
| cgic, multipart forms | `MpStream`, `Boundary`, `FirstBoundary`, `Header`, `Params`, `Multipart`, `MultipartRoundTrip` | which boundary the streaming search with a put-back ring finds; exactly when writing and parsing a form is a round trip |
| cgic, url-encoded forms and text | `FormData`, `Newlines` | decoding undoes every encoding; newline normalisation refines its definition within any buffer |
| cgic, saved environments | `EnvironmentSpec`, `EnvironmentCut`, `Environment` | saving is all or nothing; exactly when restoring gives back what was saved, whole or cut |
| Boa, event loop | `Request`, `Server` | three disjoint lists, the connection count, one visit each, no lost wake-up |
| Boa, CGI relay | `RelaySpec`, `Relay` | conservation of the response through one buffer with two uses, and exactly when it is lost |
| Boa, reading requests | `HeaderDfa`, `Pipelining`, `ReadRequest` | header parsing does not depend on the chunking; pipelined requests lose no byte; the POST body is exact |
| Boa, tables and URIs | `MmapCache`, `Alias`, `Uri` | reference counts and mappings agree; hashed lookup against plain scan; escaping, unescaping, path cleaning |
| telnet daemon | `TelnetSpec`, `Telnet` | the terminal gets the input without its commands; exactly when the session makes progress |

`Text` and `Buffers` hold what they share. Bytes are characters below 256; where the sign of a C `char` or the
width of an integer matters, the module says so.

Where the code does not do what its documentation or its name promises, the code is modelled as it
is, the failing input is given, and the exact condition under which it works is proved: the first
multipart boundary, when its hyphens come first (`FirstBoundary.FoundIffNotSwallowed`), colons in
the headers of a part (`MultipartRoundTrip.RoundTrip`), parameters nobody asked for
(`Params.DefinedIffAsked`), uploads that share a name (`EnvironmentSpec.RestoredIff`), a signal
during a flush and a failed read (`RelaySpec.RelayConserves`), a telnet command across the end of
the ring (`TelnetSpec.StuckIsReachable`) and a NUL in one at the end of a read
(`TelnetSpec.AcceptedIffNoNul`, `TelnetSpec.DropAligned`), a second request that comes with the
first (`ReadRequest.Request.VisitWithoutInput`), an alias for the root
(`Aliases.TableAgreesWithScan`), question marks in escaped paths (`Uri.RoundTrip`).

`dafny verify dfyconfig.toml` checks the whole project.

## Model

| member | source | states |
|---|---|---|
| Streams.MpStream.Read | web/cgic/cgic.c:341-380 | called with a counter that is at most the declared length, `mpRead` delivers what was put back and then the file, as far as the counter says that something is left; it goes past the declared length exactly if more is asked for than is left of it and something was put back, now or uncounted before, and by no more than that |
| Streams.MpStream.PutBack | web/cgic/cgic.c:382-390 | `mpPutBack` appends at the tail of the ring; with the room its callers must leave, a full ring never looks empty |
| Streams.ReadsPast | web/cgic/cgic.c:341-380 | the declared length is not respected: when all of it has been read, a character put back and read again lets the next read take one character past it |
| Streams.ReadsPastTheEnd | web/cgic/cgic.c:341-380 | such a read, from the start: one character is declared, two come, and the second is delivered |
| Streams.Overshoots | web/cgic/cgic.c:341-390 | a read that takes one character from the ring and one from the file leaves the counter itself past the declared length |
| Boundary.ScanFindsFirst | web/cgic/cgic.c:683-775 | on an orderly ring the online matcher with its give-backs emits exactly what precedes the FIRST occurrence of a boundary whose first character does not recur, leaves the stream right after it, and fails only if there is none |
| Boundary.BoundaryIsFirst | web/cgic/cgic.c:683-775 | the whole call with at most two bytes in the ring: the body before the first occurrence, and the stream after the line end of the boundary or before its two hyphens |
| Boundary.ScanConserves | web/cgic/cgic.c:683-775 | a search neither loses nor invents a byte, whatever the boundary and the ring: what it emits, the boundary and what is left are together the same characters as before, and the file left is a suffix of the file |
| Boundary.RingEmptyAtHit | web/cgic/cgic.c:683-775 | whatever the boundary, a search that starts with an empty ring ends with one, so at most two characters are ever in the ring between the parts |
| Boundary.AfterNextBoundary | web/cgic/cgic.c:683-775 | the imperative search does what the machine says, for both kinds of boundary and a full ring, and never overfills the ring; at the end of the input it fails and nothing is left |
| Boundary.ScanPrefix | web/cgic/cgic.c:683-775 | a boundary at the start of the stream is found, also the first one, in which hyphens recur |
| Boundary.ScanPreamble | web/cgic/cgic.c:683-775 | a boundary after any preamble without the character it starts with is found, and the stream is left right after it |
| FirstBoundary.FindsFirstNoticed | web/cgic/cgic.c:683-775 | for the first boundary, when its hyphens come first: on every text the search stops right after the first occurrence that is not swallowed, and fails exactly if there is none |
| FirstBoundary.FoundIffNotSwallowed | web/cgic/cgic.c:683-775 | the first occurrence is found exactly if its hyphen does not end a failed match: no noticed beginning of the boundary stands right before it |
| FirstBoundary.NoneFound | web/cgic/cgic.c:683-775 | such a boundary is never reported where it does not occur |
| FirstBoundary.LineStartFound | web/cgic/cgic.c:683-775 | such a boundary is always found if it first occurs at the start of a line |
| FirstBoundary.FoundAfterSingleHyphens | web/cgic/cgic.c:683-775 | every boundary, with hyphens anywhere, is found after a preamble without two hyphens in a row and without one at its end |
| FirstBoundary.CanBeSwallowed | web/cgic/cgic.c:683-775 | the search is wrong for the first boundary: a concrete boundary that occurs in a concrete text is not found, because a beginning of it stands before it |
| FirstBoundary.FoundWhereNoneIs | web/cgic/cgic.c:683-775 | with a hyphen further on in the boundary it is wrong in the other direction too: a boundary is reported where none is, and the one behind it goes unread |
| FirstBoundary.CanBeMissed | web/cgic/cgic.c:683-775 | and such a boundary is missed although it occurs, because give-backs overtake each other in the ring |
| Header.ReadHeaderLine | web/cgic/cgic.c:904-963 | with at most two characters in the ring, a header line is read as if the stream were plain: name, value, what is consumed, and which results count as a header; each look-ahead is given back on an empty ring |
| Header.SkipLineFeed | web/cgic/cgic.c:920-929 | a line feed after a carriage return is consumed, anything else is given back in order |
| Header.SkipSpaces | web/cgic/cgic.c:932-939 | white space after the colon is consumed, and the first other character is given back in order |
| Header.EqNcIsSameAnyCase | web/cgic/cgic.c:2258-2280 | `cgiStrEqNc` compares letter by letter, where only the two cases of a letter count as equal |
| Params.DecomposeValue | web/cgic/cgic.c:797-902 | splitting a header value computes its main value and the named, possibly quoted parameters, or stops at the null write that an unlisted parameter name causes |
| Params.DefinedIffAsked | web/cgic/cgic.c:797-902 | the null write happens exactly if the caller asks for some parameters and the value, up to a malformed parameter, gives another one, quoted or not; otherwise each parameter has the last value given to it |
| MultipartRoundTrip.AnyParameter | web/cgic/cgic.c:840-902 | a parameter is read whatever the case of its name and the white space around its name and before its value, quoted or not |
| Multipart.ParsePostMultipartInput | web/cgic/cgic.c:434-589 | the parsing loop on the ring buffer returns the list of entries that the plain-text grammar gives behind the place where the first search stops: part by part, form-data parts only, with file name, content type, body and length; nothing if that search fails |
| Multipart.ReadPartHead | web/cgic/cgic.c:481-508 | the header loop of a part yields its disposition, name, file name and content type, and leaves at most one character in the ring |
| Multipart.NextBody | web/cgic/cgic.c:513-539 | the body of a part is everything before the next boundary |
| Multipart.AtEnd | web/cgic/cgic.c:470-480 | two hyphens or the end of the input end the list; any other two characters are given back in order |
| MultipartRoundTrip.BodyEnds | web/cgic/cgic.c:683-775 | a body without the boundary ends exactly where the boundary was put |
| MultipartRoundTrip.NoColonRead | web/cgic/cgic.c:930-940 | whatever the input, no entry is ever read with a colon in its name, its file name or its type: the header reader drops every colon after the first |
| MultipartRoundTrip.RoundTrip | web/cgic/cgic.c:434-589 | writing any list of parts in the layout of RFC 2046, section 5.1.1, after every preamble in which the first boundary can be found, and parsing it gives back the same parts in the same order with their names, types, bodies and lengths, exactly if neither a name, a file name nor a type has a colon in it; the header of a part may have any other lines in any position, its two lines in any order and case, white space in names, folded lines, and each of the three kinds of line end |
| MultipartRoundTrip.OthersSkipped | web/cgic/cgic.c:481-512 | a header without a Content-Disposition, or with another one than form data, makes no entry, and the parser goes on right behind that header |
| MultipartRoundTrip.HeaderEnds | web/cgic/cgic.c:904-963 | a header ends at its first line without a colon, be it empty or not |
| FirstBoundary.LinesAreHarmless | web/cgic/cgic.c:683-775 | preambles made of whole lines, in which the boundary does not occur, are among those |
| MultipartRoundTrip.ParseEncoded | web/cgic/cgic.c:434-589 | the same for the imperative parser, through ring, searches and header reader |
| FormData.UnescapeChars | web/cgic/cgic.c:1081-1118 | the three-state decoder fills its array with the decoded bytes and a NUL, within the space it allocated |
| FormData.EncodesDecodes | web/cgic/cgic.c:1081-1118 | decoding undoes every encoding of a text: plain bytes, plus signs, and percent escapes whose two digits, in either case, are the character's code in base 16 |
| FormData.DigitsAgree | web/cgic/cgic.c:1120-1147 | the table has the value of each of the 22 digits, and zero for every other character of ASCII |
| FormData.UnfinishedDropped | web/cgic/cgic.c:1081-1118 | an escape cut off by the end of the text is dropped |
| FormData.EncodesPlain | web/cgic/cgic.c:987-1027 | an encoding contains neither of the separators |
| FormData.ParseFormInput | web/cgic/cgic.c:982-1077 | the parsing loop returns the pairs of the form: names up to the next equals sign, values up to the next ampersand, decoded |
| FormData.PairsInvert | web/cgic/cgic.c:982-1077 | for every list of pairs of C strings and every way to encode it (HTML 4.01, section 17.13.4.1), parsing gives back that list |
| FormData.JunkIgnored | web/cgic/cgic.c:982-1077 | what follows the last ampersand without an equals sign makes no pair |
| Newlines.FormEntryString | web/cgic/cgic.c:1437-1515 | for every buffer size from 1 the result is the first bytes of the normalised text and a NUL, nothing beyond the buffer is written, and the text is reported as truncated exactly if it does not fit |
| Newlines.BurstBecomes | web/cgic/cgic.c:1461-1489 | a whole burst of carriage returns and line feeds, in any pattern, becomes as many line feeds as the larger of the two numbers, or none |
| Newlines.NormalKeeps | web/cgic/cgic.c:1437-1515 | all other characters stay as they are and in order, no carriage return is left, and the text does not get longer |
| Newlines.Idempotent | web/cgic/cgic.c:1437-1515 | normalising twice is normalising once |
| Newlines.SpaceSuffices | web/cgic/cgic.c:1425-1435 | a buffer of the size that `cgiFormStringSpaceNeeded` asks for never truncates, and a text without carriage returns needs all of it |
| Environments.WriteEnvironment | web/cgic/cgic.c:1876-2004 | saving reports success exactly if the whole encoding fits on the disk, and then the file is that encoding; otherwise the file is deleted, although failed length writes go unnoticed at first |
| Environments.OutFile.WriteString | web/cgic/cgic.c:2006-2013 | what a string write reports on a disk that may be full, given that the result of writing the length is ignored |
| Environments.OutFile.CopyFile | web/cgic/cgic.c:1977-1984 | copying an upload in pieces of 1024 bytes writes all of it, or reports that it did not fit |
| Environments.ReadEnvironment | web/cgic/cgic.c:2026-2235 | the reader computes the restored environment for every file, well formed or not, with the error for each kind of damage |
| Environments.GetEntry | web/cgic/cgic.c:2115-2206 | one entry: the end of the list, an error, or the fields and the upload whose length is in the entry |
| Environments.InFile.GetUpload | web/cgic/cgic.c:2150-2184 | an upload is copied back completely, or its file was too short |
| EnvironmentSpec.IntRoundTrip | web/cgic/cgic.c:2015-2020 | the four bytes of an integer determine it, negative numbers included |
| EnvironmentSpec.EntryReadBack | web/cgic/cgic.c:1952-1993 | an entry comes back field by field, with the file that was opened for it as far as its length says |
| EnvironmentSpec.RestoredIff | web/cgic/cgic.c:1876-2235 | exactly which saved environments are restored, for every environment of C strings: those in which every entry has the upload of the first entry of its name, and those in which the first entry that has not is how the bytes behind it start and the rest of these reads as the later entries |
| EnvironmentSpec.FirstLost | web/cgic/cgic.c:1876-2235 | the first entry with another upload than the first of its name is never read back if one of the two has none or neither starts with the other; the entries before it are |
| EnvironmentSpec.LastRestoredIff | web/cgic/cgic.c:1876-2235 | if it is the last entry, it is restored exactly if its upload is how the opened file starts and what is left of that file does not read as one more entry |
| EnvironmentSpec.LongerLost | web/cgic/cgic.c:1876-2235 | if it is the only one and its upload is longer than the file that was opened, it is lost: it would take bytes that the later entries need |
| EnvironmentSpec.RestoredIffUnshared | web/cgic/cgic.c:1876-2235 | where no upload starts with another of its name, restoring gives back what was saved exactly if every entry has the upload of the first entry of its name, because the writer opens files by name |
| EnvironmentSpec.OwnNamesRestored | web/cgic/cgic.c:1876-2235 | an environment in which every upload has a name of its own is restored completely |
| EnvironmentSpec.SharedNameNotRestored | web/cgic/cgic.c:1970-1992 | a text field after an upload of the same name is not restored: a concrete input |
| EnvironmentSpec.SecondUploadNotRestored | web/cgic/cgic.c:1970-1992 | of two uploads of one name and different lengths the second is not restored: a concrete input |
| EnvironmentSpec.SecondUploadRestored | web/cgic/cgic.c:1970-1992 | it is when it starts the first and less than an entry is left over: a concrete input |
| EnvironmentCut.CutShort | web/cgic/cgic.c:2026-2212 | a saved environment cut at any byte: refused before its entries, an error inside an entry, one or another by the place of the cut, and restored without the missing entries when the cut is in the name of an entry or right before it |
| EnvironmentCut.EntryCut | web/cgic/cgic.c:2115-2206 | the same for one entry, byte by byte |
| EnvironmentCut.OtherVersion | web/cgic/cgic.c:2037-2050 | an environment of another version is refused, whatever follows |
| Requests.Enqueue | boa-0.94.13/src/queue.c:122-131 | a record put at the head leaves a well-formed, doubly linked, acyclic list with that record in front |
| Requests.Dequeue | boa-0.94.13/src/queue.c:102-114 | a record taken out from anywhere leaves a well-formed list of the others in order, and is itself unlinked |
| Requests.Take | boa-0.94.13/src/queue.c:102-114 | taking a record from one list leaves the two other lists as they were |
| Requests.Put | boa-0.94.13/src/queue.c:122-131 | putting a record on one list leaves the two other lists as they were |
| Server.BlockRequest | boa-0.94.13/src/queue.c:36-61 | the record moves from the ready to the blocked list, and the bit of the system call that its handler made is set in the set of its direction and covered by `max_fd` |
| Server.ReadyRequest | boa-0.94.13/src/queue.c:69-93 | the record moves from the blocked to the ready list, and the bit of its call is cleared; of a dead one, that of its connection |
| Server.CallIsAwaited | boa-0.94.13/src/queue.c:36-61 | the bit that `block_request` picks from the status is the one of the call that the handler for that status makes |
| Server.SystemCall | boa-0.94.13/src/request.c:395-445 | the dispatch of `process_requests`: which handler runs, on which descriptor it blocks, and that a blocked one leaves what the dispatch depends on |
| Server.Handle | boa-0.94.13/src/request.c:395-445 | a handler answers -1 only when the system call of its dispatch blocks, and then the state of the record still stands for that call; it keeps what other requests own |
| Server.AwaitedApart | boa-0.94.13/src/select.c:111-182 | two live requests never wait for the same descriptor, so clearing one request's bit does not lose another's |
| Server.FdsetUpdate | boa-0.94.13/src/select.c:111-182 | exactly the blocked requests that `select` reported, that timed out, or that were dead become ready, those that timed out as dead ones; every other stays blocked, unchanged, and is watched for |
| Server.Expire | boa-0.94.13/src/select.c:115-130 | exactly the requests that waited too long become dead |
| Server.NewRequest | boa-0.94.13/src/request.c:44-63 | a cleared record comes off the free list or is new; the other lists keep their records and their contents |
| Server.GetRequest | boa-0.94.13/src/request.c:72-224 | a new connection that can be served joins at the head of the ready list, counted, with a descriptor of its own; one too many is answered and ends the accepting; anything else changes nothing |
| Server.FreeRequest | boa-0.94.13/src/request.c:234-369 | a request with output left is only marked as done; any other leaves the ready list, and either its successor on the connection is blocked and watched for, or the connection is closed and no longer counted |
| Server.Succeed | boa-0.94.13/src/request.c:283-325 | the keep-alive branch: the successor inherits the connection, is blocked, and waits to read; the connection count does not change |
| Server.Close | boa-0.94.13/src/request.c:359-368 | the closing branch: one connection less, its descriptor closed, the record on the free list |
| Server.Defer | boa-0.94.13/src/request.c:240-243 | the deferred branch changes the status and nothing else |
| Server.VisitOne | boa-0.94.13/src/request.c:395-498 | one round of the walk: the request is blocked, gone or marked as done, or still ready, as its handler answered; the requests still to be visited are the same as before, in order; every blocked request is watched for |
| Server.Dispose | boa-0.94.13/src/request.c:475-497 | the switch on the return value of a handler: -1 blocks the request, 0 frees or defers it, anything else leaves it; the walk goes on at its old neighbour |
| Server.ProcessRequests | boa-0.94.13/src/request.c:381-499 | the walk ends, and visits exactly the requests that are ready when it begins, each once and in order, although others join and leave meanwhile |
| Server.Turn | boa-0.94.13/src/select.c:60-80 | when `select` is called, the system call that blocked each request has its descriptor in the set of its direction, and the server socket is watched unless the server terminates or is nearly full; a request whose call `select` has reported is visited in the same turn; one that was not reported, and whose time is not up, is still blocked as it was |
| Server.SelectLoop | boa-0.94.13/src/select.c:33-93 | over any number of turns and any answers of the kernel: the three lists stay well formed and disjoint, the connection count is the number of live requests, descriptors stay distinct, and no wake-up is lost: the call that blocked each request is watched for |
| Server.Unreported | boa-0.94.13/src/select.c:33-182 | over any number of turns nothing but a report of its descriptor, or the end of its time, wakes a blocked request |
| Server.SuccessorWaits | boa-0.94.13/src/request.c:283-325 | the successor on a kept connection waits to read, whatever was carried over, and dies when the keep-alive time is up |
| Server.Deadline | boa-0.94.13/src/select.c:111-130 | the exact time at which a blocked request is given up, on a kept connection and elsewhere |
| Server.RequestsBounded | boa-0.94.13/src/request.c:283-325 | a connection serves no more requests than configured, and one, and none after a server error or a request that did not ask to keep it |
| RelaySpec.RelayConserves | boa-0.94.13/src/pipe.c:37-136 | from the start, under every schedule of partial, blocked, interrupted and failed reads and writes: what was sent is a beginning of what the client ought to get, and nothing is lost exactly if no system call failed with something in hand; a request that ends has then sent all of it, and was not given up with a part of the program's header read; and the server replies itself exactly if that header calls for it |
| RelaySpec.RunResponds | boa-0.94.13/src/cgi_header.c:51-175 | by the text alone: every run sends a beginning of the response that the program's first 4096 bytes call for, and a run without failures has sent all of it when it ends; the output goes behind the server's header if it has an empty line in either form and neither a status nor a location line |
| RelaySpec.PipeAtEndResponds | boa-0.94.13/src/pipe.c:37-136 | and such a run ends: at the end of the pipe a client that always takes something gets the whole response |
| RelaySpec.KindByText | boa-0.94.13/src/cgi_header.c:51-103 | a header is unfinished exactly if no line feed before the first NUL is followed by a line feed or by a carriage return and one; otherwise its first characters, in any case, decide |
| RelaySpec.BlocksIff | boa-0.94.13/src/pipe.c:37-136 | a visit makes the server wait exactly if the system call that it makes would block |
| RelaySpec.RunConserves | boa-0.94.13/src/request.c:395-498 | the same over every run from every state of the invariant, and the request is dead exactly if a read failed, a write failed, or a flush failed or was interrupted in some visit |
| RelaySpec.StepKeeps | boa-0.94.13/src/request.c:395-498 | every visit keeps the invariant, since buffered output is flushed before a handler runs; it loses bytes exactly if its system call fails for good with something in hand, and kills the request exactly if it fails for good and no redirection follows |
| RelaySpec.HeaderKeeps | boa-0.94.13/src/cgi_header.c:51-175 | parsing the program's header turns the bytes held into the output: the status line replaced, the response header put in front, or the server's own reply; what is flushed is lost exactly if the flush fails |
| RelaySpec.CalmLosesNothing | boa-0.94.13/src/buffer.c:172-210 | a run without failing reads, failing writes and signals loses nothing and never dies |
| RelaySpec.SignalLoses | boa-0.94.13/src/buffer.c:186-196 | one signal during a flush kills the request and loses its response: a concrete run |
| RelaySpec.FailedReadLoses | boa-0.94.13/src/pipe.c:67-78 | a read that fails before the header was processed costs all that the program has written: any text of less than 4096 bytes |
| RelaySpec.Drains | boa-0.94.13/src/pipe.c:103-136 | after the end of the pipe, a client that always takes something gets everything in at most one visit per byte and one more |
| RelaySpec.ReplyDrains | boa-0.94.13/src/request.c:430-442 | the server's own reply reaches such a client in at most one visit per byte and one more, and then the request ends |
| RelaySpec.CutEnds | boa-0.94.13/src/request.c:397-412 | a flush that fails for good ends the request at once |
| RelaySpec.BufferFree | boa-0.94.13/src/pipe.c:107-115 | when everything held has been written, the next read has the whole buffer |
| PipeRelay.Request.Flush | boa-0.94.13/src/buffer.c:172-210 | `req_flush` on the buffer and its offsets does what the machine does |
| PipeRelay.Request.ReadFromPipe | boa-0.94.13/src/pipe.c:37-91 | reading into the buffer behind what is held refines the machine, for every room left |
| PipeRelay.Request.WriteFromPipe | boa-0.94.13/src/pipe.c:103-136 | writing from the buffer refines the machine |
| PipeRelay.Request.ProcessCgiHeader | boa-0.94.13/src/cgi_header.c:51-175 | the header parser on the shared buffer refines the machine, including the flush that ends an error reply or a redirection |
| PipeRelay.Request.Merge | boa-0.94.13/src/cgi_header.c:136-171 | the response header in the lower half and the program's output in the upper half are made to touch without overlapping; the exit for too much data is never taken |
| PipeRelay.Request.PutStatus | boa-0.94.13/src/cgi_header.c:82-84 | `HTTP/1.0 ` takes the place of `Status: `, one byte longer, inside the buffer |
| PipeRelay.Request.Live | boa-0.94.13/src/request.c:395-498 | a whole life on the real buffer is a run of the machine: the client has a beginning of what it ought to get, all of it is sent or waiting exactly if no failure cost anything, and the request is dead exactly if a failure killed it |
| TelnetSpec.StripAppend | itslib/src/utelnetd.c:190-227 | stripping input that arrives in pieces gives the same as stripping all of it, with an incomplete command carried over |
| TelnetSpec.StripClean | itslib/src/utelnetd.c:190-227 | bytes without a command code pass unchanged, so compacted bytes may be scanned again |
| TelnetSpec.RoomIsFree | itslib/src/utelnetd.c:721-727 | a read has room exactly as long as the ring is not full, up to its physical end |
| TelnetSpec.RewindFrees | itslib/src/utelnetd.c:776-786 | at the end of a round an empty ring is all room for the next read |
| TelnetSpec.TerminalSeesStripped | itslib/src/utelnetd.c:660-789 | for every chunking in which no read ends with a NUL, every ring wrap and every short write, the terminal gets a prefix of what the socket delivered without its three-byte commands, and all of it when the ring is empty |
| TelnetSpec.TerminalSeesAccepted | itslib/src/utelnetd.c:660-789 | for every chunking, the same of what is accepted into the ring |
| TelnetSpec.AcceptedIffNoNul | itslib/src/utelnetd.c:721-748 | all that the socket delivers is accepted exactly if no read ends with a NUL |
| TelnetSpec.DropAligned | itslib/src/utelnetd.c:735-741 | dropping the NUL keeps the commands aligned exactly if no command is open before it |
| TelnetSpec.OnlyNulsMissing | itslib/src/utelnetd.c:660-789 | when every NUL that ends a read is data, the terminal gets the stripped input with at most NULs missing |
| TelnetSpec.OptionDropped | itslib/src/utelnetd.c:735-741 | a read that ends with the option 0 of a command makes the next byte the option, and the terminal never sees it: a concrete family of inputs |
| TelnetSpec.ProgressIffNotHalted | itslib/src/utelnetd.c:665-697 | a write that takes something makes progress exactly if the window does not start with a command it does not contain whole |
| TelnetSpec.StuckForever | itslib/src/utelnetd.c:671-674 | a command that the physical end of the ring cuts in two is never completed: nothing more is ever written |
| TelnetSpec.StuckIsReachable | itslib/src/utelnetd.c:665-748 | a concrete input after which the session is stuck, whatever follows |
| TelnetSpec.OtherwiseWaiting | itslib/src/utelnetd.c:665-697 | in every other halt the rest of the command has not arrived yet, and its arrival ends the halt |
| Telnet.RemoveIacs | itslib/src/utelnetd.c:190-227 | the in-place compaction leaves the stripped bytes right before the unprocessed rest, and touches nothing outside the window |
| Telnet.Session.WritePty | itslib/src/utelnetd.c:665-697 | the write to the pty, on the ring and its indices, is a step of the machine |
| Telnet.Session.ReadSocket | itslib/src/utelnetd.c:721-748 | the read from the socket, with the dropped NUL, is a step of the machine |
| Telnet.Session.WriteSocket | itslib/src/utelnetd.c:699-719 | in the other direction what is written and what the ring holds is what was accepted, in order, including the greeting |
| Telnet.Session.ReadPty | itslib/src/utelnetd.c:750-774 | what the pty delivers is appended to the second ring |
| Telnet.Session.EndRound | itslib/src/utelnetd.c:776-786 | resetting the indices of an empty ring changes neither direction |
| Telnet.Session.SendIac | itslib/src/utelnetd.c:258-267 | a command of three bytes is appended to the second ring |
| HeaderDfa.FeedPrefix | boa-0.94.13/src/read.c:56-190 | the state of the header machine after some bytes does not depend on the bytes that come later, hence not on how they are split over reads |
| HeaderDfa.ByChunks | boa-0.94.13/src/read.c:39-252 | parsing after every read, for every way to split the bytes over reads, gives the lines, the answers and the end of the header that all the bytes at once give |
| HeaderDfa.ChunkIndependence | boa-0.94.13/src/read.c:39-252 | two ways to split the same bytes over reads give the same lines, the same answers and the same end of the header |
| HeaderDfa.FeedTracks | boa-0.94.13/src/read.c:56-190 | at every point the texts handed to the line handlers are the lines so far, without their carriage returns, and no end of the header was missed |
| HeaderDfa.FeedJudged | boa-0.94.13/src/read.c:104-120 | the machine goes on as long as the handlers accept the lines and stops with the answer to the first they do not accept |
| HeaderDfa.JudgedByText | boa-0.94.13/src/read.c:104-120 | a line after the first is refused exactly if it has no colon before its first NUL or its handler does not accept it |
| HeaderDfa.EndsAtEarliest | boa-0.94.13/src/read.c:56-190 | the header is taken to end at the earliest line feed, carriage returns, line feed, and nowhere else |
| Pipelining.BlocksConserve | boa-0.94.13/src/request.c:283-325 | cutting a byte stream into header blocks loses, repeats and reorders nothing, and leaves an incomplete header at the end |
| Pipelining.BlocksAfter | boa-0.94.13/src/request.c:283-325 | the segments that successive records have parsed are the first blocks of the stream, as determined by the bytes alone |
| Pipelining.FeedCut | boa-0.94.13/src/read.c:101-120 | the machine stops in the same state on the bytes up to where it stopped |
| ReadRequest.Request.ReadHeader | boa-0.94.13/src/read.c:39-252 | for every state of the buffer and every answer of `read`: the registers are those of the header machine on all bytes received, the unparsed bytes lie in the buffer as they came, a full buffer is a dead request, and each way out returns what the event loop expects |
| ReadRequest.ParseByte | boa-0.94.13/src/read.c:56-120 | one round of the loop on the buffer is one step of the machine; only bytes before `parse_pos` are written |
| ReadRequest.HandOn | boa-0.94.13/src/read.c:104-120 | the handler gets exactly the bytes of the line, in spite of the NULs and upper-case letters written into the buffer |
| ReadRequest.ProcessOptionLine | boa-0.94.13/src/request.c:654-671 | a header line is cut at its colon and its name rewritten in place; without a colon before a NUL nothing changes |
| ReadRequest.ToUpper | boa-0.94.13/src/util.c:265-279 | letters become upper case and hyphens underscores, up to the NUL and no further |
| ReadRequest.HeaderCaseIs | boa-0.94.13/src/util.c:265-279 | each small letter becomes its capital, a hyphen an underscore, and nothing else changes |
| ReadRequest.Request.Reopen | boa-0.94.13/src/request.c:283-325 | the next request of the connection starts with exactly the bytes this one has not parsed; the bytes of the connection stay the concatenation of the segments and the current bytes |
| ReadRequest.Request.VisitWithoutInput | boa-0.94.13/src/read.c:39-252 | the record needs no further input exactly if the header machine stops on the bytes it was given: only then a visit with nothing to read would not wait |
| ReadRequest.TwoInOneSegment | boa-0.94.13/src/request.c:283-325 | of two headers in one segment the second is carried over complete and unparsed into the record that is then blocked until more is readable, so a client that waits for both replies gets one |
| ReadRequest.TwoShortRequests | boa-0.94.13/src/request.c:283-325 | the shortest such input |
| ReadRequest.Request.StartPost | boa-0.94.13/src/read.c:133-188 | a POST goes on exactly with an acceptable Content-Length, and then the body received so far, cut to that length, is what waits to be written |
| ReadRequest.Request.WriteBody | boa-0.94.13/src/read.c:333-377 | the invariant of the body relay is kept; when the program is started the temporary file holds exactly the first Content-Length bytes that followed the header |
| ReadRequest.Request.ReadBody | boa-0.94.13/src/read.c:273-321 | a read never takes more than is missing, and what it takes waits to be written |
| ReadRequest.Request.RelayBody | boa-0.94.13/src/read.c:273-377 | over any number of visits and any answers: the program is only started with exactly the first Content-Length bytes after the header in its file, and it is started within three visits per missing byte and two more if no call fails or blocks |
| ReadRequest.Request.Pipelined | boa-0.94.13/src/request.c:283-325 | the requests of a connection, as long as none was given up, are the blocks of its bytes, whatever the reads were |
| MmapCache.Cache.Probe | boa-0.94.13/src/mmap_cache.c:37-55 | probing always meets a slot that is free or holds the file, the first such one in probing order; the return after a full turn is unreachable |
| MmapCache.Cache.Find | boa-0.94.13/src/mmap_cache.c:32-84 | a hit is counted once more, a miss maps the file into a free slot, and NULL comes back only at the size limit or when `mmap` fails; every other slot stays as it is |
| MmapCache.Cache.Release | boa-0.94.13/src/mmap_cache.c:86-100 | one handle less; the file is unmapped exactly when its last handle is given back |
| MmapCache.AllProbed | boa-0.94.13/src/mmap_cache.c:37-55 | the pigeonhole argument: a full turn would mean 256 slots in use |
| MmapCache.NewlyMapped | boa-0.94.13/src/mmap_cache.c:68-83 | taking a free slot keeps slots in use, handles, counter and mappings in agreement, and the counter at most 129 |
| MmapCache.NowUnmapped | boa-0.94.13/src/mmap_cache.c:96-99 | giving back the last handle of a slot keeps slots in use, handles, counter and mappings in agreement |
| MmapCache.AllReleased | boa-0.94.13/src/mmap_cache.c:86-100 | something is mapped exactly as long as some handle is out, and so it is with the counter |
| Aliases.GetHashValue | boa-0.94.13/src/alias.c:40-51 | the hash loop computes the hash: a signed first byte, then unsigned bytes up to a slash, modulo 17 |
| Aliases.HashOfComponent | boa-0.94.13/src/alias.c:40-51 | the hash is made of the first byte, as a signed one, and of the other bytes of its component |
| Aliases.MatchSharesBucket | boa-0.94.13/src/alias.c:156-167 | an alias that is a path prefix of the URI is in the bucket of the URI, unless it is "/" |
| Aliases.MatchesComponents | boa-0.94.13/src/alias.c:156-167 | an alias matches exactly if its components are the first ones of the URI, where a name that ends in a slash leaves room for one more |
| Aliases.ChainFinds | boa-0.94.13/src/alias.c:77-97 | the incomplete duplicate check never changes the result of a search |
| Aliases.TableAgreesWithScan | boa-0.94.13/src/alias.c:134-180 | the hashed search gives the first match in the order of insertion, as a plain scan would, exactly if the scan does not find "/" for a URI with another hash |
| Aliases.NoRootNoMiss | boa-0.94.13/src/alias.c:134-180 | without an alias "/" the two always agree |
| Aliases.RootMissedSometimes | boa-0.94.13/src/alias.c:134-180 | an alias for "/" is not found for "/a" |
| Aliases.Table.AddAlias | boa-0.94.13/src/alias.c:60-122 | a name that is already on the chain, but not last, is dropped, any other is appended; the chains represent the calls made so far |
| Aliases.Table.FindAlias | boa-0.94.13/src/alias.c:134-180 | the pointer walk over the real chain finds the first alias added that is a prefix of the URI by components, with the exception of "/" for a URI with another hash, and nothing exactly if there is none |
| Uri.BuildNeedsEscape | boa-0.94.13/src/escape.c:44-80 | the bit table agrees with the set of special characters, also where the mask of the top bit, an int, fills the upper half of a 64-bit word |
| Uri.TableDecides | boa-0.94.13/src/escape.h:28-44 | the table decides membership for every byte |
| Uri.EscapeString | boa-0.94.13/src/buffer.c:231-259 | the escaped string and its NUL fit in three times the length and one |
| Uri.UnescapeUri | boa-0.94.13/src/util.c:292-335 | in-place decoding: the path up to a query or fragment, where the query starts, intact, and which strings are rejected |
| Uri.UnescapeEscape | boa-0.94.13/src/util.c:292-335 | escaping and unescaping gives back everything before the first question mark, and what follows it as the query, still escaped |
| Uri.UnescapeWritten | boa-0.94.13/src/util.c:292-335 | a path is given back however it is written, with escapes of any bytes and digits of either case |
| Uri.UnescapeEnds | boa-0.94.13/src/util.c:292-335 | where a path ends: at a query, at a fragment with or without a query in it, or with an error in the middle of an escape |
| Uri.LeftAsIs | boa-0.94.13/src/escape.c:44-80 | letters and digits are never escaped; bytes that do not print, and those that would end a path or start an escape, always are |
| Uri.PercentIsEscape | boa-0.94.13/src/buffer.c:231-259 | an escape has the two digits of its byte in base 16 |
| Uri.RoundTrip | boa-0.94.13/src/util.c:292-335 | the text comes back exactly if there is no question mark in it |
| Uri.CleanPathname | boa-0.94.13/src/util.c:46-70 | the in-place loop computes the cleaned path |
| Uri.CleanIsNeat | boa-0.94.13/src/util.c:36-70 | no "//", "/./" or "/../" is left |
| Uri.CleanFixes | boa-0.94.13/src/util.c:46-70 | exactly the paths that contain one of these are changed, and cleaning once is enough |
| Uri.DeletionKeeps | boa-0.94.13/src/util.c:46-70 | deleting a redundant piece anywhere, an empty, a one-dot or a two-dot component after a slash, does not change the cleaned path |
| Uri.AnyOrder | boa-0.94.13/src/util.c:46-70 | only such pieces are removed: whatever order they are deleted in, once none is left the result is the cleaned path |
| Uri.ByDeletions | boa-0.94.13/src/util.c:46-70 | and the cleaned path is reached by such deletions |

## Left out

- Streams.MpStream.Read: is called with a counter that is at most the declared length. Inputs longer than declared may leave it above, and what the source then does is not modelled; the parsers are proved for inputs that are not longer, where this cannot happen.
- Boundary.AfterNextBoundary: for the first boundary it is tied to the machine with its ring, not to the first occurrence; that would be false, as `FirstBoundary.CanBeSwallowed` and `FirstBoundary.FoundWhereNoneIs` show. Which occurrence it finds is stated exactly when the hyphens of the boundary come first; for a hyphen further on there are the sufficient conditions of `FirstBoundary.FoundAfterSingleHyphens` and `Boundary.ScanPrefix`.
- Multipart.ParsePostMultipartInput: the input is not longer than declared, and no carriage return is in the boundary, which was cut at white space.
- MultipartRoundTrip.RoundTrip: parts without an epilogue; the names and the two values that matter are shorter than 1024 bytes, because longer ones are cut; the parameters of the disposition are written in the usual way, `MultipartRoundTrip.AnyParameter` is about the others.
- Params.DecomposeValue: a parameter that the caller does not list makes the source write through a null pointer; the model stops with the status Undefined.
- FormData.UnescapeChars: for a byte above 127 after a percent sign the source reads in front of its table; what it finds there is a parameter of the model.
- Environments.ReadEnvironment: a negative string length is taken to fail. An allocation of that size does; but for a stored length of -1 the source allocates 0 bytes, which may succeed, and passes the length to `fread`, and what that call does is not modelled. The temporary name that the source leaves uninitialised for entries without a file is taken to be empty.
- Environments.WriteEnvironment: stdio is unbuffered, so that a full disk shows at the write and not at the unchecked close.
- RelaySpec.RelayConserves: the response header fits in half the buffer; HEAD and HTTP/0.9 are left out, and the text of redirections and error replies is a parameter.
- Server.SelectLoop: the globals are passed as one value instead of being shared; the handlers are oracles that may set any status and open or close the descriptors behind a response; signals are left out.
- Server.GetRequest: socket options and addresses are one choice of the kernel.
- TelnetSpec.TerminalSeesStripped: reads deliver at least one byte; the endless retry after a lone NUL is not modelled.
- ReadRequest.Request.ReadHeader: `process_logline` and `process_header_end` are parameters; of `process_option_line` only the rewriting of the line is modelled.
- ReadRequest.Request.Reopen: the bytes of a POST body are not counted as parsed, so a connection that stayed open after a POST would parse them as the next header.
- MmapCache.Cache.Find: the same file may be in two slots, when a free slot appears before its own; the statistics counters are left out.
- Aliases.Table.FindAlias: the URI is not empty, as it starts with a slash; for an empty one the source would read past its end. `normalize_path` is a parameter.
- Uri.EscapeString: the buffer is the one the routine asks for; a null buffer for an empty string is left out.
- Failing allocations and failing temporary files, everywhere in cgic and Boa.
- The file-system walk of `translate_uri`, `init_get` and `process_get`, CGI process creation, logging, time formatting and directory listings.
- The JavaScript pages, the configuration scripts and the C programs for the hardware of the device.
- The string lists, select boxes and numbers of cgic, and its escaping for HTML: loops of the same kind as those modelled.
