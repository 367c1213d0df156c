# Verification of the HTTP/1.1 engine

A Dafny model of the engine that the web server plugin is built on: how client and server write
messages, how they read them off a network that delivers bytes in pieces of any size, the string codecs
both rest on, and the concurrent protocols around connections. `dafny verify dfyconfig.toml` checks it.

Text is `seq<char>`; where bytes matter (`Percent`) every character is below 256. A
`CaseInsensitiveMultimap` is the sequence of its entries in iteration order; `find` returns the first of
several equal names. The peer is a string of bytes still to come: each delivery takes an arbitrary
non-empty piece of it (`Transport.Receive`), `async_read_until` may take more than it needs,
`transfer_exactly` may not. The chain of handlers of one exchange runs one after the other, so it is a
method; the specification of such a method is a one-shot function of all the bytes, and the theorems are
about that function; laws from the side of the text that is written say what the function means, without
the helpers it is computed with. Protocols in which handlers interleave are state machines with a `Run` predicate,
and the theorems hold for every state of every run.

| files | what they model |
|---|---|
| `Text`, `Numbers` | lines, names compared without case, printing and reading numbers |
| `Percent`, `QueryString`, `Attributes` | the codecs |
| `Delimiters`, `Transport` | where a read stops, `HeaderEndMatch`, socket and stream buffers |
| `Messages`, `Writers` | parsers and serializers of heads |
| `Chunked`, `Events` | chunked transfer coding, server-sent events |
| `Server`, `Client`, `RoundTrip` | reading whole messages; what one side writes the other recovers |
| `SendQueue`, `ServerResponse`, `FileSender` | the response's queue of writes, its reference count, and the file sender on top |
| `FileTransfer` | a file from the handler that sends it to the client's callback |
| `RequestProtocol`, `ConnectionPool` | the client's requests and pool: the protocol, and the objects that take its steps |
| `ScopeRunner`, `ConnectionSet` | the destruction barrier, the server's connection set |

Where the code does not do what its surroundings suggest, the model follows the code and a lemma says
exactly when it does: a header end after a doubled CR is missed (`Delimiters.DoubledCrIsMissed`,
`Writers.MessageHead`), and so is an event whose blank line is hidden like that
(`Events.EventsRoundTrip`), chunk
sizes near 2^32 wrap around (`Chunked.DecodeEncoded`), the client does not read a response that is ended
by closing the connection (`RoundTrip.CloseLosesContent`), bytes after a message change the body with
the fragmentation (`Server.FragmentationMatters`), and the file sender is never deleted for a file whose
length is a multiple of the packet size, or after an error (`FileSender.Deliver`,
`FileSender.FileSender.OnSent`), so that an empty file is answered by nothing at all
(`FileTransfer.FileOverNetwork`).

## Model

| member | source | states |
|---|---|---|
| Text.EqualNamesHashEqual | utility.hpp:42-64 | names that compare equal without case have equal hashes, whatever the mixing step: the law the hashed multimap needs |
| Text.LowerCase | utility.hpp:26-62 | the 26 upper-case letters become the lower-case ones, nothing else changes: what names are compared by |
| Percent.Encode | utility.hpp:72-86 | the loop yields the encoding that the lemmas below are about |
| Percent.Decode | utility.hpp:89-108 | the index-skipping loop yields the decoding that the lemmas below are about, for every text |
| Percent.DecodeSpelled | utility.hpp:93-105 | for every text: `+` is a blank, a triple with digits of either case is its byte, any other character is itself, and what follows is decoded on its own |
| Percent.IncompleteTriple | utility.hpp:95-104 | a percent sign with fewer than two characters behind it stands for itself |
| Percent.OtherPairs | utility.hpp:96-97 | what a triple gives whose characters are no two digits: white space, a sign, a digit and something else, nothing at all |
| Percent.HexDigits | utility.hpp:97-97 | the digits are exactly those of the two alphabets, with their places as values |
| Percent.EncodedCharacter | utility.hpp:78-83 | each unreserved character stays as it is, each other one becomes its upper-case triple |
| Percent.EncodedAppend | utility.hpp:78-83 | encoding goes character by character |
| Percent.DecodeEncoded | utility.hpp:72-108 | decoding undoes encoding for every byte string |
| Percent.EncodedIsWellEncoded | utility.hpp:72-86 | an encoded text is made of the unreserved characters of section 2.3 of RFC 3986 and upper-case triples only |
| Percent.DecodedSize | utility.hpp:91-107 | the reserved size n/3 + n%3 is a lower bound of every decoded text, and n an upper one |
| QueryString.Parse | utility.hpp:128-162 | the three-position scanner equals: split at `&`, split each piece at its last `=`, drop empty names, decode values; for every string |
| QueryString.Create | utility.hpp:115-125 | the loop joins the fields with `&` in order |
| QueryString.ParsedNamesArePlain | utility.hpp:138-159 | no parse yields an empty name or one with `&` |
| QueryString.PiecesParse | utility.hpp:134-159 | every query string is pieces between `&`: one with `=` gives its name and decoded text, one without gives an empty value, one without a name nothing; in order |
| QueryString.CreateParseRoundTrip | utility.hpp:115-162 | parsing what was created gives the fields back in order exactly when every name is non-empty and has no `&` |
| Attributes.Parse | utility.hpp:188-236 | the three-position scanner equals the grammar: blanks, a name, then `;` or `=` and a value that ends at a quote or `;`; for every string |
| Attributes.ParsedNamesArePlain | utility.hpp:195-206 | no parse yields a name that starts with a blank or has `;` or `=` after its first character |
| Attributes.RoundTrip | utility.hpp:188-236 | bare names, quoted percent-encoded pairs and pairs without quotes, joined by `; `, parse back in order exactly when every name is plain in that sense |
| Attributes.LastAttribute | utility.hpp:224-233 | at the end of the text: nothing behind `=` is dropped, a missing closing quote is made up for, a lone quote is a value |
| Attributes.BlanksAreSkipped | utility.hpp:195-198 | spaces and semicolons before a name are skipped |
| Numbers.ReadDigits | server_http.hpp:576-650 | a row of digits of either case, leading zeros included, reads as its value before any text that does not continue it, and is refused when it exceeds the word |
| Numbers.ReadNextDigit | server_http.hpp:576-650 | a digit reads as its place in the alphabet, and one more digit multiplies by the base and adds its place, up to the maximum |
| Numbers.ReadAnyCase | server_http.hpp:650-650 | a number printed in base 16 and spelled with digits of any case after any zeros is read back, whatever follows that is not taken for more digits |
| Numbers.ReadBefore | server_http.hpp:576-650 | white space is skipped, one sign is read, a minus negates modulo the word |
| Numbers.ReadPrefixed | server_http.hpp:650-650 | in base 16 a prefix `0x` or `0X` before digits is skipped |
| Numbers.ReadNothing | server_http.hpp:576-581 | where no digit comes nothing is read |
| Numbers.ReadPrint | client_http.hpp:301-301 | the number printed for a length is read back as that number |
| Delimiters.HeaderEndMatch.Match | client_http.hpp:13-50 | fed in any pieces, the matcher reports a position exactly when it is the first at which the input seen so far ends in LF LF, or in CR LF CR LF whose first CR ends a run of odd length |
| Delimiters.CountersStep | client_http.hpp:22-47 | how each character moves the two counters, and that a match is reported exactly at a header end |
| Delimiters.ExactWithoutDoubledCr | client_http.hpp:13-50 | without adjacent CRs the match is exactly LF LF or CR LF CR LF |
| Delimiters.DoubledCrIsMissed | client_http.hpp:34-41 | a concrete input with CR LF CR LF that is not matched |
| Delimiters.OddCrsMakeHeaderEnd | client_http.hpp:22-47 | any number of CRs before LF CR LF makes a header end exactly when it is odd |
| Delimiters.FirstEndPrefix | server_http.hpp:543-562 | bytes read beyond a delimiter do not move it |
| Transport.ReadUntil | server_http.hpp:543-543 | for every fragmentation the reported position is that of the first delimiter in all the peer sends, and no byte is lost; failure means there is none |
| Transport.ReadUntilHeaderEnd | client_http.hpp:520-520 | the same with the incremental matcher |
| Transport.ReadExactly | server_http.hpp:585-585 | succeeds exactly when the peer sends enough, and takes not a byte more |
| Messages.ParseHeader | utility.hpp:168-180 | the loop takes lines up to the first without a colon, and yields their fields and the bytes left |
| Messages.HeaderLine | utility.hpp:172-177 | name, colon, any number of spaces, value, CR or not: the field is name and value |
| Messages.EmptyHeaderLine | utility.hpp:173-177 | with nothing behind the colon there is no field; with only spaces the last one is the value |
| Messages.ParseRequestLine | utility.hpp:254-285 | method to the first space, target to the second, query after the last `?`, version without the last character; refused without "HTTP" |
| Messages.RequestLineMeans | utility.hpp:258-282 | for every method, path, query without `?`, protocol and version: the line made of them is taken apart into just these, and refused unless the protocol is "HTTP" |
| Messages.RequestLineRefused | utility.hpp:257-293 | a line without two spaces, or without a slash behind the second, is refused |
| Messages.NoVersion | utility.hpp:279-282 | with nothing behind the slash the version is empty, although its computed length wraps around |
| Messages.EveryTargetDivides | utility.hpp:262-276 | every target is a path, and a query behind its last `?` if there is one |
| Messages.ParseRequest | utility.hpp:254-295 | equals the specification of the request parser, on result and on bytes left |
| Messages.ParseResponse | utility.hpp:309-327 | equals the specification of the response parser, on result and on bytes left |
| Messages.StatusLineMeans | utility.hpp:312-320 | five characters, version, space, status, CR or not: taken apart into version and status; refused without a space or with nothing behind it |
| Messages.StatusLineAstray | utility.hpp:313-316 | a line of at most five characters is refused; with a space among the first five the version runs to the end |
| Messages.HeaderOnLines | utility.hpp:168-180 | on lines that end with one without a colon, the parser takes the lines before the first such line, and nothing after it matters |
| Messages.TakesHead | server_http.hpp:558-567 | for requests and responses and both delimiters: the parser never takes a byte beyond the delimiter, and takes exactly the bytes up to it when every line between the first and the blank one has a colon, and only then |
| Messages.FromPart | client_http.hpp:532-537 | for requests and responses: what is buffered beyond the head changes neither the parsed head nor what is left |
| Messages.HeadParsed | server_http.hpp:558-569 | after the parser the buffer holds exactly what was buffered from the end of the parsed head on |
| Messages.EndOfLines | client_http.hpp:13-50 | a delimiter ends where a line ends exactly when that line is blank and the line before it does not hide it: empty, or a CR after a line with an odd number of CRs at its end |
| Messages.HeadEndsFirst | server_http.hpp:543-543 | in lines none of which is blank, the first delimiter is the blank line that follows them, exactly when that line closes a head |
| Chunked.ReadChunkedTransferEncoded | server_http.hpp:627-687 | for every fragmentation of every stream, status and data appended are those of one-shot decoding of what is buffered and to come |
| Chunked.ReadChunk | server_http.hpp:689-713 | the same from the data of a chunk on |
| Chunked.ChunkDecoded | client_http.hpp:655-690 | a size that is no number is an error, one that wraps around has no meaning, data that are not there are the end of the stream, else as many bytes as it says and two more are taken |
| Chunked.BareSizeLine | server_http.hpp:643-661 | a size line ended by a bare LF loses its last character, and the bytes up to the first CRLF are asked for once more |
| Chunked.DecodeEncoded | client_http.hpp:642-718 | for every list of non-empty chunks, however their size lines are spelled, decoding gives the concatenated data exactly when no size wraps in `unsigned long` with its CRLF |
| Chunked.CutShort | server_http.hpp:660-686 | wherever the stream ends before the last chunk is complete, the end of the stream is reported and no more data handed on than was sent |
| Chunked.StandardSizeLine | server_http.hpp:649-651 | every size line of section 4.1 of RFC 7230, digits and optional extension, reads as its length unless that exceeds the word |
| Chunked.NumberSizeLine | server_http.hpp:649-651 | the same for the number that is meant, printed in base 16 and spelled in any case after any zeros |
| Events.ReadServerSentEvent | client_http.hpp:720-747 | for every fragmentation of every stream, the events reported and the content appended are those of one-shot reading |
| Events.CopyLines | client_http.hpp:733-739 | the loop takes the lines up to the first blank one and appends them without CR and with LF |
| Events.EventWithinMatch | client_http.hpp:722-739 | whenever the match ends at p, the copied text is exactly the lines before the first blank one, at or before p, and the rest stays buffered |
| Events.EventsRoundTrip | client_http.hpp:720-747 | of events written as lines and a blank line, empty or CR, those up to the last whose blank line completes a header end are reported, in order; all of them exactly when the last one's does |
| Events.TextsMean | client_http.hpp:736-739 | the text of an event is its lines ended by LF, whether they were sent with CRLF or LF |
| Server.Read | server_http.hpp:541-625 | for every fragmentation, the outcome is the one-shot outcome for the number of bytes buffered when the head was complete; `num_additional_bytes` is the body already buffered and the amount asked for never underflows |
| Server.FragmentationMatters | server_http.hpp:572-620 | the outcome is the same for every fragmentation exactly when nothing follows the message; chunked bodies never depend on it |
| Server.BodyIsContent | server_http.hpp:583-605 | with a well-formed head and nothing after the message, the body is all that follows the head |
| Server.ContentArrives | server_http.hpp:571-620 | what arrives of a head and content, in every case: a readable length equal to, above or below what is sent, one that is no number, chunks, or none of these |
| Server.HeadRefused | server_http.hpp:564-569 | a head that cannot be parsed is a protocol error |
| Client.Read | client_http.hpp:518-640 | for every fragmentation, the callback is called as the one-shot reading says |
| Client.ReadLength | client_http.hpp:540-562 | a body with a length ends at that length or at what was buffered with the head, whichever is later |
| Client.ReadRest | client_http.hpp:563-615 | chunked, to the end of the stream, events, or what is buffered, in this order |
| Client.FragmentationMatters | client_http.hpp:539-615 | the outcome is the same for every fragmentation exactly when the content has an end of its own |
| Client.ContentArrives | client_http.hpp:539-615 | the same for the client, with bodies that run to the end of the stream, event streams, and content whose end nothing tells, which is sure to arrive only when there is none |
| Client.LessIs | client_http.hpp:575-575 | versions are compared as strings: the first character that differs decides |
| Writers.CreateRequestHeader | client_http.hpp:485-502 | first line, Host and the caller's fields in order |
| Writers.Request | client_http.hpp:295-305 | a Content-Length is added exactly for content that the caller neither measures nor chunks |
| Writers.RequestTextIs | client_http.hpp:485-502 | the whole text of a request, written out: target with the proxy's authority, host and port, fields, length, content |
| Writers.WriteHeader | server_http.hpp:58-73 | a Content-Length is added exactly when no field measures or chunks the content and the connection stays open |
| Writers.WriteResponse | server_http.hpp:163-168 | status line, fields, blank line, content |
| Writers.ResponseTextIs | server_http.hpp:58-73 | the whole text of a response, written out |
| Writers.FieldsTextIs | server_http.hpp:67-67 | each field is its name, colon, space, value and CRLF, in order |
| Writers.MessageHead | utility.hpp:168-180 | the parser takes the head of a message, with spaces before values dropped, and nothing else; the delimiter search finds the end of that head exactly when the last line has no odd number of CRs before its CRLF, and always for CRLF CRLF |
| Writers.NothingToTrim | utility.hpp:173-177 | fields come back unchanged exactly when no value begins with a space |
| RoundTrip.RequestRoundTrip | client_http.hpp:295-307 | every well-formed request, made from a path and a query, is recovered by the server for every fragmentation: method, that path (with the authority through a proxy, "/" for none), that query, version, fields with host and length, content; and a stream that ends anywhere before is reported as ended |
| RoundTrip.RequestOverNetwork | client_http.hpp:485-516 | client writer, network and server reader composed: the request delivered has the path and the query that were asked for |
| RoundTrip.ChunkedRequestRoundTrip | server_http.hpp:607-618 | a request with chunked content: the server recovers the data exactly when no chunk size wraps, for every fragmentation; and a stream that ends before is reported as ended |
| RoundTrip.ResponseRoundTrip | server_http.hpp:163-168 | every response with added length is recovered by the client for every fragmentation: version, status text, fields with length, content; and a stream that ends anywhere before is reported as ended |
| RoundTrip.MeasuredResponseRoundTrip | server_http.hpp:163-168 | the same for a response whose caller tells the length, closed afterwards or not |
| RoundTrip.ResponseOverNetwork | client_http.hpp:518-562 | server writer, network and client reader composed: the response reported is the response written |
| RoundTrip.ChunkedResponseRoundTrip | client_http.hpp:563-574 | a response with chunked content: the client recovers the data exactly when no chunk size wraps, for every fragmentation; and a stream that ends before is reported as ended |
| RoundTrip.BodyUntilClose | client_http.hpp:575-597 | a response of version 1.0 or 0.9, or with "Session: close", without a length and not chunked, delivers everything up to the end of the stream |
| RoundTrip.CloseLosesContent | client_http.hpp:575-575 | a response that is ended by closing the connection is sure to be recovered exactly when it is empty |
| RoundTrip.EventStreamRoundTrip | client_http.hpp:598-613 | an event stream opened by a server is reported event by event, up to the last whose blank line completes a header end, for every fragmentation |
| ScopeRunner.StepKeepsInv | utility.hpp:447-476 | every atomic step, spurious failures included, keeps: the counter is the number of locks held, or -1 and none is held |
| ScopeRunner.LockIsGranted | utility.hpp:456-465 | an attempt that finds the counter as expected makes the agent a holder, and nothing else changes |
| ScopeRunner.LockWithoutInterference | utility.hpp:457-459 | as long as nothing was stopped, a call that no other disturbs gets its lock at its first attempt, and at the next one after an attempt that failed |
| ScopeRunner.RefusedOnlyWhenClosed | utility.hpp:461-464 | in every run a lock is refused only when the counter is -1, and it is -1 only after a `stop` closed it |
| ScopeRunner.ManyHold | utility.hpp:455-465 | any number of agents can hold a lock at once |
| ScopeRunner.LockIsReleased | utility.hpp:447-449 | giving a lock back takes exactly that agent out of the holders; no step moves another agent |
| ScopeRunner.NoLockAfterStop | utility.hpp:467-476 | in every run, once a `stop` has returned, no lock is held then or later |
| ScopeRunner.LateCallsAreRefused | utility.hpp:456-465 | a `continue_lock` that begins at any time after a `stop` returned never tries for the lock and can only return null |
| ScopeRunner.ClosedCallReturns | utility.hpp:457-462 | a call that finds the counter closed returns at once with null |
| ScopeRunner.StopWaitsForLocks | utility.hpp:468-475 | `stop` returns only when no lock is held, and at its next attempt when none is |
| ScopeRunner.StopCloses | utility.hpp:468-475 | a `stop` that meets no lock closes the counter and returns |
| SendQueue.StepKeepsInv | server_http.hpp:75-149 | every step, of any handler, callback or holder of a reference, keeps the invariants that the lemmas below are taken from |
| SendQueue.BytesConserved | server_http.hpp:75-149 | without errors, wire, bytes in flight, queue and stream buffer are in order all that was ever written; a write is in flight exactly when the queue is not empty |
| SendQueue.HandlersKeepAlive | server_http.hpp:75-109 | while a write is in flight or a collected callback has still to be called, the reference that the handler holds keeps the reference count above zero |
| SendQueue.LastWriteIsAlone | server_http.hpp:111-128 | so when the count is zero and `send_on_delete` can run, nothing is in flight and no callback waits, and its write overlaps no other; when it ends without errors all that was written is on the wire |
| SendQueue.CallbacksOnce | server_http.hpp:83-107 | every callback is called at most once, and exactly once when nothing is queued or waiting |
| SendQueue.CalledInOrder | server_http.hpp:96-105 | of two callbacks of one handler the one sent first is called first |
| SendQueue.NothingIsStuck | server_http.hpp:75-109 | in every reachable state writes can go on, complete, fail and be cancelled, callbacks can be called, handlers return, references go, and the deleter runs without them |
| SendQueue.SuccessMeansDelivered | server_http.hpp:83-92 | a success collected before anything failed says that its own and all earlier bytes are on the wire, whatever fails or is cancelled before or after the callback is called |
| SendQueue.SuccessMeansOwnBytes | server_http.hpp:83-92 | any success, after a failure too, says that the bytes of its own `send` are on the wire in one piece |
| SendQueue.ErrorReachesAll | server_http.hpp:94-106 | an error empties the queue and hands the same error to the callback of every queued buffer |
| ServerResponse.Response.Write | server_http.hpp:152-154 | appends to the stream buffer, as the step of the protocol does |
| ServerResponse.Response.Send | server_http.hpp:138-149 | queues the stream buffer and starts a write, which holds a reference, if none is in flight, as the step of the protocol does |
| ServerResponse.Response.OnWritten | server_http.hpp:77-108 | the completion handler: without an error the next write starts and the callback is collected; an error empties the queue and is collected for exactly the queued callbacks; without a lock queue and callbacks stay as they are |
| ServerResponse.Response.Fire | server_http.hpp:91-105 | a collected callback is called and is collected no more |
| ServerResponse.Response.SendOnDelete | server_http.hpp:754-760 | runs at reference count zero, and then no write is in flight, no callback waits, and the queue is empty unless a handler was cancelled |
| FileSender.PacketsMakeFile | httpserver.cpp:157-163 | the packets are non-empty consecutive slices that make up the file, all but the last full |
| FileSender.FileSender.Send | httpserver.cpp:157-173 | sends the next slice of the file, or nothing at its end |
| FileSender.FileSender.OnSent | httpserver.cpp:162-172 | a full packet is followed by the next one, a short one by the destructor, which drops the reference to the response, an error by the callback only |
| FileSender.Deliver | httpserver.cpp:132-178 | without errors the calls of `send` are the packets of the file in order, the old stream buffer in front of the first, the k-th made when exactly k callbacks had been called; the wire holds the file; the sender is deleted, once, and its reference dropped exactly when the length is no multiple of the packet size |
| FileTransfer.FileOverNetwork | httpserver.cpp:265-318 | `sendFile` with fields, the network and the client composed: the client gets every file that is not empty, for every packet size and fragmentation, and nothing of the response of an empty one |
| ConnectionPool.Client.GetConnection | client_http.hpp:434-466 | an idle pooled connection when there is one, else a new one; no other connection changes |
| ConnectionPool.Client.Request | client_http.hpp:261-308 | a new request takes the step `Start` of the protocol, with a connection that the protocol allows; only a connected socket is written to at once |
| ConnectionPool.Client.Prune | client_http.hpp:273-287 | in any iteration order the loop keeps all connections in use and exactly one idle one if there is any, but not the failed one |
| ConnectionPool.Client.ReleaseAndPrune | client_http.hpp:268-288 | the session callback releases the connection unless it streams events, then prunes |
| ConnectionPool.Client.OnHeader | client_http.hpp:530-615 | a header that was read restores the reconnect flag, marks event streams and calls back for them, as the step `HeaderRead` does |
| ConnectionPool.Client.OnBodyPart | client_http.hpp:642-695 | a read of a body that succeeds takes the step `BodyRead` |
| ConnectionPool.Client.LeavePool | client_http.hpp:587-592 | a body read to the end of the stream takes its connection out of the pool, once, as the step `Erase` does |
| ConnectionPool.Client.OnEvent | client_http.hpp:741-742 | an event calls back and keeps the connection in use, as the step `Event` does |
| ConnectionPool.Client.Finish | client_http.hpp:266-293 | the last call of the session callback takes the step `Finish` |
| ConnectionPool.Client.OnHeaderError | client_http.hpp:617-638 | a header that cannot be read leads to the step `Reconnect` or, when the flag is off, the operation was aborted or the connection is not pooled, to `Finish` |
| ConnectionPool.Client.Reconnect | client_http.hpp:618-629 | a pooled connection is replaced by a fresh one in use that will not be replaced again; the session waits on it, and no other connection changes |
| ConnectionPool.Client.Stop | client_http.hpp:398-404 | closes every pooled connection and empties the pool, as the step `Stop` does |
| RequestProtocol.StepKeepsInv | client_http.hpp:434-640 | every step of any request keeps the invariants that the lemmas below are taken from |
| RequestProtocol.PoolOwnership | client_http.hpp:266-293 | in every reachable state no two pooled connections are idle, and each one that is not is used by exactly one unfinished request |
| RequestProtocol.ConnectedBeforeWritten | client_http.hpp:770-802 | in every reachable state a request past connecting has a connected socket; new connections are resolved and connected first, kept ones are written to at once |
| RequestProtocol.OnlyConnectingOpens | client_http.hpp:774-795 | nothing but the success of a connect makes a socket connected, and resolve, connect, write and read follow each other |
| RequestProtocol.ConnectionIsKept | client_http.hpp:273-287 | after a request that ends without an error on a pooled connection an idle one is in the pool, and a new request takes it and makes no other |
| RequestProtocol.StopEmptiesPool | client_http.hpp:398-404 | `stop` empties the pool, and no request reconnects after it |
| RequestProtocol.CallsBackOnce | client_http.hpp:504-640 | a request that is no event stream has called back once when it is finished and not before, and has reconnected at most once |
| RequestProtocol.OthersKeepFlag | client_http.hpp:453-454 | no step of another request sets the reconnect flag of a connection in use |
| RequestProtocol.NearerToCallback | client_http.hpp:770-802 | every completed operation of a request, other than an event, brings it nearer to its callback in a well-founded order, and no other request takes it back |
| RequestProtocol.AlwaysAWayOn | client_http.hpp:617-638 | whatever a request waits for, its success and its failure can be handled; a failure leads to the callback or to the one reconnect |
| ConnectionSet.StepKeepsInv | server_http.hpp:523-539 | every step keeps: the set holds exactly the connections inserted and not taken out by an upgrade, a deleter or `stop` |
| ConnectionSet.ConnectionLife | server_http.hpp:523-539 | inserted into the set, shared and dropped, taken out by the deleter before it is freed, or by an upgrade while it keeps its socket |
| ConnectionSet.ListedAreLive | server_http.hpp:477-494 | in every reachable state every pointer in the set refers to an allocated connection that still has its socket, and a freed one is not listed |
| ConnectionSet.StopClosesAll | server_http.hpp:484-489 | `stop` closes every connection in use that was inserted before and not upgraded |

## Left out

- Server.Read: stream buffers are unbounded; reaching `max_request_streambuf_size` (payload too large) and timeouts are not modelled.
- Client.Read: the same for `max_response_streambuf_size`; with an unbounded buffer a body that runs to the end of the stream always ends there. Every read that fails is the end of the stream; other socket errors are handled alike by the code.
- Chunked.DecodedChunks: stops with `Undefined` at a size line that is a bare LF and at a size that wraps around, where the code removes a character from an empty string and hands on bytes that were never read.
- Chunked.ReadChunkedTransferEncoded: stands for the client's handlers as well, which are line for line the same; trailers are not supported by the code.
- Text.CaseInsensitiveHash: the arithmetic that mixes one character into the hash is a parameter.
- Text.Lookup: which of several entries with equal names `find` returns is up to the library; the model takes the first.
- ScopeRunner.Next: modelled on values, an atomic operation a step, since the loops are about interference and need not terminate; the counter is unbounded.
- RequestProtocol.Next: modelled on values, since requests interleave; the methods of `ConnectionPool.Client` take its steps, and `Client.View` is the state. A socket that was once connected counts as open, also after a shutdown, as `is_open` has it. The bytes of a body are a number of reads. Handlers that are cancelled, and a Content-Length that is no number (`Client.Thrown`), call nothing back and are not steps.
- ConnectionSet.Next: modelled on values, since creation, deletion, upgrade and `stop` interleave.
- SendQueue.Next: a callback that writes or sends does so in a later step, before its handler returns.
- FileSender.FileSender.Send: exceptions, after which the code tries again, are not modelled; the file does not change while it is read.
- FileTransfer.SendFile: opening the file, which the code tries until it succeeds, and the last reference of the script object, are not modelled.
- RoundTrip.RequestRoundTrip: the content is a string; the overload for streams writes the same bytes.
- Keep-alive decisions, pipelined requests, resource lookup and regular expressions, proxy CONNECT, TLS, name resolution, timers: step inputs or library behaviour.
- Dates, the table of status texts (a status text here is any text without LF), and the script-engine glue: no invariant of their own.
