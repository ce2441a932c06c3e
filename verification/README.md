# libcoda-net: verified model of the byte-level protocols and resource protocols

libcoda-net is a C++ networking library: sockets, buffered sockets with listeners, a telnet
filter, a small HTTP client, a URI class with a percent codec, form encoding, and a polling
server. This project models the parts that carry state or parse bytes, with the operating system
as an environment that may answer anything it is allowed to answer, and proves what those parts
do on every input, every run and every list of answers.

Each imperative routine of the library is a method that changes an object in place and is proved
against a recursive function; the laws are lemmas about those functions.

| file | what it models |
|---|---|
| `bytes.dfy` | the searches of the C++ standard library, C strings, ASCII case |
| `telnet.dfy` | the telnet command filter that erases commands from a buffer while scanning it, and reading a stream through it |
| `buffered_socket.dfy` | `readln` (module `Lines`); `write`, `write_from_buffer` and `close` with callbacks that call back into the socket (module `BufferedSocket`) |
| `std_map.dfy` | iteration over a `std::map` in key order |
| `scan.dfy` | the `sscanf` status-line conversion and decimal printing |
| `http.dfy` | the response parser and the request writer |
| `uri.dfy` | the hand-written URI parser |
| `percent.dfy` | percent encoding and decoding |
| `form.dfy` | form encoding of a map and the library's decoder |
| `descriptors.dfy` | ownership of descriptors over moves, connects, listens, accepts, closes |
| `poll_server.dfy` | the connection registry, `select`'s descriptor sets, filtering while iterating |
| `wait_time.dfy` | the stall between two polls |

A byte is a `char` and a buffer a `string`. Where the C++ code returns `end()` or `npos`, the
functions return the length.

## Where the code does not do what one would expect

Each of these is proved as a condition that holds if and only if the code behaves.

- Cutting a telnet stream into chunks is invisible exactly if no chunk ends inside a command
  (`Telnet.SplitsIffComplete`): the filter keeps no state between reads.
- IAC IAC, the escape for a data byte 255, is dropped entirely, so escaped data arrives exactly if there
  was nothing to escape (`Telnet.EscapedIff`); a command that is no negotiation leaves its command byte in
  the data, and a parameter byte 255 breaks its subnegotiation. A stream written by RFC 854 is read as it
  was meant exactly if it holds none of the three (`Telnet.StandardIff`). Of the tokens the filter
  recognises in any input, IAC IAC, unlisted commands and broken subnegotiations, and no others, leave data
  that was not meant (`Telnet.MeantIff`; the smallest inputs are in `Telnet.MisreadWitnesses`).
- Reading lines from two buffers one after the other equals reading them joined only at a clean cut
  (`Lines.DrainSplitsIff`).
- A send that takes only a part of the buffer makes that part go out twice: over a run the bytes are
  conserved exactly if there was no such send (`BufferedSocket.RunConserves`), and one send conserves them
  exactly if the system's answer is not a proper part (`BufferedSocket.SendConservesIff`). Writing "ab" can
  send "aab" (`BufferedSocket.PartialSendWitness`).
- `listen` on a valid socket leaks the old descriptor (`Descriptors.ListenKeepsIff`); so does move
  assignment of a `socket_server` to itself (`Descriptors.ServerMoveKeepsIff`).
- A response keeps the version of the response parsed before it if it has no status line
  (`Http.ParseForgets`), and parsing throws on a field line that ends in its first colon
  (`Http.ThrowsIff`).
- `full_path` doubles the `#` of a fragment and drops a lone `?` (`Uri.FullPathIff`).
- The form decoder inverts the form encoder on the empty map only (`Form.DecodeEncodeIff`).
- `select` drops descriptors that are not ready and nothing adds them again: one poll in which no
  client connects makes the server deaf for good (`PollServer.ListensIff`, `PollServer.Deaf`).
- A connection closed by its own `on_connect` callback, or outside a poll, stays in the descriptor
  sets (`PollServer.PollKeepsWatchedIff`, `PollServer.CallsKeepWatchedIff`).
- At two or more polls a second the server does not stall at all when the clock has passed a second
  boundary since the last poll (`WaitTime.StallsIff`).

## Model

| member | source | states |
|---|---|---|
| Telnet.TelnetSocket.OnRecv | src/telnet/socket.cpp:57-81 | the erase-while-scanning loop ends and leaves exactly the data, and fires exactly the events in order, of the one-pass parser, for every buffer on which no reversed range is formed |
| Telnet.TelnetSocket.HandleTelopt | src/telnet/socket.cpp:17-31 | a negotiation with its option is erased and reported; without an option nothing changes and the end is returned |
| Telnet.TelnetSocket.HandleSubNeg | src/telnet/socket.cpp:33-55 | a subnegotiation that is ended by IAC SE is erased and reported with type and parameters; any other is left alone |
| Telnet.TelnetSocket.SendTelopt | src/telnet/socket.cpp:83-91 | the packet sent is 255, the action and the option |
| Telnet.TelnetSocket.ReadChunk | src/buffered_socket.cpp:53-77 | a received chunk is replaced by its filtered data; retryable errors and closing yield nothing; other errors throw |
| Telnet.TelnetSocket.ReadToBuffer | src/buffered_socket.cpp:83-104 | the input buffer grows by the filtered data of all chunks received, in order; `on_did_read` fires once iff something was received and nothing threw |
| Telnet.TakesAll | src/buffered_socket.cpp:86-96 | a non-blocking socket reads every chunk up to the first answer that is none, consumes that answer, and fails iff it is an error |
| Telnet.TakesOne | src/buffered_socket.cpp:86-96 | a blocking one reads one answer |
| Telnet.Partition | src/telnet/socket.cpp:57-81 | the tokens the filter recognises are, in order, exactly the input |
| Telnet.FilterIsTokens | src/telnet/socket.cpp:57-81 | the output is the kept bytes and the events of those tokens |
| Telnet.NoContiguousIsSafe | src/telnet/socket.cpp:41-50 | an input without a contiguous IAC SB IAC SE never makes the handler form a reversed parameter range |
| Telnet.DataByNumber | src/telnet/socket.cpp:58-79 | a byte other than 255 in front of any text is data |
| Telnet.DoubledByNumber | src/telnet/socket.cpp:64-66 | 255 255 leaves nothing and fires nothing |
| Telnet.NegotiationByNumber | src/telnet/socket.cpp:67-72 | 255, a code from 251 to 254 and an option, in front of any text, leave nothing and report that code and that option |
| Telnet.SubByNumber | src/telnet/socket.cpp:33-55 | 255 250, a type, parameters without 255, and 255 240 leave nothing and report type and parameters |
| Telnet.BrokenByNumber | src/telnet/socket.cpp:46-48 | a subnegotiation whose next 255 is not followed by 240 loses its 255 only and what is behind 250 is read again |
| Telnet.UnlistedByNumber | src/telnet/socket.cpp:63-77 | 255 and a code below 250 leave that code |
| Telnet.CutByNumber | src/telnet/socket.cpp:25-26 | a last 255 stays, and a negotiation without option loses its 255 only |
| Telnet.OpenByNumber | src/telnet/socket.cpp:43-48 | a subnegotiation without 255 240 in the rest of the buffer loses its first byte only |
| Telnet.UndefinedByNumber | src/telnet/socket.cpp:50-50 | 255 250 255 240 forms the reversed range |
| Telnet.SplitFilter | src/telnet/socket.cpp:57-81 | behind a buffer that ends in no command, data, events and safety of the following bytes are independent of it |
| Telnet.SplitsIffComplete | src/telnet/socket.cpp:25-60 | filtering a prefix and then the rest equals filtering all at once, for every rest, iff the filter of the prefix never runs into the end of the buffer |
| Telnet.Continuation | src/telnet/socket.cpp:25-47 | for every prefix that ends inside a command there is a continuation for which the cut changes data or events |
| Telnet.ChunkedStream | src/buffered_socket.cpp:89-96 | chunks that end in no command (the last may) leave the filter of the whole stream in the input buffer |
| Telnet.RoundTrip | src/telnet/socket.cpp:33-91 | any list of data bytes, sent negotiations and well-formed subnegotiations, serialised and filtered, gives back the same tokens, data and events |
| Telnet.OutputShape | src/telnet/socket.cpp:57-81 | what is left is a subsequence of the input in which IAC can stand at the end only |
| Telnet.Conservation | src/telnet/socket.cpp:57-81 | the input length is the output length plus two bytes for each IAC IAC, three for each negotiation, five and the parameters for each subnegotiation and one for every other command; each negotiation and subnegotiation fires one event |
| Telnet.EscapedIff | src/telnet/socket.cpp:64-66 | data whose IACs are doubled comes out of the filter unchanged iff it holds no IAC |
| Telnet.StandardIff | src/telnet/socket.cpp:57-81 | a stream of data, negotiations, subnegotiations and other commands as RFC 854 writes them gives the data and events that were meant iff no data byte and no parameter byte is 255 and there is no other command |
| Telnet.ReadBroken | src/telnet/socket.cpp:41-50 | a subnegotiation with an escaped parameter byte 255 fires nothing and leaves SB, its type, its other parameters and SE in the data |
| Telnet.MeantIff | src/telnet/socket.cpp:57-81 | for any input that ends in no command, the data left is the data meant iff no token is IAC IAC, an unlisted command or a broken subnegotiation |
| Telnet.MisreadWitnesses | src/telnet/socket.cpp:63-77 | IAC IAC leaves nothing although it means a byte, and IAC NOP leaves a byte although it means none |
| Telnet.Idempotent | src/telnet/socket.cpp:57-81 | filtering the output again changes nothing, fires nothing and is safe |
| Lines.InputBuffer.ReadLn | src/buffered_socket.cpp:110-135 | the result is the text before the first newline byte and the buffer keeps what is behind the run of newline bytes; it is the first of the lines to be drained |
| Lines.InputBuffer.HasInput | src/buffered_socket.cpp:138-138 | true iff there is a line left to drain |
| Lines.DrainKeepsText | src/buffered_socket.cpp:110-138 | the lines read until the buffer is empty are together the buffer without CR and LF |
| Lines.DrainedLines | src/buffered_socket.cpp:126-132 | no line holds a newline byte; only the first can be empty, iff the buffer starts with one |
| Lines.DrainWritten | src/buffered_socket.cpp:110-164 | nonempty newline-free lines written with `writeln` and then drained come back |
| Lines.DrainSplitsIff | src/buffered_socket.cpp:110-135 | draining two joined buffers is draining one and then the other iff one is empty or the cut is behind a newline byte and not before one |
| BufferedSocket.Socket.Write | src/buffered_socket.cpp:167-170 | the bytes are appended to the output buffer and to the history |
| BufferedSocket.Socket.WriteLn | src/buffered_socket.cpp:154-158 | the bytes and CRLF are appended |
| BufferedSocket.Socket.Notify | src/buffered_socket.cpp:274-296 | the handlers run their next actions on the socket, including nested writes, flushes and closes, and end |
| BufferedSocket.Socket.Send | src/socket.cpp:79-97 | -1 iff the socket is invalid or a nonempty buffer meets an error, 0 for an empty buffer, otherwise the number of bytes the system took, which are then on the wire |
| BufferedSocket.Socket.WriteFromBuffer | src/buffered_socket.cpp:199-217 | the outcome with its notifications before and after the send; the buffer is cleared iff everything was taken, and the result is that of `AfterWrite` |
| BufferedSocket.Socket.OnClose | src/sync/server.cpp:20-26 | a valid registered connection leaves the registry; a closed one is left alone |
| BufferedSocket.Socket.SocketClose | src/socket.cpp:66-77 | a valid descriptor is closed, an invalid one is not closed again |
| BufferedSocket.Socket.Close | src/buffered_socket.cpp:190-196 | notify, with the cleanup listener anywhere among the listeners, flush, then close the descriptor if a nested close has not done it |
| BufferedSocket.AfterNotify | src/buffered_socket.cpp:274-296 | over all nested calls: wire and written bytes only grow, bytes balance, an invalid socket stays invalid and silent, a connection leaves the registry before its descriptor is closed, each at most once, and no byte is left behind unless a send falls short |
| BufferedSocket.AfterWrite | src/buffered_socket.cpp:199-217 | the same for a write with callbacks that write, flush and close; unless a send falls short, all that was buffered reaches the wire; it reports false on an invalid socket, true on an empty buffer, true on a nonempty one only if some send took all it was offered, and true if no send fell short and the socket is still valid |
| BufferedSocket.WriteReportsIff | src/buffered_socket.cpp:208-216 | without callbacks a nonempty buffer is reported written iff the system takes all of it; an error puts nothing on the wire and keeps the buffer |
| BufferedSocket.WriteDelivers | src/buffered_socket.cpp:199-217 | for callbacks that write: what one flush puts on the wire and leaves in the buffer, and that it reports true iff its one send takes the whole offer |
| BufferedSocket.AfterClose | src/buffered_socket.cpp:190-196 | the same for a close with such callbacks, and the socket is invalid afterwards |
| BufferedSocket.AfterSend | src/socket.cpp:79-97 | the same for one send, and a full send leaves an empty buffer |
| BufferedSocket.RunConserves | src/buffered_socket.cpp:154-217 | over every run with any callbacks and any send results: wire bytes followed by the output buffer are all bytes written in order iff no send took a proper part of what it was offered; the excess is the bytes those sends took |
| BufferedSocket.SendConservesIff | src/buffered_socket.cpp:208-212 | from a balanced state one send keeps the balance iff the system does not take a proper part of the buffer |
| BufferedSocket.PartGoesOutTwice | src/buffered_socket.cpp:208-212 | after a partial send the next full send repeats the part |
| BufferedSocket.PartialSendWitness | src/buffered_socket.cpp:208-212 | "ab" is written and "aab" is sent |
| BufferedSocket.AllOrNothingConserves | src/buffered_socket.cpp:199-217 | sends that take all or nothing conserve every run |
| BufferedSocket.EntryLeavesFirst | src/buffered_socket.cpp:190-196 | over every run with callbacks that close in any nesting: the descriptor is closed at most once, a registered connection has left the registry before, and afterwards both or neither has happened |
| BufferedSocket.RunMarks | src/sync/server.cpp:20-26 | the same from any state of a registered or unregistered connection |
| BufferedSocket.CloseIsFinal | src/buffered_socket.cpp:190-202 | after a close, wherever it happens, nothing reaches the wire, nothing leaves the registry and the descriptor is not closed again |
| BufferedSocket.CloseDelivers | src/buffered_socket.cpp:190-217 | for any callbacks and any nesting: a socket that is closed has put on the wire whatever it had buffered at any time before, unless a send since then took less than it was offered |
| BufferedSocket.CloseOfWriters | src/buffered_socket.cpp:190-217 | for callbacks that write and any answer of the system, exactly what a close delivers and what it leaves in the buffer |
| Http.SkipNewline | src/http/client.cpp:19-26 | the position moves over at most two newline bytes and stops before anything else |
| Http.Response.Clear | src/http/client.cpp:120-125 | everything is reset except the version |
| Http.Response.Parse | src/http/client.cpp:112-175 | all fields and the exception, for every input and every earlier state |
| Http.Response.ParseFields | src/http/client.cpp:151-174 | the header loop ends, yields the last value of each key, and leaves the text behind the empty line or the last CRLF as content |
| Http.ContentIsSuffix | src/http/client.cpp:130-174 | the content is a suffix of the input |
| Http.ParseForgets | src/http/client.cpp:112-147 | code, headers, content and exception depend on the input only; the version too iff there is a status line |
| Http.ThrowsIff | src/http/client.cpp:151-170 | parsing throws iff there is a status line and a field line ends in its first colon |
| Http.NoStatusLine | src/http/client.cpp:128-145 | without CRLF, or without `HTTP/` in front, the whole input is the content, there are no headers, and the version is kept |
| Http.StatusLineStops | src/http/client.cpp:141-145 | the same for a first line whose conversions stop early; a code that was reached is kept |
| Http.NoReason | src/http/client.cpp:141-145 | a first line without a reason is no status line, but its code is kept |
| Http.NoCode | src/http/client.cpp:141-145 | a first line without a number behind the version is none either |
| Http.AnyFieldRead | src/http/client.cpp:156-167 | a field ends its key at the first colon and drops one byte behind it, whatever it is |
| Http.OtherLineSkipped | src/http/client.cpp:158-160 | a line without a colon is skipped |
| Http.ColonLineThrows | src/http/client.cpp:163-163 | a line that ends in its first colon throws and keeps the headers read so far |
| Http.UnfinishedLine | src/http/client.cpp:152-155 | text behind the last CRLF is no field |
| Http.ThrowLeaves | src/http/client.cpp:147-163 | after the exception version, code and the fields so far are set and the content is empty |
| Http.CutOffResponse | src/http/client.cpp:151-174 | a response without an empty line has the text behind its last CRLF as content |
| Http.FieldsReadBack | src/http/client.cpp:151-174 | printed fields, an empty line and any body are read back as the last-wins map and that body |
| Http.ResponseRoundTrip | src/http/client.cpp:127-175 | a printed response is read back: version, code, last-wins headers, and any body byte for byte |
| Http.RestIsSuffix | src/http/client.cpp:151-174 | the header loop leaves a suffix of its text |
| Scan.ScanPrinted | src/http/protocol.h:33-33 | a printed status line yields all three conversions with its version and code, whatever follows in the reason |
| Scan.ScanSpaced | src/http/protocol.h:33-33 | version, code and reason are found behind any white space; without a reason there are two conversions |
| Scan.ScanNoCode | src/http/protocol.h:33-33 | without a number behind the version there is one conversion and the code is kept |
| Scan.ScanNothing | src/http/protocol.h:33-33 | without `HTTP/` or anything behind it there is none |
| Scan.ScanOfDecimal | src/http/client.cpp:141-142 | a printed integer, also a negative one, is scanned back in front of any text that is no digit |
| Scan.ScanPlus | src/http/client.cpp:141-142 | a plus sign is read over |
| Scan.DecimalByCode | src/http/socket_impl.cpp:94-98 | each digit of a printed number is that of its power of ten |
| Scan.DecimalLength | src/http/socket_impl.cpp:94-98 | a printed number has enough digits and no leading zero |
| Http.Request | src/http/socket_impl.cpp:43-106 | the bytes appended to the output buffer are the request line, the missing defaults, the client's headers in key order, the size, the empty line and the content |
| Http.AddDefault | src/http/socket_impl.cpp:69-84 | a default is written iff the client has not set that header |
| Http.AddHeaders | src/http/socket_impl.cpp:87-91 | one line for each header, in key order |
| Http.AddContent | src/http/socket_impl.cpp:101-106 | the empty line and the content |
| Http.RequestReadBack | src/http/socket_impl.cpp:61-106 | for fields that fit the line buffer, the request's first line ends at its first CRLF and the library's reader recovers exactly the client's headers, the missing defaults and the size, and exactly the content |
| Http.RequestTextOf | src/http/socket_impl.cpp:61-106 | request line, Host, Accept, Connection, the headers, the size, the empty line and the content, each as its literal text and in this order |
| Http.RequestLineByName | src/http/socket_impl.cpp:47-59 | for each of the eight methods the line is its name, the path with a slash in front, and `HTTP/` with the version |
| Http.DefaultTarget | src/http/socket_impl.cpp:43-51 | without a path of the caller the URI's path, query and fragment are asked for, or `/` |
| Http.NulCuts | src/http/socket_impl.cpp:49-91 | what is behind a NUL in a key, a value, the path or the version is not sent |
| Http.IsChunkedIff | src/http/socket_impl.cpp:63-66 | chunked iff Transfer-Encoding is "chunked" in any case of its letters |
| Http.SeenByName | src/http/socket_impl.cpp:68-98 | each header a server sees has the client's value, its literal default, or the size of the content |
| Http.DefaultsOnce | src/http/socket_impl.cpp:69-91 | Host, Accept and Connection are each sent exactly once |
| StdMap.AssignEntries | src/http/socket_impl.cpp:87-91 | assigning the visited entries one by one merges the map in |
| StdMap.EntriesSorted | src/http/socket_impl.cpp:87-91 | the visited entries are those of the map, with strictly ascending keys |
| StdMap.LessIff | src/http/socket_impl.cpp:87-91 | a key comes before another iff it is a proper prefix of it or has the smaller byte where they differ first |
| Uri.Uri.Parse | src/uri.cpp:60-155 | accepts iff the string is nonempty and has a scheme or a default; the fields are those of the unique well-formed tree of the string |
| Uri.Uri.ParseLogin | src/uri.cpp:117-131 | user and password end at the first `@` anywhere behind the scheme |
| Uri.Uri.ParseSite | src/uri.cpp:133-144 | host and port end at the first slash behind the login |
| Uri.Uri.ParseTail | src/uri.cpp:145-152 | path, query and fragment, where a fragment is split off behind a query only |
| Uri.Uri.constructor | src/uri.cpp:40-42 | a rejected string leaves all fields empty |
| Uri.PrintOfSplit | src/uri.cpp:103-153 | printing the tree of any string gives that string back, and no part holds the delimiter that ends it |
| Uri.SplitOfPrint | src/uri.cpp:103-153 | every well-formed tree is recovered from its text |
| Uri.KeepIsLossless | src/uri.cpp:103-153 | the kept fields and the presence of the delimiters rebuild the input, except that each byte from 65 to 90 of scheme and host is kept 32 higher; an absent part is kept empty |
| Uri.AcceptsIff | src/uri.cpp:60-107 | accepted iff the string is nonempty and holds `://` or there is a default scheme |
| Uri.KeptInLowerCase | src/uri.cpp:112-144 | the kept host, and the scheme of a string that has one, hold no byte from 65 to 90 |
| Uri.CaseDoesNotMatter | src/uri.cpp:112-144 | strings that differ in the case of letters only keep the same scheme and host, and the same fields if they differ there only |
| Uri.DefaultScheme | src/uri.cpp:103-115 | a string without `://` parses like the same string with the default scheme written out iff that scheme is lower case |
| Uri.FullPathIff | src/uri.cpp:48-59 | `full_path` is the text behind the first slash iff there is no query, or a nonempty query and no fragment |
| Uri.FullPathDoubles | src/uri.cpp:48-59 | a fragment comes out behind two hashes |
| Percent.EncodeString | src/uri.cpp:183-205 | the loop computes the encoding |
| Percent.DecodeString | src/uri.cpp:207-230 | the loop computes the decoding, with an unfinished triplet losing its `%` |
| Percent.EncodeByCode | src/uri.cpp:193-201 | digits, letters, `-`, `.`, `_` and `~`, by their codes, stay; any other byte is a percent sign and its two upper-case digits |
| Percent.TripletByCode | src/uri.cpp:216-221 | a percent sign and two digits of either case are the byte of that value |
| Percent.DecodeByCode | src/uri.cpp:211-226 | a plus is a space, an unfinished triplet loses its percent sign, other bytes stay |
| Percent.NotADigitWitness | src/uri.cpp:36-36 | `%zz` is read as a byte |
| Percent.DecodeEncode | src/uri.cpp:183-230 | decoding undoes encoding for every byte string |
| Percent.EncodeConcat | src/uri.cpp:189-202 | encoding distributes over concatenation |
| Percent.EncodeInjective | src/uri.cpp:183-205 | different byte strings have different encodings |
| Percent.EncodeDecodeIff | src/uri.cpp:183-230 | encoding undoes decoding iff the text consists of unreserved bytes and upper-case triplets of other bytes |
| Percent.EncodeIsCanonical | src/uri.cpp:192-201 | the encoder prints unreserved bytes and upper-case triplets of other bytes only |
| Percent.HexByteOfDigits | src/uri.cpp:218-218 | the shift-and-or of the two digits of a byte is that byte |
| Form.EncodeMap | src/encoders.cpp:13-24 | the loop joins the pairs in key order and percent-encodes the result |
| Form.ParsePairs | src/encoders.cpp:13-22 | splitting the joined pairs at each `&` and first `=` gives the map back, whatever its size |
| Form.EncodeIsInvertible | src/encoders.cpp:13-24 | undoing the percent encoding and splitting recovers every map of delimiter-free keys and values |
| Form.EncodeInjective | src/encoders.cpp:13-24 | different such maps have different encodings |
| Form.EncodeTwo | src/encoders.cpp:13-24 | two pairs are joined by `=` and `&`, which come out as %3D and %26 |
| Form.DecodeMap | src/encoders.cpp:34-53 | the loop computes the decoder's map, counts being passed where lengths are expected |
| Form.DecodeEncodeIff | src/encoders.cpp:13-53 | the library's decoder undoes its encoder iff the map is empty |
| Form.DecodePairsIff | src/encoders.cpp:34-53 | on the joined text it recovers a map iff that has at most one entry |
| Form.DecodeTwoWitness | src/encoders.cpp:34-53 | `a=b&c=d` is read as a to `b&c` and `&c=d` to d |
| Descriptors.Socket.Close | src/socket.cpp:66-77 | a valid socket's descriptor is closed and forgotten; an invalid one closes nothing |
| Descriptors.Socket.Move | src/socket.cpp:28-33 | the descriptor changes hands and the source is invalid |
| Descriptors.Socket.MoveAssign | src/socket.cpp:44-58 | the target's descriptor is closed and replaced by the source's; self-assignment changes nothing |
| Descriptors.Socket.TryCandidates | src/socket.cpp:203-216 | of all addresses tried, only the descriptor that is kept stays open |
| Descriptors.Socket.Connect | src/socket.cpp:184-232 | the old descriptor is closed only if the name resolves, and at most one new one is kept |
| Descriptors.Socket.Listen | src/socket.cpp:234-297 | a bound descriptor replaces whatever was held before |
| Descriptors.TryKeeps | src/socket.cpp:203-216 | for every candidate list the loop keeps the system's log sound, and opens a descriptor for good iff some candidate is taken |
| Descriptors.ConnectReportsIff | src/socket.cpp:184-232 | true iff the name resolves and a candidate is taken, and then the first of those is held; otherwise the socket ends invalid or, for an unresolved name, unchanged; the non-blocking flag is lost iff an old descriptor was closed |
| Descriptors.ListenReportsIff | src/socket.cpp:257-297 | true iff an address was bound and the system listens; the first bound descriptor is held in both cases |
| Descriptors.StepKeeps | src/socket.cpp:28-77 | every operation keeps: the open descriptors are exactly those of live objects, no two of which share one |
| Descriptors.ListenKeepsIff | src/socket.cpp:257-280 | `listen` keeps this iff the socket was invalid or nothing could be bound |
| Descriptors.ServerMoveKeepsIff | src/socket_server.cpp:28-41 | a server's move assignment keeps this iff the objects differ or the source is invalid |
| Descriptors.RunKeeps | src/socket.cpp:28-77 | every run keeps this |
| Descriptors.EveryRunOwns | src/socket.cpp:28-77 | from no objects on, each descriptor was closed as often as opened, plus one opening if it is still open; none is open when all objects are gone |
| Descriptors.ClosedAsOftenAsOpened | src/socket.cpp:66-77 | in a log without double opens or closes, openings and closings of a descriptor differ by whether it is open |
| PollServer.Server.AddSocket | src/sync/server.cpp:189-200 | a valid connection is registered under its descriptor, an invalid one is not |
| PollServer.Server.RemoveSocket | src/sync/server.cpp:202-207 | exactly that key leaves the registry |
| PollServer.Server.ClearSockets | src/sync/server.cpp:209-213 | the registry is empty and the descriptors of its connections are closed, other ones are not |
| PollServer.Server.Stop | src/sync/server.cpp:164-168 | the server is invalid and its connections are gone and closed |
| PollServer.Poller.Listen | src/sync/select_impl.cpp:33-37 | the server's descriptor is watched and is the bound |
| PollServer.Poller.Clear | src/sync/select_impl.cpp:93-99 | the descriptor leaves both sets, unless it is invalid |
| PollServer.Poller.Serve | src/sync/select_impl.cpp:71-89 | a connection is to be removed iff it is invalid, or ready and failing |
| PollServer.Poller.IterateConnections | src/sync/select_impl.cpp:101-125 | every entry is visited once, in key order; exactly the rejected ones leave the registry and the sets |
| PollServer.Poller.PollOnce | src/sync/select_impl.cpp:39-90 | the effect of one poll for every answer of the system |
| PollServer.PollKeepsRegistered | src/sync/select_impl.cpp:39-125 | every key stays the raw descriptor of a valid socket, and no other connection is open if none was |
| PollServer.PollKeepsWatchedIff | src/sync/select_impl.cpp:54-66 | a poll keeps every watched descriptor within the bound and the server's or registered iff it accepts nothing or the accepted connection survives its own callbacks |
| PollServer.PollRemovesRejected | src/sync/select_impl.cpp:71-125 | a connection is removed iff the delegate rejects it, then with its descriptors |
| PollServer.AcceptedIsWatched | src/sync/select_impl.cpp:54-89 | an accepted connection is registered and in both sets after the poll iff its callbacks leave it open and neither its read nor its write fails; the bound is the larger descriptor |
| PollServer.PollWatchesReported | src/sync/select_impl.cpp:47-89 | a connection is removed iff it was reported and its read or its write of pending output fails; one that stays is in each set afterwards iff it was there and reported |
| PollServer.PollAddsOnlyAccepted | src/sync/select_impl.cpp:39-66 | no other connection appears; a poll of an invalid server and one that throws change nothing |
| PollServer.CallsKeepRegistered | src/sync/server.cpp:20-26 | at every moment of any calls on a connection, with re-entrant callbacks and closes, every key is the raw descriptor of a valid socket |
| PollServer.CallsCloseOrKeep | src/sync/server.cpp:20-26 | such calls change nothing the server sees unless they close the connection, and then exactly its entry and its descriptor are gone |
| PollServer.CallsKeepWatchedIff | src/sync/server.cpp:20-26 | calls outside a poll leave the sets sound iff they do not close the connection or its descriptor was in neither |
| PollServer.RunKeepsRegistered | src/sync/server.cpp:164-207 | over every run of polls, calls on connections and stops, with descriptors handed out again, the keys are exactly the open descriptors of connections |
| PollServer.StopClosesAll | src/sync/server.cpp:164-168 | a stop at any point of any run closes every connection and nothing opens one afterwards |
| PollServer.EveryRunIsWatched | src/sync/select_impl.cpp:34-126 | from `listen` on, if no connection is closed outside the delegate, the sets hold only the server and registered connections, within the bound |
| PollServer.ListensIff | src/sync/select_impl.cpp:47-65 | over every run, the server is still watched iff it was ready in every completed `select` until it was stopped |
| PollServer.Deaf | src/sync/select_impl.cpp:47-65 | once it is not watched, nothing is ever accepted or added again |
| PollServer.ForgottenStaysForgotten | src/sync/select_impl.cpp:47-76 | a connection that was once not ready is never read again until its number is handed out anew |
| WaitTime.Normalise | src/sync/server.cpp:116-124 | the loops end with the same microseconds in normal form |
| WaitTime.StallTime | src/sync/server.cpp:112-134 | the stall is the normal time worth the positive part of the difference |
| WaitTime.WaitTime | src/sync/server.cpp:100-137 | no stall without last time or frequency; otherwise exactly that time, and the last time moves |
| WaitTime.StallIsBounded | src/sync/server.cpp:112-134 | for a clock that does not run backwards, stall times frequency is at most a second; at frequency one the stall fills the second since the last poll |
| WaitTime.StallWithinSecond | src/sync/server.cpp:112-134 | within a second, stall times frequency is what is left of a second, less than `frequency` microseconds rounded off; behind the second boundary it is zero at higher frequencies |
| WaitTime.TruncDivIs | src/sync/server.cpp:112-113 | the division cuts towards zero |
| WaitTime.StallsIff | src/sync/server.cpp:112-134 | at higher frequencies there is a stall iff no second boundary was passed and at least `frequency` microseconds of the second are left |

## Left out

- Telnet.TelnetSocket.OnRecv: the input for which the C++ code forms a reversed iterator range is undefined behaviour there and is excluded by a precondition.
- Telnet.TelnetSocket.ReadToBuffer: callbacks that change the input buffer while a read is under way are not modelled; the two read notifications are counted.
- BufferedSocket.Socket.Notify: the handlers of the listeners of one notification are one list of actions (two around the cleanup listener for a close); the listener list does not change during a notification, and callbacks that call back for ever are not represented.
- Scan.ScanPrinted: version and reason are assumed to fit the fixed buffers of `sscanf`, and the status code is an unbounded integer.
- WaitTime.WaitTime: `long` is taken to be wider than `unsigned` and unbounded; the two clock readings are parameters.
- PollServer.Server.Stop: a server listens once in a run.
- PollServer.Poller.IterateConnections: the registry does not change inside the delegate, no one else holds a reference to a removed connection, and a descriptor set has no upper size.
- Descriptors.Socket.Listen: a failing address lookup throws before anything changes and is not represented; addresses and the TLS layer of a socket are not part of the state.
- Uri.Uri.Parse: dereferencing the end of the string is read as the terminating NUL, and the branch for the uriparser library is not part of this model.
- Http.Request: connecting, sending and reading the reply around the buffer are left out; the socket and its history are those of `BufferedSocket`.
- The system calls, TLS, `curl_impl.cpp`, `epoll_impl.cpp`, threads and mutexes, and the asynchronous server and client.
- The JSON and XML encoders, which hand over to another library, and the command-line client.
- Move construction of buffered sockets and servers beyond their descriptor, listener removal, accessors, and exception classes.
