# http-request: a verified model of the request engine

This project models the HTTP client engine of the repository and proves what it does on every
input, every cutting of the byte stream into reads, and every behaviour of the network, the
clock and a cancelling thread.

| file | models |
|---|---|
| `Text.dfy` | `find` and `rfind` on byte strings; delimiters that cannot overlap themselves |
| `StringUtil.dfy` | `StringUtil::split` and `removePrefix` |
| `Numbers.dfy` | the number reader behind `std::stoi`, `std::stol`, `std::stoll`, and the printing it undoes |
| `Base64.dfy` | `encode::base64Encode` with its unmasked 32-bit accumulator, and a decoder |
| `Growth.dfy` | the float arithmetic with which `Data::append` grows, and the cost of growing |
| `Data.dfy` | class `Data` over a heap array |
| `Url.dfy` | class `Url`, its parser, and the layouts it reads |
| `ResponseHeader.dfy` | `parseResponseHeader` |
| `Chunked.dfy` | the decoder of `Request::parseChunk` (section 4.1 of RFC 7230) and the grammar it is compared with |
| `Cuts.dfy` | where a chunked stream may be cut, in bytes |
| `Receiver.dfy` | what `Request::receive` does with successful reads (section 3.3.3 of RFC 7230) |
| `RequestEncoder.dfy` | `RequestInfo` and `encode::htmlEncode` |
| `Transport.dfy` | the environment, and the retry loops of `PlainSocket` and `SSLManager` |
| `Trace.dfy` | callback traces and their language |
| `Run.dfy` | a whole run as a chain of attempts, and what follows from it |
| `Request.dfy` | class `Request`: the run on the worker thread |

A `string` stands for a C++ byte string, one char for one byte. The operating system, the
resolver, OpenSSL, the clock and the cancelling thread are one finite script of arbitrary
answers (`Transport.Answer`), followed by failure for good: every finished run is the run of
some script, so statements about all scripts are statements about all finished runs. An
exception that leaves a `noexcept` function, or an index out of bounds, is the outcome `Crash`
or `Throws` instead of a precondition. A cancel may come at every `Yield`: before each check of
`isValid_`, between the check and the call, before the calls that are not checked, and before
each connection attempt.

Where the code does not do what one would expect, the code is modelled as it is and the exact
condition is proved:

- Chunked bodies: the decoder carries only the rest of the chunk size between reads, and the line break
  strip runs after a size line as well. When the end of a size line and a line break at the start of
  its data come in one read, the chunk is entered skewed: that break is dropped and the one behind the
  data is delivered instead. The decoder completes if and only if no cut falls inside a size line or its
  line break, and none between a chunk's data and the end of the line break behind them unless the chunk
  is entered skewed (`Cuts.SkewedMayBeCut` is an example). The data arrive whole if and only if, besides,
  every chunk entered skewed consists of line breaks only. A well-formed body can even kill the process:
  it does if and only if the first cut that is not allowed is right behind the data of a chunk and the next
  read has two bytes or more (`Cuts.CutBehindDataKills` is the family of examples); any other such cut is
  reported as a chunk size error once it has been read past. `Cuts.DecodesInBytes` and
  `Receivers.ChunkedResponse` say so for all chunks, all cuttings and any part of the stream that has
  arrived, in byte offsets; `Chunked.WholeStreamExact` for the stream in one read.
- A body with bytes behind it is passed on exactly if and only if the closing read ends where the
  body ends (`Receivers.SurplusExact`).
- A header field comes back if and only if it is `Storable`: `removePrefix` empties a string that
  begins with a space, and a value containing ": " is dropped (`ResponseHeaders.FieldExact`).
- The redirect limit reports its error and goes on: a run's callbacks form the documented sequence
  if and only if at most seven redirects were followed (`Runs.ChainLanguage`, `Requests.Request.Process`).
- The process dies of an uncaught exception if and only if the header cannot be parsed
  (`ResponseHeaders.ThrowsExact` says when; a status line that ends behind its code is one case), or the
  response is not redirected and its Content-Length cannot be read, or its body is chunked and a size
  line cannot be read (`Receivers.CrashExact`).
- The Authorization made from a URL with user info stays in the header map, so it is sent to every later
  redirect target as well, unless the user set one (`Runs.CredentialsTravel`).
- A clock set back behind the start uses the timeout up (`Runs.RemainExact`).

The environment keeps a record of every connection attempt: the answers to come when it began, its
socket, the bytes accepted for sending and the reads that got bytes. The calls that are due in a run are
stated about that record (`Runs.Chain`): each attempt uses the socket for its scheme and fails to connect
as the answers say, or fails to send, or has sent the whole request and is answered by the calls that
its reads determine; a redirect among them names the URL of the next attempt. The calls made are the
calls due up to a cancel, and behind it those that are not checked (`Trace.Adds`); at most one call that
is checked comes behind the cancel, directly, because its check came before.

## Model

| member | source | states |
|---|---|---|
| Requests.Request.Process | src/Request.cpp:227-246 | For every environment and every moment of cancelling: the calls due are exactly those of the chain of recorded attempts, or the one refusal for an unknown method, an unreadable URL or another scheme; the calls made are those up to a cancel and the unchecked ones behind it, with at most one checked call directly behind it; one attempt per redirect plus the first, unless the last target was rejected, and at most one begun after a cancel; whole bodies and chunked bodies arrive as stated, the calls due bring no other data, and the handler for data alone is enough for the user to get them; a close by the peer ends them with Disconnected and no Error; the calls due form Connected* (HeaderDone Data*)? Error? Disconnected if and only if at most seven redirects were followed, with one further Disconnected per redirect beyond the limit (eight-bit counter included), and those before a cancel begin that language; in an environment that never cancels the request stays valid and, with all handlers set, the user sees exactly the calls due; the process dies if and only if the header, the Content-Length or a size line received cannot be read |
| Requests.Request.SendRequest | src/Request.cpp:160-205 | One attempt carries the run to its end: the calls due are those of a chain that begins with this URL, over TLS exactly for https, and a Content-Length or chunked body that was received arrives |
| Requests.Request.Exchange | src/Request.cpp:201-204 | A response is read only after the whole request is on the wire; a request that is not sent whole is reported with what select or the transfer said |
| Requests.Request.Connect | src/Request.cpp:161-200 | Connected is called exactly when resolver, clock and connect succeed, otherwise the error of the first that fails; the attempt has the socket for its scheme |
| Requests.Request.Establish | src/Request.cpp:164-194 | The resolver, a fresh socket, the clock and connect, in this order, decide on success; the socket is a TLS one exactly for https; no connect is made when the host is not resolved or no time is left |
| Runs.ConnectErrorExact | src/Request.cpp:168-197 | Over the environment's answers: connecting succeeds if and only if the host is resolved, the timeout has not passed and connect says so; otherwise the first of them that fails is reported |
| Requests.Request.Receive | src/Request.cpp:364-428 | The calls made are those that the reads of this connection determine, then those for its end or for the redirect |
| Requests.Request.ReadResponse | src/Request.cpp:372-427 | The read loop follows the fold over exactly the reads that the connection got, retries and interruptions making no difference; it breaks off only when select or the transfer failed |
| Requests.Request.ReadOnce | src/Request.cpp:373-390 | The bytes of one read, or what waiting came to, or what the transport said: a close by the peer, and nothing else, ends the run without an error, a retry repeats, everything else is reported |
| Requests.Request.Conclude | src/Request.cpp:399-426 | A complete response disconnects, a chunk error has already been reported, a redirect has called nothing |
| Requests.Request.OnBytes | src/Request.cpp:392-421 | One read does to state and callbacks exactly what the receiver's transition says; a cancel on the way cuts the calls short |
| Requests.Request.DeliverBytes | src/Request.cpp:410-421 | Body bytes are delivered as the receiver's transition says |
| Requests.Request.ParseChunk | src/Request.cpp:326-362 | The loop over the view delivers the decoder's payloads in order and leaves its rest, carry and status |
| Requests.Request.IsReceivable | src/Request.cpp:306-324 | True exactly when waiting comes to data; an error is reported, and a cancel ends the waiting with no call at all |
| Requests.Request.Select | src/Request.cpp:458-463 | Like the two transfers it demands a socket that has not been given up, so none is ever used after `socket_.reset()`, at the redirect limit or elsewhere |
| Requests.Request.SocketSend | src/Request.cpp:258 | The result is that of the loop for the attempt's socket, plain or TLS, and so are the bytes accepted |
| Requests.Request.SocketReceive | src/Request.cpp:377 | The result and the bytes are those of the loop for the attempt's socket; the peer counts as closed exactly when the deciding call did not fail and got nothing |
| Runs.AwaitExact | src/Request.cpp:307-323 | Waiting comes to data, a cancel or an error if and only if some round does, with only interrupted selects, time left and no cancel in the rounds before |
| Runs.AgainExact | src/Request.cpp:317-320 | Waiting goes into another round if and only if select was interrupted and the timeout has not passed |
| Requests.Request.FollowRedirect | src/Request.cpp:207-225 | An empty target and an unusable one are reported as redirect errors, the limit as such; at the limit the redirect is followed all the same; another attempt is made if and only if the target is a http or https URL |
| Requests.Request.CountRedirect | src/Request.cpp:216-219 | The eight-bit count, and the error and Disconnected when it has reached seven |
| Requests.Request.SetUrl | src/Request.cpp:220-223 | The target is parsed afresh and accepted exactly when it is a http or https URL |
| Runs.FollowableExact | src/Request.cpp:220-223 | A target leads to another attempt if and only if it begins with "http://" or "https://" |
| Requests.Request.Send | src/Request.cpp:248-269 | For every behaviour of the transport the bytes accepted are a prefix of the printed request, and all of it when the answer is true |
| Requests.Request.SendAll | src/Request.cpp:256-268 | Partial sends conserve the message and terminate |
| Requests.Request.CallIfValid | src/Request.cpp:445-463 | Check and call as two steps: a cancel before the check suppresses the call, one between them lets exactly this call through |
| Requests.Request.HandleErrorResponse | src/Request.cpp:438-443 | Error, which is not checked, then Disconnected, which is |
| Requests.Request.Disconnect | src/Request.cpp:458-463 | Disconnected unless cancelled |
| Requests.Request.Cancel | src/include/public/Request.h:107-109 | Marks the request invalid for good, once |
| Runs.RemainExact | src/Request.cpp:433-436 | Time is left exactly while the clock has not run back and the timeout has not passed, over unsigned 64-bit subtraction |
| Runs.HitsExact | src/Request.cpp:211-219 | How often n redirects meet the limit, in closed form over the eight-bit counter; never exactly for at most seven |
| Runs.ResponseFinishes | src/Request.cpp:364-428 | A response read to its end adds exactly one Disconnected and ends what was live; when the process dies of it that Disconnected is all that is missing |
| Runs.ChainFinishes | src/Request.cpp:160-246 | Whatever attempts a run is made of, it calls Disconnected once and once more for every time the redirect limit was met, and nothing is left open |
| Runs.ChainCounts | src/Request.cpp:207-225 | One attempt for every redirect followed plus the first, unless the last target was rejected |
| Runs.ChainLanguage | src/Request.cpp:160-246 | The calls of a chain form the documented language if and only if at most seven redirects were followed |
| Runs.ChainSends | src/Request.cpp:248-269 | Every leg sends, or begins to send, the request for its own URL with the headers that have come together by then, and has sent all of it when it was redirected or anything came back |
| Runs.AuthorizationExact | src/Request.cpp:80-88 | The fields of each request, seen from the user's own map: his fields unchanged except Host and, with a body, Content-Length; the current host; the length of the body; as Authorization his own, or else that of the first URL with user info so far; and no others |
| Runs.FirstUserExact | src/Request.cpp:86-88 | The user info meant is that of the first URL that has any, and empty exactly when none has |
| Runs.CredentialsTravel | src/Request.cpp:80-99 | So in every run each request that was redirected or answered begins with the request line of its own URL and has on the wire every field of the user's, its own Host line, the length of its body and, unless the user set an Authorization, the one made from the first URL with user info so far, later redirect targets included |
| Runs.ChainArrives | src/Request.cpp:364-428 | However many redirects came before: when the last connection received a header with its Content-Length bytes, the calls due end with Connected, that header, payloads that make up the body, and Disconnected; when it received a chunked body, under exactly the conditions on its cuts; a close by the peer ends them without an Error and any other break with what select or the transfer said; and they bring no data but those of the last response |
| Runs.PrintedArrives | src/Request.cpp:364-428 | In every run: a printed response with any storable header map and a Content-Length body, cut anywhere, arrives behind Connected as that map and that body, and Disconnected follows |
| Runs.PrintedChunksArrive | src/Request.cpp:326-428 | The same for a printed header and an encoded body, under exactly the conditions on the cuts |
| Runs.BeginsExact | src/include/public/Request.h:73-93 | The automaton rejects exactly the traces that nothing can complete |
| Trace.LanguageExact | src/include/public/Request.h:73-93 | The automaton accepts exactly the traces Connected* (HeaderDone Data*)? Error? Disconnected |
| Trace.ClosedOnce | src/Request.cpp:458-463 | In that language there is exactly one Disconnected, and it is last |
| Trace.ObservedAll | src/include/public/Request.h:73-93 | With all handlers set the user sees every callback point |
| Trace.ObservedExact | src/include/public/Request.h:73-93 | The user sees, in order, exactly the points whose handler is set |
| Trace.ObservedKinds | src/Request.cpp:438-463 | For every choice of handlers and each kind of call: all of its points when its handler is set, none otherwise, and nothing of the cancel |
| Receivers.PayloadSeen | src/Request.cpp:451-455 | The handler for data alone brings the user all the payloads |
| Trace.ProperIsSafe | src/Request.cpp:445-463 | At most one checked call is made after a cancel, and it directly follows it |
| Trace.UnguardedExact | src/Request.cpp:438-463 | Behind a cancel only Connected and Error are called without a check |
| Trace.AddsMore | src/Request.cpp:438-463 | Stretches of calls that a cancel cuts short add up to one that it cuts short |
| Receivers.WholeResponse | src/Request.cpp:364-428 | Header plus Content-Length bytes, cut anywhere into non-empty reads: one HeaderDone with the same header, payloads that make up the body, the close at the read that completes it and no earlier |
| Receivers.FeedIdentity | src/Request.cpp:392-426 | For every stream and every body that is not chunked: exactly the received bytes behind the header are delivered, and the close comes at the first read that reaches Content-Length |
| Receivers.SurplusExact | src/Request.cpp:417-420 | With bytes behind the body, exactly the body is delivered if and only if the closing read ends with it |
| Receivers.ResponseRoundTrip | src/Request.cpp:271-304 | A printed response with any storable header map in any order and its body, cut anywhere, arrives as that map and that body |
| Receivers.ChunkedRoundTrip | src/Request.cpp:326-428 | A printed response with any storable header map that says Transfer-Encoding chunked, and an encoded body, cut anywhere: that map arrives, and the body under exactly the conditions on the cuts |
| Receivers.FieldsDecide | src/Request.cpp:403-411 | The coding is chunked if and only if the Transfer-Encoding field says so, and the length is that of the Content-Length field or INT64_MAX |
| Receivers.NoLengthStaysOpen | src/Request.cpp:369-421 | Without a Content-Length and a chunked coding every read is delivered and the response stays open |
| Receivers.RedirectSeen | src/Request.cpp:399-402 | 301 and 302, when allowed, redirect to Location with nothing called before; nothing else redirects |
| Receivers.FeedChunked | src/Request.cpp:411-415 | A chunked body reaches the chunk decoder read by read, nothing buffered in between |
| Receivers.ChunkedResponse | src/Request.cpp:392-426 | A chunked response, however much of it has arrived and however it was cut, is closed if and only if the last-chunk line is complete and every cut behind the header is allowed, and delivered whole if and only if, besides, every chunk entered skewed consists of line breaks only; it kills the process, or is reported as a chunk error, if and only if the first cut that is not allowed falls as stated |
| Receivers.CrashExact | src/Request.cpp:364-428 | The process dies of a response if and only if its header cannot be parsed, or it is not redirected and has a Content-Length without a readable number, or is chunked and a size line has none |
| Receivers.DecoderThrowsExact | src/Request.cpp:338 | The chunk decoder throws if and only if some read leaves it at a complete size line without a readable number |
| Receivers.FeedShape | src/Request.cpp:392-421 | Whatever arrives, the calls are none or one HeaderDone followed by Data only |
| Chunked.DecodesExactly | src/Request.cpp:326-362 | Over all framed chunk lists and all cuttings: the decoder completes if and only if the grammar's machine of places does, and the data arrive whole if and only if, besides, every chunk it marks as entered skewed consists of line breaks only |
| Chunked.ThrowsExact | src/Request.cpp:338 | Decoding throws if and only if what it leaves begins with a complete size line without a readable number |
| Cuts.FinishedExact | src/Request.cpp:326-362 | That machine finishes if and only if everything up to the end of the last-chunk line has arrived and every cut offset in it is allowed; the chunks it marks are those whose size line ends in one read with a line break behind it; and the first cut that is not allowed says how it fails |
| Cuts.DecodesInBytes | src/Request.cpp:326-362 | Over all framed chunk lists, all cuttings and any part of the stream: the decoder completes if and only if the last-chunk line is complete and no cut offset falls inside a size line and its break, nor between a chunk's data and the end of their break unless the chunk is entered skewed; the data arrive whole if and only if, besides, chunks entered skewed consist of line breaks only; it throws if and only if the first other cut is right behind a chunk's data with two bytes or more in the next read; and it reports an error if and only if that cut is elsewhere, or only the CR follows |
| Cuts.CutBehindDataKills | src/Request.cpp:331-338 | A read that ends right behind the data of a first chunk that does not begin with a line break is such a cut |
| Cuts.SkewedMayBeCut | src/Request.cpp:351-353 | An example of a cut between data and their line break that does no harm |
| Cuts.CompletesWhereTheLastChunkIs | src/Request.cpp:338-342 | If the decoder completes at all, it does so in exactly the read that brings the last byte of the last-chunk line |
| Chunked.NothingSkewed | src/Request.cpp:351-353 | Chunks that do not begin with a line break are never entered skewed |
| Chunked.WholeStreamExact | src/Request.cpp:326-354 | An uncut stream always completes, and its data are unchanged if and only if chunks that begin with a line break consist of line breaks only |
| Chunked.RunAgrees | src/Request.cpp:326-362 | After any number of reads decoder and grammar agree: carry, data delivered, what is left of the chunk, what is still to come |
| Chunked.Conserves | src/Request.cpp:326-362 | For every buffer and carry: size lines, payloads and skipped line breaks are the buffer cut up in order; without error or completion all of it is consumed; the segments obey the framing grammar |
| Chunked.Accounting | src/Request.cpp:344-348 | Bytes delivered plus bytes still owed are the bytes carried in plus the bytes declared |
| Chunked.StandardChunk | src/Request.cpp:338 | From the digit tables: hexadecimal sizes in either case or both, with or without an extension, are read as the chunk's length |
| Chunked.OneChunk | src/Request.cpp:326-354 | A body of one chunk, written out byte for byte, is decoded |
| ResponseHeaders.ParseResponseHeader | src/Request.cpp:271-304 | The loop over the lines computes the header that the lemmas below are about, including when it waits and when it throws |
| ResponseHeaders.HeaderMapRoundTrip | src/Request.cpp:280-303 | Any map of storable fields printed in any order behind a status line free of ':' is parsed back over the Version entry, the fields overriding |
| ResponseHeaders.FieldExact | src/Request.cpp:291-302 | A field comes back from its printed line if and only if it is storable |
| ResponseHeaders.FieldLost | src/Request.cpp:291-302 | A name or a value that begins with a space is stored empty, and a field with a second ": " is dropped |
| ResponseHeaders.StatusRead | src/Request.cpp:283-290 | Version, status code and reason phrase of a well-formed status line are found |
| ResponseHeaders.StatusExact | src/Request.cpp:283-290 | What is taken from a line with "HTTP/", place by place, the code within 16 bits |
| ResponseHeaders.BlockFound | src/Request.cpp:275-281 | A block of non-empty lines is framed exactly by the first blank line and split into its lines |
| ResponseHeaders.ParseIgnoresTail | src/Request.cpp:275-279 | Bytes behind the header do not change what is parsed |
| ResponseHeaders.ParseWaits | src/Request.cpp:275-278 | Before the blank line has arrived completely nothing is parsed |
| ResponseHeaders.ThrowsExact | src/Request.cpp:281-289 | Parsing throws if and only if the block holds nothing but line breaks, or its first line has "HTTP/" and ends before the place of the reason phrase, or has no number at the place of the code |
| ResponseHeaders.CodeAtTheEndThrows | src/Request.cpp:289 | A status line without a space behind the code throws |
| RequestEncoder.HtmlEncode | src/Request.cpp:79-100 | Content-Length, Host and Authorization are added and every header is printed exactly once, in some order |
| RequestEncoder.PreparedExact | src/Request.cpp:80-88 | The fields printed are the user's and Host, Content-Length and Authorization as due, no others, and the user's values are kept |
| RequestEncoder.RequestLineExact | src/Request.cpp:89-90 | Method token, path, query and version of the request line |
| RequestEncoder.EncodeReframes | src/Request.cpp:79-100 | Reading up to the first blank line and Content-Length bytes behind it recovers the request line, every header field as name and value, and the body, provided that no other field reads like a Content-Length; the credentials are "Basic " and decode to the user info byte for byte |
| RequestEncoder.ReframePrinted | src/Request.cpp:88-99 | The same for any such fields, whatever their names |
| RequestEncoder.ColonFreeIsPrintable | src/Request.cpp:91-93 | Names free of ':' are enough |
| Urls.ParseExact | src/Url.cpp:27-81 | A text is accepted with given fields if and only if it is one of the printed layouts of those fields, brackets, user info and default ports included |
| Urls.ParseUndoesPrint | src/Url.cpp:43-80 | Parsing undoes printing |
| Urls.PrintUndoesParse | src/Url.cpp:27-81 | Parsing partitions its input |
| Urls.AcceptsExactly | src/Url.cpp:18-41 | A text is accepted if and only if letters, digits or '-' stand before its first "://" |
| Urls.FullUrl | src/Url.cpp:43-80 | A URL with everything written out is read piece by piece |
| Urls.BareHost | src/Url.cpp:43-80 | With nothing but a host the path is "/" and the port 443 for https and 80 otherwise |
| Urls.SchemeExact | src/Url.cpp:31-41 | The scheme is what stands before the first "://" |
| Urls.PortlessExact | src/Url.cpp:70-78 | Exactly which hosts are read without a port |
| Urls.BracketedHost | src/Url.cpp:71 | A bracketed IPv6 address may stand with a port and without |
| Urls.Url.ParseInto | src/Url.cpp:27-81 | The step-by-step parser sets the fields so described, and no http scheme when it refuses |
| Urls.Url.constructor | src/include/Url.h:20-34 | A new URL has the parsed fields |
| Base64.Base64Encode | src/Request.cpp:62-77 | The accumulator loop yields the groups of section 4 of RFC 4648 for every byte string |
| Base64.Shifted | src/Request.cpp:65-68 | Overflow never shows: of the accumulator only the low four bits survive into the low twelve |
| Base64.Observed | src/Request.cpp:67-72 | The symbols taken and the bits kept depend on the new byte and four kept bits only |
| Base64.Finish | src/Request.cpp:74-75 | The flushed symbol and the padding complete the last group |
| Base64.AlphabetIsTable1 | src/Request.cpp:60 | The alphabet is Table 1 of RFC 4648 |
| Base64.SymbolExact | src/Request.cpp:60 | The symbols are those of Table 1 of RFC 4648 |
| Base64.RoundTrip | src/Request.cpp:60-77 | Decoding and encoding are inverse to each other, so encoding is injective |
| Base64.GroupsExact | src/Request.cpp:62-77 | Where the four symbols of every group come from |
| Base64.Shape | src/Request.cpp:74-76 | Four symbols per three bytes begun; '=' exactly at the last 0, 1 or 2 places |
| DataBuffer.Data.Append | src/include/public/Data.hpp:189-207 | The view grows by the other view, also when the object is appended to itself across reallocation; length, capacity and bytes moved follow the meter |
| DataBuffer.Data.Reserve | src/include/public/Data.hpp:194-204 | Growing keeps the contents and makes room |
| DataBuffer.Data.Fill | src/include/public/Data.hpp:205-206 | The copy stays in bounds and concatenates |
| DataBuffer.Data.Copy | src/include/public/Data.hpp:126-141 | A new buffer with the slice, empty past the end |
| DataBuffer.Data.Resize | src/include/public/Data.hpp:161-176 | The view is cut to the new capacity |
| DataBuffer.Data.ResetData | src/include/public/Data.hpp:153-158 | Zeroed storage, empty view |
| DataBuffer.Data.DetachData | src/include/public/Data.hpp:178-187 | The storage moves to a new object |
| DataBuffer.Data.Destroy | src/include/public/Data.hpp:143-150 | An empty null buffer |
| DataBuffer.Data.MoveFrom | src/include/public/Data.hpp:93-103 | The storage moves; the source is left with a null buffer and its stale length and capacity |
| DataBuffer.Data.EmptyMeansNoBytes | src/include/public/Data.hpp:225-227 | `empty()` says exactly that the view has no bytes, stale lengths included |
| Growth.GrownIsEnough | src/include/public/Data.hpp:197-199 | Rounded to nearest in 24-bit floats, the new capacity holds the data for every length and stays below twice it |
| Growth.RoundsToEven | src/include/public/Data.hpp:197 | Rounding is to a nearest multiple, ties to the even one |
| Growth.GrownExact | src/include/public/Data.hpp:197 | Below 2^24 / 3 the growth is the floor of 3E/2 |
| Growth.GrownRounds | src/include/public/Data.hpp:197 | Beyond it is not: a length that grows to one more |
| Growth.AppendsAreLinear | src/include/public/Data.hpp:189-207 | Any run of appends moves at most four times the final length, three times below 2^24 / 3 |
| StringUtil.Split | src/Utility.cpp:23-42 | The search loop returns the tokens and terminates |
| StringUtil.JoinPieces | src/Utility.cpp:28-39 | Nothing but whole delimiters is dropped, and every field is free of the delimiter |
| StringUtil.TokensExact | src/Utility.cpp:23-42 | For delimiters that cannot overlap themselves the tokens are the non-empty fields of the only delimiter-free decomposition |
| StringUtil.SplitUndoesJoin | src/Utility.cpp:23-42 | Splitting undoes joining |
| Numbers.ReadsNumeral | src/Request.cpp:338 | A numeral is read up to the first byte that cannot belong to it |
| Numbers.ReadersExact | src/Request.cpp:338 | From the digit tables: white space, sign, prefix and digits in either case give their positional value, or an exception beyond 32 or 64 bits, whatever follows |
| Numbers.NothingToRead | src/Request.cpp:338 | Without a digit behind white space and sign there is an exception |
| Numbers.NumeralSpells | src/Request.cpp:82 | Printed numbers are their digits without leading zeros |
| Numbers.NumeralRoundTrip | src/Request.cpp:82 | Printed lengths and chunk sizes are read back |
| Transport.World.PlainSend | src/PlainSocket.cpp:33-54 | The first call that is not interrupted decides, or the 1000th: it gives the bytes accepted, a prefix of what was offered; the result is a success, a close, a failure or too many retries if and only if that call took bytes, took none, failed, or was interrupted |
| Transport.World.PlainReceive | src/PlainSocket.cpp:56-87 | The same for reading: exactly the bytes of the deciding call, at most 4096; it is a close if and only if the call did not fail and got nothing, and a retry, too many retries or a failure by its error number |
| Transport.World.SslWrite | src/SSLManager.cpp:93-131 | The first call that succeeds decides, or the 1000th, or the first of all when it did not want a retry: once a call wanted one every later failure is retried; each result if and only if that call says so; a close keeps the error number of the failure before it |
| Transport.World.SslRead | src/SSLManager.cpp:133-172 | The same for reading, with exactly the bytes of the deciding answer |

## Left out

- `::send`, `::recv`, `SSL_read`, `SSL_write`, `getaddrinfo`, `::connect`, `::select`: answers of the environment, with their range limits only; src/Socket.cpp and src/TSLSocket.cpp mostly translate platform codes.
- Receive buffer: `receive` accumulates in a local string instead of a `Data` object; the view of `Data` refines that string.
- Requests.Request.Process: the trace language is stated for runs that do not die of an uncaught exception; a dead process makes no further calls.
- DataBuffer.Data.Append: demands that the grown capacity, when it has to grow, stays below 2^63, where the cast of the float product to a 64-bit integer is defined; wrap-around of lengths beyond that is not modelled.
- DataBuffer.Data.Resize: demands a buffer without a stale length, because the code copies from the null pointer otherwise.
- StringUtil.Split: demands a non-empty delimiter, because the loop does not terminate otherwise.
- `std::atomic<bool>`: modelled as sequentially consistent; a cancel takes effect between two steps of the worker.
- Lengths, received counts and file sizes are unbounded integers; the eight-bit redirect counter, the 32-bit base64 accumulator, the 16-bit status code, the 64-bit clock and the ranges of the number reader are modelled.
- Copy construction, the sized and callback constructors, `operator+`, `operator==` and `isFull` of `Data`: easy members.
- `randomString`, `toLower`, `toUpper`, request ids, sleeps, thread creation and joining, IP version hints, Windows branches, the build without HTTPS, and `parseFieldValue` for types other than 64-bit integers and strings.
- Liveness: nothing is said about how long the environment takes to answer.
