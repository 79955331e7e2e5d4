# A model of frnetlib's codecs

frnetlib is a C++ networking library. This project models the parts of it that turn bytes into values and back, and
proves what they promise for every input and every run.

- **SHA-1** (`Fips180.dfy`, `Sha1.dfy`): the streaming hasher with its circular message schedule, its unrolled rounds
  and its one- or two-block finaliser refines the hash of FIPS 180-4.
- **HTTP** (`Http.dfy`, `Fragments.dfy`, `Chunked.dfy`, `HttpResponse.dfy`, `Arguments.dfy`, `RequestLine.dfy`,
  `HttpRequest.dfy`, `HttpSocket.dfy`, on the string operations of `Text.dfy`): the resumable parsers give the same
  result for every way a message is cut up, chunked decoding inverts chunked encoding, and parsing inverts printing.
- **Messages over a socket** (`Sockets.dfy`, `NetworkEncoding.dfy`, `WebFrame.dfy`, `Packet.dfy`): frames, packets and
  typed values come through a connection that reads and writes in pieces, blocks, is interrupted or fails.
- **Parsers and printers** (`Base64.dfy`, `UrlEscape.dfy`, `Url.dfy`): each with the exact condition under which the
  one undoes the other.
- **The WebSocket handshake** (`WebSocket.dfy`): composed from the HTTP round trips, SHA-1 and Base64.

## How it is modelled

Objects that the library updates in place are classes, with a function that gives their value (`View`) and methods
that are proved to change it as a specification function says. The theorems are lemmas about these functions. Where
one body of the library is long, it is several methods here, one behind the other: `transform` is four methods of
twenty rounds, the chunk loop of the response parser has its pass as a method, `receive` of a frame is split at its
reads.

The kernel is two finite schedules, one entry for each call of `::recv` and `::send`: so many bytes, would block,
interrupted, closed, failed. A schedule that has run out stands for a connection that is gone. Statements about
sockets hold for every schedule and every stream of bytes.

A byte is an integer below 256, a character of HTTP or URL text a `char`; SHA-1 works on bit vectors. Bit fields that
do not overlap are added where the code combines them with or. Positions in strings are integers with -1 for `npos`;
a negative count stands for one that has wrapped around, which takes all of the rest. The iteration order of the
unordered maps is a parameter of the printers, and what is proved holds for every order.

## Where code and documentation part, and what was found

The model follows the code. Six of its limits are stated as exact conditions in the table: the 16-bit form is not
used for a frame of 65535 bytes (`WebFrame.ShortestForm`), Base64 reads out of bounds for fewer than two bytes
(`Base64.ReadsInBounds`), lower-case escapes are mostly decoded wrongly (`UrlEscape.DecodesMeaning`), some URLs do
not come back (`Url.UrlRoundTrip`), chunk sizes from 2^32 on are cut (`Chunked.HexLineOk`), and the check before a
raw extraction can wrap around (`Packet.Packet.AssertBytesRemaining`). No body within the size limit holds a chunk
that large, but part of one can be taken for a whole one (`Chunked.PartialChunk`). In `URL` the scheme name "sftp"
is listed twice, so that it parses to FTP, FTP prints as "sftp" and SFTP does not print; this assumes, as common
standard libraries do, that the first of two equal keys in an initialiser list is kept. `HttpRequest::construct`
compares the iterator over the form with the end of another map; both ends are taken to be the same null pointer.

## Model

| member | source | states |
|---|---|---|
| `Sha1.BlkIsNextWord` | src/Sha1.cpp:55-58 | with the last sixteen schedule words in the circular buffer, the word `blk` computes in place is word t of the 80-word schedule |
| `Sha1.WindowMoves` | src/Sha1.cpp:72-111 | overwriting slot t mod 16 keeps the buffer equal to W[t-15..t] |
| `Sha1.ChooseForm` | src/Sha1.cpp:69-80 | the choose form of R0 and R1 is Ch of FIPS 180-4 |
| `Sha1.MajorityForm` | src/Sha1.cpp:94-101 | the majority form of R3 is Maj of FIPS 180-4 |
| `Sha1.RoundForm` | src/Sha1.cpp:65-111 | adding to one role and rotating another is one step of the registers a..e, once the roles are read in rotated order |
| `Sha1.R0` | src/Sha1.cpp:65-71 | the two roles it changes hold what step t of the standard gives; the buffer still holds the schedule |
| `Sha1.R1` | src/Sha1.cpp:74-81 | as R0, and the buffer has moved on by one word |
| `Sha1.R2` | src/Sha1.cpp:84-91 | as R1, for the parity function |
| `Sha1.R3` | src/Sha1.cpp:94-101 | as R1, for the majority function |
| `Sha1.R4` | src/Sha1.cpp:104-111 | as R1, for the last twenty rounds |
| `Sha1.Rounds0To19` | src/Sha1.cpp:127-147 | twenty unrolled calls are rounds 0 to 19, and the roles are back in place |
| `Sha1.Rounds20To39` | src/Sha1.cpp:148-167 | rounds 20 to 39 |
| `Sha1.Rounds40To59` | src/Sha1.cpp:168-187 | rounds 40 to 59 |
| `Sha1.Rounds60To79` | src/Sha1.cpp:188-207 | rounds 60 to 79 |
| `Sha1.Transform` | src/Sha1.cpp:118-218 | for every digest and block, the digest becomes the compression of section 6.1.2 of FIPS 180-4 |
| `Sha1.BufferToBlock` | src/Sha1.cpp:221-231 | the sixteen words are the big-endian words of the 64 bytes |
| `Sha1.HoldsBlock` | src/Sha1.cpp:247-263 | absorbing the bytes that fill a block keeps the invariant: the digest is the fold over the full blocks of everything absorbed, the buffer is the rest, shorter than a block |
| `Sha1.Context.constructor` | src/Sha1.cpp:34-46 | the initial value of section 5.3.1 of FIPS 180-4, nothing absorbed |
| `Sha1.Context.Update` | src/Sha1.cpp:240-263 | keeps the invariant and appends to what has been absorbed |
| `Sha1.SameBytes` | src/Sha1.cpp:240-263 | hashers that have absorbed the same bytes have the same digest, buffer and count, so that update(a), update(b) is update(a + b) |
| `Sha1.PadOneBlock` | src/Sha1.cpp:275-298 | a tail of at most 55 bytes is padded to one block whose compression ends the fold |
| `Sha1.PadTwoBlocks` | src/Sha1.cpp:286-298 | a longer tail takes two blocks, the second holding only the length |
| `Sha1.PadSplit` | src/Sha1.cpp:270-299 | the padding of section 5.1.1 of FIPS 180-4 is exactly these one or two blocks |
| `Sha1.TotalBits` | src/Sha1.cpp:273 | the 64-bit bit count is the true one below 2^64 bits |
| `Sha1.CompressLength` | src/Sha1.cpp:295-298 | the last two words are overwritten with the length and the block is compressed, although transform has overwritten it before |
| `Sha1.Context.Final` | src/Sha1.cpp:270-299 | the digest is the final state of FIPS 180-4 for everything absorbed |
| `Sha1.Sha1Digest` | include/frnetlib/Sha1.h:24-33 | for every input below 2^64 bits the 20 bytes returned are the SHA-1 of FIPS 180-4 |
| `Http.SplitString` | src/Http.cpp:29-55 | the non-empty pieces between the tokens, stripped of every space if asked |
| `Http.FieldsAre` | src/Http.cpp:29-55 | what splitting gives are exactly the texts between two tokens, or between one and an end, without their spaces if asked, that are not empty |
| `Http.StripParts` | src/Http.cpp:38-44 | stripping takes out every space and nothing else |
| `Http.Http.ParseHeaderLine` | src/Http.cpp:234-269 | the first value of a lower-cased name is kept; transfer encodings are collected; a line without colon or value is ignored |
| `Http.HeaderLineParts` | src/Http.cpp:234-256 | name, colon, any number of spaces, value: the name in lower case, and the printable characters from the first that is no space on |
| `Http.NoHeaderLine` | src/Http.cpp:237-244 | a line without a colon, or with only spaces behind it, is ignored |
| `Http.EncodingNames` | include/frnetlib/Http.h:290-303 | each encoding is what its name, in any case, stands for, and nothing else is |
| `Http.ChunkedIn` | src/Http.cpp:257-266 | a header says chunked if and only if a line named transfer-encoding, in any case, lists the word between commas, in any case |
| `Http.CountPrintable` | src/Http.cpp:245-252 | the loop measures the longest printable run at the start of the value |
| `Http.Http.Header` | src/Http.cpp:86-90 | reading a missing header inserts an empty one |
| `Http.Http.SetHeader` | src/Http.cpp:86-90 | assigning through the reference stores under the lower-cased name |
| `Http.HeaderEndStable` | src/HttpResponse.cpp:21-29 | an end of the header that has been seen stays where it is when more arrives, if and only if it is a CRLF one or no CRLF one follows |
| `Http.LfHeaderEnd` | src/HttpResponse.cpp:23-28 | if there is no CRLF end anywhere, an empty LF line ends the header |
| `Http.HeaderEndOfPrinted` | src/HttpResponse.cpp:98-117 | in printed text the end of the header is found where it was printed, whatever body follows, even one with empty lines in it |
| `Http.FieldsOfHeaderText` | src/Http.cpp:29-55 | splitting a printed header gives its lines back, all but the last with their carriage return |
| `Http.HeaderLineOfPair` | src/Http.cpp:234-269 | a printed name and value come back from their line |
| `Http.AddHeadersOfPairs` | src/Http.cpp:234-269 | reading printed lines stores the pairs and collects the encodings they list |
| `Http.FirstStays` | src/Http.cpp:267 | of several values of a name, in whatever case, the first stays |
| `Http.EmplaceOrder` | src/HttpResponse.cpp:99-103 | in whatever order the map was iterated over, storing its pairs gives the map back |
| `Chunked.EraseInBounds` | src/HttpResponse.cpp:66-72 | once the length check has passed, the first erase is in bounds if and only if the 32-bit chunk_len + 4 has not wrapped |
| `Chunked.DrainShrinks` | src/HttpResponse.cpp:54-80 | decoding never makes the buffer longer |
| `Chunked.StepAppend` | src/HttpResponse.cpp:58-74 | a chunk that is taken off is taken off as well when more data follows |
| `Chunked.DrainAppend` | src/HttpResponse.cpp:54-80 | decoding what has arrived, appending and decoding again is decoding everything at once, for every byte string |
| `Chunked.StepChunk` | src/HttpResponse.cpp:60-73 | a chunk of section 7.1 of RFC 9112 is taken off, with its size line, its CRLF and exactly its data, if and only if it has less than 2^32 bytes |
| `Chunked.DrainStream` | src/HttpResponse.cpp:54-80 | chunked decoding inverts chunked encoding (section 7.1 of RFC 9112: sizes in hexadecimal digits of either case, with leading zeros and extensions) for chunks below 2^32 bytes, and stops right behind the stream |
| `Chunked.DrainStreamPrefix` | src/HttpResponse.cpp:61-68 | every strict prefix of an encoded stream asks for more, as long as each size and four fit 32 bits |
| `Chunked.DrainAccepts` | src/HttpResponse.cpp:54-80 | whatever is decoded with Success is a run of pieces, each of which `stoul` and 32 bits make a chunk, with the decoded data as its data; it is a stream of the RFC if and only if every size line is one of the RFC and states less than 2^32 bytes, and CRLF ends all data |
| `Chunked.HexLineOk` | src/HttpResponse.cpp:63-64 | a size line of the RFC is read modulo 2^32, and from 2^64 on not at all: it is read as the size it states if and only if that is below 2^32 |
| `Chunked.SizeCut` | src/HttpResponse.cpp:64 | the input that shows it: "100000005" states 4294967301 bytes and is read as 5 |
| `Chunked.ReadConforms` | src/HttpResponse.cpp:60-74 | which of the pieces that the loop takes for chunks are chunks of the RFC |
| `Chunked.PartialChunk` | src/HttpResponse.cpp:61-68 | every strict prefix of a chunk is waited for if and only if its size and four fit 32 bits |
| `Chunked.DrainThrows` | src/HttpResponse.cpp:60-74 | an exception leaves the loop if and only if behind whole chunks comes a CRLF-ended line that is no number, or whose chunk_len + 4 has wrapped while the bytes for the wrapped sum are there |
| `HttpResponse.MergeBody` | src/HttpResponse.cpp:49-88 | the part of parse behind the header may be run in two goes |
| `HttpResponse.Merge` | src/HttpResponse.cpp:10-89 | a call that asks for more, followed by a call with b, is one call with a + b, in state and status, as long as the end of the header does not move |
| `HttpResponse.SplitShows` | src/HttpResponse.cpp:21-29 | where two calls and one both ask for more and the body is not chunked, they leave the same state if and only if the end of the header does not move |
| `HttpResponse.ParseThrows` | src/HttpResponse.cpp:10-89 | an exception leaves parse if and only if a chunked body within the size limit comes to such a line; none leaves the header |
| `Fragments.FeedFrom` | src/HttpResponse.cpp:10-89 | feeding any fragments of a stream ends as one call on the stream does, if its strict prefixes ask for more and two calls on it are one |
| `Fragments.FeedPart` | src/HttpResponse.cpp:10-89 | and as long as its end is missing more is asked for |
| `HttpResponse.StreamJoins` | src/HttpResponse.cpp:10-89 | two calls are one anywhere in a stream whose header has one end |
| `HttpResponse.FragmentsOfMessage` | src/HttpResponse.cpp:10-89 | header and body in any fragments: the result of one call; NotEnoughData on every strict prefix |
| `HttpResponse.ChunkedMessage` | src/HttpResponse.cpp:53-80 | a CRLF header and a chunked body, cut anywhere: Success with the last byte, the data of the chunks as the body, NotEnoughData before |
| `HttpResponse.SizedMessage` | src/HttpResponse.cpp:82-87 | the same for a body as long as its Content-Length says |
| `HttpResponse.UnsizedMessage` | src/HttpResponse.cpp:82-87 | without a Content-Length everything behind the header is the body |
| `HttpResponse.LongerMessage` | src/HttpResponse.cpp:83-84 | with one, what is behind that many bytes is cut off |
| `HttpResponse.BigMessage` | src/HttpResponse.cpp:49-51 | a body above the limit is refused and kept |
| `HttpResponse.LfMessage` | src/HttpResponse.cpp:23-47 | a header whose lines end in LF alone is read like any other |
| `HttpResponse.NoEndYet` | src/HttpResponse.cpp:14-39 | before the end of the header: four bytes other than HTTP are an error, more than the limit is too big, everything else is waited for |
| `HttpResponse.LateEnd` | src/HttpResponse.cpp:32-35 | an end of the header behind the limit is too late |
| `HttpResponse.BadHead` | src/HttpResponse.cpp:42-43 | a header that is not accepted is a parse error, whatever follows it |
| `HttpResponse.NoBlankHead` | src/HttpResponse.cpp:130-136 | a first line without a blank is not accepted |
| `HttpResponse.NoCodeHead` | src/HttpResponse.cpp:134-136 | nor is one without a number behind the blank |
| `HttpResponse.BadLength` | src/HttpResponse.cpp:149-156 | nor a Content-Length that is no number |
| `HttpResponse.HeadedOfText` | src/HttpResponse.cpp:121-159 | status line, with or without a reason, and name-and-value lines as they come in are read as what they say |
| `HttpResponse.ChunkedText` | src/HttpResponse.cpp:10-89 | a response whose headers list chunked, in any case and among whatever others: its chunk stream, cut anywhere, is decoded |
| `HttpResponse.PlainText` | src/HttpResponse.cpp:10-89 | a response whose headers say neither chunked nor a length: all that follows is its body |
| `HttpResponse.PartialMessage` | src/HttpResponse.cpp:10-89 | as long as something of the message is missing, feeding its fragments asks for more |
| `HttpResponse.HeadedOfConstructed` | src/HttpResponse.cpp:121-159 | the printed header gives back status, version and headers with the defaults that were added |
| `HttpResponse.ConstructedParses` | src/HttpResponse.cpp:91-119 | parsing inverts printing for every order of the headers, every body and every fragmentation |
| `HttpResponse.PrintedArrives` | src/HttpResponse.cpp:91-119 | an answer other than NotEnoughData while a printed response comes in means that all of it is there and that it has been recovered |
| `HttpResponse.HttpResponse.ParseHeader` | src/HttpResponse.cpp:121-159 | status, version, headers and content length as the specification reads them; false where the code fails |
| `HttpResponse.TwoErases` | src/HttpResponse.cpp:70-72 | the two erases turn size line, data and CRLF into the data |
| `HttpResponse.HttpResponse.OnePass` | src/HttpResponse.cpp:58-74 | one pass of the chunk loop: body[..chunk_offset] stays decoded data, the rest stays raw |
| `HttpResponse.HttpResponse.ParseChunks` | src/HttpResponse.cpp:53-80 | the loop terminates and leaves what decoding the raw suffix leaves, in the same buffer |
| `HttpResponse.HttpResponse.FinishParse` | src/HttpResponse.cpp:49-88 | size limit, chunked body, cutting off behind the content length |
| `HttpResponse.HttpResponse.Parse` | src/HttpResponse.cpp:10-89 | the object changes as the specification of one call says, in every branch |
| `HttpResponse.HttpResponse.Construct` | src/HttpResponse.cpp:91-119 | the text printed for some order of the header map |
| `HttpResponse.BareResponse` | src/HttpResponse.cpp:91-119 | the text of a response without headers of its own, letter by letter |
| `Arguments.ParseArgumentList` | src/Http.cpp:194-232 | the pairs of the list, with the value of the last one cut before its line end and the wrapped counts of out-of-order separators; it ends because the read index grows |
| `Arguments.TrimmedSize` | src/Http.cpp:214-216 | the inner loop is stopped by the equals sign at the latest |
| `Arguments.ArgsOfJoin` | src/HttpRequest.cpp:132-139 | parsing a joined list gives its pairs back, whatever line ends follow |
| `Arguments.WordsWithout` | src/Http.cpp:200-228 | text without an equals sign holds no argument, and a word without one runs into the key behind it, which is read a second time |
| `RequestLine.StringToRequestType` | include/frnetlib/Http.h:332-351 | the type whose name the text begins with; else Partial exactly if some longer name comes after the text in the dictionary |
| `RequestLine.TypeNames` | include/frnetlib/Http.h:312-351 | a text is of a type if and only if it begins with GET, POST, PUT, DELETE or PATCH |
| `RequestLine.OneLetter` | include/frnetlib/Http.h:344-347 | one letter is Partial if it does not come after P, whether or not a type begins with it, and otherwise Unknown |
| `RequestLine.PrefixesOfKnown` | include/frnetlib/Http.h:332-351 | no prefix of a text that begins with a known method is Unknown: Partial until the name is complete, then the type |
| `RequestLine.TypeStays` | include/frnetlib/Http.h:332-351 | a recognised type stays when more arrives, and six bytes decide |
| `RequestLine.LineRoundTrip` | src/HttpRequest.cpp:110-123 | the printed request line gives back type, URI, arguments and version |
| `RequestLine.LineRead` | src/HttpRequest.cpp:189-230 | a request line as it is received; any version but HTTP/1.0 counts as 1.1 |
| `RequestLine.NoUri` | src/HttpRequest.cpp:202-207 | a line has no URI if and only if it has no slash or no HTTP |
| `HttpRequest.Merge` | src/HttpRequest.cpp:17-71 | a call that asks for more, followed by a call with b, is one call with a + b, in state and status |
| `HttpRequest.StreamJoins` | src/HttpRequest.cpp:17-71 | two calls are one anywhere in a stream whose header has one end |
| `HttpRequest.NeverThrows` | src/HttpRequest.cpp:17-187 | no exception leaves parse |
| `HttpRequest.HeaderIsLong` | src/HttpRequest.cpp:24-50 | a header that leaves a body to wait for is long enough for its type to be decided |
| `HttpRequest.HeadPrefix` | src/HttpRequest.cpp:24-46 | while the header comes in, its parts are only stored; none is taken for an unknown type |
| `HttpRequest.FragmentsOfMessage` | src/HttpRequest.cpp:17-71 | header and part of the body in any fragments: the result of one call |
| `HttpRequest.SizedMessage` | src/HttpRequest.cpp:62-70 | a body as long as its Content-Length says, cut anywhere: Success with the last byte, NotEnoughData before |
| `HttpRequest.LongerMessage` | src/HttpRequest.cpp:61-70 | at least as much as the Content-Length says is complete, and all of it is the body; less is waited for |
| `HttpRequest.BigMessage` | src/HttpRequest.cpp:55-59 | a body above the limit is refused |
| `HttpRequest.LfMessage` | src/HttpRequest.cpp:28-52 | a header whose lines end in LF alone is read like any other |
| `HttpRequest.NoEndYet` | src/HttpRequest.cpp:24-46 | before the end of the header: what cannot become a known type is an error, more than the limit is too big, everything else is waited for |
| `HttpRequest.LateEnd` | src/HttpRequest.cpp:38-42 | an end of the header behind the limit is too late |
| `HttpRequest.BadHead` | src/HttpRequest.cpp:49-50 | a header that is not accepted is a parse error, whatever follows it |
| `HttpRequest.BadFirstLine` | src/HttpRequest.cpp:79-88 | a first line without a blank, a known type, a slash or HTTP is not accepted |
| `HttpRequest.BadLength` | src/HttpRequest.cpp:94-102 | nor a Content-Length that is no number |
| `HttpRequest.EmptyLineAlone` | src/HttpRequest.cpp:24-70 | an empty line alone is taken for a complete request of no type |
| `HttpRequest.HeadedOfText` | src/HttpRequest.cpp:73-105 | request line and name-and-value lines as they come in are read as what they say |
| `HttpRequest.FormMessage` | src/HttpRequest.cpp:165-187 | a POST request with a form behind its header: line ends before it, and nothing, a line end, or the last empty line and anything that follows it behind it; the form ends up in the fields |
| `HttpRequest.LastStays` | src/HttpRequest.cpp:183-186 | of several values of a key, in whatever case, the last stays |
| `HttpRequest.PartialMessage` | src/HttpRequest.cpp:17-71 | as long as something of the message is missing, feeding its fragments asks for more |
| `HttpRequest.FeedShort` | src/HttpRequest.cpp:38-50 | no header value that is ever stored is longer than the limit on headers |
| `HttpRequest.HeadedOfConstructed` | src/HttpRequest.cpp:73-105 | the printed header gives back type, URI, arguments, version and headers with those that were added |
| `HttpRequest.ConstructedParses` | src/HttpRequest.cpp:107-163 | parsing inverts printing for every order of the three maps and every fragmentation: type, URI, arguments, version and headers with the defaults come back, and form and body are the body; only a form without a body is left to the next theorem but one |
| `HttpRequest.PrintedArrives` | src/HttpRequest.cpp:107-163 | an answer other than NotEnoughData while a printed request comes in means that all of it is there and that it has been recovered |
| `HttpRequest.FormRead` | src/HttpRequest.cpp:165-187 | a form is read back, pair by pair, from behind leading line ends up to the last empty line or the end |
| `HttpRequest.FormParses` | src/HttpRequest.cpp:132-143 | a printed form with an empty body, parsed in one call: type, URI, arguments, headers and, for POST, the form come back |
| `HttpRequest.HttpRequest.ParseHeaderUri` | src/HttpRequest.cpp:200-230 | URI, arguments (first of a key wins) and version, or the exception |
| `HttpRequest.HttpRequest.ParseHeader` | src/HttpRequest.cpp:73-105 | a header without lines passes; an unknown type, a missing URI or a bad length does not |
| `HttpRequest.HttpRequest.ParsePostBody` | src/HttpRequest.cpp:165-187 | the arguments between the first text and the last empty line, the last of a key winning, with the wrapped count if there is no empty line |
| `HttpRequest.HttpRequest.Parse` | src/HttpRequest.cpp:17-71 | the object changes as the specification of one call says, in every branch |
| `HttpRequest.HttpRequest.PrintArguments` | src/HttpRequest.cpp:114-119 | the loops print the joined list, without a separator at the end |
| `HttpRequest.HttpRequest.Construct` | src/HttpRequest.cpp:107-163 | the text printed for some order of the three maps |
| `HttpRequest.BareRequest` | src/HttpRequest.cpp:107-163 | the text of a request without headers, arguments and form, letter by letter |
| `Sockets.TcpSocket.SendRaw` | src/TcpSocket.cpp:25-52 | what the kernel has taken is exactly data[..sent], over every schedule; if not everything, then Timeout to a socket that blocks and WouldBlock to one that does not where the kernel takes nothing, and SendError where sending fails |
| `Sockets.TcpSocket.SendBuffer` | src/Http.cpp:981-991 | the send loop ends with everything sent once and in order, or with an error after a strict prefix; it succeeds if the schedule has room and nothing fails |
| `Sockets.TcpSocket.ReceiveRaw` | src/TcpSocket.cpp:63-97 | behind interruptions the first event decides: as many of the next bytes as it delivers, Timeout or WouldBlock depending on whether the socket blocks, ReceiveError, or Disconnected; unless it is Success nothing is taken |
| `Sockets.TcpSocket.ReceiveAll` | src/Socket.cpp:40-59 | Success has filled the region with exactly the next bytes; what is refused at the first byte is passed on as it is; WouldBlock and Timeout have taken nothing; what ends it later is Disconnected |
| `Sockets.TcpSocket.ReceiveRest` | src/WebFrame.cpp:168-176 | how every later part of a message is read: WouldBlock is tried again, a failure is ReceiveError, and a timeout or a lost connection is Disconnected |
| `HttpSocket.ReceiveRequest` | src/Http.cpp:993-1018 | the request has been fed exactly the bytes taken off the stream; WouldBlock and Timeout only if none were; the parser is obeyed; a calm connection with bytes left is not given up |
| `HttpSocket.ReceiveResponse` | src/Http.cpp:993-1018 | the same for a response |
| `HttpSocket.SendRequest` | src/Http.cpp:981-991 | the peer gets the printed request once, or a strict prefix of it and an error |
| `HttpSocket.SendResponse` | src/Http.cpp:981-991 | the same for a response |
| `HttpSocket.RequestArrives` | src/Http.cpp:993-1018 | what is taken off a printed request in pieces is either waited for or, complete, the request |
| `HttpSocket.ResponseArrives` | src/Http.cpp:993-1018 | the same for a response |
| `NetworkEncoding.NetworkIsBigEndian` | include/frnetlib/NetworkEncoding.h:47-58 | on a little-endian host swapped memory is the big-endian encoding |
| `NetworkEncoding.NetworkInverse` | include/frnetlib/NetworkEncoding.h:47-58 | reading swapped memory and swapping again gives the integer back |
| `NetworkEncoding.NetworkOnto` | include/frnetlib/NetworkEncoding.h:47-58 | every piece of bytes is the encoding of what is read from it |
| `WebFrame.MaskTwice` | src/WebFrame.cpp:72-75 | masking is undone by masking with the same key |
| `WebFrame.MaskBits` | src/WebFrame.cpp:72-75 | section 5.3 of RFC 6455: every bit that is sent is the sum, modulo two, of the bits of payload and key |
| `WebFrame.FirstBytes` | src/WebFrame.cpp:27-42 | the first two bytes have the layout of section 5.2 of RFC 6455 |
| `WebFrame.FrameLayout` | src/WebFrame.cpp:19-76 | the whole frame of section 5.2, byte by byte, in all three length forms |
| `WebFrame.ShortestForm` | src/WebFrame.cpp:37-57 | the shortest length form is used if and only if the length is not 65535 |
| `WebFrame.DecodeEncoded` | src/WebFrame.cpp:19-188 | an encoded frame is read back by the opposite role, in all three length forms, and exactly its bytes are used |
| `WebFrame.RefusedFrame` | src/WebFrame.cpp:107-147 | a payload above the limit and a frame of the own role are refused |
| `WebFrame.PartialFrame` | src/WebFrame.cpp:88-188 | every strict prefix of a frame is incomplete |
| `WebFrame.DecodeAllEncoded` | src/WebFrame.cpp:19-188 | any concatenation of frames is read back in order |
| `WebFrame.WebFrame.MaskPayload` | src/WebFrame.cpp:72-75 | the loop masks the payload in place |
| `WebFrame.WebFrame.Send` | src/WebFrame.cpp:19-86 | the peer gets the encoding of the frame before the call, or a strict prefix and an error; a client leaves its payload masked and counts up the key |
| `WebFrame.WebFrame.ReadLength` | src/WebFrame.cpp:115-141 | the 7-bit, 16-bit or 64-bit length |
| `WebFrame.WebFrame.ReadBody` | src/WebFrame.cpp:149-186 | exactly the key, if there is one, and the payload are taken off the stream, and the payload is unmasked with that key |
| `WebFrame.WebFrame.ReadFrame` | src/WebFrame.cpp:107-187 | everything behind the first two bytes; neither WouldBlock nor Timeout |
| `WebFrame.WebFrame.Receive` | src/WebFrame.cpp:88-188 | over every schedule: Success has taken off exactly the frame at the front and stored it; WouldBlock and Timeout have taken nothing; wrong role and size limit as the frame says; a calm connection with the whole frame succeeds |
| `WebFrame.ReceiveFrames` | src/WebFrame.cpp:88-188 | frames that are received one after the other, trying again when it would block, come out in the order in which they were sent over every schedule; after a timeout those that are missing are still there; a calm schedule brings all |
| `Packet.Read` | include/frnetlib/Packet.h:128-565 | whatever the bytes, extraction gives a value of the type asked for or throws, and the cursor stays in the buffer |
| `Packet.WireFormat` | include/frnetlib/Packet.h:113-560 | what each type looks like in the buffer: big-endian integers, two's complement, a 32-bit length in front of text and items |
| `Packet.FlagRead` | include/frnetlib/Packet.h:232-262 | any byte but zero is read as true |
| `Packet.MapKeeps` | include/frnetlib/Packet.h:170-186 | extraction into a map keeps what is there and brings in every other key |
| `Packet.AtomCut` | include/frnetlib/Packet.h:243-565 | where the cursor stays when a number, or a text, is cut off |
| `Packet.ReadCut` | include/frnetlib/Packet.h:113-565 | from every strict prefix of a written value, of any nested type, extraction throws |
| `Packet.ReadWritten` | include/frnetlib/Packet.h:113-565 | whatever stands around it, a written value of any nested type is read back into any variable, maps keeping the entries they had, and the cursor stops right behind it |
| `Packet.MergedFresh` | include/frnetlib/Packet.h:170-186 | a default-constructed variable ends up with exactly the value |
| `Packet.RoundTrip` | include/frnetlib/Packet.h:113-565 | a value comes back equal, with the cursor behind it, if and only if every length in it fits into 32 bits |
| `Packet.ReadAllWritten` | include/frnetlib/Packet.h:50-66 | values of different types come back in order |
| `Packet.MessageArrives` | include/frnetlib/Packet.h:736-785 | a message arrives whatever follows it; the content is what was sent if and only if the buffer was not longer before |
| `Packet.MessageForm` | include/frnetlib/Packet.h:736-747 | a message is its length, big-endian in four bytes, and its content |
| `Packet.MessageRefused` | include/frnetlib/Packet.h:767-771 | a message above the limit is refused |
| `Packet.MessagePart` | include/frnetlib/Packet.h:759-785 | every strict prefix of a message is incomplete |
| `Packet.Delivered` | include/frnetlib/Packet.h:736-785 | values packed and sent come out of a new or cleared packet on the other side, in order |
| `Packet.Packet.constructor` | include/frnetlib/Packet.h:28-33 | room for the header, cursor behind it |
| `Packet.Packet.Clear` | include/frnetlib/Packet.h:630-636 | the same with zeros |
| `Packet.Packet.Put` | include/frnetlib/Packet.h:232-588 | the encoding of the value is appended |
| `Packet.Packet.PutList` | include/frnetlib/Packet.h:78-203 | vectors, maps and ranges: length, then the items |
| `Packet.Packet.PutRaw` | include/frnetlib/Packet.h:91-94 | raw bytes are appended |
| `Packet.Packet.AssertBytesRemaining` | include/frnetlib/Packet.h:695-701 | the check is right if and only if cursor + size does not wrap at 64 bits; if it does, the check passes |
| `Packet.Packet.ExtractRaw` | include/frnetlib/Packet.h:102-108 | the bytes at the cursor, or the exception with the cursor where it was; a copy from beyond the buffer exactly if cursor + size wraps |
| `Packet.Packet.Extract` | include/frnetlib/Packet.h:243-565 | value and cursor as the specification of reading says |
| `Packet.Packet.ExtractVector` | include/frnetlib/Packet.h:132-146 | resized, then filled item by item |
| `Packet.Packet.ExtractMap` | include/frnetlib/Packet.h:170-226 | each pair is emplaced, so entries that are there stay |
| `Packet.Packet.SetCursor` | include/frnetlib/Packet.h:644-648 | clamped to the end; a good cursor if and only if adding the header does not wrap |
| `Packet.Packet.GetCursor` | include/frnetlib/Packet.h:655-658 | never beyond the size, and the bytes remaining make up the difference |
| `Packet.Packet.SeekCursor` | include/frnetlib/Packet.h:667-675 | as far as it goes in either direction |
| `Packet.Packet.Send` | include/frnetlib/Packet.h:736-747 | the length is written into the header; the peer gets the message or a strict prefix and an error |
| `Packet.Packet.ReceiveContent` | include/frnetlib/Packet.h:774-784 | the buffer only grows; the content is read behind the header |
| `Packet.Packet.Receive` | include/frnetlib/Packet.h:759-785 | over every schedule: Success has taken off exactly the message at the front; WouldBlock and Timeout have taken nothing and changed nothing |
| `Base64.Encode` | src/Base64.cpp:9-44 | for every input of at least two bytes the output is section 4 of RFC 4648, across the loop and both remainders |
| `Base64.ReadsInBounds` | src/Base64.cpp:18-24 | every index of the loop is in bounds if and only if there are at least two bytes |
| `Base64.SextetsOfBytes` | src/Base64.cpp:20-23 | the shifts and masks are the four 6-bit digits of the 24-bit group |
| `Base64.DecodeEncoded` | src/Base64.cpp:9-44 | a decoder written from the RFC recovers every input |
| `Base64.EncodeDecoded` | src/Base64.cpp:9-44 | and accepts only encodings, so the two are inverses |
| `Base64.EncodedLength` | src/Base64.cpp:9-44 | four digits for every three bytes begun |
| `Base64.Injective` | src/Base64.cpp:9-44 | no two inputs have the same encoding |
| `UrlEscape.UrlEncode` | src/Http.cpp:137-164 | unreserved characters stay, a space becomes a plus sign, the rest becomes upper-case escapes |
| `UrlEscape.KeptCharacters` | src/Http.cpp:137-164 | a character is left as it is if and only if it is one of the unreserved ones of section 2.3 of RFC 2396 |
| `UrlEscape.EncodedCharacters` | src/Http.cpp:137-164 | encoded text holds only those, percent signs and plus signs |
| `UrlEscape.EncodedMeans` | src/Http.cpp:137-164 | encoded text, read as section 2.1 of RFC 3986 reads it, is what was encoded |
| `UrlEscape.UrlDecode` | src/Http.cpp:166-192 | the loop decodes as specified, and its look-ahead never goes beyond the terminating NUL |
| `UrlEscape.DecodeEncoded` | src/Http.cpp:137-192 | decoding inverts encoding for every byte string |
| `UrlEscape.EncodedWellEscaped` | src/Http.cpp:137-164 | in encoder output two digits follow every percent sign, so the decoder does not even look at the NUL |
| `UrlEscape.UnescapeHex` | src/Http.cpp:173-180 | what two hex digits of either case decode to: with a lower-case second digit bit 5 comes out set |
| `UrlEscape.AnyDigit` | src/Http.cpp:173-180 | what every other byte counts for as either digit, those beyond ASCII as negative |
| `UrlEscape.CutEscape` | src/Http.cpp:171-180 | an escape that ends after one digit takes in the terminating NUL |
| `UrlEscape.DecodesMeaning` | src/Http.cpp:166-192 | escaped text is decoded to what it stands for if and only if no escape has a lower-case second digit after a first one whose bit 1 is clear |
| `Url.SchemeNames` | src/URL.cpp:13-21 | names and schemes are one to one, save that SFTP has no name |
| `Url.SchemeTable` | src/URL.cpp:13-21 | what each name, in any case, stands for |
| `Url.BareHost` | src/URL.cpp:70-92 | the port that is guessed for each scheme; for any other the port stays |
| `Url.PrintedMarks` | include/frnetlib/URL.h:149-178 | printed URLs, letter by letter |
| `Url.URL.GetUri` | include/frnetlib/URL.h:149-158 | path, query and fragment with their marks |
| `Url.URL.GetUrl` | include/frnetlib/URL.h:165-178 | the whole URL, or the exception for SFTP |
| `Url.URL.Parse` | src/URL.cpp:29-129 | the fields become what the specification by components says, the path being appended |
| `Url.URL.ParseAuthority` | src/URL.cpp:44-92 | host and port, given or guessed |
| `Url.URL.ParsePath` | src/URL.cpp:94-127 | path, query and fragment; the search for the fragment from one character early changes nothing |
| `Url.URL.Equals` | include/frnetlib/URL.h:202-205 | equal in all six fields |
| `Url.UrlRoundTrip` | src/URL.cpp:29-129 | for well-formed components parsing the printed URL gives it back, an open port as the guessed one, if and only if: without a port there is no colon in path, query and fragment, without a path nothing follows, the path is not a bare slash unless something follows, and without a query the fragment has no question mark |
| `Url.RelativeRoundTrip` | src/URL.cpp:29-129 | the same without a scheme, with or without a host, where besides a host alone is taken for a path |
| `Url.PathAppended` | src/URL.cpp:99-110 | a second parse appends its path to the first |
| `WebSocket.DeriveKey` | include/frnetlib/WebSocket.h:78 | key and GUID hashed and encoded: the accept value of section 4.2.2 of RFC 6455 |
| `WebSocket.PrepareRequest` | include/frnetlib/WebSocket.h:43-58 | the upgrade request of the client |
| `WebSocket.RequestSays` | include/frnetlib/WebSocket.h:43-58 | GET, the path with a slash in front, and the headers of section 4.1 of RFC 6455 |
| `WebSocket.OfferProtocols` | include/frnetlib/WebSocket.h:49-53 | the protocols, joined in one header |
| `WebSocket.Connect` | include/frnetlib/WebSocket.h:43-85 | connected if and only if the request has gone out and a whole response has come in with status 101 and the accept value of the own key; otherwise what the socket or the parser says is passed on, and a calm connection is not given up |
| `WebSocket.PrepareResponse` | include/frnetlib/WebSocket.h:138-142 | the 101 response |
| `WebSocket.AnswerSays` | include/frnetlib/WebSocket.h:138-142 | 101, the upgrade, and the hash of the key and the GUID of section 4.2.2 of RFC 6455 |
| `WebSocket.AskedAndAnswered` | include/frnetlib/WebSocket.h:60-85 | what each end asks of the other, in terms of the stored headers |
| `WebSocket.AcceptClient` | include/frnetlib/WebSocket.h:128-143 | the client is answered, with the accept value of its key, if and only if a whole GET request with the upgrade header has come in; the whole answer goes out if the connection has room |
| `WebSocket.HandshakeCompletes` | include/frnetlib/WebSocket.h:43-143 | for every key, path, protocols and host that print, every header order and every fragmentation of both messages, the server accepts the request and finds the key, and the client finds the value it expects |
| `WebSocket.KeyPrintable` | include/frnetlib/WebSocket.h:44 | every key that Base64 encodes can be sent |

## Left out

- SSL sockets, contexts and listeners: thin wrappers around a library whose code is not part of the repository.
- Address lookup, connecting, listening, accepting and descriptor options: operating-system calls.
- SocketSelector and the example servers: epoll is foreign, the bookkeeping around it is easy.
- The mimetype table, status names, plain getters and setters: no hard content.
- Packetable types, string_view overloads, vector of bool references and Packet::set_buffer: they depend on unseen code or step around the cursor.
- Meaning of floating point: a float or double is packed as its 32-bit or 64-bit pattern.
- Clocks: the first mask key and the websocket key are taken as arbitrary inputs.
- HTTP trailers and bytes behind a complete message: the parsers define no clean result for them; what is proved is about streams that end with the message.
- The disconnect frame that WebSocket sends before it closes, and errno after a failed handshake.
- An exception that leaves a method loses the value that was being built: Packet extraction that throws states the position of the cursor, not the half-filled variable.
- Packet.Packet.ExtractRaw: does not say what a copy from beyond the buffer yields, because the language leaves that open; it says when that happens.
- Chars above 255, which do not occur in the library, where a char is a byte.
- Strings of 2^63 bytes and more: below that, a count that has wrapped is always more than is left.
- The virtual call of parse in Http::receive: the method is written once for requests and once for responses.
- Base64.Encode: input of fewer than two bytes, for which the code reads beyond its input.
- The table literal of Base64 is written as ranges of letters and digits.
