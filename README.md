# ShadowX file transfer, modelled in Dafny

ShadowX is one Go program (`main.go`) that pushes files over TLS. One role is
the server: `-p` sets the key and `-i` the address, and the server stores what
clients upload. The other role is the client: `-f` names a file or directory,
and the client sends it to the server.
Each upload uses its own connection and follows a fixed exchange. The client
writes its key and a line feed, and the server reads one chunk of at most
`bufferSize` = 4096 bytes and trims white space from it. If the result differs
from the server's key, the server answers `Authentication failed\n` and hangs up.
Otherwise it answers `Authentication successful\n`. The client goes on only if
that answer arrived without error and contains `Authentication successful`. It
then writes `upload <path>\n`. The server reads one chunk, trims it, splits it
at the first space and requires the verb `upload`. It then creates the path
(parent directories included) and copies every later read into the file until
end of stream. Both sides copy file bytes the same way: a read's bytes are
written before its error is looked at, a failed write stops the copy before the
byte counter moves, and io.EOF ends it.

The model describes the world of a session as data:
- the reads a connection or a file delivers: bytes plus Ok, io.EOF or another error;
- the outcome of each Write: whole, or an error after some bytes;
- whether directory and file creation succeed;
- what `os.Stat` and `filepath.Walk` report.

Inputs that run out mean the session is still blocked in a read. Each step of
the program is a function on that data (`Serve`, `Receive`, `Copy`, `Upload`,
`Dispatch`, `FilesToSend`). The following methods follow the code statement
by statement and are proved to give what the functions give:
`HandleConnection` (`Serve`), `ReceiveFile` (`Receive`), `CopyStream` (`Copy`,
the copy loop), `SendSingleFile` (`Upload`), and `SendFile` with its loop
`SendWalk` (one `Upload` per element of `FilesToSend`). The reads of
`handleConnection` and `sendSingleFile` fill a 4096-byte array, and so does
`CopyStream`, a `while` loop used by both `ReceiveFile` and `SendSingleFile`.
The walk in `sendFile` is a `while` loop over the visits (`SendWalk`), and the
list of files it sends is the function `FilesToSend`, with no method of its
own. The role selection of `main` is modelled only by the function
`Dispatch`: no method follows its statements. Lemmas state what the protocol
promises, and also where it does not protect what it carries:
- There is no framing, so a stream cut short is stored and reported exactly
  like a complete one (`Transfer.TruncationUndetected`).
- The request read can take file bytes along with the request line, and they
  end up in the file name (`Protocol.MetadataAbsorbsData`).
- The path in the request is used as given (`Server.ServeGuards`: the target
  is whatever `ParseMetadata` returns).
- The rule for a key is that the trimmed first chunk equals the server key. A
  key with surrounding white space therefore admits nobody, not even the
  program's own client started with the same `-p`
  (`Protocol.UntrimmedKeyRejectsAll`, `Launcher.SamePasswordBothEnds`).

Modules: `Wire` (bytes, reads, writes), `Text` (Go's `strings.TrimSpace`,
`SplitN` and `Contains` on bytes, with the full `unicode.IsSpace` set in
UTF-8), `Protocol` (the messages and the two decisions made on them),
`Transfer` (the copy loop and `receiveFile`), `Server` (`handleConnection`),
`Client` (`sendSingleFile`), `Launcher` (role selection and `sendFile`),
`EndToEnd` (both sides together).

## Model

| member | source | states |
|---|---|---|
| Text.TrimSpace | main.go:123 | the result has no white-space code point at either end, and the result equals the input exactly when the input has none at either end |
| Text.TrimLeftIsSuffix | main.go:123 | trimming the front keeps a suffix of the input: it only drops bytes from the front |
| Text.TrimLeftCutsSpaces | main.go:123 | what trimming the front drops is a run of white-space code points |
| Text.TrimRightIsPrefix | main.go:123 | trimming the back keeps a prefix of the input: it only drops bytes from the back |
| Text.TrimRightCutsSpaces | main.go:123 | what trimming the back drops is a run of white-space code points |
| Text.TrimSpaceIsSlice | main.go:123 | the trimmed text is one contiguous slice of the input, starting where trimming the front stops, with everything inside it kept |
| Text.TrimSpaceCutsSpaces | main.go:123 | the bytes before that slice are a run of white-space code points, and so are the bytes after it |
| Text.TrimSpaceIgnoresAsciiSpace | main.go:123 | the line feed the client appends (or any other ASCII space) makes no difference to the trimmed text |
| Text.TrimLeftAppendAscii | main.go:123 | trimming the front of a string with an ASCII byte appended gives the trimmed string with that byte appended, or the byte alone trimmed when the string was all white space |
| Text.IndexOf | main.go:139 | the index found holds the byte and no earlier index does; none is found exactly when the byte is absent |
| Text.SplitAtFirstSpace | main.go:139 | one part, the whole text, exactly when there is no space; otherwise two parts, the first free of spaces, that rejoin with one space into the text |
| Protocol.ParseMetadata | main.go:138-144 | a path is taken exactly when the trimmed chunk starts with "upload "; the path is the rest of the trimmed chunk, is non-empty and does not end in white space |
| Protocol.SplitRequest | main.go:139-140 | a trimmed chunk starting with "upload " splits into the verb and everything after the first space |
| Protocol.AuthLineAccepted | main.go:123-125 | the server accepts the client's key line exactly when the client's key, trimmed, equals the server's key |
| Protocol.SameKeyAccepted | main.go:123-125 | a client with the server's own key is accepted exactly when that key has no white space at either end |
| Protocol.UntrimmedKeyRejectsAll | main.go:123-125 | a server key with white space at either end is matched by no chunk at all |
| Protocol.MetadataRoundTrip | main.go:138-144 | the server reads back the path the client put in its request exactly when the path is non-empty and does not end in white space |
| Protocol.MetadataAbsorbsData | main.go:133-144 | when file bytes arrive in the same read as the request, and those bytes do not end in white space, the server takes the path, the line feed and those bytes together as the path (white space at their end would be trimmed off) |
| Protocol.RepliesRecognised | main.go:243-247 | both replies fit one read; the client accepts the success reply read without error, and rejects the failure reply and a success reply that came with io.EOF |
| Protocol.ClientAcceptsMarker | main.go:243-247 | a reply holding the success text anywhere is accepted exactly when it was read without error; a reply shorter than the text is refused |
| Transfer.CopyAccounts | main.go:164-184 | the copy reads until io.EOF, an error or a failed write; every read before the last is error-free; the k-th write carries exactly the bytes of the k-th read that brought bytes, so the bytes written are the bytes read, a read's bytes are kept even when it brings io.EOF or an error, the counter counts them, a failed write leaves the counter at the earlier reads and the destination with exactly those and a part of the failed chunk; every write is at most 4096 bytes |
| Transfer.CopyMeetsSink | main.go:169-173 | the copy makes one write per read that brought bytes; a copy that stopped on a write error stopped at the first write the destination refused, and that write delivered exactly the bytes the destination took; any other copy met no refused write |
| Transfer.CopyOfChunks | main.go:166-184 | with every write succeeding, chunks followed by io.EOF are written in order (empty reads write nothing) and counted |
| Transfer.NoFaultNoWriteError | main.go:169-173 | a copy whose writes all succeed never stops with a write error |
| Transfer.TruncationUndetected | main.go:166-185 | a stream closed after any number of its chunks ends the copy at io.EOF with those bytes counted, like a complete one |
| Transfer.ReceiveAccounts | main.go:151-186 | a file exists exactly when directory and file creation succeed; without one nothing is read; with one the file holds exactly the bytes read, the counter counts them and no write to the file failed, except after a failed write: then the copy stopped at the first write the file refused, and the file holds the earlier chunks and the part of the refused chunk the file took |
| Transfer.ReceiveChunks | main.go:151-186 | on a disk where nothing fails, chunks followed by io.EOF end up in the file whole and are counted |
| Transfer.Fill | main.go:118 | one read puts its bytes at the front of the buffer |
| Transfer.CopyStream | main.go:164-184 | the loop over one buffer makes the same writes, count, reads and stop as the copy function |
| Transfer.ReceiveFile | main.go:151-186 | receiveFile, step by step, gives the receipt of the receive function |
| Server.ServeReplies | main.go:118-130 | a session replies at most once: the success reply exactly when the first read brought the key without error, the failure reply exactly when it brought anything else without error |
| Server.ServeGuards | main.go:125-147 | a rejected client gets nothing more read from it and no file; a path is taken exactly after a matching key and a well-formed request, and it is the parsed path; a file exists only then |
| Server.ServeStoresPayload | main.go:113-186 | a session reads no further than the connection goes; a file copied to io.EOF holds exactly the bytes of the reads after the request, all counted |
| Server.ServeAdmitted | main.go:130-147 | after a matching key and a well-formed request, the session is the receipt of receiveFile on the later reads |
| Server.HandleConnection | main.go:113-148 | handleConnection, step by step with one buffer, gives the session of the serve function |
| Server.WrongKeyTurnedAway | main.go:125-128 | a first chunk that does not match gets the failure reply alone, one read, no path and no file, whatever follows |
| Client.UploadAccounts | main.go:218-290 | the client is rejected exactly when its key went out and the answer came back with an error or without the success text, and then it wrote its key line only; it streams the file exactly when every earlier step succeeded, after the key line and the request line, with no write over 4096 bytes; a stream that reached io.EOF sent and counted exactly the file bytes it read; whatever stopped the stream, its writes satisfy the copy loop's accounting (one write per file read that brought bytes, carrying those bytes, in order), and a write error stopped it at the first refused write after the request |
| Client.SendSingleFile | main.go:218-290 | sendSingleFile, step by step, gives the result of the upload function |
| Launcher.Dispatch | main.go:309-320 | usage only when the password is empty; a client when a path is given; a server otherwise; the password is the key in both roles |
| Launcher.SamePasswordBothEnds | main.go:314-320 | server and client started with the same password use the same key; the client is let in exactly when that password is trimmed, and an untrimmed one lets nobody in |
| Launcher.BlankChunkNeverAdmitted | main.go:309-312 | a server never runs with an empty key, so a blank first chunk never gets in |
| Launcher.WalkFilesExactly | main.go:199-209 | the walk uploads the visits that are not directories and came without error, each once, in the order Walk visits them: the k-th upload is the k-th such visit |
| Launcher.WalkFilesPrefix | main.go:199-209 | the uploads for the first visits come first among all uploads |
| Launcher.FilesToSend | main.go:189-215 | an unreadable path sends nothing, a file sends itself, a directory sends what the walk uploads |
| Launcher.SendFile | main.go:189-215 | one upload per file to send, in order, each as the upload function says; a failed upload does not stop the next, but one that panicked is the last |
| Launcher.SendWalk | main.go:197-209 | the walk's uploads in Walk's order, each as the upload function says, stopping only after an upload that panicked |
| EndToEnd.ServerTakesRequest | main.go:113-147 | a client's key line and request line, read whole, admit it and make the server receive the file from the reads that follow |
| EndToEnd.ServerTakesStream | main.go:113-186 | after the key line and the request line, any chunks closed by the client are stored exactly and counted |
| EndToEnd.ClientStreams | main.go:218-290 | a client meeting no failure writes its key line, its request line and every non-empty file chunk, and counts the file's bytes |
| EndToEnd.DeliveredCarriesWire | main.go:166-184 | a model-level helper for `EndToEnd.ServerTakesWire`: when the client's writes arrive at the server one per read, the reads' bytes are exactly the writes' bytes, none lost and none added |
| EndToEnd.ServerTakesWire | main.go:113-186 | the server, reading the client's writes one per read, replies with success, takes the path the client sent and stores exactly the file |
| EndToEnd.RoundTrip | main.go:218-290 | with the server's trimmed key and a path the request can carry, the file the client streams is stored under that path, whole, and both counters agree |
| EndToEnd.WrongKey | main.go:123-128 | a client whose key does not match sends only its key line, gets the failure reply and stops; the server reads nothing more and stores nothing |
| Wire.FlattenAppend | main.go:169 | a model-level helper for `Transfer.CopyAccounts` and `EndToEnd.ServerTakesWire`: the bytes of two runs of writes are the bytes of each, in order |
| Wire.FlattenNonEmpty | main.go:168 | a model-level helper for `Transfer.ReceiveChunks` and `EndToEnd.ServerTakesWire`: leaving out the empty reads, which the copy loop does not write, loses no byte |

## Left out

- TLS: certificate generation and loading (main.go:24-68), the listener
  (main.go:71-110) and `tls.Dial`. A connection is its sequence of reads and
  writes, and the model does not capture encryption. The client does not
  check the server's certificate (`InsecureSkipVerify`, main.go:226). The
  model does not capture that either; any peer may answer.
- The accept loop and its goroutines (main.go:101-109): each session is
  modelled on its own. Sessions share no state.
- Console output, the progress lines, and the floating-point percentage
  (main.go:279). The model keeps `file.Stat()` (main.go:265): when it fails,
  `fileInfo` is nil, `fileInfo.Size()` panics, and the whole program ends
  (`Panicked`). `totalSize` itself feeds only the percentage.
- Flag parsing and default values (main.go:294-307). `Dispatch` takes the
  three values after parsing.
- The file system is a set of given outcomes. `os.MkdirAll`,
  `filepath.Dir`, `os.Create` and `os.Open` succeed or fail as given, so
  path resolution is not modelled and the path from the request is used
  verbatim. `os.Stat` in sendSingleFile is only "missing" or not: other
  errors go on, as in the code. `filepath.Walk` is its sequence of callback
  visits, in its order.
- `received` and `sent` are `int64` in the code and unbounded here. They
  would overflow only after 2^63 bytes.
- The errors of the two reply writes (main.go:127,130) are ignored by the
  code. The model records each reply as sent.
- Deferred `Close` calls and their errors.
- How the network splits or joins writes into reads is not modelled. The
  end-to-end lemmas take each write to arrive as one read, and
  `Protocol.MetadataAbsorbsData` shows what a merged read does to the request.
