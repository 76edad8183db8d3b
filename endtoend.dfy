/** Client and server together: what the server makes of the bytes
    sendSingleFile (main.go:218-290) puts on the connection, when each Write
    arrives as one Read on the other side (main.go:113-186). */
module EndToEnd {
  import opened Wire
  import opened Text
  import opened Protocol
  import opened Transfer
  import opened Server
  import opened Client

  /** The server's reads when every Write of the client arrives whole, on
      its own, without error. */
  function Delivered(wire: seq<seq<byte>>): (conn: seq<ReadResult>)
    requires forall i :: 0 <= i < |wire| ==> |wire[i]| <= BUFFER_SIZE
    ensures |conn| == |wire|
    ensures forall i :: 0 <= i < |wire| ==> conn[i] == ReadResult(wire[i], Ok)
  {
    seq(|wire|, i requires 0 <= i < |wire| => ReadResult(wire[i], Ok))
  }

  /** Delivery loses and adds no byte. */
  lemma {:induction false} DeliveredCarriesWire(wire: seq<seq<byte>>)
    requires forall i :: 0 <= i < |wire| ==> |wire[i]| <= BUFFER_SIZE
    ensures Payload(Delivered(wire)) == Flatten(wire)
    decreases |wire|
  {
    if wire != [] {
      DeliveredCarriesWire(wire[1..]);
      assert Delivered(wire)[1..] == Delivered(wire[1..]);
    }
  }

  /** A client that meets no failure, reading the file as `chunks` and then
      io.EOF, and getting the success reply. */
  function SmoothClient(chunks: seq<Chunk>): ClientEnv {
    ClientEnv(false, true, [], Some(ReadResult(AUTH_SUCCESS_REPLY, Ok)), true, true, OkReads(chunks) + [EOF_READ])
  }

  const SMOOTH_DISK: Disk := Disk(true, true, [])

  /** The server, given its key, a well-formed request and then any stream of
      chunks closed by the client, stores exactly those chunks' bytes and
      counts them, whatever their number: a stream cut short is stored and
      reported like a complete one. */
  lemma ServerTakesStream(secretKey: seq<byte>, name: seq<byte>, chunks: seq<Chunk>)
    requires IsTrimmed(secretKey) && |secretKey| < BUFFER_SIZE
    requires name != [] && TrailingSpace(name) == 0 && |MetadataLine(name)| <= BUFFER_SIZE
    ensures
      var conn := [ReadResult(AuthLine(secretKey), Ok), ReadResult(MetadataLine(name), Ok)] + OkReads(chunks) + [EOF_READ];
      Serve(secretKey, conn, SMOOTH_DISK)
        == Session([AUTH_SUCCESS_REPLY], Some(name), Some(Flatten(chunks)), |Flatten(chunks)|, |conn|, Served(Copied(AtEof)))
  {
    var rest := OkReads(chunks) + [EOF_READ];
    assert [ReadResult(AuthLine(secretKey), Ok), ReadResult(MetadataLine(name), Ok)] + OkReads(chunks) + [EOF_READ]
      == [ReadResult(AuthLine(secretKey), Ok), ReadResult(MetadataLine(name), Ok)] + rest;
    ServerTakesRequest(secretKey, name, rest, SMOOTH_DISK);
    ReceiveChunks(chunks);
  }

  /** The server, given its key and a well-formed request, receives the
      file from the reads that follow. */
  lemma ServerTakesRequest(secretKey: seq<byte>, name: seq<byte>, rest: seq<ReadResult>, disk: Disk)
    requires IsTrimmed(secretKey) && |secretKey| < BUFFER_SIZE
    requires name != [] && TrailingSpace(name) == 0 && |MetadataLine(name)| <= BUFFER_SIZE
    ensures
      var rc := Receive(rest, disk);
      Serve(secretKey, [ReadResult(AuthLine(secretKey), Ok), ReadResult(MetadataLine(name), Ok)] + rest, disk)
        == Session([AUTH_SUCCESS_REPLY], Some(name), rc.file, rc.received, 2 + rc.consumed, Served(rc.end))
  {
    var conn := [ReadResult(AuthLine(secretKey), Ok), ReadResult(MetadataLine(name), Ok)] + rest;
    assert conn[0] == ReadResult(AuthLine(secretKey), Ok);
    assert conn[1] == ReadResult(MetadataLine(name), Ok);
    assert conn[2..] == rest;
    SameKeyAccepted(secretKey);
    MetadataRoundTrip(name);
    ServeAdmitted(secretKey, conn, disk, name);
  }

  /** A client that meets no failure writes its key line, its request line
      and then every non-empty chunk of the file, and counts the file's bytes. */
  lemma ClientStreams(secretKey: seq<byte>, name: seq<byte>, chunks: seq<Chunk>)
    ensures Upload(secretKey, name, SmoothClient(chunks))
      == ClientResult([AuthLine(secretKey), MetadataLine(name)] + NonEmpty(chunks), |Flatten(chunks)|, |chunks| + 1, Streamed(AtEof))
  {
    RepliesRecognised();
    CopyOfChunks(chunks);
  }

  /** What the server makes of the writes of a client that meets no failure. */
  lemma ServerTakesWire(secretKey: seq<byte>, name: seq<byte>, chunks: seq<Chunk>)
    requires IsTrimmed(secretKey) && |secretKey| < BUFFER_SIZE
    requires name != [] && TrailingSpace(name) == 0 && |MetadataLine(name)| <= BUFFER_SIZE
    ensures
      var wire := [AuthLine(secretKey), MetadataLine(name)] + NonEmpty(chunks);
      && (forall i :: 0 <= i < |wire| ==> |wire[i]| <= BUFFER_SIZE)
      && Payload(Delivered(wire)) == AuthLine(secretKey) + MetadataLine(name) + Flatten(chunks)
      && var s := Serve(secretKey, Delivered(wire) + [EOF_READ], SMOOTH_DISK);
      && s.replies == [AUTH_SUCCESS_REPLY]
      && s.target == Some(name)
      && s.file == Some(Flatten(chunks))
      && s.received == |Flatten(chunks)|
      && s.end == Served(Copied(AtEof))
  {
    var streamed := NonEmpty(chunks);
    var head := [AuthLine(secretKey), MetadataLine(name)];
    var wire := head + streamed;
    assert forall i :: 0 <= i < |wire| ==> |wire[i]| <= BUFFER_SIZE;
    assert Delivered(wire) == [ReadResult(AuthLine(secretKey), Ok), ReadResult(MetadataLine(name), Ok)] + OkReads(streamed);
    DeliveredCarriesWire(wire);
    FlattenAppend(head, streamed);
    FlattenNonEmpty(chunks);
    assert Flatten(head) == AuthLine(secretKey) + MetadataLine(name) by {
      var second: seq<seq<byte>> := head[1..];
      assert second == [MetadataLine(name)];
      assert second[1..] == [];
    }
    ServerTakesStream(secretKey, name, streamed);
    FlattenNonEmpty(streamed);
  }

  /** The whole transfer: a client with the server's (trimmed) key and a
      name the request can carry streams the file, and the server stores
      exactly the file's bytes under that name, having counted as many bytes
      as the client sent. */
  lemma RoundTrip(secretKey: seq<byte>, name: seq<byte>, chunks: seq<Chunk>)
    requires IsTrimmed(secretKey) && |secretKey| < BUFFER_SIZE
    requires name != [] && TrailingSpace(name) == 0 && |MetadataLine(name)| <= BUFFER_SIZE
    ensures
      var c := Upload(secretKey, name, SmoothClient(chunks));
      && c.end == Streamed(AtEof)
      && c.sent == |Flatten(chunks)|
      && (forall i :: 0 <= i < |c.wire| ==> |c.wire[i]| <= BUFFER_SIZE)
      && Payload(Delivered(c.wire)) == AuthLine(secretKey) + MetadataLine(name) + Flatten(chunks)
      && var s := Serve(secretKey, Delivered(c.wire) + [EOF_READ], SMOOTH_DISK);
      && s.replies == [AUTH_SUCCESS_REPLY]
      && s.target == Some(name)
      && s.file == Some(Flatten(chunks))
      && s.received == c.sent
      && s.end == Served(Copied(AtEof))
  {
    ClientStreams(secretKey, name, chunks);
    ServerTakesWire(secretKey, name, chunks);
  }

  /** A client whose key the server does not accept sends only its key line,
      gets the failure reply, and stops; the server reads nothing more and
      stores nothing. */
  lemma WrongKey(secretKey: seq<byte>, secret: seq<byte>, name: seq<byte>, chunks: seq<Chunk>, rest: seq<ReadResult>)
    requires TrimSpace(secret) != secretKey && |secret| < BUFFER_SIZE
    ensures
      var s := Serve(secretKey, [ReadResult(AuthLine(secret), Ok)] + rest, SMOOTH_DISK);
      && s.replies == [AUTH_FAILED_REPLY]
      && s.file == None
      && s.consumed == 1
      && var env := SmoothClient(chunks).(response := Some(ReadResult(AUTH_FAILED_REPLY, Ok)));
      && Upload(secret, name, env) == ClientResult([AuthLine(secret)], 0, 0, Rejected)
  {
    AuthLineAccepted(secret, secretKey);
    RepliesRecognised();
  }
}
