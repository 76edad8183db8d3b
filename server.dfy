/** One server session, handleConnection (main.go:113-148): read the key,
    answer, read the upload request, then receive the file. */
module Server {
  import opened Wire
  import opened Text
  import opened Protocol
  import opened Transfer

  /** Where a session stopped. `Stalled` means the reads given ran out before
      the key or the request arrived: the server is still blocked in Read. */
  datatype ServerEnd =
    | Stalled
    | AuthReadFailed
    | AuthRejected
    | MetadataReadFailed
    | BadRequest
    | Served(receive: ReceiveEnd)

  /** What a session did: the replies it wrote to the client, the path it
      took from the request, the contents of the file it created, its byte
      counter, and how many reads it took from the connection. */
  datatype Session = Session(
    replies: seq<seq<byte>>,
    target: Option<seq<byte>>,
    file: Option<seq<byte>>,
    received: nat,
    consumed: nat,
    end: ServerEnd)

  /** handleConnection. A first read that returns any error, io.EOF
      included, ends the session without a reply; its bytes are ignored. */
  function Serve(secretKey: seq<byte>, conn: seq<ReadResult>, disk: Disk): Session {
    if conn == [] then Session([], None, None, 0, 0, Stalled)
    else if conn[0].status != Ok then Session([], None, None, 0, 1, AuthReadFailed)
    else if !Authenticates(conn[0].data, secretKey) then
      Session([AUTH_FAILED_REPLY], None, None, 0, 1, AuthRejected)
    else if |conn| == 1 then Session([AUTH_SUCCESS_REPLY], None, None, 0, 1, Stalled)
    else if conn[1].status != Ok then Session([AUTH_SUCCESS_REPLY], None, None, 0, 2, MetadataReadFailed)
    else match ParseMetadata(conn[1].data)
      case None => Session([AUTH_SUCCESS_REPLY], None, None, 0, 2, BadRequest)
      case Some(filename) =>
        var rc := Receive(conn[2..], disk);
        Session([AUTH_SUCCESS_REPLY], Some(filename), rc.file, rc.received, 2 + rc.consumed, Served(rc.end))
  }

  /** The first read was a key that matched. */
  predicate Admitted(secretKey: seq<byte>, conn: seq<ReadResult>) {
    conn != [] && conn[0].status == Ok && Authenticates(conn[0].data, secretKey)
  }

  /** A session answers at most once: with the success reply exactly when
      the first read brought the key, with the failure reply exactly when
      the first read brought something else. */
  lemma ServeReplies(secretKey: seq<byte>, conn: seq<ReadResult>, disk: Disk)
    ensures var s := Serve(secretKey, conn, disk);
      && |s.replies| <= 1
      && (s.replies == [AUTH_SUCCESS_REPLY] <==> Admitted(secretKey, conn))
      && (s.replies == [AUTH_FAILED_REPLY] <==> conn != [] && conn[0].status == Ok && !Authenticates(conn[0].data, secretKey))
  {
    assert AUTH_SUCCESS_REPLY != AUTH_FAILED_REPLY by {
      assert |AUTH_SUCCESS_REPLY| == 26 && |AUTH_FAILED_REPLY| == 22;
    }
  }

  /** A rejected client gets nothing more read from it and no file. A path
      is taken only from a well-formed request after a matching key, and a
      file is created only under such a path. */
  lemma ServeGuards(secretKey: seq<byte>, conn: seq<ReadResult>, disk: Disk)
    ensures var s := Serve(secretKey, conn, disk);
      && (s.end == AuthRejected ==> s.consumed == 1 && s.target == None && s.file == None)
      && (s.target.Some? <==>
           Admitted(secretKey, conn) && |conn| >= 2 && conn[1].status == Ok && ParseMetadata(conn[1].data).Some?)
      && (s.target.Some? ==> s.target == ParseMetadata(conn[1].data))
      && (s.file.Some? ==> s.target.Some? && Admitted(secretKey, conn))
  {
  }

  /** A session reads no further than the connection goes, and a file it
      copied to io.EOF holds exactly the bytes read after the request, all
      of them counted. */
  lemma ServeStoresPayload(secretKey: seq<byte>, conn: seq<ReadResult>, disk: Disk)
    ensures var s := Serve(secretKey, conn, disk);
      && s.consumed <= |conn|
      && (s.end == Served(Copied(AtEof)) ==>
           2 <= s.consumed && s.file == Some(Payload(conn[2..s.consumed])) && s.received == |s.file.value|)
  {
    if Admitted(secretKey, conn) && |conn| >= 2 && conn[1].status == Ok && ParseMetadata(conn[1].data).Some? {
      var rc := Receive(conn[2..], disk);
      ServeAdmitted(secretKey, conn, disk, ParseMetadata(conn[1].data).value);
      ReceiveAccounts(conn[2..], disk);
      AfterRequest(conn, rc.consumed);
    }
  }

  lemma AfterRequest(conn: seq<ReadResult>, k: nat)
    requires 2 + k <= |conn|
    ensures conn[2..][..k] == conn[2..2 + k]
  {
  }

  /** The session of an admitted client with a well-formed request is the
      receipt of receiveFile on the reads after the request. */
  lemma ServeAdmitted(secretKey: seq<byte>, conn: seq<ReadResult>, disk: Disk, name: seq<byte>)
    requires Admitted(secretKey, conn) && |conn| >= 2 && conn[1].status == Ok
    requires ParseMetadata(conn[1].data) == Some(name)
    ensures var rc := Receive(conn[2..], disk);
      Serve(secretKey, conn, disk)
        == Session([AUTH_SUCCESS_REPLY], Some(name), rc.file, rc.received, 2 + rc.consumed, Served(rc.end))
  {
  }

  /** handleConnection, step by step, with one buffer for both reads. */
  method HandleConnection(secretKey: seq<byte>, conn: seq<ReadResult>, disk: Disk) returns (s: Session)
    ensures s == Serve(secretKey, conn, disk)
  {
    var buf := new byte[BUFFER_SIZE];
    if |conn| == 0 {
      return Session([], None, None, 0, 0, Stalled);
    }
    var n := Fill(buf, conn[0].data);
    if conn[0].status != Ok {
      return Session([], None, None, 0, 1, AuthReadFailed);
    }
    assert buf[..n] == conn[0].data;
    var authKey := TrimSpace(buf[..n]);
    assert Admitted(secretKey, conn) <==> authKey == secretKey;
    if authKey != secretKey {
      return Session([AUTH_FAILED_REPLY], None, None, 0, 1, AuthRejected);
    }
    var replies := [AUTH_SUCCESS_REPLY];
    if |conn| == 1 {
      return Session(replies, None, None, 0, 1, Stalled);
    }
    n := Fill(buf, conn[1].data);
    if conn[1].status != Ok {
      return Session(replies, None, None, 0, 2, MetadataReadFailed);
    }
    assert buf[..n] == conn[1].data;
    var metadata := TrimSpace(buf[..n]);
    var parts := SplitAtFirstSpace(metadata);
    assert ParseMetadata(conn[1].data) == if |parts| == 2 && parts[0] == UPLOAD_VERB then Some(parts[1]) else None;
    if |parts| != 2 || parts[0] != UPLOAD_VERB {
      return Session(replies, None, None, 0, 2, BadRequest);
    }
    var filename := parts[1];
    ServeAdmitted(secretKey, conn, disk, filename);
    var rc := ReceiveFile(conn[2..], disk);
    return Session(replies, Some(filename), rc.file, rc.received, 2 + rc.consumed, Served(rc.end));
  }

  /** A session that was turned away: exactly the failure reply, one read, no file. */
  lemma WrongKeyTurnedAway(secretKey: seq<byte>, chunk: Chunk, conn: seq<ReadResult>, disk: Disk)
    requires !Authenticates(chunk, secretKey)
    ensures Serve(secretKey, [ReadResult(chunk, Ok)] + conn, disk)
      == Session([AUTH_FAILED_REPLY], None, None, 0, 1, AuthRejected)
  {
  }
}
