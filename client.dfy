/** One client upload, sendSingleFile (main.go:218-290): connect, send the
    key, read the verdict, send the request, then stream the file. */
module Client {
  import opened Wire
  import opened Text
  import opened Protocol
  import opened Transfer

  /** Everything sendSingleFile meets outside itself. `missing`: os.Stat
      reports that the file does not exist (any other Stat error is
      ignored). `dialOk`: the TLS connection is made. `link`: the outcomes
      of the Write calls on the connection, in order. `response`: what the
      one Read of the server's answer returns, None if that Read never
      returns. `openOk`: the file opens. `statOk`: `file.Stat()` on the open
      file succeeds. `source`: the Read calls on the file. */
  datatype ClientEnv = ClientEnv(
    missing: bool,
    dialOk: bool,
    link: seq<WriteStatus>,
    response: Option<ReadResult>,
    openOk: bool,
    statOk: bool,
    source: seq<ReadResult>)

  /** Where an upload stopped. `AwaitingReply`: blocked reading the answer.
      `Panicked`: `file.Stat()` failed, so `fileInfo` is nil and the call
      `fileInfo.Size()` panics, which ends the whole program. */
  datatype ClientEnd =
    | Missing
    | DialFailed
    | SecretWriteFailed
    | AwaitingReply
    | Rejected
    | MetadataWriteFailed
    | OpenFailed
    | Panicked
    | Streamed(copy: CopyEnd)

  /** What an upload did: the bytes each Write put on the connection, the
      `sent` counter, how many reads it made on the file, and where it stopped. */
  datatype ClientResult = ClientResult(wire: seq<seq<byte>>, sent: nat, fileReads: nat, end: ClientEnd)

  /** sendSingleFile. The key and the request are one Write each; the file
      is streamed by the copy loop, whose Writes follow those two. */
  function Upload(secretKey: seq<byte>, filename: seq<byte>, env: ClientEnv): ClientResult {
    if env.missing then ClientResult([], 0, 0, Missing)
    else if !env.dialOk then ClientResult([], 0, 0, DialFailed)
    else
      var auth := AuthLine(secretKey);
      match NextWrite(env.link)
      case Faulted(kept) => ClientResult([auth[..Min(kept, |auth|)]], 0, 0, SecretWriteFailed)
      case Written =>
        if env.response.None? then ClientResult([auth], 0, 0, AwaitingReply)
        else if !ClientAccepts(env.response.value) then ClientResult([auth], 0, 0, Rejected)
        else
          var request := MetadataLine(filename);
          var link := LaterWrites(env.link);
          match NextWrite(link)
          case Faulted(kept) => ClientResult([auth, request[..Min(kept, |request|)]], 0, 0, MetadataWriteFailed)
          case Written =>
            if !env.openOk then ClientResult([auth, request], 0, 0, OpenFailed)
            else if !env.statOk then ClientResult([auth, request], 0, 0, Panicked)
            else
              var c := Copy(env.source, LaterWrites(link));
              ClientResult([auth, request] + c.writes, c.count, c.consumed, Streamed(c.end))
  }

  /** The upload reaches the file only after the server's answer was read
      without error and held the success text, and both the key and the
      request were written whole. */
  predicate Cleared(secretKey: seq<byte>, filename: seq<byte>, env: ClientEnv) {
    && !env.missing && env.dialOk
    && NextWrite(env.link) == Written
    && env.response.Some? && ClientAccepts(env.response.value)
    && NextWrite(LaterWrites(env.link)) == Written
    && env.openOk && env.statOk
  }

  /** What an upload promises. A client turned away (or that got its answer
      with any read error, io.EOF included) has written its key line and
      nothing else. The file is streamed exactly when every step before it
      succeeded, and then the connection carries the key line, the request
      line and the file's bytes in order, each Write at most one buffer. A
      stream that reached the end of the file sent every byte it read and
      counted them. Whatever stopped the stream, the file bytes on the
      connection are accounted for as the copy loop promises, and a write
      error stopped it at the first Write after the request that failed. */
  lemma UploadAccounts(secretKey: seq<byte>, filename: seq<byte>, env: ClientEnv)
    ensures var r := Upload(secretKey, filename, env);
      && (r.end == Rejected <==>
           !env.missing && env.dialOk && NextWrite(env.link) == Written
           && env.response.Some? && !ClientAccepts(env.response.value))
      && (r.end == Rejected ==> r.wire == [AuthLine(secretKey)] && r.sent == 0 && r.fileReads == 0)
      && (r.end.Streamed? <==> Cleared(secretKey, filename, env))
      && (!r.end.Streamed? ==> r.sent == 0 && r.fileReads == 0 && |r.wire| <= 2)
      && (r.end.Streamed? ==>
           && |r.wire| >= 2 && r.wire[0] == AuthLine(secretKey) && r.wire[1] == MetadataLine(filename)
           && (forall i :: 2 <= i < |r.wire| ==> |r.wire[i]| <= BUFFER_SIZE)
           && r.fileReads <= |env.source|)
      && (r.end == Streamed(AtEof) ==>
           Flatten(r.wire[2..]) == Payload(env.source[..r.fileReads]) && r.sent == |Flatten(r.wire[2..])|)
      && (r.end.Streamed? ==>
           var c := CopyResult(r.wire[2..], r.sent, r.fileReads, r.end.copy);
           Accounts(env.source, c) && MeetsSink(env.source, LaterWrites(LaterWrites(env.link)), c))
  {
    if Cleared(secretKey, filename, env) {
      var c := Copy(env.source, LaterWrites(LaterWrites(env.link)));
      CopyAccounts(env.source, LaterWrites(LaterWrites(env.link)));
      CopyMeetsSink(env.source, LaterWrites(LaterWrites(env.link)));
      var wire := [AuthLine(secretKey), MetadataLine(filename)] + c.writes;
      assert wire[2..] == c.writes;
      assert forall i :: 2 <= i < |wire| ==> wire[i] == c.writes[i - 2];
    }
  }

  /** sendSingleFile, step by step. */
  method SendSingleFile(secretKey: seq<byte>, filename: seq<byte>, env: ClientEnv) returns (r: ClientResult)
    ensures r == Upload(secretKey, filename, env)
  {
    if env.missing {
      return ClientResult([], 0, 0, Missing);
    }
    if !env.dialOk {
      return ClientResult([], 0, 0, DialFailed);
    }
    var auth := AuthLine(secretKey);
    var outcome := NextWrite(env.link);
    if outcome.Faulted? {
      return ClientResult([auth[..Min(outcome.kept, |auth|)]], 0, 0, SecretWriteFailed);
    }
    var wire := [auth];
    var buf := new byte[BUFFER_SIZE];
    if env.response.None? {
      return ClientResult(wire, 0, 0, AwaitingReply);
    }
    var n := Fill(buf, env.response.value.data);
    if env.response.value.status != Ok || !Contains(buf[..n], SUCCESS_MARKER) {
      assert buf[..n] == env.response.value.data;
      return ClientResult(wire, 0, 0, Rejected);
    }
    var request := MetadataLine(filename);
    var link := LaterWrites(env.link);
    outcome := NextWrite(link);
    if outcome.Faulted? {
      return ClientResult(wire + [request[..Min(outcome.kept, |request|)]], 0, 0, MetadataWriteFailed);
    }
    wire := wire + [request];
    if !env.openOk {
      return ClientResult(wire, 0, 0, OpenFailed);
    }
    if !env.statOk {
      return ClientResult(wire, 0, 0, Panicked);
    }
    var c := CopyStream(env.source, LaterWrites(link));
    return ClientResult(wire + c.writes, c.count, c.consumed, Streamed(c.end));
  }
}
