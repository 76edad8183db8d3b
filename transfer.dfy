/** The copy loop both ends run over the file bytes (main.go:166-184 on the
    server, main.go:270-288 on the client): read up to BUFFER_SIZE bytes,
    write the bytes read, count them, and stop at end of stream, at a read
    error or at a write error. Then the server's receiveFile
    (main.go:151-186), which creates the target file and runs that loop. */
module Transfer {
  import opened Wire

  /** How a copy loop stopped. `Waiting` means the reads given ran out while
      the loop was still going: the loop is blocked in its next Read. */
  datatype CopyEnd = AtEof | ReadError | WriteError | Waiting

  /** What a copy loop did: the successive Write calls' bytes as they reached
      the destination, the byte counter, and how many Read calls it made. */
  datatype CopyResult = CopyResult(writes: seq<seq<byte>>, count: nat, consumed: nat, end: CopyEnd)

  /** What a copy result must say about the reads it was made from. Every
      read before the last one it took came back without error, and the
      last one explains why it stopped. The bytes written are the bytes
      read, and the counter counts them, except that a failed Write leaves
      the counter at the bytes of the earlier reads and the destination
      with those and part of the failed chunk. No Write is longer than the
      buffer, and every Write except a failed one has something to write. */
  ghost predicate Accounts(source: seq<ReadResult>, c: CopyResult) {
    ReadsAccount(source, c) && BytesAccount(source, c) && WritesAccount(c)
  }

  /** Which reads the copy took, and why it stopped. */
  ghost predicate ReadsAccount(source: seq<ReadResult>, c: CopyResult) {
    && c.consumed <= |source|
    && (c.end == Waiting ==> c.consumed == |source| && forall i :: 0 <= i < |source| ==> source[i].status == Ok)
    && (c.end != Waiting ==> 1 <= c.consumed && forall i :: 0 <= i < c.consumed - 1 ==> source[i].status == Ok)
    && (c.end == AtEof ==> source[c.consumed - 1].status == Eof)
    && (c.end == ReadError ==> source[c.consumed - 1].status == Failed)
    && (c.end == WriteError ==> source[c.consumed - 1].data != [])
  }

  /** Which bytes the copy wrote and counted: each Write carries the bytes
      of one read, in the order of the reads, so the destination gets the
      bytes read. */
  ghost predicate BytesAccount(source: seq<ReadResult>, c: CopyResult) {
    && c.consumed <= |source|
    && (c.end != WriteError ==> c.writes == ReadData(source[..c.consumed]))
    && (c.end != WriteError ==> Flatten(c.writes) == Payload(source[..c.consumed]) && c.count == |Flatten(c.writes)|)
    && (c.end == WriteError ==> 1 <= |c.writes| && 1 <= c.consumed && c.writes[..|c.writes| - 1] == ReadData(source[..c.consumed - 1]))
    && (c.end == WriteError ==>
         && 1 <= c.consumed
         && c.count == |Payload(source[..c.consumed - 1])|
         && Payload(source[..c.consumed - 1]) <= Flatten(c.writes) <= Payload(source[..c.consumed])
         && 1 <= |c.writes|
         && Flatten(c.writes) == Payload(source[..c.consumed - 1]) + c.writes[|c.writes| - 1])
  }

  /** How long each Write was. */
  ghost predicate WritesAccount(c: CopyResult) {
    && (forall i :: 0 <= i < |c.writes| ==> |c.writes[i]| <= BUFFER_SIZE)
    && (c.end != WriteError ==> forall i :: 0 <= i < |c.writes| ==> c.writes[i] != [])
  }

  /** How many Write calls a copy makes for these reads: one per read that
      brought bytes. */
  function WriteCalls(results: seq<ReadResult>): nat {
    if results == [] then 0 else (if results[0].data != [] then 1 else 0) + WriteCalls(results[1..])
  }

  /** The bytes of each read that brought bytes, in order: what a copy
      passes to Write, one call per element. */
  function ReadData(results: seq<ReadResult>): seq<seq<byte>> {
    if results == [] then []
    else (if results[0].data != [] then [results[0].data] else []) + ReadData(results[1..])
  }

  /** What a copy result must say about the Write outcomes it met. It made
      one Write per read that brought bytes. A copy that stopped on a write
      error stopped at the first Write that failed, and that Write delivered
      as many bytes as the sink took; any other copy met no failed Write. */
  ghost predicate MeetsSink(source: seq<ReadResult>, sink: seq<WriteStatus>, c: CopyResult) {
    && c.consumed <= |source|
    && |c.writes| == WriteCalls(source[..c.consumed])
    && (c.end != WriteError ==> forall i :: 0 <= i < |c.writes| && i < |sink| ==> sink[i] == Written)
    && (c.end == WriteError ==>
         && 1 <= c.consumed
         && 1 <= |c.writes| <= |sink|
         && sink[|c.writes| - 1].Faulted?
         && (forall i :: 0 <= i < |c.writes| - 1 ==> sink[i] == Written)
         && c.writes[|c.writes| - 1] == source[c.consumed - 1].data[..Min(sink[|c.writes| - 1].kept, |source[c.consumed - 1].data|)])
  }

  /** The copy loop, read by read. A read's bytes are written before its
      error is looked at, so the bytes that come with io.EOF or with an error
      are kept. An empty read writes nothing. A failed Write stops the loop
      at once, after the bytes it did deliver and before the counter moves. */
  function Copy(source: seq<ReadResult>, sink: seq<WriteStatus>): CopyResult
    decreases |source|
  {
    if source == [] then CopyResult([], 0, 0, Waiting)
    else
      var data := source[0].data;
      var n := |data|;
      if n > 0 && NextWrite(sink).Faulted? then
        CopyResult([data[..Min(NextWrite(sink).kept, n)]], 0, 1, WriteError)
      else
        var w: seq<seq<byte>> := if n > 0 then [data] else [];
        if source[0].status == Eof then CopyResult(w, n, 1, AtEof)
        else if source[0].status == Failed then CopyResult(w, n, 1, ReadError)
        else
          var rest := Copy(source[1..], if n > 0 then LaterWrites(sink) else sink);
          CopyResult(w + rest.writes, n + rest.count, 1 + rest.consumed, rest.end)
  }

  /** Whatever the reads and the Write outcomes, the copy loop accounts for
      every byte it read. */
  lemma {:induction false} CopyAccounts(source: seq<ReadResult>, sink: seq<WriteStatus>)
    ensures Accounts(source, Copy(source, sink))
    decreases |source|
  {
    if source != [] {
      var data := source[0].data;
      var n := |data|;
      var c := Copy(source, sink);
      if n > 0 && NextWrite(sink).Faulted? {
        FirstWriteFails(source, c);
      } else if source[0].status != Ok {
        FirstReadStops(source, c);
      } else {
        var later := if n > 0 then LaterWrites(sink) else sink;
        CopyAccounts(source[1..], later);
        FirstReadContinues(source, Copy(source[1..], later), c);
      }
    }
  }

  lemma FirstWriteFails(source: seq<ReadResult>, c: CopyResult)
    requires source != [] && source[0].data != [] && c.end == WriteError && c.consumed == 1 && c.count == 0
    requires |c.writes| == 1 && c.writes[0] <= source[0].data
    ensures Accounts(source, c)
  {
    PayloadStep(source);
    assert source[..0] == [];
    assert Flatten(c.writes) == c.writes[0] by {
      assert c.writes[1..] == [];
    }
  }

  lemma FirstReadStops(source: seq<ReadResult>, c: CopyResult)
    requires source != [] && source[0].status != Ok && c.consumed == 1 && c.count == |source[0].data|
    requires c.end == (if source[0].status == Eof then AtEof else ReadError)
    requires c.writes == if source[0].data != [] then [source[0].data] else []
    ensures Accounts(source, c)
  {
    PayloadStep(source);
    ReadDataStep(source);
    assert Flatten(c.writes) == source[0].data by {
      if c.writes != [] {
        assert c.writes[1..] == [];
      }
    }
  }

  lemma FirstReadContinues(source: seq<ReadResult>, rest: CopyResult, c: CopyResult)
    requires source != [] && source[0].status == Ok && Accounts(source[1..], rest)
    requires c.writes == (if source[0].data != [] then [source[0].data] else []) + rest.writes
    requires c == CopyResult(c.writes, |source[0].data| + rest.count, 1 + rest.consumed, rest.end)
    ensures Accounts(source, c)
  {
    ReadsContinue(source, rest, c);
    BytesContinue(source, rest, c);
  }

  lemma ReadsContinue(source: seq<ReadResult>, rest: CopyResult, c: CopyResult)
    requires source != [] && source[0].status == Ok && ReadsAccount(source[1..], rest)
    requires c.consumed == 1 + rest.consumed && c.end == rest.end
    ensures ReadsAccount(source, c)
  {
    assert forall i :: 1 <= i < |source| ==> source[1..][i - 1] == source[i];
  }

  lemma BytesContinue(source: seq<ReadResult>, rest: CopyResult, c: CopyResult)
    requires source != [] && BytesAccount(source[1..], rest)
    requires c.writes == (if source[0].data != [] then [source[0].data] else []) + rest.writes
    requires c == CopyResult(c.writes, |source[0].data| + rest.count, 1 + rest.consumed, rest.end)
    ensures BytesAccount(source, c)
  {
    var w := if source[0].data != [] then [source[0].data] else [];
    assert Flatten(w) == source[0].data by {
      if w != [] {
        assert w[1..] == [];
      }
    }
    FlattenAppend(w, rest.writes);
    PayloadPrefixStep(source, rest.consumed);
    OrderContinues(source, rest, c);
    if rest.end == WriteError {
      PayloadPrefixStep(source, rest.consumed - 1);
      FaultContinues(source[0].data, Payload(source[1..][..rest.consumed - 1]), Payload(source[1..][..rest.consumed]), w, rest.writes);
    }
  }

  /** Each Write still carries one read's bytes, in order, once one more
      read is put in front. */
  lemma OrderContinues(source: seq<ReadResult>, rest: CopyResult, c: CopyResult)
    requires source != [] && rest.consumed < |source|
    requires rest.end != WriteError ==> rest.writes == ReadData(source[1..][..rest.consumed])
    requires rest.end == WriteError ==>
      1 <= |rest.writes| && 1 <= rest.consumed && rest.writes[..|rest.writes| - 1] == ReadData(source[1..][..rest.consumed - 1])
    requires c.writes == (if source[0].data != [] then [source[0].data] else []) + rest.writes
    requires c.consumed == 1 + rest.consumed && c.end == rest.end
    ensures c.end != WriteError ==> c.writes == ReadData(source[..c.consumed])
    ensures c.end == WriteError ==> 1 <= |c.writes| && c.writes[..|c.writes| - 1] == ReadData(source[..c.consumed - 1])
  {
    ReadDataPrefixStep(source, rest.consumed);
    if rest.end == WriteError {
      ReadDataPrefixStep(source, rest.consumed - 1);
      DropLastPrepend(if source[0].data != [] then [source[0].data] else [], rest.writes, c.writes);
    }
  }

  /** Dropping the last of several writes with `w` in front keeps `w`. */
  lemma DropLastPrepend(w: seq<seq<byte>>, writes: seq<seq<byte>>, all: seq<seq<byte>>)
    requires 1 <= |writes| && all == w + writes
    ensures all[..|all| - 1] == w + writes[..|writes| - 1]
  {
  }

  /** The byte account of a copy stopped by a write error survives putting
      one more read's bytes `d`, written as `w`, in front. */
  lemma FaultContinues(d: seq<byte>, before: seq<byte>, upto: seq<byte>, w: seq<seq<byte>>, writes: seq<seq<byte>>)
    requires Flatten(w) == d && 1 <= |writes|
    requires before <= Flatten(writes) <= upto
    requires Flatten(writes) == before + writes[|writes| - 1]
    ensures d + before <= Flatten(w + writes) <= d + upto
    ensures Flatten(w + writes) == d + before + (w + writes)[|w + writes| - 1]
  {
    FlattenAppend(w, writes);
    assert (w + writes)[|w + writes| - 1] == writes[|writes| - 1];
    PrefixesPrepend(d, before, Flatten(writes), upto, writes[|writes| - 1]);
  }

  /** Putting the same bytes `d` in front keeps `f` between `before` and
      `upto`, and `last` after `before`. */
  lemma PrefixesPrepend(d: seq<byte>, before: seq<byte>, f: seq<byte>, upto: seq<byte>, last: seq<byte>)
    requires before <= f <= upto && f == before + last
    ensures d + before <= d + f <= d + upto
    ensures d + f == d + before + last
  {
    assert (d + f)[..|d + before|] == d + before;
    assert (d + upto)[..|d + f|] == d + f;
  }

  /** Whatever the reads, the copy loop stops on a write error exactly at the
      first Write the sink fails. */
  lemma {:induction false} CopyMeetsSink(source: seq<ReadResult>, sink: seq<WriteStatus>)
    ensures MeetsSink(source, sink, Copy(source, sink))
    decreases |source|
  {
    if source != [] {
      var n := |source[0].data|;
      var c := Copy(source, sink);
      if n > 0 && NextWrite(sink).Faulted? {
        WriteCallsStep(source, 0);
      } else if source[0].status != Ok {
        WriteCallsStep(source, 0);
      } else {
        var later := if n > 0 then LaterWrites(sink) else sink;
        CopyMeetsSink(source[1..], later);
        SinkContinues(source, sink, Copy(source[1..], later), c);
      }
    }
  }

  lemma SinkContinues(source: seq<ReadResult>, sink: seq<WriteStatus>, rest: CopyResult, c: CopyResult)
    requires source != [] && (source[0].data != [] ==> NextWrite(sink) == Written)
    requires MeetsSink(source[1..], if source[0].data != [] then LaterWrites(sink) else sink, rest)
    requires c.writes == (if source[0].data != [] then [source[0].data] else []) + rest.writes
    requires c.consumed == 1 + rest.consumed && c.end == rest.end
    ensures MeetsSink(source, sink, c)
  {
    WriteCallsStep(source, rest.consumed);
    if rest.end == WriteError {
      assert source[c.consumed - 1] == source[1..][rest.consumed - 1];
    }
    if source[0].data == [] {
      assert c.writes == rest.writes;
    } else if sink == [] {
      SinkAfterEmpty(source[1..], rest);
    } else {
      SinkAfterWritten(source[0].data, sink, rest, c);
    }
  }

  /** Past the end of the outcome list every Write succeeds. */
  lemma SinkAfterEmpty(source: seq<ReadResult>, rest: CopyResult)
    requires MeetsSink(source, [], rest)
    ensures rest.end != WriteError
  {
  }

  lemma SinkAfterWritten(data: seq<byte>, sink: seq<WriteStatus>, rest: CopyResult, c: CopyResult)
    requires sink != [] && sink[0] == Written
    requires rest.end != WriteError ==> forall i :: 0 <= i < |rest.writes| && i < |sink| - 1 ==> sink[1..][i] == Written
    requires rest.end == WriteError ==>
      && 1 <= |rest.writes| <= |sink| - 1
      && sink[1..][|rest.writes| - 1].Faulted?
      && (forall i :: 0 <= i < |rest.writes| - 1 ==> sink[1..][i] == Written)
    requires c.writes == [data] + rest.writes && c.end == rest.end
    ensures c.end != WriteError ==> forall i :: 0 <= i < |c.writes| && i < |sink| ==> sink[i] == Written
    ensures c.end == WriteError ==>
      && 1 <= |c.writes| <= |sink|
      && sink[|c.writes| - 1].Faulted?
      && (forall i :: 0 <= i < |c.writes| - 1 ==> sink[i] == Written)
    ensures c.end == WriteError ==> c.writes[|c.writes| - 1] == rest.writes[|rest.writes| - 1]
    ensures c.end == WriteError ==> sink[|c.writes| - 1] == sink[1..][|rest.writes| - 1]
  {
    assert forall i :: 1 <= i < |sink| ==> sink[i] == sink[1..][i - 1];
  }

  lemma WriteCallsStep(source: seq<ReadResult>, k: nat)
    requires k < |source|
    ensures WriteCalls(source[..k + 1]) == (if source[0].data != [] then 1 else 0) + WriteCalls(source[1..][..k])
  {
    assert source[..k + 1][1..] == source[1..][..k];
  }

  lemma PayloadStep(source: seq<ReadResult>)
    requires source != []
    ensures Payload(source[..1]) == source[0].data
  {
    assert source[..1][1..] == [];
  }

  lemma ReadDataStep(source: seq<ReadResult>)
    requires source != []
    ensures ReadData(source[..1]) == if source[0].data != [] then [source[0].data] else []
  {
    assert source[..1][1..] == [];
  }

  lemma ReadDataPrefixStep(source: seq<ReadResult>, k: nat)
    requires k < |source|
    ensures ReadData(source[..k + 1]) == (if source[0].data != [] then [source[0].data] else []) + ReadData(source[1..][..k])
  {
    assert source[..k + 1][1..] == source[1..][..k];
  }

  lemma PayloadPrefixStep(source: seq<ReadResult>, k: nat)
    requires k < |source|
    ensures Payload(source[..k + 1]) == source[0].data + Payload(source[1..][..k])
  {
    assert source[..k + 1][1..] == source[1..][..k];
  }

  /** With every Write succeeding, a stream of chunks closed by the peer is
      copied whole: each non-empty chunk is written once, in order, and the
      counter ends at the number of bytes. */
  lemma {:induction false} CopyOfChunks(chunks: seq<Chunk>)
    ensures Copy(OkReads(chunks) + [EOF_READ], []) == CopyResult(NonEmpty(chunks), |Flatten(chunks)|, |chunks| + 1, AtEof)
    decreases |chunks|
  {
    var source := OkReads(chunks) + [EOF_READ];
    if chunks == [] {
      assert source == [EOF_READ];
    } else {
      assert source[1..] == OkReads(chunks[1..]) + [EOF_READ];
      CopyOfChunks(chunks[1..]);
    }
  }

  /** A copy whose Writes all succeed never stops with a write error, and the
      same holds when the Writes it reaches succeed. */
  lemma {:induction false} NoFaultNoWriteError(source: seq<ReadResult>, sink: seq<WriteStatus>)
    requires forall i :: 0 <= i < |sink| ==> sink[i] == Written
    ensures Copy(source, sink).end != WriteError
    decreases |source|
  {
    if source != [] && source[0].status == Ok {
      var next := if source[0].data != [] then LaterWrites(sink) else sink;
      assert forall i :: 0 <= i < |next| ==> next[i] == Written;
      NoFaultNoWriteError(source[1..], next);
    }
  }

  /** The end of the stream carries no information: a stream cut short after
      any number of its chunks is copied, and reported, as a complete one. */
  lemma TruncationUndetected(chunks: seq<Chunk>, k: nat)
    requires k <= |chunks|
    ensures Copy(OkReads(chunks[..k]) + [EOF_READ], []).end == AtEof
    ensures Copy(OkReads(chunks[..k]) + [EOF_READ], []).count == |Flatten(chunks[..k])|
  {
    CopyOfChunks(chunks[..k]);
  }

  /** The file system as receiveFile meets it: whether creating the target's
      directories and the target itself succeed, and the outcomes of the
      file's Write calls. */
  datatype Disk = Disk(mkdirOk: bool, createOk: bool, faults: seq<WriteStatus>)

  datatype ReceiveEnd = MkdirFailed | CreateFailed | Copied(copy: CopyEnd)

  /** What receiveFile leaves behind: the file's contents if it was created,
      the `received` counter, and how many reads it took from the connection. */
  datatype Receipt = Receipt(file: Option<seq<byte>>, received: nat, consumed: nat, end: ReceiveEnd)

  /** receiveFile: create the target's directories, then the target, then
      copy the connection into it. */
  function Receive(conn: seq<ReadResult>, disk: Disk): Receipt {
    if !disk.mkdirOk then Receipt(None, 0, 0, MkdirFailed)
    else if !disk.createOk then Receipt(None, 0, 0, CreateFailed)
    else
      var c := Copy(conn, disk.faults);
      Receipt(Some(Flatten(c.writes)), c.count, c.consumed, Copied(c.end))
  }

  /** No file unless both steps of creating it succeed. A file whose copy
      ended at io.EOF, at a read error or in a blocked read holds exactly the
      bytes read, `received` counts them, and no Write to the file failed.
      A copy that ended on a write error stopped at the first Write the file
      refused: `received` counts the chunks written before it and the file
      holds those and the part of the refused chunk the file took. */
  lemma ReceiveAccounts(conn: seq<ReadResult>, disk: Disk)
    ensures var rc := Receive(conn, disk);
      && (rc.file.Some? <==> disk.mkdirOk && disk.createOk)
      && (rc.file.None? ==> rc.received == 0 && rc.consumed == 0)
      && rc.consumed <= |conn|
      && (rc.end.Copied? && rc.end.copy != Waiting ==> rc.consumed >= 1)
      && (rc.end.Copied? && rc.end.copy != WriteError ==>
           rc.file == Some(Payload(conn[..rc.consumed])) && rc.received == |rc.file.value|)
      && (rc.end == Copied(WriteError) ==>
           && rc.file.Some?
           && rc.received == |Payload(conn[..rc.consumed - 1])|
           && Payload(conn[..rc.consumed - 1]) <= rc.file.value <= Payload(conn[..rc.consumed]))
      && (rc.end.Copied? && rc.end.copy != WriteError ==>
           forall i :: 0 <= i < WriteCalls(conn[..rc.consumed]) && i < |disk.faults| ==> disk.faults[i] == Written)
      && (rc.end == Copied(WriteError) ==>
           var k := WriteCalls(conn[..rc.consumed]);
           && 1 <= k <= |disk.faults|
           && disk.faults[k - 1].Faulted?
           && (forall i :: 0 <= i < k - 1 ==> disk.faults[i] == Written)
           && rc.file == Some(Payload(conn[..rc.consumed - 1])
                + conn[rc.consumed - 1].data[..Min(disk.faults[k - 1].kept, |conn[rc.consumed - 1].data|)]))
  {
    CopyAccounts(conn, disk.faults);
    CopyMeetsSink(conn, disk.faults);
  }

  /** On a disk where nothing fails, a stream of chunks closed by the peer
      ends up in the file whole, and `received` counts its bytes. */
  lemma ReceiveChunks(chunks: seq<Chunk>)
    ensures Receive(OkReads(chunks) + [EOF_READ], Disk(true, true, []))
      == Receipt(Some(Flatten(chunks)), |Flatten(chunks)|, |chunks| + 1, Copied(AtEof))
  {
    CopyOfChunks(chunks);
    FlattenNonEmpty(chunks);
  }

  /** One `conn.Read(buffer)`: the read's bytes land at the front of the buffer. */
  method Fill(buffer: array<byte>, data: Chunk) returns (n: nat)
    requires buffer.Length == BUFFER_SIZE
    modifies buffer
    ensures n == |data| && buffer[..n] == data
  {
    forall i | 0 <= i < |data| {
      buffer[i] := data[i];
    }
    n := |data|;
  }

  /** The copy loop itself: one buffer, filled by each read and written out. */
  method CopyStream(source: seq<ReadResult>, sink: seq<WriteStatus>) returns (c: CopyResult)
    ensures c == Copy(source, sink)
  {
    var buffer := new byte[BUFFER_SIZE];
    var writes: seq<seq<byte>> := [];
    var count: nat := 0;
    var faults := sink;
    var i := 0;
    while i < |source|
      invariant i <= |source|
      invariant Copy(source, sink) == Resume(writes, count, i, Copy(source[i..], faults))
    {
      var status := source[i].status;
      var n := Fill(buffer, source[i].data);
      ghost var writes0, count0, faults0 := writes, count, faults;
      if n > 0 {
        var outcome := NextWrite(faults);
        if outcome.Faulted? {
          CopyFaults(writes, count, source, i, faults);
          var kept := buffer[..Min(outcome.kept, n)];
          assert kept == source[i].data[..Min(outcome.kept, n)];
          writes := writes + [kept];
          return CopyResult(writes, count, i + 1, WriteError);
        }
        writes := writes + [buffer[..n]];
        faults := LaterWrites(faults);
        count := count + n;
      }
      if status == Eof {
        CopyStops(writes0, count0, source, i, faults0);
        return CopyResult(writes, count, i + 1, AtEof);
      }
      if status == Failed {
        CopyStops(writes0, count0, source, i, faults0);
        return CopyResult(writes, count, i + 1, ReadError);
      }
      CopyContinues(writes0, count0, source, i, faults0, writes, count, i + 1, faults);
      i := i + 1;
    }
    assert source[i..] == [];
    return CopyResult(writes, count, i, Waiting);
  }

  /** The copy from read `i` on: that read, then the copy from the next. */
  lemma CopyStep(source: seq<ReadResult>, i: nat, sink: seq<WriteStatus>)
    requires i < |source|
    ensures var data := source[i].data;
      var n := |data|;
      var w: seq<seq<byte>> := if n > 0 then [data] else [];
      Copy(source[i..], sink) ==
        if n > 0 && NextWrite(sink).Faulted? then CopyResult([data[..Min(NextWrite(sink).kept, n)]], 0, 1, WriteError)
        else if source[i].status == Eof then CopyResult(w, n, 1, AtEof)
        else if source[i].status == Failed then CopyResult(w, n, 1, ReadError)
        else Resume(w, n, 1, Copy(source[i + 1..], if n > 0 then LaterWrites(sink) else sink))
  {
    assert source[i..][0] == source[i] && source[i..][1..] == source[i + 1..];
  }

  /** Read `i` brings bytes the next Write refuses: the copy stops there. */
  lemma CopyFaults(writes: seq<seq<byte>>, count: nat, source: seq<ReadResult>, i: nat, sink: seq<WriteStatus>)
    requires i < |source| && source[i].data != [] && NextWrite(sink).Faulted?
    ensures var data := source[i].data;
      Resume(writes, count, i, Copy(source[i..], sink))
        == CopyResult(writes + [data[..Min(NextWrite(sink).kept, |data|)]], count, i + 1, WriteError)
  {
    CopyStep(source, i, sink);
  }

  /** Read `i` ends the stream or fails, and its bytes, if any, are written:
      the copy stops after it. */
  lemma CopyStops(writes: seq<seq<byte>>, count: nat, source: seq<ReadResult>, i: nat, sink: seq<WriteStatus>)
    requires i < |source| && source[i].status != Ok && (source[i].data != [] ==> NextWrite(sink) == Written)
    ensures var data := source[i].data;
      Resume(writes, count, i, Copy(source[i..], sink))
        == CopyResult(writes + (if data != [] then [data] else []), count + |data|, i + 1,
                      if source[i].status == Eof then AtEof else ReadError)
  {
    CopyStep(source, i, sink);
  }

  /** Read `i` comes back without error and its bytes, if any, are written:
      the copy goes on from read `next`, the one after it, with the Write
      outcomes `later`, having written `writes'` and counted `count'`. */
  lemma CopyContinues(writes: seq<seq<byte>>, count: nat, source: seq<ReadResult>, i: nat, sink: seq<WriteStatus>,
                      writes': seq<seq<byte>>, count': nat, next: nat, later: seq<WriteStatus>)
    requires i < |source| && source[i].status == Ok && next == i + 1
    requires source[i].data != [] ==> NextWrite(sink) == Written && writes' == writes + [source[i].data] && later == LaterWrites(sink)
    requires source[i].data == [] ==> writes' == writes && later == sink
    requires count' == count + |source[i].data|
    ensures Resume(writes, count, i, Copy(source[i..], sink)) == Resume(writes', count', next, Copy(source[next..], later))
  {
    CopyStep(source, i, sink);
    var data := source[i].data;
    var w: seq<seq<byte>> := if data != [] then [data] else [];
    assert writes' == writes + w;
    ResumeResume(writes, count, i, w, |data|, Copy(source[next..], later));
  }

  /** A copy that has made `taken` reads, written `writes` and counted
      `count` bytes, then goes on as `rest`. */
  function Resume(writes: seq<seq<byte>>, count: nat, taken: nat, rest: CopyResult): CopyResult {
    CopyResult(writes + rest.writes, count + rest.count, taken + rest.consumed, rest.end)
  }

  /** Resuming twice is resuming once with both steps' writes and bytes. */
  lemma ResumeResume(writes: seq<seq<byte>>, count: nat, taken: nat, w: seq<seq<byte>>, n: nat, rest: CopyResult)
    ensures Resume(writes, count, taken, Resume(w, n, 1, rest)) == Resume(writes + w, count + n, taken + 1, rest)
  {
    assert writes + (w + rest.writes) == (writes + w) + rest.writes;
  }

  /** receiveFile: create the target's directories, then the target, then
      run the copy loop from the connection into the file. */
  method ReceiveFile(conn: seq<ReadResult>, disk: Disk) returns (rc: Receipt)
    ensures rc == Receive(conn, disk)
  {
    if !disk.mkdirOk {
      return Receipt(None, 0, 0, MkdirFailed);
    }
    if !disk.createOk {
      return Receipt(None, 0, 0, CreateFailed);
    }
    var c := CopyStream(conn, disk.faults);
    return Receipt(Some(Flatten(c.writes)), c.count, c.consumed, Copied(c.end));
  }
}
