/** Bytes, buffers and the results of the stream operations both ends of a
    connection perform: what one Read call delivers, what one Write call
    achieves, and how the payloads of many calls add up. */
module Wire {

  type byte = b: int | 0 <= b < 256

  /** Size of every read buffer (`bufferSize`). */
  const BUFFER_SIZE: nat := 4096

  /** What one Read call can deliver into a buffer of BUFFER_SIZE bytes. */
  type Chunk = s: seq<byte> | |s| <= BUFFER_SIZE

  const LF: byte := 10
  const SPACE: byte := 32

  /** The bytes of a string literal whose characters are all ASCII. */
  function Ascii(s: string): (b: seq<byte>)
    ensures |b| == |s|
  {
    seq(|s|, i requires 0 <= i < |s| => (s[i] as int) % 256)
  }

  function Min(a: nat, b: nat): nat {
    if a <= b then a else b
  }

  datatype Option<T> = None | Some(value: T)

  /** The error a Read call returned with its bytes: none, io.EOF, or any other error. */
  datatype ReadStatus = Ok | Eof | Failed

  /** One `n, err := r.Read(buf)`: the bytes `buf[:n]` and the error. */
  datatype ReadResult = ReadResult(data: Chunk, status: ReadStatus)

  /** What the peer's close looks like to a reader: no bytes, io.EOF. */
  const EOF_READ: ReadResult := ReadResult([], Eof)

  /** One Write call: every byte accepted, or an error after the first `kept` bytes. */
  datatype WriteStatus = Written | Faulted(kept: nat)

  /** A sink is described by the outcomes of its successive Write calls;
      calls beyond the end of the list succeed. */
  function NextWrite(sink: seq<WriteStatus>): WriteStatus {
    if sink == [] then Written else sink[0]
  }

  function LaterWrites(sink: seq<WriteStatus>): seq<WriteStatus> {
    if sink == [] then [] else sink[1..]
  }

  /** The bytes of several writes, in order. */
  function Flatten(parts: seq<seq<byte>>): seq<byte> {
    if parts == [] then [] else parts[0] + Flatten(parts[1..])
  }

  /** The bytes delivered by several reads, in order. */
  function Payload(results: seq<ReadResult>): seq<byte> {
    if results == [] then [] else results[0].data + Payload(results[1..])
  }

  /** A sequence of chunks delivered one per read, without error. */
  function OkReads(chunks: seq<Chunk>): (results: seq<ReadResult>)
    ensures |results| == |chunks|
    ensures forall i :: 0 <= i < |chunks| ==> results[i] == ReadResult(chunks[i], Ok)
  {
    if chunks == [] then [] else [ReadResult(chunks[0], Ok)] + OkReads(chunks[1..])
  }

  /** The chunks that are not empty: the ones a copy loop passes on to Write. */
  function NonEmpty(chunks: seq<Chunk>): (r: seq<Chunk>)
    ensures forall i :: 0 <= i < |r| ==> r[i] != []
    ensures |r| <= |chunks|
  {
    if chunks == [] then []
    else if chunks[0] == [] then NonEmpty(chunks[1..])
    else [chunks[0]] + NonEmpty(chunks[1..])
  }

  lemma {:induction false} FlattenAppend(a: seq<seq<byte>>, b: seq<seq<byte>>)
    ensures Flatten(a + b) == Flatten(a) + Flatten(b)
    decreases |a|
  {
    if a == [] {
      assert a + b == b;
    } else {
      assert (a + b)[1..] == a[1..] + b;
      FlattenAppend(a[1..], b);
    }
  }

  /** Dropping empty chunks changes no byte of the stream. */
  lemma {:induction false} FlattenNonEmpty(chunks: seq<Chunk>)
    ensures Flatten(NonEmpty(chunks)) == Flatten(chunks)
    decreases |chunks|
  {
    if chunks != [] {
      FlattenNonEmpty(chunks[1..]);
      if chunks[0] != [] {
        assert ([chunks[0]] + NonEmpty(chunks[1..]))[1..] == NonEmpty(chunks[1..]);
      }
    }
  }
}
