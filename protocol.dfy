/** The messages client and server exchange before the file bytes, and the
    three decisions taken on them: the server's authentication check
    (main.go:123-125), the server's parse of the upload request
    (main.go:138-144) and the client's reading of the server's reply
    (main.go:244). */
module Protocol {
  import opened Wire
  import opened Text

  /** "Authentication successful", the text the client looks for in the reply. */
  const SUCCESS_MARKER: seq<byte> := Ascii("Authentication successful")

  /** The reply to a client whose key matched. */
  const AUTH_SUCCESS_REPLY: seq<byte> := SUCCESS_MARKER + [LF]

  /** The reply to a client whose key did not match. */
  const AUTH_FAILED_REPLY: seq<byte> := Ascii("Authentication failed\n")

  /** "upload", the one request verb. */
  const UPLOAD_VERB: seq<byte> := Ascii("upload")

  /** What the client writes first: its secret key and a newline. */
  function AuthLine(secret: seq<byte>): seq<byte> {
    secret + [LF]
  }

  /** What the client writes second: "upload <filename>\n". */
  function MetadataLine(filename: seq<byte>): seq<byte> {
    UPLOAD_VERB + [SPACE] + filename + [LF]
  }

  /** The server accepts a first chunk whose trimmed text is its key. */
  predicate Authenticates(chunk: seq<byte>, secretKey: seq<byte>) {
    TrimSpace(chunk) == secretKey
  }

  /** The file name the server takes from the second chunk, if the chunk is a
      well-formed request: the trimmed text, split at its first space into
      the verb "upload" and the rest. Exactly the chunks whose trimmed text
      begins with "upload " are requests, and the name is everything after
      that first space; since the text is trimmed, the name is never empty
      and never ends with a space (it may start with one). */
  function ParseMetadata(chunk: seq<byte>): (name: Option<seq<byte>>)
    ensures name.Some? <==> HasPrefix(TrimSpace(chunk), UPLOAD_VERB + [SPACE])
    ensures name.Some? ==> TrimSpace(chunk) == UPLOAD_VERB + [SPACE] + name.value
    ensures name.Some? ==> name.value != [] && TrailingSpace(name.value) == 0
  {
    var metadata := TrimSpace(chunk);
    var parts := SplitAtFirstSpace(metadata);
    SplitRequest(metadata);
    if |parts| == 2 && parts[0] == UPLOAD_VERB then
      RequestShape(metadata, parts[1]);
      Some(parts[1])
    else
      None
  }

  lemma VerbHasNoSpace()
    ensures UPLOAD_VERB == [117, 112, 108, 111, 97, 100]
    ensures SPACE !in UPLOAD_VERB
  {
  }

  /** A trimmed request "upload <name>" has a non-empty name without trailing space. */
  lemma RequestShape(metadata: seq<byte>, name: seq<byte>)
    requires IsTrimmed(metadata) && metadata == UPLOAD_VERB + [SPACE] + name
    ensures HasPrefix(metadata, UPLOAD_VERB + [SPACE])
    ensures name != [] && TrailingSpace(name) == 0
  {
    VerbHasNoSpace();
    assert metadata[..7] == UPLOAD_VERB + [SPACE];
    if name != [] {
      TrailingSpaceAfterAscii(UPLOAD_VERB + [SPACE], name);
    }
  }

  /** A text that begins with "upload " splits into the verb and the rest. */
  lemma SplitRequest(metadata: seq<byte>)
    ensures HasPrefix(metadata, UPLOAD_VERB + [SPACE]) ==> SplitAtFirstSpace(metadata) == [UPLOAD_VERB, metadata[7..]]
  {
    if HasPrefix(metadata, UPLOAD_VERB + [SPACE]) {
      SplitRequestPrefixed(metadata);
    }
  }

  lemma SplitRequestPrefixed(metadata: seq<byte>)
    requires HasPrefix(metadata, UPLOAD_VERB + [SPACE])
    ensures SplitAtFirstSpace(metadata) == [UPLOAD_VERB, metadata[7..]]
  {
    VerbHasNoSpace();
    assert metadata[6] == SPACE;
    var parts := SplitAtFirstSpace(metadata);
    assert |parts| == 2;
    var p := parts[0];
    assert p + [SPACE] + parts[1] == metadata;
    assert |p| == 6;
    assert p == metadata[..6];
    assert metadata[..6] == metadata[..7][..6] == UPLOAD_VERB;
    assert parts[1] == metadata[7..];
    assert parts == [parts[0], parts[1]];
  }

  /** The client goes on only if its Read returned no error (not even
      io.EOF) and the bytes it got contain "Authentication successful". */
  predicate ClientAccepts(response: ReadResult) {
    response.status == Ok && Contains(response.data, SUCCESS_MARKER)
  }

  /** The client's first line is accepted exactly when its secret, trimmed,
      is the server's key: the newline the client adds never matters. */
  lemma AuthLineAccepted(secret: seq<byte>, secretKey: seq<byte>)
    ensures Authenticates(AuthLine(secret), secretKey) <==> TrimSpace(secret) == secretKey
  {
    TrimSpaceIgnoresAsciiSpace(secret, LF);
  }

  /** Client and server holding the same key agree exactly when the key has
      no leading or trailing white space. */
  lemma SameKeyAccepted(secretKey: seq<byte>)
    ensures Authenticates(AuthLine(secretKey), secretKey) <==> IsTrimmed(secretKey)
  {
    AuthLineAccepted(secretKey, secretKey);
  }

  /** A server key with white space at either end accepts no chunk at all. */
  lemma UntrimmedKeyRejectsAll(chunk: seq<byte>, secretKey: seq<byte>)
    requires !IsTrimmed(secretKey)
    ensures !Authenticates(chunk, secretKey)
  {
  }

  /** The request the client writes is read back as the name it sent exactly
      when the name is non-empty and does not end with white space. */
  lemma MetadataRoundTrip(filename: seq<byte>)
    ensures ParseMetadata(MetadataLine(filename)) == Some(filename)
        <==> filename != [] && TrailingSpace(filename) == 0
  {
    var line := UPLOAD_VERB + [SPACE] + filename;
    assert MetadataLine(filename) == line + [LF];
    TrimSpaceIgnoresAsciiSpace(line, LF);
    VerbHasNoSpace();
    if filename != [] && TrailingSpace(filename) == 0 {
      TrailingSpaceAfterAscii(UPLOAD_VERB + [SPACE], filename);
      TrimLeftKeepsVisibleStart(line);
      assert IsTrimmed(line);
    }
  }

  /** Nothing marks where the request ends: when the request and the first
      file bytes arrive in one read, the bytes become part of the file name. */
  lemma MetadataAbsorbsData(filename: seq<byte>, data: seq<byte>)
    requires data != [] && TrailingSpace(data) == 0
    ensures ParseMetadata(MetadataLine(filename) + data) == Some(filename + [LF] + data)
  {
    var line := MetadataLine(filename) + data;
    VerbHasNoSpace();
    assert line == UPLOAD_VERB + [SPACE] + (filename + [LF] + data);
    assert line == (UPLOAD_VERB + [SPACE] + filename + [LF]) + data;
    TrailingSpaceAfterAscii(UPLOAD_VERB + [SPACE] + filename + [LF], data);
    TrimLeftKeepsVisibleStart(line);
    assert IsTrimmed(line);
  }

  /** The client recognises the success reply and not the failure reply. */
  lemma RepliesRecognised()
    ensures |AUTH_SUCCESS_REPLY| <= BUFFER_SIZE && |AUTH_FAILED_REPLY| <= BUFFER_SIZE
    ensures ClientAccepts(ReadResult(AUTH_SUCCESS_REPLY, Ok))
    ensures !ClientAccepts(ReadResult(AUTH_FAILED_REPLY, Ok))
    ensures !ClientAccepts(ReadResult(AUTH_SUCCESS_REPLY, Eof))
  {
    assert HasPrefix(AUTH_SUCCESS_REPLY[0..], SUCCESS_MARKER);
  }

  /** Wherever the success text stands in the reply, the client accepts a
      reply read without error that holds it, and only such a reply: one
      read with any error, or one shorter than the text, is refused. */
  lemma ClientAcceptsMarker(before: seq<byte>, after: seq<byte>, status: ReadStatus, response: ReadResult)
    requires |before + SUCCESS_MARKER + after| <= BUFFER_SIZE
    ensures ClientAccepts(ReadResult(before + SUCCESS_MARKER + after, status)) <==> status == Ok
    ensures |response.data| < |SUCCESS_MARKER| ==> !ClientAccepts(response)
  {
    var data := before + SUCCESS_MARKER + after;
    assert data[|before|..][..|SUCCESS_MARKER|] == SUCCESS_MARKER;
  }
}
