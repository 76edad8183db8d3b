/** The program's entry: choosing the role from the command line
    (main.go:309-320) and, in the client role, sending one file or every
    file under a directory (sendFile, main.go:189-215). */
module Launcher {
  import opened Wire
  import opened Text
  import opened Protocol
  import opened Client

  /** What the program does with its `-i`, `-p` and `-f` values. */
  datatype Role =
    | ShowUsage
    | RunServer(address: seq<byte>, secretKey: seq<byte>)
    | SendPath(address: seq<byte>, path: seq<byte>, secretKey: seq<byte>)

  /** Without a password the program only prints its usage; with a path it
      sends, otherwise it serves; the password is the key either way. */
  function Dispatch(address: seq<byte>, password: seq<byte>, filePath: seq<byte>): (role: Role)
    ensures role.ShowUsage? <==> password == []
    ensures role.RunServer? <==> password != [] && filePath == []
    ensures role.SendPath? <==> password != [] && filePath != []
    ensures !role.ShowUsage? ==> role.address == address && role.secretKey == password
    ensures role.SendPath? ==> role.path == filePath
  {
    if password == [] then ShowUsage
    else if filePath != [] then SendPath(address, filePath, password)
    else RunServer(address, password)
  }

  /** A server never runs with an empty key, so a first chunk that is empty
      or only white space never gets a client in. */
  lemma BlankChunkNeverAdmitted(address: seq<byte>, password: seq<byte>, chunk: seq<byte>)
    requires Dispatch(address, password, []).RunServer?
    requires TrimSpace(chunk) == []
    ensures !Authenticates(chunk, Dispatch(address, password, []).secretKey)
  {
  }

  /** A password with white space at either end makes a server that lets
      nobody in, the program's own client with the same password included;
      with a trimmed password that client's key line is accepted. */
  lemma SamePasswordBothEnds(address: seq<byte>, password: seq<byte>, filePath: seq<byte>, chunk: seq<byte>)
    requires filePath != [] && password != []
    ensures Dispatch(address, password, []).secretKey == Dispatch(address, password, filePath).secretKey
    ensures Authenticates(AuthLine(password), Dispatch(address, password, []).secretKey) <==> IsTrimmed(password)
    ensures !IsTrimmed(password) ==> !Authenticates(chunk, Dispatch(address, password, []).secretKey)
  {
    SameKeyAccepted(password);
  }

  /** One call of the filepath.Walk callback: the path, whether it is a
      directory, and whether Walk passed an error for it. */
  datatype Visit = Visit(path: seq<byte>, isDir: bool, failed: bool)

  /** What os.Stat says of the `-f` path: it cannot be read, it is not a
      directory, or it is a directory that filepath.Walk visits in the
      given order (lexical, depth first, the directory itself first). */
  datatype Target = Unreachable | Single(path: seq<byte>) | Directory(walk: seq<Visit>)

  /** The callback uploads a visited path exactly when Walk passed no error
      for it and it is not a directory. */
  predicate Sendable(v: Visit) {
    !v.failed && !v.isDir
  }

  /** The paths the callback uploads, in the order Walk visits them. */
  function WalkFiles(walk: seq<Visit>): (files: seq<seq<byte>>)
    ensures |files| <= |walk|
    decreases |walk|
  {
    if walk == [] then []
    else
      var last := walk[|walk| - 1];
      var earlier := WalkFiles(walk[..|walk| - 1]);
      if Sendable(last) then earlier + [last.path] else earlier
  }

  /** Walk visited `path` and the callback would upload it. */
  predicate VisitedFile(walk: seq<Visit>, path: seq<byte>) {
    exists j :: 0 <= j < |walk| && Sendable(walk[j]) && walk[j].path == path
  }

  /** The positions in the walk of the visits the callback uploads, in order. */
  function SendablePositions(walk: seq<Visit>): (js: seq<nat>)
    decreases |walk|
  {
    if walk == [] then []
    else
      var earlier := SendablePositions(walk[..|walk| - 1]);
      if Sendable(walk[|walk| - 1]) then earlier + [|walk| - 1] else earlier
  }

  /** The walk uploads exactly its sendable visits, each once, in the order
      Walk visits them: the k-th path uploaded is the path of the k-th
      sendable visit, the positions of those visits increase strictly, and
      every sendable visit is among them. */
  lemma WalkFilesExactly(walk: seq<Visit>)
    ensures var js := SendablePositions(walk);
      && |js| == |WalkFiles(walk)|
      && (forall k :: 0 <= k < |js| ==> js[k] < |walk| && Sendable(walk[js[k]]) && WalkFiles(walk)[k] == walk[js[k]].path)
      && (forall k, l :: 0 <= k < l < |js| ==> js[k] < js[l])
      && (forall j :: 0 <= j < |walk| && Sendable(walk[j]) ==> j in js)
    ensures forall k :: 0 <= k < |WalkFiles(walk)| ==> VisitedFile(walk, WalkFiles(walk)[k])
    ensures forall j :: 0 <= j < |walk| && Sendable(walk[j]) ==> walk[j].path in WalkFiles(walk)
  {
    var js := SendablePositions(walk);
    var files := WalkFiles(walk);
    PositionsName(walk);
    PositionsIncrease(walk);
    PositionsCover(walk);
    forall k | 0 <= k < |files|
      ensures VisitedFile(walk, files[k])
    {
      assert walk[js[k]].path == files[k];
    }
    forall j | 0 <= j < |walk| && Sendable(walk[j])
      ensures walk[j].path in files
    {
      var k :| 0 <= k < |js| && js[k] == j;
      assert files[k] == walk[j].path;
    }
  }

  /** The k-th path uploaded is the path of the visit at the k-th position. */
  lemma {:induction false} PositionsName(walk: seq<Visit>)
    ensures |SendablePositions(walk)| == |WalkFiles(walk)|
    ensures forall k :: 0 <= k < |SendablePositions(walk)| ==>
      var j := SendablePositions(walk)[k];
      j < |walk| && Sendable(walk[j]) && WalkFiles(walk)[k] == walk[j].path
    decreases |walk|
  {
    if walk != [] {
      var earlier := walk[..|walk| - 1];
      PositionsName(earlier);
      assert forall j :: 0 <= j < |earlier| ==> earlier[j] == walk[j];
    }
  }

  /** The positions increase strictly. */
  lemma {:induction false} PositionsIncrease(walk: seq<Visit>)
    ensures forall k :: 0 <= k < |SendablePositions(walk)| ==> SendablePositions(walk)[k] < |walk|
    ensures forall k, l :: 0 <= k < l < |SendablePositions(walk)| ==> SendablePositions(walk)[k] < SendablePositions(walk)[l]
    decreases |walk|
  {
    if walk != [] {
      PositionsIncrease(walk[..|walk| - 1]);
    }
  }

  /** Every sendable visit has its position among them. */
  lemma {:induction false} PositionsCover(walk: seq<Visit>)
    ensures forall j :: 0 <= j < |walk| && Sendable(walk[j]) ==> j in SendablePositions(walk)
    decreases |walk|
  {
    if walk != [] {
      var earlier := walk[..|walk| - 1];
      PositionsCover(earlier);
      assert forall j :: 0 <= j < |earlier| ==> earlier[j] == walk[j];
    }
  }

  /** The files sendFile uploads, in order. */
  function FilesToSend(target: Target): (files: seq<seq<byte>>)
    ensures target.Unreachable? ==> files == []
    ensures target.Single? ==> files == [target.path]
    ensures target.Directory? ==> files == WalkFiles(target.walk)
  {
    match target
    case Unreachable => []
    case Single(path) => [path]
    case Directory(walk) => WalkFiles(walk)
  }

  /** The paths uploaded for the first `i` visits come first among all of them. */
  lemma {:induction false} WalkFilesPrefix(walk: seq<Visit>, i: nat)
    requires i <= |walk|
    ensures WalkFiles(walk[..i]) <= WalkFiles(walk)
    decreases |walk|
  {
    if i < |walk| {
      var earlier := walk[..|walk| - 1];
      WalkFilesPrefix(earlier, i);
      assert earlier[..i] == walk[..i];
    } else {
      assert walk[..i] == walk;
    }
  }

  /** One more upload, of the next path, keeps the results in step with the paths. */
  lemma UploadsExtend(secretKey: seq<byte>, envs: nat -> ClientEnv, results: seq<ClientResult>,
                      files: seq<seq<byte>>, r: ClientResult, path: seq<byte>)
    requires |results| == |files|
    requires forall k :: 0 <= k < |results| ==> results[k] == Upload(secretKey, files[k], envs(k))
    requires r == Upload(secretKey, path, envs(|results|))
    ensures forall k :: 0 <= k < |results| + 1 ==> (results + [r])[k] == Upload(secretKey, (files + [path])[k], envs(k))
  {
  }

  /** Uploads of the first files of a list are its first uploads. */
  lemma UploadsPrefix(secretKey: seq<byte>, envs: nat -> ClientEnv, results: seq<ClientResult>,
                      files: seq<seq<byte>>, all: seq<seq<byte>>)
    requires |results| == |files| && files <= all
    requires forall k :: 0 <= k < |results| ==> results[k] == Upload(secretKey, files[k], envs(k))
    ensures |results| <= |all|
    ensures forall k :: 0 <= k < |results| ==> results[k] == Upload(secretKey, all[k], envs(k))
  {
    assert forall k :: 0 <= k < |files| ==> files[k] == all[k];
  }

  /** One more visit adds its path to the uploads when it is sendable. */
  lemma WalkFilesStep(walk: seq<Visit>, i: nat, next: nat)
    requires i < |walk| && next == i + 1
    ensures WalkFiles(walk[..next]) == WalkFiles(walk[..i]) + if Sendable(walk[i]) then [walk[i].path] else []
  {
    assert walk[..next][..i] == walk[..i];
  }

  /** sendFile: one sendSingleFile per file, in order, each with its own
      connection; `envs(k)` is the world the k-th upload meets. A failed
      upload does not stop the ones after it, but an upload that panicked
      ends the program, and no upload follows it. */
  method SendFile(target: Target, secretKey: seq<byte>, envs: nat -> ClientEnv) returns (results: seq<ClientResult>)
    ensures |results| <= |FilesToSend(target)|
    ensures forall k :: 0 <= k < |results| ==> results[k] == Upload(secretKey, FilesToSend(target)[k], envs(k))
    ensures forall k :: 0 <= k < |results| - 1 ==> results[k].end != Panicked
    ensures |results| < |FilesToSend(target)| ==> results != [] && results[|results| - 1].end == Panicked
  {
    match target
    case Unreachable =>
      results := [];
    case Single(path) =>
      var r := SendSingleFile(secretKey, path, envs(0));
      results := [r];
    case Directory(walk) =>
      results := SendWalk(walk, secretKey, envs);
  }

  /** The filepath.Walk branch of sendFile: the callback uploads each
      sendable visit as it comes, until an upload panics. */
  method SendWalk(walk: seq<Visit>, secretKey: seq<byte>, envs: nat -> ClientEnv) returns (results: seq<ClientResult>)
    ensures |results| <= |WalkFiles(walk)|
    ensures forall k :: 0 <= k < |results| ==> results[k] == Upload(secretKey, WalkFiles(walk)[k], envs(k))
    ensures forall k :: 0 <= k < |results| - 1 ==> results[k].end != Panicked
    ensures |results| < |WalkFiles(walk)| ==> results != [] && results[|results| - 1].end == Panicked
  {
    results := [];
    ghost var files: seq<seq<byte>> := [];
    var i := 0;
    assert walk[..0] == [];
    while i < |walk|
      invariant i <= |walk| && files == WalkFiles(walk[..i])
      invariant |results| == |files|
      invariant forall k :: 0 <= k < |results| ==> results[k] == Upload(secretKey, files[k], envs(k))
      invariant forall k :: 0 <= k < |results| ==> results[k].end != Panicked
    {
      WalkFilesStep(walk, i, i + 1);
      var visit := walk[i];
      if !visit.failed && !visit.isDir {
        var r := SendSingleFile(secretKey, visit.path, envs(|results|));
        UploadsExtend(secretKey, envs, results, files, r, visit.path);
        results := results + [r];
        files := files + [visit.path];
        if r.end == Panicked {
          WalkFilesPrefix(walk, i + 1);
          UploadsPrefix(secretKey, envs, results, files, WalkFiles(walk));
          return;
        }
      }
      i := i + 1;
    }
    assert walk[..i] == walk;
  }
}
