/**
 * The file-manager web server of the ESP8266 side: the request handlers
 * over the SPIFFS file store and the websocket reply channel. The async
 * HTTP server only dispatches to these handlers; here each handler takes
 * the request and returns every response it hands to `request->send`,
 * in order.
 */
module WebServer {
  import opened Wrappers
  import opened ArduinoString
  import opened Http
  import ContentType
  import FileList

  type Bytes = seq<bv8>

  /** The SPIFFS file system: a flat map from full names (such as `/index.html`) to contents. */
  type FileStore = map<string, Bytes>

  /** A websocket client, by its id. */
  type ClientId = nat

  /** A websocket data frame is either text or something else. */
  datatype Opcode = TextFrame | OtherFrame

  /** The events the websocket handler is called with. */
  datatype WsEvent = Connect | Disconnect | Error | Pong | Data(opcode: Opcode)

  /** `handleFileRead`'s first step: a directory path names its `index.html`. */
  function ResolvePath(path: string): (r: string)
    ensures EndsWith(path, "/") ==> r == path + "index.html"
    ensures !EndsWith(path, "/") ==> r == path
    ensures !EndsWith(r, "/")
  {
    if EndsWith(path, "/") then
      var r := path + "index.html";
      assert r[|r| - 1..] == "l";
      r
    else path
  }

  /** Resolving a resolved path changes nothing. */
  lemma ResolvePathIdempotent(path: string)
    ensures ResolvePath(ResolvePath(path)) == ResolvePath(path)
  {
  }

  /** `handleUpload`'s first step: the upload's filename gets a leading `/` if it has none. */
  function NormalizeName(filename: string): (r: string)
    ensures StartsWith(r, "/")
    ensures StartsWith(filename, "/") ==> r == filename
    ensures !StartsWith(filename, "/") ==> r == "/" + filename
  {
    if StartsWith(filename, "/") then filename else "/" + filename
  }

  /** Normalizing twice is normalizing once. */
  lemma NormalizeNameIdempotent(filename: string)
    ensures NormalizeName(NormalizeName(filename)) == NormalizeName(filename)
  {
  }

  /**
   * The store after one upload chunk: at offset 0 the file is opened with
   * "w" (created or truncated), otherwise with "a" (created if missing,
   * then appended to); the chunk is then written at its end.
   */
  function UploadChunk(files: FileStore, filename: string, index: nat, data: Bytes): (r: FileStore)
    ensures NormalizeName(filename) in r
    ensures index == 0 ==> r[NormalizeName(filename)] == data
    ensures index > 0 && NormalizeName(filename) in files ==>
      r[NormalizeName(filename)] == files[NormalizeName(filename)] + data
    ensures index > 0 && NormalizeName(filename) !in files ==> r[NormalizeName(filename)] == data
    ensures forall k :: k != NormalizeName(filename) ==> (k in r <==> k in files)
    ensures forall k :: k != NormalizeName(filename) && k in files ==> r[k] == files[k]
  {
    var name := NormalizeName(filename);
    var kept := if index == 0 || name !in files then [] else files[name];
    files[name := kept + data]
  }

  /** The bytes of a sequence of chunks, in order. */
  function Concat(chunks: seq<Bytes>): Bytes {
    if chunks == [] then [] else chunks[0] + Concat(chunks[1..])
  }

  /**
   * A whole chunked upload: each chunk arrives with `index` equal to the
   * number of bytes sent before it, starting from `offset`.
   */
  function UploadAll(files: FileStore, filename: string, chunks: seq<Bytes>, offset: nat): FileStore
    decreases |chunks|
  {
    if chunks == [] then files
    else UploadAll(UploadChunk(files, filename, offset, chunks[0]), filename, chunks[1..], offset + |chunks[0]|)
  }

  /**
   * Uploading chunks from `offset` leaves the target holding what it held
   * before (nothing, when `offset` is 0) followed by all the chunks, and
   * every other file as it was.
   */
  lemma {:induction false} UploadAllAppends(files: FileStore, filename: string, chunks: seq<Bytes>, offset: nat)
    requires chunks != []
    ensures var name := NormalizeName(filename);
      var r := UploadAll(files, filename, chunks, offset);
      var before := if offset == 0 || name !in files then [] else files[name];
      && name in r && r[name] == before + Concat(chunks)
      && (forall k :: k != name ==> (k in r <==> k in files))
      && (forall k :: k != name && k in files ==> r[k] == files[k])
    decreases |chunks|
  {
    var name := NormalizeName(filename);
    var next := UploadChunk(files, filename, offset, chunks[0]);
    if |chunks| > 1 {
      UploadAllAppends(next, filename, chunks[1..], offset + |chunks[0]|);
      var before := if offset == 0 || name !in files then [] else files[name];
      assert next[name] == before + chunks[0];
      if offset + |chunks[0]| == 0 {
        assert chunks[0] == [] && before == [];
      }
      assert Concat(chunks) == chunks[0] + Concat(chunks[1..]);
    }
    else {
      assert chunks[1..] == [];
      assert Concat(chunks) == chunks[0] + [];
    }
  }

  /** A complete upload from offset 0 makes the file's content exactly the uploaded bytes. */
  lemma UploadReplaces(files: FileStore, filename: string, chunks: seq<Bytes>)
    requires chunks != []
    ensures NormalizeName(filename) in UploadAll(files, filename, chunks, 0)
    ensures UploadAll(files, filename, chunks, 0)[NormalizeName(filename)] == Concat(chunks)
  {
    UploadAllAppends(files, filename, chunks, 0);
  }

  /** The texts a client receives when `cli::parse` answers its message with `replies`. */
  function Addressed(client: ClientId, replies: seq<string>): seq<(ClientId, string)> {
    seq(|replies|, i requires 0 <= i < |replies| => (client, replies[i]))
  }

  /** The server's state: the file store and the websocket client that `send` talks to. */
  class Server {
    var files: FileStore
    /** The client whose text message is being answered (`currentClient`, or none for `nullptr`). */
    var currentClient: Option<ClientId>
    /** Every text sent to a websocket client, in order. */
    var clientTexts: seq<(ClientId, string)>

    /** Between events no client is current, so `send` has no one to talk to. */
    ghost predicate Valid()
      reads this
    {
      currentClient.None?
    }

    constructor (initial: FileStore)
      ensures Valid() && files == initial && clientTexts == []
    {
      files := initial;
      currentClient := None;
      clientTexts := [];
    }

    /** `send`: text goes to the current client if there is one, and nowhere otherwise. */
    method Send(str: string)
      modifies this`clientTexts
      ensures clientTexts == old(clientTexts) + match currentClient
        case Some(c) => [(c, str)]
        case None => []
      ensures old(Valid()) ==> clientTexts == old(clientTexts)
    {
      if currentClient.Some? {
        clientTexts := clientTexts + [(currentClient.value, str)];
      }
    }

    /**
     * `wsEvent`: a text frame makes its sender the current client while
     * the command-line parser runs, then clears it. `replies` are the
     * strings the parser hands to its output callback, which passes each
     * on to `send`. Other events change nothing.
     */
    method OnWsEvent(client: ClientId, event: WsEvent, replies: seq<string>)
      requires Valid()
      modifies this`currentClient, this`clientTexts
      ensures Valid()
      ensures clientTexts == old(clientTexts) + if event == Data(TextFrame) then Addressed(client, replies) else []
    {
      if event == Data(TextFrame) {
        currentClient := Some(client);
        var i := 0;
        while i < |replies|
          invariant 0 <= i <= |replies|
          invariant currentClient == Some(client)
          invariant clientTexts == old(clientTexts) + Addressed(client, replies[..i])
        {
          Send(replies[i]);
          assert Addressed(client, replies[..i + 1]) == Addressed(client, replies[..i]) + [(client, replies[i])];
          i := i + 1;
        }
        assert replies[..i] == replies;
        currentClient := None;
      }
    }

    /**
     * `handleFileRead`: serve `path` (with `index.html` appended to a
     * directory path), preferring a stored `.gz` version sent with
     * `Content-Encoding: gzip`. The content type is chosen from the path
     * before `.gz` is added. Returns whether anything was served.
     */
    method HandleFileRead(path: string, req: Request) returns (found: bool, sent: seq<Response>)
      ensures var p := ResolvePath(path);
        var ct := ContentType.GetContentType(p, HasArg(req, "download"));
        && (found <==> (p + ".gz" in files || p in files))
        && (p + ".gz" in files ==> sent == [Response(200, ct, FileData(p + ".gz", files[p + ".gz"]), true)])
        && (p + ".gz" !in files && p in files ==> sent == [Response(200, ct, FileData(p, files[p]), false)])
        && (!found ==> sent == [])
    {
      var p := path;
      if EndsWith(p, "/") {
        p := p + "index.html";
      }
      var contentType := ContentType.GetContentType(p, HasArg(req, "download"));
      if p + ".gz" in files {
        p := p + ".gz";
        sent := [Response(200, contentType, FileData(p, files[p]), true)];
        found := true;
      } else if p in files {
        sent := [Response(200, contentType, FileData(p, files[p]), false)];
        found := true;
      } else {
        sent := [];
        found := false;
      }
    }

    /**
     * `handleFileDelete`: the first argument names the file. A missing file
     * is answered 404, yet the handler goes on to remove it and answer 200.
     */
    method HandleFileDelete(req: Request) returns (sent: seq<Response>)
      modifies this`files
      ensures ArgCount(req) == 0 ==> sent == [PlainReply(500, "BAD ARGS")] && files == old(files)
      ensures ArgCount(req) > 0 && ArgAt(req, 0) == "/" ==> sent == [PlainReply(500, "BAD PATH")] && files == old(files)
      ensures ArgCount(req) > 0 && ArgAt(req, 0) != "/" ==>
        && sent == (if ArgAt(req, 0) in old(files) then [] else [PlainReply(404, "FileNotFound")]) + [PlainReply(200, "")]
        && files == old(files) - {ArgAt(req, 0)}
    {
      if ArgCount(req) == 0 {
        return [PlainReply(500, "BAD ARGS")];
      }
      var path := ArgAt(req, 0);
      if path == "/" {
        return [PlainReply(500, "BAD PATH")];
      }
      sent := [];
      if path !in files {
        sent := sent + [PlainReply(404, "FileNotFound")];
      }
      files := files - {path};
      sent := sent + [PlainReply(200, "")];
    }

    /**
     * `handleFileCreate`: the first argument names a new, empty file.
     * `openOk` is whether SPIFFS manages to open it for writing.
     */
    method HandleFileCreate(req: Request, openOk: bool) returns (sent: seq<Response>)
      modifies this`files
      ensures ArgCount(req) == 0 ==> sent == [PlainReply(500, "BAD ARGS")] && files == old(files)
      ensures ArgCount(req) > 0 && ArgAt(req, 0) == "/" ==> sent == [PlainReply(500, "BAD PATH")] && files == old(files)
      ensures ArgCount(req) > 0 && ArgAt(req, 0) != "/" && ArgAt(req, 0) in old(files) ==>
        sent == [PlainReply(500, "FILE EXISTS")] && files == old(files)
      ensures ArgCount(req) > 0 && ArgAt(req, 0) != "/" && ArgAt(req, 0) !in old(files) && !openOk ==>
        sent == [PlainReply(500, "BAD ARGS")] && files == old(files)
      ensures ArgCount(req) > 0 && ArgAt(req, 0) != "/" && ArgAt(req, 0) !in old(files) && openOk ==>
        sent == [PlainReply(200, "")] && files == old(files)[ArgAt(req, 0) := []]
    {
      if ArgCount(req) == 0 {
        return [PlainReply(500, "BAD ARGS")];
      }
      var path := ArgAt(req, 0);
      if path == "/" {
        return [PlainReply(500, "BAD PATH")];
      }
      if path in files {
        return [PlainReply(500, "FILE EXISTS")];
      }
      if openOk {
        files := files[path := []];
      } else {
        return [PlainReply(500, "BAD ARGS")];
      }
      sent := [PlainReply(200, "")];
    }

    /**
     * `handleFileList`: needs a `dir` argument; `entries` are the names
     * `SPIFFS.openDir` yields for it, in the file system's order.
     */
    method HandleFileList(req: Request, entries: seq<string>) returns (sent: seq<Response>)
      ensures !HasArg(req, "dir") ==> sent == [PlainReply(500, "BAD ARGS")]
      ensures HasArg(req, "dir") ==> sent == [Response(200, "text/json", Text(FileList.Listing(entries)), false)]
    {
      if !HasArg(req, "dir") {
        return [PlainReply(500, "BAD ARGS")];
      }
      var output := FileList.BuildListing(entries);
      sent := [Response(200, "text/json", Text(output), false)];
    }

    /**
     * `handleUpload`: one chunk of a file upload; `index` is the chunk's
     * byte offset. The `final` flag only closes the file.
     */
    method HandleUpload(filename: string, index: nat, data: Bytes, final: bool)
      modifies this`files
      ensures files == UploadChunk(old(files), filename, index, data)
    {
      var name := filename;
      if !StartsWith(name, "/") {
        name := "/" + name;
      }
      if index == 0 {
        files := files[name := []];
      } else if name !in files {
        files := files[name := []];
      }
      files := files[name := files[name] + data];
    }
  }

  /** A compressed `x.html` is served from `x.html.gz`, gzip-encoded, yet typed `text/html`. */
  method ServeCompressedHtml(s: Server, stem: string) returns (found: bool, sent: seq<Response>)
    requires stem + ".html.gz" in s.files
    ensures found && |sent| == 1
    ensures sent[0].code == 200
    ensures sent[0].contentType == "text/html" && sent[0].gzip
    ensures sent[0].content == FileData(stem + ".html.gz", s.files[stem + ".html.gz"])
  {
    var p := stem + ".html";
    EndsWithConcat(stem, ".html", "/");
    assert ResolvePath(p) == p;
    assert p + ".gz" == stem + ".html.gz";
    ContentType.HtmlSuffixes(stem);
    found, sent := s.HandleFileRead(p, Request([]));
  }
}
