/** The `send-message` command of `cmd/sendMessage.go`: reading JSON
    payloads from one file or from the `.json` files of a directory, then
    resolving the target queue.

    The command's handler collects the payloads but never hands them to the
    queue service: after resolving the queue it only prints the queue URL.
    `RunSendMessages` returns that URL as its result. */
module SendMessage {
  import opened Outcomes
  import opened Bytes
  import opened Json
  import opened Files
  import Seqs
  import Sqs

  /** One payload and the file it came from. */
  datatype JsonInfo = JsonInfo(message: Message, fileName: string)

  /** `json.Unmarshal` into an object: the object, or why the bytes are not one. */
  type Decoder = seq<byte> -> Result<Message>

  // ---------------------------------------------------------------------
  // parseFile

  /** The body of the line loop: each scanned line decodes to one payload,
      in order, and the first line that does not decode abandons the file. */
  function ParseTokens(tokens: seq<seq<byte>>, path: string, decode: Decoder): (r: Result<seq<JsonInfo>>)
    ensures r.Ok? <==> forall i | 0 <= i < |tokens| :: decode(tokens[i]).Ok?
    ensures r.Ok? ==> (|r.value| == |tokens| &&
      forall i | 0 <= i < |tokens| :: r.value[i] == JsonInfo(decode(tokens[i]).value, path))
    ensures r.Err? ==> exists k | 0 <= k < |tokens| ::
      decode(tokens[k]) == Err(r.error) && forall j | 0 <= j < k :: decode(tokens[j]).Ok?
  {
    if |tokens| == 0 then Ok([])
    else match decode(tokens[0])
      case Err(e) => Err(e)
      case Ok(m) =>
        match ParseTokens(tokens[1..], path, decode)
        case Err(e) =>
          assert forall j | 1 <= j < |tokens| :: tokens[j] == tokens[1..][j - 1];
          Err(e)
        case Ok(rest) =>
          assert forall j | 1 <= j < |tokens| :: tokens[j] == tokens[1..][j - 1];
          Ok([JsonInfo(m, path)] + rest)
  }

  /** The line-mode fallback: scan `h` line by line, decode every line, then
      report a scanner error if there was one. */
  function ScanAndParse(h: Handle, decode: Decoder): (r: Result<seq<JsonInfo>>)
    ensures h.node.RegularFile? ==> r == ParseTokens(Lines(Remaining(h)), h.path, decode)
    ensures h.node.Directory? ==> r == Err(ReadFailed(h.path))
  {
    var scan := ScanLines(h);
    match ParseTokens(scan.tokens, h.path, decode)
    case Err(e) => Err(e)
    case Ok(infos) => if scan.err.Some? then Err(scan.err.value) else Ok(infos)
  }

  /** Line mode on a handle still at the start of a file of CR-free,
      newline-terminated lines runs the line loop over exactly those lines. */
  lemma LineModeIsLineLoop(path: string, lines: seq<seq<byte>>, decode: Decoder)
    requires forall i | 0 <= i < |lines| :: Newline !in lines[i] && !EndsInCR(lines[i])
    ensures ScanAndParse(Handle(path, RegularFile(Terminated(lines)), 0), decode) == ParseTokens(lines, path, decode)
  {
    var h := Handle(path, RegularFile(Terminated(lines)), 0);
    assert Remaining(h) == Terminated(lines);
    LinesOfTerminated(lines);
  }

  /** Line mode on a handle still at the start of a JSON-lines file yields one
      payload per line, in line order, each tagged with the file's path. */
  lemma LineModeFromStart(path: string, lines: seq<seq<byte>>, decode: Decoder)
    requires forall i | 0 <= i < |lines| :: Newline !in lines[i] && !EndsInCR(lines[i])
    requires forall i | 0 <= i < |lines| :: decode(lines[i]).Ok?
    ensures var r := ScanAndParse(Handle(path, RegularFile(Terminated(lines)), 0), decode);
      r.Ok? && |r.value| == |lines| &&
      forall i | 0 <= i < |lines| :: r.value[i] == JsonInfo(decode(lines[i]).value, path)
  {
    LineModeIsLineLoop(path, lines, decode);
  }

  /** In line mode, a line that does not decode fails the whole file, even
      when every earlier line decodes. */
  lemma LineModeBadLine(path: string, lines: seq<seq<byte>>, decode: Decoder, k: int)
    requires forall i | 0 <= i < |lines| :: Newline !in lines[i] && !EndsInCR(lines[i])
    requires 0 <= k < |lines| && decode(lines[k]).Err?
    ensures ScanAndParse(Handle(path, RegularFile(Terminated(lines)), 0), decode).Err?
  {
    LineModeIsLineLoop(path, lines, decode);
    ParseTokensBadLine(lines, path, decode, k);
  }

  lemma ParseTokensBadLine(tokens: seq<seq<byte>>, path: string, decode: Decoder, k: int)
    requires 0 <= k < |tokens| && decode(tokens[k]).Err?
    ensures ParseTokens(tokens, path, decode).Err?
  {
    assert !decode(tokens[k]).Ok?;
  }

  /** `parseFile`. A whole-file decode is tried first. The fallback scanner
      reads from the same handle, which the whole-file read already left at
      its end: for a regular file the fallback therefore sees no lines and
      succeeds with no payloads, and for a directory (whose reads fail) it
      reports the read error. */
  function ParseFile(fs: FileSystem, path: string, decode: Decoder): (r: Result<seq<JsonInfo>>)
    ensures path !in fs ==> r == Err(PathNotExist(path))
    ensures r.Ok? ==> forall i | 0 <= i < |r.value| :: r.value[i].fileName == path
    ensures path in fs && fs[path].RegularFile? && decode(fs[path].content).Ok? ==>
      r == Ok([JsonInfo(decode(fs[path].content).value, path)])
    ensures path in fs && fs[path].RegularFile? && decode(fs[path].content).Err? ==>
      r == Ok([])
    ensures path in fs && fs[path].Directory? && decode([]).Err? ==>
      r == Err(ReadFailed(path))
  {
    match Open(fs, path)
    case Err(e) => Err(e)
    case Ok(h) =>
      var read := ReadAll(h);   // the read error is discarded, as in the source
      assert h.node.RegularFile? ==> read.data == h.node.content;
      match decode(read.data)
      case Ok(m) => Ok([JsonInfo(m, path)])
      case Err(_) => ScanAndParse(read.after, decode)
  }

  // ---------------------------------------------------------------------
  // Find

  /** A walk entry `Find` collects: its base name has extension `ext`. */
  predicate HasExt(v: WalkEvent, ext: string)
  {
    v.Visit? && Ext(v.name) == ext
  }

  /** The paths of the walk entries whose name has extension `ext`, in order. */
  function MatchingPaths(visits: seq<WalkEvent>, ext: string): seq<string>
  {
    Seqs.Map(Seqs.Filter(visits, v => HasExt(v, ext)), (v: WalkEvent) => v.path)
  }

  /** `Find`: the paths of visited entries whose name has extension `ext`,
      in walk order, directories included; a walk error ends the walk early
      and is swallowed, so the result is never an error. */
  function Find(walk: seq<WalkEvent>, ext: string): (r: Result<seq<string>>)
    ensures r.Ok?
    ensures r.value == MatchingPaths(Visits(walk), ext)
  {
    if |walk| == 0 || walk[0].WalkFailed? then Ok([])
    else
      var rest := Find(walk[1..], ext).value;
      var v := Visits(walk);
      assert v == [walk[0]] + Visits(walk[1..]);
      assert v[1..] == Visits(walk[1..]);
      if HasExt(walk[0], ext) then Ok([walk[0].path] + rest) else Ok(rest)
  }

  /** A visited entry with no walk error before it is found under its own
      extension, whether it is a file or a directory. */
  lemma FindMembership(walk: seq<WalkEvent>, j: int)
    requires 0 <= j < |walk| && walk[j].Visit?
    requires forall i | 0 <= i < j :: walk[i].Visit?
    ensures walk[j].path in Find(walk, Ext(walk[j].name)).value
  {
    var ext := Ext(walk[j].name);
    VisitsReach(walk, j);
    Seqs.MapFilterMember(Visits(walk), v => HasExt(v, ext), (v: WalkEvent) => v.path, j);
  }

  // ---------------------------------------------------------------------
  // Directory mode

  /** Parses one file into its payloads. */
  type FileParser = string -> Result<seq<JsonInfo>>

  /** The loop over found files: each is parsed in turn and the payloads are
      concatenated; the first file that fails ends the loop with its error. */
  function ParseEach(files: seq<string>, parse: FileParser): (r: Result<seq<JsonInfo>>)
    ensures r.Ok? <==> forall i | 0 <= i < |files| :: parse(files[i]).Ok?
  {
    if |files| == 0 then Ok([])
    else match parse(files[0])
      case Err(e) => Err(e)
      case Ok(infos) =>
        assert forall j | 1 <= j < |files| :: files[j] == files[1..][j - 1];
        match ParseEach(files[1..], parse)
        case Err(e) => Err(e)
        case Ok(rest) => Ok(infos + rest)
  }

  /** Every payload carries the name of the file it was parsed from. */
  ghost predicate TagsFileName(parse: FileParser)
  {
    forall p | parse(p).Ok? :: forall k | 0 <= k < |parse(p).value| :: parse(p).value[k].fileName == p
  }

  lemma {:induction false} ParseEachFileNames(files: seq<string>, parse: FileParser)
    requires TagsFileName(parse)
    ensures var r := ParseEach(files, parse);
      r.Ok? ==> forall i | 0 <= i < |r.value| :: r.value[i].fileName in files
  {
    if |files| > 0 && parse(files[0]).Ok? {
      ParseEachFileNames(files[1..], parse);
    }
  }

  /** A failed loop reports the error of the first file that fails; every
      file before it parsed. */
  lemma {:induction false} ParseEachFirstFailure(files: seq<string>, parse: FileParser)
    requires ParseEach(files, parse).Err?
    ensures exists k | 0 <= k < |files| ::
      parse(files[k]) == Err(ParseEach(files, parse).error) &&
      forall j | 0 <= j < k :: parse(files[j]).Ok?
  {
    if parse(files[0]).Ok? {
      ParseEachFirstFailure(files[1..], parse);
      var k :| 0 <= k < |files[1..]| &&
        parse(files[1..][k]) == Err(ParseEach(files[1..], parse).error) &&
        forall j | 0 <= j < k :: parse(files[1..][j]).Ok?;
      assert forall j | 1 <= j < k + 1 :: files[j] == files[1..][j - 1];
      assert parse(files[k + 1]) == Err(ParseEach(files, parse).error);
    } else {
      assert parse(files[0]) == Err(ParseEach(files, parse).error);
    }
  }

  /** Parsing two lists of files one after the other is parsing their
      concatenation: payloads come out in file order. */
  lemma {:induction false} ParseEachAppend(a: seq<string>, b: seq<string>, parse: FileParser)
    requires ParseEach(a, parse).Ok? && ParseEach(b, parse).Ok?
    ensures ParseEach(a + b, parse) == Ok(ParseEach(a, parse).value + ParseEach(b, parse).value)
  {
    var y := ParseEach(b, parse).value;
    if |a| == 0 {
      assert a + b == b;
      assert [] + y == y;
    } else {
      var ab := a + b;
      assert ab[1..] == a[1..] + b;
      assert ab[0] == a[0];
      ParseEachAppend(a[1..], b, parse);
      var infos := parse(a[0]).value;
      var x := ParseEach(a[1..], parse).value;
      assert infos + (x + y) == (infos + x) + y;
    }
  }

  /** A failure among the first files hides everything after them. */
  lemma {:induction false} ParseEachStopsAtFailure(a: seq<string>, b: seq<string>, parse: FileParser)
    requires ParseEach(a, parse).Err?
    ensures ParseEach(a + b, parse) == ParseEach(a, parse)
  {
    assert (a + b)[1..] == a[1..] + b;
    assert (a + b)[0] == a[0];
    if parse(a[0]).Ok? {
      ParseEachStopsAtFailure(a[1..], b, parse);
    }
  }

  /** `parseFile` over a fixed filesystem and decoder. */
  function FileParserOf(fs: FileSystem, decode: Decoder): FileParser
  {
    p => ParseFile(fs, p, decode)
  }

  lemma ParseFileTagsFileName(fs: FileSystem, decode: Decoder)
    ensures TagsFileName(FileParserOf(fs, decode))
  {
    forall p | FileParserOf(fs, decode)(p).Ok?
      ensures forall k | 0 <= k < |FileParserOf(fs, decode)(p).value| ::
        FileParserOf(fs, decode)(p).value[k].fileName == p
    {
      assert FileParserOf(fs, decode)(p) == ParseFile(fs, p, decode);
    }
  }

  /** Directory mode: the loop over found files with `parseFile` as parser. */
  function ParseAll(fs: FileSystem, files: seq<string>, decode: Decoder): (r: Result<seq<JsonInfo>>)
    ensures r.Ok? <==> forall i | 0 <= i < |files| :: ParseFile(fs, files[i], decode).Ok?
    ensures r.Ok? ==> forall i | 0 <= i < |r.value| :: r.value[i].fileName in files
  {
    var parse := FileParserOf(fs, decode);
    assert forall i | 0 <= i < |files| :: parse(files[i]) == ParseFile(fs, files[i], decode);
    ParseFileTagsFileName(fs, decode);
    ParseEachFileNames(files, parse);
    var r := ParseEach(files, parse);
    assert r.Ok? ==> forall i | 0 <= i < |r.value| :: r.value[i].fileName in files;
    r
  }

  // ---------------------------------------------------------------------
  // RunSendMessages

  /** Where the payloads come from. */
  datatype Input = FromFile(path: string) | FromDirectory(path: string)

  /** Exactly one of the two flags must be given. */
  function ValidateInput(file: string, directory: string): (r: Result<Input>)
    ensures r.Ok? <==> (file == "") != (directory == "")
    ensures file == "" && directory == "" ==> r == Err(NoInputGiven)
    ensures file != "" && directory != "" ==> r == Err(BothInputsGiven)
    ensures r.Ok? ==> (r.value.FromFile? <==> file != "")
    ensures r.Ok? && r.value.FromFile? ==> r.value.path == file
    ensures r.Ok? && r.value.FromDirectory? ==> r.value.path == directory
  {
    if file == "" && directory == "" then Err(NoInputGiven)
    else if file != "" && directory != "" then Err(BothInputsGiven)
    else if file != "" then Ok(FromFile(file))
    else Ok(FromDirectory(directory))
  }

  /** The extension directory mode looks for. */
  const JsonExt := ".json"

  /** Payload collection: the path must exist and be of the kind the flag
      asks for; a file is parsed on its own, a directory's `.json` entries
      are parsed in walk order. `walk` is the directory's traversal. */
  function CollectMessages(fs: FileSystem, walk: seq<WalkEvent>, input: Input, decode: Decoder): (r: Result<seq<JsonInfo>>)
    ensures input.path !in fs ==> r == Err(PathNotExist(input.path))
    ensures input.FromFile? && input.path in fs && fs[input.path].Directory? ==> r == Err(PathIsDirectory)
    ensures input.FromDirectory? && input.path in fs && fs[input.path].RegularFile? ==> r == Err(PathIsNotDirectory)
    ensures input.FromFile? && input.path in fs && fs[input.path].RegularFile? ==>
      r == ParseFile(fs, input.path, decode)
    ensures input.FromDirectory? && input.path in fs && fs[input.path].Directory? ==>
      r == ParseAll(fs, MatchingPaths(Visits(walk), JsonExt), decode)
  {
    match Stat(fs, input.path)
    case Err(e) => Err(e)
    case Ok(isDir) =>
      match input
      case FromFile(p) => if isDir then Err(PathIsDirectory) else ParseFile(fs, p, decode)
      case FromDirectory(p) =>
        if !isDir then Err(PathIsNotDirectory)
        else
          ParseAll(fs, Find(walk, JsonExt).value, decode)
  }

  /** The queue target: a string that parses as a request URI is used as it
      is; anything else is looked up by name, once, and a failed lookup
      fails the run. `parseRequestUri` gives the parsed URI's text. */
  function ResolveQueue(svc: Sqs.Service, queueName: string,
                        parseRequestUri: string -> Option<string>): (r: Sqs.Traced<Result<string>>)
    ensures r.calls == [] <==> parseRequestUri(queueName).Some?
    ensures r.calls != [] ==> r.calls == [Sqs.GetQueueUrlCall(queueName)]
    ensures parseRequestUri(queueName).Some? ==> r.result == Ok(parseRequestUri(queueName).value)
    ensures parseRequestUri(queueName).None? ==> r.result == svc.urlOf(queueName)
  {
    match parseRequestUri(queueName)
    case Some(url) => Sqs.Traced(Ok(url), [])
    case None => Sqs.Traced(svc.urlOf(queueName), [Sqs.GetQueueUrlCall(queueName)])
  }

  /** The command handler. Input problems end the run before any remote
      call; otherwise the queue is resolved and its URL is the result. The
      only remote call ever made is the name lookup: no message is sent. */
  function RunSendMessages(fs: FileSystem, walk: seq<WalkEvent>, file: string, directory: string,
                           queueName: string, decode: Decoder, parseRequestUri: string -> Option<string>,
                           svc: Sqs.Service): (run: Sqs.Traced<Result<string>>)
    ensures |run.calls| <= 1
    ensures forall c | c in run.calls :: c == Sqs.GetQueueUrlCall(queueName)
    ensures forall c | c in run.calls :: !c.SendMessageBatchCall?
    ensures ValidateInput(file, directory).Err? ==>
      run == Sqs.Traced(Err(ValidateInput(file, directory).error), [])
    ensures ValidateInput(file, directory).Ok? &&
            CollectMessages(fs, walk, ValidateInput(file, directory).value, decode).Err? ==>
      run == Sqs.Traced(Err(CollectMessages(fs, walk, ValidateInput(file, directory).value, decode).error), [])
    ensures ValidateInput(file, directory).Ok? &&
            CollectMessages(fs, walk, ValidateInput(file, directory).value, decode).Ok? ==>
      run == ResolveQueue(svc, queueName, parseRequestUri)
  {
    match ValidateInput(file, directory)
    case Err(e) => Sqs.Traced(Err(e), [])
    case Ok(input) =>
      match CollectMessages(fs, walk, input, decode)
      case Err(e) => Sqs.Traced(Err(e), [])
      case Ok(_) => ResolveQueue(svc, queueName, parseRequestUri)
  }
}
