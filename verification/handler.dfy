/** The Netlify function that stores a survey-score file in the repository and
    records it in the index `data/survey-scores.json`, as one pure function from
    the request and the state of the repository to the response, the new state,
    and the calls made to the contents API. */
module UploadHandler {
  import opened Optional
  import opened Json
  import opened JsonPrint
  import opened JsonParse
  import opened Store
  import opened Derive

  /** `GITHUB_USER`, `GITHUB_REPO` and `GITHUB_BRANCH` from the environment. */
  datatype Config = Config(owner: string, repo: string, branch: Option<string>)

  /** `process.env.GITHUB_BRANCH || 'main'`. */
  function Branch(cfg: Config): (b: string)
    ensures b != []
    ensures cfg.branch.Some? && cfg.branch.value != [] ==> b == cfg.branch.value
    ensures cfg.branch.None? || cfg.branch.value == [] ==> b == "main"
  {
    if cfg.branch.Some? && cfg.branch.value != [] then cfg.branch.value else "main"
  }

  datatype Request = Request(httpMethod: string, body: string)

  /** `Date.now()` and `new Date().toISOString()`, read once each. */
  datatype Clock = Clock(now: nat, iso: string)

  /** Failures of the remote calls that the state of the repository does not decide:
      the upload, the first index read (which the handler swallows), the sha read,
      and the index write, each failing with the given message. */
  datatype Faults = Faults(upload: Option<string>, indexRead: bool, shaRead: Option<string>, indexWrite: Option<string>)

  const NoFaults: Faults := Faults(None, false, None, None)

  /** The contents-API calls the handler makes, in order. */
  datatype Call =
    | Fetch(path: string)
    | Write(path: string, message: string, content: Option<string>, sha: Option<nat>)

  /** A response body: plain text, or a value the handler passes to `JSON.stringify`. */
  datatype Body = Plain(text: string) | Printed(value: Json)

  /** The text sent for a body. */
  function BodyText(b: Body): string {
    match b
    case Plain(t) => t
    case Printed(v) => Stringify(v, "")
  }

  datatype Response = Response(statusCode: nat, body: Body, headers: seq<(string, string)>)

  /** What makes the handler answer 500. */
  datatype Failure =
    | BadBody                 // `JSON.parse(event.body)` throws
    | NullBody                // the body is `null`, so destructuring it throws
    | NotText(name: string)   // `fileName` or `file` is not a string, so `.split` throws
    | NoPrimitive             // `typeMap[semester]` cannot turn the semester into a key
    | NotAList(index: Json)   // the parsed index is not an array, so `.push` throws
    | Refused(why: Rejection) // a write is refused
    | FetchFailed(message: string)

  datatype Outcome = Outcome(response: Response, repo: Repo, calls: seq<Call>)

  /** How the handler decides that the index exists and its write needs a sha: by
      comparing the text it read with `"[]"` (as the handler does), or by whether
      the read found a file. */
  datatype ShaPolicy = Sentinel | FetchResult

  /** The four members the handler requires, as found in the body. */
  datatype Fields = Fields(year: Json, semester: Json, file: Json, fileName: Json)

  const ErrorPrefix: string := "Lỗi upload bảng điểm khảo sát: "
  const UploadMessage: string := "Upload survey scores: "
  const UpdateMessage: string := "Update survey scores metadata"
  const CreateMessage: string := "Create survey scores metadata"

  /** `err.message` for each failure. The texts of the runtime's and GitHub's own
      errors are representative, not exact. */
  function Message(f: Failure): string {
    match f
    case BadBody => "Unexpected token in JSON"
    case NullBody => "Cannot destructure property 'year' of 'body' as it is null."
    case NotText(name) => name + ".split is not a function"
    case NoPrimitive => "Cannot convert object to primitive value"
    case NotAList(v) =>
      if v.JNull? then "Cannot read properties of null (reading 'push')" else "surveyScores.push is not a function"
    case Refused(MissingContent) => "Invalid request.\n\n\"content\" wasn't supplied."
    case Refused(ShaRequired) => "Invalid request.\n\n\"sha\" wasn't supplied."
    case Refused(ShaMismatch) => "data/survey-scores.json does not match"
    case Refused(Remote(m)) => m
    case FetchFailed(m) => m
  }

  /** A response body holding a single member. */
  function ErrorBody(text: string): Body {
    Printed(JObj([Field("error", JStr(text))]))
  }

  function SuccessBody(entry: Json): Body {
    Printed(JObj([Field("success", JBool(true)), Field("entry", entry)]))
  }

  const MethodNotAllowed: Response := Response(405, Plain("Method Not Allowed"), [])
  const MissingFields: Response := Response(400, ErrorBody("Missing required fields"), [])

  function ServerError(f: Failure): Response {
    Response(500, ErrorBody(ErrorPrefix + Message(f)), [])
  }

  function Fail(f: Failure, repo: Repo, calls: seq<Call>): Outcome {
    Outcome(ServerError(f), repo, calls)
  }

  /** `!year || !semester || !file || !fileName`, negated: the four members when all are truthy. */
  function Required(body: Json): (r: Option<Fields>)
    ensures r.Some? <==>
      Present(Member(body, "year")) && Present(Member(body, "semester"))
      && Present(Member(body, "file")) && Present(Member(body, "fileName"))
    ensures r.Some? ==>
      Member(body, "year") == Some(r.value.year) && Member(body, "semester") == Some(r.value.semester)
      && Member(body, "file") == Some(r.value.file) && Member(body, "fileName") == Some(r.value.fileName)
  {
    var year, semester, file, fileName :=
      Member(body, "year"), Member(body, "semester"), Member(body, "file"), Member(body, "fileName");
    if Present(year) && Present(semester) && Present(file) && Present(fileName) then
      Some(Fields(year.value, semester.value, file.value, fileName.value))
    else None
  }

  /** Sending one write; `fault` makes the call fail however the store would answer. */
  function Send(repo: Repo, fault: Option<string>, call: Call): (r: PutResult)
    requires call.Write?
    ensures fault.Some? ==> r == Rejected(Remote(fault.value))
    ensures fault.None? ==> r == Put(repo, call.path, call.message, call.content, call.sha)
  {
    if fault.Some? then Rejected(Remote(fault.value))
    else Put(repo, call.path, call.message, call.content, call.sha)
  }

  /** The index text the first read yields: `"[]"` when the read fails or finds nothing. */
  function IndexText(repo: Repo, readFails: bool): (text: string)
    ensures !readFails && Get(repo, IndexPath).Some? ==> text == Get(repo, IndexPath).value.content
    ensures readFails || Get(repo, IndexPath).None? ==> text == "[]"
  {
    if readFails || IndexPath !in repo.files then "[]" else repo.files[IndexPath].content
  }

  /** `JSON.parse(metadataContent)`, or `[]` when that throws. The text `[]` the
      handler starts from is read directly as the empty list. */
  function Previous(text: string): (v: Json)
    ensures WellFormed(v)
  {
    if text == "[]" then JArr([])
    else
      match Parse(text)
      case None => JArr([])
      case Some(v) => v
  }

  /** `exports.handler` with the given way of deciding whether the index exists. */
  function Run(cfg: Config, req: Request, clock: Clock, faults: Faults, repo: Repo, policy: ShaPolicy): (o: Outcome)
    ensures o.response.statusCode == 405 <==> req.httpMethod != "POST"
    ensures req.httpMethod != "POST" ==> o == Outcome(MethodNotAllowed, repo, [])
    ensures o.response.statusCode in {200, 400, 405, 500}
    ensures o.repo != repo ==> o.calls != []
  {
    if req.httpMethod != "POST" then Outcome(MethodNotAllowed, repo, [])
    else Posted(cfg, req.body, clock, faults, repo, policy)
  }

  /** A POST request: parse the body, check the four members, then upload. */
  function Posted(cfg: Config, text: string, clock: Clock, faults: Faults, repo: Repo, policy: ShaPolicy): (o: Outcome)
    ensures o.response.statusCode == 200 || o.response.statusCode == 400 || o.response.statusCode == 500
    ensures o.repo != repo ==> o.calls != []
  {
    match Parse(text)
    case None => Fail(BadBody, repo, [])
    case Some(body) =>
      if body.JNull? then Fail(NullBody, repo, [])
      else
        match Required(body)
        case None => Outcome(MissingFields, repo, [])
        case Some(fs) => Upload(cfg, fs, clock, faults, repo, policy)
  }

  /** The handler as written. */
  function Handle(cfg: Config, req: Request, clock: Clock, faults: Faults, repo: Repo): (o: Outcome)
    ensures o.response.statusCode == 405 <==> req.httpMethod != "POST"
    ensures o.response.statusCode in {200, 400, 405, 500}
    ensures o.repo != repo ==> o.calls != []
  {
    Run(cfg, req, clock, faults, repo, Sentinel)
  }

  /** The handler with the existence test the code evidently intends. */
  function HandleCorrected(cfg: Config, req: Request, clock: Clock, faults: Faults, repo: Repo): Outcome {
    Run(cfg, req, clock, faults, repo, FetchResult)
  }

  /** The upload path of a request with a file name. */
  function PathOf(fileName: string, clock: Clock): string {
    UploadPath(clock.now, Extension(fileName))
  }

  /** The write that stores the uploaded file. */
  function UploadCall(fileName: string, file: string, clock: Clock): (c: Call)
    ensures c.Write? && c.sha.None?
    ensures c.path == PathOf(fileName, clock) && c.content == Payload(file)
  {
    Write(PathOf(fileName, clock), UploadMessage + fileName, Payload(file), None)
  }

  /** The handler after its field check (functions/upload-survey-scores.js, lines 16 to 111),
      once the four members are known to be truthy. */
  function Upload(cfg: Config, fs: Fields, clock: Clock, faults: Faults, repo: Repo, policy: ShaPolicy): (o: Outcome)
    ensures o.response.statusCode == 200 || o.response.statusCode == 500
    ensures o.repo != repo ==> o.calls != []
  {
    if !fs.fileName.JStr? then Fail(NotText("fileName"), repo, [])
    else if !fs.file.JStr? then Fail(NotText("file"), repo, [])
    else
      var call := UploadCall(fs.fileName.s, fs.file.s, clock);
      match Send(repo, faults.upload, call)
      case Rejected(why) => Fail(Refused(why), repo, [call])
      case Written(repo1) => UpdateIndex(cfg, fs, clock, faults, repo1, policy, [call])
  }

  /** Whether the handler believes the index exists after reading `text`. */
  function IndexExists(policy: ShaPolicy, repo: Repo, readFails: bool, text: string): bool {
    match policy
    case Sentinel => text != "[]"
    case FetchResult => !readFails && IndexPath in repo.files
  }

  /** The entry the handler builds for a request. */
  function EntryOf(cfg: Config, fs: Fields, clock: Clock): Json
    requires fs.fileName.JStr?
  {
    var path := PathOf(fs.fileName.s, clock);
    Entry(clock.now, fs.year, fs.semester, fs.fileName.s, RawUrl(cfg.owner, cfg.repo, Branch(cfg), path), clock.iso)
  }

  /** The handler's lines 41 to 111: read the index, build the entry (where looking up
      the semester's label can throw), then extend the index and write it back. */
  function UpdateIndex(cfg: Config, fs: Fields, clock: Clock, faults: Faults, repo: Repo, policy: ShaPolicy, calls: seq<Call>): (o: Outcome)
    requires fs.fileName.JStr?
    ensures o.response.statusCode == 200 || o.response.statusCode == 500
    ensures |o.calls| > |calls| && o.calls[..|calls|] == calls && o.calls[|calls|] == Fetch(IndexPath)
  {
    var text := IndexText(repo, faults.indexRead);
    var read := calls + [Fetch(IndexPath)];
    if KeyThrows(fs.semester) then Fail(NoPrimitive, repo, read)
    else AppendEntry(faults, repo, IndexExists(policy, repo, faults.indexRead, text), Previous(text),
      EntryOf(cfg, fs, clock), read)
  }

  /** The new index text: the old list with the entry pushed, printed with two spaces. */
  function NewIndex(list: seq<Json>, entry: Json): string {
    Stringify(JArr(list + [entry]), Indent2)
  }

  /** The handler's lines 73 to 111, once the index has been read and parsed into `list`: push the
      entry and write the index back, as an update carrying the sha read again when
      the index is believed to exist, as a create otherwise. */
  function AppendEntry(faults: Faults, repo: Repo, believedExists: bool, list: Json, entry: Json, read: seq<Call>): (o: Outcome)
    ensures o.response.statusCode == 200 || o.response.statusCode == 500
    ensures o.response.statusCode == 500 ==> o.repo == repo
    ensures |o.calls| >= |read| && o.calls[..|read|] == read
    ensures o.response.statusCode == 200 ==>
      list.JArr? && IndexPath in o.repo.files && o.repo.files[IndexPath].content == NewIndex(list.items, entry)
  {
    if !list.JArr? then Fail(NotAList(list), repo, read)
    else if believedExists then
      var reread := read + [Fetch(IndexPath)];
      if faults.shaRead.Some? then Fail(FetchFailed(faults.shaRead.value), repo, reread)
      else if IndexPath !in repo.files then Fail(FetchFailed("Not Found"), repo, reread)
      else Finish(repo, faults.indexWrite, Write(IndexPath, UpdateMessage, Some(NewIndex(list.items, entry)), Some(repo.files[IndexPath].sha)), reread, entry)
    else Finish(repo, faults.indexWrite, Write(IndexPath, CreateMessage, Some(NewIndex(list.items, entry)), None), read, entry)
  }

  /** The index write and the response that follows it. */
  function Finish(repo: Repo, fault: Option<string>, call: Call, calls: seq<Call>, entry: Json): (o: Outcome)
    requires call.Write?
    ensures o.calls == calls + [call]
    ensures o.response.statusCode == 200 <==> Send(repo, fault, call).Written?
    ensures o.response.statusCode == 200 ==> o.repo == Send(repo, fault, call).repo
    ensures o.response.statusCode == 200 || (o.response.statusCode == 500 && o.repo == repo)
  {
    match Send(repo, fault, call)
    case Rejected(why) => Fail(Refused(why), repo, calls + [call])
    case Written(repo1) => Outcome(Response(200, SuccessBody(entry), [("Content-Type", "application/json")]), repo1, calls + [call])
  }
}
