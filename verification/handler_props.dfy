/** What the upload handler promises: which requests it turns away and how, what a
    successful upload leaves in the repository and in the response, how the index
    write is addressed, and what stays behind when a later step fails. */
module HandlerProps {
  import opened Optional
  import opened Text
  import opened Json
  import opened JsonPrint
  import opened JsonParse
  import opened JsonRoundTrip
  import opened Store
  import opened Derive
  import opened DeriveProps
  import opened UploadHandler

  /** The four members of a request whose body parses to something other than `null`. */
  function RequestFields(req: Request): (r: Option<Fields>)
    ensures r.Some? ==> Parse(req.body).Some? && !Parse(req.body).value.JNull?
    ensures r.Some? ==> Required(Parse(req.body).value) == r
  {
    match Parse(req.body)
    case None => None
    case Some(body) => if body.JNull? then None else Required(body)
  }

  /** The members the entry copies from the body are well formed. */
  predicate Copyable(fs: Fields) {
    WellFormed(fs.year) && WellFormed(fs.semester)
  }

  /** The index holds exactly the text `[]`. */
  predicate EmptyIndexStored(repo: Repo) {
    IndexPath in repo.files && repo.files[IndexPath].content == "[]"
  }

  /** Everything an upload needs apart from the index test: text members, a comma in
      the data url, a fresh path, a semester that converts to a key, and an index that
      reads as a list. */
  predicate Uploadable(fs: Fields, clock: Clock, repo: Repo) {
    fs.fileName.JStr? && fs.file.JStr? && Payload(fs.file.s).Some? && !KeyThrows(fs.semester)
    && PathOf(fs.fileName.s, clock) !in repo.files
    && Previous(IndexText(repo, false)).JArr?
  }

  /** An error response holds `{"error": text}`. */
  lemma ErrorBodyParses(text: string)
    ensures Parse(BodyText(ErrorBody(text))) == Some(JObj([Field("error", JStr(text))]))
  {
    ParseStringify(JObj([Field("error", JStr(text))]), "");
  }

  /** A failure answers 500 with the message after the fixed prefix. */
  lemma ServerErrorParses(f: Failure)
    ensures ServerError(f).statusCode == 500 && ServerError(f).headers == []
    ensures Parse(BodyText(ServerError(f).body)) == Some(JObj([Field("error", JStr(ErrorPrefix + Message(f)))]))
  {
    ErrorBodyParses(ErrorPrefix + Message(f));
  }

  /** A body that is not JSON, or is `null`, fails before anything is read or written. */
  lemma UnreadableBodyFails(cfg: Config, req: Request, clock: Clock, faults: Faults, repo: Repo, policy: ShaPolicy)
    requires req.httpMethod == "POST"
    requires Parse(req.body).None? || Parse(req.body) == Some(JNull)
    ensures var o := Run(cfg, req, clock, faults, repo, policy);
      o.response.statusCode == 500 && o.repo == repo && o.calls == []
      && Parse(BodyText(o.response.body)) ==
         Some(JObj([Field("error", JStr(ErrorPrefix + Message(if Parse(req.body).None? then BadBody else NullBody)))]))
  {
    ServerErrorParses(BadBody);
    ServerErrorParses(NullBody);
  }

  /** A posted body answers 400 exactly when one of the four members is falsy, and
      then with `{"error": "Missing required fields"}`, touching nothing. */
  lemma MissingFieldsGate(cfg: Config, req: Request, clock: Clock, faults: Faults, repo: Repo, policy: ShaPolicy)
    requires req.httpMethod == "POST" && Parse(req.body).Some? && !Parse(req.body).value.JNull?
    ensures var o := Run(cfg, req, clock, faults, repo, policy);
      var body := Parse(req.body).value;
      o.response.statusCode == 400 <==>
        !(Present(Member(body, "year")) && Present(Member(body, "semester"))
          && Present(Member(body, "file")) && Present(Member(body, "fileName")))
    ensures var o := Run(cfg, req, clock, faults, repo, policy);
      o.response.statusCode == 400 ==>
        o.repo == repo && o.calls == []
        && Parse(BodyText(o.response.body)) == Some(JObj([Field("error", JStr("Missing required fields"))]))
  {
    RunOutcome(cfg, req, clock, faults, repo, policy);
    RequiredGate(cfg, Parse(req.body).value, clock, faults, repo, policy);
    ErrorBodyParses("Missing required fields");
  }

  /** After the field check, 400 comes from the check alone: the upload answers 200 or 500. */
  lemma RequiredGate(cfg: Config, body: Json, clock: Clock, faults: Faults, repo: Repo, policy: ShaPolicy)
    ensures var o := match Required(body)
        case None => Outcome(MissingFields, repo, [])
        case Some(fs) => Upload(cfg, fs, clock, faults, repo, policy);
      (o.response.statusCode == 400 <==> Required(body).None?)
      && (o.response.statusCode == 400 ==> o == Outcome(MissingFields, repo, []))
  {
  }

  /** A posted body that parses to something other than `null` is answered by the
      field check and then the upload. */
  lemma RunOutcome(cfg: Config, req: Request, clock: Clock, faults: Faults, repo: Repo, policy: ShaPolicy)
    requires req.httpMethod == "POST" && Parse(req.body).Some? && !Parse(req.body).value.JNull?
    ensures Run(cfg, req, clock, faults, repo, policy)
      == match Required(Parse(req.body).value)
         case None => Outcome(MissingFields, repo, [])
         case Some(fs) => Upload(cfg, fs, clock, faults, repo, policy)
  {
  }

  /** Only the four required members decide the outcome: `fileType`, or any other
      member, is never consulted. */
  lemma OnlyRequiredMembersMatter(cfg: Config, r1: Request, r2: Request, clock: Clock, faults: Faults, repo: Repo, policy: ShaPolicy)
    requires r1.httpMethod == r2.httpMethod
    requires Parse(r1.body).Some? && Parse(r1.body).value.JObj?
    requires Parse(r2.body).Some? && Parse(r2.body).value.JObj?
    requires Member(Parse(r1.body).value, "year") == Member(Parse(r2.body).value, "year")
    requires Member(Parse(r1.body).value, "semester") == Member(Parse(r2.body).value, "semester")
    requires Member(Parse(r1.body).value, "file") == Member(Parse(r2.body).value, "file")
    requires Member(Parse(r1.body).value, "fileName") == Member(Parse(r2.body).value, "fileName")
    ensures Run(cfg, r1, clock, faults, repo, policy) == Run(cfg, r2, clock, faults, repo, policy)
  {
    if r1.httpMethod == "POST" {
      assert Required(Parse(r1.body).value) == Required(Parse(r2.body).value);
      RunOutcome(cfg, r1, clock, faults, repo, policy);
      RunOutcome(cfg, r2, clock, faults, repo, policy);
    }
  }

  /** A member of a well-formed object is well formed. */
  lemma MemberWellFormed(body: Json, name: string)
    requires WellFormed(body) && Member(body, name).Some?
    ensures WellFormed(Member(body, name).value)
  {
    var i := KeyIndex(body.fields, name).value;
    assert Member(body, name).value == body.fields[i].value;
  }

  /** A request that reaches the upload carries well-formed members. */
  lemma RequestFieldsCopyable(req: Request)
    requires RequestFields(req).Some?
    ensures Copyable(RequestFields(req).value)
  {
    var body := Parse(req.body).value;
    MemberWellFormed(body, "year");
    MemberWellFormed(body, "semester");
  }

  /** Every response other than 405, 400 and the early 500s comes from the upload. */
  lemma RunReachesUpload(cfg: Config, req: Request, clock: Clock, faults: Faults, repo: Repo, policy: ShaPolicy)
    requires Run(cfg, req, clock, faults, repo, policy).repo != repo
          || Run(cfg, req, clock, faults, repo, policy).response.statusCode == 200
    ensures RequestFields(req).Some? && Copyable(RequestFields(req).value)
    ensures Run(cfg, req, clock, faults, repo, policy) == Upload(cfg, RequestFields(req).value, clock, faults, repo, policy)
  {
    RequestFieldsCopyable(req);
  }

  /** The uploaded file never lands on the index, so writing it leaves the index as it was. */
  lemma UploadLeavesIndex(fileName: string, file: string, clock: Clock, repo: Repo)
    requires Put(repo, PathOf(fileName, clock), UploadMessage + fileName, Payload(file), None).Written?
    ensures var repo1 := Put(repo, PathOf(fileName, clock), UploadMessage + fileName, Payload(file), None).repo;
      (IndexPath in repo1.files <==> IndexPath in repo.files)
      && (IndexPath in repo.files ==> repo1.files[IndexPath] == repo.files[IndexPath])
      && IndexText(repo1, false) == IndexText(repo, false) && IndexText(repo1, true) == IndexText(repo, true)
  {
    UploadPathNotIndex(clock.now, Extension(fileName));
  }

  /** The state after the upload write, when it succeeds. */
  function AfterUpload(fs: Fields, clock: Clock, faults: Faults, repo: Repo): (r1: Repo)
    requires fs.fileName.JStr? && fs.file.JStr?
    requires Send(repo, faults.upload, UploadCall(fs.fileName.s, fs.file.s, clock)).Written?
    ensures faults.upload.None? && Payload(fs.file.s).Some? && PathOf(fs.fileName.s, clock) !in repo.files
    ensures IndexText(r1, faults.indexRead) == IndexText(repo, faults.indexRead)
    ensures IndexPath in r1.files <==> IndexPath in repo.files
    ensures IndexPath in repo.files ==> r1.files[IndexPath] == repo.files[IndexPath]
    ensures r1.files == repo.files[PathOf(fs.fileName.s, clock) := File(Payload(fs.file.s).value, repo.nextSha)]
    ensures r1.nextSha == repo.nextSha + 1
    ensures r1.history == repo.history + [Commit(PathOf(fs.fileName.s, clock), UploadMessage + fs.fileName.s)]
    ensures Valid(repo) ==> Valid(r1)
  {
    UploadLeavesIndex(fs.fileName.s, fs.file.s, clock, repo);
    Send(repo, faults.upload, UploadCall(fs.fileName.s, fs.file.s, clock)).repo
  }

  /** The index update is, after one read, a failure when the semester cannot be
      turned into a key, and the append on the state it is given otherwise. */
  lemma UpdateIndexStep(cfg: Config, fs: Fields, clock: Clock, faults: Faults, repo: Repo, policy: ShaPolicy, calls: seq<Call>)
    requires fs.fileName.JStr?
    ensures var text := IndexText(repo, faults.indexRead);
      UpdateIndex(cfg, fs, clock, faults, repo, policy, calls)
      == if KeyThrows(fs.semester) then Fail(NoPrimitive, repo, calls + [Fetch(IndexPath)])
         else AppendEntry(faults, repo, IndexExists(policy, repo, faults.indexRead, text), Previous(text),
                          EntryOf(cfg, fs, clock), calls + [Fetch(IndexPath)])
  {
  }

  /** Once the upload is written, the rest of the handler is the index update on the
      new state, with the existence test and the parsed list as read from the old one,
      unless building the entry throws first. */
  lemma UploadStep(cfg: Config, fs: Fields, clock: Clock, faults: Faults, repo: Repo, policy: ShaPolicy)
    requires fs.fileName.JStr? && fs.file.JStr?
    requires Send(repo, faults.upload, UploadCall(fs.fileName.s, fs.file.s, clock)).Written?
    ensures var text := IndexText(repo, faults.indexRead);
      var read := [UploadCall(fs.fileName.s, fs.file.s, clock), Fetch(IndexPath)];
      Upload(cfg, fs, clock, faults, repo, policy)
      == if KeyThrows(fs.semester) then Fail(NoPrimitive, AfterUpload(fs, clock, faults, repo), read)
         else AppendEntry(faults, AfterUpload(fs, clock, faults, repo), IndexExists(policy, repo, faults.indexRead, text),
                          Previous(text), EntryOf(cfg, fs, clock), read)
  {
    var call := UploadCall(fs.fileName.s, fs.file.s, clock);
    var repo1 := AfterUpload(fs, clock, faults, repo);
    assert Upload(cfg, fs, clock, faults, repo, policy) == UpdateIndex(cfg, fs, clock, faults, repo1, policy, [call]);
    UpdateIndexStep(cfg, fs, clock, faults, repo1, policy, [call]);
    var text := IndexText(repo, faults.indexRead);
    assert IndexText(repo1, faults.indexRead) == text;
    assert IndexExists(policy, repo1, faults.indexRead, text) == IndexExists(policy, repo, faults.indexRead, text);
    assert [call] + [Fetch(IndexPath)] == [call, Fetch(IndexPath)];
  }

  /** With a semester that converts to a key, the rest of the handler after the upload
      is the append on the new state. */
  lemma AppendStep(cfg: Config, fs: Fields, clock: Clock, faults: Faults, repo: Repo, policy: ShaPolicy)
    requires fs.fileName.JStr? && fs.file.JStr? && !KeyThrows(fs.semester)
    requires Send(repo, faults.upload, UploadCall(fs.fileName.s, fs.file.s, clock)).Written?
    ensures var text := IndexText(repo, faults.indexRead);
      Upload(cfg, fs, clock, faults, repo, policy)
      == AppendEntry(faults, AfterUpload(fs, clock, faults, repo), IndexExists(policy, repo, faults.indexRead, text),
                     Previous(text), EntryOf(cfg, fs, clock), [UploadCall(fs.fileName.s, fs.file.s, clock), Fetch(IndexPath)])
  {
    UploadStep(cfg, fs, clock, faults, repo, policy);
  }

  /** A semester that cannot be turned into a property key makes the label lookup
      throw once the file is uploaded and the index read: the answer is 500, the
      uploaded file stays, and the index is neither pushed to nor written. */
  lemma SemesterThrows(cfg: Config, fs: Fields, clock: Clock, faults: Faults, repo: Repo, policy: ShaPolicy)
    requires fs.fileName.JStr? && fs.file.JStr?
    requires Send(repo, faults.upload, UploadCall(fs.fileName.s, fs.file.s, clock)).Written?
    requires KeyThrows(fs.semester)
    ensures var o := Upload(cfg, fs, clock, faults, repo, policy);
      o.response == ServerError(NoPrimitive)
      && o.calls == [UploadCall(fs.fileName.s, fs.file.s, clock), Fetch(IndexPath)]
      && Get(o.repo, PathOf(fs.fileName.s, clock)) == Some(File(Payload(fs.file.s).value, repo.nextSha))
      && Get(o.repo, IndexPath) == Get(repo, IndexPath)
  {
    UploadStep(cfg, fs, clock, faults, repo, policy);
    UploadPathNotIndex(clock.now, Extension(fs.fileName.s));
  }

  /** Without a successful upload write the repository is left as it was. */
  lemma UploadRefused(cfg: Config, fs: Fields, clock: Clock, faults: Faults, repo: Repo, policy: ShaPolicy)
    requires !(fs.fileName.JStr? && fs.file.JStr? && Send(repo, faults.upload, UploadCall(fs.fileName.s, fs.file.s, clock)).Written?)
    ensures Upload(cfg, fs, clock, faults, repo, policy).repo == repo
    ensures Upload(cfg, fs, clock, faults, repo, policy).response.statusCode == 500
  {
  }

  /** A success went through the upload write, with a semester that converts to a key. */
  lemma UploadWrote(cfg: Config, fs: Fields, clock: Clock, faults: Faults, repo: Repo, policy: ShaPolicy)
    requires Upload(cfg, fs, clock, faults, repo, policy).response.statusCode == 200
    ensures fs.fileName.JStr? && fs.file.JStr?
    ensures Send(repo, faults.upload, UploadCall(fs.fileName.s, fs.file.s, clock)).Written?
    ensures !KeyThrows(fs.semester)
  {
  }

  /** The last call made, if any. */
  function LastCall(calls: seq<Call>): (c: Option<Call>)
    ensures c.Some? <==> calls != []
    ensures c.Some? ==> c.value == calls[|calls| - 1]
  {
    if calls == [] then None else Some(calls[|calls| - 1])
  }

  /** The index write succeeds exactly when nothing fails remotely and the handler's
      belief about the index matches the store: an update (with the sha read again)
      when the index exists, a create (without a sha) when it does not. The calls are
      the reads so far, a second read when the index is believed to exist, and the write. */
  lemma AppendWrite(faults: Faults, repo: Repo, believedExists: bool, list: Json, entry: Json, read: seq<Call>)
    requires list.JArr? && faults.shaRead.None? && (believedExists ==> IndexPath in repo.files)
    ensures var o := AppendEntry(faults, repo, believedExists, list, entry, read);
      |o.calls| == |read| + (if believedExists then 2 else 1) && o.calls[..|read|] == read
      && (believedExists ==> o.calls[|read|] == Fetch(IndexPath))
      && LastCall(o.calls) == Some(Write(IndexPath, if believedExists then UpdateMessage else CreateMessage,
                                         Some(NewIndex(list.items, entry)),
                                         if believedExists then Some(repo.files[IndexPath].sha) else None))
      && (o.response.statusCode == 200 <==> faults.indexWrite.None? && (believedExists <==> IndexPath in repo.files))
  {
    var o := AppendEntry(faults, repo, believedExists, list, entry, read);
    var w := o.calls[|o.calls| - 1];
    if believedExists {
      assert o.calls == read + [Fetch(IndexPath)] + [w];
    } else {
      assert o.calls == read + [w];
    }
  }

  /** A successful index write replaced the index by the old list with the entry pushed,
      and answered with that entry. */
  lemma AppendSucceeded(faults: Faults, repo: Repo, believedExists: bool, list: Json, entry: Json, read: seq<Call>)
    requires AppendEntry(faults, repo, believedExists, list, entry, read).response.statusCode == 200
    ensures list.JArr? && faults.indexWrite.None?
    ensures believedExists ==> faults.shaRead.None? && IndexPath in repo.files
    ensures var o := AppendEntry(faults, repo, believedExists, list, entry, read);
      o.repo.files == repo.files[IndexPath := File(NewIndex(list.items, entry), repo.nextSha)]
      && o.repo.nextSha == repo.nextSha + 1
      && o.repo.history == repo.history + [Commit(IndexPath, if believedExists then UpdateMessage else CreateMessage)]
      && o.response == Response(200, SuccessBody(entry), [("Content-Type", "application/json")])
  {
  }

  /** The index update touches no path but the index, and a failed one touches nothing. */
  lemma AppendFrame(faults: Faults, repo: Repo, believedExists: bool, list: Json, entry: Json, read: seq<Call>, other: string)
    requires other != IndexPath
    ensures var o := AppendEntry(faults, repo, believedExists, list, entry, read);
      Get(o.repo, other) == Get(repo, other)
      && (o.response.statusCode == 500 ==> o.repo == repo)
      && (Valid(repo) ==> Valid(o.repo))
  {
  }

  /** A successful upload wrote the payload to a fresh path and then wrote the index:
      the old list with the entry appended, printed with two-space indentation. */
  lemma UploadSucceeded(cfg: Config, fs: Fields, clock: Clock, faults: Faults, repo: Repo, policy: ShaPolicy)
    requires Upload(cfg, fs, clock, faults, repo, policy).response.statusCode == 200
    ensures fs.fileName.JStr? && fs.file.JStr? && Payload(fs.file.s).Some?
    ensures faults.upload.None? && faults.indexWrite.None? && PathOf(fs.fileName.s, clock) !in repo.files
    ensures !KeyThrows(fs.semester) && Previous(IndexText(repo, faults.indexRead)).JArr?
    ensures var o := Upload(cfg, fs, clock, faults, repo, policy);
      var list := Previous(IndexText(repo, faults.indexRead)).items;
      var entry := EntryOf(cfg, fs, clock);
      o.repo.files == repo.files[PathOf(fs.fileName.s, clock) := File(Payload(fs.file.s).value, repo.nextSha)]
                               [IndexPath := File(NewIndex(list, entry), repo.nextSha + 1)]
      && o.repo.nextSha == repo.nextSha + 2
      && o.response == Response(200, SuccessBody(entry), [("Content-Type", "application/json")])
  {
    UploadWrote(cfg, fs, clock, faults, repo, policy);
    var text := IndexText(repo, faults.indexRead);
    var repo1 := AfterUpload(fs, clock, faults, repo);
    AppendStep(cfg, fs, clock, faults, repo, policy);
    AppendAfterUpload(faults, repo, repo1, IndexExists(policy, repo, faults.indexRead, text), Previous(text),
      EntryOf(cfg, fs, clock), [UploadCall(fs.fileName.s, fs.file.s, clock), Fetch(IndexPath)],
      PathOf(fs.fileName.s, clock), Payload(fs.file.s).value);
  }

  /** A successful append on the state an upload left: both writes, in order. */
  lemma AppendAfterUpload(faults: Faults, repo: Repo, repo1: Repo, believedExists: bool, list: Json, entry: Json,
                          read: seq<Call>, path: string, payload: string)
    requires repo1.files == repo.files[path := File(payload, repo.nextSha)] && repo1.nextSha == repo.nextSha + 1
    requires AppendEntry(faults, repo1, believedExists, list, entry, read).response.statusCode == 200
    ensures list.JArr? && faults.indexWrite.None?
    ensures var o := AppendEntry(faults, repo1, believedExists, list, entry, read);
      o.repo.files == repo.files[path := File(payload, repo.nextSha)][IndexPath := File(NewIndex(list.items, entry), repo.nextSha + 1)]
      && o.repo.nextSha == repo.nextSha + 2
      && o.response == Response(200, SuccessBody(entry), [("Content-Type", "application/json")])
  {
    AppendSucceeded(faults, repo1, believedExists, list, entry, read);
  }

  /** The entry of a request with well-formed members is well formed. */
  lemma EntryOfWellFormed(cfg: Config, fs: Fields, clock: Clock)
    requires fs.fileName.JStr? && Copyable(fs)
    ensures WellFormed(EntryOf(cfg, fs, clock))
  {
    EntryWellFormed(clock.now, fs.year, fs.semester, fs.fileName.s,
      RawUrl(cfg.owner, cfg.repo, Branch(cfg), PathOf(fs.fileName.s, clock)), clock.iso);
  }

  /** The printed index reads back as the list with the entry pushed. */
  lemma NewIndexParses(list: seq<Json>, entry: Json)
    requires AllWellFormed(list) && WellFormed(entry)
    ensures Parse(NewIndex(list, entry)) == Some(JArr(list + [entry]))
  {
    PushWellFormed(list, entry);
    assert IsGap(Indent2);
    PushParses(list, entry, Indent2);
  }

  lemma PushParses(list: seq<Json>, entry: Json, gap: string)
    requires AllWellFormed(list + [entry]) && IsGap(gap)
    ensures Parse(Stringify(JArr(list + [entry]), gap)) == Some(JArr(list + [entry]))
  {
    ParseStringify(JArr(list + [entry]), gap);
  }

  /** After a success the index parses to the old list with the new entry appended:
      earlier entries are kept in order, and a missing, unreadable or unparsable
      index counts as the empty list. */
  lemma SuccessIndex(cfg: Config, fs: Fields, clock: Clock, faults: Faults, repo: Repo, policy: ShaPolicy)
    requires Upload(cfg, fs, clock, faults, repo, policy).response.statusCode == 200 && Copyable(fs)
    ensures Previous(IndexText(repo, faults.indexRead)).JArr?
    ensures var o := Upload(cfg, fs, clock, faults, repo, policy);
      fs.fileName.JStr?
      && IndexPath in o.repo.files
      && Parse(o.repo.files[IndexPath].content)
         == Some(JArr(Previous(IndexText(repo, faults.indexRead)).items + [EntryOf(cfg, fs, clock)]))
  {
    UploadSucceeded(cfg, fs, clock, faults, repo, policy);
    var list := Previous(IndexText(repo, faults.indexRead));
    EntryOfWellFormed(cfg, fs, clock);
    NewIndexParses(list.items, EntryOf(cfg, fs, clock));
  }

  /** `JSON.parse('[]')` is the empty list. */
  lemma EmptyListParses()
    ensures Parse("[]") == Some(JArr([]))
  {
    ParseStringify(JArr([]), "");
    assert Stringify(JArr([]), "") == "[]";
  }

  /** `Previous` is `JSON.parse` with the empty list as fallback. */
  lemma PreviousIsParse(text: string)
    ensures Previous(text) == (if Parse(text).Some? then Parse(text).value else JArr([]))
  {
    if text == "[]" { EmptyListParses(); }
  }

  /** With no index, or one that is not JSON, a success leaves an index of one entry. */
  lemma FreshIndex(cfg: Config, fs: Fields, clock: Clock, faults: Faults, repo: Repo, policy: ShaPolicy)
    requires Upload(cfg, fs, clock, faults, repo, policy).response.statusCode == 200 && Copyable(fs)
    requires faults.indexRead || IndexPath !in repo.files || Parse(repo.files[IndexPath].content).None?
    ensures var o := Upload(cfg, fs, clock, faults, repo, policy);
      fs.fileName.JStr? && IndexPath in o.repo.files
      && Parse(o.repo.files[IndexPath].content) == Some(JArr([EntryOf(cfg, fs, clock)]))
  {
    SuccessIndex(cfg, fs, clock, faults, repo, policy);
    PreviousIsParse(IndexText(repo, faults.indexRead));
    EmptyListParses();
    assert Previous(IndexText(repo, faults.indexRead)) == JArr([]);
    assert [] + [EntryOf(cfg, fs, clock)] == [EntryOf(cfg, fs, clock)];
  }

  /** A success answers `{"success": true, "entry": e}` where `e` is the appended
      entry, stamped with the one timestamp and pointing at the stored file. */
  lemma SuccessResponse(cfg: Config, fs: Fields, clock: Clock, faults: Faults, repo: Repo, policy: ShaPolicy)
    requires Upload(cfg, fs, clock, faults, repo, policy).response.statusCode == 200 && Copyable(fs)
    ensures var o := Upload(cfg, fs, clock, faults, repo, policy);
      fs.fileName.JStr?
      && o.response.headers == [("Content-Type", "application/json")]
      && Parse(BodyText(o.response.body)) == Some(JObj([Field("success", JBool(true)), Field("entry", EntryOf(cfg, fs, clock))]))
  {
    UploadSucceeded(cfg, fs, clock, faults, repo, policy);
    EntryOfWellFormed(cfg, fs, clock);
    SuccessBodyParses(EntryOf(cfg, fs, clock));
  }

  /** The success body reads back as `{"success": true, "entry": entry}`. */
  lemma SuccessBodyParses(entry: Json)
    requires WellFormed(entry)
    ensures Parse(BodyText(SuccessBody(entry))) == Some(JObj([Field("success", JBool(true)), Field("entry", entry)]))
  {
    var resp := JObj([Field("success", JBool(true)), Field("entry", entry)]);
    assert DistinctKeys(resp.fields);
    ParseStringify(resp, "");
  }

  /** The entry is stamped with the one timestamp and points at the stored file. */
  lemma EntryOfMembers(cfg: Config, fs: Fields, clock: Clock)
    requires fs.fileName.JStr?
    ensures var e := EntryOf(cfg, fs, clock);
      var path := PathOf(fs.fileName.s, clock);
      e.JObj?
      && Lookup(e.fields, "id") == Some(JStr(Decimal(clock.now)))
      && Lookup(e.fields, "url") == Some(JStr(RawHost + cfg.owner + "/" + cfg.repo + "/" + Branch(cfg) + "/" + path))
      && Lookup(e.fields, "fileName") == Some(fs.fileName)
      && Lookup(e.fields, "uploadedAt") == Some(JStr(clock.iso))
      && path == UploadDir + Decimal(clock.now) + "." + Extension(fs.fileName.s)
  {
    var path := PathOf(fs.fileName.s, clock);
    EntryMembers(clock.now, fs.year, fs.semester, fs.fileName.s, RawUrl(cfg.owner, cfg.repo, Branch(cfg), path), clock.iso);
  }

  /** The uploaded file holds the text between the first and second comma of the data url. */
  lemma SuccessPayload(cfg: Config, fs: Fields, clock: Clock, faults: Faults, repo: Repo, policy: ShaPolicy,
                       p: string, r: string, q: string)
    requires Upload(cfg, fs, clock, faults, repo, policy).response.statusCode == 200
    requires fs.file == JStr(p + [','] + r + q) && ',' !in p && ',' !in r && (q == [] || q[0] == ',')
    ensures fs.fileName.JStr?
    ensures var o := Upload(cfg, fs, clock, faults, repo, policy);
      Get(o.repo, PathOf(fs.fileName.s, clock)) == Some(File(r, repo.nextSha))
  {
    UploadSucceeded(cfg, fs, clock, faults, repo, policy);
    SecondPieceSpec(fs.file.s, ',', p, r, q);
    UploadPathNotIndex(clock.now, Extension(fs.fileName.s));
  }

  /** Once the upload succeeded and the index reads as a list, the calls are the upload,
      a read of the index, a second read when the index is believed to exist, and the
      index write, which carries the current sha exactly in that case. */
  lemma IndexWriteSha(cfg: Config, fs: Fields, clock: Clock, faults: Faults, repo: Repo, policy: ShaPolicy)
    requires fs.fileName.JStr? && fs.file.JStr?
    requires Send(repo, faults.upload, UploadCall(fs.fileName.s, fs.file.s, clock)).Written?
    requires !KeyThrows(fs.semester) && Previous(IndexText(repo, faults.indexRead)).JArr? && faults.shaRead.None?
    requires IndexExists(policy, repo, faults.indexRead, IndexText(repo, faults.indexRead)) ==> IndexPath in repo.files
    ensures var o := Upload(cfg, fs, clock, faults, repo, policy);
      var believedExists := IndexExists(policy, repo, faults.indexRead, IndexText(repo, faults.indexRead));
      |o.calls| == (if believedExists then 4 else 3)
      && o.calls[0] == UploadCall(fs.fileName.s, fs.file.s, clock)
      && o.calls[1] == Fetch(IndexPath) && (believedExists ==> o.calls[2] == Fetch(IndexPath))
      && LastCall(o.calls).Some? && LastCall(o.calls).value.Write? && LastCall(o.calls).value.path == IndexPath
      && LastCall(o.calls).value.sha == (if believedExists then Some(repo.files[IndexPath].sha) else None)
  {
    var text := IndexText(repo, faults.indexRead);
    var believedExists := IndexExists(policy, repo, faults.indexRead, text);
    AppendStep(cfg, fs, clock, faults, repo, policy);
    AppendCallsAfterUpload(faults, repo, AfterUpload(fs, clock, faults, repo), believedExists, Previous(text),
      EntryOf(cfg, fs, clock), UploadCall(fs.fileName.s, fs.file.s, clock));
  }

  /** The calls of the index update that follows an upload which left the index alone. */
  lemma AppendCallsAfterUpload(faults: Faults, repo: Repo, repo1: Repo, believedExists: bool, list: Json, entry: Json, upload: Call)
    requires list.JArr? && faults.shaRead.None?
    requires IndexPath in repo1.files <==> IndexPath in repo.files
    requires IndexPath in repo.files ==> repo1.files[IndexPath] == repo.files[IndexPath]
    requires believedExists ==> IndexPath in repo.files
    ensures var o := AppendEntry(faults, repo1, believedExists, list, entry, [upload, Fetch(IndexPath)]);
      |o.calls| == (if believedExists then 4 else 3)
      && o.calls[0] == upload
      && o.calls[1] == Fetch(IndexPath) && (believedExists ==> o.calls[2] == Fetch(IndexPath))
      && LastCall(o.calls).Some? && LastCall(o.calls).value.Write? && LastCall(o.calls).value.path == IndexPath
      && LastCall(o.calls).value.sha == (if believedExists then Some(repo.files[IndexPath].sha) else None)
  {
    var read := [upload, Fetch(IndexPath)];
    AppendWrite(faults, repo1, believedExists, list, entry, read);
    var o := AppendEntry(faults, repo1, believedExists, list, entry, read);
    assert o.calls[..|read|] == read;
    assert o.calls[0] == read[0] && o.calls[1] == read[1];
  }

  /** The handler as written tests existence by the text it read: the sha is sent
      exactly when that text is not `[]`, and it is then the current sha. */
  lemma SentinelSha(cfg: Config, fs: Fields, clock: Clock, faults: Faults, repo: Repo)
    requires fs.fileName.JStr? && fs.file.JStr?
    requires Send(repo, faults.upload, UploadCall(fs.fileName.s, fs.file.s, clock)).Written?
    requires !KeyThrows(fs.semester) && Previous(IndexText(repo, faults.indexRead)).JArr? && faults.shaRead.None?
    ensures var w := LastCall(Upload(cfg, fs, clock, faults, repo, Sentinel).calls);
      w.Some? && w.value.Write? && w.value.path == IndexPath
      && (w.value.sha.Some? <==> IndexText(repo, faults.indexRead) != "[]")
      && (w.value.sha.Some? ==> IndexPath in repo.files && w.value.sha == Some(repo.files[IndexPath].sha))
  {
    IndexWriteSha(cfg, fs, clock, faults, repo, Sentinel);
  }

  /** No rollback: once the upload write succeeded, the uploaded file stays whatever
      happens to the index afterwards. */
  lemma UploadKept(cfg: Config, fs: Fields, clock: Clock, faults: Faults, repo: Repo, policy: ShaPolicy)
    requires fs.fileName.JStr? && fs.file.JStr?
    requires Send(repo, faults.upload, UploadCall(fs.fileName.s, fs.file.s, clock)).Written?
    ensures var o := Upload(cfg, fs, clock, faults, repo, policy);
      Get(o.repo, PathOf(fs.fileName.s, clock)) == Some(File(Payload(fs.file.s).value, repo.nextSha))
  {
    var text := IndexText(repo, faults.indexRead);
    var path := PathOf(fs.fileName.s, clock);
    UploadPathNotIndex(clock.now, Extension(fs.fileName.s));
    UploadStep(cfg, fs, clock, faults, repo, policy);
    if !KeyThrows(fs.semester) {
      AppendFrame(faults, AfterUpload(fs, clock, faults, repo), IndexExists(policy, repo, faults.indexRead, text),
        Previous(text), EntryOf(cfg, fs, clock), [UploadCall(fs.fileName.s, fs.file.s, clock), Fetch(IndexPath)], path);
    }
  }

  /** An upload touches at most the uploaded path and the index, and keeps every sha
      below the next one. */
  lemma UploadFrame(cfg: Config, fs: Fields, clock: Clock, faults: Faults, repo: Repo, policy: ShaPolicy, other: string)
    requires fs.fileName.JStr? ==> other != PathOf(fs.fileName.s, clock)
    requires other != IndexPath
    ensures Get(Upload(cfg, fs, clock, faults, repo, policy).repo, other) == Get(repo, other)
    ensures Valid(repo) ==> Valid(Upload(cfg, fs, clock, faults, repo, policy).repo)
  {
    if fs.fileName.JStr? && fs.file.JStr? && Send(repo, faults.upload, UploadCall(fs.fileName.s, fs.file.s, clock)).Written? {
      var text := IndexText(repo, faults.indexRead);
      UploadStep(cfg, fs, clock, faults, repo, policy);
      if !KeyThrows(fs.semester) {
        AppendFrame(faults, AfterUpload(fs, clock, faults, repo), IndexExists(policy, repo, faults.indexRead, text),
          Previous(text), EntryOf(cfg, fs, clock), [UploadCall(fs.fileName.s, fs.file.s, clock), Fetch(IndexPath)], other);
      }
    } else {
      UploadRefused(cfg, fs, clock, faults, repo, policy);
    }
  }

  /** A success on top of an index that parses as a list appends to that list. */
  lemma UploadOntoList(cfg: Config, fs: Fields, clock: Clock, repo: Repo, policy: ShaPolicy, items: seq<Json>)
    requires Copyable(fs) && Upload(cfg, fs, clock, NoFaults, repo, policy).response.statusCode == 200
    requires IndexPath in repo.files && Parse(repo.files[IndexPath].content) == Some(JArr(items))
    ensures var o := Upload(cfg, fs, clock, NoFaults, repo, policy);
      fs.fileName.JStr? && IndexPath in o.repo.files
      && Parse(o.repo.files[IndexPath].content) == Some(JArr(items + [EntryOf(cfg, fs, clock)]))
  {
    SuccessIndex(cfg, fs, clock, NoFaults, repo, policy);
    PreviousIsParse(IndexText(repo, false));
  }

  /** Two successful uploads in a row leave both entries, in order, after the old ones. */
  lemma TwoUploadsAccumulate(cfg: Config, fs1: Fields, c1: Clock, fs2: Fields, c2: Clock, repo: Repo, policy: ShaPolicy)
    requires Copyable(fs1) && Copyable(fs2)
    requires Upload(cfg, fs1, c1, NoFaults, repo, policy).response.statusCode == 200
    requires Upload(cfg, fs2, c2, NoFaults, Upload(cfg, fs1, c1, NoFaults, repo, policy).repo, policy).response.statusCode == 200
    ensures fs1.fileName.JStr? && fs2.fileName.JStr? && Previous(IndexText(repo, false)).JArr?
    ensures var o2 := Upload(cfg, fs2, c2, NoFaults, Upload(cfg, fs1, c1, NoFaults, repo, policy).repo, policy);
      IndexPath in o2.repo.files
      && Parse(o2.repo.files[IndexPath].content)
         == Some(JArr(Previous(IndexText(repo, false)).items + [EntryOf(cfg, fs1, c1), EntryOf(cfg, fs2, c2)]))
  {
    var r1 := Upload(cfg, fs1, c1, NoFaults, repo, policy).repo;
    SuccessIndex(cfg, fs1, c1, NoFaults, repo, policy);
    var before := Previous(IndexText(repo, false)).items;
    UploadOntoList(cfg, fs2, c2, r1, policy, before + [EntryOf(cfg, fs1, c1)]);
    AppendTwo(before, EntryOf(cfg, fs1, c1), EntryOf(cfg, fs2, c2));
  }

  lemma AppendTwo(s: seq<Json>, a: Json, b: Json)
    ensures s + [a] + [b] == s + [a, b]
  {
  }

  /** With no faults and an uploadable request, the index write succeeds exactly when
      the handler's belief about the index matches the store. */
  lemma UploadableOutcome(cfg: Config, fs: Fields, clock: Clock, repo: Repo, policy: ShaPolicy)
    requires Uploadable(fs, clock, repo)
    ensures var text := IndexText(repo, false);
      Upload(cfg, fs, clock, NoFaults, repo, policy).response.statusCode == 200
      <==> (IndexExists(policy, repo, false, text) <==> IndexPath in repo.files)
  {
    var text := IndexText(repo, false);
    var call := UploadCall(fs.fileName.s, fs.file.s, clock);
    assert Send(repo, NoFaults.upload, call).Written?;
    var repo1 := AfterUpload(fs, clock, NoFaults, repo);
    AppendStep(cfg, fs, clock, NoFaults, repo, policy);
    AppendWrite(NoFaults, repo1, IndexExists(policy, repo, false, text), Previous(text), EntryOf(cfg, fs, clock), [call, Fetch(IndexPath)]);
  }

  /** The index write as written: with no faults and everything else in order, the
      upload succeeds exactly when the stored index is not the text `[]`. */
  lemma SentinelSuccessIff(cfg: Config, fs: Fields, clock: Clock, repo: Repo)
    requires Uploadable(fs, clock, repo)
    ensures Upload(cfg, fs, clock, NoFaults, repo, Sentinel).response.statusCode == 200 <==> !EmptyIndexStored(repo)
  {
    UploadableOutcome(cfg, fs, clock, repo, Sentinel);
  }

  /** The counterexample: an index holding `[]` is rewritten without a sha, the write is
      refused as needing one, the handler answers 500, and the uploaded file is left
      behind while the index still holds `[]`. */
  lemma SentinelOrphansUpload(cfg: Config, fs: Fields, clock: Clock, repo: Repo)
    requires Uploadable(fs, clock, repo) && EmptyIndexStored(repo)
    ensures var o := Upload(cfg, fs, clock, NoFaults, repo, Sentinel);
      o.response == ServerError(Refused(ShaRequired))
      && Get(o.repo, PathOf(fs.fileName.s, clock)) == Some(File(Payload(fs.file.s).value, repo.nextSha))
      && o.repo.files[IndexPath] == repo.files[IndexPath]
      && LastCall(o.calls) == Some(Write(IndexPath, CreateMessage, Some(NewIndex([], EntryOf(cfg, fs, clock))), None))
  {
    var call := UploadCall(fs.fileName.s, fs.file.s, clock);
    assert Send(repo, NoFaults.upload, call).Written?;
    var repo1 := AfterUpload(fs, clock, NoFaults, repo);
    AppendStep(cfg, fs, clock, NoFaults, repo, Sentinel);
    UploadKept(cfg, fs, clock, NoFaults, repo, Sentinel);
    assert IndexText(repo, false) == "[]";
    assert Previous("[]") == JArr([]);
    CreateOverExisting(repo1, EntryOf(cfg, fs, clock), [call, Fetch(IndexPath)]);
  }

  /** A create sent for an index that exists is refused as needing a sha, and nothing changes. */
  lemma CreateOverExisting(repo: Repo, entry: Json, read: seq<Call>)
    requires IndexPath in repo.files
    ensures var o := AppendEntry(NoFaults, repo, false, JArr([]), entry, read);
      o.response == ServerError(Refused(ShaRequired)) && o.repo == repo
      && LastCall(o.calls) == Some(Write(IndexPath, CreateMessage, Some(NewIndex([], entry)), None))
  {
    assert Put(repo, IndexPath, CreateMessage, Some(NewIndex([], entry)), None) == Rejected(ShaRequired);
  }

  /** Deciding by whether the read found the file, the same upload succeeds whatever
      the index holds. */
  lemma CorrectedSucceeds(cfg: Config, fs: Fields, clock: Clock, repo: Repo)
    requires Uploadable(fs, clock, repo)
    ensures Upload(cfg, fs, clock, NoFaults, repo, FetchResult).response.statusCode == 200
  {
    UploadableOutcome(cfg, fs, clock, repo, FetchResult);
  }

  /** The two tests disagree exactly when the first read succeeds and the index holds
      `[]`; a failed read makes both say that the index does not exist. */
  lemma TestsAgree(repo: Repo, readFails: bool)
    ensures IndexExists(Sentinel, repo, readFails, IndexText(repo, readFails))
            != IndexExists(FetchResult, repo, readFails, IndexText(repo, readFails))
            <==> !readFails && EmptyIndexStored(repo)
  {
  }

  /** The two tests differ only on an index that holds `[]` and is read successfully:
      everywhere else the handler as written and the corrected one answer alike. */
  lemma PoliciesAgree(cfg: Config, req: Request, clock: Clock, faults: Faults, repo: Repo)
    requires !faults.indexRead ==> !EmptyIndexStored(repo)
    ensures Handle(cfg, req, clock, faults, repo) == HandleCorrected(cfg, req, clock, faults, repo)
  {
    if req.httpMethod == "POST" && RequestFields(req).Some? {
      var fs := RequestFields(req).value;
      if fs.fileName.JStr? && fs.file.JStr? && Send(repo, faults.upload, UploadCall(fs.fileName.s, fs.file.s, clock)).Written? {
        UploadStep(cfg, fs, clock, faults, repo, Sentinel);
        UploadStep(cfg, fs, clock, faults, repo, FetchResult);
        TestsAgree(repo, faults.indexRead);
      }
    }
  }
}
