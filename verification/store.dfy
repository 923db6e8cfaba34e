/** The part of a GitHub repository the handler touches through the contents API:
    one branch, seen as a map from path to file. Every accepted write gives the file
    a sha no file had before (a counter standing in for the blob hash) and adds a
    commit. File contents are kept as the text they encode; the base64 transport
    encoding is not modelled. */
module Store {
  import opened Optional

  datatype File = File(content: string, sha: nat)

  datatype Commit = Commit(path: string, message: string)

  /** `nextSha` is the sha the next write will produce; every sha in use is below it. */
  datatype Repo = Repo(files: map<string, File>, history: seq<Commit>, nextSha: nat)

  /** Why the contents API refuses a write. */
  datatype Rejection =
    | MissingContent          // no `content` in the request
    | ShaRequired             // the path exists and no `sha` was sent
    | ShaMismatch             // the `sha` sent is not the current one, or the path does not exist
    | Remote(message: string) // any other failure of the call

  datatype PutResult = Written(repo: Repo) | Rejected(why: Rejection)

  ghost predicate Valid(r: Repo) {
    forall p :: p in r.files ==> r.files[p].sha < r.nextSha
  }

  /** `repos.getContent`: the file at `path`, if there is one. */
  function Get(r: Repo, path: string): (f: Option<File>)
    ensures f.Some? <==> path in r.files
    ensures f.Some? ==> f.value == r.files[path]
  {
    if path in r.files then Some(r.files[path]) else None
  }

  /** Whether a write of `path` carrying `sha` is accepted: a new path takes no sha,
      an existing one takes exactly its current sha. */
  predicate ShaAccepted(r: Repo, path: string, sha: Option<nat>) {
    if path in r.files then sha == Some(r.files[path].sha) else sha.None?
  }

  /** `repos.createOrUpdateFileContents` on the branch. */
  function Put(r: Repo, path: string, message: string, content: Option<string>, sha: Option<nat>): (res: PutResult)
    ensures res.Written? <==> content.Some? && ShaAccepted(r, path, sha)
    ensures res.Rejected? && content.Some? ==> res.why == (if path in r.files && sha.None? then ShaRequired else ShaMismatch)
    ensures res.Rejected? && content.None? ==> res.why == MissingContent
    ensures res.Written? ==> res.repo.files == r.files[path := File(content.value, r.nextSha)]
    ensures res.Written? ==> res.repo.history == r.history + [Commit(path, message)]
    ensures res.Written? ==> res.repo.nextSha == r.nextSha + 1
    ensures res.Written? && Valid(r) ==> Valid(res.repo)
  {
    if content.None? then Rejected(MissingContent)
    else if path in r.files && sha.None? then Rejected(ShaRequired)
    else if !ShaAccepted(r, path, sha) then Rejected(ShaMismatch)
    else Written(Repo(r.files[path := File(content.value, r.nextSha)], r.history + [Commit(path, message)], r.nextSha + 1))
  }

  /** A write to `path` leaves every other path as it was. */
  lemma PutOther(r: Repo, path: string, message: string, content: Option<string>, sha: Option<nat>, other: string)
    requires Put(r, path, message, content, sha).Written? && other != path
    ensures Get(Put(r, path, message, content, sha).repo, other) == Get(r, other)
  {
  }

  /** Reading back after a write gives the written content under a sha no file had before. */
  lemma PutGet(r: Repo, path: string, message: string, content: Option<string>, sha: Option<nat>)
    requires Valid(r) && Put(r, path, message, content, sha).Written?
    ensures Get(Put(r, path, message, content, sha).repo, path) == Some(File(content.value, r.nextSha))
    ensures forall p :: p in r.files ==> r.files[p].sha != r.nextSha
  {
  }

  /** After a write, the sha the writer used is stale: writing again with it is refused. */
  lemma {:induction false} StaleShaRefused(r: Repo, path: string, m1: string, c1: string, sha: Option<nat>, m2: string, c2: string)
    requires Valid(r) && Put(r, path, m1, Some(c1), sha).Written?
    ensures Put(Put(r, path, m1, Some(c1), sha).repo, path, m2, Some(c2), sha).Rejected?
  {
    var r1 := Put(r, path, m1, Some(c1), sha).repo;
    assert r1.files[path].sha == r.nextSha;
    if sha.Some? {
      assert path in r.files && sha.value == r.files[path].sha < r.nextSha;
    }
  }
}
