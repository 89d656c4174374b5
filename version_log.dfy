/** The version store: an append-only log of upload records (the
    `versions.json` file) and the directory of stored result files, with the
    lookup that resolves a version label to its latest upload and the upload
    handler that appends to the log. */
module VersionLog {
  import opened Wrappers
  import opened CsvIngest

  /** One entry of `versions.json`. */
  datatype UploadRecord = UploadRecord(version: string, filename: string, uploadedAt: string, summaryCount: nat)

  /** The file of an upload request: its client-side name and its content. */
  datatype FilePart = FilePart(filename: string, content: StoredFile)

  /** What the upload handler reads from the request: the `file` part, the
      `version` form field and the `X-Version` header, each possibly missing. */
  datatype UploadRequest = UploadRequest(file: Option<FilePart>, formVersion: Option<string>, headerVersion: Option<string>)

  /** The three validation errors the upload handler answers with status 400,
      and the uncaught exception (status 500) when the stored file cannot be read. */
  datatype UploadError = NoFilePart | VersionRequired | NoSelectedFile | UnreadableUpload

  /** The JSON body of a successful upload. */
  datatype UploadReply = UploadReply(version: string, summaryCount: nat)

  /** The filename of the most recently appended record with version `v`. */
  function Latest(log: seq<UploadRecord>, v: string): Option<string>
  {
    if log == [] then None
    else if log[|log| - 1].version == v then Some(log[|log| - 1].filename)
    else Latest(log[..|log| - 1], v)
  }

  /** Latest finds nothing exactly when no record carries the label, and otherwise
      names a record with the label that no later record shares. */
  lemma {:induction false} LatestIsNewestMatch(log: seq<UploadRecord>, v: string)
    ensures Latest(log, v).None? <==> forall i :: 0 <= i < |log| ==> log[i].version != v
    ensures Latest(log, v).Some? ==>
      exists i :: 0 <= i < |log| && log[i].version == v && log[i].filename == Latest(log, v).value &&
        forall j :: i < j < |log| ==> log[j].version != v
  {
    if log != [] && log[|log| - 1].version != v {
      var init := log[..|log| - 1];
      LatestIsNewestMatch(init, v);
      if Latest(log, v).Some? {
        var i :| 0 <= i < |init| && init[i].version == v && init[i].filename == Latest(init, v).value &&
          forall j :: i < j < |init| ==> init[j].version != v;
        assert log[i] == init[i];
      } else {
        forall i | 0 <= i < |log| ensures log[i].version != v {
          if i < |init| {
            assert log[i] == init[i];
          }
        }
      }
    }
  }

  /** Appending a record makes it the answer for its own label and leaves every other label's answer alone. */
  lemma LatestAfterAppend(log: seq<UploadRecord>, rec: UploadRecord, v: string)
    ensures Latest(log + [rec], v) == if rec.version == v then Some(rec.filename) else Latest(log, v)
  {
    assert (log + [rec])[..|log|] == log;
  }

  /** `find_file_for_version`: scans the log from the newest record back. */
  method FindFileForVersion(log: seq<UploadRecord>, v: string) returns (r: Option<string>)
    ensures r == Latest(log, v)
  {
    var i := |log|;
    assert log[..i] == log;
    while i > 0
      invariant 0 <= i <= |log|
      invariant Latest(log, v) == Latest(log[..i], v)
    {
      i := i - 1;
      assert log[..i + 1][..i] == log[..i];
      if log[i].version == v {
        return Some(log[i].filename);
      }
    }
    return None;
  }

  /** `request.form.get('version') or request.headers.get('X-Version') or None`. */
  function RequestedVersion(formVersion: Option<string>, headerVersion: Option<string>): (r: Option<string>)
    ensures r.Some? ==> r.value != "" && (r == formVersion || r == headerVersion)
    ensures r.None? <==> (formVersion.None? || formVersion.value == "") && (headerVersion.None? || headerVersion.value == "")
    ensures formVersion.Some? && formVersion.value != "" ==> r == formVersion
  {
    if formVersion.Some? && formVersion.value != "" then formVersion
    else if headerVersion.Some? && headerVersion.value != "" then headerVersion
    else None
  }

  /** The name a result file is stored under: `{version}_{timestamp}_{filename}`. */
  function StoredName(version: string, stamp: string, filename: string): string
  {
    version + "_" + stamp + "_" + filename
  }

  /** The persistent state: `versions.json`, absent until the first upload,
      and the data directory of stored result files. */
  class VersionStore {
    var saved: Option<seq<UploadRecord>>
    var dataDir: map<string, StoredFile>

    /** A first run: no log file and no stored files. */
    constructor ()
      ensures saved == None && dataDir == map[]
      ensures Versions() == []
    {
      saved := None;
      dataDir := map[];
    }

    /** `load_versions`: the log, or no records when the log file is missing. */
    function Versions(): seq<UploadRecord>
      reads this
    {
      match saved
      case None => []
      case Some(log) => log
    }

    /** The upload handler: validates the request, stores the file, parses it
        and appends one record to the log, which is then written back whole.
        When the stored file cannot be read, the handler raises after storing
        it and before touching the log. `sanitize` is `secure_filename`;
        `stamp` and `uploadedAt` are the two clock readings, already formatted. */
    method Upload(req: UploadRequest, coerce: Coerce, sanitize: string -> string, stamp: string, uploadedAt: string)
      returns (r: Result<UploadReply, UploadError>)
      modifies this
      ensures req.file.None? ==> r == Failure(NoFilePart)
      ensures req.file.Some? && RequestedVersion(req.formVersion, req.headerVersion).None? ==> r == Failure(VersionRequired)
      ensures req.file.Some? && RequestedVersion(req.formVersion, req.headerVersion).Some? && req.file.value.filename == "" ==>
                r == Failure(NoSelectedFile)
      ensures !PassesChecks(req) ==> saved == old(saved) && dataDir == old(dataDir)
      ensures PassesChecks(req) ==>
                var name := StoredName(RequestedVersion(req.formVersion, req.headerVersion).value, stamp,
                                       sanitize(req.file.value.filename));
                dataDir == old(dataDir)[name := req.file.value.content]
      ensures PassesChecks(req) && req.file.value.content.Unreadable? ==>
                r == Failure(UnreadableUpload) && saved == old(saved)
      ensures r.Success? <==> PassesChecks(req) && req.file.value.content.Readable?
      ensures r.Success? ==>
                var version := RequestedVersion(req.formVersion, req.headerVersion).value;
                var name := StoredName(version, stamp, sanitize(req.file.value.filename));
                var count := |Parse(req.file.value.content.rows, coerce)|;
                && r.value == UploadReply(version, count)
                && saved == Some(old(Versions()) + [UploadRecord(version, name, uploadedAt, count)])
    {
      if req.file.None? {
        return Failure(NoFilePart);
      }
      var file := req.file.value;
      var version := RequestedVersion(req.formVersion, req.headerVersion);
      if version.None? {
        return Failure(VersionRequired);
      }
      if file.filename == "" {
        return Failure(NoSelectedFile);
      }
      var name := StoredName(version.value, stamp, sanitize(file.filename));
      dataDir := dataDir[name := file.content];
      if dataDir[name].Unreadable? {
        return Failure(UnreadableUpload);
      }
      var parsed := ParseCsv(dataDir[name].rows, coerce);
      var versions := Versions();
      versions := versions + [UploadRecord(version.value, name, uploadedAt, |parsed|)];
      saved := Some(versions);
      return Success(UploadReply(version.value, |parsed|));
    }
  }

  /** The request passes the handler's three checks: a file part, a
      non-empty version, a non-empty filename. */
  predicate PassesChecks(req: UploadRequest)
  {
    req.file.Some? && RequestedVersion(req.formVersion, req.headerVersion).Some? && req.file.value.filename != ""
  }

  /** Two uploads under one label on a first run: the label resolves to the
      second upload's file and an unknown label to nothing. */
  method ReuploadResolvesToLatest(coerce: Coerce, sanitize: string -> string, tag: string, other: string,
                                  first: FilePart, second: FilePart, stamp1: string, stamp2: string, at1: string, at2: string)
    returns (f: Option<string>, g: Option<string>)
    requires tag != "" && other != tag
    requires first.filename != "" && second.filename != ""
    requires first.content.Readable? && second.content.Readable?
    ensures f == Some(StoredName(tag, stamp2, sanitize(second.filename)))
    ensures g == None
  {
    var store := new VersionStore();
    var r1 := store.Upload(UploadRequest(Some(first), Some(tag), None), coerce, sanitize, stamp1, at1);
    ghost var log1 := store.Versions();
    assert |log1| == 1;
    var r2 := store.Upload(UploadRequest(Some(second), None, Some(tag)), coerce, sanitize, stamp2, at2);
    ghost var name := StoredName(tag, stamp2, sanitize(second.filename));
    var log2 := store.Versions();
    assert log2 == log1 + [UploadRecord(tag, name, at2, |Parse(second.content.rows, coerce)|)];
    f := FindFileForVersion(log2, tag);
    LatestAfterAppend(log1, log2[1], tag);
    g := FindFileForVersion(log2, other);
    LatestAfterAppend(log1, log2[1], other);
    LatestAfterAppend([], log1[0], other);
    assert [] + [log1[0]] == log1;
  }
}
