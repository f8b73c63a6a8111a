/** One file's download-and-verify procedure (downloader.go). The network,
    the filesystem, the hash functions, the Content-Disposition regular
    expression and HTTP date parsing are abstract: every step's outcome is an
    input, and the filesystem is a value that the procedure returns updated. */
module Downloader {
  import opened Common
  import opened GoStrings
  import opened HumbleBundle

  /** The hash of a byte stream printed with `%x`; the hash algorithms
      themselves are not modelled. */
  datatype Digests = Digests(sha1Hex: seq<Byte> -> string, md5Hex: seq<Byte> -> string)

  /** A modification time, as `http.ParseTime` produces it. */
  type Time = int

  /** What the regular expression `filename="(.*)"` finds in a header: no
      match, or the whole match and its single capture group. */
  datatype Submatch = NoMatch | Match(whole: string, group: string)

  /** The library functions the procedure calls, as parameters. */
  datatype Library = Library(
    dispositionMatch: string -> Submatch,
    parseTime: string -> Option<Time>,
    digests: Digests)

  /** The filesystem: file contents by path, and the modification times set
      by `os.Chtimes` (a path without an entry carries the time of its last
      write, which the model does not track). */
  datatype Disk = Disk(files: map<string, seq<Byte>>, mtimes: map<string, Time>)

  /** How copying the response body ends: the whole body was written, or the
      copy failed after writing a prefix. */
  datatype Body = Complete(data: seq<Byte>) | Broken(partial: seq<Byte>)

  /** A response's status, the two header values it is read for (the empty
      string when absent, as `Header.Get` returns) and the body copy. */
  datatype Response = Response(status: int, contentDisposition: string, lastModified: string, body: Body)

  /** The outcome of `http.Get`. */
  datatype Get = GetFailed | Got(resp: Response)

  /** Whether the filesystem refuses `os.Create` and `os.Chtimes` on the
      destination path. */
  datatype Faults = Faults(createFails: bool, chtimesFails: bool)

  /** The bytes hashed by `isValidChecksum`: the file's contents, or nothing
      when the file cannot be opened (the copy from a nil file fails at once
      and the hash stays that of the empty stream). */
  function FileContents(disk: Disk, path: string): (contents: seq<Byte>)
    ensures path !in disk.files ==> contents == []
  {
    if path in disk.files then disk.files[path] else []
  }

  /** `isValidChecksum`: with an expected SHA1 only the SHA1 digest decides
      (there is no fallback to MD5); without one the MD5 digest decides. The
      comparison is plain string equality with the lower-case hex digest. */
  function IsValidChecksum(dt: DownloadType, contents: seq<Byte>, d: Digests): (valid: bool)
    ensures dt.sha1 != "" ==> (valid <==> dt.sha1 == d.sha1Hex(contents))
    ensures dt.sha1 == "" ==> (valid <==> dt.md5 == d.md5Hex(contents))
  {
    if dt.sha1 != "" then dt.sha1 == d.sha1Hex(contents)
    else dt.md5 == d.md5Hex(contents)
  }

  /** A SHA1 mismatch is final even when the MD5 matches. */
  lemma Sha1MismatchIsNotRescuedByMd5(dt: DownloadType, contents: seq<Byte>, d: Digests)
    requires dt.sha1 != "" && dt.sha1 != d.sha1Hex(contents)
    requires dt.md5 == d.md5Hex(contents)
    ensures !IsValidChecksum(dt, contents, d)
  {
  }

  /** With an expected SHA1, neither the expected MD5 nor the MD5 digest has
      any influence on the verdict. */
  lemma Md5IgnoredWhenSha1Expected(dt: DownloadType, contents: seq<Byte>, d: Digests,
                                   md5: string, md5Hex: seq<Byte> -> string)
    requires dt.sha1 != ""
    ensures IsValidChecksum(dt, contents, d)
         == IsValidChecksum(dt.(md5 := md5), contents, d.(md5Hex := md5Hex))
  {
  }

  /** The text `%x` produces: lower-case hexadecimal digits only. */
  predicate IsLowerHex(s: string) {
    forall i :: 0 <= i < |s| ==> s[i] in "0123456789abcdef"
  }

  /** The expected digest that decides validity. */
  function ExpectedDigest(dt: DownloadType): (e: string)
    ensures e == dt.sha1 || e == dt.md5
    ensures dt.sha1 != "" ==> e == dt.sha1
  {
    if dt.sha1 != "" then dt.sha1 else dt.md5
  }

  /** Because the comparison is exact, an expected digest written with an
      upper-case hex letter never validates any file. */
  lemma UpperCaseDigestNeverValid(dt: DownloadType, contents: seq<Byte>, d: Digests, k: nat)
    requires IsLowerHex(d.sha1Hex(contents)) && IsLowerHex(d.md5Hex(contents))
    requires k < |ExpectedDigest(dt)| && IsUpper(ExpectedDigest(dt)[k])
    ensures !IsValidChecksum(dt, contents, d)
  {
  }

  /** `regexp.FindStringSubmatch` for a pattern with one capture group: no
      elements without a match, the match and the group with one. */
  function FindStringSubmatch(m: Submatch): (matches: seq<string>)
    ensures m.NoMatch? <==> |matches| == 0
    ensures m.Match? <==> |matches| == 2
    ensures m.Match? ==> matches[1] == m.group
  {
    match m
    case NoMatch => []
    case Match(whole, group) => [whole, group]
  }

  /** The Content-Disposition naming step AS WRITTEN: the header renames the
      file only when the submatch list has exactly one element. */
  function ResolveNameAsWritten(filename: string, contentDisposition: string, lib: Library): string
  {
    if contentDisposition != "" then
      var matches := FindStringSubmatch(lib.dispositionMatch(contentDisposition));
      if |matches| == 1 then matches[0] else filename
    else filename
  }

  /** The submatch list never has exactly one element, so as written the
      header never renames the file: `syncFile` always keeps the name it was
      given, even for `attachment; filename="My Book.pdf"`. */
  lemma DispositionNeverRenames(filename: string, contentDisposition: string, lib: Library)
    ensures ResolveNameAsWritten(filename, contentDisposition, lib) == filename
  {
  }

  /** The naming step as intended: a matching header names the file after
      its capture group; otherwise the given name is kept. */
  function ResolveName(filename: string, contentDisposition: string, lib: Library): (name: string)
    ensures contentDisposition != "" && lib.dispositionMatch(contentDisposition).Match? ==>
      name == lib.dispositionMatch(contentDisposition).group
    ensures contentDisposition == "" || lib.dispositionMatch(contentDisposition).NoMatch? ==>
      name == filename
  {
    if contentDisposition != "" then
      var matches := FindStringSubmatch(lib.dispositionMatch(contentDisposition));
      if |matches| == 2 then matches[1] else filename
    else filename
  }

  /** The code as written behaves like the intended naming applied to a
      response without a Content-Disposition header. */
  lemma ResolveNameAsWrittenIgnoresHeader(filename: string, contentDisposition: string, lib: Library)
    ensures ResolveNameAsWritten(filename, contentDisposition, lib) == ResolveName(filename, "", lib)
  {
  }

  /** The header `filename="My Book.pdf"` names the file `My Book.pdf`. */
  lemma ResolveNameFromHeader(lib: Library)
    requires lib.dispositionMatch("attachment; filename=\"My Book.pdf\"")
          == Match("filename=\"My Book.pdf\"", "My Book.pdf")
    ensures ResolveName("fallback.pdf", "attachment; filename=\"My Book.pdf\"", lib) == "My Book.pdf"
    ensures ResolveNameAsWritten("fallback.pdf", "attachment; filename=\"My Book.pdf\"", lib) == "fallback.pdf"
  {
  }

  /** A status in 200..299. */
  predicate IsSuccessStatus(status: int) {
    200 <= status <= 299
  }

  /** The two maps agree at `p`. */
  predicate SameAt(d1: Disk, d2: Disk, p: string) {
    && (p in d1.files <==> p in d2.files)
    && (p in d1.files ==> d1.files[p] == d2.files[p])
    && (p in d1.mtimes <==> p in d2.mtimes)
    && (p in d1.mtimes ==> d1.mtimes[p] == d2.mtimes[p])
  }

  /** Where the transfer steps stop. */
  datatype Fetched =
    | LastModifiedBad
    | StatusBad(status: int)
    | CreateBad
    | CopyBad
    | Written(data: seq<Byte>)

  datatype Transfer = Transfer(outcome: Fetched, disk: Disk)

  /** The transfer steps common to `syncFile` and the older goroutine body:
      parse Last-Modified, check the status, create (truncate) the file,
      copy the body into it, then set its modification time, ignoring
      whether that worked. Nothing is created or truncated unless the header
      parsed and the status is 2xx; only `path` is ever touched. */
  function Fetch(path: string, resp: Response, lib: Library, faults: Faults, disk: Disk): (t: Transfer)
    ensures t.outcome.LastModifiedBad? <==> lib.parseTime(resp.lastModified).None?
    ensures t.outcome.StatusBad? <==>
      lib.parseTime(resp.lastModified).Some? && !IsSuccessStatus(resp.status)
    ensures t.outcome.StatusBad? ==> t.outcome.status == resp.status
    ensures t.outcome.CreateBad? <==>
      lib.parseTime(resp.lastModified).Some? && IsSuccessStatus(resp.status) && faults.createFails
    ensures t.outcome.CopyBad? <==>
      && lib.parseTime(resp.lastModified).Some? && IsSuccessStatus(resp.status)
      && !faults.createFails && resp.body.Broken?
    ensures t.outcome.Written? ==> resp.body == Complete(t.outcome.data)
    ensures t.outcome.LastModifiedBad? || t.outcome.StatusBad? || t.outcome.CreateBad? ==> t.disk == disk
    ensures t.outcome.CopyBad? ==> path in t.disk.files && t.disk.files[path] == resp.body.partial
    ensures t.outcome.Written? ==> path in t.disk.files && t.disk.files[path] == t.outcome.data
    ensures t.outcome.Written? && !faults.chtimesFails ==>
      path in t.disk.mtimes && Some(t.disk.mtimes[path]) == lib.parseTime(resp.lastModified)
    ensures t.outcome.CopyBad? || (t.outcome.Written? && faults.chtimesFails) ==> path !in t.disk.mtimes
    ensures forall p :: p != path ==> SameAt(t.disk, disk, p)
  {
    match lib.parseTime(resp.lastModified)
    case None => Transfer(LastModifiedBad, disk)
    case Some(lastModified) =>
      if resp.status < 200 || resp.status > 299 then Transfer(StatusBad(resp.status), disk)
      else if faults.createFails then Transfer(CreateBad, disk)
      else
        var created := Disk(disk.files[path := []], disk.mtimes - {path});
        match resp.body
        case Broken(partial) => Transfer(CopyBad, created.(files := created.files[path := partial]))
        case Complete(data) =>
          var written := created.(files := created.files[path := data]);
          var stamped := if faults.chtimesFails then written
                         else written.(mtimes := written.mtimes[path := lastModified]);
          Transfer(Written(data), stamped)
  }

  /** The errors `syncFile` returns. */
  datatype SyncError =
    | DownloadError(url: string)
    | LastModifiedError
    | StatusError(status: int)
    | CreateError(path: string)
    | CopyError(path: string)
    | ChecksumError(path: string)

  datatype SyncResult = SyncResult(err: Option<SyncError>, disk: Disk)

  /** The destination of a file for a given response. */
  function SyncPath(outputDir: string, filename: string, resp: Response, lib: Library): string {
    Join(outputDir, ResolveName(filename, resp.contentDisposition, lib))
  }

  /** The skip test: the destination exists and passes the checksum. */
  predicate AlreadyValid(dt: DownloadType, path: string, lib: Library, disk: Disk) {
    path in disk.files && IsValidChecksum(dt, disk.files[path], lib.digests)
  }

  /** `syncFile`. The checks run in the order of the code: transport error,
      naming, skip, Last-Modified, status, create, copy, timestamp, verify;
      the first that stops decides the result. */
  function SyncFile(outputDir: string, filename: string, url: string, dt: DownloadType,
                    get: Get, lib: Library, faults: Faults, disk: Disk): (r: SyncResult)
    // A transport error returns before any filesystem action.
    ensures get.GetFailed? ==> r == SyncResult(Some(DownloadError(url)), disk)
    // A valid existing file wins over a bad header and a bad status.
    ensures get.Got? && AlreadyValid(dt, SyncPath(outputDir, filename, get.resp, lib), lib, disk) ==>
      r == SyncResult(None, disk)
    ensures get.Got? && !AlreadyValid(dt, SyncPath(outputDir, filename, get.resp, lib), lib, disk) ==>
      && (lib.parseTime(get.resp.lastModified).None? ==> r == SyncResult(Some(LastModifiedError), disk))
      && (lib.parseTime(get.resp.lastModified).Some? && !IsSuccessStatus(get.resp.status) ==>
            r == SyncResult(Some(StatusError(get.resp.status)), disk))
    // Past the skip test, each transfer step names its own error, and the
    // disk is what the transfer left: the partial body after a broken copy,
    // the full body (stamped when `Chtimes` works) after a complete one.
    ensures get.Got? && !AlreadyValid(dt, SyncPath(outputDir, filename, get.resp, lib), lib, disk) ==>
      var path := SyncPath(outputDir, filename, get.resp, lib);
      var t := Fetch(path, get.resp, lib, faults, disk);
      && r.disk == t.disk
      && (t.outcome.LastModifiedBad? <==> r.err == Some(LastModifiedError))
      && (t.outcome.StatusBad? <==> r.err == Some(StatusError(get.resp.status)))
      && (t.outcome.CreateBad? <==> r.err == Some(CreateError(path)))
      && (t.outcome.CopyBad? <==> r.err == Some(CopyError(path)))
      && (t.outcome.Written? ==>
            && (IsValidChecksum(dt, t.outcome.data, lib.digests) ==> r.err == None)
            && (!IsValidChecksum(dt, t.outcome.data, lib.digests) ==> r.err == Some(ChecksumError(path))))
    // The disk changes only once the header parsed, the status is 2xx and
    // the file could be created; then only at the destination.
    ensures r.disk != disk ==>
      && get.Got? && !AlreadyValid(dt, SyncPath(outputDir, filename, get.resp, lib), lib, disk)
      && lib.parseTime(get.resp.lastModified).Some? && IsSuccessStatus(get.resp.status)
      && !faults.createFails
    ensures get.Got? ==>
      forall p :: p != SyncPath(outputDir, filename, get.resp, lib) ==> SameAt(r.disk, disk, p)
    // A checksum mismatch leaves the written file in place.
    ensures r.err.Some? && r.err.value.ChecksumError? ==>
      && get.Got? && get.resp.body.Complete?
      && r.err.value.path == SyncPath(outputDir, filename, get.resp, lib)
      && r.err.value.path in r.disk.files
      && r.disk.files[r.err.value.path] == get.resp.body.data
      && !IsValidChecksum(dt, get.resp.body.data, lib.digests)
    // Success: skipped, or every step passed and the new file verifies.
    ensures r.err.None? <==>
      get.Got? &&
      (|| AlreadyValid(dt, SyncPath(outputDir, filename, get.resp, lib), lib, disk)
       || (&& lib.parseTime(get.resp.lastModified).Some? && IsSuccessStatus(get.resp.status)
           && !faults.createFails && get.resp.body.Complete?
           && IsValidChecksum(dt, get.resp.body.data, lib.digests)))
  {
    match get
    case GetFailed => SyncResult(Some(DownloadError(url)), disk)
    case Got(resp) =>
      var path := Join(outputDir, ResolveName(filename, resp.contentDisposition, lib));
      if path in disk.files && IsValidChecksum(dt, disk.files[path], lib.digests) then
        SyncResult(None, disk)
      else
        var t := Fetch(path, resp, lib, faults, disk);
        match t.outcome
        case LastModifiedBad => SyncResult(Some(LastModifiedError), t.disk)
        case StatusBad(status) => SyncResult(Some(StatusError(status)), t.disk)
        case CreateBad => SyncResult(Some(CreateError(path)), t.disk)
        case CopyBad => SyncResult(Some(CopyError(path)), t.disk)
        case Written(_) =>
          if IsValidChecksum(dt, FileContents(t.disk, path), lib.digests) then SyncResult(None, t.disk)
          else SyncResult(Some(ChecksumError(path)), t.disk)
  }

  /** Running `syncFile` again on the filesystem it left, with the same
      response, ends the same way and changes nothing more. The one exception
      is a broken copy whose partial file happens to pass the checksum, which
      the second run then skips. */
  lemma SyncFileRerunIsStable(outputDir: string, filename: string, url: string,
                              dt: DownloadType, get: Get, lib: Library,
                              faults: Faults, disk: Disk)
    ensures var r1 := SyncFile(outputDir, filename, url, dt, get, lib, faults, disk);
            var r2 := SyncFile(outputDir, filename, url, dt, get, lib, faults, r1.disk);
            r2 == r1 || (r1.err.Some? && r1.err.value.CopyError? && r2 == SyncResult(None, r1.disk))
  {
  }


}
