# hb-downloader: a Dafny model of its download core

hb-downloader fetches the files of a user's storefront purchases. It lists the
user's orders, fetches each order's metadata, and downloads every format of
every product into a directory named after the bundle. In `syncFile`, a file
already on disk with the published checksum is kept: the GET is still sent,
but its body is not copied again. The older snapshot in main.go fetches and
overwrites such a file.

This project models the decision logic of that core and proves what it does:

- `Util` (util.go): the current file-name sanitiser, four one-for-one character
  replacements.
- `HumbleBundle` (humblebundle.go): the decoded order records, the file
  extension of a format, the key-extraction loop of `GetOrders`, and the error
  returns of `GetOrders` and `GetOrder`. Each response is an abstract outcome.
- `Downloader` (downloader.go): the checksum policy, and `syncFile` as a
  function over abstract step outcomes and a filesystem value. The step
  outcomes are the GET, the Content-Disposition match, Last-Modified parsing,
  create, copy and `Chtimes`.
- `Legacy` (main.go): the older snapshot. It has its own sanitiser, the
  bundle directory, the per-file name builder, the goroutine body,
  `sync.WaitGroup` as a class with a counter, and `downloadOrder`. The
  nested loops of `downloadOrder` start one task per format, and every task
  calls `Done` before `Wait`.
- `GoStrings` and `Common`: models of the Go library functions the core calls
  (`strings.Replace`, `strings.ToLower`, `strings.TrimPrefix`, `path.Join`),
  plus `Option` and `Byte`.

Hash functions, the regular expression and HTTP date parsing are parameters of
the model (`Downloader.Library`), so every result holds for any such
functions. `isValidChecksum` at main.go:114-137 is textually identical to the
one in downloader.go and is modelled once, by `Downloader.IsValidChecksum`.

Behaviour of the code worth knowing, which the model keeps as it is:

- A SHA1 mismatch is final; there is no MD5 fallback
  (`Downloader.Sha1MismatchIsNotRescuedByMd5`).
- A Last-Modified header that does not parse fails `syncFile`. It is also
  checked before the status code. A missing header reads as the empty string
  and fails too.
- The skip check runs before the status check, so a valid file is kept even
  when the response is an error.
- The fallback name keeps the product's display name as it is; only the
  format extension is lower-cased (`Legacy.TaskFileName`). A name taken from
  Content-Disposition is not sanitised.

## Model

| member | source | states |
|---|---|---|
| `Util.SanitizedChar` | util.go:6-9 | `/` becomes `_`, `:` `!` `?` become a space, every other character is kept |
| `Util.RemoveIllegalCharacters` | util.go:5-11 | the result has the input's length, each position is the sanitised input character, and no `/`, `:`, `!` or `?` remains |
| `Util.RemoveIllegalCharactersIdempotent` | util.go:5-11 | sanitising twice equals sanitising once |
| `Util.RemoveIllegalCharactersKeepsLegalNames` | util.go:5-11 | a name without the four characters is returned unchanged |
| `GoStrings.ReplaceAll` | util.go:6 | `strings.Replace(s, from, to, -1)` for single characters: same length, every `from` becomes `to`, other positions unchanged |
| `GoStrings.ReplaceFirst` | main.go:208-209 | every character of the result comes from the input or from the replacement |
| `GoStrings.ReplaceFirstAt` | main.go:208-209 | `strings.Replace(s, pat, rep, 1)` replaces only the leftmost occurrence and keeps everything after it |
| `GoStrings.ReplaceFirstAbsent` | main.go:208-209 | a string without an occurrence is returned unchanged |
| `GoStrings.TrimPrefix` | humblebundle.go:37 | one leading copy of the prefix is removed when present; otherwise the string is unchanged |
| `GoStrings.ToLower` | humblebundle.go:37 | same length, and each position holds the input character in lower case (ASCII letters) |
| `GoStrings.Join` | downloader.go:58 | an empty element is dropped; two non-empty elements are joined by one slash |
| `HumbleBundle.FileExtension` | humblebundle.go:36-38 | at most one leading dot is removed (length drops by one exactly when the name starts with a dot), every other character is lower-cased in place, and no upper-case letter remains |
| `HumbleBundle.FileExtensionTrimsOneDot` | humblebundle.go:37 | `..PDF` gives `.pdf`: only one dot is trimmed |
| `HumbleBundle.CollectKeys` | humblebundle.go:112-116 | the keys list has one entry per order, and entry i is order i's game key |
| `HumbleBundle.GetOrders` | humblebundle.go:97-117 | transport failure and non-200 status end the process; a decode failure returns no keys and an error; otherwise every key in order and no error |
| `HumbleBundle.GetOrder` | humblebundle.go:119-137 | transport failure, then non-200, then read failure return the zero order with that error; otherwise the decoded order, with an error exactly when decoding failed |
| `Downloader.FileContents` | downloader.go:17-31 | a file that cannot be opened is hashed as the empty stream |
| `Downloader.IsValidChecksum` | downloader.go:16-39 | with an expected SHA1 only the SHA1 digest decides; otherwise the MD5 digest decides; plain string equality |
| `Downloader.Sha1MismatchIsNotRescuedByMd5` | downloader.go:23-37 | a SHA1 mismatch is invalid even when the MD5 matches |
| `Downloader.Md5IgnoredWhenSha1Expected` | downloader.go:34-37 | with an expected SHA1, the MD5 fields and digest do not affect the verdict |
| `Downloader.UpperCaseDigestNeverValid` | downloader.go:32-37 | against lower-case hex digests, an expected digest with an upper-case letter never validates |
| `Downloader.FindStringSubmatch` | downloader.go:51-52 | a one-group pattern yields no elements without a match and two (match, group) with one |
| `Downloader.DispositionNeverRenames` | downloader.go:50-55 | as written, the Content-Disposition header never changes the file name |
| `Downloader.ResolveNameAsWrittenIgnoresHeader` | downloader.go:49-56 | the code as written names files as if no Content-Disposition header were sent |
| `Downloader.ResolveName` | downloader.go:48-56 | corrected: a matching header names the file after the capture group, otherwise the given name is kept |
| `Downloader.ResolveNameFromHeader` | downloader.go:48-56 | `filename="My Book.pdf"` gives `My Book.pdf` when corrected, and the fallback name as written |
| `Downloader.Fetch` | downloader.go:67-88 | Last-Modified failure, then bad status, then create failure, then copy failure, each characterised exactly; nothing is created or truncated before the status passes; a broken copy leaves its prefix; a complete copy gets the Last-Modified time when `Chtimes` works, and after a broken copy or a failed `Chtimes` the path has no recorded time; no other path changes |
| `Downloader.SyncFile` | downloader.go:41-95 | a transport error returns `DownloadError(url)` before any file action; a valid existing file returns nil even on a bad header or status; past the skip, the filesystem is what `Fetch` left and each step has its own error: bad Last-Modified `LastModifiedError`, bad status `StatusError(status)`, failed create `CreateError(path)`, broken copy `CopyError(path)` (partial body left), mismatch `ChecksumError(path)` (full body left); nil exactly when skipped or all steps passed and the file verifies |
| `Downloader.SyncFileRerunIsStable` | downloader.go:41-95 | rerunning on the filesystem left behind gives the same result and filesystem, except a broken copy whose prefix happens to verify |
| `Legacy.RemoveIllegalCharactersOld` | main.go:82-87 | `/` becomes `_`, `:` becomes `;`, `!` becomes `l`, in place; same length; none of the three remains |
| `Legacy.RemoveIllegalCharactersOldIdempotent` | main.go:82-87 | the older sanitiser is idempotent |
| `Legacy.BundleName` | main.go:178-181 | the human name, or the machine name exactly when the human name is empty |
| `Legacy.OutputDir` | main.go:182 | the sanitised bundle name, which has no separator, joined to the parent directory; an empty bundle name leaves the parent directory itself |
| `Legacy.TaskFileName` | main.go:254 | the sub-product's human name, a dot, then the format's file extension |
| `Legacy.CleanFileName` | main.go:206-209 | the cleaned name has no `/`, `:` or `!`, so it never adds a directory level |
| `Legacy.CleanFileNameKeepsPlainNames` | main.go:207-209 | a legal name without `.supplement` and `.download` is used unchanged |
| `Legacy.CleanFileNameSupplement` | main.go:207-209 | for a base with no `.`, `/`, `:` or `!`, `<base>.supplement` becomes `<base>_supplement.zip` |
| `Legacy.DownloadTask` | main.go:202-254 | the skip check only logs; failures in the order transport, Last-Modified, status, create, copy; a checksum mismatch ends as a logged `Finished(false)` |
| `Legacy.DownloadTaskIgnoresExistingFile` | main.go:213-218 | the goroutine ends the same way whether or not a valid file already existed |
| `Legacy.DownloadTaskDestroysValidFile` | main.go:213-246 | a valid file is truncated and left partial by a broken copy, where `syncFile` would skip it |
| `Legacy.TypeTasks` | main.go:199-201 | one task per format, in order |
| `Legacy.DownloadTasksCount` | main.go:196-201 | a sub-product's tasks number its formats summed over its download groups |
| `Legacy.ProductTasksCount` | main.go:193-201 | exactly one task per download type, summed over all sub-products and their groups |
| `Legacy.WaitGroup.constructor` | main.go:191 | a new group's counter is zero |
| `Legacy.WaitGroup.Add` | main.go:201 | the counter grows by the given amount |
| `Legacy.WaitGroup.Done` | main.go:204 | the counter drops by one, and it must be positive, since Go panics on a negative counter |
| `Legacy.StartTypes` | main.go:199-201 | the innermost loop starts the formats' tasks and adds one to the WaitGroup per task |
| `Legacy.StartDownloads` | main.go:196-201 | the middle loop starts every group's tasks, counting each |
| `Legacy.StartProducts` | main.go:193-201 | the outer loop starts every sub-product's tasks, counting each |
| `Legacy.RunAll` | main.go:202-258 | every task runs once, in launch order, and its `Done` brings the counter back to zero |
| `Legacy.RunTasks` | main.go:202-254 | one result per started task |
| `Legacy.RunTasksInOrder` | main.go:202-254 | task k runs with its own network outcome on the filesystem task k - 1 left, and the first on the starting filesystem |
| `Legacy.DownloadOrder` | main.go:161-259 | query failures and a mkdir failure end the process; otherwise the tasks are exactly one per download type and `Wait` is reached only with the counter at zero |
| `Legacy.GetOrderList` | main.go:139-159 | every query failure, including a decode failure, ends the process; otherwise every key in order |

Definitions that the contracts above use, with no contract of their own:
`Downloader.AlreadyValid` is the skip test at downloader.go:61-65 (used in
the `Downloader.SyncFile` and `Legacy.DownloadTask` rows).
`Downloader.ResolveNameAsWritten` is the naming at downloader.go:50-55 as
written (the `Downloader.DispositionNeverRenames` row). `Legacy.WaitGroup.Wait`
(main.go:258) requires the counter to be zero, which is how
`Legacy.DownloadOrder` proves that every task has called `Done`.

## Left out

- HTTP and authentication (`AuthGet`, `authGet`, the session cookie, URL and API path building): network I/O. Each query's response is an abstract outcome.
- `NewHumbleBundleAPI`: it only stores the cookie.
- JSON decoding: the decoded value and whether decoding failed are part of the response outcome.
- The MD5 and SHA1 algorithms and `%x` formatting: digests are function parameters.
- `regexp` matching and `http.ParseTime`: function parameters.
- `path.Clean`, which `path.Join` applies: `GoStrings.Join` only drops empty elements and inserts one slash, so `.`/`..` elements and doubled slashes are not normalised. For example, a bundle named `..` gives `parentDir/..` in the model, where Go cleans `path.Join("out", "..")` to `.`.
- Filesystem detail: `os.Stat` failing for reasons other than a missing file. A read error part-way through hashing is also not modelled (the model hashes the whole file, or nothing when it cannot be opened). `os.MkdirAll` is only a failure flag, and directories are not modelled.
- Goroutine interleavings: the model runs the tasks of `downloadOrder` one after another in launch order. Concurrent writes to the same path are not modelled.
- Logging, `log.Fatal` (modelled as an `Exit` outcome), `main` and flag parsing. The `filter` flag is declared but never read.
- `AmountSpent`: a float that is never used.
- `GoStrings.ToLower`: lower-cases ASCII letters only; Go's `strings.ToLower` also maps non-ASCII letters.
- `GoStrings.Join`: does not apply `path.Clean`. So `Join("out/", "x")` gives `out//x` where Go gives `out/x`, and `.`/`..` elements are not resolved.
- `Legacy.OutputDir`: built on `GoStrings.Join`, so it inherits the missing `path.Clean`. A `parentDir` with a trailing slash, or a bundle named `.` or `..`, gives a different path from Go's.
- `HumbleBundle.FileExtension`: lower-cases ASCII letters only; Go's `strings.ToLower` also maps non-ASCII letters.
- `Downloader.SyncFile`: uses the corrected Content-Disposition naming (see Findings). As written, `syncFile` behaves like `SyncFile` on a response without that header (`Downloader.ResolveNameAsWrittenIgnoresHeader`).

## Findings

| source | as written | input that shows it | evidently intended | confidence | as-written member | corrected member |
|---|---|---|---|---|---|---|
| downloader.go:50-55 | the header renames the file only when `len(matches) == 1`, taking `matches[0]` | `Content-Disposition: attachment; filename="My Book.pdf"`: the one-group pattern yields two submatches, so the file keeps its fallback name; no header can ever rename it | rename when the pattern matches (`len(matches) == 2`) to the capture group `matches[1]` | high; not executed | `Downloader.DispositionNeverRenames` | `Downloader.ResolveName` |
