# skicka upload server — Dafny model

skicka is a small HTTP server that takes a multipart file upload and stores it
in a media directory. The repository holds two versions of it:

- `cmd/skicka.go` is the current server. On a name clash it stores the upload
  under a new name, made by inserting `(0)`, `(1)`, … before the extension
  (`getFileName`).
- `src/main.go` is the older server. Its media directory is fixed at
  `/tmp/skicka/`, and on a clash it answers 303 "file already exists" without
  storing anything.

This model covers both upload handlers, the name resolver, the JSON reply
helper `respond`, and the two start-up helpers `initMediaFolder` and
`getLocalIp`. The filesystem is a `FileSystem` object holding a map from path
to entry (file bytes or directory). It also holds the set of paths on which
`os.Stat` fails for a reason other than "does not exist". `os.Stat` is a
lookup in these two fields. Whether `os.Create`, `io.Copy` and `os.Mkdir`
fail is decided by the environment, so each of those calls takes the
outcome as a parameter.

Modules, one per concern:

- `Wrappers` (`wrappers.dfy`): `Option`.
- `Decimal` (`decimal.dfy`): `%d` rendering of the round number, and the parse that inverts it.
- `Strings` (`strings.dfy`): `strings.HasPrefix`, `strings.Index`, and `strings.Replace` with n = 1.
- `Paths` (`paths.dfy`): `filepath.Ext`, `filepath.Join`, the candidate names, and the specification of the resolver (`IsFirstFree`, `Resolve`).
- `Files` (`files.dfy`): the filesystem class.
- `Http` (`http.dfy`): the parsed request, the reply, `respond`, and the messages both servers share.
- `Startup` (`startup.dfy`): `initMediaFolder` and `getLocalIp`. `getLocalIp` is identical in both programs (`cmd/skicka.go:144-157`, `src/main.go:124-137`). `initMediaFolder` has the same logic in both: `cmd/skicka.go:122-141` takes the directory (and the logger) as parameters, while `src/main.go:102-121` uses the constant `/tmp/skicka/` and a package-level logger. So the model defines each once, and `Legacy.InitMediaFolder` applies it to the fixed directory.
- `Skicka` (`skicka.dfy`): `cmd/skicka.go`'s `getFileName` and its rename-on-conflict handler.
- `Legacy` (`legacy.dfy`): `src/main.go`'s reject-on-conflict handler and its `initMediaFolder` on `/tmp/skicka/`.

Four behaviours of the code worth knowing:

- A failed existence check is not reported to the caller. `getFileName`
  treats every `os.Stat` error as "free" and always returns a nil error. So
  the handler's 500 "unable to generate file path" branch can never run.
  `Skicka.GetFileName` promises `err == None`.
- The file is not created exclusively. `os.Create` truncates a file that is
  already there. `Files.FileSystem.Create` stores an empty file either way.
- `respond` sets `Content-Type: application/json` even when the payload is
  nil. Only the unreachable marshal-error branch skips it.
- A missing or malformed form field produces no reply at all. The handlers
  return `None` for that case. Go's `net/http` would then send an implicit
  empty 200, which is not modelled.

## Model

| member | source | states |
|---|---|---|
| `Decimal.Dec` | cmd/skicka.go:61 | `%d` of the round number is a non-empty run of digits, with a leading zero only for 0 |
| `Decimal.ValueOfDec` | cmd/skicka.go:61 | parsing the rendered digits gives the round number back |
| `Decimal.DecInjective` | cmd/skicka.go:61 | distinct round numbers render as distinct digit strings |
| `Strings.IndexOf` | src/main.go:133 | `strings.Index` finds an occurrence with no earlier one, and finds none exactly when the pattern occurs nowhere |
| `Strings.HasPrefix` | src/main.go:132 | `strings.HasPrefix` holds exactly when the string is at least as long as the prefix and agrees with it character by character |
| `Strings.ReplaceOnce` | src/main.go:133 | `strings.Replace(addr, "/24", "", 1)`: no occurrence leaves the string as it was; otherwise everything before the first occurrence is kept, the replacement stands there, and putting the pattern back restores the string |
| `Strings.ReplaceOnceKeepsPrefix` | src/main.go:132-133 | the replacement cannot touch a prefix in which the pattern's first character does not occur |
| `Paths.Ext` | cmd/skicka.go:59 | `filepath.Ext` returns a suffix that is empty or starts with `.`, holds no `/` and no second `.` |
| `Paths.ExtEmptyNoDot` | cmd/skicka.go:59 | an empty extension means the final path element holds no `.` |
| `Paths.ExtUnique` | cmd/skicka.go:59 | any suffix meeting that description equals `Ext`, so the extension starts at the last `.` of the final element |
| `Paths.StemAndExt` | cmd/skicka.go:59-60 | `fp[:len(fp)-len(extension)]` and the extension split the path back into the whole; a path without an extension is its own stem |
| `Paths.Join` | cmd/skicka.go:84 | the joined path starts with the directory, ends with the file name, and is at least as long as both together |
| `Paths.CandidateParts` | cmd/skicka.go:58-61 | the candidate `Sprintf("%s(%d)%s", stem, i, ext)` (`Paths.Candidate`) keeps the original extension, and its stem is the original stem plus exactly one `(i)` |
| `Paths.CandidateInjective` | cmd/skicka.go:58-62 | different rounds build different candidate paths |
| `Paths.CandidateNotOriginal` | cmd/skicka.go:55-61 | no candidate equals the original path |
| `Paths.CandidatesDoNotNest` | cmd/skicka.go:58-61 | because each round restarts from the original path, no candidate has two disambiguators (never `a(0)(1).txt`) |
| `Paths.TakenCandidatesBounded` | cmd/skicka.go:54-63 | if rounds 0..n-1 all hit existing paths, then n is at most the number of existing paths, and less than it when the original path exists too |
| `Paths.FirstFreeRoundBounded` | cmd/skicka.go:54-63 | the first free round is at most the number of existing paths; when the original path exists it is below that number, so the original and rounds 0..i take at most (number of existing paths + 1) `os.Stat` calls |
| `Paths.FirstFreeUnique` | cmd/skicka.go:53-62 | at most one path is "the original if free, else the first free candidate" |
| `Paths.FirstFreeExists` | cmd/skicka.go:54-63 | with finitely many existing paths, such a path always exists |
| `Paths.Resolve` | cmd/skicka.go:51-64 | the specified result of the resolver: the first free path in the order original, `(0)`, `(1)`, …; it does not exist |
| `Paths.ResolveFirstRound` | cmd/skicka.go:55-61 | a free path is kept unchanged; a taken path whose `(0)` candidate is free moves to that candidate, whatever else exists |
| `Paths.TxtExample` | cmd/skicka.go:59-61 | `a.txt` becomes `a(0).txt` in round 0 |
| `Paths.TarGzExample` | cmd/skicka.go:59-61 | only the last extension moves: `a.tar.gz` becomes `a.tar(0).gz` |
| `Paths.ReadmeExample` | cmd/skicka.go:59-61 | an extensionless name gets no trailing dot: `readme(1)` |
| `Paths.DottedDirectoryExample` | cmd/skicka.go:59-61 | a dot in a directory name is not an extension: `d.x/n(12)` |
| `Files.FileSystem.Stat` | cmd/skicka.go:55 | `os.Stat` succeeds exactly on a present path without a fault, reporting whether it is a directory; it reports "does not exist" exactly on an absent path without a fault, and any other failure as a stat error (also src/main.go:68, 103 and cmd/skicka.go:123) |
| `Files.FileSystem.Occupied` | cmd/skicka.go:55 | the paths that count as taken are exactly those on which `os.Stat` succeeds |
| `Files.FileSystem.Create` | cmd/skicka.go:93 | `os.Create` either fails and changes nothing, or leaves an empty file at the path |
| `Files.FileSystem.Copy` | cmd/skicka.go:101 | `io.Copy` either stores all the uploaded bytes, or fails and leaves whatever bytes it wrote |
| `Files.FileSystem.Mkdir` | cmd/skicka.go:125 | `os.Mkdir` either fails and changes nothing, or adds a directory at the path |
| `Files.AddsExactlyOne` | cmd/skicka.go:93-110 | storing under an absent path adds exactly that key and leaves every other entry as it was; both handlers use it to promise one more entry after an upload to a path that was absent |
| `Http.Marshal` | src/main.go:32-34 | the JSON encoding of a constant message decodes back to the message |
| `Http.Respond` | src/main.go:29-48 | `respond` always sets the JSON content type and the given status; a nil payload gives an empty body, a message gives a body that decodes to it |
| `Startup.InitMediaFolder` | cmd/skicka.go:122-141 | absent: mkdir, returning its error; other stat error: returned; not a directory: "media dir path is not a directory", no change; directory: success, no change; success exactly when a directory stands there afterwards |
| `Startup.GetLocalIp` | src/main.go:124-137 | the first address starting with `192.168.`, with its first `/24` removed; "UNKNOWN" exactly when the lookup failed or no address matches (identical at cmd/skicka.go:144-157) |
| `Startup.LanAddressIsKnown` | src/main.go:131-136 | a found address keeps its `192.168.` prefix, so it is never "UNKNOWN" |
| `Skicka.GetFileName` | cmd/skicka.go:51-64 | returns `fp` when `os.Stat(fp)` fails, otherwise the candidate of the first round whose `os.Stat` fails; the path returned does not pass `os.Stat`; the error is always nil; the loop is proved to end, its round never above the number of existing paths |
| `Skicka.UploadHandler.Handler` | cmd/skicka.go:67-111 | form error: no reply, no change; create fails: 500 "unable to create file on filesystem", no change; copy fails: 500 "unable to upload file", partial file left at the resolved path; success: 201 "file upload successful", and the resolved path, which was free, now holds the uploaded bytes; nothing else changes; once the create succeeds, an upload to a path that was absent adds exactly one entry |
| `Skicka.SameNameTwice` | cmd/skicka.go:84-110 | two uploads of one non-empty name into a media directory that exists and is empty both get 201; the first keeps its name, the second lands at the `(0)` candidate, and the directory and the first file are untouched |
| `Legacy.UploadHandler` | src/main.go:51-92 | form error: no reply, no change; the path passes `os.Stat`: 303 "file already exists", no change; otherwise the same create, copy and success outcomes at the unrenamed path, and one more entry when the create succeeds on a path that was absent |
| `Legacy.InitMediaFolder` | src/main.go:102-121 | the same four outcomes for the fixed directory `/tmp/skicka/` |
| `Legacy.SameNameTwice` | src/main.go:66-91 | two uploads of one non-empty name into `/tmp/skicka/`, which exists and is empty: 201, then 303; only the first file is stored beside the directory |

## Left out

- HTTP routing (`mux`), `ListenAndServe`, `main`, and the static front-end (`static/embed.go`, the `packr` box): these are wiring with no decision logic.
- Multipart parsing by `r.FormFile`: the handlers take its result as input, either a parse error or a file name with its bytes. The declared size is only logged, so it is not modelled.
- Streaming in `io.Copy`: modelled as one write that either completes or fails. A failed write leaves arbitrary bytes, and nothing stronger is claimed about the partial file.
- `Http.Respond`: requires a message that `json.Marshal` copies verbatim (printable ASCII without `"`, `\`, `<`, `>`, `&`). Go's general escaping rules are not modelled. Every payload the servers send is such a constant. The marshal-error branch cannot fire for a string payload, so it is not modelled.
- Logging (`logrus`) and the `-h` usage printout: output only, no effect on the decisions.
- Configuration parsing (`conf.Parse` of the media directory, port and debug flag): the media directory is a field of `Skicka.UploadHandler` and a parameter of `Startup.InitMediaFolder`.
- `net.InterfaceAddrs`: its result is an input to `Startup.GetLocalIp`, either failure or a list of the strings `addr.String()` gives.
- `filepath.Join`'s cleaning: `.`, `..`, repeated separators and trailing slashes are not normalised. Paths are opaque keys of the map, so the model also does not capture that `os.Stat("/tmp/skicka/")` on a regular file reports "not a directory" as a stat error.
- The race between `os.Stat` and `os.Create` in concurrent requests: the model is sequential. It assumes the filesystem does not change between the check and the create.
- Failures the operating system would force: whether create, copy and mkdir fail is a parameter. For example, the model does not derive that creating over a directory always fails.
- The width of Go's `int` for the round counter: overflow would need more than 2^63 existing files. The loop is proved to stop within (number of existing paths + 1) rounds.
- Closing the upload and the created file (`defer file.Close()`, `defer uploadFile.Close()`): these run after the reply is written, and their errors are ignored, not even logged.
- Errors from writing the reply body in `respond`: these are only logged.
- The mode bits `0755` given to `os.Mkdir`.
- Byte strings: a Go `string`, like a filename the server receives, is any sequence of bytes, while Dafny's `string` is a sequence of characters. This does not change `Paths.Ext`, `Paths.Stem` or `Paths.Candidate`, because `.` and `/` are single ASCII bytes and UTF-8 never uses them inside a multi-byte character. So the model's paths stand for Go's byte strings one character per byte.
