# Upload preparation in git-lfs, modelled in Dafny

This project models how the git-lfs client prepares one object for upload
(`lfs/upload_queue.go`).

- `NewUploadable(oid, filename)` resolves the object's path in the local
  object store. When a working-copy file name is given, it first reconciles
  the object with that file (`ensureFile`).
- If the object is already in the store, reconciliation accepts at once.
- Otherwise the working-copy file is opened and stat'ed, then cleaned by
  `PointerClean`. The staging file the clean returns is torn down, and the
  cleaned OID must equal the OID named by the last element of the store path.
- `NewUploadable` then stats the store path and builds an `Uploadable`. That
  record holds the OID, the store path, the file name and the size. It also
  holds an authorized object, which starts nil and is set by `SetObject`.

Every fact the code reads from outside comes in through an `Env` value:

- the filesystem, as a map from path to file;
- the working directory (`config.LocalWorkingDir`);
- `LocalMediaPath`, a function that may fail;
- `PointerClean`, a function from the file's bytes, name and size to the
  `(cleaned, err)` pair.

`EnsureFile` and `BuildUploadable` are functions of that environment. Each
returns an outcome plus a trace: the calls it made, in order (stat, open,
stat on the handle, clean, teardown, close). Properties such as "no open is
attempted", "the teardown runs exactly once" and "the handle is closed last" are
stated over that trace. The method `NewUploadable` follows the source's early
returns and allocates the `Uploadable` object. It is proved to agree with
`BuildUploadable`.

Files:

- `paths.dfy`: the `filepath.Base`, `Dir` and `Join` behaviour the code relies on.
- `filesystem.dfy`: the filesystem and the trace.
- `upload_queue.dfy`: the upload preparation and the `Uploadable` class.
- `wrappers.dfy`: `Option` and `Result`.

Behaviour of the code that the model keeps:

- `Teardown` runs only when `PointerClean` returned a non-nil value
  (lines 123-126), whether or not it also returned an error.
- Nothing in `ensureFile` writes the store path: it tears down the staging
  file the clean returned and compares OIDs. The model also takes
  `PointerClean` to leave the filesystem unchanged. That is an assumption,
  since `PointerClean` is not part of this model. Under it, with the object
  absent, `NewUploadable` ends in the stat error of lines 37-39 even after a
  successful reconciliation (`NewUploadableSucceedsIffStored`). Whether the
  real `PointerClean` stores the object is not decided here.
- If `PointerClean` returned a nil pointer and a nil error, line 132 would
  dereference nil and panic. The model makes that an outcome of its own,
  `NilDereference`.

## Model

| member | source | states |
|---|---|---|
| `Paths.Base` | lfs/upload_queue.go:109 | the result is "." for the empty path and "/" for a path of separators only; otherwise it is a single element that ends the path once trailing separators are removed, preceded by a separator or by nothing |
| `Paths.Dir` | lfs/upload_queue.go:133 | "." when the path has no separator; "/" when its last separator is the first character; otherwise exactly the prefix before the last separator |
| `Paths.Join` | lfs/upload_queue.go:110 | an empty side is dropped; otherwise the result is the first path, one separator (omitted when the first path already ends in one) and the second path, with nothing else in between |
| `Paths.BaseOfJoin` | lfs/upload_queue.go:109-110 | the base name of a directory joined with an element (a name other than "." and "..") is that element |
| `Paths.DirOfJoin` | lfs/upload_queue.go:133 | the directory of `dir` joined with an element is `dir` itself, when `dir` is non-empty and is "/" or has no trailing separator |
| `UploadQueue.EnsureFile` | lfs/upload_queue.go:104-137 | succeeds iff reconciliation is satisfied: the object is stored, or the working copy opens, stats and cleans without error to the expected OID. The first call is the stat of the store path. An open is attempted iff the object is absent. The clean runs iff the open and the stat on the handle succeed. The run panics iff the clean ran and returned neither pointer nor error |
| `UploadQueue.EnsureFileSkipsStoredObject` | lfs/upload_queue.go:105-107 | a stored object is accepted after one stat, with no open attempted and nothing cleaned |
| `UploadQueue.EnsureFileOpenFailure` | lfs/upload_queue.go:110-114 | a working copy at `LocalWorkingDir` joined with `smudgePath` that does not open gives that open error; nothing is cleaned or closed |
| `UploadQueue.EnsureFileFstatFailure` | lfs/upload_queue.go:116-121 | a handle whose stat fails gives that error; nothing is cleaned and the handle is closed |
| `UploadQueue.EnsureFileClosesHandle` | lfs/upload_queue.go:111-116 | once the working copy is open, the deferred close is the last call on every path |
| `UploadQueue.EnsureFileTeardownOnce` | lfs/upload_queue.go:123-126 | exactly one teardown, of the staging file the clean returned, whenever the clean returned one, including when it also returned an error; no teardown otherwise |
| `UploadQueue.EnsureFileCleanError` | lfs/upload_queue.go:128-130 | a clean error is the result, whatever OID came with it |
| `UploadQueue.EnsureFileComparesOid` | lfs/upload_queue.go:132-136 | after a successful clean: success iff the cleaned OID equals the last element of `cleanPath`; otherwise the mismatch error names `smudgePath`, that expected OID and the directory of `cleanPath` |
| `UploadQueue.ExpectedOidOfShardedPath` | lfs/upload_queue.go:109 | for a store path `<root>/<ab>/<cd>/<oid>`, the expected OID is `oid` and the directory is `<root>/<ab>/<cd>` |
| `UploadQueue.EnsureFileAgainstShardedPath` | lfs/upload_queue.go:109-136 | under that layout, a cleaned working copy is accepted iff it cleans to the requested OID |
| `UploadQueue.BuildUploadable` | lfs/upload_queue.go:25-43 | a failed `LocalMediaPath` gives its error, wrapped with the file name and OID, before any call. An empty file name skips reconciliation: no open is attempted and nothing is cleaned. A reconciliation error is returned unchanged. A missing store object gives the wrapped stat error. Success gives the given OID and file name, the media path and the stored object's size |
| `UploadQueue.NewUploadableSucceedsIffStored` | lfs/upload_queue.go:26-42 | construction succeeds iff the media path resolves and the object is in the store at that path |
| `UploadQueue.NewUploadable` | lfs/upload_queue.go:25-43 | agrees with `BuildUploadable` on success, error and panic. On success it returns a fresh `Uploadable` built from those values, with no authorized object |
| `UploadQueue.Uploadable.constructor` | lfs/upload_queue.go:42 | the fields are the given values and the authorized object is nil (`None`) |
| `UploadQueue.Uploadable.Oid` | lfs/upload_queue.go:79-81 | returns the OID given at construction |
| `UploadQueue.Uploadable.Size` | lfs/upload_queue.go:83-85 | returns the size given at construction |
| `UploadQueue.Uploadable.Name` | lfs/upload_queue.go:87-89 | returns the file name given at construction |
| `UploadQueue.Uploadable.Object` | lfs/upload_queue.go:75-77 | `None` after construction and `o` after `SetObject(o)`, as the constructor and `SetObject` state |
| `UploadQueue.Uploadable.SetObject` | lfs/upload_queue.go:91-93 | afterwards `Object()` returns the given object; `Oid()`, `Size()`, `Name()` and the store path are unchanged |

## Left out

- `Uploadable.Transfer` (lines 49-73): it streams the file through a progress reader to `api.UploadObject`. That is network and stream I/O through types this model does not include.
- `Uploadable.Check` (lines 45-47): a thin wrapper over the remote `api.UploadCheck` call.
- `NewUploadQueue` (lines 96-100): it delegates to `newTransferQueue`, whose worker pool is not part of this model. It only sets the queue's transfer kind to "upload".
- `UploadQueue.EnsureFile`: does not state the promise of the comment at lines 102-103, that `ensureFile` "makes sure that the cleanPath exists". No line of `ensureFile` writes `cleanPath`, and `PointerClean`, which might, is not part of this model: it is an input assumed to leave the filesystem unchanged. So the model promises only the check (reconciliation succeeds iff `Reconciled` holds), not that the object is in the store afterwards.
- `PointerClean` and `LocalMediaPath` are inputs of the environment, not modelled functions. Hashing, temp-file staging and the directory creation inside `LocalMediaPath` are not modelled. `PointerClean` is assumed to leave the filesystem unchanged.
- `Paths.Dir`: does not apply `filepath.Clean` to its result, so repeated separators and `.`/`..` elements are not normalised.
- `Paths.Join`: does not apply `filepath.Clean`, so only a separator already ending the first path is merged.
- `Paths.Base`: POSIX paths only. Windows volume names and `\` separators are not modelled.
- The filesystem is one map from path to file. `os.Stat` succeeds exactly on its keys. The different reasons a stat or an open can fail are not told apart, and directories are not distinguished from files.
- Sizes are unbounded integers. The 64-bit width of `int64` is not modelled, since no file length reaches it.
- The text of the error messages is left out. The model keeps which values each error names.
- The authorized object (`api.ObjectResource`) is reduced to its OID, size and named action links. The remote's expiry times are not kept.
