# easysftp, modelled in Dafny

easysftp is a small Go wrapper around an SFTP client. It downloads and uploads
single files, downloads a whole remote directory tree, uploads a list of files,
and closes the SSH and SFTP clients. This project models that logic in `easysftp.go`
over an abstract, in-memory filesystem and proves properties of the model.

Both the local and the remote filesystem are a `map<Path, Entry>`. An `Entry` is
either `Dir(mode)` or `File(bytes)`. Every primitive the library calls takes an
optional injected failure, standing for every cause the model does not otherwise
represent:

- `os.Stat`, `os.Mkdir` and `os.Create`, plus `Client.Create` and `Client.Open` on the remote side;
- `io.Copy`, which can fail after part of the data has been written;
- `File.Sync`.

When nothing is injected, a primitive behaves as the operating system does on the
map. `Mkdir` is not recursive. `Create` truncates an existing regular file and
refuses a directory. A path below a regular file resolves to "not a directory".

Paths are cleaned component sequences:

- `Absolute(names)`;
- `Relative(ups, names)`, that is, `ups` times `..` followed by names.

`Paths.Rel` and `Paths.Join` follow Go's `filepath.Rel` and `filepath.Join` on
such paths. Their key promise is Go's documented one: `Join(base, Rel(base, t)) == t`.

Modules and files:

| file | module | models |
|---|---|---|
| basics.dfy | `Basics`, `Errors` | option, bytes, primitive failures (`IoError`), the library's error values (`Error`) |
| paths.dfy | `Paths` | cleaned paths, `Rel`, `Join`, re-rooting (`getLocalFilepath`) |
| filesystem.dfy | `FileSystem` | the abstract filesystem and its primitives |
| transfer.dfy | `Transfer` | `getTransfer`, `putTransfer` |
| batch.dfy | `Batch` | `putMultiple` |
| recursive.dfy | `Recursive` | `GetRecursively`, one entry at a time |
| mirroring.dfy | `Mirroring` | abort policy, frame, mirroring and idempotence of the recursive download |
| walkorder.dfy | `WalkOrder` | success of the recursive download under the walker's parent-before-child order |
| scenario.dfy | `Scenario` | a worked recursive download of a two-level tree |
| easysftp.dfy | `Easysftp` | `Get`, `Put`, `Close`, `Quit` |

The recursive download takes the walker's output as an input sequence of events.
Each event holds a walker step, which is either a visited path with its
directory flag and mode or a walker error, plus the failures injected while that
step is handled. A nil walker is `None`.

Both loops are defined once over an abstract per-item step and then used
with the library's step. `Recursive.Walk` takes the handling of one entry as a
function, and `Recursive.Run` is `Walk` with `HandleEntry`. `Batch.PutEach`
takes the upload of one pair as a function, and `Batch.PutAll` is `PutEach`
with `PutTransfer`. The policy lemmas (abort at the first error, frame, append)
hold for any step, and the per-entry lemmas connect them to the library's step.

Each entry ends in one of three verdicts:

- `Fine`: go on, or return nil after the last entry;
- `Abort(error)`: return that error;
- `Panic`: the nil `FileInfo` dereference at `easysftp.go:98`, which happens when
  `os.Stat` fails with anything other than "does not exist".

The model reproduces two quirks of the code as written:

- The re-rooting error is discarded at `easysftp.go:92`, so the entry goes on
  with the empty path. `os.Stat("")` reports "does not exist", and then
  `os.Mkdir("")` or `os.Create("")` fails.
- A stat failure other than "does not exist" on a directory entry panics instead
  of returning an error.

The model follows the code as written:

- No separator conversion is done between remote and local paths. The code uses
  native `filepath` on both sides.
- There is no chmod step and no recursive upload.
- There are no progress counters.
- A stat failure other than "does not exist" panics instead of aborting with an
  error.

## Model

| member | source | states |
|---|---|---|
| Paths.Rel | easysftp.go:119 | succeeds exactly when both paths are absolute or both relative and the base climbs no higher than the target; the result is relative and joining it onto the base gives the target back |
| Paths.LocalFilepath | easysftp.go:118-125 | fails exactly when the walked path cannot be made relative to the remote root; a path below the remote root maps to the local root extended by the same suffix |
| Paths.RelOfExtension | easysftp.go:119 | the path relative to the root of a path below it is just the suffix, with no ".." |
| Paths.JoinDescends | easysftp.go:123 | joining a relative path without ".." appends its names |
| Paths.JoinClimbs | easysftp.go:123 | the join keeps the kind of its base; the relative path's names go below the ancestor its ".." components climb to, and climbing past the first name stops at the root of an absolute base but keeps the surplus ".." on a relative one |
| Paths.RerootRoot | easysftp.go:118-125 | the walk root itself maps to the local root |
| Paths.RerootRoundTrip | easysftp.go:118-125 | re-rooting from remote to local and back again returns the walked path |
| Paths.RerootInjective | easysftp.go:118-125 | distinct paths below the remote root map to distinct local paths |
| Paths.RerootPrefix | easysftp.go:118-125 | re-rooting maps each ancestor of a walked path (from the root down) to the matching ancestor of its local path |
| FileSystem.Lookup | easysftp.go:96 | a path resolves exactly when it is in the map; otherwise the failure is "does not exist" or "not a directory", and "not a directory" exactly when a proper ancestor is a regular file |
| FileSystem.Stat | easysftp.go:96 | an injected failure is returned as is; otherwise the path's entry when it exists, and for a missing path "not a directory" exactly when a regular file lies above it, "does not exist" otherwise |
| FileSystem.Mkdir | easysftp.go:103 | succeeds exactly when nothing is injected, the path is absent and its parent is a directory; it then adds a directory with the given mode; an existing path fails with "exists" |
| FileSystem.Create | easysftp.go:129 | succeeds exactly when nothing is injected and the path is a regular file or absent under a directory; it then leaves an empty regular file there; a directory fails with "is a directory" |
| FileSystem.Open | easysftp.go:135 | succeeds exactly when nothing is injected and the path exists, yielding its entry |
| FileSystem.Copy | easysftp.go:141 | copies all of a regular file's bytes exactly when nothing is injected; a failed copy has written a prefix of the source; reading a directory fails |
| FileSystem.CreateGrows | easysftp.go:129 | a successful create changes only its path and never removes or retypes an entry |
| FileSystem.MkdirGrows | easysftp.go:103 | a successful mkdir changes only its path and never removes or retypes an entry |
| FileSystem.CreatableGrows | easysftp.go:170 | a path that could be created stays creatable after the filesystem gains or rewrites regular files |
| Transfer.GetTransfer | easysftp.go:128-151 | succeeds exactly when nothing is injected, the local path can be created and the remote path is a regular file; then the local file holds the remote bytes and the count is their number. Every error reports 0 bytes. Only the local path changes, and only by regular files |
| Transfer.DownloadOrder | easysftp.go:128-151 | steps run create, open, copy, sync in that order and stop at the first failure. A create failure is `localFileErr`, touches nothing and never opens the remote file. An open failure is `remoteFileErr` and leaves the local file created and empty. A copy failure leaves a prefix of the source. A sync failure leaves the data but still fails |
| Transfer.PutTransfer | easysftp.go:169-187 | succeeds exactly when create, open and copy have nothing injected, the remote path can be created and the local path is a regular file; then the remote file holds the local bytes. Every error reports 0 bytes. Only the remote path changes |
| Transfer.UploadOrder | easysftp.go:169-187 | steps run create, open, copy and never sync. The remote file is created before the local one is opened, so a local open failure (`localFileErr`) leaves the remote file truncated. A copy failure leaves a prefix of the local file |
| Transfer.PutIgnoresSync | easysftp.go:169-187 | an injected sync failure has no effect on an upload |
| Transfer.UploadDownloadRoundTrip | easysftp.go:141-186 | a successful upload followed by a successful download of the same remote path yields the original bytes, and both report the file's length |
| Transfer.UploadDownloadSucceeds | easysftp.go:128-187 | with nothing injected, uploading a local regular file to a creatable remote path and downloading it to a creatable local path both succeed |
| Batch.PutEach | easysftp.go:159-166 | the loop over the pairs, for any per-pair upload, yields one count and one error per input pair |
| Batch.EachPairAttempted | easysftp.go:159-166 | index i holds the outcome of uploading files[i] against the state the earlier uploads left, whatever they returned |
| Batch.PutEachGrows | easysftp.go:159-166 | when each upload only adds or rewrites regular files, so does the whole batch |
| Batch.PutAllReports | easysftp.go:161-163 | with the library's upload, an error at an index means count 0, and a success means the count is that file's length |
| Batch.PutAll | easysftp.go:159-166 | one count and one error per input; an error at an index means count 0; a success means the count is that file's length; the remote side only gains or rewrites regular files |
| Batch.PutMultiple | easysftp.go:159-166 | the append loop returns exactly the results and remote state of the recursive batch definition |
| Batch.GoodPairsSucceed | easysftp.go:159-166 | a pair with nothing injected, a local regular file and a creatable remote path succeeds with its file's length, whatever happens at the other indices |
| Recursive.HandleEntry | easysftp.go:87-113 | handling one entry never removes or retypes a local entry, and changes nothing but the entry's re-rooted target (nothing at all when there is none) |
| Recursive.HandleWalkError | easysftp.go:87-90 | a walker error aborts with that error and changes nothing |
| Recursive.HandleBlankTarget | easysftp.go:92-113 | a path that cannot be re-rooted changes nothing and aborts as mkdir (for a directory) or create (for a file) of a nonexistent path |
| Recursive.HandleDirectory | easysftp.go:95-108 | a directory entry ends well exactly when its target is already a directory, or is missing and the mkdir succeeds; then the target is a directory. An existing target is left unchanged. The collision error happens exactly when the target exists and is not a directory. A missing target that is made becomes a directory with the walker's mode; a failed mkdir aborts with the mkdir's own error and leaves the local side unchanged |
| Recursive.HandlePanics | easysftp.go:95-98 | the operation panics exactly for a directory entry whose local stat fails with something other than "does not exist" |
| Recursive.FileAboveTargetPanics | easysftp.go:95-98 | a directory entry whose missing target lies below a local regular file panics, since stat then reports "not a directory" |
| Recursive.HandleFile | easysftp.go:110-113 | a file entry ends well exactly when nothing is injected, the target can be created and the walked path is a remote regular file; then the target holds the remote bytes. Otherwise it aborts with the download's error |
| Recursive.Walk | easysftp.go:86-115 | success means every entry was handled; otherwise the handled count stops short of the input |
| Recursive.WalkGrows | easysftp.go:86-115 | when the handling of each entry never removes or retypes a local entry, neither does the whole loop |
| Recursive.Run | easysftp.go:86-115 | the loop with the library's per-entry handling never removes or retypes a local entry |
| Recursive.GetRecursively | easysftp.go:81-116 | a nil walker returns the walker error and changes nothing; otherwise the loop returns the local state and verdict of the recursive definition |
| Mirroring.AbortsAtFirstError | easysftp.go:86-115 | on an error, every earlier entry was handled without error and the failing entry alone produced the final state and error |
| Mirroring.LaterEntriesIgnored | easysftp.go:86-115 | once a walk aborts, appending more entries changes nothing |
| Mirroring.WalkAppend | easysftp.go:86-115 | after a successful prefix, the walk continues with the rest from the state that prefix left |
| Mirroring.WalkFrame | easysftp.go:91-113 | a local path that no entry is re-rooted onto is never changed |
| Mirroring.FineEntryMirrored | easysftp.go:87-113 | an entry handled without error is mirrored: its target is a directory for a directory and holds the remote file's bytes for a file |
| Mirroring.WalkMirrors | easysftp.go:86-115 | a successful walk with distinct targets leaves every entry mirrored, when the handling of each entry mirrors what it handles well and touches only its target |
| Mirroring.SuccessMirrors | easysftp.go:94-115 | when the download returns nil and targets are distinct, every visited directory exists locally as a directory and every visited file locally holds the remote file's bytes |
| Mirroring.MirroredEntryUnchanged | easysftp.go:95-113 | an entry already mirrored, with nothing injected, ends well and changes nothing |
| Mirroring.WalkStill | easysftp.go:86-115 | a walk whose every entry ends well without change succeeds and changes nothing |
| Mirroring.RerunIsNoop | easysftp.go:95-113 | over an already mirrored tree with nothing injected, the download succeeds and changes nothing |
| Mirroring.Idempotent | easysftp.go:81-116 | running the same walk again after a successful download, with nothing injected, succeeds and leaves the local tree unchanged |
| WalkOrder.OrderedDistinct | easysftp.go:92 | a walk of distinct paths below the remote root re-roots onto distinct local paths |
| WalkOrder.RootEntry | easysftp.go:91-92 | a walked path as deep as the remote root is the remote root itself |
| WalkOrder.InnerParentMade | easysftp.go:95-107 | below the remote root, the parent of an entry's target was made a directory by an earlier entry |
| WalkOrder.MissingTargetParent | easysftp.go:102-103 | a missing target has a directory as parent, so the non-recursive mkdir can succeed |
| WalkOrder.AncestorsReady | easysftp.go:96-103 | in a walk in parent-before-child order, each target's existing ancestors are directories, and a missing target's parent is a directory |
| WalkOrder.EntryFine | easysftp.go:95-113 | with nothing injected and the local side prepared, each entry of an ordered walk is handled without error, and a directory's target ends up a directory |
| WalkOrder.FaultFreeMirrors | easysftp.go:81-116 | with nothing injected, an ordered walk onto a prepared local side returns nil after handling every entry, and the local tree mirrors the remote one |
| Scenario.DirStep | easysftp.go:95-108 | for a walk from remote root `/r` to local root `/l`, a directory entry with nothing injected whose missing target has a directory parent and no regular file above it is created with the remote mode, and the entry is fine |
| Scenario.FileStep | easysftp.go:110-113 | for a walk from remote root `/r` to local root `/l`, a remote regular file with nothing injected whose missing target has a directory parent is copied byte for byte, and the entry is fine |
| Scenario.MirrorsFiles | easysftp.go:81-116 | walking a root, a file, a subdirectory and a file in it, in that order, onto a local side holding only `/` makes both directories with their remote modes, copies both files' bytes, and returns nil after four entries |
| Scenario.DownloadsExampleTree | easysftp.go:81-116 | the same walk over the concrete remote tree `r`, `r/fa`, `r/sd`, `r/sd/fb` ends with exactly that local tree below `l` and returns nil |
| Easysftp.Close | easysftp.go:190-204 | at most two errors; empty exactly when neither close fails; the SFTP error comes before the SSH error; a nil client is skipped; both live clients are closed, SFTP first, even when the first close fails |
| Easysftp.Quit | easysftp.go:207-209 | returns exactly what `Close` returns |

## Left out

- `Connect` and `NewClient` (`easysftp.go:28-73`): reading the key file, parsing the key, dialling SSH and opening the SFTP session are network and transport plumbing.
- Deferred `Close` calls on opened files (`easysftp.go:133`, `139`, `174`, `180`): the code discards their errors, so they change no result.
- `io.Copy` streaming: a copy either moves all bytes or fails. A failure leaves an arbitrary prefix of the source in the destination, chosen by the injected failure.
- The `int64` width of byte counts is not modelled. Counts are unbounded naturals, and real file sizes stay far below 2^63.
- Strings, separators and the working directory: paths are cleaned component sequences. A relative path and an absolute path for the same file are different keys.
- File modes are plain permission numbers. The umask, and the file-type bits stripped by `os.Mkdir`, are not modelled.
- The walker's traversal (`Client.Walk`, `Step`, `Err`, `Path`, `Stat`) is an input sequence. It uses `Lstat`, and a symbolic link reaches the model only as its directory flag.
- `Get` and `Put` (`easysftp.go:76-78`, `154-156`) are one-line delegations. `Easysftp.Get` and `Easysftp.Put` carry no contract of their own; the transfer contracts cover them.
- The test file and the example program call an older API. They also need a live server, so they are not modelled.
- No concurrency exists in the code, so none is modelled.
