# remove_dir_all, modelled in Dafny

`remove_dir_all` is a Rust crate that removes a directory tree reliably on
Unix and Windows. This project models the crate's core and proves properties
of that model:

- **The handle-relative engine** (`src/_impl.rs`), in serial mode. It
  duplicates an open directory handle and enumerates it. It then handles
  every entry by name relative to the duplicate:
  - On Unix it first tries a no-follow open. EISDIR means "directory": the
    engine reopens it as a directory, empties it, then `rmdir`s it. A link
    error (`is_eloop`) or a successful open means "unlink". Any other error is
    returned.
  - On Windows it opens the entry and reads its metadata. A real directory is
    emptied first. Then the entry is deleted by handle.
- **The entry points built on the engine**: `remove_dir_all_path`,
  `_remove_dir_contents_path`, `_remove_dir_contents` and
  `_ensure_empty_dir_path`.
- **The per-target `is_eloop` predicate** (`src/_impl/unix.rs`).
- **The path-based Unix remover** (`src/unix.rs`). It lists a directory,
  unlinks each entry and hands directories to the standard
  `fs::remove_dir_all`. It has a macOS variant and a variant for every other
  target.
- **The path-based Windows remover** (`src/fs.rs`). It canonicalises the path
  and empties the tree depth first by path. Readonly entries go through
  `delete_readonly`.

The file system is a value: a tree of `Dir`, `File` and `Symlink` nodes
(`tree.dfy`). Directory entries keep their enumeration order. The class
`Os.FileSystem` holds that tree, the next handle number and the handles that
are marked for deletion. Its methods are the operating-system calls the code
makes (`os.dfy`).

Every call first consults a fixed fault table (`Env.faults`). So any call on
any path can fail with any error number, and what happens then is fully
determined. Without a fault, a call behaves as its kernel does: for example,
`unlink` of a directory gives EISDIR on Linux and EPERM on the other Unix
kernels.

Each algorithm appears twice:
- A pure function on the tree, such as `Engine.ContentsOf`. It says what the
  algorithm does: the outcome, and what is left of the subtree.
- A method, such as `Engine.RemoveDirContentsRecursive`. It performs the
  calls and the loop, and is proved to do exactly what the function says.

The properties are lemmas about the functions:
- Completeness when nothing fails.
- On failure, only a prefix of the enumeration is gone, plus part of one entry.
- Nothing outside the subtree changes.
- Links are never followed.
- The per-target error handling.

**Behaviour worth knowing:**
- A link given as the root of `remove_dir_all_path` or
  `_remove_dir_contents_path` is refused with the open's own error
  (`Engine.RootSymlinkRejected`). On Unix that is the raw OS error ELOOP
  (kind FilesystemLoop), or EMLINK on FreeBSD (kind TooManyLinks) and EFTYPE
  on NetBSD (no kind of its own). On Windows it is a custom error of kind
  Other. So it is never of kind NotADirectory, unlike the error for a root
  that is a plain file (`Engine.ContentsOfNonDirectory`).
- On Unix the engine opens every entry for reading and writing before it
  decides to unlink it. A file the caller may not write therefore stops the
  removal with EACCES, and it stays (`Engine.UnixReadonlyFileRefused`).
- The path-based Unix remover recurses on EISDIR on every target but macOS.
  On the other BSD kernels, `unlink` of a directory fails with EPERM, so a
  subdirectory makes the whole call return that error
  (`UnixPath.SubdirectoryRefusedElsewhere`).
- In `delete_readonly`, a failure to set the delete disposition is returned
  with the readonly attribute already cleared and not restored
  (`WinPath.DeleteReadonlySteps`).
- The Windows `remove_dir_all` canonicalises first. Given a link to a
  directory, it therefore removes the directory the link names and leaves the
  link (`WinPath.RemoveDirAllComplete`).

Three assumptions are stated as preconditions:
- No directory has a real entry called `.` or `..` (`Tree.NoDots`).
- A path given to an entry point has no `.` or `..` component
  (`Tree.PlainPath`): paths are taken as already normalised.
- On Windows, no handle is marked for deletion between calls
  (`fs.pending == {}`).

## Model

| member | source | states |
|---|---|---|
| Platform.EloopOnEveryTarget | src/_impl/unix.rs:37-53 | every Unix target accepts ELOOP as the "was a link" error |
| Platform.EloopFreeBSD | src/_impl/unix.rs:45-46 | on FreeBSD the predicate holds exactly for ELOOP and EMLINK |
| Platform.EloopNetBSD | src/_impl/unix.rs:47-48 | on NetBSD it holds exactly for ELOOP and EFTYPE |
| Platform.EloopElsewhere | src/_impl/unix.rs:49-51 | elsewhere it holds exactly for ELOOP; never for EMLINK, EFTYPE or an error without an OS code |
| Platform.EloopRecognisesSymlinkOpen | src/_impl/unix.rs:37-53 | on every Unix target, the error that target's kernel gives for a no-follow open of a link is recognised, and it is not EISDIR |
| Platform.DefaultParallelMode | src/_impl.rs:28-33 | the mode is Serial exactly when the parallel feature is off or the target is macOS |
| Os.FileSystem.DuplicateFd | src/_impl/unix.rs:18-24 | a duplicate is a fresh handle on the same path, numbered after every earlier one, or the call's error with no number used |
| Os.FileSystem.OpenDirByPath | src/_impl/win.rs:45-57 | opening by path refuses a trailing link: on Unix with the target's link error as a raw OS error, from the `O_NOFOLLOW` open of src/_impl/unix.rs:26-31; on Windows with a custom error of kind Other; anything else that exists opens |
| Os.Resolve | src/unix.rs:27 | a path that resolves names an existing node that is no link, as `fs::read_dir`, `fs::metadata` and `canonicalize` see it |
| Os.ResolveChain | src/unix.rs:27 | a link to a link to a directory resolves to the directory |
| Os.FollowCycle | src/unix.rs:27 | a cycle of links of any length is refused with ELOOP from any path on it, whatever the hop limit |
| Engine.Classify | src/_impl.rs:181-192 | EISDIR means descend; a link error per `is_eloop`, or a successful open, means unlink (both directions); any other error is returned unchanged |
| Engine.ContentsOf | src/_impl.rs:98-130 | success means the node was a directory and is now empty with its readonly flag kept; in every case what is left is a pruned version of the original (nothing created, a suffix of the entries survives) |
| Engine.EntriesOf | src/_impl.rs:112-115 | success leaves no entry; failure leaves at least one, and the surviving entries are the failing one, possibly emptied in part, followed by all later entries unchanged |
| Engine.EntriesFirstError | src/_impl.rs:112-115 | success when no entry fails; otherwise the error returned is that of the first failing entry, every earlier entry went, and what is left of the failing entry precedes the later entries unchanged |
| Engine.EntryOf | src/_impl.rs:133-217 | an existing entry is gone exactly when the call succeeds; if it stays, it is a pruned version of itself |
| Engine.MissingEntryError | src/_impl.rs:146-192 | a name no longer in the directory always produces an error |
| Engine.RemoveDirContentsRecursive | src/_impl.rs:98-130 | duplicates the handle, enumerates with the original, removes every name through the duplicate; outcome and new tree are those of `ContentsOf`, and on success the duplicate on the same path is returned |
| Engine.ScanAndRemoveEntry | src/_impl.rs:133-217 | skips `.` and `..`; otherwise outcome and new tree are those of `EntryOf` on the entry, with the entry replaced by what is left or unlinked |
| Engine.RemoveDirContents | src/_impl.rs:70-74 | duplicates the handle, then empties the directory through the duplicate; a failing duplicate deletes nothing |
| Engine.RemoveDirContentsPath | src/_impl.rs:64-67 | an open failure returns before anything is deleted; otherwise as `RemoveDirContents` |
| Engine.RemoveDirAllPath | src/_impl.rs:77-91 | open, empty through the handle, then `fs::remove_dir` by path; each failure returns at once |
| Engine.EnsureEmptyDirPath | src/_impl.rs:47-61 | `create_dir` success is success; an error of kind AlreadyExists leads to open plus removal of the contents; any other error is returned unchanged |
| Engine.ContentsComplete | src/_impl.rs:98-217 | with no failing call, any directory tree is emptied and the directory keeps its readonly flag: on Windows always, on Unix when no file in it is readonly |
| Engine.EntriesComplete | src/_impl.rs:112-115 | with no failing call, every entry of the enumeration is removed (on Unix, when no file among them is readonly) |
| Engine.EntryComplete | src/_impl.rs:133-217 | with no failing call, any entry goes: file, link or directory (on Unix, one holding no readonly file) |
| Engine.ContentsOfNonDirectory | src/_impl.rs:109-112 | a handle on a non-directory fails with ENOTDIR and changes nothing |
| Engine.ContentsFrame | src/_impl.rs:98-130 | emptying the directory at `p` leaves every path outside `p` as it was, so no link inside is followed to a target outside |
| Engine.UnixSymlinkUnlinked | src/_impl.rs:181-211 | on Unix a link is unlinked and never descended into |
| Engine.UnixReadonlyFileRefused | src/_impl.rs:177-189 | on Unix the read/write open of a readonly file fails with EACCES, which is returned; the file stays and the enumeration stops there |
| Engine.UnixOpenedUnlinked | src/_impl.rs:191-211 | on Unix an entry the no-follow open succeeds on is unlinked |
| Engine.UnixOpenErrorReturned | src/_impl.rs:189 | on Unix an open error other than EISDIR or a link error is returned as it is, and the entry is untouched |
| Engine.UnixDirectoryDescended | src/_impl.rs:184-202 | on Unix EISDIR leads to reopening as a directory, emptying, then `rmdir`; a failing `rmdir` is returned |
| Engine.WindowsEntry | src/_impl.rs:146-172 | on Windows only a directory that is no link is descended into, and every opened entry is then deleted by handle |
| Engine.RemoveDirAllPathResult | src/_impl.rs:77-91 | an open failure returns before anything is deleted; on success the directory at `p` was a directory and the new tree is exactly the old one with `p` unlinked |
| Engine.RootSymlinkRejected | src/_impl.rs:64-91 | a link as the root is refused with the open's own error and nothing is deleted; the error is never of kind NotADirectory, and it is of kind Other exactly on Windows |
| Engine.RemoveDirAllPathComplete | src/_impl.rs:77-91 | with no failing call, any directory below the root is removed, except a readonly one on Windows and one holding a readonly file on Unix |
| Engine.RemoveDirAllPathFrame | src/_impl.rs:77-91 | nothing outside `p` changes |
| Engine.EnsureEmptyCases | src/_impl.rs:53-60 | the three cases of `create_dir`'s result, each as the source treats it |
| Engine.EnsureEmptyExisting | src/_impl.rs:53-58 | with no failing call, an existing directory ends up empty and nothing else changes (on Unix, when it holds no readonly file) |
| Engine.EnsureEmptyFresh | src/_impl.rs:53-59 | with no failing call, a missing path under a directory is created as an empty writable directory and nothing outside it changes |
| Engine.EnsureEmptyEmpties | src/_impl.rs:47-61 | whatever fails, success leaves an empty directory at the path, by either branch |
| Engine.EnsureEmptyIdempotent | src/_impl.rs:47-61 | with no failing call, a second call after a successful one succeeds and changes nothing |
| Os.GetCreated | src/_impl.rs:53 | after a successful `create_dir` the path holds an empty writable directory, and paths outside it are as before |
| UnixPath.RemoveFileOrDirAll | src/unix.rs:5-24 | outcome and new tree are those of `remove_file`, falling back to `fs::remove_dir_all` on EISDIR (not macOS) or on EPERM plus a directory from `fs::metadata` (macOS); a failing `fs::metadata` is returned |
| UnixPath.RemoveDirContents | src/unix.rs:26-33 | lists the directory, following a link, then removes each entry in order; outcome and tree are those of `RemoveDirContentsOf`, so the first error ends it |
| UnixPath.RemoveDirContentsOf | src/unix.rs:26-33 | a failing `read_dir` is returned with nothing deleted; otherwise nothing outside the directory actually listed changes |
| UnixPath.ListOf | src/unix.rs:27-30 | the loop over the listed names, stopping at the first failure; whatever happens, nothing outside the listed directory changes |
| UnixPath.ListAbort | src/unix.rs:27-30 | after the first failure no further name is looked at |
| UnixPath.ListFirstError | src/unix.rs:27-30 | a failing loop returns the error of the first entry whose removal fails; every earlier entry went with the rest of the tree as it was, and that entry and all after it stay |
| UnixPath.RemoveFileOrDirAllOf | src/unix.rs:5-24 | a failure leaves the tree unchanged; a success unlinks exactly the entry at its path |
| UnixPath.RemoveAllOf | src/unix.rs:5-24 | the standard `fs::remove_dir_all` succeeds exactly on an existing link or directory other than the root with no injected fault, and then exactly that entry is gone; a failure changes nothing |
| UnixPath.RemoveFileOrDirAllErrors | src/unix.rs:5-24 | not macOS: any `remove_file` error other than EISDIR comes back unchanged, EISDIR goes to `fs::remove_dir_all`; macOS: errors other than EPERM come back, EPERM comes back for a non-directory, goes to `fs::remove_dir_all` for a directory, and a failing `fs::metadata` is returned |
| UnixPath.ListEmpties | src/unix.rs:26-33 | when every removal succeeds, the directory is left empty and nothing else changes |
| UnixPath.RemoveDirContentsResult | src/unix.rs:26-33 | a failing `read_dir` deletes nothing; on success the listed directory exists and is empty, and the rest of the tree is as before |
| UnixPath.ListComplete | src/unix.rs:5-33 | with no failing call, on Linux and macOS every entry goes, subdirectories included |
| UnixPath.ThroughLink | src/unix.rs:26-33 | given a link, or a chain of links, that resolves to a directory, the contents of that directory are removed and the link stays |
| UnixPath.SubdirectoryRefusedElsewhere | src/unix.rs:5-13 | on a Unix target other than Linux and macOS, a subdirectory makes `remove_file_or_dir_all` return EPERM and changes nothing |
| WinPath.DeleteReadonlyNode | src/fs.rs:135-165 | success means the entry is gone |
| WinPath.ContentsOf | src/fs.rs:93-132 | success means a directory emptied with its readonly flag kept; a directory stays a directory |
| WinPath.EntriesOf | src/fs.rs:102-129 | success leaves no entry; on failure all entries after the failing one are untouched |
| WinPath.EntriesFirstError | src/fs.rs:102-129 | success when no entry fails; otherwise the error returned is that of the first failing entry, every earlier entry went, and what is left of the failing entry precedes the later entries unchanged |
| WinPath.EntryOf | src/fs.rs:103-128 | success means the entry is gone |
| WinPath.RemoveOne | src/fs.rs:111-126 | success means the entry is gone |
| WinPath.DeleteReadonlyOf | src/fs.rs:135-165 | success means the entry existed, was not the root, and is now unlinked; in any case the tree is unchanged, has the entry unlinked, or has only its readonly flag cleared |
| WinPath.DeleteReadonly | src/fs.rs:135-165 | open, clear the readonly attribute, set the delete disposition, restore the attribute, close; outcome and tree are those of `DeleteReadonlyOf`, and no handle stays marked |
| WinPath.DeleteDirContents | src/fs.rs:93-132 | lists the directory by path and removes every entry in order; outcome and tree are those of `ContentsOf` |
| WinPath.RemoveEntry | src/fs.rs:102-129 | outcome and tree for one listed name are those of `EntryOf` |
| WinPath.RemoveDirContentsOf | src/fs.rs:87-91 | a canonicalisation failure is returned with nothing deleted; success returns the canonical path, which names a directory that is now empty with its readonly flag kept, and nothing else changed |
| WinPath.RemoveDirContents | src/fs.rs:87-91 | a canonicalisation failure returns before anything is deleted; the canonical path is returned on success |
| WinPath.RemoveDirAllOf | src/fs.rs:70-84 | success means the path canonicalised to a path other than the root, and the new tree is exactly the old one with that path unlinked |
| WinPath.RemoveDirAll | src/fs.rs:70-84 | empties the canonical directory, then removes it with `delete_readonly` when its metadata says readonly and with `fs::remove_dir` otherwise |
| WinPath.DeleteReadonlySteps | src/fs.rs:141-164 | nothing changes when open or clearing fails; the entry goes exactly when setting the disposition succeeds, with the outcome of the restore; a failing disposition is returned and leaves the attribute cleared |
| WinPath.DeleteReadonlyComplete | src/fs.rs:135-165 | with no failing call, a readonly file or empty readonly directory is removed |
| WinPath.EntryDispatch | src/fs.rs:103-126 | a directory is emptied before it is removed and stays when that fails; readonly entries go to `delete_readonly`, directories to `fs::remove_dir`, the rest to `fs::remove_file` |
| WinPath.ContentsComplete | src/fs.rs:93-132 | with no failing call, every directory is emptied, readonly files and readonly subdirectories included |
| WinPath.EntriesComplete | src/fs.rs:102-129 | with no failing call, every entry is removed |
| WinPath.EntryComplete | src/fs.rs:103-128 | with no failing call, any entry goes |
| WinPath.CanonicalizeFirst | src/fs.rs:88 | a canonicalisation failure returns before anything is deleted |
| WinPath.RemoveDirAllComplete | src/fs.rs:70-84 | with no failing call, the canonical directory is removed, readonly or not; given a link, its target goes and the link stays |
| WinPath.RemoveDirAllFrame | src/fs.rs:70-84 | nothing outside the canonical directory changes; for a link argument that is the link's target, so the link stays |

## Left out

- Parallel mode (`rayon`) is left out. Only the serial traversal is modelled, and `remove_dir_all_path`'s `parallel` argument is dropped.
- Concurrency and races (TOCTOU) are left out: no other actor changes the tree between calls.
- Real system calls are left out. Each is an abstract operation whose failures come from a fault table with arbitrary error numbers.
- The FFI in `src/_impl/win.rs` is left out, except for its rule that `open_dir` refuses a link.
- `src/_impl/io.rs` is left out. Its trait becomes the target-specific branches of the model.
- `unique_identifier` is left out, because the source leaves it as `todo!()`.
- Logging and `PathComponents` are left out; they only feed log messages.
- The binary, `src/lib.rs` and `src/portable.rs` are left out. They are re-exports and thin wrappers.
- Win32 long-path and special-name handling is left out.
- Errors from the enumeration iterator itself (`dir_entry?`) are left out: a listing either fails as a whole or yields every name.
- Intermediate path components are not resolved through links. Where a call follows links, it follows a chain of trailing links up to the target's hop limit (`Platform.MaxSymlinkHops`), and gives ELOOP beyond it.
- UnixPath.RemoveDirContents: entry paths are formed under the directory that was actually listed, not under the link that named it.
- The standard `fs::remove_dir_all` is modelled as one step that removes a link or a whole directory. Its own traversal is not part of this model.
- Unix permission bits are modelled only as a file's readonly flag, which refuses the engine's read/write open. `unlink` and `rmdir` succeed whatever the modes of the directory they change, and a caller that may override permissions is not modelled.
- Os.DeleteByHandleResult: the Windows `delete_by_handle` of the `fs_at` crate is taken to delete a readonly entry as well; this is a property of `fs_at`, which is not part of this model, and `Engine.ContentsComplete`'s promise on Windows rests on it.
- `.` and `..` components of a path are not resolved; the entry points take normalised paths (`Tree.PlainPath`).
- Windows delete-pending is modelled only in `delete_readonly`, where a handle is closed after its disposition is set. Elsewhere a deletion takes effect at once.
- Windows does not distinguish file links from directory links here. `fs::remove_file` removes either.
- Os.FileSystem.OpenDirByPath: the metadata query that the Windows `open_dir` makes after opening has no separate failure; a fault on the open covers it.
