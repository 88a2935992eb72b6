/** The handle-relative recursive removal engine and the entry points built on
    it (src/_impl.rs), in serial mode.

    The pure functions `ContentsOf`, `EntriesOf` and `EntryOf` say what one
    traversal does to the subtree it is given; the methods walk the abstract
    file system through its calls and are proved to do exactly that. */
module Engine {
  import opened Errors
  import opened Platform
  import opened Tree
  import opened Os

  /** What the result of the Unix no-follow open says to do with an entry. */
  datatype Action = Descend | Unlink | Abort(error: Error)

  /** The match on the open result in `scan_and_remove_entry_recursively`. */
  function Classify(t: Target, open: Outcome): (a: Action)
    requires !t.Windows?
    ensures a == Descend <==> open == Err(Os(EISDIR))
    ensures a == Unlink <==> open.Ok? || (open != Err(Os(EISDIR)) && IsEloop(t, open.error))
    ensures a.Abort? ==> open.Err? && a.error == open.error
  {
    match open
    case Err(e) =>
      if RawOsError(e) == Some(EISDIR) then Descend
      else if !IsEloop(t, e) then Abort(e)
      else Unlink
    case Ok(_) => Unlink
  }

  /** `remove_dir_contents_recursive` on the node `n` at path `p`: the
      outcome and what is left of `n`. */
  function ContentsOf(env: Env, n: Node, p: Path): (r: (Outcome, Node))
    ensures r.0.Ok? ==> n.Dir? && r.1 == Dir([], n.readonly)
    ensures Pruned(r.1, n)
    decreases n
  {
    var dup := FaultOr(env, Duplicate, p, Ok(()));
    if dup.Err? then (dup, n)
    else
      var rd := ReadDirResult(env, Some(n), p);
      if rd.Err? then (Drop(rd), n)
      else
        var res := EntriesOf(env, n.entries, p);
        (res.0, Dir(res.1, n.readonly))
  }

  /** The serial `try_for_each` over the entries `es` of the directory at `p`:
      the first failure stops it. */
  function EntriesOf(env: Env, es: seq<Entry>, p: Path): (r: (Outcome, seq<Entry>))
    ensures r.0.Ok? ==> r.1 == []
    ensures r.0.Err? ==> r.1 != []
    ensures PrunedEntries(r.1, es)
    decreases es
  {
    if es == [] then (Ok(()), [])
    else
      var e := EntryOf(env, es[0], p);
      if e.0.Err? then (e.0, Kept(es[0].name, e.1) + es[1..])
      else EntriesOf(env, es[1..], p)
  }

  /** `scan_and_remove_entry_recursively` for an entry that exists: the outcome
      and what is left of the entry. */
  function EntryOf(env: Env, e: Entry, p: Path): (r: (Outcome, Option<Node>))
    ensures r.0.Ok? <==> r.1.None?
    ensures r.1.Some? ==> Pruned(r.1.value, e.node)
    decreases e
  {
    var q := p + [e.name];
    if env.target.Windows? then
      var open := OpenPathAtResult(env, Some(e.node), q);
      if open.Err? then (open, Some(e.node))
      else
        var md := FaultOr(env, HandleMetadata, q, Ok(MetaOf(e.node)));
        if md.Err? then (Drop(md), Some(e.node))
        else if md.value.isDir && !md.value.isSymlink then
          var dup := FaultOr(env, Duplicate, q, Ok(()));
          if dup.Err? then (dup, Some(e.node))
          else
            var sub := ContentsOf(env, e.node, q);
            if sub.0.Err? then (sub.0, Some(sub.1))
            else Deleted(DeleteByHandleResult(env, sub.1, q), sub.1)
        else Deleted(DeleteByHandleResult(env, e.node, q), e.node)
    else
      match Classify(env.target, OpenAtResult(env, Some(e.node), q))
      case Abort(err) => (Err(err), Some(e.node))
      case Unlink => Deleted(UnlinkResult(env, UnlinkAt, Some(e.node), q), e.node)
      case Descend =>
        var od := OpenDirAtResult(env, Some(e.node), q);
        if od.Err? then (od, Some(e.node))
        else
          var sub := ContentsOf(env, e.node, q);
          if sub.0.Err? then (sub.0, Some(sub.1))
          else Deleted(RmdirResult(env, RmdirAt, Some(sub.1), q), sub.1)
  }

  /** The error for a name that is not (or no longer) in the directory. */
  function MissingEntryError(env: Env, q: Path): (o: Outcome)
    ensures o.Err?
  {
    if env.target.Windows? then OpenPathAtResult(env, None, q)
    else match Classify(env.target, OpenAtResult(env, None, q))
      case Abort(err) => Err(err)
      case Unlink => UnlinkResult(env, UnlinkAt, None, q)
      case Descend => OpenDirAtResult(env, None, q)
  }

  /** One entry name from the enumeration of the directory at `p`, against
      the whole tree `root`: the outcome and the new tree. */
  function EntryAt(env: Env, root: Node, p: Path, name: Name): (Outcome, Node) {
    if IsDot(name) then (Ok(()), root)
    else
      var q := p + [name];
      match Get(root, q)
      case None => (MissingEntryError(env, q), root)
      case Some(c) =>
        var e := EntryOf(env, Entry(name, c), p);
        (e.0, PutOrDelete(root, q, e.1))
  }

  /** The tree after `ContentsOf` ran on the node at `p`. */
  function ContentsAt(env: Env, root: Node, p: Path): (Outcome, Node)
    requires Get(root, p).Some?
  {
    var res := ContentsOf(env, Get(root, p).value, p);
    (res.0, Put(root, p, res.1))
  }

  /** The recursion measure of `ScanAndRemoveEntry`: the entry's node when
      there is one, else the directory's own node with a lower rank. */
  function EntryMeasure(root: Node, p: Path, name: Name): Node {
    if Get(root, p + [name]).Some? then NodeAt(root, p + [name]) else NodeAt(root, p)
  }

  function EntryRank(root: Node, p: Path, name: Name): nat {
    if Get(root, p + [name]).Some? then 2 else 0
  }

  // ---------------------------------------------------------------------------
  // The traversal as the program runs it

  /** `remove_dir_contents_recursive`: duplicates `d`, enumerates with `d`,
      removes every entry relative to the duplicate, and returns the duplicate. */
  method RemoveDirContentsRecursive(fs: FileSystem, d: Handle) returns (r: Result<Handle>)
    requires Get(fs.root, d.path).Some? && NoDots(Get(fs.root, d.path).value)
    modifies fs`root, fs`nextId
    ensures Drop(r) == ContentsAt(fs.env, old(fs.root), d.path).0
    ensures fs.root == ContentsAt(fs.env, old(fs.root), d.path).1
    ensures r.Ok? ==> r.value.path == d.path && old(fs.nextId) <= r.value.id
    decreases NodeAt(fs.root, d.path), 1
  {
    ghost var p := d.path;
    ghost var n := Get(fs.root, p).value;
    ContentsAtCases(fs.env, fs.root, p);
    var dirfd :- fs.DuplicateFd(d);
    var names :- fs.ReadDirAt(d);
    ghost var es := n.entries;
    ghost var ro := n.readonly;
    var i := 0;
    while i < |names|
      invariant 0 <= i <= |names| == |es| + 2
      invariant names == [".", ".."] + Names(es)
      invariant dirfd.path == p && old(fs.nextId) <= dirfd.id
      invariant fs.root == Put(old(fs.root), p, Dir(es[Done(i)..], ro))
      invariant EntriesOf(fs.env, es[Done(i)..], p) == EntriesOf(fs.env, es, p)
    {
      BeforeStep(old(fs.root), p, es, ro, names, i);
      var o := ScanAndRemoveEntry(fs, dirfd, names[i]);
      AfterStep(fs.env, old(fs.root), p, es, ro, names, i);
      if o.Err? {
        return Err(o.error);
      }
      i := i + 1;
    }
    return Ok(dirfd);
  }

  /** How many real entries the loop has dealt with after `i` names. */
  function Done(i: nat): nat {
    if i < 2 then 0 else i - 2
  }

  /** `scan_and_remove_entry_recursively` for one enumerated name, relative
      to the duplicated handle `dirfd`. */
  method ScanAndRemoveEntry(fs: FileSystem, dirfd: Handle, name: Name) returns (r: Outcome)
    requires Get(fs.root, dirfd.path + [name]).Some? ==> NoDots(Get(fs.root, dirfd.path + [name]).value)
    modifies fs`root, fs`nextId
    ensures r == EntryAt(fs.env, old(fs.root), dirfd.path, name).0
    ensures fs.root == EntryAt(fs.env, old(fs.root), dirfd.path, name).1
    decreases EntryMeasure(fs.root, dirfd.path, name), EntryRank(fs.root, dirfd.path, name)
  {
    if IsDot(name) {
      return Ok(());
    }
    var q := dirfd.path + [name];
    ghost var root0 := fs.root;
    if Get(root0, q).Some? {
      PutFound(root0, q);
    }
    if fs.env.target.Windows? {
      var child :- fs.OpenPathAtName(dirfd, name);
      var md :- fs.MetadataOfHandle(child);
      if md.isDir && !md.isSymlink {
        var dup :- fs.DuplicateFd(child);
        var sub := RemoveDirContentsRecursive(fs, dup);
        if sub.Err? {
          return Err(sub.error);
        }
        GetPut(root0, q, Dir([], Get(root0, q).value.readonly));
        DeletePut(root0, q, Dir([], Get(root0, q).value.readonly));
      }
      r := fs.DeleteByHandleOf(child);
    } else {
      var open := fs.OpenAtNoFollow(dirfd, name);
      match Classify(fs.env.target, open)
      case Abort(e) =>
        return Err(e);
      case Unlink =>
        r := fs.UnlinkAtName(dirfd, name);
      case Descend =>
        var child :- fs.OpenDirAtNoFollow(dirfd, name);
        var sub := RemoveDirContentsRecursive(fs, child);
        if sub.Err? {
          return Err(sub.error);
        }
        GetPut(root0, q, Dir([], Get(root0, q).value.readonly));
        DeletePut(root0, q, Dir([], Get(root0, q).value.readonly));
        r := fs.RmdirAtName(dirfd, name);
    }
  }

  // ---------------------------------------------------------------------------
  // Entry points

  /** `_remove_dir_contents` on an open handle at `p`: duplicate the handle,
      then empty the directory through the duplicate. */
  function RemoveContentsOf(env: Env, root: Node, p: Path): (Outcome, Node)
    requires Get(root, p).Some?
  {
    var dup := FaultOr(env, Duplicate, p, Ok(()));
    if dup.Err? then (dup, root) else ContentsAt(env, root, p)
  }

  /** `_remove_dir_contents_path`: open the directory, then empty it. */
  function RemoveContentsPathOf(env: Env, root: Node, p: Path): (Outcome, Node) {
    var open := OpenDirResult(env, Get(root, p), p);
    if open.Err? then (open, root) else RemoveContentsOf(env, root, p)
  }

  /** `remove_dir_all_path`: open, empty through the handle, remove by path. */
  function RemoveDirAllPathOf(env: Env, root: Node, p: Path): (Outcome, Node) {
    var open := OpenDirResult(env, Get(root, p), p);
    if open.Err? then (open, root)
    else
      var c := ContentsAt(env, root, p);
      if c.0.Err? then c
      else
        var rm := RmdirResult(env, RemoveDir, Get(c.1, p), p);
        (rm, if rm.Ok? then Delete(c.1, p) else c.1)
  }

  /** `_ensure_empty_dir_path`: create the directory, or empty the one that
      is already there. */
  function EnsureEmptyDirPathOf(env: Env, root: Node, p: Path): (Outcome, Node) {
    var create := CreateDirResult(env, root, p);
    if create.Ok? then (create, Created(root, p))
    else if KindOf(create.error) == AlreadyExists then RemoveContentsPathOf(env, root, p)
    else (create, root)
  }

  /** `_remove_dir_contents`, also reached through `RemoveDir::remove_dir_contents`
      on an open directory. */
  method RemoveDirContents(fs: FileSystem, d: Handle) returns (r: Outcome)
    requires Get(fs.root, d.path).Some? && NoDots(Get(fs.root, d.path).value)
    modifies fs`root, fs`nextId
    ensures (r, fs.root) == RemoveContentsOf(fs.env, old(fs.root), d.path)
  {
    var owned :- fs.DuplicateFd(d);
    var dirfd :- RemoveDirContentsRecursive(fs, owned);
    return Ok(());
  }

  method RemoveDirContentsPath(fs: FileSystem, p: Path) returns (r: Outcome)
    requires NoDots(fs.root) && PlainPath(p)
    modifies fs`root, fs`nextId
    ensures (r, fs.root) == RemoveContentsPathOf(fs.env, old(fs.root), p)
  {
    var d :- fs.OpenDirByPath(p);
    GetNoDots(fs.root, p);
    r := RemoveDirContents(fs, d);
  }

  method RemoveDirAllPath(fs: FileSystem, p: Path) returns (r: Outcome)
    requires NoDots(fs.root) && PlainPath(p)
    modifies fs`root, fs`nextId
    ensures (r, fs.root) == RemoveDirAllPathOf(fs.env, old(fs.root), p)
  {
    var d :- fs.OpenDirByPath(p);
    GetNoDots(fs.root, p);
    var dirfd :- RemoveDirContentsRecursive(fs, d);
    r := fs.RemoveDirByPath(p);
  }

  method EnsureEmptyDirPath(fs: FileSystem, p: Path) returns (r: Outcome)
    requires NoDots(fs.root) && PlainPath(p)
    modifies fs`root, fs`nextId
    ensures (r, fs.root) == EnsureEmptyDirPathOf(fs.env, old(fs.root), p)
  {
    r := fs.CreateDirAt(p);
    if r.Err? && KindOf(r.error) == AlreadyExists {
      r := RemoveDirContentsPath(fs, p);
    }
  }

  // ---------------------------------------------------------------------------
  // What the traversal promises

  /** With no failing call, any directory is emptied and keeps its
      readonly flag; on Unix the files in it must be writable, since each
      is opened for reading and writing first. */
  lemma {:induction false} ContentsComplete(env: Env, n: Node, p: Path)
    requires NoFaults(env) && n.Dir? && (env.target.Windows? || WritableFiles(n))
    ensures ContentsOf(env, n, p) == (Ok(()), Dir([], n.readonly))
    decreases n, 1
  {
    EntriesComplete(env, n.entries, p);
  }

  lemma {:induction false} EntriesComplete(env: Env, es: seq<Entry>, p: Path)
    requires NoFaults(env)
    requires env.target.Windows? || forall i :: 0 <= i < |es| ==> WritableFiles(es[i].node)
    ensures EntriesOf(env, es, p) == (Ok(()), [])
    decreases es, 2
  {
    if es != [] {
      assert es[0] in es;
      assert forall i :: 0 <= i < |es| - 1 ==> es[1..][i] == es[i + 1];
      EntryComplete(env, es[0], p);
      EntriesComplete(env, es[1..], p);
    }
  }

  lemma {:induction false} EntryComplete(env: Env, e: Entry, p: Path)
    requires NoFaults(env) && (env.target.Windows? || WritableFiles(e.node))
    ensures EntryOf(env, e, p) == (Ok(()), None)
    decreases e, 0
  {
    var q := p + [e.name];
    if !env.target.Windows? {
      EloopRecognisesSymlinkOpen(env.target);
    }
    if e.node.Dir? {
      ContentsComplete(env, e.node, q);
    }
  }

  /** `k` is the first entry of `es` whose removal fails. */
  predicate FailsFirstAt(env: Env, es: seq<Entry>, p: Path, k: nat) {
    && k < |es| && EntryOf(env, es[k], p).0.Err?
    && forall j :: 0 <= j < k ==> EntryOf(env, es[j], p).0.Ok?
  }

  /** The loop succeeds when no entry fails; otherwise it stops at the first
      entry that fails and returns that entry's own error, leaving what is
      left of the entry followed by the later entries untouched. */
  lemma {:induction false} EntriesFirstError(env: Env, es: seq<Entry>, p: Path)
    ensures (forall j :: 0 <= j < |es| ==> EntryOf(env, es[j], p).0.Ok?) ==>
              EntriesOf(env, es, p) == (Ok(()), [])
    ensures EntriesOf(env, es, p).0.Err? ==>
              exists k: nat :: FailsFirstAt(env, es, p, k) &&
                EntriesOf(env, es, p) == (EntryOf(env, es[k], p).0, Kept(es[k].name, EntryOf(env, es[k], p).1) + es[k + 1..])
    decreases es
  {
    if es != [] {
      var e := EntryOf(env, es[0], p);
      var tail := es[1..];
      EntriesFirstError(env, tail, p);
      if e.0.Err? {
        assert FailsFirstAt(env, es, p, 0);
      } else {
        assert EntriesOf(env, es, p) == EntriesOf(env, tail, p);
        if forall j :: 0 <= j < |es| ==> EntryOf(env, es[j], p).0.Ok? {
          forall j | 0 <= j < |tail| ensures EntryOf(env, tail[j], p).0.Ok? {
            assert tail[j] == es[j + 1];
          }
        }
        if EntriesOf(env, es, p).0.Err? {
          var k: nat :| FailsFirstAt(env, tail, p, k) &&
                   EntriesOf(env, tail, p) == (EntryOf(env, tail[k], p).0,
                     Kept(tail[k].name, EntryOf(env, tail[k], p).1) + tail[k + 1..]);
          assert tail[k] == es[k + 1] && tail[k + 1..] == es[k + 2..];
          forall j | 0 < j <= k ensures EntryOf(env, es[j], p).0.Ok? {
            assert es[j] == tail[j - 1];
          }
          assert FailsFirstAt(env, es, p, k + 1);
        }
      }
    }
  }


  /** A node that is not a directory is reported and left alone. */
  lemma ContentsOfNonDirectory(env: Env, n: Node, p: Path)
    requires NoFaults(env) && !n.Dir?
    ensures ContentsOf(env, n, p) == (Err(Os(ENOTDIR)), n)
  {
  }

  /** Emptying the directory at `p` changes nothing outside it; in
      particular no link found inside is followed to a target outside. */
  lemma ContentsFrame(env: Env, root: Node, p: Path, q: Path)
    requires Get(root, p).Some? && Disjoint(p, q)
    ensures Get(ContentsAt(env, root, p).1, q) == Get(root, q)
  {
    GetPutDisjoint(root, p, ContentsOf(env, Get(root, p).value, p).1, q);
  }

  /** On Unix an entry that is a link is unlinked, never descended into. */
  lemma UnixSymlinkUnlinked(env: Env, a: Name, t: Path, p: Path)
    requires !env.target.Windows? && Site(OpenAt, p + [a]) !in env.faults
    ensures EntryOf(env, Entry(a, Symlink(t)), p)
         == Deleted(UnlinkResult(env, UnlinkAt, Some(Symlink(t)), p + [a]), Symlink(t))
  {
    EloopRecognisesSymlinkOpen(env.target);
  }

  /** On Unix a file the caller may not write refuses the read/write open
      with EACCES, which is no link error: the removal stops there and the
      file stays. */
  lemma UnixReadonlyFileRefused(env: Env, a: Name, p: Path)
    requires !env.target.Windows? && Site(OpenAt, p + [a]) !in env.faults
    ensures EntryOf(env, Entry(a, File(true)), p) == (Err(Os(EACCES)), Some(File(true)))
    ensures EntriesOf(env, [Entry(a, File(true))], p) == (Err(Os(EACCES)), [Entry(a, File(true))])
  {
    var es := [Entry(a, File(true))];
    assert es[0] == Entry(a, File(true)) && es[1..] == [];
    assert Kept(a, Some(File(true))) + es[1..] == es;
  }

  /** On Unix an entry the no-follow open succeeds on is unlinked. */
  lemma UnixOpenedUnlinked(env: Env, e: Entry, p: Path)
    requires !env.target.Windows? && OpenAtResult(env, Some(e.node), p + [e.name]).Ok?
    ensures EntryOf(env, e, p) == Deleted(UnlinkResult(env, UnlinkAt, Some(e.node), p + [e.name]), e.node)
  {
  }

  /** On Unix an open error other than EISDIR or a link error is returned
      as it is, and the entry stays. */
  lemma UnixOpenErrorReturned(env: Env, e: Entry, p: Path, err: Error)
    requires !env.target.Windows?
    requires OpenAtResult(env, Some(e.node), p + [e.name]) == Err(err)
    requires RawOsError(err) != Some(EISDIR) && !IsEloop(env.target, err)
    ensures EntryOf(env, e, p) == (Err(err), Some(e.node))
  {
  }

  /** On Unix EISDIR leads to emptying the directory, then `rmdir`; a
      failing `rmdir` is returned. */
  lemma UnixDirectoryDescended(env: Env, e: Entry, p: Path)
    requires !env.target.Windows?
    requires OpenAtResult(env, Some(e.node), p + [e.name]) == Err(Os(EISDIR))
    requires OpenDirAtResult(env, Some(e.node), p + [e.name]).Ok?
    ensures var sub := ContentsOf(env, e.node, p + [e.name]);
            EntryOf(env, e, p) ==
              if sub.0.Err? then (sub.0, Some(sub.1))
              else Deleted(RmdirResult(env, RmdirAt, Some(sub.1), p + [e.name]), sub.1)
  {
  }

  /** On Windows only a directory that is no link is descended into; every
      opened entry is then deleted through its handle. */
  lemma WindowsEntry(env: Env, e: Entry, p: Path)
    requires env.target.Windows?
    requires OpenPathAtResult(env, Some(e.node), p + [e.name]).Ok?
    requires Site(HandleMetadata, p + [e.name]) !in env.faults
    ensures !e.node.Dir? ==>
              EntryOf(env, e, p) == Deleted(DeleteByHandleResult(env, e.node, p + [e.name]), e.node)
    ensures e.node.Dir? && Site(Duplicate, p + [e.name]) !in env.faults ==>
              var sub := ContentsOf(env, e.node, p + [e.name]);
              EntryOf(env, e, p) ==
                if sub.0.Err? then (sub.0, Some(sub.1))
                else Deleted(DeleteByHandleResult(env, sub.1, p + [e.name]), sub.1)
  {
  }

  /** `remove_dir_all_path` deletes nothing when the open fails, and when it
      succeeds it has removed exactly the directory at `p`. */
  lemma RemoveDirAllPathResult(env: Env, root: Node, p: Path)
    ensures OpenDirResult(env, Get(root, p), p).Err? ==>
              RemoveDirAllPathOf(env, root, p) == (OpenDirResult(env, Get(root, p), p), root)
    ensures RemoveDirAllPathOf(env, root, p).0.Ok? ==>
              && Get(root, p).Some? && Get(root, p).value.Dir?
              && RemoveDirAllPathOf(env, root, p).1 == Delete(root, p)
  {
    if RemoveDirAllPathOf(env, root, p).0.Ok? {
      var n := Get(root, p).value;
      DeletePut(root, p, Dir([], n.readonly));
    }
  }

  /** A link given as the root is refused by the open, with the open's own
      error, and nothing is deleted: in particular not the contents of the
      directory it names. */
  lemma RootSymlinkRejected(env: Env, root: Node, p: Path, t: Path)
    requires Get(root, p) == Some(Symlink(t)) && Site(OpenDir, p) !in env.faults
    ensures var e := if env.target.Windows? then Custom(Other) else Os(SymlinkOpenCode(env.target));
            && RemoveDirAllPathOf(env, root, p) == (Err(e), root)
            && RemoveContentsPathOf(env, root, p) == (Err(e), root)
            && KindOf(e) != NotADirectory
            && (KindOf(e) == Other <==> env.target.Windows?)
  {
  }

  /** With no failing call, `remove_dir_all_path` removes any directory
      below the root, except a readonly one on Windows, whose `fs::remove_dir`
      is refused, and one holding a readonly file on Unix. */
  lemma RemoveDirAllPathComplete(env: Env, root: Node, p: Path)
    requires NoFaults(env) && p != []
    requires Get(root, p).Some? && Get(root, p).value.Dir?
    requires !(env.target.Windows? && Get(root, p).value.readonly)
    requires env.target.Windows? || WritableFiles(Get(root, p).value)
    ensures RemoveDirAllPathOf(env, root, p) == (Ok(()), Delete(root, p))
  {
    var n := Get(root, p).value;
    ContentsComplete(env, n, p);
    GetPut(root, p, Dir([], n.readonly));
    DeletePut(root, p, Dir([], n.readonly));
  }

  /** `remove_dir_all_path` never touches a path outside `p` other than by
      unlinking `p` from its parent. */
  lemma RemoveDirAllPathFrame(env: Env, root: Node, p: Path, q: Path)
    requires Disjoint(p, q)
    ensures Get(RemoveDirAllPathOf(env, root, p).1, q) == Get(root, q)
  {
    if OpenDirResult(env, Get(root, p), p).Ok? {
      var c := ContentsAt(env, root, p);
      ContentsFrame(env, root, p, q);
      GetDeleteDisjoint(c.1, p, q);
    }
  }

  /** `_ensure_empty_dir_path`: success of `create_dir` is success, an
      existing entry is emptied like `_remove_dir_contents_path` does, and
      any other error is returned unchanged. */
  lemma EnsureEmptyCases(env: Env, root: Node, p: Path)
    ensures var create := CreateDirResult(env, root, p);
            && (create.Ok? ==> EnsureEmptyDirPathOf(env, root, p) == (Ok(()), Created(root, p)))
            && (create.Err? && KindOf(create.error) == AlreadyExists ==>
                  EnsureEmptyDirPathOf(env, root, p) == RemoveContentsPathOf(env, root, p))
            && (create.Err? && KindOf(create.error) != AlreadyExists ==>
                  EnsureEmptyDirPathOf(env, root, p) == (create, root))
  {
  }

  /** With no failing call, an existing directory ends up empty and the
      tree is otherwise as before. */
  lemma EnsureEmptyExisting(env: Env, root: Node, p: Path)
    requires NoFaults(env) && Get(root, p).Some? && Get(root, p).value.Dir?
    requires env.target.Windows? || WritableFiles(Get(root, p).value)
    ensures EnsureEmptyDirPathOf(env, root, p)
         == (Ok(()), Put(root, p, Dir([], Get(root, p).value.readonly)))
  {
    ContentsComplete(env, Get(root, p).value, p);
  }

  /** With no failing call, a missing path whose parent is a directory is
      created as an empty, writable directory, and nothing outside it
      changes. */
  lemma EnsureEmptyFresh(env: Env, root: Node, p: Path, q: Path)
    requires NoFaults(env) && p != [] && Get(root, p).None?
    requires Get(root, Parent(p)).Some? && Get(root, Parent(p)).value.Dir?
    ensures EnsureEmptyDirPathOf(env, root, p).0 == Ok(())
    ensures Get(EnsureEmptyDirPathOf(env, root, p).1, p) == Some(Dir([], false))
    ensures Disjoint(p, q) ==> Get(EnsureEmptyDirPathOf(env, root, p).1, q) == Get(root, q)
  {
    GetCreated(env, root, p, q);
  }

  /** Whatever fails, a successful `_ensure_empty_dir_path` leaves an empty
      directory at `p`. */
  lemma EnsureEmptyEmpties(env: Env, root: Node, p: Path)
    ensures var r := EnsureEmptyDirPathOf(env, root, p);
            r.0.Ok? ==> Get(r.1, p).Some? && Get(r.1, p).value.Dir? && Get(r.1, p).value.entries == []
  {
    var create := CreateDirResult(env, root, p);
    if create.Ok? {
      GetCreated(env, root, p, p);
    } else if EnsureEmptyDirPathOf(env, root, p).0.Ok? {
      var n := Get(root, p).value;
      GetPut(root, p, ContentsOf(env, n, p).1);
    }
  }

  /** With no failing call, a second `_ensure_empty_dir_path` succeeds and
      changes nothing. */
  lemma EnsureEmptyIdempotent(env: Env, root: Node, p: Path)
    requires NoFaults(env) && EnsureEmptyDirPathOf(env, root, p).0.Ok?
    ensures var after := EnsureEmptyDirPathOf(env, root, p).1;
            EnsureEmptyDirPathOf(env, after, p) == (Ok(()), after)
  {
    var after := EnsureEmptyDirPathOf(env, root, p).1;
    EnsureEmptyEmpties(env, root, p);
    var n := Get(after, p).value;
    assert n == Dir([], n.readonly);
    assert ContentsOf(env, n, p) == (Ok(()), n);
    PutFound(after, p);
  }

  // ---------------------------------------------------------------------------
  // Lemmas the traversal needs

  /** `ContentsAt` by cases: a failed duplicate or listing leaves the tree
      as it was, and once both succeed it is the fold over the entries. */
  lemma ContentsAtCases(env: Env, root: Node, p: Path)
    requires Get(root, p).Some?
    ensures var n := Get(root, p).value;
            var dup := FaultOr(env, Duplicate, p, Ok(()));
            var rd := ReadDirResult(env, Get(root, p), p);
            && (dup.Err? ==> ContentsAt(env, root, p) == (dup, root))
            && (dup.Ok? && rd.Err? ==> ContentsAt(env, root, p) == (Drop(rd), root))
            && (dup.Ok? && rd.Ok? ==>
                  && n.Dir? && rd.value == [".", ".."] + Names(n.entries)
                  && var res := EntriesOf(env, n.entries, p);
                  && ContentsAt(env, root, p) == (res.0, Put(root, p, Dir(res.1, n.readonly)))
                  && Put(root, p, Dir(n.entries, n.readonly)) == root)
  {
    PutFound(root, p);
  }

  /** The enumeration's `.` and `..` are no entries of the tree. */
  lemma DotsAbsent(root: Node, p: Path, es: seq<Entry>, ro: bool, name: Name)
    requires Get(root, p) == Some(Dir(es, ro)) && NoDots(Dir(es, ro)) && IsDot(name)
    ensures Get(root, p + [name]) == None
  {
    GetAppend(root, p, [name]);
    FindAbsent(es, name);
  }

  lemma FindAbsent(es: seq<Entry>, a: Name)
    requires forall i :: 0 <= i < |es| ==> es[i].name != a
    ensures Find(es, a) == None
  {
  }

  /** Before a loop step: the entry under the next name has no dot
      entries, and it is smaller than the directory, or it is missing and
      the directory itself measures the call. */
  lemma BeforeStep(root0: Node, p: Path, es: seq<Entry>, ro: bool, names: seq<Name>, i: nat)
    requires Get(root0, p) == Some(Dir(es, ro)) && NoDots(Dir(es, ro))
    requires names == [".", ".."] + Names(es) && i < |names|
    ensures var before := Put(root0, p, Dir(es[Done(i)..], ro));
            && (Get(before, p + [names[i]]).Some? ==> NoDots(Get(before, p + [names[i]]).value))
            && (EntryMeasure(before, p, names[i]) < Dir(es, ro)
                || (EntryMeasure(before, p, names[i]) == Dir(es, ro) && EntryRank(before, p, names[i]) == 0))
  {
    if i >= 2 {
      LoopEntry(root0, p, es, ro, i - 2);
      assert names[i] == es[i - 2].name;
    } else {
      GetPut(root0, p, Dir(es, ro));
      assert es[Done(i)..] == es;
      DotsAbsent(Put(root0, p, Dir(es, ro)), p, es, ro, names[i]);
    }
  }

  /** After a loop step: what `ScanAndRemoveEntry` did to the tree is the
      first step of `EntriesOf` on the entries not yet dealt with (nothing,
      for the dot names). */
  lemma AfterStep(env: Env, root0: Node, p: Path, es: seq<Entry>, ro: bool, names: seq<Name>, i: nat)
    requires Get(root0, p) == Some(Dir(es, ro)) && NoDots(Dir(es, ro))
    requires names == [".", ".."] + Names(es) && i < |names|
    ensures var step := EntryAt(env, Put(root0, p, Dir(es[Done(i)..], ro)), p, names[i]);
            var rest := EntriesOf(env, es[Done(i)..], p);
            && (step.0.Ok? ==> step.1 == Put(root0, p, Dir(es[Done(i + 1)..], ro))
                               && EntriesOf(env, es[Done(i + 1)..], p) == rest)
            && (step.0.Err? ==> step.0 == rest.0 && step.1 == Put(root0, p, Dir(rest.1, ro)))
  {
    if i >= 2 {
      var k := i - 2;
      assert names[i] == es[k].name;
      LoopEntry(root0, p, es, ro, k);
      var rest := es[k..];
      assert rest[0] == es[k] && rest[1..] == es[k + 1..];
      var e := EntryOf(env, es[k], p);
      StepTree(root0, p, es, ro, k, e.1);
      assert Done(i) == k && Done(i + 1) == k + 1;
      if e.1.None? {
        assert Kept(es[k].name, e.1) + es[k + 1..] == es[k + 1..];
      }
    }
  }
}
