/** The operating-system calls the removal code makes, as operations on the
    abstract tree. Each call first consults a fixed fault table, so any call on
    any path can fail with any error number; otherwise it behaves as the
    target's kernel does. */
module Os {
  import opened Errors
  import opened Platform
  import opened Tree

  datatype Op =
    | Duplicate | OpenDir | OpenAt | OpenDirAt | ReadDir | UnlinkAt | RmdirAt
    | OpenPathAt | HandleMetadata | DeleteByHandle
    | CreateDir | RemoveDir | RemoveFile | RemoveDirAll | Metadata | EntryMetadata
    | Canonicalize | OpenForDelete | ClearReadonly | SetDisposition | RestorePermissions

  /** One call on one path. */
  datatype Site = Site(op: Op, path: Path)

  /** The target the code was compiled for and the calls that fail. */
  datatype Env = Env(target: Target, faults: map<Site, Code>)

  /** An open handle: file descriptor or Windows handle. */
  datatype Handle = Handle(id: nat, path: Path)

  /** What `metadata()` reports about a node. */
  datatype Meta = Meta(isDir: bool, isSymlink: bool, readonly: bool)

  predicate NoFaults(env: Env) {
    env.faults == map[]
  }

  /** The injected failure for `op` on `p` if there is one, or else `r`. */
  function FaultOr<T>(env: Env, op: Op, p: Path, r: Result<T>): Result<T> {
    if Site(op, p) in env.faults then Err(Os(env.faults[Site(op, p)])) else r
  }

  function MetaOf(n: Node): Meta {
    match n
    case Dir(_, ro) => Meta(true, false, ro)
    case File(ro) => Meta(false, false, ro)
    case Symlink(_) => Meta(false, true, false)
  }

  /** `n` with its readonly attribute set to `ro` (links have none). */
  function WithReadonly(n: Node, ro: bool): Node {
    match n
    case Dir(es, _) => Dir(es, ro)
    case File(_) => File(ro)
    case Symlink(t) => n
  }

  /** Path resolution that follows a trailing chain of symbolic links, up to
      the target's limit. */
  function Resolve(t: Target, root: Node, p: Path): (r: Result<Path>)
    ensures r.Ok? ==> Get(root, r.value).Some? && !Get(root, r.value).value.Symlink?
  {
    Follow(root, p, MaxSymlinkHops(t))
  }

  /** Resolves `p`, following at most `hops` more links; ELOOP beyond that. */
  function Follow(root: Node, p: Path, hops: nat): (r: Result<Path>)
    ensures r.Ok? ==> Get(root, r.value).Some? && !Get(root, r.value).value.Symlink?
    ensures Get(root, p).Some? && !Get(root, p).value.Symlink? ==> r == Ok(p)
    decreases hops
  {
    match Get(root, p)
    case None => Err(Os(ENOENT))
    case Some(Symlink(t)) => if hops == 0 then Err(Os(ELOOP)) else Follow(root, t, hops - 1)
    case Some(_) => Ok(p)
  }

  // ---------------------------------------------------------------------------
  // What each call returns

  /** `open_at` relative to a directory handle, read/write, not following
      links. A file the caller may not write (readonly) refuses the write
      access with EACCES. */
  function OpenAtResult(env: Env, node: Option<Node>, q: Path): Outcome {
    FaultOr(env, OpenAt, q,
      match node
      case None => Err(Os(ENOENT))
      case Some(Dir(_, _)) => Err(Os(EISDIR))
      case Some(Symlink(_)) => Err(Os(SymlinkOpenCode(env.target)))
      case Some(File(ro)) => if ro then Err(Os(EACCES)) else Ok(()))
  }

  /** `open_dir_at` relative to a directory handle, not following links. */
  function OpenDirAtResult(env: Env, node: Option<Node>, q: Path): Outcome {
    FaultOr(env, OpenDirAt, q,
      match node
      case None => Err(Os(ENOENT))
      case Some(Dir(_, _)) => Ok(())
      case Some(Symlink(_)) => Err(Os(SymlinkOpenCode(env.target)))
      case Some(File(_)) => Err(Os(ENOTDIR)))
  }

  /** `Io::open_dir` by path. On Unix it is a read-only open with O_NOFOLLOW,
      which also opens a regular file; on Windows a link is rejected after the
      open with an error that carries no OS code. */
  function OpenDirResult(env: Env, node: Option<Node>, p: Path): Outcome {
    FaultOr(env, OpenDir, p,
      match node
      case None => Err(Os(ENOENT))
      case Some(Symlink(_)) =>
        if env.target.Windows? then Err(Custom(Other)) else Err(Os(SymlinkOpenCode(env.target)))
      case Some(_) => Ok(()))
  }

  /** Directory enumeration on a handle; it yields the dot entries first. */
  function ReadDirResult(env: Env, node: Option<Node>, p: Path): Result<seq<Name>> {
    FaultOr(env, ReadDir, p,
      match node
      case None => Err(Os(ENOENT))
      case Some(Dir(es, _)) => Ok([".", ".."] + Names(es))
      case Some(_) => Err(Os(ENOTDIR)))
  }

  /** `unlink_at` (op UnlinkAt) or `fs::remove_file` (op RemoveFile). */
  function UnlinkResult(env: Env, op: Op, node: Option<Node>, q: Path): Outcome {
    FaultOr(env, op, q,
      match node
      case None => Err(Os(ENOENT))
      case Some(Dir(_, _)) => Err(Os(UnlinkDirCode(env.target)))
      case Some(File(ro)) => if env.target.Windows? && ro then Err(Os(EACCES)) else Ok(())
      case Some(Symlink(_)) => Ok(()))
  }

  /** `rmdir_at` (op RmdirAt) or `fs::remove_dir` (op RemoveDir). */
  function RmdirResult(env: Env, op: Op, node: Option<Node>, q: Path): Outcome {
    FaultOr(env, op, q,
      if q == [] then Err(Os(EBUSY))
      else match node
        case None => Err(Os(ENOENT))
        case Some(Dir(es, ro)) =>
          if es != [] then Err(Os(ENOTEMPTY))
          else if env.target.Windows? && ro then Err(Os(EACCES))
          else Ok(())
        case Some(_) => Err(Os(ENOTDIR)))
  }

  /** Windows `open_path_at`: opens whatever the entry is, links included. */
  function OpenPathAtResult(env: Env, node: Option<Node>, q: Path): Outcome {
    FaultOr(env, OpenPathAt, q, if node.Some? then Ok(()) else Err(Os(ENOENT)))
  }

  /** Windows `delete_by_handle`: a directory must already be empty. */
  function DeleteByHandleResult(env: Env, node: Node, q: Path): Outcome {
    FaultOr(env, DeleteByHandle, q,
      if node.Dir? && node.entries != [] then Err(Os(ENOTEMPTY)) else Ok(()))
  }

  /** `fs::create_dir`. */
  function CreateDirResult(env: Env, root: Node, p: Path): Outcome {
    FaultOr(env, CreateDir, p,
      if Get(root, p).Some? then Err(Os(EEXIST))
      else match Get(root, Parent(p))
        case Some(Dir(_, _)) => Ok(())
        case Some(_) => Err(Os(ENOTDIR))
        case None => Err(Os(ENOENT)))
  }

  /** The standard library's `fs::remove_dir_all` on Unix: removes a link
      itself, a directory with everything below it, and refuses a file. */
  function RemoveDirAllResult(env: Env, node: Option<Node>, p: Path): Outcome {
    FaultOr(env, RemoveDirAll, p,
      match node
      case None => Err(Os(ENOENT))
      case Some(File(_)) => Err(Os(ENOTDIR))
      case Some(_) => if p == [] then Err(Os(EBUSY)) else Ok(()))
  }

  /** `fs::metadata`: follows trailing links. */
  function MetadataResult(env: Env, root: Node, p: Path): Result<Meta> {
    FaultOr(env, Metadata, p,
      match Resolve(env.target, root, p)
      case Err(e) => Err(e)
      case Ok(r) => if Get(root, r).Some? then Ok(MetaOf(Get(root, r).value)) else Err(Os(ENOENT)))
  }

  /** `DirEntry::metadata` on Windows: the entry itself, links not followed. */
  function EntryMetadataResult(env: Env, node: Option<Node>, q: Path): Result<Meta> {
    FaultOr(env, EntryMetadata, q, if node.Some? then Ok(MetaOf(node.value)) else Err(Os(ENOENT)))
  }

  /** `fs::read_dir` by path: follows trailing links and yields no dot
      entries. The result names the directory actually listed. */
  function ReadDirPathResult(env: Env, root: Node, p: Path): Result<(Path, seq<Name>)> {
    FaultOr(env, ReadDir, p,
      match Resolve(env.target, root, p)
      case Err(e) => Err(e)
      case Ok(d) =>
        (match Get(root, d)
         case Some(Dir(es, _)) => Ok((d, Names(es)))
         case _ => Err(Os(ENOTDIR))))
  }

  /** `Path::canonicalize`. */
  function CanonicalizeResult(env: Env, root: Node, p: Path): Result<Path> {
    FaultOr(env, Canonicalize, p, Resolve(env.target, root, p))
  }

  /** `SetFileInformationByHandle(FileDispositionInfo)`: a directory must be
      empty, and the root of the tree cannot be deleted. */
  function SetDispositionResult(env: Env, node: Option<Node>, q: Path): Outcome {
    FaultOr(env, SetDisposition, q,
      if q == [] then Err(Os(EBUSY))
      else match node
      case None => Err(Os(ENOENT))
      case Some(n) => if n.Dir? && n.entries != [] then Err(Os(ENOTEMPTY)) else Ok(()))
  }

  // ---------------------------------------------------------------------------
  // The file system as the program sees it

  class FileSystem {
    var root: Node
    /** The next handle number to hand out. */
    var nextId: nat
    /** Handles whose file is marked for deletion when the handle is closed. */
    var pending: set<nat>
    const env: Env

    constructor (root: Node, env: Env)
      ensures this.root == root && this.env == env && nextId == 0 && pending == {}
    {
      this.root := root;
      this.env := env;
      nextId := 0;
      pending := {};
    }

    method NewHandle(p: Path) returns (h: Handle)
      modifies this`nextId
      ensures h == Handle(old(nextId), p) && nextId == old(nextId) + 1
    {
      h := Handle(nextId, p);
      nextId := nextId + 1;
    }

    /** `Io::duplicate_fd`: a new handle on the same node, or the error. */
    method DuplicateFd(h: Handle) returns (r: Result<Handle>)
      modifies this`nextId
      ensures Drop(r) == FaultOr(env, Duplicate, h.path, Ok(()))
      ensures r.Ok? ==> r.value == Handle(old(nextId), h.path)
      ensures nextId == if r.Ok? then old(nextId) + 1 else old(nextId)
    {
      if Site(Duplicate, h.path) in env.faults {
        return Err(Os(env.faults[Site(Duplicate, h.path)]));
      }
      var d := NewHandle(h.path);
      return Ok(d);
    }

    /** `Io::open_dir`. */
    method OpenDirByPath(p: Path) returns (r: Result<Handle>)
      modifies this`nextId
      ensures Drop(r) == OpenDirResult(env, Get(root, p), p)
      ensures r.Ok? ==> r.value == Handle(old(nextId), p)
      ensures nextId == if r.Ok? then old(nextId) + 1 else old(nextId)
    {
      var o := OpenDirResult(env, Get(root, p), p);
      if o.Err? {
        return Err(o.error);
      }
      var d := NewHandle(p);
      return Ok(d);
    }

    /** The Unix no-follow read/write `open_at`; the opened file is dropped. */
    method OpenAtNoFollow(dir: Handle, name: Name) returns (r: Outcome)
      ensures r == OpenAtResult(env, Get(root, dir.path + [name]), dir.path + [name])
    {
      r := OpenAtResult(env, Get(root, dir.path + [name]), dir.path + [name]);
    }

    method OpenDirAtNoFollow(dir: Handle, name: Name) returns (r: Result<Handle>)
      modifies this`nextId
      ensures Drop(r) == OpenDirAtResult(env, Get(root, dir.path + [name]), dir.path + [name])
      ensures r.Ok? ==> r.value == Handle(old(nextId), dir.path + [name])
      ensures nextId == if r.Ok? then old(nextId) + 1 else old(nextId)
    {
      var q := dir.path + [name];
      var o := OpenDirAtResult(env, Get(root, q), q);
      if o.Err? {
        return Err(o.error);
      }
      var d := NewHandle(q);
      return Ok(d);
    }

    /** `fs_at::read_dir` on a handle. */
    method ReadDirAt(dir: Handle) returns (r: Result<seq<Name>>)
      ensures r == ReadDirResult(env, Get(root, dir.path), dir.path)
    {
      r := ReadDirResult(env, Get(root, dir.path), dir.path);
    }

    method UnlinkAtName(dir: Handle, name: Name) returns (r: Outcome)
      modifies this`root
      ensures r == UnlinkResult(env, UnlinkAt, Get(old(root), dir.path + [name]), dir.path + [name])
      ensures root == if r.Ok? then Delete(old(root), dir.path + [name]) else old(root)
    {
      var q := dir.path + [name];
      r := UnlinkResult(env, UnlinkAt, Get(root, q), q);
      if r.Ok? {
        root := Delete(root, q);
      }
    }

    method RmdirAtName(dir: Handle, name: Name) returns (r: Outcome)
      modifies this`root
      ensures r == RmdirResult(env, RmdirAt, Get(old(root), dir.path + [name]), dir.path + [name])
      ensures root == if r.Ok? then Delete(old(root), dir.path + [name]) else old(root)
    {
      var q := dir.path + [name];
      r := RmdirResult(env, RmdirAt, Get(root, q), q);
      if r.Ok? {
        root := Delete(root, q);
      }
    }

    /** Windows `open_path_at` with delete, list and read-attributes access. */
    method OpenPathAtName(dir: Handle, name: Name) returns (r: Result<Handle>)
      modifies this`nextId
      ensures Drop(r) == OpenPathAtResult(env, Get(root, dir.path + [name]), dir.path + [name])
      ensures r.Ok? ==> r.value == Handle(old(nextId), dir.path + [name])
      ensures nextId == if r.Ok? then old(nextId) + 1 else old(nextId)
    {
      var q := dir.path + [name];
      var o := OpenPathAtResult(env, Get(root, q), q);
      if o.Err? {
        return Err(o.error);
      }
      var d := NewHandle(q);
      return Ok(d);
    }

    /** `File::metadata` on an open handle. */
    method MetadataOfHandle(h: Handle) returns (r: Result<Meta>)
      ensures r == FaultOr(env, HandleMetadata, h.path,
                           if Get(root, h.path).Some? then Ok(MetaOf(Get(root, h.path).value)) else Err(Os(ENOENT)))
    {
      var n := Get(root, h.path);
      r := FaultOr(env, HandleMetadata, h.path, if n.Some? then Ok(MetaOf(n.value)) else Err(Os(ENOENT)));
    }

    method DeleteByHandleOf(h: Handle) returns (r: Outcome)
      modifies this`root
      ensures Get(old(root), h.path).None? ==> r == Err(Os(ENOENT)) && root == old(root)
      ensures Get(old(root), h.path).Some? ==> r == DeleteByHandleResult(env, Get(old(root), h.path).value, h.path)
      ensures root == if r.Ok? then Delete(old(root), h.path) else old(root)
    {
      var n := Get(root, h.path);
      if n.None? {
        return Err(Os(ENOENT));
      }
      r := DeleteByHandleResult(env, n.value, h.path);
      if r.Ok? {
        root := Delete(root, h.path);
      }
    }

    /** `fs::create_dir`: a new empty, writable directory at the end of its parent. */
    method CreateDirAt(p: Path) returns (r: Outcome)
      modifies this`root
      ensures r == CreateDirResult(env, old(root), p)
      ensures r.Ok? ==> p != [] && Get(old(root), Parent(p)).Some? && Get(old(root), Parent(p)).value.Dir?
      ensures root == if r.Ok? then Created(old(root), p) else old(root)
    {
      r := CreateDirResult(env, root, p);
      if r.Ok? {
        root := Created(root, p);
      }
    }

    /** `fs::remove_dir` by path. */
    method RemoveDirByPath(p: Path) returns (r: Outcome)
      modifies this`root
      ensures r == RmdirResult(env, RemoveDir, Get(old(root), p), p)
      ensures root == if r.Ok? then Delete(old(root), p) else old(root)
    {
      r := RmdirResult(env, RemoveDir, Get(root, p), p);
      if r.Ok? {
        root := Delete(root, p);
      }
    }

    /** `fs::remove_file` by path. */
    method RemoveFileByPath(p: Path) returns (r: Outcome)
      modifies this`root
      ensures r == UnlinkResult(env, RemoveFile, Get(old(root), p), p)
      ensures root == if r.Ok? then Delete(old(root), p) else old(root)
    {
      r := UnlinkResult(env, RemoveFile, Get(root, p), p);
      if r.Ok? {
        root := Delete(root, p);
      }
    }

    /** The standard library's `fs::remove_dir_all` (Unix). */
    method RemoveDirAllByPath(p: Path) returns (r: Outcome)
      modifies this`root
      ensures r == RemoveDirAllResult(env, Get(old(root), p), p)
      ensures root == if r.Ok? then Delete(old(root), p) else old(root)
    {
      r := RemoveDirAllResult(env, Get(root, p), p);
      if r.Ok? {
        root := Delete(root, p);
      }
    }

    method MetadataByPath(p: Path) returns (r: Result<Meta>)
      ensures r == MetadataResult(env, root, p)
    {
      r := MetadataResult(env, root, p);
    }

    method EntryMetadataAt(q: Path) returns (r: Result<Meta>)
      ensures r == EntryMetadataResult(env, Get(root, q), q)
    {
      r := EntryMetadataResult(env, Get(root, q), q);
    }

    method ReadDirByPath(p: Path) returns (r: Result<(Path, seq<Name>)>)
      ensures r == ReadDirPathResult(env, root, p)
    {
      r := ReadDirPathResult(env, root, p);
    }

    method CanonicalizePath(p: Path) returns (r: Result<Path>)
      ensures r == CanonicalizeResult(env, root, p)
    {
      r := CanonicalizeResult(env, root, p);
    }

    /** Opens a path for deletion without following a trailing link
        (FILE_FLAG_OPEN_REPARSE_POINT). */
    method OpenForDeletion(p: Path) returns (r: Result<Handle>)
      modifies this`nextId
      ensures Drop(r) == FaultOr(env, OpenForDelete, p, if Get(root, p).Some? then Ok(()) else Err(Os(ENOENT)))
      ensures r.Ok? ==> r.value == Handle(old(nextId), p)
      ensures nextId == if r.Ok? then old(nextId) + 1 else old(nextId)
    {
      var o := FaultOr(env, OpenForDelete, p, if Get(root, p).Some? then Ok(()) else Err(Os(ENOENT)));
      if o.Err? {
        return Err(o.error);
      }
      var h := NewHandle(p);
      return Ok(h);
    }

    /** `File::set_permissions` with the given readonly flag; `op` names the call. */
    method SetReadonly(h: Handle, op: Op, ro: bool) returns (r: Outcome)
      modifies this`root
      ensures r == FaultOr(env, op, h.path, if Get(old(root), h.path).Some? then Ok(()) else Err(Os(ENOENT)))
      ensures root == if r.Ok? then Put(old(root), h.path, WithReadonly(Get(old(root), h.path).value, ro)) else old(root)
    {
      var n := Get(root, h.path);
      r := FaultOr(env, op, h.path, if n.Some? then Ok(()) else Err(Os(ENOENT)));
      if r.Ok? {
        root := Put(root, h.path, WithReadonly(n.value, ro));
      }
    }

    /** Marks the handle's file for deletion when the handle is closed. */
    method MarkForDeletion(h: Handle) returns (r: Outcome)
      modifies this`pending
      ensures r == SetDispositionResult(env, Get(root, h.path), h.path)
      ensures pending == if r.Ok? then old(pending) + {h.id} else old(pending)
    {
      r := SetDispositionResult(env, Get(root, h.path), h.path);
      if r.Ok? {
        pending := pending + {h.id};
      }
    }

    /** Dropping a handle: a file marked for deletion goes away now. */
    method Close(h: Handle)
      modifies this`root, this`pending
      ensures root == if h.id in old(pending) then Delete(old(root), h.path) else old(root)
      ensures pending == old(pending) - {h.id}
    {
      if h.id in pending {
        root := Delete(root, h.path);
      }
      pending := pending - {h.id};
    }
  }

  /** The entry that survives a removal call that returned `o`. */
  function Deleted(o: Outcome, n: Node): (Outcome, Option<Node>) {
    (o, if o.Ok? then None else Some(n))
  }

  /** The tree after `fs::create_dir(p)` succeeded. */
  function Created(root: Node, p: Path): Node {
    if p == [] then root
    else match Get(root, Parent(p))
    case Some(Dir(es, ro)) => Put(root, Parent(p), Dir(es + [Entry(Last(p), Dir([], false))], ro))
    case _ => root
  }

  /** A directory `create_dir` made is there, empty and writable, and
      nothing outside it changed. */
  lemma GetCreated(env: Env, root: Node, p: Path, q: Path)
    requires CreateDirResult(env, root, p).Ok?
    ensures Get(Created(root, p), p) == Some(Dir([], false))
    ensures Disjoint(p, q) ==> Get(Created(root, p), q) == Get(root, q)
  {
    var pp, a := Parent(p), Last(p);
    assert p == pp + [a];
    var n := Get(root, pp).value;
    var m := Dir(n.entries + [Entry(a, Dir([], false))], n.readonly);
    GetAppend(root, pp, [a]);
    FindAppended(n.entries, a, Dir([], false), a);
    GetPut(root, pp, m);
    GetAppend(Put(root, pp, m), pp, [a]);
    if Disjoint(p, q) {
      if pp <= q {
        var rest := q[|pp|..];
        assert q == pp + rest && rest != [] && rest[0] != a;
        GetAppend(root, pp, rest);
        GetAppend(Put(root, pp, m), pp, rest);
        FindAppended(n.entries, a, Dir([], false), rest[0]);
      } else {
        assert pp <= p;
        GetPutDisjoint(root, pp, m, q);
      }
    }
  }

  /** Appending an entry whose name was absent. */
  lemma FindAppended(es: seq<Entry>, a: Name, m: Node, b: Name)
    requires Find(es, a).None?
    ensures Find(es + [Entry(a, m)], b) == if a == b then Some(m) else Find(es, b)
  {
    if es != [] {
      assert (es + [Entry(a, m)])[1..] == es[1..] + [Entry(a, m)];
      FindAppended(es[1..], a, m, b);
    }
  }

  /** A link to a link to a directory resolves to the directory. */
  lemma ResolveChain(t: Target, root: Node, a: Path, b: Path, d: Path)
    requires Get(root, a) == Some(Symlink(b)) && Get(root, b) == Some(Symlink(d))
    requires Get(root, d).Some? && Get(root, d).value.Dir?
    ensures Resolve(t, root, a) == Ok(d)
  {
    var h := MaxSymlinkHops(t);
    assert Follow(root, a, h) == Follow(root, b, h - 1) == Follow(root, d, h - 2);
  }

  /** A cycle of links `cyc[0] -> cyc[1] -> ... -> cyc[0]`, of any length,
      is refused with ELOOP from any of its paths, however many hops are
      allowed. */
  lemma {:induction false} FollowCycle(root: Node, cyc: seq<Path>, i: nat, hops: nat)
    requires i < |cyc|
    requires forall j :: 0 <= j < |cyc| ==> Get(root, cyc[j]) == Some(Symlink(cyc[(j + 1) % |cyc|]))
    ensures Follow(root, cyc[i], hops) == Err(Os(ELOOP))
    decreases hops
  {
    if hops > 0 {
      FollowCycle(root, cyc, (i + 1) % |cyc|, hops - 1);
    }
  }

}
