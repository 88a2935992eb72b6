/** The path-based Windows remover (src/fs.rs): canonicalise, empty the
    directory depth first by path, then remove it; readonly entries are
    deleted by handle after their readonly attribute is cleared. */
module WinPath {
  import opened Errors
  import opened Platform
  import opened Tree
  import opened Os

  /** `delete_readonly` on the node `m` at `q`: the outcome and what is
      left of the entry. Once the disposition is set the entry goes when the handle is
      closed, even if restoring the attribute then fails. */
  function DeleteReadonlyNode(env: Env, m: Node, q: Path): (r: (Outcome, Option<Node>))
    ensures r.0.Ok? ==> r.1.None?
  {
    var open := FaultOr(env, OpenForDelete, q, Ok(()));
    if open.Err? then (open, Some(m))
    else
      var clear := FaultOr(env, ClearReadonly, q, Ok(()));
      if clear.Err? then (clear, Some(m))
      else
        var writable := WithReadonly(m, false);
        var disp := SetDispositionResult(env, Some(writable), q);
        if disp.Err? then (disp, Some(writable))
        else (FaultOr(env, RestorePermissions, q, Ok(())), None)
  }

  /** `delete_readonly` on the path `q` of the tree `root`. */
  function DeleteReadonlyOf(env: Env, root: Node, q: Path): (r: (Outcome, Node))
    ensures r.0.Ok? ==> q != [] && Get(root, q).Some? && r.1 == Delete(root, q)
    ensures r.1 == root || r.1 == Delete(root, q)
            || (Get(root, q).Some? && r.1 == Put(root, q, WithReadonly(Get(root, q).value, false)))
  {
    match Get(root, q)
    case None => (FaultOr(env, OpenForDelete, q, Err(Os(ENOENT))), root)
    case Some(m) =>
      var r := DeleteReadonlyNode(env, m, q);
      PutFound(root, q);
      (r.0, PutOrDelete(root, q, r.1))
  }

  function ContentsOf(env: Env, n: Node, p: Path): (r: (Outcome, Node))
    ensures r.0.Ok? ==> n.Dir? && r.1 == Dir([], n.readonly)
    ensures r.1.Dir? == n.Dir?
    decreases n
  {
    var rd := FaultOr(env, ReadDir, p, if n.Dir? then Ok(()) else Err(Os(ENOTDIR)));
    if rd.Err? then (rd, n)
    else
      var res := EntriesOf(env, n.entries, p);
      (res.0, Dir(res.1, n.readonly))
  }

  /** The `try_for_each` over the entries; the first failure ends it. */
  function EntriesOf(env: Env, es: seq<Entry>, p: Path): (r: (Outcome, seq<Entry>))
    ensures r.0.Ok? ==> r.1 == []
    ensures Remaining(r.1, es)
    decreases es
  {
    if es == [] then (Ok(()), [])
    else
      var e := EntryOf(env, es[0], p);
      if e.0.Err? then (e.0, Kept(es[0].name, e.1) + es[1..])
      else EntriesOf(env, es[1..], p)
  }

  /** The closure body for one entry: read its metadata (links not
      followed), empty it first if it is a directory, then remove it. */
  function EntryOf(env: Env, e: Entry, p: Path): (r: (Outcome, Option<Node>))
    ensures r.0.Ok? ==> r.1.None?
    decreases e
  {
    var q := p + [e.name];
    var md := EntryMetadataResult(env, Some(e.node), q);
    if md.Err? then (Drop(md), Some(e.node))
    else
      var isDir := md.value.isDir;
      var sub := if isDir then ContentsOf(env, e.node, q) else (Ok(()), e.node);
      if sub.0.Err? then (sub.0, Some(sub.1))
      else RemoveOne(env, sub.1, q, md.value.readonly, isDir)
  }

  /** The removal call the closure picks for an entry already emptied. */
  function RemoveOne(env: Env, m: Node, q: Path, readonly: bool, isDir: bool): (r: (Outcome, Option<Node>))
    ensures r.0.Ok? ==> r.1.None?
  {
    if readonly then DeleteReadonlyNode(env, m, q)
    else if isDir then Deleted(RmdirResult(env, RemoveDir, Some(m), q), m)
    else Deleted(UnlinkResult(env, RemoveFile, Some(m), q), m)
  }

  /** One listed name of the directory at `p`, against the whole tree. */
  function EntryAt(env: Env, root: Node, p: Path, name: Name): (Outcome, Node) {
    var q := p + [name];
    match Get(root, q)
    case None => (Drop(EntryMetadataResult(env, None, q)), root)
    case Some(c) =>
      var e := EntryOf(env, Entry(name, c), p);
      (e.0, PutOrDelete(root, q, e.1))
  }

  /** The tree after `_delete_dir_contents` on the node at `p`. */
  function ContentsAt(env: Env, root: Node, p: Path): (Outcome, Node)
    requires Get(root, p).Some?
  {
    var res := ContentsOf(env, Get(root, p).value, p);
    (res.0, Put(root, p, res.1))
  }

  /** `_remove_dir_contents`: canonicalise, then empty; the canonical path
      is returned. */
  function RemoveDirContentsOf(env: Env, root: Node, p: Path): (r: (Result<Path>, Node))
    ensures CanonicalizeResult(env, root, p).Err? ==> r == (CanonicalizeResult(env, root, p), root)
    ensures r.0.Ok? ==>
              var t := r.0.value;
              && r.0 == CanonicalizeResult(env, root, p)
              && Get(root, t).Some? && Get(root, t).value.Dir?
              && r.1 == Put(root, t, Dir([], Get(root, t).value.readonly))
              && Get(r.1, t) == Some(Dir([], Get(root, t).value.readonly))
  {
    var c := CanonicalizeResult(env, root, p);
    if c.Err? then (c, root)
    else
      var res := ContentsAt(env, root, c.value);
      GetPut(root, c.value, ContentsOf(env, Get(root, c.value).value, c.value).1);
      (if res.0.Ok? then c else Err(res.0.error), res.1)
  }

  /** `remove_dir_all`: empty the canonical directory, then remove it, with
      `delete_readonly` when its metadata says readonly. Success means the
      canonical directory is unlinked and nothing else has changed. */
  function RemoveDirAllOf(env: Env, root: Node, p: Path): (r: (Outcome, Node))
    ensures r.0.Ok? ==>
              && CanonicalizeResult(env, root, p).Ok? && CanonicalizeResult(env, root, p).value != []
              && r.1 == Delete(root, CanonicalizeResult(env, root, p).value)
  {
    var c := RemoveDirContentsOf(env, root, p);
    if c.0.Err? then (Drop(c.0), c.1)
    else
      var t := c.0.value;
      var md := MetadataResult(env, c.1, t);
      if md.Err? then (Drop(md), c.1)
      else if md.value.readonly then
        var dr := DeleteReadonlyOf(env, c.1, t);
        if dr.0.Ok? then
          DeletePut(root, t, Dir([], Get(root, t).value.readonly));
          dr
        else dr
      else
        var rm := RmdirResult(env, RemoveDir, Get(c.1, t), t);
        if rm.Ok? then
          DeletePut(root, t, Dir([], Get(root, t).value.readonly));
          (rm, Delete(c.1, t))
        else (rm, c.1)
  }

  // ---------------------------------------------------------------------------
  // The remover as the program runs it

  /** A canonical path names no link. */
  lemma CanonicalIsNoLink(env: Env, root: Node, p: Path)
    requires CanonicalizeResult(env, root, p).Ok?
    ensures var t := CanonicalizeResult(env, root, p).value;
            Get(root, t).Some? && !Get(root, t).value.Symlink?
  {
  }

  method DeleteReadonly(fs: FileSystem, q: Path, ro: bool) returns (r: Outcome)
    requires fs.pending == {}
    modifies fs
    ensures fs.pending == {}
    ensures (r, fs.root) == DeleteReadonlyOf(fs.env, old(fs.root), q)
  {
    ghost var root0 := fs.root;
    if Get(root0, q).Some? {
      PutFound(root0, q);
    }
    var file :- fs.OpenForDeletion(q);
    ghost var m := Get(root0, q).value;
    r := fs.SetReadonly(file, ClearReadonly, false);
    if r.Err? {
      fs.Close(file);
      return;
    }
    GetPut(root0, q, WithReadonly(m, false));
    r := fs.MarkForDeletion(file);
    if r.Err? {
      fs.Close(file);
      return;
    }
    ghost var root1 := fs.root;
    r := fs.SetReadonly(file, RestorePermissions, ro);
    PutPut(root0, q, WithReadonly(m, false), WithReadonly(WithReadonly(m, false), ro));
    DeletePut(root0, q, WithReadonly(WithReadonly(m, false), ro));
    DeletePut(root0, q, WithReadonly(m, false));
    fs.Close(file);
  }

  /** `_delete_dir_contents` on the path `p`. */
  method DeleteDirContents(fs: FileSystem, p: Path) returns (r: Outcome)
    requires fs.pending == {}
    requires Get(fs.root, p).Some? && !Get(fs.root, p).value.Symlink?
    modifies fs
    ensures fs.pending == {}
    ensures (r, fs.root) == ContentsAt(fs.env, old(fs.root), p)
    decreases NodeAt(fs.root, p), 1
  {
    ghost var n := Get(fs.root, p).value;
    PutFound(fs.root, p);
    var listing :- fs.ReadDirByPath(p);
    var names := listing.1;
    ghost var es := n.entries;
    ghost var ro := n.readonly;
    var i := 0;
    while i < |names|
      invariant 0 <= i <= |names| == |es|
      invariant names == Names(es) && fs.pending == {}
      invariant Get(old(fs.root), p) == Some(Dir(es, ro))
      invariant fs.root == Put(old(fs.root), p, Dir(es[i..], ro))
      invariant EntriesOf(fs.env, es[i..], p) == EntriesOf(fs.env, es, p)
    {
      LoopEntry(old(fs.root), p, es, ro, i);
      assert names[i] == es[i].name;
      r := RemoveEntry(fs, p, names[i]);
      LoopStep(fs.env, old(fs.root), p, es, ro, i);
      if r.Err? {
        return;
      }
      i := i + 1;
    }
    return Ok(());
  }

  /** What the closure does with the entry `name` of the directory `p`. */
  method RemoveEntry(fs: FileSystem, p: Path, name: Name) returns (r: Outcome)
    requires fs.pending == {}
    modifies fs
    ensures fs.pending == {}
    ensures (r, fs.root) == EntryAt(fs.env, old(fs.root), p, name)
    decreases NodeAt(fs.root, p + [name]), 2
  {
    var q := p + [name];
    ghost var root0 := fs.root;
    if Get(root0, q).Some? {
      PutFound(root0, q);
    }
    var md :- fs.EntryMetadataAt(q);
    ghost var c := Get(root0, q).value;
    if md.isDir {
      r := DeleteDirContents(fs, q);
      if r.Err? {
        return;
      }
      GetPut(root0, q, Dir([], c.readonly));
    }
    ghost var m := Get(fs.root, q).value;
    ghost var root1 := fs.root;
    assert root1 == Put(root0, q, m);
    if md.readonly {
      r := DeleteReadonly(fs, q, md.readonly);
      SettleReadonly(fs.env, root0, q, m);
    } else if md.isDir {
      r := fs.RemoveDirByPath(q);
      DeletePut(root0, q, m);
    } else {
      r := fs.RemoveFileByPath(q);
    }
  }

  /** `_remove_dir_contents`: returns the canonical path it emptied. */
  method RemoveDirContents(fs: FileSystem, p: Path) returns (r: Result<Path>)
    requires fs.pending == {} && PlainPath(p)
    modifies fs
    ensures fs.pending == {}
    ensures (r, fs.root) == RemoveDirContentsOf(fs.env, old(fs.root), p)
  {
    var path :- fs.CanonicalizePath(p);
    CanonicalIsNoLink(fs.env, fs.root, p);
    var o := DeleteDirContents(fs, path);
    if o.Err? {
      return Err(o.error);
    }
    return Ok(path);
  }

  /** `remove_dir_all` for Windows. */
  method RemoveDirAll(fs: FileSystem, p: Path) returns (r: Outcome)
    requires fs.pending == {} && PlainPath(p)
    modifies fs
    ensures fs.pending == {}
    ensures (r, fs.root) == RemoveDirAllOf(fs.env, old(fs.root), p)
  {
    var path :- RemoveDirContents(fs, p);
    var md :- fs.MetadataByPath(path);
    if md.readonly {
      r := DeleteReadonly(fs, path, md.readonly);
    } else {
      r := fs.RemoveDirByPath(path);
    }
  }

  // ---------------------------------------------------------------------------
  // What the remover promises

  /** `delete_readonly`: nothing changes when opening or clearing the
      attribute fails; the entry is removed exactly when setting the
      disposition succeeds, and then the outcome is that of restoring the
      attribute; when setting the disposition fails, the error is returned
      and the entry stays with its readonly attribute cleared. */
  lemma DeleteReadonlySteps(env: Env, m: Node, q: Path)
    ensures var r := DeleteReadonlyNode(env, m, q);
            var cleared := FaultOr(env, OpenForDelete, q, Ok(())).Ok? && FaultOr(env, ClearReadonly, q, Ok(())).Ok?;
            var disp := SetDispositionResult(env, Some(WithReadonly(m, false)), q);
            && (!cleared ==> r.0.Err? && r.1 == Some(m))
            && (r.1.None? <==> cleared && disp.Ok?)
            && (r.1.None? ==> r.0 == FaultOr(env, RestorePermissions, q, Ok(())))
            && (cleared && disp.Err? ==> r == (disp, Some(WithReadonly(m, false))))
  {
  }

  /** With no failing call, `delete_readonly` removes a readonly file and an
      empty readonly directory. */
  lemma DeleteReadonlyComplete(env: Env, m: Node, q: Path)
    requires NoFaults(env) && q != [] && !(m.Dir? && m.entries != [])
    ensures DeleteReadonlyNode(env, m, q) == (Ok(()), None)
  {
  }

  /** How the closure treats one entry whose metadata it could read: a
      directory is emptied first and stays, partly emptied, when that fails;
      then a readonly entry goes to `delete_readonly`, a directory to
      `fs::remove_dir` and anything else to `fs::remove_file`. */
  lemma EntryDispatch(env: Env, e: Entry, p: Path)
    requires Site(EntryMetadata, p + [e.name]) !in env.faults
    ensures var q := p + [e.name];
            var m := MetaOf(e.node);
            var sub := ContentsOf(env, e.node, q);
            && (!e.node.Dir? ==> EntryOf(env, e, p) == RemoveOne(env, e.node, q, m.readonly, false))
            && (e.node.Dir? && sub.0.Err? ==> EntryOf(env, e, p) == (sub.0, Some(sub.1)))
            && (e.node.Dir? && sub.0.Ok? ==>
                  EntryOf(env, e, p) == RemoveOne(env, Dir([], e.node.readonly), q, m.readonly, true))
    ensures RemoveOne(env, e.node, p + [e.name], true, e.node.Dir?) == DeleteReadonlyNode(env, e.node, p + [e.name])
    ensures RemoveOne(env, e.node, p + [e.name], false, true)
         == Deleted(RmdirResult(env, RemoveDir, Some(e.node), p + [e.name]), e.node)
    ensures RemoveOne(env, e.node, p + [e.name], false, false)
         == Deleted(UnlinkResult(env, RemoveFile, Some(e.node), p + [e.name]), e.node)
  {
  }

  /** With no failing call every directory is emptied, readonly files and
      readonly subdirectories included. */
  lemma {:induction false} ContentsComplete(env: Env, n: Node, p: Path)
    requires NoFaults(env) && n.Dir?
    ensures ContentsOf(env, n, p) == (Ok(()), Dir([], n.readonly))
    decreases n, 1
  {
    EntriesComplete(env, n.entries, p);
  }

  lemma {:induction false} EntriesComplete(env: Env, es: seq<Entry>, p: Path)
    requires NoFaults(env)
    ensures EntriesOf(env, es, p) == (Ok(()), [])
    decreases es, 2
  {
    if es != [] {
      assert es[0] in es;
      EntryComplete(env, es[0], p);
      EntriesComplete(env, es[1..], p);
    }
  }

  lemma {:induction false} EntryComplete(env: Env, e: Entry, p: Path)
    requires NoFaults(env)
    ensures EntryOf(env, e, p) == (Ok(()), None)
    decreases e, 0
  {
    if e.node.Dir? {
      ContentsComplete(env, e.node, p + [e.name]);
    }
  }

  /** `k` is the first entry of `es` whose removal fails. */
  predicate FailsFirstAt(env: Env, es: seq<Entry>, p: Path, k: nat) {
    && k < |es| && EntryOf(env, es[k], p).0.Err?
    && forall j :: 0 <= j < k ==> EntryOf(env, es[j], p).0.Ok?
  }

  /** The loop succeeds when no entry fails; otherwise it stops at the first
      entry that fails and returns that entry's own error, leaving what is
      left of the entry followed by the later entries untouched. */
  lemma {:induction false} EntriesFirstError(env: Env, es: seq<Entry>, p: Path)
    ensures (forall j :: 0 <= j < |es| ==> EntryOf(env, es[j], p).0.Ok?) ==>
              EntriesOf(env, es, p) == (Ok(()), [])
    ensures EntriesOf(env, es, p).0.Err? ==>
              exists k: nat :: FailsFirstAt(env, es, p, k) &&
                EntriesOf(env, es, p) == (EntryOf(env, es[k], p).0, Kept(es[k].name, EntryOf(env, es[k], p).1) + es[k + 1..])
    decreases es
  {
    if es != [] {
      var e := EntryOf(env, es[0], p);
      var tail := es[1..];
      EntriesFirstError(env, tail, p);
      if e.0.Err? {
        assert FailsFirstAt(env, es, p, 0);
      } else {
        assert EntriesOf(env, es, p) == EntriesOf(env, tail, p);
        if forall j :: 0 <= j < |es| ==> EntryOf(env, es[j], p).0.Ok? {
          forall j | 0 <= j < |tail| ensures EntryOf(env, tail[j], p).0.Ok? {
            assert tail[j] == es[j + 1];
          }
        }
        if EntriesOf(env, es, p).0.Err? {
          var k: nat :| FailsFirstAt(env, tail, p, k) &&
                   EntriesOf(env, tail, p) == (EntryOf(env, tail[k], p).0,
                     Kept(tail[k].name, EntryOf(env, tail[k], p).1) + tail[k + 1..]);
          assert tail[k] == es[k + 1] && tail[k + 1..] == es[k + 2..];
          forall j | 0 < j <= k ensures EntryOf(env, es[j], p).0.Ok? {
            assert es[j] == tail[j - 1];
          }
          assert FailsFirstAt(env, es, p, k + 1);
        }
      }
    }
  }

  /** A failing canonicalisation returns before anything is deleted. */
  lemma CanonicalizeFirst(env: Env, root: Node, p: Path)
    requires CanonicalizeResult(env, root, p).Err?
    ensures RemoveDirAllOf(env, root, p) == (Drop(CanonicalizeResult(env, root, p)), root)
  {
  }

  /** With no failing call `remove_dir_all` removes a whole tree below the
      root, readonly or not; given a link to a directory it removes the
      directory the link names and leaves the link. */
  lemma RemoveDirAllComplete(env: Env, root: Node, p: Path)
    requires NoFaults(env)
    requires CanonicalizeResult(env, root, p).Ok? && CanonicalizeResult(env, root, p).value != []
    requires Get(root, CanonicalizeResult(env, root, p).value).value.Dir?
    ensures var t := CanonicalizeResult(env, root, p).value;
            RemoveDirAllOf(env, root, p) == (Ok(()), Delete(root, t))
  {
    var t := CanonicalizeResult(env, root, p).value;
    var n := Get(root, t).value;
    ContentsComplete(env, n, t);
    GetPut(root, t, Dir([], n.readonly));
    DeletePut(root, t, Dir([], n.readonly));
  }

  /** `remove_dir_all` changes nothing outside the canonical directory it
      removes; given a link, that is the link's target, so the link itself
      and everything beside the target stay. */
  lemma RemoveDirAllFrame(env: Env, root: Node, p: Path, q: Path)
    requires CanonicalizeResult(env, root, p).Ok? ==> Disjoint(CanonicalizeResult(env, root, p).value, q)
    ensures Get(RemoveDirAllOf(env, root, p).1, q) == Get(root, q)
  {
    var c := CanonicalizeResult(env, root, p);
    if c.Ok? {
      var t := c.value;
      var res := ContentsAt(env, root, t);
      GetPutDisjoint(root, t, ContentsOf(env, Get(root, t).value, t).1, q);
      GetPut(root, t, ContentsOf(env, Get(root, t).value, t).1);
      GetDeleteDisjoint(res.1, t, q);
      var md := MetadataResult(env, res.1, t);
      if md.Ok? && md.value.readonly {
        var r := DeleteReadonlyNode(env, Get(res.1, t).value, t);
        if r.1.Some? {
          GetPutDisjoint(res.1, t, r.1.value, q);
        }
      }
    }
  }

  // ---------------------------------------------------------------------------
  // Lemmas the remover needs

  /** `delete_readonly` on an entry that was replaced first. */
  lemma SettleReadonly(env: Env, root0: Node, q: Path, m: Node)
    requires Get(root0, q).Some? && q != []
    ensures var r := DeleteReadonlyNode(env, m, q);
            DeleteReadonlyOf(env, Put(root0, q, m), q) == (r.0, PutOrDelete(root0, q, r.1))
  {
    GetPut(root0, q, m);
    var r := DeleteReadonlyNode(env, m, q);
    if r.1.Some? {
      PutPut(root0, q, m, r.1.value);
    } else {
      DeletePut(root0, q, m);
    }
  }

  lemma LoopStep(env: Env, root0: Node, p: Path, es: seq<Entry>, ro: bool, k: nat)
    requires k < |es|
    requires Get(root0, p) == Some(Dir(es, ro))
    ensures var step := EntryAt(env, Put(root0, p, Dir(es[k..], ro)), p, es[k].name);
            var rest := EntriesOf(env, es[k..], p);
            && (step.0.Ok? ==> step.1 == Put(root0, p, Dir(es[k + 1..], ro))
                               && EntriesOf(env, es[k + 1..], p) == rest)
            && (step.0.Err? ==> step.0 == rest.0 && step.1 == Put(root0, p, Dir(rest.1, ro)))
  {
    LoopEntry(root0, p, es, ro, k);
    var rest := es[k..];
    assert rest[0] == es[k] && rest[1..] == es[k + 1..];
    var e := EntryOf(env, es[k], p);
    StepTree(root0, p, es, ro, k, e.1);
    if e.1.None? {
      assert Kept(es[k].name, e.1) + es[k + 1..] == es[k + 1..];
    }
  }
}
