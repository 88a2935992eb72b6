/** The path-based `remove_dir_contents` for Unix targets (src/unix.rs): each
    entry of the listed directory is unlinked, and one that turns out to be a
    directory is handed to the standard library's `fs::remove_dir_all`. */
module UnixPath {
  import opened Errors
  import opened Platform
  import opened Tree
  import opened Os

  /** Both variants of `remove_file_or_dir_all` on the path `q`: the outcome
      and the new tree. Every target but macOS recurses on EISDIR only;
      macOS recurses on EPERM when `fs::metadata` says directory. */
  function RemoveFileOrDirAllOf(env: Env, root: Node, q: Path): (r: (Outcome, Node))
    requires !env.target.Windows?
    ensures r.0.Err? ==> r.1 == root
    ensures r.0.Ok? ==> r.1 == Delete(root, q)
  {
    var rf := UnlinkResult(env, RemoveFile, Get(root, q), q);
    if rf.Ok? then (rf, Delete(root, q))
    else if !env.target.MacOS? then
      if RawOsError(rf.error) == Some(EISDIR) then RemoveAllOf(env, root, q) else (rf, root)
    else if RawOsError(rf.error) == Some(EPERM) then
      var md := MetadataResult(env, root, q);
      if md.Err? then (Drop(md), root)
      else if md.value.isDir then RemoveAllOf(env, root, q)
      else (rf, root)
    else (rf, root)
  }

  /** The standard library's `fs::remove_dir_all`, as one step: it succeeds
      exactly on an existing link or directory other than the root with no
      fault injected, and then the entry is gone. */
  function RemoveAllOf(env: Env, root: Node, q: Path): (r: (Outcome, Node))
    ensures r.0.Ok? <==> Site(RemoveDirAll, q) !in env.faults && q != [] && Get(root, q).Some? && !Get(root, q).value.File?
    ensures r.0.Ok? ==> r.1 == Delete(root, q)
    ensures r.0.Err? ==> r.1 == root
  {
    var r := RemoveDirAllResult(env, Get(root, q), q);
    (r, if r.Ok? then Delete(root, q) else root)
  }

  /** The loop over the listed names of the directory `d`; the first failure
      ends it. Whatever happens, nothing outside `d` changes. */
  function ListOf(env: Env, root: Node, d: Path, names: seq<Name>): (r: (Outcome, Node))
    requires !env.target.Windows?
    ensures forall q :: Disjoint(d, q) ==> Get(r.1, q) == Get(root, q)
    decreases |names|
  {
    if names == [] then (Ok(()), root)
    else
      var s := RemoveFileOrDirAllOf(env, root, d + [names[0]]);
      GetDeleteOutside(root, d, d + [names[0]]);
      if s.0.Err? then s else ListOf(env, s.1, d, names[1..])
  }

  /** `_remove_dir_contents`: list the directory `p` (following a link), then
      remove every entry. A failing listing changes nothing, and in any case
      nothing outside the directory listed changes. */
  function RemoveDirContentsOf(env: Env, root: Node, p: Path): (r: (Outcome, Node))
    requires !env.target.Windows?
    ensures ReadDirPathResult(env, root, p).Err? ==> r == (Drop(ReadDirPathResult(env, root, p)), root)
    ensures ReadDirPathResult(env, root, p).Ok? ==>
              forall q :: Disjoint(ReadDirPathResult(env, root, p).value.0, q) ==> Get(r.1, q) == Get(root, q)
  {
    var rd := ReadDirPathResult(env, root, p);
    if rd.Err? then (Drop(rd), root) else ListOf(env, root, rd.value.0, rd.value.1)
  }

  method RemoveFileOrDirAll(fs: FileSystem, q: Path) returns (r: Outcome)
    requires !fs.env.target.Windows?
    modifies fs`root
    ensures (r, fs.root) == RemoveFileOrDirAllOf(fs.env, old(fs.root), q)
  {
    r := fs.RemoveFileByPath(q);
    if r.Err? {
      if !fs.env.target.MacOS? {
        if RawOsError(r.error) == Some(EISDIR) {
          r := fs.RemoveDirAllByPath(q);
        }
      } else if RawOsError(r.error) == Some(EPERM) {
        var md :- fs.MetadataByPath(q);
        if md.isDir {
          r := fs.RemoveDirAllByPath(q);
        }
      }
    }
  }

  method RemoveDirContents(fs: FileSystem, p: Path) returns (r: Outcome)
    requires !fs.env.target.Windows? && PlainPath(p)
    modifies fs`root
    ensures (r, fs.root) == RemoveDirContentsOf(fs.env, old(fs.root), p)
  {
    var listing :- fs.ReadDirByPath(p);
    var (d, names) := listing;
    var i := 0;
    while i < |names|
      invariant 0 <= i <= |names|
      invariant ListOf(fs.env, fs.root, d, names[i..]) == ListOf(fs.env, old(fs.root), d, names)
    {
      assert names[i..][0] == names[i] && names[i..][1..] == names[i + 1..];
      r := RemoveFileOrDirAll(fs, d + [names[i]]);
      if r.Err? {
        return;
      }
      i := i + 1;
    }
    return Ok(());
  }

  // ---------------------------------------------------------------------------
  // What the loop promises

  /** The first failure ends the loop: names after it are never looked at. */
  lemma {:induction false} ListAbort(env: Env, root: Node, d: Path, names: seq<Name>, more: seq<Name>)
    requires !env.target.Windows? && ListOf(env, root, d, names).0.Err?
    ensures ListOf(env, root, d, names + more) == ListOf(env, root, d, names)
    decreases |names|
  {
    assert (names + more)[0] == names[0] && (names + more)[1..] == names[1..] + more;
    var s := RemoveFileOrDirAllOf(env, root, d + [names[0]]);
    if s.0.Ok? {
      ListAbort(env, s.1, d, names[1..], more);
    }
  }

  /** The loop over the entries `es` of `d` stopped at entry `k`: the
      entries before it are gone with the rest of the tree as it was, and
      removing `es[k]` from there fails. */
  predicate StopsAt(env: Env, root: Node, d: Path, es: seq<Entry>, ro: bool, k: nat)
    requires !env.target.Windows?
  {
    && k < |es|
    && ListOf(env, root, d, Names(es[..k])) == (Ok(()), Put(root, d, Dir(es[k..], ro)))
    && RemoveFileOrDirAllOf(env, Put(root, d, Dir(es[k..], ro)), d + [es[k].name]).0.Err?
  }

  /** A failing loop returns the error of the first entry whose removal
      fails, and leaves that entry and all after it in place. */
  lemma {:induction false} ListFirstError(env: Env, root: Node, d: Path, es: seq<Entry>, ro: bool)
    requires !env.target.Windows? && Get(root, d) == Some(Dir(es, ro))
    ensures ListOf(env, root, d, Names(es)).0.Err? ==>
              exists k: nat :: StopsAt(env, root, d, es, ro, k) &&
                var mid := Put(root, d, Dir(es[k..], ro));
                ListOf(env, root, d, Names(es)) == (RemoveFileOrDirAllOf(env, mid, d + [es[k].name]).0, mid)
    decreases |es|
  {
    if es != [] {
      assert Names(es)[0] == es[0].name && Names(es)[1..] == Names(es[1..]);
      var s := RemoveFileOrDirAllOf(env, root, d + [es[0].name]);
      if s.0.Err? {
        PutFound(root, d);
        assert es[..0] == [] && es[0..] == es;
        assert StopsAt(env, root, d, es, ro, 0);
      } else if ListOf(env, root, d, Names(es)).0.Err? {
        DeleteFirst(root, d, es, ro);
        var root1 := Put(root, d, Dir(es[1..], ro));
        GetPut(root, d, Dir(es[1..], ro));
        ListFirstError(env, root1, d, es[1..], ro);
        var k: nat :| StopsAt(env, root1, d, es[1..], ro, k) &&
                 var mid := Put(root1, d, Dir(es[1..][k..], ro));
                 ListOf(env, root1, d, Names(es[1..])) == (RemoveFileOrDirAllOf(env, mid, d + [es[1..][k].name]).0, mid);
        StopsLater(env, root, d, es, ro, k);
      }
    }
  }

  /** A loop that stops at `k` after the first entry went stops at `k + 1`
      from the start. */
  lemma StopsLater(env: Env, root: Node, d: Path, es: seq<Entry>, ro: bool, k: nat)
    requires !env.target.Windows? && Get(root, d) == Some(Dir(es, ro)) && es != []
    requires RemoveFileOrDirAllOf(env, root, d + [es[0].name]).0.Ok?
    requires StopsAt(env, Put(root, d, Dir(es[1..], ro)), d, es[1..], ro, k)
    ensures StopsAt(env, root, d, es, ro, k + 1)
    ensures es[1..][k] == es[k + 1]
    ensures Put(Put(root, d, Dir(es[1..], ro)), d, Dir(es[1..][k..], ro)) == Put(root, d, Dir(es[k + 1..], ro))
  {
    DeleteFirst(root, d, es, ro);
    assert es[1..][k..] == es[k + 1..];
    PutPut(root, d, Dir(es[1..], ro), Dir(es[k + 1..], ro));
    var pre := es[..k + 1];
    assert pre[0] == es[0] && pre[1..] == es[1..][..k];
    assert Names(pre)[0] == es[0].name && Names(pre)[1..] == Names(pre[1..]);
  }

  /** The errors that come back unchanged: on every target but macOS any
      `remove_file` error other than EISDIR; on macOS any error other than
      EPERM, and EPERM itself when `fs::metadata` says no directory; a
      failing `fs::metadata` is returned too. A directory is handed to
      `fs::remove_dir_all` on the matching error. */
  lemma RemoveFileOrDirAllErrors(env: Env, root: Node, q: Path)
    requires !env.target.Windows?
    ensures var rf := UnlinkResult(env, RemoveFile, Get(root, q), q);
            var md := MetadataResult(env, root, q);
            var r := RemoveFileOrDirAllOf(env, root, q);
            && (rf.Ok? ==> r == (rf, Delete(root, q)))
            && (!env.target.MacOS? && rf.Err? && RawOsError(rf.error) != Some(EISDIR) ==> r == (rf, root))
            && (!env.target.MacOS? && rf.Err? && RawOsError(rf.error) == Some(EISDIR) ==> r == RemoveAllOf(env, root, q))
            && (env.target.MacOS? && rf.Err? && RawOsError(rf.error) != Some(EPERM) ==> r == (rf, root))
            && (env.target.MacOS? && rf.Err? && RawOsError(rf.error) == Some(EPERM) ==>
                  && (md.Err? ==> r == (Err(md.error), root))
                  && (md.Ok? && !md.value.isDir ==> r == (rf, root))
                  && (md.Ok? && md.value.isDir ==> r == RemoveAllOf(env, root, q)))
  {
  }

  /** When every removal succeeds, the listed directory is left empty and
      nothing else in the tree has changed. */
  lemma {:induction false} ListEmpties(env: Env, root: Node, d: Path, es: seq<Entry>, ro: bool)
    requires !env.target.Windows?
    requires Get(root, d) == Some(Dir(es, ro))
    requires ListOf(env, root, d, Names(es)).0.Ok?
    ensures ListOf(env, root, d, Names(es)).1 == Put(root, d, Dir([], ro))
    decreases |es|
  {
    if es == [] {
      PutFound(root, d);
    } else {
      var q := d + [es[0].name];
      assert Names(es)[0] == es[0].name && Names(es)[1..] == Names(es[1..]);
            DeleteFirst(root, d, es, ro);
      var root1 := Put(root, d, Dir(es[1..], ro));
      GetPut(root, d, Dir(es[1..], ro));
      ListEmpties(env, root1, d, es[1..], ro);
      PutPut(root, d, Dir(es[1..], ro), Dir([], ro));
    }
  }

  /** On success the directory that was listed exists and is empty, and the
      rest of the tree is as before; a failing listing deletes nothing. */
  lemma RemoveDirContentsResult(env: Env, root: Node, p: Path)
    requires !env.target.Windows?
    ensures ReadDirPathResult(env, root, p).Err? ==>
              RemoveDirContentsOf(env, root, p) == (Drop(ReadDirPathResult(env, root, p)), root)
    ensures RemoveDirContentsOf(env, root, p).0.Ok? ==>
              var d := ReadDirPathResult(env, root, p).value.0;
              && Get(root, d).Some? && Get(root, d).value.Dir?
              && RemoveDirContentsOf(env, root, p).1 == Put(root, d, Dir([], Get(root, d).value.readonly))
              && Get(RemoveDirContentsOf(env, root, p).1, d) == Some(Dir([], Get(root, d).value.readonly))
  {
    if RemoveDirContentsOf(env, root, p).0.Ok? {
      var d := ReadDirPathResult(env, root, p).value.0;
      var n := Get(root, d).value;
      ListEmpties(env, root, d, n.entries, n.readonly);
      GetPut(root, d, Dir([], n.readonly));
    }
  }

  /** With no failing call, on Linux and on macOS every entry goes, every
      subdirectory included. */
  lemma {:induction false} ListComplete(env: Env, root: Node, d: Path, es: seq<Entry>, ro: bool)
    requires NoFaults(env) && (env.target.Linux? || env.target.MacOS?)
    requires Get(root, d) == Some(Dir(es, ro))
    ensures ListOf(env, root, d, Names(es)) == (Ok(()), Put(root, d, Dir([], ro)))
    decreases |es|
  {
    if es == [] {
      PutFound(root, d);
    } else {
      var q := d + [es[0].name];
      assert Names(es)[0] == es[0].name && Names(es)[1..] == Names(es[1..]);
      GetFirst(root, d, es, ro);
      DeleteFirst(root, d, es, ro);
      var root1 := Put(root, d, Dir(es[1..], ro));
      GetPut(root, d, Dir(es[1..], ro));
      ListComplete(env, root1, d, es[1..], ro);
      PutPut(root, d, Dir(es[1..], ro), Dir([], ro));
    }
  }

  /** The contents of the directory a link (or a chain of links) names are
      removed; the link itself stays. */
  lemma ThroughLink(env: Env, root: Node, p: Path, t: Path)
    requires NoFaults(env) && (env.target.Linux? || env.target.MacOS?)
    requires Get(root, p).Some? && Get(root, p).value.Symlink?
    requires Resolve(env.target, root, p) == Ok(t) && Get(root, t).value.Dir?
    requires Disjoint(p, t)
    ensures var after := RemoveDirContentsOf(env, root, p);
            && after.0 == Ok(())
            && Get(after.1, t) == Some(Dir([], Get(root, t).value.readonly))
            && Get(after.1, p) == Get(root, p)
  {
    var n := Get(root, t).value;
    ListComplete(env, root, t, n.entries, n.readonly);
    GetPut(root, t, Dir([], n.readonly));
    GetPutDisjoint(root, t, Dir([], n.readonly), p);
  }

  /** On a Unix target other than Linux and macOS, where unlinking a
      directory fails with EPERM, the variant without the metadata check
      returns that error for a subdirectory instead of removing it. */
  lemma SubdirectoryRefusedElsewhere(env: Env, root: Node, d: Path, a: Name, es: seq<Entry>, ro: bool)
    requires NoFaults(env) && !env.target.Windows? && !env.target.Linux? && !env.target.MacOS?
    requires Get(root, d + [a]) == Some(Dir(es, ro))
    ensures RemoveFileOrDirAllOf(env, root, d + [a]) == (Err(Os(EPERM)), root)
  {
  }
}
