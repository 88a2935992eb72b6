/** The abstract in-memory file system: a tree of directories, files and
    symbolic links. A directory keeps its entries in enumeration order. */
module Tree {
  import opened Errors

  type Name = string
  type Path = seq<Name>

  datatype Node =
    | Dir(entries: seq<Entry>, readonly: bool)
    | File(readonly: bool)
    | Symlink(target: Path)

  datatype Entry = Entry(name: Name, node: Node)

  /** The self and parent pseudo-entries that directory enumeration yields. */
  predicate IsDot(name: Name) {
    name == "." || name == ".."
  }

  /** No real entry anywhere below `n` is called `.` or `..`. */
  predicate NoDots(n: Node) {
    match n
    case Dir(es, _) => forall i :: 0 <= i < |es| ==> !IsDot(es[i].name) && NoDots(es[i].node)
    case _ => true
  }

  /** No file at or below `n` carries the readonly flag. */
  predicate WritableFiles(n: Node) {
    match n
    case Dir(es, _) => forall i :: 0 <= i < |es| ==> WritableFiles(es[i].node)
    case File(ro) => !ro
    case Symlink(_) => true
  }

  /** A path without `.` or `..` components, which this model does not
      resolve. */
  predicate PlainPath(p: Path) {
    forall i :: 0 <= i < |p| ==> !IsDot(p[i])
  }

  function Names(es: seq<Entry>): (r: seq<Name>)
    ensures |r| == |es|
    ensures forall i :: 0 <= i < |es| ==> r[i] == es[i].name
  {
    if es == [] then [] else [es[0].name] + Names(es[1..])
  }

  /** The node of the first entry called `a`. */
  function Find(es: seq<Entry>, a: Name): Option<Node> {
    if es == [] then None
    else if es[0].name == a then Some(es[0].node)
    else Find(es[1..], a)
  }

  /** Gives the first entry called `a` the node `m`. */
  function Replace(es: seq<Entry>, a: Name, m: Node): seq<Entry> {
    if es == [] then []
    else if es[0].name == a then [Entry(a, m)] + es[1..]
    else [es[0]] + Replace(es[1..], a, m)
  }

  /** Drops the first entry called `a`. */
  function Without(es: seq<Entry>, a: Name): seq<Entry> {
    if es == [] then []
    else if es[0].name == a then es[1..]
    else [es[0]] + Without(es[1..], a)
  }

  /** The node at path `p` below `n`, resolved without following links. */
  function Get(n: Node, p: Path): Option<Node>
    decreases |p|
  {
    if p == [] then Some(n)
    else match n
      case Dir(es, _) =>
        (match Find(es, p[0])
         case Some(c) => Get(c, p[1..])
         case None => None)
      case _ => None
  }

  /** `n` with the node at path `p` replaced by `m` (no change if there is none). */
  function Put(n: Node, p: Path, m: Node): Node
    decreases |p|
  {
    if p == [] then m
    else match n
      case Dir(es, ro) =>
        (match Find(es, p[0])
         case Some(c) => Dir(Replace(es, p[0], Put(c, p[1..], m)), ro)
         case None => n)
      case _ => n
  }

  function Parent(p: Path): Path
    requires p != []
  {
    p[..|p| - 1]
  }

  function Last(p: Path): Name
    requires p != []
  {
    p[|p| - 1]
  }

  /** `n` with the entry at path `p` unlinked from its parent directory. */
  function Delete(n: Node, p: Path): Node {
    if p == [] then n
    else match Get(n, Parent(p))
      case Some(Dir(es, ro)) => Put(n, Parent(p), Dir(Without(es, Last(p)), ro))
      case _ => n
  }

  /** Neither path lies inside the other. */
  predicate Disjoint(p: Path, q: Path) {
    !(p <= q) && !(q <= p)
  }

  /** `a` is what is left of `b` after removal stopped part-way: nothing was
      created or changed, and the entries that survive in a directory are a
      suffix of its enumeration of which only the first may have lost part of
      its own contents. */
  predicate Pruned(a: Node, b: Node)
    decreases b
  {
    a == b ||
    match b
    case Dir(es, ro) => a.Dir? && a.readonly == ro && PrunedEntries(a.entries, es)
    case _ => false
  }

  /** `xs` is what is left of the entries `bs` after removal stopped at the
      entry `xs[0]`: the entries after it are untouched. */
  predicate Remaining(xs: seq<Entry>, bs: seq<Entry>) {
    |xs| <= |bs| &&
    (xs != [] ==> var k := |bs| - |xs|; xs[0].name == bs[k].name && xs[1..] == bs[k + 1..])
  }

  /** The entry called `name` as it stands after a removal call: none when
      it went, itself (or what is left of it) otherwise. */
  function Kept(name: Name, k: Option<Node>): (r: seq<Entry>)
    ensures |r| == if k.Some? then 1 else 0
  {
    if k.Some? then [Entry(name, k.value)] else []
  }

  /** A node to measure recursion by (any node where the path is missing). */
  function NodeAt(root: Node, p: Path): (r: Node)
    ensures Get(root, p).Some? ==> Get(root, p) == Some(r)
  {
    if Get(root, p).Some? then Get(root, p).value else File(false)
  }

  /** The tree after the entry at `p` became `k`: `None` for removed. */
  function PutOrDelete(n: Node, p: Path, k: Option<Node>): Node {
    if k.Some? then Put(n, p, k.value) else Delete(n, p)
  }

  predicate PrunedEntries(xs: seq<Entry>, bs: seq<Entry>)
    decreases bs
  {
    |xs| <= |bs| &&
    (xs != [] ==>
      var k := |bs| - |xs|;
      xs[0].name == bs[k].name && Pruned(xs[0].node, bs[k].node) && xs[1..] == bs[k + 1..])
  }

  // ---------------------------------------------------------------------------
  // Entry lists

  lemma FindReplace(es: seq<Entry>, a: Name, m: Node, b: Name)
    ensures Find(Replace(es, a, m), b) == if a == b && Find(es, a).Some? then Some(m) else Find(es, b)
  {
  }

  lemma ReplaceReplace(es: seq<Entry>, a: Name, m1: Node, m2: Node)
    ensures Replace(Replace(es, a, m1), a, m2) == Replace(es, a, m2)
  {
  }

  lemma ReplaceFound(es: seq<Entry>, a: Name)
    requires Find(es, a).Some?
    ensures Replace(es, a, Find(es, a).value) == es
  {
  }

  // ---------------------------------------------------------------------------
  // Paths

  lemma {:induction false} GetAppend(n: Node, p: Path, q: Path)
    ensures Get(n, p + q) == match Get(n, p) case None => None case Some(m) => Get(m, q)
    decreases |p|
  {
    if p != [] {
      assert (p + q)[0] == p[0] && (p + q)[1..] == p[1..] + q;
      if n.Dir? && Find(n.entries, p[0]).Some? {
        GetAppend(Find(n.entries, p[0]).value, p[1..], q);
      }
    } else {
      assert p + q == q;
    }
  }

  lemma {:induction false} PutAppend(n: Node, p: Path, q: Path, m: Node)
    requires Get(n, p).Some?
    ensures Put(n, p + q, m) == Put(n, p, Put(Get(n, p).value, q, m))
    decreases |p|
  {
    if p != [] {
      assert (p + q)[0] == p[0] && (p + q)[1..] == p[1..] + q;
      PutAppend(Find(n.entries, p[0]).value, p[1..], q, m);
    } else {
      assert p + q == q;
    }
  }

  lemma {:induction false} GetPut(n: Node, p: Path, m: Node)
    requires Get(n, p).Some?
    ensures Get(Put(n, p, m), p) == Some(m)
    decreases |p|
  {
    if p != [] {
      var c := Find(n.entries, p[0]).value;
      FindReplace(n.entries, p[0], Put(c, p[1..], m), p[0]);
      GetPut(c, p[1..], m);
    }
  }

  lemma {:induction false} PutPut(n: Node, p: Path, m1: Node, m2: Node)
    requires Get(n, p).Some?
    ensures Put(Put(n, p, m1), p, m2) == Put(n, p, m2)
    decreases |p|
  {
    if p != [] {
      var c := Find(n.entries, p[0]).value;
      FindReplace(n.entries, p[0], Put(c, p[1..], m1), p[0]);
      PutPut(c, p[1..], m1, m2);
      ReplaceReplace(n.entries, p[0], Put(c, p[1..], m1), Put(c, p[1..], m2));
    }
  }

  lemma {:induction false} PutFound(n: Node, p: Path)
    requires Get(n, p).Some?
    ensures Put(n, p, Get(n, p).value) == n
    decreases |p|
  {
    if p != [] {
      var c := Find(n.entries, p[0]).value;
      PutFound(c, p[1..]);
      ReplaceFound(n.entries, p[0]);
    }
  }

  /** Replacing the node at `p` changes nothing at a path outside it. */
  lemma {:induction false} GetPutDisjoint(n: Node, p: Path, m: Node, q: Path)
    requires Get(n, p).Some?
    requires Disjoint(p, q)
    ensures Get(Put(n, p, m), q) == Get(n, q)
    decreases |p|
  {
    var c := Find(n.entries, p[0]).value;
    var c' := Put(c, p[1..], m);
    FindReplace(n.entries, p[0], c', q[0]);
    if p[0] == q[0] {
      GetPutDisjoint(c, p[1..], m, q[1..]);
    }
  }

  /** Deleting the first entry of the directory at `p`, when it is called `a`. */
  lemma DeleteFirst(n: Node, p: Path, es: seq<Entry>, ro: bool)
    requires Get(n, p) == Some(Dir(es, ro)) && es != []
    ensures Delete(n, p + [es[0].name]) == Put(n, p, Dir(es[1..], ro))
  {
    var q := p + [es[0].name];
    assert Parent(q) == p && Last(q) == es[0].name;
  }

  /** Replacing the node of the first entry of the directory at `p`. */
  lemma PutFirst(n: Node, p: Path, es: seq<Entry>, ro: bool, m: Node)
    requires Get(n, p) == Some(Dir(es, ro)) && es != []
    ensures Put(n, p + [es[0].name], m) == Put(n, p, Dir([Entry(es[0].name, m)] + es[1..], ro))
  {
    PutAppend(n, p, [es[0].name], m);
  }

  /** The node of the first entry of the directory at `p`. */
  lemma GetFirst(n: Node, p: Path, es: seq<Entry>, ro: bool)
    requires Get(n, p) == Some(Dir(es, ro)) && es != []
    ensures Get(n, p + [es[0].name]) == Some(es[0].node)
  {
    GetAppend(n, p, [es[0].name]);
  }

  /** Before a step of a loop over the directory at `p`, when `es[..k]` are
      gone: the next entry is `es[k]`, a smaller node than the directory,
      with no dot entries when the directory has none. */
  lemma LoopEntry(root0: Node, p: Path, es: seq<Entry>, ro: bool, k: nat)
    requires k < |es| && Get(root0, p) == Some(Dir(es, ro))
    ensures var before := Put(root0, p, Dir(es[k..], ro));
            && Get(before, p) == Some(Dir(es[k..], ro))
            && Get(before, p + [es[k].name]) == Some(es[k].node)
            && es[k].node < Dir(es, ro)
            && (NoDots(Dir(es, ro)) ==> !IsDot(es[k].name) && NoDots(es[k].node))
  {
    var before := Put(root0, p, Dir(es[k..], ro));
    GetPut(root0, p, Dir(es[k..], ro));
    assert es[k..][0] == es[k];
    GetFirst(before, p, es[k..], ro);
    assert es[k] in es;
  }

  /** After that step left `k` of the entry `es[k]`: the directory holds
      what is left of it followed by the later entries. */
  lemma StepTree(root0: Node, p: Path, es: seq<Entry>, ro: bool, k: nat, keep: Option<Node>)
    requires k < |es| && Get(root0, p) == Some(Dir(es, ro))
    ensures PutOrDelete(Put(root0, p, Dir(es[k..], ro)), p + [es[k].name], keep)
         == Put(root0, p, Dir(Kept(es[k].name, keep) + es[k + 1..], ro))
  {
    var before := Put(root0, p, Dir(es[k..], ro));
    GetPut(root0, p, Dir(es[k..], ro));
    var rest := es[k..];
    assert rest[0] == es[k] && rest[1..] == es[k + 1..];
    if keep.Some? {
      PutFirst(before, p, rest, ro, keep.value);
      PutPut(root0, p, Dir(rest, ro), Dir([Entry(es[k].name, keep.value)] + es[k + 1..], ro));
    } else {
      assert Kept(es[k].name, keep) + es[k + 1..] == es[k + 1..];
      DeleteFirst(before, p, rest, ro);
      PutPut(root0, p, Dir(rest, ro), Dir(es[k + 1..], ro));
    }
  }

  lemma FindWithout(es: seq<Entry>, a: Name, b: Name)
    requires a != b
    ensures Find(Without(es, a), b) == Find(es, b)
  {
  }

  /** Unlinking the entry at `p` changes nothing at a path outside it. */
  lemma GetDeleteDisjoint(n: Node, p: Path, q: Path)
    requires Disjoint(p, q)
    ensures Get(Delete(n, p), q) == Get(n, q)
  {
    var pp := Parent(p);
    match Get(n, pp)
    case Some(Dir(es, ro)) =>
      var a := Last(p);
      assert p == pp + [a];
      var m := Dir(Without(es, a), ro);
      if pp <= q {
        var rest := q[|pp|..];
        assert q == pp + rest;
        assert rest != [] && rest[0] != a;
        GetAppend(n, pp, rest);
        GetAppend(Put(n, pp, m), pp, rest);
        GetPut(n, pp, m);
        FindWithout(es, a, rest[0]);
      } else {
        assert !(q <= pp);
        GetPutDisjoint(n, pp, m, q);
      }
    case _ =>
  }

  /** Unlinking an entry inside `d` changes nothing at a path outside `d`. */
  lemma GetDeleteOutside(n: Node, d: Path, e: Path)
    requires d <= e
    ensures forall q :: Disjoint(d, q) ==> Get(Delete(n, e), q) == Get(n, q)
  {
    forall q | Disjoint(d, q)
      ensures Get(Delete(n, e), q) == Get(n, q)
    {
      assert Disjoint(e, q) by {
        assert d <= e;
      }
      GetDeleteDisjoint(n, e, q);
    }
  }

  /** A subtree of a tree without dot entries has none either. */
  lemma {:induction false} GetNoDots(n: Node, p: Path)
    requires NoDots(n) && Get(n, p).Some?
    ensures NoDots(Get(n, p).value)
    decreases |p|
  {
    if p != [] {
      var c := FindNoDots(n.entries, p[0]);
      GetNoDots(c, p[1..]);
    }
  }

  /** The node `Find` returns is one of the entries'. */
  lemma FindNoDots(es: seq<Entry>, a: Name) returns (c: Node)
    requires forall i :: 0 <= i < |es| ==> NoDots(es[i].node)
    requires Find(es, a).Some?
    ensures c == Find(es, a).value && NoDots(c)
  {
    assert NoDots(es[0].node);
    if es[0].name == a {
      c := es[0].node;
    } else {
      assert forall i :: 0 <= i < |es| - 1 ==> es[1..][i] == es[i + 1];
      c := FindNoDots(es[1..], a);
    }
  }

  /** Deleting a node that was replaced first is deleting the original. */
  lemma DeletePut(root: Node, q: Path, m: Node)
    requires Get(root, q).Some? && q != []
    ensures Delete(Put(root, q, m), q) == Delete(root, q)
  {
    var pp, a := Parent(q), Last(q);
    assert q == pp + [a];
    GetAppend(root, pp, [a]);
    var parent := Get(root, pp).value;
    PutAppend(root, pp, [a], m);
    var x := Put(parent, [a], m);
    GetPut(root, pp, x);
    WithoutReplace(parent.entries, a, Put(Find(parent.entries, a).value, [], m));
    PutPut(root, pp, x, Dir(Without(parent.entries, a), parent.readonly));
  }

  lemma WithoutReplace(es: seq<Entry>, a: Name, m: Node)
    ensures Without(Replace(es, a, m), a) == Without(es, a)
  {
  }

  /** What survives of a tree with no dot entries has none either. */
  lemma {:induction false} PrunedNoDots(a: Node, b: Node)
    requires Pruned(a, b) && NoDots(b)
    ensures NoDots(a)
    decreases b
  {
    if a != b {
      var xs, bs := a.entries, b.entries;
      if xs != [] {
        var k := |bs| - |xs|;
        PrunedNoDots(xs[0].node, bs[k].node);
        forall i | 0 <= i < |xs| ensures !IsDot(xs[i].name) && NoDots(xs[i].node) {
          if i > 0 { assert xs[i] == xs[1..][i - 1] == bs[k + i]; }
        }
      }
    }
  }
}
