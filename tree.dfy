/**
 * The filesystem as the source sees it through fs-extra: one tree from the
 * root directory, addressed by paths given as segment sequences (what
 * `path.join` produces). Directory entries keep the order `readdir` lists
 * them in. Besides files and directories, the tree holds the two kinds of
 * entry the source's error handling reacts to: a directory that `stat`
 * reports but that cannot be listed, and an entry that `stat` cannot read
 * (a dangling link, which `pathExists` also reports as absent).
 */
module FileTree {
  import opened Common

  type Path = seq<string>

  datatype Node =
    | File(content: string)
    | Dir(entries: seq<Entry>)
    | Unlistable
    | Broken

  datatype Entry = Entry(name: string, node: Node)

  /** The first entry called `name`, as a path lookup finds it. */
  function Child(es: seq<Entry>, name: string): (r: Option<Node>)
    ensures r.Some? <==> name in Names(es)
  {
    if |es| == 0 then None
    else if es[0].name == name then Some(es[0].node)
    else Child(es[1..], name)
  }

  /** The entry names, in listing order: what `fs.readdir` returns. */
  function Names(es: seq<Entry>): (r: seq<string>)
    ensures |r| == |es|
    ensures forall i :: 0 <= i < |es| ==> r[i] == es[i].name
  {
    if |es| == 0 then [] else [es[0].name] + Names(es[1..])
  }

  /** The node at `p`, or `None` when the path leads nowhere. */
  function Lookup(n: Node, p: Path): Option<Node>
    decreases |p|
  {
    if |p| == 0 then Some(n)
    else match n
      case Dir(es) =>
        (match Child(es, p[0])
         case Some(c) => Lookup(c, p[1..])
         case None => None)
      case _ => None
  }

  /** `fs.pathExists(p)`. */
  predicate Exists(n: Node, p: Path)
  {
    Lookup(n, p).Some? && !Lookup(n, p).value.Broken?
  }

  /** `fs.stat(p)` succeeds. */
  predicate Stats(n: Node, p: Path)
  {
    Exists(n, p)
  }

  /** `fs.stat(p).isDirectory()`. */
  predicate IsDirectory(n: Node, p: Path)
  {
    Lookup(n, p).Some? && (Lookup(n, p).value.Dir? || Lookup(n, p).value.Unlistable?)
  }

  /** `fs.readdir(p)`: the names at a listable directory, otherwise a failure. */
  function ReadDir(n: Node, p: Path): (r: Option<seq<string>>)
    ensures r.Some? <==> Lookup(n, p).Some? && Lookup(n, p).value.Dir?
  {
    match Lookup(n, p)
    case Some(Dir(es)) => Some(Names(es))
    case _ => None
  }

  /** `fs.readdir(p).catch(() => [])`. */
  function ReadDirOrEmpty(n: Node, p: Path): seq<string>
  {
    ReadDir(n, p).GetOr([])
  }

  /** `fs.readFile(p)`. */
  function ReadFile(n: Node, p: Path): (r: Option<string>)
    ensures r.Some? <==> Lookup(n, p).Some? && Lookup(n, p).value.File?
  {
    match Lookup(n, p)
    case Some(File(c)) => Some(c)
    case _ => None
  }

  /** Every entry called `name` taken out, the others kept in order. */
  function RemoveAll(es: seq<Entry>, name: string): (r: seq<Entry>)
    ensures |r| <= |es|
  {
    if |es| == 0 then []
    else if es[0].name == name then RemoveAll(es[1..], name)
    else [es[0]] + RemoveAll(es[1..], name)
  }

  /** The first entry called `name` given the node `c`, or `c` added last. */
  function Replace(es: seq<Entry>, name: string, c: Node): seq<Entry>
  {
    if |es| == 0 then [Entry(name, c)]
    else if es[0].name == name then [Entry(name, c)] + es[1..]
    else [es[0]] + Replace(es[1..], name, c)
  }

  lemma {:induction false} ChildRemoveAll(es: seq<Entry>, a: string, b: string)
    ensures Child(RemoveAll(es, a), b) == if a == b then None else Child(es, b)
  {
    if |es| > 0 {
      ChildRemoveAll(es[1..], a, b);
    }
  }

  lemma {:induction false} ChildReplace(es: seq<Entry>, a: string, c: Node, b: string)
    ensures Child(Replace(es, a, c), b) == if a == b then Some(c) else Child(es, b)
  {
    if |es| > 0 && es[0].name != a {
      ChildReplace(es[1..], a, c, b);
    }
  }

  /** Putting back the node a lookup found changes nothing. */
  lemma {:induction false} ReplaceFound(es: seq<Entry>, a: string)
    requires Child(es, a).Some?
    ensures Replace(es, a, Child(es, a).value) == es
  {
    var v := Child(es, a).value;
    assert es == [es[0]] + es[1..];
    if es[0].name == a {
      assert v == es[0].node;
      assert Replace(es, a, v) == [Entry(a, v)] + es[1..];
    } else {
      assert Child(es[1..], a) == Child(es, a);
      ReplaceFound(es[1..], a);
      assert Replace(es, a, v) == [es[0]] + Replace(es[1..], a, v);
    }
  }

  /** Listing after a removal lists every other name, in the same order. */
  lemma {:induction false} NamesRemoveAll(es: seq<Entry>, a: string)
    ensures forall x :: x in Names(RemoveAll(es, a)) <==> x in Names(es) && x != a
  {
    if |es| > 0 {
      NamesRemoveAll(es[1..], a);
      assert Names(es) == [es[0].name] + Names(es[1..]);
      if es[0].name != a {
        assert RemoveAll(es, a) == [es[0]] + RemoveAll(es[1..], a);
        assert Names(RemoveAll(es, a)) == [es[0].name] + Names(RemoveAll(es[1..], a));
      }
    }
  }

  /** `p` is a prefix of `q`. */
  predicate IsPrefix(p: Path, q: Path)
  {
    |p| <= |q| && q[..|p|] == p
  }

  /** Neither path lies inside the other. */
  predicate Apart(p: Path, q: Path)
  {
    !IsPrefix(p, q) && !IsPrefix(q, p)
  }

  /** Prefixes compared one segment at a time. */
  lemma PrefixStep(p: Path, q: Path)
    requires |p| >= 1 && |q| >= 1
    ensures IsPrefix(p, q) <==> p[0] == q[0] && IsPrefix(p[1..], q[1..])
    ensures IsPrefix(q, p) <==> p[0] == q[0] && IsPrefix(q[1..], p[1..])
  {
    if IsPrefix(p, q) {
      assert q[1..][..|p| - 1] == q[..|p|][1..];
    }
    if p[0] == q[0] && IsPrefix(p[1..], q[1..]) {
      assert q[..|p|] == [q[0]] + q[1..][..|p| - 1];
    }
    if IsPrefix(q, p) {
      assert p[1..][..|q| - 1] == p[..|q|][1..];
    }
    if p[0] == q[0] && IsPrefix(q[1..], p[1..]) {
      assert p[..|q|] == [p[0]] + p[1..][..|q| - 1];
    }
  }

  /** Looking up `p + s` is looking up `s` from wherever `p` leads. */
  lemma {:induction false} LookupAppend(n: Node, p: Path, s: Path)
    ensures Lookup(n, p + s) == match Lookup(n, p) case None => None case Some(m) => Lookup(m, s)
    decreases |p|
  {
    if |p| > 0 {
      assert (p + s)[0] == p[0] && (p + s)[1..] == p[1..] + s;
      if n.Dir? && Child(n.entries, p[0]).Some? {
        LookupAppend(Child(n.entries, p[0]).value, p[1..], s);
      }
    } else {
      assert p + s == s;
    }
  }

  /** Nothing lies below a path whose listing is empty or fails. */
  lemma LookupBelowEmpty(n: Node, p: Path, q: Path)
    requires IsPrefix(p, q) && |q| > |p| && ReadDirOrEmpty(n, p) == []
    ensures Lookup(n, q) == None
  {
    assert q == p + q[|p|..];
    LookupAppend(n, p, q[|p|..]);
  }

  /** `fs.remove(p)`: whatever is at `p` is gone; a missing path is ignored. */
  function Remove(n: Node, p: Path): Node
    requires |p| >= 1
    decreases |p|
  {
    match n
    case Dir(es) =>
      if |p| == 1 then Dir(RemoveAll(es, p[0]))
      else
        (match Child(es, p[0])
         case Some(c) => Dir(Replace(es, p[0], Remove(c, p[1..])))
         case None => n)
    case _ => n
  }

  /**
   * After `Remove(n, p)` nothing is left at or below `p`, and every path apart
   * from `p` leads where it led before.
   */
  lemma {:induction false} LookupRemove(n: Node, p: Path, q: Path)
    requires |p| >= 1
    ensures IsPrefix(p, q) ==> Lookup(Remove(n, p), q) == None
    ensures Apart(p, q) ==> Lookup(Remove(n, p), q) == Lookup(n, q)
    decreases |p|
  {
    if n.Dir? && |q| > 0 {
      var es := n.entries;
      PrefixStep(p, q);
      if |p| == 1 {
        ChildRemoveAll(es, p[0], q[0]);
        assert Remove(n, p) == Dir(RemoveAll(es, p[0]));
        assert IsPrefix(p[1..], q[1..]);
      } else if Child(es, p[0]).Some? {
        var c := Child(es, p[0]).value;
        assert Remove(n, p) == Dir(Replace(es, p[0], Remove(c, p[1..])));
        ChildReplace(es, p[0], Remove(c, p[1..]), q[0]);
        if q[0] == p[0] {
          LookupRemove(c, p[1..], q[1..]);
        }
      }
    }
  }

  /** Removing `p` lists its parent without the removed name. */
  lemma {:induction false} RemoveInParent(n: Node, p: Path, es: seq<Entry>)
    requires |p| >= 1
    requires Lookup(n, p[..|p| - 1]) == Some(Dir(es))
    ensures Lookup(Remove(n, p), p[..|p| - 1]) == Some(Dir(RemoveAll(es, p[|p| - 1])))
    decreases |p|
  {
    var parent := p[..|p| - 1];
    if |p| == 1 {
      assert parent == [];
      assert n == Dir(es);
    } else {
      assert parent[0] == p[0];
      var c := Child(n.entries, p[0]).value;
      assert Lookup(n, parent) == Lookup(c, parent[1..]);
      var c' := Remove(c, p[1..]);
      assert Remove(n, p) == Dir(Replace(n.entries, p[0], c'));
      ChildReplace(n.entries, p[0], c', p[0]);
      assert p[1..][..|p[1..]| - 1] == parent[1..];
      RemoveInParent(c, p[1..], es);
      assert Lookup(Remove(n, p), parent) == Lookup(c', parent[1..]);
    }
  }

  /** `fs.ensureDir(p)`: create the missing directories along `p`. */
  function EnsureDir(n: Node, p: Path): Option<Node>
    decreases |p|
  {
    if |p| == 0 then (if n.Dir? || n.Unlistable? then Some(n) else None)
    else match n
      case Dir(es) =>
        var below := match Child(es, p[0])
                     case Some(c) => EnsureDir(c, p[1..])
                     case None => EnsureDir(Dir([]), p[1..]);
        (match below
         case Some(c) => Some(Dir(Replace(es, p[0], c)))
         case None => None)
      case _ => None
  }

  /** An existing directory is left as it is. */
  lemma {:induction false} EnsureDirExisting(n: Node, p: Path)
    requires IsDirectory(n, p)
    ensures EnsureDir(n, p) == Some(n)
    decreases |p|
  {
    if |p| > 0 {
      var c := Child(n.entries, p[0]).value;
      EnsureDirExisting(c, p[1..]);
      ReplaceFound(n.entries, p[0]);
    }
  }

  /**
   * A successful `ensureDir` leaves a directory at `p` and every path apart
   * from `p` untouched.
   */
  lemma {:induction false} LookupEnsureDir(n: Node, p: Path, q: Path)
    requires EnsureDir(n, p).Some?
    ensures IsDirectory(EnsureDir(n, p).value, p)
    ensures Apart(p, q) ==> Lookup(EnsureDir(n, p).value, q) == Lookup(n, q)
  {
    EnsureDirMakesDir(n, p);
    if Apart(p, q) {
      EnsureDirApart(n, p, q);
    }
  }

  /** The child `ensureDir` descends into: the existing one, or a fresh directory. */
  function EnsureChild(es: seq<Entry>, name: string): Node
  {
    match Child(es, name)
    case Some(c) => c
    case None => Dir([])
  }

  /** One level of a successful `ensureDir`. */
  lemma EnsureDirUnfold(n: Node, p: Path)
    requires |p| > 0 && EnsureDir(n, p).Some?
    ensures n.Dir? && EnsureDir(EnsureChild(n.entries, p[0]), p[1..]).Some?
    ensures EnsureDir(n, p).value
            == Dir(Replace(n.entries, p[0], EnsureDir(EnsureChild(n.entries, p[0]), p[1..]).value))
  {
  }

  lemma {:induction false} EnsureDirMakesDir(n: Node, p: Path)
    requires EnsureDir(n, p).Some?
    ensures IsDirectory(EnsureDir(n, p).value, p)
    decreases |p|
  {
    if |p| > 0 {
      EnsureDirUnfold(n, p);
      var c := EnsureChild(n.entries, p[0]);
      var c' := EnsureDir(c, p[1..]).value;
      ChildReplace(n.entries, p[0], c', p[0]);
      EnsureDirMakesDir(c, p[1..]);
      assert Lookup(EnsureDir(n, p).value, p) == Lookup(c', p[1..]);
    }
  }

  lemma {:induction false} EnsureDirApart(n: Node, p: Path, q: Path)
    requires EnsureDir(n, p).Some? && Apart(p, q)
    ensures Lookup(EnsureDir(n, p).value, q) == Lookup(n, q)
    decreases |p|
  {
    assert |p| > 0 && |q| > 0;
    EnsureDirUnfold(n, p);
    var es := n.entries;
    var c := EnsureChild(es, p[0]);
    var c' := EnsureDir(c, p[1..]).value;
    var n' := Dir(Replace(es, p[0], c'));
    ChildReplace(es, p[0], c', q[0]);
    if q[0] == p[0] {
      assert IsPrefix(q[1..], p[1..]) ==> IsPrefix(q, p);
      assert IsPrefix(p[1..], q[1..]) ==> IsPrefix(p, q);
      EnsureDirApart(c, p[1..], q[1..]);
      assert Lookup(n', q) == Lookup(c', q[1..]);
      if Child(es, p[0]).None? {
        assert |q[1..]| > 0;
        assert Lookup(c, q[1..]) == None;
      } else {
        assert Lookup(n, q) == Lookup(c, q[1..]);
      }
    }
  }

  /** `fs.writeFile(p, content)`: the parent must be a directory already. */
  function WriteFile(n: Node, p: Path, content: string): Option<Node>
    requires |p| >= 1
    decreases |p|
  {
    match n
    case Dir(es) =>
      if |p| == 1 then
        (match Child(es, p[0])
         case None => Some(Dir(Replace(es, p[0], File(content))))
         case Some(File(_)) => Some(Dir(Replace(es, p[0], File(content))))
         case Some(_) => None)
      else
        (match Child(es, p[0])
         case Some(c) =>
           (match WriteFile(c, p[1..], content)
            case Some(c') => Some(Dir(Replace(es, p[0], c')))
            case None => None)
         case None => None)
    case _ => None
  }

  /**
   * A write succeeds exactly when the parent is a listable directory and `p`
   * names nothing or a file.
   */
  lemma {:induction false} WriteFileSucceeds(n: Node, p: Path, content: string)
    requires |p| >= 1
    ensures WriteFile(n, p, content).Some? <==>
              && Lookup(n, p[..|p| - 1]).Some? && Lookup(n, p[..|p| - 1]).value.Dir?
              && (Lookup(n, p).None? || Lookup(n, p).value.File?)
    decreases |p|
  {
    if n.Dir? && |p| > 1 {
      var c := Child(n.entries, p[0]);
      assert p[1..][..|p[1..]| - 1] == p[..|p| - 1][1..];
      if c.Some? {
        WriteFileSucceeds(c.value, p[1..], content);
      }
    }
  }

  /**
   * After a successful write, `p` holds the new content, nothing lies below
   * it, and every path apart from `p` leads where it led before.
   */
  lemma {:induction false} LookupWriteFile(n: Node, p: Path, content: string, q: Path)
    requires |p| >= 1 && WriteFile(n, p, content).Some?
    ensures Lookup(WriteFile(n, p, content).value, p) == Some(File(content))
    ensures Apart(p, q) ==> Lookup(WriteFile(n, p, content).value, q) == Lookup(n, q)
    ensures IsPrefix(p, q) && |q| > |p| ==> Lookup(WriteFile(n, p, content).value, q) == None
    decreases |p|
  {
    var es := n.entries;
    if |p| == 1 {
      ChildReplace(es, p[0], File(content), p[0]);
      if |q| > 0 {
        ChildReplace(es, p[0], File(content), q[0]);
      }
    } else {
      var c := Child(es, p[0]).value;
      var c' := WriteFile(c, p[1..], content).value;
      ChildReplace(es, p[0], c', p[0]);
      LookupWriteFile(c, p[1..], content, if |q| > 0 then q[1..] else q);
      if |q| > 0 {
        ChildReplace(es, p[0], c', q[0]);
        PrefixStep(p, q);
      }
    }
  }

  /** A successful write leaves the parent a listable directory. */
  lemma {:induction false} WriteFileParent(n: Node, p: Path, content: string)
    requires |p| >= 1 && WriteFile(n, p, content).Some?
    ensures Lookup(WriteFile(n, p, content).value, p[..|p| - 1]).Some?
    ensures Lookup(WriteFile(n, p, content).value, p[..|p| - 1]).value.Dir?
    decreases |p|
  {
    if |p| > 1 {
      var es := n.entries;
      var c := Child(es, p[0]).value;
      var c' := WriteFile(c, p[1..], content).value;
      ChildReplace(es, p[0], c', p[0]);
      WriteFileParent(c, p[1..], content);
      assert p[..|p| - 1][0] == p[0] && p[..|p| - 1][1..] == p[1..][..|p[1..]| - 1];
    }
  }
}
