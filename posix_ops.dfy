/** The file-system calls the reconciliation engine makes (`os`, `pathlib`,
    `shutil`, `filecmp`), each as a total function from a tree to the tree
    afterwards and whether the call returned normally (`ok`) or raised.  A
    call that raises leaves the tree as it was.

    Symbolic links are seen as `lstat` sees them: never as directories. */
module PosixOps {
  import opened FileTree
  import opened Wrappers

  datatype Run = Run(fs: Tree, ok: bool)

  function Done(m: Tree): Run { Run(m, true) }
  function Raise(m: Tree): Run { Run(m, false) }

  predicate IsDirAt(m: Tree, p: Path) { p in m && m[p] == Dir }
  predicate IsFileAt(m: Tree, p: Path) { p in m && m[p].File? }
  predicate IsLinkAt(m: Tree, p: Path) { p in m && m[p].Symlink? }

  /** `Path.mkdir(parents=True, exist_ok=True)`: creates the missing
      ancestors top-down; raises when `p` or the deepest existing ancestor
      is not a directory. */
  function MkdirParents(m: Tree, p: Path): (r: Run)
    ensures r.ok ==> IsDirAt(r.fs, p)
    ensures !r.ok ==> r.fs == m
    ensures forall k | k in m :: k in r.fs && r.fs[k] == m[k]
    ensures forall k | k in r.fs && k !in m :: k <= p && r.fs[k] == Dir
    decreases |p|
  {
    if p in m then Run(m, m[p] == Dir)
    else if p == [] then Raise(m)
    else
      var up := MkdirParents(m, Parent(p));
      if !up.ok then Raise(m) else Done(up.fs[p := Dir])
  }

  /** `os.rename(src, dst)` once it is known to succeed: whatever was at
      `dst` is replaced by the tree that was at `src`. */
  function Rename(m: Tree, src: Path, dst: Path): Tree {
    Prune(Prune(m, src), dst) + Prefixed(Subtree(m, src), dst)
  }

  /** `shutil.move(src, dst)`. */
  function Move(m: Tree, src: Path, dst: Path): Run {
    if src !in m || src == [] then Raise(m)                    // FileNotFoundError
    else if src == dst then Done(m)
    else if IsDirAt(m, dst) then
      // move into the existing directory, keeping the base name
      var inside := dst + [src[|src| - 1]];
      if src <= inside || inside in m then Raise(m)                // "Destination path already exists"
      else Done(Rename(m, src, inside))
    else if src <= dst then Raise(m)                           // cannot move a directory into itself
    else if dst in m then
      if m[src] == Dir then Raise(m)                           // a directory cannot replace a file
      else Done(Rename(m, src, dst))                           // a file silently replaces a file
    else if dst != [] && IsDirAt(m, Parent(dst)) then Done(Rename(m, src, dst))
    else Raise(m)
  }

  /** `Path.unlink()`: removes a file or a link, never a directory. */
  function Unlink(m: Tree, p: Path): Run {
    if p in m && m[p] != Dir then Done(m - {p}) else Raise(m)
  }

  /** `Path.rmdir()`: removes an empty directory. */
  function Rmdir(m: Tree, p: Path): Run {
    if p != [] && IsDirAt(m, p) && Children(m, p) == {} then Done(m - {p}) else Raise(m)
  }

  /** `shutil.rmtree(p)`: removes a directory and everything below it. */
  function RmTree(m: Tree, p: Path): Run {
    if p != [] && IsDirAt(m, p) then Done(Prune(m, p)) else Raise(m)
  }

  /** `Path.symlink_to(dest)`: creates the link `p`, which must not exist yet. */
  function SymlinkTo(m: Tree, p: Path, dest: Path): Run {
    if p != [] && p !in m && IsDirAt(m, Parent(p)) then Done(m[p := Symlink(dest)]) else Raise(m)
  }

  /** A file `r` of the copied tree `a` meets a directory of the
      destination tree `b`: `copy2` then writes the file inside that
      directory, under the file's own name. */
  predicate IntoDir(a: Tree, b: Tree, r: Path) {
    r != [] && r in a && a[r] != Dir && r in b && b[r] == Dir
  }

  /** The path a file redirected into the directory `r` is written to. */
  function Into(r: Path): Path
    requires r != []
  {
    r + [r[|r| - 1]]
  }

  /** Copying the relative tree `a` over `b` raises somewhere: a directory
      of `a` meets a non-directory (`os.makedirs` refuses it), or a file of
      `a` redirected into a directory meets a directory there too (the file
      cannot be opened for writing). */
  predicate ClashTrees(a: Tree, b: Tree) {
    || (exists r | r in a && r in b :: a[r] == Dir && b[r] != Dir)
    || (exists r | r in a && IntoDir(a, b, r) :: DirIn(b, Into(r)))
  }

  predicate DirIn(b: Tree, p: Path) {
    p in b && b[p] == Dir
  }

  /** `copytree(src, dst, dirs_exist_ok=True)` would raise. */
  predicate Clash(m: Tree, src: Path, dst: Path) {
    ClashTrees(Subtree(m, src), Subtree(m, dst))
  }

  /** What copying `a` over `b` writes, relative to `b`: each entry of `a`
      at its own path, except a file meeting a directory, which goes inside
      it. */
  function Copied(a: Tree, b: Tree): Tree {
    var kept := set r | r in a && !IntoDir(a, b, r);
    var moved := set r | r in a && IntoDir(a, b, r) :: Into(r);
    assert forall k | k in moved :: k != [] && IntoDir(a, b, Parent(k)) by {
      forall k | k in moved ensures k != [] && IntoDir(a, b, Parent(k)) {
        var r :| r in a && IntoDir(a, b, r) && k == Into(r);
        assert Parent(k) == r;
      }
    }
    map k | k in kept + moved :: if k in a && !IntoDir(a, b, k) then a[k] else a[Parent(k)]
  }

  /** The tree at `src` copied over the one at `dst`: what `Copied` writes
      replaces what was there, everything else of `dst` stays. */
  function Overlay(m: Tree, src: Path, dst: Path): Tree {
    m + Prefixed(Copied(Subtree(m, src), Subtree(m, dst)), dst)
  }

  /** `shutil.copytree(src, dst, dirs_exist_ok=True)`. */
  function CopyTree(m: Tree, src: Path, dst: Path): Run
    requires Disjoint(src, dst)
  {
    if !IsDirAt(m, src) then Raise(m)
    else
      var made := MkdirParents(m, dst);
      if !made.ok || Clash(made.fs, src, dst) then Raise(m)
      else Done(Overlay(made.fs, src, dst))
  }

  /** `filecmp.cmp(a, b, shallow=False)`: `None` when it raises `OSError`
      (`fails` stands for a read error the tree cannot show). */
  function FileCmp(m: Tree, a: Path, b: Path, fails: bool): (r: Option<bool>)
    ensures r.Some? ==> (r.value <==> IsFileAt(m, a) && IsFileAt(m, b) && m[a] == m[b])
  {
    if fails || a !in m || b !in m then None
    else Some(m[a].File? && m[b].File? && m[a].data == m[b].data)
  }

  // ---------------------------------------------------------------------
  // Every call keeps the tree well formed

  lemma ParentOfAppend(p: Path, r: Path)
    requires r != []
    ensures p + r != [] && Parent(p + r) == p + Parent(r)
  {
  }

  lemma {:induction false} MkdirParentsWellFormed(m: Tree, p: Path)
    requires WellFormed(m)
    ensures WellFormed(MkdirParents(m, p).fs)
    decreases |p|
  {
    if p !in m && p != [] {
      var up := MkdirParents(m, Parent(p));
      MkdirParentsWellFormed(m, Parent(p));
      if up.ok {
        var n := up.fs[p := Dir];
        forall k | k in n && k != [] ensures Parent(k) in n && n[Parent(k)] == Dir {
          if k != p {
            assert Parent(k) in up.fs && up.fs[Parent(k)] == Dir;
          }
        }
      }
    }
  }

  /** Below its root, a copied tree brings its own parent directories. */
  lemma MovedParent(m: Tree, src: Path, dst: Path, k: Path)
    requires WellFormed(m)
    requires k in Prefixed(Subtree(m, src), dst) && k != dst
    ensures k != [] && Parent(k) in Prefixed(Subtree(m, src), dst)
    ensures Prefixed(Subtree(m, src), dst)[Parent(k)] == Dir
  {
    var sub := Subtree(m, src);
    PrefixedAt(sub, dst, k);
    var r := k[|dst|..];
    assert k == dst + r;
    SubtreeAt(m, src, r);
    ParentOfAppend(dst, r);
    ParentOfAppend(src, r);
    assert Parent(src + r) in m && m[Parent(src + r)] == Dir;
    SubtreeAt(m, src, Parent(r));
    PrefixedAt(sub, dst, dst + Parent(r));
    PrefixAppend(dst, Parent(r));
  }

  lemma RenameWellFormed(m: Tree, src: Path, dst: Path)
    requires WellFormed(m) && src != [] && dst != []
    requires IsDirAt(m, Parent(dst)) && !(src <= Parent(dst))
    ensures WellFormed(Rename(m, src, dst))
  {
    var kept := Prune(Prune(m, src), dst);
    var moved := Prefixed(Subtree(m, src), dst);
    var n := Rename(m, src, dst);
    PrefixedOutside(Subtree(m, src), dst, []);
    PrefixedOutside(Subtree(m, src), dst, Parent(dst));
    forall k | k in n && k != [] ensures Parent(k) in n && n[Parent(k)] == Dir {
      if k == dst {
      } else if k in moved {
        MovedParent(m, src, dst, k);
      } else {
        assert k in kept;
        assert Parent(k) in m && m[Parent(k)] == Dir;
        assert Parent(k) <= k;
        PrefixedOutside(Subtree(m, src), dst, Parent(k));
      }
    }
  }

  lemma RemoveLeafWellFormed(m: Tree, p: Path)
    requires WellFormed(m) && p in m && p != [] && (m[p] == Dir ==> Children(m, p) == {})
    ensures WellFormed(m - {p})
  {
    forall k | k in m - {p} && k != [] ensures Parent(k) != p {
      if m[p] == Dir {
        assert k == Parent(k) + [k[|k| - 1]];
        ChildrenAt(m, Parent(k), k[|k| - 1]);
      }
    }
  }

  lemma PruneWellFormed(m: Tree, p: Path)
    requires WellFormed(m) && p != []
    ensures WellFormed(Prune(m, p))
  {
    forall k | k in Prune(m, p) && k != [] ensures Parent(k) in Prune(m, p) {
      assert Parent(k) <= k;
    }
  }

  /** What `Copied` holds at a path: an entry of `a` that is not
      redirected, or a redirected file inside the directory it met. */
  lemma CopiedAt(a: Tree, b: Tree, k: Path)
    ensures k in Copied(a, b) <==>
      (k in a && !IntoDir(a, b, k)) || (k != [] && IntoDir(a, b, Parent(k)) && k == Into(Parent(k)))
    ensures k in a && !IntoDir(a, b, k) ==> Copied(a, b)[k] == a[k]
    ensures k in Copied(a, b) && !(k in a && !IntoDir(a, b, k)) ==> k != [] && Copied(a, b)[k] == a[Parent(k)]
  {
    if k != [] && IntoDir(a, b, Parent(k)) && k == Into(Parent(k)) {
      var r := Parent(k);
      assert r in a && IntoDir(a, b, r) && k == Into(r);
    }
  }

  /** In a well-formed tree, an entry below the root of a subtree has its
      parent directory in that subtree. */
  lemma SubtreeParent(m: Tree, p: Path, r: Path)
    requires WellFormed(m) && r in Subtree(m, p) && r != []
    ensures Parent(r) in Subtree(m, p) && Subtree(m, p)[Parent(r)] == Dir
  {
    SubtreeAt(m, p, r);
    ParentOfAppend(p, r);
    SubtreeAt(m, p, Parent(r));
  }

  /** Below its root, what `Copied` writes sits in a directory it writes
      itself, or in a directory of `b` that a redirected file met. */
  lemma CopiedParent(m: Tree, src: Path, b: Tree, r: Path)
    requires WellFormed(m) && r != [] && r in Copied(Subtree(m, src), b)
    ensures var c := Copied(Subtree(m, src), b);
      (Parent(r) in c && c[Parent(r)] == Dir) || (Parent(r) in b && b[Parent(r)] == Dir)
  {
    var a := Subtree(m, src);
    CopiedAt(a, b, r);
    if r in a && !IntoDir(a, b, r) {
      SubtreeParent(m, src, r);
      CopiedAt(a, b, Parent(r));
    }
  }

  lemma OverlayWellFormed(m: Tree, src: Path, dst: Path)
    requires WellFormed(m) && Disjoint(src, dst) && IsDirAt(m, src) && IsDirAt(m, dst) && !Clash(m, src, dst)
    ensures WellFormed(Overlay(m, src, dst))
  {
    var n := Overlay(m, src, dst);
    PrefixedOutside(Copied(Subtree(m, src), Subtree(m, dst)), dst, []);
    forall k | k in n && k != [] ensures Parent(k) in n && n[Parent(k)] == Dir {
      OverlayParent(m, src, dst, k);
    }
  }

  lemma OverlayParent(m: Tree, src: Path, dst: Path, k: Path)
    requires WellFormed(m) && Disjoint(src, dst) && IsDirAt(m, src) && IsDirAt(m, dst) && !Clash(m, src, dst)
    requires k in Overlay(m, src, dst) && k != []
    ensures Parent(k) in Overlay(m, src, dst) && Overlay(m, src, dst)[Parent(k)] == Dir
  {
    var a, b := Subtree(m, src), Subtree(m, dst);
    var c := Copied(a, b);
    PrefixedAt(c, dst, k);
    if k == dst {
      assert Parent(dst) in m && m[Parent(dst)] == Dir;
      OverlayKeepsDirectory(m, src, dst, Parent(dst));
    } else if k in Prefixed(c, dst) {
      var r := k[|dst|..];
      assert k == dst + r;
      ParentOfAppend(dst, r);
      OverlayParentCopied(m, src, dst, r);
    } else {
      OverlayKeepsDirectory(m, src, dst, Parent(k));
    }
  }

  /** The parent of a path the copy writes below `dst`. */
  lemma OverlayParentCopied(m: Tree, src: Path, dst: Path, r: Path)
    requires WellFormed(m) && IsDirAt(m, src) && !Clash(m, src, dst)
    requires r != [] && r in Copied(Subtree(m, src), Subtree(m, dst))
    ensures dst + Parent(r) in Overlay(m, src, dst) && Overlay(m, src, dst)[dst + Parent(r)] == Dir
  {
    var b := Subtree(m, dst);
    var c := Copied(Subtree(m, src), b);
    CopiedParent(m, src, b, r);
    if Parent(r) in c && c[Parent(r)] == Dir {
      PrefixedAt(c, dst, dst + Parent(r));
      PrefixAppend(dst, Parent(r));
    } else {
      SubtreeAt(m, dst, Parent(r));
      OverlayKeepsDirectory(m, src, dst, dst + Parent(r));
    }
  }

  /** Without a clash, a directory stays a directory under the overlay. */
  lemma OverlayKeepsDirectory(m: Tree, src: Path, dst: Path, q: Path)
    requires IsDirAt(m, q) && IsDirAt(m, src) && !Clash(m, src, dst)
    ensures q in Overlay(m, src, dst) && Overlay(m, src, dst)[q] == Dir
  {
    var a, b := Subtree(m, src), Subtree(m, dst);
    var c := Copied(a, b);
    PrefixedAt(c, dst, q);
    if q in Prefixed(c, dst) {
      var r := q[|dst|..];
      assert q == dst + r;
      SubtreeAt(m, dst, r);
      CopiedAt(a, b, r);
      if r in a && !IntoDir(a, b, r) {
        SubtreeAt(m, src, r);
        assert src + [] == src;
      }
    }
  }

  // One lemma per call: a call that returns normally keeps the tree well
  // formed (a call that raises leaves it as it was).

  lemma MoveWellFormed(m: Tree, src: Path, dst: Path)
    requires WellFormed(m)
    ensures WellFormed(Move(m, src, dst).fs)
  {
    if src in m && src != [] && src != dst {
      if IsDirAt(m, dst) {
        var inside := dst + [src[|src| - 1]];
        if !(src <= inside) && inside !in m {
          assert Parent(inside) == dst;
          RenameWellFormed(m, src, inside);
        }
      } else if !(src <= dst) && dst in m && m[src] != Dir {
        assert dst != [];
        assert Parent(dst) <= dst;
        RenameWellFormed(m, src, dst);
      } else if !(src <= dst) && dst !in m && dst != [] && IsDirAt(m, Parent(dst)) {
        assert Parent(dst) <= dst;
        RenameWellFormed(m, src, dst);
      }
    }
  }

  lemma UnlinkWellFormed(m: Tree, p: Path)
    requires WellFormed(m)
    ensures WellFormed(Unlink(m, p).fs)
  {
    if p in m && m[p] != Dir {
      forall x ensures x !in Children(m, p) {
        ChildrenAt(m, p, x);
        assert Parent(p + [x]) == p;
      }
      RemoveLeafWellFormed(m, p);
    }
  }

  lemma RmdirWellFormed(m: Tree, p: Path)
    requires WellFormed(m)
    ensures WellFormed(Rmdir(m, p).fs)
  {
    if p != [] && IsDirAt(m, p) && Children(m, p) == {} {
      RemoveLeafWellFormed(m, p);
    }
  }

  lemma RmTreeWellFormed(m: Tree, p: Path)
    requires WellFormed(m)
    ensures WellFormed(RmTree(m, p).fs)
  {
    if p != [] && IsDirAt(m, p) {
      PruneWellFormed(m, p);
    }
  }

  lemma SymlinkToWellFormed(m: Tree, p: Path, dest: Path)
    requires WellFormed(m)
    ensures WellFormed(SymlinkTo(m, p, dest).fs)
  {
  }

  lemma CopyTreeWellFormed(m: Tree, src: Path, dst: Path)
    requires WellFormed(m) && Disjoint(src, dst)
    ensures WellFormed(CopyTree(m, src, dst).fs)
  {
    var made := MkdirParents(m, dst);
    MkdirParentsWellFormed(m, dst);
    if IsDirAt(m, src) && made.ok && !Clash(made.fs, src, dst) {
      OverlayWellFormed(made.fs, src, dst);
    }
  }

  // ---------------------------------------------------------------------
  // What each call leaves alone

  /** Outside `src` and `dst` a rename changes nothing, and `src` is gone. */
  lemma RenameFrame(m: Tree, src: Path, dst: Path)
    ensures forall k :: !(src <= k) && !(dst <= k) ==> Agree(Rename(m, src, dst), m, k)
    ensures !(dst <= src) ==> src !in Rename(m, src, dst)
  {
    forall k | !(src <= k) && !(dst <= k) ensures Agree(Rename(m, src, dst), m, k) {
      PrefixedOutside(Subtree(m, src), dst, k);
    }
    if !(dst <= src) {
      PrefixedOutside(Subtree(m, src), dst, src);
    }
  }

  /** `shutil.move` changes nothing outside `src` and `dst`; when it moves
      something away, `src` no longer exists. */
  lemma MoveFrame(m: Tree, src: Path, dst: Path)
    ensures forall k :: !(src <= k) && !(dst <= k) ==> Agree(Move(m, src, dst).fs, m, k)
    ensures Move(m, src, dst).ok && src != dst && !(dst <= src) ==> src !in Move(m, src, dst).fs
  {
    if src in m && src != [] && src != dst {
      if IsDirAt(m, dst) {
        var inside := dst + [src[|src| - 1]];
        PrefixAppend(dst, [src[|src| - 1]]);
        RenameFrame(m, src, inside);
      } else {
        RenameFrame(m, src, dst);
      }
    }
  }

  lemma UnlinkFrame(m: Tree, p: Path)
    ensures forall k :: k != p ==> Agree(Unlink(m, p).fs, m, k)
    ensures Unlink(m, p).ok ==> p !in Unlink(m, p).fs
  {
  }

  lemma RmTreeFrame(m: Tree, p: Path)
    ensures forall k :: !(p <= k) ==> Agree(RmTree(m, p).fs, m, k)
    ensures RmTree(m, p).ok ==> p !in RmTree(m, p).fs
  {
  }

  /** Copying onto an existing directory changes nothing outside it. */
  lemma CopyTreeFrame(m: Tree, src: Path, dst: Path)
    requires Disjoint(src, dst) && IsDirAt(m, dst)
    ensures forall k :: !(dst <= k) ==> Agree(CopyTree(m, src, dst).fs, m, k)
  {
    forall k | !(dst <= k) ensures Agree(CopyTree(m, src, dst).fs, m, k) {
      PrefixedOutside(Copied(Subtree(m, src), Subtree(m, dst)), dst, k);
    }
  }
}
