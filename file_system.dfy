/** The container's file system as one mutable object.  Each method is one
    library call the program makes; it changes `nodes` exactly as the
    corresponding function of `PosixOps` says, and keeps the tree well
    formed. */
module FileSystemModel {
  import opened Wrappers
  import opened FileTree
  import opened PosixOps

  /** Nothing occurs twice. */
  predicate Distinct<T(==)>(names: seq<T>) {
    forall i, j | 0 <= i < j < |names| :: names[i] != names[j]
  }

  class FileSystem {
    var nodes: Tree

    ghost predicate Valid()
      reads this
    {
      WellFormed(nodes)
    }

    constructor (initial: Tree)
      requires WellFormed(initial)
      ensures Valid() && nodes == initial
    {
      nodes := initial;
    }

    /** `Path.exists()`, taken without following a final link. */
    function Exists(p: Path): bool
      reads this
    {
      p in nodes
    }

    /** `Path.is_dir()`. */
    function IsDir(p: Path): bool
      reads this
    {
      IsDirAt(nodes, p)
    }

    /** `Path.is_file()`. */
    function IsFile(p: Path): bool
      reads this
    {
      IsFileAt(nodes, p)
    }

    /** `Path.is_symlink()`. */
    function IsSymlink(p: Path): bool
      reads this
    {
      IsLinkAt(nodes, p)
    }

    /** `os.readlink(p)` of a link. */
    function ReadLink(p: Path): Path
      requires IsSymlink(p)
      reads this
    {
      nodes[p].dest
    }

    /** `Path.iterdir()`: the names in directory `p`, each once, in an order
        the file system chooses; `ok` is false where it raises because `p`
        is not a directory. */
    method IterDir(p: Path) returns (ok: bool, names: seq<Name>)
      ensures ok <==> IsDirAt(nodes, p)
      ensures ok ==> Distinct(names) && forall x :: x in names <==> x in Children(nodes, p)
      ensures !ok ==> names == []
    {
      if !IsDir(p) {
        return false, [];
      }
      ok := true;
      names := [];
      var rest := Children(nodes, p);
      while rest != {}
        invariant Distinct(names)
        invariant forall x :: x in names ==> x !in rest
        invariant forall x :: x in Children(nodes, p) <==> x in names || x in rest
        decreases |rest|
      {
        var x :| x in rest;
        names := names + [x];
        rest := rest - {x};
      }
    }

    /** `Path.mkdir(parents=True, exist_ok=True)`. */
    method Mkdir(p: Path) returns (ok: bool)
      requires Valid()
      modifies this
      ensures Valid()
      ensures Run(nodes, ok) == MkdirParents(old(nodes), p)
    {
      MkdirParentsWellFormed(nodes, p);
      var r := MkdirParents(nodes, p);
      nodes, ok := r.fs, r.ok;
    }

    /** `shutil.move(src, dst)`. */
    method Move(src: Path, dst: Path) returns (ok: bool)
      requires Valid()
      modifies this
      ensures Valid()
      ensures Run(nodes, ok) == PosixOps.Move(old(nodes), src, dst)
    {
      MoveWellFormed(nodes, src, dst);
      var r := PosixOps.Move(nodes, src, dst);
      nodes, ok := r.fs, r.ok;
    }

    /** `Path.unlink()`. */
    method Unlink(p: Path) returns (ok: bool)
      requires Valid()
      modifies this
      ensures Valid()
      ensures Run(nodes, ok) == PosixOps.Unlink(old(nodes), p)
    {
      UnlinkWellFormed(nodes, p);
      var r := PosixOps.Unlink(nodes, p);
      nodes, ok := r.fs, r.ok;
    }

    /** `Path.rmdir()`. */
    method Rmdir(p: Path) returns (ok: bool)
      requires Valid()
      modifies this
      ensures Valid()
      ensures Run(nodes, ok) == PosixOps.Rmdir(old(nodes), p)
    {
      RmdirWellFormed(nodes, p);
      var r := PosixOps.Rmdir(nodes, p);
      nodes, ok := r.fs, r.ok;
    }

    /** `shutil.rmtree(p)`. */
    method RmTree(p: Path) returns (ok: bool)
      requires Valid()
      modifies this
      ensures Valid()
      ensures Run(nodes, ok) == PosixOps.RmTree(old(nodes), p)
    {
      RmTreeWellFormed(nodes, p);
      var r := PosixOps.RmTree(nodes, p);
      nodes, ok := r.fs, r.ok;
    }

    /** `Path.symlink_to(dest, target_is_directory=True)`. */
    method SymlinkTo(p: Path, dest: Path) returns (ok: bool)
      requires Valid()
      modifies this
      ensures Valid()
      ensures Run(nodes, ok) == PosixOps.SymlinkTo(old(nodes), p, dest)
    {
      SymlinkToWellFormed(nodes, p, dest);
      var r := PosixOps.SymlinkTo(nodes, p, dest);
      nodes, ok := r.fs, r.ok;
    }

    /** `shutil.copytree(src, dst, dirs_exist_ok=True)`. */
    method CopyTree(src: Path, dst: Path) returns (ok: bool)
      requires Valid() && Disjoint(src, dst)
      modifies this
      ensures Valid()
      ensures Run(nodes, ok) == PosixOps.CopyTree(old(nodes), src, dst)
    {
      CopyTreeWellFormed(nodes, src, dst);
      var r := PosixOps.CopyTree(nodes, src, dst);
      nodes, ok := r.fs, r.ok;
    }

    /** `filecmp.cmp(a, b, shallow=False)`; `None` where it raises `OSError`
        (`fails` stands for a read error the tree does not show). */
    method FileCmp(a: Path, b: Path, fails: bool) returns (r: Option<bool>)
      ensures r == PosixOps.FileCmp(nodes, a, b, fails)
      ensures r.Some? ==> (r.value <==> IsFileAt(nodes, a) && IsFileAt(nodes, b) && nodes[a] == nodes[b])
    {
      r := PosixOps.FileCmp(nodes, a, b, fails);
    }
  }
}
