/** `_merge_directory_contents(source_dir, target_dir)`: every entry of the
    container-local `target_dir` is folded into the persistent
    `source_dir`.

    The functions state what one entry, and a whole listing, does to the
    tree; the methods carry it out call by call on a `FileSystem`.  An
    exception raised by any call ends the merge with `ok == false`. */
module Merge {
  import opened Wrappers
  import opened FileTree
  import opened PosixOps
  import opened Paths
  import opened FileSystemModel

  /** The tags a clashing entry is renamed aside with. */
  const ConflictTag: string := ".conflict"
  const DirConflictTag: string := ".dir_conflict"

  /** `shutil.move(item, destination.with_suffix(tag))`. */
  function MoveAside(m: Tree, item: Path, s: Path, n: Name, tag: string): Run {
    match WithSuffix(n, tag)
    case None => Raise(m)
    case Some(b) => Move(m, item, s + [b])
  }

  /** `filecmp.cmp` found the two files equal (an `OSError` counts as
      different). */
  predicate SameFile(m: Tree, item: Path, dest: Path, cmpFails: bool) {
    IsFileAt(m, dest) && FileCmp(m, item, dest, cmpFails) == Some(true)
  }

  /** One iteration of the loop, for the entry `n` of `t`; `cmpFails`
      holds the names whose comparison raises `OSError`. */
  function MergeEntry(m: Tree, s: Path, t: Path, n: Name, cmpFails: set<Name>): Run
    requires Disjoint(s, t)
  {
    var item := t + [n];
    var dest := s + [n];
    DisjointEntries(t, s, n, n);
    if IsDirAt(m, item) then
      if dest in m then
        if IsDirAt(m, dest) then
          var copied := CopyTree(m, item, dest);
          if !copied.ok then copied else RmTree(copied.fs, item)
        else MoveAside(m, item, s, n, DirConflictTag)
      else Move(m, item, dest)
    else if dest in m then
      if SameFile(m, item, dest, n in cmpFails) then Unlink(m, item)
      else MoveAside(m, item, s, n, ConflictTag)
    else Move(m, item, dest)
  }

  /** The loop over a listing of `t`, stopping at the first exception. */
  function MergeAll(m: Tree, s: Path, t: Path, names: seq<Name>, cmpFails: set<Name>): Run
    requires Disjoint(s, t)
    decreases |names|
  {
    if names == [] then Done(m)
    else
      var r := MergeEntry(m, s, t, names[0], cmpFails);
      if !r.ok then r else MergeAll(r.fs, s, t, names[1..], cmpFails)
  }

  /** `listing` is a snapshot of directory `t`: each name in it once. */
  ghost predicate IsListing(m: Tree, t: Path, listing: seq<Name>) {
    Distinct(listing) && forall x :: x in listing <==> x in Children(m, t)
  }

  /** The whole merge for the order `listing` in which `iterdir` yields the
      entries of `t`; it raises at once when `t` is not a directory. */
  function MergeRun(m: Tree, s: Path, t: Path, listing: seq<Name>, cmpFails: set<Name>): Run
    requires Disjoint(s, t)
  {
    if IsDirAt(m, t) then MergeAll(m, s, t, listing, cmpFails) else Raise(m)
  }

  /** The body of the loop, for the entry `n`. */
  method MergeItem(fs: FileSystem, source: Path, target: Path, n: Name, cmpFails: set<Name>)
    returns (ok: bool)
    requires fs.Valid() && Disjoint(source, target)
    modifies fs
    ensures fs.Valid()
    ensures Run(fs.nodes, ok) == MergeEntry(old(fs.nodes), source, target, n, cmpFails)
  {
    var item := target + [n];
    var destination := source + [n];
    DisjointEntries(target, source, n, n);
    if fs.IsDir(item) {
      if fs.Exists(destination) {
        if fs.IsDir(destination) {
          ok := fs.CopyTree(item, destination);
          if ok {
            ok := fs.RmTree(item);
          }
        } else {
          var backup := WithSuffix(n, DirConflictTag);
          if backup.None? {
            ok := false;
          } else {
            ok := fs.Move(item, source + [backup.value]);
          }
        }
      } else {
        ok := fs.Move(item, destination);
      }
    } else {
      if fs.Exists(destination) {
        var same := false;
        if fs.IsFile(destination) {
          var cmp := fs.FileCmp(item, destination, n in cmpFails);
          same := cmp == Some(true);
        }
        if same {
          ok := fs.Unlink(item);
        } else {
          var backup := WithSuffix(n, ConflictTag);
          if backup.None? {
            ok := false;
          } else {
            ok := fs.Move(item, source + [backup.value]);
          }
        }
      } else {
        ok := fs.Move(item, destination);
      }
    }
  }

  /** `_merge_directory_contents(source, target)`: `listing` is the order
      `iterdir` produced; `ok` is false where an exception escapes. */
  method MergeDirectoryContents(fs: FileSystem, source: Path, target: Path, cmpFails: set<Name>)
    returns (ok: bool, listing: seq<Name>)
    requires fs.Valid() && Disjoint(source, target)
    modifies fs
    ensures fs.Valid()
    ensures IsDirAt(old(fs.nodes), target) ==> IsListing(old(fs.nodes), target, listing)
    ensures Run(fs.nodes, ok) == MergeRun(old(fs.nodes), source, target, listing, cmpFails)
  {
    ok, listing := fs.IterDir(target);
    if !ok {
      return;
    }
    var i := 0;
    while i < |listing|
      invariant fs.Valid()
      invariant i <= |listing|
      invariant MergeAll(fs.nodes, source, target, listing[i..], cmpFails)
             == MergeAll(old(fs.nodes), source, target, listing, cmpFails)
    {
      assert listing[i..][1..] == listing[i + 1..];
      ok := MergeItem(fs, source, target, listing[i], cmpFails);
      if !ok {
        return;
      }
      i := i + 1;
    }
  }
}
