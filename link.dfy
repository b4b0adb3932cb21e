/** `link_directory(target, source)`: make the ComfyUI directory `target` a
    symbolic link to the persistent directory `source`, first folding into
    `source` whatever a real directory at `target` holds.

    It returns `True` (the link is in place), `False` (a warning is
    printed and nothing is linked) or raises; `Outcome` names the three. */
module Link {
  import opened Wrappers
  import opened FileTree
  import opened PosixOps
  import opened FileSystemModel
  import opened Merge
  import opened MergeProofs
  import opened MergeLanding

  datatype Outcome = Linked | Declined | Raised

  datatype LinkResult = LinkResult(fs: Tree, outcome: Outcome)

  /** `Path.parent`: the root is its own parent. */
  function ParentOf(p: Path): Path {
    if p == [] then [] else Parent(p)
  }

  /** The two `mkdir(parents=True, exist_ok=True)` calls that open
      `link_directory`: the source, then the parent of the target. */
  function Prepared(m: Tree, target: Path, source: Path): Run {
    var a := MkdirParents(m, source);
    if !a.ok then a else MkdirParents(a.fs, ParentOf(target))
  }

  /** `target.symlink_to(source)`, as the last call of a branch. */
  function LinkTo(m: Tree, target: Path, source: Path): LinkResult {
    var l := SymlinkTo(m, target, source);
    LinkResult(l.fs, if l.ok then Linked else Raised)
  }

  /** The whole call; `listing` is the order in which the merge lists a
      real directory at `target`. */
  function LinkRun(m: Tree, target: Path, source: Path, listing: seq<Name>, cmpFails: set<Name>): LinkResult
    requires Disjoint(source, target)
  {
    var p := Prepared(m, target, source);
    if !p.ok then LinkResult(p.fs, Raised)
    else
      var m1 := p.fs;
      if IsLinkAt(m1, target) then
        if m1[target].dest != source then
          var u := Unlink(m1, target);
          if !u.ok then LinkResult(u.fs, Raised) else LinkTo(u.fs, target, source)
        else LinkResult(m1, Linked)
      else if target in m1 then
        if IsDirAt(m1, target) then
          var merged := MergeRun(m1, source, target, listing, cmpFails);
          if !merged.ok || !IsDirAt(merged.fs, target) then LinkResult(merged.fs, Raised)
          else if Children(merged.fs, target) != {} then LinkResult(merged.fs, Declined)
          else
            var d := Rmdir(merged.fs, target);
            if !d.ok then LinkResult(d.fs, Raised) else LinkTo(d.fs, target, source)
        else LinkResult(m1, Declined)
      else LinkTo(m1, target, source)
  }

  /** `link_directory(target, source)` carried out on `fs`. */
  method LinkDirectory(fs: FileSystem, target: Path, source: Path, cmpFails: set<Name>)
    returns (outcome: Outcome, listing: seq<Name>)
    requires fs.Valid() && Disjoint(source, target)
    modifies fs
    ensures fs.Valid()
    ensures var p := Prepared(old(fs.nodes), target, source);
      p.ok && IsDirAt(p.fs, target) ==> IsListing(p.fs, target, listing)
    ensures LinkResult(fs.nodes, outcome) == LinkRun(old(fs.nodes), target, source, listing, cmpFails)
  {
    listing := [];
    var ok := fs.Mkdir(source);
    if !ok {
      return Raised, listing;
    }
    ok := fs.Mkdir(ParentOf(target));
    if !ok {
      return Raised, listing;
    }
    if fs.IsSymlink(target) {
      if fs.ReadLink(target) != source {
        ok := fs.Unlink(target);
        if !ok {
          return Raised, listing;
        }
        ok := fs.SymlinkTo(target, source);
        if !ok {
          return Raised, listing;
        }
      }
      return Linked, listing;
    }
    if fs.Exists(target) {
      if fs.IsDir(target) {
        ok, listing := MergeDirectoryContents(fs, source, target, cmpFails);
        if !ok {
          return Raised, listing;
        }
        var names;
        ok, names := fs.IterDir(target);
        if !ok {
          return Raised, listing;
        }
        if names != [] {
          assert names[0] in Children(fs.nodes, target);
          return Declined, listing;
        }
        assert Children(fs.nodes, target) == {};
        ok := fs.Rmdir(target);
        if !ok {
          return Raised, listing;
        }
        ok := fs.SymlinkTo(target, source);
        if !ok {
          return Raised, listing;
        }
        return Linked, listing;
      }
      return Declined, listing;
    }
    ok := fs.SymlinkTo(target, source);
    outcome := if ok then Linked else Raised;
  }

  // ---------------------------------------------------------------------
  // What a call achieves

  /** The two `mkdir` calls keep everything that was there and, when they
      return, leave both directories in place. */
  lemma PreparedFacts(m: Tree, target: Path, source: Path)
    ensures Prepared(m, target, source).ok ==>
      IsDirAt(Prepared(m, target, source).fs, source) && IsDirAt(Prepared(m, target, source).fs, ParentOf(target))
    ensures forall k | k in m :: k in Prepared(m, target, source).fs && Prepared(m, target, source).fs[k] == m[k]
  {
  }

  /** A parent is a proper prefix, so the parent of a path disjoint from
      `s` is not strictly inside `s`, nor strictly inside the path. */
  lemma ParentOutside(s: Path, t: Path)
    requires Disjoint(s, t)
    ensures t != [] && !(s < Parent(t)) && !(t < Parent(t)) && Parent(t) != t
  {
    assert Parent(t) <= t;
  }

  /** When the call raises and when it declines.  It raises only where a
      `mkdir` or the merge raises; it declines only for a target that is
      neither a directory nor a link: the warning that the target could not
      be emptied is never given. */
  lemma LinkOutcome(m: Tree, target: Path, source: Path, listing: seq<Name>, cmpFails: set<Name>)
    requires Disjoint(source, target)
    requires var p := Prepared(m, target, source);
      p.ok && IsDirAt(p.fs, target) ==> IsListing(p.fs, target, listing)
    ensures var p := Prepared(m, target, source);
      LinkRun(m, target, source, listing, cmpFails).outcome == Raised <==>
        !p.ok || (IsDirAt(p.fs, target) && !MergeRun(p.fs, source, target, listing, cmpFails).ok)
    ensures var p := Prepared(m, target, source);
      LinkRun(m, target, source, listing, cmpFails).outcome == Declined <==>
        p.ok && target in p.fs && !IsDirAt(p.fs, target) && !IsLinkAt(p.fs, target)
  {
    var p := Prepared(m, target, source);
    PreparedFacts(m, target, source);
    ParentOutside(source, target);
    if p.ok {
      var m1 := p.fs;
      if IsDirAt(m1, target) {
        var merged := MergeRun(m1, source, target, listing, cmpFails);
        MergeEmptiesTarget(m1, source, target, listing, cmpFails);
        MergeAllFrame(m1, source, target, listing, cmpFails);
        assert Agree(merged.fs, m1, Parent(target));
      }
    }
  }

  /** A call that returns `True` leaves `target` a link to `source`, and
      `source` a directory. */
  lemma LinkedPointsAtSource(m: Tree, target: Path, source: Path, listing: seq<Name>, cmpFails: set<Name>)
    requires Disjoint(source, target)
    ensures var r := LinkRun(m, target, source, listing, cmpFails);
      r.outcome == Linked ==> target in r.fs && r.fs[target] == Symlink(source) && IsDirAt(r.fs, source)
  {
    var p := Prepared(m, target, source);
    PreparedFacts(m, target, source);
    if p.ok && !IsLinkAt(p.fs, target) && IsDirAt(p.fs, target) {
      MergeAllFrame(p.fs, source, target, listing, cmpFails);
      assert Agree(MergeRun(p.fs, source, target, listing, cmpFails).fs, p.fs, source);
    }
  }

  /** Running the call again on what a successful call left changes
      nothing and succeeds: the startup is idempotent, whatever order the
      second merge would list the target in. */
  lemma LinkIdempotent(m: Tree, target: Path, source: Path, listing: seq<Name>, again: seq<Name>, cmpFails: set<Name>)
    requires Disjoint(source, target)
    ensures var r := LinkRun(m, target, source, listing, cmpFails);
      r.outcome == Linked ==> LinkRun(r.fs, target, source, again, cmpFails) == LinkResult(r.fs, Linked)
  {
    var r := LinkRun(m, target, source, listing, cmpFails);
    PreparedFacts(m, target, source);
    ParentOutside(source, target);
    LinkedPointsAtSource(m, target, source, listing, cmpFails);
    if r.outcome == Linked {
      assert IsDirAt(r.fs, Parent(target));
      assert Prepared(r.fs, target, source) == Done(r.fs);
    }
  }

  /** The call changes nothing outside `target` and the inside of
      `source`, except for directories the `mkdir` calls create. */
  lemma LinkFrame(m: Tree, target: Path, source: Path, listing: seq<Name>, cmpFails: set<Name>)
    requires Disjoint(source, target)
    ensures var r := LinkRun(m, target, source, listing, cmpFails);
      forall k | k in m && !(target <= k) && !(source < k) :: k in r.fs && r.fs[k] == m[k]
  {
    var p := Prepared(m, target, source);
    PreparedFacts(m, target, source);
    if p.ok && !IsLinkAt(p.fs, target) && IsDirAt(p.fs, target) {
      var merged := MergeRun(p.fs, source, target, listing, cmpFails);
      MergeAllFrame(p.fs, source, target, listing, cmpFails);
      forall k | k in m && !(target <= k) && !(source < k) ensures Agree(merged.fs, p.fs, k) {
        assert !(target < k);
      }
    }
  }

  /** Linking a real directory loses none of its contents: when the names
      used for conflicts are fresh, the call returns `True` exactly when no
      overlay clashes, and then every entry the directory held is in
      `source` under its landing name, and every other entry of `source`
      is as it was. */
  lemma LinkKeepsData(m: Tree, target: Path, source: Path, listing: seq<Name>, cmpFails: set<Name>)
    requires Disjoint(source, target)
    requires var p := Prepared(m, target, source);
      p.ok && IsDirAt(p.fs, target) && IsListing(p.fs, target, listing) && Setting(p.fs, source, target, cmpFails)
    ensures var p := Prepared(m, target, source);
      LinkRun(m, target, source, listing, cmpFails).outcome == Linked <==>
        forall n | n in Children(p.fs, target) :: !Clashes(p.fs, source, target, n, cmpFails)
    ensures var p := Prepared(m, target, source); var r := LinkRun(m, target, source, listing, cmpFails);
      r.outcome == Linked ==>
        forall n | n in Children(p.fs, target) ::
          Entry(r.fs, source, Landing(p.fs, source, target, n, cmpFails)) == Landed(p.fs, source, target, n, cmpFails)
    ensures var p := Prepared(m, target, source); var r := LinkRun(m, target, source, listing, cmpFails);
      r.outcome == Linked ==>
        forall x | x !in Landings(p.fs, source, target, Children(p.fs, target), cmpFails) ::
          Entry(r.fs, source, x) == Entry(p.fs, source, x)
  {
    var m1 := Prepared(m, target, source).fs;
    var r := LinkRun(m, target, source, listing, cmpFails);
    var merged := MergeRun(m1, source, target, listing, cmpFails);
    LinkOutcome(m, target, source, listing, cmpFails);
    MergeLands(m1, source, target, listing, cmpFails);
    if r.outcome == Linked {
      assert forall k :: !(target <= k) ==> Agree(r.fs, merged.fs, k);
      forall x ensures Entry(r.fs, source, x) == Entry(merged.fs, source, x) {
        EntryDisjoint(source, target, x);
        SubtreeFrame(r.fs, merged.fs, source + [x], target, target);
      }
    }
  }
}
