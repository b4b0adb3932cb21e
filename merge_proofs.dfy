/** What `_merge_directory_contents` guarantees: it touches nothing outside
    the two directories, a run that raises no exception leaves the target
    empty, and every entry of the target ends up, whole, at a known place
    in the source. */
module MergeProofs {
  import opened Wrappers
  import opened FileTree
  import opened PosixOps
  import opened Paths
  import opened FileSystemModel
  import opened Merge

  /** One entry changes nothing outside itself and the inside of the source,
      and once it is done the entry is gone from the target. */
  lemma EntryFrame(m: Tree, s: Path, t: Path, n: Name, cmpFails: set<Name>)
    requires Disjoint(s, t)
    ensures forall k :: !(t + [n] <= k) && !(s < k) ==> Agree(MergeEntry(m, s, t, n, cmpFails).fs, m, k)
    ensures MergeEntry(m, s, t, n, cmpFails).ok ==> t + [n] !in MergeEntry(m, s, t, n, cmpFails).fs
  {
    var item := t + [n];
    var dest := s + [n];
    if IsDirAt(m, item) && dest in m && IsDirAt(m, dest) {
      CopyIntoFrame(m, s, t, n);
      assert MergeEntry(m, s, t, n, cmpFails) == MergeEntry(m, s, t, n, {});
    } else if !IsDirAt(m, item) && dest in m && SameFile(m, item, dest, n in cmpFails) {
      UnlinkFrame(m, item);
    } else if dest in m {
      var tag := if IsDirAt(m, item) then DirConflictTag else ConflictTag;
      assert MergeEntry(m, s, t, n, cmpFails) == MoveAside(m, item, s, n, tag);
      if WithSuffix(n, tag).Some? {
        MoveIntoFrame(m, s, t, n, WithSuffix(n, tag).value);
      }
    } else {
      MoveIntoFrame(m, s, t, n, n);
    }
  }

  /** Moving an entry of `t` into `s` changes nothing outside the entry and
      the inside of `s`, and the entry is gone once it has moved. */
  lemma MoveIntoFrame(m: Tree, s: Path, t: Path, n: Name, b: Name)
    requires Disjoint(s, t)
    ensures forall k :: !(t + [n] <= k) && !(s < k) ==> Agree(Move(m, t + [n], s + [b]).fs, m, k)
    ensures Move(m, t + [n], s + [b]).ok ==> t + [n] !in Move(m, t + [n], s + [b]).fs
  {
    var item, dest := t + [n], s + [b];
    DisjointEntries(t, s, n, b);
    MoveFrame(m, item, dest);
    forall k | !(item <= k) && !(s < k) ensures Agree(Move(m, item, dest).fs, m, k) {
      PrefixAppend(s, [b]);
      assert !(dest <= k);
    }
  }

  /** Copying a directory entry of `t` onto its namesake in `s` and
      removing it changes nothing outside the entry and the inside of `s`. */
  lemma CopyIntoFrame(m: Tree, s: Path, t: Path, n: Name)
    requires Disjoint(s, t) && IsDirAt(m, s + [n]) && IsDirAt(m, t + [n])
    ensures var r := MergeEntry(m, s, t, n, {});
      (forall k :: !(t + [n] <= k) && !(s < k) ==> Agree(r.fs, m, k)) && (r.ok ==> t + [n] !in r.fs)
  {
    var item, dest := t + [n], s + [n];
    DisjointEntries(t, s, n, n);
    var copied := CopyTree(m, item, dest);
    var r := MergeEntry(m, s, t, n, {});
    assert r == if copied.ok then RmTree(copied.fs, item) else copied;
    CopyTreeFrame(m, item, dest);
    PrefixAppend(s, [n]);
    assert s < dest;
    if copied.ok {
      RmTreeFrame(copied.fs, item);
    }
    forall k | !(item <= k) && !(s < k) ensures Agree(r.fs, m, k) {
      assert !(dest <= k);
      assert Agree(copied.fs, m, k);
    }
  }

  /** A merge over `names` changes nothing outside the insides of the two
      directories; when it raises nothing, exactly the listed entries have
      left the target. */
  lemma {:induction false} MergeAllFrame(m: Tree, s: Path, t: Path, names: seq<Name>, cmpFails: set<Name>)
    requires Disjoint(s, t)
    ensures forall k :: !(t < k) && !(s < k) ==> Agree(MergeAll(m, s, t, names, cmpFails).fs, m, k)
    ensures MergeAll(m, s, t, names, cmpFails).ok ==>
      forall x :: t + [x] in MergeAll(m, s, t, names, cmpFails).fs <==> t + [x] in m && x !in names
    decreases |names|
  {
    if names != [] {
      var n := names[0];
      var r1 := MergeEntry(m, s, t, n, cmpFails);
      EntryFrame(m, s, t, n, cmpFails);
      if r1.ok {
        var r := MergeAll(r1.fs, s, t, names[1..], cmpFails);
        MergeAllFrame(r1.fs, s, t, names[1..], cmpFails);
        assert names == [n] + names[1..];
        FrameStep(m, r1.fs, r.fs, s, t, n, names[1..], r.ok);
      } else {
        forall k | !(t < k) && !(s < k) ensures Agree(r1.fs, m, k) {
          EntryBelow(t, n, k);
        }
      }
    }
  }

  lemma EntryBelow(t: Path, n: Name, k: Path)
    ensures t + [n] <= k ==> t < k
  {
  }

  /** The frame of one entry followed by the frame of the rest. */
  lemma FrameStep(m: Tree, m1: Tree, m2: Tree, s: Path, t: Path, n: Name, rest: seq<Name>, ok: bool)
    requires Disjoint(s, t)
    requires forall k :: !(t + [n] <= k) && !(s < k) ==> Agree(m1, m, k)
    requires t + [n] !in m1
    requires forall k :: !(t < k) && !(s < k) ==> Agree(m2, m1, k)
    requires ok ==> forall x :: t + [x] in m2 <==> t + [x] in m1 && x !in rest
    ensures forall k :: !(t < k) && !(s < k) ==> Agree(m2, m, k)
    ensures ok ==> forall x :: t + [x] in m2 <==> t + [x] in m && x !in [n] + rest
  {
    forall k | !(t < k) && !(s < k) ensures Agree(m2, m, k) {
      EntryBelow(t, n, k);
      assert Agree(m2, m1, k) && Agree(m1, m, k);
    }
    if ok {
      forall x ensures t + [x] in m2 <==> t + [x] in m && x !in [n] + rest {
        DisjointBelow(s, t, [x]);
        assert x in [n] + rest <==> x == n || x in rest;
        if x != n {
          SiblingsDisjoint(t, n, x);
          assert Agree(m1, m, t + [x]);
        }
      }
    }
  }

  /** The warning "could not empty the target" cannot be reached: a merge
      over a snapshot of the target that raises no exception leaves the
      target an empty directory. */
  lemma MergeEmptiesTarget(m: Tree, s: Path, t: Path, listing: seq<Name>, cmpFails: set<Name>)
    requires Disjoint(s, t) && IsDirAt(m, t) && IsListing(m, t, listing)
    ensures MergeRun(m, s, t, listing, cmpFails).ok ==>
      IsDirAt(MergeRun(m, s, t, listing, cmpFails).fs, t) && Children(MergeRun(m, s, t, listing, cmpFails).fs, t) == {}
  {
    var r := MergeAll(m, s, t, listing, cmpFails);
    MergeAllFrame(m, s, t, listing, cmpFails);
    assert Agree(r.fs, m, t) by {
      assert !(s < t);
    }
    if r.ok {
      forall x ensures x !in Children(r.fs, t) {
        ChildrenAt(r.fs, t, x);
        ChildrenAt(m, t, x);
      }
    }
  }
}
