/** Where each entry of the target lands.  Every entry's fate is decided by
    what the two directories hold under its name before the merge starts;
    provided the names used for conflicts are fresh, the merge raises
    exactly when a directory/directory overlay would lay a directory over
    a file, or send a file into a directory that already holds a directory
    under that file's name, and otherwise every entry's whole
    tree is found in the source under its landing name, and every other
    name of the source is as it was. */
module MergeLanding {
  import opened Wrappers
  import opened FileTree
  import opened PosixOps
  import opened Paths
  import opened FileSystemModel
  import opened Merge

  /** What the merge does with one entry of the target. */
  datatype Fate =
    | Moved           // nothing of that name in the source: moved across
    | Overlaid        // directory onto directory: copied over, then removed
    | Dropped         // a byte-identical file is already there: deleted
    | Aside(tag: string)  // anything else: moved across under a tagged name

  function FateOf(m0: Tree, s: Path, t: Path, n: Name, cmpFails: set<Name>): Fate {
    var item := t + [n];
    var dest := s + [n];
    if dest !in m0 then Moved
    else if IsDirAt(m0, item) then
      if IsDirAt(m0, dest) then Overlaid else Aside(DirConflictTag)
    else if SameFile(m0, item, dest, n in cmpFails) then Dropped
    else Aside(ConflictTag)
  }

  /** The name in the source the entry ends up under. */
  function Landing(m0: Tree, s: Path, t: Path, n: Name, cmpFails: set<Name>): Name {
    match FateOf(m0, s, t, n, cmpFails)
    case Aside(tag) => (match WithSuffix(n, tag) case Some(b) => b case None => n)
    case _ => n
  }

  /** The tree found under the landing name once the merge is done: the
      target's entry itself, or the source's entry with the target's
      entry copied over it (a file that meets a directory going inside it
      under its own name), or the source's (identical) file. */
  function Landed(m0: Tree, s: Path, t: Path, n: Name, cmpFails: set<Name>): Tree {
    match FateOf(m0, s, t, n, cmpFails)
    case Overlaid => Entry(m0, s, n) + Copied(Entry(m0, t, n), Entry(m0, s, n))
    case Dropped => Entry(m0, s, n)
    case _ => Entry(m0, t, n)
  }

  /** The overlay of entry `n` meets a file where it needs a directory, or
      a file redirected into a directory meets a directory there, so
      `copytree` raises. */
  predicate Clashes(m0: Tree, s: Path, t: Path, n: Name, cmpFails: set<Name>) {
    FateOf(m0, s, t, n, cmpFails) == Overlaid && ClashTrees(Entry(m0, t, n), Entry(m0, s, n))
  }

  /** The tagged names are fresh: not in the source, not in the target,
      and no two entries are renamed to the same name. */
  ghost predicate Fresh(m0: Tree, s: Path, t: Path, cmpFails: set<Name>) {
    forall n | n in Children(m0, t) && FateOf(m0, s, t, n, cmpFails).Aside? ::
      && n != ""
      && Landing(m0, s, t, n, cmpFails) !in Children(m0, s)
      && Landing(m0, s, t, n, cmpFails) !in Children(m0, t)
      && forall v | v in Children(m0, t) && v != n && FateOf(m0, s, t, v, cmpFails).Aside? ::
           Landing(m0, s, t, v, cmpFails) != Landing(m0, s, t, n, cmpFails)
  }

  /** The assumptions under which the merge is analysed. */
  ghost predicate Setting(m0: Tree, s: Path, t: Path, cmpFails: set<Name>) {
    && WellFormed(m0) && Disjoint(s, t) && IsDirAt(m0, s) && IsDirAt(m0, t)
    && Fresh(m0, s, t, cmpFails)
  }

  function Landings(m0: Tree, s: Path, t: Path, done: set<Name>, cmpFails: set<Name>): set<Name> {
    set v | v in done :: Landing(m0, s, t, v, cmpFails)
  }

  /** The state after the entries in `done` have been merged. */
  ghost predicate Progress(m0: Tree, m: Tree, s: Path, t: Path, cmpFails: set<Name>, done: set<Name>) {
    && IsDirAt(m, s) && IsDirAt(m, t)
    && (forall x :: Entry(m, t, x) == if x in done then map[] else Entry(m0, t, x))
    && (forall x :: x !in Landings(m0, s, t, done, cmpFails) ==> Entry(m, s, x) == Entry(m0, s, x))
    && (forall v | v in done :: Entry(m, s, Landing(m0, s, t, v, cmpFails)) == Landed(m0, s, t, v, cmpFails))
  }

  // ---------------------------------------------------------------------
  // Landing names

  /** Different entries land under different names. */
  lemma LandingInjective(m0: Tree, s: Path, t: Path, cmpFails: set<Name>, v: Name, n: Name)
    requires Fresh(m0, s, t, cmpFails)
    requires v in Children(m0, t) && n in Children(m0, t) && v != n
    ensures Landing(m0, s, t, v, cmpFails) != Landing(m0, s, t, n, cmpFails)
  {
  }

  /** An entry not yet merged: no earlier entry landed under its name or
      under its landing name. */
  lemma LandingsAvoid(m0: Tree, s: Path, t: Path, cmpFails: set<Name>, done: set<Name>, n: Name)
    requires Fresh(m0, s, t, cmpFails)
    requires done <= Children(m0, t) && n in Children(m0, t) && n !in done
    ensures n !in Landings(m0, s, t, done, cmpFails)
    ensures Landing(m0, s, t, n, cmpFails) !in Landings(m0, s, t, done, cmpFails)
  {
    forall v | v in done ensures Landing(m0, s, t, v, cmpFails) != n {
      assert v in Children(m0, t);
    }
    forall v | v in done ensures Landing(m0, s, t, v, cmpFails) != Landing(m0, s, t, n, cmpFails) {
      LandingInjective(m0, s, t, cmpFails, v, n);
    }
  }

  // ---------------------------------------------------------------------
  // Entries and their roots

  /** What an entry's tree says about the path itself. */
  lemma EntryRoot(m: Tree, p: Path, x: Name)
    ensures p + [x] in m <==> [] in Entry(m, p, x)
    ensures p + [x] in m ==> Entry(m, p, x)[[]] == m[p + [x]]
  {
    SubtreeAt(m, p + [x], []);
    assert p + [x] + [] == p + [x];
  }

  /** Equal entries mean equal nodes at the entry itself. */
  lemma SameRoot(m: Tree, m0: Tree, p: Path, x: Name)
    requires Entry(m, p, x) == Entry(m0, p, x)
    ensures Agree(m, m0, p + [x])
  {
    EntryRoot(m, p, x);
    EntryRoot(m0, p, x);
  }

  // ---------------------------------------------------------------------
  // The effect of one entry

  /** A rename empties its source path ... */
  lemma RenameEmpties(m: Tree, src: Path, dst: Path)
    requires Disjoint(src, dst)
    ensures Subtree(Rename(m, src, dst), src) == map[]
  {
    var kept := Prune(Prune(m, src), dst);
    var moved := Prefixed(Subtree(m, src), dst);
    SubtreeOfUnion(kept, moved, src);
    SubtreeOfPrunedElsewhere(Prune(m, src), dst, src);
    SubtreeOfPruned(m, src);
    SubtreeOfPrefixedElsewhere(Subtree(m, src), dst, src);
  }

  /** ... and carries the tree across to its destination. */
  lemma RenameCarries(m: Tree, src: Path, dst: Path)
    ensures Subtree(Rename(m, src, dst), dst) == Subtree(m, src)
  {
    var kept := Prune(Prune(m, src), dst);
    var carried := Subtree(m, src);
    SubtreeOfUnion(kept, Prefixed(carried, dst), dst);
    SubtreeOfPruned(Prune(m, src), dst);
    SubtreeOfPrefixed(carried, dst);
    EmptyUnion(Subtree(kept, dst), Subtree(Prefixed(carried, dst), dst));
  }

  /** Nothing joined with a tree is that tree. */
  lemma EmptyUnion(none: Tree, t: Tree)
    requires none == map[]
    ensures none + t == t
  {
    assert forall k :: k in none + t <==> k in t;
  }

  /** Removing a leaf that has nothing below it leaves nothing there. */
  lemma RemoveLeafEffect(m: Tree, p: Path)
    requires p in m && Subtree(m, p) == map[[] := m[p]]
    ensures Subtree(m - {p}, p) == map[]
  {
    assert p + [] == p;
    forall r ensures r !in Subtree(m - {p}, p) {
      SubtreeAt(m - {p}, p, r);
      SubtreeAt(m, p, r);
    }
  }

  /** The overlay of `src` onto `dst`, then `src` removed. */
  lemma OverlayEffect(m: Tree, src: Path, dst: Path)
    requires Disjoint(src, dst)
    ensures Subtree(Prune(Overlay(m, src, dst), src), src) == map[]
    ensures Subtree(Prune(Overlay(m, src, dst), src), dst) == Subtree(m, dst) + Copied(Subtree(m, src), Subtree(m, dst))
  {
    var o := Overlay(m, src, dst);
    var c := Copied(Subtree(m, src), Subtree(m, dst));
    SubtreeOfPruned(o, src);
    SubtreeOfPrunedElsewhere(o, src, dst);
    SubtreeOfUnion(m, Prefixed(c, dst), dst);
    SubtreeOfPrefixed(c, dst);
  }

  /** If one step changes nothing outside the entry and its landing place,
      empties the entry and puts the landed tree in place, progress is made. */
  lemma ProgressStep(m0: Tree, m: Tree, m': Tree, s: Path, t: Path, cmpFails: set<Name>, done: set<Name>, n: Name)
    requires Setting(m0, s, t, cmpFails) && Progress(m0, m, s, t, cmpFails, done)
    requires done <= Children(m0, t) && n in Children(m0, t) && n !in done
    requires forall k :: !(t + [n] <= k) && !(s + [Landing(m0, s, t, n, cmpFails)] <= k) ==> Agree(m', m, k)
    requires Subtree(m', t + [n]) == map[]
    requires Subtree(m', s + [Landing(m0, s, t, n, cmpFails)]) == Landed(m0, s, t, n, cmpFails)
    ensures Progress(m0, m', s, t, cmpFails, done + {n})
  {
    var item := t + [n];
    var l := Landing(m0, s, t, n, cmpFails);
    var b := s + [l];
    LandingsAvoid(m0, s, t, cmpFails, done, n);
    PrefixAppend(s, [l]);
    DisjointBelow(s, t, [n]);
    PrefixOfAppend(t, s, [l]);
    assert Agree(m', m, s) && Agree(m', m, t);
    forall x ensures Entry(m', t, x) == if x in done + {n} then map[] else Entry(m0, t, x) {
      if x != n {
        SiblingsDisjoint(t, n, x);
        DisjointEntries(t, s, x, l);
        SubtreeFrame(m', m, t + [x], item, b);
      }
    }
    var before := Landings(m0, s, t, done, cmpFails);
    assert Landings(m0, s, t, done + {n}, cmpFails) == before + {l};
    forall x | x !in before + {l} ensures Entry(m', s, x) == Entry(m0, s, x) {
      DisjointEntries(s, t, x, n);
      SiblingsDisjoint(s, x, l);
      SubtreeFrame(m', m, s + [x], item, b);
    }
    EarlierLandingsKept(m0, m, m', s, t, cmpFails, done, n);
  }

  /** After entry `n` is merged, it and every entry merged before it have
      their landed trees in the source. */
  lemma EarlierLandingsKept(m0: Tree, m: Tree, m': Tree, s: Path, t: Path, cmpFails: set<Name>, done: set<Name>, n: Name)
    requires Setting(m0, s, t, cmpFails) && Progress(m0, m, s, t, cmpFails, done)
    requires n in Children(m0, t) && n !in done && done <= Children(m0, t)
    requires forall k :: !(t + [n] <= k) && !(s + [Landing(m0, s, t, n, cmpFails)] <= k) ==> Agree(m', m, k)
    requires Subtree(m', s + [Landing(m0, s, t, n, cmpFails)]) == Landed(m0, s, t, n, cmpFails)
    ensures forall v | v in done + {n} ::
      Entry(m', s, Landing(m0, s, t, v, cmpFails)) == Landed(m0, s, t, v, cmpFails)
  {
    forall v | v in done + {n}
      ensures Entry(m', s, Landing(m0, s, t, v, cmpFails)) == Landed(m0, s, t, v, cmpFails)
    {
      if v != n {
        EarlierLandingKept(m0, m, m', s, t, cmpFails, done, n, v);
      }
    }
  }

  /** An entry merged earlier keeps its landed tree while entry `n` is
      merged. */
  lemma EarlierLandingKept(m0: Tree, m: Tree, m': Tree, s: Path, t: Path, cmpFails: set<Name>, done: set<Name>, n: Name, v: Name)
    requires Setting(m0, s, t, cmpFails) && Progress(m0, m, s, t, cmpFails, done)
    requires n in Children(m0, t) && n !in done && v in done && done <= Children(m0, t)
    requires forall k :: !(t + [n] <= k) && !(s + [Landing(m0, s, t, n, cmpFails)] <= k) ==> Agree(m', m, k)
    ensures Entry(m', s, Landing(m0, s, t, v, cmpFails)) == Landed(m0, s, t, v, cmpFails)
  {
    var l := Landing(m0, s, t, n, cmpFails);
    var lv := Landing(m0, s, t, v, cmpFails);
    LandingInjective(m0, s, t, cmpFails, v, n);
    DisjointEntries(s, t, lv, n);
    SiblingsDisjoint(s, lv, l);
    SubtreeFrame(m', m, s + [lv], t + [n], s + [l]);
  }

  /** Moving the entry to a name the source does not have. */
  lemma MoveToFresh(m0: Tree, m: Tree, s: Path, t: Path, cmpFails: set<Name>, done: set<Name>, n: Name)
    requires Setting(m0, s, t, cmpFails) && Progress(m0, m, s, t, cmpFails, done)
    requires done <= Children(m0, t) && n in Children(m0, t) && n !in done
    requires Landed(m0, s, t, n, cmpFails) == Entry(m0, t, n)
    requires t + [n] in m && s + [Landing(m0, s, t, n, cmpFails)] !in m
    ensures Move(m, t + [n], s + [Landing(m0, s, t, n, cmpFails)]).ok
    ensures Progress(m0, Move(m, t + [n], s + [Landing(m0, s, t, n, cmpFails)]).fs, s, t, cmpFails, done + {n})
  {
    var item := t + [n];
    var b := s + [Landing(m0, s, t, n, cmpFails)];
    DisjointEntries(t, s, n, Landing(m0, s, t, n, cmpFails));
    assert Parent(b) == s;
    assert Move(m, item, b) == Done(Rename(m, item, b));
    var m' := Rename(m, item, b);
    RenameFrame(m, item, b);
    RenameEmpties(m, item, b);
    RenameCarries(m, item, b);
    assert Entry(m, t, n) == Entry(m0, t, n);
    ProgressStep(m0, m, m', s, t, cmpFails, done, n);
  }

  /** Deleting a file the source already holds byte for byte. */
  lemma DropStep(m0: Tree, m: Tree, s: Path, t: Path, cmpFails: set<Name>, done: set<Name>, n: Name)
    requires Setting(m0, s, t, cmpFails) && Progress(m0, m, s, t, cmpFails, done)
    requires done <= Children(m0, t) && n in Children(m0, t) && n !in done
    requires FateOf(m0, s, t, n, cmpFails) == Dropped
    requires Agree(m, m0, t + [n]) && Entry(m, s, n) == Entry(m0, s, n)
    ensures Unlink(m, t + [n]).ok
    ensures Progress(m0, Unlink(m, t + [n]).fs, s, t, cmpFails, done + {n})
  {
    var item := t + [n];
    ChildrenAt(m0, t, n);
    LeafIsSingleton(m0, item);
    assert Entry(m, t, n) == Entry(m0, t, n);
    var m' := m - {item};
    RemoveLeafEffect(m, item);
    UnlinkFrame(m, item);
    DisjointEntries(s, t, n, n);
    SubtreeFrame(m', m, s + [n], item, item);
    ProgressStep(m0, m, m', s, t, cmpFails, done, n);
  }

  /** Copying a directory over the source's directory of the same name
      raises exactly when the two trees clash ... */
  lemma OverlayClash(m0: Tree, m: Tree, s: Path, t: Path, cmpFails: set<Name>, n: Name)
    requires FateOf(m0, s, t, n, cmpFails) == Overlaid
    requires Entry(m, t, n) == Entry(m0, t, n) && Entry(m, s, n) == Entry(m0, s, n)
    ensures Clash(m, t + [n], s + [n]) <==> Clashes(m0, s, t, n, cmpFails)
  {
  }

  /** ... and otherwise leaves the overlaid tree under the entry's name. */
  lemma OverlayStep(m0: Tree, m: Tree, s: Path, t: Path, cmpFails: set<Name>, done: set<Name>, n: Name)
    requires Setting(m0, s, t, cmpFails) && Progress(m0, m, s, t, cmpFails, done)
    requires done <= Children(m0, t) && n in Children(m0, t) && n !in done
    requires FateOf(m0, s, t, n, cmpFails) == Overlaid
    requires IsDirAt(m, s + [n]) && Entry(m, s, n) == Entry(m0, s, n)
    ensures Progress(m0, Prune(Overlay(m, t + [n], s + [n]), t + [n]), s, t, cmpFails, done + {n})
  {
    var item := t + [n];
    var dest := s + [n];
    DisjointEntries(t, s, n, n);
    var o := Overlay(m, item, dest);
    var m' := Prune(o, item);
    forall k | !(item <= k) && !(dest <= k) ensures Agree(m', m, k) {
      PrefixedOutside(Copied(Subtree(m, item), Subtree(m, dest)), dest, k);
    }
    OverlayEffect(m, item, dest);
    assert Entry(m, t, n) == Entry(m0, t, n);
    ProgressStep(m0, m, m', s, t, cmpFails, done, n);
  }

  /** One entry of the target, merged in a state that has made progress
      over `done`: it raises exactly when its overlay clashes, and otherwise
      progress extends to it. */
  lemma StepLands(m0: Tree, m: Tree, s: Path, t: Path, cmpFails: set<Name>, done: set<Name>, n: Name)
    requires Setting(m0, s, t, cmpFails) && Progress(m0, m, s, t, cmpFails, done)
    requires done <= Children(m0, t) && n in Children(m0, t) && n !in done
    ensures MergeEntry(m, s, t, n, cmpFails).ok <==> !Clashes(m0, s, t, n, cmpFails)
    ensures MergeEntry(m, s, t, n, cmpFails).ok ==>
      Progress(m0, MergeEntry(m, s, t, n, cmpFails).fs, s, t, cmpFails, done + {n})
  {
    var item := t + [n];
    var dest := s + [n];
    LandingsAvoid(m0, s, t, cmpFails, done, n);
    assert Entry(m, t, n) == Entry(m0, t, n);
    assert Entry(m, s, n) == Entry(m0, s, n);
    SameRoot(m, m0, t, n);
    SameRoot(m, m0, s, n);
    ChildrenAt(m0, t, n);
    DisjointEntries(t, s, n, n);
    match FateOf(m0, s, t, n, cmpFails)
    case Moved =>
      MoveToFresh(m0, m, s, t, cmpFails, done, n);
    case Aside(tag) =>
      var c := Landing(m0, s, t, n, cmpFails);
      assert WithSuffix(n, tag) == Some(c);
      assert MergeEntry(m, s, t, n, cmpFails) == Move(m, item, s + [c]);
      assert Entry(m, s, c) == Entry(m0, s, c);
      ChildrenAt(m0, s, c);
      EntryRoot(m, s, c);
      EntryRoot(m0, s, c);
      MoveToFresh(m0, m, s, t, cmpFails, done, n);
    case Dropped =>
      assert SameFile(m, item, dest, n in cmpFails);
      DropStep(m0, m, s, t, cmpFails, done, n);
    case Overlaid =>
      OverlayClash(m0, m, s, t, cmpFails, n);
      if !Clash(m, item, dest) {
        var o := Overlay(m, item, dest);
        PrefixedOutside(Copied(Subtree(m, item), Subtree(m, dest)), dest, item);
        assert RmTree(o, item) == Done(Prune(o, item));
        OverlayStep(m0, m, s, t, cmpFails, done, n);
      }
  }

  /** What the rest of a listing keeps of the listing's properties. */
  lemma ListingTail(ns: seq<Name>, done: set<Name>, all: set<Name>)
    requires ns != [] && Distinct(ns)
    requires forall x | x in ns :: x in all && x !in done
    ensures Distinct(ns[1..])
    ensures forall x | x in ns[1..] :: x in all && x !in done + {ns[0]}
    ensures forall x :: x in ns <==> x == ns[0] || x in ns[1..]
    ensures done + {ns[0]} + (set x | x in ns[1..]) == done + (set x | x in ns)
  {
    var rest := ns[1..];
    assert ns == [ns[0]] + rest;
    forall x | x in rest ensures x in ns && x != ns[0] {
      var j :| 0 <= j < |rest| && rest[j] == x;
      assert ns[j + 1] == x;
    }
  }

  /** The loop over the entries `ns`, none of them merged yet. */
  lemma {:induction false} MergeAllLands(m0: Tree, m: Tree, s: Path, t: Path, cmpFails: set<Name>, done: set<Name>, ns: seq<Name>)
    requires Setting(m0, s, t, cmpFails) && Progress(m0, m, s, t, cmpFails, done)
    requires done <= Children(m0, t) && Distinct(ns)
    requires forall x | x in ns :: x in Children(m0, t) && x !in done
    ensures MergeAll(m, s, t, ns, cmpFails).ok <==> forall x | x in ns :: !Clashes(m0, s, t, x, cmpFails)
    ensures MergeAll(m, s, t, ns, cmpFails).ok ==>
      Progress(m0, MergeAll(m, s, t, ns, cmpFails).fs, s, t, cmpFails, done + set x | x in ns)
    decreases |ns|
  {
    if ns == [] {
      assert done + (set x | x in ns) == done;
    } else {
      var n := ns[0];
      StepLands(m0, m, s, t, cmpFails, done, n);
      ListingTail(ns, done, Children(m0, t));
      var r1 := MergeEntry(m, s, t, n, cmpFails);
      if r1.ok {
        MergeAllLands(m0, r1.fs, s, t, cmpFails, done + {n}, ns[1..]);
      }
    }
  }

  /** `_merge_directory_contents` on a snapshot of the target, in whatever
      order `iterdir` lists it: it raises exactly when some overlay clashes,
      and otherwise each entry's tree is in the source under its landing
      name, and every other name of the source holds what it held. */
  lemma MergeLands(m0: Tree, s: Path, t: Path, listing: seq<Name>, cmpFails: set<Name>)
    requires Setting(m0, s, t, cmpFails) && IsListing(m0, t, listing)
    ensures MergeRun(m0, s, t, listing, cmpFails).ok <==>
      forall n | n in Children(m0, t) :: !Clashes(m0, s, t, n, cmpFails)
    ensures MergeRun(m0, s, t, listing, cmpFails).ok ==>
      forall n | n in Children(m0, t) ::
        Entry(MergeRun(m0, s, t, listing, cmpFails).fs, s, Landing(m0, s, t, n, cmpFails))
          == Landed(m0, s, t, n, cmpFails)
    ensures MergeRun(m0, s, t, listing, cmpFails).ok ==>
      forall x | x !in Landings(m0, s, t, Children(m0, t), cmpFails) ::
        Entry(MergeRun(m0, s, t, listing, cmpFails).fs, s, x) == Entry(m0, s, x)
  {
    assert Landings(m0, s, t, {}, cmpFails) == {};
    assert Progress(m0, m0, s, t, cmpFails, {});
    MergeAllLands(m0, m0, s, t, cmpFails, {}, listing);
    assert {} + (set x | x in listing) == Children(m0, t);
  }
}
