/** A POSIX directory tree as a flat map from absolute paths to nodes.

    A path is the sequence of its components below the root `/`, so `[]` is
    the root and `["data", "output"]` is `/data/output`.  The algebra here
    (subtree extraction, grafting, pruning) is what the file operations of
    `PosixOps` are written with. */
module FileTree {

  type Name = string
  type Path = seq<Name>

  /** What `lstat` sees at a path: a directory, a regular file with its bytes,
      or a symbolic link holding the (parsed) text `readlink` returns.  The
      link's destination is that text as written, never resolved: a relative
      and an absolute link with the same components look alike, and nothing
      in the model follows a link. */
  datatype Node = Dir | File(data: seq<bv8>) | Symlink(dest: Path)

  type Tree = map<Path, Node>

  function Parent(p: Path): Path
    requires p != []
  {
    p[..|p| - 1]
  }

  /** Neither path lies inside the other (so neither is the other). */
  predicate Disjoint(a: Path, b: Path) {
    !(a <= b) && !(b <= a)
  }

  /** Every entry's parent exists and is a directory; the root is a directory. */
  ghost predicate WellFormed(m: Tree) {
    && [] in m && m[[]] == Dir
    && forall k {:trigger Parent(k)} | k in m && k != [] :: Parent(k) in m && m[Parent(k)] == Dir
  }

  /** The tree rooted at `p`, with keys relative to `p` (`[]` is `p` itself). */
  function Subtree(m: Tree, p: Path): Tree {
    var keys := RelativeKeys(m, p);
    map r | r in keys :: m[p + r]
  }

  /** The keys at and below `p`, made relative to `p`. */
  function RelativeKeys(m: Tree, p: Path): (keys: set<Path>)
    ensures forall r :: r in keys <==> p + r in m
  {
    var keys := set k | k in m && p <= k :: k[|p|..];
    assert forall r :: r in keys <==> p + r in m by {
      forall r ensures r in keys <==> p + r in m {
        PrefixAppend(p, r);
        if r in keys {
          var k :| k in m && p <= k && k[|p|..] == r;
          assert k == p + k[|p|..];
        }
      }
    }
    keys
  }

  /** The entry named `name` of directory `dir`, as a tree of its own. */
  function Entry(m: Tree, dir: Path, name: Name): Tree {
    Subtree(m, dir + [name])
  }

  /** A relative tree placed below `p`. */
  function Prefixed(t: Tree, p: Path): Tree {
    var keys := set r | r in t :: p + r;
    assert forall k | k in keys :: p <= k && k[|p|..] in t by {
      forall k | k in keys ensures p <= k && k[|p|..] in t {
        var r :| r in t && k == p + r;
        PrefixAppend(p, r);
      }
    }
    map k | k in keys :: t[k[|p|..]]
  }

  /** `m` without `p` and everything below it. */
  function Prune(m: Tree, p: Path): Tree {
    map k | k in m && !(p <= k) :: m[k]
  }

  /** The names directly inside `p`, what `iterdir` lists. */
  function Children(m: Tree, p: Path): set<Name> {
    set k | k in m && |k| == |p| + 1 && p <= k :: k[|p|]
  }

  /** `m1` and `m2` hold the same thing (or nothing) at `k`. */
  predicate Agree(m1: Tree, m2: Tree, k: Path) {
    (k in m1 <==> k in m2) && (k in m1 ==> m1[k] == m2[k])
  }

  // ---------------------------------------------------------------------
  // Membership characterisations

  lemma PrefixAppend(p: Path, r: Path)
    ensures p <= p + r && (p + r)[|p|..] == r
  {
  }

  lemma SubtreeAt(m: Tree, p: Path, r: Path)
    ensures r in Subtree(m, p) <==> p + r in m
    ensures r in Subtree(m, p) ==> Subtree(m, p)[r] == m[p + r]
  {

  }

  lemma PrefixedAt(t: Tree, p: Path, k: Path)
    ensures k in Prefixed(t, p) <==> p <= k && k[|p|..] in t
    ensures k in Prefixed(t, p) ==> Prefixed(t, p)[k] == t[k[|p|..]]
  {
    if p <= k && k[|p|..] in t {
      assert k == p + k[|p|..];
    }
  }

  lemma ChildrenAt(m: Tree, p: Path, x: Name)
    ensures x in Children(m, p) <==> p + [x] in m
  {
    if x in Children(m, p) {
      var k :| k in m && |k| == |p| + 1 && p <= k && k[|p|] == x;
      assert k == p + [x];
    }
    if p + [x] in m {
      var k := p + [x];
      assert |k| == |p| + 1 && p <= k && k[|p|] == x;
    }
  }

  /** Two trees that agree at and below `p` have the same subtree at `p`. */
  lemma SubtreeExt(m1: Tree, m2: Tree, p: Path)
    requires forall r :: (p + r in m1 <==> p + r in m2) && (p + r in m1 ==> m1[p + r] == m2[p + r])
    ensures Subtree(m1, p) == Subtree(m2, p)
  {
    forall r ensures r in Subtree(m1, p) <==> r in Subtree(m2, p)
      ensures r in Subtree(m1, p) ==> Subtree(m1, p)[r] == Subtree(m2, p)[r]
    {
      SubtreeAt(m1, p, r);
      SubtreeAt(m2, p, r);
    }
  }

  // ---------------------------------------------------------------------
  // Prefix facts

  /** A prefix of `q + r` is a prefix of `q` or extends `q`. */
  lemma PrefixOfAppend(a: Path, q: Path, r: Path)
    ensures a <= q + r ==> a <= q || q <= a
  {
    if a <= q + r {
      if |a| <= |q| {
        assert a == (q + r)[..|a|] == q[..|a|];
      } else {
        assert q == (q + r)[..|q|] == a[..|q|];
      }
    }
  }

  /** Whatever lies below a path disjoint from `a` is not below `a`. */
  lemma DisjointBelow(a: Path, q: Path, r: Path)
    requires Disjoint(a, q)
    ensures !(a <= q + r)
  {
    PrefixOfAppend(a, q, r);
  }

  /** Entries of two disjoint directories are disjoint. */
  lemma DisjointEntries(s: Path, t: Path, x: Name, y: Name)
    requires Disjoint(s, t)
    ensures Disjoint(s + [x], t + [y])
  {
    PrefixOfAppend(s + [x], t, [y]);
    PrefixOfAppend(t + [y], s, [x]);
    assert s <= s + [x] && t <= t + [y];
  }

  /** Two different entries of one directory are disjoint. */
  lemma SiblingsDisjoint(d: Path, x: Name, y: Name)
    requires x != y
    ensures Disjoint(d + [x], d + [y])
  {
    assert (d + [x])[|d|] == x && (d + [y])[|d|] == y;
    assert |d + [x]| == |d + [y]|;
  }

  /** An entry of a directory disjoint from `t` is disjoint from `t`. */
  lemma EntryDisjoint(s: Path, t: Path, x: Name)
    requires Disjoint(s, t)
    ensures Disjoint(s + [x], t)
  {
    PrefixOfAppend(t, s, [x]);
    assert s <= s + [x];
  }

  // ---------------------------------------------------------------------
  // Subtree algebra

  /** Trees that agree everywhere outside `a` and `b` have the same subtree
      at any path disjoint from both. */
  lemma SubtreeFrame(m1: Tree, m2: Tree, q: Path, a: Path, b: Path)
    requires forall k :: !(a <= k) && !(b <= k) ==> Agree(m1, m2, k)
    requires Disjoint(q, a) && Disjoint(q, b)
    ensures Subtree(m1, q) == Subtree(m2, q)
  {
    forall r ensures (q + r in m1 <==> q + r in m2) && (q + r in m1 ==> m1[q + r] == m2[q + r]) {
      DisjointBelow(a, q, r);
      DisjointBelow(b, q, r);
      assert Agree(m1, m2, q + r);
    }
    SubtreeExt(m1, m2, q);
  }

  lemma SubtreeOfUnion(m1: Tree, m2: Tree, q: Path)
    ensures Subtree(m1 + m2, q) == Subtree(m1, q) + Subtree(m2, q)
  {
    var l, rr := Subtree(m1 + m2, q), Subtree(m1, q) + Subtree(m2, q);
    forall r ensures r in l <==> r in rr
      ensures r in l ==> l[r] == rr[r]
    {
      SubtreeAt(m1 + m2, q, r);
      SubtreeAt(m1, q, r);
      SubtreeAt(m2, q, r);
    }
  }

  lemma SubtreeOfPrefixed(t: Tree, p: Path)
    ensures Subtree(Prefixed(t, p), p) == t
  {
    var l := Subtree(Prefixed(t, p), p);
    forall r ensures r in l <==> r in t
      ensures r in l ==> l[r] == t[r]
    {
      SubtreeAt(Prefixed(t, p), p, r);
      PrefixedAt(t, p, p + r);
      PrefixAppend(p, r);
    }
  }

  /** A tree placed at `p` shows nothing at a path disjoint from `p`. */
  lemma SubtreeOfPrefixedElsewhere(t: Tree, p: Path, q: Path)
    requires Disjoint(p, q)
    ensures Subtree(Prefixed(t, p), q) == map[]
  {
    forall r | r in Subtree(Prefixed(t, p), q) ensures false {
      SubtreeAt(Prefixed(t, p), q, r);
      PrefixedAt(t, p, q + r);
      DisjointBelow(p, q, r);
    }
  }

  lemma PrefixedOutside(t: Tree, p: Path, k: Path)
    requires !(p <= k)
    ensures k !in Prefixed(t, p)
  {
    PrefixedAt(t, p, k);
  }

  lemma SubtreeOfPrunedElsewhere(m: Tree, p: Path, q: Path)
    requires Disjoint(p, q)
    ensures Subtree(Prune(m, p), q) == Subtree(m, q)
  {
    SubtreeFrame(Prune(m, p), m, q, p, p);
  }

  lemma SubtreeOfPruned(m: Tree, p: Path)
    ensures Subtree(Prune(m, p), p) == map[]
  {
    forall r | r in Subtree(Prune(m, p), p) ensures false {
      SubtreeAt(Prune(m, p), p, r);
      PrefixAppend(p, r);
    }
  }

  // ---------------------------------------------------------------------
  // Well-formed trees

  /** Every prefix of an entry exists, and the proper ones are directories. */
  lemma {:induction false} AncestorsPresent(m: Tree, k: Path, j: nat)
    requires WellFormed(m) && j <= |k|
    ensures k in m ==> k[..j] in m && (j < |k| ==> m[k[..j]] == Dir)
    decreases |k| - j
  {
    if k in m {
      if j < |k| {
        var parent := Parent(k);
        assert parent in m && m[parent] == Dir;
        if j < |k| - 1 {
          AncestorsPresent(m, parent, j);
          assert parent[..j] == k[..j];
        } else {
          assert k[..j] == parent;
        }
      } else {
        assert k[..j] == k;
      }
    }
  }

  /** Nothing lies below a path that does not exist. */
  lemma AbsentIsEmpty(m: Tree, p: Path)
    requires WellFormed(m) && p !in m
    ensures Subtree(m, p) == map[]
  {
    forall r ensures r !in Subtree(m, p) {
      SubtreeAt(m, p, r);
      AncestorsPresent(m, p + r, |p|);
      assert (p + r)[..|p|] == p;
    }
  }

  /** Nothing lies below a file or a symbolic link. */
  lemma LeafIsSingleton(m: Tree, p: Path)
    requires WellFormed(m) && p in m && m[p] != Dir
    ensures Subtree(m, p) == map[[] := m[p]]
  {
    forall r | r != [] ensures r !in Subtree(m, p) {
      SubtreeAt(m, p, r);
      AncestorsPresent(m, p + r, |p|);
      assert (p + r)[..|p|] == p;
    }
    SubtreeAt(m, p, []);
    assert p + [] == p;
  }

  /** A directory whose listing is empty has nothing below it. */
  lemma EmptyDirIsSingleton(m: Tree, p: Path)
    requires WellFormed(m) && p in m && Children(m, p) == {}
    ensures Subtree(m, p) == map[[] := m[p]]
  {
    forall r | r != [] ensures r !in Subtree(m, p) {
      SubtreeAt(m, p, r);
      AncestorsPresent(m, p + r, |p| + 1);
      assert (p + r)[..|p| + 1] == p + [r[0]];
      ChildrenAt(m, p, r[0]);
    }
    SubtreeAt(m, p, []);
    assert p + [] == p;
  }
}
