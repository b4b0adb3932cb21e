/** The start-up of the `ui` container: create the three volume mount
    points, choose the ComfyUI installation roots, and point each root's
    `models`, `custom_nodes` and `output` directories at the persistent
    volumes with `link_directory`.  An exception from any call ends the
    start-up. */
module Startup {
  import opened Wrappers
  import opened FileTree
  import opened PosixOps
  import opened FileSystemModel
  import opened Link
  import opened Merge

  /** Where ComfyUI may be installed, in order of preference. */
  const Candidates: seq<Path> := [["root", "comfy", "ComfyUI"], ["root", "ComfyUI"], ["root", ".cache", "comfyui", "ComfyUI"]]

  /** The volume mount points. */
  const ModelVolume: Path := ["models"]
  const CustomNodeMount: Path := ["data", "custom_nodes"]
  const OutputMount: Path := ["data", "output"]

  /** One `link_directory(target, source)` call of the start-up loop. */
  datatype Job = Job(target: Path, source: Path)

  /** The three directories of a root that are linked, and where to. */
  const Subdirs: seq<Name> := ["models", "custom_nodes", "output"]
  const Mounts: seq<Path> := [ModelVolume, CustomNodeMount, OutputMount]

  /** The three calls made for one root. */
  function Links(root: Path): seq<Job> {
    [Job(root + ["models"], ModelVolume), Job(root + ["custom_nodes"], CustomNodeMount), Job(root + ["output"], OutputMount)]
  }

  /** The calls made for `roots`, root by root. */
  function Jobs(roots: seq<Path>): (r: seq<Job>)
    ensures |r| == 3 * |roots|
  {
    if roots == [] then [] else Jobs(roots[..|roots| - 1]) + Links(roots[|roots| - 1])
  }

  /** The candidates that exist in `m`, in the order given. */
  function Existing(m: Tree, cs: seq<Path>): (r: seq<Path>)
    ensures forall c :: c in r <==> c in cs && c in m
    ensures Distinct(cs) ==> Distinct(r)
  {
    if cs == [] then []
    else
      var rest := Existing(m, cs[..|cs| - 1]);
      var last := cs[|cs| - 1];
      assert forall c :: c in cs <==> c in cs[..|cs| - 1] || c == last;
      if last in m then rest + [last] else rest
  }

  /** `comfy_roots`: the existing candidates, or the first candidate alone
      when none exists. */
  function Roots(m: Tree): seq<Path> {
    var found := Existing(m, Candidates);
    if found == [] then [Candidates[0]] else found
  }

  /** Which candidates are chosen: the existing ones, or, when there are
      none, only the first. */
  lemma RootsChosen(m: Tree)
    ensures Roots(m) != [] && Distinct(Roots(m))
    ensures forall c :: c in Roots(m) <==>
      c in Candidates && (c in m || (c == Candidates[0] && forall d | d in Candidates :: d !in m))
  {
    var found := Existing(m, Candidates);
    assert Candidates[0] in Candidates;
    assert Candidates[0][1] != Candidates[1][1] && Candidates[0][1] != Candidates[2][1] && Candidates[1][1] != Candidates[2][1];
    if found == [] {
      forall d | d in Candidates ensures d !in m {
        assert d !in found;
      }
    } else {
      assert found[0] in found;
    }
  }

  // ---------------------------------------------------------------------
  // The calls of the loop

  /** The `i`-th call links subdirectory `i % 3` of root `i / 3`. */
  lemma {:induction false} JobAt(roots: seq<Path>, i: nat)
    requires i < |Jobs(roots)|
    ensures Jobs(roots)[i] == Job(roots[i / 3] + [Subdirs[i % 3]], Mounts[i % 3])
    decreases |roots|
  {
    var init := roots[..|roots| - 1];
    if i < |Jobs(init)| {
      JobAt(init, i);
    }
  }

  /** The candidates lie side by side: none is inside another. */
  lemma CandidatesDisjoint(a: Path, b: Path)
    requires a in Candidates && b in Candidates && a != b
    ensures Disjoint(a, b)
  {
    assert a[1] != b[1];
  }

  /** The calls of the loop, for roots among the candidates, link targets
      that lie apart, and no mount point is inside a target or holds one. */
  predicate Apart(jobs: seq<Job>) {
    && (forall i, j | 0 <= i < j < |jobs| :: Disjoint(jobs[i].target, jobs[j].target))
    && (forall i, j | 0 <= i < |jobs| && 0 <= j < |jobs| :: Disjoint(jobs[i].source, jobs[j].target))
  }

  predicate JobsSeparated(roots: seq<Path>) {
    forall j | j in Jobs(roots) :: Disjoint(j.source, j.target)
  }

  /** No call of the loop links a target inside its own mount point, or
      the other way round. */
  lemma JobsSeparate(roots: seq<Path>)
    requires forall r | r in roots :: r in Candidates
    ensures JobsSeparated(roots)
  {
    var jobs := Jobs(roots);
    forall j | j in jobs ensures Disjoint(j.source, j.target) {
      var i :| 0 <= i < |jobs| && jobs[i] == j;
      JobAt(roots, i);
      var tgt := roots[i / 3] + [Subdirs[i % 3]];
      assert roots[i / 3] in roots;
      assert tgt[0] == "root";
      assert j.source[0] == "models" || j.source[0] == "data";
    }
  }

  lemma JobsApart(roots: seq<Path>)
    requires Distinct(roots) && forall r | r in roots :: r in Candidates
    ensures Apart(Jobs(roots))
  {
    var jobs := Jobs(roots);
    forall i, j | 0 <= i < j < |jobs| ensures Disjoint(jobs[i].target, jobs[j].target) {
      JobAt(roots, i);
      JobAt(roots, j);
      if i / 3 == j / 3 {
        SiblingsDisjoint(roots[i / 3], Subdirs[i % 3], Subdirs[j % 3]);
      } else {
        CandidatesDisjoint(roots[i / 3], roots[j / 3]);
        DisjointEntries(roots[i / 3], roots[j / 3], Subdirs[i % 3], Subdirs[j % 3]);
      }
    }
    forall i, j | 0 <= i < |jobs| && 0 <= j < |jobs| ensures Disjoint(jobs[i].source, jobs[j].target) {
      JobAt(roots, i);
      JobAt(roots, j);
      var src := Mounts[i % 3];
      var tgt := roots[j / 3] + [Subdirs[j % 3]];
      assert roots[j / 3] in roots;
      assert tgt[0] == "root";
      assert src[0] == "models" || src[0] == "data";
    }
  }

  // ---------------------------------------------------------------------
  // The loop

  /** Where the start-up stands: the tree, whether an exception escaped,
      and what each `link_directory` call made so far returned. */
  datatype Started = Started(fs: Tree, ok: bool, outcomes: seq<Outcome>)

  /** One `link_directory` call on a tree, for a job, given the order its
      merge lists the target in. */
  type Step = (Tree, Job, seq<Name>) -> LinkResult

  /** The calls `jobs`, in order, until one raises: `step` makes one call
      given the tree and the order its merge lists the target in
      (`listings` holds those orders; missing ones are empty). */
  function Fold(m: Tree, jobs: seq<Job>, listings: seq<seq<Name>>, step: Step): Started
    decreases |jobs|
  {
    if jobs == [] then Started(m, true, [])
    else
      var r := step(m, jobs[0], if listings == [] then [] else listings[0]);
      if r.outcome == Raised then Started(r.fs, false, [Raised])
      else
        var rest := Fold(r.fs, jobs[1..], if listings == [] then [] else listings[1..], step);
        Started(rest.fs, rest.ok, [r.outcome] + rest.outcomes)
  }

  /** What the outcomes record: one per call made, all of them when none
      raised, and otherwise up to and including the one that raised. */
  lemma {:induction false} FoldOutcomes(m: Tree, jobs: seq<Job>, listings: seq<seq<Name>>, step: Step)
    ensures var r := Fold(m, jobs, listings, step);
      r.ok ==> |r.outcomes| == |jobs| && Raised !in r.outcomes
    ensures var r := Fold(m, jobs, listings, step);
      !r.ok ==> (0 < |r.outcomes| <= |jobs| && r.outcomes[|r.outcomes| - 1] == Raised
                 && Raised !in r.outcomes[..|r.outcomes| - 1])
    decreases |jobs|
  {
    if jobs != [] {
      var r := step(m, jobs[0], if listings == [] then [] else listings[0]);
      if r.outcome != Raised {
        var later := if listings == [] then [] else listings[1..];
        var rest := Fold(r.fs, jobs[1..], later, step);
        FoldOutcomes(r.fs, jobs[1..], later, step);
        assert Fold(m, jobs, listings, step) == Started(rest.fs, rest.ok, [r.outcome] + rest.outcomes);
        OutcomesCons(r.outcome, rest.outcomes);
      }
    }
  }

  /** An outcome other than `Raised` put in front keeps `Raised` out, or
      keeps it last. */
  lemma OutcomesCons(first: Outcome, later: seq<Outcome>)
    requires first != Raised
    ensures Raised !in later ==> Raised !in [first] + later
    ensures later != [] && later[|later| - 1] == Raised && Raised !in later[..|later| - 1] ==>
      var all := [first] + later; all[|all| - 1] == Raised && Raised !in all[..|all| - 1]
  {
    if later != [] {
      var all := [first] + later;
      assert all[..|all| - 1] == [first] + later[..|later| - 1];
    }
  }

  /** One `link_directory` call.  The calls of the loop all have their
      target apart from their source (`JobsSeparate`); any other job is
      answered with `Raised`, changing nothing, so that `Call` is total. */
  function Call(cmpFails: set<Name>): Step {
    (m: Tree, j: Job, l: seq<Name>) =>
      if Disjoint(j.source, j.target) then LinkRun(m, j.target, j.source, l, cmpFails) else LinkResult(m, Raised)
  }

  /** The calls `jobs` of the start-up loop. */
  function LinkAll(m: Tree, jobs: seq<Job>, listings: seq<seq<Name>>, cmpFails: set<Name>): Started
  {
    Fold(m, jobs, listings, Call(cmpFails))
  }

  /** `l` is an order in which `iterdir` can list the target of `j` in
      the tree `link_directory` meets once its two `mkdir` calls are done,
      whenever that target is a real directory there. */
  ghost predicate ListingFits(m: Tree, j: Job, l: seq<Name>) {
    var p := Prepared(m, j.target, j.source);
    p.ok && IsDirAt(p.fs, j.target) ==> IsListing(p.fs, j.target, l)
  }

  /** Listing `k` fits call `k` in the tree the calls before it left. */
  ghost predicate FitsAt(m: Tree, jobs: seq<Job>, listings: seq<seq<Name>>, step: Step, k: nat) {
    && k < |listings| && k < |jobs|
    && ListingFits(Fold(m, jobs[..k], listings[..k], step).fs, jobs[k], listings[k])
  }

  /** One listing per call made, each fitting its call in the tree that
      call meets. */
  ghost predicate RealListings(m: Tree, jobs: seq<Job>, listings: seq<seq<Name>>, step: Step) {
    |listings| <= |jobs| && forall k: nat | k < |listings| :: FitsAt(m, jobs, listings, step, k)
  }

  /** The calls for two lists of roots, one after the other. */
  lemma {:induction false} JobsAppend(a: seq<Path>, b: seq<Path>)
    ensures Jobs(a + b) == Jobs(a) + Jobs(b)
    decreases |b|
  {
    if b != [] {
      var init := b[..|b| - 1];
      assert (a + b)[..|a + b| - 1] == a + init;
      JobsAppend(a, init);
    } else {
      assert a + b == a;
    }
  }

  /** Once a call raises, the calls after it are never made. */
  lemma {:induction false} FoldStops(m: Tree, j1: seq<Job>, j2: seq<Job>, listings: seq<seq<Name>>, step: Step)
    requires !Fold(m, j1, listings, step).ok
    ensures Fold(m, j1 + j2, listings, step) == Fold(m, j1, listings, step)
    decreases |j1|
  {
    assert j1 != [];
    assert (j1 + j2)[0] == j1[0] && (j1 + j2)[1..] == j1[1..] + j2;
    var r := step(m, j1[0], if listings == [] then [] else listings[0]);
    if r.outcome != Raised {
      FoldStops(r.fs, j1[1..], j2, if listings == [] then [] else listings[1..], step);
    }
  }

  /** The calls `j1`, all returning, then the calls `j2`. */
  lemma {:induction false} FoldThen(m: Tree, j1: seq<Job>, j2: seq<Job>, l1: seq<seq<Name>>, l2: seq<seq<Name>>, step: Step)
    requires |l1| == |j1| && Fold(m, j1, l1, step).ok
    ensures var a := Fold(m, j1, l1, step);
      var b := Fold(a.fs, j2, l2, step);
      Fold(m, j1 + j2, l1 + l2, step) == Started(b.fs, b.ok, a.outcomes + b.outcomes)
    decreases |j1|
  {
    if j1 == [] {
      assert j1 + j2 == j2 && l1 + l2 == l2;
    } else {
      var js, ls := j1 + j2, l1 + l2;
      assert js[0] == j1[0] && js[1..] == j1[1..] + j2;
      assert ls[0] == l1[0] && ls[1..] == l1[1..] + l2;
      var r := step(m, j1[0], l1[0]);
      var a' := Fold(r.fs, j1[1..], l1[1..], step);
      FoldCons(m, j1, l1, step);
      FoldCons(m, js, ls, step);
      FoldThen(r.fs, j1[1..], j2, l1[1..], l2, step);
      ConcatAssoc([r.outcome], a'.outcomes, Fold(a'.fs, j2, l2, step).outcomes);
    }
  }

  /** One call, then the rest, when both lists are non-empty. */
  lemma FoldCons(m: Tree, jobs: seq<Job>, listings: seq<seq<Name>>, step: Step)
    requires jobs != [] && listings != []
    ensures var r := step(m, jobs[0], listings[0]);
      r.outcome == Raised ==> Fold(m, jobs, listings, step) == Started(r.fs, false, [Raised])
    ensures var r := step(m, jobs[0], listings[0]);
      var rest := Fold(r.fs, jobs[1..], listings[1..], step);
      r.outcome != Raised ==> Fold(m, jobs, listings, step) == Started(rest.fs, rest.ok, [r.outcome] + rest.outcomes)
  {
  }

  /** The listings of calls `j1`, all returning, and of calls `j2`,
      together. */
  lemma RealListingsThen(m: Tree, j1: seq<Job>, j2: seq<Job>, l1: seq<seq<Name>>, l2: seq<seq<Name>>, step: Step)
    requires |l1| == |j1| && Fold(m, j1, l1, step).ok
    requires RealListings(m, j1, l1, step)
    requires RealListings(Fold(m, j1, l1, step).fs, j2, l2, step)
    ensures RealListings(m, j1 + j2, l1 + l2, step)
  {
    forall k: nat | k < |l1 + l2| ensures FitsAt(m, j1 + j2, l1 + l2, step, k) {
      if k < |l1| {
        FitsBefore(m, j1, j2, l1, l2, step, k);
      } else {
        FitsAfter(m, j1, j2, l1, l2, step, k);
      }
    }
  }

  /** A listing of the first calls still fits among more calls. */
  lemma FitsBefore(m: Tree, j1: seq<Job>, j2: seq<Job>, l1: seq<seq<Name>>, l2: seq<seq<Name>>, step: Step, k: nat)
    requires RealListings(m, j1, l1, step) && k < |l1|
    ensures FitsAt(m, j1 + j2, l1 + l2, step, k)
  {
    assert FitsAt(m, j1, l1, step, k);
    var js, ls := j1 + j2, l1 + l2;
    assert js[..k] == j1[..k] && ls[..k] == l1[..k];
    assert js[k] == j1[k] && ls[k] == l1[k];
  }

  /** A listing of the later calls fits, shifted past the first ones. */
  lemma FitsAfter(m: Tree, j1: seq<Job>, j2: seq<Job>, l1: seq<seq<Name>>, l2: seq<seq<Name>>, step: Step, k: nat)
    requires |l1| == |j1| && Fold(m, j1, l1, step).ok
    requires RealListings(Fold(m, j1, l1, step).fs, j2, l2, step) && |l1| <= k < |l1| + |l2|
    ensures FitsAt(m, j1 + j2, l1 + l2, step, k)
  {
    var k' := k - |l1|;
    assert FitsAt(Fold(m, j1, l1, step).fs, j2, l2, step, k');
    var js, ls := j1 + j2, l1 + l2;
    assert js[..k] == j1 + j2[..k'] && ls[..k] == l1 + l2[..k'];
    assert js[k] == j2[k'] && ls[k] == l2[k'];
    FoldThen(m, j1, j2[..k'], l1, l2[..k'], step);
  }

  /** Listings that fit the first calls fit them among more calls. */
  lemma RealListingsPrefix(m: Tree, j1: seq<Job>, j2: seq<Job>, l: seq<seq<Name>>, step: Step)
    requires RealListings(m, j1, l, step)
    ensures RealListings(m, j1 + j2, l, step)
  {
    forall k: nat | k < |l| ensures FitsAt(m, j1 + j2, l, step, k) {
      assert FitsAt(m, j1, l, step, k);
      assert (j1 + j2)[..k] == j1[..k] && (j1 + j2)[k] == j1[k];
    }
  }

  /** One call whose listing fits. */
  lemma RealListingsOne(m: Tree, j: Job, l: seq<Name>, step: Step)
    requires ListingFits(m, j, l)
    ensures RealListings(m, [j], [l], step)
  {
    assert [j][..0] == [] && [l][..0] == [];
    assert FitsAt(m, [j], [l], step, 0);
  }

  /** Outcome `i` is what call `i` returns in the tree the calls before it
      left. */
  lemma {:induction false} FoldAt(m: Tree, jobs: seq<Job>, listings: seq<seq<Name>>, step: Step, i: nat)
    requires i < |Fold(m, jobs, listings, step).outcomes| && i < |listings|
    ensures i < |jobs|
    ensures Fold(m, jobs, listings, step).outcomes[i]
      == step(Fold(m, jobs[..i], listings[..i], step).fs, jobs[i], listings[i]).outcome
    decreases i
  {
    assert jobs != [];
    var r0 := step(m, jobs[0], listings[0]);
    if i == 0 {
      assert jobs[..0] == [] && listings[..0] == [];
    } else {
      assert r0.outcome != Raised;
      var rest := Fold(r0.fs, jobs[1..], listings[1..], step);
      assert Fold(m, jobs, listings, step).outcomes == [r0.outcome] + rest.outcomes;
      FoldAt(r0.fs, jobs[1..], listings[1..], step, i - 1);
      var pj, pl := jobs[..i], listings[..i];
      assert pj[0] == jobs[0] && pl[0] == listings[0];
      assert pj[1..] == jobs[1..][..i - 1] && pl[1..] == listings[1..][..i - 1];
    }
  }

  /** With listings `iterdir` can give, a call declines only for a
      target that, after its `mkdir` calls, is neither a directory nor a
      link: the merge of a real directory always empties it, so the
      "could not empty" branch is never taken during the start-up. */
  lemma DeclinedOnlyForFiles(m: Tree, jobs: seq<Job>, listings: seq<seq<Name>>, cmpFails: set<Name>)
    requires RealListings(m, jobs, listings, Call(cmpFails))
    requires forall j | j in jobs :: Disjoint(j.source, j.target)
    ensures var r := LinkAll(m, jobs, listings, cmpFails);
      forall i | 0 <= i < |r.outcomes| && i < |listings| ::
        var p := Prepared(Fold(m, jobs[..i], listings[..i], Call(cmpFails)).fs, jobs[i].target, jobs[i].source);
        r.outcomes[i] == Declined <==>
          p.ok && jobs[i].target in p.fs && !IsDirAt(p.fs, jobs[i].target) && !IsLinkAt(p.fs, jobs[i].target)
  {
    var step := Call(cmpFails);
    var r := Fold(m, jobs, listings, step);
    forall i | 0 <= i < |r.outcomes| && i < |listings|
      ensures var p := Prepared(Fold(m, jobs[..i], listings[..i], step).fs, jobs[i].target, jobs[i].source);
        r.outcomes[i] == Declined <==>
          p.ok && jobs[i].target in p.fs && !IsDirAt(p.fs, jobs[i].target) && !IsLinkAt(p.fs, jobs[i].target)
    {
      FoldAt(m, jobs, listings, step, i);
      assert FitsAt(m, jobs, listings, step, i);
      var before := Fold(m, jobs[..i], listings[..i], step).fs;
      assert jobs[i] in jobs;
      LinkOutcome(before, jobs[i].target, jobs[i].source, listings[i], cmpFails);
    }
  }

  /** The three `mkdir(parents=True, exist_ok=True)` calls for the mount
      points. */
  function Mounted(m: Tree): Run {
    var a := MkdirParents(m, CustomNodeMount);
    if !a.ok then a
    else
      var b := MkdirParents(a.fs, OutputMount);
      if !b.ok then b else MkdirParents(b.fs, ModelVolume)
  }

  /** `ui()` up to launching ComfyUI: the three mount points, the roots,
      then the calls, stopping at the first exception. */
  function UiRun(m: Tree, listings: seq<seq<Name>>, cmpFails: set<Name>): Started {
    var c := Mounted(m);
    if !c.ok then Started(c.fs, false, [])
    else
      var roots := Roots(c.fs);
      RootsChosen(c.fs);
      JobsSeparate(roots);
      LinkAll(c.fs, Jobs(roots), listings, cmpFails)
  }

  /** The list comprehension and the fallback that build `comfy_roots`. */
  method ComfyRoots(fs: FileSystem) returns (roots: seq<Path>)
    ensures roots == Roots(fs.nodes)
  {
    roots := [];
    for i := 0 to |Candidates|
      invariant roots == Existing(fs.nodes, Candidates[..i])
    {
      assert Candidates[..i + 1][..i] == Candidates[..i];
      if fs.Exists(Candidates[i]) {
        roots := roots + [Candidates[i]];
      }
    }
    assert Candidates[..|Candidates|] == Candidates;
    if roots == [] {
      roots := roots + [Candidates[0]];
    }
  }

  /** One more call after `k` calls that all returned. */
  lemma FoldStep(m: Tree, jobs: seq<Job>, k: nat, listings: seq<seq<Name>>, outcomes: seq<Outcome>,
                 before: Tree, l: seq<Name>, step: Step)
    requires k < |jobs| && |listings| == k
    requires Fold(m, jobs[..k], listings, step) == Started(before, true, outcomes)
    ensures var r := step(before, jobs[k], l);
      r.outcome != Raised ==> Fold(m, jobs[..k + 1], listings + [l], step) == Started(r.fs, true, outcomes + [r.outcome])
    ensures var r := step(before, jobs[k], l);
      r.outcome == Raised ==> Fold(m, jobs, listings + [l], step) == Started(r.fs, false, outcomes + [Raised])
  {
    assert forall j | j in jobs[..k] + jobs[k..] :: j in jobs by {
      assert jobs[..k] + jobs[k..] == jobs;
    }
    assert jobs[..k + 1] == jobs[..k] + [jobs[k]];
    assert jobs[k..] == [jobs[k]] + jobs[k + 1..];
    assert forall j | j in [jobs[k]] :: j in jobs;
    FoldThen(m, jobs[..k], [jobs[k]], listings, [l], step);
    var r := step(before, jobs[k], l);
    if r.outcome == Raised {
      FoldThen(m, jobs[..k], jobs[k..], listings, [l], step);
      assert jobs[..k] + jobs[k..] == jobs;
    }
  }

  /** The listing of call `k`, after `k` calls that all returned, fits:
      the listings fit the first `k + 1` calls, and so all the calls. */
  lemma JobListing(m: Tree, jobs: seq<Job>, k: nat, listings: seq<seq<Name>>, before: Tree, l: seq<Name>,
                   step: Step)
    requires k < |jobs| && |listings| == k
    requires Fold(m, jobs[..k], listings, step) == Started(before, true, Fold(m, jobs[..k], listings, step).outcomes)
    requires RealListings(m, jobs[..k], listings, step) && ListingFits(before, jobs[k], l)
    ensures RealListings(m, jobs[..k + 1], listings + [l], step)
    ensures RealListings(m, jobs, listings + [l], step)
  {
    RealListingsOne(before, jobs[k], l, step);
    RealListingsThen(m, jobs[..k], [jobs[k]], listings, [l], step);
    assert jobs[..k] + [jobs[k]] == jobs[..k + 1];
    RealListingsPrefix(m, jobs[..k + 1], jobs[k + 1..], listings + [l], step);
    assert jobs[..k + 1] + jobs[k + 1..] == jobs;
  }

  /** Calls `link_directory(j.target, j.source)` for each `j` of `jobs`,
      stopping when one raises. */
  method LinkJobs(fs: FileSystem, jobs: seq<Job>, cmpFails: set<Name>)
    returns (ok: bool, outcomes: seq<Outcome>, listings: seq<seq<Name>>)
    requires fs.Valid() && forall j | j in jobs :: Disjoint(j.source, j.target)
    modifies fs
    ensures fs.Valid()
    ensures ok ==> |listings| == |jobs|
    ensures |listings| == |outcomes|
    ensures Started(fs.nodes, ok, outcomes) == LinkAll(old(fs.nodes), jobs, listings, cmpFails)
    ensures RealListings(old(fs.nodes), jobs, listings, Call(cmpFails))
  {
    ghost var m0 := fs.nodes;
    outcomes, listings := [], [];
    for k := 0 to |jobs|
      invariant fs.Valid()
      invariant |listings| == k && |outcomes| == k
      invariant LinkAll(m0, jobs[..k], listings, cmpFails) == Started(fs.nodes, true, outcomes)
      invariant RealListings(m0, jobs[..k], listings, Call(cmpFails))
    {
      assert jobs[k] in jobs;
      ghost var before := fs.nodes;
      var o, l := LinkDirectory(fs, jobs[k].target, jobs[k].source, cmpFails);
      assert Call(cmpFails)(before, jobs[k], l) == LinkResult(fs.nodes, o);
      FoldStep(m0, jobs, k, listings, outcomes, before, l, Call(cmpFails));
      JobListing(m0, jobs, k, listings, before, l, Call(cmpFails));
      outcomes, listings := outcomes + [o], listings + [l];
      if o == Raised {
        return false, outcomes, listings;
      }
    }
    assert jobs[..|jobs|] == jobs;
    ok := true;
  }

  /** The calls for the first `i + 1` roots: those for the first `i`,
      then those of root `i`. */
  lemma JobsSnoc(roots: seq<Path>, i: nat)
    requires i < |roots|
    ensures Jobs(roots[..i + 1]) == Jobs(roots[..i]) + Links(roots[i])
  {
    var init := roots[..i + 1];
    assert init[..|init| - 1] == roots[..i];
  }

  /** All the calls: those for the first `i` roots, those of root `i`, and
      those for the rest. */
  lemma JobsSplit(roots: seq<Path>, i: nat)
    requires i < |roots|
    ensures Jobs(roots) == Jobs(roots[..i]) + (Links(roots[i]) + Jobs(roots[i + 1..]))
  {
    var left, right := roots[..i + 1], roots[i + 1..];
    var a, l, r := Jobs(roots[..i]), Links(roots[i]), Jobs(right);
    assert Jobs(roots) == Jobs(left) + r by {
      assert left + right == roots;
      JobsAppend(left, right);
    }
    assert Jobs(left) == a + l by {
      JobsSnoc(roots, i);
    }
    ConcatAssoc(a, l, r);
  }

  /** Concatenation regroups (stated apart so that the solver meets it
      without the facts about `Jobs` around). */
  lemma ConcatAssoc<T>(a: seq<T>, b: seq<T>, c: seq<T>)
    ensures (a + b) + c == a + (b + c)
  {
  }

  /** One more root after `i` roots whose calls all returned. */
  lemma RootStep(m: Tree, roots: seq<Path>, i: nat, listings: seq<seq<Name>>, outcomes: seq<Outcome>,
                 before: Tree, ls: seq<seq<Name>>, more: seq<Outcome>, after: Tree, done: bool,
                 step: Step)
    requires i < |roots| && |listings| == 3 * i
    requires Fold(m, Jobs(roots[..i]), listings, step) == Started(before, true, outcomes)
    requires Fold(before, Links(roots[i]), ls, step) == Started(after, done, more)
    requires done ==> |ls| == 3
    ensures done ==> Fold(m, Jobs(roots[..i + 1]), listings + ls, step) == Started(after, true, outcomes + more)
    ensures !done ==> Fold(m, Jobs(roots), listings + ls, step) == Started(after, false, outcomes + more)
  {
    JobsSplit(roots, i);
    JobsSnoc(roots, i);
    var prefix := Jobs(roots[..i]);
    var rest := Jobs(roots[i + 1..]);
    if done {
      FoldThen(m, prefix, Links(roots[i]), listings, ls, step);
    } else {
      FoldThen(m, prefix, Links(roots[i]) + rest, listings, ls, step);
      FoldStops(before, Links(roots[i]), rest, ls, step);
    }
  }

  /** The listings of the first `i` roots' calls, all returning, and of
      root `i`'s calls: together they fit the first `i + 1` roots' calls,
      or all the calls when one of root `i`'s raised. */
  lemma RootListings(m: Tree, roots: seq<Path>, i: nat, listings: seq<seq<Name>>, ls: seq<seq<Name>>,
                     done: bool, step: Step)
    requires i < |roots| && |listings| == 3 * i
    requires Fold(m, Jobs(roots[..i]), listings, step).ok
    requires RealListings(m, Jobs(roots[..i]), listings, step)
    requires RealListings(Fold(m, Jobs(roots[..i]), listings, step).fs, Links(roots[i]), ls, step)
    ensures done ==> RealListings(m, Jobs(roots[..i + 1]), listings + ls, step)
    ensures RealListings(m, Jobs(roots), listings + ls, step)
  {
    var a, l, r := Jobs(roots[..i]), Links(roots[i]), Jobs(roots[i + 1..]);
    RealListingsThen(m, a, l, listings, ls, step);
    JobsSnoc(roots, i);
    RealListingsPrefix(m, a + l, r, listings + ls, step);
    JobsSplit(roots, i);
    ConcatAssoc(a, l, r);
  }

  /** The loop `for comfy_root in comfy_roots`, with the three calls of
      each root. */
  method LinkRoots(fs: FileSystem, roots: seq<Path>, cmpFails: set<Name>)
    returns (ok: bool, outcomes: seq<Outcome>, listings: seq<seq<Name>>)
    requires fs.Valid() && forall r | r in roots :: r in Candidates
    modifies fs
    ensures fs.Valid()
    ensures JobsSeparated(roots) && Started(fs.nodes, ok, outcomes) == LinkAll(old(fs.nodes), Jobs(roots), listings, cmpFails)
    ensures |listings| == |outcomes| && RealListings(old(fs.nodes), Jobs(roots), listings, Call(cmpFails))
  {
    ghost var m0 := fs.nodes;
    JobsSeparate(roots);
    forall k | 0 <= k <= |roots| ensures JobsSeparated(roots[..k]) {
      JobsSeparate(roots[..k]);
    }
    outcomes, listings := [], [];
    for i := 0 to |roots|
      invariant fs.Valid()
      invariant |listings| == 3 * i && |outcomes| == |listings|
      invariant LinkAll(m0, Jobs(roots[..i]), listings, cmpFails) == Started(fs.nodes, true, outcomes)
      invariant RealListings(m0, Jobs(roots[..i]), listings, Call(cmpFails))
    {
      assert roots[i] in roots;
      JobsSeparate([roots[i]]);
      assert Jobs([roots[i]]) == Links(roots[i]);
      ghost var before := fs.nodes;
      var done, more, ls := LinkJobs(fs, Links(roots[i]), cmpFails);
      RootStep(m0, roots, i, listings, outcomes, before, ls, more, fs.nodes, done, Call(cmpFails));
      RootListings(m0, roots, i, listings, ls, done, Call(cmpFails));
      outcomes, listings := outcomes + more, listings + ls;
      if !done {
        return false, outcomes, listings;
      }
    }
    assert roots[..|roots|] == roots;
    ok := true;
  }

  /** The listings of the start-up's calls fit them, once the mount
      points are made. */
  ghost predicate UiListings(m: Tree, listings: seq<seq<Name>>, cmpFails: set<Name>) {
    var c := Mounted(m);
    c.ok ==> RealListings(c.fs, Jobs(Roots(c.fs)), listings, Call(cmpFails))
  }

  /** `ui()`: creates the mount points, chooses the roots and links their
      directories; `ok` is false where an exception escapes, `outcomes`
      holds what each call returned, and `listings` the orders its merges
      listed the targets in. */
  method Ui(fs: FileSystem, cmpFails: set<Name>)
    returns (ok: bool, outcomes: seq<Outcome>, listings: seq<seq<Name>>)
    requires fs.Valid()
    modifies fs
    ensures fs.Valid()
    ensures Started(fs.nodes, ok, outcomes) == UiRun(old(fs.nodes), listings, cmpFails)
    ensures |listings| == |outcomes| && UiListings(old(fs.nodes), listings, cmpFails)
  {
    outcomes, listings := [], [];
    ok := fs.Mkdir(CustomNodeMount);
    if !ok {
      return;
    }
    ok := fs.Mkdir(OutputMount);
    if !ok {
      return;
    }
    ok := fs.Mkdir(ModelVolume);
    if !ok {
      return;
    }
    var roots := ComfyRoots(fs);
    RootsChosen(fs.nodes);
    ok, outcomes, listings := LinkRoots(fs, roots, cmpFails);
  }

  // ---------------------------------------------------------------------
  // What the start-up leaves behind

  /** Each call changes nothing that lies apart from its target and its
      source. */
  ghost predicate Confined(step: Step) {
    forall t: Tree, j: Job, l: seq<Name>, k: Path | k in t && Disjoint(j.target, k) && Disjoint(j.source, k) ::
      k in step(t, j, l).fs && step(t, j, l).fs[k] == t[k]
  }

  /** Each call that returns `True` leaves its target a link to its
      source. */
  ghost predicate LinksOnSuccess(step: Step) {
    forall t: Tree, j: Job, l: seq<Name> | step(t, j, l).outcome == Linked ::
      j.target in step(t, j, l).fs && step(t, j, l).fs[j.target] == Symlink(j.source)
  }

  /** `link_directory` has both properties. */
  lemma CallConfined(cmpFails: set<Name>)
    ensures Confined(Call(cmpFails)) && LinksOnSuccess(Call(cmpFails))
  {
    var step := Call(cmpFails);
    forall t: Tree, j: Job, l: seq<Name>, k: Path | k in t && Disjoint(j.target, k) && Disjoint(j.source, k) && Disjoint(j.source, j.target)
      ensures k in step(t, j, l).fs && step(t, j, l).fs[k] == t[k]
    {
      LinkFrame(t, j.target, j.source, l, cmpFails);
    }
    forall t: Tree, j: Job, l: seq<Name> | step(t, j, l).outcome == Linked && Disjoint(j.source, j.target)
      ensures j.target in step(t, j, l).fs && step(t, j, l).fs[j.target] == Symlink(j.source)
    {
      LinkedPointsAtSource(t, j.target, j.source, l, cmpFails);
    }
  }

  /** Calls that are confined keep every entry that lies apart from all
      their targets and sources. */
  lemma {:induction false} FoldFrame(m: Tree, jobs: seq<Job>, listings: seq<seq<Name>>, step: Step)
    requires Confined(step)
    ensures forall k | k in m && (forall j | j in jobs :: Disjoint(j.target, k) && Disjoint(j.source, k)) ::
      k in Fold(m, jobs, listings, step).fs && Fold(m, jobs, listings, step).fs[k] == m[k]
    decreases |jobs|
  {
    if jobs != [] {
      assert forall j | j in jobs[1..] :: j in jobs;
      var r := step(m, jobs[0], if listings == [] then [] else listings[0]);
      if r.outcome != Raised {
        FoldFrame(r.fs, jobs[1..], if listings == [] then [] else listings[1..], step);
      }
    }
  }

  /** The calls after the first of a list that lies apart lie apart. */
  lemma ApartTail(jobs: seq<Job>)
    requires jobs != [] && Apart(jobs)
    ensures Apart(jobs[1..])
    ensures forall j | j in jobs[1..] :: Disjoint(j.target, jobs[0].target) && Disjoint(j.source, jobs[0].target)
  {
    forall j | j in jobs[1..] ensures Disjoint(j.target, jobs[0].target) && Disjoint(j.source, jobs[0].target) {
      var x :| 0 <= x < |jobs[1..]| && jobs[1..][x] == j;
      assert jobs[x + 1] == j;
    }
  }

  /** Calls whose targets lie apart: every call that returned `True`
      still finds its target a link to its source once the calls are
      over, whatever the later calls did. */
  lemma {:induction false} FoldLinked(m: Tree, jobs: seq<Job>, listings: seq<seq<Name>>, step: Step)
    requires Confined(step) && LinksOnSuccess(step) && Apart(jobs)
    ensures var r := Fold(m, jobs, listings, step);
      forall i | 0 <= i < |r.outcomes| && i < |jobs| && r.outcomes[i] == Linked ::
        jobs[i].target in r.fs && r.fs[jobs[i].target] == Symlink(jobs[i].source)
    decreases |jobs|
  {
    if jobs != [] {
      ApartTail(jobs);
      var l0, ls := if listings == [] then [] else listings[0], if listings == [] then [] else listings[1..];
      var r0 := step(m, jobs[0], l0);
      if r0.outcome != Raised {
        var rest := Fold(r0.fs, jobs[1..], ls, step);
        assert Fold(m, jobs, listings, step) == Started(rest.fs, rest.ok, [r0.outcome] + rest.outcomes);
        FoldLinked(r0.fs, jobs[1..], ls, step);
        if r0.outcome == Linked {
          assert jobs[0] in jobs;
          FoldFrame(r0.fs, jobs[1..], ls, step);
        }
        LinkedCons(jobs, r0.outcome, rest.outcomes, rest.fs);
      }
    }
  }

  /** The links of the first call and of the later ones, together. */
  lemma LinkedCons(jobs: seq<Job>, first: Outcome, later: seq<Outcome>, fs: Tree)
    requires jobs != []
    requires first == Linked ==> jobs[0].target in fs && fs[jobs[0].target] == Symlink(jobs[0].source)
    requires forall i | 0 <= i < |later| && i < |jobs[1..]| && later[i] == Linked ::
      jobs[1..][i].target in fs && fs[jobs[1..][i].target] == Symlink(jobs[1..][i].source)
    ensures var all := [first] + later;
      forall i | 0 <= i < |all| && i < |jobs| && all[i] == Linked ::
        jobs[i].target in fs && fs[jobs[i].target] == Symlink(jobs[i].source)
  {
    var all := [first] + later;
    forall i | 0 <= i < |all| && i < |jobs| && all[i] == Linked
      ensures jobs[i].target in fs && fs[jobs[i].target] == Symlink(jobs[i].source)
    {
      if i > 0 {
        assert jobs[1..][i - 1] == jobs[i];
        assert all[i] == later[i - 1];
      }
    }
  }

  /** After the start-up, every `link_directory` call that returned
      `True` has left subdirectory `i % 3` of root `i / 3` a link to its
      mount point, even where later calls ran merges and made links. */
  lemma StartupLinks(m: Tree, listings: seq<seq<Name>>, cmpFails: set<Name>)
    ensures var c := Mounted(m); var r := UiRun(m, listings, cmpFails);
      c.ok ==> |r.outcomes| <= 3 * |Roots(c.fs)|
    ensures var c := Mounted(m); var r := UiRun(m, listings, cmpFails);
      c.ok ==> forall i | 0 <= i < |r.outcomes| && r.outcomes[i] == Linked ::
        && Roots(c.fs)[i / 3] + [Subdirs[i % 3]] in r.fs
        && r.fs[Roots(c.fs)[i / 3] + [Subdirs[i % 3]]] == Symlink(Mounts[i % 3])
  {
    var c := Mounted(m);
    if c.ok {
      var roots := Roots(c.fs);
      var jobs := Jobs(roots);
      RootsChosen(c.fs);
      JobsSeparate(roots);
      JobsApart(roots);
      CallConfined(cmpFails);
      FoldOutcomes(c.fs, jobs, listings, Call(cmpFails));
      FoldLinked(c.fs, jobs, listings, Call(cmpFails));
      forall i | 0 <= i < |jobs| ensures jobs[i] == Job(roots[i / 3] + [Subdirs[i % 3]], Mounts[i % 3]) {
        JobAt(roots, i);
      }
    }
  }
}
