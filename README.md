# modal-comfyui, modelled in Dafny

This project models the parts of modal-comfyui that carry real logic. The
system runs ComfyUI on Modal. The ComfyUI installation lives in an ephemeral
container, while models, custom nodes and outputs live on persistent volumes.

- **Start-up reconciliation** (`comfyapp.py`, `ui()`): the three mount points
  are created and the ComfyUI roots chosen. Then, for each root, the
  `models`, `custom_nodes` and `output` directories are turned into symbolic
  links to the volumes with `link_directory`. A real directory found there
  is first folded into the volume by `_merge_directory_contents`: moved, overlaid,
  dropped as a byte-identical duplicate, or renamed aside with `.conflict` /
  `.dir_conflict`.
- **The model-download job** (`preserve_model.py` and its older version
  `preserve-model.py`): the arguments are checked and the destination
  `/models/<subdir>/<base name>` is resolved against a whitelist of ComfyUI
  model folders. The file is then downloaded from the Hugging Face hub and
  copied there.
- **The download GUI** (`preserve_model_gui.py`): parsing of what the user
  typed (a hub URL, `repo::file` or `repo file`), detection of the
  subdirectory, the choice of revision and subdirectory, and the
  `PRESERVE_MODEL_USE_DEPLOYED` switch.

The file system is a finite map from paths (sequences of names) to nodes:
directory, file with contents, or symbolic link with its destination
(`FileTree`). Each `os`/`shutil`/`pathlib` call is a total function that
returns the new tree and whether the call raised (`PosixOps`). The class
`FileSystem` holds the tree as a mutable field; its methods are proved
equal to those functions. The merge, the link and the start-up loop are
methods on a `FileSystem`, proved equal to specification functions
(`MergeRun`, `LinkRun`, `UiRun`); the properties are proved about those
functions. The download job and the GUI are pure code and are modelled as
functions.

What is proved, in short:
- A merge over a snapshot of the target raises exactly when some
  directory overlay would lay a directory over a file, or would send a
  file into a directory of the source that already holds a directory
  under that file's name. `copytree` copies a file that meets a directory
  into that directory under its own name, as `copy2` does.
- Otherwise every entry of the target is found in the source under its
  landing name (its own name or its tagged name), and every other entry of
  the source is unchanged. This assumes the tagged names are fresh.
- A merge that returns leaves the target an empty directory. The warning
  "could not empty the target" (`comfyapp.py:114-118`) can therefore never
  be given, and during the whole start-up a call declines only for a
  target that is a file.
- `link_directory` declines only for a target that is neither a directory
  nor a link. It touches nothing outside the target and the source. It is
  idempotent. After the whole start-up, every call that returned `True`
  still has its link in place.
- The GUI detects the subdirectory exactly when the job would. A dropdown
  choice is never rejected by the job. The URL check for a missing
  repository (`preserve_model_gui.py:212-213`) can never fire. The URL,
  `repo::file` and `repo words...` forms round-trip.
- The two versions of the download job resolve the same destination
  except where `audio_encoders` is involved.

Where the design description of the reconciliation and the code disagree,
the model follows the code:
- The description promises that no file is ever overwritten. But the
  directory-onto-directory branch calls `copytree(..., dirs_exist_ok=True)`
  (`comfyapp.py:75`). That replaces a source file with the target's file at
  the same relative path. `MergeLanding.Landed` states this: the source's
  entry with the target's entry laid over it (`PosixOps.Copied`).
- The description compares a link's resolved destination with the source.
  The code compares the raw text of `os.readlink` (`comfyapp.py:105-106`),
  and so does `Link.LinkRun`.

## Model

| member | source | states |
|---|---|---|
| FileSystemModel.FileSystem.IterDir | comfyapp.py:69 | `iterdir` raises exactly when the path is not a directory; otherwise it lists each child exactly once |
| FileSystemModel.FileSystem.Mkdir | comfyapp.py:57-59 | `mkdir(parents=True, exist_ok=True)` has the effect of `MkdirParents`: missing ancestors are created; it raises on a non-directory; the tree stays well formed |
| FileSystemModel.FileSystem.Move | comfyapp.py:79-81 | `shutil.move` has the effect of `PosixOps.Move` and keeps the tree well formed |
| FileSystemModel.FileSystem.Unlink | comfyapp.py:91 | `unlink` removes a file or link and never a directory |
| FileSystemModel.FileSystem.Rmdir | comfyapp.py:119 | `rmdir` removes only an empty directory |
| FileSystemModel.FileSystem.RmTree | comfyapp.py:76 | `rmtree` removes a directory with everything below it |
| FileSystemModel.FileSystem.SymlinkTo | comfyapp.py:128 | `symlink_to` creates a link at a fresh path inside an existing directory |
| FileSystemModel.FileSystem.CopyTree | comfyapp.py:75 | `copytree(dirs_exist_ok=True)` has the effect of `PosixOps.CopyTree`: it overlays the copied tree, or raises when a directory would go over a file or a redirected file over a directory, changing nothing then |
| FileSystemModel.FileSystem.FileCmp | comfyapp.py:85-89 | `filecmp.cmp(shallow=False)` reports equal exactly for two files with the same contents; an `OSError` gives no answer |
| PosixOps.MkdirParents | comfyapp.py:101-102 | on success the path is a directory; on failure nothing changes; existing entries are kept and only ancestors of the path are added |
| PosixOps.FileCmp | comfyapp.py:85-87 | the comparison is true exactly when both paths are files with equal bytes |
| PosixOps.MoveFrame | comfyapp.py:81 | a move changes nothing outside its source and destination and leaves nothing at the source |
| PosixOps.UnlinkFrame | comfyapp.py:91 | unlinking changes only the one path |
| PosixOps.RmTreeFrame | comfyapp.py:76 | `rmtree` changes nothing outside the removed tree |
| PosixOps.CopiedAt | comfyapp.py:75 | each copied entry lands at its own relative path, except a file or link that meets a directory, which lands inside it under its own name |
| PosixOps.CopyTreeFrame | comfyapp.py:75 | `copytree` changes nothing outside its destination |
| PosixOps.MoveWellFormed | comfyapp.py:79-81 | a move keeps every entry's parent a directory |
| Paths.WithSuffixRoundTrip | comfyapp.py:78 | `with_suffix(".dir_conflict")` (or `".conflict"`) gives a name whose suffix is the tag and whose stem is the original stem |
| Paths.WithSuffixFixed | comfyapp.py:93 | a name is its own conflict name exactly when it already carries the tag |
| Merge.MergeItem | comfyapp.py:70-96 | one iteration of the merge loop has exactly the effect of `MergeEntry`, every branch included |
| Merge.MergeDirectoryContents | comfyapp.py:66-96 | the merge lists the target once and has exactly the effect of `MergeRun` over that listing, stopping at the first exception |
| MergeProofs.EntryFrame | comfyapp.py:70-96 | one entry's merge changes nothing outside that entry and the inside of the source, and removes the entry from the target on success |
| MergeProofs.MergeAllFrame | comfyapp.py:69-96 | the whole merge changes nothing outside the insides of source and target, and a merge that returns removes every listed entry from the target |
| MergeProofs.MergeEmptiesTarget | comfyapp.py:113-118 | after a merge that returns, the target is an empty directory, so the "could not empty" warning is unreachable |
| MergeLanding.LandingInjective | comfyapp.py:78-94 | with fresh conflict names, different entries land under different names |
| MergeLanding.MergeLands | comfyapp.py:66-96 | the merge raises exactly when some overlay clashes (a directory over a file, or a file sent into a directory over a directory); otherwise each entry's tree is in the source under its landing name (moved, overlaid, dropped or renamed aside) and every other source entry is unchanged |
| Link.LinkDirectory | comfyapp.py:98-129 | `link_directory` has exactly the effect and result of `LinkRun`, with the merge's listing reported |
| Link.PreparedFacts | comfyapp.py:101-102 | the two `mkdir` calls keep every entry and, when they return, leave source and target parent directories |
| Link.LinkOutcome | comfyapp.py:98-129 | the call raises exactly when a `mkdir` or the merge raises; it returns `False` exactly for an existing target that is neither a directory nor a link |
| Link.LinkedPointsAtSource | comfyapp.py:104-129 | a call returning `True` leaves the target a link to the source and the source a directory |
| Link.LinkIdempotent | comfyapp.py:104-109 | calling again after a successful call changes nothing and returns `True` |
| Link.LinkFrame | comfyapp.py:98-129 | the call changes nothing outside the target and the inside of the source, apart from the directories `mkdir` creates |
| Link.LinkKeepsData | comfyapp.py:111-121 | linking a real directory returns `True` exactly when no overlay clashes (a directory over a file, or a file sent into a directory over a directory), and then every entry of the target is in the source under its landing name and the rest of the source is unchanged |
| Startup.Existing | comfyapp.py:61 | the existing candidates, in order and without repetition |
| Startup.RootsChosen | comfyapp.py:61-64 | the roots are the existing candidates, or the first candidate alone when none exists; never empty, no repeats |
| Startup.ComfyRoots | comfyapp.py:61-64 | the loop over the candidates computes `Roots` |
| Startup.JobAt | comfyapp.py:131-141 | call `i` links subdirectory `i % 3` of root `i / 3` to its mount point |
| Startup.JobsSeparate | comfyapp.py:131-141 | no call links a target inside its own mount point or the other way round |
| Startup.JobsApart | comfyapp.py:131-141 | the targets of all calls lie apart from each other and from every mount point |
| Startup.FoldOutcomes | comfyapp.py:131-141 | one outcome per call made: all calls when none raised, otherwise up to the one that raised, which is last |
| Startup.FoldStops | comfyapp.py:131-141 | once a call raises, no later call is made |
| Startup.LinkJobs | comfyapp.py:134-141 | the three calls of one root have exactly the effect of `LinkAll`; one listing per call made, each an `iterdir` order of its target in the tree that call meets when the target is a real directory (`RealListings`) |
| Startup.LinkRoots | comfyapp.py:131-141 | the loop over the roots has exactly the effect of `LinkAll` over all their calls, every call has its target apart from its source, and the listings are real `iterdir` orders of the targets they merged (`RealListings`) |
| Startup.Ui | comfyapp.py:56-141 | `ui()` up to the launch has exactly the effect of `UiRun`: mount points, roots, then the calls; the listings its merges used are real `iterdir` orders of the targets (`UiListings`) |
| Startup.FoldAt | comfyapp.py:131-141 | the outcome of call `i` is what `link_directory` returns in the tree the earlier calls left |
| Startup.DeclinedOnlyForFiles | comfyapp.py:111-126 | with real listings, a start-up call returns `False` exactly when its target, after the two `mkdir` calls, exists and is neither a directory nor a link; the "could not empty" branch is never taken |
| Startup.CallConfined | comfyapp.py:98-129 | each call touches nothing apart from its target and source, and a `True` leaves its target linked |
| Startup.FoldLinked | comfyapp.py:131-141 | a target linked by a call stays linked through all later calls |
| Startup.StartupLinks | comfyapp.py:56-141 | after the start-up, each call that returned `True` has left subdirectory `i % 3` of root `i / 3` a link to its mount point |
| Paths.AsPosixParts | preserve_model.py:80-85 | `as_posix()` keeps the parts of the file name |
| Destination.FirstKnown | preserve_model.py:63-66 | the part found is in the file name and in the whitelist; when none is found, no part is whitelisted |
| Destination.FirstKnownFirst | preserve_model.py:63-66 | the search returns the first whitelisted part |
| Destination.Resolve | preserve_model.py:49-73 | an explicit subdirectory is accepted exactly when whitelisted and wins; otherwise the first whitelisted part is used; the base name is kept; both `ValueError`s are included |
| Destination.ResolveFirstPart | preserve_model.py:63-73 | without a subdirectory, the destination uses the first whitelisted part of the file name |
| Destination.ResolvedPlacement | preserve_model.py:59-73 | a resolved destination is `/models/<subdir>/<base name>`, and the folder created is `/models/<subdir>` |
| PreserveModel.Preserve | preserve_model.py:75-93 | `repo_id` missing or empty raises first, then `filename`; otherwise the call returns exactly when the destination resolves |
| PreserveModel.SubdirsPlain | preserve_model.py:11-24 | every whitelisted subdirectory is a single path component |
| PreserveModel.PreserveStores | preserve_model.py:80-101 | the hub is asked for the file name in normal form; the stored file is the destination, copied exactly when the download resolved elsewhere; the destination is the base name directly under a whitelisted subdirectory |
| PreserveModel.EmptySubdirRejected | preserve_model.py:54-58 | an empty `destination_subdir` is rejected, not taken as a request to detect |
| PreserveModelLegacy.Preserve | preserve-model.py:38-78 | omitted arguments take their defaults; the call returns exactly when the destination resolves; the hub gets the file name as given; the copy comes from the download |
| PreserveModelLegacy.DiffusionModelsPath | preserve-model.py:39-40 | a file name shaped like the default is stored in `diffusion_models` under its own name |
| PreserveModelLegacy.WhitelistsDiffer | preserve-model.py:12-23 | the older whitelist is the newer one without `audio_encoders` |
| PreserveModelLegacy.AudioEncoders | preserve-model.py:46-70 | `audio_encoders` is accepted only by the newer job; for every other input both resolve the same destination |
| PreserveModelGui.ParseEmpty | preserve_model_gui.py:198-200 | the input is rejected as empty exactly when it is all whitespace |
| PreserveModelGui.NoRepoUnreachable | preserve_model_gui.py:206-213 | the "no repository" error of the URL branch is never raised |
| PreserveModelGui.PlainErrors | preserve_model_gui.py:238-249 | the non-URL forms fail only for a missing separator or an empty part |
| PreserveModelGui.ParseResult | preserve_model_gui.py:196-251 | a parsed input has a repository and a file; only a URL carries a revision; a URL's repository is the two non-empty path segments after the optional `models` prefix, joined by `/` |
| PreserveModelGui.ParseRevisionUrl | preserve_model_gui.py:203-236 | a `resolve`/`blob` URL, optionally under `models/`, yields its repository, file path and revision |
| PreserveModelGui.SegmentsRoundTrip | preserve_model_gui.py:209-236 | the URL segments `[models/]owner/name/resolve/rev/file...` parse back to their parts |
| PreserveModelGui.SegmentsPlainRoundTrip | preserve_model_gui.py:209-236 | the URL segments `[models/]owner/name/file...` without a `resolve`/`blob` marker parse back to the repository and file path, with no revision |
| PreserveModelGui.SegmentsFailures | preserve_model_gui.py:206-234 | fewer than three segments fail as too short; a repository followed by nothing, or by only a marker and its revision, fails for a missing file; every `datasets` or `spaces` URL fails |
| PreserveModelGui.SegmentsRepo | preserve_model_gui.py:209-236 | a parsed URL's repository is the two segments after the optional `models` prefix; a revision is given exactly when a marker follows them, and it is the segment after the marker |
| PreserveModelGui.ParseColon | preserve_model_gui.py:238-239 | `repo::file`, with whitespace around the separator, yields `repo` and `file` |
| PreserveModelGui.ParseWords | preserve_model_gui.py:240-246 | `repo word word...` yields the first word and the rest joined by single spaces |
| PreserveModelGui.AutoDetectSubdir | preserve_model_gui.py:271-277 | the detected subdirectory is a part of the file name and in the job's whitelist |
| PreserveModelGui.AutoDetectAgrees | preserve_model_gui.py:271-277 | the GUI detects a subdirectory exactly when the job would, and the same one |
| PreserveModelGui.ChooseRevision | preserve_model_gui.py:282 | the revision from the URL, otherwise the stripped field, otherwise `main`; never empty |
| PreserveModelGui.ChooseSubdir | preserve_model_gui.py:279-296 | an explicit dropdown value is sent as is; "(自動判定)" or empty uses the detected subdirectory or asks the user |
| PreserveModelGui.ChoiceAccepted | preserve_model_gui.py:279-296 | a dropdown value never makes the job reject the subdirectory; a detected one resolves as the job's own detection; the user is asked exactly when detection fails |
| PreserveModelGui.UseDeployedSpelling | preserve_model_gui.py:42-48 | the switch is on exactly when the stripped variable spells `1`, `true` or `yes` in any case; unset is off |
| Text.StripEmptyIff | preserve_model_gui.py:198-199 | `strip()` is empty exactly for all-whitespace input |
| Text.SplitJoin | preserve_model_gui.py:205 | splitting a `/`-join of separator-free pieces gives the pieces back |
| Text.WordsJoin | preserve_model_gui.py:241 | `split()` of words joined by spaces gives the words back |

## Left out

- Symbolic links inside the trees being merged are treated as plain entries. `is_dir()` and `exists()` follow links in Python; the model looks only at the link itself.
- Links outside the merged trees are not resolved either. A well-formed tree has nothing below a link, so the mount points, the roots and their ancestors are taken to be reached without passing through a link.
- FileSystemModel.FileSystem.Mkdir: an existing link to a directory makes the model raise. `mkdir(exist_ok=True)` accepts it in Python, because `is_dir()` follows the link. The same holds for `PosixOps.MkdirParents`, which it is proved equal to.
- PosixOps.MkdirParents: raises on an existing link, as `FileSystem.Mkdir` does; Python accepts a link to a directory.
- Startup.Existing: a dangling link counts as an existing candidate. `Path.exists()` follows the link and reports `False`.
- Startup.Ui: one set of names whose `filecmp` comparison raises serves every `link_directory` call of the start-up. A comparison that raises in one call's merge but not in another's is not modelled.
- PreserveModelGui.AutoDetectAgrees: compares detection on one and the same file name. The GUI detects on the parsed file name (`preserve_model_gui.py:285`) but sends `filename.strip()` to the job (`preserve_model_gui.py:311`). The `::` and word forms already give a stripped name, but a URL path can give one with whitespace around it, and the model does not relate those two names.
- When `copytree` raises, the model leaves the tree unchanged. Python may already have copied part of the tree.
- `Path.resolve()`, `urlparse(...).path`, `hf_hub_download` and the download's location are parameters of the functions that use them. `copy2` and `stat` are recorded in the result rather than performed.
- Modal (apps, volumes, images, the GPU), the Gradio widgets, the network, the clock (`completed_at`), `subprocess.Popen` of ComfyUI (`comfyapp.py:143`) and every `print` are not modelled.
- `rename_volume.py` is not part of this model.
- The merge and the link are modelled only for a source and target that lie apart, so neither is inside the other. Every call made by the start-up loop meets this (`Startup.JobsSeparate`). `Startup.Call` answers any other job with an exception and no change; the loop never reaches that case.
- `MergeLanding.MergeLands` and `Link.LinkKeepsData` assume the tagged conflict names are fresh: they must not already exist in either directory, and no two entries may be renamed to the same name. Without this assumption, a move onto an existing name raises or replaces a file, and the model follows `shutil.move` in those cases.
- `PreserveModelGui.UseDeployedSpelling`: `str.lower()` is modelled for ASCII letters only. The three accepted words are ASCII, but Python would also lower a non-ASCII capital that lowers to an ASCII letter, such as the Kelvin sign.
- The sorted `_COMFY_MODEL_SUBDIRS` list of the GUI is modelled as the job's set, which holds the same names; only membership is used.
- The revision is only passed through to the hub and is not interpreted.
- The GUI's generator state (its messages, the button's enabled flag, the remote call and its stop timer) is not modelled.
- `iterdir` order is whatever the file system gives. The merge reports the order it used, and every property holds for every order.
- A filecmp `OSError` cannot be seen in the tree, so it is a parameter: the set of names whose comparison raises.
