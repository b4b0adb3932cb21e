/** `_resolve_destination(filename, destination_subdir)`: where the download
    job stores a model file.  Both versions of the job compute it the same
    way; they differ only in the set of subdirectories they accept, which is
    a parameter here. */
module Destination {
  import opened Wrappers
  import opened Text
  import opened Paths

  /** `MODEL_DIR`, the mount point of the model volume. */
  const ModelDir: string := "/models"

  /** `next((part for part in parts if part in known), None)`. */
  function FirstKnown(parts: seq<string>, known: set<string>): (r: Option<string>)
    ensures r.Some? ==> r.value in parts && r.value in known
    ensures r.None? ==> forall p | p in parts :: p !in known
  {
    if parts == [] then None
    else if parts[0] in known then Some(parts[0])
    else FirstKnown(parts[1..], known)
  }

  /** The search stops at the first known part: whatever follows it,
      however many other known parts there are. */
  lemma {:induction false} FirstKnownFirst(parts: seq<string>, known: set<string>, i: nat)
    requires i < |parts| && parts[i] in known
    requires forall j | 0 <= j < i :: parts[j] !in known
    ensures FirstKnown(parts, known) == Some(parts[i])
  {
    if i > 0 {
      FirstKnownFirst(parts[1..], known, i - 1);
    }
  }

  /** Two whitelists that agree on every part give the same answer. */
  lemma {:induction false} FirstKnownSame(parts: seq<string>, k1: set<string>, k2: set<string>)
    requires forall p | p in parts :: p in k1 <==> p in k2
    ensures FirstKnown(parts, k1) == FirstKnown(parts, k2)
  {
    if parts != [] {
      assert parts[0] in parts;
      assert forall p | p in parts[1..] :: p in parts;
      FirstKnownSame(parts[1..], k1, k2);
    }
  }

  /** `target_root / filename_path.name`, with `target_root` being
      `MODEL_DIR / subdir`. */
  datatype Dest = Dest(subdir: string, name: string)

  /** `target_root`: the directory the job creates before it returns. */
  function Folder(d: Dest): string {
    ModelDir + "/" + d.subdir
  }

  /** `as_posix()` of the destination; joining an empty name adds nothing. */
  function DestPath(d: Dest): string {
    if d.name == "" then Folder(d) else Folder(d) + "/" + d.name
  }

  /** The two `ValueError`s `_resolve_destination` raises. */
  datatype ResolveError =
    | SubdirNotAllowed   // an explicit subdirectory outside the whitelist
    | SubdirUndetected   // no part of the file name is in the whitelist

  /** `_resolve_destination(filename, destination_subdir)` for the
      whitelist `known`.  An explicit subdirectory wins over one found in
      the file name; only the file's base name is kept. */
  function Resolve(known: set<string>, filename: string, subdir: Option<string>): (r: Result<Dest, ResolveError>)
    ensures r.Success? ==> r.value.subdir in known && r.value.name == Name(filename)
    ensures subdir.Some? ==> (r.Success? <==> subdir.value in known)
    ensures subdir.Some? && r.Success? ==> r.value.subdir == subdir.value
    ensures subdir.None? && r.Success? ==> r.value.subdir in Parts(filename)
    ensures subdir.None? && r.Failure? ==> forall p | p in Parts(filename) :: p !in known
  {
    match subdir
    case Some(s) =>
      if s !in known then Failure(SubdirNotAllowed) else Success(Dest(s, Name(filename)))
    case None =>
      match FirstKnown(Parts(filename), known)
      case None => Failure(SubdirUndetected)
      case Some(s) => Success(Dest(s, Name(filename)))
  }

  /** Without an explicit subdirectory, the first whitelisted part of the
      file name is the one used. */
  lemma ResolveFirstPart(known: set<string>, filename: string, i: nat)
    requires i < |Parts(filename)| && Parts(filename)[i] in known
    requires forall j | 0 <= j < i :: Parts(filename)[j] !in known
    ensures Resolve(known, filename, None) == Success(Dest(Parts(filename)[i], Name(filename)))
  {
    FirstKnownFirst(Parts(filename), known, i);
  }

  lemma JoinThree(a: string, b: string, c: string)
    ensures Join([a, b, c], "/") == a + "/" + b + "/" + c
  {
    JoinCons(a, [b, c], "/");
    JoinCons(b, [c], "/");
  }

  /** The destination lies exactly one level below `MODEL_DIR / subdir`:
      its path components are the root, `models`, the subdirectory and
      the base name. */
  lemma DestParts(d: Dest)
    requires PlainName(d.subdir) && '/' !in d.name && d.name != "."
    ensures Parts(DestPath(d)) == ["/", "models", d.subdir] + (if d.name == "" then [] else [d.name])
    ensures d.name != "" ==> Name(DestPath(d)) == d.name
  {
    if d.name == "" {
      JoinCons("models", [d.subdir], "/");
      assert DestPath(d) == "/" + Join(["models", d.subdir], "/");
      AbsoluteParts(["models", d.subdir]);
    } else {
      JoinThree("models", d.subdir, d.name);
      assert DestPath(d) == "/" + Join(["models", d.subdir, d.name], "/");
      AbsoluteParts(["models", d.subdir, d.name]);
    }
  }

  /** Whatever file name is given, a resolved destination is the base name
      of the file directly inside a whitelisted subdirectory of
      `MODEL_DIR`, and the folder created is that subdirectory. */
  lemma ResolvedPlacement(known: set<string>, filename: string, subdir: Option<string>)
    requires forall k | k in known :: PlainName(k)
    ensures var r := Resolve(known, filename, subdir);
      r.Success? && Name(filename) != "" ==>
        Parts(DestPath(r.value)) == ["/", "models", r.value.subdir, Name(filename)]
        && Parts(Folder(r.value)) == ["/", "models", r.value.subdir]
        && Name(DestPath(r.value)) == Name(filename)
  {
    var r := Resolve(known, filename, subdir);
    if r.Success? && Name(filename) != "" {
      DestParts(r.value);
      DestParts(Dest(r.value.subdir, ""));
    }
  }
}
