/** `preserve_model(repo_id, filename, revision, destination_subdir)` of
    `preserve_model.py`: checks its arguments, resolves where the model
    file goes, has the hub download it, and copies it there when the
    download landed elsewhere.  The download and path resolution are
    calls into code outside the program and are parameters here. */
module PreserveModel {
  import opened Wrappers
  import opened Paths
  import opened Destination

  /** `COMFY_MODEL_SUBDIRS`. */
  const Subdirs: set<string> := {
    "checkpoints", "diffusion_models", "loras", "text_encoders", "audio_encoders", "clip",
    "clip_vision", "controlnet", "vae", "embeddings", "upscale_models"
  }

  /** The arguments given to `hf_hub_download`. */
  datatype Fetch = Fetch(repoId: string, filename: string, revision: Option<string>)

  /** What a call that returns has done: the folder it created, what it
      asked the hub for, whether it copied the download, the file whose
      size it reports, and the destination it returns. */
  datatype Saved = Saved(folder: string, fetch: Fetch, copied: bool, stored: string, destination: string)

  /** The `ValueError`s the call raises. */
  datatype Error = MissingRepoId | MissingFilename | Unresolved(ResolveError)

  /** An optional string argument that is truthy in Python: present and
      not empty. */
  predicate Given(arg: Option<string>) {
    arg.Some? && arg.value != ""
  }

  /** The call, for `hub` standing for the path `hf_hub_download` returns
      and `resolve` for `Path.resolve()`. */
  function Preserve(repoId: Option<string>, filename: Option<string>, revision: Option<string>, subdir: Option<string>,
                    hub: Fetch -> string, resolve: string -> string): (r: Result<Saved, Error>)
    ensures r == Failure(MissingRepoId) <==> !Given(repoId)
    ensures r == Failure(MissingFilename) <==> Given(repoId) && !Given(filename)
    ensures r.Success? <==> Given(repoId) && Given(filename) && Resolve(Subdirs, filename.value, subdir).Success?
  {
    if !Given(repoId) then Failure(MissingRepoId)
    else if !Given(filename) then Failure(MissingFilename)
    else
      match Resolve(Subdirs, filename.value, subdir)
      case Failure(e) => Failure(Unresolved(e))
      case Success(d) =>
        var fetch := Fetch(repoId.value, AsPosix(filename.value), revision);
        var downloaded := hub(fetch);
        var destination := DestPath(d);
        var copied := resolve(downloaded) != resolve(destination);
        Success(Saved(Folder(d), fetch, copied, if copied then destination else downloaded, destination))
  }

  /** Every whitelisted subdirectory is a single path component. */
  lemma SubdirsPlain()
    ensures forall k | k in Subdirs :: PlainName(k)
  {
  }

  /** A call that returns has stored the file under its base name directly
      inside a whitelisted subdirectory of `MODEL_DIR`, and reports that
      destination; the hub was asked for the same path in normal form; the
      file it reports on is the destination, copied there exactly when the
      download resolved elsewhere. */
  lemma PreserveStores(repoId: Option<string>, filename: Option<string>, revision: Option<string>, subdir: Option<string>,
                       hub: Fetch -> string, resolve: string -> string)
    ensures var r := Preserve(repoId, filename, revision, subdir, hub, resolve);
      r.Success? ==>
        && r.value.fetch == Fetch(repoId.value, r.value.fetch.filename, revision)
        && Parts(r.value.fetch.filename) == Parts(filename.value)
        && resolve(r.value.stored) == resolve(r.value.destination)
        && (r.value.copied <==> resolve(hub(r.value.fetch)) != resolve(r.value.destination))
    ensures var r := Preserve(repoId, filename, revision, subdir, hub, resolve);
      r.Success? && Name(filename.value) != "" ==>
        exists s | s in Subdirs ::
          && Parts(r.value.destination) == ["/", "models", s, Name(filename.value)]
          && Parts(r.value.folder) == ["/", "models", s]
          && (subdir.Some? ==> s == subdir.value)
  {
    var r := Preserve(repoId, filename, revision, subdir, hub, resolve);
    if r.Success? {
      AsPosixParts(filename.value);
      SubdirsPlain();
      ResolvedPlacement(Subdirs, filename.value, subdir);
      var d := Resolve(Subdirs, filename.value, subdir).value;
      assert d.subdir in Subdirs;
    }
  }

  /** An empty `destination_subdir` is an explicit choice like any other
      and is rejected, not taken as a request to detect one. */
  lemma EmptySubdirRejected(repoId: string, filename: string, revision: Option<string>,
                            hub: Fetch -> string, resolve: string -> string)
    requires repoId != "" && filename != ""
    ensures Preserve(Some(repoId), Some(filename), revision, Some(""), hub, resolve) == Failure(Unresolved(SubdirNotAllowed))
  {
    assert "" !in Subdirs;
  }
}
