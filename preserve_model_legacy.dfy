/** `preserve_model(...)` of the older `preserve-model.py`: no argument
    checks (omitted arguments take defaults), a whitelist without
    `audio_encoders`, the file name passed to the hub as given, and an
    unconditional copy. */
module PreserveModelLegacy {
  import opened Wrappers
  import opened Text
  import opened Paths
  import opened Destination
  import PreserveModel

  /** `COMFY_MODEL_SUBDIRS` of this version. */
  const Subdirs: set<string> := {
    "checkpoints", "diffusion_models", "loras", "text_encoders", "clip",
    "clip_vision", "controlnet", "vae", "embeddings", "upscale_models"
  }

  /** The defaults of `repo_id` and `filename`. */
  const DefaultRepoId: string := "Comfy-Org/Qwen-Image-Edit_ComfyUI"
  const DefaultModelFile: string := "qwen_image_edit_2509_fp8_e4m3fn.safetensors"
  const DefaultFilename: string := "split_files/diffusion_models/" + DefaultModelFile

  /** What a call that returns has done: the folder it created, what it
      asked the hub for, the file it copied from, and the destination it
      copied to and returns. */
  datatype Saved = Saved(folder: string, fetch: PreserveModel.Fetch, copiedFrom: string, destination: string)

  /** `arg` when it was passed, `default` when it was omitted. */
  function Or(arg: Option<string>, default: string): string {
    if arg.Some? then arg.value else default
  }

  /** The call; `None` stands for an omitted argument.  `revision` and
      `destination_subdir` default to `None` themselves, so omitting them
      and passing `None` are the same call.  `repo_id` and `filename` are
      typed `str` with string defaults: `None` for them means the default,
      and an explicit `None`, which the signature does not admit, is not
      modelled. */
  function Preserve(repoId: Option<string>, filename: Option<string>, revision: Option<string>, subdir: Option<string>,
                    hub: PreserveModel.Fetch -> string): (r: Result<Saved, ResolveError>)
    ensures r.Success? <==> Resolve(Subdirs, Or(filename, DefaultFilename), subdir).Success?
    ensures r.Success? ==>
      && r.value.fetch == PreserveModel.Fetch(Or(repoId, DefaultRepoId), Or(filename, DefaultFilename), revision)
      && r.value.copiedFrom == hub(r.value.fetch)
  {
    var name := Or(filename, DefaultFilename);
    match Resolve(Subdirs, name, subdir)
    case Failure(e) => Failure(e)
    case Success(d) =>
      var fetch := PreserveModel.Fetch(Or(repoId, DefaultRepoId), name, revision);
      Success(Saved(Folder(d), fetch, hub(fetch), DestPath(d)))
  }

  /** A file name of three names has them as its parts, the last one
      being its base name. */
  lemma ThreeNames(a: string, b: string, c: string)
    requires PlainName(a) && PlainName(b) && PlainName(c)
    ensures Parts(a + "/" + b + "/" + c) == [a, b, c]
    ensures Name(a + "/" + b + "/" + c) == c
  {
    JoinThree(a, b, c);
    RelativeParts([a, b, c]);
    var p := a + "/" + b + "/" + c;
    assert a[0] in a && p[0] == a[0];
    assert Anchor(p) == "";
    assert Components(p) == [a, b, c];
  }

  /** The default file name has this shape: with no subdirectory given,
      the job stores such a file in `diffusion_models` under its own
      name. */
  lemma DiffusionModelsPath(f: string)
    requires PlainName(f)
    ensures Resolve(Subdirs, "split_files/diffusion_models/" + f, None) == Success(Dest("diffusion_models", f))
  {
    var p := "split_files/diffusion_models/" + f;
    assert p == "split_files" + "/" + "diffusion_models" + "/" + f;
    ThreeNames("split_files", "diffusion_models", f);
    DetectedSecond(p, f);
  }

  lemma DetectedSecond(p: string, f: string)
    requires Parts(p) == ["split_files", "diffusion_models", f] && Name(p) == f
    ensures Resolve(Subdirs, p, None) == Success(Dest("diffusion_models", f))
  {
    ResolveFirstPart(Subdirs, p, 1);
  }

  /** The two whitelists differ in `audio_encoders` alone. */
  lemma WhitelistsDiffer()
    ensures PreserveModel.Subdirs == Subdirs + {"audio_encoders"} && "audio_encoders" !in Subdirs
  {
  }

  /** `audio_encoders`, chosen or found in the file name, is accepted by
      the newer job and never by this one; for every other input the two
      resolve the same destination. */
  lemma AudioEncoders(filename: string, subdir: Option<string>)
    ensures Resolve(PreserveModel.Subdirs, filename, Some("audio_encoders")).Success?
    ensures Resolve(Subdirs, filename, Some("audio_encoders")) == Failure(SubdirNotAllowed)
    ensures forall r | Resolve(Subdirs, filename, subdir) == Success(r) :: r.subdir != "audio_encoders"
    ensures "audio_encoders" !in Parts(filename) && subdir != Some("audio_encoders") ==>
      Resolve(PreserveModel.Subdirs, filename, subdir) == Resolve(Subdirs, filename, subdir)
  {
    WhitelistsDiffer();
    if "audio_encoders" !in Parts(filename) && subdir == None {
      FirstKnownSame(Parts(filename), PreserveModel.Subdirs, Subdirs);
    }
  }
}
