/** The pure parts of the download GUI: `_parse_repo_and_filename`, the
    detection of a subdirectory from the file name, the choice of revision
    and subdirectory sent to the download job, and the reading of the
    `PRESERVE_MODEL_USE_DEPLOYED` setting. */
module PreserveModelGui {
  import opened Wrappers
  import opened Text
  import opened Paths
  import opened Destination
  import PreserveModel

  /** The first URL segments that name a kind of repository. */
  const SpecialPrefixes: set<string> := {"datasets", "spaces", "models"}

  /** The URL segments that are followed by a revision. */
  const RevisionMarkers: set<string> := {"resolve", "blob"}

  /** What `_parse_repo_and_filename` returns. */
  datatype Parsed = Parsed(repoId: string, filename: string, revision: Option<string>)

  /** Its `ValueError`s, in the order of the source. */
  datatype ParseError =
    | EmptyInput      // nothing but whitespace
    | UrlTooShort     // fewer than three path segments
    | UrlNoRepo       // no two segments for the repository
    | UrlNoFile       // no file path after the repository (or the revision)
    | NotModelRepo    // a dataset or space URL
    | NoSeparator     // neither `::` nor whitespace between repository and file
    | MissingPart     // an empty repository or file name

  /** The URL branch, given the path component of the URL. */
  function ParseUrl(path: string): Result<Parsed, ParseError> {
    ParseSegments(NonEmpty(Split(path, '/')))
  }

  /** The URL branch on the non-empty segments of the path. */
  function ParseSegments(parts: seq<string>): Result<Parsed, ParseError> {
    if |parts| < 3 then Failure(UrlTooShort)
    else
      var prefixed := parts[0] in SpecialPrefixes;
      var start := if prefixed then 1 else 0;
      if |parts| - start < 2 then Failure(UrlNoRepo)
      else
        var repoId := Join(parts[start..start + 2], "/");
        var fileParts := parts[start + 2..];
        if fileParts == [] then Failure(UrlNoFile)
        else
          var marked := |fileParts| >= 2 && fileParts[0] in RevisionMarkers;
          var revision := if marked then Some(fileParts[1]) else None;
          var rest := if marked then fileParts[2..] else fileParts;
          if rest == [] then Failure(UrlNoFile)
          else if prefixed && parts[0] != "models" then Failure(NotModelRepo)
          else Success(Parsed(repoId, Join(rest, "/"), revision))
  }

  /** The two forms without a URL: `repo::file`, split at the first `::`,
      or whitespace-separated words. */
  function ParsePlain(value: string): Result<Parsed, ParseError> {
    var pair: Result<(string, string), ParseError> :=
      if Contains(value, "::") then
        FindContains(value, "::");
        var i := Find(value, "::", 0).value;
        Success((Strip(value[..i]), Strip(value[i + 2..])))
      else
        var words := Words(value);
        if |words| < 2 then Failure(NoSeparator) else Success((words[0], Join(words[1..], " ")));
    match pair
    case Failure(e) => Failure(e)
    case Success((repoId, filename)) =>
      if repoId == "" || filename == "" then Failure(MissingPart) else Success(Parsed(repoId, filename, None))
  }

  /** `_parse_repo_and_filename(raw)`; `urlPath` stands for
      `urlparse(value).path`. */
  function Parse(raw: string, urlPath: string -> string): Result<Parsed, ParseError> {
    var value := Strip(raw);
    if value == "" then Failure(EmptyInput)
    else if Contains(value, "huggingface.co") then ParseUrl(urlPath(value))
    else ParsePlain(value)
  }

  // ---------------------------------------------------------------------
  // What the parser guarantees

  /** The input is rejected as empty exactly when it is all whitespace. */
  lemma ParseEmpty(raw: string, urlPath: string -> string)
    ensures Parse(raw, urlPath) == Failure(EmptyInput) <==> AllSpace(raw)
  {
    StripEmptyIff(raw);
    var value := Strip(raw);
    if value != "" {
      BranchesNotEmpty(value, urlPath(value));
    }
  }

  /** Past the first check, no branch reports empty input. */
  lemma BranchesNotEmpty(value: string, path: string)
    ensures ParseUrl(path) != Failure(EmptyInput) && ParsePlain(value) != Failure(EmptyInput)
  {
  }

  /** The test for fewer than three segments leaves at least two after an
      optional prefix: the error "no repository in the URL" is never
      raised. */
  lemma NoRepoUnreachable(raw: string, urlPath: string -> string)
    ensures Parse(raw, urlPath) != Failure(UrlNoRepo)
  {
    var value := Strip(raw);
    if value != "" && Contains(value, "huggingface.co") {
      UrlHasRoom(urlPath(value));
    } else if value != "" {
      PlainErrors(value);
    }
  }

  lemma UrlHasRoom(path: string)
    ensures ParseUrl(path) != Failure(UrlNoRepo)
  {
  }

  /** The forms without a URL fail only for want of a separator or of a
      part. */
  lemma PlainErrors(value: string)
    ensures ParsePlain(value).Failure? ==> ParsePlain(value).error in {NoSeparator, MissingPart}
  {
  }

  /** A parsed input names a repository and a file; only a URL carries a
      revision; a repository taken from a URL is the two path segments
      after the optional `models` prefix, joined by `/`. */
  lemma ParseResult(raw: string, urlPath: string -> string)
    ensures var r := Parse(raw, urlPath);
      r.Success? ==> r.value.repoId != "" && r.value.filename != ""
    ensures var r := Parse(raw, urlPath);
      r.Success? && !Contains(Strip(raw), "huggingface.co") ==> r.value.revision == None
    ensures var r := Parse(raw, urlPath);
      r.Success? && Contains(Strip(raw), "huggingface.co") ==>
        |Split(r.value.repoId, '/')| == 2 && "" !in Split(r.value.repoId, '/')
    ensures var r := Parse(raw, urlPath);
      r.Success? && Contains(Strip(raw), "huggingface.co") ==>
        var parts := NonEmpty(Split(urlPath(Strip(raw)), '/'));
        |parts| >= 3 &&
        var start := if parts[0] == "models" then 1 else 0;
        r.value.repoId == parts[start] + "/" + parts[start + 1]
  {
    var value := Strip(raw);
    if value != "" && Contains(value, "huggingface.co") {
      UrlResult(urlPath(value));
    }
  }

  lemma UrlResult(path: string)
    ensures var r := ParseUrl(path);
      r.Success? ==> (r.value.repoId != "" && r.value.filename != ""
                      && |Split(r.value.repoId, '/')| == 2 && "" !in Split(r.value.repoId, '/'))
    ensures var r := ParseUrl(path);
      r.Success? ==>
        var parts := NonEmpty(Split(path, '/'));
        |parts| >= 3 &&
        var start := if parts[0] == "models" then 1 else 0;
        r.value.repoId == parts[start] + "/" + parts[start + 1]
  {
    var parts := NonEmpty(Split(path, '/'));
    SegmentsRepo(parts);
    assert forall i | 0 <= i < |parts| :: Segment(parts[i]) by {
      forall i | 0 <= i < |parts| ensures Segment(parts[i]) {
        var pieces := Split(path, '/');
        var j :| 0 <= j < |pieces| && pieces[j] == parts[i];
      }
    }
    SegmentsResult(parts);
  }

  lemma SegmentsResult(parts: seq<string>)
    requires forall i | 0 <= i < |parts| :: Segment(parts[i])
    ensures var r := ParseSegments(parts);
      r.Success? ==> (r.value.repoId != "" && r.value.filename != ""
                      && |Split(r.value.repoId, '/')| == 2 && "" !in Split(r.value.repoId, '/'))
  {
    var r := ParseSegments(parts);
    if r.Success? {
      var start := if parts[0] in SpecialPrefixes then 1 else 0;
      var two := parts[start..start + 2];
      assert Segment(two[0]) && Segment(two[1]);
      SplitJoin(two, '/');
      assert Join(two, "/") == r.value.repoId;
      var fileParts := parts[start + 2..];
      var marked := |fileParts| >= 2 && fileParts[0] in RevisionMarkers;
      var rest := if marked then fileParts[2..] else fileParts;
      assert Segment(rest[0]);
      JoinFront(rest, "/");
    }
  }

  /** The segments of a URL path `/seg/seg/...` are the segments. */
  lemma SegmentsOf(segs: seq<string>)
    requires segs != [] && forall i | 0 <= i < |segs| :: segs[i] != "" && '/' !in segs[i]
    ensures NonEmpty(Split("/" + Join(segs, "/"), '/')) == segs
  {
    SplitJoin(segs, '/');
    SplitAfter("", Join(segs, "/"), '/');
    assert "" + "/" + Join(segs, "/") == "/" + Join(segs, "/");
    assert ([""] + segs)[1..] == segs;
    NonEmptyAll(segs);
  }

  lemma {:induction false} NonEmptyAll(pieces: seq<string>)
    requires forall i | 0 <= i < |pieces| :: pieces[i] != ""
    ensures NonEmpty(pieces) == pieces
  {
    if pieces != [] {
      NonEmptyAll(pieces[1..]);
    }
  }

  /** A plain path segment. */
  predicate Segment(s: string) {
    s != "" && '/' !in s
  }

  /** A `resolve` (or `blob`) URL round-trips: the repository, optionally
      under `models/`, the revision and the file path come back out. */
  lemma ParseRevisionUrl(raw: string, urlPath: string -> string, lead: seq<string>, owner: string, name: string,
                         marker: string, rev: string, file: seq<string>)
    requires Contains(Strip(raw), "huggingface.co")
    requires lead == [] || lead == ["models"]
    requires lead == [] ==> owner !in SpecialPrefixes
    requires Segment(owner) && Segment(name) && Segment(rev) && marker in RevisionMarkers
    requires file != [] && forall i | 0 <= i < |file| :: Segment(file[i])
    requires urlPath(Strip(raw)) == "/" + Join(lead + [owner, name, marker, rev] + file, "/")
    ensures Parse(raw, urlPath) == Success(Parsed(owner + "/" + name, Join(file, "/"), Some(rev)))
  {
    assert Strip(raw) != "";
    UrlRoundTrip(lead, owner, name, marker, rev, file);
  }

  lemma UrlRoundTrip(lead: seq<string>, owner: string, name: string, marker: string, rev: string, file: seq<string>)
    requires lead == [] || lead == ["models"]
    requires lead == [] ==> owner !in SpecialPrefixes
    requires Segment(owner) && Segment(name) && Segment(rev) && marker in RevisionMarkers
    requires file != [] && forall i | 0 <= i < |file| :: Segment(file[i])
    ensures ParseUrl("/" + Join(lead + [owner, name, marker, rev] + file, "/"))
      == Success(Parsed(owner + "/" + name, Join(file, "/"), Some(rev)))
  {
    var segs := lead + [owner, name, marker, rev] + file;
    assert forall i | 0 <= i < |segs| :: Segment(segs[i]) by {
      forall i | 0 <= i < |segs| ensures Segment(segs[i]) {
        if i >= |lead| + 4 {
          assert segs[i] == file[i - |lead| - 4];
        }
      }
    }
    SegmentsOf(segs);
    SegmentsRoundTrip(lead, owner, name, marker, rev, file);
  }

  lemma SegmentsRoundTrip(lead: seq<string>, owner: string, name: string, marker: string, rev: string, file: seq<string>)
    requires lead == [] || lead == ["models"]
    requires lead == [] ==> owner !in SpecialPrefixes
    requires marker in RevisionMarkers && file != []
    ensures ParseSegments(lead + [owner, name, marker, rev] + file)
      == Success(Parsed(owner + "/" + name, Join(file, "/"), Some(rev)))
  {
    var segs := lead + [owner, name, marker, rev] + file;
    var start := |lead|;
    assert segs[0] == (if lead == [] then owner else "models");
    assert segs[start..start + 2] == [owner, name];
    JoinCons(owner, [name], "/");
    assert segs[start + 2..] == [marker, rev] + file;
    assert ([marker, rev] + file)[2..] == file;
  }

  /** A URL without `resolve`/`blob` after the repository round-trips too:
      the rest of the path is the file, and there is no revision. */
  lemma SegmentsPlainRoundTrip(lead: seq<string>, owner: string, name: string, file: seq<string>)
    requires lead == [] || lead == ["models"]
    requires lead == [] ==> owner !in SpecialPrefixes
    requires file != [] && !(|file| >= 2 && file[0] in RevisionMarkers)
    ensures ParseSegments(lead + [owner, name] + file)
      == Success(Parsed(owner + "/" + name, Join(file, "/"), None))
  {
    var segs := lead + [owner, name] + file;
    var start := |lead|;
    assert segs[0] == (if lead == [] then owner else "models");
    assert segs[start..start + 2] == [owner, name];
    JoinCons(owner, [name], "/");
    assert segs[start + 2..] == file;
    SegmentsUnmarked(segs, start);
  }

  /** A URL whose file path does not start with a marker and a revision. */
  lemma SegmentsUnmarked(parts: seq<string>, start: nat)
    requires |parts| >= 3 && start == (if parts[0] in SpecialPrefixes then 1 else 0)
    requires start == 0 || parts[0] == "models"
    requires |parts| >= start + 3
    requires !(|parts| >= start + 4 && parts[start + 2] in RevisionMarkers)
    ensures ParseSegments(parts)
      == Success(Parsed(Join(parts[start..start + 2], "/"), Join(parts[start + 2..], "/"), None))
  {
  }

  /** The failures of the URL branch: too few segments; a repository with
      nothing after it, or with only a `resolve`/`blob` marker and its
      revision after it; and every dataset or space URL. */
  lemma SegmentsFailures(parts: seq<string>)
    ensures |parts| < 3 ==> ParseSegments(parts) == Failure(UrlTooShort)
    ensures |parts| >= 3 && parts[0] in SpecialPrefixes && |parts| == 3 ==> ParseSegments(parts) == Failure(UrlNoFile)
    ensures |parts| >= 3 && parts[0] !in SpecialPrefixes && |parts| == 4 && parts[2] in RevisionMarkers
      ==> ParseSegments(parts) == Failure(UrlNoFile)
    ensures |parts| >= 3 && parts[0] in SpecialPrefixes && |parts| == 5 && parts[3] in RevisionMarkers
      ==> ParseSegments(parts) == Failure(UrlNoFile)
    ensures |parts| >= 3 && parts[0] in {"datasets", "spaces"} ==> ParseSegments(parts).Failure?
  {
  }

  /** On success the repository is the two segments after the optional
      `models` prefix, and a revision is given exactly when a marker
      follows them. */
  lemma SegmentsRepo(parts: seq<string>)
    ensures var r := ParseSegments(parts);
      r.Success? ==>
        var start := if parts[0] == "models" then 1 else 0;
        && |parts| >= start + 3
        && r.value.repoId == parts[start] + "/" + parts[start + 1]
        && (r.value.revision.Some? <==> |parts| >= start + 4 && parts[start + 2] in RevisionMarkers)
        && (r.value.revision.Some? ==> r.value.revision == Some(parts[start + 3]))
  {
    var r := ParseSegments(parts);
    if r.Success? {
      var start := if parts[0] == "models" then 1 else 0;
      assert parts[start..start + 2] == [parts[start], parts[start + 1]];
      JoinCons(parts[start], [parts[start + 1]], "/");
    }
  }

  /** `repo::file`, with any whitespace around the separator, round-trips. */
  lemma ParseColon(repo: string, a: string, b: string, file: string, urlPath: string -> string)
    requires repo != "" && !IsSpace(repo[0]) && !IsSpace(repo[|repo| - 1]) && ':' !in repo
    requires file != "" && !IsSpace(file[0]) && !IsSpace(file[|file| - 1])
    requires AllSpace(a) && AllSpace(b)
    requires !Contains(repo + a + "::" + b + file, "huggingface.co")
    ensures Parse(repo + a + "::" + b + file, urlPath) == Success(Parsed(repo, file, None))
  {
    var raw := repo + a + "::" + b + file;
    StripTrimmed(raw);
    ColonSplit(repo, a, b, file);
  }

  lemma ColonSplit(repo: string, a: string, b: string, file: string)
    requires repo != "" && !IsSpace(repo[0]) && !IsSpace(repo[|repo| - 1]) && ':' !in repo
    requires file != "" && !IsSpace(file[0]) && !IsSpace(file[|file| - 1])
    requires AllSpace(a) && AllSpace(b)
    ensures ParsePlain(repo + a + "::" + b + file) == Success(Parsed(repo, file, None))
  {
    var raw := repo + a + "::" + b + file;
    var k := |repo| + |a|;
    assert OccursAt(raw, "::", k);
    forall j | 0 <= j < k ensures raw[j] != ':' {
      if j < |repo| {
        assert raw[j] == repo[j];
      } else {
        assert raw[j] == a[j - |repo|];
      }
    }
    FirstSeparator(raw, k);
    assert raw[..k] == "" + repo + a;
    assert raw[k + 2..] == b + file + "";
    StripMargins("", repo, a);
    StripMargins(b, file, "");
    ParseAtSeparator(raw, k);
  }

  /** With a `::` present, the two sides of the first one, stripped, are
      the repository and the file name. */
  lemma ParseAtSeparator(value: string, k: nat)
    requires Contains(value, "::") && Find(value, "::", 0) == Some(k)
    ensures var repo, file := Strip(value[..k]), Strip(value[k + 2..]);
      ParsePlain(value) == if repo == "" || file == "" then Failure(MissingPart) else Success(Parsed(repo, file, None))
  {
  }

  /** The first `::` is found where the first colon is. */
  lemma FirstSeparator(raw: string, k: nat)
    requires OccursAt(raw, "::", k)
    requires forall j | 0 <= j < k :: raw[j] != ':'
    ensures Contains(raw, "::") && Find(raw, "::", 0) == Some(k)
  {
    FindContains(raw, "::");
    var i := Find(raw, "::", 0).value;
    assert raw[i..i + 2][0] == raw[i];
  }

  /** `repo file words ...` round-trips, the file name being the words
      joined by single spaces. */
  lemma ParseWords(ws: seq<string>, urlPath: string -> string)
    requires |ws| >= 2 && forall w | w in ws :: w != "" && NoSpace(w)
    requires !Contains(Join(ws, " "), "huggingface.co") && !Contains(Join(ws, " "), "::")
    ensures Parse(Join(ws, " "), urlPath) == Success(Parsed(ws[0], Join(ws[1..], " "), None))
  {
    var raw := Join(ws, " ");
    JoinEnds(ws);
    StripTrimmed(raw);
    WordsJoin(ws);
    assert ws[1] in ws[1..];
    JoinEnds(ws[1..]);
  }

  /** A join of words by spaces starts and ends with a non-space. */
  lemma {:induction false} JoinEnds(ws: seq<string>)
    requires ws != [] && forall w | w in ws :: w != "" && NoSpace(w)
    ensures var j := Join(ws, " "); j != "" && !IsSpace(j[0]) && !IsSpace(j[|j| - 1])
  {
    assert ws[0] in ws;
    if |ws| > 1 {
      assert forall w | w in ws[1..] :: w in ws;
      JoinEnds(ws[1..]);
      assert Join(ws, " ") == ws[0] + " " + Join(ws[1..], " ");
    }
  }

  // ---------------------------------------------------------------------
  // Revision and subdirectory

  /** The dropdown value that asks for detection from the file name. */
  const AutoChoice: string := "(自動判定)"

  /** `_auto_detect_subdir(filename)`: the first part of the file name that
      is one of the job's subdirectories. */
  function AutoDetectSubdir(filename: string): (r: Option<string>)
    ensures r.Some? ==> r.value in Parts(filename) && r.value in PreserveModel.Subdirs
  {
    FirstKnown(Parts(filename), PreserveModel.Subdirs)
  }

  /** The GUI detects exactly the subdirectory the download job would
      detect on its own, and fails to exactly when the job would. */
  lemma AutoDetectAgrees(filename: string)
    ensures AutoDetectSubdir(filename).None? <==>
      Resolve(PreserveModel.Subdirs, filename, None) == Failure(SubdirUndetected)
    ensures forall s :: AutoDetectSubdir(filename) == Some(s) <==>
      Resolve(PreserveModel.Subdirs, filename, None) == Success(Dest(s, Name(filename)))
  {
  }

  /** `revision_from_input or revision.strip() or "main"`. */
  function ChooseRevision(fromInput: Option<string>, field: string): (r: string)
    ensures r != ""
    ensures fromInput.Some? && fromInput.value != "" ==> r == fromInput.value
    ensures (fromInput.None? || fromInput.value == "") && !AllSpace(field) ==> r == Strip(field)
    ensures (fromInput.None? || fromInput.value == "") && AllSpace(field) ==> r == "main"
  {
    StripEmptyIff(field);
    if fromInput.Some? && fromInput.value != "" then fromInput.value
    else if Strip(field) != "" then Strip(field)
    else "main"
  }

  /** The subdirectory sent to the job and whether it was detected. */
  datatype Choice = Choice(subdir: string, auto: bool)

  /** The subdirectory choice; `None` is the message asking the user to
      pick one. */
  function ChooseSubdir(field: string, detected: Option<string>): (r: Option<Choice>)
    ensures r.Some? && !r.value.auto ==> r.value.subdir != "" && r.value.subdir != AutoChoice
    ensures field != "" && field != AutoChoice ==> r == Some(Choice(field, false))
    ensures field == "" || field == AutoChoice ==> r == (if detected.Some? then Some(Choice(detected.value, true)) else None)
  {
    var given := if field == AutoChoice then "" else field;
    if given != "" then Some(Choice(given, false))
    else if detected.None? then None
    else Some(Choice(detected.value, true))
  }

  /** The choices of the subdirectory dropdown. */
  predicate InDropdown(field: string) {
    field == AutoChoice || field in PreserveModel.Subdirs
  }

  /** A dropdown choice never makes the job reject the subdirectory: the
      GUI sends one the job accepts, the one it would have detected, or
      asks the user to choose when the job could not detect one. */
  lemma ChoiceAccepted(field: string, filename: string)
    requires InDropdown(field)
    ensures var c := ChooseSubdir(field, AutoDetectSubdir(filename));
      c.Some? ==> Resolve(PreserveModel.Subdirs, filename, Some(c.value.subdir)).Success?
    ensures var c := ChooseSubdir(field, AutoDetectSubdir(filename));
      c.Some? && c.value.auto ==>
        Resolve(PreserveModel.Subdirs, filename, Some(c.value.subdir)) == Resolve(PreserveModel.Subdirs, filename, None)
    ensures ChooseSubdir(field, AutoDetectSubdir(filename)).None? <==>
      field == AutoChoice && Resolve(PreserveModel.Subdirs, filename, None).Failure?
  {
    assert AutoChoice !in PreserveModel.Subdirs;
    AutoDetectAgrees(filename);
    assert "" !in PreserveModel.Subdirs;
  }

  // ---------------------------------------------------------------------
  // `CONFIG.use_deployed`

  /** The words that switch to the deployed function. */
  const Affirmatives: set<string> := {"1", "true", "yes"}

  /** `os.getenv("PRESERVE_MODEL_USE_DEPLOYED", "").strip().lower() in
      {"1", "true", "yes"}`, `None` being an unset variable. */
  function UseDeployed(env: Option<string>): bool {
    var value := if env.Some? then env.value else "";
    AsciiLower(Strip(value)) in Affirmatives
  }

  /** `s` is `word` with any of its letters in upper case. */
  predicate SpelledAs(s: string, word: string) {
    |s| == |word| &&
    forall i | 0 <= i < |s| :: s[i] == word[i] || ('a' <= word[i] <= 'z' && s[i] as int == word[i] as int - 32)
  }

  /** Lowering gives a word of lower-case letters and digits exactly when
      the text spells it in any case. */
  lemma LowerSpells(s: string, word: string)
    requires forall i | 0 <= i < |word| :: 'a' <= word[i] <= 'z' || '0' <= word[i] <= '9'
    ensures AsciiLower(s) == word <==> SpelledAs(s, word)
  {
    if SpelledAs(s, word) {
      assert forall i | 0 <= i < |s| :: AsciiLower(s)[i] == word[i];
    }
  }

  /** The setting is on exactly when the variable, without its surrounding
      whitespace, spells `1`, `true` or `yes` in any case; an unset
      variable leaves it off. */
  lemma UseDeployedSpelling(env: Option<string>)
    ensures env.None? ==> !UseDeployed(env)
    ensures env.Some? ==> (UseDeployed(env) <==> Affirmative(Strip(env.value)))
  {
    if env.Some? {
      AffirmativeLower(Strip(env.value));
    } else {
      assert Strip("") == "";
    }
  }

  /** Spelled as one of the affirmative words in any case. */
  predicate Affirmative(v: string) {
    SpelledAs(v, "1") || SpelledAs(v, "true") || SpelledAs(v, "yes")
  }

  lemma AffirmativeLower(v: string)
    ensures AsciiLower(v) in Affirmatives <==> Affirmative(v)
  {
    var l := AsciiLower(v);
    assert l in Affirmatives <==> l == "1" || l == "true" || l == "yes";
    LowerSpells(v, "1");
    LowerSpells(v, "true");
    LowerSpells(v, "yes");
  }
}
