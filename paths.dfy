/** The `pathlib.PurePosixPath` operations the program uses: splitting a
    path into its parts, its final name, and replacing the suffix of a
    name. */
module Paths {
  import opened Wrappers
  import opened Text

  /** `s.rfind(c)`, as `None` for -1. */
  function LastIndex(s: string, c: char): (r: Option<nat>)
    ensures r.Some? ==> r.value < |s| && s[r.value] == c && c !in s[r.value + 1..]
    ensures r.None? ==> c !in s
  {
    if s == [] then None
    else if s[|s| - 1] == c then Some(|s| - 1)
    else
      var r := LastIndex(s[..|s| - 1], c);
      assert r.Some? ==> s[r.value + 1..] == s[..|s| - 1][r.value + 1..] + [s[|s| - 1]];
      assert r.None? ==> s == s[..|s| - 1] + [s[|s| - 1]];
      r
  }

  /** The last occurrence is the one with no occurrence after it. */
  lemma {:induction false} LastIndexAt(s: string, c: char, i: nat)
    requires i < |s| && s[i] == c && c !in s[i + 1..]
    ensures LastIndex(s, c) == Some(i)
  {
    if i < |s| - 1 {
      assert s[|s| - 1] == s[i + 1..][|s| - 2 - i];
      assert s[..|s| - 1][i + 1..] == s[i + 1..][..|s| - 2 - i];
      LastIndexAt(s[..|s| - 1], c, i);
    }
  }

  /** `PurePath.suffix` of a name: from the last dot on, provided that dot
      is neither the first nor the last character; otherwise empty. */
  function Suffix(name: string): string {
    var dot := LastIndex(name, '.');
    if dot.Some? && 0 < dot.value < |name| - 1 then name[dot.value..] else ""
  }

  /** `PurePath.stem`: the name without its suffix. */
  function Stem(name: string): string {
    name[..|name| - |Suffix(name)|]
  }

  /** A suffix `with_suffix` accepts: empty, or a dot followed by at least
      one character, without a path separator. */
  predicate ValidSuffix(suffix: string) {
    '/' !in suffix && (suffix == "" || (suffix[0] == '.' && suffix != "."))
  }

  /** `PurePath.with_suffix(suffix)` applied to a path whose final
      component is `name`: `None` where Python raises `ValueError` (an
      invalid suffix, or an empty name). */
  function WithSuffix(name: string, suffix: string): (r: Option<string>)
    ensures r.Some? <==> ValidSuffix(suffix) && name != ""
  {
    if !ValidSuffix(suffix) || name == "" then None
    else Some(Stem(name) + suffix)
  }

  /** A suffix of the kind the merge uses: a dot and a dot-free tag. */
  predicate PlainSuffix(suffix: string) {
    |suffix| >= 2 && suffix[0] == '.' && '.' !in suffix[1..] && '/' !in suffix
  }

  /** A non-empty suffix starts with its dot and has no other dot, and a
      non-empty name keeps a non-empty stem. */
  lemma SuffixShape(name: string)
    ensures name == Stem(name) + Suffix(name)
    ensures name != "" ==> Stem(name) != ""
    ensures Suffix(name) == "" || PlainSuffix(Suffix(name)) || '/' in name
  {
    var dot := LastIndex(name, '.');
    if dot.Some? && 0 < dot.value < |name| - 1 {
      var s := name[dot.value..];
      assert s[1..] == name[dot.value + 1..];
      if '/' !in name {
        assert forall i | 0 <= i < |s| :: s[i] in name;
      }
    }
  }

  /** `with_suffix` really installs the suffix: the new name reports it as
      its suffix and keeps the old stem. */
  lemma WithSuffixRoundTrip(name: string, suffix: string)
    requires name != "" && PlainSuffix(suffix)
    ensures WithSuffix(name, suffix).Some?
    ensures Suffix(WithSuffix(name, suffix).value) == suffix
    ensures Stem(WithSuffix(name, suffix).value) == Stem(name)
  {
    SuffixShape(name);
    var stem := Stem(name);
    var w := stem + suffix;
    assert suffix[1..] == w[|stem| + 1..];
    assert w[|stem|] == '.';
    LastIndexAt(w, '.', |stem|);
    assert Suffix(w) == w[|stem|..] == suffix;
  }

  /** A name already carrying the suffix is mapped onto itself, and only
      such a name is. */
  lemma WithSuffixFixed(name: string, suffix: string)
    requires name != "" && PlainSuffix(suffix)
    ensures WithSuffix(name, suffix) == Some(name) <==> Suffix(name) == suffix
  {
    SuffixShape(name);
    WithSuffixRoundTrip(name, suffix);
  }

  /** The anchor pathlib gives a POSIX path: exactly two leading slashes
      are kept as `//`, any other number of them is `/`. */
  function Anchor(s: string): (r: string)
    ensures r == "" || r == "/" || r == "//"
    ensures r != "" <==> s != "" && s[0] == '/'
  {
    if s == "" || s[0] != '/' then ""
    else if |s| >= 2 && s[1] == '/' && (|s| == 2 || s[2] != '/') then "//"
    else "/"
  }

  /** The pieces pathlib keeps: empty pieces and `.` are dropped. */
  function Keep(pieces: seq<string>): (r: seq<string>)
    ensures forall p | p in r :: p in pieces && p != "" && p != "."
    ensures forall p | p in pieces && p != "" && p != "." :: p in r
  {
    if pieces == [] then []
    else
      var rest := Keep(pieces[1..]);
      assert forall p | p in pieces[1..] :: p in pieces;
      assert forall p | p in pieces :: p == pieces[0] || p in pieces[1..];
      if pieces[0] == "" || pieces[0] == "." then rest else [pieces[0]] + rest
  }

  /** The named components of a path, without its anchor. */
  function Components(s: string): (r: seq<string>)
    ensures forall p | p in r :: p != "" && p != "." && '/' !in p
  {
    var pieces := Split(s, '/');
    assert forall p | p in pieces :: '/' !in p;
    Keep(pieces)
  }

  /** `PurePosixPath(s).parts`. */
  function Parts(s: string): seq<string> {
    (if Anchor(s) == "" then [] else [Anchor(s)]) + Components(s)
  }

  /** `PurePosixPath(s).name`: the last component, or empty for a bare
      anchor or an empty path. */
  function Name(s: string): (r: string)
    ensures '/' !in r && r != "."
    ensures r == "" <==> Components(s) == []
  {
    var c := Components(s);
    if c == [] then ""
    else
      assert c[|c| - 1] in c;
      c[|c| - 1]
  }

  /** Pieces that are all names are all kept. */
  lemma {:induction false} KeepAll(pieces: seq<string>)
    requires forall i | 0 <= i < |pieces| :: pieces[i] != "" && pieces[i] != "."
    ensures Keep(pieces) == pieces
  {
    if pieces != [] {
      KeepAll(pieces[1..]);
    }
  }

  /** `PurePosixPath(s).as_posix()`: the anchor and the components joined
      by `/`, or `.` for an empty path. */
  function AsPosix(s: string): string {
    var c := Components(s);
    if Anchor(s) == "" && c == [] then "." else Anchor(s) + Join(c, "/")
  }

  /** Writing a path out in its normal form keeps its parts. */
  lemma AsPosixParts(s: string)
    ensures Parts(AsPosix(s)) == Parts(s)
  {
    var a, c := Anchor(s), Components(s);
    assert forall i | 0 <= i < |c| :: PlainName(c[i]) by {
      forall i | 0 <= i < |c| ensures PlainName(c[i]) {
        assert c[i] in c;
      }
    }
    if a == "" && c == [] {
      SplitFree(".", '/');
    } else if a == "" {
      assert AsPosix(s) == Join(c, "/");
      RelativeParts(c);
    } else {
      RootedParts(a, c);
    }
  }

  /** A join of non-empty pieces starts with the first piece. */
  lemma JoinFront(parts: seq<string>, sep: string)
    requires parts != [] && parts[0] != ""
    ensures Join(parts, sep) != "" && Join(parts, sep)[0] == parts[0][0]
  {
  }

  /** A relative path written as names joined by `/` has those names as
      its parts. */
  lemma RelativeParts(names: seq<string>)
    requires names != []
    requires forall i | 0 <= i < |names| :: names[i] != "" && names[i] != "." && '/' !in names[i]
    ensures Parts(Join(names, "/")) == names
  {
    SplitJoin(names, '/');
    KeepAll(names);
    JoinFront(names, "/");
    assert names[0][0] in names[0];
  }

  /** A single plain path component: a name pathlib keeps as it is. */
  predicate PlainName(s: string) {
    s != "" && s != "." && '/' !in s
  }

  /** Past a leading empty piece, pathlib keeps pieces that are names. */
  lemma KeepNamed(pieces: seq<string>)
    requires pieces != [] && pieces[0] == ""
    requires forall i | 1 <= i < |pieces| :: pieces[i] != "" && pieces[i] != "."
    ensures Keep(pieces) == pieces[1..]
  {
    var rest := pieces[1..];
    assert forall i | 0 <= i < |rest| :: rest[i] != "" && rest[i] != "." by {
      forall i | 0 <= i < |rest| ensures rest[i] != "" && rest[i] != "." {
        assert rest[i] == pieces[i + 1];
      }
    }
    KeepAll(rest);
  }

  /** An absolute path written as `/` followed by names joined by `/`. */
  lemma AbsoluteParts(names: seq<string>)
    requires names != [] && forall i | 0 <= i < |names| :: PlainName(names[i])
    ensures Parts("/" + Join(names, "/")) == ["/"] + names
    ensures Name("/" + Join(names, "/")) == names[|names| - 1]
  {
    RootedParts("/", names);
    var c := Components("/" + Join(names, "/"));
    assert Name("/" + Join(names, "/")) == c[|c| - 1];
  }

  /** A path written as an anchor followed by names joined by `/` has the
      anchor and the names as its parts. */
  lemma RootedParts(a: string, names: seq<string>)
    requires a == "/" || a == "//"
    requires forall i | 0 <= i < |names| :: PlainName(names[i])
    ensures Parts(a + Join(names, "/")) == [a] + names
    ensures Components(a + Join(names, "/")) == names
  {
    var p := a + Join(names, "/");
    RootedAnchor(a, names);
    RootedSplit(a, names);
    var pieces := if names == [] then [""] else names;
    assert Keep(pieces) == names by {
      if names == [] {
        KeepEmptyFront([]);
      } else {
        KeepAll(names);
      }
    }
    KeepEmptyFront(pieces);
    if a == "//" {
      KeepEmptyFront([""] + pieces);
    }
  }

  /** A leading empty piece is dropped. */
  lemma KeepEmptyFront(rest: seq<string>)
    ensures Keep([""] + rest) == Keep(rest)
  {
    assert ([""] + rest)[1..] == rest;
  }

  lemma RootedAnchor(a: string, names: seq<string>)
    requires a == "/" || a == "//"
    requires forall i | 0 <= i < |names| :: PlainName(names[i])
    ensures Anchor(a + Join(names, "/")) == a
  {
    var j := Join(names, "/");
    assert j == "" || j[0] != '/' by {
      if names != [] {
        JoinFront(names, "/");
        assert names[0][0] in names[0];
      }
    }
    AnchorBefore(a, j);
  }

  /** An anchor followed by something that does not start with a slash. */
  lemma AnchorBefore(a: string, j: string)
    requires a == "/" || a == "//"
    requires j == "" || j[0] != '/'
    ensures Anchor(a + j) == a
  {
    var p := a + j;
    assert p[0] == '/';
    if a == "//" {
      assert p[1] == '/';
      assert |p| == 2 || p[2] == j[0];
    } else {
      assert |p| == 1 || p[1] == j[0];
    }
  }

  /** Splitting at `/` gives one empty piece per leading slash, then the
      names (or one empty piece when there are none). */
  lemma RootedSplit(a: string, names: seq<string>)
    requires a == "/" || a == "//"
    requires forall i | 0 <= i < |names| :: PlainName(names[i])
    ensures var pieces := if names == [] then [""] else names;
      Split(a + Join(names, "/"), '/') == (if a == "/" then [""] + pieces else [""] + ([""] + pieces))
  {
    var j := Join(names, "/");
    assert Split(j, '/') == (if names == [] then [""] else names) by {
      if names != [] {
        SplitJoin(names, '/');
      }
    }
    SplitAfter("", j, '/');
    assert "" + "/" + j == "/" + j;
    if a == "//" {
      SplitAfter("", "/" + j, '/');
      assert "" + "/" + ("/" + j) == a + j;
    }
  }
}
