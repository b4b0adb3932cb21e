/** The Python `str` operations the parsers rely on, on `seq<char>`. */
module Text {
  import opened Wrappers

  /** `str.isspace()` for a single character (the characters Python's
      `str.strip()` and `str.split()` treat as whitespace). */
  predicate IsSpace(c: char) {
    c == ' ' || '\U{9}' <= c <= '\U{D}' || '\U{1C}' <= c <= '\U{1F}'
    || c == '\U{85}' || c == '\U{A0}' || c == '\U{1680}'
    || '\U{2000}' <= c <= '\U{200A}' || c == '\U{2028}' || c == '\U{2029}'
    || c == '\U{202F}' || c == '\U{205F}' || c == '\U{3000}'
  }

  predicate AllSpace(s: string) {
    forall i | 0 <= i < |s| :: IsSpace(s[i])
  }

  predicate NoSpace(s: string) {
    forall i | 0 <= i < |s| :: !IsSpace(s[i])
  }

  /** `str.lstrip()`: the longest suffix that does not start with whitespace. */
  function LStrip(s: string): (r: string)
    ensures |r| <= |s| && r == s[|s| - |r|..]
    ensures AllSpace(s[..|s| - |r|])
    ensures r == [] || !IsSpace(r[0])
  {
    if s != [] && IsSpace(s[0]) then LStrip(s[1..]) else s
  }

  /** `str.rstrip()`: the longest prefix that does not end with whitespace. */
  function RStrip(s: string): (r: string)
    ensures |r| <= |s| && r == s[..|r|]
    ensures AllSpace(s[|r|..])
    ensures r == [] || !IsSpace(r[|r| - 1])
  {
    if s != [] && IsSpace(s[|s| - 1]) then
      var init := s[..|s| - 1];
      var r := RStrip(init);
      assert init[..|r|] == s[..|r|];
      assert s[|r|..] == init[|r|..] + [s[|s| - 1]];
      r
    else s
  }

  /** `str.strip()`. */
  function Strip(s: string): string {
    RStrip(LStrip(s))
  }

  /** `s.strip()` is empty exactly when `s` is all whitespace. */
  lemma StripEmptyIff(s: string)
    ensures Strip(s) == [] <==> AllSpace(s)
  {
    var l := LStrip(s);
    if Strip(s) == [] {
      assert AllSpace(l[|RStrip(l)|..]);
      assert l == [];
      assert s[..|s|] == s;
    } else {
      assert l[0] == s[|s| - |l|];
    }
  }

  /** Stripping text that neither starts nor ends with whitespace keeps it. */
  lemma StripTrimmed(s: string)
    requires s == [] || (!IsSpace(s[0]) && !IsSpace(s[|s| - 1]))
    ensures Strip(s) == s
  {
  }

  lemma {:induction false} LStripSkip(a: string, t: string)
    requires AllSpace(a) && (t == [] || !IsSpace(t[0]))
    ensures LStrip(a + t) == t
  {
    if a != [] {
      assert (a + t)[0] == a[0];
      assert (a + t)[1..] == a[1..] + t;
      LStripSkip(a[1..], t);
    } else {
      assert a + t == t;
    }
  }

  lemma {:induction false} RStripSkip(t: string, b: string)
    requires AllSpace(b) && (t == [] || !IsSpace(t[|t| - 1]))
    ensures RStrip(t + b) == t
  {
    if b != [] {
      assert (t + b)[|t + b| - 1] == b[|b| - 1];
      assert (t + b)[..|t + b| - 1] == t + b[..|b| - 1];
      RStripSkip(t, b[..|b| - 1]);
    } else {
      assert t + b == t;
    }
  }

  /** The text between whitespace margins survives `strip()` unchanged. */
  lemma StripMargins(a: string, s: string, b: string)
    requires AllSpace(a) && AllSpace(b)
    requires s == [] || (!IsSpace(s[0]) && !IsSpace(s[|s| - 1]))
    ensures Strip(a + s + b) == s
  {
    if s == [] {
      assert AllSpace(a + b);
      StripEmptyIff(a + b);
      assert a + s + b == a + b;
    } else {
      assert a + s + b == a + (s + b);
      LStripSkip(a, s + b);
      RStripSkip(s, b);
    }
  }

  /** `str.split(sep)` for a one-character separator: always at least one
      piece, and no piece contains the separator. */
  function Split(s: string, sep: char): (r: seq<string>)
    ensures |r| >= 1
    ensures forall i | 0 <= i < |r| :: sep !in r[i]
  {
    if s == [] then [""]
    else
      var rest := Split(s[1..], sep);
      if s[0] == sep then [""] + rest
      else [[s[0]] + rest[0]] + rest[1..]
  }

  /** `sep.join(parts)`. */
  function Join(parts: seq<string>, sep: string): string {
    if |parts| == 0 then ""
    else if |parts| == 1 then parts[0]
    else parts[0] + sep + Join(parts[1..], sep)
  }

  lemma JoinCons(p: string, ps: seq<string>, sep: string)
    requires ps != []
    ensures Join([p] + ps, sep) == p + sep + Join(ps, sep)
  {
    assert ([p] + ps)[1..] == ps;
  }

  /** Joining the pieces of a split gives the text back. */
  lemma {:induction false} JoinSplit(s: string, sep: char)
    ensures Join(Split(s, sep), [sep]) == s
  {
    if s != [] {
      var rest := Split(s[1..], sep);
      JoinSplit(s[1..], sep);
      if s[0] == sep {
        JoinCons("", rest, [sep]);
      } else if |rest| == 1 {
      } else {
        var r := Split(s, sep);
        assert r == [[s[0]] + rest[0]] + rest[1..];
        JoinCons([s[0]] + rest[0], rest[1..], [sep]);
        JoinCons(rest[0], rest[1..], [sep]);
      }
    }
  }

  /** Splitting a join of separator-free pieces gives the pieces back. */
  lemma {:induction false} SplitJoin(parts: seq<string>, sep: char)
    requires |parts| >= 1
    requires forall i | 0 <= i < |parts| :: sep !in parts[i]
    ensures Split(Join(parts, [sep]), sep) == parts
  {
    if |parts| == 1 {
      SplitFree(parts[0], sep);
    } else {
      SplitJoin(parts[1..], sep);
      JoinCons(parts[0], parts[1..], [sep]);
      SplitAfter(parts[0], Join(parts[1..], [sep]), sep);
      assert [parts[0]] + parts[1..] == parts;
    }
  }

  lemma {:induction false} SplitFree(s: string, sep: char)
    requires sep !in s
    ensures Split(s, sep) == [s]
  {
    if s != [] {
      SplitFree(s[1..], sep);
      assert [s[0]] + s[1..] == s;
    }
  }

  lemma {:induction false} SplitAfter(p: string, t: string, sep: char)
    requires sep !in p
    ensures Split(p + [sep] + t, sep) == [p] + Split(t, sep)
  {
    if p == [] {
      assert p + [sep] + t == [sep] + t;
      assert ([sep] + t)[1..] == t;
    } else {
      SplitAfter(p[1..], t, sep);
      assert (p + [sep] + t)[1..] == p[1..] + [sep] + t;
      assert [p[0]] + p[1..] == p;
    }
  }

  /** `[p for p in pieces if p]`. */
  function NonEmpty(pieces: seq<string>): (r: seq<string>)
    ensures forall i | 0 <= i < |r| :: r[i] != ""
    ensures forall i | 0 <= i < |r| :: r[i] in pieces
    ensures forall p | p in pieces && p != "" :: p in r
  {
    if pieces == [] then []
    else if pieces[0] == "" then NonEmpty(pieces[1..])
    else [pieces[0]] + NonEmpty(pieces[1..])
  }

  /** `sub` occurs in `s` starting at index `i`. */
  predicate OccursAt(s: string, sub: string, i: nat) {
    i + |sub| <= |s| && s[i..i + |sub|] == sub
  }

  /** `sub in s`. */
  predicate Contains(s: string, sub: string) {
    exists i: nat | i <= |s| :: OccursAt(s, sub, i)
  }

  /** `s.find(sub, start)`, as `None` for -1: the first place at or after
      `start` where `sub` occurs. */
  function Find(s: string, sub: string, start: nat): (r: Option<nat>)
    requires start <= |s|
    ensures r.Some? ==> start <= r.value && OccursAt(s, sub, r.value)
    ensures r.Some? ==> forall j | start <= j < r.value :: !OccursAt(s, sub, j)
    ensures r.None? ==> forall j | start <= j :: !OccursAt(s, sub, j)
    decreases |s| - start
  {
    if start + |sub| > |s| then None
    else if OccursAt(s, sub, start) then Some(start)
    else Find(s, sub, start + 1)
  }

  /** `sub in s` holds exactly when `s.find(sub)` finds it. */
  lemma FindContains(s: string, sub: string)
    ensures Find(s, sub, 0).Some? <==> Contains(s, sub)
  {
    if Find(s, sub, 0).Some? {
      assert OccursAt(s, sub, Find(s, sub, 0).value);
    }
  }

  /** The first maximal run of non-whitespace at the front of `s`. */
  function Token(s: string): (w: string)
    ensures |w| <= |s| && w == s[..|w|] && NoSpace(w)
    ensures |w| == |s| || IsSpace(s[|w|])
  {
    if s == [] || IsSpace(s[0]) then ""
    else
      var w := Token(s[1..]);
      assert |w| == |s[1..]| || s[|w| + 1] == s[1..][|w|];
      [s[0]] + w
  }

  /** `str.split()` with no argument: the whitespace-separated words. */
  function Words(s: string): (r: seq<string>)
    ensures forall w | w in r :: w != "" && NoSpace(w)
    decreases |s|
  {
    var t := LStrip(s);
    if t == [] then []
    else
      var w := Token(t);
      assert w != "" by {
        assert |w| == |t| || IsSpace(t[|w|]);
      }
      [w] + Words(t[|w|..])
  }

  /** Words joined by single spaces split back into the same words. */
  lemma {:induction false} WordsJoin(ws: seq<string>)
    requires forall w | w in ws :: w != "" && NoSpace(w)
    ensures Words(Join(ws, " ")) == ws
  {
    if |ws| == 1 {
      assert ws[0] in ws;
      WordsCons(ws[0], "");
      assert ws[0] + "" == ws[0];
    } else if |ws| > 1 {
      assert ws[0] in ws;
      var rest := Join(ws[1..], " ");
      assert Join(ws, " ") == ws[0] + (" " + rest);
      assert (" " + rest)[0] == ' ';
      assert forall w | w in ws[1..] :: w in ws;
      calc {
        Words(Join(ws, " "));
        Words(ws[0] + (" " + rest));
        { WordsCons(ws[0], " " + rest); }
        [ws[0]] + Words(" " + rest);
        { WordsSpace(rest); }
        [ws[0]] + Words(rest);
        { WordsJoin(ws[1..]); }
        [ws[0]] + ws[1..];
        ws;
      }
    }
  }

  lemma WordsCons(w: string, rest: string)
    requires w != "" && NoSpace(w)
    requires rest == [] || IsSpace(rest[0])
    ensures Words(w + rest) == [w] + Words(rest)
  {
    var t := w + rest;
    assert LStrip(t) == t;
    TokenOf(w, rest);
    assert t[|w|..] == rest;
  }

  lemma {:induction false} TokenOf(w: string, t: string)
    requires NoSpace(w)
    requires t == [] || IsSpace(t[0])
    ensures Token(w + t) == w
  {
    if w != [] {
      TokenOf(w[1..], t);
      assert (w + t)[1..] == w[1..] + t;
    }
  }

  lemma WordsSpace(rest: string)
    ensures Words(" " + rest) == Words(rest)
  {
    assert (" " + rest)[1..] == rest;
  }

  /** `s.lower()` on ASCII letters; other characters are kept. */
  function AsciiLower(s: string): (r: string)
    ensures |r| == |s|
    ensures forall i | 0 <= i < |s| :: r[i] == (if 'A' <= s[i] <= 'Z' then (s[i] as int + 32) as char else s[i])
  {
    if s == [] then "" else
      [if 'A' <= s[0] <= 'Z' then (s[0] as int + 32) as char else s[0]] + AsciiLower(s[1..])
  }
}
