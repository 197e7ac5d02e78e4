/** The pieces of Rust's string library that the log parser relies on:
    `str::trim().is_empty()`, `str::starts_with`, `str::split("--")`,
    `str::split_ascii_whitespace` and `u64::from_str`, each with the inverse
    or reference definition it is proved against. */
module Text {
  import opened Wrappers

  // ---------------------------------------------------------------------
  // Blank lines: `line.trim().is_empty()`
  // ---------------------------------------------------------------------

  /** `char::is_whitespace`: the Unicode White_Space property. */
  predicate IsWhitespace(c: char) {
    var n := c as int;
    (0x09 <= n <= 0x0D) || n == 0x20 || n == 0x85 || n == 0xA0 || n == 0x1680
    || (0x2000 <= n <= 0x200A) || n == 0x2028 || n == 0x2029 || n == 0x202F
    || n == 0x205F || n == 0x3000
  }

  /** `str::trim_start`: the longest suffix not starting with whitespace. */
  function TrimStart(s: string): (t: string)
    ensures |t| <= |s| && t == s[|s| - |t|..]
    ensures forall i | 0 <= i < |s| - |t| :: IsWhitespace(s[i])
    ensures t == [] || !IsWhitespace(t[0])
    decreases |s|
  {
    if s == [] || !IsWhitespace(s[0]) then s else TrimStart(s[1..])
  }

  /** `str::trim_end`: the longest prefix not ending with whitespace. */
  function TrimEnd(s: string): (t: string)
    ensures |t| <= |s| && t == s[..|t|]
    ensures forall i | |t| <= i < |s| :: IsWhitespace(s[i])
    ensures t == [] || !IsWhitespace(t[|t| - 1])
    decreases |s|
  {
    if s == [] || !IsWhitespace(s[|s| - 1]) then s else TrimEnd(s[..|s| - 1])
  }

  /** `str::trim`: whitespace removed from both ends. */
  function Trim(s: string): (t: string)
    ensures exists k | 0 <= k <= |s| - |t| :: t == s[k..][..|t|]
    ensures t == [] || (!IsWhitespace(t[0]) && !IsWhitespace(t[|t| - 1]))
  {
    var u := TrimStart(s);
    var t := TrimEnd(u);
    assert t == s[|s| - |u|..][..|t|];
    t
  }

  /** `s.trim().is_empty()`, stated as: every character is whitespace. */
  predicate IsBlank(s: string) {
    forall i | 0 <= i < |s| :: IsWhitespace(s[i])
  }

  /** IsBlank is exactly `trim().is_empty()`. */
  lemma BlankIsTrimEmpty(s: string)
    ensures IsBlank(s) <==> Trim(s) == []
  {
    var u := TrimStart(s);
    assert Trim(s) == TrimEnd(u);
    if Trim(s) == [] {
      assert u == [];
    }
    if u != [] {
      assert u[0] == s[|s| - |u|];
    }
  }

  predicate StartsWith(s: string, prefix: string) {
    |prefix| <= |s| && s[..|prefix|] == prefix
  }

  // ---------------------------------------------------------------------
  // `s.split("--")`
  // ---------------------------------------------------------------------

  /** True when `s` contains the marker `--` somewhere. */
  predicate HasMarker(s: string) {
    exists i | 0 <= i < |s| - 1 :: s[i] == '-' && s[i + 1] == '-'
  }

  predicate EndsWithDash(s: string) {
    |s| > 0 && s[|s| - 1] == '-'
  }

  /** `s.split("--").collect()`: the pieces between non-overlapping
      occurrences of `--`, matched from the left; empty pieces are kept. */
  function SplitMarker(s: string): (parts: seq<string>)
    ensures |parts| >= 1
    decreases |s|
  {
    if |s| < 2 then [s]
    else if s[0] == '-' && s[1] == '-' then [""] + SplitMarker(s[2..])
    else
      var rest := SplitMarker(s[1..]);
      [[s[0]] + rest[0]] + rest[1..]
  }

  /** The pieces `split("--")` can give: none holds the marker, and none
      but the last ends in a dash (that dash would start the marker). */
  predicate MarkerFreePieces(parts: seq<string>) {
    && (forall i | 0 <= i < |parts| :: !HasMarker(parts[i]))
    && (forall i | 0 <= i < |parts| - 1 :: !EndsWithDash(parts[i]))
  }

  /** The inverse of SplitMarker: the pieces glued back with `--`. */
  function JoinMarker(parts: seq<string>): (s: string)
    requires |parts| >= 1
  {
    if |parts| == 1 then parts[0] else parts[0] + "--" + JoinMarker(parts[1..])
  }

  lemma {:induction false} JoinConsChar(c: char, parts: seq<string>)
    requires |parts| >= 1
    ensures JoinMarker([[c] + parts[0]] + parts[1..]) == [c] + JoinMarker(parts)
  {
    var ps := [[c] + parts[0]] + parts[1..];
    assert ps[1..] == parts[1..];
  }

  /** Splitting loses nothing: gluing the pieces back gives the line. */
  lemma {:induction false} JoinSplit(s: string)
    ensures JoinMarker(SplitMarker(s)) == s
    decreases |s|
  {
    if |s| < 2 {
    } else if s[0] == '-' && s[1] == '-' {
      JoinSplit(s[2..]);
      var ps := [""] + SplitMarker(s[2..]);
      assert ps[1..] == SplitMarker(s[2..]);
      assert s == "--" + s[2..];
    } else {
      JoinSplit(s[1..]);
      JoinConsChar(s[0], SplitMarker(s[1..]));
      assert s == [s[0]] + s[1..];
    }
  }

  /** The joined text starts with the first piece. */
  lemma JoinStartsWithFirst(parts: seq<string>)
    requires |parts| >= 1
    ensures |parts[0]| <= |JoinMarker(parts)|
    ensures JoinMarker(parts)[..|parts[0]|] == parts[0]
  {
  }

  /** Every piece of a split is a piece `split("--")` can give. */
  lemma {:induction false} SplitPieces(s: string)
    ensures MarkerFreePieces(SplitMarker(s))
    decreases |s|
  {
    var parts := SplitMarker(s);
    if |s| < 2 {
      assert parts == [s];
    } else if s[0] == '-' && s[1] == '-' {
      SplitPieces(s[2..]);
      assert parts[1..] == SplitMarker(s[2..]);
    } else {
      var rest := SplitMarker(s[1..]);
      SplitPieces(s[1..]);
      JoinSplit(s[1..]);
      JoinStartsWithFirst(rest);
      var p0 := [s[0]] + rest[0];
      assert parts == [p0] + rest[1..];
      forall i | 0 <= i < |p0| - 1 ensures !(p0[i] == '-' && p0[i + 1] == '-') {
        if i == 0 {
          assert p0[1] == rest[0][0] == s[1];
        } else {
          assert p0[i] == rest[0][i - 1] && p0[i + 1] == rest[0][i];
        }
      }
      if |rest| > 1 {
        if rest[0] == [] {
          assert JoinMarker(rest) == "--" + JoinMarker(rest[1..]);
          assert s[1] == '-';
          assert !EndsWithDash(p0);
        } else {
          assert p0[|p0| - 1] == rest[0][|rest[0]| - 1];
        }
      }
      forall i | 0 <= i < |parts| ensures !HasMarker(parts[i]) {
        if i > 0 { assert parts[i] == rest[i]; }
      }
      forall i | 0 <= i < |parts| - 1 ensures !EndsWithDash(parts[i]) {
        if i > 0 { assert parts[i] == rest[i]; }
      }
    }
  }

  /** A piece without the marker is one piece. */
  lemma {:induction false} SplitNoMarker(s: string)
    requires !HasMarker(s)
    ensures SplitMarker(s) == [s]
    decreases |s|
  {
    if |s| >= 2 {
      assert !(s[0] == '-' && s[1] == '-');
      var s' := s[1..];
      forall i | 0 <= i < |s'| - 1 ensures !(s'[i] == '-' && s'[i + 1] == '-') {
        assert s'[i] == s[i + 1] && s'[i + 1] == s[i + 2];
      }
      SplitNoMarker(s[1..]);
      assert [s[0]] + s[1..] == s;
    }
  }

  /** Splitting `a--b` gives `a` and then the pieces of `b`, provided `a`
      holds no marker and does not end in a dash (a trailing dash of `a`
      would pair with the first dash of the marker). */
  lemma {:induction false} SplitAfterPiece(a: string, b: string)
    requires !HasMarker(a) && !EndsWithDash(a)
    ensures SplitMarker(a + "--" + b) == [a] + SplitMarker(b)
    decreases |a|
  {
    var s := a + "--" + b;
    if |a| == 0 {
      assert s == "--" + b;
      assert s[2..] == b;
    } else {
      assert s[0] == a[0];
      assert !(s[0] == '-' && s[1] == '-') by {
        if |a| >= 2 {
          assert s[1] == a[1];
        } else {
          assert a[0] != '-';
        }
      }
      var a' := a[1..];
      forall i | 0 <= i < |a'| - 1 ensures !(a'[i] == '-' && a'[i + 1] == '-') {
        assert a'[i] == a[i + 1] && a'[i + 1] == a[i + 2];
      }
      assert !EndsWithDash(a') by {
        if |a'| > 0 { assert a'[|a'| - 1] == a[|a| - 1]; }
      }
      assert s[1..] == a' + "--" + b;
      SplitAfterPiece(a', b);
      assert [s[0]] + a' == a;
    }
  }

  /** Pieces without the marker, all but the last free of a trailing dash,
      come back unchanged from joining and splitting. */
  lemma {:induction false} SplitJoin(parts: seq<string>)
    requires |parts| >= 1
    requires forall i | 0 <= i < |parts| :: !HasMarker(parts[i])
    requires forall i | 0 <= i < |parts| - 1 :: !EndsWithDash(parts[i])
    ensures SplitMarker(JoinMarker(parts)) == parts
  {
    if |parts| == 1 {
      SplitNoMarker(parts[0]);
    } else {
      SplitJoin(parts[1..]);
      SplitAfterPiece(parts[0], JoinMarker(parts[1..]));
      assert [parts[0]] + parts[1..] == parts;
    }
  }

  /** `split("--")` is characterised without reference to how it is
      computed: its pieces are exactly the marker-free pieces that join
      back to the line. */
  lemma SplitMarkerCharacterised(s: string, parts: seq<string>)
    requires |parts| >= 1
    ensures parts == SplitMarker(s) <==> JoinMarker(parts) == s && MarkerFreePieces(parts)
  {
    if parts == SplitMarker(s) {
      JoinSplit(s);
      SplitPieces(s);
    }
    if JoinMarker(parts) == s && MarkerFreePieces(parts) {
      SplitJoin(parts);
    }
  }

  // ---------------------------------------------------------------------
  // `s.split_ascii_whitespace()`
  // ---------------------------------------------------------------------

  /** `u8::is_ascii_whitespace`: space, tab, line feed, form feed and
      carriage return (not the vertical tab). */
  predicate IsAsciiWhitespace(c: char) {
    c == ' ' || c == '\t' || c == '\n' || c as int == 0x0C || c == '\r'
  }

  predicate IsWord(s: string) {
    |s| > 0 && forall i | 0 <= i < |s| :: !IsAsciiWhitespace(s[i])
  }

  /** `s.split(char::is_ascii_whitespace)`: empty pieces kept. */
  function SplitAsciiWhitespace(s: string): (parts: seq<string>)
    ensures |parts| >= 1
    ensures forall i, j | 0 <= i < |parts| && 0 <= j < |parts[i]| :: !IsAsciiWhitespace(parts[i][j])
    decreases |s|
  {
    if s == [] then [""]
    else if IsAsciiWhitespace(s[0]) then [""] + SplitAsciiWhitespace(s[1..])
    else
      var rest := SplitAsciiWhitespace(s[1..]);
      var parts := [[s[0]] + rest[0]] + rest[1..];
      assert forall i | 1 <= i < |parts| :: parts[i] == rest[i];
      parts
  }

  function NonEmpty(parts: seq<string>): (r: seq<string>)
    ensures forall i | 0 <= i < |r| :: r[i] != ""
    ensures |r| <= |parts|
    ensures forall i | 0 <= i < |r| :: r[i] in parts
  {
    if parts == [] then []
    else if parts[0] == "" then NonEmpty(parts[1..])
    else [parts[0]] + NonEmpty(parts[1..])
  }

  /** `s.split_ascii_whitespace()`, which the standard library implements
      as the split above with the empty pieces filtered out. */
  function AsciiTokens(s: string): (tokens: seq<string>)
    ensures forall i | 0 <= i < |tokens| :: IsWord(tokens[i])
  {
    NonEmpty(SplitAsciiWhitespace(s))
  }

  lemma {:induction false} SplitWordThenSpace(a: string, w: char, b: string)
    requires forall i | 0 <= i < |a| :: !IsAsciiWhitespace(a[i])
    requires IsAsciiWhitespace(w)
    ensures SplitAsciiWhitespace(a + [w] + b) == [a] + SplitAsciiWhitespace(b)
    decreases |a|
  {
    var s := a + [w] + b;
    if a == [] {
      assert s[1..] == b;
    } else {
      assert s[1..] == a[1..] + [w] + b;
      SplitWordThenSpace(a[1..], w, b);
      assert [a[0]] + a[1..] == a;
    }
  }

  lemma {:induction false} SplitWordAlone(a: string)
    requires forall i | 0 <= i < |a| :: !IsAsciiWhitespace(a[i])
    ensures SplitAsciiWhitespace(a) == [a]
    decreases |a|
  {
    if a != [] {
      SplitWordAlone(a[1..]);
      assert [a[0]] + a[1..] == a;
    }
  }

  /** Three words separated by single ASCII whitespace characters are
      exactly the three tokens of the line. */
  lemma ThreeTokens(a: string, w1: char, b: string, w2: char, c: string)
    requires IsWord(a) && IsWord(b) && IsWord(c)
    requires IsAsciiWhitespace(w1) && IsAsciiWhitespace(w2)
    ensures AsciiTokens(a + [w1] + b + [w2] + c) == [a, b, c]
  {
    assert a + [w1] + b + [w2] + c == a + [w1] + (b + [w2] + c);
    SplitWordThenSpace(a, w1, b + [w2] + c);
    SplitWordThenSpace(b, w2, c);
    SplitWordAlone(c);
    assert SplitAsciiWhitespace(a + [w1] + b + [w2] + c) == [a, b, c];
    assert [a, b, c][1..] == [b, c] && [b, c][1..] == [c] && [c][1..] == [];
    assert NonEmpty([c]) == [c];
    assert NonEmpty([b, c]) == [b, c];
  }

  /** A run of ASCII whitespace, possibly empty. */
  predicate IsSpaceRun(w: string) {
    forall i | 0 <= i < |w| :: IsAsciiWhitespace(w[i])
  }

  /** `seps[0] + words[0] + seps[1] + ... + words[n-1] + seps[n]`. */
  function Interleave(words: seq<string>, seps: seq<string>): (s: string)
    requires |seps| == |words| + 1
    ensures words == [] ==> s == seps[0]
  {
    if words == [] then seps[0] else seps[0] + words[0] + Interleave(words[1..], seps[1..])
  }

  /** `seps` lays out `words` as a line: the words are non-empty runs of
      non-whitespace, the separators are runs of ASCII whitespace, and
      every separator between two words is non-empty, so each word is a
      maximal run. The leading and trailing separators may be empty. */
  predicate Separates(words: seq<string>, seps: seq<string>) {
    && |seps| == |words| + 1
    && (forall i | 0 <= i < |words| :: IsWord(words[i]))
    && (forall i | 0 <= i < |seps| :: IsSpaceRun(seps[i]))
    && (forall i | 0 < i < |words| :: seps[i] != [])
  }

  lemma NoTokens()
    ensures AsciiTokens([]) == []
  {
    assert SplitAsciiWhitespace([]) == [""];
    assert [""][1..] == [];
  }

  lemma NonEmptyEmptyFirst(rest: seq<string>)
    ensures NonEmpty([""] + rest) == NonEmpty(rest)
  {
    assert ([""] + rest)[1..] == rest;
  }

  lemma NonEmptyWordFirst(a: string, rest: seq<string>)
    requires a != ""
    ensures NonEmpty([a] + rest) == [a] + NonEmpty(rest)
  {
    assert ([a] + rest)[1..] == rest;
  }

  /** Leading whitespace yields no token. */
  lemma {:induction false} TokensSkipSpaces(w: string, x: string)
    requires IsSpaceRun(w)
    ensures AsciiTokens(w + x) == AsciiTokens(x)
    decreases |w|
  {
    if w != [] {
      var y := w[1..] + x;
      SplitWordThenSpace([], w[0], y);
      assert [] + [w[0]] + y == w + x;
      NonEmptyEmptyFirst(SplitAsciiWhitespace(y));
      assert AsciiTokens(w + x) == AsciiTokens(y);
      assert IsSpaceRun(w[1..]) by {
        forall i | 0 <= i < |w[1..]| ensures IsAsciiWhitespace(w[1..][i]) {
          assert w[1..][i] == w[i + 1];
        }
      }
      TokensSkipSpaces(w[1..], x);
    } else {
      assert w + x == x;
    }
  }

  /** A word followed by whitespace is the first token. */
  lemma TokensWordThenSpaces(a: string, w: string, x: string)
    requires IsWord(a) && IsSpaceRun(w) && w != []
    ensures AsciiTokens(a + w + x) == [a] + AsciiTokens(x)
  {
    var y := w[1..] + x;
    SplitWordThenSpace(a, w[0], y);
    assert a + [w[0]] + y == a + w + x;
    NonEmptyWordFirst(a, SplitAsciiWhitespace(y));
    TokensSkipSpaces(w[1..], x);
  }

  /** A word followed only by whitespace is the last token. */
  lemma TokensLastWord(a: string, w: string)
    requires IsWord(a) && IsSpaceRun(w)
    ensures AsciiTokens(a + w) == [a]
  {
    NoTokens();
    if w == [] {
      SplitWordAlone(a);
      assert a + w == a;
      NonEmptyWordFirst(a, []);
      assert [a] + [] == [a];
    } else {
      TokensWordThenSpaces(a, w, []);
      assert a + w + [] == a + w;
    }
  }

  /** The tokens of a line laid out by `Separates` are exactly its words. */
  lemma {:induction false} TokensOfInterleaving(words: seq<string>, seps: seq<string>)
    requires Separates(words, seps)
    ensures AsciiTokens(Interleave(words, seps)) == words
    decreases |words|
  {
    if words == [] {
      NoTokens();
      TokensSkipSpaces(seps[0], []);
      assert seps[0] + [] == seps[0];
    } else {
      var rest := Interleave(words[1..], seps[1..]);
      assert Interleave(words, seps) == seps[0] + (words[0] + rest);
      TokensSkipSpaces(seps[0], words[0] + rest);
      if |words| == 1 {
        TokensLastWord(words[0], seps[1]);
      } else {
        var tail := words[1] + Interleave(words[2..], seps[2..]);
        assert words[1..][1..] == words[2..] && seps[1..][1..] == seps[2..];
        assert rest == seps[1] + tail;
        assert words[0] + rest == words[0] + seps[1] + tail;
        TokensWordThenSpaces(words[0], seps[1], tail);
        TokensSkipSpaces(seps[1], tail);
        assert Separates(words[1..], seps[1..]) by {
          forall i | 0 < i < |words[1..]| ensures seps[1..][i] != [] {
            assert seps[1..][i] == seps[i + 1];
          }
        }
        TokensOfInterleaving(words[1..], seps[1..]);
        assert [words[0]] + words[1..] == words;
      }
    }
  }

  lemma InterleaveConsSpace(c: char, words: seq<string>, seps: seq<string>)
    requires |seps| == |words| + 1
    ensures Interleave(words, [[c] + seps[0]] + seps[1..]) == [c] + Interleave(words, seps)
  {
    var seps' := [[c] + seps[0]] + seps[1..];
    assert seps'[1..] == seps[1..];
  }

  /** A line that lays out some tokens. */
  ghost predicate LaidOut(s: string) {
    exists seps :: Separates(AsciiTokens(s), seps) && Interleave(AsciiTokens(s), seps) == s
  }

  /** Whitespace in front of a layout widens its first separator. */
  lemma LaidOutAfterSpace(c: char, rest: string, seps': seq<string>)
    requires IsAsciiWhitespace(c)
    requires Separates(AsciiTokens(rest), seps') && Interleave(AsciiTokens(rest), seps') == rest
    ensures LaidOut([c] + rest)
  {
    var words := AsciiTokens(rest);
    TokensSkipSpaces([c], rest);
    assert AsciiTokens([c] + rest) == words;
    var seps := [[c] + seps'[0]] + seps'[1..];
    InterleaveConsSpace(c, words, seps');
    assert Separates(words, seps) by {
      forall i | 0 <= i < |seps| ensures IsSpaceRun(seps[i]) {
        if i > 0 { assert seps[i] == seps'[i]; }
      }
      forall i | 0 < i < |words| ensures seps[i] != [] {
        assert seps[i] == seps'[i];
      }
    }
    assert Interleave(words, seps) == [c] + rest;
  }

  /** A character glued to the first word of a layout extends that word. */
  lemma LaidOutJoiningWord(c: char, rest: string, seps': seq<string>)
    requires !IsAsciiWhitespace(c)
    requires Separates(AsciiTokens(rest), seps') && Interleave(AsciiTokens(rest), seps') == rest
    requires AsciiTokens(rest) != [] && seps'[0] == []
    ensures LaidOut([c] + rest)
  {
    var words' := AsciiTokens(rest);
    var words := [[c] + words'[0]] + words'[1..];
    assert Interleave(words, seps') == [c] + rest by {
      assert words[1..] == words'[1..];
      var tail := Interleave(words'[1..], seps'[1..]);
      assert rest == seps'[0] + words'[0] + tail;
      assert Interleave(words, seps') == seps'[0] + words[0] + tail;
    }
    assert Separates(words, seps') by {
      assert IsWord(words[0]) by {
        forall i | 0 <= i < |words[0]| ensures !IsAsciiWhitespace(words[0][i]) {
          if i > 0 { assert words[0][i] == words'[0][i - 1]; }
        }
      }
      forall i | 0 <= i < |words| ensures IsWord(words[i]) {
        if i > 0 { assert words[i] == words'[i]; }
      }
    }
    TokensOfInterleaving(words, seps');
    assert Separates(AsciiTokens([c] + rest), seps');
  }

  /** A character before a separator or the end starts a new word. */
  lemma LaidOutNewWord(c: char, rest: string, seps': seq<string>)
    requires !IsAsciiWhitespace(c)
    requires Separates(AsciiTokens(rest), seps') && Interleave(AsciiTokens(rest), seps') == rest
    requires AsciiTokens(rest) == [] || seps'[0] != []
    ensures LaidOut([c] + rest)
  {
    var words' := AsciiTokens(rest);
    var words := [[c]] + words';
    var seps := [""] + seps';
    assert words[1..] == words' && seps[1..] == seps';
    assert Interleave(words, seps) == "" + [c] + Interleave(words', seps');
    assert Interleave(words, seps) == [c] + rest;
    assert Separates(words, seps) by {
      forall i | 0 <= i < |words| ensures IsWord(words[i]) {
        if i > 0 { assert words[i] == words'[i - 1]; }
      }
      forall i | 0 <= i < |seps| ensures IsSpaceRun(seps[i]) {
        if i > 0 { assert seps[i] == seps'[i - 1]; }
      }
      forall i | 0 < i < |words| ensures seps[i] != [] {
        assert seps[i] == seps'[i - 1];
      }
    }
    TokensOfInterleaving(words, seps);
    assert Separates(AsciiTokens([c] + rest), seps);
  }

  /** Every line is a layout of its own tokens. */
  lemma {:induction false} LineIsInterleaving(s: string)
    ensures LaidOut(s)
    decreases |s|
  {
    if s == [] {
      NoTokens();
      assert Separates([], [""]) && Interleave([], [""]) == s;
    } else {
      var c, rest := s[0], s[1..];
      assert s == [c] + rest;
      LineIsInterleaving(rest);
      var seps' :| Separates(AsciiTokens(rest), seps') && Interleave(AsciiTokens(rest), seps') == rest;
      if IsAsciiWhitespace(c) {
        LaidOutAfterSpace(c, rest, seps');
      } else if AsciiTokens(rest) != [] && seps'[0] == [] {
        LaidOutJoiningWord(c, rest, seps');
      } else {
        LaidOutNewWord(c, rest, seps');
      }
    }
  }

  /** `split_ascii_whitespace` is characterised without reference to how it
      is computed: a list of strings is the tokens of a line exactly when
      the line lays them out as maximal non-whitespace runs separated by
      ASCII whitespace, with optional whitespace before and after. */
  lemma AsciiTokensCharacterised(s: string, words: seq<string>)
    ensures words == AsciiTokens(s) <==>
      exists seps :: Separates(words, seps) && Interleave(words, seps) == s
  {
    LineIsInterleaving(s);
    if exists seps :: Separates(words, seps) && Interleave(words, seps) == s {
      var seps :| Separates(words, seps) && Interleave(words, seps) == s;
      TokensOfInterleaving(words, seps);
    }
  }

  // ---------------------------------------------------------------------
  // `<u64 as FromStr>::from_str`
  // ---------------------------------------------------------------------

  const U64_LIMIT: nat := 0x1_0000_0000_0000_0000

  /** Rust's `u64`. */
  type U64 = n: nat | n < U64_LIMIT

  predicate IsDigit(c: char) {
    '0' <= c <= '9'
  }

  predicate AllDigits(s: string) {
    forall i | 0 <= i < |s| :: IsDigit(s[i])
  }

  function DigitValue(c: char): (d: nat)
    requires IsDigit(c)
  {
    c as int - '0' as int
  }

  function DigitChar(d: nat): (c: char)
    requires d < 10
    ensures IsDigit(c) && DigitValue(c) == d
  {
    ('0' as int + d) as char
  }

  /** The number a string of decimal digits denotes, most significant first. */
  function DecimalValue(s: string): (n: nat)
    requires AllDigits(s)
  {
    if s == [] then 0 else DecimalValue(s[..|s| - 1]) * 10 + DigitValue(s[|s| - 1])
  }

  /** `s.parse::<u64>()`: an optional `+`, then at least one ASCII digit,
      denoting a value below 2^64; anything else (the empty string, a lone
      sign, a `-` sign, another character, an overflow) is an error. */
  function ParseU64(s: string): (r: Option<U64>)
    ensures r.Some? ==> |s| >= 1 && forall i | 0 <= i < |s| :: IsDigit(s[i]) || (i == 0 && s[i] == '+')
    ensures r.Some? ==> exists i | 0 <= i < |s| :: IsDigit(s[i])
    ensures |s| >= 1 && AllDigits(s) ==> (r.Some? <==> DecimalValue(s) < U64_LIMIT)
    ensures r.Some? && AllDigits(s) ==> r.value == DecimalValue(s)
  {
    var digits := if |s| > 0 && s[0] == '+' then s[1..] else s;
    if |digits| == 0 || !AllDigits(digits) then None
    else
      var v := DecimalValue(digits);
      assert digits[0] == s[|s| - |digits|];
      if v < U64_LIMIT then Some(v) else None
  }

  /** `.parse().unwrap_or_default()`: the parsed value, or 0 on error. */
  function ParseU64OrZero(s: string): (n: U64)
    ensures ParseU64(s).Some? ==> n == ParseU64(s).value
    ensures ParseU64(s).None? ==> n == 0
  {
    match ParseU64(s)
    case Some(v) => v
    case None => 0
  }

  /** The decimal rendering of `n`, as `n.to_string()` gives it. */
  function DecimalString(n: nat): (s: string)
    ensures |s| >= 1 && AllDigits(s)
  {
    if n < 10 then [DigitChar(n)] else DecimalString(n / 10) + [DigitChar(n % 10)]
  }

  lemma {:induction false} DecimalValueOfString(n: nat)
    ensures DecimalValue(DecimalString(n)) == n
  {
    if n >= 10 {
      var s := DecimalString(n);
      assert s[..|s| - 1] == DecimalString(n / 10);
      DecimalValueOfString(n / 10);
    }
  }

  /** Parsing a rendered `u64` gives the number back. */
  lemma ParseDecimalString(n: U64)
    ensures ParseU64(DecimalString(n)) == Some(n)
  {
    DecimalValueOfString(n);
    var s := DecimalString(n);
    assert IsDigit(s[0]);
  }

  /** A leading zero does not change the value. */
  lemma {:induction false} LeadingZero(s: string)
    requires AllDigits(s)
    ensures AllDigits("0" + s) && DecimalValue("0" + s) == DecimalValue(s)
    decreases |s|
  {
    if s != [] {
      var z := "0" + s;
      assert z[..|z| - 1] == "0" + s[..|s| - 1];
      LeadingZero(s[..|s| - 1]);
    }
  }

  lemma PlusSignAccepted(d: string)
    requires |d| >= 1 && AllDigits(d) && DecimalValue(d) < U64_LIMIT
    ensures ParseU64("+" + d) == Some(DecimalValue(d))
  {
    assert ("+" + d)[1..] == d;
  }

  lemma LeadingZeroAccepted(d: string)
    requires |d| >= 1 && AllDigits(d) && DecimalValue(d) < U64_LIMIT
    ensures ParseU64("0" + d) == Some(DecimalValue(d))
  {
    LeadingZero(d);
  }

  lemma SecondSignRejected(d: string)
    ensures ParseU64("++" + d) == None
  {
    var dd := "++" + d;
    assert dd[1..] == "+" + d && !IsDigit(dd[1..][0]);
  }

  /** `u64::from_str` accepts one `+` sign and leading zeros, but not a
      second sign. */
  lemma ParseU64SignAndZeros(n: U64)
    ensures ParseU64("+" + DecimalString(n)) == Some(n)
    ensures ParseU64("0" + DecimalString(n)) == Some(n)
    ensures ParseU64("++" + DecimalString(n)) == None
  {
    var d := DecimalString(n);
    DecimalValueOfString(n);
    PlusSignAccepted(d);
    LeadingZeroAccepted(d);
    SecondSignRejected(d);
  }

  /** The largest `u64` parses; one more overflows. */
  lemma ParseU64Overflow()
    ensures ParseU64(DecimalString(U64_LIMIT - 1)) == Some(U64_LIMIT - 1)
    ensures ParseU64(DecimalString(U64_LIMIT)) == None
  {
    var top, over := DecimalString(U64_LIMIT - 1), DecimalString(U64_LIMIT);
    DecimalValueOfString(U64_LIMIT - 1);
    DecimalValueOfString(U64_LIMIT);
    assert IsDigit(top[0]) && IsDigit(over[0]);
  }

  /** git's `-` placeholder for binary files, the empty string and a lone
      sign are not numbers, so the counts default to 0. */
  lemma DashDoesNotParse()
    ensures ParseU64("-") == None
    ensures ParseU64("") == None
    ensures ParseU64("+") == None
    ensures ParseU64OrZero("-") == 0
  {
    assert !IsDigit('-');
  }
}
