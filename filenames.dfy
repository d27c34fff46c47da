/** The screenshot file name: `_sanitize_filename` and the output path built from it
    at the start of `_capture_one_raw`. */
module FileNames {
  import opened Subsequences

  /** The nine characters `_sanitize_filename` deletes: `\ / : * ? " < > |`. */
  const Forbidden: set<char> := {'\\', '/', ':', '*', '?', '"', '<', '>', '|'}

  /** The fixed output directory (`OUTPUT_DIR`, a Windows path). */
  const OutputDir: string := "C:\\Users\\admin\\Downloads"

  /** Separator Windows path joining puts between the directory and the file name. */
  const Separator: char := '\\'

  const Extension: string := ".png"

  /** The characters Python's `str.strip()` with no argument removes (`str.isspace`). */
  predicate IsWhitespace(c: char) {
    || '\t' <= c <= '\r'
    || '\U{1C}' <= c <= ' '
    || c == '\U{85}' || c == '\U{A0}' || c == '\U{1680}'
    || '\U{2000}' <= c <= '\U{200A}'
    || c == '\U{2028}' || c == '\U{2029}' || c == '\U{202F}' || c == '\U{205F}'
    || c == '\U{3000}'
  }

  predicate HasNoForbidden(s: string) {
    forall i :: 0 <= i < |s| ==> s[i] !in Forbidden
  }

  /** Neither end of `s` is whitespace (vacuously true of the empty string). */
  predicate IsStripped(s: string) {
    s == [] || (!IsWhitespace(s[0]) && !IsWhitespace(s[|s| - 1]))
  }

  /** The character filter of `_sanitize_filename`: keeps, in order, every character
      that is not forbidden. */
  function DropForbidden(s: string): (r: string)
    ensures HasNoForbidden(r)
    ensures |r| <= |s|
    ensures forall i :: 0 <= i < |s| && s[i] !in Forbidden ==> s[i] in r
  {
    if s == [] then []
    else if s[0] in Forbidden then DropForbidden(s[1..])
      else [s[0]] + DropForbidden(s[1..])
  }

  /** The filter's result is an order-preserving subsequence of its input. */
  lemma {:induction false} DropForbiddenIsSubsequence(s: string)
    ensures IsSubsequence(DropForbidden(s), s)
  {
    if s != [] {
      DropForbiddenIsSubsequence(s[1..]);
      var r := DropForbidden(s);
      if s[0] !in Forbidden {
        assert r[0] == s[0] && r[1..] == DropForbidden(s[1..]);
      }
    }
  }

  /** The filter keeps every occurrence of every allowed character: together with
      `HasNoForbidden` and `DropForbiddenIsSubsequence` this pins its result down. */
  lemma {:induction false} DropForbiddenKeepsAllowedCounts(s: string, c: char)
    requires c !in Forbidden
    ensures multiset(DropForbidden(s))[c] == multiset(s)[c]
  {
    if s != [] {
      DropForbiddenKeepsAllowedCounts(s[1..], c);
      assert s == [s[0]] + s[1..];
      assert multiset(s) == multiset([s[0]]) + multiset(s[1..]);
    }
  }

  /** `str.lstrip()`: `s` without its leading whitespace. */
  function TrimStart(s: string): (r: string)
    ensures |r| <= |s|
  {
    if s != [] && IsWhitespace(s[0]) then TrimStart(s[1..]) else s
  }

  /** `lstrip` keeps the longest suffix of `s` that does not start with whitespace: what
      it removes is whitespace only. */
  lemma {:induction false} TrimStartIsSuffix(s: string)
    ensures var r := TrimStart(s);
      && r == s[|s| - |r|..]
      && (r == [] || !IsWhitespace(r[0]))
      && forall i :: 0 <= i < |s| - |r| ==> IsWhitespace(s[i])
  {
    if s != [] && IsWhitespace(s[0]) {
      TrimStartIsSuffix(s[1..]);
      var r := TrimStart(s);
      forall i | 0 < i < |s| - |r| ensures IsWhitespace(s[i]) {
        assert s[i] == s[1..][i - 1];
      }
    }
  }

  /** `str.rstrip()`: `s` without its trailing whitespace. */
  function TrimEnd(s: string): (r: string)
    ensures |r| <= |s|
  {
    if s != [] && IsWhitespace(s[|s| - 1]) then TrimEnd(s[..|s| - 1]) else s
  }

  /** `rstrip` keeps the longest prefix of `s` that does not end with whitespace: what
      it removes is whitespace only. */
  lemma {:induction false} TrimEndIsPrefix(s: string)
    ensures var r := TrimEnd(s);
      && r == s[..|r|]
      && (r == [] || !IsWhitespace(r[|r| - 1]))
      && forall i :: |r| <= i < |s| ==> IsWhitespace(s[i])
  {
    if s != [] && IsWhitespace(s[|s| - 1]) {
      var t := s[..|s| - 1];
      TrimEndIsPrefix(t);
      var r := TrimEnd(s);
      forall i | |r| <= i < |s| - 1 ensures IsWhitespace(s[i]) {
        assert s[i] == t[i];
      }
    }
  }

  /** `str.strip()`: `s` with its leading and trailing whitespace removed. */
  function Strip(s: string): (r: string)
    ensures IsStripped(r)
    ensures |r| <= |s|
  {
    var t := TrimStart(s);
    var r := TrimEnd(t);
    TrimStartIsSuffix(s);
    TrimEndIsPrefix(t);
    assert IsStripped(r) by {
      if r != [] {
        assert r[0] == t[0];
      }
    }
    r
  }

  /** What `strip` keeps is one contiguous slice of `s`, starting where the leading
      whitespace ends, and everything outside that slice is whitespace. */
  lemma StripIsSlice(s: string)
    ensures var r, k := Strip(s), |s| - |TrimStart(s)|;
      && k + |r| <= |s|
      && r == s[k..k + |r|]
      && (forall i :: 0 <= i < k ==> IsWhitespace(s[i]))
      && (forall i :: k + |r| <= i < |s| ==> IsWhitespace(s[i]))
  {
    var t := TrimStart(s);
    var k := |s| - |t|;
    var r := TrimEnd(t);
    TrimStartIsSuffix(s);
    TrimEndIsPrefix(t);
    assert r == s[k..k + |r|];
    forall i | k + |r| <= i < |s| ensures IsWhitespace(s[i]) {
      assert s[i] == t[i - k];
    }
  }

  /** `_sanitize_filename`: the forbidden characters dropped, then surrounding
      whitespace stripped. */
  function Sanitize(name: string): (r: string)
    ensures HasNoForbidden(r)
    ensures IsStripped(r)
    ensures |r| <= |name|
  {
    var d := DropForbidden(name);
    StripIsSlice(d);
    Strip(d)
  }

  /** The file `_capture_one_raw` writes: `OUTPUT_DIR / f"{code}.png"` with `code`
      sanitized. It always lies directly inside the output directory: nothing after
      the separator is a path separator or a drive colon. */
  function OutputPath(code: string): string
  {
    OutputDir + [Separator] + Sanitize(code) + Extension
  }

  /** The output file is the output directory, one separator, then a name ending in
      `.png` in which no separator, drive colon or other forbidden character occurs. */
  lemma OutputPathShape(code: string)
    ensures var p := OutputPath(code);
      && |OutputDir| + 1 + |Extension| <= |p|
      && p[..|OutputDir| + 1] == OutputDir + [Separator]
      && p[|p| - |Extension|..] == Extension
      && forall i :: |OutputDir| < i < |p| ==> p[i] !in Forbidden
  {
    var n, name := |OutputDir| + 1, Sanitize(code);
    var p := OutputPath(code);
    forall i | n <= i < |p| ensures p[i] !in Forbidden {
      if i < n + |name| {
        assert p[i] == name[i - n];
      } else {
        assert p[i] == Extension[i - n - |name|];
      }
    }
  }

  // ---------------------------------------------------------------------------
  // Properties of sanitization

  /** The sanitized name is an order-preserving subsequence of the original. */
  lemma SanitizeIsSubsequence(name: string)
    ensures IsSubsequence(Sanitize(name), name)
  {
    var d := DropForbidden(name);
    var r, k := Strip(d), |d| - |TrimStart(d)|;
    StripIsSlice(d);
    SliceIsSubsequence(d, k, k + |r|);
    DropForbiddenIsSubsequence(name);
    SubsequenceTransitive(r, d, name);
  }

  /** Every character of the sanitized name occurs in the original. */
  lemma SanitizeKeepsOnlyOriginalCharacters(name: string, c: char)
    requires c in Sanitize(name)
    ensures c in name && c !in Forbidden
  {
    SanitizeIsSubsequence(name);
    SubsequenceMembers(Sanitize(name), name, c);
  }

  /** The filter leaves a string without forbidden characters unchanged. */
  lemma {:induction false} DropForbiddenFixes(s: string)
    requires HasNoForbidden(s)
    ensures DropForbidden(s) == s
  {
    if s != [] {
      DropForbiddenFixes(s[1..]);
    }
  }

  /** Strip leaves a string with no whitespace at either end unchanged. */
  lemma StripFixesStripped(s: string)
    requires IsStripped(s)
    ensures Strip(s) == s
  {
    assert TrimStart(s) == s;
    assert TrimEnd(s) == s;
  }

  /** Sanitizing a sanitized name returns it unchanged. */
  lemma SanitizeIdempotent(name: string)
    ensures Sanitize(Sanitize(name)) == Sanitize(name)
  {
    var r := Sanitize(name);
    DropForbiddenFixes(r);
    StripFixesStripped(r);
  }

  /** The filter distributes over concatenation. */
  lemma {:induction false} DropForbiddenConcat(a: string, b: string)
    ensures DropForbidden(a + b) == DropForbidden(a) + DropForbidden(b)
  {
    if a == [] {
      assert a + b == b;
    } else {
      var ab := a + b;
      assert ab[0] == a[0] && ab[1..] == a[1..] + b;
      DropForbiddenConcat(a[1..], b);
      if a[0] in Forbidden {
        assert DropForbidden(ab) == DropForbidden(ab[1..]);
      } else {
        assert DropForbidden(ab) == [a[0]] + DropForbidden(ab[1..]);
        assert [a[0]] + (DropForbidden(a[1..]) + DropForbidden(b))
            == ([a[0]] + DropForbidden(a[1..])) + DropForbidden(b);
      }
    }
  }

  /** Inserting a forbidden character anywhere does not change the sanitized name. */
  lemma SanitizeIgnoresForbidden(a: string, c: char, b: string)
    requires c in Forbidden
    ensures Sanitize(a + [c] + b) == Sanitize(a + b)
  {
    DropForbiddenConcat(a + [c], b);
    DropForbiddenConcat(a, [c]);
    DropForbiddenConcat(a, b);
    assert [c][1..] == [];
    assert DropForbidden([c]) == [];
    assert DropForbidden(a + [c]) == DropForbidden(a);
    assert DropForbidden(a + [c] + b) == DropForbidden(a + b);
  }

  /** A name made only of forbidden characters sanitizes to the empty string. */
  lemma {:induction false} AllForbiddenSanitizesToEmpty(name: string)
    requires forall i :: 0 <= i < |name| ==> name[i] in Forbidden
    ensures Sanitize(name) == []
    decreases |name|
  {
    if name != [] {
      AllForbiddenSanitizesToEmpty(name[1..]);
      assert DropForbidden(name) == DropForbidden(name[1..]);
    }
  }

  // ---------------------------------------------------------------------------
  // Properties of the output path

  /** Two codes share an output file exactly when they sanitize to the same name. */
  lemma OutputPathCollision(a: string, b: string)
    ensures OutputPath(a) == OutputPath(b) <==> Sanitize(a) == Sanitize(b)
  {
    var n := |OutputDir| + 1;
    if OutputPath(a) == OutputPath(b) {
      var pa, pb := OutputPath(a), OutputPath(b);
      assert pa[n..|pa| - |Extension|] == Sanitize(a);
      assert pb[n..|pb| - |Extension|] == Sanitize(b);
    }
  }

  /** Codes that differ only in a forbidden character write the same file. */
  lemma ForbiddenDifferenceCollides(a: string, c: char, b: string)
    requires c in Forbidden
    ensures OutputPath(a + [c] + b) == OutputPath(a + b)
  {
    SanitizeIgnoresForbidden(a, c, b);
  }

  /** A code made only of forbidden characters writes `.png` in the output directory. */
  lemma AllForbiddenWritesDotPng(code: string)
    requires forall i :: 0 <= i < |code| ==> code[i] in Forbidden
    ensures OutputPath(code) == OutputDir + "\\.png"
  {
    AllForbiddenSanitizesToEmpty(code);
    assert [Separator] + Sanitize(code) + Extension == "\\.png";
    assert OutputDir + [Separator] + Sanitize(code) + Extension
        == OutputDir + ([Separator] + Sanitize(code) + Extension);
  }

  /** The filter step on the identifier `a/b:c`. */
  lemma DropForbiddenExample()
    ensures DropForbidden("a/b:c") == "abc"
  {
  }

  /** `a/b:c` sanitizes to `abc`. */
  lemma SanitizeExample()
    ensures Sanitize("a/b:c") == "abc"
  {
    DropForbiddenExample();
    StripFixesStripped("abc");
  }

  /** `a/b` and `ab` are written to the same file. */
  lemma OutputPathExampleCollision()
    ensures OutputPath("a/b") == OutputPath("ab")
  {
    var a, b := "a", "b";
    assert a + ['/'] + b == "a/b" && a + b == "ab";
    ForbiddenDifferenceCollides(a, '/', b);
  }
}
