/**
 * The two text filters of main.go: `cleanPath`, which strips every character the
 * pattern `InvalidPathCharacters` matches after `filepath.Clean`, and
 * `replaceWhitespace`, which turns each run of `\s` into one hyphen.
 */
module PathSanitizer {
  import opened Chars

  /**
   * What the pipeline uses from Go's libraries without the model interpreting it:
   * the Unicode tables behind `\pL` (letters), `\pN` (numbers) and `\p{Latin}`
   * (Latin script), and the lexical path normaliser `filepath.Clean`.
   */
  datatype Library = Library(
    letters: set<char>,
    numbers: set<char>,
    latin: set<char>,
    clean: string -> string)

  /** A single path element that `filepath.Clean` has nothing to do to. */
  predicate IsPlainElement(s: string) {
    s != [] && '/' !in s && s != "." && s != ".."
  }

  /**
   * Facts the real tables and `filepath.Clean` satisfy and that the examples rely on:
   * ASCII letters are letters of Latin script, ASCII digits are numbers, the
   * hyphen-minus is in none of the three tables, `Clean("")` is "." and a plain
   * element comes back unchanged. The last two are facts of the Unix path package,
   * where '/' is the only separator (on Windows, `a\..\b` is not plain).
   */
  ghost predicate Plausible(lib: Library) {
    (forall c :: IsAsciiLetter(c) ==> c in lib.letters && c in lib.latin) &&
    (forall c :: IsDigit(c) ==> c in lib.numbers) &&
    '-' !in lib.letters && '-' !in lib.numbers && '-' !in lib.latin &&
    lib.clean("") == "." &&
    (forall s :: IsPlainElement(s) ==> lib.clean(s) == s)
  }

  /**
   * The characters `[^\pL\pN\p{Latin}\.-_\s#]` does NOT match. Inside the class,
   * `\.-_` is the range from '.' (0x2E) to '_' (0x5F): it admits '/', ':', ';',
   * '<' .. '@', the ASCII capitals and '[', '\', ']', '^', but not '-' itself.
   */
  predicate Allowed(lib: Library, c: char) {
    c in lib.letters || c in lib.numbers || c in lib.latin ||
    ('.' <= c <= '_') || IsSpace(c) || c == '#'
  }

  predicate AllAllowed(lib: Library, s: string) {
    forall i :: 0 <= i < |s| ==> Allowed(lib, s[i])
  }

  /** `InvalidPathCharacters.ReplaceAllString(s, "")`: every match is a single character, removed. */
  function StripInvalid(lib: Library, s: string): (r: string)
    ensures AllAllowed(lib, r)
    ensures |r| <= |s|
  {
    if s == [] then []
    else (if Allowed(lib, s[0]) then [s[0]] else []) + StripInvalid(lib, s[1..])
  }

  /** `cleanPath`: the result of `strings.TrimSpace` is discarded, so no trimming takes place. */
  function CleanPath(lib: Library, dirty: string): (r: string)
    ensures AllAllowed(lib, r)
    ensures |r| <= |lib.clean(dirty)|
  {
    StripInvalid(lib, lib.clean(dirty))
  }

  lemma {:induction false} StripInvalidAppend(lib: Library, a: string, b: string)
    ensures StripInvalid(lib, a + b) == StripInvalid(lib, a) + StripInvalid(lib, b)
  {
    if a == [] {
      assert a + b == b;
    } else {
      assert (a + b)[0] == a[0] && (a + b)[1..] == a[1..] + b;
      StripInvalidAppend(lib, a[1..], b);
    }
  }

  /** The filter leaves a string alone exactly when every character of it is allowed. */
  lemma {:induction false} StripInvalidFixedPoints(lib: Library, s: string)
    ensures StripInvalid(lib, s) == s <==> AllAllowed(lib, s)
  {
    if s != [] {
      StripInvalidFixedPoints(lib, s[1..]);
      if !Allowed(lib, s[0]) {
        assert |StripInvalid(lib, s)| < |s|;
      }
    }
  }

  /** Filtering twice is filtering once (unlike `cleanPath` as a whole, see CleanPathNotIdempotent). */
  lemma StripInvalidIdempotent(lib: Library, s: string)
    ensures StripInvalid(lib, StripInvalid(lib, s)) == StripInvalid(lib, s)
  {
    StripInvalidFixedPoints(lib, StripInvalid(lib, s));
  }

  /**
   * `ReplaceAllString(s, "")` deletes: a single character is kept when it is allowed
   * and removed otherwise, which with StripInvalidAppend determines the filter.
   */
  lemma StripInvalidOfChar(lib: Library, c: char)
    ensures Allowed(lib, c) ==> StripInvalid(lib, [c]) == [c]
    ensures !Allowed(lib, c) ==> StripInvalid(lib, [c]) == []
  {
    assert [c][1..] == [];
  }

  /** The filtered text holds exactly the allowed characters of the input. */
  lemma {:induction false} StripInvalidMembers(lib: Library, s: string)
    ensures forall c :: c in StripInvalid(lib, s) <==> c in s && Allowed(lib, c)
  {
    if s != [] {
      StripInvalidMembers(lib, s[1..]);
      assert s == [s[0]] + s[1..];
    }
  }

  /** The hyphen-minus never survives `cleanPath`, because the range `.-_` does not contain it. */
  lemma CleanPathHasNoHyphen(lib: Library, dirty: string)
    requires '-' !in lib.letters && '-' !in lib.numbers && '-' !in lib.latin
    ensures '-' !in CleanPath(lib, dirty)
  {
  }

  /** Characters every plausible library lets through: ASCII letters and digits, the range, `\s` and '#'. */
  predicate SurelyAllowed(c: char) {
    IsAsciiLetter(c) || IsDigit(c) || ('.' <= c <= '_') || IsSpace(c) || c == '#'
  }

  predicate AllSurelyAllowed(s: string) {
    forall i :: 0 <= i < |s| ==> SurelyAllowed(s[i])
  }

  lemma SurelyAllowedIsAllowed(lib: Library, s: string)
    requires Plausible(lib) && AllSurelyAllowed(s)
    ensures AllAllowed(lib, s)
  {
  }

  /**
   * No trimming takes place: a single path element made of allowed characters,
   * leading and trailing spaces included, comes back unchanged.
   */
  lemma CleanPathKeepsPlainElement(lib: Library, s: string)
    requires Plausible(lib) && IsPlainElement(s) && AllSurelyAllowed(s)
    ensures CleanPath(lib, s) == s
  {
    SurelyAllowedIsAllowed(lib, s);
    StripInvalidFixedPoints(lib, s);
  }

  /** The empty name becomes ".", the name `filepath.Clean` gives it, which is allowed. */
  lemma CleanPathOfEmpty(lib: Library)
    requires Plausible(lib)
    ensures CleanPath(lib, "") == "."
  {
    StripInvalidFixedPoints(lib, ".");
  }

  /** Outer spaces survive: the surrounding whitespace is not trimmed. */
  lemma CleanPathKeepsOuterSpaces(lib: Library)
    requires Plausible(lib)
    ensures CleanPath(lib, " Search ") == " Search "
  {
    CleanPathKeepsPlainElement(lib, " Search ");
  }

  /** '-' is stripped, while '#', ';' and '@' are kept. */
  lemma CleanPathDropsHyphen(lib: Library)
    requires Plausible(lib)
    ensures CleanPath(lib, "C#-a;b@c") == "C#a;b@c"
  {
    assert lib.clean("C#-a;b@c") == "C#-a;b@c" by {
      assert IsPlainElement("C#-a;b@c");
    }
    assert "C#-a;b@c" == "C#" + "-" + "a;b@c";
    StripHyphenBetween(lib, "C#", "a;b@c");
  }

  /** A hyphen between two surely allowed parts is the only thing the filter removes. */
  lemma StripHyphenBetween(lib: Library, a: string, b: string)
    requires Plausible(lib) && AllSurelyAllowed(a) && AllSurelyAllowed(b)
    ensures StripInvalid(lib, a + "-" + b) == a + b
  {
    StripInvalidAppend(lib, a + "-", b);
    StripInvalidAppend(lib, a, "-");
    assert StripInvalid(lib, "-") == [];
    SurelyAllowedIsAllowed(lib, a);
    SurelyAllowedIsAllowed(lib, b);
    StripInvalidFixedPoints(lib, a);
    StripInvalidFixedPoints(lib, b);
    assert a + [] == a;
  }

  /**
   * `cleanPath` is not idempotent: stripping '-' from "a/-/b" leaves "a//b", which a
   * second `filepath.Clean` shortens to "a/b" (both Clean results are those of Go's
   * Unix path package).
   */
  lemma CleanPathNotIdempotent(lib: Library)
    requires Plausible(lib)
    requires lib.clean("a/-/b") == "a/-/b" && lib.clean("a//b") == "a/b"
    ensures CleanPath(lib, "a/-/b") == "a//b"
    ensures CleanPath(lib, CleanPath(lib, "a/-/b")) == "a/b"
  {
    assert "a/-/b" == "a/" + "-" + "/b";
    StripHyphenBetween(lib, "a/", "/b");
    assert "a/" + "/b" == "a//b";
    SurelyAllowedIsAllowed(lib, "a/b");
    StripInvalidFixedPoints(lib, "a/b");
  }

  /** Drops the leading run of `\s` characters. */
  function SkipSpaces(s: string): (r: string)
    ensures |r| <= |s|
    ensures r == [] || !IsSpace(r[0])
  {
    if s != [] && IsSpace(s[0]) then SkipSpaces(s[1..]) else s
  }

  /** What SkipSpaces drops is a run of whitespace at the front. */
  lemma {:induction false} SkipSpacesIsSuffix(s: string)
    ensures SkipSpaces(s) == s[|s| - |SkipSpaces(s)|..]
    ensures forall i :: 0 <= i < |s| - |SkipSpaces(s)| ==> IsSpace(s[i])
  {
    if s != [] && IsSpace(s[0]) {
      SkipSpacesIsSuffix(s[1..]);
      assert forall i :: 1 <= i < |s| ==> s[i] == s[1..][i - 1];
    }
  }

  /** The last character after the first one survives skipping, or was whitespace. */
  lemma SkipTailLast(a: string)
    requires |a| > 1
    ensures SkipSpaces(a[1..]) != [] ==> SkipSpaces(a[1..])[|SkipSpaces(a[1..])| - 1] == a[|a| - 1]
    ensures SkipSpaces(a[1..]) == [] ==> IsSpace(a[|a| - 1])
  {
    var s, t := a[1..], SkipSpaces(a[1..]);
    SkipSpacesIsSuffix(s);
    assert s[|s| - 1] == a[|a| - 1];
    if t != [] {
      assert t[|t| - 1] == s[|s| - 1];
    } else {
      assert IsSpace(s[|s| - 1]);
    }
  }

  /** `replaceWhitespace`: `\s+` is greedy, so each maximal run becomes one "-". */
  function ReplaceWhitespace(s: string): (r: string)
    ensures NoSpace(r)
    decreases |s|
  {
    if s == [] then []
    else if IsSpace(s[0]) then "-" + ReplaceWhitespace(SkipSpaces(s[1..]))
    else [s[0]] + ReplaceWhitespace(s[1..])
  }

  /** The number of maximal runs of `\s` in `s`, counted at the character that starts each run. */
  function SpaceRuns(s: string): (n: nat) {
    if s == [] then 0 else
      var startsRun := IsSpace(s[|s| - 1]) && (|s| == 1 || !IsSpace(s[|s| - 2]));
      SpaceRuns(s[..|s| - 1]) + (if startsRun then 1 else 0)
  }

  /** Text without whitespace is left as it is. */
  lemma {:induction false} ReplaceWhitespaceIdentity(s: string)
    requires NoSpace(s)
    ensures ReplaceWhitespace(s) == s
  {
    if s != [] {
      ReplaceWhitespaceIdentity(s[1..]);
    }
  }

  /** A non-empty run of whitespace alone becomes a single hyphen. */
  lemma ReplaceWhitespaceOfRun(s: string)
    requires s != [] && forall i :: 0 <= i < |s| ==> IsSpace(s[i])
    ensures ReplaceWhitespace(s) == "-"
  {
    SkipSpacesIsSuffix(s[1..]);
    assert SkipSpaces(s[1..]) == [];
  }

  lemma {:induction false} SkipSpacesAppend(a: string, b: string)
    ensures SkipSpaces(a) != [] ==> SkipSpaces(a + b) == SkipSpaces(a) + b
    ensures SkipSpaces(a) == [] ==> SkipSpaces(a + b) == SkipSpaces(b)
  {
    if a == [] {
      assert a + b == b;
    } else {
      assert (a + b)[0] == a[0];
      assert (a + b)[1..] == a[1..] + b;
      if IsSpace(a[0]) {
        SkipSpacesAppend(a[1..], b);
      }
    }
  }

  /**
   * The function works piece by piece: it distributes over a concatenation unless the
   * cut falls inside a whitespace run. With ReplaceWhitespaceIdentity and
   * ReplaceWhitespaceOfRun this determines it on every input.
   */
  lemma {:induction false} ReplaceWhitespaceAppend(a: string, b: string)
    requires a == [] || b == [] || !IsSpace(a[|a| - 1]) || !IsSpace(b[0])
    ensures ReplaceWhitespace(a + b) == ReplaceWhitespace(a) + ReplaceWhitespace(b)
    decreases |a|, 1
  {
    if a == [] {
      assert a + b == b;
    } else if b == [] {
      assert a + b == a;
    } else if IsSpace(a[0]) {
      AppendAfterSpace(a, b);
    } else {
      AppendAfterText(a, b);
    }
  }

  lemma {:induction false} AppendAfterText(a: string, b: string)
    requires a != [] && b != [] && !IsSpace(a[0])
    requires !IsSpace(a[|a| - 1]) || !IsSpace(b[0])
    ensures ReplaceWhitespace(a + b) == ReplaceWhitespace(a) + ReplaceWhitespace(b)
    decreases |a|, 0
  {
    UnfoldAtText(a, b);
    assert a[1..] == [] || !IsSpace(a[1..][|a| - 2]) || !IsSpace(b[0]);
    ReplaceWhitespaceAppend(a[1..], b);
    assert ReplaceWhitespace(a) == [a[0]] + ReplaceWhitespace(a[1..]);
    AppendAssoc([a[0]], ReplaceWhitespace(a[1..]), ReplaceWhitespace(b));
  }

  lemma {:induction false} AppendAfterSpace(a: string, b: string)
    requires a != [] && b != [] && IsSpace(a[0])
    requires !IsSpace(a[|a| - 1]) || !IsSpace(b[0])
    ensures ReplaceWhitespace(a + b) == ReplaceWhitespace(a) + ReplaceWhitespace(b)
    decreases |a|, 0
  {
    var t := SkipSpaces(a[1..]);
    UnfoldAtSpace(a, b);
    assert ReplaceWhitespace(a) == "-" + ReplaceWhitespace(t);
    SkipSpacesAppend(a[1..], b);
    if t == [] {
      RunThenText(a, b);
      assert ReplaceWhitespace(a) == "-" by {
        assert "-" + [] == "-";
      }
    } else {
      SkipTailLast(a);
      ReplaceWhitespaceAppend(t, b);
      AppendAssoc("-", ReplaceWhitespace(t), ReplaceWhitespace(b));
    }
  }

  lemma UnfoldAtSpace(a: string, b: string)
    requires a != [] && IsSpace(a[0])
    ensures ReplaceWhitespace(a + b) == "-" + ReplaceWhitespace(SkipSpaces(a[1..] + b))
  {
    assert (a + b)[0] == a[0] && (a + b)[1..] == a[1..] + b;
  }

  lemma UnfoldAtText(a: string, b: string)
    requires a != [] && !IsSpace(a[0])
    ensures ReplaceWhitespace(a + b) == [a[0]] + ReplaceWhitespace(a[1..] + b)
  {
    assert (a + b)[0] == a[0] && (a + b)[1..] == a[1..] + b;
  }

  /** A string made only of whitespace, followed by text that starts with a non-space. */
  lemma RunThenText(a: string, b: string)
    requires a != [] && b != [] && IsSpace(a[0]) && SkipSpaces(a[1..]) == []
    requires !IsSpace(a[|a| - 1]) || !IsSpace(b[0])
    ensures SkipSpaces(a[1..] + b) == b
  {
    SkipSpacesAppend(a[1..], b);
    if |a| > 1 {
      SkipTailLast(a);
    }
  }

  /** One more whitespace character at the end of a trailing run changes nothing. */
  lemma {:induction false} ReplaceWhitespaceExtendRun(s: string, c: char)
    requires s != [] && IsSpace(s[|s| - 1]) && IsSpace(c)
    ensures ReplaceWhitespace(s + [c]) == ReplaceWhitespace(s)
    decreases |s|
  {
    if IsSpace(s[0]) {
      var t := SkipSpaces(s[1..]);
      UnfoldAtSpace(s, [c]);
      SkipSpacesAppend(s[1..], [c]);
      if t == [] {
        assert SkipSpaces([c]) == [];
      } else {
        SkipTailLast(s);
        ReplaceWhitespaceExtendRun(t, c);
      }
    } else {
      UnfoldAtText(s, [c]);
      assert s[1..][|s| - 2] == s[|s| - 1];
      ReplaceWhitespaceExtendRun(s[1..], c);
    }
  }

  /**
   * Read from the back: a character that is not whitespace is copied, the first
   * whitespace character of a run adds a '-', and any further one adds nothing.
   */
  lemma ReplaceWhitespaceSnoc(p: string, c: char)
    ensures ReplaceWhitespace(p + [c]) ==
      if !IsSpace(c) then ReplaceWhitespace(p) + [c]
      else if p == [] || !IsSpace(p[|p| - 1]) then ReplaceWhitespace(p) + "-"
      else ReplaceWhitespace(p)
  {
    if !IsSpace(c) {
      SnocText(p, c);
    } else if p == [] || !IsSpace(p[|p| - 1]) {
      SnocRunStart(p, c);
    } else {
      ReplaceWhitespaceExtendRun(p, c);
    }
  }

  lemma SnocText(p: string, c: char)
    requires !IsSpace(c)
    ensures ReplaceWhitespace(p + [c]) == ReplaceWhitespace(p) + [c]
  {
    ReplaceWhitespaceAppend(p, [c]);
    ReplaceWhitespaceIdentity([c]);
  }

  lemma SnocRunStart(p: string, c: char)
    requires IsSpace(c) && (p == [] || !IsSpace(p[|p| - 1]))
    ensures ReplaceWhitespace(p + [c]) == ReplaceWhitespace(p) + "-"
  {
    ReplaceWhitespaceAppend(p, [c]);
    ReplaceWhitespaceOfRun([c]);
  }

  /** The function adds exactly one hyphen per whitespace run ... */
  lemma {:induction false} ReplaceWhitespaceHyphens(s: string)
    ensures multiset(ReplaceWhitespace(s))['-'] == multiset(s)['-'] + SpaceRuns(s)
  {
    if s != [] {
      var p, c := s[..|s| - 1], s[|s| - 1];
      assert s == p + [c];
      assert multiset(s) == multiset(p) + multiset{c};
      ReplaceWhitespaceHyphens(p);
      HyphenCountSnoc(p, c);
    }
  }

  /** One more character adds a hyphen when it is one, or when it starts a whitespace run. */
  lemma HyphenCountSnoc(p: string, c: char)
    ensures multiset(ReplaceWhitespace(p + [c]))['-'] == multiset(ReplaceWhitespace(p))['-'] +
      if c == '-' || (IsSpace(c) && (p == [] || !IsSpace(p[|p| - 1]))) then 1 else 0
  {
    ReplaceWhitespaceSnoc(p, c);
    var q := ReplaceWhitespace(p);
    if !IsSpace(c) {
      assert multiset(q + [c]) == multiset(q) + multiset{c};
    } else if p == [] || !IsSpace(p[|p| - 1]) {
      assert multiset(q + "-") == multiset(q) + multiset{'-'};
    }
  }

  /** ... and removes all whitespace: the result is shorter by the spaces and longer by the runs. */
  lemma {:induction false} ReplaceWhitespaceLength(s: string)
    ensures |ReplaceWhitespace(s)| == |s| - CountSpaces(s) + SpaceRuns(s)
  {
    if s != [] {
      var p, c := s[..|s| - 1], s[|s| - 1];
      assert s == p + [c];
      ReplaceWhitespaceLength(p);
      ReplaceWhitespaceSnoc(p, c);
    }
  }

  /** Every character of the result is a '-' or a character of the input. */
  lemma {:induction false} ReplaceWhitespaceChars(s: string)
    ensures forall c :: c in ReplaceWhitespace(s) ==> c == '-' || c in s
  {
    if s != [] {
      var p, c := s[..|s| - 1], s[|s| - 1];
      assert s == p + [c];
      ReplaceWhitespaceChars(p);
      ReplaceWhitespaceSnoc(p, c);
      forall x | x in ReplaceWhitespace(s)
        ensures x == '-' || x in s
      {
        if x in ReplaceWhitespace(p) {
          assert x == '-' || x in p;
        }
      }
    }
  }

  /** The characters of s that are neither whitespace nor hyphens, in order. */
  function Kept(s: string): (r: string)
    ensures |r| <= |s| && NoSpace(r) && '-' !in r
  {
    if s == [] then [] else
      var c := s[|s| - 1];
      Kept(s[..|s| - 1]) + if IsSpace(c) || c == '-' then [] else [c]
  }

  /** Every character other than whitespace and hyphens comes through, in order, and nothing else is added. */
  lemma {:induction false} ReplaceWhitespaceKeepsText(s: string)
    ensures Kept(ReplaceWhitespace(s)) == Kept(s)
  {
    if s != [] {
      var p, c := s[..|s| - 1], s[|s| - 1];
      assert s == p + [c];
      ReplaceWhitespaceKeepsText(p);
      ReplaceWhitespaceSnoc(p, c);
      var q := ReplaceWhitespace(p);
      assert (q + [c])[..|q|] == q;
      assert (q + "-")[..|q|] == q;
    }
  }

  function CountSpaces(s: string): (n: nat)
    ensures n <= |s|
  {
    if s == [] then 0 else
      CountSpaces(s[..|s| - 1]) + (if IsSpace(s[|s| - 1]) then 1 else 0)
  }
}
