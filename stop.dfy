/**
 * The stop listener of `main`: a goroutine that reads standard input line by line
 * and sets `stop` once a line, trimmed and lower-cased, reads "stop".
 */
module StopListener {

  /** Unicode white space as `unicode.IsSpace` defines it, which `strings.TrimSpace` removes. */
  predicate IsUnicodeSpace(c: char) {
    c == '\t' || c == '\n' || c == '\U{B}' || c == '\U{C}' || c == '\r' || c == ' ' ||
    c == '\U{85}' || c == '\U{A0}' || c == '\U{1680}' || ('\U{2000}' <= c <= '\U{200A}') ||
    c == '\U{2028}' || c == '\U{2029}' || c == '\U{202F}' || c == '\U{205F}' || c == '\U{3000}'
  }

  /** The first index at or after i whose character is not white space, or |s|. */
  function SkipForward(s: string, i: nat): (r: nat)
    requires i <= |s|
    ensures i <= r <= |s|
    ensures forall k :: i <= k < r ==> IsUnicodeSpace(s[k])
    ensures r == |s| || !IsUnicodeSpace(s[r])
    decreases |s| - i
  {
    if i < |s| && IsUnicodeSpace(s[i]) then SkipForward(s, i + 1) else i
  }

  /** Moves the end j back over white space, never below lo. */
  function SkipBackward(s: string, lo: nat, j: nat): (r: nat)
    requires lo <= j <= |s|
    ensures lo <= r <= j
    ensures forall k :: r <= k < j ==> IsUnicodeSpace(s[k])
    ensures r == lo || !IsUnicodeSpace(s[r - 1])
    decreases j
  {
    if lo < j && IsUnicodeSpace(s[j - 1]) then SkipBackward(s, lo, j - 1) else j
  }

  /** `strings.TrimSpace`: scan forward to the first non-space, then back from the end to it. */
  function TrimSpace(s: string): (r: string)
    ensures |r| <= |s|
    ensures r == [] || (!IsUnicodeSpace(r[0]) && !IsUnicodeSpace(r[|r| - 1]))
  {
    var start := SkipForward(s, 0);
    s[start..SkipBackward(s, start, |s|)]
  }

  /** TrimSpace removes white space at both ends and nothing else. */
  lemma TrimSpaceIsSlice(s: string)
    ensures exists a, b :: (0 <= a <= b <= |s| && TrimSpace(s) == s[a..b] &&
      (forall i :: 0 <= i < a ==> IsUnicodeSpace(s[i])) &&
      (forall i :: b <= i < |s| ==> IsUnicodeSpace(s[i])))
  {
    var a := SkipForward(s, 0);
    var b := SkipBackward(s, a, |s|);
    assert TrimSpace(s) == s[a..b];
  }

  predicate AllUnicodeSpace(s: string) {
    forall i :: 0 <= i < |s| ==> IsUnicodeSpace(s[i])
  }

  /** TrimSpace gives back a text that has white space only around it. */
  lemma TrimSpaceOfPadded(pre: string, w: string, post: string)
    requires AllUnicodeSpace(pre) && AllUnicodeSpace(post)
    requires w == [] || (!IsUnicodeSpace(w[0]) && !IsUnicodeSpace(w[|w| - 1]))
    ensures TrimSpace(pre + w + post) == w
  {
    var s := pre + w + post;
    var m := |pre| + |w|;
    assert forall k :: 0 <= k < |pre| ==> s[k] == pre[k];
    assert forall k :: 0 <= k < |w| ==> s[|pre| + k] == w[k];
    assert forall k :: m <= k < |s| ==> s[k] == post[k - m];
    var start := SkipForward(s, 0);
    if w == [] {
      assert start == |s|;
    } else {
      assert start == |pre|;
      assert SkipBackward(s, start, |s|) == m;
      assert s[|pre|..m] == w;
    }
  }

  function LowerChar(c: char): (l: char) {
    if 'A' <= c <= 'Z' then (c as int + 32) as char else c
  }

  /** `strings.ToLower` on ASCII letters; other characters are kept. */
  function AsciiLower(s: string): (r: string)
    ensures |r| == |s| && forall i :: 0 <= i < |s| ==> r[i] == LowerChar(s[i])
  {
    if s == [] then [] else [LowerChar(s[0])] + AsciiLower(s[1..])
  }

  /** A line read from standard input asks to stop when, trimmed and lower-cased, it is "stop". */
  predicate IsStopCommand(line: string) {
    AsciiLower(TrimSpace(line)) == "stop"
  }

  /**
   * The stop listener over the lines it has read so far: `stop` becomes true at the
   * first stop command and is never reset.
   */
  method ListenForStop(lines: seq<string>) returns (stop: bool)
    ensures stop <==> exists i :: 0 <= i < |lines| && IsStopCommand(lines[i])
  {
    stop := false;
    var k := 0;
    while k < |lines|
      invariant k <= |lines|
      invariant stop <==> exists i :: 0 <= i < k && IsStopCommand(lines[i])
    {
      var isStop := IsStopCommand(lines[k]);
      if isStop {
        stop := true;
      }
      assert (exists i :: 0 <= i < k + 1 && IsStopCommand(lines[i])) <==>
        (exists i :: 0 <= i < k && IsStopCommand(lines[i])) || isStop;
      k := k + 1;
    }
  }

  /** Lines as `ReadString('\n')` returns them, newline included. */
  lemma StopWithNewline()
    ensures IsStopCommand("stop\n")
  {
    assert "stop\n" == [] + "stop" + "\n";
    TrimSpaceOfPadded([], "stop", "\n");
    LowerStop("stop");
  }

  lemma StopInCapitalsWithBlanks()
    ensures IsStopCommand("  STOP \r\n")
  {
    assert "  STOP \r\n" == "  " + "STOP" + " \r\n";
    TrimSpaceOfPadded("  ", "STOP", " \r\n");
    LowerStop("STOP");
  }

  /** A four-letter word that spells "stop" in any mix of cases lowers to "stop". */
  lemma LowerStop(w: string)
    requires |w| == 4 && LowerChar(w[0]) == 's' && LowerChar(w[1]) == 't'
    requires LowerChar(w[2]) == 'o' && LowerChar(w[3]) == 'p'
    ensures AsciiLower(w) == "stop"
  {
  }

  /** A longer word, a word with a space inside and an empty line do not ask to stop. */
  lemma NotAStopCommand()
    ensures !IsStopCommand("stopp\n")
    ensures !IsStopCommand("st op\n")
    ensures !IsStopCommand("\n")
  {
    TrimmedLine("stopp\n", "stopp");
    TrimmedLine("st op\n", "st op");
    TrimmedLine("\n", []);
  }

  /** A line is its text followed by the newline. */
  lemma TrimmedLine(line: string, w: string)
    requires line == w + "\n"
    requires w == [] || (!IsUnicodeSpace(w[0]) && !IsUnicodeSpace(w[|w| - 1]))
    ensures TrimSpace(line) == w
  {
    assert line == [] + w + "\n";
    TrimSpaceOfPadded([], w, "\n");
  }
}
