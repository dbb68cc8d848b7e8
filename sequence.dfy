/**
 * `getSequenceNumberFromLink`: the first submatch of
 *   https?://delivery\.tekpub\.com/.+[^/]+/(\d+)/hd/file\.mp4\?token=[\w\d]+
 * read as a decimal `int64`.
 *
 * A match is described by three indices: `i`, where "http" starts; `j`, where the
 * captured digits start; `e`, where they end. Go's engine reports the
 * leftmost-first match: the smallest `i`, and for that `i` the choice a
 * backtracking matcher makes. Since `.+` is greedy and every way of splitting the
 * text before the capture into `.+` and `[^/]+` puts the split after the last '/'
 * of that text, a later capture always allows a longer `.+` than an earlier one:
 * for a given `i` the engine reports the LAST capture position that works.
 */
module SequenceNumber {
  import opened Chars
  import opened Decimal

  const HttpHost := "http://delivery.tekpub.com/"
  const HttpsHost := "https://delivery.tekpub.com/"

  /** The literal text between the captured digits and the token. */
  const FileQuery := "/hd/file.mp4?token="

  /** The largest value `strconv.ParseInt(s, 10, 0)` returns on a 64-bit platform. */
  const MaxInt64: nat := 0x7fff_ffff_ffff_ffff

  /** Where `https?://delivery\.tekpub\.com/` ends when it starts at index i. */
  function HostEnd(link: string, i: nat): (r: Option<nat>)
    ensures r.Some? ==> i < r.value <= |link|
  {
    if HasAt(link, i, HttpsHost) then Some(i + |HttpsHost|)
    else if HasAt(link, i, HttpHost) then Some(i + |HttpHost|)
    else None
  }

  /** `.+[^/]+`: a part without newline, then a non-empty part without '/'. */
  predicate MiddleMatches(m: string) {
    exists k :: 1 <= k < |m| && '\n' !in m[..k] && '/' !in m[k..]
  }

  /** `(\d+)/hd/file\.mp4\?token=[\w\d]+` with the capture group at link[j..e]. */
  predicate TailAt(link: string, j: nat, e: nat) {
    j < e && e + |FileQuery| < |link| && AllDigits(link[j..e]) &&
    HasAt(link, e, FileQuery) && IsWordChar(link[e + |FileQuery|])
  }

  /** The whole pattern matches from index i with its capture group at link[j..e]. */
  predicate MatchAt(link: string, i: nat, j: nat, e: nat) {
    TailAt(link, j, e) && HostEnd(link, i).Some? &&
    HostEnd(link, i).value + 2 < j && link[j - 1] == '/' &&
    MiddleMatches(link[HostEnd(link, i).value..j - 1])
  }

  /** The match Go reports: leftmost start, and for that start the last capture position. */
  ghost predicate LeftmostFirst(link: string, i: nat, j: nat, e: nat) {
    MatchAt(link, i, j, e) &&
    (forall i': nat, j': nat, e': nat :: i' < i ==> !MatchAt(link, i', j', e')) &&
    (forall j': nat, e': nat :: j < j' ==> !MatchAt(link, i, j', e'))
  }

  /** The end of the run of digits that starts at j. */
  function DigitsEnd(link: string, j: nat): (e: nat)
    requires j <= |link|
    ensures j <= e <= |link| && AllDigits(link[j..e])
    ensures e == |link| || !IsDigit(link[e])
    decreases |link| - j
  {
    if j < |link| && IsDigit(link[j]) then
      DigitsEnd(link, j + 1)
    else j
  }

  /** `\d+` is followed by '/', so the capture is the whole run of digits. */
  lemma TailEndIsDigitsEnd(link: string, j: nat, e: nat)
    requires TailAt(link, j, e)
    ensures e == DigitsEnd(link, j)
  {
    var d := DigitsEnd(link, j);
    assert link[e] == '/' by {
      assert link[e..e + |FileQuery|][0] == FileQuery[0];
    }
    assert forall k :: j <= k < e ==> IsDigit(link[k]) by {
      assert forall k :: j <= k < e ==> link[k] == link[j..e][k - j];
    }
    assert forall k :: j <= k < d ==> IsDigit(link[k]) by {
      assert forall k :: j <= k < d ==> link[k] == link[j..d][k - j];
    }
  }

  /** The last capture position at most j that completes a match from i. */
  function LastCapture(link: string, i: nat, j: nat): (r: Option<nat>)
    requires j <= |link|
    ensures r.Some? ==> r.value <= j && MatchAt(link, i, r.value, DigitsEnd(link, r.value))
    ensures r.Some? ==> forall j': nat, e': nat :: r.value < j' <= j ==> !MatchAt(link, i, j', e')
    ensures r.None? ==> forall j': nat, e': nat :: j' <= j ==> !MatchAt(link, i, j', e')
    decreases j
  {
    if j == 0 then None
    else if MatchAt(link, i, j, DigitsEnd(link, j)) then Some(j)
    else
      assert forall e': nat :: !MatchAt(link, i, j, e') by {
        forall e': nat | MatchAt(link, i, j, e') {
          TailEndIsDigitsEnd(link, j, e');
        }
      }
      LastCapture(link, i, j - 1)
  }

  /** The leftmost-first match whose start is at least i, as (start, capture start, capture end). */
  function FindMatch(link: string, i: nat): (r: Option<(nat, nat, nat)>)
    ensures r.None? ==> forall i': nat, j: nat, e: nat :: i <= i' ==> !MatchAt(link, i', j, e)
    ensures r.Some? ==> i <= r.value.0 && MatchAt(link, r.value.0, r.value.1, r.value.2)
    ensures r.Some? ==> forall i': nat, j: nat, e: nat :: i <= i' < r.value.0 ==> !MatchAt(link, i', j, e)
    ensures r.Some? ==> forall j: nat, e: nat :: r.value.1 < j ==> !MatchAt(link, r.value.0, j, e)
    decreases |link| - i
  {
    if i >= |link| then None
    else
      match LastCapture(link, i, |link|)
      case Some(j) => Some((i, j, DigitsEnd(link, j)))
      case None => FindMatch(link, i + 1)
  }

  /** There is at most one leftmost-first match. */
  lemma LeftmostFirstUnique(link: string, i1: nat, j1: nat, e1: nat, i2: nat, j2: nat, e2: nat)
    requires LeftmostFirst(link, i1, j1, e1) && LeftmostFirst(link, i2, j2, e2)
    ensures i1 == i2 && j1 == j2 && e1 == e2
  {
    TailEndIsDigitsEnd(link, j1, e1);
    TailEndIsDigitsEnd(link, j2, e2);
  }

  /** FindMatch from index 0 finds the leftmost-first match, and finds one whenever there is one. */
  lemma FindMatchIsLeftmostFirst(link: string)
    ensures FindMatch(link, 0).Some? ==>
      var m := FindMatch(link, 0).value; LeftmostFirst(link, m.0, m.1, m.2)
    ensures (exists i: nat, j: nat, e: nat :: MatchAt(link, i, j, e)) ==> FindMatch(link, 0).Some?
  {
  }

  /** What is kept of `strconv.ParseInt` on digits of value v: the value, or (0, false) on overflow. */
  function ParsedNumber(v: nat): (r: (nat, bool))
    ensures r.1 <==> v <= MaxInt64
    ensures r.0 == if r.1 then v else 0
  {
    if v <= MaxInt64 then (v, true) else (0, false)
  }

  /**
   * `getSequenceNumberFromLink`: (value, true) when the pattern matches and the
   * captured digits fit in an `int64`; (0, false) otherwise.
   */
  function SequenceNumberFromLink(link: string): (r: (nat, bool))
    ensures r.1 ==> r.0 <= MaxInt64
    ensures !r.1 ==> r.0 == 0
    ensures r.1 ==> exists i: nat, j: nat, e: nat ::
      LeftmostFirst(link, i, j, e) && r.0 == DecimalValue(link[j..e])
    ensures r.1 <==> exists i: nat, j: nat, e: nat ::
      LeftmostFirst(link, i, j, e) && DecimalValue(link[j..e]) <= MaxInt64
  {
    FindMatchIsLeftmostFirst(link);
    match FindMatch(link, 0)
    case None => (0, false)
    case Some((i, j, e)) =>
      var n := DecimalValue(link[j..e]);
      assert forall i': nat, j': nat, e': nat :: LeftmostFirst(link, i', j', e') ==> i' == i && j' == j && e' == e by {
        forall i': nat, j': nat, e': nat | LeftmostFirst(link, i', j', e') {
          LeftmostFirstUnique(link, i, j, e, i', j', e');
        }
      }
      ParsedNumber(n)
  }

  /** A link that does not contain "/hd/file.mp4?token=" carries no sequence number. */
  lemma NoFileQueryNoNumber(link: string)
    requires !Contains(link, FileQuery)
    ensures SequenceNumberFromLink(link) == (0, false)
  {
  }

  /**
   * The delivery links the pattern was written for: host, a path that fits `.+[^/]+`
   * (MiddleMatches), "/<digits>/hd/file.mp4?token=<word characters>". The number is the
   * value of the digits if it fits in an int64.
   */
  lemma CanonicalLink(secure: bool, path: string, digits: string, token: string)
    requires MiddleMatches(path)
    requires digits != [] && AllDigits(digits)
    requires token != [] && WordChars(token)
    ensures var link := (if secure then HttpsHost else HttpHost) + path + "/" + digits + FileQuery + token;
      var v := DecimalValue(digits);
      SequenceNumberFromLink(link) == ParsedNumber(v)
  {
    CanonicalLinkOn(if secure then HttpsHost else HttpHost, path, digits, token);
  }

  lemma CanonicalLinkOn(host: string, path: string, digits: string, token: string)
    requires host == HttpsHost || host == HttpHost
    requires MiddleMatches(path)
    requires digits != [] && AllDigits(digits)
    requires token != [] && WordChars(token)
    ensures var v := DecimalValue(digits);
      SequenceNumberFromLink(host + path + "/" + digits + FileQuery + token) ==
        ParsedNumber(v)
  {
    var tail := digits + FileQuery + token;
    var link := host + path + "/" + tail;
    assert HostEnd(link, 0) == Some(|host|) by {
      assert link[..|host|] == host;
      HostEndOfHost(host, link);
    }
    TailOfCanonical(digits, token);
    NumberOfPrefixedTail(host, path, tail, |digits|);
    Regroup(host + path + "/", digits, FileQuery, token);
  }

  /** The number of a link made of host, path, "/" and a tail that matches from its start. */
  lemma NumberOfPrefixedTail(host: string, path: string, tail: string, d: nat)
    requires HostEnd(host + path + "/" + tail, 0) == Some(|host|)
    requires MiddleMatches(path)
    requires TailAt(tail, 0, d) && WordChars(tail[d + |FileQuery|..])
    ensures var v := DecimalValue(tail[..d]);
      SequenceNumberFromLink(host + path + "/" + tail) == ParsedNumber(v)
  {
    var link := host + path + "/" + tail;
    var j := |host| + |path| + 1;
    assert link[|host|..j - 1] == path && link[j - 1] == '/' && link[j..] == tail by {
      PathSlices(host, path, tail);
    }
    assert TailAt(link, j, j + d) by {
      TailShift(host + path + "/", tail, 0, d);
    }
    assert link[j..j + d] == tail[..d] && WordChars(link[j + d + |FileQuery|..]) by {
      SuffixSlices(link, j, tail, d);
    }
    NumberOfCanonicalMatch(link, |host|, j, j + d, tail[..d]);
  }

  lemma Regroup(a: string, b: string, c: string, d: string)
    ensures a + b + c + d == a + (b + c + d)
  {
  }

  /** A match from index 0, given by its parts, whose token runs to the end of the link gives the number. */
  lemma NumberOfCanonicalMatch(link: string, h: nat, j: nat, e: nat, digits: string)
    requires HostEnd(link, 0) == Some(h) && h + 2 < j <= |link|
    requires link[j - 1] == '/' && MiddleMatches(link[h..j - 1]) && TailAt(link, j, e)
    requires WordChars(link[e + |FileQuery|..]) && link[j..e] == digits
    ensures AllDigits(digits) && SequenceNumberFromLink(link) == ParsedNumber(DecimalValue(digits))
  {
    assert MatchAt(link, 0, j, e);
    CaptureIsLast(link, j, e);
    NumberOfLeftmostFirst(link, 0, j, e);
  }

  /** A match from index 0 whose token runs to the end of the link is the leftmost-first match. */
  lemma CaptureIsLast(link: string, j: nat, e: nat)
    requires MatchAt(link, 0, j, e) && WordChars(link[e + |FileQuery|..])
    ensures LeftmostFirst(link, 0, j, e)
  {
    forall j': nat, e': nat | j < j' && TailAt(link, j', e')
      ensures link[j' - 1] != '/'
    {
      NoSlashBeforeLaterCapture(link, j, e, j', e');
    }
  }

  /** The number is read from the capture of the leftmost-first match. */
  lemma NumberOfLeftmostFirst(link: string, i: nat, j: nat, e: nat)
    requires LeftmostFirst(link, i, j, e)
    ensures var v := DecimalValue(link[j..e]);
      SequenceNumberFromLink(link) == ParsedNumber(v)
  {
    var r := SequenceNumberFromLink(link);
    if r.1 {
      var i2: nat, j2: nat, e2: nat :| LeftmostFirst(link, i2, j2, e2) && r.0 == DecimalValue(link[j2..e2]);
      LeftmostFirstUnique(link, i, j, e, i2, j2, e2);
    }
  }

  /** Where path and tail sit in `host + path + "/" + tail`. */
  lemma PathSlices(host: string, path: string, tail: string)
    ensures var link := host + path + "/" + tail;
      var j := |host| + |path| + 1;
      link[|host|..j - 1] == path && link[j - 1] == '/' && link[j..] == tail
  {
    var link := host + path + "/" + tail;
    var j := |host| + |path| + 1;
    assert link[..j] == host + path + "/";
  }

  /** Slices of a suffix, read in the whole string. */
  lemma SuffixSlices(s: string, j: nat, t: string, d: nat)
    requires j <= |s| && s[j..] == t && d + |FileQuery| <= |t|
    ensures s[j..j + d] == t[..d] && s[j + d + |FileQuery|..] == t[d + |FileQuery|..]
  {
    assert s[j..j + d] == s[j..][..d];
    assert s[j + d + |FileQuery|..] == s[j..][d + |FileQuery|..];
  }

  /** A link that starts with one of the two hosts: the host part ends right after it. */
  lemma HostEndOfHost(host: string, link: string)
    requires host == HttpsHost || host == HttpHost
    requires |host| <= |link| && link[..|host|] == host
    ensures HostEnd(link, 0) == Some(|host|)
  {
    if host == HttpHost {
      assert link[4] == link[..|host|][4];
    }
  }

  lemma TailOfCanonical(digits: string, token: string)
    requires digits != [] && AllDigits(digits)
    requires token != [] && WordChars(token)
    ensures var tail := digits + FileQuery + token;
      TailAt(tail, 0, |digits|) && tail[..|digits|] == digits &&
      tail[|digits| + |FileQuery|..] == token
  {
    var tail := digits + FileQuery + token;
    assert tail[..|digits|] == digits;
    assert tail[|digits|..|digits| + |FileQuery|] == FileQuery;
    assert tail[|digits| + |FileQuery|..] == token;
  }

  lemma TailShift(pre: string, t: string, a: nat, b: nat)
    requires TailAt(t, a, b)
    ensures TailAt(pre + t, |pre| + a, |pre| + b)
    ensures (pre + t)[|pre| + a..|pre| + b] == t[a..b]
  {
    var s := pre + t;
    assert s[|pre| + a..|pre| + b] == t[a..b];
    assert s[|pre| + b..|pre| + b + |FileQuery|] == t[b..b + |FileQuery|];
    assert s[|pre| + b + |FileQuery|] == t[b + |FileQuery|];
  }

  /**
   * After the capture link[j..e] and "/hd/file.mp4?token=" come only word characters,
   * so no later '/' is followed by a digit.
   */
  lemma NoSlashBeforeLaterCapture(link: string, j: nat, e: nat, j': nat, e': nat)
    requires HasAt(link, e, FileQuery) && j < e && AllDigits(link[j..e])
    requires WordChars(link[e + |FileQuery|..])
    requires j < j' && TailAt(link, j', e')
    ensures link[j' - 1] != '/'
  {
    assert IsDigit(link[j']) by {
      assert link[j'..e'][0] == link[j'];
    }
    var p := j' - 1;
    if p < e {
      assert link[p] == link[j..e][p - j];
    } else if p < e + |FileQuery| {
      SlashInFileQuery(link, e, p);
    } else {
      assert link[p] == link[e + |FileQuery|..][p - e - |FileQuery|];
    }
  }

  /** A '/' of "/hd/file.mp4?token=" inside a link is followed by a character that is not a digit. */
  lemma SlashInFileQuery(link: string, e: nat, p: nat)
    requires HasAt(link, e, FileQuery) && e <= p < e + |FileQuery|
    ensures link[p] != '/' || (p + 1 < e + |FileQuery| && !IsDigit(link[p + 1]))
  {
    FileQuerySlashes();
    assert link[p] == FileQuery[p - e];
    if p + 1 < e + |FileQuery| {
      assert link[p + 1] == FileQuery[p + 1 - e];
    }
  }

  /** Inside "/hd/file.mp4?token=" no '/' is followed by a digit, and the last character is not '/'. */
  lemma FileQuerySlashes()
    ensures forall k :: 0 <= k < |FileQuery| - 1 ==> FileQuery[k] != '/' || !IsDigit(FileQuery[k + 1])
    ensures FileQuery[|FileQuery| - 1] != '/'
  {
  }

  /** A name of at least two characters without '/' or newline fits `.+[^/]+`. */
  lemma NameIsMiddle(m: string)
    requires 2 <= |m| && forall i :: 0 <= i < |m| ==> m[i] != '/' && m[i] != '\n'
    ensures MiddleMatches(m)
  {
    assert '\n' !in m[..1] && '/' !in m[1..];
  }

  lemma SequenceNumberExampleHttp()
    ensures SequenceNumberFromLink(HttpHost + "nhibernate" + "/" + "77" + FileQuery + "abc123") == (77, true)
  {
    NameIsMiddle("nhibernate");
    CanonicalLink(false, "nhibernate", "77", "abc123");
  }

  lemma SequenceNumberExampleHttps()
    ensures SequenceNumberFromLink(HttpsHost + "nhibernate" + "/" + "005" + FileQuery + "xyz") == (5, true)
  {
    NameIsMiddle("nhibernate");
    CanonicalLink(true, "nhibernate", "005", "xyz");
    assert DecimalValue("005") == 5 by {
      Pad3Examples();
    }
  }
}
