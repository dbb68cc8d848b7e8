/**
 * `getDownloadModel`: turn a feed item into the folder and file names a video is
 * stored under. The title must contain ": "; the text before the first ": " names
 * the folder, the text after it the video, and the sequence number found in the
 * link (if any) sits between the two, padded to three digits.
 */
module DownloadModel {
  import opened Chars
  import opened Decimal
  import opened PathSanitizer
  import opened SequenceNumber

  /** The fields of an RSS item this program reads. */
  datatype Item = Item(title: string, link: string, content: string)

  /** Go's `Download` record. */
  datatype Download = Download(
    title: string,
    description: string,
    foldername: string,
    filename: string,
    sourceUrl: string)

  /** Either the model or the error for a title without the separator, which carries the title. */
  datatype ParseResult = Parsed(model: Download) | ParseError(title: string)

  const TitleSeparator := ": "

  /** `strings.Index` from position i: the first occurrence of p at or after i. */
  function IndexFrom(s: string, p: string, i: nat): (r: Option<nat>)
    requires i <= |s|
    ensures r.Some? ==> i <= r.value && HasAt(s, r.value, p)
    ensures r.Some? ==> forall k: nat :: i <= k < r.value ==> !HasAt(s, k, p)
    ensures r.None? ==> forall k: nat :: i <= k ==> !HasAt(s, k, p)
    decreases |s| - i
  {
    if HasAt(s, i, p) then Some(i)
    else if i == |s| then None
    else IndexFrom(s, p, i + 1)
  }

  /** `strings.Index`, with None for Go's -1. */
  function Index(s: string, p: string): (r: Option<nat>)
    ensures r.None? <==> !Contains(s, p)
    ensures r.Some? ==> HasAt(s, r.value, p) && forall k: nat :: k < r.value ==> !HasAt(s, k, p)
  {
    IndexFrom(s, p, 0)
  }

  /** The file name before whitespace is replaced: folder, number (if any) and video name, space separated. */
  function SpacedFilename(folder: string, number: (nat, bool), video: string): (f: string) {
    if number.1 then folder + " " + Pad3(number.0) + " " + video + ".mp4"
    else folder + " " + video + ".mp4"
  }

  function GetDownloadModel(lib: Library, item: Item): (r: ParseResult)
    ensures r.ParseError? <==> !Contains(item.title, TitleSeparator)
    ensures r.ParseError? ==> r.title == item.title
    ensures r.Parsed? ==>
      r.model.title == item.title && r.model.description == item.content &&
      r.model.sourceUrl == item.link
    ensures r.Parsed? ==> NoSpace(r.model.filename) && AllAllowed(lib, r.model.foldername)
  {
    match Index(item.title, TitleSeparator)
    case None => ParseError(item.title)
    case Some(p) =>
      var folder := CleanPath(lib, item.title[..p]);
      var video := CleanPath(lib, item.title[p + |TitleSeparator|..]);
      var spaced := SpacedFilename(folder, SequenceNumberFromLink(item.link), video);
      Parsed(Download(item.title, item.content, folder, ReplaceWhitespace(spaced), item.link))
  }

  /**
   * The folder is named after the text before the FIRST ": ", the video after the
   * text behind it (so a title with several separators keeps the later ones in the
   * video name).
   */
  lemma SplitAtFirstSeparator(lib: Library, item: Item)
    requires Contains(item.title, TitleSeparator)
    ensures var r := GetDownloadModel(lib, item);
      r.Parsed? &&
      exists p: nat ::
        HasAt(item.title, p, TitleSeparator) &&
        (forall k: nat :: k < p ==> !HasAt(item.title, k, TitleSeparator)) &&
        r.model.foldername == CleanPath(lib, item.title[..p]) &&
        r.model.filename == ReplaceWhitespace(SpacedFilename(
          CleanPath(lib, item.title[..p]),
          SequenceNumberFromLink(item.link),
          CleanPath(lib, item.title[p + 2..])))
  {
    var p := Index(item.title, TitleSeparator).value;
    assert HasAt(item.title, p, TitleSeparator);
  }

  /** Every file name ends in ".mp4". */
  lemma {:induction false} FilenameEndsWithMp4(lib: Library, item: Item)
    requires GetDownloadModel(lib, item).Parsed?
    ensures var f := GetDownloadModel(lib, item).model.filename;
      |f| >= 4 && f[|f| - 4..] == ".mp4"
  {
    var p := Index(item.title, TitleSeparator).value;
    SpacedEndsWithMp4(
      CleanPath(lib, item.title[..p]),
      SequenceNumberFromLink(item.link),
      CleanPath(lib, item.title[p + |TitleSeparator|..]));
  }

  lemma SpacedEndsWithMp4(folder: string, number: (nat, bool), video: string)
    ensures var f := ReplaceWhitespace(SpacedFilename(folder, number, video));
      |f| >= 4 && f[|f| - 4..] == ".mp4"
  {
    var head := if number.1 then folder + " " + Pad3(number.0) + " " + video
      else folder + " " + video;
    assert SpacedFilename(folder, number, video) == head + ".mp4";
    TextThenSuffix(head, ".mp4");
    var f := ReplaceWhitespace(head) + ".mp4";
    assert f[|f| - 4..] == ".mp4";
  }

  /** A file name made of '-' and allowed characters other than whitespace. */
  predicate SafeFilename(lib: Library, f: string) {
    forall i :: 0 <= i < |f| ==> f[i] == '-' || (Allowed(lib, f[i]) && !IsSpace(f[i]))
  }

  lemma AllowedConcat(lib: Library, a: string, b: string)
    requires AllAllowed(lib, a) && AllAllowed(lib, b)
    ensures AllAllowed(lib, a + b)
  {
    assert forall i :: |a| <= i < |a + b| ==> (a + b)[i] == b[i - |a|];
  }

  /** Before whitespace is replaced, the file name holds only allowed characters. */
  lemma SpacedFilenameAllowed(lib: Library, folder: string, number: (nat, bool), video: string)
    requires Plausible(lib) && AllAllowed(lib, folder) && AllAllowed(lib, video)
    ensures AllAllowed(lib, SpacedFilename(folder, number, video))
  {
    var pad := Pad3(number.0);
    assert AllAllowed(lib, " ");
    assert AllAllowed(lib, pad) by {
      assert forall i :: 0 <= i < |pad| ==> IsDigit(pad[i]);
    }
    assert AllAllowed(lib, ".mp4") by {
      assert IsAsciiLetter('m') && IsAsciiLetter('p');
    }
    AllowedConcat(lib, folder, " ");
    if number.1 {
      AllowedConcat(lib, folder + " ", pad);
      AllowedConcat(lib, folder + " " + pad, " ");
      AllowedConcat(lib, folder + " " + pad + " ", video);
      AllowedConcat(lib, folder + " " + pad + " " + video, ".mp4");
    } else {
      AllowedConcat(lib, folder + " ", video);
      AllowedConcat(lib, folder + " " + video, ".mp4");
    }
  }

  /** Replacing whitespace in an allowed file name leaves '-' and allowed non-space characters. */
  lemma SpacedFilenameIsSafe(lib: Library, folder: string, number: (nat, bool), video: string)
    requires Plausible(lib) && AllAllowed(lib, folder) && AllAllowed(lib, video)
    ensures SafeFilename(lib, ReplaceWhitespace(SpacedFilename(folder, number, video)))
  {
    var spaced := SpacedFilename(folder, number, video);
    SpacedFilenameAllowed(lib, folder, number, video);
    ReplaceWhitespaceChars(spaced);
    var f := ReplaceWhitespace(spaced);
    forall i | 0 <= i < |f|
      ensures f[i] == '-' || (Allowed(lib, f[i]) && !IsSpace(f[i]))
    {
      assert f[i] in f;
      if f[i] != '-' {
        var k :| 0 <= k < |spaced| && spaced[k] == f[i];
      }
    }
  }

  /**
   * With the real character tables, a file name consists of '-' and characters
   * `cleanPath` lets through, other than whitespace: the cleaned title parts, the
   * digits of the number and ".mp4", with every whitespace run turned into '-'.
   */
  lemma FilenameIsSafe(lib: Library, item: Item)
    requires Plausible(lib) && GetDownloadModel(lib, item).Parsed?
    ensures SafeFilename(lib, GetDownloadModel(lib, item).model.filename)
  {
    var p := Index(item.title, TitleSeparator).value;
    SpacedFilenameIsSafe(lib,
      CleanPath(lib, item.title[..p]),
      SequenceNumberFromLink(item.link),
      CleanPath(lib, item.title[p + |TitleSeparator|..]));
  }

  /**
   * When the folder name does not end and the video name does not start with
   * whitespace, the file name is "<folder>-<number>-<video>.mp4" with whitespace
   * runs inside the parts turned into '-', and the three-digit field reads back as
   * the sequence number.
   */
  lemma {:induction false} FilenameLayout(lib: Library, item: Item)
    requires GetDownloadModel(lib, item).Parsed?
    requires var m := GetDownloadModel(lib, item).model;
      var p := Index(item.title, TitleSeparator).value;
      var video := CleanPath(lib, item.title[p + |TitleSeparator|..]);
      m.foldername != [] && !IsSpace(m.foldername[|m.foldername| - 1]) &&
      video != [] && !IsSpace(video[0])
    ensures var m := GetDownloadModel(lib, item).model;
      var p := Index(item.title, TitleSeparator).value;
      var video := ReplaceWhitespace(CleanPath(lib, item.title[p + |TitleSeparator|..]));
      var number := SequenceNumberFromLink(item.link);
      m.filename == if number.1
        then ReplaceWhitespace(m.foldername) + "-" + Pad3(number.0) + "-" + video + ".mp4"
        else ReplaceWhitespace(m.foldername) + "-" + video + ".mp4"
    ensures var number := SequenceNumberFromLink(item.link);
      number.1 ==> DecimalValue(Pad3(number.0)) == number.0 && |Pad3(number.0)| >= 3
  {
    var p := Index(item.title, TitleSeparator).value;
    var folder := CleanPath(lib, item.title[..p]);
    var video := CleanPath(lib, item.title[p + |TitleSeparator|..]);
    SpacedLayout(folder, SequenceNumberFromLink(item.link), video);
  }

  /** Whitespace replacement on the spaced file name, part by part. */
  lemma SpacedLayout(folder: string, number: (nat, bool), video: string)
    requires folder != [] && !IsSpace(folder[|folder| - 1]) && video != [] && !IsSpace(video[0])
    ensures ReplaceWhitespace(SpacedFilename(folder, number, video)) == if number.1
      then ReplaceWhitespace(folder) + "-" + Pad3(number.0) + "-" + ReplaceWhitespace(video) + ".mp4"
      else ReplaceWhitespace(folder) + "-" + ReplaceWhitespace(video) + ".mp4"
  {
    if number.1 {
      NumberedLayout(folder, Pad3(number.0), video);
      assert SpacedFilename(folder, number, video) == folder + " " + Pad3(number.0) + " " + video + ".mp4";
    } else {
      VideoWithSuffix(video);
      JoinWithSpace(folder, video + ".mp4");
      assert SpacedFilename(folder, number, video) == folder + " " + (video + ".mp4");
    }
  }

  lemma NumberedLayout(folder: string, pad: string, video: string)
    requires folder != [] && !IsSpace(folder[|folder| - 1]) && video != [] && !IsSpace(video[0])
    requires pad != [] && AllDigits(pad)
    ensures ReplaceWhitespace(folder + " " + pad + " " + video + ".mp4") ==
      ReplaceWhitespace(folder) + "-" + pad + "-" + ReplaceWhitespace(video) + ".mp4"
  {
    var rest := pad + " " + (video + ".mp4");
    NumberThenVideo(pad, video);
    assert rest[0] == pad[0];
    JoinWithSpace(folder, rest);
    var f := ReplaceWhitespace(folder) + "-";
    var v := ReplaceWhitespace(video);
    calc {
      f + (pad + "-" + v + ".mp4");
      { AppendAssoc(f, pad + "-" + v, ".mp4"); }
      f + (pad + "-" + v) + ".mp4";
      { AppendAssoc(f, pad + "-", v); AppendAssoc(f, pad, "-"); }
      f + pad + "-" + v + ".mp4";
    }
    calc {
      folder + " " + pad + " " + video + ".mp4";
      { AppendAssoc(folder + " " + pad + " ", video, ".mp4"); }
      folder + " " + pad + " " + (video + ".mp4");
      { AppendAssoc(folder + " ", pad, " "); AppendAssoc(folder + " ", pad + " ", video + ".mp4");
        AppendAssoc(pad, " ", video + ".mp4"); }
      folder + " " + rest;
    }
  }

  lemma NumberThenVideo(pad: string, video: string)
    requires video != [] && !IsSpace(video[0])
    requires pad != [] && AllDigits(pad)
    ensures ReplaceWhitespace(pad + " " + (video + ".mp4")) == pad + "-" + ReplaceWhitespace(video) + ".mp4"
  {
    VideoWithSuffix(video);
    assert IsDigit(pad[|pad| - 1]);
    JoinWithSpace(pad, video + ".mp4");
    ReplaceWhitespaceIdentity(pad);
    AppendAssoc(pad + "-", ReplaceWhitespace(video), ".mp4");
  }

  lemma VideoWithSuffix(video: string)
    requires video != [] && !IsSpace(video[0])
    ensures (video + ".mp4") != [] && !IsSpace((video + ".mp4")[0])
    ensures ReplaceWhitespace(video + ".mp4") == ReplaceWhitespace(video) + ".mp4"
  {
    assert (video + ".mp4")[0] == video[0];
    TextThenSuffix(video, ".mp4");
  }

  /** A single space between two parts that do not touch it with whitespace becomes one '-'. */
  lemma JoinWithSpace(a: string, b: string)
    requires a != [] && !IsSpace(a[|a| - 1]) && b != [] && !IsSpace(b[0])
    ensures ReplaceWhitespace(a + " " + b) == ReplaceWhitespace(a) + "-" + ReplaceWhitespace(b)
  {
    AppendAssoc(a, " ", b);
    assert (" " + b)[0] == ' ';
    ReplaceWhitespaceAppend(a, " " + b);
    ReplaceWhitespaceAppend(" ", b);
    ReplaceWhitespaceOfRun(" ");
    AppendAssoc(ReplaceWhitespace(a), "-", ReplaceWhitespace(b));
  }

  /** A suffix without whitespace is kept as it is. */
  lemma TextThenSuffix(a: string, b: string)
    requires b != [] && NoSpace(b)
    ensures ReplaceWhitespace(a + b) == ReplaceWhitespace(a) + b
  {
    ReplaceWhitespaceAppend(a, b);
    ReplaceWhitespaceIdentity(b);
  }

  /** A text in which no ':' is directly followed by a space has no separator. */
  lemma NoSeparator(s: string)
    requires forall i :: 0 <= i < |s| - 1 ==> s[i] != ':' || s[i + 1] != ' '
    ensures !Contains(s, TitleSeparator)
  {
    forall k: nat | k + 2 <= |s|
      ensures !HasAt(s, k, TitleSeparator)
    {
      assert s[k..k + 2][0] == s[k] && s[k..k + 2][1] == s[k + 1];
    }
  }

  /** A title without ": " cannot be parsed, not even with a bare ':'. */
  lemma UnparseableTitles(lib: Library, link: string, content: string)
    ensures GetDownloadModel(lib, Item("NoColonHere", link, content)) == ParseError("NoColonHere")
    ensures GetDownloadModel(lib, Item("Part:One", link, content)) == ParseError("Part:One")
  {
    NoSeparator("NoColonHere");
    NoSeparator("Part:One");
  }

  /** The separator after a text without ':' is the first one. */
  lemma SeparatorAfter(before: string, after: string)
    requires forall i :: 0 <= i < |before| ==> before[i] != ':'
    ensures var title := before + TitleSeparator + after;
      Index(title, TitleSeparator) == Some(|before|) &&
      title[..|before|] == before && title[|before| + |TitleSeparator|..] == after
  {
    var title := before + TitleSeparator + after;
    assert title[|before|..|before| + 2] == TitleSeparator;
    assert HasAt(title, |before|, TitleSeparator);
    forall k: nat | k < |before|
      ensures !HasAt(title, k, TitleSeparator)
    {
      assert title[k] == before[k];
      if k + 2 <= |title| {
        assert title[k..k + 2][0] == title[k];
      }
    }
    assert title[..|before|] == before;
    assert title[|before| + 2..] == after;
  }

  /** The title from the program's own comment, with a delivery link for video 5. */
  lemma MasteringNHibernateExample(lib: Library, content: string)
    requires Plausible(lib)
    ensures var link := HttpsHost + "nhibernate" + "/" + "005" + FileQuery + "xyz";
      GetDownloadModel(lib, Item("Mastering NHibernate 2: Search", link, content)) ==
      Parsed(Download("Mastering NHibernate 2: Search", content, "Mastering NHibernate 2",
        "Mastering-NHibernate-2-005-Search.mp4", link))
  {
    var link := HttpsHost + "nhibernate" + "/" + "005" + FileQuery + "xyz";
    SequenceNumberExampleHttps();
    MasteringWithNumberFive(lib, Item("Mastering NHibernate 2: Search", link, content));
  }

  /** Any item with that title whose link carries sequence number 5. */
  lemma MasteringWithNumberFive(lib: Library, item: Item)
    requires Plausible(lib)
    requires item.title == "Mastering NHibernate 2: Search"
    requires SequenceNumberFromLink(item.link) == (5, true)
    ensures GetDownloadModel(lib, item) ==
      Parsed(Download(item.title, item.content, "Mastering NHibernate 2",
        "Mastering-NHibernate-2-005-Search.mp4", item.link))
  {
    MasteringTitle();
    MasteringPartsClean(lib);
    PlainTitle(lib, item, "Mastering NHibernate 2", "Search");
    Pad3Examples();
    MasteringDashes();
    MasteringFilename();
  }

  /**
   * A title "<folder>: <video>" whose two parts are plain names that survive
   * `cleanPath` unchanged gives the folder name itself and the file name
   * "<folder>-<number>-<video>.mp4" with whitespace runs turned into '-'.
   */
  lemma PlainTitle(lib: Library, item: Item, folder: string, video: string)
    requires item.title == folder + TitleSeparator + video
    requires forall i :: 0 <= i < |folder| ==> folder[i] != ':'
    requires CleanPath(lib, folder) == folder && CleanPath(lib, video) == video
    requires folder != [] && !IsSpace(folder[|folder| - 1]) && video != [] && !IsSpace(video[0])
    ensures var number := SequenceNumberFromLink(item.link);
      GetDownloadModel(lib, item) == Parsed(Download(item.title, item.content, folder,
        if number.1
        then ReplaceWhitespace(folder) + "-" + Pad3(number.0) + "-" + ReplaceWhitespace(video) + ".mp4"
        else ReplaceWhitespace(folder) + "-" + ReplaceWhitespace(video) + ".mp4",
        item.link))
  {
    SeparatorAfter(folder, video);
    FilenameLayout(lib, item);
  }

  lemma MasteringTitle()
    ensures "Mastering NHibernate 2: Search" == "Mastering NHibernate 2" + TitleSeparator + "Search"
    ensures forall i :: 0 <= i < |"Mastering NHibernate 2"| ==> "Mastering NHibernate 2"[i] != ':'
    ensures !IsSpace("Mastering NHibernate 2"[21]) && !IsSpace("Search"[0])
  {
  }

  /** Both parts of the title are plain names that `cleanPath` leaves alone. */
  lemma MasteringPartsClean(lib: Library)
    requires Plausible(lib)
    ensures CleanPath(lib, "Mastering NHibernate 2") == "Mastering NHibernate 2"
    ensures CleanPath(lib, "Search") == "Search"
  {
    assert CleanPath(lib, "Search") == "Search" by {
      CleanPathKeepsPlainElement(lib, "Search");
    }
    CleanPathKeepsPlainElement(lib, "Mastering NHibernate 2");
  }

  lemma MasteringFilename()
    ensures "Mastering-NHibernate-2" + "-" + "005" + "-" + "Search" + ".mp4" == "Mastering-NHibernate-2-005-Search.mp4"
  {
  }

  lemma MasteringDashes()
    ensures ReplaceWhitespace("Mastering NHibernate 2") == "Mastering-NHibernate-2"
    ensures ReplaceWhitespace("Search") == "Search"
  {
    MasteringWords();
    ThreeWords("Mastering", "NHibernate", "2");
    ReplaceWhitespaceIdentity("Search");
  }

  lemma MasteringWords()
    ensures "Mastering NHibernate 2" == "Mastering" + " " + "NHibernate" + " " + "2"
    ensures "Mastering-NHibernate-2" == "Mastering" + "-" + "NHibernate" + "-" + "2"
    ensures NoSpace("Mastering") && NoSpace("NHibernate") && NoSpace("2")
  {
  }

  /** Three words joined by single spaces are joined by single hyphens. */
  lemma ThreeWords(a: string, b: string, c: string)
    requires a != [] && b != [] && c != [] && NoSpace(a) && NoSpace(b) && NoSpace(c)
    ensures ReplaceWhitespace(a + " " + b + " " + c) == a + "-" + b + "-" + c
  {
    ReplaceWhitespaceIdentity(a);
    ReplaceWhitespaceIdentity(b);
    ReplaceWhitespaceIdentity(c);
    JoinWithSpace(b, c);
    assert (b + " " + c)[0] == b[0];
    JoinWithSpace(a, b + " " + c);
    AppendAssoc(a + " ", b + " ", c);
    AppendAssoc(a + " ", b, " ");
    AppendAssoc(a, " ", b + " " + c);
    AppendAssoc(a + "-", b + "-", c);
    AppendAssoc(a + "-", b, "-");
    AppendAssoc(a, "-", b + "-" + c);
  }
}
