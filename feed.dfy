/**
 * The download loop of `main`.
 *
 * The loop walks the feed items in order: an item whose title cannot be parsed is
 * reported and skipped; every other item is downloaded, and after each download the
 * loop ends if `stop` has been set. The loop is stated over its parsing step
 * `parse`, which in the program is `getDownloadModel` (DownloadModel.GetDownloadModel
 * for a given set of Unicode tables and path cleaner). `stop` is written by the
 * listener goroutine; the model receives the value the loop reads after the
 * download of item i as `stopFlags[i]`.
 */
module FeedRunner {
  import opened Chars
  import opened PathSanitizer
  import opened DownloadModel

  /** The models handed to `download`, in feed order. */
  function Downloads(parse: Item -> ParseResult, items: seq<Item>): (r: seq<Download>)
    ensures |r| <= |items|
  {
    if items == [] then []
    else
      var last := parse(items[|items| - 1]);
      Downloads(parse, items[..|items| - 1]) + if last.Parsed? then [last.model] else []
  }

  /** The titles reported as "Unable to parse item", in feed order. */
  function Skipped(parse: Item -> ParseResult, items: seq<Item>): (r: seq<string>)
    ensures |r| <= |items|
  {
    if items == [] then []
    else
      var last := items[|items| - 1];
      Skipped(parse, items[..|items| - 1]) + if parse(last).ParseError? then [last.title] else []
  }

  /** The loop ends after this item: it was downloaded and `stop` was set by then. */
  predicate StopsAfter(parse: Item -> ParseResult, item: Item, stop: bool) {
    parse(item).Parsed? && stop
  }

  /**
   * How many items the loop takes from the feed: up to and including the first one
   * after whose download `stop` is seen, or all of them.
   */
  function ProcessedCount(parse: Item -> ParseResult, items: seq<Item>, stopFlags: seq<bool>): (n: nat)
    requires |stopFlags| == |items|
    ensures n <= |items|
    ensures forall i :: 0 <= i < n - 1 ==> !StopsAfter(parse, items[i], stopFlags[i])
    ensures n < |items| ==> 0 < n && StopsAfter(parse, items[n - 1], stopFlags[n - 1])
  {
    if items == [] then 0
    else if StopsAfter(parse, items[0], stopFlags[0]) then 1
    else 1 + ProcessedCount(parse, items[1..], stopFlags[1..])
  }

  /** The loop of `main` over `feed.Items`, with `download` reduced to recording its argument. */
  method RunFeed(parse: Item -> ParseResult, items: seq<Item>, stopFlags: seq<bool>)
    returns (downloads: seq<Download>, skipped: seq<string>, processed: nat, stopped: bool)
    requires |stopFlags| == |items|
    ensures processed == ProcessedCount(parse, items, stopFlags)
    ensures downloads == Downloads(parse, items[..processed])
    ensures skipped == Skipped(parse, items[..processed])
    ensures stopped <==> 0 < processed && StopsAfter(parse, items[processed - 1], stopFlags[processed - 1])
  {
    downloads, skipped, processed, stopped := [], [], 0, false;
    while processed < |items| && !stopped
      invariant processed <= |items|
      invariant downloads == Downloads(parse, items[..processed])
      invariant skipped == Skipped(parse, items[..processed])
      invariant forall i :: 0 <= i < processed - 1 ==> !StopsAfter(parse, items[i], stopFlags[i])
      invariant stopped <==> 0 < processed && StopsAfter(parse, items[processed - 1], stopFlags[processed - 1])
    {
      var item := items[processed];
      assert items[..processed + 1][..processed] == items[..processed];
      var result := parse(item);
      if result.ParseError? {
        skipped := skipped + [item.title];
      } else {
        downloads := downloads + [result.model];
        if stopFlags[processed] {
          stopped := true;
        }
      }
      processed := processed + 1;
    }
    ProcessedCountIsFirstStop(parse, items, stopFlags, processed);
  }

  /** The three conditions in ProcessedCount's contract determine it. */
  lemma ProcessedCountIsFirstStop(parse: Item -> ParseResult, items: seq<Item>, stopFlags: seq<bool>, n: nat)
    requires |stopFlags| == |items| && n <= |items|
    requires forall i :: 0 <= i < n - 1 ==> !StopsAfter(parse, items[i], stopFlags[i])
    requires n < |items| ==> 0 < n && StopsAfter(parse, items[n - 1], stopFlags[n - 1])
    ensures n == ProcessedCount(parse, items, stopFlags)
  {
  }

  /** Every item taken from the feed is either downloaded or reported as unparseable. */
  lemma {:induction false} DownloadsAndSkippedPartition(parse: Item -> ParseResult, items: seq<Item>)
    ensures |Downloads(parse, items)| + |Skipped(parse, items)| == |items|
  {
    if items != [] {
      DownloadsAndSkippedPartition(parse, items[..|items| - 1]);
    }
  }

  /**
   * With `getDownloadModel` as the parsing step, whatever is downloaded has a
   * whitespace-free file name and a folder name made of allowed characters.
   */
  lemma {:induction false} DownloadedNamesAreSafe(lib: Library, parse: Item -> ParseResult, items: seq<Item>)
    requires forall item :: parse(item) == GetDownloadModel(lib, item)
    ensures forall d :: d in Downloads(parse, items) ==>
      NoSpace(d.filename) && AllAllowed(lib, d.foldername)
  {
    if items != [] {
      DownloadedNamesAreSafe(lib, parse, items[..|items| - 1]);
      var last := items[|items| - 1];
      assert parse(last) == GetDownloadModel(lib, last);
    }
  }

  /**
   * With the real character tables, every downloaded file name is made of '-' and
   * allowed characters other than whitespace.
   */
  lemma {:induction false} DownloadedFilenamesAreSafe(lib: Library, parse: Item -> ParseResult, items: seq<Item>)
    requires Plausible(lib)
    requires forall item :: parse(item) == GetDownloadModel(lib, item)
    ensures forall d :: d in Downloads(parse, items) ==> SafeFilename(lib, d.filename)
  {
    if items != [] {
      DownloadedFilenamesAreSafe(lib, parse, items[..|items| - 1]);
      var last := items[|items| - 1];
      assert parse(last) == GetDownloadModel(lib, last);
      if parse(last).Parsed? {
        FilenameIsSafe(lib, last);
      }
    }
  }

  /** Without a stop request the loop takes every item. */
  lemma {:induction false} NoStopTakesAll(parse: Item -> ParseResult, items: seq<Item>, stopFlags: seq<bool>)
    requires |stopFlags| == |items|
    requires forall i :: 0 <= i < |stopFlags| ==> !stopFlags[i]
    ensures ProcessedCount(parse, items, stopFlags) == |items|
  {
    if items != [] {
      NoStopTakesAll(parse, items[1..], stopFlags[1..]);
    }
  }

  /**
   * `stop` is looked at only after a download: a stop request that arrives while an
   * unparseable item is skipped takes effect after the next download.
   */
  lemma SkipIgnoresStopFlag(parse: Item -> ParseResult, items: seq<Item>, stopFlags: seq<bool>, i: nat, b: bool)
    requires |stopFlags| == |items| && i < |items|
    requires parse(items[i]).ParseError?
    ensures ProcessedCount(parse, items, stopFlags[i := b]) == ProcessedCount(parse, items, stopFlags)
  {
    var flags := stopFlags[i := b];
    assert forall k :: 0 <= k < |items| ==>
      StopsAfter(parse, items[k], flags[k]) == StopsAfter(parse, items[k], stopFlags[k]);
    ProcessedCountIsFirstStop(parse, items, flags, ProcessedCount(parse, items, stopFlags));
  }

  /** A feed of a parseable, an unparseable and a parseable item. */
  lemma ThreeItemDownloads(parse: Item -> ParseResult, a: Item, b: Item, c: Item)
    requires parse(a).Parsed? && parse(b).ParseError? && parse(c).Parsed?
    ensures Downloads(parse, [a, b, c]) == [parse(a).model, parse(c).model]
    ensures Skipped(parse, [a, b, c]) == [b.title]
  {
    assert [a, b, c][..2] == [a, b];
    assert [a, b][..1] == [a];
    assert [a][..0] == [];
    assert Downloads(parse, [a]) == [parse(a).model];
    assert Downloads(parse, [a, b]) == [parse(a).model];
    assert Skipped(parse, [a]) == [];
    assert Skipped(parse, [a, b]) == [b.title];
  }

  /** The same feed with stop requested at different moments. */
  lemma ThreeItemStops(parse: Item -> ParseResult, a: Item, b: Item, c: Item)
    requires parse(a).Parsed? && parse(b).ParseError? && parse(c).Parsed?
    ensures ProcessedCount(parse, [a, b, c], [false, false, false]) == 3
    ensures ProcessedCount(parse, [a, b, c], [true, true, true]) == 1
    ensures ProcessedCount(parse, [a, b, c], [false, true, true]) == 3
  {
    ProcessedCountIsFirstStop(parse, [a, b, c], [false, false, false], 3);
    ProcessedCountIsFirstStop(parse, [a, b, c], [true, true, true], 1);
    ProcessedCountIsFirstStop(parse, [a, b, c], [false, true, true], 3);
  }
}
