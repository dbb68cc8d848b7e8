# tekpub-catcher: the naming pipeline and the download loop

tekpub-catcher reads an RSS feed of TekPub screencasts and downloads each video.
Every item is stored as `<download path>/<folder>/<file>`, with names taken from
the item's title and link. This project models the part of `main.go` that derives
those names. It covers:

- `cleanPath`, which strips characters from a path segment;
- `replaceWhitespace`, which turns every run of `\s` into one `-`;
- `getSequenceNumberFromLink`, which finds the episode number in the delivery URL;
- `getDownloadModel`, which puts the pieces together;
- the loop in `main` that walks the feed, skips items it cannot parse and stops
  after a download once a stop request has been seen;
- the test the stop-listener goroutine applies to each input line.

| file | module | what it holds |
|---|---|---|
| `chars.dfy` | `Chars` | RE2's `\s`, `\d`, `\w` classes and substring helpers |
| `decimal.dfy` | `Decimal` | the value `strconv.ParseInt` reads from digits, and `%03d` |
| `sanitize.dfy` | `PathSanitizer` | `cleanPath` and `replaceWhitespace` |
| `sequence.dfy` | `SequenceNumber` | `SequenceNumberPattern` and `getSequenceNumberFromLink` |
| `model.dfy` | `DownloadModel` | the `Download` record and `getDownloadModel` |
| `feed.dfy` | `FeedRunner` | the item loop of `main` |
| `stop.dfy` | `StopListener` | the line test of the stop listener |

Some inputs come from Go's libraries and are not interpreted by the model:

- The Unicode tables behind `\pL`, `\pN` and `\p{Latin}`, and `filepath.Clean`, are
  fields of a `Library` value that every sanitising function takes.
- Where an example needs a fact about them, it requires `Plausible(lib)`:
  - ASCII letters are Latin letters and ASCII digits are numbers;
  - '-' is in none of the tables;
  - `Clean("")` is `"."`;
  - a single plain path element is returned unchanged.
- `filepath.Clean` is taken to be that of the Unix path package, where '/' is the
  only separator. The last two facts and the `Clean` results that
  `CleanPathNotIdempotent` requires are Unix results. On Windows, `a\..\b` cleans
  to `b` and "a//b" to `a\b`.

The regular expression
`https?://delivery\.tekpub\.com/.+[^/]+/(\d+)/hd/file\.mp4\?token=[\w\d]+` is not
run by a regex engine.

- A match is described by three positions:
  - where "http" starts;
  - where the captured digits start;
  - where the digits end.
- Go reports the leftmost-first match: the earliest start, and for that start the
  choice a backtracking matcher makes.
- For this pattern, that choice is the last feasible capture, because the greedy
  `.+` takes as much as it can.
- `FindMatch` computes that match, and `FindMatchIsLeftmostFirst` proves that it is
  the one the definition describes.

Four behaviours of the code that are easy to misread:

- `cleanPath` does not trim whitespace. Line 248 calls `strings.TrimSpace`, but
  line 249 passes the original `dirtyPath` to `filepath.Clean`, so the trimmed
  value is discarded (`CleanPathKeepsOuterSpaces`).
- The character class `[^\pL\pN\p{Latin}\.-_\s#]` contains the range `\.-_`, from
  '.' (0x2E) to '_' (0x5F):
  - '-' is removed from names (`CleanPathHasNoHyphen`, `CleanPathDropsHyphen`);
  - '/', ':', ';', '<'..'@', '[', '\', ']' and '^' are kept.
- `cleanPath` is not idempotent. Removing a '-' can create "//", and a second
  `filepath.Clean` collapses it (`CleanPathNotIdempotent`).
- `replaceWhitespace` adds one hyphen per whitespace run on top of the hyphens the
  text already had (`ReplaceWhitespaceHyphens`). "Hyphens equal runs" holds only for
  text without hyphens, which every folder name and cleaned video name is.

## Model

| member | source | states |
|---|---|---|
| `Decimal.DecimalString` | main.go:212 | the shortest numeral of n: non-empty digits, no leading zero, reading back as n |
| `Decimal.DecimalValue` | main.go:239 | the value `ParseInt` base 10 reads from a string of ASCII digits, most significant first |
| `Decimal.Pad3` | main.go:212 | `%03d`: digits reading back as n, zero-padded to exactly three characters when shorter, otherwise unpadded and without a leading zero |
| `Decimal.LeadingZerosDoNotCount` | main.go:212 | zeros in front of a numeral do not change the value read back |
| `Decimal.Pad3Examples` | main.go:212 | 5 prints as "005", 77 as "077", 1234 as "1234" |
| `PathSanitizer.StripInvalid` | main.go:27 | `InvalidPathCharacters.ReplaceAllString(s, "")`: the result holds only allowed characters and is no longer than s |
| `PathSanitizer.Allowed` | main.go:27 | the characters the class does not match: the three tables, the range '.'..'_' (so not '-'), `\s` and '#' |
| `PathSanitizer.StripInvalidAppend` | main.go:27 | the filter works character by character: it distributes over concatenation |
| `PathSanitizer.StripInvalidFixedPoints` | main.go:27 | the filter leaves s unchanged if and only if every character of s is allowed |
| `PathSanitizer.StripInvalidIdempotent` | main.go:27 | filtering twice is filtering once |
| `PathSanitizer.StripInvalidOfChar` | main.go:250 | an allowed character is kept and any other is deleted; with StripInvalidAppend this determines the filter |
| `PathSanitizer.StripInvalidMembers` | main.go:250 | the filtered text contains exactly the allowed characters of the input |
| `PathSanitizer.CleanPath` | main.go:247-252 | `cleanPath`: filter after `filepath.Clean`; the result holds only allowed characters and is no longer than the cleaned path |
| `PathSanitizer.CleanPathHasNoHyphen` | main.go:27 | '-' never appears in a cleaned name, since the range `\.-_` does not admit it |
| `PathSanitizer.CleanPathKeepsPlainElement` | main.go:247-252 | with the real tables, a single path element other than "." and "..", without '/', made of ASCII letters, ASCII digits, the range '.'..'_', `\s` and '#', comes back unchanged |
| `PathSanitizer.CleanPathOfEmpty` | main.go:249-250 | the empty title part becomes "." |
| `PathSanitizer.CleanPathKeepsOuterSpaces` | main.go:248-249 | leading and trailing spaces survive: " Search " stays " Search " |
| `PathSanitizer.CleanPathDropsHyphen` | main.go:27 | "C#-a;b@c" becomes "C#a;b@c" |
| `PathSanitizer.StripHyphenBetween` | main.go:27 | a '-' between two runs of kept characters is removed and nothing else changes |
| `PathSanitizer.CleanPathNotIdempotent` | main.go:247-252 | "a/-/b" cleans to "a//b", and cleaning that again gives "a/b" |
| `PathSanitizer.ReplaceWhitespace` | main.go:254-256 | `replaceWhitespace`: the result contains no `\s` character |
| `PathSanitizer.ReplaceWhitespaceIdentity` | main.go:254-256 | text without whitespace is returned unchanged |
| `PathSanitizer.ReplaceWhitespaceOfRun` | main.go:29 | a whole run of whitespace becomes exactly one "-" |
| `PathSanitizer.ReplaceWhitespaceAppend` | main.go:254-256 | the replacement distributes over a concatenation unless a whitespace run spans the join |
| `PathSanitizer.ReplaceWhitespaceExtendRun` | main.go:29 | one more whitespace character at the end of a trailing run changes nothing, because `\s+` is greedy |
| `PathSanitizer.ReplaceWhitespaceSnoc` | main.go:254-256 | read from the back, a non-space is copied, the first space of a run adds "-", and any later one adds nothing |
| `PathSanitizer.ReplaceWhitespaceHyphens` | main.go:254-256 | the hyphens of the result are those of the input plus one per maximal whitespace run |
| `PathSanitizer.ReplaceWhitespaceLength` | main.go:254-256 | the result is as long as the input, minus its whitespace characters, plus its runs |
| `PathSanitizer.ReplaceWhitespaceKeepsText` | main.go:254-256 | every character other than whitespace and '-' comes through in order, and no other such character is added |
| `PathSanitizer.ReplaceWhitespaceChars` | main.go:254-256 | every character of the result is '-' or a character of the input |
| `Chars.IsSpace` | main.go:29 | RE2's `\s`: tab, newline, form feed, carriage return and space |
| `Chars.IsWordChar` | main.go:28 | RE2's `\w`: ASCII letters, digits and '_' |
| `SequenceNumber.DigitsEnd` | main.go:28 | the end of the maximal run of digits starting at j |
| `SequenceNumber.HostEnd` | main.go:28 | where `https?://delivery\.tekpub\.com/` ends when it starts at i |
| `SequenceNumber.MiddleMatches` | main.go:28 | `.+[^/]+`: a non-empty part without newline, then a non-empty part without '/' |
| `SequenceNumber.TailAt` | main.go:28 | `(\d+)/hd/file\.mp4\?token=[\w\d]+` with the digits at j..e, followed by the literal and at least one word character |
| `SequenceNumber.MatchAt` | main.go:28 | the whole pattern matches with "http" at i and the capture at j..e |
| `SequenceNumber.LeftmostFirst` | main.go:234 | the match `FindStringSubmatch` reports: no match starts earlier, and for that start no later capture is feasible |
| `SequenceNumber.TailEndIsDigitsEnd` | main.go:28 | in a match, `(\d+)` ends where the run of digits ends, because '/' follows it |
| `SequenceNumber.LastCapture` | main.go:28 | the latest capture start at or before j that completes a match from i; no later one does |
| `SequenceNumber.FindMatch` | main.go:28 | the leftmost start with a match and its last capture; no match starts earlier, none is later for that start, and None exactly when nothing matches |
| `SequenceNumber.LeftmostFirstUnique` | main.go:28 | the leftmost-first match is unique |
| `SequenceNumber.FindMatchIsLeftmostFirst` | main.go:28 | FindMatch finds the leftmost-first match, and finds one whenever any match exists |
| `SequenceNumber.ParsedNumber` | main.go:239-244 | `ParseInt` on digits: (value, true) up to the largest int64, (0, false) above it |
| `SequenceNumber.SequenceNumberFromLink` | main.go:233-245 | `getSequenceNumberFromLink`: found exactly when the pattern matches and the captured digits fit in an int64; the value is then that of the leftmost-first capture, and (0, false) otherwise |
| `SequenceNumber.NoFileQueryNoNumber` | main.go:233-237 | a link without "/hd/file.mp4?token=" yields (0, false) |
| `SequenceNumber.CanonicalLink` | main.go:233-245 | for `http(s)://delivery.tekpub.com/<path>/<digits>/hd/file.mp4?token=<word chars>` with a `<path>` that fits `.+[^/]+` (a non-empty part without newline, then a non-empty part without '/'), non-empty digits and a non-empty token, the result is what `ParseInt` makes of the digits |
| `SequenceNumber.CaptureIsLast` | main.go:28 | a capture followed by "/hd/file.mp4?token=" and only word characters to the end is the last one the pattern can take |
| `SequenceNumber.NoSlashBeforeLaterCapture` | main.go:28 | after such a capture no later `/(\d+)/hd/file\.mp4` can start, since no '/' followed by a digit remains |
| `SequenceNumber.SequenceNumberExampleHttp` | main.go:233-245 | `http://delivery.tekpub.com/nhibernate/77/hd/file.mp4?token=abc123` gives (77, true) |
| `SequenceNumber.SequenceNumberExampleHttps` | main.go:233-245 | the https link with "005" gives (5, true) |
| `DownloadModel.Index` | main.go:197-198 | `strings.Index`: the first occurrence of the separator, None (Go's -1) exactly when the title does not contain it |
| `DownloadModel.Item` | main.go:191-231 | the fields of an RSS item the program reads: title, link and content |
| `DownloadModel.Download` | main.go:258-265 | Go's `Download` record with its five fields |
| `DownloadModel.ParseResult` | main.go:191-200 | the model, or the error for a title without ": " |
| `DownloadModel.SpacedFilename` | main.go:209-218 | the two `Sprintf` calls: folder, `%03d` number and video name joined by spaces, or folder and video name, each with ".mp4" |
| `DownloadModel.GetDownloadModel` | main.go:191-231 | fails exactly when the title lacks ": ", and then reports the title; otherwise it copies title, content and link, and gives a whitespace-free file name and a folder name of allowed characters |
| `DownloadModel.SplitAtFirstSeparator` | main.go:196-221 | the folder is `cleanPath` of the text before the FIRST ": ", and the file name is `replaceWhitespace` of folder, optional `%03d` number and cleaned rest, joined by spaces, plus ".mp4" |
| `DownloadModel.FilenameEndsWithMp4` | main.go:206-221 | every file name ends in ".mp4" |
| `DownloadModel.FilenameIsSafe` | main.go:203-221 | with the real tables, a file name consists of '-' and allowed characters other than whitespace |
| `DownloadModel.SpacedFilenameIsSafe` | main.go:209-221 | the same for any cleaned folder and video name and any number |
| `DownloadModel.FilenameLayout` | main.go:206-221 | when the folder ends and the video name starts with a non-space, the file name is folder, number and video name (spaces replaced) joined by "-", plus ".mp4"; the padded number reads back as the sequence number |
| `DownloadModel.SpacedLayout` | main.go:209-221 | the same layout for any folder name that is non-empty and ends in a non-space, any number, and any video name that is non-empty and starts with a non-space |
| `DownloadModel.NoSeparator` | main.go:196-200 | a title in which no ':' is followed by a space does not contain the separator |
| `DownloadModel.UnparseableTitles` | main.go:197-200 | "NoColonHere" and "Part:One" are rejected |
| `DownloadModel.SeparatorAfter` | main.go:197-206 | with no ':' before it, the separator is found right after the first part, which splits the title back into its parts |
| `DownloadModel.PlainTitle` | main.go:191-231 | a title "<folder>: <video>" whose folder part has no ':', whose two parts survive `cleanPath` unchanged, and whose folder part is non-empty and ends in a non-space while the video part is non-empty and starts with one, gives the whole record, with or without a number |
| `DownloadModel.MasteringNHibernateExample` | main.go:191-231 | "Mastering NHibernate 2: Search" with sequence number 5 gives folder "Mastering NHibernate 2" and file "Mastering-NHibernate-2-005-Search.mp4" |
| `FeedRunner.Downloads` | main.go:113-121 | the models handed to `download`, in feed order; at most one per item |
| `FeedRunner.Skipped` | main.go:115-118 | the titles reported as unparseable, in feed order |
| `FeedRunner.ProcessedCount` | main.go:113-127 | the loop takes items up to and including the first one after whose download `stop` is true, or all items |
| `FeedRunner.StopsAfter` | main.go:121-126 | the loop ends after an item that was downloaded when `stop` is then true |
| `FeedRunner.RunFeed` | main.go:113-127 | the loop: it takes ProcessedCount items, downloads exactly the parseable ones among them, reports exactly the others, and ends early only after a download with `stop` set |
| `FeedRunner.ProcessedCountIsFirstStop` | main.go:113-127 | the number of items taken is determined by where the first stop after a download falls |
| `FeedRunner.DownloadsAndSkippedPartition` | main.go:115-121 | every item taken is either downloaded or reported, never both |
| `FeedRunner.DownloadedNamesAreSafe` | main.go:113-127 | everything downloaded has a whitespace-free file name and a folder name of allowed characters |
| `FeedRunner.DownloadedFilenamesAreSafe` | main.go:113-127 | with the real tables, every downloaded file name consists of '-' and allowed non-space characters |
| `FeedRunner.NoStopTakesAll` | main.go:113-127 | without a stop request every item is taken |
| `FeedRunner.SkipIgnoresStopFlag` | main.go:115-126 | the `continue` bypasses the stop check: the flag's value at a skipped item does not matter |
| `FeedRunner.ThreeItemDownloads` | main.go:113-127 | a feed of a good, a bad and a good item downloads the two good ones in order and reports the bad one |
| `FeedRunner.ThreeItemStops` | main.go:113-127 | on the same feed, a stop set during the skipped item takes effect only after the next download |
| `StopListener.SkipForward` | main.go:96 | the first non-whitespace index at or after i |
| `StopListener.SkipBackward` | main.go:96 | the end moved back over whitespace, not below lo |
| `StopListener.TrimSpace` | main.go:96 | `strings.TrimSpace`: the result is no longer than the line and begins and ends with a non-space |
| `StopListener.IsUnicodeSpace` | main.go:96 | `unicode.IsSpace`, the white space `strings.TrimSpace` removes |
| `StopListener.TrimSpaceIsSlice` | main.go:96 | the trimmed line is a slice of the line with only whitespace cut from either end |
| `StopListener.TrimSpaceOfPadded` | main.go:96 | trimming a word padded with whitespace gives back the word |
| `StopListener.AsciiLower` | main.go:96 | ASCII capitals are lowered character by character; the length is kept |
| `StopListener.ListenForStop` | main.go:89-100 | after reading a sequence of lines, `stop` is true exactly when one of them is a stop command |
| `StopListener.IsStopCommand` | main.go:96-97 | a line asks to stop when, trimmed and lower-cased, it reads "stop" |
| `StopListener.StopWithNewline` | main.go:91-97 | "stop\n" as `ReadString` returns it is a stop command |
| `StopListener.StopInCapitalsWithBlanks` | main.go:96-97 | "  STOP \r\n" is a stop command |
| `StopListener.NotAStopCommand` | main.go:96-97 | "stopp\n", "st op\n" and "\n" are not |

## Left out

- `download` (main.go:130-189): HTTP, directory creation, the existence check and
  file streaming are I/O. Its read loop does not end on a persistent non-EOF read
  error. The loop model records the model handed to `download` and nothing else.
- `rss.Fetch` and `log.Panic` (main.go:104-109): network access and a foreign
  library. The feed is the `items` parameter of `RunFeed`.
- The start-up checks (main.go:37-80) and `settings.go`: flag parsing, `filepath.Abs`
  and filesystem tests.
- `message` and `Download.String` (main.go:267-279): console output only. Printing
  "Unable to parse item" is modelled by recording the title in `skipped`.
- Concurrency: the listener goroutine and the loop share `stop` without
  synchronisation.
  - `RunFeed` receives the value the loop reads after each download as
    `stopFlags[i]`.
  - `ListenForStop` models the listener over the lines it has read so far. The
    listener itself never ends.
  - A read error from `ReadString` is only formatted and discarded (main.go:92-94).
    The model treats every element of `lines` as a line that was read.
- The Unicode tables behind `\pL`, `\pN` and `\p{Latin}`, and `filepath.Clean`,
  are parameters, not definitions. Only the facts in `Plausible` are assumed of them.
- `StopListener.AsciiLower`: lowers ASCII letters only, while `strings.ToLower`
  maps every Unicode upper-case letter. No non-ASCII letter lowers to one of
  "stop", so `IsStopCommand` agrees with the program on which lines ask to stop.
- `SequenceNumber.ParsedNumber`: assumes a 64-bit `int`, because `ParseInt` with
  bit size 0 uses the width of `int`.
- `FeedRunner.RunFeed`: takes the parsing step as a parameter. `DownloadedNamesAreSafe`
  instantiates it with `GetDownloadModel`.
- `SequenceNumber.LeftmostFirst`: states the engine's choice for a given start as
  the last feasible capture. It does not model how the engine backtracks over `.+`.
  The argument that the two agree is in the comment at the head of `sequence.dfy`.
- `filepath.Clean` on Windows, where '\' is a separator too: the facts in
  `Plausible` and the example results are those of the Unix path package.
- Go strings are bytes: `strings.Index` returns byte offsets, and `ReplaceAllString`
  reads an invalid UTF-8 byte as U+FFFD. The model takes every string to be valid
  UTF-8 and represents it as a sequence of code points, so offsets count characters.
