# souvlaki_rs — a Dafny model of the fetch/tag/notify core

SouvlakiRS fetches radio-show episodes on a schedule and imports them into a
station's library. The sources are a plain file URL, an RSS feed, or the
Audioport syndication site. For each program code it:

- looks up the program's configuration and validates it;
- prepares the entry: a publish date, a retitle flag and a file URL;
- downloads the episode, with retries on timeouts, and checks that the result
  looks like an MP3;
- rewrites the ID3 tags;
- hands the file to the importer;
- files a line for a Basecamp comment, with a warning when the episode's
  length does not fit its time block.

This project models the decision logic inside that pipeline as pure Dafny
functions over immutable datatypes, and proves what the code and its tests
promise. Anything that touches the outside world becomes a parameter: the
disk, the network, feeds, the spider, the importer and tag normalisation.

Modules follow the Ruby files:

| module | file | what it holds |
|---|---|---|
| `Wrappers` | — | `Option`, `Result`, and `Interp` (Ruby's `"#{nil}"` is empty) |
| `Text` | — | the Ruby string operations the core uses: `strip`, `downcase`, `tr`, `File.basename`, `File.join`, `URI#request_uri` |
| `Dates` | — | a proleptic Gregorian date, the previous day, `strftime` for `%Y %m %d`, `Date#to_s`, and the clock text `%H:%M:%S` |
| `Program` | `program.rb` | the configuration entry, `valid?`, `prepare`, `file_duration` |
| `Fetch` | `fetch.rb`, `util.rb` | file validation, the download/retry skeleton, the RSS item scan |
| `Tag` | `tag.rb` | the ID3 read and write merges, `copy_tag`, the title rules of `retag_file` and `retag_user_file` |
| `Audioport` | `audioport.rb` | the availability check, series URIs, the Content-Disposition filename, the table slicing |
| `Basecamp` | `basecamp.rb` | the per-message line lists, content, payload, headers and endpoints |
| `Config` | `config.rb` | entry, host and program lookups over a configuration map |
| `Manager` | `souvlaki_rs.rb` | code filtering, config preparation, source dispatch, the length warning, `process_program` |

## Model

| member | source | states |
|---|---|---|
| Program.Check | lib/souvlaki_rs/program.rb:48-82 | a configuration passes exactly when it has pub_title, creator and name, any genre is known, the source is file/rss/audioport, a file source has a base URL and an rss source has a feed; each rejection implies the earlier checks passed |
| Program.MissingFieldReportedFirst | lib/souvlaki_rs/program.rb:49-54 | a missing pub_title, creator or name is the reason reported, ahead of any genre or source problem |
| Program.Prepare | lib/souvlaki_rs/program.rb:9-28 | retitle is true unless it was explicitly false; today is a boolean; pub_date is the previous day of the requested date unless a date was given or `today` is set; a file source gets base_url, or base_url + "/" + the formatted date; nothing else changes |
| Program.PreparePreservesValidity | lib/souvlaki_rs/program.rb:9-28 | preparing a valid entry keeps it valid |
| Program.PrepareFileUrlExample | lib/souvlaki_rs/program.rb:20-25 | a request on 2022-12-01 with format "%Y%m%d" gives file URL "http://www/20221130", as in test/program_test.rb |
| Program.FileDuration | lib/souvlaki_rs/program.rb:32-41 | no block gives no warning; with block b and length L there is no warning exactly when 48·b ≤ L < 60·b; a warning is L as HH:MM:SS |
| Program.FileDurationExamples | test/program_test.rb:46-53 | block 30 with 1750 s gives no warning and with 1811 s gives "00:30:11" |
| Dates.PrevIsImmediate | lib/souvlaki_rs/program.rb:16 | the previous day is the latest valid date before the given one |
| Dates.StrftimeIso | lib/souvlaki_rs/audioport.rb:17 | `strftime` with "%Y-%m-%d" is `Date#to_s` and with "%Y%m%d" is the compact form |
| Dates.IsoOrder | lib/souvlaki_rs/audioport.rb:196 | for years 0..9999 the string comparison of two `%Y-%m-%d` dates agrees with calendar order |
| Dates.IsoOrderFailsAfterYear9999 | lib/souvlaki_rs/audioport.rb:196 | at year 10000 the string order disagrees with the calendar |
| Dates.IsoInjective | lib/souvlaki_rs/audioport.rb:77 | two valid dates with the same `to_s` are the same date, so the string equality used to count matches is date equality |
| Dates.ClockRoundTrip | lib/souvlaki_rs/program.rb:40 | the "%H:%M:%S" text of a length is 8 characters and reads back as the length modulo one day |
| Text.Strip | lib/souvlaki_rs/tag.rb:106 | the result is the input with a whitespace prefix and suffix cut off, has no whitespace at either end, and is empty exactly when the input is all whitespace |
| Text.ReplaceChar | lib/souvlaki_rs/audioport.rb:50 | same length, every occurrence of the character replaced and every other character kept |
| Text.Basename | lib/souvlaki_rs/audioport.rb:240 | the base name has no '/' unless it is "/", is empty only for an empty path, and a slash-free path is its own base name |
| Text.BasenameIdempotent | lib/souvlaki_rs.rb:37 | taking the base name twice changes nothing |
| Text.Join | lib/souvlaki_rs.rb:37 | the joined path starts with the directory and ends with the name |
| Text.RequestUri | lib/souvlaki_rs/basecamp.rb:119 | the request part of a URL starts with '/' and carries no fragment |
| Text.RequestUriOfAbsolute | lib/souvlaki_rs/basecamp.rb:119 | for "scheme://host" followed by a path (the host without '/', '?' or '#', the path without '#'), the request part is exactly the path |
| Fetch.TypeDesc | lib/souvlaki_rs/util.rb:24-28 | there is a type description exactly for an existing file of more than 10 bytes |
| Fetch.Validate | lib/souvlaki_rs/fetch.rb:53-74 | a file passes exactly when it exists, is over 10 bytes and its description mentions MP3, MPEG or ID3; a missing or empty file fails and is gone afterwards |
| Fetch.Download | lib/souvlaki_rs/fetch.rb:18-45 | attempts run from the given one up to 4 and continue only past timeouts; success is a delivered file that validates; a failure leaves no file |
| Fetch.FetchFile | lib/souvlaki_rs/fetch.rb:12-51 | an existing file is not downloaded and is judged by validation; otherwise 1 to 4 attempts are made, every attempt before the last timed out, and the last did not time out unless it was the fourth; success is exactly the last attempt delivering a file that validates, which is kept; failure leaves no file |
| Fetch.AllTimeoutsFail | lib/souvlaki_rs/fetch.rb:37-41 | four timeouts end the fetch after 4 attempts with no file |
| Fetch.NoFifthAttempt | lib/souvlaki_rs/fetch.rb:37 | a good file that only a fifth attempt would deliver is never fetched |
| Fetch.SuccessOnThirdAttempt | lib/souvlaki_rs/fetch.rb:19-41 | two timeouts and then a good file give success on attempt 3 |
| Fetch.NotFoundIsFinal | lib/souvlaki_rs/fetch.rb:29-32 | a not-found answer stops after one attempt with no file |
| Fetch.ScanFrom | lib/souvlaki_rs/fetch.rb:98-107 | the scan answers the first item dated on the target day, provided no item up to it is older than the target; otherwise it answers nothing |
| Fetch.FindRssEntry | lib/souvlaki_rs/fetch.rb:79-117 | an unparsable, Atom or empty feed gives nothing; without a date the first item's enclosure; with a date a result exists exactly when the scan stops on a match, and it is that item's enclosure; any result is some item's enclosure |
| Fetch.OlderItemStopsScan | lib/souvlaki_rs/fetch.rb:102 | an item older than the target before any match ends the search with nothing, even if a match follows |
| Fetch.SortedFeedFindsMatch | lib/souvlaki_rs/fetch.rb:98-107 | on a newest-first feed an entry is found exactly when some item has the target date, and it is the first such item's enclosure |
| Tag.CopyTag | lib/souvlaki_rs/tag.rb:104-110 | nil or all-whitespace text gives nil; otherwise the stripped text, which is non-empty and clean |
| Tag.CopyTagIdempotent | lib/souvlaki_rs/tag.rb:104-110 | copying a copied tag changes nothing |
| Tag.ReadTags | lib/souvlaki_rs/tag.rb:72-101 | ID3v2 title, artist and album win; ID3v1 fills a title or artist still missing; the year is kept only when non-zero; the length is the file's |
| Tag.WriteFrame | lib/souvlaki_rs/tag.rb:116-122 | album is always written; artist, title and year only when present |
| Tag.WriteTags | lib/souvlaki_rs/tag.rb:114-129 | writing succeeds exactly when both frames exist, and merges the record into each |
| Tag.WriteThenRead | lib/souvlaki_rs/tag.rb:72-129 | a complete, clean record written to a file reads back as the same record |
| Tag.DropJunkPrefix | lib/souvlaki_rs/tag.rb:28 | the leading run of whitespace, 'f', 'o', 'r', '-' and ':' is dropped whatever it is, and only that |
| Tag.StripLinesIdempotent | lib/souvlaki_rs/tag.rb:28 | the line-anchored substitution, applied twice, gives the same as once |
| Tag.StripLinesSingleLine | lib/souvlaki_rs/tag.rb:28 | on one line the substitution only drops the leading junk |
| Tag.RewritableTitleExamples | test/tag_test.rb:12-26 | a nil title and one mentioning "mp3" are rewritable, "Some title" is not |
| Tag.NewTitle | lib/souvlaki_rs/tag.rb:17-30 | a rewritable title or the rewrite flag gives "YYYYMMDD album"; a title starting with the album, ignoring case, keeps what follows the album minus leading junk; any other title is kept |
| Tag.RewrittenTitleShape | lib/souvlaki_rs/tag.rb:21-23 | a rewritten title is eight digits, a space, then the album |
| Tag.TrimmedTitleIsSuffix | lib/souvlaki_rs/tag.rb:26-28 | a trimmed title is a suffix of the original |
| Tag.TrimmedTitleDropsJunk | lib/souvlaki_rs/tag.rb:26-28 | album + junk + rest becomes exactly rest |
| Tag.RetagTags | lib/souvlaki_rs/tag.rb:17-37 | the title follows the title rule; artist, album and year are always the defaults and the publish year |
| Tag.RetagFile | lib/souvlaki_rs/tag.rb:9-42 | the file is written only when asked, and then succeeds exactly when both frames exist |
| Tag.RetagFileWritesFrames | lib/souvlaki_rs/tag.rb:33-39 | after a write both frames carry the new album, artist and year |
| Tag.DropExtensionAsWritten | lib/souvlaki_rs/tag.rb:54-57 | the slice as written removes three characters, a prefix is kept |
| Tag.DropExtensionAsWrittenKeepsDot | lib/souvlaki_rs/tag.rb:56 | "show.mp3" becomes "show." as written, "show" when corrected |
| Tag.DropExtension | lib/souvlaki_rs/tag.rb:54-57 | the corrected cut removes exactly the ".mp3" ending |
| Tag.DropExtensionRoundTrip | lib/souvlaki_rs/tag.rb:54-57 | appending ".mp3" and cutting gives the title back |
| Tag.UserTitleAsWritten | lib/souvlaki_rs/tag.rb:53-57 | a ".mp3" title loses three characters as written; any other title is kept |
| Tag.RetagUserFile | lib/souvlaki_rs/tag.rb:46-68 | corrected version of the tag change: nil when there is no title; a file-name title loses its four-character ".mp3" ending; the album is forced; the artist is replaced only when one is given; year and length are kept |
| Tag.RetagUserFileAsWritten | lib/souvlaki_rs/tag.rb:46-68 | the tag change as written: nil when there is no title; the title goes through the three-character cut; album, artist, year and length as above |
| Tag.RetagUserFileKeepsDot | lib/souvlaki_rs/tag.rb:56 | the two versions fail on the same records; on a file-name title the as-written title is the corrected one plus "."; otherwise they agree |
| Audioport.RssShowsAvailable | lib/souvlaki_rs/audioport.rb:188-210 | a show is available exactly when the channel date is not later than the show date and the item date equals it, and the answer is that date |
| Audioport.ShowsAvailableIffCalendar | lib/souvlaki_rs/audioport.rb:195-207 | in calendar terms: the channel is not newer than the publish date and the item is dated on it |
| Audioport.InitFields | lib/souvlaki_rs/audioport.rb:49-56 | the series name is ap_uri, else pub_title with spaces turned into '+'; show_date is the ISO date; use_html defaults to false; uri is the series prefix + name; origin is base + "/" + uri |
| Audioport.SeriesUriRoundTrip | lib/souvlaki_rs/audioport.rb:50-53 | two entries get the same series URI exactly when their series names agree |
| Audioport.MatchAtShape | lib/souvlaki_rs/audioport.rb:231 | a match at a line start is "attachment;", spaces, "filename=", the group, then the last ';' of that line |
| Audioport.ScanLines | lib/souvlaki_rs/audioport.rb:231 | the regex answers the group of the first line that matches, or nothing when no line does |
| Audioport.ResponseFilename | lib/souvlaki_rs/audioport.rb:229-235 | no header gives no name; a name never spans lines |
| Audioport.ResponseFilenameRoundTrip | lib/souvlaki_rs/audioport.rb:229-232 | "attachment; filename=" + name + ";" gives back name |
| Audioport.ResponseFilenameNeedsSemicolon | lib/souvlaki_rs/audioport.rb:231 | without a trailing ';' there is no match |
| Audioport.FilenameFromUrl | lib/souvlaki_rs/audioport.rb:239-241 | the fallback name has no '/' (unless it is "/"), no query and no fragment |
| Audioport.DownloadFilename | lib/souvlaki_rs/audioport.rb:223 | the header's name when there is one, else the URL's |
| Audioport.SliceAt | lib/souvlaki_rs/audioport.rb:100 | slice i exists exactly when i·k is inside the sequence and holds elements i·k up to (i+1)·k |
| Audioport.HtmlPageDates | lib/souvlaki_rs/audioport.rb:98-104 | succeeds exactly when each of the first four rows of five cells has a fourth cell that parses; then one ISO date per row read, in order |
| Audioport.HtmlPageTitles | lib/souvlaki_rs/audioport.rb:106-112 | the first anchor of each pair, at most four |
| Audioport.DropProducerLinks | lib/souvlaki_rs/audioport.rb:120 | keeps exactly the links without "producer-info", each as often as before |
| Audioport.DropProducerLinksAppend | lib/souvlaki_rs/audioport.rb:120 | filtering distributes over concatenation, so order is kept |
| Audioport.HtmlPageDownloadUrls | lib/souvlaki_rs/audioport.rb:117-122 | a prefix of the filtered links, of length count unless fewer remain |
| Audioport.CountMatches | lib/souvlaki_rs/audioport.rb:77 | the number of page dates equal to the show date, i.e. that date's multiplicity; zero exactly when it does not occur |
| Audioport.CountMatchesAppend | lib/souvlaki_rs/audioport.rb:77 | counting over two runs of rows adds the two counts |
| Audioport.FromHtml | lib/souvlaki_rs/audioport.rb:73-93 | fails exactly when a date fails to parse; num_matches is the show date's multiplicity among the page dates, at most four; titles are the first num_matches page titles; download pages are the first num_matches non-producer links; no match means no download |
| Audioport.SaveAll | lib/souvlaki_rs/audioport.rb:82-89 | raises exactly when some visit raises; otherwise at most one file per page, each one a visit's saved file, and one per page when every visit saved something |
| Audioport.SaveAllAppend | lib/souvlaki_rs/audioport.rb:82-89 | visiting two page lists in turn raises exactly when either does, and saves the first list's files followed by the second's |
| Audioport.HtmlFiles | lib/souvlaki_rs/audioport.rb:73-93 | nothing when the table or a visit raised; otherwise the files saved from the table's download pages, at most num_matches of them; nothing when the page lacks the show date |
| Audioport.RssFiles | lib/souvlaki_rs/audioport.rb:60-69 | the saved enclosure as a one-element list, nothing when the save gave nil or raised |
| Audioport.FetchFiles | lib/souvlaki_rs/audioport.rb:21-45 | nothing unless the feed answered and `rss_shows_available` accepts the show date; with `use_html` the files saved from the download pages `from_html` selected, at most num_matches and nothing when the page lacks the date or a step raised; otherwise a file exactly when the feed is available and the enclosure was saved, and then only that file |
| Audioport.FetchFilesNeedsCalendarMatch | lib/souvlaki_rs/audioport.rb:29-30 | in calendar terms, a non-empty result means the feed's first item is from the requested day and the channel is not newer than it |
| Basecamp.AddText | lib/souvlaki_rs/basecamp.rb:26-31 | the line is appended to the target message's list (the global id when none is given), created if new; other messages are untouched |
| Basecamp.AddTextsAppends | lib/souvlaki_rs/basecamp.rb:26-31 | lines added one by one end up in order after the existing ones |
| Basecamp.AddTextCommutes | lib/souvlaki_rs/basecamp.rb:26-31 | lines for different messages can be filed in either order |
| Basecamp.ItemsAppend | lib/souvlaki_rs/basecamp.rb:102 | the items of two runs of lines are the two runs of items |
| Basecamp.ItemsLength | lib/souvlaki_rs/basecamp.rb:102 | each line adds its length plus nine characters |
| Basecamp.MakeContent | lib/souvlaki_rs/basecamp.rb:99-104 | the heading with the version, the list items in order, then a literal "<ul>" |
| Basecamp.ContentAfterAdd | lib/souvlaki_rs/basecamp.rb:26-31 | filing a line extends the message's content by exactly its list item |
| Basecamp.MakePayload | lib/souvlaki_rs/basecamp.rb:91-95 | content is the made content; subscribers are present exactly when the id list is non-empty |
| Basecamp.Headers | lib/souvlaki_rs/basecamp.rb:108-113 | exactly a User-Agent "SouvlakiRS Notifier (email)" and Content-Type application/json |
| Basecamp.CommentEndpointExtendsMessage | lib/souvlaki_rs/basecamp.rb:117-125 | the comments endpoint is the message endpoint with "/comments" before ".json" |
| Basecamp.RequestMessageUri | lib/souvlaki_rs/basecamp.rb:117-120 | the request part of the message endpoint starts with '/' and has no fragment |
| Basecamp.MessageUriPath | lib/souvlaki_rs/basecamp.rb:117-120 | under a base URI "scheme://host" and ids without '#', the message is requested at "/" + user id + "/api/v1/projects/" + project id + "/messages/" + message id + ".json" |
| Basecamp.PostCommentUri | lib/souvlaki_rs/basecamp.rb:122-125 | the request part of the comments endpoint starts with '/' and has no fragment |
| Basecamp.CommentUriPath | lib/souvlaki_rs/basecamp.rb:122-125 | under the same conditions, comments are posted to the message path followed by "/comments.json" |
| Basecamp.EndpointExamples | test/basecamp_test.rb:26-32 | project 123, message 1 gives "//api/v1/projects/123/messages/1.json" and ".../1/comments.json" |
| Config.GetEntry | lib/souvlaki_rs/config.rb:36-40 | succeeds exactly for a present key, with its value; otherwise "Unknown config entry" |
| Config.GetHostInfo | lib/souvlaki_rs/config.rb:16-21 | succeeds exactly for a present, non-nil entry; a nil entry gives "No configuration exists for" the host |
| Config.GetProgramInfo | lib/souvlaki_rs/config.rb:23-32 | no code gives the programs entry; an unknown code gives nil; a known code gives its entry with :code set and nothing else changed; a nil entry raises, and a host-settings entry raises only for a known code |
| Config.ProgramInfoKeepsValidity | lib/souvlaki_rs/config.rb:29-31 | setting :code does not change validity |
| Config.ProgramInfoIdempotent | lib/souvlaki_rs/config.rb:29-31 | storing the looked-up entry and looking again gives the same entry |
| Manager.Uniq | lib/souvlaki_rs.rb:196 | the distinct codes, each once |
| Manager.UniqKeepsOrder | lib/souvlaki_rs.rb:196 | they keep their first-occurrence order |
| Manager.KeepKnownKeepsOrder | lib/souvlaki_rs.rb:196 | keeping only known codes keeps order and distinctness |
| Manager.ValidCodes | lib/souvlaki_rs.rb:194-202 | nil exactly when no code is known; otherwise a non-empty list, without duplicates, of exactly the known codes |
| Manager.ValidCodesInOrder | lib/souvlaki_rs.rb:194-202 | the valid codes come in first-occurrence order |
| Manager.CodesToConfigs | lib/souvlaki_rs.rb:186-190 | every config returned is valid, dated, and the prepared entry of one of the codes |
| Manager.ValidCodeIsKept | lib/souvlaki_rs.rb:186-190 | every code whose entry is valid yields its prepared config |
| Manager.ConfigsForCodes | lib/souvlaki_rs.rb:177-179 | fails exactly when no code is known (nil from valid_codes) |
| Manager.RemoteFileDownload | lib/souvlaki_rs.rb:30-46 | [destination] exactly when the fetch succeeds, else [] |
| Manager.DestinationKeepsName | lib/souvlaki_rs.rb:37 | the destination is in the show's directory and ends with the URL's file name |
| Manager.AudioportDownload | lib/souvlaki_rs.rb:52-66 | the spider's files, or none when it returned nil |
| Manager.RssDownload | lib/souvlaki_rs.rb:73-85 | nothing when no entry is found; with an entry, [destination of its URL] exactly when fetching that URL succeeds, else [] |
| Manager.RssIsFileOfEntry | lib/souvlaki_rs.rb:83-84 | an :rss program with an entry is fetched exactly as a :file program whose URL is the entry's enclosure |
| Manager.FetchProgramFiles | lib/souvlaki_rs.rb:89-100 | :file gives [destination] exactly when the fetch succeeds, else []; :rss gives [] without an entry and otherwise [destination of the entry] exactly when its fetch succeeds; :audioport gives the spider's files; any other source gives [] |
| Manager.PreparedIsFetchable | lib/souvlaki_rs.rb:89-100 | every prepared valid config has what its handler needs |
| Manager.LengthWarning | lib/souvlaki_rs.rb:111-116 | warn exactly when the length is at least the block or below block − block/5 minutes (integer division) |
| Manager.LengthWarningAgreesWithFileDuration | lib/souvlaki_rs.rb:113 | for blocks divisible by 5 this is the `file_duration` rule |
| Manager.LengthWarningDiffersFromFileDuration | lib/souvlaki_rs.rb:113 | block 31 with 1490 s warns here but not in `file_duration` |
| Manager.NotificationLine | lib/souvlaki_rs.rb:108-118 | the title, plus " (Length warning: HH:MM:SS)" exactly when the warning fires |
| Manager.UpdateNotificationsFiles | lib/souvlaki_rs.rb:104-126 | nothing is filed unless imported; otherwise one line per file |
| Manager.UpdateNotificationsAppends | lib/souvlaki_rs.rb:104-126 | the lines land in order after the message's existing ones, and no other message changes |
| Manager.RetitleFlag | lib/souvlaki_rs.rb:142 | true unless :retitle is exactly false |
| Manager.RetitleFlagAfterPrepare | lib/souvlaki_rs.rb:142 | `prepare` stores that same flag |
| Manager.LastImportDecides | lib/souvlaki_rs.rb:157-165 | the last file's import (or true when not importing) is the flag left behind |
| Manager.ProcessProgram | lib/souvlaki_rs.rb:130-175 | false exactly when nothing was fetched; imported is the last file's result; with a notifier, one line per file is filed only when imported, and nothing else changes |

## Left out

- Network and scraping I/O: the Mechanize login, agent setup, page and RSS fetches, `save_to_disk` and the XPath queries (lib/souvlaki_rs/audioport.rb:132-169, 214-253). The model starts from the extracted string sequences; the spider's result is a parameter of `Manager.World`.
- OpenURI, FileUtils and `sleep` in `fetch_file`: a file is an abstract state (absent, or size and type description), and each download attempt's outcome is a parameter.
- The rescue bodies of `fetch_file` use an undefined `program` and `e.io` on a timeout, either of which would raise. They are modelled by their evident intent: a not-found stops with failure, a timeout retries.
- TagLib reads and writes and FileMagic are foreign libraries. Tags are abstract records and the type description is an uninterpreted string.
- `Time.parse` is a parameter of `Audioport.HtmlPageDates`. The channel and item dates of the RSS check are given as dates. `rss.search('//item/pubDate').text` (lib/souvlaki_rs/audioport.rb:203) joins the pubDate texts of all items, and the model takes what `Time.parse` makes of that text to be the first item's day (a `Failure` when the login or feed fetch raised). The download-page visits of `from_html` and the enclosure save of `from_rss` are the `download` and `rssFile` parameters of `Audioport.FetchFiles`.
- The Airtime shell import is a process call; it is the `importer` parameter of `Manager.ProcessProgram`.
- The Basecamp HTTP exchange, the JSON subscriber parsing and `post` are I/O. `URI#request_uri` is modelled only for the shapes the endpoints produce: the part after the authority, up to a fragment.
- EDN file loading, logging, and the module-level constants at lib/souvlaki_rs.rb:18-19 are left out.
- Floats in `file_duration` and `update_notifications`: each comparison is restated as the exact integer inequality.
- `Tag.normalize_tags`, `Tag.rewritable_title?`, `Tag::GENRES`, `Util.get_show_path`/`check_destination` and the 3-argument `Audioport.fetch_files` are not defined in the modelled files:
  - normalisation is the `tags` parameter of `Manager.ProcessProgram`;
  - `rewritable_title?` is `Tag.RewritableTitle`, following the test cases;
  - GENRES is a set parameter;
  - the show directory is a function parameter.
- Writing tags inside `process_program` and `retag_user_file` is not part of the flow model; tag writing is modelled on its own by `Tag.WriteTags`.
- `Manager.NotificationLine`: `msg <<` appends the warning to the title string held in the program's tags, so with several files the warning could pile up. The model files the title plus one warning per line.
- `Manager.RssDownload`: the `program[:file_url]` update does not outlive the call.
- Tag.RetagUserFile: states the corrected cut of four characters, not the three-character slice at lib/souvlaki_rs/tag.rb:56; the slice as written is `Tag.RetagUserFileAsWritten`, and `Tag.RetagUserFileKeepsDot` states the difference.
- Fetch.FindRssEntry: every feed item has a publication date and an enclosure URL. An RSS item without an enclosure, or without a pubDate when a date is given, makes `item.enclosure.url` or `item.pubDate.to_date` raise NoMethodError (lib/souvlaki_rs/fetch.rb:94, 98, 106); the model has no such items. `Time#to_date` takes the day in the item's own offset; the model's item date is that day.
- Text.Join: when the directory ends in several '/' and the name starts with '/', the model keeps the directory's slashes and drops the name's first one ("a//" and "/b" give "a//b"), where `File.join` drops all of the directory's trailing slashes ("a/b").
- Text.UrlPath: the authority ends at the first '/' only, so a '#' or '?' inside the authority is not recognised as one. The feed and download URLs the model handles have ordinary host names.
- Config.GetProgramInfo: `info[:code] = code` sets the code on the stored entry itself (lib/souvlaki_rs/config.rb:29-31), so a later `get_program_info(nil)` sees it. The model's configuration is an immutable value and does not carry that change over.
- `Manager.ProcessProgram`: the line uses the last file's tags, because `program[:tags]` is overwritten in the loop; the flag is the last file's import.
- `Manager.CodesToConfigs`: states provenance and validity per element, and `Manager.ValidCodeIsKept` states the converse. Order preservation is left implicit in the definition.
- `Audioport.ResponseFilename`: the header is one string with `\n` as the only line separator for `^`.
- `Dates`: a date is a proleptic Gregorian triple; `to_s` pads the year to four digits with a sign for negative years.
- `Text.Downcase`: ASCII letters only, with no Unicode case folding.
- Where the behaviour described for the program differs from the code, the model follows the code:
  - `fetch_file` makes at most 4 attempts, not 5;
  - the second title rule tests `start_with?` and trims the suffix;
  - a failed Audioport login does not raise.

## Findings

| source | as written | input that shows it | evidently intended | confidence | as-written member | corrected member |
|---|---|---|---|---|---|---|
| lib/souvlaki_rs/tag.rb:56 | `tags[:title][0..-4]` keeps all but the last three characters | title "show.mp3" becomes "show." | drop the four-character ".mp3" ending, giving "show" | high; not executed | Tag.DropExtensionAsWritten, Tag.DropExtensionAsWrittenKeepsDot, Tag.RetagUserFileAsWritten, Tag.RetagUserFileKeepsDot | Tag.DropExtension, Tag.DropExtensionRoundTrip, Tag.RetagUserFile |
