/** The run manager (lib/souvlaki_rs.rb): choosing the codes to run, turning
    them into prepared program entries, fetching a program's files according
    to its source, and recording the notification lines after import. The
    file system, the network, the audio import and the tag normalisation
    are parameters. */
module Manager {
  import opened Wrappers
  import opened Text
  import opened Dates
  import opened Program
  import opened Fetch
  import opened Basecamp

  // ---------------------------------------------------------------------
  // Choosing codes (valid_codes)

  /** `Array#uniq` on the codes not yet `seen`: the first occurrence of each. */
  function Uniq(s: seq<string>, seen: set<string>): (r: seq<string>)
    ensures forall x :: x in r <==> x in s && x !in seen
    ensures NoDuplicates(r)
    decreases |s|
  {
    if |s| == 0 then []
    else if s[0] in seen then Uniq(s[1..], seen)
    else [s[0]] + Uniq(s[1..], seen + {s[0]})
  }

  predicate NoDuplicates(s: seq<string>) {
    forall i, j :: 0 <= i < j < |s| ==> s[i] != s[j]
  }

  /** Where `x` first occurs in `s`. */
  function FirstIndex(s: seq<string>, x: string): (i: nat)
    requires x in s
    ensures i < |s| && s[i] == x
    ensures forall j :: 0 <= j < i ==> s[j] != x
  {
    if s[0] == x then 0 else 1 + FirstIndex(s[1..], x)
  }

  /** The elements of `r` appear in the order of their first occurrence in `s`. */
  predicate FirstOccurrenceOrder(r: seq<string>, s: seq<string>)
    requires forall x :: x in r ==> x in s
  {
    forall i, j :: 0 <= i < j < |r| ==> FirstIndex(s, r[i]) < FirstIndex(s, r[j])
  }

  /** Putting in front an element that occurs before all the others keeps
      the order. */
  lemma ConsKeepsOrder(h: string, tail: seq<string>, s: seq<string>)
    requires h in s && forall x :: x in tail ==> x in s
    requires FirstOccurrenceOrder(tail, s)
    requires forall x :: x in tail ==> FirstIndex(s, h) < FirstIndex(s, x)
    ensures FirstOccurrenceOrder([h] + tail, s)
  {
    var r := [h] + tail;
    forall x | x in r
      ensures x in s
    {
      if x != h {
        assert x in tail;
      }
    }
    forall i, j | 0 <= i < j < |r|
      ensures FirstIndex(s, r[i]) < FirstIndex(s, r[j])
    {
      ConsPair(h, tail, s, i, j);
    }
  }

  lemma ConsPair(h: string, tail: seq<string>, s: seq<string>, i: nat, j: nat)
    requires h in s && forall x :: x in tail ==> x in s
    requires FirstOccurrenceOrder(tail, s)
    requires forall x :: x in tail ==> FirstIndex(s, h) < FirstIndex(s, x)
    requires i < j < 1 + |tail|
    ensures ([h] + tail)[i] in s && ([h] + tail)[j] in s
    ensures FirstIndex(s, ([h] + tail)[i]) < FirstIndex(s, ([h] + tail)[j])
  {
    var b := tail[j - 1];
    assert ([h] + tail)[j] == b && b in tail;
    if i == 0 {
      assert ([h] + tail)[i] == h;
    } else {
      assert ([h] + tail)[i] == tail[i - 1];
    }
  }

  /** Order after the head of `s` is order in `s` for elements other than
      the head. */
  lemma OrderInTail(r: seq<string>, s: seq<string>)
    requires |s| > 0 && forall x :: x in r ==> x in s[1..] && x != s[0]
    requires FirstOccurrenceOrder(r, s[1..])
    ensures FirstOccurrenceOrder(r, s)
  {
    forall x | x in r
      ensures FirstIndex(s, x) == 1 + FirstIndex(s[1..], x)
    {
    }
  }

  /** `uniq` keeps the codes in the order they were first given. */
  lemma {:induction false} UniqKeepsOrder(s: seq<string>, seen: set<string>)
    ensures FirstOccurrenceOrder(Uniq(s, seen), s)
    decreases |s|
  {
    if |s| > 0 {
      var seen' := if s[0] in seen then seen else seen + {s[0]};
      var tail := Uniq(s[1..], seen');
      UniqKeepsOrder(s[1..], seen');
      OrderInTail(tail, s);
      if s[0] !in seen {
        ConsKeepsOrder(s[0], tail, s);
      }
    }
  }

  /** The codes the configuration knows, as `group_by` collects them. */
  function KeepKnown(s: seq<string>, known: set<string>): (r: seq<string>)
    ensures forall x :: x in r <==> x in s && x in known
    ensures |r| <= |s|
    decreases |s|
  {
    if |s| == 0 then []
    else if s[0] in known then [s[0]] + KeepKnown(s[1..], known)
    else KeepKnown(s[1..], known)
  }

  /** Keeping some elements keeps their order and their distinctness. */
  lemma {:induction false} KeepKnownKeepsOrder(u: seq<string>, s: seq<string>, known: set<string>)
    requires forall x :: x in u ==> x in s
    requires NoDuplicates(u) && FirstOccurrenceOrder(u, s)
    ensures NoDuplicates(KeepKnown(u, known)) && FirstOccurrenceOrder(KeepKnown(u, known), s)
    decreases |u|
  {
    if |u| > 0 {
      var tail := KeepKnown(u[1..], known);
      assert FirstOccurrenceOrder(u[1..], s) by {
        forall i, j | 0 <= i < j < |u[1..]|
          ensures FirstIndex(s, u[1..][i]) < FirstIndex(s, u[1..][j])
        {
          assert u[1..][i] == u[i + 1] && u[1..][j] == u[j + 1];
        }
      }
      KeepKnownKeepsOrder(u[1..], s, known);
      if u[0] in known {
        forall x | x in tail
          ensures x != u[0] && FirstIndex(s, u[0]) < FirstIndex(s, x)
        {
          var k :| 0 <= k < |u[1..]| && u[1..][k] == x;
          assert u[k + 1] == x;
        }
        ConsKeepsOrder(u[0], tail, s);
        ConsNoDuplicates(u[0], tail);
      }
    }
  }

  lemma ConsNoDuplicates(h: string, tail: seq<string>)
    requires NoDuplicates(tail) && h !in tail
    ensures NoDuplicates([h] + tail)
  {
    var r := [h] + tail;
    forall i, j | 0 <= i < j < |r|
      ensures r[i] != r[j]
    {
      assert r[j] == tail[j - 1];
      if i > 0 {
        assert r[i] == tail[i - 1];
      }
    }
  }

  /** `Manager#valid_codes`: the distinct known codes in the order first
      given; nil when none is known. */
  function ValidCodes(codes: seq<string>, known: set<string>): (r: Option<seq<string>>)
    ensures r.None? <==> forall x :: x in codes ==> x !in known
    ensures r.Some? ==> |r.value| > 0 && NoDuplicates(r.value)
    ensures r.Some? ==> forall x :: x in r.value <==> x in codes && x in known
  {
    var ok := KeepKnown(Uniq(codes, {}), known);
    UniqKeepsOrder(codes, {});
    KeepKnownKeepsOrder(Uniq(codes, {}), codes, known);
    if |ok| == 0 then None else assert ok[0] in ok; Some(ok)
  }

  /** The chosen codes keep the order in which they were first given. */
  lemma ValidCodesInOrder(codes: seq<string>, known: set<string>)
    requires ValidCodes(codes, known).Some?
    ensures FirstOccurrenceOrder(ValidCodes(codes, known).value, codes)
  {
    UniqKeepsOrder(codes, {});
    KeepKnownKeepsOrder(Uniq(codes, {}), codes, known);
  }

  // ---------------------------------------------------------------------
  // Prepared entries (codes_to_configs)

  /** The entry `get_program_info` gives for a known code. */
  function Lookup(table: map<string, ProgramConfig>, code: string): ProgramConfig
    requires code in table
  {
    table[code].(code := Some(code))
  }

  /** `Manager#codes_to_configs`: look each code up, keep the valid entries,
      prepare them for the run. An unknown code would make `valid?` fail on
      nil, so every code must be in the table. */
  function CodesToConfigs(table: map<string, ProgramConfig>, codes: seq<string>,
                          opts: RunOptions, genres: set<string>): (r: seq<ProgramConfig>)
    requires forall c :: c in codes ==> c in table
    requires ValidDate(opts.reqDate)
    ensures |r| <= |codes|
    ensures forall i :: 0 <= i < |r| ==> Valid(r[i], genres)
    ensures forall i :: 0 <= i < |r| ==> r[i].pubDate.Some? && ValidDate(r[i].pubDate.value)
    ensures forall i :: 0 <= i < |r| ==> r[i].code.Some? && r[i].code.value in codes
    ensures forall i :: 0 <= i < |r| ==>
      && Valid(Lookup(table, r[i].code.value), genres)
      && r[i] == Prepare(Lookup(table, r[i].code.value), opts)
    decreases |codes|
  {
    if |codes| == 0 then []
    else
      var p := Lookup(table, codes[0]);
      var rest := CodesToConfigs(table, codes[1..], opts, genres);
      if Valid(p, genres) then
        PreparePreservesValidity(p, opts, genres);
        assert Prepare(p, opts).code == Some(codes[0]);
        [Prepare(p, opts)] + rest
      else
        rest
  }

  /** Every code with a valid entry yields a prepared entry. */
  lemma ValidCodeIsKept(table: map<string, ProgramConfig>, codes: seq<string>,
                        opts: RunOptions, genres: set<string>, c: string)
    requires forall c :: c in codes ==> c in table
    requires ValidDate(opts.reqDate)
    requires c in codes && Valid(Lookup(table, c), genres)
    ensures exists i :: (0 <= i < |CodesToConfigs(table, codes, opts, genres)|
      && CodesToConfigs(table, codes, opts, genres)[i].code == Some(c))
  {
    var i := KeptAt(table, codes, opts, genres, c);
  }

  /** Where the prepared entry of a valid code sits. */
  lemma {:induction false} KeptAt(table: map<string, ProgramConfig>, codes: seq<string>,
                                  opts: RunOptions, genres: set<string>, c: string) returns (i: nat)
    requires forall c :: c in codes ==> c in table
    requires ValidDate(opts.reqDate)
    requires c in codes && Valid(Lookup(table, c), genres)
    ensures i < |CodesToConfigs(table, codes, opts, genres)|
    ensures CodesToConfigs(table, codes, opts, genres)[i].code == Some(c)
    decreases |codes|
  {
    var p := Lookup(table, codes[0]);
    var rest := CodesToConfigs(table, codes[1..], opts, genres);
    if codes[0] == c {
      assert CodesToConfigs(table, codes, opts, genres) == [Prepare(p, opts)] + rest;
      i := 0;
    } else {
      assert c in codes[1..];
      var k := KeptAt(table, codes[1..], opts, genres, c);
      if Valid(p, genres) {
        assert CodesToConfigs(table, codes, opts, genres) == [Prepare(p, opts)] + rest;
        i := k + 1;
      } else {
        assert CodesToConfigs(table, codes, opts, genres) == rest;
        i := k;
      }
    }
  }

  /** `process_codes` feeds `valid_codes` into `codes_to_configs`; when no
      code is known the nil result makes the mapping raise. */
  function ConfigsForCodes(table: map<string, ProgramConfig>, codes: seq<string>,
                           opts: RunOptions, genres: set<string>): (r: Result<seq<ProgramConfig>>)
    requires ValidDate(opts.reqDate)
    ensures r.Failure? <==> forall x :: x in codes ==> x !in table
    ensures r.Success? ==> forall i :: 0 <= i < |r.value| ==>
      Valid(r.value[i], genres) && r.value[i].code.Some? && r.value[i].code.value in codes
  {
    match ValidCodes(codes, table.Keys)
    case None => Failure("undefined method `map' for nil")
    case Some(ok) => Success(CodesToConfigs(table, ok, opts, genres))
  }

  // ---------------------------------------------------------------------
  // Fetching a program's files

  /** What a run sees of the world: the show directory `get_show_path` gives
      for a title, what is at each path, what each retrieval of a URL yields,
      the feed read from each feed URL, and what the Audioport spider returns
      for a program (nil or a list of paths). */
  datatype World = World(
    showDir: string -> string,
    disk: string -> FileState,
    net: string -> (nat -> Attempt),
    feeds: string -> Feed,
    audioport: ProgramConfig -> Option<seq<string>>)

  /** Where `remote_file_download` puts a file: the URL's base name in the
      show's directory. */
  function Destination(w: World, p: ProgramConfig, url: string): string {
    Join(w.showDir(Interp(p.pubTitle)), Basename(url))
  }

  /** `Manager#remote_file_download`: the destination path when `fetch_file`
      succeeds, nothing otherwise. */
  function RemoteFileDownload(w: World, p: ProgramConfig): (r: seq<string>)
    requires p.fileUrl.Some?
    ensures r == [] || r == [Destination(w, p, p.fileUrl.value)]
    ensures |r| == 1 <==>
      FetchFile(w.disk(Destination(w, p, p.fileUrl.value)), w.net(p.fileUrl.value)).ok
  {
    var url := p.fileUrl.value;
    var dest := Destination(w, p, url);
    if FetchFile(w.disk(dest), w.net(url)).ok then [dest] else []
  }

  /** The downloaded file lands in the show's directory under the URL's own
      file name. */
  lemma DestinationKeepsName(w: World, p: ProgramConfig, url: string)
    requires '/' !in Basename(url)
    ensures StartsWith(Destination(w, p, url), w.showDir(Interp(p.pubTitle)))
    ensures EndsWith(Destination(w, p, url), Basename(url))
  {
    var name := Basename(url);
    if |name| > 0 {
      assert name[0] in name;
    }
    JoinKeepsName(w.showDir(Interp(p.pubTitle)), name);
  }

  /** `Manager#audioport_download`: the spider's files, or none when it
      returned nil or an empty list. */
  function AudioportDownload(w: World, p: ProgramConfig): (r: seq<string>)
    ensures w.audioport(p).None? ==> r == []
    ensures w.audioport(p).Some? ==> r == w.audioport(p).value
  {
    match w.audioport(p)
    case None => []
    case Some(files) => if |files| == 0 then [] else files
  }

  /** `Manager#rss_download`: the feed entry for the program's date, fetched
      like a `:file` program's URL. */
  function RssDownload(w: World, p: ProgramConfig): (r: seq<string>)
    requires p.feed.Some?
    ensures FindRssEntry(w.feeds(p.feed.value), p.pubDate).None? ==> r == []
    ensures r != [] ==>
      var url := FindRssEntry(w.feeds(p.feed.value), p.pubDate);
      url.Some? && r == [Destination(w, p, url.value)]
      && FetchFile(w.disk(r[0]), w.net(url.value)).ok
    ensures var url := FindRssEntry(w.feeds(p.feed.value), p.pubDate);
      url.Some? ==>
        && (r == [] || r == [Destination(w, p, url.value)])
        && (r == [Destination(w, p, url.value)] <==>
              FetchFile(w.disk(Destination(w, p, url.value)), w.net(url.value)).ok)
  {
    match FindRssEntry(w.feeds(p.feed.value), p.pubDate)
    case None => []
    case Some(url) => RemoteFileDownload(w, p.(fileUrl := Some(url)))
  }

  /** An `:rss` program whose feed has an entry for the day is fetched
      exactly as a `:file` program whose URL is that entry's enclosure. */
  lemma RssIsFileOfEntry(w: World, p: ProgramConfig)
    requires p.feed.Some? && FindRssEntry(w.feeds(p.feed.value), p.pubDate).Some?
    ensures var url := FindRssEntry(w.feeds(p.feed.value), p.pubDate).value;
      RssDownload(w, p) == FetchProgramFiles(w, p.(source := Some(FileSource), fileUrl := Some(url)))
  {
  }

  /** What `fetch_files` needs of an entry to dispatch without raising. */
  predicate Fetchable(p: ProgramConfig) {
    && (p.source == Some(FileSource) ==> p.fileUrl.Some?)
    && (p.source == Some(RssSource) ==> p.feed.Some?)
  }

  /** `Manager#fetch_files`: dispatch on the source; an unknown source
      fetches nothing. */
  function FetchProgramFiles(w: World, p: ProgramConfig): (r: seq<string>)
    requires Fetchable(p)
    ensures p.source.None? || p.source.value !in SourceTypes ==> r == []
    ensures p.source == Some(FileSource) ==>
      var dest := Destination(w, p, p.fileUrl.value);
      && (r == [] || r == [dest])
      && (r == [dest] <==> FetchFile(w.disk(dest), w.net(p.fileUrl.value)).ok)
    ensures p.source == Some(RssSource) ==>
      var url := FindRssEntry(w.feeds(p.feed.value), p.pubDate);
      && (url.None? ==> r == [])
      && (url.Some? ==>
            && (r == [] || r == [Destination(w, p, url.value)])
            && (r == [Destination(w, p, url.value)] <==>
                  FetchFile(w.disk(Destination(w, p, url.value)), w.net(url.value)).ok))
    ensures p.source == Some(AudioportSource) ==> r == AudioportDownload(w, p)
  {
    match p.source
    case Some(FileSource) => RemoteFileDownload(w, p)
    case Some(AudioportSource) => AudioportDownload(w, p)
    case Some(RssSource) => RssDownload(w, p)
    case _ => []
  }

  /** Every prepared valid entry can be dispatched: `valid?` demands the base
      URL or feed and `prepare` turns the base URL into the file URL. */
  lemma PreparedIsFetchable(p: ProgramConfig, opts: RunOptions, genres: set<string>)
    requires ValidDate(opts.reqDate) && Valid(p, genres)
    ensures Fetchable(Prepare(p, opts))
  {
  }

  // ---------------------------------------------------------------------
  // Notifications (update_notifications)

  /** The length check of `update_notifications`: the file is flagged when it
      is at least the block or shorter than the block less a fifth of it,
      where the fifth is an integer division (unlike `Program.file_duration`,
      which divides by 5.0). */
  function LengthWarning(block: int, length: nat): (r: bool)
    ensures r <==> length >= 60 * block || length < 60 * (block - block / 5)
  {
    var minLen := block - block / 5;
    var fileDur := length as real / 60.0;
    fileDur >= block as real || fileDur < minLen as real
  }

  /** For blocks divisible by five both checks flag the same lengths. */
  lemma LengthWarningAgreesWithFileDuration(block: int, length: nat)
    requires block % 5 == 0
    ensures LengthWarning(block, length) <==> FileDuration(Some(block), length).Some?
  {
    var q := block / 5;
    assert block == 5 * q;
    assert 60 * (block - q) == 48 * block;
  }

  /** Otherwise they differ: a 31-minute block and a 24:50 file are flagged
      here but accepted by `file_duration`. */
  lemma LengthWarningDiffersFromFileDuration()
    ensures LengthWarning(31, 1490) && FileDuration(Some(31), 1490).None?
  {
  }

  /** The line posted for an imported file: its title, with the warning and
      the file's length as HH:MM:SS when the program has a block and the
      length is off. */
  function NotificationLine(title: string, block: Option<int>, length: nat): (r: string)
    ensures StartsWith(r, title)
    ensures block.None? || !LengthWarning(block.value, length) ==> r == title
    ensures block.Some? && LengthWarning(block.value, length) ==>
      r[|title|..] == " (Length warning: " + ClockText(length) + ")"
  {
    var r := if block.Some? && LengthWarning(block.value, length)
      then title + " (Length warning: " + ClockText(length) + ")" else title;
    assert r[..|title|] == title;
    r
  }

  /** `Manager#update_notifications`: one line per file, all filed under the
      program's message id, but only when the program's last import
      succeeded. */
  function UpdateNotifications(n: Notifier, files: seq<string>, imported: bool, line: string,
                               msgId: Option<string>): (r: Notifier)
    decreases |files|
  {
    if |files| == 0 then n
    else UpdateNotifications(if imported then AddText(n, line, msgId) else n, files[1..], imported, line, msgId)
  }

  /** The loop files the line once per file, after the lines already filed,
      and touches nothing else; a failed import files nothing. */
  lemma {:induction false} UpdateNotificationsFiles(n: Notifier, files: seq<string>, imported: bool,
                                                    line: string, msgId: Option<string>)
    ensures !imported ==> UpdateNotifications(n, files, imported, line, msgId) == n
    ensures imported ==>
      UpdateNotifications(n, files, imported, line, msgId) == AddTexts(n, seq(|files|, _ => line), msgId)
    decreases |files|
  {
    if |files| > 0 {
      var n' := if imported then AddText(n, line, msgId) else n;
      UpdateNotificationsFiles(n', files[1..], imported, line, msgId);
      if imported {
        assert seq(|files|, _ => line)[0] == line;
        assert seq(|files|, _ => line)[1..] == seq(|files[1..]|, _ => line);
      }
    }
  }

  /** In terms of the message's lines: one more copy of the line per file. */
  lemma UpdateNotificationsAppends(n: Notifier, files: seq<string>, line: string, msgId: Option<string>)
    ensures var r := UpdateNotifications(n, files, true, line, msgId);
      && r.globalMsgId == n.globalMsgId
      && Lines(r, TargetId(n, msgId)) == Lines(n, TargetId(n, msgId)) + seq(|files|, _ => line)
      && forall id :: id != TargetId(n, msgId) ==> Lines(r, id) == Lines(n, id)
  {
    UpdateNotificationsFiles(n, files, true, line, msgId);
    AddTextsAppends(n, seq(|files|, _ => line), msgId);
  }

  // ---------------------------------------------------------------------
  // process_program

  /** The `rewrite_title` flag the per-file loop passes on: true unless
      `:retitle` is exactly false. */
  function RetitleFlag(p: ProgramConfig): (r: bool)
    ensures r <==> p.retitle.None? || p.retitle.value
  {
    var r := p.retitle.None? || p.retitle != Some(false);
    assert p.retitle.Some? && !p.retitle.value ==> p.retitle == Some(false);
    r
  }

  /** After `prepare` the flag is stored in the entry, and reading it again
      gives the same answer. */
  lemma RetitleFlagAfterPrepare(p: ProgramConfig, opts: RunOptions)
    requires ValidDate(opts.reqDate)
    requires p.source == Some(FileSource) && p.format.Some? ==> p.baseUrl.Some?
    ensures Prepare(p, opts).retitle == Some(RetitleFlag(p))
    ensures RetitleFlag(Prepare(p, opts)) == RetitleFlag(p)
  {
  }

  /** What the notification step reads of the normalised tags. */
  datatype NormalizedTags = NormalizedTags(title: string, length: nat)

  /** The per-file loop's `:imported` value: each file overwrites it, with
      the import's answer or, when not importing, true. */
  function ImportLoop(files: seq<string>, importFiles: bool, importer: string -> bool,
                      state: Option<bool>): (r: Option<bool>)
    decreases |files|
  {
    if |files| == 0 then state
    else ImportLoop(files[1..], importFiles, importer, Some(if importFiles then importer(files[0]) else true))
  }

  /** Only the last file's import decides the flag the loop leaves behind. */
  lemma {:induction false} LastImportDecides(files: seq<string>, importFiles: bool, importer: string -> bool,
                                             state: Option<bool>)
    ensures |files| == 0 ==> ImportLoop(files, importFiles, importer, state) == state
    ensures |files| > 0 ==>
      ImportLoop(files, importFiles, importer, state) == Some(if importFiles then importer(files[|files| - 1]) else true)
    decreases |files|
  {
    if |files| > 0 {
      LastImportDecides(files[1..], importFiles, importer, Some(if importFiles then importer(files[0]) else true));
      if |files| > 1 {
        assert files[1..][|files[1..]| - 1] == files[|files| - 1];
      }
    }
  }

  /** The outcome of `process_program`: its answer, the `:imported` flag it
      leaves, and the notifier when posting is on. */
  datatype ProgramRun = ProgramRun(ok: bool, imported: Option<bool>, notifier: Option<Notifier>)

  /** `Manager#process_program`: false when nothing was fetched; otherwise
      every file is imported (or, when not importing, deleted and counted as
      imported), and with posting on a line per file is filed under the
      program's message id. `tags(file, retitle)` stands for the tags the
      normalisation gives a file. The lines use the last file's tags and
      are filed only when the last import succeeded. */
  function ProcessProgram(w: World, p: ProgramConfig, opts: RunOptions, importer: string -> bool,
                          tags: (string, bool) -> NormalizedTags, bc: Option<Notifier>): (r: ProgramRun)
    requires Fetchable(p)
    ensures var files := FetchProgramFiles(w, p);
      && (r.ok <==> |files| > 0)
      && (!r.ok ==> r.imported.None? && r.notifier == bc)
      && (r.ok ==> r.imported == Some(if opts.importFiles then importer(files[|files| - 1]) else true))
      && (r.notifier.Some? <==> bc.Some?)
      && (r.ok && bc.Some? && !r.imported.value ==> r.notifier == bc)
    ensures var files := FetchProgramFiles(w, p);
      r.ok && bc.Some? && r.imported.value ==>
        var t := tags(files[|files| - 1], RetitleFlag(p));
        var line := NotificationLine(t.title, p.block, t.length);
        && Lines(r.notifier.value, TargetId(bc.value, p.msgId))
             == Lines(bc.value, TargetId(bc.value, p.msgId)) + seq(|files|, _ => line)
        && forall id :: id != TargetId(bc.value, p.msgId) ==> Lines(r.notifier.value, id) == Lines(bc.value, id)
  {
    var files := FetchProgramFiles(w, p);
    if |files| == 0 then ProgramRun(false, None, bc)
    else
      var imported := ImportLoop(files, opts.importFiles, importer, None);
      LastImportDecides(files, opts.importFiles, importer, None);
      var t := tags(files[|files| - 1], RetitleFlag(p));
      var line := NotificationLine(t.title, p.block, t.length);
      match bc
      case None => ProgramRun(true, imported, None)
      case Some(n) =>
        UpdateNotificationsFiles(n, files, imported.value, line, p.msgId);
        UpdateNotificationsAppends(n, files, line, p.msgId);
        ProgramRun(true, imported, Some(UpdateNotifications(n, files, imported.value, line, p.msgId)))
  }
}
