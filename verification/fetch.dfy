/** Downloading a file with retries and validating it looks like MPEG audio,
    and picking an episode out of an RSS 2.0 feed by date
    (lib/souvlaki_rs/fetch.rb). */
module Fetch {
  import opened Wrappers
  import opened Text
  import opened Dates

  // ---------------------------------------------------------------------
  // Validation

  /** What is at a destination path: nothing, or a file of `size` bytes whose
      content-sniffer (FileMagic) description is `magic`. */
  datatype FileState = Absent | Present(size: nat, magic: string)

  /** `Util.get_type_desc`: the sniffer's description, only for files larger
      than 10 bytes. */
  function TypeDesc(f: FileState): (r: Option<string>)
    ensures r.Some? <==> f.Present? && f.size > 10
    ensures r.Some? ==> r.value == f.magic
  {
    if f.Present? && f.size > 10 then Some(f.magic) else None
  }

  /** The description names an MP3, MPEG or ID3 container. */
  predicate LooksLikeMpeg(desc: string) {
    Contains(desc, "MP3") || Contains(desc, "MPEG") || Contains(desc, "ID3")
  }

  /** The answer of `valid?` and the destination afterwards. */
  datatype Verdict = Verdict(ok: bool, after: FileState)

  /** `Fetch.valid?`: a missing or empty file is refused (an empty one is
      deleted), otherwise the sniffed description decides. */
  function Validate(f: FileState): (v: Verdict)
    ensures v.ok <==> f.Present? && f.size > 10 && LooksLikeMpeg(f.magic)
    ensures v.ok ==> v.after == f
    ensures f.Absent? || f.size == 0 ==> !v.ok && v.after == Absent
    ensures f.Present? && f.size > 0 ==> v.after == f
  {
    if f.Absent? then Verdict(false, Absent)
    else if f.size == 0 then Verdict(false, Absent)
    else
      var desc := TypeDesc(f);
      Verdict(desc.Some? && LooksLikeMpeg(desc.value), f)
  }

  // ---------------------------------------------------------------------
  // fetch_file

  /** What one retrieval attempt produced: a file written at the destination,
      or one of the errors `fetch_file` rescues. */
  datatype Attempt = Delivered(file: FileState) | NotFound | TimedOut | Failed

  /** The result of `fetch_file`, the number of retrievals it made, and what
      is left at the destination. */
  datatype FetchRun = FetchRun(ok: bool, attempts: nat, dest: FileState)

  /** The validation at the end of `fetch_file`: an invalid file is removed. */
  function Finish(f: FileState, attempts: nat): (run: FetchRun)
    ensures run.ok == Validate(f).ok && run.attempts == attempts
    ensures run.ok ==> run.dest == f
    ensures !run.ok ==> run.dest == Absent
  {
    var v := Validate(f);
    FetchRun(v.ok, attempts, if v.ok then v.after else Absent)
  }

  /** Retrieval attempt number `attempt` and the retries after it; `net(k)` is
      what attempt `k` yields. A timeout removes the destination and retries
      while the incremented counter stays below 5; once it reaches 5 the
      method falls through to validating the (absent) destination. */
  function Download(net: nat -> Attempt, attempt: nat): (run: FetchRun)
    requires 1 <= attempt <= 4
    ensures attempt <= run.attempts <= 4
    ensures forall k :: attempt <= k < run.attempts ==> net(k).TimedOut?
    ensures run.attempts < 4 ==> !net(run.attempts).TimedOut?
    ensures run.ok <==> net(run.attempts).Delivered? && Validate(net(run.attempts).file).ok
    ensures run.ok ==> run.dest == net(run.attempts).file
    ensures !run.ok ==> run.dest == Absent
    decreases 5 - attempt
  {
    match net(attempt)
    case Delivered(f) => Finish(f, attempt)
    case NotFound => FetchRun(false, attempt, Absent)
    case Failed => FetchRun(false, attempt, Absent)
    case TimedOut =>
      if attempt + 1 < 5 then Download(net, attempt + 1) else Finish(Absent, attempt)
  }

  /** `Fetch.fetch_file`: an existing destination is not downloaded again but
      still validated; otherwise up to four retrievals are made. The result is
      true only for a valid file, which stays; otherwise the destination is
      left empty. */
  function FetchFile(dest: FileState, net: nat -> Attempt): (run: FetchRun)
    ensures dest.Present? ==> run.attempts == 0 && run.ok == Validate(dest).ok
    ensures dest.Absent? ==> 1 <= run.attempts <= 4
    ensures dest.Absent? ==>
      && (forall k :: 1 <= k < run.attempts ==> net(k).TimedOut?)
      && (run.attempts < 4 ==> !net(run.attempts).TimedOut?)
      && (run.ok <==> net(run.attempts).Delivered? && Validate(net(run.attempts).file).ok)
      && (run.ok ==> run.dest == net(run.attempts).file)
    ensures run.ok ==> Validate(run.dest).ok
    ensures dest.Present? && run.ok ==> run.dest == dest
    ensures !run.ok ==> run.dest == Absent
  {
    if dest.Present? then Finish(dest, 0) else Download(net, 1)
  }

  /** Timeouts on every attempt: four attempts, then failure. */
  lemma AllTimeoutsFail(net: nat -> Attempt)
    requires forall k :: 1 <= k <= 4 ==> net(k).TimedOut?
    ensures FetchFile(Absent, net) == FetchRun(false, 4, Absent)
  {
  }

  /** A file the fifth attempt would have delivered is never fetched. */
  lemma NoFifthAttempt(net: nat -> Attempt, good: FileState)
    requires forall k :: 1 <= k <= 4 ==> net(k).TimedOut?
    requires net(5) == Delivered(good) && Validate(good).ok
    ensures !FetchFile(Absent, net).ok
  {
  }

  /** A valid file delivered on the third attempt ends the retries there. */
  lemma SuccessOnThirdAttempt(net: nat -> Attempt, good: FileState)
    requires net(1).TimedOut? && net(2).TimedOut? && net(3) == Delivered(good)
    requires Validate(good).ok
    ensures FetchFile(Absent, net) == FetchRun(true, 3, good)
  {
  }

  /** A missing resource is not retried. */
  lemma NotFoundIsFinal(net: nat -> Attempt)
    requires net(1).NotFound?
    ensures FetchFile(Absent, net) == FetchRun(false, 1, Absent)
  {
  }

  // ---------------------------------------------------------------------
  // find_rss_entry

  datatype FeedKind = RssKind | AtomKind

  /** An `<item>`: its `pubDate` as a date and its `<enclosure>` URL. */
  datatype FeedItem = FeedItem(pubDate: Date, enclosureUrl: string)

  /** The result of `RSS::Parser.parse`. */
  datatype Feed = Unparsable | Parsed(kind: FeedKind, items: seq<FeedItem>)

  /** `pubdate.to_s.eql?(date.to_s)` */
  predicate SameDay(a: Date, b: Date) {
    Iso(a) == Iso(b)
  }

  /** Item `i` is where the scan for `target` stops with a match: it matches,
      and no item up to it is older than the target or matches earlier. */
  predicate StopsAt(items: seq<FeedItem>, target: Date, from: nat, i: nat) {
    && from <= i < |items|
    && SameDay(items[i].pubDate, target)
    && (forall j :: from <= j <= i ==> !Before(items[j].pubDate, target))
    && (forall j :: from <= j < i ==> !SameDay(items[j].pubDate, target))
  }

  /** The item loop of `find_rss_entry` with a date, from index `from`. */
  function ScanFrom(items: seq<FeedItem>, target: Date, from: nat): (r: Option<nat>)
    requires from <= |items|
    ensures r.Some? ==> StopsAt(items, target, from, r.value)
    ensures r.None? ==> forall i: nat :: !StopsAt(items, target, from, i)
    decreases |items| - from
  {
    if from == |items| then None
    else if Before(items[from].pubDate, target) then None
    else if SameDay(items[from].pubDate, target) then Some(from)
    else
      ScanStep(items, target, from);
      ScanFrom(items, target, from + 1)
  }

  /** Past an item that is neither older than the target nor a match, the
      scan stops where the scan from the next item stops. */
  lemma ScanStep(items: seq<FeedItem>, target: Date, from: nat)
    requires from < |items|
    requires !Before(items[from].pubDate, target) && !SameDay(items[from].pubDate, target)
    ensures forall i: nat :: StopsAt(items, target, from, i) <==> StopsAt(items, target, from + 1, i)
  {
  }

  /** `Fetch.find_rss_entry`: for an RSS feed, the first item's enclosure when
      no date is given; otherwise the enclosure of the item the scan stops at. */
  function FindRssEntry(feed: Feed, date: Option<Date>): (r: Option<string>)
    ensures feed.Unparsable? || feed.kind == AtomKind || |feed.items| == 0 ==> r.None?
    ensures r.Some? ==> exists i :: 0 <= i < |feed.items| && r.value == feed.items[i].enclosureUrl
    ensures feed.Parsed? && feed.kind == RssKind && date.None? && |feed.items| > 0 ==>
      r == Some(feed.items[0].enclosureUrl)
    ensures feed.Parsed? && feed.kind == RssKind && date.Some? ==>
      (r.Some? <==> exists i: nat :: StopsAt(feed.items, date.value, 0, i))
    ensures feed.Parsed? && feed.kind == RssKind && date.Some? ==>
      forall i: nat :: StopsAt(feed.items, date.value, 0, i) ==> r == Some(feed.items[i].enclosureUrl)
  {
    match feed
    case Unparsable => None
    case Parsed(kind, items) =>
      if kind == AtomKind then None
      else match date
        case None => if |items| > 0 then Some(items[0].enclosureUrl) else None
        case Some(t) =>
          var found := ScanFrom(items, t, 0);
          if found.Some? then Some(items[found.value].enclosureUrl)
          else
            None
  }

  /** The scan stops at an item older than the target; a matching item after
      it is never returned. */
  lemma OlderItemStopsScan(items: seq<FeedItem>, target: Date, k: nat)
    requires k < |items| && Before(items[k].pubDate, target)
    requires forall j :: 0 <= j < k ==> !SameDay(items[j].pubDate, target)
    ensures FindRssEntry(Parsed(RssKind, items), Some(target)).None?
  {
    var found := ScanFrom(items, target, 0);
  }

  /** Items newest first, as the early exit assumes. */
  predicate NewestFirst(items: seq<FeedItem>) {
    forall i, j :: 0 <= i < j < |items| ==> !Before(items[i].pubDate, items[j].pubDate)
  }

  /** Item `m` is the first one carrying `target`. */
  predicate FirstWithDate(items: seq<FeedItem>, target: Date, m: nat) {
    && m < |items| && items[m].pubDate == target
    && (forall j :: 0 <= j < m ==> items[j].pubDate != target)
  }

  /** The first item carrying a date exists when any item carries it. */
  lemma {:induction false} FirstWithDateExists(items: seq<FeedItem>, target: Date, k: nat)
    requires k < |items| && items[k].pubDate == target
    ensures exists m: nat :: m <= k && FirstWithDate(items, target, m)
  {
    if exists j :: 0 <= j < k && items[j].pubDate == target {
      var j :| 0 <= j < k && items[j].pubDate == target;
      FirstWithDateExists(items, target, j);
    } else {
      assert FirstWithDate(items, target, k);
    }
  }

  /** On a feed sorted newest first, with real calendar dates, the search
      succeeds exactly when some item carries the target date, and returns
      the enclosure of the first such item. */
  lemma SortedFeedFindsMatch(items: seq<FeedItem>, target: Date)
    requires NewestFirst(items) && ValidDate(target)
    requires forall i :: 0 <= i < |items| ==> ValidDate(items[i].pubDate)
    ensures FindRssEntry(Parsed(RssKind, items), Some(target)).Some? <==>
      exists i :: 0 <= i < |items| && items[i].pubDate == target
    ensures forall m: nat :: FirstWithDate(items, target, m) ==>
      FindRssEntry(Parsed(RssKind, items), Some(target)) == Some(items[m].enclosureUrl)
  {
    forall m: nat | FirstWithDate(items, target, m)
      ensures StopsAt(items, target, 0, m)
    {
      forall j | 0 <= j < m
        ensures !SameDay(items[j].pubDate, target)
      {
        if SameDay(items[j].pubDate, target) {
          IsoInjective(items[j].pubDate, target);
        }
      }
    }
    var found := ScanFrom(items, target, 0);
    if found.Some? {
      IsoInjective(items[found.value].pubDate, target);
    } else {
      forall k | 0 <= k < |items| && items[k].pubDate == target
        ensures false
      {
        FirstWithDateExists(items, target, k);
      }
    }
  }
}
