/** A program entry of the configuration: validation, preparation for one run
    (lib/souvlaki_rs/program.rb), and the block-length check on a fetched file. */
module Program {
  import opened Wrappers
  import opened Text
  import opened Dates

  /** The `:source` symbol of a program. */
  datatype SourceKind = FileSource | RssSource | AudioportSource | OtherSource(name: string)

  /** `SOURCE_TYPES` */
  const SourceTypes: set<SourceKind> := {FileSource, RssSource, AudioportSource}

  /** A program entry: a hash in which every key may be missing. */
  datatype ProgramConfig = ProgramConfig(
    code: Option<string>,
    pubTitle: Option<string>,
    creator: Option<string>,
    name: Option<string>,
    genre: Option<string>,
    source: Option<SourceKind>,
    baseUrl: Option<string>,
    format: Option<string>,
    feed: Option<string>,
    apUri: Option<string>,
    useHtml: Option<bool>,
    retitle: Option<bool>,
    today: Option<bool>,
    block: Option<int>,
    msgId: Option<string>,
    pubDate: Option<Date>,
    fileUrl: Option<string>)

  /** Command-line options of a run: the requested date, and `:date` when a
      date was given explicitly. */
  datatype RunOptions = RunOptions(reqDate: Date, date: Option<Date>, writeTags: bool, importFiles: bool, post: bool)

  /** `REQ_KEYS`, in the order they are checked. */
  datatype RequiredKey = PubTitleKey | CreatorKey | NameKey

  const RequiredKeys: seq<RequiredKey> := [PubTitleKey, CreatorKey, NameKey]

  function Field(p: ProgramConfig, k: RequiredKey): Option<string> {
    match k
    case PubTitleKey => p.pubTitle
    case CreatorKey => p.creator
    case NameKey => p.name
  }

  /** Why a program entry was refused: the error `valid?` logs. */
  datatype Rejection =
    | MissingField(key: RequiredKey)
    | UnknownGenre(genre: string)
    | UnknownSource
    | NoBaseUrl
    | NoFeed

  /** The first of `keys` whose field is missing. */
  function FirstMissing(p: ProgramConfig, keys: seq<RequiredKey>): (r: Option<RequiredKey>)
    ensures r.None? <==> forall i :: 0 <= i < |keys| ==> Field(p, keys[i]).Some?
    ensures r.Some? ==> exists i ::
              && 0 <= i < |keys| && keys[i] == r.value && Field(p, keys[i]).None?
              && (forall j :: 0 <= j < i ==> Field(p, keys[j]).Some?)
  {
    if |keys| == 0 then None
    else if Field(p, keys[0]).None? then Some(keys[0])
    else
      var r := FirstMissing(p, keys[1..]);
      assert forall i :: 1 <= i < |keys| ==> keys[1..][i - 1] == keys[i];
      r
  }

  /** `Program.valid?` with the reason it logs: the checks run in order and the
      first failing one is reported. `genres` is the key set of `Tag::GENRES`. */
  function Check(p: ProgramConfig, genres: set<string>): (r: Option<Rejection>)
    ensures r.None? <==>
      && p.pubTitle.Some? && p.creator.Some? && p.name.Some?
      && (p.genre.Some? ==> p.genre.value in genres)
      && p.source.Some? && p.source.value in SourceTypes
      && (p.source == Some(FileSource) ==> p.baseUrl.Some?)
      && (p.source == Some(RssSource) ==> p.feed.Some?)
    ensures r.Some? && !r.value.MissingField? ==> p.pubTitle.Some? && p.creator.Some? && p.name.Some?
    ensures r == Some(UnknownSource) ==> p.genre.Some? ==> p.genre.value in genres
    ensures r == Some(NoBaseUrl) || r == Some(NoFeed) ==> p.source.Some? && p.source.value in SourceTypes
  {
    var missing := FirstMissing(p, RequiredKeys);
    if missing.Some? then Some(MissingField(missing.value))
    else
      assert Field(p, RequiredKeys[0]).Some? && Field(p, RequiredKeys[1]).Some? && Field(p, RequiredKeys[2]).Some?;
      if p.genre.Some? && p.genre.value !in genres then Some(UnknownGenre(p.genre.value))
      else if !(p.source.Some? && p.source.value in SourceTypes) then Some(UnknownSource)
      else if p.source.value == FileSource && p.baseUrl.None? then Some(NoBaseUrl)
      else if p.source.value == RssSource && p.feed.None? then Some(NoFeed)
      else None
  }

  /** `Program.valid?` */
  predicate Valid(p: ProgramConfig, genres: set<string>) {
    Check(p, genres).None?
  }

  /** A missing required field is the first thing reported, before any genre
      or source problem. */
  lemma MissingFieldReportedFirst(p: ProgramConfig, genres: set<string>)
    requires p.pubTitle.None? || p.creator.None? || p.name.None?
    ensures Check(p, genres).Some? && Check(p, genres).value.MissingField?
    ensures p.pubTitle.None? ==> Check(p, genres) == Some(MissingField(PubTitleKey))
  {
  }

  /** The default for `:today`: only an explicit `true` keeps today's date. */
  function TodayFlag(p: ProgramConfig): bool {
    p.today == Some(true)
  }

  /** The date a run fetches: the requested date, or the day before it unless a
      date was given explicitly or the program is fetched on the day. */
  function PubDate(p: ProgramConfig, opts: RunOptions): Date
    requires ValidDate(opts.reqDate)
  {
    if opts.date.None? && !TodayFlag(p) then Prev(opts.reqDate) else opts.reqDate
  }

  /** `Program.prepare`: defaults `:retitle` and `:today`, sets `:pub_date`,
      and for a `:file` program builds `:file_url`. */
  function Prepare(p: ProgramConfig, opts: RunOptions): (r: ProgramConfig)
    requires ValidDate(opts.reqDate)
    requires p.source == Some(FileSource) && p.format.Some? ==> p.baseUrl.Some?
    ensures r.retitle == Some(p.retitle != Some(false))
    ensures r.today == Some(p.today == Some(true))
    ensures r.pubDate.Some? && ValidDate(r.pubDate.value)
    ensures opts.date.None? && p.today != Some(true) ==> r.pubDate.value == Prev(opts.reqDate)
    ensures opts.date.Some? || p.today == Some(true) ==> r.pubDate.value == opts.reqDate
    ensures p.source == Some(FileSource) ==>
      r.fileUrl == (if p.format.Some? then Some(p.baseUrl.value + "/" + Strftime(r.pubDate.value, p.format.value))
                    else p.baseUrl)
    ensures p.source != Some(FileSource) ==> r.fileUrl == p.fileUrl
    ensures r.(retitle := p.retitle, today := p.today, pubDate := p.pubDate, fileUrl := p.fileUrl) == p
  {
    var retitle := match p.retitle
      case None => Some(true)
      case Some(b) => Some(b);
    var today := Some(TodayFlag(p));
    var pub := PubDate(p, opts);
    var fileUrl :=
      if p.source == Some(FileSource) then
        (if p.format.Some? then Some(p.baseUrl.value + "/" + Strftime(pub, p.format.value)) else p.baseUrl)
      else p.fileUrl;
    p.(retitle := retitle, today := today, pubDate := Some(pub), fileUrl := fileUrl)
  }

  /** Preparing a valid entry leaves it valid: `prepare` touches none of the
      keys `valid?` reads. */
  lemma PreparePreservesValidity(p: ProgramConfig, opts: RunOptions, genres: set<string>)
    requires ValidDate(opts.reqDate) && Valid(p, genres)
    ensures Valid(Prepare(p, opts), genres)
  {
    var r := Prepare(p, opts);
    assert r.pubTitle == p.pubTitle && r.creator == p.creator && r.name == p.name;
    assert r.genre == p.genre && r.source == p.source && r.baseUrl == p.baseUrl && r.feed == p.feed;
  }

  /** A `:file` program with a date format fetches `base_url/<formatted date>`;
      with the requested date 2022-12-01 and no explicit date that is the day
      before. */
  lemma PrepareFileUrlExample(p: ProgramConfig)
    requires p.source == Some(FileSource) && p.baseUrl == Some("http://www") && p.format == Some("%Y%m%d")
    requires p.today.None?
    ensures Prepare(p, RunOptions(Date(2022, 12, 1), None, false, false, false)).fileUrl == Some("http://www/20221130")
  {
    PrevExample();
    StrftimeExample();
    UrlExample();
  }

  lemma UrlExample()
    ensures "http://www" + "/" + "20221130" == "http://www/20221130"
  {
  }

  lemma PrevExample()
    ensures ValidDate(Date(2022, 12, 1)) && Prev(Date(2022, 12, 1)) == Date(2022, 11, 30)
  {
  }

  lemma StrftimeExample()
    ensures Strftime(Date(2022, 11, 30), "%Y%m%d") == "20221130"
  {
    CompactExample();
    StrftimeIso(Date(2022, 11, 30));
  }

  lemma CompactExample()
    ensures Compact(Date(2022, 11, 30)) == "20221130"
  {
    Year2022();
    TwoDigits11();
    TwoDigits30();
  }

  lemma Year2022()
    ensures YearText(2022) == "2022"
  {
    assert Digits(2, 1) == ['2'];
    assert Digits(20, 2) == Digits(2, 1) + ['0'];
    assert Digits(202, 3) == Digits(20, 2) + ['2'];
    assert Digits(2022, 4) == Digits(202, 3) + ['2'];
  }

  lemma TwoDigits11()
    ensures TwoDigits(11) == "11"
  {
    assert Digits(1, 1) == ['1'] && Digits(11, 2) == Digits(1, 1) + ['1'];
  }

  lemma TwoDigits30()
    ensures TwoDigits(30) == "30"
  {
    assert Digits(3, 1) == ['3'] && Digits(30, 2) == Digits(3, 1) + ['0'];
  }

  /** `Program.file_duration`: no report when the program declares no block
      length; otherwise the file's length as HH:MM:SS unless it lies between
      80% of the block (inclusive) and the block (exclusive). The comparison is
      written over reals, as the source divides by 60.0 and 5.0. */
  function FileDuration(block: Option<int>, length: nat): (r: Option<string>)
    ensures block.None? ==> r.None?
    ensures block.Some? ==> (r.None? <==> 48 * block.value <= length < 60 * block.value)
    ensures r.Some? ==> r.value == ClockText(length)
  {
    if block.None? then None
    else
      var b := block.value as real;
      var fileDur := length as real / 60.0;
      var minLen := b - b / 5.0;
      if !(fileDur >= b || fileDur < minLen) then None
      else Some(ClockText(length))
  }

  /** The two cases the source's tests check for a 30-minute block. */
  lemma FileDurationExamples()
    ensures FileDuration(Some(30), 1750).None?
    ensures FileDuration(Some(30), 1811) == Some("00:30:11")
  {
    ClockExample();
  }

  lemma ClockExample()
    ensures ClockText(1811) == "00:30:11"
  {
    TwoDigits0();
    TwoDigits30();
    TwoDigits11();
    assert (1811 / 3600) % 24 == 0 && (1811 / 60) % 60 == 30 && 1811 % 60 == 11;
  }

  lemma TwoDigits0()
    ensures TwoDigits(0) == "00"
  {
    assert Digits(0, 1) == ['0'] && Digits(0, 2) == Digits(0, 1) + ['0'];
  }
}
