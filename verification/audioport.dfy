/** The decisions of the AudioPort scraper (lib/souvlaki_rs/audioport.rb)
    over values already extracted from its pages: the date availability
    check, the series URIs, the download file name, and the slicing of the
    series table. */
module Audioport {
  import opened Wrappers
  import opened Text
  import opened Dates
  import opened Program

  // ---------------------------------------------------------------------
  // rss_shows_available

  /** `rss_shows_available` on the parsed channel date and item date (the
      day `Time.parse` reads from the items' joined pubDate texts, taken to
      be the first item's):
      nothing when the channel was updated after the requested date (as
      strings), nothing when the item is from another day, else the date. */
  function RssShowsAvailable(channelDate: Date, itemDate: Date, showDate: string): (r: Option<string>)
    ensures r.Some? <==> !LexLess(showDate, Iso(channelDate)) && Iso(itemDate) == showDate
    ensures r.Some? ==> r.value == showDate
  {
    if LexLess(showDate, Iso(channelDate)) then None
    else if Iso(itemDate) != showDate then None
    else Some(Iso(itemDate))
  }

  /** For real dates with four-digit years the string test is the calendar
      test: the show is available exactly when the channel is not newer than
      the publication date and the item is from that date. */
  lemma ShowsAvailableIffCalendar(channelDate: Date, itemDate: Date, pubDate: Date)
    requires ValidDate(channelDate) && ValidDate(itemDate) && ValidDate(pubDate)
    requires 0 <= channelDate.year <= 9999 && 0 <= pubDate.year <= 9999
    ensures RssShowsAvailable(channelDate, itemDate, Iso(pubDate)).Some? <==>
      !Before(pubDate, channelDate) && itemDate == pubDate
  {
    IsoOrder(pubDate, channelDate);
    if Iso(itemDate) == Iso(pubDate) {
      IsoInjective(itemDate, pubDate);
    }
  }

  // ---------------------------------------------------------------------
  // init_fields

  /** The fields `init_fields` adds to a program. */
  datatype SeriesRequest = SeriesRequest(showNameUri: string, showDate: string, useHtml: bool, uri: string, origin: string)

  const SeriesPrefix: string := "/index.php?op=series&series="

  /** `init_fields`: the series name is `:ap_uri`, or the publication title
      with spaces turned into '+'; the date is `%Y-%m-%d`; `:use_html`
      defaults to false. */
  function InitFields(p: ProgramConfig, baseUri: string): (r: SeriesRequest)
    requires p.pubDate.Some? && (p.apUri.Some? || p.pubTitle.Some?)
    ensures p.apUri.Some? ==> r.showNameUri == p.apUri.value
    ensures p.apUri.None? ==>
      && |r.showNameUri| == |p.pubTitle.value|
      && ' ' !in r.showNameUri
      && forall i :: 0 <= i < |r.showNameUri| ==>
           r.showNameUri[i] == (if p.pubTitle.value[i] == ' ' then '+' else p.pubTitle.value[i])
    ensures r.showDate == Iso(p.pubDate.value)
    ensures r.useHtml <==> p.useHtml == Some(true)
    ensures StartsWith(r.uri, SeriesPrefix) && r.uri[|SeriesPrefix|..] == r.showNameUri
    ensures r.origin == baseUri + "/" + r.uri
  {
    var name := if p.apUri.Some? then p.apUri.value else ReplaceChar(p.pubTitle.value, ' ', '+');
    assert p.apUri.None? ==> forall i :: 0 <= i < |name| ==> name[i] != ' ';
    var uri := SeriesPrefix + name;
    assert uri[..|SeriesPrefix|] == SeriesPrefix && uri[|SeriesPrefix|..] == name;
    StrftimeIso(p.pubDate.value);
    SeriesRequest(name, Strftime(p.pubDate.value, "%Y-%m-%d"), p.useHtml == Some(true), uri, baseUri + "/" + uri)
  }

  /** The series name can be read back from the page URI. */
  lemma SeriesUriRoundTrip(p: ProgramConfig, q: ProgramConfig, baseUri: string)
    requires p.pubDate.Some? && (p.apUri.Some? || p.pubTitle.Some?)
    requires q.pubDate.Some? && (q.apUri.Some? || q.pubTitle.Some?)
    ensures InitFields(p, baseUri).uri == InitFields(q, baseUri).uri <==>
      InitFields(p, baseUri).showNameUri == InitFields(q, baseUri).showNameUri
  {
  }

  // ---------------------------------------------------------------------
  // get_response_filename and filename_from_url

  /** `^` holds at `p`: the start of the string or of a line. */
  predicate LineStart(s: string, p: nat) {
    p <= |s| && (p == 0 || s[p - 1] == '\n')
  }

  /** The end of the longest run of `\s` from `i`. */
  function SkipSpaces(s: string, i: nat): (j: nat)
    requires i <= |s|
    ensures i <= j <= |s|
    ensures forall k :: i <= k < j ==> IsSpace(s[k])
    ensures j == |s| || !IsSpace(s[j])
    decreases |s| - i
  {
    if i < |s| && IsSpace(s[i]) then SkipSpaces(s, i + 1) else i
  }

  /** The end of the line holding `i`: what `.` can reach from there. */
  function LineEnd(s: string, i: nat): (j: nat)
    requires i <= |s|
    ensures i <= j <= |s|
    ensures forall k :: i <= k < j ==> s[k] != '\n'
    ensures j == |s| || s[j] == '\n'
    decreases |s| - i
  {
    if i < |s| && s[i] != '\n' then LineEnd(s, i + 1) else i
  }

  /** The last ';' in `s[lo..hi]`. */
  function LastSemicolon(s: string, lo: nat, hi: nat): (r: Option<nat>)
    requires lo <= hi <= |s|
    ensures r.Some? ==> lo <= r.value < hi && s[r.value] == ';'
    ensures r.Some? ==> forall m :: r.value < m < hi ==> s[m] != ';'
    ensures r.None? ==> forall m :: lo <= m < hi ==> s[m] != ';'
    decreases hi - lo
  {
    if hi == lo then None
    else if s[hi - 1] == ';' then Some(hi - 1)
    else LastSemicolon(s, lo, hi - 1)
  }

  /** The pattern `attachment;(\s*)filename=(.*);` tried at `p`: the
      result is group 2. `\s*` cannot give back characters usefully, as
      'f' is not whitespace; the greedy `.*` stops at the last ';' before the
      end of the line. */
  function MatchAt(s: string, p: nat): (r: Option<string>)
    requires p <= |s|
    ensures r.Some? ==> OccursAt(s, "attachment;", p) && '\n' !in r.value
  {
    if !OccursAt(s, "attachment;", p) then None
    else
      var w := SkipSpaces(s, p + 11);
      if !OccursAt(s, "filename=", w) then None
      else
        var v := w + 9;
        var e := LineEnd(s, v);
        match LastSemicolon(s, v, e)
        case None => None
        case Some(k) =>
          GroupFacts(s, w, k);
          Some(s[v..k])
  }

  /** What a match at `p` consists of: "attachment;", a run of `\s`, then
      "filename=" and group 2 up to a ';' with no ';' after it on the line. */
  lemma MatchAtShape(s: string, p: nat)
    requires p <= |s| && MatchAt(s, p).Some?
    ensures var name := MatchAt(s, p).value;
      exists w ::
        && p + 11 <= w
        && OccursAt(s, "filename=" + name + ";", w)
        && (forall k :: p + 11 <= k < w ==> IsSpace(s[k]))
        && (forall m :: w + 9 + |name| < m < LineEnd(s, w + 9) ==> s[m] != ';')
  {
    var w := SkipSpaces(s, p + 11);
    var k := LastSemicolon(s, w + 9, LineEnd(s, w + 9)).value;
    GroupFacts(s, w, k);
    assert MatchAt(s, p).value == s[w + 9..k];
  }

  lemma GroupFacts(s: string, w: nat, k: nat)
    requires w + 9 <= k < |s| && OccursAt(s, "filename=", w) && s[k] == ';'
    requires forall i :: w + 9 <= i < k ==> s[i] != '\n'
    ensures OccursAt(s, "filename=" + s[w + 9..k] + ";", w)
    ensures '\n' !in s[w + 9..k]
  {
    var name := s[w + 9..k];
    assert s[w..k + 1] == s[w..w + 9] + name + [s[k]];
    assert forall i :: 0 <= i < |name| ==> name[i] == s[w + 9 + i];
  }

  /** The pattern matches at no line start in `[lo, hi)`. */
  predicate NoMatchBetween(s: string, lo: nat, hi: nat) {
    forall q :: lo <= q < hi && LineStart(s, q) ==> MatchAt(s, q).None?
  }

  /** `p` is the leftmost line start from `from` on where the pattern matches. */
  predicate FirstMatchAt(s: string, from: nat, p: nat) {
    from <= p <= |s| && LineStart(s, p) && MatchAt(s, p).Some? && NoMatchBetween(s, from, p)
  }

  /** A line without a match can be skipped. */
  lemma SkipLine(s: string, from: nat, hi: nat)
    requires LineStart(s, from) && MatchAt(s, from).None?
    requires LineEnd(s, from) < |s| && LineEnd(s, from) + 1 <= hi
    requires NoMatchBetween(s, LineEnd(s, from) + 1, hi)
    ensures NoMatchBetween(s, from, hi)
  {
    var e := LineEnd(s, from);
    forall q | from <= q < hi && LineStart(s, q)
      ensures MatchAt(s, q).None?
    {
      if q <= e {
        assert q == from;
      }
    }
  }

  /** Skipping a line without a match carries the scan's answer from the
      next line back to this one. */
  lemma NextLine(s: string, from: nat, r: Option<string>)
    requires LineStart(s, from) && MatchAt(s, from).None? && LineEnd(s, from) < |s|
    requires r.Some? ==> exists p :: FirstMatchAt(s, LineEnd(s, from) + 1, p) && MatchAt(s, p) == r
    requires r.None? ==> NoMatchBetween(s, LineEnd(s, from) + 1, |s| + 1)
    ensures r.Some? ==> exists p :: FirstMatchAt(s, from, p) && MatchAt(s, p) == r
    ensures r.None? ==> NoMatchBetween(s, from, |s| + 1)
  {
    if r.Some? {
      var p :| FirstMatchAt(s, LineEnd(s, from) + 1, p) && MatchAt(s, p) == r;
      NextLineMatch(s, from, p);
      assert FirstMatchAt(s, from, p) && MatchAt(s, p) == r;
    } else {
      SkipLine(s, from, |s| + 1);
    }
  }

  /** A match on a later line is the first one from this line on when this
      line has none. */
  lemma NextLineMatch(s: string, from: nat, p: nat)
    requires LineStart(s, from) && MatchAt(s, from).None? && LineEnd(s, from) < |s|
    requires FirstMatchAt(s, LineEnd(s, from) + 1, p)
    ensures FirstMatchAt(s, from, p)
  {
    SkipLine(s, from, p);
  }

  /** The last line without a match ends the scan with nothing. */
  lemma LastLine(s: string, from: nat)
    requires LineStart(s, from) && MatchAt(s, from).None? && LineEnd(s, from) == |s|
    ensures NoMatchBetween(s, from, |s| + 1)
  {
    assert forall q :: from < q <= |s| ==> !LineStart(s, q);
  }

  /** The search for the leftmost line start, from `from` on, where the
      pattern matches. */
  function ScanLines(s: string, from: nat): (r: Option<string>)
    requires LineStart(s, from)
    ensures r.Some? ==> exists p :: FirstMatchAt(s, from, p) && MatchAt(s, p) == r
    ensures r.None? ==> NoMatchBetween(s, from, |s| + 1)
    decreases |s| - from
  {
    var here := MatchAt(s, from);
    if here.Some? then
      assert FirstMatchAt(s, from, from);
      here
    else
      var e := LineEnd(s, from);
      if e == |s| then
        LastLine(s, from);
        None
      else
        var r := ScanLines(s, e + 1);
        NextLine(s, from, r);
        r
  }

  /** `get_response_filename`: group 2 of the first match in the
      Content-Disposition header, nil when there is no header or no match. */
  function ResponseFilename(header: Option<string>): (r: Option<string>)
    ensures header.None? ==> r.None?
    ensures r.Some? ==> '\n' !in r.value
    ensures header.Some? ==> r == ScanLines(header.value, 0)
  {
    match header
    case None => None
    case Some(h) =>
      var r := ScanLines(h, 0);
      assert r.Some? ==> '\n' !in r.value;
      r
  }

  /** A header of the form `attachment; filename=NAME;` yields NAME, even
      when NAME holds further semicolons. */
  lemma ResponseFilenameRoundTrip(name: string)
    requires '\n' !in name
    ensures ResponseFilename(Some("attachment; filename=" + name + ";")) == Some(name)
  {
    var s := "attachment; filename=" + name + ";";
    assert s[..11] == "attachment;";
    assert s[11] == ' ' && s[12] == 'f';
    assert SkipSpaces(s, 11) == 12 by {
      assert SkipSpaces(s, 12) == 12;
    }
    assert s[12..21] == "filename=";
    assert forall k :: 21 <= k < |s| ==> s[k] != '\n' by {
      assert forall k :: 21 <= k < |s| - 1 ==> s[k] == name[k - 21];
    }
    assert LineEnd(s, 21) == |s|;
    assert s[|s| - 1] == ';';
    assert s[21..|s| - 1] == name;
    assert MatchAt(s, 0) == Some(name);
  }

  /** Without the closing ';' there is no match. */
  lemma ResponseFilenameNeedsSemicolon(name: string)
    requires '\n' !in name && ';' !in name
    ensures ResponseFilename(Some("attachment; filename=" + name)).None?
  {
    var s := "attachment; filename=" + name;
    assert s[..11] == "attachment;" && s[11] == ' ' && s[12] == 'f';
    assert forall k :: 21 <= k < |s| ==> s[k] == name[k - 21];
    assert forall k :: 0 <= k < |s| ==> s[k] != '\n';
    assert SkipSpaces(s, 12) == 12;
    assert SkipSpaces(s, 11) == 12;
    assert LineEnd(s, 21) == |s|;
    assert LastSemicolon(s, 21, |s|).None?;
    assert MatchAt(s, 0).None?;
    assert LineEnd(s, 0) == |s|;
  }

  /** `filename_from_url`: the base name of the URL's path. */
  function FilenameFromUrl(url: string): (r: string)
    ensures r == "/" || '/' !in r
    ensures '?' !in r && '#' !in r
  {
    var path := UrlPath(url);
    var r := Basename(path);
    BasenameChars(path);
    r
  }

  /** The file name `download_file` settles on: the header's, else the URL's. */
  function DownloadFilename(header: Option<string>, url: string): (r: string)
    ensures ResponseFilename(header).Some? ==> r == ResponseFilename(header).value
    ensures ResponseFilename(header).None? ==> r == FilenameFromUrl(url)
  {
    ResponseFilename(header).GetOr(FilenameFromUrl(url))
  }

  // ---------------------------------------------------------------------
  // The series table

  function Min(a: int, b: int): int {
    if a <= b then a else b
  }

  /** `Enumerable#each_slice(k)`: consecutive runs of `k` elements, the last
      one possibly shorter. */
  function Slices<T>(s: seq<T>, k: nat): (r: seq<seq<T>>)
    requires k > 0
    ensures |r| == 0 <==> |s| == 0
    ensures forall i :: 0 <= i < |r| ==> 0 < |r[i]| <= k
    decreases |s|
  {
    if |s| == 0 then []
    else if |s| <= k then [s]
    else [s[..k]] + Slices(s[k..], k)
  }

  /** Slice `i` exists exactly when `i*k` is an index of `s`, and holds the
      elements from `i*k` up to the next multiple of `k`. */
  lemma SliceAt<T>(s: seq<T>, k: nat, i: nat)
    requires k > 0
    ensures i < |Slices(s, k)| <==> i * k < |s|
    ensures i < |Slices(s, k)| ==> Slices(s, k)[i] == s[i * k .. Min((i + 1) * k, |s|)]
  {
    MulSucc(i, k);
    OffsetIsProduct(i, k);
    SliceFrom(s, k, i);
  }

  /** Where slice `i` starts, counted in steps of `k`. */
  function Offset(i: nat, k: nat): nat {
    if i == 0 then 0 else Offset(i - 1, k) + k
  }

  lemma {:induction false} OffsetIsProduct(i: nat, k: nat)
    ensures Offset(i, k) == i * k
  {
    if i > 0 {
      OffsetIsProduct(i - 1, k);
      MulSucc(i - 1, k);
    }
  }

  /** `SliceAt` over the offset of slice `i`, so that the induction only
      adds and subtracts `k`. */
  lemma {:induction false} SliceFrom<T>(s: seq<T>, k: nat, i: nat)
    requires k > 0
    ensures i < |Slices(s, k)| <==> Offset(i, k) < |s|
    ensures i < |Slices(s, k)| ==> Slices(s, k)[i] == s[Offset(i, k) .. Min(Offset(i, k) + k, |s|)]
    decreases |s|
  {
    var o := Offset(i, k);
    if |s| > k && i > 0 {
      var t := s[k..];
      assert o - k == Offset(i - 1, k) && |t| == |s| - k;
      SliceFrom(t, k, i - 1);
      assert Slices(s, k) == [s[..k]] + Slices(t, k);
      if i - 1 < |Slices(t, k)| {
        assert Slices(s, k)[i] == t[o - k..Min(o, |t|)];
        DropThenSlice(s, k, o - k, Min(o, |t|));
        assert k + Min(o, |t|) == Min(o + k, |s|);
      }
    } else if i > 0 {
      assert o >= k;
    }
  }

  /** A slice of `s[k..]` is a slice of `s`, shifted by `k`. */
  lemma DropThenSlice<T>(s: seq<T>, k: nat, a: nat, b: nat)
    requires k <= |s| && a <= b <= |s| - k
    ensures s[k..][a..b] == s[k + a..k + b]
  {
  }

  /** One more row of `k`: the step the slice positions advance by. */
  lemma MulSucc(i: nat, k: nat)
    ensures (i + 1) * k == i * k + k && i * k >= 0
  {
  }

  /** `take(n)` */
  function Take<T>(s: seq<T>, n: nat): (r: seq<T>)
    ensures |r| == if n < |s| then n else |s|
    ensures r == s[..|r|]
  {
    if n < |s| then s[..n] else s
  }

  /** `html_page_dates` over the texts of the table cells: the cells come in
      rows of five, the fourth of a row is its date, and at most four rows are
      read. A short row yields nil, which the date parser refuses; so does a
      text `parse` cannot read. */
  function HtmlPageDates(cells: seq<string>, parse: string -> Option<Date>): (r: Result<seq<string>>)
    ensures r.Success? <==> forall i: nat :: i < 4 && 5 * i < |cells| ==>
      5 * i + 3 < |cells| && parse(cells[5 * i + 3]).Some?
    ensures r.Success? ==> forall i: nat :: i < |r.value| <==> i < 4 && 5 * i < |cells|
    ensures r.Success? ==> forall i :: 0 <= i < |r.value| ==>
      r.value[i] == Iso(parse(cells[5 * i + 3]).value)
  {
    var rows := Take(Slices(cells, 5), 4);
    var column := seq(|rows|, i requires 0 <= i < |rows| => if |rows[i]| > 3 then Some(rows[i][3]) else None);
    forall i: nat
      ensures i < |rows| <==> i < 4 && 5 * i < |cells|
      ensures i < |rows| ==> column[i] == (if 5 * i + 3 < |cells| then Some(cells[5 * i + 3]) else None)
    {
      SliceAt(cells, 5, i);
    }
    if forall i :: 0 <= i < |column| ==> column[i].Some? && parse(column[i].value).Some? then
      Success(seq(|column|, i requires 0 <= i < |column| => Iso(parse(column[i].value).value)))
    else
      Failure("no implicit conversion of nil into String")
  }

  /** `html_page_titles` over the texts of the table's anchors: the anchors
      come in pairs, the first of a pair is the title, at most four are read. */
  function HtmlPageTitles(anchors: seq<string>): (r: seq<string>)
    ensures forall i: nat :: i < |r| <==> i < 4 && 2 * i < |anchors|
    ensures forall i :: 0 <= i < |r| ==> r[i] == anchors[2 * i]
  {
    var pairs := Take(Slices(anchors, 2), 4);
    forall i: nat
      ensures i < |pairs| <==> i < 4 && 2 * i < |anchors|
      ensures i < |pairs| ==> pairs[i][0] == anchors[2 * i]
    {
      SliceAt(anchors, 2, i);
    }
    seq(|pairs|, i requires 0 <= i < |pairs| => pairs[i][0])
  }

  /** Links to producer pages are not downloads. */
  predicate IsProducerLink(link: string) {
    Contains(link, "producer-info")
  }

  /** `reject { |link| link.include? 'producer-info' }` */
  function DropProducerLinks(links: seq<string>): (r: seq<string>)
    ensures |r| <= |links|
    ensures forall x :: x in r ==> x in links && !IsProducerLink(x)
    ensures forall x :: !IsProducerLink(x) ==> multiset(r)[x] == multiset(links)[x]
  {
    if |links| == 0 then []
    else
      var rest := DropProducerLinks(links[1..]);
      assert links == [links[0]] + links[1..];
      if IsProducerLink(links[0]) then rest else [links[0]] + rest
  }

  /** Filtering distributes over concatenation, so the kept links stay in
      their page order. */
  lemma {:induction false} DropProducerLinksAppend(a: seq<string>, b: seq<string>)
    ensures DropProducerLinks(a + b) == DropProducerLinks(a) + DropProducerLinks(b)
    decreases |a|
  {
    if |a| == 0 {
      assert a + b == b;
    } else {
      assert (a + b)[0] == a[0] && (a + b)[1..] == a[1..] + b;
      DropProducerLinksAppend(a[1..], b);
    }
  }

  /** `html_page_download_urls`: the first `count` links that are not producer
      pages. */
  function HtmlPageDownloadUrls(links: seq<string>, count: nat): (r: seq<string>)
    ensures |r| <= count && |r| <= |DropProducerLinks(links)|
    ensures forall x :: x in r ==> x in links && !IsProducerLink(x)
    ensures r == DropProducerLinks(links)[..|r|]
    ensures |r| == count || r == DropProducerLinks(links)
  {
    Take(DropProducerLinks(links), count)
  }

  /** The number of dates on the page equal to the publication date. */
  function CountMatches(dates: seq<string>, showDate: string): (n: nat)
    ensures n == multiset(dates)[showDate]
    ensures n <= |dates|
    ensures n == 0 <==> showDate !in dates
  {
    if |dates| == 0 then 0
    else
      assert dates == [dates[0]] + dates[1..];
      (if dates[0] == showDate then 1 else 0) + CountMatches(dates[1..], showDate)
  }

  /** Counting the rows of two tables one after the other adds the counts. */
  lemma {:induction false} CountMatchesAppend(a: seq<string>, b: seq<string>, showDate: string)
    ensures CountMatches(a + b, showDate) == CountMatches(a, showDate) + CountMatches(b, showDate)
    decreases |a|
  {
    if |a| == 0 {
      assert a + b == b;
    } else {
      assert (a + b)[0] == a[0] && (a + b)[1..] == a[1..] + b;
      CountMatchesAppend(a[1..], b, showDate);
    }
  }

  /** The table part of `from_html`: how many rows carry the date, their
      titles, and the download pages to visit. */
  datatype HtmlSelection = HtmlSelection(numMatches: nat, titles: seq<string>, downloadPages: seq<string>)

  function FromHtml(cells: seq<string>, anchors: seq<string>, links: seq<string>,
                    parse: string -> Option<Date>, pubDate: Date): (r: Result<HtmlSelection>)
    ensures r.Success? <==> HtmlPageDates(cells, parse).Success?
    ensures r.Success? ==> r.value.numMatches == multiset(HtmlPageDates(cells, parse).value)[Iso(pubDate)]
    ensures r.Success? ==> r.value.numMatches <= 4
    ensures r.Success? ==> r.value.titles == Take(HtmlPageTitles(anchors), r.value.numMatches)
    ensures r.Success? ==> |r.value.titles| <= r.value.numMatches && |r.value.downloadPages| <= r.value.numMatches
    ensures r.Success? ==> forall i :: 0 <= i < |r.value.titles| ==> 2 * i < |anchors| && r.value.titles[i] == anchors[2 * i]
    ensures r.Success? ==> r.value.downloadPages == HtmlPageDownloadUrls(links, r.value.numMatches)
    ensures r.Success? && Iso(pubDate) !in HtmlPageDates(cells, parse).value ==>
      r.value.numMatches == 0 && r.value.downloadPages == []
  {
    match HtmlPageDates(cells, parse)
    case Failure(e) => Failure(e)
    case Success(dates) =>
      var n := CountMatches(dates, Iso(pubDate));
      var titles := Take(HtmlPageTitles(anchors), n);
      Success(HtmlSelection(n, titles, HtmlPageDownloadUrls(links, n)))
  }

  // ---------------------------------------------------------------------
  // fetch_files

  /** The download-page loop of `from_html`: each page is visited, its file
      downloaded and saved (`download`); a visit that raises abandons the
      whole loop (`Failure`), a visit that saved nothing adds no file, and
      the files keep the page order. */
  function SaveAll(pages: seq<string>, download: string -> Result<Option<string>>): (r: Result<seq<string>>)
    ensures r.Success? <==> forall i :: 0 <= i < |pages| ==> download(pages[i]).Success?
    ensures r.Success? ==> |r.value| <= |pages|
    ensures r.Success? ==> forall x :: x in r.value ==>
      exists i :: 0 <= i < |pages| && download(pages[i]) == Success(Some(x))
    ensures (forall i :: 0 <= i < |pages| ==> download(pages[i]).Success? && download(pages[i]).value.Some?) ==>
      r.Success? && |r.value| == |pages|
  {
    if |pages| == 0 then Success([])
    else
      var rest := SaveAll(pages[1..], download);
      assert forall i :: 1 <= i < |pages| ==> pages[i] == pages[1..][i - 1];
      match download(pages[0])
      case Failure(e) => Failure(e)
      case Success(f) =>
        match rest
        case Failure(e) => Failure(e)
        case Success(files) =>
          assert forall x :: x in files ==> exists i :: 1 <= i < |pages| && download(pages[i]) == Success(Some(x));
          Success(FileOf(f) + files)
  }

  /** Visiting two lists of pages one after the other saves the files of the
      first list, then those of the second; a raise in either abandons all. */
  lemma {:induction false} SaveAllAppend(a: seq<string>, b: seq<string>, download: string -> Result<Option<string>>)
    ensures SaveAll(a + b, download).Success? <==> SaveAll(a, download).Success? && SaveAll(b, download).Success?
    ensures SaveAll(a + b, download).Success? ==>
      SaveAll(a + b, download).value == SaveAll(a, download).value + SaveAll(b, download).value
    decreases |a|
  {
    if |a| == 0 {
      assert a + b == b;
    } else {
      var ab := a + b;
      assert ab[0] == a[0] && ab[1..] == a[1..] + b;
      SaveAllAppend(a[1..], b, download);
      SaveAllStep(ab, download);
      SaveAllStep(a, download);
    }
  }

  /** One step of `SaveAll`: the first page's file, then the rest. */
  lemma SaveAllStep(pages: seq<string>, download: string -> Result<Option<string>>)
    requires |pages| > 0
    ensures SaveAll(pages, download).Success? <==>
      download(pages[0]).Success? && SaveAll(pages[1..], download).Success?
    ensures SaveAll(pages, download).Success? ==>
      SaveAll(pages, download).value == FileOf(download(pages[0]).value) + SaveAll(pages[1..], download).value
  {
  }

  /** The file one visit saved, as a list of zero or one. */
  function FileOf(f: Option<string>): (r: seq<string>)
    ensures |r| <= 1 && (r != [] <==> f.Some?)
  {
    if f.Some? then [f.value] else []
  }

  /** The feed of the series answered and the requested show is in it. */
  predicate Available(p: ProgramConfig, feedDates: Result<(Date, Date)>)
    requires p.pubDate.Some?
  {
    feedDates.Success? && RssShowsAvailable(feedDates.value.0, feedDates.value.1, Iso(p.pubDate.value)).Some?
  }

  /** `fetch_files`. `feedDates` is the channel and first-item date of the
      series feed, `Failure` when logging in or reading the feed raised; the
      HTML route reads the series table (`cells`, `anchors`, `links`) and
      visits the download pages through `download`; the RSS route saves the
      feed's enclosure, giving `rssFile`. Whatever raises inside the route
      leaves the list empty. */
  function FetchFiles(p: ProgramConfig, baseUri: string, feedDates: Result<(Date, Date)>,
                      cells: seq<string>, anchors: seq<string>, links: seq<string>,
                      parse: string -> Option<Date>, download: string -> Result<Option<string>>,
                      rssFile: Result<Option<string>>): (r: seq<string>)
    requires p.pubDate.Some? && (p.apUri.Some? || p.pubTitle.Some?)
    ensures !Available(p, feedDates) ==> r == []
    ensures p.useHtml == Some(true) ==>
      var h := FromHtml(cells, anchors, links, parse, p.pubDate.value);
      && (h.Failure? ==> r == [])
      && (h.Success? ==> |r| <= h.value.numMatches)
      && (h.Success? && Available(p, feedDates) && SaveAll(h.value.downloadPages, download).Success? ==>
            r == SaveAll(h.value.downloadPages, download).value)
      && (h.Success? && SaveAll(h.value.downloadPages, download).Failure? ==> r == [])
    ensures (p.useHtml == Some(true) && HtmlPageDates(cells, parse).Success? &&
             Iso(p.pubDate.value) !in HtmlPageDates(cells, parse).value) ==> r == []
    ensures p.useHtml != Some(true) ==>
      && |r| <= 1
      && (r != [] <==> Available(p, feedDates) && rssFile.Success? && rssFile.value.Some?)
      && (r != [] ==> r == [rssFile.value.value])
  {
    var req := InitFields(p, baseUri);
    if !Available(p, feedDates) then []
    else if req.useHtml then HtmlFiles(cells, anchors, links, parse, p.pubDate.value, download)
    else RssFiles(rssFile)
  }

  /** The HTML route of `fetch_files`: the files saved from the download
      pages of the series table, nothing when reading the table or a visit
      raised. */
  function HtmlFiles(cells: seq<string>, anchors: seq<string>, links: seq<string>,
                     parse: string -> Option<Date>, pubDate: Date,
                     download: string -> Result<Option<string>>): (r: seq<string>)
    ensures var h := FromHtml(cells, anchors, links, parse, pubDate);
      && (h.Failure? ==> r == [])
      && (h.Success? ==> |r| <= h.value.numMatches)
      && (h.Success? && SaveAll(h.value.downloadPages, download).Success? ==>
            r == SaveAll(h.value.downloadPages, download).value)
      && (h.Success? && SaveAll(h.value.downloadPages, download).Failure? ==> r == [])
    ensures HtmlPageDates(cells, parse).Success? && Iso(pubDate) !in HtmlPageDates(cells, parse).value ==> r == []
  {
    match FromHtml(cells, anchors, links, parse, pubDate)
    case Failure(_) => []
    case Success(sel) =>
      match SaveAll(sel.downloadPages, download)
      case Failure(_) => []
      case Success(files) => files
  }

  /** The RSS route of `fetch_files`: the saved enclosure, if any. */
  function RssFiles(rssFile: Result<Option<string>>): (r: seq<string>)
    ensures |r| <= 1
    ensures r != [] <==> rssFile.Success? && rssFile.value.Some?
    ensures r != [] ==> r == [rssFile.value.value]
  {
    match rssFile
    case Failure(_) => []
    case Success(f) => FileOf(f)
  }

  /** In calendar terms: `fetch_files` finds something only when the feed's
      first item is from the requested day and the channel was not updated
      after it. */
  lemma FetchFilesNeedsCalendarMatch(p: ProgramConfig, baseUri: string, channelDate: Date, itemDate: Date,
                                     cells: seq<string>, anchors: seq<string>, links: seq<string>,
                                     parse: string -> Option<Date>, download: string -> Result<Option<string>>,
                                     rssFile: Result<Option<string>>)
    requires p.pubDate.Some? && (p.apUri.Some? || p.pubTitle.Some?)
    requires ValidDate(channelDate) && ValidDate(itemDate) && ValidDate(p.pubDate.value)
    requires 0 <= channelDate.year <= 9999 && 0 <= p.pubDate.value.year <= 9999
    ensures FetchFiles(p, baseUri, Success((channelDate, itemDate)), cells, anchors, links, parse, download, rssFile) != [] ==>
      itemDate == p.pubDate.value && !Before(p.pubDate.value, channelDate)
  {
    ShowsAvailableIffCalendar(channelDate, itemDate, p.pubDate.value);
  }
}
