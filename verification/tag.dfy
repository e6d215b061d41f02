/** ID3 tag normalisation (lib/souvlaki_rs/tag.rb), over abstract tag frames:
    the TagLib file itself is replaced by the frames it holds. */
module Tag {
  import opened Wrappers
  import opened Text
  import opened Dates

  /** One ID3 frame (v1 or v2) as TagLib presents it; a year of 0 means unset. */
  datatype RawTag = RawTag(title: Option<string>, artist: Option<string>, album: Option<string>, year: int)

  /** An MPEG file: its optional ID3v1 and ID3v2 frames and its length in
      seconds when the audio properties can be read. */
  datatype AudioFile = AudioFile(v1: Option<RawTag>, v2: Option<RawTag>, length: Option<nat>)

  /** The tag hash the program passes around. */
  datatype TagRecord = TagRecord(
    title: Option<string>,
    artist: Option<string>,
    album: Option<string>,
    year: Option<int>,
    length: Option<nat>)

  // ---------------------------------------------------------------------
  // Reading

  /** A tag value as `copy_tag` leaves it: present, stripped and non-empty. */
  predicate CleanText(s: string) {
    |s| > 0 && !IsStripSpace(s[0]) && !IsStripSpace(s[|s| - 1])
  }

  /** `Tag.copy_tag`: nil and blank values become nil, anything else is
      stripped. */
  function CopyTag(tag: Option<string>): (r: Option<string>)
    ensures r.None? <==> tag.None? || forall i :: 0 <= i < |tag.value| ==> IsStripSpace(tag.value[i])
    ensures r.Some? ==> CleanText(r.value) && r.value == Strip(tag.value)
  {
    match tag
    case None => None
    case Some(t) =>
      var s := Strip(t);
      if |s| > 0 then Some(s) else None
  }

  /** A clean value passes through `copy_tag` unchanged. */
  lemma CopyTagKeepsClean(s: string)
    requires CleanText(s)
    ensures CopyTag(Some(s)) == Some(s)
  {
    assert LStrip(s) == s;
    assert RStrip(s) == s;
  }

  /** `copy_tag` is idempotent. */
  lemma CopyTagIdempotent(tag: Option<string>)
    ensures CopyTag(CopyTag(tag)) == CopyTag(tag)
  {
    if CopyTag(tag).Some? {
      CopyTagKeepsClean(CopyTag(tag).value);
    }
  }

  /** The fields read from the ID3v2 frame. */
  function FromV2(v2: Option<RawTag>): TagRecord {
    match v2
    case None => TagRecord(None, None, None, None, None)
    case Some(t) =>
      TagRecord(CopyTag(t.title), CopyTag(t.artist), CopyTag(t.album), if t.year != 0 then Some(t.year) else None, None)
  }

  /** `Tag.audio_file_read_tags`: ID3v2 wins; ID3v1 only fills a title or an
      artist that is still missing; the album comes from ID3v2 alone and the
      year only when it is set. */
  function ReadTags(f: AudioFile): (r: TagRecord)
    ensures r.album == (if f.v2.Some? then CopyTag(f.v2.value.album) else None)
    ensures r.year.Some? <==> f.v2.Some? && f.v2.value.year != 0
    ensures r.year.Some? ==> r.year.value == f.v2.value.year
    ensures f.v2.Some? && CopyTag(f.v2.value.title).Some? ==> r.title == CopyTag(f.v2.value.title)
    ensures f.v2.Some? && CopyTag(f.v2.value.artist).Some? ==> r.artist == CopyTag(f.v2.value.artist)
    ensures (f.v2.None? || CopyTag(f.v2.value.title).None?) ==>
      r.title == (if f.v1.Some? then CopyTag(f.v1.value.title) else None)
    ensures (f.v2.None? || CopyTag(f.v2.value.artist).None?) ==>
      r.artist == (if f.v1.Some? then CopyTag(f.v1.value.artist) else None)
    ensures r.length == f.length
  {
    var t := FromV2(f.v2);
    var merged :=
      if (t.title.None? || t.artist.None?) && f.v1.Some? then
        t.(title := if t.title.None? then CopyTag(f.v1.value.title) else t.title,
           artist := if t.artist.None? then CopyTag(f.v1.value.artist) else t.artist)
      else t;
    merged.(length := f.length)
  }

  /** Every text field read is clean. */
  lemma ReadTagsClean(f: AudioFile)
    ensures ReadTags(f).title.Some? ==> CleanText(ReadTags(f).title.value)
    ensures ReadTags(f).artist.Some? ==> CleanText(ReadTags(f).artist.value)
    ensures ReadTags(f).album.Some? ==> CleanText(ReadTags(f).album.value)
  {
  }

  // ---------------------------------------------------------------------
  // Writing

  /** The assignments `audio_file_write_tags` makes to one frame. */
  function WriteFrame(frame: RawTag, tags: TagRecord): (r: RawTag)
    ensures r.album == tags.album
    ensures r.artist == (if tags.artist.Some? then tags.artist else frame.artist)
    ensures r.title == (if tags.title.Some? then tags.title else frame.title)
    ensures r.year == (if tags.year.Some? then tags.year.value else frame.year)
  {
    frame.(
      album := tags.album,
      artist := if tags.artist.None? then frame.artist else tags.artist,
      title := if tags.title.None? then frame.title else tags.title,
      year := if tags.year.None? then frame.year else tags.year.value)
  }

  /** `Tag.audio_file_write_tags`: both frames are written; a file lacking
      one of them makes the assignment fail. */
  function WriteTags(f: AudioFile, tags: TagRecord): (r: Result<AudioFile>)
    ensures r.Success? <==> f.v1.Some? && f.v2.Some?
    ensures r.Success? ==> r.value.v1 == Some(WriteFrame(f.v1.value, tags))
    ensures r.Success? ==> r.value.v2 == Some(WriteFrame(f.v2.value, tags))
    ensures r.Success? ==> r.value.length == f.length
  {
    if f.v1.None? || f.v2.None? then Failure("undefined method for nil tag frame")
    else Success(f.(v1 := Some(WriteFrame(f.v1.value, tags)), v2 := Some(WriteFrame(f.v2.value, tags))))
  }

  /** Writing a complete, clean record and reading it back gives the record. */
  lemma WriteThenRead(f: AudioFile, tags: TagRecord)
    requires f.v1.Some? && f.v2.Some?
    requires tags.title.Some? && CleanText(tags.title.value)
    requires tags.artist.Some? && CleanText(tags.artist.value)
    requires tags.album.Some? && CleanText(tags.album.value)
    requires tags.year.Some? && tags.year.value != 0
    requires tags.length == f.length
    ensures WriteTags(f, tags).Success? && ReadTags(WriteTags(f, tags).value) == tags
  {
    CopyTagKeepsClean(tags.title.value);
    CopyTagKeepsClean(tags.artist.value);
    CopyTagKeepsClean(tags.album.value);
  }

  // ---------------------------------------------------------------------
  // The title rule of retag_file

  /** Characters of the class `[\sfor\-:]`. */
  predicate IsJunk(c: char) {
    IsSpace(c) || c == 'f' || c == 'o' || c == 'r' || c == '-' || c == ':'
  }

  /** The longest run of junk at the start removed. */
  function DropJunk(s: string): (r: string)
    ensures |r| <= |s| && r == s[|s| - |r|..]
    ensures forall i :: 0 <= i < |s| - |r| ==> IsJunk(s[i])
    ensures r == [] || !IsJunk(r[0])
  {
    if |s| > 0 && IsJunk(s[0]) then DropJunk(s[1..]) else s
  }

  /** A prefix of junk characters is removed whole. */
  lemma {:induction false} DropJunkPrefix(a: string, b: string)
    requires forall i :: 0 <= i < |a| ==> IsJunk(a[i])
    ensures DropJunk(a + b) == DropJunk(b)
    decreases |a|
  {
    if |a| > 0 {
      assert (a + b)[1..] == a[1..] + b;
      DropJunkPrefix(a[1..], b);
    } else {
      assert a + b == b;
    }
  }

  /** No line of `s` starts with a junk character. */
  predicate LinesClean(s: string) {
    && (|s| > 0 ==> !IsJunk(s[0]))
    && forall i :: 0 < i < |s| && s[i - 1] == '\n' ==> !IsJunk(s[i])
  }

  /** Replacing every match of the pattern `^[\sfor\-:]*` by nothing: at the start of the string and after every
      newline the longest run of junk is removed. A run may swallow newlines,
      since `\s` matches them. */
  function StripLines(s: string): (r: string)
    ensures |r| <= |s|
    ensures LinesClean(r)
    decreases |s|, 1
  {
    var d := DropJunk(s);
    var r := CopyLine(d);
    assert r == [] || r[0] == d[0];
    r
  }

  /** The rest of a line, copied, followed by the next lines stripped. */
  function CopyLine(s: string): (r: string)
    ensures |r| <= |s|
    ensures r == [] || r[0] == s[0]
    ensures forall i :: 0 < i < |r| && r[i - 1] == '\n' ==> !IsJunk(r[i])
    decreases |s|, 0
  {
    if |s| == 0 then []
    else if s[0] == '\n' then
      var t := StripLines(s[1..]);
      assert forall i :: 0 < i < |t| + 1 ==> ([s[0]] + t)[i] == t[i - 1];
      [s[0]] + t
    else
      var t := CopyLine(s[1..]);
      assert forall i :: 0 < i < |t| + 1 ==> ([s[0]] + t)[i] == t[i - 1];
      [s[0]] + t
  }

  /** A string whose lines all start clean is left alone. */
  lemma {:induction false} StripLinesKeepsClean(s: string)
    requires LinesClean(s)
    ensures StripLines(s) == s
    decreases |s|, 1
  {
    assert DropJunk(s) == s;
    CopyLineKeepsClean(s);
  }

  lemma {:induction false} CopyLineKeepsClean(s: string)
    requires forall i :: 0 < i < |s| && s[i - 1] == '\n' ==> !IsJunk(s[i])
    ensures CopyLine(s) == s
    decreases |s|, 0
  {
    if |s| > 0 {
      var t := s[1..];
      assert forall i :: 0 < i < |t| && t[i - 1] == '\n' ==> !IsJunk(t[i]) by {
        forall i | 0 < i < |t| && t[i - 1] == '\n' ensures !IsJunk(t[i]) {
          assert s[i] == t[i - 1] && s[i + 1] == t[i];
        }
      }
      if s[0] == '\n' {
        assert |t| > 0 ==> s[1] == t[0];
        StripLinesKeepsClean(t);
      } else {
        CopyLineKeepsClean(t);
      }
      assert [s[0]] + t == s;
    }
  }

  /** The trim is idempotent. */
  lemma StripLinesIdempotent(s: string)
    ensures StripLines(StripLines(s)) == StripLines(s)
  {
    StripLinesKeepsClean(StripLines(s));
  }

  /** On a single line the trim removes exactly the leading junk. */
  lemma {:induction false} CopyLineSingle(s: string)
    requires '\n' !in s
    ensures CopyLine(s) == s
    decreases |s|
  {
    if |s| > 0 {
      assert '\n' !in s[1..];
      CopyLineSingle(s[1..]);
      assert [s[0]] + s[1..] == s;
    }
  }

  lemma StripLinesSingleLine(s: string)
    requires '\n' !in s
    ensures StripLines(s) == DropJunk(s)
    ensures EndsWith(s, StripLines(s))
  {
    var d := DropJunk(s);
    assert '\n' !in d by {
      assert forall i :: 0 <= i < |d| ==> d[i] == s[|s| - |d| + i];
    }
    CopyLineSingle(d);
  }

  /** `rewritable_title?`: the title is missing, equals the show name, or looks
      like a file name. */
  predicate RewritableTitle(title: Option<string>, album: string) {
    || title.None?
    || title.value == album
    || (|title.value| > 0 && Contains(Downcase(title.value), "mp3"))
  }

  /** The three cases the source's tests check. */
  lemma RewritableTitleExamples()
    ensures RewritableTitle(None, "album title")
    ensures RewritableTitle(Some("some-file.mp3"), "album title")
    ensures !RewritableTitle(Some("Some title"), "album title")
  {
    var f := "some-file.mp3";
    assert Downcase(f) == f;
    assert OccursAt(Downcase(f), "mp3", 10);
    var d := Downcase("Some title");
    assert d == "some title";
    MissingCharNotContained(d, "mp3", 1);
  }

  /** The title `retag_file` settles on. */
  function NewTitle(title: Option<string>, album: string, pubDate: Date, rewrite: bool): (r: Option<string>)
    ensures rewrite || RewritableTitle(title, album) ==> r == Some(Compact(pubDate) + " " + album)
    ensures !rewrite && !RewritableTitle(title, album) && StartsWith(Downcase(title.value), Downcase(album)) ==>
      |album| <= |title.value| && r == Some(StripLines(title.value[|album|..]))
    ensures !rewrite && !RewritableTitle(title, album) && !StartsWith(Downcase(title.value), Downcase(album)) ==>
      r == title
  {
    if rewrite || RewritableTitle(title, album) then Some(Compact(pubDate) + " " + album)
    else if StartsWith(Downcase(title.value), Downcase(album)) then Some(StripLines(title.value[|album|..]))
    else title
  }

  /** A rewritten title is the eight-digit date, a space and the show name,
      for four-digit years. */
  lemma RewrittenTitleShape(title: Option<string>, album: string, d: Date, rewrite: bool)
    requires rewrite || RewritableTitle(title, album)
    requires 0 <= d.year <= 9999 && ValidDate(d)
    ensures var t := NewTitle(title, album, d, rewrite).value;
      |t| == 9 + |album| && t[..8] == Compact(d) && t[8] == ' ' && t[9..] == album
  {
    DigitsLength(d.year, 4);
    DigitsLength(d.month, 2);
    DigitsLength(d.day, 2);
  }

  /** A single-line title that starts with the show name keeps a suffix of
      itself that does not start with junk. */
  lemma TrimmedTitleIsSuffix(title: string, album: string, d: Date)
    requires !RewritableTitle(Some(title), album) && '\n' !in title
    requires StartsWith(Downcase(title), Downcase(album))
    ensures var t := NewTitle(Some(title), album, d, false).value;
      EndsWith(title, t) && |t| <= |title| - |album| && (t == [] || !IsJunk(t[0]))
  {
    var rest := title[|album|..];
    assert '\n' !in rest;
    StripLinesSingleLine(rest);
    var t := StripLines(rest);
    assert NewTitle(Some(title), album, d, false) == Some(t);
    assert title[|title| - |t|..] == rest[|rest| - |t|..];
  }

  /** A title made of the show name, a run of junk and a single line of
      text keeps just that line. The junk is a character class, not a word,
      so "My Show - fresh" keeps only "esh". */
  lemma TrimmedTitleDropsJunk(title: string, album: string, junk: string, rest: string, d: Date)
    requires !RewritableTitle(Some(title), album) && StartsWith(Downcase(title), Downcase(album))
    requires |album| <= |title| && title[|album|..] == junk + rest
    requires forall i :: 0 <= i < |junk| ==> IsJunk(junk[i])
    requires '\n' !in rest && (rest == [] || !IsJunk(rest[0]))
    ensures NewTitle(Some(title), album, d, false) == Some(rest)
  {
    DropJunkPrefix(junk, rest);
    assert DropJunk(rest) == rest;
    CopyLineSingle(rest);
  }

  // ---------------------------------------------------------------------
  // retag_file

  /** The tag record `retag_file` computes from the tags read: the title rule,
      then artist, album and year forced to the program's. */
  function RetagTags(tags: TagRecord, album: string, artist: string, pubDate: Date, rewrite: bool): (r: TagRecord)
    ensures r.title == NewTitle(tags.title, album, pubDate, rewrite)
    ensures r.artist == Some(artist) && r.album == Some(album) && r.year == Some(pubDate.year)
    ensures r.length == tags.length
  {
    tags.(title := NewTitle(tags.title, album, pubDate, rewrite),
          artist := Some(artist), album := Some(album), year := Some(pubDate.year))
  }

  /** `Tag.retag_file`: read, retag, and write back when asked to; the result
      is the new tag record and the file afterwards. */
  function RetagFile(f: AudioFile, album: string, artist: string, pubDate: Date, writeTags: bool, rewrite: bool)
    : (r: Result<(TagRecord, AudioFile)>)
    ensures r.Success? <==> !writeTags || (f.v1.Some? && f.v2.Some?)
    ensures r.Success? ==> r.value.0 == RetagTags(ReadTags(f), album, artist, pubDate, rewrite)
    ensures r.Success? && !writeTags ==> r.value.1 == f
    ensures r.Success? && writeTags ==> r.value.1 == WriteTags(f, r.value.0).value
  {
    var tags := RetagTags(ReadTags(f), album, artist, pubDate, rewrite);
    if !writeTags then Success((tags, f))
    else match WriteTags(f, tags)
      case Success(g) => Success((tags, g))
      case Failure(e) => Failure(e)
  }

  /** After a written retag, both frames carry the program's artist, album
      and year, and the title the rule chose. */
  lemma RetagFileWritesFrames(f: AudioFile, album: string, artist: string, pubDate: Date, rewrite: bool)
    requires RetagFile(f, album, artist, pubDate, true, rewrite).Success?
    ensures var g := RetagFile(f, album, artist, pubDate, true, rewrite).value.1;
      && g.v1.Some? && g.v2.Some?
      && g.v2.value.artist == Some(artist) && g.v2.value.album == Some(album)
      && g.v2.value.year == pubDate.year
      && g.v1.value.artist == Some(artist) && g.v1.value.album == Some(album)
      && g.v1.value.year == pubDate.year
      && (NewTitle(ReadTags(f).title, album, pubDate, rewrite).Some? ==>
            g.v2.value.title == NewTitle(ReadTags(f).title, album, pubDate, rewrite))
  {
  }

  // ---------------------------------------------------------------------
  // retag_user_file

  /** The title ends in ".mp3", in any case. */
  predicate LooksLikeFileName(title: string) {
    EndsWith(Downcase(title), ".mp3")
  }

  /** `title[0..-4]` as written: the last three characters are dropped. */
  function DropExtensionAsWritten(title: string): (r: string)
    requires LooksLikeFileName(title)
    ensures |r| == |title| - 3 && title == r + title[|r|..]
  {
    title[..|title| - 3]
  }

  /** The extension removal the comment describes: the four characters of
      ".mp3" are dropped. */
  function DropExtension(title: string): (r: string)
    requires LooksLikeFileName(title)
    ensures |r| == |title| - 4
    ensures title == r + title[|r|..] && Downcase(title[|r|..]) == ".mp3"
  {
    var r := title[..|title| - 4];
    assert Downcase(title[|r|..]) == Downcase(title)[|r|..];
    r
  }

  /** As written, a file-name title keeps the dot of its extension. */
  lemma DropExtensionAsWrittenKeepsDot()
    ensures LooksLikeFileName("show.mp3") && DropExtensionAsWritten("show.mp3") == "show."
    ensures DropExtension("show.mp3") == "show"
  {
    assert Downcase("show.mp3") == "show.mp3";
  }

  /** Appending ".mp3" and removing it again gives the title back. */
  lemma DropExtensionRoundTrip(title: string)
    ensures LooksLikeFileName(title + ".mp3") && DropExtension(title + ".mp3") == title
  {
    var t := title + ".mp3";
    assert Downcase(t)[|t| - 4..] == Downcase(".mp3");
    assert Downcase(".mp3") == ".mp3";
  }

  /** The title change of `retag_user_file`, as written. */
  function UserTitleAsWritten(title: string): (r: string)
    ensures LooksLikeFileName(title) ==> |r| == |title| - 3 && title == r + title[|r|..]
    ensures !LooksLikeFileName(title) ==> r == title
  {
    if LooksLikeFileName(title) then DropExtensionAsWritten(title) else title
  }

  /** `Tag.retag_user_file` with the extension removed as intended: nil for a
      missing title; otherwise a file-name title loses ".mp3", the artist is
      replaced when one is given, and the album is forced. */
  function RetagUserFile(tags: TagRecord, album: string, artist: Option<string>): (r: Option<TagRecord>)
    ensures r.None? <==> tags.title.None?
    ensures r.Some? && LooksLikeFileName(tags.title.value) ==>
      && r.value.title.Some?
      && |r.value.title.value| == |tags.title.value| - 4
      && tags.title.value == r.value.title.value + tags.title.value[|tags.title.value| - 4..]
    ensures r.Some? && !LooksLikeFileName(tags.title.value) ==> r.value.title == tags.title
    ensures r.Some? ==> r.value.artist == (if artist.Some? then artist else tags.artist)
    ensures r.Some? ==> r.value.album == Some(album)
    ensures r.Some? ==> r.value.year == tags.year && r.value.length == tags.length
  {
    if tags.title.None? then None
    else
      var t := tags.title.value;
      var title := if LooksLikeFileName(t) then DropExtension(t) else t;
      Some(tags.(title := Some(title), artist := if artist.Some? then artist else tags.artist, album := Some(album)))
  }

  /** `Tag.retag_user_file` as written: the same record change, with the
      title cut by `title[0..-4]`. */
  function RetagUserFileAsWritten(tags: TagRecord, album: string, artist: Option<string>): (r: Option<TagRecord>)
    ensures r.None? <==> tags.title.None?
    ensures r.Some? ==> r.value.title == Some(UserTitleAsWritten(tags.title.value))
    ensures r.Some? ==> r.value.artist == (if artist.Some? then artist else tags.artist)
    ensures r.Some? ==> r.value.album == Some(album) && r.value.year == tags.year && r.value.length == tags.length
  {
    if tags.title.None? then None
    else
      var title := UserTitleAsWritten(tags.title.value);
      Some(tags.(title := Some(title), artist := if artist.Some? then artist else tags.artist, album := Some(album)))
  }

  /** The two versions agree on everything except a file-name title, where
      the as-written one keeps the extension's dot: its title is the
      corrected title followed by ".". */
  lemma RetagUserFileKeepsDot(tags: TagRecord, album: string, artist: Option<string>)
    ensures RetagUserFileAsWritten(tags, album, artist).None? <==> RetagUserFile(tags, album, artist).None?
    ensures tags.title.Some? && LooksLikeFileName(tags.title.value) ==>
      RetagUserFileAsWritten(tags, album, artist).value.title.value
        == RetagUserFile(tags, album, artist).value.title.value + "."
    ensures tags.title.Some? && !LooksLikeFileName(tags.title.value) ==>
      RetagUserFileAsWritten(tags, album, artist) == RetagUserFile(tags, album, artist)
  {
    if tags.title.Some? && LooksLikeFileName(tags.title.value) {
      var t := tags.title.value;
      var n := |t|;
      assert Downcase(t)[n - 4] == '.';
      assert Lower(t[n - 4]) == '.';
      assert t[n - 4] == '.';
      assert t[..n - 3] == t[..n - 4] + [t[n - 4]];
    }
  }
}
