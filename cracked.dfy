/**
 * The Cracked.com video extractor: one page gives either a bare reference to an embedded YouTube video
 * or a single video record assembled from ordered pattern chains and normalised optional fields.
 */
module Cracked {
  import opened Wrappers
  import opened Text
  import opened Utils
  import opened Calendar
  import opened Info
  import opened Search

  /** The month, day and year groups of the "date-published" list item. */
  datatype DateParts = DateParts(month: string, day: string, year: string)

  /**
   * Everything the extractor consults on a page: one matcher per regular expression it searches with,
   * and the helpers it calls whose code is not part of this model.
   */
  datatype Env = Env(
    youtubeUrl: Matcher,                        // YoutubeIE._extract_url
    ckVidSrc: Matcher,                          // var CK_vidSrc = "..."
    videoSrc: Matcher,                          // <video src="...">
    ogTitle: Matcher,                           // property="og:title" content="..."
    titleClass: Matcher,                        // class="title">...
    description: Matcher,                       // name="description" content="..."
    isoDate: Matcher,                           // "date": "..."
    datePublished: string -> Option<DateParts>, // <li class="date-published">Month Day, Year</li>
    viewCounts: Matcher,                        // <span class="views" id="viewCounts">... Views</span>
    commentCounts: Matcher,                     // <span id="commentCounts">...</
    cleanHtml: string -> string,                // clean_html(...).strip()
    parseIso8601: string -> Option<int>)        // parse_iso8601

  /** Why an extraction aborts: a required field was not found, or `datetime.date` rejected a date. */
  datatype Error = RegexNotFound(field: string) | InvalidDate(date: Date)

  /** The info dictionary of a Cracked-hosted video. */
  datatype Video = Video(
    id: string,
    url: string,
    title: string,
    description: Option<string>,
    timestamp: Option<int>,
    viewCount: Option<nat>,
    commentCount: Option<nat>,
    height: Option<nat>,
    width: Option<nat>)

  datatype Extracted = Reference(ref: UrlResult) | Single(video: Video)

  // ---------------------------------------------------------------------------------------------
  // _parse_us_time

  const MonthToInt: map<string, int> := map[
    "January" := 1, "February" := 2, "March" := 3, "April" := 4, "May" := 5, "June" := 6,
    "July" := 7, "August" := 8, "September" := 9, "October" := 10, "November" := 11, "December" := 12]

  const MonthNames: seq<string> := [
    "January", "February", "March", "April", "May", "June",
    "July", "August", "September", "October", "November", "December"]

  /** The month table maps exactly the twelve capitalised English month names one-to-one onto 1..12. */
  lemma MonthTableIsBijection()
    ensures forall name :: name in MonthToInt <==> name in MonthNames
    ensures forall k :: 0 <= k < |MonthNames| ==> MonthNames[k] in MonthToInt && MonthToInt[MonthNames[k]] == k + 1
    ensures forall a, b :: a in MonthToInt && b in MonthToInt && MonthToInt[a] == MonthToInt[b] ==> a == b
  {
    MonthNamesInOrder();
    MonthKeysListed();
    forall a, b | a in MonthToInt && b in MonthToInt && MonthToInt[a] == MonthToInt[b]
      ensures a == b
    {
      var i :| 0 <= i < |MonthNames| && MonthNames[i] == a;
      var j :| 0 <= j < |MonthNames| && MonthNames[j] == b;
    }
  }

  // The two halves of the table check, kept apart so that each stays small for the solver.

  lemma MonthNamesInOrder()
    ensures forall k :: 0 <= k < |MonthNames| ==> MonthNames[k] in MonthToInt && MonthToInt[MonthNames[k]] == k + 1
  {
  }

  lemma MonthKeysListed()
    ensures forall name :: name in MonthToInt <==> name in MonthNames
  {
  }

  /** A decimal that `int_or_none` reads and that is truthy, i.e. not zero. */
  predicate PositiveDecimal(s: string) {
    IntOrNone(s).Some? && IntOrNone(s).value > 0
  }

  /** The three strings pass the test `if m and d and y`. */
  predicate UsDateRecognised(month: string, day: string, year: string) {
    month in MonthToInt && PositiveDecimal(day) && PositiveDecimal(year)
  }

  function UsDate(month: string, day: string, year: string): (d: Date)
    requires UsDateRecognised(month, day, year)
    ensures 1 <= d.month <= 12 && d.day > 0 && d.year > 0
  {
    Date(IntOrNone(year).value, MonthToInt[month], IntOrNone(day).value)
  }

  /**
   * `_parse_us_time(month, day, year)`: `None` unless the month is in the table and day and year are
   * non-zero decimals; otherwise midnight UTC of that date, or the `ValueError` of `datetime.date`.
   */
  function ParseUsTime(month: string, day: string, year: string): (r: Result<Option<int>, Error>)
    ensures r == Ok(None) <==> !UsDateRecognised(month, day, year)
    ensures r.Err? <==> UsDateRecognised(month, day, year) && !ValidDate(UsDate(month, day, year))
    ensures r.Err? ==> r.error == InvalidDate(UsDate(month, day, year))
    ensures r.Ok? && r.value.Some? ==>
      ValidDate(UsDate(month, day, year)) && r.value.value == MidnightUtc(UsDate(month, day, year))
  {
    var m := if month in MonthToInt then MonthToInt[month] else 0;
    var d := IntOrNone(day);
    var y := IntOrNone(year);
    if m != 0 && d.Some? && d.value != 0 && y.Some? && y.value != 0 then
      var date := Date(y.value, m, d.value);
      if ValidDate(date) then Ok(Some(MidnightUtc(date))) else Err(InvalidDate(date))
    else Ok(None)
  }

  /** The upload date of the first test page: July 10, 2014 is 1404950400. */
  lemma ParseUsTimeExample()
    ensures ParseUsTime("July", "10", "2014") == Ok(Some(1404950400))
  {
    assert DecimalValue("10") == 10 by {
      assert "10"[..1] == "1";
    }
    assert DecimalValue("2014") == 2014 by {
      assert "2014"[..3] == "201";
      assert "201"[..2] == "20";
      assert "20"[..1] == "2";
    }
    assert UsDate("July", "10", "2014") == Date(2014, 7, 10);
    assert DaysBeforeYear(2014) == 16071;
    assert DaysBeforeMonth(2014, 7) == 181;
    assert MidnightUtc(Date(2014, 7, 10)) == 16261 * SecondsPerDay;
  }

  /** Month names are matched exactly: a lower-case name or a zero day gives no timestamp. */
  lemma ParseUsTimeRejects()
    ensures ParseUsTime("july", "10", "2014") == Ok(None)
    ensures ParseUsTime("July", "0", "2014") == Ok(None)
  {
    assert "july" !in MonthToInt;
    assert DecimalValue("0") == 0 by {
      assert "0"[..0] == "";
    }
  }

  /** A day the month does not have makes `datetime.date` raise, which aborts the extraction. */
  lemma ParseUsTimeInvalidDay()
    ensures ParseUsTime("February", "30", "2014") == Err(InvalidDate(Date(2014, 2, 30)))
  {
    assert DecimalValue("30") == 30 by {
      assert "30"[..1] == "3";
    }
    assert DecimalValue("2014") == 2014 by {
      assert "2014"[..3] == "201";
      assert "201"[..2] == "20";
      assert "20"[..1] == "2";
    }
    assert UsDate("February", "30", "2014") == Date(2014, 2, 30);
  }

  // ---------------------------------------------------------------------------------------------
  // The dimension suffix `_(?P<width>\d+)X(?P<height>\d+)\.mp4$`

  /**
   * `url` has the shape `p + "_" + a + "X" + b + ".mp4"`, with `a` and `b` non-empty digit runs;
   * `$` also matches just before one final newline.
   */
  predicate DimensionShape(url: string, p: string, a: string, b: string) {
    && a != "" && AllDigits(a)
    && b != "" && AllDigits(b)
    && (url == p + "_" + a + "X" + b + ".mp4" || url == p + "_" + a + "X" + b + ".mp4\n")
  }

  /** What `$` lets the pattern end at: the end of `url`, or just before one final newline. */
  function StripFinalNewline(url: string): (s: string)
    ensures url == s || url == s + "\n"
  {
    if EndsWith(url, "\n") then url[..|url| - 1] else url
  }

  /** `t` split as `p + [sep] + digits` with a non-empty trailing digit run, if it has that form. */
  function SplitDigitsAfter(t: string, sep: char): (r: Option<(string, string)>)
    ensures r.Some? ==> t == r.value.0 + [sep] + r.value.1 && r.value.1 != "" && AllDigits(r.value.1)
  {
    var k := TrailingDigits(t);
    if k == 0 || k == |t| || t[|t| - k - 1] != sep then None
    else
      assert t == t[..|t| - k - 1] + [sep] + t[|t| - k..];
      Some((t[..|t| - k - 1], t[|t| - k..]))
  }

  lemma SplitDigitsAfterOf(p: string, sep: char, a: string)
    requires !IsDigit(sep) && a != "" && AllDigits(a)
    ensures SplitDigitsAfter(p + [sep] + a, sep) == Some((p, a))
  {
    var t := p + [sep] + a;
    TrailingDigitsAfter(p, sep, a);
    assert t[..|t| - |a| - 1] == p;
    assert t[|t| - |a|..] == a;
  }

  /**
   * The width and height the suffix gives, or `None` when the video URL has no such suffix. Dimensions come
   * only from a URL of the suffix shape, and are then the values of its two digit runs.
   */
  function DimensionSuffix(url: string): (r: Option<(nat, nat)>)
    ensures r.Some? ==> exists p, a, b :: DimensionShape(url, p, a, b) && r == Some((DecimalValue(a), DecimalValue(b)))
  {
    var s := StripFinalNewline(url);
    if !EndsWith(s, ".mp4") then None
    else
      var t := s[..|s| - 4];
      match SplitDigitsAfter(t, 'X')
      case None => None
      case Some((u, height)) =>
        match SplitDigitsAfter(u, '_')
        case None => None
        case Some((p, width)) =>
          assert s == t + ".mp4";
          assert s == p + "_" + width + "X" + height + ".mp4";
          assert DimensionShape(url, p, width, height);
          Some((DecimalValue(width), DecimalValue(height)))
  }

  /** Every URL of the suffix shape yields the decimal values of its two digit runs. */
  lemma DimensionSuffixComplete(url: string, p: string, a: string, b: string)
    requires DimensionShape(url, p, a, b)
    ensures DimensionSuffix(url) == Some((DecimalValue(a), DecimalValue(b)))
  {
    var t := (p + "_" + a) + ['X'] + b;
    var s := t + ".mp4";
    assert p + "_" + a + "X" + b + ".mp4" == s;
    assert s[|s| - 1] == '4';
    assert StripFinalNewline(url) == s by {
      if url != s {
        assert url == s + "\n";
        assert url[..|url| - 1] == s;
      }
    }
    assert s[..|s| - 4] == t;
    assert EndsWith(s, ".mp4");
    SplitDigitsAfterOf(p + "_" + a, 'X', b);
    assert p + "_" + a == p + ['_'] + a;
    SplitDigitsAfterOf(p, '_', a);
  }

  // ---------------------------------------------------------------------------------------------
  // The fields of _real_extract

  function VideoUrl(webpage: string, env: Env): Option<string> {
    HtmlSearchRegex(webpage, [env.ckVidSrc, env.videoSrc], env.cleanHtml)
  }

  function Title(webpage: string, env: Env): Option<string> {
    SearchRegex(webpage, [env.ogTitle, env.titleClass])
  }

  /** The `"date"` capture, cleaned; it decides the timestamp whenever it is non-empty. */
  function IsoDate(webpage: string, env: Env): Option<string> {
    HtmlSearchRegex(webpage, [env.isoDate], env.cleanHtml)
  }

  /**
   * The timestamp: `parse_iso8601` of the `"date"` capture without its last six characters when that capture
   * is non-empty (whatever the parse gives), otherwise the "Month Day, Year" fallback, otherwise absent.
   */
  function UploadTimestamp(webpage: string, env: Env): (r: Result<Option<int>, Error>)
    ensures Captured(IsoDate(webpage, env)) ==> r == Ok(env.parseIso8601(DropLast(IsoDate(webpage, env).value, 6)))
    ensures !Captured(IsoDate(webpage, env)) && env.datePublished(webpage).None? ==> r == Ok(None)
    ensures !Captured(IsoDate(webpage, env)) && env.datePublished(webpage).Some? ==>
      var parts := env.datePublished(webpage).value;
      r == ParseUsTime(parts.month, parts.day, parts.year)
  {
    var iso := IsoDate(webpage, env);
    if Captured(iso) then Ok(env.parseIso8601(DropLast(iso.value, 6)))
    else match env.datePublished(webpage)
      case None => Ok(None)
      case Some(parts) => ParseUsTime(parts.month, parts.day, parts.year)
  }

  /**
   * Once the `"date"` field is found, the "Month Day, Year" item is never consulted, even when
   * `parse_iso8601` gives `None`.
   */
  lemma IsoDateSuppressesFallback(webpage: string, env: Env, other: string -> Option<DateParts>)
    requires Captured(IsoDate(webpage, env))
    ensures UploadTimestamp(webpage, env.(datePublished := other)) == UploadTimestamp(webpage, env)
  {
  }

  /** Without a non-empty `"date"` field, the ISO parser is never consulted. */
  lemma FallbackIgnoresIsoParser(webpage: string, env: Env, other: string -> Option<int>)
    requires !Captured(IsoDate(webpage, env))
    ensures UploadTimestamp(webpage, env.(parseIso8601 := other)) == UploadTimestamp(webpage, env)
  {
  }

  /** The value the variable `timestamp` holds after the selection as the code is written. */
  datatype TimestampValue = Seconds(seconds: int) | Raw(text: string)

  function AsSeconds(t: Option<int>): Option<TimestampValue> {
    match t
    case None => None
    case Some(n) => Some(Seconds(n))
  }

  /**
   * The timestamp selection exactly as written: when the `"date"` capture cleans to the empty string and
   * there is no "Month Day, Year" item, `timestamp` is left holding that empty string.
   */
  function UploadTimestampAsWritten(webpage: string, env: Env): (r: Result<Option<TimestampValue>, Error>)
    ensures r.Ok? && r.value.Some? && r.value.value.Raw? ==>
      r.value.value.text == "" && IsoDate(webpage, env) == Some("") && env.datePublished(webpage).None?
    ensures IsoDate(webpage, env) == Some("") && env.datePublished(webpage).None? ==> r == Ok(Some(Raw("")))
  {
    var iso := IsoDate(webpage, env);
    if Captured(iso) then Ok(AsSeconds(env.parseIso8601(DropLast(iso.value, 6))))
    else match env.datePublished(webpage)
      case Some(parts) =>
        (match ParseUsTime(parts.month, parts.day, parts.year)
         case Ok(t) => Ok(AsSeconds(t))
         case Err(e) => Err(e))
      case None =>
        Ok(match iso
           case None => None
           case Some(text) => Some(Raw(text)))
  }

  /** A page whose `"date"` value is blank and that has no date-published item. */
  function BlankDatePage(): Env {
    Env(
      youtubeUrl := _ => None, ckVidSrc := _ => None, videoSrc := _ => None,
      ogTitle := _ => None, titleClass := _ => None, description := _ => None,
      isoDate := _ => Some(" "), datePublished := _ => None,
      viewCounts := _ => None, commentCounts := _ => None,
      cleanHtml := _ => "", parseIso8601 := _ => None)
  }

  /** As written, a blank `"date"` value ends up as the timestamp `''`; the corrected selection gives `None`. */
  lemma TimestampAsWrittenKeepsBlank()
    ensures UploadTimestampAsWritten("", BlankDatePage()) == Ok(Some(Raw("")))
    ensures UploadTimestamp("", BlankDatePage()) == Ok(None)
  {
  }

  /**
   * The corrected selection agrees with the code as written everywhere except where the written code
   * leaves text in `timestamp`, which happens only for a blank `"date"` value with no fallback item.
   */
  lemma UploadTimestampCorrectsAsWritten(webpage: string, env: Env)
    ensures match UploadTimestampAsWritten(webpage, env)
      case Ok(Some(Raw(text))) =>
        && text == "" && IsoDate(webpage, env) == Some("") && env.datePublished(webpage).None?
        && UploadTimestamp(webpage, env) == Ok(None)
      case Ok(Some(Seconds(n))) => UploadTimestamp(webpage, env) == Ok(Some(n))
      case Ok(None) => UploadTimestamp(webpage, env) == Ok(None)
      case Err(e) => UploadTimestamp(webpage, env) == Err(e)
  {
  }

  /** Absent optional matches never abort; only the video URL, the title and an impossible date do. */
  function VideoRecord(videoId: string, webpage: string, env: Env): (r: Result<Video, Error>)
    ensures r.Err? <==> VideoUrl(webpage, env).None? || Title(webpage, env).None? || UploadTimestamp(webpage, env).Err?
    ensures VideoUrl(webpage, env).None? ==> r == Err(RegexNotFound("video URL"))
    ensures VideoUrl(webpage, env).Some? && Title(webpage, env).None? ==> r == Err(RegexNotFound("title"))
    ensures VideoUrl(webpage, env).Some? && Title(webpage, env).Some? && UploadTimestamp(webpage, env).Err? ==>
      r == Err(UploadTimestamp(webpage, env).error)
    ensures r.Ok? ==>
      && r.value.id == videoId
      && Some(r.value.url) == VideoUrl(webpage, env)
      && Some(r.value.title) == Title(webpage, env)
      && r.value.description == SearchRegex(webpage, [env.description])
      && Ok(r.value.timestamp) == UploadTimestamp(webpage, env)
      && r.value.viewCount == StrToInt(HtmlSearchRegex(webpage, [env.viewCounts], env.cleanHtml))
      && r.value.commentCount == StrToInt(HtmlSearchRegex(webpage, [env.commentCounts], env.cleanHtml))
    ensures r.Ok? ==> (r.value.width.Some? <==> r.value.height.Some?)
    ensures r.Ok? ==> (r.value.width.Some? <==> DimensionSuffix(r.value.url).Some?)
    ensures r.Ok? && r.value.width.Some? ==> DimensionSuffix(r.value.url) == Some((r.value.width.value, r.value.height.value))
  {
    match VideoUrl(webpage, env)
    case None => Err(RegexNotFound("video URL"))
    case Some(videoUrl) =>
      match Title(webpage, env)
      case None => Err(RegexNotFound("title"))
      case Some(title) =>
        var description := SearchRegex(webpage, [env.description]);
        match UploadTimestamp(webpage, env)
        case Err(e) => Err(e)
        case Ok(timestamp) =>
          var viewCount := StrToInt(HtmlSearchRegex(webpage, [env.viewCounts], env.cleanHtml));
          var commentCount := StrToInt(HtmlSearchRegex(webpage, [env.commentCounts], env.cleanHtml));
          var dims := DimensionSuffix(videoUrl);
          var width := if dims.Some? then Some(dims.value.0) else None;
          var height := if dims.Some? then Some(dims.value.1) else None;
          Ok(Video(videoId, videoUrl, title, description, timestamp, viewCount, commentCount, height, width))
  }

  /** `_real_extract`: a YouTube embed short-circuits to a bare reference; otherwise the video record. */
  function Extract(videoId: string, webpage: string, env: Env): (r: Result<Extracted, Error>)
    ensures Captured(env.youtubeUrl(webpage)) ==>
      r == Ok(Reference(UrlResult(env.youtubeUrl(webpage).value, Some("Youtube"))))
    ensures !Captured(env.youtubeUrl(webpage)) ==>
      match VideoRecord(videoId, webpage, env)
      case Ok(v) => r == Ok(Single(v))
      case Err(e) => r == Err(e)
  {
    var youtubeUrl := env.youtubeUrl(webpage);
    if Captured(youtubeUrl) then Ok(Reference(UrlResult(youtubeUrl.value, Some("Youtube"))))
    else
      match VideoRecord(videoId, webpage, env)
      case Ok(v) => Ok(Single(v))
      case Err(e) => Err(e)
  }

  /** With a YouTube embed on the page no other pattern is consulted: the other matchers are irrelevant. */
  lemma YoutubeEmbedIgnoresRest(videoId: string, webpage: string, env: Env, env': Env)
    requires Captured(env.youtubeUrl(webpage)) && env'.youtubeUrl == env.youtubeUrl
    ensures Extract(videoId, webpage, env') == Extract(videoId, webpage, env)
  {
  }

  /** The first video URL pattern wins over the second whenever it matches with a non-empty capture. */
  lemma VideoUrlPrefersCkVidSrc(webpage: string, env: Env)
    requires Captured(env.ckVidSrc(webpage))
    ensures VideoUrl(webpage, env) == Some(env.cleanHtml(env.ckVidSrc(webpage).value))
  {
    assert FirstMatching(webpage, [env.ckVidSrc, env.videoSrc], 0);
  }

  /** The og:title pattern wins over the `class="title"` pattern whenever it matches. */
  lemma TitlePrefersOgTitle(webpage: string, env: Env)
    requires env.ogTitle(webpage).Some?
    ensures Title(webpage, env) == env.ogTitle(webpage)
  {
    assert FirstMatching(webpage, [env.ogTitle, env.titleClass], 0);
  }

  /** A page without any title pattern fails with the field name "title" and gives no record. */
  lemma MissingTitleFails(videoId: string, webpage: string, env: Env)
    requires !Captured(env.youtubeUrl(webpage)) && VideoUrl(webpage, env).Some?
    requires env.ogTitle(webpage).None? && env.titleClass(webpage).None?
    ensures Extract(videoId, webpage, env) == Err(RegexNotFound("title"))
  {
  }
}
