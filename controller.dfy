/** The downloader window's state and the handlers that change it: typing a URL
    (`on_url_change`), the delayed automatic analysis (`auto_analyze`), the
    Analyze button (`analyze_video`), the end of the background analysis
    (`fetch_video_formats`), the settings menus and the Download button
    (`start_download`). Dialog answers are parameters; the 3-second timers are a
    queue of scheduled URLs that fire in the order they were armed. */
module Controller {
  import opened Wrappers
  import opened Text
  import opened YouTubeUrl
  import opened Catalog
  import opened Negotiation
  import opened Selector
  import opened Settings

  /** `video_info` */
  datatype VideoInfo = VideoInfo(title: string, duration: int, uploader: string, audioFormats: seq<AudioFormat>)

  /** What `extract_info` returned; absent keys are `None`. */
  datatype ExtractorInfo = ExtractorInfo(
    title: Option<string>,
    duration: Option<int>,
    uploader: Option<string>,
    formats: Option<seq<RawFormat>>)

  /** How the background analysis ended. */
  datatype FetchOutcome = Extracted(info: ExtractorInfo) | MissingLibrary | ExtractionFailed

  function OrElse<T>(o: Option<T>, default: T): T
  {
    match o
    case Some(v) => v
    case None => default
  }

  /** `info.get('formats', [])` */
  function FormatsOf(info: ExtractorInfo): seq<RawFormat>
  {
    OrElse(info.formats, [])
  }

  /** The `video_info` record: the extractor's title, duration and uploader with
      the defaults of `info.get`, and the given audio list. */
  function InfoWith(info: ExtractorInfo, audio: seq<AudioFormat>): VideoInfo
  {
    VideoInfo(OrElse(info.title, "No title"), OrElse(info.duration, 0), OrElse(info.uploader, "Unknown"), audio)
  }

  /** The `video_info` record built from the extractor's answer. */
  function InfoOf(info: ExtractorInfo): VideoInfo
  {
    InfoWith(info, AudioEntries(FormatsOf(info)))
  }

  // ---------------------------------------------------------------------------
  // The decisions of the handlers
  // ---------------------------------------------------------------------------

  /** `on_url_change` clears the analysis and arms a timer only for a stripped
      URL that is a normal video and differs from the analysed one. */
  predicate Resets(url: string, currentUrl: string)
  {
    url != "" && Classify(url) == NormalVideo && url != currentUrl
  }

  const PlaylistVideoWarning: string := "\U{26A0}\U{FE0F} Playlist URL detected. Only the individual video will be downloaded."

  /** The warning for a category other than a normal video: the soft (orange)
      one for a video in a playlist, a red one naming the category otherwise. */
  function WarningFor(kind: UrlKind): (warning: string)
    requires kind != NormalVideo
    ensures kind == VideoInPlaylist <==> warning == PlaylistVideoWarning
    ensures kind != VideoInPlaylist ==> StartsWith(warning, Cross)
  {
    match kind
    case VideoInPlaylist => PlaylistVideoWarning
    case Playlist => Cross + "Playlists not supported. Use individual video URL."
    case Shorts => Cross + "YouTube Shorts not supported. Use normal video URL."
    case Live => Cross + "Live streams not supported."
    case Channel => Cross + "Channel URLs not supported. Use video URL."
    case Unknown => Cross + "URL not recognized. Use format: youtube.com/watch?v=..."
  }

  /** The warning `on_url_change` shows under the field for a stripped URL:
      none for an empty field or a normal video. */
  function UrlWarning(url: string): (warning: Option<string>)
    ensures warning.None? <==> url == "" || Classify(url) == NormalVideo
  {
    if url == "" then None
    else
      var kind := Classify(url);
      if kind == NormalVideo then None else Some(WarningFor(kind))
  }

  /** The catalog, the info and the armed timers after `on_url_change` saw the
      stripped URL `url`. */
  function AfterUrlChange(url: string, currentUrl: string, formats: Catalog, info: Option<VideoInfo>,
                          scheduled: seq<string>): (Catalog, Option<VideoInfo>, seq<string>)
  {
    if Resets(url, currentUrl) then ([], None, scheduled + [url]) else (formats, info, scheduled)
  }

  /** `url` is a video link carrying a playlist, which `analyze_video` cleans. */
  predicate InPlaylist(url: string)
  {
    url != "" && Classify(url) == VideoInPlaylist
  }

  /** Every URL of `urls` is a plain video URL. */
  predicate AllVideos(urls: seq<string>)
  {
    forall k :: 0 <= k < |urls| ==> Classify(urls[k]) == NormalVideo
  }

  /** `auto_analyze(url)` analyses only when the field, stripped, still holds the
      scheduled URL and that URL is a video. */
  predicate ShouldAutoAnalyze(scheduledUrl: string, field: string)
  {
    field == scheduledUrl && (Classify(scheduledUrl) == NormalVideo || Classify(scheduledUrl) == VideoInPlaylist)
  }

  /** The URL `analyze_video` hands to the background analysis, if any. */
  function AnalysisTarget(url: string): (target: Option<string>)
    ensures target.Some? <==> url != "" && (Classify(url) == NormalVideo || Classify(url) == VideoInPlaylist)
    ensures target.Some? ==> Classify(target.value) == NormalVideo
    ensures target.Some? && Classify(url) == NormalVideo ==> target.value == url
    ensures target.Some? && Classify(url) == VideoInPlaylist ==> target.value == CleanedUrl(url)
  {
    if url == "" then None
    else
      var cleaned := CleanedUrl(url);
      CleanedUrlValidation(url, false);
      if ValidateUrl(cleaned, false) then Some(cleaned) else None
  }

  /** The dialog answers `start_download` may ask for. */
  datatype Answers = Answers(tryPlaylistVideo: bool, acceptBestQuality: bool, acceptMp4: bool)

  /** The download `start_download` hands to `download_video`. */
  datatype Request = Request(url: string, isTest: bool, quality: string, ext: string)

  datatype DownloadOutcome =
    | MissingUrl
    | Rejected
    | NotAnalyzed
    | QualityDeclined
    | FormatDeclined
    | Started(request: Request)

  /** The outcome of `start_download` and the menu values it leaves behind. */
  datatype Decision = Decision(outcome: DownloadOutcome, quality: string, ext: string)

  /** The chosen quality is not in the catalog (and is not "Best available"). */
  predicate QualityMissing(cat: Catalog, quality: string)
  {
    quality != BestAvailable && QualityKeyFor(quality) !in Keys(cat)
  }

  /** What `start_download` decides, given the stripped field, the catalog, the
      menu values, the kind of download and the user's answers. */
  ghost function Gate(url: string, cat: Catalog, quality: string, ext: string, isTest: bool, answers: Answers): Decision
  {
    if url == "" then Decision(MissingUrl, quality, ext)
    else if !ValidateUrl(url, answers.tryPlaylistVideo) then Decision(Rejected, quality, ext)
    else if cat == [] then Decision(NotAnalyzed, quality, ext)
    else Settle(url, cat, quality, ext, isTest, answers)
  }

  /** The second half of `start_download`: each missing choice is replaced by its
      fallback when the user accepts, or the download is abandoned. */
  ghost function Settle(url: string, cat: Catalog, quality: string, ext: string, isTest: bool, answers: Answers): Decision
  {
    if QualityMissing(cat, quality) && !answers.acceptBestQuality then Decision(QualityDeclined, quality, ext)
    else
      var quality' := if QualityMissing(cat, quality) then BestAvailable else quality;
      if !ExtAvailable(cat, ext) && !answers.acceptMp4 then Decision(FormatDeclined, quality', ext)
      else
        var ext' := if ExtAvailable(cat, ext) then ext else FallbackFormat;
        Decision(Started(Request(url, isTest, quality', ext')), quality', ext')
  }

  /** A download starts exactly when the field holds a URL that validation
      accepts, the video was analysed, and each missing choice was given up
      for its fallback. */
  lemma GateStartsIff(url: string, cat: Catalog, quality: string, ext: string, isTest: bool, answers: Answers)
    ensures Gate(url, cat, quality, ext, isTest, answers).outcome.Started? <==>
              url != "" && ValidateUrl(url, answers.tryPlaylistVideo) && cat != []
              && (!QualityMissing(cat, quality) || answers.acceptBestQuality)
              && (ExtAvailable(cat, ext) || answers.acceptMp4)
  {
  }

  /** A started download asks for the field's URL, a quality that is in the
      catalog or "Best available", and a container that is in the catalog or
      the mp4 fallback. */
  lemma GateRequestIsAvailable(url: string, cat: Catalog, quality: string, ext: string, isTest: bool, answers: Answers)
    requires Gate(url, cat, quality, ext, isTest, answers).outcome.Started?
    ensures var r := Gate(url, cat, quality, ext, isTest, answers).outcome.request;
            r.url == url && r.isTest == isTest
            && (r.quality == BestAvailable || QualityKeyFor(r.quality) in Keys(cat))
            && (ExtAvailable(cat, r.ext) || r.ext == FallbackFormat)
  {
  }

  /** Only the two menus change, each only to its fallback, and only when its
      own choice was missing and the user accepted the fallback. */
  lemma GateChangesOnlyFallbacks(url: string, cat: Catalog, quality: string, ext: string, isTest: bool, answers: Answers)
    ensures var d := Gate(url, cat, quality, ext, isTest, answers);
            (d.quality == quality || (d.quality == BestAvailable && QualityMissing(cat, quality) && answers.acceptBestQuality))
            && (d.ext == ext || (d.ext == FallbackFormat && !ExtAvailable(cat, ext) && answers.acceptMp4))
            && (d.outcome.Started? ==> d.outcome.request.quality == d.quality && d.outcome.request.ext == d.ext)
  {
  }

  /** Declining the quality fallback changes nothing. Declining the container
      fallback keeps the container, while an accepted quality fallback stays. */
  lemma GateDeclines(url: string, cat: Catalog, quality: string, ext: string, isTest: bool, answers: Answers)
    ensures var d := Gate(url, cat, quality, ext, isTest, answers);
            (d.outcome == QualityDeclined ==> d.quality == quality && d.ext == ext && !answers.acceptBestQuality)
            && (d.outcome == FormatDeclined ==>
                  d.ext == ext && !answers.acceptMp4
                  && d.quality == (if QualityMissing(cat, quality) then BestAvailable else quality))
  {
  }

  /** On the catalog of a format list, a started download's quality is "Best
      available" or the height of a video record, and its container is the mp4
      fallback or the container of a video record. */
  lemma GateOnBuiltCatalog(url: string, cat: Catalog, fs: seq<RawFormat>, quality: string, ext: string,
                           isTest: bool, answers: Answers)
    requires IsCatalogOf(cat, fs)
    requires Gate(url, cat, quality, ext, isTest, answers).outcome.Started?
    ensures var r := Gate(url, cat, quality, ext, isTest, answers).outcome.request;
            (r.quality == BestAvailable
              || exists n :: 0 <= n < |fs| && IsVideo(fs[n]) && KeyOf(fs[n]) == QualityKeyFor(r.quality))
            && (r.ext == FallbackFormat
              || exists n :: 0 <= n < |fs| && IsVideo(fs[n]) && Lower(Ext(fs[n])) == Lower(r.ext))
  {
    var r := Gate(url, cat, quality, ext, isTest, answers).outcome.request;
    GateRequestIsAvailable(url, cat, quality, ext, isTest, answers);
    KeyInCatalog(cat, fs, QualityKeyFor(r.quality));
    FormatAvailableIff(cat, fs, r.ext);
  }

  /** Every choice of the quality menu other than "Best available" is known to
      both tables: the availability check and the yt-dlp selector ask for the
      same height. */
  lemma MenuChoicesAgree(quality: string)
    requires quality in QualityChoices && quality != BestAvailable
    ensures quality in QualityMapping && quality in SelectorHeights
    ensures TargetHeight(quality) == Some(SelectorHeight(quality))
  {
    var h := SelectorHeight(quality);
    if quality == "4K (2160p)" { Key2160(); } else if quality == "2K (1440p)" { Key1440(); }
    else if quality == "1080p" { Key1080(); } else if quality == "720p" { Key720(); }
    else if quality == "480p" { Key480(); } else { Key360(); }
    assert QualityKeyFor(quality) == HeightKey(h);
    TargetOfHeightKey(quality, h);
  }

  /** A download started from a menu choice on the catalog of a format list
      asks yt-dlp either for the best format or for a height that some video
      record has. */
  lemma StartedDownloadSelectsCatalogHeight(url: string, cat: Catalog, fs: seq<RawFormat>, quality: string,
                                            ext: string, isTest: bool, answers: Answers)
    requires IsCatalogOf(cat, fs) && quality in QualityChoices
    requires Gate(url, cat, quality, ext, isTest, answers).outcome.Started?
    ensures var r := Gate(url, cat, quality, ext, isTest, answers).outcome.request;
            r.quality == BestAvailable
            || exists n :: 0 <= n < |fs| && IsVideo(fs[n]) && fs[n].height.value == SelectorHeight(r.quality)
  {
    var r := Gate(url, cat, quality, ext, isTest, answers).outcome.request;
    GateRequestIsAvailable(url, cat, quality, ext, isTest, answers);
    if r.quality != BestAvailable {
      assert r.quality == quality;
      MenuChoicesAgree(quality);
      QualityAvailableIff(cat, fs, quality);
    }
  }

  // ---------------------------------------------------------------------------
  // The window
  // ---------------------------------------------------------------------------

  class Downloader {
    /** `url_var`: the text of the URL field. */
    var urlText: string
    /** `current_url`: the URL of the last analysis started. */
    var currentUrl: string
    /** `available_formats` */
    var availableFormats: Catalog
    /** `video_info` */
    var videoInfo: Option<VideoInfo>
    /** `video_quality` */
    var videoQuality: string
    /** `video_format` */
    var videoFormat: string
    /** The URLs of the armed 3-second timers, oldest first. */
    var scheduled: seq<string>

    ghost predicate Valid()
      reads this
    {
      (currentUrl == "" || Classify(currentUrl) == NormalVideo)
      && AllVideos(scheduled)
      && (availableFormats != [] ==> videoInfo.Some?)
      && WellFormed(availableFormats)
    }

    constructor ()
      ensures Valid()
      ensures urlText == "" && currentUrl == "" && availableFormats == [] && videoInfo == None
      ensures videoQuality == DefaultQuality && videoFormat == DefaultFormat && scheduled == []
    {
      urlText := "";
      currentUrl := "";
      availableFormats := [];
      videoInfo := None;
      videoQuality := DefaultQuality;
      videoFormat := DefaultFormat;
      scheduled := [];
    }

    /** `on_url_change`, run by the trace on `url_var` after every write. */
    method OnUrlChange()
      requires Valid()
      modifies this`availableFormats, this`videoInfo, this`scheduled
      ensures Valid()
      ensures (availableFormats, videoInfo, scheduled)
              == AfterUrlChange(Strip(urlText), currentUrl, old(availableFormats), old(videoInfo), old(scheduled))
    {
      var url := Strip(urlText);
      if url == "" {
        return;
      }
      var kind := Classify(url);
      if kind == NormalVideo && url != currentUrl {
        Reset(url);
      }
    }

    /** A new video URL clears the analysis and arms a 3-second timer for it. */
    method Reset(url: string)
      requires Valid() && Classify(url) == NormalVideo
      modifies this`availableFormats, this`videoInfo, this`scheduled
      ensures Valid()
      ensures availableFormats == [] && videoInfo == None && scheduled == old(scheduled) + [url]
    {
      availableFormats := [];
      videoInfo := None;
      scheduled := scheduled + [url];
    }

    /** `url_var.set(text)`, by the user typing or by the program. */
    method SetUrl(text: string)
      requires Valid()
      modifies this`urlText, this`availableFormats, this`videoInfo, this`scheduled
      ensures Valid()
      ensures urlText == text
      ensures (availableFormats, videoInfo, scheduled)
              == AfterUrlChange(Strip(text), currentUrl, old(availableFormats), old(videoInfo), old(scheduled))
    {
      urlText := text;
      OnUrlChange();
    }

    /** `analyze_video`: returns the URL handed to the background analysis. */
    method AnalyzeVideo() returns (fetch: Option<string>)
      requires Valid()
      modifies this`urlText, this`currentUrl, this`availableFormats, this`videoInfo, this`scheduled
      ensures Valid()
      ensures fetch == AnalysisTarget(Strip(old(urlText)))
      ensures currentUrl == if fetch.Some? then fetch.value else old(currentUrl)
      ensures urlText == if InPlaylist(Strip(old(urlText))) then CleanedUrl(Strip(old(urlText))) else old(urlText)
      ensures (availableFormats, videoInfo, scheduled)
              == if InPlaylist(Strip(old(urlText))) then
                   AfterUrlChange(CleanedUrl(Strip(old(urlText))), old(currentUrl), old(availableFormats), old(videoInfo), old(scheduled))
                 else (old(availableFormats), old(videoInfo), old(scheduled))
    {
      var url := Strip(urlText);
      if url == "" {
        return None;
      }
      var kind := Classify(url);
      if kind == VideoInPlaylist {
        url := CleanedUrl(url);
        SetUrl(url);
      }
      if !ValidateUrl(url, false) {
        return None;
      }
      Commit(url);
      fetch := Some(url);
    }

    /** `self.current_url = url` once the URL has passed validation. */
    method Commit(url: string)
      requires Valid() && Classify(url) == NormalVideo
      modifies this`currentUrl
      ensures Valid() && currentUrl == url
    {
      currentUrl := url;
    }

    /** The oldest armed timer fires: `auto_analyze` with its URL. */
    method FireAutoAnalysis() returns (fetch: Option<string>)
      requires Valid() && scheduled != []
      modifies this`urlText, this`currentUrl, this`availableFormats, this`videoInfo, this`scheduled
      ensures Valid()
      ensures urlText == old(urlText) && availableFormats == old(availableFormats) && videoInfo == old(videoInfo)
      ensures scheduled == old(scheduled[1..])
      ensures if ShouldAutoAnalyze(old(scheduled[0]), Strip(urlText)) then
                fetch == Some(old(scheduled[0])) && currentUrl == old(scheduled[0])
              else
                fetch == None && currentUrl == old(currentUrl)
    {
      var url := scheduled[0];
      assert Classify(url) == NormalVideo;
      scheduled := scheduled[1..];
      var field := Strip(urlText);
      if field == url {
        var kind := Classify(url);
        if kind == NormalVideo || kind == VideoInPlaylist {
          assert AnalysisTarget(url) == Some(url);
          fetch := AnalyzeVideo();
          return;
        }
      }
      fetch := None;
    }

    /** The background analysis ends: `fetch_video_formats` after `extract_info`. */
    method CompleteAnalysis(outcome: FetchOutcome)
      requires Valid()
      modifies this`availableFormats, this`videoInfo
      ensures Valid()
      ensures outcome.Extracted? ==>
                IsCatalogOf(availableFormats, FormatsOf(outcome.info)) && videoInfo == Some(InfoOf(outcome.info))
      ensures !outcome.Extracted? ==> availableFormats == old(availableFormats) && videoInfo == old(videoInfo)
    {
      if outcome.Extracted? {
        var video, audio := BuildCatalog(FormatsOf(outcome.info));
        CatalogIsWellFormed(video, FormatsOf(outcome.info));
        availableFormats := video;
        videoInfo := Some(InfoWith(outcome.info, audio));
      }
    }

    /** The quality menu: sets `video_quality` and runs `check_quality_availability`. */
    method SelectQuality(choice: string) returns (status: Availability)
      requires Valid()
      modifies this`videoQuality
      ensures Valid()
      ensures videoQuality == choice && status == CheckQuality(availableFormats, choice)
    {
      videoQuality := choice;
      status := CheckQuality(availableFormats, videoQuality);
    }

    /** The container menu: sets `video_format` and runs `check_format_availability`. */
    method SelectFormat(choice: string) returns (status: Availability)
      requires Valid()
      modifies this`videoFormat
      ensures Valid()
      ensures videoFormat == choice
      ensures status == AnalyzeFirst <==> availableFormats == []
      ensures status == Available <==> availableFormats != [] && ExtAvailable(availableFormats, choice)
      ensures status == AnalyzeFirst || status == Available || status == NotAvailable(None)
    {
      videoFormat := choice;
      status := CheckFormat(availableFormats, videoFormat);
    }

    /** `start_download`. The window's only caller, the Download button, passes no
        argument, so `isTest` is false there; the parameter keeps `is_test`. */
    method StartDownload(isTest: bool, answers: Answers) returns (outcome: DownloadOutcome)
      requires Valid()
      modifies this`videoQuality, this`videoFormat
      ensures Valid()
      ensures var d := Gate(Strip(urlText), availableFormats, old(videoQuality), old(videoFormat), isTest, answers);
              outcome == d.outcome && videoQuality == d.quality && videoFormat == d.ext
    {
      var url := Strip(urlText);
      if url == "" {
        return MissingUrl;
      }
      var accepted := ValidateUrl(url, answers.tryPlaylistVideo);
      if !accepted {
        return Rejected;
      }
      if availableFormats == [] {
        return NotAnalyzed;
      }
      outcome := SettleChoices(url, isTest, answers);
    }

    /** The quality and container checks of `start_download`, once the URL is
        accepted and the video analysed. */
    method SettleChoices(url: string, isTest: bool, answers: Answers) returns (outcome: DownloadOutcome)
      requires Valid()
      modifies this`videoQuality, this`videoFormat
      ensures Valid()
      ensures var d := Settle(url, availableFormats, old(videoQuality), old(videoFormat), isTest, answers);
              outcome == d.outcome && videoQuality == d.quality && videoFormat == d.ext
    {
      var selectedQuality := videoQuality;
      var selectedFormat := videoFormat;
      if selectedQuality != BestAvailable {
        var key := QualityKeyFor(selectedQuality);
        if key !in Keys(availableFormats) {
          if !answers.acceptBestQuality {
            return QualityDeclined;
          }
          videoQuality := BestAvailable;
        }
      }
      assert videoQuality == if QualityMissing(availableFormats, selectedQuality) then BestAvailable else selectedQuality;
      var formatAvailable := HasFormat(availableFormats, selectedFormat);
      if !formatAvailable {
        if !answers.acceptMp4 {
          return FormatDeclined;
        }
        videoFormat := FallbackFormat;
      }
      outcome := Started(Request(url, isTest, videoQuality, videoFormat));
    }
  }

  // ---------------------------------------------------------------------------
  // Sequences of events
  // ---------------------------------------------------------------------------

  /** A URL typed over before its timer fires is never analysed. */
  method SupersededUrlIsNotAnalyzed(first: string, second: string) returns (fetch: Option<string>)
    requires Classify(Strip(first)) == NormalVideo && Strip(first) != Strip(second)
    ensures fetch == None
  {
    var d := new Downloader();
    d.SetUrl(first);
    assert d.scheduled == [Strip(first)];
    d.SetUrl(second);
    fetch := d.FireAutoAnalysis();
  }

  /** A URL still in the field when its timer fires is analysed. */
  method SettledUrlIsAnalyzed(url: string) returns (fetch: Option<string>)
    requires Classify(Strip(url)) == NormalVideo
    ensures fetch == Some(Strip(url))
  {
    var d := new Downloader();
    d.SetUrl(url);
    fetch := d.FireAutoAnalysis();
  }

  /** Analysing a video-in-playlist URL cleans the field, and the write to the
      field arms a timer for the cleaned URL, so the same video is analysed a
      second time when that timer fires. */
  method PlaylistVideoIsAnalyzedTwice(url: string) returns (first: Option<string>, second: Option<string>)
    requires Classify(Strip(url)) == VideoInPlaylist
    ensures first == Some(CleanedUrl(Strip(url))) && second == first
  {
    var d := new Downloader();
    d.SetUrl(url);
    assert d.scheduled == [];
    first := d.AnalyzeVideo();
    assert d.scheduled == [CleanedUrl(Strip(url))];
    second := d.FireAutoAnalysis();
  }

  /** Nothing can be downloaded before an analysis has finished. */
  method NoDownloadBeforeAnalysis(url: string, isTest: bool, answers: Answers) returns (outcome: DownloadOutcome)
    ensures !outcome.Started?
  {
    var d := TypeAndAnalyze(url);
    outcome := d.StartDownload(isTest, answers);
  }

  /** A new window in which `url` was typed and Analyze pressed, before the
      background analysis has reported back: the catalog is still empty. */
  method TypeAndAnalyze(url: string) returns (d: Downloader)
    ensures fresh(d) && d.Valid() && d.availableFormats == []
  {
    d := new Downloader();
    d.SetUrl(url);
    var fetch := d.AnalyzeVideo();
  }
}
