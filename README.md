# Hikari YouTube Video Downloader — a verified model of its decision logic

Hikari is a desktop program that downloads single YouTube videos. The user
pastes a URL and the program classifies it, rejecting playlists, Shorts,
live streams and channels. It then analyses the video: the extractor's list
of formats becomes a catalog of heights and containers. The program tells the
user whether the chosen quality and container exist, asks before falling back
to "Best available" or mp4, and builds the yt-dlp format selector and output
template for the download.

This project models that GUI-free logic in Dafny and proves what it does. Modules:

- `Text` (`text.dfy`): the pieces of Python's string handling the program relies on:
  - `str(n)` and a digit reader;
  - `strip()` with Python's whitespace set;
  - ASCII `lower()`/`upper()`;
  - `replace('p', '')`.

  It also holds `Join` and `Split`, a modelling device: the program writes the
  format selector as one f-string with literal `/` separators, and the two
  functions state how that string splits back into its alternatives.
- `Settings` (`settings.dfy`): the quality and container menus and their defaults.
- `YouTubeUrl` (`youtube_url.dfy`):
  - `detect_url_type` and `validate_url`;
  - the cleaning of a video-in-playlist URL in `analyze_video`.

  Each regular expression of the classifier is a fixed sequence of literal text and 11-character
  video-id groups, so a pattern is a sequence of tokens. A `re.search` is "the
  tokens match at some position". The anchored `re.match(^…$)` patterns are
  "one of the six optional scheme/`www.` prefixes, then the tokens, then the
  end"; `AnchoredMatchIsRegexMatch` proves the deterministic matcher equal to
  that reading.
- `Catalog` (`catalog.dfy`): the loop of `fetch_video_formats`.
  - Extractor records have optional fields; `vcodec` and `acodec` distinguish *absent* from *null*.
  - The catalog is an ordered association list of `"{h}p"` groups, because
    Python dictionaries keep insertion order and the closest-height tie-break
    depends on it.
  - `BuildCatalog` is the imperative loop. Two declarative definitions say what it computes:
    `IsCatalogOf` for the video groups and `AudioEntries` for the audio-only list.
- `Negotiation` (`negotiation.dfy`): `check_quality_availability` and
  `check_format_availability`. The first is a function; the second is a method
  with the source's nested loop, its flag and its `break`s.
- `Selector` (`selector.dfy`): the yt-dlp `format` string and the `TEST_` output template.
  The window never asks for the `TEST_` branch: its only call of `start_download`, from the
  Download button, passes no argument, so `is_test` keeps its default `False`.
- `Summary` (`summary.dfy`):
  - the formats box written by `update_formats_display`;
  - the `m:ss` duration of `show_analysis_results`.
- `Controller` (`controller.dfy`): the window's state as a class, `Downloader`.
  - Fields: `url_var`, `current_url`, `available_formats`, `video_info`, `video_quality`, `video_format` and the armed timers.
  - Methods for `on_url_change`, `auto_analyze`, `analyze_video`, the end of the background analysis, the two menus and `start_download`.
  - A ghost function `Gate` states what `start_download` decides (its second half, the fallback questions, is `Settle`), with lemmas about it.
  - Four scenario methods run short sequences of events on a fresh window.

Dialogs are inputs: `askyesno` answers are the booleans of `Answers` and the
`confirmed` parameter of `ValidateUrl`. The extractor is an input too: its
answer is an `ExtractorInfo` value, or it failed. Each 3-second timer is the
URL it was armed with, kept in a queue. `FireAutoAnalysis` fires the oldest one.

Where the code differs from the program's documentation, the model follows the code:

- `on_url_change` clears the analysis and arms a timer only for a non-empty
  normal-video URL that differs from `current_url`. Other changes, including a
  video-in-playlist URL, leave the analysis in place.
- Timers are never cancelled. A stale timer does nothing only because of the
  equality check in `auto_analyze` (`SupersededUrlIsNotAnalyzed`).
- Analysing a video-in-playlist URL writes the cleaned URL into the field.
  The field's trace runs `on_url_change` before `current_url` is updated, so a
  timer is armed for the cleaned URL. The same video is analysed a second time
  three seconds later (`PlaylistVideoIsAnalyzedTwice`).
- `start_download` hands the stripped field to the download, not the cleaned
  URL. A confirmed video-in-playlist URL is downloaded as typed.
- The selector is tried video-plus-audio first, then muxed, as the code orders it.

## Model

| member | source | states |
|---|---|---|
| Text.NatToString | hikari-youtube-video-downloader.py:1003 | `str(h)` of a height is a non-empty run of digits with no leading zero (except for 0 itself) |
| Text.ParseNatToString | hikari-youtube-video-downloader.py:803-804 | `int()` reads back any `str(n)` as n |
| Text.NatToStringInjective | hikari-youtube-video-downloader.py:1003 | different heights give different decimal texts |
| Text.RemoveChar | hikari-youtube-video-downloader.py:803 | no `p` is left after `replace('p', '')` |
| Text.RemoveCharAbsent | hikari-youtube-video-downloader.py:803 | `replace('p', '')` leaves a string without `p` unchanged |
| Text.RemoveCharTrailing | hikari-youtube-video-downloader.py:803 | removing `p` from `"{digits}p"` gives back the digits |
| Text.Strip | hikari-youtube-video-downloader.py:700 | `strip()` returns the text between the leading and trailing whitespace, and the result neither starts nor ends with whitespace |
| Text.StripUnpadded | hikari-youtube-video-downloader.py:700 | a string that neither starts nor ends with whitespace is its own strip |
| Text.StripIdempotent | hikari-youtube-video-downloader.py:700 | stripping twice is stripping once |
| Text.Lower | hikari-youtube-video-downloader.py:825 | `lower()` keeps the length, leaves no capital A-Z, turns each capital into the letter 32 code points above and keeps every other character |
| Text.Upper | hikari-youtube-video-downloader.py:1167 | `upper()` keeps the length, leaves no small a-z, turns each small letter into the letter 32 code points below and keeps every other character |
| Text.LowerIdempotent | hikari-youtube-video-downloader.py:825 | lowering twice is lowering once |
| Text.SplitJoin | hikari-youtube-video-downloader.py:1317-1324 | splitting a `/`-joined list of separator-free parts gives back the parts |
| YouTubeUrl.AnchoredMatchIsRegexMatch | hikari-youtube-video-downloader.py:873-874 | the anchored matcher accepts exactly the strings made of an optional `http(s)://`, an optional `www.`, the pattern and the end |
| YouTubeUrl.ClassifyFirstMatch | hikari-youtube-video-downloader.py:868-908 | the category returned is one whose rule matches, and no rule tried earlier matches (normal video, then playlist video, playlist, Shorts, live, channel, unknown) |
| YouTubeUrl.Explanation | hikari-youtube-video-downloader.py:886-908 | a message accompanies every category except a normal video |
| YouTubeUrl.ValidateUrl | hikari-youtube-video-downloader.py:910-927 | accepts a normal video; accepts a video in a playlist exactly when the user confirms; rejects everything else |
| YouTubeUrl.FirstVideoId | hikari-youtube-video-downloader.py:943-945 | finds an id exactly when `watch?v=<11 id chars>` occurs; the id is 11 id characters taken after the leftmost such occurrence |
| YouTubeUrl.PlaylistVideoHasVideoId | hikari-youtube-video-downloader.py:943-944 | a URL classified as video-in-playlist always contains `watch?v=<id>`, so the `if match:` always succeeds |
| YouTubeUrl.CanonicalUrlIsNormal | hikari-youtube-video-downloader.py:946 | the rebuilt `https://www.youtube.com/watch?v=<id>` classifies as a normal video |
| YouTubeUrl.CleanedUrl | hikari-youtube-video-downloader.py:941-947 | a video-in-playlist URL becomes the canonical watch URL of its first id, which is a normal video and needs no stripping; any other URL is unchanged |
| YouTubeUrl.CleanedUrlIdempotent | hikari-youtube-video-downloader.py:941-947 | cleaning a cleaned URL changes nothing |
| YouTubeUrl.CleanedUrlValidation | hikari-youtube-video-downloader.py:941-954 | after cleaning no confirmation is asked: validation accepts exactly the URLs that were a normal video or a video in a playlist |
| Catalog.IndexOfKey | hikari-youtube-video-downloader.py:1005-1006 | finds the group of a key, or reports that the key is absent |
| Catalog.SizeLabel | hikari-youtube-video-downloader.py:1008 | the label is "Unknown size" exactly when the size is absent or 0 |
| Catalog.SizeLabelTruncates | hikari-youtube-video-downloader.py:1028 | a positive size is shown as `~d MB` where d is the size in MiB rounded down |
| Catalog.BuildCatalog | hikari-youtube-video-downloader.py:991-1029 | the loop builds exactly the catalog of the record list and the list of its audio-only entries |
| Catalog.AddNewKeyKeepsCatalog | hikari-youtube-video-downloader.py:1005-1019 | a video record with a height not yet seen opens a new last group holding just its entry, and the result is the catalog of the longer list |
| Catalog.AddToGroupKeepsCatalog | hikari-youtube-video-downloader.py:1005-1019 | a video record with a height already seen is appended to that group, and the result is the catalog of the longer list |
| Catalog.VideoKeysDistinct | hikari-youtube-video-downloader.py:1005-1006 | every height key appears once |
| Catalog.VideoKeysComplete | hikari-youtube-video-downloader.py:1002-1006 | a key is in the catalog exactly when some video record has that height |
| Catalog.VideoEntriesOfAbsentKey | hikari-youtube-video-downloader.py:1005-1010 | a key that no video record has collects no entries |
| Catalog.VideoEntriesOrigin | hikari-youtube-video-downloader.py:1002-1020 | an entry is in group `"{h}p"` exactly when it was built from a video record (`vcodec != 'none'`, height > 0) of height key `"{h}p"` |
| Catalog.VideoEntrySource | hikari-youtube-video-downloader.py:1002-1020 | every entry of a group was built from a video record with that height key |
| Catalog.VideoEntryListed | hikari-youtube-video-downloader.py:1002-1020 | every video record's entry is listed in the group of its height key |
| Catalog.VideoEntriesConcat | hikari-youtube-video-downloader.py:1010 | each group keeps the input order of its records |
| Catalog.AudioEntriesOrigin | hikari-youtube-video-downloader.py:1023-1029 | an entry is in the audio list exactly when it was built from an audio-only record (`acodec != 'none'`, `vcodec == 'none'`) |
| Catalog.AudioEntrySource | hikari-youtube-video-downloader.py:1023-1029 | every entry of the audio list was built from an audio-only record |
| Catalog.AudioEntryListed | hikari-youtube-video-downloader.py:1023-1029 | every audio-only record's entry is in the audio list |
| Catalog.AudioEntriesConcat | hikari-youtube-video-downloader.py:1024 | the audio list keeps input order |
| Catalog.CatalogUnique | hikari-youtube-video-downloader.py:991-1031 | a record list determines its catalog |
| Catalog.CatalogEmptyIffNoVideo | hikari-youtube-video-downloader.py:1002 | the catalog is empty exactly when no record is a video record |
| Catalog.CatalogIsWellFormed | hikari-youtube-video-downloader.py:1002-1020 | keys are distinct, no group is empty, every entry of group `"{h}p"` has height h and a video codec, and `has_audio == (acodec != 'none')` |
| Negotiation.KeyHeightOfHeightKey | hikari-youtube-video-downloader.py:803-804 | `int(k.replace('p',''))` reads a catalog key back as its height |
| Negotiation.HeightKeyInjective | hikari-youtube-video-downloader.py:1003 | two heights share a key only if they are equal |
| Negotiation.MappedLabelsNameHeights | hikari-youtube-video-downloader.py:780-791 | every label of the mapping asks for a readable height whose key it maps to |
| Negotiation.Heights | hikari-youtube-video-downloader.py:803 | `available_heights` has at most one height per key |
| Negotiation.HeightsOfHeightKeys | hikari-youtube-video-downloader.py:803 | when the keys are height keys, `available_heights` is their heights in key order |
| Negotiation.ClosestIndex | hikari-youtube-video-downloader.py:807 | `min(..., key=abs(x - target))` picks a height at the least distance, the first such one |
| Negotiation.CheckQuality | hikari-youtube-video-downloader.py:767-812 | empty catalog: "Analyze video first"; "Best available": no warning; mapped key present: Available; otherwise an unreadable label raises, no readable height gives "Not available", and else the closest height is `min`'s choice |
| Negotiation.CatalogHeights | hikari-youtube-video-downloader.py:803 | on a catalog of a record list, `available_heights` is the height of every group, in group order |
| Negotiation.KeyInCatalog | hikari-youtube-video-downloader.py:798 | `quality_key in available_formats` exactly when some video record has that key |
| Negotiation.QualityAvailableIff | hikari-youtube-video-downloader.py:780-799 | a menu label is Available exactly when some video record has the height it names |
| Negotiation.GroupHeightIsRecordHeight | hikari-youtube-video-downloader.py:1002-1006 | every group height is the height of some video record |
| Negotiation.RecordHeightIsGroupHeight | hikari-youtube-video-downloader.py:1002-1006 | every video record's height is the height of some group |
| Negotiation.ClosestGroup | hikari-youtube-video-downloader.py:802-808 | a missing quality reports the height of the first group at the least distance from the target |
| Negotiation.ClosestIsRecordHeight | hikari-youtube-video-downloader.py:802-808 | a missing quality reports a record's height at least as close to the target as every other record's height |
| Negotiation.ClosestIsNotTarget | hikari-youtube-video-downloader.py:798-808 | when a label naming a height key is missing, the closest height reported is never that height |
| Negotiation.HasFormat | hikari-youtube-video-downloader.py:821-829 | the nested loop with `break` sets the flag exactly when some entry of some group has the container, ignoring case |
| Negotiation.CheckFormat | hikari-youtube-video-downloader.py:814-837 | empty catalog: "Analyze video first"; otherwise Available exactly when the container is found, else "Not available" |
| Negotiation.FormatAvailableIff | hikari-youtube-video-downloader.py:823-826 | on a catalog of a record list, a container is available exactly when some video record has it, ignoring case |
| Negotiation.AudioOnlyNeverAvailable | hikari-youtube-video-downloader.py:1023-1029 | containers found only on audio-only records are never available |
| Negotiation.StatusText | hikari-youtube-video-downloader.py:767-837 | the label text of each outcome: none for an unreadable label, the empty text for "Best available", and otherwise a text whose leading mark (warning sign, tick or cross) tells which outcome it reports |
| Negotiation.ClosestTextReadsBack | hikari-youtube-video-downloader.py:808 | the text `Not available. Closest: {h}p` reads back as the height `h` |
| Negotiation.QualityLabelShowsClosest | hikari-youtube-video-downloader.py:802-809 | when a quality is not available and some key is numeric, the label names a closest height of the catalog |
| Negotiation.StatusTextInjective | hikari-youtube-video-downloader.py:767-837 | two outcomes that show the same label text are the same outcome |
| Selector.AlternativesHaveNoSeparator | hikari-youtube-video-downloader.py:1317-1324 | no alternative contains `/` when the container does not |
| Selector.SelectorParsesToAlternatives | hikari-youtube-video-downloader.py:1300-1324 | the selector reads back as exactly its alternatives in code order: three for "Best available", six with the target height otherwise |
| Selector.UnmappedSelectsAs1080 | hikari-youtube-video-downloader.py:1314 | a label the height table does not know (such as 240p or 144p) selects exactly as 1080p |
| Selector.SelectorDependsOnHeight | hikari-youtube-video-downloader.py:1314-1324 | two labels with the same height give the same selector |
| Selector.SelectorDistinguishesHeights | hikari-youtube-video-downloader.py:1317-1324 | equal selectors mean equal target heights |
| Selector.OutputTemplate | hikari-youtube-video-downloader.py:1327-1329 | the template starts with `TEST_` exactly for a test download, always ends with `%(title)s.%(ext)s`, and is exactly `TEST_` plus it for a test |
| Summary.TwoDigits | hikari-youtube-video-downloader.py:1070 | `{:02d}` of a number below 100 is two digits reading back as the number |
| Summary.DurationRoundTrip | hikari-youtube-video-downloader.py:1066-1070 | a duration reads back from its `m:ss` text as minutes times 60 plus seconds below 60 |
| Summary.InsertByHeight | hikari-youtube-video-downloader.py:1135-1136 | inserting into a descending list keeps it descending and adds exactly the one row |
| Summary.SortByHeight | hikari-youtube-video-downloader.py:1135-1136 | `sorted(..., reverse=True)` by height is descending and a permutation of the rows |
| Summary.ShownAreTallest | hikari-youtube-video-downloader.py:1139-1157 | at most six rows are shown, each a catalog row, and no row left out is taller than a row shown |
| Summary.Tier | hikari-youtube-video-downloader.py:1144-1153 | the emoji is one of five tiers |
| Summary.TierMonotone | hikari-youtube-video-downloader.py:1144-1153 | a taller video never gets a lower tier |
| Summary.MoreLine | hikari-youtube-video-downloader.py:1159-1160 | the `... +N more` line is present exactly when there are more than six keys |
| Summary.MoreLineCountsHidden | hikari-youtube-video-downloader.py:1159-1160 | N is the number of groups not shown |
| Summary.BelowIrreflexive | hikari-youtube-video-downloader.py:1168 | Python's string order never puts a string below itself |
| Summary.BelowTransitive | hikari-youtube-video-downloader.py:1168 | it is transitive |
| Summary.BelowTotal | hikari-youtube-video-downloader.py:1168 | of two different strings one is below the other |
| Summary.InsertDistinct | hikari-youtube-video-downloader.py:1164-1166 | adding to a strictly sorted list keeps it strictly sorted with exactly the old members and the new one |
| Summary.SortedDistinct | hikari-youtube-video-downloader.py:1168 | `sorted(set(xs))` is strictly increasing with exactly the members of xs |
| Summary.UpperExtsMembers | hikari-youtube-video-downloader.py:1164-1166 | the collected containers are exactly the upper-cased containers of the entries |
| Summary.ContainerListIsSortedSet | hikari-youtube-video-downloader.py:1163-1168 | the `FORMATS:` list names every container once, upper-cased, in increasing order |
| Summary.FormatsSummary | hikari-youtube-video-downloader.py:1125-1171 | nothing is written for an empty catalog; otherwise the text opens with the resolutions header and ends with the MP4 tip |
| Summary.BuiltCatalogHasReadableKeys | hikari-youtube-video-downloader.py:1135-1141 | on a catalog of a record list every key reads as its group's height, so the sort never raises |
| Controller.WarningFor | hikari-youtube-video-downloader.py:724-744 | a video in a playlist gets the soft warning; every other non-normal category gets a red warning |
| Controller.UrlWarning | hikari-youtube-video-downloader.py:700-744 | no warning exactly for an empty field or a normal video |
| Controller.AnalysisTarget | hikari-youtube-video-downloader.py:929-959 | analysis starts exactly for a non-empty normal or video-in-playlist URL, on a normal-video URL: the URL itself, or the cleaned one |
| Controller.GateStartsIff | hikari-youtube-video-downloader.py:1189-1259 | a download starts exactly when the URL is non-empty and accepted, the catalog non-empty, and each missing quality or container was given up for its fallback |
| Controller.GateRequestIsAvailable | hikari-youtube-video-downloader.py:1205-1257 | a started download uses the field's URL, a quality in the catalog or "Best available", and a container in the catalog or mp4 |
| Controller.GateChangesOnlyFallbacks | hikari-youtube-video-downloader.py:1223-1251 | only the quality (to "Best available") and the container (to mp4) can change, each only when missing and accepted |
| Controller.GateDeclines | hikari-youtube-video-downloader.py:1224-1250 | declining the quality changes nothing; declining the container keeps it but keeps an accepted quality fallback |
| Controller.GateOnBuiltCatalog | hikari-youtube-video-downloader.py:1189-1259 | on a catalog of a record list, a started download asks for a height and a container some video record has, or for a fallback |
| Controller.MenuChoicesAgree | hikari-youtube-video-downloader.py:1305-1314 | every menu choice other than "Best available" asks the availability check and the selector for the same height |
| Controller.StartedDownloadSelectsCatalogHeight | hikari-youtube-video-downloader.py:1205-1231 | a download started from a menu choice asks yt-dlp for "best" or for a height some video record has |
| Controller.Downloader.constructor | hikari-youtube-video-downloader.py:77-85 | an empty field, no analysis, 1080p and mp4 |
| Controller.Downloader.OnUrlChange | hikari-youtube-video-downloader.py:698-722 | clears the catalog and info and arms a timer exactly for a non-empty normal URL different from `current_url`; otherwise nothing changes |
| Controller.Downloader.Reset | hikari-youtube-video-downloader.py:716-722 | a new video URL empties the catalog and the info and arms one more timer, for that URL |
| Controller.Downloader.SetUrl | hikari-youtube-video-downloader.py:947 | writing the field runs `on_url_change` |
| Controller.Downloader.AnalyzeVideo | hikari-youtube-video-downloader.py:929-961 | hands `AnalysisTarget` of the field to the analysis and records it as `current_url`; a playlist-video URL is first cleaned in the field, with the timer this arms |
| Controller.Downloader.Commit | hikari-youtube-video-downloader.py:956 | `current_url` becomes the validated URL, which is a normal video |
| Controller.Downloader.FireAutoAnalysis | hikari-youtube-video-downloader.py:746-753 | the oldest timer analyses exactly when the field still holds its URL and that URL is a video |
| Controller.Downloader.CompleteAnalysis | hikari-youtube-video-downloader.py:978-1046 | a successful analysis stores the catalog of the records and the info with its defaults; a failure changes nothing |
| Controller.Downloader.SelectQuality | hikari-youtube-video-downloader.py:755-757 | sets the quality and reports its availability |
| Controller.Downloader.SelectFormat | hikari-youtube-video-downloader.py:759-761 | sets the container and reports its availability |
| Controller.Downloader.StartDownload | hikari-youtube-video-downloader.py:1189-1259 | decides and leaves the menus exactly as `Gate` says |
| Controller.Downloader.SettleChoices | hikari-youtube-video-downloader.py:1204-1251 | the quality and container checks with their fallback questions decide and leave the menus exactly as `Settle` says |
| Controller.SupersededUrlIsNotAnalyzed | hikari-youtube-video-downloader.py:749-753 | a URL typed over before its timer fires is not analysed |
| Controller.SettledUrlIsAnalyzed | hikari-youtube-video-downloader.py:749-756 | a URL still in the field when its timer fires is analysed |
| Controller.PlaylistVideoIsAnalyzedTwice | hikari-youtube-video-downloader.py:941-959 | analysing a playlist-video URL analyses the cleaned URL, and its timer analyses it again |
| Controller.TypeAndAnalyze | hikari-youtube-video-downloader.py:929-959 | typing a URL and pressing Analyze leaves the catalog empty until the analysis reports back |
| Controller.NoDownloadBeforeAnalysis | hikari-youtube-video-downloader.py:1200-1202 | nothing can be downloaded before an analysis has finished |

All members of `Downloader` also preserve the invariant `Valid()`:
- `current_url` is empty or a normal video;
- every armed timer holds a normal video;
- a catalog is present only together with its video info;
- the catalog is well formed.

## Left out

- Widgets, layout, colours and every `messagebox` call. The yes/no answers are the `Answers` and `confirmed` inputs. The texts of the two status labels are `StatusText`; their colours are not modelled.
- yt-dlp's own reading of the `format` selector. The model states only that splitting it at `/` gives back its alternatives.
- Threads and `root.after`. The background analysis is split into `AnalyzeVideo`, which returns the URL to fetch, and `CompleteAnalysis`, which receives the result. Any interleaving of user events between the two can be expressed; a result arriving for an older URL is stored as the code stores it.
- The 3-second delay itself. Timers are a queue fired oldest first.
- yt-dlp and pytube. `extract_info` is an input (`ExtractorInfo` or a failure); the download, its options other than `format` and `outtmpl`, and the whole pytube path are not modelled.
- `os.path.join` with the output folder, the configuration file, folder selection, the thumbnail, diagnostics, library updates, progress arithmetic and `install.py`.
- Catalog.RawFormat: `format_id` and `ext` are modelled as absent or present strings. A present `null` for them, which would make `.lower()` or `.upper()` raise, is not modelled. A `null` `vcodec` or `acodec` is modelled, so it compares unequal to `'none'` as in Python.
- Controller.ExtractorInfo: an absent title, duration or uploader takes its default. A key present with a null value, for which `dict.get` returns `None`, is not modelled, nor is a non-integer duration.
- Negotiation.TargetHeight: reads only non-empty runs of ASCII digits. A label that `int()` would read with a sign, surrounding spaces or underscores is reported as `Unreadable`. No label the menu or the mapping can produce is affected.
- Negotiation.KeyHeight: `isdigit()` also accepts non-ASCII digits; keys built by the catalog are ASCII, so only ASCII digits are modelled.
- Text.Lower and Text.Upper: map only ASCII letters. Python also folds non-ASCII letters (and `ß` to `SS`); container names are ASCII.
- Summary.SortByHeight: the sort is proved descending and a permutation. Its stability is not stated; the keys of a catalog are distinct, so no two rows tie.
- Summary.FormatsSummary: the contract states that the text exists exactly for a non-empty catalog and how it opens and ends. The individual pieces (rows, the more line, the container list) are proved separately rather than the assembled text.
- Summary: the title and uploader line of `show_analysis_results` is left out; only the duration text is modelled.
