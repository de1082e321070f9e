/** Classification of a YouTube URL (`detect_url_type`), the clean-up of a
    video-in-playlist URL (`analyze_video`) and URL validation (`validate_url`).

    The source uses Python regular expressions. Each of them is a fixed sequence
    of literal text and 11-character video-id groups, so a pattern is modelled as
    a sequence of tokens and "the regex matches at position i" as `MatchesAt`.
    The unanchored patterns (`re.search`) all begin with the optional prefix
    `(?:https?://)?(?:www\.)?`; since that prefix may match the empty string,
    such a pattern occurs in a string exactly when its remaining tokens do. */
module YouTubeUrl {
  import opened Wrappers
  import opened Text

  datatype UrlKind = NormalVideo | VideoInPlaylist | Playlist | Shorts | Live | Channel | Unknown

  /** The character class `[a-zA-Z0-9_-]`. */
  predicate IsIdChar(c: char)
  {
    'a' <= c <= 'z' || 'A' <= c <= 'Z' || '0' <= c <= '9' || c == '_' || c == '-'
  }

  const IdLength: nat := 11

  predicate IsVideoId(id: string)
  {
    |id| == IdLength && forall k :: 0 <= k < |id| ==> IsIdChar(id[k])
  }

  /** One piece of a pattern: literal text, or the group `([a-zA-Z0-9_-]{11})`. */
  datatype Token = Lit(text: string) | VideoId

  function TokenWidth(t: Token): nat
  {
    match t
    case Lit(x) => |x|
    case VideoId => IdLength
  }

  function Width(p: seq<Token>): nat
    decreases |p|
  {
    if p == [] then 0 else TokenWidth(p[0]) + Width(p[1..])
  }

  predicate TokenAt(s: string, i: nat, t: Token)
    requires i + TokenWidth(t) <= |s|
  {
    match t
    case Lit(x) => s[i..i + |x|] == x
    case VideoId => forall k :: i <= k < i + IdLength ==> IsIdChar(s[k])
  }

  /** The pattern `p` matches the text of `s` that starts at position `i`. */
  predicate MatchesAt(s: string, i: nat, p: seq<Token>)
    decreases |p|
  {
    if p == [] then i <= |s|
    else i + TokenWidth(p[0]) <= |s| && TokenAt(s, i, p[0]) && MatchesAt(s, i + TokenWidth(p[0]), p[1..])
  }

  lemma {:induction false} MatchesAtWidth(s: string, i: nat, p: seq<Token>)
    requires MatchesAt(s, i, p)
    ensures i + Width(p) <= |s|
    decreases |p|
  {
    if p != [] {
      MatchesAtWidth(s, i + TokenWidth(p[0]), p[1..]);
    }
  }

  lemma {:induction false} MatchesAtConcat(s: string, i: nat, p: seq<Token>, q: seq<Token>)
    ensures MatchesAt(s, i, p + q) <==> MatchesAt(s, i, p) && MatchesAt(s, i + Width(p), q)
    decreases |p|
  {
    if p == [] {
      assert p + q == q;
      if MatchesAt(s, i, q) { MatchesAtWidth(s, i, q); }
    } else {
      assert (p + q)[0] == p[0] && (p + q)[1..] == p[1..] + q;
      MatchesAtConcat(s, i + TokenWidth(p[0]), p[1..], q);
    }
  }

  lemma MatchesAtSingle(s: string, i: nat, t: Token)
    ensures MatchesAt(s, i, [t]) <==> i + TokenWidth(t) <= |s| && TokenAt(s, i, t)
  {
    assert [t][1..] == [];
  }

  /** `re.search` finds the pattern somewhere in `s`. */
  ghost predicate Occurs(s: string, p: seq<Token>)
  {
    exists j :: 0 <= j <= |s| && MatchesAt(s, j, p)
  }

  /** Scan positions `i`, `i + 1`, ... for the first one where `p` matches. */
  function FirstMatchFrom(s: string, p: seq<Token>, i: nat): (r: Option<nat>)
    requires i <= |s|
    ensures r.Some? ==> i <= r.value <= |s| && MatchesAt(s, r.value, p)
    ensures r.Some? ==> forall j :: i <= j < r.value ==> !MatchesAt(s, j, p)
    ensures r.None? ==> forall j :: i <= j <= |s| ==> !MatchesAt(s, j, p)
    decreases |s| - i
  {
    if MatchesAt(s, i, p) then Some(i)
    else if i == |s| then None
    else FirstMatchFrom(s, p, i + 1)
  }

  /** Python `re.search(p, s)`: the leftmost position at which `p` matches, if any. */
  function Search(s: string, p: seq<Token>): (r: Option<nat>)
    ensures r.Some? <==> Occurs(s, p)
    ensures r.Some? ==> r.value <= |s| && MatchesAt(s, r.value, p)
    ensures r.Some? ==> forall j :: 0 <= j < r.value ==> !MatchesAt(s, j, p)
  {
    FirstMatchFrom(s, p, 0)
  }

  // ---------------------------------------------------------------------------
  // Anchored patterns: re.match('^(?:https?://)?(?:www\.)?' + body + '$', s)
  // ---------------------------------------------------------------------------

  /** The six ways the optional prefix `(?:https?://)?(?:www\.)?` can match. */
  const SchemePrefixes: seq<string> := ["", "www.", "http://", "http://www.", "https://", "https://www."]

  /** Python's `$`: the end of the string, or just before a final newline. */
  predicate AtEnd(s: string, j: nat)
  {
    j == |s| || (j + 1 == |s| && s[j] == '\n')
  }

  /** The anchored regular expression matches `s`: one of the prefixes, then `body`, then the end. */
  ghost predicate WhollyMatches(s: string, body: seq<Token>)
  {
    exists k :: 0 <= k < |SchemePrefixes| && StartsWith(s, SchemePrefixes[k])
      && MatchesAt(s, |SchemePrefixes[k]|, body) && AtEnd(s, |SchemePrefixes[k]| + Width(body))
  }

  /** Deterministic prefix skipping: an optional scheme, then an optional `www.`. */
  function PrefixLength(s: string): (n: nat)
    ensures n <= |s|
  {
    var a := if StartsWith(s, "https://") then 8 else if StartsWith(s, "http://") then 7 else 0;
    a + (if StartsWith(s[a..], "www.") then 4 else 0)
  }

  predicate AnchoredMatch(s: string, body: seq<Token>)
  {
    var n := PrefixLength(s);
    MatchesAt(s, n, body) && AtEnd(s, n + Width(body))
  }

  lemma CharsOfPrefix(s: string, p: string)
    requires StartsWith(s, p)
    ensures forall k :: 0 <= k < |p| ==> s[k] == p[k]
  {
    assert forall k :: 0 <= k < |p| ==> s[..|p|][k] == s[k];
  }

  lemma StartsWithConcat(s: string, a: string, b: string)
    requires StartsWith(s, a) && StartsWith(s[|a|..], b)
    ensures StartsWith(s, a + b)
  {
    assert s[..|a + b|] == s[..|a|] + s[|a|..][..|b|];
  }

  /** The deterministic prefix length is the length of one of the six prefix options. */
  lemma PrefixLengthWitness(s: string) returns (k: nat)
    ensures k < |SchemePrefixes| && StartsWith(s, SchemePrefixes[k])
    ensures |SchemePrefixes[k]| == PrefixLength(s)
  {
    var a := if StartsWith(s, "https://") then 8 else if StartsWith(s, "http://") then 7 else 0;
    if a == 8 {
      if StartsWith(s[8..], "www.") { StartsWithConcat(s, "https://", "www."); k := 5; } else { k := 4; }
    } else if a == 7 {
      if StartsWith(s[7..], "www.") { StartsWithConcat(s, "http://", "www."); k := 3; } else { k := 2; }
    } else {
      assert s[0..] == s;
      if StartsWith(s, "www.") { k := 1; } else { k := 0; }
    }
  }

  /** When a prefix option is followed by the letter `y`, skipping deterministically
      stops right after that option. */
  lemma PrefixLengthOfOption(s: string, k: nat)
    requires k < |SchemePrefixes| && StartsWith(s, SchemePrefixes[k])
    requires |SchemePrefixes[k]| < |s| && s[|SchemePrefixes[k]|] == 'y'
    ensures PrefixLength(s) == |SchemePrefixes[k]|
  {
    var p := SchemePrefixes[k];
    CharsOfPrefix(s, p);
    if StartsWith(s, "https://") { CharsOfPrefix(s, "https://"); }
    if StartsWith(s, "http://") { CharsOfPrefix(s, "http://"); }
    if StartsWith(s, "www.") { CharsOfPrefix(s, "www."); }
    if k == 0 || k == 1 {
      assert s[0..] == s;
    } else if k == 2 || k == 3 {
      assert s[4] == p[4] == ':';
      assert s[..7] == s[..|p|][..7] == "http://";
      if StartsWith(s[7..], "www.") { CharsOfPrefix(s[7..], "www."); assert s[7..][0] == s[7]; }
      if k == 3 { assert s[7..][..4] == s[..|p|][7..11] == "www."; }
    } else {
      assert s[..8] == s[..|p|][..8] == "https://";
      if StartsWith(s[8..], "www.") { CharsOfPrefix(s[8..], "www."); assert s[8..][0] == s[8]; }
      if k == 5 { assert s[8..][..4] == s[..|p|][8..12] == "www."; }
    }
  }

  /** Skipping the prefix deterministically agrees with the backtracking regular
      expression, because every body used here starts with the letter `y`, which
      no prefix option can consume. */
  lemma AnchoredMatchIsRegexMatch(s: string, body: seq<Token>)
    requires |body| > 0 && body[0].Lit? && |body[0].text| > 0 && body[0].text[0] == 'y'
    ensures AnchoredMatch(s, body) <==> WhollyMatches(s, body)
  {
    if AnchoredMatch(s, body) {
      var k := PrefixLengthWitness(s);
    }
    if WhollyMatches(s, body) {
      var k :| 0 <= k < |SchemePrefixes| && StartsWith(s, SchemePrefixes[k])
        && MatchesAt(s, |SchemePrefixes[k]|, body) && AtEnd(s, |SchemePrefixes[k]| + Width(body));
      var m := |SchemePrefixes[k]|;
      var t := body[0].text;
      assert s[m..m + |t|] == t;
      assert s[m] == 'y';
      PrefixLengthOfOption(s, k);
    }
  }

  // ---------------------------------------------------------------------------
  // The patterns of detect_url_type
  // ---------------------------------------------------------------------------

  const WatchPath: string := "youtube.com/watch?v="

  /** `youtube\.com/watch\?v=([a-zA-Z0-9_-]{11})`, anchored. */
  const WatchPattern: seq<Token> := [Lit(WatchPath), VideoId]
  /** `youtu\.be/([a-zA-Z0-9_-]{11})`, anchored. */
  const ShortLinkPattern: seq<Token> := [Lit("youtu.be/"), VideoId]
  /** `youtube\.com/watch\?v=([a-zA-Z0-9_-]{11})&list=` */
  const PlaylistVideoPattern: seq<Token> := [Lit(WatchPath), VideoId, Lit("&list=")]
  /** `youtube\.com/playlist\?list=` */
  const PlaylistPattern: seq<Token> := [Lit("youtube.com/playlist?list=")]
  /** `youtube\.com/shorts/([a-zA-Z0-9_-]{11})` */
  const ShortsPattern: seq<Token> := [Lit("youtube.com/shorts/"), VideoId]
  /** `youtube\.com/live/([a-zA-Z0-9_-]{11})` */
  const LivePattern: seq<Token> := [Lit("youtube.com/live/"), VideoId]
  /** `youtube\.com/(?:channel|c|user)/`, one pattern per alternative. */
  const ChannelPattern: seq<Token> := [Lit("youtube.com/channel/")]
  const CustomChannelPattern: seq<Token> := [Lit("youtube.com/c/")]
  const UserPattern: seq<Token> := [Lit("youtube.com/user/")]

  /** What would make `detect_url_type` return `kind`, ignoring the earlier checks. */
  ghost predicate RuleMatches(url: string, kind: UrlKind)
  {
    match kind
    case NormalVideo => WhollyMatches(url, WatchPattern) || WhollyMatches(url, ShortLinkPattern)
    case VideoInPlaylist => Occurs(url, PlaylistVideoPattern)
    case Playlist => Occurs(url, PlaylistPattern)
    case Shorts => Occurs(url, ShortsPattern)
    case Live => Occurs(url, LivePattern)
    case Channel => Occurs(url, ChannelPattern) || Occurs(url, CustomChannelPattern) || Occurs(url, UserPattern)
    case Unknown => true
  }

  /** The order in which `detect_url_type` tries the rules. */
  function Rank(kind: UrlKind): nat
  {
    match kind
    case NormalVideo => 0
    case VideoInPlaylist => 1
    case Playlist => 2
    case Shorts => 3
    case Live => 4
    case Channel => 5
    case Unknown => 6
  }

  /** `re.search(p, url)` succeeds. */
  predicate Found(url: string, p: seq<Token>)
  {
    Search(url, p).Some?
  }

  /** `detect_url_type(url)`, first component: the category of a URL. */
  function Classify(url: string): UrlKind
  {
    if AnchoredMatch(url, WatchPattern) || AnchoredMatch(url, ShortLinkPattern) then NormalVideo
    else if Found(url, PlaylistVideoPattern) then VideoInPlaylist
    else if Found(url, PlaylistPattern) then Playlist
    else if Found(url, ShortsPattern) then Shorts
    else if Found(url, LivePattern) then Live
    else if Found(url, ChannelPattern) || Found(url, CustomChannelPattern) || Found(url, UserPattern) then Channel
    else Unknown
  }

  /** The first rule in precedence order whose pattern matches decides the
      category; `Unknown` is the catch-all. */
  lemma ClassifyFirstMatch(url: string)
    ensures RuleMatches(url, Classify(url))
    ensures forall other :: Rank(other) < Rank(Classify(url)) ==> !RuleMatches(url, other)
  {
    AnchoredMatchIsRegexMatch(url, WatchPattern);
    AnchoredMatchIsRegexMatch(url, ShortLinkPattern);
  }

  const PlaylistVideoMessage: string := "\U{26A0}\U{FE0F} Video in playlist URL detected.\n\nThis program only downloads individual videos.\n\nPlease use the video URL without the '&list=' parameter:\n\nCorrect example:\nhttps://www.youtube.com/watch?v=VIDEO_ID"
  const PlaylistMessage: string := "\U{274C} Playlist URL detected.\n\nThis program does NOT support downloading complete playlists.\n\nPlease copy the URL of an individual video."
  const ShortsMessage: string := "\U{274C} YouTube Shorts URL detected.\n\nThis program does NOT support YouTube Shorts.\n\nPlease use a normal video URL:\nhttps://www.youtube.com/watch?v=VIDEO_ID"
  const LiveMessage: string := "\U{274C} Live stream URL detected.\n\nThis program does NOT support live streams.\n\nPlease use a normal video URL."
  const ChannelMessage: string := "\U{274C} Channel URL detected.\n\nThis program does NOT support downloading channels.\n\nPlease copy the URL of an individual video."
  const UnknownMessage: string := "\U{274C} URL not recognized.\n\nPlease use a valid YouTube video URL:\n\n\U{2022} https://www.youtube.com/watch?v=VIDEO_ID\n\U{2022} https://youtu.be/VIDEO_ID"

  /** `detect_url_type(url)`, second component: the explanation shown to the user
      (none for a normal video). */
  function Explanation(kind: UrlKind): (message: Option<string>)
    ensures message.None? <==> kind == NormalVideo
  {
    match kind
    case NormalVideo => None
    case VideoInPlaylist => Some(PlaylistVideoMessage)
    case Playlist => Some(PlaylistMessage)
    case Shorts => Some(ShortsMessage)
    case Live => Some(LiveMessage)
    case Channel => Some(ChannelMessage)
    case Unknown => Some(UnknownMessage)
  }


  /** `validate_url(url)`, with the user's answer to the yes/no dialog as `confirmed`
      (the dialog appears only for a video-in-playlist URL). */
  function ValidateUrl(url: string, confirmed: bool): (accepted: bool)
    ensures accepted <==> Classify(url) == NormalVideo || (Classify(url) == VideoInPlaylist && confirmed)
  {
    match Classify(url)
    case NormalVideo => true
    case VideoInPlaylist => confirmed
    case _ => false
  }

  // ---------------------------------------------------------------------------
  // Cleaning a video-in-playlist URL (analyze_video)
  // ---------------------------------------------------------------------------

  /** `watch\?v=([a-zA-Z0-9_-]{11})` */
  const VideoIdQuery: seq<Token> := [Lit("watch?v="), VideoId]

  const CanonicalWatchPrefix: string := "https://www.youtube.com/watch?v="

  /** A video-in-playlist URL always contains `watch?v=` followed by a video id. */
  lemma PlaylistVideoHasVideoId(url: string)
    requires Occurs(url, PlaylistVideoPattern)
    ensures Occurs(url, VideoIdQuery)
  {
    var j :| 0 <= j <= |url| && MatchesAt(url, j, PlaylistVideoPattern);
    assert PlaylistVideoPattern == [Lit(WatchPath)] + ([VideoId] + [Lit("&list=")]);
    MatchesAtConcat(url, j, [Lit(WatchPath)], [VideoId] + [Lit("&list=")]);
    MatchesAtSingle(url, j, Lit(WatchPath));
    assert Width([Lit(WatchPath)]) == 20;
    MatchesAtConcat(url, j + 20, [VideoId], [Lit("&list=")]);
    assert url[j + 12..j + 20] == url[j..j + 20][12..20] == "watch?v=";
    assert VideoIdQuery == [Lit("watch?v=")] + [VideoId];
    MatchesAtSingle(url, j + 12, Lit("watch?v="));
    assert Width([Lit("watch?v=")]) == 8;
    MatchesAtConcat(url, j + 12, [Lit("watch?v=")], [VideoId]);
  }

  /** The canonical watch URL of a video id is a normal video URL. */
  lemma CanonicalUrlIsNormal(id: string)
    requires IsVideoId(id)
    ensures Classify(CanonicalWatchPrefix + id) == NormalVideo
  {
    var s := CanonicalWatchPrefix + id;
    assert StartsWith(s, SchemePrefixes[5]);
    assert s[12..32] == WatchPath;
    assert MatchesAt(s, 43, []);
    assert MatchesAt(s, 32, [VideoId]);
    assert MatchesAt(s, 12, WatchPattern);
    assert Width(WatchPattern) == 31;
    assert WhollyMatches(s, WatchPattern);
    AnchoredMatchIsRegexMatch(s, WatchPattern);
  }

  /** The canonical watch URL has nothing for `strip()` to remove. */
  lemma CanonicalUrlIsStripped(id: string)
    requires IsVideoId(id)
    ensures Strip(CanonicalWatchPrefix + id) == CanonicalWatchPrefix + id
  {
    var s := CanonicalWatchPrefix + id;
    assert s[0] == 'h' && s[|s| - 1] == id[10] && IsIdChar(id[10]);
    StripUnpadded(s);
  }

  /** `re.search(r'watch\?v=([a-zA-Z0-9_-]{11})', url).group(1)`: the video id
      after the leftmost `watch?v=` that is followed by eleven id characters. */
  function FirstVideoId(url: string): (id: Option<string>)
    ensures id.Some? <==> Occurs(url, VideoIdQuery)
    ensures id.Some? ==> IsVideoId(id.value)
    ensures id.Some? ==>
      exists i :: 0 <= i && i + 19 <= |url| && MatchesAt(url, i, VideoIdQuery)
        && (forall j :: 0 <= j < i ==> !MatchesAt(url, j, VideoIdQuery))
        && id.value == url[i + 8..i + 19]
  {
    match Search(url, VideoIdQuery)
    case None => None
    case Some(i) =>
      MatchesAtWidth(url, i, VideoIdQuery);
      assert VideoIdQuery == [Lit("watch?v=")] + [VideoId];
      MatchesAtConcat(url, i, [Lit("watch?v=")], [VideoId]);
      assert Width([Lit("watch?v=")]) == 8;
      MatchesAtSingle(url, i + 8, VideoId);
      Some(url[i + 8..i + 19])
  }

  /** The URL `analyze_video` goes on with: a video-in-playlist URL is rebuilt as
      the canonical watch URL of its first `watch?v=<id>`; any other URL is kept
      as it is. */
  function CleanedUrl(url: string): (r: string)
    ensures Classify(url) != VideoInPlaylist ==> r == url
    ensures Classify(url) == VideoInPlaylist ==>
      FirstVideoId(url).Some? && r == CanonicalWatchPrefix + FirstVideoId(url).value
    ensures Classify(url) == VideoInPlaylist ==> Classify(r) == NormalVideo && Strip(r) == r
  {
    if Classify(url) == VideoInPlaylist then
      PlaylistVideoHasVideoId(url);
      var id := FirstVideoId(url).value;
      CanonicalUrlIsNormal(id);
      CanonicalUrlIsStripped(id);
      CanonicalWatchPrefix + id
    else url
  }

  /** Cleaning twice is cleaning once. */
  lemma CleanedUrlIdempotent(url: string)
    ensures CleanedUrl(CleanedUrl(url)) == CleanedUrl(url)
  {
  }

  /** After cleaning, validation never needs the user's confirmation: it accepts
      exactly the URLs that were a normal video or a video in a playlist. */
  lemma CleanedUrlValidation(url: string, confirmed: bool)
    ensures Classify(CleanedUrl(url)) != VideoInPlaylist
    ensures ValidateUrl(CleanedUrl(url), confirmed)
            <==> Classify(url) == NormalVideo || Classify(url) == VideoInPlaylist
  {
  }
}
