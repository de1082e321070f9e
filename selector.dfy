/** The yt-dlp format selector and output template that
    `download_with_ytdlp_ultimate` builds from the chosen quality and container. */
module Selector {
  import opened Text
  import opened Settings

  /** `quality_map`: the heights the selector knows (it has no 240p or 144p). */
  const SelectorHeights: map<string, nat> := map[
    "4K (2160p)" := 2160,
    "2K (1440p)" := 1440,
    "1080p" := 1080,
    "720p" := 720,
    "480p" := 480,
    "360p" := 360]

  const DefaultHeight: nat := 1080

  /** `quality_map.get(quality, 1080)` */
  function SelectorHeight(quality: string): nat
  {
    if quality in SelectorHeights then SelectorHeights[quality] else DefaultHeight
  }

  /** The alternatives of the selector, in the order yt-dlp tries them. */
  function Alternatives(quality: string, ext: string): seq<string>
  {
    if quality == BestAvailable then
      ["best[ext=" + ext + "]",
       "bestvideo[ext=" + ext + "]+bestaudio",
       "best"]
    else
      var h := NatToString(SelectorHeight(quality));
      ["bestvideo[height=" + h + "][ext=" + ext + "]+bestaudio",
       "best[height=" + h + "][ext=" + ext + "]",
       "bestvideo[height=" + h + "]+bestaudio",
       "best[height=" + h + "]",
       "worst[height>=" + h + "][ext=" + ext + "]",
       "worst[height>=" + h + "]"]
  }

  /** The `format` option: the alternatives joined by `/`. */
  function FormatSelector(quality: string, ext: string): string
  {
    Join(Alternatives(quality, ext), "/")
  }

  /** No alternative contains the separator when the container does not. */
  lemma AlternativesHaveNoSeparator(quality: string, ext: string)
    requires '/' !in ext
    ensures forall k :: 0 <= k < |Alternatives(quality, ext)| ==> '/' !in Alternatives(quality, ext)[k]
  {
    PiecesHaveNoSeparator();
    var h := NatToString(SelectorHeight(quality));
    assert '/' !in h by {
      forall k | 0 <= k < |h| ensures h[k] != '/' { assert IsDigit(h[k]); }
    }
  }

  /** The fixed text around the height and the container holds no `/`. */
  lemma PiecesHaveNoSeparator()
    ensures '/' !in "best[ext=" && '/' !in "]" && '/' !in "bestvideo[ext=" && '/' !in "]+bestaudio"
    ensures '/' !in "best" && '/' !in "bestvideo[height=" && '/' !in "][ext=" && '/' !in "best[height="
    ensures '/' !in "worst[height>="
  {
  }

  /** Splitting the selector at `/` gives back exactly these alternatives, in
      this order: three for "Best available", six for any other choice. */
  lemma SelectorParsesToAlternatives(quality: string, ext: string)
    requires '/' !in ext
    ensures Split(FormatSelector(quality, ext), '/') == Alternatives(quality, ext)
    ensures |Split(FormatSelector(quality, ext), '/')| == if quality == BestAvailable then 3 else 6
  {
    AlternativesHaveNoSeparator(quality, ext);
    SplitJoin(Alternatives(quality, ext), '/');
  }

  /** A choice without an entry in the map selects exactly as 1080p does. */
  lemma UnmappedSelectsAs1080(quality: string, ext: string)
    requires quality != BestAvailable && quality !in SelectorHeights
    ensures FormatSelector(quality, ext) == FormatSelector("1080p", ext)
  {
  }

  /** The selector depends on the choice only through its height. */
  lemma SelectorDependsOnHeight(q1: string, q2: string, ext: string)
    requires q1 != BestAvailable && q2 != BestAvailable
    requires SelectorHeight(q1) == SelectorHeight(q2)
    ensures FormatSelector(q1, ext) == FormatSelector(q2, ext)
  {
  }

  /** Different heights give different selectors. */
  lemma SelectorDistinguishesHeights(q1: string, q2: string, ext: string)
    requires q1 != BestAvailable && q2 != BestAvailable && '/' !in ext
    requires FormatSelector(q1, ext) == FormatSelector(q2, ext)
    ensures SelectorHeight(q1) == SelectorHeight(q2)
  {
    SelectorParsesToAlternatives(q1, ext);
    SelectorParsesToAlternatives(q2, ext);
    var a1 := Alternatives(q1, ext)[3];
    var a2 := Alternatives(q2, ext)[3];
    assert a1 == a2;
    var h1 := NatToString(SelectorHeight(q1));
    var h2 := NatToString(SelectorHeight(q2));
    assert a1 == "best[height=" + h1 + "]" && a2 == "best[height=" + h2 + "]";
    assert h1 == a1[12..|a1| - 1] && h2 == a2[12..|a2| - 1];
    NatToStringInjective(SelectorHeight(q1), SelectorHeight(q2));
  }

  const TemplateBase: string := "%(title)s.%(ext)s"

  const TestPrefix: string := "TEST_"

  /** `output_template`, prefixed for a test download. */
  function OutputTemplate(isTest: bool): (t: string)
    ensures StartsWith(t, TestPrefix) <==> isTest
    ensures EndsWith(t, TemplateBase)
    ensures isTest ==> t[|TestPrefix|..] == TemplateBase
  {
    if isTest then TestPrefix + TemplateBase
    else
      assert TemplateBase[..|TestPrefix|][0] != TestPrefix[0];
      TemplateBase
  }
}
