/** The two availability checks run when the user picks a quality or a
    container: `check_quality_availability` (an exact key lookup, then the
    closest height) and `check_format_availability` (a case-insensitive search
    for the container among the video entries). */
module Negotiation {
  import opened Wrappers
  import opened Text
  import opened Catalog
  import opened Settings

  /** `quality_mapping` of `check_quality_availability` and `start_download`. */
  const QualityMapping: map<string, string> := map[
    "4K (2160p)" := "2160p",
    "2K (1440p)" := "1440p",
    "1080p" := "1080p",
    "720p" := "720p",
    "480p" := "480p",
    "360p" := "360p",
    "240p" := "240p",
    "144p" := "144p"]

  /** `quality_mapping.get(selected_quality, selected_quality)` */
  function QualityKeyFor(quality: string): string
  {
    if quality in QualityMapping then QualityMapping[quality] else quality
  }

  /** `int(k.replace('p', ''))` where `k.replace('p', '').isdigit()` holds, else nothing. */
  function KeyHeight(key: string): Option<nat>
  {
    DigitsValue(RemoveChar(key, 'p'))
  }

  /** The height the selected label asks for, when `int()` can read it. */
  function TargetHeight(quality: string): Option<nat>
  {
    KeyHeight(QualityKeyFor(quality))
  }

  /** A catalog key reads back as its height. */
  lemma KeyHeightOfHeightKey(h: nat)
    ensures KeyHeight(HeightKey(h)) == Some(h)
  {
    RemoveCharTrailing(NatToString(h), 'p');
    DigitsValueOfNatToString(h);
  }

  /** Two heights have the same key only if they are equal. */
  lemma HeightKeyInjective(a: nat, b: nat)
    requires HeightKey(a) == HeightKey(b)
    ensures a == b
  {
    KeyHeightOfHeightKey(a);
    KeyHeightOfHeightKey(b);
  }

  // The height keys of the heights the program names, spelled out one by one.
  lemma Key2160() ensures HeightKey(2160) == "2160p" {}
  lemma Key1440() ensures HeightKey(1440) == "1440p" {}
  lemma Key1080() ensures HeightKey(1080) == "1080p" {}
  lemma Key720() ensures HeightKey(720) == "720p" {}
  lemma Key480() ensures HeightKey(480) == "480p" {}
  lemma Key360() ensures HeightKey(360) == "360p" {}
  lemma Key240() ensures HeightKey(240) == "240p" {}
  lemma Key144() ensures HeightKey(144) == "144p" {}
  lemma Key900() ensures HeightKey(900) == "900p" {}

  /** The key the mapping gives a label, and the height that key names. */
  lemma MappedKey(quality: string) returns (h: nat)
    requires quality in QualityMapping
    ensures QualityMapping[quality] == HeightKey(h)
  {
    h := if quality == "4K (2160p)" then 2160 else if quality == "2K (1440p)" then 1440
      else if quality == "1080p" then 1080 else if quality == "720p" then 720
      else if quality == "480p" then 480 else if quality == "360p" then 360
      else if quality == "240p" then 240 else 144;
    if h == 2160 { Key2160(); } else if h == 1440 { Key1440(); } else if h == 1080 { Key1080(); }
    else if h == 720 { Key720(); } else if h == 480 { Key480(); } else if h == 360 { Key360(); }
    else if h == 240 { Key240(); } else { Key144(); }
  }

  /** Every label of the mapping asks for a height whose key it maps to. */
  lemma MappedLabelsNameHeights(quality: string)
    requires quality in QualityMapping
    ensures TargetHeight(quality).Some? && QualityKeyFor(quality) == HeightKey(TargetHeight(quality).value)
  {
    var h := MappedKey(quality);
    KeyHeightOfHeightKey(h);
  }

  /** A label whose key is the key of a height asks for that height. */
  lemma TargetOfHeightKey(quality: string, h: nat)
    requires QualityKeyFor(quality) == HeightKey(h)
    ensures TargetHeight(quality) == Some(h)
  {
    KeyHeightOfHeightKey(h);
  }

  /** `available_heights`: the readable heights of the keys, in key order. */
  function Heights(keys: seq<string>): (hs: seq<nat>)
    ensures |hs| <= |keys|
    decreases |keys|
  {
    if keys == [] then []
    else
      var k := keys[|keys| - 1];
      Heights(keys[..|keys| - 1]) + match KeyHeight(k) case Some(h) => [h] case None => []
  }

  function Distance(a: nat, b: nat): nat
  {
    if a < b then b - a else a - b
  }

  /** `min(heights, key=lambda x: abs(x - target))`: the position of the first
      height at the least distance from the target. */
  function ClosestIndex(hs: seq<nat>, target: nat): (i: nat)
    requires hs != []
    ensures i < |hs|
    ensures forall j :: 0 <= j < |hs| ==> Distance(hs[i], target) <= Distance(hs[j], target)
    ensures forall j :: 0 <= j < i ==> Distance(hs[j], target) > Distance(hs[i], target)
    decreases |hs|
  {
    if |hs| == 1 then 0
    else
      var p := hs[..|hs| - 1];
      var i := ClosestIndex(p, target);
      assert forall j :: 0 <= j < |p| ==> hs[j] == p[j];
      if Distance(hs[|hs| - 1], target) < Distance(hs[i], target) then |hs| - 1 else i
  }

  /** `c` is the height `min` returns from `hs`. */
  ghost predicate IsClosest(hs: seq<nat>, target: nat, c: nat)
  {
    exists i :: 0 <= i < |hs| && hs[i] == c
      && (forall j :: 0 <= j < |hs| ==> Distance(c, target) <= Distance(hs[j], target))
      && (forall j :: 0 <= j < i ==> Distance(hs[j], target) > Distance(c, target))
  }

  /** What the status label of a check ends up saying. `Unreadable` is a label
      `int()` cannot read: the check raises before it shows anything. */
  datatype Availability = AnalyzeFirst | NoWarning | Available | NotAvailable(closest: Option<nat>) | Unreadable

  function CheckQuality(cat: Catalog, quality: string): (s: Availability)
    ensures s == AnalyzeFirst <==> cat == []
    ensures s == NoWarning <==> cat != [] && quality == BestAvailable
    ensures s == Available <==> cat != [] && quality != BestAvailable && QualityKeyFor(quality) in Keys(cat)
    ensures s == Unreadable <==>
              cat != [] && quality != BestAvailable && QualityKeyFor(quality) !in Keys(cat) && TargetHeight(quality).None?
    ensures s.NotAvailable? ==> TargetHeight(quality).Some? && (s.closest.None? <==> Heights(Keys(cat)) == [])
    ensures s.NotAvailable? && s.closest.Some? ==>
              IsClosest(Heights(Keys(cat)), TargetHeight(quality).value, s.closest.value)
  {
    if cat == [] then AnalyzeFirst
    else if quality == BestAvailable then NoWarning
    else
      var key := QualityKeyFor(quality);
      if key in Keys(cat) then Available
      else
        var hs := Heights(Keys(cat));
        match TargetHeight(quality)
        case None => Unreadable
        case Some(target) =>
          if hs == [] then NotAvailable(None)
          else
            var i := ClosestIndex(hs, target);
            NotAvailable(Some(hs[i]))
  }

  const WarningSign: string := "\U{26A0}\U{FE0F} "
  const Tick: string := "\U{2705} "
  const Cross: string := "\U{274C} "
  const NotAvailableText: string := Cross + "Not available"
  const ClosestPrefix: string := NotAvailableText + ". Closest: "

  /** The text the status label shows for each status. */
  function StatusText(s: Availability): (text: Option<string>)
    ensures text.None? <==> s == Unreadable
    ensures text == Some("") <==> s == NoWarning
    ensures text.Some? && StartsWith(text.value, WarningSign) <==> s == AnalyzeFirst
    ensures text.Some? && StartsWith(text.value, Tick) <==> s == Available
    ensures text.Some? && StartsWith(text.value, Cross) <==> s.NotAvailable?
  {
    assert WarningSign[0] != Tick[0] && Tick[0] != Cross[0] && Cross[0] != WarningSign[0];
    match s
    case AnalyzeFirst =>
      var t := WarningSign + "Analyze video first";
      assert t[0] == WarningSign[0];
      Some(t)
    case NoWarning => Some("")
    case Available =>
      var t := Tick + "Available";
      assert t[0] == Tick[0];
      Some(t)
    case NotAvailable(Some(h)) =>
      var t := ClosestPrefix + NatToString(h) + "p";
      assert t[0] == Cross[0] && t[..|Cross|] == Cross;
      Some(t)
    case NotAvailable(None) =>
      assert NotAvailableText[0] == Cross[0];
      Some(NotAvailableText)
    case Unreadable => None
  }

  /** The number a "Closest" label shows, between the prefix and the final `p`,
      reads back as the reported height. */
  lemma ClosestTextReadsBack(h: nat)
    ensures var t := StatusText(NotAvailable(Some(h))).value;
            StartsWith(t, ClosestPrefix) && EndsWith(t, "p")
            && DigitsValue(t[|ClosestPrefix|..|t| - 1]) == Some(h)
  {
    var t := StatusText(NotAvailable(Some(h))).value;
    Middle(ClosestPrefix, NatToString(h), "p");
    assert t[..|ClosestPrefix|] == ClosestPrefix;
    DigitsValueOfNatToString(h);
  }

  /** A missing quality with heights on offer shows a "Closest" label whose
      number is the height `min` picks. */
  lemma QualityLabelShowsClosest(cat: Catalog, quality: string)
    requires CheckQuality(cat, quality).NotAvailable? && Heights(Keys(cat)) != []
    ensures TargetHeight(quality).Some?
    ensures var t := StatusText(CheckQuality(cat, quality)).value;
            var n := DigitsValue(t[|ClosestPrefix|..|t| - 1]);
            StartsWith(t, ClosestPrefix) && EndsWith(t, "p") && n.Some?
            && IsClosest(Heights(Keys(cat)), TargetHeight(quality).value, n.value)
  {
    ClosestTextReadsBack(CheckQuality(cat, quality).closest.value);
  }

  /** Different statuses show different texts, so the label tells the status. */
  lemma StatusTextInjective(a: Availability, b: Availability)
    requires StatusText(a).Some? && StatusText(a) == StatusText(b)
    ensures a == b
  {
    if a.NotAvailable? && b.NotAvailable? && a.closest.Some? && b.closest.Some? {
      ClosestTextReadsBack(a.closest.value);
      ClosestTextReadsBack(b.closest.value);
    }
  }

  // ---------------------------------------------------------------------------
  // The quality check on the catalog of a format list
  // ---------------------------------------------------------------------------

  /** The heights read from keys that are each the key of a height are those heights. */
  lemma {:induction false} HeightsOfHeightKeys(keys: seq<string>, hs: seq<nat>)
    requires |keys| == |hs| && forall i :: 0 <= i < |keys| ==> keys[i] == HeightKey(hs[i])
    ensures Heights(keys) == hs
    decreases |keys|
  {
    if keys != [] {
      var p, q := keys[..|keys| - 1], hs[..|hs| - 1];
      var h := hs[|hs| - 1];
      assert forall i :: 0 <= i < |p| ==> p[i] == keys[i] && q[i] == hs[i];
      HeightsOfHeightKeys(p, q);
      KeyHeightOfHeightKey(h);
      assert KeyHeight(keys[|keys| - 1]) == Some(h);
      assert Heights(keys) == Heights(p) + [h];
      assert hs == q + [h];
    }
  }

  /** The height of a group: the one its key is made of. */
  function GroupHeight(g: Group): nat
  {
    if g.formats != [] && g.formats[0].height >= 0 then g.formats[0].height else 0
  }

  /** In a catalog of a format list, `available_heights` lists the height of
      every group, in group order. */
  lemma CatalogHeights(cat: Catalog, fs: seq<RawFormat>)
    requires IsCatalogOf(cat, fs)
    ensures |Heights(Keys(cat))| == |cat|
    ensures forall i :: 0 <= i < |cat| ==> Heights(Keys(cat))[i] == GroupHeight(cat[i])
    ensures forall i :: 0 <= i < |cat| ==> cat[i].key == HeightKey(GroupHeight(cat[i]))
  {
    CatalogIsWellFormed(cat, fs);
    var hs := seq(|cat|, i requires 0 <= i < |cat| => GroupHeight(cat[i]));
    forall i | 0 <= i < |cat| ensures Keys(cat)[i] == HeightKey(hs[i]) {
      assert cat[i].formats[0] in cat[i].formats;
    }
    HeightsOfHeightKeys(Keys(cat), hs);
  }

  /** A key is in a catalog of a format list exactly when a video record has it. */
  lemma KeyInCatalog(cat: Catalog, fs: seq<RawFormat>, key: string)
    requires IsCatalogOf(cat, fs)
    ensures key in Keys(cat) <==> exists n :: 0 <= n < |fs| && IsVideo(fs[n]) && KeyOf(fs[n]) == key
  {
    VideoKeysComplete(fs, key);
  }

  /** A mapped quality is available exactly when some video record has that height. */
  lemma QualityAvailableIff(cat: Catalog, fs: seq<RawFormat>, quality: string)
    requires IsCatalogOf(cat, fs) && quality in QualityMapping
    ensures TargetHeight(quality).Some?
    ensures CheckQuality(cat, quality) == Available <==>
              exists n :: 0 <= n < |fs| && IsVideo(fs[n]) && fs[n].height.value == TargetHeight(quality).value
  {
    MappedLabelsNameHeights(quality);
    var h := TargetHeight(quality).value;
    KeyInCatalog(cat, fs, HeightKey(h));
    CatalogEmptyIffNoVideo(cat, fs);
    forall n | 0 <= n < |fs| && IsVideo(fs[n])
      ensures KeyOf(fs[n]) == HeightKey(h) <==> fs[n].height.value == h
    {
      if KeyOf(fs[n]) == HeightKey(h) { HeightKeyInjective(fs[n].height.value, h); }
    }
  }

  /** Every group height is the height of a video record. */
  lemma GroupHeightIsRecordHeight(cat: Catalog, fs: seq<RawFormat>, g: nat)
    requires IsCatalogOf(cat, fs) && g < |cat|
    ensures exists n :: 0 <= n < |fs| && IsVideo(fs[n]) && fs[n].height.value == GroupHeight(cat[g])
  {
    CatalogHeights(cat, fs);
    var key := cat[g].key;
    assert key == Keys(cat)[g];
    KeyInCatalog(cat, fs, key);
    var n :| 0 <= n < |fs| && IsVideo(fs[n]) && KeyOf(fs[n]) == key;
    HeightKeyInjective(fs[n].height.value, GroupHeight(cat[g]));
  }

  /** Every video record's height is a group height. */
  lemma RecordHeightIsGroupHeight(cat: Catalog, fs: seq<RawFormat>, n: nat)
    requires IsCatalogOf(cat, fs) && n < |fs| && IsVideo(fs[n])
    ensures exists g :: 0 <= g < |cat| && GroupHeight(cat[g]) == fs[n].height.value
  {
    CatalogHeights(cat, fs);
    KeyInCatalog(cat, fs, KeyOf(fs[n]));
    var g :| 0 <= g < |cat| && Keys(cat)[g] == KeyOf(fs[n]);
    HeightKeyInjective(fs[n].height.value, GroupHeight(cat[g]));
  }

  /** The reported height is the one at `ClosestIndex` of `available_heights`. */
  lemma NotAvailableAtClosestIndex(cat: Catalog, quality: string)
    requires CheckQuality(cat, quality).NotAvailable? && Heights(Keys(cat)) != []
    ensures TargetHeight(quality).Some?
    ensures var hs := Heights(Keys(cat));
            CheckQuality(cat, quality) == NotAvailable(Some(hs[ClosestIndex(hs, TargetHeight(quality).value)]))
  {
  }

  /** When the quality is missing, the reported height is that of a group of
      the catalog: the first group at the least distance from the target. */
  lemma ClosestGroup(cat: Catalog, fs: seq<RawFormat>, quality: string) returns (i: nat)
    requires IsCatalogOf(cat, fs) && CheckQuality(cat, quality).NotAvailable?
    ensures TargetHeight(quality).Some? && CheckQuality(cat, quality).closest.Some?
    ensures var c := CheckQuality(cat, quality).closest.value;
            var t := TargetHeight(quality).value;
            i < |cat| && GroupHeight(cat[i]) == c
            && (forall j :: 0 <= j < |cat| ==> Distance(c, t) <= Distance(GroupHeight(cat[j]), t))
            && (forall j :: 0 <= j < i ==> Distance(GroupHeight(cat[j]), t) > Distance(c, t))
  {
    CatalogHeights(cat, fs);
    var hs := Heights(Keys(cat));
    NotAvailableAtClosestIndex(cat, quality);
    i := ClosestIndex(hs, TargetHeight(quality).value);
  }

  /** When the quality is missing, the reported height is the height of some
      video record, and at least as close to the target as every video
      record's height. */
  lemma ClosestIsRecordHeight(cat: Catalog, fs: seq<RawFormat>, quality: string)
    requires IsCatalogOf(cat, fs) && CheckQuality(cat, quality).NotAvailable?
    ensures TargetHeight(quality).Some? && CheckQuality(cat, quality).closest.Some?
    ensures var c := CheckQuality(cat, quality).closest.value;
            var t := TargetHeight(quality).value;
            (exists n :: 0 <= n < |fs| && IsVideo(fs[n]) && fs[n].height.value == c)
            && forall n :: 0 <= n < |fs| && IsVideo(fs[n]) ==> Distance(c, t) <= Distance(fs[n].height.value, t)
  {
    var i := ClosestGroup(cat, fs, quality);
    GroupHeightIsRecordHeight(cat, fs, i);
    forall n | 0 <= n < |fs| && IsVideo(fs[n])
      ensures Distance(CheckQuality(cat, quality).closest.value, TargetHeight(quality).value)
              <= Distance(fs[n].height.value, TargetHeight(quality).value)
    {
      RecordHeightIsGroupHeight(cat, fs, n);
    }
  }

  /** When the choice names a height key (every choice of the mapping does) and
      that key is missing, the reported height is not the target. */
  lemma ClosestIsNotTarget(cat: Catalog, fs: seq<RawFormat>, quality: string)
    requires IsCatalogOf(cat, fs) && CheckQuality(cat, quality).NotAvailable?
    requires TargetHeight(quality).Some? && QualityKeyFor(quality) == HeightKey(TargetHeight(quality).value)
    ensures CheckQuality(cat, quality).closest.Some?
    ensures CheckQuality(cat, quality).closest.value != TargetHeight(quality).value
  {
    var i := ClosestGroup(cat, fs, quality);
    CatalogHeights(cat, fs);
    assert Keys(cat)[i] == HeightKey(GroupHeight(cat[i]));
  }

  /** The height key of 720, 1080, 1440 and 900, spelled out. */
  lemma ExampleKeys()
    ensures HeightKey(720) == "720p" && HeightKey(1080) == "1080p"
    ensures HeightKey(1440) == "1440p" && HeightKey(900) == "900p"
  {
    Key720();
    Key1080();
    Key1440();
    Key900();
  }

  // The lookups and the distances of the two examples below, one at a time.
  lemma Mapped1440() ensures QualityKeyFor("2K (1440p)") == "1440p" {}
  lemma Unmapped900() ensures QualityKeyFor("900p") == "900p" {}
  lemma Absent1440() ensures "1440p" !in ["720p", "1080p"] {}
  lemma Absent900() ensures "900p" !in ["720p", "1080p"] {}
  lemma ClosestTo1440() ensures ClosestIndex([720, 1080], 1440) == 1 {}
  lemma ClosestTo900() ensures ClosestIndex([720, 1080], 900) == 0 {}

  /** Heights of the example catalog used below. */
  lemma ExampleHeights(cat: Catalog)
    requires cat == [Group("720p", []), Group("1080p", [])]
    ensures Keys(cat) == ["720p", "1080p"] && Heights(Keys(cat)) == [720, 1080]
  {
    ExampleKeys();
    assert Keys(cat) == [HeightKey(720), HeightKey(1080)];
    HeightsOfHeightKeys(Keys(cat), [720, 1080]);
  }

  /** A missing label that names a readable height reports the height at
      `ClosestIndex` of `available_heights`. */
  lemma NotAvailableWhen(cat: Catalog, quality: string, target: nat, hs: seq<nat>, i: nat)
    requires cat != [] && quality != BestAvailable && QualityKeyFor(quality) !in Keys(cat)
    requires TargetHeight(quality) == Some(target) && Heights(Keys(cat)) == hs
    requires hs != [] && ClosestIndex(hs, target) == i
    ensures CheckQuality(cat, quality) == NotAvailable(Some(hs[i]))
  {
  }

  /** The case the documentation describes: 720p and 1080p on offer, 1440p asked
      for, 1080p reported as the closest. */
  lemma ClosestExample()
    ensures CheckQuality([Group("720p", []), Group("1080p", [])], "2K (1440p)") == NotAvailable(Some(1080))
  {
    var cat := [Group("720p", []), Group("1080p", [])];
    ExampleHeights(cat);
    Key1440();
    Mapped1440();
    TargetOfHeightKey("2K (1440p)", 1440);
    Absent1440();
    ClosestTo1440();
    NotAvailableWhen(cat, "2K (1440p)", 1440, [720, 1080], 1);
  }

  /** Ties go to the key inserted first: 720p and 1080p are both 180 away from 900p. */
  lemma ClosestTieExample()
    ensures CheckQuality([Group("720p", []), Group("1080p", [])], "900p") == NotAvailable(Some(720))
  {
    var cat := [Group("720p", []), Group("1080p", [])];
    ExampleHeights(cat);
    Key900();
    Unmapped900();
    TargetOfHeightKey("900p", 900);
    Absent900();
    ClosestTo900();
    NotAvailableWhen(cat, "900p", 900, [720, 1080], 0);
  }

  // ---------------------------------------------------------------------------
  // The container check
  // ---------------------------------------------------------------------------

  /** Some entry of some group has the selected container, ignoring case. */
  ghost predicate ExtAvailable(cat: Catalog, selected: string)
  {
    exists i, j :: 0 <= i < |cat| && 0 <= j < |cat[i].formats| && Lower(cat[i].formats[j].ext) == Lower(selected)
  }

  /** The nested loop with the `format_available` flag. */
  method HasFormat(cat: Catalog, selected: string) returns (found: bool)
    ensures found <==> ExtAvailable(cat, selected)
  {
    found := false;
    var wanted := Lower(selected);
    var i := 0;
    while i < |cat|
      invariant 0 <= i <= |cat|
      invariant !found
      invariant forall i', j :: 0 <= i' < i && 0 <= j < |cat[i'].formats| ==> Lower(cat[i'].formats[j].ext) != wanted
    {
      var formats := cat[i].formats;
      var j := 0;
      while j < |formats|
        invariant 0 <= j <= |formats|
        invariant !found
        invariant forall j' :: 0 <= j' < j ==> Lower(formats[j'].ext) != wanted
      {
        if Lower(formats[j].ext) == wanted {
          found := true;
          break;
        }
        j := j + 1;
      }
      if found {
        break;
      }
      i := i + 1;
    }
  }

  method CheckFormat(cat: Catalog, selected: string) returns (s: Availability)
    ensures s == AnalyzeFirst <==> cat == []
    ensures s == Available <==> cat != [] && ExtAvailable(cat, selected)
    ensures s == AnalyzeFirst || s == Available || s == NotAvailable(None)
  {
    if cat == [] {
      return AnalyzeFirst;
    }
    var found := HasFormat(cat, selected);
    s := if found then Available else NotAvailable(None);
  }

  /** On the catalog of a format list, a container is available exactly when some
      video record has it; audio-only records never count. */
  lemma FormatAvailableIff(cat: Catalog, fs: seq<RawFormat>, selected: string)
    requires IsCatalogOf(cat, fs)
    ensures ExtAvailable(cat, selected) <==>
              exists n :: 0 <= n < |fs| && IsVideo(fs[n]) && Lower(Ext(fs[n])) == Lower(selected)
  {
    if ExtAvailable(cat, selected) {
      var i, j :| 0 <= i < |cat| && 0 <= j < |cat[i].formats| && Lower(cat[i].formats[j].ext) == Lower(selected);
      VideoEntriesOrigin(fs, cat[i].key, cat[i].formats[j]);
    }
    if exists n :: 0 <= n < |fs| && IsVideo(fs[n]) && Lower(Ext(fs[n])) == Lower(selected) {
      var n :| 0 <= n < |fs| && IsVideo(fs[n]) && Lower(Ext(fs[n])) == Lower(selected);
      var key := KeyOf(fs[n]);
      KeyInCatalog(cat, fs, key);
      var i :| 0 <= i < |cat| && Keys(cat)[i] == key;
      VideoEntriesOrigin(fs, key, VideoEntry(fs[n]));
      var j :| 0 <= j < |cat[i].formats| && cat[i].formats[j] == VideoEntry(fs[n]);
      assert Lower(cat[i].formats[j].ext) == Lower(selected);
    }
  }

  /** Records that are audio-only never make a container available. */
  lemma AudioOnlyNeverAvailable(cat: Catalog, fs: seq<RawFormat>, selected: string)
    requires IsCatalogOf(cat, fs)
    requires forall n :: 0 <= n < |fs| && Lower(Ext(fs[n])) == Lower(selected) ==> IsAudio(fs[n])
    ensures !ExtAvailable(cat, selected)
  {
    FormatAvailableIff(cat, fs, selected);
  }
}
