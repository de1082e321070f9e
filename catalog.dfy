/** The format catalog that `fetch_video_formats` builds from yt-dlp's
    `info['formats']`: video formats grouped under `"{height}p"` keys in the
    order the heights first appear, and a separate list of audio-only formats. */
module Catalog {
  import opened Wrappers
  import opened Text

  /** A dictionary entry read with `f.get(key, default)`: the key may be missing
      (the default is used), present with the value None, or present with a value. */
  datatype Field<T> = Missing | Null | Present(value: T)

  /** Python `f.get(key, default)`, with None as `Option.None`. */
  function Get<T>(f: Field<T>, default: T): Option<T>
  {
    match f
    case Missing => Some(default)
    case Null => None
    case Present(v) => Some(v)
  }

  /** One record of the extractor's format list. Keys read without a default
      are `Option`s: for those a missing key and a None value are the same. */
  datatype RawFormat = RawFormat(
    formatId: Option<string>,
    ext: Option<string>,
    filesize: Option<int>,
    fps: Option<real>,
    vcodec: Field<string>,
    acodec: Field<string>,
    height: Option<int>,
    width: Option<int>)

  /** `'fps': fps if fps else 'N/A'` */
  datatype Fps = Rate(value: real) | NotApplicable

  /** An entry of a height group (the dictionary appended at lines 1009-1019). */
  datatype VideoFormat = VideoFormat(
    formatId: string,
    ext: string,
    fps: Fps,
    size: string,
    vcodec: Option<string>,
    acodec: Option<string>,
    width: Option<int>,
    height: int,
    hasAudio: bool)

  /** An entry of the audio-only list. */
  datatype AudioFormat = AudioFormat(formatId: string, ext: string, acodec: Option<string>, size: string)

  /** One key of `available_formats` with its list of formats. */
  datatype Group = Group(key: string, formats: seq<VideoFormat>)

  /** `available_formats`: a dictionary kept as an association list in insertion order. */
  type Catalog = seq<Group>

  function Keys(cat: Catalog): (ks: seq<string>)
    ensures |ks| == |cat| && forall i :: 0 <= i < |cat| ==> ks[i] == cat[i].key
  {
    seq(|cat|, i requires 0 <= i < |cat| => cat[i].key)
  }

  // ---------------------------------------------------------------------------
  // Reading one record
  // ---------------------------------------------------------------------------

  function FormatId(f: RawFormat): string
  {
    match f.formatId
    case Some(id) => id
    case None => ""
  }

  function Ext(f: RawFormat): string
  {
    match f.ext
    case Some(e) => e
    case None => "unknown"
  }

  function VCodec(f: RawFormat): Option<string> { Get(f.vcodec, "none") }

  function ACodec(f: RawFormat): Option<string> { Get(f.acodec, "none") }

  /** `vcodec != 'none' and height and height > 0` */
  predicate IsVideo(f: RawFormat)
  {
    VCodec(f) != Some("none") && f.height.Some? && f.height.value > 0
  }

  /** `acodec != 'none' and vcodec == 'none'` (the `elif` branch). */
  predicate IsAudio(f: RawFormat)
  {
    ACodec(f) != Some("none") && VCodec(f) == Some("none")
  }

  /** `f"{height}p"` */
  function HeightKey(h: nat): string
  {
    NatToString(h) + "p"
  }

  function KeyOf(f: RawFormat): string
    requires IsVideo(f)
  {
    HeightKey(f.height.value)
  }

  const MiB: nat := 1024 * 1024

  /** `f"~{filesize // (1024*1024)} MB" if filesize else "Unknown size"` */
  function SizeLabel(filesize: Option<int>): (text: string)
    ensures text == "Unknown size" <==> filesize.None? || filesize.value == 0
  {
    match filesize
    case Some(n) =>
      if n != 0 then
        var t := "~" + IntToString(n / MiB) + " MB";
        assert t[0] != "Unknown size"[0];
        t
      else "Unknown size"
    case None => "Unknown size"
  }

  /** A label for a known positive size is the size in whole mebibytes, rounded
      down, between `~` and ` MB`. */
  lemma SizeLabelTruncates(n: int)
    requires n > 0
    ensures var t := SizeLabel(Some(n));
            var d := t[1..|t| - 3];
            |t| > 4 && t == "~" + d + " MB" && AllDigits(d)
            && ParseDigits(d) * MiB <= n < (ParseDigits(d) + 1) * MiB
  {
    var d := NatToString(n / MiB);
    var t := SizeLabel(Some(n));
    assert t == "~" + d + " MB";
    assert t[1..|t| - 3] == d;
    ParseNatToString(n / MiB);
  }

  function FpsOf(f: RawFormat): Fps
  {
    match f.fps
    case Some(r) => if r != 0.0 then Rate(r) else NotApplicable
    case None => NotApplicable
  }

  function VideoEntry(f: RawFormat): (e: VideoFormat)
    requires IsVideo(f)
  {
    VideoFormat(FormatId(f), Ext(f), FpsOf(f), SizeLabel(f.filesize), VCodec(f), ACodec(f),
                f.width, f.height.value, ACodec(f) != Some("none"))
  }

  function AudioEntry(f: RawFormat): AudioFormat
  {
    AudioFormat(FormatId(f), Ext(f), ACodec(f), SizeLabel(f.filesize))
  }

  // ---------------------------------------------------------------------------
  // What the catalog of a format list is
  // ---------------------------------------------------------------------------

  /** The distinct height keys of the video records, in order of first appearance. */
  function VideoKeys(fs: seq<RawFormat>): seq<string>
    decreases |fs|
  {
    if fs == [] then []
    else
      var ks := VideoKeys(fs[..|fs| - 1]);
      var f := fs[|fs| - 1];
      if IsVideo(f) && KeyOf(f) !in ks then ks + [KeyOf(f)] else ks
  }

  /** The entries of the video records whose key is `key`, in input order. */
  function VideoEntries(fs: seq<RawFormat>, key: string): seq<VideoFormat>
    decreases |fs|
  {
    if fs == [] then []
    else
      var f := fs[|fs| - 1];
      VideoEntries(fs[..|fs| - 1], key) + if IsVideo(f) && KeyOf(f) == key then [VideoEntry(f)] else []
  }

  /** The entries of the audio-only records, in input order (an audio-only
      record is never a video record, so the `elif` adds no condition). */
  function AudioEntries(fs: seq<RawFormat>): seq<AudioFormat>
    decreases |fs|
  {
    if fs == [] then []
    else
      var f := fs[|fs| - 1];
      AudioEntries(fs[..|fs| - 1]) + if IsAudio(f) then [AudioEntry(f)] else []
  }

  /** `cat` is the video catalog of the format list `fs`. */
  ghost predicate IsCatalogOf(cat: Catalog, fs: seq<RawFormat>)
  {
    Keys(cat) == VideoKeys(fs)
    && forall i :: 0 <= i < |cat| ==> cat[i].formats == VideoEntries(fs, cat[i].key)
  }

  /** The properties every catalog of a format list has. */
  ghost predicate WellFormed(cat: Catalog)
  {
    (forall i, j :: 0 <= i < j < |cat| ==> cat[i].key != cat[j].key)
    && forall i :: 0 <= i < |cat| ==> |cat[i].formats| > 0 && forall e :: e in cat[i].formats ==>
         e.height > 0 && HeightKey(e.height) == cat[i].key
         && e.vcodec != Some("none") && e.hasAudio == (e.acodec != Some("none"))
  }

  // ---------------------------------------------------------------------------
  // Building the catalog (the loop of fetch_video_formats)
  // ---------------------------------------------------------------------------

  /** `quality_key in video_formats`, giving the position of the key, or `|cat|`. */
  function IndexOfKey(cat: Catalog, key: string): (k: nat)
    ensures k <= |cat|
    ensures k < |cat| ==> cat[k].key == key
    ensures k == |cat| ==> forall i :: 0 <= i < |cat| ==> cat[i].key != key
    decreases |cat|
  {
    if cat == [] then 0
    else if cat[0].key == key then 0
    else 1 + IndexOfKey(cat[1..], key)
  }

  method BuildCatalog(formats: seq<RawFormat>) returns (video: Catalog, audio: seq<AudioFormat>)
    ensures IsCatalogOf(video, formats)
    ensures audio == AudioEntries(formats)
  {
    video := [];
    audio := [];
    var i := 0;
    while i < |formats|
      invariant 0 <= i <= |formats|
      invariant IsCatalogOf(video, formats[..i])
      invariant audio == AudioEntries(formats[..i])
    {
      var f := formats[i];
      assert formats[..i + 1] == formats[..i] + [f];
      if IsVideo(f) {
        var key := KeyOf(f);
        var k := IndexOfKey(video, key);
        if k == |video| {
          AddNewKeyKeepsCatalog(video, formats[..i], f);
          video := video + [Group(key, [VideoEntry(f)])];
        } else {
          AddToGroupKeepsCatalog(video, formats[..i], f, k);
          video := video[k := Group(key, video[k].formats + [VideoEntry(f)])];
        }
      } else {
        NonVideoKeepsCatalog(video, formats[..i], f);
        if IsAudio(f) {
          audio := audio + [AudioEntry(f)];
        }
      }
      assert (formats[..i] + [f])[..i] == formats[..i];
      i := i + 1;
    }
    assert formats[..|formats|] == formats;
  }

  /** A record with a new height opens a group holding just its entry. */
  lemma AddNewKeyKeepsCatalog(cat: Catalog, p: seq<RawFormat>, f: RawFormat)
    requires IsCatalogOf(cat, p) && IsVideo(f) && KeyOf(f) !in Keys(cat)
    ensures IsCatalogOf(cat + [Group(KeyOf(f), [VideoEntry(f)])], p + [f])
  {
    var q := p + [f];
    var key := KeyOf(f);
    var updated := cat + [Group(key, [VideoEntry(f)])];
    assert q[..|q| - 1] == p;
    VideoEntriesOfAbsentKey(p, key);
    assert Keys(updated) == Keys(cat) + [key];
    forall i | 0 <= i < |updated|
      ensures updated[i].formats == VideoEntries(q, updated[i].key)
    {
      if i < |cat| {
        assert updated[i] == cat[i] && cat[i].key == Keys(cat)[i];
      }
    }
  }

  /** A record with a known height is appended to the group of that height. */
  lemma AddToGroupKeepsCatalog(cat: Catalog, p: seq<RawFormat>, f: RawFormat, k: nat)
    requires IsCatalogOf(cat, p) && IsVideo(f) && k < |cat| && cat[k].key == KeyOf(f)
    ensures IsCatalogOf(cat[k := Group(KeyOf(f), cat[k].formats + [VideoEntry(f)])], p + [f])
  {
    var q := p + [f];
    var key := KeyOf(f);
    var updated := cat[k := Group(key, cat[k].formats + [VideoEntry(f)])];
    assert q[..|q| - 1] == p;
    assert Keys(cat)[k] == key;
    assert Keys(updated) == Keys(cat);
    VideoKeysDistinct(p);
    forall i | 0 <= i < |updated|
      ensures updated[i].formats == VideoEntries(q, updated[i].key)
    {
      if i != k {
        assert updated[i] == cat[i] && cat[i].key == Keys(cat)[i];
      }
    }
  }

  lemma {:induction false} NonVideoKeepsCatalog(cat: Catalog, p: seq<RawFormat>, f: RawFormat)
    requires IsCatalogOf(cat, p) && !IsVideo(f)
    ensures IsCatalogOf(cat, p + [f])
  {
    assert (p + [f])[..|p + [f]| - 1] == p;
  }

  // ---------------------------------------------------------------------------
  // Properties of the catalog of a format list
  // ---------------------------------------------------------------------------

  /** Every height key appears once. */
  lemma {:induction false} VideoKeysDistinct(fs: seq<RawFormat>)
    ensures forall i, j :: 0 <= i < j < |VideoKeys(fs)| ==> VideoKeys(fs)[i] != VideoKeys(fs)[j]
    decreases |fs|
  {
    if fs != [] {
      VideoKeysDistinct(fs[..|fs| - 1]);
    }
  }

  /** A key is in the catalog exactly when some video record has that height key. */
  lemma {:induction false} VideoKeysComplete(fs: seq<RawFormat>, key: string)
    ensures key in VideoKeys(fs) <==> exists n :: 0 <= n < |fs| && IsVideo(fs[n]) && KeyOf(fs[n]) == key
    decreases |fs|
  {
    if fs != [] {
      var p := fs[..|fs| - 1];
      VideoKeysComplete(p, key);
      assert forall n :: 0 <= n < |p| ==> p[n] == fs[n];
      if key in VideoKeys(p) {
        var n :| 0 <= n < |p| && IsVideo(p[n]) && KeyOf(p[n]) == key;
        assert fs[n] == p[n];
      }
    }
  }

  /** A key that no video record has collects no entries. */
  lemma {:induction false} VideoEntriesOfAbsentKey(fs: seq<RawFormat>, key: string)
    requires key !in VideoKeys(fs)
    ensures VideoEntries(fs, key) == []
    decreases |fs|
  {
    if fs != [] {
      var p := fs[..|fs| - 1];
      assert key !in VideoKeys(p);
      VideoEntriesOfAbsentKey(p, key);
    }
  }

  /** Entries of a group are exactly the entries of the video records with that key. */
  lemma VideoEntriesOrigin(fs: seq<RawFormat>, key: string, e: VideoFormat)
    ensures e in VideoEntries(fs, key)
            <==> exists n :: 0 <= n < |fs| && IsVideo(fs[n]) && KeyOf(fs[n]) == key && VideoEntry(fs[n]) == e
  {
    if e in VideoEntries(fs, key) {
      var n := VideoEntrySource(fs, key, e);
    }
    if exists n :: 0 <= n < |fs| && IsVideo(fs[n]) && KeyOf(fs[n]) == key && VideoEntry(fs[n]) == e {
      var n :| 0 <= n < |fs| && IsVideo(fs[n]) && KeyOf(fs[n]) == key && VideoEntry(fs[n]) == e;
      VideoEntryListed(fs, key, n);
    }
  }

  /** The record an entry of a group comes from. */
  lemma {:induction false} VideoEntrySource(fs: seq<RawFormat>, key: string, e: VideoFormat) returns (n: nat)
    requires e in VideoEntries(fs, key)
    ensures n < |fs| && IsVideo(fs[n]) && KeyOf(fs[n]) == key && VideoEntry(fs[n]) == e
    decreases |fs|
  {
    var p := fs[..|fs| - 1];
    if e in VideoEntries(p, key) {
      n := VideoEntrySource(p, key, e);
      assert fs[n] == p[n];
    } else {
      n := |fs| - 1;
    }
  }

  /** Every video record's entry is listed under its key. */
  lemma {:induction false} VideoEntryListed(fs: seq<RawFormat>, key: string, n: nat)
    requires n < |fs| && IsVideo(fs[n]) && KeyOf(fs[n]) == key
    ensures VideoEntry(fs[n]) in VideoEntries(fs, key)
    decreases |fs|
  {
    var p := fs[..|fs| - 1];
    if n < |p| {
      assert fs[n] == p[n];
      VideoEntryListed(p, key, n);
    }
  }

  /** Grouping keeps input order: the entries of a concatenation are the entries
      of the first part followed by those of the second. */
  lemma {:induction false} VideoEntriesConcat(a: seq<RawFormat>, b: seq<RawFormat>, key: string)
    ensures VideoEntries(a + b, key) == VideoEntries(a, key) + VideoEntries(b, key)
    decreases |b|
  {
    if b == [] {
      assert a + b == a;
    } else {
      var b' := b[..|b| - 1];
      assert (a + b)[..|a + b| - 1] == a + b';
      VideoEntriesConcat(a, b', key);
    }
  }

  /** The audio list keeps input order in the same way. */
  lemma {:induction false} AudioEntriesConcat(a: seq<RawFormat>, b: seq<RawFormat>)
    ensures AudioEntries(a + b) == AudioEntries(a) + AudioEntries(b)
    decreases |b|
  {
    if b == [] {
      assert a + b == a;
    } else {
      var b' := b[..|b| - 1];
      assert (a + b)[..|a + b| - 1] == a + b';
      AudioEntriesConcat(a, b');
    }
  }

  /** The audio list holds exactly the entries of the audio-only records. */
  lemma AudioEntriesOrigin(fs: seq<RawFormat>, e: AudioFormat)
    ensures e in AudioEntries(fs) <==> exists n :: 0 <= n < |fs| && IsAudio(fs[n]) && AudioEntry(fs[n]) == e
  {
    if e in AudioEntries(fs) {
      var n := AudioEntrySource(fs, e);
    }
    if exists n :: 0 <= n < |fs| && IsAudio(fs[n]) && AudioEntry(fs[n]) == e {
      var n :| 0 <= n < |fs| && IsAudio(fs[n]) && AudioEntry(fs[n]) == e;
      AudioEntryListed(fs, n);
    }
  }

  /** The record an audio entry comes from. */
  lemma {:induction false} AudioEntrySource(fs: seq<RawFormat>, e: AudioFormat) returns (n: nat)
    requires e in AudioEntries(fs)
    ensures n < |fs| && IsAudio(fs[n]) && AudioEntry(fs[n]) == e
    decreases |fs|
  {
    var p := fs[..|fs| - 1];
    if e in AudioEntries(p) {
      n := AudioEntrySource(p, e);
      assert fs[n] == p[n];
    } else {
      n := |fs| - 1;
    }
  }

  /** Every audio-only record's entry is listed. */
  lemma {:induction false} AudioEntryListed(fs: seq<RawFormat>, n: nat)
    requires n < |fs| && IsAudio(fs[n])
    ensures AudioEntry(fs[n]) in AudioEntries(fs)
    decreases |fs|
  {
    var p := fs[..|fs| - 1];
    if n < |p| {
      assert fs[n] == p[n];
      AudioEntryListed(p, n);
    }
  }

  /** A format list determines its catalog. */
  lemma CatalogUnique(a: Catalog, b: Catalog, fs: seq<RawFormat>)
    requires IsCatalogOf(a, fs) && IsCatalogOf(b, fs)
    ensures a == b
  {
    assert |a| == |b|;
    forall i | 0 <= i < |a| ensures a[i] == b[i] {
      assert a[i].key == Keys(a)[i] == Keys(b)[i] == b[i].key;
    }
  }

  /** The catalog is empty exactly when no record is a video record. */
  lemma CatalogEmptyIffNoVideo(cat: Catalog, fs: seq<RawFormat>)
    requires IsCatalogOf(cat, fs)
    ensures cat == [] <==> forall n :: 0 <= n < |fs| ==> !IsVideo(fs[n])
  {
    if cat != [] {
      VideoKeysComplete(fs, cat[0].key);
      assert cat[0].key == Keys(cat)[0];
    } else {
      forall n | 0 <= n < |fs| ensures !IsVideo(fs[n]) {
        if IsVideo(fs[n]) { VideoKeysComplete(fs, KeyOf(fs[n])); }
      }
    }
  }

  /** The catalog of a format list is well formed: keys are distinct, no group is
      empty, every entry sits under its own height and `has_audio` says whether
      the entry carries an audio codec. */
  lemma CatalogIsWellFormed(cat: Catalog, fs: seq<RawFormat>)
    requires IsCatalogOf(cat, fs)
    ensures WellFormed(cat)
  {
    VideoKeysDistinct(fs);
    forall i | 0 <= i < |cat|
      ensures |cat[i].formats| > 0
      ensures forall e :: e in cat[i].formats ==>
         e.height > 0 && HeightKey(e.height) == cat[i].key
         && e.vcodec != Some("none") && e.hasAudio == (e.acodec != Some("none"))
    {
      var key := cat[i].key;
      assert key == Keys(cat)[i];
      VideoKeysComplete(fs, key);
      var n :| 0 <= n < |fs| && IsVideo(fs[n]) && KeyOf(fs[n]) == key;
      VideoEntriesOrigin(fs, key, VideoEntry(fs[n]));
      forall e | e in cat[i].formats
        ensures e.height > 0 && HeightKey(e.height) == key
        ensures e.vcodec != Some("none") && e.hasAudio == (e.acodec != Some("none"))
      {
        VideoEntriesOrigin(fs, key, e);
      }
    }
  }
}
