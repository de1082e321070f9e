/** The analysis texts shown after a successful analysis: the formats summary of
    `update_formats_display` and the `m:ss` duration of `show_analysis_results`. */
module Summary {
  import opened Wrappers
  import opened Text
  import opened Catalog
  import opened Negotiation

  // ---------------------------------------------------------------------------
  // Duration
  // ---------------------------------------------------------------------------

  /** `f"{n:02d}"` for `0 <= n < 100`. */
  function TwoDigits(n: nat): (s: string)
    requires n < 100
    ensures |s| == 2 && AllDigits(s) && ParseDigits(s) == n
  {
    var s := [DigitChar(n / 10), DigitChar(n % 10)];
    assert s[..1] == [DigitChar(n / 10)] && s[..1][..0] == [];
    assert ParseDigits(s[..1]) == n / 10;
    s
  }

  /** `f"{duration // 60}:{duration % 60:02d}"`. Python's `//` and `%` round
      toward minus infinity; for the positive divisor 60 they agree with
      Dafny's `/` and `%`. */
  function DurationText(seconds: int): string
  {
    IntToString(seconds / 60) + ":" + TwoDigits(seconds % 60)
  }

  /** A duration in seconds reads back from its text: whole minutes, a colon, and
      two digits of seconds below 60. */
  lemma DurationRoundTrip(seconds: nat)
    ensures var t := DurationText(seconds);
            var minutes := t[..|t| - 3];
            var secs := t[|t| - 2..];
            |t| >= 4 && t[|t| - 3] == ':' && |minutes| > 0 && AllDigits(minutes) && AllDigits(secs)
            && ParseDigits(secs) < 60 && ParseDigits(minutes) * 60 + ParseDigits(secs) == seconds
  {
    var t := DurationText(seconds);
    var m := NatToString(seconds / 60);
    assert t == m + ":" + TwoDigits(seconds % 60);
    assert t[..|t| - 3] == m;
    assert t[|t| - 2..] == TwoDigits(seconds % 60);
    ParseNatToString(seconds / 60);
  }

  /** A negative duration keeps the floor semantics: one second before zero is
      minute -1 and second 59. */
  lemma NegativeDurationExample()
    ensures DurationText(-1) == "-1:59"
  {
    assert NatToString(1) == "1";
    assert TwoDigits(59) == "59";
  }

  // ---------------------------------------------------------------------------
  // Resolutions
  // ---------------------------------------------------------------------------

  /** One group as the summary sees it. */
  datatype Row = Row(height: nat, key: string, count: nat)

  /** Every key of the catalog reads as a height (`int(quality.replace('p', ''))`). */
  predicate ReadableKeys(cat: Catalog)
  {
    forall i :: 0 <= i < |cat| ==> KeyHeight(cat[i].key).Some?
  }

  function RowsOf(cat: Catalog): (rows: seq<Row>)
    requires ReadableKeys(cat)
    ensures |rows| == |cat|
    ensures forall i :: 0 <= i < |cat| ==>
              rows[i] == Row(KeyHeight(cat[i].key).value, cat[i].key, |cat[i].formats|)
  {
    seq(|cat|, i requires 0 <= i < |cat| => Row(KeyHeight(cat[i].key).value, cat[i].key, |cat[i].formats|))
  }

  predicate SortedByHeight(rows: seq<Row>)
  {
    forall i, j :: 0 <= i < j < |rows| ==> rows[i].height >= rows[j].height
  }

  /** Inserts `r` after every row at least as tall, keeping equal heights in
      arrival order. */
  function InsertByHeight(r: Row, rows: seq<Row>): (res: seq<Row>)
    requires SortedByHeight(rows)
    ensures |res| == |rows| + 1
    ensures SortedByHeight(res)
    ensures multiset(res) == multiset(rows) + multiset{r}
    decreases |rows|
  {
    if rows == [] then [r]
    else if rows[0].height < r.height then [r] + rows
    else
      var rest := InsertByHeight(r, rows[1..]);
      assert rows == [rows[0]] + rows[1..];
      HeadBoundsInsertion(rows[0], rows[1..], r, rest);
      [rows[0]] + rest
  }

  /** A row at least as tall as every row of `tail` and as `r` is at least as
      tall as every row of a rearrangement of `tail` with `r` added. */
  lemma HeadBoundsInsertion(top: Row, tail: seq<Row>, r: Row, rest: seq<Row>)
    requires forall k :: 0 <= k < |tail| ==> top.height >= tail[k].height
    requires top.height >= r.height
    requires multiset(rest) == multiset(tail) + multiset{r}
    ensures forall k :: 0 <= k < |rest| ==> top.height >= rest[k].height
  {
    forall k | 0 <= k < |rest| ensures top.height >= rest[k].height {
      assert rest[k] in multiset(tail) + multiset{r};
      if rest[k] != r {
        var j :| 0 <= j < |tail| && tail[j] == rest[k];
      }
    }
  }

  /** `sorted(..., key=height, reverse=True)`: tallest first, and a stable sort. */
  function SortByHeight(rows: seq<Row>): (res: seq<Row>)
    ensures |res| == |rows|
    ensures SortedByHeight(res)
    ensures multiset(res) == multiset(rows)
    decreases |rows|
  {
    if rows == [] then []
    else
      var p := rows[..|rows| - 1];
      assert rows == p + [rows[|rows| - 1]];
      InsertByHeight(rows[|rows| - 1], SortByHeight(p))
  }

  const MaxRows: nat := 6

  /** The rows the summary lists: the first six of the sorted rows. */
  function Shown(cat: Catalog): seq<Row>
    requires ReadableKeys(cat)
  {
    var sorted := SortByHeight(RowsOf(cat));
    if |sorted| > MaxRows then sorted[..MaxRows] else sorted
  }

  /** The summary lists as many rows as there are groups, up to six, each one a
      group of the catalog, and no group it leaves out is taller than a group
      it lists. */
  lemma ShownAreTallest(cat: Catalog)
    requires ReadableKeys(cat)
    ensures |Shown(cat)| == if |cat| > MaxRows then MaxRows else |cat|
    ensures forall r :: r in Shown(cat) ==> r in RowsOf(cat)
    ensures forall i :: 0 <= i < |cat| && RowsOf(cat)[i] !in Shown(cat) ==>
              forall r :: r in Shown(cat) ==> r.height >= RowsOf(cat)[i].height
  {
    var rows := RowsOf(cat);
    var sorted := SortByHeight(rows);
    var shown := Shown(cat);
    assert shown == sorted[..|shown|];
    forall r | r in shown ensures r in rows {
      assert r in multiset(sorted);
    }
    forall i | 0 <= i < |cat| && rows[i] !in shown
      ensures forall r :: r in shown ==> r.height >= rows[i].height
    {
      assert rows[i] in multiset(sorted);
      var j :| 0 <= j < |sorted| && sorted[j] == rows[i];
      assert j >= |shown|;
      forall r | r in shown ensures r.height >= rows[i].height {
        var k :| 0 <= k < |shown| && shown[k] == r;
        assert sorted[k] == r;
      }
    }
  }

  /** The five quality tiers of the emoji, lowest first. */
  function Tier(height: nat): (tier: nat)
    ensures tier < 5
  {
    if height >= 2160 then 4
    else if height >= 1440 then 3
    else if height >= 1080 then 2
    else if height >= 720 then 1
    else 0
  }

  /** A taller video never gets a lower tier. */
  lemma TierMonotone(a: nat, b: nat)
    requires a <= b
    ensures Tier(a) <= Tier(b)
  {
  }

  /** 📱, 📺, ✅, ⭐, 🔥 */
  const TierEmoji: seq<string> := ["\U{1F4F1}", "\U{1F4FA}", "\U{2705}", "\U{2B50}", "\U{1F525}"]

  function RowLine(r: Row): string
  {
    "  " + TierEmoji[Tier(r.height)] + " " + r.key + " (" + NatToString(r.count) + " formats)\n"
  }

  /** The `... +N more` line, present when more than six groups exist. */
  function MoreLine(cat: Catalog): (line: Option<string>)
    ensures line.Some? <==> |cat| > MaxRows
  {
    if |cat| > MaxRows then Some("  ... +" + NatToString(|cat| - MaxRows) + " more\n") else None
  }

  /** The number in the `... +N more` line is the number of groups left out. */
  lemma MoreLineCountsHidden(cat: Catalog)
    requires ReadableKeys(cat) && |cat| > MaxRows
    ensures var line := MoreLine(cat).value;
            var n := line[7..|line| - 6];
            |line| > 13 && AllDigits(n) && ParseDigits(n) + |Shown(cat)| == |cat|
  {
    var k := |cat| - MaxRows;
    var n := NatToString(k);
    assert MoreLine(cat).value == "  ... +" + n + " more\n";
    Middle("  ... +", n, " more\n");
    ParseNatToString(k);
    ShownLength(cat);
  }

  /** Six rows are shown when there are more than six groups, all of them otherwise. */
  lemma ShownLength(cat: Catalog)
    requires ReadableKeys(cat)
    ensures |Shown(cat)| == if |cat| > MaxRows then MaxRows else |cat|
  {
  }

  // ---------------------------------------------------------------------------
  // Containers
  // ---------------------------------------------------------------------------

  /** Python's `<` on strings: code point by code point, a proper prefix first. */
  predicate Below(a: string, b: string)
    decreases |a|
  {
    if a == [] then b != []
    else if b == [] then false
    else if a[0] != b[0] then a[0] < b[0]
    else Below(a[1..], b[1..])
  }

  lemma {:induction false} BelowIrreflexive(a: string)
    ensures !Below(a, a)
    decreases |a|
  {
    if a != [] {
      BelowIrreflexive(a[1..]);
    }
  }

  lemma {:induction false} BelowTransitive(a: string, b: string, c: string)
    requires Below(a, b) && Below(b, c)
    ensures Below(a, c)
    decreases |a|
  {
    if a != [] && a[0] == b[0] == c[0] {
      BelowTransitive(a[1..], b[1..], c[1..]);
    }
  }

  lemma {:induction false} BelowTotal(a: string, b: string)
    requires a != b
    ensures Below(a, b) || Below(b, a)
    decreases |a|
  {
    if a != [] && b != [] && a[0] == b[0] {
      assert a == [a[0]] + a[1..] && b == [b[0]] + b[1..];
      BelowTotal(a[1..], b[1..]);
    }
  }

  predicate StrictlySorted(s: seq<string>)
  {
    forall i, j :: 0 <= i < j < |s| ==> Below(s[i], s[j])
  }

  /** Adds `x` to a strictly sorted list unless it is already there. */
  function InsertDistinct(x: string, s: seq<string>): (res: seq<string>)
    requires StrictlySorted(s)
    ensures StrictlySorted(res)
    ensures forall y :: y in res <==> y in s || y == x
    decreases |s|
  {
    if s == [] then [x]
    else if x == s[0] then s
    else if Below(x, s[0]) then
      forall j | 0 < j < |s| ensures Below(x, s[j]) { BelowTransitive(x, s[0], s[j]); }
      [x] + s
    else
      BelowTotal(x, s[0]);
      var rest := InsertDistinct(x, s[1..]);
      assert s == [s[0]] + s[1..];
      forall k | 0 <= k < |rest| ensures Below(s[0], rest[k]) {
        if rest[k] != x {
          assert rest[k] in s[1..];
          var j :| 0 <= j < |s[1..]| && s[1..][j] == rest[k];
          assert s[j + 1] == rest[k];
        }
      }
      [s[0]] + rest
  }

  /** `sorted(set(xs))` */
  function SortedDistinct(xs: seq<string>): (res: seq<string>)
    ensures StrictlySorted(res)
    ensures forall y :: y in res <==> y in xs
    decreases |xs|
  {
    if xs == [] then []
    else
      var p := xs[..|xs| - 1];
      assert xs == p + [xs[|xs| - 1]];
      InsertDistinct(xs[|xs| - 1], SortedDistinct(p))
  }

  /** Every entry's container, upper-cased, group by group. */
  function UpperExts(cat: Catalog): seq<string>
    decreases |cat|
  {
    if cat == [] then []
    else GroupExts(cat[0]) + UpperExts(cat[1..])
  }

  function GroupExts(g: Group): (exts: seq<string>)
    ensures |exts| == |g.formats|
    ensures forall j :: 0 <= j < |g.formats| ==> exts[j] == Upper(g.formats[j].ext)
  {
    seq(|g.formats|, j requires 0 <= j < |g.formats| => Upper(g.formats[j].ext))
  }

  /** `x` is the upper-cased container of some entry of the catalog. */
  ghost predicate IsEntryExt(cat: Catalog, x: string)
  {
    exists i, j :: 0 <= i < |cat| && 0 <= j < |cat[i].formats| && x == Upper(cat[i].formats[j].ext)
  }

  lemma {:induction false} UpperExtsMembers(cat: Catalog)
    ensures forall x :: x in UpperExts(cat) <==> IsEntryExt(cat, x)
    decreases |cat|
  {
    if cat != [] {
      UpperExtsMembers(cat[1..]);
      forall x ensures x in UpperExts(cat) <==> IsEntryExt(cat, x) {
        if x in GroupExts(cat[0]) {
          var j :| 0 <= j < |GroupExts(cat[0])| && GroupExts(cat[0])[j] == x;
          assert cat[0].formats[j].ext == cat[0].formats[j].ext;
        } else if x in UpperExts(cat[1..]) {
          var i, j :| 0 <= i < |cat[1..]| && 0 <= j < |cat[1..][i].formats| && x == Upper(cat[1..][i].formats[j].ext);
          assert cat[i + 1] == cat[1..][i];
        }
        if IsEntryExt(cat, x) {
          var i, j :| 0 <= i < |cat| && 0 <= j < |cat[i].formats| && x == Upper(cat[i].formats[j].ext);
          if i == 0 {
            assert GroupExts(cat[0])[j] == x;
          } else {
            assert cat[1..][i - 1] == cat[i];
            assert IsEntryExt(cat[1..], x);
          }
        }
      }
    }
  }

  /** The `FORMATS:` list names every container of the video entries once, in
      upper case, in increasing order. */
  lemma ContainerListIsSortedSet(cat: Catalog)
    ensures StrictlySorted(SortedDistinct(UpperExts(cat)))
    ensures forall x :: x in SortedDistinct(UpperExts(cat)) <==> IsEntryExt(cat, x)
    ensures forall i, j :: 0 <= i < j < |SortedDistinct(UpperExts(cat))| ==>
              SortedDistinct(UpperExts(cat))[i] != SortedDistinct(UpperExts(cat))[j]
  {
    var s := SortedDistinct(UpperExts(cat));
    UpperExtsMembers(cat);
    forall i, j | 0 <= i < j < |s| ensures s[i] != s[j] {
      if s[i] == s[j] { BelowIrreflexive(s[i]); }
    }
  }

  // ---------------------------------------------------------------------------
  // The whole text
  // ---------------------------------------------------------------------------

  const Header: string := "\U{1F3AC} RESOLUTIONS:\n"

  const Tip: string := "\n\n\U{1F4A1} TIP: MP4 1080p recommended"

  /** The text of the formats box, or nothing when there is no catalog (the box
      is left as it is); the text opens with the resolutions header and closes
      with the tip. */
  function FormatsSummary(cat: Catalog): (text: Option<string>)
    requires ReadableKeys(cat)
    ensures text.None? <==> cat == []
    ensures text.Some? ==> StartsWith(text.value, Header) && EndsWith(text.value, Tip)
  {
    if cat == [] then None
    else
      var t := Header + SummaryBody(cat) + Tip;
      assert t[..|Header|] == Header && t[|t| - |Tip|..] == Tip;
      Some(t)
  }

  /** The lines between the header and the tip: the shown rows, the count of
      the hidden ones and the container list. */
  function SummaryBody(cat: Catalog): string
    requires ReadableKeys(cat)
  {
    var shown := Shown(cat);
    var lines := seq(|shown|, i requires 0 <= i < |shown| => RowLine(shown[i]));
    var more := match MoreLine(cat) case Some(l) => l case None => "";
    Join(lines, "") + more + "\n\U{1F4F9} FORMATS: " + Join(SortedDistinct(UpperExts(cat)), ", ")
  }

  /** Every catalog built from a format list has readable keys. */
  lemma BuiltCatalogHasReadableKeys(cat: Catalog, fs: seq<RawFormat>)
    requires IsCatalogOf(cat, fs)
    ensures ReadableKeys(cat)
    ensures forall i :: 0 <= i < |cat| ==> RowsOf(cat)[i].height == GroupHeight(cat[i])
  {
    CatalogHeights(cat, fs);
    forall i | 0 <= i < |cat| ensures KeyHeight(cat[i].key) == Some(GroupHeight(cat[i])) {
      KeyHeightOfHeightKey(GroupHeight(cat[i]));
    }
  }
}
