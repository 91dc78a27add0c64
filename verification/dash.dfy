/** The search front end with a video player: the clicked result plays in
    a four-second window of its video, and the thumbnail list is never
    filled because the repository has no `query_video_path`. Its result
    cards, search callback and highlighting are the ones in `Ui`. */
module DashVideo {

  import opened Wrappers
  import opened Values
  import opened Text
  import opened MockRepo
  import opened Ui

  const ThumbnailsNotFound: string := "Thumnails not found."

  /** The media fragment playing two seconds either side of the offset: it
      reads back as the window [offset - 2, offset + 2], and both bounds
      are written as `str` writes them. */
  function TimeFragment(offset: int): (r: string)
    ensures |r| > 3 && r[..3] == "#t="
    ensures ParseFragment(r) == Some((offset - 2, offset + 2))
    ensures CanonicalFragment(r)
  {
    var a := IntToString(offset - 2);
    var b := IntToString(offset + 2);
    IntToStringRoundTrip(offset - 2);
    IntToStringRoundTrip(offset + 2);
    ParseFragmentOf(a, b);
    CanonicalFragmentOf(a, b);
    "#t=" + a + "," + b
  }

  /** A `#t=<start>,<end>` fragment whose two bounds are canonical numerals,
      with no sign other than a leading minus and no leading zeros. */
  predicate CanonicalFragment(f: string) {
    && |f| >= 3 && f[..3] == "#t="
    && match IndexOf(f[3..], ',')
       case None => false
       case Some(c) => CanonicalInt(f[3..][..c]) && CanonicalInt(f[3..][c + 1..])
  }

  /** A fragment built from two canonical numerals is canonical. */
  lemma CanonicalFragmentOf(a: string, b: string)
    requires CanonicalInt(a) && CanonicalInt(b)
    ensures CanonicalFragment("#t=" + a + "," + b)
  {
    var f := "#t=" + a + "," + b;
    assert f[..3] == "#t=";
    assert f[3..] == a + [','] + b;
    assert forall j :: 0 <= j < |a| ==> a[j] != ',' by {
      CanonicalIntIsIntToString(a);
    }
    FirstCommaAfter(a, b);
    assert f[3..][..|a|] == a;
    assert f[3..][|a| + 1..] == b;
  }

  /** The two numerals a canonical fragment is made of. */
  lemma CanonicalFragmentParts(f: string) returns (a: string, b: string)
    requires CanonicalFragment(f)
    ensures f == "#t=" + a + "," + b
    ensures IntText(a) && IntText(b)
    ensures a == IntToString(ParseInt(a)) && b == IntToString(ParseInt(b))
    ensures ParseFragment(f) == Some((ParseInt(a), ParseInt(b)))
  {
    var c := IndexOf(f[3..], ',').value;
    a, b := f[3..][..c], f[3..][c + 1..];
    assert f == "#t=" + a + "," + b by {
      assert f[3..] == a + [','] + b;
      assert f == f[..3] + f[3..];
    }
    CanonicalIntIsIntToString(a);
    CanonicalIntIsIntToString(b);
    ParseFragmentOf(a, b);
  }

  /** A canonical fragment is determined by the window it reads back as, so
      `TimeFragment(offset)` is the only canonical fragment for its window. */
  lemma CanonicalFragmentUnique(f: string, g: string)
    requires CanonicalFragment(f) && CanonicalFragment(g)
    requires ParseFragment(f) == ParseFragment(g)
    ensures f == g
  {
    var a, b := CanonicalFragmentParts(f);
    var a', b' := CanonicalFragmentParts(g);
  }

  /** An optionally signed decimal numeral, as `int()` accepts it. */
  predicate IntText(s: string) {
    |s| > 0 && (s[0] == '-' || IsDigit(s[0])) && forall i :: 1 <= i < |s| ==> IsDigit(s[i])
  }

  /** The first position of `c` in `s`. */
  function IndexOf(s: string, c: char): (r: Option<nat>)
    ensures r.Some? ==> r.value < |s| && s[r.value] == c && forall j :: 0 <= j < r.value ==> s[j] != c
    ensures r.None? ==> forall j :: 0 <= j < |s| ==> s[j] != c
  {
    if |s| == 0 then None
    else if s[0] == c then Some(0)
    else match IndexOf(s[1..], c)
      case None => None
      case Some(k) => Some(k + 1)
  }

  /** Reads the start and end seconds back from a `#t=<start>,<end>` fragment. */
  function ParseFragment(f: string): (r: Option<(int, int)>)
    ensures r.Some? ==> |f| >= 3 && f[..3] == "#t=" && ',' in f
  {
    if |f| < 3 || f[..3] != "#t=" then None
    else
      var rest := f[3..];
      match IndexOf(rest, ',')
      case None => None
      case Some(c) =>
        assert f[3 + c] == ',';
        var a := rest[..c];
        var b := rest[c + 1..];
        if IntText(a) && IntText(b) then Some((ParseInt(a), ParseInt(b))) else None
  }

  /** The first comma of `a + "," + b` is the one after `a` when `a` has none. */
  lemma {:induction false} FirstCommaAfter(a: string, b: string)
    requires forall j :: 0 <= j < |a| ==> a[j] != ','
    ensures IndexOf(a + [','] + b, ',') == Some(|a|)
  {
    if |a| > 0 {
      FirstCommaAfter(a[1..], b);
      assert (a + [','] + b)[1..] == a[1..] + [','] + b;
    }
  }

  /** A fragment built from two numerals reads back as their values. */
  lemma ParseFragmentOf(a: string, b: string)
    requires IntText(a) && IntText(b)
    ensures ParseFragment("#t=" + a + "," + b) == Some((ParseInt(a), ParseInt(b)))
  {
    var f := "#t=" + a + "," + b;
    assert f[..3] == "#t=";
    var rest := f[3..];
    assert rest == a + [','] + b;
    assert forall j :: 0 <= j < |a| ==> a[j] != ',' by {
      assert forall j :: 1 <= j < |a| ==> IsDigit(a[j]);
    }
    FirstCommaAfter(a, b);
    assert rest[..|a|] == a;
    assert rest[|a| + 1..] == b;
  }

  /** `search_result_clicked_update_video`: no source until a card is
      clicked, then the clicked card's video, relative to the app, with the
      four-second fragment around the card's offset. */
  function VideoSrc(m: MockRepository, ts: seq<Option<int>>, ids: seq<ResultId>): (r: Result<string>)
    ensures (forall i :: 0 <= i < |ts| ==> ClickTime(ts[i]) == 0) <==> r == Ok("")
    ensures r.Ok? && r.value != "" ==>
      exists k: nat :: MostRecent(ts, k) && k < |ids|
        && QueryVideoPathById(m, ids[k].videoId).Ok?
        && r.value == "./" + QueryVideoPathById(m, ids[k].videoId).value + TimeFragment(ids[k].offset)
    ensures |ids| >= |ts| && r.Err? ==> r.error == IndexOutOfRange
  {
    var selected :- SelectResult(ts, ids);
    match selected
    case None => Ok("")
    case Some(id) =>
      var path :- QueryVideoPathById(m, id.videoId);
      var src := "./" + path + TimeFragment(id.offset);
      assert src[0] == '.';
      Ok(src)
  }

  /** Clicking a card whose video path is known plays that video, relative
      to the app, in the four-second window around the card's offset. */
  lemma ClickedCardVideo(m: MockRepository, ts: seq<Option<int>>, ids: seq<ResultId>, k: nat)
    requires MostRecent(ts, k) && ClickTime(ts[k]) != 0 && k < |ids|
    requires QueryVideoPathById(m, ids[k].videoId).Ok?
    ensures VideoSrc(m, ts, ids)
      == Ok("./" + QueryVideoPathById(m, ids[k].videoId).value + TimeFragment(ids[k].offset))
  {
    var r := SelectResult(ts, ids);
    assert r != Ok(None);
    assert r.Ok? && r.value.Some?;
    var k': nat :| MostRecent(ts, k') && k' < |ids| && r.value.value == ids[k'];
    MostRecentUnique(ts, k, k');
  }

  /** `search_result_clicked_update_thumbnails`: the "not found" item until
      a card is clicked; once one is, the repository has no
      `query_video_path`, so the callback raises instead of showing frames. */
  function Thumbnails(ts: seq<Option<int>>, ids: seq<ResultId>): (r: Result<string>)
    ensures r.Ok? <==> forall i :: 0 <= i < |ts| ==> ClickTime(ts[i]) == 0
    ensures r.Ok? ==> r.value == ThumbnailsNotFound
    ensures r.Err? ==> r.error == MissingAttribute("query_video_path") || (r.error == IndexOutOfRange && |ids| < |ts|)
  {
    var selected :- SelectResult(ts, ids);
    match selected
    case None => Ok(ThumbnailsNotFound)
    case Some(_) => Err(MissingAttribute("query_video_path"))
  }

  /** `search_result_clicked_update_map` over the mock repository: the
      default map until a card is clicked, "GPS Missing" when the card's
      window holds no point, and otherwise the window's points. The points
      are converted with `to_dict("rows")`: pandas before 2.0 reads the
      abbreviation as "records" (`legacyPandas`), pandas 2 rejects it with
      a ValueError. */
  function MapCallback(m: MockRepository, ts: seq<Option<int>>, ids: seq<ResultId>, legacyPandas: bool): (r: Result<MapView>)
    ensures r == Ok(DefaultMap) <==> forall i :: 0 <= i < |ts| ==> ClickTime(ts[i]) == 0
    ensures r.Ok? && r.value.GpsMap? ==>
      && legacyPandas && |r.value.points| > 0
      && exists k: nat :: MostRecent(ts, k) && k < |ids| && IsWindow(m, ids[k], r.value.points)
    ensures r == Ok(GpsMissing) ==> exists k: nat :: MostRecent(ts, k) && k < |ids| && IsWindow(m, ids[k], [])
    ensures r.Err? ==> (r.error == IndexOutOfRange && |ids| < |ts|) || (r.error.InvalidValue? && !legacyPandas)
  {
    var w :- ClickedWindow(m, ts, ids);
    match w
    case None => Ok(DefaultMap)
    case Some(points) =>
      if |points| == 0 then Ok(GpsMissing)
      else if legacyPandas then Ok(GpsMap(points))
      else Err(InvalidValue("orient 'rows' not understood"))
  }

  /** Clicking a card maps exactly the clicked row's window: the points of
      its video within five seconds of its offset, or "GPS Missing" when
      there are none. */
  lemma ClickedCardMap(
    search: string, rows: seq<SearchRow>, base64: Bytes -> string, m: MockRepository, ts: seq<Option<int>>, k: nat
  )
    requires LiteralSearch(search)
    requires SearchFormSubmitted(search, rows, base64).Cards?
    requires |ts| == |rows| && MostRecent(ts, k) && ClickTime(ts[k]) != 0
    ensures var cards := SearchFormSubmitted(search, rows, base64).cards;
      var ids := seq(|cards|, i requires 0 <= i < |cards| => cards[i].id);
      var window := WindowAround(m, ResultId(rows[k].videoId, OffsetOf(rows[k].timeStart)));
      MapCallback(m, ts, ids, true) == if |window| == 0 then Ok(GpsMissing) else Ok(GpsMap(window))
  {
    ClickedCardWindow(search, rows, base64, m, ts, k);
  }
}
