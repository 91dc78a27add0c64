/** The search front end without a video player: the thumbnail carousel
    around the clicked result, and its `highlight`, which badges every piece
    equal to the search rather than the captured matches. */
module DashNoVideo {

  import opened Wrappers
  import opened Values
  import opened Seqs
  import opened Text
  import opened MockRepo
  import opened Ui
  import opened VideoProcessing

  /** One slide of the carousel. */
  datatype CarouselItem = CarouselItem(key: string, src: string)

  /** The carousel's slides and the slide shown first. */
  datatype Carousel = Carousel(items: seq<CarouselItem>, activeIndex: nat)

  const CarouselPlaceholder: string := "assets/img/carousel_placeholder-click_result.svg"

  /** Frames taken around the clicked offset, and the slide shown first. */
  const FrameCount: nat := 11
  const CenterIndex: nat := 6

  /** The carousel before any result is clicked. */
  const PlaceholderCarousel: Carousel := Carousel([CarouselItem("1", CarouselPlaceholder)], 0)

  /** `np.linspace(start, stop, num)` in exact arithmetic: `num` evenly
      spaced values from `start` to `stop`, both included. */
  function Linspace(start: real, stop: real, num: nat): (r: seq<real>)
    requires num >= 2
    ensures |r| == num
    ensures r[0] == start && r[num - 1] == stop
    ensures forall i :: 0 <= i < num - 1 ==> r[i] == start + (i as real) * ((stop - start) / ((num - 1) as real))
  {
    var step := (stop - start) / ((num - 1) as real);
    seq(num, i requires 0 <= i < num => if i == num - 1 then stop else start + (i as real) * step)
  }

  /** Consecutive values of `Linspace` are one step apart, and the values
      never leave the interval between the end points. */
  lemma LinspaceEvenAndBounded(start: real, stop: real, num: nat)
    requires num >= 2 && start <= stop
    ensures var r := Linspace(start, stop, num);
      && (forall i :: 0 <= i < num - 1 ==> r[i + 1] - r[i] == (stop - start) / ((num - 1) as real))
      && (forall i :: 0 <= i < num ==> start <= r[i] <= stop)
  {
    var r := Linspace(start, stop, num);
    var step := (stop - start) / ((num - 1) as real);
    assert ((num - 1) as real) * step == stop - start;
    assert step >= 0.0;
    forall i | 0 <= i < num - 1
      ensures r[i + 1] - r[i] == step
      ensures start <= r[i] <= stop
    {
      if i + 1 < num - 1 {
        assert r[i + 1] - r[i] == ((i + 1) as real) * step - (i as real) * step;
      } else {
        assert r[i + 1] - r[i] == ((num - 1) as real) * step - ((num - 2) as real) * step;
      }
      assert (i as real) * step <= ((num - 1) as real) * step;
    }
  }

  /** The times of the frames: from five seconds before the offset (but not
      before 0) to five seconds after it (but not past the video's length). */
  function FrameTimes(offset: int, length: real): (r: seq<real>)
    ensures |r| == FrameCount
    ensures r[0] == if offset - 5 > 0 then (offset - 5) as real else 0.0
    ensures r[FrameCount - 1] == if (offset + 5) as real < length then (offset + 5) as real else length
  {
    var start := if offset - 5 > 0 then (offset - 5) as real else 0.0;
    var stop := if (offset + 5) as real < length then (offset + 5) as real else length;
    Linspace(start, stop, FrameCount)
  }

  /** When the offset lies within five seconds of the video, every frame is
      taken inside the video and within five seconds of the offset. */
  lemma FrameTimesWithinVideo(offset: int, length: real)
    requires 0.0 <= length && -5 <= offset && (offset - 5) as real <= length
    ensures forall i :: 0 <= i < FrameCount ==>
      var t := FrameTimes(offset, length)[i];
      0.0 <= t <= length && (offset - 5) as real <= t <= (offset + 5) as real
  {
    var start := if offset - 5 > 0 then (offset - 5) as real else 0.0;
    var stop := if (offset + 5) as real < length then (offset + 5) as real else length;
    LinspaceEvenAndBounded(start, stop, FrameCount);
  }

  /** The PNG data URLs of the frames at `times`, taken at width 0, in order. */
  function Frames(
    fs: FileSystem, ffmpegFrame: (Bytes, int, Scalar) -> Bytes, base64: Bytes -> string,
    path: string, times: seq<real>
  ): (r: Result<seq<string>>)
    ensures r.Ok? <==> (|times| == 0 || path in fs.files)
    ensures r.Err? ==> r.error == ToolFailure("ffmpeg")
    ensures r.Ok? ==> |r.value| == |times|
    ensures r.Ok? && |times| > 0 ==> path in fs.files && forall i :: 0 <= i < |times| ==>
      r.value[i] == PngDataPrefix + base64(ffmpegFrame(fs.files[path], 0, Num(times[i])))
  {
    if |times| == 0 then Ok([])
    else
      var frame :- GetThumbnail(fs, ffmpegFrame, path, 0, Num(times[0]));
      // cannot fail: the video was just read
      var rest := Frames(fs, ffmpegFrame, base64, path, times[1..]).value;
      assert forall i :: 1 <= i < |times| ==> times[i] == times[1..][i - 1];
      Ok([PngDataPrefix + base64(frame)] + rest)
  }

  /** The slides: keys "1", "2", ... in frame order, each written as `str`
      writes the slide's number. */
  function Slides(frames: seq<string>): (r: seq<CarouselItem>)
    ensures |r| == |frames|
    ensures forall i :: 0 <= i < |r| ==> r[i].src == frames[i] && CanonicalNat(r[i].key) && ParseNat(r[i].key) == i + 1
  {
    var r := seq(|frames|, i requires 0 <= i < |frames| => CarouselItem(NatToString(i + 1), frames[i]));
    assert forall i :: 0 <= i < |r| ==> CanonicalNat(r[i].key) && ParseNat(r[i].key) == i + 1 by {
      forall i | 0 <= i < |r| ensures CanonicalNat(r[i].key) && ParseNat(r[i].key) == i + 1 {
        NatToStringRoundTrip(i + 1);
      }
    }
    r
  }

  /** Distinct slides have distinct keys. */
  lemma SlideKeysDistinct(frames: seq<string>)
    ensures forall i, j :: 0 <= i < j < |frames| ==> Slides(frames)[i].key != Slides(frames)[j].key
  {
    var r := Slides(frames);
    forall i, j | 0 <= i < j < |frames| ensures r[i].key != r[j].key {
      assert ParseNat(r[i].key) != ParseNat(r[j].key);
    }
  }

  /** The carousel for a selected card: the card's video, its length as
      `get_video_length` reads it, and eleven frames around the card's
      offset, centred on slide 6. */
  function ClickedCarousel(
    m: MockRepository, fs: FileSystem,
    ffprobe: Bytes -> Json, parseFloat: string -> Option<real>,
    ffmpegFrame: (Bytes, int, Scalar) -> Bytes, base64: Bytes -> string, id: ResultId
  ): (r: Result<Carousel>)
    ensures r.Ok? ==> FramesCarousel(r.value)
    ensures r.Ok? ==>
      && QueryVideoPathById(m, id.videoId).Ok?
      && var path := QueryVideoPathById(m, id.videoId).value;
      && path in fs.files
      && GetVideoLength(fs, ffprobe, parseFloat, path).Ok?
      && var times := FrameTimes(id.offset, GetVideoLength(fs, ffprobe, parseFloat, path).value);
      && forall i :: 0 <= i < FrameCount ==>
           r.value.items[i].src == PngDataPrefix + base64(ffmpegFrame(fs.files[path], 0, Num(times[i])))
    ensures (QueryVideoPathById(m, id.videoId).Ok?
             && GetVideoLength(fs, ffprobe, parseFloat, QueryVideoPathById(m, id.videoId).value).Ok?) ==> r.Ok?
    ensures r.Err? ==>
      r.error == IndexOutOfRange || r.error == ToolFailure("ffprobe")
      || r.error.InvalidValue? || r.error.WrongType? || r.error == MissingAttribute("get")
  {
    var path :- QueryVideoPathById(m, id.videoId);
    var length :- GetVideoLength(fs, ffprobe, parseFloat, path);
    // cannot fail: the length was read from the video's bytes
    var frames := Frames(fs, ffmpegFrame, base64, path, FrameTimes(id.offset, length)).value;
    Ok(Carousel(Slides(frames), CenterIndex))
  }

  /** Eleven PNG slides, centred on slide 6. */
  predicate FramesCarousel(c: Carousel) {
    && |c.items| == FrameCount && c.activeIndex == CenterIndex
    && forall i :: 0 <= i < FrameCount ==>
         |c.items[i].src| >= |PngDataPrefix| && c.items[i].src[..|PngDataPrefix|] == PngDataPrefix
  }

  /** `search_result_clicked_update_thumbnails`: the placeholder until a card
      is clicked, then the carousel of the most recently clicked card. */
  function Thumbnails(
    m: MockRepository, fs: FileSystem,
    ffprobe: Bytes -> Json, parseFloat: string -> Option<real>,
    ffmpegFrame: (Bytes, int, Scalar) -> Bytes, base64: Bytes -> string,
    ts: seq<Option<int>>, ids: seq<ResultId>
  ): (r: Result<Carousel>)
    ensures (forall i :: 0 <= i < |ts| ==> ClickTime(ts[i]) == 0) <==> r == Ok(PlaceholderCarousel)
    ensures r.Ok? && r != Ok(PlaceholderCarousel) ==>
      && FramesCarousel(r.value)
      && exists k: nat :: MostRecent(ts, k) && k < |ids|
           && QueryVideoPathById(m, ids[k].videoId).Ok?
           && QueryVideoPathById(m, ids[k].videoId).value in fs.files
    ensures r != Ok(PlaceholderCarousel) && (r.Ok? || |ids| >= |ts|) ==>
      exists k: nat :: MostRecent(ts, k) && k < |ids|
        && r == ClickedCarousel(m, fs, ffprobe, parseFloat, ffmpegFrame, base64, ids[k])
    ensures |ids| >= |ts| && r.Err? ==>
      r.error == IndexOutOfRange || r.error == ToolFailure("ffprobe")
      || r.error.InvalidValue? || r.error.WrongType? || r.error == MissingAttribute("get")
  {
    var selected :- SelectResult(ts, ids);
    match selected
    case None => Ok(PlaceholderCarousel)
    case Some(id) =>
      var c :- ClickedCarousel(m, fs, ffprobe, parseFloat, ffmpegFrame, base64, id);
      assert |PlaceholderCarousel.items| != FrameCount;
      Ok(c)
  }

  /** `highlight` as written: every piece of the split that equals the
      search, ignoring case, becomes a badge, wherever it sits. */
  function Highlight(text: string, search: string): (r: seq<Piece>)
    requires LiteralSearch(search)
    ensures PieceTexts(r) == RegexSplit(text, search)
    ensures Concat(PieceTexts(r)) == text
    ensures forall i :: 0 <= i < |r| ==> (r[i].Badge? <==> Lower(r[i].text) == Lower(search))
  {
    var els := RegexSplit(text, search);
    var r := seq(|els|, i requires 0 <= i < |els| =>
      if Lower(els[i]) == Lower(search) then Badge(els[i]) else Plain(els[i]));
    assert PieceTexts(r) == els;
    r
  }

  /** dash_no_video.py's `convert_search_result_to_button`: the body is this
      front end's `highlight` of the segment text. */
  function ResultCard(search: string, row: SearchRow, base64: Bytes -> string): (c: Card)
    requires LiteralSearch(search)
    ensures c.id == ResultId(row.videoId, OffsetOf(row.timeStart))
    ensures c.img == ThumbnailMissing <==> (row.thumbnail.None? || |row.thumbnail.value| == 0)
    ensures PieceTexts(c.body) == RegexSplit(row.segment, search)
    ensures forall j :: 0 <= j < |c.body| ==> (c.body[j].Badge? <==> Lower(c.body[j].text) == Lower(search))
  {
    CardFor(row, Highlight(row.segment, search), base64)
  }

  /** dash_no_video.py's `search_form_submitted`: one card per row in query
      order, or the "No text found" item when the query matched nothing. */
  function SearchFormSubmitted(search: string, rows: seq<SearchRow>, base64: Bytes -> string): (r: SearchView)
    requires LiteralSearch(search)
    ensures r.NoTextFound? <==> |rows| == 0
    ensures r.Cards? ==> |r.cards| == |rows|
    ensures r.Cards? ==> forall i :: 0 <= i < |rows| ==>
      && r.cards[i].id == ResultId(rows[i].videoId, OffsetOf(rows[i].timeStart))
      && Concat(PieceTexts(r.cards[i].body)) == rows[i].segment
      && (forall j :: 0 <= j < |r.cards[i].body| ==>
            (r.cards[i].body[j].Badge? <==> Lower(r.cards[i].body[j].text) == Lower(search)))
      && (r.cards[i].img == ThumbnailMissing <==> (rows[i].thumbnail.None? || |rows[i].thumbnail.value| == 0))
  {
    if |rows| == 0 then NoTextFound
    else Cards(seq(|rows|, i requires 0 <= i < |rows| => ResultCard(search, rows[i], base64)))
  }

  /** The two front ends show the same cards for the same rows: same ids,
      images and text pieces; they differ only in which pieces are badges,
      and every badge of the video front end is a badge here too. */
  lemma SearchFormsAgree(search: string, rows: seq<SearchRow>, base64: Bytes -> string)
    requires LiteralSearch(search)
    ensures var a := SearchFormSubmitted(search, rows, base64);
      var b := Ui.SearchFormSubmitted(search, rows, base64);
      && a.Cards? == b.Cards?
      && (a.Cards? ==> |a.cards| == |b.cards| && forall i :: 0 <= i < |a.cards| ==>
            && a.cards[i].id == b.cards[i].id && a.cards[i].img == b.cards[i].img
            && PieceTexts(a.cards[i].body) == PieceTexts(b.cards[i].body)
            && forall j :: 0 <= j < |b.cards[i].body| && b.cards[i].body[j].Badge? ==> a.cards[i].body[j].Badge?)
  {
    var a := SearchFormSubmitted(search, rows, base64);
    var b := Ui.SearchFormSubmitted(search, rows, base64);
    if a.Cards? {
      forall i | 0 <= i < |a.cards|
        ensures forall j :: 0 <= j < |b.cards[i].body| && b.cards[i].body[j].Badge? ==> a.cards[i].body[j].Badge?
      {
        HighlightBadgesEveryMatch(rows[i].segment, search);
      }
    }
  }

  /** `search_result_clicked_update_map` over the mock repository: the
      default map until a card is clicked, "GPS Missing" when the card's
      window holds no point, and otherwise KeyError('longitude'), because
      the rows are converted with the keys `longitude`/`latitude` while the
      mock's rows carry `lon`/`lat`. */
  function MapCallback(m: MockRepository, ts: seq<Option<int>>, ids: seq<ResultId>): (r: Result<MapView>)
    ensures r == Ok(DefaultMap) <==> forall i :: 0 <= i < |ts| ==> ClickTime(ts[i]) == 0
    ensures r.Ok? ==> !r.value.GpsMap?
    ensures r == Ok(GpsMissing) ==> exists k: nat :: MostRecent(ts, k) && k < |ids| && IsWindow(m, ids[k], [])
    ensures r.Err? ==>
      || (r.error == IndexOutOfRange && |ids| < |ts|)
      || (r.error == MissingKey("longitude")
          && exists k: nat, p: seq<GpsRow> :: MostRecent(ts, k) && k < |ids| && |p| > 0 && IsWindow(m, ids[k], p))
  {
    var w :- ClickedWindow(m, ts, ids);
    match w
    case None => Ok(DefaultMap)
    case Some(points) => if |points| == 0 then Ok(GpsMissing) else Err(MissingKey("longitude"))
  }

  /** Both front ends give the cards of a search the same ids, in the same
      order, so a click selects the same result in either. */
  lemma SearchFormsSameIds(search: string, rows: seq<SearchRow>, base64: Bytes -> string)
    requires LiteralSearch(search)
    requires SearchFormSubmitted(search, rows, base64).Cards?
    ensures Ui.SearchFormSubmitted(search, rows, base64).Cards?
    ensures var cards := SearchFormSubmitted(search, rows, base64).cards;
      var cards' := Ui.SearchFormSubmitted(search, rows, base64).cards;
      seq(|cards|, i requires 0 <= i < |cards| => cards[i].id)
        == seq(|cards'|, i requires 0 <= i < |cards'| => cards'[i].id)
  {
    SearchFormsAgree(search, rows, base64);
  }

  /** Clicking a card of this front end: "GPS Missing" exactly when the
      clicked row's window holds no point, KeyError('longitude') otherwise. */
  lemma ClickedCardMap(
    search: string, rows: seq<SearchRow>, base64: Bytes -> string, m: MockRepository, ts: seq<Option<int>>, k: nat
  )
    requires LiteralSearch(search)
    requires SearchFormSubmitted(search, rows, base64).Cards?
    requires |ts| == |rows| && MostRecent(ts, k) && ClickTime(ts[k]) != 0
    ensures var cards := SearchFormSubmitted(search, rows, base64).cards;
      var ids := seq(|cards|, i requires 0 <= i < |cards| => cards[i].id);
      var window := WindowAround(m, ResultId(rows[k].videoId, OffsetOf(rows[k].timeStart)));
      MapCallback(m, ts, ids) == if |window| == 0 then Ok(GpsMissing) else Err(MissingKey("longitude"))
  {
    SearchFormsSameIds(search, rows, base64);
    ClickedCardWindow(search, rows, base64, m, ts, k);
  }

  /** Clicking a card of this front end shows the carousel of that card's
      own video around that card's own offset. */
  lemma ClickedCardCarousel(
    search: string, rows: seq<SearchRow>, base64: Bytes -> string, m: MockRepository, fs: FileSystem,
    ffprobe: Bytes -> Json, parseFloat: string -> Option<real>, ffmpegFrame: (Bytes, int, Scalar) -> Bytes,
    ts: seq<Option<int>>, k: nat
  )
    requires LiteralSearch(search)
    requires SearchFormSubmitted(search, rows, base64).Cards?
    requires |ts| == |rows| && MostRecent(ts, k) && ClickTime(ts[k]) != 0
    ensures var cards := SearchFormSubmitted(search, rows, base64).cards;
      var ids := seq(|cards|, i requires 0 <= i < |cards| => cards[i].id);
      Thumbnails(m, fs, ffprobe, parseFloat, ffmpegFrame, base64, ts, ids)
        == ClickedCarousel(m, fs, ffprobe, parseFloat, ffmpegFrame, base64,
                           ResultId(rows[k].videoId, OffsetOf(rows[k].timeStart)))
  {
    SearchFormsSameIds(search, rows, base64);
    ClickSelectsCard(search, rows, base64, ts, k);
  }

  /** Every match badged by the odd-position rule is badged here too, and
      both show the same pieces. */
  lemma HighlightBadgesEveryMatch(text: string, search: string)
    requires LiteralSearch(search)
    ensures var a := Highlight(text, search); var b := HighlightMatches(text, search);
      |a| == |b| && PieceTexts(a) == PieceTexts(b)
      && forall i :: 0 <= i < |b| && b[i].Badge? ==> a[i].Badge?
  {
    var a := Highlight(text, search);
    var b := HighlightMatches(text, search);
    assert PieceTexts(a) == RegexSplit(text, search);
    assert PieceTexts(b) == RegexSplit(text, search);
  }

  /** In "nana" the search "na" matches only at the start: the second "na"
      follows a word character, so `\b` fails there. */
  lemma SplitNana()
    ensures LiteralSearch("na")
    ensures !MatchAt("nana", "na", 2)
    ensures RegexSplit("nana", "na") == ["", "na", "na"]
  {
    var text := "nana";
    assert LiteralSearch("na");
    assert MatchAt(text, "na", 0) by {
      assert Boundary(text, 0);
      assert text[0..2] == "na";
    }
    assert !MatchAt(text, "na", 2) by {
      assert IsWordChar(text[1]) && IsWordChar(text[2]);
    }
    assert SplitFrom(text, "na", 3, 2) == [text[2..]];
    assert SplitFrom(text, "na", 2, 2) == [text[2..]];
    assert text[0..0] == "" && text[0..2] == "na" && text[2..] == "na";
  }

  /** The trailing text "na" of "nana" is no match, yet `highlight` badges it. */
  lemma HighlightBadgesUnmatchedText()
    ensures LiteralSearch("na")
    ensures Highlight("nana", "na") == [Plain(""), Badge("na"), Badge("na")]
  {
    SplitNana();
    assert Lower("na") == "na" && Lower("") == "";
    var a := Highlight("nana", "na");
    assert PieceTexts(a) == ["", "na", "na"];
    assert a[0] == Plain("") && a[1] == Badge("na") && a[2] == Badge("na");
  }

  /** The odd-position rule leaves the trailing text "na" of "nana" plain. */
  lemma HighlightMatchesLeavesUnmatchedText()
    ensures LiteralSearch("na")
    ensures HighlightMatches("nana", "na") == [Plain(""), Badge("na"), Plain("na")]
  {
    SplitNana();
    var b := HighlightMatches("nana", "na");
    assert PieceTexts(b) == ["", "na", "na"];
    assert b[0] == Plain("") && b[1] == Badge("na") && b[2] == Plain("na");
  }
}
