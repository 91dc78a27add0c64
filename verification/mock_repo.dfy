/** The in-memory repository the UIs are developed against: three tables and
    the read queries over them, with their reference semantics (row
    selection by a boolean mask, in table order). */
module MockRepo {

  import opened Wrappers
  import opened Seqs
  import opened Text

  datatype VideoRow = VideoRow(id: int, filename: string, checksum: string)
  datatype TextRow = TextRow(id: int, videoId: int, timeStart: int, timeEnd: int, thumbnail: string, text: string)
  datatype GpsRow = GpsRow(lat: real, lon: real, time: int, videoId: int)

  datatype MockRepository = MockRepository(videos: seq<VideoRow>, texts: seq<TextRow>, gps: seq<GpsRow>)

  const DefaultVideos: seq<VideoRow> := [
    VideoRow(1, "https://archive.org/download/MakingBo1947/MakingBo1947.mp4", "1234"),
    VideoRow(2, "https://archive.org/download/DuckandC1951/DuckandC1951.ia.mp4", "5678")
  ]

  const DefaultTexts: seq<TextRow> := [
    TextRow(1, 1, 100, 110, "", "This video is about books."),
    TextRow(2, 1, 200, 210, "", "This part is also about books."),
    TextRow(3, 2, 100, 110, "", "This video is about bombs."),
    TextRow(4, 2, 200, 210, "", "This part is also about bombs.")
  ]

  const DefaultGps: seq<GpsRow> := [
    GpsRow(48.858592314273785, 2.2932544065215748, 102, 1),
    GpsRow(48.858128333256964, 2.2939913625693746, 104, 1),
    GpsRow(48.857599389651696, 2.294844680098407, 106, 1),
    GpsRow(52.4594335626035, 4.552019317265759, 102, 2),
    GpsRow(52.450477438977614, 4.555406513604146, 104, 2),
    GpsRow(52.44099455767272, 4.557301047149346, 106, 2)
  ]

  /** `MockRepositoryForUI(video_dataframe, text_dataframe, gps_dataframe)`.
      Each argument goes through a truthiness check, which a DataFrame refuses with a
      ValueError; so only the all-defaults construction succeeds. */
  function NewMockRepository(
    videos: Option<seq<VideoRow>>, texts: Option<seq<TextRow>>, gps: Option<seq<GpsRow>>
  ): (r: Result<MockRepository>)
    ensures r.Ok? <==> videos.None? && texts.None? && gps.None?
    ensures r.Ok? ==> r.value.videos == DefaultVideos && r.value.texts == DefaultTexts && r.value.gps == DefaultGps
    ensures r.Err? ==> r.error.InvalidValue?
  {
    if videos.Some? || texts.Some? || gps.Some? then
      Err(InvalidValue("The truth value of a DataFrame is ambiguous"))
    else
      Ok(MockRepository(DefaultVideos, DefaultTexts, DefaultGps))
  }

  /** The mock's `get_video` reads an attribute `df` the class never sets,
      so every call fails. */
  function MockGetVideo(m: MockRepository, videoId: Option<int>): (r: Result<VideoRow>)
    ensures r.Err? && r.error == MissingAttribute("df")
  {
    Err(MissingAttribute("df"))
  }

  /** The mask of `query_text_segments`: the text contains the query,
      ignoring (ASCII) case. */
  predicate TextMatches(row: TextRow, query: string) {
    Contains(Lower(row.text), Lower(query))
  }

  /** `query_text_segments(query)` for a literal query. */
  function QueryTextSegments(m: MockRepository, query: string): (r: seq<TextRow>)
    ensures forall i :: 0 <= i < |m.texts| ==> (m.texts[i] in r <==> TextMatches(m.texts[i], query))
    ensures forall i :: 0 <= i < |r| ==> r[i] in m.texts && TextMatches(r[i], query)
  {
    Filter(m.texts, (row: TextRow) => TextMatches(row, query))
  }

  /** The query is case-blind: upper- and lower-case queries select the same rows. */
  lemma QueryIgnoresCase(m: MockRepository, query: string)
    ensures QueryTextSegments(m, query) == QueryTextSegments(m, Lower(query))
  {
    LowerIdempotent(query);
    FilterSamePredicate(m.texts, (row: TextRow) => TextMatches(row, query),
                        (row: TextRow) => TextMatches(row, Lower(query)));
  }

  /** The mask of `query_gps_coords`: this video, and a time inside the
      window, both bounds included. */
  predicate InWindow(row: GpsRow, videoId: int, timeStart: int, timeEnd: int) {
    row.videoId == videoId && timeStart <= row.time && row.time <= timeEnd
  }

  /** `query_gps_coords(video_id, time_start, time_end)`. */
  function QueryGpsCoords(m: MockRepository, videoId: int, timeStart: int, timeEnd: int): (r: seq<GpsRow>)
    ensures forall i :: 0 <= i < |m.gps| ==> (m.gps[i] in r <==> InWindow(m.gps[i], videoId, timeStart, timeEnd))
    ensures forall i :: 0 <= i < |r| ==> r[i] in m.gps && InWindow(r[i], videoId, timeStart, timeEnd)
  {
    Filter(m.gps, (row: GpsRow) => InWindow(row, videoId, timeStart, timeEnd))
  }

  /** Widening the window never loses a row. */
  lemma WiderWindowKeepsRows(m: MockRepository, videoId: int, s1: int, e1: int, s2: int, e2: int)
    requires s2 <= s1 && e1 <= e2
    ensures forall i :: 0 <= i < |QueryGpsCoords(m, videoId, s1, e1)| ==>
      QueryGpsCoords(m, videoId, s1, e1)[i] in QueryGpsCoords(m, videoId, s2, e2)
  {
    var narrow := QueryGpsCoords(m, videoId, s1, e1);
    forall i | 0 <= i < |narrow|
      ensures narrow[i] in QueryGpsCoords(m, videoId, s2, e2)
    {
      var k :| 0 <= k < |m.gps| && m.gps[k] == narrow[i];
    }
  }

  /** `query_video_path_by_id(video_id)`: the filename of the first row with
      that id; no such row is an IndexError. */
  function QueryVideoPathById(m: MockRepository, videoId: int): (r: Result<string>)
    ensures r.Ok? <==> exists k :: 0 <= k < |m.videos| && m.videos[k].id == videoId
    ensures r.Err? ==> r.error == IndexOutOfRange
    ensures r.Ok? ==> exists k :: 0 <= k < |m.videos| && m.videos[k].id == videoId
                        && r.value == m.videos[k].filename
                        && forall j :: 0 <= j < k ==> m.videos[j].id != videoId
    decreases |m.videos|
  {
    if |m.videos| == 0 then Err(IndexOutOfRange)
    else if m.videos[0].id == videoId then Ok(m.videos[0].filename)
    else
      var rest :- QueryVideoPathById(m.(videos := m.videos[1..]), videoId);
      assert forall k :: 1 <= k < |m.videos| ==> m.videos[k] == m.videos[1..][k - 1];
      Ok(rest)
  }

  /** The default video table: ids 1 and 2, distinct checksums, and each id
      resolves to its own URL. */
  lemma DefaultVideosResolve()
    ensures DefaultVideos[0].id == 1 && DefaultVideos[1].id == 2
    ensures DefaultVideos[0].checksum != DefaultVideos[1].checksum
    ensures var m := MockRepository(DefaultVideos, DefaultTexts, DefaultGps);
      QueryVideoPathById(m, 2) == Ok("https://archive.org/download/DuckandC1951/DuckandC1951.ia.mp4")
      && QueryVideoPathById(m, 3) == Err(IndexOutOfRange)
  {
    var m := MockRepository(DefaultVideos, DefaultTexts, DefaultGps);
    assert m.videos[1..][1..] == [];
  }

  /** Video 1's points at 102 and 104 lie in [100, 104]; the one at 106 and
      video 2's points do not. */
  lemma DefaultGpsWindow()
    ensures var r := QueryGpsCoords(MockRepository(DefaultVideos, DefaultTexts, DefaultGps), 1, 100, 104);
      r == [DefaultGps[0], DefaultGps[1]]
  {
    var p := (row: GpsRow) => InWindow(row, 1, 100, 104);
    FilterPrefix(DefaultGps, 2, p);
  }

  /** `q` occurs at `i` in the lower-cased `s` when each of its characters
      is the lower case of the character at the matching position. */
  lemma OccursLowered(s: string, q: string, i: nat)
    requires i + |q| <= |s|
    requires forall k :: 0 <= k < |q| ==> LowerChar(s[i + k]) == q[k]
    ensures OccursAt(Lower(s), q, i)
  {
    var l := Lower(s)[i..i + |q|];
    forall k | 0 <= k < |q| ensures l[k] == q[k] {
      assert l[k] == Lower(s)[i + k];
    }
    assert l == q;
  }

  lemma BooksRowsMatch()
    ensures TextMatches(DefaultTexts[0], "books") && TextMatches(DefaultTexts[1], "books")
  {
    assert Lower("books") == "books";
    var t0 := "This video is about books.";
    var t1 := "This part is also about books.";
    assert DefaultTexts[0].text == t0 && DefaultTexts[1].text == t1;
    assert t0[20..25] == "books";
    assert t1[24..29] == "books";
    OccursLowered(t0, "books", 20);
    OccursLowered(t1, "books", 24);
  }

  lemma NoLetterK(s: string)
    requires s == "This video is about bombs." || s == "This part is also about bombs."
    ensures 'k' !in Lower(s)
  {
    assert forall j :: 0 <= j < |s| ==> s[j] != 'k' && s[j] != 'K';
    forall j | 0 <= j < |s| ensures Lower(s)[j] != 'k' {
      assert Lower(s)[j] == LowerChar(s[j]);
    }
  }

  lemma BombsRowsDoNotMatch()
    ensures !TextMatches(DefaultTexts[2], "books") && !TextMatches(DefaultTexts[3], "books")
  {
    assert Lower("books") == "books";
    forall i | 2 <= i < 4
      ensures !Contains(Lower(DefaultTexts[i].text), "books")
    {
      assert DefaultTexts[2].text == "This video is about bombs.";
      assert DefaultTexts[3].text == "This part is also about bombs.";
      NoLetterK(DefaultTexts[i].text);
      if Contains(Lower(DefaultTexts[i].text), "books") {
        ContainsBringsChars(Lower(DefaultTexts[i].text), "books", 3);
      }
    }
  }

  /** "books" matches both of video 1's segments and neither of video 2's. */
  lemma DefaultBooksQuery()
    ensures var r := QueryTextSegments(MockRepository(DefaultVideos, DefaultTexts, DefaultGps), "books");
      r == [DefaultTexts[0], DefaultTexts[1]]
  {
    var p := (row: TextRow) => TextMatches(row, "books");
    BooksRowsMatch();
    BombsRowsDoNotMatch();
    FilterConcat(DefaultTexts[..2], DefaultTexts[2..], p);
    assert DefaultTexts == DefaultTexts[..2] + DefaultTexts[2..];
    FilterAll(DefaultTexts[..2], p);
    FilterNone(DefaultTexts[2..], p);
  }
}
