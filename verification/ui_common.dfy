/** Logic the two search front ends share: picking the most recently clicked
    result, the offset and image shown on a result card, the map callback,
    and the capturing split `re.split("(\\b" + search + ")", text,
    flags=re.IGNORECASE)` that `highlight` styles. */
module Ui {

  import opened Wrappers
  import opened Values
  import opened Seqs
  import opened Text
  import opened MockRepo

  /** The `id` of a result card: the video and the offset, in seconds. */
  datatype ResultId = ResultId(videoId: int, offset: int)

  // ---------------------------------------------------------------------------
  // Click selection.

  /** `idx if idx else 0`: a card never clicked has timestamp None. */
  function ClickTime(t: Option<int>): int {
    if t.Some? then t.value else 0
  }

  /** The click timestamps with None read as 0. */
  function NormaliseClicks(ts: seq<Option<int>>): (r: seq<int>)
    ensures |r| == |ts|
    ensures forall i :: 0 <= i < |ts| ==> r[i] == ClickTime(ts[i])
    ensures AnyClicked(r) <==> exists i :: 0 <= i < |ts| && ts[i].Some? && ts[i].value != 0
  {
    seq(|ts|, i requires 0 <= i < |ts| => ClickTime(ts[i]))
  }

  /** `any(n_clicks_timestamps)`. */
  predicate AnyClicked(ts: seq<int>) {
    exists i :: 0 <= i < |ts| && ts[i] != 0
  }

  /** `ts.index(max(ts))`: the first index holding the largest timestamp. */
  function ArgMaxFirst(ts: seq<int>): (k: nat)
    requires |ts| > 0
    ensures k < |ts|
    ensures forall j :: 0 <= j < |ts| ==> ts[j] <= ts[k]
    ensures forall j :: 0 <= j < k ==> ts[j] < ts[k]
  {
    if |ts| == 1 then 0
    else
      var k := ArgMaxFirst(ts[..|ts| - 1]);
      assert forall j :: 0 <= j < |ts| - 1 ==> ts[..|ts| - 1][j] == ts[j];
      if ts[|ts| - 1] > ts[k] then |ts| - 1 else k
  }

  /** Index `k` holds the most recent click: no timestamp is later and none
      before it is as late. */
  predicate MostRecent(ts: seq<Option<int>>, k: nat) {
    && k < |ts|
    && (forall j :: 0 <= j < |ts| ==> ClickTime(ts[j]) <= ClickTime(ts[k]))
    && (forall j :: 0 <= j < k ==> ClickTime(ts[j]) < ClickTime(ts[k]))
  }

  /** At most one card is the most recently clicked. */
  lemma MostRecentUnique(ts: seq<Option<int>>, a: nat, b: nat)
    requires MostRecent(ts, a) && MostRecent(ts, b)
    ensures a == b
  {
    // Each is clicked no earlier than the other, so the two click times are
    // equal, and neither index can come before the other.
    assert ClickTime(ts[a]) == ClickTime(ts[b]);
  }

  /** The selection every click callback starts with: None when nothing was
      clicked, otherwise the id of the most recently clicked card. */
  function SelectResult(ts: seq<Option<int>>, ids: seq<ResultId>): (r: Result<Option<ResultId>>)
    ensures r == Ok(None) <==> forall i :: 0 <= i < |ts| ==> ClickTime(ts[i]) == 0
    ensures r.Ok? && r.value.Some? ==>
      exists k: nat :: MostRecent(ts, k) && k < |ids| && r.value.value == ids[k]
    ensures r.Err? ==> r.error == IndexOutOfRange && |ids| < |ts|
    ensures |ids| >= |ts| ==> r.Ok?
  {
    var clicks := NormaliseClicks(ts);
    if !AnyClicked(clicks) then Ok(None)
    else
      var k := ArgMaxFirst(clicks);
      assert MostRecent(ts, k);
      if k < |ids| then Ok(Some(ids[k])) else Err(IndexOutOfRange)
  }

  // ---------------------------------------------------------------------------
  // Result cards.

  /** The card's offset: `time_start` as a timedelta with the microseconds
      dropped, then its `seconds` component (whole seconds modulo a day); a
      falsy `time_start` gives 0. */
  function OffsetOf(timeStart: real): (r: int)
    ensures 0 <= r < 86400
    ensures timeStart == 0.0 ==> r == 0
    ensures 0.0 <= timeStart < 86400.0 ==> r == timeStart.Floor
    ensures exists days: int :: timeStart.Floor == days * 86400 + r
  {
    if timeStart == 0.0 then 0
    else
      var r := timeStart.Floor % 86400;
      assert timeStart.Floor == (timeStart.Floor / 86400) * 86400 + r;
      r
  }

  const ThumbnailMissing: string := "assets/img/thumbnail_missing.svg"
  const PngDataPrefix: string := "data:image/png;base64,"

  /** The card image: the thumbnail as a PNG data URL, or the placeholder
      when the thumbnail is absent or empty. `base64` stands for
      `base64.b64encode(...).decode("ASCII")`. */
  function ImgSrc(thumbnail: Option<Bytes>, base64: Bytes -> string): (r: string)
    ensures (thumbnail.None? || |thumbnail.value| == 0) ==> r == ThumbnailMissing
    ensures (thumbnail.Some? && |thumbnail.value| > 0) ==>
      |r| >= |PngDataPrefix| && r[..|PngDataPrefix|] == PngDataPrefix
      && r[|PngDataPrefix|..] == base64(thumbnail.value)
  {
    if thumbnail.Some? && |thumbnail.value| > 0 then PngDataPrefix + base64(thumbnail.value)
    else ThumbnailMissing
  }

  /** The placeholder is shown exactly when there is no thumbnail to show. */
  lemma ImgSrcPlaceholderIffMissing(thumbnail: Option<Bytes>, base64: Bytes -> string)
    ensures ImgSrc(thumbnail, base64) == ThumbnailMissing <==> (thumbnail.None? || |thumbnail.value| == 0)
  {
    var r := ImgSrc(thumbnail, base64);
    if thumbnail.Some? && |thumbnail.value| > 0 {
      assert r[0] == 'd' && ThumbnailMissing[0] == 'a';
    }
  }

  // ---------------------------------------------------------------------------
  // The map callbacks.

  /** What the map container shows. */
  datatype MapView = DefaultMap | GpsMap(points: seq<GpsRow>) | GpsMissing

  /** `points` are exactly the repository's GPS rows of the card's video
      within five seconds either side of its offset. */
  predicate IsWindow(m: MockRepository, id: ResultId, points: seq<GpsRow>) {
    && (forall i :: 0 <= i < |points| ==>
          points[i] in m.gps && InWindow(points[i], id.videoId, id.offset - 5, id.offset + 5))
    && (forall i :: 0 <= i < |m.gps| && InWindow(m.gps[i], id.videoId, id.offset - 5, id.offset + 5) ==>
          m.gps[i] in points)
  }

  /** `query_gps_coords(video_id, offset - 5, offset + 5)` for a selected card. */
  function WindowAround(m: MockRepository, id: ResultId): (r: seq<GpsRow>)
    ensures IsWindow(m, id, r)
  {
    QueryGpsCoords(m, id.videoId, id.offset - 5, id.offset + 5)
  }

  /** The start both map callbacks share: nothing until a card is clicked,
      then the GPS window of the most recently clicked card. */
  function ClickedWindow(m: MockRepository, ts: seq<Option<int>>, ids: seq<ResultId>): (r: Result<Option<seq<GpsRow>>>)
    ensures r == Ok(None) <==> forall i :: 0 <= i < |ts| ==> ClickTime(ts[i]) == 0
    ensures r.Ok? && r.value.Some? ==>
      exists k: nat :: MostRecent(ts, k) && k < |ids| && IsWindow(m, ids[k], r.value.value)
    ensures r.Err? ==> r.error == IndexOutOfRange && |ids| < |ts|
    ensures |ids| >= |ts| ==> r.Ok?
  {
    var selected :- SelectResult(ts, ids);
    match selected
    case None => Ok(None)
    case Some(id) => Ok(Some(WindowAround(m, id)))
  }

  // ---------------------------------------------------------------------------
  // The capturing split used by `highlight`.

  /** A regex word character, restricted to ASCII. */
  predicate IsWordChar(c: char) {
    ('a' <= c <= 'z') || ('A' <= c <= 'Z') || ('0' <= c <= '9') || c == '_'
  }

  /** `\b` at position `i`: a word character on exactly one side. */
  predicate Boundary(text: string, i: nat)
    requires i <= |text|
  {
    (i > 0 && IsWordChar(text[i - 1])) != (i < |text| && IsWordChar(text[i]))
  }

  /** A regex metacharacter; a search containing none is matched literally. */
  predicate IsRegexMeta(c: char) {
    c in ".^$*+?{}[]\\|()"
  }

  /** The searches whose pattern `\b<search>` matches the search text itself:
      non-empty and free of metacharacters. */
  predicate LiteralSearch(search: string) {
    |search| > 0 && forall i :: 0 <= i < |search| ==> !IsRegexMeta(search[i])
  }

  /** `\b<search>` matches at `i`, ignoring case. */
  predicate MatchAt(text: string, search: string, i: nat) {
    i + |search| <= |text| && Boundary(text, i) && Lower(text[i..i + |search|]) == Lower(search)
  }

  /** No match of `\b<search>` starts in `[lo, hi)`. */
  predicate NoMatchIn(text: string, search: string, lo: nat, hi: nat) {
    forall q :: lo <= q < hi ==> !MatchAt(text, search, q)
  }

  /** Where piece `i` of a split starts: the length of the pieces before it. */
  function PieceStart(r: seq<string>, i: nat): nat
    requires i <= |r|
  {
    |Concat(r[..i])|
  }

  /** Putting one piece in front moves every later start by its length. */
  lemma PieceStartCons(x: string, r: seq<string>, i: nat)
    requires i <= |r|
    ensures PieceStart([x] + r, i + 1) == |x| + PieceStart(r, i)
  {
    var s := [x] + r;
    assert s[..i + 1][1..] == r[..i];
  }

  /** Every position of the joined text lies in some piece. */
  lemma {:induction false} PieceContaining(r: seq<string>, q: nat)
    requires q < |Concat(r)|
    ensures exists i :: 0 <= i < |r| && PieceStart(r, i) <= q < PieceStart(r, i) + |r[i]|
    decreases |r|
  {
    assert r[..0] == [];
    if q >= |r[0]| {
      PieceContaining(r[1..], q - |r[0]|);
      var i :| 0 <= i < |r[1..]| && PieceStart(r[1..], i) <= q - |r[0]| < PieceStart(r[1..], i) + |r[1..][i]|;
      assert r == [r[0]] + r[1..];
      PieceStartCons(r[0], r[1..], i);
      assert PieceStart(r, i + 1) <= q < PieceStart(r, i + 1) + |r[i + 1]|;
    }
  }

  /** Every odd piece of `r`, laid out from `start`, is a match where it stands. */
  predicate OddPiecesMatch(text: string, search: string, start: nat, r: seq<string>) {
    forall i :: 0 <= i < |r| && i % 2 == 1 ==> MatchAt(text, search, start + PieceStart(r, i))
  }

  /** No match starts inside an even piece of `r`, laid out from `start`. */
  predicate EvenPiecesClear(text: string, search: string, start: nat, r: seq<string>) {
    forall i :: 0 <= i < |r| && i % 2 == 0 ==>
      NoMatchIn(text, search, start + PieceStart(r, i), start + PieceStart(r, i) + |r[i]|)
  }

  /** Where the pieces of `[a, b] + rest` start. */
  lemma PrependStarts(a: string, b: string, rest: seq<string>)
    ensures PieceStart([a, b] + rest, 0) == 0 && PieceStart([a, b] + rest, 1) == |a|
    ensures forall i :: 2 <= i < |rest| + 2 ==>
      PieceStart([a, b] + rest, i) == |a| + |b| + PieceStart(rest, i - 2) && ([a, b] + rest)[i] == rest[i - 2]
  {
    var r := [a, b] + rest;
    var tail := [b] + rest;
    assert r == [a] + tail;
    assert r[..0] == [] && tail[..0] == [];
    PieceStartCons(a, tail, 0);
    forall i | 2 <= i < |r|
      ensures PieceStart(r, i) == |a| + |b| + PieceStart(rest, i - 2) && r[i] == rest[i - 2]
    {
      PieceStartCons(b, rest, i - 2);
      PieceStartCons(a, tail, i - 1);
    }
  }

  /** Placing unmatched text `a` and a match `b` in front of the split `rest`
      of what follows keeps every odd piece a match. */
  lemma PrependMatchOdd(text: string, search: string, start: nat, a: string, b: string, rest: seq<string>)
    requires MatchAt(text, search, start + |a|)
    requires OddPiecesMatch(text, search, start + |a| + |b|, rest)
    ensures OddPiecesMatch(text, search, start, [a, b] + rest)
  {
    var r := [a, b] + rest;
    PrependStarts(a, b, rest);
    forall i | 0 <= i < |r| && i % 2 == 1
      ensures MatchAt(text, search, start + PieceStart(r, i))
    {
      if i > 1 {
        var j := i - 2;
        assert 0 <= j < |rest| && j % 2 == 1;
        assert MatchAt(text, search, start + |a| + |b| + PieceStart(rest, j));
      }
    }
  }

  /** Placing unmatched text `a` (with no match in it) and a match `b` in
      front of the split `rest` of what follows keeps every even piece clear. */
  lemma PrependMatchEven(text: string, search: string, start: nat, a: string, b: string, rest: seq<string>)
    requires NoMatchIn(text, search, start, start + |a|)
    requires EvenPiecesClear(text, search, start + |a| + |b|, rest)
    ensures EvenPiecesClear(text, search, start, [a, b] + rest)
  {
    var r := [a, b] + rest;
    PrependStarts(a, b, rest);
    forall i | 0 <= i < |r| && i % 2 == 0
      ensures NoMatchIn(text, search, start + PieceStart(r, i), start + PieceStart(r, i) + |r[i]|)
    {
      if i > 0 {
        var j := i - 2;
        assert 0 <= j < |rest| && j % 2 == 0;
        var p := start + |a| + |b| + PieceStart(rest, j);
        assert NoMatchIn(text, search, p, p + |rest[j]|);
      }
    }
  }

  /** `r` alternates unmatched text and pieces equal to the search ignoring
      case, starting and ending with unmatched text, and spells `text[start..]`. */
  predicate SplitPieces(text: string, search: string, start: nat, r: seq<string>) {
    && start <= |text| && |r| % 2 == 1 && Concat(r) == text[start..]
    && forall i :: 0 <= i < |r| && i % 2 == 1 ==> Lower(r[i]) == Lower(search)
  }

  /** `r` is a split of `text[start..]` on the pattern: the pieces alternate
      unmatched text and matches, every odd piece is a match where it
      stands, and no match starts inside an even piece. */
  predicate IsSplit(text: string, search: string, start: nat, r: seq<string>) {
    && SplitPieces(text, search, start, r)
    && OddPiecesMatch(text, search, start, r)
    && EvenPiecesClear(text, search, start, r)
  }

  /** Putting the unmatched text before a match and the match itself in
      front of the split of what follows the match keeps the alternation,
      spells the text from `start`, and keeps every odd piece the search. */
  lemma PrependMatchShape(text: string, search: string, start: nat, pos: nat, rest: seq<string>)
    requires start <= pos && MatchAt(text, search, pos)
    requires SplitPieces(text, search, pos + |search|, rest)
    ensures SplitPieces(text, search, start, [text[start..pos], text[pos..pos + |search|]] + rest)
  {
    var n := |search|;
    var r := [text[start..pos], text[pos..pos + n]] + rest;
    assert r[1..] == [text[pos..pos + n]] + rest;
    assert r[1..][1..] == rest;
    assert text[start..] == text[start..pos] + (text[pos..pos + n] + text[pos + n..]);
    assert forall i :: 2 <= i < |r| ==> r[i] == rest[i - 2];
    assert Concat(r) == text[start..];
    assert forall i :: 0 <= i < |r| && i % 2 == 1 ==> Lower(r[i]) == Lower(search) by {
      forall i | 0 <= i < |r| && i % 2 == 1 ensures Lower(r[i]) == Lower(search) {
        if i > 1 {
          assert (i - 2) % 2 == 1 && r[i] == rest[i - 2];
        }
      }
    }
  }

  /** One step of the split at a match: the unmatched text before it and
      the match, in front of a split of the text after the match, give a
      split from `start` with every property the scan promises. */
  lemma SplitMatchStep(text: string, search: string, start: nat, pos: nat, rest: seq<string>)
    requires start <= pos && MatchAt(text, search, pos)
    requires NoMatchIn(text, search, start, pos)
    requires IsSplit(text, search, pos + |search|, rest)
    ensures IsSplit(text, search, start, [text[start..pos], text[pos..pos + |search|]] + rest)
  {
    var a, b := text[start..pos], text[pos..pos + |search|];
    assert start + |a| == pos && pos + |b| == pos + |search|;
    assert SplitPieces(text, search, start, [a, b] + rest) by {
      PrependMatchShape(text, search, start, pos, rest);
    }
    assert OddPiecesMatch(text, search, start, [a, b] + rest) by {
      PrependMatchOdd(text, search, start, a, b, rest);
    }
    assert EvenPiecesClear(text, search, start, [a, b] + rest) by {
      PrependMatchEven(text, search, start, a, b, rest);
    }
  }

  /** With too little text left for a match, the rest of the text is one
      unmatched piece, and it is clear of matches. */
  lemma SplitEnd(text: string, search: string, start: nat, pos: nat)
    requires start <= pos <= |text| && pos + |search| > |text|
    requires NoMatchIn(text, search, start, pos)
    ensures IsSplit(text, search, start, [text[start..]])
  {
    var r := [text[start..]];
    assert Concat(r) == text[start..] + Concat([]);
    assert r[..0] == [];
    NoMatchToEnd(text, search, start, pos);
  }

  /** A position that is no match extends a clear range by one. */
  lemma NoMatchExtend(text: string, search: string, lo: nat, hi: nat)
    requires NoMatchIn(text, search, lo, hi) && !MatchAt(text, search, hi)
    ensures NoMatchIn(text, search, lo, hi + 1)
  {
  }

  /** Once too few characters remain for a match, the range is clear to the end. */
  lemma NoMatchToEnd(text: string, search: string, lo: nat, hi: nat)
    requires NoMatchIn(text, search, lo, hi) && hi + |search| > |text|
    ensures NoMatchIn(text, search, lo, |text|)
  {
  }

  /** The split of `text[start..]`, scanning for the leftmost match from
      `pos` (no match starts in `[start, pos)`): unmatched text and matches
      alternate, starting and ending with (possibly empty) unmatched text;
      every odd piece is a match where it stands, no match starts inside an
      even piece, and scanning resumes after each match. */
  function SplitFrom(text: string, search: string, pos: nat, start: nat): (r: seq<string>)
    requires |search| > 0 && start <= pos <= |text|
    requires NoMatchIn(text, search, start, pos)
    ensures IsSplit(text, search, start, r)
    decreases |text| - pos
  {
    if pos + |search| > |text| then
      SplitEnd(text, search, start, pos);
      [text[start..]]
    else if MatchAt(text, search, pos) then
      var n := |search|;
      var rest := SplitFrom(text, search, pos + n, pos + n);
      SplitMatchStep(text, search, start, pos, rest);
      [text[start..pos], text[pos..pos + n]] + rest
    else
      NoMatchExtend(text, search, start, pos);
      SplitFrom(text, search, pos + 1, start)
  }

  /** `re.split(f"(\\b{search})", text, flags=re.IGNORECASE)` for a literal
      search: the pieces spell the text, the odd pieces are exactly the
      matches found scanning left to right, and no match starts inside an
      even piece. */
  function RegexSplit(text: string, search: string): (r: seq<string>)
    requires LiteralSearch(search)
    ensures |r| % 2 == 1
    ensures Concat(r) == text
    ensures forall i :: 0 <= i < |r| && i % 2 == 1 ==> Lower(r[i]) == Lower(search)
    ensures forall i :: 0 <= i < |r| && i % 2 == 1 ==> MatchAt(text, search, PieceStart(r, i))
    ensures forall i :: 0 <= i < |r| && i % 2 == 0 ==>
      NoMatchIn(text, search, PieceStart(r, i), PieceStart(r, i) + |r[i]|)
  {
    assert text[0..] == text;
    SplitFrom(text, search, 0, 0)
  }

  /** Every match of the pattern lies inside a captured (odd) piece: the
      split misses no match. */
  lemma RegexSplitCapturesEveryMatch(text: string, search: string, q: nat)
    requires LiteralSearch(search) && MatchAt(text, search, q)
    ensures var r := RegexSplit(text, search);
      exists i :: 0 <= i < |r| && i % 2 == 1 && PieceStart(r, i) <= q < PieceStart(r, i) + |r[i]|
  {
    var r := RegexSplit(text, search);
    PieceContaining(r, q);
    var i :| 0 <= i < |r| && PieceStart(r, i) <= q < PieceStart(r, i) + |r[i]|;
    assert i % 2 == 0 ==> !MatchAt(text, search, q);
  }

  // ---------------------------------------------------------------------------
  // Highlighting and the search callbacks.

  /** A styled piece of a result's text: a badge, or plain text. */
  datatype Piece = Badge(text: string) | Plain(text: string)

  /** The text each piece shows. */
  function PieceTexts(ps: seq<Piece>): (r: seq<string>)
    ensures |r| == |ps|
    ensures forall i :: 0 <= i < |ps| ==> r[i] == ps[i].text
  {
    seq(|ps|, i requires 0 <= i < |ps| => ps[i].text)
  }

  /** `highlight` that badges the captured pieces, i.e. those at odd
      positions of the split: every badge is a match where it stands, and
      no match starts in plain text. */
  function HighlightMatches(text: string, search: string): (r: seq<Piece>)
    requires LiteralSearch(search)
    ensures PieceTexts(r) == RegexSplit(text, search)
    ensures Concat(PieceTexts(r)) == text
    ensures |r| % 2 == 1
    ensures forall i :: 0 <= i < |r| ==> (r[i].Badge? <==> i % 2 == 1)
    ensures forall i :: 0 <= i < |r| && r[i].Badge? ==> Lower(r[i].text) == Lower(search)
    ensures forall i :: 0 <= i < |r| && r[i].Badge? ==> MatchAt(text, search, PieceStart(PieceTexts(r), i))
    ensures forall i :: 0 <= i < |r| && r[i].Plain? ==>
      NoMatchIn(text, search, PieceStart(PieceTexts(r), i), PieceStart(PieceTexts(r), i) + |r[i].text|)
  {
    var els := RegexSplit(text, search);
    var r := seq(|els|, i requires 0 <= i < |els| => if i % 2 == 1 then Badge(els[i]) else Plain(els[i]));
    assert PieceTexts(r) == els;
    r
  }

  /** A row of the repository's `query_text_segments` result: the columns
      the result card reads. */
  datatype SearchRow = SearchRow(videoId: int, timeStart: real, thumbnail: Option<Bytes>, segment: string)

  /** A result card: its image, its highlighted text and its id. */
  datatype Card = Card(img: string, body: seq<Piece>, id: ResultId)

  /** What the results list shows. */
  datatype SearchView = Cards(cards: seq<Card>) | NoTextFound

  /** The card for a row around an already highlighted body: the thumbnail
      (or the placeholder) and the id the click callbacks receive. */
  function CardFor(row: SearchRow, body: seq<Piece>, base64: Bytes -> string): (c: Card)
    ensures c.id == ResultId(row.videoId, OffsetOf(row.timeStart)) && c.body == body
    ensures c.img == ThumbnailMissing <==> (row.thumbnail.None? || |row.thumbnail.value| == 0)
  {
    ImgSrcPlaceholderIffMissing(row.thumbnail, base64);
    Card(ImgSrc(row.thumbnail, base64), body, ResultId(row.videoId, OffsetOf(row.timeStart)))
  }

  /** dash.py's `convert_search_result_to_button`: the body badges the
      captured pieces of the segment text. */
  function ResultCard(search: string, row: SearchRow, base64: Bytes -> string): (c: Card)
    requires LiteralSearch(search)
    ensures c.id == ResultId(row.videoId, OffsetOf(row.timeStart))
    ensures c.img == ThumbnailMissing <==> (row.thumbnail.None? || |row.thumbnail.value| == 0)
    ensures PieceTexts(c.body) == RegexSplit(row.segment, search)
    ensures forall j :: 0 <= j < |c.body| ==> (c.body[j].Badge? <==> j % 2 == 1)
  {
    CardFor(row, HighlightMatches(row.segment, search), base64)
  }

  /** dash.py's `search_form_submitted`: one card per row in query order,
      or the "No text found" item when the query matched nothing. */
  function SearchFormSubmitted(search: string, rows: seq<SearchRow>, base64: Bytes -> string): (r: SearchView)
    requires LiteralSearch(search)
    ensures r.NoTextFound? <==> |rows| == 0
    ensures r.Cards? ==> |r.cards| == |rows|
    ensures r.Cards? ==> forall i :: 0 <= i < |rows| ==>
      && r.cards[i].id == ResultId(rows[i].videoId, OffsetOf(rows[i].timeStart))
      && Concat(PieceTexts(r.cards[i].body)) == rows[i].segment
      && PieceTexts(r.cards[i].body) == RegexSplit(rows[i].segment, search)
      && (forall j :: 0 <= j < |r.cards[i].body| ==> (r.cards[i].body[j].Badge? <==> j % 2 == 1))
      && (r.cards[i].img == ThumbnailMissing <==> (rows[i].thumbnail.None? || |rows[i].thumbnail.value| == 0))
  {
    if |rows| == 0 then NoTextFound
    else Cards(seq(|rows|, i requires 0 <= i < |rows| => ResultCard(search, rows[i], base64)))
  }

  /** Either search callback over the mock repository: its rows carry the
      column `text` where the card reads `segment`, so any match raises
      KeyError('segment'); only a query matching nothing shows a result. */
  function SearchOnMock(m: MockRepository, search: string): (r: Result<SearchView>)
    ensures r.Ok? <==> forall i :: 0 <= i < |m.texts| ==> !TextMatches(m.texts[i], search)
    ensures r.Ok? ==> r.value == NoTextFound
    ensures r.Err? ==> r.error == MissingKey("segment")
  {
    var rows := QueryTextSegments(m, search);
    if |rows| == 0 then Ok(NoTextFound)
    else
      assert rows[0] in m.texts;
      Err(MissingKey("segment"))
  }

  /** Clicking a card selects that card's video and offset: the ids the
      click callbacks receive are the cards' ids. */
  lemma ClickSelectsCard(search: string, rows: seq<SearchRow>, base64: Bytes -> string, ts: seq<Option<int>>, k: nat)
    requires LiteralSearch(search)
    requires SearchFormSubmitted(search, rows, base64).Cards?
    requires |ts| == |rows| && MostRecent(ts, k) && ClickTime(ts[k]) != 0
    ensures var cards := SearchFormSubmitted(search, rows, base64).cards;
      var ids := seq(|cards|, i requires 0 <= i < |cards| => cards[i].id);
      SelectResult(ts, ids) == Ok(Some(ResultId(rows[k].videoId, OffsetOf(rows[k].timeStart))))
  {
    var cards := SearchFormSubmitted(search, rows, base64).cards;
    var ids := seq(|cards|, i requires 0 <= i < |cards| => cards[i].id);
    var r := SelectResult(ts, ids);
    assert r.Ok? && r.value.Some?;
    var k': nat :| MostRecent(ts, k') && k' < |ids| && r.value.value == ids[k'];
  }

  /** Clicking a card makes the map callbacks query that card's own window:
      the clicked row's video, five seconds either side of its offset. */
  lemma ClickedCardWindow(
    search: string, rows: seq<SearchRow>, base64: Bytes -> string, m: MockRepository, ts: seq<Option<int>>, k: nat
  )
    requires LiteralSearch(search)
    requires SearchFormSubmitted(search, rows, base64).Cards?
    requires |ts| == |rows| && MostRecent(ts, k) && ClickTime(ts[k]) != 0
    ensures var cards := SearchFormSubmitted(search, rows, base64).cards;
      var ids := seq(|cards|, i requires 0 <= i < |cards| => cards[i].id);
      ClickedWindow(m, ts, ids) == Ok(Some(WindowAround(m, ResultId(rows[k].videoId, OffsetOf(rows[k].timeStart)))))
  {
    ClickSelectsCard(search, rows, base64, ts, k);
  }
}
