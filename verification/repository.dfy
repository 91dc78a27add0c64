/** The persistence layer: the six tables as an immutable store, lookup by
    id or checksum, and `save_data`, which resolves or creates the Video and
    Audio rows by checksum and appends one Transcription with its text
    segments, word segments and GPS rows, all in one commit. */
module Repository {

  import opened Wrappers
  import opened Values
  import opened Seqs

  datatype Video = Video(id: nat, filename: string, checksum: string, gpsFilename: string, metadata: string)
  datatype Audio = Audio(id: nat, videoId: nat, filename: string, checksum: string)
  datatype Transcription = Transcription(id: nat, audioId: nat, config: string)
  datatype TextSegment = TextSegment(
    id: nat, transcriptionId: nat,
    segment: Scalar, startTime: Scalar, endTime: Scalar, noSpeechProb: Scalar, thumbnail: Scalar)
  datatype WordSegment = WordSegment(
    id: nat, textSegmentId: nat,
    word: Scalar, startTime: Scalar, endTime: Scalar, probability: Scalar)
  datatype GpsPoint = GpsPoint(id: nat, videoId: nat, fields: Record)

  /** The committed database: each table's rows in insertion order, and the
      number of commits performed. */
  datatype Store = Store(
    videos: seq<Video>,
    audios: seq<Audio>,
    transcriptions: seq<Transcription>,
    textSegments: seq<TextSegment>,
    wordSegments: seq<WordSegment>,
    gps: seq<GpsPoint>,
    commits: nat)

  const EmptyStore: Store := Store([], [], [], [], [], [], 0)

  /** The five parts of an ingestion payload. */
  datatype VideoKwargs = VideoKwargs(filename: string, checksum: string, gpsFilename: string, metadata: string)
  datatype AudioKwargs = AudioKwargs(filename: string, checksum: string)
  datatype TranscriptionKwargs = TranscriptionKwargs(config: string)
  datatype Payload = Payload(
    video: VideoKwargs,
    audio: AudioKwargs,
    transcription: TranscriptionKwargs,
    textSegments: seq<Segment>,
    gps: seq<Record>)

  // ---------------------------------------------------------------------------
  // Integrity of the store: identity keys issued in sequence, foreign keys
  // that resolve, and unique checksums.

  predicate VideosWellFormed(s: Store) {
    && (forall k :: 0 <= k < |s.videos| ==> s.videos[k].id == k + 1)
    && (forall a, b :: 0 <= a < b < |s.videos| ==> s.videos[a].checksum != s.videos[b].checksum)
  }

  predicate AudiosWellFormed(s: Store) {
    && (forall k :: 0 <= k < |s.audios| ==> s.audios[k].id == k + 1 && 1 <= s.audios[k].videoId <= |s.videos|)
    && (forall a, b :: 0 <= a < b < |s.audios| ==> s.audios[a].checksum != s.audios[b].checksum)
  }

  predicate ChildrenWellFormed(s: Store) {
    && (forall k :: 0 <= k < |s.transcriptions| ==>
          s.transcriptions[k].id == k + 1 && 1 <= s.transcriptions[k].audioId <= |s.audios|)
    && (forall k :: 0 <= k < |s.textSegments| ==>
          s.textSegments[k].id == k + 1 && 1 <= s.textSegments[k].transcriptionId <= |s.transcriptions|)
    && (forall k :: 0 <= k < |s.wordSegments| ==>
          s.wordSegments[k].id == k + 1 && 1 <= s.wordSegments[k].textSegmentId <= |s.textSegments|)
    && (forall k :: 0 <= k < |s.gps| ==> s.gps[k].id == k + 1 && 1 <= s.gps[k].videoId <= |s.videos|)
  }

  predicate WellFormed(s: Store) {
    VideosWellFormed(s) && AudiosWellFormed(s) && ChildrenWellFormed(s)
  }

  /** The video with id `id` exists and carries checksum `c`. */
  predicate VideoHasChecksum(videos: seq<Video>, id: nat, c: string) {
    1 <= id <= |videos| && videos[id - 1].checksum == c
  }

  predicate AudioHasChecksum(audios: seq<Audio>, id: nat, c: string) {
    1 <= id <= |audios| && audios[id - 1].checksum == c
  }

  predicate VideoStored(s: Store, c: string) {
    exists k :: 0 <= k < |s.videos| && s.videos[k].checksum == c
  }

  predicate AudioStored(s: Store, c: string) {
    exists k :: 0 <= k < |s.audios| && s.audios[k].checksum == c
  }

  // ---------------------------------------------------------------------------
  // Lookups.

  /** `scalars(stmt).one_or_none()`. */
  function OneOrNone<T>(rows: seq<T>): (r: Result<Option<T>>)
    ensures |rows| == 0 ==> r == Ok(None)
    ensures |rows| == 1 ==> r == Ok(Some(rows[0]))
    ensures |rows| > 1 ==> r == Err(MultipleRows)
  {
    if |rows| == 0 then Ok(None) else if |rows| == 1 then Ok(Some(rows[0])) else Err(MultipleRows)
  }

  /** At most one row satisfies a predicate that no two rows share. */
  lemma {:induction false} AtMostOneMatch<T>(rows: seq<T>, p: T -> bool)
    requires forall a, b :: 0 <= a < b < |rows| && p(rows[a]) ==> !p(rows[b])
    ensures |Filter(rows, p)| <= 1
  {
    if |rows| > 0 {
      AtMostOneMatch(rows[1..], p);
      if p(rows[0]) {
        assert forall j :: 0 <= j < |rows[1..]| ==> !p(rows[1..][j]);
        FilterNone(rows[1..], p);
      }
    }
  }

  /** The single row satisfying `p`, None when there is none, MultipleRows otherwise. */
  function SelectOne<T>(rows: seq<T>, p: T -> bool): (r: Result<Option<T>>)
    ensures r.Ok? && r.value.Some? ==> r.value.value in rows && p(r.value.value)
    ensures r.Ok? && r.value.Some? ==> forall k :: 0 <= k < |rows| && p(rows[k]) ==> rows[k] == r.value.value
    ensures r.Ok? && r.value.None? ==> forall k :: 0 <= k < |rows| ==> !p(rows[k])
    ensures (forall a, b :: 0 <= a < b < |rows| && p(rows[a]) ==> !p(rows[b])) ==> r.Ok?
  {
    var matches := Filter(rows, p);
    if (forall a, b :: 0 <= a < b < |rows| && p(rows[a]) ==> !p(rows[b])) then
      AtMostOneMatch(rows, p);
      OneOrNone(matches)
    else
      OneOrNone(matches)
  }

  /** The row a lookup selects: by id when an id is given, else by checksum. */
  predicate Selects(id: nat, checksum: string, rowId: Option<int>, wanted: Option<string>) {
    if rowId.Some? then id == rowId.value else wanted.Some? && checksum == wanted.value
  }

  /** A lookup needs exactly one selector, and that selector must be truthy
      (a zero id or an empty checksum leaves the statement unassigned). */
  function CheckSelectors(rowId: Option<int>, checksum: Option<string>): (r: Result<bool>)
    ensures r.Ok? <==> ((rowId.Some? && rowId.value != 0 && checksum.None?)
                        || (rowId.None? && checksum.Some? && checksum.value != ""))
    ensures rowId.Some? == checksum.Some? ==> r.Err? && r.error.InvalidValue?
    ensures rowId.Some? != checksum.Some? && r.Err? ==> r == Err(UnboundStatement)
  {
    if rowId.Some? == checksum.Some? then Err(InvalidValue("Must specify an id OR `checksum`"))
    else if (rowId.Some? && rowId.value != 0) || (checksum.Some? && checksum.value != "") then Ok(true)
    else Err(UnboundStatement)
  }

  /** `get_video(video_id=..., checksum=...)`. */
  function GetVideo(s: Store, videoId: Option<int>, checksum: Option<string>): (r: Result<Option<Video>>)
    ensures CheckSelectors(videoId, checksum).Err? ==> r == Err(CheckSelectors(videoId, checksum).error)
    ensures r.Ok? && r.value.Some? ==>
      r.value.value in s.videos && Selects(r.value.value.id, r.value.value.checksum, videoId, checksum)
    ensures r.Ok? && r.value.None? ==>
      forall k :: 0 <= k < |s.videos| ==> !Selects(s.videos[k].id, s.videos[k].checksum, videoId, checksum)
    ensures WellFormed(s) && CheckSelectors(videoId, checksum).Ok? ==> r.Ok?
  {
    var _ :- CheckSelectors(videoId, checksum);
    SelectOne(s.videos, (v: Video) => Selects(v.id, v.checksum, videoId, checksum))
  }

  /** `get_audio(audio_id=..., checksum=...)`. */
  function GetAudio(s: Store, audioId: Option<int>, checksum: Option<string>): (r: Result<Option<Audio>>)
    ensures CheckSelectors(audioId, checksum).Err? ==> r == Err(CheckSelectors(audioId, checksum).error)
    ensures r.Ok? && r.value.Some? ==>
      r.value.value in s.audios && Selects(r.value.value.id, r.value.value.checksum, audioId, checksum)
    ensures r.Ok? && r.value.None? ==>
      forall k :: 0 <= k < |s.audios| ==> !Selects(s.audios[k].id, s.audios[k].checksum, audioId, checksum)
    ensures WellFormed(s) && CheckSelectors(audioId, checksum).Ok? ==> r.Ok?
  {
    var _ :- CheckSelectors(audioId, checksum);
    SelectOne(s.audios, (a: Audio) => Selects(a.id, a.checksum, audioId, checksum))
  }

  // ---------------------------------------------------------------------------
  // Resolve-or-create of the parents.

  /** The Video row the payload resolves to: the stored one with the same
      checksum, or a new row appended with the next id. Returns the rows to
      add and the resolved id. */
  function ResolveVideo(s: Store, kw: VideoKwargs): (r: Result<(seq<Video>, nat)>)
    requires WellFormed(s)
    ensures r.Ok? <==> kw.checksum != ""
    ensures r.Ok? ==> VideoHasChecksum(s.videos + r.value.0, r.value.1, kw.checksum)
    ensures r.Ok? && VideoStored(s, kw.checksum) ==> r.value.0 == []
    ensures r.Ok? && !VideoStored(s, kw.checksum) ==>
      r.value.0 == [Video(|s.videos| + 1, kw.filename, kw.checksum, kw.gpsFilename, kw.metadata)]
  {
    var found :- GetVideo(s, None, Some(kw.checksum));
    match found
    case Some(v) =>
      assert s.videos[v.id - 1] == v;
      Ok(([], v.id))
    case None =>
      Ok(([Video(|s.videos| + 1, kw.filename, kw.checksum, kw.gpsFilename, kw.metadata)], |s.videos| + 1))
  }

  /** The Audio row the payload resolves to. A new row is linked to the
      resolved video; a stored row is reused with its link as it was. */
  function ResolveAudio(s: Store, videoId: nat, kw: AudioKwargs): (r: Result<(seq<Audio>, nat)>)
    requires WellFormed(s)
    ensures r.Ok? <==> kw.checksum != ""
    ensures r.Ok? ==> AudioHasChecksum(s.audios + r.value.0, r.value.1, kw.checksum)
    ensures r.Ok? && AudioStored(s, kw.checksum) ==> r.value.0 == []
    ensures r.Ok? && !AudioStored(s, kw.checksum) ==>
      r.value.0 == [Audio(|s.audios| + 1, videoId, kw.filename, kw.checksum)]
  {
    var found :- GetAudio(s, None, Some(kw.checksum));
    match found
    case Some(a) =>
      assert s.audios[a.id - 1] == a;
      Ok(([], a.id))
    case None =>
      Ok(([Audio(|s.audios| + 1, videoId, kw.filename, kw.checksum)], |s.audios| + 1))
  }

  // ---------------------------------------------------------------------------
  // Construction of the child rows.

  /** The keys `save_data` reads from a text-segment dict and from a word dict. */
  predicate SegmentKeysPresent(seg: Segment) {
    && "text" in seg.fields && "start" in seg.fields && "end" in seg.fields
    && "no_speech_prob" in seg.fields && "thumbnail" in seg.fields
  }

  predicate WordKeysPresent(w: Record) {
    "word" in w && "start" in w && "end" in w && "probability" in w
  }

  /** A segment dict carries everything `save_data` reads from it and from its words. */
  predicate Complete(seg: Segment) {
    SegmentKeysPresent(seg) && forall j :: 0 <= j < |seg.words| ==> WordKeysPresent(seg.words[j])
  }

  /** The field mapping of a text segment: text->segment, start->start_time,
      end->end_time, no_speech_prob and thumbnail copied. */
  predicate IsSegmentRow(row: TextSegment, seg: Segment, id: nat, transcriptionId: nat) {
    && row.id == id && row.transcriptionId == transcriptionId
    && SegmentKeysPresent(seg)
    && row.segment == seg.fields["text"]
    && row.startTime == seg.fields["start"]
    && row.endTime == seg.fields["end"]
    && row.noSpeechProb == seg.fields["no_speech_prob"]
    && row.thumbnail == seg.fields["thumbnail"]
  }

  /** The field mapping of a word: word, start->start_time, end->end_time, probability. */
  predicate IsWordRow(row: WordSegment, w: Record, id: nat, textSegmentId: nat) {
    && row.id == id && row.textSegmentId == textSegmentId
    && WordKeysPresent(w)
    && row.word == w["word"]
    && row.startTime == w["start"]
    && row.endTime == w["end"]
    && row.probability == w["probability"]
  }

  /** `TextSegment(transcription=..., segment=ts["text"], ...)`; a missing key is a KeyError. */
  function TextSegmentOf(seg: Segment, id: nat, transcriptionId: nat): (r: Result<TextSegment>)
    ensures r.Ok? <==> SegmentKeysPresent(seg)
    ensures r.Ok? ==> IsSegmentRow(r.value, seg, id, transcriptionId)
    ensures r.Err? ==> r.error.MissingKey?
  {
    var text :- Lookup(seg.fields, "text");
    var start :- Lookup(seg.fields, "start");
    var end :- Lookup(seg.fields, "end");
    var noSpeech :- Lookup(seg.fields, "no_speech_prob");
    var thumbnail :- Lookup(seg.fields, "thumbnail");
    Ok(TextSegment(id, transcriptionId, text, start, end, noSpeech, thumbnail))
  }

  /** `WordSegment(text_segment=..., word=word["word"], ...)`. */
  function WordSegmentOf(w: Record, id: nat, textSegmentId: nat): (r: Result<WordSegment>)
    ensures r.Ok? <==> WordKeysPresent(w)
    ensures r.Ok? ==> IsWordRow(r.value, w, id, textSegmentId)
    ensures r.Err? ==> r.error.MissingKey?
  {
    var word :- Lookup(w, "word");
    var start :- Lookup(w, "start");
    var end :- Lookup(w, "end");
    var probability :- Lookup(w, "probability");
    Ok(WordSegment(id, textSegmentId, word, start, end, probability))
  }

  /** The word rows of one segment, in order, with consecutive ids. */
  function BuildWords(ws: seq<Record>, firstId: nat, textSegmentId: nat): (r: Result<seq<WordSegment>>)
    ensures r.Ok? <==> forall j :: 0 <= j < |ws| ==> WordKeysPresent(ws[j])
    ensures r.Ok? ==> |r.value| == |ws|
    ensures r.Ok? ==> forall j :: 0 <= j < |ws| ==> IsWordRow(r.value[j], ws[j], firstId + j, textSegmentId)
  {
    if |ws| == 0 then Ok([])
    else
      var w :- WordSegmentOf(ws[0], firstId, textSegmentId);
      var rest :- BuildWords(ws[1..], firstId + 1, textSegmentId);
      assert forall j :: 1 <= j < |ws| ==> ws[j] == ws[1..][j - 1];
      Ok([w] + rest)
  }

  /** The number of words in the segments before index `i`. */
  function WordOffset(segs: seq<Segment>, i: nat): nat
    requires i <= |segs|
  {
    if i == 0 then 0 else WordOffset(segs, i - 1) + |segs[i - 1].words|
  }

  lemma {:induction false} WordOffsetPrefix(segs: seq<Segment>, n: nat, i: nat)
    requires i <= n <= |segs|
    ensures WordOffset(segs[..n], i) == WordOffset(segs, i)
  {
    if i > 0 {
      WordOffsetPrefix(segs, n, i - 1);
    }
  }

  lemma {:induction false} WordOffsetGrows(segs: seq<Segment>, i: nat, j: nat)
    requires i < j <= |segs|
    ensures WordOffset(segs, i) + |segs[i].words| <= WordOffset(segs, j)
    decreases j
  {
    if i + 1 < j {
      WordOffsetGrows(segs, i, j - 1);
    }
  }

  /** `rows` are the text-segment rows of `segs`: one per segment dict, in
      order, with consecutive ids from `firstId`. */
  predicate SegmentRowsFor(segs: seq<Segment>, rows: seq<TextSegment>, firstId: nat, transcriptionId: nat) {
    && |rows| == |segs|
    && forall i :: 0 <= i < |segs| ==> IsSegmentRow(rows[i], segs[i], firstId + i, transcriptionId)
  }

  /** `rows` are the word rows of `segs`, segment after segment: the rows of
      segment `i` start at `WordOffset(segs, i)`, have consecutive ids and
      point at that segment's row `firstSegId + i`. */
  predicate WordRowsFor(segs: seq<Segment>, rows: seq<WordSegment>, firstId: nat, firstSegId: nat) {
    && |rows| == WordOffset(segs, |segs|)
    && forall i, j :: 0 <= i < |segs| && 0 <= j < |segs[i].words| ==> WordRowAt(segs, rows, i, j, firstId, firstSegId)
  }

  /** Word `j` of segment `i` has its row at `WordOffset(segs, i) + j`. */
  predicate WordRowAt(segs: seq<Segment>, rows: seq<WordSegment>, i: nat, j: nat, firstId: nat, firstSegId: nat)
    requires i < |segs| && j < |segs[i].words|
  {
    && WordOffset(segs, i) + j < |rows|
    && IsWordRow(rows[WordOffset(segs, i) + j], segs[i].words[j], firstId + WordOffset(segs, i) + j, firstSegId + i)
  }

  /** Every row in `rows` has the id its position gives it and points at one
      of `count` segment rows starting at `firstSegId`. */
  predicate WordLinksWithin(rows: seq<WordSegment>, firstId: nat, firstSegId: nat, count: nat) {
    forall k :: 0 <= k < |rows| ==>
      rows[k].id == firstId + k && firstSegId <= rows[k].textSegmentId < firstSegId + count
  }

  lemma SegmentRowsExtend(segs: seq<Segment>, prev: seq<TextSegment>, row: TextSegment, firstId: nat, transcriptionId: nat)
    requires |segs| > 0
    requires SegmentRowsFor(segs[..|segs| - 1], prev, firstId, transcriptionId)
    requires IsSegmentRow(row, segs[|segs| - 1], firstId + |segs| - 1, transcriptionId)
    ensures SegmentRowsFor(segs, prev + [row], firstId, transcriptionId)
  {
    var n := |segs| - 1;
    forall i | 0 <= i < |segs|
      ensures IsSegmentRow((prev + [row])[i], segs[i], firstId + i, transcriptionId)
    {
      if i < n {
        assert segs[..n][i] == segs[i];
      }
    }
  }

  lemma WordRowsExtend(segs: seq<Segment>, prev: seq<WordSegment>, words: seq<WordSegment>, firstId: nat, firstSegId: nat)
    requires |segs| > 0
    requires WordRowsFor(segs[..|segs| - 1], prev, firstId, firstSegId)
    requires |words| == |segs[|segs| - 1].words|
    requires forall j :: 0 <= j < |words| ==>
      IsWordRow(words[j], segs[|segs| - 1].words[j], firstId + |prev| + j, firstSegId + |segs| - 1)
    ensures WordRowsFor(segs, prev + words, firstId, firstSegId)
  {
    var n := |segs| - 1;
    var all := prev + words;
    WordOffsetPrefix(segs, n, n);
    assert WordOffset(segs, n) == |prev|;
    assert |all| == WordOffset(segs, |segs|);
    forall i, j | 0 <= i < |segs| && 0 <= j < |segs[i].words|
      ensures WordRowAt(segs, all, i, j, firstId, firstSegId)
    {
      if i < n {
        WordRowKept(segs, prev, words, firstId, firstSegId, i, j);
      } else {
        assert WordOffset(segs, i) + j == |prev| + j;
        assert all[WordOffset(segs, i) + j] == words[j];
      }
    }
  }

  /** A word row of an earlier segment keeps its place when rows are appended. */
  lemma WordRowKept(segs: seq<Segment>, prev: seq<WordSegment>, words: seq<WordSegment>, firstId: nat, firstSegId: nat, i: nat, j: nat)
    requires |segs| > 0 && i < |segs| - 1 && j < |segs[i].words|
    requires WordRowsFor(segs[..|segs| - 1], prev, firstId, firstSegId)
    ensures WordRowAt(segs, prev + words, i, j, firstId, firstSegId)
  {
    var n := |segs| - 1;
    WordOffsetPrefix(segs, n, i);
    assert segs[..n][i] == segs[i];
    assert segs[..n][i].words[j] == segs[i].words[j];
    assert WordRowAt(segs[..n], prev, i, j, firstId, firstSegId);
    assert WordOffset(segs[..n], i) + j < |prev|;
    assert (prev + words)[WordOffset(segs, i) + j] == prev[WordOffset(segs[..n], i) + j];
  }

  lemma WordLinksExtend(prev: seq<WordSegment>, words: seq<WordSegment>, firstId: nat, firstSegId: nat, n: nat)
    requires WordLinksWithin(prev, firstId, firstSegId, n)
    requires forall j :: 0 <= j < |words| ==> words[j].id == firstId + |prev| + j && words[j].textSegmentId == firstSegId + n
    ensures WordLinksWithin(prev + words, firstId, firstSegId, n + 1)
  {
    var all := prev + words;
    forall k | 0 <= k < |all|
      ensures all[k].id == firstId + k && firstSegId <= all[k].textSegmentId < firstSegId + n + 1
    {
      if k >= |prev| {
        assert all[k] == words[k - |prev|];
      }
    }
  }

  /** Rows for all segments and their words, built segment by segment in
      payload order; the first missing key aborts the whole construction. */
  function BuildSegments(segs: seq<Segment>, firstSegId: nat, firstWordId: nat, transcriptionId: nat)
    : (r: Result<(seq<TextSegment>, seq<WordSegment>)>)
    ensures r.Ok? <==> forall i :: 0 <= i < |segs| ==> Complete(segs[i])
    ensures r.Ok? ==> SegmentRowsFor(segs, r.value.0, firstSegId, transcriptionId)
    ensures r.Ok? ==> WordRowsFor(segs, r.value.1, firstWordId, firstSegId)
    ensures r.Ok? ==> WordLinksWithin(r.value.1, firstWordId, firstSegId, |segs|)
    decreases |segs|
  {
    if |segs| == 0 then Ok(([], []))
    else
      var n := |segs| - 1;
      assert forall i :: 0 <= i < n ==> segs[..n][i] == segs[i];
      var prev :- BuildSegments(segs[..n], firstSegId, firstWordId, transcriptionId);
      var row :- TextSegmentOf(segs[n], firstSegId + n, transcriptionId);
      var words :- BuildWords(segs[n].words, firstWordId + |prev.1|, firstSegId + n);
      SegmentRowsExtend(segs, prev.0, row, firstSegId, transcriptionId);
      WordRowsExtend(segs, prev.1, words, firstWordId, firstSegId);
      WordLinksExtend(prev.1, words, firstWordId, firstSegId, n);
      Ok((prev.0 + [row], prev.1 + words))
  }

  /** `GPS(video=video, **kwargs)` for every GPS dict, in order. */
  function BuildGps(rows: seq<Record>, firstId: nat, videoId: nat): (r: seq<GpsPoint>)
    ensures |r| == |rows|
    ensures forall i :: 0 <= i < |rows| ==> r[i] == GpsPoint(firstId + i, videoId, rows[i])
  {
    seq(|rows|, i requires 0 <= i < |rows| => GpsPoint(firstId + i, videoId, rows[i]))
  }

  // ---------------------------------------------------------------------------
  // save_data.

  /** Every row stored before is still there, unchanged, and one commit was added. */
  predicate KeepsStored(s: Store, r: Store) {
    && |r.videos| >= |s.videos| && r.videos[..|s.videos|] == s.videos
    && |r.audios| >= |s.audios| && r.audios[..|s.audios|] == s.audios
    && |r.transcriptions| >= |s.transcriptions| && r.transcriptions[..|s.transcriptions|] == s.transcriptions
    && |r.textSegments| >= |s.textSegments| && r.textSegments[..|s.textSegments|] == s.textSegments
    && |r.wordSegments| >= |s.wordSegments| && r.wordSegments[..|s.wordSegments|] == s.wordSegments
    && |r.gps| >= |s.gps| && r.gps[..|s.gps|] == s.gps
    && r.commits == s.commits + 1
  }

  /** The Video is looked up by checksum and added only when none is stored. */
  predicate ResolvedVideo(s: Store, p: Payload, r: Store) {
    && (VideoStored(s, p.video.checksum) ==> r.videos == s.videos)
    && (!VideoStored(s, p.video.checksum) ==>
          r.videos == s.videos + [Video(|s.videos| + 1, p.video.filename, p.video.checksum,
                                        p.video.gpsFilename, p.video.metadata)])
  }

  /** The Audio is looked up by checksum; a new one links to the payload's Video. */
  predicate ResolvedAudio(s: Store, p: Payload, r: Store) {
    && (AudioStored(s, p.audio.checksum) ==> r.audios == s.audios)
    && (!AudioStored(s, p.audio.checksum) ==>
          && |r.audios| == |s.audios| + 1
          && r.audios[|s.audios|].id == |s.audios| + 1
          && r.audios[|s.audios|].filename == p.audio.filename
          && r.audios[|s.audios|].checksum == p.audio.checksum
          && VideoHasChecksum(r.videos, r.audios[|s.audios|].videoId, p.video.checksum))
  }

  /** Exactly one Transcription is added, carrying the payload's config and
      linked to the payload's Audio. */
  predicate AddedTranscription(s: Store, p: Payload, r: Store) {
    && |r.transcriptions| == |s.transcriptions| + 1
    && r.transcriptions[|s.transcriptions|].id == |s.transcriptions| + 1
    && r.transcriptions[|s.transcriptions|].config == p.transcription.config
    && AudioHasChecksum(r.audios, r.transcriptions[|s.transcriptions|].audioId, p.audio.checksum)
  }

  /** The new text-segment and word rows are those of the payload's segments,
      under the new Transcription. */
  predicate AddedSegments(s: Store, p: Payload, r: Store) {
    && |r.textSegments| >= |s.textSegments| && |r.wordSegments| >= |s.wordSegments|
    && SegmentRowsFor(p.textSegments, r.textSegments[|s.textSegments|..],
                      |s.textSegments| + 1, |s.transcriptions| + 1)
    && WordRowsFor(p.textSegments, r.wordSegments[|s.wordSegments|..],
                   |s.wordSegments| + 1, |s.textSegments| + 1)
  }

  /** One GPS row per GPS dict, in order, all under the payload's Video;
      GPS rows are never deduplicated. */
  predicate AddedGps(s: Store, p: Payload, r: Store) {
    && |r.gps| == |s.gps| + |p.gps|
    && forall i :: 0 <= i < |p.gps| ==>
         && r.gps[|s.gps| + i].id == |s.gps| + 1 + i
         && r.gps[|s.gps| + i].fields == p.gps[i]
         && VideoHasChecksum(r.videos, r.gps[|s.gps| + i].videoId, p.video.checksum)
  }

  /** The store after the session adds every built row and commits. */
  function Committed(s: Store, videos: seq<Video>, audios: seq<Audio>, transcription: Transcription,
                     built: (seq<TextSegment>, seq<WordSegment>), gps: seq<GpsPoint>): (r: Store)
    ensures KeepsStored(s, r)
  {
    var r := Store(s.videos + videos, s.audios + audios, s.transcriptions + [transcription],
                   s.textSegments + built.0, s.wordSegments + built.1, s.gps + gps, s.commits + 1);
    assert r.videos[..|s.videos|] == s.videos;
    assert r.audios[..|s.audios|] == s.audios;
    assert r.transcriptions[..|s.transcriptions|] == s.transcriptions;
    assert r.textSegments[..|s.textSegments|] == s.textSegments;
    assert r.wordSegments[..|s.wordSegments|] == s.wordSegments;
    assert r.gps[..|s.gps|] == s.gps;
    r
  }

  /** `save_data(video_kwargs, audio_kwargs, transcription_kwargs,
      text_segments_dicts, gps_kwargs)`. Every row is built before anything
      is added; a failure leaves the committed store untouched, a success
      adds exactly one commit. */
  function SaveData(s: Store, p: Payload): (r: Result<Store>)
    requires WellFormed(s)
    ensures r.Ok? <==> p.video.checksum != "" && p.audio.checksum != ""
                       && forall i :: 0 <= i < |p.textSegments| ==> Complete(p.textSegments[i])
    ensures r.Ok? ==> WellFormed(r.value) && KeepsStored(s, r.value)
    ensures r.Ok? ==> ResolvedVideo(s, p, r.value) && ResolvedAudio(s, p, r.value)
    ensures r.Ok? ==> AddedTranscription(s, p, r.value) && AddedSegments(s, p, r.value) && AddedGps(s, p, r.value)
  {
    var video :- ResolveVideo(s, p.video);
    var audio :- ResolveAudio(s, video.1, p.audio);
    var transcription := Transcription(|s.transcriptions| + 1, audio.1, p.transcription.config);
    var built :- BuildSegments(p.textSegments, |s.textSegments| + 1, |s.wordSegments| + 1, transcription.id);
    var gps := BuildGps(p.gps, |s.gps| + 1, video.1);
    var r := Committed(s, video.0, audio.0, transcription, built, gps);
    SaveDataSound(s, p, video, audio, built, gps, r);
    Ok(r)
  }

  /** The row-level account of a successful `save_data`. */
  lemma SaveDataSound(s: Store, p: Payload, video: (seq<Video>, nat), audio: (seq<Audio>, nat),
                      built: (seq<TextSegment>, seq<WordSegment>), gps: seq<GpsPoint>, r: Store)
    requires WellFormed(s)
    requires ResolveVideo(s, p.video) == Ok(video)
    requires ResolveAudio(s, video.1, p.audio) == Ok(audio)
    requires BuildSegments(p.textSegments, |s.textSegments| + 1, |s.wordSegments| + 1, |s.transcriptions| + 1) == Ok(built)
    requires gps == BuildGps(p.gps, |s.gps| + 1, video.1)
    requires r == Committed(s, video.0, audio.0, Transcription(|s.transcriptions| + 1, audio.1, p.transcription.config), built, gps)
    ensures WellFormed(r)
    ensures ResolvedVideo(s, p, r) && ResolvedAudio(s, p, r)
    ensures AddedTranscription(s, p, r) && AddedSegments(s, p, r) && AddedGps(s, p, r)
  {
    SaveDataParents(s, p, video, audio, r);
    SaveDataChildren(s, p, video.1, audio.1, built, gps, r);
    VideosStayWellFormed(s, p, r);
    AudiosStayWellFormed(s, p, r);
    ChildrenStayWellFormed(s, p, r, built.1);
  }

  lemma SaveDataParents(s: Store, p: Payload, video: (seq<Video>, nat), audio: (seq<Audio>, nat), r: Store)
    requires WellFormed(s)
    requires ResolveVideo(s, p.video) == Ok(video)
    requires ResolveAudio(s, video.1, p.audio) == Ok(audio)
    requires r.videos == s.videos + video.0 && r.audios == s.audios + audio.0
    ensures ResolvedVideo(s, p, r) && ResolvedAudio(s, p, r)
    ensures VideoHasChecksum(r.videos, video.1, p.video.checksum)
    ensures AudioHasChecksum(r.audios, audio.1, p.audio.checksum)
  {
  }

  lemma SaveDataChildren(s: Store, p: Payload, videoId: nat, audioId: nat,
                         built: (seq<TextSegment>, seq<WordSegment>), gps: seq<GpsPoint>, r: Store)
    requires VideoHasChecksum(r.videos, videoId, p.video.checksum)
    requires AudioHasChecksum(r.audios, audioId, p.audio.checksum)
    requires BuildSegments(p.textSegments, |s.textSegments| + 1, |s.wordSegments| + 1, |s.transcriptions| + 1) == Ok(built)
    requires gps == BuildGps(p.gps, |s.gps| + 1, videoId)
    requires r.transcriptions == s.transcriptions + [Transcription(|s.transcriptions| + 1, audioId, p.transcription.config)]
    requires r.textSegments == s.textSegments + built.0
    requires r.wordSegments == s.wordSegments + built.1
    requires r.gps == s.gps + gps
    ensures AddedTranscription(s, p, r) && AddedSegments(s, p, r) && AddedGps(s, p, r)
  {
    assert r.textSegments[|s.textSegments|..] == built.0;
    assert r.wordSegments[|s.wordSegments|..] == built.1;
  }

  // The integrity argument for one `save_data`, table by table: new rows
  // carry the next ids and point at existing or new parents, and no checksum
  // is stored twice.

  lemma VideosStayWellFormed(s: Store, p: Payload, r: Store)
    requires WellFormed(s) && ResolvedVideo(s, p, r)
    ensures VideosWellFormed(r)
  {
  }

  lemma AudiosStayWellFormed(s: Store, p: Payload, r: Store)
    requires WellFormed(s) && KeepsStored(s, r) && ResolvedVideo(s, p, r) && ResolvedAudio(s, p, r)
    ensures AudiosWellFormed(r)
  {
    assert forall k :: 0 <= k < |s.audios| ==> r.audios[k] == s.audios[k];
  }

  lemma ChildrenStayWellFormed(s: Store, p: Payload, r: Store, words: seq<WordSegment>)
    requires WellFormed(s) && KeepsStored(s, r)
    requires AddedTranscription(s, p, r) && AddedSegments(s, p, r) && AddedGps(s, p, r)
    requires r.wordSegments == s.wordSegments + words
    requires WordLinksWithin(words, |s.wordSegments| + 1, |s.textSegments| + 1, |p.textSegments|)
    ensures ChildrenWellFormed(r)
  {
    assert forall k :: 0 <= k < |s.transcriptions| ==> r.transcriptions[k] == s.transcriptions[k];
    assert forall k :: 0 <= k < |s.textSegments| ==> r.textSegments[k] == s.textSegments[k];
    assert forall k :: 0 <= k < |s.gps| ==> r.gps[k] == s.gps[k];
    var segs := r.textSegments[|s.textSegments|..];
    assert forall k :: |s.textSegments| <= k < |r.textSegments| ==> r.textSegments[k] == segs[k - |s.textSegments|];
    assert forall k :: |s.wordSegments| <= k < |r.wordSegments| ==> r.wordSegments[k] == words[k - |s.wordSegments|];
    forall k | |s.gps| <= k < |r.gps|
      ensures r.gps[k].id == k + 1 && 1 <= r.gps[k].videoId <= |r.videos|
    {
      var i := k - |s.gps|;
      assert r.gps[|s.gps| + i].fields == p.gps[i];
    }
  }

  // ---------------------------------------------------------------------------
  // Consequences of save_data.

  /** After a successful save the payload's Video and Audio are stored. */
  lemma {:induction false} SavedParentsStored(s: Store, p: Payload)
    requires WellFormed(s) && SaveData(s, p).Ok?
    ensures VideoStored(SaveData(s, p).value, p.video.checksum)
    ensures AudioStored(SaveData(s, p).value, p.audio.checksum)
  {
    var r := SaveData(s, p).value;
    if VideoStored(s, p.video.checksum) {
      var k :| 0 <= k < |s.videos| && s.videos[k].checksum == p.video.checksum;
      assert r.videos[k] == s.videos[k];
    } else {
      assert r.videos[|s.videos|].checksum == p.video.checksum;
    }
    if AudioStored(s, p.audio.checksum) {
      var k :| 0 <= k < |s.audios| && s.audios[k].checksum == p.audio.checksum;
      assert r.audios[k] == s.audios[k];
    } else {
      assert r.audios[|s.audios|].checksum == p.audio.checksum;
    }
  }

  /** Save then look up: `get_video(checksum=...)` finds the saved Video. */
  lemma SavedVideoIsRetrievable(s: Store, p: Payload)
    requires WellFormed(s) && SaveData(s, p).Ok?
    ensures GetVideo(SaveData(s, p).value, None, Some(p.video.checksum)).Ok?
    ensures GetVideo(SaveData(s, p).value, None, Some(p.video.checksum)).value.Some?
    ensures GetVideo(SaveData(s, p).value, None, Some(p.video.checksum)).value.value.checksum == p.video.checksum
  {
    SavedParentsStored(s, p);
  }

  /** Ingesting a video whose video and audio checksums are already stored
      reuses both parent rows; only a Transcription, its segments and the GPS
      rows are added. */
  lemma {:induction false} ReingestionReusesParents(s: Store, p1: Payload, p2: Payload)
    requires WellFormed(s) && SaveData(s, p1).Ok?
    requires p2.video.checksum == p1.video.checksum && p2.audio.checksum == p1.audio.checksum
    ensures (SaveData(SaveData(s, p1).value, p2).Ok?
             <==> forall i :: 0 <= i < |p2.textSegments| ==> Complete(p2.textSegments[i]))
    ensures var s1 := SaveData(s, p1).value;
            var r2 := SaveData(s1, p2);
            r2.Ok? ==>
              && r2.value.videos == s1.videos
              && r2.value.audios == s1.audios
              && |r2.value.transcriptions| == |s1.transcriptions| + 1
              && |r2.value.gps| == |s1.gps| + |p2.gps|
  {
    SavedParentsStored(s, p1);
  }

  /** The first ingestion into an empty database creates one of each parent. */
  lemma FirstIngestion(s: Store, p: Payload)
    requires s == EmptyStore && SaveData(s, p).Ok?
    ensures var r := SaveData(s, p).value;
            |r.videos| == 1 && |r.audios| == 1 && |r.transcriptions| == 1 && r.commits == 1
            && |r.gps| == |p.gps|
  {
    var r := SaveData(s, p).value;
    assert KeepsStored(s, r) && ResolvedVideo(s, p, r) && ResolvedAudio(s, p, r);
    assert AddedTranscription(s, p, r) && AddedGps(s, p, r);
    assert !VideoStored(s, p.video.checksum);
    assert !AudioStored(s, p.audio.checksum);
  }

  /** Two ingestions of the same file into an empty database: one Video, one
      Audio, two Transcriptions, two commits. */
  lemma TwoIngestionsFromEmpty(s: Store, p1: Payload, p2: Payload)
    requires s == EmptyStore
    requires p1.video.checksum != "" && p1.audio.checksum != ""
    requires p2.video.checksum == p1.video.checksum && p2.audio.checksum == p1.audio.checksum
    requires forall i :: 0 <= i < |p1.textSegments| ==> Complete(p1.textSegments[i])
    requires forall i :: 0 <= i < |p2.textSegments| ==> Complete(p2.textSegments[i])
    ensures SaveData(s, p1).Ok?
    ensures SaveData(SaveData(s, p1).value, p2).Ok?
    ensures var r := SaveData(SaveData(s, p1).value, p2).value;
            |r.videos| == 1 && |r.audios| == 1 && |r.transcriptions| == 2 && r.commits == 2
            && |r.gps| == |p1.gps| + |p2.gps|
  {
    FirstIngestion(s, p1);
    ReingestionReusesParents(s, p1, p2);
  }
}
