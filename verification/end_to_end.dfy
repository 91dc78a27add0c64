/** `process_video`: extract audio and metadata, transcribe, attach a
    thumbnail to every segment, parse the GPS log, fingerprint the files and
    save everything in one repository call. The external programs are
    gathered in `Tools`; the run's effects are the file system (the extracted
    audio) and the store. */
module EndToEnd {

  import opened Wrappers
  import opened Values
  import opened JobConfig
  import opened Utils
  import opened VideoProcessing
  import opened AudioProcessing
  import opened GpsProcessing
  import opened Repository

  /** The programs and serialisers the pipeline calls: ffmpeg (audio and
      frame extraction), ffprobe, the speech engine, the CSV reader, MD5, and
      `json.dumps` of the metadata and of the transcription configuration. */
  datatype Tools = Tools(
    ffmpegAudio: Bytes -> Bytes,
    ffprobe: Bytes -> Json,
    ffmpegFrame: (Bytes, int, Scalar) -> Bytes,
    whisper: Whisper,
    readCsv: Bytes -> Result<CsvFile>,
    md5Hex: Bytes -> string,
    dumpJson: Json -> string,
    dumpConfig: WhisperConfig -> string)

  /** The state a run leaves behind and how it ended. */
  datatype Run = Run(fs: FileSystem, store: Store, outcome: Completion)

  /** `get_fname(f)`, that is `os.path.split(f)[-1]`: the part after the last
      slash, empty when the path ends in one. */
  function GetFname(f: string): (r: string)
    ensures |r| <= |f| && r == f[|f| - |r|..]
    ensures forall i :: 0 <= i < |r| ==> r[i] != '/'
    ensures |r| < |f| ==> f[|f| - |r| - 1] == '/'
  {
    if |f| == 0 || f[|f| - 1] == '/' then ""
    else
      var init := f[..|f| - 1];
      var r := GetFname(init) + [f[|f| - 1]];
      assert init[|init| - (|r| - 1)..] + [f[|f| - 1]] == f[|f| - |r|..];
      r
  }

  /** The file name of `dir/name` is `name`. */
  lemma {:induction false} FnameOfJoinedPath(dir: string, name: string)
    requires forall i :: 0 <= i < |name| ==> name[i] != '/'
    ensures GetFname(dir + "/" + name) == name
  {
    var f := dir + "/" + name;
    if |name| > 0 {
      var init := name[..|name| - 1];
      FnameOfJoinedPath(dir, init);
      assert f[..|f| - 1] == dir + "/" + init;
      assert name == init + [name[|name| - 1]];
    }
  }


  /** `out` is `seg` with a `thumbnail` key holding `thumbnail`, and
      otherwise the same. */
  predicate HasThumbnail(out: Segment, seg: Segment, thumbnail: Bytes) {
    && out.words == seg.words
    && out.fields.Keys == seg.fields.Keys + {"thumbnail"}
    && out.fields["thumbnail"] == Blob(thumbnail)
    && forall k :: k in seg.fields && k != "thumbnail" ==> out.fields[k] == seg.fields[k]
  }

  /** `segment["thumbnail"] = thumbnail`. */
  function WithThumbnail(seg: Segment, thumbnail: Bytes): (out: Segment)
    ensures HasThumbnail(out, seg, thumbnail)
  {
    seg.(fields := seg.fields["thumbnail" := Blob(thumbnail)])
  }

  /** The thumbnail loop: each segment in order gets a `thumbnail` key holding
      the frame at its `start`. A segment without `start` is a KeyError; the
      first failing segment ends the loop. */
  function AttachThumbnails(
    fs: FileSystem, ffmpegFrame: (Bytes, int, Scalar) -> Bytes, videoPath: string, width: int, segs: seq<Segment>
  ): (r: Result<seq<Segment>>)
    ensures r.Ok? <==> (forall i :: 0 <= i < |segs| ==> "start" in segs[i].fields)
                       && (|segs| > 0 ==> videoPath in fs.files)
    ensures |segs| > 0 && "start" !in segs[0].fields ==> r == Err(MissingKey("start"))
    ensures r.Err? ==> r.error == MissingKey("start") || r.error == ToolFailure("ffmpeg")
    ensures r.Ok? ==> |r.value| == |segs|
    ensures r.Ok? ==> forall i :: 0 <= i < |segs| ==>
      HasThumbnail(r.value[i], segs[i], ffmpegFrame(fs.files[videoPath], width, segs[i].fields["start"]))
  {
    if |segs| == 0 then Ok([])
    else
      var start :- Lookup(segs[0].fields, "start");
      var thumbnail :- GetThumbnail(fs, ffmpegFrame, videoPath, width, start);
      var rest :- AttachThumbnails(fs, ffmpegFrame, videoPath, width, segs[1..]);
      assert forall i :: 1 <= i < |segs| ==> segs[i] == segs[1..][i - 1];
      Ok([WithThumbnail(segs[0], thumbnail)] + rest)
  }

  /** `out` is `segs`, in order, each with the thumbnail taken at its own
      `start` from the video's bytes at the given width. */
  predicate ThumbnailedSegments(
    video: Bytes, ffmpegFrame: (Bytes, int, Scalar) -> Bytes, width: int, segs: seq<Segment>, out: seq<Segment>
  ) {
    && |out| == |segs|
    && forall i :: 0 <= i < |segs| ==>
         "start" in segs[i].fields && HasThumbnail(out[i], segs[i], ffmpegFrame(video, width, segs[i].fields["start"]))
  }

  /** The payload `process_video` hands to `save_data`, stage by stage: the
      video row names the video's and GPS log's file names, the video's MD5
      and the dumped probe; the audio row its file name and MD5; the
      transcription row the dumped configuration; the text segments are the
      engine's segments one for one, each with its thumbnail; the GPS rows
      are the parsed log, in order. */
  predicate AssembledPayload(
    fs: FileSystem, t: Tools, videoPath: string, audioPath: string, gpsPath: string, cfg: EndToEndConfig, p: Payload
  ) {
    && videoPath in fs.files && audioPath in fs.files
    && cfg.transcriptionConfig.Some?
    && p.video == VideoKwargs(GetFname(videoPath), t.md5Hex(fs.files[videoPath]), GetFname(gpsPath),
                              t.dumpJson(t.ffprobe(fs.files[videoPath])))
    && p.audio == AudioKwargs(GetFname(audioPath), t.md5Hex(fs.files[audioPath]))
    && p.transcription == TranscriptionKwargs(t.dumpConfig(cfg.transcriptionConfig.value))
    && TranscribeAudioWhisper(t.whisper, fs, audioPath, cfg.transcriptionConfig.value).Ok?
    && ThumbnailedSegments(fs.files[videoPath], t.ffmpegFrame, cfg.thumbnailWidth,
                           TranscribeAudioWhisper(t.whisper, fs, audioPath, cfg.transcriptionConfig.value).value,
                           p.textSegments)
    && ParseGpsFile(fs, t.readCsv, gpsPath, cfg.sourceVideoType) == Ok(p.gps)
  }

  /** Adding a thumbnail determines the segment. */
  lemma HasThumbnailUnique(a: Segment, b: Segment, seg: Segment, thumbnail: Bytes)
    requires HasThumbnail(a, seg, thumbnail) && HasThumbnail(b, seg, thumbnail)
    ensures a == b
  {
    assert a.fields == b.fields;
  }

  /** The thumbnailed segments are determined by the segments. */
  lemma ThumbnailedSegmentsUnique(
    video: Bytes, ffmpegFrame: (Bytes, int, Scalar) -> Bytes, width: int, segs: seq<Segment>, a: seq<Segment>, b: seq<Segment>
  )
    requires ThumbnailedSegments(video, ffmpegFrame, width, segs, a)
    requires ThumbnailedSegments(video, ffmpegFrame, width, segs, b)
    ensures a == b
  {
    forall i | 0 <= i < |segs| ensures a[i] == b[i] {
      HasThumbnailUnique(a[i], b[i], segs[i], ffmpegFrame(video, width, segs[i].fields["start"]));
    }
  }

  /** The inputs determine the payload. */
  lemma AssembledPayloadUnique(
    fs: FileSystem, t: Tools, videoPath: string, audioPath: string, gpsPath: string, cfg: EndToEndConfig, p: Payload, q: Payload
  )
    requires AssembledPayload(fs, t, videoPath, audioPath, gpsPath, cfg, p)
    requires AssembledPayload(fs, t, videoPath, audioPath, gpsPath, cfg, q)
    ensures p == q
  {
    var segs := TranscribeAudioWhisper(t.whisper, fs, audioPath, cfg.transcriptionConfig.value).value;
    ThumbnailedSegmentsUnique(fs.files[videoPath], t.ffmpegFrame, cfg.thumbnailWidth, segs, p.textSegments, q.textSegments);
  }

  /** The thumbnail loop succeeds on a readable video when every segment
      has a `start`, and its result is the thumbnailed segments. */
  lemma AttachThumbnailsThumbnailed(
    fs: FileSystem, ffmpegFrame: (Bytes, int, Scalar) -> Bytes, videoPath: string, width: int, segs: seq<Segment>
  )
    requires videoPath in fs.files && forall i :: 0 <= i < |segs| ==> "start" in segs[i].fields
    ensures AttachThumbnails(fs, ffmpegFrame, videoPath, width, segs).Ok?
    ensures ThumbnailedSegments(fs.files[videoPath], ffmpegFrame, width, segs,
                                AttachThumbnails(fs, ffmpegFrame, videoPath, width, segs).value)
  {
  }

  /** When every stage before the save succeeds, the payload exists. */
  lemma PayloadAssembles(
    fs: FileSystem, t: Tools, videoPath: string, audioPath: string, gpsPath: string, cfg: EndToEndConfig,
    segs: seq<Segment>, gps: seq<Record>
  )
    requires videoPath in fs.files && audioPath in fs.files && cfg.transcriptionConfig.Some?
    requires TranscribeAudioWhisper(t.whisper, fs, audioPath, cfg.transcriptionConfig.value) == Ok(segs)
    requires forall i :: 0 <= i < |segs| ==> "start" in segs[i].fields
    requires ParseGpsFile(fs, t.readCsv, gpsPath, cfg.sourceVideoType) == Ok(gps)
    ensures exists p :: AssembledPayload(fs, t, videoPath, audioPath, gpsPath, cfg, p)
  {
    AttachThumbnailsThumbnailed(fs, t.ffmpegFrame, videoPath, cfg.thumbnailWidth, segs);
    var withThumbnails := AttachThumbnails(fs, t.ffmpegFrame, videoPath, cfg.thumbnailWidth, segs).value;
    var video := fs.files[videoPath];
    var p := Payload(
      VideoKwargs(GetFname(videoPath), t.md5Hex(video), GetFname(gpsPath), t.dumpJson(t.ffprobe(video))),
      AudioKwargs(GetFname(audioPath), t.md5Hex(fs.files[audioPath])),
      TranscriptionKwargs(t.dumpConfig(cfg.transcriptionConfig.value)),
      withThumbnails,
      gps);
    assert ThumbnailedSegments(video, t.ffmpegFrame, cfg.thumbnailWidth, segs, p.textSegments);
    assert AssembledPayload(fs, t, videoPath, audioPath, gpsPath, cfg, p);
  }

  /** Everything after the audio extraction, on the file system the
      extraction left: metadata, transcription, thumbnails, GPS, checksums,
      then one `save_data`. */
  function Ingest(
    fs: FileSystem, store: Store, t: Tools, videoPath: string, audioPath: string, gpsPath: string, cfg: EndToEndConfig
  ): (r: Result<Store>)
    requires WellFormed(store)
    ensures !Exists(fs, videoPath) ==> r == Err(FileNotFound(videoPath))
    ensures cfg.sourceVideoType != TrackAddict ==> r.Err?
    ensures cfg.transcriptionConfig.None? && videoPath in fs.files ==> r.Err? && r.error.InvalidValue?
    ensures r.Ok? ==> WellFormed(r.value) && KeepsStored(store, r.value)
    ensures r.Ok? ==> videoPath in fs.files && audioPath in fs.files
    ensures r.Ok? ==> VideoStored(r.value, t.md5Hex(fs.files[videoPath]))
                      && AudioStored(r.value, t.md5Hex(fs.files[audioPath]))
    ensures r.Ok? && VideoStored(store, t.md5Hex(fs.files[videoPath])) ==> r.value.videos == store.videos
    ensures r.Ok? && AudioStored(store, t.md5Hex(fs.files[audioPath])) ==> r.value.audios == store.audios
    ensures r.Ok? ==> |r.value.transcriptions| == |store.transcriptions| + 1
    ensures r.Ok? ==> forall k :: |store.textSegments| <= k < |r.value.textSegments| ==>
                        r.value.textSegments[k].thumbnail.Blob?
    ensures r.Ok? ==> exists p :: AssembledPayload(fs, t, videoPath, audioPath, gpsPath, cfg, p)
                                  && SaveData(store, p) == r
    ensures forall p :: AssembledPayload(fs, t, videoPath, audioPath, gpsPath, cfg, p) ==> r == SaveData(store, p)
  {
    var metadata :- GetMetadata(fs, t.ffprobe, videoPath);
    var segs :- TranscribeAudio(t.whisper, fs, audioPath, cfg.transcriptionConfig);
    var withThumbnails :- AttachThumbnails(fs, t.ffmpegFrame, videoPath, cfg.thumbnailWidth, segs);
    var gps :- ParseGpsFile(fs, t.readCsv, gpsPath, cfg.sourceVideoType);
    // Both files were read above, so fingerprinting them cannot fail.
    var videoChecksum := GetChecksum(fs, t.md5Hex, videoPath).value;
    var audioChecksum := GetChecksum(fs, t.md5Hex, audioPath).value;
    var payload := Payload(
      VideoKwargs(GetFname(videoPath), videoChecksum, GetFname(gpsPath), t.dumpJson(metadata)),
      AudioKwargs(GetFname(audioPath), audioChecksum),
      TranscriptionKwargs(t.dumpConfig(cfg.transcriptionConfig.value)),
      withThumbnails,
      gps);
    assert AssembledPayload(fs, t, videoPath, audioPath, gpsPath, cfg, payload);
    forall p | AssembledPayload(fs, t, videoPath, audioPath, gpsPath, cfg, p) ensures p == payload {
      AssembledPayloadUnique(fs, t, videoPath, audioPath, gpsPath, cfg, p, payload);
    }
    var saved :- SaveData(store, payload);
    SavedParentsStored(store, payload);
    ThumbnailsStored(store, payload, saved);
    Ok(saved)
  }

  /** Rows saved from segments that all carry a Blob thumbnail carry one too. */
  lemma ThumbnailsStored(s: Store, p: Payload, r: Store)
    requires AddedSegments(s, p, r)
    requires forall i :: 0 <= i < |p.textSegments| ==>
      "thumbnail" in p.textSegments[i].fields && p.textSegments[i].fields["thumbnail"].Blob?
    ensures forall k :: |s.textSegments| <= k < |r.textSegments| ==> r.textSegments[k].thumbnail.Blob?
  {
    var rows := r.textSegments[|s.textSegments|..];
    forall k | |s.textSegments| <= k < |r.textSegments|
      ensures r.textSegments[k].thumbnail.Blob?
    {
      assert r.textSegments[k] == rows[k - |s.textSegments|];
    }
  }

  /** `process_video(video_path, audio_path, gps_path, repository, job_config)`.
      The extracted audio stays on disk whatever happens later; the database
      changes only when the whole run succeeds. */
  function ProcessVideo(
    fs: FileSystem, store: Store, t: Tools, videoPath: string, audioPath: string, gpsPath: string, cfg: EndToEndConfig
  ): (r: Run)
    requires WellFormed(store)
    ensures WellFormed(r.store)
    ensures !Exists(fs, videoPath) ==> r == Run(fs, store, Raised(FileNotFound(videoPath)))
    ensures ExtractAudio(fs, t.ffmpegAudio, videoPath, audioPath, false).Err? ==>
      r == Run(fs, store, Raised(ExtractAudio(fs, t.ffmpegAudio, videoPath, audioPath, false).error))
    ensures ExtractAudio(fs, t.ffmpegAudio, videoPath, audioPath, false).Ok? ==>
      r.fs == ExtractAudio(fs, t.ffmpegAudio, videoPath, audioPath, false).value.fs
    ensures r.outcome.Raised? ==> r.store == store
    ensures cfg.sourceVideoType != TrackAddict ==> r.outcome.Raised? && r.store == store
    ensures r.outcome.Normal? ==> KeepsStored(store, r.store)
    ensures r.outcome.Normal? ==> videoPath in r.fs.files && audioPath in r.fs.files
    ensures r.outcome.Normal? ==> VideoStored(r.store, t.md5Hex(r.fs.files[videoPath]))
                                  && AudioStored(r.store, t.md5Hex(r.fs.files[audioPath]))
    ensures r.outcome.Normal? && VideoStored(store, t.md5Hex(r.fs.files[videoPath])) ==>
      r.store.videos == store.videos
    ensures r.outcome.Normal? && AudioStored(store, t.md5Hex(r.fs.files[audioPath])) ==>
      r.store.audios == store.audios
    ensures r.outcome.Normal? ==>
      exists p :: AssembledPayload(r.fs, t, videoPath, audioPath, gpsPath, cfg, p) && SaveData(store, p) == Ok(r.store)
    ensures ExtractAudio(fs, t.ffmpegAudio, videoPath, audioPath, false).Ok? ==>
      forall p :: AssembledPayload(r.fs, t, videoPath, audioPath, gpsPath, cfg, p) ==>
        (r.outcome.Normal? <==> SaveData(store, p).Ok?) && (r.outcome.Normal? ==> r.store == SaveData(store, p).value)
  {
    match ExtractAudio(fs, t.ffmpegAudio, videoPath, audioPath, false)
    case Err(e) => Run(fs, store, Raised(e))
    case Ok(extraction) =>
      match Ingest(extraction.fs, store, t, videoPath, audioPath, gpsPath, cfg)
      case Err(e) => Run(extraction.fs, store, Raised(e))
      case Ok(saved) => Run(extraction.fs, saved, Normal)
  }

  /** A run without a transcription configuration fails after the audio was
      extracted: the audio file is left behind and the database is untouched. */
  lemma MissingConfigKeepsExtractedAudio(
    fs: FileSystem, store: Store, t: Tools, videoPath: string, audioPath: string, gpsPath: string, cfg: EndToEndConfig)
    requires WellFormed(store)
    requires videoPath in fs.files && !Exists(fs, audioPath)
    requires cfg.transcriptionConfig.None?
    ensures var r := ProcessVideo(fs, store, t, videoPath, audioPath, gpsPath, cfg);
      && r.outcome.Raised? && r.outcome.error.InvalidValue?
      && audioPath in r.fs.files
      && r.fs.files[audioPath] == t.ffmpegAudio(fs.files[videoPath])
      && r.store == store
  {
    var ex := ExtractAudio(fs, t.ffmpegAudio, videoPath, audioPath, false);
    assert ex.Ok? && ex.value.fs.files == fs.files[audioPath := t.ffmpegAudio(fs.files[videoPath])];
    assert videoPath in ex.value.fs.files;
  }

  /** Processing the same files a second time reuses the stored Video and
      Audio rows: the second run does not re-extract the audio, so both
      checksums are those already stored. */
  lemma {:induction false} ReprocessingReusesParents(
    fs: FileSystem, store: Store, t: Tools, videoPath: string, audioPath: string, gpsPath: string, cfg: EndToEndConfig)
    requires WellFormed(store)
    requires ProcessVideo(fs, store, t, videoPath, audioPath, gpsPath, cfg).outcome.Normal?
    ensures var r1 := ProcessVideo(fs, store, t, videoPath, audioPath, gpsPath, cfg);
            var r2 := ProcessVideo(r1.fs, r1.store, t, videoPath, audioPath, gpsPath, cfg);
            && r2.fs == r1.fs
            && (r2.outcome.Normal? ==> r2.store.videos == r1.store.videos && r2.store.audios == r1.store.audios)
  {
    var r1 := ProcessVideo(fs, store, t, videoPath, audioPath, gpsPath, cfg);
    assert Exists(r1.fs, videoPath) && Exists(r1.fs, audioPath);
    assert ExtractAudio(r1.fs, t.ffmpegAudio, videoPath, audioPath, false) == Ok(Extraction(r1.fs, 0));
  }
}
