/** The guard logic around the ffmpeg calls: audio extraction with its
    skip-if-present shortcut, metadata probing, thumbnails, clips and the
    video length. ffmpeg and ffprobe are function parameters. */
module VideoProcessing {

  import opened Wrappers
  import opened Values

  /** The file system after an extraction and how many times ffmpeg ran. */
  datatype Extraction = Extraction(fs: FileSystem, ffmpegRuns: nat)

  /** `extract_audio(video_path, audio_path, overwrite=...)`; `ffmpegAudio`
      stands for the ffmpeg conversion of the video's bytes. ffmpeg runs
      without `overwrite_output`, so it refuses an output that already
      exists: `overwrite` only gets past the skip, never replaces a file. */
  function ExtractAudio(
    fs: FileSystem, ffmpegAudio: Bytes -> Bytes, videoPath: string, audioPath: string, overwrite: bool
  ): (r: Result<Extraction>)
    ensures !Exists(fs, videoPath) ==> r == Err(FileNotFound(videoPath))
    ensures Exists(fs, videoPath) && Exists(fs, audioPath) && !overwrite ==> r == Ok(Extraction(fs, 0))
    ensures Exists(fs, videoPath) && Exists(fs, audioPath) && overwrite ==> r == Err(ToolFailure("ffmpeg"))
    ensures Exists(fs, videoPath) && !Exists(fs, audioPath) ==> (r.Ok? <==> videoPath in fs.files)
    ensures r.Ok? && r.value.ffmpegRuns != 0 ==>
      && r.value.ffmpegRuns == 1
      && videoPath in fs.files && !Exists(fs, audioPath)
      && r.value.fs.dirs == fs.dirs
      && r.value.fs.files == fs.files[audioPath := ffmpegAudio(fs.files[videoPath])]
    ensures r.Ok? ==> r.value.ffmpegRuns == 0 ==> r.value.fs == fs
  {
    if !Exists(fs, videoPath) then Err(FileNotFound(videoPath))
    else if Exists(fs, audioPath) && !overwrite then Ok(Extraction(fs, 0))
    else if videoPath !in fs.files || Exists(fs, audioPath) then Err(ToolFailure("ffmpeg"))
    else Ok(Extraction(fs.(files := fs.files[audioPath := ffmpegAudio(fs.files[videoPath])]), 1))
  }

  /** Asking to overwrite an audio file that is already there fails inside
      ffmpeg, and the old file stays. */
  lemma ExtractAudioOverwriteRefused(ffmpegAudio: Bytes -> Bytes)
    ensures var fs := FileSystem(map["v.mp4" := [], "a.wav" := [1]], {});
      ExtractAudio(fs, ffmpegAudio, "v.mp4", "a.wav", true) == Err(ToolFailure("ffmpeg"))
  {
  }

  /** Re-running an extraction without `overwrite` never invokes ffmpeg again
      and leaves the file system as the first run left it. */
  lemma ExtractAudioIsIdempotent(
    fs: FileSystem, ffmpegAudio: Bytes -> Bytes, videoPath: string, audioPath: string, overwrite: bool)
    requires ExtractAudio(fs, ffmpegAudio, videoPath, audioPath, overwrite).Ok?
    ensures var fs1 := ExtractAudio(fs, ffmpegAudio, videoPath, audioPath, overwrite).value.fs;
      ExtractAudio(fs1, ffmpegAudio, videoPath, audioPath, false) == Ok(Extraction(fs1, 0))
  {
  }

  /** `get_metadata(video_path)`: the probe's result, unchanged. */
  function GetMetadata(fs: FileSystem, ffprobe: Bytes -> Json, videoPath: string): (r: Result<Json>)
    ensures !Exists(fs, videoPath) ==> r == Err(FileNotFound(videoPath))
    ensures r.Ok? <==> videoPath in fs.files
    ensures r.Ok? ==> r.value == ffprobe(fs.files[videoPath])
  {
    if !Exists(fs, videoPath) then Err(FileNotFound(videoPath))
    else if videoPath !in fs.files then Err(ToolFailure("ffprobe"))
    else Ok(ffprobe(fs.files[videoPath]))
  }

  /** `get_thumbnail(video_path, width, time)`: no existence check of its own;
      a missing video surfaces as ffmpeg's error, never as FileNotFoundError. */
  function GetThumbnail(
    fs: FileSystem, ffmpegFrame: (Bytes, int, Scalar) -> Bytes, videoPath: string, width: int, time: Scalar
  ): (r: Result<Bytes>)
    ensures r.Ok? <==> videoPath in fs.files
    ensures r.Err? ==> r.error == ToolFailure("ffmpeg")
  {
    if videoPath in fs.files then Ok(ffmpegFrame(fs.files[videoPath], width, time))
    else Err(ToolFailure("ffmpeg"))
  }

  /** The thumbnail is a function of the video's bytes, the width and the time only. */
  lemma ThumbnailDependsOnlyOnInputs(
    fs1: FileSystem, p1: string, fs2: FileSystem, p2: string,
    ffmpegFrame: (Bytes, int, Scalar) -> Bytes, width: int, time: Scalar)
    requires p1 in fs1.files && p2 in fs2.files && fs1.files[p1] == fs2.files[p2]
    ensures GetThumbnail(fs1, ffmpegFrame, p1, width, time) == GetThumbnail(fs2, ffmpegFrame, p2, width, time)
  {
  }

  /** `save_clip(video_path, start, end, output_path)` as written: its checks
      build exception objects without raising them, so only ffmpeg's own
      failures surface: an unreadable input, an output that is a directory,
      or an end (`-to`) not after the start (`-ss`). */
  function SaveClip(
    fs: FileSystem, ffmpegClip: (Bytes, real, real) -> Bytes,
    videoPath: string, start: real, end: real, outputPath: string
  ): (r: Result<FileSystem>)
    ensures r.Ok? <==> videoPath in fs.files && outputPath !in fs.dirs && start < end
    ensures r.Err? ==> r.error == ToolFailure("ffmpeg")
    ensures r.Ok? ==> r.value.dirs == fs.dirs
    ensures r.Ok? ==> r.value.files == fs.files[outputPath := ffmpegClip(fs.files[videoPath], start, end)]
  {
    if videoPath in fs.files && outputPath !in fs.dirs && start < end then
      Ok(fs.(files := fs.files[outputPath := ffmpegClip(fs.files[videoPath], start, end)]))
    else Err(ToolFailure("ffmpeg"))
  }

  /** A half-second clip gets past the unraised duration check and is
      written, although `save_clip` documents it as rejected. */
  lemma SaveClipAcceptsInvalidRange(ffmpegClip: (Bytes, real, real) -> Bytes)
    ensures var fs := FileSystem(map["v.mp4" := []], {});
      && SaveClip(fs, ffmpegClip, "v.mp4", 0.0, 0.5, "c.mp4").Ok?
      && SaveClipChecked(fs, ffmpegClip, "v.mp4", 0.0, 0.5, "c.mp4").Err?
  {
  }

  /** `save_clip` with its documented checks raised, in the order written. */
  function SaveClipChecked(
    fs: FileSystem, ffmpegClip: (Bytes, real, real) -> Bytes,
    videoPath: string, start: real, end: real, outputPath: string
  ): (r: Result<FileSystem>)
    ensures !Exists(fs, videoPath) ==> r == Err(FileNotFound(videoPath))
    ensures r.Ok? ==> 0.0 <= start <= end && end - start >= 1.0
    ensures Exists(fs, videoPath) && (start < 0.0 || start > end || end - start < 1.0) ==> r.Err? && r.error.InvalidValue?
    ensures Exists(fs, videoPath) && 0.0 <= start && end - start >= 1.0 ==>
      r == SaveClip(fs, ffmpegClip, videoPath, start, end, outputPath)
  {
    if !Exists(fs, videoPath) then Err(FileNotFound(videoPath))
    else if start < 0.0 then Err(InvalidValue("Start time cannot be negative."))
    else if start > end then Err(InvalidValue("Start time cannot be greater than end time."))
    else if end - start < 1.0 then Err(InvalidValue("Clip duration cannot be less than 1 second."))
    else SaveClip(fs, ffmpegClip, videoPath, start, end, outputPath)
  }

  /** The probe output has a "format" object holding a "duration" entry. */
  predicate HasDuration(metadata: Json) {
    && metadata.JObj? && "format" in metadata.fields && metadata.fields["format"].JObj?
    && "duration" in metadata.fields["format"].fields
  }

  /** `float(metadata.get("format", {}).get("duration", -1))`; `parseFloat`
      stands for `float()` on a string, None when it raises. */
  function DurationOf(metadata: Json, parseFloat: string -> Option<real>): (r: Result<real>)
    ensures !metadata.JObj? ==> r == Err(MissingAttribute("get"))
    ensures metadata.JObj? && "format" !in metadata.fields ==> r == Ok(-1.0)
    ensures metadata.JObj? && "format" in metadata.fields && !metadata.fields["format"].JObj? ==>
      r == Err(MissingAttribute("get"))
    ensures (metadata.JObj? && "format" in metadata.fields && metadata.fields["format"].JObj?
             && "duration" !in metadata.fields["format"].fields) ==> r == Ok(-1.0)
    ensures HasDuration(metadata) ==>
      var d := metadata.fields["format"].fields["duration"];
      && (d.JNum? ==> r == Ok(d.x))
      && (d.JBool? ==> r == Ok(if d.b then 1.0 else 0.0))
      && (d.JStr? ==> (r.Ok? <==> parseFloat(d.s).Some?) && (r.Ok? ==> r.value == parseFloat(d.s).value))
      && (d.JStr? && r.Err? ==> r.error.InvalidValue?)
      && ((d.JNull? || d.JArr? || d.JObj?) ==> r.Err? && r.error.WrongType?)
    ensures r.Err? ==> r.error == MissingAttribute("get") || r.error.InvalidValue? || r.error.WrongType?
  {
    if !metadata.JObj? then Err(MissingAttribute("get"))
    else if "format" !in metadata.fields then Ok(-1.0)
    else
      var format := metadata.fields["format"];
      if !format.JObj? then Err(MissingAttribute("get"))
      else if "duration" !in format.fields then Ok(-1.0)
      else match format.fields["duration"]
        case JNum(x) => Ok(x)
        case JBool(b) => Ok(if b then 1.0 else 0.0)
        case JStr(s) => (match parseFloat(s) case Some(x) => Ok(x) case None => Err(InvalidValue("could not convert string to float")))
        case _ => Err(WrongType("float() argument must be a string or a real number"))
  }

  /** `get_video_length(video_path)` as written: the existence check builds an
      exception without raising it, so a missing file reaches ffprobe. */
  function GetVideoLength(
    fs: FileSystem, ffprobe: Bytes -> Json, parseFloat: string -> Option<real>, videoPath: string
  ): (r: Result<real>)
    ensures videoPath !in fs.files ==> r == Err(ToolFailure("ffprobe"))
    ensures videoPath in fs.files ==> r == DurationOf(ffprobe(fs.files[videoPath]), parseFloat)
  {
    if videoPath !in fs.files then Err(ToolFailure("ffprobe"))
    else DurationOf(ffprobe(fs.files[videoPath]), parseFloat)
  }

  /** `get_video_length` with the documented FileNotFoundError raised. */
  function GetVideoLengthChecked(
    fs: FileSystem, ffprobe: Bytes -> Json, parseFloat: string -> Option<real>, videoPath: string
  ): (r: Result<real>)
    ensures !Exists(fs, videoPath) ==> r == Err(FileNotFound(videoPath))
    ensures Exists(fs, videoPath) ==> r == GetVideoLength(fs, ffprobe, parseFloat, videoPath)
  {
    if !Exists(fs, videoPath) then Err(FileNotFound(videoPath))
    else GetVideoLength(fs, ffprobe, parseFloat, videoPath)
  }

  /** A missing video is reported by ffprobe's error, not the documented FileNotFoundError. */
  lemma VideoLengthMissingFileNotReported(ffprobe: Bytes -> Json, parseFloat: string -> Option<real>)
    ensures var fs := FileSystem(map[], {});
      GetVideoLength(fs, ffprobe, parseFloat, "missing.mp4") == Err(ToolFailure("ffprobe"))
      && GetVideoLengthChecked(fs, ffprobe, parseFloat, "missing.mp4") == Err(FileNotFound("missing.mp4"))
  {
  }
}
