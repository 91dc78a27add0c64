/** Run configuration: the Whisper model settings with their whitelist
    check, the end-to-end job settings and the source-device variant. */
module JobConfig {

  import opened Wrappers
  import opened Values

  /** The device that recorded the GPS log; exactly these two members. */
  datatype VideoType = GoPro | TrackAddict

  /** The model names Whisper accepts. The whitelist is not a constructor
      parameter (the source declares it `init=False`), so no caller can alter it. */
  const ValidModelNames: seq<string> :=
    ["tiny", "tiny.en", "base", "base.en", "small", "small.en", "medium", "medium.en", "large"]

  const DefaultModelName: string := "tiny.en"
  const DefaultDownloadLocation: string := "."
  const DefaultThumbnailWidth: int := 300

  /** A validated Whisper configuration; `transcribeKwargs` are passed through to the engine. */
  datatype WhisperConfig = WhisperConfig(
    modelName: string,
    downloadLocation: string,
    transcribeKwargs: map<string, Scalar>)

  /** The outcome of running the dataclass constructor: the file system after
      its side effect, and the configuration or the error it raised. */
  datatype Construction = Construction(fs: FileSystem, config: Result<WhisperConfig>)

  /** `WhisperConfig(model_name, download_location, transcribe_kwargs)`: the
      download directory is created when absent, and only then is the model
      name checked, so a rejected name still leaves the directory behind.
      The empty location never exists, and creating it raises
      FileNotFoundError before the name is looked at. */
  function NewWhisperConfig(
    fs: FileSystem, modelName: string, downloadLocation: string, kwargs: map<string, Scalar>
  ): (r: Construction)
    ensures downloadLocation == "" ==> r == Construction(fs, Err(FileNotFound("")))
    ensures downloadLocation != "" ==> Exists(r.fs, downloadLocation)
    ensures r.fs.files == fs.files
    ensures Exists(fs, downloadLocation) ==> r.fs == fs
    ensures !Exists(fs, downloadLocation) && downloadLocation != "" ==> r.fs.dirs == fs.dirs + {downloadLocation}
    ensures r.config.Ok? <==> downloadLocation != "" && modelName in ValidModelNames
    ensures r.config.Ok? ==> r.config.value == WhisperConfig(modelName, downloadLocation, kwargs)
    ensures r.config.Err? && downloadLocation != "" ==> r.config.error.InvalidValue?
  {
    if downloadLocation == "" then Construction(fs, Err(FileNotFound("")))
    else
      var fs' := if Exists(fs, downloadLocation) then fs
                 else fs.(dirs := fs.dirs + {downloadLocation});
      if modelName in ValidModelNames then Construction(fs', Ok(WhisperConfig(modelName, downloadLocation, kwargs)))
      else Construction(fs', Err(InvalidValue("Invalid model name " + modelName)))
  }

  /** Whether a configuration is accepted never depends on the file system,
      and constructing it again on the file system it left changes nothing. */
  lemma WhisperConfigValidation(
    fs1: FileSystem, fs2: FileSystem, modelName: string, downloadLocation: string, kwargs: map<string, Scalar>
  )
    ensures NewWhisperConfig(fs1, modelName, downloadLocation, kwargs).config
         == NewWhisperConfig(fs2, modelName, downloadLocation, kwargs).config
    ensures var r := NewWhisperConfig(fs1, modelName, downloadLocation, kwargs);
      NewWhisperConfig(r.fs, modelName, downloadLocation, kwargs) == r
  {
  }

  /** `WhisperConfig()` with every default. */
  function DefaultWhisperConfig(fs: FileSystem): (r: Construction)
    ensures r.config == Ok(WhisperConfig("tiny.en", ".", map[]))
    ensures Exists(r.fs, ".")
  {
    NewWhisperConfig(fs, DefaultModelName, DefaultDownloadLocation, map[])
  }

  /** A name outside the whitelist is rejected, yet the directory is still
      created (unless the location is empty, which fails first). */
  lemma InvalidNameRejectedAfterDirectoryCreated(fs: FileSystem, downloadLocation: string)
    requires !Exists(fs, downloadLocation)
    ensures var r := NewWhisperConfig(fs, "huge", downloadLocation, map[]);
      && r.config.Err?
      && (downloadLocation != "" ==> r.config.error.InvalidValue? && downloadLocation in r.fs.dirs)
  {
  }

  /** The job settings. `transcriptionConfig` may be absent. */
  datatype EndToEndConfig = EndToEndConfig(
    transcriptionConfig: Option<WhisperConfig>,
    sourceVideoType: VideoType,
    thumbnailWidth: int)

  /** `EndToEndConfig(transcription_config, source_video_type)` with the default width. */
  function NewEndToEndConfig(tc: Option<WhisperConfig>, vt: VideoType): (r: EndToEndConfig)
    ensures r.thumbnailWidth == 300
    ensures r.transcriptionConfig == tc && r.sourceVideoType == vt
  {
    EndToEndConfig(tc, vt, DefaultThumbnailWidth)
  }
}
